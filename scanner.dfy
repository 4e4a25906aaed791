/** The struct scanner: pasted Go source in, a list of struct definitions out.

    The scanner makes two passes over the lines of the text. Pass 1 fills the alias table from
    `type A B` lines whose `B` is not `struct`. Pass 2 keeps at most one open "working
    definition": a header line opens one (dropping any open one), a line `}` closes it and emits
    it, and any other line is tried as a field of it. The functions below state what each pass
    computes, line by line; the class `StructScanner` runs the passes as the source does, in a loop
    that updates the alias table, the working definition and the list of definitions. */
module Scanner {
  import opened Wrappers
  import opened Strings
  import opened Patterns

  datatype FieldDef = FieldDef(name: string, typ: string, jsonName: string)

  datatype StructDef = StructDef(name: string, fields: seq<FieldDef>)

  /** Alias name to the type it stands for. */
  type AliasTable = map<string, string>

  /** The cheap test both passes start with: text that is empty or lacks ` struct {` is not
      looked at. */
  predicate LooksLikeGo(text: string)
    ensures LooksLikeGo(text) ==> |text| >= |" struct {"|
  {
    |text| > 0 && Contains(text, " struct {")
  }

  /** A trimmed line both passes ignore: blank, or a comment starting with `/`. */
  predicate Skipped(line: string) {
    |line| == 0 || StartsWith(line, '/')
  }

  /** The header match of a raw line, if the line is not ignored. */
  function HeaderOf(raw: string): Option<Header> {
    var line := Trim(raw);
    if Skipped(line) then None else MatchHeader(line)
  }

  // ----- pass 1: the alias table -----

  /** The alias `(name, target)` a raw line declares: a header whose second word is not
      `struct`. */
  function AliasOf(raw: string): Option<(string, string)> {
    match HeaderOf(raw)
    case None => None
    case Some(h) =>
      var name, target := Trim(h.name), Trim(h.kind);
      if target != "struct" then Some((name, target)) else None
  }

  /** One line of pass 1: a declaration sets its alias, overwriting any earlier one. */
  function Declare(table: AliasTable, decl: Option<(string, string)>): AliasTable {
    match decl
    case None => table
    case Some((name, target)) => table[name := target]
  }

  function AliasLine(table: AliasTable, raw: string): AliasTable {
    Declare(table, AliasOf(raw))
  }

  /** The table after declarations `decls`, in order. */
  function Record(table: AliasTable, decls: seq<Option<(string, string)>>): AliasTable
    decreases |decls|
  {
    if decls == [] then table else Declare(Record(table, decls[..|decls| - 1]), decls[|decls| - 1])
  }

  /** The declaration of each line. */
  function Decls(lines: seq<string>): seq<Option<(string, string)>> {
    MapLines(AliasOf, lines)
  }

  /** The alias table after pass 1 has looked at `lines`, in order. */
  function CollectAliases(table: AliasTable, lines: seq<string>): AliasTable {
    Record(table, Decls(lines))
  }

  /** Pass 1 over one more line updates the table by that line. */
  lemma CollectAliasesSnoc(table: AliasTable, lines: seq<string>, raw: string)
    ensures CollectAliases(table, lines + [raw]) == AliasLine(CollectAliases(table, lines), raw)
  {
    MapLinesAppend(AliasOf, lines, [raw]);
  }

  /** What pass 1 leaves in the table it started with. */
  function Pass1(table: AliasTable, text: string): AliasTable {
    if LooksLikeGo(text) then CollectAliases(table, Split(text)) else table
  }

  // ----- fields -----

  /** The tag options crudely removed from a json name: the first `string`, then the first
      `omitempty`, then the first comma, then surrounding white space. */
  function StripTagOptions(content: string): (r: string)
    ensures r == "" || (!IsSpace(r[0]) && !IsSpace(r[|r| - 1]))
  {
    Trim(ReplaceFirst(ReplaceFirst(ReplaceFirst(content, "string"), "omitempty"), ","))
  }

  /** The name a field is emitted under: from a `json:"…"` in its tag if there is one, otherwise
      the Go field name. */
  function JsonName(name: string, tag: Option<string>): string {
    match tag
    case None => name
    case Some(t) =>
      match MatchJsonTag(t)
      case None => name
      case Some(content) => StripTagOptions(content)
  }

  /** The emitted type: `bool` becomes `boolean`, and then the result is looked up once in the
      alias table (a present, non-empty value replaces it). */
  function ResolveType(table: AliasTable, typ: string): string {
    var t := if typ == "bool" then "boolean" else typ;
    if t in table && table[t] != "" then table[t] else t
  }

  /** The field a trimmed line contributes to the working definition: none when the line does not
      match the field pattern or its json name is `-`. */
  function FieldOf(table: AliasTable, line: string): Option<FieldDef> {
    match MatchField(line)
    case None => None
    case Some(m) =>
      var name := Trim(m.name);
      var jsonName := JsonName(name, m.tag);
      if jsonName == "-" then None else Some(FieldDef(name, ResolveType(table, m.typ), jsonName))
  }

  // ----- pass 2: the definitions -----

  /** What a raw line means to pass 2, decided by the same tests, in the same order, as the
      callback: ignored (blank or a comment), a header opening a definition under its first word,
      the closing `}`, or any other line, which is tried as a field. */
  datatype LineKind = Ignored | Opens(name: string) | Closes | Member(field: Option<FieldDef>)

  function Classify(table: AliasTable, raw: string): LineKind {
    var line := Trim(raw);
    if Skipped(line) then Ignored
    else match MatchHeader(line)
      case Some(h) => Opens(h.name)
      case None => if line == "}" then Closes else Member(FieldOf(table, line))
  }

  /** What the callback's three branches mean to both passes, one branch per lemma. */
  lemma SkippedLine(table: AliasTable, raw: string)
    requires Skipped(Trim(raw))
    ensures Classify(table, raw) == Ignored && AliasOf(raw) == None && AliasLine(table, raw) == table
  {
    assert HeaderOf(raw) == None;
  }

  lemma HeaderLine(table: AliasTable, raw: string)
    requires !Skipped(Trim(raw)) && MatchHeader(Trim(raw)).Some?
    ensures var h := MatchHeader(Trim(raw)).value;
      && Classify(table, raw) == Opens(h.name)
      && AliasOf(raw) == if Trim(h.kind) != "struct" then Some((Trim(h.name), Trim(h.kind))) else None
  {
  }

  lemma HeaderLineAlias(table: AliasTable, raw: string)
    requires !Skipped(Trim(raw)) && MatchHeader(Trim(raw)).Some?
    ensures var h := MatchHeader(Trim(raw)).value;
      AliasLine(table, raw) == if Trim(h.kind) != "struct" then table[Trim(h.name) := Trim(h.kind)] else table
  {
    HeaderLine(table, raw);
  }

  lemma OtherLine(table: AliasTable, raw: string)
    requires !Skipped(Trim(raw)) && MatchHeader(Trim(raw)).None?
    ensures Classify(table, raw) == if Trim(raw) == "}" then Closes else Member(FieldOf(table, Trim(raw)))
    ensures AliasOf(raw) == None && AliasLine(table, raw) == table
  {
  }

  /** The state of pass 2: the definitions emitted so far and the working definition, if one is
      open. */
  datatype Progress = Progress(defs: seq<StructDef>, working: Option<StructDef>)

  /** One line of pass 2. A header drops any open definition and opens a fresh one; `}` and
      fields only matter while a definition is open. */
  function Advance(p: Progress, k: LineKind): Progress {
    match k
    case Ignored => p
    case Opens(name) => Progress(p.defs, Some(StructDef(name, [])))
    case Closes => if p.working.Some? then Progress(p.defs + [p.working.value], None) else p
    case Member(f) =>
      if p.working.Some? && f.Some? then
        Progress(p.defs, Some(StructDef(p.working.value.name, p.working.value.fields + [f.value])))
      else p
  }

  function ExtractLine(table: AliasTable, p: Progress, raw: string): Progress {
    Advance(p, Classify(table, raw))
  }

  /** The state of pass 2 after lines of kinds `ks`, starting from `p`. */
  function Replay(p: Progress, ks: seq<LineKind>): Progress
    decreases |ks|
  {
    if ks == [] then p else Advance(Replay(p, ks[..|ks| - 1]), ks[|ks| - 1])
  }

  /** The kind of each line. */
  function Kinds(table: AliasTable, lines: seq<string>): seq<LineKind> {
    MapLines(line => Classify(table, line), lines)
  }

  /** The state of pass 2 after `lines`, starting from `p`. */
  function ExtractFrom(table: AliasTable, p: Progress, lines: seq<string>): Progress {
    Replay(p, Kinds(table, lines))
  }

  /** Pass 2 over one more line takes one more step from where it was. */
  lemma ExtractFromSnoc(table: AliasTable, p: Progress, lines: seq<string>, raw: string)
    ensures ExtractFrom(table, p, lines + [raw]) == ExtractLine(table, ExtractFrom(table, p, lines), raw)
  {
    MapLinesAppend(line => Classify(table, line), lines, [raw]);
  }

  const Start := Progress([], None)

  /** What pass 2 returns: the definitions closed by a `}`, in order; an unterminated one is
      not among them. */
  function Pass2(table: AliasTable, text: string): seq<StructDef> {
    if LooksLikeGo(text) then ExtractFrom(table, Start, Split(text)).defs else []
  }

  /** What a fresh scanner's `scan` returns. */
  function ScanText(text: string): seq<StructDef> {
    Pass2(Pass1(map[], text), text)
  }

  /** The scanner object: its only state is the alias table, which pass 1 fills and pass 2
      reads. */
  class StructScanner {
    var typeAliases: AliasTable

    constructor()
      ensures typeAliases == map[]
    {
      typeAliases := map[];
    }

    /** Pass 1 then pass 2 over the same text; the result is pass 2's. */
    method Scan(text: string) returns (defs: seq<StructDef>)
      modifies this
      ensures typeAliases == Pass1(old(typeAliases), text)
      ensures defs == Pass2(typeAliases, text)
    {
      var _ := ScanInternal(text, 1);
      defs := ScanInternal(text, 2);
    }

    /** One pass over the lines of `text`. Pass 1 writes the alias table and returns nothing;
        pass 2 leaves the table alone and returns the closed definitions. */
    method ScanInternal(text: string, pass: int) returns (defs: seq<StructDef>)
      modifies this
      ensures typeAliases == if pass == 1 then Pass1(old(typeAliases), text) else old(typeAliases)
      ensures defs == if pass == 2 then Pass2(typeAliases, text) else []
    {
      if |text| == 0 || IndexOf(text, " struct {") == -1 {
        return [];
      }
      var lines := Split(text);
      defs := VisitLines(lines, pass);
    }

    /** The `forEach` over the lines: the callback runs on each line in turn, with the working
        definition carried from one line to the next. */
    method VisitLines(lines: seq<string>, pass: int) returns (defs: seq<StructDef>)
      modifies this
      ensures typeAliases == if pass == 1 then CollectAliases(old(typeAliases), lines) else old(typeAliases)
      ensures defs == if pass == 2 then ExtractFrom(old(typeAliases), Start, lines).defs else []
    {
      defs := [];
      var working: Option<StructDef> := None;
      ghost var table := typeAliases;
      for i := 0 to |lines|
        invariant typeAliases == if pass == 1 then CollectAliases(table, lines[..i]) else table
        invariant pass == 2 ==> Progress(defs, working) == ExtractFrom(table, Start, lines[..i])
        invariant pass != 2 ==> defs == []
      {
        assert lines[..i + 1] == lines[..i] + [lines[i]];
        CollectAliasesSnoc(table, lines[..i], lines[i]);
        ExtractFromSnoc(table, Start, lines[..i], lines[i]);
        defs, working := VisitLine(lines[i], pass, defs, working);
      }
      assert lines[..|lines|] == lines;
    }

    /** The body of the per-line callback: pass 1 records aliases, pass 2 opens, closes and fills
        the working definition. */
    method VisitLine(raw: string, pass: int, defs: seq<StructDef>, working: Option<StructDef>)
      returns (defs': seq<StructDef>, working': Option<StructDef>)
      modifies this
      ensures typeAliases == if pass == 1 then AliasLine(old(typeAliases), raw) else old(typeAliases)
      ensures pass == 2 ==> Progress(defs', working') == ExtractLine(old(typeAliases), Progress(defs, working), raw)
      ensures pass != 2 ==> defs' == defs
    {
      defs', working' := defs, working;
      var line := Trim(raw);
      if |line| == 0 || StartsWith(line, '/') {
        SkippedLine(typeAliases, raw);
        return;
      }
      var structMatch := MatchHeader(line);
      if structMatch.Some? {
        HeaderLine(typeAliases, raw);
        HeaderLineAlias(typeAliases, raw);
        var structName := Trim(structMatch.value.name);
        var typName := Trim(structMatch.value.kind);
        if pass == 1 {
          DeclareAlias(structName, typName);
        }
        working' := Some(StructDef(structMatch.value.name, []));
      } else {
        OtherLine(typeAliases, raw);
        if pass == 2 && working.Some? {
          defs', working' := CloseOrFill(line, defs, working.value);
        }
      }
    }

    /** Pass 1 on a header line: a second word other than `struct` makes the first an alias of
        it, replacing any earlier target. */
    method DeclareAlias(structName: string, typName: string)
      modifies this
      ensures typeAliases == if typName != "struct" then old(typeAliases)[structName := typName] else old(typeAliases)
    {
      if typName != "struct" {
        typeAliases := typeAliases[structName := typName];
      }
    }

    /** Pass 2 on a line inside an open definition: `}` emits it and closes it; any other line
        adds the field it gives, if any, to the end of its fields. */
    method CloseOrFill(line: string, defs: seq<StructDef>, working: StructDef)
      returns (defs': seq<StructDef>, working': Option<StructDef>)
      ensures Progress(defs', working') ==
        Advance(Progress(defs, Some(working)), if line == "}" then Closes else Member(FieldOf(typeAliases, line)))
    {
      if line == "}" {
        defs', working' := defs + [working], None;
      } else {
        defs', working' := defs, Some(working);
        var field := ReadField(line);
        if field.Some? {
          working' := Some(StructDef(working.name, working.fields + [field.value]));
        }
      }
    }

    /** The field part of the callback, for a line that is neither a header nor `}`: none when
        the line is not a field or its json name is `-`. */
    method ReadField(line: string) returns (field: Option<FieldDef>)
      ensures field == FieldOf(typeAliases, line)
    {
      field := None;
      var fieldMatch := MatchField(line);
      if fieldMatch.Some? {
        var name := Trim(fieldMatch.value.name);
        var jsonName := ReadJsonName(name, fieldMatch.value.tag);
        var typ := MapType(fieldMatch.value.typ);
        if jsonName != "-" {
          field := Some(FieldDef(name, typ, jsonName));
        }
      }
    }

    /** The json name starts as the field name and is replaced by the tag's, if it has one. */
    static method ReadJsonName(name: string, tagMatch: Option<string>) returns (jsonName: string)
      ensures jsonName == JsonName(name, tagMatch)
    {
      jsonName := name;
      if tagMatch.Some? {
        var jsonTagMatch := MatchJsonTag(tagMatch.value);
        if jsonTagMatch.Some? {
          jsonName := StripOptions(jsonTagMatch.value);
        }
      }
    }

    /** The json name is rewritten in place: the options are cut out one replacement at a time. */
    static method StripOptions(content: string) returns (jsonName: string)
      ensures jsonName == StripTagOptions(content)
    {
      jsonName := content;
      jsonName := ReplaceFirst(jsonName, "string");
      jsonName := ReplaceFirst(jsonName, "omitempty");
      jsonName := ReplaceFirst(jsonName, ",");
      jsonName := Trim(jsonName);
    }

    /** The Go type is rewritten in place: `bool` to `boolean`, then one alias lookup. */
    method MapType(goType: string) returns (typ: string)
      ensures typ == ResolveType(typeAliases, goType)
    {
      typ := goType;
      if typ == "bool" {
        typ := "boolean";
      }
      var typeAlias := if typ in typeAliases then typeAliases[typ] else "";
      if typeAlias != "" {
        typ := typeAlias;
      }
    }
  }
}
