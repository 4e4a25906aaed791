/** What the scanner promises, proved about the functions that specify its two passes. */
module ScannerProperties {
  import opened Wrappers
  import opened Strings
  import opened Patterns
  import opened Scanner

  // ----- recognition -----

  /** Text that is empty or lacks ` struct {` is turned away by both passes: the table is left
      as it was and no definition comes out. */
  lemma NotGoSourceYieldsNothing(table: AliasTable, text: string)
    requires |text| == 0 || !Contains(text, " struct {")
    ensures Pass1(table, text) == table
    ensures Pass2(table, text) == []
    ensures ScanText(text) == []
  {
  }

  // ----- pass 2 as a fold -----

  /** Replaying two stretches of lines is replaying the first, then the second. */
  lemma {:induction false} ReplayAppend(p: Progress, a: seq<LineKind>, b: seq<LineKind>)
    ensures Replay(p, a + b) == Replay(Replay(p, a), b)
    decreases |b|
  {
    if b == [] {
      assert a + b == a;
    } else {
      assert (a + b)[..|a + b| - 1] == a + b[..|b| - 1];
      ReplayAppend(p, a, b[..|b| - 1]);
    }
  }

  /** Lines are classified one by one. */
  lemma KindsAppend(table: AliasTable, a: seq<string>, b: seq<string>)
    ensures Kinds(table, a + b) == Kinds(table, a) + Kinds(table, b)
  {
    MapLinesAppend(line => Classify(table, line), a, b);
  }

  /** Running pass 2 over two stretches of lines is running it over the first, then the
      second. */
  lemma ExtractFromAppend(table: AliasTable, p: Progress, a: seq<string>, b: seq<string>)
    ensures ExtractFrom(table, p, a + b) == ExtractFrom(table, ExtractFrom(table, p, a), b)
  {
    KindsAppend(table, a, b);
    ReplayAppend(p, Kinds(table, a), Kinds(table, b));
  }

  /** The closing line `}` is not a header. */
  lemma CloseIsNotHeader()
    ensures MatchHeader("}") == None
  {
    MatchHeaderNone("}");
  }

  /** A line closes the working definition exactly when its trimmed text is `}`. */
  lemma ClassifyCloses(table: AliasTable, raw: string)
    ensures Classify(table, raw).Closes? <==> Trim(raw) == "}"
  {
    if Trim(raw) == "}" {
      CloseIsNotHeader();
    }
  }

  /** One step of pass 2 only ever appends to the emitted definitions, and it appends exactly
      when the line closes a definition while one is open: that definition, which is then
      closed. */
  lemma AdvanceEmits(p: Progress, k: LineKind)
    ensures var r := Advance(p, k);
      p.defs <= r.defs
      && (|r.defs| > |p.defs| <==> k.Closes? && p.working.Some?)
      && (|r.defs| > |p.defs| ==> r.defs == p.defs + [p.working.value] && r.working.None?)
  {
  }

  /** The same for a raw line: it emits exactly when its trimmed text is `}` and a definition is
      open. */
  lemma ExtractLineEmits(table: AliasTable, p: Progress, raw: string)
    ensures var r := ExtractLine(table, p, raw);
      p.defs <= r.defs
      && (|r.defs| > |p.defs| <==> Trim(raw) == "}" && p.working.Some?)
      && (|r.defs| > |p.defs| ==> r.defs == p.defs + [p.working.value] && r.working.None?)
  {
    AdvanceEmits(p, Classify(table, raw));
    ClassifyCloses(table, raw);
  }

  /** A header line opens a fresh, empty working definition under its first word, dropping any
      open one without emitting it. */
  lemma HeaderReplacesWorking(table: AliasTable, p: Progress, raw: string)
    requires HeaderOf(raw).Some?
    ensures ExtractLine(table, p, raw) == Progress(p.defs, Some(StructDef(HeaderOf(raw).value.name, [])))
  {
  }

  /** Pass 2 only appends to the emitted definitions: those emitted by a prefix of the lines come
      first, in the same order. */
  lemma {:induction false} DefsOnlyGrow(p: Progress, ks: seq<LineKind>)
    ensures p.defs <= Replay(p, ks).defs
    decreases |ks|
  {
    if ks != [] {
      DefsOnlyGrow(p, ks[..|ks| - 1]);
      AdvanceEmits(Replay(p, ks[..|ks| - 1]), ks[|ks| - 1]);
    }
  }

  /** Without a closing line nothing is emitted. */
  lemma {:induction false} NoCloseNoEmit(p: Progress, ks: seq<LineKind>)
    requires forall i :: 0 <= i < |ks| ==> !ks[i].Closes?
    ensures Replay(p, ks).defs == p.defs
    decreases |ks|
  {
    if ks != [] {
      NoCloseNoEmit(p, ks[..|ks| - 1]);
      AdvanceEmits(Replay(p, ks[..|ks| - 1]), ks[|ks| - 1]);
    }
  }

  /** A definition still open when the lines run out is not returned: lines after the last `}`
      change nothing in the result. */
  lemma UnterminatedIsDropped(table: AliasTable, before: seq<string>, after: seq<string>)
    requires forall i :: 0 <= i < |after| ==> Trim(after[i]) != "}"
    ensures ExtractFrom(table, Start, before + after).defs == ExtractFrom(table, Start, before).defs
  {
    ExtractFromAppend(table, Start, before, after);
    var ks := Kinds(table, after);
    forall i | 0 <= i < |ks| ensures !ks[i].Closes? {
      ClassifyCloses(table, after[i]);
    }
    NoCloseNoEmit(ExtractFrom(table, Start, before), ks);
  }

  // ----- fields of a definition -----

  /** The field a line of kind `k` adds to an open definition. */
  function Added(k: LineKind): seq<FieldDef> {
    if k.Member? && k.field.Some? then [k.field.value] else []
  }

  /** The fields lines of kinds `ks` add, in line order. */
  function FieldsIn(ks: seq<LineKind>): seq<FieldDef>
    decreases |ks|
  {
    if ks == [] then [] else FieldsIn(ks[..|ks| - 1]) + Added(ks[|ks| - 1])
  }

  /** The fields a run of raw lines contributes, in line order. */
  function FieldsOf(table: AliasTable, lines: seq<string>): seq<FieldDef> {
    FieldsIn(Kinds(table, lines))
  }

  /** A line inside a struct body: neither a header nor `}`. */
  predicate BodyLine(raw: string) {
    Trim(raw) != "}" && HeaderOf(raw).None?
  }

  /** A body line is ignored when blank or a comment, and is otherwise tried as a field on its
      trimmed text. */
  lemma BodyLineKind(table: AliasTable, raw: string)
    requires BodyLine(raw)
    ensures var line := Trim(raw);
      Classify(table, raw) == if Skipped(line) then Ignored else Member(FieldOf(table, line))
  {
  }

  /** Over lines that neither open nor close a definition, the working definition keeps its name
      and gains exactly the lines' fields, in line order, and nothing is emitted. */
  lemma {:induction false} BodyCollectsFields(p: Progress, ks: seq<LineKind>)
    requires p.working.Some?
    requires forall i :: 0 <= i < |ks| ==> ks[i].Ignored? || ks[i].Member?
    ensures Replay(p, ks)
      == Progress(p.defs, Some(StructDef(p.working.value.name, p.working.value.fields + FieldsIn(ks))))
    decreases |ks|
  {
    var w := p.working.value;
    if ks != [] {
      var init := ks[..|ks| - 1];
      BodyCollectsFields(p, init);
      var k := ks[|ks| - 1];
      assert k.Ignored? || k.Member?;
      assert w.fields + FieldsIn(ks) == (w.fields + FieldsIn(init)) + Added(k);
      if Added(k) == [] {
        assert (w.fields + FieldsIn(init)) + Added(k) == w.fields + FieldsIn(init);
      }
    } else {
      assert w.fields + [] == w.fields;
    }
  }

  /** An opening line, lines that neither open nor close, and a closing line give exactly one
      definition. */
  lemma ReplaySingle(name: string, ks: seq<LineKind>)
    requires forall i :: 0 <= i < |ks| ==> ks[i].Ignored? || ks[i].Member?
    ensures Replay(Start, [Opens(name)] + ks + [Closes]).defs == [StructDef(name, FieldsIn(ks))]
  {
    var first := Advance(Start, Opens(name));
    assert Replay(Start, [Opens(name)]) == first by {
      assert [Opens(name)][..0] == [];
    }
    ReplayAppend(Start, [Opens(name)], ks);
    BodyCollectsFields(first, ks);
    ReplayAppend(Start, [Opens(name)] + ks, [Closes]);
    assert Replay(Replay(Start, [Opens(name)] + ks), [Closes])
      == Advance(Replay(Start, [Opens(name)] + ks), Closes) by {
      assert [Closes][..0] == [];
    }
    assert [] + FieldsIn(ks) == FieldsIn(ks);
  }

  /** The closing line is of kind `Closes`. */
  lemma CloseKind(table: AliasTable)
    ensures Classify(table, "}") == Closes
  {
    ClassifyCloses(table, "}");
    TrimOfTrimmed("}");
  }

  /** Body lines neither open nor close a definition. */
  lemma BodyKinds(table: AliasTable, body: seq<string>)
    requires forall i :: 0 <= i < |body| ==> BodyLine(body[i])
    ensures var ks := Kinds(table, body);
      forall i :: 0 <= i < |ks| ==> ks[i].Ignored? || ks[i].Member?
  {
    var ks := Kinds(table, body);
    forall i | 0 <= i < |ks| ensures ks[i].Ignored? || ks[i].Member? {
      BodyLineKind(table, body[i]);
    }
  }

  /** The kinds of a header line, body lines and a closing `}`. */
  lemma SingleStructKinds(table: AliasTable, header: string, body: seq<string>)
    requires HeaderOf(header).Some?
    ensures Kinds(table, [header] + body + ["}"])
      == [Opens(HeaderOf(header).value.name)] + Kinds(table, body) + [Closes]
  {
    KindsAppend(table, [header], body);
    KindsAppend(table, [header] + body, ["}"]);
    assert Kinds(table, [header]) == [Opens(HeaderOf(header).value.name)];
    assert Kinds(table, ["}"]) == [Closes] by {
      CloseKind(table);
    }
  }

  /** A header line, body lines and a closing `}` give exactly one definition, named by the
      header, whose fields are those of the body lines in order (the ones tagged `json:"-"` left
      out). */
  lemma SingleStruct(table: AliasTable, header: string, body: seq<string>)
    requires HeaderOf(header).Some?
    requires forall i :: 0 <= i < |body| ==> BodyLine(body[i])
    ensures ExtractFrom(table, Start, [header] + body + ["}"]).defs
      == [StructDef(HeaderOf(header).value.name, FieldsOf(table, body))]
  {
    SingleStructKinds(table, header, body);
    BodyKinds(table, body);
    ReplaySingle(HeaderOf(header).value.name, Kinds(table, body));
  }

  /** The same for a whole pasted text made of those lines. */
  lemma ScanSingleStruct(header: string, body: seq<string>)
    requires HeaderOf(header).Some?
    requires forall i :: 0 <= i < |body| ==> BodyLine(body[i])
    requires NoNewlines([header] + body + ["}"])
    requires LooksLikeGo(Join([header] + body + ["}"]))
    ensures var text := Join([header] + body + ["}"]);
      ScanText(text) == [StructDef(HeaderOf(header).value.name, FieldsOf(Pass1(map[], text), body))]
  {
    var lines := [header] + body + ["}"];
    SplitJoin(lines);
    SingleStruct(Pass1(map[], Join(lines)), header, body);
  }

  // ----- fields named `-` -----

  predicate NoDash(d: StructDef) {
    forall f :: f in d.fields ==> f.jsonName != "-"
  }

  predicate AllNoDash(p: Progress) {
    (forall d :: d in p.defs ==> NoDash(d)) && (p.working.Some? ==> NoDash(p.working.value))
  }

  /** A line never classifies as a field named `-`. */
  lemma ClassifyNoDash(table: AliasTable, raw: string)
    ensures forall f :: f in Added(Classify(table, raw)) ==> f.jsonName != "-"
  {
  }

  /** Steps that add no field named `-` keep every definition free of them. */
  lemma {:induction false} ReplayNoDash(p: Progress, ks: seq<LineKind>)
    requires AllNoDash(p)
    requires forall i, f :: 0 <= i < |ks| && f in Added(ks[i]) ==> f.jsonName != "-"
    ensures AllNoDash(Replay(p, ks))
    decreases |ks|
  {
    if ks != [] {
      ReplayNoDash(p, ks[..|ks| - 1]);
    }
  }

  /** No emitted field is ever named `-`. */
  lemma DashFieldsNeverEmitted(text: string)
    ensures forall d, f :: d in ScanText(text) && f in d.fields ==> f.jsonName != "-"
  {
    if LooksLikeGo(text) {
      var table := Pass1(map[], text);
      var ks := Kinds(table, Split(text));
      forall i, f | 0 <= i < |ks| && f in Added(ks[i]) ensures f.jsonName != "-" {
        ClassifyNoDash(table, Split(text)[i]);
      }
      ReplayNoDash(Start, ks);
    }
  }

  // ----- line breaks -----

  /** A field whose name, type and json name hold no line break. */
  predicate FieldOnOneLine(f: FieldDef) {
    '\n' !in f.name && '\n' !in f.typ && '\n' !in f.jsonName
  }

  /** A definition whose name and fields hold no line break. */
  predicate DefOnOneLine(d: StructDef) {
    '\n' !in d.name && forall f :: f in d.fields ==> FieldOnOneLine(f)
  }

  predicate KindOnOneLine(k: LineKind) {
    (k.Opens? ==> '\n' !in k.name) && forall f :: f in Added(k) ==> FieldOnOneLine(f)
  }

  predicate AllOnOneLine(p: Progress) {
    (forall d :: d in p.defs ==> DefOnOneLine(d)) && (p.working.Some? ==> DefOnOneLine(p.working.value))
  }

  /** An identifier holds no line break. */
  lemma WordIsOneLine(s: string)
    requires IsWord(s)
    ensures '\n' !in s
  {
    forall i | 0 <= i < |s| ensures s[i] != '\n' {
      assert In(Word, s[i]);
    }
  }

  /** Stripping the options adds no character. */
  lemma StripTagOptionsLacks(content: string, c: char)
    requires c !in content
    ensures c !in StripTagOptions(content)
  {
    var s1 := ReplaceFirst(content, "string");
    var s2 := ReplaceFirst(s1, "omitempty");
    ReplaceFirstChars(content, "string", c);
    ReplaceFirstChars(s1, "omitempty", c);
    ReplaceFirstChars(s2, ",", c);
    TrimLacks(ReplaceFirst(s2, ","), c);
  }

  /** The json name of a tag taken from a one-line text is on one line. */
  lemma JsonNameOnOneLine(name: string, tag: Option<string>)
    requires '\n' !in name && (tag.Some? ==> '\n' !in tag.value)
    ensures '\n' !in JsonName(name, tag)
  {
    if tag.Some? && MatchJsonTag(tag.value).Some? {
      var t, c := tag.value, MatchJsonTag(tag.value).value;
      MatchJsonTagExact(t);
      var i :| JsonShape(t, i, |c|) && c == t[i + 6..i + 6 + |c|]
        && forall j, k :: 0 <= j < i ==> !JsonShape(t, j, k);
      SliceLacks(t, i + 6, i + 6 + |c|, '\n');
      StripTagOptionsLacks(c, '\n');
    }
  }

  /** The captures of a field match on a line without a line break have none. */
  lemma MatchFieldOnOneLine(line: string)
    requires '\n' !in line && MatchField(line).Some?
    ensures var m := MatchField(line).value;
      '\n' !in m.name && '\n' !in m.typ && (m.tag.Some? ==> '\n' !in m.tag.value)
  {
    var Bounds(a, b, c, d, e) := FieldBounds(line);
    MatchFieldSound(line, a, b, c, d, e);
    SliceLacks(line, a, b, '\n');
    SliceLacks(line, c, d, '\n');
    if TagAt(line, e).Some? {
      TagAtExact(line, e);
      SliceLacks(line, e, e + |TagAt(line, e).value|, '\n');
    }
  }

  /** Resolving a type without a line break against a table pass 1 built gives none. */
  lemma ResolveTypeOnOneLine(table: AliasTable, typ: string)
    requires '\n' !in typ && WellFormedTable(table)
    ensures '\n' !in ResolveType(table, typ)
  {
    var t := if typ == "bool" then "boolean" else typ;
    if t in table && table[t] != "" {
      WordIsOneLine(table[t]);
    }
  }

  /** A field read from a line without a line break, against a table pass 1 built, has none. */
  lemma FieldOfOnOneLine(table: AliasTable, line: string)
    requires '\n' !in line && WellFormedTable(table) && FieldOf(table, line).Some?
    ensures FieldOnOneLine(FieldOf(table, line).value)
  {
    var m := MatchField(line).value;
    MatchFieldOnOneLine(line);
    TrimLacks(m.name, '\n');
    ResolveTypeOnOneLine(table, m.typ);
    JsonNameOnOneLine(Trim(m.name), m.tag);
  }

  /** What a line without a line break contributes has none. */
  lemma ClassifyOnOneLine(table: AliasTable, raw: string)
    requires '\n' !in raw && WellFormedTable(table)
    ensures KindOnOneLine(Classify(table, raw))
  {
    var line := Trim(raw);
    TrimLacks(raw, '\n');
    if !Skipped(line) {
      if MatchHeader(line).Some? {
        HeaderCapturesAreWords(line);
        WordIsOneLine(MatchHeader(line).value.name);
      } else if line != "}" && FieldOf(table, line).Some? {
        FieldOfOnOneLine(table, line);
      }
    }
  }

  /** Steps that bring no line break keep every definition free of them. */
  lemma {:induction false} ReplayOnOneLine(p: Progress, ks: seq<LineKind>)
    requires AllOnOneLine(p)
    requires forall i :: 0 <= i < |ks| ==> KindOnOneLine(ks[i])
    ensures AllOnOneLine(Replay(p, ks))
    decreases |ks|
  {
    if ks != [] {
      ReplayOnOneLine(p, ks[..|ks| - 1]);
    }
  }

  /** No name, type or json name the scanner returns holds a line break, so each field can be
      written on a line of its own. */
  lemma ScanTextOnOneLine(text: string)
    ensures forall d :: d in ScanText(text) ==> DefOnOneLine(d)
  {
    if LooksLikeGo(text) {
      var table := Pass1(map[], text);
      Pass1WellFormed(text);
      var ks := Kinds(table, Split(text));
      forall i | 0 <= i < |ks| ensures KindOnOneLine(ks[i]) {
        ClassifyOnOneLine(table, Split(text)[i]);
      }
      ReplayOnOneLine(Start, ks);
    }
  }

  // ----- json names -----

  /** A json name the crude option stripping leaves intact: no comma, no `string`, no
      `omitempty`, no white space at either end. */
  predicate PlainJsonName(n: string) {
    ',' !in n && !Contains(n, "string") && !Contains(n, "omitempty")
    && (n == [] || (!IsSpace(n[0]) && !IsSpace(n[|n| - 1])))
  }

  /** Without a tag, or without `json:"…"` in it, a field is emitted under its Go name. */
  lemma JsonNameDefaultsToFieldName(name: string, tag: Option<string>)
    requires tag.None? || MatchJsonTag(tag.value).None?
    ensures JsonName(name, tag) == name
  {
  }

  /** `json:"n"`: a plain name is left as it is. */
  lemma StripPlainName(n: string)
    requires PlainJsonName(n)
    ensures StripTagOptions(n) == n
  {
    NotContainsChar(n, ',');
    TrimOfTrimmed(n);
  }

  /** `json:"n,omitempty"` gives `n`. */
  lemma StripOmitempty(n: string)
    requires PlainJsonName(n)
    ensures StripTagOptions(n + ",omitempty") == n
  {
    var s := n + ",omitempty";
    assert s == n + [','] + "omitempty";
    assert ReplaceFirst(s, "string") == s by {
      NotContainsMissing("omitempty", "string", 's');
      NotContainsAround(n, ',', "omitempty", "string");
    }
    assert ReplaceFirst(s, "omitempty") == n + [','] by {
      ReplaceFirstSuffix(n, ',', "omitempty");
    }
    assert ReplaceFirst(n + [','], ",") == n by {
      ReplaceFirstChar(n, ',', []);
      assert n + [','] + [] == n + [','] && n + [] == n;
    }
    TrimOfTrimmed(n);
  }

  /** `json:"n,string"` gives `n`. */
  lemma StripStringOption(n: string)
    requires PlainJsonName(n)
    ensures StripTagOptions(n + ",string") == n
  {
    var s := n + ",string";
    assert s == n + [','] + "string";
    assert ReplaceFirst(s, "string") == n + [','] by {
      ReplaceFirstSuffix(n, ',', "string");
    }
    assert ReplaceFirst(n + [','], "omitempty") == n + [','] by {
      NotContainsAround(n, ',', "", "omitempty");
      assert n + [','] + "" == n + [','];
    }
    assert ReplaceFirst(n + [','], ",") == n by {
      ReplaceFirstChar(n, ',', []);
      assert n + [','] + [] == n + [','] && n + [] == n;
    }
    TrimOfTrimmed(n);
  }

  /** The tag's own name comes out of the common Go tag forms `json:"n"`, `json:"n,omitempty"`
      and `json:"n,string"`. */
  lemma StripGoTagOptions(n: string, opt: string)
    requires PlainJsonName(n)
    requires opt == "" || opt == ",omitempty" || opt == ",string"
    ensures StripTagOptions(n + opt) == n
  {
    if opt == "" {
      assert n + opt == n;
      StripPlainName(n);
    } else if opt == ",omitempty" {
      StripOmitempty(n);
    } else {
      StripStringOption(n);
    }
  }

  // ----- whole field lines -----

  /** A Go struct tag holding only a json key: `json:"v"` between backticks. */
  function JsonTag(v: string): (t: string)
    ensures |t| == |v| + 9 && t[0] == '`' && t[|t| - 1] == '`'
  {
    "`json:\"" + v + "\"`"
  }

  /** Inside the backticks of a json tag there is no backtick when the value has none. */
  lemma JsonTagBackticks(v: string)
    requires '`' !in v
    ensures forall k :: 0 < k < |JsonTag(v)| - 1 ==> JsonTag(v)[k] != '`'
  {
    var t := JsonTag(v);
    forall k | 7 <= k < 7 + |v| ensures t[k] != '`' {
      assert t[k] == v[k - 7];
    }
  }

  /** The json pattern captures the value of a json tag whose value has no quote. */
  lemma JsonTagValue(v: string)
    requires '"' !in v
    ensures MatchJsonTag(JsonTag(v)) == Some(v)
  {
    var t := JsonTag(v);
    assert t[1..7] == "json:\"";
    assert AllIn(NonQuote, t, 7, 7 + |v|) by {
      forall k | 7 <= k < 7 + |v| ensures In(NonQuote, t[k]) {
        assert t[k] == v[k - 7];
      }
    }
    RunIsMaximal(NonQuote, t, 7, |v|);
    assert t[7..7 + |v|] == v;
    assert JsonAt(t, 0) == None && JsonAt(t, 1) == Some(v);
    assert FindJson(t, 0) == FindJson(t, 1) == Some((1, v));
  }

  /** The runs of the field pattern over a line laid out as a word, one space, a type name, one
      space and a backtick. */
  lemma FieldRunsAt(s: string, n: nat, m: nat)
    requires n + 2 + m < |s| && IsWord(s[..n]) && IsTypeName(s[n + 1..n + 1 + m])
    requires s[n] == ' ' && s[n + 1 + m] == ' ' && s[n + 2 + m] == '`'
    ensures FieldBounds(s) == Bounds(0, n, n + 1, n + 1 + m, n + 2 + m)
  {
    assert s[0] == s[..n][0] && s[n + 1] == s[n + 1..n + 1 + m][0];
    RunIsMaximal(Space, s, 0, 0);
    assert AllIn(Word, s, 0, n) by {
      forall k | 0 <= k < n ensures In(Word, s[k]) {
        assert s[k] == s[..n][k];
      }
    }
    RunIsMaximal(Word, s, 0, n);
    RunIsMaximal(Space, s, n, 1);
    assert AllIn(TypeWord, s, n + 1, n + 1 + m) by {
      forall k | n + 1 <= k < n + 1 + m ensures In(TypeWord, s[k]) {
        assert s[k] == s[n + 1..n + 1 + m][k - n - 1];
      }
    }
    RunIsMaximal(TypeWord, s, n + 1, m);
    RunIsMaximal(Space, s, n + 1 + m, 1);
    FieldBoundsAt(s, 0, n, n + 1, n + 1 + m);
  }

  /** The runs of the field pattern over `name type tag`, a tag starting with a backtick. */
  lemma FieldLineBounds(name: string, typ: string, tag: string)
    requires IsWord(name) && IsTypeName(typ) && |tag| >= 1 && tag[0] == '`'
    ensures var s, n, m := name + " " + typ + " " + tag, |name|, |typ|;
      FieldBounds(s) == Bounds(0, n, n + 1, n + 1 + m, n + 2 + m)
      && s[..n] == name && s[n + 1..n + 1 + m] == typ && s[n + 2 + m..] == tag
  {
    var s, n, m := name + " " + typ + " " + tag, |name|, |typ|;
    assert s[..n] == name && s[n + 1..n + 1 + m] == typ && s[n + 2 + m..] == tag;
    assert s[n] == ' ' && s[n + 1 + m] == ' ' && s[n + 2 + m] == '`';
    FieldRunsAt(s, n, m);
  }

  /** A line `name type tag`, with one space before a backtick-delimited tag, matches the field
      pattern with exactly those three captures. */
  lemma FieldLineMatch(name: string, typ: string, tag: string)
    requires IsWord(name) && IsTypeName(typ)
    requires |tag| >= 3 && tag[0] == '`' && tag[|tag| - 1] == '`'
    requires forall k :: 0 < k < |tag| - 1 ==> tag[k] != '`'
    ensures MatchField(name + " " + typ + " " + tag) == Some(FieldMatch(name, typ, Some(tag)))
  {
    var s, g := name + " " + typ + " " + tag, |name| + |typ| + 2;
    FieldLineBounds(name, typ, tag);
    assert AllIn(NonBacktick, s, g + 1, |s| - 1) by {
      forall k | g + 1 <= k < |s| - 1 ensures In(NonBacktick, s[k]) {
        assert s[k] == tag[k - g];
      }
    }
    assert s[|s| - 1] == '`';
    RunIsMaximal(NonBacktick, s, g + 1, |tag| - 2);
    assert s[g..g + |tag|] == tag;
  }

  /** What a field match gives, once its name is known to be trimmed. */
  lemma FieldOfMatch(table: AliasTable, line: string, m: FieldMatch)
    requires MatchField(line) == Some(m) && Trim(m.name) == m.name
    ensures var jsonName := JsonName(m.name, m.tag);
      FieldOf(table, line)
      == if jsonName == "-" then None else Some(FieldDef(m.name, ResolveType(table, m.typ), jsonName))
  {
  }

  /** The tag options hold neither quotes nor backticks, so appending one keeps a json name
      free of both. */
  lemma OptionChars(n: string, opt: string)
    requires '"' !in n && '`' !in n
    requires opt == "" || opt == ",omitempty" || opt == ",string"
    ensures '"' !in n + opt && '`' !in n + opt
  {
    forall i | 0 <= i < |opt| ensures opt[i] != '"' && opt[i] != '`' {
      if opt == ",omitempty" {
        assert opt[i] in {',', 'o', 'm', 'i', 't', 'e', 'p', 'y'};
      } else {
        assert opt[i] in {',', 's', 't', 'r', 'i', 'n', 'g'};
      }
    }
  }

  /** A tag `json:"v"` names the field by `v` with its options stripped. */
  lemma JsonNameOfJsonTag(name: string, v: string)
    requires '"' !in v
    ensures JsonName(name, Some(JsonTag(v))) == StripTagOptions(v)
  {
    JsonTagValue(v);
  }

  /** The json name of a field whose tag is `json:"n"`, `json:"n,omitempty"` or
      `json:"n,string"` is `n`. */
  lemma JsonNameOfTag(name: string, n: string, opt: string)
    requires PlainJsonName(n) && '"' !in n + opt
    requires opt == "" || opt == ",omitempty" || opt == ",string"
    ensures JsonName(name, Some(JsonTag(n + opt))) == n
  {
    var v := n + opt;
    assert JsonName(name, Some(JsonTag(v))) == StripTagOptions(v) by {
      JsonNameOfJsonTag(name, v);
    }
    assert StripTagOptions(v) == n by {
      StripGoTagOptions(n, opt);
    }
  }

  /** `name type tag` with such a tag matches the field pattern with those captures. */
  lemma JsonFieldLineMatch(name: string, typ: string, v: string)
    requires IsWord(name) && IsTypeName(typ) && '`' !in v
    ensures MatchField(name + " " + typ + " " + JsonTag(v)) == Some(FieldMatch(name, typ, Some(JsonTag(v))))
  {
    JsonTagBackticks(v);
    FieldLineMatch(name, typ, JsonTag(v));
  }

  /** A field line of the usual form, `Name Type` and a tag `json:"n"`, `json:"n,omitempty"` or
      `json:"n,string"`, gives the field `Name` of the resolved type under the json name `n`,
      and nothing when `n` is `-`. */
  lemma FieldLineGivesField(table: AliasTable, name: string, typ: string, n: string, opt: string)
    requires IsWord(name) && IsTypeName(typ)
    requires PlainJsonName(n) && '"' !in n && '`' !in n
    requires opt == "" || opt == ",omitempty" || opt == ",string"
    ensures FieldOf(table, name + " " + typ + " " + JsonTag(n + opt))
      == if n == "-" then None else Some(FieldDef(name, ResolveType(table, typ), n))
  {
    var tag := JsonTag(n + opt);
    var line, m := name + " " + typ + " " + tag, FieldMatch(name, typ, Some(tag));
    OptionChars(n, opt);
    assert MatchField(line) == Some(m) by {
      JsonFieldLineMatch(name, typ, n + opt);
    }
    assert JsonName(m.name, m.tag) == n by {
      JsonNameOfTag(name, n, opt);
    }
    assert Trim(m.name) == m.name by {
      WordIsTrimmed(name);
    }
    FieldOfMatch(table, line, m);
  }

  // ----- types -----

  /** An identifier string: one or more of `[a-zA-Z0-9_]`. */
  predicate IsWord(s: string) {
    |s| >= 1 && forall i :: 0 <= i < |s| ==> In(Word, s[i])
  }

  /** A type as the field pattern reads it, qualified ones such as `time.Time` included: one or
      more of `[a-zA-Z0-9_.]`. */
  predicate IsTypeName(s: string) {
    |s| >= 1 && forall i :: 0 <= i < |s| ==> In(TypeWord, s[i])
  }

  /** `type A B` after a prefix has the shape of the header pattern, ending the text. */
  lemma TypeLineShape(prefix: string, name: string, kind: string)
    requires IsWord(name) && IsWord(kind)
    ensures var s, i, n := prefix + "type " + name + " " + kind, |prefix|, |name|;
      |s| == i + 6 + n + |kind| && HeaderShape(s, i, n, |kind|)
  {
    var s, i, n := prefix + "type " + name + " " + kind, |prefix|, |name|;
    assert s[i..i + 5] == "type ";
    assert AllIn(Word, s, i + 5, i + 5 + n) by {
      forall k | i + 5 <= k < i + 5 + n ensures In(Word, s[k]) {
        assert s[k] == name[k - i - 5];
      }
    }
    assert AllIn(Word, s, i + 6 + n, |s|) by {
      forall k | i + 6 + n <= k < |s| ensures In(Word, s[k]) {
        assert s[k] == kind[k - i - 6 - n];
      }
    }
  }

  /** A header shape that runs to the end of the text is what the matcher takes there: both
      groups are cut off by the space and by the end. */
  lemma HeaderAtEnd(s: string, i: nat, n: int, m: int)
    requires HeaderShape(s, i, n, m) && i + 6 + n + m == |s|
    ensures HeaderAt(s, i) == Some(Header(i, s[i + 5..i + 5 + n], s[i + 6 + n..]))
  {
    assert !In(Word, s[i + 5 + n]);
    RunIsMaximal(Word, s, i + 5, n);
    RunIsMaximal(Word, s, i + 6 + n, m);
    assert s[i + 6 + n..i + 6 + n + m] == s[i + 6 + n..];
  }

  /** `type ` cannot start inside a prefix without spaces that is followed by `type`. */
  lemma NoTypeKeywordBefore(prefix: string, rest: string)
    requires ' ' !in prefix && |rest| >= 4 && rest[..4] == "type"
    ensures forall j :: 0 <= j < |prefix| ==> HeaderAt(prefix + rest, j).None?
  {
    var s := prefix + rest;
    forall j | 0 <= j < |prefix| ensures HeaderAt(s, j).None? {
      if j + 5 <= |s| {
        if j + 4 < |prefix| {
          assert s[j + 4] == prefix[j + 4];
        } else {
          assert s[j + 4] == rest[..4][j + 4 - |prefix|];
        }
      }
    }
  }

  /** A match at `i` with none before it is the match the header search reports. */
  lemma FirstHeaderMatch(s: string, i: nat)
    requires i <= |s| && HeaderAt(s, i).Some?
    requires forall j :: 0 <= j < i ==> HeaderAt(s, j).None?
    ensures MatchHeader(s) == HeaderAt(s, i)
  {
    FindHeaderNone(s, 0);
    FindHeaderLeftmost(s, 0);
  }

  /** After a prefix without spaces, `type A B` is the header match, with captures `A` and
      `B`. */
  lemma HeaderAfterSpacelessPrefix(prefix: string, name: string, kind: string)
    requires IsWord(name) && IsWord(kind) && ' ' !in prefix
    ensures MatchHeader(prefix + "type " + name + " " + kind) == Some(Header(|prefix|, name, kind))
  {
    var rest := "type " + name + " " + kind;
    var s, i, n := prefix + rest, |prefix|, |name|;
    assert s == prefix + "type " + name + " " + kind && rest[..4] == "type";
    TypeLineShape(prefix, name, kind);
    NoTypeKeywordBefore(prefix, rest);
    HeaderAtEnd(s, i, n, |kind|);
    assert s[i + 5..i + 5 + n] == name && s[i + 6 + n..] == kind;
    FirstHeaderMatch(s, i);
  }

  /** The header pattern is not anchored: a header is found after any prefix, and when the
      prefix holds no space, so that no earlier `type ` can start in it, the match is exactly
      `type A B` at the end of the prefix, even when the prefix ends inside a word, as in
      `subtype A B`. */
  lemma HeaderFoundAnywhere(prefix: string, name: string, kind: string)
    requires IsWord(name) && IsWord(kind)
    ensures MatchHeader(prefix + "type " + name + " " + kind).Some?
    ensures ' ' !in prefix ==>
      MatchHeader(prefix + "type " + name + " " + kind) == Some(Header(|prefix|, name, kind))
  {
    TypeLineShape(prefix, name, kind);
    MatchHeaderNone(prefix + "type " + name + " " + kind);
    if ' ' !in prefix {
      HeaderAfterSpacelessPrefix(prefix, name, kind);
    }
  }

  /** The field pattern wants white space after the type, and lines are trimmed first, so a
      trimmed line holding only a name and a type is not a field. */
  lemma BareFieldLineDoesNotMatch(name: string, typ: string)
    requires IsWord(name) && IsTypeName(typ)
    ensures MatchField(name + " " + typ) == None
  {
    var s, n := name + " " + typ, |name|;
    assert s[0] == name[0] && s[n] == ' ' && s[n + 1] == typ[0];
    RunIsMaximal(Space, s, 0, 0);
    assert AllIn(Word, s, 0, n) by {
      forall k | 0 <= k < n ensures In(Word, s[k]) {
        assert s[k] == name[k];
      }
    }
    RunIsMaximal(Word, s, 0, n);
    RunIsMaximal(Space, s, n, 1);
    assert AllIn(TypeWord, s, n + 1, |s|) by {
      forall k | n + 1 <= k < |s| ensures In(TypeWord, s[k]) {
        assert s[k] == typ[k - n - 1];
      }
    }
    RunIsMaximal(TypeWord, s, n + 1, |typ|);
    var bounds := FieldBounds(s);
    assert bounds.d == |s| && bounds.e == |s|;
  }

  /** What pass 1 can put in a table: identifier keys mapped to identifiers other than
      `struct`. */
  predicate WellFormedTable(table: AliasTable) {
    forall k :: k in table ==> IsWord(k) && IsWord(table[k]) && table[k] != "struct"
  }

  /** `bool` is emitted as `boolean`, whatever `bool` itself is aliased to, unless `boolean` is
      an alias name. */
  lemma BoolBecomesBoolean(table: AliasTable)
    requires "boolean" !in table
    ensures ResolveType(table, "bool") == "boolean"
  {
  }

  /** Any other type is looked up once in a table pass 1 built: replaced by its alias target if
      it has one, kept otherwise; the target itself is not looked up again. */
  lemma AliasLookedUpOnce(table: AliasTable, typ: string)
    requires WellFormedTable(table) && typ != "bool"
    ensures ResolveType(table, typ) == if typ in table then table[typ] else typ
  {
  }

  // ----- pass 1 -----

  /** A word is its own trim. */
  lemma WordIsTrimmed(s: string)
    requires IsWord(s)
    ensures Trim(s) == s
  {
    assert In(Word, s[0]) && In(Word, s[|s| - 1]);
    TrimOfTrimmed(s);
  }

  /** An alias declaration names an identifier and a target identifier other than `struct`. */
  lemma AliasOfIsWords(raw: string)
    requires AliasOf(raw).Some?
    ensures IsWord(AliasOf(raw).value.0) && IsWord(AliasOf(raw).value.1)
    ensures AliasOf(raw).value.1 != "struct"
  {
    var line := Trim(raw);
    var h := MatchHeader(line).value;
    assert HeaderOf(raw) == Some(h);
    assert IsWord(h.name) && IsWord(h.kind) by { HeaderCapturesAreWords(line); }
    assert Trim(h.name) == h.name && Trim(h.kind) == h.kind by {
      WordIsTrimmed(h.name);
      WordIsTrimmed(h.kind);
    }
  }

  /** A declaration pass 1 can make: an identifier for an identifier other than `struct`. */
  predicate WellFormedDecl(decl: Option<(string, string)>) {
    decl.Some? ==> IsWord(decl.value.0) && IsWord(decl.value.1) && decl.value.1 != "struct"
  }

  /** Well-formed declarations keep the table well formed. */
  lemma {:induction false} RecordWellFormed(table: AliasTable, decls: seq<Option<(string, string)>>)
    requires WellFormedTable(table)
    requires forall i :: 0 <= i < |decls| ==> WellFormedDecl(decls[i])
    ensures WellFormedTable(Record(table, decls))
    decreases |decls|
  {
    if decls != [] {
      RecordWellFormed(table, decls[..|decls| - 1]);
      assert WellFormedDecl(decls[|decls| - 1]);
    }
  }

  /** Pass 1 keeps the table well formed. */
  lemma CollectAliasesWellFormed(table: AliasTable, lines: seq<string>)
    requires WellFormedTable(table)
    ensures WellFormedTable(CollectAliases(table, lines))
  {
    var ds := Decls(lines);
    forall i | 0 <= i < |ds| ensures WellFormedDecl(ds[i]) {
      if AliasOf(lines[i]).Some? {
        AliasOfIsWords(lines[i]);
      }
    }
    RecordWellFormed(table, ds);
  }

  /** The table a scan uses is well formed. */
  lemma Pass1WellFormed(text: string)
    ensures WellFormedTable(Pass1(map[], text))
  {
    if LooksLikeGo(text) {
      CollectAliasesWellFormed(map[], Split(text));
    }
  }

  /** The last declaration of an alias wins: later declarations of other names leave it. */
  lemma {:induction false} LastDeclarationWins(table: AliasTable, decls: seq<Option<(string, string)>>, i: int, name: string, target: string)
    requires 0 <= i < |decls| && decls[i] == Some((name, target))
    requires forall j :: i < j < |decls| ==> decls[j].None? || decls[j].value.0 != name
    ensures name in Record(table, decls) && Record(table, decls)[name] == target
    decreases |decls|
  {
    if i < |decls| - 1 {
      LastDeclarationWins(table, decls[..|decls| - 1], i, name, target);
      assert decls[|decls| - 1].None? || decls[|decls| - 1].value.0 != name;
    }
  }

  /** A name nothing declares keeps whatever the table had for it. */
  lemma {:induction false} UndeclaredKept(table: AliasTable, decls: seq<Option<(string, string)>>, name: string)
    requires forall j :: 0 <= j < |decls| ==> decls[j].None? || decls[j].value.0 != name
    ensures name in Record(table, decls) <==> name in table
    ensures name in table ==> Record(table, decls)[name] == table[name]
    decreases |decls|
  {
    if decls != [] {
      UndeclaredKept(table, decls[..|decls| - 1], name);
      assert decls[|decls| - 1].None? || decls[|decls| - 1].value.0 != name;
    }
  }

  /** The table pass 1 builds from a text holds, for a name, the target of the name's last
      declaration, wherever in the text that stands. */
  lemma Pass1LastDeclaration(text: string, i: int, name: string, target: string)
    requires LooksLikeGo(text)
    requires 0 <= i < |Split(text)| && AliasOf(Split(text)[i]) == Some((name, target))
    requires forall j :: i < j < |Split(text)| ==>
      AliasOf(Split(text)[j]).None? || AliasOf(Split(text)[j]).value.0 != name
    ensures name in Pass1(map[], text) && Pass1(map[], text)[name] == target
  {
    LastDeclarationWins(map[], Decls(Split(text)), i, name, target);
  }

  /** Pass 2 resolves a field's type against the table built from ALL the lines, so an alias
      declared after the struct that uses it still applies. */
  lemma AliasDeclaredAnywhereResolves(text: string, i: int, name: string, target: string)
    requires LooksLikeGo(text)
    requires 0 <= i < |Split(text)| && AliasOf(Split(text)[i]) == Some((name, target))
    requires forall j :: i < j < |Split(text)| ==>
      AliasOf(Split(text)[j]).None? || AliasOf(Split(text)[j]).value.0 != name
    requires name != "bool"
    ensures ResolveType(Pass1(map[], text), name) == target
  {
    Pass1LastDeclaration(text, i, name, target);
    AliasOfIsWords(Split(text)[i]);
  }
}
