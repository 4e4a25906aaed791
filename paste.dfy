/** The paste command: when the editor holds TypeScript, the clipboard is scanned for Go structs
    and, if any come out, each is pasted as a TypeScript class declaring its fields under their
    json names; otherwise the clipboard is pasted as it is. */
module Paste {
  import opened Strings
  import opened Scanner
  import opened ScannerProperties

  /** One field of a class: a tab, the json name, `: ` and the type. */
  function FieldLine(f: FieldDef): string {
    "\t" + f.jsonName + ": " + f.typ
  }

  /** The field lines of a class body, each ended by a newline, in field order. */
  function FieldsText(fields: seq<FieldDef>): (r: string)
    ensures |r| >= 4 * |fields|
    ensures fields != [] ==> r[|r| - 1] == '\n'
    decreases |fields|
  {
    if fields == [] then ""
    else FieldsText(fields[..|fields| - 1]) + FieldLine(fields[|fields| - 1]) + "\n"
  }

  /** The text of one class, ended by a newline. */
  function ClassText(d: StructDef): string {
    "class " + d.name + " {\n" + FieldsText(d.fields) + "}\n"
  }

  function Chunks(defs: seq<StructDef>): seq<string> {
    seq(|defs|, i requires 0 <= i < |defs| => ClassText(defs[i]))
  }

  /** What the command pastes: the classes, joined by newlines, when the editor holds TypeScript
      and the scan finds at least one struct; the clipboard text otherwise. */
  function PasteText(clipboard: string, isTypeScript: bool): string {
    if !isTypeScript then clipboard
    else
      var defs := ScanText(clipboard);
      if |defs| == 0 then clipboard else Join(Chunks(defs))
  }

  /** Builds one class the way the command does, appending a line per field. */
  method RenderClass(d: StructDef) returns (c: string)
    ensures c == ClassText(d)
  {
    c := "class " + d.name + " {\n";
    for i := 0 to |d.fields|
      invariant c == "class " + d.name + " {\n" + FieldsText(d.fields[..i])
    {
      assert d.fields[..i + 1][..i] == d.fields[..i];
      var f := d.fields[i];
      c := c + "\t" + f.jsonName + ": " + f.typ + "\n";
    }
    assert d.fields[..|d.fields|] == d.fields;
    c := c + "}\n";
  }

  /** One chunk per definition, in order. */
  method RenderAll(defs: seq<StructDef>) returns (toPasteChunks: seq<string>)
    ensures toPasteChunks == Chunks(defs)
  {
    toPasteChunks := [];
    for i := 0 to |defs|
      invariant |toPasteChunks| == i
      invariant forall j :: 0 <= j < i ==> toPasteChunks[j] == ClassText(defs[j])
    {
      var c := RenderClass(defs[i]);
      toPasteChunks := toPasteChunks + [c];
    }
  }

  /** The command: a fresh scanner, one chunk per definition, the chunks joined by newlines. */
  method Paste(clipboard: string, isTypeScript: bool) returns (toPaste: string)
    ensures toPaste == PasteText(clipboard, isTypeScript)
  {
    toPaste := clipboard;
    if isTypeScript {
      var scanner := new StructScanner();
      var defs := scanner.Scan(clipboard);
      assert defs == ScanText(clipboard);
      if |defs| > 0 {
        var toPasteChunks := RenderAll(defs);
        toPaste := Join(toPasteChunks);
      }
    }
  }

  // ----- what the pasted text looks like -----

  function FieldLines(fields: seq<FieldDef>): seq<string> {
    seq(|fields|, i requires 0 <= i < |fields| => FieldLine(fields[i]))
  }

  /** The lines of one class: its header, one line per field in order, and `}`. */
  function ClassLines(d: StructDef): seq<string> {
    ["class " + d.name + " {"] + FieldLines(d.fields) + ["}"]
  }

  /** The lines of the pasted classes: each class's lines followed by an empty line. */
  function PastedLines(defs: seq<StructDef>): seq<string>
    decreases |defs|
  {
    if defs == [] then [] else PastedLines(defs[..|defs| - 1]) + ClassLines(defs[|defs| - 1]) + [""]
  }

  /** A newline inside the last line of a join starts one more line. */
  lemma JoinSplitLast(x: seq<string>, a: string, b: string)
    requires |x| >= 1
    ensures Join(x + [a + "\n" + b]) == Join(x + [a, b])
  {
    JoinAppend(x, [a + "\n" + b]);
    JoinAppend(x, [a, b]);
    assert [a, b][1..] == [b];
  }

  /** The field lines between a head line and a last line are lines of their own. */
  lemma {:induction false} FieldsTextJoin(head: string, fields: seq<FieldDef>, last: string)
    ensures head + "\n" + FieldsText(fields) + last == Join([head] + FieldLines(fields) + [last])
    decreases |fields|
  {
    if fields == [] {
      assert [head] + FieldLines(fields) + [last] == [head, last];
      assert [head, last][1..] == [last];
    } else {
      var init, f := fields[..|fields| - 1], fields[|fields| - 1];
      var last' := FieldLine(f) + "\n" + last;
      assert FieldsText(fields) == FieldsText(init) + FieldLine(f) + "\n";
      calc {
        head + "\n" + FieldsText(fields) + last;
        head + "\n" + FieldsText(init) + last';
        { FieldsTextJoin(head, init, last'); }
        Join([head] + FieldLines(init) + [last']);
        { JoinSplitLast([head] + FieldLines(init), FieldLine(f), last); }
        Join([head] + FieldLines(init) + [FieldLine(f), last]);
        { assert FieldLines(fields) == FieldLines(init) + [FieldLine(f)];
          assert [head] + FieldLines(init) + [FieldLine(f), last] == [head] + FieldLines(fields) + [last]; }
        Join([head] + FieldLines(fields) + [last]);
      }
    }
  }

  /** A class text is its lines, each ended by a newline. */
  lemma ClassTextLines(d: StructDef)
    ensures ClassText(d) == Join(ClassLines(d) + [""])
  {
    var head := "class " + d.name + " {";
    FieldsTextJoin(head, d.fields, "}\n");
    JoinSplitLast([head] + FieldLines(d.fields), "}", "");
    assert "}" + "\n" + "" == "}\n";
    assert "class " + d.name + " {\n" == head + "\n";
    assert ClassText(d) == head + "\n" + FieldsText(d.fields) + "}\n";
    assert [head] + FieldLines(d.fields) + ["}", ""] == ClassLines(d) + [""];
  }

  /** Joining the chunks by newlines lays the classes' lines out one after the other, each
      class followed by an empty line. */
  lemma {:induction false} ChunksJoin(defs: seq<StructDef>)
    requires |defs| >= 1
    ensures Join(Chunks(defs)) == Join(PastedLines(defs))
    decreases |defs|
  {
    var init, d := defs[..|defs| - 1], defs[|defs| - 1];
    ClassTextLines(d);
    if init == [] {
      assert Chunks(defs) == [ClassText(d)];
      assert PastedLines(defs) == ClassLines(d) + [""] by {
        assert PastedLines(init) == [];
      }
    } else {
      var before, last := PastedLines(init), ClassLines(d) + [""];
      assert Chunks(defs) == Chunks(init) + [ClassText(d)];
      assert PastedLines(defs) == before + last;
      assert |before| >= 1 by {
        assert before == PastedLines(init[..|init| - 1]) + ClassLines(init[|init| - 1]) + [""];
      }
      calc {
        Join(Chunks(defs));
        { JoinAppend(Chunks(init), [ClassText(d)]); }
        Join(Chunks(init)) + "\n" + Join([ClassText(d)]);
        { ChunksJoin(init); }
        Join(before) + "\n" + Join(last);
        { JoinAppend(before, last); }
        Join(PastedLines(defs));
      }
    }
  }

  /** The pasted lines of one-line definitions hold no line break. */
  lemma {:induction false} PastedLinesNoNewlines(defs: seq<StructDef>)
    requires forall d :: d in defs ==> DefOnOneLine(d)
    ensures NoNewlines(PastedLines(defs))
    decreases |defs|
  {
    if defs != [] {
      var init, d := defs[..|defs| - 1], defs[|defs| - 1];
      assert forall e :: e in init ==> e in defs;
      PastedLinesNoNewlines(init);
      assert d in defs;
      var lines := ClassLines(d);
      forall i | 0 <= i < |lines| ensures '\n' !in lines[i] {
        if 0 < i < |lines| - 1 {
          var f := d.fields[i - 1];
          assert f in d.fields;
          assert lines[i] == "\t" + f.jsonName + ": " + f.typ;
        }
      }
    }
  }

  /** When the command converts, the pasted text, split at its newlines, is exactly the lines of
      the scanned classes in order, each class followed by an empty line. */
  lemma PasteIsClassLines(clipboard: string)
    requires |ScanText(clipboard)| > 0
    ensures Split(PasteText(clipboard, true)) == PastedLines(ScanText(clipboard))
  {
    var defs := ScanText(clipboard);
    ChunksJoin(defs);
    ScanTextOnOneLine(clipboard);
    PastedLinesNoNewlines(defs);
    assert |PastedLines(defs)| >= 1 by {
      assert PastedLines(defs) == PastedLines(defs[..|defs| - 1]) + ClassLines(defs[|defs| - 1]) + [""];
    }
    SplitJoin(PastedLines(defs));
  }

  /** Outside TypeScript, for a clipboard that does not look like Go, or when no struct comes
      out of the clipboard, the clipboard is pasted unchanged. */
  lemma PasteFallsBack(clipboard: string, isTypeScript: bool)
    requires !isTypeScript || !LooksLikeGo(clipboard) || |ScanText(clipboard)| == 0
    ensures PasteText(clipboard, isTypeScript) == clipboard
  {
    if isTypeScript && !LooksLikeGo(clipboard) {
      NotGoSourceYieldsNothing(map[], clipboard);
    }
  }
}
