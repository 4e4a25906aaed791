/** The three regular expressions of the scanner, each written out as a matcher that reproduces
    JavaScript's leftmost, greedy `String.prototype.match` for that one pattern:

      header  /type ([a-zA-Z0-9_]+) ([a-zA-Z0-9_]+)/           (unanchored)
      field   /^\s*([a-zA-Z0-9_]+)\s+([a-zA-Z0-9_\.]+)\s+(`[^`]+`)?/
      json    /json:"([^"]*)"/                                  (unanchored)

    Each matcher comes with a declarative "shape" predicate saying when the pattern can match at
    a position with given group lengths, and lemmas tying the matcher to it. */
module Patterns {
  import opened Wrappers
  import opened Strings

  /** The character classes the three patterns use. */
  datatype CharClass =
    | Word          // [a-zA-Z0-9_]
    | TypeWord      // [a-zA-Z0-9_\.]
    | Space         // \s
    | NonBacktick   // [^`]
    | NonQuote      // [^"]

  predicate IsWordChar(c: char) {
    ('a' <= c <= 'z') || ('A' <= c <= 'Z') || ('0' <= c <= '9') || c == '_'
  }

  predicate In(cls: CharClass, c: char) {
    match cls
    case Word => IsWordChar(c)
    case TypeWord => IsWordChar(c) || c == '.'
    case Space => IsSpace(c)
    case NonBacktick => c != '`'
    case NonQuote => c != '"'
  }

  /** Every character of `s[i..j]` is in `cls`. */
  ghost predicate AllIn(cls: CharClass, s: string, i: int, j: int)
    requires 0 <= i <= j <= |s|
  {
    forall k {:trigger In(cls, s[k])} :: i <= k < j ==> In(cls, s[k])
  }

  /** The length of the longest run of `cls` characters starting at `i`: how far a greedy `+` or
      `*` over that class reaches. */
  function Run(cls: CharClass, s: string, i: nat): (n: nat)
    requires i <= |s|
    ensures i + n <= |s|
    decreases |s| - i
  {
    if i < |s| && In(cls, s[i]) then 1 + Run(cls, s, i + 1) else 0
  }

  /** A greedy run stops at the end of `s` or at a character outside the class. */
  lemma {:induction false} RunStops(cls: CharClass, s: string, i: nat)
    requires i <= |s|
    ensures var n := Run(cls, s, i);
      i + n == |s| || !In(cls, s[i + n])
    decreases |s| - i
  {
    if i < |s| && In(cls, s[i]) {
      RunStops(cls, s, i + 1);
    }
  }

  /** Every character a run covers is in the class. */
  lemma {:induction false} RunAllIn(cls: CharClass, s: string, i: nat)
    requires i <= |s|
    ensures AllIn(cls, s, i, i + Run(cls, s, i))
    decreases |s| - i
  {
    if i < |s| && In(cls, s[i]) {
      RunAllIn(cls, s, i + 1);
    }
  }

  /** A run that is followed by a character outside the class is the longest one. */
  lemma {:induction false} RunIsMaximal(cls: CharClass, s: string, i: nat, n: nat)
    requires i + n <= |s| && AllIn(cls, s, i, i + n)
    requires i + n == |s| || !In(cls, s[i + n])
    ensures Run(cls, s, i) == n
    decreases n
  {
    if n > 0 {
      RunIsMaximal(cls, s, i + 1, n - 1);
    }
  }

  // ----- header: /type ([a-zA-Z0-9_]+) ([a-zA-Z0-9_]+)/ -----

  /** The literal text `type ` (with its space) starts at `i`. */
  predicate TypeKeywordAt(s: string, i: nat) {
    i + 5 <= |s| && s[i] == 't' && s[i + 1] == 'y' && s[i + 2] == 'p' && s[i + 3] == 'e'
    && s[i + 4] == ' '
  }

  /** A header match: where it starts, and its two captures (`structMatch[1]`, `structMatch[2]`). */
  datatype Header = Header(at: nat, name: string, kind: string)

  /** The header pattern can match at `i` with groups of lengths `n` and `m`. */
  ghost predicate HeaderShape(s: string, i: int, n: int, m: int) {
    0 <= i && 1 <= n && 1 <= m && i + 6 + n + m <= |s|
    && TypeKeywordAt(s, i) && AllIn(Word, s, i + 5, i + 5 + n)
    && s[i + 5 + n] == ' ' && AllIn(Word, s, i + 6 + n, i + 6 + n + m)
  }

  /** The greedy match of the header pattern at exactly position `i`, if any. */
  function HeaderAt(s: string, i: nat): Option<Header>
    requires i <= |s|
  {
    if TypeKeywordAt(s, i) then
      var n := Run(Word, s, i + 5);
      if n > 0 && i + 5 + n < |s| && s[i + 5 + n] == ' ' then
        var m := Run(Word, s, i + 6 + n);
        if m > 0 then Some(Header(i, s[i + 5..i + 5 + n], s[i + 6 + n..i + 6 + n + m])) else None
      else None
    else None
  }

  /** The leftmost header match at or after `i`. */
  function FindHeader(s: string, i: nat): Option<Header>
    requires i <= |s|
    decreases |s| - i
  {
    var h := HeaderAt(s, i);
    if h.Some? then h else if i == |s| then None else FindHeader(s, i + 1)
  }

  /** `line.match(/type ([a-zA-Z0-9_]+) ([a-zA-Z0-9_]+)/)`. */
  function MatchHeader(s: string): Option<Header> {
    FindHeader(s, 0)
  }

  /** What the greedy matcher at `i` returns is a match of the pattern there, whose second group
      cannot be extended. */
  lemma HeaderAtSound(s: string, i: nat, h: Header)
    requires i <= |s| && HeaderAt(s, i) == Some(h)
    ensures var n, m := |h.name|, |h.kind|;
      h.at == i && HeaderShape(s, i, n, m)
      && h.name == s[i + 5..i + 5 + n] && h.kind == s[i + 6 + n..i + 6 + n + m]
      && (i + 6 + n + m == |s| || !In(Word, s[i + 6 + n + m]))
  {
    var n := Run(Word, s, i + 5);
    RunAllIn(Word, s, i + 5);
    RunAllIn(Word, s, i + 6 + n);
    RunStops(Word, s, i + 6 + n);
  }

  /** Wherever the pattern can match, the greedy matcher succeeds, with the forced first group. */
  lemma HeaderAtComplete(s: string, i: nat, n: int, m: int)
    requires i <= |s| && HeaderShape(s, i, n, m)
    ensures HeaderAt(s, i).Some? && |HeaderAt(s, i).value.name| == n
  {
    RunIsMaximal(Word, s, i + 5, n);
    assert Run(Word, s, i + 6 + n) >= 1;
  }

  /** The leftmost search from `i` finds nothing exactly when the greedy matcher succeeds nowhere
      from `i` on. */
  lemma {:induction false} FindHeaderNone(s: string, i: nat)
    requires i <= |s|
    ensures FindHeader(s, i).None? <==> forall j :: i <= j <= |s| ==> HeaderAt(s, j).None?
    decreases |s| - i
  {
    if HeaderAt(s, i).None? && i < |s| {
      FindHeaderNone(s, i + 1);
    }
  }

  /** What the leftmost search from `i` finds is the greedy match at the first position at or
      after `i` where the matcher succeeds. */
  lemma {:induction false} FindHeaderLeftmost(s: string, i: nat)
    requires i <= |s| && FindHeader(s, i).Some?
    ensures var h := FindHeader(s, i).value;
      i <= h.at <= |s| && HeaderAt(s, h.at) == FindHeader(s, i)
      && forall j :: i <= j < h.at ==> HeaderAt(s, j).None?
    decreases |s| - i
  {
    if HeaderAt(s, i).None? {
      FindHeaderLeftmost(s, i + 1);
    } else {
      assert HeaderAt(s, i).value.at == i;
    }
  }

  /** The header matcher fails exactly when the pattern matches nowhere in `s`. */
  lemma MatchHeaderNone(s: string)
    ensures MatchHeader(s).None? <==> forall j, n, m :: !HeaderShape(s, j, n, m)
  {
    FindHeaderNone(s, 0);
    if MatchHeader(s).None? {
      forall j, n, m | HeaderShape(s, j, n, m) ensures false {
        HeaderAtComplete(s, j, n, m);
      }
    } else {
      FindHeaderLeftmost(s, 0);
      HeaderAtSound(s, MatchHeader(s).value.at, MatchHeader(s).value);
    }
  }

  /** When the header matcher succeeds it reports a match of the pattern, whose first group is
      forced and whose second group is the longest run of identifier characters. */
  lemma MatchHeaderSound(s: string)
    requires MatchHeader(s).Some?
    ensures var h := MatchHeader(s).value;
      var i, n, m := h.at, |h.name|, |h.kind|;
      HeaderShape(s, i, n, m)
      && h.name == s[i + 5..i + 5 + n] && h.kind == s[i + 6 + n..i + 6 + n + m]
      && (i + 6 + n + m == |s| || !In(Word, s[i + 6 + n + m]))
  {
    var h := MatchHeader(s).value;
    assert h.at <= |s| && HeaderAt(s, h.at) == Some(h) by {
      FindHeaderLeftmost(s, 0);
    }
    HeaderAtSound(s, h.at, h);
  }

  /** The match the header matcher reports is the leftmost one: the pattern matches nowhere
      before it. */
  lemma MatchHeaderLeftmost(s: string)
    requires MatchHeader(s).Some?
    ensures forall j, n, m :: 0 <= j < MatchHeader(s).value.at ==> !HeaderShape(s, j, n, m)
  {
    FindHeaderLeftmost(s, 0);
    var at := MatchHeader(s).value.at;
    forall j, n, m | 0 <= j < at ensures !HeaderShape(s, j, n, m) {
      if HeaderShape(s, j, n, m) {
        HeaderAtComplete(s, j, n, m);
      }
    }
  }

  /** Both captures of a header match are non-empty runs of identifier characters. */
  lemma HeaderCapturesAreWords(s: string)
    requires MatchHeader(s).Some?
    ensures var h := MatchHeader(s).value;
      |h.name| >= 1 && |h.kind| >= 1
      && (forall k :: 0 <= k < |h.name| ==> In(Word, h.name[k]))
      && (forall k :: 0 <= k < |h.kind| ==> In(Word, h.kind[k]))
  {
    MatchHeaderSound(s);
    var h := MatchHeader(s).value;
    var i, n := h.at, |h.name|;
    assert forall k :: 0 <= k < |h.name| ==> h.name[k] == s[i + 5 + k];
    assert forall k :: 0 <= k < |h.kind| ==> h.kind[k] == s[i + 6 + n + k];
  }

  // ----- field: /^\s*([a-zA-Z0-9_]+)\s+([a-zA-Z0-9_\.]+)\s+(`[^`]+`)?/ -----

  /** A field match: the name, the type and, when the optional group took part, the tag with its
      backticks (`fieldMatch[1..3]`). */
  datatype FieldMatch = FieldMatch(name: string, typ: string, tag: Option<string>)

  /** The mandatory part of the field pattern can match `s` from its start with leading white
      space `s[..a]`, the name `s[a..b]`, white space `s[b..c]`, the type `s[c..d]` and white space
      `s[d..e]`. */
  ghost predicate FieldShape(s: string, a: int, b: int, c: int, d: int, e: int) {
    0 <= a < b < c < d < e <= |s|
    && AllIn(Space, s, 0, a)
    && AllIn(Word, s, a, b)
    && AllIn(Space, s, b, c)
    && AllIn(TypeWord, s, c, d)
    && AllIn(Space, s, d, e)
  }

  /** The optional group can match at `g` with `k` characters between the backticks. */
  ghost predicate TagShape(s: string, g: int, k: int) {
    0 <= g && 1 <= k && g + k + 2 <= |s|
    && s[g] == '`' && AllIn(NonBacktick, s, g + 1, g + 1 + k) && s[g + 1 + k] == '`'
  }

  /** The optional tag group, tried at `g`. */
  function TagAt(s: string, g: nat): (r: Option<string>)
    requires g <= |s|
    ensures r.Some? ==> |r.value| >= 3 && r.value[0] == '`' && g + |r.value| <= |s|
  {
    if g < |s| && s[g] == '`' then
      var k := Run(NonBacktick, s, g + 1);
      if k > 0 && g + 1 + k < |s| then Some(s[g..g + k + 2]) else None
    else None
  }

  /** Positions in a line, named as in `FieldShape`. */
  datatype Bounds = Bounds(a: nat, b: nat, c: nat, d: nat, e: nat)

  /** Where the greedy runs of the field pattern end: after the leading white space, the name,
      the white space, the type and the white space that follows it. */
  function FieldBounds(s: string): Bounds {
    var a := Run(Space, s, 0);
    var b := a + Run(Word, s, a);
    var c := b + Run(Space, s, b);
    var d := c + Run(TypeWord, s, c);
    Bounds(a, b, c, d, d + Run(Space, s, d))
  }

  /** `line.match(/^\s*([a-zA-Z0-9_]+)\s+([a-zA-Z0-9_\.]+)\s+(`[^`]+`)?/)`. */
  function MatchField(s: string): (r: Option<FieldMatch>)
    ensures r.Some? ==> |r.value.name| > 0 && |r.value.typ| > 0
  {
    var f := FieldBounds(s);
    if f.a < f.b < f.c < f.d < f.e then Some(FieldMatch(s[f.a..f.b], s[f.c..f.d], TagAt(s, f.e))) else None
  }

  /** In a match of the field pattern, each greedy run stops exactly at the next boundary. */
  lemma FieldRuns(s: string, a: int, b: int, c: int, d: int, e: int)
    requires FieldShape(s, a, b, c, d, e)
    ensures Run(Space, s, 0) == a && Run(Word, s, a) == b - a && Run(Space, s, b) == c - b
    ensures Run(TypeWord, s, c) == d - c && Run(Space, s, d) >= 1
  {
    assert In(Word, s[a]);
    RunIsMaximal(Space, s, 0, a);
    assert In(Space, s[b]);
    RunIsMaximal(Word, s, a, b - a);
    assert In(TypeWord, s[c]);
    RunIsMaximal(Space, s, b, c - b);
    assert In(Space, s[d]);
    RunIsMaximal(TypeWord, s, c, d - c);
  }

  /** Whatever way the field pattern matches, the matcher succeeds with the same name and type
      captures: the groups are forced by the character classes. */
  lemma MatchFieldComplete(s: string, a: int, b: int, c: int, d: int, e: int)
    requires FieldShape(s, a, b, c, d, e)
    ensures MatchField(s).Some?
    ensures MatchField(s).value.name == s[a..b]
    ensures MatchField(s).value.typ == s[c..d]
  {
    FieldRuns(s, a, b, c, d, e);
    MatchFieldAtBounds(s, a, b, c, d);
  }

  /** When the greedy runs end at `a < b < c < d` and white space follows the type, the field
      matcher succeeds with the captures between them. */
  lemma MatchFieldAtBounds(s: string, a: nat, b: nat, c: nat, d: nat)
    requires a < b < c < d
    requires Run(Space, s, 0) == a && Run(Word, s, a) == b - a && Run(Space, s, b) == c - b
    requires Run(TypeWord, s, c) == d - c && Run(Space, s, d) >= 1
    ensures MatchField(s).Some? && MatchField(s).value.name == s[a..b] && MatchField(s).value.typ == s[c..d]
  {
    var f := FieldBounds(s);
    assert f.a == a && f.b == b && f.c == c && f.d == d && f.e > d by {
      FieldBoundsAt(s, a, b, c, d);
    }
    assert MatchField(s) == Some(FieldMatch(s[a..b], s[c..d], TagAt(s, f.e)));
  }

  lemma FieldBoundsAt(s: string, a: nat, b: nat, c: nat, d: nat)
    requires a < b < c < d
    requires Run(Space, s, 0) == a && Run(Word, s, a) == b - a && Run(Space, s, b) == c - b
    requires Run(TypeWord, s, c) == d - c && Run(Space, s, d) >= 1
    ensures var f := FieldBounds(s);
      f.a == a && f.b == b && f.c == c && f.d == d && f.e > d
  {
  }

  /** When the field matcher succeeds, its greedy runs are a match of the pattern, and the tag
      group is tried right after the last white space run, which cannot be extended. */
  lemma MatchFieldSound(s: string, a: nat, b: nat, c: nat, d: nat, e: nat)
    requires FieldBounds(s) == Bounds(a, b, c, d, e) && MatchField(s).Some?
    ensures FieldShape(s, a, b, c, d, e)
    ensures MatchField(s) == Some(FieldMatch(s[a..b], s[c..d], TagAt(s, e)))
    ensures e == |s| || !In(Space, s[e])
  {
    assert a == Run(Space, s, 0) && b == a + Run(Word, s, a) && c == b + Run(Space, s, b);
    assert d == c + Run(TypeWord, s, c) && e == d + Run(Space, s, d);
    assert a < b < c < d < e;
    assert MatchField(s) == Some(FieldMatch(s[a..b], s[c..d], TagAt(s, e)));
    RunsMakeShape(s, a, b, c, d, e);
  }

  /** Greedy runs that all take part end at boundaries of a match of the pattern. */
  lemma RunsMakeShape(s: string, a: nat, b: nat, c: nat, d: nat, e: nat)
    requires a < b < c < d < e <= |s|
    requires a == Run(Space, s, 0) && b == a + Run(Word, s, a) && c == b + Run(Space, s, b)
    requires d == c + Run(TypeWord, s, c) && e == d + Run(Space, s, d)
    ensures FieldShape(s, a, b, c, d, e) && (e == |s| || !In(Space, s[e]))
  {
    RunAllIn(Space, s, 0);
    RunAllIn(Word, s, a);
    RunAllIn(Space, s, b);
    RunAllIn(TypeWord, s, c);
    RunAllIn(Space, s, d);
    RunStops(Space, s, d);
  }

  /** The field matcher succeeds exactly when the pattern can match. */
  lemma MatchFieldExact(s: string)
    ensures MatchField(s).Some? <==> exists a, b, c, d, e :: FieldShape(s, a, b, c, d, e)
  {
    if exists a, b, c, d, e :: FieldShape(s, a, b, c, d, e) {
      var a, b, c, d, e :| FieldShape(s, a, b, c, d, e);
      MatchFieldComplete(s, a, b, c, d, e);
    }
    if MatchField(s).Some? {
      var Bounds(a, b, c, d, e) := FieldBounds(s);
      MatchFieldSound(s, a, b, c, d, e);
    }
  }

  /** The tag group is taken right after the longest white space following the type, exactly
      when a backtick-delimited, non-empty tag starts there; it is captured with its backticks. */
  lemma TagAtExact(s: string, g: nat)
    requires g <= |s|
    ensures TagAt(s, g).Some? <==> exists k :: TagShape(s, g, k)
    ensures TagAt(s, g).Some? ==>
      var t := TagAt(s, g).value;
      TagShape(s, g, |t| - 2) && t == s[g..g + |t|]
  {
    if exists k :: TagShape(s, g, k) {
      var k :| TagShape(s, g, k);
      RunIsMaximal(NonBacktick, s, g + 1, k);
    }
    if TagAt(s, g).Some? {
      RunAllIn(NonBacktick, s, g + 1);
      RunStops(NonBacktick, s, g + 1);
      assert TagShape(s, g, Run(NonBacktick, s, g + 1));
    }
  }

  // ----- json: /json:"([^"]*)"/ -----

  /** The literal text `json:"` starts at `i`. */
  predicate JsonKeyAt(s: string, i: nat) {
    i + 6 <= |s| && s[i] == 'j' && s[i + 1] == 's' && s[i + 2] == 'o' && s[i + 3] == 'n'
    && s[i + 4] == ':' && s[i + 5] == '"'
  }

  /** The json pattern can match at `i` with a capture of length `k`. */
  ghost predicate JsonShape(s: string, i: int, k: int) {
    0 <= i && 0 <= k && i + 7 + k <= |s|
    && JsonKeyAt(s, i) && AllIn(NonQuote, s, i + 6, i + 6 + k) && s[i + 6 + k] == '"'
  }

  /** The greedy match of the json pattern at exactly position `i`: its capture. */
  function JsonAt(s: string, i: nat): Option<string>
    requires i <= |s|
  {
    if JsonKeyAt(s, i) then
      var k := Run(NonQuote, s, i + 6);
      if i + 6 + k < |s| then Some(s[i + 6..i + 6 + k]) else None
    else None
  }

  /** The leftmost json match at or after `i`, with the position where it starts. */
  function FindJson(s: string, i: nat): Option<(nat, string)>
    requires i <= |s|
    decreases |s| - i
  {
    var c := JsonAt(s, i);
    if c.Some? then Some((i, c.value))
    else if i == |s| then None
    else FindJson(s, i + 1)
  }

  /** `tag.match(/json:"([^"]*)"/)`, reduced to its capture group. */
  function MatchJsonTag(s: string): Option<string> {
    var r := FindJson(s, 0);
    if r.Some? then Some(r.value.1) else None
  }

  /** The json matcher at `i` succeeds exactly when the pattern matches there, and captures up to
      the next quote. */
  lemma JsonAtExact(s: string, i: nat)
    requires i <= |s|
    ensures JsonAt(s, i).Some? <==> exists k :: JsonShape(s, i, k)
    ensures JsonAt(s, i).Some? ==>
      var c := JsonAt(s, i).value;
      JsonShape(s, i, |c|) && c == s[i + 6..i + 6 + |c|]
  {
    if exists k :: JsonShape(s, i, k) {
      var k :| JsonShape(s, i, k);
      RunIsMaximal(NonQuote, s, i + 6, k);
    }
    if JsonAt(s, i).Some? {
      RunAllIn(NonQuote, s, i + 6);
      RunStops(NonQuote, s, i + 6);
      assert JsonShape(s, i, Run(NonQuote, s, i + 6));
    }
  }

  /** The json search from `i` fails exactly when the pattern matches nowhere from `i` on, and
      otherwise reports the first position where it matches. */
  lemma {:induction false} FindJsonLeftmost(s: string, i: nat)
    requires i <= |s|
    ensures FindJson(s, i).None? <==> forall j, k :: i <= j ==> !JsonShape(s, j, k)
    ensures FindJson(s, i).Some? ==>
      var (at, c) := FindJson(s, i).value;
      i <= at <= |s| && JsonAt(s, at) == Some(c)
      && forall j, k :: i <= j < at ==> !JsonShape(s, j, k)
    decreases |s| - i
  {
    JsonAtExact(s, i);
    if JsonAt(s, i).None? && i < |s| {
      FindJsonLeftmost(s, i + 1);
    } else if JsonAt(s, i).None? {
      forall j, k | i <= j ensures !JsonShape(s, j, k) {
        if j == i {
          JsonAtExact(s, i);
        }
      }
    }
  }

  /** The json matcher implements the pattern: it fails exactly when `json:"…"` occurs nowhere,
      and otherwise captures what lies between the quotes of the leftmost occurrence. */
  lemma MatchJsonTagExact(s: string)
    ensures MatchJsonTag(s).None? <==> forall j, k :: !JsonShape(s, j, k)
    ensures MatchJsonTag(s).Some? ==>
      var c := MatchJsonTag(s).value;
      exists i :: JsonShape(s, i, |c|) && c == s[i + 6..i + 6 + |c|]
        && forall j, k :: 0 <= j < i ==> !JsonShape(s, j, k)
  {
    FindJsonLeftmost(s, 0);
    if FindJson(s, 0).Some? {
      var (at, c) := FindJson(s, 0).value;
      JsonAtExact(s, at);
      assert JsonShape(s, at, |c|) && c == s[at + 6..at + 6 + |c|];
    }
  }
}
