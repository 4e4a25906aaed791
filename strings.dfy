/** The few JavaScript string operations the scanner relies on, over strings as sequences of
    characters: `trim`, `indexOf`, `startsWith`, `replace` with a string pattern, `split('\n')` and
    `join('\n')`. */
module Strings {

  /** ECMAScript white space and line terminators: exactly the characters `String.prototype.trim`
      removes and the regex class `\s` matches. */
  predicate IsSpace(c: char) {
    if c <= ' ' then
      '\t' <= c <= '\r' || c == ' '
    else
      '\U{A0}' <= c
      && (c == '\U{A0}' || c == '\U{1680}' || ('\U{2000}' <= c <= '\U{200A}')
          || c == '\U{2028}' || c == '\U{2029}' || c == '\U{202F}' || c == '\U{205F}'
          || c == '\U{3000}' || c == '\U{FEFF}')
  }

  /** `s` with its leading white space removed. */
  function TrimStart(s: string): (r: string)
    ensures |r| <= |s| && r == s[|s| - |r|..]
    ensures r == [] || !IsSpace(r[0])
  {
    if s != [] && IsSpace(s[0]) then TrimStart(s[1..]) else s
  }

  /** All that `TrimStart` removes is white space. */
  lemma {:induction false} TrimStartRemovesSpace(s: string)
    ensures forall i :: 0 <= i < |s| - |TrimStart(s)| ==> IsSpace(s[i])
  {
    if s != [] && IsSpace(s[0]) {
      TrimStartRemovesSpace(s[1..]);
      assert forall i :: 1 <= i < |s| ==> s[i] == s[1..][i - 1];
    }
  }

  /** `s` with its trailing white space removed. */
  function TrimEnd(s: string): (r: string)
    ensures |r| <= |s| && r == s[..|r|]
    ensures r == [] || !IsSpace(r[|r| - 1])
  {
    if s != [] && IsSpace(s[|s| - 1]) then TrimEnd(s[..|s| - 1]) else s
  }

  /** All that `TrimEnd` removes is white space. */
  lemma {:induction false} TrimEndRemovesSpace(s: string)
    ensures forall i :: |TrimEnd(s)| <= i < |s| ==> IsSpace(s[i])
  {
    if s != [] && IsSpace(s[|s| - 1]) {
      TrimEndRemovesSpace(s[..|s| - 1]);
    }
  }

  /** `r` is what is left of `s` once the `k` characters before it and all those after it, every
      one of them white space, are cut away. */
  ghost predicate TrimmedAt(s: string, k: int, r: string) {
    0 <= k && k + |r| <= |s| && s[k..k + |r|] == r
    && (forall i :: 0 <= i < k ==> IsSpace(s[i]))
    && (forall i :: k + |r| <= i < |s| ==> IsSpace(s[i]))
  }

  /** `String.prototype.trim`: neither end of the result is white space. */
  function Trim(s: string): (r: string)
    ensures |r| <= |s|
    ensures r == [] || (!IsSpace(r[0]) && !IsSpace(r[|r| - 1]))
  {
    TrimEnd(TrimStart(s))
  }

  /** What `Trim` keeps is a slice of `s`, and all it cuts away is white space. */
  lemma TrimExact(s: string)
    ensures TrimmedAt(s, |s| - |TrimStart(s)|, Trim(s))
  {
    TrimStartRemovesSpace(s);
    TrimKeepsSlice(s);
    TrimCutsTrailingSpace(s);
  }

  /** What `Trim` keeps starts where `TrimStart` cut. */
  lemma TrimKeepsSlice(s: string)
    ensures var k := |s| - |TrimStart(s)|;
      k + |Trim(s)| <= |s| && s[k..k + |Trim(s)|] == Trim(s)
  {
    var t := TrimStart(s);
    var k, r := |s| - |t|, TrimEnd(t);
    assert t == s[k..] && r == t[..|r|];
    assert s[k..][..|r|] == s[k..k + |r|];
  }

  /** Everything after what `Trim` keeps is white space. */
  lemma TrimCutsTrailingSpace(s: string)
    ensures var k := |s| - |TrimStart(s)|;
      forall i :: k + |Trim(s)| <= i < |s| ==> IsSpace(s[i])
  {
    var t := TrimStart(s);
    var k, r := |s| - |t|, TrimEnd(t);
    TrimEndRemovesSpace(t);
    assert t == s[k..];
    forall i | k + |r| <= i < |s| ensures IsSpace(s[i]) {
      assert s[i] == t[i - k];
    }
  }

  /** A string that neither starts nor ends with white space is its own trim. */
  lemma TrimOfTrimmed(s: string)
    requires s == [] || (!IsSpace(s[0]) && !IsSpace(s[|s| - 1]))
    ensures Trim(s) == s
  {
  }

  /** Trimming twice is trimming once. */
  lemma TrimIdempotent(s: string)
    ensures Trim(Trim(s)) == Trim(s)
  {
    TrimOfTrimmed(Trim(s));
  }

  /** `p` occurs in `s` starting at index `i`. */
  predicate OccursAt(s: string, p: string, i: int) {
    0 <= i && i + |p| <= |s| && s[i..i + |p|] == p
  }

  /** The leftmost occurrence of `p` in `s` at or after `i`, or -1. */
  function IndexFrom(s: string, p: string, i: nat): (r: int)
    requires i <= |s|
    ensures r == -1 || (i <= r && OccursAt(s, p, r))
    decreases |s| - i
  {
    if OccursAt(s, p, i) then i
    else if i == |s| then -1
    else IndexFrom(s, p, i + 1)
  }

  /** The search from `i` skips no occurrence. */
  lemma {:induction false} IndexFromLeftmost(s: string, p: string, i: nat)
    requires i <= |s|
    ensures var r := IndexFrom(s, p, i);
      forall j :: i <= j && (r == -1 || j < r) ==> !OccursAt(s, p, j)
    decreases |s| - i
  {
    if !OccursAt(s, p, i) && i < |s| {
      IndexFromLeftmost(s, p, i + 1);
    }
  }

  /** `String.prototype.indexOf`: the leftmost occurrence of `p` in `s`, or -1 when there is none. */
  function IndexOf(s: string, p: string): (r: int)
    ensures r == -1 || (0 <= r && OccursAt(s, p, r))
  {
    IndexFrom(s, p, 0)
  }

  /** `indexOf` reports -1 exactly when `p` occurs nowhere, and otherwise its leftmost
      occurrence. */
  lemma IndexOfExact(s: string, p: string)
    ensures var r := IndexOf(s, p);
      (r == -1 <==> forall j :: !OccursAt(s, p, j))
      && (r != -1 ==> forall j :: 0 <= j < r ==> !OccursAt(s, p, j))
  {
    IndexFromLeftmost(s, p, 0);
  }

  predicate Contains(s: string, p: string) {
    IndexOf(s, p) != -1
  }

  /** `String.prototype.startsWith` for a one-character prefix. */
  predicate StartsWith(s: string, c: char) {
    |s| > 0 && s[0] == c
  }

  /** `s.replace(p, '')` with a string pattern: only the FIRST occurrence of `p` is removed. */
  function ReplaceFirst(s: string, p: string): (r: string)
    ensures |r| == if IndexOf(s, p) == -1 then |s| else |s| - |p|
  {
    var k := IndexOf(s, p);
    if k == -1 then s else s[..k] + s[k + |p|..]
  }

  /** Nothing to replace leaves the string as it is. */
  lemma ReplaceFirstAbsent(s: string, p: string)
    requires !Contains(s, p)
    ensures ReplaceFirst(s, p) == s
  {
  }

  /** When `p` first occurs right after `a`, replacing it removes exactly that occurrence. */
  lemma ReplaceFirstAfter(a: string, p: string, b: string)
    requires forall j :: 0 <= j < |a| ==> !OccursAt(a + p + b, p, j)
    ensures ReplaceFirst(a + p + b, p) == a + b
  {
    var s := a + p + b;
    assert OccursAt(s, p, |a|) by { assert s[|a|..|a| + |p|] == p; }
    IndexOfExact(s, p);
    assert IndexOf(s, p) == |a|;
    assert s[..|a|] == a && s[|a| + |p|..] == b;
  }

  /** Replacing a character removes its first occurrence. */
  lemma ReplaceFirstChar(a: string, c: char, b: string)
    requires c !in a
    ensures ReplaceFirst(a + [c] + b, [c]) == a + b
  {
    var s := a + [c] + b;
    forall j | 0 <= j < |a| ensures !OccursAt(s, [c], j) {
      assert s[j..j + 1][0] == a[j];
    }
    ReplaceFirstAfter(a, [c], b);
  }

  /** A pattern that does not occur in `a` and has no `sep` is found first right after a `sep`
      that follows `a`. */
  lemma ReplaceFirstSuffix(a: string, sep: char, p: string)
    requires sep !in p && !Contains(a, p)
    ensures ReplaceFirst(a + [sep] + p, p) == a + [sep]
  {
    NotBeforeSeparator(a, sep, p, p);
    assert a + [sep] + p == (a + [sep]) + p + [];
    ReplaceFirstAfter(a + [sep], p, []);
  }

  /** Every character of the replaced string was in the original. */
  lemma ReplaceFirstChars(s: string, p: string, c: char)
    requires c !in s
    ensures c !in ReplaceFirst(s, p)
  {
    var k := IndexOf(s, p);
    if k != -1 {
      assert ReplaceFirst(s, p) == s[..k] + s[k + |p|..];
      assert c !in s[..k] && c !in s[k + |p|..] by {
        assert forall x :: x in s[..k] ==> x in s;
        assert forall x :: x in s[k + |p|..] ==> x in s;
      }
    }
  }

  /** A character missing from a string is missing from each of its slices. */
  lemma SliceLacks(s: string, i: int, j: int, c: char)
    requires 0 <= i <= j <= |s| && c !in s
    ensures c !in s[i..j]
  {
    assert forall x :: x in s[i..j] ==> x in s;
  }

  /** A character missing from a string is missing from its trim. */
  lemma TrimLacks(s: string, c: char)
    requires c !in s
    ensures c !in Trim(s)
  {
    var k := |s| - |TrimStart(s)|;
    TrimExact(s);
    SliceLacks(s, k, k + |Trim(s)|, c);
  }

  /** A slice lying inside the first part of a concatenation is a slice of that part. */
  lemma SliceOfPrefix(a: string, b: string, i: int, j: int)
    requires 0 <= i <= j <= |a|
    ensures (a + b)[i..j] == a[i..j]
  {
    assert forall k :: 0 <= k < j - i ==> (a + b)[i..j][k] == a[i..j][k];
  }

  /** A slice lying inside the second part of a concatenation is a slice of that part. */
  lemma SliceOfSuffix(a: string, b: string, i: int, j: int)
    requires |a| <= i <= j <= |a| + |b|
    ensures (a + b)[i..j] == b[i - |a|..j - |a|]
  {
    assert forall k :: 0 <= k < j - i ==> (a + b)[i..j][k] == b[i - |a|..j - |a|][k];
  }

  /** A one-character pattern occurs only where that character is. */
  lemma NotContainsChar(s: string, c: char)
    requires c !in s
    ensures !Contains(s, [c])
  {
    forall j | 0 <= j < |s| ensures !OccursAt(s, [c], j) {
      assert s[j..j + 1][0] == s[j];
    }
    IndexOfExact(s, [c]);
  }

  /** A pattern holding a character the string lacks does not occur in it. */
  lemma NotContainsMissing(s: string, p: string, c: char)
    requires c in p && c !in s
    ensures !Contains(s, p)
  {
    forall j | OccursAt(s, p, j) ensures false {
      SliceLacks(s, j, j + |p|, c);
    }
    IndexOfExact(s, p);
  }

  /** A pattern without `sep` occurs in `a + [sep] + rest` no earlier than after the `sep`, when
      it does not occur in `a`. */
  lemma NotBeforeSeparator(a: string, sep: char, rest: string, p: string)
    requires sep !in p && !Contains(a, p)
    ensures forall j :: 0 <= j <= |a| ==> !OccursAt(a + [sep] + rest, p, j)
  {
    var s := a + [sep] + rest;
    IndexOfExact(a, p);
    forall j | 0 <= j <= |a| && j + |p| <= |s| ensures !OccursAt(s, p, j) {
      if j + |p| <= |a| {
        assert s[j..j + |p|] == a[j..j + |p|];
        assert !OccursAt(a, p, j);
      } else {
        assert s[j..j + |p|][|a| - j] == sep;
      }
    }
  }

  /** A pattern without `sep` cannot straddle a `sep` placed between two strings it does not
      occur in. */
  lemma NotContainsAround(a: string, sep: char, b: string, p: string)
    requires sep !in p && !Contains(a, p) && !Contains(b, p)
    ensures !Contains(a + [sep] + b, p)
  {
    var s := a + [sep] + b;
    IndexOfExact(a, p);
    IndexOfExact(b, p);
    forall j | 0 <= j && j + |p| <= |s| ensures !OccursAt(s, p, j) {
      if j + |p| <= |a| {
        SliceOfPrefix(a, [sep] + b, j, j + |p|);
        assert a + ([sep] + b) == s;
        assert !OccursAt(a, p, j);
      } else if j <= |a| {
        assert s[j..j + |p|][|a| - j] == sep;
      } else {
        SliceOfSuffix(a + [sep], b, j, j + |p|);
        assert !OccursAt(b, p, j - |a| - 1);
      }
    }
    IndexOfExact(s, p);
  }

  /** `f` applied to each line, in order. */
  function MapLines<T>(f: string -> T, lines: seq<string>): seq<T> {
    seq(|lines|, i requires 0 <= i < |lines| => f(lines[i]))
  }

  /** Each line is mapped on its own. */
  lemma MapLinesAppend<T>(f: string -> T, a: seq<string>, b: seq<string>)
    ensures MapLines(f, a + b) == MapLines(f, a) + MapLines(f, b)
  {
    var ab, fa, fb := MapLines(f, a + b), MapLines(f, a), MapLines(f, b);
    forall i | 0 <= i < |ab| ensures ab[i] == (fa + fb)[i] {
      if i < |a| {
        assert (a + b)[i] == a[i];
      } else {
        assert (a + b)[i] == b[i - |a|];
      }
    }
  }

  /** `lines.join('\n')`. */
  function Join(lines: seq<string>): (r: string)
    ensures |lines| == 0 ==> r == ""
    ensures |lines| > 0 ==> lines[0] <= r
  {
    if |lines| == 0 then ""
    else if |lines| == 1 then lines[0]
    else lines[0] + "\n" + Join(lines[1..])
  }

  predicate NoNewlines(lines: seq<string>) {
    forall i :: 0 <= i < |lines| ==> '\n' !in lines[i]
  }

  /** `s.split('\n')`: the pieces between newlines, which joined back with newlines give `s`. */
  function Split(s: string): (r: seq<string>)
    ensures |r| >= 1 && NoNewlines(r)
    ensures Join(r) == s
  {
    if s == [] then [""]
    else
      var rest := Split(s[1..]);
      if s[0] == '\n' then [""] + rest
      else [[s[0]] + rest[0]] + rest[1..]
  }

  /** A piece without a newline, followed by a newline, splits off as one line. */
  lemma {:induction false} SplitLine(a: string, b: string)
    requires '\n' !in a
    ensures Split(a + "\n" + b) == [a] + Split(b)
  {
    if a == [] {
      assert (a + "\n" + b)[1..] == b;
    } else {
      assert (a + "\n" + b)[1..] == a[1..] + "\n" + b;
      SplitLine(a[1..], b);
      assert [a[0]] + a[1..] == a;
    }
  }

  /** A string without a newline is one line. */
  lemma {:induction false} SplitSingle(a: string)
    requires '\n' !in a
    ensures Split(a) == [a]
  {
    if a != [] {
      SplitSingle(a[1..]);
      assert [a[0]] + a[1..] == a;
    }
  }

  /** Splitting undoes joining, for lines that hold no newline. */
  lemma {:induction false} SplitJoin(lines: seq<string>)
    requires |lines| >= 1 && NoNewlines(lines)
    ensures Split(Join(lines)) == lines
  {
    if |lines| == 1 {
      SplitSingle(lines[0]);
    } else {
      SplitJoin(lines[1..]);
      SplitLine(lines[0], Join(lines[1..]));
    }
  }

  /** Joining two non-empty runs of lines puts one newline between them. */
  lemma {:induction false} JoinAppend(a: seq<string>, b: seq<string>)
    requires |a| >= 1 && |b| >= 1
    ensures Join(a + b) == Join(a) + "\n" + Join(b)
  {
    if |a| == 1 {
      assert (a + b)[1..] == b;
    } else {
      assert (a + b)[1..] == a[1..] + b;
      JoinAppend(a[1..], b);
    }
  }
}
