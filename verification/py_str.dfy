/** The Python `str` operations the wallet log format and the option parsers
    rely on, over `string` (a `seq<char>`): `strip`, `startswith`, `in`,
    `split` with an explicit separator, `sep.join`, `replace` and `upper`. */
module PyStr {

  /** The characters for which Python's `str.isspace()` holds; these are the
      characters `strip()` removes when called without arguments. */
  predicate IsSpace(c: char) {
    || c == ' '
    || ('\U{9}' <= c <= '\U{D}')
    || ('\U{1C}' <= c <= '\U{1F}')
    || c == '\U{85}' || c == '\U{A0}' || c == '\U{1680}'
    || ('\U{2000}' <= c <= '\U{200A}')
    || c == '\U{2028}' || c == '\U{2029}' || c == '\U{202F}' || c == '\U{205F}' || c == '\U{3000}'
  }

  predicate AllSpace(s: string) {
    forall i :: 0 <= i < |s| ==> IsSpace(s[i])
  }

  /** Nothing for `strip()` to remove. */
  predicate IsTrimmed(s: string) {
    |s| == 0 || (!IsSpace(s[0]) && !IsSpace(s[|s| - 1]))
  }

  /** `s.lstrip()`: the longest suffix of `s` that does not start with whitespace. */
  function TrimLeft(s: string): (r: string)
    ensures |r| <= |s| && r == s[|s| - |r|..]
    ensures AllSpace(s[..|s| - |r|])
    ensures |r| == 0 || !IsSpace(r[0])
    decreases |s|
  {
    if |s| > 0 && IsSpace(s[0]) then
      var r := TrimLeft(s[1..]);
      assert s[|s| - |r|..] == s[1..][|s| - 1 - |r|..];
      assert s[..|s| - |r|] == [s[0]] + s[1..][..|s| - 1 - |r|];
      r
    else s
  }

  /** `s.rstrip()`: the longest prefix of `s` that does not end with whitespace. */
  function TrimRight(s: string): (r: string)
    ensures |r| <= |s| && r == s[..|r|]
    ensures AllSpace(s[|r|..])
    ensures |r| == 0 || !IsSpace(r[|r| - 1])
    decreases |s|
  {
    if |s| > 0 && IsSpace(s[|s| - 1]) then
      var r := TrimRight(s[..|s| - 1]);
      assert s[..|r|] == s[..|s| - 1][..|r|];
      assert s[|r|..] == s[..|s| - 1][|r|..] + [s[|s| - 1]];
      r
    else s
  }

  /** `s.strip()` */
  function Strip(s: string): (r: string)
    ensures IsTrimmed(r)
    ensures r == [] <==> AllSpace(s)
  {
    var l := TrimLeft(s);
    var r := TrimRight(l);
    assert IsTrimmed(r) by {
      if |r| > 0 { assert r[0] == l[0]; }
    }
    assert r == [] ==> AllSpace(s) by {
      if r == [] {
        assert l[|r|..] == l;
        AllSpaceConcat(s[..|s| - |l|], l);
        assert s == s[..|s| - |l|] + l;
      }
    }
    assert AllSpace(s) ==> r == [] by {
      if AllSpace(s) && |l| > 0 { assert l[0] == s[|s| - |l|]; }
    }
    r
  }

  lemma AllSpaceConcat(a: string, b: string)
    requires AllSpace(a) && AllSpace(b)
    ensures AllSpace(a + b)
  {
  }

  /** `s.startswith(p)` */
  predicate StartsWith(s: string, p: string) {
    |p| <= |s| && s[..|p|] == p
  }

  /** `t in s`: `t` occurs somewhere in `s`. */
  predicate Contains(s: string, t: string)
    decreases |s|
  {
    StartsWith(s, t) || (|s| > 0 && Contains(s[1..], t))
  }

  /** A separator whose last character occurs nowhere else in it. Two
      occurrences of such a separator can never overlap, which is what makes
      `split` and `join` inverse to each other. */
  predicate UniqueLast(t: string) {
    |t| > 0 && t[|t| - 1] !in t[..|t| - 1]
  }

  /** `sep.join(parts)` */
  function Join(parts: seq<string>, sep: string): string
    decreases |parts|
  {
    if |parts| == 0 then []
    else if |parts| == 1 then parts[0]
    else parts[0] + sep + Join(parts[1..], sep)
  }

  /** `s.split(sep)` for a non-empty separator: scanning left to right, every
      occurrence of `sep` that does not overlap an earlier one ends a part
      (`SplitParts` states what the parts are). */
  function Split(s: string, sep: string): (parts: seq<string>)
    requires |sep| > 0
    ensures |parts| >= 1
    decreases |s|
  {
    if StartsWith(s, sep) then [[]] + Split(s[|sep|..], sep)
    else if |s| == 0 then [[]]
    else
      var rest := Split(s[1..], sep);
      [[s[0]] + rest[0]] + rest[1..]
  }

  /** The parts of a split glue back to the original string and none of them
      contains the separator. */
  lemma SplitParts(s: string, sep: string)
    requires |sep| > 0
    ensures Join(Split(s, sep), sep) == s
    ensures forall i :: 0 <= i < |Split(s, sep)| ==> !Contains(Split(s, sep)[i], sep)
  {
    SplitJoinsBack(s, sep);
    SplitPartsFree(s, sep);
  }

  lemma {:induction false} SplitJoinsBack(s: string, sep: string)
    requires |sep| > 0
    ensures Join(Split(s, sep), sep) == s
    decreases |s|, 1
  {
    if StartsWith(s, sep) {
      SplitJoinsBackAtSep(s, sep);
    } else if |s| > 0 {
      SplitJoinsBackAtChar(s, sep);
    }
  }

  lemma {:induction false} SplitJoinsBackAtSep(s: string, sep: string)
    requires |sep| > 0 && StartsWith(s, sep)
    ensures Join(Split(s, sep), sep) == s
    decreases |s|, 0
  {
    var tail := s[|sep|..];
    var rest := Split(tail, sep);
    assert Split(s, sep) == [[]] + rest by {
      SplitAtSep(s, sep);
    }
    assert Join([[]] + rest, sep) == sep + tail by {
      JoinCons([], rest, sep);
      SplitJoinsBack(tail, sep);
    }
    assert sep + tail == s;
  }

  lemma {:induction false} SplitJoinsBackAtChar(s: string, sep: string)
    requires |sep| > 0 && !StartsWith(s, sep) && |s| > 0
    ensures Join(Split(s, sep), sep) == s
    decreases |s|, 0
  {
    var rest := Split(s[1..], sep);
    assert Split(s, sep) == [[s[0]] + rest[0]] + rest[1..] by {
      SplitAtChar(s, sep);
    }
    assert Join([[s[0]] + rest[0]] + rest[1..], sep) == [s[0]] + s[1..] by {
      JoinExtendFirst(s[0], rest, sep);
      SplitJoinsBack(s[1..], sep);
    }
    assert [s[0]] + s[1..] == s;
  }

  lemma JoinCons(p: string, rest: seq<string>, sep: string)
    requires |rest| >= 1
    ensures Join([p] + rest, sep) == p + sep + Join(rest, sep)
  {
    assert ([p] + rest)[1..] == rest;
  }

  lemma JoinExtendFirst(c: char, parts: seq<string>, sep: string)
    requires |parts| >= 1
    ensures Join([[c] + parts[0]] + parts[1..], sep) == [c] + Join(parts, sep)
  {
    var q := [[c] + parts[0]] + parts[1..];
    assert q[1..] == parts[1..];
  }

  lemma {:induction false} SplitPartsFree(s: string, sep: string)
    requires |sep| > 0
    ensures forall i :: 0 <= i < |Split(s, sep)| ==> !Contains(Split(s, sep)[i], sep)
    decreases |s|
  {
    var parts := Split(s, sep);
    if StartsWith(s, sep) {
      var rest := Split(s[|sep|..], sep);
      SplitPartsFree(s[|sep|..], sep);
      assert parts == [[]] + rest;
      forall i | 0 <= i < |parts| ensures !Contains(parts[i], sep) {
        if i > 0 { assert parts[i] == rest[i - 1]; }
      }
    } else if |s| > 0 {
      var rest := Split(s[1..], sep);
      var first := [s[0]] + rest[0];
      assert parts == [first] + rest[1..];
      assert !Contains(first, sep) by {
        SplitPartsFree(s[1..], sep);
        SplitJoinsBack(s[1..], sep);
        JoinStartsWithFirst(rest, sep);
        FirstPartFree(s, sep, rest[0]);
      }
      forall i | 0 <= i < |parts| ensures !Contains(parts[i], sep) {
        if i > 0 {
          assert parts[i] == rest[i] by { SplitPartsFree(s[1..], sep); }
          SplitPartsFree(s[1..], sep);
        }
      }
    }
  }

  /** A prefix of a string that does not start with `sep`, whose tail is free
      of `sep`, is free of `sep` itself. */
  lemma FirstPartFree(s: string, sep: string, p: string)
    requires |sep| > 0 && |s| > 0 && !StartsWith(s, sep)
    requires StartsWith(s[1..], p) && !Contains(p, sep)
    ensures !Contains([s[0]] + p, sep)
  {
    var first := [s[0]] + p;
    assert !StartsWith(first, sep) by {
      assert first == s[..|first|] by {
        assert s == [s[0]] + s[1..];
      }
      if |sep| <= |first| {
        assert first[..|sep|] == s[..|sep|];
      }
    }
    assert first[1..] == p;
  }

  lemma JoinStartsWithFirst(parts: seq<string>, sep: string)
    requires |parts| >= 1
    ensures |parts[0]| <= |Join(parts, sep)| && Join(parts, sep)[..|parts[0]|] == parts[0]
    ensures |parts| > 1 ==> Join(parts, sep) == parts[0] + sep + Join(parts[1..], sep)
    ensures forall c :: Join([[c] + parts[0]] + parts[1..], sep) == [c] + Join(parts, sep)
  {
    forall c ensures Join([[c] + parts[0]] + parts[1..], sep) == [c] + Join(parts, sep) {
      var q := [[c] + parts[0]] + parts[1..];
      assert q[1..] == parts[1..];
    }
  }

  /** `s.replace(target, repl)`: every non-overlapping occurrence, left to right. */
  function ReplaceAll(s: string, target: string, repl: string): (r: string)
    requires |target| > 0
    ensures !Contains(s, target) ==> r == s
    decreases |s|
  {
    if StartsWith(s, target) then repl + ReplaceAll(s[|target|..], target, repl)
    else if |s| == 0 then []
    else
      assert !Contains(s, target) ==> !Contains(s[1..], target);
      [s[0]] + ReplaceAll(s[1..], target, repl)
  }

  /** `c.upper()` for ASCII letters; every other character is left as it is. */
  function UpperChar(c: char): char {
    if 'a' <= c <= 'z' then (c as int - 32) as char else c
  }

  /** `s.upper()`, restricted to the ASCII case mapping. */
  function Upper(s: string): (r: string)
    ensures |r| == |s|
    ensures forall i :: 0 <= i < |s| ==> r[i] == UpperChar(s[i])
    decreases |s|
  {
    if |s| == 0 then [] else [UpperChar(s[0])] + Upper(s[1..])
  }

  /** Upper-casing keeps whitespace where it was, so a trimmed string stays
      trimmed. */
  lemma UpperTrimmed(s: string)
    requires IsTrimmed(s)
    ensures IsTrimmed(Upper(s))
  {
    if |s| > 0 {
      assert Upper(s)[0] == UpperChar(s[0]);
      assert Upper(s)[|s| - 1] == UpperChar(s[|s| - 1]);
    }
  }

  /** Upper-casing twice is upper-casing once. */
  lemma UpperTwice(s: string)
    ensures Upper(Upper(s)) == Upper(s)
  {
    forall i | 0 <= i < |s| ensures UpperChar(UpperChar(s[i])) == UpperChar(s[i]) {
    }
  }

  // ---------------------------------------------------------------------
  // Occurrence lemmas

  lemma ContainsTail(s: string, t: string)
    requires |s| > 0 && Contains(s[1..], t)
    ensures Contains(s, t)
  {
  }

  /** `t` occurs in `a + t + b`. */
  lemma {:induction false} ContainsMiddle(a: string, t: string, b: string)
    ensures Contains(a + t + b, t)
    decreases |a|
  {
    if |a| == 0 {
      assert (a + t + b)[..|t|] == t;
    } else {
      assert (a + t + b)[1..] == a[1..] + t + b;
      ContainsMiddle(a[1..], t, b);
    }
  }

  /** A string lacking one of `t`'s characters cannot contain `t`. */
  lemma {:induction false} MissingCharNoContains(s: string, t: string, c: char)
    requires c in t && c !in s
    ensures !Contains(s, t)
    decreases |s|
  {
    if |t| <= |s| {
      assert forall x :: x in s[..|t|] ==> x in s;
    }
    if |s| > 0 {
      assert forall x :: x in s[1..] ==> x in s;
      MissingCharNoContains(s[1..], t, c);
    }
  }

  /** Prepending characters that differ from `t`'s first one creates no occurrence. */
  lemma {:induction false} PrependNoContains(p: string, s: string, t: string)
    requires |t| > 0 && t[0] !in p && !Contains(s, t)
    ensures !Contains(p + s, t)
    decreases |p|
  {
    if |p| == 0 {
      assert p + s == s;
    } else {
      assert (p + s)[0] == p[0] && p[0] != t[0];
      assert (p + s)[1..] == p[1..] + s;
      assert forall x :: x in p[1..] ==> x in p;
      PrependNoContains(p[1..], s, t);
    }
  }

  /** Appending characters that differ from `t`'s last one creates no occurrence. */
  lemma {:induction false} AppendNoContains(s: string, q: string, t: string)
    requires |t| > 0 && t[|t| - 1] !in q && !Contains(s, t)
    ensures !Contains(s + q, t)
    decreases |s|
  {
    if |s| == 0 {
      assert s + q == q;
      MissingCharNoContains(q, t, t[|t| - 1]);
    } else {
      if |t| <= |s| {
        assert s[..|t|] == (s + q)[..|t|];
      } else if |t| <= |s + q| {
        assert (s + q)[|t| - 1] == q[|t| - 1 - |s|];
      }
      assert (s + q)[1..] == s[1..] + q;
      AppendNoContains(s[1..], q, t);
    }
  }

  /** Gluing two occurrence-free strings with a character foreign to `t`
      creates no occurrence. */
  lemma {:induction false} GlueNoContains(a: string, c: char, b: string, t: string)
    requires |t| > 0 && c !in t && !Contains(a, t) && !Contains(b, t)
    ensures !Contains(a + [c] + b, t)
    decreases |a|
  {
    if |a| == 0 {
      assert a + [c] + b == [c] + b;
      assert ([c] + b)[0] == c && c != t[0];
      assert ([c] + b)[1..] == b;
    } else {
      if |t| <= |a| {
        assert a[..|t|] == (a + [c] + b)[..|t|];
      } else {
        assert (a + [c] + b)[|a|] == c && c != t[|a|];
      }
      assert (a + [c] + b)[1..] == a[1..] + [c] + b;
      GlueNoContains(a[1..], c, b, t);
    }
  }

  // ---------------------------------------------------------------------
  // split / join

  /** A string without the separator splits into itself. */
  lemma {:induction false} SplitNoSep(s: string, sep: string)
    requires |sep| > 0 && !Contains(s, sep)
    ensures Split(s, sep) == [s]
    decreases |s|
  {
    if |s| > 0 {
      SplitNoSep(s[1..], sep);
      assert [s[0]] + s[1..] == s;
    }
  }

  /** A string that starts with the separator and has no further occurrence
      splits into an empty part and the rest. */
  lemma SplitLeading(sep: string, s: string)
    requires UniqueLast(sep) && !Contains(s, sep)
    ensures Split(sep + s, sep) == [[], s]
  {
    assert [] + sep + s == sep + s;
    SplitConcat([], sep, s);
    SplitNoSep([], sep);
    SplitNoSep(s, sep);
  }

  /** Parts free of a one-character separator's character do not contain it. */
  lemma PartsLackChar(parts: seq<string>, c: char)
    requires forall i :: 0 <= i < |parts| ==> c !in parts[i]
    ensures forall i :: 0 <= i < |parts| ==> !Contains(parts[i], [c])
  {
    forall i | 0 <= i < |parts| ensures !Contains(parts[i], [c]) {
      MissingCharNoContains(parts[i], [c], c);
    }
  }

  lemma SplitAtSep(s: string, sep: string)
    requires |sep| > 0 && StartsWith(s, sep)
    ensures Split(s, sep) == [[]] + Split(s[|sep|..], sep)
  {
  }

  lemma SplitAtChar(s: string, sep: string)
    requires |sep| > 0 && |s| > 0 && !StartsWith(s, sep)
    ensures Split(s, sep) == [[s[0]] + Split(s[1..], sep)[0]] + Split(s[1..], sep)[1..]
  {
  }

  /** An occurrence of `sep` at the start of `a + sep + b`, for a short
      non-empty `a`, would end inside `sep` at a position other than its last. */
  lemma NoStraddle(a: string, sep: string, b: string)
    requires UniqueLast(sep) && 0 < |a|
    ensures StartsWith(a + sep + b, sep) ==> StartsWith(a, sep)
  {
    var s := a + sep + b;
    if |a| < |sep| {
      var k := |sep| - 1 - |a|;
      assert s[|sep| - 1] == sep[k];
      assert sep[..|sep| - 1][k] == sep[k];
      assert s[|sep| - 1] != sep[|sep| - 1];
    } else {
      assert a[..|sep|] == s[..|sep|];
    }
  }

  /** Splitting distributes over an occurrence of a separator whose
      occurrences cannot overlap. */
  lemma {:induction false} SplitConcat(a: string, sep: string, b: string)
    requires UniqueLast(sep)
    ensures Split(a + sep + b, sep) == Split(a, sep) + Split(b, sep)
    decreases |a|, 1
  {
    if |a| == 0 {
      var s := a + sep + b;
      assert s == sep + b;
      assert s[..|sep|] == sep;
      assert s[|sep|..] == b;
      SplitAtSep(s, sep);
    } else if StartsWith(a, sep) {
      SplitConcatAtSep(a, sep, b);
    } else {
      SplitConcatAtChar(a, sep, b);
    }
  }

  lemma {:induction false} SplitConcatAtSep(a: string, sep: string, b: string)
    requires UniqueLast(sep) && StartsWith(a, sep)
    ensures Split(a + sep + b, sep) == Split(a, sep) + Split(b, sep)
    decreases |a|, 0
  {
    var s := a + sep + b;
    assert a[..|sep|] == s[..|sep|];
    assert s[|sep|..] == a[|sep|..] + sep + b;
    SplitAtSep(s, sep);
    SplitAtSep(a, sep);
    SplitConcat(a[|sep|..], sep, b);
  }

  lemma {:induction false} SplitConcatAtChar(a: string, sep: string, b: string)
    requires UniqueLast(sep) && |a| > 0 && !StartsWith(a, sep)
    ensures Split(a + sep + b, sep) == Split(a, sep) + Split(b, sep)
    decreases |a|, 0
  {
    var s := a + sep + b;
    var ra := Split(a[1..], sep);
    var rb := Split(b, sep);
    var r := Split(s[1..], sep);
    assert Split(s, sep) == [[s[0]] + r[0]] + r[1..] by {
      NoStraddle(a, sep, b);
      SplitAtChar(s, sep);
    }
    assert Split(a, sep) == [[a[0]] + ra[0]] + ra[1..] by {
      SplitAtChar(a, sep);
    }
    assert r == ra + rb by {
      assert s[1..] == a[1..] + sep + b;
      SplitConcat(a[1..], sep, b);
    }
    assert s[0] == a[0];
    ExtendFirstPart(a[0], ra, rb);
  }

  /** Prepending a character to the first part commutes with appending more parts. */
  lemma ExtendFirstPart(c: char, ra: seq<string>, rb: seq<string>)
    requires |ra| >= 1
    ensures [[c] + (ra + rb)[0]] + (ra + rb)[1..] == [[c] + ra[0]] + ra[1..] + rb
  {
    assert (ra + rb)[0] == ra[0];
    assert (ra + rb)[1..] == ra[1..] + rb;
  }

  /** `split` undoes `join` when no part contains a non-overlapping separator. */
  lemma {:induction false} SplitJoin(parts: seq<string>, sep: string)
    requires UniqueLast(sep) && |parts| >= 1
    requires forall i :: 0 <= i < |parts| ==> !Contains(parts[i], sep)
    ensures Split(Join(parts, sep), sep) == parts
    decreases |parts|
  {
    if |parts| == 1 {
      SplitNoSep(parts[0], sep);
    } else {
      var head, tail := parts[0], parts[1..];
      assert Join(parts, sep) == head + sep + Join(tail, sep) by {
        assert parts == [head] + tail;
        JoinCons(head, tail, sep);
      }
      assert Split(head + sep + Join(tail, sep), sep) == [head] + tail by {
        SplitConcat(head, sep, Join(tail, sep));
        SplitNoSep(head, sep);
        assert forall i :: 0 <= i < |tail| ==> tail[i] == parts[i + 1];
        SplitJoin(tail, sep);
      }
      assert [head] + tail == parts;
    }
  }

  // ---------------------------------------------------------------------
  // strip

  lemma {:induction false} TrimLeftSpaces(w: string, x: string)
    requires AllSpace(w)
    ensures TrimLeft(w + x) == TrimLeft(x)
    decreases |w|
  {
    if |w| > 0 {
      assert (w + x)[1..] == w[1..] + x;
      TrimLeftSpaces(w[1..], x);
    } else {
      assert w + x == x;
    }
  }

  lemma {:induction false} TrimLeftConcat(x: string, y: string)
    requires TrimLeft(x) != []
    ensures TrimLeft(x + y) == TrimLeft(x) + y
    decreases |x|
  {
    assert |x| > 0;
    if IsSpace(x[0]) {
      assert (x + y)[1..] == x[1..] + y;
      TrimLeftConcat(x[1..], y);
    }
  }

  lemma {:induction false} TrimRightSpaces(x: string, w: string)
    requires AllSpace(w)
    ensures TrimRight(x + w) == TrimRight(x)
    decreases |w|
  {
    if |w| > 0 {
      assert (x + w)[..|x + w| - 1] == x + w[..|w| - 1];
      TrimRightSpaces(x, w[..|w| - 1]);
    } else {
      assert x + w == x;
    }
  }

  lemma {:induction false} TrimRightConcat(x: string, y: string)
    requires TrimRight(y) != []
    ensures TrimRight(x + y) == x + TrimRight(y)
    decreases |y|
  {
    assert |y| > 0;
    if IsSpace(y[|y| - 1]) {
      assert (x + y)[..|x + y| - 1] == x + y[..|y| - 1];
      TrimRightConcat(x, y[..|y| - 1]);
    }
  }

  /** `strip()` removes exactly the whitespace padding around a trimmed string. */
  lemma StripPadded(w1: string, v: string, w2: string)
    requires AllSpace(w1) && AllSpace(w2) && IsTrimmed(v)
    ensures Strip(w1 + v + w2) == v
  {
    assert w1 + v + w2 == w1 + (v + w2);
    TrimLeftSpaces(w1, v + w2);
    if |v| == 0 {
      assert v + w2 == w2;
      assert TrimLeft(w2) == [];
    } else {
      assert TrimLeft(v + w2) == v + w2;
      TrimRightSpaces(v, w2);
    }
  }
}
