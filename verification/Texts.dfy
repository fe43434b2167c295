/**
 Python strings as the worker uses them: sequences of code points (lone surrogates
 included), with the substring search and the affix comparisons that the diff engine
 performs on them.
 */
module Texts {

  type CodePoint = c: int | 0 <= c <= 0x10FFFF

  type Text = seq<CodePoint>

  datatype Option<+T> = None | Some(value: T)

  const NEWLINE: CodePoint := 10

  function Min(a: int, b: int): int {
    if a < b then a else b
  }

  function Max(a: int, b: int): int {
    if a < b then b else a
  }

  function Smaller(a: real, b: real): real {
    if b < a then b else a
  }

  function Larger(a: real, b: real): real {
    if a < b then b else a
  }

  /** The text of a string literal. */
  function Ascii(s: string): Text {
    seq(|s|, i requires 0 <= i < |s| => s[i] as int)
  }

  /** `str.isspace` for one character. */
  predicate IsSpace(c: CodePoint) {
    || 9 <= c <= 13 || 28 <= c <= 32 || c == 0x85 || c == 0xA0 || c == 0x1680
    || 0x2000 <= c <= 0x200A || c == 0x2028 || c == 0x2029 || c == 0x202F || c == 0x205F || c == 0x3000
  }

  /** There are 29 of them. */
  lemma SpacesAre(c: CodePoint)
    ensures IsSpace(c) <==>
      || c in {9, 10, 11, 12, 13, 28, 29, 30, 31, 32}
      || c in {0x85, 0xA0, 0x1680, 0x2028, 0x2029, 0x202F, 0x205F, 0x3000}
      || c in {0x2000, 0x2001, 0x2002, 0x2003, 0x2004, 0x2005, 0x2006, 0x2007, 0x2008, 0x2009, 0x200A}
  {
  }

  function TrimLeft(t: Text): Text {
    if t != [] && IsSpace(t[0]) then TrimLeft(t[1..]) else t
  }

  function TrimRight(t: Text): Text {
    if t != [] && IsSpace(t[|t| - 1]) then TrimRight(t[..|t| - 1]) else t
  }

  /** `str.strip()` */
  function Strip(t: Text): Text {
    TrimRight(TrimLeft(t))
  }

  // ------------------------------------------------------------ occurrences

  /** `pattern` occurs in `text` at index i. */
  predicate OccursAt<T(==)>(text: seq<T>, pattern: seq<T>, i: int) {
    0 <= i <= |text| - |pattern| && text[i..i + |pattern|] == pattern
  }

  /** `str.find(pattern, start)`: the first occurrence at or after `start`, or -1. */
  method Find(text: Text, pattern: Text, start: nat) returns (i: int)
    ensures i == -1 || (start <= i && OccursAt(text, pattern, i))
    ensures forall j :: start <= j && (i == -1 || j < i) ==> !OccursAt(text, pattern, j)
  {
    i := start;
    while i <= |text| - |pattern|
      invariant start <= i
      invariant forall j :: start <= j < i ==> !OccursAt(text, pattern, j)
    {
      if text[i..i + |pattern|] == pattern {
        return;
      }
      i := i + 1;
    }
    i := -1;
  }

  // ------------------------------------------------------------ common affixes

  /** Length of the longest common prefix, by linear scan. */
  function PrefixLen(a: Text, b: Text): (n: nat)
    ensures n <= |a| && n <= |b|
  {
    if a == [] || b == [] || a[0] != b[0] then 0 else 1 + PrefixLen(a[1..], b[1..])
  }

  /** Length of the longest common suffix, by linear scan. */
  function SuffixLen(a: Text, b: Text): (n: nat)
    ensures n <= |a| && n <= |b|
  {
    if a == [] || b == [] || a[|a| - 1] != b[|b| - 1] then 0
    else 1 + SuffixLen(a[..|a| - 1], b[..|b| - 1])
  }

  /** The last n characters. */
  function Last<T>(a: seq<T>, n: nat): (s: seq<T>)
    requires n <= |a|
    ensures |s| == n
  {
    a[|a| - n..]
  }

  /** All but the last n characters. */
  function Front<T>(a: seq<T>, n: nat): (s: seq<T>)
    requires n <= |a|
    ensures |s| == |a| - n
  {
    a[..|a| - n]
  }

  lemma FrontLast<T>(a: seq<T>, n: nat)
    requires n <= |a|
    ensures Front(a, n) + Last(a, n) == a
  {
  }

  /** Equal prefixes of length n are exactly those no longer than PrefixLen. */
  lemma {:induction false} PrefixExact(a: Text, b: Text, n: nat)
    requires n <= |a| && n <= |b|
    ensures a[..n] == b[..n] <==> n <= PrefixLen(a, b)
  {
    if n > 0 {
      assert a[..n][0] == a[0] && b[..n][0] == b[0];
      if a[0] == b[0] {
        PrefixExact(a[1..], b[1..], n - 1);
        assert a[..n] == [a[0]] + a[1..][..n - 1];
        assert b[..n] == [b[0]] + b[1..][..n - 1];
      }
    }
  }

  /** Equal suffixes of length n are exactly those no longer than SuffixLen. */
  lemma {:induction false} SuffixExact(a: Text, b: Text, n: nat)
    requires n <= |a| && n <= |b|
    ensures Last(a, n) == Last(b, n) <==> n <= SuffixLen(a, b)
  {
    if n > 0 {
      LastSnoc(a, n);
      LastSnoc(b, n);
      hide Last;
      if a[|a| - 1] == b[|b| - 1] {
        SuffixExact(a[..|a| - 1], b[..|b| - 1], n - 1);
      }
    }
  }

  lemma LastSnoc(a: Text, n: nat)
    requires 0 < n <= |a|
    ensures Last(a, n) == Last(a[..|a| - 1], n - 1) + [a[|a| - 1]]
    ensures Last(a, n)[..n - 1] == Last(a[..|a| - 1], n - 1) && Last(a, n)[n - 1] == a[|a| - 1]
  {
  }

  /** After the longest common prefix is cut off, nothing common is left in front. */
  lemma PrefixCut(a: Text, b: Text)
    ensures PrefixLen(a[PrefixLen(a, b)..], b[PrefixLen(a, b)..]) == 0
    ensures a[..PrefixLen(a, b)] == b[..PrefixLen(a, b)]
  {
    var n := PrefixLen(a, b);
    PrefixExact(a, b, n);
    if n < |a| && n < |b| && a[n] == b[n] {
      assert a[..n + 1] == a[..n] + [a[n]] && b[..n + 1] == b[..n] + [b[n]];
      PrefixExact(a, b, n + 1);
    }
  }

  /** After the longest common suffix is cut off, nothing common is left at the end. */
  lemma SuffixCut(a: Text, b: Text)
    ensures SuffixLen(Front(a, SuffixLen(a, b)), Front(b, SuffixLen(a, b))) == 0
    ensures Last(a, SuffixLen(a, b)) == Last(b, SuffixLen(a, b))
  {
    var n := SuffixLen(a, b);
    SuffixExact(a, b, n);
    if n < |a| && n < |b| && a[|a| - n - 1] == b[|b| - n - 1] {
      assert Last(a, n + 1) == [a[|a| - n - 1]] + Last(a, n);
      assert Last(b, n + 1) == [b[|b| - n - 1]] + Last(b, n);
      SuffixExact(a, b, n + 1);
    }
  }

  /** `diff_commonPrefix`: binary search for the longest common prefix. */
  method CommonPrefix(text1: Text, text2: Text) returns (n: nat)
    ensures n == PrefixLen(text1, text2)
  {
    if text1 == [] || text2 == [] || text1[0] != text2[0] {
      return 0;
    }
    var lo, hi := 0, Min(|text1|, |text2|);
    var mid, start := hi, 0;
    while lo < mid
      invariant 0 <= start == lo <= mid <= hi <= Min(|text1|, |text2|)
      invariant lo <= PrefixLen(text1, text2)
      invariant mid == hi == Min(|text1|, |text2|) || (PrefixLen(text1, text2) < hi && mid == (hi - lo) / 2 + lo)
      decreases hi - lo, mid - lo
    {
      PrefixSlice(text1, text2, start, mid);
      if text1[start..mid] == text2[start..mid] {
        lo := mid;
        start := lo;
      } else {
        hi := mid;
      }
      mid := (hi - lo) / 2 + lo;
    }
    n := mid;
  }

  lemma PrefixSlice(a: Text, b: Text, i: nat, j: nat)
    requires i <= j <= Min(|a|, |b|) && i <= PrefixLen(a, b)
    ensures a[i..j] == b[i..j] <==> j <= PrefixLen(a, b)
  {
    PrefixExact(a, b, i);
    PrefixExact(a, b, j);
    assert a[..j] == a[..i] + a[i..j] && b[..j] == b[..i] + b[i..j];
    if a[..j] == b[..j] {
      assert a[i..j] == a[..j][i..] && b[i..j] == b[..j][i..];
    }
  }

  /** `diff_commonSuffix`: binary search for the longest common suffix. */
  method CommonSuffix(text1: Text, text2: Text) returns (n: nat)
    ensures n == SuffixLen(text1, text2)
  {
    if text1 == [] || text2 == [] || text1[|text1| - 1] != text2[|text2| - 1] {
      return 0;
    }
    var lo, hi := 0, Min(|text1|, |text2|);
    var mid, end := hi, 0;
    while lo < mid
      invariant 0 <= end == lo <= mid <= hi <= Min(|text1|, |text2|)
      invariant lo <= SuffixLen(text1, text2)
      invariant mid == hi == Min(|text1|, |text2|) || (SuffixLen(text1, text2) < hi && mid == (hi - lo) / 2 + lo)
      decreases hi - lo, mid - lo
    {
      SuffixSlice(text1, text2, end, mid);
      if text1[|text1| - mid..|text1| - end] == text2[|text2| - mid..|text2| - end] {
        lo := mid;
        end := lo;
      } else {
        hi := mid;
      }
      mid := (hi - lo) / 2 + lo;
    }
    n := mid;
  }

  lemma SuffixSlice(a: Text, b: Text, i: nat, j: nat)
    requires i <= j <= Min(|a|, |b|) && i <= SuffixLen(a, b)
    ensures a[|a| - j..|a| - i] == b[|b| - j..|b| - i] <==> j <= SuffixLen(a, b)
  {
    SuffixExact(a, b, i);
    SuffixExact(a, b, j);
    assert Last(a, j) == a[|a| - j..|a| - i] + Last(a, i);
    assert Last(b, j) == b[|b| - j..|b| - i] + Last(b, i);
    if Last(a, j) == Last(b, j) {
      assert a[|a| - j..|a| - i] == Last(a, j)[..j - i] && b[|b| - j..|b| - i] == Last(b, j)[..j - i];
    }
  }

  // ------------------------------------------------------------ overlap

  /** The last n characters of `a` are the first n characters of `b`. */
  predicate IsOverlap(a: Text, b: Text, n: int) {
    0 <= n <= |a| && n <= |b| && Last(a, n) == b[..n]
  }

  /** An overlap of length n starts with every shorter suffix of `a` at a known place in `b`. */
  lemma OverlapHoldsSuffix(a: Text, b: Text, n: nat, len: nat)
    requires IsOverlap(a, b, n) && len <= n
    ensures OccursAt(b, Last(a, len), n - len)
  {
    assert b[n - len..n] == b[..n][n - len..] == Last(a, n)[n - len..] == Last(a, len);
  }

  /** Cutting the longer text down to the shorter one's length loses no overlap. */
  lemma OverlapTruncate(a: Text, b: Text, n: nat)
    ensures |a| > |b| ==> (IsOverlap(a, b, n) <==> IsOverlap(Last(a, |b|), b, n))
    ensures |a| < |b| ==> (IsOverlap(a, b, n) <==> IsOverlap(a, b[..|a|], n))
  {
    if |a| > |b| && n <= |b| {
      assert Last(Last(a, |b|), n) == Last(a, n);
    }
    if |a| < |b| && n <= |a| {
      assert b[..|a|][..n] == b[..n];
    }
  }

  /** With an empty text, or two equal ones, the longest overlap is plain. */
  lemma PlainOverlap(a: Text, b: Text)
    requires a == [] || b == [] || a == b
    ensures var n := Min(|a|, |b|); IsOverlap(a, b, n) && forall m :: n < m ==> !IsOverlap(a, b, m)
  {
    assert Last(a, |a|) == a && b[..|b|] == b;
  }

  /** The find-and-skip search on two different texts of equal length. */
  method OverlapSearch(text1: Text, text2: Text) returns (best: nat)
    requires |text1| == |text2| > 0 && text1 != text2
    ensures IsOverlap(text1, text2, best)
    ensures forall n :: best < n ==> !IsOverlap(text1, text2, n)
  {
    best := 0;
    var length := 1;
    assert Last(text1, |text1|) == text1 && text2[..|text2|] == text2;
    while true
      invariant best < length <= |text1|
      invariant IsOverlap(text1, text2, best)
      invariant forall n :: best < n < length ==> !IsOverlap(text1, text2, n)
      decreases |text1| - length
    {
      var found := Find(text2, Last(text1, length), 0);
      forall n | length <= n && IsOverlap(text1, text2, n)
        ensures found != -1 && length + found <= n
      {
        OverlapHoldsSuffix(text1, text2, n, length);
      }
      if found == -1 {
        return;
      }
      length := length + found;
      if found == 0 || Last(text1, length) == text2[..length] {
        best := length;
        length := length + 1;
      }
    }
  }

  /** `diff_commonOverlap`: the longest suffix of text1 that is a prefix of text2. */
  method CommonOverlap(text1: Text, text2: Text) returns (n: nat)
    ensures IsOverlap(text1, text2, n)
    ensures forall m :: n < m ==> !IsOverlap(text1, text2, m)
  {
    hide IsOverlap, Last, OccursAt;
    if |text1| == 0 || |text2| == 0 {
      PlainOverlap(text1, text2);
      return 0;
    }
    var t1, t2 := text1, text2;
    if |t1| > |t2| {
      t1 := Last(t1, |t2|);
    } else if |t1| < |t2| {
      t2 := t2[..|t1|];
    }
    forall m: nat ensures IsOverlap(text1, text2, m) <==> IsOverlap(t1, t2, m) {
      OverlapTruncate(text1, text2, m);
    }
    if t1 == t2 {
      PlainOverlap(t1, t2);
      return |t1|;
    }
    n := OverlapSearch(t1, t2);
  }
}
