/** What several modules say about any sequence. */
module Sequences {

  /** No two positions hold the same element. */
  ghost predicate Distinct<T>(s: seq<T>) {
    forall i, j :: 0 <= i < j < |s| ==> s[i] != s[j]
  }

  lemma SliceOfSlice<T>(s: seq<T>, p: int, q: int, i: int, j: int)
    requires 0 <= p <= q <= |s| && 0 <= i <= j <= q - p
    ensures s[p..q][i..j] == s[p + i..p + j]
  {
    var a, b := s[p..q][i..j], s[p + i..p + j];
    forall k | 0 <= k < j - i ensures a[k] == b[k] {
      assert s[p..q][i + k] == s[p + i + k];
    }
  }

  /** Two sequences that agree from some positions on agree n positions further, in between and beyond. */
  lemma SameTail<T>(a: seq<T>, b: seq<T>, i: nat, j: nat, n: nat)
    requires i <= |a| && j <= |b| && b[j..] == a[i..] && j + n < |b|
    ensures i + n < |a| && b[j + n] == a[i + n] && b[j + n + 1..] == a[i + n + 1..] && b[j..j + n] == a[i..i + n]
  {
    assert |b| - j == |a| - i;
    assert b[j..][n] == a[i..][n];
    assert b[j..][n + 1..] == a[i..][n + 1..] && b[j..][..n] == a[i..][..n];
    assert b[j..][n + 1..] == b[j + n + 1..] && a[i..][n + 1..] == a[i + n + 1..];
    assert b[j..][..n] == b[j..j + n] && a[i..][..n] == a[i..i + n];
  }

  function Reverse<T>(s: seq<T>): (r: seq<T>)
    ensures |r| == |s| && forall k :: 0 <= k < |r| ==> r[k] == s[|s| - 1 - k]
  {
    if s == [] then [] else Reverse(s[1..]) + [s[0]]
  }

  lemma {:induction false} ReverseSnoc<T>(s: seq<T>, x: T)
    ensures Reverse(s + [x]) == [x] + Reverse(s)
  {
    if s == [] {
      assert (s + [x])[1..] == [];
    } else {
      assert (s + [x])[1..] == s[1..] + [x];
      ReverseSnoc(s[1..], x);
    }
  }

  lemma ReverseNil<T>()
    ensures Reverse<T>([]) == []
  {
  }
}
