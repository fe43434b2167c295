/** Python's list sort: stable, with the order given by a key. */
module Sorting {
  import opened Sequences

  /** `le` orders the elements of `s`: any two compare, and comparison is transitive. */
  ghost predicate Orders<T>(s: seq<T>, le: (T, T) -> bool) {
    && (forall a, b :: a in s && b in s ==> le(a, b) || le(b, a))
    && (forall a, b, c :: a in s && b in s && c in s && le(a, b) && le(b, c) ==> le(a, c))
  }

  ghost predicate SortedBy<T>(s: seq<T>, le: (T, T) -> bool) {
    forall i, j :: 0 <= i < j < |s| ==> le(s[i], s[j])
  }

  /** Put `x` behind every element that may stand before it. */
  function Insert<T>(x: T, s: seq<T>, le: (T, T) -> bool): (r: seq<T>)
    ensures multiset(r) == multiset(s) + multiset{x}
  {
    if s == [] || le(s[|s| - 1], x) then s + [x]
    else
      var front, last := s[..|s| - 1], s[|s| - 1];
      assert s == front + [last];
      Insert(x, front, le) + [last]
  }

  function StableSort<T>(s: seq<T>, le: (T, T) -> bool): (r: seq<T>)
    ensures multiset(r) == multiset(s)
    ensures |r| == |s|
  {
    if s == [] then []
    else
      var front, last := s[..|s| - 1], s[|s| - 1];
      assert s == front + [last];
      var r := Insert(last, StableSort(front, le), le);
      assert |multiset(r)| == |r|;
      r
  }

  lemma SameElement<T>(s: seq<T>, t: seq<T>, x: T)
    requires multiset(s) == multiset(t)
    ensures x in s <==> x in t
  {
    assert x in s <==> x in multiset(s);
    assert x in t <==> x in multiset(t);
  }

  lemma {:induction false} InsertSorted<T>(x: T, s: seq<T>, le: (T, T) -> bool)
    requires Orders(s + [x], le) && SortedBy(s, le)
    ensures SortedBy(Insert(x, s, le), le)
  {
    var n := |s| - 1;
    assert x in s + [x] && forall a | a in s :: a in s + [x];
    if s == [] {
    } else if le(s[n], x) {
      assert forall i | 0 <= i < |s| :: s[i] in s && (i == n || le(s[i], s[n]));
    } else {
      var front := s[..n];
      assert forall a | a in front + [x] :: a in s + [x];
      InsertSorted(x, front, le);
      var r := Insert(x, front, le);
      forall i | 0 <= i < |r| ensures le(r[i], s[n]) {
        assert r[i] in multiset(r);
        if r[i] != x {
          assert r[i] in multiset(front);
          var j :| 0 <= j < |front| && front[j] == r[i];
          assert s[j] == r[i];
        } else {
          assert s[n] in s + [x];
        }
      }
    }
  }

  lemma {:induction false} StableSortSorted<T>(s: seq<T>, le: (T, T) -> bool)
    requires Orders(s, le)
    ensures SortedBy(StableSort(s, le), le)
  {
    if s != [] {
      var front, last := s[..|s| - 1], s[|s| - 1];
      assert forall a | a in front :: a in s;
      StableSortSorted(front, le);
      var r := StableSort(front, le);
      forall a | a in r + [last] ensures a in s {
        if a in r {
          SameElement(r, front, a);
        } else {
          assert a == last;
        }
      }
      InsertSorted(last, r, le);
    }
  }

  lemma InsertLast<T>(x: T, s: seq<T>, le: (T, T) -> bool)
    requires s == [] || le(s[|s| - 1], x)
    ensures Insert(x, s, le) == s + [x]
  {
  }

  /** A list in order stays as it is, ties included. */
  lemma {:induction false} SortedStays<T>(s: seq<T>, le: (T, T) -> bool)
    requires SortedBy(s, le)
    ensures StableSort(s, le) == s
  {
    if s != [] {
      var front := s[..|s| - 1];
      SortedStays(front, le);
      InsertLast(s[|s| - 1], front, le);
      assert s == front + [s[|s| - 1]];
    }
  }

  lemma {:induction false} DistinctIff<T>(s: seq<T>)
    ensures Distinct(s) <==> forall x :: multiset(s)[x] <= 1
  {
    if s != [] {
      var front, last := s[..|s| - 1], s[|s| - 1];
      assert s == front + [last];
      DistinctIff(front);
      assert multiset(s) == multiset(front) + multiset{last};
      if Distinct(s) {
        assert last !in front;
        assert multiset(front)[last] == 0;
      } else if Distinct(front) {
        var i, j :| 0 <= i < j < |s| && s[i] == s[j];
        assert j == |s| - 1 && front[i] == last;
        assert last in multiset(front);
        assert multiset(s)[last] >= 2;
      } else {
        var x :| multiset(front)[x] > 1;
        assert multiset(s)[x] > 1;
      }
    }
  }

  lemma SortKeepsDistinct<T>(s: seq<T>, le: (T, T) -> bool)
    requires Distinct(s)
    ensures Distinct(StableSort(s, le))
  {
    DistinctIff(s);
    DistinctIff(StableSort(s, le));
  }
}
