/**
 Merging patches that lie at most `gap` apart: one pass over the patches in order of their
 starts. `_merge_intervals` is the case of gap 0.
 */
module GapMerging {
  import opened Intervals
  import opened Sequences
  import opened Sorting
  import opened Texts

  /** One round of the loop: `p` extends the last patch so far or begins a new one. */
  function Absorb(out: seq<Interval>, p: Interval, gap: real): seq<Interval> {
    var n := |out| - 1;
    if out != [] && p.start - out[n].end <= gap then out[..n] + [Interval(out[n].start, Larger(out[n].end, p.end))]
    else out + [p]
  }

  function Merge(ps: seq<Interval>, gap: real): seq<Interval> {
    if ps == [] then [] else Absorb(Merge(ps[..|ps| - 1], gap), ps[|ps| - 1], gap)
  }

  lemma MergeSnoc(ps: seq<Interval>, n: nat, gap: real)
    requires n < |ps|
    ensures Merge(ps[..n + 1], gap) == Absorb(Merge(ps[..n], gap), ps[n], gap) && Merge(ps[..0], gap) == []
  {
    assert ps[..n + 1][..n] == ps[..n];
  }

  ghost predicate ByStart(ps: seq<Interval>) {
    forall i, j :: 0 <= i < j < |ps| ==> ps[i].start <= ps[j].start
  }

  /** In order, and pairwise more than `gap` apart. */
  ghost predicate Spaced(out: seq<Interval>, gap: real) {
    Forward(out) && forall i, j :: 0 <= i < j < |out| ==> out[i].end + gap < out[j].start
  }

  predicate Holds(o: Interval, p: Interval) {
    o.start <= p.start && p.end <= o.end
  }

  /** The output patch that takes up the i-th patch. */
  function Home(ps: seq<Interval>, gap: real, i: nat): int
    requires i < |ps|
  {
    |Merge(ps[..i + 1], gap)| - 1
  }

  // ------------------------------------------------------------ the result is spaced and loses nothing

  lemma AbsorbSpaced(out: seq<Interval>, p: Interval, gap: real)
    requires Spaced(out, gap) && gap >= 0.0 && p.start <= p.end
    requires out != [] ==> out[|out| - 1].start <= p.start
    ensures Spaced(Absorb(out, p, gap), gap)
    ensures var r := Absorb(out, p, gap); r != [] && r[|r| - 1].start <= p.start && Holds(r[|r| - 1], p)
    ensures var r := Absorb(out, p, gap); |out| <= |r| <= |out| + 1
    ensures forall k :: 0 <= k < |out| ==>
      Absorb(out, p, gap)[k].start == out[k].start && out[k].end <= Absorb(out, p, gap)[k].end
  {
  }

  lemma {:induction false} MergeSpaced(ps: seq<Interval>, gap: real)
    requires Forward(ps) && ByStart(ps) && gap >= 0.0
    ensures Spaced(Merge(ps, gap), gap)
    ensures ps != [] ==> Merge(ps, gap) != [] && Merge(ps, gap)[|Merge(ps, gap)| - 1].start <= ps[|ps| - 1].start
  {
    if ps != [] {
      var n := |ps| - 1;
      var front, p := ps[..n], ps[n];
      assert forall i | 0 <= i < n :: front[i] == ps[i];
      MergeSpaced(front, gap);
      assert n > 0 ==> front[n - 1].start <= p.start;
      AbsorbSpaced(Merge(front, gap), p, gap);
      hide Absorb, Spaced;
    }
  }

  lemma HomeMonotone(ps: seq<Interval>, gap: real, i: nat, j: nat)
    requires i <= j <= |ps|
    ensures |Merge(ps[..i], gap)| <= |Merge(ps[..j], gap)|
  {
    hide Merge;
    if i < j {
      HomeMonotone(ps, gap, i, j - 1);
      MergeSnoc(ps, j - 1, gap);
    }
  }

  /** The n-th patch goes into the last output patch; the others keep their places and at most grow. */
  lemma AbsorbNext(ps: seq<Interval>, gap: real, n: nat)
    requires Forward(ps) && ByStart(ps) && gap >= 0.0 && 0 < n <= |ps|
    ensures var r := Merge(ps[..n], gap); r != [] && Holds(r[|r| - 1], ps[n - 1])
    ensures |Merge(ps[..n - 1], gap)| <= |Merge(ps[..n], gap)|
    ensures forall k :: 0 <= k < |Merge(ps[..n - 1], gap)| ==>
      Merge(ps[..n], gap)[k].start == Merge(ps[..n - 1], gap)[k].start
        && Merge(ps[..n - 1], gap)[k].end <= Merge(ps[..n], gap)[k].end
  {
    hide Forward, ByStart, Absorb, Spaced, Merge;
    var front := ps[..n - 1];
    FrontOrdered(ps, n);
    MergeSnoc(ps, n - 1, gap);
    MergeSpaced(front, gap);
    AbsorbSpaced(Merge(front, gap), ps[n - 1], gap);
  }

  lemma FrontOrdered(ps: seq<Interval>, n: nat)
    requires Forward(ps) && ByStart(ps) && 0 < n <= |ps|
    ensures Forward(ps[..n - 1]) && ByStart(ps[..n - 1]) && ps[n - 1].start <= ps[n - 1].end
    ensures n > 1 ==> ps[..n - 1][n - 2].start <= ps[n - 1].start
  {
  }

  /** Every patch lies inside its home in the output. */
  lemma {:induction false} HomeHolds(ps: seq<Interval>, gap: real, n: nat, i: nat)
    requires Forward(ps) && ByStart(ps) && gap >= 0.0 && i < n <= |ps|
    ensures 0 <= Home(ps, gap, i) < |Merge(ps[..n], gap)| && Holds(Merge(ps[..n], gap)[Home(ps, gap, i)], ps[i])
  {
    AbsorbNext(ps, gap, n);
    if i < n - 1 {
      HomeHolds(ps, gap, n - 1, i);
      HomeMonotone(ps, gap, i + 1, n - 1);
    }
    hide Merge, Forward, ByStart;
  }

  /** Spaced output patches cannot hold the same patch. */
  lemma HeldOnce(out: seq<Interval>, gap: real, p: Interval, k: nat, m: nat)
    requires Spaced(out, gap) && gap >= 0.0 && p.start <= p.end && k < |out| && m < |out|
    requires Holds(out[k], p) && Holds(out[m], p)
    ensures k == m
  {
  }

  // ------------------------------------------------------------ exactly the chains are merged

  /** At most `gap` between the two patches, whichever comes first. */
  predicate Near(a: Interval, b: Interval, gap: real) {
    a.start - b.end <= gap && b.start - a.end <= gap
  }

  /** Patches of the list, each near the next. */
  predicate Chain(ps: seq<Interval>, gap: real, path: seq<Interval>) {
    && (forall k :: 0 <= k < |path| ==> path[k] in ps)
    && forall k :: 0 <= k < |path| - 1 ==> Near(path[k], path[k + 1], gap)
  }

  predicate Joins(ps: seq<Interval>, gap: real, path: seq<Interval>, p: Interval, q: Interval) {
    Chain(ps, gap, path) && path != [] && path[0] == p && path[|path| - 1] == q
  }

  ghost predicate Linked(ps: seq<Interval>, gap: real, p: Interval, q: Interval) {
    exists path :: Joins(ps, gap, path, p, q)
  }

  /** Some output patch holds both. */
  ghost predicate Together(out: seq<Interval>, p: Interval, q: Interval) {
    exists k :: 0 <= k < |out| && Holds(out[k], p) && Holds(out[k], q)
  }

  lemma NearSameHome(ps: seq<Interval>, gap: real, i: nat, j: nat)
    requires Forward(ps) && ByStart(ps) && gap >= 0.0 && i < |ps| && j < |ps| && Near(ps[i], ps[j], gap)
    ensures Home(ps, gap, i) == Home(ps, gap, j)
  {
    assert ps[..|ps|] == ps;
    HomeHolds(ps, gap, |ps|, i);
    HomeHolds(ps, gap, |ps|, j);
    MergeSpaced(ps, gap);
  }

  lemma {:induction false} ChainSameHome(ps: seq<Interval>, gap: real, path: seq<Interval>, i: nat, j: nat)
    requires Forward(ps) && ByStart(ps) && gap >= 0.0 && i < |ps| && j < |ps| && Joins(ps, gap, path, ps[i], ps[j])
    ensures Home(ps, gap, i) == Home(ps, gap, j)
    decreases |path|
  {
    if |path| == 1 {
      NearSameHome(ps, gap, i, j);
    } else {
      assert path[1] in ps;
      var k: nat :| k < |ps| && ps[k] == path[1];
      assert Near(path[0], path[1], gap);
      NearSameHome(ps, gap, i, k);
      ChainSameHome(ps, gap, path[1..], k, j);
    }
  }

  /** The end of the last output patch so far is the end of a patch that lives there. */
  lemma {:induction false} EndAttained(ps: seq<Interval>, gap: real, n: nat) returns (q: nat)
    requires Forward(ps) && ByStart(ps) && gap >= 0.0 && 0 < n <= |ps|
    ensures q < n && Merge(ps[..n], gap) != [] && Home(ps, gap, q) == |Merge(ps[..n], gap)| - 1
    ensures ps[q].end == Merge(ps[..n], gap)[|Merge(ps[..n], gap)| - 1].end
  {
    hide Merge, Forward, ByStart;
    MergeSnoc(ps, n - 1, gap);
    q := n - 1;
    if n > 1 {
      var r := EndAttained(ps, gap, n - 1);
      var out := Merge(ps[..n - 1], gap);
      var last := out[|out| - 1];
      if ps[n - 1].start - last.end <= gap && Larger(last.end, ps[n - 1].end) == last.end {
        q := r;
      }
    }
  }

  /** A patch that was absorbed is near an earlier one of the same home. */
  lemma NearEarlier(ps: seq<Interval>, gap: real, i: nat) returns (q: nat)
    requires Forward(ps) && ByStart(ps) && gap >= 0.0 && 0 < i < |ps|
    requires Home(ps, gap, i) == Home(ps, gap, i - 1)
    ensures q < i && Home(ps, gap, q) == Home(ps, gap, i) && Near(ps[i], ps[q], gap)
  {
    MergeSnoc(ps, i, gap);
    q := EndAttained(ps, gap, i);
  }

  /** From any patch a chain leads down to the first patch of its home. */
  lemma {:induction false} PathDown(ps: seq<Interval>, gap: real, i: nat) returns (path: seq<Interval>, first: nat)
    requires Forward(ps) && ByStart(ps) && gap >= 0.0 && i < |ps|
    ensures first <= i && Joins(ps, gap, path, ps[i], ps[first]) && Home(ps, gap, first) == Home(ps, gap, i)
    ensures first > 0 ==> Home(ps, gap, first - 1) < Home(ps, gap, first)
    decreases i
  {
    if i == 0 || Home(ps, gap, i - 1) != Home(ps, gap, i) {
      path, first := [ps[i]], i;
      if i > 0 {
        HomeMonotone(ps, gap, i, i + 1);
      }
    } else {
      var q := NearEarlier(ps, gap, i);
      path, first := PathDown(ps, gap, q);
      path := [ps[i]] + path;
    }
  }

  /** The first patch of a home is the only one that no earlier patch shares it with. */
  lemma FirstUnique(ps: seq<Interval>, gap: real, a: nat, b: nat)
    requires a < |ps| && b < |ps| && Home(ps, gap, a) == Home(ps, gap, b)
    requires a > 0 ==> Home(ps, gap, a - 1) < Home(ps, gap, a)
    requires b > 0 ==> Home(ps, gap, b - 1) < Home(ps, gap, b)
    ensures a == b
  {
    if a < b {
      HomeMonotone(ps, gap, a + 1, b);
    } else if b < a {
      HomeMonotone(ps, gap, b + 1, a);
    }
  }

  lemma ReverseJoins(ps: seq<Interval>, gap: real, path: seq<Interval>, p: Interval, q: Interval)
    requires Joins(ps, gap, path, p, q)
    ensures Joins(ps, gap, Reverse(path), q, p)
  {
    var r := Reverse(path);
    forall k | 0 <= k < |r| - 1 ensures Near(r[k], r[k + 1], gap) {
      var m := |path| - 2 - k;
      assert Near(path[m], path[m + 1], gap);
    }
  }

  lemma JoinsTrans(ps: seq<Interval>, gap: real, a: seq<Interval>, b: seq<Interval>, p: Interval, q: Interval,
                   r: Interval)
    requires Joins(ps, gap, a, p, q) && Joins(ps, gap, b, q, r)
    ensures Joins(ps, gap, a + b[1..], p, r)
  {
    var path := a + b[1..];
    forall n | 0 <= n < |path| - 1 ensures Near(path[n], path[n + 1], gap) {
      if n >= |a| - 1 {
        assert path[n] == b[n - (|a| - 1)] && path[n + 1] == b[n - (|a| - 1) + 1];
      }
    }
  }

  lemma SortedTogether(ps: seq<Interval>, gap: real, i: nat, j: nat)
    requires Forward(ps) && ByStart(ps) && gap >= 0.0 && i < |ps| && j < |ps|
    ensures Together(Merge(ps, gap), ps[i], ps[j]) <==> Linked(ps, gap, ps[i], ps[j])
  {
    var out := Merge(ps, gap);
    assert ps[..|ps|] == ps;
    HomeHolds(ps, gap, |ps|, i);
    HomeHolds(ps, gap, |ps|, j);
    MergeSpaced(ps, gap);
    if Linked(ps, gap, ps[i], ps[j]) {
      var path :| Joins(ps, gap, path, ps[i], ps[j]);
      ChainSameHome(ps, gap, path, i, j);
    }
    if Together(out, ps[i], ps[j]) {
      var k :| 0 <= k < |out| && Holds(out[k], ps[i]) && Holds(out[k], ps[j]);
      HeldOnce(out, gap, ps[i], k, Home(ps, gap, i));
      HeldOnce(out, gap, ps[j], k, Home(ps, gap, j));
      var down, a := PathDown(ps, gap, i);
      var other, b := PathDown(ps, gap, j);
      FirstUnique(ps, gap, a, b);
      ReverseJoins(ps, gap, other, ps[j], ps[a]);
      JoinsTrans(ps, gap, down, Reverse(other), ps[i], ps[a], ps[j]);
    }
  }

  // ------------------------------------------------------------ the list as it was, unsorted

  function StartsBefore(): (Interval, Interval) -> bool {
    (a: Interval, b: Interval) => a.start <= b.start
  }

  /** The whole operation: sort by start, then merge. */
  function SortMerge(ps: seq<Interval>, gap: real): seq<Interval> {
    Merge(StableSort(ps, StartsBefore()), gap)
  }

  lemma SortedInput(ps: seq<Interval>)
    requires Forward(ps)
    ensures var s := StableSort(ps, StartsBefore()); Forward(s) && ByStart(s) && forall p :: p in s <==> p in ps
  {
    var s := StableSort(ps, StartsBefore());
    StableSortSorted(ps, StartsBefore());
    forall p ensures p in s <==> p in ps {
      SameElement(s, ps, p);
    }
    forall i | 0 <= i < |s| ensures s[i].start <= s[i].end {
      assert s[i] in s;
    }
    assert forall i, j | 0 <= i < j < |s| :: StartsBefore()(s[i], s[j]);
  }

  /** Two patches end up in one output patch exactly when a chain of patches, each near the next, links them. */
  lemma TogetherIffLinked(ps: seq<Interval>, gap: real, p: Interval, q: Interval)
    requires Forward(ps) && gap >= 0.0 && p in ps && q in ps
    ensures Together(SortMerge(ps, gap), p, q) <==> Linked(ps, gap, p, q)
  {
    var s := StableSort(ps, StartsBefore());
    SortedInput(ps);
    assert p in s && q in s;
    var i: nat :| i < |s| && s[i] == p;
    var j: nat :| j < |s| && s[j] == q;
    SortedTogether(s, gap, i, j);
    LinkedSame(ps, s, gap, p, q);
    hide Merge, StableSort, Together, ByStart, Forward, Linked;
  }

  /** What is linked does not depend on the order. */
  lemma LinkedSame(ps: seq<Interval>, s: seq<Interval>, gap: real, p: Interval, q: Interval)
    requires forall x :: x in s <==> x in ps
    ensures Linked(ps, gap, p, q) <==> Linked(s, gap, p, q)
  {
    assert forall path :: Chain(ps, gap, path) <==> Chain(s, gap, path);
    assert forall path :: Joins(ps, gap, path, p, q) <==> Joins(s, gap, path, p, q);
  }

  /** The result is in order and spaced, and merging it again changes nothing. */
  lemma SortMergeSpaced(ps: seq<Interval>, gap: real)
    requires Forward(ps) && gap >= 0.0
    ensures Spaced(SortMerge(ps, gap), gap)
    ensures SortMerge(SortMerge(ps, gap), gap) == SortMerge(ps, gap)
  {
    var s := StableSort(ps, StartsBefore());
    SortedInput(ps);
    MergeSpaced(s, gap);
    var out := Merge(s, gap);
    forall i, j | 0 <= i < j < |out| ensures StartsBefore()(out[i], out[j]) {
      assert out[i].start <= out[i].end && out[i].end + gap < out[j].start;
    }
    SortedStays(out, StartsBefore());
    MergeSpacedStays(out, gap);
  }

  // ------------------------------------------------------------ which instants the result covers

  /** `p` covers t, or ended at most `gap` before. */
  predicate Reaches(p: Interval, gap: real, t: real) {
    p.start <= t <= p.end + gap
  }

  ghost predicate Somewhere(ps: seq<Interval>, gap: real, t: real) {
    exists p :: p in ps && Reaches(p, gap, t)
  }

  lemma SortedInstants(ps: seq<Interval>, gap: real, t: real)
    requires Forward(ps) && ByStart(ps) && gap >= 0.0
    ensures Somewhere(Merge(ps, gap), 0.0, t) ==> Somewhere(ps, gap, t)
    ensures Somewhere(ps, 0.0, t) ==> Somewhere(Merge(ps, gap), 0.0, t)
  {
    var out := Merge(ps, gap);
    assert ps[..|ps|] == ps;
    if Somewhere(out, 0.0, t) {
      var p :| p in out && Reaches(p, 0.0, t);
      var k: nat :| k < |out| && out[k] == p;
      NothingInvented(ps, gap, k, t);
    }
    if Somewhere(ps, 0.0, t) {
      var p :| p in ps && Reaches(p, 0.0, t);
      var i: nat :| i < |ps| && ps[i] == p;
      HomeHolds(ps, gap, |ps|, i);
      assert Reaches(out[Home(ps, gap, i)], 0.0, t);
    }
  }

  lemma {:induction false} NothingInvented(ps: seq<Interval>, gap: real, k: nat, t: real)
    requires Forward(ps) && ByStart(ps) && gap >= 0.0 && k < |Merge(ps, gap)| && Reaches(Merge(ps, gap)[k], 0.0, t)
    ensures Somewhere(ps, gap, t)
  {
    var n := |ps| - 1;
    var front, p := ps[..n], ps[n];
    var out := Merge(front, gap);
    assert forall i | 0 <= i < n :: front[i] == ps[i];
    if k < |out| && Reaches(out[k], 0.0, t) {
      NothingInvented(front, gap, k, t);
      var r :| r in front && Reaches(r, gap, t);
      assert r in ps;
    } else if p.start <= t {
      assert Reaches(p, gap, t);
    } else {
      var q := EndAttained(ps, gap, n);
      assert Reaches(ps[q], gap, t);
    }
  }

  // ------------------------------------------------------------ merging again changes nothing

  lemma {:induction false} MergeSpacedStays(out: seq<Interval>, gap: real)
    requires Spaced(out, gap)
    ensures Merge(out, gap) == out
  {
    if out != [] {
      SpacedFront(out, gap);
      hide Spaced, Absorb;
      MergeSpacedStays(out[..|out| - 1], gap);
    }
  }

  lemma SpacedFront(out: seq<Interval>, gap: real)
    requires Spaced(out, gap) && out != []
    ensures var front := out[..|out| - 1]; Spaced(front, gap) && Absorb(front, out[|out| - 1], gap) == out
  {
    var front := out[..|out| - 1];
    assert forall i | 0 <= i < |front| :: front[i] == out[i];
    assert front + [out[|out| - 1]] == out;
  }

  /** An instant in the result is in a patch or within `gap` after one, and no patch's instant is lost. */
  lemma MergeInstants(ps: seq<Interval>, gap: real, t: real)
    requires Forward(ps) && gap >= 0.0
    ensures Somewhere(SortMerge(ps, gap), 0.0, t) ==> Somewhere(ps, gap, t)
    ensures Somewhere(ps, 0.0, t) ==> Somewhere(SortMerge(ps, gap), 0.0, t)
  {
    var s := StableSort(ps, StartsBefore());
    SortedInput(ps);
    SortedInstants(s, gap, t);
    if Somewhere(s, gap, t) {
      var p :| p in s && Reaches(p, gap, t);
      assert p in ps;
    }
    if Somewhere(ps, 0.0, t) {
      var p :| p in ps && Reaches(p, 0.0, t);
      assert p in s;
    }
  }
}
