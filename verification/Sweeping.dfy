/**
 The sweep over patch ends that finds when more than n people are on screen, as one pass
 over the sorted time points with a running count.
 */
module Sweeping {
  import opened Intervals
  import opened Sorting

  /** A time point: the start ("l") or the end ("r") of a patch. */
  datatype Point = Point(time: real, opens: bool)

  function Points(ps: seq<Interval>): seq<Point> {
    if ps == [] then []
    else Points(ps[..|ps| - 1]) + [Point(ps[|ps| - 1].start, true), Point(ps[|ps| - 1].end, false)]
  }

  /** The sort key puts ends before starts at the same time. */
  function InOrder(): (Point, Point) -> bool {
    (a: Point, b: Point) => a.time < b.time || (a.time == b.time && (!a.opens || b.opens))
  }

  /** The loop's variables: the running count and the patches so far, the last one still open when count > n. */
  datatype Progress = Progress(count: int, out: seq<Interval>)

  function Advance(s: Progress, p: Point, n: nat): Progress {
    var count := s.count + if p.opens then 1 else -1;
    if count == n + 1 && count > s.count then Progress(count, s.out + [Interval(p.time, p.time)])
    else if s.count == n + 1 && count < s.count && s.out != [] then
      Progress(count, s.out[..|s.out| - 1] + [Interval(s.out[|s.out| - 1].start, p.time)])
    else Progress(count, s.out)
  }

  function Sweep(points: seq<Point>, n: nat): Progress {
    if points == [] then Progress(0, []) else Advance(Sweep(points[..|points| - 1], n), points[|points| - 1], n)
  }

  /** `_get_time_patch_count`: the patches during which more than `n` of the given ones hold. */
  function Crowded(ps: seq<Interval>, n: int): seq<Interval> {
    if n < 0 then [] else Sweep(StableSort(Points(ps), InOrder()), n).out
  }

  // ------------------------------------------------------------ the level at an instant

  function Change(p: Point): int {
    if p.opens then 1 else -1
  }

  /** Starts less ends up to and including t. */
  function Level(points: seq<Point>, t: real): int {
    if points == [] then 0
    else Level(points[..|points| - 1], t) + if points[|points| - 1].time <= t then Change(points[|points| - 1]) else 0
  }

  lemma LevelSnoc(points: seq<Point>, p: Point, t: real)
    ensures Level(points + [p], t) == Level(points, t) + if p.time <= t then Change(p) else 0
  {
    assert (points + [p])[..|points|] == points;
  }

  lemma {:induction false} NetSnoc(ps: seq<Interval>, p: Interval, t: real)
    ensures Net(ps + [p], t) == Net(ps, t) + Sign(p, t)
  {
    NetAppend(ps, [p], t);
    assert [p][1..] == [];
  }

  lemma {:induction false} LevelIsNet(ps: seq<Interval>, t: real)
    ensures Level(Points(ps), t) == Net(ps, t)
  {
    if ps != [] {
      var front, p := ps[..|ps| - 1], ps[|ps| - 1];
      LevelIsNet(front, t);
      assert ps == front + [p];
      NetSnoc(front, p, t);
      assert Points(ps) == Points(front) + [Point(p.start, true)] + [Point(p.end, false)];
      LevelSnoc(Points(front), Point(p.start, true), t);
      LevelSnoc(Points(front) + [Point(p.start, true)], Point(p.end, false), t);
    }
  }

  /** Sorting leaves every level as it is. */
  lemma {:induction false} InsertLevel(p: Point, points: seq<Point>, t: real)
    ensures Level(Insert(p, points, InOrder()), t) == Level(points + [p], t)
  {
    if points != [] && !InOrder()(points[|points| - 1], p) {
      var front, last := points[..|points| - 1], points[|points| - 1];
      InsertLevel(p, front, t);
      LevelSnoc(Insert(p, front, InOrder()), last, t);
      LevelSnoc(front, p, t);
      LevelSnoc(points, p, t);
    }
  }

  lemma {:induction false} SortLevel(points: seq<Point>, t: real)
    ensures Level(StableSort(points, InOrder()), t) == Level(points, t)
  {
    if points != [] {
      var front, last := points[..|points| - 1], points[|points| - 1];
      SortLevel(front, t);
      InsertLevel(last, StableSort(front, InOrder()), t);
      LevelSnoc(StableSort(front, InOrder()), last, t);
    }
  }

  // ------------------------------------------------------------ what the loop keeps

  ghost predicate Ascending(points: seq<Point>) {
    forall i, j :: 0 <= i < j < |points| ==> InOrder()(points[i], points[j])
  }

  predicate IsOpen(s: Progress, n: nat) {
    s.count > n
  }

  /** In order, never empty, touching at most; the open one at the end has no extent yet. */
  ghost predicate Shaped(s: Progress, n: nat, now: real) {
    var out := s.out;
    && (forall k :: 0 <= k < |out| ==> out[k].end <= now)
    && (forall k :: 0 <= k < |out| - 1 ==> out[k].start < out[k].end <= out[k + 1].start)
    && (IsOpen(s, n) ==> out != [])
    && (out != [] ==>
          var last := out[|out| - 1];
          if IsOpen(s, n) then last.start == last.end else last.start < last.end)
  }

  ghost predicate CoveredBy(out: seq<Interval>, t: real) {
    exists k :: 0 <= k < |out| && Covers(out[k], t)
  }

  /** Covered by a finished patch, or by the one still open. */
  ghost predicate Marked(s: Progress, n: nat, t: real) {
    CoveredBy(s.out, t) || (IsOpen(s, n) && s.out != [] && s.out[|s.out| - 1].start <= t)
  }

  lemma {:induction false} CountIsLevel(points: seq<Point>, n: nat, t: real)
    requires forall i :: 0 <= i < |points| ==> points[i].time <= t
    ensures Sweep(points, n).count == Level(points, t)
  {
    if points != [] {
      var front := points[..|points| - 1];
      assert forall i | 0 <= i < |front| :: front[i] == points[i];
      CountIsLevel(front, n, t);
    }
  }

  /** An end never comes at the time of an earlier start, so an open patch gets a positive length. */
  ghost predicate OpenedBefore(points: seq<Point>, s: Progress, n: nat) {
    IsOpen(s, n) && s.out != [] ==> Point(s.out[|s.out| - 1].start, true) in points
  }

  lemma AdvanceShaped(points: seq<Point>, s: Progress, p: Point, n: nat, now: real)
    requires Shaped(s, n, now) && now <= p.time && OpenedBefore(points, s, n)
    requires forall q :: q in points ==> InOrder()(q, p)
    ensures Shaped(Advance(s, p, n), n, p.time) && OpenedBefore(points + [p], Advance(s, p, n), n)
  {
    if IsOpen(s, n) {
      assert InOrder()(Point(s.out[|s.out| - 1].start, true), p);
    }
  }

  lemma AdvanceMarked(s: Progress, p: Point, n: nat, now: real, t: real)
    requires Shaped(s, n, now) && now <= p.time
    ensures t < p.time ==> (Marked(Advance(s, p, n), n, t) <==> Marked(s, n, t))
    ensures p.time <= t ==> (Marked(Advance(s, p, n), n, t) <==> IsOpen(Advance(s, p, n), n))
  {
    var s', m := Advance(s, p, n), |s.out| - 1;
    assert forall k | 0 <= k < m :: s'.out[k] == s.out[k];
    if t < p.time {
      forall k | 0 <= k < |s.out| ensures Covers(s.out[k], t) ==> CoveredBy(s'.out, t) {
        assert k < |s'.out|;
        if k == m && Covers(s.out[k], t) {
          assert Covers(s'.out[k], t);
        }
      }
      if Marked(s, n, t) && IsOpen(s, n) && s.out[m].start <= t && !IsOpen(s', n) {
        assert Covers(s'.out[m], t);
      }
    }
  }

  /** Sweeping a sorted list marks exactly the instants where the level exceeds n. */
  lemma {:induction false} SweepMarks(points: seq<Point>, n: nat, t: real) returns (now: real)
    requires Ascending(points)
    ensures var s := Sweep(points, n);
      && Shaped(s, n, now) && OpenedBefore(points, s, n)
      && (points != [] ==> now == points[|points| - 1].time)
      && (Marked(s, n, t) <==> Level(points, t) > n)
  {
    now := 0.0;
    if points != [] {
      var front, p := points[..|points| - 1], points[|points| - 1];
      assert forall i | 0 <= i < |front| :: front[i] == points[i];
      var before := SweepMarks(front, n, t);
      var s := Sweep(front, n);
      now := p.time;
      if front == [] {
        before := p.time;
      } else {
        assert InOrder()(points[|front| - 1], p);
      }
      assert points == front + [p];
      AdvanceShaped(front, s, p, n, before);
      AdvanceMarked(s, p, n, before, t);
      if p.time <= t {
        forall i | 0 <= i < |points| ensures points[i].time <= t {
          assert i == |front| || InOrder()(points[i], p);
        }
        CountIsLevel(points, n, t);
      }
    }
  }

  // ------------------------------------------------------------ the result

  /** The last time point, where every level has come back to zero. */
  lemma AllClosed(ps: seq<Interval>, n: nat)
    ensures Sweep(StableSort(Points(ps), InOrder()), n).count == 0
  {
    var points := StableSort(Points(ps), InOrder());
    var t := Bound(points, ps);
    CountIsLevel(points, n, t);
    SortLevel(Points(ps), t);
    LevelIsNet(ps, t);
    NetAfter(ps, t);
  }

  lemma {:induction false} NetAfter(ps: seq<Interval>, t: real)
    requires forall i :: 0 <= i < |ps| ==> ps[i].start <= t && ps[i].end <= t
    ensures Net(ps, t) == 0
  {
    if ps != [] {
      assert forall i | 0 <= i < |ps[1..]| :: ps[1..][i] == ps[i + 1];
      NetAfter(ps[1..], t);
    }
  }

  /** Some instant after everything. */
  lemma {:induction false} Bound(points: seq<Point>, ps: seq<Interval>) returns (t: real)
    ensures forall i :: 0 <= i < |points| ==> points[i].time <= t
    ensures forall i :: 0 <= i < |ps| ==> ps[i].start <= t && ps[i].end <= t
  {
    t := 0.0;
    for i := 0 to |points|
      invariant forall k :: 0 <= k < i ==> points[k].time <= t
    {
      t := if t < points[i].time then points[i].time else t;
    }
    for i := 0 to |ps|
      invariant forall k :: 0 <= k < |points| ==> points[k].time <= t
      invariant forall k :: 0 <= k < i ==> ps[k].start <= t && ps[k].end <= t
    {
      t := if t < ps[i].start then ps[i].start else t;
      t := if t < ps[i].end then ps[i].end else t;
    }
  }

  /** In order, none empty and none overlapping, though the end of one may be the start of the next. */
  ghost predicate Sequential(out: seq<Interval>) {
    && (forall k :: 0 <= k < |out| ==> out[k].start < out[k].end)
    && (forall k :: 0 <= k < |out| - 1 ==> out[k].end <= out[k + 1].start)
  }

  lemma PointsAscending(points: seq<Point>)
    ensures Ascending(StableSort(points, InOrder()))
  {
    StableSortSorted(points, InOrder());
  }

  /**
   For any patches: the result is in order, without overlap, every patch of it is closed
   again, and it covers t exactly when at t more than n patches have begun and not ended.
   */
  lemma CrowdedMeaning(ps: seq<Interval>, n: int, t: real)
    ensures Sequential(Crowded(ps, n))
    ensures CoveredBy(Crowded(ps, n), t) <==> n >= 0 && Net(ps, t) > n
  {
    if n >= 0 {
      var points := StableSort(Points(ps), InOrder());
      PointsAscending(Points(ps));
      var now := SweepMarks(points, n, t);
      AllClosed(ps, n);
      SortLevel(Points(ps), t);
      LevelIsNet(ps, t);
      ClosedMeaning(Sweep(points, n), n, now, t);
    }
  }

  lemma ClosedMeaning(s: Progress, n: nat, now: real, t: real)
    requires Shaped(s, n, now) && s.count == 0
    ensures Sequential(s.out) && (Marked(s, n, t) <==> CoveredBy(s.out, t))
  {
  }

  /** When no patch ends before it starts, that is the number of patches that cover t. */
  lemma CrowdedCounts(ps: seq<Interval>, n: nat, t: real)
    requires Forward(ps)
    ensures CoveredBy(Crowded(ps, n), t) <==> Count(ps, t) > n
  {
    CrowdedMeaning(ps, n, t);
    NetIsCoveredLessTurned(ps, t);
  }

  // ------------------------------------------------------------ people on screen

  /** The complements of several people's lost patches, one list after the other. */
  function OnScreen(lost: seq<seq<Interval>>, duration: real): seq<Interval> {
    if lost == [] then [] else OnScreen(lost[..|lost| - 1], duration) + Complement(lost[|lost| - 1], 0.0, duration)
  }

  /** How many of these people are not lost at t. */
  function Present(lost: seq<seq<Interval>>, t: real): nat {
    if lost == [] then 0 else Present(lost[..|lost| - 1], t) + if Count(lost[|lost| - 1], t) == 0 then 1 else 0
  }

  lemma {:induction false} OnScreenCounts(lost: seq<seq<Interval>>, duration: real, t: real)
    requires forall i :: 0 <= i < |lost| ==> Within(lost[i], 0.0, duration)
    ensures Net(OnScreen(lost, duration), t) == if 0.0 <= t < duration then Present(lost, t) else 0
  {
    if lost != [] {
      var front, last := lost[..|lost| - 1], lost[|lost| - 1];
      assert forall i | 0 <= i < |front| :: front[i] == lost[i];
      OnScreenCounts(front, duration, t);
      NetAppend(OnScreen(front, duration), Complement(last, 0.0, duration), t);
      ComplementPointwise(last, duration, t);
      ComplementWithin(last, 0.0, duration);
      WithinForward(Complement(last, 0.0, duration), 0.0, duration);
      NetIsCoveredLessTurned(Complement(last, 0.0, duration), t);
    }
  }

  /**
   The maximum-number warning: its patches cover an instant of the video exactly when more
   than n people are on screen then, and it is raised exactly when there is such an instant.
   */
  lemma MaxNumWarning(lost: seq<seq<Interval>>, duration: real, n: nat, t: real)
    requires forall i :: 0 <= i < |lost| ==> Within(lost[i], 0.0, duration)
    ensures CoveredBy(Crowded(OnScreen(lost, duration), n), t) <==> 0.0 <= t < duration && Present(lost, t) > n
    ensures Crowded(OnScreen(lost, duration), n) != [] <==> exists u :: 0.0 <= u < duration && Present(lost, u) > n
  {
    var out := Crowded(OnScreen(lost, duration), n);
    forall u ensures CoveredBy(out, u) <==> 0.0 <= u < duration && Present(lost, u) > n {
      CrowdedMeaning(OnScreen(lost, duration), n, u);
      OnScreenCounts(lost, duration, u);
    }
    if out != [] {
      CrowdedMeaning(OnScreen(lost, duration), n, t);
      assert Covers(out[0], out[0].start);
      var u := out[0].start;
      assert CoveredBy(out, u);
      assert 0.0 <= u < duration && Present(lost, u) > n;
    }
  }
}
