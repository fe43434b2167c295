/**
 Time patches as the worker keeps them, objects whose end moves, and the operations on lists
 of them in the person-tracking report and in a tracking sequence. Times are milliseconds.
 */
module TimePatches {
  import opened Texts
  import opened Intervals
  import opened Sequences
  import opened Sorting
  import opened GapMerging
  import opened Sweeping

  class TimePatch {
    const startTime: real
    var endTime: real
    const minTimeInterval: Option<real>

    constructor (start: real, end: real, min: Option<real>)
      ensures Value() == Interval(start, end) && minTimeInterval == min
    {
      startTime, endTime, minTimeInterval := start, end, min;
    }

    function Value(): Interval
      reads this
    {
      Interval(startTime, endTime)
    }

    method UpdateEndTime(frameTime: real)
      modifies this`endTime
      ensures Value() == Interval(startTime, frameTime)
    {
      endTime := frameTime;
    }

    function GetDuration(): real
      reads this
    {
      endTime - startTime
    }

    predicate IsOverlap(start: real, end: real)
      reads this
    {
      if startTime <= start then endTime >= start else startTime <= end
    }

    /** For patches that do not end before they start, `is_overlap` says whether they share an instant. */
    lemma OverlapMeaning(start: real, end: real)
      requires startTime <= endTime && start <= end
      ensures IsOverlap(start, end) <==> exists t :: Reaches(Value(), 0.0, t) && Reaches(Interval(start, end), 0.0, t)
    {
      var first := Larger(startTime, start);
      if IsOverlap(start, end) {
        assert Reaches(Value(), 0.0, first) && Reaches(Interval(start, end), 0.0, first);
      }
    }
  }

  ghost function Values(ps: seq<TimePatch>): (r: seq<Interval>)
    reads ps
    ensures |r| == |ps| && forall i :: 0 <= i < |ps| ==> r[i] == ps[i].Value()
  {
    seq(|ps|, i requires 0 <= i < |ps| reads ps => ps[i].Value())
  }

  // ------------------------------------------------------------ the complement

  /** A new patch from `at` to `until` behind the others, when one is needed. */
  method AppendGap(gaps: seq<TimePatch>, needed: bool, at: real, until: real, min: Option<real>)
    returns (r: seq<TimePatch>)
    ensures forall i :: 0 <= i < |r| ==> fresh(r[i]) || (i < |gaps| && r[i] == gaps[i])
    ensures Values(r) == Values(gaps) + if needed then [Interval(at, until)] else []
  {
    r := gaps;
    if needed {
      var gap := new TimePatch(at, at, min);
      gap.UpdateEndTime(until);
      r := gaps + [gap];
    }
  }

  /** What the loop has left to do, from the i-th patch on. */
  lemma ComplementStep(done: seq<Interval>, vals: seq<Interval>, i: nat, at: real, duration: real)
    requires i < |vals|
    ensures done + Complement(vals[i..], at, duration)
         == (done + (if at != vals[i].start then [Interval(at, vals[i].start)] else []))
            + Complement(vals[i + 1..], vals[i].end, duration)
  {
    assert vals[i..][1..] == vals[i + 1..];
  }

  lemma ComplementEnd(vals: seq<Interval>, at: real, duration: real)
    ensures Complement(vals[|vals|..], at, duration) == if at < duration then [Interval(at, duration)] else []
  {
  }

  /**
   `_get_reversed_time_patchs`, and the loop of `TrackingSequence.reverse`: the stretches of
   the video outside the patches, as new objects.
   */
  method Reversed(ps: seq<TimePatch>, duration: real, min: Option<real>) returns (r: seq<TimePatch>)
    ensures forall i :: 0 <= i < |r| ==> fresh(r[i])
    ensures Values(r) == Complement(Values(ps), 0.0, duration)
  {
    r := [];
    var at := 0.0;
    ghost var vals := Values(ps);
    assert vals[0..] == vals;
    hide Complement, Values;
    for i := 0 to |ps|
      invariant forall k :: 0 <= k < |r| ==> fresh(r[k])
      invariant Values(ps) == vals
      invariant Values(r) + Complement(vals[i..], at, duration) == Complement(vals, 0.0, duration)
    {
      ComplementStep(Values(r), vals, i, at, duration);
      r := AppendGap(r, at != ps[i].startTime, at, ps[i].startTime, min);
      at := ps[i].endTime;
    }
    ComplementEnd(vals, at, duration);
    r := AppendGap(r, at < duration, at, duration, min);
  }

  // ------------------------------------------------------------ the sweep

  function PointsOf(ps: seq<TimePatch>): seq<Point>
    reads ps
  {
    if ps == [] then []
    else PointsOf(ps[..|ps| - 1]) + [Point(ps[|ps| - 1].startTime, true), Point(ps[|ps| - 1].endTime, false)]
  }

  lemma {:induction false} PointsOfValues(ps: seq<TimePatch>)
    ensures PointsOf(ps) == Points(Values(ps))
  {
    if ps != [] {
      PointsOfValues(ps[..|ps| - 1]);
      assert Values(ps)[..|ps| - 1] == Values(ps[..|ps| - 1]);
    }
  }

  lemma {:induction false} OpenIsThere(points: seq<Point>, n: nat)
    ensures Sweep(points, n).count > n ==> Sweep(points, n).out != []
  {
    if points != [] {
      OpenIsThere(points[..|points| - 1], n);
    }
  }

  /** One round of the loop: open a patch, close the one opened last, or only count. */
  method Pass(r: seq<TimePatch>, count: int, point: Point, n: nat) returns (r': seq<TimePatch>, count': int)
    requires Distinct(r) && (count > n ==> r != [])
    modifies r
    ensures Progress(count', Values(r')) == Advance(Progress(count, old(Values(r))), point, n)
    ensures Distinct(r')
    ensures forall i :: 0 <= i < |r'| ==> fresh(r'[i]) || (i < |r| && r'[i] == r[i])
  {
    r' := r;
    count' := if point.opens then count + 1 else count - 1;
    if count' == n + 1 && count' > count {
      var p := new TimePatch(point.time, point.time, Some(3000.0));
      r' := r + [p];
      assert Values(r') == Values(r) + [Interval(point.time, point.time)];
    } else if count == n + 1 && count' < count {
      ghost var k, was := |r| - 1, Values(r);
      r[|r| - 1].UpdateEndTime(point.time);
      assert Values(r) == was[..k] + [Interval(was[k].start, point.time)];
    }
  }

  lemma SweepStep(points: seq<Point>, i: nat, n: nat)
    requires i < |points|
    ensures Sweep(points[..i + 1], n) == Advance(Sweep(points[..i], n), points[i], n)
  {
    assert points[..i + 1][..i] == points[..i];
  }

  /** The loop over the sorted time points; there is always a patch to close when the count falls back to n. */
  method SweepPoints(points: seq<Point>, n: nat) returns (r: seq<TimePatch>)
    ensures forall i :: 0 <= i < |r| ==> fresh(r[i])
    ensures Values(r) == Sweep(points, n).out
  {
    r := [];
    var count := 0;
    assert Sweep(points[..0], n) == Progress(0, []);
    hide Sweep, Advance, Values;
    for i := 0 to |points|
      invariant forall k :: 0 <= k < |r| ==> fresh(r[k])
      invariant Distinct(r)
      invariant Sweep(points[..i], n) == Progress(count, Values(r))
    {
      SweepStep(points, i, n);
      OpenIsThere(points[..i], n);
      r, count := Pass(r, count, points[i], n);
    }
    assert points[..|points|] == points;
  }

  /** `_get_time_patch_count` */
  method GetTimePatchCount(ps: seq<TimePatch>, n: int) returns (r: seq<TimePatch>)
    ensures forall i :: 0 <= i < |r| ==> fresh(r[i])
    ensures Values(r) == Crowded(Values(ps), n)
  {
    if n < 0 {
      return [];
    }
    PointsOfValues(ps);
    r := SweepPoints(StableSort(PointsOf(ps), InOrder()), n);
  }

  ghost function Members(lists: seq<seq<TimePatch>>): (r: set<TimePatch>)
    ensures forall k, p :: 0 <= k < |lists| && p in lists[k] ==> p in r
  {
    if lists == [] then {}
    else
      var last := lists[|lists| - 1];
      Members(lists[..|lists| - 1]) + set p | p in last
  }

  ghost function AllValues(lists: seq<seq<TimePatch>>): (r: seq<seq<Interval>>)
    reads Members(lists)
    ensures |r| == |lists| && forall k :: 0 <= k < |lists| ==> r[k] == Values(lists[k])
  {
    if lists == [] then [] else AllValues(lists[..|lists| - 1]) + [Values(lists[|lists| - 1])]
  }

  lemma OnScreenStep(lost: seq<seq<Interval>>, i: nat, duration: real)
    requires i < |lost|
    ensures OnScreen(lost[..i + 1], duration) == OnScreen(lost[..i], duration) + Complement(lost[i], 0.0, duration)
  {
    assert lost[..i + 1][..i] == lost[..i];
  }

  /** `_get_max_num_warning`, from the lost patches of every matched person. */
  method GetMaxNumWarning(lost: seq<seq<TimePatch>>, duration: real, n: int) returns (warned: bool, r: seq<TimePatch>)
    ensures Values(r) == Crowded(OnScreen(AllValues(lost), duration), n)
    ensures warned <==> r != []
  {
    var all: seq<TimePatch> := [];
    ghost var was := AllValues(lost);
    hide Values, Complement, AllValues, Crowded;
    for i := 0 to |lost|
      invariant forall k :: 0 <= k < |lost| ==> Values(lost[k]) == was[k]
      invariant AllValues(lost) == was
      invariant Values(all) == OnScreen(was[..i], duration)
    {
      ghost var before := Values(all);
      var onScreen := Reversed(lost[i], duration, Some(3000.0));
      assert Values(all + onScreen) == before + Values(onScreen);
      all := all + onScreen;
      OnScreenStep(was, i, duration);
    }
    assert was[..|lost|] == was;
    r := GetTimePatchCount(all, n);
    assert AllValues(lost) == was;
    assert Values(all) == OnScreen(was, duration);
    warned := |r| > 0;
  }

  /**
   The check of `_get_ratio_warning` for one person; `None` is the ZeroDivisionError. It
   warns exactly when the time on screen falls short of its part of the video.
   */
  method GetRatioWarning(lost: seq<TimePatch>, duration: real, ratio: real) returns (warned: Option<bool>)
    ensures warned.None? <==> duration == 0.0
    ensures warned.Some? ==> (warned.value <==> 1.0 - Total(Values(lost)) / duration < ratio)
    ensures duration > 0.0 && Within(Values(lost), 0.0, duration) ==>
      warned == Some(Total(Complement(Values(lost), 0.0, duration)) < ratio * duration)
  {
    ghost var vals := Values(lost);
    var total := 0.0;
    for i := 0 to |lost|
      invariant total == Total(vals[..i])
    {
      assert vals[..i + 1] == vals[..i] + [vals[i]];
      TotalSnoc(vals[..i], vals[i]);
      total := total + lost[i].GetDuration();
    }
    assert vals[..|lost|] == vals;
    if duration == 0.0 {
      return None;
    }
    if duration > 0.0 && Within(vals, 0.0, duration) {
      WithinForward(vals, 0.0, duration);
      OnScreenRatio(vals, duration, ratio);
    }
    return Some(1.0 - total / duration < ratio);
  }

  // ------------------------------------------------------------ merging

  function EarlierStart(): (TimePatch, TimePatch) -> bool {
    (a: TimePatch, b: TimePatch) => a.startTime <= b.startTime
  }

  lemma {:induction false} InsertValues(p: TimePatch, ps: seq<TimePatch>)
    ensures Values(Insert(p, ps, EarlierStart())) == Insert(p.Value(), Values(ps), StartsBefore())
  {
    hide Values;
    if ps == [] || EarlierStart()(ps[|ps| - 1], p) {
      assert Values(ps + [p]) == Values(ps) + [p.Value()];
    } else {
      var front, last := ps[..|ps| - 1], ps[|ps| - 1];
      InsertValues(p, front);
      assert Values(ps)[..|ps| - 1] == Values(front);
      var r := Insert(p, front, EarlierStart());
      assert Values(r + [last]) == Values(r) + [last.Value()];
    }
  }

  /** Sorting the objects by start sorts their values. */
  lemma {:induction false} SortValues(ps: seq<TimePatch>)
    ensures Values(StableSort(ps, EarlierStart())) == StableSort(Values(ps), StartsBefore())
  {
    hide Values;
    if ps != [] {
      SortValues(ps[..|ps| - 1]);
      InsertValues(ps[|ps| - 1], StableSort(ps[..|ps| - 1], EarlierStart()));
      assert Values(ps)[..|ps| - 1] == Values(ps[..|ps| - 1]);
    }
  }

  /** What one round does to the list so far: the last patch is extended, or `p` is added. */
  function Taken(out: seq<Interval>, p: Interval, join: bool): seq<Interval>
    requires join ==> out != []
  {
    var n := |out| - 1;
    if join then out[..n] + [Interval(out[n].start, Larger(out[n].end, p.end))] else out + [p]
  }

  /** One round of a merging loop. */
  method Take(merged: seq<TimePatch>, p: TimePatch, join: bool) returns (r: seq<TimePatch>)
    requires Distinct(merged) && p !in merged && (join ==> merged != [])
    modifies if join then {merged[|merged| - 1]} else {}
    ensures Values(r) == Taken(old(Values(merged)), old(p.Value()), join)
    ensures r == if join then merged else merged + [p]
  {
    ghost var was := Values(merged);
    hide Values;
    if join {
      var last := merged[|merged| - 1];
      last.UpdateEndTime(Larger(last.endTime, p.endTime));
      assert Values(merged) == Taken(was, p.Value(), true);
      r := merged;
    } else {
      r := merged + [p];
      assert Values(r) == was + [p.Value()];
    }
  }

  /** Between rounds: what is merged comes from the patches before the i-th, the others are as they were. */
  ghost predicate Underway(sorted: seq<TimePatch>, vals: seq<Interval>, merged: seq<TimePatch>, i: nat)
    reads sorted
  {
    && |sorted| == |vals| && i <= |sorted| && Distinct(sorted) && Distinct(merged)
    && (forall k :: i <= k < |sorted| ==> sorted[k].Value() == vals[k] && sorted[k] !in merged)
    && (forall m :: m in merged ==> m in sorted)
    && (i > 0 <==> merged != [])
  }

  /** A round that keeps `Underway`. */
  method Round(sorted: seq<TimePatch>, ghost vals: seq<Interval>, merged: seq<TimePatch>, i: nat, join: bool)
    returns (r: seq<TimePatch>)
    requires Underway(sorted, vals, merged, i) && i < |sorted| && (join ==> merged != [])
    modifies sorted
    ensures Underway(sorted, vals, r, i + 1)
    ensures Values(r) == Taken(old(Values(merged)), vals[i], join)
  {
    hide Values, Taken;
    assert join ==> merged[|merged| - 1] in merged;
    r := Take(merged, sorted[i], join);
  }

  /** `sort(key=start_time)` */
  method Sorted(ps: seq<TimePatch>) returns (s: seq<TimePatch>)
    requires Distinct(ps)
    ensures Distinct(s) && forall i :: 0 <= i < |s| ==> s[i] in ps
    ensures Values(s) == StableSort(Values(ps), StartsBefore())
  {
    s := StableSort(ps, EarlierStart());
    SortKeepsDistinct(ps, EarlierStart());
    SortValues(ps);
    forall i | 0 <= i < |s| ensures s[i] in ps {
      SameElement(s, ps, s[i]);
    }
  }

  /** The loop of `_merge_intervals`, over the sorted patches. */
  method MergeTouching(sorted: seq<TimePatch>) returns (merged: seq<TimePatch>)
    requires Distinct(sorted)
    modifies sorted
    ensures Distinct(merged) && forall m :: m in merged ==> m in sorted
    ensures Values(merged) == Merge(old(Values(sorted)), 0.0)
  {
    ghost var vals := Values(sorted);
    merged := [];
    assert vals[..0] == [] && Values(merged) == Merge(vals[..0], 0.0);
    hide Values, Merge;
    for i := 0 to |sorted|
      invariant Underway(sorted, vals, merged, i)
      invariant Values(merged) == Merge(vals[..i], 0.0)
    {
      MergeSnoc(vals, i, 0.0);
      var join := !(merged == [] || merged[|merged| - 1].endTime < sorted[i].startTime);
      merged := Round(sorted, vals, merged, i, join);
    }
    assert vals[..|vals|] == vals;
  }

  /** `_merge_intervals`: patches that overlap or touch become one; the first of them is extended. */
  method MergeIntervals(ps: seq<TimePatch>) returns (merged: seq<TimePatch>)
    requires Distinct(ps)
    modifies ps
    ensures Distinct(merged) && forall m :: m in merged ==> m in ps
    ensures Values(merged) == SortMerge(old(Values(ps)), 0.0)
  {
    var sorted := Sorted(ps);
    hide Values, StableSort;
    merged := MergeTouching(sorted);
  }

  // ------------------------------------------------------------ a tracking sequence

  /** The guard of `_merge_time_patch` is a bound on the distance, whenever no patch ends before it starts. */
  lemma GuardIsGap(p: TimePatch, last: Interval, gap: real)
    requires p.startTime <= p.endTime && last.start <= last.end && last.start <= p.startTime
    ensures p.IsOverlap(last.start, last.end) || p.startTime - last.end <= gap
       <==> p.startTime - last.end <= Larger(gap, 0.0)
  {
  }

  /** Where the merged list stands before the i-th patch of a sorted list. */
  lemma MergedBefore(vals: seq<Interval>, i: nat, gap: real)
    requires i < |vals| && Forward(vals) && ByStart(vals) && gap >= 0.0
    ensures var out := Merge(vals[..i], gap);
      out != [] ==> out[|out| - 1].start <= out[|out| - 1].end && out[|out| - 1].start <= vals[i].start
  {
    var front := vals[..i];
    assert forall k | 0 <= k < i :: front[k] == vals[k];
    MergeSpaced(front, gap);
  }

  class TrackingSequence {
    const gap: real
    const minTimeInterval: Option<real>
    var timePatchs: seq<TimePatch>

    constructor (frameTime: real, gap: real, min: Option<real>)
      ensures timePatchs != [] && fresh(timePatchs[0]) && Values(timePatchs) == [Interval(frameTime, frameTime)]
      ensures this.gap == gap
    {
      var first := new TimePatch(frameTime, frameTime, min);
      this.gap, minTimeInterval, timePatchs := gap, min, [first];
    }

    /** `reverse`: the complement up to `frameTime`. */
    method Reverse(frameTime: real) returns (r: seq<TimePatch>)
      ensures forall i :: 0 <= i < |r| ==> fresh(r[i])
      ensures Values(r) == Complement(Values(timePatchs), 0.0, frameTime)
    {
      r := Reversed(timePatchs, frameTime, minTimeInterval);
    }

    /** The loop of `_merge_time_patch`, over the sorted patches. */
    method MergeNear(sorted: seq<TimePatch>) returns (merged: seq<TimePatch>)
      requires Distinct(sorted) && ByStart(Values(sorted))
      modifies sorted
      ensures Distinct(merged) && forall i :: 0 <= i < |merged| ==> merged[i] in sorted
      ensures Forward(old(Values(sorted))) ==> Values(merged) == Merge(old(Values(sorted)), Larger(gap, 0.0))
    {
      ghost var vals, g := Values(sorted), Larger(gap, 0.0);
      merged := [];
      assert vals[..0] == [] && Values(merged) == Merge(vals[..0], g);
      hide Values, Merge, Larger;
      for i := 0 to |sorted|
        invariant Underway(sorted, vals, merged, i)
        invariant Forward(vals) ==> Values(merged) == Merge(vals[..i], g)
      {
        var p, n := sorted[i], |merged| - 1;
        var join := merged != []
          && (p.IsOverlap(merged[n].startTime, merged[n].endTime) || p.startTime - merged[n].endTime <= gap);
        if Forward(vals) {
          NextMerge(vals, i, p, merged, join);
        }
        merged := Round(sorted, vals, merged, i, join);
      }
      assert vals[..|vals|] == vals;
    }

    /** One round of the loop is one round of `Merge`. */
    lemma NextMerge(vals: seq<Interval>, i: nat, p: TimePatch, merged: seq<TimePatch>, join: bool)
      requires i < |vals| && Forward(vals) && ByStart(vals) && p.Value() == vals[i]
      requires Values(merged) == Merge(vals[..i], Larger(gap, 0.0))
      requires var n := |merged| - 1;
        join <==>
          && merged != []
          && (p.IsOverlap(merged[n].startTime, merged[n].endTime) || p.startTime - merged[n].endTime <= gap)
      ensures Taken(Values(merged), vals[i], join) == Merge(vals[..i + 1], Larger(gap, 0.0))
    {
      var g, n := Larger(gap, 0.0), |merged| - 1;
      MergeSnoc(vals, i, g);
      MergedBefore(vals, i, g);
      hide Values, Merge;
      if merged != [] {
        assert Values(merged)[n] == merged[n].Value();
        GuardIsGap(p, merged[n].Value(), gap);
      }
    }

    /** `_merge_time_patch` */
    method MergeTimePatch()
      requires Distinct(timePatchs)
      modifies this`timePatchs, timePatchs
      ensures Distinct(timePatchs) && forall i :: 0 <= i < |timePatchs| ==> timePatchs[i] in old(timePatchs)
      ensures Forward(old(Values(timePatchs))) ==>
        Values(timePatchs) == SortMerge(old(Values(timePatchs)), Larger(gap, 0.0))
    {
      var sorted := Sorted(timePatchs);
      SortedByStart(Values(timePatchs));
      hide Values, StableSort;
      timePatchs := MergeNear(sorted);
    }

    /** `merge`: take over the patches of another sequence. */
    method TakeOver(other: TrackingSequence)
      requires Distinct(timePatchs + other.timePatchs)
      modifies this`timePatchs, timePatchs, other.timePatchs
      ensures var all := old(Values(timePatchs)) + old(Values(other.timePatchs));
        Forward(all) ==> Values(timePatchs) == SortMerge(all, Larger(gap, 0.0))
    {
      ghost var all := Values(timePatchs) + Values(other.timePatchs);
      timePatchs := timePatchs + other.timePatchs;
      assert Values(timePatchs) == all;
      hide Values;
      MergeTimePatch();
    }
  }

  /** Sorting by start orders the starts, and keeps the patches' directions. */
  lemma SortedByStart(vals: seq<Interval>)
    ensures ByStart(StableSort(vals, StartsBefore()))
    ensures Forward(vals) ==> Forward(StableSort(vals, StartsBefore()))
  {
    StableSortSorted(vals, StartsBefore());
    var s := StableSort(vals, StartsBefore());
    assert forall i, j | 0 <= i < j < |s| :: StartsBefore()(s[i], s[j]);
    if Forward(vals) {
      SortedInput(vals);
    }
  }
}
