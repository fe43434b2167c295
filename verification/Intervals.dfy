/**
 Stretches of time on a video's time line, and the complement of a list of them within the
 video. Times are milliseconds, as real numbers.
 */
module Intervals {
  import opened Texts

  datatype Interval = Interval(start: real, end: real)

  /** Does `p` cover the instant t? A patch covers its start but not its end. */
  predicate Covers(p: Interval, t: real) {
    p.start <= t < p.end
  }

  /** How many patches of the list cover t. */
  function Count(ps: seq<Interval>, t: real): nat {
    if ps == [] then 0 else Count(ps[1..], t) + if Covers(ps[0], t) then 1 else 0
  }

  /** Begun minus ended at t: what a list adds up to when a patch whose end is before its start counts -1. */
  function Net(ps: seq<Interval>, t: real): int {
    if ps == [] then 0 else Net(ps[1..], t) + Sign(ps[0], t)
  }

  function Sign(p: Interval, t: real): int {
    (if p.start <= t then 1 else 0) - (if p.end <= t then 1 else 0)
  }

  /** The patches turned round: start and end exchanged. */
  function Turned(ps: seq<Interval>): seq<Interval> {
    if ps == [] then [] else [Interval(ps[0].end, ps[0].start)] + Turned(ps[1..])
  }

  predicate Forward(ps: seq<Interval>) {
    forall i :: 0 <= i < |ps| ==> ps[i].start <= ps[i].end
  }

  function Total(ps: seq<Interval>): real {
    if ps == [] then 0.0 else ps[0].end - ps[0].start + Total(ps[1..])
  }

  lemma {:induction false} NetIsCoveredLessTurned(ps: seq<Interval>, t: real)
    ensures Net(ps, t) == Count(ps, t) - Count(Turned(ps), t)
    ensures Forward(ps) ==> Count(Turned(ps), t) == 0
  {
    if ps != [] {
      NetIsCoveredLessTurned(ps[1..], t);
      assert Turned(ps)[1..] == Turned(ps[1..]);
      if Forward(ps) {
        assert ps[0].start <= ps[0].end && forall i | 0 <= i < |ps[1..]| :: ps[1..][i] == ps[i + 1];
      }
    }
  }

  lemma {:induction false} NetAppend(ps: seq<Interval>, qs: seq<Interval>, t: real)
    ensures Net(ps + qs, t) == Net(ps, t) + Net(qs, t)
  {
    if ps == [] {
      assert ps + qs == qs;
    } else {
      NetAppend(ps[1..], qs, t);
      assert (ps + qs)[1..] == ps[1..] + qs;
    }
  }

  lemma {:induction false} TotalSnoc(ps: seq<Interval>, p: Interval)
    ensures Total(ps + [p]) == Total(ps) + p.end - p.start
  {
    if ps != [] {
      TotalSnoc(ps[1..], p);
      assert (ps + [p])[1..] == ps[1..] + [p];
    }
  }

  // ------------------------------------------------------------ the complement

  /** What is left between `at` and `duration`: the loop of `_get_reversed_time_patchs` from some patch on. */
  function Complement(ps: seq<Interval>, at: real, duration: real): seq<Interval> {
    if ps == [] then (if at < duration then [Interval(at, duration)] else [])
    else (if at != ps[0].start then [Interval(at, ps[0].start)] else []) + Complement(ps[1..], ps[0].end, duration)
  }

  /** Where the complement stops: at the video's end, unless the last patch ends after it. */
  function Finish(ps: seq<Interval>, at: real, duration: real): real {
    if ps != [] then Finish(ps[1..], ps[0].end, duration) else if at < duration then duration else at
  }

  /**
   For any list at all, ordered or not: list and complement together count every instant
   from `at` to the finish exactly once, and their durations add up to that stretch.
   */
  lemma {:induction false} ComplementPartitions(ps: seq<Interval>, at: real, duration: real, t: real)
    ensures Net(Complement(ps, at, duration), t) + Net(ps, t) == Sign(Interval(at, Finish(ps, at, duration)), t)
    ensures Total(Complement(ps, at, duration)) + Total(ps) == Finish(ps, at, duration) - at
  {
    if ps == [] {
      assert Complement(ps, at, duration) == [] || Complement(ps, at, duration)[1..] == [];
    } else {
      ComplementPartitions(ps[1..], ps[0].end, duration, t);
      var rest := Complement(ps[1..], ps[0].end, duration);
      if at != ps[0].start {
        assert Complement(ps, at, duration)[1..] == rest;
      } else {
        assert Complement(ps, at, duration) == rest;
      }
    }
  }

  /** The patches lie in order, without overlap, between `at` and `duration`. */
  predicate Within(ps: seq<Interval>, at: real, duration: real) {
    if ps == [] then at <= duration else at <= ps[0].start <= ps[0].end && Within(ps[1..], ps[0].end, duration)
  }

  lemma {:induction false} WithinForward(ps: seq<Interval>, at: real, duration: real)
    requires Within(ps, at, duration)
    ensures Forward(ps) && at <= duration && Finish(ps, at, duration) == duration
  {
    if ps != [] {
      WithinForward(ps[1..], ps[0].end, duration);
      assert forall i | 0 < i < |ps| :: ps[i] == ps[1..][i - 1];
    }
  }

  lemma {:induction false} ComplementWithin(ps: seq<Interval>, at: real, duration: real)
    requires Within(ps, at, duration)
    ensures Within(Complement(ps, at, duration), at, duration)
  {
    if ps != [] {
      ComplementWithin(ps[1..], ps[0].end, duration);
      WithinWider(Complement(ps[1..], ps[0].end, duration), ps[0].end, at, duration);
      WithinWider(Complement(ps[1..], ps[0].end, duration), ps[0].end, ps[0].start, duration);
      var rest := Complement(ps[1..], ps[0].end, duration);
      if at != ps[0].start {
        assert Complement(ps, at, duration)[1..] == rest;
      } else {
        assert Complement(ps, at, duration) == rest;
      }
    }
  }

  lemma WithinWider(ps: seq<Interval>, at: real, from: real, duration: real)
    requires Within(ps, at, duration) && from <= at
    ensures Within(ps, from, duration)
  {
    WithinForward(ps, at, duration);
  }

  /** Every instant of the video is in the list or in its complement, never in both, and never twice. */
  lemma ComplementPointwise(ps: seq<Interval>, duration: real, t: real)
    requires Within(ps, 0.0, duration)
    ensures Count(ps, t) + Count(Complement(ps, 0.0, duration), t) == if 0.0 <= t < duration then 1 else 0
  {
    WithinForward(ps, 0.0, duration);
    ComplementWithin(ps, 0.0, duration);
    WithinForward(Complement(ps, 0.0, duration), 0.0, duration);
    ComplementPartitions(ps, 0.0, duration, t);
    NetIsCoveredLessTurned(ps, t);
    NetIsCoveredLessTurned(Complement(ps, 0.0, duration), t);
  }

  lemma ShareBelow(lost: real, duration: real, ratio: real)
    requires duration > 0.0
    ensures 1.0 - lost / duration < ratio <==> duration - lost < ratio * duration
  {
    var share := lost / duration;
    assert share * duration == lost;
    var d := ratio - (1.0 - share);
    assert d * duration == ratio * duration - duration + share * duration;
    assert d > 0.0 ==> d * duration > 0.0;
    assert d <= 0.0 ==> d * duration <= 0.0;
  }

  /**
   The ratio check of `_get_ratio_warning`: one less the lost share falls short of `ratio`
   exactly when the complement takes less than that part of the video.
   */
  lemma OnScreenRatio(lost: seq<Interval>, duration: real, ratio: real)
    requires duration > 0.0 && Finish(lost, 0.0, duration) == duration
    ensures 1.0 - Total(lost) / duration < ratio <==> Total(Complement(lost, 0.0, duration)) < ratio * duration
  {
    var gone, left := Total(lost), Total(Complement(lost, 0.0, duration));
    ComplementPartitions(lost, 0.0, duration, 0.0);
    assert left == duration - gone;
    ShareBelow(gone, duration, ratio);
    hide *;
  }

  // ------------------------------------------------------------ complementing twice

  /** No patch is empty, none begins where the one before it ends, and the last one's end is its own. */
  predicate Restorable(ps: seq<Interval>, duration: real) {
    if ps == [] then true
    else if |ps| == 1 then
      ps[0].start != ps[0].end && (ps[0].end < duration || (ps[0].end == duration && ps[0].start < duration))
    else ps[0].start != ps[0].end && ps[0].end != ps[1].start && Restorable(ps[1..], duration)
  }

  /** The second complement, once a patch from `from` to `at` is pending. */
  lemma {:induction false} TwicePending(ps: seq<Interval>, from: real, at: real, duration: real)
    ensures var twice := Complement(Complement(ps, at, duration), from, duration);
      |twice| <= |ps| + 1 && (twice == [Interval(from, at)] + ps <==> Restorable([Interval(from, at)] + ps, duration))
  {
    var once := Complement(ps, at, duration);
    var all := [Interval(from, at)] + ps;
    if ps == [] {
      assert all[1..] == [] && (once != [] ==> once[1..] == []);
    } else {
      var rest := Complement(ps[1..], ps[0].end, duration);
      assert all[1..] == ps == [ps[0]] + ps[1..];
      if at == ps[0].start {
        TwicePending(ps[1..], from, ps[0].end, duration);
        assert once == rest;
      } else {
        TwicePending(ps[1..], at, ps[0].end, duration);
        TwicePending(ps[1..], ps[0].start, ps[0].end, duration);
        assert once[0] == Interval(at, ps[0].start) && once[1..] == rest;
        var tail := Complement(rest, ps[0].start, duration);
        var twice := Complement(once, from, duration);
        assert twice == (if from != at then [Interval(from, at)] else []) + tail;
        assert from != at ==> twice[1..] == tail && twice[0] == Interval(from, at);
        assert twice == all ==> |twice| == |ps| + 1;
      }
    }
  }

  /** Complementing twice gives the list back exactly when it is restorable, whatever its order. */
  lemma ComplementTwice(ps: seq<Interval>, duration: real)
    ensures Complement(Complement(ps, 0.0, duration), 0.0, duration) == ps <==> Restorable(ps, duration)
  {
    if ps != [] {
      assert ps == [ps[0]] + ps[1..];
      TwicePending(ps[1..], ps[0].start, ps[0].end, duration);
      var once, rest := Complement(ps, 0.0, duration), Complement(ps[1..], ps[0].end, duration);
      if ps[0].start != 0.0 {
        assert once[0] == Interval(0.0, ps[0].start) && once[1..] == rest;
      } else {
        assert once == rest;
      }
    }
  }

  /** Patches that touch come back as one. */
  lemma TouchingLost()
    ensures var ps := [Interval(0.0, 1.0), Interval(1.0, 2.0)];
      Complement(Complement(ps, 0.0, 3.0), 0.0, 3.0) == [Interval(0.0, 2.0)]
  {
    var ps, once := [Interval(0.0, 1.0), Interval(1.0, 2.0)], [Interval(2.0, 3.0)];
    assert ps[1..] == [ps[1]] && [ps[1]][1..] == [] && once[1..] == [];
    assert Complement(ps, 0.0, 3.0) == once;
  }
}
