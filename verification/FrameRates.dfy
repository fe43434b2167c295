/**
 How the stream task picks the rate at which it decodes the video, and how many decoded
 frames each channel then steps over. Rates are real numbers here.
 */
module FrameRates {
  import opened Sequences
  import opened Texts
  import P = Pipeline

  /** `int(x)` of a float: towards zero. */
  function Truncate(x: real): int {
    if x < 0.0 then -((-x).Floor) else x.Floor
  }

  /** The highest positive rate asked for, or 0 when no channel asks for one. */
  function Fastest(fps: seq<real>): (r: real)
    ensures r >= 0.0 && forall i :: 0 <= i < |fps| ==> fps[i] <= r
    ensures r > 0.0 ==> r in fps
  {
    if fps == [] then 0.0
    else
      var rest := Fastest(fps[1..]);
      if fps[0] > rest then fps[0] else rest
  }

  lemma FastestSnoc(fps: seq<real>, x: real)
    ensures Fastest(fps + [x]) == if x > Fastest(fps) then x else Fastest(fps)
  {
    if fps != [] {
      FastestSnoc(fps[1..], x);
      assert (fps + [x])[1..] == fps[1..] + [x];
    }
  }

  /**
   `_choose_decode_fps`; `None` is the RuntimeError, `meta` the rate in the media's metadata.
   When channels ask for rates, the result is the largest integer above neither limit.
   */
  method ChooseDecodeFps(fps: seq<real>, meta: Option<real>) returns (decode: Option<int>)
    ensures decode.None? <==> meta.None? && forall i :: 0 <= i < |fps| ==> fps[i] <= 0.0
    ensures decode.Some? && Fastest(fps) == 0.0 ==> decode.value == Truncate(meta.value)
    ensures decode.Some? && Fastest(fps) > 0.0 ==> IsCap(decode.value, Fastest(fps), meta)
  {
    var highest := 0.0;
    for i := 0 to |fps|
      invariant highest == Fastest(fps[..i])
    {
      FastestSnoc(fps[..i], fps[i]);
      assert fps[..i + 1] == fps[..i] + [fps[i]];
      if fps[i] > highest {
        highest := fps[i];
      }
    }
    assert fps[..|fps|] == fps;
    if highest == 0.0 && meta.None? {
      return None;
    }
    if highest == 0.0 {
      return Some(Truncate(meta.value));
    }
    if meta.None? {
      return Some(Truncate(highest));
    }
    var limit := Truncate(meta.value);
    if highest > limit as real {
      return Some(limit);
    }
    return Some(Truncate(highest));
  }

  /** The largest integer that is at most `fastest` and, with metadata, at most its whole part. */
  ghost predicate IsCap(decode: int, fastest: real, meta: Option<real>) {
    && decode as real <= fastest && (meta.Some? ==> decode <= Truncate(meta.value))
    && forall d: int :: Allowed(d, fastest, meta) ==> d <= decode
  }

  ghost predicate Allowed(d: int, fastest: real, meta: Option<real>) {
    d as real <= fastest && (meta.Some? ==> d <= Truncate(meta.value))
  }

  /** The step of one channel in `_recalc_process_steps`. */
  function StepOf(decode: int, fps: real): int {
    if fps > 0.0 then Truncate(decode as real / fps) else 1
  }

  /** `_recalc_process_steps`, over the channels in the order they were added. */
  method RecalcProcessSteps(decode: int, ids: seq<P.Id>, fps: map<P.Id, real>) returns (steps: map<P.Id, int>)
    requires forall id :: id in ids <==> id in fps
    ensures steps.Keys == fps.Keys
    ensures forall id :: id in fps ==> steps[id] == StepOf(decode, fps[id])
  {
    steps := map[];
    for i := 0 to |ids|
      invariant forall id :: id in steps <==> id in ids[..i]
      invariant forall id :: id in steps ==> id in fps && steps[id] == StepOf(decode, fps[id])
    {
      var id := ids[i];
      assert id in ids && id in fps;
      steps := steps[id := if fps[id] > 0.0 then Truncate(decode as real / fps[id]) else 1];
      assert ids[..i + 1] == ids[..i] + [ids[i]];
    }
    assert ids[..|ids|] == ids;
    assert forall id :: id in steps <==> id in fps;
  }

  /** Comparing a quotient is comparing a product. */
  lemma QuotientBounds(x: real, y: real, c: real)
    requires y > 0.0
    ensures c <= x / y <==> c * y <= x
    ensures x / y < c <==> x < c * y
  {
    var q := x / y;
    assert q * y == x;
    assert (q - c) * y == x - c * y;
    assert q >= c ==> (q - c) * y >= 0.0;
    assert q < c ==> (c - q) * y > 0.0;
  }

  /** A channel's step is at least 1 exactly when it asks for no more than is decoded. */
  lemma StepPositiveIff(decode: int, fps: real)
    ensures StepOf(decode, fps) >= 1 <==> (fps <= 0.0 || fps <= decode as real)
  {
    if fps > 0.0 {
      QuotientBounds(decode as real, fps, 1.0);
    }
  }

  /** With a step of at least 1 the channel gets frames at its own rate or above, but below twice it. */
  lemma RateDelivered(decode: int, fps: real)
    requires 0.0 < fps && StepOf(decode, fps) >= 1
    ensures var step := StepOf(decode, fps) as real;
      fps <= decode as real / step < 2.0 * fps
  {
    var step := StepOf(decode, fps) as real;
    QuotientBounds(decode as real, fps, step);
    QuotientBounds(decode as real, fps, step + 1.0);
    QuotientBounds(decode as real, step, fps);
    QuotientBounds(decode as real, step, 2.0 * fps);
    assert fps * (step - 1.0) >= 0.0;
  }

  /** Every step is at least 1 exactly when the fastest rate asked for is decoded. */
  lemma FastestDecides(fps: seq<real>, decode: int)
    ensures (forall i :: 0 <= i < |fps| ==> StepOf(decode, fps[i]) >= 1)
       <==> Fastest(fps) == 0.0 || Fastest(fps) <= decode as real
  {
    var top := Fastest(fps);
    forall i | 0 <= i < |fps| ensures StepOf(decode, fps[i]) >= 1 <==> (fps[i] <= 0.0 || fps[i] <= decode as real) {
      StepPositiveIff(decode, fps[i]);
    }
    hide StepOf, Fastest;
    if top > 0.0 {
      var k :| 0 <= k < |fps| && fps[k] == top;
      assert StepOf(decode, fps[k]) >= 1 <==> top <= decode as real;
    }
  }

  /**
   Every channel gets a usable step exactly when nobody asks for a rate, or the highest
   rate asked for is a whole number that the metadata's rate, if known, reaches.
   */
  lemma AllStepsPositiveIff(fps: seq<real>, meta: Option<real>, decode: int)
    requires Fastest(fps) > 0.0 ==> IsCap(decode, Fastest(fps), meta)
    ensures (forall i :: 0 <= i < |fps| ==> StepOf(decode, fps[i]) >= 1) <==>
      || Fastest(fps) == 0.0
      || (Fastest(fps) == Fastest(fps).Floor as real && (meta.Some? ==> Fastest(fps) <= meta.value))
  {
    FastestDecides(fps, decode);
    var top := Fastest(fps);
    hide StepOf, Fastest;
    if top > 0.0 && top == top.Floor as real && (meta.Some? ==> top <= meta.value) {
      assert Allowed(top.Floor, top, meta);
    }
  }

  /** A channel at 29.97 frames a second alone already gets step 0: 29 frames are decoded. */
  lemma FractionalRate()
    ensures IsCap(29, Fastest([29.97]), None) && StepOf(29, 29.97) == 0
  {
    assert Fastest([29.97]) == 29.97 by {
      assert Fastest([29.97][1..]) == 0.0;
    }
    StepPositiveIff(29, 29.97);
    assert 0.0 <= 29.0 / 29.97;
    forall d: int | Allowed(d, 29.97, None) ensures d <= 29 {
    }
  }

  /** With usable steps no interleaving ends the dispatcher by a division: it stops only when told to. */
  lemma DispatchSurvives(capacity: nat, steps: map<P.Id, int>, open: seq<P.Id>, actions: seq<P.Action>)
    requires Distinct(open) && (forall id :: id in steps <==> id in open)
    requires forall id :: id in steps ==> steps[id] >= 1
    ensures var s := P.Run(P.Initial(capacity, steps, open), actions);
      s.dispatch.Broadcasting? && s.dispatch.rest != [] ==> P.Step(s, P.Deliver).dispatch.Broadcasting?
  {
    var s0 := P.Initial(capacity, steps, open);
    P.InitialInv(capacity, steps, open);
    P.RunKeeps(s0, actions);
    P.RunConstant(s0, actions);
    var s := P.Run(s0, actions);
    if s.dispatch.Broadcasting? && s.dispatch.rest != [] {
      P.DeliverFailsIff(s);
      assert s.channels[s.dispatch.rest[0]].step >= 1;
    }
  }
}
