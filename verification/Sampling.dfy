/**
 Which messages a channel gets, in plain arithmetic: those without an image, and every
 image whose number its step divides.
 */
module Sampling {
  import opened FrameRates
  import opened Pipeline
  import opened Sequences

  /** `got` is what stands at the positions `at` of `ms`: where there is no image, or one whose number k divides. */
  ghost predicate Sampled(ms: seq<Message>, k: int, got: seq<Message>, at: seq<nat>)
    requires k >= 1
  {
    && |got| == |at| && (forall i, j | 0 <= i < j < |at| :: at[i] < at[j])
    && (forall i | 0 <= i < |at| :: at[i] < |ms| && got[i] == ms[at[i]])
    && (forall p: nat | p < |ms| :: p in at <==> !ms[p].hasImage || ms[p].id % k == 0)
  }

  lemma {:induction false} WantedSampled(ms: seq<Message>, k: int) returns (at: seq<nat>)
    requires k >= 1
    ensures Sampled(ms, k, Wanted(ms, k), at)
  {
    at := [];
    if ms != [] {
      var n: nat := |ms| - 1;
      var front := WantedSampled(ms[..n], k);
      at := front + if !ms[n].hasImage || ms[n].id % k == 0 then [n] else [];
      forall p: nat | p < |ms| ensures p in at <==> !ms[p].hasImage || ms[p].id % k == 0 {
        if p < n {
          assert ms[..n][p] == ms[p];
        }
      }
    }
  }

  /**
   In every interleaving: an open channel of a step k of at least 1 has received exactly
   the messages dispatched past it that have no image or one whose number k divides, in
   their order.
   */
  lemma ChannelSampled(capacity: nat, steps: map<Id, int>, open: seq<Id>, actions: seq<Action>, id: Id)
    returns (at: seq<nat>)
    requires Distinct(open) && (forall x :: x in steps <==> x in open) && id in steps && steps[id] >= 1
    requires id in Run(Initial(capacity, steps, open), actions).open
    ensures var s := Run(Initial(capacity, steps, open), actions);
      id in s.channels && Sampled(Passed(s, id), steps[id], Received(s.channels[id]), at)
  {
    ChannelsConserve(capacity, steps, open, actions, id);
    hide Run, Initial, Wanted, Sampled;
    at := WantedSampled(Passed(Run(Initial(capacity, steps, open), actions), id), steps[id]);
  }

  /** When the last message has been broadcast that is so of the whole stream. */
  lemma StreamSampled(capacity: nat, steps: map<Id, int>, open: seq<Id>, actions: seq<Action>, id: Id)
    returns (at: seq<nat>)
    requires LastBroadcast(capacity, steps, open, actions, id) && steps[id] >= 1
    ensures var s := Run(Initial(capacity, steps, open), actions);
      id in s.channels && Sampled(s.accepted, steps[id], Received(s.channels[id]), at)
  {
    LastMessageReachesOpenChannels(capacity, steps, open, actions, id);
    hide Run, Initial, Wanted, Sampled;
    at := WantedSampled(Run(Initial(capacity, steps, open), actions).accepted, steps[id]);
  }

  /** A channel of step 1 gets everything. */
  lemma {:induction false} StepOneWantsAll(ms: seq<Message>)
    ensures Wanted(ms, 1) == ms
  {
    if ms != [] {
      StepOneWantsAll(ms[..|ms| - 1]);
      assert ms[..|ms| - 1] + [ms[|ms| - 1]] == ms;
    }
  }

  // ------------------------------------------------------------ consecutive frames

  /** Images numbered one after the other from `first`. */
  ghost predicate Consecutive(ms: seq<Message>, first: int) {
    forall i | 0 <= i < |ms| :: ms[i].hasImage && ms[i].id == first + i
  }

  /** From one number to the next the quotient grows by one at every multiple. */
  lemma QuotientSteps(x: int, k: int)
    requires k >= 1
    ensures x / k - (x - 1) / k == if x % k == 0 then 1 else 0
  {
    var q, r := x / k, x % k;
    assert x == q * k + r;
    if r == 0 {
      QuotientIs(x - 1, k, q - 1, k - 1);
    } else {
      QuotientIs(x - 1, k, q, r - 1);
    }
  }

  lemma QuotientIs(x: int, k: int, q: int, r: int)
    requires k >= 1 && 0 <= r < k && x == q * k + r
    ensures x / k == q
  {
    var d := x / k - q;
    assert d * k == r - x % k;
    assert d >= 1 ==> d * k >= k;
    assert d <= -1 ==> d * k <= -k;
  }

  lemma {:induction false} WantedCount(ms: seq<Message>, first: int, k: int)
    requires k >= 1 && Consecutive(ms, first)
    ensures |Wanted(ms, k)| == (first + |ms| - 1) / k - (first - 1) / k
  {
    if ms != [] {
      var n := |ms| - 1;
      assert forall i | 0 <= i < n :: ms[..n][i] == ms[i];
      WantedCount(ms[..n], first, k);
      QuotientSteps(first + n, k);
    }
  }

  /** Any n numbers in a row hold n / k multiples of k, rounded down or up. */
  lemma MultiplesInRow(x: int, n: nat, k: int)
    requires k >= 1
    ensures n / k <= (x + n) / k - x / k <= (n + k - 1) / k
  {
    var q0, r0, q, r := x / k, x % k, n / k, n % k;
    assert (q0 + q) * k == q0 * k + q * k && (q0 + q + 1) * k == q0 * k + q * k + k && (q + 1) * k == q * k + k;
    if r0 + r < k {
      QuotientIs(x + n, k, q0 + q, r0 + r);
    } else {
      QuotientIs(x + n, k, q0 + q + 1, r0 + r - k);
    }
    if r == 0 {
      QuotientIs(n + k - 1, k, q, k - 1);
    } else {
      QuotientIs(n + k - 1, k, q + 1, r - 1);
    }
  }

  /** Of consecutive images every k-th is wanted, wherever the counting begins. */
  lemma ConsecutiveWanted(ms: seq<Message>, first: int, k: int)
    requires k >= 1 && Consecutive(ms, first)
    ensures |ms| / k <= |Wanted(ms, k)| <= (|ms| + k - 1) / k
    ensures |ms| == k ==> |Wanted(ms, k)| == 1
  {
    hide Wanted, Consecutive;
    WantedCount(ms, first, k);
    MultiplesInRow(first - 1, |ms|, k);
    if |ms| == k {
      QuotientIs(k, k, 1, 0);
      QuotientIs(k + k - 1, k, 1, k - 1);
    }
  }

  /** So a second of decoded frames brings a channel its rate, less than one frame short, and less than twice that. */
  lemma SecondDelivered(ms: seq<Message>, first: int, decode: int, fps: real)
    requires 0.0 < fps && StepOf(decode, fps) >= 1 && Consecutive(ms, first) && |ms| == decode
    ensures fps - 1.0 < |Wanted(ms, StepOf(decode, fps))| as real < 2.0 * fps + 1.0
  {
    hide StepOf, Wanted, Consecutive;
    var k := StepOf(decode, fps);
    var w := |Wanted(ms, k)|;
    ConsecutiveWanted(ms, first, k);
    RateDelivered(decode, fps);
    Rounded(decode, k, w);
  }

  /** A quotient rounded down or up is less than one away. */
  lemma Rounded(n: int, k: int, w: int)
    requires k >= 1 && n / k <= w <= (n + k - 1) / k
    ensures n as real / k as real - 1.0 < w as real < n as real / k as real + 1.0
  {
    FloorBound(n, k);
    CeilBound(n, k);
  }

  lemma FloorBound(n: int, k: int)
    requires k >= 1
    ensures n as real / k as real - 1.0 < (n / k) as real
  {
    var q, x := n / k, n as real / k as real;
    assert n < (q + 1) * k;
    assert x * k as real == n as real;
    assert ((q + 1) as real - x) * k as real > 0.0 by {
      assert ((q + 1) * k) as real == (q + 1) as real * k as real;
    }
    assert x >= (q + 1) as real ==> ((q + 1) as real - x) * k as real <= 0.0;
  }

  lemma CeilBound(n: int, k: int)
    requires k >= 1
    ensures ((n + k - 1) / k) as real < n as real / k as real + 1.0
  {
    var q, x := (n + k - 1) / k, n as real / k as real;
    assert q * k <= n + k - 1;
    assert (q - 1) * k < n;
    assert x * k as real == n as real;
    assert (x - (q - 1) as real) * k as real > 0.0 by {
      assert ((q - 1) * k) as real == (q - 1) as real * k as real;
    }
    assert x <= (q - 1) as real ==> (x - (q - 1) as real) * k as real <= 0.0;
  }
}
