/**
 What consumers read of a stream that has come to its end: closing a channel does not drain
 it. The generator stops at the closing mark, so all but at most one of the messages still
 queued are never read.
 */
module Draining {
  import opened Pipeline
  import opened Sequences

  // ------------------------------------------------------------ a channel's own moves

  /** The channel after the moves its consumer makes in a run. */
  function After(ch: Channel, actions: seq<Action>, id: Id): Channel
    decreases |actions|
  {
    if actions == [] then ch
    else
      After(if actions[0] == Read(id) then Consume(ch) else if actions[0] == Leave(id) then Quit(ch) else ch,
            actions[1..], id)
  }

  /** The consumer's next move, if there is one, is to take a step rather than to leave. */
  predicate StaysNext(actions: seq<Action>, id: Id)
    decreases |actions|
  {
    actions == [] || actions[0] == Read(id) || (actions[0] != Leave(id) && StaysNext(actions[1..], id))
  }

  /** Both tasks are over and every channel is closed. */
  predicate Over(s: State) {
    s.stream.StreamOver? && s.dispatch.DispatchOver? && s.open == []
  }

  /** Then only consumers move. */
  lemma {:induction false} OverStays(s: State, actions: seq<Action>, id: Id)
    requires Over(s) && id in s.channels
    ensures var t := Run(s, actions);
      t.accepted == s.accepted && id in t.channels && t.channels[id] == After(s.channels[id], actions, id)
    decreases |actions|
  {
    if actions != [] {
      OverStep(s, actions[0], id);
      OverStays(Step(s, actions[0]), actions[1..], id);
    }
  }

  lemma OverStep(s: State, a: Action, id: Id)
    requires Over(s) && id in s.channels
    ensures var s' := Step(s, a);
      && Over(s') && s'.accepted == s.accepted && id in s'.channels
      && s'.channels[id] == After(s.channels[id], [a], id)
  {
  }

  /** Nothing that was received is lost, it only may stay in the queue. */
  lemma {:induction false} AfterReceived(ch: Channel, actions: seq<Action>, id: Id)
    requires ChannelOk(ch)
    ensures var r := After(ch, actions, id);
      ChannelOk(r) && Received(r) == Received(ch) && (ch.consumer.Ended? ==> r.consumer.Ended? && r.queue == ch.queue)
    ensures ch.marked ==> After(ch, actions, id).marked
    decreases |actions|
  {
    if actions != [] {
      ConsumerKeeps(ch);
      var next := if actions[0] == Read(id) then Consume(ch) else if actions[0] == Leave(id) then Quit(ch) else ch;
      AfterReceived(next, actions[1..], id);
    }
  }

  /** The channel is drained if nothing is queued, or one message for which the consumer is waiting already. */
  predicate Drains(ch: Channel, actions: seq<Action>, id: Id) {
    || ch.queue == []
    || (|ch.queue| == 1 && ch.consumer.Waiting? && !ch.closed && StaysNext(actions, id))
  }

  lemma {:induction false} DrainsIff(ch: Channel, actions: seq<Action>, id: Id)
    requires ChannelOk(ch) && ch.marked && After(ch, actions, id).consumer.Ended?
    ensures After(ch, actions, id).queue == [] <==> Drains(ch, actions, id)
    decreases |actions|
  {
    if ch.consumer.Ended? {
      AfterReceived(ch, actions, id);
    } else {
      ConsumerKeeps(ch);
      var next := if actions[0] == Read(id) then Consume(ch) else if actions[0] == Leave(id) then Quit(ch) else ch;
      DrainsIff(next, actions[1..], id);
    }
  }

  // ------------------------------------------------------------ the end of a stream

  /**
   Whatever happens after the last message: a consumer that has ended has read all its
   channel wants of the stream exactly when the channel drains, and else misses at most
   the 100 messages that fit the channel.
   */
  lemma ReadAllIff(capacity: nat, steps: map<Id, int>, open: seq<Id>, before: seq<Action>, after: seq<Action>, id: Id)
    requires LastBroadcast(capacity, steps, open, before, id)
    requires var s := Run(Initial(capacity, steps, open), before);
      id in s.channels && After(Mark(s.channels[id]), after, id).consumer.Ended?
    ensures var s := Run(Initial(capacity, steps, open), before);
      var t := Run(Step(s, Finish), after);
      && id in t.channels && t.accepted == s.accepted
      && var all, ch := Wanted(t.accepted, steps[id]), t.channels[id];
      && (ch.consumed == all <==> Drains(s.channels[id], after, id))
      && ch.consumer.Ended? && ch.consumed <= all && |all| <= |ch.consumed| + 100
  {
    var s0 := Initial(capacity, steps, open);
    var s := Run(s0, before);
    var ch := Mark(s.channels[id]);
    LastMessageReachesOpenChannels(capacity, steps, open, before, id);
    InitialInv(capacity, steps, open);
    RunKeeps(s0, before);
    ClosedByFinish(s, id);
    hide Inv, Conserved, Run, Initial, Wanted, LastBroadcast, After, Drains, ChannelOk;
    OverStays(Step(s, Finish), after, id);
    AfterReceived(ch, after, id);
    DrainsIff(ch, after, id);
    MarkDrains(s.channels[id], after, id);
    QueueFits(After(ch, after, id));
  }

  lemma ClosedByFinish(s: State, id: Id)
    requires Inv(s) && s.stream.StreamOver? && id in s.open
    requires s.dispatch.Broadcasting? && s.dispatch.rest == [] && s.dispatch.msg.isLast
    ensures var s' := Step(s, Finish);
      && Over(s') && s'.accepted == s.accepted && id in s.channels && id in s'.channels
      && s'.channels[id] == Mark(s.channels[id]) && ChannelOk(Mark(s.channels[id]))
      && Received(Mark(s.channels[id])) == Received(s.channels[id])
  {
    assert Conserved(s, id);
  }

  lemma MarkDrains(ch: Channel, actions: seq<Action>, id: Id)
    ensures Drains(Mark(ch), actions, id) == Drains(ch, actions, id)
  {
  }

  lemma QueueFits(ch: Channel)
    requires ChannelOk(ch)
    ensures |ch.queue| <= CHANNEL_SIZE && Received(ch) == ch.consumed + ch.queue
    ensures ch.queue == [] <==> ch.consumed == Received(ch)
  {
    if ch.queue == [] {
      assert ch.consumed + ch.queue == ch.consumed;
    }
  }

  // ------------------------------------------------------------ a run that loses them

  /** n messages without an image, the last of them marked so if it is number n. */
  function Plain(k: nat, n: nat): (ms: seq<Message>)
    ensures |ms| == k
  {
    if k == 0 then [] else Plain(k - 1, n) + [Message(k - 1, false, k == n)]
  }

  lemma {:induction false} PlainWanted(k: nat, n: nat)
    ensures Wanted(Plain(k, n), 1) == Plain(k, n)
  {
    if k > 0 {
      PlainWanted(k - 1, n);
      assert Plain(k, n)[..k - 1] == Plain(k - 1, n);
    }
  }

  /** One channel of step 1 that nobody reads, with these messages in its queue. */
  function Fed(queue: seq<Message>, stream: StreamTask, dispatch: DispatchTask): State {
    State(false, 1, [], stream, dispatch, map[0 := Channel(1, queue, false, false, Checking, [], 0)], [0], queue, queue)
  }

  function Feeding(m: Message): seq<Action> {
    [Offer(m), Send, Poll, Deliver]
  }

  lemma FeedsOne(queue: seq<Message>, m: Message)
    requires |queue| < CHANNEL_SIZE && !m.hasImage
    ensures Run(Fed(queue, Idle, Polling), Feeding(m))
         == Fed(queue + [m], if m.isLast then StreamOver else Idle, Broadcasting(m, []))
  {
    var s0 := Fed(queue, Idle, Polling);
    var s1, over := Step(s0, Offer(m)), if m.isLast then StreamOver else Idle;
    var s2 := Step(s1, Send);
    assert s2 == s0.(stream := over, cache := [m], accepted := queue + [m]);
    var s3 := Step(s2, Poll);
    assert s3 == Fed(queue, over, Broadcasting(m, [0])).(accepted := queue + [m], dispatched := queue + [m]);
    var s4 := Step(s3, Deliver);
    assert [0][1..] == [] && s4.channels == Fed(queue + [m], over, Polling).channels;
    assert s4 == Fed(queue + [m], over, Broadcasting(m, []));
    RunsFour(s0, Feeding(m));
  }

  lemma RunsFour(s: State, actions: seq<Action>)
    requires |actions| == 4
    ensures Run(s, actions) == Step(Step(Step(Step(s, actions[0]), actions[1]), actions[2]), actions[3])
  {
    hide Step;
    var s1 := Step(s, actions[0]);
    var s2 := Step(s1, actions[1]);
    var s3 := Step(s2, actions[2]);
    assert Run(s3, actions[3..]) == Step(s3, actions[3]);
    assert actions[2..][1..] == actions[3..];
    assert Run(s2, actions[2..]) == Run(s3, actions[3..]);
    assert actions[1..][1..] == actions[2..];
    assert Run(s1, actions[1..]) == Run(s2, actions[2..]);
  }

  lemma {:induction false} RunAppend(s: State, a: seq<Action>, b: seq<Action>)
    ensures Run(s, a + b) == Run(Run(s, a), b)
    decreases |a|
  {
    hide Step;
    if a == [] {
      assert a + b == b;
    } else {
      assert (a + b)[1..] == a[1..] + b;
      RunAppend(Step(s, a[0]), a[1..], b);
    }
  }

  /** Messages before the last fill the queue one by one. */
  lemma {:induction false} FeedsMany(k: nat, n: nat) returns (actions: seq<Action>)
    requires k < n <= CHANNEL_SIZE
    ensures Run(Initial(1, map[0 := 1], [0]), actions) == Fed(Plain(k, n), Idle, Polling)
  {
    actions := [];
    if k == 0 {
      assert Initial(1, map[0 := 1], [0]).channels == map[0 := NewChannel(1)];
    } else {
      var before := FeedsMany(k - 1, n);
      var m := Message(k - 1, false, false);
      actions := before + Feeding(m) + [Finish];
      FeedsOne(Plain(k - 1, n), m);
      FinishOne(Plain(k, n), m);
      hide Step, Initial, Feeding;
      RunAppend(Initial(1, map[0 := 1], [0]), before + Feeding(m), [Finish]);
      RunAppend(Initial(1, map[0 := 1], [0]), before, Feeding(m));
    }
  }

  lemma FinishOne(queue: seq<Message>, m: Message)
    requires !m.isLast
    ensures Run(Fed(queue, Idle, Broadcasting(m, [])), [Finish]) == Fed(queue, Idle, Polling)
  {
    assert [Finish][1..] == [];
  }

  /** For every number up to 100 there is a run whose consumer ends without having read that many queued messages. */
  lemma LosingRun(n: nat) returns (before: seq<Action>)
    requires 1 <= n <= 100
    ensures LastBroadcast(1, map[0 := 1], [0], before, 0)
    ensures var t := Run(Step(Run(Initial(1, map[0 := 1], [0]), before), Finish), [Read(0)]);
      && 0 in t.channels && t.channels[0].consumer.Ended? && t.channels[0].consumed == []
      && |Wanted(t.accepted, 1)| == n
  {
    var front := FeedsMany(n - 1, n);
    var m := Message(n - 1, false, true);
    before := front + Feeding(m);
    RunAppend(Initial(1, map[0 := 1], [0]), front, Feeding(m));
    FeedsOne(Plain(n - 1, n), m);
    PlainWanted(n, n);
    LosesQueue(Plain(n, n), m);
  }

  lemma LosesQueue(queue: seq<Message>, m: Message)
    requires m.isLast
    ensures var t := Run(Step(Fed(queue, StreamOver, Broadcasting(m, [])), Finish), [Read(0)]);
      && 0 in t.channels && t.channels[0].consumer.Ended? && t.channels[0].consumed == [] && t.accepted == queue
  {
    assert [Read(0)][1..] == [];
  }
}
