/**
 The media pipeline of one task as a state machine: the stream task fills a bounded cache,
 the dispatch task fans messages out to bounded channels, consumers read the channels in
 their own threads, and anybody may force a stop. One action is what runs between two
 points where the others can interleave; channel puts and gets are actions of their own.
 */
module Pipeline {
  import opened Sequences

  type Id = int

  datatype Message = Message(id: int, hasImage: bool, isLast: bool)

  const CHANNEL_SIZE := 100

  // ------------------------------------------------------------ channels

  /** Where a consumer's generator stands: about to look at the closing mark, waiting for a message, or ended. */
  datatype Consumer = Checking | Waiting | Ended

  /**
   A frame channel and its consumer. `consumed` and `late` are history: what the consumer
   got, and how many messages it got after the channel was marked closed.
   */
  datatype Channel = Channel(step: int, queue: seq<Message>, marked: bool, closed: bool,
                             consumer: Consumer, consumed: seq<Message>, late: nat)

  function NewChannel(step: int): Channel {
    Channel(step, [], false, false, Checking, [], 0)
  }

  datatype InputResult = Accepted | Stopped | Full

  /** `FrameChannel.input` */
  function Input(ch: Channel, m: Message): (InputResult, Channel) {
    if ch.closed || ch.marked then (Stopped, ch)
    else if |ch.queue| >= CHANNEL_SIZE then (Full, ch)
    else (Accepted, ch.(queue := ch.queue + [m]))
  }

  /** `FrameChannel.mark_close` */
  function Mark(ch: Channel): Channel {
    ch.(marked := true)
  }

  /** One step of the loop in `FrameChannel.output`. */
  function Consume(ch: Channel): Channel {
    match ch.consumer
    case Checking => if ch.marked then Quit(ch) else ch.(consumer := Waiting)
    case Waiting =>
      if ch.closed then Quit(ch)
      else if ch.queue == [] then ch.(consumer := Checking)
      else ch.(consumer := Checking, queue := ch.queue[1..], consumed := ch.consumed + [ch.queue[0]],
               late := if ch.marked then ch.late + 1 else ch.late)
    case Ended => ch
  }

  /** The generator ends, by itself or closed by its consumer, and closes the queue. */
  function Quit(ch: Channel): Channel {
    ch.(consumer := Ended, closed := true)
  }

  // ------------------------------------------------------------ the stream

  /**
   `Told`: no channel being left, the source was told to stop after a message without an
   image. The FFmpeg source does not listen to the answer to its audio message, so it may
   still hand over another one.
   */
  datatype StreamTask = Idle | Sending(msg: Message) | Told | StreamOver

  datatype DispatchTask = Polling | Broadcasting(msg: Message, rest: seq<Id>) | DispatchOver

  /** `accepted` and `dispatched` are history; `open` lists the registered channels in order. */
  datatype State = State(
    stopped: bool, capacity: nat, cache: seq<Message>,
    stream: StreamTask, dispatch: DispatchTask,
    channels: map<Id, Channel>, open: seq<Id>,
    accepted: seq<Message>, dispatched: seq<Message>)

  function Initial(capacity: nat, steps: map<Id, int>, open: seq<Id>): State {
    State(false, capacity, [], Idle, Polling, map id | id in steps :: NewChannel(steps[id]), open, [], [])
  }

  function Without(ids: seq<Id>, id: Id): (r: seq<Id>)
    ensures forall x :: x in r <==> x in ids && x != id
  {
    if ids == [] then [] else (if ids[0] == id then [] else [ids[0]]) + Without(ids[1..], id)
  }

  /** `_remove_channel` */
  function Remove(s: State, id: Id): State
    requires id in s.channels
  {
    s.(channels := s.channels[id := Mark(s.channels[id])], open := Without(s.open, id))
  }

  /** `_close_all_channels` */
  function CloseAll(s: State): State {
    s.(channels := map id | id in s.channels :: if id in s.open then Mark(s.channels[id]) else s.channels[id],
       open := [])
  }

  /** `force_stop`: both tasks are cancelled where they wait. */
  function ForceStop(s: State): State {
    CloseAll(s).(stopped := true, stream := StreamOver, dispatch := DispatchOver)
  }

  datatype Action =
    | Offer(msg: Message)     // the source hands over its next message
    | Send                    // the stream task tries to cache it
    | Poll                    // the dispatch task looks for a message
    | Deliver                 // ... and serves the next channel
    | Finish                  // ... and is done with the message
    | Stop                    // force_stop, from outside or from the stream task's exception handler
    | Read(id: Id)            // a consumer takes one step
    | Leave(id: Id)           // a consumer closes its generator

  /** `_should_skip`, when the modulo is defined. */
  predicate Skips(m: Message, step: int)
    requires step != 0
  {
    m.hasImage && m.id % step != 0
  }

  /** The `%` of `_should_skip` raises, because a channel's step is 0. */
  predicate Raises(m: Message, step: int) {
    m.hasImage && step == 0
  }

  /** `_on_message` once the cache lock is held. A cache without slots raises, which ends in `force_stop`. */
  function SendStep(s: State, m: Message): State {
    if s.capacity == 0 then ForceStop(s)
    else if |s.cache| >= s.capacity then s
    else s.(cache := s.cache + [m], accepted := s.accepted + [m],
            stream := Answered(m, s.open != []))
  }

  /** What the source does after a message was cached. */
  function Answered(m: Message, anyOpen: bool): StreamTask {
    if m.isLast then StreamOver else if anyOpen then Idle else if m.hasImage then StreamOver else Told
  }

  /** One round of `_dispatch` up to the broadcast. */
  function PollStep(s: State): State {
    if s.stopped then s.(dispatch := DispatchOver)
    else if s.cache == [] then s
    else s.(cache := s.cache[1..], dispatched := s.dispatched + [s.cache[0]],
            dispatch := Broadcasting(s.cache[0], s.open))
  }

  /** One channel of `_broadcast`. A KeyError or ZeroDivisionError ends in `force_stop`. */
  function DeliverStep(s: State, m: Message, id: Id, rest: seq<Id>): State {
    if id !in s.channels then ForceStop(s)
    else
      var ch := s.channels[id];
      if Raises(m, ch.step) then ForceStop(s)
      else if m.hasImage && Skips(m, ch.step) then s.(dispatch := Broadcasting(m, rest))
      else if id !in s.open then ForceStop(s)
      else
        var (result, ch') := Input(ch, m);
        match result
        case Full => s
        case Accepted => s.(channels := s.channels[id := ch'], dispatch := Broadcasting(m, rest))
        case Stopped => Remove(s, id).(dispatch := Broadcasting(m, rest))
  }

  /** What `_dispatch` does after a broadcast. */
  function FinishStep(s: State, m: Message): State {
    if m.isLast then CloseAll(s).(dispatch := DispatchOver)
    else if s.open == [] then s.(dispatch := DispatchOver)
    else s.(dispatch := Polling)
  }

  /** One action; an action whose turn it is not changes nothing. */
  function Step(s: State, a: Action): State {
    match a
    case Offer(m) =>
      if s.stream.Idle? || s.stream.Told? then s.(stream := if s.stopped then StreamOver else Sending(m)) else s
    case Send => if s.stream.Sending? then SendStep(s, s.stream.msg) else s
    case Poll => if s.dispatch.Polling? then PollStep(s) else s
    case Deliver =>
      if s.dispatch.Broadcasting? && s.dispatch.rest != []
      then DeliverStep(s, s.dispatch.msg, s.dispatch.rest[0], s.dispatch.rest[1..]) else s
    case Finish => if s.dispatch.Broadcasting? && s.dispatch.rest == [] then FinishStep(s, s.dispatch.msg) else s
    case Stop => ForceStop(s)
    case Read(id) => if id in s.channels then s.(channels := s.channels[id := Consume(s.channels[id])]) else s
    case Leave(id) => if id in s.channels then s.(channels := s.channels[id := Quit(s.channels[id])]) else s
  }

  /** A run: any interleaving at all. */
  function Run(s: State, actions: seq<Action>): State
    decreases |actions|
  {
    if actions == [] then s else Run(Step(s, actions[0]), actions[1..])
  }

  // ------------------------------------------------------------ what holds in every state

  /** The messages a channel with this step is meant to get. */
  function Wanted(ms: seq<Message>, step: int): seq<Message> {
    if ms == [] then []
    else
      var m := ms[|ms| - 1];
      Wanted(ms[..|ms| - 1], step) + (if m.hasImage && (step == 0 || Skips(m, step)) then [] else [m])
  }

  /** The dispatched messages whose broadcast has passed channel `id`. */
  function Passed(s: State, id: Id): seq<Message> {
    if s.dispatch.Broadcasting? && id in s.dispatch.rest && s.dispatched != [] then s.dispatched[..|s.dispatched| - 1]
    else s.dispatched
  }

  /** What went into the channel: read, or still queued. */
  function Received(ch: Channel): seq<Message> {
    ch.consumed + ch.queue
  }

  /** One channel, seen alone. */
  ghost predicate ChannelOk(ch: Channel) {
    && |ch.queue| <= CHANNEL_SIZE
    && (ch.consumer.Ended? ==> ch.closed)
    && ch.late <= 1 && (!ch.marked ==> ch.late == 0) && (ch.late == 1 ==> !ch.consumer.Waiting?)
  }

  /** Open channels got exactly what was dispatched past them; removed ones a beginning of it. */
  ghost predicate Conserved(s: State, id: Id)
    requires id in s.channels
  {
    var ch := s.channels[id];
    if id in s.open then !ch.marked && Received(ch) == Wanted(Passed(s, id), ch.step)
    else ch.marked && Received(ch) <= Wanted(s.dispatched, ch.step)
  }

  ghost predicate Inv(s: State) {
    && s.accepted == s.dispatched + s.cache && |s.cache| <= s.capacity
    && Distinct(s.open) && (forall id :: id in s.open ==> id in s.channels)
    && (forall id :: id in s.channels ==> ChannelOk(s.channels[id]) && Conserved(s, id))
    && (s.dispatch.Broadcasting? ==>
          && s.dispatched != [] && s.dispatched[|s.dispatched| - 1] == s.dispatch.msg
          && Distinct(s.dispatch.rest) && (forall id :: id in s.dispatch.rest ==> id in s.open))
  }

  lemma InitialInv(capacity: nat, steps: map<Id, int>, open: seq<Id>)
    requires Distinct(open) && forall id :: id in steps <==> id in open
    ensures Inv(Initial(capacity, steps, open))
  {
  }

  // ------------------------------------------------------------ every action keeps it

  lemma WantedSnoc(ms: seq<Message>, m: Message, step: int)
    ensures Wanted(ms + [m], step)
      == Wanted(ms, step) + (if m.hasImage && (step == 0 || Skips(m, step)) then [] else [m])
    ensures Wanted(ms, step) <= Wanted(ms + [m], step)
  {
    assert (ms + [m])[..|ms|] == ms;
  }

  lemma WithoutDistinct(ids: seq<Id>, id: Id)
    requires Distinct(ids)
    ensures Distinct(Without(ids, id))
  {
    if ids != [] {
      WithoutDistinct(ids[1..], id);
      var rest := Without(ids[1..], id);
      assert forall i | 0 <= i < |rest| :: rest[i] in ids[1..];
    }
  }

  lemma SendKeeps(s: State, m: Message)
    requires Inv(s)
    ensures Inv(SendStep(s, m))
  {
    CloseAllKeeps(s);
    assert s.dispatched + s.cache + [m] == s.dispatched + (s.cache + [m]);
  }

  lemma PollKeeps(s: State)
    requires Inv(s) && s.dispatch.Polling?
    ensures Inv(PollStep(s))
  {
    var s' := PollStep(s);
    if !s.stopped && s.cache != [] {
      assert s'.dispatched + s'.cache == s.dispatched + s.cache;
      assert s'.dispatched[..|s'.dispatched| - 1] == s.dispatched;
      forall id | id in s'.channels ensures Conserved(s', id) {
        assert Conserved(s, id);
        WantedSnoc(s.dispatched, s.cache[0], s.channels[id].step);
      }
    }
  }

  lemma CloseAllConserves(s: State, id: Id)
    requires Inv(s) && id in s.channels
    ensures Conserved(CloseAll(s).(dispatch := DispatchOver), id) && ChannelOk(CloseAll(s).channels[id])
  {
    assert Conserved(s, id);
    var ch := s.channels[id];
    if id in s.open && s.dispatched != [] {
      var n := |s.dispatched| - 1;
      assert s.dispatched == s.dispatched[..n] + [s.dispatched[n]];
      WantedSnoc(s.dispatched[..n], s.dispatched[n], ch.step);
    }
  }

  lemma CloseAllKeeps(s: State)
    requires Inv(s)
    ensures Inv(CloseAll(s).(dispatch := DispatchOver)) && Inv(ForceStop(s))
  {
    forall id | id in s.channels
      ensures Conserved(CloseAll(s).(dispatch := DispatchOver), id) && ChannelOk(CloseAll(s).channels[id])
      ensures Conserved(ForceStop(s), id)
    {
      CloseAllConserves(s, id);
    }
  }

  /** What the dispatch task sees when it is about to serve a channel. */
  lemma ServedNext(s: State)
    requires Inv(s) && s.dispatch.Broadcasting? && s.dispatch.rest != []
    ensures var id := s.dispatch.rest[0]; id in s.open && id in s.channels && id !in s.dispatch.rest[1..]
    ensures forall x :: x in s.dispatch.rest <==> x == s.dispatch.rest[0] || x in s.dispatch.rest[1..]
  {
    var rest := s.dispatch.rest;
    assert rest == [rest[0]] + rest[1..];
    assert rest[0] in rest;
  }

  /** For the channels not served now, moving on in the broadcast changes nothing. */
  lemma OthersConserved(s: State, s': State, id: Id, x: Id)
    requires Inv(s) && s.dispatch.Broadcasting? && s.dispatch.rest != [] && id == s.dispatch.rest[0]
    requires s'.dispatch == Broadcasting(s.dispatch.msg, s.dispatch.rest[1..]) && s'.dispatched == s.dispatched
    requires x != id && x in s.channels && x in s'.channels && s'.channels[x] == s.channels[x]
    requires x in s'.open <==> x in s.open
    ensures ChannelOk(s'.channels[x]) && Conserved(s', x)
  {
    ServedNext(s);
    assert Conserved(s, x);
    assert Passed(s', x) == Passed(s, x);
  }

  lemma DeliverKeeps(s: State)
    requires Inv(s) && s.dispatch.Broadcasting? && s.dispatch.rest != []
    ensures Inv(DeliverStep(s, s.dispatch.msg, s.dispatch.rest[0], s.dispatch.rest[1..]))
  {
    var m, id, rest := s.dispatch.msg, s.dispatch.rest[0], s.dispatch.rest[1..];
    var s', ch, n := DeliverStep(s, m, id, rest), s.channels[id], |s.dispatched| - 1;
    ServedNext(s);
    if Raises(m, ch.step) {
      CloseAllKeeps(s);
    } else if s' != s {
      assert s.dispatched == s.dispatched[..n] + [m];
      WantedSnoc(s.dispatched[..n], m, ch.step);
      assert Conserved(s, id);
      ServedConserved(s);
      WithoutDistinct(s.open, id);
      forall x | x in s'.channels ensures ChannelOk(s'.channels[x]) && Conserved(s', x) {
        if x != id {
          OthersConserved(s, s', id, x);
        }
      }
    }
  }

  /** The channel served now, once the broadcast has passed it. */
  ghost predicate Passing(s: State, m: Message, id: Id, rest: seq<Id>) {
    && id in s.channels && id in s.open && ChannelOk(s.channels[id]) && id !in rest
    && s.dispatched != [] && s.dispatched[|s.dispatched| - 1] == m
    && !s.channels[id].marked
    && Received(s.channels[id]) == Wanted(s.dispatched[..|s.dispatched| - 1], s.channels[id].step)
  }

  /** What a channel wants of the message just dispatched. */
  lemma WantedLast(s: State, m: Message, id: Id, rest: seq<Id>)
    requires Passing(s, m, id, rest)
    ensures var ch := s.channels[id];
      && Wanted(s.dispatched, ch.step)
           == Received(ch) + (if m.hasImage && (ch.step == 0 || Skips(m, ch.step)) then [] else [m])
      && Received(ch) <= Wanted(s.dispatched, ch.step)
  {
    var n := |s.dispatched| - 1;
    assert s.dispatched == s.dispatched[..n] + [m];
    WantedSnoc(s.dispatched[..n], m, s.channels[id].step);
  }

  lemma AcceptedConserved(s: State, m: Message, id: Id, rest: seq<Id>)
    requires Passing(s, m, id, rest) && !(m.hasImage && (s.channels[id].step == 0 || Skips(m, s.channels[id].step)))
    requires |s.channels[id].queue| < CHANNEL_SIZE
    ensures var ch := s.channels[id].(queue := s.channels[id].queue + [m]);
      var s' := s.(channels := s.channels[id := ch], dispatch := Broadcasting(m, rest));
      ChannelOk(ch) && Conserved(s', id)
  {
    WantedLast(s, m, id, rest);
    var ch := s.channels[id];
    assert ch.consumed + (ch.queue + [m]) == ch.consumed + ch.queue + [m];
  }

  lemma RemovedConserved(s: State, m: Message, id: Id, rest: seq<Id>)
    requires Passing(s, m, id, rest)
    ensures var s' := Remove(s, id).(dispatch := Broadcasting(m, rest));
      ChannelOk(s'.channels[id]) && Conserved(s', id)
  {
    WantedLast(s, m, id, rest);
    assert Received(Mark(s.channels[id])) == Received(s.channels[id]);
  }

  lemma SkippedConserved(s: State, m: Message, id: Id, rest: seq<Id>)
    requires Passing(s, m, id, rest) && m.hasImage && s.channels[id].step != 0 && Skips(m, s.channels[id].step)
    ensures Conserved(s.(dispatch := Broadcasting(m, rest)), id)
  {
    WantedLast(s, m, id, rest);
    assert Received(s.channels[id]) + [] == Received(s.channels[id]);
  }

  /** The channel served now gets the message exactly when it wants it, or is removed. */
  lemma ServedConserved(s: State)
    requires Inv(s) && s.dispatch.Broadcasting? && s.dispatch.rest != []
    ensures var m, id, rest := s.dispatch.msg, s.dispatch.rest[0], s.dispatch.rest[1..];
      var s' := DeliverStep(s, m, id, rest);
      id in s.channels && id in s.open
      && (!Raises(m, s.channels[id].step) && s' != s ==>
            s'.dispatch == Broadcasting(m, rest) && ChannelOk(s'.channels[id]) && Conserved(s', id))
  {
    var m, id, rest := s.dispatch.msg, s.dispatch.rest[0], s.dispatch.rest[1..];
    ServedNext(s);
    var ch := s.channels[id];
    assert Conserved(s, id);
    assert Passing(s, m, id, rest);
    hide Inv, ChannelOk, Conserved, Wanted, Passing, Distinct;
    if !Raises(m, ch.step) {
      if m.hasImage && Skips(m, ch.step) {
        SkippedConserved(s, m, id, rest);
        PassingOk(s, m, id, rest);
      } else if Input(ch, m).0.Accepted? {
        AcceptedConserved(s, m, id, rest);
      } else if Input(ch, m).0.Stopped? {
        RemovedConserved(s, m, id, rest);
      }
    }
  }

  lemma PassingOk(s: State, m: Message, id: Id, rest: seq<Id>)
    requires Passing(s, m, id, rest)
    ensures ChannelOk(s.channels[id])
  {
  }

  lemma FinishKeeps(s: State)
    requires Inv(s) && s.dispatch.Broadcasting? && s.dispatch.rest == []
    ensures Inv(FinishStep(s, s.dispatch.msg))
  {
    CloseAllKeeps(s);
    var s' := FinishStep(s, s.dispatch.msg);
    if !s.dispatch.msg.isLast {
      forall id | id in s'.channels ensures Conserved(s', id) {
        assert Conserved(s, id);
      }
    }
  }

  /** A consumer only moves messages from the queue's front to the end of what it has read. */
  lemma ConsumerKeeps(ch: Channel)
    requires ChannelOk(ch)
    ensures ChannelOk(Consume(ch)) && Received(Consume(ch)) == Received(ch)
    ensures ChannelOk(Quit(ch)) && Received(Quit(ch)) == Received(ch)
    ensures ch.consumed <= Consume(ch).consumed <= ch.consumed + ch.queue
    ensures ch.consumer.Ended? ==> Consume(ch) == ch
  {
    if ch.queue != [] {
      assert ch.consumed + [ch.queue[0]] + ch.queue[1..] == ch.consumed + ch.queue;
    }
  }

  lemma ConsumerStepKeeps(s: State, id: Id, ch: Channel)
    requires Inv(s) && id in s.channels && (ch == Consume(s.channels[id]) || ch == Quit(s.channels[id]))
    ensures Inv(s.(channels := s.channels[id := ch]))
  {
    var s' := s.(channels := s.channels[id := ch]);
    ConsumerKeeps(s.channels[id]);
    forall x | x in s'.channels ensures ChannelOk(s'.channels[x]) && Conserved(s', x) {
      assert Conserved(s, x);
      assert Passed(s', x) == Passed(s, x);
    }
  }

  lemma StepKeeps(s: State, a: Action)
    requires Inv(s)
    ensures Inv(Step(s, a))
  {
    hide Conserved, ChannelOk;
    match a {
      case Offer(m) => OfferKeeps(s, m);
      case Send => if s.stream.Sending? { SendKeeps(s, s.stream.msg); }
      case Poll => if s.dispatch.Polling? { PollKeeps(s); }
      case Deliver => if s.dispatch.Broadcasting? && s.dispatch.rest != [] { DeliverKeeps(s); }
      case Finish => if s.dispatch.Broadcasting? && s.dispatch.rest == [] { FinishKeeps(s); }
      case Stop => CloseAllKeeps(s);
      case Read(id) => if id in s.channels { ConsumerStepKeeps(s, id, Consume(s.channels[id])); }
      case Leave(id) => if id in s.channels { ConsumerStepKeeps(s, id, Quit(s.channels[id])); }
    }
  }

  lemma OfferKeeps(s: State, m: Message)
    requires Inv(s)
    ensures Inv(Step(s, Offer(m)))
  {
    forall id | id in s.channels ensures Conserved(Step(s, Offer(m)), id) {
      assert Conserved(s, id);
    }
  }

  lemma {:induction false} RunKeeps(s: State, actions: seq<Action>)
    requires Inv(s)
    ensures Inv(Run(s, actions))
    decreases |actions|
  {
    if actions != [] {
      StepKeeps(s, actions[0]);
      RunKeeps(Step(s, actions[0]), actions[1..]);
    }
  }

  // ------------------------------------------------------------ the results

  /** Nothing accepted is lost, repeated or reordered between the source and the dispatcher. */
  lemma CacheConserves(capacity: nat, steps: map<Id, int>, open: seq<Id>, actions: seq<Action>)
    requires Distinct(open) && forall id :: id in steps <==> id in open
    ensures var s := Run(Initial(capacity, steps, open), actions);
      s.accepted == s.dispatched + s.cache && |s.cache| <= capacity
  {
    InitialInv(capacity, steps, open);
    RunKeeps(Initial(capacity, steps, open), actions);
    RunConstant(Initial(capacity, steps, open), actions);
  }

  /**
   In every interleaving: an open channel has got exactly the messages it wants of those
   dispatched past it, in order; a consumer always has a beginning of what it wants; and
   after a channel is marked closed its consumer gets one more message at most.
   */
  lemma ChannelsConserve(capacity: nat, steps: map<Id, int>, open: seq<Id>, actions: seq<Action>, id: Id)
    requires Distinct(open) && (forall x :: x in steps <==> x in open) && id in steps
    ensures var s := Run(Initial(capacity, steps, open), actions);
      && id in s.channels && s.channels[id].step == steps[id]
      && var ch := s.channels[id];
      && (id in s.open ==> Received(ch) == Wanted(Passed(s, id), steps[id]))
      && ch.consumed <= Received(ch) <= Wanted(s.dispatched, steps[id])
      && |ch.queue| <= 100 && ch.late <= 1
  {
    var s0 := Initial(capacity, steps, open);
    InitialInv(capacity, steps, open);
    RunKeeps(s0, actions);
    RunConstant(s0, actions);
    var s := Run(s0, actions);
    assert s0.channels[id].step == steps[id];
    hide Run, Step, Initial;
    assert Conserved(s, id) && ChannelOk(s.channels[id]);
    if s.dispatched != [] {
      var n := |s.dispatched| - 1;
      assert s.dispatched == s.dispatched[..n] + [s.dispatched[n]];
      WantedSnoc(s.dispatched[..n], s.dispatched[n], steps[id]);
    }
  }

  /** Actions never change the capacity, the set of channels or their steps. */
  ghost predicate SameSetup(s: State, t: State) {
    && s.capacity == t.capacity && s.channels.Keys == t.channels.Keys
    && forall id :: id in s.channels ==> s.channels[id].step == t.channels[id].step
  }

  lemma StepConstant(s: State, a: Action)
    ensures SameSetup(s, Step(s, a))
  {
  }

  lemma {:induction false} RunConstant(s: State, actions: seq<Action>)
    ensures SameSetup(s, Run(s, actions))
    decreases |actions|
  {
    if actions != [] {
      StepConstant(s, actions[0]);
      RunConstant(Step(s, actions[0]), actions[1..]);
    }
  }

  /** Only the newest accepted message can be the last one, and after it the source hands over no more. */
  ghost predicate LastIsLast(s: State) {
    && (s.stream.StreamOver? || forall i | 0 <= i < |s.accepted| :: !s.accepted[i].isLast)
    && forall i | 0 <= i < |s.accepted| - 1 :: !s.accepted[i].isLast
  }

  lemma {:induction false} RunKeepsLast(s: State, actions: seq<Action>)
    requires LastIsLast(s)
    ensures LastIsLast(Run(s, actions))
    decreases |actions|
  {
    if actions != [] {
      StepKeepsLast(s, actions[0]);
      RunKeepsLast(Step(s, actions[0]), actions[1..]);
    }
  }

  lemma StepKeepsLast(s: State, a: Action)
    requires LastIsLast(s)
    ensures LastIsLast(Step(s, a))
  {
  }

  /** The run up to the moment when the last message has been broadcast, and a channel that is still open then. */
  ghost predicate LastBroadcast(capacity: nat, steps: map<Id, int>, open: seq<Id>, actions: seq<Action>, id: Id) {
    && Distinct(open) && (forall x :: x in steps <==> x in open) && id in steps
    && var s := Run(Initial(capacity, steps, open), actions);
       s.dispatch.Broadcasting? && s.dispatch.rest == [] && s.dispatch.msg.isLast && id in s.open
  }

  /**
   In every interleaving: when the last message has been broadcast, nothing is left in the
   cache, the source hands over no more, and every channel still open has received all it
   wants of the whole stream.
   */
  lemma LastMessageReachesOpenChannels(capacity: nat, steps: map<Id, int>, open: seq<Id>, actions: seq<Action>, id: Id)
    requires LastBroadcast(capacity, steps, open, actions, id)
    ensures var s := Run(Initial(capacity, steps, open), actions);
      && s.cache == [] && s.stream.StreamOver? && id in s.channels
      && Received(s.channels[id]) == Wanted(s.accepted, steps[id])
  {
    var s0 := Initial(capacity, steps, open);
    var s := Run(s0, actions);
    InitialInv(capacity, steps, open);
    RunKeeps(s0, actions);
    RunKeepsLast(s0, actions);
    ChannelsConserve(capacity, steps, open, actions, id);
    hide Run, Initial, Wanted;
    var n := |s.dispatched| - 1;
    assert s.accepted[n] == s.dispatched[n] == s.dispatch.msg;
    assert n == |s.accepted| - 1;
    assert s.dispatched == s.accepted;
  }

  /** The dispatcher fails on a message exactly when it has an image and the channel's step is 0. */
  lemma DeliverFailsIff(s: State)
    requires Inv(s) && s.dispatch.Broadcasting? && s.dispatch.rest != []
    ensures s.dispatch.rest[0] in s.channels
    ensures Step(s, Deliver).dispatch.DispatchOver? <==> Raises(s.dispatch.msg, s.channels[s.dispatch.rest[0]].step)
  {
    ServedNext(s);
  }

  /** After `force_stop` nothing is dispatched or accepted any more. */
  lemma {:induction false} StoppedStays(s: State, actions: seq<Action>)
    requires s.stopped && s.stream.StreamOver? && s.dispatch.DispatchOver?
    ensures var t := Run(s, actions);
      t.stopped && t.accepted == s.accepted && t.dispatched == s.dispatched && t.cache == s.cache
    decreases |actions|
  {
    if actions != [] {
      StoppedStays(Step(s, actions[0]), actions[1..]);
    }
  }
}
