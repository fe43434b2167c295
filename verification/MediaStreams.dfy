/**
 The objects of the media pipeline. Each method is what one task runs between two awaits,
 and does to the objects exactly what its action does to the pipeline's abstract state.
 */
module MediaStreams {
  import opened Texts
  import opened RingBuffer
  import P = Pipeline

  type Message = P.Message

  class FrameChannel {
    const step: int
    var queue: seq<Message>
    var markClosed: bool
    var queueClosed: bool
    var consumer: P.Consumer
    ghost var consumed: seq<Message>
    ghost var late: nat

    constructor (step: int)
      ensures State() == P.NewChannel(step)
    {
      this.step := step;
      queue, markClosed, queueClosed, consumer := [], false, false, P.Checking;
      consumed, late := [], 0;
    }

    ghost function State(): P.Channel
      reads this
    {
      P.Channel(step, queue, markClosed, queueClosed, consumer, consumed, late)
    }

    /** `input`: without blocking, put the message or say why not. */
    method Input(m: Message) returns (r: P.InputResult)
      modifies this
      ensures (r, State()) == P.Input(old(State()), m)
    {
      if queueClosed {
        return P.Stopped;
      }
      if markClosed {
        return P.Stopped;
      }
      if |queue| >= P.CHANNEL_SIZE {
        return P.Full;
      }
      queue := queue + [m];
      r := P.Accepted;
    }

    /** One step of the loop of `output`; a message is yielded when one was waiting. */
    method Consume() returns (yielded: Option<Message>)
      modifies this
      ensures State() == P.Consume(old(State()))
      ensures consumed == if yielded.Some? then old(consumed) + [yielded.value] else old(consumed)
    {
      yielded := None;
      match consumer {
        case Checking =>
          if markClosed {
            Quit();
          } else {
            consumer := P.Waiting;
          }
        case Waiting =>
          if queueClosed {
            Quit();
          } else if queue == [] {
            consumer := P.Checking;
          } else {
            yielded := Some(queue[0]);
            queue := queue[1..];
            consumer := P.Checking;
            consumed := consumed + [yielded.value];
            late := if markClosed then late + 1 else late;
          }
        case Ended =>
      }
    }

    /** The `finally` of `output`. */
    method Quit()
      modifies this
      ensures State() == P.Quit(old(State()))
    {
      consumer := P.Ended;
      queueClosed := true;
    }

    method MarkClose()
      modifies this
      ensures State() == P.Mark(old(State()))
    {
      markClosed := true;
    }
  }

  class MediaStream {
    var isStopped: bool
    var cache: CircularQueue<Message>
    var stream: P.StreamTask
    var dispatch: P.DispatchTask
    // every channel ever added; `open` lists those not yet removed
    var channels: map<P.Id, FrameChannel>
    var open: seq<P.Id>
    ghost var accepted: seq<Message>
    ghost var dispatched: seq<Message>

    ghost predicate Valid()
      reads this, cache, cache.queue
    {
      && cache.Valid()
      && (forall x, y :: x in channels && y in channels && x != y ==> channels[x] != channels[y])
      && (forall x :: x in open ==> x in channels)
    }

    ghost function View(): P.State
      reads this, cache, cache.queue, channels.Values
      requires Valid()
    {
      P.State(isStopped, cache.queue.Length, cache.Contents(), stream, dispatch, ChannelStates(), open, accepted,
        dispatched)
    }

    ghost function ChannelStates(): map<P.Id, P.Channel>
      reads this, channels.Values
    {
      map id | id in channels :: channels[id].State()
    }

    constructor (cacheSize: nat)
      ensures Valid() && fresh(cache) && fresh(cache.queue)
      ensures View() == P.Initial(cacheSize, map[], [])
    {
      isStopped := false;
      cache := new CircularQueue<Message>(cacheSize);
      stream, dispatch := P.Idle, P.Polling;
      channels, open := map[], [];
      accepted, dispatched := [], [];
    }

    /** `add_channel`, with the step `_recalc_process_steps` gives the channel; ids are fresh. */
    method AddChannel(id: P.Id, step: int)
      requires Valid() && id !in channels
      modifies this`channels, this`open
      ensures Valid() && id in channels && fresh(channels[id])
      ensures View() == old(View()).(channels := old(ChannelStates())[id := P.NewChannel(step)],
                                     open := old(open) + [id])
    {
      var ch := new FrameChannel(step);
      channels := channels[id := ch];
      open := open + [id];
      assert ChannelStates() == old(ChannelStates())[id := P.NewChannel(step)];
    }

    /** `_on_message`, on entry */
    method Offer(m: Message)
      requires Valid()
      modifies this`stream
      ensures Valid() && View() == P.Step(old(View()), P.Offer(m))
    {
      if stream.Idle? || stream.Told? {
        stream := if isStopped then P.StreamOver else P.Sending(m);
      }
    }

    /** `_on_message`, once the cache lock is held */
    method Send()
      requires Valid()
      modifies this`isStopped, this`stream, this`dispatch, this`open, this`accepted, cache, cache.queue, channels.Values
      ensures Valid() && View() == P.Step(old(View()), P.Send)
    {
      if stream.Sending? {
        var m := stream.msg;
        var done := cache.Enqueue(m);
        if done.None? {
          ForceStop();
        } else if done.value {
          accepted := accepted + [m];
          if m.isLast {
            stream := P.StreamOver;
          } else if open != [] {
            stream := P.Idle;
          } else {
            stream := if m.hasImage then P.StreamOver else P.Told;
          }
        }
      }
    }

    /** `_dispatch`, up to the broadcast */
    method Poll()
      requires Valid()
      modifies this`dispatch, this`dispatched, cache
      ensures Valid() && View() == P.Step(old(View()), P.Poll)
    {
      if dispatch.Polling? {
        if isStopped {
          dispatch := P.DispatchOver;
          return;
        }
        var m := cache.Dequeue();
        if m.Some? {
          dispatched := dispatched + [m.value];
          dispatch := P.Broadcasting(m.value, open);
        }
      }
    }

    /** `mark_close` on one channel leaves the others alone. */
    method MarkOne(id: P.Id)
      requires Valid() && id in channels
      modifies channels[id]
      ensures Valid() && ChannelStates() == old(ChannelStates())[id := P.Mark(old(ChannelStates())[id])]
    {
      ghost var was := ChannelStates();
      channels[id].MarkClose();
      assert forall x | x in channels && x != id :: channels[x].State() == was[x];
    }

    /** `input` on one channel leaves the others alone. */
    method InputOne(id: P.Id, m: Message) returns (r: P.InputResult)
      requires Valid() && id in channels
      modifies channels[id]
      ensures Valid() && var was := old(ChannelStates());
        r == P.Input(was[id], m).0 && ChannelStates() == was[id := P.Input(was[id], m).1]
    {
      ghost var was := ChannelStates();
      r := channels[id].Input(m);
      assert forall x | x in channels && x != id :: channels[x].State() == was[x];
    }

    /** `_remove_channel` */
    method Remove(id: P.Id)
      requires Valid() && id in channels
      modifies this`open, channels[id]
      ensures Valid() && View() == P.Remove(old(View()), id)
    {
      MarkOne(id);
      open := Dropped(open, id);
    }

    /** `message_channels.pop(id)` */
    static function Dropped(ids: seq<P.Id>, id: P.Id): (r: seq<P.Id>)
      ensures r == P.Without(ids, id)
    {
      if ids == [] then [] else (if ids[0] == id then [] else [ids[0]]) + Dropped(ids[1..], id)
    }

    /** `_close_all_channels` */
    method CloseAll()
      requires Valid()
      modifies this`open, channels.Values
      ensures Valid() && View() == P.CloseAll(old(View()))
    {
      ghost var was := ChannelStates();
      assert MarkAll(was, open[..0]) == was;
      for i := 0 to |open|
        invariant Valid() && open == old(open) && channels == old(channels)
        invariant ChannelStates() == MarkAll(was, open[..i])
      {
        assert open[i] in open;
        MarkMore(was, open[..i], open[i]);
        assert open[..i + 1] == open[..i] + [open[i]];
        MarkOne(open[i]);
      }
      assert open[..|open|] == open;
      open := [];
    }

    static ghost function MarkAll(was: map<P.Id, P.Channel>, ids: seq<P.Id>): map<P.Id, P.Channel> {
      map id | id in was :: if id in ids then P.Mark(was[id]) else was[id]
    }

    static lemma MarkMore(was: map<P.Id, P.Channel>, ids: seq<P.Id>, id: P.Id)
      requires id in was
      ensures MarkAll(was, ids + [id]) == MarkAll(was, ids)[id := P.Mark(MarkAll(was, ids)[id])]
    {
    }

    /** `force_stop` */
    method ForceStop()
      requires Valid()
      modifies this`isStopped, this`stream, this`dispatch, this`open, channels.Values
      ensures Valid() && View() == P.ForceStop(old(View()))
    {
      isStopped := true;
      stream, dispatch := P.StreamOver, P.DispatchOver;
      CloseAll();
    }

    /** One channel of `_broadcast`; an exception ends in `force_stop`. */
    method Deliver()
      requires Valid()
      modifies this`isStopped, this`stream, this`dispatch, this`open, channels.Values
      ensures Valid() && View() == P.Step(old(View()), P.Deliver)
    {
      if dispatch.Broadcasting? && dispatch.rest != [] {
        var m, id, rest := dispatch.msg, dispatch.rest[0], dispatch.rest[1..];
        if id !in channels || (m.hasImage && channels[id].step == 0) {
          ForceStop();
        } else if m.hasImage && m.id % channels[id].step != 0 {
          dispatch := P.Broadcasting(m, rest);
        } else if id !in open {
          ForceStop();
        } else {
          Serve(m, id, rest);
        }
      }
    }

    /** Put the message into an open channel, or remove a channel that has stopped. */
    method Serve(m: Message, id: P.Id, rest: seq<P.Id>)
      requires Valid() && id in channels && id in open && !P.Raises(m, channels[id].step)
      requires !(m.hasImage && P.Skips(m, channels[id].step))
      modifies this`dispatch, this`open, channels[id]
      ensures Valid() && View() == P.DeliverStep(old(View()), m, id, rest)
    {
      ghost var s := View();
      var r := InputOne(id, m);
      match r {
        case Full =>
          assert View() == s;
        case Accepted =>
          dispatch := P.Broadcasting(m, rest);
        case Stopped =>
          assert View() == s;
          Remove(id);
          dispatch := P.Broadcasting(m, rest);
      }
    }

    /** `_dispatch`, after the broadcast */
    method Finish()
      requires Valid()
      modifies this`dispatch, this`open, channels.Values
      ensures Valid() && View() == P.Step(old(View()), P.Finish)
    {
      if dispatch.Broadcasting? && dispatch.rest == [] {
        var m := dispatch.msg;
        if m.isLast {
          CloseAll();
          dispatch := P.DispatchOver;
        } else if open == [] {
          dispatch := P.DispatchOver;
        } else {
          dispatch := P.Polling;
        }
      }
    }
  }
}
