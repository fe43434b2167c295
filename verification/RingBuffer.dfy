/**
 `CircularQueue`: a ring of fixed size holding a bounded first-in-first-out queue.
 */
module RingBuffer {
  import opened Texts

  /** Number of stored elements, from the two ends; both are -1 when there are none. */
  function Count(front: int, rear: int, size: nat): int {
    if front == -1 then 0 else if rear >= front then rear - front + 1 else rear - front + 1 + size
  }

  /** Where the k-th stored element is kept. */
  function Slot(front: int, size: nat, k: int): int {
    if front + k < size then front + k else front + k - size
  }

  /** The ends fit the ring, and every slot between them, around the end, is filled. */
  ghost predicate Filled<T>(ring: seq<Option<T>>, front: int, rear: int) {
    && ((front == -1 && rear == -1) || (0 <= front < |ring| && 0 <= rear < |ring|))
    && (forall k {:trigger Slot(front, |ring|, k)} | 0 <= k < Count(front, rear, |ring|) ::
      ring[Slot(front, |ring|, k)].Some?)
  }

  /** The stored elements, oldest first. */
  ghost function Stored<T>(ring: seq<Option<T>>, front: int, rear: int): (s: seq<T>)
    requires Filled(ring, front, rear)
    ensures |s| == Count(front, rear, |ring|) <= |ring|
  {
    seq(Count(front, rear, |ring|), k requires 0 <= k < Count(front, rear, |ring|) =>
      ring[Slot(front, |ring|, k)].value)
  }

  lemma StoreFirst<T>(ring: seq<Option<T>>, x: T)
    requires Filled(ring, -1, -1) && ring != []
    ensures Filled(ring[0 := Some(x)], 0, 0) && Stored(ring[0 := Some(x)], 0, 0) == [x]
  {
  }

  /** The slot after i, around the end. */
  function Next(i: int, size: nat): int {
    if i + 1 == size then 0 else i + 1
  }

  lemma NextIsMod(i: int, size: nat)
    requires 0 <= i < size
    ensures (i + 1) % size == Next(i, size)
  {
    if i + 1 == size {
      assert size % size == 0;
    } else {
      assert (i + 1) % size == i + 1;
    }
  }

  lemma FilledNext<T>(ring: seq<Option<T>>, front: int, rear: int, x: T)
    requires Filled(ring, front, rear) && front != -1 && Next(rear, |ring|) != front
    ensures var rear', c := Next(rear, |ring|), Count(front, rear, |ring|);
      && Filled(ring[rear' := Some(x)], front, rear')
      && Count(front, rear', |ring|) == c + 1 && Slot(front, |ring|, c) == rear'
      && (forall k {:trigger Slot(front, |ring|, k)} | 0 <= k < c :: Slot(front, |ring|, k) != rear')
  {
    var n, rear', c := |ring|, Next(rear, |ring|), Count(front, rear, |ring|);
    var ring' := ring[rear' := Some(x)];
    assert |ring'| == n && Slot(front, n, c) == rear';
    forall k {:trigger Slot(front, n, k)} | 0 <= k < c + 1 ensures ring'[Slot(front, n, k)].Some? {
      if k < c {
        assert Slot(front, n, k) != rear';
        assert ring[Slot(front, n, k)].Some?;
      }
    }
  }

  lemma StoreNext<T>(ring: seq<Option<T>>, front: int, rear: int, x: T)
    requires Filled(ring, front, rear) && front != -1 && Next(rear, |ring|) != front
    ensures var rear' := Next(rear, |ring|); var ring' := ring[rear' := Some(x)];
      Filled(ring', front, rear') && Stored(ring', front, rear') == Stored(ring, front, rear) + [x]
  {
    var rear' := Next(rear, |ring|);
    var ring' := ring[rear' := Some(x)];
    FilledNext(ring, front, rear, x);
    hide Filled, Count, Next, Slot;
    var s, s' := Stored(ring, front, rear), Stored(ring', front, rear');
    assert forall k | 0 <= k < |s| :: s'[k] == s[k];
    assert s' == s + [x];
  }

  lemma RemoveFirst<T>(ring: seq<Option<T>>, front: int, rear: int)
    requires Filled(ring, front, rear) && front != -1
    ensures ring[front] == Some(Stored(ring, front, rear)[0])
    ensures front == rear ==> Stored(ring, front, rear)[1..] == []
    ensures front != rear ==> var front' := Next(front, |ring|);
      Filled(ring, front', rear) && Stored(ring, front', rear) == Stored(ring, front, rear)[1..]
  {
    var n, front' := |ring|, Next(front, |ring|);
    assert Slot(front, n, 0) == front;
    if front != rear {
      assert Count(front', rear, n) == Count(front, rear, n) - 1;
      forall k {:trigger Slot(front', n, k)} | 0 <= k < Count(front', rear, n)
        ensures Slot(front', n, k) == Slot(front, n, k + 1) && ring[Slot(front', n, k)].Some?
      {
        assert ring[Slot(front, n, k + 1)].Some?;
      }
    }
  }

  class CircularQueue<T> {
    var queue: array<Option<T>>
    var front: int
    var rear: int

    ghost predicate Valid()
      reads this, queue
    {
      Filled(queue[..], front, rear)
    }

    ghost function Contents(): seq<T>
      reads this, queue
      requires Valid()
    {
      Stored(queue[..], front, rear)
    }

    constructor (size: nat)
      ensures Valid() && fresh(queue) && queue.Length == size && Contents() == []
    {
      queue := new Option<T>[size](i => None);
      front, rear := -1, -1;
    }

    /** None is the ZeroDivisionError of a queue without slots. */
    method IsFull() returns (full: Option<bool>)
      requires Valid()
      ensures full.None? <==> queue.Length == 0
      ensures full.Some? ==> (full.value <==> |Contents()| == queue.Length)
    {
      if queue.Length == 0 {
        return None;
      }
      full := Some((rear + 1) % queue.Length == front);
      if front != -1 {
        NextIsMod(rear, queue.Length);
      }
    }

    method IsEmpty() returns (empty: bool)
      requires Valid()
      ensures empty <==> Contents() == []
    {
      empty := front == -1;
    }

    /** Append an element unless the queue is full, in which case nothing changes; fails like `is_full`. */
    method Enqueue(data: T) returns (accepted: Option<bool>)
      requires Valid()
      modifies this, queue
      ensures Valid() && queue == old(queue)
      ensures accepted.None? <==> queue.Length == 0
      ensures accepted == Some(true) <==> |old(Contents())| < queue.Length
      ensures Contents() == if accepted == Some(true) then old(Contents()) + [data] else old(Contents())
    {
      var full := IsFull();
      if full.None? {
        return None;
      }
      if full.value {
        return Some(false);
      }
      ghost var before := queue[..];
      if front == -1 {
        StoreFirst(before, data);
        front, rear := 0, 0;
        queue[rear] := Some(data);
        assert queue[..] == before[0 := Some(data)];
      } else {
        NextIsMod(rear, queue.Length);
        StoreNext(before, front, rear, data);
        rear := (rear + 1) % queue.Length;
        queue[rear] := Some(data);
        assert queue[..] == before[rear := Some(data)];
      }
      accepted := Some(true);
    }

    /** Remove and return the oldest element; None from an empty queue. */
    method Dequeue() returns (data: Option<T>)
      requires Valid()
      modifies this
      ensures Valid() && queue == old(queue)
      ensures old(Contents()) == [] ==> data == None && Contents() == []
      ensures old(Contents()) != [] ==> data == Some(old(Contents())[0]) && Contents() == old(Contents())[1..]
    {
      var empty := IsEmpty();
      if empty {
        return None;
      }
      NextIsMod(front, queue.Length);
      RemoveFirst(queue[..], front, rear);
      data := queue[front];
      if front == rear {
        front, rear := -1, -1;
      } else {
        front := (front + 1) % queue.Length;
      }
    }
  }
}
