/**
  Sequential model of the tracer's fixed-capacity event ring: a circular array
  of allocator events with a write cursor and a read cursor. One slot is always
  left unused, so that an empty ring (read == write) can be told apart from a
  full one (the slot after write is read). A push onto a full ring drops the
  event; a pop from an empty ring yields None.
 */
module Ring {

  /** Number of slots of the ring. At most BUFFER_CAPACITY - 1 events are held. */
  const BUFFER_CAPACITY: nat := 4096

  datatype Option<T> = None | Some(value: T)

  /** One event as the allocator hook publishes it. */
  datatype AllocatorEvent =
    | Allocate(size: nat, ptrAddress: nat)
    | Free(size: nat, ptrAddress: nat)

  /** The value every slot holds before anything is written into it. */
  const ZERO: AllocatorEvent := Free(0, 0)

  /** A cursor advanced by one slot, wrapping around at the capacity. */
  function Next(i: nat): (r: nat)
    ensures r < BUFFER_CAPACITY
    ensures i < BUFFER_CAPACITY ==> r == if i + 1 < BUFFER_CAPACITY then i + 1 else 0
  {
    (i + 1) % BUFFER_CAPACITY
  }

  /** The number of events stored from the read cursor up to the write cursor. */
  function Count(read: nat, write: nat): (n: nat)
    requires read < BUFFER_CAPACITY && write < BUFFER_CAPACITY
    ensures n <= BUFFER_CAPACITY - 1
    ensures n == 0 <==> read == write
    ensures n == BUFFER_CAPACITY - 1 <==> Next(write) == read
    ensures (read + n) % BUFFER_CAPACITY == write
  {
    if read <= write then write - read else write + BUFFER_CAPACITY - read
  }

  /** The events stored in the slots, oldest (at the read cursor) first. */
  function Window(slots: seq<AllocatorEvent>, read: nat, write: nat): seq<AllocatorEvent>
    requires |slots| == BUFFER_CAPACITY && read < BUFFER_CAPACITY && write < BUFFER_CAPACITY
  {
    seq(Count(read, write), k requires 0 <= k < Count(read, write) => slots[(read + k) % BUFFER_CAPACITY])
  }

  /** Writing the slot at the write cursor and advancing it appends that event. */
  lemma WindowPush(slots: seq<AllocatorEvent>, read: nat, write: nat, event: AllocatorEvent)
    requires |slots| == BUFFER_CAPACITY && read < BUFFER_CAPACITY && write < BUFFER_CAPACITY
    requires Next(write) != read
    ensures Window(slots[write := event], read, Next(write)) == Window(slots, read, write) + [event]
  {
  }

  /** Advancing the read cursor of a non-empty ring removes its oldest event. */
  lemma WindowPop(slots: seq<AllocatorEvent>, read: nat, write: nat)
    requires |slots| == BUFFER_CAPACITY && read < BUFFER_CAPACITY && write < BUFFER_CAPACITY
    requires read != write
    ensures Window(slots, read, write) != []
    ensures Window(slots, read, write)[0] == slots[read]
    ensures Window(slots, Next(read), write) == Window(slots, read, write)[1..]
  {
  }

  /** The abstract contents after one push: appended, unless the ring is full. */
  function Pushed(contents: seq<AllocatorEvent>, event: AllocatorEvent): seq<AllocatorEvent>
  {
    if |contents| < BUFFER_CAPACITY - 1 then contents + [event] else contents
  }

  /** The abstract contents after pushing `events` one by one with no pop between. */
  function PushedAll(contents: seq<AllocatorEvent>, events: seq<AllocatorEvent>): seq<AllocatorEvent>
    decreases |events|
  {
    if events == [] then contents else PushedAll(Pushed(contents, events[0]), events[1..])
  }

  function Min(a: nat, b: nat): nat { if a <= b then a else b }

  /**
    Pushing a run of events keeps what the ring held, then accepts exactly the
    oldest pushed events that still fit, in push order; every later one is dropped.
   */
  lemma {:induction false} PushedAllKeepsOldest(contents: seq<AllocatorEvent>, events: seq<AllocatorEvent>)
    requires |contents| <= BUFFER_CAPACITY - 1
    ensures PushedAll(contents, events) == contents + events[..Min(|events|, BUFFER_CAPACITY - 1 - |contents|)]
    decreases |events|
  {
    if events != [] {
      var c' := Pushed(contents, events[0]);
      PushedAllKeepsOldest(c', events[1..]);
      if |contents| < BUFFER_CAPACITY - 1 {
        var m := Min(|events[1..]|, BUFFER_CAPACITY - 1 - |c'|);
        assert events[1..][..m] == events[1..m + 1];
        assert [events[0]] + events[1..m + 1] == events[..m + 1];
      } else {
        assert events[..0] == [];
      }
    }
  }

  /** As long as no more than BUFFER_CAPACITY - 1 events are outstanding, none is dropped. */
  lemma PushedAllWithinCapacity(contents: seq<AllocatorEvent>, events: seq<AllocatorEvent>)
    requires |contents| + |events| <= BUFFER_CAPACITY - 1
    ensures PushedAll(contents, events) == contents + events
  {
    PushedAllKeepsOldest(contents, events);
    assert events[..|events|] == events;
  }

  /** The ring of events, with its slots, its two cursors and its abstract FIFO contents. */
  class RingBuffer {
    const buffer: array<AllocatorEvent>
    var writeIndex: nat
    var readIndex: nat
    ghost var Contents: seq<AllocatorEvent>

    ghost predicate Valid()
      reads this, buffer
    {
      buffer.Length == BUFFER_CAPACITY &&
      writeIndex < BUFFER_CAPACITY && readIndex < BUFFER_CAPACITY &&
      Contents == Window(buffer[..], readIndex, writeIndex)
    }

    /** A fresh ring: every slot holds ZERO and both cursors are 0, so it is empty. */
    constructor ()
      ensures Valid() && fresh(buffer)
      ensures writeIndex == 0 && readIndex == 0 && Contents == []
      ensures forall i :: 0 <= i < buffer.Length ==> buffer[i] == ZERO
    {
      buffer := new AllocatorEvent[BUFFER_CAPACITY](_ => ZERO);
      writeIndex, readIndex := 0, 0;
      Contents := [];
    }

    /** Stores `event` at the write cursor and advances it, or drops the event when full. */
    method Push(event: AllocatorEvent)
      requires Valid()
      modifies this, buffer
      ensures Valid()
      ensures readIndex == old(readIndex)
      ensures old(Next(writeIndex)) == readIndex ==>
        writeIndex == old(writeIndex) && buffer[..] == old(buffer[..])
      ensures old(Next(writeIndex)) != readIndex ==>
        writeIndex == old(Next(writeIndex)) && buffer[..] == old(buffer[..])[old(writeIndex) := event]
      ensures Contents == Pushed(old(Contents), event)
    {
      var write := writeIndex;
      var next := (write + 1) % BUFFER_CAPACITY;
      var read := readIndex;
      if next == read {
        // the ring is full: the event is dropped
        return;
      }
      buffer[write] := event;
      writeIndex := next;
      WindowPush(old(buffer[..]), read, write, event);
      Contents := Contents + [event];
    }

    /** Takes the event at the read cursor and advances it, or yields None when empty. */
    method Pop() returns (r: Option<AllocatorEvent>)
      requires Valid()
      modifies this
      ensures Valid()
      ensures writeIndex == old(writeIndex)
      ensures r.None? <==> old(readIndex) == old(writeIndex)
      ensures r.None? <==> old(Contents) == []
      ensures r.None? ==> readIndex == old(readIndex) && Contents == old(Contents)
      ensures r.Some? ==> r.value == old(buffer[readIndex]) && readIndex == Next(old(readIndex))
      ensures r.Some? ==> r.value == old(Contents)[0] && Contents == old(Contents)[1..]
    {
      var read := readIndex;
      var write := writeIndex;
      if read == write {
        return None;
      }
      var event := buffer[read];
      var next := (read + 1) % BUFFER_CAPACITY;
      readIndex := next;
      WindowPop(buffer[..], read, write);
      Contents := Contents[1..];
      r := Some(event);
    }
  }
}
