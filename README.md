# memory-tracer: the event ring and the collector, in Dafny

This project models the sequential core of an in-process memory-allocation tracer.
The global allocator pushes one `AllocatorEvent` per allocation or free into a
fixed-capacity ring. A background collector drains the ring and folds the events
into an append-only store of allocated intervals plus an index from live addresses
to record ids.

- `ring_buffer.dfy` (module `Ring`) holds the ring. `RingBuffer` is a class with a
  4096-slot `array` and two `nat` cursors. The ghost field `Contents` is the FIFO
  the ring stands for. `Valid()` ties it to the slots between the read cursor and
  the write cursor (`Window`). `Push` and `Pop` are stated both on the slots and
  cursors and on `Contents`. `Pushed` is the FIFO view of one push and
  `PushedAll` that of a run of pushes; the lemmas about them say what overflow drops.
- `tracing_collector.dfy` (module `Collector`) holds the collector.
  `AllocatedInterval` is the record. `AllocationStore` is a class whose
  `entries: seq` is only ever appended to. `TracingCollectorInner` holds the ring,
  the store, the `indexByPtr` map and the `changedSincePrint` flag. The value
  `CollectorState` (records and index) with `Apply`/`ApplyAll` is the
  specification the methods are proved against. `Consistent` is the invariant
  they keep: ids are dense, and every indexed id is in range and points back to
  the address it is indexed under.

The source's `assert!(res.is_none())` on a duplicate address and its `unwrap()` on
the removal of an unknown address are modelled as preconditions of `RecordAllocation`
and `RecordFree`. `PollRingBuffer` therefore requires that the events in the ring can
be applied in order without failing (`Applicable`). A diagnostic tracer would rather
tolerate both cases (overwrite the stale mapping, ignore the unknown free), but the code
panics, and this model follows the code. Likewise, a ring with several producers would
need an atomic claim of the write slot. The code loads and stores the write cursor
without one, which is correct only for a single producer. That single-producer ring is
what is modelled here, sequentially.

## Model

| member | source | states |
|---|---|---|
| `Ring.Next` | src/ring_buffer.rs:38 | an advanced cursor is always below 4096, and it is `i + 1` or wraps to 0 |
| `Ring.Count` | src/ring_buffer.rs:38-41 | at most 4095 events are held; the count is 0 exactly when `read == write`, and 4095 exactly when the slot after `write` is `read` (full) |
| `Ring.WindowPush` | src/ring_buffer.rs:46-50 | writing slot `write` and advancing `write` appends the event to the stored events and changes none of the older ones |
| `Ring.WindowPop` | src/ring_buffer.rs:61-65 | on a non-empty ring, slot `read` holds the oldest event, and advancing `read` removes exactly that event |
| `Ring.PushedAllKeepsOldest` | src/ring_buffer.rs:36-51 | over a run of pushes with no pop between, the events already held stay, then exactly the oldest pushed events that fit are accepted in order, and every later one is dropped |
| `Ring.PushedAllWithinCapacity` | src/ring_buffer.rs:36-51 | while no more than 4095 events are outstanding, pushes lose nothing, and the contents are the pushed events in push order |
| `Ring.RingBuffer.constructor` | src/ring_buffer.rs:23-34 | a fresh ring has both cursors at 0, every slot `Free(0, 0)`, and holds no events |
| `Ring.RingBuffer.Push` | src/ring_buffer.rs:36-51 | when full, nothing changes. Otherwise slot `write` gets the event, `write` advances mod 4096, `read` and every other slot are untouched, and the event is appended to the FIFO |
| `Ring.RingBuffer.Pop` | src/ring_buffer.rs:53-68 | returns `None` exactly when the ring is empty, changing nothing. Otherwise it returns the event in slot `read` (the FIFO's head), advances `read` mod 4096 and leaves `write` and the slots as they are |
| `Collector.NewInterval` | src/tracing_collector.rs:21-28 | the record keeps `id`, `start` and `size`, and has `endExclusive == start + size` |
| `Collector.AllocationStore.constructor` | src/tracing_collector.rs:35-37 | a new store is empty |
| `Collector.AllocationStore.Get` | src/tracing_collector.rs:39-41 | returns the record at position `id` when `id` is below the length, and `None` otherwise; in a valid store that record's id is `id` |
| `Collector.AllocationStore.Push` | src/tracing_collector.rs:43-48 | returns the previous length as the id and appends one record with that id, leaving existing records unchanged, so ids stay equal to positions |
| `Collector.ApplyConsistent` | src/tracing_collector.rs:107-121 | one allocation or free keeps ids dense and every indexed id in range and pointing back to its address |
| `Collector.ApplyAllConsistent` | src/tracing_collector.rs:87-97 | a whole run of applicable events keeps the same invariant |
| `Collector.ApplicablePrefix` | src/tracing_collector.rs:87-97 | if a run of events can be applied without a panic, so can every prefix of it |
| `Collector.ApplyAllAppendOnly` | src/tracing_collector.rs:43-48 | after a run of events, the store still begins with the old records and has grown by one record per `Allocate` event |
| `Collector.ApplyAllIndex` | src/tracing_collector.rs:107-121 | after a run of events, an address is indexed exactly when the last event about it was an allocation, or when no event was about it and it was indexed before. This is "allocated minus freed since" |
| `Collector.ApplyAllIndexedRecord` | src/tracing_collector.rs:107-110 | when the last event about an address is an allocation, the index maps the address to the record that allocation made: its id is the old store length plus the allocations before it, with that allocation's start and size |
| `Collector.TracingCollectorInner.constructor` | src/tracing_collector.rs:63-72 | a new collector over a ring has an empty store, an empty index and the changed flag false |
| `Collector.TracingCollectorInner.RecordAllocation` | src/tracing_collector.rs:100-112 | requires the address to be unindexed. It appends one record whose id is the old store length, maps the address to that id, leaves the other keys alone and keeps the invariant |
| `Collector.TracingCollectorInner.RecordFree` | src/tracing_collector.rs:114-122 | requires the address to be indexed. It removes that key only, leaves the store unmodified and keeps the invariant |
| `Collector.TracingCollectorInner.RecordEvent` | src/tracing_collector.rs:88-95 | dispatches one event to `RecordAllocation` or `RecordFree`; the new state is `Apply` of the old state, and the invariant is kept |
| `Collector.TracingCollectorInner.PollRingBuffer` | src/tracing_collector.rs:85-98 | pops until `None` and applies the events in FIFO order, so the new state is `ApplyAll` of the old state over the ring's old contents. The ring is left empty with its write cursor unchanged, the invariant holds, and the changed flag is set exactly when it was set before or at least one event was applied |
| `Collector.TracingCollectorInner.PrintContentsInner` | src/tracing_collector.rs:124-128 | clears the changed flag and leaves the store and the index unchanged |

## Left out

- Threads, the mutex, `Arc`, the 10 ms sleep and the endless polling loop of `start`
  (src/tracing_collector.rs:74-83). One `PollRingBuffer` call is modelled as a sequential method.
- Atomic memory orderings and `UnsafeCell`: the cursors are plain fields and the slots
  plain array elements, so cross-thread visibility is not modelled.
- PollRingBuffer: the model assumes nothing is pushed into the ring while it drains. In
  the program, the collector's own allocations (the `Vec` growth in `AllocationStore::push`
  and the `BTreeMap` insert) go through the tracing allocator too. They push events into the
  same ring, and the `while let` loop then pops and applies those as well. The model's
  result covers only the events present when the drain starts.
- The `dbg!` output of `print_contents_inner` and `print_contents` is output I/O. Only
  the flag reset is kept.
- The lock poisoning behind `lock().unwrap()` is not modelled.
- Machine-word width: `usize` sizes, addresses and ids are `nat`. The model does not
  capture overflow of `start + size` or of a store length past `usize::MAX`.
- src/tracing_allocator.rs (the `malloc`/`free` wrapper that pushes events) is a foreign
  call plus a `Push`. It is not part of this model. Neither are src/tracing_printer.rs
  (a print loop) or src/main.rs (demo wiring).
- A live-interval query, per-thread tracing switches, context labels and a tolerant
  duplicate/missing-key policy do not appear in the modelled code, so they are not modelled.
