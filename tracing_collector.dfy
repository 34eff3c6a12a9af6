/**
  Sequential model of the tracer's collector: an append-only store of
  allocated intervals whose ids are their positions, an index from live
  addresses to ids, and the drain step that pops every event from the ring
  and folds it into the store and the index.
 */
module Collector {
  import opened Ring

  /** One recorded allocation: the bytes [start, endExclusive). */
  datatype AllocatedInterval = AllocatedInterval(id: nat, start: nat, size: nat, endExclusive: nat)

  predicate WellFormed(iv: AllocatedInterval) {
    iv.endExclusive == iv.start + iv.size
  }

  /** The interval of `size` bytes starting at `start`, recorded under `id`. */
  function NewInterval(id: nat, start: nat, size: nat): (iv: AllocatedInterval)
    ensures iv.id == id && iv.start == start && iv.size == size
    ensures WellFormed(iv)
  {
    AllocatedInterval(id, start, size, start + size)
  }

  /** Every record sits at the position equal to its id and is well formed. */
  ghost predicate DenseIds(entries: seq<AllocatedInterval>) {
    forall i :: 0 <= i < |entries| ==> entries[i].id == i && WellFormed(entries[i])
  }

  /** The append-only vector of every allocation the collector has seen. */
  class AllocationStore {
    var entries: seq<AllocatedInterval>

    ghost predicate Valid()
      reads this
    {
      DenseIds(entries)
    }

    constructor ()
      ensures Valid() && entries == []
    {
      entries := [];
    }

    /** The record with the given id, if the store has one. */
    function Get(id: nat): (r: Option<AllocatedInterval>)
      reads this
      ensures r.Some? <==> id < |entries|
      ensures r.Some? ==> r.value == entries[id]
      ensures r.Some? && Valid() ==> r.value.id == id
    {
      if id < |entries| then Some(entries[id]) else None
    }

    /** Appends the interval of a new allocation; its id is the previous length. */
    method Push(size: nat, ptrAddress: nat) returns (id: nat)
      requires Valid()
      modifies this
      ensures Valid()
      ensures id == old(|entries|)
      ensures entries == old(entries) + [NewInterval(id, ptrAddress, size)]
    {
      id := |entries|;
      entries := entries + [NewInterval(id, ptrAddress, size)];
    }
  }

  /** The collector's bookkeeping as a value: the store's records and the address index. */
  datatype CollectorState = CollectorState(entries: seq<AllocatedInterval>, index: map<nat, nat>)

  /** The state of a collector that has not yet seen an event. */
  const EMPTY: CollectorState := CollectorState([], map[])

  /**
    Ids are dense, and every indexed id names a stored record whose start is the
    address it is indexed under.
   */
  ghost predicate Consistent(s: CollectorState) {
    DenseIds(s.entries) &&
    forall a :: a in s.index ==> s.index[a] < |s.entries| && s.entries[s.index[a]].start == a
  }

  /**
    An event the collector can apply without failing: an allocation of an address
    that is not indexed, or a free of one that is.
   */
  predicate CanApply(s: CollectorState, e: AllocatorEvent) {
    match e
    case Allocate(_, a) => a !in s.index
    case Free(_, a) => a in s.index
  }

  /** The effect of one event on the store and the index. */
  function Apply(s: CollectorState, e: AllocatorEvent): CollectorState
    requires CanApply(s, e)
  {
    match e
    case Allocate(size, a) =>
      CollectorState(s.entries + [NewInterval(|s.entries|, a, size)], s.index[a := |s.entries|])
    case Free(_, a) =>
      CollectorState(s.entries, s.index - {a})
  }

  /** True when every event of `es`, applied in order, can be applied. */
  ghost predicate Applicable(s: CollectorState, es: seq<AllocatorEvent>)
    decreases |es|, 0
  {
    es == [] ||
    (Applicable(s, es[..|es| - 1]) && CanApply(ApplyAll(s, es[..|es| - 1]), es[|es| - 1]))
  }

  /** The effect of applying `es` in order. */
  ghost function ApplyAll(s: CollectorState, es: seq<AllocatorEvent>): CollectorState
    requires Applicable(s, es)
    decreases |es|, 1
  {
    if es == [] then s else Apply(ApplyAll(s, es[..|es| - 1]), es[|es| - 1])
  }

  /**
    `Applicable` of a run is defined through `Applicable` of the run without its
    last event, so every prefix of an applicable run is applicable too.
   */
  lemma {:induction false} ApplicablePrefix(s: CollectorState, es: seq<AllocatorEvent>, k: nat)
    requires Applicable(s, es) && k <= |es|
    ensures Applicable(s, es[..k])
    decreases |es|
  {
    if k < |es| {
      assert es[..|es| - 1][..k] == es[..k];
      ApplicablePrefix(s, es[..|es| - 1], k);
    } else {
      assert es[..k] == es;
    }
  }

  /** One more event of an applicable run: it can be applied to the state before it. */
  lemma ApplicableStep(s: CollectorState, es: seq<AllocatorEvent>, k: nat)
    requires Applicable(s, es) && k < |es|
    ensures Applicable(s, es[..k]) && CanApply(ApplyAll(s, es[..k]), es[k])
    ensures Applicable(s, es[..k + 1]) && ApplyAll(s, es[..k + 1]) == Apply(ApplyAll(s, es[..k]), es[k])
  {
    ApplicablePrefix(s, es, k + 1);
    assert es[..k + 1][..k] == es[..k];
  }

  /** A single event keeps the index and the store consistent. */
  lemma ApplyConsistent(s: CollectorState, e: AllocatorEvent)
    requires Consistent(s) && CanApply(s, e)
    ensures Consistent(Apply(s, e))
  {
  }

  /** Any applicable run of events keeps the index and the store consistent. */
  lemma {:induction false} ApplyAllConsistent(s: CollectorState, es: seq<AllocatorEvent>)
    requires Consistent(s) && Applicable(s, es)
    ensures Consistent(ApplyAll(s, es))
    decreases |es|
  {
    if es != [] {
      ApplyAllConsistent(s, es[..|es| - 1]);
      ApplyConsistent(ApplyAll(s, es[..|es| - 1]), es[|es| - 1]);
    }
  }

  /** The number of `Allocate` events in `es`. */
  function Allocations(es: seq<AllocatorEvent>): nat
    decreases |es|
  {
    if es == [] then 0 else Allocations(es[..|es| - 1]) + (if es[|es| - 1].Allocate? then 1 else 0)
  }

  /** The store is append-only: old records stay in place, one new record per allocation. */
  lemma {:induction false} ApplyAllAppendOnly(s: CollectorState, es: seq<AllocatorEvent>)
    requires Applicable(s, es)
    ensures |ApplyAll(s, es).entries| == |s.entries| + Allocations(es)
    ensures ApplyAll(s, es).entries[..|s.entries|] == s.entries
    decreases |es|
  {
    if es != [] {
      var init := es[..|es| - 1];
      ApplyAllAppendOnly(s, init);
      var before := ApplyAll(s, init).entries;
      assert ApplyAll(s, es).entries[..|before|] == before;
      assert before[..|s.entries|] == s.entries;
    }
  }

  /** The last event of `es` that concerns address `a` is an allocation. */
  ghost predicate LastTouchAllocates(es: seq<AllocatorEvent>, a: nat) {
    exists k :: 0 <= k < |es| && es[k].ptrAddress == a && es[k].Allocate? &&
      forall j :: k < j < |es| ==> es[j].ptrAddress != a
  }

  /** No event of `es` concerns address `a`. */
  ghost predicate Untouched(es: seq<AllocatorEvent>, a: nat) {
    forall j :: 0 <= j < |es| ==> es[j].ptrAddress != a
  }

  /** An event about another address changes neither what touched `a` nor how. */
  lemma TouchOther(init: seq<AllocatorEvent>, e: AllocatorEvent, a: nat)
    requires e.ptrAddress != a
    ensures Untouched(init + [e], a) <==> Untouched(init, a)
    ensures LastTouchAllocates(init + [e], a) <==> LastTouchAllocates(init, a)
  {
    var es := init + [e];
    assert forall j :: 0 <= j < |init| ==> es[j] == init[j];
    if LastTouchAllocates(init, a) {
      var k :| 0 <= k < |init| && init[k].ptrAddress == a && init[k].Allocate? &&
        forall j :: k < j < |init| ==> init[j].ptrAddress != a;
      assert es[k] == init[k];
    }
    if LastTouchAllocates(es, a) {
      var k :| 0 <= k < |es| && es[k].ptrAddress == a && es[k].Allocate? &&
        forall j :: k < j < |es| ==> es[j].ptrAddress != a;
      assert k < |init|;
    }
  }

  /** An event about `a` itself decides whether the last touch of `a` allocates. */
  lemma TouchSame(init: seq<AllocatorEvent>, e: AllocatorEvent, a: nat)
    requires e.ptrAddress == a
    ensures !Untouched(init + [e], a)
    ensures LastTouchAllocates(init + [e], a) <==> e.Allocate?
  {
    var es := init + [e];
    assert es[|init|] == e;
    if LastTouchAllocates(es, a) {
      var k :| 0 <= k < |es| && es[k].ptrAddress == a && es[k].Allocate? &&
        forall j :: k < j < |es| ==> es[j].ptrAddress != a;
      assert k == |init|;
    }
  }

  /**
    After a run of events, an address is indexed exactly when the last event about
    it allocated it, or when no event was about it and it was indexed before: the
    index holds the allocated addresses minus those freed since.
   */
  lemma {:induction false} ApplyAllIndex(s: CollectorState, es: seq<AllocatorEvent>, a: nat)
    requires Applicable(s, es)
    ensures a in ApplyAll(s, es).index <==> LastTouchAllocates(es, a) || (Untouched(es, a) && a in s.index)
    decreases |es|
  {
    if es != [] {
      var init, last := es[..|es| - 1], es[|es| - 1];
      assert es == init + [last];
      ApplyAllIndex(s, init, a);
      if last.ptrAddress == a {
        TouchSame(init, last, a);
      } else {
        TouchOther(init, last, a);
      }
    }
  }

  /**
    When the last event about `a` is the allocation at position `k`, the index maps
    `a` to the record that allocation made: its id counts the records before it,
    and it holds that allocation's start and size.
   */
  lemma {:induction false} ApplyAllIndexedRecord(s: CollectorState, es: seq<AllocatorEvent>, a: nat, k: nat)
    requires Applicable(s, es)
    requires k < |es| && es[k] == Allocate(es[k].size, a)
    requires forall j :: k < j < |es| ==> es[j].ptrAddress != a
    ensures a in ApplyAll(s, es).index
    ensures ApplyAll(s, es).index[a] == |s.entries| + Allocations(es[..k])
    ensures ApplyAll(s, es).index[a] < |ApplyAll(s, es).entries|
    ensures ApplyAll(s, es).entries[ApplyAll(s, es).index[a]] == NewInterval(|s.entries| + Allocations(es[..k]), a, es[k].size)
    decreases |es|
  {
    var init, last := es[..|es| - 1], es[|es| - 1];
    if k == |es| - 1 {
      ApplyAllAppendOnly(s, init);
    } else {
      assert init[k] == es[k] && init[..k] == es[..k];
      ApplyAllIndexedRecord(s, init, a, k);
      var before := ApplyAll(s, init);
      assert last.ptrAddress != a;
      if last.Allocate? {
        assert ApplyAll(s, es).entries[before.index[a]] == before.entries[before.index[a]];
      }
    }
  }

  /**
    The collector's shared state: the ring it drains, the store, the address
    index and whether anything changed since the contents were last shown.
   */
  class TracingCollectorInner {
    const ring: RingBuffer
    const allocationStore: AllocationStore
    var indexByPtr: map<nat, nat>
    var changedSincePrint: bool

    /** The store and the index as a value. */
    function State(): CollectorState
      reads this, allocationStore
    {
      CollectorState(allocationStore.entries, indexByPtr)
    }

    ghost predicate Valid()
      reads this, allocationStore, ring, ring.buffer
    {
      ring.Valid() && Consistent(State())
    }

    /** A collector over `ring` with an empty store, an empty index and nothing changed. */
    constructor (ring: RingBuffer)
      requires ring.Valid()
      ensures Valid() && fresh(allocationStore)
      ensures this.ring == ring && ring.Contents == old(ring.Contents)
      ensures State() == EMPTY && !changedSincePrint
    {
      this.ring := ring;
      allocationStore := new AllocationStore();
      indexByPtr := map[];
      changedSincePrint := false;
    }

    /** Records a new allocation at `ptrAddress`, which must not be indexed yet. */
    method RecordAllocation(size: nat, ptrAddress: nat)
      requires Valid()
      requires ptrAddress !in indexByPtr
      modifies this, allocationStore
      ensures Valid()
      ensures allocationStore.entries ==
        old(allocationStore.entries) + [NewInterval(old(|allocationStore.entries|), ptrAddress, size)]
      ensures indexByPtr == old(indexByPtr)[ptrAddress := old(|allocationStore.entries|)]
      ensures changedSincePrint == old(changedSincePrint)
      ensures State() == Apply(old(State()), Allocate(size, ptrAddress))
    {
      ghost var s := State();
      var allocationId := allocationStore.Push(size, ptrAddress);
      indexByPtr := indexByPtr[ptrAddress := allocationId];
      ApplyConsistent(s, Allocate(size, ptrAddress));
    }

    /** Records the free of `ptrAddress`, which must be indexed; the store is kept. */
    method RecordFree(size: nat, ptrAddress: nat)
      requires Valid()
      requires ptrAddress in indexByPtr
      modifies this
      ensures Valid()
      ensures allocationStore.entries == old(allocationStore.entries)
      ensures indexByPtr == old(indexByPtr) - {ptrAddress}
      ensures changedSincePrint == old(changedSincePrint)
      ensures State() == Apply(old(State()), Free(size, ptrAddress))
    {
      ghost var s := State();
      indexByPtr := indexByPtr - {ptrAddress};
      ApplyConsistent(s, Free(size, ptrAddress));
    }

    /**
      Pops events until the ring is empty and applies each in the order popped;
      marks the state changed when at least one event was applied.
     */
    method PollRingBuffer()
      requires Valid()
      requires Applicable(State(), ring.Contents)
      modifies this, allocationStore, ring
      ensures Valid()
      ensures ring.Contents == [] && ring.writeIndex == old(ring.writeIndex)
      ensures State() == ApplyAll(old(State()), old(ring.Contents))
      ensures changedSincePrint == (old(changedSincePrint) || old(ring.Contents) != [])
    {
      ghost var s0 := State();
      ghost var events := ring.Contents;
      ghost var k := 0;
      assert events[..0] == [];
      while true
        invariant Valid()
        invariant 0 <= k <= |events|
        invariant ring.Contents == events[k..] && ring.writeIndex == old(ring.writeIndex)
        invariant Applicable(s0, events[..k]) && State() == ApplyAll(s0, events[..k])
        invariant changedSincePrint == (old(changedSincePrint) || k > 0)
        decreases |ring.Contents|
      {
        var next := ring.Pop();
        if next.None? {
          break;
        }
        ApplicableStep(s0, events, k);
        RecordEvent(next.value);
        changedSincePrint := true;
        k := k + 1;
      }
      assert events[..k] == events;
    }

    /** Dispatches one popped event to `RecordAllocation` or `RecordFree`. */
    method RecordEvent(event: AllocatorEvent)
      requires Valid() && CanApply(State(), event)
      modifies this, allocationStore
      ensures Valid()
      ensures changedSincePrint == old(changedSincePrint)
      ensures State() == Apply(old(State()), event)
    {
      match event {
        case Allocate(size, ptrAddress) =>
          RecordAllocation(size, ptrAddress);
        case Free(size, ptrAddress) =>
          RecordFree(size, ptrAddress);
      }
    }

    /** Resets the changed flag; the store and the index are left as they are. */
    method PrintContentsInner()
      modifies this`changedSincePrint
      ensures !changedSincePrint
      ensures State() == old(State())
    {
      changedSincePrint := false;
    }
  }
}
