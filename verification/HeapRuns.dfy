/** Whole runs of kmalloc and kfree on the heap in memory. */
module HeapRuns {
  import opened Bytes
  import opened HeapBlocks
  import opened HeapMemory
  import opened KernelHeap

  /** A request that can be served below the limit of the heap, the address of a payload, or a byte of a live one. */
  ghost predicate CallOk(bs: seq<Block>, call: Call)
    requires bs != []
  {
    && Served(bs, call)
    && match call
       case Alloc(n) =>
         && n < U32
         && (n > 0 && FirstFit(bs, RoundUp(n), 0) == |bs| ==> Total(bs) + Expansion(bs, RoundUp(n)) <= HEAP_LIMIT)
       case Release(o) => BlockAt(bs, o, 0) < |bs| && o < Total(bs)
       case Store(at, _) => InLive(bs, at)
  }

  ghost predicate CallsOk(bs: seq<Block>, calls: seq<Call>)
    requires Wf(bs)
    decreases |calls|
  {
    calls == [] ||
    (CallOk(bs, calls[0]) &&
     (PerformKeepsWf(bs, calls[0]); CallsOk(Perform(bs, calls[0]), calls[1..])))
  }

  lemma {:induction false} CallsServed(bs: seq<Block>, calls: seq<Call>)
    requires Wf(bs) && CallsOk(bs, calls)
    ensures RunServed(bs, calls)
    decreases |calls|
  {
    hide Perform, Served, NoFreeNeighbours;
    if calls != [] {
      PerformKeepsWf(bs, calls[0]);
      CallsServed(Perform(bs, calls[0]), calls[1..]);
    }
  }

  /** Those of the allocations `live` that no call of the run gives back. */
  ghost function Survivors(live: set<(nat, nat)>, bs: seq<Block>, calls: seq<Call>): (r: set<(nat, nat)>)
    requires Wf(bs) && RunServed(bs, calls)
    ensures r <= live
    decreases |calls|
  {
    if calls == [] then live
    else
      PerformKeepsWf(bs, calls[0]);
      Survivors(live * Live(Perform(bs, calls[0]), 0), Perform(bs, calls[0]), calls[1..])
  }

  /** What was last stored at offset `k`, starting from `b`. */
  function LastStored(calls: seq<Call>, k: nat, b: byte): byte
    decreases calls
  {
    if calls == [] then b
    else LastStored(calls[1..], k, if calls[0].Store? && calls[0].at == k then calls[0].b else b)
  }

  /** The payload of `s` bytes at `o` holds what was last stored in it. */
  ghost predicate PayloadHolds(m: seq<byte>, m': seq<byte>, o: nat, s: nat, calls: seq<Call>) {
    && o + s <= |m| && o + s <= |m'|
    && forall k: nat :: o <= k < o + s ==> m'[k] == LastStored(calls, k, m[k])
  }

  ghost predicate Holds(m: seq<byte>, m': seq<byte>, live: set<(nat, nat)>, calls: seq<Call>) {
    forall o, s :: (o, s) in live ==> PayloadHolds(m, m', o, s, calls)
  }

  /** One call in memory is one call on the list. */
  method Step(heap: Heap, call: Call, contents: nat -> byte)
    requires heap.Valid() && CallOk(heap.blocks, call)
    modifies heap`mem, heap`heapSize, heap`blocks
    ensures heap.Valid() && heap.blocks == Perform(old(heap.blocks), call)
    ensures Holds(old(heap.mem), heap.mem, Live(old(heap.blocks), 0) * Live(heap.blocks, 0), [call])
  {
    hide Segment, Total, Live, LiveKept, Offset, Expansion, FirstFit, Malloc, Free, NoFreeNeighbours, Holds, InLive;
    hide SumsHold, RestAt, GrownBase, Misplaced;
    ghost var bs, m := heap.blocks, heap.mem;
    match call {
      case Alloc(n) =>
        if n == 0 {
          NothingChanged(m, Live(bs, 0));
        }
        var _ := heap.Kmalloc(n, contents);
        LiveKeptLess(m, heap.mem, Live(bs, 0), Live(bs, 0) * Live(heap.blocks, 0));
        KeptHolds(m, heap.mem, bs, Live(bs, 0) * Live(heap.blocks, 0), call);
      case Release(o) =>
        heap.Kfree(KERNEL_MALLOC + o, BlockAt(bs, o, 0));
        LiveKeptLess(m, heap.mem, Live(heap.blocks, 0), Live(bs, 0) * Live(heap.blocks, 0));
        KeptHolds(m, heap.mem, bs, Live(bs, 0) * Live(heap.blocks, 0), call);
      case Store(at, b) =>
        heap.StoreByte(at, b);
        StoreHolds(m, heap.mem, bs, Live(bs, 0) * Live(heap.blocks, 0), at, b);
    }
  }

  lemma OneStored(call: Call, k: nat, b: byte)
    ensures LastStored([call], k, b) == if call.Store? && call.at == k then call.b else b
  {
    assert [call][1..] == [];
    assert LastStored([], k, b) == b;
  }

  lemma KeptHolds(m: seq<byte>, m': seq<byte>, bs: seq<Block>, live: set<(nat, nat)>, call: Call)
    requires LiveKept(m, m', live) && live <= Live(bs, 0) && Total(bs) == |m| && !call.Store?
    ensures Holds(m, m', live, [call])
  {
    hide Live, Total, LastStored;
    forall o, s | (o, s) in live
      ensures PayloadHolds(m, m', o, s, [call])
    {
      LiveBounds(bs, 0, o, s);
      assert Same(m, m', o, o + s);
      forall k: nat | o <= k < o + s
        ensures m'[k] == LastStored([call], k, m[k])
      {
        OneStored(call, k, m[k]);
      }
    }
  }

  lemma StoreHolds(m: seq<byte>, m': seq<byte>, bs: seq<Block>, live: set<(nat, nat)>, at: nat, b: byte)
    requires live <= Live(bs, 0) && Total(bs) == |m| && at < |m| && m' == m[at := b]
    ensures Holds(m, m', live, [Store(at, b)])
  {
    hide Live, Total, LastStored;
    forall o, s | (o, s) in live
      ensures PayloadHolds(m, m', o, s, [Store(at, b)])
    {
      LiveBounds(bs, 0, o, s);
      forall k: nat | o <= k < o + s
        ensures m'[k] == LastStored([Store(at, b)], k, m[k])
      {
        OneStored(Store(at, b), k, m[k]);
      }
    }
  }

  lemma HoldsTwice(m: seq<byte>, m1: seq<byte>, m2: seq<byte>, now: set<(nat, nat)>, left: set<(nat, nat)>,
                   calls: seq<Call>)
    requires calls != [] && Holds(m, m1, now, [calls[0]]) && Holds(m1, m2, left, calls[1..]) && left <= now
    ensures Holds(m, m2, left, calls)
  {
    forall o, s | (o, s) in left
      ensures PayloadHolds(m, m2, o, s, calls)
    {
      assert PayloadHolds(m, m1, o, s, [calls[0]]) && PayloadHolds(m1, m2, o, s, calls[1..]);
      forall k: nat | o <= k < o + s
        ensures m2[k] == LastStored(calls, k, m[k])
      {
        assert m1[k] == LastStored([calls[0]], k, m[k]) && m2[k] == LastStored(calls[1..], k, m1[k]);
        FirstStored(calls, k, m[k]);
      }
    }
  }

  lemma FirstStored(calls: seq<Call>, k: nat, b: byte)
    requires calls != []
    ensures LastStored(calls, k, b) == LastStored(calls[1..], k, LastStored([calls[0]], k, b))
  {
    assert [calls[0]][1..] == [];
  }

  /**
   * Every run of allocations, releases and stores into live payloads: the headers in memory always spell the block
   * list, and an allocation that is never given back holds at the end what was last stored in it, whatever else was
   * allocated, freed, split or fused around it.
   */
  method Run(heap: Heap, calls: seq<Call>, contents: nat -> byte)
    requires heap.Valid() && CallsOk(heap.blocks, calls)
    modifies heap`mem, heap`heapSize, heap`blocks
    ensures heap.Valid() && RunServed(old(heap.blocks), calls)
    ensures heap.blocks == RunCalls(old(heap.blocks), calls)
    ensures Holds(old(heap.mem), heap.mem, Survivors(Live(old(heap.blocks), 0), old(heap.blocks), calls), calls)
    decreases |calls|
  {
    hide Segment, Total, Live, Holds, Perform, Served, CallOk, NoFreeNeighbours;
    CallsServed(heap.blocks, calls);
    ghost var bs, m := heap.blocks, heap.mem;
    if calls == [] {
      NothingStored(m, bs);
      return;
    }
    Step(heap, calls[0], contents);
    ghost var cs, m1 := heap.blocks, heap.mem;
    Run(heap, calls[1..], contents);
    ghost var left := Survivors(Live(bs, 0), bs, calls);
    SurvivorsLess(Live(bs, 0) * Live(cs, 0), Live(cs, 0), cs, calls[1..]);
    HoldsLess(m1, heap.mem, Survivors(Live(cs, 0), cs, calls[1..]), left, calls[1..]);
    HoldsTwice(m, m1, heap.mem, Live(bs, 0) * Live(cs, 0), left, calls);
  }

  lemma NothingStored(m: seq<byte>, bs: seq<Block>)
    requires Total(bs) == |m|
    ensures Holds(m, m, Live(bs, 0), [])
  {
    hide Live, Total;
    forall o, s | (o, s) in Live(bs, 0)
      ensures PayloadHolds(m, m, o, s, [])
    {
      LiveBounds(bs, 0, o, s);
    }
  }

  lemma HoldsLess(m: seq<byte>, m': seq<byte>, live: set<(nat, nat)>, fewer: set<(nat, nat)>, calls: seq<Call>)
    requires Holds(m, m', live, calls) && fewer <= live
    ensures Holds(m, m', fewer, calls)
  {
    hide PayloadHolds;
  }

  lemma {:induction false} SurvivorsLess(a: set<(nat, nat)>, b: set<(nat, nat)>, bs: seq<Block>, calls: seq<Call>)
    requires Wf(bs) && RunServed(bs, calls) && a <= b
    ensures Survivors(a, bs, calls) <= Survivors(b, bs, calls)
    decreases |calls|
  {
    hide Live, Perform, Served, NoFreeNeighbours;
    if calls != [] {
      PerformKeepsWf(bs, calls[0]);
      var cs := Perform(bs, calls[0]);
      SurvivorsLess(a * Live(cs, 0), b * Live(cs, 0), cs, calls[1..]);
    }
  }
}
