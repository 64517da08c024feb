/** The kernel heap as a list of blocks lying back to back: what kmalloc and kfree do to the list, and what every run
    keeps. */
module HeapBlocks {
  import opened Bytes

  const HEADER := 17                 // sizeof(heap_block_t), packed
  const HEAP_THRESHOLD := 0x1_0000
  const KERNEL_MALLOC := 0xD000_0000
  const HEAP_LIMIT := 0xFFC0_0000 - KERNEL_MALLOC     // the recursive page-table window

  datatype Block = Block(size: nat, used: bool) {
    function Extent(): nat { HEADER + size }
  }

  /** Bytes covered by a list of blocks, headers included. */
  function Total(bs: seq<Block>): nat {
    if bs == [] then 0 else bs[0].Extent() + Total(bs[1..])
  }

  /** Where block `i` begins. */
  function Offset(bs: seq<Block>, i: nat): nat
    requires i <= |bs|
  {
    Total(bs[..i])
  }

  lemma {:induction false} TotalConcat(a: seq<Block>, b: seq<Block>)
    ensures Total(a + b) == Total(a) + Total(b)
  {
    if a == [] {
      assert a + b == b;
    } else {
      assert (a + b)[1..] == a[1..] + b;
      TotalConcat(a[1..], b);
    }
  }

  ghost predicate NoFreeNeighbours(bs: seq<Block>) {
    forall i :: 0 <= i < |bs| - 1 ==> bs[i].used || bs[i + 1].used
  }

  /** The list is never empty and fully coalesced. */
  ghost predicate Wf(bs: seq<Block>) { bs != [] && NoFreeNeighbours(bs) }

  /** The live allocations of blocks that begin at `base`: where each payload starts, and its size. */
  ghost function Live(bs: seq<Block>, base: nat): set<(nat, nat)> {
    if bs == [] then {}
    else (if bs[0].used then {(base + HEADER, bs[0].size)} else {}) + Live(bs[1..], base + bs[0].Extent())
  }

  lemma {:induction false} LiveConcat(a: seq<Block>, b: seq<Block>, base: nat)
    ensures Live(a + b, base) == Live(a, base) + Live(b, base + Total(a))
  {
    if a == [] {
      assert a + b == b;
    } else {
      assert (a + b)[1..] == a[1..] + b;
      LiveConcat(a[1..], b, base + a[0].Extent());
    }
  }

  // ---- kmalloc ----

  /** The request rounded up to a multiple of 8, in 32-bit arithmetic. */
  function RoundUp(n: nat): nat { (n + 7) % U32 / 8 * 8 }

  /** A request is rounded up to a multiple of 8, unless it is within 7 bytes of 4 GiB: then it is rounded to 0. */
  lemma RoundingWraps(n: nat)
    requires 0 < n < U32
    ensures RoundUp(n) >= n <==> n + 7 < U32
    ensures n + 7 < U32 ==> RoundUp(n) < n + 8 && RoundUp(n) % 8 == 0
    ensures n + 7 >= U32 ==> RoundUp(n) == 0
  {
    if n + 7 >= U32 {
      assert (n + 7) % U32 == n + 7 - U32;
    }
  }

  predicate Fits(b: Block, size: nat) { !b.used && b.size >= size }

  /** The lowest-addressed free block that is large enough, or the end of the list. */
  function FirstFit(bs: seq<Block>, size: nat, from: nat): (i: nat)
    requires from <= |bs|
    ensures from <= i <= |bs|
    ensures i < |bs| ==> Fits(bs[i], size) && !bs[i].used && bs[i].size >= size
    ensures forall k :: from <= k < i ==> !Fits(bs[k], size) && (bs[k].used || bs[k].size < size)
    decreases |bs| - from
  {
    if from == |bs| || Fits(bs[from], size) then from else FirstFit(bs, size, from + 1)
  }

  /** A block put to use: what is left becomes a block of its own if a header and eight bytes fit. */
  function Parts(b: Block, size: nat): (parts: seq<Block>)
    requires b.size >= size
    ensures |parts| >= 1 && parts[0].used && size <= parts[0].size < size + 25
    ensures Total(parts) == b.Extent()
    ensures |parts| == 1 ||
            (|parts| == 2 && parts[0].size == size && !parts[1].used && parts[1].size >= 8
             && size + 17 + parts[1].size == b.size)
  {
    if b.size - size >= HEADER + 8 then
      var rest := [Block(b.size - size - HEADER, false)];
      assert Total(rest) == b.size - size;
      assert ([Block(size, true)] + rest)[1..] == rest;
      [Block(size, true)] + rest
    else
      [Block(b.size, true)]
  }

  function Carve(bs: seq<Block>, i: nat, size: nat): seq<Block>
    requires i < |bs| && bs[i].size >= size
  {
    bs[..i] + Parts(bs[i], size) + bs[i + 1..]
  }

  /** The bytes kmalloc finds missing for a request that fits nowhere, in 32-bit arithmetic. */
  function Missing(bs: seq<Block>, size: nat): nat
    requires bs != []
  {
    var last, total := bs[|bs| - 1], (size + HEADER) % U32;
    if last.used then total else if total > last.size then total - last.size else 0
  }

  /** How many bytes the heap then grows by: 64 KiB steps, rounded up in 32-bit arithmetic, at least one. */
  function Expansion(bs: seq<Block>, size: nat): nat
    requires bs != []
  {
    var steps := (Missing(bs, size) + HEAP_THRESHOLD - 1) % U32 / HEAP_THRESHOLD;
    if steps == 0 then HEAP_THRESHOLD else steps * HEAP_THRESHOLD
  }

  /** Neither the sum with the header nor the rounding up to steps wraps. */
  predicate SumsHold(bs: seq<Block>, size: nat)
    requires bs != []
  {
    size + HEADER < U32 && Missing(bs, size) + HEAP_THRESHOLD - 1 < U32
  }

  /** The request fits somewhere, or the heap will grow by enough. */
  predicate Serves(bs: seq<Block>, size: nat)
    requires bs != []
  {
    FirstFit(bs, size, 0) < |bs| || SumsHold(bs, size)
  }

  /** The list after growing: a new last block, or a longer free last block. */
  function Grow(bs: seq<Block>, more: nat): (grown: seq<Block>)
    requires bs != [] && more >= HEADER
    ensures |grown| >= |bs|
  {
    var n := |bs| - 1;
    if bs[n].used then bs + [Block(more - HEADER, false)] else bs[..n] + [Block(bs[n].size + more, false)]
  }

  lemma ExpansionIsSteps(bs: seq<Block>, size: nat)
    requires bs != []
    ensures Expansion(bs, size) % HEAP_THRESHOLD == 0 && Expansion(bs, size) >= HEAP_THRESHOLD
  {
    hide Missing;
  }

  /** Without wrapping, growth covers what is missing with less than one step to spare. */
  lemma StepsCover(missing: nat, steps: nat)
    requires missing + HEAP_THRESHOLD - 1 < U32 && steps == (missing + HEAP_THRESHOLD - 1) % U32 / HEAP_THRESHOLD
    ensures missing <= steps * HEAP_THRESHOLD < missing + HEAP_THRESHOLD
  {
  }

  /** Growth suffices for the request, makes the last block the only one that fits, and takes at most one step of 64 KiB
      more than needed. */
  lemma ExpansionSuffices(bs: seq<Block>, size: nat)
    requires bs != [] && FirstFit(bs, size, 0) == |bs| && SumsHold(bs, size)
    ensures var more := Expansion(bs, size);
            var grown := Grow(bs, more);
            && Fits(grown[|grown| - 1], size)
            && (forall k :: 0 <= k < |grown| - 1 ==> !Fits(grown[k], size))
            && forall less :: HEADER <= less && less + 2 * HEAP_THRESHOLD <= more ==>
                 !Fits(Grow(bs, less)[|Grow(bs, less)| - 1], size)
  {
    assert !Fits(bs[|bs| - 1], size);
    StepsCover(Missing(bs, size), (Missing(bs, size) + HEAP_THRESHOLD - 1) % U32 / HEAP_THRESHOLD);
  }

  /** A sum that wraps makes the heap grow by a single step. */
  lemma WrappedExpansion(bs: seq<Block>, size: nat)
    requires bs != [] && size < U32 && !SumsHold(bs, size)
    ensures Expansion(bs, size) == HEAP_THRESHOLD && size + bs[|bs| - 1].size + 0x1_0010 >= U32
  {
    var missing := Missing(bs, size);
    if size + HEADER >= U32 {
      assert (size + HEADER) % U32 == size + HEADER - U32;
    } else {
      assert (missing + HEAP_THRESHOLD - 1) % U32 == missing + HEAP_THRESHOLD - 1 - U32;
    }
  }

  /** In a heap below its limit, growth for a request that fits nowhere suffices if and only if no sum wraps. */
  lemma SufficesIff(bs: seq<Block>, size: nat)
    requires bs != [] && size < U32 && FirstFit(bs, size, 0) == |bs| && bs[|bs| - 1].size <= HEAP_LIMIT
    ensures var grown := Grow(bs, Expansion(bs, size)); Fits(grown[|grown| - 1], size) <==> SumsHold(bs, size)
  {
    if SumsHold(bs, size) {
      ExpansionSuffices(bs, size);
    } else {
      WrappedExpansion(bs, size);
    }
  }

  /** Where the header of the rest is put when a block of `have` bytes at offset `base` is split for `size` bytes: in
      32-bit arithmetic, relative to the start of the heap. */
  function RestAt(base: nat, size: nat): int {
    if base + HEADER + size < U32 - KERNEL_MALLOC then base + HEADER + size else base + HEADER + size - U32
  }

  /** That is the address right behind the header and the payload, modulo 2^32. */
  lemma RestWraps(base: nat, size: nat)
    requires base <= HEAP_LIMIT && size < U32
    ensures 0xD000_0000 + RestAt(base, size) == (0xD000_0000 + base + 17 + size) % 0x1_0000_0000
  {
  }

  /** A request that rounds without wrapping: one live block fills the heap, the heap grows by 64 KiB instead of 4 GiB,
      and the header of the rest lands on the first bytes of the live payload. */
  lemma WrappedRequest()
    ensures var bs, size := [Block(HEAP_THRESHOLD - HEADER, true)], RoundUp(0xFFFF_0000);
            && size == 0xFFFF_0000 && FirstFit(bs, size, 0) == |bs| && !SumsHold(bs, size)
            && Expansion(bs, size) == HEAP_THRESHOLD
            && RestAt(Total(bs), size) == HEADER && (HEADER, HEAP_THRESHOLD - HEADER) in Live(bs, 0)
  {
    LiveOne(Block(HEAP_THRESHOLD - HEADER, true), 0);
  }

  /** kmalloc on the list, for a request already rounded: the new list and the block handed out. */
  function Malloc(bs: seq<Block>, size: nat): (r: (seq<Block>, nat))
    requires bs != [] && Serves(bs, size)
    ensures r.1 < |r.0|
  {
    var i := FirstFit(bs, size, 0);
    if i < |bs| then (Carve(bs, i, size), i)
    else
      var grown := Grow(bs, Expansion(bs, size));
      ExpansionSuffices(bs, size);
      (Carve(grown, |grown| - 1, size), |grown| - 1)
  }

  // ---- kfree ----

  /** The first of the blocks that freeing block `i` fuses, and the end of them. */
  function FuseLo(bs: seq<Block>, i: nat): nat
    requires i < |bs|
  {
    if i > 0 && !bs[i - 1].used then i - 1 else i
  }

  function FuseHi(bs: seq<Block>, i: nat): nat
    requires i < |bs|
  {
    if i + 1 < |bs| && !bs[i + 1].used then i + 2 else i + 1
  }

  lemma TotalPositive(bs: seq<Block>)
    requires bs != []
    ensures Total(bs) >= HEADER
  {
  }

  /** kfree on the list: block `i` and its free neighbours become one free block over the same bytes. */
  function Free(bs: seq<Block>, i: nat): seq<Block>
    requires i < |bs|
  {
    var lo, hi := FuseLo(bs, i), FuseHi(bs, i);
    TotalPositive(bs[lo..hi]);
    bs[..lo] + [Block(Total(bs[lo..hi]) - HEADER, false)] + bs[hi..]
  }

  // ---- every step keeps the list coalesced ----

  lemma JoinNoFree(a: seq<Block>, b: seq<Block>)
    requires NoFreeNeighbours(a) && NoFreeNeighbours(b)
    requires a == [] || b == [] || a[|a| - 1].used || b[0].used
    ensures NoFreeNeighbours(a + b)
  {
    forall i | 0 <= i < |a + b| - 1
      ensures (a + b)[i].used || (a + b)[i + 1].used
    {
      if i >= |a| {
        assert (a + b)[i] == b[i - |a|] && (a + b)[i + 1] == b[i - |a| + 1];
      }
    }
  }

  lemma PartNoFree(bs: seq<Block>, i: nat, j: nat)
    requires NoFreeNeighbours(bs) && i <= j <= |bs|
    ensures NoFreeNeighbours(bs[i..j])
  {
    var part := bs[i..j];
    forall k | 0 <= k < |part| - 1
      ensures part[k].used || part[k + 1].used
    {
      assert part[k] == bs[i + k] && part[k + 1] == bs[i + k + 1];
    }
  }

  lemma CarveKeepsWf(bs: seq<Block>, i: nat, size: nat)
    requires Wf(bs) && i < |bs| && Fits(bs[i], size)
    ensures Wf(Carve(bs, i, size)) && Carve(bs, i, size)[i] == Parts(bs[i], size)[0]
  {
    var parts := Parts(bs[i], size);
    PartNoFree(bs, 0, i);
    PartNoFree(bs, i + 1, |bs|);
    assert bs[0..i] == bs[..i] && bs[i + 1..|bs|] == bs[i + 1..];
    assert i + 1 < |bs| ==> bs[i + 1].used;
    hide NoFreeNeighbours;
    PartsNoFree(bs[i], size);
    JoinNoFree(bs[..i], parts);
    JoinNoFree(bs[..i] + parts, bs[i + 1..]);
  }

  lemma PartsNoFree(b: Block, size: nat)
    requires b.size >= size
    ensures NoFreeNeighbours(Parts(b, size))
  {
  }

  lemma GrowKeepsWf(bs: seq<Block>, more: nat)
    requires Wf(bs) && more >= HEADER
    ensures Wf(Grow(bs, more))
  {
    var n := |bs| - 1;
    PartNoFree(bs, 0, n);
    assert bs[0..n] == bs[..n];
    assert n > 0 && !bs[n].used ==> bs[n - 1].used;
    if bs[n].used {
      JoinNoFree(bs, [Block(more - HEADER, false)]);
    } else {
      JoinNoFree(bs[..n], [Block(bs[n].size + more, false)]);
    }
  }

  lemma MallocKeepsWf(bs: seq<Block>, size: nat)
    requires Wf(bs) && Serves(bs, size)
    ensures Wf(Malloc(bs, size).0)
  {
    hide Expansion, Grow, Carve, NoFreeNeighbours;
    var i := FirstFit(bs, size, 0);
    if i < |bs| {
      CarveKeepsWf(bs, i, size);
    } else {
      ExpansionSuffices(bs, size);
      ExpansionIsSteps(bs, size);
      var grown := Grow(bs, Expansion(bs, size));
      GrowKeepsWf(bs, Expansion(bs, size));
      CarveKeepsWf(grown, |grown| - 1, size);
    }
  }

  lemma FreeKeepsWf(bs: seq<Block>, i: nat)
    requires Wf(bs) && i < |bs| && bs[i].used
    ensures Wf(Free(bs, i))
  {
    var lo, hi := FuseLo(bs, i), FuseHi(bs, i);
    PartNoFree(bs, 0, lo);
    PartNoFree(bs, hi, |bs|);
    assert bs[0..lo] == bs[..lo] && bs[hi..|bs|] == bs[hi..];
    assert lo > 0 ==> bs[lo - 1].used;
    assert hi < |bs| ==> bs[hi].used;
    hide NoFreeNeighbours;
    TotalPositive(bs[lo..hi]);
    var fused := [Block(Total(bs[lo..hi]) - HEADER, false)];
    assert NoFreeNeighbours(fused) by { OneNoFree(fused[0]); }
    JoinNoFree(bs[..lo], fused);
    JoinNoFree(bs[..lo] + fused, bs[hi..]);
  }

  lemma OneNoFree(b: Block)
    ensures NoFreeNeighbours([b])
  {
  }

  // ---- every step changes exactly one live allocation, and covers the same bytes ----

  lemma LiveThree(x: seq<Block>, y: seq<Block>, z: seq<Block>)
    ensures Live(x + y + z, 0) == Live(x, 0) + Live(y, Total(x)) + Live(z, Total(x) + Total(y))
    ensures Total(x + y + z) == Total(x) + Total(y) + Total(z)
  {
    hide Live, Total;
    TotalConcat(x, y);
    TotalConcat(x + y, z);
    LiveConcat(x, y, 0);
    LiveConcat(x + y, z, 0);
  }

  /** Replacing the blocks [i, j) by others of the same extent. */
  lemma {:induction false} SpliceLive(bs: seq<Block>, i: nat, j: nat, mid: seq<Block>)
    requires i <= j <= |bs| && Total(mid) == Total(bs[i..j])
    ensures var cs := bs[..i] + mid + bs[j..];
            && Total(cs) == Total(bs)
            && Live(cs, 0) == Live(bs[..i], 0) + Live(mid, Offset(bs, i)) + Live(bs[j..], Offset(bs, j))
            && Live(bs, 0) == Live(bs[..i], 0) + Live(bs[i..j], Offset(bs, i)) + Live(bs[j..], Offset(bs, j))
  {
    var x, y, z := bs[..i], bs[i..j], bs[j..];
    assert bs == x + y + z && bs[..j] == x + y;
    hide Live, Total;
    LiveThree(x, y, z);
    LiveThree(x, mid, z);
    TotalConcat(x, y);
  }

  lemma LiveOne(b: Block, base: nat)
    ensures Live([b], base) == if b.used then {(base + HEADER, b.size)} else {}
    ensures Total([b]) == b.Extent()
  {
    assert Live([b][1..], base + b.Extent()) == {};
  }

  lemma PartsLive(b: Block, size: nat, base: nat)
    requires b.size >= size
    ensures Live(Parts(b, size), base) == {(base + HEADER, Parts(b, size)[0].size)}
  {
    if b.size - size >= HEADER + 8 {
      var x, y := Block(size, true), Block(b.size - size - HEADER, false);
      LiveConcat([x], [y], base);
      LiveOne(x, base);
      LiveOne(y, base + Total([x]));
    } else {
      LiveOne(Block(b.size, true), base);
    }
  }

  lemma {:induction false} CarveLive(bs: seq<Block>, i: nat, size: nat)
    requires i < |bs| && Fits(bs[i], size)
    ensures Live(Carve(bs, i, size), 0) == Live(bs, 0) + {(Offset(bs, i) + HEADER, Parts(bs[i], size)[0].size)}
    ensures Total(Carve(bs, i, size)) == Total(bs)
  {
    assert bs[i..i + 1] == [bs[i]];
    LiveOne(bs[i], Offset(bs, i));
    PartsLive(bs[i], size, Offset(bs, i));
    hide Parts, Live, Total, Offset;
    SpliceLive(bs, i, i + 1, Parts(bs[i], size));
  }

  lemma {:induction false} GrowLive(bs: seq<Block>, more: nat)
    requires bs != [] && more >= HEADER
    ensures Live(Grow(bs, more), 0) == Live(bs, 0) && Total(Grow(bs, more)) == Total(bs) + more
    ensures Offset(Grow(bs, more), |Grow(bs, more)| - 1) ==
            if bs[|bs| - 1].used then Total(bs) else Offset(bs, |bs| - 1)
  {
    var n := |bs| - 1;
    hide Live, Total;
    if bs[n].used {
      var x := Block(more - HEADER, false);
      TotalConcat(bs, [x]);
      LiveConcat(bs, [x], 0);
      LiveOne(x, Total(bs));
      assert (bs + [x])[..n + 1] == bs;
    } else {
      var x := Block(bs[n].size + more, false);
      assert bs == bs[..n] + [bs[n]];
      assert (bs[..n] + [x])[..n] == bs[..n];
      TotalConcat(bs[..n], [x]);
      TotalConcat(bs[..n], [bs[n]]);
      LiveConcat(bs[..n], [x], 0);
      LiveConcat(bs[..n], [bs[n]], 0);
      LiveOne(x, Total(bs[..n]));
      LiveOne(bs[n], Total(bs[..n]));
    }
  }

  /** A successful kmalloc adds exactly one live allocation: at the first free block that fits if there is one, else at
      the end of the heap; it has the requested bytes and at most 24 more. */
  lemma {:induction false} MallocLive(bs: seq<Block>, size: nat)
    requires Wf(bs) && Serves(bs, size)
    ensures var (cs, i) := Malloc(bs, size);
            && Live(cs, 0) == Live(bs, 0) + {(Offset(cs, i) + HEADER, cs[i].size)}
            && cs[i].used && size <= cs[i].size <= size + 24
            && Total(cs) == Total(bs) + (if FirstFit(bs, size, 0) < |bs| then 0 else Expansion(bs, size))
  {
    hide Expansion, Grow, Live, Total, Parts;
    var i := FirstFit(bs, size, 0);
    if i < |bs| {
      CarveLive(bs, i, size);
      CarveAt(bs, i, size);
    } else {
      ExpansionSuffices(bs, size);
      ExpansionIsSteps(bs, size);
      var grown := Grow(bs, Expansion(bs, size));
      GrowLive(bs, Expansion(bs, size));
      CarveLive(grown, |grown| - 1, size);
      CarveAt(grown, |grown| - 1, size);
    }
  }

  lemma CarveAt(bs: seq<Block>, i: nat, size: nat)
    requires i < |bs| && Fits(bs[i], size)
    ensures i < |Carve(bs, i, size)| && Carve(bs, i, size)[i] == Parts(bs[i], size)[0]
    ensures Offset(Carve(bs, i, size), i) == Offset(bs, i)
  {
    assert Carve(bs, i, size)[..i] == bs[..i];
  }

  /** Live payloads lie inside the extent of their blocks, behind a header. */
  lemma {:induction false} LiveBounds(bs: seq<Block>, base: nat, o: nat, s: nat)
    requires (o, s) in Live(bs, base)
    ensures base + HEADER <= o && o + s <= base + Total(bs)
  {
    if (o, s) in Live(bs[1..], base + bs[0].Extent()) {
      LiveBounds(bs[1..], base + bs[0].Extent(), o, s);
    }
  }

  /** Two live payloads never overlap; there is room for a header between them. */
  lemma {:induction false} LiveDisjoint(bs: seq<Block>, base: nat, o: nat, s: nat, o': nat, s': nat)
    requires (o, s) in Live(bs, base) && (o', s') in Live(bs, base) && (o, s) != (o', s')
    ensures o + s + HEADER <= o' || o' + s' + HEADER <= o
  {
    var rest, base' := bs[1..], base + bs[0].Extent();
    if (o, s) in Live(rest, base') {
      LiveBounds(rest, base', o, s);
    }
    if (o', s') in Live(rest, base') {
      LiveBounds(rest, base', o', s');
    }
    if (o, s) in Live(rest, base') && (o', s') in Live(rest, base') {
      LiveDisjoint(rest, base', o, s, o', s');
    }
  }

  /** No header lies inside a live payload. */
  lemma {:induction false} LiveApartFromHeaders(bs: seq<Block>, base: nat, k: nat, o: nat, s: nat)
    requires (o, s) in Live(bs, base) && k < |bs|
    ensures o + s <= base + Offset(bs, k) || base + Offset(bs, k) + HEADER <= o
    decreases |bs|
  {
    LiveBounds(bs, base, o, s);
    if k == 0 {
      assert bs[..0] == [];
    } else {
      var rest, base' := bs[1..], base + bs[0].Extent();
      assert bs[..k] == [bs[0]] + rest[..k - 1];
      TotalConcat([bs[0]], rest[..k - 1]);
      LiveOne(bs[0], 0);
      if (o, s) in Live(rest, base') {
        LiveApartFromHeaders(rest, base', k - 1, o, s);
      }
    }
  }

  lemma OnlyMiddleLive(x: seq<Block>, b: Block, z: seq<Block>, base: nat)
    requires b.used && forall c :: c in x ==> !c.used
    requires forall c :: c in z ==> !c.used
    ensures Live(x + [b] + z, base) == {(base + Total(x) + HEADER, b.size)}
  {
    LiveOne(b, base + Total(x));
    hide Live, Total;
    LiveConcat(x + [b], z, base);
    LiveConcat(x, [b], base);
    AllFreeLive(x, base);
    AllFreeLive(z, base + Total(x + [b]));
  }

  lemma FusedLive(bs: seq<Block>, i: nat)
    requires i < |bs| && bs[i].used
    ensures var lo, hi := FuseLo(bs, i), FuseHi(bs, i);
            Live(bs[lo..hi], Offset(bs, lo)) == {(Offset(bs, i) + HEADER, bs[i].size)}
  {
    var lo, hi := FuseLo(bs, i), FuseHi(bs, i);
    var x, z := bs[lo..i], bs[i + 1..hi];
    assert bs[lo..hi] == x + [bs[i]] + z;
    assert bs[..i] == bs[..lo] + x;
    hide Live, Total;
    TotalConcat(bs[..lo], x);
    OnlyMiddleLive(x, bs[i], z, Offset(bs, lo));
  }

  lemma {:induction false} AllFreeLive(bs: seq<Block>, base: nat)
    requires forall b :: b in bs ==> !b.used
    ensures Live(bs, base) == {}
  {
    if bs != [] {
      AllFreeLive(bs[1..], base + bs[0].Extent());
    }
  }

  /** kfree takes away exactly the freed allocation and keeps the extent of the heap. */
  lemma {:induction false} FreeLive(bs: seq<Block>, i: nat)
    requires Wf(bs) && i < |bs| && bs[i].used
    ensures Live(Free(bs, i), 0) == Live(bs, 0) - {(Offset(bs, i) + HEADER, bs[i].size)}
    ensures (Offset(bs, i) + HEADER, bs[i].size) in Live(bs, 0) && Total(Free(bs, i)) == Total(bs)
  {
    var lo, hi := FuseLo(bs, i), FuseHi(bs, i);
    FusedLive(bs, i);
    TotalPositive(bs[lo..hi]);
    var fused := Block(Total(bs[lo..hi]) - HEADER, false);
    LiveOne(fused, Offset(bs, lo));
    var gone := (Offset(bs, i) + HEADER, bs[i].size);
    FreedOutside(bs, i);
    hide Live, Total, Offset, FuseLo, FuseHi, NoFreeNeighbours;
    SpliceLive(bs, lo, hi, [fused]);
  }

  lemma FreedOutside(bs: seq<Block>, i: nat)
    requires i < |bs|
    ensures (Offset(bs, i) + HEADER, bs[i].size) !in Live(bs[..FuseLo(bs, i)], 0)
    ensures (Offset(bs, i) + HEADER, bs[i].size) !in Live(bs[FuseHi(bs, i)..], Offset(bs, FuseHi(bs, i)))
  {
    var lo, hi := FuseLo(bs, i), FuseHi(bs, i);
    var o, s := Offset(bs, i) + HEADER, bs[i].size;
    assert bs[..i] == bs[..lo] + bs[lo..i] && bs[..hi] == bs[..i] + bs[i..hi];
    TotalConcat(bs[..lo], bs[lo..i]);
    TotalConcat(bs[..i], bs[i..hi]);
    TotalPositive(bs[i..hi]);
    hide Total;
    if (o, s) in Live(bs[..lo], 0) {
      LiveBounds(bs[..lo], 0, o, s);
    }
    if (o, s) in Live(bs[hi..], Offset(bs, hi)) {
      LiveBounds(bs[hi..], Offset(bs, hi), o, s);
    }
  }

  // ---- kfree in two steps ----

  /** Block `i` swallows its successor, header included. */
  function MergeNext(bs: seq<Block>, i: nat): seq<Block>
    requires i + 1 < |bs|
  {
    bs[..i] + [Block(bs[i].size + bs[i + 1].Extent(), bs[i].used)] + bs[i + 2..]
  }

  function Ahead(bs: seq<Block>, i: nat): seq<Block>
    requires i < |bs|
  {
    var freed := bs[i := Block(bs[i].size, false)];
    if i + 1 < |bs| && !bs[i + 1].used then MergeNext(freed, i) else freed
  }

  lemma AheadIs(bs: seq<Block>, i: nat)
    requires i < |bs|
    ensures var hi := FuseHi(bs, i);
            Ahead(bs, i) ==
            bs[..i] + [Block(bs[i].size + (if hi == i + 2 then bs[i + 1].Extent() else 0), false)] + bs[hi..]
  {
  }

  lemma FusedTotal(bs: seq<Block>, i: nat)
    requires i < |bs|
    ensures var lo, hi := FuseLo(bs, i), FuseHi(bs, i);
            Total(bs[lo..hi]) == (if lo < i then bs[i - 1].Extent() else 0) + bs[i].Extent()
                                 + (if hi == i + 2 then bs[i + 1].Extent() else 0)
  {
    var lo, hi := FuseLo(bs, i), FuseHi(bs, i);
    var x, z := if lo < i then [bs[i - 1]] else [], if hi == i + 2 then [bs[i + 1]] else [];
    assert bs[lo..hi] == x + [bs[i]] + z;
    TotalConcat(x + [bs[i]], z);
    TotalConcat(x, [bs[i]]);
    LiveOne(bs[i], 0);
    if x != [] { LiveOne(bs[i - 1], 0); }
    if z != [] { LiveOne(bs[i + 1], 0); }
  }

  /** Merging with the next block and then with the previous one fuses the same blocks. */
  lemma {:induction false} FreeIsMerges(bs: seq<Block>, i: nat)
    requires i < |bs|
    ensures |Ahead(bs, i)| > i
    ensures Free(bs, i) == if i > 0 && !bs[i - 1].used then MergeNext(Ahead(bs, i), i - 1) else Ahead(bs, i)
  {
    AheadIs(bs, i);
    FusedTotal(bs, i);
    hide Total, Ahead;
    var ahead := Ahead(bs, i);
    if i > 0 && !bs[i - 1].used {
      assert ahead[..i - 1] == bs[..i - 1] && ahead[i - 1] == bs[i - 1];
      assert ahead[i + 1..] == bs[FuseHi(bs, i)..];
    }
  }

  /** Fusing two free blocks touches no live allocation. */
  lemma {:induction false} MergeFreeLive(bs: seq<Block>, i: nat)
    requires i + 1 < |bs| && !bs[i].used && !bs[i + 1].used
    ensures Live(MergeNext(bs, i), 0) == Live(bs, 0) && Total(MergeNext(bs, i)) == Total(bs)
  {
    var x := Block(bs[i].size + bs[i + 1].Extent(), false);
    assert bs[i..i + 2] == [bs[i]] + [bs[i + 1]];
    LiveOne(x, Offset(bs, i));
    LiveOne(bs[i], Offset(bs, i));
    LiveOne(bs[i + 1], Offset(bs, i) + bs[i].Extent());
    hide Live, Total, Offset;
    TotalConcat([bs[i]], [bs[i + 1]]);
    LiveConcat([bs[i]], [bs[i + 1]], Offset(bs, i));
    SpliceLive(bs, i, i + 2, [x]);
  }

  /** Clearing the used flag of a block. */
  lemma {:induction false} RelabelLive(bs: seq<Block>, i: nat)
    requires i < |bs|
    ensures Live(bs[i := Block(bs[i].size, false)], 0) <= Live(bs, 0) &&
             Total(bs[i := Block(bs[i].size, false)]) == Total(bs)
  {
    var x := Block(bs[i].size, false);
    assert bs[i..i + 1] == [bs[i]];
    assert bs[i := x] == bs[..i] + [x] + bs[i + 1..];
    LiveOne(x, Offset(bs, i));
    LiveOne(bs[i], Offset(bs, i));
    hide Live, Total, Offset;
    SpliceLive(bs, i, i + 1, [x]);
  }

  // ---- undoing ----

  /** Freeing what was just allocated restores the list, block for block, when the heap did not grow. */
  lemma {:induction false} FreeUndoesMalloc(bs: seq<Block>, size: nat)
    requires Wf(bs) && FirstFit(bs, size, 0) < |bs|
    ensures Free(Malloc(bs, size).0, Malloc(bs, size).1) == bs
  {
    var i := FirstFit(bs, size, 0);
    var parts := Parts(bs[i], size);
    var cs := Carve(bs, i, size);
    assert i > 0 ==> bs[i - 1].used && cs[i - 1] == bs[i - 1];
    assert i + 1 < |bs| ==> bs[i + 1].used && cs[i + |parts|] == bs[i + 1];
    assert |parts| <= 2 && (|parts| == 2 ==> cs[i + 1] == parts[1] && !parts[1].used);
    assert FuseLo(cs, i) == i && FuseHi(cs, i) == i + |parts|;
    assert cs[i..i + |parts|] == parts;
    assert cs[..i] == bs[..i] && cs[i + |parts|..] == bs[i + 1..];
    assert Free(cs, i) == bs[..i] + [bs[i]] + bs[i + 1..];
  }

  // ---- whole runs ----

  /** A call of kmalloc or kfree, or a byte that a caller stores. */
  datatype Call = Alloc(size: nat) | Release(payload: nat) | Store(at: nat, b: byte)

  /** A request that fits or for which the heap can grow. */
  ghost predicate Served(bs: seq<Block>, call: Call)
    requires bs != []
  {
    call.Alloc? && call.size > 0 ==> Serves(bs, RoundUp(call.size))
  }

  /** The block whose payload starts at offset `o`, or the end of the list. */
  function BlockAt(bs: seq<Block>, o: nat, from: nat): (i: nat)
    requires from <= |bs|
    ensures i <= |bs| && (i < |bs| ==> Offset(bs, i) + HEADER == o)
    decreases |bs| - from
  {
    if from == |bs| || Offset(bs, from) + HEADER == o then from else BlockAt(bs, o, from + 1)
  }

  /** One call: a request of 0 bytes and a pointer that is not live change nothing. */
  ghost function Perform(bs: seq<Block>, call: Call): seq<Block>
    requires bs != [] && Served(bs, call)
  {
    match call
    case Alloc(size) => if size == 0 then bs else Malloc(bs, RoundUp(size)).0
    case Release(o) =>
      var i := BlockAt(bs, o, 0);
      if i < |bs| && bs[i].used then Free(bs, i) else bs
    case Store(_, _) => bs
  }

  lemma PerformKeepsWf(bs: seq<Block>, call: Call)
    requires Wf(bs) && Served(bs, call)
    ensures Wf(Perform(bs, call))
    ensures Total(Perform(bs, call)) >= Total(bs) && (Total(Perform(bs, call)) - Total(bs)) % HEAP_THRESHOLD == 0
  {
    hide Malloc, Free, NoFreeNeighbours, Live, Total, Expansion, FirstFit;
    match call {
      case Alloc(size) =>
        if size != 0 {
          MallocKeepsWf(bs, RoundUp(size));
          MallocLive(bs, RoundUp(size));
          ExpansionIsSteps(bs, RoundUp(size));
        }
      case Release(o) =>
        var i := BlockAt(bs, o, 0);
        if i < |bs| && bs[i].used {
          FreeKeepsWf(bs, i);
          FreeLive(bs, i);
        }
      case Store(_, _) =>
    }
  }

  /** Every request of the run can be served when its turn comes. */
  ghost predicate RunServed(bs: seq<Block>, calls: seq<Call>)
    requires Wf(bs)
    decreases |calls|
  {
    calls == [] ||
    (Served(bs, calls[0]) && (PerformKeepsWf(bs, calls[0]); RunServed(Perform(bs, calls[0]), calls[1..])))
  }

  ghost function RunCalls(bs: seq<Block>, calls: seq<Call>): (r: seq<Block>)
    requires Wf(bs) && RunServed(bs, calls)
    ensures Wf(r)
    decreases |calls|
  {
    if calls == [] then bs
    else
      PerformKeepsWf(bs, calls[0]);
      RunCalls(Perform(bs, calls[0]), calls[1..])
  }

  lemma {:induction false} RunExtent(bs: seq<Block>, calls: seq<Call>)
    requires Wf(bs) && RunServed(bs, calls)
    ensures Total(RunCalls(bs, calls)) >= Total(bs)
    ensures (Total(RunCalls(bs, calls)) - Total(bs)) % HEAP_THRESHOLD == 0
    decreases |calls|
  {
    hide Perform, Total;
    if calls != [] {
      PerformKeepsWf(bs, calls[0]);
      RunExtent(Perform(bs, calls[0]), calls[1..]);
    }
  }

  lemma TwoBlocksLive(bs: seq<Block>)
    requires Wf(bs) && |bs| > 1
    ensures Live(bs, 0) != {}
  {
    if bs[0].used {
      assert (HEADER, bs[0].size) in Live(bs, 0);
    } else {
      assert bs[1..][0] == bs[1];
      assert (bs[0].Extent() + HEADER, bs[1].size) in Live(bs[1..], bs[0].Extent());
    }
  }

  /** A coalesced heap without live allocations is one free block over everything but its header. */
  lemma {:induction false} NothingLive(bs: seq<Block>)
    requires Wf(bs) && Live(bs, 0) == {}
    ensures Total(bs) >= HEADER && bs == [Block(Total(bs) - HEADER, false)]
  {
    if |bs| > 1 {
      TwoBlocksLive(bs);
    } else {
      LiveOne(bs[0], 0);
      assert bs == [bs[0]];
    }
  }

  /** After any run in which everything allocated has been freed, in whatever order, the heap is one free block again,
      possibly longer than at the start by whole 64 KiB steps. */
  lemma {:induction false} AllFreed(bs: seq<Block>, calls: seq<Call>)
    requires Wf(bs) && RunServed(bs, calls) && Live(RunCalls(bs, calls), 0) == {}
    ensures var end := RunCalls(bs, calls); Total(end) >= HEADER && end == [Block(Total(end) - HEADER, false)]
    ensures (Total(RunCalls(bs, calls)) - Total(bs)) % HEAP_THRESHOLD == 0
  {
    hide RunCalls, Live, Total;
    NothingLive(RunCalls(bs, calls));
    RunExtent(bs, calls);
  }
}
