/** kmalloc and kfree, chasing and rewriting the block headers in memory. */
module KernelHeap {
  import opened Bytes
  import opened HeapBlocks
  import opened HeapMemory

  lemma OneFreeBlock(mem: seq<byte>)
    requires |mem| == HEAP_THRESHOLD
    requires HeaderAt(mem, 0) == Header(HEAP_MAGIC, HEAP_THRESHOLD - HEADER, false, 0, 0)
    ensures var bs := [Block(HEAP_THRESHOLD - HEADER, false)];
            Wf(bs) && Total(bs) == HEAP_THRESHOLD && Segment(mem, bs, 0, 0, 0)
  {
    hide HeaderAt;
    SegmentOne(mem, Block(HEAP_THRESHOLD - HEADER, false), 0, 0, 0);
  }

  class Heap {
    var mem: seq<byte>            // the mapped bytes from KERNEL_MALLOC on
    var heapHead: nat
    var heapSize: nat
    ghost var blocks: seq<Block>

    ghost predicate Valid()
      reads this
    {
      && Wf(blocks)
      && |mem| == heapSize == Total(blocks) && heapSize <= HEAP_LIMIT && heapSize % HEAP_THRESHOLD == 0
      && heapHead == Addr(0)
      && Segment(mem, blocks, 0, 0, 0)
    }

    /** kmalloc_init: one free block over the first 64 KiB. */
    constructor (contents: nat -> byte)
      ensures Valid() && blocks == [Block(65519, false)] && |mem| == heapSize == 65536 && heapHead == 0xD000_0000
    {
      hide HeaderAt, HeaderEdit, Segment, Live, Wf, Total;
      mem, heapSize, heapHead := [], 0, Addr(0);
      blocks := [Block(HEAP_THRESHOLD - HEADER, false)];
      new;
      ChangeHeapSize(HEAP_THRESHOLD, contents);
      WriteHeader(0, heapSize - HEADER, false, 0, 0);
      OneFreeBlock(mem);
    }

    // ---- header fields; a block is given by its offset ----

    method SetMagic(o: nat)
      requires o + HEADER <= |mem|
      modifies this`mem
      ensures |mem| == old(|mem|) && HeaderEdit(old(mem), mem, o) &&
               HeaderAt(mem, o) == HeaderAt(old(mem), o).(magic := HEAP_MAGIC)
    {
      mem := PutWord(mem, o, HEAP_MAGIC);
    }

    method SetSize(o: nat, size: u32)
      requires o + HEADER <= |mem|
      modifies this`mem
      ensures |mem| == old(|mem|) && HeaderEdit(old(mem), mem, o) &&
               HeaderAt(mem, o) == HeaderAt(old(mem), o).(size := size)
    {
      mem := PutWord(mem, o + 4, size);
    }

    method SetUsed(o: nat, used: bool)
      requires o + HEADER <= |mem|
      modifies this`mem
      ensures |mem| == old(|mem|) && HeaderEdit(old(mem), mem, o) &&
               HeaderAt(mem, o) == HeaderAt(old(mem), o).(used := used) && mem[o + 8] == if used then 1 else 0
    {
      mem := mem[o + 8 := if used then 1 else 0];
    }

    method SetNext(o: nat, next: u32)
      requires o + HEADER <= |mem|
      modifies this`mem
      ensures |mem| == old(|mem|) && HeaderEdit(old(mem), mem, o) &&
               HeaderAt(mem, o) == HeaderAt(old(mem), o).(next := next)
    {
      mem := PutWord(mem, o + 9, next);
    }

    method SetPrev(o: nat, prev: u32)
      requires o + HEADER <= |mem|
      modifies this`mem
      ensures |mem| == old(|mem|) && HeaderEdit(old(mem), mem, o) &&
               HeaderAt(mem, o) == HeaderAt(old(mem), o).(prev := prev)
    {
      mem := PutWord(mem, o + 13, prev);
    }

    method WriteHeader(o: nat, size: u32, used: bool, next: u32, prev: u32)
      requires o + HEADER <= |mem|
      modifies this`mem
      ensures |mem| == old(|mem|) && HeaderEdit(old(mem), mem, o) &&
               HeaderAt(mem, o) == Header(HEAP_MAGIC, size, used, next, prev)
    {
      hide HeaderAt;
      SetMagic(o);
      SetSize(o, size);
      SetUsed(o, used);
      SetNext(o, next);
      SetPrev(o, prev);
    }

    // ---- kmalloc ----

    /** The block at `next`, if there is one, points back to `prev`. */
    method LinkBack(next: nat, prev: u32)
      requires next == 0 || (Addr(0) <= next && next - Addr(0) + HEADER <= |mem|)
      modifies this`mem
      ensures |mem| == old(|mem|) && LinkedBack(old(mem), mem, next, prev)
    {
      hide HeaderAt;
      if next != 0 {
        SetPrev(next - Addr(0), prev);
      }
    }

    /** The block at `o` becomes used, with a new size and successor. */
    method TakeFront(o: nat, size: u32, next: u32)
      requires o + HEADER <= |mem|
      modifies this`mem
      ensures |mem| == old(|mem|) && HeaderEdit(old(mem), mem, o)
      ensures HeaderAt(mem, o) == HeaderAt(old(mem), o).(size := size, next := next, used := true)
    {
      hide HeaderAt;
      SetSize(o, size);
      SetNext(o, next);
      SetUsed(o, true);
    }

    /** Split block `i` at `base` into a used block of `size` bytes and a free rest. */
    method SplitBlock(base: nat, size: nat, ghost i: nat)
      requires i < |blocks| && Fits(blocks[i], size) && base == Offset(blocks, i)
      requires Segment(mem, blocks, 0, 0, 0) && |mem| == Total(blocks) <= HEAP_LIMIT
      requires blocks[i].size - size >= HEADER + 8
      modifies this`mem
      ensures |mem| == old(|mem|) && LiveKept(old(mem), mem, Live(blocks, 0))
      ensures Segment(mem, Carve(blocks, i, size), 0, 0, 0)
    {
      hide HeaderAt, Segment, Total, Live, LiveKept, Offset, LinkedBack, HeaderEdit, Carve;
      HeaderOf(mem, blocks, i);
      var next := HeaderAt(mem, base).next;
      var remaining := HeaderAt(mem, base).size - size;
      var split := base + HEADER + size;
      ghost var m0 := mem;
      WriteHeader(split, remaining - HEADER, false, next, Addr(base));
      ghost var m1 := mem;
      LinkBack(next, Addr(split));
      ghost var m2 := mem;
      TakeFront(base, size, Addr(split));
      SplitDone(m0, m1, m2, mem, blocks, i, size, base, next);
      SplitKeepsLive(m0, m1, m2, mem, blocks, i, size, base, next);
    }

    /** Put block `i` at `base` to use for a request of `size` bytes. */
    method CarveBlock(base: nat, size: nat, ghost i: nat)
      requires i < |blocks| && Fits(blocks[i], size) && base == Offset(blocks, i)
      requires Segment(mem, blocks, 0, 0, 0) && |mem| == Total(blocks) <= HEAP_LIMIT
      modifies this`mem, this`blocks
      ensures blocks == Carve(old(blocks), i, size) && |mem| == old(|mem|)
      ensures Segment(mem, blocks, 0, 0, 0) && LiveKept(old(mem), mem, Live(old(blocks), 0))
    {
      hide HeaderAt, Segment, Total, Live, LiveKept, Offset, HeaderEdit;
      HeaderOf(mem, blocks, i);
      var remaining := HeaderAt(mem, base).size - size;
      if remaining >= HEADER + 8 {
        SplitBlock(base, size, i);
      } else {
        ghost var m0 := mem;
        SetUsed(base, true);
        Relabelled(m0, mem, blocks, i, true);
        HeaderEditKeepsLive(m0, mem, blocks, i);
      }
      blocks := Carve(blocks, i, size);
    }

    /** change_heap_size, growing: whole pages are mapped behind the heap; `contents` is whatever the frames behind them
        happen to hold. */
    method ChangeHeapSize(newHeapSize: nat, contents: nat -> byte)
      requires |mem| == heapSize <= newHeapSize && heapSize % 0x1000 == 0 && newHeapSize % 0x1000 == 0
      modifies this`mem, this`heapSize
      ensures |mem| == heapSize == newHeapSize
      ensures forall k :: 0 <= k < |old(mem)| ==> mem[k] == old(mem)[k]
    {
      var oldPageTop := (heapSize + 0x1000 - 1) / 0x1000;
      var newPageTop := (newHeapSize + 0x1000 - 1) / 0x1000;
      if newPageTop > oldPageTop {
        var diff, i := newPageTop - oldPageTop, 0;
        while i < diff
          invariant 0 <= i <= diff && |mem| == (oldPageTop + i) * 0x1000
          invariant forall k :: 0 <= k < |old(mem)| ==> mem[k] == old(mem)[k]
        {
          mem := mem + seq(0x1000, k requires 0 <= k => contents(k));
          i := i + 1;
        }
      }
      heapSize := newPageTop * 0x1000;
    }

    /** kmalloc's computation of how far to grow, from the header of the last block at `prev`. */
    method ExpandSize(prev: nat, size: nat) returns (expand: nat)
      requires blocks != [] && Segment(mem, blocks, 0, 0, 0) && prev == LastOffset(blocks)
      ensures prev + HEADER <= |mem| && expand == Expansion(blocks, size)
    {
      hide HeaderAt, Segment, Total;
      HeaderOf(mem, blocks, |blocks| - 1);
      var totalNeeded := (size + HEADER) % U32;
      if !HeaderAt(mem, prev).used {
        if totalNeeded > HeaderAt(mem, prev).size {
          totalNeeded := totalNeeded - HeaderAt(mem, prev).size;
        } else {
          totalNeeded := 0;
        }
      }
      expand := (totalNeeded + HEAP_THRESHOLD - 1) % U32 / HEAP_THRESHOLD * HEAP_THRESHOLD;
      if expand == 0 {
        expand := HEAP_THRESHOLD;
      }
    }

    /** Grow, write the header of the new block at the old end, and link the last block to it. */
    method NewBlock(prev: nat, more: nat, contents: nat -> byte)
      requires prev + HEADER <= |mem| == heapSize && heapSize % HEAP_THRESHOLD == 0
      requires more >= HEAP_THRESHOLD && more % HEAP_THRESHOLD == 0 && heapSize + more <= HEAP_LIMIT
      modifies this`mem, this`heapSize
      ensures |mem| == heapSize == old(heapSize) + more && Extended(old(mem), mem, prev)
      ensures HeaderAt(mem, prev) == HeaderAt(old(mem), prev).(next := Addr(old(heapSize)))
      ensures HeaderAt(mem, old(heapSize)) == Header(HEAP_MAGIC, more - HEADER, false, 0, Addr(prev))
    {
      hide HeaderAt, HeaderEdit, Extended;
      ghost var m0 := mem;
      var oldHeapSize := heapSize;
      StepsArePages(heapSize, more);
      ChangeHeapSize(oldHeapSize + more, contents);
      ghost var m1 := mem;
      WriteHeader(oldHeapSize, heapSize - oldHeapSize - HEADER, false, 0, Addr(prev));
      ghost var m2 := mem;
      SetNext(prev, Addr(oldHeapSize));
      GrownHeaders(m0, m1, m2, mem, prev, oldHeapSize, more);
    }

    /** The growth of kmalloc: a new block behind the last one at `prev`, merged into it if it is free. */
    method GrowHeap(prev: nat, more: nat, contents: nat -> byte) returns (block: nat)
      requires blocks != [] && Segment(mem, blocks, 0, 0, 0) && prev == LastOffset(blocks)
      requires |mem| == heapSize == Total(blocks) && heapSize % HEAP_THRESHOLD == 0
      requires more >= HEAP_THRESHOLD && more % HEAP_THRESHOLD == 0 && heapSize + more <= HEAP_LIMIT
      modifies this`mem, this`heapSize, this`blocks
      ensures blocks == Grow(old(blocks), more) && |mem| == heapSize == old(heapSize) + more
      ensures Segment(mem, blocks, 0, 0, 0) && block == LastOffset(blocks)
      ensures LiveKept(old(mem), mem, Live(old(blocks), 0))
    {
      ghost var m0, bs := mem, blocks;
      hide HeaderAt, Segment, Total, Live, LiveKept, HeaderEdit, Offset, Extended, LastOffset;
      LastHeader(mem, bs);
      var oldHeapSize := heapSize;
      NewBlock(prev, more, contents);
      ghost var m3 := mem;
      if !HeaderAt(mem, prev).used {
        var added := HeaderAt(mem, oldHeapSize);
        SetSizeNext(prev, HeaderAt(mem, prev).size + HEADER + added.size, added.next);
        GrownMerged(m0, m3, mem, bs, prev, more);
        block := prev;
      } else {
        Appended(m0, mem, bs, Block(more - HEADER, false), prev);
        block := oldHeapSize;
      }
      ExtendedKeepsLive(m0, mem, bs);
      GrownLast(bs, more);
      blocks := Grow(blocks, more);
    }

    method SetSizeNext(o: nat, size: u32, next: u32)
      requires o + HEADER <= |mem|
      modifies this`mem
      ensures |mem| == old(|mem|) && HeaderEdit(old(mem), mem, o)
      ensures HeaderAt(mem, o) == HeaderAt(old(mem), o).(size := size, next := next)
    {
      hide HeaderAt;
      SetSize(o, size);
      SetNext(o, next);
    }

    /** The split of kmalloc when the block at `base` is smaller than the request: the size of the rest and its address
        wrap. */
    method Misplace(base: nat, size: nat, ghost m0: seq<byte>, ghost bs: seq<Block>)
      requires bs != [] && AfterGrowth(m0, mem, bs, size) && blocks == Larger(bs, size) && base == GrownBase(bs, size)
      requires |mem| <= HEAP_LIMIT && size < U32
      requires blocks[|blocks| - 1].size < size && U32 + blocks[|blocks| - 1].size - size >= HEADER + 8
      requires 0 <= RestAt(base, size) && RestAt(base, size) + HEADER <= |mem|
      modifies this`mem
      ensures Misplaced(m0, mem, bs, size)
    {
      hide HeaderAt, Segment, Total, Live, LiveKept, HeaderEdit, Larger, RestAt, GrownBase, Strayed;
      LastHeader(mem, blocks);
      BaseIs(bs, size);
      RestWraps(base, size);
      ghost var m1 := mem;
      var have := HeaderAt(mem, base).size;
      var remaining := (have - size) % U32;
      var next := HeaderAt(mem, base).next;
      var split := (Addr(base) + HEADER + size) % U32 - KERNEL_MALLOC;
      WriteHeader(split, remaining - HEADER, false, next, Addr(base));
      ghost var m2 := mem;
      LinkBack(next, Addr(split));
      assert mem == m2;
      TakeFront(base, size, Addr(split));
      assert Misplacing(m1, m2, mem, base, split, size, have);
      StrayIs(m0, m1, m2, mem, bs, size, have);
    }

    lemma StrayIs(m0: seq<byte>, m1: seq<byte>, m2: seq<byte>, m: seq<byte>, bs: seq<Block>, size: nat, have: nat)
      requires bs != [] && AfterGrowth(m0, m1, bs, size) && RestAt(GrownBase(bs, size), size) >= 0
      requires have == Larger(bs, size)[|Larger(bs, size)| - 1].size
      requires Misplacing(m1, m2, m, GrownBase(bs, size), RestAt(GrownBase(bs, size), size), size, have)
      ensures Strayed(m0, m1, m2, m, bs, size)
    {
      hide AfterGrowth, Misplacing, GrownBase, RestAt, Larger;
    }

    lemma BaseIs(bs: seq<Block>, size: nat)
      requires bs != []
      ensures GrownBase(bs, size) == LastOffset(Larger(bs, size))
    {
    }

    /** The part of kmalloc after the search has failed: grow, then put the last block to use. */
    method Extend(prev: nat, size: nat, contents: nat -> byte) returns (block: nat)
      requires Valid() && prev == LastOffset(blocks) && FirstFit(blocks, size, 0) == |blocks| && size < U32
      requires heapSize + Expansion(blocks, size) <= HEAP_LIMIT
      requires !SumsHold(blocks, size) ==> RestAt(GrownBase(blocks, size), size) >= 0
      modifies this`mem, this`heapSize, this`blocks
      ensures SumsHold(old(blocks), size) ==>
                var (bs, i) := Malloc(old(blocks), size);
                && Valid() && LiveKept(old(mem), mem, Live(old(blocks), 0))
                && blocks == bs && block == Offset(bs, i)
      ensures !SumsHold(old(blocks), size) ==>
                Misplaced(old(mem), mem, old(blocks), size) && block == GrownBase(old(blocks), size)
    {
      hide HeaderAt, Segment, Total, Live, LiveKept, HeaderEdit, Offset, Expansion, Grow, Carve, LastOffset;
      hide NoFreeNeighbours, Parts, SumsHold, Misplaced, RestAt;
      ghost var bs, m0 := blocks, mem;
      ExpansionIsSteps(bs, size);
      var more := ExpandSize(prev, size);
      GrowLive(bs, more);
      GrowKeepsWf(bs, more);
      block := GrowHeap(prev, more, contents);
      ghost var grown, m1 := blocks, mem;
      LastHeader(mem, grown);
      LastIs(grown);
      if HeaderAt(mem, block).size >= size {
        if !SumsHold(bs, size) {
          StrayFacts(bs, size);
          assert false;
        }
        ExpansionSuffices(bs, size);
        CarveAt(grown, |grown| - 1, size);
        CarveLive(grown, |grown| - 1, size);
        CarveKeepsWf(grown, |grown| - 1, size);
        CarveBlock(block, size, |grown| - 1);
        LiveKeptTwice(m0, m1, mem, Live(bs, 0));
      } else {
        if SumsHold(bs, size) {
          ExpansionSuffices(bs, size);
          assert false;
        }
        StrayFacts(bs, size);
        Misplace(block, size, m0, bs);
      }
    }

    /**
     * kmalloc: 0 for a request of 0 bytes, else the payload address of the block handed out. The heap has to stay below
     * its limit. A request that fits nowhere and whose sums wrap is answered all the same; it leaves no heap behind.
     * That is described as far as the header that goes astray lands inside the heap.
     */
    method Kmalloc(n: nat, contents: nat -> byte) returns (ptr: nat)
      requires Valid() && n < U32
      requires n > 0 && FirstFit(blocks, RoundUp(n), 0) == |blocks| ==>
                 heapSize + Expansion(blocks, RoundUp(n)) <= HEAP_LIMIT
      requires n > 0 && !Serves(blocks, RoundUp(n)) ==> RestAt(GrownBase(blocks, RoundUp(n)), RoundUp(n)) >= 0
      modifies this`mem, this`heapSize, this`blocks
      ensures n == 0 ==> Valid() && ptr == 0 && blocks == old(blocks) && mem == old(mem)
      ensures n > 0 && Serves(old(blocks), RoundUp(n)) ==>
                var (bs, i) := Malloc(old(blocks), RoundUp(n));
                && Valid() && LiveKept(old(mem), mem, Live(old(blocks), 0))
                && blocks == bs && ptr == 0xD000_0000 + Offset(bs, i) + 17
      ensures n > 0 && !Serves(old(blocks), RoundUp(n)) ==>
                && Misplaced(old(mem), mem, old(blocks), RoundUp(n))
                && ptr == 0xD000_0000 + GrownBase(old(blocks), RoundUp(n)) + 17
    {
      hide HeaderAt, Segment, Total, Live, LiveKept, HeaderEdit, Offset, Expansion, Grow, Carve, LastOffset;
      hide NoFreeNeighbours, Parts, SumsHold, Misplaced, RestAt, GrownBase;
      if n == 0 {
        return 0;
      }
      var size := RoundUp(n);
      ghost var bs, i := blocks, 0;
      FirstOffset(bs);
      var current, prev := heapHead, 0;
      while current != 0
        invariant 0 <= i <= |blocks| && blocks == bs && mem == old(mem) && heapSize == old(heapSize)
        invariant current == if i < |blocks| then Addr(Offset(blocks, i)) else 0
        invariant i > 0 ==> prev == Addr(Offset(blocks, i - 1))
        invariant FirstFit(blocks, size, 0) == FirstFit(blocks, size, i)
        decreases |blocks| - i
      {
        HeaderOf(mem, blocks, i);
        var header := HeaderAt(mem, current - KERNEL_MALLOC);
        if !header.used && header.size >= size {
          CarveBlock(current - KERNEL_MALLOC, size, i);
          CarveAt(bs, i, size);
          CarveLive(bs, i, size);
          CarveKeepsWf(bs, i, size);
          return current + HEADER;
        }
        prev := current;
        current := header.next;
        i := i + 1;
      }
      LastIs(blocks);
      var block := Extend(prev - KERNEL_MALLOC, size, contents);
      ptr := Addr(block + HEADER);
    }

    // ---- kfree ----

    /** Block `i` takes over the block `after` that follows it, header and payload, and whatever comes next points back
        to it. */
    method Fuse(base: nat, after: nat, ghost i: nat)
      requires i + 1 < |blocks| && base == Offset(blocks, i) && after == Offset(blocks, i + 1)
      requires Segment(mem, blocks, 0, 0, 0) && |mem| == Total(blocks) <= HEAP_LIMIT
      modifies this`mem, this`blocks
      ensures blocks == MergeNext(old(blocks), i) && |mem| == old(|mem|)
      ensures Segment(mem, blocks, 0, 0, 0) && LiveKept(old(mem), mem, Live(old(blocks), 0))
    {
      hide HeaderAt, Segment, Total, Live, LiveKept, Offset, LinkedBack, HeaderEdit, MergeNext;
      HeaderOf(mem, blocks, i);
      HeaderOf(mem, blocks, i + 1);
      NextFits(mem, blocks, i);
      ghost var m0 := mem;
      var next := HeaderAt(mem, after).next;
      SetSizeNext(base, HeaderAt(mem, base).size + HEADER + HeaderAt(mem, after).size, next);
      ghost var m1 := mem;
      LinkBack(next, Addr(base));
      FuseDone(m0, m1, mem, blocks, i);
      FuseKeepsLive(m0, m1, mem, blocks, i);
      blocks := MergeNext(blocks, i);
    }

    /** Fuse block `i` with its successor, if there is one and it is free. */
    method FuseAhead(base: nat, ghost i: nat)
      requires i < |blocks| && base == Offset(blocks, i) && !blocks[i].used
      requires Segment(mem, blocks, 0, 0, 0) && |mem| == Total(blocks) <= HEAP_LIMIT
      modifies this`mem, this`blocks
      ensures blocks == if i + 1 < |old(blocks)| &&
               !old(blocks)[i + 1].used then MergeNext(old(blocks), i) else old(blocks)
      ensures |mem| == old(|mem|) == Total(blocks) && Segment(mem, blocks, 0, 0, 0)
      ensures LiveKept(old(mem), mem, Live(blocks, 0)) && Live(blocks, 0) == Live(old(blocks), 0)
    {
      hide HeaderAt, Segment, Total, Live, LiveKept, Offset, HeaderEdit, MergeNext;
      HeaderOf(mem, blocks, i);
      NothingChanged(mem, Live(blocks, 0));
      var next := HeaderAt(mem, base).next;
      if next != 0 {
        HeaderOf(mem, blocks, i + 1);
        if !HeaderAt(mem, next - KERNEL_MALLOC).used {
          MergeFreeLive(blocks, i);
          Fuse(base, next - KERNEL_MALLOC, i);
        }
      }
    }

    /** Fuse block `i` into its predecessor, if there is one and it is free. */
    method FuseBack(base: nat, ghost i: nat)
      requires i < |blocks| && base == Offset(blocks, i) && !blocks[i].used
      requires Segment(mem, blocks, 0, 0, 0) && |mem| == Total(blocks) <= HEAP_LIMIT
      modifies this`mem, this`blocks
      ensures blocks == if i > 0 && !old(blocks)[i - 1].used then MergeNext(old(blocks), i - 1) else old(blocks)
      ensures |mem| == old(|mem|) == Total(blocks) && Segment(mem, blocks, 0, 0, 0)
      ensures LiveKept(old(mem), mem, Live(blocks, 0)) && Live(blocks, 0) == Live(old(blocks), 0)
    {
      hide HeaderAt, Segment, Total, Live, LiveKept, Offset, HeaderEdit, MergeNext;
      HeaderOf(mem, blocks, i);
      NothingChanged(mem, Live(blocks, 0));
      var prev := HeaderAt(mem, base).prev;
      if prev != 0 {
        HeaderOf(mem, blocks, i - 1);
        if !HeaderAt(mem, prev - KERNEL_MALLOC).used {
          MergeFreeLive(blocks, i - 1);
          Fuse(prev - KERNEL_MALLOC, base, i - 1);
        }
      }
    }

    /** The part of kfree after its checks. */
    method Coalesce(base: nat, ghost i: nat)
      requires i < |blocks| && base == Offset(blocks, i) && blocks[i].used
      requires Segment(mem, blocks, 0, 0, 0) && |mem| == Total(blocks) <= HEAP_LIMIT
      modifies this`mem, this`blocks
      ensures blocks == Free(old(blocks), i) && |mem| == old(|mem|)
      ensures Segment(mem, blocks, 0, 0, 0) && LiveKept(old(mem), mem, Live(blocks, 0))
    {
      hide HeaderAt, Segment, Total, Live, LiveKept, HeaderEdit, Free, MergeNext, Offset;
      ghost var bs, m0 := blocks, mem;
      HeaderOf(mem, blocks, i);
      SetUsed(base, false);
      Relabelled(m0, mem, bs, i, false);
      HeaderEditKeepsLive(m0, mem, bs, i);
      RelabelLive(bs, i);
      OffsetsAhead(bs, i);
      blocks := blocks[i := Block(blocks[i].size, false)];
      assert blocks == bs[..i] + [Block(bs[i].size, false)] + bs[i + 1..];
      LiveKeptLess(m0, mem, Live(bs, 0), Live(blocks, 0));
      ghost var m1 := mem;
      FuseAhead(base, i);
      LiveKeptTwice(m0, m1, mem, Live(blocks, 0));
      ghost var m2 := mem;
      FreeIsMerges(bs, i);
      FuseBack(base, i);
      LiveKeptTwice(m0, m2, mem, Live(blocks, 0));
    }

    ghost predicate Outside(ptr: nat)
      reads this
    {
      ptr == 0 || ptr < 0xD000_0000 || ptr >= 0xD000_0000 + heapSize
    }

    /** `ptr` is the payload address of block `i`. */
    ghost predicate PayloadOf(ptr: nat, i: nat)
      reads this
    {
      i < |blocks| && ptr == 0xD000_0000 + Offset(blocks, i) + 17
    }

    /** The word where the header of `ptr` would begin is not the magic number. */
    ghost predicate NoMagic(ptr: nat)
      reads this
    {
      && 0xD000_0011 <= ptr < 0xD000_0000 + |mem|
      && !LittleEndian(mem, ptr - 0xD000_0011, 0xDEAD_BEEF)
    }

    lemma MagicRead(m: seq<byte>, base: nat)
      requires base + HEADER <= |m| && !LittleEndian(m, base, 0xDEAD_BEEF)
      ensures HeaderAt(m, base).magic != HEAP_MAGIC
    {
      WordIs(m, base);
      hide Word, LittleEndian;
    }

    /** kfree, for 0, a pointer outside the heap, the payload address of block `i` (used or not), or a pointer with no
        header in front of it. */
    method Kfree(ptr: nat, ghost i: nat)
      requires Valid()
      requires Outside(ptr) || PayloadOf(ptr, i) || NoMagic(ptr)
      modifies this`mem, this`blocks
      ensures Valid()
      ensures LiveKept(old(mem), mem, Live(blocks, 0))
      ensures blocks == if old(!Outside(ptr) && PayloadOf(ptr, i) && blocks[i].used) then Free(old(blocks), i)
                        else old(blocks)
    {
      hide HeaderAt, Segment, Total, Live, Offset, HeaderEdit, Free, NoFreeNeighbours, MergeNext, LittleEndian;
      if ptr == 0 {
        return;
      }
      if ptr < KERNEL_MALLOC || ptr >= KERNEL_MALLOC + heapSize {
        return;
      }
      var base := ptr - KERNEL_MALLOC - HEADER;
      if NoMagic(ptr) {
        MagicRead(mem, base);
      }
      if i < |blocks| {
        HeaderOf(mem, blocks, i);
      }
      if HeaderAt(mem, base).magic != HEAP_MAGIC {
        return;
      }
      if !HeaderAt(mem, base).used {
        return;
      }
      FreeKeepsWf(blocks, i);
      FreeLive(blocks, i);
      Coalesce(base, i);
    }

    // ---- the owners of payloads ----

    /** A caller stores a byte in a payload that is live. */
    method StoreByte(at: nat, b: byte)
      requires Valid() && InLive(blocks, at)
      modifies this`mem
      ensures Valid() && at < |old(mem)| && mem == old(mem)[at := b]
    {
      hide Segment, Live, Total, Wf;
      StoreKeepsSegment(mem, blocks, at, b);
      mem := mem[at := b];
    }
  }
}
