/** The bitmap allocator of physical page frames. */
module PageFrames {
  const NUM_PAGE_FRAMES := 0x1_0000

  function Mask(i: nat): bv8
    requires i < 8
  {
    if i == 0 then 1 else if i == 1 then 2 else if i == 2 then 4 else if i == 3 then 8
    else if i == 4 then 16 else if i == 5 then 32 else if i == 6 then 64 else 128
  }

  predicate Bit(b: bv8, i: nat)
    requires i < 8
  {
    b & Mask(i) != 0
  }

  function WithBit(b: bv8, i: nat): bv8
    requires i < 8
  {
    b | Mask(i)
  }

  function WithoutBit(b: bv8, i: nat): bv8
    requires i < 8
  {
    b & !Mask(i)
  }

  /** Bit `f % 8` of byte `f / 8`, counted from the low end: `bitmap[f / 8] & 1 << f % 8`. */
  lemma MarkedIs(bitmap: seq<bv8>, f: nat)
    ensures f in MarkedSet(bitmap) <==> f / 8 < |bitmap| && (bitmap[f / 8] >> f % 8) & 1 == 1
  {
    if f / 8 < |bitmap| {
      BitIs(bitmap[f / 8], f % 8);
    }
  }

  lemma BitIs(b: bv8, i: nat)
    requires i < 8
    ensures Bit(b, i) <==> (b >> i) & 1 == 1
  {
    match i
    case 0 => assert Bit(b, 0) <==> (b >> 0) & 1 == 1;
    case 1 => assert Bit(b, 1) <==> (b >> 1) & 1 == 1;
    case 2 => assert Bit(b, 2) <==> (b >> 2) & 1 == 1;
    case 3 => assert Bit(b, 3) <==> (b >> 3) & 1 == 1;
    case 4 => assert Bit(b, 4) <==> (b >> 4) & 1 == 1;
    case 5 => assert Bit(b, 5) <==> (b >> 5) & 1 == 1;
    case 6 => assert Bit(b, 6) <==> (b >> 6) & 1 == 1;
    case _ => assert Bit(b, 7) <==> (b >> 7) & 1 == 1;
  }

  lemma MaskSets(b: bv8, i: nat, j: nat)
    requires i < 8 && j < 8
    ensures Bit(WithBit(b, i), j) <==> i == j || Bit(b, j)
  {
  }

  lemma MaskClears(b: bv8, i: nat, j: nat)
    requires i < 8 && j < 8
    ensures Bit(WithoutBit(b, i), j) <==> i != j && Bit(b, j)
  {
  }

  /** Frame `f` is marked in use. */
  predicate Marked(bitmap: seq<bv8>, f: nat) {
    f / 8 < |bitmap| && Bit(bitmap[f / 8], f % 8)
  }

  ghost function MarkedSet(bitmap: seq<bv8>): set<nat> {
    set f | 0 <= f < 8 * |bitmap| && Marked(bitmap, f)
  }

  lemma SameFrame(f: nat, g: nat)
    ensures f / 8 == g / 8 && f % 8 == g % 8 <==> f == g
  {
  }

  /** `bitmap[f / 8] |= 1 << f % 8`. */
  function SetBit(bitmap: seq<bv8>, f: nat): (r: seq<bv8>)
    requires f / 8 < |bitmap|
    ensures |r| == |bitmap|
  {
    bitmap[f / 8 := WithBit(bitmap[f / 8], f % 8)]
  }

  /** `bitmap[f / 8] &= ~(1 << f % 8)`. */
  function ClearBit(bitmap: seq<bv8>, f: nat): (r: seq<bv8>)
    requires f / 8 < |bitmap|
    ensures |r| == |bitmap|
  {
    bitmap[f / 8 := WithoutBit(bitmap[f / 8], f % 8)]
  }

  lemma SetOne(bitmap: seq<bv8>, f: nat, g: nat)
    requires f / 8 < |bitmap|
    ensures Marked(SetBit(bitmap, f), g) <==> g == f || Marked(bitmap, g)
  {
    hide Bit, WithBit;
    SameFrame(f, g);
    MaskSets(bitmap[f / 8], f % 8, g % 8);
  }

  lemma ClearOne(bitmap: seq<bv8>, f: nat, g: nat)
    requires f / 8 < |bitmap|
    ensures Marked(ClearBit(bitmap, f), g) <==> g != f && Marked(bitmap, g)
  {
    hide Bit, WithoutBit;
    SameFrame(f, g);
    MaskClears(bitmap[f / 8], f % 8, g % 8);
  }

  lemma SetInSet(bitmap: seq<bv8>, f: nat)
    requires f / 8 < |bitmap|
    ensures MarkedSet(SetBit(bitmap, f)) == MarkedSet(bitmap) + {f}
  {
    hide Marked, SetBit;
    forall g: nat
      ensures Marked(SetBit(bitmap, f), g) <==> g == f || Marked(bitmap, g)
    {
      SetOne(bitmap, f, g);
    }
  }

  lemma ClearInSet(bitmap: seq<bv8>, f: nat)
    requires f / 8 < |bitmap|
    ensures MarkedSet(ClearBit(bitmap, f)) == MarkedSet(bitmap) - {f}
  {
    hide Marked, ClearBit;
    forall g: nat
      ensures Marked(ClearBit(bitmap, f), g) <==> g != f && Marked(bitmap, g)
    {
      ClearOne(bitmap, f, g);
    }
  }

  lemma InMarkedSet(bitmap: seq<bv8>, f: nat)
    ensures f in MarkedSet(bitmap) <==> Marked(bitmap, f)
  {
    hide Bit;
  }

  /** `n` zero bytes. */
  function BlankBitmap(n: nat): (r: seq<bv8>)
    ensures |r| == n && forall f: nat :: !Marked(r, f)
  {
    seq(n, _ => 0)
  }

  lemma NothingMarked(n: nat)
    ensures MarkedSet(BlankBitmap(n)) == {}
  {
    hide BlankBitmap, Marked;
  }

  /** `f` is the lowest frame of `[lo, hi)` outside `used`. */
  ghost predicate LowestFree(used: set<nat>, lo: nat, hi: nat, f: nat) {
    && lo <= f < hi && f !in used
    && forall g :: lo <= g < f ==> g in used
  }

  ghost predicate NoneFree(used: set<nat>, lo: nat, hi: nat) {
    forall f :: lo <= f < hi ==> f in used
  }

  class FrameAllocator {
    var bitmap: seq<bv8>
    var frameMin: nat
    var frameMax: nat
    var totalAlloc: nat

    ghost function Used(): set<nat>
      reads this
    {
      MarkedSet(bitmap)
    }

    ghost predicate Valid()
      reads this
    {
      && |bitmap| == NUM_PAGE_FRAMES / 8
      && 0 < frameMin && frameMax < NUM_PAGE_FRAMES
      && (forall f :: f in Used() ==> frameMin <= f < frameMax)
      && totalAlloc == |Used()|
    }

    /** pmm_init: frames from `low` up to `high`, all free. */
    constructor (low: nat, high: nat)
      requires 0 < low && high / 0x1000 < NUM_PAGE_FRAMES
      ensures Valid() && Used() == {} && |bitmap| == 8192
      ensures frameMin == (low + 0x1000 - 1) / 0x1000 && frameMax == high / 0x1000
    {
      frameMin, frameMax, totalAlloc := (low + 0x1000 - 1) / 0x1000, high / 0x1000, 0;
      bitmap := BlankBitmap(NUM_PAGE_FRAMES / 8);
      new;
      NothingMarked(NUM_PAGE_FRAMES / 8);
      hide BlankBitmap, MarkedSet;
    }

    /** pmm_alloc_page_frame: the lowest free frame, or 0 when there is none. */
    method Alloc() returns (addr: nat)
      requires Valid()
      modifies this`bitmap, this`totalAlloc
      ensures Valid()
      ensures addr == 0 <==> NoneFree(old(Used()), frameMin, frameMax)
      ensures addr == 0 ==> bitmap == old(bitmap)
      ensures addr != 0 ==>
                && addr % 0x1000 == 0
                && LowestFree(old(Used()), frameMin, frameMax, addr / 0x1000)
                && Used() == old(Used()) + {addr / 0x1000}
    {
      hide Marked, MarkedSet, SetBit;
      ghost var used := Used();
      var frame := frameMin;
      while frame < frameMax
        invariant frameMin <= frame
        invariant forall g :: frameMin <= g < frame ==> g in used
        invariant bitmap == old(bitmap) && totalAlloc == old(totalAlloc)
      {
        InMarkedSet(bitmap, frame);
        if !Marked(bitmap, frame) {
          assert LowestFree(used, frameMin, frameMax, frame);
          SetInSet(bitmap, frame);
          bitmap := SetBit(bitmap, frame);
          totalAlloc := totalAlloc + 1;
          addr := frame * 0x1000;
          hide LowestFree;
          assert addr / 0x1000 == frame;
          return;
        }
        frame := frame + 1;
      }
      addr := 0;
    }

    /** pmm_free_page_frame; a frame outside the bounds or not in use is left alone. */
    method Free(addr: nat)
      requires Valid()
      modifies this`bitmap, this`totalAlloc
      ensures Valid() && Used() == old(Used()) - {addr / 0x1000}
    {
      hide Marked, MarkedSet, ClearBit;
      var frame := addr / 0x1000;
      InMarkedSet(bitmap, frame);
      if frame < frameMin || frame > frameMax {
        return;
      }
      if Marked(bitmap, frame) {
        ClearInSet(bitmap, frame);
        totalAlloc := totalAlloc - 1;
        bitmap := ClearBit(bitmap, frame);
      }
    }
  }
}
