/** Block headers threaded through the memory they manage: 17 packed bytes in front of every payload. */
module HeapMemory {
  import opened Bytes
  import opened HeapBlocks

  const HEAP_MAGIC := 0xDEAD_BEEF

  datatype Header = Header(magic: nat, size: nat, used: bool, next: nat, prev: nat)

  function HeaderAt(mem: seq<byte>, o: nat): Header
    requires o + HEADER <= |mem|
  {
    Header(Word(mem, o), Word(mem, o + 4), mem[o + 8] != 0, Word(mem, o + 9), Word(mem, o + 13))
  }

  /** The 17 bytes from `o` on are a header with these fields. */
  ghost predicate HeaderSpells(mem: seq<byte>, o: nat, h: Header) {
    && o + 17 <= |mem|
    && LittleEndian(mem, o, h.magic) && LittleEndian(mem, o + 4, h.size)
    && (h.used <==> mem[o + 8] != 0)
    && LittleEndian(mem, o + 9, h.next) && LittleEndian(mem, o + 13, h.prev)
  }

  lemma HeaderReads(mem: seq<byte>, o: nat)
    requires o + 17 <= |mem|
    ensures HeaderSpells(mem, o, HeaderAt(mem, o))
  {
    hide Word, LittleEndian;
    WordIs(mem, o);
    WordIs(mem, o + 4);
    WordIs(mem, o + 9);
    WordIs(mem, o + 13);
  }

  /** The address of offset `o` in the heap. */
  function Addr(o: nat): nat { KERNEL_MALLOC + o }

  /** Memory from `base` on holds the blocks, doubly linked: `prev` before the first, `next` behind the last. */
  ghost predicate Segment(mem: seq<byte>, bs: seq<Block>, base: nat, prev: nat, next: nat)
    decreases |bs|
  {
    bs == [] ||
    (var b := bs[0];
     && base + b.Extent() <= |mem|
     && HeaderAt(mem, base) ==
          Header(HEAP_MAGIC, b.size, b.used, if |bs| == 1 then next else Addr(base + b.Extent()), prev)
     && Segment(mem, bs[1..], base + b.Extent(), Addr(base), next))
  }

  /** Where the last of some blocks begins. */
  function LastOffset(bs: seq<Block>): nat
    requires bs != []
  {
    Offset(bs, |bs| - 1)
  }

  /** The back link of whatever follows the blocks `a`. */
  function Behind(a: seq<Block>): nat { if a == [] then 0 else Addr(LastOffset(a)) }

  /** The forward link to the blocks `c` at offset `at`. */
  function Onward(c: seq<Block>, at: nat): nat { if c == [] then 0 else Addr(at) }

  lemma {:induction false} LastOffsetTail(bs: seq<Block>)
    requires |bs| > 1
    ensures LastOffset(bs) == bs[0].Extent() + LastOffset(bs[1..])
  {
    assert bs[..|bs| - 1][1..] == bs[1..][..|bs| - 2];
  }

  lemma {:induction false} SegmentConcat(mem: seq<byte>, a: seq<Block>, b: seq<Block>, base: nat, prev: nat, next: nat)
    ensures Segment(mem, a + b, base, prev, next) <==>
              && Segment(mem, a, base, prev, if b == [] then next else Addr(base + Total(a)))
              && Segment(mem, b, base + Total(a), if a == [] then prev else Addr(base + LastOffset(a)), next)
    decreases |a|
  {
    hide HeaderAt;
    if a == [] {
      assert a + b == b;
    } else {
      assert (a + b)[1..] == a[1..] + b;
      SegmentConcat(mem, a[1..], b, base + a[0].Extent(), Addr(base), next);
      if |a| > 1 {
        LastOffsetTail(a);
      } else {
        assert a[1..] == [] && a[..0] == [];
      }
    }
  }

  /** `mem'` agrees with `mem` on [lo, hi). */
  ghost predicate Same(mem: seq<byte>, mem': seq<byte>, lo: nat, hi: nat) {
    |mem| <= |mem'| && forall k :: lo <= k < hi && k < |mem| ==> mem'[k] == mem[k]
  }

  lemma {:induction false} SegmentFrame(mem: seq<byte>, mem': seq<byte>, bs: seq<Block>, base: nat, prev: nat,
                                        next: nat)
    requires Segment(mem, bs, base, prev, next) && Same(mem, mem', base, base + Total(bs))
    ensures Segment(mem', bs, base, prev, next)
    decreases |bs|
  {
    if bs != [] {
      SegmentFrame(mem, mem', bs[1..], base + bs[0].Extent(), Addr(base), next);
    }
  }

  lemma {:induction false} SegmentFits(mem: seq<byte>, bs: seq<Block>, base: nat, prev: nat, next: nat)
    requires Segment(mem, bs, base, prev, next) && base <= |mem|
    ensures base + Total(bs) <= |mem|
    decreases |bs|
  {
    hide HeaderAt;
    if bs != [] {
      SegmentFits(mem, bs[1..], base + bs[0].Extent(), Addr(base), next);
    }
  }

  /** Only the 17 header bytes at `o` may differ. */
  ghost predicate HeaderEdit(mem: seq<byte>, mem': seq<byte>, o: nat) {
    |mem| == |mem'| && forall k :: 0 <= k < |mem| && !(o <= k < o + HEADER) ==> mem'[k] == mem[k]
  }

  /** Rewriting the back link of the first block. */
  lemma {:induction false} SegmentSetPrev(mem: seq<byte>, mem': seq<byte>, bs: seq<Block>, base: nat, prev: nat,
                                          prev': nat, next: nat)
    requires Segment(mem, bs, base, prev, next) && bs != [] && Same(mem, mem', base + HEADER, base + Total(bs))
    requires HeaderAt(mem', base) == HeaderAt(mem, base).(prev := prev')
    ensures Segment(mem', bs, base, prev', next)
  {
    hide HeaderAt;
    SegmentFrame(mem, mem', bs[1..], base + bs[0].Extent(), Addr(base), next);
  }

  lemma SegmentOne(mem: seq<byte>, b: Block, base: nat, prev: nat, next: nat)
    ensures Segment(mem, [b], base, prev, next) <==>
              && base + b.Extent() <= |mem|
              && HeaderAt(mem, base) == Header(HEAP_MAGIC, b.size, b.used, next, prev)
  {
    hide HeaderAt;
  }

  /** A header is not touched by edits elsewhere. */
  lemma HeaderKept(mem: seq<byte>, mem': seq<byte>, o: nat)
    requires o + HEADER <= |mem| && Same(mem, mem', o, o + HEADER)
    ensures HeaderAt(mem', o) == HeaderAt(mem, o)
  {
  }

  /** The whole heap, seen around block `i`. */
  lemma {:induction false} Around(mem: seq<byte>, bs: seq<Block>, i: nat)
    requires i < |bs| && Segment(mem, bs, 0, 0, 0)
    ensures var base := Offset(bs, i);
            var rest := base + bs[i].Extent();
            && rest <= |mem|
            && HeaderAt(mem, base) ==
                 Header(HEAP_MAGIC, bs[i].size, bs[i].used, Onward(bs[i + 1..], rest), Behind(bs[..i]))
            && Segment(mem, bs[..i], 0, 0, Addr(base))
            && Segment(mem, bs[i + 1..], rest, Addr(base), 0)
  {
    var b := bs[i..];
    assert b[0] == bs[i] && b[1..] == bs[i + 1..] && |b| == |bs[i + 1..]| + 1;
    hide HeaderAt, LastOffset, Segment, Offset;
    CutSegment(mem, bs, i);
    FirstOfSegment(mem, b, Offset(bs, i), Behind(bs[..i]), 0);
  }

  /** The segment in two parts, in front of block `i` and from it on. */
  lemma CutSegment(mem: seq<byte>, bs: seq<Block>, i: nat)
    requires i < |bs| && Segment(mem, bs, 0, 0, 0)
    ensures Segment(mem, bs[..i], 0, 0, Addr(Offset(bs, i)))
    ensures Segment(mem, bs[i..], Offset(bs, i), Behind(bs[..i]), 0)
  {
    assert bs == bs[..i] + bs[i..];
    hide HeaderAt, LastOffset, Segment, Total;
    SegmentConcat(mem, bs[..i], bs[i..], 0, 0, 0);
  }

  /** A segment seen as its first block and the rest. */
  lemma FirstOfSegment(mem: seq<byte>, bs: seq<Block>, base: nat, prev: nat, next: nat)
    requires bs != [] && Segment(mem, bs, base, prev, next)
    ensures base + bs[0].Extent() <= |mem|
    ensures HeaderAt(mem, base) ==
            Header(HEAP_MAGIC, bs[0].size, bs[0].used, if |bs| == 1 then next else Addr(base + bs[0].Extent()), prev)
    ensures Segment(mem, bs[1..], base + bs[0].Extent(), Addr(base), next)
  {
    hide HeaderAt;
  }

  /** The pieces put together around new middle blocks. */
  lemma {:induction false} Together(mem: seq<byte>, a: seq<Block>, m: seq<Block>, c: seq<Block>)
    requires m != []
    requires Segment(mem, a, 0, 0, Addr(Total(a)))
    requires Segment(mem, m, Total(a), Behind(a), Onward(c, Total(a) + Total(m)))
    requires Segment(mem, c, Total(a) + Total(m), Addr(Total(a) + LastOffset(m)), 0)
    ensures Segment(mem, a + m + c, 0, 0, 0)
  {
    hide HeaderAt, Total, LastOffset;
    SegmentConcat(mem, m, c, Total(a), Behind(a), 0);
    SegmentConcat(mem, a, m + c, 0, 0, 0);
    assert a + m + c == a + (m + c);
  }

  lemma EditElsewhere(mem: seq<byte>, mem': seq<byte>, o: nat, p: nat)
    requires HeaderEdit(mem, mem', o) && p + HEADER <= |mem| && (p + HEADER <= o || o + HEADER <= p)
    ensures HeaderAt(mem', p) == HeaderAt(mem, p)
  {
  }

  // ---- a block carved in memory ----

  lemma TwoBlocks(mem: seq<byte>, x: Block, y: Block, base: nat, prev: nat, next: nat)
    requires base + x.Extent() + y.Extent() <= |mem|
    requires HeaderAt(mem, base) == Header(HEAP_MAGIC, x.size, x.used, Addr(base + x.Extent()), prev)
    requires HeaderAt(mem, base + x.Extent()) == Header(HEAP_MAGIC, y.size, y.used, next, Addr(base))
    ensures Segment(mem, [x, y], base, prev, next) && LastOffset([x, y]) == x.Extent() &&
             Total([x, y]) == x.Extent() + y.Extent()
  {
    hide HeaderAt;
    assert [x, y] == [x] + [y] && [x, y][..1] == [x];
    SegmentConcat(mem, [x], [y], base, prev, next);
    SegmentOne(mem, x, base, prev, Addr(base + x.Extent()));
    SegmentOne(mem, y, base + x.Extent(), Addr(base), next);
    TotalConcat([x], [y]);
    LiveOne(x, 0);
    LiveOne(y, 0);
    assert [x][..0] == [];
    assert LastOffset([x]) == 0;
  }

  /** The header at `rest` has `prev` as its back link now; from there on nothing else changed. */
  ghost predicate BackLinked(mem: seq<byte>, mem': seq<byte>, rest: nat, prev: nat) {
    && |mem| == |mem'| && rest + HEADER <= |mem|
    && HeaderAt(mem', rest) == HeaderAt(mem, rest).(prev := prev)
    && Same(mem, mem', rest + HEADER, |mem|)
  }

  lemma {:induction false} TailRelinked(mem: seq<byte>, mem': seq<byte>, c: seq<Block>, rest: nat, prev: nat,
                                        prev': nat)
    requires Segment(mem, c, rest, prev, 0) && c != [] ==> BackLinked(mem, mem', rest, prev')
    requires Segment(mem, c, rest, prev, 0) && rest <= |mem|
    ensures Segment(mem', c, rest, prev', 0)
  {
    if c != [] {
      SegmentFits(mem, c, rest, prev, 0);
      hide HeaderAt, Segment;
      SegmentSetPrev(mem, mem', c, rest, prev, prev', 0);
    }
  }

  /** New blocks `mid` between the kept blocks `a` and `c`. */
  lemma Rejoined(m0: seq<byte>, m2: seq<byte>, a: seq<Block>, mid: seq<Block>, c: seq<Block>, base: nat, rest: nat,
                 prev: nat)
    requires mid != [] && base == Total(a) && rest == base + Total(mid) && rest <= |m0| == |m2| && Same(m0, m2, 0, base)
    requires Segment(m2, mid, base, Behind(a), Onward(c, rest))
    requires c != [] ==> BackLinked(m0, m2, rest, Addr(base + LastOffset(mid)))
    requires Segment(m0, a, 0, 0, Addr(base)) && Segment(m0, c, rest, prev, 0)
    ensures Segment(m2, a + mid + c, 0, 0, 0)
  {
    hide HeaderAt, Segment, LastOffset, Total, BackLinked, Behind, Onward;
    SegmentFrame(m0, m2, a, 0, 0, Addr(base));
    TailRelinked(m0, m2, c, rest, prev, Addr(base + LastOffset(mid)));
    Together(m2, a, mid, c);
  }

  /** New middle blocks over the extent of block `i`, linked to both sides. */
  lemma {:induction false} Relinked(mem: seq<byte>, mem': seq<byte>, bs: seq<Block>, i: nat, mid: seq<Block>, base: nat)
    requires i < |bs| && Segment(mem, bs, 0, 0, 0) && base == Offset(bs, i) && |mem'| == |mem|
    requires mid != [] && Total(mid) == bs[i].Extent()
    requires Segment(mem', mid, base, Behind(bs[..i]), Onward(bs[i + 1..], base + bs[i].Extent()))
    requires Same(mem, mem', 0, base)
    requires i + 1 < |bs| ==> BackLinked(mem, mem', base + bs[i].Extent(), Addr(base + LastOffset(mid)))
    ensures Segment(mem', bs[..i] + mid + bs[i + 1..], 0, 0, 0)
  {
    OffsetIsTotal(bs, i);
    hide HeaderAt, Segment, LastOffset, Total, Offset, BackLinked, Behind, Onward, Same;
    Around(mem, bs, i);
    Rejoined(mem, mem', bs[..i], mid, bs[i + 1..], base, base + bs[i].Extent(), Addr(base));
  }

  lemma OffsetIsTotal(bs: seq<Block>, i: nat)
    requires i <= |bs|
    ensures Offset(bs, i) == Total(bs[..i])
  {
  }

  // ---- live payloads and header writes ----

  /** The bytes of every payload in `live` are the same. */
  ghost predicate LiveKept(mem: seq<byte>, mem': seq<byte>, live: set<(nat, nat)>) {
    forall o, s :: (o, s) in live ==> Same(mem, mem', o, o + s)
  }

  lemma LiveKeptTwice(m0: seq<byte>, m1: seq<byte>, m2: seq<byte>, live: set<(nat, nat)>)
    requires LiveKept(m0, m1, live) && LiveKept(m1, m2, live)
    ensures LiveKept(m0, m2, live)
  {
    forall o, s | (o, s) in live
      ensures Same(m0, m2, o, o + s)
    {
      assert Same(m0, m1, o, o + s) && Same(m1, m2, o, o + s);
    }
  }

  /** Writing the header of a block touches no live payload. */
  lemma HeaderEditKeepsLive(mem: seq<byte>, mem': seq<byte>, bs: seq<Block>, k: nat)
    requires k < |bs| && HeaderEdit(mem, mem', Offset(bs, k))
    ensures LiveKept(mem, mem', Live(bs, 0))
  {
    hide Live, Offset;
    forall o, s | (o, s) in Live(bs, 0)
      ensures Same(mem, mem', o, o + s)
    {
      LiveApartFromHeaders(bs, 0, k, o, s);
    }
  }

  /** Writing a header inside a free block touches no live payload. */
  lemma FreeEditKeepsLive(mem: seq<byte>, mem': seq<byte>, bs: seq<Block>, k: nat, o': nat)
    requires k < |bs| && !bs[k].used && HeaderEdit(mem, mem', o')
    requires Offset(bs, k) <= o' && o' + HEADER <= Offset(bs, k) + bs[k].Extent()
    ensures LiveKept(mem, mem', Live(bs, 0))
  {
    hide Live, Offset;
    forall o, s | (o, s) in Live(bs, 0)
      ensures Same(mem, mem', o, o + s)
    {
      LiveApartFromFree(bs, k, o, s);
    }
  }

  lemma {:induction false} LiveApartFromFree(bs: seq<Block>, k: nat, o: nat, s: nat)
    requires (o, s) in Live(bs, 0) && k < |bs| && !bs[k].used
    ensures o + s <= Offset(bs, k) || Offset(bs, k) + bs[k].Extent() <= o
  {
    assert bs[k..k + 1] == [bs[k]];
    LiveOne(bs[k], Offset(bs, k));
    assert bs[..k + 1] == bs[..k] + [bs[k]];
    TotalConcat(bs[..k], [bs[k]]);
    hide Live, Total;
    SpliceLive(bs, k, k + 1, [bs[k]]);
    if (o, s) in Live(bs[..k], 0) {
      LiveBounds(bs[..k], 0, o, s);
    } else {
      LiveBounds(bs[k + 1..], Offset(bs, k + 1), o, s);
    }
  }

  // ---- splitting a block ----

  /** `if (next) next->prev = prev`. */
  ghost predicate LinkedBack(m: seq<byte>, m': seq<byte>, next: nat, prev: nat) {
    if next == 0 then m' == m
    else
      && Addr(0) <= next && next - Addr(0) + HEADER <= |m|
      && HeaderEdit(m, m', next - Addr(0))
      && HeaderAt(m', next - Addr(0)) == HeaderAt(m, next - Addr(0)).(prev := prev)
  }

  /** The edits that split block `i`: the new header, the back link behind it, the front header. */
  ghost predicate SplitEdits(m0: seq<byte>, m1: seq<byte>, m2: seq<byte>, m3: seq<byte>,
                             bs: seq<Block>, i: nat, size: nat, base: nat, next: nat)
  {
    && i < |bs| && bs[i].size - size >= HEADER + 8 && base == Offset(bs, i) && base + bs[i].Extent() <= |m0|
    && next == Onward(bs[i + 1..], base + bs[i].Extent())
    && var split := base + HEADER + size;
       && HeaderEdit(m0, m1, split)
       && HeaderAt(m1, split) == Header(HEAP_MAGIC, bs[i].size - size - HEADER, false, next, Addr(base))
       && LinkedBack(m1, m2, next, Addr(split))
       && HeaderEdit(m2, m3, base)
       && HeaderAt(m3, base) == HeaderAt(m2, base).(size := size, next := Addr(split), used := true)
  }

  lemma {:induction false} NextFits(mem: seq<byte>, bs: seq<Block>, i: nat)
    requires i < |bs| && Segment(mem, bs, 0, 0, 0)
    ensures i + 1 < |bs| ==> Offset(bs, i) + bs[i].Extent() + HEADER <= |mem|
    ensures i + 1 < |bs| ==> Offset(bs, i + 1) == Offset(bs, i) + bs[i].Extent()
  {
    if i + 1 < |bs| {
      Around(mem, bs, i + 1);
      assert bs[..i + 1] == bs[..i] + [bs[i]];
      TotalConcat(bs[..i], [bs[i]]);
      LiveOne(bs[i], 0);
    }
  }

  /** The header of block `i`, as kmalloc and kfree read it. */
  lemma HeaderOf(mem: seq<byte>, bs: seq<Block>, i: nat)
    requires i < |bs| && Segment(mem, bs, 0, 0, 0)
    ensures Offset(bs, i) + bs[i].Extent() <= |mem|
    ensures var base := Offset(bs, i);
            var h := HeaderAt(mem, base);
            && h.magic == HEAP_MAGIC && h.size == bs[i].size && h.used == bs[i].used
            && h.next == Onward(bs[i + 1..], base + bs[i].Extent())
            && h.next == (if i + 1 == |bs| then 0 else Addr(base + bs[i].Extent()))
            && h.prev == (if i == 0 then 0 else Addr(Offset(bs, i - 1)))
            && (i + 1 < |bs| ==> base + bs[i].Extent() + HEADER <= |mem| && Offset(bs, i + 1) == base + bs[i].Extent())
  {
    hide HeaderAt, Segment, Offset, Behind, Onward, Total;
    Around(mem, bs, i);
    NextFits(mem, bs, i);
    OnwardIs(bs, i, Offset(bs, i) + bs[i].Extent());
    if i == 0 {
      BehindNone(bs);
    } else {
      BehindIs(bs, i - 1);
    }
  }

  /**
   * The heap in bytes: a header of 17 bytes in front of each block, with the magic number, the size, whether it is in
   * use, and the addresses of its neighbours, 0 where there is none; the next header begins right behind the block.
   */
  lemma HeaderBytes(mem: seq<byte>, bs: seq<Block>, i: nat)
    requires i < |bs| && Segment(mem, bs, 0, 0, 0)
    ensures HeaderSpells(mem, Offset(bs, i),
                         Header(0xDEAD_BEEF, bs[i].size, bs[i].used,
                                if i + 1 < |bs| then 0xD000_0000 + Offset(bs, i + 1) else 0,
                                if i > 0 then 0xD000_0000 + Offset(bs, i - 1) else 0))
    ensures Offset(bs, 0) == 0 && Offset(bs, i + 1) == Offset(bs, i) + 17 + bs[i].size <= |mem|
  {
    FirstOffset(bs);
    OffsetAfter(bs, i);
    hide HeaderAt, Segment, Offset, Onward, HeaderSpells;
    HeaderOf(mem, bs, i);
    HeaderReads(mem, Offset(bs, i));
  }

  lemma OffsetAfter(bs: seq<Block>, i: nat)
    requires i < |bs|
    ensures Offset(bs, i + 1) == Offset(bs, i) + 17 + bs[i].size
  {
    assert bs[..i + 1] == bs[..i] + [bs[i]];
    TotalConcat(bs[..i], [bs[i]]);
    assert [bs[i]][1..] == [];
  }

  lemma OnwardIs(bs: seq<Block>, i: nat, at: nat)
    requires i < |bs|
    ensures Onward(bs[i + 1..], at) == if i + 1 == |bs| then 0 else Addr(at)
  {
  }

  lemma BehindIs(bs: seq<Block>, i: nat)
    requires i < |bs|
    ensures Behind(bs[..i + 1]) == Addr(Offset(bs, i))
  {
    assert bs[..i + 1][..i] == bs[..i];
  }

  lemma BehindNone(bs: seq<Block>)
    ensures Behind(bs[..0]) == 0
  {
  }

  lemma SplitShape(m0: seq<byte>, m1: seq<byte>, m2: seq<byte>, m3: seq<byte>,
                   bs: seq<Block>, i: nat, size: nat, base: nat, next: nat)
    requires SplitEdits(m0, m1, m2, m3, bs, i, size, base, next)
    ensures i < |bs| && bs[i].size - size >= HEADER + 8 && base == Offset(bs, i) && base + bs[i].Extent() <= |m0|
    ensures next == Onward(bs[i + 1..], base + bs[i].Extent())
    ensures HeaderAt(m1, base + HEADER + size) ==
            Header(HEAP_MAGIC, bs[i].size - size - HEADER, false, next, Addr(base))
  {
    hide HeaderAt, HeaderEdit, Offset;
  }

  lemma SplitHeaders(m0: seq<byte>, m1: seq<byte>, m2: seq<byte>, m3: seq<byte>,
                     bs: seq<Block>, i: nat, size: nat, base: nat, next: nat)
    requires SplitEdits(m0, m1, m2, m3, bs, i, size, base, next)
    ensures HeaderAt(m3, base) == HeaderAt(m0, base).(size := size, next := Addr(base + HEADER + size), used := true)
    ensures HeaderAt(m3, base + HEADER + size) == HeaderAt(m1, base + HEADER + size)
    ensures next != 0 ==> Addr(0) <= next && BackLinked(m0, m3, next - Addr(0), Addr(base + HEADER + size))
    ensures |m3| == |m0| && Same(m0, m3, 0, base)
  {
    var split := base + HEADER + size;
    hide HeaderAt, Offset, BackLinked;
    EditElsewhere(m0, m1, split, base);
    EditElsewhere(m2, m3, base, split);
    if next != 0 {
      EditElsewhere(m1, m2, next - Addr(0), base);
      EditElsewhere(m1, m2, next - Addr(0), split);
      EditElsewhere(m0, m1, split, next - Addr(0));
      EditElsewhere(m2, m3, base, next - Addr(0));
      IsBackLinked(m0, m3, next - Addr(0), Addr(split));
    }
  }

  lemma IsBackLinked(mem: seq<byte>, mem': seq<byte>, rest: nat, prev: nat)
    requires |mem| == |mem'| && rest + HEADER <= |mem| && Same(mem, mem', rest + HEADER, |mem|)
    requires HeaderAt(mem', rest) == HeaderAt(mem, rest).(prev := prev)
    ensures BackLinked(mem, mem', rest, prev)
  {
  }

  lemma PartsAre(b: Block, size: nat)
    requires b.size - size >= HEADER + 8
    ensures Parts(b, size) == [Block(size, true), Block(b.size - size - HEADER, false)]
  {
  }

  lemma SplitMiddle(m0: seq<byte>, m1: seq<byte>, m2: seq<byte>, m3: seq<byte>,
                    bs: seq<Block>, i: nat, size: nat, base: nat, next: nat, prev: nat)
    requires SplitEdits(m0, m1, m2, m3, bs, i, size, base, next)
    requires HeaderAt(m0, base) == Header(HEAP_MAGIC, bs[i].size, bs[i].used, next, prev)
    ensures Segment(m3, Parts(bs[i], size), base, prev, next)
    ensures LastOffset(Parts(bs[i], size)) == HEADER + size
  {
    hide HeaderAt, Segment, Total, Offset, HeaderEdit, LastOffset, BackLinked, SplitEdits, Same, Parts;
    SplitShape(m0, m1, m2, m3, bs, i, size, base, next);
    SplitHeaders(m0, m1, m2, m3, bs, i, size, base, next);
    PartsAre(bs[i], size);
    TwoBlocks(m3, Block(size, true), Block(bs[i].size - size - HEADER, false), base, prev, next);
  }

  lemma SplitDone(m0: seq<byte>, m1: seq<byte>, m2: seq<byte>, m3: seq<byte>,
                  bs: seq<Block>, i: nat, size: nat, base: nat, next: nat)
    requires SplitEdits(m0, m1, m2, m3, bs, i, size, base, next) && Segment(m0, bs, 0, 0, 0)
    ensures Segment(m3, Carve(bs, i, size), 0, 0, 0)
  {
    hide HeaderAt, Segment, Total, Offset, HeaderEdit, LastOffset, BackLinked, Parts, SplitEdits, Same, Behind;
    SplitShape(m0, m1, m2, m3, bs, i, size, base, next);
    Around(m0, bs, i);
    SplitHeaders(m0, m1, m2, m3, bs, i, size, base, next);
    SplitMiddle(m0, m1, m2, m3, bs, i, size, base, next, Behind(bs[..i]));
    Relinked(m0, m3, bs, i, Parts(bs[i], size), base);
  }

  lemma SplitKeepsLive(m0: seq<byte>, m1: seq<byte>, m2: seq<byte>, m3: seq<byte>,
                       bs: seq<Block>, i: nat, size: nat, base: nat, next: nat)
    requires SplitEdits(m0, m1, m2, m3, bs, i, size, base, next) && Segment(m0, bs, 0, 0, 0) && !bs[i].used
    ensures LiveKept(m0, m3, Live(bs, 0))
  {
    var split := base + HEADER + size;
    NextFits(m0, bs, i);
    hide HeaderAt, Segment, Total, Offset, Live, LiveKept;
    FreeEditKeepsLive(m0, m1, bs, i, split);
    HeaderEditKeepsLive(m2, m3, bs, i);
    if next != 0 {
      HeaderEditKeepsLive(m1, m2, bs, i + 1);
      LiveKeptTwice(m0, m1, m2, Live(bs, 0));
      LiveKeptTwice(m0, m2, m3, Live(bs, 0));
    } else {
      LiveKeptTwice(m0, m1, m3, Live(bs, 0));
    }
  }

  // ---- a block relabelled in place ----

  lemma SameBackLink(mem: seq<byte>, mem': seq<byte>, bs: seq<Block>, i: nat)
    requires i + 1 < |bs| && Segment(mem, bs, 0, 0, 0) && HeaderEdit(mem, mem', Offset(bs, i))
    ensures BackLinked(mem, mem', Offset(bs, i) + bs[i].Extent(), Addr(Offset(bs, i)))
  {
    var base, rest := Offset(bs, i), Offset(bs, i) + bs[i].Extent();
    BehindIs(bs, i);
    hide HeaderAt, Segment, Offset, Behind, Onward;
    NextFits(mem, bs, i);
    Around(mem, bs, i + 1);
    EditElsewhere(mem, mem', base, rest);
    IsBackLinked(mem, mem', rest, Addr(base));
  }

  /** Setting or clearing the used flag of block `i`. */
  lemma {:induction false} Relabelled(mem: seq<byte>, mem': seq<byte>, bs: seq<Block>, i: nat, used: bool)
    requires i < |bs| && Segment(mem, bs, 0, 0, 0) && HeaderEdit(mem, mem', Offset(bs, i))
    requires Offset(bs, i) + HEADER <= |mem|
    requires HeaderAt(mem', Offset(bs, i)) == HeaderAt(mem, Offset(bs, i)).(used := used)
    ensures Segment(mem', bs[..i] + [Block(bs[i].size, used)] + bs[i + 1..], 0, 0, 0)
  {
    var base, x := Offset(bs, i), Block(bs[i].size, used);
    OneBlock(mem', x, base, Behind(bs[..i]), Onward(bs[i + 1..], base + bs[i].Extent()));
    hide HeaderAt, Segment, Total, Offset, LastOffset, BackLinked, Behind, Ahead;
    Around(mem, bs, i);
    if i + 1 < |bs| {
      SameBackLink(mem, mem', bs, i);
    }
    Relinked(mem, mem', bs, i, [x], base);
  }

  lemma OneBlock(mem: seq<byte>, x: Block, base: nat, prev: nat, next: nat)
    ensures Segment(mem, [x], base, prev, next) <==>
              && base + x.Extent() <= |mem|
              && HeaderAt(mem, base) == Header(HEAP_MAGIC, x.size, x.used, next, prev)
    ensures Total([x]) == x.Extent() && LastOffset([x]) == 0
  {
    SegmentOne(mem, x, base, prev, next);
    LiveOne(x, 0);
    assert [x][..0] == [];
  }

  // ---- a heap grown at its end ----

  /** Memory `m1` is `m0` with more behind it, up to two header edits: a new header at the old end, and the header of
      the last block. */
  ghost predicate Extended(m0: seq<byte>, m1: seq<byte>, base: nat) {
    && |m0| <= |m1| && base + HEADER <= |m0|
    && forall k :: 0 <= k < |m0| && !(base <= k < base + HEADER) ==> m1[k] == m0[k]
  }

  lemma ExtendedKeepsLive(m0: seq<byte>, m1: seq<byte>, bs: seq<Block>)
    requires bs != [] && Extended(m0, m1, LastOffset(bs))
    ensures LiveKept(m0, m1, Live(bs, 0))
  {
    hide Live, Offset, Total;
    forall o, s | (o, s) in Live(bs, 0)
      ensures Same(m0, m1, o, o + s)
    {
      LiveApartFromHeaders(bs, 0, |bs| - 1, o, s);
    }
  }

  /** A new block behind the last one. */
  lemma {:induction false} Appended(m0: seq<byte>, m1: seq<byte>, bs: seq<Block>, x: Block, base: nat)
    requires bs != [] && Segment(m0, bs, 0, 0, 0) && base == LastOffset(bs)
    requires Extended(m0, m1, base) && Total(bs) + x.Extent() <= |m1|
    requires HeaderAt(m1, base) == HeaderAt(m0, base).(next := Addr(Total(bs)))
    requires HeaderAt(m1, Total(bs)) == Header(HEAP_MAGIC, x.size, x.used, 0, Addr(base))
    ensures Segment(m1, bs + [x], 0, 0, 0)
  {
    var n := |bs| - 1;
    LastTotal(bs);
    FrontTotal(bs);
    FrontKept(m0, m1, base);
    AppendShape(bs, x);
    hide HeaderAt, Segment, Total, Offset, LastOffset, Behind, Onward, Extended, Same;
    Around(m0, bs, n);
    SegmentFrame(m0, m1, bs[..n], 0, 0, Addr(base));
    AppendedTail(m1, bs[..n], bs[n], x, base);
  }

  lemma AppendedTail(mem: seq<byte>, a: seq<Block>, b: Block, x: Block, base: nat)
    requires base == Total(a) && base + b.Extent() + x.Extent() <= |mem|
    requires HeaderAt(mem, base) == Header(HEAP_MAGIC, b.size, b.used, Addr(base + b.Extent()), Behind(a))
    requires HeaderAt(mem, base + b.Extent()) == Header(HEAP_MAGIC, x.size, x.used, 0, Addr(base))
    requires Segment(mem, a, 0, 0, Addr(base))
    ensures Segment(mem, a + [b, x] + [], 0, 0, 0)
  {
    hide HeaderAt, Segment, Total, LastOffset, Behind;
    TwoBlocks(mem, b, x, base, Behind(a), 0);
    NoBlocks(mem, base + b.Extent() + x.Extent(), Addr(base + b.Extent()), 0);
    Together(mem, a, [b, x], []);
  }

  lemma AppendShape(bs: seq<Block>, x: Block)
    requires bs != []
    ensures bs[..|bs| - 1] + [bs[|bs| - 1], x] + [] == bs + [x]
    ensures Onward(bs[|bs| - 1 + 1..], LastOffset(bs) + bs[|bs| - 1].Extent()) == 0
  {
  }

  lemma FrontKept(m0: seq<byte>, m1: seq<byte>, base: nat)
    requires Extended(m0, m1, base)
    ensures Same(m0, m1, 0, base)
  {
  }

  lemma NoBlocks(mem: seq<byte>, base: nat, prev: nat, next: nat)
    ensures Segment(mem, [], base, prev, next)
  {
  }

  lemma FrontTotal(bs: seq<Block>)
    requires bs != []
    ensures Total(bs[..|bs| - 1]) == LastOffset(bs) == Offset(bs, |bs| - 1)
  {
  }

  lemma LastTotal(bs: seq<Block>)
    requires bs != []
    ensures Total(bs) == LastOffset(bs) + bs[|bs| - 1].Extent()
  {
    var n := |bs| - 1;
    assert bs == bs[..n] + [bs[n]];
    TotalConcat(bs[..n], [bs[n]]);
    LiveOne(bs[n], 0);
  }

  /** A longer last block. */
  lemma {:induction false} Stretched(m0: seq<byte>, m1: seq<byte>, bs: seq<Block>, size: nat, base: nat)
    requires bs != [] && Segment(m0, bs, 0, 0, 0) && base == LastOffset(bs)
    requires Extended(m0, m1, base) && base + HEADER + size <= |m1|
    requires HeaderAt(m1, base) == HeaderAt(m0, base).(size := size)
    ensures Segment(m1, bs[..|bs| - 1] + [Block(size, bs[|bs| - 1].used)], 0, 0, 0)
  {
    var n := |bs| - 1;
    var a, x := bs[..n], Block(size, bs[n].used);
    FrontTotal(bs);
    OneBlock(m1, x, base, Behind(a), 0);
    assert a + [x] + [] == a + [x];
    assert bs[n + 1..] == [];
    hide HeaderAt, Segment, Total, Offset, LastOffset, Behind;
    Around(m0, bs, n);
    SegmentFrame(m0, m1, a, 0, 0, Addr(base));
    NoBlocks(m1, base + x.Extent(), Addr(base), 0);
    Together(m1, a, [x], []);
  }

  // ---- two blocks fused in memory ----

  /** Block `i` takes over its successor: its size and forward link, and the back link behind. */
  ghost predicate FuseEdits(m0: seq<byte>, m1: seq<byte>, m2: seq<byte>, bs: seq<Block>, i: nat) {
    && i + 1 < |bs| && Offset(bs, i) + HEADER <= |m0| && Offset(bs, i + 1) + HEADER <= |m0|
    && HeaderEdit(m0, m1, Offset(bs, i))
    && HeaderAt(m1, Offset(bs, i)) ==
         HeaderAt(m0, Offset(bs, i)).(size := bs[i].size + bs[i + 1].Extent(),
                                      next := HeaderAt(m0, Offset(bs, i + 1)).next)
    && LinkedBack(m1, m2, HeaderAt(m0, Offset(bs, i + 1)).next, Addr(Offset(bs, i)))
  }

  /** Offsets and links around blocks `i` and `i + 1`. */
  lemma PairShape(m0: seq<byte>, bs: seq<Block>, i: nat)
    requires i + 1 < |bs| && Segment(m0, bs, 0, 0, 0)
    ensures var base := Offset(bs, i);
            var rest := base + bs[i].Extent() + bs[i + 1].Extent();
            && Offset(bs, i + 1) == base + bs[i].Extent() && rest <= |m0|
            && HeaderAt(m0, base).magic == HEAP_MAGIC && HeaderAt(m0, base).used == bs[i].used
            && HeaderAt(m0, base).prev == Behind(bs[..i])
            && HeaderAt(m0, base + bs[i].Extent()).next == Onward(bs[i + 2..], rest)
            && (i + 2 < |bs| ==> rest + HEADER <= |m0| && Onward(bs[i + 2..], rest) == Addr(rest))
            && (i + 2 == |bs| ==> Onward(bs[i + 2..], rest) == 0)
            && Segment(m0, bs[..i], 0, 0, Addr(base))
            && Segment(m0, bs[i + 2..], rest, Addr(base + bs[i].Extent()), 0)
  {
    hide HeaderAt, Segment, Offset, Behind;
    NextFits(m0, bs, i);
    NextFits(m0, bs, i + 1);
    Around(m0, bs, i);
    Around(m0, bs, i + 1);
  }

  lemma FusedFront(m0: seq<byte>, m1: seq<byte>, m2: seq<byte>, bs: seq<Block>, i: nat)
    requires FuseEdits(m0, m1, m2, bs, i) && Segment(m0, bs, 0, 0, 0)
    ensures var base := Offset(bs, i);
            var rest := base + bs[i].Extent() + bs[i + 1].Extent();
            && |m2| == |m0| && rest <= |m0| && Same(m0, m2, 0, base)
            && HeaderAt(m2, base) == Header(HEAP_MAGIC, bs[i].size + bs[i + 1].Extent(), bs[i].used,
                                            Onward(bs[i + 2..], rest), Behind(bs[..i]))
            && (i + 2 < |bs| ==> BackLinked(m0, m2, rest, Addr(base)))
  {
    hide HeaderAt, Segment, Offset, Behind, BackLinked, Onward;
    PairShape(m0, bs, i);
    var base := Offset(bs, i);
    var rest := base + bs[i].Extent() + bs[i + 1].Extent();
    if i + 2 < |bs| {
      EditElsewhere(m1, m2, rest, base);
      EditElsewhere(m0, m1, base, rest);
      IsBackLinked(m0, m2, rest, Addr(base));
    }
  }

  /** The pieces put together around blocks [i, i + 2). */
  lemma {:induction false} FuseDone(m0: seq<byte>, m1: seq<byte>, m2: seq<byte>, bs: seq<Block>, i: nat)
    requires FuseEdits(m0, m1, m2, bs, i) && Segment(m0, bs, 0, 0, 0)
    ensures i + 1 < |bs| && Segment(m2, MergeNext(bs, i), 0, 0, 0)
  {
    hide HeaderAt, Segment, Total, Offset, BackLinked, Behind, Onward;
    PairShape(m0, bs, i);
    FusedFront(m0, m1, m2, bs, i);
    hide FuseEdits, LastOffset;
    OffsetIsTotal(bs, i);
    var x := Block(bs[i].size + bs[i + 1].Extent(), bs[i].used);
    var base := Offset(bs, i);
    OneBlock(m2, x, base, Behind(bs[..i]), Onward(bs[i + 2..], base + x.Extent()));
    Rejoined(m0, m2, bs[..i], [x], bs[i + 2..], base, base + x.Extent(), Addr(base + bs[i].Extent()));
  }

  lemma FuseKeepsLive(m0: seq<byte>, m1: seq<byte>, m2: seq<byte>, bs: seq<Block>, i: nat)
    requires FuseEdits(m0, m1, m2, bs, i) && Segment(m0, bs, 0, 0, 0)
    ensures LiveKept(m0, m2, Live(bs, 0))
  {
    hide HeaderAt, Segment, Offset, Live, LiveKept, Onward, Behind;
    PairShape(m0, bs, i);
    NextFits(m0, bs, i + 1);
    HeaderEditKeepsLive(m0, m1, bs, i);
    if i + 2 < |bs| {
      HeaderEditKeepsLive(m1, m2, bs, i + 2);
      LiveKeptTwice(m0, m1, m2, Live(bs, 0));
    }
  }

  lemma LiveKeptLess(m0: seq<byte>, m1: seq<byte>, live: set<(nat, nat)>, fewer: set<(nat, nat)>)
    requires LiveKept(m0, m1, live) && fewer <= live
    ensures LiveKept(m0, m1, fewer)
  {
  }

  lemma NothingChanged(mem: seq<byte>, live: set<(nat, nat)>)
    ensures LiveKept(mem, mem, live)
  {
  }

  /** Freeing and merging forward does not move block `i`. */
  lemma OffsetsAhead(bs: seq<Block>, i: nat)
    requires i < |bs|
    ensures Offset(bs[i := Block(bs[i].size, false)], i) == Offset(bs, i)
    ensures i < |Ahead(bs, i)| && Offset(Ahead(bs, i), i) == Offset(bs, i) && !Ahead(bs, i)[i].used
    ensures i > 0 ==> Ahead(bs, i)[i - 1] == bs[i - 1]
  {
    AheadIs(bs, i);
    assert bs[i := Block(bs[i].size, false)][..i] == bs[..i];
    assert Ahead(bs, i)[..i] == bs[..i];
  }

  lemma LastHeader(mem: seq<byte>, bs: seq<Block>)
    requires bs != [] && Segment(mem, bs, 0, 0, 0)
    ensures var base := LastOffset(bs);
            && base + bs[|bs| - 1].Extent() == Total(bs) <= |mem|
    ensures var h := HeaderAt(mem, LastOffset(bs));
            h.size == bs[|bs| - 1].size && h.used == bs[|bs| - 1].used && h.next == 0
  {
    hide HeaderAt, Segment, Total;
    HeaderOf(mem, bs, |bs| - 1);
    LastTotal(bs);
  }

  /** The edits of a growing heap: more memory, a header at the old end, the forward link of the last block. */
  lemma GrownHeaders(m0: seq<byte>, m1: seq<byte>, m2: seq<byte>, m3: seq<byte>, prev: nat, end: nat, more: nat)
    requires prev + HEADER <= end == |m0| && end + HEADER <= |m1|
    requires forall k :: 0 <= k < |m0| ==> m1[k] == m0[k]
    requires |m0| <= |m1| && HeaderEdit(m1, m2, end) && HeaderEdit(m2, m3, prev)
    requires HeaderAt(m3, prev) == HeaderAt(m2, prev).(next := Addr(end))
    ensures Extended(m0, m3, prev)
    ensures HeaderAt(m3, prev) == HeaderAt(m0, prev).(next := Addr(end))
    ensures HeaderAt(m3, end) == HeaderAt(m2, end)
  {
    hide HeaderAt;
    HeaderKept(m0, m1, prev);
    EditElsewhere(m1, m2, end, prev);
    EditElsewhere(m2, m3, prev, end);
  }

  lemma GrownMerged(m0: seq<byte>, m3: seq<byte>, m4: seq<byte>, bs: seq<Block>, prev: nat, more: nat)
    requires bs != [] && Segment(m0, bs, 0, 0, 0) && prev == LastOffset(bs) && !bs[|bs| - 1].used && more >= HEADER
    requires Extended(m0, m3, prev) && HeaderEdit(m3, m4, prev) && Total(bs) + more <= |m4|
    requires HeaderAt(m3, prev).magic == HeaderAt(m0, prev).magic && HeaderAt(m3, prev).used == HeaderAt(m0, prev).used
    requires HeaderAt(m3, prev).prev == HeaderAt(m0, prev).prev
    requires HeaderAt(m4, prev) == HeaderAt(m3, prev).(size := bs[|bs| - 1].size + more, next := 0)
    ensures Extended(m0, m4, prev) && Segment(m4, Grow(bs, more), 0, 0, 0)
  {
    hide HeaderAt, Segment, Total, LastOffset;
    LastHeader(m0, bs);
    Stretched(m0, m4, bs, bs[|bs| - 1].size + more, prev);
  }

  lemma GrownLast(bs: seq<Block>, more: nat)
    requires bs != [] && more >= HEADER
    ensures LastOffset(Grow(bs, more)) == if bs[|bs| - 1].used then Total(bs) else LastOffset(bs)
  {
    hide Total, Live;
    GrowLive(bs, more);
  }

  lemma LastIs(bs: seq<Block>)
    requires bs != []
    ensures LastOffset(bs) == Offset(bs, |bs| - 1)
  {
  }

  lemma FirstOffset(bs: seq<Block>)
    ensures Offset(bs, 0) == 0
  {
  }

  lemma WholePages(q: nat)
    ensures (0x1000 * q) % 0x1000 == 0
  {
  }

  lemma StepsArePages(size: nat, more: nat)
    requires size % HEAP_THRESHOLD == 0 && more % HEAP_THRESHOLD == 0
    ensures size % 0x1000 == 0 && (size + more) % 0x1000 == 0
  {
    var a, b := size / HEAP_THRESHOLD, more / HEAP_THRESHOLD;
    assert size == 0x1000 * (16 * a) && more == 0x1000 * (16 * b);
    WholePages(16 * a);
    WholePages(16 * a + 16 * b);
  }

  // ---- a request whose sums wrap ----

  /** The list after growing for a request. */
  function Larger(bs: seq<Block>, size: nat): (grown: seq<Block>)
    requires bs != []
    ensures grown != []
  {
    ExpansionIsSteps(bs, size);
    Grow(bs, Expansion(bs, size))
  }

  /** Where the block that growth makes for the request begins. */
  function GrownBase(bs: seq<Block>, size: nat): nat
    requires bs != []
  {
    LastOffset(Larger(bs, size))
  }

  /** From `m1`: a header for a rest of the wrapped size goes to `at`, giving `m2`; then the block at `base`, of `have`
      bytes, is made as large as the request. */
  ghost predicate Misplacing(m1: seq<byte>, m2: seq<byte>, m: seq<byte>, base: nat, at: nat, size: nat, have: nat) {
    && |m1| == |m2| == |m| && at + HEADER <= |m| && base + HEADER <= |m| && HeaderEdit(m1, m2, at)
    && HeaderAt(m2, at) == Header(HEAP_MAGIC, if U32 + have < size + HEADER then 0 else U32 + have - size - HEADER,
                                  false, 0, Addr(base))
    && HeaderEdit(m2, m, base)
    && HeaderAt(m, base) == HeaderAt(m2, base).(size := size, next := Addr(at), used := true)
  }

  /** The heap has grown from `m0` to `m1`. */
  ghost predicate AfterGrowth(m0: seq<byte>, m1: seq<byte>, bs: seq<Block>, size: nat)
    requires bs != []
  {
    |m1| == Total(Larger(bs, size)) && Segment(m1, Larger(bs, size), 0, 0, 0) && LiveKept(m0, m1, Live(bs, 0))
  }

  ghost predicate Strayed(m0: seq<byte>, m1: seq<byte>, m2: seq<byte>, m: seq<byte>, bs: seq<Block>, size: nat)
    requires bs != []
  {
    && RestAt(GrownBase(bs, size), size) >= 0
    && AfterGrowth(m0, m1, bs, size)
    && Misplacing(m1, m2, m, GrownBase(bs, size), RestAt(GrownBase(bs, size), size), size,
                  Larger(bs, size)[|Larger(bs, size)| - 1].size)
  }

  /** What a request whose sums wrap leaves: the header of the rest has gone to the wrapped address. */
  ghost predicate Misplaced(m0: seq<byte>, m: seq<byte>, bs: seq<Block>, size: nat)
    requires bs != []
  {
    exists m1, m2 :: Strayed(m0, m1, m2, m, bs, size)
  }

  /** The header that went astray stands where it fell: a live payload around it now holds the magic number. */
  lemma MisplacedHits(m0: seq<byte>, m: seq<byte>, bs: seq<Block>, size: nat)
    requires bs != [] && Misplaced(m0, m, bs, size)
    ensures var base, at := GrownBase(bs, size), RestAt(GrownBase(bs, size), size);
            at + HEADER <= base ==> 0 <= at && at + 4 <= |m| && Word(m, at) == HEAP_MAGIC
  {
    var base, at := GrownBase(bs, size), RestAt(GrownBase(bs, size), size);
    hide GrownBase, RestAt, AfterGrowth, Larger;
    var m1, m2 :| Strayed(m0, m1, m2, m, bs, size);
    if at + HEADER <= base {
      EditElsewhere(m2, m, base, at);
    }
  }

  /** What the wrapped split has to do with: too little in the block, and a rest that lands before the end. */
  lemma StrayFacts(bs: seq<Block>, size: nat)
    requires bs != [] && FirstFit(bs, size, 0) == |bs| && size < U32 && !SumsHold(bs, size)
    requires Total(Larger(bs, size)) <= HEAP_LIMIT
    ensures var grown := Larger(bs, size);
            var have, base := grown[|grown| - 1].size, GrownBase(bs, size);
            && have < size && U32 + have - size >= HEADER + 8
            && RestAt(base, size) <= base + HEADER && base + HEADER + have == Total(grown)
            && HEAP_THRESHOLD - HEADER <= have
  {
    WrappedExpansion(bs, size);
    var grown := Larger(bs, size);
    LastTotal(grown);
    LastIs(grown);
    hide Total, LastOffset;
  }

  // ---- a byte stored in a payload ----

  /** The offset lies in a live payload. */
  ghost predicate InLive(bs: seq<Block>, at: nat) {
    exists o, s :: (o, s) in Live(bs, 0) && o <= at < o + s
  }

  lemma {:induction false} SegmentApart(mem: seq<byte>, mem': seq<byte>, bs: seq<Block>, base: nat, prev: nat,
                                        next: nat, at: nat)
    requires Segment(mem, bs, base, prev, next) && |mem'| == |mem|
    requires forall k :: 0 <= k < |mem| && k != at ==> mem'[k] == mem[k]
    requires forall k: nat :: k < |bs| ==> at < base + Offset(bs, k) || base + Offset(bs, k) + HEADER <= at
    ensures Segment(mem', bs, base, prev, next)
    decreases |bs|
  {
    if bs != [] {
      assert Offset(bs, 0) == 0;
      HeaderKept(mem, mem', base);
      hide HeaderAt;
      forall k: nat | k < |bs| - 1
        ensures Offset(bs, k + 1) == bs[0].Extent() + Offset(bs[1..], k)
      {
        assert bs[..k + 1][1..] == bs[1..][..k];
      }
      SegmentApart(mem, mem', bs[1..], base + bs[0].Extent(), Addr(base), next, at);
    }
  }

  lemma StoreKeepsSegment(mem: seq<byte>, bs: seq<Block>, at: nat, b: byte)
    requires Segment(mem, bs, 0, 0, 0) && |mem| == Total(bs) && InLive(bs, at)
    ensures at < |mem| && Segment(mem[at := b], bs, 0, 0, 0)
  {
    var o, s :| (o, s) in Live(bs, 0) && o <= at < o + s;
    LiveBounds(bs, 0, o, s);
    hide Segment, Live, Total, Offset;
    forall k: nat | k < |bs|
      ensures at < Offset(bs, k) || Offset(bs, k) + HEADER <= at
    {
      LiveApartFromHeaders(bs, 0, k, o, s);
    }
    SegmentApart(mem, mem[at := b], bs, 0, 0, 0, at);
  }
}
