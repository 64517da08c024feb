/** The blocks of an ext3 file: the pointer tree as a flat list, and the list as one byte sequence. */
module Ext3Blocks {
  import opened Bytes

  /** Every block number reads something: transfers are total. */
  type Disk = seq<seq<byte>>

  ghost predicate DiskOk(disk: Disk, bs: nat) {
    && bs % 4 == 0 && 0 < bs <= 0x1_0000
    && |disk| == U32 && forall b :: 0 <= b < |disk| ==> |disk[b]| == bs
  }

  /** `((uint32_t*)buf)[i]` of block `b`. */
  function Pointer(disk: Disk, bs: nat, b: u32, i: nat): u32
    requires DiskOk(disk, bs) && i < bs / 4
  {
    Word(disk[b], 4 * i)
  }

  // The reference: every leaf below a pointer, in order.

  /** The leaves below entries `i` and later of pointer block `b`, itself `level` levels above the data. */
  ghost function LeavesFrom(disk: Disk, bs: nat, level: nat, b: u32, i: nat): seq<u32>
    requires DiskOk(disk, bs) && i <= bs / 4 && level > 0
    decreases level, bs / 4 - i
  {
    if i == bs / 4 then []
    else Leaves(disk, bs, level - 1, Pointer(disk, bs, b, i)) + LeavesFrom(disk, bs, level, b, i + 1)
  }

  ghost function Leaves(disk: Disk, bs: nat, level: nat, b: u32): seq<u32>
    requires DiskOk(disk, bs)
    decreases level, bs / 4 + 1
  {
    if level == 0 then [b] else LeavesFrom(disk, bs, level, b, 0)
  }

  /** All data blocks that twelve direct, one indirect and one double-indirect pointer reach. */
  ghost function BlockList(disk: Disk, bs: nat, block: seq<u32>): seq<u32>
    requires DiskOk(disk, bs) && |block| == 15
  {
    block[..12] + Leaves(disk, bs, 1, block[12]) + Leaves(disk, bs, 2, block[13])
  }

  /** Leaves below a pointer, by level. */
  ghost function Width(bs: nat, level: nat): nat {
    if level == 0 then 1 else bs / 4 * Width(bs, level - 1)
  }

  lemma {:induction false} LeavesSize(disk: Disk, bs: nat, level: nat, b: u32)
    requires DiskOk(disk, bs)
    ensures |Leaves(disk, bs, level, b)| == Width(bs, level)
    decreases level, bs / 4 + 1
  {
    hide DiskOk, Pointer;
    if level > 0 {
      LeavesFromSize(disk, bs, level, b, 0);
    }
  }

  lemma {:induction false} LeavesFromSize(disk: Disk, bs: nat, level: nat, b: u32, i: nat)
    requires DiskOk(disk, bs) && i <= bs / 4 && level > 0
    ensures |LeavesFrom(disk, bs, level, b, i)| == (bs / 4 - i) * Width(bs, level - 1)
    decreases level, bs / 4 - i
  {
    hide Width, Pointer;
    if i < bs / 4 {
      LeavesSize(disk, bs, level - 1, Pointer(disk, bs, b, i));
      LeavesFromSize(disk, bs, level, b, i + 1);
      TimesStep(bs / 4 - i - 1, Width(bs, level - 1));
    }
  }

  lemma TimesStep(n: nat, w: nat)
    ensures (n + 1) * w == n * w + w
  {
  }

  ghost function Place(n: nat, w: nat, q: nat): nat {
    n * w + q
  }

  ghost predicate SameLeaf(list: seq<u32>, at: nat, leaves: seq<u32>, q: nat) {
    at < |list| && q < |leaves| && list[at] == leaves[q]
  }

  /** Leaf `q` below entry `p` of a pointer block. */
  lemma {:induction false} LeafAt(disk: Disk, bs: nat, level: nat, b: u32, i: nat, p: nat, q: nat)
    requires DiskOk(disk, bs) && level > 0 && i <= p < bs / 4 && q < Width(bs, level - 1)
    ensures SameLeaf(LeavesFrom(disk, bs, level, b, i), Place(p - i, Width(bs, level - 1), q),
                     Leaves(disk, bs, level - 1, Pointer(disk, bs, b, p)), q)
    decreases p - i
  {
    hide Width, Pointer, Leaves, DiskOk, Place;
    var w := Width(bs, level - 1);
    LeavesSize(disk, bs, level - 1, Pointer(disk, bs, b, i));
    if i < p {
      LeafAt(disk, bs, level, b, i + 1, p, q);
      PlaceStep(p - i - 1, w, q);
    } else {
      PlaceStep(0, w, q);
    }
  }

  lemma PlaceStep(n: nat, w: nat, q: nat)
    ensures Place(n + 1, w, q) == w + Place(n, w, q) && Place(0, w, q) == q
  {
  }

  /** Entry `rest` counted across the blocks that pointer block `b` points to. */
  function DoublePointer(disk: Disk, bs: nat, b: u32, rest: nat): u32
    requires DiskOk(disk, bs) && rest < bs / 4 * (bs / 4)
  {
    DivBound(rest, bs / 4);
    Pointer(disk, bs, Pointer(disk, bs, b, rest / (bs / 4)), rest % (bs / 4))
  }

  lemma DoubleIs(disk: Disk, bs: nat, b: u32, rest: nat, p: nat, q: nat)
    requires DiskOk(disk, bs) && rest < bs / 4 * (bs / 4) && bs / 4 > 0
    requires p == rest / (bs / 4) && q == rest % (bs / 4)
    ensures p < bs / 4 && q < bs / 4
    ensures DoublePointer(disk, bs, b, rest) == Pointer(disk, bs, Pointer(disk, bs, b, p), q)
  {
    hide Pointer, DiskOk;
    DivBound(rest, bs / 4);
  }

  /** block_from_inode's arithmetic on the index, on values; 0 beyond the double-indirect range. */
  function BlockFromInode(disk: Disk, bs: nat, block: seq<u32>, index: nat): u32
    requires DiskOk(disk, bs) && |block| == 15
  {
    var entries := bs / 4;
    if index < 12 then
      block[index]
    else if index - 12 < entries then
      Pointer(disk, bs, block[12], index - 12)
    else if index - 12 - entries < entries * entries then
      DoublePointer(disk, bs, block[13], index - 12 - entries)
    else
      0
  }

  lemma DivBound(x: nat, n: nat)
    requires x < n * n
    ensures 0 < n && x / n < n && x % n < n && x == x / n * n + x % n
  {
  }

  /** block_from_inode indexes the flat list of leaves. */
  lemma BlockIsLeaf(disk: Disk, bs: nat, block: seq<u32>, index: nat)
    requires DiskOk(disk, bs) && |block| == 15
    ensures BlockFromInode(disk, bs, block, index) == At(BlockList(disk, bs, block), index)
  {
    hide Pointer, Width, Leaves, DiskOk;
    var entries := bs / 4;
    LeavesSize(disk, bs, 1, block[12]);
    LeavesSize(disk, bs, 2, block[13]);
    WidthOne(bs);
    AtJoin(block[..12] + Leaves(disk, bs, 1, block[12]), Leaves(disk, bs, 2, block[13]), index);
    AtJoin(block[..12], Leaves(disk, bs, 1, block[12]), index);
    if 12 <= index {
      TreeLeaf(disk, bs, block, index - 12);
    }
    hide BlockFromInode;
  }

  function At(list: seq<u32>, i: nat): u32 {
    if i < |list| then list[i] else 0
  }

  lemma AtJoin(a: seq<u32>, b: seq<u32>, i: nat)
    ensures At(a + b, i) == if i < |a| then At(a, i) else At(b, i - |a|)
  {
  }

  /** The part of block_from_inode below the indirect pointers. */
  lemma TreeLeaf(disk: Disk, bs: nat, block: seq<u32>, index: nat)
    requires DiskOk(disk, bs) && |block| == 15
    ensures BlockFromInode(disk, bs, block, 12 + index) ==
            if index < bs / 4 then At(Leaves(disk, bs, 1, block[12]), index)
            else At(Leaves(disk, bs, 2, block[13]), index - bs / 4)
  {
    hide Pointer, Width, Leaves, DiskOk;
    var entries := bs / 4;
    LeavesSize(disk, bs, 2, block[13]);
    WidthOne(bs);
    if index < entries {
      SingleLeaf(disk, bs, block[12], index);
    } else if index - entries < entries * entries {
      var rest := index - entries;
      DivBound(rest, entries);
      DoubleLeaf(disk, bs, block[13], rest / entries, rest % entries);
    }
  }

  lemma WidthOne(bs: nat)
    ensures Width(bs, 0) == 1 && Width(bs, 1) == bs / 4 && Width(bs, 2) == bs / 4 * (bs / 4)
  {
  }

  lemma SingleLeaf(disk: Disk, bs: nat, b: u32, p: nat)
    requires DiskOk(disk, bs) && p < bs / 4
    ensures At(Leaves(disk, bs, 1, b), p) == Pointer(disk, bs, b, p)
    ensures SameLeaf(Leaves(disk, bs, 1, b), p, [Pointer(disk, bs, b, p)], 0)
  {
    WidthOne(bs);
    hide DiskOk, Pointer, Width;
    LeafAt(disk, bs, 1, b, 0, p, 0);
    assert Place(p, 1, 0) == p;
  }

  lemma DoubleLeaf(disk: Disk, bs: nat, b: u32, p: nat, q: nat)
    requires DiskOk(disk, bs) && p < bs / 4 && q < bs / 4
    ensures At(Leaves(disk, bs, 2, b), p * (bs / 4) + q) == Pointer(disk, bs, Pointer(disk, bs, b, p), q)
  {
    WidthOne(bs);
    hide DiskOk, Pointer, Width;
    LeafAt(disk, bs, 2, b, 0, p, q);
    SingleLeaf(disk, bs, Pointer(disk, bs, b, p), q);
    assert Leaves(disk, bs, 2, b) == LeavesFrom(disk, bs, 2, b, 0);
    hide Leaves;
  }

  // The flat contents.

  ghost function Flat(disk: Disk, bs: nat, list: seq<u32>): (r: seq<byte>)
    requires DiskOk(disk, bs)
  {
    if list == [] then [] else disk[list[0]] + Flat(disk, bs, list[1..])
  }

  /** The part `[o, o + n)` of block `i` is the part `[i * bs + o, i * bs + o + n)` of the whole. */
  lemma {:induction false} FlatAt(disk: Disk, bs: nat, list: seq<u32>, i: nat, o: nat, n: nat)
    requires DiskOk(disk, bs) && i < |list| && o + n <= bs
    ensures i * bs + o + n <= |Flat(disk, bs, list)|
    ensures Flat(disk, bs, list)[i * bs + o..i * bs + o + n] == disk[list[i]][o..o + n]
  {
    if i > 0 {
      FlatAt(disk, bs, list[1..], i - 1, o, n);
      TimesStep(i - 1, bs);
      var head, tail := disk[list[0]], Flat(disk, bs, list[1..]);
      var lo := i * bs + o;
      assert |head| == bs && lo >= bs;
      SkipHead(head, tail, lo, n);
    } else {
      var head, tail := disk[list[0]], Flat(disk, bs, list[1..]);
      assert |head| == bs;
      assert (head + tail)[o..o + n] == head[o..o + n];
    }
  }

  lemma SkipHead(head: seq<byte>, tail: seq<byte>, lo: nat, n: nat)
    requires |head| <= lo && lo - |head| + n <= |tail|
    ensures (head + tail)[lo..lo + n] == tail[lo - |head|..lo - |head| + n]
  {
  }

  // The list in bytes.

  /** The block is an array of little-endian numbers, those of `w`. */
  ghost predicate HoldsWords(bytes: seq<byte>, w: seq<u32>) {
    |bytes| == 4 * |w| && forall i: nat :: i < |w| ==> LittleEndian(bytes, 4 * i, w[i])
  }

  lemma PointerIs(disk: Disk, bs: nat, b: u32, i: nat, w: seq<u32>)
    requires DiskOk(disk, bs) && HoldsWords(disk[b], w) && i < bs / 4
    ensures i < |w| && Pointer(disk, bs, b, i) == w[i]
  {
    assert LittleEndian(disk[b], 4 * i, w[i]);
    WordIs(disk[b], 4 * i);
  }

  /** The leaves after the twelve direct ones are the words of the indirect block. */
  lemma SingleWords(disk: Disk, bs: nat, block: seq<u32>, w: seq<u32>, i: nat)
    requires DiskOk(disk, bs) && |block| == 15
    requires HoldsWords(disk[block[12]], w) && i < bs / 4
    ensures i < |w| && At(BlockList(disk, bs, block), 12 + i) == w[i]
  {
    PointerIs(disk, bs, block[12], i, w);
    hide Pointer, HoldsWords, DiskOk, BlockList, DoublePointer;
    BlockIsLeaf(disk, bs, block, 12 + i);
  }

  /** And after those come the words of the blocks that the words of the double-indirect block name. */
  lemma DoubleWords(disk: Disk, bs: nat, block: seq<u32>, w: seq<u32>, v: seq<u32>, p: nat, q: nat)
    requires DiskOk(disk, bs) && |block| == 15
    requires HoldsWords(disk[block[13]], w) && p < bs / 4 && p < |w|
    requires HoldsWords(disk[w[p]], v) && q < bs / 4
    ensures q < |v| && At(BlockList(disk, bs, block), 12 + bs / 4 + p * (bs / 4) + q) == v[q]
  {
    PointerIs(disk, bs, block[13], p, w);
    PointerIs(disk, bs, w[p], q, v);
    hide Pointer, HoldsWords, DiskOk, Leaves, BlockList;
    DoubleLeaf(disk, bs, block[13], p, q);
    LastLeaves(disk, bs, block, p * (bs / 4) + q);
  }

  lemma LastLeaves(disk: Disk, bs: nat, block: seq<u32>, k: nat)
    requires DiskOk(disk, bs) && |block| == 15
    ensures At(BlockList(disk, bs, block), 12 + bs / 4 + k) == At(Leaves(disk, bs, 2, block[13]), k)
  {
    hide Leaves, DiskOk;
    LeavesSize(disk, bs, 1, block[12]);
    WidthOne(bs);
    hide Width;
    AtJoin(block[..12] + Leaves(disk, bs, 1, block[12]), Leaves(disk, bs, 2, block[13]), 12 + bs / 4 + k);
  }

  /** Word `q` of the block that word `p` of block `b` names is `v`. */
  ghost predicate ThroughTwo(disk: Disk, b: u32, p: nat, q: nat, v: u32)
    requires |disk| == U32
  {
    exists mid: u32 :: LittleEndian(disk[b], 4 * p, mid) && LittleEndian(disk[mid], 4 * q, v)
  }

  /** Where the number of block `index` of a file is kept, in bytes. */
  ghost predicate NumberOf(disk: Disk, bs: nat, block: seq<u32>, index: nat, v: u32)
    requires |disk| == U32 && |block| == 15
  {
    var n := bs / 4;
    if index < 12 then v == block[index]
    else if index < 12 + n then LittleEndian(disk[block[12]], 4 * (index - 12), v)
    else if index < 12 + n + n * n then
      n > 0 && ThroughTwo(disk, block[13], (index - 12 - n) / n, (index - 12 - n) % n, v)
    else v == 0
  }

  /** The leaves are those numbers. */
  lemma LeafNumber(disk: Disk, bs: nat, block: seq<u32>, index: nat)
    requires DiskOk(disk, bs) && |block| == 15
    ensures NumberOf(disk, bs, block, index, At(BlockList(disk, bs, block), index))
  {
    var n := bs / 4;
    BlockIsLeaf(disk, bs, block, index);
    if 12 <= index < 12 + n {
      PointerStored(disk, bs, block[12], index - 12);
    } else if 12 + n <= index < 12 + n + n * n {
      hide Pointer, DiskOk, BlockList;
      DoubleStored(disk, bs, block[13], index - 12 - n);
    }
    hide Pointer, DiskOk, BlockList, DoublePointer, At, LittleEndian, ThroughTwo;
  }

  lemma PointerStored(disk: Disk, bs: nat, b: u32, i: nat)
    requires DiskOk(disk, bs) && i < bs / 4
    ensures LittleEndian(disk[b], 4 * i, Pointer(disk, bs, b, i))
  {
    WordIs(disk[b], 4 * i);
  }

  lemma DoubleStored(disk: Disk, bs: nat, b: u32, rest: nat)
    requires DiskOk(disk, bs) && rest < bs / 4 * (bs / 4) && bs / 4 > 0
    ensures ThroughTwo(disk, b, rest / (bs / 4), rest % (bs / 4), DoublePointer(disk, bs, b, rest))
  {
    DivBound(rest, bs / 4);
    var p, q := rest / (bs / 4), rest % (bs / 4);
    DoubleIs(disk, bs, b, rest, p, q);
    hide DoublePointer, Pointer, LittleEndian, DiskOk;
    PointerStored(disk, bs, b, p);
    PointerStored(disk, bs, Pointer(disk, bs, b, p), q);
  }
}
