/** The ext3 file handle: reading and seeking against the flat contents of the file. */
module Ext3File {
  import opened Bytes
  import opened Ext3Blocks

  /** How many bytes a read of `n` may deliver. */
  function ReadCount(position: nat, size: nat, n: nat): nat {
    if position >= size then 0 else if n < size - position then n else size - position
  }

  /** `data` is what `contents` holds at `pos`. */
  ghost predicate Matches(data: seq<byte>, contents: seq<byte>, pos: nat) {
    data == [] || (pos + |data| <= |contents| && data == contents[pos..pos + |data|])
  }

  /** No block that the bytes `[pos, pos + total)` touch is missing. */
  ghost predicate NoHoles(list: seq<u32>, bs: nat, pos: nat, total: nat)
    requires bs > 0
  {
    total > 0 ==> forall i: nat :: pos / bs <= i && i * bs < pos + total ==> At(list, i) != 0
  }

  /** The block of byte `p` is missing. */
  ghost predicate Missing(list: seq<u32>, bs: nat, p: nat)
    requires bs > 0
  {
    At(list, p / bs) == 0
  }

  /** Every block that holds part of the first `size` bytes is present. */
  ghost predicate FullyMapped(list: seq<u32>, bs: nat, size: nat) {
    && size <= |list| * bs
    && forall i: nat :: i * bs < size ==> At(list, i) != 0
  }

  lemma DivFacts(x: nat, n: nat)
    requires n > 0
    ensures x == x / n * n + x % n && x % n < n
  {
  }

  lemma TimesLess(i: nat, j: nat, n: nat)
    requires i * n < j * n
    ensures i < j
  {
    if j <= i {
      TimesAtMost(j, i, n);
    }
  }

  lemma {:induction false} TimesAtMost(i: nat, j: nat, n: nat)
    requires i <= j
    ensures i * n <= j * n
    decreases j
  {
    if i < j {
      TimesAtMost(i, j - 1, n);
      TimesStep(j - 1, n);
    }
  }

  lemma NoHolesFrom(list: seq<u32>, bs: nat, pos: nat, total: nat, index: nat)
    requires bs > 0 && (total > 0 ==> pos + total <= index * bs)
    requires forall i: nat :: pos / bs <= i < index ==> At(list, i) != 0
    ensures NoHoles(list, bs, pos, total)
  {
    hide At;
    forall i: nat | total > 0 && pos / bs <= i && i * bs < pos + total ensures At(list, i) != 0 {
      TimesLess(i, index, bs);
    }
  }

  /** The next chunk continues what has been read. */
  lemma ChunkMatches(disk: Disk, bs: nat, list: seq<u32>, data: seq<byte>, pos: nat, index: nat, o: nat, n: nat)
    requires DiskOk(disk, bs) && index < |list| && o + n <= bs && n > 0
    requires Matches(data, Flat(disk, bs, list), pos) && pos + |data| == index * bs + o
    ensures Matches(data + disk[list[index]][o..o + n], Flat(disk, bs, list), pos)
  {
    FlatAt(disk, bs, list, index, o, n);
    hide Flat, DiskOk;
    var flat := Flat(disk, bs, list);
    assert flat[index * bs + o..index * bs + o + n] == disk[list[index]][o..o + n];
    Continues(data, flat, pos, disk[list[index]][o..o + n]);
  }

  lemma Continues(data: seq<byte>, flat: seq<byte>, pos: nat, more: seq<byte>)
    requires Matches(data, flat, pos) && pos + |data| + |more| <= |flat|
    requires more == flat[pos + |data|..pos + |data| + |more|]
    ensures Matches(data + more, flat, pos)
  {
  }

  function Least(a: nat, b: nat): nat {
    if a < b then a else b
  }

  /** Where a seek lands: from the start, from where the cursor is, or back from the end, and never past the end. */
  function SeekTo(position: u32, size: u32, offset: u32, whence: nat): (p: u32)
    ensures p <= size
  {
    match whence
    case 0 => Least(offset, size)
    case 1 => if position + offset < U32 then Least(position + offset, size) else Least(position - (U32 - offset), size)
    case 2 => if offset <= size then size - offset else size
    case _ => Least(position, size)
  }

  /** An offset that is a negative number in two's complement goes back, as long as it stays in the file. */
  lemma SeekBack(position: u32, size: u32, k: u32)
    requires 0 < k <= position <= size
    ensures SeekTo(position, size, U32 - k, 1) == position - k
  {
  }

  /** Going forward and back again by the same amount, and seeking to what was told, both return. */
  lemma SeekReturns(position: u32, size: u32, k: u32)
    requires 0 < k && position + k <= size
    ensures SeekTo(SeekTo(position, size, k, 1), size, U32 - k, 1) == position
    ensures forall elsewhere: u32 :: SeekTo(elsewhere, size, position, 0) == position
    ensures SeekTo(position, size, size - position, 2) == position
  {
    SeekBack(position + k, size, k);
  }

  /** Going back beyond the start does not stop there: it goes forward, usually to the end. */
  lemma SeekBeforeStart(position: u32, size: u32, k: u32)
    requires position < k && position <= size
    ensures SeekTo(position, size, U32 - k, 1) == Least(U32 - (k - position), size)
  {
  }

  lemma ChunkStart(p: nat, index: nat, offset: nat, bs: nat)
    requires p == index * bs + offset && offset < bs
    ensures p / bs == index
  {
    DivFacts(p, bs);
    var q := p / bs;
    if q < index {
      TimesAtMost(q + 1, index, bs);
      TimesStep(q, bs);
    } else if index < q {
      TimesAtMost(index + 1, q, bs);
      TimesStep(index, bs);
    }
  }

  lemma NothingRead(list: seq<u32>, contents: seq<byte>, bs: nat, pos: nat)
    requires bs > 0
    ensures NoHoles(list, bs, pos, 0) && Matches([], contents, pos)
  {
  }

  class FileHandle {
    const disk: Disk
    const bs: nat
    const block: seq<u32>
    var position: u32
    var size: u32

    ghost predicate Valid()
      reads this
    {
      DiskOk(disk, bs) && |block| == 15
    }

    ghost function List(): seq<u32>
      requires DiskOk(disk, bs) && |block| == 15
    {
      BlockList(disk, bs, block)
    }

    ghost function Contents(): seq<byte>
      requires DiskOk(disk, bs) && |block| == 15
    {
      Flat(disk, bs, List())
    }

    /** The handle ext3_open makes for an inode. */
    constructor (disk: Disk, bs: nat, block: seq<u32>, size: u32)
      requires DiskOk(disk, bs) && |block| == 15
      ensures Valid() && position == 0 && this.size == size
      ensures this.disk == disk && this.bs == bs && this.block == block
    {
      this.disk, this.bs, this.block, this.size, this.position := disk, bs, block, size, 0;
    }

    /** block_from_inode: the leaf of the pointer tree, 0 where there is none. */
    method BlockOf(index: nat) returns (b: u32)
      requires Valid()
      ensures b == At(List(), index)
      ensures NumberOf(disk, bs, block, index, b)
    {
      BlockIsLeaf(disk, bs, block, index);
      LeafNumber(disk, bs, block, index);
      hide Pointer, DoublePointer, BlockList, At, DiskOk, NumberOf;
      if index < 12 {
        return block[index];
      }
      var entries := bs / 4;
      var rest := index - 12;
      if rest < entries {
        return Pointer(disk, bs, block[12], rest);
      }
      rest := rest - entries;
      if rest < entries * entries {
        b := DoubleIndirect(rest);
        return;
      }
      return 0;
    }

    /** block_from_inode past the single indirect block. */
    method DoubleIndirect(rest: nat) returns (b: u32)
      requires Valid() && rest < bs / 4 * (bs / 4)
      ensures b == DoublePointer(disk, bs, block[13], rest)
    {
      var entries := bs / 4;
      assert entries > 0;
      hide Pointer, DoublePointer, DiskOk;
      var ptr1, ptr2 := rest / entries, rest % entries;
      DoubleIs(disk, bs, block[13], rest, ptr1, ptr2);
      b := Pointer(disk, bs, block[13], ptr1);
      b := Pointer(disk, bs, b, ptr2);
    }

    /** The copying loop of ext3_read. */
    method ReadBlocks(buffer: array<byte>, toRead: nat) returns (total: nat)
      requires Valid() && bs > 0 && buffer.Length >= toRead
      modifies buffer
      ensures total <= toRead
      ensures Matches(buffer[..total], Contents(), position)
      ensures buffer[total..] == old(buffer[total..])
      ensures total < toRead ==> Missing(List(), bs, position + total)
      ensures NoHoles(List(), bs, position, total)
    {
      hide BlockList, Flat, Matches, DiskOk, NoHoles, At;
      NothingRead(List(), Contents(), bs, position);
      DivFacts(position, bs);
      total := 0;
      var index: nat, offset: nat := position / bs, position % bs;
      assert buffer[..0] == [];
      while total < toRead
        invariant total <= toRead && position / bs <= index
        invariant total < toRead ==> position + total == index * bs + offset && offset < bs
        invariant total > 0 ==> position + total <= index * bs
        invariant forall i: nat :: position / bs <= i < index ==> At(List(), i) != 0
        invariant Matches(buffer[..total], Contents(), position)
        invariant buffer[total..] == old(buffer[total..])
      {
        var b := BlockOf(index);
        if b == 0 {
          ChunkStart(position + total, index, offset, bs);
          break;
        }
        var chunk := bs - offset;
        if chunk > toRead - total {
          chunk := toRead - total;
        }
        CopyChunk(buffer, total, index, b, offset, chunk);
        TimesStep(index, bs);
        total := total + chunk;
        offset := 0;
        index := index + 1;
      }
      NoHolesFrom(List(), bs, position, total, index);
    }

    /** memcpy of part of a block into the buffer. */
    method CopyChunk(buffer: array<byte>, total: nat, index: nat, b: u32, offset: nat, chunk: nat)
      requires Valid() && offset + chunk <= bs && chunk > 0 && total + chunk <= buffer.Length
      requires b != 0 && b == At(List(), index)
      requires position + total == index * bs + offset
      requires Matches(buffer[..total], Contents(), position)
      modifies buffer
      ensures Matches(buffer[..total + chunk], Contents(), position)
      ensures buffer[total + chunk..] == old(buffer[total + chunk..])
    {
      hide BlockList, Flat, Matches;
      ChunkMatches(disk, bs, List(), buffer[..total], position, index, offset, chunk);
      var data := disk[b][offset..offset + chunk];
      ghost var got := buffer[..total];
      forall k | 0 <= k < chunk {
        buffer[total + k] := data[k];
      }
      assert buffer[..total + chunk] == got + data;
    }

    /**
     * ext3_read: the bytes from the position on, as far as the size and the first missing block allow; the rest of the
     * buffer is untouched.
     */
    method Read(buffer: array<byte>, n: u32) returns (total: nat)
      requires Valid() && buffer.Length >= ReadCount(position, size, n)
      modifies this`position, buffer
      ensures total <= n && position == old(position) + total
      ensures if old(position) < size then position <= size else total == 0
      ensures total < n && position < size ==> Missing(List(), bs, position)
      ensures Matches(buffer[..total], Contents(), old(position))
      ensures buffer[total..] == old(buffer[total..])
      ensures NoHoles(List(), bs, old(position), total)
    {
      assert bs > 0;
      hide BlockList, Flat, Matches, DiskOk, NoHoles, Missing;
      NothingRead(List(), Contents(), bs, position);
      total := 0;
      if position >= size {
        assert buffer[..0] == [];
        return;
      }
      var toRead := ReadCount(position, size, n);
      total := ReadBlocks(buffer, toRead);
      position := position + total;
    }

    /** ext3_seek, with its 32-bit sums; past the end it stops at the end. */
    method Seek(offset: u32, whence: nat) returns (p: u32)
      modifies this`position
      ensures p == position <= size
      ensures whence == 0 ==> p == Least(offset, size)
      ensures whence == 1 && old(position) + offset < U32 ==> p == Least(old(position) + offset, size)
      ensures whence == 1 && old(position) + offset >= U32 ==> p == Least(old(position) - (U32 - offset), size)
      ensures whence == 2 ==> p == if offset <= size then size - offset else size
      ensures whence > 2 ==> p == Least(old(position), size)
    {
      if whence == 0 {
        position := offset;
      } else if whence == 1 {
        position := (position + offset) % U32;
      } else if whence == 2 {
        position := (size - offset) % U32;
      }
      if position > size {
        position := size;
      }
      p := position;
    }

    /** ext3_tell. */
    method Tell() returns (p: u32)
      ensures p == position
    {
      p := position;
    }

    /** ext3_eof: the position is not before the end. */
    method Eof() returns (end: bool)
      ensures end <==> size <= position
    {
      end := position >= size;
    }
  }
}
