/** 32-byte directory slots edited inside the buffer of one cluster. */
module FatSlots {
  import opened Bytes
  import opened FatLayout
  import opened FatVolume
  import opened FatTree
  import opened FatTreeSteps

  ghost predicate SameSlot(a: seq<byte>, b: seq<byte>, k: nat) {
    |a| == |b| && (SLOT * k + SLOT <= |a| ==> EntryAt(a, k) == EntryAt(b, k))
  }

  /** A buffer that differs only inside slot `j` has the other slots unchanged. */
  lemma OtherSlots(a: seq<byte>, b: seq<byte>, j: nat)
    requires |a| == |b|
    requires forall i :: 0 <= i < |a| && !(SLOT * j <= i < SLOT * j + SLOT) ==> a[i] == b[i]
    ensures forall k: nat :: k != j ==> SameSlot(a, b, k)
  {
    forall k: nat | k != j
      ensures SameSlot(a, b, k)
    {
      if SLOT * k + SLOT <= |a| {
        var o := SLOT * k;
        assert forall i :: o <= i < o + SLOT ==> a[i] == b[i];
        assert a[o..o + 11] == b[o..o + 11];
      }
    }
  }

  /** The bytes of a directory entry; the fields the driver does not use are zero. */
  function SlotBytes(name: Name, attrs: byte, l0: byte, l1: byte, h0: byte, h1: byte,
                     s0: byte, s1: byte, s2: byte, s3: byte): (b: seq<byte>)
    requires |name| == 11
    ensures |b| == SLOT
  {
    name + [attrs, 0, 0, 0, 0, 0, 0, 0, 0, h0, h1, 0, 0, 0, 0, l0, l1, s0, s1, s2, s3]
  }

  /** An entry with zeros in the fields that the driver does not use. */
  ghost predicate Fresh(bytes: seq<byte>, o: nat, e: Entry) {
    && Spells(bytes, o, e)
    && ZerosIn(bytes, o + 12, o + 20) && ZerosIn(bytes, o + 22, o + 26)
  }

  ghost predicate ZerosIn(bytes: seq<byte>, from: nat, to: nat) {
    to <= |bytes| && forall k :: from <= k < to ==> bytes[k] == 0
  }

  /** The same in slot `j` of cluster `c`. */
  ghost predicate FreshIn(data: seq<seq<byte>>, c: nat, j: nat, e: Entry) {
    c < |data| && Fresh(data[c], 32 * j, e)
  }

  lemma SlotFresh(buf: seq<byte>, o: nat, b: seq<byte>, name: Name, attrs: byte, l0: byte, l1: byte, h0: byte,
                  h1: byte, s0: byte, s1: byte, s2: byte, s3: byte)
    requires o + 32 <= |buf| && |name| == 11
    requires b == SlotBytes(name, attrs, l0, l1, h0, h1, s0, s1, s2, s3) && buf[o..o + 32] == b
    ensures Fresh(buf, o, Entry(name, attrs, Join(l0, l1, h0, h1), Join(s0, s1, s2, s3)))
  {
    assert b[..11] == name && buf[o..o + 11] == b[..11];
    forall k | o + 12 <= k < o + 20 || o + 22 <= k < o + 26 ensures buf[k] == 0 {
      assert buf[k] == buf[o..o + 32][k - o] == b[k - o];
    }
    assert buf[o + 11] == b[11] && buf[o + 20] == b[20] && buf[o + 21] == b[21];
    assert buf[o + 26] == b[26] && buf[o + 27] == b[27];
    assert buf[o + 28] == b[28] && buf[o + 29] == b[29] && buf[o + 30] == b[30] && buf[o + 31] == b[31];
  }

  lemma SlotIsFresh(buf: seq<byte>, j: nat, e: Entry)
    requires Fresh(buf, 32 * j, e)
    ensures 32 * j + 32 <= |buf| && EntryAt(buf, j) == e
  {
    EntryAtSpells(buf, j, e);
    hide EntryAt;
  }

  /** The buffers differ at most in the 32 bytes from `o` on. */
  ghost predicate SameOutside(a: seq<byte>, b: seq<byte>, o: nat) {
    |a| == |b| && forall i :: 0 <= i < |a| && !(o <= i < o + 32) ==> a[i] == b[i]
  }

  lemma FreshStays(a: seq<byte>, b: seq<byte>, o: nat, p: nat, e: Entry)
    requires SameOutside(a, b, p) && Fresh(b, o, e) && (o + 32 <= p || p + 32 <= o)
    ensures Fresh(a, o, e)
  {
    assert a[o..o + 11] == b[o..o + 11];
  }

  /** Fill slot `j`. */
  method PutEntry(buf: seq<byte>, j: nat, name: Name, attrs: byte, first: u32, size: u32) returns (r: seq<byte>)
    requires SLOT * j + SLOT <= |buf| && |name| == 11
    ensures |r| == |buf| && EntryAt(r, j) == Entry(name, attrs, first, size)
    ensures Fresh(r, 32 * j, Entry(name, attrs, first, size))
    ensures SameOutside(r, buf, 32 * j)
    ensures forall k: nat :: k != j ==> SameSlot(r, buf, k)
  {
    hide EntryAt, SlotBytes, Join, SameSlot, Fresh;
    var l0, l1, h0, h1 := Split(first);
    var s0, s1, s2, s3 := Split(size);
    var slot := SlotBytes(name, attrs, l0, l1, h0, h1, s0, s1, s2, s3);
    r := buf[..SLOT * j] + slot + buf[SLOT * j + SLOT..];
    assert r[SLOT * j..SLOT * j + SLOT] == slot;
    SlotFresh(r, 32 * j, slot, name, attrs, l0, l1, h0, h1, s0, s1, s2, s3);
    SlotIsFresh(r, j, Entry(name, attrs, first, size));
    OtherSlots(r, buf, j);
  }

  /** `entries[j].name[0] = 0xE5`. */
  method MarkSlot(buf: seq<byte>, j: nat) returns (r: seq<byte>)
    requires SLOT * j + SLOT <= |buf|
    ensures r == buf[32 * j := 0xE5] && Deleted(EntryAt(r, j))
    ensures forall k: nat :: k != j ==> SameSlot(r, buf, k)
  {
    hide SameSlot;
    r := buf[SLOT * j := 0xE5];
    OtherSlots(r, buf, j);
  }

  /** A cluster replaced by an edited copy: one slot of the volume changes. */
  lemma EditedCluster(data: seq<seq<byte>>, c: nat, buf: seq<byte>, j: nat)
    requires c < |data| && |buf| == |data[c]| && forall k: nat :: k != j ==> SameSlot(buf, data[c], k)
    ensures OnlySlot(data, data[c := buf], c, j)
  {
    hide EntryAt;
    forall d: nat, k: nat | (d, k) != (c, j)
      ensures EntryIn(data[c := buf], d, k) == EntryIn(data, d, k)
    {
      if d == c {
        assert SameSlot(buf, data[c], k);
      }
    }
  }

  lemma EntryInIs(data: seq<seq<byte>>, c: nat, j: nat)
    requires c < |data| && SLOT * j + SLOT <= |data[c]|
    ensures EntryIn(data, c, j) == EntryAt(data[c], j)
  {
  }

  /** The first cluster of a new directory: an entry "." for itself, an entry ".." for its parent, and zeros. */
  ghost predicate DotEntries(buf: seq<byte>, cluster: nat, parent: nat) {
    && Fresh(buf, 0, Entry([46, 32, 32, 32, 32, 32, 32, 32, 32, 32, 32], 0x10, cluster, 0))
    && Fresh(buf, 32, Entry([46, 46, 32, 32, 32, 32, 32, 32, 32, 32, 32], 0x10, parent, 0))
    && ZerosIn(buf, 64, |buf|)
  }

  method MakeDotEntries(bpc: nat, cluster: u32, parent: u32) returns (buf: seq<byte>)
    requires bpc >= 2 * SLOT
    ensures |buf| == bpc && DotEntries(buf, cluster, parent)
  {
    hide EntryAt, Fresh;
    var zeros := ZeroBytes(bpc);
    var one := PutEntry(zeros, 0, DOT, 0x10, cluster, 0);
    buf := PutEntry(one, 1, DOTDOT, 0x10, parent, 0);
    FreshStays(buf, one, 0, 32, Entry(DOT, 0x10, cluster, 0));
  }

  /** The entries of a buffer: the two dot entries, and unused ones. */
  ghost predicate DotSlots(buf: seq<byte>, cluster: nat, parent: nat) {
    && |buf| >= 2 * SLOT
    && EntryAt(buf, 0) == Entry(DOT, 0x10, cluster, 0)
    && EntryAt(buf, 1) == Entry(DOTDOT, 0x10, parent, 0)
    && forall j :: 2 <= j && SLOT * j + SLOT <= |buf| ==> Unused(EntryAt(buf, j))
  }

  lemma DotsRead(buf: seq<byte>, cluster: nat, parent: nat)
    requires DotEntries(buf, cluster, parent)
    ensures DotSlots(buf, cluster, parent)
  {
    TailUnused(buf);
    hide EntryAt, Fresh, Unused;
    SlotIsFresh(buf, 0, Entry(DOT, 0x10, cluster, 0));
    SlotIsFresh(buf, 1, Entry(DOTDOT, 0x10, parent, 0));
  }

  lemma TailUnused(buf: seq<byte>)
    requires ZerosIn(buf, 64, |buf|)
    ensures forall j :: 2 <= j && SLOT * j + SLOT <= |buf| ==> Unused(EntryAt(buf, j))
  {
    forall j | 2 <= j && SLOT * j + SLOT <= |buf| ensures Unused(EntryAt(buf, j)) {
      assert buf[SLOT * j] == 0;
    }
  }

  /** The dot slots name no child, and the rest is unused. */
  lemma DotEntriesNameNone(per: nat, data: seq<seq<byte>>, c: nat, parent: nat)
    requires c < |data| && |data[c]| == SLOT * per && DotEntries(data[c], c, parent)
    ensures Terminated(per, data, [c])
    ensures forall j :: 0 <= j < per ==> !NamesChild(EntryIn(data, c, j))
  {
    hide EntryAt, DotEntries;
    DotsRead(data[c], c, parent);
    forall j | 0 <= j < per
      ensures EntryIn(data, c, j) == EntryAt(data[c], j)
    {
      EntryInIs(data, c, j);
    }
    hide EntryIn;
  }
}
