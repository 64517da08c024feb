/** The block layer of the FAT32 driver: FAT entries read and rewritten in every copy, cluster transfers, and the
    free-cluster search with its rotating cursor. */
module FatVolume {
  import opened Bytes
  import opened FatLayout

  /** Steps from cursor `a` up to cluster `b`, wrapping from the last cluster to cluster 2. */
  function CyclicDistance(a: int, b: int, limit: int): int {
    if b >= a then b - a else b - a + (limit - 2)
  }

  /** The cursor after it has moved past `c`. */
  function CyclicNext(c: int, limit: int): int {
    if c + 1 >= limit then 2 else c + 1
  }

  ghost function FreeSet(fat: seq<nat>): (free: set<nat>) {
    set c | 2 <= c < |fat| && fat[c] == 0
  }

  /** `c` is the free cluster met first when searching upwards from `cursor`. */
  ghost predicate FirstFree(fat: seq<nat>, cursor: nat, c: nat) {
    && c in FreeSet(fat)
    && forall d :: d in FreeSet(fat) && d != c ==>
         CyclicDistance(cursor, c, |fat|) < CyclicDistance(cursor, d, |fat|)
  }

  /** The boot parameter block as it lies, packed, in sector 0. */
  function ReadBpb(boot: Sector): Geometry
    requires |boot| == SECTOR
  {
    Geometry(reserved := Half(boot, 14), fatCount := boot[16], sectorsPerFat := Word(boot, 36),
             sectorsPerCluster := boot[13], totalSectors := Half(boot, 19), largeSectorCount := Word(boot, 32),
             rootCluster := Word(boot, 44))
  }

  lemma BpbIs(boot: Sector)
    requires |boot| == SECTOR
    ensures var g := ReadBpb(boot);
            && g.sectorsPerCluster == boot[13] && g.fatCount == boot[16]
            && g.reserved == boot[14] + boot[15] as int * 0x100
            && g.totalSectors == boot[19] + boot[20] as int * 0x100
            && LittleEndian(boot, 32, g.largeSectorCount) && LittleEndian(boot, 36, g.sectorsPerFat)
            && LittleEndian(boot, 44, g.rootCluster)
  {
    hide Word, LittleEndian;
    WordIs(boot, 32);
    WordIs(boot, 36);
    WordIs(boot, 44);
  }

  class Volume {
    const geo: Geometry
    var disk: seq<Sector>
    var lastFree: nat
    ghost var fat: seq<nat>            // 28-bit entries, the same in every copy
    ghost var top: seq<nat>            // the four reserved high bits of each entry
    ghost var data: seq<seq<byte>>     // cluster contents

    ghost const mounted: seq<Sector>   // the disk when the volume was mounted

    ghost predicate Valid()
      reads this
    {
      && Stored(geo, disk, top, fat, data) && 2 <= lastFree < geo.Limit()
      && SameElsewhere(geo, mounted, disk)
    }

    constructor (disk: seq<Sector>, ghost top: seq<nat>, ghost fat: seq<nat>, ghost data: seq<seq<byte>>)
      requires |disk| > 0 && |disk[0]| == SECTOR
      requires Half(disk[0], 11) == SECTOR
      requires Stored(ReadBpb(disk[0]), disk, top, fat, data)
      ensures Valid() && mounted == disk
      ensures this.disk == disk && this.top == top && this.fat == fat && this.data == data && lastFree == 2
      ensures geo.sectorsPerCluster == disk[0][13] && geo.fatCount == disk[0][16]
      ensures geo.reserved == disk[0][14] + disk[0][15] as int * 0x100
      ensures geo.totalSectors == disk[0][19] + disk[0][20] as int * 0x100
      ensures LittleEndian(disk[0], 32, geo.largeSectorCount) && LittleEndian(disk[0], 36, geo.sectorsPerFat)
      ensures LittleEndian(disk[0], 44, geo.rootCluster)
    {
      BpbIs(disk[0]);
      hide Stored, ReadBpb, Word, LittleEndian;
      mounted := disk;
      StoredBounds(ReadBpb(disk[0]), disk, top, fat, data);
      geo := ReadBpb(disk[0]);
      this.disk, this.top, this.fat, this.data := disk, top, fat, data;
      lastFree := 2;
    }

    lemma Facts()
      requires Valid()
      ensures 1 <= geo.sectorsPerCluster <= 128
      ensures 3 <= geo.Limit() < EOC && 2 <= geo.rootCluster < geo.Limit()
      ensures |fat| == |data| == geo.Limit()
      ensures forall c :: 0 <= c < |fat| ==> fat[c] < ENTRY
      ensures forall c :: 2 <= c < |data| ==> |data[c]| == geo.BytesPerCluster()
      ensures 2 <= lastFree < geo.Limit()
    {
      hide Stored, geo.Limit;
      StoredBounds(geo, disk, top, fat, data);
    }

    method GetNext(c: nat) returns (next: nat)
      requires Valid() && c < geo.Limit()
      ensures next == fat[c]
    {
      hide Stored, geo.Limit, geo.FatLba;
      StoredBounds(geo, disk, top, fat, data);
      EntryStored(geo, disk, top, fat, data, c);
      var buf := disk[geo.FatLba(0, c)];
      next := Word(buf, FatOffset(c)) % ENTRY;
    }

    /** The new sector that set_next_cluster writes into FAT copy `f`. */
    method EditEntry(f: nat, c: nat, next: u32, ghost after: seq<nat>) returns (buf: Sector)
      requires c < |fat| && Updating(geo, disk, top, fat, after, data, f) && f < geo.fatCount
      ensures SectorEdited(disk, geo.FatLba(f, c), FatOffset(c), buf)
      ensures geo.FatLba(f, c) < |disk| && Word(buf, FatOffset(c)) == Packed(top[c], next % ENTRY)
      ensures |disk[geo.FatLba(f, c)]| == SECTOR
      ensures Word(buf, FatOffset(c)) == Spliced(Word(disk[geo.FatLba(f, c)], FatOffset(c)), next)
    {
      geo.FatFits(f, c);
      hide geo.Ok, geo.Limit, geo.FatLba, FatOffset, FatColumn, Packed, Spliced, geo.DataStart, ClusterHolds;
      var lba := geo.FatLba(f, c);
      assert CopyHolds(geo, disk, f, top, fat);
      assert FatWord(geo, disk, f, c, Packed(top[c], fat[c]));
      hide CopyHolds;
      var current := Word(disk[lba], FatOffset(c));
      SplicedKeepsTop(top[c], fat[c], next);
      buf := PutWord(disk[lba], FatOffset(c), Spliced(current, next));
    }

    method SetNext(c: nat, next: u32)
      requires Valid() && c < geo.Limit()
      modifies this`disk, this`fat
      ensures Valid()
      ensures fat == old(fat)[c := next % ENTRY]
      ensures PatchedIn(geo, old(disk), disk, geo.fatCount, c, next)
    {
      hide Stored, Updating, SectorEdited, Word, Packed, geo.FatLba, geo.Limit, Spliced, PatchedIn, SameElsewhere;
      StoredOk(geo, disk, top, fat, data);
      hide geo.Ok;
      StoredBounds(geo, disk, top, fat, data);
      PatchedNone(geo, disk, c, next);
      ghost var fat' := fat[c := next % ENTRY];
      UpdatingStart(geo, disk, top, fat, data, c, next % ENTRY);
      var f := 0;
      while f < geo.fatCount
        invariant 0 <= f <= geo.fatCount && fat == old(fat)
        invariant Updating(geo, disk, top, fat, fat', data, f)
        invariant PatchedIn(geo, old(disk), disk, f, c, next)
      {
        var buf := EditEntry(f, c, next, fat');
        PatchStep(geo, old(disk), disk, f, c, next, buf);
        UpdatingStep(geo, disk, top, fat, data, fat', f, c, next % ENTRY, buf, disk[geo.FatLba(f, c) := buf]);
        disk := disk[geo.FatLba(f, c) := buf];
        f := f + 1;
      }
      UpdatingEnd(geo, disk, top, fat, fat', data);
      PatchElsewhere(geo, mounted, old(disk), disk, c, next);
      fat := fat';
    }

    method FindFree() returns (c: nat)
      requires Valid()
      modifies this`lastFree
      ensures Valid()
      ensures c == 0 <==> FreeSet(fat) == {}
      ensures c == 0 ==> lastFree == old(lastFree)
      ensures c != 0 ==> FirstFree(fat, old(lastFree), c) && lastFree == CyclicNext(c, |fat|)
    {
      hide Stored, geo.Limit, geo.ClusterCount;
      StoredBounds(geo, disk, top, fat, data);
      var i, n := 0, geo.ClusterCount();
      while i < n
        invariant 0 <= i <= n && 2 <= lastFree < |fat|
        invariant if i < n then CyclicDistance(old(lastFree), lastFree, |fat|) == i else lastFree == old(lastFree)
        invariant forall d :: 2 <= d < |fat| && CyclicDistance(old(lastFree), d, |fat|) < i ==> fat[d] != 0
      {
        c := lastFree;
        lastFree := lastFree + 1;
        if lastFree >= n + 2 {
          lastFree := 2;
        }
        var next := GetNext(c);
        if next == 0 {
          assert c in FreeSet(fat);
          return;
        }
        i := i + 1;
      }
      c := 0;
    }

    /** read_sectors: `n` sectors from `lba`. */
    method ReadSectors(lba: nat, n: nat) returns (buf: seq<byte>)
      requires lba + n <= |disk| && forall i :: 0 <= i < |disk| ==> |disk[i]| == SECTOR
      ensures |buf| == SECTOR * n
      ensures forall s :: 0 <= s < n ==> Piece(buf, s) == disk[lba + s]
    {
      buf := [];
      var s := 0;
      while s < n
        invariant 0 <= s <= n && |buf| == SECTOR * s
        invariant forall t :: 0 <= t < s ==> Piece(buf, t) == disk[lba + t]
      {
        var more := buf + disk[lba + s];
        assert forall t :: 0 <= t < s ==> Piece(more, t) == Piece(buf, t);
        buf := more;
        s := s + 1;
      }
    }

    /** write_sectors: the `n` sectors of `buf` from `lba`. */
    method WriteSectors(lba: nat, n: nat, buf: seq<byte>)
      requires lba + n <= |disk| && |buf| == SECTOR * n
      modifies this`disk
      ensures Overwritten(old(disk), disk, lba, n, buf)
    {
      var s := 0;
      while s < n
        invariant 0 <= s <= n && |disk| == old(|disk|)
        invariant forall i :: 0 <= i < |disk| && !(lba <= i < lba + s) ==> disk[i] == old(disk)[i]
        invariant forall t :: 0 <= t < s ==> disk[lba + t] == Piece(buf, t)
      {
        disk := disk[lba + s := buf[SECTOR * s..SECTOR * s + SECTOR]];
        s := s + 1;
      }
    }

    method ReadCluster(c: nat) returns (buf: seq<byte>)
      requires Valid() && 2 <= c < geo.Limit()
      ensures buf == data[c] && |buf| == geo.BytesPerCluster()
    {
      geo.ClusterFits(c);
      hide geo.Ok, geo.Limit, geo.DataLba, geo.DataStart, CopyHolds;
      buf := ReadSectors(geo.DataLba(c), geo.sectorsPerCluster);
      SamePieces(buf, data[c], geo.sectorsPerCluster);
    }

    method WriteCluster(c: nat, buf: seq<byte>)
      requires Valid() && 2 <= c < geo.Limit() && |buf| == geo.BytesPerCluster()
      modifies this`disk, this`data
      ensures Valid()
      ensures data == old(data)[c := buf]
      ensures ClusterOverwritten(geo, old(disk), disk, c, buf)
    {
      geo.ClusterFits(c);
      hide geo.Ok, geo.Limit, geo.DataLba, geo.DataStart, CopyHolds, SameElsewhere, ClusterOverwritten;
      WriteSectors(geo.DataLba(c), geo.sectorsPerCluster, buf);
      KeptByClusterWrite(old(disk), c, buf);
      ClusterElsewhere(geo, mounted, old(disk), disk, c, buf);
      ClusterWritten(geo, old(disk), disk, c, buf);
      data := data[c := buf];
    }

    /** What rewriting the sectors of cluster `c` leaves alone: every FAT copy and the other clusters. */
    lemma KeptByClusterWrite(before: seq<Sector>, c: nat, buf: seq<byte>)
      requires Stored(geo, before, top, fat, data) && 2 <= c < geo.Limit()
      requires Overwritten(before, disk, geo.DataLba(c), geo.sectorsPerCluster, buf)
      ensures SectorsOk(geo, disk)
      ensures forall f :: 0 <= f < geo.fatCount ==> CopyHolds(geo, disk, f, top, fat)
      ensures forall d :: 2 <= d < |data| && d != c ==> ClusterHolds(geo, disk, d, data[d])
      ensures ClusterHolds(geo, disk, c, buf)
    {
      geo.ClusterFits(c);
      hide geo.Ok, geo.Limit, geo.DataLba, geo.DataStart, CopyHolds;
      SectorsStayOk(geo, before, disk, geo.DataLba(c), geo.sectorsPerCluster, buf);
      forall f | 0 <= f < geo.fatCount
        ensures CopyHolds(geo, disk, f, top, fat)
      {
        ClusterWriteKeepsCopy(geo, before, disk, c, buf, f, top, fat);
      }
      forall d | 2 <= d < |data| && d != c
        ensures ClusterHolds(geo, disk, d, data[d])
      {
        ClusterWriteKeepsCluster(geo, before, disk, c, buf, d, data[d]);
      }
    }
  }
}
