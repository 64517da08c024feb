/** Where a FAT32 volume keeps its FAT entries and its clusters: the boot parameter block, the entries packed in
    512-byte sectors, and what it means for a disk to hold an abstract volume. */
module FatLayout {
  import opened Bytes

  const EOC := 0x0FFF_FFF8        // first end-of-chain mark
  const ENTRY := 0x1000_0000      // FAT entries are 28 bits wide
  const SECTOR := 512

  type Sector = seq<byte>

  /** The sector of a FAT copy that holds entry `c`, and where in it the entry lies: entries are aligned, so none
      straddles a sector. */
  function FatColumn(c: nat): nat { c * 4 / SECTOR }

  function FatOffset(c: nat): (o: nat)
    ensures o + 4 <= SECTOR
  {
    c * 4 % SECTOR
  }

  /** The fields of FAT32_BPB_T that the driver uses. */
  datatype Geometry = Geometry(
    reserved: nat, fatCount: nat, sectorsPerFat: nat, sectorsPerCluster: nat,
    totalSectors: nat, largeSectorCount: nat, rootCluster: nat)
  {
    function Total(): nat { if totalSectors != 0 then totalSectors else largeSectorCount }

    function DataStart(): nat { reserved + fatCount * sectorsPerFat }

    function ClusterCount(): int
      requires sectorsPerCluster > 0
    {
      (Total() - reserved - fatCount * sectorsPerFat) / sectorsPerCluster
    }

    /** One past the largest cluster number. */
    function Limit(): int
      requires sectorsPerCluster > 0
    {
      ClusterCount() + 2
    }

    function BytesPerCluster(): nat { sectorsPerCluster * SECTOR }

    function FatLba(copy: nat, c: nat): nat { reserved + copy * sectorsPerFat + FatColumn(c) }

    function DataLba(c: nat): nat
      requires c >= 2
    {
      DataStart() + (c - 2) * sectorsPerCluster
    }

    /** A well-formed volume: every FAT entry and every cluster has its own place on the disk. */
    ghost predicate Ok() {
      && 1 <= reserved && 1 <= fatCount < 0x100
      && 1 <= sectorsPerCluster <= 128
      && Total() < U32
      && DataStart() + sectorsPerCluster <= Total()
      && ClusterCount() < 0x0FFF_FFF6
      && Limit() * 4 <= sectorsPerFat * SECTOR
      && 2 <= rootCluster < Limit()
    }

    lemma Bounds()
      requires Ok()
      ensures 1 <= sectorsPerCluster <= 128 && 1 <= fatCount
      ensures 3 <= Limit() < EOC && 2 <= rootCluster < Limit()
    {
      MulDiv(Total() - DataStart(), sectorsPerCluster);
    }

    lemma ClusterFits(c: nat)
      requires Ok() && 2 <= c < Limit()
      ensures DataStart() <= DataLba(c) && DataLba(c) + sectorsPerCluster <= Total()
    {
      MulDiv(Total() - DataStart(), sectorsPerCluster);
      MulLe(0, c - 2, sectorsPerCluster);
      MulLe(c - 1, ClusterCount(), sectorsPerCluster);
      Distribute(c - 2, 1, sectorsPerCluster);
    }

    lemma FatFits(copy: nat, c: nat)
      requires Ok() && copy < fatCount && c < Limit()
      ensures FatLba(copy, c) < DataStart() <= Total()
    {
      MulLe(0, copy, sectorsPerFat);
      MulLe(copy + 1, fatCount, sectorsPerFat);
      Distribute(copy, 1, sectorsPerFat);
    }

    lemma ColumnFits(c: nat)
      requires Ok() && c < Limit()
      ensures FatColumn(c) < sectorsPerFat
    {
    }

    lemma FatApart(f: nat, c: nat, f': nat, c': nat)
      requires Ok() && f < fatCount && c < Limit() && f' < fatCount && c' < Limit()
      requires FatLba(f, c) == FatLba(f', c')
      ensures f == f' && FatColumn(c) == FatColumn(c')
    {
      ColumnFits(c);
      ColumnFits(c');
      hide Ok, Limit, FatColumn;
      RowMajor(f, FatColumn(c), f', FatColumn(c'), sectorsPerFat);
    }

    lemma DataApart(c: nat, s: nat, c': nat, s': nat)
      requires 2 <= c && 2 <= c' && s < sectorsPerCluster && s' < sectorsPerCluster
      requires DataLba(c) + s == DataLba(c') + s'
      ensures c == c' && s == s'
    {
      hide DataStart;
      RowMajor(c - 2, s, c' - 2, s', sectorsPerCluster);
    }
  }

  lemma RowMajor(a: nat, x: nat, b: nat, y: nat, k: nat)
    requires x < k && y < k && a * k + x == b * k + y
    ensures a == b && x == y
  {
    if a < b {
      MulLe(a + 1, b, k);
      Distribute(a, 1, k);
    } else if b < a {
      MulLe(b + 1, a, k);
      Distribute(b, 1, k);
    }
  }

  lemma MulLe(a: int, b: int, k: nat)
    requires a <= b
    ensures a * k <= b * k
  {
  }

  lemma Distribute(a: int, b: int, k: int)
    ensures (a + b) * k == a * k + b * k
  {
  }

  lemma MulDiv(a: int, k: nat)
    requires k > 0
    ensures a / k * k <= a < (a / k + 1) * k
  {
  }

  ghost predicate SectorsOk(geo: Geometry, disk: seq<Sector>) {
    geo.Total() <= |disk| && forall i :: 0 <= i < |disk| ==> |disk[i]| == SECTOR
  }

  /** A 32-bit FAT entry: four reserved bits over a 28-bit cluster number. */
  function Packed(high: nat, entry: nat): nat { high * ENTRY + entry }

  lemma PackedParts(high: nat, entry: nat)
    requires entry < ENTRY
    ensures Packed(high, entry) % ENTRY == entry
  {
  }

  /** `(current & 0xF0000000) | (next & 0x0FFFFFFF)`. */
  function Spliced(current: u32, next: u32): u32 { current - current % ENTRY + next % ENTRY }

  lemma SplicedKeepsTop(high: nat, entry: nat, next: u32)
    requires high < 16 && entry < ENTRY
    ensures Packed(high, entry) < U32 && Spliced(Packed(high, entry), next) == Packed(high, next % ENTRY)
  {
    PackedParts(high, entry);
  }

  /** The packed word of entry `c` in FAT copy `f`. */
  ghost predicate FatWord(geo: Geometry, disk: seq<Sector>, f: nat, c: nat, w: int) {
    && geo.FatLba(f, c) < |disk|
    && |disk[geo.FatLba(f, c)]| == SECTOR
    && Word(disk[geo.FatLba(f, c)], FatOffset(c)) == w
  }

  /** FAT copy `f` holds the entries `fat`, each under its reserved high bits. */
  ghost predicate CopyHolds(geo: Geometry, disk: seq<Sector>, f: nat, top: seq<nat>, fat: seq<nat>)
    requires |fat| == |top|
  {
    forall c :: 0 <= c < |fat| ==> FatWord(geo, disk, f, c, Packed(top[c], fat[c]))
  }

  /** The `s`-th sector of a buffer. */
  function Piece(bytes: seq<byte>, s: nat): Sector
    requires SECTOR * s + SECTOR <= |bytes|
  {
    bytes[SECTOR * s..SECTOR * s + SECTOR]
  }

  lemma SamePieces(a: seq<byte>, b: seq<byte>, n: nat)
    requires |a| == |b| == SECTOR * n
    requires forall s :: 0 <= s < n ==> Piece(a, s) == Piece(b, s)
    ensures a == b
  {
    forall k | 0 <= k < |a|
      ensures a[k] == b[k]
    {
      assert Piece(a, k / SECTOR)[k % SECTOR] == Piece(b, k / SECTOR)[k % SECTOR];
    }
  }

  /** The sectors of cluster `c` hold `bytes`. */
  ghost predicate ClusterHolds(geo: Geometry, disk: seq<Sector>, c: nat, bytes: seq<byte>) {
    && c >= 2 && |bytes| == geo.BytesPerCluster()
    && geo.DataLba(c) + geo.sectorsPerCluster <= |disk|
    && forall s :: 0 <= s < geo.sectorsPerCluster ==> Piece(bytes, s) == disk[geo.DataLba(c) + s]
  }

  /** The disk holds the abstract FAT, the same in every copy, and the abstract cluster contents. */
  ghost predicate Stored(geo: Geometry, disk: seq<Sector>, top: seq<nat>, fat: seq<nat>, data: seq<seq<byte>>) {
    && geo.Ok() && SectorsOk(geo, disk)
    && |fat| == geo.Limit() && |top| == geo.Limit() && |data| == geo.Limit()
    && (forall c :: 0 <= c < |fat| ==> fat[c] < ENTRY && top[c] < 16)
    && (forall f :: 0 <= f < geo.fatCount ==> CopyHolds(geo, disk, f, top, fat))
    && (forall c :: 2 <= c < |data| ==> ClusterHolds(geo, disk, c, data[c]))
  }

  lemma StoredBounds(geo: Geometry, disk: seq<Sector>, top: seq<nat>, fat: seq<nat>, data: seq<seq<byte>>)
    requires Stored(geo, disk, top, fat, data)
    ensures 1 <= geo.sectorsPerCluster <= 128 && 1 <= geo.fatCount
    ensures 3 <= geo.Limit() < EOC && 2 <= geo.rootCluster < geo.Limit()
    ensures |fat| == |top| == |data| == geo.Limit() == geo.ClusterCount() + 2
    ensures forall c :: 0 <= c < |fat| ==> fat[c] < ENTRY
    ensures forall c :: 2 <= c < |data| ==> |data[c]| == geo.BytesPerCluster()
  {
    geo.Bounds();
    hide geo.Ok, CopyHolds, SectorsOk, geo.ClusterCount;
  }

  lemma StoredOk(geo: Geometry, disk: seq<Sector>, top: seq<nat>, fat: seq<nat>, data: seq<seq<byte>>)
    requires Stored(geo, disk, top, fat, data)
    ensures geo.Ok()
  {
  }

  /** What a reader of copy 0 sees. */
  lemma EntryStored(geo: Geometry, disk: seq<Sector>, top: seq<nat>, fat: seq<nat>, data: seq<seq<byte>>, c: nat)
    requires Stored(geo, disk, top, fat, data) && geo.sectorsPerCluster > 0 && c < geo.Limit()
    ensures c < |fat| && geo.FatLba(0, c) < |disk| && |disk[geo.FatLba(0, c)]| == SECTOR
    ensures Word(disk[geo.FatLba(0, c)], FatOffset(c)) % ENTRY == fat[c]
  {
    hide geo.Ok, geo.Limit, geo.FatLba, ClusterHolds, Packed;
    geo.Bounds();
    assert CopyHolds(geo, disk, 0, top, fat);
    assert FatWord(geo, disk, 0, c, Packed(top[c], fat[c]));
    PackedParts(top[c], fat[c]);
  }

  // ---- the same in bytes ----

  /** The boot parameters, and with them how many clusters the volume has, the two reserved numbers included. */
  lemma StoredSize(geo: Geometry, disk: seq<Sector>, top: seq<nat>, fat: seq<nat>, data: seq<seq<byte>>)
    requires Stored(geo, disk, top, fat, data)
    ensures geo.sectorsPerCluster > 0 && |fat| == |data| == |top|
    ensures var total := if geo.totalSectors != 0 then geo.totalSectors else geo.largeSectorCount;
            |fat| == (total - geo.reserved - geo.fatCount * geo.sectorsPerFat) / geo.sectorsPerCluster + 2
  {
    hide CopyHolds, ClusterHolds, SectorsOk;
  }

  /** Entry `c` is the low 28 bits of the word at byte `4 c` of every FAT copy. */
  lemma StoredEntry(geo: Geometry, disk: seq<Sector>, top: seq<nat>, fat: seq<nat>, data: seq<seq<byte>>,
                    f: nat, c: nat)
    requires Stored(geo, disk, top, fat, data) && f < geo.fatCount && c < |fat|
    ensures fat[c] < 0x1000_0000 && top[c] < 16
    ensures WordOnDisk(disk, geo.reserved + f * geo.sectorsPerFat + 4 * c / 512, 4 * c % 512,
                       top[c] * 0x1000_0000 + fat[c])
  {
    hide geo.Ok, geo.Limit, ClusterHolds, SectorsOk;
    assert CopyHolds(geo, disk, f, top, fat);
    assert FatWord(geo, disk, f, c, Packed(top[c], fat[c]));
    WordIs(disk[geo.FatLba(f, c)], FatOffset(c));
    hide Word, CopyHolds, LittleEndian;
  }

  /** The four bytes from `o` on of sector `lba` are those of `w`. */
  ghost predicate WordOnDisk(disk: seq<Sector>, lba: nat, o: nat, w: int) {
    lba < |disk| && |disk[lba]| == 512 && LittleEndian(disk[lba], o, w)
  }

  /** Byte `k` of cluster `c` lies in sector `k / 512` of the cluster, and the clusters lie behind the FAT copies. */
  lemma StoredByte(geo: Geometry, disk: seq<Sector>, top: seq<nat>, fat: seq<nat>, data: seq<seq<byte>>,
                   c: nat, k: nat)
    requires Stored(geo, disk, top, fat, data) && 2 <= c < |data| && k < |data[c]|
    ensures |data[c]| == 512 * geo.sectorsPerCluster
    ensures var lba := geo.reserved + geo.fatCount * geo.sectorsPerFat + (c - 2) * geo.sectorsPerCluster + k / 512;
            lba < |disk| && |disk[lba]| == 512 && data[c][k] == disk[lba][k % 512]
  {
    hide geo.Ok, geo.Limit, CopyHolds;
    assert ClusterHolds(geo, disk, c, data[c]);
    assert Piece(data[c], k / 512) == disk[geo.DataLba(c) + k / 512];
    hide ClusterHolds, SectorsOk;
    assert data[c][k] == Piece(data[c], k / 512)[k % 512];
  }

  // ---- one sector of one FAT copy rewritten ----

  /** `buf` is sector `lba` with only the four bytes from `o` changed. */
  ghost predicate SectorEdited(disk: seq<Sector>, lba: nat, o: nat, buf: Sector) {
    && lba < |disk| && |disk[lba]| == SECTOR == |buf|
    && forall k :: 0 <= k < SECTOR && !(o <= k < o + 4) ==> buf[k] == disk[lba][k]
  }

  lemma OffsetsApart(c: nat, d: nat)
    requires c != d && FatColumn(c) == FatColumn(d)
    ensures FatOffset(c) + 4 <= FatOffset(d) || FatOffset(d) + 4 <= FatOffset(c)
    ensures FatOffset(c) + 4 <= SECTOR && FatOffset(d) + 4 <= SECTOR
  {
  }

  /** No FAT entry straddles a sector, so rewriting entry `c` leaves every other word of its copy. */
  lemma EntryWriteKeepsWord(geo: Geometry, disk: seq<Sector>, f: nat, c: nat, buf: Sector, f': nat, d: nat, w: int)
    requires geo.Ok() && f < geo.fatCount && c < geo.Limit() && f' < geo.fatCount && d < geo.Limit()
    requires SectorEdited(disk, geo.FatLba(f, c), FatOffset(c), buf)
    requires (f, c) != (f', d) && FatWord(geo, disk, f', d, w)
    ensures FatWord(geo, disk[geo.FatLba(f, c) := buf], f', d, w)
  {
    if geo.FatLba(f, c) == geo.FatLba(f', d) {
      geo.FatApart(f, c, f', d);
      OffsetsApart(c, d);
    }
  }

  /** Copy `f` after the write. */
  lemma EntryWritten(geo: Geometry, disk: seq<Sector>, top: seq<nat>, fat: seq<nat>, f: nat, c: nat, v: nat,
                     buf: Sector)
    requires geo.Ok() && f < geo.fatCount && c < |fat| == |top| == geo.Limit()
    requires CopyHolds(geo, disk, f, top, fat)
    requires SectorEdited(disk, geo.FatLba(f, c), FatOffset(c), buf)
    requires Word(buf, FatOffset(c)) == Packed(top[c], v)
    ensures CopyHolds(geo, disk[geo.FatLba(f, c) := buf], f, top, fat[c := v])
  {
    hide geo.Ok, geo.Limit, geo.FatLba;
    var disk' := disk[geo.FatLba(f, c) := buf];
    forall d | 0 <= d < |fat| && d != c
      ensures FatWord(geo, disk', f, d, Packed(top[d], fat[d]))
    {
      EntryWriteKeepsWord(geo, disk, f, c, buf, f, d, Packed(top[d], fat[d]));
    }
    assert FatWord(geo, disk', f, c, Packed(top[c], v));
  }

  /** Every other copy after the write. */
  lemma EntryWriteKeepsCopy(geo: Geometry, disk: seq<Sector>, top: seq<nat>, fat: seq<nat>, f: nat, c: nat,
                            buf: Sector, f': nat)
    requires geo.Ok() && f < geo.fatCount && f' < geo.fatCount && f != f' && c < |fat| == |top| == geo.Limit()
    requires CopyHolds(geo, disk, f', top, fat)
    requires SectorEdited(disk, geo.FatLba(f, c), FatOffset(c), buf)
    ensures CopyHolds(geo, disk[geo.FatLba(f, c) := buf], f', top, fat)
  {
    hide geo.Ok, geo.Limit, geo.FatLba;
    var disk' := disk[geo.FatLba(f, c) := buf];
    forall d | 0 <= d < |fat|
      ensures FatWord(geo, disk', f', d, Packed(top[d], fat[d]))
    {
      EntryWriteKeepsWord(geo, disk, f, c, buf, f', d, Packed(top[d], fat[d]));
    }
  }

  lemma EntryWriteKeepsCluster(geo: Geometry, disk: seq<Sector>, f: nat, c: nat, buf: Sector, d: nat, bytes: seq<byte>)
    requires geo.Ok() && f < geo.fatCount && c < geo.Limit() && 2 <= d < geo.Limit()
    requires geo.FatLba(f, c) < |disk| && ClusterHolds(geo, disk, d, bytes)
    ensures ClusterHolds(geo, disk[geo.FatLba(f, c) := buf], d, bytes)
  {
    geo.FatFits(f, c);
    geo.ClusterFits(d);
    hide geo.Ok, geo.Limit, geo.FatLba, geo.DataLba, geo.DataStart;
  }

  /** In the middle of set_next_cluster: the first `f` copies hold `after`, the others still `before`. */
  ghost predicate Updating(geo: Geometry, disk: seq<Sector>, top: seq<nat>, before: seq<nat>, after: seq<nat>,
                           data: seq<seq<byte>>, f: nat)
  {
    && geo.Ok() && SectorsOk(geo, disk) && f <= geo.fatCount
    && |before| == |after| == |top| == |data| == geo.Limit()
    && (forall c :: 0 <= c < |before| ==> before[c] < ENTRY && after[c] < ENTRY && top[c] < 16)
    && (forall g :: 0 <= g < f ==> CopyHolds(geo, disk, g, top, after))
    && (forall g :: f <= g < geo.fatCount ==> CopyHolds(geo, disk, g, top, before))
    && (forall c :: 2 <= c < |data| ==> ClusterHolds(geo, disk, c, data[c]))
  }

  lemma UpdatingStep(geo: Geometry, disk: seq<Sector>, top: seq<nat>, fat: seq<nat>, data: seq<seq<byte>>,
                     after: seq<nat>, f: nat, c: nat, v: nat, buf: Sector, disk': seq<Sector>)
    requires c < |fat| && after == fat[c := v] && Updating(geo, disk, top, fat, after, data, f) && f < geo.fatCount
    requires SectorEdited(disk, geo.FatLba(f, c), FatOffset(c), buf)
    requires Word(buf, FatOffset(c)) == Packed(top[c], v)
    requires disk' == disk[geo.FatLba(f, c) := buf]
    ensures Updating(geo, disk', top, fat, after, data, f + 1)
  {
    hide geo.Ok, geo.Limit, geo.FatLba, CopyHolds, ClusterHolds, FatOffset, Packed, Word;
    EntryWritten(geo, disk, top, fat, f, c, v, buf);
    forall g | 0 <= g < f
      ensures CopyHolds(geo, disk', g, top, after)
    {
      EntryWriteKeepsCopy(geo, disk, top, after, f, c, buf, g);
    }
    forall g | f < g < geo.fatCount
      ensures CopyHolds(geo, disk', g, top, fat)
    {
      EntryWriteKeepsCopy(geo, disk, top, fat, f, c, buf, g);
    }
    forall d | 2 <= d < |data|
      ensures ClusterHolds(geo, disk', d, data[d])
    {
      EntryWriteKeepsCluster(geo, disk, f, c, buf, d, data[d]);
    }
  }

  lemma UpdatingStart(geo: Geometry, disk: seq<Sector>, top: seq<nat>, fat: seq<nat>, data: seq<seq<byte>>, c: nat,
                      v: nat)
    requires Stored(geo, disk, top, fat, data) && c < |fat| && v < ENTRY
    ensures Updating(geo, disk, top, fat, fat[c := v], data, 0)
  {
    hide geo.Ok, geo.Limit, CopyHolds, ClusterHolds, SectorsOk;
  }

  lemma UpdatingEnd(geo: Geometry, disk: seq<Sector>, top: seq<nat>, before: seq<nat>, after: seq<nat>,
                    data: seq<seq<byte>>)
    requires Updating(geo, disk, top, before, after, data, geo.fatCount)
    ensures Stored(geo, disk, top, after, data)
  {
    hide geo.Ok, geo.Limit, CopyHolds, ClusterHolds, SectorsOk;
  }

  // ---- what set_next_cluster changes on the disk ----

  /** The low 28 bits of the word at `o` became those of `next`; the top four and all other bytes stayed. */
  ghost predicate Patched(a: Sector, b: Sector, o: nat, next: u32) {
    && |a| == 512 && |b| == 512 && o + 4 <= 512
    && (forall k :: 0 <= k < 512 && !(o <= k < o + 4) ==> b[k] == a[k])
    && Word(b, o) % 0x1000_0000 == next % 0x1000_0000
    && Word(b, o) / 0x1000_0000 == Word(a, o) / 0x1000_0000
  }

  /** In the first `f` copies of the FAT entry `c` was patched, and nothing else on the disk changed. */
  ghost predicate PatchedIn(geo: Geometry, before: seq<Sector>, disk: seq<Sector>, f: nat, c: nat, next: u32) {
    && |disk| == |before|
    && (forall g :: 0 <= g < f ==> PatchedAt(geo, before, disk, g, c, next))
    && forall i :: 0 <= i < |disk| && disk[i] != before[i] ==> exists g :: 0 <= g < f && InSector(geo, g, c, i)
  }

  ghost predicate InSector(geo: Geometry, g: nat, c: nat, i: nat) {
    i == geo.reserved + g * geo.sectorsPerFat + 4 * c / 512
  }

  ghost predicate PatchedAt(geo: Geometry, before: seq<Sector>, disk: seq<Sector>, g: nat, c: nat, next: u32) {
    forall i :: 0 <= i < |disk| && i < |before| && InSector(geo, g, c, i) ==>
      Patched(before[i], disk[i], 4 * c % 512, next)
  }

  lemma PatchedNone(geo: Geometry, disk: seq<Sector>, c: nat, next: u32)
    ensures PatchedIn(geo, disk, disk, 0, c, next)
  {
  }

  lemma SplicedIs(current: u32, next: u32)
    ensures 0 <= Spliced(current, next) < U32
    ensures Spliced(current, next) % 0x1000_0000 == next % 0x1000_0000
    ensures Spliced(current, next) / 0x1000_0000 == current / 0x1000_0000
  {
  }

  lemma PatchStep(geo: Geometry, before: seq<Sector>, disk: seq<Sector>, f: nat, c: nat, next: u32, buf: Sector)
    requires geo.Ok() && f < geo.fatCount && c < geo.Limit()
    requires PatchedIn(geo, before, disk, f, c, next)
    requires SectorEdited(disk, geo.FatLba(f, c), FatOffset(c), buf)
    requires |disk[geo.FatLba(f, c)]| == SECTOR && FatOffset(c) + 4 <= SECTOR
    requires Word(buf, FatOffset(c)) == Spliced(Word(disk[geo.FatLba(f, c)], FatOffset(c)), next)
    ensures PatchedIn(geo, before, disk[geo.FatLba(f, c) := buf], f + 1, c, next)
  {
    hide geo.Ok, geo.Limit, Word, Spliced, Patched;
    var lba := geo.FatLba(f, c);
    SameSectorSame(geo, f, c);
    forall g | 0 <= g < f ensures !InSector(geo, g, c, lba) {
      NotSameCopy(geo, g, f, c);
    }
    assert disk[lba] == before[lba];
    PatchedSector(disk[lba], buf, c, next);
    var after := disk[lba := buf];
    assert InSector(geo, f, c, lba);
    forall g | 0 <= g < f + 1 ensures PatchedAt(geo, before, after, g, c, next) {
      if g < f {
        assert PatchedAt(geo, before, disk, g, c, next);
      }
    }
  }

  lemma SameSectorSame(geo: Geometry, f: nat, c: nat)
    ensures forall i: nat :: InSector(geo, f, c, i) <==> i == geo.FatLba(f, c)
    ensures FatOffset(c) == 4 * c % 512
  {
  }

  lemma NotSameCopy(geo: Geometry, g: nat, f: nat, c: nat)
    requires geo.Ok() && g < f < geo.fatCount && c < geo.Limit()
    ensures !InSector(geo, g, c, geo.FatLba(f, c))
  {
    SameSectorSame(geo, g, c);
    if geo.FatLba(g, c) == geo.FatLba(f, c) {
      geo.FatApart(g, c, f, c);
    }
  }

  lemma PatchedSector(a: Sector, buf: Sector, c: nat, next: u32)
    requires |a| == 512 && |buf| == 512 && FatOffset(c) + 4 <= 512
    requires forall k :: 0 <= k < 512 && !(FatOffset(c) <= k < FatOffset(c) + 4) ==> buf[k] == a[k]
    requires Word(buf, FatOffset(c)) == Spliced(Word(a, FatOffset(c)), next)
    ensures Patched(a, buf, 4 * c % 512, next)
  {
    hide Word, Spliced;
    SplicedIs(Word(a, FatOffset(c)), next);
  }

  // ---- the sectors of one cluster rewritten ----

  /** `after` is `disk` with the sectors of `buf` from `lba` on. */
  ghost predicate Overwritten(disk: seq<Sector>, after: seq<Sector>, lba: nat, n: nat, buf: seq<byte>) {
    && |after| == |disk| && lba + n <= |disk| && |buf| == SECTOR * n
    && (forall i :: 0 <= i < |disk| && !(lba <= i < lba + n) ==> after[i] == disk[i])
    && (forall s :: 0 <= s < n ==> after[lba + s] == Piece(buf, s))
  }

  /** The same, `lba` being where cluster `c` lies. */
  ghost predicate ClusterOverwritten(geo: Geometry, disk: seq<Sector>, after: seq<Sector>, c: nat, buf: seq<byte>) {
    var lba := geo.reserved + geo.fatCount * geo.sectorsPerFat + (c - 2) * geo.sectorsPerCluster;
    c >= 2 && lba >= 0 && Overwritten(disk, after, lba, geo.sectorsPerCluster, buf)
  }

  lemma ClusterWritten(geo: Geometry, disk: seq<Sector>, after: seq<Sector>, c: nat, buf: seq<byte>)
    requires c >= 2 && Overwritten(disk, after, geo.DataLba(c), geo.sectorsPerCluster, buf)
    ensures ClusterOverwritten(geo, disk, after, c, buf)
  {
    hide Overwritten;
  }

  lemma ClusterWriteKeepsCopy(geo: Geometry, disk: seq<Sector>, after: seq<Sector>, c: nat, buf: seq<byte>,
                              f: nat, top: seq<nat>, fat: seq<nat>)
    requires geo.Ok() && 2 <= c < geo.Limit() && f < geo.fatCount && |fat| == |top| == geo.Limit()
    requires Overwritten(disk, after, geo.DataLba(c), geo.sectorsPerCluster, buf)
    requires CopyHolds(geo, disk, f, top, fat)
    ensures CopyHolds(geo, after, f, top, fat)
  {
    geo.ClusterFits(c);
    hide geo.Ok, geo.Limit, geo.FatLba, geo.DataLba, geo.DataStart;
    forall d | 0 <= d < |fat|
      ensures FatWord(geo, after, f, d, Packed(top[d], fat[d]))
    {
      geo.FatFits(f, d);
      assert FatWord(geo, disk, f, d, Packed(top[d], fat[d]));
    }
  }

  lemma ClusterWriteKeepsCluster(geo: Geometry, disk: seq<Sector>, after: seq<Sector>, c: nat, buf: seq<byte>,
                                 d: nat, bytes: seq<byte>)
    requires geo.Ok() && 2 <= c < geo.Limit() && 2 <= d < geo.Limit()
    requires Overwritten(disk, after, geo.DataLba(c), geo.sectorsPerCluster, buf)
    requires c != d && ClusterHolds(geo, disk, d, bytes)
    ensures ClusterHolds(geo, after, d, bytes)
  {
    hide geo.Ok, geo.Limit, geo.FatLba, geo.DataLba, geo.DataStart;
    forall s | 0 <= s < geo.sectorsPerCluster
      ensures Piece(bytes, s) == after[geo.DataLba(d) + s]
    {
      var i := geo.DataLba(d) + s;
      if geo.DataLba(c) <= i < geo.DataLba(c) + geo.sectorsPerCluster {
        geo.DataApart(d, s, c, i - geo.DataLba(c));
      }
    }
  }

  lemma SectorsStayOk(geo: Geometry, disk: seq<Sector>, after: seq<Sector>, lba: nat, n: nat, buf: seq<byte>)
    requires SectorsOk(geo, disk) && Overwritten(disk, after, lba, n, buf)
    ensures SectorsOk(geo, after)
  {
    forall i | 0 <= i < |after|
      ensures |after[i]| == SECTOR
    {
      if lba <= i < lba + n {
        assert after[lba + (i - lba)] == Piece(buf, i - lba);
      }
    }
  }

  // ---- what no operation touches ----

  /** The sectors in front of the FAT copies, the boot sector among them, and those behind the volume are the same. */
  ghost predicate SameElsewhere(geo: Geometry, before: seq<Sector>, disk: seq<Sector>) {
    && |disk| == |before|
    && forall i :: 0 <= i < |disk| && (i < geo.reserved || geo.Total() <= i) ==> disk[i] == before[i]
  }

  lemma PatchElsewhere(geo: Geometry, made: seq<Sector>, before: seq<Sector>, disk: seq<Sector>, c: nat, next: u32)
    requires geo.Ok() && c < geo.Limit() && SameElsewhere(geo, made, before)
    requires PatchedIn(geo, before, disk, geo.fatCount, c, next)
    ensures SameElsewhere(geo, made, disk)
  {
    hide geo.Ok, geo.Limit, geo.Total, PatchedAt;
    forall i | 0 <= i < |disk| && (i < geo.reserved || geo.Total() <= i) ensures disk[i] == before[i] {
      if disk[i] != before[i] {
        var g :| 0 <= g < geo.fatCount && InSector(geo, g, c, i);
        SameSectorSame(geo, g, c);
        geo.FatFits(g, c);
        AtLeastReserved(geo, g, c);
        assert false;
      }
    }
  }

  lemma AtLeastReserved(geo: Geometry, g: nat, c: nat)
    ensures geo.reserved <= geo.FatLba(g, c)
  {
    MulLe(0, g, geo.sectorsPerFat);
  }

  lemma ClusterElsewhere(geo: Geometry, made: seq<Sector>, before: seq<Sector>, disk: seq<Sector>, c: nat,
                         buf: seq<byte>)
    requires geo.Ok() && 2 <= c < geo.Limit() && SameElsewhere(geo, made, before)
    requires Overwritten(before, disk, geo.DataLba(c), geo.sectorsPerCluster, buf)
    ensures SameElsewhere(geo, made, disk)
  {
    geo.ClusterFits(c);
    MulLe(0, geo.fatCount, geo.sectorsPerFat);
    assert geo.reserved <= geo.DataStart();
    hide geo.Ok, geo.Limit, geo.DataLba, geo.DataStart, geo.Total;
  }
}
