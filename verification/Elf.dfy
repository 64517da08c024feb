/** Executable images: the headers of an ELF file, and what memory must hold once it is loaded. */
module Elf {
  import opened Bytes
  import opened Paging
  import opened KernelPaging

  const PT_LOAD := 1
  /** The page below STACK_ELF_START, 0xBFFFF000. */
  const STACK_PAGE := 0xB_FFFE

  datatype Segment = Segment(kind: u32, offset: u32, vaddr: u32, filesz: u32, memsz: u32)

  /** validate_elf: magic, 32-bit class, machine 386, executable. */
  predicate ValidElf(file: seq<byte>)
    requires |file| >= 52
  {
    && file[0] == 0x7F && file[1] == 0x45 && file[2] == 0x4C && file[3] == 0x46
    && file[4] == 1
    && Half(file, 18) == 3
    && Half(file, 16) == 2
  }

  function HeaderCount(file: seq<byte>): nat
    requires |file| >= 52
  {
    Half(file, 44)
  }

  /** The program headers lie in the file. */
  predicate HeadersInside(file: seq<byte>) {
    |file| >= 52 && Word(file, 28) + 32 * HeaderCount(file) <= |file|
  }

  /** Program header `i` of the file. */
  function ProgramHeader(file: seq<byte>, i: nat): Segment
    requires HeadersInside(file) && i < HeaderCount(file)
  {
    var at := Word(file, 28) + 32 * i;
    Segment(Word(file, at), Word(file, at + 4), Word(file, at + 8), Word(file, at + 16), Word(file, at + 20))
  }

  // The same in the bytes of the file.

  /** Magic, 32-bit class, executable, machine 386. */
  ghost predicate Accepted(file: seq<byte>) {
    && |file| >= 52
    && file[0] == 0x7F && file[1] == 0x45 && file[2] == 0x4C && file[3] == 0x46 && file[4] == 1
    && file[16] == 2 && file[17] == 0 && file[18] == 3 && file[19] == 0
  }

  lemma AcceptedIs(file: seq<byte>)
    requires |file| >= 52
    ensures Accepted(file) <==> ValidElf(file)
  {
  }

  /** The 32 bytes from `at` on are a program header with these fields. */
  ghost predicate HeaderSpells(file: seq<byte>, at: nat, seg: Segment) {
    && LittleEndian(file, at, seg.kind) && LittleEndian(file, at + 4, seg.offset)
    && LittleEndian(file, at + 8, seg.vaddr) && LittleEndian(file, at + 16, seg.filesz)
    && LittleEndian(file, at + 20, seg.memsz)
  }

  /** `seg` is program header `i` of the file: the headers start where the word at 28 says, and the half at 44 is their
      number. */
  ghost predicate HasHeader(file: seq<byte>, i: nat, seg: Segment) {
    && |file| >= 52 && i < file[44] + file[45] as int * 0x100
    && HeaderSpells(file, Word(file, 28) + 32 * i, seg)
  }

  lemma HeaderIs(file: seq<byte>, i: nat, seg: Segment)
    requires HeadersInside(file)
    ensures HasHeader(file, i, seg) <==> i < HeaderCount(file) && seg == ProgramHeader(file, i)
  {
    hide Word, LittleEndian;
    if i < HeaderCount(file) {
      var at := Word(file, 28) + 32 * i;
      WordIs(file, at);
      WordIs(file, at + 4);
      WordIs(file, at + 8);
      WordIs(file, at + 16);
      WordIs(file, at + 20);
    }
  }

  /** A loadable segment has bytes in the page. */
  predicate Meets(seg: Segment, page: nat) {
    seg.kind == 1 && seg.vaddr < page * 0x1000 + 0x1000 && page * 0x1000 < seg.vaddr + seg.memsz
  }

  /** The pages of a loaded file: those of its loadable segments, and the stack page. */
  ghost predicate InFile(file: seq<byte>, page: nat) {
    page == 0xB_FFFE || exists i: nat, seg :: HasHeader(file, i, seg) && Meets(seg, page)
  }

  function PageCount(seg: Segment): nat {
    (seg.memsz + 0xFFF) / 0x1000
  }

  predicate Covers(seg: Segment, page: nat) {
    seg.kind == PT_LOAD && seg.vaddr / 0x1000 <= page < seg.vaddr / 0x1000 + PageCount(seg)
  }

  /** A loadable segment: page-aligned, its bytes inside the file, its pages below the stack page. */
  predicate Loadable(seg: Segment, file: seq<byte>) {
    seg.kind == PT_LOAD ==>
      && seg.vaddr % 0x1000 == 0 && seg.filesz <= seg.memsz
      && seg.offset + seg.filesz <= |file|
      && seg.vaddr / 0x1000 + PageCount(seg) <= STACK_PAGE
  }

  ghost predicate PageDisjoint(a: Segment, b: Segment) {
    forall page :: !(Covers(a, page) && Covers(b, page))
  }

  ghost predicate WellFormed(file: seq<byte>) {
    && HeadersInside(file)
    && (forall i: nat :: i < HeaderCount(file) ==> Loadable(ProgramHeader(file, i), file))
    && forall i: nat, j: nat :: i < j < HeaderCount(file) ==>
         PageDisjoint(ProgramHeader(file, i), ProgramHeader(file, j))
  }

  /** Byte `k` of the image of a segment: from the file, and zero beyond it. */
  function Wanted(file: seq<byte>, seg: Segment, k: nat): byte
    requires k < seg.filesz ==> seg.offset + k < |file|
  {
    if k < seg.filesz then file[seg.offset + k] else 0
  }

  // Bytes of the user address space.

  /** The byte at user address `vaddr` is `b`, the page of `vaddr` being mapped by `space`. */
  ghost predicate HasByte(m: Memory, space: map<nat, nat>, vaddr: nat, b: byte) {
    && Physical(m) && vaddr / 0x1000 in space && space[vaddr / 0x1000] < FRAMES
    && m[space[vaddr / 0x1000]][vaddr % 0x1000] == b
  }

  /** Reading address `vaddr` with `dir` as the page directory gives `b`. */
  ghost predicate Reads(m: Memory, dir: nat, vaddr: nat, b: byte) {
    && Physical(m) && dir < FRAMES && vaddr / 0x1000 < FRAMES
    && var f := Walk(m, dir, vaddr / 0x1000);
       f.Some? && m[f.value][vaddr % 0x1000] == b
  }

  lemma HasByteReads(m: Memory, dir: nat, used: set<nat>, space: map<nat, nat>, tables: map<nat, nat>,
                     vaddr: nat, b: byte)
    requires Mapped(m, dir, used, space, tables) && vaddr / 0x1000 < KERNEL_PAGE
    requires HasByte(m, space, vaddr, b)
    ensures Reads(m, dir, vaddr, b)
  {
    WalkIsSpace(m, dir, used, space, tables, vaddr / 0x1000);
    hide Walk, TableSays, DirectorySays, TablesOwned;
  }

  /** Every mapped byte outside `[lo, hi)` is as before, and still mapped. */
  ghost predicate KeptOutside(m: Memory, space: map<nat, nat>, m': Memory, space': map<nat, nat>, lo: nat, hi: nat) {
    forall vaddr: nat, b: byte ::
      !(lo <= vaddr < hi) && HasByte(m, space, vaddr, b) ==> HasByte(m', space', vaddr, b)
  }

  lemma ByteWritten(m: Memory, m': Memory, space: map<nat, nat>, vaddr: nat, b: byte)
    requires Injective(space) && ByteStored(m, m', space, vaddr, b)
    ensures HasByte(m', space, vaddr, b)
    ensures KeptOutside(m, space, m', space, vaddr, vaddr + 1)
  {
    forall w: nat, c: byte | w != vaddr && HasByte(m, space, w, c) ensures HasByte(m', space, w, c) {
      SameAddress(w, vaddr);
    }
  }

  lemma SameAddress(w: nat, vaddr: nat)
    ensures w / 0x1000 == vaddr / 0x1000 && w % 0x1000 == vaddr % 0x1000 ==> w == vaddr
  {
  }

  /** Mapping one more page keeps every mapped byte. */
  lemma MappingKeeps(m: Memory, m': Memory, dir: nat, own: set<nat>, space: map<nat, nat>, page: nat, f: nat)
    requires Confined(m, m', dir, own) && page !in space
    requires dir !in space.Values && own !! space.Values
    ensures KeptOutside(m, space, m', space[page := f], 0, 0)
  {
    hide Entry;
    forall vaddr: nat, b: byte | HasByte(m, space, vaddr, b) ensures HasByte(m', space[page := f], vaddr, b) {
      assert space[vaddr / 0x1000] in space.Values;
    }
  }

  lemma KeptTrans(m: Memory, space: map<nat, nat>, m1: Memory, space1: map<nat, nat>, m2: Memory, space2: map<nat, nat>,
                  lo: nat, hi: nat, lo1: nat, hi1: nat)
    requires KeptOutside(m, space, m1, space1, lo, hi) && KeptOutside(m1, space1, m2, space2, lo1, hi1)
    requires lo == hi || (lo1 <= lo && hi <= hi1)
    ensures KeptOutside(m, space, m2, space2, lo1, hi1)
  {
    hide HasByte;
  }

  /** The first `n` bytes of the image of a segment are in memory. */
  ghost predicate LoadedTo(m: Memory, space: map<nat, nat>, file: seq<byte>, seg: Segment, n: nat) {
    && seg.filesz <= seg.memsz && seg.offset + seg.filesz <= |file|
    && forall k: nat :: k < n ==> HasByte(m, space, seg.vaddr + k, Wanted(file, seg, k))
  }

  /** Loaded bytes survive a change elsewhere. */
  lemma LoadedKept(m: Memory, space: map<nat, nat>, m': Memory, space': map<nat, nat>, lo: nat, hi: nat,
                   file: seq<byte>, seg: Segment, n: nat)
    requires LoadedTo(m, space, file, seg, n) && KeptOutside(m, space, m', space', lo, hi)
    requires lo == hi || seg.vaddr + n <= lo || hi <= seg.vaddr
    ensures LoadedTo(m', space', file, seg, n)
  {
    hide HasByte, Wanted;
  }

  /** Bytes kept outside a range that was not mapped before are all the bytes there were. */
  lemma NothingInside(m: Memory, space: map<nat, nat>, m': Memory, space': map<nat, nat>, lo: nat, hi: nat)
    requires KeptOutside(m, space, m', space', lo, hi)
    requires forall p :: p in space ==> p < lo / 0x1000 || hi <= p * 0x1000
    ensures KeptOutside(m, space, m', space', 0, 0)
  {
    forall vaddr: nat, b: byte | HasByte(m, space, vaddr, b) ensures HasByte(m', space', vaddr, b) {
      assert vaddr / 0x1000 in space;
    }
  }

  lemma LoadedWhole(m: Memory, space: map<nat, nat>, m': Memory, file: seq<byte>, seg: Segment)
    requires seg.filesz <= seg.memsz && seg.offset + seg.filesz <= |file|
    requires Holds(m, space, seg.vaddr, file[seg.offset..seg.offset + seg.filesz])
    requires KeptOutside(m, space, m', space, seg.vaddr + seg.filesz, seg.vaddr + seg.memsz)
    requires Zeroed(m', space, seg.vaddr + seg.filesz, seg.memsz - seg.filesz)
    ensures LoadedTo(m', space, file, seg, seg.memsz)
  {
    hide HasByte;
    var data := file[seg.offset..seg.offset + seg.filesz];
    forall k: nat | k < seg.memsz ensures HasByte(m', space, seg.vaddr + k, Wanted(file, seg, k)) {
      if k < seg.filesz {
        assert HasByte(m, space, seg.vaddr + k, data[k]);
      } else {
        assert HasByte(m', space, seg.vaddr + k, 0);
      }
    }
  }

  ghost predicate Holds(m: Memory, space: map<nat, nat>, vaddr: nat, data: seq<byte>) {
    forall k: nat :: k < |data| ==> HasByte(m, space, vaddr + k, data[k])
  }

  ghost predicate Zeroed(m: Memory, space: map<nat, nat>, vaddr: nat, n: nat) {
    forall a: nat :: vaddr <= a < vaddr + n ==> HasByte(m, space, a, 0)
  }

  /** Every page that the addresses `[lo, hi)` reach is mapped. */
  ghost predicate AllMapped(space: map<nat, nat>, lo: nat, hi: nat) {
    forall p: nat :: lo / 0x1000 <= p && p * 0x1000 < hi ==> p in space
  }

  lemma HoldsMore(m: Memory, m': Memory, space: map<nat, nat>, vaddr: nat, data: seq<byte>, i: nat)
    requires i < |data| && Holds(m, space, vaddr, data[..i])
    requires KeptOutside(m, space, m', space, vaddr + i, vaddr + i + 1)
    requires HasByte(m', space, vaddr + i, data[i])
    ensures Holds(m', space, vaddr, data[..i + 1])
  {
    hide HasByte;
    var longer := data[..i + 1];
    forall k: nat | k < |longer| ensures HasByte(m', space, vaddr + k, longer[k]) {
      if k < i {
        assert HasByte(m, space, vaddr + k, data[..i][k]);
      }
    }
  }

  lemma ZeroedMore(m: Memory, m': Memory, space: map<nat, nat>, vaddr: nat, i: nat)
    requires Zeroed(m, space, vaddr, i)
    requires KeptOutside(m, space, m', space, vaddr + i, vaddr + i + 1)
    requires HasByte(m', space, vaddr + i, 0)
    ensures Zeroed(m', space, vaddr, i + 1)
  {
    hide HasByte;
  }
}
