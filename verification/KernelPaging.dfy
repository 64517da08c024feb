/** mem_map_page and mem_unmap_page: page tables edited through the recursive mapping. */
module KernelPaging {
  import opened Bytes
  import opened PageFrames
  import opened Paging

  const KERNEL_START := 0xC000_0000
  const REC_PAGE_DIR := 0xFFFF_F000
  const REC_PAGE_TABLES := 0xFFC0_0000

  /** A frame number and twelve flag bits, as an entry keeps them. */
  lemma Packs(f: nat, flags: nat)
    requires flags < 0x1000
    ensures (f * 0x1000 + flags) / 0x1000 == f
    ensures (f * 0x1000 + flags) % 2 == flags % 2
    ensures (f * 0x1000 + flags) / 0x80 == f * 32 + flags / 0x80
  {
  }

  /** `flags` masked to the ten bits the kernel passes on. */
  lemma TenBits(flags: nat)
    ensures flags % 1024 % 2 == flags % 2
    ensures flags % 1024 / 0x80 % 2 == flags / 0x80 % 2
  {
    EvenSum(flags / 1024 * 512, flags % 1024);
    EvenSum(flags / 1024 * 4, flags % 1024 / 0x80);
  }

  lemma Quotient(q: nat, x: nat)
    requires x < 0x80
    ensures (q * 0x80 + x) / 0x80 == q
  {
  }

  lemma LowBitsSet(l: nat)
    ensures (l / 4 * 4 + 3) / 0x80 == l / 0x80 && (l / 4 * 4 + 3) % 2 == 1
  {
    var q, r := l / 0x80, l % 0x80;
    assert l / 4 == q * 32 + r / 4;
    Quotient(q, r / 4 * 4 + 3);
    EvenSum(l / 4 * 2 + 1, 1);
  }

  /** `l | PRESENT | WRITE` for ten flag bits. */
  function TableFlags(l: nat): (r: nat)
    requires l < 1024
    ensures r < 1024 && r % 2 == 1 && r / 0x80 == l / 0x80
  {
    LowBitsSet(l);
    l / 4 * 4 + 3
  }

  /** The directory entry for a new page table. */
  function DirectoryEntry(paddr: u32, flags: u32): (e: u32)
    ensures Present(e) && FrameOf(e) == paddr / 0x1000
    ensures flags / 0x80 % 2 == 0 ==> !Large(e)
    ensures e % 0x1000 == flags % 1024 / 4 * 4 + 3
  {
    var f, l := paddr / 0x1000, flags % 1024;
    TenBits(flags);
    TableFlagsFit(flags % 1024);
    LowBits(f, TableFlags(l));
    LargeFlag(f, TableFlags(l));
    hide TableFlags;
    f * 0x1000 + TableFlags(l)
  }

  lemma LowBits(f: nat, l: nat)
    requires l < 0x1000
    ensures (f * 0x1000 + l) % 0x1000 == l
  {
  }

  lemma TableFlagsFit(l: nat)
    requires l < 1024
    ensures TableFlags(l) == l / 4 * 4 + 3
  {
  }

  lemma LargeFlag(f: nat, l: nat)
    requires f < FRAMES && l < 0x1000
    ensures Large(f * 0x1000 + l) <==> l / 0x80 % 2 == 1
    ensures Present(f * 0x1000 + l) <==> l % 2 == 1
    ensures FrameOf(f * 0x1000 + l) == f
  {
    Packs(f, l);
    EvenSum(f * 16, l / 0x80);
  }

  lemma EvenSum(a: nat, b: nat)
    ensures (2 * a + b) % 2 == b % 2
  {
  }

  function PageEntry(paddr: u32, flags: u32): (e: u32)
    ensures FrameOf(e) == paddr / 0x1000
    ensures Present(e) <==> flags % 2 == 1
    ensures e % 0x1000 == flags % 1024
  {
    var f, l := paddr / 0x1000, flags % 1024;
    TenBits(flags);
    LowBits(f, l);
    LargeFlag(f, l);
    hide Large, Present, FrameOf;
    assert Present(f * 0x1000 + l) <==> flags % 2 == 1;
    f * 0x1000 + l
  }

  lemma Aligned(vaddr: nat)
    requires vaddr % 4 == 0
    ensures vaddr % 0x1000 == 4 * (vaddr % 0x1000 / 4) && vaddr % 0x1000 / 4 < 1024
  {
  }

  /** The address of word `i` of a page. */
  function WordAt(page: nat, i: nat): (vaddr: u32)
    requires page < FRAMES && i < 1024
    ensures vaddr % 4 == 0 && vaddr / 0x1000 == page && vaddr % 0x1000 == 4 * i
  {
    page * 0x1000 + 4 * i
  }

  lemma WordPut(s: seq<byte>, r: seq<byte>, i: nat, v: u32)
    requires |s| == PAGE && |r| == PAGE && i < 1024
    requires Word(r, 4 * i) == v
    requires forall k :: 0 <= k < |s| && !(4 * i <= k < 4 * i + 4) ==> r[k] == s[k]
    ensures EntryEdited(s, r, i, v)
  {
    hide Join;
  }

  /** What mapping does to the space, the tables and the allocated frames. */
  ghost predicate MapStep(used: set<nat>, space: map<nat, nat>, tables: map<nat, nat>, lo: nat, hi: nat,
                          page: nat, e: u32,
                          used': set<nat>, space': map<nat, nat>, tables': map<nat, nat>) {
    && space' == Moved(space, page, e)
    && if page / 1024 in tables then
         used' == used && tables' == tables
       else
         && tables'.Keys == tables.Keys + {page / 1024}
         && tables' == tables[page / 1024 := tables'[page / 1024]]
         && LowestFree(used, lo, hi, tables'[page / 1024])
         && used' == used + {tables'[page / 1024]}
  }

  ghost predicate NothingIn(space: map<nat, nat>, d: nat) {
    forall p :: p in space ==> p / 1024 != d
  }

  /** What unmapping does: the page's frame is freed, and so is its table when nothing else is in it. */
  ghost predicate UnmapStep(used: set<nat>, space: map<nat, nat>, tables: map<nat, nat>, page: nat,
                            used': set<nat>, space': map<nat, nat>, tables': map<nat, nat>) {
    if page !in space || page / 1024 !in tables then
      used' == used && space' == space && tables' == tables
    else
      && space' == space - {page}
      && if NothingIn(space', page / 1024) then
           used' == used - {space[page]} - {tables[page / 1024]} && tables' == tables - {page / 1024}
         else
           used' == used - {space[page]} && tables' == tables
  }

  /** Only the user half of the directory and frames in `own` changed. */
  ghost predicate Confined(m: Memory, m': Memory, dir: nat, own: set<nat>) {
    && Physical(m) && Physical(m') && dir < FRAMES
    && (forall g :: 0 <= g < FRAMES && g != dir && g !in own ==> m'[g] == m[g])
    && forall d: nat :: KERNEL_SLOT <= d < 1024 ==> Entry(m'[dir], d) == Entry(m[dir], d)
  }

  /** The page tables of the kernel half, the recursive slot apart, lie in frames of `kernel`. */
  ghost predicate KernelTables(m: Memory, dir: nat, kernel: set<nat>) {
    && Physical(m) && dir < FRAMES
    && forall d: nat :: KERNEL_SLOT <= d < SELF_SLOT ==> KernelEntry(Entry(m[dir], d), kernel)
  }

  predicate KernelEntry(e: u32, kernel: set<nat>) {
    Present(e) && !Large(e) ==> FrameOf(e) in kernel
  }

  /** The kernel half, up to the recursive window, translates as before. */
  ghost predicate SameKernel(m: Memory, m': Memory, dir: nat)
    requires Physical(m) && Physical(m') && dir < FRAMES
  {
    forall page: nat :: KERNEL_PAGE <= page < 0xF_FC00 ==> Walk(m', dir, page) == Walk(m, dir, page)
  }

  lemma KernelPageKept(m: Memory, m': Memory, dir: nat, own: set<nat>, kernel: set<nat>, page: nat)
    requires Confined(m, m', dir, own) && KERNEL_PAGE <= page < 0xF_FC00
    requires KernelTables(m, dir, kernel) && kernel !! own && dir !in kernel
    ensures Walk(m', dir, page) == Walk(m, dir, page)
  {
    hide Entry, Present, Large, FrameOf;
    assert KernelEntry(Entry(m[dir], page / 1024), kernel);
  }

  /** Changes confined to the user half and to frames that hold no kernel page table leave the kernel half alone. */
  lemma KernelHalfKept(m: Memory, m': Memory, dir: nat, own: set<nat>, kernel: set<nat>)
    requires Confined(m, m', dir, own) && KernelTables(m, dir, kernel) && kernel !! own && dir !in kernel
    ensures KernelTables(m', dir, kernel) && SameKernel(m, m', dir)
  {
    hide Entry, Present, Large, FrameOf, Walk;
    forall page: nat | KERNEL_PAGE <= page < 0xF_FC00 ensures Walk(m', dir, page) == Walk(m, dir, page) {
      KernelPageKept(m, m', dir, own, kernel, page);
    }
  }

  lemma EditConfined(m: Memory, m': Memory, dir: nat, f: nat, i: nat, v: u32, own: set<nat>)
    requires Edited(m, m', f, i, v) && dir < FRAMES
    requires if f == dir then i < KERNEL_SLOT else f in own
    ensures Confined(m, m', dir, own)
  {
    hide Entry;
  }

  /** Byte `o` of frame `f` replaced. */
  function WithByte(m: Memory, f: nat, o: nat, b: byte): Memory
    requires f < |m| && o < |m[f]|
  {
    var frame: seq<byte> := m[f];
    m[f := frame[o := b]]
  }

  /** One byte of a mapped page was written. */
  ghost predicate ByteStored(m: Memory, m': Memory, space: map<nat, nat>, vaddr: nat, b: byte) {
    && Physical(m) && vaddr / 0x1000 in space && space[vaddr / 0x1000] < FRAMES
    && m' == WithByte(m, space[vaddr / 0x1000], vaddr % 0x1000, b)
  }

  /** The page-table entry of `page`, as a word. */
  ghost predicate EntrySet(m: Memory, tables: map<nat, nat>, page: nat, e: u32) {
    && page / 1024 in tables && tables[page / 1024] < FRAMES && Physical(m)
    && Entry(m[tables[page / 1024]], page % 1024) == e
  }

  /** The directory entry of slot `d`, as a word. */
  ghost predicate SlotSet(m: Memory, dir: nat, d: nat, e: u32) {
    Physical(m) && dir < FRAMES && d < 1024 && Entry(m[dir], d) == e
  }

  /** The page tables and their directory entries are the same. */
  ghost predicate TablesStay(m: Memory, m': Memory, dir: nat, tables: map<nat, nat>) {
    && Physical(m) && Physical(m') && dir < FRAMES
    && forall d :: d in tables ==>
         && d < 1024 && Entry(m'[dir], d) == Entry(m[dir], d)
         && tables[d] < FRAMES && m'[tables[d]] == m[tables[d]]
  }

  /** The same but for the entry of `page`: no other word of a page table, or that names one, has changed. */
  ghost predicate WordsStay(m: Memory, m': Memory, dir: nat, tables: map<nat, nat>, page: nat) {
    && Physical(m) && Physical(m') && dir < FRAMES
    && forall d :: d in tables ==>
         && d < 1024 && Entry(m'[dir], d) == Entry(m[dir], d) && tables[d] < FRAMES
         && if d == page / 1024 then SameBut(m[tables[d]], m'[tables[d]], page % 1024)
            else m'[tables[d]] == m[tables[d]]
  }

  ghost predicate SameBut(s: seq<byte>, s': seq<byte>, i: nat) {
    && |s| == PAGE && |s'| == PAGE
    && forall j: nat :: j < 1024 && j != i ==> Entry(s', j) == Entry(s, j)
  }

  lemma StayRefl(m: Memory, dir: nat, used: set<nat>, space: map<nat, nat>, tables: map<nat, nat>)
    requires Mapped(m, dir, used, space, tables)
    ensures TablesStay(m, m, dir, tables)
  {
    hide Entry, TableSays, DirectorySays, Points, Injective;
  }

  lemma AddedStay(m: Memory, m': Memory, dir: nat, used: set<nat>, space: map<nat, nat>, tables: map<nat, nat>,
                  d: nat, e: u32, t: nat)
    requires Mapped(m, dir, used, space, tables) && TableAdded(m, m', dir, d, e, t) && d !in tables && t !in used
    ensures TablesStay(m, m', dir, tables)
  {
    hide Entry, TableSays, DirectorySays, Points, Injective, Blank;
  }

  lemma WordWritten(m: Memory, m1: Memory, m': Memory, dir: nat, used: set<nat>, space: map<nat, nat>,
                    tables: map<nat, nat>, was: map<nat, nat>, page: nat, e: u32)
    requires Mapped(m1, dir, used, space, tables) && page / 1024 in tables && tables[page / 1024] < FRAMES
    requires TablesStay(m, m1, dir, was) && forall d :: d in was ==> d in tables && tables[d] == was[d]
    requires Edited(m1, m', tables[page / 1024], page % 1024, e)
    ensures WordsStay(m, m', dir, was, page)
  {
    hide Entry, TableSays, DirectorySays, Points;
  }

  lemma StaySame(m: Memory, dir: nat, tables: map<nat, nat>, page: nat)
    requires TablesStay(m, m, dir, tables)
    ensures WordsStay(m, m, dir, tables, page)
  {
    hide Entry;
  }

  lemma DroppedStay(m: Memory, m': Memory, dir: nat, used: set<nat>, space: map<nat, nat>, tables: map<nat, nat>,
                    d: nat)
    requires Mapped(m, dir, used, space, tables) && Edited(m, m', dir, d, 0)
    ensures TablesStay(m, m', dir, tables - {d})
  {
    hide Entry, TableSays, DirectorySays, Points, Injective;
  }

  lemma StayJoin(m: Memory, m1: Memory, m2: Memory, dir: nat, tables: map<nat, nat>, d: nat, page: nat)
    requires WordsStay(m, m1, dir, tables, page) && TablesStay(m1, m2, dir, tables - {d})
    ensures WordsStay(m, m2, dir, tables - {d}, page)
  {
    hide Entry;
  }

  lemma EntryNowSet(m: Memory, m': Memory, dir: nat, tables: map<nat, nat>, page: nat, e: u32)
    requires page / 1024 in tables && tables[page / 1024] < FRAMES && tables[page / 1024] != dir && dir < FRAMES
    requires Edited(m, m', tables[page / 1024], page % 1024, e)
    ensures EntrySet(m', tables, page, e) && Physical(m') && m'[dir] == m[dir]
  {
    hide Entry;
  }

  lemma SlotStays(m: Memory, m': Memory, dir: nat, d: nat, e: u32)
    requires SlotSet(m, dir, d, e) && Physical(m') && m'[dir] == m[dir]
    ensures SlotSet(m', dir, d, e)
  {
    hide Entry;
  }

  lemma SlotNowSet(m: Memory, m': Memory, dir: nat, d: nat, e: u32, t: nat)
    requires TableAdded(m, m', dir, d, e, t) && d < 1024
    ensures SlotSet(m', dir, d, e)
  {
    hide Entry, Blank;
  }

  lemma EntryOfFrame(paddr: u32, f: nat, flags: u32)
    requires f == paddr / 0x1000
    ensures f * 0x1000 < U32 && DirectoryEntry(f * 0x1000, flags) == DirectoryEntry(paddr, flags)
  {
    Packs(f, 0);
    hide TableFlags;
  }

  /** Only frame `t` changed. */
  ghost predicate OnlyFrame(m: Memory, m': Memory, t: nat) {
    && Physical(m) && Physical(m') && t < FRAMES
    && forall g :: 0 <= g < FRAMES && g != t ==> m'[g] == m[g]
  }

  lemma SlotPlaced(m: Memory, m1: Memory, dir: nat, d: nat, e: u32, t: nat)
    requires SelfMapped(m, dir) && Edited(m, m1, dir, d, e) && d < SELF_SLOT && Points(e, t)
    ensures SelfMapped(m1, dir) && Points(Entry(m1[dir], d), t)
  {
    hide Entry, Points;
  }

  lemma TablePlaced(m: Memory, m1: Memory, m2: Memory, dir: nat, d: nat, e: u32, t: nat)
    requires Edited(m, m1, dir, d, e) && OnlyFrame(m1, m2, t) && Blank(m2[t]) && t != dir
    ensures TableAdded(m, m2, dir, d, e, t)
  {
    hide EntryEdited, Blank;
  }

  lemma AddedConfined(m: Memory, m2: Memory, dir: nat, d: nat, e: u32, t: nat)
    requires TableAdded(m, m2, dir, d, e, t) && d < KERNEL_SLOT
    ensures Confined(m, m2, dir, {t})
  {
    hide Entry, Blank;
  }

  lemma FreshFrame(m: Memory, dir: nat, used: set<nat>, space: map<nat, nat>, tables: map<nat, nat>,
                   lo: nat, hi: nat, t: nat)
    requires Mapped(m, dir, used, space, tables)
    requires LowestFree(used, lo, hi, t) && hi < NUM_PAGE_FRAMES && dir < lo
    ensures t !in used && t < FRAMES && t != dir && SelfMapped(m, dir)
  {
  }

  lemma SlotKnown(m: Memory, dir: nat, used: set<nat>, space: map<nat, nat>, tables: map<nat, nat>, d: nat)
    requires Mapped(m, dir, used, space, tables) && d < KERNEL_SLOT
    ensures SelfMapped(m, dir) && Physical(m) && dir < FRAMES
    ensures var e := Entry(m[dir], d);
            if d in tables then
              Present(e) && FrameOf(e) == tables[d] && tables[d] < FRAMES && tables[d] != dir && tables[d] in used
            else
              !Present(e)
  {
    hide Entry, Large, FrameOf, Present, Injective, TableSays;
  }

  lemma PageKnown(m: Memory, dir: nat, used: set<nat>, space: map<nat, nat>, tables: map<nat, nat>, page: nat)
    requires Mapped(m, dir, used, space, tables) && page / 1024 in tables && tables[page / 1024] < FRAMES
    ensures Physical(m) && Says(Entry(m[tables[page / 1024]], page % 1024), page, space)
  {
    hide Entry, Large, FrameOf, Present, Injective, Points;
    SplitPage(page, page / 1024, page % 1024);
  }

  /** A map-update of the space is a map-update of the translation. */
  lemma MapRefines(m: Memory, m': Memory, dir: nat, used: set<nat>, used': set<nat>, space: map<nat, nat>,
                   tables: map<nat, nat>, tables': map<nat, nat>, page: nat, e: u32, q: nat)
    requires Mapped(m, dir, used, space, tables) && Mapped(m', dir, used', Moved(space, page, e), tables')
    requires q < KERNEL_PAGE
    ensures Physical(m) && Physical(m') && dir < FRAMES
    ensures Walk(m', dir, q) ==
            if q != page then Walk(m, dir, q) else if Present(e) then Some(FrameOf(e)) else None
  {
    WalkIsSpace(m, dir, used, space, tables, q);
    WalkIsSpace(m', dir, used', Moved(space, page, e), tables', q);
    hide Walk, TableSays, DirectorySays, TablesOwned, Points, Present, FrameOf;
  }

  lemma ConfinedRefl(m: Memory, dir: nat, own: set<nat>)
    requires Physical(m) && dir < FRAMES
    ensures Confined(m, m, dir, own)
  {
  }

  /** Two confined changes after another, the frames named once. */
  lemma ConfinedJoin(m: Memory, m1: Memory, m2: Memory, dir: nat, own: set<nat>, own': set<nat>)
    requires Confined(m, m1, dir, own) && Confined(m1, m2, dir, own')
    requires own <= own' || own' <= own
    ensures Confined(m, m2, dir, if own <= own' then own' else own)
  {
    hide Entry;
  }

  ghost predicate NonePresent(table: seq<byte>) {
    |table| == PAGE && forall i: nat :: i < 1024 ==> !Present(Entry(table, i))
  }

  lemma EmptyMeansNothing(m: Memory, dir: nat, used: set<nat>, space: map<nat, nat>, tables: map<nat, nat>, d: nat)
    requires Mapped(m, dir, used, space, tables) && d in tables && tables[d] < FRAMES
    ensures Physical(m) && (NonePresent(m[tables[d]]) <==> NothingIn(space, d))
  {
    hide Entry, Large, FrameOf, Present, Injective, Points;
    forall i: nat | i < 1024 ensures Present(Entry(m[tables[d]], i)) <==> 1024 * d + i in space {
      assert Says(Entry(m[tables[d]], i), 1024 * d + i, space);
      SplitPage(1024 * d + i, d, i);
    }
    forall p | p in space && p / 1024 == d ensures Present(Entry(m[tables[d]], p % 1024)) {
      SplitPage(p, d, p % 1024);
    }
  }

  lemma FrameReleased(m: Memory, dir: nat, used: set<nat>, space: map<nat, nat>, tables: map<nat, nat>, f: nat)
    requires Mapped(m, dir, used, space, tables) && f !in tables.Values
    ensures Mapped(m, dir, used - {f}, space, tables)
  {
    hide Entry, TableSays, DirectorySays, Points, Injective;
  }

  lemma Cleared(m: Memory, m': Memory, dir: nat, used: set<nat>, space: map<nat, nat>, tables: map<nat, nat>, page: nat)
    requires Mapped(m, dir, used, space, tables) && page < KERNEL_PAGE && page / 1024 in tables && page in space
    requires tables[page / 1024] < FRAMES && space[page] !in tables.Values
    requires Edited(m, m', tables[page / 1024], page % 1024, 0) && dir < FRAMES
    ensures Mapped(m', dir, used - {space[page]}, space - {page}, tables)
    ensures Confined(m, m', dir, tables.Values)
  {
    assert !Present(0);
    hide Entry, Large, FrameOf, Present, Confined, Mapped, Edited, SelfMapped;
    SlotKnown(m, dir, used, space, tables, page / 1024);
    FrameReleased(m, dir, used, space, tables, space[page]);
    SlotWritten(m, m', dir, used - {space[page]}, space, tables, page, 0);
    EditConfined(m, m', dir, tables[page / 1024], page % 1024, 0, tables.Values);
  }

  class Mmu {
    const pmm: FrameAllocator
    var mem: Memory
    /** The frame of the active page directory. */
    var cr3: nat
    /** The directory, a static frame of the kernel, whose user half the next two describe. */
    ghost var home: nat
    ghost var space: map<nat, nat>
    ghost var tables: map<nat, nat>

    ghost predicate Valid()
      reads this, pmm
    {
      && pmm.Valid()
      && Mapped(mem, home, pmm.Used(), space, tables)
      && cr3 < FRAMES && home < pmm.frameMin
    }

    ghost predicate Ready()
      reads this, pmm
    {
      Valid() && cr3 == home
    }

    constructor (pmm: FrameAllocator, mem: Memory, directory: nat)
      requires pmm.Valid() && Mapped(mem, directory, pmm.Used(), map[], map[]) && directory < pmm.frameMin
      ensures Ready() && fresh(this)
      ensures this.pmm == pmm && this.mem == mem && home == directory && space == map[] && tables == map[]
    {
      assert directory < FRAMES;
      hide Mapped;
      this.pmm, this.mem, this.cr3 := pmm, mem, directory;
      home, space, tables := directory, map[], map[];
    }

    /** `*(uint32_t*)vaddr` for a word inside one page. */
    method ReadWord(vaddr: u32) returns (v: u32)
      requires Physical(mem) && cr3 < FRAMES && vaddr % 0x1000 + 4 <= PAGE
      requires Walk(mem, cr3, vaddr / 0x1000).Some?
      ensures v == Word(mem[Walk(mem, cr3, vaddr / 0x1000).value], vaddr % 0x1000)
    {
      hide Walk, Word;
      var f := Translate(vaddr / 0x1000);
      v := Word(mem[f], vaddr % 0x1000);
    }

    /** The processor's translation of a present page. */
    method Translate(page: nat) returns (f: nat)
      requires Physical(mem) && cr3 < FRAMES && page < FRAMES
      requires Walk(mem, cr3, page).Some?
      ensures f < FRAMES && Walk(mem, cr3, page) == Some(f)
    {
      hide Entry;
      var pde := Entry(mem[cr3], page / 1024);
      if Large(pde) {
        f := FrameOf(pde) / 1024 * 1024 + page % 1024;
      } else {
        f := FrameOf(Entry(mem[FrameOf(pde)], page % 1024));
      }
    }

    method WriteWord(vaddr: u32, v: u32)
      requires Physical(mem) && cr3 < FRAMES && vaddr % 4 == 0
      requires Walk(mem, cr3, vaddr / 0x1000).Some?
      modifies this`mem
      ensures Edited(old(mem), mem, Walk(old(mem), cr3, vaddr / 0x1000).value, vaddr % 0x1000 / 4, v)
    {
      hide Walk, EntryEdited, Word;
      Aligned(vaddr);
      var f := Translate(vaddr / 0x1000);
      var r := PutWord(mem[f], vaddr % 0x1000, v);
      WordPut(mem[f], r, vaddr % 0x1000 / 4, v);
      mem := mem[f := r];
    }

    method ReadDirectory(d: nat) returns (e: u32)
      requires SelfMapped(mem, cr3) && d < 1024
      ensures e == Entry(mem[cr3], d)
    {
      RecursiveDirectory(mem, cr3);
      hide Walk, Word;
      assert WordAt(0xF_FFFF, d) == REC_PAGE_DIR + 4 * d;
      hide WordAt;
      e := ReadWord(WordAt(0xF_FFFF, d));
    }

    method WriteDirectory(d: nat, e: u32)
      requires SelfMapped(mem, cr3) && d < 1024
      modifies this`mem
      ensures Edited(old(mem), mem, cr3, d, e)
    {
      RecursiveDirectory(mem, cr3);
      hide Walk, Entry, Edited;
      assert WordAt(0xF_FFFF, d) == REC_PAGE_DIR + 4 * d;
      hide WordAt;
      WriteWord(WordAt(0xF_FFFF, d), e);
    }

    method ReadTable(d: nat, i: nat) returns (e: u32)
      requires SelfMapped(mem, cr3) && d < 1024 && i < 1024 && Present(Entry(mem[cr3], d))
      ensures e == Entry(mem[FrameOf(Entry(mem[cr3], d))], i)
    {
      RecursiveTable(mem, cr3, d);
      hide Walk, Word;
      assert WordAt(0xF_FC00 + d, i) == REC_PAGE_TABLES + 0x1000 * d + 4 * i;
      hide WordAt;
      e := ReadWord(WordAt(0xF_FC00 + d, i));
    }

    method WriteTable(d: nat, i: nat, e: u32)
      requires SelfMapped(mem, cr3) && d < 1024 && i < 1024 && Present(Entry(mem[cr3], d))
      modifies this`mem
      ensures Edited(old(mem), mem, FrameOf(Entry(old(mem)[cr3], d)), i, e)
    {
      RecursiveTable(mem, cr3, d);
      hide Walk, Entry, Edited;
      assert WordAt(0xF_FC00 + d, i) == REC_PAGE_TABLES + 0x1000 * d + 4 * i;
      hide WordAt;
      WriteWord(WordAt(0xF_FC00 + d, i), e);
    }

    /** Zeroes the page table of slot `d`, entry by entry through the recursive window. */
    method ClearTable(d: nat, ghost t: nat)
      requires SelfMapped(mem, cr3) && d < SELF_SLOT && Points(Entry(mem[cr3], d), t) && t != cr3
      modifies this`mem
      ensures OnlyFrame(old(mem), mem, t) && Blank(mem[t])
    {
      hide Entry, Large, FrameOf;
      var i := 0;
      while i < 1024
        invariant i <= 1024 && OnlyFrame(old(mem), mem, t)
        invariant forall j: nat :: j < i ==> Entry(mem[t], j) == 0
      {
        WriteTable(d, i, 0);
        i := i + 1;
      }
    }

    /** Enters a page table into the directory and zeroes it. */
    method PlaceTable(d: nat, e: u32, ghost t: nat)
      requires SelfMapped(mem, cr3) && d < KERNEL_SLOT && Points(e, t) && t != cr3
      modifies this`mem
      ensures TableAdded(old(mem), mem, cr3, d, e, t)
    {
      hide Entry, Large, FrameOf, Present, TableAdded, OnlyFrame, Blank, SelfMapped, Points, Edited;
      WriteDirectory(d, e);
      ghost var m1 := mem;
      SlotPlaced(old(mem), m1, cr3, d, e, t);
      ClearTable(d, t);
      TablePlaced(old(mem), m1, mem, cr3, d, e, t);
    }

    /** The first half of mem_map_page: a page table for a slot that has none. */
    method AddTable(d: nat, flags: u32)
      requires Ready() && d < KERNEL_SLOT && d !in tables && flags / 0x80 % 2 == 0
      requires !NoneFree(pmm.Used(), pmm.frameMin, pmm.frameMax)
      modifies this`mem, this`tables, pmm`bitmap, pmm`totalAlloc
      ensures Ready()
      ensures d in tables && tables == old(tables)[d := tables[d]]
      ensures LowestFree(old(pmm.Used()), pmm.frameMin, pmm.frameMax, tables[d])
      ensures pmm.Used() == old(pmm.Used()) + {tables[d]}
      ensures Confined(old(mem), mem, home, {tables[d]}) && TablesStay(old(mem), mem, home, old(tables))
      ensures tables[d] * 0x1000 < U32 && SlotSet(mem, home, d, DirectoryEntry(tables[d] * 0x1000, flags))
    {
      hide SlotSet, DirectoryEntry, Entry, Large, FrameOf, Present, TableAdded, Confined, Mapped, LowestFree, NoneFree;
      hide FrameAllocator.Used, TablesStay;
      ghost var used, was := pmm.Used(), mem;
      var paddr := pmm.Alloc();
      ghost var t := paddr / 0x1000;
      FreshFrame(was, home, used, space, tables, pmm.frameMin, pmm.frameMax, t);
      hide FrameAllocator.Valid;
      PlaceTable(d, DirectoryEntry(paddr, flags), t);
      SlotNowSet(was, mem, home, d, DirectoryEntry(paddr, flags), t);
      EntryOfFrame(paddr, t, flags);
      NewTable(was, mem, home, used, space, tables, d, DirectoryEntry(paddr, flags), t);
      AddedStay(was, mem, home, used, space, tables, d, DirectoryEntry(paddr, flags), t);
      AddedConfined(was, mem, home, d, DirectoryEntry(paddr, flags), t);
      tables := tables[d := t];
    }

    /** mem_map_page for a user address, in the directory that is active. */
    method MapPage(vaddr: u32, paddr: u32, flags: u32)
      requires Ready() && vaddr < KERNEL_START && flags / 0x80 % 2 == 0
      requires vaddr / 0x1000 / 1024 in tables || !NoneFree(pmm.Used(), pmm.frameMin, pmm.frameMax)
      modifies this`mem, this`space, this`tables, pmm`bitmap, pmm`totalAlloc
      ensures Ready()
      ensures MapStep(old(pmm.Used()), old(space), old(tables), pmm.frameMin, pmm.frameMax,
                      vaddr / 0x1000, PageEntry(paddr, flags), pmm.Used(), space, tables)
      ensures Confined(old(mem), mem, home, tables.Values)
      ensures EntrySet(mem, tables, vaddr / 0x1000, PageEntry(paddr, flags))
      ensures WordsStay(old(mem), mem, home, old(tables), vaddr / 0x1000)
      ensures var d := vaddr / 0x1000 / 1024;
              d !in old(tables) ==>
                tables[d] * 0x1000 < U32 && SlotSet(mem, home, d, DirectoryEntry(tables[d] * 0x1000, flags))
    {
      hide EntrySet, DirectoryEntry, Entry, Large, FrameOf, Present, Confined, Mapped, LowestFree, NoneFree, Edited;
      hide SelfMapped;
      hide FrameAllocator.Used, FrameAllocator.Valid, Moved, PageEntry, TablesStay, WordsStay;
      var page := vaddr / 0x1000;
      StayRefl(mem, home, pmm.Used(), space, tables);
      var d := page / 1024;
      SlotKnown(mem, home, pmm.Used(), space, tables, d);
      ConfinedRefl(mem, home, {});
      var pde := ReadDirectory(d);
      if !Present(pde) {
        AddTable(d, flags);
      }
      ghost var m1 := mem;
      SlotKnown(m1, home, pmm.Used(), space, tables, d);
      WriteTable(d, page % 1024, PageEntry(paddr, flags));
      EntryNowSet(m1, mem, home, tables, page, PageEntry(paddr, flags));
      WordWritten(old(mem), m1, mem, home, pmm.Used(), space, tables, old(tables), page, PageEntry(paddr, flags));
      if d !in old(tables) {
        SlotStays(m1, mem, home, d, DirectoryEntry(tables[d] * 0x1000, flags));
      }
      SlotWritten(m1, mem, home, pmm.Used(), space, tables, page, PageEntry(paddr, flags));
      EditConfined(m1, mem, home, tables[d], page % 1024, PageEntry(paddr, flags), tables.Values);
      ConfinedJoin(old(mem), m1, mem, home, if d in old(tables) then {} else {tables[d]}, tables.Values);
      space := Moved(space, page, PageEntry(paddr, flags));
    }

    /** Frees the frame that a page entry names; frame 0 is nobody's. */
    method ReleaseFrame(e: u32)
      requires pmm.Valid()
      modifies pmm`bitmap, pmm`totalAlloc
      ensures pmm.Valid() && pmm.Used() == old(pmm.Used()) - {FrameOf(e)}
    {
      hide MarkedSet;
      if e / 0x1000 != 0 {
        pmm.Free(e / 0x1000 * 0x1000);
      }
    }

    /** The scan for a present entry in the page table of slot `d`. */
    method TableEmpty(d: nat) returns (empty: bool)
      requires SelfMapped(mem, cr3) && d < 1024 && Present(Entry(mem[cr3], d))
      ensures empty <==> NonePresent(mem[FrameOf(Entry(mem[cr3], d))])
    {
      hide Entry, Present;
      empty := true;
      var i := 0;
      while i < 1024
        invariant i <= 1024 && empty
        invariant forall j: nat :: j < i ==> !Present(Entry(mem[FrameOf(Entry(mem[cr3], d))], j))
      {
        var e := ReadTable(d, i);
        if Present(e) {
          empty := false;
          break;
        }
        i := i + 1;
      }
    }

    /** Gives back the page table of a slot in which nothing is mapped. */
    method DropTable(d: nat)
      requires Ready() && d in tables && d < KERNEL_SLOT && NothingIn(space, d)
      modifies this`mem, this`tables, pmm`bitmap, pmm`totalAlloc
      ensures Ready()
      ensures tables == old(tables) - {d} && pmm.Used() == old(pmm.Used()) - {old(tables)[d]}
      ensures Confined(old(mem), mem, home, {}) && TablesStay(old(mem), mem, home, tables)
    {
      hide Entry, Large, FrameOf, Present, Confined, Mapped, Edited, SelfMapped, FrameAllocator.Used, TablesStay;
      hide FrameAllocator.Valid;
      SlotKnown(mem, home, pmm.Used(), space, tables, d);
      var pde := ReadDirectory(d);
      WriteDirectory(d, 0);
      TableDropped(old(mem), mem, home, pmm.Used(), space, tables, d);
      DroppedStay(old(mem), mem, home, pmm.Used(), space, tables, d);
      EditConfined(old(mem), mem, home, home, d, 0, {});
      ReleaseFrame(pde);
      tables := tables - {d};
    }

    /** Frees the frame of a mapped page and zeroes its entry. */
    method ClearEntry(page: nat, pte: u32)
      requires Ready() && page < KERNEL_PAGE && page / 1024 in tables
      requires page in space && FrameOf(pte) == space[page] && space[page] !in tables.Values
      modifies this`mem, this`space, pmm`bitmap, pmm`totalAlloc
      ensures Ready()
      ensures space == old(space) - {page} && pmm.Used() == old(pmm.Used()) - {old(space)[page]}
      ensures Confined(old(mem), mem, home, tables.Values) && WordsStay(old(mem), mem, home, tables, page)
    {
      hide Entry, Large, FrameOf, Present, Confined, Mapped, Edited, SelfMapped, FrameAllocator.Used, WordsStay;
      hide FrameAllocator.Valid, TablesStay;
      SlotKnown(mem, home, pmm.Used(), space, tables, page / 1024);
      StayRefl(mem, home, pmm.Used(), space, tables);
      ReleaseFrame(pte);
      WriteTable(page / 1024, page % 1024, 0);
      WordWritten(old(mem), old(mem), mem, home, old(pmm.Used()), space, tables, tables, page, 0);
      Cleared(old(mem), mem, home, old(pmm.Used()), space, tables, page);
      space := space - {page};
    }

    /** mem_unmap_page for a user address, in the directory that is active. */
    method UnmapPage(vaddr: u32)
      requires Ready() && vaddr < KERNEL_START
      requires vaddr / 0x1000 in space ==> space[vaddr / 0x1000] !in tables.Values
      modifies this`mem, this`space, this`tables, pmm`bitmap, pmm`totalAlloc
      ensures Ready()
      ensures UnmapStep(old(pmm.Used()), old(space), old(tables), vaddr / 0x1000, pmm.Used(), space, tables)
      ensures Confined(old(mem), mem, home, old(tables).Values)
      ensures WordsStay(old(mem), mem, home, tables, vaddr / 0x1000)
    {
      hide Entry, Large, FrameOf, Present, Confined, Mapped, Edited, SelfMapped, FrameAllocator.Used, TablesStay;
      hide FrameAllocator.Valid, WordsStay;
      var page := vaddr / 0x1000;
      StayRefl(mem, home, pmm.Used(), space, tables);
      StaySame(mem, home, tables, page);
      var d := page / 1024;
      SlotKnown(mem, home, pmm.Used(), space, tables, d);
      ConfinedRefl(mem, home, tables.Values);
      var pde := ReadDirectory(d);
      if !Present(pde) {
        return;
      }
      var pte := ReadTable(d, page % 1024);
      PageKnown(mem, home, pmm.Used(), space, tables, page);
      if !Present(pte) {
        return;
      }
      ClearEntry(page, pte);
      ghost var m1 := mem;
      SlotKnown(mem, home, pmm.Used(), space, tables, d);
      var empty := TableEmpty(d);
      EmptyMeansNothing(mem, home, pmm.Used(), space, tables, d);
      if empty {
        DropTable(d);
        StayJoin(old(mem), m1, mem, home, old(tables), d, page);
        ConfinedJoin(old(mem), m1, mem, home, old(tables).Values, {});
      }
    }

    /** `*(uint8_t*)vaddr = b` at a mapped user address. */
    method WriteByte(vaddr: u32, b: byte)
      requires Ready() && vaddr < KERNEL_START && vaddr / 0x1000 in space
      requires space[vaddr / 0x1000] != home && space[vaddr / 0x1000] !in tables.Values
      modifies this`mem
      ensures Ready()
      ensures ByteStored(old(mem), mem, space, vaddr, b)
    {
      hide Walk, FrameAllocator.Used, FrameAllocator.Valid, TableSays, DirectorySays, TablesOwned, Points;
      WalkIsSpace(mem, home, pmm.Used(), space, tables, vaddr / 0x1000);
      var f := Translate(vaddr / 0x1000);
      mem := WithByte(mem, f, vaddr % 0x1000, b);
      DataWritten(old(mem), mem, home, pmm.Used(), space, tables, f);
    }
  }
}
