/** Allocating, mapping and unmapping user pages with every frame accounted for. */
module PagingOps {
  import opened Bytes
  import opened PageFrames
  import opened Paging
  import opened KernelPaging
  import opened PagingRuns

  /** PRESENT, WRITE and USER. */
  const USER_FLAGS := 7

  ghost function StateOf(mmu: Mmu, held: set<nat>): State
    reads mmu, mmu.pmm
  {
    State(mmu.pmm.Used(), mmu.space, mmu.tables, held)
  }

  /** A usable address space in which every frame is accounted for. */
  ghost predicate Sound(mmu: Mmu, held: set<nat>)
    reads mmu, mmu.pmm
  {
    mmu.Ready() && Kept(StateOf(mmu, held))
  }

  ghost function DirsOf(pages: set<nat>): set<nat> {
    set p | p in pages :: p / 1024
  }

  /** Enough frames in `[lo, hi)` to map `pages`, each once, with the page tables they still need. */
  ghost predicate Enough(used: set<nat>, tables: map<nat, nat>, lo: nat, hi: nat, pages: set<nat>) {
    |used| + |pages| + |DirsOf(pages) - tables.Keys| <= hi - lo
  }

  lemma {:induction false} NoneFreeCount(used: set<nat>, lo: nat, hi: nat)
    requires NoneFree(used, lo, hi) && lo <= hi
    ensures |used| >= hi - lo
  {
    if lo < hi {
      NoneFreeCount(used - {hi - 1}, lo, hi - 1);
    }
  }

  lemma Subset(a: set<nat>, b: set<nat>)
    requires a <= b
    ensures |a| <= |b|
  {
    assert b == a + (b - a);
  }

  /** The frames left after one page of the list has been given its frame and, if need be, its table. */
  lemma EnoughStep(used: set<nat>, tables: map<nat, nat>, lo: nat, hi: nat, pages: set<nat>, page: nat,
                   f: nat, used': set<nat>, tables': map<nat, nat>)
    requires Enough(used, tables, lo, hi, pages) && page in pages && f !in used
    requires page / 1024 in tables' && tables'.Keys == tables.Keys + {page / 1024}
    requires if page / 1024 in tables then used' == used + {f}
             else |used'| <= |used| + 2
    ensures Enough(used', tables', lo, hi, pages - {page})
  {
    var d := page / 1024;
    var needed, needed' := DirsOf(pages) - tables.Keys, DirsOf(pages - {page}) - tables'.Keys;
    assert d in DirsOf(pages);
    Subset(needed', needed - {d});
  }

  lemma EnoughForFrame(used: set<nat>, tables: map<nat, nat>, lo: nat, hi: nat, pages: set<nat>, page: nat)
    requires Enough(used, tables, lo, hi, pages) && page in pages
    ensures !NoneFree(used, lo, hi)
  {
    assert |pages| > 0;
    if NoneFree(used, lo, hi) {
      NoneFreeCount(used, lo, hi);
    }
  }

  lemma EnoughForTable(used: set<nat>, tables: map<nat, nat>, lo: nat, hi: nat, pages: set<nat>, page: nat, f: nat)
    requires Enough(used, tables, lo, hi, pages) && page in pages && page / 1024 !in tables && f !in used
    ensures !NoneFree(used + {f}, lo, hi)
  {
    assert |pages| > 0;
    assert page / 1024 in DirsOf(pages) - tables.Keys;
    if NoneFree(used + {f}, lo, hi) {
      NoneFreeCount(used + {f}, lo, hi);
    }
  }

  /** One page mapped at a frame just allocated: what became of the state. */
  lemma PageAdded(s: State, s1: State, s2: State, lo: nat, hi: nat, page: nat, f: nat, e: u32, pages: set<nat>)
    requires Kept(s) && Step(Allocate(f), lo, hi, s, s1) && Step(Map(page, e), lo, hi, s1, s2) && FrameOf(e) == f
    requires Enough(s.used, s.tables, lo, hi, pages) && page in pages
    ensures Kept(s2) && s2.held == s.held
    ensures s2.space == s.space[page := f]
    ensures Enough(s2.used, s2.tables, lo, hi, pages - {page})
  {
    hide Kept, Enough, FrameOf, Present;
    StepKeeps(Allocate(f), lo, hi, s, s1);
    StepKeeps(Map(page, e), lo, hi, s1, s2);
    assert f !in s.held by {
      InUsed(s);
    }
    EnoughStep(s.used, s.tables, lo, hi, pages, page, f, s2.used, s2.tables);
  }

  lemma InUsed(s: State)
    requires Kept(s)
    ensures s.held <= s.used && s.space.Values <= s.used && s.tables.Values <= s.used
    ensures s.space.Values !! s.tables.Values && Injective(s.space)
  {
    hide Tidy, Injective;
  }

  /** An allocation while frames are left keeps the address space. */
  method TakeFrame(mmu: Mmu) returns (paddr: nat)
    requires mmu.Ready() && !NoneFree(mmu.pmm.Used(), mmu.pmm.frameMin, mmu.pmm.frameMax)
    modifies mmu.pmm`bitmap, mmu.pmm`totalAlloc
    ensures mmu.Ready() && paddr != 0 && paddr < U32
    ensures LowestFree(old(mmu.pmm.Used()), mmu.pmm.frameMin, mmu.pmm.frameMax, paddr / 0x1000)
    ensures mmu.pmm.Used() == old(mmu.pmm.Used()) + {paddr / 0x1000}
  {
    hide FrameAllocator.Used, Mapped, NoneFree;
    ghost var used := mmu.pmm.Used();
    paddr := mmu.pmm.Alloc();
    FreshFrame(mmu.mem, mmu.home, used, mmu.space, mmu.tables, mmu.pmm.frameMin, mmu.pmm.frameMax, paddr / 0x1000);
    FrameGiven(mmu.mem, mmu.home, used, mmu.space, mmu.tables, paddr / 0x1000);
  }

  lemma FrameGiven(m: Memory, dir: nat, used: set<nat>, space: map<nat, nat>, tables: map<nat, nat>, f: nat)
    requires Mapped(m, dir, used, space, tables) && f < FRAMES && f != dir
    ensures Mapped(m, dir, used + {f}, space, tables)
  {
    hide Entry, TableSays, DirectorySays, Points, Injective;
  }

  /** Bits 0, 1 and 2 of an entry: present, writable, and open to user mode. */
  predicate UserBits(e: u32) {
    e % 2 == 1 && e / 2 % 2 == 1 && e / 4 % 2 == 1
  }

  /** Every page table in use is open to user mode. */
  ghost predicate UserTables(m: Memory, dir: nat, tables: map<nat, nat>) {
    && Physical(m) && dir < FRAMES
    && forall d :: d in tables && d < 1024 ==> UserBits(Word(m[dir], 4 * d))
  }

  /** The directory entry and the page-table entry through which the processor reaches `page` both are. */
  ghost predicate UserPage(m: Memory, dir: nat, page: nat) {
    && Physical(m) && dir < FRAMES && page < FRAMES
    && var pde := Word(m[dir], 4 * (page / 1024));
       UserBits(pde) && UserBits(Word(m[pde / 0x1000], 4 * (page % 1024)))
  }

  /** What was mapped keeps its words, in the page tables and in the directory. */
  ghost predicate OldWords(m: Memory, s: State, m': Memory, s': State, dir: nat)
    requires Physical(m) && Physical(m') && dir < FRAMES
  {
    && (forall d :: d in s.tables ==>
          && d in s'.tables && s'.tables[d] == s.tables[d]
          && (d < 1024 ==> Entry(m'[dir], d) == Entry(m[dir], d)))
    && (forall p :: p in s.space ==> p in s'.space)
    && forall p :: p in s.space && p / 1024 in s.tables && s.tables[p / 1024] < FRAMES ==>
         Entry(m'[s.tables[p / 1024]], p % 1024) == Entry(m[s.tables[p / 1024]], p % 1024)
  }

  /** What is newly mapped is open to user mode, and so are the directory entries of new page tables. */
  ghost predicate NewWords(s: State, m': Memory, s': State, dir: nat)
    requires Physical(m') && dir < FRAMES
  {
    && (forall d :: d in s'.tables && d !in s.tables ==>
          d < 1024 && s'.tables[d] < FRAMES && UserBits(Entry(m'[dir], d)))
    && forall p :: p in s'.space && p !in s.space ==>
         && p / 1024 in s'.tables && s'.tables[p / 1024] < FRAMES
         && UserBits(Entry(m'[s'.tables[p / 1024]], p % 1024))
  }

  ghost predicate Opened(m: Memory, s: State, m': Memory, s': State, dir: nat) {
    && Physical(m) && Physical(m') && dir < FRAMES
    && OldWords(m, s, m', s', dir) && NewWords(s, m', s', dir)
  }

  lemma OpenedTrans(m: Memory, s: State, m1: Memory, s1: State, m2: Memory, s2: State, dir: nat)
    requires Opened(m, s, m1, s1, dir) && Opened(m1, s1, m2, s2, dir)
    ensures Opened(m, s, m2, s2, dir)
  {
    hide Entry, UserBits, Physical;
  }

  lemma OpenedRefl(m: Memory, s: State, dir: nat)
    requires Physical(m) && dir < FRAMES
    ensures Opened(m, s, m, s, dir)
  {
    hide Entry, UserBits;
  }

  /** A store outside the page tables changes none of the words. */
  lemma StoredOpened(m: Memory, m': Memory, s: State, dir: nat, f: nat)
    requires Physical(m) && Physical(m') && dir < FRAMES && f != dir && f !in s.tables.Values
    requires forall g :: 0 <= g < FRAMES && g != f ==> m'[g] == m[g]
    ensures Opened(m, s, m', s, dir)
  {
    hide Entry, UserBits, Physical;
  }

  /** Page tables stay open, and the pages added are open too. */
  lemma OpenedTables(m: Memory, s: State, m': Memory, s': State, dir: nat)
    requires Opened(m, s, m', s', dir) && UserTables(m, dir, s.tables)
    ensures UserTables(m', dir, s'.tables)
  {
    hide Word, UserBits, Physical;
  }

  lemma OpenedPage(m: Memory, s: State, m': Memory, s': State, dir: nat, page: nat)
    requires Opened(m, s, m', s', dir) && UserTables(m', dir, s'.tables)
    requires Mapped(m', dir, s'.used, s'.space, s'.tables) && page in s'.space && page !in s.space
    ensures UserPage(m', dir, page)
  {
    hide Word, UserBits, TableSays, TablesOwned, SelfMapped, Present, Large, OldWords;
  }

  lemma NewPageOpened(m: Memory, s: State, m': Memory, s': State, dir: nat, page: nat, e: u32, de: u32)
    requires WordsStay(m, m', dir, s.tables, page) && page !in s.space
    requires page in s'.space && s'.space == s.space[page := s'.space[page]]
    requires TableAddedFor(s.tables, s'.tables, page / 1024)
    requires EntrySet(m', s'.tables, page, e) && UserBits(e)
    requires page / 1024 !in s.tables ==> SlotSet(m', dir, page / 1024, de) && UserBits(de)
    ensures Opened(m, s, m', s', dir)
  {
    hide Entry, UserBits, Physical;
  }

  /** Slot `d` has a page table, a new one if it had none; the other tables are the same. */
  ghost predicate TableAddedFor(tables: map<nat, nat>, tables': map<nat, nat>, d: nat) {
    d in tables' && tables' == if d in tables then tables else tables[d := tables'[d]]
  }

  /** pmm_alloc_page_frame followed by mem_map_page at a page that is not mapped. */
  method MapNew(mmu: Mmu, page: nat, ghost held: set<nat>, ghost pages: set<nat>) returns (ok: bool)
    requires Sound(mmu, held) && page < KERNEL_PAGE && page !in mmu.space && page in pages
    requires Enough(mmu.pmm.Used(), mmu.tables, mmu.pmm.frameMin, mmu.pmm.frameMax, pages)
    modifies mmu`mem, mmu`space, mmu`tables, mmu.pmm`bitmap, mmu.pmm`totalAlloc
    ensures ok && Sound(mmu, held)
    ensures page in mmu.space && mmu.space == old(mmu.space)[page := mmu.space[page]]
    ensures Enough(mmu.pmm.Used(), mmu.tables, mmu.pmm.frameMin, mmu.pmm.frameMax, pages - {page})
    ensures Confined(old(mmu.mem), mmu.mem, mmu.home, mmu.tables.Values)
    ensures old(mmu.tables).Values <= mmu.tables.Values
    ensures TableAddedFor(old(mmu.tables), mmu.tables, page / 1024)
    ensures Opened(old(mmu.mem), old(StateOf(mmu, held)), mmu.mem, StateOf(mmu, held), mmu.home)
  {
    hide EntrySet, SlotSet, DirectoryEntry, PageEntry, Opened, WordsStay, UserBits;
    hide TableAddedFor, Enough, FrameOf, Present, Kept, Confined, Mmu.Valid, NoneFree, FrameAllocator.Used;
    hide LowestFree, MapStep;
    ghost var s := StateOf(mmu, held);
    ghost var lo, hi := mmu.pmm.frameMin, mmu.pmm.frameMax;
    EnoughForFrame(s.used, s.tables, lo, hi, pages, page);
    var paddr := TakeFrame(mmu);
    if paddr == 0 {
      assert false;
      return false;
    }
    ok := true;
    ghost var f, e := paddr / 0x1000, PageEntry(paddr, USER_FLAGS);
    TableLeft(s.used, s.tables, lo, hi, pages, page, f);
    EntryOpens(paddr);
    mmu.MapPage(page * 0x1000, paddr, USER_FLAGS);
    NewPageKeeps(s, mmu.pmm.Used(), mmu.space, mmu.tables, lo, hi, page, f, e, pages);
    HasTable(s.tables, mmu.tables, page / 1024);
    ghost var de: u32 := 0;
    if page / 1024 !in s.tables {
      EntryOpens(mmu.tables[page / 1024] * 0x1000);
      de := DirectoryEntry(mmu.tables[page / 1024] * 0x1000, USER_FLAGS);
    }
    NewPageOpened(old(mmu.mem), s, mmu.mem, StateOf(mmu, held), mmu.home, page, e, de);
  }

  /** The flags that elf_load passes on open the entries made for them. */
  lemma EntryOpens(paddr: u32)
    ensures UserBits(PageEntry(paddr, USER_FLAGS)) && UserBits(DirectoryEntry(paddr, USER_FLAGS))
    ensures Present(PageEntry(paddr, USER_FLAGS)) && FrameOf(PageEntry(paddr, USER_FLAGS)) == paddr / 0x1000
  {
    hide PageEntry, DirectoryEntry;
    LowBitsOpen(PageEntry(paddr, USER_FLAGS));
    LowBitsOpen(DirectoryEntry(paddr, USER_FLAGS));
  }

  lemma LowBitsOpen(e: u32)
    requires e % 0x1000 == 7
    ensures UserBits(e)
  {
    var q := e / 0x1000;
    assert e / 2 == 0x800 * q + 3 && e / 4 == 0x400 * q + 1;
    EvenSum(0x800 * q + 3, 1);
    EvenSum(0x400 * q + 1, 1);
    EvenSum(0x200 * q, 1);
  }

  lemma HasTable(tables: map<nat, nat>, tables': map<nat, nat>, d: nat)
    requires TableAddedFor(tables, tables', d)
    ensures d in tables'
  {
  }

  lemma TableLeft(used: set<nat>, tables: map<nat, nat>, lo: nat, hi: nat, pages: set<nat>, page: nat, f: nat)
    requires Enough(used, tables, lo, hi, pages) && page in pages && LowestFree(used, lo, hi, f)
    ensures page / 1024 in tables || !NoneFree(used + {f}, lo, hi)
  {
    hide Enough, NoneFree;
    if page / 1024 !in tables {
      EnoughForTable(used, tables, lo, hi, pages, page, f);
    }
  }

  lemma NewPageKeeps(s: State, used2: set<nat>, space2: map<nat, nat>, tables2: map<nat, nat>,
                     lo: nat, hi: nat, page: nat, f: nat, e: u32, pages: set<nat>)
    requires Kept(s) && LowestFree(s.used, lo, hi, f) && page !in s.space
    requires Present(e) && FrameOf(e) == f
    requires MapStep(s.used + {f}, s.space, s.tables, lo, hi, page, e, used2, space2, tables2)
    requires Enough(s.used, s.tables, lo, hi, pages) && page in pages
    ensures Kept(State(used2, space2, tables2, s.held))
    ensures space2 == s.space[page := f]
    ensures Enough(used2, tables2, lo, hi, pages - {page})
    ensures s.tables.Values <= tables2.Values
    ensures TableAddedFor(s.tables, tables2, page / 1024)
  {
    hide Kept, Enough, FrameOf, Present, LowestFree;
    var s1 := s.(used := s.used + {f}, held := s.held + {f});
    assert f !in s.held by {
      InUsed(s);
      assert f !in s.used by {
        NotUsed(s.used, lo, hi, f);
      }
    }
    assert s1.held - {f} == s.held;
    PageAdded(s, s1, State(used2, space2, tables2, s.held), lo, hi, page, f, e, pages);
  }

  lemma NotUsed(used: set<nat>, lo: nat, hi: nat, f: nat)
    requires LowestFree(used, lo, hi, f)
    ensures f !in used
  {
  }

  /** mem_unmap_page in a sound address space is the run's step. */
  method UnmapOne(mmu: Mmu, page: nat, ghost held: set<nat>)
    requires Sound(mmu, held) && page < KERNEL_PAGE
    modifies mmu`mem, mmu`space, mmu`tables, mmu.pmm`bitmap, mmu.pmm`totalAlloc
    ensures Sound(mmu, held)
    ensures Step(Unmap(page), mmu.pmm.frameMin, mmu.pmm.frameMax, old(StateOf(mmu, held)), StateOf(mmu, held))
    ensures Confined(old(mmu.mem), mmu.mem, mmu.home, old(mmu.tables).Values)
  {
    hide Mmu.Valid, Kept, UnmapStep, FrameAllocator.Used, Confined;
    ghost var s := StateOf(mmu, held);
    InUsed(s);
    assert page in mmu.space ==> mmu.space[page] in mmu.space.Values;
    mmu.UnmapPage(page * 0x1000);
    StepKeeps(Unmap(page), mmu.pmm.frameMin, mmu.pmm.frameMax, s, StateOf(mmu, held));
  }

  /** The user half of the address space translates every page as the map says. */
  ghost predicate SameTranslation(m: Memory, m': Memory, dir: nat)
    requires Physical(m) && Physical(m') && dir < FRAMES
  {
    forall page: nat :: page < KERNEL_PAGE ==> Walk(m', dir, page) == Walk(m, dir, page)
  }

  lemma SameSpaceSameTranslation(m: Memory, m': Memory, dir: nat, s: State, s': State)
    requires Mapped(m, dir, s.used, s.space, s.tables) && Mapped(m', dir, s'.used, s'.space, s'.tables)
    requires s.space == s'.space
    ensures Physical(m) && Physical(m') && dir < FRAMES && SameTranslation(m, m', dir)
  {
    hide Walk, TableSays, DirectorySays, TablesOwned, Points;
    forall page: nat | page < KERNEL_PAGE ensures Walk(m', dir, page) == Walk(m, dir, page) {
      WalkIsSpace(m, dir, s.used, s.space, s.tables, page);
      WalkIsSpace(m', dir, s'.used, s'.space, s'.tables, page);
    }
  }

  /** The state after mapping a new page and unmapping it again. */
  lemma UnmapUndoes(s: State, s1: State, s2: State, lo: nat, hi: nat, page: nat)
    requires Kept(s) && InTables(s) && Kept(s2) && page !in s.space && s2.held == s.held
    requires page in s1.space && s1.space == s.space[page := s1.space[page]]
    requires TableAddedFor(s.tables, s1.tables, page / 1024)
    requires Step(Unmap(page), lo, hi, s1, s2)
    ensures s2 == s
  {
    hide Kept, NothingIn, UnmapStep;
    var d := page / 1024;
    assert s1.space - {page} == s.space;
    TablesIff(s, d);
    assert d !in s.tables ==> s1.tables - {d} == s.tables;
    UnmapIs(s1.used, s1.space, s1.tables, page, s2.used, s2.space, s2.tables);
    UsedIs(s);
    UsedIs(s2);
  }

  lemma TablesIff(s: State, d: nat)
    requires Kept(s) && InTables(s)
    ensures NothingIn(s.space, d) <==> d !in s.tables
  {
    hide Accounted;
  }

  lemma UnmapIs(used: set<nat>, space: map<nat, nat>, tables: map<nat, nat>, page: nat,
                used': set<nat>, space': map<nat, nat>, tables': map<nat, nat>)
    requires UnmapStep(used, space, tables, page, used', space', tables') && page in space && page / 1024 in tables
    ensures space' == space - {page}
    ensures tables' == if NothingIn(space', page / 1024) then tables - {page / 1024} else tables
  {
    hide NothingIn;
  }

  lemma UsedIs(s: State)
    requires Kept(s)
    ensures s.used == s.space.Values + s.tables.Values + s.held
  {
    hide Tidy, Injective;
  }

  lemma SpaceInTables(m: Memory, dir: nat, s: State)
    requires Mapped(m, dir, s.used, s.space, s.tables)
    ensures InTables(s) && Physical(m) && dir < FRAMES
  {
    hide TableSays, DirectorySays, TablesOwned, Points;
  }

  /**
   * Mapping a fresh frame at a free page and unmapping the page again: every translation, every page table and the set
   * of allocated frames are what they were, though a page table may have come and gone.
   */
  method MapAndUnmap(mmu: Mmu, page: nat, ghost held: set<nat>)
    requires Sound(mmu, held) && page < KERNEL_PAGE && page !in mmu.space
    requires Enough(mmu.pmm.Used(), mmu.tables, mmu.pmm.frameMin, mmu.pmm.frameMax, {page})
    modifies mmu`mem, mmu`space, mmu`tables, mmu.pmm`bitmap, mmu.pmm`totalAlloc
    ensures Sound(mmu, held) && StateOf(mmu, held) == old(StateOf(mmu, held))
    ensures Physical(old(mmu.mem)) && Physical(mmu.mem) && mmu.home < FRAMES
    ensures SameTranslation(old(mmu.mem), mmu.mem, mmu.home)
  {
    hide Enough, Kept, Mapped, Confined, FrameAllocator.Used, FrameAllocator.Valid, TableAddedFor, SameTranslation;
    hide UnmapStep, InTables, Physical;
    ghost var m, s := mmu.mem, StateOf(mmu, held);
    SpaceInTables(m, mmu.home, s);
    var _ := MapNew(mmu, page, held, {page});
    ghost var s1 := StateOf(mmu, held);
    UnmapOne(mmu, page, held);
    ghost var s2 := StateOf(mmu, held);
    UnmapUndoes(s, s1, s2, mmu.pmm.frameMin, mmu.pmm.frameMax, page);
    SameSpaceSameTranslation(m, mmu.mem, mmu.home, s, s2);
  }

  /** The frames a sound address space changes are not among those held, and neither is its directory. */
  lemma HeldApart(mmu: Mmu, held: set<nat>)
    requires Sound(mmu, held)
    ensures held !! mmu.tables.Values && held !! mmu.space.Values && mmu.home !in held
    ensures Physical(mmu.mem) && mmu.home < FRAMES
  {
    hide FrameAllocator.Used, FrameAllocator.Valid, TableSays, DirectorySays, Points, Injective, Tidy;
  }
}
