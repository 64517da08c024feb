/** elf_load: segments mapped page by page and copied through the new address space. */
module ElfLoader {
  import opened Bytes
  import opened PageFrames
  import opened Paging
  import opened KernelPaging
  import opened PagingRuns
  import opened PagingOps
  import opened Elf

  // Copying through the new address space.

  /** The frames an address space is made of, its directory apart. */
  ghost function Own(s: State): set<nat> {
    s.tables.Values + s.space.Values
  }

  /**
   * From memory `m` and state `s` to `m'` and `s'`: mapped bytes outside `[lo, hi)` are kept, and no frame changed but
   * those of the address space; what was mapped keeps its entries, and what is newly mapped is open to user mode.
   */
  ghost predicate Progress(m: Memory, s: State, m': Memory, s': State, dir: nat, lo: nat, hi: nat) {
    && KeptOutside(m, s.space, m', s'.space, lo, hi)
    && Confined(m, m', dir, Own(s'))
    && Own(s) <= Own(s')
    && Opened(m, s, m', s', dir)
  }

  lemma ProgressTrans(m: Memory, s: State, m1: Memory, s1: State, m2: Memory, s2: State, dir: nat,
                      lo: nat, hi: nat, lo1: nat, hi1: nat)
    requires Progress(m, s, m1, s1, dir, lo, hi) && Progress(m1, s1, m2, s2, dir, lo1, hi1)
    requires lo == hi || (lo1 <= lo && hi <= hi1)
    ensures Progress(m, s, m2, s2, dir, lo1, hi1)
  {
    hide KeptOutside, Confined, Own, Opened;
    OpenedTrans(m, s, m1, s1, m2, s2, dir);
    KeptTrans(m, s.space, m1, s1.space, m2, s2.space, lo, hi, lo1, hi1);
    ConfinedJoin(m, m1, m2, dir, Own(s1), Own(s2));
  }

  lemma ProgressKeeps(m: Memory, s: State, m': Memory, s': State, dir: nat, lo: nat, hi: nat)
    requires Progress(m, s, m', s', dir, lo, hi)
    ensures KeptOutside(m, s.space, m', s'.space, lo, hi)
  {
    hide KeptOutside, Opened;
  }

  /** A run of stores from `vaddr` gets one byte longer. */
  lemma ProgressMore(m: Memory, m1: Memory, m2: Memory, s: State, dir: nat, vaddr: nat, i: nat)
    requires Progress(m, s, m1, s, dir, vaddr, vaddr + i)
    requires Progress(m1, s, m2, s, dir, vaddr + i, vaddr + i + 1)
    ensures Progress(m, s, m2, s, dir, vaddr, vaddr + i + 1)
  {
    ProgressWiden(m1, s, m2, s, dir, vaddr + i, vaddr + i + 1, vaddr, vaddr + i + 1);
    ProgressTrans(m, s, m1, s, m2, s, dir, vaddr, vaddr + i, vaddr, vaddr + i + 1);
    hide Progress;
  }

  lemma ProgressWiden(m: Memory, s: State, m': Memory, s': State, dir: nat, lo: nat, hi: nat, lo1: nat, hi1: nat)
    requires Progress(m, s, m', s', dir, lo, hi) && lo1 <= lo && hi <= hi1
    ensures Progress(m, s, m', s', dir, lo1, hi1)
  {
    hide Confined, HasByte, Own, Opened;
  }

  lemma ProgressRefl(m: Memory, s: State, dir: nat, at: nat)
    requires Physical(m) && dir < FRAMES
    ensures Progress(m, s, m, s, dir, at, at)
  {
    hide HasByte, Opened;
    OpenedRefl(m, s, dir);
    ConfinedRefl(m, dir, Own(s));
  }

  lemma ConfinedMore(m: Memory, m': Memory, dir: nat, own: set<nat>, own': set<nat>)
    requires Confined(m, m', dir, own) && own <= own'
    ensures Confined(m, m', dir, own')
  {
    hide Entry;
  }

  /** Loading leaves the kernel half alone, if its page tables are among the frames held. */
  lemma ProgressKernel(m: Memory, s: State, m': Memory, s': State, dir: nat, lo: nat, hi: nat, kernel: set<nat>)
    requires Progress(m, s, m', s', dir, lo, hi) && Kept(s') && kernel <= s'.held && dir !in s'.used
    requires KernelTables(m, dir, kernel)
    ensures KernelTables(m', dir, kernel) && SameKernel(m, m', dir)
  {
    hide KeptOutside, Confined, Tidy, Injective, KernelTables, SameKernel, Opened;
    KernelHalfKept(m, m', dir, Own(s'), kernel);
  }

  lemma NewPageProgress(m: Memory, m': Memory, dir: nat, s: State, s': State, page: nat)
    requires Kept(s) && Kept(s') && dir !in s.used
    requires page !in s.space && page in s'.space && s'.space == s.space[page := s'.space[page]]
    requires Confined(m, m', dir, s'.tables.Values) && s.tables.Values <= s'.tables.Values
    requires Opened(m, s, m', s', dir)
    ensures Progress(m, s, m', s', dir, 0, 0)
  {
    hide Kept, KeptOutside, Confined, Opened;
    InUsed(s);
    InUsed(s');
    ValuesGrow(s.space, page, s'.space[page]);
    MappingKeeps(m, m', dir, s'.tables.Values, s.space, page, s'.space[page]);
    ConfinedMore(m, m', dir, s'.tables.Values, Own(s'));
  }

  lemma ValuesGrow(f: map<nat, nat>, x: nat, v: nat)
    requires x !in f
    ensures f.Values <= f[x := v].Values
  {
    forall w | w in f.Values ensures w in f[x := v].Values {
      var y :| y in f && f[y] == w;
      assert f[x := v][y] == w;
    }
  }

  lemma StoredProgress(m: Memory, m': Memory, dir: nat, s: State, vaddr: nat, b: byte)
    requires Kept(s) && dir !in s.used && Physical(m') && dir < FRAMES && ByteStored(m, m', s.space, vaddr, b)
    ensures HasByte(m', s.space, vaddr, b)
    ensures Progress(m, s, m', s, dir, vaddr, vaddr + 1)
  {
    hide Kept, KeptOutside, HasByte, Entry, Opened;
    InUsed(s);
    ByteWritten(m, m', s.space, vaddr, b);
    var f := s.space[vaddr / 0x1000];
    assert f in s.space.Values;
    StoredOpened(m, m', s, dir, f);
  }

  /** memcpy to mapped user addresses. */
  method CopyBytes(mmu: Mmu, vaddr: nat, data: seq<byte>, ghost held: set<nat>)
    requires Sound(mmu, held) && vaddr + |data| <= KERNEL_START
    requires AllMapped(mmu.space, vaddr, vaddr + |data|)
    modifies mmu`mem
    ensures Sound(mmu, held)
    ensures Holds(mmu.mem, mmu.space, vaddr, data)
    ensures Progress(old(mmu.mem), old(StateOf(mmu, held)), mmu.mem, StateOf(mmu, held), mmu.home,
                     vaddr, vaddr + |data|)
  {
    hide Kept, HasByte, Mmu.Valid, Progress, KeptOutside, Opened;
    ghost var s := StateOf(mmu, held);
    SoundFacts(mmu, held);
    ProgressRefl(mmu.mem, s, mmu.home, vaddr);
    var i := 0;
    while i < |data|
      invariant i <= |data|
      invariant Sound(mmu, held) && StateOf(mmu, held) == s
      invariant Progress(old(mmu.mem), s, mmu.mem, s, mmu.home, vaddr, vaddr + i)
      invariant Holds(mmu.mem, s.space, vaddr, data[..i])
    {
      ghost var m := mmu.mem;
      Store(mmu, vaddr, i, data[i], held);
      ProgressKeeps(m, s, mmu.mem, s, mmu.home, vaddr + i, vaddr + i + 1);
      HoldsMore(m, mmu.mem, s.space, vaddr, data, i);
      ProgressMore(old(mmu.mem), m, mmu.mem, s, mmu.home, vaddr, i);
      i := i + 1;
    }
    assert data[..i] == data;
  }

  /** memset to zero of mapped user addresses. */
  method ClearBytes(mmu: Mmu, vaddr: nat, n: nat, ghost held: set<nat>)
    requires Sound(mmu, held) && vaddr + n <= KERNEL_START
    requires AllMapped(mmu.space, vaddr, vaddr + n)
    modifies mmu`mem
    ensures Sound(mmu, held)
    ensures Zeroed(mmu.mem, mmu.space, vaddr, n)
    ensures Progress(old(mmu.mem), old(StateOf(mmu, held)), mmu.mem, StateOf(mmu, held), mmu.home, vaddr, vaddr + n)
  {
    hide Kept, HasByte, Mmu.Valid, Progress, KeptOutside, Opened;
    ghost var s := StateOf(mmu, held);
    SoundFacts(mmu, held);
    ProgressRefl(mmu.mem, s, mmu.home, vaddr);
    var i := 0;
    while i < n
      invariant i <= n
      invariant Sound(mmu, held) && StateOf(mmu, held) == s
      invariant Progress(old(mmu.mem), s, mmu.mem, s, mmu.home, vaddr, vaddr + i)
      invariant Zeroed(mmu.mem, s.space, vaddr, i)
    {
      ghost var m := mmu.mem;
      Store(mmu, vaddr, i, 0, held);
      ProgressKeeps(m, s, mmu.mem, s, mmu.home, vaddr + i, vaddr + i + 1);
      ZeroedMore(m, mmu.mem, s.space, vaddr, i);
      ProgressMore(old(mmu.mem), m, mmu.mem, s, mmu.home, vaddr, i);
      i := i + 1;
    }
  }

  lemma SoundFacts(mmu: Mmu, held: set<nat>)
    requires Sound(mmu, held)
    ensures Physical(mmu.mem) && mmu.home < FRAMES && mmu.home !in mmu.pmm.Used()
  {
    hide FrameAllocator.Used, FrameAllocator.Valid, Kept, TableSays, DirectorySays, Points, Injective;
  }

  lemma FrameOfPage(mmu: Mmu, held: set<nat>, page: nat)
    requires Sound(mmu, held) && page in mmu.space
    ensures mmu.space[page] != mmu.home && mmu.space[page] !in mmu.tables.Values
  {
    SoundFacts(mmu, held);
    InUsed(StateOf(mmu, held));
    hide FrameAllocator.Used, FrameAllocator.Valid, Kept, Mapped;
    assert mmu.space[page] in mmu.space.Values;
  }

  /** One byte of a copy: byte `i` from `vaddr`. */
  method Store(mmu: Mmu, vaddr: nat, i: nat, b: byte, ghost held: set<nat>)
    requires Sound(mmu, held) && vaddr + i < KERNEL_START && (vaddr + i) / 0x1000 in mmu.space
    modifies mmu`mem
    ensures Sound(mmu, held) && StateOf(mmu, held) == old(StateOf(mmu, held))
    ensures HasByte(mmu.mem, mmu.space, vaddr + i, b)
    ensures Progress(old(mmu.mem), StateOf(mmu, held), mmu.mem, StateOf(mmu, held), mmu.home, vaddr + i, vaddr + i + 1)
  {
    hide Kept, HasByte, Mmu.Valid, Progress, KeptOutside, Opened, ByteStored, FrameAllocator.Used;
    FrameOfPage(mmu, held, (vaddr + i) / 0x1000);
    mmu.WriteByte(vaddr + i, b);
    SoundFacts(mmu, held);
    StoredProgress(old(mmu.mem), mmu.mem, mmu.home, StateOf(mmu, held), vaddr + i, b);
  }

  // Segments.

  predicate InSpan(p: nat, a: nat, n: nat) {
    a <= p < a + n
  }

  ghost function Span(a: nat, n: nat): set<nat> {
    set p | 0 <= p < a + n && InSpan(p, a, n)
  }

  lemma SpanStep(a: nat, x: nat, n: nat)
    requires x < n
    ensures Span(a, x + 1) == Span(a, x) + {a + x} && a + x in Span(a, n) && a + x !in Span(a, x)
  {
    assert InSpan(a + x, a, n) && !InSpan(a + x, a, x) && InSpan(a + x, a, x + 1);
  }

  lemma SpanNone(a: nat)
    ensures Span(a, 0) == {}
  {
  }

  /** Maps `n` pages from page `a` on at fresh frames. */
  method MapPages(mmu: Mmu, a: nat, n: nat, ghost held: set<nat>, ghost pages: set<nat>) returns (ok: bool)
    requires Sound(mmu, held) && a + n <= KERNEL_PAGE
    requires Span(a, n) <= pages && Span(a, n) !! mmu.space.Keys
    requires Enough(mmu.pmm.Used(), mmu.tables, mmu.pmm.frameMin, mmu.pmm.frameMax, pages)
    modifies mmu`mem, mmu`space, mmu`tables, mmu.pmm`bitmap, mmu.pmm`totalAlloc
    ensures ok && Sound(mmu, held)
    ensures mmu.space.Keys == old(mmu.space).Keys + Span(a, n)
    ensures Enough(mmu.pmm.Used(), mmu.tables, mmu.pmm.frameMin, mmu.pmm.frameMax, pages - Span(a, n))
    ensures Progress(old(mmu.mem), old(StateOf(mmu, held)), mmu.mem, StateOf(mmu, held), mmu.home, 0, 0)
  {
    hide Kept, HasByte, Mmu.Valid, Progress, KeptOutside, Opened, Enough, Confined, FrameAllocator.Used, Span;
    ghost var s0 := StateOf(mmu, held);
    ghost var m0 := mmu.mem;
    SpanNone(a);
    SoundFacts(mmu, held);
    ProgressRefl(mmu.mem, s0, mmu.home, 0);
    assert pages - Span(a, 0) == pages;
    var x := 0;
    while x < n
      invariant x <= n && Sound(mmu, held)
      invariant mmu.space.Keys == s0.space.Keys + Span(a, x)
      invariant Enough(mmu.pmm.Used(), mmu.tables, mmu.pmm.frameMin, mmu.pmm.frameMax, pages - Span(a, x))
      invariant Progress(m0, s0, mmu.mem, StateOf(mmu, held), mmu.home, 0, 0)
    {
      ghost var s, m := StateOf(mmu, held), mmu.mem;
      SoundFacts(mmu, held);
      SpanStep(a, x, n);
      ok := MapNew(mmu, a + x, held, pages - Span(a, x));
      if !ok {
        assert false;
        return;
      }
      NewPageProgress(m, mmu.mem, mmu.home, s, StateOf(mmu, held), a + x);
      ProgressTrans(m0, s0, m, s, mmu.mem, StateOf(mmu, held), mmu.home, 0, 0, 0, 0);
      assert pages - Span(a, x + 1) == pages - Span(a, x) - {a + x};
      x := x + 1;
    }
    ok := true;
  }

  ghost function PagesOf(seg: Segment): set<nat> {
    Span(seg.vaddr / 0x1000, PageCount(seg))
  }

  lemma SegmentMapped(seg: Segment, file: seq<byte>, space: map<nat, nat>)
    requires Loadable(seg, file) && seg.kind == PT_LOAD && PagesOf(seg) <= space.Keys
    ensures AllMapped(space, seg.vaddr, seg.vaddr + seg.filesz)
    ensures AllMapped(space, seg.vaddr + seg.filesz, seg.vaddr + seg.memsz)
  {
    forall p: nat | seg.vaddr / 0x1000 <= p && p * 0x1000 < seg.vaddr + seg.memsz ensures p in space {
      assert InSpan(p, seg.vaddr / 0x1000, PageCount(seg));
    }
  }

  lemma SegmentUnmapped(seg: Segment, file: seq<byte>, space: map<nat, nat>, p: nat)
    requires Loadable(seg, file) && seg.kind == PT_LOAD && PagesOf(seg) !! space.Keys && p in space
    ensures p < seg.vaddr / 0x1000 || seg.vaddr + seg.memsz <= p * 0x1000
  {
    assert !InSpan(p, seg.vaddr / 0x1000, PageCount(seg));
  }

  /** The bytes of a segment: memcpy of the file's part, memset of the rest. */
  method FillSegment(mmu: Mmu, file: seq<byte>, seg: Segment, ghost held: set<nat>)
    requires Sound(mmu, held) && Loadable(seg, file) && seg.kind == PT_LOAD
    requires PagesOf(seg) <= mmu.space.Keys
    modifies mmu`mem
    ensures Sound(mmu, held)
    ensures LoadedTo(mmu.mem, mmu.space, file, seg, seg.memsz)
    ensures Progress(old(mmu.mem), old(StateOf(mmu, held)), mmu.mem, StateOf(mmu, held), mmu.home,
                     seg.vaddr, seg.vaddr + seg.memsz)
  {
    hide Kept, HasByte, Mmu.Valid, Progress, KeptOutside, Opened, Holds, Zeroed, AllMapped, LoadedTo;
    hide FrameAllocator.Used;
    SegmentMapped(seg, file, mmu.space);
    var data := file[seg.offset..seg.offset + seg.filesz];
    ghost var m0, s := mmu.mem, StateOf(mmu, held);
    if seg.filesz > 0 {
      CopyBytes(mmu, seg.vaddr, data, held);
    } else {
      SoundFacts(mmu, held);
      ProgressRefl(m0, s, mmu.home, seg.vaddr);
      HoldsNothing(m0, mmu.space, seg.vaddr, data);
    }
    ghost var m1 := mmu.mem;
    var at, rest := seg.vaddr + seg.filesz, seg.memsz - seg.filesz;
    if seg.memsz > seg.filesz {
      ClearBytes(mmu, at, rest, held);
    } else {
      SoundFacts(mmu, held);
      ProgressRefl(m1, s, mmu.home, at);
      ZeroedNothing(m1, mmu.space, at);
    }
    FilledSegment(m0, m1, mmu.mem, s, mmu.home, file, seg);
  }

  lemma HoldsNothing(m: Memory, space: map<nat, nat>, vaddr: nat, data: seq<byte>)
    requires data == []
    ensures Holds(m, space, vaddr, data)
  {
  }

  lemma ZeroedNothing(m: Memory, space: map<nat, nat>, vaddr: nat)
    ensures Zeroed(m, space, vaddr, 0)
  {
  }

  lemma FilledSegment(m0: Memory, m1: Memory, m2: Memory, s: State, dir: nat, file: seq<byte>, seg: Segment)
    requires Loadable(seg, file) && seg.kind == PT_LOAD
    requires Holds(m1, s.space, seg.vaddr, file[seg.offset..seg.offset + seg.filesz])
    requires Progress(m0, s, m1, s, dir, seg.vaddr, seg.vaddr + seg.filesz)
    requires Progress(m1, s, m2, s, dir, seg.vaddr + seg.filesz, seg.vaddr + seg.memsz)
    requires Zeroed(m2, s.space, seg.vaddr + seg.filesz, seg.memsz - seg.filesz)
    ensures LoadedTo(m2, s.space, file, seg, seg.memsz)
    ensures Progress(m0, s, m2, s, dir, seg.vaddr, seg.vaddr + seg.memsz)
  {
    hide Progress, Holds, Zeroed, KeptOutside, LoadedTo;
    var at, end := seg.vaddr + seg.filesz, seg.vaddr + seg.memsz;
    ProgressKeeps(m1, s, m2, s, dir, at, end);
    LoadedWhole(m1, s.space, m2, file, seg);
    ProgressWiden(m1, s, m2, s, dir, at, end, seg.vaddr, end);
    ProgressTrans(m0, s, m1, s, m2, s, dir, seg.vaddr, at, seg.vaddr, end);
  }

  /** One turn of the segment loop. */
  method LoadSegment(mmu: Mmu, file: seq<byte>, seg: Segment, ghost held: set<nat>, ghost pages: set<nat>)
    returns (ok: bool)
    requires Sound(mmu, held) && Loadable(seg, file) && seg.kind == PT_LOAD
    requires PagesOf(seg) <= pages && PagesOf(seg) !! mmu.space.Keys
    requires Enough(mmu.pmm.Used(), mmu.tables, mmu.pmm.frameMin, mmu.pmm.frameMax, pages)
    modifies mmu`mem, mmu`space, mmu`tables, mmu.pmm`bitmap, mmu.pmm`totalAlloc
    ensures ok && Sound(mmu, held)
    ensures mmu.space.Keys == old(mmu.space).Keys + PagesOf(seg)
    ensures Enough(mmu.pmm.Used(), mmu.tables, mmu.pmm.frameMin, mmu.pmm.frameMax, pages - PagesOf(seg))
    ensures LoadedTo(mmu.mem, mmu.space, file, seg, seg.memsz)
    ensures Progress(old(mmu.mem), old(StateOf(mmu, held)), mmu.mem, StateOf(mmu, held), mmu.home, 0, 0)
  {
    hide Kept, HasByte, Mmu.Valid, Progress, KeptOutside, Opened, Enough, Confined, FrameAllocator.Used, LoadedTo, Span;
    ghost var m0, s0 := mmu.mem, StateOf(mmu, held);
    ok := MapPages(mmu, seg.vaddr / 0x1000, PageCount(seg), held, pages);
    if !ok {
      assert false;
      return;
    }
    ghost var m1, s1 := mmu.mem, StateOf(mmu, held);
    FillSegment(mmu, file, seg, held);
    SegmentProgress(m0, s0, m1, mmu.mem, s1, mmu.home, file, seg);
  }

  /** The writes into a segment's own new pages disturb nothing that was mapped before. */
  lemma SegmentProgress(m0: Memory, s0: State, m1: Memory, m2: Memory, s1: State, dir: nat,
                        file: seq<byte>, seg: Segment)
    requires Loadable(seg, file) && seg.kind == PT_LOAD && PagesOf(seg) !! s0.space.Keys
    requires Progress(m0, s0, m1, s1, dir, 0, 0)
    requires Progress(m1, s1, m2, s1, dir, seg.vaddr, seg.vaddr + seg.memsz)
    ensures Progress(m0, s0, m2, s1, dir, 0, 0)
  {
    var end := seg.vaddr + seg.memsz;
    ProgressTrans(m0, s0, m1, s1, m2, s1, dir, 0, 0, seg.vaddr, end);
    hide KeptOutside, Confined, Own, PagesOf, Loadable, Opened;
    forall p | p in s0.space ensures p < seg.vaddr / 0x1000 || end <= p * 0x1000 {
      SegmentUnmapped(seg, file, s0.space, p);
    }
    NothingInside(m0, s0.space, m2, s1.space, seg.vaddr, end);
  }

  // The whole file.

  /** The pages that headers `i` and later need, and the stack page. */
  ghost function Left(file: seq<byte>, i: nat): (pages: set<nat>)
    requires HeadersInside(file) && i <= HeaderCount(file)
    ensures STACK_PAGE in pages
    decreases HeaderCount(file) - i
  {
    if i == HeaderCount(file) then
      {STACK_PAGE}
    else
      var seg := ProgramHeader(file, i);
      if seg.kind == PT_LOAD then PagesOf(seg) + Left(file, i + 1) else Left(file, i + 1)
  }

  ghost predicate NeededBy(file: seq<byte>, i: nat, page: nat)
    requires HeadersInside(file) && i < HeaderCount(file)
  {
    ProgramHeader(file, i).kind == PT_LOAD && page in PagesOf(ProgramHeader(file, i))
  }

  lemma {:induction false} LeftIs(file: seq<byte>, n: nat, page: nat)
    requires HeadersInside(file) && n <= HeaderCount(file)
    ensures page in Left(file, n) <==>
            page == STACK_PAGE || exists i: nat :: n <= i < HeaderCount(file) && NeededBy(file, i, page)
    decreases HeaderCount(file) - n
  {
    hide ProgramHeader, HeaderCount, PagesOf;
    if n < HeaderCount(file) {
      LeftIs(file, n + 1, page);
      assert NeededBy(file, n, page) <==>
             ProgramHeader(file, n).kind == PT_LOAD && page in PagesOf(ProgramHeader(file, n));
    }
  }

  /** The pages mapped for a segment are those it has bytes in. */
  lemma PagesMeet(seg: Segment, file: seq<byte>, page: nat)
    requires Loadable(seg, file)
    ensures seg.kind == PT_LOAD && page in PagesOf(seg) <==> Meets(seg, page)
  {
    var a := seg.vaddr / 0x1000;
    assert page in PagesOf(seg) <==> a <= page < a + PageCount(seg);
    hide PagesOf;
  }

  lemma AllPages(file: seq<byte>, page: nat)
    requires WellFormed(file)
    ensures page in Left(file, 0) <==> InFile(file, page)
  {
    hide ProgramHeader, HeaderCount, PagesOf, PageDisjoint, Loadable, Meets, HasHeader;
    LeftIs(file, 0, page);
    if i: nat :| i < HeaderCount(file) && NeededBy(file, i, page) {
      PagesMeet(ProgramHeader(file, i), file, page);
      HeaderIs(file, i, ProgramHeader(file, i));
    }
    if i: nat, seg :| HasHeader(file, i, seg) && Meets(seg, page) {
      HeaderIs(file, i, seg);
      PagesMeet(seg, file, page);
      assert NeededBy(file, i, page);
    }
  }

  lemma SpansApart(a: Segment, b: Segment)
    requires a.kind == PT_LOAD && b.kind == PT_LOAD && PageDisjoint(a, b)
    ensures PagesOf(a) !! PagesOf(b)
  {
    forall p | p in PagesOf(a) ensures p !in PagesOf(b) {
      assert !(Covers(a, p) && Covers(b, p));
    }
  }

  /** The pages of a segment are not needed by any later one. */
  lemma {:induction false} LeftApart(file: seq<byte>, i: nat, j: nat)
    requires WellFormed(file) && i < j <= HeaderCount(file) && ProgramHeader(file, i).kind == PT_LOAD
    ensures PagesOf(ProgramHeader(file, i)) !! Left(file, j)
    decreases HeaderCount(file) - j
  {
    hide ProgramHeader, HeaderCount;
    var seg := ProgramHeader(file, i);
    if j == HeaderCount(file) {
      assert Loadable(seg, file);
    } else {
      LeftApart(file, i, j + 1);
      if ProgramHeader(file, j).kind == PT_LOAD {
        SpansApart(seg, ProgramHeader(file, j));
      }
      hide PagesOf;
    }
  }

  /** Every loadable segment among the first `n` is in memory in full. */
  ghost predicate LoadedBefore(m: Memory, space: map<nat, nat>, file: seq<byte>, n: nat) {
    && HeadersInside(file) && n <= HeaderCount(file)
    && forall i: nat :: i < n && ProgramHeader(file, i).kind == PT_LOAD ==>
         LoadedTo(m, space, file, ProgramHeader(file, i), ProgramHeader(file, i).memsz)
  }

  lemma LoadedBeforeKept(m: Memory, s: State, m': Memory, s': State, dir: nat, file: seq<byte>, n: nat)
    requires LoadedBefore(m, s.space, file, n) && Progress(m, s, m', s', dir, 0, 0)
    ensures LoadedBefore(m', s'.space, file, n)
  {
    hide LoadedTo, KeptOutside, ProgramHeader, HeaderCount, Confined, Own;
    forall i: nat | i < n && ProgramHeader(file, i).kind == PT_LOAD
      ensures LoadedTo(m', s'.space, file, ProgramHeader(file, i), ProgramHeader(file, i).memsz)
    {
      var seg := ProgramHeader(file, i);
      LoadedKept(m, s.space, m', s'.space, 0, 0, file, seg, seg.memsz);
    }
  }

  /**
   * The image of the file as read through directory `dir`: every loadable segment holds its file bytes and zeros after
   * them, all segments at once, and the stack page is mapped.
   */
  ghost predicate Image(m: Memory, dir: nat, file: seq<byte>) {
    && Physical(m) && dir < FRAMES
    && (forall i: nat, seg, k: nat :: HasHeader(file, i, seg) && SegmentByte(file, seg, k) ==>
          Reads(m, dir, seg.vaddr + k, if k < seg.filesz then file[seg.offset + k] else 0))
    && Walk(m, dir, 0xB_FFFE).Some?
  }

  /** Byte `k` of a segment is part of the image. */
  ghost predicate SegmentByte(file: seq<byte>, seg: Segment, k: nat) {
    seg.kind == 1 && k < seg.memsz && seg.offset + seg.filesz <= |file|
  }

  lemma LoadedImage(m: Memory, dir: nat, s: State, file: seq<byte>)
    requires WellFormed(file) && Mapped(m, dir, s.used, s.space, s.tables)
    requires LoadedBefore(m, s.space, file, HeaderCount(file)) && STACK_PAGE in s.space
    ensures Image(m, dir, file)
  {
    WalkIsSpace(m, dir, s.used, s.space, s.tables, STACK_PAGE);
    MappedPhysical(m, dir, s);
    hide Walk, Reads, ProgramHeader, HeaderCount, Mapped, LoadedBefore, PageDisjoint, Loadable, Physical, HasHeader;
    hide SegmentByte;
    forall i: nat, seg, k: nat | HasHeader(file, i, seg) && SegmentByte(file, seg, k)
      ensures Reads(m, dir, seg.vaddr + k, if k < seg.filesz then file[seg.offset + k] else 0)
    {
      ImageByte(m, dir, s, file, i, seg, k);
    }
  }

  lemma MappedPhysical(m: Memory, dir: nat, s: State)
    requires Mapped(m, dir, s.used, s.space, s.tables)
    ensures Physical(m) && dir < FRAMES
  {
    hide TableSays, DirectorySays, TablesOwned, Points, Physical;
  }

  lemma ImageByte(m: Memory, dir: nat, s: State, file: seq<byte>, i: nat, seg: Segment, k: nat)
    requires WellFormed(file) && Mapped(m, dir, s.used, s.space, s.tables)
    requires LoadedBefore(m, s.space, file, HeaderCount(file))
    requires HasHeader(file, i, seg) && SegmentByte(file, seg, k)
    ensures SegmentByte(file, seg, k) &&
             Reads(m, dir, seg.vaddr + k, if k < seg.filesz then file[seg.offset + k] else 0)
  {
    hide HasByte, Reads, ProgramHeader, HeaderCount, Mapped, PageDisjoint, HasHeader;
    HeaderIs(file, i, seg);
    assert Loadable(seg, file) && LoadedTo(m, s.space, file, seg, seg.memsz);
    InImage(file, seg, k);
    HasByteReads(m, dir, s.used, s.space, s.tables, seg.vaddr + k, Wanted(file, seg, k));
  }

  lemma InImage(file: seq<byte>, seg: Segment, k: nat)
    requires Loadable(seg, file) && seg.kind == PT_LOAD && k < seg.memsz
    ensures (seg.vaddr + k) / 0x1000 < KERNEL_PAGE
  {
  }

  /** The state in which headers `i` and later remain to be loaded. */
  ghost predicate Underway(mmu: Mmu, file: seq<byte>, i: nat, held: set<nat>)
    reads mmu, mmu.pmm
  {
    && HeadersInside(file) && i <= HeaderCount(file)
    && Sound(mmu, held) && Left(file, i) !! mmu.space.Keys
    && Enough(mmu.pmm.Used(), mmu.tables, mmu.pmm.frameMin, mmu.pmm.frameMax, Left(file, i))
    && LoadedBefore(mmu.mem, mmu.space, file, i)
  }

  /** The body of the header loop. */
  method LoadHeader(mmu: Mmu, file: seq<byte>, i: nat, ghost held: set<nat>) returns (ok: bool)
    requires WellFormed(file) && i < HeaderCount(file) && Underway(mmu, file, i, held)
    modifies mmu`mem, mmu`space, mmu`tables, mmu.pmm`bitmap, mmu.pmm`totalAlloc
    ensures ok && Underway(mmu, file, i + 1, held)
    ensures Progress(old(mmu.mem), old(StateOf(mmu, held)), mmu.mem, StateOf(mmu, held), mmu.home, 0, 0)
    ensures mmu.space.Keys + Left(file, i + 1) == old(mmu.space).Keys + Left(file, i)
  {
    hide Kept, Mmu.Valid, Progress, Opened, Enough, FrameAllocator.Used, LoadedTo, PagesOf, ProgramHeader, HeaderCount;
    hide Loadable, PageDisjoint;
    ghost var m0, s0 := mmu.mem, StateOf(mmu, held);
    var seg := ProgramHeader(file, i);
    ok := true;
    if seg.kind == PT_LOAD {
      LeftApart(file, i, i + 1);
      assert Left(file, i) - PagesOf(seg) == Left(file, i + 1);
      ok := LoadSegment(mmu, file, seg, held, Left(file, i));
      if !ok {
        assert false;
        return;
      }
      LoadedBeforeKept(m0, s0, mmu.mem, StateOf(mmu, held), mmu.home, file, i);
    } else {
      SoundFacts(mmu, held);
      ProgressRefl(m0, s0, mmu.home, 0);
    }
  }

  /** The stack page, mapped last. */
  method LoadStack(mmu: Mmu, file: seq<byte>, ghost held: set<nat>) returns (ok: bool)
    requires WellFormed(file) && Underway(mmu, file, HeaderCount(file), held)
    modifies mmu`mem, mmu`space, mmu`tables, mmu.pmm`bitmap, mmu.pmm`totalAlloc
    ensures ok && Sound(mmu, held)
    ensures mmu.space.Keys == old(mmu.space).Keys + Left(file, HeaderCount(file))
    ensures Image(mmu.mem, mmu.home, file)
    ensures Progress(old(mmu.mem), old(StateOf(mmu, held)), mmu.mem, StateOf(mmu, held), mmu.home, 0, 0)
  {
    hide Kept, Progress, Opened, Enough, FrameAllocator.Used, LoadedTo, PagesOf, ProgramHeader, HeaderCount, Image;
    hide Loadable, PageDisjoint, LoadedBefore, WellFormed;
    ghost var m0, s0 := mmu.mem, StateOf(mmu, held);
    SoundFacts(mmu, held);
    ok := MapNew(mmu, STACK_PAGE, held, Left(file, HeaderCount(file)));
    if !ok {
      assert false;
      return;
    }
    SoundFacts(mmu, held);
    NewPageProgress(m0, mmu.mem, mmu.home, s0, StateOf(mmu, held), STACK_PAGE);
    LoadedBeforeKept(m0, s0, mmu.mem, StateOf(mmu, held), mmu.home, file, HeaderCount(file));
    LoadedImage(mmu.mem, mmu.home, StateOf(mmu, held), file);
  }

  /** The address space is valid and accounted for, whichever directory is active; a file that will not be refused is
      well formed, and there are frames for it. */
  ghost predicate Loading(mmu: Mmu, file: seq<byte>, held: set<nat>)
    reads mmu, mmu.pmm
  {
    && |file| >= 52 && mmu.Valid() && Kept(StateOf(mmu, held))
    && (ValidElf(file) ==>
          && WellFormed(file) && Left(file, 0) !! mmu.space.Keys
          && Enough(mmu.pmm.Used(), mmu.tables, mmu.pmm.frameMin, mmu.pmm.frameMax, Left(file, 0)))
  }

  /**
   * elf_load into the directory `pageDir`. The status is -1, with nothing changed, exactly when the header is refused;
   * otherwise the image is in place, what was mapped before reads as before, no frame outside the new address space
   * changed, every frame is still accounted for, and the caller's directory is active again.
   */
  method Load(mmu: Mmu, file: seq<byte>, pageDir: nat, ghost held: set<nat>) returns (status: int, entry: u32)
    requires Loading(mmu, file, held) && pageDir == mmu.home
    modifies mmu`mem, mmu`space, mmu`tables, mmu`cr3, mmu.pmm`bitmap, mmu.pmm`totalAlloc
    ensures mmu.Valid() && Kept(StateOf(mmu, held)) && mmu.cr3 == old(mmu.cr3)
    ensures status == if Accepted(file) then 0 else -1
    ensures !Accepted(file) ==> mmu.mem == old(mmu.mem) && StateOf(mmu, held) == old(StateOf(mmu, held))
    ensures Accepted(file) ==> LittleEndian(file, 24, entry) && Image(mmu.mem, mmu.home, file)
    ensures Accepted(file) ==>
              forall page: nat :: page in mmu.space <==> page in old(mmu.space) || InFile(file, page)
    ensures Accepted(file) && UserTables(old(mmu.mem), mmu.home, old(mmu.tables)) ==>
              && UserTables(mmu.mem, mmu.home, mmu.tables)
              && forall page :: InFile(file, page) ==> UserPage(mmu.mem, mmu.home, page)
    ensures Progress(old(mmu.mem), old(StateOf(mmu, held)), mmu.mem, StateOf(mmu, held), mmu.home, 0, 0)
  {
    hide Kept, Progress, Opened, Enough, FrameAllocator.Used, LoadedTo, PagesOf, ProgramHeader, Image, Mapped;
    hide Loadable, PageDisjoint, ValidElf, KeptOutside, Confined, Accepted, InFile, UserPage, UserTables, LittleEndian;
    AcceptedIs(file);
    WordIs(file, 24);
    ghost var m0, s0 := mmu.mem, StateOf(mmu, held);
    ValidFacts(mmu);
    ProgressRefl(m0, s0, mmu.home, 0);
    if !ValidElf(file) {
      return -1, 0;
    }
    entry := Word(file, 24);
    var back := mmu.cr3;
    mmu.cr3 := pageDir;
    var i := 0;
    while i < HeaderCount(file)
      invariant i <= HeaderCount(file) && Underway(mmu, file, i, held)
      invariant mmu.space.Keys + Left(file, i) == s0.space.Keys + Left(file, 0)
      invariant Progress(m0, s0, mmu.mem, StateOf(mmu, held), mmu.home, 0, 0)
    {
      ghost var m, s := mmu.mem, StateOf(mmu, held);
      var ok := LoadHeader(mmu, file, i, held);
      if !ok {
        assert false;
        return;
      }
      ProgressTrans(m0, s0, m, s, mmu.mem, StateOf(mmu, held), mmu.home, 0, 0, 0, 0);
      i := i + 1;
    }
    ghost var m, s := mmu.mem, StateOf(mmu, held);
    var ok := LoadStack(mmu, file, held);
    if !ok {
      assert false;
      return;
    }
    ProgressTrans(m0, s0, m, s, mmu.mem, StateOf(mmu, held), mmu.home, 0, 0, 0, 0);
    RightsGiven(m0, s0, mmu.mem, StateOf(mmu, held), mmu.home, file);
    mmu.cr3 := back;
    status := 0;
  }

  /** Of the pages a file needs each one is mapped at the end, was not at the start, and is open to user mode. */
  lemma RightsGiven(m0: Memory, s0: State, m: Memory, s: State, dir: nat, file: seq<byte>)
    requires WellFormed(file) && Left(file, 0) !! s0.space.Keys && s.space.Keys == s0.space.Keys + Left(file, 0)
    requires Mapped(m, dir, s.used, s.space, s.tables) && Progress(m0, s0, m, s, dir, 0, 0)
    ensures forall page: nat :: page in s.space <==> page in s0.space || InFile(file, page)
    ensures UserTables(m0, dir, s0.tables) ==>
              UserTables(m, dir, s.tables) && forall page :: InFile(file, page) ==> UserPage(m, dir, page)
  {
    hide PageDisjoint, Loadable, InFile, Left, Mapped, KeptOutside, Confined, Own, Opened, UserPage, UserTables;
    forall page: nat ensures page in Left(file, 0) <==> InFile(file, page) {
      AllPages(file, page);
    }
    if UserTables(m0, dir, s0.tables) {
      OpenedTables(m0, s0, m, s, dir);
      forall page: nat | InFile(file, page) ensures UserPage(m, dir, page) {
        OpenedPage(m0, s0, m, s, dir, page);
      }
    }
  }

  lemma ValidFacts(mmu: Mmu)
    requires mmu.Valid()
    ensures Physical(mmu.mem) && mmu.home < FRAMES
  {
    hide FrameAllocator.Used, FrameAllocator.Valid, TableSays, DirectorySays, Points, Injective;
  }
}
