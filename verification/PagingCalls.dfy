/** Runs of requests to the frame allocator and the page tables, carried out on the tables themselves. */
module PagingCalls {
  import opened Bytes
  import opened PageFrames
  import opened Paging
  import opened KernelPaging
  import opened PagingRuns
  import opened PagingOps

  datatype Call =
    | Take
    | MapAt(page: nat, frame: nat, flags: u32)
    | UnmapAt(page: nat)

  /** The allocator's counter is the number of mapped pages, page tables and held frames. */
  lemma CounterConserved(mmu: Mmu, held: set<nat>)
    requires Sound(mmu, held)
    ensures mmu.pmm.totalAlloc == |mmu.space| + |mmu.tables| + |held|
  {
    KeptConserves(StateOf(mmu, held));
    hide Kept, Mapped, MarkedSet;
  }

  lemma {:induction false} RangeHolds(used: set<nat>, lo: nat, hi: nat)
    requires lo <= hi && forall f :: f in used ==> lo <= f < hi
    ensures |used| <= hi - lo
    decreases hi - lo
  {
    if lo < hi {
      RangeHolds(used - {hi - 1}, lo, hi - 1);
    } else {
      assert used == {};
    }
  }

  /** No frame is free exactly when as many are in use as there are. */
  lemma NoneFreeIff(used: set<nat>, lo: nat, hi: nat)
    requires forall f :: f in used ==> lo <= f < hi
    ensures NoneFree(used, lo, hi) <==> |used| >= hi - lo
  {
    if lo < hi {
      if NoneFree(used, lo, hi) {
        NoneFreeCount(used, lo, hi);
      } else {
        var f: nat :| lo <= f < hi && f !in used;
        RangeHolds(used + {f}, lo, hi);
      }
    }
  }

  /** pmm_alloc_page_frame for a caller who then holds the frame; the frames `kernel` are held besides. */
  method TakeOne(mmu: Mmu, held: set<nat>, ghost kernel: set<nat>) returns (paddr: nat, held': set<nat>)
    requires Sound(mmu, held + kernel) && held !! kernel
    modifies mmu.pmm`bitmap, mmu.pmm`totalAlloc
    ensures Sound(mmu, held' + kernel) && held' !! kernel
    ensures paddr == 0 <==> NoneFree(old(mmu.pmm.Used()), mmu.pmm.frameMin, mmu.pmm.frameMax)
    ensures paddr == 0 ==> StateOf(mmu, held' + kernel) == old(StateOf(mmu, held + kernel))
    ensures paddr != 0 ==> Step(Allocate(paddr / 0x1000), mmu.pmm.frameMin, mmu.pmm.frameMax,
                                old(StateOf(mmu, held + kernel)), StateOf(mmu, held' + kernel))
  {
    hide MarkedSet, Mapped, NoneFree, Kept, LowestFree;
    ghost var s := StateOf(mmu, held + kernel);
    paddr := mmu.pmm.Alloc();
    held' := held;
    if paddr != 0 {
      var f := paddr / 0x1000;
      held' := held + {f};
      InUsed(s);
      FreshFrame(mmu.mem, mmu.home, s.used, mmu.space, mmu.tables, mmu.pmm.frameMin, mmu.pmm.frameMax, f);
      FrameGiven(mmu.mem, mmu.home, s.used, mmu.space, mmu.tables, f);
      assert held' + kernel == held + kernel + {f};
      StepKeeps(Allocate(f), mmu.pmm.frameMin, mmu.pmm.frameMax, s, StateOf(mmu, held' + kernel));
    }
  }

  /** Whether a user page is mapped, and whether its slot has a page table, as the tables say. */
  method Lookup(mmu: Mmu, page: nat, ghost held: set<nat>) returns (table: bool, mapped: bool)
    requires Sound(mmu, held) && page < KERNEL_PAGE
    ensures table <==> page / 1024 in mmu.tables
    ensures mapped <==> page in mmu.space
  {
    hide Entry, Present, Large, FrameOf, Kept, TableSays, DirectorySays, TablesOwned, FrameAllocator.Used;
    hide FrameAllocator.Valid;
    SlotKnown(mmu.mem, mmu.home, mmu.pmm.Used(), mmu.space, mmu.tables, page / 1024);
    var pde := mmu.ReadDirectory(page / 1024);
    table, mapped := Present(pde), false;
    if table {
      PageKnown(mmu.mem, mmu.home, mmu.pmm.Used(), mmu.space, mmu.tables, page);
      var pte := mmu.ReadTable(page / 1024, page % 1024);
      mapped := Present(pte);
    }
  }

  /** A mapping request that can be met: a held frame, a free page, flags that map, and a frame for a missing table. */
  ghost predicate CanMap(s: State, page: nat, frame: nat, flags: u32, lo: nat, hi: nat) {
    && page < KERNEL_PAGE && page !in s.space && frame in s.held && frame < FRAMES
    && flags % 2 == 1 && flags / 0x80 % 2 == 0
    && (page / 1024 in s.tables || !NoneFree(s.used, lo, hi))
  }

  function FrameAddress(frame: nat): (paddr: u32)
    requires frame < FRAMES
    ensures paddr / 0x1000 == frame
  {
    frame * 0x1000
  }

  /** mem_map_page with a held frame, if the request can be met. */
  method MapOne(mmu: Mmu, page: nat, frame: nat, flags: u32, held: set<nat>, ghost kernel: set<nat>)
    returns (ok: bool, held': set<nat>)
    requires Sound(mmu, held + kernel) && held !! kernel
    modifies mmu`mem, mmu`space, mmu`tables, mmu.pmm`bitmap, mmu.pmm`totalAlloc
    ensures Sound(mmu, held' + kernel) && held' !! kernel
    ensures ok <==> old(CanMap(StateOf(mmu, held + kernel), page, frame, flags, mmu.pmm.frameMin, mmu.pmm.frameMax))
                    && frame in held
    ensures !ok ==> mmu.mem == old(mmu.mem) && StateOf(mmu, held' + kernel) == old(StateOf(mmu, held + kernel))
    ensures ok ==> frame < FRAMES && Step(Map(page, PageEntry(FrameAddress(frame), flags)), mmu.pmm.frameMin,
                                          mmu.pmm.frameMax, old(StateOf(mmu, held + kernel)),
                                          StateOf(mmu, held' + kernel))
    ensures ok ==> Confined(old(mmu.mem), mmu.mem, mmu.home, mmu.tables.Values)
  {
    hide Mapped, NoneFree, Kept, MarkedSet, Confined, EntrySet, SlotSet, DirectoryEntry, FrameOf, Present;
    hide MapStep, FrameAddress, FrameAllocator.Used, PageEntry;
    held' := held;
    if page >= KERNEL_PAGE || frame !in held || frame >= FRAMES || flags % 2 == 0 || flags / 0x80 % 2 == 1 {
      return false, held;
    }
    var table, mapped := Lookup(mmu, page, held + kernel);
    if mapped {
      return false, held;
    }
    CounterSays(mmu.pmm);
    if !table && mmu.pmm.totalAlloc >= mmu.pmm.frameMax - mmu.pmm.frameMin {
      return false, held;
    }
    ghost var s := StateOf(mmu, held + kernel);
    held' := held - {frame};
    assert held' + kernel == held + kernel - {frame};
    mmu.MapPage(page * 0x1000, FrameAddress(frame), flags);
    MapSteps(s, StateOf(mmu, held' + kernel), mmu.pmm.frameMin, mmu.pmm.frameMax, page, frame, flags);
    ok := true;
  }

  lemma MapSteps(s: State, s': State, lo: nat, hi: nat, page: nat, frame: nat, flags: u32)
    requires Kept(s) && CanMap(s, page, frame, flags, lo, hi) && s'.held == s.held - {frame}
    requires MapStep(s.used, s.space, s.tables, lo, hi, page, PageEntry(FrameAddress(frame), flags),
                     s'.used, s'.space, s'.tables)
    ensures Step(Map(page, PageEntry(FrameAddress(frame), flags)), lo, hi, s, s') && Kept(s')
  {
    hide Kept, MapStep, FrameOf, Present, NoneFree;
    StepKeeps(Map(page, PageEntry(FrameAddress(frame), flags)), lo, hi, s, s');
  }

  lemma CounterSays(pmm: FrameAllocator)
    requires pmm.Valid()
    ensures NoneFree(pmm.Used(), pmm.frameMin, pmm.frameMax) <==> pmm.totalAlloc >= pmm.frameMax - pmm.frameMin
  {
    NoneFreeIff(pmm.Used(), pmm.frameMin, pmm.frameMax);
    hide MarkedSet, NoneFree;
  }

  /**
   * One request: a step of the accounting, or nothing when it cannot be met. Frames in `kernel` are not for mapping.
   */
  ghost predicate Served(call: Call, lo: nat, hi: nat, s: State, s': State, kernel: set<nat>) {
    match call
    case Take => if NoneFree(s.used, lo, hi) then s' == s else exists f :: Step(Allocate(f), lo, hi, s, s')
    case MapAt(page, frame, flags) =>
      if CanMap(s, page, frame, flags, lo, hi) && frame !in kernel then
        Step(Map(page, PageEntry(FrameAddress(frame), flags)), lo, hi, s, s')
      else
        s' == s
    case UnmapAt(page) => if page < KERNEL_PAGE then Step(Unmap(page), lo, hi, s, s') else s' == s
  }

  /**
   * Page tables of the kernel half that lie in frames of `kernel` still do, and the kernel half translates as before.
   */
  ghost predicate KernelUndisturbed(m: Memory, m': Memory, dir: nat, kernel: set<nat>) {
    KernelTables(m, dir, kernel) ==> KernelTables(m', dir, kernel) && SameKernel(m, m', dir)
  }

  lemma UndisturbedTwice(m: Memory, m1: Memory, m2: Memory, dir: nat, kernel: set<nat>)
    requires KernelUndisturbed(m, m1, dir, kernel) && KernelUndisturbed(m1, m2, dir, kernel)
    ensures KernelUndisturbed(m, m2, dir, kernel)
  {
    hide Walk, KernelEntry, Entry;
  }

  lemma SameUndisturbed(m: Memory, dir: nat, kernel: set<nat>)
    ensures KernelUndisturbed(m, m, dir, kernel)
  {
    hide Walk, KernelEntry, Entry;
  }

  lemma ConfinedUndisturbed(m: Memory, m': Memory, dir: nat, own: set<nat>, kernel: set<nat>)
    requires Confined(m, m', dir, own) && kernel !! own && dir !in kernel
    ensures KernelUndisturbed(m, m', dir, kernel)
  {
    hide Confined, SameKernel;
    if KernelTables(m, dir, kernel) {
      KernelHalfKept(m, m', dir, own, kernel);
    }
    hide KernelTables;
  }

  method Serve(mmu: Mmu, call: Call, held: set<nat>, ghost kernel: set<nat>) returns (held': set<nat>)
    requires Sound(mmu, held + kernel) && held !! kernel
    modifies mmu`mem, mmu`space, mmu`tables, mmu.pmm`bitmap, mmu.pmm`totalAlloc
    ensures Sound(mmu, held' + kernel) && held' !! kernel
    ensures Served(call, mmu.pmm.frameMin, mmu.pmm.frameMax, old(StateOf(mmu, held + kernel)),
                   StateOf(mmu, held' + kernel), kernel)
    ensures KernelUndisturbed(old(mmu.mem), mmu.mem, mmu.home, kernel)
  {
    hide Sound, Step, CanMap, NoneFree, PageEntry, FrameAllocator.Used, KernelUndisturbed, Confined;
    SameUndisturbed(mmu.mem, mmu.home, kernel);
    HeldApart(mmu, held + kernel);
    match call {
      case Take =>
        var paddr;
        paddr, held' := TakeOne(mmu, held, kernel);
      case MapAt(page, frame, flags) =>
        CanMapHeld(StateOf(mmu, held + kernel), page, frame, flags, mmu.pmm.frameMin, mmu.pmm.frameMax);
        var ok;
        ok, held' := MapOne(mmu, page, frame, flags, held, kernel);
        HeldApart(mmu, held' + kernel);
        if ok {
          ConfinedUndisturbed(old(mmu.mem), mmu.mem, mmu.home, mmu.tables.Values, kernel);
        }
      case UnmapAt(page) =>
        held' := held;
        if page < KERNEL_PAGE {
          UnmapOne(mmu, page, held + kernel);
          ConfinedUndisturbed(old(mmu.mem), mmu.mem, mmu.home, old(mmu.tables).Values, kernel);
        }
    }
  }

  lemma CanMapHeld(s: State, page: nat, frame: nat, flags: u32, lo: nat, hi: nat)
    ensures CanMap(s, page, frame, flags, lo, hi) ==> frame in s.held
  {
    hide NoneFree;
  }

  /**
   * Any run of requests: every one is a step of the accounting, and at every point each allocated frame is mapped at
   * one page, or is a live page table, or is held; the allocator's counter is their number. If the page tables of the
   * kernel half are among the held frames that no request may map, the kernel half translates throughout as before.
   */
  method Run(mmu: Mmu, calls: seq<Call>, held: set<nat>, ghost kernel: set<nat>)
    returns (held': set<nat>, ghost states: seq<State>)
    requires Sound(mmu, held + kernel) && held !! kernel
    modifies mmu`mem, mmu`space, mmu`tables, mmu.pmm`bitmap, mmu.pmm`totalAlloc
    ensures Sound(mmu, held' + kernel) && held' !! kernel && |states| == |calls| + 1
    ensures states[0] == old(StateOf(mmu, held + kernel)) && states[|calls|] == StateOf(mmu, held' + kernel)
    ensures forall i :: 0 <= i < |calls| ==>
              Served(calls[i], mmu.pmm.frameMin, mmu.pmm.frameMax, states[i], states[i + 1], kernel)
    ensures forall i :: 0 <= i <= |calls| ==> Kept(states[i])
    ensures mmu.pmm.totalAlloc == |mmu.space| + |mmu.tables| + |held' + kernel|
    ensures KernelUndisturbed(old(mmu.mem), mmu.mem, mmu.home, kernel)
  {
    hide StateOf, Served, Kept, Mmu.Valid, KernelUndisturbed;
    held', states := held, [StateOf(mmu, held + kernel)];
    SoundKept(mmu, held + kernel);
    SameUndisturbed(mmu.mem, mmu.home, kernel);
    var i := 0;
    while i < |calls|
      invariant i <= |calls| && Sound(mmu, held' + kernel) && held' !! kernel && |states| == i + 1
      invariant states[0] == old(StateOf(mmu, held + kernel)) && states[i] == StateOf(mmu, held' + kernel)
      invariant forall j :: 0 <= j < i ==>
                  Served(calls[j], mmu.pmm.frameMin, mmu.pmm.frameMax, states[j], states[j + 1], kernel)
      invariant forall j :: 0 <= j <= i ==> Kept(states[j])
      invariant KernelUndisturbed(old(mmu.mem), mmu.mem, mmu.home, kernel)
    {
      ghost var m := mmu.mem;
      held' := Serve(mmu, calls[i], held', kernel);
      UndisturbedTwice(old(mmu.mem), m, mmu.mem, mmu.home, kernel);
      SoundKept(mmu, held' + kernel);
      states := states + [StateOf(mmu, held' + kernel)];
      i := i + 1;
    }
    CounterConserved(mmu, held' + kernel);
  }

  lemma SoundKept(mmu: Mmu, held: set<nat>)
    requires Sound(mmu, held)
    ensures Kept(StateOf(mmu, held))
  {
    hide Kept, Mmu.Valid;
  }
}
