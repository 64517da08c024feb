/** Whole runs of allocating, mapping and unmapping: where every frame is. */
module PagingRuns {
  import opened Bytes
  import opened PageFrames
  import opened Paging
  import opened KernelPaging

  /** Allocated frames, the user address space, its page tables, and the frames callers hold unmapped. */
  datatype State = State(used: set<nat>, space: map<nat, nat>, tables: map<nat, nat>, held: set<nat>)

  datatype Op =
    | Allocate(frame: nat)
    | Map(page: nat, entry: u32)
    | Unmap(page: nat)

  /** Every page table maps something. */
  ghost predicate Tidy(space: map<nat, nat>, tables: map<nat, nat>) {
    forall d :: d in tables ==> !NothingIn(space, d)
  }

  ghost predicate Kept(s: State) {
    Accounted(s.used, s.space, s.tables, s.held) && Tidy(s.space, s.tables)
  }

  /**
   * What `op` does, as the contracts of Alloc, MapPage and UnmapPage say; mapping takes a held frame to a free page.
   */
  ghost predicate Step(op: Op, lo: nat, hi: nat, s: State, s': State) {
    match op
    case Allocate(f) =>
      LowestFree(s.used, lo, hi, f) && s' == s.(used := s.used + {f}, held := s.held + {f})
    case Map(page, e) =>
      && Present(e) && FrameOf(e) in s.held && page !in s.space
      && MapStep(s.used, s.space, s.tables, lo, hi, page, e, s'.used, s'.space, s'.tables)
      && s'.held == s.held - {FrameOf(e)}
    case Unmap(page) =>
      && UnmapStep(s.used, s.space, s.tables, page, s'.used, s'.space, s'.tables)
      && s'.held == s.held
  }

  ghost predicate Run(ops: seq<Op>, lo: nat, hi: nat, states: seq<State>) {
    && |states| == |ops| + 1
    && forall i :: 0 <= i < |ops| ==> Step(ops[i], lo, hi, states[i], states[i + 1])
  }

  lemma MapKeepsTidy(s: State, s': State, lo: nat, hi: nat, page: nat, e: u32)
    requires Kept(s) && Step(Map(page, e), lo, hi, s, s')
    ensures Tidy(s'.space, s'.tables)
  {
    hide Accounted, FrameOf, Present;
    forall d | d in s'.tables ensures !NothingIn(s'.space, d) {
      if d == page / 1024 {
        assert page in s'.space;
      } else {
        var p :| p in s.space && p / 1024 == d;
        assert p in s'.space;
      }
    }
  }

  lemma MapKeepsAccount(s: State, s': State, lo: nat, hi: nat, page: nat, e: u32)
    requires Kept(s) && Step(Map(page, e), lo, hi, s, s')
    ensures Accounted(s'.used, s'.space, s'.tables, s'.held)
  {
    hide Accounted, FrameOf, Present, Tidy;
    var d := page / 1024;
    if d !in s.tables {
      TableTaken(s.used, s.space, s.tables, s.held, d, s'.tables[d]);
    }
    PageMapped(s'.used, s.space, s'.tables, s.held, page, FrameOf(e));
  }

  lemma UnmapKeepsTidy(s: State, s': State, lo: nat, hi: nat, page: nat)
    requires Kept(s) && Step(Unmap(page), lo, hi, s, s')
    ensures Tidy(s'.space, s'.tables)
  {
    hide Accounted;
    forall d | d in s'.tables ensures !NothingIn(s'.space, d) {
      if d != page / 1024 {
        var p :| p in s.space && p / 1024 == d;
        assert p in s'.space;
      }
    }
  }

  lemma UnmapKeepsAccount(s: State, s': State, lo: nat, hi: nat, page: nat)
    requires Kept(s) && Step(Unmap(page), lo, hi, s, s')
    ensures Accounted(s'.used, s'.space, s'.tables, s'.held)
  {
    hide Accounted, Tidy, NothingIn;
    var d := page / 1024;
    if page in s.space && d in s.tables {
      PageUnmapped(s.used, s.space, s.tables, s.held, page);
      if NothingIn(s'.space, d) {
        TableGiven(s.used - {s.space[page]}, s'.space, s.tables, s.held, d);
      }
    }
  }

  lemma StepKeeps(op: Op, lo: nat, hi: nat, s: State, s': State)
    requires Kept(s) && Step(op, lo, hi, s, s')
    ensures Kept(s')
  {
    match op
    case Allocate(f) => FrameTaken(s.used, s.space, s.tables, s.held, f);
    case Map(page, e) =>
      MapKeepsTidy(s, s', lo, hi, page, e);
      MapKeepsAccount(s, s', lo, hi, page, e);
    case Unmap(page) =>
      UnmapKeepsTidy(s, s', lo, hi, page);
      UnmapKeepsAccount(s, s', lo, hi, page);
  }

  /** At every point of every run, each allocated frame is mapped once, or a live page table, or held: none is lost. */
  lemma {:induction false} RunKeeps(ops: seq<Op>, lo: nat, hi: nat, states: seq<State>, n: nat)
    requires Run(ops, lo, hi, states) && Kept(states[0]) && n <= |ops|
    ensures Kept(states[n])
    ensures |states[n].used| == |states[n].space| + |states[n].tables| + |states[n].held|
  {
    hide Kept, Step;
    if n > 0 {
      RunKeeps(ops, lo, hi, states, n - 1);
      StepKeeps(ops[n - 1], lo, hi, states[n - 1], states[n]);
    }
    KeptConserves(states[n]);
  }

  lemma KeptConserves(s: State)
    requires Kept(s)
    ensures |s.used| == |s.space| + |s.tables| + |s.held|
  {
    FramesConserved(s.used, s.space, s.tables, s.held);
  }

  ghost predicate InTables(s: State) {
    forall p :: p in s.space ==> p / 1024 in s.tables
  }

  /**
   * Mapping a held frame at a free page and unmapping it again restores the translation and the page tables, and frees
   * exactly that frame: a table made for the page alone is gone too.
   */
  lemma MapThenUnmap(s: State, s1: State, s2: State, lo: nat, hi: nat, page: nat, e: u32)
    requires Kept(s) && InTables(s)
    requires Step(Map(page, e), lo, hi, s, s1) && Step(Unmap(page), lo, hi, s1, s2)
    ensures s2 == s.(used := s.used - {FrameOf(e)}, held := s.held - {FrameOf(e)})
  {
    hide FrameOf, Present, Injective;
    var d := page / 1024;
    assert s1.space - {page} == s.space;
    if d !in s.tables {
      assert NothingIn(s.space, d);
      assert s1.tables - {d} == s.tables;
      assert s1.tables[d] !in s.used;
    }
  }
}
