/** Two-level 32-bit paging over physical memory, and what an edit of a table does to the translation. */
module Paging {
  import opened Bytes

  const PAGE := 0x1000
  /** Frames in the 4 GiB physical address space. */
  const FRAMES := 0x10_0000
  /** KERNEL_START as a page number and as a directory index. */
  const KERNEL_PAGE := 0xC_0000
  const KERNEL_SLOT := 768
  const SELF_SLOT := 1023

  type Memory = seq<seq<byte>>
  datatype Option<T> = None | Some(value: T)

  ghost predicate Physical(m: Memory) {
    |m| == 0x10_0000 && forall f :: 0 <= f < FRAMES ==> |m[f]| == 0x1000
  }

  function Entry(frame: seq<byte>, i: nat): u32
    requires |frame| == PAGE && i < 1024
  {
    Word(frame, 4 * i)
  }

  predicate Present(e: u32) {
    e % 2 == 1
  }

  /** The PS bit of a directory entry: it maps 4 MiB itself. */
  predicate Large(e: u32) {
    e / 0x80 % 2 == 1
  }

  function FrameOf(e: u32): (f: nat)
    ensures f < FRAMES
  {
    e / 0x1000
  }

  /** The processor's page walk from the directory in frame `dir`. */
  ghost function Walk(m: Memory, dir: nat, page: nat): (r: Option<nat>)
    requires Physical(m) && dir < FRAMES && page < FRAMES
    ensures r.Some? ==> r.value < FRAMES
  {
    var pde := Entry(m[dir], page / 1024);
    if !Present(pde) then
      None
    else if Large(pde) then
      Some(FrameOf(pde) / 1024 * 1024 + page % 1024)
    else
      var pte := Entry(m[FrameOf(pde)], page % 1024);
      if Present(pte) then Some(FrameOf(pte)) else None
  }

  /** The walk in words: bit 0 of an entry says that it is present, bit 7 of a directory entry that it maps 4 MiB, and
      the bits from 12 on name the frame. */
  lemma WalkWords(m: Memory, dir: nat, page: nat)
    requires Physical(m) && dir < 0x10_0000 && page < 0x10_0000
    ensures var pde := Word(m[dir], 4 * (page / 1024));
            if pde % 2 == 0 then Walk(m, dir, page) == None
            else if pde / 0x80 % 2 == 1 then Walk(m, dir, page) == Some(pde / 0x40_0000 * 1024 + page % 1024)
            else
              var pte := Word(m[pde / 0x1000], 4 * (page % 1024));
              Walk(m, dir, page) == if pte % 2 == 0 then None else Some(pte / 0x1000)
  {
    hide Word;
    var pde := Entry(m[dir], page / 1024);
    TwoQuotients(pde);
  }

  lemma TwoQuotients(e: u32)
    ensures e / 0x1000 / 1024 == e / 0x40_0000
  {
  }

  predicate Points(e: u32, f: nat) {
    Present(e) && !Large(e) && FrameOf(e) == f
  }

  /** Slot 1023 of the directory points to the directory. */
  ghost predicate SelfMapped(m: Memory, dir: nat) {
    && Physical(m) && dir < FRAMES
    && Points(Entry(m[dir], SELF_SLOT), dir)
  }

  /** REC_PAGE_DIR, 0xFFFFF000, resolves to the directory itself. */
  lemma RecursiveDirectory(m: Memory, dir: nat)
    requires SelfMapped(m, dir)
    ensures Walk(m, dir, 0xFFFFF) == Some(dir)
  {
    hide Entry;
  }

  /** REC_PAGE_TABLE(d), 0xFFC00000 + 0x1000 * d, resolves to the table that entry `d` names. */
  lemma RecursiveTable(m: Memory, dir: nat, d: nat)
    requires SelfMapped(m, dir) && d < 1024
    ensures Walk(m, dir, 0xFFC00 + d) ==
            if Present(Entry(m[dir], d)) then Some(FrameOf(Entry(m[dir], d))) else None
  {
    hide Entry;
    assert (0xFFC00 + d) / 1024 == SELF_SLOT && (0xFFC00 + d) % 1024 == d;
  }

  /** Entry `i` of frame `f` became `v`; no other entry and no other frame changed. */
  ghost predicate Edited(m: Memory, m': Memory, f: nat, i: nat, v: u32) {
    && Physical(m) && Physical(m') && f < FRAMES && i < 1024
    && (forall g :: 0 <= g < FRAMES && g != f ==> m'[g] == m[g])
    && EntryEdited(m[f], m'[f], i, v)
  }

  ghost predicate EntryEdited(s: seq<byte>, s': seq<byte>, i: nat, v: u32) {
    && |s| == PAGE && |s'| == PAGE && i < 1024
    && Entry(s', i) == v
    && forall j :: 0 <= j < 1024 && j != i ==> Entry(s', j) == Entry(s, j)
  }

  // The address space as a map.

  /** Entry `e` says of `page` what `space` says. */
  predicate Says(e: u32, page: nat, space: map<nat, nat>) {
    if page in space then Present(e) && FrameOf(e) == space[page] else !Present(e)
  }

  ghost predicate TableSays(table: seq<byte>, d: nat, space: map<nat, nat>) {
    |table| == PAGE && forall i: nat :: i < 1024 ==> Says(Entry(table, i), 1024 * d + i, space)
  }

  ghost predicate DirectorySays(directory: seq<byte>, tables: map<nat, nat>) {
    && |directory| == PAGE
    && forall d: nat :: d < KERNEL_SLOT ==>
         if d in tables then Points(Entry(directory, d), tables[d]) else !Present(Entry(directory, d))
  }

  ghost predicate Injective(f: map<nat, nat>) {
    forall x, y :: x in f && y in f && f[x] == f[y] ==> x == y
  }

  /** The page tables are private allocated frames, one per directory slot that has one. */
  ghost predicate TablesOwned(dir: nat, used: set<nat>, tables: map<nat, nat>) {
    && dir !in used && Injective(tables)
    && (forall d :: d in tables ==> d < KERNEL_SLOT && tables[d] in used)
    && forall f :: f in used ==> f < FRAMES
  }

  /** The user half of directory `dir` realises `space`, through the page tables `tables`. */
  ghost predicate Mapped(m: Memory, dir: nat, used: set<nat>, space: map<nat, nat>, tables: map<nat, nat>) {
    && SelfMapped(m, dir)
    && TablesOwned(dir, used, tables)
    && DirectorySays(m[dir], tables)
    && (forall d :: d in tables ==> TableSays(m[tables[d]], d, space))
    && forall p :: p in space ==> p < KERNEL_PAGE && p / 1024 in tables
  }

  /** What the walk finds for a user page is what the map says. */
  lemma WalkIsSpace(m: Memory, dir: nat, used: set<nat>, space: map<nat, nat>, tables: map<nat, nat>, page: nat)
    requires Mapped(m, dir, used, space, tables) && page < KERNEL_PAGE
    ensures Walk(m, dir, page) == if page in space then Some(space[page]) else None
  {
    hide Entry, Injective, FrameOf, Large, Present;
    var d, i := page / 1024, page % 1024;
    assert page == 1024 * d + i;
    if d in tables {
      assert Says(Entry(m[tables[d]], i), 1024 * d + i, space);
    }
  }

  lemma SplitPage(page: nat, d: nat, i: nat)
    requires i < 1024
    ensures page == 1024 * d + i <==> page / 1024 == d && page % 1024 == i
  {
  }

  // Edits.

  function Moved(space: map<nat, nat>, page: nat, e: u32): map<nat, nat> {
    if Present(e) then space[page := FrameOf(e)] else space - {page}
  }

  lemma TableEdited(s: seq<byte>, s': seq<byte>, d: nat, i: nat, e: u32, space: map<nat, nat>)
    requires TableSays(s, d, space) && EntryEdited(s, s', i, e)
    ensures TableSays(s', d, Moved(space, 1024 * d + i, e))
  {
    hide Entry, FrameOf, Present;
    var space' := Moved(space, 1024 * d + i, e);
    forall j: nat | j < 1024 ensures Says(Entry(s', j), 1024 * d + j, space') {
      assert Says(Entry(s, j), 1024 * d + j, space);
    }
  }

  lemma TableKept(s: seq<byte>, d: nat, page: nat, e: u32, space: map<nat, nat>)
    requires TableSays(s, d, space) && page / 1024 != d
    ensures TableSays(s, d, Moved(space, page, e))
  {
    hide Entry, FrameOf, Present;
    forall j: nat | j < 1024 ensures Says(Entry(s, j), 1024 * d + j, Moved(space, page, e)) {
      SplitPage(1024 * d + j, d, j);
      assert Says(Entry(s, j), 1024 * d + j, space);
    }
  }

  /** A table entry is written. */
  lemma SlotWritten(m: Memory, m': Memory, dir: nat, used: set<nat>, space: map<nat, nat>, tables: map<nat, nat>,
                    page: nat, e: u32)
    requires Mapped(m, dir, used, space, tables)
    requires page < KERNEL_PAGE && page / 1024 in tables && tables[page / 1024] < FRAMES
    requires Edited(m, m', tables[page / 1024], page % 1024, e)
    ensures Mapped(m', dir, used, Moved(space, page, e), tables)
  {
    hide Entry, FrameOf, Present, TableSays, EntryEdited, DirectorySays, Points;
    var d0 := page / 1024;
    forall d | d in tables ensures TableSays(m'[tables[d]], d, Moved(space, page, e)) {
      if d == d0 {
        SplitPage(page, d0, page % 1024);
        TableEdited(m[tables[d]], m'[tables[d]], d, page % 1024, e, space);
      } else {
        TableKept(m[tables[d]], d, page, e, space);
      }
    }
  }

  /** A slot of the directory's user half is written. */
  lemma DirectoryWritten(s: seq<byte>, s': seq<byte>, d: nat, e: u32, tables: map<nat, nat>)
    requires DirectorySays(s, tables) && EntryEdited(s, s', d, e)
    ensures Present(e) && !Large(e) ==> DirectorySays(s', tables[d := FrameOf(e)])
    ensures !Present(e) ==> DirectorySays(s', tables - {d})
  {
    hide Entry, FrameOf, Present, Large;
  }

  /** A zeroed table. */
  ghost predicate Blank(table: seq<byte>) {
    |table| == PAGE && forall i: nat :: i < 1024 ==> Entry(table, i) == 0
  }

  lemma BlankSays(table: seq<byte>, d: nat, space: map<nat, nat>)
    requires Blank(table) && forall p :: p in space ==> p / 1024 != d
    ensures TableSays(table, d, space)
  {
    hide Entry;
    forall i: nat | i < 1024 ensures Says(Entry(table, i), 1024 * d + i, space) {
      SplitPage(1024 * d + i, d, i);
      assert Entry(table, i) == 0;
    }
  }

  /** The memory `m2` differs from `m` in the directory, whose slot `d` became `e`, and in frame `t`, now blank. */
  ghost predicate TableAdded(m: Memory, m2: Memory, dir: nat, d: nat, e: u32, t: nat) {
    && Physical(m) && Physical(m2) && dir < FRAMES && t < FRAMES && t != dir
    && (forall g :: 0 <= g < FRAMES && g != dir && g != t ==> m2[g] == m[g])
    && EntryEdited(m[dir], m2[dir], d, e) && Blank(m2[t])
  }

  /** A fresh frame becomes the page table of slot `d`. */
  lemma NewTable(m: Memory, m2: Memory, dir: nat, used: set<nat>, space: map<nat, nat>, tables: map<nat, nat>,
                 d: nat, e: u32, t: nat)
    requires Mapped(m, dir, used, space, tables) && d < KERNEL_SLOT && d !in tables
    requires t !in used && t < FRAMES && Points(e, t)
    requires TableAdded(m, m2, dir, d, e, t)
    ensures Mapped(m2, dir, used + {t}, space, tables[d := t])
  {
    hide Entry, FrameOf, Present, TableSays, DirectorySays, Large, Blank;
    DirectoryWritten(m[dir], m2[dir], d, e, tables);
    BlankSays(m2[t], d, space);
  }

  /** The page table of slot `d`, which maps nothing, is given back. */
  lemma TableDropped(m: Memory, m': Memory, dir: nat, used: set<nat>, space: map<nat, nat>, tables: map<nat, nat>,
                     d: nat)
    requires Mapped(m, dir, used, space, tables) && d in tables
    requires forall p :: p in space ==> p / 1024 != d
    requires Edited(m, m', dir, d, 0)
    ensures Mapped(m', dir, used - {tables[d]}, space, tables - {d})
  {
    hide Entry, FrameOf, TableSays, DirectorySays, Large;
    DirectoryWritten(m[dir], m'[dir], d, 0, tables);
  }

  /** Frames that hold neither the directory nor a page table can be written freely. */
  lemma DataWritten(m: Memory, m': Memory, dir: nat, used: set<nat>, space: map<nat, nat>, tables: map<nat, nat>,
                    f: nat)
    requires Mapped(m, dir, used, space, tables) && Physical(m')
    requires f != dir && f !in tables.Values
    requires forall g :: 0 <= g < FRAMES && g != f ==> m'[g] == m[g]
    ensures Mapped(m', dir, used, space, tables)
  {
    hide Entry, FrameOf, TableSays, DirectorySays, Large, Points;
  }

  // Accounting.

  /** Every allocated frame is exactly one of: mapped at one page, a page table, held by a caller. */
  ghost predicate Accounted(used: set<nat>, space: map<nat, nat>, tables: map<nat, nat>, held: set<nat>) {
    && Injective(space) && Injective(tables)
    && space.Values !! tables.Values && space.Values !! held && tables.Values !! held
    && used == space.Values + tables.Values + held
  }

  lemma {:induction false} InjectiveSize(f: map<nat, nat>)
    requires Injective(f)
    ensures |f.Values| == |f|
  {
    if x :| x in f {
      var g := f - {x};
      InjectiveSize(g);
      assert f == g[x := f[x]];
      assert f.Values == g.Values + {f[x]};
      assert f[x] !in g.Values;
    } else {
      assert f == map[];
    }
  }

  /** total_alloc is the number of mapped pages, page tables and held frames together. */
  lemma FramesConserved(used: set<nat>, space: map<nat, nat>, tables: map<nat, nat>, held: set<nat>)
    requires Accounted(used, space, tables, held)
    ensures |used| == |space| + |tables| + |held|
  {
    InjectiveSize(space);
    InjectiveSize(tables);
    hide Injective;
  }

  lemma FrameTaken(used: set<nat>, space: map<nat, nat>, tables: map<nat, nat>, held: set<nat>, f: nat)
    requires Accounted(used, space, tables, held) && f !in used
    ensures Accounted(used + {f}, space, tables, held + {f})
  {
    hide Injective;
  }

  lemma WithOne(f: map<nat, nat>, x: nat, v: nat)
    requires Injective(f) && x !in f && v !in f.Values
    ensures Injective(f[x := v]) && f[x := v].Values == f.Values + {v}
  {
    var g := f[x := v];
    forall w ensures w in g.Values <==> w in f.Values || w == v {
      if w in f.Values {
        var y :| y in f && f[y] == w;
        assert g[y] == w;
      }
      if w == v {
        assert g[x] == w;
      }
    }
    assert forall y :: y in f ==> f[y] in f.Values;
  }

  lemma TableTaken(used: set<nat>, space: map<nat, nat>, tables: map<nat, nat>, held: set<nat>, d: nat, t: nat)
    requires Accounted(used, space, tables, held) && t !in used && d !in tables
    ensures Accounted(used + {t}, space, tables[d := t], held)
  {
    WithOne(tables, d, t);
    hide Injective;
  }

  lemma PageMapped(used: set<nat>, space: map<nat, nat>, tables: map<nat, nat>, held: set<nat>, page: nat, f: nat)
    requires Accounted(used, space, tables, held) && f in held && page !in space
    ensures Accounted(used, space[page := f], tables, held - {f})
  {
    WithOne(space, page, f);
    hide Injective;
  }

  /** Taking one key out of an injective map takes exactly its value out. */
  lemma WithoutOne(f: map<nat, nat>, x: nat)
    requires Injective(f) && x in f
    ensures Injective(f - {x}) && (f - {x}).Values == f.Values - {f[x]}
  {
    var g := f - {x};
    forall v ensures v in g.Values <==> v in f.Values && v != f[x] {
      if v in f.Values && v != f[x] {
        var y :| y in f && f[y] == v;
        assert y in g && g[y] == v;
      }
    }
  }

  lemma PageUnmapped(used: set<nat>, space: map<nat, nat>, tables: map<nat, nat>, held: set<nat>, page: nat)
    requires Accounted(used, space, tables, held) && page in space
    ensures Accounted(used - {space[page]}, space - {page}, tables, held)
  {
    WithoutOne(space, page);
    hide Injective;
  }

  lemma TableGiven(used: set<nat>, space: map<nat, nat>, tables: map<nat, nat>, held: set<nat>, d: nat)
    requires Accounted(used, space, tables, held) && d in tables
    ensures Accounted(used - {tables[d]}, space, tables - {d}, held)
  {
    WithoutOne(tables, d);
    hide Injective;
  }

  /** A new page directory, zero but for the slot that points to itself, realises the empty address space. */
  lemma FreshDirectory(m: Memory, dir: nat, used: set<nat>)
    requires Physical(m) && dir < FRAMES && dir !in used && forall f :: f in used ==> f < FRAMES
    requires Points(Entry(m[dir], SELF_SLOT), dir)
    requires forall d: nat :: d < KERNEL_SLOT ==> Entry(m[dir], d) == 0
    ensures Mapped(m, dir, used, map[], map[])
    ensures Accounted(used, map[], map[], used)
  {
    hide Entry, Points;
  }
}
