/** Whole runs of the driver: any sequence of writes, directory creations and deletions acts on the volume as the
    corresponding updates act on a map from paths to files and directories. */
module FatRuns {
  import opened Bytes
  import opened FatLayout
  import opened FatVolume
  import opened FatTree
  import opened FatPath
  import opened FatScan
  import opened FatChains
  import opened FatOps
  import opened FatGrowth
  import opened FatFileSystem

  datatype Op = Write(path: seq<byte>, buf: seq<byte>) | MakeDirectory(path: seq<byte>) | Delete(path: seq<byte>)

  type Listing = map<Path, Item>

  ghost predicate IsDirectory(v: Listing, p: Path) { p in v && v[p].Directory? }

  ghost predicate IsEmpty(v: Listing, q: Path) { forall r :: r in v && r != [] ==> Parent(r) != q }

  /** What an operation means. */
  ghost function Apply(v: Listing, op: Op, bpc: nat): Listing
    requires bpc > 0 && NamesOf(op.path) != []
  {
    var q := NamesOf(op.path);
    match op
    case Write(_, buf) => if IsDirectory(v, Parent(q)) then v[q := File(Kept(buf, bpc))] else v
    case MakeDirectory(_) => if q !in v && IsDirectory(v, Parent(q)) then v[q := Directory] else v
    case Delete(_) => if q in v && (v[q].Directory? ==> IsEmpty(v, q)) then v - {q} else v
  }

  /** The paths the driver handles. */
  ghost predicate Proper(op: Op) {
    && 0 !in op.path && NamesOf(op.path) != [] && !EndsInTwoSlashes(op.path)
    && (!op.Delete? ==> LeafOf(op.path) != [] && LeafOf(op.path)[0] != 0xE5)
    && (op.Write? ==> |op.buf| < U32)
  }

  /** A write over a directory that has entries: the old directory stays, and would get a namesake. */
  ghost predicate Blocked(v: Listing, op: Op) {
    op.Write? && IsDirectory(v, NamesOf(op.path)) && !IsEmpty(v, NamesOf(op.path))
  }

  ghost function ApplyAll(v: Listing, ops: seq<Op>, bpc: nat): Listing
    requires bpc > 0 && forall op :: op in ops ==> NamesOf(op.path) != []
    decreases |ops|
  {
    if ops == [] then v else ApplyAll(Apply(v, ops[0], bpc), ops[1..], bpc)
  }

  // ---- the volume at a point of a run ----

  /** The abstract volume, the tree it stores, and the clusters that are in use on no chain. */
  datatype Point = Point(fat: seq<nat>, data: seq<seq<byte>>, tree: Tree, lost: set<nat>)

  ghost function Here(fs: FileSystem): Point
    reads fs, fs.vol
  {
    Point(fs.vol.fat, fs.vol.data, fs.tree, fs.lost)
  }

  ghost function Shown(s: Point): Listing {
    View(s.data, s.tree)
  }

  ghost predicate HasParent(s: Point, q: Path)
    requires q != []
  {
    Parent(q) in s.tree && s.tree[Parent(q)].isDir
  }

  /** The clusters free once fat32_delete has been tried on `q`. */
  ghost function SpareAt(s: Point, q: Path): set<nat> {
    FreeSet(s.fat) + if Removable(s.tree, q) then Cells(s.tree[q].chain) else {}
  }

  /** A new entry for `q` finds no place in its directory. */
  ghost predicate Grows(s: Point, q: Path, per: nat)
    requires q != []
  {
    !Removable(s.tree, q) && Parent(q) in s.tree && DirFull(per, s.data, s.tree[Parent(q)].chain)
  }

  /**
   * The clusters the operation takes are there: those free, those of an old file, and one more if the directory grows.
   */
  ghost predicate Suffices(s: Point, op: Op, per: nat, bpc: nat)
    requires bpc > 0 && NamesOf(op.path) != []
  {
    var q := NamesOf(op.path);
    var extra := if Grows(s, q, per) then 1 else 0;
    match op
    case Write(_, buf) => HasParent(s, q) ==> |SpareAt(s, q)| >= ClustersNeeded(|buf|, bpc) + extra
    case MakeDirectory(_) => HasParent(s, q) && q !in s.tree ==> |FreeSet(s.fat)| >= 1 + extra
    case Delete(_) => true
  }

  /** A write of `buf` makes an entry: the allocation does not give up, and a full directory still finds a cluster. */
  ghost predicate MakesEntry(s: Point, q: Path, buf: seq<byte>, per: nat, bpc: nat)
    requires bpc > 0 && q != []
  {
    var n := |SpareAt(s, q)|;
    var k := Taken(ClustersNeeded(|buf|, bpc), n);
    HasParent(s, q) && k > 0 && (Grows(s, q, per) ==> k < n)
  }

  /** The operation leaves no tree: a write over a directory with entries for which the clusters are there. */
  ghost predicate Breaks(s: Point, op: Op, per: nat, bpc: nat)
    requires bpc > 0 && NamesOf(op.path) != []
  {
    Blocked(Shown(s), op) && MakesEntry(s, NamesOf(op.path), op.buf, per, bpc)
  }

  /** Every cluster that was there to be taken is lost. */
  ghost predicate AllLost(s: Point, spare: set<nat>, s': Point) {
    FreeSet(s'.fat) == {} && s'.lost == s.lost + spare
  }

  /** What an operation does when its clusters are not there. */
  ghost predicate FallsShort(s: Point, op: Op, s': Point, per: nat, bpc: nat)
    requires bpc > 0 && NamesOf(op.path) != []
  {
    var q := NamesOf(op.path);
    match op
    case Write(_, buf) =>
      if MakesEntry(s, q, buf, per, bpc) then
        Shown(s') == Shown(s)[q := File(Fitting(buf, |SpareAt(s, q)|, bpc))] && s'.lost == s.lost
      else
        && Shown(s') == (if Removable(s.tree, q) then Shown(s) - {q} else Shown(s))
        && AllLost(s, SpareAt(s, q), s')
    case MakeDirectory(_) => Shown(s') == Shown(s) && AllLost(s, FreeSet(s.fat), s')
    case Delete(_) => false
  }

  /** One operation, whether its clusters are there or not. */
  ghost predicate Does(s: Point, op: Op, s': Point, per: nat, bpc: nat)
    requires bpc > 0 && NamesOf(op.path) != []
  {
    if Suffices(s, op, per, bpc) then Shown(s') == Apply(Shown(s), op, bpc) && s'.lost == s.lost
    else FallsShort(s, op, s', per, bpc)
  }

  lemma ViewFacts(data: seq<seq<byte>>, tree: Tree, q: Path)
    ensures q in View(data, tree) <==> q in tree
    ensures q in tree ==> (View(data, tree)[q].Directory? <==> tree[q].isDir)
    ensures Childless(tree, q) <==> IsEmpty(View(data, tree), q)
  {
  }

  /** What WriteFile promises, point by point: `k` clusters were taken and named, or everything was lost. */
  ghost predicate Wrote(s: Point, s': Point, q: Path, buf: seq<byte>, per: nat, bpc: nat)
    requires bpc > 0 && q != []
  {
    var rest := if Removable(s.tree, q) then Shown(s) - {q} else Shown(s);
    if !HasParent(s, q) then Shown(s') == Shown(s) && s'.lost == s.lost
    else if MakesEntry(s, q, buf, per, bpc) then
      var k := Taken(ClustersNeeded(|buf|, bpc), |SpareAt(s, q)|);
      Shown(s') == rest[q := File(Fitting(buf, k, bpc))] && s'.lost == s.lost
    else Shown(s') == rest && AllLost(s, SpareAt(s, q), s')
  }

  lemma WroteDoes(s: Point, s': Point, path: seq<byte>, buf: seq<byte>, per: nat, bpc: nat)
    requires bpc > 0 && NamesOf(path) != [] && Wrote(s, s', NamesOf(path), buf, per, bpc)
    ensures Does(s, Write(path, buf), s', per, bpc)
  {
    var q := NamesOf(path);
    hide View, NamesOf, FreeSet, Childless, IsEmpty, Kept, ClustersNeeded, DirFull, Cells, Fitting, Removable;
    ViewFacts(s.data, s.tree, Parent(q));
    KeptFront(buf, bpc);
    TakenFacts(ClustersNeeded(|buf|, bpc), |SpareAt(s, q)|);
    hide Taken;
  }

  method StepWrite(fs: FileSystem, path: seq<byte>, buf: seq<byte>) returns (entered: bool)
    requires fs.Valid() && fs.vol.geo.BytesPerCluster() > 0 && Proper(Write(path, buf))
    modifies fs`tree, fs`lost, fs.vol`disk, fs.vol`fat, fs.vol`data, fs.vol`lastFree
    ensures var bpc := fs.vol.geo.BytesPerCluster();
            && (entered <==> MakesEntry(old(Here(fs)), NamesOf(path), buf, fs.Per(), bpc))
            && if Breaks(old(Here(fs)), Write(path, buf), fs.Per(), bpc) then fs.Broken()
               else fs.Valid() && Does(old(Here(fs)), Write(path, buf), Here(fs), fs.Per(), bpc)
  {
    hide FileSystem.Valid, View, NamesOf, LeafOf, EndsInTwoSlashes, FreeSet, Childless, IsEmpty, Kept, ClustersNeeded;
    hide DirFull, Cells, Fitting, FileSystem.Per, FileSystem.Broken, FileSystem.TookExactly, FileSystem.EntryStands;
    hide Asks, FileSystem.Succeeds, Does, Taken;
    ghost var q, s := NamesOf(path), Here(fs);
    ghost var bpc, per := fs.vol.geo.BytesPerCluster(), fs.Per();
    ViewFacts(fs.vol.data, fs.tree, q);
    ViewFacts(fs.vol.data, fs.tree, Parent(q));
    ChildHasParent(fs, q);
    var _, e := fs.WriteFile(path, buf);
    entered := e;
    ViewWithout(s.data, s.tree, q);
    if !Breaks(s, Write(path, buf), per, bpc) {
      WroteDoes(s, Here(fs), path, buf, per, bpc);
    }
  }

  lemma TakenFacts(n: nat, free: nat)
    ensures n <= free ==> Taken(n, free) == n
    ensures n > free ==> Taken(n, free) == if n == free + 1 then free else 0
  {
  }

  lemma ChildHasParent(fs: FileSystem, q: Path)
    requires fs.Valid() && q != []
    ensures q in fs.tree ==> Parent(q) in fs.tree && fs.tree[Parent(q)].isDir
  {
    hide Volume.Valid, ChainsOk, DirsOk;
    if q in fs.tree {
      ParentDir(fs.Root(), fs.Per(), fs.vol.data, fs.tree, q);
    }
  }

  method StepMakeDirectory(fs: FileSystem, path: seq<byte>)
    requires fs.Valid() && fs.vol.geo.BytesPerCluster() > 0 && Proper(MakeDirectory(path))
    modifies fs`tree, fs`lost, fs.vol`disk, fs.vol`fat, fs.vol`data, fs.vol`lastFree
    ensures fs.Valid()
    ensures Does(old(Here(fs)), MakeDirectory(path), Here(fs), fs.Per(), fs.vol.geo.BytesPerCluster())
  {
    hide FileSystem.Valid, View, NamesOf, LeafOf, EndsInTwoSlashes, FreeSet, Childless, IsEmpty, Kept, ClustersNeeded;
    hide DirFull, Cells, Fitting, FileSystem.Per;
    ghost var q := NamesOf(path);
    ViewFacts(fs.vol.data, fs.tree, q);
    ViewFacts(fs.vol.data, fs.tree, Parent(q));
    var _ := fs.CreateDirectory(path);
  }

  method StepDelete(fs: FileSystem, path: seq<byte>)
    requires fs.Valid() && fs.vol.geo.BytesPerCluster() > 0 && Proper(Delete(path))
    modifies fs`tree, fs.vol`disk, fs.vol`fat, fs.vol`data
    ensures fs.Valid()
    ensures Does(old(Here(fs)), Delete(path), Here(fs), fs.Per(), fs.vol.geo.BytesPerCluster())
  {
    hide FileSystem.Valid, View, NamesOf, LeafOf, EndsInTwoSlashes, FreeSet, Childless, IsEmpty, Kept, ClustersNeeded;
    hide DirFull, Cells, FileSystem.Per;
    ghost var q := NamesOf(path);
    ViewFacts(fs.vol.data, fs.tree, q);
    var _ := fs.Delete(path);
  }

  method Step(fs: FileSystem, op: Op) returns (entered: bool)
    requires fs.Valid() && fs.vol.geo.BytesPerCluster() > 0 && Proper(op)
    modifies fs`tree, fs`lost, fs.vol`disk, fs.vol`fat, fs.vol`data, fs.vol`lastFree
    ensures var bpc := fs.vol.geo.BytesPerCluster();
            && (entered && Blocked(Shown(old(Here(fs))), op) <==> Breaks(old(Here(fs)), op, fs.Per(), bpc))
            && if Breaks(old(Here(fs)), op, fs.Per(), bpc) then fs.Broken()
               else fs.Valid() && Does(old(Here(fs)), op, Here(fs), fs.Per(), bpc)
  {
    hide FileSystem.Valid, Shown, Does, FreeSet, Here, MakesEntry, FileSystem.Broken, IsEmpty, NamesOf, FileSystem.Per;
    entered := false;
    match op {
      case Write(path, buf) => entered := StepWrite(fs, path, buf);
      case MakeDirectory(path) => StepMakeDirectory(fs, path);
      case Delete(path) => StepDelete(fs, path);
    }
  }

  /** Whether a write would hit a directory that has entries, found as fat32_delete finds it. */
  method IsBlocked(fs: FileSystem, op: Op) returns (blocked: bool)
    requires fs.Valid() && 0 !in op.path && NamesOf(op.path) != []
    ensures blocked <==> Blocked(Shown(Here(fs)), op)
  {
    hide FileSystem.Valid, View, NamesOf, IsEmpty, Childless, Walkable, Describes;
    if !op.Write? {
      return false;
    }
    ghost var q := NamesOf(op.path);
    ViewFacts(fs.vol.data, fs.tree, q);
    FileSystemWalkable(fs, q);
    var found, entry, _ := fs.FindFile(op.path, fs.tree);
    if !found {
      return false;
    }
    DescribesDir(entry, fs.tree[q]);
    if !MarksDir(entry) {
      return false;
    }
    blocked := fs.HasEntries(entry.first, q);
    if blocked {
      HasChild(fs.tree, q);
    } else {
      ChildlessByName(fs.tree, q);
    }
  }

  lemma FileSystemWalkable(fs: FileSystem, q: Path)
    requires fs.Valid()
    ensures fs.vol.Valid() && fs.Dirs(fs.tree) && Walkable(fs.vol.fat, fs.tree, q)
  {
    hide Volume.Valid, DirsOk, ChainsOk, Walkable;
    WalkableAll(fs.vol.fat, fs.tree, fs.lost, q);
  }

  /** A run, point by point. */
  ghost predicate Trace(ops: seq<Op>, states: seq<Point>, per: nat, bpc: nat) {
    && bpc > 0 && |states| == |ops| + 1
    && forall i :: 0 <= i < |ops| ==>
         && NamesOf(ops[i].path) != [] && !Breaks(states[i], ops[i], per, bpc)
         && Does(states[i], ops[i], states[i + 1], per, bpc)
  }

  /** Wherever the operations of a run found their clusters, the volume shows what they mean, and nothing is lost. */
  lemma {:induction false} TraceApplies(ops: seq<Op>, states: seq<Point>, per: nat, bpc: nat)
    requires Trace(ops, states, per, bpc)
    requires forall i :: 0 <= i < |ops| ==> Suffices(states[i], ops[i], per, bpc)
    ensures Shown(states[|ops|]) == ApplyAll(Shown(states[0]), ops, bpc)
    ensures states[|ops|].lost == states[0].lost
    decreases |ops|
  {
    hide Shown, Apply, Suffices, NamesOf, Breaks;
    if ops != [] {
      assert Does(states[0], ops[0], states[1], per, bpc);
      hide Does;
      TraceApplies(ops[1..], states[1..], per, bpc);
    }
  }

  /**
   * Every run: whether or not clusters run out, the volume stays a tree, with every cluster in use on exactly one chain
   * or among the lost, and each operation does what `Does` says; as long as clusters suffice that is what it means.
   * Only a write over a directory with entries whose clusters are there ends the run, and then no tree is left.
   */
  method Run(fs: FileSystem, ops: seq<Op>) returns (done: nat, ghost states: seq<Point>)
    requires fs.Valid() && fs.vol.geo.BytesPerCluster() > 0 && forall op :: op in ops ==> Proper(op)
    modifies fs`tree, fs`lost, fs.vol`disk, fs.vol`fat, fs.vol`data, fs.vol`lastFree
    ensures done <= |ops| && |states| == done + 1
    ensures Trace(ops[..done], states, fs.Per(), fs.vol.geo.BytesPerCluster())
    ensures states[0] == old(Here(fs))
    ensures done == |ops| ==> fs.Valid() && states[done] == Here(fs)
    ensures done < |ops| ==> NamesOf(ops[done].path) != []
    ensures done < |ops| ==>
              fs.Broken() && Breaks(states[done], ops[done], fs.Per(), fs.vol.geo.BytesPerCluster())
    decreases |ops|
  {
    hide FileSystem.Valid, View, FreeSet, Does, NamesOf, Here, Blocked, Shown, FileSystem.Per, Trace, Proper, Breaks;
    hide FileSystem.Broken;
    states := [Here(fs)];
    TraceStart(states[0], fs.Per(), fs.vol.geo.BytesPerCluster());
    assert ops[..0] == [];
    if ops == [] {
      return 0, states;
    }
    ProperNames(ops[0]);
    var blocked := IsBlocked(fs, ops[0]);
    var entered := Step(fs, ops[0]);
    if blocked && entered {
      return 0, states;
    }
    ghost var later;
    done, later := Run(fs, ops[1..]);
    TraceMore(ops, done, states[0], later, fs.Per(), fs.vol.geo.BytesPerCluster());
    states := [states[0]] + later;
    done := done + 1;
  }

  lemma ProperNames(op: Op)
    requires Proper(op)
    ensures 0 !in op.path && NamesOf(op.path) != []
  {
    hide NamesOf;
  }

  lemma TraceStart(s: Point, per: nat, bpc: nat)
    requires bpc > 0
    ensures Trace([], [s], per, bpc)
  {
  }

  lemma TraceMore(ops: seq<Op>, done: nat, s: Point, later: seq<Point>, per: nat, bpc: nat)
    requires ops != [] && done <= |ops| - 1 && Trace(ops[1..][..done], later, per, bpc)
    requires later != [] && bpc > 0 && NamesOf(ops[0].path) != []
    requires !Breaks(s, ops[0], per, bpc) && Does(s, ops[0], later[0], per, bpc)
    ensures Trace(ops[..done + 1], [s] + later, per, bpc) && |later| == done + 1
  {
    hide Does, NamesOf, Breaks;
    var rest, states := ops[1..][..done], [s] + later;
    assert forall i :: 0 <= i < done ==> rest[i] == ops[i + 1];
    forall i | 0 <= i < done + 1
      ensures NamesOf(ops[i].path) != [] && !Breaks(states[i], ops[i], per, bpc)
      ensures Does(states[i], ops[i], states[i + 1], per, bpc)
    {
      if i > 0 {
        assert NamesOf(rest[i - 1].path) != [] && Does(later[i - 1], rest[i - 1], later[i], per, bpc);
      }
    }
  }

  /** Written bytes are read back, and every other file reads as before. */
  method WriteThenRead(fs: FileSystem, path: seq<byte>, buf: seq<byte>, other: seq<byte>)
    returns (n: nat, back: seq<byte>, before: seq<byte>, after: seq<byte>)
    requires fs.Valid() && 0 < fs.vol.geo.BytesPerCluster() <= 0x1_0000
    requires |buf| + fs.vol.geo.BytesPerCluster() <= U32
    requires Proper(Write(path, buf)) && !Blocked(Shown(Here(fs)), Write(path, buf))
    requires HasParent(Here(fs), NamesOf(path))
    requires Suffices(Here(fs), Write(path, buf), fs.Per(), fs.vol.geo.BytesPerCluster())
    requires 0 !in other && NamesOf(other) != NamesOf(path)
    requires NamesOf(other) in fs.tree ==> !fs.tree[NamesOf(other)].isDir
    modifies fs`tree, fs`lost, fs.vol`disk, fs.vol`fat, fs.vol`data, fs.vol`lastFree
    ensures fs.Valid()
    ensures n == |buf| && back == buf && after == before
  {
    hide FileSystem.Valid, View, NamesOf, LeafOf, EndsInTwoSlashes, FreeSet, Childless, Kept, ClustersNeeded, DirFull;
    hide Contents, Cells, FileSystem.Per, IsEmpty, Fitting, FileSystem.TookExactly, FileSystem.EntryStands, Asks;
    ghost var q, s := NamesOf(path), Here(fs);
    before := fs.ReadFile(other);
    ShownFile(fs.vol.data, fs.tree, NamesOf(other));
    ViewFacts(fs.vol.data, fs.tree, q);
    KeptAll(buf, fs.vol.geo.BytesPerCluster());
    var entered;
    n, entered := fs.WriteFile(path, buf);
    ViewWithout(s.data, s.tree, q);
    KeptFront(buf, fs.vol.geo.BytesPerCluster());
    back := fs.ReadFile(path);
    ShownFile(fs.vol.data, fs.tree, q);
    after := fs.ReadFile(other);
    ShownFile(fs.vol.data, fs.tree, NamesOf(other));
  }

  lemma KeptFront(buf: seq<byte>, bpc: nat)
    requires bpc > 0
    ensures Kept(buf, bpc) == Fitting(buf, ClustersNeeded(|buf|, bpc), bpc)
    ensures ClustersNeeded(|buf|, bpc) >= 1
  {
    SomeNeeded(|buf|, bpc);
  }

  /** A file's entry in the listing is what reading it returns. */
  lemma ShownFile(data: seq<seq<byte>>, tree: Tree, q: Path)
    ensures q in View(data, tree) <==> q in tree
    ensures q in tree && View(data, tree)[q].File? ==> View(data, tree)[q].bytes == Contents(data, tree[q])
    ensures q in tree && !tree[q].isDir ==> View(data, tree)[q].File?
  {
    hide Contents;
  }

  // ---- the tree is in the bytes ----

  lemma RootDetermined(root: nat, per: nat, fat: seq<nat>, data: seq<seq<byte>>, a: Tree, b: Tree,
                       la: set<nat>, lb: set<nat>)
    requires |fat| <= EOC
    requires ChainsOk(fat, a, la) && DirsOk(root, per, data, a)
    requires ChainsOk(fat, b, lb) && DirsOk(root, per, data, b)
    ensures [] in a && [] in b && a[[]] == b[[]]
  {
    hide DirOk, Linked, NoShare, Accounted, ChainOk;
    SameChain(fat, a[[]], b[[]]);
  }

  /** If the parent is the same in both trees, the slot of `q` makes `q` the same. */
  lemma ChildDetermined(per: nat, data: seq<seq<byte>>, a: Tree, b: Tree, q: Path)
    requires q in a && q != [] && Linked(per, data, a, q)
    requires Parent(q) in a && Parent(q) in b && a[Parent(q)] == b[Parent(q)] && DirOk(per, data, b, Parent(q))
    requires q in b ==> Linked(per, data, b, q)
    ensures q in b && b[q] == Node(a[q].isDir, b[q].chain, a[q].size, a[q].cl, a[q].ix) && a[q].Head() == b[q].Head()
  {
    hide EntryIn, NamesChild, Terminated, MarksLongName, MarksDir;
    var p := Parent(q);
    var k :| 0 <= k < |a[p].chain| && a[p].chain[k] == a[q].cl;
    assert SlotKnown(data, b, p, b[p].chain[k], a[q].ix);
    assert q == p + [Leaf(q)];
  }

  lemma {:induction false} NodeDetermined(root: nat, per: nat, fat: seq<nat>, data: seq<seq<byte>>, a: Tree, b: Tree,
                       la: set<nat>, lb: set<nat>, q: Path)
    requires |fat| <= EOC && q in a
    requires ChainsOk(fat, a, la) && DirsOk(root, per, data, a)
    requires ChainsOk(fat, b, lb) && DirsOk(root, per, data, b)
    ensures q in b && a[q] == b[q]
    decreases |q|
  {
    hide NoShare, Accounted, ChainOk, DirOk, Linked;
    if q == [] {
      RootDetermined(root, per, fat, data, a, b, la, lb);
    } else {
      ParentDir(root, per, data, a, q);
      NodeDetermined(root, per, fat, data, a, b, la, lb, Parent(q));
      ChildDetermined(per, data, a, b, q);
      SameChain(fat, a[q], b[q]);
    }
  }

  /** A volume stores one tree: FAT and cluster contents determine every path, chain, size and slot. */
  lemma {:induction false} TreeDetermined(root: nat, per: nat, fat: seq<nat>, data: seq<seq<byte>>, a: Tree, b: Tree,
                       la: set<nat>, lb: set<nat>)
    requires |fat| <= EOC
    requires ChainsOk(fat, a, la) && DirsOk(root, per, data, a)
    requires ChainsOk(fat, b, lb) && DirsOk(root, per, data, b)
    ensures a == b
  {
    hide ChainsOk, DirsOk;
    forall q | q in a
      ensures q in b && a[q] == b[q]
    {
      NodeDetermined(root, per, fat, data, a, b, la, lb, q);
    }
    forall q | q in b
      ensures q in a
    {
      NodeDetermined(root, per, fat, data, b, a, lb, la, q);
    }
  }

  // ---- where runs begin ----

  ghost function EmptyTree(root: nat): Tree {
    map[[] := Node(true, [root], 0, 0, 0)]
  }

  lemma FreshChains(root: nat, fat: seq<nat>)
    requires 2 <= root < |fat| && fat[root] >= EOC
    requires forall c :: 2 <= c < |fat| && c != root ==> fat[c] == 0
    ensures ChainsOk(fat, EmptyTree(root), {})
  {
    var t := EmptyTree(root);
    assert Owns(t, [], root);
    assert ChainOk(fat, [root]);
    hide ChainOk;
  }

  lemma FreshRoot(root: nat, per: nat, data: seq<seq<byte>>)
    requires forall j: nat :: j < per ==> Unused(EntryIn(data, root, j))
    ensures DirOk(per, data, EmptyTree(root), [])
  {
    hide EntryIn, IsDot, MarksLongName;
    forall j: nat | j < per ensures SlotKnown(data, EmptyTree(root), [], root, j) {
      assert Unused(EntryIn(data, root, j));
    }
    hide SlotKnown;
  }

  /** A freshly formatted volume, whose only chain is the unused root cluster, stores the tree of its root alone. */
  lemma FreshVolume(root: nat, per: nat, fat: seq<nat>, data: seq<seq<byte>>)
    requires 2 <= root < |fat| && fat[root] >= EOC
    requires forall c :: 2 <= c < |fat| && c != root ==> fat[c] == 0
    requires forall j: nat :: j < per ==> Unused(EntryIn(data, root, j))
    ensures ChainsOk(fat, EmptyTree(root), {}) && DirsOk(root, per, data, EmptyTree(root))
    ensures View(data, EmptyTree(root)) == map[[] := Directory]
  {
    hide EntryIn, DirOk, Linked, ChainsOk;
    FreshChains(root, fat);
    FreshRoot(root, per, data);
    assert EmptyTree(root)[[]].Head() == root;
  }
}
