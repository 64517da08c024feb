/** Calls that no longer leave a tree on the volume: a write over a directory with entries, and a deletion through a
    path that ends in two slashes. */
module FatBreaks {
  import opened Bytes
  import opened FatLayout
  import opened FatVolume
  import opened FatTree
  import opened FatTreeSteps
  import opened FatPath
  import opened FatChains
  import opened FatOps

  /** The chain of a node and the slot that names it read as before. */
  ghost predicate NodeKept(fat: seq<nat>, data: seq<seq<byte>>, fat': seq<nat>, data': seq<seq<byte>>, node: Node) {
    && |fat'| == |fat|
    && (forall c :: c in node.chain && c < |fat| ==> fat'[c] == fat[c])
    && EntryIn(data', node.cl, node.ix) == EntryIn(data, node.cl, node.ix)
  }

  ghost predicate WayKept(fat: seq<nat>, data: seq<seq<byte>>, fat': seq<nat>, data': seq<seq<byte>>, t: Tree,
                          r: Path) {
    forall k :: 0 <= k <= |r| && r[..k] in t ==> NodeKept(fat, data, fat', data', t[r[..k]])
  }

  /** A kept chain is the only one from its head. */
  lemma KeptIsOnly(fat: seq<nat>, fat': seq<nat>, a: Node, b: Node)
    requires |fat| <= EOC && |fat'| == |fat| && ChainOk(fat, a.chain) && ChainOk(fat', b.chain) && a.Head() == b.Head()
    requires forall c :: c in a.chain && c < |fat| ==> fat'[c] == fat[c]
    ensures a.chain == b.chain
  {
    ChainFrame(fat, fat', a.chain);
    SameChain(fat', a, b);
  }

  /** A slot that still names `q` puts `q` into any tree in which its parent is the same. */
  lemma SlotNames(per: nat, data: seq<seq<byte>>, data': seq<seq<byte>>, a: Tree, b: Tree, q: Path)
    requires q in a && q != [] && Linked(per, data, a, q)
    requires EntryIn(data', a[q].cl, a[q].ix) == EntryIn(data, a[q].cl, a[q].ix)
    requires Parent(q) in b && a[Parent(q)] == b[Parent(q)] && DirOk(per, data', b, Parent(q))
    requires q in b ==> Linked(per, data', b, q)
    ensures q in b && b[q] == Node(a[q].isDir, b[q].chain, a[q].size, a[q].cl, a[q].ix) && a[q].Head() == b[q].Head()
  {
    hide EntryIn, NamesChild, Terminated, MarksLongName, MarksDir;
    var p := Parent(q);
    var k :| 0 <= k < |a[p].chain| && a[p].chain[k] == a[q].cl;
    assert SlotKnown(data', b, p, b[p].chain[k], a[q].ix);
    assert q == p + [Leaf(q)];
  }

  /** A path whose way is kept leads to the same node in whatever tree the changed volume stores. */
  lemma {:induction false} WayDetermines(root: nat, per: nat, fat: seq<nat>, data: seq<seq<byte>>, a: Tree,
                                         la: set<nat>, fat': seq<nat>, data': seq<seq<byte>>, b: Tree,
                                         lb: set<nat>, r: Path)
    requires |fat| <= EOC && r in a && WayKept(fat, data, fat', data', a, r)
    requires ChainsOk(fat, a, la) && DirsOk(root, per, data, a)
    requires ChainsOk(fat', b, lb) && DirsOk(root, per, data', b)
    ensures r in b && b[r] == a[r]
    decreases |r|
  {
    hide NoShare, Accounted, ChainOk, DirOk, Linked, EntryIn;
    assert r[..|r|] == r;
    assert NodeKept(fat, data, fat', data', a[r]);
    if r != [] {
      var p := Parent(r);
      ParentDir(root, per, data, a, r);
      WayAbove(fat, data, fat', data', a, r);
      WayDetermines(root, per, fat, data, a, la, fat', data', b, lb, p);
      SlotNames(per, data, data', a, b, r);
    }
    KeptIsOnly(fat, fat', a[r], b[r]);
  }

  lemma WayAbove(fat: seq<nat>, data: seq<seq<byte>>, fat': seq<nat>, data': seq<seq<byte>>, t: Tree, r: Path)
    requires r != [] && WayKept(fat, data, fat', data', t, r)
    ensures WayKept(fat, data, fat', data', t, Parent(r))
  {
    hide NodeKept;
    forall k | 0 <= k <= |r| - 1 && Parent(r)[..k] in t
      ensures NodeKept(fat, data, fat', data', t[Parent(r)[..k]])
    {
      assert Parent(r)[..k] == r[..k];
    }
  }

  /** Two live slots of one directory with one name fit no tree. */
  lemma NamesakesBreak(root: nat, per: nat, data: seq<seq<byte>>, t: Tree, p: Path, c: nat, j: nat, c': nat, j': nat)
    requires p in t && t[p].isDir && c in t[p].chain && c' in t[p].chain && j < per && j' < per && (c, j) != (c', j')
    requires NamesChild(EntryIn(data, c, j)) && NamesChild(EntryIn(data, c', j'))
    requires EntryIn(data, c, j).name == EntryIn(data, c', j').name
    ensures !DirsOk(root, per, data, t)
  {
    hide EntryIn, NamesChild, Terminated, MarksLongName;
    var k :| 0 <= k < |t[p].chain| && t[p].chain[k] == c;
    var k' :| 0 <= k' < |t[p].chain| && t[p].chain[k'] == c';
    assert !(SlotKnown(data, t, p, t[p].chain[k], j) && SlotKnown(data, t, p, t[p].chain[k'], j'));
    assert !DirOk(per, data, t, p);
  }

  /** The slot of a node is in use, so writing an opening leaves it alone. */
  lemma OpeningElsewhere(per: nat, data: seq<seq<byte>>, data': seq<seq<byte>>, t: Tree, r: Path, c: nat, j: nat)
    requires r in t && r != [] && Linked(per, data, t, r) && OnlySlot(data, data', c, j)
    requires Unused(EntryIn(data, c, j)) || Deleted(EntryIn(data, c, j))
    ensures (t[r].cl, t[r].ix) != (c, j)
    ensures EntryIn(data', t[r].cl, t[r].ix) == EntryIn(data, t[r].cl, t[r].ix)
  {
    hide EntryIn;
  }

  lemma WayAroundOpening(root: nat, per: nat, fat: seq<nat>, data: seq<seq<byte>>, a: Tree, la: set<nat>,
                         c: nat, j: nat, fat': seq<nat>, data': seq<seq<byte>>, r: Path)
    requires ChainsOk(fat, a, la) && DirsOk(root, per, data, a)
    requires c > 0 && (Unused(EntryIn(data, c, j)) || Deleted(EntryIn(data, c, j))) && OnlySlot(data, data', c, j)
    requires |fat'| == |fat| && forall d: nat :: Owned(a, d) && d < |fat| ==> fat'[d] == fat[d]
    ensures WayKept(fat, data, fat', data', a, r)
  {
    hide NoShare, Accounted, ChainOk, DirOk, Linked, EntryIn, Unused, Deleted, OnlySlot;
    forall k | 0 <= k <= |r| && r[..k] in a
      ensures NodeKept(fat, data, fat', data', a[r[..k]])
    {
      forall d: nat | d in a[r[..k]].chain
        ensures Owned(a, d)
      {
        assert Owns(a, r[..k], d);
      }
      if r[..k] == [] {
        OtherSlot(data, data', c, j, 0, 0);
      } else {
        OpeningElsewhere(per, data, data', a, r[..k], c, j);
      }
    }
  }

  lemma OtherSlot(data: seq<seq<byte>>, data': seq<seq<byte>>, c: nat, j: nat, d: nat, k: nat)
    requires OnlySlot(data, data', c, j) && (d, k) != (c, j)
    ensures EntryIn(data', d, k) == EntryIn(data, d, k)
  {
    hide EntryIn;
  }

  lemma NodeSlot(root: nat, per: nat, data: seq<seq<byte>>, t: Tree, q: Path)
    requires DirsOk(root, per, data, t) && q in t && q != []
    ensures Parent(q) in t && t[Parent(q)].isDir && t[q].cl in t[Parent(q)].chain && t[q].ix < per
    ensures NamesChild(EntryIn(data, t[q].cl, t[q].ix)) && EntryIn(data, t[q].cl, t[q].ix).name == Leaf(q)
    ensures Linked(per, data, t, q)
  {
    hide EntryIn, NamesChild, DirOk, Describes;
    assert Linked(per, data, t, q);
  }

  lemma InRange(fat: seq<nat>, t: Tree, lost: set<nat>, p: Path, c: nat)
    requires ChainsOk(fat, t, lost) && p in t && c in t[p].chain
    ensures c >= 2
  {
    hide NoShare, Accounted;
    assert ChainOk(fat, t[p].chain);
  }

  /** The volume stores no tree, whatever clusters are taken for lost. */
  ghost predicate NoTree(root: nat, per: nat, fat: seq<nat>, data: seq<seq<byte>>) {
    forall b: Tree, lb: set<nat> :: ChainsOk(fat, b, lb) ==> !DirsOk(root, per, data, b)
  }

  /** A name entered a second time in an opening of its directory. */
  lemma BlockedWriteBreaks(root: nat, per: nat, fat: seq<nat>, data: seq<seq<byte>>, a: Tree, la: set<nat>, q: Path,
                           c: nat, j: nat, fat': seq<nat>, data': seq<seq<byte>>, b: Tree, lb: set<nat>)
    requires |fat| <= EOC && ChainsOk(fat, a, la) && DirsOk(root, per, data, a) && q in a && q != []
    requires Parent(q) in a && c in a[Parent(q)].chain && j < per
    requires Unused(EntryIn(data, c, j)) || Deleted(EntryIn(data, c, j))
    requires OnlySlot(data, data', c, j)
    requires NamesChild(EntryIn(data', c, j)) && EntryIn(data', c, j).name == Leaf(q)
    requires |fat'| == |fat| && forall d: nat :: Owned(a, d) && d < |fat| ==> fat'[d] == fat[d]
    requires ChainsOk(fat', b, lb)
    ensures !DirsOk(root, per, data', b)
  {
    hide ChainsOk, DirsOk, EntryIn, NamesChild, OnlySlot, Unused, Deleted, WayKept, Owned, Linked;
    var p := Parent(q);
    NodeSlot(root, per, data, a, q);
    InRange(fat, a, la, p, c);
    OpeningElsewhere(per, data, data', a, q, c, j);
    if DirsOk(root, per, data', b) {
      WayAroundOpening(root, per, fat, data, a, la, c, j, fat', data', p);
      WayDetermines(root, per, fat, data, a, la, fat', data', b, lb, p);
      NamesakesBreak(root, per, data', b, p, c, j, a[q].cl, a[q].ix);
    }
  }

  lemma NamesakeIn(root: nat, per: nat, fat: seq<nat>, data: seq<seq<byte>>, a: Tree, la: set<nat>, q: Path,
                   data': seq<seq<byte>>, at: Spot)
    requires |fat| <= EOC && ChainsOk(fat, a, la) && DirsOk(root, per, data, a) && q in a && q != [] && Parent(q) in a
    requires EnteredIn(per, data, data', a[Parent(q)].chain, at)
    requires NamesChild(EntryIn(data', at.c, at.j)) && EntryIn(data', at.c, at.j).name == Leaf(q)
    ensures NoTree(root, per, fat, data')
  {
    hide ChainsOk, DirsOk, EntryIn, NamesChild, OnlySlot, Unused, Deleted;
    SpotInDirectory(per, data, data', a[Parent(q)].chain, at);
    forall b: Tree, lb: set<nat> | ChainsOk(fat, b, lb)
      ensures !DirsOk(root, per, data', b)
    {
      BlockedWriteBreaks(root, per, fat, data, a, la, q, at.c, at.j, fat, data', b, lb);
    }
  }

  lemma ZeroedOpening(per: nat, data: seq<seq<byte>>, data': seq<seq<byte>>, extra: nat, tree: Tree, p: Path)
    requires Zeroed(per, data, data', extra) && per > 0 && p in tree
    ensures Unused(EntryIn(data', extra, 0)) && p in Grown(tree, p, extra) && extra in Grown(tree, p, extra)[p].chain
    ensures Grown(tree, p, extra).Keys == tree.Keys
  {
    hide EntryIn;
    GrownKeys(tree, p, extra);
  }

  lemma NamesakeBehind(root: nat, per: nat, fat: seq<nat>, data: seq<seq<byte>>, a: Tree, la: set<nat>, q: Path,
                       fat': seq<nat>, data': seq<seq<byte>>, at: Spot)
    requires |fat| <= EOC && ChainsOk(fat, a, la) && DirsOk(root, per, data, a) && q in a && q != [] && per > 0
    requires la !! FreeSet(fat) && Parent(q) in a && a[Parent(q)].isDir
    requires EnteredBehind(per, fat, fat', data, data', a[Parent(q)].chain, at)
    requires NamesChild(EntryIn(data', at.c, at.j)) && EntryIn(data', at.c, at.j).name == Leaf(q)
    ensures NoTree(root, per, fat', data')
  {
    var p, zeroed := Parent(q), data[at.c := at.zeros];
    var grown := Grown(a, p, at.c);
    hide ChainsOk, DirsOk, EntryIn, NamesChild, OnlySlot, Unused, Deleted, FreeSet, Grown, Zeroed, View;
    GrowStep(root, per, fat, data, a, la, p, at.c, fat', zeroed, at.zeros);
    ZeroedOpening(per, data, zeroed, at.c, a, p);
    LinkedLength(fat, fat', a[p].chain, at.c);
    hide LinkedBehind;
    forall b: Tree, lb: set<nat> | ChainsOk(fat', b, lb)
      ensures !DirsOk(root, per, data', b)
    {
      BlockedWriteBreaks(root, per, fat', zeroed, grown, la, q, at.c, 0, fat', data', b, lb);
    }
  }

  lemma LinkedLength(fat: seq<nat>, fat': seq<nat>, chain: seq<nat>, extra: nat)
    requires LinkedBehind(fat, fat', chain, extra)
    ensures |fat'| == |fat|
  {
  }

  /**
   * Entering a name that the directory already holds leaves no tree, whether or not the directory has to grow for it.
   */
  lemma NamesakeEntered(root: nat, per: nat, fat: seq<nat>, data: seq<seq<byte>>, a: Tree, la: set<nat>, q: Path,
                        fat': seq<nat>, data': seq<seq<byte>>, e: Entry, at: Spot)
    requires |fat| <= EOC && ChainsOk(fat, a, la) && DirsOk(root, per, data, a) && q in a && q != [] && per > 0
    requires la !! FreeSet(fat) && Parent(q) in a && a[Parent(q)].isDir
    requires Entered(per, fat, fat', data, data', a[Parent(q)].chain, e, at) && NamesChild(e) && e.name == Leaf(q)
    ensures NoTree(root, per, fat', data')
  {
    hide ChainsOk, DirsOk, EntryIn, NamesChild, EnteredIn, EnteredBehind, DirFull, NoTree, FreeSet;
    if DirFull(per, data, a[Parent(q)].chain) {
      NamesakeBehind(root, per, fat, data, a, la, q, fat', data', at);
    } else {
      NamesakeIn(root, per, fat, data, a, la, q, data', at);
    }
  }

  /** A namesake entered for a chain that is on no node yet. */
  lemma HeldNamesake(root: nat, per: nat, fat: seq<nat>, data: seq<seq<byte>>, a: Tree, lost: set<nat>, chain: seq<nat>,
                     q: Path, fat': seq<nat>, data': seq<seq<byte>>, e: Entry, at: Spot)
    requires |fat| <= EOC && Held(root, per, fat, data, a, lost, chain) && q in a && q != [] && per > 0
    requires Parent(q) in a && a[Parent(q)].isDir
    requires Entered(per, fat, fat', data, data', a[Parent(q)].chain, e, at) && e.name == Leaf(q) && GoodName(Leaf(q))
    ensures NoTree(root, per, fat', data')
  {
    hide ChainsOk, DirsOk, ChainOk, EntryIn, NoTree, FreeSet, Entered, Cells, Owned, Distinct;
    HeldFacts(root, per, fat, data, a, lost, chain);
    ChainInUse(fat, chain);
    NamesakeEntered(root, per, fat, data, a, lost + Cells(chain), q, fat', data', e, at);
  }

  // ---- a deletion through a path that ends in two slashes ----

  /** The entry `fat32_delete` then looks for: the child of the same directory whose name is all blanks. */
  ghost function BlankBeside(q: Path): Path
    requires q != []
  {
    Parent(q) + [ShortName([])]
  }

  /** The chain of `q` was freed but its entry left in place; the entry of a blank sibling, if there is one, was marked
      deleted instead. */
  ghost predicate HalfDeletes(fat: seq<nat>, data: seq<seq<byte>>, t: Tree, q: Path, fat': seq<nat>,
                              data': seq<seq<byte>>)
  {
    && q in t && q != [] && BlankBeside(q) != q && Cleared(fat, fat', Cells(t[q].chain)) && |data'| == |data|
    && if BlankBeside(q) in t then
         && OnlySlot(data, data', t[BlankBeside(q)].cl, t[BlankBeside(q)].ix)
         && Deleted(EntryIn(data', t[BlankBeside(q)].cl, t[BlankBeside(q)].ix))
       else
         data' == data
  }

  /** The slots of all nodes but the blank sibling are as before. */
  lemma SiblingApart(root: nat, per: nat, data: seq<seq<byte>>, t: Tree, q: Path, data': seq<seq<byte>>, r: Path)
    requires NoShare(t) && DirsOk(root, per, data, t) && q != [] && r in t && r != [] && r != BlankBeside(q)
    requires BlankBeside(q) in t ==> OnlySlot(data, data', t[BlankBeside(q)].cl, t[BlankBeside(q)].ix)
    requires BlankBeside(q) !in t ==> data' == data
    ensures EntryIn(data', t[r].cl, t[r].ix) == EntryIn(data, t[r].cl, t[r].ix)
  {
    var s := BlankBeside(q);
    if s in t {
      assert Linked(per, data, t, s) && Linked(per, data, t, r);
      if t[s].cl == t[r].cl && t[s].ix == t[r].ix {
        SlotDetermines(per, data, t, s, r);
      }
      OtherSlot(data, data', t[s].cl, t[s].ix, t[r].cl, t[r].ix);
    }
  }

  lemma NodeSlots(root: nat, per: nat, fat: seq<nat>, data: seq<seq<byte>>, t: Tree, lost: set<nat>, q: Path)
    requires ChainsOk(fat, t, lost) && DirsOk(root, per, data, t) && q in t && q != []
    ensures t[q].cl >= 2
  {
    hide EntryIn, NamesChild, DirOk, NoShare, Accounted, Describes;
    assert Linked(per, data, t, q);
    assert ChainOk(fat, t[Parent(q)].chain);
  }

  lemma WayAround(root: nat, per: nat, fat: seq<nat>, data: seq<seq<byte>>, a: Tree, la: set<nat>, q: Path,
                  fat': seq<nat>, data': seq<seq<byte>>)
    requires ChainsOk(fat, a, la) && DirsOk(root, per, data, a) && HalfDeletes(fat, data, a, q, fat', data')
    ensures WayKept(fat, data, fat', data', a, Parent(q))
  {
    hide EntryIn, DirsOk, Deleted, ChainOk, Accounted;
    var p, s := Parent(q), BlankBeside(q);
    forall k | 0 <= k <= |p| && p[..k] in a
      ensures NodeKept(fat, data, fat', data', a[p[..k]])
    {
      var r := p[..k];
      assert forall d :: d in a[r].chain ==> d !in a[q].chain;
      if r == [] {
        RootSlot(root, per, data, a);
        if s in a {
          NodeSlots(root, per, fat, data, a, la, s);
          OtherSlot(data, data', a[s].cl, a[s].ix, 0, 0);
        }
      } else {
        SiblingApart(root, per, data, a, q, data', r);
      }
    }
  }

  lemma RootSlot(root: nat, per: nat, data: seq<seq<byte>>, t: Tree)
    requires DirsOk(root, per, data, t)
    ensures [] in t && t[[]].cl == 0 && t[[]].ix == 0
  {
    hide DirOk, Linked;
  }

  lemma NoChainFrom(fat: seq<nat>, chain: seq<nat>)
    requires chain != [] && chain[0] < |fat| && fat[chain[0]] == 0
    ensures !ChainOk(fat, chain)
  {
    if |chain| > 1 {
      assert chain[1] < 2 || fat[chain[0]] != chain[0 + 1];
    }
  }

  lemma ChainInTree(fat: seq<nat>, t: Tree, lost: set<nat>, q: Path)
    requires ChainsOk(fat, t, lost) && q in t
    ensures ChainOk(fat, t[q].chain) && NoShare(t)
  {
    hide ChainOk, NoShare, Accounted;
  }

  /**
   * Through a path that ends in two slashes fat32_delete finds the node and frees its chain, but then looks for a blank
   * name and leaves the entry. With a chain to free, the volume then stores no tree: the entry leads to a free cluster.
   */
  lemma HalfDeleteBreaks(root: nat, per: nat, fat: seq<nat>, data: seq<seq<byte>>, a: Tree, la: set<nat>, q: Path,
                         fat': seq<nat>, data': seq<seq<byte>>, b: Tree, lb: set<nat>)
    requires |fat| <= EOC && ChainsOk(fat, a, la) && DirsOk(root, per, data, a)
    requires HalfDeletes(fat, data, a, q, fat', data') && a[q].chain != []
    requires ChainsOk(fat', b, lb)
    ensures !DirsOk(root, per, data', b)
  {
    hide ChainsOk, DirsOk, EntryIn, NamesChild, WayKept, Owned, Linked, ChainOk, NoShare, DirOk, BlankBeside, OnlySlot;
    hide Deleted;
    var p := Parent(q);
    NodeSlot(root, per, data, a, q);
    ChainInTree(fat, a, la, q);
    HeadCleared(fat, fat', a[q].chain);
    SiblingApart(root, per, data, a, q, data', q);
    if DirsOk(root, per, data', b) {
      WayAround(root, per, fat, data, a, la, q, fat', data');
      WayDetermines(root, per, fat, data, a, la, fat', data', b, lb, p);
      StillNamed(root, per, data, data', a, b, q);
      NoChainFrom(fat', b[q].chain);
      ChainInTree(fat', b, lb, q);
    }
  }

  lemma HeadCleared(fat: seq<nat>, fat': seq<nat>, chain: seq<nat>)
    requires chain != [] && ChainOk(fat, chain) && Cleared(fat, fat', Cells(chain))
    ensures 2 <= chain[0] < |fat'| && fat'[chain[0]] == 0
  {
    assert chain[0] in Cells(chain);
  }

  lemma StillNamed(root: nat, per: nat, data: seq<seq<byte>>, data': seq<seq<byte>>, a: Tree, b: Tree, q: Path)
    requires q in a && q != [] && Linked(per, data, a, q) && DirsOk(root, per, data', b)
    requires EntryIn(data', a[q].cl, a[q].ix) == EntryIn(data, a[q].cl, a[q].ix)
    requires Parent(q) in b && a[Parent(q)] == b[Parent(q)] && a[q].Head() >= 2
    ensures q in b && b[q].chain != [] && b[q].chain[0] == a[q].Head()
  {
    hide EntryIn, NamesChild, Describes;
    assert b[Parent(q)].isDir;
    assert DirOk(per, data', b, Parent(q));
    SlotNames(per, data, data', a, b, q);
  }

  // ---- a subtree cut off ----

  ghost predicate Below(s: Path, r: Path) {
    |s| <= |r| && r[..|s|] == s
  }

  ghost function Without(t: Tree, s: Path): Tree {
    map r | r in t && !Below(s, r) :: t[r]
  }

  /** The clusters of a node and of everything below it. */
  ghost function CellsBelow(fat: seq<nat>, t: Tree, s: Path): set<nat> {
    set c | 0 <= c < |fat| && OwnedBelow(t, s, c)
  }

  ghost predicate OwnedBelow(t: Tree, s: Path, c: nat) {
    exists r :: Owns(t, r, c) && Below(s, r)
  }

  lemma BelowParent(s: Path, r: Path)
    requires r != [] && !Below(s, r)
    ensures !Below(s, Parent(r))
  {
    if |s| <= |r| - 1 {
      assert Parent(r)[..|s|] == r[..|s|];
    }
  }

  lemma BelowChild(s: Path, p: Path, name: Name)
    requires !Below(s, p) && Below(s, p + [name])
    ensures p + [name] == s
  {
    var r := p + [name];
    assert forall n :: 0 <= n <= |p| ==> r[..n] == p[..n];
    assert r[..|r|] == r;
  }

  lemma CutChains(fat: seq<nat>, t: Tree, lost: set<nat>, s: Path)
    requires ChainsOk(fat, t, lost)
    ensures ChainsOk(fat, Without(t, s), lost + CellsBelow(fat, t, s))
  {
    var b := Without(t, s);
    hide ChainOk, Below;
    forall c: nat | 2 <= c < |fat| && fat[c] != 0 && c !in lost
      ensures c in CellsBelow(fat, t, s) || Owned(b, c)
    {
      assert Owned(t, c);
      var r :| Owns(t, r, c);
      if !Below(s, r) {
        assert Owns(b, r, c);
      }
    }
    forall c | c in lost + CellsBelow(fat, t, s)
      ensures !Owned(b, c)
    {
      CutApart(fat, t, lost, s, c);
    }
    assert forall p :: p in b ==> p in t && b[p] == t[p];
    hide Owned, CellsBelow;
  }

  lemma CutApart(fat: seq<nat>, t: Tree, lost: set<nat>, s: Path, c: nat)
    requires ChainsOk(fat, t, lost) && c in lost + CellsBelow(fat, t, s)
    ensures !Owned(Without(t, s), c)
  {
    hide ChainOk, Below;
    forall p, r | Owns(t, p, c) && Owns(t, r, c)
      ensures p == r
    {
      OneOwner(t, p, r, c);
    }
    assert forall p :: Owns(Without(t, s), p, c) ==> Owns(t, p, c) && !Below(s, p);
  }

  lemma OneOwner(t: Tree, p: Path, r: Path, c: nat)
    requires NoShare(t) && Owns(t, p, c) && Owns(t, r, c)
    ensures p == r
  {
    var i :| 0 <= i < |t[p].chain| && t[p].chain[i] == c;
    var k :| 0 <= k < |t[r].chain| && t[r].chain[k] == c;
  }

  lemma CutSlot(per: nat, data: seq<seq<byte>>, data': seq<seq<byte>>, t: Tree, s: Path, p: Path, c: nat, j: nat)
    requires s in t && s != [] && OnlySlot(data, data', t[s].cl, t[s].ix) && Deleted(EntryIn(data', t[s].cl, t[s].ix))
    requires SlotKnown(data, t, p, c, j) && !Below(s, p)
    ensures SlotKnown(data', Without(t, s), p, c, j)
  {
    hide EntryIn, MarksLongName, IsDot, Below;
    if (c, j) != (t[s].cl, t[s].ix) {
      assert EntryIn(data', c, j) == EntryIn(data, c, j);
      var r := p + [EntryIn(data, c, j).name];
      if Below(s, r) {
        BelowChild(s, p, EntryIn(data, c, j).name);
      }
    }
  }

  lemma CutLink(per: nat, data: seq<seq<byte>>, data': seq<seq<byte>>, t: Tree, s: Path, r: Path)
    requires NoShare(t) && s in t && s != [] && r in t && r != [] && !Below(s, r)
    requires Linked(per, data, t, s) && Linked(per, data, t, r)
    requires OnlySlot(data, data', t[s].cl, t[s].ix)
    ensures r in Without(t, s) && Linked(per, data', Without(t, s), r)
  {
    assert s[..|s|] == s;
    BelowParent(s, r);
    if t[s].cl == t[r].cl && t[s].ix == t[r].ix {
      SlotDetermines(per, data, t, s, r);
    }
    hide EntryIn, NamesChild, Describes, NoShare, Below;
    assert EntryIn(data', t[r].cl, t[r].ix) == EntryIn(data, t[r].cl, t[r].ix);
  }

  /** Marking the slot of a node deleted cuts off the node and everything below it. */
  lemma CutDirs(root: nat, per: nat, data: seq<seq<byte>>, data': seq<seq<byte>>, t: Tree, s: Path)
    requires NoShare(t) && DirsOk(root, per, data, t) && s in t && s != []
    requires OnlySlot(data, data', t[s].cl, t[s].ix) && Deleted(EntryIn(data', t[s].cl, t[s].ix))
    ensures DirsOk(root, per, data', Without(t, s))
  {
    hide EntryIn, NoShare, SlotKnown, OnlySlot, Terminated, Describes, IsDot, Below;
    var b := Without(t, s);
    RootAbove(s);
    forall p | p in b && b[p].isDir
      ensures DirOk(per, data', b, p)
    {
      assert DirOk(per, data, t, p);
      RemoveKeepsTerminated(per, data, data', t[p].chain, t[s].cl, t[s].ix);
      forall i, j | 0 <= i < |t[p].chain| && 0 <= j < per
        ensures SlotKnown(data', b, p, t[p].chain[i], j)
      {
        CutSlot(per, data, data', t, s, p, t[p].chain[i], j);
      }
    }
    forall r | r in b && r != []
      ensures Linked(per, data', b, r)
    {
      CutLink(per, data, data', t, s, r);
    }
  }

  lemma RootAbove(s: Path)
    requires s != []
    ensures !Below(s, [])
  {
  }

  /** Without a chain to free, such a deletion leaves a tree: the one there was, less the blank sibling and all below
      it, whose clusters are lost. */
  lemma HalfDeleteCuts(root: nat, per: nat, fat: seq<nat>, data: seq<seq<byte>>, a: Tree, la: set<nat>, q: Path,
                       fat': seq<nat>, data': seq<seq<byte>>)
    requires ChainsOk(fat, a, la) && DirsOk(root, per, data, a)
    requires HalfDeletes(fat, data, a, q, fat', data') && a[q].chain == []
    ensures var s := BlankBeside(q);
            if s in a then
              && ChainsOk(fat', Without(a, s), la + CellsBelow(fat, a, s))
              && DirsOk(root, per, data', Without(a, s))
            else
              ChainsOk(fat', a, la) && DirsOk(root, per, data', a)
  {
    hide DirsOk, ChainsOk, EntryIn, Deleted, OnlySlot, CellsBelow, Without;
    var s := BlankBeside(q);
    NothingCleared(fat, fat');
    if s in a {
      ChainInTree(fat, a, la, s);
      CutChains(fat, a, la, s);
      CutDirs(root, per, data, data', a, s);
    }
  }

  lemma NothingCleared(fat: seq<nat>, fat': seq<nat>)
    requires Cleared(fat, fat', Cells([]))
    ensures fat' == fat
  {
    assert Cells([]) == {};
  }

  /** A deletion through a doubled slash leaves no tree if and only if there was a cluster to free. */
  lemma HalfDeleteIff(root: nat, per: nat, fat: seq<nat>, data: seq<seq<byte>>, a: Tree, la: set<nat>, q: Path,
                      fat': seq<nat>, data': seq<seq<byte>>)
    requires |fat| <= EOC && ChainsOk(fat, a, la) && DirsOk(root, per, data, a)
    requires HalfDeletes(fat, data, a, q, fat', data')
    ensures NoTree(root, per, fat', data') <==> a[q].chain != []
  {
    hide DirsOk, ChainsOk, CellsBelow, Without;
    if a[q].chain == [] {
      HalfDeleteCuts(root, per, fat, data, a, la, q, fat', data');
    } else {
      hide HalfDeletes;
      forall b: Tree, lb: set<nat> | ChainsOk(fat', b, lb)
        ensures !DirsOk(root, per, data', b)
      {
        HalfDeleteBreaks(root, per, fat, data, a, la, q, fat', data', b, lb);
      }
    }
  }
}
