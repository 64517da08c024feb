/** How the elementary changes of the driver act on the tree: a slot marked deleted, a slot filled, a directory grown by
    a cluster, clusters linked and freed. */
module FatTreeSteps {
  import opened Bytes
  import opened FatLayout
  import opened FatVolume
  import opened FatTree

  /** Only slot (c, j) may differ. */
  ghost predicate OnlySlot(data: seq<seq<byte>>, data': seq<seq<byte>>, c: nat, j: nat) {
    forall d: nat, k: nat :: (d, k) != (c, j) ==> EntryIn(data', d, k) == EntryIn(data, d, k)
  }

  // ---- a slot marked deleted ----

  lemma RemoveKeepsTerminated(per: nat, data: seq<seq<byte>>, data': seq<seq<byte>>, chain: seq<nat>, c: nat, j: nat)
    requires Terminated(per, data, chain) && OnlySlot(data, data', c, j)
    requires !Unused(EntryIn(data, c, j)) && !Unused(EntryIn(data', c, j))
    ensures Terminated(per, data', chain)
  {
    hide EntryIn, Unused;
    forall i, m, k, l | 0 <= i < |chain| && 0 <= k < |chain| && 0 <= m < per && 0 <= l < per
      && NotBefore(i, m, k, l) && Unused(EntryIn(data', chain[i], m))
      ensures Unused(EntryIn(data', chain[k], l))
    {
      assert EntryIn(data', chain[i], m) == EntryIn(data, chain[i], m);
      assert (chain[k], l) != (c, j) ==> EntryIn(data', chain[k], l) == EntryIn(data, chain[k], l);
    }
  }

  /** Two linked nodes in one slot are the same node. */
  lemma SlotDetermines(per: nat, data: seq<seq<byte>>, tree: Tree, q: Path, r: Path)
    requires NoShare(tree)
    requires q in tree && r in tree && q != [] && r != []
    requires Linked(per, data, tree, q) && Linked(per, data, tree, r)
    requires tree[q].cl == tree[r].cl && tree[q].ix == tree[r].ix
    ensures q == r
  {
    hide EntryIn, NamesChild, Describes;
    var a, b := Parent(q), Parent(r);
    var i :| 0 <= i < |tree[a].chain| && tree[a].chain[i] == tree[q].cl;
    var k :| 0 <= k < |tree[b].chain| && tree[b].chain[k] == tree[q].cl;
    assert a == b;
    assert q == a + [Leaf(q)] && r == b + [Leaf(r)];
  }

  lemma RemoveKeepsSlot(per: nat, data: seq<seq<byte>>, data': seq<seq<byte>>, tree: Tree, q: Path, p: Path, c: nat,
                        j: nat)
    requires q in tree && q != [] && OnlySlot(data, data', tree[q].cl, tree[q].ix)
    requires Deleted(EntryIn(data', tree[q].cl, tree[q].ix))
    requires SlotKnown(data, tree, p, c, j)
    ensures SlotKnown(data', tree - {q}, p, c, j)
  {
    hide EntryIn, MarksLongName, IsDot;
    if (c, j) != (tree[q].cl, tree[q].ix) {
      assert EntryIn(data', c, j) == EntryIn(data, c, j);
    }
  }

  lemma RemoveKeepsLink(per: nat, data: seq<seq<byte>>, data': seq<seq<byte>>, tree: Tree, q: Path, r: Path)
    requires NoShare(tree) && q in tree && q != [] && r in tree && r != [] && r != q && Parent(r) != q
    requires Linked(per, data, tree, q) && Linked(per, data, tree, r)
    requires OnlySlot(data, data', tree[q].cl, tree[q].ix)
    ensures Linked(per, data', tree - {q}, r)
  {
    if tree[q].cl == tree[r].cl && tree[q].ix == tree[r].ix {
      SlotDetermines(per, data, tree, q, r);
    }
    hide EntryIn, NamesChild, Describes, NoShare;
    assert EntryIn(data', tree[r].cl, tree[r].ix) == EntryIn(data, tree[r].cl, tree[r].ix);
  }

  /** Marking the slot of a childless node deleted removes exactly that node. */
  lemma RemoveEntry(root: nat, per: nat, data: seq<seq<byte>>, data': seq<seq<byte>>, tree: Tree, q: Path)
    requires NoShare(tree) && DirsOk(root, per, data, tree)
    requires q in tree && q != [] && forall r :: r in tree && r != [] ==> Parent(r) != q
    requires OnlySlot(data, data', tree[q].cl, tree[q].ix)
    requires Deleted(EntryIn(data', tree[q].cl, tree[q].ix))
    ensures DirsOk(root, per, data', tree - {q})
  {
    hide EntryIn, NoShare, SlotKnown, OnlySlot, Terminated, Describes, IsDot;
    forall p | p in tree && p != q && tree[p].isDir
      ensures DirOk(per, data', tree - {q}, p)
    {
      assert DirOk(per, data, tree, p);
      RemoveKeepsTerminated(per, data, data', tree[p].chain, tree[q].cl, tree[q].ix);
      forall i, j | 0 <= i < |tree[p].chain| && 0 <= j < per
        ensures SlotKnown(data', tree - {q}, p, tree[p].chain[i], j)
      {
        RemoveKeepsSlot(per, data, data', tree, q, p, tree[p].chain[i], j);
      }
    }
    forall r | r in tree && r != [] && r != q
      ensures Linked(per, data', tree - {q}, r)
    {
      RemoveKeepsLink(per, data, data', tree, q, r);
    }
  }

  // ---- a slot filled ----

  /** Slot (i, j) of a chain is the first one that begins with 0x00 or 0xE5. */
  ghost predicate FirstOpening(per: nat, data: seq<seq<byte>>, chain: seq<nat>, i: nat, j: nat) {
    && i < |chain| && j < per
    && (Unused(EntryIn(data, chain[i], j)) || Deleted(EntryIn(data, chain[i], j)))
    && (forall k, l :: 0 <= k < |chain| && 0 <= l < per && !NotBefore(i, j, k, l) ==>
          !Unused(EntryIn(data, chain[k], l)) && !Deleted(EntryIn(data, chain[k], l)))
  }

  lemma FillKeepsTerminated(per: nat, data: seq<seq<byte>>, data': seq<seq<byte>>, chain: seq<nat>, i: nat, j: nat)
    requires Terminated(per, data, chain) && FirstOpening(per, data, chain, i, j)
    requires forall k, l :: 0 <= k < l < |chain| ==> chain[k] != chain[l]
    requires OnlySlot(data, data', chain[i], j) && !Unused(EntryIn(data', chain[i], j))
    ensures Terminated(per, data', chain)
  {
    hide EntryIn, Unused, Deleted;
    forall a, b, k, l | 0 <= a < |chain| && 0 <= k < |chain| && 0 <= b < per && 0 <= l < per
      && NotBefore(a, b, k, l) && Unused(EntryIn(data', chain[a], b))
      ensures Unused(EntryIn(data', chain[k], l))
    {
      assert EntryIn(data', chain[a], b) == EntryIn(data, chain[a], b);
      assert (k, l) != (i, j);
      assert EntryIn(data', chain[k], l) == EntryIn(data, chain[k], l);
    }
  }

  lemma ElsewhereKeepsTerminated(per: nat, data: seq<seq<byte>>, data': seq<seq<byte>>, chain: seq<nat>, c: nat, j: nat)
    requires Terminated(per, data, chain) && c !in chain && OnlySlot(data, data', c, j)
    ensures Terminated(per, data', chain)
  {
    hide EntryIn, Unused;
    forall a, b, k, l | 0 <= a < |chain| && 0 <= k < |chain| && 0 <= b < per && 0 <= l < per
      && NotBefore(a, b, k, l) && Unused(EntryIn(data', chain[a], b))
      ensures Unused(EntryIn(data', chain[k], l))
    {
      assert EntryIn(data', chain[a], b) == EntryIn(data, chain[a], b);
      assert EntryIn(data', chain[k], l) == EntryIn(data, chain[k], l);
    }
  }

  /** The entry written for `q`, and the node it stands for. */
  ghost predicate Fills(per: nat, data: seq<seq<byte>>, data': seq<seq<byte>>, tree: Tree, q: Path, node: Node, i: nat)
  {
    && q != [] && q !in tree && Parent(q) in tree && tree[Parent(q)].isDir
    && FirstOpening(per, data, tree[Parent(q)].chain, i, node.ix)
    && node.cl == tree[Parent(q)].chain[i]
    && OnlySlot(data, data', node.cl, node.ix)
    && var e := EntryIn(data', node.cl, node.ix);
       NamesChild(e) && !MarksLongName(e) && e.name == Leaf(q) && Describes(e, node)
  }

  lemma FillKeepsSlot(per: nat, data: seq<seq<byte>>, data': seq<seq<byte>>, tree: Tree, q: Path, node: Node, i: nat,
                      p: Path, k: nat, l: nat)
    requires Fills(per, data, data', tree, q, node, i) && NoShare(tree)
    requires p in tree && k < |tree[p].chain| && l < per && SlotKnown(data, tree, p, tree[p].chain[k], l)
    ensures SlotKnown(data', tree[q := node], p, tree[p].chain[k], l)
  {
    hide EntryIn, MarksLongName, NamesChild, Describes, FirstOpening;
    if (tree[p].chain[k], l) == (node.cl, node.ix) {
      hide OnlySlot;
      var a := Parent(q);
      assert FirstOpening(per, data, tree[a].chain, i, node.ix);
      OpeningInRange(per, data, tree[a].chain, i, node.ix);
      assert tree[p].chain[k] == tree[a].chain[i];
      assert p == a;
      assert q == a + [Leaf(q)];
    } else {
      hide NoShare;
      assert EntryIn(data', tree[p].chain[k], l) == EntryIn(data, tree[p].chain[k], l);
    }
  }

  lemma OpeningInRange(per: nat, data: seq<seq<byte>>, chain: seq<nat>, i: nat, j: nat)
    requires FirstOpening(per, data, chain, i, j)
    ensures i < |chain| && j < per
  {
  }

  lemma FillKeepsLink(per: nat, data: seq<seq<byte>>, data': seq<seq<byte>>, tree: Tree, q: Path, node: Node, i: nat,
                      r: Path)
    requires Fills(per, data, data', tree, q, node, i)
    requires r in tree && r != [] && Linked(per, data, tree, r)
    ensures Linked(per, data', tree[q := node], r)
  {
    hide EntryIn, Describes, IsDot;
    if (tree[r].cl, tree[r].ix) != (node.cl, node.ix) {
      assert EntryIn(data', tree[r].cl, tree[r].ix) == EntryIn(data, tree[r].cl, tree[r].ix);
    }
  }

  /** Filling the first opening of a directory adds exactly that child. */
  lemma AddEntry(root: nat, per: nat, data: seq<seq<byte>>, data': seq<seq<byte>>, tree: Tree, q: Path, node: Node,
                 i: nat)
    requires NoShare(tree) && DirsOk(root, per, data, tree)
    requires Fills(per, data, data', tree, q, node, i)
    requires node.isDir ==> DirOk(per, data', tree[q := node], q)
    ensures DirsOk(root, per, data', tree[q := node])
  {
    hide EntryIn, NoShare, SlotKnown, Terminated, Linked, FirstOpening;
    var tree' := tree[q := node];
    forall p | p in tree && tree[p].isDir
      ensures DirOk(per, data', tree', p)
    {
      assert DirOk(per, data, tree, p);
      FillKeepsDirTerminated(per, data, data', tree, q, node, i, p);
      hide Fills;
      forall k, l | 0 <= k < |tree[p].chain| && 0 <= l < per
        ensures SlotKnown(data', tree', p, tree[p].chain[k], l)
      {
        FillKeepsSlot(per, data, data', tree, q, node, i, p, k, l);
      }
    }
    forall r | r in tree && r != []
      ensures Linked(per, data', tree[q := node], r)
    {
      FillKeepsLink(per, data, data', tree, q, node, i, r);
    }
    FillLinks(per, data, data', tree, q, node, i);
  }

  lemma FillLinks(per: nat, data: seq<seq<byte>>, data': seq<seq<byte>>, tree: Tree, q: Path, node: Node, i: nat)
    requires Fills(per, data, data', tree, q, node, i)
    ensures Linked(per, data', tree[q := node], q)
  {
    hide EntryIn, OnlySlot;
    assert Parent(q) != q;
  }

  lemma FillKeepsDirTerminated(per: nat, data: seq<seq<byte>>, data': seq<seq<byte>>, tree: Tree, q: Path,
                               node: Node, i: nat, p: Path)
    requires NoShare(tree) && Fills(per, data, data', tree, q, node, i)
    requires p in tree && Terminated(per, data, tree[p].chain)
    ensures Terminated(per, data', tree[p].chain)
  {
    hide EntryIn, Terminated, OnlySlot, Describes, IsDot;
    OpeningInRange(per, data, tree[Parent(q)].chain, i, node.ix);
    hide FirstOpening;
    if node.cl in tree[p].chain {
      var k :| 0 <= k < |tree[p].chain| && tree[p].chain[k] == node.cl;
      assert p == Parent(q);
      FillKeepsTerminated(per, data, data', tree[p].chain, i, node.ix);
    } else {
      ElsewhereKeepsTerminated(per, data, data', tree[p].chain, node.cl, node.ix);
    }
  }

  // ---- a directory grown by one zeroed cluster ----

  /** Cluster `extra` holds only unused slots; every other slot is as before. */
  ghost predicate Zeroed(per: nat, data: seq<seq<byte>>, data': seq<seq<byte>>, extra: nat) {
    && (forall d: nat, k: nat :: d != extra ==> EntryIn(data', d, k) == EntryIn(data, d, k))
    && (forall k :: 0 <= k < per ==> Unused(EntryIn(data', extra, k)))
  }

  lemma GrowKeepsTerminated(per: nat, data: seq<seq<byte>>, data': seq<seq<byte>>, chain: seq<nat>, extra: nat)
    requires Terminated(per, data, chain) && Zeroed(per, data, data', extra) && extra !in chain
    ensures Terminated(per, data', chain) && Terminated(per, data', chain + [extra])
  {
    hide EntryIn, Unused;
    var longer := chain + [extra];
    forall a, b, k, l | 0 <= a < |longer| && 0 <= k < |longer| && 0 <= b < per && 0 <= l < per
      && NotBefore(a, b, k, l) && Unused(EntryIn(data', longer[a], b))
      ensures Unused(EntryIn(data', longer[k], l))
    {
      if k < |chain| {
        assert EntryIn(data', chain[a], b) == EntryIn(data, chain[a], b);
        assert EntryIn(data', chain[k], l) == EntryIn(data, chain[k], l);
      }
    }
    forall a, b, k, l | 0 <= a < |chain| && 0 <= k < |chain| && 0 <= b < per && 0 <= l < per
      && NotBefore(a, b, k, l) && Unused(EntryIn(data', chain[a], b))
      ensures Unused(EntryIn(data', chain[k], l))
    {
      assert longer[a] == chain[a] && longer[k] == chain[k];
    }
  }

  /** The tree with directory `p` one cluster longer. */
  ghost function Grown(tree: Tree, p: Path, extra: nat): Tree
    requires p in tree
  {
    tree[p := tree[p].(chain := tree[p].chain + [extra])]
  }

  lemma GrowKeepsLink(per: nat, data: seq<seq<byte>>, data': seq<seq<byte>>, tree: Tree, p: Path, extra: nat, r: Path)
    requires p in tree && tree[p].isDir && tree[p].chain != []
    requires r in tree && r != [] && Linked(per, data, tree, r)
    requires Zeroed(per, data, data', extra) && tree[r].cl != extra
    ensures Linked(per, data', Grown(tree, p, extra), r)
  {
    hide EntryIn, NamesChild, MarksDir;
    assert EntryIn(data', tree[r].cl, tree[r].ix) == EntryIn(data, tree[r].cl, tree[r].ix);
  }

  lemma GrowKeepsSlot(per: nat, data: seq<seq<byte>>, data': seq<seq<byte>>, tree: Tree, p: Path, extra: nat,
                      q: Path, c: nat, j: nat)
    requires p in tree && Zeroed(per, data, data', extra)
    requires if c == extra then j < per else SlotKnown(data, tree, q, c, j)
    ensures SlotKnown(data', Grown(tree, p, extra), q, c, j)
  {
    hide EntryIn, IsDot, MarksLongName;
    if c == extra {
      assert Unused(EntryIn(data', extra, j));
    } else {
      assert EntryIn(data', c, j) == EntryIn(data, c, j);
    }
  }

  lemma GrowKeepsDir(per: nat, data: seq<seq<byte>>, data': seq<seq<byte>>, tree: Tree, p: Path, extra: nat, q: Path,
                     tree': Tree)
    requires p in tree && q in tree && tree' == Grown(tree, p, extra)
    requires Zeroed(per, data, data', extra) && extra !in tree[q].chain
    requires DirOk(per, data, tree, q)
    ensures DirOk(per, data', tree', q)
  {
    hide EntryIn, SlotKnown, Terminated;
    GrowKeepsTerminated(per, data, data', tree[q].chain, extra);
    forall i, j | 0 <= i < |tree'[q].chain| && 0 <= j < per
      ensures SlotKnown(data', tree', q, tree'[q].chain[i], j)
    {
      hide Zeroed;
      assert i < |tree[q].chain| ==> tree'[q].chain[i] == tree[q].chain[i];
      GrowKeepsSlot(per, data, data', tree, p, extra, q, tree'[q].chain[i], j);
    }
  }

  /** A zeroed cluster appended to a directory changes no name. */
  lemma GrowDir(root: nat, per: nat, data: seq<seq<byte>>, data': seq<seq<byte>>, tree: Tree, p: Path, extra: nat)
    requires DirsOk(root, per, data, tree) && p in tree && tree[p].isDir
    requires Zeroed(per, data, data', extra) && !Owned(tree, extra)
    ensures DirsOk(root, per, data', Grown(tree, p, extra))
  {
    var tree' := Grown(tree, p, extra);
    hide EntryIn, SlotKnown, Terminated, Zeroed, DirOk, Owned, Linked;
    assert tree[p].chain != [] by {
      assert DirOk(per, data, tree, p);
    }
    forall q | q in tree && tree[q].isDir
      ensures DirOk(per, data', tree', q)
    {
      assert DirOk(per, data, tree, q);
      GrowOneDir(per, data, data', tree, p, extra, q);
    }
    forall r | r in tree && r != []
      ensures Linked(per, data', tree', r)
    {
      assert Linked(per, data, tree, r);
      GrowOneLink(per, data, data', tree, p, extra, r);
    }
  }

  lemma GrowOneDir(per: nat, data: seq<seq<byte>>, data': seq<seq<byte>>, tree: Tree, p: Path, extra: nat, q: Path)
    requires p in tree && tree[p].isDir && tree[p].chain != [] && q in tree && tree[q].isDir
    requires DirOk(per, data, tree, q) && Zeroed(per, data, data', extra) && !Owned(tree, extra)
    ensures DirOk(per, data', Grown(tree, p, extra), q)
  {
    hide EntryIn, SlotKnown, Terminated, Zeroed, DirOk, Owned, Linked;
    NotOwned(tree, q, extra);
    GrowKeepsDir(per, data, data', tree, p, extra, q, Grown(tree, p, extra));
  }

  lemma GrowOneLink(per: nat, data: seq<seq<byte>>, data': seq<seq<byte>>, tree: Tree, p: Path, extra: nat, r: Path)
    requires p in tree && tree[p].isDir && tree[p].chain != [] && r in tree && r != []
    requires Linked(per, data, tree, r) && Zeroed(per, data, data', extra) && !Owned(tree, extra)
    ensures Linked(per, data', Grown(tree, p, extra), r)
  {
    hide EntryIn, NamesChild, MarksDir, Zeroed, Owned;
    NotOwned(tree, Parent(r), extra);
    GrowKeepsLink(per, data, data', tree, p, extra, r);
  }

  lemma NotOwned(tree: Tree, q: Path, c: nat)
    requires !Owned(tree, c)
    ensures q in tree ==> c !in tree[q].chain
  {
    assert !Owns(tree, q, c);
  }

  // ---- clusters outside every directory rewritten ----

  ghost predicate SameDirs(tree: Tree, data: seq<seq<byte>>, data': seq<seq<byte>>) {
    forall p, c: nat, j: nat :: Owns(tree, p, c) && tree[p].isDir ==> EntryIn(data', c, j) == EntryIn(data, c, j)
  }

  lemma OutsideKeepsDir(per: nat, data: seq<seq<byte>>, data': seq<seq<byte>>, tree: Tree, p: Path)
    requires p in tree && tree[p].isDir && DirOk(per, data, tree, p) && SameDirs(tree, data, data')
    ensures DirOk(per, data', tree, p)
  {
    hide EntryIn, Unused, Deleted, IsDot, MarksLongName;
    var chain := tree[p].chain;
    forall i, j | 0 <= i < |chain| && 0 <= j < per
      ensures EntryIn(data', chain[i], j) == EntryIn(data, chain[i], j)
    {
      assert Owns(tree, p, chain[i]);
    }
    forall i, j | 0 <= i < |chain| && 0 <= j < per
      ensures SlotKnown(data', tree, p, chain[i], j)
    {
      assert SlotKnown(data, tree, p, chain[i], j);
    }
  }

  lemma OutsideKeepsLink(per: nat, data: seq<seq<byte>>, data': seq<seq<byte>>, tree: Tree, r: Path)
    requires r in tree && r != [] && Linked(per, data, tree, r) && SameDirs(tree, data, data')
    ensures Linked(per, data', tree, r)
  {
    hide EntryIn, NamesChild, Describes;
    assert Owns(tree, Parent(r), tree[r].cl);
    assert EntryIn(data', tree[r].cl, tree[r].ix) == EntryIn(data, tree[r].cl, tree[r].ix);
  }

  lemma OutsideKeepsDirs(root: nat, per: nat, data: seq<seq<byte>>, data': seq<seq<byte>>, tree: Tree)
    requires DirsOk(root, per, data, tree) && SameDirs(tree, data, data')
    ensures DirsOk(root, per, data', tree)
  {
    hide EntryIn, SameDirs, DirOk, Linked;
    forall p | p in tree && tree[p].isDir
      ensures DirOk(per, data', tree, p)
    {
      OutsideKeepsDir(per, data, data', tree, p);
    }
    forall r | r in tree && r != []
      ensures Linked(per, data', tree, r)
    {
      OutsideKeepsLink(per, data, data', tree, r);
    }
  }
}
