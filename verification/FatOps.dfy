/** The net effect of each driver operation on the stored tree, from the changes it makes to FAT and data. */
module FatOps {
  import opened Bytes
  import opened FatLayout
  import opened FatVolume
  import opened FatTree
  import opened FatTreeSteps
  import opened FatPath
  import opened FatChains
  import opened FatScan
  import opened FatGrowth

  ghost predicate Childless(tree: Tree, q: Path) {
    forall r :: r in tree && r != [] ==> Parent(r) != q
  }

  /** A node that fat32_delete does not refuse. */
  ghost predicate Removable(t: Tree, q: Path) {
    q in t && (t[q].isDir ==> Childless(t, q))
  }

  lemma ChildlessByName(tree: Tree, q: Path)
    requires forall n :: q + [n] !in tree
    ensures Childless(tree, q)
  {
    forall r | r in tree && r != []
      ensures Parent(r) != q
    {
      assert r == Parent(r) + [Leaf(r)];
    }
  }

  lemma HasChild(tree: Tree, q: Path)
    requires exists n :: q + [n] in tree
    ensures !Childless(tree, q)
  {
    var n :| q + [n] in tree;
    assert Parent(q + [n]) == q;
  }

  lemma ParentDir(root: nat, per: nat, data: seq<seq<byte>>, tree: Tree, q: Path)
    requires DirsOk(root, per, data, tree) && q in tree && q != []
    ensures Parent(q) in tree && tree[Parent(q)].isDir && Parent(q) != q
    ensures tree[q].cl in tree[Parent(q)].chain && tree[q].ix < per
  {
    assert Linked(per, data, tree, q);
  }

  lemma FileIsChildless(root: nat, per: nat, data: seq<seq<byte>>, tree: Tree, q: Path)
    requires DirsOk(root, per, data, tree) && q in tree && !tree[q].isDir
    ensures Childless(tree, q)
  {
    forall r | r in tree && r != []
      ensures Parent(r) != q
    {
      assert Linked(per, data, tree, r);
    }
  }

  // ---- freeing a chain ----

  lemma ClearedNone(fat: seq<nat>)
    ensures Cleared(fat, fat, Cells([]))
  {
  }

  /** One step of the freeing loop. */
  lemma ClearedStep(fat: seq<nat>, fat': seq<nat>, chain: seq<nat>, k: nat)
    requires k < |chain| && Distinct(chain) && ChainOk(fat, chain) && Cleared(fat, fat', Cells(chain[..k]))
    ensures chain[k] < |fat'| && fat'[chain[k]] == fat[chain[k]]
    ensures Cleared(fat, fat'[chain[k] := 0], Cells(chain[..k + 1]))
  {
    assert chain[k] !in chain[..k];
    assert Cells(chain[..k + 1]) == Cells(chain[..k]) + {chain[k]} by {
      assert chain[..k + 1] == chain[..k] + [chain[k]];
    }
  }

  /** Chains of other nodes survive the freeing of one chain. */
  lemma OtherChainKept(fat: seq<nat>, fat': seq<nat>, tree: Tree, q: Path, p: Path)
    requires NoShare(tree) && p in tree && q in tree && p != q && ChainOk(fat, tree[p].chain)
    requires Cleared(fat, fat', Cells(tree[q].chain))
    ensures ChainOk(fat', tree[p].chain)
  {
    forall c | c in tree[p].chain
      ensures c < |fat| && fat'[c] == fat[c]
    {
      assert c !in tree[q].chain;
    }
    hide NoShare;
    ChainFrame(fat, fat', tree[p].chain);
  }

  lemma WalkableAfterFree(fat: seq<nat>, fat': seq<nat>, tree: Tree, lost: set<nat>, q: Path, names: Path)
    requires ChainsOk(fat, tree, lost) && q in tree && |names| <= |q| && Cleared(fat, fat', Cells(tree[q].chain))
    ensures Walkable(fat', tree, names)
  {
    hide ChainOk, NoShare, Accounted, Cleared;
    forall k | 0 <= k < |names| && names[..k] in tree && tree[names[..k]].isDir
      ensures ChainOk(fat', tree[names[..k]].chain)
    {
      OtherChainKept(fat, fat', tree, q, names[..k]);
    }
  }

  lemma WalkableAll(fat: seq<nat>, tree: Tree, pending: set<nat>, names: Path)
    requires ChainsOk(fat, tree, pending)
    ensures Walkable(fat, tree, names)
  {
    hide ChainOk, NoShare, Accounted;
  }

  lemma DistinctChain(tree: Tree, q: Path)
    requires NoShare(tree) && q in tree
    ensures Distinct(tree[q].chain)
  {
  }

  // ---- delete ----

  lemma SameFilesBut(tree: Tree, data: seq<seq<byte>>, p: Path, c: nat, buf: seq<byte>)
    requires NoShare(tree) && p in tree && tree[p].isDir && c in tree[p].chain && c < |data|
    ensures SameFiles(tree, data, data[c := buf])
  {
    forall r, d: nat | Owns(tree, r, d) && !tree[r].isDir && d < |data|
      ensures data[c := buf][d] == data[d]
    {
      assert d in tree[r].chain;
    }
  }

  lemma ViewWithout(data: seq<seq<byte>>, tree: Tree, q: Path)
    ensures View(data, tree - {q}) == View(data, tree) - {q}
  {
    hide ItemOf;
  }

  /** Lost clusters are on no chain. */
  lemma LostApart(fat: seq<nat>, tree: Tree, lost: set<nat>, q: Path)
    requires ChainsOk(fat, tree, lost) && q in tree
    ensures lost !! Cells(tree[q].chain)
  {
    forall c | c in Cells(tree[q].chain)
      ensures c !in lost
    {
      assert Owns(tree, q, c);
    }
  }

  /** Freeing the chain of a childless node and marking its slot deleted removes it and nothing else. */
  lemma DeleteStep(root: nat, per: nat, fat: seq<nat>, data: seq<seq<byte>>, tree: Tree,
                   lost: set<nat>, q: Path, fat': seq<nat>, data': seq<seq<byte>>, buf: seq<byte>)
    requires ChainsOk(fat, tree, lost) && DirsOk(root, per, data, tree)
    requires q in tree && q != [] && Childless(tree, q)
    requires Cleared(fat, fat', Cells(tree[q].chain))
    requires tree[q].cl < |data| && data' == data[tree[q].cl := buf]
    requires OnlySlot(data, data', tree[q].cl, tree[q].ix) && Deleted(EntryIn(data', tree[q].cl, tree[q].ix))
    ensures ChainsOk(fat', tree - {q}, lost) && DirsOk(root, per, data', tree - {q})
    ensures View(data', tree - {q}) == View(data, tree) - {q}
  {
    hide ChainOk, NoShare, Accounted, Cleared, OnlySlot, Deleted, EntryIn, DirOk, View, ItemOf, SameFiles, Cells;
    RemoveEntry(root, per, data, data', tree, q);
    LostApart(fat, tree, lost, q);
    ChainsRemove(fat, tree, lost, q);
    FreePending(fat, fat', tree - {q}, lost, Cells(tree[q].chain));
    assert Linked(per, data, tree, q);
    SameFilesBut(tree, data, Parent(q), tree[q].cl, buf);
    SameView(tree, data, data');
    ViewWithout(data', tree, q);
  }

  /** The freed clusters join the free set. */
  lemma FreedCount(fat: seq<nat>, fat': seq<nat>, tree: Tree, lost: set<nat>, q: Path)
    requires ChainsOk(fat, tree, lost) && q in tree && Cleared(fat, fat', Cells(tree[q].chain))
    ensures FreeSet(fat') == FreeSet(fat) + Cells(tree[q].chain)
    ensures |FreeSet(fat')| == |FreeSet(fat)| + |tree[q].chain|
    ensures lost !! FreeSet(fat) ==> lost !! FreeSet(fat')
  {
    DistinctChain(tree, q);
    LostApart(fat, tree, lost, q);
    var chain := tree[q].chain;
    ChainInUse(fat, chain);
    hide NoShare, Accounted, ChainOk, FreeSet;
    CellsSize(chain);
    FreeSetCleared(fat, fat', Cells(chain));
  }

  lemma ChainInUse(fat: seq<nat>, chain: seq<nat>)
    requires ChainOk(fat, chain)
    ensures FreeSet(fat) !! Cells(chain)
    ensures forall c :: c in Cells(chain) ==> 2 <= c < |fat|
  {
    forall i | 0 <= i < |chain|
      ensures fat[chain[i]] != 0
    {
      if i < |chain| - 1 {
        assert fat[chain[i]] == chain[i + 1];
      }
    }
  }

  // ---- create ----

  /** No slot before (k, j) can take a new entry. */
  ghost predicate NoOpening(per: nat, data: seq<seq<byte>>, chain: seq<nat>, k: nat, j: nat) {
    forall a, b :: 0 <= a < |chain| && 0 <= b < per && !NotBefore(k, j, a, b) ==>
      !Unused(EntryIn(data, chain[a], b)) && !Deleted(EntryIn(data, chain[a], b))
  }

  ghost predicate DirFull(per: nat, data: seq<seq<byte>>, chain: seq<nat>) {
    NoOpening(per, data, chain, |chain|, 0)
  }

  lemma NoOpeningNone(per: nat, data: seq<seq<byte>>, chain: seq<nat>)
    ensures NoOpening(per, data, chain, 0, 0)
  {
  }

  lemma NoOpeningStep(per: nat, data: seq<seq<byte>>, chain: seq<nat>, k: nat, j: nat)
    requires NoOpening(per, data, chain, k, j) && k < |chain|
    requires !Unused(EntryIn(data, chain[k], j)) && !Deleted(EntryIn(data, chain[k], j))
    ensures NoOpening(per, data, chain, k, j + 1)
  {
    hide EntryIn, Unused, Deleted;
  }

  lemma NoOpeningCluster(per: nat, data: seq<seq<byte>>, chain: seq<nat>, k: nat)
    requires NoOpening(per, data, chain, k, per)
    ensures NoOpening(per, data, chain, k + 1, 0)
  {
    hide EntryIn, Unused, Deleted;
  }

  lemma OpeningIsFirst(per: nat, data: seq<seq<byte>>, chain: seq<nat>, k: nat, j: nat)
    requires NoOpening(per, data, chain, k, j) && k < |chain| && j < per
    requires Unused(EntryIn(data, chain[k], j)) || Deleted(EntryIn(data, chain[k], j))
    ensures FirstOpening(per, data, chain, k, j) && !DirFull(per, data, chain)
  {
    hide EntryIn, Unused, Deleted;
    assert !NotBefore(|chain|, 0, k, j);
  }

  /** The clusters of a new directory: used slots only for "." and "..". */
  ghost predicate NewDir(per: nat, data: seq<seq<byte>>, chain: seq<nat>) {
    && chain != [] && Terminated(per, data, chain)
    && forall i, j :: 0 <= i < |chain| && 0 <= j < per ==> !NamesChild(EntryIn(data, chain[i], j))
  }

  lemma NewDirOk(per: nat, data: seq<seq<byte>>, data': seq<seq<byte>>, tree: Tree, q: Path, node: Node)
    requires NewDir(per, data, node.chain) && node.cl !in node.chain && OnlySlot(data, data', node.cl, node.ix)
    ensures DirOk(per, data', tree[q := node], q)
  {
    hide EntryIn, NamesChild;
    ElsewhereKeepsTerminated(per, data, data', node.chain, node.cl, node.ix);
    hide Terminated;
    var tree' := tree[q := node];
    forall i, j | 0 <= i < |node.chain| && 0 <= j < per
      ensures SlotKnown(data', tree', q, node.chain[i], j)
    {
      assert EntryIn(data', node.chain[i], j) == EntryIn(data, node.chain[i], j);
    }
  }

  lemma PendingApart(fat: seq<nat>, tree: Tree, lost: set<nat>, chain: seq<nat>, p: Path, c: nat)
    requires Accounted(fat, tree, lost + Cells(chain)) && p in tree && c in tree[p].chain
    ensures c !in chain
  {
    assert Owns(tree, p, c);
    assert c in chain ==> c in Cells(chain);
  }

  lemma ViewWith(data: seq<seq<byte>>, tree: Tree, q: Path, node: Node)
    ensures View(data, tree[q := node]) == View(data, tree)[q := ItemOf(data, node)]
  {
    hide ItemOf;
  }

  lemma SameItemApart(data: seq<seq<byte>>, c: nat, buf: seq<byte>, node: Node)
    requires c < |data| && c !in node.chain
    ensures ItemOf(data[c := buf], node) == ItemOf(data, node)
  {
    FlattenFrame(data, data[c := buf], node.chain);
  }

  /** Filling an opening of the parent with an entry for a finished, still unowned chain adds that node and changes
      nothing else. */
  lemma CreateStep(root: nat, per: nat, fat: seq<nat>, data: seq<seq<byte>>, tree: Tree,
                   lost: set<nat>, q: Path, node: Node, i: nat, data': seq<seq<byte>>, buf: seq<byte>)
    requires ChainsOk(fat, tree, lost + Cells(node.chain)) && lost !! Cells(node.chain) && DirsOk(root, per, data, tree)
    requires ChainOk(fat, node.chain) && Distinct(node.chain)
    requires Fills(per, data, data', tree, q, node, i)
    requires node.isDir ==> NewDir(per, data, node.chain)
    requires node.cl < |data| && data' == data[node.cl := buf]
    ensures ChainsOk(fat, tree[q := node], lost) && DirsOk(root, per, data', tree[q := node])
    ensures View(data', tree[q := node]) == View(data, tree)[q := ItemOf(data, node)]
  {
    var p := Parent(q);
    hide ChainOk, NoShare, EntryIn, DirsOk, NewDir, View, ItemOf, SameFiles, Cells, Distinct, OnlySlot, Describes;
    hide NamesChild;
    OpeningInRange(per, data, tree[p].chain, i, node.ix);
    hide FirstOpening;
    PendingApart(fat, tree, lost, node.chain, p, node.cl);
    hide Accounted;
    if node.isDir {
      NewDirOk(per, data, data', tree, q, node);
    }
    AddEntry(root, per, data, data', tree, q, node, i);
    ChainsAdd(fat, tree, lost + Cells(node.chain), q, node);
    assert lost + Cells(node.chain) - Cells(node.chain) == lost;
    SameFilesBut(tree, data, p, node.cl, buf);
    SameView(tree, data, data');
    ViewWith(data', tree, q, node);
    SameItemApart(data, node.cl, buf, node);
  }

  // ---- create in a directory that has to grow first ----

  lemma GrownOpening(per: nat, data: seq<seq<byte>>, data': seq<seq<byte>>, chain: seq<nat>, extra: nat)
    requires DirFull(per, data, chain) && Zeroed(per, data, data', extra) && extra !in chain && per > 0
    ensures FirstOpening(per, data', chain + [extra], |chain|, 0)
  {
    hide EntryIn, Unused, Deleted;
    var longer := chain + [extra];
    forall k, l | 0 <= k < |longer| && 0 <= l < per && !NotBefore(|chain|, 0, k, l)
      ensures !Unused(EntryIn(data', longer[k], l)) && !Deleted(EntryIn(data', longer[k], l))
    {
      assert k < |chain| && longer[k] == chain[k];
      assert EntryIn(data', chain[k], l) == EntryIn(data, chain[k], l);
    }
    assert Unused(EntryIn(data', extra, 0));
  }

  lemma NewDirElsewhere(per: nat, data: seq<seq<byte>>, data': seq<seq<byte>>, chain: seq<nat>, extra: nat)
    requires NewDir(per, data, chain) && Zeroed(per, data, data', extra) && extra !in chain
    ensures NewDir(per, data', chain)
  {
    hide EntryIn, NamesChild;
    GrowKeepsTerminated(per, data, data', chain, extra);
    hide Terminated;
    forall i, j | 0 <= i < |chain| && 0 <= j < per
      ensures !NamesChild(EntryIn(data', chain[i], j))
    {
      assert EntryIn(data', chain[i], j) == EntryIn(data, chain[i], j);
    }
  }

  lemma SameFilesFresh(tree: Tree, data: seq<seq<byte>>, c: nat, buf: seq<byte>)
    requires !Owned(tree, c) && c < |data|
    ensures SameFiles(tree, data, data[c := buf])
  {
  }

  lemma GrownView(data: seq<seq<byte>>, tree: Tree, p: Path, extra: nat)
    requires p in tree && tree[p].isDir
    ensures View(data, Grown(tree, p, extra)) == View(data, tree)
  {
  }

  lemma FreeNotOwned(fat: seq<nat>, tree: Tree, pending: set<nat>, c: nat)
    requires ChainsOk(fat, tree, pending) && c in FreeSet(fat)
    ensures !Owned(tree, c)
  {
    hide NoShare, Accounted;
    forall p | Owns(tree, p, c)
      ensures false
    {
      ChainInUse(fat, tree[p].chain);
    }
  }

  /** The state between linking the extra cluster and filling its first slot: the directory is one zeroed cluster
      longer, and names and contents are as before. */
  lemma GrowStep(root: nat, per: nat, fat: seq<nat>, data: seq<seq<byte>>, tree: Tree, pending: set<nat>, p: Path,
                 extra: nat, fat': seq<nat>, data': seq<seq<byte>>, zeros: seq<byte>)
    requires ChainsOk(fat, tree, pending) && DirsOk(root, per, data, tree)
    requires p in tree && tree[p].isDir
    requires extra in FreeSet(fat) && extra !in pending && extra < |data|
    requires LinkedBehind(fat, fat', tree[p].chain, extra)
    requires data' == data[extra := zeros] && Zeroed(per, data, data', extra)
    ensures ChainsOk(fat', Grown(tree, p, extra), pending) && DirsOk(root, per, data', Grown(tree, p, extra))
    ensures View(data', Grown(tree, p, extra)) == View(data, tree)
    ensures FreeSet(fat') == FreeSet(fat) - {extra}
  {
    hide ChainOk, NoShare, Accounted, EntryIn, View, ItemOf, SameFiles, Owned, DirOk, Linked, Zeroed, Grown;
    hide LinkedBehind;
    FreeNotOwned(fat, tree, pending, extra);
    GrownFree(fat, tree, pending, p, extra, fat');
    hide FreeSet;
    ChainsGrow(fat, fat', tree, pending, p, extra);
    assert pending - {extra} == pending;
    GrowDir(root, per, data, data', tree, p, extra);
    SameFilesFresh(tree, data, extra, zeros);
    SameView(tree, data, data');
    GrownView(data', tree, p, extra);
  }

  lemma GrownFree(fat: seq<nat>, tree: Tree, pending: set<nat>, p: Path, extra: nat, fat': seq<nat>)
    requires ChainsOk(fat, tree, pending) && p in tree && extra in FreeSet(fat)
    requires LinkedBehind(fat, fat', tree[p].chain, extra)
    ensures 2 <= extra < |fat| && FreeSet(fat') == FreeSet(fat) - {extra}
  {
    hide NoShare, Accounted;
    assert ChainOk(fat, tree[p].chain);
  }

  /** An operation holds a finished chain for `q` in its hands, ready to be named in the parent. */
  ghost predicate Ready(root: nat, per: nat, fat: seq<nat>, data: seq<seq<byte>>, tree: Tree, lost: set<nat>, q: Path,
                        isDir: bool, chain: seq<nat>)
  {
    && ChainsOk(fat, tree, lost + Cells(chain)) && DirsOk(root, per, data, tree)
    && lost !! Cells(chain) && lost !! FreeSet(fat)
    && ChainOk(fat, chain) && Distinct(chain)
    && (isDir ==> NewDir(per, data, chain))
    && q != [] && q !in tree && Parent(q) in tree && tree[Parent(q)].isDir
  }

  /** The entry that create_dir_entry writes for `q`. */
  ghost predicate EntryFor(e: Entry, q: Path, isDir: bool, chain: seq<nat>, size: nat)
    requires q != []
  {
    && e == Entry(Leaf(q), if isDir then 0x10 else 0x20, if chain == [] then 0 else chain[0], size)
    && GoodName(Leaf(q))
  }

  lemma EntryFills(per: nat, data: seq<seq<byte>>, data': seq<seq<byte>>, tree: Tree, q: Path, node: Node, i: nat)
    requires q != [] && q !in tree && Parent(q) in tree && tree[Parent(q)].isDir
    requires FirstOpening(per, data, tree[Parent(q)].chain, i, node.ix) && node.cl == tree[Parent(q)].chain[i]
    requires OnlySlot(data, data', node.cl, node.ix)
    requires EntryFor(EntryIn(data', node.cl, node.ix), q, node.isDir, node.chain, node.size)
    ensures Fills(per, data, data', tree, q, node, i)
  {
    hide EntryIn, OnlySlot, FirstOpening;
  }

  /** Create in an opening that is there. */
  lemma CreateHere(root: nat, per: nat, fat: seq<nat>, data: seq<seq<byte>>, tree: Tree,
                   lost: set<nat>, q: Path, node: Node, i: nat, data': seq<seq<byte>>, buf: seq<byte>)
    requires Ready(root, per, fat, data, tree, lost, q, node.isDir, node.chain)
    requires FirstOpening(per, data, tree[Parent(q)].chain, i, node.ix) && node.cl == tree[Parent(q)].chain[i]
    requires node.cl < |data| && data' == data[node.cl := buf] && OnlySlot(data, data', node.cl, node.ix)
    requires EntryFor(EntryIn(data', node.cl, node.ix), q, node.isDir, node.chain, node.size)
    ensures ChainsOk(fat, tree[q := node], lost) && DirsOk(root, per, data', tree[q := node])
    ensures View(data', tree[q := node]) == View(data, tree)[q := ItemOf(data, node)]
  {
    hide EntryIn, OnlySlot, ChainsOk, DirsOk, ChainOk, Distinct, NewDir, View, ItemOf, EntryFor, Fills;
    EntryFills(per, data, data', tree, q, node, i);
    CreateStep(root, per, fat, data, tree, lost, q, node, i, data', buf);
  }

  lemma FreshIsApart(fat: seq<nat>, tree: Tree, lost: set<nat>, chain: seq<nat>, p: Path, extra: nat)
    requires ChainsOk(fat, tree, lost + Cells(chain)) && ChainOk(fat, chain) && p in tree && extra in FreeSet(fat)
    ensures extra !in chain && extra !in Cells(chain) && extra !in tree[p].chain
    ensures forall c :: c in tree[p].chain ==> c !in chain
  {
    FreeNotOwned(fat, tree, lost + Cells(chain), extra);
    NotOwned(tree, p, extra);
    ChainInUse(fat, chain);
    hide FreeSet, ChainOk, NoShare, Owned;
    forall c | c in tree[p].chain
      ensures c !in chain
    {
      PendingApart(fat, tree, lost, chain, p, c);
    }
  }

  lemma ReadyElsewhere(root: nat, per: nat, fat: seq<nat>, data: seq<seq<byte>>, tree: Tree,
                       lost: set<nat>, q: Path, isDir: bool, chain: seq<nat>, extra: nat, fat': seq<nat>,
                       data': seq<seq<byte>>, zeros: seq<byte>)
    requires Ready(root, per, fat, data, tree, lost, q, isDir, chain)
    requires extra in FreeSet(fat) && extra < |data|
    requires LinkedBehind(fat, fat', tree[Parent(q)].chain, extra)
    requires data' == data[extra := zeros] && Zeroed(per, data, data', extra)
    ensures Ready(root, per, fat', data', Grown(tree, Parent(q), extra), lost, q, isDir, chain)
    ensures View(data', Grown(tree, Parent(q), extra)) == View(data, tree)
    ensures extra !in chain && extra !in tree[Parent(q)].chain && FreeSet(fat') == FreeSet(fat) - {extra}
  {
    var p := Parent(q);
    hide FreeSet, ChainOk, ChainsOk, EntryIn, View, Zeroed, NewDir, DirsOk, Cells, Distinct, Grown, Parent;
    hide LinkedBehind;
    FreshIsApart(fat, tree, lost, chain, p, extra);
    GrowStep(root, per, fat, data, tree, lost + Cells(chain), p, extra, fat', data', zeros);
    GrownFree(fat, tree, lost + Cells(chain), p, extra, fat');
    KeptChain(fat, fat', tree, chain, p, extra);
    GrownKeys(tree, p, extra);
    if isDir {
      NewDirElsewhere(per, data, data', chain, extra);
    }
  }

  lemma KeptChain(fat: seq<nat>, fat': seq<nat>, tree: Tree, chain: seq<nat>, p: Path, extra: nat)
    requires ChainOk(fat, chain) && p in tree && extra < |fat| && extra !in chain
    requires forall c :: c in tree[p].chain ==> c !in chain
    requires LinkedBehind(fat, fat', tree[p].chain, extra)
    ensures ChainOk(fat', chain)
  {
    assert tree[p].chain[|tree[p].chain| - 1] in tree[p].chain;
    forall c | c in chain
      ensures c < |fat| && fat'[c] == fat[c]
    {
      assert c != tree[p].chain[|tree[p].chain| - 1];
    }
    hide ChainOk;
    ChainFrame(fat, fat', chain);
  }

  lemma GrownKeys(tree: Tree, p: Path, extra: nat)
    requires p in tree
    ensures Grown(tree, p, extra).Keys == tree.Keys
    ensures Grown(tree, p, extra)[p].isDir == tree[p].isDir
    ensures Grown(tree, p, extra)[p].chain == tree[p].chain + [extra]
  {
  }

  /** Create in a full directory: it grows by a cluster whose first slot takes the entry. */
  lemma CreateGrown(root: nat, per: nat, fat: seq<nat>, data: seq<seq<byte>>, tree: Tree,
                    lost: set<nat>, q: Path, node: Node, fat': seq<nat>, zeroed: seq<seq<byte>>, zeros: seq<byte>,
                    data': seq<seq<byte>>, buf: seq<byte>)
    requires Ready(root, per, fat, data, tree, lost, q, node.isDir, node.chain) && per > 0
    requires DirFull(per, data, tree[Parent(q)].chain)
    requires node.cl in FreeSet(fat) && node.cl < |data| && node.ix == 0
    requires LinkedBehind(fat, fat', tree[Parent(q)].chain, node.cl)
    requires zeroed == data[node.cl := zeros] && Zeroed(per, data, zeroed, node.cl)
    requires data' == zeroed[node.cl := buf] && OnlySlot(zeroed, data', node.cl, 0)
    requires EntryFor(EntryIn(data', node.cl, 0), q, node.isDir, node.chain, node.size)
    ensures ChainsOk(fat', Grown(tree, Parent(q), node.cl)[q := node], lost)
    ensures DirsOk(root, per, data', Grown(tree, Parent(q), node.cl)[q := node])
    ensures View(data', Grown(tree, Parent(q), node.cl)[q := node]) == View(data, tree)[q := ItemOf(data, node)]
  {
    var p := Parent(q);
    var grown := Grown(tree, p, node.cl);
    hide ChainsOk, DirsOk, ChainOk, Distinct, NewDir, EntryIn, OnlySlot, View, ItemOf, Zeroed, DirFull, FirstOpening;
    hide LinkedBehind;
    ReadyElsewhere(root, per, fat, data, tree, lost, q, node.isDir, node.chain, node.cl, fat', zeroed, zeros);
    GrownOpening(per, data, zeroed, tree[p].chain, node.cl);
    CreateHere(root, per, fat', zeroed, grown, lost, q, node, |tree[p].chain|, data', buf);
    SameItemApart(data, node.cl, zeros, node);
  }

  // ---- what create_dir_entry writes ----

  /**
   * Where an entry went: slot `j` of cluster `c`, number `i` of its directory, and the new contents of that cluster.
   */
  datatype Spot = Spot(i: nat, c: nat, j: nat, zeros: seq<byte>, buf: seq<byte>)

  /** The entry `e` was made in the directory with the chain `dir`: in its first opening, or, if it is full, in the
      first slot of a cluster linked behind it. */
  ghost predicate Entered(per: nat, fat: seq<nat>, fat': seq<nat>, data: seq<seq<byte>>, data': seq<seq<byte>>,
                          dir: seq<nat>, e: Entry, at: Spot)
  {
    && at.c < |data| && EntryIn(data', at.c, at.j) == e
    && if DirFull(per, data, dir) then EnteredBehind(per, fat, fat', data, data', dir, at)
       else fat' == fat && EnteredIn(per, data, data', dir, at)
  }

  ghost predicate EnteredIn(per: nat, data: seq<seq<byte>>, data': seq<seq<byte>>, dir: seq<nat>, at: Spot) {
    && at.c < |data| && FirstOpening(per, data, dir, at.i, at.j) && at.c == dir[at.i]
    && data' == data[at.c := at.buf] && OnlySlot(data, data', at.c, at.j)
  }

  ghost predicate EnteredBehind(per: nat, fat: seq<nat>, fat': seq<nat>, data: seq<seq<byte>>, data': seq<seq<byte>>,
                                dir: seq<nat>, at: Spot)
  {
    && at.c < |data| && at.j == 0 && at.c in FreeSet(fat) && LinkedBehind(fat, fat', dir, at.c)
    && var zeroed := data[at.c := at.zeros];
       Zeroed(per, data, zeroed, at.c) && data' == zeroed[at.c := at.buf] && OnlySlot(zeroed, data', at.c, 0)
  }

  /** The tree with a finished chain hung into the directory at the spot. */
  ghost function HungIn(tree: Tree, q: Path, grown: bool, node: Node): Tree
    requires q != [] && Parent(q) in tree
  {
    if grown then Grown(tree, Parent(q), node.cl)[q := node] else tree[q := node]
  }

  lemma HungAt(tree: Tree, q: Path, grown: bool, node: Node)
    requires q != [] && Parent(q) in tree
    ensures q in HungIn(tree, q, grown, node) && HungIn(tree, q, grown, node)[q] == node
  {
  }

  ghost function NodeAt(isDir: bool, chain: seq<nat>, size: nat, at: Spot): Node {
    Node(isDir, chain, size, at.c, at.j)
  }

  /** The tree `t` of the changed volume is the old one with the new node, and nothing is lost. */
  ghost predicate Hangs(root: nat, per: nat, fat: seq<nat>, data: seq<seq<byte>>, tree: Tree, lost: set<nat>, q: Path,
                        item: Item, fat': seq<nat>, data': seq<seq<byte>>, t: Tree, cost: nat)
  {
    && ChainsOk(fat', t, lost) && DirsOk(root, per, data', t)
    && View(data', t) == View(data, tree)[q := item]
    && lost !! FreeSet(fat') && |FreeSet(fat')| == |FreeSet(fat)| - cost
  }

  lemma HangsIn(root: nat, per: nat, fat: seq<nat>, data: seq<seq<byte>>, tree: Tree, lost: set<nat>, q: Path,
                node: Node, data': seq<seq<byte>>, at: Spot)
    requires Ready(root, per, fat, data, tree, lost, q, node.isDir, node.chain) && node.cl == at.c && node.ix == at.j
    requires EnteredIn(per, data, data', tree[Parent(q)].chain, at)
    requires EntryFor(EntryIn(data', at.c, at.j), q, node.isDir, node.chain, node.size)
    ensures Hangs(root, per, fat, data, tree, lost, q, ItemOf(data, node), fat, data', tree[q := node], 0)
    ensures at.c !in node.chain
  {
    hide ChainsOk, DirsOk, ChainOk, Distinct, NewDir, EntryIn, OnlySlot, View, ItemOf, FirstOpening, EntryFor, Ready;
    hide FreeSet, Cells;
    CreateHere(root, per, fat, data, tree, lost, q, node, at.i, data', at.buf);
    ReadyParts(root, per, fat, data, tree, lost, q, node.isDir, node.chain);
    SpotInDirectory(per, data, data', tree[Parent(q)].chain, at);
    ReadyApart(root, per, fat, data, tree, lost, q, node.isDir, node.chain, at.c);
  }

  lemma HangsBehind(root: nat, per: nat, fat: seq<nat>, data: seq<seq<byte>>, tree: Tree, lost: set<nat>, q: Path,
                    node: Node, fat': seq<nat>, data': seq<seq<byte>>, at: Spot)
    requires Ready(root, per, fat, data, tree, lost, q, node.isDir, node.chain) && node.cl == at.c && node.ix == at.j
    requires per > 0 && DirFull(per, data, tree[Parent(q)].chain)
    requires EnteredBehind(per, fat, fat', data, data', tree[Parent(q)].chain, at)
    requires EntryFor(EntryIn(data', at.c, at.j), q, node.isDir, node.chain, node.size)
    ensures Hangs(root, per, fat, data, tree, lost, q, ItemOf(data, node), fat', data',
                  Grown(tree, Parent(q), at.c)[q := node], 1)
    ensures Grown(tree, Parent(q), at.c).Keys == tree.Keys && at.c !in node.chain
  {
    hide ChainsOk, DirsOk, ChainOk, Distinct, NewDir, EntryIn, OnlySlot, View, ItemOf, Zeroed, DirFull, EntryFor, Ready;
    hide FreeSet, Cells, LinkedBehind, Grown;
    CreateGrown(root, per, fat, data, tree, lost, q, node, fat', data[at.c := at.zeros], at.zeros, data', at.buf);
    ReadyGrows(root, per, fat, data, tree, lost, q, node.isDir, node.chain, at.c, fat');
    ReadyParts(root, per, fat, data, tree, lost, q, node.isDir, node.chain);
    GrownKeys(tree, Parent(q), at.c);
  }

  /** An entry for a path that was free makes a finished chain a node of the tree. */
  lemma EnteredHangs(root: nat, per: nat, fat: seq<nat>, data: seq<seq<byte>>, tree: Tree, lost: set<nat>, q: Path,
                     isDir: bool, chain: seq<nat>, size: nat, fat': seq<nat>, data': seq<seq<byte>>, e: Entry, at: Spot)
    requires Ready(root, per, fat, data, tree, lost, q, isDir, chain) && per > 0
    requires EntryFor(e, q, isDir, chain, size)
    requires Entered(per, fat, fat', data, data', tree[Parent(q)].chain, e, at)
    ensures var grown := DirFull(per, data, tree[Parent(q)].chain);
            var t := HungIn(tree, q, grown, NodeAt(isDir, chain, size, at));
            && Hangs(root, per, fat, data, tree, lost, q, ItemOf(data, Loose(isDir, chain, size)), fat', data', t,
                     if grown then 1 else 0)
            && t.Keys == tree.Keys + {q} && t[q].chain == chain
    ensures at.c !in chain
  {
    hide ItemOf, DirFull, EntryFor, EnteredIn, EnteredBehind, Hangs, EntryIn, Grown, ChainsOk, DirsOk, ChainOk;
    hide Distinct;
    hide NewDir, Cells, FreeSet;
    var node := NodeAt(isDir, chain, size, at);
    ItemIgnoresSlot(data, node);
    ReadyParts(root, per, fat, data, tree, lost, q, isDir, chain);
    hide Ready;
    if DirFull(per, data, tree[Parent(q)].chain) {
      HangsBehind(root, per, fat, data, tree, lost, q, node, fat', data', at);
    } else {
      HangsIn(root, per, fat, data, tree, lost, q, node, data', at);
    }
  }

  lemma SpotInDirectory(per: nat, data: seq<seq<byte>>, data': seq<seq<byte>>, dir: seq<nat>, at: Spot)
    requires EnteredIn(per, data, data', dir, at)
    ensures at.c in dir
  {
    hide EntryIn, OnlySlot;
  }

  lemma ReadyParts(root: nat, per: nat, fat: seq<nat>, data: seq<seq<byte>>, tree: Tree, lost: set<nat>, q: Path,
                   isDir: bool, chain: seq<nat>)
    requires Ready(root, per, fat, data, tree, lost, q, isDir, chain)
    ensures lost !! FreeSet(fat) && q != [] && Parent(q) in tree && q !in tree && ChainOk(fat, chain)
  {
    hide ChainsOk, DirsOk, ChainOk, Distinct, NewDir, FreeSet, Cells;
  }

  lemma ReadyDirectory(root: nat, per: nat, fat: seq<nat>, data: seq<seq<byte>>, tree: Tree, lost: set<nat>, q: Path,
                       isDir: bool, chain: seq<nat>)
    requires Ready(root, per, fat, data, tree, lost, q, isDir, chain)
    ensures q != [] && Parent(q) in tree && tree[Parent(q)].isDir
    ensures tree[Parent(q)].chain != [] && ChainOk(fat, tree[Parent(q)].chain)
  {
    hide ChainOk, Distinct, NewDir, FreeSet, Cells, NoShare, Accounted, Terminated, SlotKnown, Linked;
    assert DirOk(per, data, tree, Parent(q));
  }

  /** Entering a name rewrites one cluster. */
  lemma EnteredElsewhere(per: nat, fat: seq<nat>, fat': seq<nat>, data: seq<seq<byte>>, data': seq<seq<byte>>,
                         dir: seq<nat>, e: Entry, at: Spot)
    requires Entered(per, fat, fat', data, data', dir, e, at)
    ensures |data'| == |data| && forall d :: 0 <= d < |data| && d != at.c ==> data'[d] == data[d]
  {
    hide DirFull, EntryIn, FirstOpening, OnlySlot, Zeroed, LinkedBehind, FreeSet;
  }

  lemma ReadyGrows(root: nat, per: nat, fat: seq<nat>, data: seq<seq<byte>>, tree: Tree, lost: set<nat>, q: Path,
                   isDir: bool, chain: seq<nat>, extra: nat, fat': seq<nat>)
    requires Ready(root, per, fat, data, tree, lost, q, isDir, chain) && extra in FreeSet(fat)
    requires LinkedBehind(fat, fat', tree[Parent(q)].chain, extra)
    ensures lost !! FreeSet(fat') && |FreeSet(fat')| == |FreeSet(fat)| - 1 && extra !in chain
  {
    hide ChainsOk, DirsOk, ChainOk, Distinct, NewDir, FreeSet, Cells, LinkedBehind;
    FreshIsApart(fat, tree, lost, chain, Parent(q), extra);
    GrownFree(fat, tree, lost + Cells(chain), Parent(q), extra, fat');
  }

  lemma IsDirFull(per: nat, data: seq<seq<byte>>, chain: seq<nat>)
    requires NoOpening(per, data, chain, |chain|, 0)
    ensures DirFull(per, data, chain)
  {
  }

  /** A node not yet hung into a directory. */
  function Loose(isDir: bool, chain: seq<nat>, size: nat): Node { Node(isDir, chain, size, 0, 0) }

  lemma ItemIgnoresSlot(data: seq<seq<byte>>, node: Node)
    ensures ItemOf(data, node) == ItemOf(data, Loose(node.isDir, node.chain, node.size))
  {
  }

  lemma FirstIsFree(fat: seq<nat>, cursor: nat, c: nat)
    requires FirstFree(fat, cursor, c)
    ensures c in FreeSet(fat) && 2 <= c < |fat|
  {
  }

  lemma LinksBehind(fat: seq<nat>, fat': seq<nat>, chain: seq<nat>, c: nat)
    requires chain != [] && chain[|chain| - 1] < |fat| && c < |fat| <= EOC
    requires fat' == fat[chain[|chain| - 1] := c % ENTRY][c := EOC % ENTRY]
    ensures LinkedBehind(fat, fat', chain, c)
  {
  }

  lemma ZeroedCluster(per: nat, data: seq<seq<byte>>, c: nat, zeros: seq<byte>)
    requires c < |data| && SLOT * per <= |zeros| && forall k :: 0 <= k < |zeros| ==> zeros[k] == 0
    ensures Zeroed(per, data, data[c := zeros], c)
  {
  }

  // ---- between allocating a chain and naming it ----

  lemma OwnedKept(fat: seq<nat>, fat': seq<nat>, tree: Tree, pending: set<nat>, chain: seq<nat>, c: nat)
    requires ChainsOk(fat, tree, pending) && Allocated(fat, fat', chain) && Owned(tree, c)
    ensures c !in chain && (c < |fat| ==> fat'[c] == fat[c])
  {
    hide NoShare, Accounted, ChainOk;
    if c in chain {
      assert c in Cells(chain);
      FreeNotOwned(fat, tree, pending, c);
    }
  }

  lemma AllocatedChains(fat: seq<nat>, fat': seq<nat>, tree: Tree, lost: set<nat>, chain: seq<nat>)
    requires ChainsOk(fat, tree, lost) && lost !! FreeSet(fat) && Allocated(fat, fat', chain)
    ensures ChainsOk(fat', tree, lost + Cells(chain)) && lost !! Cells(chain) && lost !! FreeSet(fat')
    ensures |FreeSet(fat')| == |FreeSet(fat)| - |chain|
  {
    hide NoShare, ChainOk, Owned;
    forall c: nat | Owned(tree, c)
      ensures c !in chain && (c < |fat| ==> fat'[c] == fat[c])
    {
      OwnedKept(fat, fat', tree, lost, chain, c);
    }
    hide FreeSet;
    CellsSize(chain);
    ChainsFrame(fat, fat', tree, lost, lost + Cells(chain));
  }

  /** A failed allocation takes every free cluster out of circulation and harms no chain. */
  lemma FailedAllocation(fat: seq<nat>, fat': seq<nat>, tree: Tree, lost: set<nat>)
    requires ChainsOk(fat, tree, lost) && Exhausted(fat, fat')
    ensures ChainsOk(fat', tree, lost + FreeSet(fat)) && FreeSet(fat') == {}
  {
    forall c | c in FreeSet(fat)
      ensures !Owned(tree, c)
    {
      FreeNotOwned(fat, tree, lost, c);
    }
    hide ChainsOk, Exhausted, Owned;
    ExhaustedChains(fat, fat', tree, lost);
  }

  /** An allocation as long as there were free clusters has taken them all. */
  lemma AllTaken(fat: seq<nat>, fat': seq<nat>, chain: seq<nat>)
    requires Allocated(fat, fat', chain) && FreeSet(fat') == {}
    ensures Cells(chain) == FreeSet(fat)
  {
    hide FreeSet, Cells;
    assert FreeSet(fat) - Cells(chain) == {};
    assert FreeSet(fat) == Cells(chain) + (FreeSet(fat) - Cells(chain));
  }

  lemma NothingKept(buf: seq<byte>, bpc: nat)
    ensures Fitting(buf, 0, bpc) == []
  {
  }

  /** Writing to clusters that no node owns: the tree and what it shows stay. */
  lemma UnownedWrite(root: nat, per: nat, data: seq<seq<byte>>, data': seq<seq<byte>>, tree: Tree, chain: seq<nat>)
    requires DirsOk(root, per, data, tree) && |data'| == |data|
    requires forall c :: c in chain ==> !Owned(tree, c)
    requires forall c :: 0 <= c < |data| && c !in chain ==> data'[c] == data[c]
    ensures DirsOk(root, per, data', tree) && View(data', tree) == View(data, tree)
    ensures forall p :: p in tree ==> (DirFull(per, data', tree[p].chain) <==> DirFull(per, data, tree[p].chain))
  {
    forall p, c: nat | Owns(tree, p, c)
      ensures c !in chain && forall j: nat :: EntryIn(data', c, j) == EntryIn(data, c, j)
    {
      assert Owned(tree, c);
    }
    hide EntryIn, DirsOk, View, ItemOf;
    OutsideKeepsDirs(root, per, data, data', tree);
    SameView(tree, data, data');
    forall p | p in tree
      ensures DirFull(per, data', tree[p].chain) <==> DirFull(per, data, tree[p].chain)
    {
      SameFull(per, data, data', tree, p);
    }
  }

  /** A finished chain that is on no node yet, and everything else in order. */
  ghost predicate Held(root: nat, per: nat, fat: seq<nat>, data: seq<seq<byte>>, tree: Tree, lost: set<nat>,
                       chain: seq<nat>)
  {
    && DirsOk(root, per, data, tree)
    && ChainsOk(fat, tree, lost + Cells(chain)) && lost !! Cells(chain) && lost !! FreeSet(fat)
    && ChainOk(fat, chain) && Distinct(chain) && chain != []
    && forall c :: c in chain ==> !Owned(tree, c)
  }

  lemma AllocatedHeld(root: nat, per: nat, fat: seq<nat>, fat': seq<nat>, data: seq<seq<byte>>, tree: Tree,
                      lost: set<nat>, chain: seq<nat>)
    requires ChainsOk(fat, tree, lost) && lost !! FreeSet(fat) && DirsOk(root, per, data, tree)
    requires Allocated(fat, fat', chain)
    ensures Held(root, per, fat', data, tree, lost, chain) && chain != []
    ensures |FreeSet(fat')| == |FreeSet(fat)| - |chain|
  {
    AllocatedUnowned(fat, fat', tree, lost, chain);
    AllocatedChains(fat, fat', tree, lost, chain);
    hide ChainsOk, DirsOk, ChainOk, Owned, FreeSet, Cells, Distinct;
  }

  lemma HeldFacts(root: nat, per: nat, fat: seq<nat>, data: seq<seq<byte>>, tree: Tree, lost: set<nat>,
                  chain: seq<nat>)
    requires Held(root, per, fat, data, tree, lost, chain)
    ensures ChainOk(fat, chain) && Distinct(chain) && chain != [] && 2 <= chain[0] < |fat|
    ensures ChainsOk(fat, tree, lost + Cells(chain)) && DirsOk(root, per, data, tree) && lost !! FreeSet(fat)
  {
    hide ChainsOk, DirsOk, Owned, FreeSet, Cells, Distinct;
  }

  lemma HeldDirectory(root: nat, per: nat, fat: seq<nat>, data: seq<seq<byte>>, tree: Tree, lost: set<nat>,
                      chain: seq<nat>, p: Path)
    requires Held(root, per, fat, data, tree, lost, chain) && p in tree && tree[p].isDir
    ensures tree[p].chain != [] && ChainOk(fat, tree[p].chain)
  {
    hide ChainOk, Distinct, FreeSet, Cells, NoShare, Accounted, Terminated, SlotKnown, Linked, Owned;
    assert DirOk(per, data, tree, p);
  }

  /** What an allocation leaves free. */
  lemma LeftFree(fat: seq<nat>, fat': seq<nat>, chain: seq<nat>)
    requires Allocated(fat, fat', chain)
    ensures |FreeSet(fat')| == |FreeSet(fat)| - |chain| && (FreeSet(fat') == {} <==> |chain| == |FreeSet(fat)|)
  {
    hide FreeSet, ChainOk;
    CellsSize(chain);
    hide Cells;
    assert |FreeSet(fat')| == 0 ==> FreeSet(fat') == {};
  }

  lemma HeldWrite(root: nat, per: nat, fat: seq<nat>, data: seq<seq<byte>>, data': seq<seq<byte>>, tree: Tree,
                  lost: set<nat>, chain: seq<nat>)
    requires Held(root, per, fat, data, tree, lost, chain) && |data'| == |data|
    requires forall c :: 0 <= c < |data| && c !in chain ==> data'[c] == data[c]
    ensures Held(root, per, fat, data', tree, lost, chain) && View(data', tree) == View(data, tree)
    ensures forall p :: p in tree ==> (DirFull(per, data', tree[p].chain) <==> DirFull(per, data, tree[p].chain))
  {
    UnownedWrite(root, per, data, data', tree, chain);
    hide ChainsOk, DirsOk, ChainOk, Owned, FreeSet, Cells, Distinct, View, DirFull;
  }

  lemma HeldReady(root: nat, per: nat, fat: seq<nat>, data: seq<seq<byte>>, tree: Tree, lost: set<nat>,
                  chain: seq<nat>, q: Path)
    requires Held(root, per, fat, data, tree, lost, chain)
    requires q != [] && q !in tree && Parent(q) in tree && tree[Parent(q)].isDir
    ensures Ready(root, per, fat, data, tree, lost, q, false, chain)
  {
    hide ChainsOk, DirsOk, ChainOk, Owned, FreeSet, Cells, Distinct;
  }

  lemma HeldReadyDir(root: nat, per: nat, fat: seq<nat>, data: seq<seq<byte>>, tree: Tree, lost: set<nat>,
                     c: nat, q: Path)
    requires Held(root, per, fat, data, tree, lost, [c]) && NewDir(per, data, [c])
    requires q != [] && q !in tree && Parent(q) in tree && tree[Parent(q)].isDir
    ensures Ready(root, per, fat, data, tree, lost, q, true, [c])
  {
    hide ChainsOk, DirsOk, ChainOk, Owned, FreeSet, Cells, Distinct, NewDir;
  }

  lemma OneCell(c: nat)
    ensures Cells([c]) == {c}
  {
  }

  lemma OneTaken(fat: seq<nat>, fat': seq<nat>, c: nat)
    requires Allocated(fat, fat', [c]) && c in FreeSet(fat)
    ensures FreeSet(fat) == FreeSet(fat') + {c} && |FreeSet(fat')| == |FreeSet(fat)| - 1
  {
    OneCell(c);
    hide FreeSet;
  }

  lemma FreeInRange(fat: seq<nat>, c: nat)
    requires c in FreeSet(fat)
    ensures 2 <= c < |fat|
  {
  }

  lemma SameFull(per: nat, data: seq<seq<byte>>, data': seq<seq<byte>>, tree: Tree, p: Path)
    requires p in tree
    requires forall c: nat, j: nat :: Owns(tree, p, c) ==> EntryIn(data', c, j) == EntryIn(data, c, j)
    ensures DirFull(per, data', tree[p].chain) <==> DirFull(per, data, tree[p].chain)
  {
    hide EntryIn, Unused, Deleted;
    var chain := tree[p].chain;
    forall a, b | 0 <= a < |chain| && 0 <= b < per
      ensures EntryIn(data', chain[a], b) == EntryIn(data, chain[a], b)
    {
      assert Owns(tree, p, chain[a]);
    }
  }

  lemma AllocatedUnowned(fat: seq<nat>, fat': seq<nat>, tree: Tree, lost: set<nat>, chain: seq<nat>)
    requires ChainsOk(fat, tree, lost) && Allocated(fat, fat', chain)
    ensures forall c :: c in chain ==> !Owned(tree, c)
    ensures ChainOk(fat', chain) && Distinct(chain)
  {
    forall c | c in chain
      ensures !Owned(tree, c)
    {
      if Owned(tree, c) {
        OwnedKept(fat, fat', tree, lost, chain, c);
      }
    }
  }

  /** A marked slot is an opening: its directory is not full. */
  lemma MarkedIsOpening(per: nat, data: seq<seq<byte>>, chain: seq<nat>, c: nat, j: nat)
    requires c in chain && j < per && Deleted(EntryIn(data, c, j))
    ensures !DirFull(per, data, chain)
  {
    hide EntryIn, Unused, Deleted;
    var k :| 0 <= k < |chain| && chain[k] == c;
    assert !NotBefore(|chain|, 0, k, j);
  }

  /** As much of a buffer as `k` clusters hold. */
  ghost function Fitting(buf: seq<byte>, k: nat, bpc: nat): seq<byte> {
    MulLe(0, k, bpc);
    Prefix(buf, k * bpc)
  }

  /** What a file holds after being written: all of the bytes, or as many as the clusters take. */
  ghost function Kept(buf: seq<byte>, bpc: nat): seq<byte>
    requires bpc > 0
  {
    Fitting(buf, ClustersNeeded(|buf|, bpc), bpc)
  }

  /** Everything is kept exactly when the 32-bit rounding of the size does not wrap. */
  lemma KeptAll(buf: seq<byte>, bpc: nat)
    requires 0 < bpc <= 0x1_0000 && |buf| < U32
    ensures Kept(buf, bpc) == buf <==> |buf| + bpc <= U32
  {
    NeededSuffices(|buf|, bpc);
    hide ClustersNeeded;
    var room := ClustersNeeded(|buf|, bpc) * bpc;
    if room < |buf| {
      assert |buf[..room]| < |buf|;
    }
  }

  /** One byte less than 4 GiB, written with clusters of one sector, keeps 512 bytes. */
  lemma KeptCut(buf: seq<byte>)
    requires |buf| == 0xFFFF_FFFF
    ensures |Kept(buf, 512)| == 512
  {
    assert ClustersNeeded(0xFFFF_FFFF, 512) == 1;
    hide ClustersNeeded;
  }

  lemma KeptIs(data: seq<seq<byte>>, chain: seq<nat>, buf: seq<byte>, written: nat, bpc: nat)
    requires bpc > 0
    requires forall c :: c in chain ==> c < |data| && |data[c]| == bpc
    requires written == (var n := |Flatten(data, chain)|; if n < |buf| then n else |buf|)
    requires Prefix(Flatten(data, chain), |buf|) == buf[..written]
    ensures written == |Fitting(buf, |chain|, bpc)|
    ensures ItemOf(data, Loose(false, chain, |buf|)) == File(Fitting(buf, |chain|, bpc))
  {
    hide Flatten;
    FlattenLength(data, chain, bpc);
  }

  lemma DirHasCluster(root: nat, per: nat, fat: seq<nat>, data: seq<seq<byte>>, tree: Tree, lost: set<nat>,
                      p: Path)
    requires DirsOk(root, per, data, tree) && ChainsOk(fat, tree, lost)
    ensures p in tree && tree[p].isDir ==> tree[p].Head() >= 2
  {
    hide NoShare, Accounted;
    if p in tree && tree[p].isDir {
      assert DirOk(per, data, tree, p);
      assert ChainOk(fat, tree[p].chain);
    }
  }

  lemma HeadInRange(root: nat, per: nat, fat: seq<nat>, data: seq<seq<byte>>, tree: Tree, lost: set<nat>,
                    p: Path)
    requires DirsOk(root, per, data, tree) && ChainsOk(fat, tree, lost) && p in tree && tree[p].isDir
    ensures 2 <= tree[p].Head() < |fat|
  {
    hide NoShare, Accounted;
    assert DirOk(per, data, tree, p);
    assert ChainOk(fat, tree[p].chain);
  }

  lemma NewDirOfOne(per: nat, data: seq<seq<byte>>, c: nat)
    requires Terminated(per, data, [c]) && forall j :: 0 <= j < per ==> !NamesChild(EntryIn(data, c, j))
    ensures NewDir(per, data, [c])
  {
    hide Terminated, NamesChild, EntryIn;
  }

  lemma ReadyApart(root: nat, per: nat, fat: seq<nat>, data: seq<seq<byte>>, tree: Tree,
                   lost: set<nat>, q: Path, isDir: bool, chain: seq<nat>, c: nat)
    requires Ready(root, per, fat, data, tree, lost, q, isDir, chain) && c in tree[Parent(q)].chain
    ensures c !in chain
  {
    hide NoShare, ChainOk, DirsOk, NewDir, Distinct;
    PendingApart(fat, tree, lost, chain, Parent(q), c);
  }
}
