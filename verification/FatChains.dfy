/** Cluster chains under the FAT changes of the driver, free clusters counted, and file contents framed. */
module FatChains {
  import opened Bytes
  import opened FatLayout
  import opened FatVolume
  import opened FatTree
  import opened FatTreeSteps

  ghost predicate Distinct(chain: seq<nat>) {
    forall i, j :: 0 <= i < j < |chain| ==> chain[i] != chain[j]
  }

  ghost function Cells(chain: seq<nat>): set<nat> { set c | c in chain }

  lemma InnerLink(fat: seq<nat>, chain: seq<nat>, k: nat)
    requires ChainOk(fat, chain) && |fat| <= EOC && k + 1 < |chain|
    ensures fat[chain[k]] < EOC
  {
    assert fat[chain[k]] == chain[k + 1];
  }

  lemma NoLongerChain(fat: seq<nat>, a: seq<nat>, b: seq<nat>)
    requires ChainOk(fat, a) && ChainOk(fat, b) && |fat| <= EOC
    requires 0 < |a| <= |b| && a == b[..|a|]
    ensures a == b
  {
    assert b[|a| - 1] == a[|a| - 1];
    if |a| < |b| {
      InnerLink(fat, b, |a| - 1);
    }
  }

  /** A chain is determined by its head: following the FAT is a function. */
  lemma ChainUnique(fat: seq<nat>, a: seq<nat>, b: seq<nat>)
    requires ChainOk(fat, a) && ChainOk(fat, b) && |fat| <= EOC
    requires |a| > 0 && |b| > 0 && a[0] == b[0]
    ensures a == b
  {
    var k := 0;
    while k + 1 < |a| && k + 1 < |b|
      invariant k < |a| && k < |b| && a[..k + 1] == b[..k + 1]
    {
      assert a[k] == a[..k + 1][k] == b[k];
      assert fat[a[k]] == a[k + 1] && fat[b[k]] == b[k + 1];
      k := k + 1;
    }
    if |a| <= |b| {
      NoLongerChain(fat, a, b);
    } else {
      NoLongerChain(fat, b, a);
    }
  }

  /** Changing only entries outside a chain leaves the chain. */
  lemma ChainFrame(fat: seq<nat>, fat': seq<nat>, chain: seq<nat>)
    requires ChainOk(fat, chain) && |fat'| == |fat|
    requires forall c :: c in chain ==> c < |fat| && fat'[c] == fat[c]
    ensures ChainOk(fat', chain)
  {
    assert forall i :: 0 <= i < |chain| ==> chain[i] in chain;
  }

  lemma ChainsFrame(fat: seq<nat>, fat': seq<nat>, tree: Tree, pending: set<nat>, pending': set<nat>)
    requires ChainsOk(fat, tree, pending) && |fat'| == |fat|
    requires forall c :: 0 <= c < |fat| && Owned(tree, c) ==> fat'[c] == fat[c]
    requires forall c :: 2 <= c < |fat| && fat'[c] != 0 && !Owned(tree, c) ==> c in pending'
    requires forall c :: c in pending' ==> !Owned(tree, c)
    ensures ChainsOk(fat', tree, pending')
  {
    hide NoShare;
    forall p | p in tree
      ensures ChainOk(fat', tree[p].chain)
    {
      forall c | c in tree[p].chain
        ensures c < |fat| && fat'[c] == fat[c]
      {
        assert Owns(tree, p, c);
      }
      ChainFrame(fat, fat', tree[p].chain);
    }
  }

  /** A node taken out: its clusters become pending. */
  lemma ChainsRemove(fat: seq<nat>, tree: Tree, pending: set<nat>, q: Path)
    requires ChainsOk(fat, tree, pending) && q in tree
    ensures ChainsOk(fat, tree - {q}, pending + Cells(tree[q].chain))
  {
    hide ChainOk;
    var tree' := tree - {q};
    forall c | Owned(tree, c)
      ensures Owned(tree', c) || c in Cells(tree[q].chain)
    {
      var p :| Owns(tree, p, c);
      assert p != q ==> Owns(tree', p, c);
    }
    forall c | Owned(tree', c)
      ensures Owned(tree, c) && c !in Cells(tree[q].chain)
    {
      var p :| Owns(tree', p, c);
      assert Owns(tree, p, c);
      assert c in tree[p].chain && p != q;
    }
  }

  lemma AddKeepsNoShare(tree: Tree, q: Path, node: Node)
    requires NoShare(tree) && q !in tree && Distinct(node.chain)
    requires forall c :: c in node.chain ==> !Owned(tree, c)
    ensures NoShare(tree[q := node])
  {
    var tree' := tree[q := node];
    forall p, i | p in tree && 0 <= i < |tree[p].chain|
      ensures tree[p].chain[i] !in node.chain
    {
      assert Owns(tree, p, tree[p].chain[i]);
    }
  }

  /** Pending clusters that form a chain become a node. */
  lemma ChainsAdd(fat: seq<nat>, tree: Tree, pending: set<nat>, q: Path, node: Node)
    requires ChainsOk(fat, tree, pending) && q !in tree
    requires ChainOk(fat, node.chain) && Distinct(node.chain) && Cells(node.chain) <= pending
    ensures ChainsOk(fat, tree[q := node], pending - Cells(node.chain))
  {
    hide ChainOk;
    var tree' := tree[q := node];
    assert forall c :: c in node.chain ==> c in Cells(node.chain);
    AddKeepsNoShare(tree, q, node);
    hide NoShare;
    forall c | Owned(tree', c)
      ensures Owned(tree, c) || c in node.chain
    {
      var p :| Owns(tree', p, c);
      assert p != q ==> Owns(tree, p, c);
    }
    forall c | Owned(tree, c) || c in node.chain
      ensures Owned(tree', c)
    {
      if c in node.chain {
        assert Owns(tree', q, c);
      } else {
        var p :| Owns(tree, p, c);
        assert Owns(tree', p, c);
      }
    }
  }

  lemma GrowKeepsNoShare(tree: Tree, p: Path, extra: nat)
    requires NoShare(tree) && p in tree && !Owned(tree, extra)
    ensures NoShare(Grown(tree, p, extra))
  {
    var tree' := Grown(tree, p, extra);
    forall r, i | r in tree && 0 <= i < |tree[r].chain|
      ensures tree[r].chain[i] != extra && tree'[r].chain[i] == tree[r].chain[i]
    {
      assert Owns(tree, r, tree[r].chain[i]);
    }
    assert |tree'[p].chain| == |tree[p].chain| + 1 && tree'[p].chain[|tree[p].chain|] == extra;
  }

  /** Linking one more cluster behind the last of a chain. */
  lemma ChainGrow(fat: seq<nat>, chain: seq<nat>, extra: nat)
    requires ChainOk(fat, chain) && chain != [] && extra !in chain && 2 <= extra < |fat| && Distinct(chain)
    ensures ChainOk(fat[chain[|chain| - 1] := extra][extra := EOC], chain + [extra])
  {
    assert forall i :: 0 <= i < |chain| ==> chain[i] in chain;
  }

  lemma GrowOwns(tree: Tree, p: Path, extra: nat, c: nat)
    requires p in tree
    ensures Owned(Grown(tree, p, extra), c) <==> Owned(tree, c) || c == extra
  {
    var tree' := Grown(tree, p, extra);
    if c == extra {
      assert Owns(tree', p, extra);
    } else if Owned(tree, c) {
      var r :| Owns(tree, r, c);
      assert Owns(tree', r, c);
    } else if Owned(tree', c) {
      var r :| Owns(tree', r, c);
      assert Owns(tree, r, c);
    }
  }

  /** `extra` is linked behind the last cluster of `chain` and made the new end. */
  ghost predicate LinkedBehind(fat: seq<nat>, fat': seq<nat>, chain: seq<nat>, extra: nat) {
    && chain != [] && chain[|chain| - 1] < |fat| && extra < |fat|
    && fat' == fat[chain[|chain| - 1] := extra][extra := 0x0FFF_FFF8]
  }

  lemma GrowKeepsChains(fat: seq<nat>, fat': seq<nat>, tree: Tree, p: Path, extra: nat, r: Path)
    requires NoShare(tree) && p in tree && r in tree
    requires ChainOk(fat, tree[p].chain) && ChainOk(fat, tree[r].chain)
    requires 2 <= extra < |fat| && !Owned(tree, extra)
    requires LinkedBehind(fat, fat', tree[p].chain, extra)
    ensures ChainOk(fat', Grown(tree, p, extra)[r].chain)
  {
    assert !Owns(tree, r, extra);
    if r == p {
      ChainGrow(fat, tree[p].chain, extra);
    } else {
      assert tree[p].chain[|tree[p].chain| - 1] !in tree[r].chain;
      hide NoShare;
      ChainFrame(fat, fat', tree[r].chain);
    }
  }

  lemma GrowAccounts(fat: seq<nat>, fat': seq<nat>, tree: Tree, tree': Tree, pending: set<nat>, last: nat, extra: nat)
    requires Accounted(fat, tree, pending) && Owned(tree, last) && last < |fat| && extra < |fat|
    requires fat' == fat[last := extra][extra := EOC]
    requires forall c: nat :: Owned(tree', c) <==> Owned(tree, c) || c == extra
    ensures Accounted(fat', tree', pending - {extra})
  {
    hide Owned;
  }

  lemma ChainsGrow(fat: seq<nat>, fat': seq<nat>, tree: Tree, pending: set<nat>, p: Path, extra: nat)
    requires ChainsOk(fat, tree, pending) && p in tree
    requires 2 <= extra < |fat| && !Owned(tree, extra)
    requires LinkedBehind(fat, fat', tree[p].chain, extra)
    ensures ChainsOk(fat', Grown(tree, p, extra), pending - {extra})
  {
    var tree' := Grown(tree, p, extra);
    var last := tree[p].chain[|tree[p].chain| - 1];
    GrowKeepsNoShare(tree, p, extra);
    hide NoShare, ChainOk, Owned, Accounted;
    forall r | r in tree'
      ensures ChainOk(fat', tree'[r].chain)
    {
      GrowKeepsChains(fat, fat', tree, p, extra, r);
    }
    hide Grown;
    forall c: nat
      ensures Owned(tree', c) <==> Owned(tree, c) || c == extra
    {
      GrowOwns(tree, p, extra, c);
    }
    OwnsLast(tree, p);
    GrowAccounts(fat, fat', tree, tree', pending, last, extra);
  }

  lemma OwnsLast(tree: Tree, p: Path)
    requires p in tree && tree[p].chain != []
    ensures Owned(tree, tree[p].chain[|tree[p].chain| - 1])
  {
    assert Owns(tree, p, tree[p].chain[|tree[p].chain| - 1]);
  }

  lemma SameChain(fat: seq<nat>, a: Node, b: Node)
    requires |fat| <= EOC && ChainOk(fat, a.chain) && ChainOk(fat, b.chain) && a.Head() == b.Head()
    ensures a.chain == b.chain
  {
    if a.chain != [] && b.chain != [] {
      ChainUnique(fat, a.chain, b.chain);
    }
  }

  // ---- free clusters ----

  /** The FAT with the entries of a set of clusters cleared. */
  ghost predicate Cleared(fat: seq<nat>, fat': seq<nat>, cells: set<nat>) {
    && |fat'| == |fat|
    && (forall c :: 0 <= c < |fat| ==> fat'[c] == if c in cells then 0 else fat[c])
  }

  lemma FreePending(fat: seq<nat>, fat': seq<nat>, tree: Tree, lost: set<nat>, cells: set<nat>)
    requires ChainsOk(fat, tree, lost + cells) && Cleared(fat, fat', cells) && lost !! cells
    ensures ChainsOk(fat', tree, lost)
  {
    ChainsFrame(fat, fat', tree, lost + cells, lost);
  }

  /** Every free cluster has been taken, and nothing else changed: what a failed allocation leaves. */
  ghost predicate Exhausted(fat: seq<nat>, fat': seq<nat>) {
    && |fat'| == |fat|
    && (forall c :: c in FreeSet(fat) ==> fat'[c] != 0)
    && (forall c :: 0 <= c < |fat| && c !in FreeSet(fat) ==> fat'[c] == fat[c])
  }

  lemma ExhaustedChains(fat: seq<nat>, fat': seq<nat>, tree: Tree, lost: set<nat>)
    requires ChainsOk(fat, tree, lost) && Exhausted(fat, fat')
    requires forall c :: c in FreeSet(fat) ==> !Owned(tree, c)
    ensures ChainsOk(fat', tree, lost + FreeSet(fat)) && FreeSet(fat') == {}
  {
    assert FreeSet(fat') == {};
    hide NoShare, ChainOk, Owned;
    ChainsFrame(fat, fat', tree, lost, lost + FreeSet(fat));
  }

  lemma FreeSetCleared(fat: seq<nat>, fat': seq<nat>, cells: set<nat>)
    requires Cleared(fat, fat', cells) && forall c :: c in cells ==> 2 <= c < |fat|
    ensures FreeSet(fat') == FreeSet(fat) + cells
  {
  }

  lemma CellsSize(chain: seq<nat>)
    requires Distinct(chain)
    ensures |Cells(chain)| == |chain|
  {
    if chain != [] {
      var front, last := chain[..|chain| - 1], chain[|chain| - 1];
      CellsSize(front);
      assert last !in front;
      assert Cells(chain) == Cells(front) + {last} by {
        assert chain == front + [last];
      }
    } else {
      assert Cells(chain) == {};
    }
  }

  // ---- contents ----

  lemma FlattenFrame(data: seq<seq<byte>>, data': seq<seq<byte>>, chain: seq<nat>)
    requires |data'| == |data| && forall c :: c in chain && c < |data| ==> data'[c] == data[c]
    ensures Flatten(data', chain) == Flatten(data, chain)
  {
    if chain != [] {
      var front := chain[..|chain| - 1];
      assert forall c :: c in front ==> c in chain;
      assert chain[|chain| - 1] in chain;
      FlattenFrame(data, data', front);
    }
  }

  lemma FlattenSnoc(data: seq<seq<byte>>, chain: seq<nat>, c: nat)
    requires c < |data|
    ensures Flatten(data, chain + [c]) == Flatten(data, chain) + data[c]
  {
    assert (chain + [c])[..|chain|] == chain;
  }

  /** A chain of `n` full clusters holds n clusters' worth of bytes. */
  lemma FlattenLength(data: seq<seq<byte>>, chain: seq<nat>, bpc: nat)
    requires forall c :: c in chain ==> c < |data| && |data[c]| == bpc
    ensures |Flatten(data, chain)| == |chain| * bpc
  {
    if chain != [] {
      var front := chain[..|chain| - 1];
      assert forall c :: c in front ==> c in chain;
      assert chain[|chain| - 1] in chain;
      FlattenLength(data, front, bpc);
      Distribute(|front|, 1, bpc);
    }
  }

  /** Files keep their contents when only clusters of directories or unowned clusters change. */
  ghost predicate SameFiles(tree: Tree, data: seq<seq<byte>>, data': seq<seq<byte>>) {
    && |data'| == |data|
    && forall p, c: nat :: Owns(tree, p, c) && !tree[p].isDir && c < |data| ==> data'[c] == data[c]
  }

  lemma SameItem(tree: Tree, data: seq<seq<byte>>, data': seq<seq<byte>>, p: Path)
    requires SameFiles(tree, data, data') && p in tree
    ensures ItemOf(data', tree[p]) == ItemOf(data, tree[p])
  {
    if !tree[p].isDir {
      assert forall c :: c in tree[p].chain ==> Owns(tree, p, c);
      FlattenFrame(data, data', tree[p].chain);
    }
  }

  lemma SameView(tree: Tree, data: seq<seq<byte>>, data': seq<seq<byte>>)
    requires SameFiles(tree, data, data')
    ensures View(data', tree) == View(data, tree)
  {
    hide ItemOf, SameFiles;
    forall p | p in tree
      ensures ItemOf(data', tree[p]) == ItemOf(data, tree[p])
    {
      SameItem(tree, data, data', p);
    }
  }
}
