/** What a pass over the slots of a directory finds, in terms of the tree. */
module FatScan {
  import opened Bytes
  import opened FatLayout
  import opened FatVolume
  import opened FatTree
  import opened FatTreeSteps

  /** The test of find_entry_in_cluster. */
  predicate Hit(e: Entry, name: Name) {
    !Unused(e) && !Deleted(e) && !MarksLongName(e) && e.name == name
  }

  /** Every slot before (k, j) is in use and does not carry the name. */
  ghost predicate Passed(per: nat, data: seq<seq<byte>>, chain: seq<nat>, name: Name, k: nat, j: nat) {
    forall a, b :: 0 <= a < |chain| && 0 <= b < per && !NotBefore(k, j, a, b) ==>
      !Unused(EntryIn(data, chain[a], b)) && !Hit(EntryIn(data, chain[a], b), name)
  }

  /** A hit is the slot of the child with that name. */
  lemma HitIsChild(root: nat, per: nat, data: seq<seq<byte>>, tree: Tree, p: Path, name: Name, k: nat, j: nat)
    requires DirsOk(root, per, data, tree) && p in tree && tree[p].isDir
    requires k < |tree[p].chain| && j < per && name != DOT && name != DOTDOT
    requires EntryIn(data, tree[p].chain[k], j).name == name
    requires !Unused(EntryIn(data, tree[p].chain[k], j)) && !Deleted(EntryIn(data, tree[p].chain[k], j))
    ensures p + [name] in tree && tree[p + [name]].cl == tree[p].chain[k] && tree[p + [name]].ix == j
    ensures Describes(EntryIn(data, tree[p].chain[k], j), tree[p + [name]])
    ensures !MarksLongName(EntryIn(data, tree[p].chain[k], j))
  {
    hide EntryIn, Describes, Terminated, Unused, Deleted, MarksLongName;
    assert DirOk(per, data, tree, p);
    assert SlotKnown(data, tree, p, tree[p].chain[k], j);
    assert Linked(per, data, tree, p + [name]);
  }

  /** The slot of a child, as a position in its directory. */
  lemma ChildSlot(root: nat, per: nat, data: seq<seq<byte>>, tree: Tree, p: Path, name: Name) returns (k: nat)
    requires DirsOk(root, per, data, tree) && p + [name] in tree
    ensures p in tree && tree[p].isDir && k < |tree[p].chain| && tree[p + [name]].cl == tree[p].chain[k]
    ensures tree[p + [name]].ix < per
    ensures Hit(EntryIn(data, tree[p].chain[k], tree[p + [name]].ix), name)
    ensures NamesChild(EntryIn(data, tree[p].chain[k], tree[p + [name]].ix))
  {
    var q := p + [name];
    assert Linked(per, data, tree, q);
    assert Parent(q) == p && Leaf(q) == name;
    hide EntryIn, Terminated, Unused, Deleted, Describes, IsDot;
    k :| 0 <= k < |tree[p].chain| && tree[p].chain[k] == tree[q].cl;
    assert DirOk(per, data, tree, p);
    assert SlotKnown(data, tree, p, tree[p].chain[k], tree[q].ix);
  }

  /** A pass over the whole directory without a hit: there is no such child. */
  lemma AbsentAtEnd(root: nat, per: nat, data: seq<seq<byte>>, tree: Tree, p: Path, name: Name, k: nat)
    requires DirsOk(root, per, data, tree) && p in tree && tree[p].isDir
    requires Passed(per, data, tree[p].chain, name, k, 0) && k >= |tree[p].chain|
    ensures p + [name] !in tree
  {
    hide EntryIn, DirsOk, Hit;
    if p + [name] in tree {
      var a := ChildSlot(root, per, data, tree, p, name);
    }
  }

  /** Stopping at a slot that begins with 0x00 without a hit: there is no such child. */
  lemma AbsentAtUnused(root: nat, per: nat, data: seq<seq<byte>>, tree: Tree, p: Path, name: Name, k: nat, j: nat)
    requires DirsOk(root, per, data, tree) && p in tree && tree[p].isDir
    requires Passed(per, data, tree[p].chain, name, k, j) && k < |tree[p].chain| && j < per
    requires Unused(EntryIn(data, tree[p].chain[k], j))
    ensures p + [name] !in tree
  {
    assert DirOk(per, data, tree, p);
    hide EntryIn, DirsOk, DirOk, Unused, Deleted, MarksLongName;
    if p + [name] in tree {
      var a := ChildSlot(root, per, data, tree, p, name);
    }
  }

  /** Slots are passed one after the other. */
  lemma PassSlot(per: nat, data: seq<seq<byte>>, chain: seq<nat>, name: Name, k: nat, j: nat)
    requires Passed(per, data, chain, name, k, j) && k < |chain| && j < per
    requires !Unused(EntryIn(data, chain[k], j)) && !Hit(EntryIn(data, chain[k], j), name)
    ensures Passed(per, data, chain, name, k, j + 1)
  {
    hide EntryIn, Unused, Hit;
  }

  lemma PassCluster(per: nat, data: seq<seq<byte>>, chain: seq<nat>, name: Name, k: nat)
    requires Passed(per, data, chain, name, k, per)
    ensures Passed(per, data, chain, name, k + 1, 0)
  {
    hide EntryIn, Unused, Hit;
  }

  // ---- the slot of a child that is there, found by name alone ----

  /** No slot before (k, j) carries the name. */
  ghost predicate NotNamed(per: nat, data: seq<seq<byte>>, chain: seq<nat>, name: Name, k: nat, j: nat) {
    forall a, b :: 0 <= a < |chain| && 0 <= b < per && !NotBefore(k, j, a, b) ==>
      EntryIn(data, chain[a], b).name != name
  }

  /** Name comparison alone also finds the slot of a child that is there: the first slot so named. */
  lemma NamedIsChild(root: nat, per: nat, data: seq<seq<byte>>, tree: Tree, p: Path, name: Name, k: nat, j: nat)
    requires DirsOk(root, per, data, tree) && p + [name] in tree && p in tree && tree[p].isDir
    requires k < |tree[p].chain| && j < per && EntryIn(data, tree[p].chain[k], j).name == name
    ensures tree[p + [name]].cl == tree[p].chain[k] && tree[p + [name]].ix == j
  {
    var a := ChildSlot(root, per, data, tree, p, name);
    var q := p + [name];
    assert NamesChild(EntryIn(data, tree[p].chain[a], tree[q].ix)) &&
        EntryIn(data, tree[p].chain[a], tree[q].ix).name == name;
    hide EntryIn, Terminated, DirsOk;
    HitIsChild(root, per, data, tree, p, name, k, j);
  }

  /** A name that is neither a dot entry nor looks unused or deleted. */
  predicate Ordinary(name: Name) {
    |name| == 11 && name != DOT && name != DOTDOT && name[0] != 0 && name[0] != 0xE5
  }

  /** A slot that carries an ordinary name belongs to a child. */
  lemma NamedExists(root: nat, per: nat, data: seq<seq<byte>>, tree: Tree, p: Path, name: Name, k: nat, j: nat)
    requires DirsOk(root, per, data, tree) && p in tree && tree[p].isDir && Ordinary(name)
    requires k < |tree[p].chain| && j < per && EntryIn(data, tree[p].chain[k], j).name == name
    ensures p + [name] in tree
  {
    hide EntryIn, DirsOk;
    HitIsChild(root, per, data, tree, p, name, k, j);
  }

  lemma LeafIsOrdinary(root: nat, per: nat, data: seq<seq<byte>>, tree: Tree, q: Path)
    requires DirsOk(root, per, data, tree) && q in tree && q != []
    ensures Ordinary(Leaf(q))
  {
    hide EntryIn, Describes, DirOk;
    assert Linked(per, data, tree, q);
  }

  /** The scan for a name has not gone past the slot of the child that carries it. */
  lemma NotPast(root: nat, per: nat, data: seq<seq<byte>>, tree: Tree, p: Path, name: Name, k: nat, stop: nat)
    requires DirsOk(root, per, data, tree) && p in tree && tree[p].isDir && Ordinary(name)
    requires NotNamed(per, data, tree[p].chain, name, k, stop) && k < |tree[p].chain| && stop <= per
    requires stop < per ==> Unused(EntryIn(data, tree[p].chain[k], stop))
    ensures NotNamed(per, data, tree[p].chain, name, k + 1, 0)
  {
    assert DirOk(per, data, tree, p);
    hide DirsOk, DirOk, EntryIn, MarksLongName;
    forall b | 0 <= b < per
      ensures EntryIn(data, tree[p].chain[k], b).name != name
    {
      if b >= stop {
        assert NotBefore(k, stop, k, b);
        assert Unused(EntryIn(data, tree[p].chain[k], b));
      }
    }
  }

  lemma NotNamedNone(per: nat, data: seq<seq<byte>>, chain: seq<nat>, name: Name)
    ensures NotNamed(per, data, chain, name, 0, 0)
  {
  }

  lemma NotNamedStep(per: nat, data: seq<seq<byte>>, chain: seq<nat>, name: Name, k: nat, j: nat)
    requires NotNamed(per, data, chain, name, k, j) && k < |chain| && EntryIn(data, chain[k], j).name != name
    ensures NotNamed(per, data, chain, name, k, j + 1)
  {
    hide EntryIn;
  }

  /** A child's slot is somewhere in its directory. */
  lemma StillAhead(root: nat, per: nat, data: seq<seq<byte>>, tree: Tree, p: Path, name: Name, k: nat)
    requires DirsOk(root, per, data, tree) && p + [name] in tree
    requires p in tree && NotNamed(per, data, tree[p].chain, name, k, 0)
    ensures k < |tree[p].chain|
  {
    var a := ChildSlot(root, per, data, tree, p, name);
    hide EntryIn, DirsOk;
  }

  // ---- is a directory empty ----

  /** No slot of the first `k` clusters names a child. */
  ghost predicate NoChild(per: nat, data: seq<seq<byte>>, chain: seq<nat>, k: nat) {
    forall a, b :: 0 <= a < |chain| && a < k && 0 <= b < per ==> !NamesChild(EntryIn(data, chain[a], b))
  }

  lemma NoChildNone(per: nat, data: seq<seq<byte>>, chain: seq<nat>)
    ensures NoChild(per, data, chain, 0)
  {
  }

  lemma SomeChild(root: nat, per: nat, data: seq<seq<byte>>, tree: Tree, q: Path, k: nat, j: nat)
    requires DirsOk(root, per, data, tree) && q in tree && tree[q].isDir
    requires k < |tree[q].chain| && j < per && NamesChild(EntryIn(data, tree[q].chain[k], j))
    ensures q + [EntryIn(data, tree[q].chain[k], j).name] in tree
  {
    hide EntryIn, NamesChild, Terminated;
    assert DirOk(per, data, tree, q);
    assert SlotKnown(data, tree, q, tree[q].chain[k], j);
  }

  lemma NoChildren(root: nat, per: nat, data: seq<seq<byte>>, tree: Tree, q: Path, k: nat)
    requires DirsOk(root, per, data, tree) && q in tree
    requires NoChild(per, data, tree[q].chain, k) && k >= |tree[q].chain|
    ensures forall n :: q + [n] !in tree
  {
    hide EntryIn, DirsOk, NamesChild;
    forall n | q + [n] in tree
      ensures false
    {
      var a := ChildSlot(root, per, data, tree, q, n);
    }
  }

  /** One cluster scanned up to its first unused slot, or to its end, without a child. */
  lemma NoChildCluster(root: nat, per: nat, data: seq<seq<byte>>, tree: Tree, q: Path, k: nat, stop: nat)
    requires DirsOk(root, per, data, tree) && q in tree && tree[q].isDir
    requires k < |tree[q].chain| && NoChild(per, data, tree[q].chain, k) && stop <= per
    requires forall b :: 0 <= b < stop ==> !NamesChild(EntryIn(data, tree[q].chain[k], b))
    requires stop < per ==> Unused(EntryIn(data, tree[q].chain[k], stop))
    ensures NoChild(per, data, tree[q].chain, k + 1)
  {
    assert DirOk(per, data, tree, q);
    hide EntryIn, DirsOk, DirOk, Deleted, IsDot;
    forall b | 0 <= b < per
      ensures !NamesChild(EntryIn(data, tree[q].chain[k], b))
    {
      if stop <= b {
        assert NotBefore(k, stop, k, b);
      }
    }
  }

  // ---- walking down ----

  /** Every directory passed on the way down `names` still has its chain. */
  ghost predicate Walkable(fat: seq<nat>, tree: Tree, names: Path) {
    forall k :: 0 <= k < |names| && names[..k] in tree && tree[names[..k]].isDir ==>
      ChainOk(fat, tree[names[..k]].chain)
  }

  /** Everything above a node is a directory of the tree. */
  lemma {:induction false} Ancestors(root: nat, per: nat, data: seq<seq<byte>>, tree: Tree, q: Path, k: nat)
    requires DirsOk(root, per, data, tree) && q in tree && k <= |q|
    ensures q[..k] in tree && (k < |q| ==> tree[q[..k]].isDir)
    decreases |q|
  {
    hide EntryIn, NamesChild, Describes, DirOk;
    if k == |q| {
      assert q[..k] == q;
    } else {
      assert Linked(per, data, tree, q);
      assert q[..k] == Parent(q)[..k];
      Ancestors(root, per, data, tree, Parent(q), k);
    }
  }

  lemma ChainNonEmpty(root: nat, per: nat, data: seq<seq<byte>>, t: Tree, p: Path)
    requires DirsOk(root, per, data, t) && p in t && t[p].isDir
    ensures t[p].chain != []
  {
    assert DirOk(per, data, t, p);
  }

  lemma PassedNone(per: nat, data: seq<seq<byte>>, chain: seq<nat>, name: Name)
    ensures Passed(per, data, chain, name, 0, 0)
  {
  }

  lemma {:induction false} Missing(root: nat, per: nat, data: seq<seq<byte>>, t: Tree, names: Path, k: nat)
    requires DirsOk(root, per, data, t) && 0 < k <= |names|
    requires names[..k] !in t || (k < |names| && !t[names[..k]].isDir)
    ensures names !in t
  {
    if names in t {
      Ancestors(root, per, data, t, names, k);
    }
  }

  lemma RootInTree(root: nat, per: nat, data: seq<seq<byte>>, t: Tree)
    requires DirsOk(root, per, data, t)
    ensures [] in t && t[[]].isDir && t[[]].Head() == root && t[[]].size == 0
  {
  }

  lemma DescribesDir(e: Entry, node: Node)
    requires Describes(e, node)
    ensures MarksDir(e) == node.isDir && e.first == node.Head()
  {
  }
}
