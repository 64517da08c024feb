/** What a FAT32 volume means: cluster chains that never share a cluster, directories whose slots name exactly their
    children, and so a tree from paths to files and directories. */
module FatTree {
  import opened Bytes
  import opened FatLayout
  import opened FatVolume

  type Name = seq<byte>     // the eleven bytes of an 8.3 name
  type Path = seq<Name>

  const SLOT := 32
  const DOT: Name := [46, 32, 32, 32, 32, 32, 32, 32, 32, 32, 32]
  const DOTDOT: Name := [46, 46, 32, 32, 32, 32, 32, 32, 32, 32, 32]

  /** The fields of DIR_ENTRY_T that carry meaning. */
  datatype Entry = Entry(name: Name, attr: nat, first: nat, size: nat)

  const NoEntry := Entry([0, 0, 0, 0, 0, 0, 0, 0, 0, 0, 0], 0, 0, 0)

  function EntryAt(bytes: seq<byte>, j: nat): (e: Entry)
    requires SLOT * j + SLOT <= |bytes|
    ensures |e.name| == 11
  {
    var o := SLOT * j;
    Entry(bytes[o..o + 11], bytes[o + 11],
          Half(bytes, o + 26) + 0x1_0000 * Half(bytes, o + 20), Word(bytes, o + 28))
  }

  /** A directory entry in bytes: the name, the attributes, the first cluster in two halves, and the size. */
  ghost predicate Spells(bytes: seq<byte>, o: nat, e: Entry) {
    && o + 32 <= |bytes|
    && bytes[o..o + 11] == e.name && bytes[o + 11] == e.attr
    && e.first == bytes[o + 26] + bytes[o + 27] as int * 0x100 + bytes[o + 20] as int * 0x1_0000
                  + bytes[o + 21] as int * 0x100_0000
    && LittleEndian(bytes, o + 28, e.size)
  }

  /** What is read as an entry is exactly what the bytes spell. */
  lemma EntryAtSpells(bytes: seq<byte>, j: nat, e: Entry)
    requires 32 * j + 32 <= |bytes|
    ensures EntryAt(bytes, j) == e <==> Spells(bytes, 32 * j, e)
  {
    hide LittleEndian, Word;
    WordIs(bytes, 32 * j + 28);
  }

  /** Slot `j` of cluster `c`. */
  function EntryIn(data: seq<seq<byte>>, c: nat, j: nat): (e: Entry)
    ensures |e.name| == 11
  {
    if c < |data| && SLOT * j + SLOT <= |data[c]| then EntryAt(data[c], j) else NoEntry
  }

  predicate Unused(e: Entry) { |e.name| == 11 && e.name[0] == 0 }
  predicate Deleted(e: Entry) { |e.name| == 11 && e.name[0] == 0xE5 }

  predicate IsDot(e: Entry) { e.name == DOT || e.name == DOTDOT }

  /** A live slot that names a child, not the directory itself or its parent. */
  predicate NamesChild(e: Entry) { !Unused(e) && !Deleted(e) && !IsDot(e) }

  predicate MarksDir(e: Entry) { e.attr / 16 % 2 == 1 }      // attributes & 0x10
  predicate MarksLongName(e: Entry) { e.attr % 16 == 15 }    // (attributes & 0x0F) == 0x0F

  /** The attribute bits tested. */
  lemma MarksMean(e: Entry, b: bv8)
    requires e.attr == b as int
    ensures MarksDir(e) <==> b & 0x10 != 0
    ensures MarksLongName(e) <==> b & 0x0F == 0x0F
  {
  }

  /** A file or directory: its cluster chain, its size, and the slot (cluster, index) that names it. */
  datatype Node = Node(isDir: bool, chain: seq<nat>, size: nat, cl: nat, ix: nat) {
    function Head(): nat { if chain == [] then 0 else chain[0] }
  }

  type Tree = map<Path, Node>

  function Parent(p: Path): Path
    requires p != []
  {
    p[..|p| - 1]
  }

  function Leaf(p: Path): Name
    requires p != []
  {
    p[|p| - 1]
  }

  // ---- chains ----

  /** `chain` is what following the FAT from its head gives, up to an end mark. */
  ghost predicate ChainOk(fat: seq<nat>, chain: seq<nat>) {
    && (forall i :: 0 <= i < |chain| ==> 2 <= chain[i] < |fat|)
    && (forall i :: 0 <= i < |chain| - 1 ==> fat[chain[i]] == chain[i + 1])
    && (chain != [] ==> fat[chain[|chain| - 1]] >= 0x0FFF_FFF8)
  }

  ghost predicate Owns(tree: Tree, p: Path, c: nat) { p in tree && c in tree[p].chain }

  ghost predicate Owned(tree: Tree, c: nat) { exists p :: Owns(tree, p, c) }

  /** No cluster occurs twice: chains are acyclic and chains of distinct nodes are disjoint. */
  ghost predicate NoShare(tree: Tree) {
    forall p, q, i, j ::
      (p in tree && q in tree && 0 <= i < |tree[p].chain| && 0 <= j < |tree[q].chain|
       && tree[p].chain[i] == tree[q].chain[j]) ==> p == q && i == j
  }

  /** Every non-free cluster lies on a chain, or is one of the clusters an operation is still linking. */
  ghost predicate Accounted(fat: seq<nat>, tree: Tree, pending: set<nat>) {
    && (forall c :: 2 <= c < |fat| && fat[c] != 0 ==> c in pending || Owned(tree, c))
    && (forall c :: c in pending ==> !Owned(tree, c))
  }

  ghost predicate ChainsOk(fat: seq<nat>, tree: Tree, pending: set<nat>) {
    && (forall p :: p in tree ==> ChainOk(fat, tree[p].chain))
    && NoShare(tree)
    && Accounted(fat, tree, pending)
  }

  // ---- directories ----

  /** Slot (k, l) does not come before slot (i, j). */
  predicate NotBefore(i: nat, j: nat, k: nat, l: nat) { i < k || (i == k && j <= l) }

  /** No used slot follows a slot that begins with 0x00. */
  ghost predicate Terminated(per: nat, data: seq<seq<byte>>, chain: seq<nat>) {
    forall i, j, k, l ::
      (0 <= i < |chain| && 0 <= k < |chain| && 0 <= j < per && 0 <= l < per
       && NotBefore(i, j, k, l) && Unused(EntryIn(data, chain[i], j))) ==> Unused(EntryIn(data, chain[k], l))
  }

  /** Slot (c, j) of directory `p` names a node of the tree, and that node knows its slot. */
  ghost predicate SlotKnown(data: seq<seq<byte>>, tree: Tree, p: Path, c: nat, j: nat) {
    var e := EntryIn(data, c, j);
    NamesChild(e) ==>
      && !MarksLongName(e)
      && p + [e.name] in tree && tree[p + [e.name]].cl == c && tree[p + [e.name]].ix == j
  }

  ghost predicate DirOk(per: nat, data: seq<seq<byte>>, tree: Tree, p: Path)
    requires p in tree
  {
    && tree[p].chain != []
    && Terminated(per, data, tree[p].chain)
    && forall i, j :: 0 <= i < |tree[p].chain| && 0 <= j < per ==> SlotKnown(data, tree, p, tree[p].chain[i], j)
  }

  /** The entry describes the node. */
  ghost predicate Describes(e: Entry, node: Node) {
    && MarksDir(e) == node.isDir && e.size == node.size && e.first == node.Head()
  }

  /** Node `q` hangs in its parent directory, in the slot it says. */
  ghost predicate Linked(per: nat, data: seq<seq<byte>>, tree: Tree, q: Path)
    requires q in tree && q != []
  {
    && Parent(q) in tree && tree[Parent(q)].isDir
    && tree[q].cl in tree[Parent(q)].chain && tree[q].ix < per
    && NamesChild(EntryIn(data, tree[q].cl, tree[q].ix))
    && EntryIn(data, tree[q].cl, tree[q].ix).name == Leaf(q)
    && Describes(EntryIn(data, tree[q].cl, tree[q].ix), tree[q])
  }

  ghost predicate DirsOk(root: nat, per: nat, data: seq<seq<byte>>, tree: Tree) {
    && [] in tree && tree[[]].Head() == root && tree[[]] == Node(true, tree[[]].chain, 0, 0, 0)
    && (forall p :: p in tree && tree[p].isDir ==> DirOk(per, data, tree, p))
    && (forall q :: q in tree && q != [] ==> Linked(per, data, tree, q))
  }

  // ---- contents ----

  /** The bytes of a chain of clusters, in order. */
  ghost function Flatten(data: seq<seq<byte>>, chain: seq<nat>): seq<byte> {
    if chain == [] then []
    else Flatten(data, chain[..|chain| - 1]) + (if chain[|chain| - 1] < |data| then data[chain[|chain| - 1]] else [])
  }

  ghost function Prefix(s: seq<byte>, n: nat): seq<byte> { if n < |s| then s[..n] else s }

  ghost function Contents(data: seq<seq<byte>>, node: Node): seq<byte> {
    Prefix(Flatten(data, node.chain), node.size)
  }

  /** What a user of the volume sees. */
  datatype Item = Directory | File(bytes: seq<byte>)

  ghost function ItemOf(data: seq<seq<byte>>, node: Node): Item {
    if node.isDir then Directory else File(Contents(data, node))
  }

  ghost function View(data: seq<seq<byte>>, tree: Tree): map<Path, Item> {
    map p | p in tree :: ItemOf(data, tree[p])
  }
}
