/** The file operations of the FAT32 driver over the volume and the tree it stores. */
module FatFileSystem {
  import opened Bytes
  import opened FatLayout
  import opened FatVolume
  import opened FatTree
  import opened FatTreeSteps
  import opened FatPath
  import opened FatChains
  import opened FatScan
  import opened FatOps
  import opened FatSlots
  import opened FatBreaks
  import opened FatGrowth

  class FileSystem {
    const vol: Volume
    ghost var tree: Tree
    /** Clusters that a failed allocation has left in use on no chain. */
    ghost var lost: set<nat>

    ghost function Root(): nat { vol.geo.rootCluster }

    /** Directory slots in a cluster. */
    function Per(): nat { vol.geo.BytesPerCluster() / SLOT }

    ghost predicate Dirs(t: Tree)
      reads vol
    {
      DirsOk(Root(), Per(), vol.data, t)
    }

    ghost predicate Valid()
      reads this, vol
    {
      && vol.Valid()
      && ChainsOk(vol.fat, tree, lost)
      && lost !! FreeSet(vol.fat)
      && Dirs(tree)
    }

    /** A mounted volume, with the tree that it stores. */
    constructor (vol: Volume, ghost tree: Tree, ghost lost: set<nat>)
      requires vol.Valid() && ChainsOk(vol.fat, tree, lost) && lost !! FreeSet(vol.fat)
      requires DirsOk(vol.geo.rootCluster, vol.geo.BytesPerCluster() / SLOT, vol.data, tree)
      ensures Valid() && this.vol == vol && this.tree == tree && this.lost == lost
    {
      hide DirsOk, ChainsOk, Volume.Valid, FreeSet;
      this.vol, this.tree, this.lost := vol, tree, lost;
    }

    /** The slots of one cluster of find_entry_in_cluster: stop at a hit or at a slot that begins with 0x00. */
    method ScanSlots(c: nat, buf: seq<byte>, name: Name, ghost chain: seq<nat>, ghost k: nat)
      returns (stop: bool, found: bool, j: nat)
      requires k < |chain| && chain[k] == c && c < |vol.data| && buf == vol.data[c] && |buf| == SLOT * Per()
      requires Passed(Per(), vol.data, chain, name, k, 0)
      ensures found ==> stop
      ensures stop ==> j < Per() && Passed(Per(), vol.data, chain, name, k, j)
      ensures stop ==> EntryAt(buf, j) == EntryIn(vol.data, c, j)
      ensures stop ==> if found then Hit(EntryIn(vol.data, c, j), name) else Unused(EntryIn(vol.data, c, j))
      ensures !stop ==> Passed(Per(), vol.data, chain, name, k + 1, 0)
    {
      hide Passed, EntryAt;
      j := 0;
      while j < Per()
        invariant 0 <= j <= Per() && Passed(Per(), vol.data, chain, name, k, j)
      {
        var e := EntryAt(buf, j);
        assert e == EntryIn(vol.data, c, j);
        if e.name[0] == 0 {
          return true, false, j;
        }
        if e.name[0] != 0xE5 && !MarksLongName(e) && name == e.name {
          return true, true, j;
        }
        PassSlot(Per(), vol.data, chain, name, k, j);
        j := j + 1;
      }
      PassCluster(Per(), vol.data, chain, name, k);
      stop, found := false, false;
    }

    /** find_entry_in_cluster: look a name up in the directory `p` whose chain starts at `cluster`. */
    method FindEntry(cluster: nat, name: Name, ghost t: Tree, ghost p: Path) returns (found: bool, e: Entry, at: nat)
      requires vol.Valid() && Dirs(t) && p in t && t[p].isDir && ChainOk(vol.fat, t[p].chain)
      requires cluster == t[p].Head() && name != DOT && name != DOTDOT
      ensures found <==> p + [name] in t
      ensures found ==> Describes(e, t[p + [name]]) && at == t[p + [name]].cl
    {
      hide Volume.Valid, DirsOk, vol.geo.Limit, Passed, Describes, EntryIn;
      vol.Facts();
      ghost var chain, k := t[p].chain, 0;
      ChainNonEmpty(Root(), Per(), vol.data, t, p);
      var current := cluster;
      PassedNone(Per(), vol.data, chain, name);
      while 2 <= current < EOC
        invariant 0 <= k <= |chain| && (if k < |chain| then current == chain[k] else current >= EOC)
        invariant Passed(Per(), vol.data, chain, name, k, 0)
        decreases |chain| - k
      {
        var buf := vol.ReadCluster(current);
        var stop, hit, j := ScanSlots(current, buf, name, chain, k);
        if stop {
          if hit {
            HitIsChild(Root(), Per(), vol.data, t, p, name, k, j);
            return true, EntryAt(buf, j), current;
          }
          AbsentAtUnused(Root(), Per(), vol.data, t, p, name, k, j);
          return false, NoEntry, 0;
        }
        current := vol.GetNext(current);
        k := k + 1;
      }
      AbsentAtEnd(Root(), Per(), vol.data, t, p, name, k);
      found, e, at := false, NoEntry, 0;
    }

    /** The copy of a path that find_file works on: no leading slash, no trailing slashes. */
    method TrimPath(path: seq<byte>) returns (copy: seq<byte>)
      ensures NamesOf(copy) == NamesOf(path)
      ensures copy != [] ==> copy[|copy| - 1] != SLASH
      ensures 0 !in path ==> 0 !in copy
    {
      hide NamesOf;
      copy := path;
      if |copy| > 0 && copy[0] == SLASH {
        LeadingSlash(copy[1..]);
        assert copy == [SLASH] + copy[1..];
        copy := copy[1..];
      }
      while |copy| > 0 && copy[|copy| - 1] == SLASH
        invariant NamesOf(copy) == NamesOf(path)
        invariant 0 !in path ==> 0 !in copy
      {
        TrailingSlash(copy[..|copy| - 1]);
        assert copy == copy[..|copy| - 1] + [SLASH];
        copy := copy[..|copy| - 1];
      }
    }

    /** The entry that find_file makes up for the root directory. */
    function RootEntry(): Entry { Entry(NoEntry.name, 0x10, vol.geo.rootCluster, 0) }

    /** One component of find_file's loop: `p` is where the walk stands, `rest` what is still ahead. */
    method FindComponent(current: nat, token: seq<byte>, ghost t: Tree, ghost p: Path, ghost names: Path)
      returns (found: bool, e: Entry)
      requires vol.Valid() && Dirs(t) && Walkable(vol.fat, t, names)
      requires token != [] && 0 !in token
      requires |p| < |names| && p == names[..|p|] && names[|p|] == ShortName(token)
      requires p in t && t[p].isDir && current == t[p].Head()
      ensures found <==> names[..|p| + 1] in t
      ensures found ==> Describes(e, t[names[..|p| + 1]])
    {
      hide Volume.Valid, DirsOk, Describes, ShortName;
      var name := FilenameToFat32(token);
      ShortNameIsOrdinary(token);
      assert names[..|p|] in t;
      assert names[..|p| + 1] == p + [name];
      var at;
      found, e, at := FindEntry(current, name, t, p);
    }

    /** find_file: the component loop agrees with the tree. */
    method FindFile(path: seq<byte>, ghost t: Tree) returns (found: bool, e: Entry, parentCluster: nat)
      requires vol.Valid() && Dirs(t) && Walkable(vol.fat, t, NamesOf(path)) && 0 !in path
      ensures found <==> NamesOf(path) in t
      ensures NamesOf(path) == [] ==> e == RootEntry() && parentCluster == Root() && e.attr == 0x10
      ensures found && NamesOf(path) != [] ==>
        && Describes(e, t[NamesOf(path)])
        && Parent(NamesOf(path)) in t && parentCluster == t[Parent(NamesOf(path))].Head()
    {
      parentCluster := vol.geo.rootCluster;
      var copy := TrimPath(path);
      ghost var names := NamesOf(path);
      hide Volume.Valid, DirsOk, Describes, NamesOf;
      RootInTree(Root(), Per(), vol.data, t);
      if |copy| == 0 {
        NamesOfEmpty();
        return true, RootEntry(), parentCluster;
      }
      NamesNonEmpty(copy);
      found, e, parentCluster := Walk(copy, t, names);
    }

    /** The component loop itself. */
    method Walk(copy: seq<byte>, ghost t: Tree, ghost names: Path) returns (found: bool, e: Entry, parentCluster: nat)
      requires vol.Valid() && Dirs(t) && Walkable(vol.fat, t, names) && 0 !in copy
      requires names == NamesOf(copy) && names != [] && copy != [] && copy[|copy| - 1] != SLASH
      ensures found <==> names in t
      ensures found ==>
        && Describes(e, t[names])
        && Parent(names) in t && parentCluster == t[Parent(names)].Head()
    {
      hide Volume.Valid, DirsOk, Describes, NamesOf, ShortName, Walkable;
      RootInTree(Root(), Per(), vol.data, t);
      parentCluster := vol.geo.rootCluster;
      ghost var p: Path := [];
      var current, start := vol.geo.rootCluster, 0;
      while start < |copy|
        invariant 0 <= start < |copy| && |p| <= |names| && p == names[..|p|]
        invariant NamesOf(copy[start..]) == names[|p|..]
        invariant p in t && t[p].isDir && current == t[p].Head()
      {
        var slash := StrChr(copy, SLASH, start);
        NextComponent(copy, start, slash);
        if slash > start {
          var token := copy[start..slash];
          assert names[|p|] == names[|p|..][0];
          found, e := FindComponent(current, token, t, p, names);
          ghost var q := names[..|p| + 1];
          if !found {
            Missing(Root(), Per(), vol.data, t, names, |q|);
            return;
          }
          if slash == |copy| || slash + 1 == |copy| {
            assert q == names && Parent(names) == p;
            parentCluster := current;
            return;
          }
          if !MarksDir(e) {
            DescribesDir(e, t[q]);
            NamesLeft(copy, slash + 1);
            Missing(Root(), Per(), vol.data, t, names, |q|);
            return false, e, parentCluster;
          }
          DescribesDir(e, t[q]);
          current := e.first;
          p := q;
        }
        if slash == |copy| {
          break;
        }
        start := slash + 1;
      }
      assert false;
      found, e := false, NoEntry;
    }

    /** resolve_parent_directory: the cluster of the directory before the last slash, 0 if there is none. */
    method ResolveParent(path: seq<byte>, ghost t: Tree) returns (cluster: nat, filename: seq<byte>)
      requires vol.Valid() && Dirs(t) && Walkable(vol.fat, t, NamesOf(DirOf(path))) && 0 !in path
      ensures filename == LeafOf(path)
      ensures var d := NamesOf(DirOf(path));
              cluster == if d in t && t[d].isDir then t[d].Head() else 0
    {
      hide Volume.Valid, DirsOk, Describes, NamesOf, ShortName, Walkable, Stripped, LastBefore, RootEntry;
      hide vol.geo.Limit, EntryAt, Dirs;
      RootDir(t);
      NamesOfEmpty();
      var copy := StripPath(path);
      var lastSlash := StrRChr(copy, SLASH);
      if lastSlash < 0 {
        return vol.geo.rootCluster, copy;
      }
      filename := copy[lastSlash + 1..];
      var found, e, _ := FindFile(copy[..lastSlash], t);
      if !found {
        return 0, filename;
      }
      EntryOf(e, t, NamesOf(DirOf(path)));
      if !MarksDir(e) {
        return 0, filename;
      }
      cluster := e.first;
    }

    method StripPath(path: seq<byte>) returns (copy: seq<byte>)
      ensures copy == Stripped(path)
      ensures 0 !in path ==> 0 !in copy
    {
      copy := path;
      if |copy| > 0 && copy[0] == SLASH {
        copy := copy[1..];
      }
      if |copy| > 0 && copy[|copy| - 1] == SLASH {
        copy := copy[..|copy| - 1];
      }
    }

    lemma RootDir(t: Tree)
      requires Dirs(t)
      ensures [] in t && t[[]].isDir && t[[]].Head() == Root()
    {
      hide DirsOk;
      RootInTree(Root(), Per(), vol.data, t);
    }

    /** What an entry returned by FindFile says about its node, the root included. */
    lemma EntryOf(e: Entry, t: Tree, names: Path)
      requires Dirs(t) && names in t
      requires if names == [] then e == RootEntry() else Describes(e, t[names])
      ensures MarksDir(e) == t[names].isDir && e.first == t[names].Head() && e.size == t[names].size
    {
      hide DirsOk;
      RootInTree(Root(), Per(), vol.data, t);
    }

    // ---- fat32_delete ----

    /** The slots of one cluster in the emptiness check: whether one of them names a child. */
    method ScanForChild(c: nat, buf: seq<byte>) returns (has: bool, stop: nat)
      requires c < |vol.data| && buf == vol.data[c] && |buf| == SLOT * Per()
      ensures stop <= Per()
      ensures has ==> stop < Per() && NamesChild(EntryIn(vol.data, c, stop))
      ensures !has ==> forall b :: 0 <= b < stop ==> !NamesChild(EntryIn(vol.data, c, b))
      ensures !has && stop < Per() ==> Unused(EntryIn(vol.data, c, stop))
    {
      hide EntryAt;
      has, stop := false, 0;
      while stop < Per()
        invariant 0 <= stop <= Per()
        invariant forall b :: 0 <= b < stop ==> !NamesChild(EntryIn(vol.data, c, b))
      {
        var e := EntryAt(buf, stop);
        assert e == EntryIn(vol.data, c, stop);
        if e.name[0] == 0 {
          break;
        }
        if e.name[0] != 0xE5 && e.name != DOT && e.name != DOTDOT {
          has := true;
          break;
        }
        stop := stop + 1;
      }
    }

    /** The emptiness check of fat32_delete. */
    method HasEntries(cluster: nat, ghost q: Path) returns (has: bool)
      requires Valid() && q in tree && tree[q].isDir && cluster == tree[q].Head()
      ensures has <==> exists n :: q + [n] in tree
    {
      hide Volume.Valid, DirsOk, vol.geo.Limit, EntryIn, NamesChild, Unused, NoShare, Accounted, NoChild;
      vol.Facts();
      ghost var chain, k := tree[q].chain, 0;
      ChainNonEmpty(Root(), Per(), vol.data, tree, q);
      has := false;
      var current := cluster;
      NoChildNone(Per(), vol.data, chain);
      while 2 <= current < EOC
        invariant 0 <= k <= |chain| && (if k < |chain| then current == chain[k] else current >= EOC)
        invariant NoChild(Per(), vol.data, chain, k) && !has
        decreases |chain| - k
      {
        var buf := vol.ReadCluster(current);
        var stop;
        has, stop := ScanForChild(current, buf);
        if has {
          SomeChild(Root(), Per(), vol.data, tree, q, k, stop);
          return;
        }
        NoChildCluster(Root(), Per(), vol.data, tree, q, k, stop);
        current := vol.GetNext(current);
        k := k + 1;
      }
      NoChildren(Root(), Per(), vol.data, tree, q, k);
    }

    /** The loop of fat32_delete that frees a chain; it ends because the remaining chain gets shorter. */
    method FreeChain(cluster: nat, ghost chain: seq<nat>)
      requires vol.Valid() && ChainOk(vol.fat, chain) && Distinct(chain)
      requires cluster == if chain == [] then 0 else chain[0]
      modifies vol`disk, vol`fat
      ensures vol.Valid() && Cleared(old(vol.fat), vol.fat, Cells(chain))
    {
      hide Volume.Valid, vol.geo.Limit, Cleared, Distinct, Cells;
      vol.Facts();
      ghost var k := 0;
      var current := cluster;
      assert chain[..0] == [];
      ClearedNone(vol.fat);
      while 2 <= current < EOC
        invariant vol.Valid() && 0 <= k <= |chain| && |vol.fat| == old(|vol.fat|)
        invariant if k < |chain| then current == chain[k] else current == 0 || current >= EOC
        invariant Cleared(old(vol.fat), vol.fat, Cells(chain[..k]))
        decreases |chain| - k
      {
        ClearedStep(old(vol.fat), vol.fat, chain, k);
        var next := vol.GetNext(current);
        vol.SetNext(current, 0);
        current := next;
        k := k + 1;
      }
      assert chain[..k] == chain;
    }

    /** The slots of one cluster in the search by name. */
    method ScanByName(c: nat, buf: seq<byte>, name: Name, ghost chain: seq<nat>, ghost k: nat)
      returns (hit: bool, stop: nat)
      requires k < |chain| && chain[k] == c && c < |vol.data| && buf == vol.data[c] && |buf| == SLOT * Per()
      requires NotNamed(Per(), vol.data, chain, name, k, 0)
      ensures stop <= Per() && NotNamed(Per(), vol.data, chain, name, k, stop)
      ensures hit ==> stop < Per() && EntryIn(vol.data, c, stop).name == name
      ensures !hit && stop < Per() ==> Unused(EntryIn(vol.data, c, stop))
    {
      hide NotNamed, EntryAt;
      hit, stop := false, 0;
      while stop < Per()
        invariant 0 <= stop <= Per() && NotNamed(Per(), vol.data, chain, name, k, stop)
      {
        var e := EntryAt(buf, stop);
        assert e == EntryIn(vol.data, c, stop);
        if e.name[0] == 0 {
          break;
        }
        if name == e.name {
          hit := true;
          break;
        }
        NotNamedStep(Per(), vol.data, chain, name, k, stop);
        stop := stop + 1;
      }
    }

    /** Of the cluster contents `data` one byte has changed: the first of slot `j` of cluster `c` is 0xE5. */
    ghost predicate OnlyMarked(data: seq<seq<byte>>, c: nat, j: nat)
      reads vol
    {
      c < |data| && 32 * j < |data[c]| && vol.data == data[c := data[c][32 * j := 0xE5]]
    }

    /** The loop of fat32_delete that marks the slot of a child deleted, if there is one of that name. */
    method MarkDeleted(cluster: nat, name: Name, ghost p: Path) returns (ghost buf': seq<byte>)
      requires vol.Valid() && Dirs(tree) && p in tree && tree[p].isDir && ChainOk(vol.fat, tree[p].chain)
      requires cluster == tree[p].Head() && Ordinary(name)
      modifies vol`disk, vol`data
      ensures vol.Valid()
      ensures p + [name] !in tree ==> vol.disk == old(vol.disk) && vol.data == old(vol.data)
      ensures p + [name] in tree ==>
                var c, j := tree[p + [name]].cl, tree[p + [name]].ix;
                && OnlyMarked(old(vol.data), c, j) && vol.data == old(vol.data)[c := buf']
                && OnlySlot(old(vol.data), vol.data, c, j) && Deleted(EntryIn(vol.data, c, j))
    {
      hide Volume.Valid, DirsOk, vol.geo.Limit, NotNamed, EntryIn, EntryAt, Unused, OnlySlot, SameSlot, Deleted;
      hide Ordinary;
      vol.Facts();
      ghost var chain, k := tree[p].chain, 0;
      ChainNonEmpty(Root(), Per(), vol.data, tree, p);
      NotNamedNone(Per(), vol.data, chain, name);
      var current := cluster;
      while 2 <= current < EOC
        invariant 0 <= k <= |chain| && (if k < |chain| then current == chain[k] else current >= EOC)
        invariant NotNamed(Per(), vol.data, chain, name, k, 0)
        invariant vol.Valid() && vol.data == old(vol.data) && vol.disk == old(vol.disk)
        decreases |chain| - k
      {
        var buf := vol.ReadCluster(current);
        var hit, stop := ScanByName(current, buf, name, chain, k);
        if hit {
          NamedExists(Root(), Per(), vol.data, tree, p, name, k, stop);
          NamedIsChild(Root(), Per(), vol.data, tree, p, name, k, stop);
          var marked := MarkSlot(buf, stop);
          EditedCluster(vol.data, current, marked, stop);
          vol.WriteCluster(current, marked);
          EntryInIs(vol.data, current, stop);
          return marked;
        }
        NotPast(Root(), Per(), vol.data, tree, p, name, k, stop);
        current := vol.GetNext(current);
        k := k + 1;
      }
      buf' := [];
      if p + [name] in tree {
        StillAhead(Root(), Per(), vol.data, tree, p, name, k);
        assert false;
      }
    }

    /** A path the driver can act on: a C string that names something below the root, without a doubled slash at its
        end. */
    ghost predicate Usable(path: seq<byte>) {
      0 !in path && NamesOf(path) != [] && !EndsInTwoSlashes(path)
    }

    /** `q` is gone, and exactly its chain is free. */
    ghost predicate Gone(fat: seq<nat>, data: seq<seq<byte>>, t: Tree, q: Path)
      reads this, vol
    {
      && q in t && tree == t - {q} && q != []
      && View(vol.data, tree) == View(data, t) - {q}
      && FreeSet(vol.fat) == FreeSet(fat) + Cells(t[q].chain)
      && |FreeSet(vol.fat)| == |FreeSet(fat)| + |t[q].chain|
      && Parent(q) in tree && !DirFull(Per(), vol.data, tree[Parent(q)].chain)
    }

    /** The path names `q` for find_file, and its last component is the name of `q`. */
    ghost predicate Agrees(path: seq<byte>) {
      NamesOf(path) != [] && ShortName(LeafOf(path)) == Leaf(NamesOf(path))
    }

    lemma AgreesUnlessDoubled(path: seq<byte>)
      requires NamesOf(path) != []
      ensures !EndsInTwoSlashes(path) ==> Agrees(path)
      ensures EndsInTwoSlashes(path) ==> LeafOf(path) == []
      ensures |NamesOf(DirOf(path))| <= |NamesOf(path)|
    {
      hide ShortName, NamesOf, DirOf, LeafOf, EndsInTwoSlashes;
      PathAgreement(path);
      LeafIsEmpty(path);
      SplitNames(path);
    }

    /** The part of fat32_delete after the checks: free the chain, then find and mark the slot. */
    method Remove(path: seq<byte>, cluster: nat, parentCluster: nat)
      requires Valid() && 0 !in path && NamesOf(path) != [] && NamesOf(path) in tree && Childless(tree, NamesOf(path))
      requires cluster == tree[NamesOf(path)].Head()
      requires Parent(NamesOf(path)) in tree && parentCluster == tree[Parent(NamesOf(path))].Head()
      modifies this`tree, vol`disk, vol`fat, vol`data
      ensures if Agrees(path) then Valid() && Gone(old(vol.fat), old(vol.data), old(tree), NamesOf(path))
              else vol.Valid() && HalfDeletes(old(vol.fat), old(vol.data), tree, NamesOf(path), vol.fat, vol.data)
      ensures !Agrees(path) ==> tree == old(tree)
      ensures Agrees(path) ==>
                OnlyMarked(old(vol.data), old(tree)[NamesOf(path)].cl, old(tree)[NamesOf(path)].ix)
    {
      ghost var q := NamesOf(path);
      hide Volume.Valid, DirsOk, NamesOf, ShortName, DirOf, LeafOf, EndsInTwoSlashes, Cleared, ChainOk, NoShare;
      hide Accounted;
      hide View, FreeSet, Cells, OnlySlot, EntryIn, Deleted, Walkable, Childless, Distinct, Ordinary;
      AgreesUnlessDoubled(path);
      assert q == Parent(q) + [Leaf(q)];
      ghost var kid := tree[q];
      DistinctChain(tree, q);
      FreeChain(cluster, kid.chain);
      WalkableAfterFree(old(vol.fat), vol.fat, tree, lost, q, NamesOf(DirOf(path)));
      var _, filename := ResolveParent(path, tree);
      var name := FilenameToFat32(filename);
      ParentDir(Root(), Per(), vol.data, tree, q);
      hide DirFull;
      OtherChainKept(old(vol.fat), vol.fat, tree, q, Parent(q));
      LeafIsOrdinary(Root(), Per(), vol.data, tree, q);
      BlankIsOrdinary();
      ghost var buf' := MarkDeleted(parentCluster, name, Parent(q));
      if Agrees(path) {
        DeleteStep(Root(), Per(), old(vol.fat), old(vol.data), tree, lost, q, vol.fat, vol.data, buf');
        FreedCount(old(vol.fat), vol.fat, tree, lost, q);
        MarkedIsOpening(Per(), vol.data, tree[Parent(q)].chain, kid.cl, kid.ix);
        tree := tree - {q};
      }
    }

    lemma BlankIsOrdinary()
      ensures Ordinary(ShortName([]))
    {
      BlankName();
      hide ShortName;
      var name := ShortName([]);
      assert name[0] == 32 && DOT[0] == 46 && DOTDOT[0] == 46;
    }

    /**
     * fat32_delete: removes exactly the named node and frees exactly its chain; refuses a directory with entries, and a
     * name that is not there, without any change. Through a path that ends in two slashes the chain is freed, the entry
     * stays, and the entry of a child with a blank name, if the directory has one, is deleted in its place; a tree is
     * left only if there was no cluster to free.
     */
    method Delete(path: seq<byte>) returns (ok: bool)
      requires Valid() && 0 !in path && NamesOf(path) != []
      modifies this`tree, vol`disk, vol`fat, vol`data
      ensures ok <==> Removable(old(tree), NamesOf(path))
      ensures !ok ==> Valid() && Untouched(old(vol.disk), old(vol.fat), old(vol.data), old(tree))
      ensures ok && Agrees(path) ==> Valid() && Gone(old(vol.fat), old(vol.data), old(tree), NamesOf(path))
      ensures ok && Agrees(path) ==>
                OnlyMarked(old(vol.data), old(tree)[NamesOf(path)].cl, old(tree)[NamesOf(path)].ix)
      ensures ok && !Agrees(path) ==>
                && vol.Valid() && tree == old(tree)
                && HalfDeletes(old(vol.fat), old(vol.data), tree, NamesOf(path), vol.fat, vol.data)
                && (Broken() <==> tree[NamesOf(path)].chain != [])
      ensures !EndsInTwoSlashes(path) ==> Agrees(path)
    {
      ghost var q := NamesOf(path);
      hide Volume.Valid, DirsOk, NamesOf, ShortName, EndsInTwoSlashes, ChainOk, NoShare, Accounted;
      hide View, FreeSet, Cells, Walkable, Describes, DirFull, LeafOf, Agrees, Gone, HalfDeletes, NoTree;
      vol.Facts();
      assert |vol.fat| <= EOC;
      AgreesUnlessDoubled(path);
      WalkableAll(vol.fat, tree, lost, q);
      var found, entry, parentCluster := FindFile(path, tree);
      if !found {
        return false;
      }
      DescribesDir(entry, tree[q]);
      if MarksDir(entry) {
        var has := HasEntries(entry.first, q);
        if has {
          HasChild(tree, q);
          return false;
        }
        ChildlessByName(tree, q);
      } else {
        FileIsChildless(Root(), Per(), vol.data, tree, q);
      }
      Remove(path, entry.first, parentCluster);
      if !Agrees(path) {
        HalfDeleteIff(Root(), Per(), old(vol.fat), old(vol.data), tree, lost, q, vol.fat, vol.data);
      }
      ok := true;
    }

    // ---- fat32_write_file ----

    /** The allocation loop of fat32_write_file. With `n` clusters free it links `n` pairwise distinct ones, although
        each is still marked free while the next one is sought. With one too few it finds the newest twice and goes on
        with all there are; with fewer, or none, it gives up and leaves no cluster free. */
    method GatherClusters(n: nat) returns (first: nat, ghost chain: seq<nat>)
      requires vol.Valid() && n >= 1
      modifies vol`disk, vol`fat, vol`lastFree
      ensures vol.Valid() && |vol.fat| == old(|vol.fat|)
      ensures first == 0 <==> Taken(n, |FreeSet(old(vol.fat))|) == 0
      ensures first == 0 ==> Exhausted(old(vol.fat), vol.fat)
      ensures first != 0 ==>
                && Allocated(old(vol.fat), vol.fat, chain) && first == chain[0]
                && |chain| == Taken(n, |FreeSet(old(vol.fat))|)
                && chain[|chain| - 1] < |vol.fat| && vol.fat[chain[|chain| - 1]] == 0x0FFF_FFF8
    {
      hide Volume.Valid, vol.geo.Limit, FreeSet, FirstFree, Gathering, Allocated, Exhausted;
      vol.Facts();
      ghost var before := vol.fat;
      var prev, i := 0, 0;
      first, chain := 0, [];
      GatheringNone(vol.fat);
      while i < n
        invariant 0 <= i <= n && vol.Valid() && |vol.fat| == |before|
        invariant Gathering(before, vol.fat, chain, i)
        invariant if i == 0 then prev == 0 && chain == []
                  else chain != [] && prev == chain[|chain| - 1] && first == chain[0] && 2 <= prev < |vol.fat|
        invariant i > 0 ==> vol.lastFree == CyclicNext(prev, |vol.fat|) && first >= 2
      {
        ghost var cursor, fat := vol.lastFree, vol.fat;
        var cluster := vol.FindFree();
        if cluster == 0 {
          GatherFails(before, vol.fat, chain, i);
          first := 0;
          return;
        }
        FirstIsFree(vol.fat, cursor, cluster);
        if i == 0 {
          first := cluster;
        }
        if prev != 0 {
          vol.SetNext(prev, cluster);
        }
        chain := GatherGoes(before, fat, chain, i, cursor, cluster, vol.fat);
        prev := cluster;
        i := i + 1;
      }
      GatherDone(before, vol.fat, chain, n);
      if prev != 0 {
        vol.SetNext(prev, EOC);
      }
    }

    /** The loop of fat32_write_file that fills the chain. */
    method FillChain(first: nat, buf: seq<byte>, ghost chain: seq<nat>) returns (written: nat)
      requires vol.Valid() && ChainOk(vol.fat, chain) && Distinct(chain) && chain != [] && first == chain[0]
      modifies vol`disk, vol`data
      ensures vol.Valid() && |vol.data| == old(|vol.data|)
      ensures forall c :: 0 <= c < |vol.data| && c !in chain ==> vol.data[c] == old(vol.data)[c]
      ensures written == (var n := |Flatten(vol.data, chain)|; if n < |buf| then n else |buf|)
      ensures Prefix(Flatten(vol.data, chain), |buf|) == buf[..written]
    {
      hide Volume.Valid, vol.geo.Limit, Flatten, Prefix, Written, Distinct;
      vol.Facts();
      var bpc := vol.geo.BytesPerCluster();
      var cluster := first;
      ghost var k := 0;
      written := 0;
      WrittenNone(vol.data, chain, buf);
      while 2 <= cluster < EOC && written < |buf|
        invariant vol.Valid() && 0 <= k <= |chain| && |vol.data| == old(|vol.data|) && written <= |buf|
        invariant if k < |chain| then cluster == chain[k] else cluster >= EOC
        invariant Written(vol.data, chain, k, buf, written)
        invariant forall c :: 0 <= c < |vol.data| && c !in chain ==> vol.data[c] == old(vol.data)[c]
        decreases |chain| - k
      {
        var remaining := |buf| - written;
        var chunk := if remaining < bpc then remaining else bpc;
        var zeros := ZeroBytes(bpc);
        var clusterBuf := buf[written..written + chunk] + zeros[chunk..];
        WriteStep(vol.data, chain, k, buf, written, clusterBuf, chunk);
        vol.WriteCluster(cluster, clusterBuf);
        written := written + chunk;
        cluster := vol.GetNext(cluster);
        k := k + 1;
      }
      WriteEnd(vol.data, chain, k, buf, written);
    }

    // ---- create_dir_entry ----

    /** The slots of one cluster in the search for a place. */
    method ScanForOpening(c: nat, buf: seq<byte>, ghost chain: seq<nat>, ghost k: nat) returns (hit: bool, j: nat)
      requires k < |chain| && chain[k] == c && c < |vol.data| && buf == vol.data[c] && |buf| == SLOT * Per()
      requires NoOpening(Per(), vol.data, chain, k, 0)
      ensures if hit then j < Per() && FirstOpening(Per(), vol.data, chain, k, j) && !DirFull(Per(), vol.data, chain)
              else NoOpening(Per(), vol.data, chain, k + 1, 0)
    {
      hide NoOpening, FirstOpening, DirFull, EntryAt;
      j := 0;
      while j < Per()
        invariant 0 <= j <= Per() && NoOpening(Per(), vol.data, chain, k, j)
      {
        var e := EntryAt(buf, j);
        assert e == EntryIn(vol.data, c, j);
        if e.name[0] == 0 || e.name[0] == 0xE5 {
          OpeningIsFirst(Per(), vol.data, chain, k, j);
          return true, j;
        }
        NoOpeningStep(Per(), vol.data, chain, k, j);
        j := j + 1;
      }
      NoOpeningCluster(Per(), vol.data, chain, k);
      hit := false;
    }

    /** Disk, abstract volume and tree are as given. */
    ghost predicate Untouched(disk: seq<Sector>, fat: seq<nat>, data: seq<seq<byte>>, t: Tree)
      reads this, vol
    {
      vol.disk == disk && vol.fat == fat && vol.data == data && tree == t
    }

    ghost predicate Creating(q: Path, isDir: bool, chain: seq<nat>)
      reads this, vol
    {
      vol.Valid() && Ready(Root(), Per(), vol.fat, vol.data, tree, lost, q, isDir, chain)
    }

    /** The entry goes to slot `j` of cluster `c`. */
    method FillSlot(c: nat, buf: seq<byte>, j: nat, filename: seq<byte>, attrs: byte, first: u32, size: u32)
      returns (ghost edited: seq<byte>)
      requires vol.Valid() && 2 <= c < |vol.data| && buf == vol.data[c] && j < Per()
      modifies vol`disk, vol`data
      ensures vol.Valid() && vol.data == old(vol.data)[c := edited] && OnlySlot(old(vol.data), vol.data, c, j)
      ensures EntryIn(vol.data, c, j) == Entry(ShortName(filename), attrs, first, size)
      ensures FreshIn(vol.data, c, j, Entry(ShortName(filename), attrs, first, size))
    {
      hide Volume.Valid, vol.geo.Limit, EntryIn, EntryAt, OnlySlot, SameSlot, ShortName, Fresh, SameOutside;
      vol.Facts();
      var name := FilenameToFat32(filename);
      var r := PutEntry(buf, j, name, attrs, first, size);
      edited := r;
      EditedCluster(vol.data, c, r, j);
      vol.WriteCluster(c, r);
      EntryInIs(vol.data, c, j);
    }

    /** create_dir_entry when the directory is full: it grows by one cluster, if one is free. */
    method GrowDirectory(last: nat, filename: seq<byte>, attrs: byte, first: u32, size: u32, ghost dir: seq<nat>)
      returns (ok: bool, ghost at: Spot)
      requires vol.Valid() && dir != [] && last == dir[|dir| - 1] < |vol.fat| && Per() > 0
      modifies vol`disk, vol`fat, vol`data, vol`lastFree
      ensures vol.Valid()
      ensures ok <==> FreeSet(old(vol.fat)) != {}
      ensures !ok ==> Untouched(old(vol.disk), old(vol.fat), old(vol.data), tree) && vol.lastFree == old(vol.lastFree)
      ensures ok ==> at.c < |old(vol.data)|
      ensures ok ==> EnteredBehind(Per(), old(vol.fat), vol.fat, old(vol.data), vol.data, dir, at)
      ensures ok ==> EntryIn(vol.data, at.c, at.j) == Entry(ShortName(filename), attrs, first, size)
      ensures ok ==> FreshIn(vol.data, at.c, at.j, Entry(ShortName(filename), attrs, first, size))
    {
      hide Volume.Valid, vol.geo.Limit, EntryIn, EntryAt, OnlySlot, SameSlot, ShortName, FirstFree, FreeSet, Zeroed;
      hide LinkedBehind, Fresh, SameOutside;
      vol.Facts();
      at := Spot(0, 0, 0, [], []);
      var c := vol.FindFree();
      if c == 0 {
        return false, at;
      }
      FirstIsFree(vol.fat, old(vol.lastFree), c);
      vol.SetNext(last, c);
      vol.SetNext(c, EOC);
      LinksBehind(old(vol.fat), vol.fat, dir, c);
      var name := FilenameToFat32(filename);
      var zeros := ZeroBytes(vol.geo.BytesPerCluster());
      var edited := PutEntry(zeros, 0, name, attrs, first, size);
      vol.WriteCluster(c, edited);
      ghost var zeroed := old(vol.data)[c := zeros];
      ZeroedCluster(Per(), old(vol.data), c, zeros);
      EditedCluster(zeroed, c, edited, 0);
      EntryInIs(vol.data, c, 0);
      assert vol.data == zeroed[c := edited];
      at := Spot(0, c, 0, zeros, edited);
      ok := true;
    }

    /**
     * create_dir_entry: an entry in the first opening of the directory, or in a cluster by which it grows, or a report
     * that it is full and no cluster is free. It does not look whether the name is there already.
     */
    method EnterName(cluster: nat, filename: seq<byte>, attrs: byte, first: u32, size: u32, ghost dir: seq<nat>)
      returns (ok: bool, ghost at: Spot)
      requires vol.Valid() && ChainOk(vol.fat, dir) && dir != [] && cluster == dir[0]
      modifies vol`disk, vol`fat, vol`data, vol`lastFree
      ensures vol.Valid()
      ensures ok <==> !DirFull(Per(), old(vol.data), dir) || FreeSet(old(vol.fat)) != {}
      ensures !ok ==> Untouched(old(vol.disk), old(vol.fat), old(vol.data), tree) && vol.lastFree == old(vol.lastFree)
      ensures ok ==> Entered(Per(), old(vol.fat), vol.fat, old(vol.data), vol.data, dir,
                             Entry(ShortName(filename), attrs, first, size), at)
      ensures ok ==> FreshIn(vol.data, at.c, at.j, Entry(ShortName(filename), attrs, first, size))
    {
      hide Volume.Valid, vol.geo.Limit, EntryIn, EntryAt, Unused, Deleted, DirFull, ShortName, FreeSet, NoOpening;
      hide FirstOpening, OnlySlot, EnteredBehind, FreshIn;
      vol.Facts();
      ghost var k := 0;
      at := Spot(0, 0, 0, [], []);
      NoOpeningNone(Per(), vol.data, dir);
      var current, last := cluster, cluster;
      while 2 <= current < EOC
        invariant 0 <= k <= |dir| && (if k < |dir| then current == dir[k] else current >= EOC)
        invariant vol.Valid() && vol.lastFree == old(vol.lastFree)
        invariant Untouched(old(vol.disk), old(vol.fat), old(vol.data), tree)
        invariant NoOpening(Per(), vol.data, dir, k, 0)
        invariant last == if k == 0 then dir[0] else dir[k - 1]
        decreases |dir| - k
      {
        var buf := vol.ReadCluster(current);
        var hit, j := ScanForOpening(current, buf, dir, k);
        if hit {
          ghost var edited := FillSlot(current, buf, j, filename, attrs, first, size);
          at := Spot(k, current, j, [], edited);
          return true, at;
        }
        last := current;
        current := vol.GetNext(current);
        k := k + 1;
      }
      assert DirFull(Per(), vol.data, dir) by {
        IsDirFull(Per(), vol.data, dir);
      }
      ok, at := GrowDirectory(last, filename, attrs, first, size, dir);
    }

    /** The node `q` has its entry on the disk: its name, attributes, head and size, and zeros in the other fields. */
    ghost predicate EntryStands(q: Path, attrs: nat, size: nat)
      reads this, vol
    {
      && q != [] && q in tree
      && FreshIn(vol.data, tree[q].cl, tree[q].ix, Entry(Leaf(q), attrs, tree[q].Head(), size))
    }

    /** create_dir_entry for a path that is free: a finished chain becomes a node. */
    method CreateDirEntry(cluster: nat, filename: seq<byte>, attrs: byte, first: u32, size: u32,
                          ghost q: Path, ghost chain: seq<nat>) returns (ok: bool)
      requires attrs == 0x10 || attrs == 0x20
      requires Creating(q, attrs == 0x10, chain) && first == (if chain == [] then 0 else chain[0])
      requires Leaf(q) == ShortName(filename) && GoodName(Leaf(q))
      requires cluster == tree[Parent(q)].Head()
      modifies this`tree, vol`disk, vol`fat, vol`data, vol`lastFree
      ensures var full := DirFull(Per(), old(vol.data), old(tree)[Parent(q)].chain);
              && (ok <==> !full || FreeSet(old(vol.fat)) != {})
              && (ok ==> |FreeSet(vol.fat)| == |FreeSet(old(vol.fat))| - (if full then 1 else 0))
      ensures !ok ==> Untouched(old(vol.disk), old(vol.fat), old(vol.data), old(tree))
      ensures !ok ==> vol.lastFree == old(vol.lastFree)
      ensures ok ==> Valid() && tree.Keys == old(tree.Keys) + {q} && tree[q].chain == chain
      ensures ok ==> forall d :: d in chain && d < |vol.data| ==> vol.data[d] == old(vol.data)[d]
      ensures ok ==> View(vol.data, tree) ==
                     View(old(vol.data), old(tree))[q := ItemOf(old(vol.data), Loose(attrs == 0x10, chain, size))]
      ensures ok ==> EntryStands(q, attrs, size)
    {
      hide Volume.Valid, vol.geo.Limit, DirsOk, ChainsOk, EntryIn, View, ItemOf, DirFull, NewDir, ShortName, Distinct;
      hide Cells, FreeSet, GoodName, Ready, EnteredIn, EnteredBehind, HungIn, FreshIn;
      vol.Facts();
      ReadyDirectory(Root(), Per(), vol.fat, vol.data, tree, lost, q, attrs == 0x10, chain);
      ghost var dir := tree[Parent(q)].chain;
      ghost var at;
      ok, at := EnterName(cluster, filename, attrs, first, size, dir);
      if ok {
        EnteredHangs(Root(), Per(), old(vol.fat), old(vol.data), tree, lost, q, attrs == 0x10, chain, size, vol.fat,
                     vol.data, Entry(ShortName(filename), attrs, first, size), at);
        HungAt(tree, q, DirFull(Per(), old(vol.data), dir), NodeAt(attrs == 0x10, chain, size, at));
        EnteredElsewhere(Per(), old(vol.fat), vol.fat, old(vol.data), vol.data, dir,
                         Entry(ShortName(filename), attrs, first, size), at);
        tree := HungIn(tree, q, DirFull(Per(), old(vol.data), dir), NodeAt(attrs == 0x10, chain, size, at));
      }
    }

    // ---- the file operations ----

    /** fat32_read_file: the bytes of the named file; nothing if there is none. */
    method ReadFile(path: seq<byte>) returns (bytes: seq<byte>)
      requires Valid() && 0 !in path
      ensures bytes == if NamesOf(path) in tree then Contents(vol.data, tree[NamesOf(path)]) else []
    {
      ghost var q := NamesOf(path);
      hide Volume.Valid, DirsOk, NamesOf, EndsInTwoSlashes, NoShare, Accounted, Walkable, Flatten, Prefix, MarksDir;
      hide vol.geo.Limit;
      vol.Facts();
      WalkableAll(vol.fat, tree, lost, q);
      var found, entry, _ := FindFile(path, tree);
      if !found {
        return [];
      }
      EntryOf(entry, tree, q);
      ghost var chain, k := tree[q].chain, 0;
      assert ChainOk(vol.fat, chain);
      var cluster, size := entry.first, entry.size;
      bytes := [];
      ReadNone(vol.data, chain, size);
      while 2 <= cluster < EOC && |bytes| < size
        invariant 0 <= k <= |chain|
        invariant if k < |chain| then cluster == chain[k] else cluster == 0 || cluster >= EOC
        invariant bytes == Prefix(Flatten(vol.data, chain[..k]), size)
        decreases |chain| - k
      {
        var clusterBuf := vol.ReadCluster(cluster);
        var remaining := size - |bytes|;
        var chunk := if remaining < |clusterBuf| then remaining else |clusterBuf|;
        ReadStep(vol.data, chain, k, size, bytes, chunk);
        bytes := bytes + clusterBuf[..chunk];
        cluster := vol.GetNext(cluster);
        k := k + 1;
      }
      ReadEnd(vol.data, chain, k, size, bytes);
    }

    /** The directory of `q` has no place for a new entry. */
    ghost predicate MustGrow(q: Path)
      reads this, vol
      requires q != []
    {
      Parent(q) in tree && DirFull(Per(), vol.data, tree[Parent(q)].chain)
    }

    /** Nothing of `q` was stored, and no cluster is left: those that were free are lost. */
    ghost predicate RanOut(data: seq<seq<byte>>, t: Tree, gone: set<nat>, free: set<nat>)
      reads this, vol
    {
      && View(vol.data, tree) == View(data, t) && tree == t
      && FreeSet(vol.fat) == {} && lost == gone + free
    }

    ghost function Front(buf: seq<byte>, k: nat): seq<byte> {
      Fitting(buf, k, vol.geo.BytesPerCluster())
    }

    /** The number of clusters fat32_write_file asks for. */
    ghost function Needed(buf: seq<byte>): nat {
      if vol.geo.BytesPerCluster() == 0 then 0 else ClustersNeeded(|buf|, vol.geo.BytesPerCluster())
    }

    ghost predicate Holding(chain: seq<nat>)
      reads this, vol
    {
      vol.Valid() && Held(Root(), Per(), vol.fat, vol.data, tree, lost, chain)
    }

    /** The name `q` can be entered: its parent is the directory at `parentCluster`. */
    ghost predicate CanEnter(q: Path, parentCluster: nat, filename: seq<byte>)
      reads this, vol
    {
      && q != [] && Parent(q) in tree && tree[Parent(q)].isDir
      && parentCluster == tree[Parent(q)].Head()
      && Leaf(q) == ShortName(filename) && GoodName(Leaf(q))
    }

    /** The path `q` can be created: its name can be entered, and it is free. */
    ghost predicate CanCreate(q: Path, parentCluster: nat, filename: seq<byte>)
      reads this, vol
    {
      CanEnter(q, parentCluster, filename) && q !in tree
    }

    /** The filling loop, which disturbs nothing: the chain is on no node. */
    method FillHeld(first: nat, buf: seq<byte>, ghost q: Path, ghost chain: seq<nat>) returns (written: nat)
      requires Holding(chain) && chain != [] && first == chain[0] && q != []
      modifies vol`disk, vol`data
      ensures Holding(chain) && View(vol.data, tree) == View(old(vol.data), tree) && MustGrow(q) == old(MustGrow(q))
      ensures written == |Front(buf, |chain|)|
      ensures ItemOf(vol.data, Loose(false, chain, |buf|)) == File(Front(buf, |chain|))
    {
      hide Volume.Valid, vol.geo.Limit, View, ItemOf, Flatten, Prefix, Fitting, Distinct, Held, DirFull, ChainsOk;
      hide DirsOk;
      HeldFacts(Root(), Per(), vol.fat, vol.data, tree, lost, chain);
      vol.Facts();
      written := FillChain(first, buf, chain);
      HeldWrite(Root(), Per(), vol.fat, old(vol.data), vol.data, tree, lost, chain);
      vol.Facts();
      KeptIs(vol.data, chain, buf, written, vol.geo.BytesPerCluster());
    }

    /** The volume stores no tree any more. */
    ghost predicate Broken()
      reads vol
    {
      vol.Valid() && NoTree(Root(), Per(), vol.fat, vol.data)
    }

    /** The end of fat32_write_file: fill the chain, then name it, though the name may be there already. */
    method FillAndName(parentCluster: nat, filename: seq<byte>, buf: seq<byte>, first: nat, ghost q: Path,
                       ghost chain: seq<nat>) returns (written: nat, ok: bool)
      requires Holding(chain) && chain != [] && first == chain[0]
      requires CanEnter(q, parentCluster, filename) && |buf| < U32
      modifies this`tree, vol`disk, vol`fat, vol`data, vol`lastFree
      ensures vol.Valid() && written == |Front(buf, |chain|)|
      ensures ok <==> !old(MustGrow(q)) || FreeSet(old(vol.fat)) != {}
      ensures !ok ==> Holding(chain) && tree == old(tree) && vol.fat == old(vol.fat)
      ensures !ok ==> View(vol.data, tree) == View(old(vol.data), old(tree))
      ensures ok && q in old(tree) ==> Broken()
      ensures ok && q !in old(tree) ==> Valid()
      ensures ok && q !in old(tree) ==>
                View(vol.data, tree) == View(old(vol.data), old(tree))[q := File(Front(buf, |chain|))]
      ensures ok && q !in old(tree) ==>
                |FreeSet(vol.fat)| == |FreeSet(old(vol.fat))| - (if old(MustGrow(q)) then 1 else 0)
      ensures ok && q !in old(tree) ==> EntryStands(q, 0x20, |buf|)
    {
      hide Volume.Valid, vol.geo.Limit, DirsOk, ChainsOk, ChainOk, ShortName, GoodName, View, ItemOf, Fitting, Distinct;
      hide FreeSet, Cells, DirFull, NewDir, Held, Ready, EnteredIn, EnteredBehind, HungIn, EntryIn, NoTree, FreshIn;
      vol.Facts();
      HeldFacts(Root(), Per(), vol.fat, vol.data, tree, lost, chain);
      written := FillHeld(first, buf, q, chain);
      HeldDirectory(Root(), Per(), vol.fat, vol.data, tree, lost, chain, Parent(q));
      ghost var dir, data, e := tree[Parent(q)].chain, vol.data, Entry(ShortName(filename), 0x20, first, |buf|);
      ghost var at;
      ok, at := EnterName(parentCluster, filename, 0x20, first, |buf|, dir);
      if ok {
        if q in tree {
          HeldNamesake(Root(), Per(), old(vol.fat), data, tree, lost, chain, q, vol.fat, vol.data, e, at);
        } else {
          HeldReady(Root(), Per(), old(vol.fat), data, tree, lost, chain, q);
          EnteredHangs(Root(), Per(), old(vol.fat), data, tree, lost, q, false, chain, |buf|, vol.fat, vol.data, e, at);
          HungAt(tree, q, DirFull(Per(), data, dir), NodeAt(false, chain, |buf|, at));
          tree := HungIn(tree, q, DirFull(Per(), data, dir), NodeAt(false, chain, |buf|, at));
        }
      }
    }

    /** The part of fat32_write_file after the deletion, whatever that did. */
    method StoreFile(parentCluster: nat, filename: seq<byte>, buf: seq<byte>, ghost q: Path)
      returns (written: nat, entered: bool)
      requires Valid() && |buf| < U32 && CanEnter(q, parentCluster, filename)
      modifies this`tree, this`lost, vol`disk, vol`fat, vol`data, vol`lastFree
      ensures entered <==> Enters(buf, FreeSet(old(vol.fat)), old(MustGrow(q)))
      ensures entered && q in old(tree) ==> Broken()
      ensures !(entered && q in old(tree)) ==> Valid()
      ensures !(entered && q in old(tree)) ==>
                FileStored(old(vol.data), old(tree), old(lost), FreeSet(old(vol.fat)), old(MustGrow(q)), q, buf)
      ensures entered && q !in old(tree) ==> EntryStands(q, 0x20, |buf|)
      ensures written == |Front(buf, Taken(Needed(buf), |FreeSet(old(vol.fat))|))|
    {
      hide Volume.Valid, vol.geo.Limit, DirsOk, ChainsOk, ChainOk, ShortName, GoodName, View, Fitting, Distinct, Owned;
      hide FreeSet, Cells, DirFull, ClustersNeeded, Exhausted, Allocated, Parent, Held, Broken, EntryStands;
      vol.Facts();
      var bpc := vol.geo.BytesPerCluster();
      var needed := ClustersNeeded(|buf|, bpc);
      ghost var before := vol.fat;
      SomeNeeded(|buf|, bpc);
      var first;
      ghost var chain;
      first, chain := GatherClusters(needed);
      if first == 0 {
        FailedAllocation(before, vol.fat, tree, lost);
        lost := lost + FreeSet(before);
        NothingKept(buf, bpc);
        return 0, false;
      }
      AllocatedHeld(Root(), Per(), before, vol.fat, vol.data, tree, lost, chain);
      LeftFree(before, vol.fat, chain);
      written, entered := FillAndName(parentCluster, filename, buf, first, q, chain);
      if !entered {
        HeldFacts(Root(), Per(), vol.fat, vol.data, tree, lost, chain);
        AllTaken(before, vol.fat, chain);
        lost := lost + FreeSet(before);
      }
    }

    /** An entry will be made: the allocation does not give up, and a full directory still finds a cluster. */
    ghost predicate Enters(buf: seq<byte>, free: set<nat>, grow: bool) {
      var k := Taken(Needed(buf), |free|);
      k > 0 && (grow ==> k < |free|)
    }

    /** What became of a file stored at `q` with the clusters of `free` at hand. */
    ghost predicate FileStored(data: seq<seq<byte>>, t: Tree, gone: set<nat>, free: set<nat>, grow: bool, q: Path,
                           buf: seq<byte>)
      reads this, vol
    {
      var k := Taken(Needed(buf), |free|);
      if Enters(buf, free, grow) then
        && View(vol.data, tree) == View(data, t)[q := File(Front(buf, k))]
        && lost == gone && |FreeSet(vol.fat)| == |free| - k - (if grow then 1 else 0)
      else
        RanOut(data, t, gone, free)
    }

    /** A path that the driver can create: it is usable, and its last name is not empty and does not look deleted. */
    ghost predicate Creatable(path: seq<byte>) {
      Usable(path) && LeafOf(path) != [] && LeafOf(path)[0] != 0xE5
    }

    /** The clusters that are free after fat32_delete has been tried on `q`. */
    ghost function Spare(q: Path): set<nat>
      reads this, vol
    {
      FreeSet(vol.fat) + if Removable(tree, q) then Cells(tree[q].chain) else {}
    }

    /** The tree after fat32_delete has been tried on `q`. */
    ghost function Rest(q: Path): Tree
      reads this
    {
      if Removable(tree, q) then tree - {q} else tree
    }

    /** A write to `q` finds the directory full: an old file that could be removed would have left an opening. */
    ghost predicate Grows(q: Path)
      reads this, vol
      requires q != []
    {
      !Removable(tree, q) && MustGrow(q)
    }

    /** A write that enters a name a second time: the target is a directory with entries, and the clusters are there. */
    ghost predicate Doubles(q: Path, buf: seq<byte>)
      reads this, vol
      requires q != []
    {
      q in tree && !Removable(tree, q) && Enters(buf, Spare(q), Grows(q))
    }

    /** A write that asks for `k` clusters makes an entry: a single missing one goes unnoticed, unless the directory has
        to grow as well. */
    ghost predicate Succeeds(k: int, free: nat, grow: bool) {
      if grow then k < free else 0 < free && k <= free + 1
    }

    /** What a write for which `k` clusters were asked and found has taken and left: exactly those, one more if the
        directory grew, and every byte unless the rounding wrapped. */
    ghost predicate TookExactly(k: int, listing: map<Path, Item>, free: set<nat>, grow: bool, q: Path, buf: seq<byte>,
                                written: nat)
      reads this, vol
    {
      && |FreeSet(vol.fat)| == |free| - k - (if grow then 1 else 0)
      && (|buf| + vol.geo.sectorsPerCluster * 512 <= 0x1_0000_0000 ==>
            written == |buf| && View(vol.data, tree) == listing[q := File(buf)])
    }

    lemma Took(k: int, data: seq<seq<byte>>, t: Tree, gone: set<nat>, free: set<nat>, grow: bool, q: Path,
               buf: seq<byte>, written: nat)
      requires 0 < vol.geo.BytesPerCluster() <= 0x1_0000 && |buf| < U32
      requires Asks(k, |buf|, vol.geo.sectorsPerCluster * 512)
      ensures Enters(buf, free, grow) <==> Succeeds(k, |free|, grow)
      ensures Enters(buf, free, grow) && k <= |free| && FileStored(data, t, gone, free, grow, q, buf)
              && written == |Front(buf, Taken(Needed(buf), |free|))| ==>
              TookExactly(k, View(data, t), free, grow, q, buf, written)
    {
      hide View, FreeSet, ClustersNeeded, Asks, Fitting;
      var bpc := vol.geo.BytesPerCluster();
      NeededLeast(|buf|, bpc, k);
      SomeNeeded(|buf|, bpc);
      KeptAll(buf, bpc);
    }

    /**
     * fat32_write_file. With enough clusters the file holds the bytes and all other paths show what they showed. With
     * one cluster too few the file is stored, cut short; with fewer, or when the directory cannot grow, the old file is
     * gone, nothing is stored, and every cluster that was free is lost. Over a directory with entries that is all there
     * is to fear when clusters run out: the directory stays; but when they do not, its name is entered a second time,
     * and no tree is left. Whether an entry was made is something the source drops.
     */
    method WriteFile(path: seq<byte>, buf: seq<byte>) returns (written: nat, entered: bool)
      requires Valid() && |buf| < U32 && Creatable(path)
      modifies this`tree, this`lost, vol`disk, vol`fat, vol`data, vol`lastFree
      ensures var q := NamesOf(path);
              var parent := Parent(q) in old(tree) && old(tree[Parent(q)].isDir);
              && (entered <==> parent && Enters(buf, old(Spare(q)), old(Grows(q))))
              && (if parent && old(Doubles(q, buf)) then Broken() else Valid())
              && (parent ==> written == |Front(buf, Taken(Needed(buf), |old(Spare(q))|))|)
              && (parent && !old(Doubles(q, buf)) ==>
                    FileStored(old(vol.data), old(Rest(q)), old(lost), old(Spare(q)), old(Grows(q)), q, buf))
              && (entered && !old(Doubles(q, buf)) ==> EntryStands(q, 0x20, |buf|))
              && (!parent ==>
                    && written == 0 && lost == old(lost)
                    && Untouched(old(vol.disk), old(vol.fat), old(vol.data), old(tree)))
      ensures var q := NamesOf(path);
              forall k: int :: Asks(k, |buf|, vol.geo.sectorsPerCluster * 512) ==>
                && (entered <==>
                      && Parent(q) in old(tree) && old(tree[Parent(q)].isDir)
                      && Succeeds(k, |old(Spare(q))|, old(Grows(q))))
                && (entered && !old(Doubles(q, buf)) && k <= |old(Spare(q))| ==>
                      TookExactly(k, View(old(vol.data), old(Rest(q))), old(Spare(q)), old(Grows(q)), q, buf, written))
    {
      ghost var q := NamesOf(path);
      hide Volume.Valid, vol.geo.Limit, DirsOk, NoShare, Accounted, ChainOk, ShortName, NamesOf, DirOf, LeafOf;
      hide GoodName;
      hide View, FreeSet, Cells, DirFull, ClustersNeeded, EndsInTwoSlashes, Walkable, Childless, FileStored, Front;
      hide Taken, TookExactly, Asks, Succeeds, Enters, Needed, EntryStands;
      hide Broken;
      vol.Facts();
      PathAgreement(path);
      WalkableAll(vol.fat, tree, lost, NamesOf(DirOf(path)));
      var parentCluster, filename := ResolveParent(path, tree);
      DirHasCluster(Root(), Per(), vol.fat, vol.data, tree, lost, Parent(q));
      LeafIsGood(path);
      if parentCluster == 0 {
        return 0, false;
      }
      var deleted := Delete(path);
      assert Parent(q) != q;
      ViewWithout(old(vol.data), old(tree), q);
      assert FreeSet(vol.fat) == old(Spare(q)) && tree == old(Rest(q));
      ghost var data := vol.data;
      written, entered := StoreFile(parentCluster, filename, buf, q);
      if !old(Doubles(q, buf)) {
        StoredSame(data, old(vol.data), old(Rest(q)), old(lost), old(Spare(q)), old(Grows(q)), q, buf);
      }
      forall k: int | Asks(k, |buf|, vol.geo.sectorsPerCluster * 512)
        ensures entered <==> Succeeds(k, |old(Spare(q))|, old(Grows(q)))
        ensures entered && !old(Doubles(q, buf)) && k <= |old(Spare(q))| ==>
                  TookExactly(k, View(old(vol.data), old(Rest(q))), old(Spare(q)), old(Grows(q)), q, buf, written)
      {
        Took(k, old(vol.data), old(Rest(q)), old(lost), old(Spare(q)), old(Grows(q)), q, buf, written);
      }
    }

    /** A volume that stores a tree is not broken. */
    lemma NotBoth()
      ensures !(Valid() && Broken())
    {
      hide ChainsOk, DirsOk, Volume.Valid;
    }

    lemma StoredSame(data: seq<seq<byte>>, data': seq<seq<byte>>, t: Tree, gone: set<nat>, free: set<nat>, grow: bool,
                     q: Path, buf: seq<byte>)
      requires FileStored(data, t, gone, free, grow, q, buf) && View(data', t) == View(data, t)
      ensures FileStored(data', t, gone, free, grow, q, buf)
    {
      hide View, Front;
    }

    /** Nothing was made, and the last free cluster is lost. */
    ghost predicate DirectoryMade(data: seq<seq<byte>>, t: Tree, gone: set<nat>, free: set<nat>, grow: bool, q: Path)
      reads this, vol
    {
      if grow ==> |free| > 1 then
        && View(vol.data, tree) == View(data, t)[q := Directory]
        && lost == gone && |FreeSet(vol.fat)| == |free| - (if grow then 2 else 1)
      else
        RanOut(data, t, gone, free)
    }

    /**
     * fat32_create_directory: a new empty directory, unless the path is the root or ends in two slashes, the name is
     * taken, the parent is no directory, or no cluster is free; then nothing changes. With a single free cluster and a
     * parent that has to grow it answers yes all the same: no directory is made, and the cluster is lost.
     */
    method CreateDirectory(path: seq<byte>) returns (ok: bool)
      requires Valid() && 0 !in path && (LeafOf(path) != [] ==> LeafOf(path)[0] != 0xE5)
      modifies this`tree, this`lost, vol`disk, vol`fat, vol`data, vol`lastFree
      ensures Valid()
      ensures ok <==>
                && NamesOf(path) != [] && !EndsInTwoSlashes(path)
                && NamesOf(path) !in old(tree) && Parent(NamesOf(path)) in old(tree)
                && old(tree[Parent(NamesOf(path))].isDir) && FreeSet(old(vol.fat)) != {}
      ensures !ok ==> lost == old(lost) && Untouched(old(vol.disk), old(vol.fat), old(vol.data), old(tree))
      ensures !ok ==> vol.lastFree == old(vol.lastFree)
      ensures ok ==> var q := NamesOf(path);
                     DirectoryMade(old(vol.data), old(tree), old(lost), FreeSet(old(vol.fat)), old(MustGrow(q)), q)
      ensures ok ==> var q := NamesOf(path);
                     (old(MustGrow(q)) ==> |FreeSet(old(vol.fat))| > 1) ==>
                       && EntryStands(q, 0x10, 0) && |tree[q].chain| == 1 && tree[q].Head() < |vol.data|
                       && DotEntries(vol.data[tree[q].Head()], tree[q].Head(), old(tree)[Parent(q)].Head())
    {
      ghost var q := NamesOf(path);
      hide Volume.Valid, vol.geo.Limit, DirsOk, NoShare, Accounted, ChainOk, ShortName, NamesOf, DirOf, LeafOf;
      hide GoodName, View, ItemOf, FreeSet, Cells, DirFull, EndsInTwoSlashes, Walkable, FirstFree, Describes, Distinct;
      hide NewDir, DotEntries, EntryIn, DirectoryMade, EntryStands;
      vol.Facts();
      WalkableAll(vol.fat, tree, lost, q);
      WalkableAll(vol.fat, tree, lost, NamesOf(DirOf(path)));
      RootDir(tree);
      var found, _, _ := FindFile(path, tree);
      if found {
        return false;
      }
      PathAgreement(path);
      LeafIsEmpty(path);
      SplitNames(path);
      assert LeafOf(path) == [] ==> NamesOf(DirOf(path)) == q;
      var parentCluster, dirname := ResolveParent(path, tree);
      if parentCluster == 0 {
        DirHasCluster(Root(), Per(), vol.fat, vol.data, tree, lost, NamesOf(DirOf(path)));
        return false;
      }
      LeafIsGood(path);
      var cluster := vol.FindFree();
      if cluster == 0 {
        return false;
      }
      FirstIsFree(vol.fat, old(vol.lastFree), cluster);
      MakeDirectory(cluster, parentCluster, dirname, q);
      ok := true;
    }

    /** The cluster of a new directory: end-marked, and filled with its dot entries. */
    method PrepareDirectory(cluster: nat, parentCluster: nat, ghost q: Path)
      requires Valid() && cluster in FreeSet(vol.fat)
      requires q != [] && q !in tree && Parent(q) in tree && tree[Parent(q)].isDir
      requires parentCluster == tree[Parent(q)].Head()
      modifies vol`disk, vol`fat, vol`data
      ensures Creating(q, true, [cluster]) && Holding([cluster]) && View(vol.data, tree) == View(old(vol.data), tree)
      ensures cluster < |vol.data| && DotEntries(vol.data[cluster], cluster, parentCluster)
      ensures MustGrow(q) == old(MustGrow(q)) && |FreeSet(vol.fat)| == |FreeSet(old(vol.fat))| - 1
      ensures FreeSet(old(vol.fat)) == FreeSet(vol.fat) + {cluster}
      ensures cluster < |vol.fat| && vol.fat == old(vol.fat)[cluster := 0x0FFF_FFF8]
    {
      hide Volume.Valid, vol.geo.Limit, DirsOk, ChainsOk, View, DotEntries, ChainOk, Held, ItemOf;
      hide Cells, Allocated, DirFull, EntryIn, NewDir, FreeSet, NamesChild, Terminated, Distinct;
      vol.Facts();
      ghost var before := vol.fat;
      HeadInRange(Root(), Per(), vol.fat, vol.data, tree, lost, Parent(q));
      OneAllocated(before, cluster);
      FreeInRange(before, cluster);
      vol.SetNext(cluster, EOC);
      AllocatedHeld(Root(), Per(), before, vol.fat, vol.data, tree, lost, [cluster]);
      var buf := MakeDotEntries(vol.geo.BytesPerCluster(), cluster, parentCluster);
      vol.WriteCluster(cluster, buf);
      HeldWrite(Root(), Per(), vol.fat, old(vol.data), vol.data, tree, lost, [cluster]);
      DotEntriesNameNone(Per(), vol.data, cluster, parentCluster);
      NewDirOfOne(Per(), vol.data, cluster);
      HeldReadyDir(Root(), Per(), vol.fat, vol.data, tree, lost, cluster, q);
      OneTaken(before, vol.fat, cluster);
    }

    /** The part of fat32_create_directory after its checks. */
    method MakeDirectory(cluster: nat, parentCluster: nat, dirname: seq<byte>, ghost q: Path)
      requires Valid() && cluster in FreeSet(vol.fat) && CanCreate(q, parentCluster, dirname)
      modifies this`tree, this`lost, vol`disk, vol`fat, vol`data, vol`lastFree
      ensures Valid()
      ensures DirectoryMade(old(vol.data), old(tree), old(lost), FreeSet(old(vol.fat)), old(MustGrow(q)), q)
      ensures cluster < |vol.data| && DotEntries(vol.data[cluster], cluster, parentCluster)
      ensures (old(MustGrow(q)) ==> |FreeSet(old(vol.fat))| > 1) ==>
                EntryStands(q, 0x10, 0) && tree[q].chain == [cluster]
    {
      hide Volume.Valid, vol.geo.Limit, DirsOk, ChainsOk, ShortName, GoodName, View, DotEntries, Held, Ready;
      hide Cells, DirFull, FreeSet, EntryStands;
      vol.Facts();
      ghost var before := vol.fat;
      FreeInRange(before, cluster);
      PrepareDirectory(cluster, parentCluster, q);
      vol.Facts();
      ghost var ready := vol.fat;
      var ok := CreateDirEntry(parentCluster, dirname, 0x10, cluster, 0, q, [cluster]);
      vol.Facts();
      assert cluster in [cluster];
      if !ok {
        HeldFacts(Root(), Per(), vol.fat, vol.data, tree, lost, [cluster]);
        OneCell(cluster);
        lost := lost + FreeSet(before);
      }
    }
  }
}
