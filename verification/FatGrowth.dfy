/** Linking free clusters into a chain, and filling a chain with bytes. */
module FatGrowth {
  import opened Bytes
  import opened FatLayout
  import opened FatVolume
  import opened FatTree
  import opened FatTreeSteps
  import opened FatChains

  // ---- gathering clusters ----

  /** In the middle of the allocation loop: all but the newest of the gathered clusters are linked to their successor,
      and the newest is still marked free. */
  ghost predicate Gathered(before: seq<nat>, fat: seq<nat>, chain: seq<nat>) {
    && |fat| == |before| && Distinct(chain)
    && (forall i :: 0 <= i < |chain| ==> 2 <= chain[i] < |before| && before[chain[i]] == 0)
    && (forall i :: 0 <= i < |chain| - 1 ==> fat[chain[i]] == chain[i + 1])
    && (forall c :: 0 <= c < |before| && (forall i :: 0 <= i < |chain| - 1 ==> c != chain[i]) ==> fat[c] == before[c])
  }

  lemma GatheredNone(fat: seq<nat>)
    ensures Gathered(fat, fat, [])
  {
  }

  lemma GatheredFree(before: seq<nat>, fat: seq<nat>, chain: seq<nat>)
    requires Gathered(before, fat, chain) && chain != []
    ensures FreeSet(fat) == FreeSet(before) - Cells(chain[..|chain| - 1])
  {
    var linked := chain[..|chain| - 1];
    forall c
      ensures c in FreeSet(fat) <==> c in FreeSet(before) && c !in linked
    {
      if 2 <= c < |before| {
        if c in linked {
          var i :| 0 <= i < |linked| && linked[i] == c;
          assert fat[chain[i]] == chain[i + 1];
        }
      }
    }
  }

  /** The cursor stands just past `x`, so `x` comes last in the search: another free cluster wins. */
  lemma NewestComesLast(fat: seq<nat>, x: nat, c: nat, d: nat)
    requires 2 <= x < |fat| && d in FreeSet(fat) && d != x
    requires FirstFree(fat, CyclicNext(x, |fat|), c)
    ensures c != x
  {
  }

  lemma SubsetSize(a: set<nat>, b: set<nat>)
    ensures a <= b ==> |a| <= |b|
  {
    if a <= b {
      assert b == a + (b - a);
    }
  }

  /** With more free clusters than gathered so far, one more than the newest is free. */
  lemma AnotherFree(before: seq<nat>, fat: seq<nat>, chain: seq<nat>) returns (d: nat)
    requires Gathered(before, fat, chain) && |chain| < |FreeSet(before)|
    ensures d in FreeSet(fat) && d !in chain
  {
    CellsSize(chain);
    assert Cells(chain) <= FreeSet(before);
    SubsetSize(FreeSet(before), Cells(chain));
    d :| d in FreeSet(before) && d !in Cells(chain);
    assert d !in chain;
    assert forall i :: 0 <= i < |chain| - 1 ==> d != chain[i];
  }

  /** A newly found free cluster is none of those gathered before. */
  lemma FoundIsNew(before: seq<nat>, fat: seq<nat>, chain: seq<nat>, cursor: nat, c: nat)
    requires Gathered(before, fat, chain) && |chain| < |FreeSet(before)|
    requires chain != [] ==> cursor == CyclicNext(chain[|chain| - 1], |fat|)
    requires FirstFree(fat, cursor, c)
    ensures c !in chain && 2 <= c < |before| && before[c] == 0
  {
    var d := AnotherFree(before, fat, chain);
    if chain != [] {
      NewestComesLast(fat, chain[|chain| - 1], c, d);
      GatheredFree(before, fat, chain);
      assert c !in chain[..|chain| - 1];
      assert chain == chain[..|chain| - 1] + [chain[|chain| - 1]];
    }
  }

  /** Linking the newest to the next one found. */
  lemma GatherStep(before: seq<nat>, fat: seq<nat>, chain: seq<nat>, c: nat, fat': seq<nat>)
    requires Gathered(before, fat, chain) && c !in chain && 2 <= c < |before| && before[c] == 0
    requires fat' == if chain == [] then fat else fat[chain[|chain| - 1] := c]
    ensures Gathered(before, fat', chain + [c])
  {
    var longer := chain + [c];
    assert forall i :: 0 <= i < |chain| ==> longer[i] == chain[i];
    if chain != [] {
      forall i | 0 <= i < |longer| - 1
        ensures fat'[longer[i]] == longer[i + 1]
      {
        if i < |chain| - 1 {
          assert fat[chain[i]] == chain[i + 1];
        }
      }
      forall d | 0 <= d < |before| && (forall i :: 0 <= i < |longer| - 1 ==> d != longer[i])
        ensures fat'[d] == before[d]
      {
        assert longer[|chain| - 1] != d;
        assert forall i :: 0 <= i < |chain| - 1 ==> d != longer[i];
      }
    }
  }

  /** The finished allocation. */
  ghost predicate Allocated(before: seq<nat>, fat: seq<nat>, chain: seq<nat>) {
    && |fat| == |before| && Distinct(chain) && chain != []
    && ChainOk(fat, chain)
    && Cells(chain) <= FreeSet(before)
    && FreeSet(fat) == FreeSet(before) - Cells(chain)
    && forall c :: 0 <= c < |before| && c !in chain ==> fat[c] == before[c]
  }

  lemma GatherEnd(before: seq<nat>, fat: seq<nat>, chain: seq<nat>)
    requires Gathered(before, fat, chain) && chain != [] && chain[|chain| - 1] < |fat|
    ensures Allocated(before, fat[chain[|chain| - 1] := EOC], chain)
  {
    var last := chain[|chain| - 1];
    var fat' := fat[last := EOC];
    GatheredFree(before, fat, chain);
    assert chain == chain[..|chain| - 1] + [last];
    assert Cells(chain) == Cells(chain[..|chain| - 1]) + {last};
    assert FreeSet(fat') == FreeSet(fat) - {last};
    hide FreeSet;
    forall i | 0 <= i < |chain| - 1
      ensures fat'[chain[i]] == chain[i + 1]
    {
      assert fat[chain[i]] == chain[i + 1];
    }
    assert Cells(chain) <= FreeSet(before) by {
      AllWereFree(before, fat, chain);
    }
  }

  lemma AllWereFree(before: seq<nat>, fat: seq<nat>, chain: seq<nat>)
    requires Gathered(before, fat, chain)
    ensures Cells(chain) <= FreeSet(before)
  {
  }

  // ---- running out of clusters ----

  /** The newest cluster was found once more and linked to itself: no free cluster is left, and with the newest marked
      as an end the chain would be a finished allocation of all there were. */
  ghost predicate Looped(before: seq<nat>, fat: seq<nat>, chain: seq<nat>) {
    && Exhausted(before, fat)
    && chain != [] && chain[|chain| - 1] < |fat|
    && Allocated(before, fat[chain[|chain| - 1] := EOC], chain)
  }

  /** The allocation loop after `i` rounds. */
  ghost predicate Gathering(before: seq<nat>, fat: seq<nat>, chain: seq<nat>, i: nat) {
    var all := |FreeSet(before)|;
    if i <= all then |chain| == i && Gathered(before, fat, chain)
    else i == all + 1 && |chain| == all && Looped(before, fat, chain)
  }

  lemma GatheringNone(fat: seq<nat>)
    ensures Gathering(fat, fat, [], 0)
  {
    GatheredNone(fat);
  }

  /** How many clusters the allocation loop ends up with: one missing cluster goes unnoticed, more do not. */
  function Taken(n: nat, free: nat): nat {
    if n <= free then n else if n == free + 1 then free else 0
  }

  lemma AllGathered(before: seq<nat>, fat: seq<nat>, chain: seq<nat>)
    requires Gathered(before, fat, chain) && |chain| == |FreeSet(before)|
    ensures Cells(chain) == FreeSet(before)
    ensures FreeSet(fat) == if chain == [] then {} else {chain[|chain| - 1]}
  {
    AllCells(before, fat, chain);
    if chain != [] {
      GatheredFree(before, fat, chain);
      assert chain == chain[..|chain| - 1] + [chain[|chain| - 1]];
      LastCell(chain);
      hide FreeSet, Gathered;
    }
  }

  lemma AllCells(before: seq<nat>, fat: seq<nat>, chain: seq<nat>)
    requires Gathered(before, fat, chain) && |chain| == |FreeSet(before)|
    ensures Cells(chain) == FreeSet(before)
  {
    AllWereFree(before, fat, chain);
    CellsSize(chain);
    hide FreeSet, Cells, Gathered;
    var rest := FreeSet(before) - Cells(chain);
    assert FreeSet(before) == Cells(chain) + rest;
  }

  lemma LastCell(chain: seq<nat>)
    requires Distinct(chain) && chain != []
    ensures Cells(chain) - Cells(chain[..|chain| - 1]) == {chain[|chain| - 1]}
  {
  }

  /** With every free cluster gathered, the search finds the newest again, which then follows itself. */
  lemma LoopsBack(before: seq<nat>, fat: seq<nat>, chain: seq<nat>)
    requires Gathered(before, fat, chain) && |chain| == |FreeSet(before)| && chain != []
    ensures var last := chain[|chain| - 1]; last < |fat| && Looped(before, fat[last := last], chain)
  {
    var last := chain[|chain| - 1];
    AllGathered(before, fat, chain);
    GatherEnd(before, fat, chain);
    var fat' := fat[last := last];
    assert fat'[last := EOC] == fat[last := EOC];
    assert Exhausted(before, fat') by {
      hide Allocated;
      forall c | c in FreeSet(before)
        ensures fat'[c] != 0
      {
        assert c in chain;
        if c != last {
          assert c !in FreeSet(fat);
        }
      }
      forall c | 0 <= c < |before| && c !in FreeSet(before)
        ensures fat'[c] == before[c]
      {
        assert c !in Cells(chain);
        assert forall i :: 0 <= i < |chain| ==> c != chain[i];
      }
    }
  }

  /** The search comes back empty only when no cluster was free at all, or after the newest was found again. */
  lemma GatherFails(before: seq<nat>, fat: seq<nat>, chain: seq<nat>, i: nat)
    requires Gathering(before, fat, chain, i) && FreeSet(fat) == {}
    ensures (|FreeSet(before)| == 0 || i == |FreeSet(before)| + 1) && Exhausted(before, fat)
  {
    var all := |FreeSet(before)|;
    if i < all {
      var d := AnotherFree(before, fat, chain);
    } else if i == all {
      AllGathered(before, fat, chain);
      hide Looped;
    }
  }

  /** One round of the loop in which the search finds `c`. */
  lemma GatherGoes(before: seq<nat>, fat: seq<nat>, chain: seq<nat>, i: nat, cursor: nat, c: nat, fat': seq<nat>)
    returns (longer: seq<nat>)
    requires Gathering(before, fat, chain, i) && FirstFree(fat, cursor, c)
    requires chain != [] ==> cursor == CyclicNext(chain[|chain| - 1], |fat|)
    requires fat' == if chain == [] then fat else fat[chain[|chain| - 1] := c]
    ensures i <= |FreeSet(before)| && longer != []
    ensures Gathering(before, fat', longer, i + 1)
    ensures longer[0] == (if chain == [] then c else chain[0]) && longer[|longer| - 1] == c
  {
    var all := |FreeSet(before)|;
    assert c in FreeSet(fat);
    if i < all {
      hide Looped, Gathered;
      FoundIsNew(before, fat, chain, cursor, c);
      GatherStep(before, fat, chain, c, fat');
      longer := chain + [c];
    } else if i == all {
      AllGathered(before, fat, chain);
      hide FreeSet, Looped, Gathered;
      LoopsBack(before, fat, chain);
      longer := chain;
    } else {
      assert false;
    }
  }

  /** The loop has run to its end: `n` clusters when that many were free, all of them when one was missing. */
  lemma GatherDone(before: seq<nat>, fat: seq<nat>, chain: seq<nat>, n: nat)
    requires Gathering(before, fat, chain, n) && n > 0
    ensures chain != [] && chain[|chain| - 1] < |fat| && Allocated(before, fat[chain[|chain| - 1] := EOC], chain)
    ensures |chain| == Taken(n, |FreeSet(before)|)
  {
    hide Allocated;
    if n <= |FreeSet(before)| {
      assert chain[|chain| - 1] < |fat|;
      GatherEnd(before, fat, chain);
    }
  }

  /** A single free cluster marked as an end is a finished allocation. */
  lemma OneAllocated(fat: seq<nat>, c: nat)
    requires c in FreeSet(fat)
    ensures c < |fat| && Allocated(fat, fat[c := EOC % ENTRY], [c])
  {
    assert Cells([c]) == {c};
  }

  // ---- filling a chain ----

  /** The first `k` clusters of the chain hold the first `written` bytes of `buf`. */
  ghost predicate Written(data: seq<seq<byte>>, chain: seq<nat>, k: nat, buf: seq<byte>, written: nat)
    requires k <= |chain|
  {
    && written <= |buf|
    && written == (var n := |Flatten(data, chain[..k])|; if n < |buf| then n else |buf|)
    && Prefix(Flatten(data, chain[..k]), |buf|) == buf[..written]
  }

  lemma WrittenNone(data: seq<seq<byte>>, chain: seq<nat>, buf: seq<byte>)
    ensures Written(data, chain, 0, buf, 0)
  {
  }

  lemma WriteStep(data: seq<seq<byte>>, chain: seq<nat>, k: nat, buf: seq<byte>, written: nat, cluster: seq<byte>,
                  chunk: nat)
    requires k < |chain| && Written(data, chain, k, buf, written) && written < |buf|
    requires Distinct(chain) && chain[k] < |data|
    requires chunk == if |buf| - written < |cluster| then |buf| - written else |cluster|
    requires cluster[..chunk] == buf[written..written + chunk]
    ensures Written(data[chain[k] := cluster], chain, k + 1, buf, written + chunk)
  {
    var data' := data[chain[k] := cluster];
    var front := chain[..k];
    assert chain[k] !in front;
    FlattenFrame(data, data', front);
    assert chain[..k + 1] == front + [chain[k]];
    FlattenSnoc(data', front, chain[k]);
    hide Flatten;
    var f := Flatten(data, front);
    assert f == buf[..written];
    assert Prefix(f + cluster, |buf|) == f + cluster[..chunk];
  }

  lemma {:induction false} FlattenPrefix(data: seq<seq<byte>>, chain: seq<nat>, k: nat)
    requires k <= |chain|
    ensures |Flatten(data, chain[..k])| <= |Flatten(data, chain)|
    ensures Flatten(data, chain)[..|Flatten(data, chain[..k])|] == Flatten(data, chain[..k])
    decreases |chain|
  {
    if k == |chain| {
      assert chain[..k] == chain;
    } else {
      var front := chain[..|chain| - 1];
      assert front[..k] == chain[..k];
      FlattenPrefix(data, front, k);
    }
  }

  /** After the loop: every byte is written, or the chain is full. */
  lemma WriteEnd(data: seq<seq<byte>>, chain: seq<nat>, k: nat, buf: seq<byte>, written: nat)
    requires k <= |chain| && Written(data, chain, k, buf, written)
    requires k == |chain| || written == |buf|
    ensures written == (var n := |Flatten(data, chain)|; if n < |buf| then n else |buf|)
    ensures Prefix(Flatten(data, chain), |buf|) == buf[..written]
  {
    if k == |chain| {
      assert chain[..k] == chain;
    } else {
      FlattenPrefix(data, chain, k);
      hide Flatten;
      var f, g := Flatten(data, chain), Flatten(data, chain[..k]);
      assert f[..|buf|] == f[..|g|][..|buf|];
    }
  }

  // ---- reading a chain ----

  lemma ReadNone(data: seq<seq<byte>>, chain: seq<nat>, size: nat)
    ensures Prefix(Flatten(data, chain[..0]), size) == []
  {
  }

  lemma ReadStep(data: seq<seq<byte>>, chain: seq<nat>, k: nat, size: nat, bytes: seq<byte>, chunk: nat)
    requires k < |chain| && chain[k] < |data| && bytes == Prefix(Flatten(data, chain[..k]), size) && |bytes| < size
    requires chunk == if size - |bytes| < |data[chain[k]]| then size - |bytes| else |data[chain[k]]|
    ensures bytes + data[chain[k]][..chunk] == Prefix(Flatten(data, chain[..k + 1]), size)
  {
    assert chain[..k + 1] == chain[..k] + [chain[k]];
    FlattenSnoc(data, chain[..k], chain[k]);
    hide Flatten;
  }

  lemma ReadEnd(data: seq<seq<byte>>, chain: seq<nat>, k: nat, size: nat, bytes: seq<byte>)
    requires k <= |chain| && bytes == Prefix(Flatten(data, chain[..k]), size)
    requires k == |chain| || |bytes| >= size
    ensures bytes == Prefix(Flatten(data, chain), size)
  {
    if k == |chain| {
      assert chain[..k] == chain;
    } else {
      FlattenPrefix(data, chain, k);
      hide Flatten;
      var f, g := Flatten(data, chain), Flatten(data, chain[..k]);
      assert |g| >= size;
      assert f[..size] == f[..|g|][..size];
    }
  }

  // ---- how many clusters ----

  /** `(size + bytes_per_cluster - 1) / bytes_per_cluster` in 32-bit arithmetic, at least 1. */
  function ClustersNeeded(size: nat, bpc: nat): nat
    requires bpc > 0
  {
    var n := (size + bpc - 1) % U32 / bpc;
    if n == 0 then 1 else n
  }

  lemma DivUp(size: nat, bpc: nat)
    requires bpc > 0
    ensures (size + bpc - 1) / bpc * bpc >= size
    ensures size == 0 ==> (size + bpc - 1) / bpc == 0
  {
    MulDiv(size + bpc - 1, bpc);
    Distribute((size + bpc - 1) / bpc, 1, bpc);
  }

  /** The computed number of clusters suffices if and only if the rounding does not wrap. */
  lemma NeededSuffices(size: nat, bpc: nat)
    requires 0 < bpc <= 0x1_0000 && size < U32
    ensures size <= ClustersNeeded(size, bpc) * bpc <==> size + bpc <= U32
  {
    if size + bpc <= U32 {
      assert (size + bpc - 1) % U32 == size + bpc - 1;
      DivUp(size, bpc);
    } else {
      var r := size + bpc - 1 - U32;
      assert (size + bpc - 1) % U32 == r;
      SmallQuotient(r, bpc);
    }
  }

  /** `k` is the number of clusters a write of `size` bytes asks for: the least that hold them, and one for none; but
      one as well when the rounding wraps. */
  ghost predicate Asks(k: int, size: nat, bpc: nat) {
    if size == 0 || size + bpc > 0x1_0000_0000 then k == 1 else (k - 1) * bpc < size <= k * bpc
  }

  /** The count is the one asked for, and no other is. */
  lemma NeededLeast(size: nat, bpc: nat, k: int)
    requires 0 < bpc <= 0x1_0000 && size < U32
    ensures Asks(k, size, bpc) <==> k == ClustersNeeded(size, bpc)
  {
    if size == 0 || size + bpc > U32 {
      OneNeeded(size, bpc);
    } else {
      LeastUp(size, bpc, k);
    }
  }

  lemma OneNeeded(size: nat, bpc: nat)
    requires 0 < bpc <= 0x1_0000 && size < U32 && (size == 0 || size + bpc > U32)
    ensures ClustersNeeded(size, bpc) == 1
  {
    SmallQuotient((size + bpc - 1) % U32, bpc);
  }

  /** Rounding up a quotient gives the least number that is large enough. */
  lemma LeastUp(size: nat, bpc: nat, k: int)
    requires 0 < bpc && 0 < size && size + bpc <= U32
    ensures (k - 1) * bpc < size <= k * bpc <==> k == ClustersNeeded(size, bpc)
  {
    var q := (size + bpc - 1) / bpc;
    MulDiv(size + bpc - 1, bpc);
    Distribute(q, 1, bpc);
    Distribute(q, -1, bpc);
    assert q > 0;
    assert q == ClustersNeeded(size, bpc);
    if k < q {
      MulLe(k, q - 1, bpc);
    } else if q < k {
      MulLe(q, k - 1, bpc);
    }
  }

  lemma SmallQuotient(r: nat, bpc: nat)
    requires r < bpc
    ensures r / bpc == 0
  {
  }

  lemma SomeNeeded(size: nat, bpc: nat)
    requires bpc > 0
    ensures ClustersNeeded(size, bpc) >= 1
  {
  }
}
