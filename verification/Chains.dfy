/**
 * The FAT as a set of cluster chains. A table is a sequence of entry values,
 * indexed by cluster number; clusters are numbered from 2. Entry 0 means free,
 * 2..|fat|-1 is a link and anything from |fat| on ends a chain.
 */
module Chains {

  predicate IsCluster(fat: seq<nat>, c: int)
  {
    2 <= c < |fat|
  }

  predicate Links(fat: seq<nat>, c: int)
  {
    IsCluster(fat, c) && IsCluster(fat, fat[c])
  }

  /**
   * No reserved value, no link to a free cluster, at most one predecessor for
   * each cluster; `rank` falls along every link, so there are no cycles.
   */
  predicate WellFormedBy(fat: seq<nat>, rank: seq<nat>)
  {
    && |rank| == |fat|
    && (forall c :: 2 <= c < |fat| ==> fat[c] != 1)
    && (forall c :: 2 <= c < |fat| && Links(fat, c) ==> fat[fat[c]] != 0 && rank[fat[c]] < rank[c])
    && (forall c, d :: 2 <= c < |fat| && 2 <= d < |fat| && c != d && Links(fat, c) ==> fat[c] != fat[d])
  }

  ghost predicate WellFormed(fat: seq<nat>)
  {
    exists rank :: WellFormedBy(fat, rank)
  }

  /** `chain` is the whole run of clusters from its first one to an end mark, each cluster once. */
  predicate IsChain(fat: seq<nat>, chain: seq<nat>)
  {
    && chain != []
    && (forall i :: 0 <= i < |chain| ==> IsCluster(fat, chain[i]))
    && (forall i :: 0 <= i < |chain| - 1 ==> fat[chain[i]] == chain[i + 1])
    && fat[chain[|chain| - 1]] >= |fat|
    && Distinct(chain)
  }

  predicate Distinct(chain: seq<nat>)
  {
    forall i, j :: 0 <= i < j < |chain| ==> chain[i] != chain[j]
  }

  predicate IsHead(fat: seq<nat>, h: nat)
  {
    IsCluster(fat, h) && fat[h] != 0 && forall c :: 2 <= c < |fat| ==> fat[c] != h
  }

  /** The number of free clusters: zero entries from 2 on */
  function CountFree(fat: seq<nat>): (n: nat)
    ensures n <= |fat|
    ensures |fat| >= 2 ==> n <= |fat| - 2
  {
    if |fat| <= 2 then 0
    else CountFree(fat[..|fat| - 1]) + if fat[|fat| - 1] == 0 then 1 else 0
  }

  lemma {:induction false} CountUpdate(fat: seq<nat>, c: nat, v: nat)
    requires IsCluster(fat, c)
    ensures CountFree(fat[c := v]) == CountFree(fat) - (if fat[c] == 0 then 1 else 0) + (if v == 0 then 1 else 0)
  {
    var last := |fat| - 1;
    if c == last {
      assert fat[c := v][..last] == fat[..last];
    } else {
      CountUpdate(fat[..last], c, v);
      assert fat[c := v][..last] == fat[..last][c := v];
    }
  }

  /** A free cluster is counted. */
  lemma CountPositive(fat: seq<nat>, c: nat)
    requires IsCluster(fat, c) && fat[c] == 0
    ensures CountFree(fat) > 0
  {
    CountUpdate(fat, c, 2);
  }

  /** No free cluster, none counted. */
  lemma {:induction false} CountZero(fat: seq<nat>)
    requires forall c :: IsCluster(fat, c) ==> fat[c] != 0
    ensures CountFree(fat) == 0
  {
    if |fat| > 2 {
      var less := fat[..|fat| - 1];
      assert forall c :: IsCluster(less, c) ==> IsCluster(fat, c) && less[c] == fat[c];
      CountZero(less);
    }
  }

  /* A well-formed table is a disjoint union of chains. */

  /** The chain that starts at an allocated cluster */
  function ChainFrom(fat: seq<nat>, rank: seq<nat>, c: nat): (chain: seq<nat>)
    requires WellFormedBy(fat, rank) && IsCluster(fat, c) && fat[c] != 0
    ensures chain != [] && chain[0] == c
    decreases rank[c]
  {
    if Links(fat, c) then [c] + ChainFrom(fat, rank, fat[c]) else [c]
  }

  lemma {:induction false} ChainFromRanks(fat: seq<nat>, rank: seq<nat>, c: nat)
    requires WellFormedBy(fat, rank) && IsCluster(fat, c) && fat[c] != 0
    ensures forall i :: 0 <= i < |ChainFrom(fat, rank, c)| ==>
              && IsCluster(fat, ChainFrom(fat, rank, c)[i])
              && (i > 0 ==> rank[ChainFrom(fat, rank, c)[i]] < rank[c])
    decreases rank[c]
  {
    if Links(fat, c) {
      ChainFromRanks(fat, rank, fat[c]);
      var rest := ChainFrom(fat, rank, fat[c]);
      assert forall i :: 0 <= i < |rest| ==> rank[rest[i]] < rank[c];
    }
  }

  /** Every allocated cluster starts a chain. */
  lemma {:induction false} ChainFromIsChain(fat: seq<nat>, rank: seq<nat>, c: nat)
    requires WellFormedBy(fat, rank) && IsCluster(fat, c) && fat[c] != 0
    ensures IsChain(fat, ChainFrom(fat, rank, c))
    decreases rank[c]
  {
    ChainFromRanks(fat, rank, c);
    if Links(fat, c) {
      ChainFromIsChain(fat, rank, fat[c]);
      var rest := ChainFrom(fat, rank, fat[c]);
      ChainFromRanks(fat, rank, fat[c]);
      assert forall i :: 0 <= i < |rest| ==> rest[i] != c;
      PrependIsChain(fat, c, rest);
    }
  }

  lemma PrependIsChain(fat: seq<nat>, c: nat, rest: seq<nat>)
    requires IsChain(fat, rest) && IsCluster(fat, c) && fat[c] == rest[0] && c !in rest
    ensures IsChain(fat, [c] + rest)
  {
    var chain := [c] + rest;
    assert forall i :: 1 <= i < |chain| ==> chain[i] == rest[i - 1];
    forall i | 0 <= i < |chain| - 1
      ensures fat[chain[i]] == chain[i + 1]
    {
      if i > 0 {
        assert fat[rest[i - 1]] == rest[i];
      }
    }
  }

  /** A chain is determined by its first cluster. */
  lemma {:induction false} ChainUnique(fat: seq<nat>, a: seq<nat>, b: seq<nat>, i: nat)
    requires IsChain(fat, a) && IsChain(fat, b) && a[0] == b[0] && i < |a|
    ensures i < |b| && a[i] == b[i]
  {
    if i > 0 {
      ChainUnique(fat, a, b, i - 1);
      assert fat[a[i - 1]] == a[i];
    }
  }

  /** Two chains that share a cluster and start at clusters without predecessors are the same chain. */
  lemma {:induction false} ChainsDisjoint(fat: seq<nat>, a: seq<nat>, b: seq<nat>, i: nat, j: nat)
    requires WellFormed(fat) && IsChain(fat, a) && IsChain(fat, b)
    requires IsHead(fat, a[0]) && IsHead(fat, b[0])
    requires i < |a| && j < |b| && a[i] == b[j]
    ensures a == b
    decreases i
  {
    var rank :| WellFormedBy(fat, rank);
    assert i > 0 ==> fat[a[i - 1]] == a[i];
    assert j > 0 ==> fat[b[j - 1]] == b[j];
    assert i == 0 <==> j == 0;
    if i > 0 {
      assert a[i - 1] == b[j - 1];
      ChainsDisjoint(fat, a, b, i - 1, j - 1);
    } else {
      ChainUnique(fat, a, b, |a| - 1);
      ChainUnique(fat, b, a, |b| - 1);
      forall k | 0 <= k < |a|
        ensures a[k] == b[k]
      {
        ChainUnique(fat, a, b, k);
      }
    }
  }

  function MaxRank(rank: seq<nat>): (m: nat)
    ensures forall c :: 0 <= c < |rank| ==> rank[c] <= m
  {
    if rank == [] then 0
    else
      var m := MaxRank(rank[..|rank| - 1]);
      if rank[|rank| - 1] > m then rank[|rank| - 1] else m
  }

  /** Every allocated cluster lies on a chain whose first cluster has no predecessor. */
  lemma {:induction false} OnSomeChain(fat: seq<nat>, rank: seq<nat>, c: nat) returns (chain: seq<nat>)
    requires WellFormedBy(fat, rank) && IsCluster(fat, c) && fat[c] != 0
    ensures IsChain(fat, chain) && IsHead(fat, chain[0]) && c in chain
    decreases MaxRank(rank) - rank[c]
  {
    if IsHead(fat, c) {
      ChainFromIsChain(fat, rank, c);
      chain := ChainFrom(fat, rank, c);
    } else {
      var p :| 2 <= p < |fat| && fat[p] == c;
      assert Links(fat, p);
      chain := OnSomeChain(fat, rank, p);
      var i :| 0 <= i < |chain| && chain[i] == p;
      assert i < |chain| - 1;
      assert chain[i + 1] == c;
    }
  }

  /* Allocation */

  /**
   * The place of cluster `c` in the scan of create_chain, which starts behind
   * `start` and wraps around once; `start` itself comes last.
   */
  function ScanIndex(n: nat, start: nat, c: int): (i: int)
  {
    if c > start then c - start else c - start + n - 2
  }

  /** `hole` is the first entry in scan order that is free or holds the reserved value. */
  predicate IsNextHole(fat: seq<nat>, start: nat, hole: int)
  {
    && IsCluster(fat, hole) && fat[hole] < 2
    && forall c :: 2 <= c < |fat| && ScanIndex(|fat|, start, c) < ScanIndex(|fat|, start, hole) ==> fat[c] >= 2
  }

  predicate NoHole(fat: seq<nat>)
  {
    forall c :: 2 <= c < |fat| ==> fat[c] >= 2
  }

  /** The scan meets every cluster, and no two at the same step. */
  lemma ScanOrder(n: nat, start: nat, c: int, d: int)
    requires 2 <= c < n && 2 <= d < n && 1 <= start < n
    ensures 1 <= ScanIndex(n, start, c) < n
    ensures ScanIndex(n, start, c) == ScanIndex(n, start, d) ==> c == d
  {
  }

  /** What create_chain does to the table: `ncl` ends a chain, and follows `clst` unless that is 0. */
  function Append(fat: seq<nat>, clst: nat, ncl: nat, eoc: nat): (r: seq<nat>)
    requires IsCluster(fat, ncl) && (clst == 0 || IsCluster(fat, clst))
    ensures |r| == |fat|
  {
    if clst == 0 then fat[ncl := eoc] else fat[ncl := eoc][clst := ncl]
  }

  /** `ncl` is free and `clst` is 0 or the last cluster of a chain. */
  predicate CanAppend(fat: seq<nat>, clst: nat, ncl: nat, eoc: nat)
  {
    && IsCluster(fat, ncl) && fat[ncl] == 0 && eoc >= |fat|
    && (clst == 0 || (IsCluster(fat, clst) && fat[clst] >= |fat|))
  }

  lemma AppendKeepsWellFormed(fat: seq<nat>, clst: nat, ncl: nat, eoc: nat)
    requires WellFormed(fat) && CanAppend(fat, clst, ncl, eoc)
    ensures WellFormed(Append(fat, clst, ncl, eoc))
  {
    var rank :| WellFormedBy(fat, rank);
    var up := seq(|rank|, i requires 0 <= i < |rank| => if i == ncl then 0 else rank[i] + 1);
    var fat' := Append(fat, clst, ncl, eoc);
    forall c | 2 <= c < |fat| && Links(fat', c)
      ensures fat'[fat'[c]] != 0 && up[fat'[c]] < up[c]
    {
      assert c == clst || Links(fat, c);
    }
    forall c, d | 2 <= c < |fat| && 2 <= d < |fat| && c != d && Links(fat', c)
      ensures fat'[c] != fat'[d]
    {
      assert c == clst || Links(fat, c);
      assert d == clst || d == ncl || fat'[d] == fat[d];
      if d == clst {
        assert Links(fat, c);
      } else if c == clst && d != ncl {
        assert Links(fat, d) ==> fat[fat[d]] != 0;
      }
    }
    assert WellFormedBy(fat', up);
  }

  /** The named chain grows by the new cluster. */
  lemma AppendExtends(fat: seq<nat>, chain: seq<nat>, ncl: nat, eoc: nat)
    requires IsChain(fat, chain) && CanAppend(fat, chain[|chain| - 1], ncl, eoc)
    ensures IsChain(Append(fat, chain[|chain| - 1], ncl, eoc), chain + [ncl])
  {
    var grown := chain + [ncl];
    var fat' := Append(fat, chain[|chain| - 1], ncl, eoc);
    AllocatedOnChain(fat, chain);
    assert forall i :: 0 <= i < |chain| ==> chain[i] != ncl;
    forall i | 0 <= i < |grown| - 1
      ensures fat'[grown[i]] == grown[i + 1]
    {
    }
    assert Distinct(grown);
  }

  lemma AllocatedOnChain(fat: seq<nat>, chain: seq<nat>)
    requires IsChain(fat, chain)
    ensures forall i :: 0 <= i < |chain| ==> fat[chain[i]] != 0
  {
    forall i | 0 <= i < |chain|
      ensures fat[chain[i]] != 0
    {
      if i < |chain| - 1 {
        assert fat[chain[i]] == chain[i + 1];
      }
    }
  }

  /** A chain whose clusters keep their entries is unchanged. */
  lemma Untouched(fat: seq<nat>, fat': seq<nat>, chain: seq<nat>)
    requires IsChain(fat, chain) && |fat'| == |fat|
    requires forall i :: 0 <= i < |chain| ==> fat'[chain[i]] == fat[chain[i]]
    ensures IsChain(fat', chain)
  {
  }

  /** Every other chain is unchanged, and none contained the new cluster. */
  lemma AppendLeavesOthers(fat: seq<nat>, clst: nat, ncl: nat, eoc: nat, other: seq<nat>)
    requires CanAppend(fat, clst, ncl, eoc) && IsChain(fat, other) && clst !in other
    ensures ncl !in other && IsChain(Append(fat, clst, ncl, eoc), other)
  {
    AllocatedOnChain(fat, other);
    Untouched(fat, Append(fat, clst, ncl, eoc), other);
  }

  lemma AppendCount(fat: seq<nat>, clst: nat, ncl: nat, eoc: nat)
    requires CanAppend(fat, clst, ncl, eoc)
    ensures CountFree(Append(fat, clst, ncl, eoc)) == CountFree(fat) - 1
  {
    CountUpdate(fat, ncl, eoc);
    if clst != 0 {
      CountUpdate(fat[ncl := eoc], clst, ncl);
    }
  }

  /* Release */

  /** The number of nonzero entries, which remove_chain uses up */
  function CountUsed(fat: seq<nat>): (n: nat)
  {
    if |fat| <= 2 then 0 else |fat| - 2 - CountFree(fat)
  }

  datatype Release = Release(fat: seq<nat>, freed: nat, ok: bool)

  /**
   * The loop of remove_chain on arbitrary table contents. A free cluster ends
   * it as an end mark does; the reserved value 1 is an error.
   */
  function Unlink(fat: seq<nat>, c: nat): (r: Release)
    requires IsCluster(fat, c)
    ensures |r.fat| == |fat| && CountFree(r.fat) == CountFree(fat) + r.freed
    ensures forall d :: 0 <= d < |fat| ==> r.fat[d] == fat[d] || (r.fat[d] == 0 && d >= 2)
    decreases CountUsed(fat)
  {
    if fat[c] == 0 then Release(fat, 0, true)
    else if fat[c] == 1 then Release(fat, 0, false)
    else
      CountUpdate(fat, c, 0);
      var next := fat[c := 0];
      assert CountFree(next) == CountFree(fat) + 1;
      if fat[c] < |fat| then
        var r := Unlink(next, fat[c]);
        Release(r.fat, r.freed + 1, r.ok)
      else
        Release(next, 1, true)
  }

  /** The whole release, once `k` clusters have been freed and `c` is next */
  function Resumed(fat: seq<nat>, c: nat, k: nat): (r: Release)
    requires IsCluster(fat, c)
  {
    var r := Unlink(fat, c);
    Release(r.fat, k + r.freed, r.ok)
  }

  /** One step of the release loop */
  lemma ReleaseStep(fat: seq<nat>, c: nat, k: nat)
    requires IsCluster(fat, c)
    ensures fat[c] == 0 ==> Resumed(fat, c, k) == Release(fat, k, true)
    ensures fat[c] == 1 ==> Resumed(fat, c, k) == Release(fat, k, false)
    ensures fat[c] >= 2 ==> CountUsed(fat[c := 0]) < CountUsed(fat)
    ensures fat[c] >= |fat| ==> Resumed(fat, c, k) == Release(fat[c := 0], k + 1, true)
    ensures 2 <= fat[c] < |fat| ==> Resumed(fat, c, k) == Resumed(fat[c := 0], fat[c], k + 1)
  {
    CountUpdate(fat, c, 0);
  }

  /** `fat` with all clusters of `cs` free */
  function Clear(fat: seq<nat>, cs: seq<nat>): (r: seq<nat>)
    requires forall i :: 0 <= i < |cs| ==> cs[i] < |fat|
    ensures |r| == |fat|
    ensures forall d :: 0 <= d < |fat| ==> r[d] == if d in cs then 0 else fat[d]
    decreases |cs|
  {
    if cs == [] then fat else Clear(fat[cs[0] := 0], cs[1..])
  }

  /** On a chain, Unlink frees exactly the clusters of the chain. */
  lemma {:induction false} UnlinkChain(fat: seq<nat>, chain: seq<nat>)
    requires IsChain(fat, chain)
    ensures Unlink(fat, chain[0]) == Release(Clear(fat, chain), |chain|, true)
    decreases |chain|
  {
    var c := chain[0];
    AllocatedOnChain(fat, chain);
    if |chain| == 1 {
      assert Clear(fat, chain) == Clear(fat[c := 0], chain[1..]) == fat[c := 0];
    } else {
      var rest := chain[1..];
      assert fat[c] == chain[1] == rest[0];
      SuffixIsChain(fat, chain, 1);
      assert forall i :: 0 <= i < |rest| ==> rest[i] != c;
      Untouched(fat, fat[c := 0], rest);
      UnlinkChain(fat[c := 0], rest);
    }
  }

  lemma SuffixIsChain(fat: seq<nat>, chain: seq<nat>, k: nat)
    requires IsChain(fat, chain) && k < |chain|
    ensures IsChain(fat, chain[k..])
  {
    forall i | 0 <= i < |chain[k..]| - 1
      ensures fat[chain[k..][i]] == chain[k..][i + 1]
    {
      assert chain[k..][i] == chain[k + i];
    }
  }

  /** Cutting a chain at `k`: the clusters before `k` stay a chain, the ones from `k` on become free. */
  function Cut(fat: seq<nat>, chain: seq<nat>, k: nat, eoc: nat): (r: seq<nat>)
    requires IsChain(fat, chain) && k < |chain|
    ensures |r| == |fat|
  {
    Clear(if k == 0 then fat else fat[chain[k - 1] := eoc], chain[k..])
  }

  lemma CutKeepsPrefix(fat: seq<nat>, chain: seq<nat>, k: nat, eoc: nat)
    requires IsChain(fat, chain) && 0 < k < |chain| && eoc >= |fat|
    ensures IsChain(Cut(fat, chain, k, eoc), chain[..k])
  {
    var fat' := Cut(fat, chain, k, eoc);
    var keep := chain[..k];
    forall i | 0 <= i < k
      ensures fat'[keep[i]] == if i == k - 1 then eoc else fat[keep[i]]
    {
      assert forall j :: 0 <= j < |chain[k..]| ==> chain[k..][j] == chain[k + j] != chain[i];
    }
    forall i | 0 <= i < |keep| - 1
      ensures fat'[keep[i]] == keep[i + 1]
    {
      assert fat[chain[i]] == chain[i + 1];
    }
  }

  lemma CutLeavesOthers(fat: seq<nat>, chain: seq<nat>, k: nat, eoc: nat, other: seq<nat>)
    requires IsChain(fat, chain) && k < |chain| && IsChain(fat, other)
    requires forall i :: 0 <= i < |chain| ==> chain[i] !in other
    ensures IsChain(Cut(fat, chain, k, eoc), other)
  {
    var fat' := Cut(fat, chain, k, eoc);
    forall i | 0 <= i < |other|
      ensures fat'[other[i]] == fat[other[i]]
    {
      assert other[i] in other;
      assert forall j :: 0 <= j < |chain[k..]| ==> chain[k..][j] == chain[k + j] != other[i];
    }
    Untouched(fat, fat', other);
  }

  /** A link that survives the cut does not lead into the part that was freed. */
  lemma LinkStaysOut(fat: seq<nat>, chain: seq<nat>, k: nat, eoc: nat, c: nat)
    requires WellFormed(fat) && IsChain(fat, chain) && k < |chain| && eoc >= |fat|
    requires k == 0 ==> IsHead(fat, chain[0])
    requires Links(Cut(fat, chain, k, eoc), c)
    ensures Cut(fat, chain, k, eoc)[c] == fat[c] && fat[c] !in chain[k..]
  {
    var fat' := Cut(fat, chain, k, eoc);
    assert fat'[c] == fat[c];
    forall m | k <= m < |chain|
      ensures chain[m] != fat[c]
    {
      if m > 0 {
        assert fat[chain[m - 1]] == chain[m];
        assert m > k ==> chain[k..][m - 1 - k] == chain[m - 1];
        assert fat'[chain[m - 1]] == 0 || fat'[chain[m - 1]] == eoc;
      }
    }
    assert forall j :: 0 <= j < |chain[k..]| ==> chain[k..][j] == chain[k + j];
  }

  /** Freeing a suffix leaves no link into it, provided its only predecessor is cut. */
  lemma CutKeepsWellFormed(fat: seq<nat>, chain: seq<nat>, k: nat, eoc: nat)
    requires WellFormed(fat) && IsChain(fat, chain) && k < |chain| && eoc >= |fat|
    requires k == 0 ==> IsHead(fat, chain[0])
    ensures WellFormed(Cut(fat, chain, k, eoc))
  {
    var rank :| WellFormedBy(fat, rank);
    var fat' := Cut(fat, chain, k, eoc);
    forall c | 2 <= c < |fat| && Links(fat', c)
      ensures fat'[c] == fat[c] && fat'[fat'[c]] != 0
    {
      LinkStaysOut(fat, chain, k, eoc, c);
    }
    assert forall c :: 2 <= c < |fat| && Links(fat', c) ==> Links(fat, c);
    assert WellFormedBy(fat', rank);
  }

  /** remove_chain on position `k` of a chain, with the cluster before it, cuts the chain there. */
  lemma UnlinkCut(fat: seq<nat>, chain: seq<nat>, k: nat, eoc: nat)
    requires IsChain(fat, chain) && k < |chain| && eoc >= |fat|
    ensures Unlink(if k == 0 then fat else fat[chain[k - 1] := eoc], chain[k])
         == Release(Cut(fat, chain, k, eoc), |chain| - k, true)
  {
    var cut := if k == 0 then fat else fat[chain[k - 1] := eoc];
    var tail := chain[k..];
    SuffixIsChain(fat, chain, k);
    assert forall i :: 0 <= i < |tail| ==> tail[i] == chain[k + i];
    Untouched(fat, cut, tail);
    UnlinkChain(cut, tail);
  }

  /** What is left of a chain after a cut, empty or not */
  lemma CutChainOf(fat: seq<nat>, sclust: nat, chain: seq<nat>, k: nat, eoc: nat)
    requires ChainOf(fat, sclust, chain) && k < |chain| && eoc >= |fat|
    ensures ChainOf(Cut(fat, chain, k, eoc), if k == 0 then 0 else sclust, chain[..k])
  {
    if k > 0 {
      CutKeepsPrefix(fat, chain, k, eoc);
    }
  }

  /* The chain of one file */

  /** `chain` is the chain that starts at `sclust`; a file without clusters has sclust 0. */
  predicate ChainOf(fat: seq<nat>, sclust: nat, chain: seq<nat>)
  {
    if sclust == 0 then chain == [] else IsChain(fat, chain) && chain[0] == sclust
  }

  /** From `fat` to `after` only free clusters were taken, all of them for the end of this one chain. */
  predicate Grows(fat: seq<nat>, after: seq<nat>, chain: seq<nat>, more: seq<nat>)
  {
    && |after| == |fat| && chain <= more
    && (forall c :: 2 <= c < |fat| && c !in more ==> after[c] == fat[c])
    && (forall i :: |chain| <= i < |more| ==> IsCluster(fat, more[i]) && fat[more[i]] == 0)
  }

  lemma GrowsTransitive(a: seq<nat>, b: seq<nat>, c: seq<nat>, sclust: nat, x: seq<nat>, y: seq<nat>, z: seq<nat>)
    requires Grows(a, b, x, y) && Grows(b, c, y, z) && ChainOf(b, sclust, y)
    ensures Grows(a, c, x, z)
  {
    if sclust != 0 {
      AllocatedOnChain(b, y);
    }
    forall i | |x| <= i < |z|
      ensures IsCluster(a, z[i]) && a[z[i]] == 0
    {
      if i < |y| {
        assert z[i] == y[i];
      }
    }
  }

  /** No entry holds the reserved value 1. */
  predicate NoReserved(fat: seq<nat>)
  {
    forall c :: 2 <= c < |fat| ==> fat[c] != 1
  }

  lemma GrowsKeepsUnreserved(fat: seq<nat>, after: seq<nat>, chain: seq<nat>, sclust: nat, more: seq<nat>)
    requires Grows(fat, after, chain, more) && ChainOf(after, sclust, more)
    ensures NoReserved(fat) ==> NoReserved(after)
  {
    forall c | NoReserved(fat) && 2 <= c < |fat|
      ensures after[c] != 1
    {
      if c in more {
        var i :| 0 <= i < |more| && more[i] == c;
        MemberStep(after, more, i);
      }
    }
  }

  lemma AppendGrows(fat: seq<nat>, chain: seq<nat>, sclust: nat, ncl: nat, eoc: nat)
    requires ChainOf(fat, sclust, chain)
    requires CanAppend(fat, if chain == [] then 0 else chain[|chain| - 1], ncl, eoc)
    ensures var after := Append(fat, if chain == [] then 0 else chain[|chain| - 1], ncl, eoc);
            && Grows(fat, after, chain, chain + [ncl])
            && ChainOf(after, if chain == [] then ncl else sclust, chain + [ncl])
  {
    var more := chain + [ncl];
    if chain != [] {
      AppendExtends(fat, chain, ncl, eoc);
      assert more[|chain| - 1] == chain[|chain| - 1];
    }
    assert more[|chain|] == ncl;
  }

  /** Growing one chain keeps the table well-formed. */
  lemma GrowsKeepsWellFormed(fat: seq<nat>, after: seq<nat>, chain: seq<nat>, more: seq<nat>)
    requires WellFormed(fat) && Grows(fat, after, chain, more)
    requires (chain == [] || IsChain(fat, chain)) && (more == [] || IsChain(after, more))
    ensures WellFormed(after)
  {
    var rank :| WellFormedBy(fat, rank);
    var up := seq(|rank|, c requires 0 <= c < |rank| => if c in more then Below(more, c) else rank[c] + |more| + 1);
    forall c | 2 <= c < |fat|
      ensures after[c] != 1
      ensures Links(after, c) ==> after[after[c]] != 0 && up[after[c]] < up[c]
    {
      if c in more {
        var i :| 0 <= i < |more| && more[i] == c;
        MemberStep(after, more, i);
        BelowAt(more, i);
        if i < |more| - 1 {
          BelowAt(more, i + 1);
        }
      } else if Links(after, c) {
        GrowsKeepsAllocated(fat, after, chain, more, fat[c]);
        BelowBound(more, fat[c]);
      }
    }
    forall c, d | 2 <= c < |fat| && 2 <= d < |fat| && c != d && Links(after, c)
      ensures after[c] != after[d]
    {
      GrowsInjective(fat, after, chain, more, rank, c, d);
    }
    assert WellFormedBy(after, up);
  }

  /** The distance of `c` from the end of the chain */
  function Below(chain: seq<nat>, c: nat): (r: nat)
  {
    if chain == [] then 0 else if chain[0] == c then |chain| else Below(chain[1..], c)
  }

  lemma {:induction false} BelowBound(chain: seq<nat>, c: nat)
    ensures Below(chain, c) <= |chain|
  {
    if chain != [] && chain[0] != c {
      BelowBound(chain[1..], c);
    }
  }

  lemma {:induction false} BelowAt(chain: seq<nat>, i: nat)
    requires Distinct(chain) && i < |chain|
    ensures Below(chain, chain[i]) == |chain| - i
  {
    if i > 0 {
      assert chain[1..][i - 1] == chain[i];
      BelowAt(chain[1..], i - 1);
    }
  }

  lemma MemberStep(fat: seq<nat>, chain: seq<nat>, i: nat)
    requires IsChain(fat, chain) && i < |chain|
    ensures if i == |chain| - 1 then fat[chain[i]] >= |fat| else fat[chain[i]] == chain[i + 1]
    ensures fat[chain[i]] != 0 && fat[chain[i]] != 1
    ensures i < |chain| - 1 ==> fat[chain[i + 1]] != 0
  {
    AllocatedOnChain(fat, chain);
    assert i < |chain| - 1 ==> fat[chain[i]] == chain[i + 1];
  }

  lemma GrowsKeepsAllocated(fat: seq<nat>, after: seq<nat>, chain: seq<nat>, more: seq<nat>, c: nat)
    requires Grows(fat, after, chain, more) && (more == [] || IsChain(after, more))
    requires IsCluster(fat, c) && fat[c] != 0
    ensures after[c] != 0
  {
    if c in more {
      AllocatedOnChain(after, more);
    }
  }

  lemma GrowsInjective(fat: seq<nat>, after: seq<nat>, chain: seq<nat>, more: seq<nat>, rank: seq<nat>, c: nat, d: nat)
    requires WellFormedBy(fat, rank) && Grows(fat, after, chain, more)
    requires (chain == [] || IsChain(fat, chain)) && (more == [] || IsChain(after, more))
    requires 2 <= c < |fat| && 2 <= d < |fat| && c != d && Links(after, c)
    ensures after[c] != after[d]
  {
    if c in more && d in more {
      var i :| 0 <= i < |more| && more[i] == c;
      var j :| 0 <= j < |more| && more[j] == d;
      MemberStep(after, more, i);
      MemberStep(after, more, j);
    } else if c in more {
      GrowsOutside(fat, after, chain, more, rank, c, d);
    } else if d in more {
      GrowsOutside(fat, after, chain, more, rank, d, c);
    }
  }

  /** No cluster outside the chain links to a successor on it. */
  lemma GrowsOutside(fat: seq<nat>, after: seq<nat>, chain: seq<nat>, more: seq<nat>, rank: seq<nat>, c: nat, d: nat)
    requires WellFormedBy(fat, rank) && Grows(fat, after, chain, more)
    requires (chain == [] || IsChain(fat, chain)) && IsChain(after, more)
    requires c in more && 2 <= d < |fat| && d !in more
    requires Links(after, c) || Links(after, d)
    ensures after[c] != after[d]
  {
    var i :| 0 <= i < |more| && more[i] == c;
    MemberStep(after, more, i);
    if i < |more| - 1 {
      if i + 1 < |chain| {
        assert fat[chain[i]] == chain[i + 1] && chain[i] == c && chain[i + 1] == more[i + 1];
      } else {
        assert fat[more[i + 1]] == 0;
      }
    }
  }

  /** Chains that do not meet the growing one are unchanged. */
  lemma GrowsLeavesOthers(fat: seq<nat>, after: seq<nat>, chain: seq<nat>, more: seq<nat>, other: seq<nat>)
    requires Grows(fat, after, chain, more) && IsChain(fat, other)
    requires forall i :: 0 <= i < |other| ==> other[i] !in chain
    ensures IsChain(after, other) && forall i :: 0 <= i < |other| ==> other[i] !in more
  {
    AllocatedOnChain(fat, other);
    forall i | 0 <= i < |other|
      ensures other[i] !in more
    {
      forall j | 0 <= j < |more|
        ensures more[j] != other[i]
      {
        assert j < |chain| ==> more[j] == chain[j];
      }
    }
    Untouched(fat, after, other);
  }
}