/** create_chain and remove_chain as steps of a run: what every step keeps, and when the free counter stays right. */
module Allocation {
  import opened Chains
  import opened Volume
  import opened Base
  import opened FatTable

  /** The parts of a volume that the allocator works on: the table, fs->free_clst and fs->last_clst */
  datatype Allocation = Allocation(fat: seq<nat>, free: nat, hint: nat)

  /** A call of create_chain for `clst` that returned `r` without a disk error */
  predicate Takes(a: Allocation, b: Allocation, clst: nat, r: nat, eoc: nat)
  {
    && Created(a.fat, clst, a.hint, eoc, r, b.fat)
    && (b.fat == a.fat ==> b.free == a.free && b.hint == a.hint)
    && (b.fat != a.fat ==> b.free == TakeFree(a.free, |a.fat|) && b.hint == r)
  }

  /** A call of remove_chain for position `k` of a chain, with the cluster before it, without a disk error */
  predicate Releases(a: Allocation, b: Allocation, chain: seq<nat>, k: nat, eoc: nat)
  {
    && IsChain(a.fat, chain) && k < |chain| && (k == 0 ==> IsHead(a.fat, chain[0])) && a.free < DWORD
    && var r := Unlink(if k == 0 then a.fat else a.fat[chain[k - 1] := eoc], chain[k]);
       b == Allocation(r.fat, AddFree(a.free, r.freed), a.hint)
  }

  ghost predicate Step(a: Allocation, b: Allocation, eoc: nat)
  {
    || (exists clst, r :: Takes(a, b, clst, r, eoc))
    || (exists chain, k :: Releases(a, b, chain, k, eoc))
  }

  /** The table is a disjoint union of chains, and the free counter is right. */
  ghost predicate Sound(a: Allocation)
  {
    && WellFormed(a.fat) && 3 <= |a.fat| < 0xFFFF_FFFF
    && a.free == CountFree(a.fat)
  }

  predicate Empty(fat: seq<nat>)
  {
    CountFree(fat) + 2 == |fat|
  }

  /* One allocation */

  lemma CreateKeepsWellFormed(fat: seq<nat>, clst: nat, hint: nat, eoc: nat, r: nat, after: seq<nat>)
    requires WellFormed(fat) && eoc >= |fat| && Created(fat, clst, hint, eoc, r, after)
    ensures WellFormed(after) && |after| == |fat|
    ensures after == fat || (CanAppend(fat, clst, r, eoc) && after == Append(fat, clst, r, eoc))
  {
    if after != fat {
      AppendKeepsWellFormed(fat, clst, r, eoc);
    }
  }

  /** Whatever the hint is, the scan finds a free cluster if and only if there is one. */
  lemma ScanFinds(fat: seq<nat>, scl: nat, r: nat)
    requires NoReserved(fat) && Scanned(fat, scl, r)
    ensures r == 0 <==> CountFree(fat) == 0
    ensures r != 0 ==> IsCluster(fat, r) && fat[r] == 0
  {
    if r == 0 {
      CountZero(fat);
    } else {
      CountPositive(fat, r);
    }
  }

  /** create_chain for a new chain or the end of one fails exactly on a full volume. */
  lemma CreateFailsIffFull(fat: seq<nat>, clst: nat, hint: nat, eoc: nat, r: nat, after: seq<nat>)
    requires WellFormed(fat) && Created(fat, clst, hint, eoc, r, after)
    requires clst == 0 || (IsCluster(fat, clst) && fat[clst] >= |fat|)
    ensures r == 0 <==> CountFree(fat) == 0
    ensures r != 0 ==> IsCluster(fat, r) && fat[r] == 0 && after[r] == eoc && (clst != 0 ==> after[clst] == r)
  {
    ScanFinds(fat, ScanStart(|fat|, clst, hint), r);
  }

  /** The named chain gets the new cluster at its end; all other chains stay. */
  lemma CreateExtendsOne(fat: seq<nat>, chain: seq<nat>, hint: nat, eoc: nat, r: nat, after: seq<nat>, other: seq<nat>)
    requires WellFormed(fat) && eoc >= |fat| && IsChain(fat, chain) && r != 0
    requires Created(fat, chain[|chain| - 1], hint, eoc, r, after)
    requires IsChain(fat, other) && chain[|chain| - 1] !in other
    ensures IsChain(after, chain + [r]) && r !in chain && r !in other
    ensures IsChain(after, other)
  {
    var clst := chain[|chain| - 1];
    CreateFailsIffFull(fat, clst, hint, eoc, r, after);
    AppendExtends(fat, chain, r, eoc);
    AppendLeavesOthers(fat, clst, r, eoc, other);
    assert Distinct(chain + [r]);
    NotBefore(chain, r);
  }

  lemma NotBefore(chain: seq<nat>, r: nat)
    requires Distinct(chain + [r])
    ensures r !in chain
  {
    forall i | 0 <= i < |chain|
      ensures chain[i] != r
    {
      assert (chain + [r])[i] != (chain + [r])[|chain|];
    }
  }

  /** The free counter is right after an allocation if and only if some cluster was in use before. */
  lemma TakeCountsIff(a: Allocation, b: Allocation, clst: nat, r: nat, eoc: nat)
    requires Sound(a) && eoc >= |a.fat| && Takes(a, b, clst, r, eoc) && b.fat != a.fat
    ensures b.free == CountFree(b.fat) <==> !Empty(a.fat)
  {
    CreateKeepsWellFormed(a.fat, clst, a.hint, eoc, r, b.fat);
    AppendCount(a.fat, clst, r, eoc);
    CountPositive(a.fat, r);
  }

  /** On a FAT12 volume with one cluster, which is free, the counter stays at one. */
  lemma EmptyVolumeExample()
    ensures var a := Allocation([0xFF8, 0xFFF, 0], 1, 0xFFFF_FFFF);
            var b := Allocation([0xFF8, 0xFFF, 0xFFF], 1, 2);
            Sound(a) && Takes(a, b, 0, 2, EndMark(Fat12)) && b.free != CountFree(b.fat)
  {
    var a := Allocation([0xFF8, 0xFFF, 0], 1, 0xFFFF_FFFF);
    var b := Allocation([0xFF8, 0xFFF, 0xFFF], 1, 2);
    assert CountFree(a.fat[..2]) == 0;
    assert WellFormedBy(a.fat, [0, 0, 0]);
    assert IsNextHole(a.fat, 1, 2);
    assert b.fat == Append(a.fat, 0, 2, 0xFFF);
    TakeCountsIff(a, b, 0, 2, 0xFFF);
  }

  /* One release */

  /** remove_chain frees exactly the clusters from position `k` on and ends the chain before them. */
  lemma ReleaseIsCut(a: Allocation, b: Allocation, chain: seq<nat>, k: nat, eoc: nat)
    requires Releases(a, b, chain, k, eoc) && eoc >= |a.fat|
    ensures b.fat == Cut(a.fat, chain, k, eoc)
    ensures b.free == AddFree(a.free, |chain| - k)
    ensures CountFree(b.fat) == CountFree(a.fat) + |chain| - k
  {
    UnlinkCut(a.fat, chain, k, eoc);
    if k > 0 {
      MemberStep(a.fat, chain, k - 1);
      CountUpdate(a.fat, chain[k - 1], eoc);
    }
  }

  lemma ReleaseKeepsSound(a: Allocation, b: Allocation, chain: seq<nat>, k: nat, eoc: nat)
    requires Sound(a) && eoc >= |a.fat| && Releases(a, b, chain, k, eoc)
    ensures Sound(b) && |b.fat| == |a.fat|
  {
    ReleaseIsCut(a, b, chain, k, eoc);
    CutKeepsWellFormed(a.fat, chain, k, eoc);
  }

  /* Runs */

  lemma StepKeepsSound(a: Allocation, b: Allocation, eoc: nat)
    requires Sound(a) && eoc >= |a.fat| && Step(a, b, eoc) && !Empty(a.fat)
    ensures Sound(b) && |b.fat| == |a.fat|
  {
    if clst, r :| Takes(a, b, clst, r, eoc) {
      CreateKeepsWellFormed(a.fat, clst, a.hint, eoc, r, b.fat);
      if b.fat != a.fat {
        TakeCountsIff(a, b, clst, r, eoc);
      }
    } else {
      var chain, k :| Releases(a, b, chain, k, eoc);
      ReleaseKeepsSound(a, b, chain, k, eoc);
    }
  }

  ghost predicate IsRun(run: seq<Allocation>, eoc: nat)
  {
    forall i :: 0 < i < |run| ==> Step(run[i - 1], run[i], eoc)
  }

  /** Over any run during which the volume is never wholly empty, the table stays well-formed and the counter right. */
  lemma {:induction false} RunKeepsSound(run: seq<Allocation>, eoc: nat, i: nat)
    requires IsRun(run, eoc) && i < |run| && Sound(run[0]) && eoc >= |run[0].fat|
    requires forall j :: 0 <= j < i ==> !Empty(run[j].fat)
    ensures Sound(run[i]) && |run[i].fat| == |run[0].fat|
  {
    if i > 0 {
      RunKeepsSound(run, eoc, i - 1);
      StepKeepsSound(run[i - 1], run[i], eoc);
    }
  }

  /** Even where the counter goes wrong, the table stays a disjoint union of chains. */
  lemma {:induction false} RunKeepsWellFormed(run: seq<Allocation>, eoc: nat, i: nat)
    requires IsRun(run, eoc) && i < |run| && WellFormed(run[0].fat) && eoc >= |run[0].fat|
    ensures WellFormed(run[i].fat) && |run[i].fat| == |run[0].fat|
  {
    if i > 0 {
      RunKeepsWellFormed(run, eoc, i - 1);
      var a, b := run[i - 1], run[i];
      if clst, r :| Takes(a, b, clst, r, eoc) {
        CreateKeepsWellFormed(a.fat, clst, a.hint, eoc, r, b.fat);
      } else {
        var chain, k :| Releases(a, b, chain, k, eoc);
        ReleaseIsCut(a, b, chain, k, eoc);
        CutKeepsWellFormed(a.fat, chain, k, eoc);
      }
    }
  }
}
