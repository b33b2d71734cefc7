/** Calls of create_chain and remove_chain on a volume make up the runs that the allocation results are about. */
module AllocationRuns {
  import opened Allocation
  import opened Base
  import opened Chains
  import opened FatTable
  import opened Volume

  ghost function StateOf(fs: FileSystem): (a: Allocation)
    requires fs.Valid()
    reads fs, fs.win, fs.disk
  {
    Allocation(fs.Table(), fs.freeClst, fs.lastClst)
  }

  /** The volume stands at the end of the run. */
  ghost predicate Arrived(fs: FileSystem, run: seq<Allocation>)
    reads fs, fs.win, fs.disk
  {
    fs.Valid() && |run| > 0 && IsRun(run, EndMark(fs.geo.fsType)) && run[|run| - 1] == StateOf(fs)
  }

  lemma Extend(run: seq<Allocation>, b: Allocation, eoc: nat)
    requires |run| > 0 && IsRun(run, eoc) && Step(run[|run| - 1], b, eoc)
    ensures IsRun(run + [b], eoc)
  {
    var more := run + [b];
    hide Step;
    forall i | 0 < i < |more|
      ensures Step(more[i - 1], more[i], eoc)
    {
      assert i < |run| ==> more[i] == run[i];
      assert more[i - 1] == run[i - 1];
    }
  }

  /** create_chain takes the run a step further, unless the disk fails. */
  method Create(fs: FileSystem, clst: nat, ghost run: seq<Allocation>) returns (r: nat, ghost more: seq<Allocation>)
    requires Arrived(fs, run)
    modifies fs, fs.win, fs.disk
    ensures fs.Valid() && (fs.disk.reliable ==> r != DISK_ERROR)
    ensures r != DISK_ERROR ==> Arrived(fs, more) && |more| == |run| + 1 && more[..|run|] == run
    ensures r != DISK_ERROR ==> Takes(run[|run| - 1], more[|run|], clst, r, EndMark(fs.geo.fsType))
  {
    hide FileSystem.Valid, FileSystem.Table, FileSystem.Logical, FileSystem.Mirrored, Created, IsRun;
    ghost var a := StateOf(fs);
    r := fs.CreateChain(clst);
    more := run + [StateOf(fs)];
    if r != DISK_ERROR {
      assert Takes(a, StateOf(fs), clst, r, EndMark(fs.geo.fsType));
      Extend(run, StateOf(fs), EndMark(fs.geo.fsType));
    }
  }

  /** remove_chain on position `k` of a chain, with the cluster before it, takes the run a step further. */
  method Remove(fs: FileSystem, chain: seq<nat>, k: nat, ghost run: seq<Allocation>)
    returns (res: FResult, ghost more: seq<Allocation>)
    requires Arrived(fs, run) && IsChain(fs.Table(), chain) && k < |chain| && (k == 0 ==> IsHead(fs.Table(), chain[0]))
    modifies fs, fs.win, fs.disk
    ensures fs.Valid() && (fs.disk.reliable ==> res == FrOk)
    ensures res == FrOk || res == FrDiskErr
    ensures res == FrOk ==> Arrived(fs, more) && |more| == |run| + 1 && more[..|run|] == run
    ensures res == FrOk ==> Releases(run[|run| - 1], more[|run|], chain, k, EndMark(fs.geo.fsType))
  {
    hide FileSystem.Valid, FileSystem.Table, FileSystem.Logical, FileSystem.Mirrored, IsRun, Unlink;
    ghost var a, eoc := StateOf(fs), EndMark(fs.geo.fsType);
    UnlinkCut(a.fat, chain, k, eoc);
    if k > 0 { MemberStep(a.fat, chain, k - 1); }
    MemberStep(a.fat, chain, k);
    res := fs.RemoveChain(chain[k], if k == 0 then 0 else chain[k - 1]);
    more := run + [StateOf(fs)];
    if res == FrOk {
      assert Releases(a, StateOf(fs), chain, k, eoc);
      Extend(run, StateOf(fs), eoc);
    }
  }
}
