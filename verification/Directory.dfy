/** dir_sdi and dir_next: the entries of a directory, in a static table or in a chain of clusters. */
module Directory {
  import opened Base
  import opened FatTable
  import opened Chains
  import opened FileData
  import opened Window
  import opened Volume

  const SZDIRE := 32
  const MAX_DIR := 0x20_0000

  /** Where entry number ofs / 32 of a directory is: dp->clust, dp->sect and dp->dptr */
  datatype Place = Place(clust: nat, sect: nat, ofs: nat)

  /** A directory is a static table, with no chain, or lies in a chain. */
  predicate InDirectory(g: Geometry, chain: seq<nat>, ofs: nat)
    requires g.csize > 0
  {
    ofs % SZDIRE == 0 && ofs < MAX_DIR &&
    if chain == [] then ofs / SZDIRE < g.nRootdir else ClusterIndex(g, ofs) < |chain|
  }

  function PlaceOf(g: Geometry, chain: seq<nat>, ofs: nat): (p: Place)
    requires g.csize > 0 && Clusters(g, chain) && InDirectory(g, chain, ofs)
  {
    ClusterIndexIs(g, ofs);
    var k := ofs / SECTOR_SIZE;
    if chain == [] then Place(0, g.dirbase + k, ofs)
    else Place(chain[ClusterOf(g, k)], DataSector(g, chain, k), ofs)
  }

  /** Different entries have different places. */
  lemma PlacesApart(g: Geometry, chain: seq<nat>, a: nat, b: nat)
    requires g.csize > 0 && Clusters(g, chain) && InDirectory(g, chain, a) && InDirectory(g, chain, b) && a != b
    ensures var p, q := PlaceOf(g, chain, a), PlaceOf(g, chain, b);
            p.sect != q.sect || a % SECTOR_SIZE != b % SECTOR_SIZE
  {
    ClusterIndexIs(g, a);
    ClusterIndexIs(g, b);
    var k, l := a / SECTOR_SIZE, b / SECTOR_SIZE;
    hide DataSector, ClusterOf, ClusterIndex, Clusters;
    if chain != [] && DataSector(g, chain, k) == DataSector(g, chain, l) {
      DataSectorsApart(g, chain, k, l);
    }
  }

  /** The next entry is in the same sector, */
  lemma NextInSector(g: Geometry, chain: seq<nat>, ofs: nat)
    requires g.csize > 0 && Clusters(g, chain) && InDirectory(g, chain, ofs) && g.nRootdir % 16 == 0
    requires (ofs + SZDIRE) % SECTOR_SIZE != 0 && ofs + SZDIRE < MAX_DIR
    ensures InDirectory(g, chain, ofs + SZDIRE)
    ensures PlaceOf(g, chain, ofs + SZDIRE) == PlaceOf(g, chain, ofs).(ofs := ofs + SZDIRE)
  {
    hide ClusterIndex, Clusters, ClusterOf, DataSector;
    ClusterIndexIs(g, ofs);
    ClusterIndexIs(g, ofs + SZDIRE);
    SameSectorNext(ofs);
  }

  lemma SectorAndEntry(s: nat, r: nat)
    requires r < 16
    ensures var ofs := SECTOR_SIZE * s + SZDIRE * r;
            ofs / SECTOR_SIZE == s && ofs % SECTOR_SIZE == SZDIRE * r && ofs % SZDIRE == 0
  {
    assert SECTOR_SIZE * s + SZDIRE * r == SZDIRE * (16 * s + r);
  }

  lemma SameSectorNext(ofs: nat)
    requires ofs % SZDIRE == 0 && (ofs + SZDIRE) % SECTOR_SIZE != 0
    ensures (ofs + SZDIRE) / SECTOR_SIZE == ofs / SECTOR_SIZE && (ofs + SZDIRE) % SZDIRE == 0
  {
    var q := ofs / SZDIRE;
    var s, r := q / 16, q % 16;
    SectorAndEntry(s, r);
    assert r < 15 by { SectorAndEntry(s + 1, 0); }
    SectorAndEntry(s, r + 1);
  }

  /** or in the next sector of the static table, or behind it, */
  lemma NextInTable(g: Geometry, ofs: nat)
    requires g.csize > 0 && InDirectory(g, [], ofs) && (ofs + SZDIRE) % SECTOR_SIZE == 0 && ofs + SZDIRE < MAX_DIR
    ensures InDirectory(g, [], ofs + SZDIRE) <==> (ofs + SZDIRE) / SZDIRE < g.nRootdir
    ensures InDirectory(g, [], ofs + SZDIRE) ==>
              PlaceOf(g, [], ofs + SZDIRE) == Place(0, PlaceOf(g, [], ofs).sect + 1, ofs + SZDIRE)
  {
    assert (ofs + SZDIRE) / SECTOR_SIZE == ofs / SECTOR_SIZE + 1;
    hide ClusterIndex;
  }

  /** or in the next sector of the cluster, */
  lemma NextInCluster(g: Geometry, chain: seq<nat>, ofs: nat)
    requires g.csize > 0 && Clusters(g, chain) && InDirectory(g, chain, ofs) && chain != []
    requires (ofs + SZDIRE) % SECTOR_SIZE == 0 && ofs + SZDIRE < MAX_DIR && SlotOf(g, (ofs + SZDIRE) / SECTOR_SIZE) != 0
    ensures InDirectory(g, chain, ofs + SZDIRE)
    ensures var p := PlaceOf(g, chain, ofs); PlaceOf(g, chain, ofs + SZDIRE) == Place(p.clust, p.sect + 1, ofs + SZDIRE)
  {
    hide ClusterIndex, ClusterOf, SlotOf, Clusters, ClusterSector;
    var k := ofs / SECTOR_SIZE;
    ClusterIndexIs(g, ofs);
    ClusterIndexIs(g, ofs + SZDIRE);
    assert (ofs + SZDIRE) / SECTOR_SIZE == k + 1;
    NextSlot(g, k);
  }

  /** or at the start of the next cluster, or behind the last one. */
  lemma NextInChain(g: Geometry, chain: seq<nat>, ofs: nat)
    requires g.csize > 0 && Clusters(g, chain) && InDirectory(g, chain, ofs) && chain != []
    requires (ofs + SZDIRE) % SECTOR_SIZE == 0 && ofs + SZDIRE < MAX_DIR && SlotOf(g, (ofs + SZDIRE) / SECTOR_SIZE) == 0
    ensures var i := ClusterIndex(g, ofs);
            && (InDirectory(g, chain, ofs + SZDIRE) <==> i + 1 < |chain|)
            && i < |chain| && PlaceOf(g, chain, ofs).clust == chain[i]
            && (i + 1 < |chain| ==>
                  PlaceOf(g, chain, ofs + SZDIRE) == Place(chain[i + 1], Clust2Sect(g, chain[i + 1]), ofs + SZDIRE))
  {
    var k := ofs / SECTOR_SIZE;
    ClusterIndexIs(g, ofs);
    ClusterIndexIs(g, ofs + SZDIRE);
    assert (ofs + SZDIRE) / SECTOR_SIZE == k + 1;
    NextSlot(g, k);
    hide ClusterIndex, ClusterOf, SlotOf, ClusterSector;
  }

  lemma NextSlot(g: Geometry, k: nat)
    requires g.csize > 0
    ensures SlotOf(g, k + 1) != 0 ==> ClusterOf(g, k + 1) == ClusterOf(g, k) && SlotOf(g, k + 1) == SlotOf(g, k) + 1
    ensures SlotOf(g, k + 1) == 0 ==> ClusterOf(g, k + 1) == ClusterOf(g, k) + 1
  {
    if SlotOf(g, k) + 1 < g.csize {
      SlotStep(g, k, 1);
    } else {
      NextCluster(g, k, 1);
    }
  }

  /** The directory starts where the entry says; cluster 0 stands for the root directory, which is a chain in FAT32. */
  function StartCluster(g: Geometry, sclust: nat): (c: nat)
  {
    if sclust == 0 && g.fsType == Fat32 then g.dirbase else sclust
  }

  /* A directory that grows */

  /** Sector `s` belongs to a free cluster. */
  ghost predicate InFree(g: Geometry, fat: seq<nat>, s: int)
  {
    exists c :: 2 <= c < |fat| && fat[c] == 0 && InCluster(g, c, s)
  }

  /** Outside the FAT and the free clusters nothing has changed. */
  ghost predicate UsedKept(g: Geometry, fat: seq<nat>, v: seq<Sector>, w: seq<Sector>)
  {
    |w| == |v| && forall s :: 0 <= s < |v| && !InFat(g, s) && !InFree(g, fat, s) ==> w[s] == v[s]
  }

  /** The cluster is zero, and no other sector has changed. */
  predicate ClusterCleared(g: Geometry, v: seq<Sector>, w: seq<Sector>, c: nat)
    requires c >= 2
  {
    && |w| == |v| && (forall s :: 0 <= s < |v| && !InCluster(g, c, s) ==> w[s] == v[s])
    && forall s :: 0 <= s < |v| && InCluster(g, c, s) ==> w[s] == Zeros(SECTOR_SIZE)
  }

  /** Sector `s` belongs to a cluster of the chain behind the first `n`. */
  ghost predicate OnNew(g: Geometry, more: seq<nat>, n: nat, s: int)
    requires Clusters(g, more)
  {
    exists i :: n <= i < |more| && InCluster(g, more[i], s)
  }

  /**
   * The chain has grown by clusters that were free and are all zero now; outside
   * them and the FAT nothing has changed.
   */
  ghost predicate Extended(g: Geometry, fat: seq<nat>, v: seq<Sector>, chain: seq<nat>, after: seq<nat>, w: seq<Sector>,
                           more: seq<nat>): (b: bool)
    ensures b ==> chain <= more && Clusters(g, more) && |after| == |fat| && |w| == |v|
  {
    && Clusters(g, more) && Grows(fat, after, chain, more) && |w| == |v|
    && (forall s :: 0 <= s < |v| && !InFat(g, s) && !OnNew(g, more, |chain|, s) ==> w[s] == v[s])
    && forall s :: 0 <= s < |v| && OnNew(g, more, |chain|, s) ==> w[s] == Zeros(SECTOR_SIZE)
  }

  /** A chain that does not grow is extended by nothing. */
  lemma ExtendedItself(g: Geometry, fat: seq<nat>, v: seq<Sector>, w: seq<Sector>, chain: seq<nat>)
    requires Clusters(g, chain) && SameOutsideFat(g, v, w)
    ensures Extended(g, fat, v, chain, fat, w, chain)
  {
    hide InCluster;
  }

  lemma KeptItself(g: Geometry, fat: seq<nat>, v: seq<Sector>)
    ensures UsedKept(g, fat, v, v)
  {
  }

  lemma FatOnlyKept(g: Geometry, fat: seq<nat>, v: seq<Sector>, w: seq<Sector>)
    requires SameOutsideFat(g, v, w)
    ensures UsedKept(g, fat, v, w) && |w| == |v|
  {
  }

  /** Clearing a free cluster leaves the others alone. */
  lemma ClearedKept(g: Geometry, fat: seq<nat>, v: seq<Sector>, w: seq<Sector>, x: seq<Sector>, c: nat)
    requires SameOutsideFat(g, v, w) && 2 <= c < |fat| && fat[c] == 0 && |x| == |w|
    requires forall s :: 0 <= s < |w| && !InCluster(g, c, s) ==> x[s] == w[s]
    ensures UsedKept(g, fat, v, x)
  {
    hide InCluster;
    forall s | 0 <= s < |v| && !InFat(g, s) && !InFree(g, fat, s)
      ensures x[s] == v[s]
    {
      assert !InCluster(g, c, s);
    }
  }

  lemma ExtendedByOne(g: Geometry, fat: seq<nat>, v: seq<Sector>, chain: seq<nat>, after: seq<nat>, w: seq<Sector>,
                      x: seq<Sector>, more: seq<nat>, c: nat)
    requires SameOutsideFat(g, v, w) && c >= 2 && ClusterCleared(g, w, x, c) && more == chain + [c]
    requires Clusters(g, more) && Grows(fat, after, chain, more)
    ensures Extended(g, fat, v, chain, after, x, more)
  {
    hide InCluster, Grows, Clusters;
    assert more[|chain|] == c;
    assert forall s :: OnNew(g, more, |chain|, s) <==> InCluster(g, c, s);
  }

  /** A cluster that was free and is now the last of a chain lies inside the volume. */
  lemma NewCluster(g: Geometry, fat: seq<nat>, after: seq<nat>, start: nat, chain: seq<nat>, more: seq<nat>, c: nat,
                   size: nat)
    requires |fat| == |after| == g.nFatent && Grows(fat, after, chain, more) && ChainOf(after, start, more)
    requires more == chain + [c] && Mounted(g, size) && DataFits(g, size)
    ensures 2 <= c < |fat| && fat[c] == 0 && Clusters(g, more)
    ensures Clust2Sect(g, c) == ClusterSector(g, c) >= g.database && ClusterSector(g, c) + g.csize <= size
  {
    assert more[|chain|] == c;
    ClusterInside(g, c, size);
    ChainClusters(g, after, start, more);
  }

  /** Behind the edge comes the first entry of the new cluster. */
  lemma EdgePlace(g: Geometry, chain: seq<nat>, more: seq<nat>, ofs: nat)
    requires g.csize > 0 && Clusters(g, chain) && Clusters(g, more) && chain != []
    requires |more| == |chain| + 1 && chain <= more && InDirectory(g, chain, ofs) && ClusterIndex(g, ofs) == |chain| - 1
    requires (ofs + SZDIRE) % SECTOR_SIZE == 0 && ofs + SZDIRE < MAX_DIR && SlotOf(g, (ofs + SZDIRE) / SECTOR_SIZE) == 0
    ensures InDirectory(g, more, ofs + SZDIRE)
    ensures PlaceOf(g, more, ofs + SZDIRE) == Place(more[|chain|], Clust2Sect(g, more[|chain|]), ofs + SZDIRE)
  {
    hide PlaceOf, Clusters, ClusterIndex, SlotOf;
    NextInChain(g, more, ofs);
  }

  /** The window has been edited and has to be written. */
  method MarkDirty(fs: FileSystem, ghost was: Sector, ghost v: seq<Sector>)
    requires fs.win.Length == SECTOR_SIZE && Mounted(fs.geo, |fs.disk.sectors|) && fs.freeClst < DWORD
    requires fs.winsect < |fs.disk.sectors| && !IsMirror(fs.geo, fs.winsect)
    requires v == View(fs.geo, fs.disk.sectors, fs.wflag, fs.winsect, was)
    modifies fs`wflag
    ensures fs.Valid() && fs.winsect < |v| && fs.Logical() == v[fs.winsect := fs.win[..]] && fs.wflag
  {
    hide Mounted, IsMirror, ViewAt;
    StoreView(fs.geo, fs.disk.sectors, fs.wflag, fs.winsect, was, fs.win[..]);
    fs.wflag := true;
  }

  /** The window is clean and shows zeros, which need not be what is on the disk. */
  ghost predicate ZeroWindow(fs: FileSystem)
    reads fs, fs.disk, fs.win
  {
    && fs.win.Length == SECTOR_SIZE && Mounted(fs.geo, |fs.disk.sectors|) && fs.freeClst < DWORD
    && !fs.wflag && fs.win[..] == Zeros(SECTOR_SIZE)
  }

  /** Of the sectors from `first` on, `n` are zero, and all others are as they were. */
  predicate PartCleared(v: seq<Sector>, w: seq<Sector>, first: nat, n: nat)
  {
    && |w| == |v|
    && forall s :: 0 <= s < |v| ==> w[s] == if first <= s < first + n then Zeros(SECTOR_SIZE) else v[s]
  }

  lemma OneMoreCleared(v: seq<Sector>, w: seq<Sector>, first: nat, n: nat)
    requires PartCleared(v, w, first, n) && first + n < |w|
    ensures PartCleared(v, w[first + n := Zeros(SECTOR_SIZE)], first, n + 1)
  {
    hide Zeros;
  }

  /** What is cleared when a cluster is being cleared, and when it has been */
  lemma ClearedSoFar(g: Geometry, v: seq<Sector>, w: seq<Sector>, c: nat, n: nat)
    requires c >= 2 && n <= g.csize && PartCleared(v, w, ClusterSector(g, c), n)
    ensures |w| == |v| && forall s :: 0 <= s < |v| && !InCluster(g, c, s) ==> w[s] == v[s]
    ensures n == g.csize ==> ClusterCleared(g, v, w, c)
  {
    hide ClusterSector, Zeros;
  }

  lemma NothingCleared(v: seq<Sector>, first: nat)
    ensures PartCleared(v, v, first, 0)
  {
  }

  lemma OverlayZeros(was: Sector)
    ensures Overlay(was, 0, Zeros(SECTOR_SIZE)) == Zeros(SECTOR_SIZE)
  {
    hide Zeros;
  }

  /** A clean window changes nothing. */
  lemma CleanAt(g: Geometry, secs: seq<Sector>, winsect: nat, win: Sector, s: nat)
    requires s < |secs| && !IsMirror(g, s)
    ensures View(g, secs, false, winsect, win)[s] == secs[s]
  {
  }

  /** Clusters are neither in the FAT nor in its copy. */
  lemma BehindFat(g: Geometry, v: seq<Sector>, w: seq<Sector>, c: nat)
    requires Mounted(g, |v|) && c >= 2 && |w| == |v|
    requires forall s :: 0 <= s < |v| && !InCluster(g, c, s) ==> w[s] == v[s]
    ensures HasFat(g, v) && HasFat(g, w) && Fat(g, w) == Fat(g, v) && g.csize > 0
    ensures forall s :: InCluster(g, c, s) ==> !IsMirror(g, s)
  {
    hide Fat, ClusterSector;
    FatFrame(g, v, w);
  }

  /** Writes the zero window to its sector, the next one to be cleared. */
  method ClearSector(fs: FileSystem, ghost v: seq<Sector>, ghost first: nat, ghost n: nat) returns (res: FResult)
    requires ZeroWindow(fs) && fs.winsect == first + n < |fs.disk.sectors| && !IsMirror(fs.geo, first + n)
    requires PartCleared(v, fs.Logical(), first, n)
    modifies fs, fs.disk
    ensures fs.Valid() && fs.winsect == first + n && PartCleared(v, fs.Logical(), first, n + 1)
    ensures res == FrOk ==> ZeroWindow(fs)
    ensures res == FrOk || res == FrDiskErr
    ensures fs.disk.reliable ==> res == FrOk
  {
    hide FileSystem.Mirrored, View, ViewAt, Mounted, HasFat, EntryRange, Zeros, Fat, IsMirror;
    OneMoreCleared(v, fs.Logical(), first, n);
    MarkDirty(fs, fs.win[..], fs.Logical());
    res := fs.SyncWindow();
  }

  /** Flushes the window and fills a cluster, given by its first sector, with zeros. */
  method ClearCluster(fs: FileSystem, first: nat, ghost c: nat) returns (res: FResult)
    requires fs.Valid() && c >= 2 && first == ClusterSector(fs.geo, c) && first + fs.geo.csize <= |fs.Logical()|
    modifies fs, fs.disk, fs.win
    ensures fs.Valid() && fs.Table() == old(fs.Table()) && |fs.Logical()| == |old(fs.Logical())|
    ensures forall s :: 0 <= s < |fs.Logical()| && !InCluster(fs.geo, c, s) ==> fs.Logical()[s] == old(fs.Logical())[s]
    ensures res == FrOk ==> ClusterCleared(fs.geo, old(fs.Logical()), fs.Logical(), c)
    ensures res == FrOk || res == FrDiskErr
    ensures fs.disk.reliable ==> res == FrOk
  {
    hide FileSystem.Mirrored, View, ViewAt, Mounted, HasFat, EntryRange, Zeros, ClusterSector, Fat, Overlay;
    hide PartCleared, ClusterCleared, IsMirror, MirrorsAgree;
    ghost var g, v := fs.geo, fs.Logical();
    BehindFat(g, v, v, c);
    NothingCleared(v, first);
    res := fs.SyncWindow();
    if res != FrOk { return; }
    ghost var was, ws := fs.win[..], fs.winsect;
    MemCpy(fs.win, 0, Zeros(SECTOR_SIZE));
    OverlayZeros(was);
    CleanView(g, fs.disk.sectors, ws, was, first, fs.win[..]);
    fs.winsect := first;
    var n := 0;
    while n < fs.geo.csize
      invariant 0 <= n <= fs.geo.csize && ZeroWindow(fs) && fs.winsect == first + n && res == FrOk
      invariant PartCleared(v, fs.Logical(), first, n) && |fs.disk.sectors| == |v|
    {
      assert InCluster(g, c, first + n);
      res := ClearSector(fs, v, first, n);
      ClearedSoFar(g, v, fs.Logical(), c, n + 1);
      if res != FrOk {
        BehindFat(g, v, fs.Logical(), c);
        return;
      }
      CleanView(g, fs.disk.sectors, fs.winsect, fs.win[..], fs.winsect + 1, fs.win[..]);
      n, fs.winsect := n + 1, fs.winsect + 1;
    }
    CleanView(g, fs.disk.sectors, fs.winsect, fs.win[..], fs.winsect - n, fs.win[..]);
    fs.winsect := fs.winsect - n;
    ClearedSoFar(g, v, fs.Logical(), c, n);
    FirstIsZero(g, v, fs.disk.sectors, fs.win[..], c);
    BehindFat(g, v, fs.Logical(), c);
  }

  /** The first sector of a cleared cluster is zero on the disk too. */
  lemma FirstIsZero(g: Geometry, v: seq<Sector>, secs: seq<Sector>, win: Sector, c: nat)
    requires c >= 2 && g.csize > 0 && ClusterSector(g, c) < |secs| && !IsMirror(g, ClusterSector(g, c))
    requires ClusterCleared(g, v, View(g, secs, false, ClusterSector(g, c), win), c)
    ensures secs[ClusterSector(g, c)] == Zeros(SECTOR_SIZE)
  {
    hide Zeros, ClusterSector, View;
    CleanAt(g, secs, ClusterSector(g, c), win, ClusterSector(g, c));
    assert InCluster(g, c, ClusterSector(g, c));
  }

  /** DIR */
  class DirObject {
    const fs: FileSystem
    const sclust: nat
    var dptr: nat
    var clust: nat
    var sect: nat

    constructor (fs: FileSystem, sclust: nat)
      ensures this.fs == fs && this.sclust == sclust
    {
      this.fs, this.sclust := fs, sclust;
      dptr, clust, sect := 0, 0, 0;
    }

    ghost predicate Valid(chain: seq<nat>)
      reads this, fs, fs.disk, fs.win
      ensures Valid(chain) ==> fs.Valid() && fs.geo.csize > 0 && Clusters(fs.geo, chain) && fs.geo.nRootdir % 16 == 0
      ensures Valid(chain) ==> ChainOf(fs.Table(), StartCluster(fs.geo, sclust), chain)
      ensures Valid(chain) && chain == [] ==> fs.geo.dirbase > 0
      ensures Valid(chain) ==> fs.geo.database > 0
    {
      && fs.Valid() && fs.geo.csize > 0 && Clusters(fs.geo, chain) && fs.geo.nRootdir % 16 == 0
      && ChainOf(fs.Table(), StartCluster(fs.geo, sclust), chain)
      && (chain == [] ==> fs.geo.dirbase > 0) && fs.geo.database > 0
    }

    /** The object stands at entry `ofs`. */
    ghost predicate At(chain: seq<nat>, ofs: nat)
      reads this, fs, fs.disk, fs.win
      ensures At(chain, ofs) ==> dptr == ofs && Valid(chain) && InDirectory(fs.geo, chain, ofs)
    {
      Valid(chain) && InDirectory(fs.geo, chain, ofs) && Place(clust, sect, dptr) == PlaceOf(fs.geo, chain, ofs)
    }

    /** The volume is as it was, whatever has happened to the window. */
    twostate predicate Undisturbed()
      reads fs, fs.disk, fs.win
    {
      fs.Valid() && old(fs.Valid()) && fs.Logical() == old(fs.Logical()) && fs.Table() == old(fs.Table())
    }

    /** dir_sdi */
    method SetIndex(ofs: nat, ghost chain: seq<nat>) returns (res: FResult)
      requires Valid(chain)
      modifies this, fs, fs.disk, fs.win
      ensures Undisturbed() && Valid(chain)
      ensures res == FrOk ==> At(chain, ofs)
      ensures res == FrOk || res == FrDiskErr || (res == FrIntErr && !InDirectory(fs.geo, chain, ofs))
      ensures fs.disk.reliable ==> res != FrDiskErr
    {
      hide FileSystem.Valid, FileSystem.Logical, FileSystem.Table, FileSystem.Mirrored, Clusters, ChainOf, PlaceOf;
      hide ClusterIndex, IsChain;
      if ofs >= MAX_DIR || ofs % SZDIRE != 0 { return FrIntErr; }
      dptr := ofs;
      var clst := sclust;
      if clst == 0 && fs.geo.fsType == Fat32 { clst := fs.geo.dirbase; }
      ChainCase(fs.Table(), clst, chain);
      if clst == 0 {
        if ofs / SZDIRE >= fs.geo.nRootdir { return FrIntErr; }
        sect, clust := fs.geo.dirbase, clst;
        if sect == 0 { return FrIntErr; }
        sect := sect + ofs / SECTOR_SIZE;
        StaticPlace(fs.geo, chain, ofs);
        res := FrOk;
      } else {
        var rest: nat;
        ghost var i: nat;
        res, clst, rest, i := Follow(fs, clst, ofs, chain);
        if res != FrOk { return; }
        DynamicPlace(fs.geo, chain, ofs, i, rest);
        sect, clust := Clust2Sect(fs.geo, clst), clst;
        if sect == 0 { return FrIntErr; }
        sect := sect + rest / SECTOR_SIZE;
      }
    }

    /** The object stands at the last entry of the last cluster, and more may follow. */
    ghost predicate AtEdge(chain: seq<nat>)
      reads this, fs, fs.disk, fs.win
      ensures AtEdge(chain) ==> chain != [] && Valid(chain) && clust == chain[|chain| - 1]
    {
      && Valid(chain) && InDirectory(fs.geo, chain, dptr) && dptr + SZDIRE < MAX_DIR
      && chain != [] && clust == chain[|chain| - 1] && ClusterIndex(fs.geo, dptr) == |chain| - 1
      && (dptr + SZDIRE) % SECTOR_SIZE == 0 && SlotOf(fs.geo, (dptr + SZDIRE) / SECTOR_SIZE) == 0
    }

    /** dir_next, up to the end of a chain */
    method Step(ghost chain: seq<nat>) returns (res: FResult, edge: bool)
      requires At(chain, dptr)
      modifies this, fs, fs.disk, fs.win
      ensures Undisturbed() && Valid(chain)
      ensures res == FrOk ==> if edge then dptr == old(dptr) && AtEdge(chain) else At(chain, old(dptr) + SZDIRE)
      ensures res == FrOk || res == FrDiskErr
              || (res == FrNoFile && !InDirectory(fs.geo, chain, old(dptr) + SZDIRE)
                  && (chain == [] || old(dptr) + SZDIRE >= MAX_DIR))
      ensures fs.disk.reliable ==> res != FrDiskErr
    {
      hide FileSystem.Valid, FileSystem.Logical, FileSystem.Table, FileSystem.Mirrored, Clusters, ChainOf, PlaceOf;
      hide ClusterIndex, IsChain, SlotOf;
      edge := false;
      PlacePositive(fs.geo, chain, dptr);
      var ofs := dptr + SZDIRE;
      if sect == 0 || ofs >= MAX_DIR { return FrNoFile, false; }
      ChainCase(fs.Table(), StartCluster(fs.geo, sclust), chain);
      if ofs % SECTOR_SIZE != 0 {
        NextInSector(fs.geo, chain, dptr);
      } else if clust == 0 {
        NextInTable(fs.geo, dptr);
        sect := sect + 1;
        if ofs / SZDIRE >= fs.geo.nRootdir {
          sect := 0;
          return FrNoFile, false;
        }
      } else if SlotOf(fs.geo, ofs / SECTOR_SIZE) != 0 {
        NextInCluster(fs.geo, chain, dptr);
        sect := sect + 1;
      } else {
        NextInChain(fs.geo, chain, dptr);
        sect := sect + 1;
        res, edge := NextOfChain(chain);
        if res != FrOk || edge { return; }
      }
      dptr := ofs;
      res := FrOk;
    }

    /** Cluster changed: on to the next cluster of the chain, unless this was the last one */
    method NextOfChain(ghost chain: seq<nat>) returns (res: FResult, edge: bool)
      requires Valid(chain) && InDirectory(fs.geo, chain, dptr) && chain != []
      requires clust == chain[ClusterIndex(fs.geo, dptr)]
      modifies this, fs, fs.disk, fs.win
      ensures Undisturbed() && Valid(chain) && dptr == old(dptr)
      ensures var i := ClusterIndex(fs.geo, dptr);
              && (res == FrOk && !edge ==>
                    i + 1 < |chain| && clust == chain[i + 1] && sect == Clust2Sect(fs.geo, clust))
              && (res == FrOk && edge ==> i + 1 == |chain| && clust == old(clust))
      ensures res == FrOk || res == FrDiskErr
      ensures fs.disk.reliable ==> res != FrDiskErr
    {
      hide FileSystem.Valid, FileSystem.Logical, FileSystem.Table, FileSystem.Mirrored, Clusters, PlaceOf, ClusterIndex;
      hide IsChain;
      ghost var i := ClusterIndex(fs.geo, dptr);
      ChainCase(fs.Table(), StartCluster(fs.geo, sclust), chain);
      MemberStep(fs.Table(), chain, i);
      MemberIn(fs.Table(), chain, i);
      if i + 1 < |chain| { MemberIn(fs.Table(), chain, i + 1); }
      edge := false;
      var clst := fs.GetFat(clust);
      if clst <= 1 { return FrIntErr, false; }
      if clst == DISK_ERROR { return FrDiskErr, false; }
      if clst >= fs.geo.nFatent { return FrOk, true; }
      clust, sect := clst, Clust2Sect(fs.geo, clst);
      res := FrOk;
    }

    /** dir_next without stretching: the end of the directory is reported as no file. */
    method Next(ghost chain: seq<nat>) returns (res: FResult)
      requires At(chain, dptr)
      modifies this, fs, fs.disk, fs.win
      ensures Undisturbed() && Valid(chain)
      ensures res == FrOk ==> At(chain, old(dptr) + SZDIRE)
      ensures res == FrOk || res == FrDiskErr || (res == FrNoFile && !InDirectory(fs.geo, chain, old(dptr) + SZDIRE))
      ensures fs.disk.reliable ==> res != FrDiskErr
    {
      hide FileSystem.Valid, FileSystem.Logical, FileSystem.Table, FileSystem.Mirrored, Clusters, ChainOf, PlaceOf;
      hide ClusterIndex, IsChain, SlotOf;
      var edge;
      res, edge := Step(chain);
      if res == FrOk && edge {
        NextInChain(fs.geo, chain, dptr);
        sect := 0;
        res := FrNoFile;
      }
    }

    /** dir_next with stretching: behind the last cluster a new one, all zero, is put into the chain. */
    method NextStretch(ghost chain: seq<nat>) returns (res: FResult, ghost more: seq<nat>)
      requires At(chain, dptr) && DataFits(fs.geo, |fs.Logical()|)
      modifies this, fs, fs.disk, fs.win
      ensures fs.Valid()
      ensures res == FrOk ==> At(more, old(dptr) + SZDIRE) && (chain == [] ==> more == [])
      ensures res == FrDenied || res == FrNoFile ==>
                more == chain && Valid(chain) && !InDirectory(fs.geo, chain, old(dptr) + SZDIRE)
      ensures res == FrOk || res == FrDenied || res == FrNoFile ==>
                Extended(fs.geo, old(fs.Table()), old(fs.Logical()), chain, fs.Table(), fs.Logical(), more)
      ensures res == FrDenied ==> NoHole(fs.Table())
      ensures res == FrNoFile ==> chain == [] || old(dptr) + SZDIRE >= MAX_DIR
      ensures res == FrIntErr ==> !NoReserved(fs.Table())
      ensures UsedKept(fs.geo, old(fs.Table()), old(fs.Logical()), fs.Logical())
      ensures fs.disk.reliable ==> res != FrDiskErr
    {
      hide FileSystem.Valid, FileSystem.Logical, FileSystem.Table, FileSystem.Mirrored, Clusters, ChainOf, PlaceOf;
      hide ClusterIndex, IsChain, SlotOf, DataFits, Extended, UsedKept, NoHole, NoReserved;
      more := chain;
      KeptItself(fs.geo, fs.Table(), fs.Logical());
      ExtendedItself(fs.geo, fs.Table(), fs.Logical(), fs.Logical(), chain);
      ghost var v := fs.Logical();
      var edge;
      res, edge := Step(chain);
      if res == FrOk && edge {
        NextInChain(fs.geo, chain, dptr);
        res, more := Stretch(chain);
        if res == FrOk {
          EdgePlace(fs.geo, chain, more, dptr);
          dptr := dptr + SZDIRE;
        } else if res == FrDenied {
          more := chain;
          ExtendedItself(fs.geo, fs.Table(), v, fs.Logical(), chain);
        }
      }
    }

    /** The end of dir_next: allocate a cluster, clear it, and go there. */
    method Stretch(ghost chain: seq<nat>) returns (res: FResult, ghost more: seq<nat>)
      requires AtEdge(chain) && DataFits(fs.geo, |fs.Logical()|)
      modifies this, fs, fs.disk, fs.win
      ensures fs.Valid() && dptr == old(dptr)
      ensures res == FrOk ==>
                && Extended(fs.geo, old(fs.Table()), old(fs.Logical()), chain, fs.Table(), fs.Logical(), more)
                && Valid(more) && |more| == |chain| + 1 && clust == more[|chain|] && sect == Clust2Sect(fs.geo, clust)
      ensures res == FrDenied ==> NoHole(fs.Table()) && fs.Table() == old(fs.Table()) && Valid(chain)
      ensures res == FrDenied ==> SameOutsideFat(fs.geo, old(fs.Logical()), fs.Logical())
      ensures res == FrIntErr ==> !NoReserved(fs.Table())
      ensures res == FrOk || res == FrDenied || res == FrIntErr || res == FrDiskErr
      ensures UsedKept(fs.geo, old(fs.Table()), old(fs.Logical()), fs.Logical())
      ensures fs.disk.reliable ==> res != FrDiskErr
    {
      hide FileSystem.Valid, FileSystem.Logical, FileSystem.Table, FileSystem.Mirrored, Clusters, ChainOf, PlaceOf;
      hide ClusterIndex, IsChain, SlotOf, DataFits, Extended, UsedKept, NoHole, NoReserved, Created, Reached;
      hide SameOutsideFat, Grows, InDirectory, ClusterSector, ClusterCleared;
      ghost var g, fat, v, start := fs.geo, fs.Table(), fs.Logical(), StartCluster(fs.geo, sclust);
      ghost var hint := fs.lastClst;
      more := chain;
      ChainCase(fat, start, chain);
      var clst := fs.CreateChain(clust);
      ghost var after, w := fs.Table(), fs.Logical();
      FatOnlyKept(g, fat, v, w);
      if clst == DISK_ERROR { return FrDiskErr, chain; }
      CreatedOnChain(fat, chain, start, |chain|, hint, EndMark(g.fsType), clst, after);
      ReachedGrows(fat, start, chain, |chain|, clst, after);
      if clst == 0 { return FrDenied, chain; }
      if clst == 1 { return FrIntErr, chain; }
      more := ChainReached(chain, |chain|, clst);
      NewCluster(g, fat, after, start, chain, more, clst, |w|);
      res := ClearCluster(fs, Clust2Sect(fs.geo, clst), clst);
      ClearedKept(g, fat, v, w, fs.Logical(), clst);
      if res != FrOk { return; }
      ExtendedByOne(g, fat, v, chain, after, w, fs.Logical(), more, clst);
      clust, sect := clst, Clust2Sect(fs.geo, clst);
    }

    /**
     * Rewinding and stepping `k` times leads to the same cluster, sector and
     * offset as dir_sdi for entry `k`, or to the same end of the directory.
     */
    method Walk(k: nat, ghost chain: seq<nat>) returns (res: FResult)
      requires Valid(chain)
      modifies this, fs, fs.disk, fs.win
      ensures Undisturbed() && Valid(chain)
      ensures res == FrOk ==> At(chain, SZDIRE * k)
      ensures fs.disk.reliable ==> (res == FrOk <==> InDirectory(fs.geo, chain, SZDIRE * k))
    {
      hide FileSystem.Valid, FileSystem.Logical, FileSystem.Table, FileSystem.Mirrored, Clusters, ChainOf, PlaceOf;
      hide ClusterIndex, IsChain;
      res := SetIndex(0, chain);
      var i := 0;
      if res != FrOk { EarlierInside(fs.geo, chain, 0, SZDIRE * k); }
      while res == FrOk && i < k
        invariant 0 <= i <= k && Undisturbed() && Valid(chain)
        invariant res == FrOk ==> At(chain, SZDIRE * i) && dptr == SZDIRE * i
        invariant fs.disk.reliable && res != FrOk ==> !InDirectory(fs.geo, chain, SZDIRE * k)
        decreases k - i
      {
        res := Next(chain);
        i := i + 1;
        if res != FrOk { EarlierInside(fs.geo, chain, SZDIRE * i, SZDIRE * k); }
      }
    }

    lemma ChainCase(fat: seq<nat>, start: nat, chain: seq<nat>)
      requires ChainOf(fat, start, chain)
      ensures start == 0 <==> chain == []
      ensures start != 0 ==> chain[0] == start && IsChain(fat, chain)
    {
    }
  }

  /** A place is never sector 0, and only a static table has cluster 0. */
  lemma PlacePositive(g: Geometry, chain: seq<nat>, ofs: nat)
    requires g.csize > 0 && Clusters(g, chain) && InDirectory(g, chain, ofs) && g.database > 0
    requires (chain == [] ==> g.dirbase > 0)
    ensures PlaceOf(g, chain, ofs).sect > 0 && (PlaceOf(g, chain, ofs).clust == 0 <==> chain == [])
    ensures PlaceOf(g, chain, ofs).ofs == ofs
  {
    ClusterIndexIs(g, ofs);
  }

  /** Whoever is in the directory has all earlier entries before him. */
  lemma EarlierInside(g: Geometry, chain: seq<nat>, a: nat, b: nat)
    requires g.csize > 0 && a <= b && a % SZDIRE == 0
    ensures InDirectory(g, chain, b) ==> InDirectory(g, chain, a)
  {
    ClusterIndexMonotone(g, a, b);
    hide ClusterIndex;
  }

  lemma StaticPlace(g: Geometry, chain: seq<nat>, ofs: nat)
    requires g.csize > 0 && Clusters(g, chain) && InDirectory(g, chain, ofs) && chain == []
    ensures PlaceOf(g, chain, ofs) == Place(0, g.dirbase + ofs / SECTOR_SIZE, ofs)
  {
  }

  /** The entry `rest` bytes into the cluster at position `i` of the chain */
  lemma DynamicPlace(g: Geometry, chain: seq<nat>, ofs: nat, i: nat, rest: nat)
    requires g.csize > 0 && Clusters(g, chain) && i < |chain| && ofs % SZDIRE == 0 && ofs < MAX_DIR && g.database > 0
    requires SectorCount(g, i) * SECTOR_SIZE + rest == ofs && rest < ClusterBytes(g)
    ensures InDirectory(g, chain, ofs) && Clust2Sect(g, chain[i]) > 0
    ensures PlaceOf(g, chain, ofs) == Place(chain[i], Clust2Sect(g, chain[i]) + rest / SECTOR_SIZE, ofs)
  {
    InClusterAt(g, i, rest);
    ClusterIndexIs(g, ofs);
    hide SectorCount, ClusterOf, SlotOf, ClusterBytes, ClusterIndex;
  }

  /** A position behind the last cluster of a chain is not in the directory. */
  lemma BehindChain(g: Geometry, chain: seq<nat>, ofs: nat)
    requires g.csize > 0 && chain != [] && ofs >= SectorCount(g, |chain|) * SECTOR_SIZE
    ensures !InDirectory(g, chain, ofs)
  {
    ClusterIndexIs(g, ofs);
    if ClusterIndex(g, ofs) < |chain| {
      Scale(ClusterIndex(g, ofs) + 1, |chain|, g.csize);
    }
  }

  /** Follow cluster chain */
  method Follow(fs: FileSystem, clst0: nat, ofs0: nat, ghost chain: seq<nat>)
    returns (res: FResult, clst: nat, ofs: nat, ghost i: nat)
    requires fs.Valid() && fs.geo.csize > 0 && IsChain(fs.Table(), chain) && chain[0] == clst0
    modifies fs, fs.disk, fs.win
    ensures fs.Valid() && fs.Logical() == old(fs.Logical()) && fs.Table() == old(fs.Table())
    ensures fs.freeClst == old(fs.freeClst) && fs.lastClst == old(fs.lastClst)
    ensures res == FrOk || res == FrDiskErr || (res == FrIntErr && !InDirectory(fs.geo, chain, ofs0))
    ensures res == FrOk ==>
              && i < |chain| && clst == chain[i] && SectorCount(fs.geo, i) * SECTOR_SIZE + ofs == ofs0
              && ofs < ClusterBytes(fs.geo)
    ensures fs.disk.reliable ==> res != FrDiskErr
  {
    hide FileSystem.Valid, FileSystem.Logical, FileSystem.Table, FileSystem.Mirrored, SectorCount, ClusterBytes;
    hide IsChain, InDirectory;
    ghost var fat := fs.Table();
    clst, ofs, i := clst0, ofs0, 0;
    var csz := ClusterBytes(fs.geo);
    CountStep(fs.geo, 0);
    CsizeBytes(fs.geo);
    ChainStart(fat, chain);
    while ofs >= csz
      invariant fs.Valid() && fs.Logical() == old(fs.Logical()) && fs.Table() == fat
      invariant fs.freeClst == old(fs.freeClst) && fs.lastClst == old(fs.lastClst)
      invariant i < |chain| && clst == chain[i] && SectorCount(fs.geo, i) * SECTOR_SIZE + ofs == ofs0
      decreases ofs
    {
      MemberStep(fat, chain, i);
      MemberIn(fat, chain, i);
      CountStep(fs.geo, i);
      if i == |chain| - 1 { BehindChain(fs.geo, chain, ofs0); } else { MemberIn(fat, chain, i + 1); }
      clst := fs.GetFat(clst);
      if clst == DISK_ERROR { return FrDiskErr, clst, ofs, i; }
      if clst < 2 || clst >= fs.geo.nFatent { return FrIntErr, clst, ofs, i; }
      ofs, i := ofs - csz, i + 1;
    }
    res := FrOk;
  }

  lemma CsizeBytes(g: Geometry)
    ensures ClusterBytes(g) == g.csize * SECTOR_SIZE
  {
  }

  lemma ChainStart(fat: seq<nat>, chain: seq<nat>)
    requires IsChain(fat, chain)
    ensures chain != []
  {
  }

  lemma MemberIn(fat: seq<nat>, chain: seq<nat>, i: nat)
    requires IsChain(fat, chain) && i < |chain|
    ensures 2 <= chain[i] < |fat|
  {
  }
}
