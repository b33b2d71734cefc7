/** dir_alloc and the end of dir_register: a name goes into free entries only, and the directory grows for it. */
module DirectoryGrowth {
  import opened Base
  import opened FatTable
  import opened Chains
  import F = FileData
  import opened Volume
  import opened LongNames
  import opened DirectoryItems
  import opened Directory
  import opened DirectoryRegion
  import opened DirectorySearch

  /* The bytes of a directory that grows */

  /** `t` is `r` with zeros behind it. */
  predicate Lengthened(r: seq<byte>, t: seq<byte>)
  {
    r <= t && forall i :: |r| <= i < |t| ==> t[i] == 0
  }

  /** A sector belongs to one cluster at most. */
  lemma SameCluster(g: Geometry, c: nat, d: nat, s: int)
    requires c >= 2 && d >= 2 && F.InCluster(g, c, s) && F.InCluster(g, d, s)
    ensures c == d
  {
    if c < d {
      F.ClustersApart(g, c, d);
    } else if d < c {
      F.ClustersApart(g, d, c);
    }
    hide F.ClusterSector;
  }

  /** The sector of an entry belongs to the cluster of its place. */
  lemma EntryCluster(g: Geometry, chain: seq<nat>, ofs: nat)
    requires g.csize > 0 && F.Clusters(g, chain) && InDirectory(g, chain, ofs) && chain != []
    ensures F.ClusterIndex(g, ofs) < |chain|
    ensures F.InCluster(g, chain[F.ClusterIndex(g, ofs)], PlaceOf(g, chain, ofs).sect)
  {
    F.ClusterIndexIs(g, ofs);
    F.DataSectorOnChain(g, chain, ofs / SECTOR_SIZE);
    hide F.ClusterIndex, F.ClusterSector, F.DataSector, F.ClusterOf;
  }

  /** An old entry keeps its place, and the sector there keeps its bytes. */
  lemma OldEntry(g: Geometry, fat: seq<nat>, v: seq<Sector>, chain: seq<nat>, after: seq<nat>, w: seq<Sector>,
                 more: seq<nat>, ofs: nat)
    requires g.csize > 0 && F.Clusters(g, chain) && Extended(g, fat, v, chain, after, w, more)
    requires Inside(g, chain, |v|) && (chain == [] ==> more == []) && InDirectory(g, chain, ofs)
    ensures InDirectory(g, more, ofs) && PlaceOf(g, more, ofs) == PlaceOf(g, chain, ofs)
    ensures PlaceOf(g, chain, ofs).sect < |v| && w[PlaceOf(g, chain, ofs).sect] == v[PlaceOf(g, chain, ofs).sect]
  {
    F.ClusterIndexIs(g, ofs);
    var s := PlaceOf(g, chain, ofs).sect;
    assert SectorInside(g, s, |v|);
    hide F.ClusterIndex, F.DataSector, F.ClusterOf, Grows, Inside;
    if chain != [] {
      EntryCluster(g, chain, ofs);
      hide InDirectory, PlaceOf;
      OldSector(g, chain, more, F.ClusterIndex(g, ofs), s);
    }
  }

  lemma OldSector(g: Geometry, chain: seq<nat>, more: seq<nat>, i: nat, s: nat)
    requires F.Clusters(g, more) && chain <= more && i < |chain| && F.InCluster(g, chain[i], s)
    ensures !OnNew(g, more, |chain|, s)
  {
    hide F.InCluster;
    if OnNew(g, more, |chain|, s) {
      var j :| |chain| <= j < |more| && F.InCluster(g, more[j], s);
      SameCluster(g, more[i], more[j], s);
    }
  }

  /** A new entry is zero. */
  lemma NewEntry(g: Geometry, fat: seq<nat>, v: seq<Sector>, chain: seq<nat>, after: seq<nat>, w: seq<Sector>,
                 more: seq<nat>, ofs: nat)
    requires g.csize > 0 && F.Clusters(g, chain) && Extended(g, fat, v, chain, after, w, more)
    requires chain == [] ==> more == []
    requires InDirectory(g, more, ofs) && !InDirectory(g, chain, ofs)
    ensures PlaceOf(g, more, ofs).sect < |w| ==> w[PlaceOf(g, more, ofs).sect] == Zeros(SECTOR_SIZE)
  {
    EntryCluster(g, more, ofs);
    hide PlaceOf, F.Clusters, F.InCluster, Grows, F.ClusterIndex;
    assert OnNew(g, more, |chain|, PlaceOf(g, more, ofs).sect);
  }

  lemma GrownByte(g: Geometry, fat: seq<nat>, v: seq<Sector>, chain: seq<nat>, after: seq<nat>, w: seq<Sector>,
                  more: seq<nat>, i: nat)
    requires g.csize > 0 && F.Clusters(g, chain) && Extended(g, fat, v, chain, after, w, more)
    requires Inside(g, chain, |v|) && (chain == [] ==> more == [])
    ensures DirByte(g, w, more, i)
         == if InDirectory(g, chain, i - i % SZDIRE) then DirByte(g, v, chain, i) else 0
  {
    hide PlaceOf, InDirectory, F.Clusters, Extended, Inside, Zeros;
    var ofs := i - i % SZDIRE;
    if InDirectory(g, chain, ofs) {
      OldEntry(g, fat, v, chain, after, w, more, ofs);
    } else if InDirectory(g, more, ofs) {
      NewEntry(g, fat, v, chain, after, w, more, ofs);
    }
  }

  /** A directory that has grown has its old entries, and zeros behind them. */
  lemma GrownRegion(g: Geometry, fat: seq<nat>, v: seq<Sector>, chain: seq<nat>, after: seq<nat>, w: seq<Sector>,
                    more: seq<nat>)
    requires g.csize > 0 && F.Clusters(g, chain) && Extended(g, fat, v, chain, after, w, more)
    requires Inside(g, chain, |v|) && (chain == [] ==> more == [])
    ensures Lengthened(Region(g, v, chain), Region(g, w, more))
  {
    hide InDirectory, F.Clusters, Extended, Inside, DirByte, LengthFrom;
    var r, t := Region(g, v, chain), Region(g, w, more);
    if |t| < |r| {
      LengthIs(g, chain, 0, |t|);
      LengthIs(g, more, 0, |t|);
      OldEntry(g, fat, v, chain, after, w, more, |t|);
    }
    forall i | 0 <= i < |t|
      ensures t[i] == if i < |r| then r[i] else 0
    {
      GrownByte(g, fat, v, chain, after, w, more, i);
      LengthIs(g, chain, 0, i - i % SZDIRE);
      InOrBehind(i, |r|);
    }
  }

  lemma InOrBehind(i: nat, n: nat)
    requires n % SZDIRE == 0
    ensures (i - i % SZDIRE) % SZDIRE == 0 && (i - i % SZDIRE < n <==> i < n)
  {
  }

  /** What is extended twice is extended. */
  lemma ExtendedTwice(g: Geometry, start: nat, a: seq<nat>, u: seq<Sector>, x: seq<nat>, b: seq<nat>, v: seq<Sector>,
                      y: seq<nat>, c: seq<nat>, w: seq<Sector>, z: seq<nat>)
    requires Extended(g, a, u, x, b, v, y) && Extended(g, b, v, y, c, w, z) && ChainOf(b, start, y)
    requires forall s :: OnNew(g, y, |x|, s) ==> !InFat(g, s)
    ensures Extended(g, a, u, x, c, w, z)
  {
    GrowsTransitive(a, b, c, start, x, y, z);
    hide Grows, F.InCluster, InFat, Zeros;
    forall s | 0 <= s < |u|
      ensures OnNew(g, z, |x|, s) <==> OnNew(g, y, |x|, s) || OnNew(g, z, |y|, s)
      ensures OnNew(g, y, |x|, s) ==> !OnNew(g, z, |y|, s)
    {
      NewInTwo(g, x, y, z, s);
    }
  }

  lemma NewInTwo(g: Geometry, x: seq<nat>, y: seq<nat>, z: seq<nat>, s: nat)
    requires F.Clusters(g, y) && F.Clusters(g, z) && x <= y <= z
    ensures OnNew(g, z, |x|, s) <==> OnNew(g, y, |x|, s) || OnNew(g, z, |y|, s)
    ensures OnNew(g, y, |x|, s) ==> !OnNew(g, z, |y|, s)
  {
    hide F.InCluster;
    if OnNew(g, y, |x|, s) {
      var i :| |x| <= i < |y| && F.InCluster(g, y[i], s);
      assert z[i] == y[i];
      OldSector(g, y, z, i, s);
    }
    if OnNew(g, z, |x|, s) {
      var i :| |x| <= i < |z| && F.InCluster(g, z[i], s);
      if i < |y| { assert y[i] == z[i]; }
    }
  }

  /* dir_alloc */

  /** Entry number `k` is free: never used, or deleted. */
  predicate IsFree(r: seq<byte>, k: nat)
  {
    ENTRY * k + ENTRY <= |r| && (r[ENTRY * k] == 0 || r[ENTRY * k] == DDEM)
  }

  /** `n` entries from number `i` on are free. */
  predicate FreeRun(r: seq<byte>, i: nat, n: nat)
  {
    forall k :: i <= k < i + n ==> IsFree(r, k)
  }

  /** There are not `nent` free entries in a row before entry `end`. */
  ghost predicate NoRun(r: seq<byte>, nent: nat, end: nat)
  {
    forall i :: 0 <= i <= end - nent ==> !FreeRun(r, i, nent)
  }

  /** Exactly `n` free entries are before entry `k`, fewer than are looked for, and there was no run yet. */
  ghost predicate Counted(r: seq<byte>, nent: nat, k: nat, n: nat)
  {
    && n < nent && n <= k && FreeRun(r, k - n, n) && (n < k ==> !IsFree(r, k - n - 1)) && NoRun(r, nent, k)
  }

  lemma CountedNone(r: seq<byte>, nent: nat)
    requires nent > 0
    ensures Counted(r, nent, 0, 0)
  {
  }

  /** Another free entry completes the run, or makes it longer. */
  lemma CountFree(r: seq<byte>, nent: nat, k: nat, n: nat)
    requires Counted(r, nent, k, n) && IsFree(r, k)
    ensures n <= k && FreeRun(r, k - n, n + 1) && NoRun(r, nent, k)
    ensures n + 1 < nent ==> Counted(r, nent, k + 1, n + 1)
  {
    hide IsFree;
    if n + 1 < nent {
      forall i | 0 <= i <= k + 1 - nent
        ensures !FreeRun(r, i, nent)
      {
        if i == k + 1 - nent {
          BrokenRun(r, i, nent, k - n - 1);
        }
      }
    }
  }

  lemma BrokenRun(r: seq<byte>, i: nat, n: nat, x: nat)
    requires i <= x < i + n && !IsFree(r, x)
    ensures !FreeRun(r, i, n)
  {
  }

  /** A used entry starts the count again. */
  lemma CountUsed(r: seq<byte>, nent: nat, k: nat, n: nat)
    requires Counted(r, nent, k, n) && !IsFree(r, k)
    ensures Counted(r, nent, k + 1, 0)
  {
    hide IsFree;
    forall i | 0 <= i <= k + 1 - nent
      ensures !FreeRun(r, i, nent)
    {
      if i == k + 1 - nent {
        BrokenRun(r, i, nent, k);
      }
    }
  }

  /** What has been counted stays counted when the directory grows. */
  lemma CountedLonger(r: seq<byte>, t: seq<byte>, nent: nat, k: nat, n: nat)
    requires Counted(r, nent, k, n) && Lengthened(r, t) && ENTRY * k <= |r|
    ensures Counted(t, nent, k, n)
  {
    forall e | 0 <= e < k
      ensures IsFree(t, e) <==> IsFree(r, e)
    {
    }
    hide IsFree;
    forall i | 0 <= i <= k - nent
      ensures !FreeRun(t, i, nent)
    {
      assert !FreeRun(r, i, nent);
    }
  }

  /** The directory of the object, all of it inside the volume */
  ghost predicate Open(d: DirObject, chain: seq<nat>)
    reads d, d.fs, d.fs.disk, d.fs.win
    ensures Open(d, chain) ==> d.Valid(chain) && d.fs.geo.nFatent >= 2
  {
    && d.Valid(chain) && d.fs.geo.nFatent >= 2 && Inside(d.fs.geo, chain, |d.fs.Logical()|)
    && F.DataFits(d.fs.geo, |d.fs.Logical()|)
  }

  /** The directory had `chain` on the volume `v`, has grown to `more`, and nothing else has happened. */
  ghost predicate Since(d: DirObject, fat: seq<nat>, v: seq<Sector>, chain: seq<nat>, more: seq<nat>)
    reads d, d.fs, d.fs.disk, d.fs.win
    ensures Since(d, fat, v, chain, more) ==> Open(d, more)
  {
    && Open(d, more) && (chain == [] ==> more == [])
    && Extended(d.fs.geo, fat, v, chain, d.fs.Table(), d.fs.Logical(), more)
  }

  /** The bytes of the directory as they are now */
  ghost function Bytes(d: DirObject, chain: seq<nat>): (r: seq<byte>)
    requires d.Valid(chain)
    reads d, d.fs, d.fs.disk, d.fs.win
  {
    Region(d.fs.geo, d.fs.Logical(), chain)
  }

  /** A directory that has grown lies inside the volume. */
  lemma StillInside(g: Geometry, chain: seq<nat>, more: seq<nat>, size: nat)
    requires Mounted(g, size) && F.DataFits(g, size) && F.Clusters(g, chain) && F.Clusters(g, more)
    requires Inside(g, chain, size) && (chain == [] ==> more == []) && chain <= more
    ensures Inside(g, more, size)
  {
    hide Inside, F.DataFits, Mounted;
    if more != [] { ChainInside(g, more, size); }
  }

  lemma NewBehindFat(g: Geometry, chain: seq<nat>, n: nat, size: nat)
    requires Mounted(g, size) && F.Clusters(g, chain)
    ensures forall s :: OnNew(g, chain, n, s) ==> !InFat(g, s)
  {
    hide F.ClusterSector;
  }

  /** dir_next in dir_alloc, after `k + 1` entries of which the last `n` are free */
  method Onward(d: DirObject, ghost nent: nat, ghost k: nat, ghost n: nat, ghost fat: seq<nat>, ghost v: seq<Sector>,
                ghost chain: seq<nat>, ghost more: seq<nat>)
    returns (res: FResult, ghost longer: seq<nat>)
    requires Since(d, fat, v, chain, more) && d.At(more, d.dptr) && d.dptr == ENTRY * k
    requires Counted(Bytes(d, more), nent, k + 1, n) && ENTRY * k + ENTRY <= |Bytes(d, more)|
    modifies d, d.fs, d.fs.disk, d.fs.win
    ensures d.fs.Valid()
    ensures res == FrOk ==>
              && Since(d, fat, v, chain, longer) && d.At(longer, d.dptr) && d.dptr == ENTRY * (k + 1)
              && Counted(Bytes(d, longer), nent, k + 1, n)
    ensures res == FrDenied || res == FrNoFile ==>
              && Since(d, fat, v, chain, longer) && NoRun(Bytes(d, longer), nent, |Bytes(d, longer)| / ENTRY)
              && (NoHole(d.fs.Table()) || longer == [] || |Bytes(d, longer)| >= MAX_DIR)
    ensures res == FrIntErr ==> !NoReserved(d.fs.Table())
    ensures d.fs.disk.reliable ==> res != FrDiskErr
  {
    hide FileSystem.Valid, FileSystem.Logical, FileSystem.Table, FileSystem.Mirrored, F.Clusters, ChainOf, PlaceOf;
    hide Inside, F.DataFits, Region, InDirectory, DirObject.At, DirObject.Valid, Extended, UsedKept, NoHole, NoReserved;
    hide Counted, Mounted, InFat, OnNew, Lengthened;
    ghost var g, tb, vb := d.fs.geo, d.fs.Table(), d.fs.Logical();
    EntryPlace(g, more, d.dptr);
    res, longer := d.NextStretch(more);
    if res == FrOk || res == FrDenied || res == FrNoFile {
      GrownRegion(g, tb, vb, more, d.fs.Table(), d.fs.Logical(), longer);
      StillInside(g, more, longer, |vb|);
      NewBehindFat(g, more, |chain|, |vb|);
      ExtendedTwice(g, StartCluster(g, d.sclust), fat, v, chain, tb, vb, more, d.fs.Table(), d.fs.Logical(), longer);
      CountedLonger(Region(g, vb, more), Bytes(d, longer), nent, k + 1, n);
      if res != FrOk {
        EndOfRegion(g, d.fs.Logical(), longer, ENTRY * (k + 1));
        AllCounted(Bytes(d, longer), nent, k + 1, n);
      }
    }
  }

  /** Everything has been counted. */
  lemma AllCounted(r: seq<byte>, nent: nat, k: nat, n: nat)
    requires Counted(r, nent, k, n) && |r| <= ENTRY * k
    ensures NoRun(r, nent, |r| / ENTRY)
  {
    assert |r| / ENTRY <= k;
  }

  /**
   * dir_alloc: the object stands at the last of the first `nent` free entries in
   * a row, and the directory has grown for them if it had to.
   */
  method DirAlloc(d: DirObject, nent: nat, ghost chain: seq<nat>) returns (res: FResult, ghost more: seq<nat>)
    requires Open(d, chain) && nent > 0
    modifies d, d.fs, d.fs.disk, d.fs.win
    ensures d.fs.Valid()
    ensures res == FrOk || res == FrDenied ==> Since(d, old(d.fs.Table()), old(d.fs.Logical()), chain, more)
    ensures res == FrOk ==>
              var k := d.dptr / ENTRY;
              && d.At(more, d.dptr) && d.dptr == ENTRY * k && nent <= k + 1 && d.dptr + ENTRY <= |Bytes(d, more)|
              && FreeRun(Bytes(d, more), k + 1 - nent, nent) && NoRun(Bytes(d, more), nent, k)
    ensures res == FrDenied ==>
              && NoRun(Bytes(d, more), nent, |Bytes(d, more)| / ENTRY)
              && (NoHole(d.fs.Table()) || more == [] || |Bytes(d, more)| >= MAX_DIR)
    ensures res == FrIntErr ==> !InDirectory(d.fs.geo, chain, 0) || !NoReserved(d.fs.Table())
    ensures res != FrNoFile && (d.fs.disk.reliable ==> res != FrDiskErr)
  {
    hide FileSystem.Valid, FileSystem.Logical, FileSystem.Table, FileSystem.Mirrored, F.Clusters, ChainOf, PlaceOf;
    hide Inside, F.DataFits, Region, InDirectory, DirObject.At, DirObject.Valid, Extended, NoHole, NoReserved;
    hide Counted, Mounted, IsFree, FreeRun, NoRun;
    ghost var g, fat, v := d.fs.geo, d.fs.Table(), d.fs.Logical();
    more := chain;
    ExtendedItself(g, fat, v, v, chain);
    res := d.SetIndex(0, chain);
    if res != FrOk { return; }
    var n := 0;
    ghost var k := 0;
    CountedNone(Bytes(d, chain), nent);
    while true
      invariant Since(d, fat, v, chain, more) && d.At(more, d.dptr) && d.dptr == ENTRY * k
      invariant n < nent && Counted(Bytes(d, more), nent, k, n)
      decreases MAX_DIR - d.dptr
    {
      EntryPlace(g, more, d.dptr);
      var dir;
      res, dir := ReadEntry(d, more);
      if res != FrOk { return; }
      FirstByte(Bytes(d, more), k);
      if dir[0] == DDEM || dir[0] == 0 {
        CountFree(Bytes(d, more), nent, k, n);
        n := n + 1;
        if n == nent { return; }
      } else {
        CountUsed(Bytes(d, more), nent, k, n);
        n := 0;
      }
      res, more := Onward(d, nent, k, n, fat, v, chain, more);
      k := k + 1;
      if res != FrOk {
        if res == FrNoFile { res := FrDenied; }
        return;
      }
    }
  }

  lemma FirstByte(r: seq<byte>, k: nat)
    requires ENTRY * k + ENTRY <= |r|
    ensures IsFree(r, k) <==> EntryAt(r, ENTRY * k)[0] == 0 || EntryAt(r, ENTRY * k)[0] == DDEM
  {
  }

  /* dir_register */

  /** No used entry has changed. */
  ghost predicate KeepsUsed(r: seq<byte>, t: seq<byte>)
  {
    |r| <= |t| &&
    forall k :: 0 <= k && ENTRY * k + ENTRY <= |r| && !IsFree(r, k) ==> EntryAt(t, ENTRY * k) == EntryAt(r, ENTRY * k)
  }

  /** Growing a directory and changing free entries keeps the used ones. */
  lemma OnlyFreeChanged(r: seq<byte>, s: seq<byte>, t: seq<byte>, i: nat, n: nat)
    requires Lengthened(r, s) && FreeRun(s, i, n) && |t| == |s|
    requires forall b :: 0 <= b < |s| && !(ENTRY * i <= b < ENTRY * (i + n)) ==> t[b] == s[b]
    ensures KeepsUsed(r, t)
  {
    forall k | 0 <= k && ENTRY * k + ENTRY <= |r| && !IsFree(r, k)
      ensures EntryAt(t, ENTRY * k) == EntryAt(r, ENTRY * k)
    {
      assert !IsFree(s, k);
    }
  }

  /** Neither an entry of a long name nor a short entry is free. */
  lemma StoredIsUsed(r: seq<byte>, p: nat, f: FileName, j: nat)
    requires Stored(r, ENTRY * p, f.long, f.short) && IsShortName(f.short) && j <= Entries(|f.long|)
    ensures !IsFree(r, p + j)
  {
    hide Unit, NameUnit, SumSfn, HasVolumeBit;
    var at := ENTRY * p;
    if j < Entries(|f.long|) {
      assert PartStored(r, at, f.long, Entries(|f.long|) - j, SumSfn(f.short));
      assert EntryAt(r, at + ENTRY * j)[0] == r[ENTRY * (p + j)];
    } else {
      var dir := EntryAt(r, at + ENTRY * j);
      assert dir[0] == dir[..11][0] && dir[0] == r[ENTRY * (p + j)];
    }
  }

  /** So every stored name survives. */
  lemma StoredSurvives(r: seq<byte>, t: seq<byte>, p: nat, f: FileName)
    requires KeepsUsed(r, t) && Stored(r, ENTRY * p, f.long, f.short) && IsShortName(f.short)
    ensures Stored(t, ENTRY * p, f.long, f.short)
  {
    hide IsLfnEntry, SumSfn, HasVolumeBit, IsName, IsShortName, Entries;
    var at, n := ENTRY * p, Entries(|f.long|);
    forall j | 0 <= j <= n
      ensures EntryAt(t, at + ENTRY * j) == EntryAt(r, at + ENTRY * j)
    {
      StoredIsUsed(r, p, f, j);
      assert ENTRY * (p + j) == at + ENTRY * j;
    }
    forall k | 1 <= k <= n
      ensures PartStored(t, at, f.long, k, SumSfn(f.short))
    {
      assert PartStored(r, at, f.long, k, SumSfn(f.short));
      assert EntryAt(t, at + ENTRY * (n - k)) == EntryAt(r, at + ENTRY * (n - k));
    }
    assert EntryAt(t, at + ENTRY * n) == EntryAt(r, at + ENTRY * n);
  }

  /** Outside the FAT, the directory and the clusters it has got, no sector has changed. */
  ghost predicate RestKept(g: Geometry, v: seq<Sector>, w: seq<Sector>, chain: seq<nat>, more: seq<nat>)
    requires g.csize > 0 && F.Clusters(g, more)
  {
    && |w| == |v|
    && forall s :: 0 <= s < |v| && !InFat(g, s) && !OnNew(g, more, |chain|, s) && !DirSector(g, more, s) ==>
         w[s] == v[s]
  }

  /**
   * The end of dir_register: allocate the entries and store the name in them, with
   * its long part or without.
   */
  method Register(d: DirObject, lfn: seq<word>, ghost name: seq<word>, nlen: nat, long: bool, fn: seq<byte>,
                  ghost chain: seq<nat>)
    returns (res: FResult, ghost more: seq<nat>, ghost at: nat)
    requires Open(d, chain) && |fn| == 12 && (long ==> Holds(lfn, name) && IsName(name) && nlen == |name|)
    modifies d, d.fs, d.fs.disk, d.fs.win
    ensures d.fs.Valid()
    ensures res == FrOk || res == FrDenied ==>
              && Open(d, more) && Grows(old(d.fs.Table()), d.fs.Table(), chain, more)
              && KeepsUsed(old(Bytes(d, chain)), Bytes(d, more))
              && RestKept(d.fs.geo, old(d.fs.Logical()), d.fs.Logical(), chain, more)
    ensures res == FrOk ==>
              if long then Stored(Bytes(d, more), at, name, fn[..11])
              else at + ENTRY <= |Bytes(d, more)| && IsShortEntry(EntryAt(Bytes(d, more), at), fn)
    ensures res == FrDenied ==>
              && NoRun(Bytes(d, more), if long then Entries(nlen) + 1 else 1, |Bytes(d, more)| / ENTRY)
              && (NoHole(d.fs.Table()) || more == [] || |Bytes(d, more)| >= MAX_DIR)
    ensures res == FrIntErr ==> !InDirectory(d.fs.geo, chain, 0) || !NoReserved(d.fs.Table())
    ensures res != FrNoFile && (d.fs.disk.reliable ==> res != FrDiskErr)
  {
    hide FileSystem.Valid, FileSystem.Logical, FileSystem.Table, FileSystem.Mirrored, F.Clusters, ChainOf, PlaceOf;
    hide Inside, F.DataFits, Region, InDirectory, DirObject.At, DirObject.Valid, NoHole, NoReserved, DirSector, OnNew;
    hide Mounted, IsFree, FreeRun, NoRun, Entries, IsShortEntry, Stored, IsName, Holds, InFat, Grows, KeepsUsed;
    var nent := if long then Entries(nlen) + 1 else 1;
    ghost var g, fat, v := d.fs.geo, d.fs.Table(), d.fs.Logical();
    at := 0;
    res, more := DirAlloc(d, nent, chain);
    if res == FrOk || res == FrDenied {
      GrownRegion(g, fat, v, chain, d.fs.Table(), d.fs.Logical(), more);
      NothingChanged(Region(g, v, chain), Bytes(d, more));
    }
    if res != FrOk { return; }
    ghost var k, w := d.dptr / ENTRY, d.fs.Logical();
    at := ENTRY * (k + 1 - nent);
    if long {
      res := DirRegister(d, lfn, name, nlen, fn, more);
    } else {
      res := StoreShort(d, fn, more);
      OneEntryChanged(g, w, d.fs.Logical(), more, at);
    }
    OnlyFreeChanged(Region(g, v, chain), Region(g, w, more), Bytes(d, more), k + 1 - nent, nent);
  }

  lemma NothingChanged(r: seq<byte>, t: seq<byte>)
    requires Lengthened(r, t)
    ensures KeepsUsed(r, t)
  {
    OnlyFreeChanged(r, t, t, 0, 0);
  }

  lemma OneEntryChanged(g: Geometry, v: seq<Sector>, w: seq<Sector>, chain: seq<nat>, ofs: nat)
    requires g.csize > 0 && F.Clusters(g, chain) && InDirectory(g, chain, ofs)
    requires PatchedEntry(v, w, PlaceOf(g, chain, ofs).sect, ofs)
    requires ofs + ENTRY <= |Region(g, v, chain)| && OnlyEntry(Region(g, v, chain), Region(g, w, chain), ofs)
    ensures ChangedOnly(g, v, w, chain, ofs, ofs + ENTRY)
  {
    ChangedNothing(g, v, chain, ofs, ofs + ENTRY);
    ChangedMore(g, v, v, w, chain, ofs, ofs + ENTRY, ofs);
  }
}
