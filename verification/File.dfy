/** FIL: an open file with its own sector buffer over a cluster chain. */
module File {
  import opened Base
  import opened FatTable
  import opened Chains
  import opened FileData
  import opened Volume

  /** The sectors with a dirty buffer laid over the one it belongs to */
  function Overlaid(v: seq<Sector>, dirty: bool, sect: nat, buf: Sector): (e: seq<Sector>)
    ensures |e| == |v|
  {
    if dirty && sect < |v| then v[sect := buf] else v
  }

  /** The window shows no cluster of the file and no free cluster. */
  predicate WindowAway(g: Geometry, fat: seq<nat>, chain: seq<nat>, winsect: nat)
  {
    forall c :: 2 <= c < |fat| && (c in chain || fat[c] == 0) ==> !InCluster(g, c, winsect)
  }

  /** Outside the FAT and the clusters of the chain nothing changed. */
  predicate SameElsewhere(g: Geometry, v: seq<Sector>, w: seq<Sector>, chain: seq<nat>)
    requires Clusters(g, chain)
  {
    |v| == |w| && forall s :: 0 <= s < |v| && !InFat(g, s) && !OnChain(g, chain, s) ==> w[s] == v[s]
  }

  /** clust holds byte fptr-1, and off a sector boundary the buffer shows the sector of byte fptr. */
  predicate At(g: Geometry, chain: seq<nat>, fptr: nat, clust: nat, sect: nat)
    requires g.csize > 0 && Clusters(g, chain)
  {
    && (fptr > 0 ==> ClusterOf(g, (fptr - 1) / SECTOR_SIZE) < |chain|
                     && clust == chain[ClusterOf(g, (fptr - 1) / SECTOR_SIZE)])
    && (fptr % SECTOR_SIZE != 0 ==> ClusterOf(g, fptr / SECTOR_SIZE) < |chain|
                                    && sect == DataSector(g, chain, fptr / SECTOR_SIZE))
  }

  /** Behind whole sectors of one cluster */
  lemma AtRunEnd(g: Geometry, chain: seq<nat>, k: nat, count: nat, clust: nat, sect: nat)
    requires g.csize > 0 && Clusters(g, chain) && ClusterOf(g, k) < |chain| && clust == chain[ClusterOf(g, k)]
    requires count > 0 && SlotOf(g, k) + count <= g.csize
    ensures At(g, chain, (k + count) * SECTOR_SIZE, clust, sect)
  {
    SlotStep(g, k, count - 1);
    assert ((k + count) * SECTOR_SIZE - 1) / SECTOR_SIZE == k + count - 1;
  }

  /** Inside a sector, or at its end */
  lemma AtSector(g: Geometry, chain: seq<nat>, k: nat, off: nat, clust: nat)
    requires g.csize > 0 && Clusters(g, chain) && ClusterOf(g, k) < |chain| && clust == chain[ClusterOf(g, k)]
    requires 0 < off <= SECTOR_SIZE
    ensures At(g, chain, k * SECTOR_SIZE + off, clust, DataSector(g, chain, k))
  {
    assert (k * SECTOR_SIZE + off - 1) / SECTOR_SIZE == k;
  }

  /** Inside a cluster, clust already is the cluster of the next byte. */
  lemma AtMid(g: Geometry, chain: seq<nat>, fptr: nat, clust: nat, sect: nat)
    requires g.csize > 0 && Clusters(g, chain) && At(g, chain, fptr, clust, sect)
    requires SlotOf(g, fptr / SECTOR_SIZE) != 0 || fptr % SECTOR_SIZE != 0
    ensures ClusterOf(g, fptr / SECTOR_SIZE) < |chain| && clust == chain[ClusterOf(g, fptr / SECTOR_SIZE)]
    ensures fptr % SECTOR_SIZE != 0 ==> sect == DataSector(g, chain, fptr / SECTOR_SIZE)
  {
    var k := fptr / SECTOR_SIZE;
    if fptr % SECTOR_SIZE != 0 {
      assert (fptr - 1) / SECTOR_SIZE == k;
    } else if fptr > 0 {
      assert (fptr - 1) / SECTOR_SIZE == k - 1;
      SlotBefore(g, k);
    } else {
      ZeroSlot(g);
    }
  }

  lemma SlotBefore(g: Geometry, k: nat)
    requires g.csize > 0 && k > 0 && SlotOf(g, k) != 0
    ensures ClusterOf(g, k - 1) == ClusterOf(g, k)
  {
    DivModUnique(k - 1, g.csize, k / g.csize, k % g.csize - 1);
  }

  lemma ZeroSlot(g: Geometry)
    requires g.csize > 0
    ensures SlotOf(g, 0) == 0
  {
  }

  /** What an open file needs: its chain, room for its size, and a buffer that belongs to the chain when dirty */
  ghost predicate FileOn(g: Geometry, v: seq<Sector>, fat: seq<nat>, sclust: nat, chain: seq<nat>, size: nat,
                         dirty: bool, sect: nat)
    ensures FileOn(g, v, fat, sclust, chain, size, dirty, sect) ==>
              && g.nFatent >= 2 && |fat| == g.nFatent && DataFits(g, |v|)
              && Clusters(g, chain) && Holds(g, chain, size) && size < DWORD && (dirty ==> OnChain(g, chain, sect))
  {
    && g.nFatent >= 2 && |fat| == g.nFatent && DataFits(g, |v|)
    && ChainOf(fat, sclust, chain) && Clusters(g, chain)
    && Holds(g, chain, size) && size < DWORD
    && (dirty ==> OnChain(g, chain, sect))
  }

  /** A file stays what it is when the device keeps its size and the table its entries. */
  lemma FileOnFrame(g: Geometry, v: seq<Sector>, w: seq<Sector>, fat: seq<nat>, sclust: nat, chain: seq<nat>, size: nat,
                    dirty: bool, sect: nat, dirty': bool, sect': nat)
    requires FileOn(g, v, fat, sclust, chain, size, dirty, sect) && |w| == |v|
    requires dirty' ==> OnChain(g, chain, sect')
    ensures FileOn(g, w, fat, sclust, chain, size, dirty', sect')
  {
  }

  /** A sector of the file is a data sector inside the device and not under the window. */
  lemma OnChainAway(g: Geometry, v: seq<Sector>, fat: seq<nat>, chain: seq<nat>, winsect: nat, s: nat)
    requires g.nFatent >= 2 && DataFits(g, |v|) && Clusters(g, chain) && |fat| == g.nFatent
    requires WindowAway(g, fat, chain, winsect) && OnChain(g, chain, s)
    ensures g.database <= s < |v| && winsect != s
  {
    var i :| 0 <= i < |chain| && InCluster(g, chain[i], s);
    ClusterInside(g, chain[i], |v|);
    hide ClusterSector;
    assert !InCluster(g, chain[i], winsect);
  }

  lemma FlushedView(g: Geometry, v: seq<Sector>, w: seq<Sector>, sect: nat, buf: Sector, chain: seq<nat>)
    requires Clusters(g, chain) && OnChain(g, chain, sect) && RunWritten(v, w, sect, 1, buf)
    ensures w == Overlaid(v, true, sect, buf) && SameElsewhere(g, v, w, chain)
  {
    hide OnChain;
    assert buf[0..SECTOR_SIZE] == buf;
  }

  lemma Unwritten(g: Geometry, v: seq<Sector>, chain: seq<nat>, sect: nat, buf: Sector)
    requires Clusters(g, chain)
    ensures Overlaid(v, false, sect, buf) == v && SameElsewhere(g, v, v, chain)
  {
  }

  /** Allocation changes the FAT only: the file keeps its bytes and no other data sector changes. */
  lemma AllocationFrame(g: Geometry, v: seq<Sector>, w: seq<Sector>, fat: seq<nat>, sclust: nat, chain: seq<nat>,
                        after: seq<nat>, sclust': nat, more: seq<nat>, size: nat, dirty: bool, sect: nat, buf: Sector)
    requires Mounted(g, |v|) && SameOutsideFat(g, v, w)
    requires FileOn(g, v, fat, sclust, chain, size, dirty, sect)
    requires Grows(fat, after, chain, more) && ChainOf(after, sclust', more)
    ensures FileOn(g, w, after, sclust', more, size, dirty, sect)
    ensures Data(g, Overlaid(w, dirty, sect, buf), more, size) == Data(g, Overlaid(v, dirty, sect, buf), chain, size)
    ensures SameElsewhere(g, v, w, more)
    ensures NoReserved(fat) ==> NoReserved(after)
    ensures g.database <= sect < |v| ==> w[sect] == v[sect]
  {
    GrowsKeepsUnreserved(fat, after, chain, sclust', more);
    ChainClusters(g, after, sclust', more);
    HoldsMore(g, chain, more, size);
    assert dirty ==> OnChain(g, more, sect) by {
      if dirty {
        var i :| 0 <= i < |chain| && InCluster(g, chain[i], sect);
        assert more[i] == chain[i];
      }
    }
    assert SameOnChain(g, Overlaid(v, dirty, sect, buf), Overlaid(w, dirty, sect, buf), chain);
    DataFrame(g, Overlaid(v, dirty, sect, buf), Overlaid(w, dirty, sect, buf), chain, more, size);
  }

  lemma WindowStaysAway(g: Geometry, size: nat, fat: seq<nat>, chain: seq<nat>, after: seq<nat>, more: seq<nat>,
                        winsect: nat, winsect': nat)
    requires Mounted(g, size) && |fat| == g.nFatent && DataFits(g, size)
    requires Grows(fat, after, chain, more) && WindowAway(g, fat, chain, winsect)
    requires winsect' == winsect || winsect' == DISK_ERROR || InFat(g, winsect')
    ensures WindowAway(g, after, more, winsect')
  {
    hide ClusterSector, DataFits;
    forall c | 2 <= c < |after| && (c in more || after[c] == 0)
      ensures !InCluster(g, c, winsect')
    {
      ClusterInside(g, c, size);
      if c in more {
        var i :| 0 <= i < |more| && more[i] == c;
        assert i < |chain| ==> chain[i] == c;
      }
    }
  }

  /** A run of sectors of one cluster lies inside the device, behind the FAT and not under the window. */
  lemma RunAway(g: Geometry, v: seq<Sector>, fat: seq<nat>, chain: seq<nat>, winsect: nat, k: nat, count: nat)
    requires g.nFatent >= 2 && DataFits(g, |v|) && Clusters(g, chain) && |fat| == g.nFatent
    requires WindowAway(g, fat, chain, winsect) && ClusterOf(g, k) < |chain|
    requires SlotOf(g, k) + count <= g.csize
    ensures Clust2Sect(g, chain[ClusterOf(g, k)]) + SlotOf(g, k) == DataSector(g, chain, k)
    ensures g.database <= DataSector(g, chain, k) && DataSector(g, chain, k) + count <= |v|
    ensures !(DataSector(g, chain, k) <= winsect < DataSector(g, chain, k) + count)
  {
    var c := chain[ClusterOf(g, k)];
    ClusterInside(g, c, |v|);
    hide ClusterSector, ClusterOf;
    assert c in chain && !InCluster(g, c, winsect);
  }

  lemma RunAway1(g: Geometry, v: seq<Sector>, fat: seq<nat>, chain: seq<nat>, winsect: nat, k: nat)
    requires g.nFatent >= 2 && DataFits(g, |v|) && Clusters(g, chain) && |fat| == g.nFatent
    requires WindowAway(g, fat, chain, winsect) && ClusterOf(g, k) < |chain|
    ensures g.database <= DataSector(g, chain, k) < |v| && winsect != DataSector(g, chain, k)
  {
    RunAway(g, v, fat, chain, winsect, k, 1);
  }

  lemma RunOnChain(g: Geometry, chain: seq<nat>, k: nat, count: nat, s: nat)
    requires g.csize > 0 && Clusters(g, chain) && ClusterOf(g, k) < |chain| && SlotOf(g, k) + count <= g.csize
    requires DataSector(g, chain, k) <= s < DataSector(g, chain, k) + count
    ensures OnChain(g, chain, s)
  {
    assert InCluster(g, chain[ClusterOf(g, k)], s);
  }

  lemma RunHolds(g: Geometry, chain: seq<nat>, k: nat, count: nat)
    requires g.csize > 0 && ClusterOf(g, k) < |chain| && count > 0 && SlotOf(g, k) + count <= g.csize
    ensures ClusterOf(g, k + count - 1) == ClusterOf(g, k)
    ensures Holds(g, chain, (k + count) * SECTOR_SIZE)
  {
    SlotStep(g, k, count - 1);
    Covered(g, |chain|, k + count - 1);
  }

  /** The effect of a direct write of whole sectors on the file */
  lemma RunEffect(g: Geometry, v: seq<Sector>, w: seq<Sector>, fat: seq<nat>, sclust: nat, chain: seq<nat>, size: nat,
                  sect: nat, k: nat, count: nat, d: seq<byte>)
    requires FileOn(g, v, fat, sclust, chain, size, false, sect) && ClusterOf(g, k) < |chain|
    requires count > 0 && SlotOf(g, k) + count <= g.csize && RunWritten(v, w, DataSector(g, chain, k), count, d)
    requires k * SECTOR_SIZE <= size && k * SECTOR_SIZE + |d| < DWORD
    ensures FileOn(g, w, fat, sclust, chain, Max(size, k * SECTOR_SIZE + |d|), false, sect)
    ensures Data(g, w, chain, Max(size, k * SECTOR_SIZE + |d|)) == Overlay(Data(g, v, chain, size), k * SECTOR_SIZE, d)
    ensures SameElsewhere(g, v, w, chain)
    ensures ClusterOf(g, k + count - 1) == ClusterOf(g, k)
  {
    RunHolds(g, chain, k, count);
    RunData(g, v, w, chain, size, k, count, d);
    hide OnChain, DataSector, ClusterOf, SlotOf;
    forall s | 0 <= s < |v| && !OnChain(g, chain, s)
      ensures w[s] == v[s]
    {
      if DataSector(g, chain, k) <= s < DataSector(g, chain, k) + count {
        RunOnChain(g, chain, k, count, s);
      }
    }
  }

  /** The effect of a store into the sector buffer on the file */
  lemma PatchEffect(g: Geometry, v: seq<Sector>, fat: seq<nat>, sclust: nat, chain: seq<nat>, size: nat, dirty: bool,
                    k: nat, off: nat, d: seq<byte>, before: Sector, after: Sector)
    requires g.csize > 0 && Clusters(g, chain) && ClusterOf(g, k) < |chain|
    requires FileOn(g, v, fat, sclust, chain, size, dirty, DataSector(g, chain, k))
    requires 0 < |d| && off + |d| <= SECTOR_SIZE && after == Overlay(before, off, d)
    requires k * SECTOR_SIZE + off <= size && k * SECTOR_SIZE + off + |d| < DWORD
    requires DataSector(g, chain, k) < |v|
    requires dirty || before == v[DataSector(g, chain, k)] || (off == 0 && size == k * SECTOR_SIZE)
    ensures FileOn(g, v, fat, sclust, chain, Max(size, k * SECTOR_SIZE + off + |d|), true, DataSector(g, chain, k))
    ensures Data(g, Overlaid(v, true, DataSector(g, chain, k), after), chain, Max(size, k * SECTOR_SIZE + off + |d|))
         == Overlay(Data(g, Overlaid(v, dirty, DataSector(g, chain, k), before), chain, size), k * SECTOR_SIZE + off, d)
  {
    var s := DataSector(g, chain, k);
    DataSectorOnChain(g, chain, k);
    SlotInside(g, k);
    RunHolds(g, chain, k, 1);
    hide DataSector, ClusterOf, SlotOf, OnChain;
    var e, f := Overlaid(v, dirty, s, before), Overlaid(v, true, s, after);
    assert Patched(e, f, s, off, d, size - k * SECTOR_SIZE);
    PatchData(g, e, f, chain, size, k, off, d);
  }

  lemma SlotInside(g: Geometry, k: nat)
    requires g.csize > 0
    ensures SlotOf(g, k) + 1 <= g.csize
  {
  }

  /** What a file looks like from outside: the volume, its chain and its bytes */
  datatype FileState = FileState(view: seq<Sector>, fat: seq<nat>, sclust: nat, chain: seq<nat>, bytes: seq<byte>)

  ghost predicate StateOn(g: Geometry, s: FileState)
  {
    Clusters(g, s.chain) && |s.fat| == g.nFatent && ChainOf(s.fat, s.sclust, s.chain)
  }

  /** From `a` to `b` at most free clusters were added to this chain, and nothing outside its clusters changed. */
  ghost predicate Confined(g: Geometry, a: FileState, b: FileState)
    requires StateOn(g, b)
  {
    && Grows(a.fat, b.fat, a.chain, b.chain)
    && SameElsewhere(g, a.view, b.view, b.chain)
    && (NoReserved(a.fat) ==> NoReserved(b.fat))
  }

  lemma ConfinedTransitive(g: Geometry, a: FileState, b: FileState, c: FileState)
    requires StateOn(g, b) && StateOn(g, c) && Confined(g, a, b) && Confined(g, b, c)
    ensures Confined(g, a, c)
  {
    GrowsTransitive(a.fat, b.fat, c.fat, b.sclust, a.chain, b.chain, c.chain);
    forall s | OnChain(g, b.chain, s)
      ensures OnChain(g, c.chain, s)
    {
      var i :| 0 <= i < |b.chain| && InCluster(g, b.chain[i], s);
      assert c.chain[i] == b.chain[i];
    }
  }

  lemma ConfinedUnreserved(g: Geometry, a: FileState, b: FileState)
    requires StateOn(g, b) && Confined(g, a, b)
    ensures NoReserved(a.fat) ==> NoReserved(b.fat)
  {
  }

  lemma ConfinedReflexive(g: Geometry, a: FileState)
    requires StateOn(g, a)
    ensures Confined(g, a, a)
  {
  }

  lemma SectorNumber(g: Geometry, chain: seq<nat>, k: nat)
    requires g.csize > 0 && Clusters(g, chain) && ClusterOf(g, k) < |chain|
    ensures Clust2Sect(g, chain[ClusterOf(g, k)]) + SlotOf(g, k) == DataSector(g, chain, k)
  {
  }

  lemma ZeroOnly(fat: seq<nat>, sclust: nat, chain: seq<nat>)
    requires ChainOf(fat, sclust, chain)
    ensures forall i :: 0 <= i < |chain| ==> 2 <= chain[i] < |fat|
    ensures sclust == 0 <==> chain == []
  {
  }

  /** The number of bytes f_write_ tries to write: the file position never passes 0xFFFFFFFF. */
  function WriteLimit(fptr: nat, btw: nat): (n: nat)
    requires fptr < DWORD
    ensures n <= btw
  {
    if fptr + btw >= DWORD then 0xFFFF_FFFF - fptr else btw
  }

  lemma NextPrefix(s: seq<byte>, lo: nat, hi: nat, n: nat)
    requires lo <= hi <= |s| && n <= hi - lo
    ensures s[..lo] + s[lo..hi][..n] == s[..lo + n]
  {
  }

  lemma OverlayNothing(s: seq<byte>, at: nat, d: seq<byte>)
    requires at <= |s| && d == []
    ensures Overlay(s, at, d) == s
  {
  }

  /** Bytes picked out of whole sectors of one cluster */
  lemma RunBytes(g: Geometry, e: seq<Sector>, chain: seq<nat>, size: nat, k: nat, count: nat, i: nat)
    requires g.nFatent >= 2 && DataFits(g, |e|) && Clusters(g, chain) && Holds(g, chain, size)
    requires ClusterOf(g, k) < |chain| && SlotOf(g, k) + count <= g.csize && i < SECTOR_SIZE * count
    requires k * SECTOR_SIZE + i < size
    ensures DataSector(g, chain, k) + i / SECTOR_SIZE < |e|
    ensures Data(g, e, chain, size)[k * SECTOR_SIZE + i]
         == e[DataSector(g, chain, k) + i / SECTOR_SIZE][i % SECTOR_SIZE]
  {
    var p := k * SECTOR_SIZE + i;
    assert p / SECTOR_SIZE == k + i / SECTOR_SIZE && p % SECTOR_SIZE == i % SECTOR_SIZE;
    DataSectorRun(g, chain, k, i / SECTOR_SIZE);
    DataSectorInside(g, chain, k + i / SECTOR_SIZE, |e|);
    hide DataFits, Clusters, Holds, ClusterOf, SlotOf, DataSector;
  }

  lemma RunSlice(g: Geometry, e: seq<Sector>, chain: seq<nat>, size: nat, k: nat, count: nat, out: seq<byte>, at: nat)
    requires g.nFatent >= 2 && DataFits(g, |e|) && Clusters(g, chain) && Holds(g, chain, size)
    requires ClusterOf(g, k) < |chain| && SlotOf(g, k) + count <= g.csize && (k + count) * SECTOR_SIZE <= size
    requires DataSector(g, chain, k) + count <= |e| && at + SECTOR_SIZE * count <= |out|
    requires forall i :: 0 <= i < SECTOR_SIZE * count ==>
               out[at + i] == e[DataSector(g, chain, k) + i / SECTOR_SIZE][i % SECTOR_SIZE]
    ensures out[at..at + SECTOR_SIZE * count] == Data(g, e, chain, size)[k * SECTOR_SIZE..(k + count) * SECTOR_SIZE]
  {
    var a, b := out[at..at + SECTOR_SIZE * count], Data(g, e, chain, size)[k * SECTOR_SIZE..(k + count) * SECTOR_SIZE];
    hide DataFits, Clusters, Holds, ClusterOf, SlotOf, DataSector, Data;
    forall i | 0 <= i < SECTOR_SIZE * count
      ensures a[i] == b[i]
    {
      RunBytes(g, e, chain, size, k, count, i);
      assert out[at + i] == e[DataSector(g, chain, k) + i / SECTOR_SIZE][i % SECTOR_SIZE];
    }
  }

  lemma SectorByte(g: Geometry, e: seq<Sector>, chain: seq<nat>, size: nat, k: nat, j: nat)
    requires g.nFatent >= 2 && DataFits(g, |e|) && Clusters(g, chain) && Holds(g, chain, size)
    requires ClusterOf(g, k) < |chain| && j < SECTOR_SIZE && k * SECTOR_SIZE + j < size
    ensures DataSector(g, chain, k) < |e|
    ensures Data(g, e, chain, size)[k * SECTOR_SIZE + j] == e[DataSector(g, chain, k)][j]
  {
    hide DataFits, Clusters, Holds, ClusterOf, SlotOf, DataSector, ByteAt, Data;
    SlotInside(g, k);
    DataSectorInside(g, chain, k, |e|);
    RunBytes(g, e, chain, size, k, 1, j);
  }

  lemma SectorPiece(g: Geometry, e: seq<Sector>, chain: seq<nat>, size: nat, k: nat, off: nat, n: nat, i: nat)
    requires g.nFatent >= 2 && DataFits(g, |e|) && Clusters(g, chain) && Holds(g, chain, size) && i < n
    requires ClusterOf(g, k) < |chain| && off + n <= SECTOR_SIZE && k * SECTOR_SIZE + off + n <= size
    ensures DataSector(g, chain, k) < |e|
    ensures Data(g, e, chain, size)[k * SECTOR_SIZE + off..k * SECTOR_SIZE + off + n][i]
         == e[DataSector(g, chain, k)][off..off + n][i]
  {
    hide DataFits, Clusters, Holds, ClusterOf, SlotOf, DataSector, ByteAt, Data;
    SectorByte(g, e, chain, size, k, off + i);
    SliceAt(Data(g, e, chain, size), k * SECTOR_SIZE + off, n, i);
    SliceAt(e[DataSector(g, chain, k)], off, n, i);
  }

  /** Bytes picked out of one sector */
  lemma SectorBytes(g: Geometry, e: seq<Sector>, chain: seq<nat>, size: nat, k: nat, off: nat, n: nat)
    requires g.nFatent >= 2 && DataFits(g, |e|) && Clusters(g, chain) && Holds(g, chain, size)
    requires ClusterOf(g, k) < |chain| && 0 < n && off + n <= SECTOR_SIZE && k * SECTOR_SIZE + off + n <= size
    ensures DataSector(g, chain, k) < |e|
    ensures Data(g, e, chain, size)[k * SECTOR_SIZE + off..k * SECTOR_SIZE + off + n]
         == e[DataSector(g, chain, k)][off..off + n]
  {
    hide DataFits, Clusters, Holds, ClusterOf, SlotOf, DataSector, ByteAt, Data;
    SectorByte(g, e, chain, size, k, off);
    var a, b := Data(g, e, chain, size)[k * SECTOR_SIZE + off..k * SECTOR_SIZE + off + n],
                e[DataSector(g, chain, k)][off..off + n];
    forall i | 0 <= i < n
      ensures a[i] == b[i]
    {
      SectorPiece(g, e, chain, size, k, off, n, i);
    }
    assert a == b;
  }

  lemma SliceAt(s: seq<byte>, at: nat, n: nat, i: nat)
    requires at + n <= |s| && i < n
    ensures s[at..at + n][i] == s[at + i]
  {
  }

  /** `rest` bytes into the cluster at position `j`, at most to its end */
  lemma AtClusterOffset(g: Geometry, chain: seq<nat>, j: nat, rest: nat, clust: nat, sect: nat)
    requires g.csize > 0 && Clusters(g, chain) && j < |chain| && clust == chain[j] && 0 < rest <= ClusterBytes(g)
    requires rest % SECTOR_SIZE != 0 ==> sect == Clust2Sect(g, clust) + rest / SECTOR_SIZE
    ensures At(g, chain, SectorCount(g, j) * SECTOR_SIZE + rest, clust, sect)
    ensures Holds(g, chain, SectorCount(g, j) * SECTOR_SIZE + rest)
    ensures rest % SECTOR_SIZE != 0 ==>
              && ClusterOf(g, (SectorCount(g, j) * SECTOR_SIZE + rest) / SECTOR_SIZE) == j
              && DataSector(g, chain, (SectorCount(g, j) * SECTOR_SIZE + rest) / SECTOR_SIZE)
                   == Clust2Sect(g, clust) + rest / SECTOR_SIZE
  {
    hide ClusterOf, SlotOf, SectorCount, Holds;
    InClusterAt(g, j, rest - 1);
    CountStep(g, j);
    HoldsClusters(g, chain, j + 1, SectorCount(g, j) * SECTOR_SIZE + rest);
    if rest % SECTOR_SIZE != 0 {
      InClusterAt(g, j, rest);
    }
  }

  lemma AtStart(g: Geometry, chain: seq<nat>, clust: nat, sect: nat)
    requires g.csize > 0 && Clusters(g, chain)
    ensures At(g, chain, 0, clust, sect) && Holds(g, chain, 0)
  {
  }

  /** Seeking forward, the current cluster starts before the target. */
  lemma StartHere(g: Geometry, p: nat, q: nat)
    requires g.csize > 0 && ClusterIndex(g, q) >= ClusterIndex(g, p)
    ensures ClusterIndex(g, p) == ClusterOf(g, p / SECTOR_SIZE)
    ensures SectorCount(g, ClusterIndex(g, p)) * SECTOR_SIZE <= q
  {
    ClusterIndexIs(g, p);
    ClusterIndexIs(g, q);
    Scale(ClusterIndex(g, p), ClusterIndex(g, q), g.csize);
  }

  lemma HoldsNothing(g: Geometry, chain: seq<nat>, size: nat)
    requires Holds(g, chain, size)
    ensures chain == [] ==> size == 0
  {
  }

  lemma PositiveCluster(g: Geometry, v: seq<Sector>)
    requires g.nFatent >= 2 && DataFits(g, |v|)
    ensures ClusterBytes(g) > 0
  {
  }

  lemma RoomInMode(g: Geometry, chain: seq<nat>, size: nat, ofs: nat, j: nat, canWrite: bool)
    requires Holds(g, chain, size) && SectorCount(g, j) * SECTOR_SIZE + ClusterBytes(g) < ofs
    requires !canWrite ==> ofs <= size
    ensures !canWrite ==> j + 1 < |chain|
    ensures SectorCount(g, j + 1) * SECTOR_SIZE == SectorCount(g, j) * SECTOR_SIZE + ClusterBytes(g)
  {
    CountStep(g, j);
    if !canWrite {
      RoomBehind(g, chain, size, j);
    }
  }

  /** No byte of a file lies behind the end of its last cluster. */
  lemma EndOfChain(g: Geometry, chain: seq<nat>, size: nat, j: nat)
    requires Holds(g, chain, size)
    ensures j + 1 == |chain| ==> size <= SectorCount(g, j) * SECTOR_SIZE + ClusterBytes(g)
    ensures ClusterBytes(g) % SECTOR_SIZE == 0
  {
    CountStep(g, j);
  }

  /** The clusters that stay hold the bytes that stay, wherever the dirty buffer went. */
  lemma TruncatedData(g: Geometry, v: seq<Sector>, e: seq<Sector>, w: seq<Sector>, fat: seq<nat>, sclust: nat,
                      chain: seq<nat>, size: nat,
                      dirty: bool, sect: nat, n: nat, k: nat, after: seq<nat>)
    requires Mounted(g, |v|) && FileOn(g, v, fat, sclust, chain, size, dirty, sect) && n <= size
    requires |w| == |e| == |v| && forall s :: 0 <= s < |e| && !InFat(g, s) ==> w[s] == e[s]
    requires k == (if n == 0 then 0 else ClusterOf(g, (n - 1) / SECTOR_SIZE) + 1) && k <= |chain|
    requires ChainOf(after, if k == 0 then 0 else sclust, chain[..k]) && |after| == |fat|
    ensures FileOn(g, w, after, if k == 0 then 0 else sclust, chain[..k], n, false, sect)
    ensures Data(g, w, chain[..k], n) == Data(g, e, chain, size)[..n]
  {
    var keep := chain[..k];
    ChainClusters(g, after, if k == 0 then 0 else sclust, keep);
    KeepHolds(g, n);
    DataPrefix(g, e, chain, n, size);
    assert SameOnChain(g, w, e, keep) by {
      hide ClusterSector;
    }
    assert keep <= chain;
    hide OnChain, Clusters, DataFits, Holds, Mounted, SameOnChain, ChainOf;
    DataFrame(g, w, e, keep, chain, n);
  }

  lemma KeepHolds(g: Geometry, n: nat)
    requires g.csize > 0
    ensures n > 0 ==> n <= SectorCount(g, ClusterOf(g, (n - 1) / SECTOR_SIZE) + 1) * SECTOR_SIZE
  {
    if n > 0 {
      Covered(g, ClusterOf(g, (n - 1) / SECTOR_SIZE) + 1, (n - 1) / SECTOR_SIZE);
    }
  }

  /** The window shows none of the clusters that a cut sets free. */
  lemma WindowAwayFromTail(g: Geometry, size: nat, fat: seq<nat>, chain: seq<nat>, k: nat, eoc: nat, winsect: nat,
                           winsect': nat)
    requires Mounted(g, size) && |fat| == g.nFatent && DataFits(g, size) && Clusters(g, chain)
    requires IsChain(fat, chain) && k < |chain| && WindowAway(g, fat, chain, winsect) && eoc > 0
    requires winsect' == winsect || winsect' == DISK_ERROR || InFat(g, winsect')
    ensures WindowAway(g, Cut(fat, chain, k, eoc), chain[..k], winsect')
  {
    hide ClusterSector, DataFits;
    var after := Cut(fat, chain, k, eoc);
    forall c | 2 <= c < |after| && (c in chain[..k] || after[c] == 0)
      ensures !InCluster(g, c, winsect')
    {
      ClusterInside(g, c, size);
      assert c in chain[k..] ==> c in chain;
      assert c in chain || fat[c] == 0;
    }
  }

  lemma KeepsBuffered(g: Geometry, v: seq<Sector>, w: seq<Sector>, sect: nat)
    requires Mounted(g, |v|) && SameOutsideFat(g, v, w)
    ensures g.database <= sect < |v| ==> w[sect] == v[sect]
  {
  }

  /** After a change of the FAT only, the sector buffer still can be written back. */
  lemma TailAway(g: Geometry, v: seq<Sector>, w: seq<Sector>, fat: seq<nat>, sclust: nat, chain: seq<nat>, size: nat,
                 dirty: bool, sect: nat, buf: Sector, winsect: nat, winsect': nat)
    requires Mounted(g, |v|) && SameOutsideFat(g, v, w) && FileOn(g, v, fat, sclust, chain, size, dirty, sect)
    requires WindowAway(g, fat, chain, winsect)
    requires winsect' == winsect || winsect' == DISK_ERROR || InFat(g, winsect')
    ensures dirty ==> g.database <= sect < |v| && winsect' != sect
    ensures SameOutsideFat(g, Overlaid(v, dirty, sect, buf), Overlaid(w, dirty, sect, buf))
    ensures SameElsewhere(g, v, Overlaid(w, dirty, sect, buf), chain)
  {
    WindowStaysAway(g, |v|, fat, chain, fat, chain, winsect, winsect');
    if dirty {
      OnChainAway(g, v, fat, chain, winsect', sect);
    }
  }

  /** All that f_truncate_ does to the file, on the sectors `w` and the table `after` it leaves */
  lemma CutEffect(g: Geometry, v: seq<Sector>, e: seq<Sector>, w: seq<Sector>, fat: seq<nat>, sclust: nat,
                  chain: seq<nat>, size: nat, dirty: bool, fptr: nat, clust: nat, sect: nat, k: nat, after: seq<nat>,
                  ws: nat, ws': nat)
    requires Mounted(g, |v|) && FileOn(g, v, fat, sclust, chain, size, dirty, sect) && fptr <= size
    requires |e| == |v| && SameOutsideFat(g, e, w)
    requires k == (if fptr == 0 then 0 else ClusterOf(g, (fptr - 1) / SECTOR_SIZE) + 1) && k <= |chain|
    requires k == |chain| ==> after == fat
    requires k < |chain| ==> after == Cut(fat, chain, k, EndMark(g.fsType))
    requires WindowAway(g, fat, chain, ws) && (ws' == ws || ws' == DISK_ERROR || InFat(g, ws'))
    requires At(g, chain, fptr, clust, sect)
    ensures FileOn(g, w, after, if k == 0 then 0 else sclust, chain[..k], fptr, false, sect)
    ensures Data(g, w, chain[..k], fptr) == Data(g, e, chain, size)[..fptr]
    ensures At(g, chain[..k], fptr, clust, sect)
    ensures CutAt(fat, chain, after, chain[..k], EndMark(g.fsType))
    ensures WindowAway(g, after, chain[..k], ws')
  {
    CutChains(g, fat, sclust, chain, k, after);
    TruncatedData(g, v, e, w, fat, sclust, chain, size, dirty, sect, fptr, k, after);
    if k < |chain| {
      WindowAwayFromTail(g, |v|, fat, chain, k, EndMark(g.fsType), ws, ws');
    } else {
      assert chain[..k] == chain;
      WindowStaysAway(g, |v|, fat, chain, fat, chain, ws, ws');
    }
    AtKept(g, chain, k, fptr, clust, sect);
  }

  lemma CutChains(g: Geometry, fat: seq<nat>, sclust: nat, chain: seq<nat>, k: nat, after: seq<nat>)
    requires |fat| == g.nFatent < EntryRange(g.fsType) && ChainOf(fat, sclust, chain) && k <= |chain|
    requires k == |chain| ==> after == fat
    requires k < |chain| ==> after == Cut(fat, chain, k, EndMark(g.fsType))
    ensures |after| == |fat| && ChainOf(after, if k == 0 then 0 else sclust, chain[..k])
    ensures CutAt(fat, chain, after, chain[..k], EndMark(g.fsType))
  {
    hide Cut;
    if k < |chain| {
      CutChainOf(fat, sclust, chain, k, EndMark(g.fsType));
    } else {
      assert chain[..k] == chain;
    }
  }

  lemma AtKept(g: Geometry, chain: seq<nat>, k: nat, fptr: nat, clust: nat, sect: nat)
    requires g.csize > 0 && Clusters(g, chain) && k <= |chain| && Clusters(g, chain[..k])
    requires k == (if fptr == 0 then 0 else ClusterOf(g, (fptr - 1) / SECTOR_SIZE) + 1)
    requires At(g, chain, fptr, clust, sect)
    ensures At(g, chain[..k], fptr, clust, sect)
  {
    if fptr % SECTOR_SIZE != 0 {
      assert (fptr - 1) / SECTOR_SIZE == fptr / SECTOR_SIZE;
    }
  }

  /** Where f_lseek_ goes: in read-only mode the offset is clipped to the file size. */
  function SeekTarget(ofs: nat, size: nat, canWrite: bool): (t: nat)
    ensures t <= ofs
  {
    if ofs > size && !canWrite then size else ofs
  }

  class FileObject {
    const fs: FileSystem
    const buf: array<byte>
    const canRead: bool
    const canWrite: bool
    var sclust: nat
    var objsize: nat
    var fptr: nat
    var clust: nat
    var sect: nat
    var err: FResult
    var dirty: bool
    var modified: bool
    ghost var chain: seq<nat>

    ghost predicate Core()
      reads this, buf, fs, fs.win, fs.disk
      ensures Core() ==>
                && fs.Valid() && buf.Length == SECTOR_SIZE && buf != fs.win
                && FileOn(fs.geo, fs.Logical(), fs.Table(), sclust, chain, objsize, dirty, sect)
                && fptr <= objsize && WindowAway(fs.geo, fs.Table(), chain, fs.winsect)
    {
      && fs.Valid() && buf.Length == SECTOR_SIZE && buf != fs.win
      && FileOn(fs.geo, fs.Logical(), fs.Table(), sclust, chain, objsize, dirty, sect)
      && fptr <= objsize
      && WindowAway(fs.geo, fs.Table(), chain, fs.winsect)
    }

    lemma CoreHolds()
      requires fs.Valid() && buf.Length == SECTOR_SIZE && buf != fs.win
      requires FileOn(fs.geo, fs.Logical(), fs.Table(), sclust, chain, objsize, dirty, sect)
      requires fptr <= objsize && WindowAway(fs.geo, fs.Table(), chain, fs.winsect)
      ensures Core()
    {
    }

    /** The sectors as the file sees them, its buffer included */
    ghost function Effective(): (e: seq<Sector>)
      reads this, buf, fs, fs.win, fs.disk
      requires fs.win.Length == SECTOR_SIZE && buf.Length == SECTOR_SIZE
      ensures |e| == |fs.Logical()|
    {
      Overlaid(fs.Logical(), dirty, sect, buf[..])
    }

    /** The bytes of the file */
    ghost function Contents(): (d: seq<byte>)
      reads this, buf, fs, fs.win, fs.disk
      requires Core()
      ensures |d| == objsize
    {
      Data(fs.geo, Effective(), chain, objsize)
    }

    /** A clean buffer holds its sector. */
    ghost predicate Buffered()
      reads this, buf, fs, fs.win, fs.disk
      requires fs.win.Length == SECTOR_SIZE && buf.Length == SECTOR_SIZE
    {
      !dirty && fs.geo.database <= sect < |fs.Logical()| ==> buf[..] == fs.Logical()[sect]
    }

    ghost predicate Positioned()
      reads this, fs
      requires fs.geo.csize > 0 && Clusters(fs.geo, chain)
    {
      At(fs.geo, chain, fptr, clust, sect)
    }

    /** The volume always is consistent, and an open file unless an operation on it was aborted. */
    ghost predicate Valid()
      reads this, buf, fs, fs.win, fs.disk
      ensures Valid() ==> fs.Valid()
    {
      fs.Valid() && (err == FrOk ==> Core() && Buffered() && Positioned())
    }

    /** A file as f_open_ leaves it, given its start cluster and size from the directory entry */
    constructor (fs: FileSystem, canRead: bool, canWrite: bool, sclust: nat, objsize: nat, ghost chain: seq<nat>)
      requires fs.Valid()
      requires FileOn(fs.geo, fs.Logical(), fs.Table(), sclust, chain, objsize, false, 0)
      requires WindowAway(fs.geo, fs.Table(), chain, fs.winsect)
      ensures Valid() && err == FrOk && fresh(buf) && this.fs == fs
      ensures this.canRead == canRead && this.canWrite == canWrite && this.chain == chain
      ensures this.sclust == sclust && this.objsize == objsize && fptr == 0 && !dirty
    {
      this.fs, this.canRead, this.canWrite := fs, canRead, canWrite;
      this.sclust, this.objsize, this.chain := sclust, objsize, chain;
      buf := new byte[SECTOR_SIZE](_ => 0);
      fptr, clust, sect := 0, 0, 0;
      err, dirty, modified := FrOk, false, false;
    }

    ghost function State(): (s: FileState)
      reads this, buf, fs, fs.win, fs.disk
      requires Core()
      ensures StateOn(fs.geo, s) && |s.bytes| == objsize
    {
      FileState(fs.Logical(), fs.Table(), sclust, chain, Contents())
    }

    /** The file is as it was; at most free clusters were added to its chain. */
    twostate predicate Preserved()
      requires old(Core())
      reads this, buf, fs, fs.win, fs.disk
    {
      && Core() && fptr == old(fptr)
      && State().bytes == old(State()).bytes
      && Confined(fs.geo, old(State()), State())
    }

    /** Write-back of the dirty sector buffer */
    method Flush() returns (ok: bool)
      requires Core()
      modifies this`dirty, fs.disk
      ensures fs.Valid()
      ensures ok ==> Preserved() && !dirty && fs.Table() == old(fs.Table()) && fs.Logical() == old(Effective())
      ensures ok ==> (old(Buffered()) ==> Buffered())
      ensures fs.disk.reliable ==> ok
    {
      hide FileSystem.Valid, FileSystem.Logical, FileSystem.Table, FileSystem.Mirrored;
      hide FileOn, WindowAway, OnChain, DataFits, Holds, Clusters, RunWritten, SameElsewhere, Overlaid, ChainOf, Data;
      ok := true;
      ghost var v, fat := fs.Logical(), fs.Table();
      if dirty {
        OnChainAway(fs.geo, v, fat, chain, fs.winsect, sect);
        ok := fs.WriteDirect(buf[..], sect, 1);
        if ok {
          dirty := false;
          FlushedView(fs.geo, v, fs.Logical(), sect, buf[..], chain);
          FileOnFrame(fs.geo, v, fs.Logical(), fat, sclust, chain, objsize, true, sect, false, sect);
        }
      }
      Unwritten(fs.geo, fs.Logical(), chain, sect, buf[..]);
    }

    /**
     * create_chain on `clst`, the cluster before position `i` of the chain, or
     * on 0 for a file without clusters. What it returns is then at position `i`.
     */
    method Reach(clst: nat, ghost i: nat) returns (r: nat)
      requires Core() && i <= |chain|
      requires if i == 0 then chain == [] && clst == 0 else clst == chain[i - 1]
      modifies this`sclust, this`chain, fs, fs.win, fs.disk
      ensures fs.Valid()
      ensures r != DISK_ERROR ==> Preserved() && (old(Buffered()) ==> Buffered())
      ensures r != DISK_ERROR && r >= 2 ==> i < |chain| && chain[i] == r && old(chain) <= chain
      ensures r == 0 ==> NoHole(fs.Table()) && chain == old(chain)
      ensures r == 0 ==> i == |chain|
      ensures r == 1 ==> !NoReserved(old(fs.Table()))
      ensures fs.disk.reliable ==> r != DISK_ERROR
    {
      hide FileSystem.Valid, FileSystem.Logical, FileSystem.Table, FileSystem.Mirrored;
      hide WindowAway, OnChain, DataFits, Holds, Clusters, ClusterOf, SlotOf, Mounted, Overlaid, Data, SameElsewhere;
      hide Grows, Reached, NoHole, NoReserved, ChainReached, Created, EntryRange, FileObject.Core;
      hide SameOutsideFat, IsChain, ChainOf, InFat;
      ghost var fat, v, ws, was, hint := fs.Table(), fs.Logical(), fs.winsect, chain, fs.lastClst;
      r := fs.CreateChain(clst);
      if r == DISK_ERROR { return; }
      ghost var after := fs.Table();
      ZeroOnly(fat, sclust, chain);
      CreatedOnChain(fat, chain, sclust, i, hint, EndMark(fs.geo.fsType), r, after);
      ReachedGrows(fat, sclust, chain, i, r, after);
      if clst == 0 && r >= 2 { sclust := r; }
      chain := ChainReached(chain, i, r);
      AllocationFrame(fs.geo, v, fs.Logical(), fat, old(sclust), was, after, sclust, chain, objsize, dirty, sect,
                      buf[..]);
      WindowStaysAway(fs.geo, |v|, fat, was, after, chain, ws, fs.winsect);
      CoreHolds();
    }

    /**
     * f_write_ on a cluster boundary: take the first cluster of the file or
     * the one behind `clust`, allocating it at the end of the chain.
     */
    method FollowForWrite() returns (res: FResult, full: bool)
      requires Core() && Positioned() && fptr % SECTOR_SIZE == 0 && SlotOf(fs.geo, fptr / SECTOR_SIZE) == 0
      modifies this`sclust, this`clust, this`chain, fs, fs.win, fs.disk
      ensures fs.Valid()
      ensures res == FrOk || res == FrIntErr || res == FrDiskErr
      ensures res == FrOk ==> Preserved()
      ensures res == FrOk && old(Buffered()) ==> Buffered()
      ensures res == FrOk && !full ==>
                ClusterOf(fs.geo, fptr / SECTOR_SIZE) < |chain| && clust == chain[ClusterOf(fs.geo, fptr / SECTOR_SIZE)]
      ensures res == FrOk && full ==> NoHole(fs.Table()) && clust == old(clust) && chain == old(chain)
      ensures fs.disk.reliable && NoReserved(old(fs.Table())) ==> res == FrOk
    {
      hide FileSystem.Valid, FileSystem.Logical, FileSystem.Table, FileSystem.Mirrored;
      hide WindowAway, OnChain, DataFits, Holds, Clusters, ClusterOf, SlotOf, Overlaid, Data, SameElsewhere;
      hide Confined, NoHole, NoReserved, ByteAt, InCluster, SameOnChain, Stored, Patched, RunWritten;
      ghost var a, i := State(), ClusterOf(fs.geo, fptr / SECTOR_SIZE);
      Boundary(fs.geo, chain, objsize, fptr);
      ConfinedReflexive(fs.geo, a);
      full := false;
      var clst: nat;
      if fptr == 0 {
        clst := sclust;
        if clst == 0 {
          clst := Reach(0, 0);
        }
      } else {
        clst := Reach(clust, i);
      }
      if clst == 0 { return FrOk, true; }
      if clst == 1 { return FrIntErr, false; }
      if clst == DISK_ERROR { return FrDiskErr, false; }
      clust := clst;
      res := FrOk;
    }

    /** `data` was written at the old position, which moved behind it. */
    twostate predicate Wrote(data: seq<byte>)
      requires old(Core())
      reads this, buf, fs, fs.win, fs.disk
    {
      && Core() && fptr == old(fptr) + |data|
      && State().bytes == Overlay(old(State()).bytes, old(fptr), data)
      && Confined(fs.geo, old(State()), State())
    }

    /** The direct write itself, and the refill of the sector buffer if it covered the buffered sector */
    method DirectRun(data: seq<byte>, sct: nat, cc: nat) returns (ok: bool)
      requires fs.Valid() && buf.Length == SECTOR_SIZE && buf != fs.win && !dirty && Buffered()
      requires |data| == SECTOR_SIZE * cc && sct + cc <= |fs.Logical()| && fs.OffWindow(sct, cc)
      modifies this`dirty, buf, fs.disk
      ensures fs.Valid() && |fs.Logical()| == |old(fs.Logical())|
      ensures ok ==> RunWritten(old(fs.Logical()), fs.Logical(), sct, cc, data)
      ensures ok ==> fs.Table() == old(fs.Table()) && Buffered() && !dirty
      ensures fs.disk.reliable ==> ok
    {
      hide FileSystem.Valid, FileSystem.Table, FileSystem.Logical, FileSystem.Mirrored;
      ok := fs.WriteDirect(data, sct, cc);
      if ok && sct <= sect < sct + cc {
        MemCpy(buf, 0, data[(sect - sct) * SECTOR_SIZE..(sect - sct + 1) * SECTOR_SIZE]);
        dirty := false;
      }
    }

    /** f_write_ of whole sectors straight from the caller's buffer, within one cluster */
    method WriteRun(data: seq<byte>, csect: nat, cc: nat) returns (ok: bool)
      requires Core() && !dirty && Buffered() && fptr % SECTOR_SIZE == 0
      requires ClusterOf(fs.geo, fptr / SECTOR_SIZE) < |chain| && clust == chain[ClusterOf(fs.geo, fptr / SECTOR_SIZE)]
      requires csect == SlotOf(fs.geo, fptr / SECTOR_SIZE) && csect + cc <= fs.geo.csize
      requires cc > 0 && |data| == SECTOR_SIZE * cc && fptr + |data| < DWORD
      modifies this`fptr, this`objsize, this`dirty, buf, fs.disk
      ensures fs.Valid()
      ensures ok ==> Wrote(data) && Positioned() && Buffered()
      ensures fs.disk.reliable ==> ok
    {
      hide FileSystem.Valid, FileSystem.Logical, FileSystem.Table, FileSystem.Mirrored;
      hide FileOn, WindowAway, OnChain, DataFits, Holds, Clusters, ClusterOf, SlotOf, SameElsewhere, ChainOf, Data;
      hide Clust2Sect, DataSector, Overlay, RunWritten, FileObject.Core, NoReserved, At;
      ghost var v, fat, k := fs.Logical(), fs.Table(), fptr / SECTOR_SIZE;
      RunAway(fs.geo, v, fat, chain, fs.winsect, k, cc);
      var sct := Clust2Sect(fs.geo, clust) + csect;
      ok := DirectRun(data, sct, cc);
      if ok {
        RunEffect(fs.geo, v, fs.Logical(), fat, sclust, chain, objsize, sect, k, cc, data);
        fptr := fptr + |data|;
        objsize := if fptr > objsize then fptr else objsize;
        CoreHolds();
        AtRunEnd(fs.geo, chain, k, cc, clust, sect);
      }
    }

    /** f_write_ at a sector boundary: the buffer moves to `sct`, and is filled unless the file ends there. */
    method LoadForWrite(sct: nat) returns (ok: bool)
      requires Core() && !dirty && Buffered() && fptr % SECTOR_SIZE == 0
      requires ClusterOf(fs.geo, fptr / SECTOR_SIZE) < |chain| && sct == DataSector(fs.geo, chain, fptr / SECTOR_SIZE)
      modifies this`sect, buf
      ensures fs.Valid()
      ensures ok ==> Preserved() && sect == sct && !dirty && fs.Logical() == old(fs.Logical()) && sct < |fs.Logical()|
      ensures ok && fptr < objsize ==> buf[..] == fs.Logical()[sct]
      ensures fs.disk.reliable ==> ok
    {
      hide FileSystem.Valid, FileSystem.Logical, FileSystem.Table, FileSystem.Mirrored;
      hide FileOn, WindowAway, OnChain, DataFits, Holds, Clusters, ClusterOf, SlotOf, SameElsewhere, ChainOf, Data;
      hide DataSector, FileObject.Core, NoReserved, At;
      ghost var v, fat := fs.Logical(), fs.Table();
      RunAway1(fs.geo, v, fat, chain, fs.winsect, fptr / SECTOR_SIZE);
      ok := true;
      if sect != sct {
        if fptr < objsize {
          ok := fs.ReadDirect(buf, 0, sct, 1);
          if !ok { return; }
          assert buf[..] == buf[0..SECTOR_SIZE];
        }
      }
      Unwritten(fs.geo, v, chain, sect, buf[..]);
      Unwritten(fs.geo, v, chain, old(sect), old(buf[..]));
      FileOnFrame(fs.geo, v, v, fat, sclust, chain, objsize, false, sect, false, sct);
      sect := sct;
      CoreHolds();
    }

    /** Puts data into the sector buffer at the position, which moves on, and the size with it. */
    method PutPartial(d: seq<byte>)
      requires Core() && fptr % SECTOR_SIZE + |d| <= SECTOR_SIZE && 0 < |d| && fptr + |d| < DWORD
      requires ClusterOf(fs.geo, fptr / SECTOR_SIZE) < |chain| && clust == chain[ClusterOf(fs.geo, fptr / SECTOR_SIZE)]
      requires sect == DataSector(fs.geo, chain, fptr / SECTOR_SIZE) < |fs.Logical()|
      requires dirty || buf[..] == fs.Logical()[sect] || (fptr % SECTOR_SIZE == 0 && objsize == fptr)
      modifies this`fptr, this`objsize, this`dirty, buf
      ensures Wrote(d) && Positioned() && Buffered()
    {
      hide FileSystem.Valid, FileSystem.Logical, FileSystem.Table, FileSystem.Mirrored;
      hide FileOn, WindowAway, OnChain, DataFits, Holds, Clusters, ClusterOf, SlotOf, SameElsewhere, ChainOf, Data;
      hide DataSector, FileObject.Core, NoReserved, At, Overlaid, Overlay, ByteAt, InCluster, Stored, Patched;
      ghost var v, fat, k, off := fs.Logical(), fs.Table(), fptr / SECTOR_SIZE, fptr % SECTOR_SIZE;
      ghost var before := buf[..];
      MemCpy(buf, fptr % SECTOR_SIZE, d);
      PatchEffect(fs.geo, v, fat, sclust, chain, objsize, dirty, k, off, d, before, buf[..]);
      dirty := true;
      fptr := fptr + |d|;
      objsize := if fptr > objsize then fptr else objsize;
      CoreHolds();
      AtSector(fs.geo, chain, k, off + |d|, clust);
      Unwritten(fs.geo, v, chain, sect, before);
    }

    /** f_write_ on a sector boundary: go on to the next cluster if needed, then write the dirty buffer back. */
    method PrepareWrite() returns (res: FResult, full: bool)
      requires Core() && Buffered() && Positioned() && fptr % SECTOR_SIZE == 0
      modifies this`sclust, this`clust, this`chain, this`dirty, fs, fs.win, fs.disk
      ensures fs.Valid()
      ensures res == FrOk || res == FrIntErr || res == FrDiskErr
      ensures res == FrOk ==> Preserved() && Buffered()
      ensures res == FrOk && !full ==> !dirty && ClusterOf(fs.geo, fptr / SECTOR_SIZE) < |chain|
      ensures res == FrOk && !full ==> clust == chain[ClusterOf(fs.geo, fptr / SECTOR_SIZE)]
      ensures res == FrOk && full ==> NoHole(fs.Table()) && Positioned()
      ensures fs.disk.reliable && NoReserved(old(fs.Table())) ==> res == FrOk
    {
      hide FileSystem.Valid, FileSystem.Logical, FileSystem.Table, FileSystem.Mirrored;
      hide FileOn, WindowAway, OnChain, DataFits, Holds, Clusters, ClusterOf, SlotOf, SameElsewhere, ChainOf, Data;
      hide DataSector, FileObject.Core, FileObject.Contents, FileObject.Effective, NoReserved, At;
      ghost var a := State();
      res, full := FrOk, false;
      if SlotOf(fs.geo, fptr / SECTOR_SIZE) == 0 {
        res, full := FollowForWrite();
        if res != FrOk || full { return; }
      } else {
        AtMid(fs.geo, chain, fptr, clust, sect);
        ConfinedReflexive(fs.geo, a);
      }
      ghost var b := State();
      var ok := Flush();
      if !ok { return FrDiskErr, false; }
      ConfinedTransitive(fs.geo, a, b, State());
    }

    /** One round of the loop of f_write_ */
    method WriteStep(d: seq<byte>) returns (res: FResult, wcnt: nat, full: bool)
      requires Core() && Buffered() && Positioned() && d != [] && fptr + |d| < DWORD
      modifies this`sclust, this`clust, this`chain, this`dirty, this`sect, this`fptr, this`objsize
      modifies buf, fs, fs.win, fs.disk
      ensures fs.Valid()
      ensures res == FrOk || res == FrIntErr || res == FrDiskErr
      ensures wcnt <= |d| && (res == FrOk && !full ==> wcnt > 0)
      ensures res == FrOk && !full ==> Wrote(d[..wcnt]) && Positioned() && Buffered()
      ensures res == FrOk && full ==> Preserved() && Positioned() && Buffered() && NoHole(fs.Table()) && wcnt == 0
      ensures fs.disk.reliable && NoReserved(old(fs.Table())) ==> res == FrOk
    {
      hide FileSystem.Valid, FileSystem.Logical, FileSystem.Table, FileSystem.Mirrored;
      hide FileOn, WindowAway, OnChain, DataFits, Holds, Clusters, ClusterOf, SlotOf, SameElsewhere, ChainOf, Data;
      hide DataSector, FileObject.Core, FileObject.Contents, FileObject.Effective, NoReserved, At, Overlay, Confined;
      ghost var a := State();
      res, wcnt, full := FrOk, 0, false;
      if fptr % SECTOR_SIZE == 0 {
        res, full := PrepareWrite();
        if res != FrOk || full { return; }
        ghost var b := State();
        var csect := SlotOf(fs.geo, fptr / SECTOR_SIZE);
        var cc := |d| / SECTOR_SIZE;
        if cc != 0 {
          if csect + cc > fs.geo.csize { cc := fs.geo.csize - csect; }
          wcnt := SECTOR_SIZE * cc;
          var ok := WriteRun(d[..wcnt], csect, cc);
          if !ok { return FrDiskErr, wcnt, false; }
          ConfinedTransitive(fs.geo, a, b, State());
          return;
        }
        SectorNumber(fs.geo, chain, fptr / SECTOR_SIZE);
        var ok := LoadForWrite(Clust2Sect(fs.geo, clust) + csect);
        if !ok { return FrDiskErr, 0, false; }
        ConfinedTransitive(fs.geo, a, b, State());
      } else {
        AtMid(fs.geo, chain, fptr, clust, sect);
        RunAway1(fs.geo, fs.Logical(), fs.Table(), chain, fs.winsect, fptr / SECTOR_SIZE);
        ConfinedReflexive(fs.geo, a);
      }
      wcnt := SECTOR_SIZE - fptr % SECTOR_SIZE;
      if wcnt > |d| { wcnt := |d|; }
      ghost var c := State();
      PutPartial(d[..wcnt]);
      ConfinedTransitive(fs.geo, a, c, State());
    }

    /** Notes that the directory entry has to be written. */
    method SetModified()
      requires Core() && Buffered() && Positioned()
      modifies this`modified
      ensures Core() && Buffered() && Positioned() && State() == old(State())
    {
      hide FileSystem.Valid, FileSystem.Logical, FileSystem.Table;
      modified := true;
      CoreHolds();
    }

    /** f_write_: `bw` bytes of `wbuff` go to the file at its position. */
    method Write(wbuff: seq<byte>) returns (res: FResult, bw: nat)
      requires Valid() && |wbuff| < DWORD
      modifies this, buf, fs, fs.win, fs.disk
      ensures Valid() && bw <= |wbuff|
      ensures old(err) != FrOk ==> res == old(err) && bw == 0
      ensures old(err) == FrOk && !canWrite ==> res == FrDenied && bw == 0 && unchanged(this, buf, fs, fs.disk)
      ensures old(err) == FrOk && res == FrOk ==> Wrote(wbuff[..bw]) && err == FrOk
      ensures old(err) == FrOk && res == FrOk ==> bw <= WriteLimit(old(fptr), |wbuff|)
      ensures old(err) == FrOk && res == FrOk && bw < WriteLimit(old(fptr), |wbuff|) ==> NoHole(fs.Table())
      ensures res != FrOk && res != FrDenied ==> err == res
      ensures old(err) == FrOk && canWrite && fs.disk.reliable && NoReserved(old(fs.Table())) ==> res == FrOk
    {
      hide FileSystem.Valid, FileSystem.Logical, FileSystem.Table, FileSystem.Mirrored;
      hide FileOn, WindowAway, OnChain, DataFits, Holds, Clusters, ClusterOf, SlotOf, SameElsewhere, ChainOf, Data;
      hide DataSector, FileObject.Core, FileObject.Contents, FileObject.Effective, NoReserved, At, Overlay, Confined;
      if err != FrOk { return err, 0; }
      if !canWrite { return FrDenied, 0; }
      res, bw := WriteBytes(wbuff, WriteLimit(fptr, |wbuff|));
      if res == FrOk { SetModified(); }
    }

    /** The loop of f_write_, for the first `btw` bytes */
    method WriteBytes(wbuff: seq<byte>, btw: nat) returns (res: FResult, bw: nat)
      requires Core() && Buffered() && Positioned() && err == FrOk && btw <= |wbuff| && fptr + btw < DWORD
      modifies this, buf, fs, fs.win, fs.disk
      ensures fs.Valid() && bw <= btw && err == res
      ensures res == FrOk ==> Wrote(wbuff[..bw]) && Buffered() && Positioned()
      ensures res == FrOk && bw < btw ==> NoHole(fs.Table())
      ensures res != FrDenied && (fs.disk.reliable && NoReserved(old(fs.Table())) ==> res == FrOk)
    {
      hide FileSystem.Valid, FileSystem.Logical, FileSystem.Table, FileSystem.Mirrored;
      hide FileOn, WindowAway, OnChain, DataFits, Holds, Clusters, ClusterOf, SlotOf, SameElsewhere, ChainOf, Data;
      hide DataSector, FileObject.Core, FileObject.Contents, FileObject.Effective, NoReserved, At, Overlay, Confined;
      bw := 0;
      ghost var a := State();
      ConfinedReflexive(fs.geo, a);
      OverlayNothing(a.bytes, fptr, wbuff[..0]);
      var full := false;
      while bw < btw && !full
        invariant Core() && Buffered() && Positioned() && err == FrOk
        invariant bw <= btw && fptr == old(fptr) + bw
        invariant State().bytes == Overlay(a.bytes, old(fptr), wbuff[..bw])
        invariant Confined(fs.geo, a, State()) && (NoReserved(a.fat) ==> NoReserved(fs.Table()))
        invariant full ==> NoHole(fs.Table())
        decreases !full, btw - bw
      {
        ghost var b, p := State(), fptr;
        var d, wcnt := wbuff[bw..btw], 0;
        res, wcnt, full := WriteStep(d);
        if res != FrOk {
          err := res;
          return res, bw;
        }
        ConfinedTransitive(fs.geo, a, b, State());
        ConfinedUnreserved(fs.geo, a, State());
        OverlayTwice(a.bytes, old(fptr), wbuff[..bw], d[..wcnt]);
        NextPrefix(wbuff, bw, btw, wcnt);
        OverlayNothing(b.bytes, p, d[..0]);
        bw := bw + wcnt;
      }
      res := FrOk;
    }

    /** f_read_ on a cluster boundary: take the first cluster of the file or follow the FAT from `clust`. */
    method FollowForRead() returns (res: FResult)
      requires Core() && Positioned() && fptr % SECTOR_SIZE == 0 && SlotOf(fs.geo, fptr / SECTOR_SIZE) == 0
      requires fptr < objsize
      modifies this`clust, fs, fs.win, fs.disk
      ensures fs.Valid()
      ensures res == FrOk || res == FrDiskErr
      ensures res == FrOk ==> Preserved() && fs.Logical() == old(fs.Logical()) && fs.Table() == old(fs.Table())
      ensures res == FrOk ==> ClusterOf(fs.geo, fptr / SECTOR_SIZE) < |chain|
      ensures res == FrOk ==> clust == chain[ClusterOf(fs.geo, fptr / SECTOR_SIZE)]
      ensures fs.disk.reliable ==> res == FrOk
    {
      hide FileSystem.Valid, FileSystem.Logical, FileSystem.Table, FileSystem.Mirrored, FileObject.Core;
      hide FileOn, WindowAway, OnChain, DataFits, Holds, Clusters, ClusterOf, SlotOf, SameElsewhere, Data, EntryRange;
      hide Mounted;
      hide Confined;
      ghost var a, fat, ws, i := State(), fs.Table(), fs.winsect, ClusterOf(fs.geo, fptr / SECTOR_SIZE);
      Boundary(fs.geo, chain, objsize, fptr);
      HoldsByte(fs.geo, chain, objsize, fptr);
      var clst: nat;
      if fptr == 0 {
        clst := sclust;
      } else {
        MemberStep(fat, chain, i - 1);
        clst := fs.GetFat(clust);
      }
      if clst == DISK_ERROR { return FrDiskErr; }
      if clst < 2 { return FrIntErr; }
      clust := clst;
      WindowStaysAway(fs.geo, |a.view|, fat, chain, fat, chain, ws, fs.winsect);
      CoreHolds();
      ConfinedReflexive(fs.geo, a);
      res := FrOk;
    }

    /** The direct read itself, with the sector replaced that the dirty buffer still has to write */
    method DirectRead(rbuff: array<byte>, at: nat, sct: nat, cc: nat) returns (ok: bool)
      requires fs.Valid() && buf.Length == SECTOR_SIZE && buf != fs.win && rbuff != buf && rbuff != fs.win
      requires at + SECTOR_SIZE * cc <= rbuff.Length && sct + cc <= |fs.Logical()| && fs.OffWindow(sct, cc)
      modifies rbuff
      ensures rbuff[..][..at] == old(rbuff[..])[..at]
      ensures rbuff[..][at + SECTOR_SIZE * cc..] == old(rbuff[..])[at + SECTOR_SIZE * cc..]
      ensures ok ==> forall k :: 0 <= k < SECTOR_SIZE * cc ==>
                rbuff[at + k] == Effective()[sct + k / SECTOR_SIZE][k % SECTOR_SIZE]
      ensures fs.disk.reliable ==> ok
    {
      hide FileSystem.Valid, FileSystem.Logical, FileSystem.Table, FileSystem.Mirrored;
      ok := fs.ReadDirect(rbuff, at, sct, cc);
      if ok && dirty && sct <= sect < sct + cc {
        ghost var was := rbuff[..];
        var from := (sect - sct) * SECTOR_SIZE;
        MemCpy(rbuff, at + from, buf[..]);
        ghost var now := rbuff[..];
        forall k | 0 <= k < SECTOR_SIZE * cc
          ensures now[at + k] == Effective()[sct + k / SECTOR_SIZE][k % SECTOR_SIZE]
        {
          assert was[at + k] == fs.Logical()[sct + k / SECTOR_SIZE][k % SECTOR_SIZE];
        }
        assert now[..at] == was[..at] && now[at + SECTOR_SIZE * cc..] == was[at + SECTOR_SIZE * cc..];
      }
    }

    /** f_read_ of whole sectors straight to the caller's buffer, within one cluster */
    method ReadRun(rbuff: array<byte>, at: nat, csect: nat, cc: nat) returns (ok: bool)
      requires Core() && fptr % SECTOR_SIZE == 0 && rbuff != buf && rbuff != fs.win
      requires ClusterOf(fs.geo, fptr / SECTOR_SIZE) < |chain| && clust == chain[ClusterOf(fs.geo, fptr / SECTOR_SIZE)]
      requires csect == SlotOf(fs.geo, fptr / SECTOR_SIZE) && csect + cc <= fs.geo.csize && cc > 0
      requires at + SECTOR_SIZE * cc <= rbuff.Length && fptr + SECTOR_SIZE * cc <= objsize
      modifies rbuff
      ensures ok ==> rbuff[..] == Overlay(old(rbuff[..]), at, Contents()[fptr..fptr + SECTOR_SIZE * cc])
      ensures At(fs.geo, chain, fptr + SECTOR_SIZE * cc, clust, sect)
      ensures fs.disk.reliable ==> ok
    {
      hide FileSystem.Valid, FileSystem.Logical, FileSystem.Table, FileSystem.Mirrored, FileObject.Core;
      hide FileOn, WindowAway, OnChain, DataFits, Holds, Clusters, ClusterOf, SlotOf, SameElsewhere, ChainOf, Data;
      hide Clust2Sect, DataSector, At, FileObject.Effective, Overlaid, Overlay, ByteAt;
      ghost var was := rbuff[..];
      ghost var v, k, e := fs.Logical(), fptr / SECTOR_SIZE, Effective();
      RunAway(fs.geo, v, fs.Table(), chain, fs.winsect, k, cc);
      AtRunEnd(fs.geo, chain, k, cc, clust, sect);
      var sct := Clust2Sect(fs.geo, clust) + csect;
      ok := DirectRead(rbuff, at, sct, cc);
      if ok {
        RunSlice(fs.geo, e, chain, objsize, k, cc, rbuff[..], at);
        IsOverlay(was, rbuff[..], at, Contents()[fptr..fptr + SECTOR_SIZE * cc]);
      }
    }

    /** f_read_ at a sector boundary: write the dirty buffer back and load sector `sct`. */
    method LoadForRead(sct: nat) returns (ok: bool)
      requires Core() && Buffered() && fptr % SECTOR_SIZE == 0
      requires ClusterOf(fs.geo, fptr / SECTOR_SIZE) < |chain| && sct == DataSector(fs.geo, chain, fptr / SECTOR_SIZE)
      modifies this`sect, this`dirty, buf, fs.disk
      ensures fs.Valid()
      ensures ok ==> Preserved() && Buffered() && sect == sct
      ensures ok ==> fs.Table() == old(fs.Table())
      ensures fs.disk.reliable ==> ok
    {
      hide FileSystem.Valid, FileSystem.Logical, FileSystem.Table, FileSystem.Mirrored, FileObject.Core;
      hide FileOn, WindowAway, OnChain, DataFits, Holds, Clusters, ClusterOf, SlotOf, SameElsewhere, ChainOf, Data;
      hide DataSector, Confined, NoReserved;
      ghost var a := State();
      ConfinedReflexive(fs.geo, a);
      ok := true;
      if sect != sct {
        ok := Flush();
        if !ok { return; }
        ok := Load(sct, fptr / SECTOR_SIZE);
      }
    }

    /** Reads a sector into the buffer, which then belongs to it. */
    method Load(sct: nat, ghost k: nat) returns (ok: bool)
      requires Core() && !dirty
      requires ClusterOf(fs.geo, k) < |chain| && sct == DataSector(fs.geo, chain, k)
      modifies this`sect, buf
      ensures fs.Valid()
      ensures ok ==> Core() && Buffered() && sect == sct && State() == old(State())
      ensures fs.disk.reliable ==> ok
    {
      hide FileSystem.Valid, FileSystem.Logical, FileSystem.Table, FileSystem.Mirrored, FileObject.Core;
      hide FileOn, WindowAway, OnChain, DataFits, Holds, Clusters, ClusterOf, SlotOf, SameElsewhere, ChainOf, Data;
      hide DataSector;
      ghost var v, fat := fs.Logical(), fs.Table();
      RunAway1(fs.geo, v, fat, chain, fs.winsect, k);
      ok := fs.ReadDirect(buf, 0, sct, 1);
      if ok {
        assert buf[..] == buf[0..SECTOR_SIZE];
        FileOnFrame(fs.geo, v, v, fat, sclust, chain, objsize, false, sect, false, sct);
        sect := sct;
        CoreHolds();
      }
    }

    /** The buffer holds the sector of the byte at the position. */
    ghost predicate OverSector()
      reads this, fs
      requires fs.geo.csize > 0 && Clusters(fs.geo, chain)
    {
      var k := fptr / SECTOR_SIZE;
      && ClusterOf(fs.geo, k) < |chain| && clust == chain[ClusterOf(fs.geo, k)]
      && sect == DataSector(fs.geo, chain, k)
    }

    /** Copies what is asked for out of the sector buffer. */
    method PickPartial(rbuff: array<byte>, at: nat, rcnt: nat)
      requires Core() && Buffered() && rbuff != buf && rbuff != fs.win && at + rcnt <= rbuff.Length
      requires OverSector() && 0 < rcnt && fptr % SECTOR_SIZE + rcnt <= SECTOR_SIZE && fptr + rcnt <= objsize
      modifies rbuff
      ensures rbuff[..] == Overlay(old(rbuff[..]), at, Contents()[fptr..fptr + rcnt])
      ensures At(fs.geo, chain, fptr + rcnt, clust, sect)
    {
      hide FileSystem.Valid, FileSystem.Logical, FileSystem.Table, FileSystem.Mirrored, FileObject.Core;
      hide FileOn, WindowAway, OnChain, DataFits, Holds, Clusters, ClusterOf, SlotOf, SameElsewhere, ChainOf, Data;
      hide DataSector, At, Overlay, ByteAt, InCluster, SameOnChain, Stored, Patched, RunWritten;
      ghost var k, off := fptr / SECTOR_SIZE, fptr % SECTOR_SIZE;
      RunAway1(fs.geo, fs.Logical(), fs.Table(), chain, fs.winsect, k);
      SectorBytes(fs.geo, Effective(), chain, objsize, k, off, rcnt);
      AtSector(fs.geo, chain, k, off + rcnt, clust);
      MemCpy(rbuff, at, buf[fptr % SECTOR_SIZE..fptr % SECTOR_SIZE + rcnt]);
    }

    /** f_read_ at a sector boundary: whole sectors straight from the disk, or else the sector into the buffer. */
    method ReadAligned(rbuff: array<byte>, at: nat, btr: nat) returns (res: FResult, rcnt: nat)
      requires Core() && Buffered() && Positioned() && rbuff != buf && rbuff != fs.win
      requires 0 < btr && at + btr <= rbuff.Length && fptr + btr <= objsize && fptr % SECTOR_SIZE == 0
      modifies this`clust, this`dirty, this`sect, rbuff, buf, fs, fs.win, fs.disk
      ensures fs.Valid()
      ensures res == FrOk || res == FrDiskErr
      ensures res == FrOk ==> Preserved() && Buffered() && rcnt <= btr && fs.Table() == old(fs.Table())
      ensures res == FrOk && rcnt != 0 ==>
                && rbuff[..] == Overlay(old(rbuff[..]), at, Contents()[fptr..fptr + rcnt])
                && At(fs.geo, chain, fptr + rcnt, clust, sect)
      ensures res == FrOk && rcnt == 0 ==> OverSector() && rbuff[..] == old(rbuff[..])
      ensures fs.disk.reliable ==> res == FrOk
    {
      hide FileSystem.Valid, FileSystem.Logical, FileSystem.Table, FileSystem.Mirrored;
      hide FileOn, WindowAway, OnChain, DataFits, Holds, Clusters, ClusterOf, SlotOf, SameElsewhere, ChainOf, Data;
      hide DataSector, FileObject.Core, FileObject.Contents, FileObject.Effective, NoReserved, At, Overlay, Confined;
      ghost var a := State();
      ConfinedReflexive(fs.geo, a);
      rcnt := 0;
      var csect := SlotOf(fs.geo, fptr / SECTOR_SIZE);
      if csect == 0 {
        res := FollowForRead();
        if res != FrOk { return; }
      } else {
        AtMid(fs.geo, chain, fptr, clust, sect);
      }
      SectorNumber(fs.geo, chain, fptr / SECTOR_SIZE);
      var cc := btr / SECTOR_SIZE;
      if cc != 0 {
        if csect + cc > fs.geo.csize { cc := fs.geo.csize - csect; }
        var ok := ReadRun(rbuff, at, csect, cc);
        return if ok then FrOk else FrDiskErr, SECTOR_SIZE * cc;
      }
      ghost var b := State();
      var ok := LoadForRead(Clust2Sect(fs.geo, clust) + csect);
      if !ok { return FrDiskErr, 0; }
      ConfinedTransitive(fs.geo, a, b, State());
      res := FrOk;
    }

    /** One round of the loop of f_read_, up to the increment of the position */
    method ReadStep(rbuff: array<byte>, at: nat, btr: nat) returns (res: FResult, rcnt: nat)
      requires Core() && Buffered() && Positioned() && rbuff != buf && rbuff != fs.win
      requires 0 < btr && at + btr <= rbuff.Length && fptr + btr <= objsize
      modifies this`clust, this`dirty, this`sect, rbuff, buf, fs, fs.win, fs.disk
      ensures fs.Valid()
      ensures res == FrOk || res == FrDiskErr
      ensures res == FrOk ==> Preserved() && Buffered() && 0 < rcnt <= btr && fs.Table() == old(fs.Table())
      ensures res == FrOk ==> rbuff[..] == Overlay(old(rbuff[..]), at, Contents()[fptr..fptr + rcnt])
      ensures res == FrOk ==> At(fs.geo, chain, fptr + rcnt, clust, sect)
      ensures fs.disk.reliable ==> res == FrOk
    {
      hide FileSystem.Valid, FileSystem.Logical, FileSystem.Table, FileSystem.Mirrored;
      hide FileOn, WindowAway, OnChain, DataFits, Holds, Clusters, ClusterOf, SlotOf, SameElsewhere, ChainOf, Data;
      hide DataSector, FileObject.Core, FileObject.Contents, FileObject.Effective, NoReserved, At, Overlay, Confined;
      ConfinedReflexive(fs.geo, State());
      if fptr % SECTOR_SIZE == 0 {
        res, rcnt := ReadAligned(rbuff, at, btr);
        if res != FrOk || rcnt != 0 { return; }
      } else {
        AtMid(fs.geo, chain, fptr, clust, sect);
      }
      rcnt := SECTOR_SIZE - fptr % SECTOR_SIZE;
      if rcnt > btr { rcnt := btr; }
      PickPartial(rbuff, at, rcnt);
      res := FrOk;
    }

    /** Moves the position on behind what was read. */
    method Advance(n: nat)
      requires Core() && Buffered() && fptr + n <= objsize && At(fs.geo, chain, fptr + n, clust, sect)
      modifies this`fptr
      ensures Core() && Buffered() && Positioned() && State() == old(State()) && fptr == old(fptr) + n
      ensures fs.Table() == old(fs.Table()) && chain == old(chain)
    {
      hide FileSystem.Valid, FileSystem.Logical, FileSystem.Table, At;
      fptr := fptr + n;
      CoreHolds();
    }

    /** f_read_: up to `btr` bytes from the position of the file go to `rbuff`. */
    method Read(rbuff: array<byte>, btr: nat) returns (res: FResult, br: nat)
      requires Valid() && btr <= rbuff.Length && rbuff != buf && rbuff != fs.win
      modifies this, rbuff, buf, fs, fs.win, fs.disk
      ensures Valid() && br <= btr
      ensures old(err) != FrOk ==> res == old(err) && br == 0
      ensures old(err) == FrOk && !canRead ==> res == FrDenied && br == 0 && unchanged(this, rbuff, buf, fs, fs.disk)
      ensures old(err) == FrOk && res == FrOk ==>
                && Core() && err == FrOk
                && State().bytes == old(State()).bytes && Confined(fs.geo, old(State()), State())
                && fs.Table() == old(fs.Table()) && chain == old(chain)
                && br == (if btr > objsize - old(fptr) then objsize - old(fptr) else btr)
                && fptr == old(fptr) + br
                && rbuff[..] == Overlay(old(rbuff[..]), 0, old(Contents())[old(fptr)..old(fptr) + br])
      ensures res != FrOk && res != FrDenied ==> err == res
      ensures old(err) == FrOk && canRead && fs.disk.reliable ==> res == FrOk
    {
      hide FileSystem.Valid, FileSystem.Logical, FileSystem.Table, FileSystem.Mirrored;
      hide FileOn, WindowAway, OnChain, DataFits, Holds, Clusters, ClusterOf, SlotOf, SameElsewhere, ChainOf, Data;
      hide DataSector, FileObject.Core, FileObject.Contents, FileObject.Effective, NoReserved, At, Overlay, Confined;
      if err != FrOk { return err, 0; }
      if !canRead { return FrDenied, 0; }
      res, br := ReadBytes(rbuff, if btr > objsize - fptr then objsize - fptr else btr);
    }

    /** The loop of f_read_, for `n` bytes that are there */
    method ReadBytes(rbuff: array<byte>, n: nat) returns (res: FResult, br: nat)
      requires Core() && Buffered() && Positioned() && err == FrOk
      requires fptr + n <= objsize && n <= rbuff.Length && rbuff != buf && rbuff != fs.win
      modifies this, rbuff, buf, fs, fs.win, fs.disk
      ensures fs.Valid() && br <= n && err == res && (res == FrOk || res == FrDiskErr)
      ensures res == FrOk ==>
                && Core() && Buffered() && Positioned()
                && State().bytes == old(State()).bytes && Confined(fs.geo, old(State()), State())
                && fs.Table() == old(fs.Table()) && chain == old(chain) && br == n && fptr == old(fptr) + n
                && rbuff[..] == Overlay(old(rbuff[..]), 0, old(Contents())[old(fptr)..old(fptr) + n])
      ensures fs.disk.reliable ==> res == FrOk
    {
      hide FileSystem.Valid, FileSystem.Logical, FileSystem.Table, FileSystem.Mirrored;
      hide FileOn, WindowAway, OnChain, DataFits, Holds, Clusters, ClusterOf, SlotOf, SameElsewhere, ChainOf, Data;
      hide DataSector, FileObject.Core, FileObject.Contents, FileObject.Effective, NoReserved, At, Overlay, Confined;
      br := 0;
      ghost var a, p, was := State(), fptr, rbuff[..];
      ConfinedReflexive(fs.geo, a);
      OverlayNothing(was, 0, a.bytes[p..p]);
      var left := n;
      while left > 0
        invariant Core() && Buffered() && Positioned() && err == FrOk
        invariant fptr == p + br && br + left == n
        invariant State().bytes == a.bytes && Confined(fs.geo, a, State())
        invariant fs.Table() == a.fat && chain == a.chain
        invariant rbuff[..] == Overlay(was, 0, a.bytes[p..p + br])
        decreases left
      {
        ghost var b := State();
        var rcnt;
        res, rcnt := ReadStep(rbuff, br, left);
        if res != FrOk {
          err := res;
          return res, br;
        }
        ConfinedTransitive(fs.geo, a, b, State());
        OverlaySlices(was, a.bytes, p, br, rcnt);
        Advance(rcnt);
        br := br + rcnt;
        left := left - rcnt;
      }
      res := FrOk;
    }

    /** One round of the cluster following loop of f_lseek_, from the cluster at position `j` */
    method FollowForSeek(clst: nat, ghost j: nat) returns (res: FResult, nxt: nat)
      requires Core() && Buffered() && j < |chain| && clst == chain[j]
      requires !canWrite ==> j + 1 < |chain|
      modifies this`sclust, this`chain, fs, fs.win, fs.disk
      ensures fs.Valid()
      ensures res == FrOk || res == FrIntErr || res == FrDiskErr
      ensures res == FrOk ==> Preserved() && Buffered() && old(chain) <= chain
      ensures res == FrOk ==> if nxt == 0 then NoHole(fs.Table()) && canWrite && j + 1 == |chain| && chain == old(chain)
                              else j + 1 < |chain| && nxt == chain[j + 1]
      ensures fs.disk.reliable && NoReserved(old(fs.Table())) ==> res == FrOk
    {
      hide FileSystem.Valid, FileSystem.Logical, FileSystem.Table, FileSystem.Mirrored, FileObject.Core;
      hide FileOn, WindowAway, OnChain, DataFits, Holds, ClusterOf, SlotOf, SameElsewhere, Data, EntryRange, Mounted;
      hide Confined, NoHole, NoReserved;
      ghost var a, fat, ws := State(), fs.Table(), fs.winsect;
      MemberStep(fat, chain, j);
      ConfinedReflexive(fs.geo, a);
      if canWrite {
        nxt := Reach(clst, j + 1);
        if nxt == 0 { return FrOk, 0; }
      } else {
        nxt := fs.GetFat(clst);
        WindowStaysAway(fs.geo, |a.view|, fat, chain, fat, chain, ws, fs.winsect);
        CoreHolds();
      }
      if nxt == DISK_ERROR { return FrDiskErr, nxt; }
      if nxt <= 1 || nxt >= fs.geo.nFatent { return FrIntErr, nxt; }
      res := FrOk;
    }

    /** f_lseek_ chooses where to start: at the current cluster when seeking forward, else at the first one. */
    method SeekStart(ofs: nat) returns (res: FResult, clst: nat, pos: nat, ghost j: nat)
      requires Core() && Buffered() && Positioned() && 0 < ofs && (!canWrite ==> ofs <= objsize)
      modifies this`sclust, this`clust, this`chain, fs, fs.win, fs.disk
      ensures fs.Valid()
      ensures res == FrOk || res == FrIntErr || res == FrDiskErr
      ensures res == FrOk ==> Preserved() && Buffered()
      ensures res == FrOk && clst == 0 ==> NoHole(fs.Table()) && objsize == 0 && canWrite && pos == 0
      ensures res == FrOk && clst != 0 ==> j < |chain| && clst == clust == chain[j]
      ensures res == FrOk && clst != 0 ==> pos == SectorCount(fs.geo, j) * SECTOR_SIZE < ofs
      ensures fs.disk.reliable && NoReserved(old(fs.Table())) ==> res == FrOk
    {
      hide FileSystem.Valid, FileSystem.Logical, FileSystem.Table, FileSystem.Mirrored;
      hide WindowAway, OnChain, DataFits, Holds, Clusters, ClusterOf, SlotOf, Overlaid, Data, SameElsewhere;
      hide Confined, NoHole, NoReserved, SectorCount, ClusterIndex, FileObject.Core, DataSector;
      ghost var a := State();
      ConfinedReflexive(fs.geo, a);
      CountStep(fs.geo, 0);
      ZeroOnly(fs.Table(), sclust, chain);
      HoldsNothing(fs.geo, chain, objsize);
      res, pos, j := FrOk, 0, 0;
      if fptr > 0 && ClusterIndex(fs.geo, ofs - 1) >= ClusterIndex(fs.geo, fptr - 1) {
        StartHere(fs.geo, fptr - 1, ofs - 1);
        pos := SectorCount(fs.geo, ClusterIndex(fs.geo, fptr - 1)) * SECTOR_SIZE;
        j := ClusterIndex(fs.geo, fptr - 1);
        clst := clust;
      } else {
        clst := sclust;
        if clst == 0 {
          clst := Reach(0, 0);
          if clst == 1 { return FrIntErr, 0, 0, 0; }
          if clst == DISK_ERROR { return FrDiskErr, 0, 0, 0; }
        }
        SetCluster(clst);
      }
    }

    /** Makes a cluster the current one. */
    method SetCluster(clst: nat)
      requires Core() && Buffered()
      modifies this`clust
      ensures Core() && Buffered() && State() == old(State()) && clust == clst
    {
      hide FileSystem.Valid, FileSystem.Logical, FileSystem.Table;
      clust := clst;
      CoreHolds();
    }

    /** The cluster following loop of f_lseek_ */
    method SeekFollow(ofs: nat, clst0: nat, pos0: nat, ghost j0: nat)
      returns (res: FResult, clst: nat, pos: nat, rest: nat, ghost j: nat)
      requires Core() && Buffered() && (!canWrite ==> ofs <= objsize)
      requires j0 < |chain| && 0 != clst0 == clust == chain[j0] && pos0 == SectorCount(fs.geo, j0) * SECTOR_SIZE < ofs
      modifies this`sclust, this`clust, this`chain, fs, fs.win, fs.disk
      ensures fs.Valid()
      ensures res == FrOk || res == FrIntErr || res == FrDiskErr
      ensures res == FrOk ==> Preserved() && Buffered()
      ensures res == FrOk ==> j < |chain| && clust == chain[j] && pos == SectorCount(fs.geo, j) * SECTOR_SIZE
      ensures res == FrOk ==> 0 < rest <= ClusterBytes(fs.geo)
      ensures res == FrOk && clst == 0 ==> NoHole(fs.Table()) && canWrite && j + 1 == |chain|
      ensures res == FrOk && clst == 0 ==> rest == ClusterBytes(fs.geo) && pos + rest < ofs
      ensures res == FrOk && clst != 0 ==> clst == clust && pos + rest == ofs
      ensures fs.disk.reliable && NoReserved(old(fs.Table())) ==> res == FrOk
    {
      hide FileSystem.Valid, FileSystem.Logical, FileSystem.Table, FileSystem.Mirrored;
      hide WindowAway, OnChain, DataFits, Holds, Clusters, ClusterOf, SlotOf, Overlaid, Data, SameElsewhere, ChainOf;
      hide Confined, NoHole, NoReserved, SectorCount, FileObject.Core, FileObject.Contents, DataSector, ClusterBytes;
      ghost var a := State();
      ConfinedReflexive(fs.geo, a);
      res, clst, pos, rest, j := FrOk, clst0, pos0, ofs - pos0, j0;
      var bcs := ClusterBytes(fs.geo);
      while rest > bcs
        invariant Core() && Buffered() && fptr == old(fptr)
        invariant res == FrOk && clst != 0
        invariant j < |chain| && clst == clust == chain[j] && pos == SectorCount(fs.geo, j) * SECTOR_SIZE
        invariant pos + rest == ofs && rest > 0
        invariant State().bytes == a.bytes && Confined(fs.geo, a, State())
        invariant NoReserved(a.fat) ==> NoReserved(fs.Table())
        decreases rest
      {
        ghost var b := State();
        CountStep(fs.geo, j);
        RoomInMode(fs.geo, chain, objsize, ofs, j, canWrite);
        PositiveCluster(fs.geo, fs.Logical());
        var nxt;
        res, nxt := FollowForSeek(clst, j);
        if res != FrOk { return; }
        ConfinedTransitive(fs.geo, a, b, State());
        ConfinedUnreserved(fs.geo, a, State());
        if nxt == 0 {
          clst, rest := 0, bcs;
          break;
        }
        SetCluster(nxt);
        clst, pos, rest, j := nxt, pos + bcs, rest - bcs, j + 1;
      }
    }

    /** The end of f_lseek_: the buffer moves to the sector of the new position, which lies inside a sector. */
    method SeekBuffer(nsect: nat, ghost k: nat) returns (ok: bool)
      requires Core() && Buffered() && ClusterOf(fs.geo, k) < |chain| && nsect == DataSector(fs.geo, chain, k)
      modifies this`sect, this`dirty, buf, fs.disk
      ensures fs.Valid()
      ensures ok ==> Preserved() && Buffered() && sect == nsect && fs.Table() == old(fs.Table())
      ensures fs.disk.reliable ==> ok
    {
      hide FileSystem.Valid, FileSystem.Logical, FileSystem.Table, FileSystem.Mirrored, FileObject.Core;
      hide FileOn, WindowAway, OnChain, DataFits, Holds, Clusters, ClusterOf, SlotOf, SameElsewhere, ChainOf, Data;
      hide DataSector, Confined, NoReserved;
      ghost var a := State();
      ConfinedReflexive(fs.geo, a);
      ok := true;
      if nsect != sect {
        ok := Flush();
        if !ok { return; }
        ok := Load(nsect, k);
      }
    }

    /** f_lseek_ from the chosen start cluster on: follow the chain, then load the sector of the new position. */
    method SeekWithin(ofs: nat, clst0: nat, pos0: nat, ghost j0: nat) returns (res: FResult, np: nat)
      requires Core() && Buffered() && (!canWrite ==> ofs <= objsize)
      requires j0 < |chain| && 0 != clst0 == clust == chain[j0] && pos0 == SectorCount(fs.geo, j0) * SECTOR_SIZE < ofs
      modifies this`sclust, this`clust, this`chain, this`sect, this`dirty, buf, fs, fs.win, fs.disk
      ensures fs.Valid()
      ensures res == FrOk || res == FrIntErr || res == FrDiskErr
      ensures res == FrOk ==> Preserved() && Buffered()
      ensures res == FrOk ==> Holds(fs.geo, chain, np) && At(fs.geo, chain, np, clust, sect)
      ensures res == FrOk ==> np == ofs || (objsize <= np < ofs && canWrite && NoHole(fs.Table()))
      ensures fs.disk.reliable && NoReserved(old(fs.Table())) ==> res == FrOk
    {
      hide FileSystem.Valid, FileSystem.Logical, FileSystem.Table, FileSystem.Mirrored;
      hide WindowAway, OnChain, DataFits, Holds, Clusters, ClusterOf, SlotOf, Overlaid, Data, SameElsewhere, ChainOf;
      hide Confined, NoHole, NoReserved, SectorCount, FileObject.Core, FileObject.Contents, DataSector, ClusterBytes;
      hide At, FileOn, Clust2Sect;
      ghost var a := State();
      var clst, pos, rest;
      ghost var j;
      res, clst, pos, rest, j := SeekFollow(ofs, clst0, pos0, j0);
      np := pos + rest;
      if res != FrOk { return; }
      EndOfChain(fs.geo, chain, objsize, j);
      ghost var c := State();
      if rest % SECTOR_SIZE != 0 {
        var nsect := Clust2Sect(fs.geo, clst) + rest / SECTOR_SIZE;
        AtClusterOffset(fs.geo, chain, j, rest, clust, nsect);
        var ok := SeekBuffer(nsect, np / SECTOR_SIZE);
        if !ok { return FrDiskErr, np; }
        ConfinedTransitive(fs.geo, a, c, State());
      }
      AtClusterOffset(fs.geo, chain, j, rest, clust, sect);
    }

    /** The new position; the file grows when it lies behind the end. */
    method Land(np: nat)
      requires Core() && Buffered() && np < DWORD
      requires Holds(fs.geo, chain, np) && At(fs.geo, chain, np, clust, sect)
      modifies this`fptr, this`objsize, this`modified
      ensures Core() && Buffered() && Positioned() && fptr == np
      ensures |State().bytes| == Max(old(objsize), np)
      ensures State().bytes[..old(objsize)] == old(State()).bytes
      ensures Confined(fs.geo, old(State()), State())
      ensures fs.Table() == old(fs.Table()) && chain == old(chain)
    {
      hide FileSystem.Valid, FileSystem.Logical, FileSystem.Table, At, OnChain, DataFits, WindowAway, Holds, Data;
      hide Clusters, ClusterOf, ChainOf;
      DataPrefix(fs.geo, Effective(), chain, objsize, Max(objsize, np));
      fptr := np;
      if fptr > objsize {
        objsize := fptr;
        modified := true;
      }
      CoreHolds();
    }

    /**
     * f_lseek_: the position a seek to `ofs` aims at is `ofs`, clipped to the
     * file size in read-only mode. In write mode the chain grows up to it; when
     * the volume is full, the position stays at the end of the chain.
     */
    method Seek(ofs: nat) returns (res: FResult)
      requires Valid() && ofs < DWORD
      modifies this, buf, fs, fs.win, fs.disk
      ensures Valid()
      ensures old(err) != FrOk ==> res == old(err)
      ensures old(err) == FrOk && res == FrOk ==>
                && Core() && err == FrOk && Confined(fs.geo, old(State()), State())
                && |State().bytes| == Max(old(objsize), fptr)
                && State().bytes[..old(objsize)] == old(State()).bytes
      ensures old(err) == FrOk && res == FrOk ==>
                || fptr == SeekTarget(ofs, old(objsize), canWrite)
                || (old(objsize) <= fptr < ofs && canWrite && NoHole(fs.Table()))
      ensures res != FrOk ==> err == res
      ensures old(err) == FrOk && fs.disk.reliable && NoReserved(old(fs.Table())) ==> res == FrOk
    {
      hide FileSystem.Valid, FileSystem.Logical, FileSystem.Table, FileSystem.Mirrored;
      hide WindowAway, OnChain, DataFits, Holds, Clusters, ClusterOf, SlotOf, Overlaid, Data, SameElsewhere, ChainOf;
      hide Confined, NoHole, NoReserved, SectorCount, FileObject.Core, FileObject.Contents, DataSector, ClusterBytes;
      hide At, FileOn, Clust2Sect;
      if err != FrOk { return err; }
      ghost var a := State();
      var target := SeekTarget(ofs, objsize, canWrite);
      ConfinedReflexive(fs.geo, a);
      AtStart(fs.geo, chain, clust, sect);
      var clst, np := 0, 0;
      ghost var j := 0;
      res := FrOk;
      if target > 0 {
        res, clst, np, j := SeekStart(target);
        if res != FrOk { err := res; return; }
        ConfinedUnreserved(fs.geo, a, State());
        if clst != 0 {
          ghost var b := State();
          res, np := SeekWithin(target, clst, np, j);
          if res != FrOk { err := res; return; }
          ConfinedTransitive(fs.geo, a, b, State());
        } else {
          AtStart(fs.geo, chain, clust, sect);
        }
      }
      ghost var d := State();
      Land(np);
      ConfinedTransitive(fs.geo, a, d, State());
    }

    /** remove_chain behind the first `k` clusters of the file */
    method CutFrom(clst: nat, pclst: nat, ghost k: nat) returns (res: FResult)
      requires fs.Valid() && IsChain(fs.Table(), chain) && k < |chain|
      requires clst == chain[k] && pclst == if k == 0 then 0 else chain[k - 1]
      modifies fs, fs.win, fs.disk
      ensures fs.Valid() && SameOutsideFat(fs.geo, old(fs.Logical()), fs.Logical())
      ensures res == FrOk || res == FrDiskErr
      ensures res == FrOk ==> fs.Table() == Cut(old(fs.Table()), chain, k, EndMark(fs.geo.fsType))
      ensures res == FrOk ==> fs.freeClst == AddFree(old(fs.freeClst), |chain| - k)
      ensures fs.winsect == old(fs.winsect) || fs.winsect == DISK_ERROR || InFat(fs.geo, fs.winsect)
      ensures fs.disk.reliable ==> res == FrOk
    {
      hide HasFat, Mounted, InFat, FileSystem.Valid, FileSystem.Logical, FileSystem.Table, FileSystem.Mirrored;
      hide Cut, Unlink, AddFree, EntryRange, SameOutsideFat;
      UnlinkCut(fs.Table(), chain, k, EndMark(fs.geo.fsType));
      res := fs.RemoveChain(clst, pclst);
    }

    /** The FAT part of f_truncate_: free the clusters behind the one that holds byte fptr-1. */
    method CutTail() returns (res: FResult, ghost k: nat)
      requires Core() && Positioned() && fptr < objsize
      modifies fs, fs.win, fs.disk
      ensures fs.Valid() && SameOutsideFat(fs.geo, old(fs.Logical()), fs.Logical())
      ensures res == FrOk || res == FrDiskErr
      ensures k == if fptr == 0 then 0 else ClusterOf(fs.geo, (fptr - 1) / SECTOR_SIZE) + 1
      ensures k <= |chain|
      ensures res == FrOk ==> fs.freeClst == AddFree(old(fs.freeClst), |chain| - k)
      ensures res == FrOk && k == |chain| ==> fs.Table() == old(fs.Table())
      ensures res == FrOk && k < |chain| ==> fs.Table() == Cut(old(fs.Table()), chain, k, EndMark(fs.geo.fsType))
      ensures fs.winsect == old(fs.winsect) || fs.winsect == DISK_ERROR || InFat(fs.geo, fs.winsect)
      ensures fs.disk.reliable ==> res == FrOk
    {
      hide HasFat, Mounted, InFat, FileSystem.Valid, FileSystem.Logical, FileSystem.Table, FileSystem.Mirrored;
      hide FileObject.Core, WindowAway, OnChain, DataFits, Holds, Clusters, ClusterOf, SlotOf, Data, EntryRange, Cut;
      k := if fptr == 0 then 0 else ClusterOf(fs.geo, (fptr - 1) / SECTOR_SIZE) + 1;
      HoldsByte(fs.geo, chain, objsize, fptr);
      if fptr == 0 {
        res := CutFrom(sclust, 0, k);
      } else {
        MemberStep(fs.Table(), chain, k - 1);
        var ncl := fs.GetFat(clust);
        if ncl == DISK_ERROR { return FrDiskErr, k; }
        if ncl == 1 { return FrIntErr, k; }
        res := FrOk;
        if ncl < fs.geo.nFatent {
          res := CutFrom(ncl, clust, k);
        }
      }
    }

    /** The write-back of f_truncate_: the buffer may belong to a cluster that is free by now. */
    method FlushAfterCut() returns (ok: bool)
      requires fs.Valid() && buf.Length == SECTOR_SIZE && buf != fs.win && Buffered()
      requires dirty ==> fs.geo.database <= sect < |fs.Logical()| && fs.winsect != sect
      modifies this`dirty, fs.disk
      ensures fs.Valid() && |fs.Logical()| == |old(fs.Logical())|
      ensures ok ==> !dirty && fs.Logical() == old(Effective()) && fs.Table() == old(fs.Table()) && Buffered()
      ensures fs.disk.reliable ==> ok
    {
      hide FileSystem.Valid, FileSystem.Logical, FileSystem.Table, FileSystem.Mirrored;
      ghost var v := fs.Logical();
      ok := true;
      if dirty {
        ok := fs.WriteDirect(buf[..], sect, 1);
        assert buf[..] == buf[..][0..SECTOR_SIZE];
        if ok {
          dirty := false;
          assert fs.Logical() == v[sect := buf[..]];
        }
      }
    }

    /** f_truncate_ on the disk: free the clusters behind the first `k`, and write a dirty buffer back. */
    method CutAndFlush() returns (res: FResult, ghost k: nat)
      requires Core() && Buffered() && Positioned() && fptr < objsize
      modifies this`sclust, this`objsize, this`modified, this`dirty, fs, fs.win, fs.disk
      ensures fs.Valid()
      ensures res == FrOk || res == FrDiskErr
      ensures res == FrOk ==>
                && k == (if fptr == 0 then 0 else ClusterOf(fs.geo, (fptr - 1) / SECTOR_SIZE) + 1) && k <= |chain|
                && fs.freeClst == AddFree(old(fs.freeClst), |chain| - k)
                && (k == |chain| ==> fs.Table() == old(fs.Table()))
                && (k < |chain| ==> fs.Table() == Cut(old(fs.Table()), chain, k, EndMark(fs.geo.fsType)))
                && SameOutsideFat(fs.geo, old(Effective()), fs.Logical())
                && SameElsewhere(fs.geo, old(fs.Logical()), fs.Logical(), chain)
                && (fs.winsect == old(fs.winsect) || fs.winsect == DISK_ERROR || InFat(fs.geo, fs.winsect))
                && !dirty && Buffered() && objsize == fptr && sclust == if fptr == 0 then 0 else old(sclust)
      ensures fs.disk.reliable ==> res == FrOk
    {
      hide FileSystem.Valid, FileSystem.Logical, FileSystem.Table, FileSystem.Mirrored, FileObject.Core;
      hide WindowAway, OnChain, DataFits, Holds, Clusters, ClusterOf, SlotOf, Data, EntryRange, Cut, FileOn, At;
      hide Mounted, Stored, RunWritten, Patched, ClusterBytes, ClusterIndex, ByteAt, InCluster, SameOnChain;
      hide Overlaid, SameElsewhere, SameOutsideFat, ChainOf, InFat, CutAt, AddFree, EndMark, Grows, WellFormed, IsChain;
      ghost var fat, v, ws := fs.Table(), fs.Logical(), fs.winsect;
      res, k := CutTail();
      KeepsBuffered(fs.geo, v, fs.Logical(), sect);
      TailAway(fs.geo, v, fs.Logical(), fat, sclust, chain, objsize, dirty, sect, buf[..], ws, fs.winsect);
      if fptr == 0 { sclust := 0; }
      objsize := fptr;
      modified := true;
      if res != FrOk { return; }
      var ok := FlushAfterCut();
      return if ok then FrOk else FrDiskErr, k;
    }

    /** The working part of f_truncate_ */
    method CutFile() returns (res: FResult)
      requires Core() && Buffered() && Positioned() && fptr < objsize
      modifies this`sclust, this`objsize, this`modified, this`dirty, this`chain, fs, fs.win, fs.disk
      ensures fs.Valid()
      ensures res == FrOk || res == FrDiskErr
      ensures res == FrOk ==> Core() && Buffered() && Positioned() && objsize == fptr
      ensures res == FrOk ==> State().bytes == old(State()).bytes[..fptr]
      ensures res == FrOk ==> SameElsewhere(fs.geo, old(fs.Logical()), fs.Logical(), old(chain))
      ensures res == FrOk ==> CutAt(old(fs.Table()), old(chain), fs.Table(), chain, EndMark(fs.geo.fsType))
      ensures res == FrOk ==> fs.freeClst == AddFree(old(fs.freeClst), |old(chain)| - |chain|)
      ensures fs.disk.reliable ==> res == FrOk
    {
      hide FileSystem.Valid, FileSystem.Logical, FileSystem.Table, FileSystem.Mirrored, FileObject.Core;
      hide WindowAway, OnChain, DataFits, Holds, Clusters, ClusterOf, SlotOf, Data, EntryRange, Cut, FileOn, At;
      hide Mounted, Stored, RunWritten, Patched, ClusterBytes, ClusterIndex, ByteAt, InCluster, SameOnChain;
      hide Overlaid, SameElsewhere, SameOutsideFat, ChainOf, InFat, CutAt, AddFree, EndMark, Grows, WellFormed, IsChain;
      ghost var a, v, e, ws, size, d0 := State(), fs.Logical(), Effective(), fs.winsect, objsize, dirty;
      ghost var first := sclust;
      ghost var k: nat;
      res, k := CutAndFlush();
      if res != FrOk { return; }
      CutEffect(fs.geo, v, e, fs.Logical(), a.fat, first, chain, size, d0, fptr, clust, sect, k, fs.Table(), ws,
                fs.winsect);
      chain := chain[..k];
      CoreHolds();
      Unwritten(fs.geo, fs.Logical(), chain, sect, buf[..]);
    }

    /** f_truncate_: cut the file at its position. */
    method Truncate() returns (res: FResult)
      requires Valid()
      modifies this, buf, fs, fs.win, fs.disk
      ensures Valid()
      ensures old(err) != FrOk ==> res == old(err)
      ensures old(err) == FrOk && !canWrite ==> res == FrDenied && unchanged(this, buf, fs, fs.disk)
      ensures old(err) == FrOk && res == FrOk ==>
                && Core() && err == FrOk && fptr == old(fptr) && objsize == old(fptr)
                && State().bytes == old(State()).bytes[..old(fptr)]
                && SameElsewhere(fs.geo, old(fs.Logical()), fs.Logical(), old(chain))
      ensures old(err) == FrOk && res == FrOk ==>
                CutAt(old(fs.Table()), old(chain), fs.Table(), chain, EndMark(fs.geo.fsType))
      ensures old(err) == FrOk && res == FrOk ==>
                fs.freeClst == AddFree(old(fs.freeClst), |old(chain)| - |chain|)
      ensures old(err) == FrOk && canWrite && fs.disk.reliable ==> res == FrOk
    {
      hide FileSystem.Valid, FileSystem.Logical, FileSystem.Table, FileSystem.Mirrored;
      hide WindowAway, OnChain, DataFits, Holds, Clusters, ClusterOf, Data, EntryRange, FileObject.Core, FileOn;
      hide At, Cut, ChainOf;
      if err != FrOk { return err; }
      if !canWrite { return FrDenied; }
      if objsize > fptr {
        res := CutFile();
        if res != FrOk { err := res; }
      } else {
        res := FrOk;
      }
    }
  }

  /** `more` is a chain and `chain` what a cut leaves of it. */
  predicate CutAt(fat: seq<nat>, more: seq<nat>, after: seq<nat>, chain: seq<nat>, eoc: nat)
  {
    && chain <= more
    && (|chain| < |more| ==> IsChain(fat, more) && after == Cut(fat, more, |chain|, eoc))
    && (|chain| == |more| ==> after == fat)
  }
}