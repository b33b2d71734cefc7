/**
 * Where the bytes of a cluster chain lie on the volume, and what a file made
 * of such a chain contains. Sector `k` of a file is sector SlotOf(k) of the
 * cluster number ClusterOf(k) of its chain.
 */
module FileData {
  import opened Arithmetic
  import opened Base
  import opened FatTable
  import opened Chains

  function ClusterOf(g: Geometry, k: nat): (i: nat)
    requires g.csize > 0
  {
    k / g.csize
  }

  /** fptr / SS(fs) & (csize - 1) */
  function SlotOf(g: Geometry, k: nat): (j: nat)
    requires g.csize > 0
    ensures j < g.csize
  {
    k % g.csize
  }

  /** The number of sectors in `len` clusters */
  function SectorCount(g: Geometry, len: nat): (n: nat)
  {
    len * g.csize
  }

  /** clust2sect for a valid cluster number */
  function ClusterSector(g: Geometry, c: nat): (s: nat)
    requires c >= 2
    ensures s >= g.database
  {
    (c - 2) * g.csize + g.database
  }

  /** clust2sect: 0 for an invalid cluster number */
  function Clust2Sect(g: Geometry, c: nat): (s: nat)
  {
    if c < 2 || c >= g.nFatent then 0 else ClusterSector(g, c)
  }

  /** All clusters of the volume lie inside a device of `size` sectors. */
  predicate DataFits(g: Geometry, size: nat): (b: bool)
    requires g.nFatent >= 2
    ensures b ==> g.csize > 0
  {
    g.csize > 0 && g.database + SectorCount(g, g.nFatent - 2) <= size
  }

  /* Arithmetic of sectors and clusters */

  lemma SlotStep(g: Geometry, k: nat, m: nat)
    requires g.csize > 0 && SlotOf(g, k) + m < g.csize
    ensures ClusterOf(g, k + m) == ClusterOf(g, k) && SlotOf(g, k + m) == SlotOf(g, k) + m
  {
    DivModUnique(k + m, g.csize, k / g.csize, k % g.csize + m);
  }

  lemma NextCluster(g: Geometry, k: nat, m: nat)
    requires g.csize > 0 && SlotOf(g, k) + m == g.csize
    ensures ClusterOf(g, k + m) == ClusterOf(g, k) + 1 && SlotOf(g, k + m) == 0
  {
    DivModUnique(k + m, g.csize, k / g.csize + 1, 0);
  }

  lemma SectorOfCluster(g: Geometry, i: nat, j: nat)
    requires j < g.csize
    ensures ClusterOf(g, SectorCount(g, i) + j) == i && SlotOf(g, SectorCount(g, i) + j) == j
  {
    DivModUnique(i * g.csize + j, g.csize, i, j);
  }

  lemma SectorSplit(g: Geometry, k: nat)
    requires g.csize > 0
    ensures k == SectorCount(g, ClusterOf(g, k)) + SlotOf(g, k)
  {
  }

  lemma DivModUnique(x: nat, m: nat, q: nat, r: nat)
    requires m > 0 && x == q * m + r && r < m
    ensures x / m == q && x % m == r
  {
    var d := x / m - q;
    assert d * m == r - x % m;
    Sign(d, m);
  }

  lemma Scale(a: nat, b: nat, m: nat)
    requires a <= b
    ensures a * m <= b * m
    ensures a > 0 ==> a * m == (a - 1) * m + m
  {
  }

  lemma CountStep(g: Geometry, len: nat)
    ensures SectorCount(g, len + 1) == SectorCount(g, len) + g.csize
    ensures SectorCount(g, 0) == 0
  {
  }

  lemma Covered(g: Geometry, len: nat, k: nat)
    requires g.csize > 0
    ensures k < SectorCount(g, len) <==> ClusterOf(g, k) < len
  {
    SectorSplit(g, k);
    var i := k / g.csize;
    if i < len {
      Scale(i + 1, len, g.csize);
    } else {
      Scale(len, i, g.csize);
    }
  }

  lemma ClustersApart(g: Geometry, c: nat, d: nat)
    requires 2 <= c < d
    ensures ClusterSector(g, c) + g.csize <= ClusterSector(g, d)
  {
    Scale(c - 1, d - 2, g.csize);
  }

  lemma ClusterInside(g: Geometry, c: nat, size: nat)
    requires 2 <= c < g.nFatent && DataFits(g, size)
    ensures ClusterSector(g, c) + g.csize <= size
  {
    Scale(c - 1, g.nFatent - 2, g.csize);
  }

  /* The bytes of a file */

  predicate Clusters(g: Geometry, chain: seq<nat>)
  {
    Distinct(chain) && forall i :: 0 <= i < |chain| ==> 2 <= chain[i] < g.nFatent
  }

  lemma ChainClusters(g: Geometry, fat: seq<nat>, sclust: nat, chain: seq<nat>)
    requires |fat| == g.nFatent && ChainOf(fat, sclust, chain)
    ensures Clusters(g, chain)
  {
  }

  /** The volume sector of file sector `k` */
  function DataSector(g: Geometry, chain: seq<nat>, k: nat): (s: nat)
    requires g.csize > 0 && Clusters(g, chain) && ClusterOf(g, k) < |chain|
    ensures s >= g.database
  {
    ClusterSector(g, chain[ClusterOf(g, k)]) + SlotOf(g, k)
  }

  lemma DataSectorInside(g: Geometry, chain: seq<nat>, k: nat, size: nat)
    requires g.nFatent >= 2 && DataFits(g, size) && Clusters(g, chain) && ClusterOf(g, k) < |chain|
    ensures DataSector(g, chain, k) < size
  {
    ClusterInside(g, chain[ClusterOf(g, k)], size);
  }

  /** Different sectors of a file lie in different places. */
  lemma DataSectorsApart(g: Geometry, chain: seq<nat>, k: nat, l: nat)
    requires g.csize > 0 && Clusters(g, chain) && ClusterOf(g, k) < |chain| && ClusterOf(g, l) < |chain|
    requires DataSector(g, chain, k) == DataSector(g, chain, l)
    ensures k == l
  {
    hide ClusterSector, ClusterOf, SlotOf;
    var c, d := chain[ClusterOf(g, k)], chain[ClusterOf(g, l)];
    if c < d {
      ClustersApart(g, c, d);
    } else if d < c {
      ClustersApart(g, d, c);
    }
    SectorSplit(g, k);
    SectorSplit(g, l);
  }

  /** Consecutive sectors of one cluster are consecutive on the volume. */
  lemma DataSectorRun(g: Geometry, chain: seq<nat>, k: nat, m: nat)
    requires g.csize > 0 && Clusters(g, chain) && ClusterOf(g, k) < |chain| && SlotOf(g, k) + m < g.csize
    ensures ClusterOf(g, k + m) == ClusterOf(g, k)
    ensures DataSector(g, chain, k + m) == DataSector(g, chain, k) + m
  {
    SlotStep(g, k, m);
  }

  /** The chain has room for `n` bytes. */
  predicate Holds(g: Geometry, chain: seq<nat>, n: nat)
  {
    n <= SectorCount(g, |chain|) * SECTOR_SIZE
  }

  lemma HoldsByte(g: Geometry, chain: seq<nat>, n: nat, p: nat)
    requires g.csize > 0 && Holds(g, chain, n) && p < n
    ensures ClusterOf(g, p / SECTOR_SIZE) < |chain|
  {
    Covered(g, |chain|, p / SECTOR_SIZE);
  }

  function ByteAt(g: Geometry, e: seq<Sector>, chain: seq<nat>, p: nat): (b: byte)
    requires g.nFatent >= 2 && DataFits(g, |e|) && Clusters(g, chain) && ClusterOf(g, p / SECTOR_SIZE) < |chain|
  {
    DataSectorInside(g, chain, p / SECTOR_SIZE, |e|);
    e[DataSector(g, chain, p / SECTOR_SIZE)][p % SECTOR_SIZE]
  }

  /** The first `size` bytes of a chain on the sectors `e` */
  function Data(g: Geometry, e: seq<Sector>, chain: seq<nat>, size: nat): (d: seq<byte>)
    requires g.nFatent >= 2 && DataFits(g, |e|) && Clusters(g, chain) && Holds(g, chain, size)
    ensures |d| == size
    ensures forall p :: 0 <= p < size ==> ClusterOf(g, p / SECTOR_SIZE) < |chain| && d[p] == ByteAt(g, e, chain, p)
  {
    if size == 0 then []
    else
      HoldsByte(g, chain, size, size - 1);
      Data(g, e, chain, size - 1) + [ByteAt(g, e, chain, size - 1)]
  }

  predicate InCluster(g: Geometry, c: nat, s: int)
    requires c >= 2
  {
    ClusterSector(g, c) <= s < ClusterSector(g, c) + g.csize
  }

  /** Sector `s` belongs to a cluster of the chain. */
  predicate OnChain(g: Geometry, chain: seq<nat>, s: int)
    requires Clusters(g, chain)
  {
    exists i :: 0 <= i < |chain| && InCluster(g, chain[i], s)
  }

  lemma DataSectorOnChain(g: Geometry, chain: seq<nat>, k: nat)
    requires g.csize > 0 && Clusters(g, chain) && ClusterOf(g, k) < |chain|
    ensures OnChain(g, chain, DataSector(g, chain, k))
    ensures InCluster(g, chain[ClusterOf(g, k)], DataSector(g, chain, k))
  {
    assert InCluster(g, chain[ClusterOf(g, k)], DataSector(g, chain, k));
  }

  /** e and f agree on the clusters of the chain. */
  predicate SameOnChain(g: Geometry, e: seq<Sector>, f: seq<Sector>, chain: seq<nat>)
    requires Clusters(g, chain)
  {
    |e| == |f| && forall s :: 0 <= s < |e| && OnChain(g, chain, s) ==> f[s] == e[s]
  }

  /** A change outside the clusters of a file, and more clusters behind the last one, do not change the file. */
  lemma DataFrame(g: Geometry, e: seq<Sector>, f: seq<Sector>, chain: seq<nat>, more: seq<nat>, size: nat)
    requires g.nFatent >= 2 && DataFits(g, |e|) && Clusters(g, chain) && Clusters(g, more) && chain <= more
    requires Holds(g, chain, size) && Holds(g, more, size) && SameOnChain(g, e, f, chain)
    ensures Data(g, f, more, size) == Data(g, e, chain, size)
  {
    hide Holds, DataFits, ClusterOf, Clusters, OnChain, ByteAt;
    forall p | 0 <= p < size
      ensures Data(g, f, more, size)[p] == Data(g, e, chain, size)[p]
    {
      HoldsByte(g, chain, size, p);
      ByteFrame(g, e, f, chain, more, p);
    }
  }

  lemma ByteFrame(g: Geometry, e: seq<Sector>, f: seq<Sector>, chain: seq<nat>, more: seq<nat>, p: nat)
    requires g.nFatent >= 2 && DataFits(g, |e|) && Clusters(g, chain) && Clusters(g, more) && chain <= more
    requires ClusterOf(g, p / SECTOR_SIZE) < |chain| && SameOnChain(g, e, f, chain)
    ensures ByteAt(g, f, more, p) == ByteAt(g, e, chain, p)
  {
    hide InCluster, ClusterOf, SlotOf, ClusterSector;
    DataSectorOnChain(g, chain, p / SECTOR_SIZE);
    DataSectorInside(g, chain, p / SECTOR_SIZE, |e|);
  }

  lemma HoldsMore(g: Geometry, chain: seq<nat>, more: seq<nat>, size: nat)
    requires |chain| <= |more| && Holds(g, chain, size)
    ensures Holds(g, more, size)
  {
    Scale(|chain|, |more|, g.csize);
  }

  /** The effect of a store on the bytes of a file: `d` at `at`, the rest as before. */
  predicate Stored(g: Geometry, e: seq<Sector>, f: seq<Sector>, chain: seq<nat>, size: nat, at: nat, d: seq<byte>,
                   p: nat)
    requires g.nFatent >= 2 && DataFits(g, |e|) && DataFits(g, |f|) && Clusters(g, chain)
    requires ClusterOf(g, p / SECTOR_SIZE) < |chain|
  {
    if at <= p < at + |d| then ByteAt(g, f, chain, p) == d[p - at]
    else p < size ==> ByteAt(g, f, chain, p) == ByteAt(g, e, chain, p)
  }

  lemma StoredData(g: Geometry, e: seq<Sector>, f: seq<Sector>, chain: seq<nat>, size: nat, at: nat, d: seq<byte>)
    requires g.nFatent >= 2 && DataFits(g, |e|) && DataFits(g, |f|) && Clusters(g, chain)
    requires at <= size && Holds(g, chain, size) && Holds(g, chain, Max(size, at + |d|))
    requires forall p :: 0 <= p < Max(size, at + |d|) ==>
               ClusterOf(g, p / SECTOR_SIZE) < |chain| && Stored(g, e, f, chain, size, at, d, p)
    ensures Data(g, f, chain, Max(size, at + |d|)) == Overlay(Data(g, e, chain, size), at, d)
  {
    hide Holds, DataFits, ClusterOf, Clusters, ByteAt;
    var a := Data(g, f, chain, Max(size, at + |d|));
    var b := Overlay(Data(g, e, chain, size), at, d);
    assert |a| == |b|;
    forall p | 0 <= p < |a|
      ensures a[p] == b[p]
    {
      assert Stored(g, e, f, chain, size, at, d, p);
    }
  }

  /** Whole sectors written within one cluster */
  predicate RunWritten(e: seq<Sector>, f: seq<Sector>, s: nat, count: nat, d: seq<byte>)
  {
    && |e| == |f| && s + count <= |e| && |d| == SECTOR_SIZE * count
    && (forall i :: s <= i < s + count ==> f[i] == d[(i - s) * SECTOR_SIZE..(i - s + 1) * SECTOR_SIZE])
    && (forall i :: 0 <= i < |e| && !(s <= i < s + count) ==> f[i] == e[i])
  }

  lemma RunByte(g: Geometry, e: seq<Sector>, f: seq<Sector>, chain: seq<nat>, size: nat, k: nat, count: nat,
                d: seq<byte>, p: nat)
    requires g.nFatent >= 2 && DataFits(g, |e|) && Clusters(g, chain) && ClusterOf(g, k) < |chain|
    requires count > 0 && SlotOf(g, k) + count <= g.csize && RunWritten(e, f, DataSector(g, chain, k), count, d)
    requires ClusterOf(g, p / SECTOR_SIZE) < |chain|
    ensures Stored(g, e, f, chain, size, k * SECTOR_SIZE, d, p)
  {
    hide DataFits, ClusterOf, Clusters, SlotOf, DataSector;
    var l := p / SECTOR_SIZE;
    var s := DataSector(g, chain, k);
    DataSectorInside(g, chain, l, |e|);
    if k <= l < k + count {
      DataSectorRun(g, chain, k, l - k);
    } else {
      var t := DataSector(g, chain, l);
      if s <= t < s + count {
        DataSectorRun(g, chain, k, t - s);
        DataSectorsApart(g, chain, l, k + (t - s));
        assert false;
      }
    }
  }

  /** Writing a run of whole sectors overlays the file. */
  lemma RunData(g: Geometry, e: seq<Sector>, f: seq<Sector>, chain: seq<nat>, size: nat, k: nat, count: nat,
                d: seq<byte>)
    requires g.nFatent >= 2 && DataFits(g, |e|) && Clusters(g, chain) && ClusterOf(g, k) < |chain|
    requires count > 0 && SlotOf(g, k) + count <= g.csize && RunWritten(e, f, DataSector(g, chain, k), count, d)
    requires k * SECTOR_SIZE <= size && Holds(g, chain, size) && Holds(g, chain, Max(size, k * SECTOR_SIZE + |d|))
    ensures Data(g, f, chain, Max(size, k * SECTOR_SIZE + |d|)) == Overlay(Data(g, e, chain, size), k * SECTOR_SIZE, d)
  {
    hide DataFits, ClusterOf, Clusters, SlotOf, DataSector, Holds, Stored;
    var n := Max(size, k * SECTOR_SIZE + |d|);
    forall p | 0 <= p < n
      ensures ClusterOf(g, p / SECTOR_SIZE) < |chain| && Stored(g, e, f, chain, size, k * SECTOR_SIZE, d, p)
    {
      HoldsByte(g, chain, n, p);
      RunByte(g, e, f, chain, size, k, count, d, p);
    }
    StoredData(g, e, f, chain, size, k * SECTOR_SIZE, d);
  }

  /** One sector changed: `d` at `off`, the first `keep` bytes otherwise as before */
  predicate Patched(e: seq<Sector>, f: seq<Sector>, s: nat, off: nat, d: seq<byte>, keep: int)
  {
    && |e| == |f| && s < |e| && off + |d| <= SECTOR_SIZE
    && (forall i :: 0 <= i < |d| ==> f[s][off + i] == d[i])
    && (forall i :: 0 <= i < SECTOR_SIZE && i < keep && !(off <= i < off + |d|) ==> f[s][i] == e[s][i])
    && (forall i :: 0 <= i < |e| && i != s ==> f[i] == e[i])
  }

  lemma PatchByte(g: Geometry, e: seq<Sector>, f: seq<Sector>, chain: seq<nat>, size: nat, k: nat, off: nat,
                  d: seq<byte>, p: nat)
    requires g.nFatent >= 2 && DataFits(g, |e|) && Clusters(g, chain) && ClusterOf(g, k) < |chain|
    requires Patched(e, f, DataSector(g, chain, k), off, d, size - k * SECTOR_SIZE)
    requires ClusterOf(g, p / SECTOR_SIZE) < |chain|
    ensures Stored(g, e, f, chain, size, k * SECTOR_SIZE + off, d, p)
  {
    hide DataFits, ClusterOf, Clusters, SlotOf, DataSector;
    var l := p / SECTOR_SIZE;
    var s := DataSector(g, chain, k);
    DataSectorInside(g, chain, l, |e|);
    if l == k {
      var i := p % SECTOR_SIZE;
      assert off <= i < off + |d| ==> f[s][off + (i - off)] == d[i - off];
    } else if DataSector(g, chain, l) == s {
      DataSectorsApart(g, chain, l, k);
    }
  }

  /** Patching the sector buffer overlays the file. */
  lemma PatchData(g: Geometry, e: seq<Sector>, f: seq<Sector>, chain: seq<nat>, size: nat, k: nat, off: nat,
                  d: seq<byte>)
    requires g.nFatent >= 2 && DataFits(g, |e|) && Clusters(g, chain) && ClusterOf(g, k) < |chain|
    requires Patched(e, f, DataSector(g, chain, k), off, d, size - k * SECTOR_SIZE)
    requires k * SECTOR_SIZE + off <= size
    requires Holds(g, chain, size) && Holds(g, chain, Max(size, k * SECTOR_SIZE + off + |d|))
    ensures Data(g, f, chain, Max(size, k * SECTOR_SIZE + off + |d|))
         == Overlay(Data(g, e, chain, size), k * SECTOR_SIZE + off, d)
  {
    assert |e| == |f|;
    hide DataFits, ClusterOf, Clusters, SlotOf, DataSector, Holds, Stored, Patched;
    var at := k * SECTOR_SIZE + off;
    var n := Max(size, at + |d|);
    forall p | 0 <= p < n
      ensures ClusterOf(g, p / SECTOR_SIZE) < |chain| && Stored(g, e, f, chain, size, at, d, p)
    {
      HoldsByte(g, chain, n, p);
      PatchByte(g, e, f, chain, size, k, off, d, p);
    }
    StoredData(g, e, f, chain, size, at, d);
  }

  /** On a cluster boundary the byte before lies in the cluster before. */
  lemma Boundary(g: Geometry, chain: seq<nat>, size: nat, p: nat)
    requires g.csize > 0 && Holds(g, chain, size) && p <= size
    requires p % SECTOR_SIZE == 0 && SlotOf(g, p / SECTOR_SIZE) == 0
    ensures ClusterOf(g, p / SECTOR_SIZE) <= |chain|
    ensures p == 0 ==> ClusterOf(g, p / SECTOR_SIZE) == 0
    ensures p > 0 ==> ClusterOf(g, (p - 1) / SECTOR_SIZE) + 1 == ClusterOf(g, p / SECTOR_SIZE)
  {
    var k := p / SECTOR_SIZE;
    if p > 0 {
      assert (p - 1) / SECTOR_SIZE == k - 1;
      HoldsByte(g, chain, size, p - 1);
      LastSlot(g, k);
      NextCluster(g, k - 1, 1);
    }
  }

  lemma LastSlot(g: Geometry, k: nat)
    requires g.csize > 0 && k > 0 && SlotOf(g, k) == 0
    ensures SlotOf(g, k - 1) == g.csize - 1
  {
    if SlotOf(g, k - 1) + 1 < g.csize {
      SlotStep(g, k - 1, 1);
    }
  }

  /** Bytes per cluster, and the cluster index of byte `p`: p / bcs */
  function ClusterBytes(g: Geometry): (n: nat)
  {
    g.csize * SECTOR_SIZE
  }

  function ClusterIndex(g: Geometry, p: nat): (i: nat)
    requires g.csize > 0
  {
    p / ClusterBytes(g)
  }

  lemma ClusterIndexIs(g: Geometry, p: nat)
    requires g.csize > 0
    ensures ClusterIndex(g, p) == ClusterOf(g, p / SECTOR_SIZE)
    ensures var start := SectorCount(g, ClusterIndex(g, p)) * SECTOR_SIZE; start <= p < start + ClusterBytes(g)
  {
    var k := p / SECTOR_SIZE;
    SectorSplit(g, k);
    var i, j := ClusterOf(g, k), SlotOf(g, k);
    Regroup(i, g.csize);
    DivModUnique(p, ClusterBytes(g), i, j * SECTOR_SIZE + p % SECTOR_SIZE);
  }

  lemma Regroup(i: nat, c: nat)
    ensures i * c * SECTOR_SIZE == i * (c * SECTOR_SIZE)
  {
  }

  /** A later byte lies in the same or a later cluster. */
  lemma ClusterIndexMonotone(g: Geometry, p: nat, q: nat)
    requires g.csize > 0 && p <= q
    ensures ClusterIndex(g, p) <= ClusterIndex(g, q)
  {
    ClusterIndexIs(g, p);
    ClusterIndexIs(g, q);
    if ClusterIndex(g, q) < ClusterIndex(g, p) {
      Scale(ClusterIndex(g, q) + 1, ClusterIndex(g, p), g.csize);
    }
  }

  /** Byte `ofs` of the cluster at position `i` */
  lemma InClusterAt(g: Geometry, i: nat, ofs: nat)
    requires g.csize > 0 && ofs < ClusterBytes(g)
    ensures ClusterOf(g, (SectorCount(g, i) * SECTOR_SIZE + ofs) / SECTOR_SIZE) == i
    ensures SlotOf(g, (SectorCount(g, i) * SECTOR_SIZE + ofs) / SECTOR_SIZE) == ofs / SECTOR_SIZE
    ensures (SectorCount(g, i) * SECTOR_SIZE + ofs) % SECTOR_SIZE == ofs % SECTOR_SIZE
  {
    SectorOfCluster(g, i, ofs / SECTOR_SIZE);
    assert (SectorCount(g, i) * SECTOR_SIZE + ofs) / SECTOR_SIZE == SectorCount(g, i) + ofs / SECTOR_SIZE;
  }

  /** The chain reaches to the end of its cluster at position `i`. */
  lemma HoldsClusters(g: Geometry, chain: seq<nat>, i: nat, n: nat)
    requires i <= |chain| && n <= SectorCount(g, i) * SECTOR_SIZE
    ensures Holds(g, chain, n)
  {
    Scale(i, |chain|, g.csize);
  }

  /** A shorter file on the same chain is a prefix. */
  lemma DataPrefix(g: Geometry, e: seq<Sector>, chain: seq<nat>, n: nat, m: nat)
    requires g.nFatent >= 2 && DataFits(g, |e|) && Clusters(g, chain) && n <= m && Holds(g, chain, m)
    ensures Holds(g, chain, n) && Data(g, e, chain, m)[..n] == Data(g, e, chain, n)
  {
    hide ByteAt, DataFits, Clusters;
  }

  /** A file that goes on behind the cluster at position `j` has a next cluster. */
  lemma RoomBehind(g: Geometry, chain: seq<nat>, size: nat, j: nat)
    requires Holds(g, chain, size) && SectorCount(g, j) * SECTOR_SIZE + ClusterBytes(g) < size
    ensures j + 1 < |chain|
  {
    CountStep(g, j);
    if |chain| <= j + 1 {
      Scale(|chain|, j + 1, g.csize);
    }
  }
}
