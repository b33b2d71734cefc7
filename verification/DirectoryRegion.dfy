/**
 * A directory as the bytes of its entries in order, wherever its sectors lie,
 * and entries read and stored through the window.
 */
module DirectoryRegion {
  import opened Base
  import opened FatTable
  import opened Chains
  import opened FileData
  import opened Window
  import opened Volume
  import opened LongNames
  import opened Directory

  /** All sectors of the directory lie inside the device and outside the FAT. */
  predicate Inside(g: Geometry, chain: seq<nat>, size: nat)
    requires g.csize > 0 && Clusters(g, chain)
  {
    forall ofs :: 0 <= ofs < MAX_DIR && InDirectory(g, chain, ofs) ==>
      SectorInside(g, PlaceOf(g, chain, ofs).sect, size)
  }

  predicate SectorInside(g: Geometry, s: nat, size: nat)
  {
    s < size && s >= g.fatbase + (if g.nFats == 2 then 2 * g.fsize else g.fsize)
  }

  /** A directory in a chain lies inside a mounted volume. */
  lemma ChainInside(g: Geometry, chain: seq<nat>, size: nat)
    requires Mounted(g, size) && DataFits(g, size) && Clusters(g, chain) && chain != []
    ensures Inside(g, chain, size)
  {
    forall ofs | 0 <= ofs < MAX_DIR && InDirectory(g, chain, ofs)
      ensures SectorInside(g, PlaceOf(g, chain, ofs).sect, size)
    {
      ClusterIndexIs(g, ofs);
      SlotInside(g, ofs / SECTOR_SIZE);
      DataSectorInside(g, chain, ofs / SECTOR_SIZE, size);
      hide DataSector, ClusterOf, SlotOf, ClusterIndex, Clusters, DataFits;
    }
  }

  lemma SlotInside(g: Geometry, k: nat)
    requires g.csize > 0
    ensures SlotOf(g, k) < g.csize
  {
  }

  /** So does the static table, where mounting puts it. */
  lemma TableInside(g: Geometry, size: nat)
    requires Mounted(g, size) && g.dirbase == g.fatbase + g.nFats * g.fsize && g.dirbase + g.nRootdir / 16 <= g.database
    requires g.nRootdir % 16 == 0
    ensures Inside(g, [], size)
  {
    forall ofs | 0 <= ofs < MAX_DIR && InDirectory(g, [], ofs)
      ensures SectorInside(g, PlaceOf(g, [], ofs).sect, size)
    {
      TableSector(ofs, g.nRootdir);
      StaticPlace(g, [], ofs);
      hide PlaceOf, ClusterIndex;
    }
  }

  lemma TableSector(ofs: nat, n: nat)
    requires ofs % SZDIRE == 0 && ofs / SZDIRE < n && n % 16 == 0
    ensures ofs / SECTOR_SIZE < n / 16
  {
    var q := ofs / SZDIRE;
    assert ofs == SZDIRE * q && q == 16 * (q / 16) + q % 16;
  }

  /** The bytes of the entries from `ofs` on */
  function LengthFrom(g: Geometry, chain: seq<nat>, ofs: nat): (n: nat)
    requires g.csize > 0
    ensures n % SZDIRE == 0
    decreases if ofs < MAX_DIR then MAX_DIR - ofs else 0
  {
    if InDirectory(g, chain, ofs) then LengthFrom(g, chain, ofs + SZDIRE) + SZDIRE else 0
  }

  /** An entry is in the directory exactly when it is before its end. */
  lemma {:induction false} LengthIs(g: Geometry, chain: seq<nat>, from: nat, ofs: nat)
    requires g.csize > 0 && from <= ofs && from % SZDIRE == ofs % SZDIRE == 0
    ensures InDirectory(g, chain, ofs) <==> ofs < from + LengthFrom(g, chain, from)
    decreases ofs - from
  {
    hide InDirectory;
    if from < ofs {
      if InDirectory(g, chain, from) {
        LengthIs(g, chain, from + SZDIRE, ofs);
      } else if InDirectory(g, chain, ofs) {
        EarlierInside(g, chain, from, ofs);
      }
    }
  }

  /** Byte `i` of the directory */
  function DirByte(g: Geometry, v: seq<Sector>, chain: seq<nat>, i: nat): (b: byte)
    requires g.csize > 0 && Clusters(g, chain)
  {
    var ofs := i - i % SZDIRE;
    if InDirectory(g, chain, ofs) && PlaceOf(g, chain, ofs).sect < |v|
    then v[PlaceOf(g, chain, ofs).sect][i % SECTOR_SIZE]
    else 0
  }

  /** The whole directory */
  function Region(g: Geometry, v: seq<Sector>, chain: seq<nat>): (r: seq<byte>)
    requires g.csize > 0 && Clusters(g, chain)
    ensures |r| == LengthFrom(g, chain, 0)
  {
    seq(LengthFrom(g, chain, 0), i requires 0 <= i < LengthFrom(g, chain, 0) => DirByte(g, v, chain, i))
  }

  lemma InEntry(ofs: nat, j: nat)
    requires ofs % SZDIRE == 0 && j < SZDIRE
    ensures (ofs + j) % SZDIRE == j && (ofs + j) % SECTOR_SIZE == ofs % SECTOR_SIZE + j
    ensures ofs % SECTOR_SIZE + SZDIRE <= SECTOR_SIZE && ofs % SECTOR_SIZE % SZDIRE == 0
  {
    var q := ofs / SZDIRE;
    var s, r := q / 16, q % 16;
    SectorAndEntry(s, r);
    InSector(s, SZDIRE * r + j);
    InSlot(q, j);
    InSlot(r, 0);
    assert ofs == SECTOR_SIZE * s + SZDIRE * r;
  }

  lemma InSector(s: nat, t: nat)
    requires t < SECTOR_SIZE
    ensures (SECTOR_SIZE * s + t) % SECTOR_SIZE == t
  {
  }

  lemma InSlot(q: nat, j: nat)
    requires j < SZDIRE
    ensures (SZDIRE * q + j) % SZDIRE == j
  {
  }

  /** The entry at `ofs` is a piece of its sector. */
  lemma EntryIs(g: Geometry, v: seq<Sector>, chain: seq<nat>, ofs: nat)
    requires g.csize > 0 && Clusters(g, chain) && InDirectory(g, chain, ofs) && Inside(g, chain, |v|)
    ensures ofs + ENTRY <= |Region(g, v, chain)| && PlaceOf(g, chain, ofs).sect < |v|
    ensures ofs % SECTOR_SIZE + ENTRY <= SECTOR_SIZE && SectorInside(g, PlaceOf(g, chain, ofs).sect, |v|)
    ensures EntryAt(Region(g, v, chain), ofs)
         == v[PlaceOf(g, chain, ofs).sect][ofs % SECTOR_SIZE..ofs % SECTOR_SIZE + ENTRY]
  {
    LengthIs(g, chain, 0, ofs);
    InEntry(ofs, 0);
    assert SectorInside(g, PlaceOf(g, chain, ofs).sect, |v|);
    WholeEntries(ofs, LengthFrom(g, chain, 0));
    hide InDirectory, PlaceOf, LengthFrom, Clusters, Inside;
    var r, s, o := Region(g, v, chain), v[PlaceOf(g, chain, ofs).sect], ofs % SECTOR_SIZE;
    forall j | 0 <= j < ENTRY
      ensures EntryAt(r, ofs)[j] == s[o..o + ENTRY][j]
    {
      InEntry(ofs, j);
      assert r[ofs + j] == DirByte(g, v, chain, ofs + j);
    }
  }

  lemma WholeEntries(ofs: nat, n: nat)
    requires ofs % SZDIRE == 0 && n % SZDIRE == 0 && ofs < n
    ensures ofs + SZDIRE <= n
  {
  }

  /** Changing an entry in its sector changes no other entry. */
  lemma PatchedRegion(g: Geometry, v: seq<Sector>, w: seq<Sector>, chain: seq<nat>, ofs: nat)
    requires g.csize > 0 && Clusters(g, chain) && InDirectory(g, chain, ofs) && Inside(g, chain, |v|)
    requires PatchedEntry(v, w, PlaceOf(g, chain, ofs).sect, ofs)
    ensures ofs + ENTRY <= |Region(g, v, chain)| && OnlyEntry(Region(g, v, chain), Region(g, w, chain), ofs)
  {
    EntryIs(g, v, chain, ofs);
    var was, now := Region(g, v, chain), Region(g, w, chain);
    forall i | 0 <= i < |was| && !(ofs <= i < ofs + ENTRY)
      ensures now[i] == was[i]
    {
      SameByte(g, v, w, chain, ofs, i);
      hide DirByte;
      assert was[i] == DirByte(g, v, chain, i) && now[i] == DirByte(g, w, chain, i);
    }
  }

  /** Only the entry at `ofs` has changed, in its sector. */
  predicate PatchedEntry(v: seq<Sector>, w: seq<Sector>, sect: nat, ofs: nat)
  {
    && |w| == |v| && sect < |v| && (forall s :: 0 <= s < |v| && s != sect ==> w[s] == v[s])
    && forall i :: 0 <= i < SECTOR_SIZE && !(ofs % SECTOR_SIZE <= i < ofs % SECTOR_SIZE + ENTRY) ==>
         w[sect][i] == v[sect][i]
  }

  lemma SameByte(g: Geometry, v: seq<Sector>, w: seq<Sector>, chain: seq<nat>, ofs: nat, i: nat)
    requires g.csize > 0 && Clusters(g, chain) && InDirectory(g, chain, ofs) && !(ofs <= i < ofs + ENTRY)
    requires PatchedEntry(v, w, PlaceOf(g, chain, ofs).sect, ofs) && ofs % SZDIRE == 0
    ensures DirByte(g, w, chain, i) == DirByte(g, v, chain, i)
  {
    hide PlaceOf, InDirectory, Clusters;
    var e := i - i % SZDIRE;
    OtherEntry(i, ofs);
    if InDirectory(g, chain, e) {
      PlacesApart(g, chain, e, ofs);
    }
  }

  lemma OtherEntry(i: nat, ofs: nat)
    requires ofs % SZDIRE == 0
    ensures var e := i - i % SZDIRE;
            && e % SZDIRE == 0 && (e == ofs ==> ofs <= i < ofs + ENTRY)
            && (e % SECTOR_SIZE != ofs % SECTOR_SIZE ==>
                  !(ofs % SECTOR_SIZE <= i % SECTOR_SIZE < ofs % SECTOR_SIZE + ENTRY))
  {
    var e, j := i - i % SZDIRE, i % SZDIRE;
    assert e == SZDIRE * (i / SZDIRE);
    InEntry(e, j);
    InEntry(ofs, 0);
    if ofs % SECTOR_SIZE <= i % SECTOR_SIZE < ofs % SECTOR_SIZE + ENTRY {
      SameSlot(e % SECTOR_SIZE, ofs % SECTOR_SIZE, j);
    }
  }

  lemma SameSlot(a: nat, b: nat, j: nat)
    requires a % SZDIRE == b % SZDIRE && j < SZDIRE && b <= a + j < b + SZDIRE
    ensures a == b
  {
  }

  /* Through the window */

  /** The entry that the object stands at */
  method ReadEntry(d: DirObject, ghost chain: seq<nat>) returns (res: FResult, dir: seq<byte>)
    requires d.At(chain, d.dptr) && Inside(d.fs.geo, chain, |d.fs.Logical()|)
    modifies d.fs, d.fs.disk, d.fs.win
    ensures d.Undisturbed() && d.At(chain, d.dptr)
    ensures res == FrOk || res == FrDiskErr
    ensures d.dptr + ENTRY <= |Region(d.fs.geo, d.fs.Logical(), chain)|
    ensures res == FrOk ==> |dir| == ENTRY && dir == EntryAt(Region(d.fs.geo, d.fs.Logical(), chain), d.dptr)
    ensures d.fs.disk.reliable ==> res == FrOk
  {
    hide FileSystem.Valid, FileSystem.Mirrored, Fat, Region, Clusters, ChainOf, PlaceOf, HasFat, Mounted, ViewAt;
    EntryIs(d.fs.geo, d.fs.Logical(), chain, d.dptr);
    assert SectorInside(d.fs.geo, d.sect, |d.fs.Logical()|);
    res := d.fs.MoveWindow(d.sect);
    dir := [];
    if res == FrOk {
      var o := d.dptr % SECTOR_SIZE;
      dir := d.fs.win[..][o..o + ENTRY];
    }
  }
}
