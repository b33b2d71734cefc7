/** dir_find, dir_read and dir_register on an open directory, through dir_sdi, dir_next and the window. */
module DirectorySearch {
  import opened Base
  import opened FatTable
  import opened Chains
  import F = FileData
  import opened Window
  import opened Volume
  import opened LongNames
  import opened DirectoryItems
  import opened Directory
  import opened DirectoryRegion

  /** Behind the last entry there is nothing more to find. */
  lemma EndOfRegion(g: Geometry, v: seq<Sector>, chain: seq<nat>, ofs: nat)
    requires g.csize > 0 && F.Clusters(g, chain) && ofs % SZDIRE == 0 && !InDirectory(g, chain, ofs)
    ensures |Region(g, v, chain)| <= ofs
  {
    LengthIs(g, chain, 0, ofs);
    hide InDirectory, LengthFrom;
  }

  lemma EntryPlace(g: Geometry, chain: seq<nat>, ofs: nat)
    requires g.csize > 0 && InDirectory(g, chain, ofs)
    ensures ofs % SZDIRE == 0 && ofs < MAX_DIR && (ofs + SZDIRE) % SZDIRE == 0
  {
  }

  /** dir_find: the object stands at the entry that is found. */
  method DirFind(d: DirObject, w: Wanted, up: seq<word>, ghost chain: seq<nat>) returns (res: FResult, start: int)
    requires d.Valid(chain) && Inside(d.fs.geo, chain, |d.fs.Logical()|) && IsWanted(w) && IsUpTable(up)
    modifies d, d.fs, d.fs.disk, d.fs.win
    ensures d.Undisturbed() && d.Valid(chain)
    ensures var found := FindFrom(Region(d.fs.geo, d.fs.Logical(), chain), 0, Seen(0xFF, 0xFF, -1), w, up);
            && (res == FrOk ==> d.At(chain, d.dptr) && found == Found(d.dptr, start))
            && (res == FrNoFile ==> found == NotFound)
    ensures res == FrOk || res == FrNoFile || res == FrDiskErr || (res == FrIntErr && !InDirectory(d.fs.geo, chain, 0))
    ensures d.fs.disk.reliable ==> res != FrDiskErr
  {
    hide FileSystem.Valid, FileSystem.Logical, FileSystem.Table, FileSystem.Mirrored, F.Clusters, ChainOf, PlaceOf;
    hide Inside;
    hide Cmp, SumSfn, FindSkips, Attr, Continues, Begun, IsUpTable, Region, InDirectory, DirObject.At, DirObject.Valid;
    hide NextOrder;
    start := -1;
    res := d.SetIndex(0, chain);
    if res != FrOk { return; }
    var ord: byte, sum: byte := 0xFF, 0xFF;
    ghost var g, r := d.fs.geo, Region(d.fs.geo, d.fs.Logical(), chain);
    ghost var whole := FindFrom(r, 0, Seen(0xFF, 0xFF, -1), w, up);
    while true
      invariant d.Undisturbed() && d.At(chain, d.dptr)
      invariant whole == FindFrom(r, d.dptr, Seen(ord, sum, start), w, up)
      decreases MAX_DIR - d.dptr
    {
      ghost var ofs := d.dptr;
      EntryPlace(g, chain, ofs);
      var dir;
      res, dir := ReadEntry(d, chain);
      if res != FrOk { return; }
      if dir[0] == 0 { return FrNoFile, start; }
      if FindSkips(dir) {
        ord, start := 0xFF, -1;
      } else if Attr(dir) == AM_LFN {
        if w.long {
          var b := Begun(dir, d.dptr, Seen(ord, sum, start));
          ord, sum, start := b.ord, b.sum, b.start;
          var same := Continues(dir, b);
          if same { same := CmpLfn(w.buf, dir, up); }
          ord := NextOrder(ord, same);
        }
      } else {
        var s := ComputeSumSfn(dir);
        if ord == 0 && sum == s { return; }
        if !w.loss && dir[..11] == w.sfn { return; }
        ord, start := 0xFF, -1;
      }
      res := d.Next(chain);
      if res != FrOk {
        if res == FrNoFile { EndOfRegion(g, d.fs.Logical(), chain, ofs + SZDIRE); }
        return;
      }
    }
  }

  /**
   * dir_read for files and directories: the object stands at the next short
   * entry, whose long name, if it has one, starts at `start` and is in the buffer.
   */
  method DirRead(d: DirObject, start0: int, lfnbuf: array<word>, ghost chain: seq<nat>)
    returns (res: FResult, start: int)
    requires d.Valid(chain) && Inside(d.fs.geo, chain, |d.fs.Logical()|) && lfnbuf.Length == MAX_LFN + 1
    requires (d.sect == 0 || d.At(chain, d.dptr)) && (lfnbuf as object) != (d.fs.win as object)
    modifies d, d.fs, d.fs.disk, d.fs.win, lfnbuf
    ensures d.Undisturbed() && d.Valid(chain) && (res != FrOk ==> d.sect == 0)
    ensures old(d.sect) == 0 ==> res == FrNoFile && lfnbuf[..] == old(lfnbuf[..])
    ensures old(d.sect) != 0 ==>
              var r := ReadFrom(Region(d.fs.geo, d.fs.Logical(), chain), old(d.dptr),
                             Seen(0xFF, 0xFF, start0), old(lfnbuf[..]));
              && (res == FrOk ==> d.At(chain, d.dptr) && r == Item(d.dptr, start, lfnbuf[..]))
              && (res == FrNoFile ==> r == NoItem)
    ensures res == FrOk || res == FrNoFile || res == FrDiskErr
    ensures d.fs.disk.reliable ==> res != FrDiskErr
  {
    start := start0;
    if d.sect == 0 { return FrNoFile, start; }
    res, start := ReadItem(d, start0, lfnbuf, chain);
    if res != FrOk { d.sect := 0; }
  }

  method ReadItem(d: DirObject, start0: int, lfnbuf: array<word>, ghost chain: seq<nat>)
    returns (res: FResult, start: int)
    requires d.At(chain, d.dptr) && Inside(d.fs.geo, chain, |d.fs.Logical()|) && lfnbuf.Length == MAX_LFN + 1
    requires (lfnbuf as object) != (d.fs.win as object)
    modifies d, d.fs, d.fs.disk, d.fs.win, lfnbuf
    ensures d.Undisturbed() && d.Valid(chain)
    ensures var r := ReadFrom(Region(d.fs.geo, d.fs.Logical(), chain), old(d.dptr),
                             Seen(0xFF, 0xFF, start0), old(lfnbuf[..]));
            && (res == FrOk ==> d.At(chain, d.dptr) && r == Item(d.dptr, start, lfnbuf[..]))
            && (res == FrNoFile ==> r == NoItem)
    ensures res == FrOk || res == FrNoFile || res == FrDiskErr
    ensures d.fs.disk.reliable ==> res != FrDiskErr
  {
    hide FileSystem.Valid, FileSystem.Logical, FileSystem.Table, FileSystem.Mirrored, F.Clusters, ChainOf, PlaceOf;
    hide Inside;
    hide Pick, SumSfn, ReadSkips, Attr, Continues, Begun, Region, InDirectory, DirObject.At, DirObject.Valid, NextOrder;
    start := start0;
    var ord: byte, sum: byte := 0xFF, 0xFF;
    ghost var g, r := d.fs.geo, Region(d.fs.geo, d.fs.Logical(), chain);
    ghost var whole := ReadFrom(r, d.dptr, Seen(0xFF, 0xFF, start0), lfnbuf[..]);
    while true
      invariant d.Undisturbed() && d.At(chain, d.dptr)
      invariant whole == ReadFrom(r, d.dptr, Seen(ord, sum, start), lfnbuf[..])
      decreases MAX_DIR - d.dptr
    {
      ghost var ofs := d.dptr;
      EntryPlace(g, chain, ofs);
      var dir;
      res, dir := ReadEntry(d, chain);
      if res != FrOk { return; }
      if dir[0] == 0 { return FrNoFile, start; }
      if ReadSkips(dir) {
        ord := 0xFF;
      } else if Attr(dir) == AM_LFN {
        var b := Begun(dir, d.dptr, Seen(ord, sum, start));
        ord, sum, start := b.ord, b.sum, b.start;
        if Continues(dir, b) {
          var ok := PickLfn(lfnbuf, dir);
          ord := NextOrder(ord, ok);
        } else {
          ord := 0xFF;
        }
      } else {
        var s := ComputeSumSfn(dir);
        if ord != 0 || sum != s { start := -1; }
        return;
      }
      res := d.Next(chain);
      if res != FrOk {
        if res == FrNoFile { EndOfRegion(g, d.fs.Logical(), chain, ofs + SZDIRE); }
        return;
      }
    }
  }

  /* dir_register */

  /** The entry at which the object stands may have changed, and nothing else. */
  twostate predicate OnlyHere(d: DirObject, chain: seq<nat>)
    requires old(d.Valid(chain))
    reads d, d.fs, d.fs.disk, d.fs.win
  {
    && d.Valid(chain) && d.fs.Table() == old(d.fs.Table()) && d.dptr == old(d.dptr) && d.At(chain, d.dptr)
    && |d.fs.Logical()| == |old(d.fs.Logical())|
    && PatchedEntry(old(d.fs.Logical()), d.fs.Logical(), PlaceOf(d.fs.geo, chain, d.dptr).sect, d.dptr)
    && d.dptr + ENTRY <= |old(Region(d.fs.geo, d.fs.Logical(), chain))|
    && OnlyEntry(old(Region(d.fs.geo, d.fs.Logical(), chain)), Region(d.fs.geo, d.fs.Logical(), chain), d.dptr)
  }

  /** An edit of the sector of an entry leaves the FAT and all other entries alone. */
  lemma StoredEntry(g: Geometry, v: seq<Sector>, w: seq<Sector>, chain: seq<nat>, ofs: nat)
    requires g.csize > 0 && F.Clusters(g, chain) && InDirectory(g, chain, ofs) && Inside(g, chain, |v|)
    requires HasFat(g, v) && HasFat(g, w) && PatchedEntry(v, w, PlaceOf(g, chain, ofs).sect, ofs)
    ensures Fat(g, w) == Fat(g, v)
    ensures ofs + ENTRY <= |Region(g, v, chain)| && OnlyEntry(Region(g, v, chain), Region(g, w, chain), ofs)
    ensures ofs + ENTRY <= |Region(g, w, chain)| && ofs % SECTOR_SIZE + ENTRY <= SECTOR_SIZE
    ensures var s := w[PlaceOf(g, chain, ofs).sect];
            EntryAt(Region(g, w, chain), ofs) == s[ofs % SECTOR_SIZE..ofs % SECTOR_SIZE + ENTRY]
  {
    hide InDirectory, PlaceOf, Region, Fat, F.Clusters, Inside;
    PatchedRegion(g, v, w, chain, ofs);
    EntryIs(g, v, chain, ofs);
    EntryIs(g, w, chain, ofs);
    FatFrame(g, v, w);
  }

  /** put_lfn for the entry that the object stands at */
  method StoreLong(d: DirObject, lfn: seq<word>, ghost name: seq<word>, ord: nat, sum: byte, ghost chain: seq<nat>)
    returns (res: FResult)
    requires d.At(chain, d.dptr) && Inside(d.fs.geo, chain, |d.fs.Logical()|)
    requires Holds(lfn, name) && IsName(name) && 1 <= ord <= Entries(|name|)
    modifies d.fs, d.fs.disk, d.fs.win
    ensures d.Valid(chain) && OnlyHere(d, chain) && (res == FrOk || res == FrDiskErr)
    ensures res == FrOk ==> d.dptr + ENTRY <= |Region(d.fs.geo, d.fs.Logical(), chain)|
    ensures res == FrOk ==> IsLfnEntry(EntryAt(Region(d.fs.geo, d.fs.Logical(), chain), d.dptr), name, ord, sum)
    ensures d.fs.disk.reliable ==> res == FrOk
  {
    hide FileSystem.Mirrored, F.Clusters, ChainOf, PlaceOf, Region, InDirectory, Fat, Mounted, HasFat, IsLfnEntry;
    hide Entries;
    hide IsName, Holds, ViewAt;
    ghost var v, o := d.fs.Logical(), d.dptr % SECTOR_SIZE;
    EntryIs(d.fs.geo, v, chain, d.dptr);
    res := d.fs.MoveWindow(d.sect);
    if res == FrOk {
      ghost var was := d.fs.win[..];
      PutLfn(lfn, name, d.fs.win, d.dptr % SECTOR_SIZE, ord, sum);
      MarkDirty(d.fs, was, v);
      StoredEntry(d.fs.geo, v, d.fs.Logical(), chain, d.dptr);
    }
  }

  /** The short entry, where the object stands */
  method StoreShort(d: DirObject, fn: seq<byte>, ghost chain: seq<nat>) returns (res: FResult)
    requires d.At(chain, d.dptr) && Inside(d.fs.geo, chain, |d.fs.Logical()|) && |fn| == 12
    modifies d.fs, d.fs.disk, d.fs.win
    ensures d.Valid(chain) && OnlyHere(d, chain) && (res == FrOk || res == FrDiskErr)
    ensures res == FrOk ==> d.dptr + ENTRY <= |Region(d.fs.geo, d.fs.Logical(), chain)|
    ensures res == FrOk ==> IsShortEntry(EntryAt(Region(d.fs.geo, d.fs.Logical(), chain), d.dptr), fn)
    ensures d.fs.disk.reliable ==> res == FrOk
  {
    hide FileSystem.Mirrored, F.Clusters, ChainOf, PlaceOf, Region, InDirectory, Fat, Mounted, HasFat, IsShortEntry;
    hide ViewAt;
    ghost var v, o := d.fs.Logical(), d.dptr % SECTOR_SIZE;
    EntryIs(d.fs.geo, v, chain, d.dptr);
    res := d.fs.MoveWindow(d.sect);
    if res == FrOk {
      ghost var was := d.fs.win[..];
      PutShort(d.fs.win, d.dptr % SECTOR_SIZE, fn);
      MarkDirty(d.fs, was, v);
      StoredEntry(d.fs.geo, v, d.fs.Logical(), chain, d.dptr);
    }
  }

  /** Sector `s` belongs to the directory. */
  ghost predicate DirSector(g: Geometry, chain: seq<nat>, s: nat)
    requires g.csize > 0 && F.Clusters(g, chain)
  {
    exists ofs :: 0 <= ofs < MAX_DIR && InDirectory(g, chain, ofs) && PlaceOf(g, chain, ofs).sect == s
  }

  /** From `v` to `w` only the bytes from `lo` to `hi` of the directory may have changed. */
  ghost predicate ChangedOnly(g: Geometry, v: seq<Sector>, w: seq<Sector>, chain: seq<nat>, lo: nat, hi: nat)
    requires g.csize > 0 && F.Clusters(g, chain)
  {
    && |w| == |v| && (forall s :: 0 <= s < |v| && !DirSector(g, chain, s) ==> w[s] == v[s])
    && var r, t := Region(g, v, chain), Region(g, w, chain);
       forall i :: 0 <= i < |r| && !(lo <= i < hi) ==> t[i] == r[i]
  }

  lemma ChangedNothing(g: Geometry, v: seq<Sector>, chain: seq<nat>, lo: nat, hi: nat)
    requires g.csize > 0 && F.Clusters(g, chain)
    ensures ChangedOnly(g, v, v, chain, lo, hi)
  {
  }

  lemma ChangedMore(g: Geometry, v: seq<Sector>, a: seq<Sector>, b: seq<Sector>, chain: seq<nat>, lo: nat, hi: nat,
                    ofs: nat)
    requires g.csize > 0 && F.Clusters(g, chain) && ChangedOnly(g, v, a, chain, lo, hi)
    requires InDirectory(g, chain, ofs) && PatchedEntry(a, b, PlaceOf(g, chain, ofs).sect, ofs) && lo <= ofs
    requires ofs + ENTRY <= hi
    requires ofs + ENTRY <= |Region(g, a, chain)| && OnlyEntry(Region(g, a, chain), Region(g, b, chain), ofs)
    ensures ChangedOnly(g, v, b, chain, lo, hi)
  {
    EntryPlace(g, chain, ofs);
    assert DirSector(g, chain, PlaceOf(g, chain, ofs).sect);
    hide DirSector, PlaceOf, InDirectory, F.Clusters;
  }

  /** The loop of dir_register: the long name, last part first, from the entry at hand on */
  method StoreParts(d: DirObject, lfn: seq<word>, ghost name: seq<word>, nent: nat, sum: byte, ghost chain: seq<nat>)
    returns (res: FResult)
    requires d.At(chain, d.dptr) && Inside(d.fs.geo, chain, |d.fs.Logical()|)
    requires Holds(lfn, name) && IsName(name) && nent == Entries(|name|)
    requires InDirectory(d.fs.geo, chain, d.dptr + ENTRY * nent)
    modifies d, d.fs, d.fs.disk, d.fs.win
    ensures d.Valid(chain) && d.fs.Table() == old(d.fs.Table()) && |d.fs.Logical()| == |old(d.fs.Logical())|
    ensures var at := old(d.dptr);
            && ChangedOnly(d.fs.geo, old(d.fs.Logical()), d.fs.Logical(), chain, at, at + ENTRY * (nent + 1))
            && at + ENTRY * (nent + 1) <= |Region(d.fs.geo, d.fs.Logical(), chain)|
            && (res == FrOk ==>
                  && d.At(chain, d.dptr) && d.dptr == at + ENTRY * nent
                  && forall k :: 1 <= k <= nent ==>
                       PartStored(Region(d.fs.geo, d.fs.Logical(), chain), at, name, k, sum))
    ensures res == FrOk || res == FrDiskErr
    ensures d.fs.disk.reliable ==> res == FrOk
  {
    hide FileSystem.Valid, FileSystem.Logical, FileSystem.Table, FileSystem.Mirrored, F.Clusters, ChainOf, PlaceOf;
    hide Inside, Region, InDirectory, DirObject.At, DirObject.Valid, IsLfnEntry, IsName, Holds, ChangedOnly;
    hide Entries, SumSfn, PatchedEntry, PartStored;
    ghost var g, v, at := d.fs.geo, d.fs.Logical(), d.dptr;
    EntryPlace(g, chain, at);
    EntryIs(g, v, chain, at + ENTRY * nent);
    ChangedNothing(g, v, chain, at, at + ENTRY * (nent + 1));
    var n := nent;
    res := FrOk;
    while n > 0
      invariant 0 <= n <= nent && d.At(chain, d.dptr) && d.dptr == at + ENTRY * (nent - n) && res == FrOk
      invariant d.fs.Table() == old(d.fs.Table()) && |d.fs.Logical()| == |v|
      invariant ChangedOnly(g, v, d.fs.Logical(), chain, at, at + ENTRY * (nent + 1))
      invariant at + ENTRY * (nent + 1) <= |Region(g, d.fs.Logical(), chain)|
      invariant forall k :: n < k <= nent ==> PartStored(Region(g, d.fs.Logical(), chain), at, name, k, sum)
    {
      ghost var a := d.fs.Logical();
      res := StoreLong(d, lfn, name, n, sum, chain);
      ChangedMore(g, v, a, d.fs.Logical(), chain, at, at + ENTRY * (nent + 1), d.dptr);
      if res != FrOk { return; }
      PartsKept(Region(g, a, chain), Region(g, d.fs.Logical(), chain), at, name, n, sum);
      PartIs(Region(g, d.fs.Logical(), chain), at, name, n, sum);
      EntriesBefore(g, chain, at, nent, nent - n + 1);
      res := d.Next(chain);
      if res != FrOk { return; }
      n := n - 1;
    }
  }

  /**
   * The end of dir_register, once the entries up to the one that the object
   * stands at are allocated; fn[11] holds the status flags.
   */
  method DirRegister(d: DirObject, lfn: seq<word>, ghost name: seq<word>, nlen: nat, fn: seq<byte>,
                     ghost chain: seq<nat>)
    returns (res: FResult)
    requires d.At(chain, d.dptr) && Inside(d.fs.geo, chain, |d.fs.Logical()|)
    requires Holds(lfn, name) && IsName(name) && nlen == |name| && |fn| == 12 && d.dptr >= ENTRY * Entries(nlen)
    modifies d, d.fs, d.fs.disk, d.fs.win
    ensures d.Valid(chain) && d.fs.Table() == old(d.fs.Table())
    ensures var at := old(d.dptr) - ENTRY * Entries(nlen);
            && ChangedOnly(d.fs.geo, old(d.fs.Logical()), d.fs.Logical(), chain, at, old(d.dptr) + ENTRY)
            && (res == FrOk ==> Stored(Region(d.fs.geo, d.fs.Logical(), chain), at, name, fn[..11]))
    ensures res == FrOk || res == FrDiskErr
    ensures d.fs.disk.reliable ==> res == FrOk
  {
    hide FileSystem.Valid, FileSystem.Logical, FileSystem.Table, FileSystem.Mirrored, F.Clusters, ChainOf, PlaceOf;
    hide Inside, Region, InDirectory, DirObject.At, DirObject.Valid, IsName, Holds, ChangedOnly, IsShortEntry;
    hide Entries, SumSfn, PatchedEntry, PartStored, Stored;
    var nent := Entries(nlen);
    ghost var g, v, last := d.fs.geo, d.fs.Logical(), d.dptr;
    var at := d.dptr - ENTRY * nent;
    EntryPlace(g, chain, last);
    EntriesBefore(g, chain, at, nent, 0);
    ChangedNothing(g, v, chain, at, last + ENTRY);
    res := d.SetIndex(at, chain);
    if res != FrOk { return; }
    var sum := ComputeSumSfn(fn[..11]);
    res := StoreParts(d, lfn, name, nent, sum, chain);
    if res != FrOk { return; }
    ghost var a := d.fs.Logical();
    res := StoreShort(d, fn, chain);
    ChangedMore(g, v, a, d.fs.Logical(), chain, at, last + ENTRY, d.dptr);
    if res == FrOk {
      PartsKept(Region(g, a, chain), Region(g, d.fs.Logical(), chain), at, name, 0, sum);
      ShortStored(Region(g, d.fs.Logical(), chain), at, name, fn);
    }
  }

  /** Entry `i` of those before the last one */
  lemma EntriesBefore(g: Geometry, chain: seq<nat>, at: nat, nent: nat, i: nat)
    requires g.csize > 0 && at % SZDIRE == 0 && i <= nent && InDirectory(g, chain, at + ENTRY * nent)
    ensures InDirectory(g, chain, at + ENTRY * i)
  {
    assert (at + ENTRY * i) % SZDIRE == 0;
    EarlierInside(g, chain, at + ENTRY * i, at + ENTRY * nent);
  }

  lemma PartIs(r: seq<byte>, at: nat, name: seq<word>, k: nat, sum: byte)
    requires 1 <= k <= Entries(|name|) && at + ENTRY * (Entries(|name|) + 1) <= |r|
    requires IsLfnEntry(EntryAt(r, at + ENTRY * (Entries(|name|) - k)), name, k, sum)
    ensures PartStored(r, at, name, k, sum)
  {
  }

  lemma ShortStored(r: seq<byte>, at: nat, name: seq<word>, fn: seq<byte>)
    requires IsName(name) && |fn| == 12 && at + ENTRY * (Entries(|name|) + 1) <= |r|
    requires forall k :: 1 <= k <= Entries(|name|) ==> PartStored(r, at, name, k, SumSfn(fn[..11]))
    requires IsShortEntry(EntryAt(r, at + ENTRY * Entries(|name|)), fn)
    ensures Stored(r, at, name, fn[..11])
  {
  }
}
