/** f_getfree_: the free cluster count, from the counter or from a scan of the whole FAT. */
module FreeSpace {
  import opened Base
  import opened FatTable
  import opened Chains
  import opened Volume

  /** The number of zero entries, the first two included */
  function ZeroEntries(fat: seq<nat>): (n: nat)
  {
    if fat == [] then 0 else ZeroEntries(fat[..|fat| - 1]) + if fat[|fat| - 1] == 0 then 1 else 0
  }

  lemma NextZero(fat: seq<nat>, c: nat)
    requires c < |fat|
    ensures ZeroEntries(fat[..c + 1]) == ZeroEntries(fat[..c]) + if fat[c] == 0 then 1 else 0
    ensures ZeroEntries(fat[..0]) == 0 && fat[..|fat|] == fat
  {
    assert fat[..c + 1][..c] == fat[..c];
  }

  lemma NextFree(fat: seq<nat>, c: nat)
    requires 2 <= c < |fat|
    ensures CountFree(fat[..c + 1]) == CountFree(fat[..c]) + if fat[c] == 0 then 1 else 0
    ensures CountFree(fat[..2]) == 0 && fat[..|fat|] == fat
  {
    assert fat[..c + 1][..c] == fat[..c];
  }

  /** The scan of all entries gives the number of free clusters if and only if the first two entries are in use. */
  lemma {:induction false} ZeroEntriesAreFree(fat: seq<nat>)
    requires |fat| >= 2
    ensures ZeroEntries(fat) == CountFree(fat) + (if fat[0] == 0 then 1 else 0) + (if fat[1] == 0 then 1 else 0)
    ensures ZeroEntries(fat) == CountFree(fat) <==> fat[0] != 0 && fat[1] != 0
  {
    if |fat| == 2 {
      assert fat[..1][..0] == [];
      assert ZeroEntries(fat[..1]) == if fat[0] == 0 then 1 else 0;
    } else {
      ZeroEntriesAreFree(fat[..|fat| - 1]);
    }
  }

  /** What the scan counts, when no read fails: with 12-bit entries it leaves the first two out. */
  function Counted(g: Geometry, fat: seq<nat>): (n: nat)
  {
    if g.fsType == Fat12 then CountFree(fat) else ZeroEntries(fat)
  }

  /** The scan of a FAT12 table, entry by entry */
  method CountByEntry(fs: FileSystem) returns (res: FResult, nfree: nat)
    requires fs.Valid() && fs.geo.fsType == Fat12
    modifies fs, fs.win, fs.disk
    ensures fs.Valid() && fs.Logical() == old(fs.Logical()) && fs.Table() == old(fs.Table())
    ensures fs.freeClst == old(fs.freeClst) && fs.lastClst == old(fs.lastClst) && nfree <= fs.geo.nFatent
    ensures res == FrOk ==> nfree == CountFree(fs.Table())
    ensures res == FrOk || res == FrDiskErr || (res == FrIntErr && !NoReserved(fs.Table()))
    ensures fs.disk.reliable ==> res != FrDiskErr
    ensures fs.disk.reliable && old(fs.Mirrored()) ==> fs.Mirrored()
  {
    hide FileSystem.Mirrored, FileSystem.Valid, FileSystem.Logical, FileSystem.Table, HasFat, EntryRange, CountFree;
    nfree := 0;
    var clst := 2;
    NextFree(fs.Table(), 2);
    while clst < fs.geo.nFatent
      invariant 2 <= clst <= fs.geo.nFatent && fs.Valid()
      invariant fs.Logical() == old(fs.Logical()) && fs.Table() == old(fs.Table())
      invariant fs.freeClst == old(fs.freeClst) && fs.lastClst == old(fs.lastClst)
      invariant nfree == CountFree(fs.Table()[..clst]) && nfree <= clst
      invariant fs.disk.reliable && old(fs.Mirrored()) ==> fs.Mirrored()
    {
      NextFree(fs.Table(), clst);
      var stat := fs.GetFat(clst);
      if stat == DISK_ERROR { return FrDiskErr, nfree; }
      if stat == 1 { return FrIntErr, nfree; }
      if stat == 0 { nfree := nfree + 1; }
      clst := clst + 1;
    }
    res := FrOk;
  }

  /** The bytes of an entry whose entries are aligned */
  function EntryWidth(t: FsType): (w: nat)
    ensures w == 2 || w == 4
  {
    if t == Fat16 then 2 else 4
  }

  /** Entry `c` is at `p` in the window. */
  ghost predicate Showing(fs: FileSystem, c: nat, p: nat)
    reads fs, fs.disk, fs.win
  {
    && fs.Valid() && c < fs.geo.nFatent
    && var k := EntryOffset(fs.geo.fsType, c);
       p == k % SECTOR_SIZE && k / SECTOR_SIZE < fs.geo.fsize && fs.geo.fatbase + k / SECTOR_SIZE < |fs.Logical()|
       && fs.win[..] == fs.Logical()[fs.geo.fatbase + k / SECTOR_SIZE]
  }

  lemma EntryIs(fs: FileSystem, c: nat)
    requires fs.Valid() && c < fs.geo.nFatent
    ensures fs.Table()[c] == Entry(fs.geo, fs.Logical(), c)
  {
    hide FileSystem.Valid, FileSystem.Logical, HasFat, Entry;
  }

  /** Is the entry at offset `p` of the window zero, in the 16 or 28 bits that count? */
  method EntryIsZero(fs: FileSystem, ghost c: nat, p: nat) returns (zero: bool)
    requires fs.Valid() && fs.geo.fsType != Fat12 && Showing(fs, c, p)
    ensures zero <==> fs.Table()[c] == 0
  {
    hide FileSystem.Valid, FileSystem.Logical, FileSystem.Table, HasFat, EntryRange, Entry, LdWord, LdDword;
    EntryIs(fs, c);
    if fs.geo.fsType == Fat16 {
      Read16(fs.geo, fs.Logical(), c);
      zero := LdWord(fs.win[..], p) == 0;
    } else {
      Read32(fs.geo, fs.Logical(), c);
      zero := LdDword(fs.win[..], p) % 0x1000_0000 == 0;
    }
  }

  lemma EntrySector(fs: FileSystem, c: nat)
    requires fs.Valid() && fs.geo.fsType != Fat12 && c < fs.geo.nFatent
    ensures fs.geo.fatbase + EntryOffset(fs.geo.fsType, c) / SECTOR_SIZE < |fs.Logical()| == |fs.disk.sectors|
    ensures EntryOffset(fs.geo.fsType, c) / SECTOR_SIZE < fs.geo.fsize
  {
    if fs.geo.fsType == Fat16 {
      Read16(fs.geo, fs.Logical(), c);
    } else {
      Read32(fs.geo, fs.Logical(), c);
    }
  }

  lemma StartsShowing(fs: FileSystem, c: nat, sect: nat)
    requires fs.Valid() && fs.geo.fsType != Fat12 && c < fs.geo.nFatent
    requires EntryOffset(fs.geo.fsType, c) % SECTOR_SIZE == 0
    requires sect == fs.geo.fatbase + EntryOffset(fs.geo.fsType, c) / SECTOR_SIZE < |fs.Logical()|
    requires fs.win[..] == fs.Logical()[sect]
    ensures Showing(fs, c, 0)
  {
    EntrySector(fs, c);
    hide FileSystem.Valid, FileSystem.Logical;
  }

  /** The next entry is in the same sector until that is used up. */
  lemma StaysShowing(fs: FileSystem, c: nat, p: nat)
    requires fs.geo.fsType != Fat12 && Showing(fs, c, p) && c + 1 < fs.geo.nFatent
    requires p + EntryWidth(fs.geo.fsType) < SECTOR_SIZE
    ensures Showing(fs, c + 1, p + EntryWidth(fs.geo.fsType))
  {
    hide FileSystem.Valid, FileSystem.Logical, EntryOffset, EntryWidth;
    EntrySector(fs, c + 1);
    NextOffsetIs(fs.geo.fsType, c, p);
  }

  lemma NextOffsetIs(t: FsType, c: nat, p: nat)
    requires t != Fat12 && p == EntryOffset(t, c) % SECTOR_SIZE && p + EntryWidth(t) < SECTOR_SIZE
    ensures EntryOffset(t, c + 1) % SECTOR_SIZE == p + EntryWidth(t)
    ensures EntryOffset(t, c + 1) / SECTOR_SIZE == EntryOffset(t, c) / SECTOR_SIZE
  {
    assert EntryOffset(t, c + 1) == EntryOffset(t, c) + EntryWidth(t);
    hide EntryOffset, EntryWidth;
  }

  /** The scan of a FAT16 or FAT32 table, sector by sector */
  method CountBySector(fs: FileSystem) returns (res: FResult, nfree: nat)
    requires fs.Valid() && fs.geo.fsType != Fat12
    modifies fs, fs.win, fs.disk
    ensures fs.Valid() && fs.Logical() == old(fs.Logical()) && fs.Table() == old(fs.Table())
    ensures fs.freeClst == old(fs.freeClst) && fs.lastClst == old(fs.lastClst) && nfree <= fs.geo.nFatent
    ensures res == FrOk ==> nfree == ZeroEntries(fs.Table())
    ensures res == FrOk || res == FrDiskErr
    ensures fs.disk.reliable ==> res == FrOk
    ensures fs.disk.reliable && old(fs.Mirrored()) ==> fs.Mirrored()
  {
    hide *;
    nfree := 0;
    var clst: nat, sect: nat, i: nat, p: nat := fs.geo.nFatent, fs.geo.fatbase, 0, 0;
    var width := EntryWidth(fs.geo.fsType);
    ghost var c: nat := 0;
    NextZero(fs.Table(), 0);
    CursorStart(fs.geo.fsType);
    while clst > 0
      invariant c + clst == fs.geo.nFatent && fs.Valid() && Cursor(fs.geo.fsType, c, i, p)
      invariant sect == fs.geo.fatbase + SectorsLoaded(fs.geo.fsType, c, i)
      invariant clst > 0 && i > 0 ==> Showing(fs, c, p)
      invariant fs.Logical() == old(fs.Logical()) && fs.Table() == old(fs.Table())
      invariant fs.freeClst == old(fs.freeClst) && fs.lastClst == old(fs.lastClst)
      invariant nfree == ZeroEntries(fs.Table()[..c]) && nfree <= c
      invariant fs.disk.reliable && old(fs.Mirrored()) ==> fs.Mirrored()
    {
      NextZero(fs.Table(), c);
      if i == 0 {
        CursorLoad(fs.geo.fsType, c, p);
        var ok := LoadEntries(fs, c, sect);
        if !ok { return FrDiskErr, nfree; }
        sect, p, i := sect + 1, 0, SECTOR_SIZE;
      }
      var zero := EntryIsZero(fs, c, p);
      if zero { nfree := nfree + 1; }
      CursorNext(fs.geo.fsType, c, i, p);
      if i > width && clst > 1 {
        StaysShowing(fs, c, p);
      }
      p, i, clst, c := p + width, i - width, clst - 1, c + 1;
    }
    NextZero(fs.Table(), 0);
    res := FrOk;
  }

  /** `i` bytes of the window are left, `p` is how far it has been read, and entry `c` is next. */
  predicate Cursor(t: FsType, c: nat, i: nat, p: nat)
  {
    && t != Fat12 && i % 2 == 0 && (t != Fat16 ==> i % 4 == 0) && i <= SECTOR_SIZE
    && (if i == 0 then EntryOffset(t, c) % SECTOR_SIZE == 0
        else i + p == SECTOR_SIZE && p == EntryOffset(t, c) % SECTOR_SIZE)
  }

  function SectorsLoaded(t: FsType, c: nat, i: nat): (n: nat)
  {
    EntryOffset(t, c) / SECTOR_SIZE + if i > 0 then 1 else 0
  }

  lemma CursorStart(t: FsType)
    requires t != Fat12
    ensures Cursor(t, 0, 0, 0) && SectorsLoaded(t, 0, 0) == 0
  {
  }

  lemma CursorLoad(t: FsType, c: nat, p: nat)
    requires Cursor(t, c, 0, p)
    ensures Cursor(t, c, SECTOR_SIZE, 0) && SectorsLoaded(t, c, SECTOR_SIZE) == SectorsLoaded(t, c, 0) + 1
    ensures SectorsLoaded(t, c, 0) == EntryOffset(t, c) / SECTOR_SIZE && EntryOffset(t, c) % SECTOR_SIZE == 0
  {
  }

  lemma CursorNext(t: FsType, c: nat, i: nat, p: nat)
    requires Cursor(t, c, i, p) && i > 0
    ensures var w := EntryWidth(t);
            && w <= i && Cursor(t, c + 1, i - w, p + w)
            && SectorsLoaded(t, c + 1, i - w) == SectorsLoaded(t, c, i)
    ensures i > EntryWidth(t) ==> p + EntryWidth(t) < SECTOR_SIZE
  {
    var w := EntryWidth(t);
    assert EntryOffset(t, c + 1) == EntryOffset(t, c) + w;
    RoomForEntry(i, w);
    NextOffset(EntryOffset(t, c), w);
    hide EntryOffset;
  }

  /** Whole entries are left of a sector. */
  lemma RoomForEntry(i: nat, w: nat)
    requires 0 < i && ((w == 2 && i % 2 == 0) || (w == 4 && i % 4 == 0))
    ensures w <= i && (i - w) % w == 0 && (w == 4 ==> i % 2 == 0 && (i - w) % 2 == 0)
  {
    if w == 2 {
      Half(i / 2 - 1, 0);
    } else {
      Quarter(i / 4 - 1, 0);
      Half(2 * (i / 4 - 1), 0);
      Half(2 * (i / 4), 0);
    }
  }

  /** The next entry is in the same sector, or starts the next one. */
  lemma NextOffset(e: nat, w: nat)
    ensures e % SECTOR_SIZE + w < SECTOR_SIZE ==>
              (e + w) / SECTOR_SIZE == e / SECTOR_SIZE && (e + w) % SECTOR_SIZE == e % SECTOR_SIZE + w
    ensures e % SECTOR_SIZE + w == SECTOR_SIZE ==>
              (e + w) / SECTOR_SIZE == e / SECTOR_SIZE + 1 && (e + w) % SECTOR_SIZE == 0
  {
    var s, r := e / SECTOR_SIZE, e % SECTOR_SIZE;
    if r + w < SECTOR_SIZE {
      assert e + w == SECTOR_SIZE * s + (r + w);
      Within(s, r + w);
    } else if r + w == SECTOR_SIZE {
      assert e + w == SECTOR_SIZE * (s + 1) + 0;
      Within(s + 1, 0);
    }
  }

  /** Brings the next FAT sector into the window. */
  method LoadEntries(fs: FileSystem, ghost c: nat, sect: nat) returns (ok: bool)
    requires fs.Valid() && fs.geo.fsType != Fat12 && c < fs.geo.nFatent
    requires EntryOffset(fs.geo.fsType, c) % SECTOR_SIZE == 0
    requires sect == fs.geo.fatbase + EntryOffset(fs.geo.fsType, c) / SECTOR_SIZE
    modifies fs, fs.win, fs.disk
    ensures fs.Valid() && fs.Logical() == old(fs.Logical()) && fs.Table() == old(fs.Table())
    ensures fs.freeClst == old(fs.freeClst) && fs.lastClst == old(fs.lastClst)
    ensures ok ==> Showing(fs, c, 0)
    ensures fs.disk.reliable ==> ok
    ensures fs.disk.reliable && old(fs.Mirrored()) ==> fs.Mirrored()
  {
    hide FileSystem.Mirrored, FileSystem.Valid, FileSystem.Logical, HasFat, EntryRange, Showing, Fat, EntryOffset;
    EntrySector(fs, c);
    var res := fs.MoveWindow(sect);
    EntrySector(fs, c);
    ok := res == FrOk;
    if ok {
      StartsShowing(fs, c, sect);
    }
  }

  /** Keeps the number that was counted, which has to be stored on the disk. */
  method SetFree(fs: FileSystem, nfree: nat)
    requires fs.Valid() && nfree <= fs.geo.nFatent
    modifies fs
    ensures fs.Valid() && fs.Logical() == old(fs.Logical()) && fs.Table() == old(fs.Table())
    ensures (old(fs.Mirrored()) ==> fs.Mirrored())
    ensures fs.freeClst == nfree && fs.lastClst == old(fs.lastClst)
  {
    fs.freeClst := nfree;
    fs.fsiFlag := fs.fsiFlag / 2 * 2 + 1;
  }

  /** f_getfree_ behind find_volume. A scan that stops early still stores what it has counted. */
  method GetFree(fs: FileSystem) returns (res: FResult, nclst: nat)
    requires fs.Valid()
    modifies fs, fs.win, fs.disk
    ensures fs.Valid() && fs.Logical() == old(fs.Logical()) && fs.Table() == old(fs.Table())
    ensures old(fs.freeClst) <= fs.geo.nFatent - 2 ==>
              res == FrOk && nclst == fs.freeClst == old(fs.freeClst)
    ensures old(fs.freeClst) > fs.geo.nFatent - 2 ==> nclst == fs.freeClst && fs.lastClst == old(fs.lastClst)
    ensures old(fs.freeClst) > fs.geo.nFatent - 2 && res == FrOk ==> nclst == Counted(fs.geo, fs.Table())
    ensures res == FrOk || res == FrDiskErr || (res == FrIntErr && fs.geo.fsType == Fat12 && !NoReserved(fs.Table()))
    ensures fs.disk.reliable ==> res != FrDiskErr
    ensures fs.disk.reliable && old(fs.Mirrored()) ==> fs.Mirrored()
  {
    hide FileSystem.Mirrored, FileSystem.Valid, FileSystem.Logical, FileSystem.Table, HasFat, EntryRange, ZeroEntries;
    hide CountFree;
    res := FrOk;
    if fs.freeClst <= fs.geo.nFatent - 2 {
      nclst := fs.freeClst;
    } else {
      if fs.geo.fsType == Fat12 {
        res, nclst := CountByEntry(fs);
      } else {
        res, nclst := CountBySector(fs);
      }
      SetFree(fs, nclst);
    }
  }
}
