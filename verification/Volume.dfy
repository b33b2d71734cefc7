/** FATFS: the window, access to the FAT, and the allocation of cluster chains. */
module Volume {
  import opened Base
  import opened Disk
  import opened FatTable
  import opened Window
  import opened Chains
  import opened FileData

  /** The value get_fat and create_chain return on a disk error */
  const DISK_ERROR := 0xFFFF_FFFF

  /** FATFS */
  class FileSystem {
    const disk: BlockDevice
    const geo: Geometry
    const win: array<byte>
    var winsect: nat
    var wflag: bool
    var lastClst: nat
    var freeClst: nat
    var fsiFlag: nat

    /** A freshly mounted volume: nothing in the window, no allocation hint, free count unknown. */
    constructor (disk: BlockDevice, geo: Geometry)
      requires Mounted(geo, |disk.sectors|)
      ensures Valid() && this.disk == disk && this.geo == geo && fresh(win)
      ensures !wflag && winsect == lastClst == freeClst == DISK_ERROR
      ensures forall s :: 0 <= s < |disk.sectors| && !IsMirror(geo, s) ==> Logical()[s] == disk.sectors[s]
    {
      this.disk, this.geo := disk, geo;
      win := new byte[SECTOR_SIZE](_ => 0);
      winsect, wflag := DISK_ERROR, false;
      lastClst, freeClst, fsiFlag := DISK_ERROR, DISK_ERROR, 0x80;
    }

    ghost predicate Valid()
      reads this, disk, win
      ensures Valid() ==> win.Length == SECTOR_SIZE && freeClst < DWORD && 3 <= geo.nFatent < EntryRange(geo.fsType)
      ensures Valid() ==> HasFat(geo, Logical()) && Mounted(geo, |Logical()|)
    {
      && win.Length == SECTOR_SIZE
      && Mounted(geo, |disk.sectors|)
      && freeClst < DWORD
      && (wflag ==> winsect < |disk.sectors|)
      && (!wflag && winsect < |disk.sectors| ==> win[..] == disk.sectors[winsect])
    }

    /** The disk as a client of the window sees it */
    ghost function Logical(): (v: seq<Sector>)
      reads this, disk, win
      requires win.Length == SECTOR_SIZE
    {
      View(geo, disk.sectors, wflag, winsect, win[..])
    }

    ghost function Table(): (t: seq<nat>)
      reads this, disk, win
      requires Valid()
      ensures |t| == geo.nFatent
      ensures forall c :: 0 <= c < |t| ==> t[c] < EntryRange(geo.fsType)
    {
      Fat(geo, Logical())
    }

    ghost predicate Mirrored()
      reads this, disk
    {
      MirrorsAgree(geo, disk.sectors, wflag, winsect)
    }

    /** sync_window */
    method SyncWindow() returns (res: FResult)
      requires Valid()
      modifies this`wflag, disk
      ensures Valid() && Logical() == old(Logical())
      ensures res == FrOk || (res == FrDiskErr && wflag)
      ensures res == FrOk ==> !wflag
      ensures disk.reliable ==> res == FrOk
      ensures disk.reliable && old(Mirrored()) ==> Mirrored()
    {
      res := FrOk;
      if wflag {
        var wsect := winsect;
        ghost var before := disk.sectors;
        var ok := disk.Write(win[..], wsect, 1);
        assert win[..] == win[..][0..SECTOR_SIZE];
        if !ok {
          res := FrDiskErr;
          WriteBackView(geo, before, disk.sectors, winsect, win[..], true);
        } else {
          WriteBackView(geo, before, disk.sectors, winsect, win[..], false);
          wflag := false;
          if InFat(geo, wsect) {
            ReflectToCopies();
          }
        }
      }
    }

    /** The loop of sync_window that copies a FAT sector to the other FAT copies; failures are ignored. */
    method ReflectToCopies()
      requires Valid() && !wflag && InFat(geo, winsect)
      modifies disk
      ensures Valid() && Logical() == old(Logical())
      ensures forall s :: 0 <= s < |disk.sectors| && !(geo.nFats == 2 && s == winsect + geo.fsize) ==>
                disk.sectors[s] == old(disk.sectors)[s]
      ensures disk.reliable && geo.nFats == 2 ==> disk.sectors[winsect + geo.fsize] == win[..]
    {
      var wsect, nf := winsect, geo.nFats;
      ghost var before := disk.sectors;
      while nf >= 2
        invariant 1 <= nf <= geo.nFats
        invariant wsect == winsect + (geo.nFats - nf) * geo.fsize
        invariant |disk.sectors| == |before|
        invariant forall s :: 0 <= s < |before| && !(nf < geo.nFats && s == winsect + geo.fsize) ==>
                    disk.sectors[s] == before[s]
        invariant disk.reliable && nf < geo.nFats ==> disk.sectors[winsect + geo.fsize] == win[..]
      {
        wsect := wsect + geo.fsize;
        var _ := disk.Write(win[..], wsect, 1);
        assert win[..] == win[..][0..SECTOR_SIZE];
        nf := nf - 1;
      }
      MirrorWriteView(geo, before, disk.sectors, wflag, winsect, win[..]);
    }

    /** move_window */
    method MoveWindow(sector: nat) returns (res: FResult)
      requires Valid()
      modifies this`wflag, this`winsect, win, disk
      ensures Valid() && Logical() == old(Logical())
      ensures res == FrOk || res == FrDiskErr
      ensures res == FrOk && sector < |disk.sectors| ==>
                winsect == sector && (IsMirror(geo, sector) || win[..] == Logical()[sector])
      ensures res == FrDiskErr ==> winsect == old(winsect) || winsect == DISK_ERROR
      ensures disk.reliable && sector < |disk.sectors| ==> res == FrOk
      ensures disk.reliable && old(Mirrored()) ==> Mirrored()
    {
      res := FrOk;
      if sector != winsect {
        res := SyncWindow();
        if res == FrOk {
          var target := sector;
          ghost var was := win[..];
          var ok := disk.Read(win, 0, sector, 1);
          if !ok {
            target := DISK_ERROR;
            res := FrDiskErr;
          } else {
            assert win[..] == win[0..SECTOR_SIZE];
          }
          CleanView(geo, disk.sectors, winsect, was, target, win[..]);
          winsect := target;
        }
      }
    }

    /** The window stays where it was, is lost, or shows a FAT sector. */
    twostate predicate WindowInFat()
      reads this
    {
      winsect == old(winsect) || winsect == DISK_ERROR || InFat(geo, winsect)
    }

    /** get_fat */
    method GetFat(clst: nat) returns (val: nat)
      requires Valid()
      modifies this`wflag, this`winsect, win, disk
      ensures Valid() && Logical() == old(Logical()) && Table() == old(Table())
      ensures val == DISK_ERROR || val == if 2 <= clst < geo.nFatent then Table()[clst] else 1
      ensures disk.reliable ==> val != DISK_ERROR
      ensures WindowInFat()
      ensures disk.reliable && old(Mirrored()) ==> Mirrored()
    {
      if clst < 2 || clst >= geo.nFatent {
        val := 1;
      } else {
        EntryInside(geo, clst);
        match geo.fsType {
          case Fat12 => val := GetFat12(clst);
          case Fat16 => val := GetFat16(clst);
          case Fat32 => val := GetFat32(clst);
        }
      }
    }

    /** Moves the window to byte `k` of the FAT and picks the byte. */
    method PickByte(k: nat) returns (res: FResult, b: byte)
      requires Valid() && k < geo.fsize * SECTOR_SIZE
      modifies this`wflag, this`winsect, win, disk
      ensures Valid() && Logical() == old(Logical())
      ensures res == FrOk || res == FrDiskErr
      ensures res == FrOk ==> b == FatByte(geo, Logical(), k) && winsect == geo.fatbase + k / SECTOR_SIZE
      ensures disk.reliable ==> res == FrOk
      ensures WindowInFat()
      ensures disk.reliable && old(Mirrored()) ==> Mirrored()
    {
      b := 0;
      res := MoveWindow(geo.fatbase + k / SECTOR_SIZE);
      if res == FrOk {
        b := win[k % SECTOR_SIZE];
      }
    }

    method GetFat12(clst: nat) returns (val: nat)
      requires Valid() && geo.fsType == Fat12 && clst < geo.nFatent
      modifies this`wflag, this`winsect, win, disk
      ensures Valid() && Logical() == old(Logical())
      ensures val == DISK_ERROR || val == Entry(geo, Logical(), clst)
      ensures disk.reliable ==> val != DISK_ERROR
      ensures WindowInFat()
      ensures disk.reliable && old(Mirrored()) ==> Mirrored()
    {
      hide FileSystem.Mirrored, FileSystem.Valid, FileSystem.Logical;
      EntryInside(geo, clst);
      hide FatByte, FatBytes, EntryOffset;
      var bc := clst + clst / 2;
      var res, lo := PickByte(bc);
      if res != FrOk { return DISK_ERROR; }
      var hi;
      res, hi := PickByte(bc + 1);
      if res != FrOk { return DISK_ERROR; }
      var wc: int, b1: int := lo, hi;
      wc := wc + 0x100 * b1;
      val := if clst % 2 == 1 then wc / 0x10 else wc % 0x1000;
    }

    method GetFat16(clst: nat) returns (val: nat)
      requires Valid() && geo.fsType == Fat16 && clst < geo.nFatent
      modifies this`wflag, this`winsect, win, disk
      ensures Valid() && Logical() == old(Logical())
      ensures val == DISK_ERROR || val == Entry(geo, Logical(), clst)
      ensures disk.reliable ==> val != DISK_ERROR
      ensures WindowInFat()
      ensures disk.reliable && old(Mirrored()) ==> Mirrored()
    {
      hide MirrorsAgree, View, FatBytes, Entry, LdWord;
      Read16(geo, Logical(), clst);
      var res := MoveWindow(geo.fatbase + clst / (SECTOR_SIZE / 2));
      if res != FrOk { return DISK_ERROR; }
      val := LdWord(win[..], clst * 2 % SECTOR_SIZE);
    }

    method GetFat32(clst: nat) returns (val: nat)
      requires Valid() && geo.fsType == Fat32 && clst < geo.nFatent
      modifies this`wflag, this`winsect, win, disk
      ensures Valid() && Logical() == old(Logical())
      ensures val == DISK_ERROR || val == Entry(geo, Logical(), clst)
      ensures disk.reliable ==> val != DISK_ERROR
      ensures WindowInFat()
      ensures disk.reliable && old(Mirrored()) ==> Mirrored()
    {
      hide MirrorsAgree, View, FatBytes, FatByte, Entry, LdDword;
      Read32(geo, Logical(), clst);
      var res := MoveWindow(geo.fatbase + clst / (SECTOR_SIZE / 4));
      if res != FrOk { return DISK_ERROR; }
      val := LdDword(win[..], clst * 4 % SECTOR_SIZE) % 0x1000_0000;
    }

    /** Byte stores into the window, which shows the FAT sector of byte `k` */
    method StoreBytes(k: nat, bytes: seq<byte>)
      requires Valid() && k + |bytes| <= geo.fsize * SECTOR_SIZE && k % SECTOR_SIZE + |bytes| <= SECTOR_SIZE
      requires bytes != [] && winsect == geo.fatbase + k / SECTOR_SIZE
      modifies this`wflag, win
      ensures Valid() && wflag
      ensures Logical() == SetFatBytes(geo, old(Logical()), k, bytes)
      ensures old(Mirrored()) ==> Mirrored()
    {
      hide MirrorsAgree, View, FatByte, SetFatByte, FatBytes;
      var i := 0;
      while i < |bytes|
        invariant 0 <= i <= |bytes|
        invariant Valid() && (i > 0 ==> wflag)
        invariant old(Mirrored()) ==> Mirrored()
        invariant SetFatBytes(geo, Logical(), k + i, bytes[i..]) == SetFatBytes(geo, old(Logical()), k, bytes)
      {
        StoreByte(k + i, bytes[i]);
        assert bytes[i..][1..] == bytes[i + 1..];
        i := i + 1;
      }
    }

    method StoreByte(k: nat, b: byte)
      requires Valid() && k < geo.fsize * SECTOR_SIZE
      requires winsect == geo.fatbase + k / SECTOR_SIZE
      modifies this`wflag, win
      ensures Valid() && wflag
      ensures Logical() == SetFatByte(geo, old(Logical()), k, b)
      ensures old(Mirrored()) ==> Mirrored()
    {
      ghost var was, dirty := win[..], wflag;
      win[k % SECTOR_SIZE] := b;
      wflag := true;
      StoreView(geo, disk.sectors, dirty, winsect, was, win[..]);
    }

    /** put_fat */
    method PutFat(clst: nat, val: nat) returns (res: FResult)
      requires Valid()
      modifies this`wflag, this`winsect, win, disk
      ensures Valid() && SameOutsideFat(geo, old(Logical()), Logical())
      ensures res == FrOk || res == FrDiskErr || res == FrIntErr
      ensures res == FrIntErr <==> !(2 <= clst < geo.nFatent)
      ensures res == FrIntErr ==> Logical() == old(Logical())
      ensures res == FrOk ==> Logical() == Store(geo, old(Logical()), clst, val)
      ensures res == FrOk ==> Table() == old(Table())[clst := val % EntryRange(geo.fsType)]
      ensures disk.reliable ==> res != FrDiskErr
      ensures WindowInFat()
      ensures disk.reliable && old(Mirrored()) ==> Mirrored()
    {
      res := FrIntErr;
      if 2 <= clst < geo.nFatent {
        ghost var before := Logical();
        match geo.fsType {
          case Fat12 => res := PutFat12(clst, val);
          case Fat16 => res := PutFat16(clst, val);
          case Fat32 => res := PutFat32(clst, val);
        }
        StoreTable(geo, before, clst, val);
      }
    }

    method PutFat12(clst: nat, val: nat) returns (res: FResult)
      requires Valid() && geo.fsType == Fat12 && clst < geo.nFatent
      modifies this`wflag, this`winsect, win, disk
      ensures Valid() && SameOutsideFat(geo, old(Logical()), Logical())
      ensures res == FrOk || res == FrDiskErr
      ensures res == FrOk ==> Logical() == Store12(geo, old(Logical()), clst, val)
      ensures disk.reliable ==> res == FrOk
      ensures WindowInFat()
      ensures disk.reliable && old(Mirrored()) ==> Mirrored()
    {
      hide FileSystem.Mirrored, FileSystem.Valid, FileSystem.Logical;
      EntryInside(geo, clst);
      hide FatByte, FatBytes, EntryOffset, SetFatByte, LowByte12, HighByte12;
      var bc := clst + clst / 2;
      res := PutHalf12(clst, val, bc, false);
      if res != FrOk { return; }
      res := PutHalf12(clst, val, bc + 1, true);
    }

    /** One of the two byte updates of put_fat on FAT12: move the window, then replace the bits of the entry */
    method PutHalf12(clst: nat, val: nat, bc: nat, high: bool) returns (res: FResult)
      requires Valid() && bc < geo.fsize * SECTOR_SIZE
      modifies this`wflag, this`winsect, win, disk
      ensures Valid() && SameOutsideFat(geo, old(Logical()), Logical())
      ensures res == FrOk || res == FrDiskErr
      ensures res == FrOk ==>
                var p := FatByte(geo, old(Logical()), bc);
                Logical() == SetFatByte(geo, old(Logical()), bc,
                                        if high then HighByte12(clst, p, val) else LowByte12(clst, p, val))
      ensures disk.reliable ==> res == FrOk
      ensures WindowInFat()
      ensures disk.reliable && old(Mirrored()) ==> Mirrored()
    {
      hide FileSystem.Mirrored, FileSystem.Valid, FileSystem.Logical;
      hide HasFat, FatByte, FatBytes, SetFatByte, LowByte12, HighByte12;
      var p;
      res, p := PickByte(bc);
      if res == FrOk {
        StoreByte(bc, if high then HighByte12(clst, p, val) else LowByte12(clst, p, val));
      }
    }

    method PutFat16(clst: nat, val: nat) returns (res: FResult)
      requires Valid() && geo.fsType == Fat16 && clst < geo.nFatent
      modifies this`wflag, this`winsect, win, disk
      ensures Valid() && SameOutsideFat(geo, old(Logical()), Logical())
      ensures res == FrOk || res == FrDiskErr
      ensures res == FrOk ==> Logical() == Store16(geo, old(Logical()), clst, val)
      ensures disk.reliable ==> res == FrOk
      ensures WindowInFat()
      ensures disk.reliable && old(Mirrored()) ==> Mirrored()
    {
      Read16(geo, Logical(), clst);
      EntryInside(geo, clst);
      hide MirrorsAgree, View, FatBytes, SetFatBytes, FatByte, Entry;
      res := MoveWindow(geo.fatbase + clst / (SECTOR_SIZE / 2));
      if res != FrOk { return; }
      StoreBytes(clst * 2, Word(val));
    }

    method PutFat32(clst: nat, val: nat) returns (res: FResult)
      requires Valid() && geo.fsType == Fat32 && clst < geo.nFatent
      modifies this`wflag, this`winsect, win, disk
      ensures Valid() && SameOutsideFat(geo, old(Logical()), Logical())
      ensures res == FrOk || res == FrDiskErr
      ensures res == FrOk ==> Logical() == Store32(geo, old(Logical()), clst, val)
      ensures disk.reliable ==> res == FrOk
      ensures WindowInFat()
      ensures disk.reliable && old(Mirrored()) ==> Mirrored()
    {
      hide MirrorsAgree, View, EntryOffset, FatBytes, SetFatBytes, FatByte, Entry, LdDword, Dword32;
      Read32(geo, Logical(), clst);
      res := MoveWindow(geo.fatbase + clst / (SECTOR_SIZE / 4));
      if res != FrOk { return; }
      StoreBytes(clst * 4, Dword32(val, win[clst * 4 % SECTOR_SIZE + 3]));
    }

    /** Counts a released cluster, unless the number of free ones is unknown. */
    method CountReleased()
      requires Valid()
      modifies this`freeClst, this`fsiFlag
      ensures Valid() && Logical() == old(Logical()) && Table() == old(Table()) && (old(Mirrored()) ==> Mirrored())
      ensures freeClst == AddFree(old(freeClst), 1)
    {
      if freeClst != 0xFFFF_FFFF {
        freeClst := freeClst + 1;
        fsiFlag := fsiFlag / 2 * 2 + 1;
      }
    }

    /** Data sectors that the window does not show */
    predicate OffWindow(sector: nat, count: nat)
      reads this
    {
      geo.database <= sector && !(sector <= winsect < sector + count)
    }

    /** disk_read_ as f_read_ uses it, past the window */
    method ReadDirect(buff: array<byte>, at: nat, sector: nat, count: nat) returns (ok: bool)
      requires Valid() && buff != win && at + SECTOR_SIZE * count <= buff.Length
      requires sector + count <= |Logical()| && OffWindow(sector, count)
      modifies buff
      ensures Valid() && Logical() == old(Logical()) && Table() == old(Table()) && (old(Mirrored()) ==> Mirrored())
      ensures buff[..at] == old(buff[..at])
      ensures buff[at + SECTOR_SIZE * count..] == old(buff[at + SECTOR_SIZE * count..])
      ensures ok ==> forall k :: 0 <= k < SECTOR_SIZE * count ==>
                buff[at + k] == Logical()[sector + k / SECTOR_SIZE][k % SECTOR_SIZE]
      ensures ok && count == 1 ==> buff[at..at + SECTOR_SIZE] == Logical()[sector]
      ensures disk.reliable ==> ok
    {
      ok := disk.Read(buff, at, sector, count);
      assert forall s :: sector <= s < sector + count ==> Logical()[s] == disk.sectors[s];
    }

    /** disk_write_ as f_write_ uses it, past the window */
    method WriteDirect(data: seq<byte>, sector: nat, count: nat) returns (ok: bool)
      requires Valid() && |data| == SECTOR_SIZE * count
      requires sector + count <= |Logical()| && OffWindow(sector, count)
      modifies disk
      ensures Valid() && Table() == old(Table()) && (old(Mirrored()) ==> Mirrored())
      ensures |Logical()| == |old(Logical())|
      ensures forall s :: 0 <= s < |Logical()| && !(sector <= s < sector + count) ==> Logical()[s] == old(Logical())[s]
      ensures ok ==> RunWritten(old(Logical()), Logical(), sector, count, data)
      ensures disk.reliable ==> ok
    {
      ghost var before := Logical();
      ok := disk.Write(data, sector, count);
      FatFrame(geo, before, Logical());
    }

    /** remove_chain */
    method RemoveChain(clst: nat, pclst: nat) returns (res: FResult)
      requires Valid()
      modifies this`wflag, this`winsect, this`freeClst, this`fsiFlag, win, disk
      ensures Valid() && SameOutsideFat(geo, old(Logical()), Logical())
      ensures res == FrOk || res == FrDiskErr || res == FrIntErr
      ensures var fat := old(Table());
              if !IsCluster(fat, clst) || (pclst != 0 && !IsCluster(fat, pclst)) then
                res == FrIntErr && Table() == fat && freeClst == old(freeClst)
              else
                var r := Unlink(if pclst == 0 then fat else fat[pclst := EndMark(geo.fsType)], clst);
                res == FrDiskErr ||
                (Table() == r.fat && freeClst == AddFree(old(freeClst), r.freed) && (res == FrOk <==> r.ok))
      ensures disk.reliable ==> res != FrDiskErr
      ensures WindowInFat()
      ensures disk.reliable && old(Mirrored()) ==> Mirrored()
    {
      hide MirrorsAgree, View, Fat, HasFat, Store, EntryRange;
      if clst < 2 || clst >= geo.nFatent { return FrIntErr; }
      StoredValues(geo.fsType, 0);
      if pclst != 0 {
        res := PutFat(pclst, 0xFFFF_FFFF);
        if res != FrOk { return; }
      }
      res := ReleaseFrom(clst);
    }

    /** The loop of remove_chain */
    method ReleaseFrom(clst: nat) returns (res: FResult)
      requires Valid() && 2 <= clst < geo.nFatent
      modifies this`wflag, this`winsect, this`freeClst, this`fsiFlag, win, disk
      ensures Valid() && SameOutsideFat(geo, old(Logical()), Logical())
      ensures res == FrOk || res == FrDiskErr || res == FrIntErr
      ensures var r := Unlink(old(Table()), clst);
              res == FrDiskErr ||
              (Table() == r.fat && freeClst == AddFree(old(freeClst), r.freed) && (res == FrOk <==> r.ok))
      ensures disk.reliable ==> res != FrDiskErr
      ensures WindowInFat()
      ensures disk.reliable && old(Mirrored()) ==> Mirrored()
    {
      hide FileSystem.Mirrored, FileSystem.Valid, FileSystem.Logical, FileSystem.Table, HasFat, Store, EntryRange;
      hide Unlink, CountUsed;
      var c := clst;
      ghost var k := 0;
      ghost var whole := Unlink(Table(), clst);
      while true
        invariant Valid() && 2 <= c < geo.nFatent
        invariant SameOutsideFat(geo, old(Logical()), Logical())
        invariant whole == Resumed(Table(), c, k)
        invariant freeClst == AddFree(old(freeClst), k)
        invariant WindowInFat()
        invariant disk.reliable && old(Mirrored()) ==> Mirrored()
        decreases CountUsed(Table())
      {
        ReleaseStep(Table(), c, k);
        var nxt := GetFat(c);
        if nxt == 0 { break; }
        if nxt == 1 { return FrIntErr; }
        if nxt == DISK_ERROR { return FrDiskErr; }
        StoredValues(geo.fsType, 0);
        res := PutFat(c, 0);
        if res != FrOk { return; }
        CountReleased();
        k := k + 1;
        if nxt >= geo.nFatent { return FrOk; }
        c := nxt;
      }
      return FrOk;
    }

    /**
     * The scan loop of create_chain: 0 when all clusters are in use, 1 or
     * DISK_ERROR on an error, else a free cluster
     */
    method FindHole(scl: nat) returns (r: nat)
      requires Valid() && 1 <= scl < geo.nFatent
      modifies this`wflag, this`winsect, win, disk
      ensures Valid() && Logical() == old(Logical()) && Table() == old(Table())
      ensures r == DISK_ERROR || Scanned(Table(), scl, r)
      ensures disk.reliable ==> r != DISK_ERROR
      ensures WindowInFat()
      ensures disk.reliable && old(Mirrored()) ==> Mirrored()
    {
      hide FileSystem.Mirrored, FileSystem.Valid, FileSystem.Logical, FileSystem.Table, HasFat, EntryRange;
      var ncl := scl;
      ghost var wrapped := false;
      while true
        invariant Valid() && Logical() == old(Logical()) && Table() == old(Table())
        invariant if wrapped then 2 <= ncl < scl else scl <= ncl < geo.nFatent
        invariant forall c :: 2 <= c < geo.nFatent && (if wrapped then c > scl || c <= ncl else scl < c <= ncl) ==>
                    Table()[c] >= 2
        invariant WindowInFat()
        invariant disk.reliable && old(Mirrored()) ==> Mirrored()
        decreases !wrapped, geo.nFatent - ncl
      {
        ncl := ncl + 1;
        if ncl >= geo.nFatent {
          ncl := 2;
          if ncl > scl { return 0; }
          wrapped := true;
        }
        var cs := GetFat(ncl);
        if cs == 0 { return ncl; }
        if cs == 1 || cs == DISK_ERROR { return cs; }
        if ncl == scl { return 0; }
      }
    }

    /** create_chain */
    method CreateChain(clst: nat) returns (r: nat)
      requires Valid()
      modifies this`wflag, this`winsect, this`lastClst, this`freeClst, this`fsiFlag, win, disk
      ensures Valid() && SameOutsideFat(geo, old(Logical()), Logical())
      ensures r == DISK_ERROR ||
              Created(old(Table()), clst, old(lastClst), EndMark(geo.fsType), r, Table())
      ensures r != DISK_ERROR && Table() != old(Table()) ==>
                lastClst == r && freeClst == TakeFree(old(freeClst), geo.nFatent)
      ensures r != DISK_ERROR && Table() == old(Table()) ==> lastClst == old(lastClst) && freeClst == old(freeClst)
      ensures disk.reliable ==> r != DISK_ERROR
      ensures WindowInFat()
      ensures disk.reliable && old(Mirrored()) ==> Mirrored()
    {
      hide FileSystem.Mirrored, FileSystem.Valid, FileSystem.Logical, FileSystem.Table, HasFat, Store, EntryRange;
      var scl: nat;
      if clst == 0 {
        scl := lastClst;
        if scl == 0 || scl >= geo.nFatent { scl := 1; }
      } else {
        var cs := GetFat(clst);
        if cs < 2 { return 1; }
        if cs == DISK_ERROR { return cs; }
        if cs < geo.nFatent { return cs; }
        scl := clst;
      }
      var ncl := FindHole(scl);
      if ncl < 2 || ncl == DISK_ERROR { return ncl; }
      r := TakeHole(clst, ncl);
    }

    /** The second half of create_chain: mark the new cluster, link it, update the allocation information. */
    method TakeHole(clst: nat, ncl: nat) returns (r: nat)
      requires Valid() && CanAppend(Table(), clst, ncl, EndMark(geo.fsType))
      modifies this`wflag, this`winsect, this`lastClst, this`freeClst, this`fsiFlag, win, disk
      ensures Valid() && SameOutsideFat(geo, old(Logical()), Logical())
      ensures r == DISK_ERROR || (r == ncl && Table() == Append(old(Table()), clst, ncl, EndMark(geo.fsType)))
      ensures r == ncl ==> lastClst == ncl && freeClst == TakeFree(old(freeClst), geo.nFatent)
      ensures disk.reliable ==> r != DISK_ERROR
      ensures WindowInFat()
      ensures disk.reliable && old(Mirrored()) ==> Mirrored()
    {
      hide FileSystem.Mirrored, FileSystem.Valid, FileSystem.Logical, FileSystem.Table, HasFat, Store, EntryRange;
      StoredValues(geo.fsType, ncl);
      var res := PutFat(ncl, 0xFFFF_FFFF);
      if res == FrOk && clst != 0 {
        res := PutFat(clst, ncl);
      }
      if res != FrOk { return DISK_ERROR; }
      CountTaken(ncl);
      r := ncl;
    }

    /** Remembers the new cluster as the next hint and counts it, unless every cluster is thought to be free. */
    method CountTaken(ncl: nat)
      requires Valid()
      modifies this`lastClst, this`freeClst, this`fsiFlag
      ensures Valid() && Logical() == old(Logical()) && Table() == old(Table()) && (old(Mirrored()) ==> Mirrored())
      ensures lastClst == ncl && freeClst == TakeFree(old(freeClst), geo.nFatent)
    {
      lastClst := ncl;
      if freeClst < geo.nFatent - 2 {
        freeClst := (freeClst - 1) % DWORD;
      }
      fsiFlag := fsiFlag / 2 * 2 + 1;
    }
  }

  /** The free counter after one allocation on a volume of `n` FAT entries: a DWORD that wraps below 0 */
  function TakeFree(free: nat, n: nat): (r: nat)
  {
    if free < n - 2 then (free - 1) % DWORD else free
  }

  /** The scan starts behind the cluster to stretch, or behind the hint if it is a cluster number. */
  function ScanStart(n: nat, clst: nat, hint: nat): (s: nat)
  {
    if clst != 0 then clst else if hint == 0 || hint >= n then 1 else hint
  }

  /**
   * What create_chain returns and what it leaves in the table: an error for a
   * bad or free cluster, the successor if there is one, otherwise the first
   * hole in scan order, which now ends the chain.
   */
  predicate Created(fat: seq<nat>, clst: nat, hint: nat, eoc: nat, r: nat, fat': seq<nat>)
  {
    if clst != 0 && !(IsCluster(fat, clst) && fat[clst] >= 2) then r == 1 && fat' == fat
    else if clst != 0 && fat[clst] < |fat| then r == fat[clst] && fat' == fat
    else
      && Scanned(fat, ScanStart(|fat|, clst, hint), r)
      && if r < 2 then fat' == fat else IsCluster(fat, r) && fat' == Append(fat, clst, r, eoc)
  }

  /** What the scan of create_chain reports: no hole, or the first hole in scan order */
  predicate Scanned(fat: seq<nat>, scl: nat, r: nat)
  {
    if r == 0 then NoHole(fat)
    else if r == 1 then exists hole :: 2 <= hole < |fat| && IsNextHole(fat, scl, hole) && fat[hole] == 1
    else IsNextHole(fat, scl, r) && fat[r] == 0
  }

  /** The free counter after `k` increments: a DWORD that sticks at 0xFFFFFFFF, which means unknown */
  function AddFree(free: nat, k: nat): (r: nat)
    requires free < DWORD
    ensures r < DWORD
  {
    if free + k < 0xFFFF_FFFF then free + k else 0xFFFF_FFFF
  }

  /** Position `i` of a chain has been reached: it was there already, or a free cluster was put there. */
  predicate Reached(fat: seq<nat>, sclust: nat, chain: seq<nat>, i: nat, r: nat, after: seq<nat>)
  {
    && i <= |chain|
    && (i < |chain| ==> r == chain[i] && after == fat)
    && (r < 2 ==> after == fat && i == |chain|)
    && (r == 0 ==> NoHole(fat))
    && (r == 1 ==> exists c :: 2 <= c < |fat| && fat[c] == 1)
    && (i == |chain| && r >= 2 ==>
          && Grows(fat, after, chain, chain + [r])
          && ChainOf(after, if chain == [] then r else sclust, chain + [r]))
  }

  /** create_chain on the cluster before position `i` of a chain leads to position `i`. */
  lemma CreatedOnChain(fat: seq<nat>, chain: seq<nat>, sclust: nat, i: nat, hint: nat, eoc: nat, r: nat,
                       after: seq<nat>)
    requires ChainOf(fat, sclust, chain) && i <= |chain| && (i == 0 ==> chain == []) && eoc >= |fat|
    requires Created(fat, if i == 0 then 0 else chain[i - 1], hint, eoc, r, after)
    ensures Reached(fat, sclust, chain, i, r, after)
  {
    if i > 0 {
      MemberStep(fat, chain, i - 1);
    }
    if i == |chain| && r >= 2 {
      AppendGrows(fat, chain, sclust, r, eoc);
    }
  }

  /** The chain after position `i` has been reached */
  function ChainReached(chain: seq<nat>, i: nat, r: nat): (more: seq<nat>)
  {
    if i < |chain| || r < 2 then chain else chain + [r]
  }

  lemma ReachedGrows(fat: seq<nat>, sclust: nat, chain: seq<nat>, i: nat, r: nat, after: seq<nat>)
    requires Reached(fat, sclust, chain, i, r, after) && ChainOf(fat, sclust, chain)
    ensures Grows(fat, after, chain, ChainReached(chain, i, r))
    ensures ChainOf(after, if sclust == 0 && r >= 2 then r else sclust, ChainReached(chain, i, r))
    ensures r >= 2 ==> i < |ChainReached(chain, i, r)| && ChainReached(chain, i, r)[i] == r
    ensures r == 0 ==> NoHole(after) && ChainReached(chain, i, r) == chain
    ensures r == 1 ==> !NoReserved(fat) && after == fat
  {
  }
}