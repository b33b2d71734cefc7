/** f_mkfs_ as a whole: what it writes to the disk, and the volume that is mounted afterwards. */
module FreshVolume {
  import opened Base
  import opened FatTable
  import opened FileData
  import opened SectorDevice
  import opened Chains
  import opened Allocation
  import opened Format

  /** The bytes of the FAT that belong to entries 0 and 1 and the root directory's cluster */
  function ReservedBytes(t: FsType): (n: nat)
  {
    match t
    case Fat12 => 3
    case Fat16 => 4
    case Fat32 => 12
  }

  predicate IsZeroFrom(s: Sector, k: nat)
  {
    forall i :: k <= i < SECTOR_SIZE ==> s[i] == 0
  }

  /** A FAT with nothing in it but the reserved entries, and the end mark of the root directory */
  predicate IsBlank(disk: seq<Sector>, l: Layout)
  {
    var base := l.bVol + l.nRsv;
    && base + l.nFat <= |disk| && l.nFat > 0
    && IsZeroFrom(disk[base], ReservedBytes(l.fmt))
    && (forall s :: base < s < base + l.nFat ==> disk[s] == Zeros(SECTOR_SIZE))
    && (l.fmt == Fat32 ==> LdDword(disk[base], 8) == 0xFFF_FFFF)
  }

  /** The first sector of the FAT */
  method FirstFatSector(fmt: FsType, media: byte) returns (s: Sector)
    ensures IsZeroFrom(s, ReservedBytes(fmt))
    ensures fmt == Fat32 ==> LdDword(s, 8) == 0xFFF_FFFF
  {
    var tbl := new byte[SECTOR_SIZE];
    MemCpy(tbl, 0, Zeros(SECTOR_SIZE));
    if fmt != Fat32 {
      StDword(tbl, 0, media + if fmt == Fat12 then 0xFF_FF00 else 0xFFFF_FF00);
      assert fmt == Fat12 ==> tbl[3] == 0 by { TopByte(tbl[..]); }
    } else {
      StDword(tbl, 0, media + 0xFFFF_FF00);
      StDword(tbl, 4, 0xFFFF_FFFF);
      StDword(tbl, 8, 0xFFF_FFFF);
    }
    s := tbl[..];
  }

  lemma TopByte(s: seq<byte>)
    requires |s| >= 4
    ensures LdDword(s, 0) < 0x100_0000 ==> s[3] == 0
  {
  }

  /** disk_write_ of one sector, which fails behind the end of the disk */
  method WriteOne(disk: array<Sector>, s: Sector, sect: nat) returns (ok: bool)
    modifies disk
    ensures ok <==> sect < disk.Length
    ensures disk[..] == if ok then old(disk[..])[sect := s] else old(disk[..])
  {
    ok := sect < disk.Length;
    if ok { disk[sect] := s; }
  }

  /** `count` empty sectors from `wsect` on */
  method WriteZeros(disk: array<Sector>, wsect: nat, count: nat) returns (ok: bool)
    modifies disk
    ensures ok <==> count == 0 || wsect + count <= disk.Length
    ensures ok ==> forall s :: 0 <= s < disk.Length ==>
                     disk[s] == if wsect <= s < wsect + count then Zeros(SECTOR_SIZE) else old(disk[s])
  {
    var n := 0;
    ok := true;
    while n < count
      invariant 0 <= n <= count && (n == 0 || wsect + n <= disk.Length)
      invariant forall s :: 0 <= s < disk.Length ==>
                  disk[s] == if wsect <= s < wsect + n then Zeros(SECTOR_SIZE) else old(disk[s])
    {
      ok := WriteOne(disk, Zeros(SECTOR_SIZE), wsect + n);
      if !ok { return; }
      n := n + 1;
    }
  }

  /** Initialize FAT area; N_FATS is 1. */
  method InitFat(disk: array<Sector>, l: Layout, media: byte) returns (ok: bool)
    modifies disk
    ensures ok <==> l.bVol + l.nRsv + FatWritten(l) <= disk.Length
    ensures ok && l.nFat > 0 ==> IsBlank(disk[..], l)
    ensures ok ==> forall s :: 0 <= s < disk.Length && !(l.bVol + l.nRsv <= s < l.bVol + l.nRsv + FatWritten(l)) ==>
                     disk[s] == old(disk[s])
  {
    var wsect := l.bVol + l.nRsv;
    var first := FirstFatSector(l.fmt, media);
    ok := WriteOne(disk, first, wsect);
    if !ok { return; }
    ok := WriteZeros(disk, wsect + 1, FatWritten(l) - 1);
  }

  /** A boot sector for the layout */
  method BootSector(l: Layout, media: byte, serial: nat) returns (s: Sector)
    requires l.au < 0x100 && l.nVol < DWORD && l.nRsv < 0x1_0000 && l.nFat < DWORD
    requires (l.fmt != Fat32 ==> l.nFat < 0x1_0000)
    ensures IsBootSector(s, l)
  {
    var tbl := new byte[SECTOR_SIZE];
    PutBootSector(tbl, l, media, serial);
    s := tbl[..];
  }

  method PartitionTable(l: Layout) returns (s: Sector)
    requires l.nVol < DWORD
    ensures IsPartitionTable(s, 63)
  {
    var tbl := new byte[SECTOR_SIZE];
    var system: byte := if l.fmt == Fat32 then 0x0C
                        else if l.fmt == Fat12 && l.nVol < 0x1_0000 then 1
                        else if l.nVol < 0x1_0000 then 4 else 6;
    PutPartitionTable(tbl, l, system);
    s := tbl[..];
  }

  /** Create FSINFO */
  method FsInfo(l: Layout) returns (s: Sector)
    requires 0 < l.nClst < DWORD
    ensures IsFsInfo(s, l.nClst - 1)
  {
    var tbl := new byte[SECTOR_SIZE];
    MemCpy(tbl, 0, Zeros(SECTOR_SIZE));
    StDword(tbl, 0, 0x4161_5252);
    StDword(tbl, 484, 0x6141_7272);
    StDword(tbl, 488, l.nClst - 1);
    StDword(tbl, 492, 2);
    ghost var w := tbl[..];
    StWord(tbl, 510, BOOT_SIGNATURE);
    FieldKept(w, tbl[..], 510, 512, 0);
    FieldKept(w, tbl[..], 510, 512, 484);
    FieldKept(w, tbl[..], 510, 512, 488);
    FieldKept(w, tbl[..], 510, 512, 492);
    s := tbl[..];
  }

  /** An information sector that says how many clusters are free */
  predicate IsFsInfo(s: Sector, free: nat)
  {
    && LdWord(s, 510) == BOOT_SIGNATURE && LdDword(s, 0) == 0x4161_5252 && LdDword(s, 484) == 0x6141_7272
    && LdDword(s, 488) == free && LdDword(s, 492) == 2
  }

  /** What f_mkfs_ leaves on the disk */
  predicate IsVolume(disk: seq<Sector>, l: Layout)
  {
    && l.bVol + 1 < |disk| && IsBootSector(disk[l.bVol], l) && (l.bVol == 63 ==> IsPartitionTable(disk[0], 63))
    && (l.fmt == Fat32 && l.nClst > 0 ==> IsFsInfo(disk[l.bVol + 1], l.nClst - 1))
    && HasAreas(disk, l)
  }

  /** A blank FAT and an empty root directory */
  predicate HasAreas(disk: seq<Sector>, l: Layout)
  {
    && IsBlank(disk, l)
    && RootStart(l) + RootSize(l) <= |disk|
    && forall s :: RootStart(l) <= s < RootStart(l) + RootSize(l) ==> disk[s] == Zeros(SECTOR_SIZE)
  }

  /** Where the root directory is: behind the FAT, and in a FAT32 volume in the first cluster */
  function RootStart(l: Layout): (s: nat)
  {
    l.bVol + l.nRsv + FatWritten(l)
  }

  /** f_mkfs_, from the partition table on */
  method WriteVolume(disk: array<Sector>, l: Layout, media: byte, serial: nat) returns (ok: bool)
    requires IsPlan(l) && (l.bVol == 0 || l.bVol == 63) && 128 <= disk.Length == l.bVol + l.nVol
    modifies disk
    ensures ok && l.nFat > 0 ==> IsVolume(disk[..], l)
    ensures ok <==> AreasFit(l)
  {
    hide IsBootSector, IsPartitionTable, IsFsInfo, Fit, FatSectors, TypeFor, U, IsUnit, HasAreas, AreasFit, FatWritten;
    hide RootSize;
    WriteHeader(disk, l, media, serial);
    ghost var headed := disk[..];
    ok := WriteAreas(disk, l, media);
    if !ok { return; }
    ghost var filled := disk[..];
    if l.fmt == Fat32 {
      WriteInfo(disk, l);
    }
    if l.nFat > 0 {
      AreasKept(filled, disk[..], l);
    }
  }

  /** The partition table, the boot sector and its copy */
  method WriteHeader(disk: array<Sector>, l: Layout, media: byte, serial: nat)
    requires IsPlan(l) && (l.bVol == 0 || l.bVol == 63) && 128 <= disk.Length
    modifies disk
    ensures IsBootSector(disk[l.bVol], l) && (l.bVol == 63 ==> IsPartitionTable(disk[0], 63))
  {
    UnitSmall(l.au);
    hide IsBootSector, IsPartitionTable, Fit, FatSectors, TypeFor, U, IsUnit;
    if l.bVol == 63 {
      var table := PartitionTable(l);
      disk[0] := table;
    }
    var boot := BootSector(l, media, serial);
    disk[l.bVol] := boot;
    if l.fmt == Fat32 {
      var _ := WriteOne(disk, boot, l.bVol + 6);
    }
  }

  /** The FAT and the root directory */
  method WriteAreas(disk: array<Sector>, l: Layout, media: byte) returns (ok: bool)
    requires IsPlan(l) && disk.Length == l.bVol + l.nVol
    modifies disk
    ensures ok && l.nFat > 0 ==> HasAreas(disk[..], l)
    ensures ok <==> AreasFit(l)
    ensures forall s :: 0 <= s < disk.Length && s < l.bVol + l.nRsv ==> ok ==> disk[s] == old(disk[s])
  {
    UnitSmall(l.au);
    hide Fit, FatSectors, TypeFor, U, IsUnit, IsZeroFrom;
    ok := InitFat(disk, l, media);
    if !ok { return; }
    ghost var blank := disk[..];
    ok := WriteZeros(disk, RootStart(l), RootSize(l));
    if ok && l.nFat > 0 {
      assert IsBlank(disk[..], l);
    }
  }

  /** The information sector and its copy */
  method WriteInfo(disk: array<Sector>, l: Layout)
    requires 0 < l.nClst < DWORD && l.bVol + 1 < disk.Length
    modifies disk
    ensures IsFsInfo(disk[l.bVol + 1], l.nClst - 1)
    ensures forall s :: 0 <= s < disk.Length && s != l.bVol + 1 && s != l.bVol + 7 ==> disk[s] == old(disk[s])
  {
    hide IsFsInfo;
    var info := FsInfo(l);
    var _ := WriteOne(disk, info, l.bVol + 1);
    var _ := WriteOne(disk, info, l.bVol + 7);
  }

  lemma AreasKept(was: seq<Sector>, now: seq<Sector>, l: Layout)
    requires HasAreas(was, l) && |now| == |was| && forall s :: l.bVol + l.nRsv <= s < |was| ==> now[s] == was[s]
    ensures HasAreas(now, l)
  {
    hide IsZeroFrom;
    assert now[l.bVol + l.nRsv] == was[l.bVol + l.nRsv];
  }

  lemma UnitSmall(au: nat)
    requires IsUnit(au)
    ensures 0 < au < 0x100
  {
  }

  /**
   * f_mkfs_ on a disk that does not fail: `super` is the sfd argument, `unit` the
   * allocation unit asked for, `block` the size of an erase block, a power of two.
   */
  method MakeVolume(disk: array<Sector>, super: bool, unit: nat, block: nat, serial: nat)
    returns (ok: bool, ghost l: Option<Layout>)
    requires disk.Length < DWORD && 0 < block <= 0x8000
    modifies disk
    ensures disk.Length < 128 ==> l == None
    ensures disk.Length >= 128 ==>
              var b := if super then 0 else 63;
              exists au :: IsUnit(au) && IsSelected(unit, disk.Length - b, au)
                           && l == Planned(b, disk.Length - b, au, block)
    ensures l == None ==> !ok && disk[..] == old(disk[..])
    ensures l.Some? ==>
              IsPlan(l.value) && l.value.bVol == (if super then 0 else 63) && l.value.nVol == disk.Length - l.value.bVol
    ensures l.Some? ==> (ok <==> AreasFit(l.value)) && (ok && l.value.nFat > 0 ==> IsVolume(disk[..], l.value))
    ensures l.Some? && IsUsable(l.value) ==> ok && IsVolume(disk[..], l.value)
  {
    hide Planned, IsPlan, IsUsable, IsUnit, IsSelected, IsVolume, AreasFit;
    if disk.Length < 128 { return false, None; }
    var bVol := if super then 0 else 63;
    var nVol := disk.Length - bVol;
    var au := SelectUnit(unit, nVol);
    var plan := PlanVolume(bVol, nVol, au, block);
    l := plan;
    if plan == None { return false, l; }
    PlannedIsPlan(bVol, nVol, au, block);
    if IsUsable(plan.value) { UsableFits(plan.value); }
    ok := WriteVolume(disk, plan.value, if super then 0xF0 else 0xF8, serial);
  }

  /** f_mkfs_ succeeds on such a disk, and the volume cannot be mounted. */
  method NoRoomExample(serial: nat) returns (ok: bool, g: Option<Geometry>)
    ensures ok && g == None
  {
    hide IsPlan, IsVolume, Planned, IsUnit, IsRow, IsPow2, Mount;
    var disk := new Sector[128](_ => Zeros(SECTOR_SIZE));
    ghost var l;
    SectorIsPow2();
    NoRoomLayout();
    ok, l := MakeVolume(disk, true, SECTOR_SIZE, 128, serial);
    NoRoomRefused(disk[..], l.value);
    g := FindVolume(disk[..]);
  }

  lemma SectorIsPow2()
    ensures IsPow2(SECTOR_SIZE)
  {
    assert IsPow2(2) && IsPow2(8) && IsPow2(32) && IsPow2(128);
  }

  lemma NoRoomRefused(disk: seq<Sector>, l: Layout)
    requires |disk| == 128 && l == Layout(0, 128, 1, Fat12, 1, 95, DIR_SECTORS, 0) && IsPlan(l) && IsVolume(disk, l)
    ensures Mount(disk) == None
  {
    hide IsPlan, IsBootSector, IsPartitionTable, HasAreas, Mount;
    RefusesFormatted(disk, l);
  }

  /* The new volume */

  /** The number of clusters that are free in a new volume: all but the root directory's */
  function FreshFree(l: Layout): (n: int)
  {
    l.nClst - if l.fmt == Fat32 then 1 else 0
  }

  /** A byte of a blank FAT, behind the reserved ones */
  lemma BlankByte(disk: seq<Sector>, l: Layout, g: Geometry, k: nat)
    requires IsBlank(disk, l) && g == GeometryOf(l) && HasFat(g, disk)
    requires ReservedBytes(l.fmt) <= k < l.nFat * SECTOR_SIZE
    ensures FatByte(g, disk, k) == 0
  {
    var s := g.fatbase + k / SECTOR_SIZE;
    if k >= SECTOR_SIZE {
      assert disk[s] == Zeros(SECTOR_SIZE);
    }
  }

  /** An entry whose bytes are zero */
  lemma ZeroEntry(g: Geometry, v: seq<Sector>, c: nat, k: nat)
    requires HasFat(g, v) && c < g.nFatent && k == FatTable.EntryOffset(g.fsType, c)
    requires forall j :: k <= j < g.fsize * SECTOR_SIZE ==> FatByte(g, v, j) == 0
    ensures Entry(g, v, c) == 0
  {
    EntryInside(g, c);
    hide FatByte, HasFat, FatBytes;
  }

  /** An entry of a blank FAT */
  lemma BlankEntry(disk: seq<Sector>, l: Layout, g: Geometry, c: nat)
    requires IsBlank(disk, l) && g == GeometryOf(l) && HasFat(g, disk) && 2 <= c < g.nFatent
    ensures Entry(g, disk, c) == if l.fmt == Fat32 && c == 2 then 0xFFF_FFFF else 0
  {
    var k := FatTable.EntryOffset(l.fmt, c);
    hide FatByte, IsBlank, HasFat, FatBytes, Entry;
    if l.fmt == Fat32 && c == 2 {
      RootEntry(disk, l, g);
    } else {
      forall j | k <= j < g.fsize * SECTOR_SIZE
        ensures FatByte(g, disk, j) == 0
      {
        BlankByte(disk, l, g, j);
      }
      ZeroEntry(g, disk, c, k);
    }
  }

  lemma RootEntry(disk: seq<Sector>, l: Layout, g: Geometry)
    requires IsBlank(disk, l) && g == GeometryOf(l) && HasFat(g, disk) && l.fmt == Fat32 && 2 < g.nFatent
    ensures Entry(g, disk, 2) == 0xFFF_FFFF
  {
    hide FatByte, IsZeroFrom, HasFat, Entry, LdDword, FatBytes;
    Read32(g, disk, 2);
    BlankRoot(disk, l);
  }

  lemma BlankRoot(disk: seq<Sector>, l: Layout)
    requires IsBlank(disk, l) && l.fmt == Fat32
    ensures l.bVol + l.nRsv < |disk| && LdDword(disk[l.bVol + l.nRsv], 8) == 0xFFF_FFFF
  {
    hide IsZeroFrom, LdDword;
  }

  /** A table with nothing in it but perhaps an end mark at 2 */
  lemma {:induction false} CountBlank(fat: seq<nat>)
    requires |fat| >= 3 && forall c :: 3 <= c < |fat| ==> fat[c] == 0
    ensures CountFree(fat) == |fat| - 3 + (if fat[2] == 0 then 1 else 0)
  {
    if |fat| == 3 {
      assert CountFree(fat[..2]) == 0;
    } else {
      CountBlank(fat[..|fat| - 1]);
    }
  }

  lemma BlankIsWellFormed(fat: seq<nat>, rooted: bool)
    requires 3 <= |fat| <= 0xFFF_FFFF
    requires forall c :: 2 <= c < |fat| ==> fat[c] == if rooted && c == 2 then 0xFFF_FFFF else 0
    ensures WellFormed(fat)
  {
    assert forall c :: 2 <= c < |fat| ==> !Links(fat, c);
    assert WellFormedBy(fat, fat);
  }

  /** Such a table is sound. */
  lemma BlankIsSound(fat: seq<nat>, rooted: bool, hint: nat)
    requires 3 <= |fat| <= 0xFFF_FFFF
    requires forall c :: 2 <= c < |fat| ==> fat[c] == if rooted && c == 2 then 0xFFF_FFFF else 0
    ensures CountFree(fat) == |fat| - 2 - (if rooted then 1 else 0)
    ensures Sound(Allocation(fat, CountFree(fat), hint))
    ensures rooted ==> IsChain(fat, [2])
  {
    CountBlank(fat);
    BlankIsWellFormed(fat, rooted);
    hide CountFree, WellFormed;
  }

  /** The table of the new volume */
  lemma FreshTable(disk: seq<Sector>, l: Layout, g: Geometry)
    requires IsBlank(disk, l) && g == GeometryOf(l) && HasFat(g, disk) && g.nFatent >= 2
    ensures |Fat(g, disk)| == l.nClst + 2
    ensures forall c :: 2 <= c < |Fat(g, disk)| ==>
              Fat(g, disk)[c] == if l.fmt == Fat32 && c == 2 then 0xFFF_FFFF else 0
  {
    forall c | 2 <= c < g.nFatent
      ensures Entry(g, disk, c) == if l.fmt == Fat32 && c == 2 then 0xFFF_FFFF else 0
    {
      hide Entry, IsBlank, HasFat;
      BlankEntry(disk, l, g, c);
    }
    hide Entry, IsBlank, HasFat;
  }

  lemma MountedHasFat(g: Geometry, disk: seq<Sector>)
    requires Mounted(g, |disk|)
    ensures HasFat(g, disk) && 3 <= g.nFatent <= 0xFFF_FFFF
  {
  }

  /**
   * The volume that f_mkfs_ makes is mounted with a table that is a disjoint
   * union of chains (none, or the root directory's), and the number of free
   * clusters that f_mkfs_ stores in the information sector is right.
   */
  lemma FreshIsSound(disk: seq<Sector>, l: Layout, hint: nat)
    requires IsPlan(l) && IsUsable(l) && IsVolume(disk, l) && |disk| == l.bVol + l.nVol && (l.bVol == 0 || l.bVol == 63)
    ensures Mount(disk) == Some(GeometryOf(l)) && HasFat(GeometryOf(l), disk) && FreshFree(l) >= 0
    ensures Sound(Allocation(Fat(GeometryOf(l), disk), FreshFree(l), hint))
    ensures l.fmt == Fat32 ==> IsChain(Fat(GeometryOf(l), disk), [2]) && IsFsInfo(disk[l.bVol + 1], FreshFree(l))
  {
    hide Fat, Entry, HasFat, Mounted, DataFits, Sound, IsBlank, IsBootSector, IsPartitionTable, IsFsInfo, Mount;
    hide IsChain, CountFree;
    var g := GeometryOf(l);
    MountsFormatted(disk, l);
    MountedHasFat(g, disk);
    FreshTable(disk, l, g);
    BlankIsSound(Fat(g, disk), l.fmt == Fat32, hint);
    hide IsPlan, IsUsable;
  }
}
