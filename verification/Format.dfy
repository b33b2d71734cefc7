/** f_mkfs_ and find_volume: the layout of a new volume, its boot sector, and what mounting makes of it. */
module Format {
  import opened Arithmetic
  import opened Base
  import opened FatTable
  import opened FileData
  import opened SectorDevice

  const N_ROOTDIR := 512
  const DIR_SECTORS := 32

  datatype Option<T> = None | Some(value: T)

  /** DWORD arithmetic */
  function U(x: int): (r: nat)
    ensures r < DWORD
    ensures 0 <= x < DWORD ==> r == x
  {
    x % DWORD
  }

  /* The allocation unit */

  predicate IsPow2(n: nat)
  {
    n == 1 || (n > 0 && n % 2 == 0 && IsPow2(n / 2))
  }

  /** The powers of two that fit into the boot sector's byte */
  predicate IsUnit(au: nat)
  {
    au == 1 || au == 2 || au == 4 || au == 8 || au == 16 || au == 32 || au == 64 || au == 128
  }

  lemma {:induction false} SmallPow2(n: nat)
    requires IsPow2(n) && n <= 128
    ensures IsUnit(n)
  {
    if n > 1 {
      SmallPow2(n / 2);
    }
  }

  lemma Eighth(n: nat)
    requires IsPow2(n) && n >= 8
    ensures IsPow2(n / 8) && n == 8 * (n / 8)
  {
    assert IsPow2(n / 2) && IsPow2(n / 2 / 2) && IsPow2(n / 2 / 2 / 2);
  }

  const VST: seq<nat> := [1024, 512, 256, 128, 64, 32, 16, 8, 4, 2, 0]
  const CST: seq<nat> := [32768, 16384, 8192, 4096, 2048, 16384, 8192, 4096, 2048, 1024, 512]

  /** Row `i` of the tables is the one for a volume of `nVol` sectors. */
  predicate IsRow(nVol: nat, i: nat)
  {
    i <= 10 && VST[i] <= nVol / 2000 && (i > 0 ==> nVol / 2000 < VST[i - 1])
  }

  lemma RowUnique(nVol: nat, i: nat, j: nat)
    requires IsRow(nVol, i) && IsRow(nVol, j)
    ensures i == j
  {
  }

  /** AU auto selection: a number of bytes */
  method AutoUnit(nVol: nat) returns (au: nat)
    ensures exists i | 0 <= i <= 10 :: IsRow(nVol, i) && au == CST[i]
    ensures au == 512 * (au / 512) && IsUnit(au / 512)
  {
    var vs, i := nVol / 2000, 0;
    while vs < VST[i]
      invariant 0 <= i <= 10 && (i > 0 ==> vs < VST[i - 1])
      decreases 10 - i
    {
      i := i + 1;
    }
    au := CST[i];
    assert IsRow(nVol, i);
  }

  /**
   * The cluster size that is selected: powers of two from 512 on are bytes and
   * smaller ones are sectors, both clipped to 128 sectors; else it is automatic.
   */
  predicate IsSelected(au0: nat, nVol: nat, au: nat)
  {
    if !IsPow2(au0) then exists i | 0 <= i <= 10 :: IsRow(nVol, i) && au * 512 == CST[i]
    else au == Min(if au0 >= 512 then au0 / 512 else au0, 128)
  }

  /** The size of a cluster in sectors */
  method SelectUnit(au0: nat, nVol: nat) returns (au: nat)
    ensures IsUnit(au) && IsSelected(au0, nVol, au)
  {
    au := if IsPow2(au0) then au0 else 0;
    if au == 0 {
      au := AutoUnit(nVol);
      ghost var i: nat :| i <= 10 && IsRow(nVol, i) && au == CST[i];
      assert au / 512 * 512 == CST[i];
    } else {
      AskedUnit(au0);
    }
    if au >= 512 { au := au / 512; }
    au := Max(au, 1);
    if au > 128 { au := 128; }
  }

  lemma BySector(n: nat)
    requires IsPow2(n) && n >= 512
    ensures IsPow2(n / 512)
  {
    Eighth(n);
    Eighth(n / 8);
    Eighth(n / 64);
    hide IsPow2;
    assert n / 64 / 8 == n / 512;
  }

  lemma AskedUnit(au0: nat)
    requires IsPow2(au0)
    ensures IsUnit(Min(if au0 >= 512 then au0 / 512 else au0, 128))
  {
    if au0 >= 512 {
      BySector(au0);
      hide IsPow2;
      if au0 / 512 <= 128 { SmallPow2(au0 / 512); }
    } else if au0 <= 128 {
      SmallPow2(au0);
    }
  }

  /* The layout */

  /**
   * Where the parts of a volume are: `nVol` sectors from `bVol` on, `nRsv`
   * reserved, `nFat` for the FAT, `nDir` for the root directory
   */
  datatype Layout = Layout(bVol: nat, nVol: nat, au: nat, fmt: FsType, nRsv: nat, nFat: nat, nDir: nat, nClst: nat)

  function TypeFor(n: nat): (t: FsType)
  {
    if n >= MIN_FAT32 then Fat32 else if n >= MIN_FAT16 then Fat16 else Fat12
  }

  /** The sectors of the FAT for `n` clusters, in DWORD arithmetic */
  function FatSectors(t: FsType, n: nat): (k: nat)
  {
    match t
    case Fat32 => U(U(U(n * 4) + 8) + SECTOR_SIZE - 1) / SECTOR_SIZE
    case Fat12 => (U(U(n * 3) + 1) / 2 + 3 + SECTOR_SIZE - 1) / SECTOR_SIZE
    case Fat16 => U(U(U(n * 2) + 4) + SECTOR_SIZE - 1) / SECTOR_SIZE
  }

  /** How far the data area moves to start with an erase block of `block` sectors */
  function Shift(bData: nat, block: nat): (n: nat)
    requires block > 0
  {
    U(Span(block, Fit(block, U(bData + block - 1))) - bData)
  }

  /**
   * The layout that f_mkfs_ arrives at for a cluster size of `au` and erase
   * blocks of `block` sectors, a power of two
   */
  function Planned(bVol: nat, nVol: nat, au: nat, block: nat): (r: Option<Layout>)
    requires au > 0 && block > 0
  {
    var fmt := TypeFor(Fit(au, nVol));
    var nFat := FatSectors(fmt, Fit(au, nVol));
    var nRsv := if fmt == Fat32 then 32 else 1;
    var nDir := if fmt == Fat32 then 0 else DIR_SECTORS;
    var bData := U(U(U(bVol + nRsv) + nFat) + nDir);
    if nVol < U(bData + au - bVol) then None
    else
      var n := Shift(bData, block);
      var rsv, fat := if fmt == Fat32 then nRsv + n else nRsv, if fmt == Fat32 then nFat else nFat + n;
      var nClst := Fit(au, U(nVol - rsv - fat - nDir));
      if (fmt == Fat16 && nClst < MIN_FAT16) || (fmt == Fat32 && nClst < MIN_FAT32) then None
      else Some(Layout(bVol, nVol, au, fmt, rsv, fat, nDir, nClst))
  }

  /** The middle of f_mkfs_: FAT type, sizes and positions */
  method PlanVolume(bVol: nat, nVol: nat, au: nat, block: nat) returns (r: Option<Layout>)
    requires IsUnit(au) && block > 0
    ensures r == Planned(bVol, nVol, au, block)
  {
    hide Shift;
    hide FatSectors;
    hide Span;
    hide Fit, U;
    var nClst := Fit(au, nVol);
    var fmt := Fat12;
    if nClst >= MIN_FAT16 { fmt := Fat16; }
    if nClst >= MIN_FAT32 { fmt := Fat32; }
    var nFat, nRsv, nDir := FatSectors(fmt, nClst), 1, N_ROOTDIR * 32 / SECTOR_SIZE;
    if fmt == Fat32 { nRsv, nDir := 32, 0; }
    var bFat := U(bVol + nRsv);
    var bDir := U(bFat + nFat);
    var bData := U(bDir + nDir);
    if nVol < U(bData + au - bVol) { return None; }
    var n := Shift(bData, block);
    if fmt == Fat32 {
      nRsv, bFat := nRsv + n, U(bFat + n);
    } else {
      nFat := nFat + n;
    }
    nClst := Fit(au, U(nVol - nRsv - nFat - nDir));
    if (fmt == Fat16 && nClst < MIN_FAT16) || (fmt == Fat32 && nClst < MIN_FAT32) { return None; }
    return Some(Layout(bVol, nVol, au, fmt, nRsv, nFat, nDir, nClst));
  }

  /** The sectors before the data area */
  function Overhead(l: Layout): (n: nat)
  {
    l.nRsv + l.nFat + l.nDir
  }

  /** There is room for a cluster behind the aligned start of the data area. */
  predicate HasCluster(l: Layout)
  {
    Overhead(l) + l.au <= l.nVol
  }

  /** What f_mkfs_ leaves unchecked: room for a cluster, and cluster numbers that fit into 28 bits */
  predicate IsUsable(l: Layout)
  {
    HasCluster(l) && l.nClst + 2 < 0x1000_0000
  }

  /** The sectors of the FAT that f_mkfs_ writes: the first one in any case */
  function FatWritten(l: Layout): (n: nat)
    ensures l.nFat > 0 ==> n == l.nFat
  {
    Max(l.nFat, 1)
  }

  /** The sectors of the root directory that f_mkfs_ clears, in a FAT32 volume its first cluster */
  function RootSize(l: Layout): (n: nat)
  {
    if l.fmt == Fat32 then l.au else l.nDir
  }

  /** What f_mkfs_ does notice: the FAT and the root directory have to be written. */
  predicate AreasFit(l: Layout)
  {
    l.nRsv + FatWritten(l) + RootSize(l) <= l.nVol
  }

  lemma FatSectorsBound(t: FsType, n: nat)
    ensures FatSectors(t, n) < 0x80_0001 && (t == TypeFor(n) && t != Fat32 ==> FatSectors(t, n) > 0)
    ensures t == TypeFor(n) && t != Fat32 ==> FatSectors(t, n) < 0x400
  {
  }

  /** The move to an erase block is shorter than one. */
  lemma ShiftBound(bData: nat, block: nat)
    requires 0 < block <= 0x8000 && bData < 0x1000_0000
    ensures Shift(bData, block) < block
  {
    hide Span, Fit;
  }

  /** The parts of a layout are small, so nothing wraps but a difference that should have been negative. */
  lemma PlannedBounds(bVol: nat, nVol: nat, au: nat, block: nat)
    requires IsUnit(au) && 0 < block <= 0x8000 && bVol <= 63 && Planned(bVol, nVol, au, block).Some?
    ensures var l := Planned(bVol, nVol, au, block).value;
            && l.bVol == bVol && l.nVol == nVol && l.au == au && l.fmt == TypeFor(Fit(au, nVol))
            && 1 <= l.nRsv < 0x9000 && (l.fmt == Fat32 ==> l.nRsv >= 32)
            && FatSectors(l.fmt, Fit(au, nVol)) <= l.nFat < 0x81_0000
            && l.nDir == (if l.fmt == Fat32 then 0 else DIR_SECTORS)
            && l.nClst == Fit(au, U(nVol - Overhead(l)))
            && (l.fmt == Fat16 ==> l.nClst >= MIN_FAT16) && (l.fmt == Fat32 ==> l.nClst >= MIN_FAT32)
            && (l.fmt != Fat32 ==> 0 < l.nFat < 0x1_0000)
  {
    hide Fit, FatSectors, Shift, U, TypeFor;
    var fmt := TypeFor(Fit(au, nVol));
    var nFat := FatSectors(fmt, Fit(au, nVol));
    var nRsv, nDir := if fmt == Fat32 then 32 else 1, if fmt == Fat32 then 0 else DIR_SECTORS;
    FatSectorsBound(fmt, Fit(au, nVol));
    assert U(U(U(bVol + nRsv) + nFat) + nDir) == bVol + nRsv + nFat + nDir;
    ShiftBound(bVol + nRsv + nFat + nDir, block);
  }

  /* The boot sector */

  const BOOT_SIGNATURE := 0xAA55

  /** The letters "FAT" as a 24-bit number */
  const FAT_TEXT := 0x54_4146

  /** The fields of the boot sector that find_volume looks at */
  predicate IsBootSector(w: seq<byte>, l: Layout)
  {
    && |w| == SECTOR_SIZE && LdWord(w, 510) == BOOT_SIGNATURE
    && LdWord(w, 11) == SECTOR_SIZE && w[13] == l.au && LdWord(w, 14) == l.nRsv && w[16] == 1
    && LdWord(w, 17) == (if l.fmt == Fat32 then 0 else N_ROOTDIR)
    && (if l.nVol < 0x1_0000 then LdWord(w, 19) == l.nVol else LdWord(w, 19) == 0 && LdDword(w, 32) == l.nVol)
    && (l.fmt == Fat32 ==> LdWord(w, 22) == 0 && LdDword(w, 36) == l.nFat && LdWord(w, 42) == 0 && LdDword(w, 44) == 2)
    && (l.fmt == Fat32 ==> LdDword(w, 82) % 0x100_0000 == FAT_TEXT)
    && (l.fmt != Fat32 ==> LdWord(w, 22) == l.nFat && LdDword(w, 54) % 0x100_0000 == FAT_TEXT)
  }

  /** Stores a number in two bytes. */
  method StWord(a: array<byte>, i: nat, v: nat)
    requires i + 1 < a.Length
    modifies a
    ensures SameOutside(old(a[..]), a[..], i, i + 2) && LdWord(a[..], i) == v % 0x1_0000
  {
    SplitWord(v);
    a[i], a[i + 1] := v % 0x100, v / 0x100 % 0x100;
  }

  /** Stores a number in four bytes. */
  method StDword(a: array<byte>, i: nat, v: nat)
    requires i + 3 < a.Length
    modifies a
    ensures SameOutside(old(a[..]), a[..], i, i + 4) && (v < DWORD ==> LdDword(a[..], i) == v)
  {
    SplitDword(v);
    a[i], a[i + 1] := v % 0x100, v / 0x100 % 0x100;
    a[i + 2], a[i + 3] := v / 0x1_0000 % 0x100, v / 0x100_0000 % 0x100;
  }

  lemma SplitDword(v: nat)
    ensures v < DWORD ==>
              v == v % 0x100 + 0x100 * (v / 0x100 % 0x100)
                   + 0x1_0000 * (v / 0x1_0000 % 0x100) + 0x100_0000 * (v / 0x100_0000 % 0x100)
  {
    SplitWord(v);
    SplitWord(v / 0x1_0000);
    assert v / 0x1_0000 / 0x100 == v / 0x100_0000;
  }

  /** Two buffers hold the same bytes outside `lo` to `hi`. */
  predicate SameOutside(was: seq<byte>, now: seq<byte>, lo: nat, hi: nat)
  {
    |now| == |was| && forall i :: 0 <= i < |was| && !(lo <= i < hi) ==> now[i] == was[i]
  }

  /** A field that lies outside keeps its value. */
  lemma FieldKept(was: seq<byte>, now: seq<byte>, lo: nat, hi: nat, i: nat)
    requires SameOutside(was, now, lo, hi) && i + 3 < |was| && (i + 4 <= lo || hi <= i)
    ensures LdWord(now, i) == LdWord(was, i) && LdDword(now, i) == LdDword(was, i)
  {
  }

  /* "NO NAME    " and the name of the FAT type, as bytes */
  const LABEL: seq<byte> := [0x4E, 0x4F, 0x20, 0x4E, 0x41, 0x4D, 0x45, 0x20, 0x20, 0x20, 0x20]
  const FAT32_NAME: seq<byte> := [0x46, 0x41, 0x54, 0x33, 0x32, 0x20, 0x20, 0x20]
  const FAT_NAME: seq<byte> := [0x46, 0x41, 0x54, 0x20, 0x20, 0x20, 0x20, 0x20]
  const JUMP_AND_OEM: seq<byte> := [0xEB, 0xFE, 0x90, 0x4D, 0x53, 0x44, 0x4F, 0x53, 0x35, 0x2E, 0x30]

  /** The fields that all FAT types have in common, up to offset 36 */
  predicate HasCommon(w: seq<byte>, l: Layout)
  {
    && |w| == SECTOR_SIZE
    && LdWord(w, 11) == SECTOR_SIZE && w[13] == l.au && LdWord(w, 14) == l.nRsv % 0x1_0000 && w[16] == 1
    && LdWord(w, 17) == (if l.fmt == Fat32 then 0 else N_ROOTDIR)
    && (if l.nVol < 0x1_0000 then LdWord(w, 19) == l.nVol else LdWord(w, 19) == 0 && LdDword(w, 32) == l.nVol)
  }

  method PutCommon(a: array<byte>, l: Layout, media: byte)
    requires a.Length == SECTOR_SIZE && l.au < 0x100 && l.nVol < DWORD
    modifies a
    ensures HasCommon(a[..], l) && LdWord(a[..], 22) == 0
    ensures forall i :: 36 <= i < SECTOR_SIZE ==> a[i] == 0
  {
    MemCpy(a, 0, Zeros(SECTOR_SIZE));
    MemCpy(a, 0, JUMP_AND_OEM);
    PutSizes(a, l);
    PutTotal(a, l);
    PutMedia(a, l, media);
  }

  method PutMedia(a: array<byte>, l: Layout, media: byte)
    requires a.Length == SECTOR_SIZE
    modifies a
    ensures SameOutside(old(a[..]), a[..], 21, 32) && forall i :: 22 <= i < 24 ==> a[i] == old(a[i])
  {
    a[21] := media;
    StWord(a, 24, 63);
    StWord(a, 26, 255);
    StDword(a, 28, l.bVol);
  }

  method PutSizes(a: array<byte>, l: Layout)
    requires a.Length == SECTOR_SIZE && l.au < 0x100
    modifies a
    ensures SameOutside(old(a[..]), a[..], 11, 19)
    ensures LdWord(a[..], 11) == SECTOR_SIZE && a[13] == l.au && LdWord(a[..], 14) == l.nRsv % 0x1_0000 && a[16] == 1
    ensures LdWord(a[..], 17) == if l.fmt == Fat32 then 0 else N_ROOTDIR
  {
    var i := if l.fmt == Fat32 then 0 else N_ROOTDIR;
    StWord(a, 11, SECTOR_SIZE);
    a[13] := l.au;
    StWord(a, 14, l.nRsv);
    a[16] := 1;
    StWord(a, 17, i);
  }

  method PutTotal(a: array<byte>, l: Layout)
    requires a.Length == SECTOR_SIZE && l.nVol < DWORD && a[19] == a[20] == 0
    modifies a
    ensures SameOutside(old(a[..]), a[..], 19, 36) && forall i :: 21 <= i < 32 ==> a[i] == old(a[i])
    ensures if l.nVol < 0x1_0000 then LdWord(a[..], 19) == l.nVol
            else LdWord(a[..], 19) == 0 && LdDword(a[..], 32) == l.nVol
  {
    if l.nVol < 0x1_0000 {
      StWord(a, 19, l.nVol);
    } else {
      StDword(a, 32, l.nVol);
    }
  }

  lemma TextAt(s: seq<byte>, i: nat)
    requires i + 3 < |s| && s[i] == 0x46 && s[i + 1] == 0x41 && s[i + 2] == 0x54
    ensures LdDword(s, i) % 0x100_0000 == FAT_TEXT
  {
  }

  /** The volume label and behind it the name of the file system type */
  method PutText(a: array<byte>, at: nat, name: seq<byte>)
    requires a.Length == SECTOR_SIZE && at + 19 <= SECTOR_SIZE && |name| == 8 && name[..3] == [0x46, 0x41, 0x54]
    modifies a
    ensures SameOutside(old(a[..]), a[..], at, at + 19)
    ensures LdDword(a[..], at + 11) % 0x100_0000 == FAT_TEXT
  {
    MemCpy(a, at, LABEL + name);
    assert name[0] == name[..3][0] && name[1] == name[..3][1] && name[2] == name[..3][2];
    assert a[at + 11] == name[0] && a[at + 12] == name[1] && a[at + 13] == name[2];
    TextAt(a[..], at + 11);
  }

  /** The rest of the boot sector of a FAT32 volume */
  method PutFat32(a: array<byte>, l: Layout, serial: nat)
    requires a.Length == SECTOR_SIZE && l.nFat < DWORD && forall i :: 36 <= i < SECTOR_SIZE ==> a[i] == 0
    modifies a
    ensures SameOutside(old(a[..]), a[..], 36, 90) && LdWord(a[..], 22) == old(LdWord(a[..], 22))
    ensures LdDword(a[..], 36) == l.nFat && LdWord(a[..], 42) == 0 && LdDword(a[..], 44) == 2
    ensures LdDword(a[..], 82) % 0x100_0000 == FAT_TEXT
  {
    PutFat32Sizes(a, l, serial);
    ghost var w := a[..];
    PutText(a, 71, FAT32_NAME);
    assert forall i :: 0 <= i < 71 ==> a[i] == w[i];
  }

  method PutFat32Sizes(a: array<byte>, l: Layout, serial: nat)
    requires a.Length == SECTOR_SIZE && l.nFat < DWORD && forall i :: 36 <= i < SECTOR_SIZE ==> a[i] == 0
    modifies a
    ensures SameOutside(old(a[..]), a[..], 36, 71)
    ensures LdDword(a[..], 36) == l.nFat && LdWord(a[..], 42) == 0 && LdDword(a[..], 44) == 2
  {
    StDword(a, 67, serial);
    StDword(a, 36, l.nFat);
    StDword(a, 44, 2);
    ghost var w := a[..];
    StWord(a, 48, 1);
    StWord(a, 50, 6);
    a[64], a[66] := 0x80, 0x29;
    FieldKept(w, a[..], 48, 71, 36);
    FieldKept(w, a[..], 48, 71, 44);
  }

  /** The rest of the boot sector of a FAT12 or FAT16 volume */
  method PutFat16(a: array<byte>, l: Layout, serial: nat)
    requires a.Length == SECTOR_SIZE
    modifies a
    ensures SameOutside(old(a[..]), a[..], 22, 62) && forall i :: 24 <= i < 36 ==> a[i] == old(a[i])
    ensures LdWord(a[..], 22) == l.nFat % 0x1_0000 && LdDword(a[..], 54) % 0x100_0000 == FAT_TEXT
  {
    PutFat16Sizes(a, l, serial);
    ghost var w := a[..];
    PutText(a, 43, FAT_NAME);
    assert forall i :: 0 <= i < 43 ==> a[i] == w[i];
  }

  method PutFat16Sizes(a: array<byte>, l: Layout, serial: nat)
    requires a.Length == SECTOR_SIZE
    modifies a
    ensures SameOutside(old(a[..]), a[..], 22, 43) && forall i :: 24 <= i < 36 ==> a[i] == old(a[i])
    ensures LdWord(a[..], 22) == l.nFat % 0x1_0000
  {
    StDword(a, 39, serial);
    StWord(a, 22, l.nFat);
    a[36], a[38] := 0x80, 0x29;
  }

  /** Create BPB in the VBR */
  method PutBootSector(a: array<byte>, l: Layout, media: byte, serial: nat)
    requires a.Length == SECTOR_SIZE && l.au < 0x100 && l.nVol < DWORD && l.nRsv < 0x1_0000 && l.nFat < DWORD
    requires l.fmt != Fat32 ==> l.nFat < 0x1_0000
    modifies a
    ensures IsBootSector(a[..], l)
  {
    hide LdWord, LdDword, HasCommon;
    PutCommon(a, l, media);
    ghost var common := a[..];
    if l.fmt == Fat32 {
      PutFat32(a, l, serial);
    } else {
      PutFat16(a, l, serial);
    }
    CommonKept(common, a[..], l);
    Sign(a, l);
  }

  /** Signs the sector as a boot sector. */
  method Sign(a: array<byte>, ghost l: Layout)
    requires a.Length == SECTOR_SIZE && HasCommon(a[..], l) && HasRest(a[..], l) && l.nRsv < 0x1_0000
    modifies a
    ensures IsBootSector(a[..], l)
  {
    ghost var w := a[..];
    StWord(a, 510, BOOT_SIGNATURE);
    assert LdWord(a[..], 510) == BOOT_SIGNATURE;
    SignedBoot(w, a[..], l);
  }

  /** The fields in which the FAT types differ */
  predicate HasRest(w: seq<byte>, l: Layout)
    requires |w| == SECTOR_SIZE
  {
    && (l.fmt == Fat32 ==> LdWord(w, 22) == 0 && LdDword(w, 36) == l.nFat && LdWord(w, 42) == 0 && LdDword(w, 44) == 2)
    && (l.fmt == Fat32 ==> LdDword(w, 82) % 0x100_0000 == FAT_TEXT)
    && (l.fmt != Fat32 ==> LdWord(w, 22) == l.nFat && LdDword(w, 54) % 0x100_0000 == FAT_TEXT)
  }

  lemma CommonKept(was: seq<byte>, now: seq<byte>, l: Layout)
    requires HasCommon(was, l) && |now| == |was| && forall i :: 0 <= i < 36 && i != 22 && i != 23 ==> now[i] == was[i]
    ensures HasCommon(now, l)
  {
  }

  lemma SignedBoot(was: seq<byte>, now: seq<byte>, l: Layout)
    requires HasCommon(was, l) && HasRest(was, l) && SameOutside(was, now, 510, 512)
    requires LdWord(now, 510) == BOOT_SIGNATURE && l.nRsv < 0x1_0000
    ensures IsBootSector(now, l)
  {
  }

  /** Create partition table (FDISK): one partition, from sector 63 on */
  method PutPartitionTable(a: array<byte>, l: Layout, system: byte)
    requires a.Length == SECTOR_SIZE && system != 0 && l.nVol < DWORD
    modifies a
    ensures IsPartitionTable(a[..], 63) && a[450] == system && LdDword(a[..], 458) == l.nVol
  {
    MemCpy(a, 0, Zeros(SECTOR_SIZE));
    PutPartition(a, l, system);
    StWord(a, 510, BOOT_SIGNATURE);
  }

  method PutPartition(a: array<byte>, l: Layout, system: byte)
    requires a.Length == SECTOR_SIZE && l.nVol < DWORD
    modifies a
    ensures SameOutside(old(a[..]), a[..], 447, 462)
    ensures a[450] == system && LdDword(a[..], 454) == 63 && LdDword(a[..], 458) == l.nVol
  {
    var n := (l.bVol + l.nVol) / 63 / 255;
    a[447], a[448], a[449] := 1, 1, 0;
    a[450], a[451] := system, 254;
    a[452] := CylinderByte(n);
    a[453] := n % 0x100;
    StDword(a, 454, 63);
    StDword(a, 458, l.nVol);
  }

  /** The high bits of a cylinder number, above the largest sector number */
  function CylinderByte(n: nat): (b: byte)
  {
    n / 0x100 % 4 * 0x40 + 63
  }

  /** A master boot record whose first partition starts at `base` */
  predicate IsPartitionTable(w: seq<byte>, base: nat)
  {
    && |w| == SECTOR_SIZE && LdWord(w, 510) == BOOT_SIGNATURE
    && LdDword(w, 54) % 0x100_0000 != FAT_TEXT && LdDword(w, 82) % 0x100_0000 != FAT_TEXT
    && w[450] != 0 && LdDword(w, 454) == base
  }

  /* Mounting */

  /** check_fs: 0 for a FAT boot sector, 2 for another boot sector, 3 for none */
  function CheckFs(w: Sector): (fmt: nat)
    ensures fmt == 0 || fmt == 2 || fmt == 3
  {
    if LdWord(w, 510) != BOOT_SIGNATURE then 3
    else if LdDword(w, 54) % 0x100_0000 == FAT_TEXT || LdDword(w, 82) % 0x100_0000 == FAT_TEXT then 0
    else 2
  }

  /** check_fs on a sector of the disk; 4 for one that cannot be read */
  function CheckAt(disk: seq<Sector>, sect: nat): (fmt: nat)
  {
    if sect < |disk| then CheckFs(disk[sect]) else 4
  }

  /** The start of partition `i`, 0 if there is none */
  function PartitionStart(w: Sector, i: nat): (b: nat)
    requires i < 4
  {
    if w[446 + 16 * i + 4] != 0 then LdDword(w, 446 + 16 * i + 8) else 0
  }

  /** The first partition from number `i` on that holds a FAT volume */
  function PartitionFrom(disk: seq<Sector>, i: nat): (b: Option<nat>)
    requires i <= 4 && disk != []
    ensures b.Some? ==> b.value < |disk| && CheckFs(disk[b.value]) == 0
    decreases 4 - i
  {
    if i == 4 then None
    else
      var b := PartitionStart(disk[0], i);
      if b != 0 && CheckAt(disk, b) == 0 then Some(b) else PartitionFrom(disk, i + 1)
  }

  /** Where the FAT volume starts: at sector 0, or at a partition that the sector names */
  function VolumeBase(disk: seq<Sector>): (b: Option<nat>)
    ensures b.Some? ==> b.value < |disk| && CheckFs(disk[b.value]) == 0
  {
    match CheckAt(disk, 0)
    case 0 => Some(0)
    case 2 => PartitionFrom(disk, 0)
    case _ => None
  }

  /** find_volume: the search for the boot sector, no partition number being forced */
  method FindBase(disk: seq<Sector>) returns (b: Option<nat>)
    ensures b == VolumeBase(disk)
  {
    hide CheckFs, PartitionStart;
    var bsect, fmt := 0, CheckAt(disk, 0);
    if fmt == 2 {
      var i := 0;
      bsect := PartitionStart(disk[0], i);
      fmt := if bsect != 0 then CheckAt(disk, bsect) else 3;
      while fmt >= 2 && i < 3
        invariant 0 <= i < 4 && (fmt == 0 ==> bsect != 0 && CheckAt(disk, bsect) == 0)
        invariant bsect == PartitionStart(disk[0], i) && fmt == (if bsect != 0 then CheckAt(disk, bsect) else 3)
        invariant VolumeBase(disk) == PartitionFrom(disk, i)
        decreases 3 - i
      {
        i := i + 1;
        bsect := PartitionStart(disk[0], i);
        fmt := if bsect != 0 then CheckAt(disk, bsect) else 3;
      }
      assert PartitionFrom(disk, 4) == None;
    }
    return if fmt >= 2 then None else Some(bsect);
  }

  /** The fields of a boot sector */
  datatype Fields = Fields(bytsPerSec: nat, fsize: nat, nFats: nat, csize: nat, nRootdir: nat, tsect: nat, nrsv: nat,
                           version: nat, rootClus: nat)

  function LoadFields(w: Sector): (f: Fields)
  {
    Fields(LdWord(w, 11), if LdWord(w, 22) == 0 then LdDword(w, 36) else LdWord(w, 22), w[16], w[13], LdWord(w, 17),
           if LdWord(w, 19) == 0 then LdDword(w, 32) else LdWord(w, 19), LdWord(w, 14), LdWord(w, 42), LdDword(w, 44))
  }

  /** What find_volume makes of the fields of a volume that starts at `bsect` */
  function Analysed(f: Fields, bsect: nat): (g: Option<Geometry>)
  {
    var sysect := U(f.nrsv + U(f.fsize * f.nFats) + f.nRootdir / 16);
    if f.bytsPerSec != SECTOR_SIZE || (f.nFats != 1 && f.nFats != 2) then None
    else if !IsPow2(f.csize) || f.nRootdir % 16 != 0 || f.nrsv == 0 then None
    else if f.tsect < sysect || Fit(f.csize, f.tsect - sysect) == 0 then None
    else Sized(f, bsect, sysect, Fit(f.csize, f.tsect - sysect))
  }

  /** The same, once the size of the system area and the number of clusters are known */
  function Sized(f: Fields, bsect: nat, sysect: nat, nclst: nat): (g: Option<Geometry>)
    ensures g.Some? ==> g.value.nFatent == U(nclst + 2)
  {
    var fmt, nFatent := TypeFor(nclst), U(nclst + 2);
    if (fmt == Fat32 && f.version != 0) || (fmt == Fat32 <==> f.nRootdir != 0) then None
    else if f.fsize < U(NeededBytes(fmt, nFatent) + SECTOR_SIZE - 1) / SECTOR_SIZE then None
    else
      var fatbase := U(bsect + f.nrsv);
      Some(Geometry(fmt, f.nFats, f.csize, f.nRootdir, nFatent, f.fsize, bsect, fatbase,
                    if fmt == Fat32 then f.rootClus else U(fatbase + U(f.fsize * f.nFats)), U(bsect + sysect)))
  }

  function Bpb(w: Sector, bsect: nat): (g: Option<Geometry>)
  {
    Analysed(LoadFields(w), bsect)
  }

  /** szbfat, in DWORD arithmetic */
  function NeededBytes(t: FsType, n: nat): (b: nat)
  {
    match t
    case Fat12 => U(U(n * 3) / 2 + n % 2)
    case Fat16 => U(n * 2)
    case Fat32 => U(n * 4)
  }

  /** find_volume: the analysis of the BPB */
  method ReadBpb(w: Sector, bsect: nat) returns (r: Option<Geometry>)
    ensures r == Bpb(w, bsect)
  {
    hide LdWord, LdDword, U, Fit, IsPow2, Sized;
    if LdWord(w, 11) != SECTOR_SIZE { return None; }
    var fasize := LdWord(w, 22);
    if fasize == 0 { fasize := LdDword(w, 36); }
    var fsize := fasize;
    var nFats: nat := w[16];
    if nFats != 1 && nFats != 2 { return None; }
    fasize := U(fasize * nFats);
    var csize: nat := w[13];
    if csize == 0 || !IsPow2(csize) { return None; }
    var nRootdir := LdWord(w, 17);
    if nRootdir % (SECTOR_SIZE / 32) != 0 { return None; }
    var tsect := LdWord(w, 19);
    if tsect == 0 { tsect := LdDword(w, 32); }
    var nrsv := LdWord(w, 14);
    if nrsv == 0 { return None; }
    var sysect := U(nrsv + fasize + nRootdir / (SECTOR_SIZE / 32));
    if tsect < sysect { return None; }
    var nclst := Fit(csize, tsect - sysect);
    if nclst == 0 { return None; }
    r := ReadAreas(w, bsect, fsize, fasize, sysect, nclst);
  }

  /** find_volume: the boundaries of the volume, from the FAT size, all FATs, the system area and the clusters */
  method ReadAreas(w: Sector, bsect: nat, fsize: nat, fasize: nat, sysect: nat, nclst: nat)
    returns (r: Option<Geometry>)
    requires fsize == LoadFields(w).fsize && fasize == U(fsize * w[16])
    ensures r == Sized(LoadFields(w), bsect, sysect, nclst)
  {
    hide LdWord, LdDword, U, TypeFor, NeededBytes;
    var nFats: nat, csize: nat, nRootdir := w[16], w[13], LdWord(w, 17);
    var fmt, nFatent := TypeFor(nclst), U(nclst + 2);
    var fatbase, database, dirbase := U(bsect + LdWord(w, 14)), U(bsect + sysect), 0;
    if fmt == Fat32 {
      if LdWord(w, 42) != 0 || nRootdir != 0 { return None; }
      dirbase := LdDword(w, 44);
    } else {
      if nRootdir == 0 { return None; }
      dirbase := U(fatbase + fasize);
    }
    if fsize < U(NeededBytes(fmt, nFatent) + SECTOR_SIZE - 1) / SECTOR_SIZE { return None; }
    return Some(Geometry(fmt, nFats, csize, nRootdir, nFatent, fsize, bsect, fatbase, dirbase, database));
  }

  /** find_volume on the sectors of a disk */
  function Mount(disk: seq<Sector>): (g: Option<Geometry>)
  {
    match VolumeBase(disk)
    case None => None
    case Some(b) => Bpb(disk[b], b)
  }

  method FindVolume(disk: seq<Sector>) returns (r: Option<Geometry>)
    ensures r == Mount(disk)
  {
    var base := FindBase(disk);
    match base {
      case None => return None;
      case Some(b) => r := ReadBpb(disk[b], b);
    }
  }

  /* Format, then mount */

  /** The geometry that a layout stands for */
  function GeometryOf(l: Layout): (g: Geometry)
  {
    Geometry(l.fmt, 1, l.au, if l.fmt == Fat32 then 0 else N_ROOTDIR, l.nClst + 2, l.nFat, l.bVol, l.bVol + l.nRsv,
             if l.fmt == Fat32 then 2 else l.bVol + l.nRsv + l.nFat, l.bVol + Overhead(l))
  }

  /** What the arithmetic of f_mkfs_ promises about a layout */
  predicate IsPlan(l: Layout)
  {
    && IsUnit(l.au) && l.bVol <= 63 && l.bVol + l.nVol < DWORD && l.nVol > 0
    && 1 <= l.nRsv < 0x9000 && l.nFat < 0x81_0000 && (l.fmt != Fat32 ==> 0 < l.nFat < 0x1_0000)
    && (l.fmt == Fat32 ==> l.nRsv >= 32)
    && l.nDir == (if l.fmt == Fat32 then 0 else DIR_SECTORS)
    && l.fmt == TypeFor(Fit(l.au, l.nVol)) && FatSectors(l.fmt, Fit(l.au, l.nVol)) <= l.nFat
    && l.nClst == Fit(l.au, U(l.nVol - Overhead(l)))
    && (l.fmt == Fat16 ==> l.nClst >= MIN_FAT16) && (l.fmt == Fat32 ==> l.nClst >= MIN_FAT32)
  }

  lemma PlannedIsPlan(bVol: nat, nVol: nat, au: nat, block: nat)
    requires IsUnit(au) && 0 < block <= 0x8000 && bVol <= 63 && bVol + nVol < DWORD && nVol > 0
    requires Planned(bVol, nVol, au, block).Some?
    ensures var l := Planned(bVol, nVol, au, block).value; IsPlan(l) && l.bVol == bVol && l.nVol == nVol
  {
    hide Planned, Fit, U, FatSectors, TypeFor;
    PlannedBounds(bVol, nVol, au, block);
  }

  lemma FitMonotone(size: nat, a: nat, b: nat)
    requires size > 0 && a <= b
    ensures Fit(size, a) <= Fit(size, b)
  {
    hide Span;
    if Fit(size, b) < Fit(size, a) {
      SpanMonotone(size, Fit(size, b) + 1, Fit(size, a));
      SpanAdd(size, Fit(size, b), 1);
    }
  }

  lemma FitFacts(size: nat, a: nat)
    requires size > 0
    ensures Fit(size, a) <= a && (Fit(size, a) == 0 <==> a < size)
  {
    SpanAdd(size, 0, 0);
    SpanAtLeast(size, Fit(size, a));
    if Fit(size, a) > 0 {
      SpanMonotone(size, 1, Fit(size, a));
    }
    hide Span;
  }

  lemma SpanAtLeast(size: nat, n: nat)
    requires size > 0
    ensures Span(size, n) >= n
  {
  }

  /** Taking `k` units of space away costs at most `k + 1` clusters. */
  lemma FitGap(size: nat, a: nat, k: nat)
    requires size > 0 && k <= a
    ensures Fit(size, a) <= Fit(size, a - k) + k + 1
  {
    var n := Fit(size, a - k);
    SpanAdd(size, n, 1);
    SpanAdd(size, n + 1, k);
    SpanAtLeast(size, k);
    hide Span;
    if Fit(size, a) > n + k + 1 {
      SpanMonotone(size, n + 1 + k, Fit(size, a));
    }
  }

  lemma UnitPow2(au: nat)
    requires IsUnit(au)
    ensures IsPow2(au)
  {
    assert IsPow2(2) && IsPow2(4) && IsPow2(8) && IsPow2(16);
    assert IsPow2(32) && IsPow2(64) && IsPow2(128);
  }

  /** The FAT, sized for all sectors of the volume, is large enough for the clusters that are left. */
  lemma FatLargeEnough(t: FsType, all: nat, n: nat)
    requires n <= all < 0x2000_0000 && t == TypeFor(all)
    ensures U(NeededBytes(t, n + 2) + SECTOR_SIZE - 1) / SECTOR_SIZE <= FatSectors(t, all)
    ensures FatBytes(t, n + 2) <= FatSectors(t, all) * SECTOR_SIZE && FatSectors(t, all) > 0
  {
    hide NeededBytes, FatSectors, FatBytes, U;
    FatNeeds(t, n + 2);
    FatHolds(t, all);
    FatGrows(t, n, all);
    match t
    case Fat12 => Rounded(FatBytes(t, n + 2), (all * 3 + 1) / 2 + 3);
    case Fat16 => Rounded(FatBytes(t, n + 2), all * 2 + 4);
    case Fat32 => Rounded(FatBytes(t, n + 2), all * 4 + 8);
  }

  lemma FatNeeds(t: FsType, n: nat)
    requires n < 0x2000_0002
    ensures NeededBytes(t, n) == FatBytes(t, n) < 0x8000_0100
  {
  }

  /** The size of the FAT in sectors, without wrapping */
  lemma FatHolds(t: FsType, all: nat)
    requires all < 0x2000_0000
    ensures var bytes := match t
                         case Fat12 => (all * 3 + 1) / 2 + 3
                         case Fat16 => all * 2 + 4
                         case Fat32 => all * 4 + 8;
            bytes < 0x8000_0100 && FatSectors(t, all) == (bytes + SECTOR_SIZE - 1) / SECTOR_SIZE
  {
  }

  /** The FAT of `n` clusters fits where that of `all` clusters was meant to be. */
  lemma FatGrows(t: FsType, n: nat, all: nat)
    requires n <= all
    ensures var bytes := match t
                         case Fat12 => (all * 3 + 1) / 2 + 3
                         case Fat16 => all * 2 + 4
                         case Fat32 => all * 4 + 8;
            FatBytes(t, n + 2) <= bytes
  {
    if t == Fat12 {
      var q, r := (n + 2) / 2, (n + 2) % 2;
      assert (n + 2) * 3 == 2 * (3 * q + r) + r;
      assert (n + 2) * 3 / 2 == 3 * q + r;
    }
  }

  lemma Rounded(need: nat, have: nat)
    requires need <= have < 0x8000_0100 && have > 0
    ensures U(need + SECTOR_SIZE - 1) / SECTOR_SIZE <= (have + SECTOR_SIZE - 1) / SECTOR_SIZE
    ensures need <= (have + SECTOR_SIZE - 1) / SECTOR_SIZE * SECTOR_SIZE && (have + SECTOR_SIZE - 1) / SECTOR_SIZE > 0
  {
  }

  /** The type is chosen before the data area is moved, and still fits afterwards. */
  lemma SameType(l: Layout)
    requires IsPlan(l) && Overhead(l) <= l.nVol
    ensures TypeFor(l.nClst) == l.fmt && l.nClst <= Fit(l.au, l.nVol) && l.nClst == Fit(l.au, l.nVol - Overhead(l))
    ensures l.nClst + 2 < DWORD && (l.nClst == 0 <==> !HasCluster(l))
    ensures l.nClst + 2 < 0x1000_0000 ==> Fit(l.au, l.nVol) < 0x2000_0000
  {
    FitMonotone(l.au, l.nVol - Overhead(l), l.nVol);
    FitFacts(l.au, l.nVol - Overhead(l));
    FitGap(l.au, l.nVol, Overhead(l));
    hide Fit, FatSectors;
  }

  /** What the boot sector of a layout says */
  predicate Describes(f: Fields, l: Layout)
  {
    && f.bytsPerSec == SECTOR_SIZE && f.fsize == l.nFat && f.nFats == 1 && f.csize == l.au && f.nrsv == l.nRsv
    && f.tsect == l.nVol
    && f.nRootdir == (if l.fmt == Fat32 then 0 else N_ROOTDIR)
    && (l.fmt == Fat32 ==> f.version == 0 && f.rootClus == 2)
  }

  /** The size of the system area is not mistaken. */
  lemma SystemArea(l: Layout, f: Fields)
    requires IsPlan(l) && Describes(f, l)
    ensures f.nRootdir % 16 == 0 && f.nrsv > 0 && IsPow2(f.csize)
    ensures U(f.nrsv + U(f.fsize * f.nFats) + f.nRootdir / 16) == Overhead(l)
  {
    UnitPow2(l.au);
    hide Fit, FatSectors, TypeFor, IsUnit, IsPow2;
  }

  /** Without room for a cluster, find_volume refuses the volume. */
  lemma RefusesFull(l: Layout, f: Fields, bsect: nat)
    requires IsPlan(l) && Describes(f, l) && !HasCluster(l)
    ensures Analysed(f, bsect) == None
  {
    SystemArea(l, f);
    if Overhead(l) <= l.nVol {
      SameType(l);
    }
    hide Fit, FatSectors, TypeFor, IsUnit, IsPow2, U, NeededBytes;
  }

  lemma FindsClusters(l: Layout, f: Fields, bsect: nat)
    requires IsPlan(l) && Describes(f, l) && HasCluster(l)
    ensures Analysed(f, bsect).Some? ==> Analysed(f, bsect).value.nFatent == l.nClst + 2
  {
    hide Fit, FatSectors, TypeFor, IsUnit, IsPow2, Sized;
    SystemArea(l, f);
    SameType(l);
  }

  /** find_volume finds the parts of a usable layout where they belong. */
  lemma FindsLayout(l: Layout, f: Fields)
    requires IsPlan(l) && Describes(f, l) && IsUsable(l)
    ensures Analysed(f, l.bVol) == Some(GeometryOf(l))
  {
    hide Fit, FatSectors, TypeFor, IsUnit, IsPow2, U, Sized;
    SystemArea(l, f);
    SameType(l);
    SizedLayout(l, f);
  }

  lemma SizedLayout(l: Layout, f: Fields)
    requires IsPlan(l) && Describes(f, l) && IsUsable(l)
    ensures Sized(f, l.bVol, Overhead(l), l.nClst) == Some(GeometryOf(l))
  {
    hide Fit, FatSectors, TypeFor, IsUnit, NeededBytes, FatBytes;
    SameType(l);
    FatLargeEnough(l.fmt, Fit(l.au, l.nVol), l.nClst);
  }

  /** A usable layout makes a sound volume: the FAT holds all entries, and all parts lie inside the disk. */
  lemma UsableIsMounted(l: Layout, size: nat)
    requires IsPlan(l) && IsUsable(l) && l.bVol + l.nVol <= size < DWORD
    ensures Mounted(GeometryOf(l), size) && DataFits(GeometryOf(l), size)
  {
    hide FatSectors, IsUnit, U, SectorCount, Span, TypeFor;
    SameType(l);
    FatLargeEnough(l.fmt, Fit(l.au, l.nVol), l.nClst);
    CountIsSpan(GeometryOf(l), l.nClst);
    TypeBound(l.nClst);
  }

  lemma CountIsSpan(g: Geometry, n: nat)
    ensures SectorCount(g, n) == Span(g.csize, n)
  {
  }

  lemma TypeBound(n: nat)
    ensures TypeFor(n) != Fat32 ==> n + 2 < EntryRange(TypeFor(n))
    ensures TypeFor(n) == Fat32 && n + 2 < 0x1000_0000 ==> n + 2 < EntryRange(TypeFor(n))
  {
  }

  /**
   * The volume that f_mkfs_ lays out is mounted as a sound volume exactly when
   * it has room for a cluster and its cluster numbers fit; then it has the type,
   * the positions and the number of clusters that it was given.
   */
  lemma FormatThenMount(l: Layout, w: Sector, size: nat)
    requires IsPlan(l) && IsBootSector(w, l) && l.bVol + l.nVol <= size < DWORD
    ensures IsUsable(l) <==>
              var g := Bpb(w, l.bVol);
              g.Some? && Mounted(g.value, size) && DataFits(g.value, size)
    ensures IsUsable(l) ==> Bpb(w, l.bVol) == Some(GeometryOf(l))
  {
    var f := LoadFields(w);
    FieldsOfLayout(l, w);
    hide IsBootSector, LoadFields, Describes, Analysed;
    if !HasCluster(l) {
      RefusesFull(l, f, l.bVol);
    } else if l.nClst + 2 >= 0x1000_0000 {
      FindsClusters(l, f, l.bVol);
    } else {
      FindsLayout(l, f);
      UsableIsMounted(l, size);
    }
  }

  lemma FieldsOfLayout(l: Layout, w: Sector)
    requires IsPlan(l) && IsBootSector(w, l)
    ensures Describes(LoadFields(w), l)
  {
    hide LdWord, LdDword, Fit, FatSectors, TypeFor;
  }

  /** The whole way: from the disk that f_mkfs_ leaves behind to the geometry of the mounted volume */
  lemma MountsFormatted(disk: seq<Sector>, l: Layout)
    requires IsPlan(l) && IsUsable(l) && l.bVol + l.nVol <= |disk| < DWORD && IsBootSector(disk[l.bVol], l)
    requires l.bVol == 0 || (l.bVol == 63 && IsPartitionTable(disk[0], 63))
    ensures Mount(disk) == Some(GeometryOf(l))
    ensures Mounted(GeometryOf(l), |disk|) && DataFits(GeometryOf(l), |disk|)
  {
    hide Bpb, GeometryOf, IsPlan, IsUsable, IsBootSector, CheckFs, PartitionStart, IsPartitionTable, Mounted, DataFits;
    PlanHasSectors(l);
    FormattedBase(disk, l);
    FormatThenMount(l, disk[l.bVol], |disk|);
  }

  /**
   * In a volume that was laid out like this, each cluster has its own sectors,
   * inside the volume and behind the FAT.
   */
  lemma ClustersOfLayout(l: Layout, c: nat, d: nat)
    requires IsPlan(l) && IsUsable(l) && 2 <= c < d < l.nClst + 2
    ensures var g := GeometryOf(l);
            && g.fatbase + g.fsize <= g.database <= Clust2Sect(g, c)
            && Clust2Sect(g, c) + l.au <= Clust2Sect(g, d) && Clust2Sect(g, d) + l.au <= l.bVol + l.nVol
  {
    var g := GeometryOf(l);
    UsableIsMounted(l, l.bVol + l.nVol);
    ClustersApart(g, c, d);
    ClusterInside(g, d, l.bVol + l.nVol);
    hide DataFits, ClusterSector, IsPlan, IsUsable;
  }

  /** Where there is room for a cluster, the FAT and the root directory fit. */
  lemma UsableFits(l: Layout)
    requires IsPlan(l) && IsUsable(l)
    ensures AreasFit(l) && l.nFat > 0
  {
    hide Fit, FatSectors, TypeFor, U;
    SameType(l);
    FatLargeEnough(l.fmt, Fit(l.au, l.nVol), l.nClst);
  }

  /**
   * The formats that succeed and leave nothing to use: up to a cluster is
   * missing behind the root directory of a FAT12 or FAT16 volume, or the
   * clusters of a FAT32 volume are too many.
   */
  lemma UnusableFormats(l: Layout)
    requires IsPlan(l)
    ensures AreasFit(l) && !IsUsable(l) <==>
              if l.fmt == Fat32 then AreasFit(l) && l.nClst + 2 >= 0x1000_0000
              else Overhead(l) <= l.nVol < Overhead(l) + l.au
  {
    hide Fit, FatSectors, U;
    if Overhead(l) <= l.nVol {
      SameType(l);
    }
  }

  /** Without room for a cluster, what f_mkfs_ leaves behind is not mounted. */
  lemma RefusesFormatted(disk: seq<Sector>, l: Layout)
    requires IsPlan(l) && !HasCluster(l) && l.bVol + l.nVol <= |disk| < DWORD && IsBootSector(disk[l.bVol], l)
    requires l.bVol == 0 || (l.bVol == 63 && IsPartitionTable(disk[0], 63))
    ensures Mount(disk) == None
  {
    hide Bpb, IsPlan, IsBootSector, CheckFs, PartitionStart, IsPartitionTable;
    PlanHasSectors(l);
    FormattedBase(disk, l);
    FormatThenMount(l, disk[l.bVol], |disk|);
    RefusesBoot(l, disk[l.bVol]);
  }

  lemma RefusesBoot(l: Layout, w: Sector)
    requires IsPlan(l) && IsBootSector(w, l) && !HasCluster(l)
    ensures Bpb(w, l.bVol) == None
  {
    hide IsPlan, IsBootSector, Describes, Analysed, LoadFields;
    FieldsOfLayout(l, w);
    RefusesFull(l, LoadFields(w), l.bVol);
  }

  lemma PlanHasSectors(l: Layout)
    requires IsPlan(l)
    ensures l.nVol > 0
  {
  }

  /** The volume is found where f_mkfs_ put it. */
  lemma FormattedBase(disk: seq<Sector>, l: Layout)
    requires l.bVol < |disk| && IsBootSector(disk[l.bVol], l)
    requires l.bVol == 0 || (l.bVol == 63 && IsPartitionTable(disk[0], 63))
    ensures VolumeBase(disk) == Some(l.bVol)
  {
    assert CheckFs(disk[l.bVol]) == 0;
    if l.bVol == 63 {
      assert PartitionStart(disk[0], 0) == 63;
      assert CheckAt(disk, 0) == 2 && CheckAt(disk, 63) == 0;
    }
  }

  /** On a disk of 128 sectors with erase blocks of that size, the FAT grows until no sector is left for a cluster. */
  lemma NoRoomLayout()
    ensures Planned(0, 128, 1, 128) == Some(Layout(0, 128, 1, Fat12, 1, 95, DIR_SECTORS, 0))
  {
    hide Fit, FatSectors, Shift;
    NoRoomNumbers();
  }

  lemma NoRoomNumbers()
    ensures Fit(1, 128) == 128 && Fit(1, 0) == 0
    ensures FatSectors(Fat12, 128) == 1
    ensures Shift(34, 128) == 94
  {
    assert Fit(1, 128) == 128;
    assert Fit(1, 0) == 0;
    assert Fit(128, 34 + 128 - 1) == 1 && Span(128, 1) == 128;
  }
}
