/**
 * The file allocation table as bytes: the volume geometry that find_volume
 * computes, and the packing of 12, 16 and 28-bit entries into the FAT area.
 */
module FatTable {
  import opened Arithmetic
  import opened Base

  datatype FsType = Fat12 | Fat16 | Fat32

  /** MIN_FAT16 and MIN_FAT32 */
  const MIN_FAT16 := 4086
  const MIN_FAT32 := 65526

  /** The members of FATFS that mounting fixes. */
  datatype Geometry = Geometry(
    fsType: FsType,
    nFats: nat,
    csize: nat,
    nRootdir: nat,
    nFatent: nat,
    fsize: nat,
    volbase: nat,
    fatbase: nat,
    dirbase: nat,
    database: nat)

  /** The number of values a FAT entry can hold. */
  function EntryRange(t: FsType): (r: nat)
    ensures r <= 0x1000_0000
  {
    match t
    case Fat12 => 0x1000
    case Fat16 => 0x1_0000
    case Fat32 => 0x1000_0000
  }

  /** What an entry holds after 0xFFFFFFFF is stored: the end-of-chain mark */
  function EndMark(t: FsType): (r: nat)
  {
    EntryRange(t) - 1
  }

  lemma StoredValues(t: FsType, small: nat)
    requires small < EntryRange(t)
    ensures 0xFFFF_FFFF % EntryRange(t) == EndMark(t)
    ensures small % EntryRange(t) == small
  {
  }

  /** The number of bytes a FAT of `n` entries takes (szbfat in find_volume). */
  function FatBytes(t: FsType, n: nat): (r: nat)
  {
    match t
    case Fat12 => n * 3 / 2 + n % 2
    case Fat16 => n * 2
    case Fat32 => n * 4
  }

  /**
   * What a mounted volume of `size` sectors satisfies. The bound on nFatent
   * leaves room above the last cluster number for the end-of-chain mark.
   */
  predicate Mounted(g: Geometry, size: nat)
  {
    && 1 <= g.nFats <= 2
    && 1 <= g.csize
    && 3 <= g.nFatent < EntryRange(g.fsType)
    && FatBytes(g.fsType, g.nFatent) <= g.fsize * SECTOR_SIZE
    && 1 <= g.fatbase
    && g.fatbase + (if g.nFats == 2 then 2 * g.fsize else g.fsize) <= g.database <= size < DWORD
  }

  predicate InFat(g: Geometry, s: int)
  {
    g.fatbase <= s < g.fatbase + g.fsize
  }

  /** Sector `s` belongs to the second FAT copy. */
  predicate IsMirror(g: Geometry, s: int)
  {
    g.nFats == 2 && g.fatbase + g.fsize <= s < g.fatbase + 2 * g.fsize
  }

  predicate HasFat(g: Geometry, v: seq<Sector>)
  {
    && g.fatbase + g.fsize <= |v|
    && FatBytes(g.fsType, g.nFatent) <= g.fsize * SECTOR_SIZE
  }

  /** Byte `k` of the FAT, counted over sector boundaries. */
  function FatByte(g: Geometry, v: seq<Sector>, k: nat): (r: byte)
    requires HasFat(g, v) && k < g.fsize * SECTOR_SIZE
  {
    v[g.fatbase + k / SECTOR_SIZE][k % SECTOR_SIZE]
  }

  function SetFatByte(g: Geometry, v: seq<Sector>, k: nat, b: byte): (r: seq<Sector>)
    requires HasFat(g, v) && k < g.fsize * SECTOR_SIZE
    ensures HasFat(g, r) && SameOutsideFat(g, v, r)
    ensures forall j :: 0 <= j < g.fsize * SECTOR_SIZE ==> FatByte(g, r, j) == if j == k then b else FatByte(g, v, j)
  {
    var s := g.fatbase + k / SECTOR_SIZE;
    v[s := v[s][k % SECTOR_SIZE := b]]
  }

  /** Consecutive bytes from `k` on */
  function SetFatBytes(g: Geometry, v: seq<Sector>, k: nat, bytes: seq<byte>): (r: seq<Sector>)
    requires HasFat(g, v) && k + |bytes| <= g.fsize * SECTOR_SIZE
    ensures HasFat(g, r) && SameOutsideFat(g, v, r)
    ensures forall j :: 0 <= j < g.fsize * SECTOR_SIZE ==>
              FatByte(g, r, j) == if k <= j < k + |bytes| then bytes[j - k] else FatByte(g, v, j)
    decreases |bytes|
  {
    if bytes == [] then v else SetFatBytes(g, SetFatByte(g, v, k, bytes[0]), k + 1, bytes[1..])
  }

  /** The first byte of entry `c` */
  function EntryOffset(t: FsType, c: nat): (r: nat)
  {
    match t
    case Fat12 => c + c / 2
    case Fat16 => c * 2
    case Fat32 => c * 4
  }

  lemma EntryInside(g: Geometry, c: nat)
    requires FatBytes(g.fsType, g.nFatent) <= g.fsize * SECTOR_SIZE && c < g.nFatent
    ensures EntryOffset(g.fsType, c) + 1 < g.fsize * SECTOR_SIZE
    ensures g.fsType == Fat32 ==> EntryOffset(g.fsType, c) + 3 < g.fsize * SECTOR_SIZE
  {
    if g.fsType == Fat12 {
      Offset12(c, g.nFatent);
    }
  }

  lemma Offset12(c: nat, n: nat)
    requires c < n
    ensures c + c / 2 + 1 < n * 3 / 2 + n % 2
  {
    assert c / 2 <= (n - 1) / 2;
  }

  /** The 12 bits of an odd or even entry in the two bytes it touches */
  function Value12(odd: bool, b0: byte, b1: byte): (r: nat)
    ensures r < 0x1000
  {
    var lo: int, hi: int := b0, b1;
    if odd then (lo + 0x100 * hi) / 0x10 else (lo + 0x100 * hi) % 0x1000
  }

  function Value16(b0: byte, b1: byte): (r: nat)
    ensures r < 0x1_0000
  {
    var lo: int, hi: int := b0, b1;
    lo + 0x100 * hi
  }

  /** The lower 28 bits of a 32-bit word */
  function Value32(b0: byte, b1: byte, b2: byte, b3: byte): (r: nat)
    ensures r < 0x1000_0000
  {
    Value16(b0, b1) + 0x1_0000 * (Value16(b2, b3) % 0x1000)
  }

  /** The value of FAT entry `c`: 12, 16 or 28 bits of the little-endian table. */
  function Entry(g: Geometry, v: seq<Sector>, c: nat): (r: nat)
    requires HasFat(g, v) && c < g.nFatent
    ensures r < EntryRange(g.fsType)
  {
    EntryInside(g, c);
    var k := EntryOffset(g.fsType, c);
    match g.fsType
    case Fat12 => Value12(c % 2 == 1, FatByte(g, v, k), FatByte(g, v, k + 1))
    case Fat16 => Value16(FatByte(g, v, k), FatByte(g, v, k + 1))
    case Fat32 => Value32(FatByte(g, v, k), FatByte(g, v, k + 1), FatByte(g, v, k + 2), FatByte(g, v, k + 3))
  }

  /** The four reserved bits above entry `c` of a FAT32 table */
  function Reserved(g: Geometry, v: seq<Sector>, c: nat): (r: nat)
    requires HasFat(g, v) && c < g.nFatent && g.fsType == Fat32
  {
    EntryInside(g, c);
    FatByte(g, v, EntryOffset(g.fsType, c) + 3) / 0x10
  }

  /** The table as a sequence of entry values */
  function Fat(g: Geometry, v: seq<Sector>): (r: seq<nat>)
    requires HasFat(g, v)
    ensures |r| == g.nFatent
    ensures forall c :: 0 <= c < g.nFatent ==> r[c] == Entry(g, v, c) && r[c] < EntryRange(g.fsType)
  {
    seq(g.nFatent, c requires 0 <= c < g.nFatent => Entry(g, v, c))
  }

  /** An aligned 16-bit entry lies within one sector. */
  lemma Read16(g: Geometry, v: seq<Sector>, c: nat)
    requires HasFat(g, v) && g.fsType == Fat16 && c < g.nFatent
    ensures c * 2 / SECTOR_SIZE == c / (SECTOR_SIZE / 2) < g.fsize && c * 2 % SECTOR_SIZE + 1 < SECTOR_SIZE
    ensures Entry(g, v, c) == LdWord(v[g.fatbase + c / (SECTOR_SIZE / 2)], c * 2 % SECTOR_SIZE)
  {
    hide FatBytes, FatByte;
    OffsetOf16(c);
    EntryInside(g, c);
    WordIs(g, v, c * 2, c / (SECTOR_SIZE / 2), c * 2 % SECTOR_SIZE);
  }

  /** An aligned 32-bit entry lies within one sector. */
  lemma Read32(g: Geometry, v: seq<Sector>, c: nat)
    requires HasFat(g, v) && g.fsType == Fat32 && c < g.nFatent
    ensures c * 4 + 3 < g.fsize * SECTOR_SIZE
    ensures c * 4 / SECTOR_SIZE == c / (SECTOR_SIZE / 4) < g.fsize && c * 4 % SECTOR_SIZE + 3 < SECTOR_SIZE
    ensures Entry(g, v, c) == LdDword(v[g.fatbase + c / (SECTOR_SIZE / 4)], c * 4 % SECTOR_SIZE) % 0x1000_0000
    ensures FatByte(g, v, c * 4 + 3) == v[g.fatbase + c / (SECTOR_SIZE / 4)][c * 4 % SECTOR_SIZE + 3]
  {
    hide FatBytes, FatByte;
    var n, i := c / (SECTOR_SIZE / 4), c * 4 % SECTOR_SIZE;
    OffsetOf32(c);
    EntryInside(g, c);
    WordIs(g, v, c * 4, n, i);
    WordIs(g, v, c * 4 + 2, n, i + 2);
    var s := v[g.fatbase + n];
    Low28(LdWord(s, i), LdWord(s, i + 2));
  }

  /** Two bytes of the FAT, read from their sector */
  lemma WordIs(g: Geometry, v: seq<Sector>, k: nat, n: nat, i: nat)
    requires HasFat(g, v) && k + 1 < g.fsize * SECTOR_SIZE && k == SECTOR_SIZE * n + i && i + 1 < SECTOR_SIZE
    ensures n < g.fsize && FatByte(g, v, k + 1) == v[g.fatbase + n][i + 1]
    ensures LdWord(v[g.fatbase + n], i) == Value16(FatByte(g, v, k), FatByte(g, v, k + 1))
  {
    Within(n, i);
    Within(n, i + 1);
    assert FatByte(g, v, k) == v[g.fatbase + n][i] && FatByte(g, v, k + 1) == v[g.fatbase + n][i + 1];
    hide FatByte;
  }

  lemma OffsetOf16(c: nat)
    ensures var n, i := c / (SECTOR_SIZE / 2), c * 2 % SECTOR_SIZE;
            c * 2 / SECTOR_SIZE == n && c * 2 == SECTOR_SIZE * n + i && i + 1 < SECTOR_SIZE
  {
    var n, r := c / 256, c % 256;
    assert c * 2 == SECTOR_SIZE * n + r * 2;
    Within(n, r * 2);
  }

  lemma OffsetOf32(c: nat)
    ensures var n, i := c / (SECTOR_SIZE / 4), c * 4 % SECTOR_SIZE;
            c * 4 / SECTOR_SIZE == n && c * 4 == SECTOR_SIZE * n + i && i + 3 < SECTOR_SIZE
  {
    var n, r := c / 128, c % 128;
    assert c * 4 == SECTOR_SIZE * n + r * 4;
    Within(n, r * 4);
  }

  lemma Half(q: nat, r: nat)
    requires r < 2
    ensures (2 * q + r) % 2 == r
  {
  }

  lemma Quarter(q: nat, r: nat)
    requires r < 4
    ensures (4 * q + r) % 4 == r
  {
  }

  lemma Within(s: nat, t: nat)
    requires t < SECTOR_SIZE
    ensures (SECTOR_SIZE * s + t) / SECTOR_SIZE == s && (SECTOR_SIZE * s + t) % SECTOR_SIZE == t
  {
  }

  lemma Low28(lo: nat, hi: nat)
    requires lo < 0x1_0000
    ensures (lo + 0x1_0000 * hi) % 0x1000_0000 == lo + 0x1_0000 * (hi % 0x1000)
  {
  }

  /** v and w agree outside the FAT */
  predicate SameOutsideFat(g: Geometry, v: seq<Sector>, w: seq<Sector>)
  {
    |v| == |w| && forall s :: 0 <= s < |v| && !InFat(g, s) ==> v[s] == w[s]
  }

  /**
   * The two byte stores of put_fat on FAT12. The entry may share either byte
   * with a neighbour, and the two bytes may lie in different sectors.
   */
  function Store12(g: Geometry, v: seq<Sector>, c: nat, val: nat): (r: seq<Sector>)
    requires HasFat(g, v) && g.fsType == Fat12 && c < g.nFatent
    ensures HasFat(g, r) && SameOutsideFat(g, v, r) && Stored12(g, v, r, c, val)
  {
    EntryInside(g, c);
    var k := EntryOffset(Fat12, c);
    var v1 := SetFatByte(g, v, k, LowByte12(c, FatByte(g, v, k), val));
    SetFatByte(g, v1, k + 1, HighByte12(c, FatByte(g, v1, k + 1), val))
  }

  /** The first byte of a 12-bit entry with the new value in it; an odd entry leaves the low half alone. */
  function LowByte12(c: nat, p: byte, val: nat): (r: byte)
  {
    if c % 2 == 1 then p % 0x10 + 0x10 * (val % 0x10) else val % 0x100
  }

  /** The second byte; an even entry leaves the high half alone. */
  function HighByte12(c: nat, p: byte, val: nat): (r: byte)
  {
    if c % 2 == 1 then val / 0x10 % 0x100 else p / 0x10 * 0x10 + val / 0x100 % 0x10
  }

  lemma Pack12(odd: bool, c: nat, lo: byte, hi: byte, val: nat)
    requires odd == (c % 2 == 1)
    ensures Value12(odd, LowByte12(c, lo, val), HighByte12(c, hi, val)) == val % 0x1000
  {
    if odd {
      Split4(val);
    } else {
      Split8(val);
    }
  }

  lemma Split4(val: nat)
    ensures val % 0x1000 == val % 0x10 + 0x10 * (val / 0x10 % 0x100)
  {
  }

  lemma Split8(val: nat)
    ensures val % 0x1000 == val % 0x100 + 0x100 * (val / 0x100 % 0x10)
  {
  }

  /** The low byte stored for an odd entry keeps the bits of the even entry before it. */
  lemma Neighbour12Low(c: nat, lo: byte, hi: byte, val: nat)
    requires c % 2 == 1
    ensures Value12(false, lo, LowByte12(c, hi, val)) == Value12(false, lo, hi)
  {
    Low12(lo, hi / 0x10, hi % 0x10);
    Low12(lo, val % 0x10, hi % 0x10);
  }

  /** The high byte stored for an even entry keeps the bits of the odd entry after it. */
  lemma Neighbour12High(c: nat, lo: byte, hi: byte, val: nat)
    requires c % 2 == 0
    ensures Value12(true, HighByte12(c, lo, val), hi) == Value12(true, lo, hi)
  {
    High12(lo / 0x10, lo % 0x10, hi);
    High12(lo / 0x10, val / 0x100 % 0x10, hi);
  }

  lemma High12(top: nat, nibble: nat, hi: byte)
    requires nibble < 0x10
    ensures (top * 0x10 + nibble + 0x100 * (hi as int)) / 0x10 == top + 0x10 * (hi as int)
  {
  }

  predicate Stored12(g: Geometry, v: seq<Sector>, w: seq<Sector>, c: nat, val: nat)
  {
    && HasFat(g, v) && HasFat(g, w) && g.fsType == Fat12 && c < g.nFatent
    && c + c / 2 + 1 < g.fsize * SECTOR_SIZE
    && (forall j :: 0 <= j < g.fsize * SECTOR_SIZE && j != c + c / 2 && j != c + c / 2 + 1 ==>
          FatByte(g, w, j) == FatByte(g, v, j))
    && FatByte(g, w, c + c / 2) == LowByte12(c, FatByte(g, v, c + c / 2), val)
    && FatByte(g, w, c + c / 2 + 1) == HighByte12(c, FatByte(g, v, c + c / 2 + 1), val)
  }

  lemma Store12Entry(g: Geometry, v: seq<Sector>, w: seq<Sector>, c: nat, val: nat, d: nat)
    requires Stored12(g, v, w, c, val) && d < g.nFatent
    ensures Entry(g, w, d) == if d == c then val % 0x1000 else Entry(g, v, d)
  {
    EntryInside(g, d);
    hide FatByte, FatBytes, Value12, LowByte12, HighByte12;
    var k, kc := d + d / 2, c + c / 2;
    var lo, hi := FatByte(g, v, k), FatByte(g, v, k + 1);
    if d == c {
      Pack12(c % 2 == 1, c, lo, hi, val);
    } else if k == kc + 1 {
      assert d == c + 1 && c % 2 == 0;
      Neighbour12High(c, lo, hi, val);
    } else if k + 1 == kc {
      assert d + 1 == c && c % 2 == 1;
      Neighbour12Low(c, lo, hi, val);
    } else {
      assert k + 1 < kc || k > kc + 1;
    }
  }

  /** The sectors with a 16-bit entry stored */
  function Store16(g: Geometry, v: seq<Sector>, c: nat, val: nat): (r: seq<Sector>)
    requires HasFat(g, v) && g.fsType == Fat16 && c < g.nFatent
    ensures HasFat(g, r) && SameOutsideFat(g, v, r)
  {
    EntryInside(g, c);
    SetFatBytes(g, v, c * 2, Word(val))
  }

  /** The two bytes of a 16-bit entry */
  function Word(val: nat): (r: seq<byte>)
    ensures |r| == 2
  {
    [val % 0x100, val / 0x100 % 0x100]
  }

  lemma Store16Entry(g: Geometry, v: seq<Sector>, c: nat, val: nat, d: nat)
    requires HasFat(g, v) && g.fsType == Fat16 && c < g.nFatent && d < g.nFatent
    ensures Entry(g, Store16(g, v, c, val), d) == if d == c then val % 0x1_0000 else Entry(g, v, d)
  {
    EntryInside(g, c);
    EntryInside(g, d);
    hide FatByte, FatBytes, SetFatBytes;
    if d == c {
      SplitWord(val);
    }
  }

  /** st_dword of (val & 0x0FFFFFFF) | (old & 0xF0000000) at the entry */
  function Store32(g: Geometry, v: seq<Sector>, c: nat, val: nat): (r: seq<Sector>)
    requires HasFat(g, v) && g.fsType == Fat32 && c < g.nFatent
    ensures HasFat(g, r) && SameOutsideFat(g, v, r)
  {
    EntryInside(g, c);
    SetFatBytes(g, v, c * 4, Dword32(val, FatByte(g, v, c * 4 + 3)))
  }

  /** The bytes of (val & 0x0FFFFFFF) | (old & 0xF0000000), where `p` is the top byte of the old entry */
  function Dword32(val: nat, p: byte): (r: seq<byte>)
    ensures |r| == 4
  {
    [val % 0x100, val / 0x100 % 0x100, val / 0x1_0000 % 0x100, p / 0x10 * 0x10 + val / 0x100_0000 % 0x10]
  }

  lemma Store32Entry(g: Geometry, v: seq<Sector>, c: nat, val: nat, d: nat)
    requires HasFat(g, v) && g.fsType == Fat32 && c < g.nFatent && d < g.nFatent
    ensures Entry(g, Store32(g, v, c, val), d) == if d == c then val % 0x1000_0000 else Entry(g, v, d)
    ensures Reserved(g, Store32(g, v, c, val), d) == Reserved(g, v, d)
  {
    hide FatByte, FatBytes, SetFatBytes, Value32, Dword32;
    EntryInside(g, c);
    EntryInside(g, d);
    var w := Store32(g, v, c, val);
    var p := FatByte(g, v, c * 4 + 3);
    if d == c {
      FourBytes(g, w, v, c * 4, Dword32(val, p));
      Pack32(val, p);
    } else {
      OtherBytes(g, w, v, c * 4, Dword32(val, p), d * 4);
    }
  }

  lemma FourBytes(g: Geometry, w: seq<Sector>, v: seq<Sector>, k: nat, bytes: seq<byte>)
    requires HasFat(g, v) && |bytes| == 4 && k + 4 <= g.fsize * SECTOR_SIZE
    requires w == SetFatBytes(g, v, k, bytes)
    ensures HasFat(g, w)
    ensures FatByte(g, w, k) == bytes[0] && FatByte(g, w, k + 1) == bytes[1]
    ensures FatByte(g, w, k + 2) == bytes[2] && FatByte(g, w, k + 3) == bytes[3]
  {
    hide FatByte, FatBytes;
  }

  lemma OtherBytes(g: Geometry, w: seq<Sector>, v: seq<Sector>, k: nat, bytes: seq<byte>, j: nat)
    requires HasFat(g, v) && |bytes| == 4 && k + 4 <= g.fsize * SECTOR_SIZE && j + 4 <= g.fsize * SECTOR_SIZE
    requires w == SetFatBytes(g, v, k, bytes) && (j + 4 <= k || k + 4 <= j)
    ensures HasFat(g, w)
    ensures FatByte(g, w, j) == FatByte(g, v, j) && FatByte(g, w, j + 1) == FatByte(g, v, j + 1)
    ensures FatByte(g, w, j + 2) == FatByte(g, v, j + 2) && FatByte(g, w, j + 3) == FatByte(g, v, j + 3)
  {
    hide FatByte, FatBytes;
  }

  lemma SplitLow12(h: nat)
    ensures h % 0x1000 == h % 0x100 + 0x100 * (h / 0x100 % 0x10)
  {
  }

  lemma SplitLow28(v: nat)
    ensures v % 0x1000_0000 == v % 0x1_0000 + 0x1_0000 * (v / 0x1_0000 % 0x1000)
  {
  }

  lemma Shift24(v: nat)
    ensures v / 0x100_0000 == v / 0x1_0000 / 0x100
  {
  }

  lemma Low12(lo: byte, top: nat, nibble: nat)
    requires nibble < 0x10
    ensures (lo + 0x100 * (top * 0x10 + nibble)) % 0x1000 == lo + 0x100 * nibble
  {
    var low := lo + 0x100 * nibble;
    assert lo + 0x100 * (top * 0x10 + nibble) == 0x1000 * top + low;
    assert low < 0x1000;
  }

  lemma Pack32(val: nat, p: byte)
    ensures var b := Dword32(val, p); Value32(b[0], b[1], b[2], b[3]) == val % 0x1000_0000 && b[3] / 0x10 == p / 0x10
  {
    var h := val / 0x1_0000;
    var n := h / 0x100 % 0x10;
    Shift24(val);
    SplitWord(val);
    SplitLow12(h);
    SplitLow28(val);
    Low12(h % 0x100, p / 0x10, n);
    assert Dword32(val, p)[3] == p / 0x10 * 0x10 + n;
  }

  /** The stores put_fat makes for entry `c`, by FAT type */
  function Store(g: Geometry, v: seq<Sector>, c: nat, val: nat): (r: seq<Sector>)
    requires HasFat(g, v) && c < g.nFatent
    ensures HasFat(g, r) && SameOutsideFat(g, v, r)
  {
    match g.fsType
    case Fat12 => Store12(g, v, c, val)
    case Fat16 => Store16(g, v, c, val)
    case Fat32 => Store32(g, v, c, val)
  }

  lemma StoreEntry(g: Geometry, v: seq<Sector>, c: nat, val: nat, d: nat)
    requires HasFat(g, v) && c < g.nFatent && d < g.nFatent
    ensures Entry(g, Store(g, v, c, val), d) == if d == c then val % EntryRange(g.fsType) else Entry(g, v, d)
    ensures g.fsType == Fat32 ==> Reserved(g, Store(g, v, c, val), d) == Reserved(g, v, d)
  {
    EntryInside(g, c);
    var w := Store(g, v, c, val);
    match g.fsType {
      case Fat12 =>
        Store12Entry(g, v, w, c, val, d);
      case Fat16 => Store16Entry(g, v, c, val, d);
      case Fat32 => Store32Entry(g, v, c, val, d);
    }
  }

  /** What put_fat stores, get_fat reads back, cut to the width of an entry; no other entry changes. */
  lemma StoreTable(g: Geometry, v: seq<Sector>, c: nat, val: nat)
    requires HasFat(g, v) && c < g.nFatent
    ensures Fat(g, Store(g, v, c, val)) == Fat(g, v)[c := val % EntryRange(g.fsType)]
    ensures g.fsType == Fat32 ==>
              forall d :: 0 <= d < g.nFatent ==> Reserved(g, Store(g, v, c, val), d) == Reserved(g, v, d)
  {
    forall d | 0 <= d < g.nFatent
      ensures Fat(g, Store(g, v, c, val))[d] == Fat(g, v)[c := val % EntryRange(g.fsType)][d]
      ensures g.fsType == Fat32 ==> Reserved(g, Store(g, v, c, val), d) == Reserved(g, v, d)
    {
      StoreEntry(g, v, c, val, d);
    }
  }

  /** The table depends on the FAT sectors only. */
  lemma FatFrame(g: Geometry, v: seq<Sector>, w: seq<Sector>)
    requires HasFat(g, v) && HasFat(g, w)
    requires forall s :: g.fatbase <= s < g.fatbase + g.fsize ==> w[s] == v[s]
    ensures Fat(g, w) == Fat(g, v)
  {
    forall c | 0 <= c < g.nFatent
      ensures Entry(g, w, c) == Entry(g, v, c)
    {
      hide FatBytes;
      EntryInside(g, c);
    }
  }
}
