/** Bytes, sectors and the little-endian loads shared by the FAT modules. */
module Base {

  type byte = x: int | 0 <= x < 256

  /** The sector size SS(fs): _MIN_SS and _MAX_SS are both 512. */
  const SECTOR_SIZE := 512

  type Sector = s: seq<byte> | |s| == SECTOR_SIZE witness Zeros(SECTOR_SIZE)

  function Zeros(n: nat): (r: seq<byte>)
    ensures |r| == n
    ensures forall i :: 0 <= i < n ==> r[i] == 0
  {
    if n == 0 then [] else Zeros(n - 1) + [0]
  }

  /** DWORD arithmetic wraps at 2^32. */
  const DWORD := 0x1_0000_0000

  type word32 = x: int | 0 <= x < DWORD

  function Min(a: nat, b: nat): (m: nat)
  {
    if a <= b then a else b
  }

  function Max(a: nat, b: nat): (m: nat)
  {
    if a >= b then a else b
  }

  /** FRESULT, as far as the modelled functions return it. */
  datatype FResult = FrOk | FrDiskErr | FrIntErr | FrNoFile | FrDenied

  /** ld_word */
  function LdWord(s: seq<byte>, i: nat): (r: nat)
    requires i + 1 < |s|
    ensures r < 0x1_0000
  {
    var b0: int, b1: int := s[i], s[i + 1];
    b0 + 0x100 * b1
  }

  /** ld_dword */
  function LdDword(s: seq<byte>, i: nat): (r: nat)
    requires i + 3 < |s|
    ensures r < DWORD
  {
    var b2: int, b3: int := s[i + 2], s[i + 3];
    LdWord(s, i) + 0x1_0000 * b2 + 0x100_0000 * b3
  }

  /** `base` with `data` laid over it from position `at`; the result grows when the data runs past the end. */
  function Overlay<T>(base: seq<T>, at: nat, data: seq<T>): (r: seq<T>)
    requires at <= |base|
    ensures |r| == if at + |data| > |base| then at + |data| else |base|
    ensures forall i :: 0 <= i < |r| ==> r[i] == if at <= i < at + |data| then data[i - at] else base[i]
  {
    base[..at] + data + (if at + |data| < |base| then base[at + |data|..] else [])
  }

  /** mem_cpy into `dst` from offset `at` on */
  method MemCpy(dst: array<byte>, at: nat, src: seq<byte>)
    requires at + |src| <= dst.Length
    modifies dst
    ensures dst[..] == Overlay(old(dst[..]), at, src)
  {
    var i := 0;
    while i < |src|
      invariant 0 <= i <= |src|
      invariant forall j :: 0 <= j < dst.Length ==> dst[j] == if at <= j < at + i then src[j - at] else old(dst[j])
    {
      dst[at + i] := src[i];
      i := i + 1;
    }
  }

  lemma OverlayTwice<T>(s: seq<T>, at: nat, a: seq<T>, b: seq<T>)
    requires at <= |s|
    ensures Overlay(Overlay(s, at, a), at + |a|, b) == Overlay(s, at, a + b)
  {
  }

  /** Two consecutive pieces of `s` laid down one behind the other are one piece. */
  lemma OverlaySlices<T>(was: seq<T>, s: seq<T>, p: nat, n: nat, m: nat)
    requires p + n + m <= |s|
    ensures Overlay(Overlay(was, 0, s[p..p + n]), n, s[p + n..p + n + m]) == Overlay(was, 0, s[p..p + n + m])
  {
    assert s[p..p + n] + s[p + n..p + n + m] == s[p..p + n + m];
  }

  lemma IsOverlay<T>(was: seq<T>, now: seq<T>, at: nat, d: seq<T>)
    requires |now| == |was| && at + |d| <= |was|
    requires now[..at] == was[..at] && now[at..at + |d|] == d && now[at + |d|..] == was[at + |d|..]
    ensures now == Overlay(was, at, d)
  {
    assert now == now[..at] + now[at..at + |d|] + now[at + |d|..];
  }
}
