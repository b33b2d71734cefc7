/** The long file name entries of a FAT directory: put_lfn, pick_lfn and cmp_lfn. */
module LongNames {
  import opened Base

  type word = x: int | 0 <= x < 0x1_0000

  const MAX_LFN := 255

  /** SZDIRE */
  const ENTRY := 32

  /** LLEF: set in the order byte of the last entry, which is stored first */
  const LAST_ENTRY := 0x40

  const AM_LFN: byte := 0x0F

  const LFN_OFFSETS: seq<nat> := [1, 3, 5, 7, 9, 14, 16, 18, 20, 22, 24, 28, 30]

  /** LfnOfs: where the characters of an entry are */
  function Offset(s: nat): (k: nat)
    requires s < 13
    ensures k == if s < 5 then 1 + 2 * s else if s < 11 then 4 + 2 * s else 6 + 2 * s
  {
    LFN_OFFSETS[s]
  }

  function Unit(dir: seq<byte>, s: nat): (u: word)
    requires |dir| == ENTRY && s < 13
  {
    LdWord(dir, Offset(s))
  }

  /** Code units other than the terminator and the filler */
  predicate IsName(name: seq<word>)
  {
    0 < |name| <= MAX_LFN && forall i :: 0 <= i < |name| ==> name[i] != 0 && name[i] != 0xFFFF
  }

  /** The working buffer holds a name and its terminator; anything may follow. */
  predicate Holds(buf: seq<word>, name: seq<word>)
  {
    && |buf| == MAX_LFN + 1 && |name| <= MAX_LFN
    && buf[..|name|] == name && buf[|name|] == 0
  }

  /** The number of entries for a name of `n` characters */
  function Entries(n: nat): (k: nat)
    ensures 13 * k - 13 < n <= 13 * k
  {
    (n + 12) / 13
  }

  /** What the entries of a name hold at place `i`: the name, a terminator, fillers */
  function NameUnit(name: seq<word>, i: nat): (u: word)
  {
    if i < |name| then name[i] else if i == |name| then 0 else 0xFFFF
  }

  /** Entry number `ord` of the name, as the design of long directory entries lays it down */
  predicate IsLfnEntry(dir: seq<byte>, name: seq<word>, ord: nat, sum: byte)
    requires |dir| == ENTRY && ord >= 1
  {
    && dir[0] as int == ord + (if ord == Entries(|name|) then LAST_ENTRY else 0)
    && dir[11] == AM_LFN && dir[12] == 0 && dir[13] == sum && LdWord(dir, 26) == 0
    && forall s :: 0 <= s < 13 ==> Unit(dir, s) == NameUnit(name, 13 * (ord - 1) + s)
  }

  /* put_lfn */

  function EntryAt(a: seq<byte>, at: nat): (dir: seq<byte>)
    requires at + ENTRY <= |a|
    ensures |dir| == ENTRY
  {
    a[at..at + ENTRY]
  }

  /** Only the entry at `at` is different. */
  predicate OnlyEntry(was: seq<byte>, now: seq<byte>, at: nat)
    requires at + ENTRY <= |was|
  {
    |now| == |was| && forall i :: 0 <= i < |was| && !(at <= i < at + ENTRY) ==> now[i] == was[i]
  }

  /** Puts a character at its place in the entry. */
  method PutUnit(a: array<byte>, at: nat, s: nat, wc: word)
    requires at + ENTRY <= a.Length && s < 13
    modifies a
    ensures OnlyEntry(old(a[..]), a[..], at)
    ensures Unit(EntryAt(a[..], at), s) == wc
    ensures forall t :: 0 <= t < 13 && t != s ==> Unit(EntryAt(a[..], at), t) == old(Unit(EntryAt(a[..], at), t))
    ensures a[at + 11] == old(a[at + 11]) && a[at + 12] == old(a[at + 12]) && a[at + 13] == old(a[at + 13])
    ensures a[at + 26] == old(a[at + 26]) && a[at + 27] == old(a[at + 27])
  {
    var i := at + Offset(s);
    a[i], a[i + 1] := wc % 0x100, wc / 0x100;
    assert LdWord(EntryAt(a[..], at), Offset(s)) == wc;
    forall t | 0 <= t < 13 && t != s
      ensures Unit(EntryAt(a[..], at), t) == old(Unit(EntryAt(a[..], at), t))
    {
      assert Offset(t) + 1 < Offset(s) || Offset(s) + 1 < Offset(t);
    }
  }

  /** Puts entry number `ord` of the name in the working buffer into the directory entry at `at`. */
  method PutLfn(lfn: seq<word>, ghost name: seq<word>, a: array<byte>, at: nat, ord: nat, sum: byte)
    requires Holds(lfn, name) && IsName(name) && 1 <= ord <= Entries(|name|) && at + ENTRY <= a.Length
    modifies a
    ensures OnlyEntry(old(a[..]), a[..], at)
    ensures IsLfnEntry(EntryAt(a[..], at), name, ord, sum)
  {
    a[at + 13], a[at + 11], a[at + 12] := sum, AM_LFN, 0;
    a[at + 26], a[at + 27] := 0, 0;
    var base := (ord - 1) * 13;
    var i: nat, s: nat, wc: word := base, 0, 0;
    while s < 13
      invariant 0 <= s <= 13
      invariant wc == 0xFFFF <==> s > 0 && base + s > |name|
      invariant wc != 0xFFFF ==> i == base + s <= |name|
      invariant OnlyEntry(old(a[..]), a[..], at)
      invariant forall t :: 0 <= t < s ==> Unit(EntryAt(a[..], at), t) == NameUnit(name, base + t)
      invariant a[at + 11] == AM_LFN && a[at + 12] == 0 && a[at + 13] == sum && a[at + 26] == a[at + 27] == 0
    {
      if wc != 0xFFFF {
        assert lfn[i] == NameUnit(name, i) by { BufferUnit(lfn, name, i); }
        wc := lfn[i];
        i := i + 1;
      }
      PutUnit(a, at, s, wc);
      if wc == 0 { wc := 0xFFFF; }
      s := s + 1;
    }
    var order := ord;
    if wc == 0xFFFF || lfn[i] == 0 { order := order + LAST_ENTRY; }
    if i <= |name| { BufferUnit(lfn, name, i); }
    PutOrder(a, at, order);
  }

  /** Puts the order of the entry in its place. */
  method PutOrder(a: array<byte>, at: nat, order: byte)
    requires at + ENTRY <= a.Length
    modifies a
    ensures OnlyEntry(old(a[..]), a[..], at)
    ensures a[at] == order && forall k :: at < k < at + ENTRY ==> a[k] == old(a[k])
    ensures forall t :: 0 <= t < 13 ==> Unit(EntryAt(a[..], at), t) == old(Unit(EntryAt(a[..], at), t))
  {
    a[at] := order;
  }

  lemma BufferUnit(lfn: seq<word>, name: seq<word>, i: nat)
    requires Holds(lfn, name) && i <= |name|
    ensures lfn[i] == NameUnit(name, i)
  {
    assert i < |name| ==> lfn[i] == lfn[..|name|][i];
  }

  /* pick_lfn */

  /** ((dir[LDIR_Ord] & 0x3F) - 1) * 13 in 32-bit arithmetic */
  function LfnStart(dir: seq<byte>): (i: nat)
    requires |dir| == ENTRY
    ensures dir[0] % 0x40 == 0 ==> i > MAX_LFN
    ensures dir[0] % 0x40 != 0 ==> i == 13 * (dir[0] as int % 0x40 - 1)
  {
    var b: int := dir[0];
    (b % 0x40 - 1) % DWORD * 13 % DWORD
  }

  predicate IsLastEntry(dir: seq<byte>)
    requires |dir| == ENTRY
  {
    dir[0] / 0x40 % 2 == 1
  }

  datatype Picked = Picked(ok: bool, buf: seq<word>, next: nat)

  /** The loop of pick_lfn from character `s` of the entry on; `wc` is the last one stored. */
  function PickFrom(buf: seq<word>, dir: seq<byte>, i: nat, s: nat, wc: word): (r: Picked)
    requires |buf| == MAX_LFN + 1 && |dir| == ENTRY && s <= 13
    ensures |r.buf| == |buf|
    decreases 13 - s
  {
    if s == 13 then Picked(true, buf, i)
    else if wc != 0 then
      if i >= MAX_LFN then Picked(false, buf, i)
      else PickFrom(buf[i := Unit(dir, s)], dir, i + 1, s + 1, Unit(dir, s))
    else if Unit(dir, s) != 0xFFFF then Picked(false, buf, i)
    else PickFrom(buf, dir, i, s + 1, wc)
  }

  /** What pick_lfn returns, and what it leaves in the working buffer */
  function Pick(buf: seq<word>, dir: seq<byte>): (r: Picked)
    requires |buf| == MAX_LFN + 1 && |dir| == ENTRY
    ensures |r.buf| == |buf|
  {
    if LdWord(dir, 26) != 0 then Picked(false, buf, 0)
    else
      var r := PickFrom(buf, dir, LfnStart(dir), 0, 1);
      if r.ok && IsLastEntry(dir) then
        if r.next >= MAX_LFN then Picked(false, r.buf, r.next) else Picked(true, r.buf[r.next := 0], r.next)
      else r
  }

  /** One turn of the loop of pick_lfn */
  lemma PickStep(buf: seq<word>, dir: seq<byte>, i: nat, s: nat, wc: word)
    requires |buf| == MAX_LFN + 1 && |dir| == ENTRY && s <= 13
    ensures s == 13 ==> PickFrom(buf, dir, i, s, wc) == Picked(true, buf, i)
    ensures s < 13 && wc != 0 && i >= MAX_LFN ==> PickFrom(buf, dir, i, s, wc) == Picked(false, buf, i)
    ensures s < 13 && wc == 0 && Unit(dir, s) != 0xFFFF ==> PickFrom(buf, dir, i, s, wc) == Picked(false, buf, i)
    ensures s < 13 && wc == 0 && Unit(dir, s) == 0xFFFF ==>
              PickFrom(buf, dir, i, s, wc) == PickFrom(buf, dir, i, s + 1, wc)
    ensures s < 13 && wc != 0 && i < MAX_LFN ==>
              PickFrom(buf, dir, i, s, wc) == PickFrom(buf[i := Unit(dir, s)], dir, i + 1, s + 1, Unit(dir, s))
  {
    hide Unit;
  }

  method PickLfn(lfnbuf: array<word>, dir: seq<byte>) returns (ok: bool)
    requires lfnbuf.Length == MAX_LFN + 1 && |dir| == ENTRY
    modifies lfnbuf
    ensures ok == Pick(old(lfnbuf[..]), dir).ok && lfnbuf[..] == Pick(old(lfnbuf[..]), dir).buf
  {
    hide PickFrom, Unit, LfnStart, LdWord, IsLastEntry;
    if LdWord(dir, 26) != 0 { return false; }
    var i: nat;
    ok, i := PickCharacters(lfnbuf, dir);
    if ok && IsLastEntry(dir) {
      if i >= MAX_LFN { return false; }
      lfnbuf[i] := 0;
    }
  }

  /** The loop over the thirteen places: how far it gets, and whether the entry is valid */
  method PickCharacters(lfnbuf: array<word>, dir: seq<byte>) returns (ok: bool, i: nat)
    requires lfnbuf.Length == MAX_LFN + 1 && |dir| == ENTRY
    modifies lfnbuf
    ensures Picked(ok, lfnbuf[..], i) == PickFrom(old(lfnbuf[..]), dir, LfnStart(dir), 0, 1)
  {
    hide Unit, LfnStart, LdWord, PickFrom;
    i := LfnStart(dir);
    var wc: word, s: nat := 1, 0;
    ghost var now := lfnbuf[..];
    ghost var whole := PickFrom(now, dir, i, 0, 1);
    while s < 13
      invariant 0 <= s <= 13 && now == lfnbuf[..]
      invariant whole == PickFrom(now, dir, i, s, wc)
    {
      PickStep(now, dir, i, s, wc);
      var uc := Unit(dir, s);
      if wc != 0 {
        if i >= MAX_LFN { return false, i; }
        lfnbuf[i] := uc;
        now := now[i := uc];
        wc := uc;
        i := i + 1;
      } else {
        if uc != 0xFFFF { return false, i; }
      }
      s := s + 1;
    }
    PickStep(now, dir, i, s, wc);
    ok := true;
  }

  /** The end of the part that entry `ord` has of the name and its terminator */
  function PartEnd(n: nat, ord: nat): (e: nat)
  {
    if 13 * ord <= n then 13 * ord else n + 1
  }

  lemma {:induction false} PickFromEntry(buf: seq<word>, dir: seq<byte>, name: seq<word>, ord: nat, s: nat, wc: word,
                                         j: nat)
    requires |buf| == MAX_LFN + 1 && |dir| == ENTRY && s <= 13 && IsName(name) && 1 <= ord <= Entries(|name|)
    requires j <= MAX_LFN
    requires forall t :: 0 <= t < 13 ==> Unit(dir, t) == NameUnit(name, 13 * (ord - 1) + t)
    requires wc == 0 <==> 13 * (ord - 1) + s > |name|
    requires wc == 0 ==> |name| < MAX_LFN
    ensures var base, n := 13 * (ord - 1), |name|;
            var i, e := if base + s <= n then base + s else n + 1, PartEnd(n, ord);
            var r := PickFrom(buf, dir, i, s, wc);
            && (r.ok <==> n < MAX_LFN || 13 * ord <= n)
            && (r.ok ==> r.next == e && r.buf[j] == if i <= j < e then NameUnit(name, j) else buf[j])
    decreases 13 - s
  {
    hide Unit;
    var base, n := 13 * (ord - 1), |name|;
    var i := if base + s <= n then base + s else n + 1;
    if s < 13 {
      assert Unit(dir, s) == NameUnit(name, base + s);
      if wc == 0 {
        PickFromEntry(buf, dir, name, ord, s + 1, wc, j);
      } else if i < MAX_LFN {
        PickFromEntry(buf[i := Unit(dir, s)], dir, name, ord, s + 1, Unit(dir, s), j);
      }
    }
  }

  /** The part of the name from entry `k + 1` on is in the buffer. */
  predicate Gathered(buf: seq<word>, name: seq<word>, k: nat)
  {
    |buf| == MAX_LFN + 1 && |name| <= MAX_LFN && forall i :: 13 * k <= i <= |name| ==> buf[i] == NameUnit(name, i)
  }

  /** Picking up an entry succeeds unless the terminator does not fit, and adds that part of the name. */
  lemma PickEntry(buf: seq<word>, dir: seq<byte>, name: seq<word>, ord: nat, sum: byte)
    requires |buf| == MAX_LFN + 1 && |dir| == ENTRY && IsName(name) && 1 <= ord <= Entries(|name|)
    requires IsLfnEntry(dir, name, ord, sum) && (ord < Entries(|name|) ==> Gathered(buf, name, ord))
    ensures Pick(buf, dir).ok <==> ord < Entries(|name|) || |name| <= MAX_LFN - 2
    ensures Pick(buf, dir).ok ==> Gathered(Pick(buf, dir).buf, name, ord - 1)
  {
    OrderByte(dir, name, ord, sum);
    hide Unit, LfnStart, LdWord, IsLastEntry, IsLfnEntry, PickFrom;
    forall j | 0 <= j <= MAX_LFN
      ensures var r := PickFrom(buf, dir, 13 * (ord - 1), 0, 1);
              && (r.ok <==> |name| < MAX_LFN || 13 * ord <= |name|)
              && (r.ok ==> r.next == PartEnd(|name|, ord))
              && (r.ok ==> r.buf[j] == if 13 * (ord - 1) <= j < PartEnd(|name|, ord) then NameUnit(name, j) else buf[j])
    {
      PickFromEntry(buf, dir, name, ord, 0, 1, j);
    }
  }

  lemma OrderByte(dir: seq<byte>, name: seq<word>, ord: nat, sum: byte)
    requires |dir| == ENTRY && IsName(name) && 1 <= ord <= Entries(|name|) && IsLfnEntry(dir, name, ord, sum)
    ensures LdWord(dir, 26) == 0 && LfnStart(dir) == 13 * (ord - 1) && (IsLastEntry(dir) <==> ord == Entries(|name|))
    ensures forall t :: 0 <= t < 13 ==> Unit(dir, t) == NameUnit(name, 13 * (ord - 1) + t)
  {
    hide Unit, LdWord, NameUnit;
  }

  /* cmp_lfn */

  /** ff_wtoupper_: only the terminator becomes the terminator. */
  predicate IsUpTable(up: seq<word>)
  {
    |up| == 0x1_0000 && forall x :: 0 <= x < |up| ==> (up[x] == 0 <==> x == 0)
  }

  datatype Compared = Compared(ok: bool, wc: word, next: nat)

  /** The loop of cmp_lfn from character `s` of the entry on */
  function CmpFrom(buf: seq<word>, dir: seq<byte>, up: seq<word>, i: nat, s: nat, wc: word): (r: Compared)
    requires |buf| == MAX_LFN + 1 && |dir| == ENTRY && IsUpTable(up) && s <= 13
    ensures r.ok && (s < 13 ==> wc != 0) && r.wc != 0 ==> r.next <= MAX_LFN || s == 13
    decreases 13 - s
  {
    if s == 13 then Compared(true, wc, i)
    else if wc != 0 then
      if i >= MAX_LFN || up[Unit(dir, s)] != up[buf[i]] then Compared(false, wc, i)
      else CmpFrom(buf, dir, up, i + 1, s + 1, Unit(dir, s))
    else if Unit(dir, s) != 0xFFFF then Compared(false, wc, i)
    else CmpFrom(buf, dir, up, i, s + 1, wc)
  }

  /** What cmp_lfn returns */
  function Cmp(buf: seq<word>, dir: seq<byte>, up: seq<word>): (matched: bool)
    requires |buf| == MAX_LFN + 1 && |dir| == ENTRY && IsUpTable(up)
  {
    LdWord(dir, 26) == 0 &&
    var r := CmpFrom(buf, dir, up, LfnStart(dir), 0, 1);
    r.ok && !(IsLastEntry(dir) && r.wc != 0 && r.next <= MAX_LFN && buf[r.next] != 0)
  }

  method CmpLfn(lfnbuf: seq<word>, dir: seq<byte>, up: seq<word>) returns (matched: bool)
    requires |lfnbuf| == MAX_LFN + 1 && |dir| == ENTRY && IsUpTable(up)
    ensures matched == Cmp(lfnbuf, dir, up)
  {
    if LdWord(dir, 26) != 0 { return false; }
    hide Unit, LfnStart, LdWord, IsLastEntry, IsUpTable;
    var i: nat := LfnStart(dir);
    var wc: word, s: nat := 1, 0;
    while s < 13
      invariant 0 <= s <= 13 && (s > 0 && wc != 0 ==> i <= MAX_LFN)
      invariant CmpFrom(lfnbuf, dir, up, LfnStart(dir), 0, 1) == CmpFrom(lfnbuf, dir, up, i, s, wc)
    {
      var uc := Unit(dir, s);
      if wc != 0 {
        if i >= MAX_LFN || up[uc] != up[lfnbuf[i]] { return false; }
        i, wc := i + 1, uc;
      } else {
        if uc != 0xFFFF { return false; }
      }
      s := s + 1;
    }
    return !(IsLastEntry(dir) && wc != 0 && lfnbuf[i] != 0);
  }

  lemma {:induction false} CmpFromEntry(buf: seq<word>, dir: seq<byte>, up: seq<word>, name: seq<word>, ord: nat,
                                        s: nat, wc: word)
    requires |buf| == MAX_LFN + 1 && |dir| == ENTRY && IsUpTable(up) && s <= 13 && IsName(name)
    requires 1 <= ord <= Entries(|name|)
    requires forall t :: 0 <= t < 13 ==> Unit(dir, t) == NameUnit(name, 13 * (ord - 1) + t)
    requires wc == 0 <==> 13 * (ord - 1) + s > |name|
    ensures var base, n := 13 * (ord - 1), |name|;
            var i, e := if base + s <= n then base + s else n + 1, PartEnd(n, ord);
            var r := CmpFrom(buf, dir, up, i, s, wc);
            && (r.ok <==> SameFolded(buf, up, name, i, e))
            && (r.ok ==> r.next == e && (r.wc == 0 <==> 13 * ord > n))
    decreases 13 - s
  {
    hide Unit, SameFolded;
    var base, n := 13 * (ord - 1), |name|;
    var i := if base + s <= n then base + s else n + 1;
    SameFoldedStep(buf, up, name, i, PartEnd(n, ord));
    if s < 13 {
      assert Unit(dir, s) == NameUnit(name, base + s);
      if wc == 0 {
        CmpFromEntry(buf, dir, up, name, ord, s + 1, wc);
      } else if i < MAX_LFN && up[Unit(dir, s)] == up[buf[i]] {
        CmpFromEntry(buf, dir, up, name, ord, s + 1, Unit(dir, s));
      }
    }
  }

  /** Place `j` of the buffer and of the name are the same character, and lie within the buffer. */
  predicate SameAt(buf: seq<word>, up: seq<word>, name: seq<word>, j: nat)
    requires |buf| == MAX_LFN + 1 && IsUpTable(up)
  {
    j < MAX_LFN && up[NameUnit(name, j)] == up[buf[j]]
  }

  predicate SameFolded(buf: seq<word>, up: seq<word>, name: seq<word>, i: nat, e: nat)
    requires |buf| == MAX_LFN + 1 && IsUpTable(up)
  {
    forall j :: i <= j < e ==> SameAt(buf, up, name, j)
  }

  lemma SameFoldedStep(buf: seq<word>, up: seq<word>, name: seq<word>, i: nat, e: nat)
    requires |buf| == MAX_LFN + 1 && IsUpTable(up)
    ensures e <= i ==> SameFolded(buf, up, name, i, e)
    ensures i < e ==>
              (SameFolded(buf, up, name, i, e) <==> SameAt(buf, up, name, i) && SameFolded(buf, up, name, i + 1, e))
  {
    hide SameAt;
  }

  /** An entry compares equal when its part of the name does, and the searched name does not go on behind the last. */
  lemma CmpEntry(buf: seq<word>, dir: seq<byte>, up: seq<word>, name: seq<word>, ord: nat, sum: byte)
    requires |buf| == MAX_LFN + 1 && |dir| == ENTRY && IsUpTable(up) && IsName(name) && 1 <= ord <= Entries(|name|)
    requires IsLfnEntry(dir, name, ord, sum)
    ensures Cmp(buf, dir, up) <==>
              && SameFolded(buf, up, name, 13 * (ord - 1), PartEnd(|name|, ord))
              && (|name| == 13 * ord ==> buf[|name|] == 0)
  {
    hide Unit, LfnStart, LdWord, IsLastEntry, IsLfnEntry, CmpFrom;
    OrderByte(dir, name, ord, sum);
    CmpFromEntry(buf, dir, up, name, ord, 0, 1);
  }
}
