/** dir_register, dir_read and dir_find over a run of directory entries. */
module DirectoryItems {
  import opened Base
  import opened LongNames

  /** A directory entry that was deleted */
  const DDEM: byte := 0xE5
  const DOT: byte := 0x2E

  /** sum_sfn of the first `n` bytes: each step rotates right and adds. */
  function SumOf(sfn: seq<byte>, n: nat): (sum: byte)
    requires n <= |sfn|
  {
    if n == 0 then 0
    else
      var s: int := SumOf(sfn, n - 1);
      var b: int := sfn[n - 1];
      (s / 2 + s * 0x80 + b) % 0x100
  }

  function SumSfn(dir: seq<byte>): (sum: byte)
    requires |dir| >= 11
  {
    SumOf(dir, 11)
  }

  /** sum_sfn */
  method ComputeSumSfn(dir: seq<byte>) returns (sum: byte)
    requires |dir| >= 11
    ensures sum == SumSfn(dir)
  {
    sum := 0;
    var n := 11;
    while n > 0
      invariant 0 <= n <= 11 && sum == SumOf(dir, 11 - n)
    {
      var s: int, b: int := sum, dir[11 - n];
      sum := (s / 2 + s * 0x80 + b) % 0x100;
      n := n - 1;
    }
  }

  /** dir[DIR_Attr] & AM_MASK */
  function Attr(dir: seq<byte>): (a: byte)
    requires |dir| == ENTRY
  {
    dir[11] % 0x40
  }

  /** AM_VOL */
  predicate HasVolumeBit(dir: seq<byte>)
    requires |dir| == ENTRY
  {
    Attr(dir) / 8 % 2 == 1
  }

  /**
   * What a scan remembers of the long name entries before: the next order, the
   * checksum, and where they start (-1 for none)
   */
  datatype Seen = Seen(ord: byte, sum: byte, start: int)

  /** The order of an entry without the mark of the last one */
  function OrderOf(dir: seq<byte>): (c: byte)
    requires |dir| == ENTRY
  {
    if IsLastEntry(dir) then dir[0] - LAST_ENTRY else dir[0]
  }

  /** A long name entry at `at`: the one stored first begins a new name. */
  function Begun(dir: seq<byte>, at: nat, st: Seen): (r: Seen)
    requires |dir| == ENTRY
  {
    if IsLastEntry(dir) then Seen(OrderOf(dir), dir[13], at) else st
  }

  /** The order that is expected next, 0xFF when the sequence is broken */
  function NextOrder(ord: byte, ok: bool): (r: byte)
  {
    if !ok then 0xFF else if ord == 0 then 0xFF else ord - 1
  }

  /** The entry continues the name. */
  predicate Continues(dir: seq<byte>, st: Seen)
    requires |dir| == ENTRY
  {
    OrderOf(dir) == st.ord && st.sum == dir[13]
  }

  /* dir_read */

  datatype Item = NoItem | Item(at: nat, start: int, buf: seq<word>)

  /** An entry without valid data for a reader of files and directories */
  predicate ReadSkips(dir: seq<byte>)
    requires |dir| == ENTRY
  {
    dir[0] == DDEM || dir[0] == DOT || Attr(dir) == 0x08 || Attr(dir) == 0x28
  }

  /** What dir_read finds from `at` on */
  function ReadFrom(region: seq<byte>, at: nat, st: Seen, buf: seq<word>): (r: Item)
    requires |buf| == MAX_LFN + 1
    decreases |region| - at
  {
    if at + ENTRY > |region| then NoItem
    else
      var dir := EntryAt(region, at);
      if dir[0] == 0 then NoItem
      else if ReadSkips(dir) then ReadFrom(region, at + ENTRY, st.(ord := 0xFF), buf)
      else if Attr(dir) == AM_LFN then
        var b := Begun(dir, at, st);
        if Continues(dir, b) then
          var p := Pick(buf, dir);
          ReadFrom(region, at + ENTRY, b.(ord := NextOrder(b.ord, p.ok)), p.buf)
        else ReadFrom(region, at + ENTRY, b.(ord := 0xFF), buf)
      else Item(at, if st.ord != 0 || st.sum != SumSfn(dir) then -1 else st.start, buf)
  }

  /* dir_register */

  /** A file name as it is stored from `at` on: its long name entries, last part first, and its short entry */
  predicate Stored(region: seq<byte>, at: nat, name: seq<word>, sfn: seq<byte>)
  {
    && IsName(name) && |sfn| == 11 && at + ENTRY * (Entries(|name|) + 1) <= |region|
    && (forall k :: 1 <= k <= Entries(|name|) ==> PartStored(region, at, name, k, SumSfn(sfn)))
    && var dir := EntryAt(region, at + ENTRY * Entries(|name|));
       dir[..11] == sfn && !HasVolumeBit(dir)
  }

  predicate PartStored(region: seq<byte>, at: nat, name: seq<word>, k: nat, sum: byte)
    requires 1 <= k <= Entries(|name|) && at + ENTRY * (Entries(|name|) + 1) <= |region|
  {
    IsLfnEntry(EntryAt(region, at + ENTRY * (Entries(|name|) - k)), name, k, sum)
  }

  /** A short name that dir_read and dir_find do not take for something else */
  predicate IsShortName(sfn: seq<byte>)
  {
    |sfn| == 11 && sfn[0] != 0 && sfn[0] != DDEM && sfn[0] != DOT
  }

  /** Writing one entry keeps the ones before it. */
  lemma PartsKept(was: seq<byte>, now: seq<byte>, at: nat, name: seq<word>, n: nat, sum: byte)
    requires n <= Entries(|name|) && at + ENTRY * (Entries(|name|) + 1) <= |was| == |now|
    requires OnlyEntry(was, now, at + ENTRY * (Entries(|name|) - n))
    requires forall k :: n < k <= Entries(|name|) ==> PartStored(was, at, name, k, sum)
    ensures forall k :: n < k <= Entries(|name|) ==> PartStored(now, at, name, k, sum)
    ensures now[..at] == was[..at]
    ensures now[at + ENTRY * (Entries(|name|) + 1)..] == was[at + ENTRY * (Entries(|name|) + 1)..]
  {
    hide IsLfnEntry, Entries;
    forall k | n < k <= Entries(|name|)
      ensures PartStored(now, at, name, k, sum)
    {
      var p := at + ENTRY * (Entries(|name|) - k);
      assert PartStored(was, at, name, k, sum);
      assert EntryAt(now, p) == EntryAt(was, p);
    }
  }

  /** A short entry is all zero but the name and the case flags. */
  predicate IsShortEntry(dir: seq<byte>, fn: seq<byte>)
    requires |dir| == ENTRY && |fn| == 12
  {
    && dir[..11] == fn[..11] && !HasVolumeBit(dir) && dir[12] == fn[11] / 8 % 4 * 8
    && forall i :: 13 <= i < ENTRY ==> dir[i] == 0
  }

  /** Stores a short entry. */
  method PutShort(a: array<byte>, at: nat, fn: seq<byte>)
    requires at + ENTRY <= a.Length && |fn| == 12
    modifies a
    ensures OnlyEntry(old(a[..]), a[..], at)
    ensures IsShortEntry(EntryAt(a[..], at), fn)
  {
    MemCpy(a, at, Zeros(ENTRY));
    MemCpy(a, at, fn[..11]);
    a[at + 12] := fn[11] / 8 % 4 * 8;
    ShortEntryIs(a[..], at, fn);
  }

  lemma ShortEntryIs(a: seq<byte>, at: nat, fn: seq<byte>)
    requires at + ENTRY <= |a| && |fn| == 12 && a[at + 11] == 0 && a[at + 12] == fn[11] / 8 % 4 * 8
    requires (forall i :: at <= i < at + 11 ==> a[i] == fn[i - at]) && forall i :: at + 13 <= i < at + ENTRY ==>
               a[i] == 0
    ensures IsShortEntry(EntryAt(a, at), fn)
  {
    var dir := EntryAt(a, at);
    assert forall i :: 0 <= i < ENTRY ==> dir[i] == a[at + i];
    assert dir[..11] == fn[..11];
  }

  /* Round trip */

  /** From entry `k` of a stored name on, when the entries before it have been picked up */
  lemma {:induction false} ReadRest(region: seq<byte>, at: nat, name: seq<word>, sfn: seq<byte>, k: nat, st: Seen,
                                    buf: seq<word>)
    returns (r: Item)
    requires Stored(region, at, name, sfn) && IsShortName(sfn) && k <= Entries(|name|) && |buf| == MAX_LFN + 1
    requires k < Entries(|name|) && |name| <= MAX_LFN - 2 ==> st == Seen(k, SumSfn(sfn), at) && Gathered(buf, name, k)
    requires k < Entries(|name|) && |name| > MAX_LFN - 2 ==> st.ord == 0xFF
    ensures r == ReadFrom(region, at + ENTRY * (Entries(|name|) - k), st, buf)
    ensures r.Item? && r.at == at + ENTRY * Entries(|name|) && |r.buf| == MAX_LFN + 1
    ensures r.start == if |name| <= MAX_LFN - 2 then at else -1
    ensures |name| <= MAX_LFN - 2 ==> Gathered(r.buf, name, 0)
  {
    hide Pick, SumSfn, SumOf, IsLfnEntry, Gathered;
    var p := at + ENTRY * (Entries(|name|) - k);
    var dir := EntryAt(region, p);
    if k == 0 {
      ShortSum(dir, sfn);
      r := ReadFrom(region, p, st, buf);
    } else {
      assert PartStored(region, at, name, k, SumSfn(sfn));
      LongEntryOrder(dir, name, k, SumSfn(sfn));
      var b := Begun(dir, p, st);
      if Continues(dir, b) {
        PickEntry(buf, dir, name, k, SumSfn(sfn));
      }
      var next := if Continues(dir, b) then Pick(buf, dir) else Picked(false, buf, 0);
      r := ReadRest(region, at, name, sfn, k - 1, b.(ord := NextOrder(b.ord, next.ok)), next.buf);
    }
  }

  lemma ShortSum(dir: seq<byte>, sfn: seq<byte>)
    requires |dir| == ENTRY && dir[..11] == sfn
    ensures SumSfn(dir) == SumSfn(sfn) && dir[0] == sfn[0]
  {
    SumPrefix(dir, sfn, 11);
    assert dir[0] == dir[..11][0];
  }

  lemma {:induction false} SumPrefix(s: seq<byte>, t: seq<byte>, n: nat)
    requires n <= |t| <= |s| && s[..|t|] == t
    ensures SumOf(s, n) == SumOf(t, n)
  {
    if n > 0 {
      SumPrefix(s, t, n - 1);
      assert s[n - 1] == s[..|t|][n - 1];
    }
  }

  /** A long name entry is taken for one. */
  lemma LongEntryOrder(dir: seq<byte>, name: seq<word>, k: nat, sum: byte)
    requires |dir| == ENTRY && IsName(name) && 1 <= k <= Entries(|name|) && IsLfnEntry(dir, name, k, sum)
    ensures dir[0] != 0 && !ReadSkips(dir) && dir[0] != DDEM && Attr(dir) == AM_LFN
    ensures OrderOf(dir) as int == k < 0xFF && dir[13] == sum
    ensures IsLastEntry(dir) <==> k == Entries(|name|)
  {
    hide Unit, NameUnit, LdWord;
  }

  /**
   * dir_read finds a stored name, whatever it saw before, and gives back the
   * whole of it if it has at most 253 characters; longer names are lost.
   */
  lemma ReadStored(region: seq<byte>, at: nat, name: seq<word>, sfn: seq<byte>, st: Seen, buf: seq<word>)
    requires Stored(region, at, name, sfn) && IsShortName(sfn) && |buf| == MAX_LFN + 1
    ensures var r := ReadFrom(region, at, st, buf);
            && r.Item? && r.at == at + ENTRY * Entries(|name|)
            && (r.start == at <==> |name| <= MAX_LFN - 2) && (r.start != at ==> r.start == -1)
            && (r.start == at ==> Holds(r.buf, name))
  {
    var r := ReadRest(region, at, name, sfn, Entries(|name|), st, buf);
    if |name| <= MAX_LFN - 2 {
      GatheredHolds(r.buf, name);
    }
  }

  lemma GatheredHolds(buf: seq<word>, name: seq<word>)
    requires Gathered(buf, name, 0)
    ensures Holds(buf, name)
  {
    assert forall i :: 0 <= i < |name| ==> buf[i] == NameUnit(name, i);
  }

  /* dir_find */

  datatype Find = NotFound | Found(at: nat, start: int)

  /** An entry without valid data for a search */
  predicate FindSkips(dir: seq<byte>)
    requires |dir| == ENTRY
  {
    dir[0] == DDEM || (HasVolumeBit(dir) && Attr(dir) != AM_LFN)
  }

  /**
   * What is looked for: the long name in the working buffer, if `long` says so,
   * and the short name, unless that has lost characters (NS_LOSS)
   */
  datatype Wanted = Wanted(long: bool, buf: seq<word>, sfn: seq<byte>, loss: bool)

  predicate IsWanted(w: Wanted)
  {
    |w.buf| == MAX_LFN + 1 && |w.sfn| == 11
  }

  /** What dir_find finds from `at` on */
  function FindFrom(region: seq<byte>, at: nat, st: Seen, w: Wanted, up: seq<word>): (r: Find)
    requires IsWanted(w) && IsUpTable(up)
    decreases |region| - at
  {
    if at + ENTRY > |region| then NotFound
    else
      var dir := EntryAt(region, at);
      if dir[0] == 0 then NotFound
      else if FindSkips(dir) then FindFrom(region, at + ENTRY, Seen(0xFF, st.sum, -1), w, up)
      else if Attr(dir) == AM_LFN then
        if !w.long then FindFrom(region, at + ENTRY, st, w, up)
        else
          var b := Begun(dir, at, st);
          FindFrom(region, at + ENTRY, b.(ord := NextOrder(b.ord, Continues(dir, b) && Cmp(w.buf, dir, up))), w, up)
      else if (st.ord == 0 && st.sum == SumSfn(dir)) || (!w.loss && dir[..11] == w.sfn) then Found(at, st.start)
      else FindFrom(region, at + ENTRY, Seen(0xFF, st.sum, -1), w, up)
  }

  /** The names are equal but for upper and lower case. */
  predicate SameName(up: seq<word>, a: seq<word>, b: seq<word>)
    requires IsUpTable(up)
  {
    |a| == |b| && forall i :: 0 <= i < |a| ==> up[a[i]] == up[b[i]]
  }

  /** The buffer agrees with the name from entry `k + 1` on, and ends where the name ends. */
  predicate Agrees(buf: seq<word>, up: seq<word>, name: seq<word>, k: nat)
    requires |buf| == MAX_LFN + 1 && IsUpTable(up)
  {
    k == Entries(|name|) || (SameFolded(buf, up, name, 13 * k, |name|) && |name| < MAX_LFN && buf[|name|] == 0)
  }

  /** Comparing one more entry */
  lemma AgreesStep(buf: seq<word>, dir: seq<byte>, up: seq<word>, name: seq<word>, k: nat, sum: byte)
    requires |buf| == MAX_LFN + 1 && |dir| == ENTRY && IsUpTable(up) && IsName(name) && 1 <= k <= Entries(|name|)
    requires IsLfnEntry(dir, name, k, sum)
    ensures Agrees(buf, up, name, k) && Cmp(buf, dir, up) <==> Agrees(buf, up, name, k - 1)
  {
    CmpEntry(buf, dir, up, name, k, sum);
    hide Cmp, IsLfnEntry;
    if k < Entries(|name|) {
      FoldedSplit(buf, up, name, 13 * (k - 1), 13 * k, |name|);
    } else if 13 * k > |name| {
      FoldedSplit(buf, up, name, 13 * (k - 1), |name|, |name| + 1);
      SameFoldedStep(buf, up, name, |name|, |name| + 1);
      SameFoldedStep(buf, up, name, |name| + 1, |name| + 1);
    }
  }

  lemma FoldedSplit(buf: seq<word>, up: seq<word>, name: seq<word>, i: nat, m: nat, e: nat)
    requires |buf| == MAX_LFN + 1 && IsUpTable(up) && i <= m <= e
    ensures SameFolded(buf, up, name, i, e) <==> SameFolded(buf, up, name, i, m) && SameFolded(buf, up, name, m, e)
  {
    hide SameAt;
  }

  /**
   * All entries compare equal exactly when the names are the same, whatever
   * follows the searched name in the buffer.
   */
  lemma AgreesIsSame(buf: seq<word>, up: seq<word>, name: seq<word>, wanted: seq<word>)
    requires IsUpTable(up) && IsName(name) && Holds(buf, wanted) && (forall i :: 0 <= i < |wanted| ==> wanted[i] != 0)
    ensures Agrees(buf, up, name, 0) <==> SameName(up, name, wanted) && |name| < MAX_LFN
  {
    assert forall i :: 0 <= i < |wanted| ==> buf[i] == buf[..|wanted|][i];
    var n, m := |name|, |wanted|;
    if Agrees(buf, up, name, 0) {
      assert m < n ==> SameAt(buf, up, name, m);
      assert m == n;
      forall i | 0 <= i < n
        ensures up[name[i]] == up[wanted[i]]
      {
        assert SameAt(buf, up, name, i);
      }
    }
    if SameName(up, name, wanted) && n < MAX_LFN {
      assert forall i :: 0 <= i < n ==> SameAt(buf, up, name, i);
    }
  }

  /** From entry `k` of a stored name on, when the entries before it have been compared */
  lemma {:induction false} FindRest(region: seq<byte>, at: nat, name: seq<word>, sfn: seq<byte>, k: nat, st: Seen,
                                    w: Wanted, up: seq<word>)
    requires w.long && Stored(region, at, name, sfn) && IsShortName(sfn) && k <= Entries(|name|) && IsWanted(w)
    requires IsUpTable(up)
    requires k < Entries(|name|) ==> st == Seen(if Agrees(w.buf, up, name, k) then k else 0xFF, SumSfn(sfn), at)
    ensures var p, behind := at + ENTRY * Entries(|name|), at + ENTRY * (Entries(|name|) + 1);
            FindFrom(region, at + ENTRY * (Entries(|name|) - k), st, w, up) ==
              if Agrees(w.buf, up, name, 0) || (!w.loss && sfn == w.sfn) then Found(p, at)
              else FindFrom(region, behind, Seen(0xFF, SumSfn(sfn), -1), w, up)
  {
    hide Cmp, SumSfn, SumOf, IsLfnEntry;
    var p := at + ENTRY * (Entries(|name|) - k);
    var dir := EntryAt(region, p);
    if k == 0 {
      ShortSum(dir, sfn);
    } else {
      assert PartStored(region, at, name, k, SumSfn(sfn));
      LongEntryOrder(dir, name, k, SumSfn(sfn));
      AgreesStep(w.buf, dir, up, name, k, SumSfn(sfn));
      var b := Begun(dir, p, st);
      FindRest(region, at, name, sfn, k - 1, b.(ord := NextOrder(b.ord, Continues(dir, b) && Cmp(w.buf, dir, up))), w,
               up);
    }
  }

  /** A search without a long name passes over the long name entries. */
  lemma {:induction false} ShortRest(region: seq<byte>, at: nat, name: seq<word>, sfn: seq<byte>, k: nat, st: Seen,
                                     w: Wanted, up: seq<word>)
    requires !w.long && Stored(region, at, name, sfn) && IsShortName(sfn) && k <= Entries(|name|)
    requires IsWanted(w) && IsUpTable(up) && st.ord == 0xFF
    ensures var p, behind := at + ENTRY * Entries(|name|), at + ENTRY * (Entries(|name|) + 1);
            FindFrom(region, at + ENTRY * (Entries(|name|) - k), st, w, up) ==
              if !w.loss && sfn == w.sfn then Found(p, st.start)
              else FindFrom(region, behind, Seen(0xFF, st.sum, -1), w, up)
  {
    hide Cmp, SumSfn, SumOf, IsLfnEntry, IsUpTable;
    var dir := EntryAt(region, at + ENTRY * (Entries(|name|) - k));
    if k == 0 {
      ShortSum(dir, sfn);
    } else {
      assert PartStored(region, at, name, k, SumSfn(sfn));
      LongEntryOrder(dir, name, k, SumSfn(sfn));
      ShortRest(region, at, name, sfn, k - 1, st, w, up);
    }
  }

  /** A name in a directory: the long one, and the short one that stands for it */
  datatype FileName = FileName(long: seq<word>, short: seq<byte>)

  /** It is the name that is looked for, in any case, or it has its short name. A long name of 255 is not recognized. */
  predicate IsMatch(f: FileName, w: Wanted, wanted: seq<word>, up: seq<word>)
    requires IsUpTable(up)
  {
    (w.long && SameName(up, f.long, wanted) && |f.long| < MAX_LFN) || (!w.loss && f.short == w.sfn)
  }

  predicate IsSought(w: Wanted, wanted: seq<word>)
  {
    IsWanted(w) && (w.long ==> Holds(w.buf, wanted) && forall i :: 0 <= i < |wanted| ==> wanted[i] != 0)
  }

  /**
   * dir_find stops at a stored name, whatever it saw before, exactly when that
   * is the name it looks for in any case, or has its short name. A name of 255
   * characters is never found by its long name.
   */
  lemma FindStored(region: seq<byte>, at: nat, f: FileName, st: Seen, w: Wanted, wanted: seq<word>, up: seq<word>)
    requires Stored(region, at, f.long, f.short) && IsShortName(f.short) && IsSought(w, wanted) && IsUpTable(up)
    requires !w.long ==> st.ord == 0xFF
    ensures var p, behind := at + ENTRY * Entries(|f.long|), at + ENTRY * (Entries(|f.long|) + 1);
            FindFrom(region, at, st, w, up) ==
              if IsMatch(f, w, wanted, up) then Found(p, if w.long then at else st.start)
              else FindFrom(region, behind, Seen(0xFF, if w.long then SumSfn(f.short) else st.sum, -1), w, up)
  {
    hide Agrees, SameName, Stored, FindFrom, SumSfn, IsUpTable, Holds;
    if w.long {
      StoredName(region, at, f.long, f.short);
      AgreesIsSame(w.buf, up, f.long, wanted);
      FindRest(region, at, f.long, f.short, Entries(|f.long|), st, w, up);
    } else {
      ShortRest(region, at, f.long, f.short, Entries(|f.long|), st, w, up);
    }
  }

  lemma StoredName(region: seq<byte>, at: nat, name: seq<word>, sfn: seq<byte>)
    requires Stored(region, at, name, sfn)
    ensures IsName(name)
  {
  }

  /* A whole directory */

  function Behind(at: nat, f: FileName): (e: nat)
  {
    at + ENTRY * (Entries(|f.long|) + 1)
  }

  /** Names stored one after the other from `at` on */
  predicate AllStored(region: seq<byte>, at: nat, files: seq<FileName>)
    decreases |files|
  {
    files == [] ||
    (Stored(region, at, files[0].long, files[0].short) && IsShortName(files[0].short)
     && AllStored(region, Behind(at, files[0]), files[1..]))
  }

  /** Where they end */
  function EndOf(at: nat, files: seq<FileName>): (e: nat)
    decreases |files|
  {
    if files == [] then at else EndOf(Behind(at, files[0]), files[1..])
  }

  /** The directory has no more entries: it ends there, or an entry was never used. */
  predicate Ends(region: seq<byte>, at: nat)
  {
    at + ENTRY > |region| || region[at] == 0
  }

  /** The search through a whole directory finds the first of its names that matches, and nothing if none does. */
  lemma {:induction false} FindAmong(region: seq<byte>, at: nat, files: seq<FileName>, st: Seen, w: Wanted,
                                     wanted: seq<word>, up: seq<word>) returns (i: nat)
    requires AllStored(region, at, files) && Ends(region, EndOf(at, files)) && IsSought(w, wanted) && IsUpTable(up)
    requires !w.long ==> st.ord == 0xFF && st.start == -1
    ensures i <= |files| && forall j :: 0 <= j < i ==> !IsMatch(files[j], w, wanted, up)
    ensures i == |files| ==> FindFrom(region, at, st, w, up) == NotFound
    ensures i < |files| ==> IsMatch(files[i], w, wanted, up)
    ensures i < |files| ==>
              var p := EndOf(at, files[..i]);
              FindFrom(region, at, st, w, up) == Found(p + ENTRY * Entries(|files[i].long|), if w.long then p else -1)
    decreases |files|
  {
    hide IsMatch, Stored, SumSfn, IsSought, IsUpTable;
    if files == [] {
      i := 0;
    } else {
      FindStored(region, at, files[0], st, w, wanted, up);
      if IsMatch(files[0], w, wanted, up) {
        i := 0;
      } else {
        hide FindFrom;
        var sum := if w.long then SumSfn(files[0].short) else st.sum;
        var k := FindAmong(region, Behind(at, files[0]), files[1..], Seen(0xFF, sum, -1), w, wanted, up);
        i := k + 1;
        assert files[..i][1..] == files[1..][..k];
      }
    }
  }
}
