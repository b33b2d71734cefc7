/** ctr_io_implementation: access to bytes, built from reads and writes of sectors of any size. */
module ByteIo {
  import opened Base
  import opened SectorDevice

  /** position % sector_size */
  function StartLocation(ss: nat, position: nat): (p: nat)
    requires ss > 0
    ensures p < ss
  {
    position % ss
  }

  lemma PositionSplit(ss: nat, position: nat)
    requires ss > 0
    ensures position == Span(ss, Fit(ss, position)) + StartLocation(ss, position)
  {
  }

  /** Where the sector ends that the last of `n` bytes from `position` on lies in */
  function Reach(ss: nat, position: nat, n: nat): (e: nat)
    requires ss > 0 && n > 0
    ensures position + n <= e < position + n + ss
  {
    SpanAdd(ss, Fit(ss, position + n - 1), 1);
    Span(ss, Fit(ss, position + n - 1) + 1)
  }

  /** The same, found from the three sections of a transfer: `k` bytes, `mid` sectors and what is left */
  lemma ReachIs(ss: nat, position: nat, n: nat, sectors: nat)
    requires ss > 0 && n > 0 && Span(ss, sectors) < position + n <= Span(ss, sectors) + ss
    ensures Reach(ss, position, n) == Span(ss, sectors) + ss
  {
    FitUnique(ss, sectors, position + n - 1 - Span(ss, sectors));
    SpanAdd(ss, sectors, 1);
  }

  /* Reading */

  /** The first `done` bytes from `position` on are in the buffer; the rest of it is as it was. */
  ghost predicate Got(raw: seq<byte>, was: seq<byte>, buf: seq<byte>, position: nat, done: nat)
  {
    && |buf| == |was| && done <= |buf| && position + done <= |raw|
    && buf == Overlay(was, 0, raw[position..position + done])
  }

  lemma GotMore(raw: seq<byte>, was: seq<byte>, buf: seq<byte>, position: nat, done: nat, k: nat)
    requires Got(raw, was, buf, position, done) && done + k <= |buf| && position + done + k <= |raw|
    ensures Got(raw, was, Overlay(buf, done, raw[position + done..position + done + k]), position, done + k)
  {
    assert raw[position..position + done] + raw[position + done..position + done + k]
         == raw[position..position + done + k];
    OverlayTwice(was, 0, raw[position..position + done], raw[position + done..position + done + k]);
  }

  /** One sector into a buffer of its own */
  method ReadOne(io: SectorIo, buf: array<byte>, sector: nat) returns (ok: bool)
    requires io.sectorSize > 0 && buf.Length == io.sectorSize
    modifies buf
    ensures ok ==> Span(io.sectorSize, sector) + io.sectorSize <= |io.bytes| &&
                   buf[..] == io.bytes[Span(io.sectorSize, sector)..Span(io.sectorSize, sector) + io.sectorSize]
    ensures io.reliable && Span(io.sectorSize, sector) + io.sectorSize <= |io.bytes| ==> ok
  {
    var ss := io.sectorSize;
    SpanAdd(ss, 0, 1);
    MovedAll(ss, ss, 1);
    hide Span, Moved;
    ok := io.ReadSector(buf, 0, ss, sector, 1);
    if ok {
      assert buf[..] == buf[..][0..0 + ss];
    }
  }

  /** `count` sectors into the middle of a buffer */
  method ReadRun(io: SectorIo, buf: array<byte>, at: nat, size: nat, sector: nat, count: nat) returns (ok: bool)
    requires io.sectorSize > 0 && at + size <= buf.Length && count == Fit(io.sectorSize, size)
    modifies buf
    ensures ok ==> var n, from := Span(io.sectorSize, count), Span(io.sectorSize, sector);
                   at + n <= buf.Length && from + n <= |io.bytes|
                   && buf[..] == Overlay(old(buf[..]), at, io.bytes[from..from + n])
    ensures io.reliable && Span(io.sectorSize, sector) + Span(io.sectorSize, count) <= |io.bytes| ==> ok
  {
    var ss := io.sectorSize;
    MovedAll(ss, size, count);
    hide Span, Moved;
    ghost var was := buf[..];
    ok := io.ReadSector(buf, at, size, sector, count);
    if ok {
      IsOverlay(was, buf[..], at, io.bytes[Span(ss, sector)..Span(ss, sector) + Span(ss, count)]);
    }
  }

  lemma GotFirst(raw: seq<byte>, was: seq<byte>, position: nat, k: nat)
    requires position + k <= |raw| && k <= |was|
    ensures Got(raw, was, Overlay(was, 0, raw[position..position + k]), position, k)
  {
  }

  lemma SectorSlice(raw: seq<byte>, lo: nat, ss: nat, start: nat, k: nat)
    requires start + k <= ss && lo + ss <= |raw|
    ensures raw[lo..lo + ss][start..start + k] == raw[lo + start..lo + start + k]
    ensures start == 0 ==> raw[lo..lo + ss][..k] == raw[lo..lo + k]
  {
    var s := raw[lo..lo + ss];
    assert forall x :: start <= x < start + k ==> s[x] == raw[lo + x];
  }

  /** Section 1 of a read: what is asked for of the first sector */
  method ReadFirst(io: SectorIo, buffer: array<byte>, position: nat, total: nat) returns (ok: bool, k: nat)
    requires io.sectorSize > 0 && 0 < total <= buffer.Length
    modifies buffer
    ensures k == Min(io.sectorSize - StartLocation(io.sectorSize, position), total)
    ensures ok ==> Got(io.bytes, old(buffer[..]), buffer[..], position, k)
    ensures io.reliable && Span(io.sectorSize, Fit(io.sectorSize, position)) + io.sectorSize <= |io.bytes| ==> ok
  {
    hide Span, Fit, Overlay, StartLocation, Got;
    var ss := io.sectorSize;
    PositionSplit(ss, position);
    var base, start := Fit(ss, position), StartLocation(ss, position);
    var buf := new byte[ss];
    k := ss - start;
    if k > total { k := total; }
    ok := ReadOne(io, buf, base);
    if ok {
      GotFirst(io.bytes, buffer[..], position, k);
      SectorSlice(io.bytes, position - start, ss, start, k);
      MemCpy(buffer, 0, buf[start..start + k]);
    }
  }

  /** Section 3 of a read: what is asked for of the last sector */
  method ReadLast(io: SectorIo, buffer: array<byte>, position: nat, done: nat, total: nat, sector: nat,
                  ghost was: seq<byte>) returns (ok: bool)
    requires io.sectorSize > 0 && done < total <= buffer.Length && total - done < io.sectorSize
    requires Span(io.sectorSize, sector) == position + done && Got(io.bytes, was, buffer[..], position, done)
    modifies buffer
    ensures ok ==> Got(io.bytes, was, buffer[..], position, total)
    ensures io.reliable && position + done + io.sectorSize <= |io.bytes| ==> ok
  {
    hide Span, Fit, Overlay, Got;
    var ss := io.sectorSize;
    var rest := total - done;
    var buf := new byte[ss];
    ok := ReadOne(io, buf, sector);
    if ok {
      SectorSlice(io.bytes, position + done, ss, 0, rest);
      GotMore(io.bytes, was, buffer[..], position, done, rest);
      MemCpy(buffer, done, buf[..rest]);
    }
  }

  /** Section 2 of a read: the whole sectors in between */
  method ReadMiddle(io: SectorIo, buffer: array<byte>, position: nat, done: nat, total: nat, sector: nat, mid: nat,
                    ghost was: seq<byte>)
    returns (ok: bool)
    requires io.sectorSize > 0 && done <= total <= buffer.Length && mid == Fit(io.sectorSize, total - done)
    requires Span(io.sectorSize, sector) == position + done && Got(io.bytes, was, buffer[..], position, done)
    modifies buffer
    ensures ok ==> Got(io.bytes, was, buffer[..], position, done + Span(io.sectorSize, mid))
    ensures io.reliable && position + done + Span(io.sectorSize, mid) <= |io.bytes| ==> ok
  {
    hide Span, Fit, Overlay, Got;
    ghost var now := buffer[..];
    ok := ReadRun(io, buffer, done, total - done, sector, mid);
    if ok {
      GotMore(io.bytes, was, now, position, done, Span(io.sectorSize, mid));
    }
  }

  /** The three sections of a transfer of `n` bytes: `k` bytes, `mid` sectors, and the rest of less than a sector */
  lemma Sections(ss: nat, position: nat, n: nat)
    requires ss > 0 && n > 0
    ensures var k := Min(ss - StartLocation(ss, position), n);
            var base, mid := Fit(ss, position), Fit(ss, n - k);
            && 0 < k <= n && Span(ss, base) + ss <= Reach(ss, position, n)
            && (k < n ==>
                  Span(ss, base + 1) == position + k && Span(ss, base + 1 + mid) == position + k + Span(ss, mid))
            && k + Span(ss, mid) <= n < k + Span(ss, mid) + ss && (k == n ==> mid == 0)
            && (k + Span(ss, mid) < n ==> position + k + Span(ss, mid) + ss == Reach(ss, position, n))
  {
    var k := Min(ss - StartLocation(ss, position), n);
    var base, mid := Fit(ss, position), Fit(ss, n - k);
    PositionSplit(ss, position);
    SpanAdd(ss, base, 1);
    SpanAdd(ss, base + 1, mid);
    FitUnique(ss, 0, 0);
    SpanAdd(ss, 0, 0);
    if k == n {
      ReachIs(ss, position, n, base);
    } else if k + Span(ss, mid) < n {
      ReachIs(ss, position, n, base + 1 + mid);
    }
    hide Span, Fit, StartLocation;
  }

  /** ctr_io_implementation_read */
  method Read(io: SectorIo, buffer: array<byte>, position: nat, count: nat) returns (ok: bool)
    requires io.sectorSize > 0
    modifies buffer
    ensures var n := Min(count, buffer.Length);
            && (ok && n > 0 ==> Got(io.bytes, old(buffer[..]), buffer[..], position, n))
            && (n == 0 ==> ok && buffer[..] == old(buffer[..]))
            && (io.reliable && (n > 0 ==> Reach(io.sectorSize, position, n) <= |io.bytes|) ==> ok)
  {
    var total := Min(count, buffer.Length);
    if total == 0 { return true; }
    var ss := io.sectorSize;
    ghost var was := buffer[..];
    Sections(ss, position, total);
    hide Span, Fit, Min, Overlay, StartLocation, Got, Reach;
    var k;
    ok, k := ReadFirst(io, buffer, position, total);
    if !ok { return; }
    var done, sectors := k, 1;
    var mid := Fit(ss, total - done);
    if mid > 0 {
      ok := ReadMiddle(io, buffer, position, done, total, Fit(ss, position) + sectors, mid, was);
      if !ok { return; }
    }
    done, sectors := done + Span(ss, mid), sectors + mid;
    if total - done > 0 {
      ok := ReadLast(io, buffer, position, done, total, Fit(ss, position) + sectors, was);
    }
  }

  /* Writing */

  /** Writing a sector back with `d` in it changes just these bytes. */
  lemma PatchSector(raw: seq<byte>, lo: nat, ss: nat, start: nat, d: seq<byte>)
    requires lo + ss <= |raw| && start + |d| <= ss
    ensures Overlay(raw, lo, Overlay(raw[lo..lo + ss], start, d)) == Overlay(raw, lo + start, d)
  {
  }

  /** Nothing has changed outside `lo` to `hi`. */
  predicate SameOff(was: seq<byte>, now: seq<byte>, lo: nat, hi: nat)
  {
    |now| == |was| && forall x :: 0 <= x < |was| && !(lo <= x < hi) ==> now[x] == was[x]
  }

  /** A further change inside the same bounds */
  lemma SameOffMore(raw: seq<byte>, a: seq<byte>, b: seq<byte>, lo: nat, hi: nat, p: nat, q: nat)
    requires SameOff(raw, a, lo, hi) && SameOff(a, b, p, q) && lo <= p && q <= hi
    ensures SameOff(raw, b, lo, hi)
  {
  }

  lemma SameOffNothing(raw: seq<byte>, lo: nat, hi: nat)
    ensures SameOff(raw, raw, lo, hi)
  {
  }

  /** The first `done` bytes of the source are in their place, and nothing else has changed. */
  ghost predicate Put(raw: seq<byte>, now: seq<byte>, position: nat, source: seq<byte>, done: nat)
  {
    done <= |source| && position + done <= |raw| && now == Overlay(raw, position, source[..done])
  }

  lemma PutMore(raw: seq<byte>, now: seq<byte>, position: nat, source: seq<byte>, done: nat, k: nat)
    requires Put(raw, now, position, source, done) && done + k <= |source| && position + done + k <= |raw|
    ensures position + done <= |now|
    ensures Put(raw, Overlay(now, position + done, source[done..][..k]), position, source, done + k)
  {
    assert source[..done] + source[done..][..k] == source[..done + k];
    OverlayTwice(raw, position, source[..done], source[done..][..k]);
  }

  /** One sector */
  method WriteOne(io: SectorIo, buf: array<byte>, sector: nat) returns (ok: bool)
    requires io.sectorSize > 0 && buf.Length == io.sectorSize
    modifies io
    ensures SameOff(old(io.bytes), io.bytes, Span(io.sectorSize, sector), Span(io.sectorSize, sector) + io.sectorSize)
    ensures ok ==> Span(io.sectorSize, sector) + io.sectorSize <= |io.bytes| &&
                   io.bytes == Overlay(old(io.bytes), Span(io.sectorSize, sector), buf[..])
    ensures io.reliable && Span(io.sectorSize, sector) + io.sectorSize <= |io.bytes| ==> ok
  {
    var ss := io.sectorSize;
    SpanAdd(ss, 0, 1);
    FitUnique(ss, 1, 0);
    assert Whole(ss, ss) == ss;
    hide Span, Whole, Fit, Overlay;
    ok := io.WriteSector(buf[..], sector);
    assert buf[..][..ss] == buf[..];
  }

  /** A sector is read, `d` is put into it, and it is written back; `quiet` drops the result of the write. */
  method PatchOne(io: SectorIo, sector: nat, start: nat, d: seq<byte>, quiet: bool) returns (ok: bool)
    requires io.sectorSize > 0 && start + |d| <= io.sectorSize
    modifies io
    ensures SameOff(old(io.bytes), io.bytes, Span(io.sectorSize, sector), Span(io.sectorSize, sector) + io.sectorSize)
    ensures ok && (!quiet || io.reliable) ==> Span(io.sectorSize, sector) + io.sectorSize <= |io.bytes| &&
                                              io.bytes == Overlay(old(io.bytes), Span(io.sectorSize, sector) + start, d)
    ensures io.reliable && Span(io.sectorSize, sector) + io.sectorSize <= |io.bytes| ==> ok
  {
    var ss := io.sectorSize;
    hide Span, Overlay;
    var buf := new byte[ss];
    ok := ReadOne(io, buf, sector);
    if ok {
      PatchSector(io.bytes, Span(ss, sector), ss, start, d);
      MemCpy(buf, start, d);
      var written := WriteOne(io, buf, sector);
      if !quiet { ok := written; }
    }
  }

  /** Section 2 of a write: the whole sectors of what is left; the device ignores the rest. */
  method WriteMiddle(io: SectorIo, source: seq<byte>, position: nat, done: nat, sector: nat, mid: nat,
                     ghost raw: seq<byte>) returns (ok: bool)
    requires io.sectorSize > 0 && done <= |source| && mid == Fit(io.sectorSize, |source| - done)
    requires Span(io.sectorSize, sector) == position + done
    modifies io
    ensures SameOff(old(io.bytes), io.bytes, position + done, position + done + Span(io.sectorSize, mid))
    ensures ok && old(Put(raw, io.bytes, position, source, done)) ==>
              Put(raw, io.bytes, position, source, done + Span(io.sectorSize, mid))
    ensures io.reliable && position + done + Span(io.sectorSize, mid) <= |io.bytes| ==> ok
  {
    var ss := io.sectorSize;
    ghost var now := io.bytes;
    assert Whole(ss, |source| - done) == Span(ss, mid);
    hide Span, Whole, Fit, Overlay, Put;
    ok := io.WriteSector(source[done..], sector);
    if ok && Put(raw, now, position, source, done) {
      PutLength(raw, now, position, source, done);
      PutMore(raw, now, position, source, done, Span(ss, mid));
    }
  }

  lemma PutLength(raw: seq<byte>, now: seq<byte>, position: nat, source: seq<byte>, done: nat)
    requires Put(raw, now, position, source, done)
    ensures |now| == |raw|
  {
  }

  lemma PutFirst(raw: seq<byte>, now: seq<byte>, position: nat, source: seq<byte>, k: nat)
    requires k <= |source| && position + k <= |raw| && now == Overlay(raw, position, source[..k])
    ensures Put(raw, now, position, source, k)
  {
  }

  lemma PutLast(raw: seq<byte>, now: seq<byte>, next: seq<byte>, position: nat, source: seq<byte>, done: nat)
    requires Put(raw, now, position, source, done) && position + |source| <= |raw| && |now| == |raw|
    requires next == Overlay(now, position + done, source[done..])
    ensures Put(raw, next, position, source, |source|)
  {
    assert source[done..][..|source| - done] == source[done..];
    PutMore(raw, now, position, source, done, |source| - done);
  }

  lemma PutWhole(raw: seq<byte>, now: seq<byte>, position: nat, source: seq<byte>)
    requires Put(raw, now, position, source, |source|)
    ensures position + |source| <= |raw| && now == Overlay(raw, position, source)
  {
    assert source[..|source|] == source;
  }

  /** Section 3 of a write: the beginning of the last sector; the result of the write is not looked at. */
  method WriteLast(io: SectorIo, source: seq<byte>, position: nat, done: nat, sector: nat, ghost raw: seq<byte>)
    returns (ok: bool)
    requires io.sectorSize > 0 && done < |source| < done + io.sectorSize
    requires Span(io.sectorSize, sector) == position + done
    modifies io
    ensures SameOff(old(io.bytes), io.bytes, position + done, position + done + io.sectorSize)
    ensures ok && io.reliable && old(Put(raw, io.bytes, position, source, done)) ==>
              Put(raw, io.bytes, position, source, |source|)
    ensures io.reliable && position + done + io.sectorSize <= |io.bytes| ==> ok
  {
    hide Span, Overlay, Put, SameOff;
    ghost var now := io.bytes;
    ok := PatchOne(io, sector, 0, source[done..], true);
    if ok && io.reliable && Put(raw, now, position, source, done) {
      SameLength(now, io.bytes, position + done, position + done + io.sectorSize);
      PutLength(raw, now, position, source, done);
      PutLast(raw, now, io.bytes, position, source, done);
    }
  }

  lemma SameLength(was: seq<byte>, now: seq<byte>, lo: nat, hi: nat)
    requires SameOff(was, now, lo, hi)
    ensures |now| == |was|
  {
  }

  /** ctr_io_implementation_write: the result of the write in section 3 is not looked at. */
  method Write(io: SectorIo, source: seq<byte>, position: nat) returns (ok: bool)
    requires io.sectorSize > 0
    modifies io
    ensures source == [] ==> ok && io.bytes == old(io.bytes)
    ensures source != [] && ok && io.reliable ==>
              position + |source| <= |old(io.bytes)| && io.bytes == Overlay(old(io.bytes), position, source)
    ensures source != [] ==>
              SameOff(old(io.bytes), io.bytes, Span(io.sectorSize, Fit(io.sectorSize, position)),
                      Reach(io.sectorSize, position, |source|))
    ensures io.reliable && (source != [] ==> Reach(io.sectorSize, position, |source|) <= |old(io.bytes)|) ==> ok
  {
    if source == [] { return true; }
    var ss, size := io.sectorSize, |source|;
    var base, start := Fit(ss, position), StartLocation(ss, position);
    ghost var raw, lo, hi := io.bytes, Span(ss, base), Reach(ss, position, size);
    Sections(ss, position, size);
    PositionSplit(ss, position);
    SameOffNothing(raw, lo, hi);
    hide Span, Fit, Overlay, StartLocation, Reach, SameOff, Put;
    var written := Min(ss - start, size);
    ok := PatchOne(io, base, start, source[..written], false);
    SameOffMore(raw, raw, io.bytes, lo, hi, lo, lo + ss);
    SameLength(raw, io.bytes, lo, hi);
    if !ok { return; }
    PutFirst(raw, io.bytes, position, source, written);
    ok := WriteRest(io, source, position, written, base + 1, raw, lo);
    if ok && io.reliable {
      PutWhole(raw, io.bytes, position, source);
    }
  }

  /** Sections 2 and 3 of a write */
  method WriteRest(io: SectorIo, source: seq<byte>, position: nat, done: nat, sector: nat, ghost raw: seq<byte>,
                   ghost lo: nat) returns (ok: bool)
    requires io.sectorSize > 0 && 0 < done <= |source|
    requires (done < |source| ==> Span(io.sectorSize, sector) == position + done)
    requires lo <= position + done && SameOff(raw, io.bytes, lo, Reach(io.sectorSize, position, |source|))
    requires Put(raw, io.bytes, position, source, done)
    modifies io
    ensures SameOff(raw, io.bytes, lo, Reach(io.sectorSize, position, |source|))
    ensures ok && io.reliable ==> Put(raw, io.bytes, position, source, |source|)
    ensures io.reliable && Reach(io.sectorSize, position, |source|) <= |raw| ==> ok
  {
    hide Span, Fit, Overlay, Reach, SameOff, Put;
    var ss := io.sectorSize;
    ghost var hi := Reach(ss, position, |source|);
    var mid := Fit(ss, |source| - done);
    var next := done + Span(ss, mid);
    SpanAdd(ss, sector, mid);
    SpanAdd(ss, 0, 0);
    FitUnique(ss, 0, 0);
    if next < |source| {
      ReachIs(ss, position, |source|, sector + mid);
    }
    SameLength(raw, io.bytes, lo, hi);
    ok := true;
    if mid > 0 {
      ghost var before := io.bytes;
      ok := WriteMiddle(io, source, position, done, sector, mid, raw);
      SameOffMore(raw, before, io.bytes, lo, hi, position + done, position + next);
      SameLength(raw, io.bytes, lo, hi);
      if !ok { return; }
    }
    if next != |source| {
      ghost var before := io.bytes;
      ok := WriteLast(io, source, position, next, sector + mid, raw);
      SameOffMore(raw, before, io.bytes, lo, hi, position + next, hi);
    }
  }
}
