/**
 * ctr_crypto_interface_write and _read: the byte layer over the encrypted disk,
 * whose sector writes do not ignore a partial sector.
 */
module CipherBytes {
  import opened Base
  import opened SectorDevice
  import opened Chunks
  import opened CipherBlocks
  import opened CleanWrites
  import opened Crypto
  import B = ByteIo

  /** The bytes that the first section of a transfer moves */
  function Head(ss: nat, position: nat, n: nat): (k: nat)
    requires ss > 0
    ensures k <= n && (n > 0 ==> k > 0)
  {
    Min(ss - B.StartLocation(ss, position), n)
  }

  /** The whole sectors that its second section counts */
  function Mid(ss: nat, position: nat, n: nat): (m: nat)
    requires ss > 0
  {
    Fit(ss, n - Head(ss, position, n))
  }

  /** The sector behind the first one, where the second section starts */
  function Next(ss: nat, position: nat): (sector: nat)
    requires ss > 0
  {
    Fit(ss, position) + 1
  }

  /** The first byte that the third section moves */
  function Behind(ss: nat, position: nat, n: nat): (k: nat)
    requires ss > 0
  {
    Head(ss, position, n) + Span(ss, Mid(ss, position, n))
  }

  /** Where the parts of a transfer lie */
  lemma Parts(ss: nat, position: nat, n: nat)
    requires ss > 0 && n > 0
    ensures var k, mid, next := Head(ss, position, n), Mid(ss, position, n), Next(ss, position);
            && (k < n ==> Span(ss, next) == position + k && Span(ss, next + mid) == position + Behind(ss, position, n))
            && Behind(ss, position, n) <= n < Behind(ss, position, n) + ss && (k == n ==> mid == 0)
            && Span(ss, next) == Span(ss, Fit(ss, position)) + ss && (mid == 0 ==> Behind(ss, position, n) == k)
            && (mid > 0 ==> n - k >= ss)
            && position == Span(ss, Fit(ss, position)) + B.StartLocation(ss, position)
  {
    B.Sections(ss, position, n);
    B.PositionSplit(ss, position);
    SpanAdd(ss, Fit(ss, position), 1);
    SpanAdd(ss, 0, 0);
    hide Span;
    if Mid(ss, position, n) > 0 {
      SpanMonotone(ss, 1, Mid(ss, position, n));
    }
  }

  /** How far a write of `n` bytes at `at` reads */
  function WriteReach(at: nat, n: nat, width: nat): (e: nat)
    requires BLOCK <= width && width % BLOCK == 0
    ensures e >= at / BLOCK * BLOCK + width
  {
    ReadEnd(at / BLOCK, at % BLOCK, at % BLOCK, n, width)
  }

  lemma JobReach(j: Job)
    requires IsJob(j)
    ensures JobEnd(j) == WriteReach(j.at, |j.data|, j.width)
  {
  }

  /** How far a sector is read for it to be read, changed and written back */
  function PatchReach(ss: nat, sector: nat): (e: nat)
    requires Shape(ss)
  {
    WindowShape(ss);
    Max(ReadReach(ss, sector, ss, ss), WriteReach(Span(ss, sector), ss, WindowSize(ss)))
  }

  /** The disk goes on behind the bytes as far as the transfer reads. */
  predicate Fits(ss: nat, position: nat, n: nat, size: nat)
    requires Shape(ss)
  {
    WindowShape(ss);
    var k, mid, next := Head(ss, position, n), Mid(ss, position, n), Next(ss, position);
    && PatchReach(ss, Fit(ss, position)) <= size
    && (mid > 0 ==> WriteReach(Span(ss, next), n - k, WindowSize(ss)) <= size)
    && (Behind(ss, position, n) < n ==> PatchReach(ss, next + mid) <= size)
  }

  /** The second section is empty, or what is left for it ends well. */
  predicate MiddleEndsWell(ss: nat, position: nat, n: nat)
    requires ss > 0
  {
    Mid(ss, position, n) == 0 || EndsWell(Span(ss, Next(ss, position)), n - Head(ss, position, n), WindowSize(ss))
  }

  /** What the second section leaves behind the data when it does not end well */
  function BytesTail(c: Cipher, raw: seq<byte>, ss: nat, position: nat, n: nat): (t: seq<byte>)
    requires Shape(ss) && n > 0 && Fits(ss, position, n, |raw|)
  {
    WindowShape(ss);
    var at := Span(ss, Next(ss, position));
    if MiddleEndsWell(ss, position, n) then []
    else Tail(c, raw, at / BLOCK, at % BLOCK, at % BLOCK, n - Head(ss, position, n), WindowSize(ss))
  }

  lemma PositionInside(c: Cipher, raw: seq<byte>, ss: nat, position: nat, n: nat)
    requires Shape(ss) && n > 0 && Fits(ss, position, n, |raw|)
    ensures position <= |Plain(c, raw)|
  {
    var at := Span(ss, Fit(ss, position));
    Parts(ss, position, n);
    WindowShape(ss);
    hide Span, Fit, B.StartLocation, Plain, ReadReach, Shape;
    PlainReach(c, raw, at / BLOCK + WindowSize(ss) / BLOCK);
  }

  /** What ctr_crypto_interface_write does to what the client sees */
  ghost predicate BytesWritten(c: Cipher, raw: seq<byte>, now: seq<byte>, ss: nat, position: nat, source: seq<byte>)
    requires Shape(ss) && source != [] && Fits(ss, position, |source|, |raw|)
  {
    PositionInside(c, raw, ss, position, |source|);
    Plain(c, now) == Overlay(Plain(c, raw), position, source + BytesTail(c, raw, ss, position, |source|))
  }

  /* One sector */

  method ReadOne(io: CryptoInterface, buf: array<byte>, sector: nat) returns (ok: bool)
    requires io.Valid() && buf.Length == io.lower.sectorSize
    modifies buf
    ensures var at, ss := Span(io.lower.sectorSize, sector), io.lower.sectorSize;
            && (ok ==>
                  && at + ss <= |Plain(io.cipher, io.lower.bytes)|
                  && buf[..] == Plain(io.cipher, io.lower.bytes)[at..at + ss])
            && (io.lower.reliable && ReadReach(ss, sector, ss, ss) <= |io.lower.bytes| ==> ok)
  {
    var ss := io.lower.sectorSize;
    SpanAdd(ss, 0, 1);
    MovedAll(ss, ss, 1);
    OverrunsIff(Span(ss, sector), ss, ss);
    hide Span, Moved, Plain, ReadReach, Overruns;
    var r := io.ReadSector(buf, sector, 1);
    ok := r == Done;
    assert buf[..ss] == buf[..];
  }

  /** A single sector always ends well. */
  lemma SectorEndsWell(ss: nat, sector: nat)
    requires Shape(ss)
    ensures EndsWell(Span(ss, sector), ss, WindowSize(ss))
  {
    SpanAdd(ss, 0, 1);
    if ss % BLOCK == 0 {
      WholeSectorsEndWell(ss, sector, 1, WindowSize(ss));
    } else {
      SmallRests(ss, sector);
      hide Span;
    }
  }

  /** The client sees `d` at `at`, and behind the block that it ends in nothing was written. */
  ghost predicate Laid(c: Cipher, raw: seq<byte>, now: seq<byte>, at: nat, d: seq<byte>, end: nat)
  {
    && at + |d| <= |Plain(c, raw)| && Plain(c, now) == Overlay(Plain(c, raw), at, d)
    && SameFrom(raw, now, BlockEnd(end))
  }

  method WriteOne(io: CryptoInterface, buf: array<byte>, sector: nat) returns (ok: bool)
    requires io.Valid() && buf.Length == io.lower.sectorSize
    modifies io.lower
    ensures |io.lower.bytes| == |old(io.lower.bytes)|
    ensures var ss, at := io.lower.sectorSize, Span(io.lower.sectorSize, sector);
            io.lower.reliable && PatchReach(ss, sector) <= |io.lower.bytes| ==>
              ok && Laid(io.cipher, old(io.lower.bytes), io.lower.bytes, at, buf[..], at + ss)
  {
    hide Span, Plain, Overlay, WindowSize, WriteReach, ReadReach, JobEnd, EndsWell, SameFrom, BlockEnd;
    var ss := io.lower.sectorSize;
    ghost var j := Job(io.cipher, io.lower.bytes, Span(ss, sector), buf[..], WindowSize(ss));
    WindowShape(ss);
    SectorEndsWell(ss, sector);
    JobReach(j);
    var r := io.WriteSector(buf[..], sector);
    ok := r == 0;
    if io.lower.reliable && PatchReach(ss, sector) <= |io.lower.bytes| {
      WriteShowsData(j, io.lower.bytes);
    }
  }

  /** A sector is read, `d` is put into it, and it is written back; `quiet` drops the result of the write. */
  method PatchOne(io: CryptoInterface, sector: nat, start: nat, d: seq<byte>, quiet: bool) returns (ok: bool)
    requires io.Valid() && start + |d| <= io.lower.sectorSize
    modifies io.lower
    ensures |io.lower.bytes| == |old(io.lower.bytes)|
    ensures var ss, at := io.lower.sectorSize, Span(io.lower.sectorSize, sector);
            io.lower.reliable && PatchReach(ss, sector) <= |io.lower.bytes| ==>
              ok && Laid(io.cipher, old(io.lower.bytes), io.lower.bytes, at + start, d, at + ss)
  {
    hide Span, Plain, Overlay, ReadReach, WriteReach, SameFrom, BlockEnd;
    var ss := io.lower.sectorSize;
    ghost var raw := io.lower.bytes;
    var buf := new byte[ss];
    ok := ReadOne(io, buf, sector);
    if ok {
      ghost var was := buf[..];
      MemCpy(buf, start, d);
      var written := WriteOne(io, buf, sector);
      if !quiet { ok := written; }
      if Span(ss, sector) + ss <= |Plain(io.cipher, raw)|
         && was == Plain(io.cipher, raw)[Span(ss, sector)..Span(ss, sector) + ss] {
        B.PatchSector(Plain(io.cipher, raw), Span(ss, sector), ss, start, d);
      }
    }
  }

  /* Writing */

  /** A write goes on behind data that is there already. */
  lemma LaidOn(s: seq<byte>, at: nat, source: seq<byte>, k: nat, t: seq<byte>)
    requires k <= |source| && at + k <= |s|
    ensures Overlay(Overlay(s, at, source[..k]), at + k, source[k..] + t) == Overlay(s, at, source + t)
  {
    assert source[..k] + (source[k..] + t) == source + t;
    OverlayTwice(s, at, source[..k], source[k..] + t);
  }

  /** Data that is there already can be laid down again. */
  lemma LaidAgain(s: seq<byte>, at: nat, source: seq<byte>, k: nat, t: seq<byte>)
    requires k <= |source| && at <= |s|
    ensures var now := Overlay(s, at, source + t); at + k <= |now| && Overlay(now, at + k, source[k..]) == now
  {
  }

  /** The first section's block is the last that the second section's first block can be. */
  lemma FirstBehind(raw: seq<byte>, now: seq<byte>, at: nat)
    requires SameFrom(raw, now, BlockEnd(at)) && BLOCK * (at / BLOCK + 1) <= |raw|
    ensures SameFrom(raw, now, BLOCK * (at / BLOCK + 1))
  {
    var e := BLOCK * (at / BLOCK + 1);
    assert BlockEnd(at) <= e;
    hide BlockEnd;
    SliceFrame(raw, now, BlockEnd(at), e, |raw|);
  }

  /** What the second section does, as it is seen from before the first */
  lemma MiddleEffect(c: Cipher, raw: seq<byte>, one: seq<byte>, two: seq<byte>, ss: nat, position: nat,
                     source: seq<byte>)
    requires Inverse(c) && Shape(ss) && source != [] && Fits(ss, position, |source|, |raw|)
    requires Mid(ss, position, |source|) > 0
    requires Laid(c, raw, one, position, source[..Head(ss, position, |source|)], Span(ss, Next(ss, position)))
    requires Finished(Job(c, one, Span(ss, Next(ss, position)), source[Head(ss, position, |source|)..], WindowSize(ss)),
                      two)
    ensures BytesWritten(c, raw, two, ss, position, source)
  {
    hide Span, Fit, Head, Next, Mid, Behind, Plain, Overlay, WindowSize, WriteReach, ReadReach, Inverse;
    hide BlockEnd, SameFrom, EndsWell, Finished, Laid, Fits, JobTail, JobEnd;
    var n := |source|;
    var k, at, width := Head(ss, position, n), Span(ss, Next(ss, position)), WindowSize(ss);
    var j := Job(c, one, at, source[k..], width);
    Parts(ss, position, n);
    PositionInside(c, raw, ss, position, n);
    WindowShape(ss);
    LaidIs(c, raw, one, position, source[..k], at);
    if MiddleEndsWell(ss, position, n) {
      WriteShowsData(j, two);
      assert source[k..] + [] == source[k..] && source + [] == source;
      LaidOn(Plain(c, raw), position, source, k, []);
    } else {
      MiddleReach(ss, position, n, |raw|);
      MiddleTail(c, raw, one, at, n - k, width);
      FinishedIs(j, two);
      LaidOn(Plain(c, raw), position, source, k, JobTail(j));
    }
  }

  lemma LaidIs(c: Cipher, raw: seq<byte>, now: seq<byte>, at: nat, d: seq<byte>, end: nat)
    requires Laid(c, raw, now, at, d, end)
    ensures at + |d| <= |Plain(c, raw)| && Plain(c, now) == Overlay(Plain(c, raw), at, d)
    ensures |now| == |raw| && SameFrom(raw, now, BlockEnd(end))
  {
  }

  lemma FinishedIs(j: Job, now: seq<byte>)
    requires Finished(j, now)
    ensures IsJob(j) && JobEnd(j) <= |j.raw| && j.at <= |Plain(j.cipher, j.raw)|
    ensures JobTail(j) == Tail(j.cipher, j.raw, j.at / BLOCK, j.at % BLOCK, j.at % BLOCK, |j.data|, j.width)
    ensures Plain(j.cipher, now) == Overlay(Plain(j.cipher, j.raw), j.at, j.data + JobTail(j))
  {
  }

  lemma MiddleReach(ss: nat, position: nat, n: nat, size: nat)
    requires Shape(ss) && Fits(ss, position, n, size) && Mid(ss, position, n) > 0
    ensures WindowSize(ss) % BLOCK == 0 && WindowSize(ss) >= BLOCK
    ensures WriteReach(Span(ss, Next(ss, position)), n - Head(ss, position, n), WindowSize(ss)) <= size
  {
    WindowShape(ss);
  }

  lemma MiddleTail(c: Cipher, raw: seq<byte>, one: seq<byte>, at: nat, n: nat, width: nat)
    requires BLOCK <= width && width % BLOCK == 0 && WriteReach(at, n, width) <= |raw|
    requires SameFrom(raw, one, BlockEnd(at))
    requires !EndsWell(at, n, width)
    ensures Tail(c, one, at / BLOCK, at % BLOCK, at % BLOCK, n, width)
         == Tail(c, raw, at / BLOCK, at % BLOCK, at % BLOCK, n, width)
  {
    hide Tail, BlockEnd, SameFrom, IntoWindow;
    FirstBehind(raw, one, at);
    LateTail(c, raw, one, at / BLOCK, at % BLOCK, n, width);
  }

  /** What the first two sections leave to the third */
  ghost predicate BeforeLast(c: Cipher, raw: seq<byte>, two: seq<byte>, ss: nat, position: nat, source: seq<byte>)
  {
    && Shape(ss) && source != [] && |two| == |raw| && Fits(ss, position, |source|, |raw|)
    && if Mid(ss, position, |source|) > 0 then BytesWritten(c, raw, two, ss, position, source)
       else Laid(c, raw, two, position, source[..Head(ss, position, |source|)], Span(ss, Next(ss, position)))
  }

  /** What the third section does, behind a second one or right behind the first */
  lemma LastEffect(c: Cipher, raw: seq<byte>, two: seq<byte>, now: seq<byte>, ss: nat, position: nat,
                   source: seq<byte>, end: nat)
    requires BeforeLast(c, raw, two, ss, position, source) && Behind(ss, position, |source|) < |source|
    requires var k := Behind(ss, position, |source|); Laid(c, two, now, position + k, source[k..], end)
    ensures BytesWritten(c, raw, now, ss, position, source)
  {
    hide Span, Fit, Head, Next, Mid, Behind, Plain, Overlay, WriteReach, ReadReach, Inverse, BlockEnd, SameFrom, Tail;
    hide EndsWell, Fits;
    var n := |source|;
    var t := BytesTail(c, raw, ss, position, n);
    Parts(ss, position, n);
    PositionInside(c, raw, ss, position, n);
    if Mid(ss, position, n) > 0 {
      LaidAgain(Plain(c, raw), position, source, Behind(ss, position, n), t);
    } else {
      assert source[Behind(ss, position, n)..] + [] == source[Behind(ss, position, n)..] && source + [] == source;
      LaidOn(Plain(c, raw), position, source, Head(ss, position, n), []);
    }
  }

  /** A transfer that ends in its first sector has no other section. */
  lemma FirstOnly(c: Cipher, raw: seq<byte>, now: seq<byte>, ss: nat, position: nat, source: seq<byte>, end: nat)
    requires Shape(ss) && source != [] && Fits(ss, position, |source|, |raw|)
    requires Head(ss, position, |source|) == |source|
    requires Laid(c, raw, now, position, source, end)
    ensures BytesWritten(c, raw, now, ss, position, source)
  {
    hide Span, Fit, Next, Behind, Plain, Overlay, WriteReach, ReadReach, BlockEnd, SameFrom, Tail, EndsWell, Fits, Head;
    hide Mid;
    Parts(ss, position, |source|);
    PositionInside(c, raw, ss, position, |source|);
    assert source + [] == source;
  }

  /** Section 2 */
  method WriteMiddle(io: CryptoInterface, source: seq<byte>, position: nat, ghost raw: seq<byte>) returns (ok: bool)
    requires io.Valid() && source != [] && Mid(io.lower.sectorSize, position, |source|) > 0
    modifies io.lower
    ensures |io.lower.bytes| == |old(io.lower.bytes)|
    ensures var ss, k := io.lower.sectorSize, Head(io.lower.sectorSize, position, |source|);
            io.lower.reliable && |raw| == |io.lower.bytes| && Fits(ss, position, |source|, |raw|)
            && Laid(io.cipher, raw, old(io.lower.bytes), position, source[..k], Span(ss, Next(ss, position))) ==>
              ok && BytesWritten(io.cipher, raw, io.lower.bytes, ss, position, source)
  {
    var ss, n := io.lower.sectorSize, |source|;
    ghost var one := io.lower.bytes;
    Parts(ss, position, n);
    hide Span, Fit, Head, Next, Mid, Plain, Overlay, WindowSize, WriteReach, ReadReach, Laid, BytesWritten, JobEnd;
    hide Behind, Finished, EndsWell;
    var k := Head(ss, position, n);
    ghost var j := Job(io.cipher, one, Span(ss, Next(ss, position)), source[k..], WindowSize(ss));
    WindowShape(ss);
    JobReach(j);
    var r := io.WriteSector(source[k..], Next(ss, position));
    ok := r == 0;
    if io.lower.reliable && |raw| == |one| && Fits(ss, position, n, |raw|)
       && Laid(io.cipher, raw, one, position, source[..k], Span(ss, Next(ss, position))) {
      MiddleEffect(io.cipher, raw, one, io.lower.bytes, ss, position, source);
    }
  }

  /** The sector of the third section, and that the disk goes on behind it */
  lemma LastSector(ss: nat, position: nat, n: nat)
    requires ss > 0 && Behind(ss, position, n) < n
    ensures Span(ss, Next(ss, position) + Mid(ss, position, n)) == position + Behind(ss, position, n)
    ensures n - Behind(ss, position, n) < ss
  {
    Parts(ss, position, n);
    hide Span, Fit, Next, Mid;
  }

  lemma LastReach(c: Cipher, raw: seq<byte>, two: seq<byte>, ss: nat, position: nat, source: seq<byte>)
    requires BeforeLast(c, raw, two, ss, position, source) && Behind(ss, position, |source|) < |source|
    ensures Shape(ss) && PatchReach(ss, Next(ss, position) + Mid(ss, position, |source|)) <= |two|
  {
    hide Span, Fit, Head, Next, Mid, Laid, BytesWritten, PatchReach, WriteReach, Behind;
  }

  /** Section 3 */
  method WriteLast(io: CryptoInterface, source: seq<byte>, position: nat, ghost raw: seq<byte>) returns (ok: bool)
    requires io.Valid() && source != [] && Behind(io.lower.sectorSize, position, |source|) < |source|
    modifies io.lower
    ensures |io.lower.bytes| == |old(io.lower.bytes)|
    ensures io.lower.reliable
            && BeforeLast(io.cipher, raw, old(io.lower.bytes), io.lower.sectorSize, position, source) ==>
              ok && BytesWritten(io.cipher, raw, io.lower.bytes, io.lower.sectorSize, position, source)
  {
    hide CryptoInterface.Valid, Span, Fit, Head, Next, Mid, Shape, PatchReach, Laid, BytesWritten, Behind, BeforeLast;
    hide Fits;
    var ss, n := io.lower.sectorSize, |source|;
    ghost var two := io.lower.bytes;
    ghost var before := BeforeLast(io.cipher, raw, two, ss, position, source);
    LastSector(ss, position, n);
    if before { LastReach(io.cipher, raw, two, ss, position, source); }
    var k, sector := Behind(ss, position, n), Next(ss, position) + Mid(ss, position, n);
    ok := PatchOne(io, sector, 0, source[k..], true);
    if io.lower.reliable && before {
      LastEffect(io.cipher, raw, two, io.lower.bytes, ss, position, source, Span(ss, sector) + ss);
    }
  }

  /** The first section's bytes fit into their sector, and the second starts behind it. */
  lemma FirstSector(ss: nat, position: nat, n: nat)
    requires ss > 0 && n > 0
    ensures B.StartLocation(ss, position) + Head(ss, position, n) <= ss
    ensures Span(ss, Next(ss, position)) == Span(ss, Fit(ss, position)) + ss
    ensures Behind(ss, position, n) == n && Mid(ss, position, n) == 0 ==> Head(ss, position, n) == n
  {
    SpanAdd(ss, Fit(ss, position), 1);
    SpanAdd(ss, 0, 0);
    hide Span, Fit;
  }

  lemma StartsLast(c: Cipher, raw: seq<byte>, two: seq<byte>, ss: nat, position: nat, source: seq<byte>)
    requires Shape(ss) && source != [] && |two| == |raw| && Fits(ss, position, |source|, |raw|)
    requires if Mid(ss, position, |source|) > 0 then BytesWritten(c, raw, two, ss, position, source)
             else Laid(c, raw, two, position, source[..Head(ss, position, |source|)], Span(ss, Next(ss, position)))
    ensures BeforeLast(c, raw, two, ss, position, source)
  {
  }

  lemma FirstReach(ss: nat, position: nat, n: nat, size: nat)
    requires Shape(ss) && Fits(ss, position, n, size)
    ensures PatchReach(ss, Fit(ss, position)) <= size
  {
  }

  /**
   * ctr_crypto_interface_write: the second section passes on all that is left,
   * and the result of the write in section 3 is not looked at.
   */
  method Write(io: CryptoInterface, source: seq<byte>, position: nat) returns (ok: bool)
    requires io.Valid()
    modifies io.lower
    ensures |io.lower.bytes| == |old(io.lower.bytes)|
    ensures source == [] ==> ok && io.lower.bytes == old(io.lower.bytes)
    ensures source != [] && io.lower.reliable && Fits(io.lower.sectorSize, position, |source|, |io.lower.bytes|) ==>
              ok && BytesWritten(io.cipher, old(io.lower.bytes), io.lower.bytes, io.lower.sectorSize, position, source)
  {
    hide CryptoInterface.Valid, Shape, Fits, Span, Fit, Head, Mid, Behind, Plain, Overlay, WriteReach, ReadReach;
    hide PatchReach, Laid, BytesWritten, BeforeLast, Next, B.StartLocation;
    if source == [] { return true; }
    var ss, n := io.lower.sectorSize, |source|;
    ghost var raw := io.lower.bytes;
    Parts(ss, position, n);
    FirstSector(ss, position, n);
    if Fits(ss, position, n, |raw|) { FirstReach(ss, position, n, |raw|); }
    ok := PatchOne(io, Fit(ss, position), B.StartLocation(ss, position), source[..Head(ss, position, n)], false);
    if !ok { return; }
    ok := WriteRest(io, source, position, raw);
  }

  /** Sections 2 and 3 */
  method WriteRest(io: CryptoInterface, source: seq<byte>, position: nat, ghost raw: seq<byte>) returns (ok: bool)
    requires io.Valid() && source != []
    modifies io.lower
    ensures |io.lower.bytes| == |old(io.lower.bytes)|
    ensures var ss, k := io.lower.sectorSize, Head(io.lower.sectorSize, position, |source|);
            && io.lower.reliable && |old(io.lower.bytes)| == |raw| && Fits(ss, position, |source|, |raw|)
            && Laid(io.cipher, raw, old(io.lower.bytes), position, source[..k], Span(ss, Next(ss, position)))
            ==> ok && BytesWritten(io.cipher, raw, io.lower.bytes, ss, position, source)
  {
    hide CryptoInterface.Valid, Shape, Fits, Span, Fit, Head, Mid, Behind, Plain, Overlay, WriteReach, ReadReach;
    hide PatchReach, Laid, BytesWritten, BeforeLast, Next, B.StartLocation;
    var ss, n := io.lower.sectorSize, |source|;
    Parts(ss, position, n);
    FirstSector(ss, position, n);
    ghost var one, k := io.lower.bytes, Head(ss, position, n);
    ok := true;
    if Mid(ss, position, n) > 0 {
      ok := WriteMiddle(io, source, position, raw);
      if !ok { return; }
    }
    ghost var two := io.lower.bytes;
    ghost var laid := |one| == |raw| && Fits(ss, position, n, |raw|)
                      && Laid(io.cipher, raw, one, position, source[..k], Span(ss, Next(ss, position)));
    if Behind(ss, position, n) != n {
      if io.lower.reliable && laid { StartsLast(io.cipher, raw, two, ss, position, source); }
      ok := WriteLast(io, source, position, raw);
    } else if Mid(ss, position, n) == 0 && laid {
      assert source[..k] == source;
      FirstOnly(io.cipher, raw, one, ss, position, source, Span(ss, Next(ss, position)));
    }
  }

  /* Reading */

  /** The second section overruns: it starts and ends inside a block, and what is left is longer than its sectors. */
  predicate MiddleOverruns(ss: nat, position: nat, n: nat)
    requires ss > 0
  {
    Mid(ss, position, n) > 0
    && Overruns(Span(ss, Next(ss, position)), n - Head(ss, position, n), Span(ss, Mid(ss, position, n)))
  }

  /** The disk goes on behind the bytes as far as the transfer reads. */
  predicate ReadFits(ss: nat, position: nat, n: nat, size: nat)
    requires ss > 0
  {
    var k, mid, next := Head(ss, position, n), Mid(ss, position, n), Next(ss, position);
    && ReadReach(ss, Fit(ss, position), ss, ss) <= size
    && (mid > 0 ==> ReadReach(ss, next, n - k, Span(ss, mid)) <= size)
    && (Behind(ss, position, n) < n ==> ReadReach(ss, next + mid, ss, ss) <= size)
  }

  /** Some bytes of a sector, behind those that were read before */
  method ReadPart(io: CryptoInterface, buffer: array<byte>, position: nat, done: nat, sector: nat, start: nat, k: nat,
                  ghost was: seq<byte>)
    returns (ok: bool)
    requires io.Valid() && start + k <= io.lower.sectorSize && done + k <= buffer.Length
    requires Span(io.lower.sectorSize, sector) + start == position + done
    requires B.Got(Plain(io.cipher, io.lower.bytes), was, buffer[..], position, done)
    modifies buffer
    ensures ok ==> B.Got(Plain(io.cipher, io.lower.bytes), was, buffer[..], position, done + k)
    ensures var ss := io.lower.sectorSize;
            io.lower.reliable && ReadReach(ss, sector, ss, ss) <= |io.lower.bytes| ==> ok
  {
    hide Span, Plain, Overlay, ReadReach, B.Got;
    var ss := io.lower.sectorSize;
    var buf := new byte[ss];
    ok := ReadOne(io, buf, sector);
    if ok {
      ghost var plain, now := Plain(io.cipher, io.lower.bytes), buffer[..];
      B.SectorSlice(plain, Span(ss, sector), ss, start, k);
      B.GotMore(plain, was, now, position, done, k);
      MemCpy(buffer, done, buf[start..start + k]);
    }
  }

  /** Whole sectors into the rest of the buffer, of which `size` bytes are to be used */
  method ReadRun(io: CryptoInterface, buffer: array<byte>, position: nat, done: nat, size: nat, sector: nat,
                 ghost was: seq<byte>)
    returns (r: Outcome)
    requires io.Valid() && done + size <= buffer.Length && Fit(io.lower.sectorSize, size) > 0
    requires Span(io.lower.sectorSize, sector) == position + done
    requires B.Got(Plain(io.cipher, io.lower.bytes), was, buffer[..], position, done)
    modifies buffer
    ensures var ss, at := io.lower.sectorSize, position + done;
            var n := Span(ss, Fit(ss, size));
            && (r == Done ==>
                  && !Overruns(at, size, n)
                  && B.Got(Plain(io.cipher, io.lower.bytes), was, buffer[..], position, done + n))
            && (r == Overrun ==> Overruns(at, size, n))
            && (io.lower.reliable && ReadReach(ss, sector, size, n) <= |io.lower.bytes| ==> r != Failed)
  {
    var ss := io.lower.sectorSize;
    var mid := Fit(ss, size);
    MovedAll(ss, size, mid);
    SpanAdd(ss, 0, 1);
    SpanMonotone(ss, 1, mid);
    hide Span, Fit, Moved, Plain, Overlay, ReadReach, Overruns, B.Got;
    var rest := new byte[size];
    r := io.ReadSector(rest, sector, mid);
    if r == Done {
      B.GotMore(Plain(io.cipher, io.lower.bytes), was, buffer[..], position, done, Span(ss, mid));
      MemCpy(buffer, done, rest[..Span(ss, mid)]);
    }
  }

  /**
   * ctr_crypto_interface_read: the bytes at that position, or an overrun of the
   * second section, in exactly its cases. The second section's buffer is the
   * rest of the caller's.
   */
  method Read(io: CryptoInterface, buffer: array<byte>, position: nat, count: nat) returns (r: Outcome)
    requires io.Valid()
    modifies buffer
    ensures var n := Min(count, buffer.Length);
            && (n == 0 ==> r == Done && buffer[..] == old(buffer[..]))
            && (n > 0 && r == Done ==> !MiddleOverruns(io.lower.sectorSize, position, n)
                                       && B.Got(Plain(io.cipher, io.lower.bytes), old(buffer[..]), buffer[..],
                                                position, n))
            && (r == Overrun ==> n > 0 && MiddleOverruns(io.lower.sectorSize, position, n))
            && (io.lower.reliable && ReadFits(io.lower.sectorSize, position, n, |io.lower.bytes|) ==> r != Failed)
  {
    var n := Min(count, buffer.Length);
    if n == 0 { return Done; }
    r := ReadSections(io, buffer, position, n);
  }

  method ReadSections(io: CryptoInterface, buffer: array<byte>, position: nat, n: nat) returns (r: Outcome)
    requires io.Valid() && 0 < n <= buffer.Length
    modifies buffer
    ensures r == Done ==> !MiddleOverruns(io.lower.sectorSize, position, n)
                          && B.Got(Plain(io.cipher, io.lower.bytes), old(buffer[..]), buffer[..], position, n)
    ensures r == Overrun ==> MiddleOverruns(io.lower.sectorSize, position, n)
    ensures io.lower.reliable && ReadFits(io.lower.sectorSize, position, n, |io.lower.bytes|) ==> r != Failed
  {
    hide CryptoInterface.Valid, Span, Fit, Plain, B.Got, ReadReach, Overruns, B.StartLocation, Head, Next, Mid, Behind;
    hide Shape;
    var ss := io.lower.sectorSize;
    ghost var was, plain := buffer[..], Plain(io.cipher, io.lower.bytes);
    Parts(ss, position, n);
    FirstSector(ss, position, n);
    MidIs(ss, position, n);
    var done, mid, behind := Head(ss, position, n), Mid(ss, position, n), Behind(ss, position, n);
    var start := B.StartLocation(ss, position);
    var ok := ReadFirst(io, buffer, position, Fit(ss, position), start, done);
    if !ok { return Failed; }
    if mid > 0 {
      r := ReadRun(io, buffer, position, done, n - done, Next(ss, position), was);
      if r != Done { return; }
    }
    if behind < n {
      ok := ReadPart(io, buffer, position, behind, Next(ss, position) + mid, 0, n - behind, was);
      if !ok { return Failed; }
    }
    return Done;
  }

  /** Section 1 */
  method ReadFirst(io: CryptoInterface, buffer: array<byte>, position: nat, sector: nat, start: nat, k: nat)
    returns (ok: bool)
    requires io.Valid() && start + k <= io.lower.sectorSize && k <= buffer.Length
    requires Span(io.lower.sectorSize, sector) + start == position
    modifies buffer
    ensures ok ==> B.Got(Plain(io.cipher, io.lower.bytes), old(buffer[..]), buffer[..], position, k)
    ensures var ss := io.lower.sectorSize;
            io.lower.reliable && ReadReach(ss, sector, ss, ss) <= |io.lower.bytes| ==> ok
  {
    hide Span, Plain, Overlay, ReadReach, B.Got;
    var ss := io.lower.sectorSize;
    var buf := new byte[ss];
    ok := ReadOne(io, buf, sector);
    if ok {
      ghost var plain, was := Plain(io.cipher, io.lower.bytes), buffer[..];
      B.SectorSlice(plain, Span(ss, sector), ss, start, k);
      B.GotFirst(plain, was, position, k);
      MemCpy(buffer, 0, buf[start..start + k]);
    }
  }

  lemma MidIs(ss: nat, position: nat, n: nat)
    requires ss > 0
    ensures Mid(ss, position, n) == Fit(ss, n - Head(ss, position, n))
    ensures Behind(ss, position, n) == Head(ss, position, n) + Span(ss, Mid(ss, position, n))
  {
  }

  /** With sectors made of whole blocks, and with sectors of 1, 8 or 16 bytes, no read overruns. */
  lemma MiddleFits(ss: nat, position: nat, n: nat)
    requires Shape(ss) && ss != 2 && ss != 4 && n > 0
    ensures !MiddleOverruns(ss, position, n)
  {
    var at, size, m := Span(ss, Next(ss, position)), n - Head(ss, position, n), Mid(ss, position, n);
    OverrunsIff(at, size, Span(ss, m));
    SpanAdd(ss, 0, 1);
    if m > 0 {
      SpanMonotone(ss, 1, m);
    }
    if ss % BLOCK == 0 {
      SpanBlocks(ss, Next(ss, position));
    } else if ss == 8 {
      SmallRests(ss, Next(ss, position));
    }
    hide Span;
  }

  /** Nine bytes from position 0 with sectors of four overrun. */
  lemma MiddleOverrunExample()
    ensures MiddleOverruns(4, 0, 9)
  {
    assert Fit(4, 0) == 0 && Fit(4, 5) == 1;
    assert Head(4, 0, 9) == 4 && Span(4, 1) == 4;
    OverrunsIff(4, 5, 4);
  }

  /* Which writes leave everything else alone */

  /** The client sees its bytes in their place, and nothing else has changed. */
  ghost predicate BytesClean(c: Cipher, raw: seq<byte>, ss: nat, position: nat, source: seq<byte>)
    requires Shape(ss) && source != [] && Fits(ss, position, |source|, |raw|)
  {
    PositionInside(c, raw, ss, position, |source|);
    Overlay(Plain(c, raw), position, source + BytesTail(c, raw, ss, position, |source|))
    == Overlay(Plain(c, raw), position, source)
  }

  /** Clean on every disk under every cipher */
  ghost predicate AlwaysClean(ss: nat, position: nat, source: seq<byte>)
    requires Shape(ss) && source != []
  {
    forall c: Cipher, raw: seq<byte> :: Inverse(c) && Fits(ss, position, |source|, |raw|) ==>
      BytesClean(c, raw, ss, position, source)
  }

  lemma CleanInstance(c: Cipher, raw: seq<byte>, ss: nat, position: nat, source: seq<byte>)
    requires Shape(ss) && source != [] && AlwaysClean(ss, position, source)
    requires Inverse(c) && Fits(ss, position, |source|, |raw|)
    ensures BytesClean(c, raw, ss, position, source)
  {
    hide BytesClean, Inverse, Fits;
  }

  /**
   * The writes that are clean on every disk under every cipher are exactly those
   * whose second section is empty or ends well.
   */
  lemma BytesCleanIff(ss: nat, position: nat, source: seq<byte>)
    requires Shape(ss) && source != []
    ensures MiddleEndsWell(ss, position, |source|) <==> AlwaysClean(ss, position, source)
  {
    hide BytesClean, MiddleEndsWell, Reach, Fits, Ramp, PlusOne, Inverse;
    if MiddleEndsWell(ss, position, |source|) {
      forall c: Cipher, raw: seq<byte> | Inverse(c) && Fits(ss, position, |source|, |raw|)
        ensures BytesClean(c, raw, ss, position, source)
      {
        BytesEndWell(c, raw, ss, position, source);
      }
    } else {
      var size := Reach(ss, position, |source|);
      PlusOneInverse();
      BytesSpoiled(size, ss, position, source);
      if AlwaysClean(ss, position, source) {
        CleanInstance(PlusOne(), Ramp(size), ss, position, source);
      }
    }
  }

  lemma BytesEndWell(c: Cipher, raw: seq<byte>, ss: nat, position: nat, source: seq<byte>)
    requires Shape(ss) && source != [] && Fits(ss, position, |source|, |raw|) && MiddleEndsWell(ss, position, |source|)
    ensures BytesClean(c, raw, ss, position, source)
  {
    hide Plain, Fits, MiddleEndsWell, Overlay;
    assert source + [] == source;
  }

  /** A size that is enough for a transfer */
  function Reach(ss: nat, position: nat, n: nat): (size: nat)
    requires Shape(ss)
    ensures Fits(ss, position, n, size)
  {
    WindowShape(ss);
    var k, mid, next := Head(ss, position, n), Mid(ss, position, n), Next(ss, position);
    PatchReach(ss, Fit(ss, position)) + WriteReach(Span(ss, next), n - k, WindowSize(ss)) + PatchReach(ss, next + mid)
  }

  /** On the counting disk, any other write changes the byte behind the data. */
  lemma BytesSpoiled(size: nat, ss: nat, position: nat, source: seq<byte>)
    requires Shape(ss) && source != [] && Fits(ss, position, |source|, size) && !MiddleEndsWell(ss, position, |source|)
    ensures !BytesClean(PlusOne(), Ramp(size), ss, position, source)
  {
    hide Plain, Tail, Span, Fit, PlusOne, Ramp;
    var n := |source|;
    var k, at := Head(ss, position, n), Span(ss, Next(ss, position));
    var s := Plain(PlusOne(), Ramp(size));
    var t := BytesTail(PlusOne(), Ramp(size), ss, position, n);
    WindowShape(ss);
    Parts(ss, position, n);
    PositionInside(PlusOne(), Ramp(size), ss, position, n);
    SpoiledTail(size, at / BLOCK, at % BLOCK, at % BLOCK, n - k, WindowSize(ss));
    assert Overlay(s, position, source + t)[position + n] == t[0];
    assert Overlay(s, position, source)[position + n] == s[position + n];
  }

  /** Whatever such a write is, there is a disk on which it succeeds and spoils a byte. */
  method Spoil(ss: nat, position: nat, source: seq<byte>) returns (io: CryptoInterface, ok: bool)
    requires Shape(ss) && source != [] && !MiddleEndsWell(ss, position, |source|)
    ensures ok && io.lower.sectorSize == ss && io.cipher == PlusOne()
    ensures Fits(ss, position, |source|, |io.lower.bytes|) && position + |source| <= |io.lower.bytes|
    ensures BytesWritten(PlusOne(), Ramp(|io.lower.bytes|), io.lower.bytes, ss, position, source)
    ensures var was := Plain(PlusOne(), Ramp(|io.lower.bytes|));
            position <= |was| && Plain(PlusOne(), io.lower.bytes) != Overlay(was, position, source)
  {
    hide Plain, Ramp, Fits, Reach, MiddleEndsWell, BytesTail, Overlay;
    var size := Reach(ss, position, |source|);
    PlusOneInverse();
    var lower := new SectorIo(Ramp(size), ss, true);
    io := new CryptoInterface(lower, PlusOne());
    BytesSpoiled(size, ss, position, source);
    PositionInside(PlusOne(), Ramp(size), ss, position, |source|);
    ok := Write(io, source, position);
  }

  /** Bytes that end with a block are written cleanly. */
  lemma BlockEndsWell(ss: nat, position: nat, n: nat)
    requires Shape(ss) && n > 0 && (position + n) % BLOCK == 0
    ensures MiddleEndsWell(ss, position, n)
  {
    var k, at := Head(ss, position, n), Span(ss, Next(ss, position));
    Parts(ss, position, n);
    hide Span, Fit, Head;
    assert k < n ==> at + (n - k) == position + n;
  }

  /** 1032 bytes from position 0 with sectors of 512: the second section is a write of 520 bytes. */
  lemma SpoiledExample()
    ensures !MiddleEndsWell(512, 0, 1032)
  {
    assert B.StartLocation(512, 0) == 0 && Head(512, 0, 1032) == 512;
    assert Fit(512, 0) == 0 && Fit(512, 520) == 1;
    assert Span(512, 1) == 512;
  }
}
