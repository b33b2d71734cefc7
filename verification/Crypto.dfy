/** ctr_crypto_interface: a device whose blocks are encrypted below, and plain above. */
module Crypto {
  import opened Arithmetic
  import opened Base
  import opened CipherBlocks
  import opened SectorDevice
  import opened Chunks
  import opened PlainReads

  /* gcd and lcm */

  predicate Divides(d: nat, n: nat)
    requires d > 0
  {
    n % d == 0
  }

  /** gcd by repeated subtraction */
  method Gcd(a0: nat, b0: nat) returns (g: nat)
    requires a0 > 0 && b0 > 0
    ensures g > 0 && Divides(g, a0) && Divides(g, b0)
    ensures forall d :: 0 < d && Divides(d, a0) && Divides(d, b0) ==> Divides(d, g)
  {
    var a, b := a0, b0;
    while a != b
      invariant a > 0 && b > 0
      invariant forall d :: 0 < d ==> (Divides(d, a) && Divides(d, b) <==> Divides(d, a0) && Divides(d, b0))
      decreases a + b
    {
      if a > b {
        SubtractStep(a, b);
        a := a - b;
      } else {
        SubtractStep(b, a);
        b := b - a;
      }
    }
    g := a;
    SelfDivides(g);
  }

  lemma SubtractStep(a: nat, b: nat)
    requires a > b > 0
    ensures forall d :: 0 < d ==> (Divides(d, a) && Divides(d, b) <==> Divides(d, a - b) && Divides(d, b))
  {
    forall d: nat | 0 < d
      ensures Divides(d, a) && Divides(d, b) <==> Divides(d, a - b) && Divides(d, b)
    {
      if b % d == 0 {
        ModSubtract(a, b, d);
      }
    }
  }

  /** lcm of the sector size and the block size is the larger of the two. */
  method Lcm(ss: nat, block: nat) returns (l: nat)
    requires Shape(ss) && block == BLOCK
    ensures l == Unit(ss)
  {
    var g := Gcd(ss, block);
    GcdOfShape(ss, g);
    l := ss / g * block;
  }

  lemma GcdOfShape(ss: nat, g: nat)
    requires Shape(ss) && g > 0 && Divides(g, ss) && Divides(g, BLOCK)
    requires forall d :: 0 < d && Divides(d, ss) && Divides(d, BLOCK) ==> Divides(d, g)
    ensures g == if ss >= BLOCK then BLOCK else ss
  {
    var m := if ss >= BLOCK then BLOCK else ss;
    assert Divides(m, ss) && Divides(m, BLOCK);
    assert Divides(m, g);
    DividesBound(g, m);
    DividesBound(m, g);
  }

  lemma DividesBound(d: nat, n: nat)
    requires d > 0 && n > 0
    ensures Divides(d, n) ==> d <= n
  {
    if n < d {
      assert n % d == n;
    }
  }

  /* The write window */

  /** write_window */
  class WriteWindow {
    const window: array<byte>
    const buffer: seq<byte>
    var windowOffset: nat
    var sector: int
    var block: nat
    var blockOffset: nat
    var bufferOffset: nat
    var currentSector: nat

    constructor (size: nat, buffer: seq<byte>, sector: nat)
      ensures window.Length == size && this.buffer == buffer && fresh(window)
      ensures windowOffset == 0 && bufferOffset == 0 && currentSector == sector
    {
      window := new byte[size](_ => 0);
      this.buffer := buffer;
      windowOffset, bufferOffset, currentSector := 0, 0, sector;
      this.sector, block, blockOffset := 0, 0, 0;
    }

    /** The window starts at block `block`; the device is read `drift` bytes further on, into `windowOffset`. */
    ghost predicate Placed(ss: nat, drift: nat)
      reads this
      ensures Placed(ss, drift) ==>
                && Shape(ss) && window.Length == WindowSize(ss) && blockOffset == 0 && windowOffset <= drift < BLOCK
                && sector >= 0 && Span(ss, sector) == BLOCK * block && Span(ss, currentSector) == BLOCK * block + drift
    {
      && Shape(ss) && window.Length == WindowSize(ss)
      && sector >= 0 && Span(ss, sector) == BLOCK * block && blockOffset == 0
      && Span(ss, currentSector) == BLOCK * block + drift && drift < BLOCK
      && (ss % BLOCK == 0 ==> drift == 0)
      && windowOffset <= drift && (exists k :: Span(ss, k) == windowOffset)
    }

    /** Only the first window holds anything before the data, and then there is no drift behind that. */
    ghost predicate Ready(ss: nat, drift: nat)
      reads this
      ensures Ready(ss, drift) ==> Placed(ss, drift) && bufferOffset < |buffer|
    {
      && Placed(ss, drift)
      && (windowOffset == 0 || windowOffset == drift)
      && bufferOffset < |buffer|
    }
  }

  /** ctr_crypto_interface: the device below, and the functions `input` and `output` of its key, mode and counter */
  class CryptoInterface {
    const lower: SectorIo
    const cipher: Cipher

    constructor (lower: SectorIo, cipher: Cipher)
      ensures this.lower == lower && this.cipher == cipher
    {
      this.lower, this.cipher := lower, cipher;
    }

    ghost predicate Valid()
      ensures Valid() ==> Shape(lower.sectorSize) && lower.sectorSize > 0 && Inverse(cipher)
    {
      Shape(lower.sectorSize) && Inverse(cipher)
    }

    /** input or output on `n` blocks of `buf` from `at` on, the first of them block number `first` */
    method CryptBlocks(f: Direction, buf: array<byte>, at: nat, first: nat, n: nat)
      requires at + BLOCK * n <= buf.Length
      modifies buf
      ensures buf[..] == old(buf[..])[..at] + Crypt(cipher, f, old(buf[..])[at..], first, n)
    {
      hide Overlay;
      ghost var head, s := buf[..][..at], buf[..][at..];
      var i := 0;
      assert Crypt(cipher, f, s, first, 0) == s;
      hide Crypt;
      while i < n
        invariant 0 <= i <= n
        invariant buf[..] == head + Crypt(cipher, f, s, first, i)
      {
        CryptBlock(f, buf, at, first, i, head, s);
        i := i + 1;
      }
    }

    method CryptBlock(f: Direction, buf: array<byte>, at: nat, first: nat, i: nat, ghost head: seq<byte>,
                      ghost s: seq<byte>)
      requires BLOCK * (i + 1) <= |s| && at == |head| && at + |s| == buf.Length
      requires buf[..] == head + Crypt(cipher, f, s, first, i)
      modifies buf
      ensures buf[..] == head + Crypt(cipher, f, s, first, i + 1)
    {
      hide *;
      CryptStep(cipher, f, s, first, i);
      OverlayShift(head, Crypt(cipher, f, s, first, i), BLOCK * i, Apply(cipher, f, first + i, BlockAt(s, i)));
      SliceShift(head, Crypt(cipher, f, s, first, i), BLOCK * i, BLOCK * i + BLOCK);
      var lo := at + BLOCK * i;
      var b: Block := buf[lo..lo + BLOCK];
      assert b == buf[..][lo..lo + BLOCK];
      MemCpy(buf, lo, Apply(cipher, f, first + i, b));
    }

    /** setup_window */
    method SetupWindow(w: WriteWindow, sector: nat) returns (ok: bool)
      requires Valid() && w.window.Length == WindowSize(lower.sectorSize)
      requires w.windowOffset == w.bufferOffset == 0 && lower.sectorSize <= |w.buffer|
      modifies w, w.window
      ensures w.Ready(lower.sectorSize, Span(lower.sectorSize, sector) % BLOCK)
      ensures w.windowOffset == Span(lower.sectorSize, sector) % BLOCK && w.bufferOffset == 0
      ensures BLOCK * w.block + w.windowOffset == Span(lower.sectorSize, sector)
      ensures ok ==> BLOCK * w.block + w.windowOffset <= |lower.bytes|
      ensures ok ==> w.window[..][..w.windowOffset] == lower.bytes[BLOCK * w.block..BLOCK * w.block + w.windowOffset]
      ensures lower.reliable && BLOCK * w.block + w.windowOffset <= |lower.bytes| ==> ok
    {
      var ss := lower.sectorSize;
      Backwards(ss, sector);
      WindowShape(ss);
      hide Span, CompleteBackwards, Moved, WindowSize, Shape, PrevRelativeChunk, Whole, Fit;
      assert Span(ss, CompleteBackwards(sector, ss, BLOCK)) < BLOCK;
      var prior := CompleteBackwards(sector, ss, BLOCK);
      w.sector := sector - prior;
      w.currentSector := sector;
      w.block := PrevRelativeChunk(w.currentSector, ss, BLOCK);
      w.blockOffset := Span(BLOCK, w.block) - Span(ss, sector - prior);
      w.windowOffset := Span(ss, prior);
      MovedAll(ss, w.window.Length, prior);
      ok := lower.ReadSector(w.window, 0, w.window.Length, sector - prior, prior);
    }

    /** The bytes of the first block that lie before the data are in the window. */
    ghost predicate Primed(w: WriteWindow)
      reads w, w.window, lower
      ensures Primed(w) ==>
                && w.windowOffset <= w.window.Length && BLOCK * w.block + w.windowOffset <= |lower.bytes|
                && w.window[..][..w.windowOffset] == lower.bytes[BLOCK * w.block..BLOCK * w.block + w.windowOffset]
    {
      && w.windowOffset <= w.window.Length && BLOCK * w.block + w.windowOffset <= |lower.bytes|
      && w.window[..][..w.windowOffset] == lower.bytes[BLOCK * w.block..BLOCK * w.block + w.windowOffset]
    }

    /** The read at the start of process_window: the rest of the window, from `currentSector` on */
    method FillWindow(w: WriteWindow, ghost drift: nat) returns (ok: bool)
      requires Valid() && w.Ready(lower.sectorSize, drift)
      modifies w.window
      ensures ok ==> BLOCK * w.block + drift - w.windowOffset + w.window.Length <= |lower.bytes|
      ensures ok && old(Primed(w)) ==>
                w.window[..] == WindowBytes(lower.bytes, w.block, drift, w.windowOffset, w.window.Length)
      ensures lower.reliable && BLOCK * w.block + drift - w.windowOffset + w.window.Length <= |lower.bytes| ==> ok
    {
      var ss := lower.sectorSize;
      ghost var k :| Span(ss, k) == w.windowOffset;
      ghost var was := w.window[..];
      WindowRest(ss, k);
      MovedAll(ss, w.window.Length - w.windowOffset, 0);
      NoDrift(w, ss, drift);
      ghost var primed := Primed(w);
      hide *;
      var size := w.window.Length - w.windowOffset;
      ok := lower.ReadSector(w.window, w.windowOffset, size, w.currentSector, Fit(ss, size));
      if ok && primed {
        FilledWindow(lower.bytes, was, w.window[..], w.block, drift, w.windowOffset, w.window.Length);
      }
    }

    lemma NoDrift(w: WriteWindow, ss: nat, drift: nat)
      requires w.Ready(ss, drift)
      ensures w.windowOffset == 0 || w.windowOffset == drift
      ensures ss % BLOCK == 0 ==> drift == 0
    {
    }

    /** input or output on `n` blocks of the window */
    method CryptWindow(f: Direction, w: WriteWindow, n: nat)
      requires w.blockOffset == 0 && BLOCK * n <= w.window.Length
      modifies w.window
      ensures w.window[..] == Crypt(cipher, f, old(w.window[..]), w.block, n)
    {
      hide Crypt;
      ghost var win := w.window[..];
      assert win[0..] == win;
      CryptBlocks(f, w.window, w.blockOffset, w.block, n);
    }

    /** process_window: decrypt the part of the window that the data does not overwrite, then copy the data in. */
    method PutData(w: WriteWindow, data: seq<byte>)
      requires w.blockOffset == 0 && w.windowOffset < BLOCK <= w.window.Length
      requires w.windowOffset + |data| <= w.window.Length
      modifies w.window
      ensures w.window[..] == Filled(cipher, old(w.window[..]), w.block, w.windowOffset, data)
    {
      BlocksBound(w.windowOffset, BLOCK);
      hide Crypt, Overlay, Blocks;
      var blocks := Blocks(w.windowOffset - w.blockOffset);
      if blocks == 0 { blocks := 1; }
      CryptWindow(Output, w, blocks);
      MemCpy(w.window, w.windowOffset, data);
    }

    /** The middle of process_window: put the data into the window and encrypt the blocks it touches. */
    method SealWindow(w: WriteWindow, data: seq<byte>) returns (blocks: nat)
      requires w.blockOffset == 0 && w.windowOffset < BLOCK <= w.window.Length
      requires w.windowOffset + |data| <= w.window.Length && BLOCK * Blocks(w.windowOffset + |data|) <= w.window.Length
      modifies w.window
      ensures blocks == Blocks(w.windowOffset + |data|)
      ensures w.window[..] == Sealed(cipher, old(w.window[..]), w.block, w.windowOffset, data)
    {
      hide *;
      ghost var win := w.window[..];
      PutData(w, data);
      blocks := Blocks(w.windowOffset + |data| - w.blockOffset);
      CryptWindow(Input, w, blocks);
      SealedIs(cipher, win, w.block, w.windowOffset, data);
    }

    /** The write at the end of process_window, which takes whole sectors along */
    method FlushWindow(w: WriteWindow, blocks: nat) returns (ok: bool)
      requires Valid() && Shape(lower.sectorSize) && w.window.Length == WindowSize(lower.sectorSize)
      requires BLOCK * blocks <= w.window.Length && w.sector >= 0 && Span(lower.sectorSize, w.sector) == BLOCK * w.block
      modifies lower
      ensures |lower.bytes| == |old(lower.bytes)|
      ensures BLOCK * blocks <= Covering(lower.sectorSize, blocks) <= w.window.Length
      ensures lower.sectorSize % BLOCK == 0 || Covering(lower.sectorSize, blocks) == BLOCK * blocks
      ensures ok ==> BLOCK * w.block + Covering(lower.sectorSize, blocks) <= |lower.bytes| &&
                     lower.bytes == Overlay(old(lower.bytes), BLOCK * w.block,
                                            w.window[..][..Covering(lower.sectorSize, blocks)])
      ensures lower.reliable && BLOCK * w.block + w.window.Length <= |lower.bytes| ==> ok
    {
      var ss := lower.sectorSize;
      CoveringShape(ss, blocks);
      hide Span, Whole, WindowSize, Overlay;
      var sectorsToCopy := GetChunkFollowing(BLOCK * blocks, ss);
      var n := Span(ss, sectorsToCopy);
      ok := lower.WriteSector(w.window[..n], w.sector);
      assert w.window[..n] == w.window[..][..n] == w.window[..][..n][..n];
    }

    /** The data into the window, and the window onto the device */
    method StoreWindow(w: WriteWindow, data: seq<byte>, ghost drift: nat) returns (ok: bool)
      requires Valid() && w.Ready(lower.sectorSize, drift) && 0 < |data| && w.windowOffset + |data| <= w.window.Length
      requires BLOCK * w.block + drift - w.windowOffset + w.window.Length <= |lower.bytes|
      modifies w.window, lower
      ensures |lower.bytes| == |old(lower.bytes)|
      ensures lower.reliable ==> ok
      ensures BLOCK * Blocks(w.windowOffset + |data|) <= w.window.Length
      ensures ok && old(w.window[..] == WindowBytes(lower.bytes, w.block, drift, w.windowOffset, w.window.Length)) ==>
                WindowWritten(cipher, old(lower.bytes), lower.bytes, w.block, drift,
                              w.windowOffset, data, w.window.Length)
    {
      hide WriteWindow.Placed, WindowWritten, WindowBytes, Blocks, WindowSize, Shape, Span, Fit, Covering, Sealed;
      hide Crypt;
      ghost var raw, win := lower.bytes, w.window[..];
      WindowShape(lower.sectorSize);
      BlocksBound(w.windowOffset + |data|, w.window.Length);
      NoDrift(w, lower.sectorSize, drift);
      var blocks := SealWindow(w, data);
      ok := FlushWindow(w, blocks);
      if ok && win == WindowBytes(raw, w.block, drift, w.windowOffset, w.window.Length) {
        WritesWindow(cipher, raw, lower.bytes, w.block, drift, w.windowOffset, data, w.window.Length,
                     Covering(lower.sectorSize, blocks));
      }
    }

    /** update_window */
    method UpdateWindow(w: WriteWindow, processed: nat, ghost drift: nat)
      requires Valid() && w.Placed(lower.sectorSize, drift)
      requires w.windowOffset <= Span(lower.sectorSize, processed) <= w.window.Length
      modifies w, w.window
      ensures w.bufferOffset == old(w.bufferOffset) && w.currentSector == old(w.currentSector) + processed
      ensures w.block == PrevRelativeChunk(w.currentSector, lower.sectorSize, BLOCK)
      ensures var was, rest := old(w.window[..]), w.window.Length - Span(lower.sectorSize, processed);
              && w.blockOffset == w.windowOffset == rest
              && w.sector == old(w.sector) + processed - GetChunk(rest, lower.sectorSize)
              && w.window[..] == Overlay(was, 0, was[old(w.windowOffset)..old(w.windowOffset) + rest])
      ensures Span(lower.sectorSize, processed) == w.window.Length ==>
                w.Placed(lower.sectorSize, drift) && w.windowOffset == 0
                && w.block == old(w.block) + w.window.Length / BLOCK
    {
      var ss := lower.sectorSize;
      var remaining := w.window.Length - Span(ss, processed);
      NextWindow(ss, w.sector, w.currentSector, processed, w.block, drift);
      hide Span, WindowSize, PrevRelativeChunk, GetChunk, Shape, Overlay;
      MemMove(w.window, w.windowOffset, remaining);
      w.currentSector := w.currentSector + processed;
      w.sector := w.sector + processed - GetChunk(remaining, ss);
      w.block := PrevRelativeChunk(w.currentSector, ss, BLOCK);
      w.blockOffset := remaining;
      w.windowOffset := remaining;
    }

    /** process_window up to the write: -1 for a failed read, -2 for a failed write */
    method RewriteWindow(w: WriteWindow, data: seq<byte>, ghost drift: nat) returns (r: int)
      requires Valid() && w.Ready(lower.sectorSize, drift) && 0 < |data| && w.windowOffset + |data| <= w.window.Length
      modifies w.window, lower
      ensures |lower.bytes| == |old(lower.bytes)| && -2 <= r <= 0
      ensures lower.reliable && BLOCK * w.block + drift - w.windowOffset + w.window.Length <= |lower.bytes| ==> r == 0
      ensures BLOCK * Blocks(w.windowOffset + |data|) <= w.window.Length
      ensures r == 0 ==> BLOCK * w.block + drift - w.windowOffset + w.window.Length <= |lower.bytes|
      ensures r == 0 && old(Primed(w)) ==>
                WindowWritten(cipher, old(lower.bytes), lower.bytes, w.block, drift,
                              w.windowOffset, data, w.window.Length)
    {
      hide *;
      WindowShape(lower.sectorSize);
      BlocksBound(w.windowOffset + |data|, w.window.Length);
      var ok := FillWindow(w, drift);
      if !ok { return -1; }
      ok := StoreWindow(w, data, drift);
      if !ok { return -2; }
      return 0;
    }

    /** The end of process_window: on to the next window, 1 when there is nothing left for it */
    method AdvanceWindow(w: WriteWindow, amount: nat, ghost drift: nat) returns (r: int)
      requires Valid() && w.Ready(lower.sectorSize, drift)
      requires amount == Min(w.window.Length - w.windowOffset, |w.buffer| - w.bufferOffset)
      modifies w, w.window
      ensures w.bufferOffset == old(w.bufferOffset) + amount
      ensures r == if w.bufferOffset == |w.buffer| then 1 else 0
      ensures r == 0 ==> w.Ready(lower.sectorSize, drift) && w.windowOffset == 0
                         && w.block == old(w.block) + w.window.Length / BLOCK
    {
      hide Span, Fit, WindowSize, Shape, CryptoInterface.Valid;
      ProcessedSectors(w, lower.sectorSize, drift, amount);
      w.bufferOffset := w.bufferOffset + amount;
      var processed := Fit(lower.sectorSize, amount + w.windowOffset);
      UpdateWindow(w, processed, drift);
      r := if w.bufferOffset >= |w.buffer| then 1 else 0;
    }

    lemma ProcessedSectors(w: WriteWindow, ss: nat, drift: nat, amount: nat)
      requires w.Placed(ss, drift) && w.windowOffset + amount <= w.window.Length
      ensures w.windowOffset <= Span(ss, Fit(ss, amount + w.windowOffset)) <= w.window.Length
      ensures w.windowOffset + amount == w.window.Length ==>
                Span(ss, Fit(ss, amount + w.windowOffset)) == w.window.Length
    {
      ghost var k :| Span(ss, k) == w.windowOffset;
      var processed := Fit(ss, amount + w.windowOffset);
      WindowShape(ss);
      assert Whole(ss, w.window.Length) == Span(ss, Fit(ss, w.window.Length));
      hide Span, WindowSize, Shape, Fit, WriteWindow.Placed;
      if k <= processed {
        SpanMonotone(ss, k, processed);
      } else {
        SpanMonotone(ss, processed + 1, k);
        SpanAdd(ss, processed, 1);
      }
    }

    /** process_window: `data` is what it copies from the buffer. */
    method ProcessWindow(w: WriteWindow, ghost data: seq<byte>, ghost drift: nat) returns (r: int)
      requires Valid() && w.Ready(lower.sectorSize, drift)
      requires data == Portion(w.buffer, w.bufferOffset, w.window.Length - w.windowOffset)
      modifies w, w.window, lower
      ensures |lower.bytes| == |old(lower.bytes)| && -2 <= r <= 1
      ensures lower.reliable && old(BLOCK * w.block + drift - w.windowOffset) + w.window.Length <= |lower.bytes| ==>
                r >= 0
      ensures r >= 0 ==> w.bufferOffset == old(w.bufferOffset) + |data| && (r == 1 <==> w.bufferOffset == |w.buffer|)
      ensures r == 0 ==> w.Ready(lower.sectorSize, drift) && w.windowOffset == 0
                         && w.block == old(w.block) + w.window.Length / BLOCK
      ensures r >= 0 ==>
                && BLOCK * Blocks(old(w.windowOffset) + |data|) <= w.window.Length
                && old(BLOCK * w.block + drift - w.windowOffset) + w.window.Length <= |lower.bytes|
      ensures r >= 0 && old(Primed(w)) ==>
                WindowWritten(cipher, old(lower.bytes), lower.bytes, old(w.block), drift,
                              old(w.windowOffset), data, w.window.Length)
    {
      hide CryptoInterface.Valid, CryptoInterface.Primed, WriteWindow.Ready, WriteWindow.Placed;
      hide WindowWritten, Portion, Blocks, WindowSize, Shape, Span, Fit;
      WindowShape(lower.sectorSize);
      var amount := w.window.Length - w.windowOffset;
      if amount > |w.buffer| - w.bufferOffset { amount := |w.buffer| - w.bufferOffset; }
      PortionIs(w.buffer, w.bufferOffset, w.window.Length - w.windowOffset, amount);
      r := RewriteWindow(w, w.buffer[w.bufferOffset..w.bufferOffset + amount], drift);
      if r == 0 {
        r := AdvanceWindow(w, amount, drift);
      }
    }

    /** Between two calls of process_window */
    ghost predicate Pending(w: WriteWindow, j: Job)
      reads w, w.window, lower
      ensures Pending(w, j) ==> w.Ready(lower.sectorSize, j.at % BLOCK) && Primed(w) && |lower.bytes| == |j.raw|
    {
      && w.Ready(lower.sectorSize, j.at % BLOCK) && Primed(w) && j.cipher == cipher && j.data == w.buffer
      && j.width == w.window.Length
      && Halfway(j, lower.bytes, w.bufferOffset, w.block, w.windowOffset)
    }

    /** One call of process_window as a step of the whole write */
    method ProcessPending(w: WriteWindow, ghost pending: bool, ghost j: Job, ghost drift: nat) returns (r: int)
      requires Valid() && w.Ready(lower.sectorSize, drift)
      requires pending ==> Pending(w, j) && drift == j.at % BLOCK
      modifies w, w.window, lower
      ensures |lower.bytes| == |old(lower.bytes)| && -2 <= r <= 1
      ensures r == 0 ==> w.Ready(lower.sectorSize, drift) && old(w.bufferOffset) < w.bufferOffset
      ensures r >= 0 ==> old(w.block) * BLOCK + w.window.Length <= |lower.bytes|
      ensures pending && r == 0 ==> Pending(w, j)
      ensures pending && r == 1 ==> Finished(j, lower.bytes)
      ensures pending && lower.reliable && JobEnd(j) <= |j.raw| ==> r >= 0
    {
      hide CryptoInterface.Valid, CryptoInterface.Pending, CryptoInterface.Primed, WriteWindow.Ready;
      hide WriteWindow.Placed, Span, WindowSize, Shape;
      hide Halfway, Finished, WindowWritten, Portion, IsJob, JobEnd, Blocks;
      ghost var p, first, done, now := w.windowOffset, w.block, w.bufferOffset, lower.bytes;
      ghost var data := Portion(w.buffer, done, w.window.Length - p);
      if pending { PendingFacts(w, j); }
      r := ProcessWindow(w, data, drift);
      if pending && r >= 0 {
        NextOrLast(j, now, lower.bytes, done, first, p, data);
        if r == 0 { StartsPrimed(w, j); }
      }
    }

    lemma PendingFacts(w: WriteWindow, j: Job)
      requires Pending(w, j)
      ensures j.cipher == cipher && j.data == w.buffer && j.width == w.window.Length
      ensures Halfway(j, lower.bytes, w.bufferOffset, w.block, w.windowOffset)
      ensures IsJob(j) && BLOCK * w.block + j.at % BLOCK - w.windowOffset + j.width <= JobEnd(j)
    {
      ReadsTo(j, lower.bytes, w.bufferOffset, w.block, w.windowOffset);
    }

    lemma StartsPrimed(w: WriteWindow, j: Job)
      requires w.windowOffset == 0 && Halfway(j, lower.bytes, w.bufferOffset, w.block, 0)
      requires w.Ready(lower.sectorSize, j.at % BLOCK) && j.cipher == cipher && j.data == w.buffer
      requires j.width == w.window.Length
      ensures Pending(w, j)
    {
    }

    /**
     * ctr_crypto_interface_write_sector. What setup_window returns is not looked
     * at, so only a device that does not fail there shows the client the data.
     */
    method WriteSector(buffer: seq<byte>, sector: nat) returns (r: int)
      requires Valid()
      modifies lower
      ensures |lower.bytes| == |old(lower.bytes)| && -2 <= r <= 0
      ensures |buffer| < lower.sectorSize ==> r == 0 && lower.bytes == old(lower.bytes)
      ensures var ss := lower.sectorSize;
              var j := Job(cipher, old(lower.bytes), Span(ss, sector), buffer, WindowSize(ss));
              && IsJob(j)
              && (|buffer| >= lower.sectorSize && r == 0 && (lower.reliable || j.at % BLOCK == 0) ==>
                    Finished(j, lower.bytes))
              && (lower.reliable && JobEnd(j) <= |j.raw| ==> r == 0)
    {
      var ss := lower.sectorSize;
      WindowShape(ss);
      r := 0;
      if Fit(ss, |buffer|) != 0 {
        r := WriteWindows(buffer, sector);
      }
      if r == 1 { r := 0; }
    }

    /** The windows of one write, from setup_window to the last process_window */
    method WriteWindows(buffer: seq<byte>, sector: nat) returns (r: int)
      requires Valid() && lower.sectorSize <= |buffer|
      modifies lower
      ensures |lower.bytes| == |old(lower.bytes)| && -2 <= r <= 1 && r != 0
      ensures var ss := lower.sectorSize;
              var j := Job(cipher, old(lower.bytes), Span(ss, sector), buffer, WindowSize(ss));
              && IsJob(j)
              && (r == 1 && (lower.reliable || j.at % BLOCK == 0) ==> Finished(j, lower.bytes))
              && (lower.reliable && JobEnd(j) <= |j.raw| ==> r == 1)
    {
      hide WriteWindow.Ready, WriteWindow.Placed, Finished, Halfway, Span, JobEnd, Plain;
      var ss := lower.sectorSize;
      ghost var j := Job(cipher, lower.bytes, Span(ss, sector), buffer, WindowSize(ss));
      ghost var drift := j.at % BLOCK;
      WindowShape(ss);
      BufferSize(ss);
      var lcm := Lcm(ss, BLOCK);
      var sectorsPerBlock := BLOCK / ss;
      if sectorsPerBlock == 0 { sectorsPerBlock := 1; }
      var w := new WriteWindow(4 * lcm + sectorsPerBlock * ss, buffer, sector);
      var ok := SetupWindow(w, sector);
      EndBound(j);
      ghost var inside := j.at / BLOCK * BLOCK + j.width <= |j.raw|;
      ghost var pending := Primed(w) && inside;
      if inside {
        Within(cipher, j.raw, j.at);
      }
      if pending {
        Begin(j);
      }
      assert inside && (lower.reliable || drift == 0) ==> pending;
      r := ProcessPending(w, pending, j, drift);
      while r == 0
        invariant fresh(w) && fresh(w.window) && -2 <= r <= 1 && |lower.bytes| == |j.raw|
        invariant r >= 0 ==> inside
        invariant r == 0 ==> w.Ready(ss, drift)
        invariant r == 0 && pending ==> Pending(w, j)
        invariant r == 1 && pending ==> Finished(j, lower.bytes)
        invariant pending && lower.reliable && JobEnd(j) <= |j.raw| ==> r >= 0
        decreases if r == 0 then |w.buffer| - w.bufferOffset + 1 else 0
      {
        r := ProcessPending(w, pending, j, drift);
      }
    }

    /* Reading */

    /** get_misaligned_block: the block that holds sector `sector`, decrypted, wherever the sectors lie */
    method GetMisalignedBlock(sector: nat, buffer: array<byte>) returns (ok: bool)
      requires Valid() && buffer.Length == BLOCK
      modifies buffer
      ensures ok ==> var first := Span(lower.sectorSize, sector) / BLOCK;
                     && BLOCK * first + BLOCK <= |Plain(cipher, lower.bytes)|
                     && buffer[..] == BlockAt(Plain(cipher, lower.bytes), first)
      ensures lower.reliable && BlockReach(lower.sectorSize, sector) <= |lower.bytes| ==> ok
    {
      hide Span, CompleteBackwards, CompleteForwards, PrevRelativeChunk, BlockReach, Moved, Plain, Crypt, BlockAt;
      hide Overlay;
      var ss := lower.sectorSize;
      BlockSectors(ss, sector);
      var prior := CompleteBackwards(sector, ss, BLOCK);
      var forwards := CompleteForwards(sector, ss, BLOCK);
      if forwards == 0 { forwards := BLOCK; }
      var size := Span(ss, prior + forwards);
      var buf := new byte[size];
      ok := lower.ReadSector(buf, 0, size, sector - prior, prior + forwards);
      if ok {
        var first := PrevRelativeChunk(sector, ss, BLOCK);
        ghost var s := buf[..];
        FromFront(s, Crypt(cipher, Output, s, first, 1));
        FromFront(lower.bytes[BLOCK * first..BLOCK * first + size], s);
        DecryptedBlock(cipher, lower.bytes, s, first);
        var offset := Span(BLOCK, first) - Span(ss, sector - prior);
        CryptBlocks(Output, buf, offset, first, 1);
        OverlayAll(buffer[..], buf[offset..offset + BLOCK]);
        MemCpy(buffer, 0, buf[offset..offset + BLOCK]);
      }
    }

    /** Part 1 of a read: the first block, when the read starts inside it */
    method ReadHead(buffer: array<byte>, sector: nat, ghost was: seq<byte>, ghost n: nat)
      returns (ok: bool, amount: nat)
      requires Valid() && Span(lower.sectorSize, sector) % BLOCK != 0
      requires Shown(cipher, lower.bytes, was, buffer[..], Span(lower.sectorSize, sector), 0, n)
      modifies buffer
      ensures ok ==> amount == HeadAmount(Span(lower.sectorSize, sector), buffer.Length)
      ensures ok && amount <= n ==>
                Shown(cipher, lower.bytes, was, buffer[..], Span(lower.sectorSize, sector), amount, n)
      ensures lower.reliable && BlockReach(lower.sectorSize, sector) <= |lower.bytes| ==> ok
    {
      hide Span, Shape, BlockReach, BlockAt, Plain, Shown;
      var ss := lower.sectorSize;
      Backwards(ss, sector);
      BlockSpan(PrevRelativeChunk(sector, ss, BLOCK));
      amount := 0;
      var buf := new byte[BLOCK];
      ok := GetMisalignedBlock(sector, buf);
      if ok {
        var sectorPos, blockPos := Span(ss, sector), Span(BLOCK, PrevRelativeChunk(sector, ss, BLOCK));
        var offset := sectorPos - blockPos;
        amount := BLOCK - offset;
        if amount >= buffer.Length { amount := buffer.Length; }
        ghost var b: Block := buf[..];
        assert buf[offset..offset + amount] == b[offset..offset + amount];
        if amount <= n {
          ShowHead(cipher, lower.bytes, was, buffer[..], sectorPos, n, b, amount);
        }
        MemCpy(buffer, 0, buf[offset..offset + amount]);
      }
    }

    /** Part 3 of a read: the last block, when the read ends inside it */
    method ReadTail(buffer: array<byte>, block: nat, processed: nat, n: nat, ghost was: seq<byte>, ghost at: nat)
      returns (ok: bool)
      requires Valid() && Small(lower.sectorSize) && at + processed == BLOCK * block
      requires processed < n < processed + BLOCK
      requires Shown(cipher, lower.bytes, was, buffer[..], at, processed, n) && n <= buffer.Length
      modifies buffer
      ensures ok ==> Shown(cipher, lower.bytes, was, buffer[..], at, n, n)
      ensures lower.reliable && BLOCK * block + Span(lower.sectorSize, BLOCK) <= |lower.bytes| ==> ok
    {
      var ss := lower.sectorSize;
      TailSector(ss, block);
      hide Span, Shape, BlockReach, BlockAt, Plain, Shown, PrevRelativeChunk, Small;
      var buf := new byte[BLOCK];
      var blockSector := PrevRelativeChunk(block, BLOCK, ss);
      ok := GetMisalignedBlock(blockSector, buf);
      if ok {
        var offset := Span(ss, blockSector) - Span(BLOCK, block);
        var amount := BLOCK - offset;
        if amount >= n - processed { amount := n - processed; }
        ghost var b: Block := buf[..];
        assert buf[offset..offset + amount] == b[..n - processed];
        ShowTail(cipher, lower.bytes, was, buffer[..], at, processed, n, block, b);
        MemCpy(buffer, processed, buf[offset..offset + amount]);
      }
    }

    /** Part 2 of a read: the whole blocks, decrypted in place */
    method ReadMiddle(buffer: array<byte>, block: nat, processed: nat, blocks: nat, ghost n: nat, ghost was: seq<byte>,
                      ghost at: nat)
      requires at + processed == BLOCK * block && processed + BLOCK * blocks <= n <= buffer.Length
      requires Shown(cipher, lower.bytes, was, buffer[..], at, processed, n)
      modifies buffer
      ensures Shown(cipher, lower.bytes, was, buffer[..], at, processed + BLOCK * blocks, n)
    {
      hide *;
      ghost var buf := buffer[..];
      CryptBlocks(Output, buffer, processed, block, blocks);
      ShowMiddle(cipher, lower.bytes, was, buf, buffer[..], at, processed, n, block, blocks);
    }

    /** The three parts of a read, on the encrypted bytes in the buffer */
    method DecryptParts(buffer: array<byte>, sector: nat, n: nat, ghost count: nat, ghost was: seq<byte>)
      returns (r: Outcome)
      requires Valid() && 0 < n <= buffer.Length && n == Span(lower.sectorSize, count)
      requires Shown(cipher, lower.bytes, was, buffer[..], Span(lower.sectorSize, sector), 0, n)
      modifies buffer
      ensures var at := Span(lower.sectorSize, sector);
              && (r == Done ==>
                    !Overruns(at, buffer.Length, n) && Shown(cipher, lower.bytes, was, buffer[..], at, n, n))
              && (r == Overrun ==> Overruns(at, buffer.Length, n))
              && (lower.reliable && ReadReach(lower.sectorSize, sector, buffer.Length, n) <= |lower.bytes| ==>
                    r != Failed)
    {
      hide Span, CompleteBackwards, Shape, Small, BlockReach, ReadReach, Shown;
      var ss := lower.sectorSize;
      ghost var at := Span(ss, sector);
      PriorIff(ss, sector);
      WholeOrSmall(ss, sector, count);
      var ok, block, processed := true, PrevRelativeChunk(sector, ss, BLOCK), 0;
      if CompleteBackwards(sector, ss, BLOCK) != 0 {
        ok, processed := ReadHead(buffer, sector, was, n);
        if !ok { return Failed; }
        block := block + 1;
      }
      if processed > n { return Overrun; }
      BehindHead(at, buffer.Length, n);
      BehindMiddle(at, processed, n);
      assert processed < n ==> block == (at + processed) / BLOCK;
      ok := DecryptRest(buffer, block, processed, n, was, at);
      return if ok then Done else Failed;
    }

    /** Parts 2 and 3 */
    method DecryptRest(buffer: array<byte>, block0: nat, processed0: nat, n: nat, ghost was: seq<byte>, ghost at: nat)
      returns (ok: bool)
      requires Valid() && processed0 <= n <= buffer.Length && (processed0 < n ==> at + processed0 == BLOCK * block0)
      requires Shown(cipher, lower.bytes, was, buffer[..], at, processed0, n)
      requires Small(lower.sectorSize) || (at + n) % BLOCK == 0 || processed0 == n
      modifies buffer
      ensures ok ==> Shown(cipher, lower.bytes, was, buffer[..], at, n, n)
      ensures var tailEnd := (at + n) / BLOCK * BLOCK + Span(lower.sectorSize, BLOCK);
              lower.reliable && (processed0 < n && (at + n) % BLOCK != 0 ==> tailEnd <= |lower.bytes|) ==> ok
    {
      hide Span, Shown, Small;
      BehindMiddle(at, processed0, n);
      var block, processed := block0, processed0;
      var blocks := (n - processed) / BLOCK;
      ok := true;
      if blocks > 0 {
        ReadMiddle(buffer, block, processed, blocks, n, was, at);
        block := block + blocks;
        processed := processed + BLOCK * blocks;
      }
      if n - processed > 0 {
        ok := ReadTail(buffer, block, processed, n, was, at);
      }
    }

    /** ctr_crypto_interface_read_sector */
    method ReadSector(buffer: array<byte>, sector: nat, count: nat) returns (r: Outcome)
      requires Valid()
      modifies buffer
      ensures var at, n := Span(lower.sectorSize, sector), Moved(lower.sectorSize, buffer.Length, count);
              && (r == Done ==> !Overruns(at, buffer.Length, n) && buffer[n..] == old(buffer[n..]))
              && (r == Done && n > 0 ==>
                    at + n <= |Plain(cipher, lower.bytes)| && buffer[..n] == Plain(cipher, lower.bytes)[at..at + n])
              && (r == Overrun ==> Overruns(at, buffer.Length, n))
              && (lower.reliable && ReadReach(lower.sectorSize, sector, buffer.Length, n) <= |lower.bytes| ==>
                    r != Failed)
    {
      var ss := lower.sectorSize;
      var resultCount := Min(count, Fit(ss, buffer.Length));
      MovedCount(ss, buffer.Length, count);
      hide Span, Fit, ReadReach, Shape, Min, Moved, Plain;
      if resultCount == 0 { return Done; }
      var n := Span(ss, resultCount);
      ghost var was := buffer[..];
      var ok := lower.ReadSector(buffer, 0, buffer.Length, sector, resultCount);
      if !ok { return Failed; }
      r := DecryptParts(buffer, sector, n, resultCount, was);
    }
  }

  /** A read is done, or a device failed, or part 1 copied more than was asked for and bytes_left wrapped around. */
  datatype Outcome = Done | Failed | Overrun

  lemma BufferSize(ss: nat)
    requires Shape(ss)
    ensures 4 * Unit(ss) + (if BLOCK / ss == 0 then 1 else BLOCK / ss) * ss == WindowSize(ss)
  {
  }

  lemma FromFront(s: seq<byte>, t: seq<byte>)
    ensures s[0..] == s && s[..0] + t == t && t[0..] == t[0..|t|] == t
  {
  }

  lemma OverlayAll(was: seq<byte>, d: seq<byte>)
    requires |was| == |d|
    ensures Overlay(was, 0, d) == d
  {
  }

  /** memmove of `n` bytes to the front of an array */
  method MemMove(a: array<byte>, from: nat, n: nat)
    requires from + n <= a.Length
    modifies a
    ensures a[..] == Overlay(old(a[..]), 0, old(a[..])[from..from + n])
  {
    var i := 0;
    while i < n
      invariant 0 <= i <= n
      invariant forall j :: 0 <= j < i ==> a[j] == old(a[..])[from + j]
      invariant forall j :: i <= j < a.Length ==> a[j] == old(a[..])[j]
    {
      assert a[from + i] == old(a[..])[from + i];
      a[i] := a[from + i];
      i := i + 1;
    }
  }

  lemma FilledWindow(raw: seq<byte>, before: seq<byte>, win: seq<byte>, first: nat, drift: nat, p: nat, width: nat)
    requires p <= drift && (p == 0 || p == drift) && BLOCK * first + drift - p + width <= |raw|
    requires p <= |before| == |win| == width && before[..p] == raw[BLOCK * first..BLOCK * first + p]
    requires win[..p] == before[..p] && win[p..width] == raw[BLOCK * first + drift..BLOCK * first + drift + width - p]
    ensures win == WindowBytes(raw, first, drift, p, width)
  {
    hide WindowBytes;
    assert win == win[..p] + win[p..width];
    JoinedWindow(raw, first, drift, p, width);
  }

  /** The two parts that a window is read in */
  lemma JoinedWindow(raw: seq<byte>, first: nat, drift: nat, p: nat, width: nat)
    requires p <= drift && p <= width && (p == 0 || p == drift) && BLOCK * first + drift - p + width <= |raw|
    ensures WindowBytes(raw, first, drift, p, width)
         == raw[BLOCK * first..BLOCK * first + p] + raw[BLOCK * first + drift..BLOCK * first + drift + width - p]
  {
  }

  /** A whole window further on, the device and the blocks keep their distance. */
  lemma NextWindow(ss: nat, sector: nat, current: nat, processed: nat, block: nat, drift: nat)
    requires Shape(ss) && Span(ss, sector) == BLOCK * block && Span(ss, current) == BLOCK * block + drift
    requires drift < BLOCK
    ensures Span(ss, 0) == GetChunk(0, ss) == 0
    ensures var next := block + WindowSize(ss) / BLOCK; Span(ss, processed) == WindowSize(ss) ==>
              && Span(ss, sector + processed) == BLOCK * next
              && Span(ss, current + processed) == BLOCK * next + drift
              && PrevRelativeChunk(current + processed, ss, BLOCK) == next
  {
    SpanAdd(ss, sector, processed);
    SpanAdd(ss, current, processed);
    WindowShape(ss);
    hide Span, Shape, WindowSize;
    assert WindowSize(ss) % BLOCK == 0;
  }
}
