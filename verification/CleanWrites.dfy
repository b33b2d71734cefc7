/** Which writes through the encryption leave everything behind the data alone, and which do not. */
module CleanWrites {
  import opened Arithmetic
  import opened Base
  import opened CipherBlocks
  import opened Chunks
  import opened SectorDevice

  /** A write is clean when the client sees the data in its place and nothing else changed. */
  ghost predicate Clean(j: Job)
    requires IsJob(j) && JobEnd(j) <= |j.raw|
  {
    JobInside(j);
    Overlay(Plain(j.cipher, j.raw), j.at, j.data + JobTail(j)) == Overlay(Plain(j.cipher, j.raw), j.at, j.data)
  }

  lemma JobInside(j: Job)
    requires IsJob(j) && JobEnd(j) <= |j.raw|
    ensures j.at <= |Plain(j.cipher, j.raw)|
  {
    EndBound(j);
    Within(j.cipher, j.raw, j.at);
  }

  /** How far into its window a position lies that is `end` bytes behind the start of the first */
  function IntoWindow(end: nat, width: nat): (r: nat)
    requires width > 0
    ensures end < width ==> r == end
    ensures end == width ==> r == 0
  {
    end % width
  }

  /**
   * The write ends with a block, or in the first block it touches, or it starts
   * with a block and ends in the first block of a window.
   */
  predicate EndsWell(at: nat, n: nat, width: nat)
    requires width > 0
  {
    var p, end := at % BLOCK, at % BLOCK + n;
    end % BLOCK == 0 || end < BLOCK || (p == 0 && IntoWindow(end, width) < BLOCK)
  }

  predicate WindowEndsWell(drift: nat, p: nat, n: nat, width: nat)
    requires width > 0
  {
    (p + n) % BLOCK == 0 || (p == drift && p + n < BLOCK) || (drift == 0 && IntoWindow(p + n, width) < BLOCK)
  }

  lemma FartherOn(drift: nat, p: nat, n: nat, width: nat)
    requires BLOCK <= width && width % BLOCK == 0 && p + n > width
    ensures WindowEndsWell(drift, 0, p + n - width, width) == WindowEndsWell(drift, p, n, width)
  {
    StepIntoWindow(p + n, width);
    StepBlocks(p + n, width);
    hide IntoWindow, Blocks;
  }

  lemma StepIntoWindow(end: nat, width: nat)
    requires 0 < width <= end
    ensures IntoWindow(end - width, width) == IntoWindow(end, width)
  {
    SelfDivides(width);
    ModSubtract(end, width, width);
  }

  lemma StepBlocks(end: nat, width: nat)
    requires width % BLOCK == 0 && width <= end
    ensures (end - width) % BLOCK == end % BLOCK
    ensures Blocks(end - width) + width / BLOCK == Blocks(end)
  {
  }

  /** A well-ended write leaves behind the data what the client saw there before. */
  lemma {:induction false} CleanTail(c: Cipher, raw: seq<byte>, first: nat, drift: nat, p: nat, n: nat, width: nat)
    requires p <= drift && p < BLOCK <= width && width % BLOCK == 0 && ReadEnd(first, drift, p, n, width) <= |raw|
    requires 0 < n && WindowEndsWell(drift, p, n, width)
    ensures var lo, hi := BLOCK * first + p + n, BLOCK * (first + Blocks(p + n));
            hi <= |Plain(c, raw)| && Tail(c, raw, first, drift, p, n, width) == Plain(c, raw)[lo..hi]
    decreases n
  {
    hide WindowEndsWell, Blocks, Tail, ReadEnd, Plain, Rest, WindowBytes;
    if p + n <= width {
      BlocksBound(p + n, width);
      LastTail(c, raw, first, drift, p, n, width);
      LastWindow(first, drift, p, n, width);
      CleanRest(c, raw, first, drift, p, n, width);
    } else {
      FullWindow(c, raw, first, drift, p, n, width);
      FartherOn(drift, p, n, width);
      StepBlocks(p + n, width);
      CleanTail(c, raw, first + width / BLOCK, drift, 0, n - (width - p), width);
    }
  }

  lemma CleanRest(c: Cipher, raw: seq<byte>, first: nat, drift: nat, p: nat, n: nat, width: nat)
    requires p <= drift && p < BLOCK <= width && width % BLOCK == 0 && BLOCK * first + drift - p + width <= |raw|
    requires 0 < n && p + n <= width && WindowEndsWell(drift, p, n, width) && BLOCK * Blocks(p + n) <= width
    ensures var lo, hi := BLOCK * first + p + n, BLOCK * (first + Blocks(p + n));
            hi <= |Plain(c, raw)|
            && Rest(c, WindowBytes(raw, first, drift, p, width), first, p, n) == Plain(c, raw)[lo..hi]
  {
    PlainReach(c, raw, first + Blocks(p + n));
    hide Plain, Rest, WindowBytes, Crypt, BlockAt, WindowEndsWell, Blocks;
    if (p + n) % BLOCK == 0 {
      WholeBlocks(p + n);
    } else {
      EndsInFirst(drift, p, n, width);
      CleanFirst(c, raw, first, p, n, width);
    }
  }

  lemma CleanFirst(c: Cipher, raw: seq<byte>, first: nat, p: nat, n: nat, width: nat)
    requires 0 < p + n < BLOCK <= width && BLOCK * first + width <= |raw|
    ensures Blocks(p + n) == 1 && BLOCK * (first + Blocks(p + n)) <= |Plain(c, raw)|
    ensures Rest(c, WindowBytes(raw, first, p, p, width), first, p, n)
         == Plain(c, raw)[BLOCK * first + p + n..BLOCK * (first + Blocks(p + n))]
  {
    WindowHead(raw, first, p, width);
    FirstBlockRest(c, raw, WindowBytes(raw, first, p, p, width), first, p, n);
    hide Plain, Rest, WindowBytes, Blocks;
    assert BLOCK * (first + 1) == BLOCK * first + BLOCK;
  }

  lemma WholeBlocks(n: nat)
    requires n % BLOCK == 0
    ensures BLOCK * Blocks(n) == n
  {
  }

  lemma EndsInFirst(drift: nat, p: nat, n: nat, width: nat)
    requires p <= drift && BLOCK <= width && 0 < n && p + n <= width && (p + n) % BLOCK != 0 && width % BLOCK == 0
    requires WindowEndsWell(drift, p, n, width)
    ensures p == drift && p + n < BLOCK
  {
    hide IntoWindow;
  }

  lemma PlainReach(c: Cipher, raw: seq<byte>, k: nat)
    requires BLOCK * k <= |raw|
    ensures BLOCK * k <= |Plain(c, raw)|
  {
  }

  lemma FirstBlockRest(c: Cipher, raw: seq<byte>, win: seq<byte>, first: nat, p: nat, n: nat)
    requires BLOCK <= |win| && BLOCK * first + BLOCK <= |raw| && win[..BLOCK] == BlockAt(raw, first)
    requires 0 < p + n < BLOCK
    ensures Blocks(p + n) == 1 && BLOCK * first + BLOCK <= |Plain(c, raw)|
    ensures Rest(c, win, first, p, n) == Plain(c, raw)[BLOCK * first + p + n..BLOCK * first + BLOCK]
  {
    var t := Crypt(c, Output, win, first, 1);
    assert BlockAt(win, 0) == win[..BLOCK];
    PlainBlock(c, raw, first);
    CryptAt(c, Output, win, first, 1, 0);
    assert BlockAt(t, 0) == BlockAt(Plain(c, raw), first);
    hide Crypt, Plain, BlockAt, Apply;
    BlockTail(t, 0, p + n);
    BlockTail(Plain(c, raw), first, p + n);
  }

  lemma BlockTail(s: seq<byte>, i: nat, k: nat)
    requires BLOCK * i + BLOCK <= |s| && k <= BLOCK
    ensures BlockAt(s, i)[k..] == s[BLOCK * i + k..BLOCK * i + BLOCK]
  {
  }

  /* A disk on which no other write is clean */

  function Shifted(b: byte, k: nat): (r: byte)
  {
    var v: int := b;
    (v + k) % 256
  }

  function Turn(x: Block, k: nat): (y: Block)
    ensures forall i :: 0 <= i < BLOCK ==> y[i] == Shifted(x[i], k)
  {
    seq(BLOCK, i requires 0 <= i < BLOCK => Shifted(x[i], k))
  }

  /** A cipher that adds one to every byte */
  function PlusOne(): (c: Cipher)
    ensures forall i: nat, x: Block :: c.input(i, x) == Turn(x, 1)
    ensures forall i: nat, x: Block :: c.output(i, x) == Turn(x, 255)
  {
    Cipher((i, x) => Turn(x, 1), (i, x) => Turn(x, 255))
  }

  lemma PlusOneInverse()
    ensures Inverse(PlusOne())
  {
    var c := PlusOne();
    forall i: nat, x: Block
      ensures Apply(c, Output, i, Apply(c, Input, i, x)) == x
    {
      assert Apply(c, Input, i, x) == Turn(x, 1);
      assert Apply(c, Output, i, Turn(x, 1)) == Turn(Turn(x, 1), 255);
      hide PlusOne, Apply, Turn, Shifted;
      TurnBack(x);
    }
  }

  lemma TurnBack(x: Block)
    ensures Turn(Turn(x, 1), 255) == x
  {
    var y := Turn(Turn(x, 1), 255);
    forall i | 0 <= i < BLOCK
      ensures y[i] == x[i]
    {
      ShiftedBack(x[i]);
    }
  }

  lemma ShiftedBack(b: byte)
    ensures Shifted(Shifted(b, 1), 255) == b
  {
  }

  /** A disk whose bytes count up */
  function Ramp(n: nat): (r: seq<byte>)
    ensures |r| == n
    ensures forall i :: 0 <= i < n ==> r[i] == i % 256
  {
    seq(n, i requires 0 <= i < n => i % 256)
  }

  lemma PlusOneCrypt(s: seq<byte>, first: nat, n: nat, x: nat)
    requires x < BLOCK * n <= |s|
    ensures Crypt(PlusOne(), Output, s, first, n)[x] == Shifted(s[x], 255)
  {
    var c := PlusOne();
    var i := x / BLOCK;
    var t := Crypt(c, Output, s, first, n);
    CryptAt(c, Output, s, first, n, i);
    assert Apply(c, Output, first + i, BlockAt(s, i)) == Turn(BlockAt(s, i), 255);
    hide Crypt, PlusOne, Apply, Shifted;
    assert t[x] == BlockAt(t, i)[x - BLOCK * i];
    assert s[x] == BlockAt(s, i)[x - BLOCK * i];
  }

  /** Any other write leaves something else behind the data. */
  lemma {:induction false} SpoiledTail(size: nat, first: nat, drift: nat, p: nat, n: nat, width: nat)
    requires p <= drift < BLOCK <= width && width % BLOCK == 0 && ReadEnd(first, drift, p, n, width) <= size
    requires 0 < n && !WindowEndsWell(drift, p, n, width)
    ensures var c, raw, x := PlusOne(), Ramp(size), BLOCK * first + p + n;
            && x < |Plain(c, raw)| && |Tail(c, raw, first, drift, p, n, width)| > 0
            && Tail(c, raw, first, drift, p, n, width)[0] != Plain(c, raw)[x]
    decreases n
  {
    var c, raw := PlusOne(), Ramp(size);
    if p + n <= width {
      BlocksBound(p + n, width);
      LastTail(c, raw, first, drift, p, n, width);
      LastWindow(first, drift, p, n, width);
      SpoiledRest(size, first, drift, p, n, width);
    } else {
      FullWindow(c, raw, first, drift, p, n, width);
      FartherOn(drift, p, n, width);
      hide WindowEndsWell, Blocks, Tail, ReadEnd, Plain;
      SpoiledTail(size, first + width / BLOCK, drift, 0, n - (width - p), width);
    }
  }

  lemma SpoiledRest(size: nat, first: nat, drift: nat, p: nat, n: nat, width: nat)
    requires p <= drift < BLOCK <= width && width % BLOCK == 0 && BLOCK * first + drift - p + width <= size
    requires 0 < n && p + n <= width && !WindowEndsWell(drift, p, n, width) && BLOCK * Blocks(p + n) <= width
    ensures var c, raw, x := PlusOne(), Ramp(size), BLOCK * first + p + n;
            && x < |Plain(c, raw)|
            && var rest := Rest(c, WindowBytes(raw, first, drift, p, width), first, p, n);
               |rest| > 0 && rest[0] != Plain(c, raw)[x]
  {
    hide Plain, Rest, WindowBytes, Ramp, PlusOne, Shifted, Blocks, IntoWindow;
    var x := BLOCK * first + p + n;
    PlainOfRamp(size, x);
    RestOfRamp(size, first, drift, p, n, width);
    ShiftedApart(x, drift - p);
  }

  lemma PlainOfRamp(size: nat, x: nat)
    requires x / BLOCK * BLOCK + BLOCK <= size
    ensures x < |Plain(PlusOne(), Ramp(size))| && Plain(PlusOne(), Ramp(size))[x] == Shifted(x % 256, 255)
  {
    var raw := Ramp(size);
    var whole := size / BLOCK;
    assert x < BLOCK * whole;
    assert raw[..whole * BLOCK][x] == raw[x];
    PlusOneCrypt(raw[..whole * BLOCK], 0, whole, x);
  }

  lemma WindowOfRamp(size: nat, first: nat, drift: nat, p: nat, n: nat, width: nat)
    requires p <= drift && BLOCK * first + drift - p + width <= size && p + n < width
    ensures WindowBytes(Ramp(size), first, drift, p, width)[p + n] == (BLOCK * first + drift + n) % 256
  {
  }

  lemma RestOfRamp(size: nat, first: nat, drift: nat, p: nat, n: nat, width: nat)
    requires p <= drift < BLOCK <= width && BLOCK * first + drift - p + width <= size
    requires 0 < n && p + n <= width && (p + n) % BLOCK != 0 && BLOCK * Blocks(p + n) <= width
    ensures var x := BLOCK * first + p + n;
            var rest := Rest(PlusOne(), WindowBytes(Ramp(size), first, drift, p, width), first, p, n);
            && |rest| > 0
            && rest[0] == if p + n < BLOCK then Shifted((x + drift - p) % 256, 255) else (x + drift - p) % 256
  {
    hide PlusOne, Crypt, Shifted, WindowBytes, Ramp, Blocks;
    var win := WindowBytes(Ramp(size), first, drift, p, width);
    var t := Crypt(PlusOne(), Output, win, first, 1);
    WindowOfRamp(size, first, drift, p, n, width);
    if p + n < BLOCK {
      PlusOneCrypt(win, first, 1, p + n);
    } else {
      CryptBehind(PlusOne(), Output, win, first, 1);
      SliceFrame(t, win, BLOCK, p + n, p + n + 1);
      assert t[p + n] == t[p + n..p + n + 1][0] == win[p + n..p + n + 1][0] == win[p + n];
    }
  }

  lemma ShiftedApart(x: nat, k: nat)
    requires k < BLOCK
    ensures Shifted(x % 256, 255) != (x + k) % 256
    ensures k > 0 ==> Shifted(x % 256, 255) != Shifted((x + k) % 256, 255)
  {
  }

  /** The writes that are clean on every disk under every cipher are exactly the ones that end well. */
  lemma CleanIff(at: nat, data: seq<byte>, width: nat)
    requires BLOCK <= width && width % BLOCK == 0 && |data| > 0
    ensures EndsWell(at, |data|, width) <==>
            forall c: Cipher, raw: seq<byte> :: Inverse(c) && JobEnd(Job(c, raw, at, data, width)) <= |raw| ==>
              Clean(Job(c, raw, at, data, width))
  {
    if EndsWell(at, |data|, width) {
      forall c: Cipher, raw: seq<byte> | Inverse(c) && JobEnd(Job(c, raw, at, data, width)) <= |raw|
        ensures Clean(Job(c, raw, at, data, width))
      {
        EndsWellClean(Job(c, raw, at, data, width));
      }
    } else {
      PlusOneInverse();
      var size := JobEnd(Job(PlusOne(), [], at, data, width));
      EndsBadly(Job(PlusOne(), Ramp(size), at, data, width));
    }
  }

  /** Seventeen sectors of one byte from sector 0 on are such a write. */
  lemma BadSectorsExample()
    ensures Shape(1) && Span(1, 17) == 17 && !EndsWell(Span(1, 0), Span(1, 17), WindowSize(1))
  {
  }

  lemma EndsWellClean(j: Job)
    requires IsJob(j) && JobEnd(j) <= |j.raw| && |j.data| > 0 && EndsWell(j.at, |j.data|, j.width)
    ensures Clean(j)
  {
    JobInside(j);
    CleanTail(j.cipher, j.raw, j.at / BLOCK, j.at % BLOCK, j.at % BLOCK, |j.data|, j.width);
    SameBehind(Plain(j.cipher, j.raw), j.at, j.data, JobTail(j));
  }

  lemma SameBehind(s: seq<byte>, at: nat, d: seq<byte>, t: seq<byte>)
    requires at + |d| + |t| <= |s| && s[at + |d|..at + |d| + |t|] == t
    ensures Overlay(s, at, d + t) == Overlay(s, at, d)
  {
    forall x | at + |d| <= x < at + |d| + |t|
      ensures s[x] == t[x - at - |d|]
    {
      assert s[at + |d|..at + |d| + |t|][x - at - |d|] == s[x];
    }
  }

  /** On the counting disk, such a write changes the byte behind the data. */
  lemma EndsBadly(j: Job)
    requires IsJob(j) && JobEnd(j) <= |j.raw| && |j.data| > 0 && !EndsWell(j.at, |j.data|, j.width)
    requires j.cipher == PlusOne() && j.raw == Ramp(|j.raw|)
    ensures !Clean(j)
  {
    JobInside(j);
    SpoiledTail(|j.raw|, j.at / BLOCK, j.at % BLOCK, j.at % BLOCK, |j.data|, j.width);
    var s, x := Plain(j.cipher, j.raw), j.at + |j.data|;
    assert Overlay(s, j.at, j.data + JobTail(j))[x] == JobTail(j)[0];
    assert Overlay(s, j.at, j.data)[x] == s[x];
  }

  /** After a finished write that ends well, the client sees the data in its place and nothing else has changed. */
  lemma WriteShowsData(j: Job, now: seq<byte>)
    requires Inverse(j.cipher) && Finished(j, now) && |j.data| > 0 && EndsWell(j.at, |j.data|, j.width)
    ensures j.at + |j.data| <= |Plain(j.cipher, j.raw)|
    ensures Plain(j.cipher, now) == Overlay(Plain(j.cipher, j.raw), j.at, j.data)
  {
    CleanTail(j.cipher, j.raw, j.at / BLOCK, j.at % BLOCK, j.at % BLOCK, |j.data|, j.width);
    EndsWellClean(j);
  }

  /** Reading back what was written gives the data, and reading elsewhere gives what was there before. */
  lemma ReadsBack(j: Job, now: seq<byte>, lo: nat, hi: nat)
    requires Inverse(j.cipher) && Finished(j, now) && |j.data| > 0 && EndsWell(j.at, |j.data|, j.width)
    requires lo <= hi <= |Plain(j.cipher, now)|
    ensures j.at + |j.data| <= |Plain(j.cipher, now)| == |Plain(j.cipher, j.raw)|
    ensures lo == j.at && hi == j.at + |j.data| ==> Plain(j.cipher, now)[lo..hi] == j.data
    ensures hi <= j.at || j.at + |j.data| <= lo ==> Plain(j.cipher, now)[lo..hi] == Plain(j.cipher, j.raw)[lo..hi]
  {
    WriteShowsData(j, now);
    hide Plain;
  }

  /** With sectors made of whole blocks, every write of whole sectors ends well. */
  lemma WholeSectorsEndWell(ss: nat, sector: nat, count: nat, width: nat)
    requires ss > 0 && ss % BLOCK == 0 && width > 0
    ensures EndsWell(Span(ss, sector), Span(ss, count), width)
  {
    SpanBlocks(ss, sector);
    SpanBlocks(ss, count);
    hide Span;
  }
}
