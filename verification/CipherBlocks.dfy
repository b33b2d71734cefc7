/** Cipher blocks over a flat disk, the cipher an arbitrary bijection of each block. */
module CipherBlocks {
  import opened Base

  const BLOCK := 16

  type Block = s: seq<byte> | |s| == BLOCK witness Zeros(BLOCK)

  /**
   * The two block functions of the interface, indexed by block number: `input`
   * turns what the client writes into what the disk holds, `output` the reverse.
   */
  datatype Cipher = Cipher(input: (nat, Block) -> Block, output: (nat, Block) -> Block)

  datatype Direction = Input | Output

  function Apply(c: Cipher, f: Direction, i: nat, x: Block): (y: Block)
  {
    if f.Input? then c.input(i, x) else c.output(i, x)
  }

  ghost predicate Inverse(c: Cipher)
  {
    forall i: nat, x: Block :: Apply(c, Output, i, Apply(c, Input, i, x)) == x
  }

  function BlockAt(s: seq<byte>, i: nat): (b: Block)
    requires BLOCK * i + BLOCK <= |s|
  {
    s[BLOCK * i..BLOCK * i + BLOCK]
  }

  /**
   * `n` blocks of the buffer replaced, the first of them block number `first`
   * of the disk (functions input and output)
   */
  function Crypt(c: Cipher, f: Direction, s: seq<byte>, first: nat, n: nat): (r: seq<byte>)
    requires BLOCK * n <= |s|
    ensures |r| == |s|
  {
    if n == 0 then s
    else
      var t := Crypt(c, f, s, first, n - 1);
      t[..BLOCK * (n - 1)] + Apply(c, f, first + n - 1, BlockAt(s, n - 1)) + t[BLOCK * n..]
  }

  lemma {:induction false} CryptBehind(c: Cipher, f: Direction, s: seq<byte>, first: nat, n: nat)
    requires BLOCK * n <= |s|
    ensures Crypt(c, f, s, first, n)[BLOCK * n..] == s[BLOCK * n..]
  {
    if n > 0 {
      CryptBehind(c, f, s, first, n - 1);
      assert Crypt(c, f, s, first, n - 1)[BLOCK * n..] == Crypt(c, f, s, first, n - 1)[BLOCK * (n - 1)..][BLOCK..];
      assert s[BLOCK * n..] == s[BLOCK * (n - 1)..][BLOCK..];
    }
  }

  lemma {:induction false} CryptAt(c: Cipher, f: Direction, s: seq<byte>, first: nat, n: nat, i: nat)
    requires BLOCK * n <= |s| && i < n
    ensures BlockAt(Crypt(c, f, s, first, n), i) == Apply(c, f, first + i, BlockAt(s, i))
  {
    if i < n - 1 {
      CryptAt(c, f, s, first, n - 1, i);
      assert BlockAt(Crypt(c, f, s, first, n), i) == BlockAt(Crypt(c, f, s, first, n - 1), i);
    }
  }

  /** One more block */
  lemma CryptStep(c: Cipher, f: Direction, s: seq<byte>, first: nat, i: nat)
    requires BLOCK * (i + 1) <= |s|
    ensures Crypt(c, f, s, first, i)[BLOCK * i..BLOCK * i + BLOCK] == BlockAt(s, i)
    ensures Crypt(c, f, s, first, i + 1)
         == Overlay(Crypt(c, f, s, first, i), BLOCK * i, Apply(c, f, first + i, BlockAt(s, i)))
  {
    CryptBehind(c, f, s, first, i);
    var t := Crypt(c, f, s, first, i);
    SliceFrame(t, s, BLOCK * i, BLOCK * i, BLOCK * i + BLOCK);
    OverlayParts(t, BLOCK * i, Apply(c, f, first + i, BlockAt(s, i)));
  }

  lemma OverlayParts(t: seq<byte>, at: nat, d: seq<byte>)
    requires at + |d| <= |t|
    ensures Overlay(t, at, d) == t[..at] + d + t[at + |d|..]
  {
  }

  lemma OverlayShift(head: seq<byte>, t: seq<byte>, at: nat, d: seq<byte>)
    requires at + |d| <= |t|
    ensures Overlay(head + t, |head| + at, d) == head + Overlay(t, at, d)
  {
  }

  lemma SliceShift(head: seq<byte>, t: seq<byte>, lo: nat, hi: nat)
    requires lo <= hi <= |t|
    ensures (head + t)[|head| + lo..|head| + hi] == t[lo..hi]
  {
  }

  /** What the client sees: every complete block of the disk through `output` */
  function Plain(c: Cipher, raw: seq<byte>): (p: seq<byte>)
    ensures |p| == |raw| / BLOCK * BLOCK
  {
    Crypt(c, Output, raw[..|raw| / BLOCK * BLOCK], 0, |raw| / BLOCK)
  }

  lemma PlainBlock(c: Cipher, raw: seq<byte>, i: nat)
    requires BLOCK * i + BLOCK <= |raw|
    ensures BlockAt(Plain(c, raw), i) == Apply(c, Output, i, BlockAt(raw, i))
  {
    var cut := raw[..|raw| / BLOCK * BLOCK];
    assert BlockAt(cut, i) == BlockAt(raw, i);
    CryptAt(c, Output, cut, 0, |raw| / BLOCK, i);
  }

  /** Two sequences of whole blocks are equal if their blocks are. */
  lemma SameBlocks(a: seq<byte>, b: seq<byte>)
    requires |a| == |b| && |a| % BLOCK == 0
    requires forall i :: 0 <= i < |a| / BLOCK ==> BlockAt(a, i) == BlockAt(b, i)
    ensures a == b
  {
    forall x | 0 <= x < |a|
      ensures a[x] == b[x]
    {
      var i := x / BLOCK;
      assert BlockAt(a, i)[x - BLOCK * i] == a[x];
      assert BlockAt(b, i)[x - BLOCK * i] == b[x];
    }
  }

  /** Overlaying whole blocks replaces just these blocks. */
  lemma OverlayBlocks(s: seq<byte>, first: nat, d: seq<byte>, n: nat, i: nat)
    requires |d| == BLOCK * n && BLOCK * (first + n) <= |s| && BLOCK * i + BLOCK <= |s|
    ensures BlockAt(Overlay(s, BLOCK * first, d), i)
         == if first <= i < first + n then BlockAt(d, i - first) else BlockAt(s, i)
  {
    var r := BlockAt(Overlay(s, BLOCK * first, d), i);
    if first <= i < first + n {
      assert forall x :: 0 <= x < BLOCK ==> r[x] == d[BLOCK * (i - first) + x];
    } else {
      assert forall x :: 0 <= x < BLOCK ==> r[x] == s[BLOCK * i + x];
    }
  }

  /** Encrypting `n` blocks of `w` onto the disk shows `w` to the client, and nothing else changes. */
  lemma StoredPlain(c: Cipher, raw: seq<byte>, first: nat, w: seq<byte>, n: nat)
    requires Inverse(c) && |w| == BLOCK * n && BLOCK * (first + n) <= |raw|
    ensures Plain(c, Overlay(raw, BLOCK * first, Crypt(c, Input, w, first, n)))
         == Overlay(Plain(c, raw), BLOCK * first, w)
  {
    var d := Crypt(c, Input, w, first, n);
    var after := Overlay(raw, BLOCK * first, d);
    var a, b := Plain(c, after), Overlay(Plain(c, raw), BLOCK * first, w);
    assert BLOCK * (first + n) <= |Plain(c, raw)|;
    hide Plain, Crypt, Overlay;
    forall i | 0 <= i < |a| / BLOCK
      ensures BlockAt(a, i) == BlockAt(b, i)
    {
      StoredPlainBlock(c, raw, first, w, n, i);
    }
    SameBlocks(a, b);
  }

  lemma StoredPlainBlock(c: Cipher, raw: seq<byte>, first: nat, w: seq<byte>, n: nat, i: nat)
    requires Inverse(c) && |w| == BLOCK * n && BLOCK * (first + n) <= |raw| && BLOCK * i + BLOCK <= |raw|
    ensures BLOCK * (first + n) <= |Plain(c, raw)| && BLOCK * i + BLOCK <= |Plain(c, raw)|
    ensures BlockAt(Plain(c, Overlay(raw, BLOCK * first, Crypt(c, Input, w, first, n))), i)
         == BlockAt(Overlay(Plain(c, raw), BLOCK * first, w), i)
  {
    hide Plain, Overlay, Crypt, BlockAt;
    var d := Crypt(c, Input, w, first, n);
    assert BLOCK * (first + n) <= |Plain(c, raw)| && BLOCK * i + BLOCK <= |Plain(c, raw)|;
    PlainBlock(c, Overlay(raw, BLOCK * first, d), i);
    PlainBlock(c, raw, i);
    OverlayBlocks(raw, first, d, n, i);
    OverlayBlocks(Plain(c, raw), first, w, n, i);
    if first <= i < first + n {
      CryptAt(c, Input, w, first, n, i - first);
    }
  }

  lemma BlockOfPrefix(s: seq<byte>, n: nat, i: nat)
    requires i < n && BLOCK * n <= |s|
    ensures BlockAt(s[..BLOCK * n], i) == BlockAt(s, i)
  {
  }

  /** Only the blocks that are touched matter. */
  lemma CryptPrefix(c: Cipher, f: Direction, s: seq<byte>, first: nat, n: nat)
    requires BLOCK * n <= |s|
    ensures Crypt(c, f, s, first, n)[..BLOCK * n] == Crypt(c, f, s[..BLOCK * n], first, n)
  {
    var a, b := Crypt(c, f, s, first, n)[..BLOCK * n], Crypt(c, f, s[..BLOCK * n], first, n);
    forall i | 0 <= i < n
      ensures BlockAt(a, i) == BlockAt(b, i)
    {
      BlockOfPrefix(s, n, i);
      BlockOfPrefix(Crypt(c, f, s, first, n), n, i);
      CryptAt(c, f, s, first, n, i);
      CryptAt(c, f, s[..BLOCK * n], first, n, i);
    }
    SameBlocks(a, b);
  }

  /** The number of blocks that `n` bytes touch: CEIL(n, block_size) */
  function Blocks(n: nat): (b: nat)
    ensures BLOCK * b - BLOCK < n <= BLOCK * b
  {
    (n + BLOCK - 1) / BLOCK
  }

  /**
   * One window of the write: `win` is what was read, the data `d` goes to
   * offset `p`. The first block is decrypted before the data is laid over it;
   * then every block the data touches is encrypted.
   */
  function Filled(c: Cipher, win: seq<byte>, first: nat, p: nat, d: seq<byte>): (w: seq<byte>)
    requires BLOCK <= |win| && p + |d| <= |win|
    ensures |w| == |win|
  {
    Overlay(Crypt(c, Output, win, first, 1), p, d)
  }

  /** What stays behind the data in its last block */
  function Rest(c: Cipher, win: seq<byte>, first: nat, p: nat, n: nat): (r: seq<byte>)
    requires BLOCK <= |win| && BLOCK * Blocks(p + n) <= |win|
    ensures |r| == BLOCK * Blocks(p + n) - (p + n)
  {
    Crypt(c, Output, win, first, 1)[p + n..BLOCK * Blocks(p + n)]
  }

  /** The client sees the data, followed by what stayed behind it in the last block. */
  lemma WindowEffect(c: Cipher, raw: seq<byte>, win: seq<byte>, first: nat, p: nat, d: seq<byte>)
    requires Inverse(c) && p < BLOCK <= |win| && 0 < |d|
    requires BLOCK * Blocks(p + |d|) <= |win| && BLOCK * (first + Blocks(p + |d|)) <= |raw|
    requires p > 0 ==> win[..BLOCK] == BlockAt(raw, first)
    ensures var n := Blocks(p + |d|);
            && BLOCK * first + p <= |Plain(c, raw)|
            && Plain(c, Overlay(raw, BLOCK * first,
                                Crypt(c, Input, Filled(c, win, first, p, d), first, n)[..BLOCK * n]))
            == Overlay(Plain(c, raw), BLOCK * first + p, d + Rest(c, win, first, p, |d|))
  {
    hide Crypt, Plain, Filled, Rest, Overlay, BlockAt, Inverse;
    var n := Blocks(p + |d|);
    var w := Filled(c, win, first, p, d)[..BLOCK * n];
    CryptPrefix(c, Input, Filled(c, win, first, p, d), first, n);
    StoredPlain(c, raw, first, w, n);
    HeadPlain(c, raw, win, first, p);
    FilledSplit(c, win, first, p, d);
    OverlaySplit(Plain(c, raw), BLOCK * first, w, p);
  }

  /** The head of the first block, decrypted, is what the client saw there. */
  lemma HeadPlain(c: Cipher, raw: seq<byte>, win: seq<byte>, first: nat, p: nat)
    requires p < BLOCK <= |win| && BLOCK * first + BLOCK <= |raw|
    requires p > 0 ==> win[..BLOCK] == BlockAt(raw, first)
    ensures BLOCK * first + BLOCK <= |Plain(c, raw)|
    ensures Crypt(c, Output, win, first, 1)[..p] == Plain(c, raw)[BLOCK * first..BLOCK * first + p]
  {
    hide Crypt, Plain;
    PlainBlock(c, raw, first);
    if p > 0 {
      assert BlockAt(win, 0) == win[..BLOCK];
      var t := Crypt(c, Output, win, first, 1);
      CryptAt(c, Output, win, first, 1, 0);
      assert BlockAt(t, 0) == BlockAt(Plain(c, raw), first);
      assert t[..p] == BlockAt(t, 0)[..p];
      assert Plain(c, raw)[BLOCK * first..BLOCK * first + p] == BlockAt(Plain(c, raw), first)[..p];
    }
  }

  lemma FilledSplit(c: Cipher, win: seq<byte>, first: nat, p: nat, d: seq<byte>)
    requires BLOCK <= |win| && BLOCK * Blocks(p + |d|) <= |win|
    ensures Filled(c, win, first, p, d)[..BLOCK * Blocks(p + |d|)]
         == Crypt(c, Output, win, first, 1)[..p] + (d + Rest(c, win, first, p, |d|))
  {
    var t := Crypt(c, Output, win, first, 1);
    hide Crypt;
    OverlaidPrefix(t, p, d, BLOCK * Blocks(p + |d|));
  }

  lemma OverlaidPrefix(t: seq<byte>, p: nat, d: seq<byte>, n: nat)
    requires p + |d| <= n <= |t|
    ensures Overlay(t, p, d)[..n] == t[..p] + (d + t[p + |d|..n])
  {
  }

  /** A piece whose head is there already can be laid down without it. */
  lemma OverlaySplit(s: seq<byte>, at: nat, w: seq<byte>, p: nat)
    requires p <= |w| && at + p <= |s| && s[at..at + p] == w[..p]
    ensures Overlay(s, at, w) == Overlay(s, at + p, w[p..])
  {
    assert forall x :: at <= x < at + p ==> s[x] == w[x - at] by {
      forall x | at <= x < at + p
        ensures s[x] == w[x - at]
      {
        assert s[at..at + p][x - at] == w[..p][x - at];
      }
    }
  }

  /* The windows of a write, one after the other */

  /** The bytes a window that starts at block `first` has in it before the data comes */
  function WindowBytes(raw: seq<byte>, first: nat, drift: nat, p: nat, width: nat): (win: seq<byte>)
    requires p <= drift && BLOCK * first + drift - p + width <= |raw|
    ensures |win| == width
  {
    raw[BLOCK * first + drift - p..BLOCK * first + drift - p + width]
  }

  /** Where the last window of a write reads to */
  function ReadEnd(first: nat, drift: nat, p: nat, n: nat, width: nat): (e: nat)
    requires p <= drift && p < width && width % BLOCK == 0
    ensures e >= BLOCK * first + drift - p + width
    decreases n
  {
    if p + n <= width then BLOCK * first + drift - p + width
    else ReadEnd(first + width / BLOCK, drift, 0, n - (width - p), width)
  }

  /**
   * What the last window of a write leaves behind the data. The first window
   * starts `p` bytes into its block; the later ones are read `drift` bytes too
   * far, where drift is the `p` of the first window.
   */
  function Tail(c: Cipher, raw: seq<byte>, first: nat, drift: nat, p: nat, n: nat, width: nat): (r: seq<byte>)
    requires p <= drift && p < BLOCK <= width && width % BLOCK == 0 && ReadEnd(first, drift, p, n, width) <= |raw|
    decreases n
  {
    if p + n <= width then Rest(c, WindowBytes(raw, first, drift, p, width), first, p, n)
    else Tail(c, raw, first + width / BLOCK, drift, 0, n - (width - p), width)
  }

  /** The tail does not depend on what lies before the first window. */
  lemma {:induction false} TailFrame(c: Cipher, raw: seq<byte>, now: seq<byte>, first: nat, drift: nat, p: nat, n: nat,
                                     width: nat)
    requires p <= drift && p < BLOCK <= width && width % BLOCK == 0 && ReadEnd(first, drift, p, n, width) <= |raw|
    requires |now| == |raw| && BLOCK * first <= |raw| && now[BLOCK * first..] == raw[BLOCK * first..]
    ensures Tail(c, now, first, drift, p, n, width) == Tail(c, raw, first, drift, p, n, width)
    decreases n
  {
    if p + n <= width {
      SliceFrame(raw, now, BLOCK * first, BLOCK * first + drift - p, BLOCK * first + drift - p + width);
    } else {
      var next := first + width / BLOCK;
      SliceFrame(raw, now, BLOCK * first, BLOCK * next, |raw|);
      TailFrame(c, raw, now, next, drift, 0, n - (width - p), width);
    }
  }

  /**
   * Nor does the tail of a write that goes on behind its first block depend on
   * what lies in that block, for it is not decrypted with it.
   */
  lemma LateTail(c: Cipher, raw: seq<byte>, now: seq<byte>, first: nat, p: nat, n: nat, width: nat)
    requires p < BLOCK <= width && width % BLOCK == 0 && ReadEnd(first, p, p, n, width) <= |raw|
    requires p + n >= BLOCK && SameFrom(raw, now, BLOCK * (first + 1))
    ensures Tail(c, now, first, p, p, n, width) == Tail(c, raw, first, p, p, n, width)
  {
    hide Tail, Rest, ReadEnd, Blocks, WindowBytes;
    if p + n <= width {
      BlocksBound(p + n, width);
      LastWindow(first, p, p, n, width);
      LastTail(c, raw, first, p, p, n, width);
      LastTail(c, now, first, p, p, n, width);
      LateRest(c, raw, first, p, n, width);
      LateRest(c, now, first, p, n, width);
      SliceFrame(raw, now, BLOCK * (first + 1), BLOCK * first + p + n, BLOCK * first + BLOCK * Blocks(p + n));
    } else {
      var next := first + width / BLOCK;
      FullWindow(c, raw, first, p, p, n, width);
      FullWindow(c, now, first, p, p, n, width);
      EndOfNext(next, p, n - (width - p), width);
      SliceFrame(raw, now, BLOCK * (first + 1), BLOCK * next, |raw|);
      TailFrame(c, raw, now, next, p, 0, n - (width - p), width);
    }
  }

  lemma EndOfNext(next: nat, drift: nat, n: nat, width: nat)
    requires 0 < width && width % BLOCK == 0
    ensures BLOCK * next <= ReadEnd(next, drift, 0, n, width)
  {
  }

  lemma LateRest(c: Cipher, raw: seq<byte>, first: nat, p: nat, n: nat, width: nat)
    requires BLOCK <= p + n <= width && BLOCK * Blocks(p + n) <= width && BLOCK * first + width <= |raw|
    ensures Rest(c, WindowBytes(raw, first, p, p, width), first, p, n)
         == raw[BLOCK * first + p + n..BLOCK * first + BLOCK * Blocks(p + n)]
  {
    var win := WindowBytes(raw, first, p, p, width);
    var t := Crypt(c, Output, win, first, 1);
    CryptBehind(c, Output, win, first, 1);
    hide Crypt, Blocks;
    SliceFrame(t, win, BLOCK, p + n, BLOCK * Blocks(p + n));
    SliceSlice(raw, BLOCK * first, width, p + n, BLOCK * Blocks(p + n));
  }

  lemma SliceFrame(a: seq<byte>, b: seq<byte>, from: nat, lo: nat, hi: nat)
    requires |a| == |b| && from <= lo <= hi <= |a| && a[from..] == b[from..]
    ensures a[lo..hi] == b[lo..hi]
  {
    forall x | lo <= x < hi
      ensures a[x] == b[x]
    {
      assert a[from..][x - from] == b[from..][x - from];
    }
  }

  /** Bytes behind the touched blocks may be written along if they are the old ones. */
  lemma OverlayPadding(raw: seq<byte>, at: nat, w: seq<byte>, m: nat, n: nat)
    requires m <= n <= |w| && at + n <= |raw| && w[m..n] == raw[at + m..at + n]
    ensures Overlay(raw, at, w[..n]) == Overlay(raw, at, w[..m])
  {
    forall x | at + m <= x < at + n
      ensures w[x - at] == raw[x]
    {
      assert w[m..n][x - at - m] == raw[at + m..at + n][x - at - m];
    }
  }

  /** The window with the data in it, encrypted as far as the data goes */
  function Sealed(c: Cipher, win: seq<byte>, first: nat, p: nat, d: seq<byte>): (w: seq<byte>)
    requires BLOCK <= |win| && BLOCK * Blocks(p + |d|) <= |win|
    ensures |w| == |win|
  {
    Crypt(c, Input, Filled(c, win, first, p, d), first, Blocks(p + |d|))
  }

  lemma SealedIs(c: Cipher, win: seq<byte>, first: nat, p: nat, d: seq<byte>)
    requires BLOCK <= |win| && BLOCK * Blocks(p + |d|) <= |win|
    ensures Sealed(c, win, first, p, d) == Crypt(c, Input, Filled(c, win, first, p, d), first, Blocks(p + |d|))
  {
  }

  /** Behind the touched blocks the sealed window is what was read. */
  lemma SealedRest(c: Cipher, win: seq<byte>, first: nat, p: nat, d: seq<byte>)
    requires BLOCK <= |win| && BLOCK * Blocks(p + |d|) <= |win| && 0 < p + |d|
    ensures Sealed(c, win, first, p, d)[BLOCK * Blocks(p + |d|)..] == win[BLOCK * Blocks(p + |d|)..]
  {
    var n := BLOCK * Blocks(p + |d|);
    var t := Crypt(c, Output, win, first, 1);
    var f := Filled(c, win, first, p, d);
    CryptBehind(c, Output, win, first, 1);
    CryptBehind(c, Input, f, first, Blocks(p + |d|));
    assert f[n..] == win[n..] by {
      hide Crypt;
      assert t[BLOCK * 1..] == win[BLOCK * 1..];
      SliceFrame(t, win, BLOCK, n, |win|);
    }
  }

  lemma BlocksBound(n: nat, width: nat)
    requires n <= width && width % BLOCK == 0
    ensures BLOCK * Blocks(n) <= width
    ensures n < BLOCK ==> Blocks(n) <= 1
  {
  }

  /**
   * What writing one window does: the client sees the data and what stayed
   * behind it in its last block, and the disk behind that block is the old one.
   */
  ghost predicate WindowWritten(c: Cipher, raw: seq<byte>, now: seq<byte>, first: nat, drift: nat, p: nat,
                                d: seq<byte>, width: nat)
    requires p <= drift && p < BLOCK && BLOCK * Blocks(p + |d|) <= width && BLOCK <= width
    requires BLOCK * first + drift - p + width <= |raw|
  {
    var n := Blocks(p + |d|);
    && |now| == |raw|
    && BLOCK * (first + n) <= |raw| && now[BLOCK * (first + n)..] == raw[BLOCK * (first + n)..]
    && BLOCK * first + p <= |Plain(c, raw)|
    && Plain(c, now) == Overlay(Plain(c, raw), BLOCK * first + p,
                                d + Rest(c, WindowBytes(raw, first, drift, p, width), first, p, |d|))
  }

  lemma WritesWindow(c: Cipher, raw: seq<byte>, now: seq<byte>, first: nat, drift: nat, p: nat, d: seq<byte>,
                     width: nat, covering: nat)
    requires Inverse(c) && p <= drift && p < BLOCK && BLOCK * Blocks(p + |d|) <= covering <= width && BLOCK <= width
    requires 0 < |d|
    requires BLOCK * first + drift - p + width <= |raw| && (p == 0 || p == drift)
    requires covering == BLOCK * Blocks(p + |d|) || drift == 0
    requires now
         == Overlay(raw, BLOCK * first, Sealed(c, WindowBytes(raw, first, drift, p, width), first, p, d)[..covering])
    ensures WindowWritten(c, raw, now, first, drift, p, d, width)
  {
    hide Sealed, Blocks, Plain, Crypt, Overlay, Rest, WindowBytes, BlockAt, Inverse;
    var win := WindowBytes(raw, first, drift, p, width);
    if drift == 0 {
      WindowIsSlice(raw, first, width);
      SealedPadding(c, raw, win, first, p, d, covering);
    }
    if p > 0 {
      WindowHead(raw, first, p, width);
    }
    SealedEffect(c, raw, win, first, p, d);
  }

  lemma SealedEffect(c: Cipher, raw: seq<byte>, win: seq<byte>, first: nat, p: nat, d: seq<byte>)
    requires Inverse(c) && p < BLOCK <= |win| && 0 < |d|
    requires BLOCK * Blocks(p + |d|) <= |win| && BLOCK * (first + Blocks(p + |d|)) <= |raw|
    requires p > 0 ==> win[..BLOCK] == BlockAt(raw, first)
    ensures var n := Blocks(p + |d|);
            var now := Overlay(raw, BLOCK * first, Sealed(c, win, first, p, d)[..BLOCK * n]);
            && |now| == |raw| && now[BLOCK * (first + n)..] == raw[BLOCK * (first + n)..]
            && BLOCK * first + p <= |Plain(c, raw)|
            && Plain(c, now) == Overlay(Plain(c, raw), BLOCK * first + p, d + Rest(c, win, first, p, |d|))
  {
    var n := Blocks(p + |d|);
    OverlayBehind(raw, BLOCK * first, Sealed(c, win, first, p, d)[..BLOCK * n]);
    SealedIs(c, win, first, p, d);
    hide Sealed, Blocks, Plain, Crypt, Filled, Overlay, Rest;
    WindowEffect(c, raw, win, first, p, d);
  }

  lemma OverlayBehind(raw: seq<byte>, at: nat, d: seq<byte>)
    requires at + |d| <= |raw|
    ensures Overlay(raw, at, d)[at + |d|..] == raw[at + |d|..]
  {
  }

  lemma WindowIsSlice(raw: seq<byte>, first: nat, width: nat)
    requires BLOCK * first + width <= |raw|
    ensures WindowBytes(raw, first, 0, 0, width) == raw[BLOCK * first..BLOCK * first + width]
  {
  }

  lemma WindowHead(raw: seq<byte>, first: nat, p: nat, width: nat)
    requires BLOCK <= width && BLOCK * first + width <= |raw|
    ensures WindowBytes(raw, first, p, p, width)[..BLOCK] == BlockAt(raw, first)
  {
  }

  lemma SliceSlice(s: seq<byte>, at: nat, n: nat, lo: nat, hi: nat)
    requires lo <= hi <= n && at + n <= |s|
    ensures s[at..at + n][lo..hi] == s[at + lo..at + hi]
  {
    var t := s[at..at + n];
    forall x | 0 <= x < hi - lo
      ensures t[lo..hi][x] == s[at + lo..at + hi][x]
    {
      assert t[lo + x] == s[at + lo + x];
    }
  }

  lemma SealedPadding(c: Cipher, raw: seq<byte>, win: seq<byte>, first: nat, p: nat, d: seq<byte>, covering: nat)
    requires BLOCK <= |win| && BLOCK * Blocks(p + |d|) <= covering <= |win| && 0 < |d|
    requires BLOCK * first + |win| <= |raw| && win == raw[BLOCK * first..BLOCK * first + |win|]
    ensures Overlay(raw, BLOCK * first, Sealed(c, win, first, p, d)[..covering])
         == Overlay(raw, BLOCK * first, Sealed(c, win, first, p, d)[..BLOCK * Blocks(p + |d|)])
  {
    var w, m, at := Sealed(c, win, first, p, d), BLOCK * Blocks(p + |d|), BLOCK * first;
    SealedRest(c, win, first, p, d);
    hide Sealed, Overlay, Blocks;
    SliceFrame(w, win, m, m, covering);
    SliceSlice(raw, at, |win|, m, covering);
    OverlayPadding(raw, at, w, m, covering);
  }

  /** A whole write: `data` goes to position `at`, in windows of `width` bytes. */
  datatype Job = Job(cipher: Cipher, raw: seq<byte>, at: nat, data: seq<byte>, width: nat)

  ghost predicate IsJob(j: Job)
  {
    BLOCK <= j.width && j.width % BLOCK == 0
  }

  /** How far a write reads */
  ghost function JobEnd(j: Job): (e: nat)
    requires IsJob(j)
  {
    ReadEnd(j.at / BLOCK, j.at % BLOCK, j.at % BLOCK, |j.data|, j.width)
  }

  /** What a write leaves behind the data in the last block */
  ghost function JobTail(j: Job): (t: seq<byte>)
    requires IsJob(j) && JobEnd(j) <= |j.raw|
  {
    Tail(j.cipher, j.raw, j.at / BLOCK, j.at % BLOCK, j.at % BLOCK, |j.data|, j.width)
  }

  /** Where the block ends that the last of `n` bytes lies in */
  function BlockEnd(n: nat): (e: nat)
    ensures n <= e < n + BLOCK
  {
    BLOCK * Blocks(n)
  }

  /** From that block on the disk is as it was. */
  predicate SameFrom(raw: seq<byte>, now: seq<byte>, e: nat)
  {
    |now| == |raw| && e <= |raw| && now[e..] == raw[e..]
  }

  /**
   * When a write is over, the client sees the data and the tail in their place,
   * and all else as it was; behind the last block nothing was written.
   */
  ghost predicate Finished(j: Job, now: seq<byte>)
  {
    && IsJob(j) && JobEnd(j) <= |j.raw| && j.at <= |Plain(j.cipher, j.raw)|
    && Plain(j.cipher, now) == Overlay(Plain(j.cipher, j.raw), j.at, j.data + JobTail(j))
    && SameFrom(j.raw, now, BlockEnd(j.at + |j.data|))
  }

  /**
   * Between two windows: the first `done` bytes are on the disk; the next
   * window starts at block `first` and is still as it was.
   */
  ghost predicate Halfway(j: Job, now: seq<byte>, done: nat, first: nat, p: nat)
  {
    && IsJob(j) && Laid(j, now, done, first, p) && p <= j.at % BLOCK
    && JobEnd(j) == ReadEnd(first, j.at % BLOCK, p, |j.data| - done, j.width)
    && (JobEnd(j) <= |j.raw| ==>
          JobTail(j) == Tail(j.cipher, j.raw, first, j.at % BLOCK, p, |j.data| - done, j.width))
  }

  ghost predicate Laid(j: Job, now: seq<byte>, done: nat, first: nat, p: nat)
  {
    && |now| == |j.raw| && done <= |j.data| && j.at + done == BLOCK * first + p <= |j.raw|
    && j.at <= |Plain(j.cipher, j.raw)|
    && now[BLOCK * first..] == j.raw[BLOCK * first..]
    && Plain(j.cipher, now) == Overlay(Plain(j.cipher, j.raw), j.at, j.data[..done])
  }

  /** The write begins with the block that its position lies in. */
  lemma Begin(j: Job)
    requires IsJob(j) && BLOCK * (j.at / BLOCK) + j.at % BLOCK <= |j.raw|
    requires j.at <= |Plain(j.cipher, j.raw)|
    ensures Halfway(j, j.raw, 0, j.at / BLOCK, j.at % BLOCK)
  {
    assert Overlay(Plain(j.cipher, j.raw), j.at, []) == Plain(j.cipher, j.raw);
  }

  lemma Within(c: Cipher, raw: seq<byte>, at: nat)
    requires at / BLOCK * BLOCK + BLOCK <= |raw|
    ensures at <= |Plain(c, raw)|
  {
  }

  lemma EndBound(j: Job)
    requires IsJob(j)
    ensures j.at / BLOCK * BLOCK + j.width <= JobEnd(j)
  {
  }

  lemma ReadsTo(j: Job, now: seq<byte>, done: nat, first: nat, p: nat)
    requires Halfway(j, now, done, first, p)
    ensures IsJob(j) && BLOCK * first + j.at % BLOCK - p + j.width <= JobEnd(j)
  {
  }

  /** What process_window copies into a window with `room` bytes */
  function Portion(buffer: seq<byte>, done: nat, room: nat): (d: seq<byte>)
    requires done <= |buffer|
    ensures |d| == if room <= |buffer| - done then room else |buffer| - done
    ensures done < |buffer| && 0 < room ==> 0 < |d|
  {
    if room <= |buffer| - done then buffer[done..done + room] else buffer[done..]
  }

  lemma PortionIs(buffer: seq<byte>, done: nat, room: nat, amount: nat)
    requires done <= |buffer| && amount == if room > |buffer| - done then |buffer| - done else room
    ensures buffer[done..done + amount] == Portion(buffer, done, room)
  {
  }

  /** A window that is not the last one */
  lemma NextHalfway(j: Job, now: seq<byte>, next: seq<byte>, done: nat, first: nat, p: nat, piece: seq<byte>)
    requires Halfway(j, now, done, first, p) && p <= j.width && piece == Portion(j.data, done, j.width - p)
    requires done + |piece| < |j.data|
    requires BLOCK * first + j.at % BLOCK - p + j.width <= |j.raw|
    requires BLOCK * Blocks(p + |piece|) <= j.width
    requires WindowWritten(j.cipher, now, next, first, j.at % BLOCK, p, piece, j.width)
    ensures Halfway(j, next, done + |piece|, first + j.width / BLOCK, 0)
  {
    hide Tail, ReadEnd, Blocks, WindowWritten, Laid, Plain, Portion;
    FullWindow(j.cipher, j.raw, first, j.at % BLOCK, p, |j.data| - done, j.width);
    assert piece == j.data[done..done + |piece|] by { PortionIs(j.data, done, j.width - p, |piece|); }
    NextLaid(j, now, next, done, first, p, |piece|);
  }

  lemma NextLaid(j: Job, now: seq<byte>, next: seq<byte>, done: nat, first: nat, p: nat, n: nat)
    requires IsJob(j) && Laid(j, now, done, first, p) && p <= j.at % BLOCK && p + n == j.width && done + n < |j.data|
    requires BLOCK * first + j.at % BLOCK - p + j.width <= |j.raw|
    requires BLOCK * Blocks(p + n) <= j.width
    requires WindowWritten(j.cipher, now, next, first, j.at % BLOCK, p, j.data[done..done + n], j.width)
    ensures Laid(j, next, done + n, first + j.width / BLOCK, 0)
  {
    hide Plain, Rest, Overlay, Blocks;
    var d, upto, raw := j.data, done + n, j.raw;
    var after := first + j.width / BLOCK;
    assert d[..done] + d[done..upto] == d[..upto];
    assert Blocks(j.width) == j.width / BLOCK && BLOCK * after == BLOCK * first + j.width;
    var rest := Rest(j.cipher, WindowBytes(now, first, j.at % BLOCK, p, j.width), first, p, n);
    assert d[done..upto] + rest == d[done..upto];
    SliceFrame(raw, now, BLOCK * first, BLOCK * after, |raw|);
    OverlayTwice(Plain(j.cipher, raw), j.at, d[..done], d[done..upto]);
  }

  /** The window that takes the last bytes of data */
  lemma LastHalfway(j: Job, now: seq<byte>, next: seq<byte>, done: nat, first: nat, p: nat, piece: seq<byte>)
    requires Halfway(j, now, done, first, p) && p <= j.width && piece == Portion(j.data, done, j.width - p)
    requires done + |piece| == |j.data|
    requires BLOCK * first + j.at % BLOCK - p + j.width <= |j.raw|
    requires BLOCK * Blocks(p + |piece|) <= j.width
    requires WindowWritten(j.cipher, now, next, first, j.at % BLOCK, p, piece, j.width)
    ensures Finished(j, next)
  {
    hide Plain, Rest, Overlay, Blocks, Tail, WindowBytes, ReadEnd, SameFrom, BlockEnd;
    LastPortion(j.data, done, j.width - p);
    LastSame(j.raw, now, next, first, p, |piece|);
    LastWindow(first, j.at % BLOCK, p, |piece|, j.width);
    SameWindow(j.raw, now, first, j.at % BLOCK, p, j.width);
    LastTail(j.cipher, j.raw, first, j.at % BLOCK, p, |piece|, j.width);
    LastOverlay(j, now, done, piece, first, p, JobTail(j));
  }

  lemma LastPortion(buffer: seq<byte>, done: nat, room: nat)
    requires done <= |buffer| && done + |Portion(buffer, done, room)| == |buffer|
    ensures Portion(buffer, done, room) == buffer[done..]
  {
  }

  lemma LastSame(raw: seq<byte>, now: seq<byte>, next: seq<byte>, first: nat, p: nat, n: nat)
    requires |raw| == |now| == |next| && BLOCK * (first + Blocks(p + n)) <= |raw|
    requires now[BLOCK * first..] == raw[BLOCK * first..]
    requires next[BLOCK * (first + Blocks(p + n))..] == now[BLOCK * (first + Blocks(p + n))..]
    ensures SameFrom(raw, next, BlockEnd(BLOCK * first + p + n))
  {
    var e := BLOCK * (first + Blocks(p + n));
    assert BlockEnd(BLOCK * first + p + n) == e;
    hide Blocks, BlockEnd;
    SliceFrame(raw, now, BLOCK * first, e, |raw|);
  }

  /** A window takes the write on, or to its end. */
  lemma NextOrLast(j: Job, now: seq<byte>, next: seq<byte>, done: nat, first: nat, p: nat, piece: seq<byte>)
    requires Halfway(j, now, done, first, p) && p <= j.width && done <= |j.data|
    requires piece == Portion(j.data, done, j.width - p)
    requires BLOCK * first + j.at % BLOCK - p + j.width <= |j.raw|
    requires BLOCK * Blocks(p + |piece|) <= j.width
    requires WindowWritten(j.cipher, now, next, first, j.at % BLOCK, p, piece, j.width)
    ensures done + |piece| <= |j.data|
    ensures done + |piece| < |j.data| ==> Halfway(j, next, done + |piece|, first + j.width / BLOCK, 0)
    ensures done + |piece| == |j.data| ==> Finished(j, next)
  {
    hide Halfway, Finished, Portion, WindowWritten, Blocks;
    if done + |piece| < |j.data| {
      NextHalfway(j, now, next, done, first, p, piece);
    } else {
      LastHalfway(j, now, next, done, first, p, piece);
    }
  }

  lemma LastOverlay(j: Job, now: seq<byte>, done: nat, piece: seq<byte>, first: nat, p: nat, rest: seq<byte>)
    requires Laid(j, now, done, first, p) && piece == j.data[done..]
    requires BLOCK * first + p <= |Plain(j.cipher, now)|
    ensures j.at <= |Plain(j.cipher, j.raw)| && |now| == |j.raw|
    ensures Overlay(Plain(j.cipher, now), BLOCK * first + p, piece + rest)
         == Overlay(Plain(j.cipher, j.raw), j.at, j.data + rest)
  {
    Rejoin(j.data, done, rest);
    hide Plain, Overlay;
    OverlayTwice(Plain(j.cipher, j.raw), j.at, j.data[..done], piece + rest);
  }

  lemma SameWindow(raw: seq<byte>, now: seq<byte>, first: nat, drift: nat, p: nat, width: nat)
    requires |now| == |raw| && p <= drift && BLOCK * first + drift - p + width <= |raw|
    requires now[BLOCK * first..] == raw[BLOCK * first..]
    ensures WindowBytes(now, first, drift, p, width) == WindowBytes(raw, first, drift, p, width)
  {
    SliceFrame(raw, now, BLOCK * first, BLOCK * first + drift - p, BLOCK * first + drift - p + width);
  }

  lemma LastTail(c: Cipher, raw: seq<byte>, first: nat, drift: nat, p: nat, n: nat, width: nat)
    requires p <= drift && p < BLOCK <= width && width % BLOCK == 0 && p + n <= width
    requires BLOCK * first + drift - p + width <= |raw| && BLOCK * Blocks(p + n) <= width
    ensures Tail(c, raw, first, drift, p, n, width) == Rest(c, WindowBytes(raw, first, drift, p, width), first, p, n)
  {
    hide Rest, WindowBytes;
  }

  lemma Rejoin(d: seq<byte>, done: nat, rest: seq<byte>)
    requires done <= |d|
    ensures d[..done] + (d[done..] + rest) == d + rest
  {
  }

  lemma FullWindow(c: Cipher, raw: seq<byte>, first: nat, drift: nat, p: nat, n: nat, width: nat)
    requires p <= drift && p < BLOCK <= width && width % BLOCK == 0 && p + n > width
    ensures n >= width - p > 0 && BLOCK * (first + width / BLOCK) == BLOCK * first + width
    ensures BLOCK * Blocks(width) == width
    ensures ReadEnd(first, drift, p, n, width) == ReadEnd(first + width / BLOCK, drift, 0, n - (width - p), width)
    ensures ReadEnd(first, drift, p, n, width) <= |raw| ==>
              Tail(c, raw, first, drift, p, n, width)
              == Tail(c, raw, first + width / BLOCK, drift, 0, n - (width - p), width)
  {
  }

  lemma LastWindow(first: nat, drift: nat, p: nat, n: nat, width: nat)
    requires p <= drift && p < BLOCK <= width && width % BLOCK == 0 && p + n <= width
    ensures ReadEnd(first, drift, p, n, width) == BLOCK * first + drift - p + width
  {
  }
}
