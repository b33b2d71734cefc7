/** ctr_decrypt and cbc_decrypt: long messages in runs of at most 0xFFFF blocks. */
module Aes {
  import opened Base
  import opened CipherBlocks
  import opened Counters

  /** The most blocks that the engine takes at once */
  const MAX_RUN := 0xFFFF

  /** What a key makes of the number in the counter, and of a block of a CBC message */
  datatype Keys = Keys(stream: nat -> Block, decrypt: Block -> Block)

  function Twice(k: nat): (p: nat)
  {
    if k == 0 then 1 else 2 * Twice(k - 1)
  }

  /** The exclusive or of the lowest `k` bits */
  function XorBits(a: nat, b: nat, k: nat): (r: nat)
    ensures r < Twice(k)
  {
    if k == 0 then 0 else (a % 2 + b % 2) % 2 + 2 * XorBits(a / 2, b / 2, k - 1)
  }

  lemma {:induction false} XorBitsTwice(a: nat, b: nat, k: nat)
    requires a < Twice(k)
    ensures XorBits(XorBits(a, b, k), b, k) == a
  {
    if k > 0 {
      var p, h, q, g := a % 2, a / 2, b % 2, b / 2;
      XorParts(p, h, q, g, k);
      XorParts(Flip(p, q), XorBits(h, g, k - 1), q, g, k);
      HalfBelow(a, k);
      XorBitsTwice(h, g, k - 1);
      hide XorBits, Twice;
    }
  }

  function Flip(p: nat, q: nat): (bit: nat)
    ensures bit < 2
  {
    if p == q then 0 else 1
  }

  /** The lowest bit and the bits above it */
  lemma XorParts(p: nat, h: nat, q: nat, g: nat, k: nat)
    requires p < 2 && q < 2 && k > 0
    ensures XorBits(p + 2 * h, q + 2 * g, k) == Flip(p, q) + 2 * XorBits(h, g, k - 1)
  {
    HalfOf(p, h);
    HalfOf(q, g);
  }

  lemma HalfBelow(a: nat, k: nat)
    requires k > 0 && a < Twice(k)
    ensures a / 2 < Twice(k - 1)
  {
  }

  lemma HalfOf(bit: nat, r: nat)
    requires bit < 2
    ensures (bit + 2 * r) % 2 == bit && (bit + 2 * r) / 2 == r
  {
  }

  function Xor(a: byte, b: byte): (r: byte)
  {
    Bits8();
    XorBits(a, b, 8)
  }

  lemma Bits8()
    ensures Twice(8) == 0x100
  {
    assert Twice(4) == 16;
  }

  lemma XorTwice(a: byte, b: byte)
    ensures Xor(Xor(a, b), b) == a
  {
    Bits8();
    XorBitsTwice(a, b, 8);
  }

  function XorBlocks(x: Block, y: Block): (r: Block)
    ensures forall i :: 0 <= i < BLOCK ==> r[i] == Xor(x[i], y[i])
  {
    seq(BLOCK, i requires 0 <= i < BLOCK => Xor(x[i], y[i]))
  }

  /* Counter mode (section 6.5 of NIST SP 800-38A) */

  function KeyBlock(k: Keys, start: nat, i: nat): (b: Block)
  {
    k.stream(Advanced(start, i))
  }

  /** Counter mode as a cipher on numbered blocks: block `i` is combined with the key stream at start + i mod 2^128. */
  function CtrCipher(k: Keys, start: nat): (c: Cipher)
  {
    Cipher((i, x) => XorBlocks(x, KeyBlock(k, start, i)), (i, x) => XorBlocks(x, KeyBlock(k, start, i)))
  }

  lemma CtrApplies(k: Keys, start: nat, f: Direction, i: nat, x: Block)
    ensures Apply(CtrCipher(k, start), f, i, x) == XorBlocks(x, KeyBlock(k, start, i))
  {
  }

  /** Decryption undoes encryption, so the results about the encrypted disk hold for this mode. */
  lemma CtrInverse(k: Keys, start: nat)
    ensures Inverse(CtrCipher(k, start))
  {
    var c := CtrCipher(k, start);
    forall i: nat, x: Block
      ensures Apply(c, Output, i, Apply(c, Input, i, x)) == x
    {
      CtrApplies(k, start, Input, i, x);
      CtrApplies(k, start, Output, i, Apply(c, Input, i, x));
      hide CtrCipher, Apply, KeyBlock, Xor;
      XorBlocksTwice(x, KeyBlock(k, start, i));
    }
  }

  lemma XorBlocksTwice(x: Block, y: Block)
    ensures XorBlocks(XorBlocks(x, y), y) == x
  {
    var r := XorBlocks(XorBlocks(x, y), y);
    hide Xor;
    forall i | 0 <= i < BLOCK
      ensures r[i] == x[i]
    {
      XorTwice(x[i], y[i]);
    }
  }

  /** Advancing the counter by `first` is the same as numbering the blocks from `first` on. */
  lemma {:induction false} CtrAdvance(k: Keys, start: nat, f: Direction, s: seq<byte>, first: nat, n: nat)
    requires BLOCK * n <= |s|
    ensures Crypt(CtrCipher(k, start), f, s, first, n) == Crypt(CtrCipher(k, Advanced(start, first)), f, s, 0, n)
  {
    hide CtrCipher, Apply, KeyBlock, Advanced;
    if n > 0 {
      CtrAdvance(k, start, f, s, first, n - 1);
      CtrApplies(k, start, f, first + n - 1, BlockAt(s, n - 1));
      CtrApplies(k, Advanced(start, first), f, n - 1, BlockAt(s, n - 1));
      SameKey(k, start, first, n - 1);
    }
  }

  lemma SameKey(k: Keys, start: nat, first: nat, i: nat)
    ensures KeyBlock(k, Advanced(start, first), i) == KeyBlock(k, start, first + i)
  {
    AdvancedTwice(start, first, i);
    hide Advanced;
  }

  /** The blocks behind the first `a` of a message are a message of their own. */
  lemma {:induction false} CryptSplit(c: Cipher, f: Direction, s: seq<byte>, first: nat, a: nat, b: nat)
    requires BLOCK * (a + b) <= |s|
    ensures Crypt(c, f, s, first, a + b)
         == Crypt(c, f, s, first, a)[..BLOCK * a] + Crypt(c, f, s[BLOCK * a..], first + a, b)
  {
    hide Apply, Crypt, Overlay;
    var t := s[BLOCK * a..];
    var head := Crypt(c, f, s, first, a)[..BLOCK * a];
    if b == 0 {
      CryptNone(c, f, t, first + a);
      CryptBehind(c, f, s, first, a);
    } else {
      CryptSplit(c, f, s, first, a, b - 1);
      CryptStep(c, f, s, first, a + b - 1);
      CryptStep(c, f, t, first + a, b - 1);
      BlockBehind(s, a, b - 1);
      hide BlockAt;
      OverlayShift(head, Crypt(c, f, t, first + a, b - 1), BLOCK * (b - 1), Apply(c, f, first + a + b - 1, BlockAt(t,
                   b - 1)));
    }
  }

  lemma CryptNone(c: Cipher, f: Direction, s: seq<byte>, first: nat)
    ensures Crypt(c, f, s, first, 0) == s
  {
  }

  lemma BlockBehind(s: seq<byte>, a: nat, i: nat)
    requires BLOCK * (a + i) + BLOCK <= |s|
    ensures BlockAt(s[BLOCK * a..], i) == BlockAt(s, a + i)
  {
  }

  /* The engine */

  class AesEngine {
    const keys: Keys
    var register: seq<byte>

    constructor (keys: Keys)
      ensures this.keys == keys && |register| == CTR_SIZE
    {
      this.keys := keys;
      register := Zeros(CTR_SIZE);
    }

    /** set_ctr */
    method SetCtr(ctr: array<byte>)
      modifies this
      ensures register == ctr[..]
    {
      register := ctr[..];
    }

    /** aes_decrypt in counter mode, on up to 0xFFFF blocks: the engine counts on by itself. */
    method RunCtr(buf: array<byte>, at: nat, n: nat)
      requires |register| == CTR_SIZE && n <= MAX_RUN && at + BLOCK * n <= buf.Length
      modifies buf
      ensures buf[..] == old(buf[..])[..at] + Crypt(CtrCipher(keys, Value(register)), Output, old(buf[..])[at..], 0, n)
    {
      ghost var c, head, s := CtrCipher(keys, Value(register)), buf[..][..at], buf[..][at..];
      CryptNone(c, Output, s, 0);
      hide *;
      var start := Value(register);
      var i := 0;
      while i < n
        invariant 0 <= i <= n
        invariant buf[..] == head + Crypt(c, Output, s, 0, i)
      {
        RunBlock(buf, at, start, i, head, s);
        i := i + 1;
      }
    }

    method RunBlock(buf: array<byte>, at: nat, start: nat, i: nat, ghost head: seq<byte>, ghost s: seq<byte>)
      requires BLOCK * (i + 1) <= |s| && at == |head| && at + |s| == buf.Length
      requires buf[..] == head + Crypt(CtrCipher(keys, start), Output, s, 0, i)
      modifies buf
      ensures buf[..] == head + Crypt(CtrCipher(keys, start), Output, s, 0, i + 1)
    {
      hide Crypt, CtrCipher, Apply, Overlay, XorBlocks, KeyBlock;
      ghost var c := CtrCipher(keys, start);
      CryptStep(c, Output, s, 0, i);
      CtrApplies(keys, start, Output, i, BlockAt(s, i));
      OverlayShift(head, Crypt(c, Output, s, 0, i), BLOCK * i, Apply(c, Output, i, BlockAt(s, i)));
      SliceShift(head, Crypt(c, Output, s, 0, i), BLOCK * i, BLOCK * i + BLOCK);
      var lo := at + BLOCK * i;
      var b: Block := buf[lo..lo + BLOCK];
      assert b == buf[..][lo..lo + BLOCK];
      MemCpy(buf, lo, XorBlocks(b, KeyBlock(keys, start, i)));
    }
  }

  /**
   * ctr_decrypt in place: the whole message in counter mode, whatever its
   * length, and the counter moves on behind it.
   */
  method CtrDecrypt(e: AesEngine, buf: array<byte>, size: nat, ctr: array<byte>)
    requires ctr.Length == CTR_SIZE && BLOCK * size <= buf.Length && ctr != buf
    modifies e, buf, ctr
    ensures buf[..] == Crypt(CtrCipher(e.keys, old(Value(ctr[..]))), Output, old(buf[..]), 0, size)
    ensures Value(ctr[..]) == Advanced(old(Value(ctr[..])), size)
  {
    AdvancedNone(ctr[..]);
    CryptNone(CtrCipher(e.keys, Value(ctr[..])), Output, buf[..], 0);
    hide Crypt, CtrCipher, Advanced, Value;
    CtrRuns(e, buf, size, ctr, Value(ctr[..]), buf[..]);
  }

  /** The loop of ctr_decrypt */
  method CtrRuns(e: AesEngine, buf: array<byte>, size: nat, ctr: array<byte>, ghost start: nat, ghost s: seq<byte>)
    requires ctr.Length == CTR_SIZE && BLOCK * size <= buf.Length == |s| && ctr != buf
    requires buf[..] == Crypt(CtrCipher(e.keys, start), Output, s, 0, 0) && Value(ctr[..]) == Advanced(start, 0)
    modifies e, buf, ctr
    ensures buf[..] == Crypt(CtrCipher(e.keys, start), Output, s, 0, size)
    ensures Value(ctr[..]) == Advanced(start, size)
  {
    hide Crypt, CtrCipher, Advanced, Value, KeyBlock, XorBlocks, Xor, Apply;
    var left: nat, done: nat := size, 0;
    while left > 0
      invariant done + left == size
      invariant buf[..] == Crypt(CtrCipher(e.keys, start), Output, s, 0, done)
      invariant Value(ctr[..]) == Advanced(start, done)
    {
      var blocks: nat := if left >= MAX_RUN then MAX_RUN else left;
      CtrChunk(e, buf, ctr, done, blocks, start, s);
      done, left := done + blocks, left - blocks;
    }
  }

  /** The body of the loop of ctr_decrypt */
  method CtrChunk(e: AesEngine, buf: array<byte>, ctr: array<byte>, done: nat, blocks: nat, ghost start: nat,
                  ghost s: seq<byte>)
    requires ctr.Length == CTR_SIZE && ctr != buf && 0 < blocks <= MAX_RUN
    requires BLOCK * (done + blocks) <= |s| == buf.Length
    requires buf[..] == Crypt(CtrCipher(e.keys, start), Output, s, 0, done)
    requires Value(ctr[..]) == Advanced(start, done)
    modifies e, buf, ctr
    ensures buf[..] == Crypt(CtrCipher(e.keys, start), Output, s, 0, done + blocks)
    ensures Value(ctr[..]) == Advanced(start, done + blocks)
  {
    NextRun(e.keys, start, s, done, blocks);
    AdvancedTwice(start, done, blocks);
    hide Crypt, CtrCipher, Advanced, Value;
    e.SetCtr(ctr);
    e.RunCtr(buf, BLOCK * done, blocks);
    AddCtr(ctr, blocks);
  }

  /** One more run of a message in counter mode */
  lemma NextRun(k: Keys, start: nat, s: seq<byte>, done: nat, n: nat)
    requires BLOCK * (done + n) <= |s|
    ensures var t := Crypt(CtrCipher(k, start), Output, s, 0, done);
            t[..BLOCK * done] + Crypt(CtrCipher(k, Advanced(start, done)), Output, t[BLOCK * done..], 0, n)
            == Crypt(CtrCipher(k, start), Output, s, 0, done + n)
  {
    hide Crypt, CtrCipher, Advanced;
    var c := CtrCipher(k, start);
    CryptSplit(c, Output, s, 0, done, n);
    CryptBehind(c, Output, s, 0, done);
    CtrAdvance(k, start, Output, s[BLOCK * done..], done, n);
  }

  /**
   * input and output of the crypto interface in counter mode: a copy of the
   * interface's counter is advanced to block number `block`. So they are what
   * the encrypted disk asks of its cipher.
   */
  method CtrBlocks(e: AesEngine, buf: array<byte>, ctr: array<byte>, block: word32, count: nat)
    requires ctr.Length == CTR_SIZE && BLOCK * count <= buf.Length && ctr != buf
    modifies e, buf
    ensures buf[..] == Crypt(CtrCipher(e.keys, Value(ctr[..])), Output, old(buf[..]), block, count)
    ensures ctr[..] == old(ctr[..])
  {
    CryptNone(CtrCipher(e.keys, Value(ctr[..])), Output, buf[..], block);
    CtrAdvance(e.keys, Value(ctr[..]), Output, buf[..], block, count);
    hide Crypt, CtrCipher, Advanced, Value;
    if count > 0 {
      var copy := new byte[CTR_SIZE];
      OverlayWhole(copy[..], ctr[..]);
      MemCpy(copy, 0, ctr[..]);
      AddCtr(copy, block);
      CtrDecrypt(e, buf, count, copy);
    }
  }

  lemma OverlayWhole(was: seq<byte>, d: seq<byte>)
    requires |was| == |d|
    ensures Overlay(was, 0, d) == d
  {
  }

  /* Cipher block chaining (section 6.2 of NIST SP 800-38A) */

  /** The block before block `i`: the initialization vector for the first */
  function Before(iv: Block, s: seq<byte>, i: nat): (b: Block)
    requires BLOCK * i <= |s|
  {
    if i == 0 then iv else BlockAt(s, i - 1)
  }

  /** A block decrypted and combined with the ciphertext before it */
  function Chained(k: Keys, prev: Block, x: Block): (b: Block)
  {
    XorBlocks(k.decrypt(x), prev)
  }

  /** The first `n` blocks of a message, each decrypted and combined with the ciphertext before it */
  function CbcPlain(k: Keys, iv: Block, s: seq<byte>, n: nat): (r: seq<byte>)
    requires BLOCK * n <= |s|
    ensures |r| == |s|
  {
    if n == 0 then s
    else
      Overlay(CbcPlain(k, iv, s, n - 1), BLOCK * (n - 1), Chained(k, Before(iv, s, n - 1), BlockAt(s, n - 1)))
  }

  lemma {:induction false} CbcBehind(k: Keys, iv: Block, s: seq<byte>, n: nat)
    requires BLOCK * n <= |s|
    ensures CbcPlain(k, iv, s, n)[BLOCK * n..] == s[BLOCK * n..]
  {
    hide Chained, BlockAt, Before;
    if n > 0 {
      CbcBehind(k, iv, s, n - 1);
      var t := CbcPlain(k, iv, s, n - 1);
      SliceFrame(t, s, BLOCK * (n - 1), BLOCK * n, |s|);
      var d: Block := Chained(k, Before(iv, s, n - 1), BlockAt(s, n - 1));
      hide CbcPlain;
      OverlayBehind(t, BLOCK * (n - 1), d);
    }
  }

  /** The blocks behind the first `a` are a message whose initialization vector is the block before them. */
  lemma {:induction false} CbcSplit(k: Keys, iv: Block, s: seq<byte>, a: nat, b: nat)
    requires BLOCK * (a + b) <= |s|
    ensures CbcPlain(k, iv, s, a + b)
         == CbcPlain(k, iv, s, a)[..BLOCK * a] + CbcPlain(k, Before(iv, s, a), s[BLOCK * a..], b)
  {
    hide Chained, Overlay, CbcPlain, BlockAt, Before;
    var t := s[BLOCK * a..];
    var next, head := Before(iv, s, a), CbcPlain(k, iv, s, a)[..BLOCK * a];
    if b == 0 {
      CbcNone(k, next, t);
      CbcBehind(k, iv, s, a);
    } else {
      CbcSplit(k, iv, s, a, b - 1);
      BlockBehind(s, a, b - 1);
      BeforeBehind(iv, s, a, b - 1);
      CbcStep(k, iv, s, a + b - 1);
      CbcStep(k, next, t, b - 1);
      OverlayShift(head, CbcPlain(k, next, t, b - 1), BLOCK * (b - 1), Chained(k, Before(next, t, b - 1), BlockAt(t,
                   b - 1)));
    }
  }

  lemma CbcNone(k: Keys, iv: Block, s: seq<byte>)
    ensures CbcPlain(k, iv, s, 0) == s && Before(iv, s, 0) == iv
  {
  }

  lemma BeforeBehind(iv: Block, s: seq<byte>, a: nat, i: nat)
    requires BLOCK * (a + i) <= |s|
    ensures Before(Before(iv, s, a), s[BLOCK * a..], i) == Before(iv, s, a + i)
  {
    if i > 0 {
      BlockBehind(s, a, i - 1);
    }
  }

  /** aes_decrypt in CBC mode: the register holds the ciphertext before the next block. */
  method RunCbc(e: AesEngine, buf: array<byte>, at: nat, n: nat)
    requires |e.register| == CTR_SIZE && n <= MAX_RUN && at + BLOCK * n <= buf.Length
    modifies buf, e
    ensures buf[..] == old(buf[..])[..at] + CbcPlain(e.keys, old(e.register), old(buf[..])[at..], n)
  {
    ghost var iv: Block, head, s := e.register, buf[..][..at], buf[..][at..];
    hide Chained, Overlay, BlockAt, Before;
    var i := 0;
    CbcNone(e.keys, iv, s);
    hide CbcPlain;
    while i < n
      invariant 0 <= i <= n && |e.register| == CTR_SIZE
      invariant buf[..] == head + CbcPlain(e.keys, iv, s, i)
      invariant e.register == Before(iv, s, i)
    {
      CbcBlock(e, buf, at, i, iv, head, s);
      i := i + 1;
    }
  }

  lemma CbcStep(k: Keys, iv: Block, s: seq<byte>, i: nat)
    requires BLOCK * (i + 1) <= |s|
    ensures CbcPlain(k, iv, s, i)[BLOCK * i..BLOCK * i + BLOCK] == BlockAt(s, i) == Before(iv, s, i + 1)
    ensures CbcPlain(k, iv, s, i + 1)
         == Overlay(CbcPlain(k, iv, s, i), BLOCK * i, Chained(k, Before(iv, s, i), BlockAt(s, i)))
  {
    CbcBehind(k, iv, s, i);
    SliceFrame(CbcPlain(k, iv, s, i), s, BLOCK * i, BLOCK * i, BLOCK * i + BLOCK);
    hide Chained, Overlay;
  }

  /** One block of a CBC run */
  method CbcBlock(e: AesEngine, buf: array<byte>, at: nat, i: nat, ghost iv: Block, ghost head: seq<byte>,
                  ghost s: seq<byte>)
    requires BLOCK * (i + 1) <= |s| && at == |head| && at + |s| == buf.Length && |e.register| == CTR_SIZE
    requires buf[..] == head + CbcPlain(e.keys, iv, s, i) && e.register == Before(iv, s, i)
    modifies buf, e
    ensures buf[..] == head + CbcPlain(e.keys, iv, s, i + 1) && e.register == Before(iv, s, i + 1)
  {
    hide Chained, Overlay, BlockAt, Before, CbcPlain;
    ghost var now := buf[..];
    CbcNext(e.keys, iv, head, s, i, now);
    var lo := at + BLOCK * i;
    var b: Block := buf[lo..lo + BLOCK];
    assert b == now[lo..lo + BLOCK];
    var plain := ChainOne(e, b);
    MemCpy(buf, lo, plain);
  }

  /** What the engine does with one block */
  method ChainOne(e: AesEngine, b: Block) returns (plain: Block)
    requires |e.register| == CTR_SIZE
    modifies e
    ensures plain == Chained(e.keys, old(e.register), b) && e.register == b
  {
    plain := Chained(e.keys, e.register, b);
    e.register := b;
  }

  lemma CbcNext(k: Keys, iv: Block, head: seq<byte>, s: seq<byte>, i: nat, now: seq<byte>)
    requires BLOCK * (i + 1) <= |s| && now == head + CbcPlain(k, iv, s, i)
    ensures var lo := |head| + BLOCK * i;
            && |now| == |head| + |s| && now[lo..lo + BLOCK] == Before(iv, s, i + 1)
            && Overlay(now, lo, Chained(k, Before(iv, s, i), Before(iv, s, i + 1))) == head + CbcPlain(k, iv, s, i + 1)
  {
    CbcStep(k, iv, s, i);
    hide Chained, Overlay, BlockAt, Before, CbcPlain;
    OverlayShift(head, CbcPlain(k, iv, s, i), BLOCK * i, Chained(k, Before(iv, s, i), BlockAt(s, i)));
    SliceShift(head, CbcPlain(k, iv, s, i), BLOCK * i, BLOCK * i + BLOCK);
  }

  /** cbc_decrypt in place: the counter is set to the last block of each run before the run overwrites it. */
  method CbcDecrypt(e: AesEngine, buf: array<byte>, size: nat, ctr: array<byte>)
    requires ctr.Length == CTR_SIZE && BLOCK * size <= buf.Length && ctr != buf
    modifies e, buf, ctr
    ensures buf[..] == CbcPlain(e.keys, old(ctr[..]), old(buf[..]), size)
    ensures ctr[..] == Before(old(ctr[..]), old(buf[..]), size)
  {
    ghost var iv: Block, s := ctr[..], buf[..];
    CbcNone(e.keys, iv, s);
    hide CbcPlain, Before, Chained, Overlay;
    CbcRuns(e, buf, size, ctr, iv, s);
  }

  /** The loop of cbc_decrypt */
  method CbcRuns(e: AesEngine, buf: array<byte>, size: nat, ctr: array<byte>, ghost iv: Block, ghost s: seq<byte>)
    requires ctr.Length == CTR_SIZE && BLOCK * size <= buf.Length == |s| && ctr != buf
    requires buf[..] == CbcPlain(e.keys, iv, s, 0) && ctr[..] == Before(iv, s, 0)
    modifies e, buf, ctr
    ensures buf[..] == CbcPlain(e.keys, iv, s, size) && ctr[..] == Before(iv, s, size)
  {
    hide CbcPlain, Before, Chained, Overlay, BlockAt;
    var left: nat, done: nat := size, 0;
    while left > 0
      invariant done + left == size
      invariant buf[..] == CbcPlain(e.keys, iv, s, done) && ctr[..] == Before(iv, s, done)
    {
      var blocks: nat := if left >= MAX_RUN then MAX_RUN else left;
      CbcChunk(e, buf, ctr, done, blocks, iv, s);
      done, left := done + blocks, left - blocks;
    }
  }

  /** The body of the loop of cbc_decrypt */
  method CbcChunk(e: AesEngine, buf: array<byte>, ctr: array<byte>, done: nat, blocks: nat, ghost iv: Block,
                  ghost s: seq<byte>)
    requires ctr.Length == CTR_SIZE && ctr != buf && 0 < blocks <= MAX_RUN
    requires BLOCK * (done + blocks) <= |s| == buf.Length
    requires buf[..] == CbcPlain(e.keys, iv, s, done) && ctr[..] == Before(iv, s, done)
    modifies e, buf, ctr
    ensures buf[..] == CbcPlain(e.keys, iv, s, done + blocks) && ctr[..] == Before(iv, s, done + blocks)
  {
    ghost var now := buf[..];
    LastOfRun(e.keys, iv, s, done, blocks);
    CbcSplit(e.keys, iv, s, done, blocks);
    CbcBehind(e.keys, iv, s, done);
    hide CbcPlain, Before, Chained, Overlay, BlockAt;
    e.SetCtr(ctr);
    var last := BLOCK * done + (blocks - 1) * BLOCK;
    assert buf[last..last + BLOCK] == now[last..last + BLOCK];
    OverlayWhole(ctr[..], buf[last..last + BLOCK]);
    MemCpy(ctr, 0, buf[last..last + BLOCK]);
    RunCbc(e, buf, BLOCK * done, blocks);
  }

  /** The last ciphertext block of a run is still there when it is saved. */
  lemma LastOfRun(k: Keys, iv: Block, s: seq<byte>, done: nat, blocks: nat)
    requires 0 < blocks && BLOCK * (done + blocks) <= |s|
    ensures var last := BLOCK * done + (blocks - 1) * BLOCK;
            CbcPlain(k, iv, s, done)[last..last + BLOCK] == Before(iv, s, done + blocks)
  {
    var last := BLOCK * done + (blocks - 1) * BLOCK;
    CbcBehind(k, iv, s, done);
    SliceFrame(CbcPlain(k, iv, s, done), s, BLOCK * done, last, last + BLOCK);
  }

  /** Block by block, this is counter mode and chaining as the standard has them. */
  lemma CtrAt(k: Keys, start: nat, s: seq<byte>, n: nat, i: nat)
    requires BLOCK * n <= |s| && i < n
    ensures BlockAt(Crypt(CtrCipher(k, start), Output, s, 0, n), i)
         == XorBlocks(BlockAt(s, i), k.stream((start + i) % Modulus()))
  {
    CryptAt(CtrCipher(k, start), Output, s, 0, n, i);
    CtrApplies(k, start, Output, i, BlockAt(s, i));
    hide Crypt, CtrCipher, XorBlocks, Apply, Modulus, BlockAt;
  }

  lemma {:induction false} CbcAt(k: Keys, iv: Block, s: seq<byte>, n: nat, i: nat)
    requires BLOCK * n <= |s| && i < n
    ensures BlockAt(CbcPlain(k, iv, s, n), i) == Chained(k, Before(iv, s, i), BlockAt(s, i))
  {
    hide Chained, Before, CbcPlain, Overlay;
    CbcStep(k, iv, s, n - 1);
    OverlayBlocks(CbcPlain(k, iv, s, n - 1), n - 1, Chained(k, Before(iv, s, n - 1), BlockAt(s, n - 1)), 1, i);
    if i < n - 1 {
      CbcAt(k, iv, s, n - 1, i);
    } else {
      WholeBlock(Chained(k, Before(iv, s, n - 1), BlockAt(s, n - 1)));
    }
  }

  lemma WholeBlock(b: Block)
    ensures BlockAt(b, 0) == b
  {
  }
}
