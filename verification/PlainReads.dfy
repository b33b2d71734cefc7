/** What the three parts of a read make of the bytes that came from the device. */
module PlainReads {
  import opened Base
  import opened CipherBlocks

  /**
   * Of the `n` bytes read from position `at`, the first `done` are what the
   * client is to see, the others are still encrypted, and the buffer behind
   * them is as it was.
   */
  ghost predicate Shown(c: Cipher, raw: seq<byte>, was: seq<byte>, buf: seq<byte>, at: nat, done: nat, n: nat)
  {
    && |buf| == |was| && done <= n <= |buf| && at + n <= |raw|
    && (done > 0 ==> at + done <= |Plain(c, raw)| && buf[..done] == Plain(c, raw)[at..at + done])
    && buf[done..n] == raw[at + done..at + n]
    && buf[n..] == was[n..]
  }

  /** Part 1: the rest of the first block, from a copy of that block */
  lemma ShowHead(c: Cipher, raw: seq<byte>, was: seq<byte>, buf: seq<byte>, at: nat, n: nat, b: Block, amount: nat)
    requires Shown(c, raw, was, buf, at, 0, n) && amount <= n && at % BLOCK + amount <= BLOCK
    requires BLOCK * (at / BLOCK) + BLOCK <= |Plain(c, raw)| && b == BlockAt(Plain(c, raw), at / BLOCK)
    ensures Shown(c, raw, was, Overlay(buf, 0, b[at % BLOCK..at % BLOCK + amount]), at, amount, n)
  {
    PieceOfBlock(Plain(c, raw), at / BLOCK, at % BLOCK, amount);
    hide Plain, BlockAt;
    ShowPiece(c, raw, was, buf, at, 0, b[at % BLOCK..at % BLOCK + amount], n);
  }

  /** Part 3: the beginning of the last block */
  lemma ShowTail(c: Cipher, raw: seq<byte>, was: seq<byte>, buf: seq<byte>, at: nat, done: nat, n: nat, first: nat,
                 b: Block)
    requires Shown(c, raw, was, buf, at, done, n) && at + done == BLOCK * first && n - done <= BLOCK
    requires BLOCK * first + BLOCK <= |Plain(c, raw)| && b == BlockAt(Plain(c, raw), first)
    ensures Shown(c, raw, was, Overlay(buf, done, b[..n - done]), at, n, n)
  {
    PieceOfBlock(Plain(c, raw), first, 0, n - done);
    hide Plain, BlockAt;
    ShowPiece(c, raw, was, buf, at, done, b[..n - done], n);
  }

  lemma PieceOfBlock(s: seq<byte>, i: nat, p: nat, k: nat)
    requires BLOCK * i + BLOCK <= |s| && p + k <= BLOCK
    ensures BlockAt(s, i)[p..p + k] == s[BLOCK * i + p..BLOCK * i + p + k]
  {
    SliceSlice(s, BLOCK * i, BLOCK, p, p + k);
  }

  /** Laying the right bytes over the next ones */
  lemma ShowPiece(c: Cipher, raw: seq<byte>, was: seq<byte>, buf: seq<byte>, at: nat, done: nat, piece: seq<byte>,
                  n: nat)
    requires Shown(c, raw, was, buf, at, done, n) && done + |piece| <= n && at + done + |piece| <= |Plain(c, raw)|
    requires piece == Plain(c, raw)[at + done..at + done + |piece|]
    ensures Shown(c, raw, was, Overlay(buf, done, piece), at, done + |piece|, n)
  {
    hide Plain;
    OverlayPieces(buf, done, piece, n);
    var m := done + |piece|;
    Joined(Plain(c, raw), at, done, m);
    assert done == 0 ==> buf[..done] == Plain(c, raw)[at..at + done];
    SliceSlice(raw, at, n, 0, n);
    assert buf[m..n] == buf[done..n][m - done..];
    assert raw[at + m..at + n] == raw[at + done..at + n][m - done..];
  }

  lemma OverlayPieces(buf: seq<byte>, done: nat, piece: seq<byte>, n: nat)
    requires done + |piece| <= n <= |buf|
    ensures var r, m := Overlay(buf, done, piece), done + |piece|;
            |r| == |buf| && r[..m] == buf[..done] + piece && r[m..n] == buf[m..n] && r[n..] == buf[n..]
  {
  }

  lemma Joined(s: seq<byte>, at: nat, done: nat, m: nat)
    requires done <= m && at + m <= |s|
    ensures s[at..at + done] + s[at + done..at + m] == s[at..at + m]
  {
  }

  /** Part 2: whole blocks, decrypted where they lie */
  lemma ShowMiddle(c: Cipher, raw: seq<byte>, was: seq<byte>, buf: seq<byte>, next: seq<byte>, at: nat, done: nat,
                   n: nat, first: nat, blocks: nat)
    requires Shown(c, raw, was, buf, at, done, n) && at + done == BLOCK * first && done + BLOCK * blocks <= n
    requires next == buf[..done] + Crypt(c, Output, buf[done..], first, blocks)
    ensures Shown(c, raw, was, next, at, done + BLOCK * blocks, n)
  {
    hide Crypt, Plain, Overlay;
    var k := BLOCK * blocks;
    var piece := Crypt(c, Output, buf[done..], first, blocks)[..k];
    CryptBehind(c, Output, buf[done..], first, blocks);
    CryptPrefix(c, Output, buf[done..], first, blocks);
    NextPiece(raw, buf, at, done, n, k);
    CryptSlice(c, raw, first, blocks);
    SwapPiece(buf, done, Crypt(c, Output, buf[done..], first, blocks), k);
    ShowPiece(c, raw, was, buf, at, done, piece, n);
  }

  lemma NextPiece(raw: seq<byte>, buf: seq<byte>, at: nat, done: nat, n: nat, k: nat)
    requires done + k <= n <= |buf| && at + n <= |raw| && buf[done..n] == raw[at + done..at + n]
    ensures buf[done..][..k] == raw[at + done..at + done + k]
  {
    SliceSlice(raw, at + done, n - done, 0, k);
    assert buf[done..][..k] == buf[done..n][..k];
  }

  lemma SwapPiece(buf: seq<byte>, done: nat, t: seq<byte>, k: nat)
    requires done + |t| == |buf| && k <= |t| && t[k..] == buf[done..][k..]
    ensures buf[..done] + t == Overlay(buf, done, t[..k])
  {
    assert t == t[..k] + t[k..];
    assert buf[done..][k..] == buf[done + k..];
  }

  /** Decrypting blocks of the disk gives what the client sees there. */
  lemma CryptSlice(c: Cipher, raw: seq<byte>, first: nat, n: nat)
    requires BLOCK * (first + n) <= |raw|
    ensures BLOCK * (first + n) <= |Plain(c, raw)|
    ensures Crypt(c, Output, raw[BLOCK * first..BLOCK * first + BLOCK * n], first, n)
         == Plain(c, raw)[BLOCK * first..BLOCK * first + BLOCK * n]
  {
    hide Crypt, Plain, Apply, BlockAt;
    PlainCovers(c, raw, first + n);
    var s := raw[BLOCK * first..BLOCK * first + BLOCK * n];
    var a, b := Crypt(c, Output, s, first, n), Plain(c, raw)[BLOCK * first..BLOCK * first + BLOCK * n];
    forall i | 0 <= i < n
      ensures BlockAt(a, i) == BlockAt(b, i)
    {
      CryptAt(c, Output, s, first, n, i);
      PlainBlock(c, raw, first + i);
      BlockOfSlice(raw, first, n, i);
      BlockOfSlice(Plain(c, raw), first, n, i);
    }
    SameBlocks(a, b);
  }

  lemma PlainCovers(c: Cipher, raw: seq<byte>, k: nat)
    requires BLOCK * k <= |raw|
    ensures BLOCK * k <= |Plain(c, raw)|
  {
  }

  lemma BlockOfSlice(s: seq<byte>, first: nat, n: nat, i: nat)
    requires BLOCK * (first + n) <= |s| && i < n
    ensures BlockAt(s[BLOCK * first..BLOCK * first + BLOCK * n], i) == BlockAt(s, first + i)
  {
    SliceSlice(s, BLOCK * first, BLOCK * n, BLOCK * i, BLOCK * i + BLOCK);
  }

  /** A block that was read, decrypted */
  lemma DecryptedBlock(c: Cipher, raw: seq<byte>, s: seq<byte>, first: nat)
    requires BLOCK <= |s| && BLOCK * first + |s| <= |raw| && s == raw[BLOCK * first..BLOCK * first + |s|]
    ensures BLOCK * first + BLOCK <= |Plain(c, raw)|
    ensures Crypt(c, Output, s, first, 1)[..BLOCK] == BlockAt(Plain(c, raw), first)
  {
    hide Crypt, Plain, Apply;
    SliceSlice(raw, BLOCK * first, |s|, 0, BLOCK);
    assert BlockAt(s, 0) == BlockAt(raw, first);
    PlainBlock(c, raw, first);
    CryptAt(c, Output, s, first, 1, 0);
  }
}
