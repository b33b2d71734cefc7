/**
 * The chunk arithmetic of ctr_crypto_interface.c, for sectors that divide a
 * cipher block or are made of whole blocks.
 */
module Chunks {
  import opened Base
  import opened CipherBlocks
  import opened SectorDevice

  /** Sector sizes that divide the block size of 16 or are a multiple of it */
  predicate Shape(ss: nat)
  {
    ss == 1 || ss == 2 || ss == 4 || ss == 8 || (ss > 0 && ss % BLOCK == 0)
  }

  /** FLOOR(position, chunk_size) */
  function GetChunk(position: nat, size: nat): (c: nat)
    requires size > 0
  {
    position / size
  }

  /** CEIL(position, chunk_size) */
  function GetChunkFollowing(position: nat, size: nat): (c: nat)
    requires size > 0
  {
    (position + size - 1) / size
  }

  function PrevRelativeChunk(chunk: nat, size: nat, other: nat): (c: nat)
    requires other > 0
  {
    GetChunk(Span(size, chunk), other)
  }

  function NextRelativeChunk(chunk: nat, size: nat, other: nat): (c: nat)
    requires other > 0
  {
    if chunk != 0 then GetChunkFollowing(Span(size, chunk), other) else 0
  }

  /** get_chunks_to_complete_relative_chunk_backwards */
  function CompleteBackwards(chunk: nat, size: nat, other: nat): (c: nat)
    requires size > 0 && other > 0
  {
    var delta := Span(size, chunk) - Span(other, PrevRelativeChunk(chunk, size, other));
    if delta > 0 then GetChunkFollowing(delta, size) else 0
  }

  /** get_chunks_to_complete_relative_chunk */
  function CompleteForwards(chunk: nat, size: nat, other: nat): (c: nat)
    requires size > 0 && other > 0
  {
    var delta := Span(other, NextRelativeChunk(chunk, size, other)) - Span(size, chunk);
    if delta > 0 then GetChunkFollowing(delta, size) else 0
  }

  /* The same numbers as byte counts */

  lemma SpanBlocks(ss: nat, n: nat)
    requires ss % BLOCK == 0
    ensures Span(ss, n) % BLOCK == 0
  {
    var m := ss / BLOCK;
    assert n * ss == BLOCK * (n * m) by {
      assert ss == BLOCK * m;
      Assoc(n, BLOCK, m);
    }
  }

  lemma Assoc(a: nat, b: nat, c: nat)
    ensures a * (b * c) == b * (a * c)
  {
  }

  /** Sectors smaller than a block divide it. */
  predicate Small(ss: nat)
  {
    ss == 1 || ss == 2 || ss == 4 || ss == 8
  }

  lemma WholeChunks(ss: nat, d: nat)
    requires Small(ss) && d % ss == 0
    ensures Span(ss, GetChunkFollowing(d, ss)) == d
  {
    SmallSpan(ss, GetChunkFollowing(d, ss));
    hide Span;
  }

  /** The bytes before sector `sector` in its block, and the bytes from there on, are whole small sectors. */
  lemma SmallRests(ss: nat, sector: nat)
    requires Small(ss)
    ensures var p := Span(ss, sector) % BLOCK; p % ss == 0 && (BLOCK - p) % ss == 0
  {
    SmallSpan(ss, sector);
    RestOfTwos(sector);
    RestOfFours(sector);
    RestOfEights(sector);
    hide Span;
  }

  lemma RestOfTwos(n: nat)
    ensures 2 * n % BLOCK % 2 == 0 && (BLOCK - 2 * n % BLOCK) % 2 == 0
  {
    assert 2 * n % BLOCK == 2 * (n - 8 * (2 * n / BLOCK));
  }

  lemma RestOfFours(n: nat)
    ensures 4 * n % BLOCK % 4 == 0 && (BLOCK - 4 * n % BLOCK) % 4 == 0
  {
    assert 4 * n % BLOCK == 4 * (n - 4 * (4 * n / BLOCK));
  }

  lemma RestOfEights(n: nat)
    ensures 8 * n % BLOCK % 8 == 0 && (BLOCK - 8 * n % BLOCK) % 8 == 0
  {
    assert 8 * n % BLOCK == 8 * (n - 2 * (8 * n / BLOCK));
  }

  lemma BlockBefore(ss: nat, sector: nat)
    ensures Span(ss, sector) - Span(BLOCK, PrevRelativeChunk(sector, ss, BLOCK)) == Span(ss, sector) % BLOCK
  {
    BlockSpan(PrevRelativeChunk(sector, ss, BLOCK));
    hide Span;
  }

  lemma BlockBehind(ss: nat, sector: nat)
    ensures var p := Span(ss, sector) % BLOCK;
            Span(BLOCK, NextRelativeChunk(sector, ss, BLOCK)) - Span(ss, sector) == if p == 0 then 0 else BLOCK - p
  {
    BlockSpan(NextRelativeChunk(sector, ss, BLOCK));
    SpanAdd(ss, 0, 0);
    hide Span;
  }

  /** The sectors before `sector` in its block, as bytes */
  lemma Backwards(ss: nat, sector: nat)
    requires Shape(ss)
    ensures var k := CompleteBackwards(sector, ss, BLOCK);
            && k <= sector && Span(ss, k) == Span(ss, sector) % BLOCK
            && (ss % BLOCK == 0 ==> k == 0)
            && Span(ss, sector - k) == BLOCK * PrevRelativeChunk(sector, ss, BLOCK)
  {
    var k := CompleteBackwards(sector, ss, BLOCK);
    BlockBefore(ss, sector);
    SpanAdd(ss, 0, 0);
    if ss % BLOCK == 0 {
      SpanBlocks(ss, sector);
    } else {
      SmallRests(ss, sector);
      WholeChunks(ss, Span(ss, sector) % BLOCK);
    }
    hide Span, Shape, GetChunkFollowing;
    SpanOrder(ss, k, sector);
    SpanAdd(ss, sector - k, k);
  }

  /** The sectors that complete the block of `sector`, as bytes */
  lemma Forwards(ss: nat, sector: nat)
    requires Shape(ss)
    ensures var k, p := CompleteForwards(sector, ss, BLOCK), Span(ss, sector) % BLOCK;
            && (p == 0 ==> k == 0)
            && (p > 0 ==> k > 0 && Span(ss, k) == BLOCK - p && ss < BLOCK)
  {
    BlockBehind(ss, sector);
    SpanAdd(ss, 0, 0);
    if ss % BLOCK == 0 {
      SpanBlocks(ss, sector);
    } else {
      SmallRests(ss, sector);
      WholeChunks(ss, BLOCK - Span(ss, sector) % BLOCK);
    }
    hide Span, GetChunkFollowing, NextRelativeChunk;
  }

  /** How far get_misaligned_block reads: it takes sixteen sectors when it starts with a block. */
  function BlockReach(ss: nat, sector: nat): (e: nat)
  {
    Span(ss, sector) / BLOCK * BLOCK + (if Span(ss, sector) % BLOCK == 0 then Span(ss, BLOCK) else BLOCK)
  }

  /** The sectors that get_misaligned_block reads hold the whole block. */
  lemma BlockSectors(ss: nat, sector: nat)
    requires Shape(ss)
    ensures var prior, forwards := CompleteBackwards(sector, ss, BLOCK), CompleteForwards(sector, ss, BLOCK);
            var first, count := PrevRelativeChunk(sector, ss, BLOCK), prior + if forwards == 0 then BLOCK else forwards;
            && prior <= sector && first == Span(ss, sector) / BLOCK
            && Span(BLOCK, first) == Span(ss, sector - prior) == BLOCK * first
            && Span(ss, count) >= BLOCK && Moved(ss, Span(ss, count), count) == Span(ss, count)
            && BLOCK * first + Span(ss, count) == BlockReach(ss, sector)
  {
    var prior, forwards := CompleteBackwards(sector, ss, BLOCK), CompleteForwards(sector, ss, BLOCK);
    var count := prior + if forwards == 0 then BLOCK else forwards;
    Backwards(ss, sector);
    Forwards(ss, sector);
    BlockSpan(PrevRelativeChunk(sector, ss, BLOCK));
    MovedAll(ss, Span(ss, count), count);
    SpanAdd(ss, prior, forwards);
    if forwards == 0 {
      NoSpan(ss, prior);
      SixteenSpan(ss);
    }
    hide Span, CompleteBackwards, CompleteForwards, Moved, Shape;
  }

  lemma NoSpan(ss: nat, k: nat)
    requires ss > 0 && Span(ss, k) == 0
    ensures k == 0
  {
    SpanAdd(ss, 0, 0);
    SpanOrder(ss, k, 0);
  }

  lemma SixteenSpan(ss: nat)
    requires ss > 0
    ensures Span(ss, BLOCK) >= BLOCK
  {
  }

  lemma BlockSpan(n: nat)
    ensures Span(BLOCK, n) == BLOCK * n
  {
  }

  lemma SmallSpan(ss: nat, n: nat)
    ensures ss == 1 ==> Span(ss, n) == n
    ensures ss == 2 ==> Span(ss, n) == 2 * n
    ensures ss == 4 ==> Span(ss, n) == 4 * n
    ensures ss == 8 ==> Span(ss, n) == 8 * n
  {
  }

  /** The larger of sector and block: their least common multiple */
  function Unit(ss: nat): (u: nat)
  {
    if ss >= BLOCK then ss else BLOCK
  }

  /** sizeof(window_buffer): four times the lcm, and the sectors of one more block */
  function WindowSize(ss: nat): (w: nat)
    ensures w == 5 * Unit(ss)
  {
    4 * Unit(ss) + Unit(ss)
  }

  lemma WindowShape(ss: nat)
    requires Shape(ss)
    ensures WindowSize(ss) % BLOCK == 0 && WindowSize(ss) >= 5 * BLOCK && WindowSize(ss) >= 5 * ss
    ensures Whole(ss, WindowSize(ss)) == WindowSize(ss)
  {
    var n := if ss == 1 then 80 else if ss == 2 then 40 else if ss == 4 then 20 else if ss == 8 then 10 else 5;
    SmallSpan(ss, n);
    FiveSpan(ss);
    FitUnique(ss, n, 0);
  }

  lemma FiveSpan(ss: nat)
    ensures Span(ss, 5) == 5 * ss
  {
  }

  /** The window behind the first `k` sectors of a block holds whole sectors. */
  lemma WindowRest(ss: nat, k: nat)
    requires Shape(ss) && Span(ss, k) < BLOCK
    ensures Whole(ss, WindowSize(ss) - Span(ss, k)) == WindowSize(ss) - Span(ss, k)
    ensures ss % BLOCK == 0 ==> Span(ss, k) == 0
  {
    if ss % BLOCK == 0 {
      SpanBlocks(ss, k);
      WindowShape(ss);
    } else {
      SmallSpan(ss, k);
      SmallSpan(ss, (WindowSize(ss) - Span(ss, k)) / ss);
    }
  }

  /** The sectors that `n` blocks touch, as bytes: CEIL(n * 16, ss) * ss */
  function Covering(ss: nat, n: nat): (b: nat)
    requires ss > 0
  {
    Span(ss, GetChunkFollowing(BLOCK * n, ss))
  }

  lemma CoveringShape(ss: nat, n: nat)
    requires Shape(ss) && BLOCK * n <= WindowSize(ss)
    ensures BLOCK * n <= Covering(ss, n) <= WindowSize(ss)
    ensures ss < BLOCK ==> Covering(ss, n) == BLOCK * n
    ensures Whole(ss, Covering(ss, n)) == Covering(ss, n)
  {
    hide Span, Fit;
    var k := GetChunkFollowing(BLOCK * n, ss);
    FitUnique(ss, k, 0);
    if ss % BLOCK == 0 {
      CeilBound(BLOCK * n, ss, 5);
    } else {
      SmallSpan(ss, k);
      SmallCover(ss, n);
    }
  }

  lemma SmallCover(ss: nat, n: nat)
    requires Small(ss)
    ensures ss * GetChunkFollowing(BLOCK * n, ss) == BLOCK * n
  {
    if ss == 1 {
      assert GetChunkFollowing(BLOCK * n, 1) == BLOCK * n;
    } else if ss == 2 {
      assert GetChunkFollowing(BLOCK * n, 2) == 8 * n;
    } else if ss == 4 {
      assert GetChunkFollowing(BLOCK * n, 4) == 4 * n;
    } else {
      assert GetChunkFollowing(BLOCK * n, 8) == 2 * n;
    }
  }

  lemma CeilBound(x: nat, ss: nat, m: nat)
    requires ss > 0 && x <= m * ss
    ensures x <= Span(ss, GetChunkFollowing(x, ss)) <= m * ss
  {
    var k := (x + ss - 1) / ss;
    if k > m {
      SpanMonotone(ss, m + 1, k);
      SpanAdd(ss, m, 1);
    } else {
      SpanMonotone(ss, k, m);
    }
  }

  /* A read of sectors, as bytes: it starts at position `at`, the buffer has `size` bytes, `n` of them are asked for. */

  /** What part 1 of a read copies into the buffer */
  function HeadAmount(at: nat, size: nat): (a: nat)
    ensures a <= size && at % BLOCK + a <= BLOCK
  {
    if at % BLOCK == 0 then 0 else Min(BLOCK - at % BLOCK, size)
  }

  /** Part 1 clips to the buffer and not to what is asked for; bytes_left is then negative. */
  predicate Overruns(at: nat, size: nat, n: nat)
  {
    0 < n < HeadAmount(at, size)
  }

  /**
   * A read overruns exactly when it starts inside a block, ends before the end of
   * that block, and the buffer is longer than what is asked for.
   */
  lemma OverrunsIff(at: nat, size: nat, n: nat)
    requires n <= size
    ensures Overruns(at, size, n) <==> 0 < n < size && at % BLOCK + n < BLOCK && at % BLOCK != 0
  {
  }

  /** One byte from position 1 into a buffer of sixteen */
  lemma OverrunExample()
    ensures Overruns(1, 16, 1) && Moved(1, 16, 1) == 1
  {
    MovedAll(1, 16, 1);
    SmallSpan(1, 1);
  }

  /** Behind part 1 nothing is left, or a block begins. */
  lemma BehindHead(at: nat, size: nat, n: nat)
    requires n <= size && HeadAmount(at, size) <= n
    ensures HeadAmount(at, size) == n || (at + HeadAmount(at, size)) % BLOCK == 0
  {
  }

  /** Behind part 2 less than a block is left. */
  lemma BehindMiddle(at: nat, a: nat, n: nat)
    requires a <= n && (a == n || (at + a) % BLOCK == 0)
    ensures var block, blocks := (at + a) / BLOCK, (n - a) / BLOCK;
            && a + BLOCK * blocks <= n < a + BLOCK * blocks + BLOCK
            && (a < n ==> at + a == BLOCK * block && block + blocks == (at + n) / BLOCK)
            && (a + BLOCK * blocks < n <==> a < n && (at + n) % BLOCK != 0)
  {
  }

  lemma PriorIff(ss: nat, sector: nat)
    requires Shape(ss)
    ensures CompleteBackwards(sector, ss, BLOCK) != 0 <==> Span(ss, sector) % BLOCK != 0
  {
    Backwards(ss, sector);
    SpanAdd(ss, 0, 0);
    if Span(ss, sector) % BLOCK == 0 {
      NoSpan(ss, CompleteBackwards(sector, ss, BLOCK));
    }
  }

  /** Whether part 3 has bytes left to deal with */
  predicate HasTail(at: nat, size: nat, n: nat)
  {
    HeadAmount(at, size) < n && (at + n) % BLOCK != 0
  }

  /** How far the three parts of a read reach */
  function ReadReach(ss: nat, sector: nat, size: nat, n: nat): (e: nat)
    ensures e >= Span(ss, sector) + n
    ensures Span(ss, sector) % BLOCK != 0 ==> e >= BlockReach(ss, sector)
    ensures HasTail(Span(ss, sector), size, n) ==> e >= (Span(ss, sector) + n) / BLOCK * BLOCK + Span(ss, BLOCK)
  {
    var at := Span(ss, sector);
    var whole := if at % BLOCK == 0 then at + n else Max(at + n, BlockReach(ss, sector));
    if HasTail(at, size, n) then Max(whole, (at + n) / BLOCK * BLOCK + Span(ss, BLOCK)) else whole
  }

  /** Part 3 is for small sectors only, and its block begins with one. */
  lemma TailSector(ss: nat, block: nat)
    requires Small(ss)
    ensures var k := PrevRelativeChunk(block, BLOCK, ss);
            Span(ss, k) == Span(BLOCK, block) == BLOCK * block && BlockReach(ss, k) == BLOCK * block + Span(ss, BLOCK)
  {
    hide Span;
    var k := PrevRelativeChunk(block, BLOCK, ss);
    BlockSpan(block);
    SmallSpan(ss, k);
    SmallParts(ss, block);
    assert Span(ss, k) == BLOCK * block;
  }

  lemma SmallParts(ss: nat, block: nat)
    requires Small(ss)
    ensures ss == 1 ==> BLOCK * block / ss == BLOCK * block
    ensures ss == 2 ==> 2 * (BLOCK * block / ss) == BLOCK * block
    ensures ss == 4 ==> 4 * (BLOCK * block / ss) == BLOCK * block
    ensures ss == 8 ==> 8 * (BLOCK * block / ss) == BLOCK * block
  {
    if ss == 1 {
      assert BLOCK * block / 1 == BLOCK * block;
    } else if ss == 2 {
      assert BLOCK * block / 2 == 8 * block;
    } else if ss == 4 {
      assert BLOCK * block / 4 == 4 * block;
    } else {
      assert BLOCK * block / 8 == 2 * block;
    }
  }

  lemma WholeOrSmall(ss: nat, sector: nat, count: nat)
    requires Shape(ss)
    ensures Small(ss) || (Span(ss, sector) % BLOCK == 0 && Span(ss, count) % BLOCK == 0)
  {
    if ss % BLOCK == 0 {
      SpanBlocks(ss, sector);
      SpanBlocks(ss, count);
    }
  }
}
