/** ctr_io_interface at its sector level: a device of bytes, moved in whole sectors of any size. */
module SectorDevice {
  import opened Base

  /** The bytes that `n` sectors take */
  function Span(size: nat, n: nat): (b: nat)
  {
    n * size
  }

  /** The whole sectors that fit into `b` bytes */
  function Fit(size: nat, b: nat): (n: nat)
    requires size > 0
    ensures Span(size, n) <= b < Span(size, n) + size
  {
    b / size
  }

  lemma SpanAdd(size: nat, a: nat, b: nat)
    ensures Span(size, a + b) == Span(size, a) + Span(size, b)
    ensures Span(size, 0) == 0 && Span(size, 1) == size
  {
  }

  lemma SpanMonotone(size: nat, a: nat, b: nat)
    requires a <= b
    ensures Span(size, a) <= Span(size, b)
  {
    SpanAdd(size, a, b - a);
  }

  lemma SpanOrder(size: nat, a: nat, b: nat)
    requires size > 0 && Span(size, a) <= Span(size, b)
    ensures a <= b
  {
    SpanAdd(size, b, 1);
    hide Span;
    if b < a {
      SpanMonotone(size, b + 1, a);
    }
  }

  lemma FitUnique(size: nat, n: nat, rest: nat)
    requires rest < size
    ensures Fit(size, Span(size, n) + rest) == n
  {
    var m := Fit(size, Span(size, n) + rest);
    if m < n {
      SpanMonotone(size, m + 1, n);
      SpanAdd(size, m, 1);
    } else if n < m {
      SpanMonotone(size, n + 1, m);
      SpanAdd(size, n, 1);
    }
  }

  /** The bytes that a read of `count` sectors into `size` bytes moves: as many whole sectors as fit */
  function Moved(sectorSize: nat, size: nat, count: nat): (n: nat)
    requires sectorSize > 0
    ensures n <= size
  {
    SpanMonotone(sectorSize, Min(count, Fit(sectorSize, size)), Fit(sectorSize, size));
    Span(sectorSize, Min(count, Fit(sectorSize, size)))
  }

  lemma MovedAll(ss: nat, size: nat, count: nat)
    requires ss > 0
    ensures Span(ss, count) <= size ==> Moved(ss, size, count) == Span(ss, count)
    ensures Moved(ss, size, Fit(ss, size)) == Whole(ss, size)
  {
    if count > Fit(ss, size) {
      SpanMonotone(ss, Fit(ss, size) + 1, count);
      SpanAdd(ss, Fit(ss, size), 1);
    }
  }

  /** The number of sectors that fit is not cut down again. */
  lemma MovedCount(ss: nat, size: nat, count: nat)
    requires ss > 0
    ensures var k := Min(count, Fit(ss, size));
            && Moved(ss, size, count) == Span(ss, k) == Moved(ss, size, k)
            && (k == 0 <==> Span(ss, k) == 0)
  {
    var k := Min(count, Fit(ss, size));
    SpanAdd(ss, 0, 0);
    if k > 0 {
      SpanMonotone(ss, 1, k);
    }
  }

  /** The bytes of whole sectors in a buffer of `size` bytes */
  function Whole(sectorSize: nat, size: nat): (n: nat)
    requires sectorSize > 0
    ensures n <= size
  {
    Span(sectorSize, Fit(sectorSize, size))
  }

  class SectorIo {
    var bytes: seq<byte>
    const sectorSize: nat
    const reliable: bool

    constructor (contents: seq<byte>, sectorSize: nat, reliable: bool)
      ensures bytes == contents && this.sectorSize == sectorSize && this.reliable == reliable
    {
      bytes := contents;
      this.sectorSize, this.reliable := sectorSize, reliable;
    }

    /**
     * ctr_io_read_sector into `size` bytes of `buffer` from `at` on: as many
     * whole sectors as fit, at most `count`. A failed read leaves arbitrary
     * bytes in their place.
     */
    method ReadSector(buffer: array<byte>, at: nat, size: nat, sector: nat, count: nat) returns (ok: bool)
      requires sectorSize > 0 && at + size <= buffer.Length
      modifies buffer
      ensures buffer[..][..at] == old(buffer[..])[..at]
      ensures var n := Moved(sectorSize, size, count); buffer[..][at + n..] == old(buffer[..])[at + n..]
      ensures ok ==> var n, from := Moved(sectorSize, size, count), Span(sectorSize, sector);
                     from + n <= |bytes| && buffer[..][at..at + n] == bytes[from..from + n]
      ensures reliable && Span(sectorSize, sector) + Moved(sectorSize, size, count) <= |bytes| ==> ok
    {
      var from := Span(sectorSize, sector);
      var n := Moved(sectorSize, size, count);
      hide Span, Moved;
      ok := from + n <= |bytes|;
      if !reliable {
        ok := *;
        ok := ok && from + n <= |bytes|;
      }
      if ok {
        MemCpy(buffer, at, bytes[from..from + n]);
      } else {
        Scramble(buffer, at, n);
      }
    }

    /** ctr_io_write_sector: the whole sectors of `data`; a trailing partial sector is ignored. */
    method WriteSector(data: seq<byte>, sector: nat) returns (ok: bool)
      requires sectorSize > 0
      modifies this
      ensures |bytes| == |old(bytes)|
      ensures var n, start := Whole(sectorSize, |data|), Span(sectorSize, sector);
              forall x :: 0 <= x < |bytes| && !(start <= x < start + n) ==> bytes[x] == old(bytes)[x]
      ensures ok ==> var n, start := Whole(sectorSize, |data|), Span(sectorSize, sector);
                     start + n <= |bytes| && bytes == Overlay(old(bytes), start, data[..n])
      ensures reliable && Span(sectorSize, sector) + Whole(sectorSize, |data|) <= |bytes| ==> ok
    {
      var start := Span(sectorSize, sector);
      var n := Whole(sectorSize, |data|);
      hide Span, Whole;
      ok := start + n <= |bytes|;
      if !reliable {
        ok := *;
        ok := ok && start + n <= |bytes|;
      }
      if ok {
        bytes := Overlay(bytes, start, data[..n]);
      } else {
        Damage(start, n);
      }
    }

    /** A failed write: anything may now be in the sectors it was aimed at. */
    method Damage(start: nat, n: nat)
      modifies this
      ensures |bytes| == |old(bytes)|
      ensures forall x :: 0 <= x < |bytes| && !(start <= x < start + n) ==> bytes[x] == old(bytes)[x]
    {
      var x := start;
      while x < start + n && x < |bytes|
        invariant |bytes| == |old(bytes)|
        invariant forall y :: 0 <= y < |bytes| && !(start <= y < start + n) ==> bytes[y] == old(bytes)[y]
        decreases start + n - x
      {
        var junk: byte := *;
        bytes := bytes[x := junk];
        x := x + 1;
      }
    }
  }

  /** A failed read: anything may now be in the buffer. */
  method Scramble(buffer: array<byte>, at: nat, n: nat)
    requires at + n <= buffer.Length
    modifies buffer
    ensures buffer[..][..at] == old(buffer[..])[..at]
    ensures buffer[..][at + n..] == old(buffer[..])[at + n..]
  {
    var i := 0;
    while i < n
      invariant 0 <= i <= n
      invariant buffer[..][..at] == old(buffer[..])[..at]
      invariant buffer[..][at + n..] == old(buffer[..])[at + n..]
    {
      var junk: byte := *;
      buffer[at + i] := junk;
      i := i + 1;
    }
  }
}