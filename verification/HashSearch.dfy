/** hash_search of ctr_system.c: a rolling hash over windows of 16 bytes. */
module HashSearch {
  import opened Arithmetic
  import opened Base

  const WINDOW := 16
  const RADIX := 257

  function Pow(n: nat, p: nat): (r: nat)
  {
    if p == 0 then 1 else Pow(n, p - 1) * n
  }

  /** The bytes as digits of one number */
  function Poly(s: seq<byte>): (v: nat)
  {
    if s == [] then 0
    else
      var d: int := s[|s| - 1];
      Poly(s[..|s| - 1]) * RADIX + d
  }

  /** The hash of a window: that number modulo 2^32 */
  function HashOf(s: seq<byte>): (h: word32)
  {
    Poly(s) % DWORD
  }

  /* Modular arithmetic */

  lemma ModMul(a: int, b: int)
    ensures (a % DWORD * b) % DWORD == (a * b) % DWORD
    ensures (b * (a % DWORD)) % DWORD == (b * a) % DWORD
  {
    var q, r := a / DWORD, a % DWORD;
    var p := (r * b) / DWORD;
    assert a * b == (q * b + p) * DWORD + (r * b) % DWORD by {
      Expand(q, r, b);
    }
    ModUnique(a * b, DWORD, q * b + p, (r * b) % DWORD);
  }

  lemma Expand(q: int, r: int, b: int)
    ensures (q * DWORD + r) * b == q * b * DWORD + r * b
  {
  }

  lemma ModSum(a: int, b: int)
    ensures (a % DWORD + b % DWORD) % DWORD == (a + b) % DWORD == (a % DWORD + b) % DWORD == (a + b % DWORD) % DWORD
    ensures (a % DWORD - b % DWORD) % DWORD == (a - b) % DWORD == (a - b % DWORD) % DWORD
  {
    var q, r, p, t := a / DWORD, a % DWORD, b / DWORD, b % DWORD;
    ModShift(r + t, q + p);
    ModShift(r + b, q);
    ModShift(a + t, p);
    ModShift(r - t, q - p);
    ModShift(a - t, -p);
  }

  lemma ModShift(x: int, q: int)
    ensures (x + q * DWORD) % DWORD == x % DWORD
  {
  }

  /** ipow */
  method Ipow(n: word32, p: word32) returns (result: word32)
    ensures result == Pow(n, p) % DWORD
  {
    result := 1;
    var i: nat := 0;
    while i < p
      invariant 0 <= i <= p && result == Pow(n, i) % DWORD
    {
      ModMul(Pow(n, i), n);
      var r: int, m: int := result, n;
      result := (r * m) % DWORD;
      i := i + 1;
    }
  }

  /** hash */
  method Hash(data: seq<byte>) returns (hash: word32)
    requires |data| >= WINDOW
    ensures hash == HashOf(data[..WINDOW])
  {
    hash := 0;
    var i: nat := 0;
    while i < WINDOW
      invariant 0 <= i <= WINDOW
      invariant hash == (Poly(data[..i]) * Pow(RADIX, WINDOW - i)) % DWORD
    {
      var w := Ipow(RADIX, 15 - i);
      HashStep(data, i);
      ModMul(Pow(RADIX, 15 - i), data[i]);
      ModSum(Poly(data[..i]) * Pow(RADIX, WINDOW - i), data[i] as int * Pow(RADIX, 15 - i));
      ModSum(Poly(data[..i]) * Pow(RADIX, WINDOW - i), data[i] as int * w);
      var h: int, d: int, x: int := hash, data[i], w;
      hash := (h + d * x) % DWORD;
      i := i + 1;
    }
    assert Pow(RADIX, 0) == 1;
  }

  lemma HashStep(data: seq<byte>, i: nat)
    requires i < WINDOW <= |data|
    ensures Poly(data[..i + 1]) * Pow(RADIX, 15 - i)
         == Poly(data[..i]) * Pow(RADIX, WINDOW - i) + data[i] as int * Pow(RADIX, 15 - i)
  {
    assert data[..i + 1][..i] == data[..i];
    Split(Poly(data[..i]), data[i], Pow(RADIX, 15 - i));
  }

  lemma Split(a: nat, d: nat, p: nat)
    ensures (a * RADIX + d) * p == a * (p * RADIX) + d * p
  {
  }

  /** The first digit by itself */
  lemma {:induction false} PolyFirst(s: seq<byte>)
    requires s != []
    ensures Poly(s) == s[0] as int * Pow(RADIX, |s| - 1) + Poly(s[1..])
  {
    var last := |s| - 1;
    if last > 0 {
      PolyFirst(s[..last]);
      assert s[..last][1..] == s[1..][..last - 1];
      Split2(s[0], Pow(RADIX, last - 1), Poly(s[..last][1..]));
    }
  }

  lemma Split2(d: nat, p: nat, r: nat)
    ensures (d * p + r) * RADIX == d * (p * RADIX) + r * RADIX
  {
  }

  /** The next window's number */
  lemma PolySlide(s: seq<byte>)
    requires |s| == WINDOW + 1
    ensures Poly(s[1..]) == (Poly(s[..WINDOW]) - s[0] as int * Pow(RADIX, 15)) * RADIX + s[WINDOW] as int
  {
    PolyFirst(s[..WINDOW]);
    assert s[..WINDOW][1..] == s[1..][..WINDOW - 1];
  }

  /** slide_forward: the hash of the window one byte further on */
  method SlideForward(hash0: word32, data: seq<byte>) returns (hash: word32)
    requires |data| > WINDOW && hash0 == HashOf(data[..WINDOW])
    ensures hash == HashOf(data[1..WINDOW + 1])
  {
    hide Poly, Pow, HashOf;
    var w := Ipow(RADIX, 15);
    var h: int, first: int, last: int, x: int := hash0, data[0], data[WINDOW], w;
    assert data[..WINDOW + 1][..WINDOW] == data[..WINDOW];
    var leading := first * x;
    SlideStep(data[..WINDOW + 1], h, x, leading);
    h := (h - leading) % DWORD;
    h := (h * RADIX) % DWORD;
    hash := (h + last) % DWORD;
    assert data[..WINDOW + 1][1..] == data[1..WINDOW + 1];
  }

  lemma SlideStep(s: seq<byte>, h: int, w: int, leading: int)
    requires |s| == WINDOW + 1 && h == HashOf(s[..WINDOW]) && w == Pow(RADIX, 15) % DWORD && leading == s[0] as int * w
    ensures ((h - leading) % DWORD * RADIX % DWORD + s[WINDOW] as int) % DWORD == HashOf(s[1..])
  {
    hide Poly, Pow;
    PolySlide(s);
    ModMul(Pow(RADIX, 15), s[0]);
    SlideArithmetic(Poly(s[..WINDOW]), s[0] as int * Pow(RADIX, 15), s[WINDOW] as int, h, leading);
  }

  /** Subtracting, multiplying and adding with remainders is the same as taking the remainder at the end. */
  lemma SlideArithmetic(a: int, b: int, c: int, h: int, leading: int)
    requires h == a % DWORD && leading % DWORD == b % DWORD
    ensures ((h - leading) % DWORD * RADIX % DWORD + c) % DWORD == ((a - b) * RADIX + c) % DWORD
  {
    ModSum(a, b);
    ModSum(h, leading);
    assert (h - leading) % DWORD == (a - b) % DWORD;
    ModMul(a - b, RADIX);
    ModSum((a - b) * RADIX, c);
  }

  /** The window at offset `i` */
  function Window(data: seq<byte>, i: nat): (w: seq<byte>)
    requires i + WINDOW <= |data|
  {
    data[i..i + WINDOW]
  }

  /** Offset 0 is accepted on its hash alone; the others must have the digest as well. */
  predicate Accepted(data: seq<byte>, i: nat, hash: word32, digest: seq<byte> -> seq<byte>, sha: seq<byte>)
    requires i + WINDOW <= |data|
  {
    HashOf(Window(data, i)) == hash && (i == 0 || digest(Window(data, i)) == sha)
  }

  /**
   * hash_search: the first offset that is accepted. The last offset is returned
   * when it is accepted, and also when none is.
   */
  method Search(data: seq<byte>, hash: word32, digest: seq<byte> -> seq<byte>, sha: seq<byte>) returns (i: nat)
    requires |data| >= WINDOW
    ensures i + WINDOW <= |data|
    ensures forall j :: 0 <= j < i ==> !Accepted(data, j, hash, digest, sha)
    ensures i + WINDOW < |data| ==> Accepted(data, i, hash, digest, sha)
  {
    var current := Hash(data);
    i := 0;
    var found := current == hash;
    assert data[..WINDOW] == Window(data, 0);
    while !found && i < |data| - WINDOW
      invariant i + WINDOW <= |data| && current == HashOf(Window(data, i))
      invariant found ==> Accepted(data, i, hash, digest, sha)
      invariant !found ==> !Accepted(data, i, hash, digest, sha)
      invariant forall j :: 0 <= j < i ==> !Accepted(data, j, hash, digest, sha)
      decreases |data| - i
    {
      assert data[i..][..WINDOW] == Window(data, i);
      current := SlideForward(current, data[i..]);
      assert data[i..][1..WINDOW + 1] == Window(data, i + 1);
      found := hash == current;
      if found {
        found := digest(Window(data, i + 1)) == sha;
      }
      i := i + 1;
    }
  }
}
