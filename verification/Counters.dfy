/** add_ctr and subtract_ctr: a 16-byte big-endian counter, worked on as four 32-bit words. */
module Counters {
  import opened Arithmetic
  import opened Base

  const CTR_SIZE := 16

  /** The weight of the k-th word from the right */
  function Power(k: nat): (p: nat)
    ensures p > 0
  {
    if k == 0 then 1 else DWORD * Power(k - 1)
  }

  /** The number that the last `k` words stand for */
  function Low(w: seq<word32>, k: nat): (v: nat)
    requires k <= |w|
  {
    if k == 0 then 0 else Low(w, k - 1) + w[|w| - k] * Power(k - 1)
  }

  lemma {:induction false} LowBound(w: seq<word32>, k: nat)
    requires k <= |w|
    ensures Low(w, k) < Power(k)
  {
    if k > 0 {
      LowBound(w, k - 1);
      var d: int := w[|w| - k];
      Distribute(DWORD, d, Power(k - 1));
      Sign(DWORD - d, Power(k - 1));
    }
  }

  lemma {:induction false} LowSame(a: seq<word32>, b: seq<word32>, k: nat)
    requires k <= |a| == |b| && a[|a| - k..] == b[|b| - k..]
    ensures Low(a, k) == Low(b, k)
  {
    if k > 0 {
      assert a[|a| - k] == a[|a| - k..][0] && b[|b| - k] == b[|b| - k..][0];
      assert a[|a| - (k - 1)..] == a[|a| - k..][1..] && b[|b| - (k - 1)..] == b[|b| - k..][1..];
      LowSame(a, b, k - 1);
    }
  }

  /** Equal numbers have equal words. */
  lemma {:induction false} LowInjective(a: seq<word32>, b: seq<word32>, k: nat)
    requires k <= |a| == |b| && Low(a, k) == Low(b, k)
    ensures a[|a| - k..] == b[|b| - k..]
  {
    if k > 0 {
      LowBound(a, k - 1);
      LowBound(b, k - 1);
      DigitsUnique(a[|a| - k], Low(a, k - 1), b[|b| - k], Low(b, k - 1), Power(k - 1));
      LowInjective(a, b, k - 1);
      assert a[|a| - k..] == [a[|a| - k]] + a[|a| - (k - 1)..];
      assert b[|b| - k..] == [b[|b| - k]] + b[|b| - (k - 1)..];
    }
  }

  lemma DigitsUnique(d: nat, r: nat, e: nat, s: nat, p: nat)
    requires r < p && s < p && r + d * p == s + e * p
    ensures d == e && r == s
  {
    Distribute(d, e, p);
    Sign(d - e, p);
  }

  /* Bytes and words */

  function WordAt(ctr: seq<byte>, i: nat): (w: word32)
    requires |ctr| == CTR_SIZE && i < 4
  {
    var a: int, b: int, c: int, d: int := ctr[4 * i], ctr[4 * i + 1], ctr[4 * i + 2], ctr[4 * i + 3];
    0x100_0000 * a + 0x1_0000 * b + 0x100 * c + d
  }

  function Words(ctr: seq<byte>): (w: seq<word32>)
    requires |ctr| == CTR_SIZE
    ensures |w| == 4
  {
    [WordAt(ctr, 0), WordAt(ctr, 1), WordAt(ctr, 2), WordAt(ctr, 3)]
  }

  /** The number that a counter stands for */
  function Value(ctr: seq<byte>): (v: nat)
    requires |ctr| == CTR_SIZE
  {
    Low(Words(ctr), 4)
  }

  lemma WordInjective(a: seq<byte>, b: seq<byte>, i: nat)
    requires |a| == |b| == CTR_SIZE && i < 4 && WordAt(a, i) == WordAt(b, i)
    ensures forall j :: 4 * i <= j < 4 * i + 4 ==> a[j] == b[j]
  {
    var k := 4 * i;
    FourDigits(a[k], a[k + 1], a[k + 2], a[k + 3], b[k], b[k + 1], b[k + 2], b[k + 3]);
    forall j | k <= j < k + 4
      ensures a[j] == b[j]
    {
      assert j == k || j == k + 1 || j == k + 2 || j == k + 3;
    }
  }

  lemma FourDigits(a0: byte, a1: byte, a2: byte, a3: byte, b0: byte, b1: byte, b2: byte, b3: byte)
    requires 0x100_0000 * (a0 as int) + 0x1_0000 * (a1 as int) + 0x100 * (a2 as int) + a3 as int
          == 0x100_0000 * (b0 as int) + 0x1_0000 * (b1 as int) + 0x100 * (b2 as int) + b3 as int
    ensures a0 == b0 && a1 == b1 && a2 == b2 && a3 == b3
  {
  }

  /** A counter is determined by its number. */
  lemma ValueInjective(a: seq<byte>, b: seq<byte>)
    requires |a| == |b| == CTR_SIZE && Value(a) == Value(b)
    ensures a == b
  {
    LowInjective(Words(a), Words(b), 4);
    assert Words(a)[0..] == Words(a) && Words(b)[0..] == Words(b);
    hide WordAt;
    assert forall i :: 0 <= i < 4 ==> WordAt(a, i) == Words(a)[i] && WordAt(b, i) == Words(b)[i];
    WordInjective(a, b, 0);
    WordInjective(a, b, 1);
    WordInjective(a, b, 2);
    WordInjective(a, b, 3);
  }

  /** The first loop of add_ctr and subtract_ctr */
  method Load(ctr: array<byte>) returns (counter: array<word32>)
    requires ctr.Length == CTR_SIZE
    ensures fresh(counter) && counter.Length == 4 && counter[..] == Words(ctr[..])
  {
    counter := new word32[4];
    var i := 0;
    while i < 4
      invariant 0 <= i <= 4
      invariant forall j :: 0 <= j < i ==> counter[j] == WordAt(ctr[..], j)
    {
      counter[i] := WordAt(ctr[..], i);
      i := i + 1;
    }
  }

  /** The last loop: each word back into its four bytes */
  method Store(ctr: array<byte>, counter: array<word32>)
    requires ctr.Length == CTR_SIZE && counter.Length == 4
    modifies ctr
    ensures Words(ctr[..]) == counter[..]
  {
    var i := 0;
    while i < 4
      invariant 0 <= i <= 4
      invariant forall j :: 0 <= j < i ==> WordAt(ctr[..], j) == counter[j]
    {
      StoreWord(ctr, i, counter[i]);
      i := i + 1;
    }
  }

  method StoreWord(ctr: array<byte>, i: nat, w: word32)
    requires ctr.Length == CTR_SIZE && i < 4
    modifies ctr
    ensures WordAt(ctr[..], i) == w
    ensures forall j :: 0 <= j < 4 && j != i ==> WordAt(ctr[..], j) == old(WordAt(ctr[..], j))
  {
    SplitBytes(w);
    ctr[4 * i], ctr[4 * i + 1] := w / 0x100_0000, w / 0x1_0000 % 0x100;
    ctr[4 * i + 2], ctr[4 * i + 3] := w / 0x100 % 0x100, w % 0x100;
  }

  lemma SplitBytes(w: word32)
    ensures w
         == 0x100_0000 * (w / 0x100_0000) + 0x1_0000 * (w / 0x1_0000 % 0x100) + 0x100 * (w / 0x100 % 0x100) + w % 0x100
  {
    var q := w / 0x1_0000;
    assert w / 0x100_0000 == q / 0x100;
    assert w / 0x100 == 0x100 * q + w % 0x1_0000 / 0x100;
  }

  /* Addition and subtraction */

  /** Two to the power of 128 */
  function Modulus(): (m: nat)
    ensures m > 0
  {
    Power(4)
  }

  /** Addition modulo two to the power of 128 */
  function Advanced(v: nat, k: int): (r: nat)
  {
    (v + k) % Modulus()
  }

  /** One word of an addition: `c` comes in, `d` goes out. */
  lemma AddStep(a: seq<word32>, b: seq<word32>, k: nat, c: nat, d: nat, total: nat)
    requires k < 4 && |a| == |b| == 4
    requires Low(b, k) + c * Power(k) == Low(a, k) + total
    requires a[3 - k] + c == b[3 - k] + d * DWORD
    ensures Low(b, k + 1) + d * Power(k + 1) == Low(a, k + 1) + total
  {
    var p := Power(k);
    var x: int, y: int := a[3 - k], b[3 - k];
    assert (x + c) * p == (y + d * DWORD) * p;
    Distribute(x + c, c, p);
    Distribute(y + d * DWORD, d * DWORD, p);
    Reassociate(d, DWORD, p);
  }

  lemma Reassociate(d: nat, m: nat, p: nat)
    ensures d * m * p == d * (m * p)
  {
  }

  /** add_ctr */
  method AddCtr(ctr: array<byte>, amount: word32)
    requires ctr.Length == CTR_SIZE
    modifies ctr
    ensures Value(ctr[..]) == Advanced(old(Value(ctr[..])), amount)
  {
    hide Low, Power, WordAt, Modulus, Advanced;
    var counter := Load(ctr);
    ghost var a := counter[..];
    var carry: word32 := amount;
    var i := 3;
    AddBegin(a, amount);
    while i >= 0
      invariant -1 <= i <= 3
      invariant forall j :: 0 <= j <= i ==> counter[j] == a[j]
      invariant Low(counter[..], 3 - i) + carry * Power(3 - i) == Low(a, 3 - i) + amount
    {
      ghost var before := counter[..];
      var x: int, y: int := counter[i], carry;
      var sum: word32 := (x + y) % DWORD;
      ghost var c := carry;
      carry := if sum < counter[i] then 1 else 0;
      counter[i] := sum;
      LowSame(before, counter[..], 3 - i);
      AddStep(a, counter[..], 3 - i, c, carry, amount);
      i := i - 1;
    }
    AddEnd(a, counter[..], carry, amount);
    Store(ctr, counter);
  }

  lemma AddBegin(a: seq<word32>, amount: nat)
    requires |a| == 4
    ensures Low(a, 0) == 0 && Power(0) == 1 && amount * Power(0) == amount
  {
  }

  lemma AddEnd(a: seq<word32>, b: seq<word32>, carry: nat, amount: nat)
    requires |a| == |b| == 4 && Low(b, 4) + carry * Power(4) == Low(a, 4) + amount
    ensures Low(b, 4) == Advanced(Low(a, 4), amount)
  {
    LowBound(b, 4);
    hide Low, Power;
    ModUnique(Low(a, 4) + amount, Modulus(), carry, Low(b, 4));
  }

  /** One word of a subtraction: `c` is borrowed here, `d` from the next word. */
  lemma SubtractStep(a: seq<word32>, b: seq<word32>, k: nat, c: nat, d: nat, total: nat)
    requires k < 4 && |a| == |b| == 4
    requires Low(b, k) + total == Low(a, k) + c * Power(k)
    requires a[3 - k] + d * DWORD == b[3 - k] + c
    ensures Low(b, k + 1) + total == Low(a, k + 1) + d * Power(k + 1)
  {
    var p := Power(k);
    var x: int, y: int := a[3 - k], b[3 - k];
    assert (y + c) * p == (x + d * DWORD) * p;
    Distribute(y + c, c, p);
    Distribute(x + d * DWORD, d * DWORD, p);
    Reassociate(d, DWORD, p);
  }

  /** subtract_ctr */
  method SubtractCtr(ctr: array<byte>, amount: word32)
    requires ctr.Length == CTR_SIZE
    modifies ctr
    ensures Value(ctr[..]) == Advanced(old(Value(ctr[..])), 0 - amount)
  {
    hide Low, Power, WordAt, Modulus, Advanced;
    var counter := Load(ctr);
    ghost var a := counter[..];
    var carry: word32 := amount;
    var i := 0;
    AddBegin(a, amount);
    while i < 4
      invariant 0 <= i <= 4
      invariant forall j :: 0 <= j < 4 - i ==> counter[j] == a[j]
      invariant Low(counter[..], i) + amount == Low(a, i) + carry * Power(i)
    {
      ghost var before := counter[..];
      var x: int, y: int := counter[3 - i], carry;
      var sub: word32 := (x - y) % DWORD;
      ghost var c := carry;
      carry := if counter[3 - i] < carry then 1 else 0;
      counter[3 - i] := sub;
      LowSame(before, counter[..], i);
      SubtractStep(a, counter[..], i, c, carry, amount);
      i := i + 1;
    }
    SubtractEnd(a, counter[..], carry, amount);
    Store(ctr, counter);
  }

  lemma SubtractEnd(a: seq<word32>, b: seq<word32>, borrow: nat, amount: nat)
    requires |a| == |b| == 4 && Low(b, 4) + amount == Low(a, 4) + borrow * Power(4)
    ensures Low(b, 4) == Advanced(Low(a, 4), 0 - amount)
  {
    LowBound(b, 4);
    hide Low, Power;
    var q: int := borrow;
    ModUnique(Low(a, 4) - amount, Modulus(), -q, Low(b, 4));
  }

  /** Taking away what was added gives the counter back. */
  lemma SubtractUndoesAdd(before: seq<byte>, added: seq<byte>, after: seq<byte>, amount: word32)
    requires |before| == |added| == |after| == CTR_SIZE
    requires Value(added) == Advanced(Value(before), amount) && Value(after) == Advanced(Value(added), 0 - amount)
    ensures after == before
  {
    LowBound(Words(before), 4);
    hide Low, Power, Words;
    var v, m := Value(before), Modulus();
    ModBack(v, m, amount);
    ValueInjective(after, before);
  }

  lemma ModBack(v: nat, m: nat, k: nat)
    requires v < m
    ensures ((v + k) % m - k) % m == v
  {
    var q: int := (v + k) / m;
    assert v + k == q * m + (v + k) % m;
    Distribute(0, q, m);
    ModUnique((v + k) % m - k, m, -q, v);
  }

  lemma AdvancedTwice(v: nat, a: nat, b: nat)
    ensures Advanced(Advanced(v, a), b) == Advanced(v, a + b)
  {
    ModAdd(v + a, b, Modulus());
    hide Modulus;
  }

  lemma ModAdd(a: nat, b: nat, m: nat)
    requires m > 0
    ensures (a % m + b) % m == (a + b) % m
  {
    var q, p: int := a / m, (a % m + b) / m;
    assert a + b == (q + p) * m + (a % m + b) % m by {
      Distribute(q, -p, m);
    }
    ModUnique(a + b, m, q + p, (a % m + b) % m);
  }

  lemma AdvancedNone(ctr: seq<byte>)
    requires |ctr| == CTR_SIZE
    ensures Advanced(Value(ctr), 0) == Value(ctr)
  {
    LowBound(Words(ctr), 4);
    hide Low, Power, Words;
    ModUnique(Value(ctr), Modulus(), 0, Value(ctr));
  }
}
