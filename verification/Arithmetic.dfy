/** The few facts about quotients and remainders that the solver needs to be told. */
module Arithmetic {

  lemma Distribute(q: int, k: int, d: int)
    ensures (q - k) * d == q * d - k * d
  {
  }

  lemma Sign(d: int, m: int)
    requires m >= 0
    ensures d >= 1 ==> d * m >= m
    ensures d <= -1 ==> d * m <= -m
  {
  }

  lemma ModUnique(x: int, m: nat, q: int, r: nat)
    requires m > 0 && x == q * m + r && r < m
    ensures x % m == r
  {
    var d := x / m - q;
    assert d * m == r - x % m by {
      Distribute(x / m, q, m);
    }
    Sign(d, m);
  }

  lemma ModSubtract(a: nat, b: nat, d: nat)
    requires d > 0 && a >= b && b % d == 0
    ensures (a - b) % d == a % d
  {
    var q, k := a / d, b / d;
    assert a - b == (q - k) * d + a % d by {
      assert a == q * d + a % d;
      assert b == k * d;
      Distribute(q, k, d);
    }
    ModUnique(a - b, d, q - k, a % d);
  }

  lemma SelfDivides(d: nat)
    requires d > 0
    ensures d % d == 0
  {
  }

  /** The low sixteen bits are the two low bytes. */
  lemma SplitWord(v: nat)
    ensures v % 0x1_0000 == v % 0x100 + 0x100 * (v / 0x100 % 0x100)
  {
    var q, r := v / 0x1_0000, v % 0x1_0000;
    assert v / 0x100 == 0x100 * q + r / 0x100;
  }
}
