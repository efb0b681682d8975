/** Powers of two and the few facts about division the codecs rest on. */
module Arith {

  function Pow2(n: nat): (p: nat)
    ensures p > 0
  {
    if n == 0 then 1 else 2 * Pow2(n - 1)
  }

  lemma PowSucc(n: nat)
    ensures Pow2(n + 1) == 2 * Pow2(n)
  {
  }

  lemma SmallPowers()
    ensures Pow2(0) == 1 && Pow2(1) == 2 && Pow2(2) == 4 && Pow2(3) == 8 && Pow2(4) == 16
    ensures Pow2(5) == 32 && Pow2(6) == 64 && Pow2(7) == 128 && Pow2(8) == 256
  {
  }

  lemma {:induction false} PowSum(a: nat, b: nat)
    ensures Pow2(a + b) == Pow2(a) * Pow2(b)
  {
    if a > 0 {
      PowSum(a - 1, b);
    }
  }

  lemma LargePowers()
    ensures Pow2(16) == 0x1_0000 && Pow2(20) == 0x10_0000 && Pow2(24) == 0x100_0000
    ensures Pow2(118) == 0x40_0000_0000_0000_0000_0000_0000_0000
    ensures Pow2(121) == 0x200_0000_0000_0000_0000_0000_0000_0000
  {
    SmallPowers();
    PowSum(8, 8);
    PowSum(4, 16);
    PowSum(8, 16);
    PowSum(16, 16);
    PowSum(32, 32);
    PowSum(64, 32);
    PowSum(96, 16);
    PowSum(112, 6);
    PowSum(118, 3);
  }

  /** A quotient is pinned down by the multiples around it. */
  lemma DivUnique(x: nat, d: nat, q: nat)
    requires d > 0 && d * q <= x < d * (q + 1)
    ensures x / d == q
  {
    var k := x / d - q;
    var r := x % d;
    assert x == d * (q + k) + r;
    assert d * (q + k) == d * q + d * k;
    assert k >= 1 ==> d * k >= d;
    assert k <= -1 ==> d * k + d <= 0;
  }

  lemma HalveThenDivide(c: nat, m: nat)
    requires m > 0
    ensures c / 2 / m == c / (2 * m)
  {
    var q := c / 2 / m;
    assert q * m <= c / 2 < (q + 1) * m;
    assert (2 * m) * q <= c < (2 * m) * (q + 1);
    DivUnique(c, 2 * m, q);
  }
}
