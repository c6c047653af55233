/** Powers of two, and the few facts about products and remainders that the other modules use. */
module Arithmetic {
  function Pow2(d: nat): (p: nat)
    ensures p > 0
  {
    if d == 0 then 1 else 2 * Pow2(d - 1)
  }

  lemma MulGap(d: nat, k: int)
    requires d > 0
    ensures k >= 1 ==> d * k >= d
    ensures k <= 0 ==> d * k <= 0
    ensures k <= -1 ==> d * k + d <= 0
  {
  }

  lemma ModUnique(n: int, d: nat, q: int, r: nat)
    requires d > 0 && r < d && n == d * q + r
    ensures n / d == q && n % d == r
  {
    var k := n / d - q;
    assert d * k == d * (n / d) - d * q == r - n % d;
    MulGap(d, k);
  }

  lemma ModPlus(t: int, d: nat)
    requires d > 0
    ensures (t + d) % d == t % d
  {
    var q := t / d;
    assert t + d == d * (q + 1) + t % d;
    ModUnique(t + d, d, q + 1, t % d);
  }

  /** Indices less than d apart have distinct remainders. */
  lemma WindowDistinct(a: nat, b: nat, d: nat)
    requires a < b < a + d
    ensures a % d != b % d
  {
    var k := b / d - a / d;
    assert d * k == d * (b / d) - d * (a / d);
    assert b - a == d * k + b % d - a % d;
    MulGap(d, k);
  }
}
