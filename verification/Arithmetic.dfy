/** The smaller number, and facts about products and remainders. */
module Arithmetic {
  function Min(a: nat, b: nat): nat { if a < b then a else b }

  lemma AtLeastOnce(k: int, d: int)
    requires k > 0 && d > 0
    ensures k * d >= d
  {
    assert k * d == (k - 1) * d + d;
  }

  lemma TimesOrder(x: int, y: int, d: int)
    requires d > 0
    ensures x <= y ==> x * d <= y * d
    ensures x < y ==> x * d + d <= y * d
  {
    if x < y {
      AtLeastOnce(y - x, d);
      assert y * d == x * d + (y - x) * d;
    }
  }

  /** Quotient and remainder are the only numbers that fit. */
  lemma Divided(n: int, d: int, q: int, r: int)
    requires n == q * d + r && 0 <= r < d
    ensures n / d == q && n % d == r
  {
    assert n == (n / d) * d + n % d;
    TimesOrder(q, n / d, d);
    TimesOrder(n / d, q, d);
  }

  lemma MultipleMod(k: int, d: int)
    requires d > 0
    ensures (k * d) % d == 0
  {
    Divided(k * d, d, k, 0);
  }
}
