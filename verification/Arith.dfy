/** Powers of two, and facts about quotients and remainders that the models share. */
module Arith {

  function Pow2(e: nat): (p: nat)
    ensures p >= 1
  {
    if e == 0 then 1 else 2 * Pow2(e - 1)
  }

  lemma MulMinus(p: int, q: int, d: int)
    ensures (p - q) * d == p * d - q * d
  {
  }

  lemma MulPlus(p: int, q: int, d: int)
    ensures (p + q) * d == p * d + q * d
  {
  }

  lemma MulDouble(p: int, d: int)
    ensures p * (2 * d) == 2 * (p * d) == (2 * p) * d
  {
  }

  lemma MulAtLeast(p: int, d: int)
    requires p >= 1 && d >= 0
    ensures p * d >= d
  {
    MulMinus(p, 1, d);
    if p > 1 { MulAtLeast(p - 1, d); }
  }

  lemma QuotientUnique(d: int, q: int, r: int, q': int, r': int)
    requires q * d + r == q' * d + r' && 0 <= r < d && 0 <= r' < d
    ensures q == q' && r == r'
  {
    if q > q' {
      MulMinus(q, q', d);
      MulAtLeast(q - q', d);
    } else if q < q' {
      MulMinus(q', q, d);
      MulAtLeast(q' - q, d);
    }
  }

  lemma DivMod(n: int, d: int)
    requires d > 0
    ensures n == (n / d) * d + n % d && 0 <= n % d < d
  {
  }

  /** Division is fixed by its defining equation. */
  lemma QuotientIs(n: int, d: int, q: int, r: int)
    requires n == q * d + r && 0 <= r < d
    ensures n / d == q && n % d == r
  {
    DivMod(n, d);
    QuotientUnique(d, q, r, n / d, n % d);
  }
}
