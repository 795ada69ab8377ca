/** Quotients and remainders by a divisor that is not a constant. */
module Arithmetic {

  lemma MulMonotone(x: int, y: int, d: nat)
    ensures x <= y ==> x * d <= y * d
  {
  }

  lemma Distribute(x: int, y: int, d: nat)
    ensures (x + y) * d == x * d + y * d
  {
  }

  lemma MulSign(m: nat, d: int)
    ensures d >= 1 ==> m * d >= m
    ensures d <= -1 ==> m * d <= 0 - m
  {
  }

  /** Quotient and remainder are determined by their defining equation. */
  lemma DivModUnique(x: int, m: nat, q: int, r: nat)
    requires r < m && x == m * q + r
    ensures x / m == q && x % m == r
  {
    MulSign(m, x / m - q);
    assert m * (x / m - q) == m * (x / m) - m * q;
  }

  lemma DivLess(p: nat, x: nat, d: nat)
    requires d > 0
    ensures p < x / d <==> (p + 1) * d <= x
  {
    var q := x / d;
    assert q * d <= x < (q + 1) * d;
    MulMonotone(p + 1, q, d);
    MulMonotone(q + 1, p + 1, d);
  }

  /** Stepping back by no more than the remainder keeps the quotient. */
  lemma DivStepBack(x: nat, back: nat, m: nat)
    requires m > 0 && back <= x % m
    ensures 0 <= x - back && (x - back) / m == x / m && (x - back) % m == x % m - back
  {
    DivModUnique(x - back, m, x / m, x % m - back);
  }

  /** Equal quotients mean less than one divisor apart. */
  lemma SameQuotientClose(x: nat, y: nat, m: nat)
    requires m > 0 && x / m == y / m
    ensures y < x + m
  {
    assert m * (x / m) == m * (y / m);
  }
}
