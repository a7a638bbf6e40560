/** Quotients and remainders of integers. */
module Integers {

  lemma AtLeastOnce(k: int, n: int)
    requires k >= 1 && n >= 1
    ensures k * n >= n
  {}

  /** Quotient and remainder are determined by the division equation. */
  lemma DivModUnique(x: int, q: int, r: int, n: int)
    requires 0 <= r < n && x == q * n + r
    ensures x / n == q && x % n == r
  {
    var q', r' := x / n, x % n;
    assert x == q' * n + r';
    if q > q' { AtLeastOnce(q - q', n); }
    if q < q' { AtLeastOnce(q' - q, n); }
  }

  lemma RemainderUnique(x: int, q: int, r: int, n: int)
    requires 0 <= r < n && x == q * n + r
    ensures x % n == r
  {
    DivModUnique(x, q, r, n);
  }
}
