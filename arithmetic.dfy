/** Signs of real products, stated with the product as a parameter so that
    callers can name it once and keep the solver off non-linear terms. */
module Arithmetic {
  lemma PositiveProduct(x: real, y: real, p: real)
    requires x > 0.0 && y > 0.0 && p == x * y
    ensures p > 0.0
  {
  }

  lemma NegativeProduct(x: real, y: real, p: real)
    requires x < 0.0 && y < 0.0 && p == x * y
    ensures p > 0.0
  {
  }

  lemma NonNegativeProduct(x: real, y: real, p: real)
    requires x >= 0.0 && y >= 0.0 && p == x * y
    ensures p >= 0.0
  {
  }

  lemma NonPositiveProduct(x: real, y: real, p: real)
    requires x <= 0.0 && y > 0.0 && p == x * y
    ensures p <= 0.0
  {
  }

  lemma NonNegativeFactor(x: real, n: real, p: real)
    requires n > 0.0 && p == x * n && p >= 0.0
    ensures x >= 0.0
  {
    if x < 0.0 {
      NegativeFactor(x, n, p);
    }
  }

  lemma NegativeFactor(x: real, n: real, p: real)
    requires x < 0.0 && n > 0.0 && p == x * n
    ensures p < 0.0
  {
  }

  lemma PositiveFactor(x: real, n: real, p: real)
    requires n > 0.0 && p == x * n && p > 0.0
    ensures x > 0.0
  {
    NonNegativeFactor(x, n, p);
  }

  /** A quotient times its divisor gives back the dividend, and a positive
      dividend over a negative divisor is negative. */
  lemma NegativeQuotient(n: real, d: real)
    requires d != 0.0
    ensures (n / d) * d == n
    ensures n > 0.0 && d < 0.0 ==> n / d < 0.0
  {
    var q := n / d;
    assert q * d == n;
    if n > 0.0 && d < 0.0 {
      PositiveFactor(-q, -d, n);
    }
  }
}
