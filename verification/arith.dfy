/**
 Small facts about real arithmetic that the interpolation proofs rest on.
 Each is stated separately so that the solver meets one non-linear step at a
 time.
 */
module RealArith {

  /** A common non-zero factor cancels. */
  lemma Cancel(p: real, q: real, c: real)
    requires c != 0.0
    requires p * c == q * c
    ensures p == q
  {
    assert (p - q) * c == 0.0;
  }

  /** Multiplying a quotient back by its divisor restores the dividend. */
  lemma QuotientTimesDivisor(n: real, c: real)
    requires c != 0.0
    ensures (n / c) * c == n
    ensures c * (n / c) == n
  {
  }

  /** A product divided by one of its factors is the other factor. */
  lemma ProductQuotient(a: real, n: real, c: real)
    requires c != 0.0
    ensures a == c ==> a * n / c == n
    ensures a == 0.0 ==> a * n / c == 0.0
  {
    if a == c {
      QuotientTimesDivisor(a * n, c);
      Cancel(a * n / c, n, c);
    }
  }

  /** Quotients by one divisor add like their dividends. */
  lemma QuotientSum(n: real, m: real, c: real)
    requires c != 0.0
    ensures n / c + m / c == (n + m) / c
  {
    QuotientTimesDivisor(n, c);
    QuotientTimesDivisor(m, c);
    QuotientTimesDivisor(n + m, c);
    assert (n / c + m / c) * c == (n / c) * c + (m / c) * c;
    Cancel(n / c + m / c, (n + m) / c, c);
  }

  /** A non-zero number divided by itself is one. */
  lemma SelfQuotient(c: real)
    requires c != 0.0
    ensures c / c == 1.0
  {
    QuotientTimesDivisor(c, c);
    Cancel(c / c, 1.0, c);
  }

  /** A non-negative number over a positive one is non-negative. */
  lemma QuotientNonNegative(n: real, d: real)
    requires 0.0 <= n && 0.0 < d
    ensures 0.0 <= n / d
  {
  }

  /** Scaling both sides of `u <= v` by a non-negative weight keeps the order. */
  lemma ScaleMonotone(w: real, u: real, v: real)
    requires 0.0 <= w && u <= v
    ensures w * u <= w * v
  {
    assert w * v - w * u == w * (v - u);
  }

  /** Sums of ordered pairs are ordered. */
  lemma SumMonotone(a: real, b: real, c: real, d: real)
    requires a <= c && b <= d
    ensures a + b <= c + d
  {
  }
}
