/** Division with an unknown divisor, in small steps. */
module Arithmetic {

  lemma {:induction false} MulGrows(a: int, m: int)
    requires 1 <= a && 0 <= m
    ensures m <= a * m
  {
  }

  /** Quotient and remainder are the only ones. */
  lemma {:induction false} DivModUnique(x: int, q: int, r: int, m: int)
    requires 0 < m && x == q * m + r && 0 <= r < m
    ensures x / m == q && x % m == r
  {
    var p, s := x / m, x % m;
    assert x == p * m + s;
    assert (p - q) * m == r - s;
    if p > q {
      MulGrows(p - q, m);
    } else if p < q {
      assert (q - p) * m == s - r;
      MulGrows(q - p, m);
    }
  }

  /** `p` whole steps of `m` within `x` are at most `x / m`. */
  lemma {:induction false} QuotientBound(x: int, p: int, m: int)
    requires 0 < m
    ensures p * m <= x ==> p <= x / m
    ensures x < p * m ==> x / m < p
  {
    var q, r := x / m, x % m;
    assert x == q * m + r;
    if p * m <= x && q < p {
      assert (p - q) * m == p * m - q * m;
      MulGrows(p - q, m);
    }
  }

  lemma {:induction false} QuotientMonotone(x: int, y: int, m: int)
    requires 0 < m && x <= y
    ensures x / m <= y / m
  {
    assert x / m * m <= x;
    QuotientBound(y, x / m, m);
  }

  /** The floor of a sum, and the sum of the floors. */
  lemma {:induction false} QuotientSum(x: int, y: int, m: int)
    requires 0 < m
    ensures x / m + y / m <= (x + y) / m <= x / m + y / m + 1
  {
    var p, q := x / m, y / m;
    assert x == p * m + x % m && y == q * m + y % m;
    assert (p + q) * m == p * m + q * m;
    assert (p + q + 2) * m == p * m + q * m + 2 * m;
    QuotientBound(x + y, p + q, m);
    QuotientBound(x + y, p + q + 2, m);
  }

  lemma {:induction false} CancelFactor(x: int, y: int, m: int)
    requires 0 < m && x * m < y * m
    ensures x < y
  {
  }
}
