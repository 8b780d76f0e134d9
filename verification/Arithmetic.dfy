/** Division facts that the solver does not find by itself. */
module Arithmetic {

  lemma {:induction false} AtLeastOne(k: int, m: int)
    requires k >= 1 && m >= 1
    ensures k * m >= m
  {
    assert k * m == (k - 1) * m + m;
  }

  /** Quotient and remainder are determined by their defining equation. */
  lemma {:induction false} QuotientIs(x: int, m: int, k: int, r: int)
    requires 0 <= r < m && x == k * m + r
    ensures x / m == k && x % m == r
  {
    var d := x / m;
    assert x == d * m + x % m;
    assert (d - k) * m == r - x % m && (k - d) * m == x % m - r;
    if d > k {
      AtLeastOne(d - k, m);
    } else if d < k {
      AtLeastOne(k - d, m);
    }
  }
}
