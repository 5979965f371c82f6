/** Facts about products, quotients and remainders. */
module Arithmetic {
  lemma NextProduct(n: nat, a: nat)
    ensures n * (a + 1) == n * a + n
  {}

  lemma {:induction false} ProductStrict(n: nat, a: nat, b: nat)
    requires a < b
    ensures n * a + n <= n * b
    decreases b
  {
    NextProduct(n, b - 1);
    if a < b - 1 {
      ProductStrict(n, a, b - 1);
    }
  }

  /** Quotient and remainder are unique. */
  lemma DivModUnique(x: nat, m: nat, q: nat, k: nat)
    requires x == m * q + k && k < m
    ensures x / m == q && x % m == k
  {
    var p := x / m;
    assert x == m * p + x % m;
    if p < q {
      ProductStrict(m, p, q);
    } else if q < p {
      ProductStrict(m, q, p);
    }
  }
}
