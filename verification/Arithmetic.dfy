/** Facts about products and remainders of numbers that are not constants. */
module Arithmetic {

  lemma MulMonotone(a: nat, b: nat, c: nat)
    requires a <= b
    ensures a * c <= b * c
  {
  }

  /** Quotient and remainder are what they add up to. */
  lemma DivModUnique(x: nat, m: nat, p: nat, r: nat)
    requires m > 0 && x == m * p + r && r < m
    ensures p == x / m && r == x % m
  {
    var a := x / m;
    assert x == m * a + x % m;
    if p > a {
      MulMonotone(a + 1, p, m);
    } else if a > p {
      MulMonotone(p + 1, a, m);
    }
  }

  lemma ModEqual(m: nat, a: nat, b: nat, k: nat)
    requires m > 0 && a == m * k + b
    ensures a % m == b % m
  {
    var q, r := b / m, b % m;
    assert b == m * q + r;
    assert m * k + m * q == m * (k + q);
    DivModUnique(a, m, k + q, r);
  }

  lemma ModSmall(x: nat, m: nat)
    requires m > 0
    ensures x % m == x <==> x < m
  {
    if x < m {
      DivModUnique(x, m, 0, x);
    }
  }
}
