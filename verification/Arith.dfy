/** A few facts of integer division that the solver is not asked to find. */
module Arith {
  lemma MulAtLeast(a: int, b: int)
    requires a >= 1 && b >= 0
    ensures a * b >= b
  {
    assert a * b == (a - 1) * b + b;
    MulNonNeg(a - 1, b);
  }

  lemma MulNonNeg(a: int, b: int)
    requires a >= 0 && b >= 0
    ensures a * b >= 0
  {
  }

  lemma MulLess(a: int, b: int, p: int)
    requires a < b && p > 0
    ensures a * p + p <= b * p
  {
    MulAtLeast(b - a, p);
    assert (b - a) * p == b * p - a * p;
  }

  /** Quotient and remainder are unique. */
  lemma DivUnique(x: int, q: int, r: int, p: int)
    requires p > 0 && 0 <= r < p && x == q * p + r
    ensures x / p == q && x % p == r
  {
    var q', r' := x / p, x % p;
    assert x == q' * p + r';
    if q < q' {
      MulLess(q, q', p);
    } else if q' < q {
      MulLess(q', q, p);
    }
  }

  lemma Divide(n: nat, p: nat) returns (q: nat, r: nat)
    requires p > 1
    ensures q == n / p && r == n % p && n == q * p + r && r < p
    ensures if n < p then q == 0 && r == n else q < n
  {
    q, r := n / p, n % p;
    if n < p {
      DivUnique(n, 0, n, p);
    } else {
      if q >= n {
        MulLess(1, p, q);
      }
    }
  }

  lemma QuotientLess(n: nat, p: nat)
    requires p > 1
    ensures n / p >= 0 && 0 <= n % p < p && (n >= p ==> n / p < n)
  {
    var q, r := Divide(n, p);
  }

  lemma QuotientNat(n: nat, p: nat)
    requires p > 0
    ensures n / p >= 0 && 0 <= n % p < p
  {
    if n / p < 0 {
      MulLess(n / p, 0, p);
    }
  }

  lemma Quotient(n: nat, p: nat)
    requires p > 0
    ensures n == n / p * p + n % p && 0 <= n % p < p && 0 <= n / p <= n
  {
    QuotientNat(n, p);
    MulAtLeast(p, n / p);
  }
}
