/** Quotients and remainders. */
module Arithmetic {
  lemma DivSmaller(n: nat, base: nat)
    requires 2 <= base <= n
    ensures 0 <= n / base < n && 0 <= n % base < base && n == n / base * base + n % base
  {
  }

  lemma MulAtLeast(d: nat, e: int)
    requires e >= 1
    ensures d * e >= d
  {
  }

  lemma MulDistributes(d: int, a: int, b: int)
    ensures d * (a - b) == d * a - d * b
  {
  }

  /** Quotient and remainder are unique. */
  lemma EuclidUnique(d: nat, p: int, s: int, q: int, r: int)
    requires d * p + s == d * q + r && 0 <= s < d && 0 <= r < d
    ensures p == q && s == r
  {
    MulDistributes(d, p, q);
    MulDistributes(d, q, p);
    if p > q {
      MulAtLeast(d, p - q);
      assert false;
    } else if q > p {
      MulAtLeast(d, q - p);
      assert false;
    }
  }

  lemma DivModUnique(x: int, d: nat, q: int, r: int)
    requires d > 0 && x == d * q + r && 0 <= r < d
    ensures x / d == q && x % d == r
  {
    EuclidUnique(d, x / d, x % d, q, r);
  }

  lemma ModDouble(a: nat, p: nat)
    requires p > 0
    ensures a % (2 * p) == a % 2 + 2 * ((a / 2) % p)
  {
    var q, r := a / 2 / p, a / 2 % p;
    assert a == 2 * (p * q + r) + a % 2;
    assert 2 * (p * q) == (2 * p) * q;
    DivModUnique(a, 2 * p, q, 2 * r + a % 2);
  }
}
