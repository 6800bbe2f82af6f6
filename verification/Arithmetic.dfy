/** Products and quotients of integers. */
module Arithmetic {
  lemma MulMonotone(a: int, b: int, p: int)
    requires a <= b && p >= 0
    ensures a * p <= b * p
  {
  }

  lemma MulSign(k: int, d: int)
    requires d > 0
    ensures k >= 1 ==> k * d >= d
    ensures k <= -1 ==> k * d <= -d
    ensures k >= 0 ==> k <= k * d
    ensures (-k) * d == -(k * d)
  {
    if k >= 1 {
      MulMonotone(1, k, d);
    } else if k <= -1 {
      MulMonotone(k, -1, d);
    }
    if k >= 0 {
      MulMonotone(1, d, k);
    }
  }

  lemma DivUnique(n: int, d: int, q: int)
    requires d > 0 && q * d <= n < q * d + d
    ensures n / d == q
  {
    assert n == n / d * d + n % d;
    MulSign(n / d - q, d);
    assert (n / d - q) * d == n / d * d - q * d;
  }

  lemma DivTwice(n: nat, p: nat, q: nat)
    requires p > 0 && q > 0
    ensures p * q > 0 && n / p / q == n / (p * q)
  {
    var a := n / p;
    var b := a / q;
    assert n == a * p + n % p && a == b * q + a % q;
    MulSign(p, q);
    RestBounds(a % q, q, n % p, p);
    assert (b * q + a % q) * p == b * (p * q) + a % q * p;
    DivUnique(n, p * q, b);
  }

  lemma RestBounds(s: nat, q: nat, r: nat, p: nat)
    requires s < q && r < p
    ensures 0 <= s * p + r < p * q
  {
    MulMonotone(s + 1, q, p);
    assert (s + 1) * p == s * p + p;
  }
}
