/** Quotients, remainders and products. */
module Arithmetic {

  function Times(a: nat, b: nat): nat {
    a * b
  }

  lemma ProductGrows(x: nat, y: nat, b: nat)
    requires x < y
    ensures x * b + b <= y * b
  {
    assert y * b == x * b + b + (y - x - 1) * b;
  }

  /** A quotient and remainder are the only ones. */
  lemma QuotientIs(a: nat, b: nat, q: nat, r: nat)
    requires b > 0 && a == q * b + r && r < b
    ensures q == a / b && r == a % b
  {
    var k := a / b;
    if q < k {
      ProductGrows(q, k, b);
    } else if q > k {
      ProductGrows(k, q, b);
    }
  }

  lemma QuotientGrows(x: nat, y: nat, b: nat)
    requires b > 0 && x <= y
    ensures x / b <= y / b
    ensures y == x + 1 ==> y / b <= x / b + 1
  {
    var p, r, q, t := x / b, x % b, y / b, y % b;
    GrowsFrom(p, r, q, t, b);
  }

  lemma GrowsFrom(p: nat, r: nat, q: nat, t: nat, b: nat)
    requires r < b && t < b && p * b + r <= q * b + t
    ensures p <= q
    ensures q * b + t == p * b + r + 1 ==> q <= p + 1
  {
    if q < p {
      ProductGrows(q, p, b);
    } else if p + 1 < q {
      ProductGrows(p + 1, q, b);
      NextProduct(p, q, b);
    }
  }

  lemma NextProduct(k: nat, n: nat, b: nat)
    requires k < n
    ensures (k + 1) * b == k * b + b <= n * b
    ensures k + 1 < n ==> (k + 1) * b + b <= n * b
  {
    ProductGrows(k, n, b);
    assert (k + 1) * b == k * b + b;
    if k + 1 < n {
      ProductGrows(k + 1, n, b);
    }
  }

  /** Numbers are ordered as their quotients and then their remainders are. */
  lemma QuotientsOrder(b: nat, k: nat, c: nat, l: nat, n: nat)
    requires k < n && l < n && b * n + k < c * n + l
    ensures b < c || (b == c && k < l)
  {
    if c < b {
      ProductGrows(c, b, n);
    }
  }
}
