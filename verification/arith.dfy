/** Facts about products and quotients that the solver needs spelled out. */
module Arith {

  lemma MultiplyMonotone(x: int, y: int, k: nat)
    requires x <= y
    ensures x * k <= y * k
  {
  }

  lemma MultipleModulo(q: nat, k: nat)
    requires k > 0
    ensures (q * k) % k == 0
  {
    assert q * k == k * q + 0;
    var r := (q * k) % k;
    var p := (q * k) / k;
    assert q * k == k * p + r;
    assert k * (q - p) == r;
    if q - p >= 1 {
      MultiplyMonotone(1, q - p, k);
    } else if q - p <= -1 {
      MultiplyMonotone(q - p, -1, k);
    }
  }

  lemma OneMore(x: nat, m: nat)
    ensures (x + 1) * m == x * m + m
  {
  }

  lemma DivMod(n: nat, u: nat)
    requires u > 0
    ensures n == n / u * u + n % u && 0 <= n % u < u
  {
  }
}
