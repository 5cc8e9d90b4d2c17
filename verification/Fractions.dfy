// Order facts about quotients of reals, proved once by cross-multiplying.
module Fractions {

  lemma Product(x: real, y: real, z: real)
    requires x <= y && 0.0 <= z
    ensures x * z <= y * z
  {
  }

  lemma StrictProduct(x: real, y: real, z: real)
    requires x < y && 0.0 < z
    ensures x * z < y * z
  {
  }

  lemma CrossMultiply(a: real, b: real, c: real, d: real)
    requires 0.0 < b && 0.0 < d && a * d <= c * b
    ensures a / b <= c / d
  {
    var q, r := a / b, c / d;
    assert q * b == a && r * d == c;
    assert q * (b * d) == a * d && r * (b * d) == c * b;
    if r < q {
      StrictProduct(r, q, b * d);
    }
  }

  lemma DivideMonotone(a: real, b: real, d: real)
    requires a <= b && 0.0 < d
    ensures a / d <= b / d
  {
    Product(a, b, d);
    CrossMultiply(a, d, b, d);
  }

  lemma ProperFraction(k: nat, n: nat)
    requires k <= n && 0 < n
    ensures 0.0 <= k as real / n as real <= 1.0
  {
  }

  lemma QuotientAdds(a: real, b: real, d: real)
    requires d != 0.0
    ensures (a + b) / d == a / d + b / d
    ensures d / d == 1.0
  {
    var q, r := a / d, b / d;
    assert q * d == a && r * d == b;
    assert (q + r) * d == a + b;
  }
}
