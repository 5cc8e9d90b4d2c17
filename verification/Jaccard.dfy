/** Jaccard similarity of finite word sets, in exact arithmetic. */
module Jaccard {
  import opened Prelude
  import opened Fractions

  function Similarity(a: set<string>, b: set<string>): (s: real)
    requires a + b != {}
    ensures 0.0 <= s <= 1.0
  {
    SubsetCard(a * b, a + b);
    ProperFraction(|a * b|, |a + b|);
    |a * b| as real / |a + b| as real
  }

  /** The similarity is the number of common words over the number of words. */
  lemma SimilarityIsRatio(a: set<string>, b: set<string>)
    requires a + b != {}
    ensures Similarity(a, b) * |a + b| as real == |a * b| as real
  {
  }

  lemma SimilarityIsSymmetric(a: set<string>, b: set<string>)
    requires a + b != {}
    ensures Similarity(a, b) == Similarity(b, a)
  {
    assert a * b == b * a && a + b == b + a;
  }

  /** Adding the same amount to both sides of a proper fraction raises it. */
  lemma GrowFraction(p: nat, u: nat, d: nat)
    requires p <= u && 0 < u
    ensures p as real / u as real <= (p + d) as real / (u + d) as real
  {
    Product(p as real, u as real, d as real);
    CrossMultiply(p as real, u as real, (p + d) as real, (u + d) as real);
  }

  lemma LargerDenominator(p: nat, u: nat, v: nat)
    requires 0 < u <= v
    ensures p as real / v as real <= p as real / u as real
  {
    Product(u as real, v as real, p as real);
    CrossMultiply(p as real, v as real, p as real, u as real);
  }

  /** Counting form of the triangle inequality. */
  lemma Overlap(a: set<string>, b: set<string>, c: set<string>)
    ensures |a * b| + |b * c| + |a - (b + c)| + |c - (a + b)| <= |a + b + c| + |a * c|
  {
    var onlyA, onlyC := a - (b + c), c - (a + b);
    var middle := a * b + b * c;
    assert |a * b| + |b * c| == |middle| + |(a * b) * (b * c)|;
    SubsetCard((a * b) * (b * c), a * c);
    assert |middle + onlyA| == |middle| + |onlyA|;
    assert |middle + onlyA + onlyC| == |middle + onlyA| + |onlyC|;
    SubsetCard(middle + onlyA + onlyC, a + b + c);
  }

  /** Jaccard distance is a metric: this is its triangle inequality. */
  lemma Triangle(a: set<string>, b: set<string>, c: set<string>)
    requires a + b != {} && b + c != {} && a + c != {}
    ensures Similarity(a, b) + Similarity(b, c) - 1.0 <= Similarity(a, c)
  {
    var all := |a + b + c|;
    var onlyA, onlyC := |a - (b + c)|, |c - (a + b)|;
    Overlap(a, b, c);
    AgainstAll(a, b, c);
    assert b + c + a == a + b + c && c + b == b + c && c * b == b * c;
    AgainstAll(c, b, a);
    assert a + c + b == a + b + c;
    SubsetCard(a + c, a + c + b);
    LargerDenominator(|a * c|, |a + c|, all);
    SumOfFractions(|a * b| + onlyC, |b * c| + onlyA, |a * c|, all);
  }

  /** Moving to the union of all three sets costs at most what is only in c. */
  lemma AgainstAll(a: set<string>, b: set<string>, c: set<string>)
    requires a + b != {}
    ensures Similarity(a, b) <= (|a * b| + |c - (a + b)|) as real / |a + b + c| as real
  {
    assert a + b + c == (a + b) + (c - (a + b));
    SubsetCard(a * b, a + b);
    GrowFraction(|a * b|, |a + b|, |c - (a + b)|);
  }

  lemma SumOfFractions(p: nat, q: nat, r: nat, u: nat)
    requires 0 < u && p + q <= u + r
    ensures p as real / u as real + q as real / u as real - 1.0 <= r as real / u as real
  {
    var y := u as real;
    QuotientAdds(p as real, q as real, y);
    QuotientAdds(y, r as real, y);
    DivideMonotone(p as real + q as real, y + r as real, y);
  }
}
