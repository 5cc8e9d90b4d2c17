/** classification.py: favourability by percentile, and percentile to value. */
module Classification {
  import opened Prelude
  import opened Fractions
  import opened Rounding

  datatype Verdict = Favorable | AtMarket | Unfavorable

  datatype ClassificationResult = ClassificationResult(verdict: Verdict, confidence: real, percentile: real)

  function ComputeConfidence(percentile: real, lower: real, upper: real, favorable: real, unfavorable: real): real {
    var size := upper - lower;
    if size <= 0.0 then 0.5
    else
      var distance := if percentile >= 50.0 then percentile - favorable else unfavorable - percentile;
      Min(1.0, Max(0.5, 0.5 + Abs(distance) / size))
  }

  function VerdictOf(percentile: real, favorable: real, unfavorable: real): Verdict {
    if percentile >= favorable then Favorable
    else if percentile <= unfavorable then Unfavorable
    else AtMarket
  }

  function RawConfidence(percentile: real, favorable: real, unfavorable: real): real {
    match VerdictOf(percentile, favorable, unfavorable)
    case Favorable => ComputeConfidence(percentile, favorable, 100.0, favorable, unfavorable)
    case Unfavorable => ComputeConfidence(percentile, 0.0, unfavorable, favorable, unfavorable)
    case AtMarket =>
      if favorable - unfavorable > 0.0 then Max(0.5, 1.0 - Abs(percentile - 50.0) / 50.0) else 0.7
  }

  function Classify(percentile: real, favorable: real, unfavorable: real): ClassificationResult {
    ClassificationResult(VerdictOf(percentile, favorable, unfavorable),
                         Round(RawConfidence(percentile, favorable, unfavorable), Four), percentile)
  }

  function Flip(verdict: Verdict): Verdict {
    match verdict
    case Favorable => Unfavorable
    case AtMarket => AtMarket
    case Unfavorable => Favorable
  }

  predicate Near(x: real, y: real) {
    y - 0.00005 <= x <= y + 0.00005
  }

  /** The favorable side is at and above its threshold and wins where they cross;
      the unfavorable side is at and below the other. */
  lemma VerdictIff(percentile: real, favorable: real, unfavorable: real)
    ensures var c := Classify(percentile, favorable, unfavorable);
      && c.percentile == percentile
      && (c.verdict == Favorable <==> percentile >= favorable)
      && (c.verdict == Unfavorable <==> percentile <= unfavorable && percentile < favorable)
  {
  }

  /** For thresholds on both sides of the middle the confidence grows with the
      distance from the threshold, relative to the room beyond it, from one half
      until it is full; between them it falls with the distance from the middle.
      Without room beyond the threshold it stays at one half. */
  lemma ConfidenceIs(percentile: real, favorable: real, unfavorable: real)
    requires unfavorable <= 50.0 <= favorable
    ensures var c := Classify(percentile, favorable, unfavorable);
      match c.verdict
      case Favorable =>
        if favorable >= 100.0 then c.confidence == 0.5
        else if percentile - favorable >= (100.0 - favorable) / 2.0 then c.confidence == 1.0
        else Near(c.confidence, 0.5 + (percentile - favorable) / (100.0 - favorable))
      case Unfavorable =>
        if unfavorable <= 0.0 then c.confidence == 0.5
        else if percentile < 50.0 && unfavorable - percentile >= unfavorable / 2.0 then c.confidence == 1.0
        else percentile < 50.0 ==> Near(c.confidence, 0.5 + (unfavorable - percentile) / unfavorable)
      case AtMarket =>
        if percentile <= 25.0 || percentile >= 75.0 then c.confidence == 0.5
        else if percentile >= 50.0 then Near(c.confidence, 2.0 - percentile / 50.0)
        else Near(c.confidence, percentile / 50.0)
  {
    RoundError(RawConfidence(percentile, favorable, unfavorable), Four);
    RoundFixes(5000, Four);
    RoundFixes(10000, Four);
    assert 5000 as real * Step(Four) == 0.5 && 10000 as real * Step(Four) == 1.0;
    hide Round;
    match VerdictOf(percentile, favorable, unfavorable) {
      case Favorable =>
        if favorable < 100.0 {
          Halfway(percentile - favorable, 100.0 - favorable);
        }
      case Unfavorable =>
        if unfavorable > 0.0 && percentile < 50.0 {
          Halfway(unfavorable - percentile, unfavorable);
        }
      case AtMarket =>
    }
  }

  lemma Halfway(x: real, room: real)
    requires room > 0.0 && x >= 0.0
    ensures x / room >= 0.0
    ensures x >= room / 2.0 <==> x / room >= 0.5
  {
    CrossMultiply(0.0, 1.0, x, room);
    if x >= room / 2.0 {
      CrossMultiply(1.0, 2.0, x, room);
    } else {
      var q := x / room;
      assert q * room == x;
      if q >= 0.5 {
        Product(0.5, q, room);
      }
    }
  }

  /** Whatever the thresholds, the reported confidence is between 0.5 and 1. */
  lemma ConfidenceRange(percentile: real, favorable: real, unfavorable: real)
    ensures 0.5 <= Classify(percentile, favorable, unfavorable).confidence <= 1.0
  {
    var raw := RawConfidence(percentile, favorable, unfavorable);
    assert Abs(percentile - 50.0) / 50.0 >= 0.0;
    assert 0.5 <= raw <= 1.0;
    RoundMonotone(0.5, raw, Four);
    RoundMonotone(raw, 1.0, Four);
    RoundFixes(5000, Four);
    RoundFixes(10000, Four);
    assert 5000 as real * Step(Four) == 0.5 && 10000 as real * Step(Four) == 1.0;
  }

  /** The fixed confidence of 0.7 is never reported: a percentile strictly
      between the thresholds keeps them apart. */
  lemma AtMarketMeansApart(percentile: real, favorable: real, unfavorable: real)
    requires VerdictOf(percentile, favorable, unfavorable) == AtMarket
    ensures favorable - unfavorable > 0.0
  {
  }

  ghost predicate Mirrored(percentile: real, favorable: real) {
    var there := Classify(percentile, favorable, 100.0 - favorable);
    var back := Classify(100.0 - percentile, favorable, 100.0 - favorable);
    back.verdict == Flip(there.verdict) && back.confidence == there.confidence
  }

  lemma MirrorAbove(percentile: real, favorable: real)
    requires favorable > 50.0
    ensures Mirrored(percentile, favorable)
  {
    var p, q, f, u := percentile, 100.0 - percentile, favorable, 100.0 - favorable;
    if p >= f {
      assert q <= u && q < 50.0 <= p;
      assert u - q == p - f && 100.0 - f == u - 0.0;
    } else if p <= u {
      assert q >= f && p < 50.0 <= q;
      assert u - p == q - f && 100.0 - f == u - 0.0;
    } else {
      assert Abs(q - 50.0) == Abs(p - 50.0);
    }
  }

  /** Symmetric thresholds classify symmetrically, for every percentile, exactly
      when the favorable one is above the middle. */
  lemma MirrorSymmetricIff(favorable: real)
    ensures (forall p: real :: 0.0 <= p <= 100.0 ==> Mirrored(p, favorable)) <==> favorable > 50.0
  {
    if favorable > 50.0 {
      forall p: real
        ensures Mirrored(p, favorable)
      {
        MirrorAbove(p, favorable);
      }
    } else {
      assert VerdictOf(50.0, favorable, 100.0 - favorable) == Favorable;
      assert !Mirrored(50.0, favorable);
    }
  }

  // ----- percentile to value

  datatype Stats = Stats(p05: real, p25: real, median: real, p75: real, p95: real)

  ghost predicate Ordered(d: Stats) {
    d.p05 <= d.p25 <= d.median <= d.p75 <= d.p95
  }

  function Between(a: real, b: real, ratio: real): real {
    a + ratio * (b - a)
  }

  function PercentileToValue(d: Stats, percentile: real): real {
    if percentile <= 5.0 then d.p05
    else if percentile <= 25.0 then Between(d.p05, d.p25, (percentile - 5.0) / 20.0)
    else if percentile <= 50.0 then Between(d.p25, d.median, (percentile - 25.0) / 25.0)
    else if percentile <= 75.0 then Between(d.median, d.p75, (percentile - 50.0) / 25.0)
    else if percentile <= 95.0 then Between(d.p75, d.p95, (percentile - 75.0) / 20.0)
    else d.p95
  }

  lemma BetweenGrows(a: real, b: real, r: real, s: real)
    requires a <= b && r <= s
    ensures Between(a, b, r) <= Between(a, b, s)
    ensures Between(a, b, 0.0) == a && Between(a, b, 1.0) == b
  {
    Product(r, s, b - a);
  }

  /** The values that bound the segment of a percentile. */
  function Below(d: Stats, percentile: real): real {
    if percentile <= 25.0 then d.p05
    else if percentile <= 50.0 then d.p25
    else if percentile <= 75.0 then d.median
    else if percentile <= 95.0 then d.p75
    else d.p95
  }

  function Above(d: Stats, percentile: real): real {
    if percentile <= 5.0 then d.p05
    else if percentile <= 25.0 then d.p25
    else if percentile <= 50.0 then d.median
    else if percentile <= 75.0 then d.p75
    else d.p95
  }

  lemma WithinSegment(d: Stats, p: real)
    requires Ordered(d)
    ensures Below(d, p) <= PercentileToValue(d, p) <= Above(d, p)
  {
    hide Between;
    if 5.0 < p <= 25.0 {
      BetweenGrows(d.p05, d.p25, 0.0, (p - 5.0) / 20.0);
      BetweenGrows(d.p05, d.p25, (p - 5.0) / 20.0, 1.0);
    } else if 25.0 < p <= 50.0 {
      BetweenGrows(d.p25, d.median, 0.0, (p - 25.0) / 25.0);
      BetweenGrows(d.p25, d.median, (p - 25.0) / 25.0, 1.0);
    } else if 50.0 < p <= 75.0 {
      BetweenGrows(d.median, d.p75, 0.0, (p - 50.0) / 25.0);
      BetweenGrows(d.median, d.p75, (p - 50.0) / 25.0, 1.0);
    } else if 75.0 < p <= 95.0 {
      BetweenGrows(d.p75, d.p95, 0.0, (p - 75.0) / 20.0);
      BetweenGrows(d.p75, d.p95, (p - 75.0) / 20.0, 1.0);
    }
  }

  function Segment(p: real): nat {
    if p <= 5.0 then 0
    else if p <= 25.0 then 1
    else if p <= 50.0 then 2
    else if p <= 75.0 then 3
    else if p <= 95.0 then 4
    else 5
  }

  lemma ValueGrows(d: Stats, p: real, q: real)
    requires Ordered(d) && p <= q
    ensures PercentileToValue(d, p) <= PercentileToValue(d, q)
  {
    hide Between;
    if Segment(p) == Segment(q) {
      BetweenGrows(d.p05, d.p25, (p - 5.0) / 20.0, (q - 5.0) / 20.0);
      BetweenGrows(d.p25, d.median, (p - 25.0) / 25.0, (q - 25.0) / 25.0);
      BetweenGrows(d.median, d.p75, (p - 50.0) / 25.0, (q - 50.0) / 25.0);
      BetweenGrows(d.p75, d.p95, (p - 75.0) / 20.0, (q - 75.0) / 20.0);
    } else {
      WithinSegment(d, p);
      WithinSegment(d, q);
      assert Above(d, p) <= Below(d, q);
    }
  }

  lemma ValueAtKnots(d: Stats)
    ensures PercentileToValue(d, 5.0) == d.p05 && PercentileToValue(d, 25.0) == d.p25
    ensures PercentileToValue(d, 50.0) == d.median && PercentileToValue(d, 75.0) == d.p75
    ensures PercentileToValue(d, 95.0) == d.p95
  {
  }

  /** Between two percentiles of one segment the value is interpolated in
      proportion; outside the outer knots it does not move. */
  lemma Interpolates(d: Stats, p: real, q: real, r: real)
    requires 0.0 <= r <= 1.0 && p <= q
    requires 5.0 <= p <= q <= 25.0 || 25.0 <= p <= q <= 50.0 || 50.0 <= p <= q <= 75.0 || 75.0 <= p <= q <= 95.0
    ensures PercentileToValue(d, p + r * (q - p)) ==
      PercentileToValue(d, p) + r * (PercentileToValue(d, q) - PercentileToValue(d, p))
  {
    hide PercentileToValue;
    InterpolatesBetween(d, p, q, r);
  }

  /** From a at the lower knot to b, a width further. */
  function Along(a: real, b: real, low: real, width: real, p: real): real
    requires width > 0.0
  {
    Between(a, b, (p - low) / width)
  }

  lemma InterpolatesBetween(d: Stats, p: real, q: real, r: real)
    requires 0.0 <= r <= 1.0 && p <= q
    requires 5.0 <= p <= q <= 25.0 || 25.0 <= p <= q <= 50.0 || 50.0 <= p <= q <= 75.0 || 75.0 <= p <= q <= 95.0
    ensures PercentileToValue(d, Between(p, q, r)) == Between(PercentileToValue(d, p), PercentileToValue(d, q), r)
  {
    hide Between, PercentileToValue, Along;
    StaysBetween(p, q, r);
    SegmentFormula(d, p);
    SegmentFormula(d, Between(p, q, r));
    SegmentFormula(d, q);
    if 5.0 <= p <= q <= 25.0 {
      Proportional(d.p05, d.p25, 5.0, 20.0, p, q, r);
    } else if 25.0 <= p <= q <= 50.0 {
      Proportional(d.p25, d.median, 25.0, 25.0, p, q, r);
    } else if 50.0 <= p <= q <= 75.0 {
      Proportional(d.median, d.p75, 50.0, 25.0, p, q, r);
    } else {
      Proportional(d.p75, d.p95, 75.0, 20.0, p, q, r);
    }
  }

  lemma StaysBetween(p: real, q: real, r: real)
    requires 0.0 <= r <= 1.0 && p <= q
    ensures p <= Between(p, q, r) <= q
  {
    Product(0.0, r, q - p);
    Product(r, 1.0, q - p);
  }

  /** Each formula holds on its closed segment. */
  lemma SegmentFormula(d: Stats, p: real)
    ensures 5.0 <= p <= 25.0 ==> PercentileToValue(d, p) == Along(d.p05, d.p25, 5.0, 20.0, p)
    ensures 25.0 <= p <= 50.0 ==> PercentileToValue(d, p) == Along(d.p25, d.median, 25.0, 25.0, p)
    ensures 50.0 <= p <= 75.0 ==> PercentileToValue(d, p) == Along(d.median, d.p75, 50.0, 25.0, p)
    ensures 75.0 <= p <= 95.0 ==> PercentileToValue(d, p) == Along(d.p75, d.p95, 75.0, 20.0, p)
  {
    KnotsFromTheRight(d);
  }

  lemma Proportional(a: real, b: real, low: real, width: real, p: real, q: real, r: real)
    requires width > 0.0
    ensures Along(a, b, low, width, Between(p, q, r)) ==
      Between(Along(a, b, low, width, p), Along(a, b, low, width, q), r)
  {
    var x, y := (p - low) / width, (q - low) / width;
    var z := (p + r * (q - p) - low) / width;
    assert x * width == p - low && y * width == q - low && z * width == p + r * (q - p) - low;
    assert (x + r * (y - x)) * width == p + r * (q - p) - low;
    assert z == x + r * (y - x);
    assert z * (b - a) == x * (b - a) + r * (y * (b - a) - x * (b - a));
  }

  lemma FlatOutside(d: Stats, p: real)
    ensures p <= 5.0 ==> PercentileToValue(d, p) == d.p05
    ensures p >= 95.0 ==> PercentileToValue(d, p) == d.p95
  {
    ValueAtKnots(d);
  }

  /** The value is monotone in the percentile exactly when the statistics are
      ordered, and then stays between the outer ones. */
  lemma MonotoneIffOrdered(d: Stats)
    ensures (forall p: real, q: real :: p <= q ==> PercentileToValue(d, p) <= PercentileToValue(d, q)) <==> Ordered(d)
    ensures Ordered(d) ==> forall p: real :: d.p05 <= PercentileToValue(d, p) <= d.p95
  {
    hide Between;
    ValueAtKnots(d);
    if Ordered(d) {
      forall p: real, q: real | p <= q
        ensures PercentileToValue(d, p) <= PercentileToValue(d, q)
      {
        ValueGrows(d, p, q);
      }
      forall p: real
        ensures d.p05 <= PercentileToValue(d, p) <= d.p95
      {
        WithinSegment(d, p);
      }
    }
    if forall p: real, q: real :: p <= q ==> PercentileToValue(d, p) <= PercentileToValue(d, q) {
      assert PercentileToValue(d, 5.0) <= PercentileToValue(d, 25.0) <= PercentileToValue(d, 50.0);
      assert PercentileToValue(d, 50.0) <= PercentileToValue(d, 75.0) <= PercentileToValue(d, 95.0);
    }
  }

  // ----- no jumps

  /** The steepest possible rise per percentile point. */
  function Steepest(d: Stats): real {
    (d.p95 - d.p05) / 20.0
  }

  function Rise(slope: real, p: real, q: real): real {
    (q - p) * slope
  }

  lemma SteepestNonNegative(d: Stats, p: real, q: real)
    requires Ordered(d) && p <= q
    ensures Rise(Steepest(d), p, q) >= 0.0
  {
    Product(0.0, q - p, Steepest(d));
  }

  lemma RiseBetween(a: real, b: real, low: real, width: real, p: real, q: real, most: real)
    requires a <= b && b - a <= most && p <= q && width >= 20.0
    ensures Between(a, b, (q - low) / width) - Between(a, b, (p - low) / width) <= Rise(most / 20.0, p, q)
  {
    var r, s, t := (p - low) / width, (q - low) / width, (q - p) / width;
    QuotientAdds(q - p, p - low, width);
    assert s == t + r;
    calc {
      Between(a, b, s) - Between(a, b, r);
    ==
      (s - r) * (b - a);
    ==
      t * (b - a);
    <= { CrossMultiply(0.0, 1.0, q - p, width); Product(b - a, most, t); }
      t * most;
    <= { CrossMultiply(q - p, width, q - p, 20.0); Product(t, (q - p) / 20.0, most); }
      (q - p) / 20.0 * most;
    ==
      (q - p) * (most / 20.0);
    ==
      Rise(most / 20.0, p, q);
    }
  }

  /** Between two percentiles of one segment, knots included. */
  lemma RiseInSegment(d: Stats, p: real, q: real)
    requires Ordered(d) && p <= q
    requires q <= 5.0 || 5.0 <= p <= q <= 25.0 || 25.0 <= p <= q <= 50.0 ||
      50.0 <= p <= q <= 75.0 || 75.0 <= p <= q <= 95.0 || 95.0 <= p
    ensures PercentileToValue(d, q) - PercentileToValue(d, p) <= Rise(Steepest(d), p, q)
  {
    var most := d.p95 - d.p05;
    KnotsFromTheRight(d);
    SteepestNonNegative(d, p, q);
    hide Between, Rise;
    if 5.0 <= p <= q <= 25.0 {
      RiseBetween(d.p05, d.p25, 5.0, 20.0, p, q, most);
    } else if 25.0 <= p <= q <= 50.0 {
      RiseBetween(d.p25, d.median, 25.0, 25.0, p, q, most);
    } else if 50.0 <= p <= q <= 75.0 {
      RiseBetween(d.median, d.p75, 50.0, 25.0, p, q, most);
    } else if 75.0 <= p <= q <= 95.0 {
      RiseBetween(d.p75, d.p95, 75.0, 20.0, p, q, most);
    }
  }

  /** At each knot the formula of the next segment gives the same value. */
  lemma KnotsFromTheRight(d: Stats)
    ensures PercentileToValue(d, 5.0) == Between(d.p05, d.p25, (5.0 - 5.0) / 20.0)
    ensures PercentileToValue(d, 25.0) == Between(d.p25, d.median, (25.0 - 25.0) / 25.0)
    ensures PercentileToValue(d, 50.0) == Between(d.median, d.p75, (50.0 - 50.0) / 25.0)
    ensures PercentileToValue(d, 75.0) == Between(d.p75, d.p95, (75.0 - 75.0) / 20.0)
    ensures PercentileToValue(d, 95.0) == d.p95
  {
  }

  function NextKnot(p: real): real {
    if p < 5.0 then 5.0
    else if p < 25.0 then 25.0
    else if p < 50.0 then 50.0
    else if p < 75.0 then 75.0
    else 95.0
  }

  function KnotsLeft(p: real): nat {
    if p < 5.0 then 5
    else if p < 25.0 then 4
    else if p < 50.0 then 3
    else if p < 75.0 then 2
    else if p < 95.0 then 1
    else 0
  }

  /** For ordered statistics the value rises by at most the steepest slope times
      the distance, across any knots: it has no jumps. */
  lemma {:induction false} NoJumps(d: Stats, p: real, q: real)
    requires Ordered(d) && p <= q
    ensures 0.0 <= PercentileToValue(d, q) - PercentileToValue(d, p) <= Rise(Steepest(d), p, q)
    decreases KnotsLeft(p)
  {
    ValueGrows(d, p, q);
    hide PercentileToValue, Steepest;
    if KnotsLeft(p) == 0 || q <= NextKnot(p) {
      RiseInSegment(d, p, q);
    } else {
      var k := NextKnot(p);
      RiseInSegment(d, p, k);
      NoJumps(d, k, q);
      calc {
        Rise(Steepest(d), p, k) + Rise(Steepest(d), k, q);
      ==
        (k - p) * Steepest(d) + (q - k) * Steepest(d);
      ==
        Rise(Steepest(d), p, q);
      }
    }
  }
}
