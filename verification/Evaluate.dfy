/** evaluate.py: the scoring loop, its ledgers, and the comparison report. */
module Evaluate {
  import opened Prelude
  import opened Fractions
  import opened Rounding
  import opened Tally
  import opened Dataset

  /** What became of one example. Failed when something raised before the
      category was counted; HalfScored when only the severity arithmetic did. */
  datatype Prediction =
    | Failed
    | HalfScored(category: string)
    | Predicted(category: string, severity: nat)

  datatype CategoryMetrics = CategoryMetrics(accuracy: real, total: nat, correct: nat)

  datatype Metrics = Metrics(
    accuracy: real,
    severityMae: real,
    severityMse: real,
    totalExamples: nat,
    correctPredictions: nat,
    categories: map<string, CategoryMetrics>)

  // ----- what the loop collects

  function Actual(e: Example): string {
    match e.category
    case Some(c) => c
    case None => ""
  }

  /** The categories of the scored examples. */
  function Scored(es: seq<Example>, ps: seq<Prediction>): seq<string>
    requires |es| == |ps|
  {
    if es == [] then []
    else
      var n := |es| - 1;
      Scored(es[..n], ps[..n]) + if !ps[n].Failed? && Actual(es[n]) != "" then [Actual(es[n])] else []
  }

  /** The categories of the examples predicted correctly. */
  function Correct(es: seq<Example>, ps: seq<Prediction>): seq<string>
    requires |es| == |ps|
  {
    if es == [] then []
    else
      var n := |es| - 1;
      Correct(es[..n], ps[..n]) +
      if !ps[n].Failed? && Actual(es[n]) != "" && ps[n].category == Actual(es[n]) then [Actual(es[n])] else []
  }

  function Distance(x: int, y: int): real {
    if x < y then (y - x) as real else (x - y) as real
  }

  /** The severity errors, where both severities are known. */
  function Errors(es: seq<Example>, ps: seq<Prediction>): seq<real>
    requires |es| == |ps|
  {
    if es == [] then []
    else
      var n := |es| - 1;
      Errors(es[..n], ps[..n]) +
      if ps[n].Predicted? && es[n].severity.Some? && ps[n].severity > 0
      then [Distance(ps[n].severity, es[n].severity.value)] else []
  }

  function SumOfSquares(xs: seq<real>): real {
    if xs == [] then 0.0 else SumOfSquares(xs[..|xs| - 1]) + Square(xs[|xs| - 1])
  }

  function Square(x: real): real {
    x * x
  }

  lemma Positive(x: real)
    requires x > 0.0
    ensures x * x > 0.0
  {
  }

  lemma SquarePositive(x: real)
    requires x != 0.0
    ensures Square(x) > 0.0
  {
    if x > 0.0 {
      calc { Square(x); == x * x; > { Positive(x); } 0.0; }
    } else {
      calc { Square(x); == x * x; == (-x) * (-x); > { Positive(-x); } 0.0; }
    }
  }

  lemma SquareSign(x: real)
    ensures Square(x) >= 0.0
    ensures Square(x) == 0.0 <==> x == 0.0
  {
    if x != 0.0 {
      SquarePositive(x);
    }
  }

  lemma SquareGrows(x: real, y: real)
    requires 0.0 <= x < y
    ensures Square(x) < Square(y)
  {
    calc {
      Square(x);
    ==
      x * x;
    <= { Product(x, y, x); }
      y * x;
    ==
      x * y;
    < { StrictProduct(x, y, y); }
      y * y;
    ==
      Square(y);
    }
  }

  function Ratio(k: nat, n: nat): real {
    if n > 0 then k as real / n as real else 0.0
  }

  function Breakdown(scored: seq<string>, correct: seq<string>): map<string, CategoryMetrics> {
    map c | c in TallyOf(scored) ::
      CategoryMetrics(Ratio(Get(TallyOf(correct), c), TallyOf(scored)[c]), TallyOf(scored)[c], Get(TallyOf(correct), c))
  }

  function MetricsOf(es: seq<Example>, ps: seq<Prediction>): Metrics
    requires |es| == |ps|
  {
    var errors := Errors(es, ps);
    Metrics(
      Ratio(|Correct(es, ps)|, |es|),
      if errors == [] then 0.0 else Mean(errors),
      if errors == [] then 0.0 else SumOfSquares(errors) / |errors| as real,
      |es|, |Correct(es, ps)|, Breakdown(Scored(es, ps), Correct(es, ps)))
  }

  // ----- the loop

  method Evaluate(es: seq<Example>, ps: seq<Prediction>) returns (m: Metrics)
    requires |es| == |ps|
    ensures m == MetricsOf(es, ps)
  {
    hide TallyOf, Distance, Scored, Correct, Errors, Bump;
    var categoryTotal, categoryCorrect: map<string, nat> := map[], map[];
    var correctPredictions := 0;
    var errors: seq<real> := [];
    NothingScored(es, ps);
    for i := 0 to |es|
      invariant categoryTotal == TallyOf(Scored(es[..i], ps[..i]))
      invariant categoryCorrect == TallyOf(Correct(es[..i], ps[..i]))
      invariant correctPredictions == |Correct(es[..i], ps[..i])|
      invariant errors == Errors(es[..i], ps[..i])
    {
      ScoreStep(es, ps, i);
      if ps[i] == Failed {
        continue;
      }
      var actual := Actual(es[i]);
      if actual != "" {
        TallySnoc(Scored(es[..i], ps[..i]), actual);
        categoryTotal := Bump(categoryTotal, actual);
        if ps[i].category == actual {
          TallySnoc(Correct(es[..i], ps[..i]), actual);
          categoryCorrect := Bump(categoryCorrect, actual);
          correctPredictions := correctPredictions + 1;
        }
      }
      if ps[i].Predicted? && es[i].severity.Some? && ps[i].severity > 0 {
        errors := errors + [Distance(ps[i].severity, es[i].severity.value)];
      }
    }
    assert es[..|es|] == es && ps[..|ps|] == ps;
    m := Metrics(
      Ratio(correctPredictions, |es|),
      if errors == [] then 0.0 else Sum(errors) / |errors| as real,
      if errors == [] then 0.0 else SumOfSquares(errors) / |errors| as real,
      |es|, correctPredictions,
      map c | c in categoryTotal ::
        CategoryMetrics(Ratio(Get(categoryCorrect, c), categoryTotal[c]), categoryTotal[c], Get(categoryCorrect, c)));
  }

  /** What one example adds to the three lists. */
  lemma ScoreStep(es: seq<Example>, ps: seq<Prediction>, i: nat)
    requires |es| == |ps| && i < |es|
    ensures var actual := Actual(es[i]);
      var scored := !ps[i].Failed? && actual != "";
      var correct := scored && ps[i].category == actual;
      && Scored(es[..i + 1], ps[..i + 1])
         == (if scored then Scored(es[..i], ps[..i]) + [actual] else Scored(es[..i], ps[..i]))
      && Correct(es[..i + 1], ps[..i + 1])
         == (if correct then Correct(es[..i], ps[..i]) + [actual] else Correct(es[..i], ps[..i]))
    ensures Errors(es[..i + 1], ps[..i + 1]) ==
      if ps[i].Predicted? && es[i].severity.Some? && ps[i].severity > 0
      then Errors(es[..i], ps[..i]) + [Distance(ps[i].severity, es[i].severity.value)] else Errors(es[..i], ps[..i])
  {
    assert es[..i + 1][..i] == es[..i] && ps[..i + 1][..i] == ps[..i];
  }

  lemma NothingScored(es: seq<Example>, ps: seq<Prediction>)
    requires |es| == |ps|
    ensures TallyOf(Scored(es[..0], ps[..0])) == map[] == TallyOf(Correct(es[..0], ps[..0]))
    ensures Correct(es[..0], ps[..0]) == [] && Errors(es[..0], ps[..0]) == []
  {
  }

  // ----- what is counted

  predicate IsScored(e: Example, p: Prediction, c: string) {
    !p.Failed? && e.category == Some(c)
  }

  predicate IsCorrect(e: Example, p: Prediction, c: string) {
    !p.Failed? && e.category == Some(c) && p.category == c
  }

  /** The examples of a category that were scored. */
  ghost function ScoredAt(es: seq<Example>, ps: seq<Prediction>, c: string): set<nat>
    requires |es| == |ps|
  {
    set i: nat | i < |es| && IsScored(es[i], ps[i], c)
  }

  /** Those that were given their own category. */
  ghost function CorrectAt(es: seq<Example>, ps: seq<Prediction>, c: string): set<nat>
    requires |es| == |ps|
  {
    set i: nat | i < |es| && IsCorrect(es[i], ps[i], c)
  }

  lemma ScoredAtStep(es: seq<Example>, ps: seq<Prediction>, c: string)
    requires |es| == |ps| && es != []
    ensures var n := |es| - 1;
      |ScoredAt(es, ps, c)| == |ScoredAt(es[..n], ps[..n], c)| + if IsScored(es[n], ps[n], c) then 1 else 0
  {
    hide IsScored;
    var n := |es| - 1;
    var before, now := ScoredAt(es[..n], ps[..n], c), ScoredAt(es, ps, c);
    assert forall i: nat :: i < n ==> (i in before <==> i in now);
    assert now == before + if IsScored(es[n], ps[n], c) then {n} else {};
  }

  lemma CorrectAtStep(es: seq<Example>, ps: seq<Prediction>, c: string)
    requires |es| == |ps| && es != []
    ensures var n := |es| - 1;
      |CorrectAt(es, ps, c)| == |CorrectAt(es[..n], ps[..n], c)| + if IsCorrect(es[n], ps[n], c) then 1 else 0
  {
    hide IsCorrect;
    var n := |es| - 1;
    var before, now := CorrectAt(es[..n], ps[..n], c), CorrectAt(es, ps, c);
    assert forall i: nat :: i < n ==> (i in before <==> i in now);
    assert now == before + if IsCorrect(es[n], ps[n], c) then {n} else {};
  }

  lemma {:induction false} ScoredAreCounted(es: seq<Example>, ps: seq<Prediction>, c: string)
    requires |es| == |ps| && c != ""
    ensures multiset(Scored(es, ps))[c] == |ScoredAt(es, ps, c)|
  {
    if es == [] {
      assert ScoredAt(es, ps, c) == {};
    } else {
      ScoredAreCounted(es[..|es| - 1], ps[..|es| - 1], c);
      ScoredAtStep(es, ps, c);
      hide ScoredAt;
    }
  }

  lemma {:induction false} CorrectAreCounted(es: seq<Example>, ps: seq<Prediction>, c: string)
    requires |es| == |ps| && c != ""
    ensures multiset(Correct(es, ps))[c] == |CorrectAt(es, ps, c)|
  {
    if es == [] {
      assert CorrectAt(es, ps, c) == {};
    } else {
      CorrectAreCounted(es[..|es| - 1], ps[..|es| - 1], c);
      CorrectAtStep(es, ps, c);
      hide CorrectAt;
    }
  }

  lemma {:induction false} NoEmptyCategory(es: seq<Example>, ps: seq<Prediction>)
    requires |es| == |ps|
    ensures "" !in Scored(es, ps)
  {
    if es != [] {
      NoEmptyCategory(es[..|es| - 1], ps[..|es| - 1]);
    }
  }

  /** The accuracies are the shares of correct predictions, over all examples and
      over the scored ones of each category that has any. */
  lemma MetricsMean(es: seq<Example>, ps: seq<Prediction>, c: string)
    requires |es| == |ps|
    ensures var m := MetricsOf(es, ps);
      && m.totalExamples == |es|
      && (es == [] ==> m.accuracy == 0.0)
      && m.accuracy * |es| as real == m.correctPredictions as real
      && (c in m.categories <==> c != "" && ScoredAt(es, ps, c) != {})
      && (c in m.categories ==>
            var of := m.categories[c];
            && of.total == |ScoredAt(es, ps, c)| && of.correct == |CorrectAt(es, ps, c)|
            && of.accuracy * of.total as real == of.correct as real)
  {
    hide *;
    var m := MetricsOf(es, ps);
    NoEmptyCategory(es, ps);
    CorrectWithinScored(es, ps, c);
    RatioTimes(|Correct(es, ps)|, |es|);
    MetricsParts(es, ps);
    BreakdownMeans(Scored(es, ps), Correct(es, ps), c);
    if c != "" {
      ScoredAreCounted(es, ps, c);
      CorrectAreCounted(es, ps, c);
    } else {
      assert multiset(Scored(es, ps))[c] == 0;
    }
  }

  lemma MetricsParts(es: seq<Example>, ps: seq<Prediction>)
    requires |es| == |ps|
    ensures var m := MetricsOf(es, ps);
      && m.totalExamples == |es| && m.correctPredictions == |Correct(es, ps)|
      && m.accuracy == Ratio(|Correct(es, ps)|, |es|) && (es == [] ==> m.accuracy == 0.0)
      && m.categories == Breakdown(Scored(es, ps), Correct(es, ps))
  {
    hide Scored, Correct, Errors, Breakdown;
  }

  lemma BreakdownMeans(scored: seq<string>, correct: seq<string>, c: string)
    requires multiset(correct)[c] <= multiset(scored)[c]
    ensures var b := Breakdown(scored, correct);
      && (c in b <==> multiset(scored)[c] > 0)
      && (c in b ==>
            && b[c].total == multiset(scored)[c] && b[c].correct == multiset(correct)[c]
            && b[c].accuracy * b[c].total as real == b[c].correct as real)
  {
    GetIsMultiplicity(scored, c);
    GetIsMultiplicity(correct, c);
    TalliedIff(scored, c);
    RatioTimes(multiset(correct)[c], multiset(scored)[c]);
    hide TallyOf, Ratio;
  }

  lemma TalliedIff(xs: seq<string>, c: string)
    ensures c in TallyOf(xs) <==> multiset(xs)[c] > 0
  {
    assert c in multiset(xs) <==> c in xs;
  }

  lemma RatioTimes(k: nat, n: nat)
    requires k > 0 ==> n > 0
    ensures Ratio(k, n) * n as real == k as real
  {
  }

  /** Both severities are there to compare. */
  predicate IsMeasured(e: Example, p: Prediction) {
    p.Predicted? && p.severity > 0 && e.severity.Some?
  }

  ghost predicate ApartBy(e: Example, p: Prediction, d: real) {
    && p.Predicted? && e.severity.Some? && d >= 0.0
    && (p.severity as real + d == e.severity.value as real || e.severity.value as real + d == p.severity as real)
  }

  ghost predicate Increasing(at: seq<nat>) {
    forall k, l :: 0 <= k < l < |at| ==> at[k] < at[l]
  }

  /** The positions measured, in order, and how far the severities are apart there. */
  ghost predicate Measures(es: seq<Example>, ps: seq<Prediction>, at: seq<nat>, errors: seq<real>)
    requires |es| == |ps|
  {
    && |at| == |errors| && Increasing(at)
    && (forall i: nat :: i in at <==> i < |es| && IsMeasured(es[i], ps[i]))
    && forall k :: 0 <= k < |at| ==> at[k] < |es| && ApartBy(es[at[k]], ps[at[k]], errors[k])
  }

  /** The error list has one entry for each measured example, in order. */
  lemma {:induction false} ErrorsAre(es: seq<Example>, ps: seq<Prediction>) returns (at: seq<nat>)
    requires |es| == |ps|
    ensures Measures(es, ps, at, Errors(es, ps))
  {
    hide Measures, Distance;
    if es == [] {
      at := [];
      NothingMeasured();
    } else {
      var n := |es| - 1;
      at := ErrorsAre(es[..n], ps[..n]);
      MeasuresStep(es, ps, at, Errors(es[..n], ps[..n]));
      if IsMeasured(es[n], ps[n]) {
        at := at + [n];
      } else {
        assert Errors(es[..n], ps[..n]) + [] == Errors(es[..n], ps[..n]);
      }
    }
  }

  lemma NothingMeasured()
    ensures Measures([], [], [], [])
  {
  }

  lemma MeasuresStep(es: seq<Example>, ps: seq<Prediction>, at: seq<nat>, errors: seq<real>)
    requires |es| == |ps| && es != [] && Measures(es[..|es| - 1], ps[..|es| - 1], at, errors)
    ensures var n := |es| - 1;
      if IsMeasured(es[n], ps[n])
      then Measures(es, ps, at + [n], errors + [Distance(ps[n].severity, es[n].severity.value)])
      else Measures(es, ps, at, errors)
  {
    var n := |es| - 1;
    assert forall k :: 0 <= k < |at| ==> at[k] in at;
    assert forall i: nat :: i < n ==> es[..n][i] == es[i] && ps[..n][i] == ps[i];
    if IsMeasured(es[n], ps[n]) {
      IsDistance(es[n], ps[n]);
      hide IsMeasured, ApartBy, Distance;
    } else {
      hide IsMeasured, ApartBy, Distance;
    }
  }

  lemma IsDistance(e: Example, p: Prediction)
    requires IsMeasured(e, p)
    ensures ApartBy(e, p, Distance(p.severity, e.severity.value))
  {
  }

  /** The severity figures are the mean of the errors and the mean of their squares. */
  lemma SeverityMeans(es: seq<Example>, ps: seq<Prediction>)
    requires |es| == |ps|
    ensures var m, errors := MetricsOf(es, ps), Errors(es, ps);
      && (errors == [] ==> m.severityMae == 0.0 == m.severityMse)
      && m.severityMae * |errors| as real == Sum(errors)
      && m.severityMse * |errors| as real == Sum(seq(|errors|, i requires 0 <= i < |errors| => errors[i] * errors[i]))
  {
    hide Errors, Scored, Correct, Breakdown;
    SquaresSum(Errors(es, ps));
  }

  lemma {:induction false} SquaresSum(xs: seq<real>)
    ensures SumOfSquares(xs) == Sum(seq(|xs|, i requires 0 <= i < |xs| => xs[i] * xs[i]))
  {
    if xs != [] {
      var n := |xs| - 1;
      SquaresSum(xs[..n]);
      var squares := seq(|xs|, i requires 0 <= i < |xs| => xs[i] * xs[i]);
      var before := seq(|xs[..n]|, i requires 0 <= i < |xs[..n]| => xs[..n][i] * xs[..n][i]);
      assert forall i :: 0 <= i < n ==> xs[..n][i] == xs[i];
      SameProducts(squares[..n], before, xs[..n]);
    }
  }

  lemma SameProducts(a: seq<real>, b: seq<real>, xs: seq<real>)
    requires |a| == |b| == |xs|
    requires forall i :: 0 <= i < |xs| ==> a[i] == xs[i] * xs[i] && b[i] == xs[i] * xs[i]
    ensures a == b
  {
  }

  // ----- the ledgers

  lemma {:induction false} CorrectWithinScored(es: seq<Example>, ps: seq<Prediction>, c: string)
    requires |es| == |ps|
    ensures multiset(Correct(es, ps))[c] <= multiset(Scored(es, ps))[c]
    ensures |Correct(es, ps)| <= |Scored(es, ps)| <= |es|
  {
    if es != [] {
      CorrectWithinScored(es[..|es| - 1], ps[..|es| - 1], c);
    }
  }

  ghost function Totals(cs: map<string, CategoryMetrics>): map<string, nat> {
    map c | c in cs :: cs[c].total
  }

  ghost function Corrects(cs: map<string, CategoryMetrics>): map<string, nat> {
    map c | c in cs :: cs[c].correct
  }

  /** Counts over a larger set of keys add up to the same total. */
  lemma {:induction false} TotalWithZeros(m: map<string, nat>, larger: map<string, nat>)
    requires forall c :: c in m ==> c in larger
    requires forall c :: c in larger ==> larger[c] == Get(m, c)
    ensures Total(larger) == Total(m)
    decreases |larger|
  {
    if larger != map[] {
      var c :| c in larger;
      TotalSplit(larger, c);
      if c in m {
        TotalSplit(m, c);
        TotalWithZeros(m - {c}, larger - {c});
      } else {
        TotalWithZeros(m, larger - {c});
      }
    } else {
      assert m == map[];
    }
  }

  /** The category totals add up to the scored examples, at most all of them;
      the correct counts add up to the correct predictions; no category has
      more correct than scored; and every accuracy lies between 0 and 1, even
      when examples fail. */
  lemma LedgersAgree(es: seq<Example>, ps: seq<Prediction>)
    requires |es| == |ps|
    ensures var m := MetricsOf(es, ps);
      && Total(Totals(m.categories)) == |Scored(es, ps)| <= m.totalExamples
      && Total(Corrects(m.categories)) == m.correctPredictions
      && 0.0 <= m.accuracy <= 1.0
      && forall c :: c in m.categories ==>
        m.categories[c].correct <= m.categories[c].total && 0.0 <= m.categories[c].accuracy <= 1.0
  {
    var m, scored, correct := MetricsOf(es, ps), Scored(es, ps), Correct(es, ps);
    forall c
      ensures Get(TallyOf(correct), c) <= Get(TallyOf(scored), c)
    {
      CorrectWithinScored(es, ps, c);
      GetIsMultiplicity(correct, c);
      GetIsMultiplicity(scored, c);
    }
    CorrectWithinScored(es, ps, "");
    assert Totals(m.categories) == TallyOf(scored);
    TallyTotal(scored);
    forall c | c in TallyOf(correct)
      ensures c in Corrects(m.categories)
    {
      TalliedIsPositive(correct, c);
      assert Get(TallyOf(correct), c) > 0;
    }
    TotalWithZeros(TallyOf(correct), Corrects(m.categories));
    TallyTotal(correct);
    RatioBounds(|correct|, |es|);
    forall c | c in m.categories
      ensures m.categories[c].correct <= m.categories[c].total && 0.0 <= m.categories[c].accuracy <= 1.0
    {
      assert Get(TallyOf(correct), c) <= Get(TallyOf(scored), c);
      RatioBounds(m.categories[c].correct, m.categories[c].total);
    }
  }

  lemma TalliedIsPositive(xs: seq<string>, c: string)
    requires c in TallyOf(xs)
    ensures Get(TallyOf(xs), c) > 0
  {
  }

  lemma RatioBounds(k: nat, n: nat)
    requires k <= n
    ensures 0.0 <= Ratio(k, n) <= 1.0
  {
    if n > 0 {
      CrossMultiply(0.0, 1.0, k as real, n as real);
      CrossMultiply(k as real, n as real, 1.0, 1.0);
    }
  }

  // ----- mean error against mean squared error

  /** The squared spread around the mean, without division. */
  function Spread(xs: seq<real>, mean: real): (s: real)
    ensures s >= 0.0
  {
    if xs == [] then 0.0
    else
      SquareSign(xs[|xs| - 1] - mean);
      Spread(xs[..|xs| - 1], mean) + Square(xs[|xs| - 1] - mean)
  }

  lemma {:induction false} SpreadExpands(xs: seq<real>, mean: real)
    ensures Spread(xs, mean) == Expanded(SumOfSquares(xs), Sum(xs), |xs| as real, mean)
  {
    if xs != [] {
      var n := |xs| - 1;
      SpreadExpands(xs[..n], mean);
      hide Square, Expanded;
      OneMoreTerm(Spread(xs[..n], mean), SumOfSquares(xs[..n]), Sum(xs[..n]), n as real, xs[n], mean);
      assert (n + 1) as real == n as real + 1.0;
    }
  }

  function Expanded(squares: real, sum: real, n: real, mean: real): real {
    squares - 2.0 * mean * sum + n * (mean * mean)
  }

  lemma OneMoreTerm(spread: real, squares: real, sum: real, n: real, x: real, mean: real)
    requires spread == Expanded(squares, sum, n, mean)
    ensures spread + Square(x - mean) == Expanded(squares + Square(x), sum + x, n + 1.0, mean)
  {
    assert (n + 1.0) * (mean * mean) == n * (mean * mean) + mean * mean;
    assert 2.0 * mean * (sum + x) == 2.0 * mean * sum + 2.0 * mean * x;
    assert (x - mean) * (x - mean) == x * x - 2.0 * mean * x + mean * mean;
  }

  ghost predicate AllAre(xs: seq<real>, value: real) {
    forall i :: 0 <= i < |xs| ==> xs[i] == value
  }

  lemma {:induction false} NoSpreadMeansEqual(xs: seq<real>, mean: real)
    ensures Spread(xs, mean) == 0.0 <==> AllAre(xs, mean)
  {
    if xs != [] {
      NoSpreadMeansEqual(xs[..|xs| - 1], mean);
      SquareSign(xs[|xs| - 1] - mean);
      hide Square;
    }
  }

  /** The squared mean never exceeds the mean square, and equals it exactly when
      all values are the mean. */
  lemma MeanSquareBound(xs: seq<real>)
    requires xs != []
    ensures Square(Mean(xs)) <= SumOfSquares(xs) / |xs| as real
    ensures Square(Mean(xs)) == SumOfSquares(xs) / |xs| as real <==> AllAre(xs, Mean(xs))
  {
    hide Sum, SumOfSquares, Spread, Square, Expanded;
    SpreadExpands(xs, Mean(xs));
    NoSpreadMeansEqual(xs, Mean(xs));
    MeanAgainst(SumOfSquares(xs), Sum(xs), |xs| as real, Spread(xs, Mean(xs)));
  }

  function Mean(xs: seq<real>): real
    requires xs != []
  {
    Sum(xs) / |xs| as real
  }

  /** With spread = total - 2 mean sum + n mean^2, the spread is n times the gap
      between the mean square and the squared mean. */
  lemma MeanAgainst(total: real, sum: real, n: real, spread: real)
    requires n > 0.0 && spread >= 0.0
    requires spread == Expanded(total, sum, n, sum / n)
    ensures Square(sum / n) <= total / n
    ensures Square(sum / n) == total / n <==> spread == 0.0
  {
    var mean, q := sum / n, total / n;
    assert mean * n == sum && q * n == total;
    assert 2.0 * mean * sum == 2.0 * (n * (mean * mean));
    assert spread == n * (q - mean * mean);
    if q < mean * mean {
      StrictProduct(q - mean * mean, 0.0, n);
    }
  }

  /** In every evaluation, the mean severity error is at most the root of the
      mean squared one, with equality exactly when all errors are equal. */
  lemma MaeAtMostRmse(es: seq<Example>, ps: seq<Prediction>, rmse: real)
    requires |es| == |ps| && rmse >= 0.0
    requires Square(rmse) == MetricsOf(es, ps).severityMse
    ensures MetricsOf(es, ps).severityMae <= rmse
    ensures MetricsOf(es, ps).severityMae == rmse <==> AllAre(Errors(es, ps), MetricsOf(es, ps).severityMae)
  {
    hide Square, Sum, SumOfSquares, Mean, Errors, Scored, Correct, Breakdown;
    var errors := Errors(es, ps);
    if errors == [] {
      SquareSign(rmse);
    } else {
      ErrorsNonNegative(es, ps);
      MeanAtMostRoot(errors, rmse);
      assert MetricsOf(es, ps).severityMae == Mean(errors);
    }
  }

  lemma MeanAtMostRoot(xs: seq<real>, root: real)
    requires xs != [] && root >= 0.0 && forall i :: 0 <= i < |xs| ==> xs[i] >= 0.0
    requires Square(root) == SumOfSquares(xs) / |xs| as real
    ensures Mean(xs) <= root
    ensures Mean(xs) == root <==> AllAre(xs, Mean(xs))
  {
    hide Square, Sum, SumOfSquares, Mean;
    MeanNonNegative(xs);
    MeanSquareBound(xs);
    CompareSquares(Mean(xs), root);
  }

  lemma MeanNonNegative(xs: seq<real>)
    requires xs != [] && forall i :: 0 <= i < |xs| ==> xs[i] >= 0.0
    ensures Mean(xs) >= 0.0
  {
    SumNonNegative(xs);
    CrossMultiply(0.0, 1.0, Sum(xs), |xs| as real);
  }

  lemma {:induction false} ErrorsNonNegative(es: seq<Example>, ps: seq<Prediction>)
    requires |es| == |ps|
    ensures forall i :: 0 <= i < |Errors(es, ps)| ==> Errors(es, ps)[i] >= 0.0
  {
    if es != [] {
      ErrorsNonNegative(es[..|es| - 1], ps[..|es| - 1]);
    }
  }

  lemma CompareSquares(x: real, y: real)
    requires 0.0 <= x && 0.0 <= y && Square(x) <= Square(y)
    ensures x <= y
    ensures x == y <==> Square(x) == Square(y)
  {
    hide Square;
    if y < x {
      SquareGrows(y, x);
    } else if x < y {
      SquareGrows(x, y);
    }
  }

  // ----- comparing two evaluations

  datatype CategoryComparison = CategoryComparison(
    baselineAccuracy: real, finetunedAccuracy: real, delta: real, baselineSamples: nat, finetunedSamples: nat)

  datatype Comparison = Comparison(
    accuracyDelta: real, severityMaeDelta: real, improvementPct: real, categories: map<string, CategoryComparison>)

  function AccuracyIn(m: Metrics, c: string): real {
    if c in m.categories then m.categories[c].accuracy else 0.0
  }

  function SamplesIn(m: Metrics, c: string): nat {
    if c in m.categories then m.categories[c].total else 0
  }

  function Pct(from: real, to: real): real {
    if from > 0.0 then (to - from) / from * 100.0 else 0.0
  }

  function Compare(baseline: Metrics, finetuned: Metrics): Comparison {
    Comparison(
      Round(finetuned.accuracy - baseline.accuracy, Four),
      Round(baseline.severityMae - finetuned.severityMae, Four),
      Round(Pct(baseline.accuracy, finetuned.accuracy), Two),
      map c | c in baseline.categories.Keys + finetuned.categories.Keys ::
        CategoryComparison(AccuracyIn(baseline, c), AccuracyIn(finetuned, c),
                           Round(AccuracyIn(finetuned, c) - AccuracyIn(baseline, c), Four),
                           SamplesIn(baseline, c), SamplesIn(finetuned, c)))
  }

  /** Differences are what the second evaluation gains in accuracy, and in
      severity error what it saves; each as rounded. */
  lemma CompareMeans(baseline: Metrics, finetuned: Metrics, c: string)
    ensures var report := Compare(baseline, finetuned);
      && Near(report.accuracyDelta, finetuned.accuracy - baseline.accuracy, 0.00005)
      && Near(report.severityMaeDelta, baseline.severityMae - finetuned.severityMae, 0.00005)
      && (baseline.accuracy <= 0.0 ==> report.improvementPct == 0.0)
      && (baseline.accuracy > 0.0 ==>
            Near(report.improvementPct, (finetuned.accuracy / baseline.accuracy - 1.0) * 100.0, 0.005))
      && (c in report.categories <==> c in baseline.categories || c in finetuned.categories)
      && (c in report.categories ==>
            && Row(report.categories[c].baselineAccuracy, report.categories[c].baselineSamples, baseline, c)
            && Row(report.categories[c].finetunedAccuracy, report.categories[c].finetunedSamples, finetuned, c)
            && Near(report.categories[c].delta,
                    report.categories[c].finetunedAccuracy - report.categories[c].baselineAccuracy, 0.00005))
  {
    hide Round;
    RoundError(finetuned.accuracy - baseline.accuracy, Four);
    RoundError(baseline.severityMae - finetuned.severityMae, Four);
    if baseline.accuracy > 0.0 {
      QuotientAdds(finetuned.accuracy, -baseline.accuracy, baseline.accuracy);
      QuotientAdds(baseline.accuracy, -baseline.accuracy, baseline.accuracy);
    } else {
      RoundFixes(0, Two);
    }
    RoundError(Pct(baseline.accuracy, finetuned.accuracy), Two);
    RoundError(AccuracyIn(finetuned, c) - AccuracyIn(baseline, c), Four);
  }

  predicate Near(x: real, y: real, most: real) {
    y - most <= x <= y + most
  }

  /** The entry of a category in one evaluation, nothing when it has none. */
  predicate Row(accuracy: real, samples: nat, m: Metrics, c: string) {
    if c in m.categories then accuracy == m.categories[c].accuracy && samples == m.categories[c].total
    else accuracy == 0.0 && samples == 0
  }

  /** Comparing the other way round negates every difference and swaps every pair. */
  lemma CompareIsAntisymmetric(baseline: Metrics, finetuned: Metrics)
    ensures var there, back := Compare(baseline, finetuned), Compare(finetuned, baseline);
      && back.accuracyDelta == -there.accuracyDelta
      && back.severityMaeDelta == -there.severityMaeDelta
      && back.categories.Keys == there.categories.Keys == baseline.categories.Keys + finetuned.categories.Keys
      && forall c :: c in there.categories ==>
        back.categories[c] == CategoryComparison(
          there.categories[c].finetunedAccuracy, there.categories[c].baselineAccuracy, -there.categories[c].delta,
          there.categories[c].finetunedSamples, there.categories[c].baselineSamples)
  {
    hide Round;
    Negated(finetuned.accuracy, baseline.accuracy);
    Negated(baseline.severityMae, finetuned.severityMae);
    var there := Compare(baseline, finetuned);
    forall c | c in there.categories
      ensures Round(AccuracyIn(baseline, c) - AccuracyIn(finetuned, c), Four) == -there.categories[c].delta
    {
      Negated(AccuracyIn(finetuned, c), AccuracyIn(baseline, c));
    }
  }

  lemma Negated(x: real, y: real)
    ensures Round(y - x, Four) == -Round(x - y, Four)
  {
    RoundOdd(x - y, Four);
    assert y - x == -(x - y);
  }

  /** Both percentages cannot be improvements. */
  lemma NotBothImprove(baseline: Metrics, finetuned: Metrics)
    ensures Compare(baseline, finetuned).improvementPct > 0.0 ==> Compare(finetuned, baseline).improvementPct <= 0.0
  {
    PctSign(baseline.accuracy, finetuned.accuracy);
    PctSign(finetuned.accuracy, baseline.accuracy);
  }

  lemma PctSign(from: real, to: real)
    ensures to <= from ==> Round(Pct(from, to), Two) <= 0.0
  {
    if to <= from && from > 0.0 {
      CrossMultiply(to - from, from, 0.0, 1.0);
    }
    if to <= from {
      RoundSign(Pct(from, to), Two);
    }
  }
}
