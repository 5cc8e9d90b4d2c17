/** ab_testing.py: recording results, and the verdict of an experiment. */
module AbTesting {
  import opened Prelude
  import opened Fractions
  import opened Rounding

  datatype Config = Config(
    experimentName: string,
    controlModelId: string,
    treatmentModelId: string,
    minSampleSize: int,
    durationHours: int,
    metrics: seq<string>)

  datatype Sample = Sample(modelId: string, metrics: map<string, real>)

  datatype Verdict = Insufficient | Promote | Discontinue | Mixed

  datatype TestResult = TestResult(
    controlMetrics: map<string, real>,
    treatmentMetrics: map<string, real>,
    improvements: map<string, real>,
    isSignificant: bool,
    sampleSize: nat,
    durationHours: int,
    recommendation: Verdict)

  // ----- what an evaluation computes

  function OfModel(samples: seq<Sample>, modelId: string): seq<Sample> {
    if samples == [] then []
    else
      var last := samples[|samples| - 1];
      OfModel(samples[..|samples| - 1], modelId) + if last.modelId == modelId then [last] else []
  }

  /** The values of one metric, where it was recorded. */
  function Values(samples: seq<Sample>, metric: string): seq<real> {
    if samples == [] then []
    else
      var last := samples[|samples| - 1];
      Values(samples[..|samples| - 1], metric) + if metric in last.metrics then [last.metrics[metric]] else []
  }

  function Average(samples: seq<Sample>, metric: string): real {
    var values := Values(samples, metric);
    if values == [] then 0.0 else Sum(values) / |values| as real
  }

  function Aggregate(samples: seq<Sample>, metrics: seq<string>): map<string, real> {
    map m | m in metrics :: Average(samples, m)
  }

  function Improvement(control: real, treatment: real): real {
    if control != 0.0 then Round((treatment - control) / Abs(control) * 100.0, Two) else 0.0
  }

  function Improvements(control: map<string, real>, treatment: map<string, real>,
                        metrics: seq<string>): map<string, real> {
    map m | m in metrics && m in control && m in treatment :: Improvement(control[m], treatment[m])
  }

  function Positives(improvements: map<string, real>): set<string> {
    set m | m in improvements && improvements[m] > 0.0
  }

  function Recommend(improvements: map<string, real>, significant: bool): Verdict {
    var positive, total := |Positives(improvements)| as real, |improvements| as real;
    if !significant then Insufficient
    else if positive >= total * 0.7 then Promote
    else if positive <= total * 0.3 then Discontinue
    else Mixed
  }

  function Significant(control: seq<Sample>, treatment: seq<Sample>): bool {
    (if |control| < |treatment| then |control| else |treatment|) >= 100
  }

  function Evaluation(config: Config, samples: seq<Sample>): Option<TestResult> {
    var control, treatment := OfModel(samples, config.controlModelId), OfModel(samples, config.treatmentModelId);
    if |samples| < config.minSampleSize || control == [] || treatment == [] then None
    else
      var c, t := Aggregate(control, config.metrics), Aggregate(treatment, config.metrics);
      var improvements := Improvements(c, t, config.metrics);
      Some(TestResult(c, t, improvements, Significant(control, treatment), |samples|, config.durationHours,
                      Recommend(improvements, Significant(control, treatment))))
  }

  /** The same experiment with the two arms exchanged. */
  function Swapped(config: Config): Config {
    config.(controlModelId := config.treatmentModelId, treatmentModelId := config.controlModelId)
  }

  // ----- what an evaluation means

  lemma {:induction false} OfModelConcat(xs: seq<Sample>, ys: seq<Sample>, modelId: string)
    ensures OfModel(xs + ys, modelId) == OfModel(xs, modelId) + OfModel(ys, modelId)
  {
    if ys == [] {
      assert xs + ys == xs;
    } else {
      assert (xs + ys)[..|xs + ys| - 1] == xs + ys[..|ys| - 1];
      OfModelConcat(xs, ys[..|ys| - 1], modelId);
    }
  }

  lemma {:induction false} ValuesConcat(xs: seq<Sample>, ys: seq<Sample>, metric: string)
    ensures Values(xs + ys, metric) == Values(xs, metric) + Values(ys, metric)
  {
    if ys == [] {
      assert xs + ys == xs;
    } else {
      assert (xs + ys)[..|xs + ys| - 1] == xs + ys[..|ys| - 1];
      ValuesConcat(xs, ys[..|ys| - 1], metric);
    }
  }

  /** Sample by sample: an arm takes its own, a metric the value recorded for it. */
  lemma OneSample(sample: Sample, modelId: string, metric: string)
    ensures OfModel([sample], modelId) == if sample.modelId == modelId then [sample] else []
    ensures Values([sample], metric) == if metric in sample.metrics then [sample.metrics[metric]] else []
  {
    assert [sample][..0] == [];
  }

  lemma {:induction false} OfModelMembers(samples: seq<Sample>, modelId: string)
    ensures forall x :: x in OfModel(samples, modelId) <==> x in samples && x.modelId == modelId
  {
    if samples != [] {
      OfModelMembers(samples[..|samples| - 1], modelId);
      assert samples == samples[..|samples| - 1] + [samples[|samples| - 1]];
    }
  }

  /** Promotion takes at least seven improved metrics of ten and discontinuation
      at most three, on a hundred samples of each arm; the rest is mixed. */
  lemma RecommendIff(improvements: map<string, real>, control: seq<Sample>, treatment: seq<Sample>)
    ensures var better := set m | m in improvements && improvements[m] > 0.0;
      var verdict := Recommend(improvements, Significant(control, treatment));
      && (verdict == Insufficient <==> |control| < 100 || |treatment| < 100)
      && (|control| >= 100 && |treatment| >= 100 ==>
            && (verdict == Promote <==> 10 * |better| >= 7 * |improvements|)
            && (verdict == Discontinue <==> 10 * |better| <= 3 * |improvements| && 10 * |better| < 7 * |improvements|)
            && (verdict == Mixed <==> 3 * |improvements| < 10 * |better| < 7 * |improvements|))
  {
    assert Positives(improvements) == set m | m in improvements && improvements[m] > 0.0;
  }

  /** An evaluation needs the minimum number of samples and both arms. It reports
      the averages of each arm under its own name, and for each metric what the
      treatment gains on the control. */
  lemma EvaluationMeans(config: Config, samples: seq<Sample>)
    ensures Evaluation(config, samples).Some? <==>
      && |samples| >= config.minSampleSize
      && (exists x :: x in samples && x.modelId == config.controlModelId)
      && exists x :: x in samples && x.modelId == config.treatmentModelId
    ensures Evaluation(config, samples).Some? ==>
      var r := Evaluation(config, samples).value;
      var control, treatment := OfModel(samples, config.controlModelId), OfModel(samples, config.treatmentModelId);
      && r.sampleSize == |samples| && r.durationHours == config.durationHours
      && (r.isSignificant <==> |control| >= 100 && |treatment| >= 100)
      && r.controlMetrics.Keys == r.treatmentMetrics.Keys == r.improvements.Keys == (set m | m in config.metrics)
      && (forall m :: m in config.metrics ==>
            && IsAverage(r.controlMetrics[m], Values(control, m)) &&
              IsAverage(r.treatmentMetrics[m], Values(treatment, m))
            && r.improvements[m] == Improvement(r.controlMetrics[m], r.treatmentMetrics[m]))
      && r.recommendation == Recommend(r.improvements, r.isSignificant)
  {
    var control, treatment := OfModel(samples, config.controlModelId), OfModel(samples, config.treatmentModelId);
    OfModelMembers(samples, config.controlModelId);
    OfModelMembers(samples, config.treatmentModelId);
    assert control != [] ==> control[0] in control;
    assert treatment != [] ==> treatment[0] in treatment;
    forall m | m in config.metrics
      ensures IsAverage(Average(control, m), Values(control, m)) &&
        IsAverage(Average(treatment, m), Values(treatment, m))
    {
      AverageIs(control, m);
      AverageIs(treatment, m);
    }
    hide OfModel, Values, Average, Improvement, IsAverage, Recommend;
  }

  /** Nothing recorded averages to nothing. */
  ghost predicate IsAverage(average: real, values: seq<real>) {
    average * |values| as real == Sum(values) && (values == [] ==> average == 0.0)
  }

  lemma AverageIs(samples: seq<Sample>, metric: string)
    ensures IsAverage(Average(samples, metric), Values(samples, metric))
  {
    hide Values;
  }

  // ----- exchanging the arms

  /** An improvement one way is none the other way, whatever the means and the
      rounding to two places. */
  lemma ImprovementOneWay(control: real, treatment: real)
    ensures Improvement(control, treatment) > 0.0 ==> treatment > control
    ensures Improvement(control, treatment) > 0.0 ==> Improvement(treatment, control) <= 0.0
  {
    NoImprovementDown(control, treatment);
    NoImprovementDown(treatment, control);
  }

  lemma NoImprovementDown(control: real, treatment: real)
    ensures treatment <= control ==> Improvement(control, treatment) <= 0.0
  {
    if treatment <= control && control != 0.0 {
      CrossMultiply(treatment - control, Abs(control), 0.0, 1.0);
      RoundSign((treatment - control) / Abs(control) * 100.0, Two);
    }
  }

  /** The gain in percent of the size of the control mean, as rounded, and what
      counts as an improvement: an increase, from a mean that is not zero,
      by more than half a hundredth of a percent of it. */
  lemma ImprovesIff(control: real, treatment: real)
    ensures control == 0.0 ==> Improvement(control, treatment) == 0.0
    ensures control != 0.0 ==>
      var percent := (treatment - control) / (if control < 0.0 then -control else control) * 100.0;
      percent - 0.005 <= Improvement(control, treatment) <= percent + 0.005
    ensures control != 0.0 ==>
      (Improvement(control, treatment) > 0.0 <==> (treatment - control) / Abs(control) > 0.00005)
  {
    if control != 0.0 {
      var x := (treatment - control) / Abs(control);
      assert x * 100.0 * 100.0 > 0.5 <==> x > 0.00005;
      NearestPositive(x * 100.0 * 100.0);
      RoundError(x * 100.0, Two);
    }
  }

  lemma NearestPositive(x: real)
    ensures Nearest(x) > 0 <==> x > 0.5
  {
    var low := x.Floor;
    if x <= 0.5 {
      assert low <= 0;
    }
  }

  lemma SwappedImprovements(control: map<string, real>, treatment: map<string, real>, metrics: seq<string>)
    ensures var there, back := Improvements(control, treatment, metrics), Improvements(treatment, control, metrics);
      && there.Keys == back.Keys
      && Positives(there) !! Positives(back)
      && |Positives(there)| + |Positives(back)| <= |there| == |back|
  {
    var there, back := Improvements(control, treatment, metrics), Improvements(treatment, control, metrics);
    assert there.Keys == back.Keys;
    forall m | m in Positives(there)
      ensures m !in Positives(back)
    {
      ImprovementOneWay(control[m], treatment[m]);
    }
    assert |Positives(there) + Positives(back)| == |Positives(there)| + |Positives(back)|;
    SubsetCard(Positives(there) + Positives(back), there.Keys);
    assert |there| == |there.Keys| && |back| == |back.Keys|;
  }

  /** A promotion becomes a discontinuation when the arms are exchanged. */
  lemma RecommendSwaps(there: map<string, real>, back: map<string, real>, significant: bool)
    requires |there| == |back| > 0 && |Positives(there)| + |Positives(back)| <= |there|
    requires Recommend(there, significant) == Promote
    ensures Recommend(back, significant) == Discontinue
  {
  }

  /** Whenever an evaluation over at least one metric recommends promotion, the
      evaluation with the arms exchanged exists and recommends discontinuing. */
  lemma PromotionIsOneSided(config: Config, samples: seq<Sample>)
    requires config.metrics != []
    requires Evaluation(config, samples).Some? && Evaluation(config, samples).value.recommendation == Promote
    ensures Evaluation(Swapped(config), samples).Some?
    ensures Evaluation(Swapped(config), samples).value.recommendation == Discontinue
  {
    var control, treatment := OfModel(samples, config.controlModelId), OfModel(samples, config.treatmentModelId);
    var c, t := Aggregate(control, config.metrics), Aggregate(treatment, config.metrics);
    SwappedImprovements(c, t, config.metrics);
    var there, back := Improvements(c, t, config.metrics), Improvements(t, c, config.metrics);
    assert config.metrics[0] in there;
    RecommendSwaps(there, back, Significant(control, treatment));
  }

  /** Without metrics, both directions recommend promotion. */
  lemma NoMetricsPromotesBoth(config: Config, samples: seq<Sample>)
    requires config.metrics == []
    requires Evaluation(config, samples).Some? && Evaluation(config, samples).value.isSignificant
    ensures Evaluation(config, samples).value.recommendation == Promote
    ensures Evaluation(Swapped(config), samples).value.recommendation == Promote
  {
    var control, treatment := OfModel(samples, config.controlModelId), OfModel(samples, config.treatmentModelId);
    var c, t := Aggregate(control, config.metrics), Aggregate(treatment, config.metrics);
    assert Improvements(c, t, config.metrics) == map[] == Improvements(t, c, config.metrics);
    var none: map<string, real> := map[];
    assert Positives(none) == {};
  }

  // ----- metrics for which less is better

  /** Two of the three metrics of the default configuration. */
  const LOWER_IS_BETTER := ["latency_ms", "severity_mae"]

  function Level(metrics: seq<string>, value: real): map<string, real> {
    map m | m in metrics :: value
  }

  function Repeat(n: nat, sample: Sample): seq<Sample> {
    seq(n, i => sample)
  }

  lemma {:induction false} OfModelRepeat(n: nat, sample: Sample, modelId: string)
    ensures OfModel(Repeat(n, sample), modelId) == if sample.modelId == modelId then Repeat(n, sample) else []
  {
    if n > 0 {
      assert Repeat(n, sample)[..n - 1] == Repeat(n - 1, sample);
      OfModelRepeat(n - 1, sample, modelId);
    }
  }

  function Constant(n: nat, value: real): seq<real> {
    seq(n, i => value)
  }

  lemma {:induction false} ValuesRepeat(n: nat, sample: Sample, metric: string)
    requires metric in sample.metrics
    ensures Values(Repeat(n, sample), metric) == Constant(n, sample.metrics[metric])
  {
    if n > 0 {
      assert Repeat(n, sample)[..n - 1] == Repeat(n - 1, sample);
      ValuesRepeat(n - 1, sample, metric);
      var value := sample.metrics[metric];
      assert Constant(n, value) == Constant(n - 1, value) + [value];
    }
  }

  lemma {:induction false} SumConstant(n: nat, value: real)
    ensures Sum(Constant(n, value)) == n as real * value
  {
    if n > 0 {
      assert Constant(n, value)[..n - 1] == Constant(n - 1, value);
      SumConstant(n - 1, value);
      assert n as real * value == (n - 1) as real * value + value;
    }
  }

  lemma AverageRepeat(n: nat, sample: Sample, metric: string)
    requires n > 0 && metric in sample.metrics
    ensures Average(Repeat(n, sample), metric) == sample.metrics[metric]
  {
    hide Sum, Values;
    ValuesRepeat(n, sample, metric);
    SumConstant(n, sample.metrics[metric]);
    Unscale(n as real, sample.metrics[metric]);
  }

  lemma Unscale(n: real, value: real)
    requires n > 0.0
    ensures n * value / n == value
  {
  }

  lemma AggregateRepeat(n: nat, modelId: string, metrics: seq<string>, value: real)
    requires n > 0
    ensures Aggregate(Repeat(n, Sample(modelId, Level(metrics, value))), metrics) == Level(metrics, value)
  {
    hide Average;
    var sample := Sample(modelId, Level(metrics, value));
    forall m | m in metrics
      ensures Average(Repeat(n, sample), m) == value
    {
      AverageRepeat(n, sample, m);
    }
  }

  /** Half the default sample size for each arm, all at the level of the arm. */
  function TwoArms(control: real, treatment: real): seq<Sample> {
    Repeat(250, Sample("a", Level(LOWER_IS_BETTER, control)))
    + Repeat(250, Sample("b", Level(LOWER_IS_BETTER, treatment)))
  }

  /** Doubling the latency and the error of every request earns a promotion. */
  lemma WorseIsPromoted()
    ensures var r := Evaluation(Config("trial", "a", "b", 500, 168, LOWER_IS_BETTER), TwoArms(1.0, 2.0));
      && r.Some? && r.value.recommendation == Promote
      && forall m :: m in LOWER_IS_BETTER ==> m in r.value.improvements && r.value.improvements[m] > 0.0
  {
    hide Average, Improvement, OfModel, Repeat;
    var samples := TwoArms(1.0, 2.0);
    ArmsOfTwo(1.0, 2.0);
    AggregateRepeat(250, "a", LOWER_IS_BETTER, 1.0);
    AggregateRepeat(250, "b", LOWER_IS_BETTER, 2.0);
    var improvements := Improvements(Level(LOWER_IS_BETTER, 1.0), Level(LOWER_IS_BETTER, 2.0), LOWER_IS_BETTER);
    ImprovesIff(1.0, 2.0);
    assert Positives(improvements) == improvements.Keys;
    assert |improvements| == |improvements.Keys|;
  }

  lemma ArmsOfTwo(control: real, treatment: real)
    ensures |TwoArms(control, treatment)| == 500
    ensures |OfModel(TwoArms(control, treatment), "a")| == 250 == |OfModel(TwoArms(control, treatment), "b")|
    ensures OfModel(TwoArms(control, treatment), "a") == Repeat(250, Sample("a", Level(LOWER_IS_BETTER, control)))
    ensures OfModel(TwoArms(control, treatment), "b") == Repeat(250, Sample("b", Level(LOWER_IS_BETTER, treatment)))
  {
    hide OfModel, Level;
    var a, b := Sample("a", Level(LOWER_IS_BETTER, control)), Sample("b", Level(LOWER_IS_BETTER, treatment));
    assert "a"[0] != "b"[0];
    OfModelConcat(Repeat(250, a), Repeat(250, b), "a");
    OfModelConcat(Repeat(250, a), Repeat(250, b), "b");
    OfModelRepeat(250, a, "a");
    OfModelRepeat(250, a, "b");
    OfModelRepeat(250, b, "a");
    OfModelRepeat(250, b, "b");
  }

  // ----- the orchestrator

  function Recorded(results: map<string, seq<Sample>>, name: string): seq<Sample> {
    if name in results then results[name] else []
  }

  class ABTestingOrchestrator {
    var experiments: map<string, Config>
    var results: map<string, seq<Sample>>

    constructor ()
      ensures experiments == map[] && results == map[]
    {
      experiments, results := map[], map[];
    }

    method StartExperiment(config: Config) returns (name: string)
      modifies this
      ensures name == config.experimentName
      ensures experiments == old(experiments)[name := config] && results == old(results)[name := []]
    {
      name := config.experimentName;
      experiments := experiments[name := config];
      results := results[name := []];
    }

    method RecordResult(name: string, modelId: string, metrics: map<string, real>)
      modifies this`results
      ensures results == old(results)[name := Recorded(old(results), name) + [Sample(modelId, metrics)]]
    {
      if name !in results {
        results := results[name := []];
      }
      results := results[name := results[name] + [Sample(modelId, metrics)]];
    }

    method StopExperiment(name: string)
      modifies this
      ensures experiments == old(experiments) - {name} && results == old(results) - {name}
    {
      experiments := experiments - {name};
      results := results - {name};
    }

    method Evaluate(name: string) returns (r: Option<TestResult>)
      ensures r == if name in experiments then Evaluation(experiments[name], Recorded(results, name)) else None
    {
      if name !in experiments {
        return None;
      }
      var config := experiments[name];
      var samples := Recorded(results, name);
      if |samples| < config.minSampleSize {
        return None;
      }
      var control := SelectModel(samples, config.controlModelId);
      var treatment := SelectModel(samples, config.treatmentModelId);
      if control == [] || treatment == [] {
        return None;
      }
      var c := AggregateMetrics(control, config.metrics);
      var t := AggregateMetrics(treatment, config.metrics);
      var improvements := CompareMetrics(c, t, config.metrics);
      var significant := Significant(control, treatment);
      r := Some(TestResult(c, t, improvements, significant, |samples|, config.durationHours,
                           Recommend(improvements, significant)));
    }
  }

  method CompareMetrics(control: map<string, real>, treatment: map<string, real>, metrics: seq<string>)
    returns (improvements: map<string, real>)
    ensures improvements == Improvements(control, treatment, metrics)
  {
    improvements := map[];
    for i := 0 to |metrics|
      invariant improvements == Improvements(control, treatment, metrics[..i])
    {
      var m := metrics[i];
      assert metrics[..i + 1] == metrics[..i] + [m];
      if m in control && m in treatment {
        improvements := improvements[m := Improvement(control[m], treatment[m])];
      }
    }
    assert metrics[..|metrics|] == metrics;
  }

  method SelectModel(samples: seq<Sample>, modelId: string) returns (found: seq<Sample>)
    ensures found == OfModel(samples, modelId)
  {
    found := [];
    for i := 0 to |samples|
      invariant found == OfModel(samples[..i], modelId)
    {
      assert samples[..i + 1][..i] == samples[..i];
      if samples[i].modelId == modelId {
        found := found + [samples[i]];
      }
    }
    assert samples[..|samples|] == samples;
  }

  method AggregateMetrics(samples: seq<Sample>, metrics: seq<string>) returns (aggregated: map<string, real>)
    ensures aggregated == Aggregate(samples, metrics)
  {
    aggregated := map[];
    for i := 0 to |metrics|
      invariant aggregated == Aggregate(samples, metrics[..i])
    {
      assert metrics[..i + 1] == metrics[..i] + [metrics[i]];
      var values := CollectValues(samples, metrics[i]);
      aggregated := aggregated[metrics[i] := if values == [] then 0.0 else Sum(values) / |values| as real];
    }
    assert metrics[..|metrics|] == metrics;
  }

  method CollectValues(samples: seq<Sample>, metric: string) returns (values: seq<real>)
    ensures values == Values(samples, metric)
  {
    values := [];
    for i := 0 to |samples|
      invariant values == Values(samples[..i], metric)
    {
      assert samples[..i + 1][..i] == samples[..i];
      if metric in samples[i].metrics {
        values := values + [samples[i].metrics[metric]];
      }
    }
    assert samples[..|samples|] == samples;
  }
}
