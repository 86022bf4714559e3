/**
  The statistics of `analyzeSplits` in script.js: mean, population variance,
  coefficient of variation, best and worst split, drop-off, the regression trend
  and the consistency score, gathered into one report.

  `Math.sqrt` has no counterpart over the reals: the standard deviation is
  handed in as `sd`, constrained to be the non-negative square root of the
  variance.
 */
module Pacing {
  import opened Outcomes
  import opened Regression

  predicate AllPositive(splits: seq<real>) {
    forall i :: 0 <= i < |splits| ==> splits[i] > 0.0
  }

  /** The sum of (splits[i] - m)^2 over i < k. */
  function SquaredDeviationTo(splits: seq<real>, m: real, k: nat): real
    requires k <= |splits|
  {
    if k == 0 then 0.0 else SquaredDeviationTo(splits, m, k - 1) + (splits[k - 1] - m) * (splits[k - 1] - m)
  }

  /** The population variance: the mean squared deviation from the mean. */
  function Variance(splits: seq<real>): real
    requires |splits| > 0
  {
    SquaredDeviationTo(splits, Mean(splits), |splits|) / |splits| as real
  }

  /** The best (smallest) split. */
  function Min(s: seq<real>): (m: real)
    requires |s| > 0
    ensures m in s
    ensures forall i :: 0 <= i < |s| ==> m <= s[i]
  {
    if |s| == 1 then s[0]
    else
      var rest := Min(s[1..]);
      if s[0] <= rest then s[0] else rest
  }

  /** The worst (largest) split. */
  function Max(s: seq<real>): (m: real)
    requires |s| > 0
    ensures m in s
    ensures forall i :: 0 <= i < |s| ==> s[i] <= m
  {
    if |s| == 1 then s[0]
    else
      var rest := Max(s[1..]);
      if s[0] >= rest then s[0] else rest
  }

  /** The drop-off: how much slower the worst split is than the best, in percent of the best. */
  function DropOff(best: real, worst: real): (d: real)
    requires best != 0.0
    ensures 0.0 < best <= worst ==> d >= 0.0
    ensures 0.0 < best ==> (d == 0.0 <==> worst == best)
  {
    ((worst - best) / best) * 100.0
  }

  /** The coefficient of variation: the standard deviation in percent of the mean. */
  function CoefficientOfVariation(sd: real, mean: real): (cv: real)
    requires mean != 0.0
    ensures sd >= 0.0 && mean > 0.0 ==> cv >= 0.0
  {
    (sd / mean) * 100.0
  }

  function Abs(x: real): real {
    if x < 0.0 then -x else x
  }

  /**
    The consistency score: 100 less six points per percent of variation and 30 per
    second of trend per split, floored at 0. It is never negative, and
    at most 100 as long as the coefficient of variation is not negative.
   */
  function ConsistencyScore(cv: real, trend: real): (score: real)
    ensures score >= 0.0
    ensures cv >= 0.0 ==> score <= 100.0
    ensures cv >= 0.0 ==> (score == 100.0 <==> cv == 0.0 && trend == 0.0)
  {
    var raw := 100.0 - cv * 6.0 - Abs(trend) * 30.0;
    if raw > 0.0 then raw else 0.0
  }

  /** What `analyzeSplits` computes and passes on to the chart and the insight cards. */
  datatype PacingReport = PacingReport(
    splitCount: nat,
    best: real,
    worst: real,
    mean: real,
    variance: real,
    stdDev: real,
    cv: real,
    dropOff: real,
    regression: Line,
    consistencyScore: real,
    sourceLabel: string)

  lemma {:induction false} SquaredDeviationNonNegative(splits: seq<real>, m: real, k: nat)
    requires k <= |splits|
    ensures SquaredDeviationTo(splits, m, k) >= 0.0
  {
    if k > 0 {
      SquaredDeviationNonNegative(splits, m, k - 1);
      SquareNonNegative(splits[k - 1] - m);
    }
  }

  /** The population variance is never negative. */
  lemma VarianceNonNegative(splits: seq<real>)
    requires |splits| > 0
    ensures Variance(splits) >= 0.0
  {
    SquaredDeviationNonNegative(splits, Mean(splits), |splits|);
  }

  lemma {:induction false} SumOfPositives(splits: seq<real>, k: nat)
    requires k <= |splits|
    requires AllPositive(splits)
    ensures k > 0 ==> SumTo(splits, k) > 0.0
    ensures k == 0 ==> SumTo(splits, k) == 0.0
  {
    if k > 0 {
      SumOfPositives(splits, k - 1);
    }
  }

  /** The mean of positive splits is positive, so the coefficient of variation is defined. */
  lemma MeanPositive(splits: seq<real>)
    requires |splits| > 0 && AllPositive(splits)
    ensures Mean(splits) > 0.0
  {
    SumOfPositives(splits, |splits|);
  }

  /**
    `analyzeSplits(splits, sourceLabel)` without its side effects: fewer than two
    splits is a failure; otherwise the report. All three callers pass positive
    splits (the text parser keeps only positive values and detected splits exceed
    3.5 s), so the mean is never zero.
   */
  function Analyze(splits: seq<real>, sourceLabel: string, sd: real): (r: Result<PacingReport>)
    requires AllPositive(splits)
    requires |splits| >= 2 ==> sd >= 0.0 && sd * sd == Variance(splits)
    ensures r.Err? <==> |splits| < 2
    ensures r.Err? ==> r.error == InsufficientData
    ensures r.Ok? ==>
      && r.value.splitCount == |splits|
      && r.value.sourceLabel == sourceLabel
      && r.value.best in splits && r.value.worst in splits
      && (forall i :: 0 <= i < |splits| ==> r.value.best <= splits[i] <= r.value.worst)
      && r.value.mean > 0.0
      && r.value.variance >= 0.0
      && r.value.stdDev * r.value.stdDev == r.value.variance
      && r.value.cv >= 0.0
      && r.value.dropOff >= 0.0
      && r.value.regression == Fit(splits)
      && 0.0 <= r.value.consistencyScore <= 100.0
  {
    if |splits| < 2 then Err(InsufficientData)
    else
      var mean := Mean(splits);
      MeanPositive(splits);
      var variance := Variance(splits);
      VarianceNonNegative(splits);
      var cv := CoefficientOfVariation(sd, mean);
      var best, worst := Min(splits), Max(splits);
      var dropOff := DropOff(best, worst);
      var regression := Fit(splits);
      var score := ConsistencyScore(cv, regression.slope);
      Ok(PacingReport(|splits|, best, worst, mean, variance, sd, cv, dropOff, regression, score, sourceLabel))
  }

  /** Perfectly even pacing: no spread, no drop-off, a flat trend and the full score of 100. */
  lemma EvenPacingScoresFull(splits: seq<real>, c: real, sourceLabel: string)
    requires |splits| >= 2 && c > 0.0
    requires forall i :: 0 <= i < |splits| ==> splits[i] == c
    ensures Variance(splits) == 0.0
    ensures var r := Analyze(splits, sourceLabel, 0.0);
      r.Ok? && r.value.dropOff == 0.0 && r.value.regression.slope == 0.0 && r.value.consistencyScore == 100.0
  {
    ConstantSeriesFlat(splits, c);
    assert Mean(splits) == c;
    ConstantDeviation(splits, c, |splits|);
  }

  lemma {:induction false} ConstantDeviation(splits: seq<real>, c: real, k: nat)
    requires k <= |splits|
    requires forall i :: 0 <= i < |splits| ==> splits[i] == c
    ensures SquaredDeviationTo(splits, c, k) == 0.0
  {
    if k > 0 {
      ConstantDeviation(splits, c, k - 1);
    }
  }

  /** The manual-entry example: the splits 60.2, 58.9, 59.5, 61.0. */
  function ExampleSplits(): seq<real> {
    [60.2, 58.9, 59.5, 61.0]
  }

  lemma ExampleMean()
    ensures Mean(ExampleSplits()) == 59.9
  {
    var s := ExampleSplits();
    assert SumTo(s, 2) == 119.1;
    assert SumTo(s, 4) == 239.6;
  }

  lemma ExampleVariance()
    ensures Variance(ExampleSplits()) == 0.615
  {
    var s := ExampleSplits();
    ExampleMean();
    assert SquaredDeviationTo(s, 59.9, 2) == 1.09;
    assert SquaredDeviationTo(s, 59.9, 4) == 2.46;
  }

  lemma ExampleFit()
    ensures Fit(ExampleSplits()) == Line(0.3, 59.45)
  {
    var s := ExampleSplits();
    ExampleMean();
    assert XMean(4) == 1.5;
    assert SquaresTo(1.5, 2) == 2.5;
    assert SquaresTo(1.5, 4) == 5.0;
    assert CrossTo(s, 1.5, 59.9, 2) == 0.05;
    assert CrossTo(s, 1.5, 59.9, 4) == 1.5;
  }

  /**
    The example's report: best 58.9, worst 61.0, mean 59.9, variance 0.615, a
    drop-off of about 3.57 % and a trend of +0.3 s per split.
   */
  lemma ManualEntryExample()
    ensures var s := ExampleSplits();
      && Min(s) == 58.9 && Max(s) == 61.0 && Mean(s) == 59.9
      && Variance(s) == 0.615
      && 3.56 < DropOff(58.9, 61.0) < 3.57
      && Fit(s) == Line(0.3, 59.45)
  {
    var s := ExampleSplits();
    assert s[1..] == [58.9, 59.5, 61.0];
    assert s[1..][1..] == [59.5, 61.0];
    assert s[1..][1..][1..] == [61.0];
    ExampleMean();
    ExampleVariance();
    ExampleFit();
  }

  /** Of two non-negative numbers, the one with the smaller square is the smaller. */
  lemma SquareOrder(a: real, b: real)
    requires a >= 0.0 && b >= 0.0 && a * a < b * b
    ensures a < b
  {
  }

  /**
    The report `analyzeSplits` gives for the manual-entry example under the label
    "Manual splits": four splits, best 58.9, worst 61.0, mean 59.9, variance 0.615,
    a drop-off just under 3.57 %, a trend of +0.3 s per split and a consistency
    score between 83 and 84.
   */
  lemma ManualEntryReport(sd: real)
    requires sd >= 0.0 && sd * sd == Variance(ExampleSplits())
    ensures var r := Analyze(ExampleSplits(), "Manual splits", sd);
      && r.Ok?
      && r.value.splitCount == 4 && r.value.sourceLabel == "Manual splits"
      && r.value.best == 58.9 && r.value.worst == 61.0 && r.value.mean == 59.9
      && r.value.variance == 0.615 && r.value.stdDev == sd
      && 3.56 < r.value.dropOff < 3.57
      && r.value.regression == Line(0.3, 59.45)
      && 83.0 < r.value.consistencyScore < 84.0
  {
    var s := ExampleSplits();
    ManualEntryExample();
    SquareOrder(0.78, sd);
    SquareOrder(sd, 0.79);
    var cv := CoefficientOfVariation(sd, 59.9);
    assert 1.3 < cv < 1.32;
    assert ConsistencyScore(cv, 0.3) == 100.0 - cv * 6.0 - 9.0;
  }
}
