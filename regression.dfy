/**
  `linearRegression` from script.js: the ordinary least-squares line through the
  points (i, ys[i]) for i = 0 .. n-1, with the guard that a zero denominator
  gives slope 0.

  The sums the source accumulates are given as recursive functions over a prefix
  length `k`, in the same left-to-right order as its loop and its `reduce`.
 */
module Regression {

  /** ys[0] + ... + ys[k-1]. */
  function SumTo(ys: seq<real>, k: nat): real
    requires k <= |ys|
  {
    if k == 0 then 0.0 else SumTo(ys, k - 1) + ys[k - 1]
  }

  /** The sum of all values, added left to right. */
  function Sum(ys: seq<real>): real {
    SumTo(ys, |ys|)
  }

  function Mean(ys: seq<real>): real
    requires |ys| > 0
  {
    Sum(ys) / |ys| as real
  }

  /** 0 + 1 + ... + (k-1). */
  function IndexSum(k: nat): real {
    if k == 0 then 0.0 else IndexSum(k - 1) + (k - 1) as real
  }

  /** The mean index `(n - 1) / 2`. */
  function XMean(n: nat): real {
    (n as real - 1.0) / 2.0
  }

  /** The numerator the loop accumulates: the sum of (i - xm) * (ys[i] - ym) over i < k. */
  function CrossTo(ys: seq<real>, xm: real, ym: real, k: nat): real
    requires k <= |ys|
  {
    if k == 0 then 0.0 else CrossTo(ys, xm, ym, k - 1) + ((k - 1) as real - xm) * (ys[k - 1] - ym)
  }

  /** The denominator the loop accumulates: the sum of (i - xm)^2 over i < k. */
  function SquaresTo(xm: real, k: nat): real {
    if k == 0 then 0.0 else SquaresTo(xm, k - 1) + ((k - 1) as real - xm) * ((k - 1) as real - xm)
  }

  /** The `{ slope, intercept }` record. */
  datatype Line = Line(slope: real, intercept: real)

  function Predict(line: Line, x: real): real {
    line.intercept + line.slope * x
  }

  /** The line `linearRegression` returns, written with the closed sums. */
  function Fit(ys: seq<real>): Line
    requires |ys| > 0
  {
    var n := |ys|;
    var xm := XMean(n);
    var ym := Mean(ys);
    var den := SquaresTo(xm, n);
    var slope := if den == 0.0 then 0.0 else CrossTo(ys, xm, ym, n) / den;
    Line(slope, ym - slope * xm)
  }

  /**
    `linearRegression(yValues)`. The source's only caller passes at least two
    values; with none the JavaScript mean is NaN, which has no counterpart here.
   */
  method LinearRegression(ys: seq<real>) returns (line: Line)
    requires |ys| > 0
    ensures line == Fit(ys)
  {
    var n := |ys|;
    var xMean := (n as real - 1.0) / 2.0;
    var yMean := Sum(ys) / n as real;
    var numerator, denominator := 0.0, 0.0;
    for i := 0 to n
      invariant numerator == CrossTo(ys, xMean, yMean, i)
      invariant denominator == SquaresTo(xMean, i)
    {
      numerator := numerator + (i as real - xMean) * (ys[i] - yMean);
      denominator := denominator + (i as real - xMean) * (i as real - xMean);
      SumsStep(ys, xMean, yMean, i);
    }
    assert xMean == XMean(n) && yMean == Mean(ys);
    var slope := if denominator == 0.0 then 0.0 else numerator / denominator;
    line := Line(slope, yMean - slope * xMean);
  }

  // ---------------------------------------------------------------------------
  // Facts about the sums

  /** One more term of the numerator and of the denominator. */
  lemma SumsStep(ys: seq<real>, xm: real, ym: real, i: nat)
    requires i < |ys|
    ensures CrossTo(ys, xm, ym, i + 1) == CrossTo(ys, xm, ym, i) + (i as real - xm) * (ys[i] - ym)
    ensures SquaresTo(xm, i + 1) == SquaresTo(xm, i) + (i as real - xm) * (i as real - xm)
  {
  }

  lemma {:induction false} IndexSumClosed(k: nat)
    ensures IndexSum(k) == (k as real) * (k as real - 1.0) / 2.0
  {
    if k > 0 {
      IndexSumClosed(k - 1);
      var m := (k - 1) as real;
      assert IndexSum(k) == m * (m - 1.0) / 2.0 + m;
      assert m * (m - 1.0) / 2.0 + m == (m + 1.0) * m / 2.0;
    }
  }

  lemma SquareNonNegative(d: real)
    ensures d * d >= 0.0
  {
    if d < 0.0 {
      assert d * d == (-d) * (-d);
    }
  }

  lemma {:induction false} SquaresNonNegative(xm: real, k: nat)
    ensures SquaresTo(xm, k) >= 0.0
    ensures k >= 1 ==> SquaresTo(xm, k) >= xm * xm
  {
    if k > 0 {
      SquaresNonNegative(xm, k - 1);
      var d := (k - 1) as real - xm;
      SquareNonNegative(d);
      if k == 1 {
        assert d * d == xm * xm;
      }
    }
  }

  /** With two or more points the denominator is strictly positive, so the zero guard never fires. */
  lemma DenominatorPositive(n: nat)
    requires n >= 2
    ensures SquaresTo(XMean(n), n) > 0.0
  {
    var xm := XMean(n);
    SquaresNonNegative(xm, n);
    assert xm >= 0.5;
    assert xm * xm >= 0.25;
  }

  /** For a non-empty input the denominator is zero exactly when there is a single point. */
  lemma DenominatorZeroIff(n: nat)
    requires n >= 1
    ensures SquaresTo(XMean(n), n) == 0.0 <==> n == 1
  {
    if n >= 2 {
      DenominatorPositive(n);
    } else {
      assert SquaresTo(XMean(1), 1) == SquaresTo(0.0, 0) + (0.0 - 0.0) * (0.0 - 0.0);
    }
  }

  /** With two or more points the slope is zero exactly when the numerator is. */
  lemma SlopeZeroIff(ys: seq<real>)
    requires |ys| >= 2
    ensures Fit(ys).slope == 0.0 <==> CrossTo(ys, XMean(|ys|), Mean(ys), |ys|) == 0.0
  {
    DenominatorPositive(|ys|);
  }

  lemma {:induction false} LinearSum(ys: seq<real>, a: real, b: real, k: nat)
    requires k <= |ys|
    requires forall i :: 0 <= i < |ys| ==> ys[i] == a + b * i as real
    ensures SumTo(ys, k) == (k as real) * a + b * IndexSum(k)
  {
    if k > 0 {
      LinearSum(ys, a, b, k - 1);
      assert ys[k - 1] == a + b * (k - 1) as real;
    }
  }

  lemma ProportionalStep(c1: real, q1: real, b: real, d: real, e: real, c: real, q: real)
    requires c1 == b * q1 && e == b * d
    requires c == c1 + d * e && q == q1 + d * d
    ensures c == b * q
  {
    assert d * (b * d) == b * (d * d);
    assert b * (q1 + d * d) == b * q1 + b * (d * d);
  }

  lemma {:induction false} CrossProportional(ys: seq<real>, xm: real, ym: real, b: real, k: nat)
    requires k <= |ys|
    requires forall i :: 0 <= i < |ys| ==> ys[i] - ym == b * (i as real - xm)
    ensures CrossTo(ys, xm, ym, k) == b * SquaresTo(xm, k)
  {
    if k > 0 {
      var d := (k - 1) as real - xm;
      var c1, q1 := CrossTo(ys, xm, ym, k - 1), SquaresTo(xm, k - 1);
      assert c1 == b * q1 by {
        CrossProportional(ys, xm, ym, b, k - 1);
      }
      ProportionalStep(c1, q1, b, d, ys[k - 1] - ym, CrossTo(ys, xm, ym, k), SquaresTo(xm, k));
    }
  }

  lemma MeanOfLinear(ys: seq<real>, a: real, b: real)
    requires |ys| >= 1
    requires forall i :: 0 <= i < |ys| ==> ys[i] == a + b * i as real
    ensures Mean(ys) == a + b * XMean(|ys|)
  {
    var n := |ys| as real;
    LinearSum(ys, a, b, |ys|);
    IndexSumClosed(|ys|);
    assert IndexSum(|ys|) == n * XMean(|ys|);
    assert Sum(ys) == n * (a + b * XMean(|ys|));
  }

  /**
    An exactly linear series y_i = a + b*i with at least two points is recovered
    exactly: the fitted slope is b and the intercept is a.
   */
  lemma ExactLinearRecovered(ys: seq<real>, a: real, b: real)
    requires |ys| >= 2
    requires forall i :: 0 <= i < |ys| ==> ys[i] == a + b * i as real
    ensures Fit(ys) == Line(b, a)
  {
    var n := |ys|;
    var xm, ym := XMean(n), Mean(ys);
    MeanOfLinear(ys, a, b);
    CrossProportional(ys, xm, ym, b, n);
    DenominatorPositive(n);
    var den := SquaresTo(xm, n);
    assert (b * den) / den == b;
  }

  /** A constant series, of any non-empty length, has a flat fit at that constant. */
  lemma ConstantSeriesFlat(ys: seq<real>, c: real)
    requires |ys| >= 1
    requires forall i :: 0 <= i < |ys| ==> ys[i] == c
    ensures Fit(ys) == Line(0.0, c)
  {
    if |ys| >= 2 {
      ExactLinearRecovered(ys, c, 0.0);
    } else {
      assert Sum(ys) == SumTo(ys, 0) + ys[0];
      DenominatorZeroIff(1);
    }
  }

  // ---------------------------------------------------------------------------
  // The fitted line is the least-squares line

  function Residual(ys: seq<real>, line: Line, i: nat): real
    requires i < |ys|
  {
    ys[i] - Predict(line, i as real)
  }

  /** The sum of the residuals over i < k. */
  function ResidualSumTo(ys: seq<real>, line: Line, k: nat): real
    requires k <= |ys|
  {
    if k == 0 then 0.0 else ResidualSumTo(ys, line, k - 1) + Residual(ys, line, k - 1)
  }

  /** The sum of (i - xm) * residual over i < k. */
  function CenteredResidualTo(ys: seq<real>, line: Line, xm: real, k: nat): real
    requires k <= |ys|
  {
    if k == 0 then 0.0 else CenteredResidualTo(ys, line, xm, k - 1) + ((k - 1) as real - xm) * Residual(ys, line, k - 1)
  }

  /** The sum of i * residual over i < k. */
  function IndexResidualTo(ys: seq<real>, line: Line, k: nat): real
    requires k <= |ys|
  {
    if k == 0 then 0.0 else IndexResidualTo(ys, line, k - 1) + (k - 1) as real * Residual(ys, line, k - 1)
  }

  /** The sum of squared residuals over i < k. */
  function SquaredErrorTo(ys: seq<real>, line: Line, k: nat): real
    requires k <= |ys|
  {
    if k == 0 then 0.0 else SquaredErrorTo(ys, line, k - 1) + Residual(ys, line, k - 1) * Residual(ys, line, k - 1)
  }

  function SquaredError(ys: seq<real>, line: Line): real {
    SquaredErrorTo(ys, line, |ys|)
  }

  lemma {:induction false} ResidualSumClosed(ys: seq<real>, line: Line, k: nat)
    requires k <= |ys|
    ensures ResidualSumTo(ys, line, k) == SumTo(ys, k) - (k as real) * line.intercept - line.slope * IndexSum(k)
  {
    if k > 0 {
      var m := (k - 1) as real;
      var r1, s1, i1 := ResidualSumTo(ys, line, k - 1), SumTo(ys, k - 1), IndexSum(k - 1);
      assert r1 == s1 - m * line.intercept - line.slope * i1 by {
        ResidualSumClosed(ys, line, k - 1);
      }
      ResidualSumStep(r1, s1, i1, ys[k - 1], line.intercept, line.slope, m, k as real);
    }
  }

  lemma ResidualSumStep(r1: real, s1: real, i1: real, y: real, a: real, b: real, m: real, n: real)
    requires r1 == s1 - m * a - b * i1 && n == m + 1.0
    ensures r1 + (y - (a + b * m)) == (s1 + y) - n * a - b * (i1 + m)
  {
    assert n * a == m * a + a;
    assert b * (i1 + m) == b * i1 + b * m;
  }

  lemma ResidualAroundCentroid(y: real, ym: real, slope: real, xm: real, i: real)
    ensures y - ((ym - slope * xm) + slope * i) == (y - ym) - slope * (i - xm)
  {
    assert slope * (i - xm) == slope * i - slope * xm;
  }

  lemma ResidualCentered(ys: seq<real>, line: Line, xm: real, ym: real, i: nat)
    requires i < |ys|
    requires line.intercept == ym - line.slope * xm
    ensures Residual(ys, line, i) == (ys[i] - ym) - line.slope * (i as real - xm)
  {
    ResidualAroundCentroid(ys[i], ym, line.slope, xm, i as real);
  }

  /** f(0) + ... + f(k-1). */
  function SumOf(f: nat -> real, k: nat): real {
    if k == 0 then 0.0 else SumOf(f, k - 1) + f(k - 1)
  }

  lemma CombineStep(a: real, b: real, c: real, fa: real, gb: real, hc: real, s: real)
    requires a == b - s * c && fa == gb - s * hc
    ensures a + fa == (b + gb) - s * (c + hc)
  {
    assert s * (c + hc) == s * c + s * hc;
  }

  /** Each of the first k terms of f is the term of g less s times the term of h. */
  predicate Combines(f: nat -> real, g: nat -> real, h: nat -> real, s: real, k: nat) {
    forall i: nat :: i < k ==> f(i) == g(i) - s * h(i)
  }

  /** A sum of terms g - s*h is the sum of the g's less s times the sum of the h's. */
  lemma {:induction false} SumOfCombination(f: nat -> real, g: nat -> real, h: nat -> real, s: real, k: nat)
    requires Combines(f, g, h, s, k)
    ensures SumOf(f, k) == SumOf(g, k) - s * SumOf(h, k)
  {
    if k > 0 {
      SumOfCombination(f, g, h, s, k - 1);
      CombineStep(SumOf(f, k - 1), SumOf(g, k - 1), SumOf(h, k - 1), f(k - 1), g(k - 1), h(k - 1), s);
    }
  }

  function CenteredTerm(ys: seq<real>, line: Line, xm: real): nat -> real {
    (i: nat) => if i < |ys| then (i as real - xm) * Residual(ys, line, i) else 0.0
  }

  function CrossTerm(ys: seq<real>, xm: real, ym: real): nat -> real {
    (i: nat) => if i < |ys| then (i as real - xm) * (ys[i] - ym) else 0.0
  }

  function SquareTerm(xm: real): nat -> real {
    (i: nat) => (i as real - xm) * (i as real - xm)
  }

  lemma {:induction false} CenteredAsSum(ys: seq<real>, line: Line, xm: real, k: nat)
    requires k <= |ys|
    ensures CenteredResidualTo(ys, line, xm, k) == SumOf(CenteredTerm(ys, line, xm), k)
  {
    if k > 0 {
      CenteredAsSum(ys, line, xm, k - 1);
      assert CenteredTerm(ys, line, xm)(k - 1) == ((k - 1) as real - xm) * Residual(ys, line, k - 1);
    }
  }

  lemma {:induction false} CrossAsSum(ys: seq<real>, xm: real, ym: real, k: nat)
    requires k <= |ys|
    ensures CrossTo(ys, xm, ym, k) == SumOf(CrossTerm(ys, xm, ym), k)
  {
    if k > 0 {
      CrossAsSum(ys, xm, ym, k - 1);
      assert CrossTerm(ys, xm, ym)(k - 1) == ((k - 1) as real - xm) * (ys[k - 1] - ym);
    }
  }

  lemma {:induction false} SquaresAsSum(xm: real, k: nat)
    ensures SquaresTo(xm, k) == SumOf(SquareTerm(xm), k)
  {
    if k > 0 {
      SquaresAsSum(xm, k - 1);
      assert SquareTerm(xm)(k - 1) == ((k - 1) as real - xm) * ((k - 1) as real - xm);
    }
  }

  lemma CenteredTermSplit(d: real, res: real, y: real, ym: real, slope: real)
    requires res == (y - ym) - slope * d
    ensures d * res == d * (y - ym) - slope * (d * d)
  {
  }

  lemma CenteredTermsSplit(ys: seq<real>, line: Line, xm: real, ym: real, k: nat)
    requires k <= |ys|
    requires line.intercept == ym - line.slope * xm
    ensures Combines(CenteredTerm(ys, line, xm), CrossTerm(ys, xm, ym), SquareTerm(xm), line.slope, k)
  {
    forall i: nat | i < k
      ensures CenteredTerm(ys, line, xm)(i) == CrossTerm(ys, xm, ym)(i) - line.slope * SquareTerm(xm)(i)
    {
      ResidualCentered(ys, line, xm, ym, i);
      CenteredTermSplit(i as real - xm, Residual(ys, line, i), ys[i], ym, line.slope);
    }
  }

  lemma CenteredFromSums(ys: seq<real>, line: Line, xm: real, ym: real, k: nat)
    requires k <= |ys|
    requires CenteredResidualTo(ys, line, xm, k) == SumOf(CenteredTerm(ys, line, xm), k)
    requires CrossTo(ys, xm, ym, k) == SumOf(CrossTerm(ys, xm, ym), k)
    requires SquaresTo(xm, k) == SumOf(SquareTerm(xm), k)
    requires Combines(CenteredTerm(ys, line, xm), CrossTerm(ys, xm, ym), SquareTerm(xm), line.slope, k)
    ensures CenteredResidualTo(ys, line, xm, k) == CrossTo(ys, xm, ym, k) - line.slope * SquaresTo(xm, k)
  {
    SumOfCombination(CenteredTerm(ys, line, xm), CrossTerm(ys, xm, ym), SquareTerm(xm), line.slope, k);
  }

  lemma CenteredResidualClosed(ys: seq<real>, line: Line, xm: real, ym: real, k: nat)
    requires k <= |ys|
    requires line.intercept == ym - line.slope * xm
    ensures CenteredResidualTo(ys, line, xm, k) == CrossTo(ys, xm, ym, k) - line.slope * SquaresTo(xm, k)
  {
    CenteredTermsSplit(ys, line, xm, ym, k);
    CenteredAsSum(ys, line, xm, k);
    CrossAsSum(ys, xm, ym, k);
    SquaresAsSum(xm, k);
    CenteredFromSums(ys, line, xm, ym, k);
  }

  lemma {:induction false} IndexResidualSplit(ys: seq<real>, line: Line, xm: real, k: nat)
    requires k <= |ys|
    ensures IndexResidualTo(ys, line, k) == CenteredResidualTo(ys, line, xm, k) + xm * ResidualSumTo(ys, line, k)
  {
    if k > 0 {
      IndexResidualSplit(ys, line, xm, k - 1);
      var r := Residual(ys, line, k - 1);
      assert (k - 1) as real * r == ((k - 1) as real - xm) * r + xm * r;
    }
  }

  /** First normal equation: the residuals of the fitted line sum to zero. */
  lemma ResidualsSumToZero(ys: seq<real>)
    requires |ys| >= 1
    ensures ResidualSumTo(ys, Fit(ys), |ys|) == 0.0
  {
    var n := |ys|;
    var line := Fit(ys);
    ResidualSumClosed(ys, line, n);
    IndexSumClosed(n);
    assert IndexSum(n) == (n as real) * XMean(n);
    assert Sum(ys) == (n as real) * Mean(ys);
  }

  /** The fitted line passes through the centroid (xm, ym). */
  lemma FitThroughCentroid(ys: seq<real>)
    requires |ys| >= 1
    ensures Fit(ys).intercept == Mean(ys) - Fit(ys).slope * XMean(|ys|)
    ensures Predict(Fit(ys), XMean(|ys|)) == Mean(ys)
  {
  }

  /** With two or more points the slope times the denominator is the numerator. */
  lemma FitSlopeEquation(ys: seq<real>)
    requires |ys| >= 2
    ensures Fit(ys).slope * SquaresTo(XMean(|ys|), |ys|) == CrossTo(ys, XMean(|ys|), Mean(ys), |ys|)
  {
    var den := SquaresTo(XMean(|ys|), |ys|);
    DenominatorPositive(|ys|);
    assert Fit(ys).slope == CrossTo(ys, XMean(|ys|), Mean(ys), |ys|) / den;
  }

  lemma Cancel(slope: real, den: real, num: real, centered: real)
    requires slope * den == num && centered == num - slope * den
    ensures centered == 0.0
  {
  }

  /** A line through the centroid whose slope solves the normal equation has uncorrelated residuals. */
  lemma CenteredZero(ys: seq<real>, line: Line, xm: real, ym: real)
    requires line.intercept == ym - line.slope * xm
    requires line.slope * SquaresTo(xm, |ys|) == CrossTo(ys, xm, ym, |ys|)
    ensures CenteredResidualTo(ys, line, xm, |ys|) == 0.0
  {
    var n := |ys|;
    CenteredResidualClosed(ys, line, xm, ym, n);
    Cancel(line.slope, SquaresTo(xm, n), CrossTo(ys, xm, ym, n), CenteredResidualTo(ys, line, xm, n));
  }

  lemma CenteredUncorrelated(ys: seq<real>)
    requires |ys| >= 2
    ensures CenteredResidualTo(ys, Fit(ys), XMean(|ys|), |ys|) == 0.0
  {
    FitThroughCentroid(ys);
    FitSlopeEquation(ys);
    CenteredZero(ys, Fit(ys), XMean(|ys|), Mean(ys));
  }

  /** Second normal equation: with two or more points the residuals are uncorrelated with the index. */
  lemma ResidualsUncorrelated(ys: seq<real>)
    requires |ys| >= 2
    ensures CenteredResidualTo(ys, Fit(ys), XMean(|ys|), |ys|) == 0.0
    ensures IndexResidualTo(ys, Fit(ys), |ys|) == 0.0
  {
    var n, xm, line := |ys|, XMean(|ys|), Fit(ys);
    CenteredUncorrelated(ys);
    ResidualsSumToZero(ys);
    IndexResidualSplit(ys, line, xm, n);
    ZeroCombination(1.0, CenteredResidualTo(ys, line, xm, n), xm, ResidualSumTo(ys, line, n));
  }

  /** The sum of (alpha + beta * i)^2 over i < k. */
  function ShiftSquaresTo(alpha: real, beta: real, k: nat): (r: real)
    ensures r >= 0.0
  {
    if k == 0 then 0.0
    else
      var s := alpha + beta * (k - 1) as real;
      assert s * s >= 0.0 by {
        if s < 0.0 {
          assert s * s == (-s) * (-s);
        }
      }
      ShiftSquaresTo(alpha, beta, k - 1) + s * s
  }

  /** The sum of residual * (alpha + beta * i) over i < k. */
  function CrossShiftTo(ys: seq<real>, fit: Line, alpha: real, beta: real, k: nat): real
    requires k <= |ys|
  {
    if k == 0 then 0.0
    else CrossShiftTo(ys, fit, alpha, beta, k - 1) + Residual(ys, fit, k - 1) * (alpha + beta * (k - 1) as real)
  }

  lemma SquareStep(e1: real, f1: real, c1: real, z1: real, r: real, s: real)
    requires e1 == f1 + 2.0 * c1 + z1
    ensures e1 + (r + s) * (r + s) == (f1 + r * r) + 2.0 * (c1 + r * s) + (z1 + s * s)
  {
    assert (r + s) * (r + s) == r * r + 2.0 * (r * s) + s * s;
  }

  /** Moving from one line to another adds the cross term twice and the squared shifts. */
  lemma {:induction false} SquaredErrorShift(ys: seq<real>, fit: Line, other: Line, alpha: real, beta: real, k: nat)
    requires k <= |ys|
    requires forall j :: 0 <= j < k ==> Residual(ys, other, j) == Residual(ys, fit, j) + (alpha + beta * j as real)
    ensures SquaredErrorTo(ys, other, k)
      == SquaredErrorTo(ys, fit, k) + 2.0 * CrossShiftTo(ys, fit, alpha, beta, k) + ShiftSquaresTo(alpha, beta, k)
  {
    if k > 0 {
      var r, s := Residual(ys, fit, k - 1), alpha + beta * (k - 1) as real;
      var e1, f1 := SquaredErrorTo(ys, other, k - 1), SquaredErrorTo(ys, fit, k - 1);
      var c1, z1 := CrossShiftTo(ys, fit, alpha, beta, k - 1), ShiftSquaresTo(alpha, beta, k - 1);
      assert e1 == f1 + 2.0 * c1 + z1 by {
        SquaredErrorShift(ys, fit, other, alpha, beta, k - 1);
      }
      SquareStep(e1, f1, c1, z1, r, s);
    }
  }

  lemma CrossStep(c1: real, a1: real, b1: real, alpha: real, beta: real, r: real, i: real)
    requires c1 == alpha * a1 + beta * b1
    ensures c1 + r * (alpha + beta * i) == alpha * (a1 + r) + beta * (b1 + i * r)
  {
    assert r * (alpha + beta * i) == alpha * r + beta * (i * r);
    assert alpha * (a1 + r) == alpha * a1 + alpha * r;
    assert beta * (b1 + i * r) == beta * b1 + beta * (i * r);
  }

  lemma {:induction false} CrossShiftSplit(ys: seq<real>, fit: Line, alpha: real, beta: real, k: nat)
    requires k <= |ys|
    ensures CrossShiftTo(ys, fit, alpha, beta, k) == alpha * ResidualSumTo(ys, fit, k) + beta * IndexResidualTo(ys, fit, k)
  {
    if k > 0 {
      var c1, a1, b1 := CrossShiftTo(ys, fit, alpha, beta, k - 1), ResidualSumTo(ys, fit, k - 1), IndexResidualTo(ys, fit, k - 1);
      assert c1 == alpha * a1 + beta * b1 by {
        CrossShiftSplit(ys, fit, alpha, beta, k - 1);
      }
      CrossStep(c1, a1, b1, alpha, beta, Residual(ys, fit, k - 1), (k - 1) as real);
    }
  }

  lemma LineDifference(y: real, fit: Line, other: Line, x: real)
    ensures y - Predict(other, x)
      == (y - Predict(fit, x)) + ((fit.intercept - other.intercept) + (fit.slope - other.slope) * x)
  {
    assert (fit.slope - other.slope) * x == fit.slope * x - other.slope * x;
  }

  /** The errors of the fit are uncorrelated with any shift of the line. */
  lemma FitCrossZero(ys: seq<real>, alpha: real, beta: real)
    requires |ys| >= 2
    ensures CrossShiftTo(ys, Fit(ys), alpha, beta, |ys|) == 0.0
  {
    var n, fit := |ys|, Fit(ys);
    ResidualsSumToZero(ys);
    ResidualsUncorrelated(ys);
    CrossShiftSplit(ys, fit, alpha, beta, n);
    ZeroCombination(alpha, ResidualSumTo(ys, fit, n), beta, IndexResidualTo(ys, fit, n));
  }

  lemma ZeroCombination(a: real, x: real, b: real, y: real)
    requires x == 0.0 && y == 0.0
    ensures a * x + b * y == 0.0
  {
  }

  /** The squared error of any line is that of the fit, plus twice the cross term, plus the squared shift. */
  lemma ErrorAroundFit(ys: seq<real>, fit: Line, other: Line)
    ensures var alpha, beta := fit.intercept - other.intercept, fit.slope - other.slope;
      SquaredError(ys, other)
        == SquaredError(ys, fit) + 2.0 * CrossShiftTo(ys, fit, alpha, beta, |ys|) + ShiftSquaresTo(alpha, beta, |ys|)
  {
    var alpha, beta := fit.intercept - other.intercept, fit.slope - other.slope;
    forall j | 0 <= j < |ys|
      ensures Residual(ys, other, j) == Residual(ys, fit, j) + (alpha + beta * j as real)
    {
      LineDifference(ys[j], fit, other, j as real);
    }
    SquaredErrorShift(ys, fit, other, alpha, beta, |ys|);
  }

  /** The fitted line has the least sum of squared errors of all lines, for two or more points. */
  lemma FitMinimizesSquaredError(ys: seq<real>, other: Line)
    requires |ys| >= 2
    ensures SquaredError(ys, Fit(ys)) <= SquaredError(ys, other)
  {
    var fit := Fit(ys);
    ErrorAroundFit(ys, fit, other);
    FitCrossZero(ys, fit.intercept - other.intercept, fit.slope - other.slope);
  }
}
