/**
 * Scalar performance metrics over a run of daily total returns
 * (`calculate_performance_metrics`): total return, CAGR, annualised
 * volatility, Sharpe ratio, maximum drawdown and the arithmetic and geometric
 * mean returns. Square roots and fractional powers belong to the floating-point
 * library and are passed in as uninterpreted functions (`Numerics`); what is
 * proved is the exact-arithmetic part: compounding, the running-peak
 * drawdown, the mean, and the zero guard of the Sharpe ratio.
 */
module Performance {
  import opened Compounding

  /** The fixed convention of 252 trading days per year. */
  const TradingDaysPerYear: real := 252.0

  /** The library's square root and real power (`np.sqrt`, `**`), left uninterpreted. */
  datatype Numerics = Numerics(sqrt: real -> real, pow: (real, real) -> real)

  /** The seven entries of the metrics dictionary, in the source's key order. */
  datatype Metrics = Metrics(
    totalReturn: real,
    cagr: real,
    annualizedVolatility: real,
    sharpeRatio: real,
    maxDrawdown: real,
    arithmeticMeanReturn: real,
    geometricMeanReturn: real)

  /** What a run of fewer than two returns gets: every metric 0. */
  const ZeroMetrics := Metrics(0.0, 0.0, 0.0, 0.0, 0.0, 0.0, 0.0)

  function Mean(xs: seq<real>): real
    requires |xs| > 0
  {
    Sum(xs) / |xs| as real
  }

  function SquaredDeviations(xs: seq<real>, m: real): (d: seq<real>)
    ensures |d| == |xs|
  {
    seq(|xs|, i requires 0 <= i < |xs| => (xs[i] - m) * (xs[i] - m))
  }

  /** Sample variance (one degree of freedom removed), as the library's `std` uses. */
  function SampleVariance(xs: seq<real>): real
    requires |xs| >= 2
  {
    Sum(SquaredDeviations(xs, Mean(xs))) / (|xs| - 1) as real
  }

  function StdDev(xs: seq<real>, numerics: Numerics): real
    requires |xs| >= 2
  {
    numerics.sqrt(SampleVariance(xs))
  }

  /** The daily returns less the daily share of the annual risk-free rate. */
  function Excess(rs: seq<real>, riskFreeRate: real): (e: seq<real>)
    ensures |e| == |rs|
  {
    seq(|rs|, i requires 0 <= i < |rs| => rs[i] - riskFreeRate / TradingDaysPerYear)
  }

  /** Mean excess over its deviation, annualised; 0 when the deviation is 0. */
  function SharpeRatio(rs: seq<real>, riskFreeRate: real, numerics: Numerics): real
    requires |rs| >= 2
  {
    var excess := Excess(rs, riskFreeRate);
    var deviation := StdDev(excess, numerics);
    if deviation != 0.0 then Mean(excess) / deviation * numerics.sqrt(TradingDaysPerYear) else 0.0
  }

  predicate AllEqual(xs: seq<real>) {
    forall i :: 0 <= i < |xs| ==> xs[i] == xs[0]
  }

  /** The square root vanishes at 0 and nowhere else on the non-negative reals. */
  ghost predicate SqrtZeroExactlyAtZero(numerics: Numerics) {
    && numerics.sqrt(0.0) == 0.0
    && forall v :: v > 0.0 ==> numerics.sqrt(v) != 0.0
  }

  // ----- Sums of squares -----

  lemma {:induction false} SumOfNonNegatives(xs: seq<real>)
    requires forall i :: 0 <= i < |xs| ==> xs[i] >= 0.0
    ensures Sum(xs) >= 0.0
    ensures Sum(xs) == 0.0 <==> forall i :: 0 <= i < |xs| ==> xs[i] == 0.0
    decreases |xs|
  {
    if xs != [] {
      var init := xs[..|xs| - 1];
      SumOfNonNegatives(init);
      if Sum(xs) == 0.0 {
        forall i | 0 <= i < |xs|
          ensures xs[i] == 0.0
        {
          if i < |xs| - 1 {
            assert init[i] == xs[i];
          }
        }
      }
    }
  }

  lemma ProductPositive(x: real, y: real, p: real)
    requires x > 0.0 && y > 0.0 && x * y == p
    ensures p > 0.0
  {
  }

  /** A square is never negative, and is 0 only for 0. */
  lemma SquareZero(x: real, sq: real)
    requires x * x == sq
    ensures sq >= 0.0
    ensures sq == 0.0 <==> x == 0.0
  {
    if x > 0.0 {
      ProductPositive(x, x, sq);
    } else if x < 0.0 {
      assert (-x) * (-x) == sq;
      ProductPositive(-x, -x, sq);
    }
  }

  lemma MeanOfConstant(xs: seq<real>, c: real)
    requires |xs| > 0 && forall i :: 0 <= i < |xs| ==> xs[i] == c
    ensures Mean(xs) == c
  {
    SumOfConstant(xs, c);
  }

  /** The sample variance is never negative, and is 0 exactly when all values are equal. */
  lemma VarianceZeroIffAllEqual(xs: seq<real>)
    requires |xs| >= 2
    ensures SampleVariance(xs) >= 0.0
    ensures SampleVariance(xs) == 0.0 <==> AllEqual(xs)
  {
    var m := Mean(xs);
    var d := SquaredDeviations(xs, m);
    forall i | 0 <= i < |xs|
      ensures d[i] >= 0.0 && (d[i] == 0.0 <==> xs[i] == m)
    {
      SquareZero(xs[i] - m, d[i]);
    }
    SumOfNonNegatives(d);
    if AllEqual(xs) {
      MeanOfConstant(xs, xs[0]);
    }
  }

  /** Subtracting the same rate from every return keeps them equal or unequal. */
  lemma ExcessAllEqual(rs: seq<real>, riskFreeRate: real)
    requires |rs| > 0
    ensures AllEqual(Excess(rs, riskFreeRate)) <==> AllEqual(rs)
  {
    var e := Excess(rs, riskFreeRate);
    if AllEqual(e) {
      forall i | 0 <= i < |rs|
        ensures rs[i] == rs[0]
      {
        assert e[i] == e[0];
      }
    }
  }

  /**
   * With a square root that is 0 only at 0, the Sharpe ratio's guard fires
   * (the excess returns have zero deviation) exactly when all returns are equal.
   */
  lemma SharpeGuardFires(rs: seq<real>, riskFreeRate: real, numerics: Numerics)
    requires |rs| >= 2 && SqrtZeroExactlyAtZero(numerics)
    ensures StdDev(Excess(rs, riskFreeRate), numerics) == 0.0 <==> AllEqual(rs)
  {
    VarianceZeroIffAllEqual(Excess(rs, riskFreeRate));
    ExcessAllEqual(rs, riskFreeRate);
  }

  /** A constant run of returns has a Sharpe ratio of 0 (the guard, not a division). */
  lemma ConstantReturnsSharpeZero(rs: seq<real>, riskFreeRate: real, numerics: Numerics)
    requires |rs| >= 2 && AllEqual(rs) && numerics.sqrt(0.0) == 0.0
    ensures SharpeRatio(rs, riskFreeRate, numerics) == 0.0
  {
    VarianceZeroIffAllEqual(Excess(rs, riskFreeRate));
    ExcessAllEqual(rs, riskFreeRate);
  }

  // ----- Drawdown -----

  /** `(1 + rs).cumprod()`: each entry is the previous one grown by that day's return. */
  function Cumulative(rs: seq<real>): (c: seq<real>)
    ensures |c| == |rs|
    decreases |rs|
  {
    if rs == [] then []
    else
      var n := |rs|;
      var prior := Cumulative(rs[..n - 1]);
      prior + [(if n == 1 then 1.0 else prior[n - 2]) * (1.0 + rs[n - 1])]
  }

  function Max(a: real, b: real): real {
    if a >= b then a else b
  }

  /** `expanding(min_periods=1).max()`: the largest value so far. */
  function RunningPeak(c: seq<real>): (p: seq<real>)
    ensures |p| == |c|
    decreases |c|
  {
    if c == [] then []
    else
      var n := |c|;
      var prior := RunningPeak(c[..n - 1]);
      prior + [if n == 1 then c[0] else Max(prior[n - 2], c[n - 1])]
  }

  /** The running peaks of the cumulative growth, the denominators of the drawdowns. */
  function Peaks(rs: seq<real>): (p: seq<real>)
    ensures |p| == |rs|
  {
    RunningPeak(Cumulative(rs))
  }

  /** Where the drawdown is defined: no running peak is 0. */
  predicate PeaksNonZero(rs: seq<real>) {
    forall t :: 0 <= t < |rs| ==> Peaks(rs)[t] != 0.0
  }

  /** `(cumulative - peak) / peak`, day by day. */
  function Drawdowns(rs: seq<real>): (d: seq<real>)
    requires PeaksNonZero(rs)
    ensures |d| == |rs|
  {
    var c := Cumulative(rs);
    var p := Peaks(rs);
    seq(|rs|, t requires 0 <= t < |rs| => (c[t] - p[t]) / p[t])
  }

  /** The least value of a non-empty run (the library's `min`). */
  function MinOf(xs: seq<real>): (r: real)
    requires |xs| > 0
    ensures forall i :: 0 <= i < |xs| ==> r <= xs[i]
    ensures exists i :: 0 <= i < |xs| && r == xs[i]
    decreases |xs|
  {
    if |xs| == 1 then xs[0]
    else
      var n := |xs|;
      var rest := MinOf(xs[..n - 1]);
      assert forall i :: 0 <= i < n - 1 ==> xs[..n - 1][i] == xs[i];
      if xs[n - 1] < rest then xs[n - 1] else rest
  }

  function MaxDrawdown(rs: seq<real>): real
    requires |rs| > 0 && PeaksNonZero(rs)
  {
    MinOf(Drawdowns(rs))
  }

  /** Each cumulative entry is the compounded growth of the days up to and including it. */
  lemma {:induction false} CumulativeAt(rs: seq<real>, t: int)
    requires 0 <= t < |rs|
    ensures Cumulative(rs)[t] == Growth(rs[..t + 1])
    decreases |rs|
  {
    var n := |rs|;
    var init := rs[..n - 1];
    if t < n - 1 {
      CumulativeAt(init, t);
      assert init[..t + 1] == rs[..t + 1];
    } else if n == 1 {
      assert rs[..1][..0] == [];
    } else {
      CumulativeAt(init, n - 2);
      assert init[..n - 1] == init;
      assert rs[..n] == rs;
      assert rs[..n][..n - 1] == init;
    }
  }

  /** Each running peak is at least every earlier value and equals one of them. */
  lemma {:induction false} PeakAt(c: seq<real>, t: int)
    requires 0 <= t < |c|
    ensures forall j :: 0 <= j <= t ==> RunningPeak(c)[t] >= c[j]
    ensures exists j :: 0 <= j <= t && RunningPeak(c)[t] == c[j]
    decreases |c|
  {
    var n := |c|;
    var init := c[..n - 1];
    if t < n - 1 {
      PeakAt(init, t);
      assert forall j :: 0 <= j <= t ==> init[j] == c[j];
    } else if n > 1 {
      PeakAt(init, n - 2);
      assert forall j :: 0 <= j <= n - 2 ==> init[j] == c[j];
    }
  }

  /** The running peak never falls. */
  lemma PeakNonDecreasing(c: seq<real>, s: int, t: int)
    requires 0 <= s <= t < |c|
    ensures RunningPeak(c)[s] <= RunningPeak(c)[t]
  {
    PeakAt(c, s);
    PeakAt(c, t);
  }

  /** Day `t` is no lower than the day before. */
  predicate RisesAt(c: seq<real>, t: int)
    requires 0 < t < |c|
  {
    c[t - 1] <= c[t]
  }

  /** The running peak of a non-decreasing run is the run itself. */
  lemma {:induction false} PeakOfNonDecreasing(c: seq<real>)
    requires forall t :: 0 < t < |c| ==> RisesAt(c, t)
    ensures RunningPeak(c) == c
    decreases |c|
  {
    if |c| > 1 {
      var n := |c|;
      var init := c[..n - 1];
      forall t | 0 < t < n - 1
        ensures RisesAt(init, t)
      {
        assert RisesAt(c, t);
      }
      PeakOfNonDecreasing(init);
      var prior := RunningPeak(init);
      assert prior[n - 2] == c[n - 2];
      assert RisesAt(c, n - 1);
      assert RunningPeak(c) == prior + [Max(prior[n - 2], c[n - 1])];
      assert init + [c[n - 1]] == c;
    }
  }

  lemma AboveWipeoutPrefix(rs: seq<real>, k: int)
    requires AboveWipeout(rs) && 0 <= k <= |rs|
    ensures AboveWipeout(rs[..k])
  {
    assert forall i :: 0 <= i < k ==> rs[..k][i] == rs[i];
  }

  /** Without a wipe-out every cumulative value is positive. */
  lemma CumulativePositive(rs: seq<real>, t: int)
    requires AboveWipeout(rs) && 0 <= t < |rs|
    ensures Cumulative(rs)[t] > 0.0
  {
    CumulativeAt(rs, t);
    AboveWipeoutPrefix(rs, t + 1);
    GrowthPositive(rs[..t + 1]);
  }

  lemma PeakPositive(rs: seq<real>, t: int)
    requires AboveWipeout(rs) && 0 <= t < |rs|
    ensures Peaks(rs)[t] >= Cumulative(rs)[t] > 0.0
  {
    CumulativePositive(rs, t);
    PeakAt(Cumulative(rs), t);
  }

  /** Without a wipe-out the drawdown is defined everywhere. */
  lemma AboveWipeoutPeaksNonZero(rs: seq<real>)
    requires AboveWipeout(rs)
    ensures PeaksNonZero(rs)
  {
    forall t | 0 <= t < |rs|
      ensures Peaks(rs)[t] != 0.0
    {
      PeakPositive(rs, t);
    }
  }

  lemma RatioBounds(c: real, p: real)
    requires 0.0 < c <= p
    ensures -1.0 < (c - p) / p <= 0.0
  {
    var q := (c - p) / p;
    assert q * p == c - p;
    if q > 0.0 {
      PositiveProduct(q, p);
    }
  }

  /** Without a wipe-out the maximum drawdown lies in (-1, 0]. */
  lemma MaxDrawdownBounds(rs: seq<real>)
    requires |rs| > 0 && AboveWipeout(rs)
    ensures PeaksNonZero(rs)
    ensures -1.0 < MaxDrawdown(rs) <= 0.0
  {
    AboveWipeoutPeaksNonZero(rs);
    var d := Drawdowns(rs);
    var t :| 0 <= t < |d| && MaxDrawdown(rs) == d[t];
    PeakPositive(rs, t);
    RatioBounds(Cumulative(rs)[t], Peaks(rs)[t]);
  }

  lemma GrowthFactorAtLeast(g: real, r: real, next: real)
    requires g >= 1.0 && r >= 0.0 && next == g * (1.0 + r)
    ensures g <= next
  {
    assert g * (1.0 + r) == g + g * r;
  }

  /** Without a losing day, compounding one more day keeps the growth at least 1 and never lowers it. */
  lemma GrowthPrefixStep(rs: seq<real>, t: int)
    requires NonNegative(rs) && 0 <= t < |rs|
    ensures 1.0 <= Growth(rs[..t]) <= Growth(rs[..t + 1])
  {
    assert rs[..t + 1] == rs[..t] + [rs[t]];
    GrowthSnoc(rs[..t], rs[t]);
    assert NonNegative(rs[..t]) by {
      assert forall i :: 0 <= i < t ==> rs[..t][i] == rs[i];
    }
    GrowthAtLeastOne(rs[..t]);
    GrowthFactorAtLeast(Growth(rs[..t]), rs[t], Growth(rs[..t + 1]));
  }

  /** Without a losing day the cumulative growth never falls and stays at least 1. */
  lemma CumulativeNonDecreasing(rs: seq<real>, t: int)
    requires NonNegative(rs) && 0 < t < |rs|
    ensures 1.0 <= Cumulative(rs)[t - 1] <= Cumulative(rs)[t]
  {
    CumulativeAt(rs, t - 1);
    CumulativeAt(rs, t);
    GrowthPrefixStep(rs, t);
    GrowthPrefixStep(rs, t - 1);
  }

  /** Without a losing day the peak is always the current value, so the maximum drawdown is 0. */
  lemma MaxDrawdownZeroWithoutLosses(rs: seq<real>)
    requires |rs| > 0 && NonNegative(rs)
    ensures PeaksNonZero(rs)
    ensures MaxDrawdown(rs) == 0.0
  {
    var c := Cumulative(rs);
    forall t | 0 < t < |c|
      ensures RisesAt(c, t)
    {
      CumulativeNonDecreasing(rs, t);
    }
    PeakOfNonDecreasing(c);
    forall t | 0 <= t < |rs|
      ensures c[t] > 0.0
    {
      if t > 0 {
        CumulativeNonDecreasing(rs, t);
      } else if |rs| > 1 {
        CumulativeNonDecreasing(rs, 1);
      } else {
        CumulativeAt(rs, 0);
        assert rs[..1] == [] + [rs[0]];
        GrowthSnoc([], rs[0]);
      }
    }
    var d := Drawdowns(rs);
    var t :| 0 <= t < |d| && MaxDrawdown(rs) == d[t];
  }

  // ----- The metrics dictionary -----

  /**
   * `calculate_performance_metrics`: all zero for fewer than two returns;
   * otherwise the compounded total return, the annualised growth rate over
   * n / 252 years, the sample deviation annualised by √252, the guarded
   * Sharpe ratio, the least running-peak drawdown, and the two means.
   * The source divides by every running peak, so that is where it is defined.
   */
  function PerformanceMetrics(rs: seq<real>, riskFreeRate: real, numerics: Numerics): (m: Metrics)
    requires |rs| >= 2 ==> PeaksNonZero(rs)
    ensures |rs| < 2 ==> m == ZeroMetrics
    ensures |rs| >= 2 ==> 1.0 + m.totalReturn == Growth(rs)
    ensures |rs| >= 2 ==> m.arithmeticMeanReturn == Sum(rs) / |rs| as real
    ensures |rs| >= 2 && AboveWipeout(rs) ==> -1.0 < m.maxDrawdown <= 0.0
    ensures |rs| >= 2 && NonNegative(rs) ==> m.maxDrawdown == 0.0
    ensures |rs| >= 2 && AllEqual(rs) && numerics.sqrt(0.0) == 0.0 ==> m.sharpeRatio == 0.0
    ensures |rs| >= 2 ==> m.maxDrawdown == MaxDrawdown(rs)
    ensures |rs| >= 2 ==> m.sharpeRatio == SharpeRatio(rs, riskFreeRate, numerics)
    ensures |rs| >= 2 ==> m.annualizedVolatility == StdDev(rs, numerics) * numerics.sqrt(TradingDaysPerYear)
    ensures |rs| >= 2 ==> m.cagr == numerics.pow(Growth(rs), TradingDaysPerYear / |rs| as real) - 1.0
    ensures |rs| >= 2 ==> m.geometricMeanReturn == numerics.pow(Growth(rs), 1.0 / |rs| as real) - 1.0
  {
    if |rs| < 2 then ZeroMetrics
    else
      var totalReturn := Growth(rs) - 1.0;
      var numYears := |rs| as real / TradingDaysPerYear;
      var cagr := if numYears > 0.0 then numerics.pow(1.0 + totalReturn, 1.0 / numYears) - 1.0 else 0.0;
      var volatility := StdDev(rs, numerics) * numerics.sqrt(TradingDaysPerYear);
      var sharpe := SharpeRatio(rs, riskFreeRate, numerics);
      var geometric := numerics.pow(Growth(rs), 1.0 / |rs| as real) - 1.0;
      MetricsLaws(rs, riskFreeRate, numerics);
      YearsExponent(|rs| as real);
      Metrics(totalReturn, cagr, volatility, sharpe, MaxDrawdown(rs), Mean(rs), geometric)
  }

  /** Over n / 252 years the growth is raised to the power 252 / n, and the CAGR guard always passes. */
  lemma YearsExponent(n: real)
    requires n > 0.0
    ensures n / TradingDaysPerYear > 0.0
    ensures 1.0 / (n / TradingDaysPerYear) == TradingDaysPerYear / n
  {
  }

  /** The drawdown and Sharpe facts the metrics function states, gathered for its body. */
  lemma MetricsLaws(rs: seq<real>, riskFreeRate: real, numerics: Numerics)
    requires |rs| >= 2
    ensures AboveWipeout(rs) ==> PeaksNonZero(rs) && -1.0 < MaxDrawdown(rs) <= 0.0
    ensures NonNegative(rs) ==> PeaksNonZero(rs) && MaxDrawdown(rs) == 0.0
    ensures AllEqual(rs) && numerics.sqrt(0.0) == 0.0 ==> SharpeRatio(rs, riskFreeRate, numerics) == 0.0
  {
    if AboveWipeout(rs) {
      MaxDrawdownBounds(rs);
    }
    if NonNegative(rs) {
      MaxDrawdownZeroWithoutLosses(rs);
    }
    if AllEqual(rs) && numerics.sqrt(0.0) == 0.0 {
      ConstantReturnsSharpeZero(rs, riskFreeRate, numerics);
    }
  }

  /** A constant run of returns has zero volatility as well as a zero Sharpe ratio. */
  lemma ConstantReturnsNoVolatility(rs: seq<real>, riskFreeRate: real, numerics: Numerics)
    requires |rs| >= 2 && AllEqual(rs) && numerics.sqrt(0.0) == 0.0
    requires PeaksNonZero(rs)
    ensures PerformanceMetrics(rs, riskFreeRate, numerics).annualizedVolatility == 0.0
    ensures PerformanceMetrics(rs, riskFreeRate, numerics).sharpeRatio == 0.0
  {
    VarianceZeroIffAllEqual(rs);
  }
}
