/**
 * The summary table (`get_summary_statistics`): the metrics of the present
 * total returns, followed by the number of dividend-paying rows and the sum
 * of the dividends, under seven fixed labels in a fixed order. Each figure is
 * the number the source renders; percentages are already scaled by 100.
 */
module Summary {
  import opened Options
  import opened Frames
  import opened Compounding
  import opened DailyReturns
  import opened Performance

  /** A figure that is rendered with two decimals, or a whole count. */
  datatype Figure = Amount(x: real) | Count(n: nat)

  datatype Entry = Entry(name: string, figure: Figure)

  const Labels: seq<string> := [
    "Total Return (%)",
    "Annualized Return (CAGR) (%)",
    "Annualized Volatility (%)",
    "Sharpe Ratio",
    "Maximum Drawdown (%)",
    "Number of Dividend Payments",
    "Total Dividends per Share"
  ]

  /** A row pays a dividend when its dividend is present and positive (a missing one compares false). */
  predicate IsPayment(cell: Option<real>) {
    cell.Some? && cell.value > 0.0
  }

  /** The rows that pay a dividend. */
  function Payers(dividends: Column): set<int> {
    set i | 0 <= i < |dividends| && IsPayment(dividends[i])
  }

  /** The paying rows of a column are those of its prefix, plus its last row when that one pays. */
  lemma PayersSnoc(dividends: Column)
    requires |dividends| > 0
    ensures var n := |dividends| - 1;
      && n !in Payers(dividends[..n])
      && Payers(dividends) == Payers(dividends[..n]) + if IsPayment(dividends[n]) then {n} else {}
  {
    var n := |dividends| - 1;
    var init := dividends[..n];
    assert forall i :: 0 <= i < n ==> init[i] == dividends[i];
    assert Payers(dividends) == Payers(init) + if IsPayment(dividends[n]) then {n} else {};
  }

  /** The number of rows whose dividend is positive. */
  function DividendPayments(dividends: Column): (n: nat)
    ensures n == |Payers(dividends)|
    ensures n <= |dividends|
    ensures n == 0 <==> forall i :: 0 <= i < |dividends| ==> !IsPayment(dividends[i])
    ensures n == |dividends| <==> forall i :: 0 <= i < |dividends| ==> IsPayment(dividends[i])
    decreases |dividends|
  {
    if dividends == [] then 0
    else
      var init := dividends[..|dividends| - 1];
      assert forall i :: 0 <= i < |init| ==> init[i] == dividends[i];
      PayersSnoc(dividends);
      DividendPayments(init) + if IsPayment(dividends[|dividends| - 1]) then 1 else 0
  }

  /** The sum of the present dividends (missing ones are skipped by the sum). */
  function TotalDividends(dividends: Column): real {
    Sum(DropMissing(dividends))
  }

  /**
   * Dropping the missing cells of a column without negative values leaves no
   * negative value, and leaves only zeros exactly when every present cell is 0.
   */
  lemma {:induction false} DropMissingNonNegative(col: Column)
    requires forall i :: 0 <= i < |col| ==> col[i].GetOr(0.0) >= 0.0
    ensures forall i :: 0 <= i < |DropMissing(col)| ==> DropMissing(col)[i] >= 0.0
    ensures (forall i :: 0 <= i < |DropMissing(col)| ==> DropMissing(col)[i] == 0.0) <==>
            (forall i :: 0 <= i < |col| ==> col[i].GetOr(0.0) == 0.0)
    decreases |col|
  {
    if col != [] {
      var n := |col| - 1;
      var init := col[..n];
      assert forall i :: 0 <= i < n ==> init[i] == col[i];
      DropMissingNonNegative(init);
      var rest := DropMissing(init);
      match col[n]
      case Some(v) =>
        var all := DropMissing(col);
        assert all == rest + [v];
        assert forall i :: 0 <= i < |rest| ==> all[i] == rest[i];
        assert all[|rest|] == v;
        assert (forall i :: 0 <= i < |all| ==> all[i] == 0.0) <==>
               (forall i :: 0 <= i < |rest| ==> rest[i] == 0.0) && v == 0.0;
        assert (forall i :: 0 <= i < |col| ==> col[i].GetOr(0.0) == 0.0) <==>
               (forall i :: 0 <= i < n ==> init[i].GetOr(0.0) == 0.0) && v == 0.0;
      case None =>
        assert DropMissing(col) == rest;
    }
  }

  /**
   * With no negative dividend, the total is never negative, and it is 0
   * exactly when no row pays a dividend.
   */
  lemma DividendTotalMatchesCount(dividends: Column)
    requires NonNegativeDividends(dividends)
    ensures TotalDividends(dividends) >= 0.0
    ensures TotalDividends(dividends) == 0.0 <==> DividendPayments(dividends) == 0
  {
    DropMissingNonNegative(dividends);
    SumOfNonNegatives(DropMissing(dividends));
  }

  /** The returns the metrics are computed over: the total-return column without its missing cells. */
  function PresentReturns(t: Table): seq<real>
    requires t.WellFormed() && TotalReturnColumn in t.cells
  {
    DropMissing(t.cells[TotalReturnColumn])
  }

  /** Where the metrics are defined: the drawdown divides by every running peak. */
  predicate MetricsDefined(t: Table) {
    && t.WellFormed() && TotalReturnColumn in t.cells && DividendsColumn in t.cells
    && (|PresentReturns(t)| >= 2 ==> PeaksNonZero(PresentReturns(t)))
  }

  function SummaryStatistics(t: Table, riskFreeRate: real, numerics: Numerics): (s: seq<Entry>)
    requires MetricsDefined(t)
    ensures |s| == |Labels| && forall i :: 0 <= i < |s| ==> s[i].name == Labels[i]
    ensures s[5].figure == Count(DividendPayments(t.cells[DividendsColumn]))
    ensures s[6].figure == Amount(TotalDividends(t.cells[DividendsColumn]))
    ensures |PresentReturns(t)| < 2 ==> forall i :: 0 <= i < 5 ==> s[i].figure == Amount(0.0)
    ensures |PresentReturns(t)| >= 2 ==> s[0].figure == Amount((Growth(PresentReturns(t)) - 1.0) * 100.0)
    ensures |PresentReturns(t)| >= 2 && AboveWipeout(PresentReturns(t)) ==>
      s[4].figure.Amount? && -100.0 < s[4].figure.x <= 0.0
    ensures |PresentReturns(t)| >= 2 ==>
      var rs := PresentReturns(t);
      var m := PerformanceMetrics(rs, riskFreeRate, numerics);
      && s[1].figure == Amount(m.cagr * 100.0)
      && s[2].figure == Amount(StdDev(rs, numerics) * numerics.sqrt(TradingDaysPerYear) * 100.0)
      && s[3].figure == Amount(SharpeRatio(rs, riskFreeRate, numerics))
      && s[4].figure == Amount(MaxDrawdown(rs) * 100.0)
  {
    var dividends := t.cells[DividendsColumn];
    var m := PerformanceMetrics(PresentReturns(t), riskFreeRate, numerics);
    [
      Entry(Labels[0], Amount(m.totalReturn * 100.0)),
      Entry(Labels[1], Amount(m.cagr * 100.0)),
      Entry(Labels[2], Amount(m.annualizedVolatility * 100.0)),
      Entry(Labels[3], Amount(m.sharpeRatio)),
      Entry(Labels[4], Amount(m.maxDrawdown * 100.0)),
      Entry(Labels[5], Count(DividendPayments(dividends))),
      Entry(Labels[6], Amount(TotalDividends(dividends)))
    ]
  }

  /**
   * Over a table whose returns were derived from positive closes and
   * non-negative dividends, the metrics are defined and see every row's total
   * return but the first's, and none of those returns wipes out.
   */
  lemma DerivedReturnsDefined(t: Table)
    requires t.WellFormed() && CloseColumn in t.cells && DividendsColumn in t.cells && |t.index| > 0
    requires PositiveCloses(t.cells[CloseColumn]) && NonNegativeDividends(t.cells[DividendsColumn])
    ensures var d := WithDailyReturns(t);
      && MetricsDefined(d)
      && AboveWipeout(PresentReturns(d))
      && var r := d.cells[TotalReturnColumn];
         PresentReturns(d) == seq(|t.index| - 1, i requires 0 <= i < |t.index| - 1 => r[i + 1].value)
  {
    var d := WithDailyReturns(t);
    var close := t.cells[CloseColumn];
    var dividends := t.cells[DividendsColumn];
    DropMissingTotalReturns(close, dividends);
    TotalReturnsAboveWipeout(close, dividends);
    AboveWipeoutPeaksNonZero(PresentReturns(d));
  }

  /**
   * Over a table whose returns were derived from positive closes and
   * non-negative dividends, the drawdown figure lies in (-100, 0] once there
   * are three rows, and all five metric figures are 0 below that.
   */
  lemma SummaryOfDerivedReturns(t: Table, riskFreeRate: real, numerics: Numerics)
    requires t.WellFormed() && CloseColumn in t.cells && DividendsColumn in t.cells && |t.index| > 0
    requires PositiveCloses(t.cells[CloseColumn]) && NonNegativeDividends(t.cells[DividendsColumn])
    ensures MetricsDefined(WithDailyReturns(t))
    ensures |t.index| >= 3 ==>
      -100.0 < SummaryStatistics(WithDailyReturns(t), riskFreeRate, numerics)[4].figure.x <= 0.0
    ensures |t.index| < 3 ==> forall i :: 0 <= i < 5 ==>
      SummaryStatistics(WithDailyReturns(t), riskFreeRate, numerics)[i].figure == Amount(0.0)
  {
    DerivedReturnsDefined(t);
    var d := WithDailyReturns(t);
    assert |PresentReturns(d)| == |t.index| - 1;
  }
}
