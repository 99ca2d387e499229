/**
 * Per-row returns (`calculate_daily_total_return`): the price return over the
 * previous close, the dividend yield on the previous close, and their sum, the
 * total return. The first row has no previous close, so its price and total
 * returns are missing. The three results are assigned as columns of the
 * caller's frame, in place.
 */
module DailyReturns {
  import opened Options
  import opened Frames
  import opened Compounding

  const CloseColumn := "Close"
  const DividendsColumn := "Dividends"
  const PriceReturnColumn := "Price_Return"
  const DividendYieldColumn := "Dividend_Yield"
  const TotalReturnColumn := "Total_Return"

  lemma ColumnNamesDistinct()
    ensures PriceReturnColumn != DividendYieldColumn && DividendYieldColumn != TotalReturnColumn
      && TotalReturnColumn != PriceReturnColumn
    ensures CloseColumn !in {PriceReturnColumn, DividendYieldColumn, TotalReturnColumn}
    ensures DividendsColumn !in {PriceReturnColumn, DividendYieldColumn, TotalReturnColumn}
  {
    assert PriceReturnColumn[0] == 'P' && DividendYieldColumn[0] == 'D' && TotalReturnColumn[0] == 'T';
    assert CloseColumn[0] == 'C' && DividendsColumn[1] == 'i' && DividendYieldColumn[1] == 'i';
    assert |DividendsColumn| != |DividendYieldColumn|;
  }

  /** Every close is present and positive (the source divides by the previous close unguarded). */
  predicate PositiveCloses(close: Column) {
    forall i :: 0 <= i < |close| ==> close[i].Some? && close[i].value > 0.0
  }

  /** No dividend is negative (missing ones count as none). */
  predicate NonNegativeDividends(dividends: Column) {
    forall i :: 0 <= i < |dividends| ==> dividends[i].GetOr(0.0) >= 0.0
  }

  predicate NoDividends(dividends: Column) {
    forall i :: 0 <= i < |dividends| ==> dividends[i].GetOr(0.0) == 0.0
  }

  /** Percentage change of the close; missing on the first row, which has no previous close. */
  function PriceReturns(close: Column): (r: Column)
    requires PositiveCloses(close)
    ensures |r| == |close|
    ensures |r| > 0 ==> r[0].None?
    ensures forall t :: 1 <= t < |r| ==> r[t].Some?
  {
    seq(|close|, t requires 0 <= t < |close| =>
      if t == 0 then None else Some(close[t].value / close[t - 1].value - 1.0))
  }

  /** Dividend over the previous close; missing on the first row and where the dividend is missing. */
  function DividendYields(dividends: Column, close: Column): (r: Column)
    requires |dividends| == |close| && PositiveCloses(close)
    ensures |r| == |close|
    ensures |r| > 0 ==> r[0].None?
    ensures forall t :: 1 <= t < |r| ==> (r[t].Some? <==> dividends[t].Some?)
  {
    seq(|close|, t requires 0 <= t < |close| =>
      if t == 0 then None
      else match dividends[t]
        case Some(d) => Some(d / close[t - 1].value)
        case None => None)
  }

  /** Price return plus the yield, missing yields taken as 0; missing exactly where the price return is. */
  function TotalReturns(priceReturns: Column, yieldCells: Column): (r: Column)
    requires |priceReturns| == |yieldCells|
    ensures |r| == |priceReturns|
    ensures forall t :: 0 <= t < |r| ==> (r[t].Some? <==> priceReturns[t].Some?)
    ensures forall t :: 0 <= t < |r| && r[t].Some? && yieldCells[t].GetOr(0.0) >= 0.0 ==>
      r[t].value >= priceReturns[t].value
  {
    seq(|priceReturns|, t requires 0 <= t < |priceReturns| =>
      match priceReturns[t]
      case Some(p) => Some(p + yieldCells[t].GetOr(0.0))
      case None => None)
  }

  /** The total-return column computed from the close and dividend columns. */
  function DailyTotalReturns(close: Column, dividends: Column): (r: Column)
    requires |dividends| == |close| && PositiveCloses(close)
    ensures |r| == |close|
    ensures |r| > 0 ==> r[0].None?
    ensures forall t :: 1 <= t < |r| ==> r[t].Some?
  {
    TotalReturns(PriceReturns(close), DividendYields(dividends, close))
  }

  /** The previous close grown by the price return is the close; times the yield, the dividend. */
  lemma RowParts(close: Column, dividends: Column, t: int)
    requires |dividends| == |close| && PositiveCloses(close) && 1 <= t < |close|
    ensures close[t - 1].value * (1.0 + PriceReturns(close)[t].value) == close[t].value
    ensures close[t - 1].value * DividendYields(dividends, close)[t].GetOr(0.0) == dividends[t].GetOr(0.0)
  {
  }

  /** Restates a growth step in terms of equal quantities. */
  lemma StepOfEquals(prev: real, prev': real, r: real, r': real, next: real, next': real)
    requires prev == prev' && r == r' && next == next'
    requires prev * (1.0 + r) == next
    ensures prev' * (1.0 + r') == next'
  {
  }

  /**
   * The arithmetic of one row: growing the previous close by the price return
   * plus the yield gives the close plus the dividend.
   */
  lemma RowIdentity(prev: real, cur: real, income: real, priceReturn: real, yieldValue: real, total: real)
    requires prev * (1.0 + priceReturn) == cur
    requires prev * yieldValue == income
    requires total == priceReturn + yieldValue
    ensures prev * (1.0 + total) == cur + income
  {
  }

  /**
   * On every row after the first, the previous close grown by the total
   * return is the close plus the dividend paid on that row.
   */
  lemma TotalReturnAt(close: Column, dividends: Column, t: int)
    requires |dividends| == |close| && PositiveCloses(close) && 1 <= t < |close|
    ensures close[t - 1].value * (1.0 + DailyTotalReturns(close, dividends)[t].value)
         == close[t].value + dividends[t].GetOr(0.0)
  {
    RowParts(close, dividends, t);
    var p := PriceReturns(close);
    var y := DividendYields(dividends, close);
    RowIdentity(close[t - 1].value, close[t].value, dividends[t].GetOr(0.0), p[t].value, y[t].GetOr(0.0),
                TotalReturns(p, y)[t].value);
  }

  /**
   * The table after the three column assignments: the three result columns
   * hold the price returns, dividend yields and total returns of the close and
   * dividend columns; every other column is kept, and no other is added.
   */
  function WithDailyReturns(t: Table): (r: Table)
    requires t.WellFormed() && CloseColumn in t.cells && DividendsColumn in t.cells
    requires PositiveCloses(t.cells[CloseColumn])
    ensures r.WellFormed() && r.index == t.index
    ensures PriceReturnColumn in r.cells && r.cells[PriceReturnColumn] == PriceReturns(t.cells[CloseColumn])
    ensures DividendYieldColumn in r.cells
      && r.cells[DividendYieldColumn] == DividendYields(t.cells[DividendsColumn], t.cells[CloseColumn])
    ensures TotalReturnColumn in r.cells
      && r.cells[TotalReturnColumn] == DailyTotalReturns(t.cells[CloseColumn], t.cells[DividendsColumn])
    ensures forall c :: c in t.cells && c != PriceReturnColumn && c != DividendYieldColumn && c != TotalReturnColumn ==>
      c in r.cells && r.cells[c] == t.cells[c]
    ensures forall c :: c in r.cells ==>
      c in t.cells || c == PriceReturnColumn || c == DividendYieldColumn || c == TotalReturnColumn
    ensures t.columns <= r.columns
  {
    var close := t.cells[CloseColumn];
    var priceReturns := PriceReturns(close);
    var yieldCells := DividendYields(t.cells[DividendsColumn], close);
    WithResultColumns(t, priceReturns, yieldCells, TotalReturns(priceReturns, yieldCells))
  }

  /**
   * The columns keep their order; each result column the table lacked is
   * appended after them, in the order price return, dividend yield, total return.
   */
  lemma DailyReturnsColumnOrder(t: Table)
    requires t.WellFormed() && CloseColumn in t.cells && DividendsColumn in t.cells
    requires PositiveCloses(t.cells[CloseColumn])
    ensures WithDailyReturns(t).columns
         == t.columns + IfAbsent(t, PriceReturnColumn) + IfAbsent(t, DividendYieldColumn) + IfAbsent(t, TotalReturnColumn)
  {
    var close := t.cells[CloseColumn];
    var priceReturns := PriceReturns(close);
    var yieldCells := DividendYields(t.cells[DividendsColumn], close);
    ResultColumnsOrder(t, priceReturns, yieldCells, TotalReturns(priceReturns, yieldCells));
  }

  /** The column name `c` when `t` lacks it, which is where assigning it appends it; nothing otherwise. */
  function IfAbsent(t: Table, c: string): seq<string> {
    if c in t.cells then [] else [c]
  }

  /** `t` with the price-return, dividend-yield and total-return columns assigned, in that order. */
  function WithResultColumns(t: Table, priceReturns: Column, yieldCells: Column, totalReturns: Column): (r: Table)
    requires t.WellFormed() && |priceReturns| == |yieldCells| == |totalReturns| == |t.index|
    ensures r.WellFormed() && r.index == t.index
    ensures PriceReturnColumn in r.cells && r.cells[PriceReturnColumn] == priceReturns
    ensures DividendYieldColumn in r.cells && r.cells[DividendYieldColumn] == yieldCells
    ensures TotalReturnColumn in r.cells && r.cells[TotalReturnColumn] == totalReturns
    ensures forall c :: c in t.cells && c != PriceReturnColumn && c != DividendYieldColumn && c != TotalReturnColumn ==>
      c in r.cells && r.cells[c] == t.cells[c]
    ensures forall c :: c in r.cells ==>
      c in t.cells || c == PriceReturnColumn || c == DividendYieldColumn || c == TotalReturnColumn
  {
    ColumnNamesDistinct();
    t.WithColumn(PriceReturnColumn, priceReturns)
      .WithColumn(DividendYieldColumn, yieldCells)
      .WithColumn(TotalReturnColumn, totalReturns)
  }

  /** The result columns that `t` lacks are appended after its own, in assignment order. */
  lemma ResultColumnsOrder(t: Table, priceReturns: Column, yieldCells: Column, totalReturns: Column)
    requires t.WellFormed() && |priceReturns| == |yieldCells| == |totalReturns| == |t.index|
    ensures WithResultColumns(t, priceReturns, yieldCells, totalReturns).columns
         == t.columns + IfAbsent(t, PriceReturnColumn) + IfAbsent(t, DividendYieldColumn) + IfAbsent(t, TotalReturnColumn)
  {
    ColumnNamesDistinct();
    var withPrice := t.WithColumn(PriceReturnColumn, priceReturns);
    assert withPrice.columns == t.columns + IfAbsent(t, PriceReturnColumn);
    assert DividendYieldColumn in withPrice.cells <==> DividendYieldColumn in t.cells;
    var withYield := withPrice.WithColumn(DividendYieldColumn, yieldCells);
    assert withYield.columns == withPrice.columns + IfAbsent(t, DividendYieldColumn);
    assert TotalReturnColumn in withYield.cells <==> TotalReturnColumn in t.cells;
    var withTotal := withYield.WithColumn(TotalReturnColumn, totalReturns);
    assert withTotal.columns == withYield.columns + IfAbsent(t, TotalReturnColumn);
    assert WithResultColumns(t, priceReturns, yieldCells, totalReturns) == withTotal;
  }

  /**
   * Adds the price-return, dividend-yield and total-return columns to `data`
   * in place and hands back the same frame.
   */
  method CalculateDailyTotalReturn(data: Frame) returns (result: Frame)
    requires data.Valid() && CloseColumn in data.cells && DividendsColumn in data.cells
    requires PositiveCloses(data.cells[CloseColumn])
    modifies data
    ensures result == data && data.Valid()
    ensures data.AsTable() == WithDailyReturns(old(data.AsTable()))
  {
    var close := data.cells[CloseColumn];
    data.SetColumn(PriceReturnColumn, PriceReturns(close));
    data.SetColumn(DividendYieldColumn, DividendYields(data.cells[DividendsColumn], close));
    data.SetColumn(TotalReturnColumn, TotalReturns(data.cells[PriceReturnColumn], data.cells[DividendYieldColumn]));
    result := data;
  }

  /**
   * Dropping the missing cells of the total-return column removes the first
   * row and nothing else.
   */
  lemma DropMissingTotalReturns(close: Column, dividends: Column)
    requires |dividends| == |close| > 0 && PositiveCloses(close)
    ensures var r := DailyTotalReturns(close, dividends);
      DropMissing(r) == seq(|close| - 1, i requires 0 <= i < |close| - 1 => r[i + 1].value)
  {
    var r := DailyTotalReturns(close, dividends);
    assert r == [r[0]] + r[1..];
    DropMissingAppend([r[0]], r[1..]);
    assert DropMissing([r[0]]) == [] by {
      assert [r[0]][..0] == [];
    }
    DropMissingAllPresent(r[1..]);
  }

  lemma PositiveFactor(c: real, f: real, result: real)
    requires c > 0.0 && c * f == result && result > 0.0
    ensures f > 0.0
  {
  }

  /** One telescoping step: a value at least `prev`, grown like `prev`, reaches at least `cur`. */
  lemma AtLeastStep(c0: real, total: real, prior: real, f: real, prev: real, cur: real, income: real)
    requires total == prior * f && c0 * prior >= prev
    requires prev > 0.0 && cur > 0.0 && income >= 0.0 && prev * f == cur + income
    ensures c0 * total >= cur
  {
    PositiveFactor(prev, f, cur + income);
    Regroup(c0, prior, f);
    assert (c0 * prior) * f >= prev * f;
  }

  /** One telescoping step without income: a value equal to `prev`, grown like `prev`, reaches `cur`. */
  lemma ExactStep(c0: real, total: real, prior: real, f: real, prev: real, cur: real)
    requires total == prior * f && c0 * prior == prev && prev * f == cur
    ensures c0 * total == cur
  {
    Regroup(c0, prior, f);
  }

  /**
   * Each return `g[i]` grows `close[i]` to `close[i + 1]` plus the income
   * `income[i]` paid on that step.
   */
  predicate GrowthSteps(close: seq<real>, income: seq<real>, g: seq<real>) {
    && |close| == |g| + 1 && |income| == |g|
    && forall i :: 0 <= i < |g| ==> GrowthStep(close, income, g, i)
  }

  /** Step `i` of `GrowthSteps`. */
  predicate GrowthStep(close: seq<real>, income: seq<real>, g: seq<real>, i: int)
    requires |close| == |g| + 1 && |income| == |g| && 0 <= i < |g|
  {
    close[i] * (1.0 + g[i]) == close[i + 1] + income[i]
  }

  /**
   * Compounding the first n returns from the first close reaches at least
   * close[n] when every step also pays a non-negative income.
   */
  lemma {:induction false} TelescopeAtLeast(close: seq<real>, income: seq<real>, g: seq<real>, n: nat)
    requires GrowthSteps(close, income, g) && n <= |g|
    requires forall i :: 0 <= i < |close| ==> close[i] > 0.0
    requires forall i :: 0 <= i < |g| ==> income[i] >= 0.0
    ensures close[0] * Growth(g[..n]) >= close[n]
    decreases n
  {
    if n == 0 {
      assert g[..0] == [];
    } else {
      TelescopeAtLeast(close, income, g, n - 1);
      assert g[..n][..n - 1] == g[..n - 1];
      assert GrowthStep(close, income, g, n - 1);
      AtLeastStep(close[0], Growth(g[..n]), Growth(g[..n - 1]), 1.0 + g[n - 1], close[n - 1], close[n], income[n - 1]);
    }
  }

  /** Compounding the first n returns from the first close reaches exactly close[n] when no step pays income. */
  lemma {:induction false} TelescopeExact(close: seq<real>, income: seq<real>, g: seq<real>, n: nat)
    requires GrowthSteps(close, income, g) && n <= |g|
    requires forall i :: 0 <= i < |g| ==> income[i] == 0.0
    ensures close[0] * Growth(g[..n]) == close[n]
    decreases n
  {
    if n == 0 {
      assert g[..0] == [];
    } else {
      TelescopeExact(close, income, g, n - 1);
      assert g[..n][..n - 1] == g[..n - 1];
      assert GrowthStep(close, income, g, n - 1);
      ExactStep(close[0], Growth(g[..n]), Growth(g[..n - 1]), 1.0 + g[n - 1], close[n - 1], close[n]);
    }
  }

  /** `TelescopeAtLeast` over the whole run of returns. */
  lemma GrowthReachesLast(close: seq<real>, income: seq<real>, g: seq<real>)
    requires GrowthSteps(close, income, g)
    requires forall i :: 0 <= i < |close| ==> close[i] > 0.0
    requires forall i :: 0 <= i < |g| ==> income[i] >= 0.0
    ensures close[0] * Growth(g) >= close[|g|]
  {
    TelescopeAtLeast(close, income, g, |g|);
    assert g[..|g|] == g;
  }

  /** `TelescopeExact` over the whole run of returns. */
  lemma GrowthMatchesLast(close: seq<real>, income: seq<real>, g: seq<real>)
    requires GrowthSteps(close, income, g)
    requires forall i :: 0 <= i < |g| ==> income[i] == 0.0
    ensures close[0] * Growth(g) == close[|g|]
  {
    TelescopeExact(close, income, g, |g|);
    assert g[..|g|] == g;
  }

  /** The dividend paid on each row after the first, missing ones taken as 0. */
  function Income(dividends: Column): (income: seq<real>)
    requires |dividends| > 0
    ensures |income| == |dividends| - 1
    ensures forall i :: 0 <= i < |income| ==> income[i] == dividends[i + 1].GetOr(0.0)
  {
    seq(|dividends| - 1, i requires 0 <= i < |dividends| - 1 => dividends[i + 1].GetOr(0.0))
  }

  /** A step between positive closes that pays a non-negative income does not wipe out. */
  lemma GrowthStepAboveWipeout(close: seq<real>, income: seq<real>, g: seq<real>, i: int)
    requires |close| == |g| + 1 && |income| == |g| && 0 <= i < |g| && GrowthStep(close, income, g, i)
    requires close[i] > 0.0 && close[i + 1] > 0.0 && income[i] >= 0.0
    ensures 1.0 + g[i] > 0.0
  {
    PositiveFactor(close[i], 1.0 + g[i], close[i + 1] + income[i]);
  }

  /** `TotalReturnAt` for row `i + 1`, restated over the plain closes, incomes and present returns. */
  lemma GrowthStepAt(close: Column, dividends: Column, i: nat)
    requires |dividends| == |close| && PositiveCloses(close) && i + 1 < |close|
    ensures |DropMissing(DailyTotalReturns(close, dividends))| == |close| - 1
    ensures GrowthStep(CloseValues(close), Income(dividends), DropMissing(DailyTotalReturns(close, dividends)), i)
  {
    var r := DailyTotalReturns(close, dividends);
    DropMissingTotalReturns(close, dividends);
    var g := DropMissing(r);
    TotalReturnAt(close, dividends, i + 1);
    StepOfEquals(close[i].value, CloseValues(close)[i], r[i + 1].value, g[i],
                 close[i + 1].value + dividends[i + 1].GetOr(0.0), CloseValues(close)[i + 1] + Income(dividends)[i]);
  }

  /** The daily total returns with the missing first row dropped, as a step relation between closes. */
  lemma TotalReturnSteps(close: Column, dividends: Column)
    requires |dividends| == |close| > 0 && PositiveCloses(close)
    ensures GrowthSteps(CloseValues(close), Income(dividends), DropMissing(DailyTotalReturns(close, dividends)))
  {
    DropMissingTotalReturns(close, dividends);
    forall i | 0 <= i < |close| - 1
      ensures GrowthStep(CloseValues(close), Income(dividends), DropMissing(DailyTotalReturns(close, dividends)), i)
    {
      GrowthStepAt(close, dividends, i);
    }
  }

  /**
   * With non-negative dividends, compounding the daily total returns grows the
   * first close to at least the last close.
   */
  lemma TotalReturnsReachLastClose(close: Column, dividends: Column)
    requires |dividends| == |close| > 0 && PositiveCloses(close) && NonNegativeDividends(dividends)
    ensures close[0].value * Growth(DropMissing(DailyTotalReturns(close, dividends))) >= close[|close| - 1].value
  {
    var g := DropMissing(DailyTotalReturns(close, dividends));
    TotalReturnSteps(close, dividends);
    GrowthReachesLast(CloseValues(close), Income(dividends), g);
  }

  /**
   * Without dividends, compounding the daily total returns grows the first
   * close to exactly the last close: the compounded total return is the price
   * change.
   */
  lemma TotalReturnsPriceOnly(close: Column, dividends: Column)
    requires |dividends| == |close| > 0 && PositiveCloses(close) && NoDividends(dividends)
    ensures close[0].value * Growth(DropMissing(DailyTotalReturns(close, dividends))) == close[|close| - 1].value
  {
    var g := DropMissing(DailyTotalReturns(close, dividends));
    TotalReturnSteps(close, dividends);
    GrowthMatchesLast(CloseValues(close), Income(dividends), g);
  }

  /** The closes as plain numbers. */
  function CloseValues(close: Column): (v: seq<real>)
    requires PositiveCloses(close)
    ensures |v| == |close| && forall i :: 0 <= i < |v| ==> v[i] == close[i].value && v[i] > 0.0
  {
    seq(|close|, i requires 0 <= i < |close| => close[i].value)
  }

  /** Returns derived from positive closes and non-negative dividends never wipe out. */
  lemma TotalReturnsAboveWipeout(close: Column, dividends: Column)
    requires |dividends| == |close| && PositiveCloses(close) && NonNegativeDividends(dividends)
    ensures AboveWipeout(DropMissing(DailyTotalReturns(close, dividends)))
  {
    if |close| > 0 {
      DropMissingTotalReturns(close, dividends);
      forall i | 0 <= i < |close| - 1
        ensures 1.0 + DropMissing(DailyTotalReturns(close, dividends))[i] > 0.0
      {
        GrowthStepAt(close, dividends, i);
        GrowthStepAboveWipeout(CloseValues(close), Income(dividends), DropMissing(DailyTotalReturns(close, dividends)), i);
      }
    }
  }
}
