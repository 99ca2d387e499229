/**
 * The fetch step (`fetch_equity_data`) around the data provider: the end
 * date is made inclusive by asking the provider for data up to the next
 * calendar day; an empty answer or any failure yields an empty table; a
 * non-empty answer gets every required column (a missing one filled with 0)
 * and its missing dividend and split values replaced by 0, in place.
 * The provider and the date parser are parameters.
 */
module DataFetcher {
  import opened Options
  import opened Calendar
  import opened Frames

  const DividendsName := "Dividends"
  const SplitsName := "Stock Splits"

  const RequiredColumns: seq<string> := ["Open", "High", "Low", "Close", "Volume", DividendsName, SplitsName]

  /**
   * `t` with a column of zeros added for each of `cols` it lacks, in the order
   * of `cols`; the columns it has are left alone.
   */
  function AddMissing(t: Table, cols: seq<string>): (r: Table)
    requires t.WellFormed()
    ensures r.WellFormed() && r.index == t.index && t.columns <= r.columns
    ensures forall c :: c in cols ==> c in r.cells
    ensures forall c :: c in t.cells ==> c in r.cells && r.cells[c] == t.cells[c]
    ensures forall c :: c in r.cells && c !in t.cells ==> c in cols && r.cells[c] == Constant(|t.index|, 0.0)
    decreases |cols|
  {
    if cols == [] then t
    else
      var n := |cols| - 1;
      assert forall c :: c in cols ==> c in cols[..n] || c == cols[n];
      AddIfMissing(AddMissing(t, cols[..n]), cols[n])
  }

  /** The columns up to `k` added, then column `k`. */
  lemma AddMissingStep(t: Table, cols: seq<string>, k: int)
    requires t.WellFormed() && 0 <= k < |cols|
    ensures AddMissing(t, cols[..k + 1]) == AddIfMissing(AddMissing(t, cols[..k]), cols[k])
  {
    assert cols[..k + 1][..k] == cols[..k];
  }

  /** `if col not in data.columns: data[col] = 0` */
  function AddIfMissing(t: Table, col: string): (r: Table)
    requires t.WellFormed()
    ensures r.WellFormed() && r.index == t.index && t.columns <= r.columns
    ensures col in r.cells
    ensures forall c :: c in t.cells ==> c in r.cells && r.cells[c] == t.cells[c]
    ensures forall c :: c in r.cells && c !in t.cells ==> c == col && r.cells[c] == Constant(|t.index|, 0.0)
  {
    if col in t.cells then t else t.WithColumn(col, Constant(|t.index|, 0.0))
  }

  /** The dividend and split columns with their missing values replaced by 0. */
  function FillDividendsAndSplits(t: Table): (r: Table)
    requires t.WellFormed() && DividendsName in t.cells && SplitsName in t.cells
  {
    t.WithColumn(DividendsName, FillMissing(t.cells[DividendsName], 0.0))
     .WithColumn(SplitsName, FillMissing(t.cells[SplitsName], 0.0))
  }

  /** The table a non-empty provider answer becomes. */
  function Normalised(t: Table): (r: Table)
    requires t.WellFormed()
  {
    var full := AddMissing(t, RequiredColumns);
    FillDividendsAndSplits(full)
  }

  lemma DividendAndSplitRequired()
    ensures DividendsName in RequiredColumns && SplitsName in RequiredColumns
    ensures DividendsName != SplitsName
  {
    assert RequiredColumns[5] == DividendsName && RequiredColumns[6] == SplitsName;
    assert |DividendsName| != |SplitsName|;
  }

  /**
   * After normalisation every required column is present, a column that was
   * missing holds 0 in every row, and every column the provider sent other
   * than the dividends and splits is kept as it was. Nothing else is added,
   * and no column moves.
   */
  lemma NormalisedKeepsColumns(t: Table)
    requires t.WellFormed()
    ensures var r := Normalised(t);
      && r.WellFormed() && r.index == t.index && t.columns <= r.columns
      && (forall c :: c in RequiredColumns ==> c in r.cells)
      && (forall c :: c in r.cells ==> c in t.cells || c in RequiredColumns)
      && (forall c :: c in RequiredColumns && c !in t.cells && c != DividendsName && c != SplitsName ==>
            r.cells[c] == Constant(|t.index|, 0.0))
      && (forall c :: c in t.cells && c != DividendsName && c != SplitsName ==> r.cells[c] == t.cells[c])
  {
    DividendAndSplitRequired();
  }

  /** Column `c` of `after` has no missing value, and keeps every value `before` had there. */
  predicate FilledFrom(before: Table, after: Table, c: string)
    requires before.WellFormed() && after.WellFormed() && after.index == before.index
  {
    && c in after.cells
    && (forall i :: 0 <= i < |after.index| ==> after.cells[c][i].Some?)
    && (c in before.cells ==>
          forall i :: 0 <= i < |after.index| && before.cells[c][i].Some? ==> after.cells[c][i] == before.cells[c][i])
    && (c !in before.cells ==> forall i :: 0 <= i < |after.index| ==> after.cells[c][i] == Some(0.0))
  }

  /**
   * After normalisation the dividend and split columns have no missing value:
   * a missing one became 0 (not the previous row's value), a present one is kept.
   */
  lemma NormalisedFillsDividendsAndSplits(t: Table)
    requires t.WellFormed()
    ensures Normalised(t).WellFormed() && Normalised(t).index == t.index
    ensures FilledFrom(t, Normalised(t), DividendsName)
    ensures FilledFrom(t, Normalised(t), SplitsName)
  {
    DividendAndSplitRequired();
  }

  /**
   * The whole fetch, as a value. `parseEnd` stands for the library's date
   * parser (None where it raises); `history` for the provider, called with
   * the ticker, the start text and the exclusive end bound (None where it
   * raises). Every failure, and an empty answer, gives the empty table.
   */
  function FetchOutcome(ticker: string, startText: string, endText: string,
                        parseEnd: string -> Option<CalendarDate>,
                        history: (string, string, CalendarDate) -> Option<WellFormedTable>): (r: Table)
    ensures r.WellFormed()
  {
    match parseEnd(endText)
    case None => EmptyTable
    case Some(endDate) =>
      match history(ticker, startText, NextDay(endDate))
      case None => EmptyTable
      case Some(t) => if t.IsEmpty() then EmptyTable else Normalised(t)
  }

  /**
   * The fetch never fails: an unparsable end date, a provider failure or an
   * empty answer gives the empty table; a non-empty answer comes back with
   * its rows, its columns and their values (bar the filled dividends and
   * splits), plus every required column and no missing dividend or split.
   */
  lemma FetchOutcomeShape(ticker: string, startText: string, endText: string,
                          parseEnd: string -> Option<CalendarDate>,
                          history: (string, string, CalendarDate) -> Option<WellFormedTable>)
    ensures var r := FetchOutcome(ticker, startText, endText, parseEnd, history);
      parseEnd(endText).None? ==> r == EmptyTable
    ensures parseEnd(endText).Some? ==>
      var r := FetchOutcome(ticker, startText, endText, parseEnd, history);
      var a := history(ticker, startText, NextDay(parseEnd(endText).value));
      && (a.None? || a.value.IsEmpty() ==> r == EmptyTable)
      && (a.Some? && !a.value.IsEmpty() ==>
            && !r.IsEmpty()
            && r.index == a.value.index
            && a.value.columns <= r.columns
            && (forall c :: c in a.value.cells && c != DividendsName && c != SplitsName ==>
                  c in r.cells && r.cells[c] == a.value.cells[c])
            && (forall c :: c in RequiredColumns ==> c in r.cells)
            && (forall i :: 0 <= i < |r.index| ==> r.cells[DividendsName][i].Some? && r.cells[SplitsName][i].Some?))
  {
    match parseEnd(endText)
    case None =>
    case Some(endDate) =>
      match history(ticker, startText, NextDay(endDate))
      case None =>
      case Some(t) =>
        if !t.IsEmpty() {
          NormalisedKeepsColumns(t);
          NormalisedFillsDividendsAndSplits(t);
          assert t.columns <= Normalised(t).columns;
        }
  }

  /** The provider is asked for data strictly before the day after the end date: the end date is included. */
  lemma ProviderBoundIncludesEnd(endDate: CalendarDate)
    ensures Before(endDate, NextDay(endDate))
    ensures forall d: CalendarDate :: Before(d, NextDay(endDate)) <==> AtOrBefore(d, endDate)
  {
    forall d: CalendarDate
      ensures Before(d, NextDay(endDate)) <==> AtOrBefore(d, endDate)
    {
      OrderIsOrdinalOrder(d, NextDay(endDate));
      OrderIsOrdinalOrder(d, endDate);
      NextDayOrdinal(endDate);
    }
  }

  /** The column loop and the dividend/split fill of the fetch, on the provider's frame, in place. */
  method Normalise(data: Frame)
    requires data.Valid()
    modifies data
    ensures data.Valid() && data.AsTable() == Normalised(old(data.AsTable()))
  {
    ghost var provided := data.AsTable();
    for k := 0 to |RequiredColumns|
      invariant data.Valid() && data.AsTable() == AddMissing(provided, RequiredColumns[..k])
    {
      var col := RequiredColumns[k];
      ghost var before := data.AsTable();
      if col !in data.cells {
        data.SetColumn(col, Constant(|data.index|, 0.0));
      }
      assert data.AsTable() == AddIfMissing(before, col);
      AddMissingStep(provided, RequiredColumns, k);
    }
    assert RequiredColumns[..|RequiredColumns|] == RequiredColumns;
    var dividends := FillMissing(data.cells[DividendsName], 0.0);
    var splits := FillMissing(data.cells[SplitsName], 0.0);
    data.SetColumn(DividendsName, dividends);
    data.SetColumn(SplitsName, splits);
  }

  /**
   * `fetch_equity_data` with the provider and the end-date parser as
   * parameters: the returned frame holds exactly `FetchOutcome`.
   */
  method FetchEquityData(ticker: string, startText: string, endText: string,
                         parseEnd: string -> Option<CalendarDate>,
                         history: (string, string, CalendarDate) -> Option<WellFormedTable>)
    returns (data: Frame)
    ensures data.Valid()
    ensures data.AsTable() == FetchOutcome(ticker, startText, endText, parseEnd, history)
  {
    var endDate := parseEnd(endText);
    if endDate.None? {
      data := new Frame.FromTable(EmptyTable);
      return;
    }
    var endInclusive := NextDay(endDate.value);
    var answer := history(ticker, startText, endInclusive);
    if answer.None? || answer.value.IsEmpty() {
      data := new Frame.FromTable(EmptyTable);
      return;
    }
    data := new Frame.FromTable(answer.value);
    Normalise(data);
  }
}
