# Equity analysis: return engine and date handling, in Dafny

This project models the computational core of a small equity-analysis web
tool. The tool fetches one ticker's daily price bars, derives daily price and
total returns, compounds them by calendar month, quarter and year, and
summarises them as performance metrics.

The model covers two source files:

- `returns_calculator.py`, the return engine:
  - per-row price return, dividend yield and total return, assigned as columns of the caller's frame in place;
  - calendar compounding into month-end, quarter-end and year-end buckets;
  - the metrics dictionary: total return, CAGR, volatility, Sharpe ratio, maximum drawdown and the two means;
  - the summary dictionary with the dividend count and sum.
- `data_fetcher.py`, the input side:
  - the date-range validation with its three error messages and their precedence;
  - the inclusive end bound (the calendar day after the end date);
  - the normalisation of the provider's frame: required columns added, missing dividends and splits set to 0.

All arithmetic is exact, over `real`. A missing (NaN) table cell is
`Option.None`. Modules, leaf first:

- `Options`: the `Option` datatype.
- `Calendar`: proleptic Gregorian dates, the successor day, and a day number as an independent reference.
- `Frames`: a date-indexed table of named columns (`Table`), and the mutable `Frame` class whose columns are assigned in place.
- `Compounding`: growth factor Π(1 + r) and sums.
- `DailyReturns`, `Aggregation`, `Performance`, `Summary`: the return engine.
- `DateValidation`, `DataFetcher`: the input side.

Square roots and fractional powers are uninterpreted functions passed in as a
`Performance.Numerics` value. The data provider, the date parsers and the
current date are parameters.

Two behaviours of the code shape the model:

- `returns_calculator.py:15` divides the dividend by the previous close without a guard. The model therefore requires every close to be present and positive.
- `resample(period).apply(...)` at `returns_calculator.py:30` emits every bin from the first row's to the last row's. A bin with no rows compounds to 0, and the model emits those buckets too.

## Model

| member | source | states |
|---|---|---|
| `DailyReturns.PriceReturns` | returns_calculator.py:14 | one cell per row; the first row has no price return, every later row has one |
| `DailyReturns.DividendYields` | returns_calculator.py:15 | the first row has no yield; a later row has one exactly when its dividend is present |
| `DailyReturns.TotalReturns` | returns_calculator.py:16 | a total return is present exactly where the price return is, because only the yield is filled with 0; with a non-negative yield it is at least the price return |
| `DailyReturns.RowParts` | returns_calculator.py:14-15 | for row t ≥ 1, close[t−1] × (1 + price return[t]) = close[t] and close[t−1] × yield[t] = dividend[t] (0 where the dividend is missing): the values `pct_change` and the shifted division produce |
| `DailyReturns.DailyTotalReturns` | returns_calculator.py:14-16 | the total-return column keeps the row count, is missing on row 0 and present on every later row |
| `DailyReturns.TotalReturnAt` | returns_calculator.py:14-16 | for row t ≥ 1, close[t−1] × (1 + total return[t]) = close[t] + dividend[t]; this is the meaning of price return plus yield on the previous close |
| `DailyReturns.WithDailyReturns` | returns_calculator.py:14-17 | the rows are kept; the three result columns hold the price returns, yields and total returns; every other column is kept unchanged; no other column is added; existing columns keep their order |
| `DailyReturns.DailyReturnsColumnOrder` | returns_calculator.py:14-16 | the existing columns keep their order, and each of the three result columns the frame lacked is appended after them in assignment order |
| `DailyReturns.CalculateDailyTotalReturn` | returns_calculator.py:4-17 | assigns the three columns into the caller's frame in place and returns that same frame, whose table is `WithDailyReturns` of the old one |
| `DailyReturns.DropMissingTotalReturns` | returns_calculator.py:101 | dropping the missing total returns removes exactly the first row and keeps every later row's return in order |
| `DailyReturns.TotalReturnsReachLastClose` | returns_calculator.py:14-16 | with non-negative dividends, the first close compounded by all daily total returns is at least the last close |
| `DailyReturns.TotalReturnsPriceOnly` | returns_calculator.py:14-16 | without dividends, the first close compounded by all daily total returns is exactly the last close |
| `DailyReturns.TotalReturnsAboveWipeout` | returns_calculator.py:14-16 | returns derived from positive closes and non-negative dividends all have 1 + r > 0 |
| `Aggregation.PeriodOfCode` | returns_calculator.py:25 | a recognised frequency code maps to the period whose code it is |
| `Aggregation.CodeRoundTrip` | returns_calculator.py:25 | parsing a period's code gives back the period |
| `Aggregation.BucketKey` | returns_calculator.py:30 | its own contract gives only a lower bound on the key; what a key means is stated by `LabelInBucket`, `BucketBounds` and `LabelOrder` |
| `Aggregation.BucketEnd` | returns_calculator.py:30 | no contract of its own; the label's meaning (the bucket's last day, ordered as the keys) is stated by `LabelInBucket`, `BucketBounds` and `LabelOrder` |
| `Aggregation.LabelInBucket` | returns_calculator.py:30 | a bucket's label (its last day) lies in that bucket |
| `Aggregation.BucketBounds` | returns_calculator.py:30 | a date is on or before its bucket's label and after the previous bucket's label |
| `Aggregation.LabelOrder` | returns_calculator.py:30 | bucket labels are ordered exactly as their bucket keys |
| `Aggregation.AggregatedReturns` | returns_calculator.py:19-30 | a result exactly for the codes "ME", "QE" and "YE", and then the aggregation over the period whose code it is |
| `Aggregation.Aggregate` | returns_calculator.py:30 | one entry per bucket from the first row's to the last row's; each is labelled by its bucket end and holds Π(1 + r) − 1 over the present returns dated in that bucket; an empty series gives no entries |
| `Aggregation.AggregateCoversRows` | returns_calculator.py:30 | every row's bucket appears in the output |
| `Aggregation.AggregateChronological` | returns_calculator.py:30 | buckets come out in strictly increasing date order |
| `Aggregation.EmptyBucketIsZero` | returns_calculator.py:30 | a bucket that no row falls in has compounded return 0 |
| `Aggregation.BucketReturnsAreMasked` | returns_calculator.py:30 | a bucket's returns are the series with the other buckets' rows masked out and the missing cells dropped |
| `Aggregation.AggregateCompounds` | returns_calculator.py:30 | Π over buckets of (1 + bucket return) equals Π over all present daily returns of (1 + r) |
| `Aggregation.Resample` | returns_calculator.py:30 | given every row's bucket key, one entry per key from the smallest to the largest, labelled by that bucket's last day and holding Π(1 + r) − 1 over the present returns of the rows with that key |
| `Aggregation.MinKeyOf` | returns_calculator.py:30 | the first bucket is the smallest key of the rows, and some row has it |
| `Aggregation.MaxKeyOf` | returns_calculator.py:30 | the last bucket is the largest key of the rows, and some row has it |
| `Aggregation.NoRowsNoReturns` | returns_calculator.py:30 | a range of buckets that no row falls in has no returns to compound |
| `Aggregation.AllRowsAllReturns` | returns_calculator.py:30 | a range of buckets that every row falls in has all the present returns, in row order |
| `Aggregation.EmptyKeyIsZero` | returns_calculator.py:30 | a key between the first and the last that no row has gets compounded return 0 |
| `Aggregation.SplitRange` | returns_calculator.py:30 | splitting a range of buckets at any key splits its growth factor into the product of the two parts' factors, whatever the order of the rows |
| `Aggregation.BucketsCompound` | returns_calculator.py:30 | compounding the compounded returns of n consecutive buckets gives the growth factor of every present return in them |
| `Aggregation.ResampleCompounds` | returns_calculator.py:30 | compounding the emitted returns gives the growth factor of all present returns: the grouping loses and adds nothing |
| `Compounding.GrowthAppend` | returns_calculator.py:55 | compounding two consecutive runs multiplies their growth factors |
| `Compounding.GrowthPositive` | returns_calculator.py:70 | if every 1 + r > 0, the growth factor is positive |
| `Compounding.GrowthAtLeastOne` | returns_calculator.py:70 | if every r ≥ 0, the growth factor is at least 1 |
| `Compounding.SumOfConstant` | returns_calculator.py:76 | a run of n equal values c sums to n × c |
| `Performance.PerformanceMetrics` | returns_calculator.py:32-88 | fewer than two returns give all seven metrics 0; otherwise 1 + total return = Π(1 + r), the arithmetic mean is Σr / n, the CAGR is Π(1 + r) raised to 252 / n, less 1 (the `num_years > 0` guard always passes), the volatility is the sample deviation times √252, the Sharpe ratio is `SharpeRatio`, the maximum drawdown is `MaxDrawdown` (the least running-peak drawdown), the geometric mean is the n-th root of Π(1 + r), less 1; the maximum drawdown lies in (−1, 0] when every 1 + r > 0 and is 0 when every r ≥ 0, and a constant series has Sharpe ratio 0 |
| `Performance.SampleVariance` | returns_calculator.py:63 | no contract of its own; `VarianceZeroIffAllEqual` states its meaning |
| `Performance.StdDev` | returns_calculator.py:63 | no contract of its own; through the `Numerics` square root, `SharpeGuardFires` and `ConstantReturnsNoVolatility` state when it is 0 |
| `Performance.SharpeRatio` | returns_calculator.py:66-67 | no contract of its own; `SharpeGuardFires` and `ConstantReturnsSharpeZero` state its guard |
| `Performance.VarianceZeroIffAllEqual` | returns_calculator.py:63 | the sample variance is non-negative, and it is 0 exactly when all values are equal |
| `Performance.SharpeGuardFires` | returns_calculator.py:66-67 | if the square root is 0 only at 0, the excess returns have zero deviation exactly when all returns are equal |
| `Performance.ConstantReturnsSharpeZero` | returns_calculator.py:66-67 | a constant return series gets Sharpe ratio 0 through the guard |
| `Performance.ConstantReturnsNoVolatility` | returns_calculator.py:63-67 | a constant return series has annualised volatility 0 and Sharpe ratio 0 |
| `Performance.Cumulative` | returns_calculator.py:70 | its own contract gives only the length; `CumulativeAt` states its values |
| `Performance.RunningPeak` | returns_calculator.py:71 | its own contract gives only the length; `PeakAt`, `PeakNonDecreasing` and `PeakOfNonDecreasing` state its values |
| `Performance.Drawdowns` | returns_calculator.py:72 | its own contract gives only the length, under the requirement that no peak is 0; `AboveWipeoutPeaksNonZero` says when that holds |
| `Performance.MaxDrawdown` | returns_calculator.py:73 | no contract of its own; `MinOf` states it is the least drawdown, attained, and `MaxDrawdownBounds` and `MaxDrawdownZeroWithoutLosses` bound it |
| `Performance.CumulativeAt` | returns_calculator.py:70 | the cumulative product at day t is the growth factor of days 0..t |
| `Performance.PeakAt` | returns_calculator.py:71 | the running peak at t is at least every cumulative value up to t, and equals one of them |
| `Performance.PeakNonDecreasing` | returns_calculator.py:71 | the running peak never falls |
| `Performance.PeakOfNonDecreasing` | returns_calculator.py:71 | the running peak of a non-decreasing series is the series itself |
| `Performance.MinOf` | returns_calculator.py:73 | the minimum is at most every entry and equals one of them |
| `Performance.AboveWipeoutPeaksNonZero` | returns_calculator.py:72 | if every 1 + r > 0, no running peak is 0, so every drawdown is defined |
| `Performance.MaxDrawdownBounds` | returns_calculator.py:70-73 | if every 1 + r > 0, the maximum drawdown lies in (−1, 0] |
| `Performance.MaxDrawdownZeroWithoutLosses` | returns_calculator.py:70-73 | if every r ≥ 0, the maximum drawdown is 0 |
| `Summary.DividendPayments` | returns_calculator.py:110 | the number of rows with a present, positive dividend: the size of the set of paying rows; hence at most the row count, 0 exactly when no row pays, all rows exactly when every row pays |
| `Summary.TotalDividends` | returns_calculator.py:111 | no contract of its own; `DividendTotalMatchesCount` states its sign and when it is 0 |
| `Summary.PresentReturns` | returns_calculator.py:101 | no contract of its own; `DerivedReturnsDefined` states that on derived returns it is every row's total return except the first, in row order |
| `Summary.DividendTotalMatchesCount` | returns_calculator.py:110-111 | with non-negative dividends, the dividend total is non-negative and is 0 exactly when the payment count is 0 |
| `Summary.SummaryStatistics` | returns_calculator.py:90-113 | seven entries under the fixed labels in the fixed order; the count and the total of dividends; all five metric figures 0 for fewer than two present returns; otherwise the total-return figure is (Π(1 + r) − 1) × 100, the CAGR figure is the metrics' CAGR × 100, the volatility figure is the sample deviation × √252 × 100, the Sharpe figure is `SharpeRatio` of the present returns, the drawdown figure is `MaxDrawdown` × 100, and it lies in (−100, 0] when every 1 + r > 0 |
| `Summary.DerivedReturnsDefined` | returns_calculator.py:101-102 | on a frame from `WithDailyReturns` over positive closes and non-negative dividends, the metrics are defined, they see every row's total return except the first, in row order, and every such return has 1 + r > 0 |
| `Summary.SummaryOfDerivedReturns` | returns_calculator.py:101-102 | on a frame from `WithDailyReturns` over positive closes and non-negative dividends, the metrics are defined; the drawdown figure lies in (−100, 0] for three rows or more; all five metric figures are 0 for fewer than three rows |
| `DateValidation.ValidateDates` | data_fetcher.py:42-67 | a format error exactly when either text fails to parse; an inverted-range error exactly when both parse and start > end, even if the dates are also in the future; a future-date error exactly when start ≤ end and end > today; success exactly when both parse, start ≤ end and end ≤ today |
| `Calendar.NextDay` | data_fetcher.py:21 | the successor day is strictly after the date, and no calendar date lies between them |
| `Calendar.NextDayOrdinal` | data_fetcher.py:21 | the successor's day number is one more, across month and year ends and leap days |
| `Calendar.OrderIsOrdinalOrder` | data_fetcher.py:59-62 | the date comparison is the comparison of day numbers |
| `DataFetcher.ProviderBoundIncludesEnd` | data_fetcher.py:21-22 | a date is before the provider's exclusive end bound exactly when it is on or before the end date |
| `DataFetcher.AddMissing` | data_fetcher.py:28-31 | every listed column is present; existing columns are untouched; each added column holds 0 in every row; existing columns keep their order |
| `DataFetcher.AddIfMissing` | data_fetcher.py:30-31 | a missing column is added holding 0 in every row; a present column is not replaced |
| `DataFetcher.FillDividendsAndSplits` | data_fetcher.py:33-34 | no contract of its own; `NormalisedFillsDividendsAndSplits` states its effect |
| `DataFetcher.Normalised` | data_fetcher.py:28-34 | no contract of its own; `NormalisedKeepsColumns` and `NormalisedFillsDividendsAndSplits` state its meaning |
| `DataFetcher.NormalisedKeepsColumns` | data_fetcher.py:28-34 | all seven required columns are present; a previously missing one holds 0; every other column the provider sent is unchanged; no column beyond the required ones is added |
| `DataFetcher.NormalisedFillsDividendsAndSplits` | data_fetcher.py:33-34 | dividends and splits have no missing cell; a missing cell becomes 0, not the previous value; present values are kept |
| `DataFetcher.Normalise` | data_fetcher.py:28-34 | the column loop and the fill, in place on the provider's frame, give `Normalised` of the old table |
| `DataFetcher.FetchOutcome` | data_fetcher.py:17-40 | its own contract gives only a well-formed table; what the outcome is in each case is stated by `FetchOutcomeShape` |
| `DataFetcher.FetchOutcomeShape` | data_fetcher.py:17-40 | an unparsable end date, a provider failure or an empty answer gives the empty table; a non-empty answer gives a non-empty table with the answer's rows, all its columns, its values in every column but dividends and splits, every required column, and no missing dividend or split |
| `DataFetcher.FetchEquityData` | data_fetcher.py:17-40 | the returned frame holds exactly `FetchOutcome` of the same inputs, so `FetchOutcomeShape` describes it |

## Left out

- The provider call `stock.history` (data_fetcher.py:19-22): network I/O in a foreign library. It is the `history` parameter, which is `None` where it raises.
- The error `print` (data_fetcher.py:39): console output only.
- `pd.to_datetime`, `strftime` and `strptime`: abstract parsers that yield a calendar date or fail. Their padding leniency and the library's year range are not modelled. The end bound is handed to the provider as a date, not re-formatted as text.
- `datetime.now()` (data_fetcher.py:57): the clock. It is the `today` parameter.
- `Performance.PerformanceMetrics`: CAGR, annualised volatility, the Sharpe magnitude and the geometric mean use square roots and fractional powers (returns_calculator.py:60, 63, 67, 77). These go through the uninterpreted `Numerics` functions: the contract states each in terms of them, but proves nothing about their size beyond the Sharpe zero guard.
- `Performance.PerformanceMetrics`: requires that no running peak of the cumulative growth is 0, since the source divides by it. NaN and infinity propagation are not modelled. Returns derived from positive closes and non-negative dividends always meet this requirement.
- `DailyReturns.PriceReturns`: requires every close to be present and positive, since the source divides by the previous close unguarded. The forward fill of missing closes done by `pct_change` is therefore never exercised.
- `Summary.SummaryStatistics`: the `:.2f` rendering of each figure to text (returns_calculator.py:105-111) is left out. The entries carry the numbers before rendering.
- `Aggregation.Aggregate`: buckets are keyed by (year, month), (year, quarter) or year, and labelled by their last day. Other resample frequencies and pandas' bin-edge options are not modelled.
- Floating-point rounding: all arithmetic is exact.
- `app.py`: the Gradio interface, event wiring, progress callbacks, file moving and the `analyze_equity` sequencing.
- `visualizations.py`: Plotly figure building. Its cumulative product duplicates `Performance.Cumulative`.
- `utils.py`: CSV export is file I/O, and the display-table constructor is a thin pandas call.
