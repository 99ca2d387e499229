/**
 * Calendar compounding (`calculate_aggregated_returns`): daily returns are
 * grouped into calendar months, quarters or years, and each group is
 * compounded as Π(1 + r) − 1. A group is labelled by its last day, the way
 * the month-end, quarter-end and year-end frequencies label it; every group
 * from the first row's to the last row's is emitted, an empty one with
 * return 0, and missing returns are skipped by the product.
 */
module Aggregation {
  import opened Options
  import opened Calendar
  import opened Frames
  import opened Compounding

  /** The three frequencies the source is called with: "ME", "QE" and "YE". */
  datatype Period = MonthEnd | QuarterEnd | YearEnd

  function Code(p: Period): string {
    match p
    case MonthEnd => "ME"
    case QuarterEnd => "QE"
    case YearEnd => "YE"
  }

  /** The period a frequency code stands for; None for the codes this model does not cover. */
  function PeriodOfCode(code: string): (p: Option<Period>)
    ensures p.Some? ==> Code(p.value) == code
  {
    if code == "ME" then Some(MonthEnd)
    else if code == "QE" then Some(QuarterEnd)
    else if code == "YE" then Some(YearEnd)
    else None
  }

  lemma CodeRoundTrip(p: Period)
    ensures PeriodOfCode(Code(p)) == Some(p)
  {
    match p
    case MonthEnd =>
    case QuarterEnd =>
      assert Code(p)[0] == 'Q';
    case YearEnd =>
      assert Code(p)[0] == 'Y';
  }

  /** The key of the first bucket of year 1. */
  function FirstKey(p: Period): int {
    match p
    case MonthEnd => 12
    case QuarterEnd => 4
    case YearEnd => 1
  }

  /**
   * The bucket of a date as a number: months, quarters or years counted
   * from year 0, so that consecutive buckets have consecutive keys.
   */
  function BucketKey(p: Period, d: CalendarDate): (k: int)
    ensures k >= FirstKey(p)
  {
    match p
    case MonthEnd => d.year * 12 + (d.month - 1)
    case QuarterEnd => d.year * 4 + (d.month - 1) / 3
    case YearEnd => d.year
  }

  /** The last day of bucket `k`, which is the label the bucket gets. */
  function BucketEnd(p: Period, k: int): CalendarDate
    requires k >= FirstKey(p)
  {
    match p
    case MonthEnd =>
      var y := k / 12;
      var m := k % 12 + 1;
      Date(y, m, DaysInMonth(y, m))
    case QuarterEnd =>
      var y := k / 4;
      var m := 3 * (k % 4) + 3;
      Date(y, m, DaysInMonth(y, m))
    case YearEnd =>
      Date(k, 12, 31)
  }

  /** The label of a bucket lies in that bucket. */
  lemma LabelInBucket(p: Period, k: int)
    requires k >= FirstKey(p)
    ensures BucketKey(p, BucketEnd(p, k)) == k
  {
  }

  /**
   * A date's bucket is the interval from just after the previous bucket's
   * label up to and including its own label.
   */
  lemma BucketBounds(p: Period, d: CalendarDate)
    ensures AtOrBefore(d, BucketEnd(p, BucketKey(p, d)))
    ensures BucketKey(p, d) > FirstKey(p) ==> Before(BucketEnd(p, BucketKey(p, d) - 1), d)
  {
  }

  /** Later dates never fall in earlier buckets. */
  lemma KeyMonotone(p: Period, a: CalendarDate, b: CalendarDate)
    requires AtOrBefore(a, b)
    ensures BucketKey(p, a) <= BucketKey(p, b)
  {
  }

  /** Labels are in the order of their keys, so emitting keys in order is chronological. */
  lemma LabelOrder(p: Period, k1: int, k2: int)
    requires k1 >= FirstKey(p) && k2 >= FirstKey(p)
    ensures Before(BucketEnd(p, k1), BucketEnd(p, k2)) <==> k1 < k2
  {
    LabelInBucket(p, k1);
    LabelInBucket(p, k2);
    if Before(BucketEnd(p, k1), BucketEnd(p, k2)) {
      KeyMonotone(p, BucketEnd(p, k1), BucketEnd(p, k2));
    }
  }

  /** A series of daily returns indexed by date; a missing return is NaN. */
  datatype Series = Series(index: seq<CalendarDate>, values: Column) {
    predicate WellFormed() {
      |index| == |values|
    }
  }

  /** One emitted bucket: its label and its compounded return. */
  datatype PeriodReturn = PeriodReturn(periodEnd: CalendarDate, ret: real)

  /** The bucket key of every row. */
  function Keys(p: Period, index: seq<CalendarDate>): (keys: seq<int>)
    ensures |keys| == |index|
    ensures forall i :: 0 <= i < |index| ==> keys[i] == BucketKey(p, index[i]) >= FirstKey(p)
  {
    seq(|index|, i requires 0 <= i < |index| => BucketKey(p, index[i]))
  }

  /** The present returns of the rows whose bucket key lies in [lo, hi), in row order. */
  function RangeReturns(keys: seq<int>, values: Column, lo: int, hi: int): (r: seq<real>)
    requires |keys| == |values|
    ensures |r| <= |keys|
    decreases |keys|
  {
    if keys == [] then []
    else
      var n := |keys| - 1;
      var rest := RangeReturns(keys[..n], values[..n], lo, hi);
      if lo <= keys[n] < hi && values[n].Some? then rest + [values[n].value] else rest
  }

  /** The present returns of the rows in bucket `k`, in row order. */
  function BucketReturns(keys: seq<int>, values: Column, k: int): seq<real>
    requires |keys| == |values|
  {
    RangeReturns(keys, values, k, k + 1)
  }

  /** The rows of bucket `k` kept, every other row masked as missing. */
  function InBucket(keys: seq<int>, values: Column, k: int): (r: Column)
    requires |keys| == |values|
    ensures |r| == |values|
  {
    seq(|values|, i requires 0 <= i < |values| => if keys[i] == k then values[i] else None)
  }

  /** The returns of a bucket are the masked column with its missing cells dropped. */
  lemma {:induction false} BucketReturnsAreMasked(keys: seq<int>, values: Column, k: int)
    requires |keys| == |values|
    ensures BucketReturns(keys, values, k) == DropMissing(InBucket(keys, values, k))
    decreases |keys|
  {
    if keys != [] {
      var n := |keys| - 1;
      BucketReturnsAreMasked(keys[..n], values[..n], k);
      var masked := InBucket(keys, values, k);
      assert masked[..n] == InBucket(keys[..n], values[..n], k);
    }
  }

  /** A range of keys no row falls in has no returns. */
  lemma {:induction false} NoRowsNoReturns(keys: seq<int>, values: Column, lo: int, hi: int)
    requires |keys| == |values|
    requires forall i :: 0 <= i < |keys| ==> !(lo <= keys[i] < hi)
    ensures RangeReturns(keys, values, lo, hi) == []
    decreases |keys|
  {
    if keys != [] {
      NoRowsNoReturns(keys[..|keys| - 1], values[..|keys| - 1], lo, hi);
    }
  }

  /** A range of keys every row falls in has all the present returns. */
  lemma {:induction false} AllRowsAllReturns(keys: seq<int>, values: Column, lo: int, hi: int)
    requires |keys| == |values|
    requires forall i :: 0 <= i < |keys| ==> lo <= keys[i] < hi
    ensures RangeReturns(keys, values, lo, hi) == DropMissing(values)
    decreases |keys|
  {
    if keys != [] {
      AllRowsAllReturns(keys[..|keys| - 1], values[..|keys| - 1], lo, hi);
    }
  }

  /** The smallest of the first `n` keys, which one of them has. */
  function MinKeyOf(keys: seq<int>, n: int): (k: int)
    requires 0 < n <= |keys|
    ensures exists i :: 0 <= i < n && keys[i] == k
    ensures forall i :: 0 <= i < n ==> k <= keys[i]
  {
    if n == 1 then keys[0]
    else
      var rest := MinKeyOf(keys, n - 1);
      if keys[n - 1] < rest then keys[n - 1] else rest
  }

  /** The largest of the first `n` keys, which one of them has. */
  function MaxKeyOf(keys: seq<int>, n: int): (k: int)
    requires 0 < n <= |keys|
    ensures exists i :: 0 <= i < n && keys[i] == k
    ensures forall i :: 0 <= i < n ==> keys[i] <= k
  {
    if n == 1 then keys[0]
    else
      var rest := MaxKeyOf(keys, n - 1);
      if keys[n - 1] > rest then keys[n - 1] else rest
  }

  /** The first row's bucket: the smallest key. */
  function MinKey(keys: seq<int>): int
    requires |keys| > 0
  {
    MinKeyOf(keys, |keys|)
  }

  /** The last row's bucket: the largest key. */
  function MaxKey(keys: seq<int>): int
    requires |keys| > 0
  {
    MaxKeyOf(keys, |keys|)
  }

  /** The compounded return of each of the `n` buckets from key `lo` on. */
  function BucketCompounded(keys: seq<int>, values: Column, lo: int, n: nat): (r: seq<real>)
    requires |keys| == |values|
    ensures |r| == n
    ensures forall j :: 0 <= j < n ==> r[j] == Compounded(BucketReturns(keys, values, lo + j))
  {
    seq(n, j => Compounded(BucketReturns(keys, values, lo + j)))
  }

  /** The buckets from key `lo` on, each labelled by its last day, with the given returns. */
  function Labelled(p: Period, lo: int, rets: seq<real>): (r: seq<PeriodReturn>)
    requires lo >= FirstKey(p)
    ensures |r| == |rets|
    ensures forall j :: 0 <= j < |r| ==> r[j].periodEnd == BucketEnd(p, lo + j) && r[j].ret == rets[j]
  {
    seq(|rets|, j requires 0 <= j < |rets| => PeriodReturn(BucketEnd(p, lo + j), rets[j]))
  }

  /**
   * The grouping once every row's bucket key is known: one compounded return
   * per key from the smallest to the largest, each labelled by its bucket's
   * last day.
   */
  function Resample(p: Period, keys: seq<int>, values: Column): (r: seq<PeriodReturn>)
    requires |keys| == |values| > 0 && forall i :: 0 <= i < |keys| ==> keys[i] >= FirstKey(p)
    ensures |r| == MaxKey(keys) - MinKey(keys) + 1
    ensures forall j :: 0 <= j < |r| ==> r[j].periodEnd == BucketEnd(p, MinKey(keys) + j)
    ensures forall j :: 0 <= j < |r| ==> r[j].ret == Compounded(BucketReturns(keys, values, MinKey(keys) + j))
  {
    var lo := MinKey(keys);
    Labelled(p, lo, BucketCompounded(keys, values, lo, MaxKey(keys) - lo + 1))
  }

  /**
   * `daily_returns.resample(period).apply(lambda x: (1 + x).prod() - 1)`:
   * one entry per bucket from the first row's bucket to the last row's, in
   * key order, each labelled by its last day and holding its compounded return.
   */
  function Aggregate(p: Period, s: Series): (r: seq<PeriodReturn>)
    requires s.WellFormed()
    ensures |s.index| == 0 ==> r == []
    ensures |s.index| > 0 ==>
      var keys := Keys(p, s.index);
      && |r| == MaxKey(keys) - MinKey(keys) + 1
      && (forall j :: 0 <= j < |r| ==> r[j].periodEnd == BucketEnd(p, MinKey(keys) + j))
      && (forall j :: 0 <= j < |r| ==> r[j].ret == Compounded(BucketReturns(keys, s.values, MinKey(keys) + j)))
  {
    if |s.index| == 0 then []
    else
      Resample(p, Keys(p, s.index), s.values)
  }

  /**
   * `calculate_aggregated_returns(daily_returns, period)` with the frequency
   * given by its code; None for a code this model does not cover.
   */
  function AggregatedReturns(s: Series, code: string): (r: Option<seq<PeriodReturn>>)
    requires s.WellFormed()
    ensures r.Some? <==> code == "ME" || code == "QE" || code == "YE"
    ensures r.Some? ==> exists p :: Code(p) == code && r.value == Aggregate(p, s)
  {
    match PeriodOfCode(code)
    case None => None
    case Some(p) => Some(Aggregate(p, s))
  }

  function Returns(r: seq<PeriodReturn>): (rs: seq<real>)
    ensures |rs| == |r| && forall j :: 0 <= j < |r| ==> rs[j] == r[j].ret
  {
    seq(|r|, j requires 0 <= j < |r| => r[j].ret)
  }

  /** Every row's bucket is emitted. */
  lemma AggregateCoversRows(p: Period, s: Series, i: int)
    requires s.WellFormed() && 0 <= i < |s.index|
    ensures var r := Aggregate(p, s);
      exists j :: 0 <= j < |r| && r[j].periodEnd == BucketEnd(p, BucketKey(p, s.index[i]))
  {
    var r := Aggregate(p, s);
    var j := BucketKey(p, s.index[i]) - MinKey(Keys(p, s.index));
    assert r[j].periodEnd == BucketEnd(p, BucketKey(p, s.index[i]));
  }

  /** The buckets come out in chronological order of their labels. */
  lemma AggregateChronological(p: Period, s: Series)
    requires s.WellFormed()
    ensures var r := Aggregate(p, s);
      forall j1, j2 :: 0 <= j1 < j2 < |r| ==> Before(r[j1].periodEnd, r[j2].periodEnd)
  {
    var r := Aggregate(p, s);
    forall j1, j2 | 0 <= j1 < j2 < |r|
      ensures Before(r[j1].periodEnd, r[j2].periodEnd)
    {
      var lo := MinKey(Keys(p, s.index));
      LabelOrder(p, lo + j1, lo + j2);
    }
  }

  /** A key no row has gets a compounded return of 0. */
  lemma EmptyKeyIsZero(p: Period, keys: seq<int>, values: Column, j: int)
    requires |keys| == |values| > 0 && forall i :: 0 <= i < |keys| ==> keys[i] >= FirstKey(p)
    requires 0 <= j < |Resample(p, keys, values)|
    requires forall i :: 0 <= i < |keys| ==> keys[i] != MinKey(keys) + j
    ensures Resample(p, keys, values)[j].ret == 0.0
  {
    NoRowsNoReturns(keys, values, MinKey(keys) + j, MinKey(keys) + j + 1);
  }

  /** A bucket no row falls in contributes a return of 0. */
  lemma EmptyBucketIsZero(p: Period, s: Series, j: int)
    requires s.WellFormed() && 0 <= j < |Aggregate(p, s)|
    requires forall i :: 0 <= i < |s.index| ==> BucketKey(p, s.index[i]) != MinKey(Keys(p, s.index)) + j
    ensures Aggregate(p, s)[j].ret == 0.0
  {
    assert |s.index| > 0;
    EmptyKeyIsZero(p, Keys(p, s.index), s.values, j);
  }

  /** A last row in [lo, hi) with a present return `x` grows the range's factor by (1 + x). */
  lemma RangeGrows(keys: seq<int>, values: Column, lo: int, hi: int, x: real)
    requires |keys| == |values| > 0
    requires lo <= keys[|keys| - 1] < hi && values[|keys| - 1] == Some(x)
    ensures Growth(RangeReturns(keys, values, lo, hi))
         == Times(Growth(RangeReturns(keys[..|keys| - 1], values[..|keys| - 1], lo, hi)), 1.0 + x)
  {
    assert RangeReturns(keys, values, lo, hi) == RangeReturns(keys[..|keys| - 1], values[..|keys| - 1], lo, hi) + [x];
    GrowthSnoc(RangeReturns(keys[..|keys| - 1], values[..|keys| - 1], lo, hi), x);
  }

  /** A last row outside [lo, hi), or with a missing return, leaves the range's returns alone. */
  lemma RangeSkips(keys: seq<int>, values: Column, lo: int, hi: int)
    requires |keys| == |values| > 0
    requires !(lo <= keys[|keys| - 1] < hi) || values[|keys| - 1].None?
    ensures RangeReturns(keys, values, lo, hi) == RangeReturns(keys[..|keys| - 1], values[..|keys| - 1], lo, hi)
  {
  }

  /** The factor arithmetic of a return that joins the lower part of a split range. */
  lemma JoinLower(total: real, lower: real, upper: real, x: real, total': real, lower': real, upper': real)
    requires total == Times(lower, upper) && total' == Times(total, 1.0 + x)
    requires lower' == Times(lower, 1.0 + x) && upper' == upper
    ensures total' == Times(lower', upper')
  {
    Regroup(lower, upper, 1.0 + x);
    Regroup(lower, 1.0 + x, upper);
  }

  /** The factor arithmetic of a return that joins the upper part of a split range. */
  lemma JoinUpper(total: real, lower: real, upper: real, x: real, total': real, lower': real, upper': real)
    requires total == Times(lower, upper) && total' == Times(total, 1.0 + x)
    requires lower' == lower && upper' == Times(upper, 1.0 + x)
    ensures total' == Times(lower', upper')
  {
    Regroup(lower, upper, 1.0 + x);
  }

  /**
   * Splitting a range of keys at `mid` splits its compounded factor into the
   * product of the two parts' factors, whatever the order of the rows.
   */
  lemma {:induction false} SplitRange(keys: seq<int>, values: Column, lo: int, mid: int, hi: int)
    requires |keys| == |values| && lo <= mid <= hi
    ensures Growth(RangeReturns(keys, values, lo, hi))
         == Times(Growth(RangeReturns(keys, values, lo, mid)), Growth(RangeReturns(keys, values, mid, hi)))
    decreases |keys|
  {
    if keys != [] {
      SplitRange(keys[..|keys| - 1], values[..|keys| - 1], lo, mid, hi);
      if lo <= keys[|keys| - 1] < hi && values[|keys| - 1].Some? {
        var x := values[|keys| - 1].value;
        RangeGrows(keys, values, lo, hi, x);
        if keys[|keys| - 1] < mid {
          RangeGrows(keys, values, lo, mid, x);
          RangeSkips(keys, values, mid, hi);
          JoinLower(Growth(RangeReturns(keys[..|keys| - 1], values[..|keys| - 1], lo, hi)),
                    Growth(RangeReturns(keys[..|keys| - 1], values[..|keys| - 1], lo, mid)),
                    Growth(RangeReturns(keys[..|keys| - 1], values[..|keys| - 1], mid, hi)), x,
                    Growth(RangeReturns(keys, values, lo, hi)),
                    Growth(RangeReturns(keys, values, lo, mid)),
                    Growth(RangeReturns(keys, values, mid, hi)));
        } else {
          RangeSkips(keys, values, lo, mid);
          RangeGrows(keys, values, mid, hi, x);
          JoinUpper(Growth(RangeReturns(keys[..|keys| - 1], values[..|keys| - 1], lo, hi)),
                    Growth(RangeReturns(keys[..|keys| - 1], values[..|keys| - 1], lo, mid)),
                    Growth(RangeReturns(keys[..|keys| - 1], values[..|keys| - 1], mid, hi)), x,
                    Growth(RangeReturns(keys, values, lo, hi)),
                    Growth(RangeReturns(keys, values, lo, mid)),
                    Growth(RangeReturns(keys, values, mid, hi)));
        }
      } else {
        RangeSkips(keys, values, lo, hi);
        RangeSkips(keys, values, lo, mid);
        RangeSkips(keys, values, mid, hi);
      }
    }
  }

  /** The factor arithmetic of appending a compounded return `c` whose bucket's factor is `g`. */
  lemma FactorOfCompounded(t: real, a: real, c: real, g: real)
    requires t == Times(a, 1.0 + c) && c == g - 1.0
    ensures t == Times(a, g)
  {
  }

  /** One more bucket multiplies the product over the buckets by that bucket's factor. */
  lemma BucketCompoundedSnoc(keys: seq<int>, values: Column, lo: int, n: nat)
    requires |keys| == |values| && n > 0
    ensures Growth(BucketCompounded(keys, values, lo, n))
         == Times(Growth(BucketCompounded(keys, values, lo, n - 1)), Growth(BucketReturns(keys, values, lo + (n - 1))))
  {
    assert BucketCompounded(keys, values, lo, n)
        == BucketCompounded(keys, values, lo, n - 1) + [Compounded(BucketReturns(keys, values, lo + (n - 1)))];
    GrowthSnoc(BucketCompounded(keys, values, lo, n - 1), Compounded(BucketReturns(keys, values, lo + (n - 1))));
    FactorOfCompounded(Growth(BucketCompounded(keys, values, lo, n)), Growth(BucketCompounded(keys, values, lo, n - 1)),
                       Compounded(BucketReturns(keys, values, lo + (n - 1))), Growth(BucketReturns(keys, values, lo + (n - 1))));
  }

  /**
   * Compounding the compounded returns of the `n` buckets from `lo` on gives
   * the compounded return of every row in those buckets.
   */
  lemma {:induction false} BucketsCompound(keys: seq<int>, values: Column, lo: int, n: nat)
    requires |keys| == |values|
    ensures Growth(BucketCompounded(keys, values, lo, n)) == Growth(RangeReturns(keys, values, lo, lo + n))
    decreases n
  {
    if n == 0 {
      assert Growth(RangeReturns(keys, values, lo, lo + n)) == 1.0 by {
        NoRowsNoReturns(keys, values, lo, lo + n);
      }
      assert Growth(BucketCompounded(keys, values, lo, n)) == 1.0 by {
        assert BucketCompounded(keys, values, lo, n) == [];
      }
    } else {
      var mid := lo + (n - 1);
      assert Growth(BucketCompounded(keys, values, lo, n - 1)) == Growth(RangeReturns(keys, values, lo, mid)) by {
        BucketsCompound(keys, values, lo, n - 1);
      }
      assert Growth(BucketCompounded(keys, values, lo, n))
          == Times(Growth(BucketCompounded(keys, values, lo, n - 1)), Growth(RangeReturns(keys, values, mid, lo + n))) by {
        BucketCompoundedSnoc(keys, values, lo, n);
      }
      SplitRange(keys, values, lo, mid, lo + n);
    }
  }

  /** The returns `Resample` emits are the compounded returns of its buckets, in key order. */
  lemma ResampleReturns(p: Period, keys: seq<int>, values: Column)
    requires |keys| == |values| > 0 && forall i :: 0 <= i < |keys| ==> keys[i] >= FirstKey(p)
    ensures Returns(Resample(p, keys, values))
         == BucketCompounded(keys, values, MinKey(keys), MaxKey(keys) - MinKey(keys) + 1)
  {
  }

  /** Compounding the returns `Resample` emits compounds every present return once. */
  lemma ResampleCompounds(p: Period, keys: seq<int>, values: Column)
    requires |keys| == |values| > 0 && forall i :: 0 <= i < |keys| ==> keys[i] >= FirstKey(p)
    ensures Growth(Returns(Resample(p, keys, values))) == Growth(DropMissing(values))
  {
    var lo := MinKey(keys);
    var n := MaxKey(keys) - lo + 1;
    ResampleReturns(p, keys, values);
    BucketsCompound(keys, values, lo, n);
    AllRowsAllReturns(keys, values, lo, lo + n);
  }

  /**
   * Π over the emitted buckets of (1 + bucket return) equals Π over all days
   * of (1 + daily return): calendar compounding loses and adds nothing.
   */
  lemma AggregateCompounds(p: Period, s: Series)
    requires s.WellFormed()
    ensures Growth(Returns(Aggregate(p, s))) == Growth(DropMissing(s.values))
  {
    if |s.index| == 0 {
      assert s.values == [];
    } else {
      ResampleCompounds(p, Keys(p, s.index), s.values);
    }
  }
}
