/**
 * Seasonal patterns: closes grouped by calendar month across all years
 * (mean, minimum and maximum per month), and how far the latest close lies
 * from the mean of its month.
 */
module Seasonal {
  import opened Common
  import opened Frames

  /** One row of monthly_seasonal; the aggregates skip NaN and are NaN (None)
      when every close of the month is NaN. */
  datatype SeasonalRow = SeasonalRow(month: int, avgClose: Option<real>, minClose: Option<real>, maxClose: Option<real>)

  /** The result of current_vs_seasonal; `above` is whether the assessment
      reads "Above seasonal". A deviation that is NaN or infinite is None. */
  datatype Comparison = Comparison(currentPrice: Option<real>, seasonalAvg: Option<real>, deviationPct: Option<real>, above: bool)

  /** A DatetimeIndex holds calendar dates. */
  predicate DatedIndex(index: seq<Date>) {
    forall i :: 0 <= i < |index| ==> ValidDate(index[i])
  }

  /** Rows whose index date falls in calendar month m. */
  function InMonth(index: seq<Date>, m: int): (keep: seq<bool>)
    ensures |keep| == |index| && forall i :: 0 <= i < |index| ==> keep[i] == (index[i].month == m)
  {
    seq(|index|, i requires 0 <= i < |index| => index[i].month == m)
  }

  /** The closes of the rows in month m, whatever their year. */
  function MonthCloses(index: seq<Date>, close: Column, m: int): (g: Column)
    requires |close| == |index|
    ensures forall x :: x in g ==> x in close
  {
    Filter(close, InMonth(index, m))
  }

  /** The closes of month m are exactly the closes of the rows dated in month m. */
  lemma MonthClosesAre(index: seq<Date>, close: Column, m: int, x: Option<real>)
    requires |close| == |index|
    ensures x in MonthCloses(index, close, m) <==> exists i :: 0 <= i < |index| && index[i].month == m && close[i] == x
  {
    var keep := InMonth(index, m);
    FilterAt(close, keep);
    var g, pos := MonthCloses(index, close, m), KeptPositions(keep);
    if x in g {
      var k :| 0 <= k < |g| && g[k] == x;
      assert index[pos[k]].month == m && close[pos[k]] == x;
    }
    if i :| 0 <= i < |index| && index[i].month == m && close[i] == x {
      assert i in pos;
      var k :| 0 <= k < |pos| && pos[k] == i;
      assert g[k] == x;
    }
  }

  /** The groupby row of month m: mean, min and max of its closes. */
  function RowOf(index: seq<Date>, close: Column, m: int): SeasonalRow
    requires |close| == |index|
  {
    var g := MonthCloses(index, close, m);
    SeasonalRow(m, MeanSkipNa(g), MinSkipNa(g), MaxSkipNa(g))
  }

  /** The calendar months of the index dates (index.month). */
  function MonthsIn(index: seq<Date>): (ms: set<int>)
    ensures forall m :: m in ms <==> exists i :: 0 <= i < |index| && index[i].month == m
  {
    set i | 0 <= i < |index| :: index[i].month
  }

  /** The groupby rows for the months m..12 in `present`, in month order. */
  function RowsFrom(index: seq<Date>, close: Column, present: set<int>, m: int): (r: seq<SeasonalRow>)
    requires |close| == |index| && 1 <= m <= 13
    ensures forall k :: 0 <= k < |r| ==> m <= r[k].month <= 12
    decreases 13 - m
  {
    if m == 13 then []
    else if m in present then [RowOf(index, close, m)] + RowsFrom(index, close, present, m + 1)
    else RowsFrom(index, close, present, m + 1)
  }

  /** monthly_seasonal: empty for an empty frame or one without a Close
      column; otherwise one row per calendar month present, by month. */
  function MonthlySeasonal(f: Frame): (r: seq<SeasonalRow>)
    requires f.Valid()
    ensures f.Rows() == 0 || Close !in f.cols ==> r == []
  {
    if f.Rows() == 0 || Close !in f.cols then [] else RowsFrom(f.index, f.cols[Close], MonthsIn(f.index), 1)
  }

  /** Every row is the groupby row of a month in `present`. */
  predicate Grouped(r: seq<SeasonalRow>, index: seq<Date>, close: Column, present: set<int>)
    requires |close| == |index|
  {
    forall k :: 0 <= k < |r| ==> r[k] == RowOf(index, close, r[k].month) && r[k].month in present
  }

  /** The months of the rows rise strictly. */
  predicate MonthsRise(r: seq<SeasonalRow>) {
    forall k, l :: 0 <= k < l < |r| ==> r[k].month < r[l].month
  }

  lemma {:induction false} RowsFromGroups(index: seq<Date>, close: Column, present: set<int>, m: int)
    requires |close| == |index| && 1 <= m <= 13
    ensures Grouped(RowsFrom(index, close, present, m), index, close, present)
    decreases 13 - m
  {
    if m < 13 {
      RowsFromGroups(index, close, present, m + 1);
      var r, rest := RowsFrom(index, close, present, m), RowsFrom(index, close, present, m + 1);
      if m in present {
        assert r == [RowOf(index, close, m)] + rest;
        forall k | 0 < k < |r| ensures r[k] == rest[k - 1] {
        }
      }
    }
  }

  lemma {:induction false} RowsFromIncreasing(index: seq<Date>, close: Column, present: set<int>, m: int)
    requires |close| == |index| && 1 <= m <= 13
    ensures MonthsRise(RowsFrom(index, close, present, m))
    decreases 13 - m
  {
    if m < 13 {
      RowsFromIncreasing(index, close, present, m + 1);
      if m in present {
        ConsRise(RowOf(index, close, m), RowsFrom(index, close, present, m + 1));
      }
    }
  }

  /** A row for an earlier month put in front of rising rows keeps them rising. */
  lemma ConsRise(x: SeasonalRow, rest: seq<SeasonalRow>)
    requires MonthsRise(rest) && forall k :: 0 <= k < |rest| ==> x.month < rest[k].month
    ensures MonthsRise([x] + rest)
  {
    var r := [x] + rest;
    forall k, l | 0 <= k < l < |r| ensures r[k].month < r[l].month {
      assert r[l] == rest[l - 1];
      if k > 0 {
        assert r[k] == rest[k - 1];
      }
    }
  }

  /** Some row is for month q. */
  predicate HasRow(r: seq<SeasonalRow>, q: int) {
    exists k :: 0 <= k < |r| && r[k].month == q
  }

  /** A month from m on has a row in RowsFrom exactly when it is in `present`. */
  lemma {:induction false} RowsFromComplete(index: seq<Date>, close: Column, present: set<int>, m: int, q: int)
    requires |close| == |index| && 1 <= m <= q <= 12
    ensures HasRow(RowsFrom(index, close, present, m), q) <==> q in present
    decreases 13 - m
  {
    var r := RowsFrom(index, close, present, m);
    if q == m {
      if m in present {
        assert r[0].month == m;
      } else {
        forall k | 0 <= k < |r| ensures r[k].month != q {
        }
      }
    } else {
      RowsFromComplete(index, close, present, m + 1, q);
      var rest := RowsFrom(index, close, present, m + 1);
      if m in present {
        assert r == [RowOf(index, close, m)] + rest;
        if k :| 0 <= k < |r| && r[k].month == q {
          assert rest[k - 1].month == q;
        }
        if k :| 0 <= k < |rest| && rest[k].month == q {
          assert r[k + 1].month == q;
        }
      }
    }
  }

  /** monthly_seasonal on data with closes: exactly one row per calendar
      month present in the index, in increasing month order, each holding the
      aggregates of that month's closes over all years, with
      min_close <= avg_close <= max_close, all three NaN together. */
  lemma MonthlySeasonalRows(f: Frame)
    requires f.Valid() && DatedIndex(f.index) && f.Rows() > 0 && Close in f.cols
    ensures var r := MonthlySeasonal(f);
      && (forall k, l :: 0 <= k < l < |r| ==> r[k].month < r[l].month)
      && (forall q :: (exists k :: 0 <= k < |r| && r[k].month == q) <==> q in MonthsIn(f.index))
      && (forall k :: 0 <= k < |r| ==> r[k] == RowOf(f.index, f.cols[Close], r[k].month))
      && (forall k :: 0 <= k < |r| ==> r[k].avgClose.Some? == r[k].minClose.Some? == r[k].maxClose.Some?)
      && (forall k :: 0 <= k < |r| && r[k].avgClose.Some? ==>
            r[k].minClose.value <= r[k].avgClose.value <= r[k].maxClose.value)
      && 1 <= |r| <= 12
  {
    var close := f.cols[Close];
    var r := MonthlySeasonal(f);
    var present := MonthsIn(f.index);
    RowsFromGroups(f.index, close, present, 1);
    RowsFromIncreasing(f.index, close, present, 1);
    forall q ensures (exists k :: 0 <= k < |r| && r[k].month == q) <==> q in present {
      if q in present {
        var i :| 0 <= i < |f.index| && f.index[i].month == q;
        assert ValidDate(f.index[i]);
        RowsFromComplete(f.index, close, present, 1, q);
      }
    }
    forall k | 0 <= k < |r| ensures r[k].avgClose.Some? == r[k].minClose.Some? == r[k].maxClose.Some?
      && (r[k].avgClose.Some? ==> r[k].minClose.value <= r[k].avgClose.value <= r[k].maxClose.value)
    {
      MeanBetweenMinAndMax(MonthCloses(f.index, close, r[k].month));
    }
    assert f.index[0].month in MonthsOf(r) by {
      assert f.index[0].month in present;
      assert ValidDate(f.index[0]);
    }
    MonthsBound(r);
  }

  function MonthsOf(r: seq<SeasonalRow>): set<int> {
    set k | 0 <= k < |r| :: r[k].month
  }

  /** Rows with strictly increasing months in 1..12 number at most twelve. */
  lemma {:induction false} MonthsBound(r: seq<SeasonalRow>)
    requires forall k, l :: 0 <= k < l < |r| ==> r[k].month < r[l].month
    requires forall k :: 0 <= k < |r| ==> 1 <= r[k].month <= 12
    ensures |r| <= 12
  {
    if |r| > 0 {
      IncreasingMonths(r, |r| - 1);
    }
  }

  lemma {:induction false} IncreasingMonths(r: seq<SeasonalRow>, k: nat)
    requires forall a, b :: 0 <= a < b < |r| ==> r[a].month < r[b].month
    requires k < |r| && 1 <= r[0].month
    ensures r[k].month >= k + 1
  {
    if k > 0 {
      IncreasingMonths(r, k - 1);
    }
  }

  /** The row for month m, if there is one (seasonal[seasonal["month"] == m]). */
  function FindRow(r: seq<SeasonalRow>, m: int): (o: Option<SeasonalRow>)
    ensures o.Some? ==> o.value in r && o.value.month == m
    ensures o.None? ==> forall k :: 0 <= k < |r| ==> r[k].month != m
  {
    if r == [] then None
    else if r[0].month == m then Some(r[0])
    else FindRow(r[1..], m)
  }

  /** ((current - avg) / avg) * 100; None where the float result is NaN or infinite. */
  function DeviationPct(current: Option<real>, avg: Option<real>): (d: Option<real>)
    ensures d.Some? ==> current.Some? && avg.Some? && avg.value != 0.0
    ensures d.Some? ==> d.value * avg.value == (current.value - avg.value) * 100.0
  {
    if current.Some? && avg.Some? && avg.value != 0.0 then
      Some((current.value - avg.value) / avg.value * 100.0)
    else None
  }

  /** `deviation_pct > 0` under floating point: NaN compares false, and
      x / 0 is +inf exactly when x > 0. */
  function AboveSeasonal(current: Option<real>, avg: Option<real>): bool {
    match DeviationPct(current, avg)
    case Some(d) => d > 0.0
    case None => current.Some? && avg == Some(0.0) && current.value > 0.0
  }

  /** For a positive seasonal mean the assessment is "Above" exactly when the
      latest close exceeds the mean, and "Below" when it equals it; for a
      negative mean the sign is reversed. */
  lemma AboveMeansAboveAverage(current: real, avg: real)
    ensures avg > 0.0 ==> (AboveSeasonal(Some(current), Some(avg)) <==> current > avg)
    ensures avg < 0.0 ==> (AboveSeasonal(Some(current), Some(avg)) <==> current < avg)
    ensures current == avg ==> !AboveSeasonal(Some(current), Some(avg))
  {
    if avg != 0.0 {
      var d := DeviationPct(Some(current), Some(avg)).value;
      assert d * avg == (current - avg) * 100.0;
      if avg > 0.0 {
        SignOfQuotient(d, avg, current - avg);
      } else {
        SignOfQuotient(d, -avg, avg - current);
      }
    }
  }

  lemma SignOfQuotient(d: real, a: real, x: real)
    requires a > 0.0 && d * a == x * 100.0
    ensures d > 0.0 <==> x > 0.0
  {
    if d > 0.0 {
      assert d * a > 0.0;
    } else {
      assert d * a <= 0.0;
    }
  }

  /** current_vs_seasonal: nothing for an empty frame or one without a Close
      column; otherwise the latest close against the mean of its month. */
  function CurrentVsSeasonal(f: Frame): (r: Option<Comparison>)
    requires f.Valid()
    ensures r.Some? ==> f.Rows() > 0 && Close in f.cols
  {
    if f.Rows() == 0 || Close !in f.cols then None
    else
      var close := f.cols[Close];
      var current := close[|close| - 1];
      var seasonal := MonthlySeasonal(f);
      if seasonal == [] then None
      else match FindRow(seasonal, f.index[f.Rows() - 1].month)
        case None => None
        case Some(row) =>
          Some(Comparison(current, row.avgClose, DeviationPct(current, row.avgClose), AboveSeasonal(current, row.avgClose)))
  }

  /** On data with closes there is always a comparison (the latest bar's month
      has a row), against the NaN-skipping mean of the closes of that
      calendar month over all years; "Above" is decided by the sign of the
      deviation. */
  lemma CurrentVsSeasonalDefined(f: Frame)
    requires f.Valid() && DatedIndex(f.index)
    ensures CurrentVsSeasonal(f).None? <==> f.Rows() == 0 || Close !in f.cols
    ensures CurrentVsSeasonal(f).Some? ==>
      var c := CurrentVsSeasonal(f).value;
      var last := f.Rows() - 1;
      && c.currentPrice == f.cols[Close][last]
      && c.seasonalAvg == MeanSkipNa(MonthCloses(f.index, f.cols[Close], f.index[last].month))
      && c.deviationPct == DeviationPct(c.currentPrice, c.seasonalAvg)
      && (c.deviationPct.Some? ==> (c.above <==> c.deviationPct.value > 0.0))
  {
    if f.Rows() > 0 && Close in f.cols {
      var r := MonthlySeasonal(f);
      var m := f.index[f.Rows() - 1].month;
      MonthlySeasonalRows(f);
      assert m in MonthsIn(f.index);
      var k :| 0 <= k < |r| && r[k].month == m;
      assert FindRow(r, m).Some?;
      var row := FindRow(r, m).value;
      var j :| 0 <= j < |r| && r[j] == row;
    }
  }
}
