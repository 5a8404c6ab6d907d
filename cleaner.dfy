/**
 * Cleaning of raw tables before they are stored: OHLCV frames lose the rows
 * in which every price is missing and are forward-filled; FRED series are
 * sorted, filled and stripped of their leading gap; the forward-curve,
 * PSD, World Bank and export-sales tables are filtered and sorted.
 */
module Cleaner {
  import opened Common
  import opened Frames

  // ---------------------------------------------------------------------
  // clean_ohlcv
  // ---------------------------------------------------------------------

  /** Column c exists and has a value in row i. */
  predicate DefinedIn(f: Frame, c: Col, i: nat)
    requires f.Valid() && i < f.Rows()
  {
    c in f.cols && f.cols[c][i].Some?
  }

  /** Row i has a value in at least one of the OHLC columns present; with
      none of them present no row qualifies. */
  predicate RowHasPrice(f: Frame, i: nat)
    requires f.Valid() && i < f.Rows()
  {
    DefinedIn(f, Open, i) || DefinedIn(f, High, i) || DefinedIn(f, Low, i) || DefinedIn(f, Close, i)
  }

  /** dropna(subset=present, how="all") as a row mask. */
  function PriceMask(f: Frame): (keep: seq<bool>)
    requires f.Valid()
    ensures |keep| == f.Rows() && forall i :: 0 <= i < f.Rows() ==> keep[i] == RowHasPrice(f, i)
  {
    seq(f.Rows(), i requires 0 <= i < f.Rows() => RowHasPrice(f, i))
  }

  /** The rows of `f` selected by `keep`, every column alike. */
  function KeepRows(f: Frame, keep: seq<bool>): (r: Frame)
    requires f.Valid() && |keep| == f.Rows()
    ensures r.Valid() && r.cols.Keys == f.cols.Keys && r.Rows() == |KeptPositions(keep)|
  {
    FilterAt(f.index, keep);
    var cols := map c | c in f.cols :: Filter(f.cols[c], keep);
    assert forall c :: c in cols ==> |cols[c]| == |Filter(f.index, keep)| by {
      forall c | c in cols ensures |cols[c]| == |Filter(f.index, keep)| {
        FilterAt(f.cols[c], keep);
      }
    }
    Frame(Filter(f.index, keep), cols)
  }

  /** df.ffill(): every column forward-filled. */
  function FfillFrame(f: Frame): (r: Frame)
    requires f.Valid()
    ensures r.Valid() && r.index == f.index && r.cols.Keys == f.cols.Keys
  {
    Frame(f.index, map c | c in f.cols :: Ffill(f.cols[c]))
  }

  /** DataFrame.empty: no rows, or no columns. */
  predicate EmptyFrame(f: Frame) {
    |f.index| == 0 || f.cols == map[]
  }

  /** clean_ohlcv: an empty frame (no rows or no columns) is returned as it
      is; otherwise the rows without any OHLC value are dropped and the rest
      forward-filled. */
  function CleanOhlcv(f: Frame): (r: Frame)
    requires f.Valid()
    ensures r.Valid() && r.cols.Keys == f.cols.Keys
    ensures EmptyFrame(f) ==> r == f
    ensures !EmptyFrame(f) ==> r.Rows() == |KeptPositions(PriceMask(f))|
  {
    if EmptyFrame(f) then f else FfillFrame(KeepRows(f, PriceMask(f)))
  }

  /** The rows of clean_ohlcv are the rows of the input that have an OHLC
      value, in their order. */
  lemma CleanOhlcvKeptRows(f: Frame)
    requires f.Valid() && !EmptyFrame(f)
    ensures |CleanOhlcv(f).index| == |KeptPositions(PriceMask(f))|
    ensures forall k :: 0 <= k < |KeptPositions(PriceMask(f))| ==>
      CleanOhlcv(f).index[k] == f.index[KeptPositions(PriceMask(f))[k]] && RowHasPrice(f, KeptPositions(PriceMask(f))[k])
    ensures forall i :: 0 <= i < f.Rows() && RowHasPrice(f, i) ==> i in KeptPositions(PriceMask(f))
  {
    FilterAt(f.index, PriceMask(f));
  }

  /** Column c of clean_ohlcv is the forward fill of its kept entries: a
      kept value is unchanged, and a gap remains only before the first
      value of the column. */
  lemma CleanOhlcvColumn(f: Frame, c: Col)
    requires f.Valid() && !EmptyFrame(f) && c in f.cols
    ensures var pos := KeptPositions(PriceMask(f));
      forall k :: 0 <= k < |pos| ==>
        && (f.cols[c][pos[k]].Some? ==> CleanOhlcv(f).cols[c][k] == f.cols[c][pos[k]])
        && (CleanOhlcv(f).cols[c][k].None? <==> forall j :: 0 <= j <= k ==> f.cols[c][pos[j]].None?)
  {
    var keep := PriceMask(f);
    var pos := KeptPositions(keep);
    var d := KeepRows(f, keep).cols[c];
    FilterAt(f.index, keep);
    FilterAt(f.cols[c], keep);
    FfillProperties(d);
  }

  /** Every row of clean_ohlcv has an OHLC value, unless the frame has no
      columns at all and is returned as it is. */
  lemma CleanOhlcvHasPrice(f: Frame, k: nat)
    requires f.Valid() && k < CleanOhlcv(f).Rows()
    ensures f.cols != map[] ==> RowHasPrice(CleanOhlcv(f), k)
  {
    if !EmptyFrame(f) {
      var pos := KeptPositions(PriceMask(f));
      CleanOhlcvKeptRows(f);
      var i := pos[k];
      var r := CleanOhlcv(f);
      forall c | c in f.cols && f.cols[c][i].Some? ensures DefinedIn(r, c, k) {
        CleanOhlcvColumn(f, c);
      }
    }
  }

  // ---------------------------------------------------------------------
  // The longest run of missing values (max_gap)
  // ---------------------------------------------------------------------

  /** The number of missing values at the end of c. */
  function TrailingGap(c: Column): (n: nat)
    ensures n <= |c|
  {
    if c == [] || c[|c| - 1].Some? then 0 else TrailingGap(c[..|c| - 1]) + 1
  }

  /** max_gap: the largest group sum of is_nan over the runs of equal
      is_nan values, i.e. the longest run of consecutive missing values. */
  function MaxGap(c: Column): (n: nat)
    ensures n <= |c|
  {
    if c == [] then 0
    else
      var p := MaxGap(c[..|c| - 1]);
      if TrailingGap(c) > p then TrailingGap(c) else p
  }

  predicate AllMissing(c: Column, i: nat, j: nat)
    requires i <= j <= |c|
  {
    forall k :: i <= k < j ==> c[k].None?
  }

  /** c has n missing values in a row from position i. */
  predicate RunAt(c: Column, i: int, n: nat) {
    0 <= i && i + n <= |c| && AllMissing(c, i, i + n)
  }

  lemma {:induction false} TrailingGapIsRun(c: Column)
    ensures AllMissing(c, |c| - TrailingGap(c), |c|)
    ensures forall i :: 0 <= i <= |c| && AllMissing(c, i, |c|) ==> |c| - i <= TrailingGap(c)
  {
    if c != [] && c[|c| - 1].None? {
      var p := c[..|c| - 1];
      TrailingGapIsRun(p);
      forall i | 0 <= i <= |c| && AllMissing(c, i, |c|) ensures |c| - i <= TrailingGap(c) {
        if i < |c| {
          assert AllMissing(p, i, |p|);
        }
      }
    }
  }

  /** The longest gap occurs in c, and no run of missing values is longer. */
  lemma {:induction false} MaxGapIsLongestRun(c: Column)
    ensures exists i :: RunAt(c, i, MaxGap(c))
    ensures forall i, j :: 0 <= i <= j <= |c| && AllMissing(c, i, j) ==> j - i <= MaxGap(c)
    ensures MaxGap(c) == 0 <==> AllDefined(c)
  {
    if c == [] {
      assert MaxGap(c) == 0;
      assert RunAt(c, 0, MaxGap(c));
    } else {
      var p := c[..|c| - 1];
      MaxGapIsLongestRun(p);
      TrailingGapIsRun(c);
      if TrailingGap(c) > MaxGap(p) {
        assert RunAt(c, |c| - MaxGap(c), MaxGap(c));
      } else {
        var i :| RunAt(p, i, MaxGap(p));
        assert RunAt(c, i, MaxGap(c));
      }
      forall i, j | 0 <= i <= j <= |c| && AllMissing(c, i, j) ensures j - i <= MaxGap(c) {
        if j == |c| {
        } else {
          assert AllMissing(p, i, j);
        }
      }
      if MaxGap(c) == 0 {
        forall k | 0 <= k < |c| ensures c[k].Some? {
          if c[k].None? {
            assert AllMissing(c, k, k + 1);
          }
        }
      } else {
        var i :| RunAt(c, i, MaxGap(c));
        assert RunAt(c, i, MaxGap(c));
        assert 0 <= i && i + MaxGap(c) <= |c|;
        assert c[i].None?;
      }
    }
  }

  /** The warnings of clean_ohlcv: the OHLC columns, after the drop, whose
      longest gap exceeds five rows, with that gap. They are only logged. */
  function GapWarnings(f: Frame): (w: seq<(Col, nat)>)
    requires f.Valid()
    ensures forall k :: 0 <= k < |w| ==> w[k].1 > 5 && w[k].0 in f.cols
  {
    var d := if EmptyFrame(f) then f else KeepRows(f, PriceMask(f));
    GapsOver(d, [Open, High, Low, Close])
  }

  function GapsOver(d: Frame, cols: seq<Col>): (w: seq<(Col, nat)>)
    requires d.Valid()
    ensures forall k :: 0 <= k < |w| ==> w[k].1 > 5 && w[k].0 in cols && w[k].0 in d.cols && w[k].1 == MaxGap(d.cols[w[k].0])
  {
    if cols == [] then []
    else
      var rest := GapsOver(d, cols[1..]);
      var c := cols[0];
      if c in d.cols && MaxGap(d.cols[c]) > 5 then [(c, MaxGap(d.cols[c]))] + rest else rest
  }

  /** Column c is named in the warnings w. */
  predicate Warned(w: seq<(Col, nat)>, c: Col) {
    exists k :: 0 <= k < |w| && w[k].0 == c
  }

  lemma {:induction false} GapsOverComplete(d: Frame, cols: seq<Col>, c: Col)
    requires d.Valid() && c in cols && c in d.cols && MaxGap(d.cols[c]) > 5
    ensures Warned(GapsOver(d, cols), c)
  {
    var w, rest := GapsOver(d, cols), GapsOver(d, cols[1..]);
    if c == cols[0] {
      assert w[0].0 == c;
    } else {
      assert c in cols[1..];
      GapsOverComplete(d, cols[1..], c);
      var k :| 0 <= k < |rest| && rest[k].0 == c;
      if cols[0] in d.cols && MaxGap(d.cols[cols[0]]) > 5 {
        assert w[k + 1].0 == c;
      } else {
        assert w[k].0 == c;
      }
    }
  }

  /** clean_ohlcv warns about exactly the OHLC columns whose longest gap,
      after the drop, is over five rows, and reports that gap. */
  lemma GapWarningsExact(f: Frame, c: Col)
    requires f.Valid()
    ensures var d := if EmptyFrame(f) then f else KeepRows(f, PriceMask(f));
      && (Warned(GapWarnings(f), c) <==> c in [Open, High, Low, Close] && c in f.cols && MaxGap(d.cols[c]) > 5)
      && forall k :: 0 <= k < |GapWarnings(f)| ==> GapWarnings(f)[k].1 == MaxGap(d.cols[GapWarnings(f)[k].0])
  {
    var d := if EmptyFrame(f) then f else KeepRows(f, PriceMask(f));
    if c in [Open, High, Low, Close] && c in f.cols && MaxGap(d.cols[c]) > 5 {
      GapsOverComplete(d, [Open, High, Low, Close], c);
    }
  }

  // ---------------------------------------------------------------------
  // Filtering and sorting tables
  // ---------------------------------------------------------------------

  /** An element survives a filter exactly when it is in the input and passes. */
  lemma KeepIn<T>(s: seq<T>, P: T -> bool, x: T)
    ensures x in Filter(s, Mask(s, P)) <==> x in s && P(x)
  {
    FilterMultiset(s, P);
    assert x in Filter(s, Mask(s, P)) <==> x in multiset(Filter(s, Mask(s, P)));
    assert x in s <==> x in multiset(s);
  }

  /** Sorting and then filtering, or filtering and then sorting: the result
      is sorted, every element passes, and an element that passes occurs as
      often as in the input (the output is a permutation of the passing rows). */
  lemma SortAndKeep<T>(s: seq<T>, key: T -> int, P: T -> bool)
    ensures var r := Filter(SortBy(s, key), Mask(SortBy(s, key), P));
      SortedBy(r, key) && (forall x :: x in r ==> P(x)) && (forall x :: P(x) ==> multiset(r)[x] == multiset(s)[x])
    ensures var r := SortBy(Filter(s, Mask(s, P)), key);
      SortedBy(r, key) && (forall x :: x in r ==> P(x)) && (forall x :: P(x) ==> multiset(r)[x] == multiset(s)[x])
  {
    var t := SortBy(s, key);
    FilterSorted(t, Mask(t, P), key);
    FilterMultiset(t, P);
    FilterMultiset(s, P);
    var r := Filter(t, Mask(t, P));
    forall x | x in r ensures P(x) {
      assert x in multiset(r);
    }
    var u := SortBy(Filter(s, Mask(s, P)), key);
    forall x | x in u ensures P(x) {
      assert x in multiset(u);
    }
  }

  // ---------------------------------------------------------------------
  // clean_fred_series
  // ---------------------------------------------------------------------

  /** One observation of a FRED series; a missing value is None. */
  datatype Observation = Observation(date: Date, value: Option<real>)

  function ObservationKey(o: Observation): int {
    DateKey(o.date)
  }

  function ValuesOf(s: seq<Observation>): (c: Column)
    ensures |c| == |s| && forall i :: 0 <= i < |s| ==> c[i] == s[i].value
  {
    seq(|s|, i requires 0 <= i < |s| => s[i].value)
  }

  /** series.ffill(): dates kept, values forward-filled. */
  function FillValues(s: seq<Observation>): (r: seq<Observation>)
    ensures |r| == |s|
    ensures forall i :: 0 <= i < |s| ==> r[i].date == s[i].date && r[i].value == Ffill(ValuesOf(s))[i]
  {
    var filled := Ffill(ValuesOf(s));
    seq(|s|, i requires 0 <= i < |s| => Observation(s[i].date, filled[i]))
  }

  predicate HasValue(o: Observation) {
    o.value.Some?
  }

  /** clean_fred_series: an empty series as it is; otherwise sorted by date,
      forward-filled, and the observations still missing dropped. */
  function CleanFredSeries(s: seq<Observation>): (r: seq<Observation>)
    ensures s == [] ==> r == s
    ensures |r| <= |s|
  {
    if s == [] then s
    else
      var filled := FillValues(SortBy(s, ObservationKey));
      Filter(filled, Mask(filled, HasValue))
  }

  /** The number of missing values before the first value. */
  function LeadingGap(c: Column): (n: nat)
    ensures n <= |c|
    ensures forall i :: 0 <= i < n ==> c[i].None?
    ensures n < |c| ==> c[n].Some?
  {
    if c == [] || c[0].Some? then 0 else LeadingGap(c[1..]) + 1
  }

  /** A mask that drops a prefix and keeps the rest selects a suffix. */
  lemma {:induction false} FilterSuffix<T>(s: seq<T>, keep: seq<bool>, n: nat)
    requires |keep| == |s| && n <= |s|
    requires forall i :: 0 <= i < |s| ==> keep[i] == (i >= n)
    ensures Filter(s, keep) == s[n..]
  {
    if s != [] {
      if n == |s| {
        FilterSuffix(s[..|s| - 1], keep[..|s| - 1], n - 1);
        assert Filter(s[..|s| - 1], keep[..|s| - 1]) == [];
      } else {
        FilterSuffix(s[..|s| - 1], keep[..|s| - 1], n);
        assert s[n..] == s[..|s| - 1][n..] + [s[|s| - 1]];
      }
    }
  }

  /** clean_fred_series drops exactly the gap before the first value, in
      date order: what remains is the forward-filled sorted series from its
      first value on. */
  lemma CleanFredSeriesSuffix(s: seq<Observation>)
    requires s != []
    ensures CleanFredSeries(s) == FillValues(SortBy(s, ObservationKey))[LeadingGap(ValuesOf(SortBy(s, ObservationKey)))..]
  {
    var sorted := SortBy(s, ObservationKey);
    var vals := ValuesOf(sorted);
    var filled := FillValues(sorted);
    var n := LeadingGap(vals);
    forall i | 0 <= i < |filled| ensures Mask(filled, HasValue)[i] == (i >= n) {
      if i >= n {
        FilledFromFirst(vals, i);
      } else {
        FfillAt(vals, i);
      }
    }
    FilterSuffix(filled, Mask(filled, HasValue), n);
  }

  /** clean_fred_series is sorted by date. */
  lemma CleanFredSeriesSorted(s: seq<Observation>)
    requires s != []
    ensures SortedBy(CleanFredSeries(s), ObservationKey)
  {
    var sorted := SortBy(s, ObservationKey);
    var filled := FillValues(sorted);
    assert SortedBy(filled, ObservationKey) by {
      forall i, j | 0 <= i < j < |filled| ensures ObservationKey(filled[i]) <= ObservationKey(filled[j]) {
        assert filled[i].date == sorted[i].date && filled[j].date == sorted[j].date;
      }
    }
    FilterSorted(filled, Mask(filled, HasValue), ObservationKey);
  }

  /** From the first value on, a forward-filled column holds an earlier value. */
  lemma FilledFromFirst(c: Column, i: nat)
    requires LeadingGap(c) <= i < |c|
    ensures exists j :: 0 <= j <= i && c[j].Some? && Ffill(c)[i] == c[j]
  {
    FfillAt(c, i);
    var n := LeadingGap(c);
    assert c[n].Some?;
    var j := LastDefinedAtOrBefore(c, i).value;
  }

  /** Each observation of clean_fred_series has a value, and that value is a
      value of the input: a gap takes the previous value in date order. */
  lemma CleanFredSeriesValue(s: seq<Observation>, k: nat)
    requires s != [] && k < |CleanFredSeries(s)|
    ensures CleanFredSeries(s)[k].value.Some?
    ensures exists i :: 0 <= i < |s| && s[i].value == CleanFredSeries(s)[k].value
  {
    var sorted := SortBy(s, ObservationKey);
    var vals := ValuesOf(sorted);
    var filled := FillValues(sorted);
    var n := LeadingGap(vals);
    CleanFredSeriesSuffix(s);
    var o := CleanFredSeries(s)[k];
    assert o == filled[n + k];
    FilledFromFirst(vals, n + k);
    var j :| 0 <= j <= n + k && vals[j].Some? && Ffill(vals)[n + k] == vals[j];
    assert o.value == sorted[j].value;
    assert sorted[j] in multiset(s);
    var i :| 0 <= i < |s| && s[i] == sorted[j];
  }

  // ---------------------------------------------------------------------
  // clean_forward_curve
  // ---------------------------------------------------------------------

  /** A forward-curve row; close is None where it is missing or not numeric. */
  datatype CurveRow = CurveRow(contractMonth: Date, close: Option<real>)

  /** A forward-curve table and which of its two columns exist. */
  datatype CurveTable = CurveTable(hasClose: bool, hasContractMonth: bool, rows: seq<CurveRow>)

  predicate PositiveClose(row: CurveRow) {
    row.close.Some? && row.close.value > 0.0
  }

  /** contract_month is a 'YYYY-MM-DD' string; its order is DateKey's. */
  function ContractKey(row: CurveRow): int {
    DateKey(row.contractMonth)
  }

  /** clean_forward_curve: keep the rows with a positive close, then sort by
      contract month; a missing column skips its step. */
  function CleanForwardCurve(t: CurveTable): (r: CurveTable)
    ensures r.hasClose == t.hasClose && r.hasContractMonth == t.hasContractMonth
    ensures t.rows == [] ==> r == t
  {
    if t.rows == [] then t
    else
      var kept := if t.hasClose then Filter(t.rows, Mask(t.rows, PositiveClose)) else t.rows;
      var sorted := if t.hasContractMonth then SortBy(kept, ContractKey) else kept;
      CurveTable(t.hasClose, t.hasContractMonth, sorted)
  }

  /** With both columns, the cleaned curve holds the rows with a positive
      close, each as often as in the input, sorted by contract month. */
  lemma CleanForwardCurveProperties(t: CurveTable)
    requires t.hasClose && t.hasContractMonth
    ensures var r := CleanForwardCurve(t).rows;
      && SortedBy(r, ContractKey)
      && (forall x :: x in r ==> PositiveClose(x))
      && (forall x :: PositiveClose(x) ==> multiset(r)[x] == multiset(t.rows)[x])
  {
    SortAndKeep(t.rows, ContractKey, PositiveClose);
  }

  // ---------------------------------------------------------------------
  // clean_worldbank
  // ---------------------------------------------------------------------

  /** A World Bank monthly price row. */
  datatype PriceRow = PriceRow(date: Date, price: Option<real>)

  function PriceKey(row: PriceRow): int {
    DateKey(row.date)
  }

  predicate HasPrice(row: PriceRow) {
    row.price.Some?
  }

  /** clean_worldbank: sort by date, then drop the rows without a price. */
  function CleanWorldbank(rows: seq<PriceRow>): (r: seq<PriceRow>)
    ensures rows == [] ==> r == rows
    ensures |r| <= |rows|
  {
    if rows == [] then rows
    else
      var sorted := SortBy(rows, PriceKey);
      Filter(sorted, Mask(sorted, HasPrice))
  }

  /** The cleaned World Bank table is sorted by date, has a price in every
      row, and holds each priced input row as often as the input does. */
  lemma CleanWorldbankProperties(rows: seq<PriceRow>)
    ensures var r := CleanWorldbank(rows);
      && SortedBy(r, PriceKey)
      && (forall x :: x in r ==> HasPrice(x))
      && (forall x :: HasPrice(x) ==> multiset(r)[x] == multiset(rows)[x])
  {
    SortAndKeep(rows, PriceKey, HasPrice);
  }

  // ---------------------------------------------------------------------
  // clean_export_sales
  // ---------------------------------------------------------------------

  /** An export-sales row; a figure that is missing or not numeric is None. */
  datatype ExportRow = ExportRow(weekEnding: Date, netSales: Option<real>, weeklyExports: Option<real>,
                                 accumulatedExports: Option<real>, outstandingSales: Option<real>)

  /** An export-sales table and which of week_ending and net_sales exist. */
  datatype ExportTable = ExportTable(hasWeekEnding: bool, hasNetSales: bool, rows: seq<ExportRow>)

  function WeekKey(row: ExportRow): int {
    DateKey(row.weekEnding)
  }

  predicate HasNetSales(row: ExportRow) {
    row.netSales.Some?
  }

  /** clean_export_sales: sort by week_ending, then drop the rows without
      net_sales; a missing column skips its step. */
  function CleanExportSales(t: ExportTable): (r: ExportTable)
    ensures r.hasWeekEnding == t.hasWeekEnding && r.hasNetSales == t.hasNetSales
    ensures t.rows == [] ==> r == t
  {
    if t.rows == [] then t
    else
      var sorted := if t.hasWeekEnding then SortBy(t.rows, WeekKey) else t.rows;
      var kept := if t.hasNetSales then Filter(sorted, Mask(sorted, HasNetSales)) else sorted;
      ExportTable(t.hasWeekEnding, t.hasNetSales, kept)
  }

  /** With both columns, the cleaned table is sorted by week, has net sales
      in every row, and holds each such input row as often as the input. */
  lemma CleanExportSalesProperties(t: ExportTable)
    requires t.hasWeekEnding && t.hasNetSales
    ensures var r := CleanExportSales(t).rows;
      && SortedBy(r, WeekKey)
      && (forall x :: x in r ==> HasNetSales(x))
      && (forall x :: HasNetSales(x) ==> multiset(r)[x] == multiset(t.rows)[x])
  {
    SortAndKeep(t.rows, WeekKey, HasNetSales);
  }

  // ---------------------------------------------------------------------
  // clean_psd
  // ---------------------------------------------------------------------

  /** str.isspace for one character: the ASCII separators and the Unicode
      white space characters. */
  predicate IsSpace(ch: char) {
    var c := ch as int;
    || 9 <= c <= 13 || 28 <= c <= 32 || c == 0x85 || c == 0xA0 || c == 0x1680
    || 0x2000 <= c <= 0x200A || c == 0x2028 || c == 0x2029 || c == 0x202F || c == 0x205F || c == 0x3000
  }

  /** Leading white space removed. */
  function StripStart(s: string): (r: string)
    ensures r == [] || !IsSpace(r[0])
    ensures |r| <= |s| && r == s[|s| - |r|..] && forall i :: 0 <= i < |s| - |r| ==> IsSpace(s[i])
  {
    if s == [] || !IsSpace(s[0]) then s
    else
      var r := StripStart(s[1..]);
      assert s[1..][|s| - 1 - |r|..] == s[|s| - |r|..];
      r
  }

  /** Trailing white space removed. */
  function StripEnd(s: string): (r: string)
    ensures r == [] || !IsSpace(r[|r| - 1])
    ensures |r| <= |s| && r == s[..|r|] && forall i :: |r| <= i < |s| ==> IsSpace(s[i])
  {
    if s == [] || !IsSpace(s[|s| - 1]) then s
    else StripEnd(s[..|s| - 1])
  }

  /** str.strip(). */
  function Strip(s: string): string {
    StripEnd(StripStart(s))
  }

  predicate Stripped(s: string) {
    s == [] || (!IsSpace(s[0]) && !IsSpace(s[|s| - 1]))
  }

  /** The number of leading white space characters strip() removes. */
  function Lead(s: string): nat {
    |s| - |StripStart(s)|
  }

  /** strip() leaves no white space at either end, removes only white space
      (the result is the slice of the input after the leading white space,
      followed by white space only), and stripping again changes nothing. */
  lemma StripProperties(s: string)
    ensures Stripped(Strip(s))
    ensures Lead(s) + |Strip(s)| <= |s| && Strip(s) == s[Lead(s)..Lead(s) + |Strip(s)|]
    ensures forall k :: 0 <= k < Lead(s) ==> IsSpace(s[k])
    ensures forall k :: Lead(s) + |Strip(s)| <= k < |s| ==> IsSpace(s[k])
    ensures Strip(Strip(s)) == Strip(s)
  {
    StripEndsClean(s);
    StripSlice(s);
  }

  /** Neither end of strip()'s result is white space, so stripping again
      finds nothing to remove. */
  lemma StripEndsClean(s: string)
    ensures Stripped(Strip(s)) && Strip(Strip(s)) == Strip(s)
  {
    var a := StripStart(s);
    var r := StripEnd(a);
    if r != [] {
      assert r[0] == a[0];
    }
  }

  /** strip()'s result is the slice of s after the leading white space, and
      what follows that slice is white space. */
  lemma StripSlice(s: string)
    ensures Lead(s) + |Strip(s)| <= |s| && Strip(s) == s[Lead(s)..Lead(s) + |Strip(s)|]
    ensures forall k :: Lead(s) + |Strip(s)| <= k < |s| ==> IsSpace(s[k])
  {
    var a := StripStart(s);
    var r := StripEnd(a);
    var i := |s| - |a|;
    assert r == s[i..i + |r|];
    forall k | i + |r| <= k < |s| ensures IsSpace(s[k]) {
      assert s[k] == a[k - i];
    }
  }

  /** astype(int) on a float: truncation toward zero. */
  function Trunc(x: real): (n: int)
    ensures x >= 0.0 ==> n as real <= x < n as real + 1.0
    ensures x < 0.0 ==> n as real - 1.0 < x <= n as real
  {
    if x >= 0.0 then x.Floor else -((-x).Floor)
  }

  /** A whole number truncates to itself. */
  lemma TruncWhole(n: int)
    ensures Trunc(n as real) == n
  {
  }

  /** A PSD row; year is None where it is missing or not numeric. */
  datatype PsdRow = PsdRow(country: Option<string>, year: Option<real>, value: Option<real>)

  /** A PSD table and which of country, year and value exist. */
  datatype PsdTable = PsdTable(hasCountry: bool, hasYear: bool, hasValue: bool, rows: seq<PsdRow>)

  function StripCountry(row: PsdRow): PsdRow {
    match row.country
    case None => row
    case Some(name) => row.(country := Some(Strip(name)))
  }

  predicate HasYear(row: PsdRow) {
    row.year.Some?
  }

  predicate HasPsdValue(row: PsdRow) {
    row.value.Some?
  }

  function TruncYear(row: PsdRow): PsdRow
    requires HasYear(row)
  {
    row.(year := Some(Trunc(row.year.value) as real))
  }

  function MapStrip(rows: seq<PsdRow>): (r: seq<PsdRow>)
    ensures |r| == |rows| && forall i :: 0 <= i < |rows| ==> r[i] == StripCountry(rows[i])
  {
    seq(|rows|, i requires 0 <= i < |rows| => StripCountry(rows[i]))
  }

  function MapTrunc(rows: seq<PsdRow>): (r: seq<PsdRow>)
    requires forall x :: x in rows ==> HasYear(x)
    ensures |r| == |rows| && forall i :: 0 <= i < |rows| ==> r[i] == TruncYear(rows[i])
  {
    seq(|rows|, i requires 0 <= i < |rows| => TruncYear(rows[i]))
  }

  /** The rows that have a numeric year. */
  function WithYears(rows: seq<PsdRow>): (r: seq<PsdRow>)
    ensures forall x :: x in r ==> HasYear(x)
  {
    FilterAll(rows, Mask(rows, HasYear), HasYear);
    Filter(rows, Mask(rows, HasYear))
  }

  /** The country step: names stripped when the column exists. */
  function StripStage(t: PsdTable, rows: seq<PsdRow>): seq<PsdRow> {
    if t.hasCountry then MapStrip(rows) else rows
  }

  /** The year step: rows without a numeric year dropped and the year made a
      whole number, when the column exists. */
  function YearStage(t: PsdTable, rows: seq<PsdRow>): seq<PsdRow> {
    if t.hasYear then MapTrunc(WithYears(rows)) else rows
  }

  /** The value step: rows without a value dropped, when the column exists. */
  function ValueStage(t: PsdTable, rows: seq<PsdRow>): seq<PsdRow> {
    if t.hasValue then Filter(rows, Mask(rows, HasPsdValue)) else rows
  }

  /** clean_psd: an empty table as it is; otherwise strip the country names,
      drop the rows without a numeric year and make the year a whole number,
      then drop the rows without a value; a missing column skips its step. */
  function CleanPsd(t: PsdTable): (r: PsdTable)
    ensures r.hasCountry == t.hasCountry && r.hasYear == t.hasYear && r.hasValue == t.hasValue
    ensures t.rows == [] ==> r == t
    ensures |r.rows| <= |t.rows|
  {
    if t.rows == [] then t
    else PsdTable(t.hasCountry, t.hasYear, t.hasValue, ValueStage(t, YearStage(t, StripStage(t, t.rows))))
  }

  /** The rows clean_psd keeps. */
  predicate PsdKeeps(t: PsdTable, row: PsdRow) {
    (t.hasYear ==> HasYear(row)) && (t.hasValue ==> HasPsdValue(row))
  }

  /** What clean_psd makes of a kept row. */
  function PsdFixed(t: PsdTable, row: PsdRow): PsdRow
    requires PsdKeeps(t, row)
  {
    var a := if t.hasCountry then StripCountry(row) else row;
    if t.hasYear then TruncYear(a) else a
  }

  /** The kept rows of `rows`, each cleaned, in their input order. */
  function FixKept(t: PsdTable, rows: seq<PsdRow>): (r: seq<PsdRow>)
    ensures |r| <= |rows|
  {
    if rows == [] then []
    else
      var p := FixKept(t, rows[..|rows| - 1]);
      var y := rows[|rows| - 1];
      if PsdKeeps(t, y) then p + [PsdFixed(t, y)] else p
  }

  /** Filtering a sequence with one more element. */
  lemma FilterSnoc<T>(s: seq<T>, x: T, P: T -> bool)
    ensures Filter(s + [x], Mask(s + [x], P)) == Filter(s, Mask(s, P)) + (if P(x) then [x] else [])
  {
    var u := s + [x];
    assert u[..|u| - 1] == s;
    assert Mask(u, P)[..|u| - 1] == Mask(s, P);
  }

  /** A row after the country step. */
  function StripOf(t: PsdTable, y: PsdRow): PsdRow {
    if t.hasCountry then StripCountry(y) else y
  }

  /** What the year step makes of one row: nothing, or the row. */
  function YearOf(t: PsdTable, y: PsdRow): seq<PsdRow> {
    if !t.hasYear then [y] else if HasYear(y) then [TruncYear(y)] else []
  }

  /** What the value step makes of at most one row. */
  function ValueOf(t: PsdTable, z: seq<PsdRow>): seq<PsdRow>
    requires |z| <= 1
  {
    if t.hasValue && z != [] && !HasPsdValue(z[0]) then [] else z
  }

  lemma StripSnoc(t: PsdTable, s: seq<PsdRow>, y: PsdRow)
    ensures StripStage(t, s + [y]) == StripStage(t, s) + [StripOf(t, y)]
  {
    if t.hasCountry {
      assert MapStrip(s + [y]) == MapStrip(s) + [StripCountry(y)];
    }
  }

  lemma YearSnoc(t: PsdTable, a: seq<PsdRow>, y: PsdRow)
    ensures YearStage(t, a + [y]) == YearStage(t, a) + YearOf(t, y)
  {
    if t.hasYear {
      FilterSnoc(a, y, HasYear);
      var w := WithYears(a);
      if HasYear(y) {
        assert MapTrunc(w + [y]) == MapTrunc(w) + [TruncYear(y)];
      }
    }
  }

  lemma ValueSnoc(t: PsdTable, b: seq<PsdRow>, z: seq<PsdRow>)
    requires |z| <= 1
    ensures ValueStage(t, b + z) == ValueStage(t, b) + ValueOf(t, z)
  {
    if z == [] {
      assert b + z == b;
    } else if t.hasValue {
      FilterSnoc(b, z[0], HasPsdValue);
      assert b + z == b + [z[0]];
    }
  }

  /** One more input row adds its cleaned image at the end exactly when
      clean_psd keeps it. */
  lemma StagesSnoc(t: PsdTable, s: seq<PsdRow>, y: PsdRow)
    ensures ValueStage(t, YearStage(t, StripStage(t, s + [y]))) ==
      ValueStage(t, YearStage(t, StripStage(t, s))) + (if PsdKeeps(t, y) then [PsdFixed(t, y)] else [])
  {
    StripSnoc(t, s, y);
    YearSnoc(t, StripStage(t, s), StripOf(t, y));
    ValueSnoc(t, YearStage(t, StripStage(t, s)), YearOf(t, StripOf(t, y)));
    assert ValueOf(t, YearOf(t, StripOf(t, y))) == if PsdKeeps(t, y) then [PsdFixed(t, y)] else [];
  }

  /** clean_psd keeps order and multiplicity: its rows are the kept input
      rows, each cleaned, in their input order. */
  lemma {:induction false} StagesAreFixKept(t: PsdTable, rows: seq<PsdRow>)
    ensures ValueStage(t, YearStage(t, StripStage(t, rows))) == FixKept(t, rows)
    decreases |rows|
  {
    if rows == [] {
      assert StripStage(t, rows) == [];
      assert WithYears([]) == [];
    } else {
      var s := rows[..|rows| - 1];
      StagesAreFixKept(t, s);
      assert rows == s + [rows[|rows| - 1]];
      StagesSnoc(t, s, rows[|rows| - 1]);
    }
  }

  /** The rows of clean_psd on a non-empty table are its kept rows, cleaned,
      in input order, so each kept row appears as often as in the input. */
  lemma CleanPsdInOrder(t: PsdTable)
    requires t.rows != []
    ensures CleanPsd(t).rows == FixKept(t, t.rows)
  {
    StagesAreFixKept(t, t.rows);
  }

  /** x is in the mapped sequence exactly when it is the image of an element. */
  lemma InMapStrip(rows: seq<PsdRow>, x: PsdRow)
    ensures x in MapStrip(rows) <==> exists y :: y in rows && x == StripCountry(y)
  {
    if y :| y in rows && x == StripCountry(y) {
      var i :| 0 <= i < |rows| && rows[i] == y;
      assert MapStrip(rows)[i] == x;
    }
  }

  lemma InMapTrunc(rows: seq<PsdRow>, x: PsdRow)
    requires forall y :: y in rows ==> HasYear(y)
    ensures x in MapTrunc(rows) <==> exists y :: y in rows && x == TruncYear(y)
  {
    if y :| y in rows && x == TruncYear(y) {
      var i :| 0 <= i < |rows| && rows[i] == y;
      assert MapTrunc(rows)[i] == x;
    }
  }

  /** Every row clean_psd returns is a kept input row, cleaned. */
  lemma CleanPsdSound(t: PsdTable, x: PsdRow) returns (y: PsdRow)
    requires t.rows != [] && x in CleanPsd(t).rows
    ensures y in t.rows && PsdKeeps(t, y) && x == PsdFixed(t, y)
  {
    var b := YearStage(t, StripStage(t, t.rows));
    if t.hasValue {
      KeepIn(b, HasPsdValue, x);
    }
    assert x in b && (t.hasValue ==> HasPsdValue(x));
    var a := StripStage(t, t.rows);
    var z := x;
    if t.hasYear {
      InMapTrunc(WithYears(a), x);
      z :| z in WithYears(a) && x == TruncYear(z);
      KeepIn(a, HasYear, z);
    }
    assert z in a && z.value == x.value && (t.hasYear ==> HasYear(z));
    y := z;
    if t.hasCountry {
      InMapStrip(t.rows, z);
      y :| y in t.rows && z == StripCountry(y);
    }
  }

  /** Every kept input row is in clean_psd's result, cleaned. */
  lemma CleanPsdComplete(t: PsdTable, y: PsdRow)
    requires y in t.rows && PsdKeeps(t, y)
    ensures PsdFixed(t, y) in CleanPsd(t).rows
  {
    var a := StripStage(t, t.rows);
    var z := if t.hasCountry then StripCountry(y) else y;
    if t.hasCountry {
      InMapStrip(t.rows, z);
    }
    assert z in a;
    var x := PsdFixed(t, y);
    if t.hasYear {
      KeepIn(a, HasYear, z);
      InMapTrunc(WithYears(a), x);
    }
    var b := YearStage(t, StripStage(t, t.rows));
    assert x in b;
    if t.hasValue {
      KeepIn(b, HasPsdValue, x);
    }
  }

  /** A cleaned row has a stripped country name, a whole-number year and a
      value, for the columns present. */
  lemma PsdFixedShape(t: PsdTable, y: PsdRow)
    requires PsdKeeps(t, y)
    ensures var x := PsdFixed(t, y);
      && (t.hasCountry && x.country.Some? ==> Stripped(x.country.value))
      && (t.hasYear ==> x.year.Some? && x.year.value == x.year.value.Floor as real)
      && (t.hasValue ==> x.value.Some?)
  {
    if t.hasCountry && y.country.Some? {
      StripProperties(y.country.value);
    }
  }

  /** Every row of clean_psd has a stripped country name, a whole-number
      year and a value (for the columns present); and its rows are exactly
      the input rows with a year and a value, so cleaned. */
  lemma CleanPsdProperties(t: PsdTable, x: PsdRow)
    requires t.rows != []
    ensures x in CleanPsd(t).rows ==>
      && (t.hasCountry && x.country.Some? ==> Stripped(x.country.value))
      && (t.hasYear ==> x.year.Some? && x.year.value == x.year.value.Floor as real)
      && (t.hasValue ==> x.value.Some?)
    ensures x in CleanPsd(t).rows <==> exists y :: y in t.rows && PsdKeeps(t, y) && x == PsdFixed(t, y)
  {
    if x in CleanPsd(t).rows {
      var y := CleanPsdSound(t, x);
      PsdFixedShape(t, y);
    }
    if y :| y in t.rows && PsdKeeps(t, y) && x == PsdFixed(t, y) {
      CleanPsdComplete(t, y);
    }
  }
}
