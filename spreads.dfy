/**
 * The soybean board crush: soybean, soybean oil and soybean meal closes are
 * aligned on their dates, rows with a missing close are dropped, and the
 * crush margin oil * 11 + meal * 2.2 - soybeans is computed on each
 * remaining date.
 */
module Spreads {
  import opened Common

  /** One row of a price series: its date and its close (None for NaN). */
  datatype Quote = Quote(date: Date, close: Option<real>)

  /** A result row, in the column order Date, soybeans_close, oil_close,
      meal_close, crush_spread. */
  datatype CrushRow = CrushRow(date: Date, soybeans: real, oil: real, meal: real, spread: real)

  /** A date index: strictly increasing dates. */
  predicate Chronological(s: seq<Quote>) {
    forall i, j :: 0 <= i < j < |s| ==> DateKey(s[i].date) < DateKey(s[j].date)
  }

  /** The series has the defined close v on date d. */
  predicate CloseIs(s: seq<Quote>, d: Date, v: real) {
    exists i :: 0 <= i < |s| && s[i].date == d && s[i].close == Some(v)
  }

  /** The close on date d; None when the date is absent or its close is NaN. */
  function CloseOn(s: seq<Quote>, d: Date): (r: Option<real>)
    ensures r.Some? ==> CloseIs(s, d, r.value)
  {
    if s == [] then None
    else if s[0].date == d then s[0].close
    else
      assert forall i :: 0 <= i < |s[1..]| ==> s[1..][i] == s[i + 1];
      CloseOn(s[1..], d)
  }

  /** On a date index a date occurs once, so the lookup finds every defined close. */
  lemma {:induction false} CloseOnFinds(s: seq<Quote>, d: Date, v: real)
    requires Chronological(s)
    ensures CloseOn(s, d) == Some(v) <==> CloseIs(s, d, v)
  {
    if s != [] && CloseIs(s, d, v) {
      var i :| 0 <= i < |s| && s[i].date == d && s[i].close == Some(v);
      if i == 0 {
      } else {
        assert s[0].date != d by {
          assert DateKey(s[0].date) < DateKey(s[i].date);
        }
        assert s[1..][i - 1] == s[i];
        CloseOnFinds(s[1..], d, v);
      }
    }
  }

  /** The board crush margin, in cents per bushel. */
  function CrushValue(soybeans: real, oil: real, meal: real): real {
    oil * 11.0 + meal * 2.2 - soybeans
  }

  /** The crush row for one soybean quote, when oil and meal have a close that day. */
  function JoinedRow(q: Quote, oil: seq<Quote>, meal: seq<Quote>): Option<CrushRow> {
    var o, m := CloseOn(oil, q.date), CloseOn(meal, q.date);
    if q.close.Some? && o.Some? && m.Some? then
      Some(CrushRow(q.date, q.close.value, o.value, m.value, CrushValue(q.close.value, o.value, m.value)))
    else None
  }

  /** compute_crush_spread: the rows of the three-way alignment on which no
      close is missing, in date order, with the crush margin. */
  function CrushSpread(soy: seq<Quote>, oil: seq<Quote>, meal: seq<Quote>): (r: seq<CrushRow>)
    ensures |r| <= |soy|
  {
    if soy == [] then []
    else
      var rest := CrushSpread(soy[1..], oil, meal);
      match JoinedRow(soy[0], oil, meal)
      case Some(row) => [row] + rest
      case None => rest
  }

  /** Each row carries the three closes of its date, and the margin computed from them. */
  lemma {:induction false} CrushRowFromCloses(soy: seq<Quote>, oil: seq<Quote>, meal: seq<Quote>, k: nat)
    requires k < |CrushSpread(soy, oil, meal)|
    ensures var row := CrushSpread(soy, oil, meal)[k];
      && CloseIs(soy, row.date, row.soybeans)
      && CloseOn(oil, row.date) == Some(row.oil)
      && CloseOn(meal, row.date) == Some(row.meal)
      && row.spread == CrushValue(row.soybeans, row.oil, row.meal)
    decreases |soy|
  {
    var r, rest := CrushSpread(soy, oil, meal), CrushSpread(soy[1..], oil, meal);
    var row := r[k];
    if JoinedRow(soy[0], oil, meal).Some? && k == 0 {
      assert soy[0].close == Some(row.soybeans);
    } else {
      var k' := if JoinedRow(soy[0], oil, meal).Some? then k - 1 else k;
      assert row == rest[k'];
      CrushRowFromCloses(soy[1..], oil, meal, k');
      var i :| 0 <= i < |soy[1..]| && soy[1..][i].date == row.date && soy[1..][i].close == Some(row.soybeans);
      assert soy[i + 1] == soy[1..][i];
    }
  }

  /** A soybean date on which oil and meal also have a close yields a row. */
  lemma {:induction false} CrushRowPresent(soy: seq<Quote>, oil: seq<Quote>, meal: seq<Quote>, i: nat)
    requires i < |soy| && soy[i].close.Some?
    requires CloseOn(oil, soy[i].date).Some? && CloseOn(meal, soy[i].date).Some?
    ensures exists k :: 0 <= k < |CrushSpread(soy, oil, meal)| && CrushSpread(soy, oil, meal)[k].date == soy[i].date
    decreases |soy|
  {
    var r, rest := CrushSpread(soy, oil, meal), CrushSpread(soy[1..], oil, meal);
    if i == 0 {
      assert r[0].date == soy[0].date;
    } else {
      assert soy[1..][i - 1] == soy[i];
      CrushRowPresent(soy[1..], oil, meal, i - 1);
      var k :| 0 <= k < |rest| && rest[k].date == soy[i].date;
      var k' := if JoinedRow(soy[0], oil, meal).Some? then k + 1 else k;
      assert r[k'] == rest[k];
    }
  }

  /** Every result date is a date of the soybean series. */
  lemma CrushDatesFromSoybeans(soy: seq<Quote>, oil: seq<Quote>, meal: seq<Quote>, k: nat)
    requires k < |CrushSpread(soy, oil, meal)|
    ensures exists i :: 0 <= i < |soy| && soy[i].date == CrushSpread(soy, oil, meal)[k].date
  {
    CrushRowFromCloses(soy, oil, meal, k);
  }

  predicate Ascending(r: seq<CrushRow>) {
    forall k, l :: 0 <= k < l < |r| ==> DateKey(r[k].date) < DateKey(r[l].date)
  }

  /** The rows come out in strictly increasing date order. */
  lemma {:induction false} CrushSpreadChronological(soy: seq<Quote>, oil: seq<Quote>, meal: seq<Quote>)
    requires Chronological(soy)
    ensures Ascending(CrushSpread(soy, oil, meal))
    decreases |soy|
  {
    if soy != [] {
      var rest := CrushSpread(soy[1..], oil, meal);
      CrushSpreadChronological(soy[1..], oil, meal);
      forall l | 0 <= l < |rest| ensures DateKey(soy[0].date) < DateKey(rest[l].date) {
        CrushDatesFromSoybeans(soy[1..], oil, meal, l);
        var i :| 0 <= i < |soy[1..]| && soy[1..][i].date == rest[l].date;
        assert soy[1..][i] == soy[i + 1];
      }
      var r := CrushSpread(soy, oil, meal);
      match JoinedRow(soy[0], oil, meal)
      case None =>
        assert r == rest;
      case Some(row) =>
        assert r == [row] + rest;
        forall k, l | 0 <= k < l < |r| ensures DateKey(r[k].date) < DateKey(r[l].date) {
          assert r[l] == rest[l - 1];
          if k > 0 {
            assert r[k] == rest[k - 1];
          }
        }
    }
  }

  /** The rows are exactly the dates on which all three closes are defined
      (an inner join), carrying those closes; with no such date the result is
      empty rather than an error. */
  lemma CrushSpreadRows(soy: seq<Quote>, oil: seq<Quote>, meal: seq<Quote>, d: Date)
    requires Chronological(soy) && Chronological(oil) && Chronological(meal)
    ensures var r := CrushSpread(soy, oil, meal);
      (exists k :: 0 <= k < |r| && r[k].date == d) <==>
        exists s, o, m :: CloseIs(soy, d, s) && CloseIs(oil, d, o) && CloseIs(meal, d, m)
    ensures var r := CrushSpread(soy, oil, meal);
      forall k :: 0 <= k < |r| ==>
        CloseIs(soy, r[k].date, r[k].soybeans) && CloseIs(oil, r[k].date, r[k].oil) && CloseIs(meal, r[k].date, r[k].meal)
  {
    var r := CrushSpread(soy, oil, meal);
    forall k | 0 <= k < |r|
      ensures CloseIs(soy, r[k].date, r[k].soybeans) && CloseIs(oil, r[k].date, r[k].oil) && CloseIs(meal, r[k].date, r[k].meal)
    {
      CrushRowFromCloses(soy, oil, meal, k);
      CloseOnFinds(oil, r[k].date, r[k].oil);
      CloseOnFinds(meal, r[k].date, r[k].meal);
    }
    if s, o, m :| CloseIs(soy, d, s) && CloseIs(oil, d, o) && CloseIs(meal, d, m) {
      var i :| 0 <= i < |soy| && soy[i].date == d && soy[i].close == Some(s);
      CloseOnFinds(oil, d, o);
      CloseOnFinds(meal, d, m);
      CrushRowPresent(soy, oil, meal, i);
    }
  }

  /** The margin rises with the oil and meal prices and falls with the soybean price. */
  lemma CrushValueMonotone(s: real, o: real, m: real, s': real, o': real, m': real)
    requires s' <= s && o <= o' && m <= m'
    ensures CrushValue(s, o, m) <= CrushValue(s', o', m')
    ensures s' < s || o < o' || m < m' ==> CrushValue(s, o, m) < CrushValue(s', o', m')
  {
  }
}
