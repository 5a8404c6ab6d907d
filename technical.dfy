/**
 * The indicator engine: per-series column transforms over the Close column
 * (moving averages, Wilder RSI, percentage changes, MACD, Bollinger bands).
 * Every operation returns a copy of its input frame with columns added;
 * since frames are values here, the input can never be changed.
 */
module Technical {
  import opened Common
  import opened Frames

  // ---------------------------------------------------------------------
  // Rolling mean (pandas rolling(window=w).mean(), min_periods = w)
  // ---------------------------------------------------------------------

  /** The sum of c[lo..hi], or None when one of those values is missing. */
  function WindowSum(c: Column, lo: nat, hi: nat): Option<real>
    requires lo <= hi <= |c|
    decreases hi
  {
    if lo == hi then Some(0.0)
    else match (WindowSum(c, lo, hi - 1), c[hi - 1])
      case (Some(s), Some(x)) => Some(s + x)
      case _ => None
  }

  lemma {:induction false} WindowSumDefined(c: Column, lo: nat, hi: nat)
    requires lo <= hi <= |c|
    ensures WindowSum(c, lo, hi).Some? <==> forall j :: lo <= j < hi ==> c[j].Some?
    decreases hi
  {
    if lo < hi {
      WindowSumDefined(c, lo, hi - 1);
    }
  }

  lemma {:induction false} WindowSumBounds(c: Column, lo: nat, hi: nat, low: real, high: real)
    requires lo <= hi <= |c|
    requires forall j :: lo <= j < hi && c[j].Some? ==> low <= c[j].value <= high
    ensures WindowSum(c, lo, hi).Some? ==>
      (hi - lo) as real * low <= WindowSum(c, lo, hi).value <= (hi - lo) as real * high
    decreases hi
  {
    if lo < hi {
      WindowSumBounds(c, lo, hi - 1, low, high);
      assert (hi - lo) as real * low == (hi - 1 - lo) as real * low + low;
      assert (hi - lo) as real * high == (hi - 1 - lo) as real * high + high;
    }
  }

  lemma {:induction false} WindowSumConstant(c: Column, lo: nat, hi: nat, v: real)
    requires lo <= hi <= |c|
    requires forall j :: lo <= j < hi ==> c[j] == Some(v)
    ensures WindowSum(c, lo, hi).Some? && WindowSum(c, lo, hi).value == (hi - lo) as real * v
    decreases hi
  {
    if lo < hi {
      WindowSumConstant(c, lo, hi - 1, v);
      assert (hi - lo) as real * v == (hi - 1 - lo) as real * v + v;
    }
  }

  lemma {:induction false} WindowSumPositive(c: Column, lo: nat, hi: nat)
    requires lo < hi <= |c|
    requires forall j :: lo <= j < hi ==> c[j].Some? && c[j].value > 0.0
    ensures WindowSum(c, lo, hi).Some? && WindowSum(c, lo, hi).value > 0.0
    decreases hi
  {
    if lo < hi - 1 {
      WindowSumPositive(c, lo, hi - 1);
    }
  }

  /** The mean of c[i-w+1..i], or None when the window reaches before row 0
      or holds a missing value. */
  function WindowMean(c: Column, i: nat, w: nat): Option<real>
    requires w >= 1 && i < |c|
  {
    if i + 1 < w then None
    else match WindowSum(c, i + 1 - w, i + 1)
      case Some(s) => Some(s / (w as real))
      case None => None
  }

  function RollingMean(c: Column, w: nat): (r: Column)
    requires w >= 1
    ensures |r| == |c|
  {
    seq(|c|, i requires 0 <= i < |c| => WindowMean(c, i, w))
  }

  /** A moving average is defined exactly when its whole window is, and then
      lies between the smallest and the largest value of the window. */
  lemma MovingAverageWithinWindow(c: Column, w: nat, i: nat, low: real, high: real)
    requires w >= 1 && i < |c|
    requires forall j :: 0 <= j < |c| && c[j].Some? ==> low <= c[j].value <= high
    ensures RollingMean(c, w)[i].Some? <==> w <= i + 1 && forall j :: i + 1 - w <= j <= i ==> c[j].Some?
    ensures RollingMean(c, w)[i].Some? ==> low <= RollingMean(c, w)[i].value <= high
  {
    if w <= i + 1 {
      WindowSumDefined(c, i + 1 - w, i + 1);
      WindowSumBounds(c, i + 1 - w, i + 1, low, high);
      var s := WindowSum(c, i + 1 - w, i + 1);
      if s.Some? {
        DivideBetween(s.value, w as real, low, high);
      }
    }
  }

  /** On a constant series every moving average equals the constant once its
      window is full, and is undefined before. */
  lemma MovingAverageOfConstant(c: Column, w: nat, v: real)
    requires w >= 1
    requires forall j :: 0 <= j < |c| ==> c[j] == Some(v)
    ensures forall i :: 0 <= i < |c| ==> RollingMean(c, w)[i] == if i + 1 < w then None else Some(v)
  {
    forall i | 0 <= i < |c| && i + 1 >= w
      ensures RollingMean(c, w)[i] == Some(v)
    {
      WindowSumConstant(c, i + 1 - w, i + 1, v);
      assert (w as real * v) / (w as real) == v;
      assert RollingMean(c, w)[i].Some? && RollingMean(c, w)[i].value == v;
    }
  }

  /** The MA_w columns for the windows ws. */
  function MaColumns(ws: seq<nat>): (r: set<Col>)
    ensures forall k :: k in r <==> k.MA? && k.window in ws
  {
    if ws == [] then {} else MaColumns(ws[..|ws| - 1]) + {MA(ws[|ws| - 1])}
  }

  /** The columns `m` after setting MA_w := rolling mean of `close` for each
      window w of ws in turn (a repeated window is simply set again). */
  function WithAverages(m: map<Col, Column>, close: Column, ws: seq<nat>): map<Col, Column>
    requires forall k :: 0 <= k < |ws| ==> ws[k] >= 1
  {
    if ws == [] then m
    else WithAverages(m, close, ws[..|ws| - 1])[MA(ws[|ws| - 1]) := RollingMean(close, ws[|ws| - 1])]
  }

  /** Setting the averages adds exactly the MA_w columns, one per window, each
      the rolling mean of `close` over its window; every other column is kept. */
  lemma {:induction false} AveragesAdded(f: Frame, close: Column, ws: seq<nat>)
    requires forall k :: 0 <= k < |ws| ==> ws[k] >= 1
    ensures OnlyAdds(f, Frame(f.index, WithAverages(f.cols, close, ws)), MaColumns(ws))
    ensures forall w :: w in ws ==> WithAverages(f.cols, close, ws)[MA(w)] == RollingMean(close, w)
    decreases |ws|
  {
    if ws != [] {
      var init := ws[..|ws| - 1];
      AveragesAdded(f, close, init);
      forall w | w in ws ensures WithAverages(f.cols, close, ws)[MA(w)] == RollingMean(close, w) {
        if w != ws[|ws| - 1] {
          var j :| 0 <= j < |ws| && ws[j] == w;
          assert init[j] == w;
        }
      }
    }
  }

  /** add_moving_averages: one MA_w column per window, on a copy of the frame. */
  method AddMovingAverages(f: Frame, windows: seq<nat>) returns (r: Frame)
    requires f.Valid() && Close in f.cols
    requires forall k :: 0 <= k < |windows| ==> windows[k] >= 1
    ensures r.Valid() && r.index == f.index
    ensures r.cols == WithAverages(f.cols, f.cols[Close], windows)
  {
    var close := f.cols[Close];
    r := f;
    for k := 0 to |windows|
      invariant r.Valid() && r.index == f.index
      invariant r.cols == WithAverages(f.cols, close, windows[..k])
    {
      assert windows[..k + 1][..k] == windows[..k];
      r := r.With(MA(windows[k]), RollingMean(close, windows[k]));
    }
    assert windows[..|windows|] == windows;
  }

  // ---------------------------------------------------------------------
  // RSI with Wilder smoothing
  // ---------------------------------------------------------------------

  /** Series.diff() at row i: row 0 has no predecessor and stays undefined. */
  function Change(c: Column, i: nat): Option<real>
    requires i < |c|
  {
    if i == 0 then None
    else match (c[i], c[i - 1])
      case (Some(a), Some(b)) => Some(a - b)
      case _ => None
  }

  /** diff().clip(lower=0) at row i; NaN stays NaN. */
  function Gain(c: Column, i: nat): Option<real>
    requires i < |c|
  {
    match Change(c, i)
    case None => None
    case Some(d) => Some(if d < 0.0 then 0.0 else d)
  }

  /** (-diff()).clip(lower=0) at row i. */
  function Loss(c: Column, i: nat): Option<real>
    requires i < |c|
  {
    match Change(c, i)
    case None => None
    case Some(d) => Some(if -d < 0.0 then 0.0 else -d)
  }

  function Gains(c: Column): (r: Column)
    ensures |r| == |c|
  {
    seq(|c|, i requires 0 <= i < |c| => Gain(c, i))
  }

  function Losses(c: Column): (r: Column)
    ensures |r| == |c|
  {
    seq(|c|, i requires 0 <= i < |c| => Loss(c, i))
  }

  /** Gains and losses are missing exactly where the difference is, and are never negative. */
  lemma GainLossDefined(c: Column, j: nat)
    requires j < |c|
    ensures Gains(c)[j].Some? <==> (j >= 1 && c[j].Some? && c[j - 1].Some?)
    ensures Losses(c)[j].Some? <==> Gains(c)[j].Some?
    ensures Gains(c)[j].Some? ==> Gains(c)[j].value >= 0.0 && Losses(c)[j].value >= 0.0
    ensures Gains(c)[j].Some? ==> Gains(c)[j].value - Losses(c)[j].value == c[j].value - c[j - 1].value
  {
  }

  /** Series.first_valid_index(), as a position. */
  function FirstDefined(s: Column): (r: Option<nat>)
    ensures r.Some? ==> r.value < |s| && s[r.value].Some?
    ensures r.Some? ==> forall j :: 0 <= j < r.value ==> s[j].None?
    ensures r.None? ==> forall j :: 0 <= j < |s| ==> s[j].None?
  {
    if s == [] then None
    else if s[0].Some? then Some(0)
    else match FirstDefined(s[1..])
      case None => None
      case Some(k) => Some(k + 1)
  }

  /** Wilder smoothing: (previous * (period - 1) + x) / period. */
  function WilderValue(prev: real, x: real, period: nat): real
    requires period >= 1
  {
    (prev * (period - 1) as real + x) / (period as real)
  }

  /** A Wilder step of non-negative values is non-negative, positive when x is,
      and zero when both are. */
  lemma WilderValueSign(prev: real, x: real, period: nat)
    requires period >= 1 && prev >= 0.0 && x >= 0.0
    ensures WilderValue(prev, x, period) >= 0.0
    ensures x > 0.0 ==> WilderValue(prev, x, period) > 0.0
    ensures prev == 0.0 && x == 0.0 ==> WilderValue(prev, x, period) == 0.0
  {
    assert prev * (period - 1) as real >= 0.0;
  }

  /** One step of the loop; NaN propagates. */
  function WilderStep(prev: Option<real>, x: Option<real>, period: nat): Option<real>
    requires period >= 1
  {
    match (prev, x)
    case (Some(a), Some(b)) => Some(WilderValue(a, b, period))
    case _ => None
  }

  /** The value the smoothing loop leaves at row i: the rolling-mean seed up to
      the start row, then the Wilder recurrence on the row before. */
  function Smoothed(seed: Column, x: Column, period: nat, start: Option<nat>, i: nat): Option<real>
    requires period >= 1 && |seed| == |x| && i < |x|
  {
    match start
    case None => seed[i]
    case Some(k) =>
      if i <= k then seed[i]
      else WilderStep(Smoothed(seed, x, period, start, i - 1), x[i], period)
  }

  /** Where the loop starts: the first defined seed of the gains. */
  function RsiStart(c: Column, period: nat): Option<nat>
    requires period >= 1
  {
    FirstDefined(RollingMean(Gains(c), period))
  }

  /** avg_gain after the loop. */
  function AvgGain(c: Column, period: nat): (r: Column)
    requires period >= 1
    ensures |r| == |c|
  {
    var g := Gains(c);
    var seed := RollingMean(g, period);
    var start := RsiStart(c, period);
    seq(|c|, i requires 0 <= i < |c| => Smoothed(seed, g, period, start, i))
  }

  /** avg_loss after the loop; it starts where avg_gain starts. */
  function AvgLoss(c: Column, period: nat): (r: Column)
    requires period >= 1
    ensures |r| == |c|
  {
    var l := Losses(c);
    var seed := RollingMean(l, period);
    var start := RsiStart(c, period);
    seq(|c|, i requires 0 <= i < |c| => Smoothed(seed, l, period, start, i))
  }

  /** 100 - 100 / (1 + gain / loss) under IEEE division: a zero average loss
      gives an infinite RS and so RSI 100, except 0 / 0, which is NaN. */
  function RsiOf(gain: Option<real>, loss: Option<real>): Option<real> {
    match (gain, loss)
    case (Some(g), Some(l)) =>
      if l == 0.0 then (if g == 0.0 then None else Some(100.0))
      else if 1.0 + g / l == 0.0 then None
      else Some(100.0 - 100.0 / (1.0 + g / l))
    case _ => None
  }

  function RsiColumn(c: Column, period: nat): (r: Column)
    requires period >= 1
    ensures |r| == |c|
  {
    var g, l := AvgGain(c, period), AvgLoss(c, period);
    seq(|c|, i requires 0 <= i < |c| => RsiOf(g[i], l[i]))
  }

  /** The smoothing loop of add_rsi: both averages start as their rolling-mean
      seeds, and every row after `start` is overwritten in place from the row
      before it. */
  method WilderSmooth(seedGain: Column, gain: Column, seedLoss: Column, loss: Column,
                      period: nat, start: Option<nat>)
    returns (avgGain: Column, avgLoss: Column)
    requires period >= 1 && |seedGain| == |gain| == |seedLoss| == |loss|
    ensures |avgGain| == |gain| && |avgLoss| == |loss|
    ensures forall j :: 0 <= j < |gain| ==> avgGain[j] == Smoothed(seedGain, gain, period, start, j)
    ensures forall j :: 0 <= j < |loss| ==> avgLoss[j] == Smoothed(seedLoss, loss, period, start, j)
  {
    var n := |gain|;
    var ag := new Option<real>[n](i requires 0 <= i < n => seedGain[i]);
    var al := new Option<real>[n](i requires 0 <= i < n => seedLoss[i]);
    var from := if start.Some? && start.value < n then start.value + 1 else n;
    SmoothedBeforeFrom(seedGain, gain, period, start, from);
    SmoothedBeforeFrom(seedLoss, loss, period, start, from);
    for i := from to n
      invariant forall j :: 0 <= j < i ==> ag[j] == Smoothed(seedGain, gain, period, start, j)
      invariant forall j :: 0 <= j < i ==> al[j] == Smoothed(seedLoss, loss, period, start, j)
    {
      ag[i] := WilderStep(ag[i - 1], gain[i], period);
      al[i] := WilderStep(al[i - 1], loss[i], period);
    }
    avgGain, avgLoss := ag[..], al[..];
  }

  /** Up to the row the loop starts from, the smoothed value is the seed; from
      there on each row is one Wilder step from the row before. */
  lemma SmoothedBeforeFrom(seed: Column, x: Column, period: nat, start: Option<nat>, from: nat)
    requires period >= 1 && |seed| == |x|
    requires from == if start.Some? && start.value < |x| then start.value + 1 else |x|
    ensures forall j :: 0 <= j < from ==> Smoothed(seed, x, period, start, j) == seed[j]
    ensures forall j :: from <= j < |x| ==>
      Smoothed(seed, x, period, start, j) == WilderStep(Smoothed(seed, x, period, start, j - 1), x[j], period)
  {
  }

  /** add_rsi: seeds avg_gain / avg_loss with rolling means, smooths them from
      the first defined gain seed on, and turns them into RSI. */
  method AddRsi(f: Frame, period: nat) returns (r: Frame)
    requires f.Valid() && Close in f.cols && period >= 1
    ensures r.Valid() && r.index == f.index && r.cols == f.cols[RSI := RsiColumn(f.cols[Close], period)]
  {
    var close := f.cols[Close];
    var n := |close|;
    var gain, loss := Gains(close), Losses(close);
    var avgGain, avgLoss := WilderSmooth(RollingMean(gain, period), gain, RollingMean(loss, period), loss,
                                         period, RsiStart(close, period));
    assert avgGain == AvgGain(close, period);
    assert avgLoss == AvgLoss(close, period);
    var rsi := seq(n, i requires 0 <= i < n => RsiOf(avgGain[i], avgLoss[i]));
    r := f.With(RSI, rsi);
  }

  /** c[0..i] are all defined. */
  predicate DefinedThrough(c: Column, i: nat) {
    i < |c| && forall j :: 0 <= j <= i ==> c[j].Some?
  }

  /** No seed is defined before row `period`: its window would reach row 0,
      where the difference is undefined. */
  lemma SeedUndefinedBeforePeriod(x: Column, period: nat, i: nat)
    requires period >= 1 && i < period && i < |x| && x[0].None?
    ensures RollingMean(x, period)[i].None?
  {
    if i + 1 >= period {
      WindowSumDefined(x, i + 1 - period, i + 1);
    }
  }

  /** The loop never starts before row `period`, so RSI is undefined on rows
      0 .. period - 1 (one more row than the rolling window alone would leave). */
  lemma RsiUndefinedBeforePeriod(c: Column, period: nat)
    requires period >= 1
    ensures RsiStart(c, period).Some? ==> RsiStart(c, period).value >= period
    ensures forall i :: 0 <= i < |c| && i < period ==> RsiColumn(c, period)[i].None?
  {
    var g := Gains(c);
    var seed := RollingMean(g, period);
    if |c| > 0 {
      assert g[0].None?;
      forall i | 0 <= i < |c| && i < period ensures seed[i].None? {
        SeedUndefinedBeforePeriod(g, period, i);
      }
    }
    forall i | 0 <= i < |c| && i < period
      ensures RsiColumn(c, period)[i].None?
    {
      assert AvgGain(c, period)[i] == seed[i];
    }
  }

  /** With the first period + 1 closes defined, the loop starts exactly at row `period`. */
  lemma RsiStartAtPeriod(c: Column, period: nat)
    requires period >= 1 && DefinedThrough(c, period)
    ensures RsiStart(c, period) == Some(period)
    ensures RollingMean(Gains(c), period)[period].Some? && RollingMean(Losses(c), period)[period].Some?
  {
    var g, l := Gains(c), Losses(c);
    var seed := RollingMean(g, period);
    forall j | 1 <= j <= period ensures g[j].Some? && l[j].Some? {
      GainLossDefined(c, j);
    }
    WindowSumDefined(g, 1, period + 1);
    WindowSumDefined(l, 1, period + 1);
    assert g[0].None?;
    forall i | 0 <= i < period ensures seed[i].None? {
      SeedUndefinedBeforePeriod(g, period, i);
    }
    assert seed[period].Some?;
  }

  /** The averages at row `period` are the plain means of the gains and of the
      losses of rows 1 .. period. */
  lemma RsiSeedAtPeriod(c: Column, period: nat)
    requires period >= 1 && DefinedThrough(c, period)
    ensures WindowSum(Gains(c), 1, period + 1).Some? && WindowSum(Losses(c), 1, period + 1).Some?
    ensures AvgGain(c, period)[period].Some? && AvgLoss(c, period)[period].Some?
    ensures AvgGain(c, period)[period].value == WindowSum(Gains(c), 1, period + 1).value / (period as real)
    ensures AvgLoss(c, period)[period].value == WindowSum(Losses(c), 1, period + 1).value / (period as real)
  {
    RsiStartAtPeriod(c, period);
    var g, l := Gains(c), Losses(c);
    assert AvgGain(c, period)[period] == RollingMean(g, period)[period];
    assert AvgLoss(c, period)[period] == RollingMean(l, period)[period];
  }

  lemma {:induction false} SmoothedDefined(seed: Column, x: Column, period: nat, k: nat, i: nat)
    requires period >= 1 && |seed| == |x| && k <= i < |x| && seed[k].Some?
    requires forall j :: k < j <= i ==> x[j].Some?
    ensures Smoothed(seed, x, period, Some(k), i).Some?
    decreases i
  {
    if i > k {
      SmoothedDefined(seed, x, period, k, i - 1);
    }
  }

  /** From row `period` on, over defined closes, both averages are defined. */
  lemma AveragesDefined(c: Column, period: nat, i: nat)
    requires period >= 1 && period <= i && DefinedThrough(c, i)
    ensures AvgGain(c, period)[i].Some? && AvgLoss(c, period)[i].Some?
  {
    var g, l := Gains(c), Losses(c);
    var sg, sl := RollingMean(g, period), RollingMean(l, period);
    RsiStartAtPeriod(c, period);
    forall j | period < j <= i ensures g[j].Some? && l[j].Some? {
      GainLossDefined(c, j);
    }
    SmoothedDefined(sg, g, period, period, i);
    SmoothedDefined(sl, l, period, period, i);
    assert AvgGain(c, period)[i] == Smoothed(sg, g, period, Some(period), i);
    assert AvgLoss(c, period)[i] == Smoothed(sl, l, period, Some(period), i);
  }

  lemma SmoothedStep(seed: Column, x: Column, period: nat, k: nat, i: nat)
    requires period >= 1 && |seed| == |x| && k < i < |x|
    requires Smoothed(seed, x, period, Some(k), i - 1).Some? && x[i].Some?
    ensures Smoothed(seed, x, period, Some(k), i).Some?
    ensures Smoothed(seed, x, period, Some(k), i).value ==
      WilderValue(Smoothed(seed, x, period, Some(k), i - 1).value, x[i].value, period)
  {
  }

  /** After the seed row, avg_gain follows avg[i] = (avg[i-1] * (period - 1) + gain[i]) / period. */
  lemma AvgGainRecurrence(c: Column, period: nat, i: nat)
    requires period >= 1 && period < i && DefinedThrough(c, i)
    ensures AvgGain(c, period)[i - 1].Some? && Gains(c)[i].Some? && AvgGain(c, period)[i].Some?
    ensures AvgGain(c, period)[i].value == WilderValue(AvgGain(c, period)[i - 1].value, Gains(c)[i].value, period)
  {
    RsiStartAtPeriod(c, period);
    AveragesDefined(c, period, i - 1);
    GainLossDefined(c, i);
    var g := Gains(c);
    var sg := RollingMean(g, period);
    assert AvgGain(c, period)[i - 1] == Smoothed(sg, g, period, Some(period), i - 1);
    SmoothedStep(sg, g, period, period, i);
    assert AvgGain(c, period)[i] == Smoothed(sg, g, period, Some(period), i);
  }

  /** After the seed row, avg_loss follows avg[i] = (avg[i-1] * (period - 1) + loss[i]) / period. */
  lemma AvgLossRecurrence(c: Column, period: nat, i: nat)
    requires period >= 1 && period < i && DefinedThrough(c, i)
    ensures AvgLoss(c, period)[i - 1].Some? && Losses(c)[i].Some? && AvgLoss(c, period)[i].Some?
    ensures AvgLoss(c, period)[i].value == WilderValue(AvgLoss(c, period)[i - 1].value, Losses(c)[i].value, period)
  {
    RsiStartAtPeriod(c, period);
    AveragesDefined(c, period, i - 1);
    GainLossDefined(c, i);
    var l := Losses(c);
    var sl := RollingMean(l, period);
    assert AvgLoss(c, period)[i - 1] == Smoothed(sl, l, period, Some(period), i - 1);
    SmoothedStep(sl, l, period, period, i);
    assert AvgLoss(c, period)[i] == Smoothed(sl, l, period, Some(period), i);
  }

  /** Every defined average of non-negative values is non-negative. */
  lemma {:induction false} SmoothedNonNegative(seed: Column, x: Column, period: nat, start: Option<nat>, i: nat)
    requires period >= 1 && |seed| == |x| && i < |x|
    requires forall j :: 0 <= j < |x| && x[j].Some? ==> x[j].value >= 0.0
    requires forall j :: 0 <= j < |seed| && seed[j].Some? ==> seed[j].value >= 0.0
    ensures Smoothed(seed, x, period, start, i).Some? ==> Smoothed(seed, x, period, start, i).value >= 0.0
  {
    if start.Some? && i > start.value {
      SmoothedNonNegative(seed, x, period, start, i - 1);
      var prev := Smoothed(seed, x, period, start, i - 1);
      if prev.Some? && x[i].Some? {
        WilderValueSign(prev.value, x[i].value, period);
      }
    }
  }

  lemma RollingMeanNonNegative(x: Column, period: nat)
    requires period >= 1
    requires forall j :: 0 <= j < |x| && x[j].Some? ==> x[j].value >= 0.0
    ensures forall j :: 0 <= j < |x| && RollingMean(x, period)[j].Some? ==> RollingMean(x, period)[j].value >= 0.0
  {
    forall j | 0 <= j < |x| && RollingMean(x, period)[j].Some?
      ensures RollingMean(x, period)[j].value >= 0.0
    {
      WindowSumNonNegative(x, j + 1 - period, j + 1);
    }
  }

  lemma {:induction false} WindowSumNonNegative(c: Column, lo: nat, hi: nat)
    requires lo <= hi <= |c|
    requires forall j :: lo <= j < hi && c[j].Some? ==> c[j].value >= 0.0
    ensures WindowSum(c, lo, hi).Some? ==> WindowSum(c, lo, hi).value >= 0.0
    decreases hi
  {
    if lo < hi {
      WindowSumNonNegative(c, lo, hi - 1);
    }
  }

  lemma RsiOfInRange(g: real, l: real)
    requires g >= 0.0 && l >= 0.0
    ensures RsiOf(Some(g), Some(l)).Some? ==> 0.0 <= RsiOf(Some(g), Some(l)).value <= 100.0
  {
    if l != 0.0 {
      var rs := g / l;
      assert rs >= 0.0;
      assert 100.0 / (1.0 + rs) <= 100.0 by {
        assert 100.0 / (1.0 + rs) * (1.0 + rs) == 100.0;
      }
    }
  }

  /** Wherever RSI is defined it lies in [0, 100]. */
  lemma RsiInRange(c: Column, period: nat, i: nat)
    requires period >= 1 && i < |c|
    ensures RsiColumn(c, period)[i].Some? ==> 0.0 <= RsiColumn(c, period)[i].value <= 100.0
  {
    var g, l := Gains(c), Losses(c);
    forall j | 0 <= j < |c| ensures g[j].Some? ==> g[j].value >= 0.0
      ensures l[j].Some? ==> l[j].value >= 0.0
    {
      GainLossDefined(c, j);
    }
    RollingMeanNonNegative(g, period);
    RollingMeanNonNegative(l, period);
    var start := RsiStart(c, period);
    SmoothedNonNegative(RollingMean(g, period), g, period, start, i);
    SmoothedNonNegative(RollingMean(l, period), l, period, start, i);
    var ag, al := AvgGain(c, period)[i], AvgLoss(c, period)[i];
    assert ag == Smoothed(RollingMean(g, period), g, period, start, i);
    assert al == Smoothed(RollingMean(l, period), l, period, start, i);
    if ag.Some? && al.Some? {
      RsiOfInRange(ag.value, al.value);
    }
  }

  /** Every close is defined and above the one before. */
  predicate StrictlyRising(c: Column) {
    AllDefined(c) && forall i :: 1 <= i < |c| ==> c[i - 1].value < c[i].value
  }

  /** On a rising series every change is a gain and no change a loss. */
  lemma RisingChange(c: Column, j: nat)
    requires StrictlyRising(c) && 1 <= j < |c|
    ensures Gains(c)[j].Some? && Gains(c)[j].value > 0.0
    ensures Losses(c)[j] == Some(0.0)
  {
    assert c[j - 1].value < c[j].value;
    GainLossDefined(c, j);
  }

  /** The seed averages at row `period` of a rising series. */
  lemma RisingSeed(c: Column, period: nat)
    requires period >= 1 && StrictlyRising(c) && period < |c|
    ensures AvgLoss(c, period)[period].Some? && AvgLoss(c, period)[period].value == 0.0
    ensures AvgGain(c, period)[period].Some? && AvgGain(c, period)[period].value > 0.0
  {
    var g, l := Gains(c), Losses(c);
    RsiSeedAtPeriod(c, period);
    forall j | 1 <= j < period + 1 ensures l[j] == Some(0.0) && g[j].Some? && g[j].value > 0.0 {
      RisingChange(c, j);
    }
    WindowSumConstant(l, 1, period + 1, 0.0);
    WindowSumPositive(g, 1, period + 1);
    var sg, sl := WindowSum(g, 1, period + 1).value, WindowSum(l, 1, period + 1).value;
    assert sl == 0.0;
    PositiveQuotient(sg, period as real);
  }

  lemma PositiveQuotient(a: real, b: real)
    requires a > 0.0 && b > 0.0
    ensures a / b > 0.0
  {
  }

  /** One smoothing step on a rising series keeps avg_gain positive and avg_loss 0. */
  lemma RisingStep(c: Column, period: nat, i: nat)
    requires period >= 1 && StrictlyRising(c) && period < i < |c|
    requires AvgLoss(c, period)[i - 1].Some? && AvgLoss(c, period)[i - 1].value == 0.0
    requires AvgGain(c, period)[i - 1].Some? && AvgGain(c, period)[i - 1].value > 0.0
    ensures AvgLoss(c, period)[i].Some? && AvgLoss(c, period)[i].value == 0.0
    ensures AvgGain(c, period)[i].Some? && AvgGain(c, period)[i].value > 0.0
  {
    AvgGainRecurrence(c, period, i);
    AvgLossRecurrence(c, period, i);
    RisingChange(c, i);
    WilderValueSign(AvgGain(c, period)[i - 1].value, Gains(c)[i].value, period);
    WilderValueSign(AvgLoss(c, period)[i - 1].value, Losses(c)[i].value, period);
  }

  lemma {:induction false} RisingAverages(c: Column, period: nat, i: nat)
    requires period >= 1 && StrictlyRising(c) && period <= i < |c|
    ensures AvgLoss(c, period)[i].Some? && AvgLoss(c, period)[i].value == 0.0
    ensures AvgGain(c, period)[i].Some? && AvgGain(c, period)[i].value > 0.0
    decreases i
  {
    if i == period {
      RisingSeed(c, period);
    } else {
      RisingAverages(c, period, i - 1);
      RisingStep(c, period, i);
    }
  }

  /** A strictly rising close series has no losses: avg_loss is 0 and avg_gain
      positive, so RSI is 100 on every row from `period` on. */
  lemma RsiOfRisingSeries(c: Column, period: nat)
    requires period >= 1 && StrictlyRising(c)
    ensures forall i :: period <= i < |c| ==> RsiColumn(c, period)[i] == Some(100.0)
  {
    forall i | period <= i < |c| ensures RsiColumn(c, period)[i] == Some(100.0) {
      RisingAverages(c, period, i);
    }
  }

  /** Every close is defined and equal to the one before. */
  predicate ConstantSeries(c: Column) {
    AllDefined(c) && forall i :: 1 <= i < |c| ==> c[i - 1].value == c[i].value
  }

  /** On a constant series every change is 0: neither a gain nor a loss. */
  lemma FlatChange(c: Column, j: nat)
    requires ConstantSeries(c) && 1 <= j < |c|
    ensures Gains(c)[j] == Some(0.0) && Losses(c)[j] == Some(0.0)
  {
    assert c[j - 1].value == c[j].value;
    GainLossDefined(c, j);
  }

  /** The seed averages at row `period` of a constant series are 0. */
  lemma FlatSeed(c: Column, period: nat)
    requires period >= 1 && ConstantSeries(c) && period < |c|
    ensures AvgGain(c, period)[period] == Some(0.0) && AvgLoss(c, period)[period] == Some(0.0)
  {
    var g, l := Gains(c), Losses(c);
    RsiSeedAtPeriod(c, period);
    forall j | 1 <= j < period + 1 ensures g[j] == Some(0.0) && l[j] == Some(0.0) {
      FlatChange(c, j);
    }
    WindowSumConstant(g, 1, period + 1, 0.0);
    WindowSumConstant(l, 1, period + 1, 0.0);
    var sg, sl := WindowSum(g, 1, period + 1).value, WindowSum(l, 1, period + 1).value;
    assert sg == 0.0 && sl == 0.0;
    assert AvgGain(c, period)[period].value == 0.0 / (period as real);
    assert AvgLoss(c, period)[period].value == 0.0 / (period as real);
  }

  /** One smoothing step on a constant series keeps both averages at 0. */
  lemma FlatStep(c: Column, period: nat, i: nat)
    requires period >= 1 && ConstantSeries(c) && period < i < |c|
    requires AvgGain(c, period)[i - 1] == Some(0.0) && AvgLoss(c, period)[i - 1] == Some(0.0)
    ensures AvgGain(c, period)[i] == Some(0.0) && AvgLoss(c, period)[i] == Some(0.0)
  {
    AvgGainRecurrence(c, period, i);
    AvgLossRecurrence(c, period, i);
    FlatChange(c, i);
    WilderValueSign(0.0, 0.0, period);
  }

  /** Both averages are 0 from row `period` on on a constant series. */
  lemma {:induction false} FlatAverages(c: Column, period: nat, i: nat)
    requires period >= 1 && ConstantSeries(c) && period <= i < |c|
    ensures AvgGain(c, period)[i] == Some(0.0) && AvgLoss(c, period)[i] == Some(0.0)
    decreases i
  {
    if i == period {
      FlatSeed(c, period);
    } else {
      FlatAverages(c, period, i - 1);
      FlatStep(c, period, i);
    }
  }

  /** add_rsi has no guard for 0 / 0: on a constant close series both averages
      are 0, so RSI is NaN on every row, the first `period` rows included. */
  lemma RsiOfConstantSeries(c: Column, period: nat)
    requires period >= 1 && ConstantSeries(c)
    ensures forall i :: 0 <= i < |c| ==> RsiColumn(c, period)[i] == None
  {
    RsiUndefinedBeforePeriod(c, period);
    forall i | period <= i < |c| ensures RsiColumn(c, period)[i] == None {
      FlatAverages(c, period, i);
    }
  }

  // ---------------------------------------------------------------------
  // Percentage changes
  // ---------------------------------------------------------------------

  /** (now / before - 1) * 100 */
  function PctValue(now: real, before: real): real
    requires before != 0.0
  {
    (now / before - 1.0) * 100.0
  }

  /** A change applied to its base gives back the later value. */
  lemma PctValueInverse(now: real, before: real)
    requires before != 0.0
    ensures before * (1.0 + PctValue(now, before) / 100.0) == now
  {
  }

  /** A zero base (an infinite change) is undefined here. */
  function PctOf(now: Option<real>, before: Option<real>): Option<real> {
    match (now, before)
    case (Some(a), Some(b)) => if b == 0.0 then None else Some(PctValue(a, b))
    case _ => None
  }

  /** Series.pct_change(periods=lag), which forward-fills before dividing. */
  function PctChange(c: Column, lag: nat): (r: Column)
    requires lag >= 1
    ensures |r| == |c|
  {
    var filled := Ffill(c);
    seq(|c|, i requires 0 <= i < |c| => if i < lag then None else PctOf(filled[i], filled[i - lag]))
  }

  /** The close in force at row i: the last defined close at or before it. */
  function CloseInForce(c: Column, i: nat): Option<real>
    requires i < |c|
  {
    match LastDefinedAtOrBefore(c, i)
    case None => None
    case Some(j) => c[j]
  }

  /** A change compares the closes in force `lag` rows apart, so a missing close
      does not break the series; a defined change applied to the earlier close
      gives back the later one. */
  lemma PctChangeRoundTrip(c: Column, lag: nat, i: nat)
    requires lag >= 1 && i < |c|
    ensures PctChange(c, lag)[i].Some? <==>
      i >= lag && CloseInForce(c, i).Some? && CloseInForce(c, i - lag).Some? && CloseInForce(c, i - lag).value != 0.0
    ensures PctChange(c, lag)[i].Some? ==>
      CloseInForce(c, i).value == CloseInForce(c, i - lag).value * (1.0 + PctChange(c, lag)[i].value / 100.0)
  {
    if i >= lag {
      FfillAt(c, i);
      FfillAt(c, i - lag);
      assert Ffill(c)[i] == CloseInForce(c, i);
      assert Ffill(c)[i - lag] == CloseInForce(c, i - lag);
      var now, before := CloseInForce(c, i), CloseInForce(c, i - lag);
      if now.Some? && before.Some? && before.value != 0.0 {
        PctValueInverse(now.value, before.value);
      }
    }
  }

  /** Over fully defined closes: the change at i is defined exactly when i >= lag
      and the close lag rows earlier is non-zero. */
  lemma PctChangeOfDefined(c: Column, lag: nat, i: nat)
    requires lag >= 1 && i < |c| && AllDefined(c)
    ensures PctChange(c, lag)[i].Some? <==> i >= lag && c[i - lag].value != 0.0
    ensures PctChange(c, lag)[i].Some? ==> c[i].value == c[i - lag].value * (1.0 + PctChange(c, lag)[i].value / 100.0)
  {
    PctChangeRoundTrip(c, lag, i);
    if i >= lag {
      assert CloseInForce(c, i) == c[i];
      assert CloseInForce(c, i - lag) == c[i - lag];
    }
  }

  /** add_price_changes: daily (lag 1) and weekly (lag 5) percentage changes. */
  method AddPriceChanges(f: Frame) returns (r: Frame)
    requires f.Valid() && Close in f.cols
    ensures r.Valid() && r.index == f.index
    ensures r.cols == f.cols[DailyPctChange := PctChange(f.cols[Close], 1)]
                            [WeeklyPctChange := PctChange(f.cols[Close], 5)]
  {
    var close := f.cols[Close];
    r := f.With(DailyPctChange, PctChange(close, 1));
    r := r.With(WeeklyPctChange, PctChange(close, 5));
  }

  // ---------------------------------------------------------------------
  // MACD: exponential averages with adjust=False
  // ---------------------------------------------------------------------

  /** The running state of ewm(adjust=False).mean(): the current average and
      the weight of the old average, which decays across missing values. */
  datatype EwmState = EwmState(average: Option<real>, oldWeight: real)

  function EwmStep(st: EwmState, x: Option<real>, alpha: real): (r: EwmState)
    requires 0.0 < alpha <= 1.0 && st.oldWeight >= 0.0
    ensures r.oldWeight >= 0.0
  {
    match st.average
    case None => if x.Some? then EwmState(x, 1.0) else st
    case Some(w) =>
      var decayed := st.oldWeight * (1.0 - alpha);
      assert decayed >= 0.0;
      match x
      case None => EwmState(Some(w), decayed)
      case Some(v) => EwmState(Some((decayed * w + alpha * v) / (decayed + alpha)), 1.0)
  }

  /** The state after the first n values. */
  function EwmAfter(x: Column, alpha: real, n: nat): (st: EwmState)
    requires 0.0 < alpha <= 1.0 && n <= |x|
    ensures st.oldWeight >= 0.0
  {
    if n == 0 then EwmState(None, 1.0)
    else EwmStep(EwmAfter(x, alpha, n - 1), x[n - 1], alpha)
  }

  function Alpha(span: nat): (a: real)
    requires span >= 1
    ensures 0.0 < a <= 1.0
  {
    2.0 / (span as real + 1.0)
  }

  /** Series.ewm(span=span, adjust=False).mean() */
  function Ewm(x: Column, span: nat): (r: Column)
    requires span >= 1
    ensures |r| == |x|
  {
    seq(|x|, i requires 0 <= i < |x| => EwmAfter(x, Alpha(span), i + 1).average)
  }

  lemma {:induction false} EwmAfterDefined(x: Column, alpha: real, n: nat)
    requires 0.0 < alpha <= 1.0 && 1 <= n <= |x| && AllDefined(x[..n])
    ensures EwmAfter(x, alpha, n).average.Some? && EwmAfter(x, alpha, n).oldWeight == 1.0
  {
    assert x[n - 1] == x[..n][n - 1];
    if n > 1 {
      assert x[..n][..n - 1] == x[..n - 1];
      EwmAfterDefined(x, alpha, n - 1);
    }
  }

  /** The average starts at the first defined value and is never lost again:
      a missing value only decays the old weight. */
  lemma {:induction false} EwmStartsAtFirstValue(x: Column, alpha: real, n: nat)
    requires 0.0 < alpha <= 1.0 && n <= |x|
    ensures EwmAfter(x, alpha, n).average.Some? <==> exists j :: 0 <= j < n && x[j].Some?
  {
    if n > 0 {
      EwmStartsAtFirstValue(x, alpha, n - 1);
      if x[n - 1].Some? {
        assert exists j :: 0 <= j < n && x[j].Some?;
      } else if exists j :: 0 <= j < n && x[j].Some? {
        var j :| 0 <= j < n && x[j].Some?;
        assert j < n - 1;
      }
    }
  }

  /** Over any closes, the exponential average at row i is defined exactly when
      some close at or before row i is. */
  lemma EwmDefinedness(x: Column, span: nat, i: nat)
    requires span >= 1 && i < |x|
    ensures Ewm(x, span)[i].Some? <==> exists j :: 0 <= j <= i && x[j].Some?
  {
    EwmStartsAtFirstValue(x, Alpha(span), i + 1);
    assert Ewm(x, span)[i] == EwmAfter(x, Alpha(span), i + 1).average;
  }

  lemma EwmBlend(w: real, v: real, alpha: real)
    requires 0.0 < alpha <= 1.0
    ensures EwmStep(EwmState(Some(w), 1.0), Some(v), alpha).average.Some?
    ensures EwmStep(EwmState(Some(w), 1.0), Some(v), alpha).average.value == alpha * v + (1.0 - alpha) * w
  {
    var d := 1.0 * (1.0 - alpha);
    var num := d * w + alpha * v;
    assert d + alpha == 1.0;
    assert num / (d + alpha) == num;
    assert num == alpha * v + (1.0 - alpha) * w;
  }

  lemma EwmAfterRecurrence(x: Column, alpha: real, i: nat)
    requires 0.0 < alpha <= 1.0 && AllDefined(x) && 1 <= i < |x|
    ensures EwmAfter(x, alpha, i).average.Some?
    ensures EwmAfter(x, alpha, i + 1).average.Some?
    ensures EwmAfter(x, alpha, i + 1).average.value ==
      alpha * x[i].value + (1.0 - alpha) * EwmAfter(x, alpha, i).average.value
  {
    EwmAfterDefined(x, alpha, i);
    var prev := EwmAfter(x, alpha, i);
    assert prev == EwmState(Some(prev.average.value), 1.0);
    EwmBlend(prev.average.value, x[i].value, alpha);
  }

  /** Over defined values the average is seeded with the first value and then
      follows alpha * x[i] + (1 - alpha) * ewm[i-1], alpha = 2 / (span + 1). */
  lemma EwmRecurrence(x: Column, span: nat, i: nat)
    requires span >= 1 && AllDefined(x) && 1 <= i < |x|
    ensures Ewm(x, span)[0] == x[0]
    ensures Ewm(x, span)[i - 1].Some?
    ensures Ewm(x, span)[i].Some?
    ensures Ewm(x, span)[i].value == Alpha(span) * x[i].value + (1.0 - Alpha(span)) * Ewm(x, span)[i - 1].value
  {
    var a := Alpha(span);
    EwmAfterRecurrence(x, a, i);
    assert Ewm(x, span)[i] == EwmAfter(x, a, i + 1).average;
    assert Ewm(x, span)[i - 1] == EwmAfter(x, a, i).average;
    assert Ewm(x, span)[0] == EwmAfter(x, a, 1).average;
    assert x[0] == x[..1][0];
    EwmAfterDefined(x, a, 1);
  }

  function Minus(a: Option<real>, b: Option<real>): Option<real> {
    match (a, b)
    case (Some(x), Some(y)) => Some(x - y)
    case _ => None
  }

  /** EMA(fast) - EMA(slow) */
  function MacdLine(c: Column, fast: nat, slow: nat): (r: Column)
    requires fast >= 1 && slow >= 1
    ensures |r| == |c|
  {
    var ef, es := Ewm(c, fast), Ewm(c, slow);
    seq(|c|, i requires 0 <= i < |c| => Minus(ef[i], es[i]))
  }

  /** EMA(signal) of the MACD line */
  function MacdSignal(c: Column, fast: nat, slow: nat, signal: nat): (r: Column)
    requires fast >= 1 && slow >= 1 && signal >= 1
    ensures |r| == |c|
  {
    Ewm(MacdLine(c, fast, slow), signal)
  }

  /** MACD line - signal line */
  function MacdHistogram(c: Column, fast: nat, slow: nat, signal: nat): (r: Column)
    requires fast >= 1 && slow >= 1 && signal >= 1
    ensures |r| == |c|
  {
    var m, s := MacdLine(c, fast, slow), MacdSignal(c, fast, slow, signal);
    seq(|c|, i requires 0 <= i < |c| => Minus(m[i], s[i]))
  }

  /** calculate_macd: MACD, MACD_Signal and MACD_Histogram on a copy of the frame. */
  method CalculateMacd(f: Frame, fast: nat, slow: nat, signal: nat) returns (r: Frame)
    requires f.Valid() && Close in f.cols && fast >= 1 && slow >= 1 && signal >= 1
    ensures r.Valid() && r.index == f.index
    ensures r.cols == f.cols[MACD := MacdLine(f.cols[Close], fast, slow)]
                            [MACDSignal := MacdSignal(f.cols[Close], fast, slow, signal)]
                            [MACDHistogram := MacdHistogram(f.cols[Close], fast, slow, signal)]
  {
    var c := f.cols[Close];
    r := f.With(MACD, MacdLine(c, fast, slow));
    r := r.With(MACDSignal, MacdSignal(c, fast, slow, signal));
    r := r.With(MACDHistogram, MacdHistogram(c, fast, slow, signal));
  }

  lemma EwmAllDefined(x: Column, span: nat)
    requires span >= 1 && AllDefined(x)
    ensures AllDefined(Ewm(x, span))
  {
    forall i | 0 <= i < |x| ensures Ewm(x, span)[i].Some? {
      EwmDefinedness(x, span, i);
    }
  }

  /** The MACD line, the signal and the histogram are defined from the first
      defined close on (there is no warm-up gap), and histogram + signal = MACD. */
  lemma MacdDefinedness(c: Column, fast: nat, slow: nat, signal: nat, i: nat)
    requires fast >= 1 && slow >= 1 && signal >= 1 && i < |c|
    ensures MacdLine(c, fast, slow)[i].Some? <==> exists j :: 0 <= j <= i && c[j].Some?
    ensures MacdSignal(c, fast, slow, signal)[i].Some? <==> MacdLine(c, fast, slow)[i].Some?
    ensures MacdHistogram(c, fast, slow, signal)[i].Some? <==> MacdLine(c, fast, slow)[i].Some?
    ensures MacdHistogram(c, fast, slow, signal)[i].Some? ==>
      MacdHistogram(c, fast, slow, signal)[i].value + MacdSignal(c, fast, slow, signal)[i].value
        == MacdLine(c, fast, slow)[i].value
  {
    var m := MacdLine(c, fast, slow);
    EwmDefinedness(c, fast, i);
    EwmDefinedness(c, slow, i);
    EwmDefinedness(m, signal, i);
    if exists j :: 0 <= j <= i && m[j].Some? {
      var j :| 0 <= j <= i && m[j].Some?;
      EwmDefinedness(c, fast, j);
      EwmDefinedness(c, slow, j);
      var k :| 0 <= k <= j && c[k].Some?;
    } else if m[i].None? {
      // the line is undefined up to i exactly when no close is defined up to i
      forall j | 0 <= j <= i ensures c[j].None? {
        EwmDefinedness(c, fast, i);
      }
    }
  }

  // ---------------------------------------------------------------------
  // Bollinger bands
  // ---------------------------------------------------------------------

  function Plus(a: Option<real>, b: Option<real>): Option<real> {
    match (a, b)
    case (Some(x), Some(y)) => Some(x + y)
    case _ => None
  }

  function Times(k: real, a: Option<real>): Option<real> {
    match a
    case Some(x) => Some(k * x)
    case None => None
  }

  /** (upper - lower) / middle * 100; a zero middle band (an infinite width) is undefined here. */
  function WidthOf(upper: Option<real>, lower: Option<real>, middle: Option<real>): Option<real> {
    match (upper, lower, middle)
    case (Some(u), Some(l), Some(m)) => if m == 0.0 then None else Some((u - l) / m * 100.0)
    case _ => None
  }

  /** middle + numStd * std, where std is the rolling standard deviation of the closes */
  function UpperBand(c: Column, window: nat, numStd: real, std: Column): (r: Column)
    requires window >= 1 && |std| == |c|
    ensures |r| == |c|
  {
    var middle := RollingMean(c, window);
    seq(|c|, i requires 0 <= i < |c| => Plus(middle[i], Times(numStd, std[i])))
  }

  /** middle - numStd * std */
  function LowerBand(c: Column, window: nat, numStd: real, std: Column): (r: Column)
    requires window >= 1 && |std| == |c|
    ensures |r| == |c|
  {
    var middle := RollingMean(c, window);
    seq(|c|, i requires 0 <= i < |c| => Minus(middle[i], Times(numStd, std[i])))
  }

  /** (upper - lower) / middle * 100 */
  function BandWidth(c: Column, window: nat, numStd: real, std: Column): (r: Column)
    requires window >= 1 && |std| == |c|
    ensures |r| == |c|
  {
    var middle, upper, lower := RollingMean(c, window), UpperBand(c, window, numStd, std), LowerBand(c, window, numStd, std);
    seq(|c|, i requires 0 <= i < |c| => WidthOf(upper[i], lower[i], middle[i]))
  }

  /** calculate_bollinger, given the rolling sample standard deviation of the
      closes over the same window. */
  method CalculateBollinger(f: Frame, window: nat, numStd: real, std: Column) returns (r: Frame)
    requires f.Valid() && Close in f.cols && window >= 1 && |std| == f.Rows()
    ensures r.Valid() && r.index == f.index
    ensures r.cols == f.cols[BBMiddle := RollingMean(f.cols[Close], window)]
                            [BBUpper := UpperBand(f.cols[Close], window, numStd, std)]
                            [BBLower := LowerBand(f.cols[Close], window, numStd, std)]
                            [BBWidth := BandWidth(f.cols[Close], window, numStd, std)]
  {
    var c := f.cols[Close];
    r := f.With(BBMiddle, RollingMean(c, window));
    r := r.With(BBUpper, UpperBand(c, window, numStd, std));
    r := r.With(BBLower, LowerBand(c, window, numStd, std));
    r := r.With(BBWidth, BandWidth(c, window, numStd, std));
  }

  lemma QuotientOfEquals(a: real, b: real, m: real)
    requires a == b && m != 0.0
    ensures a / m * 100.0 == b / m * 100.0
  {
  }

  /** The bands sit numStd standard deviations either side of the middle band,
      so upper >= middle >= lower for a non-negative spread; none is defined
      before the window is full; the width is 2 * numStd * std / middle * 100. */
  lemma BollingerBands(c: Column, window: nat, numStd: real, std: Column, i: nat)
    requires window >= 1 && |std| == |c| && i < |c|
    ensures var middle, upper, lower, width :=
        RollingMean(c, window)[i], UpperBand(c, window, numStd, std)[i],
        LowerBand(c, window, numStd, std)[i], BandWidth(c, window, numStd, std)[i];
      && (upper.Some? <==> middle.Some? && std[i].Some?)
      && (lower.Some? <==> upper.Some?)
      && (width.Some? <==> upper.Some? && middle.value != 0.0)
      && (i + 1 < window ==> middle.None? && upper.None? && lower.None? && width.None?)
      && (upper.Some? ==>
            && upper.value - middle.value == numStd * std[i].value
            && middle.value - lower.value == numStd * std[i].value
            && (numStd >= 0.0 && std[i].value >= 0.0 ==> upper.value >= middle.value >= lower.value))
      && (width.Some? ==> width.value == 2.0 * numStd * std[i].value / middle.value * 100.0)
  {
    var m := RollingMean(c, window)[i];
    if m.Some? && std[i].Some? && m.value != 0.0 {
      var s := std[i].value;
      QuotientOfEquals((m.value + numStd * s) - (m.value - numStd * s), 2.0 * numStd * s, m.value);
    }
  }

  // ---------------------------------------------------------------------
  // compute_all_technicals
  // ---------------------------------------------------------------------

  /** The columns set after the moving averages. */
  const LaterColumns: set<Col> :=
    {RSI, DailyPctChange, WeeklyPctChange, MACD, MACDSignal, MACDHistogram, BBMiddle, BBUpper, BBLower, BBWidth}

  /** The columns compute_all_technicals adds (historical volatility aside). */
  const TechnicalColumns: set<Col> := {MA(20), MA(50), MA(200)} + LaterColumns

  /** The columns compute_all_technicals leaves on a frame with columns `m`
      and close `c`, each stage reading the close the one before left alone. */
  function Technicals(m: map<Col, Column>, c: Column, std20: Column): map<Col, Column>
    requires |std20| == |c|
  {
    WithAverages(m, c, [20, 50, 200])
      [RSI := RsiColumn(c, 14)]
      [DailyPctChange := PctChange(c, 1)][WeeklyPctChange := PctChange(c, 5)]
      [MACD := MacdLine(c, 12, 26)][MACDSignal := MacdSignal(c, 12, 26, 9)]
      [MACDHistogram := MacdHistogram(c, 12, 26, 9)]
      [BBMiddle := RollingMean(c, 20)][BBUpper := UpperBand(c, 20, 2.0, std20)]
      [BBLower := LowerBand(c, 20, 2.0, std20)][BBWidth := BandWidth(c, 20, 2.0, std20)]
  }

  /** Runs the indicators in the source's order with their default parameters:
      MAs 20/50/200, RSI 14, price changes, MACD 12/26/9, Bollinger 20 / 2.0. */
  method ComputeAllTechnicals(f: Frame, std20: Column) returns (r: Frame)
    requires f.Valid() && Close in f.cols && |std20| == f.Rows()
    ensures r.Valid() && r.index == f.index
    ensures r.cols == Technicals(f.cols, f.cols[Close], std20)
  {
    var c := f.cols[Close];
    var f1 := AddMovingAverages(f, [20, 50, 200]);
    KeepsClose(f, c, [20, 50, 200]);
    var f2 := AddRsi(f1, 14);
    var f3 := AddPriceChanges(f2);
    var f4 := CalculateMacd(f3, 12, 26, 9);
    r := CalculateBollinger(f4, 20, 2.0, std20);
  }

  /** The moving averages leave the close alone. */
  lemma KeepsClose(f: Frame, close: Column, ws: seq<nat>)
    requires forall k :: 0 <= k < |ws| ==> ws[k] >= 1
    requires Close in f.cols
    ensures Close in WithAverages(f.cols, close, ws)
    ensures WithAverages(f.cols, close, ws)[Close] == f.cols[Close]
  {
    AveragesAdded(f, close, ws);
  }

  /** compute_all_technicals adds exactly the technical columns, keeps every
      other column, and each added column is its indicator of the close. */
  lemma TechnicalsAdded(f: Frame, std20: Column)
    requires Close in f.cols && |std20| == |f.cols[Close]|
    ensures OnlyAdds(f, Frame(f.index, Technicals(f.cols, f.cols[Close], std20)), TechnicalColumns)
    ensures var c, t := f.cols[Close], Technicals(f.cols, f.cols[Close], std20);
      && t[MA(20)] == RollingMean(c, 20) && t[MA(50)] == RollingMean(c, 50)
      && t[MA(200)] == RollingMean(c, 200)
      && t[RSI] == RsiColumn(c, 14)
      && t[DailyPctChange] == PctChange(c, 1) && t[WeeklyPctChange] == PctChange(c, 5)
      && t[MACD] == MacdLine(c, 12, 26) && t[MACDSignal] == MacdSignal(c, 12, 26, 9)
      && t[MACDHistogram] == MacdHistogram(c, 12, 26, 9)
      && t[BBMiddle] == RollingMean(c, 20)
      && t[BBUpper] == UpperBand(c, 20, 2.0, std20)
      && t[BBLower] == LowerBand(c, 20, 2.0, std20)
      && t[BBWidth] == BandWidth(c, 20, 2.0, std20)
  {
    var c := f.cols[Close];
    var m := WithAverages(f.cols, c, [20, 50, 200]);
    AveragesAdded(f, c, [20, 50, 200]);
    assert MaColumns([20, 50, 200]) == {MA(20), MA(50), MA(200)};
    assert 20 in [20, 50, 200] && 50 in [20, 50, 200] && 200 in [20, 50, 200];
    SetTenColumns(f, Frame(f.index, m), Frame(f.index, Technicals(f.cols, c, std20)),
                  RsiColumn(c, 14), PctChange(c, 1), PctChange(c, 5),
                  MacdLine(c, 12, 26), MacdSignal(c, 12, 26, 9), MacdHistogram(c, 12, 26, 9),
                  RollingMean(c, 20), UpperBand(c, 20, 2.0, std20), LowerBand(c, 20, 2.0, std20),
                  BandWidth(c, 20, 2.0, std20));
  }

  /** Setting the ten columns that follow the moving averages. */
  lemma SetTenColumns(f: Frame, f1: Frame, r: Frame,
                      rsi: Column, daily: Column, weekly: Column,
                      macd: Column, signal: Column, hist: Column,
                      middle: Column, upper: Column, lower: Column, width: Column)
    requires OnlyAdds(f, f1, {MA(20), MA(50), MA(200)})
    requires r.index == f1.index
    requires r.cols == f1.cols[RSI := rsi][DailyPctChange := daily][WeeklyPctChange := weekly]
                              [MACD := macd][MACDSignal := signal][MACDHistogram := hist]
                              [BBMiddle := middle][BBUpper := upper][BBLower := lower][BBWidth := width]
    ensures OnlyAdds(f, r, TechnicalColumns)
    ensures forall w :: w in {20, 50, 200} ==> r.cols[MA(w)] == f1.cols[MA(w)]
    ensures r.cols[RSI] == rsi && r.cols[DailyPctChange] == daily && r.cols[WeeklyPctChange] == weekly
    ensures r.cols[MACD] == macd && r.cols[MACDSignal] == signal && r.cols[MACDHistogram] == hist
    ensures r.cols[BBMiddle] == middle && r.cols[BBUpper] == upper
    ensures r.cols[BBLower] == lower && r.cols[BBWidth] == width
  {
    TenColumnsAdded(f1.cols, r.cols, rsi, daily, weekly, macd, signal, hist, middle, upper, lower, width);
    AddsThen(f, f1, r, {MA(20), MA(50), MA(200)}, LaterColumns);
  }

  lemma TenColumnsAdded(before: map<Col, Column>, after: map<Col, Column>,
                        rsi: Column, daily: Column, weekly: Column,
                        macd: Column, signal: Column, hist: Column,
                        middle: Column, upper: Column, lower: Column, width: Column)
    requires after == before[RSI := rsi][DailyPctChange := daily][WeeklyPctChange := weekly]
                            [MACD := macd][MACDSignal := signal][MACDHistogram := hist]
                            [BBMiddle := middle][BBUpper := upper][BBLower := lower][BBWidth := width]
    ensures forall k :: k in after <==> k in before || k in LaterColumns
    ensures forall k :: k in before && k !in LaterColumns ==> after[k] == before[k]
    ensures after[RSI] == rsi && after[DailyPctChange] == daily && after[WeeklyPctChange] == weekly
    ensures after[MACD] == macd && after[MACDSignal] == signal && after[MACDHistogram] == hist
    ensures after[BBMiddle] == middle && after[BBUpper] == upper
    ensures after[BBLower] == lower && after[BBWidth] == width
  {
  }
}
