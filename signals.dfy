/**
 * Signal detectors: decision rules over the last rows of a frame that
 * already carries the technical columns. Each detector returns a fresh list
 * of at most two signals, all dated at the last row; `DetectAllSignals`
 * concatenates them in a fixed order.
 */
module Signals {
  import opened Common
  import opened Frames

  datatype Severity = Info | Warning | Alert

  datatype SignalKind =
    | GoldenCross20To50 | DeathCross20To50
    | GoldenCross50To200 | DeathCross50To200
    | VolumeSpike
    | RsiOverbought | RsiOversold
    | BearishDivergence | BullishDivergence
    | MacdBullish | MacdBearish
    | BollingerSqueeze

  /** One emitted record: date, commodity, signal_type and severity (the
      free-text description is not modelled). */
  datatype Signal = Signal(date: Date, commodity: string, kind: SignalKind, severity: Severity)

  /** Every signal in `r` is dated at the last row of `f`, names `commodity`
      and carries `severity`. */
  predicate DatedAtLastRow(f: Frame, commodity: string, severity: Severity, r: seq<Signal>) {
    forall s :: s in r ==> f.Rows() >= 1 && s.date == f.index[f.Rows() - 1]
                           && s.commodity == commodity && s.severity == severity
  }

  predicate Emits(r: seq<Signal>, kind: SignalKind) {
    exists s :: s in r && s.kind == kind
  }

  // ---------------------------------------------------------------------
  // Crossovers (MA pairs and MACD)
  // ---------------------------------------------------------------------

  /** The short series went from at-or-below the long one to strictly above it. */
  predicate CrossedAbove(short0: real, long0: real, short1: real, long1: real) {
    short0 <= long0 && short1 > long1
  }

  /** The short series went from at-or-above the long one to strictly below it. */
  predicate CrossedBelow(short0: real, long0: real, short1: real, long1: real) {
    short0 >= long0 && short1 < long1
  }

  /** The crossover rule on the previous (`short0`, `long0`) and latest
      (`short1`, `long1`) values, all four required: an `up` record for a
      cross above, a `down` record for a cross below. */
  function CrossRule(today: Date, commodity: string,
                     short0: Option<real>, long0: Option<real>, short1: Option<real>, long1: Option<real>,
                     up: SignalKind, down: SignalKind, severity: Severity): (r: seq<Signal>)
    ensures |r| <= 1
    ensures forall s :: s in r ==> s == Signal(today, commodity, s.kind, severity) && (s.kind == up || s.kind == down)
  {
    if short0.None? || long0.None? || short1.None? || long1.None? then []
    else
      (if CrossedAbove(short0.value, long0.value, short1.value, long1.value)
       then [Signal(today, commodity, up, severity)] else [])
      + (if CrossedBelow(short0.value, long0.value, short1.value, long1.value)
         then [Signal(today, commodity, down, severity)] else [])
  }

  /** A record is emitted exactly when the four values are defined and the
      short series crosses the long one in that direction; a cross above and a
      cross below never come together. */
  lemma CrossoverFires(today: Date, commodity: string,
                       short0: Option<real>, long0: Option<real>, short1: Option<real>, long1: Option<real>,
                       up: SignalKind, down: SignalKind, severity: Severity)
    requires up != down
    ensures var r := CrossRule(today, commodity, short0, long0, short1, long1, up, down, severity);
      var defined := short0.Some? && long0.Some? && short1.Some? && long1.Some?;
      && (Emits(r, up) <==> defined && CrossedAbove(short0.value, long0.value, short1.value, long1.value))
      && (Emits(r, down) <==> defined && CrossedBelow(short0.value, long0.value, short1.value, long1.value))
      && !(Emits(r, up) && Emits(r, down))
  {
    var r := CrossRule(today, commodity, short0, long0, short1, long1, up, down, severity);
    if short0.Some? && long0.Some? && short1.Some? && long1.Some? {
      var s0, l0, s1, l1 := short0.value, long0.value, short1.value, long1.value;
      if CrossedAbove(s0, l0, s1, l1) {
        assert r == [Signal(today, commodity, up, severity)];
        EmitsOne(Signal(today, commodity, up, severity), up);
        EmitsOne(Signal(today, commodity, up, severity), down);
      } else if CrossedBelow(s0, l0, s1, l1) {
        assert r == [Signal(today, commodity, down, severity)];
        EmitsOne(Signal(today, commodity, down, severity), up);
        EmitsOne(Signal(today, commodity, down, severity), down);
      }
    }
  }

  /** The crossover rule on the last two rows of columns `short` and `long`;
      fewer than two rows or a missing column give nothing. */
  function Crossover(f: Frame, commodity: string, short: Col, long: Col,
                     up: SignalKind, down: SignalKind, severity: Severity): (r: seq<Signal>)
    requires f.Valid()
    ensures |r| <= 1
    ensures DatedAtLastRow(f, commodity, severity, r)
    ensures forall s :: s in r ==> s.kind == up || s.kind == down
    ensures r != [] ==> f.Rows() >= 2 && short in f.cols && long in f.cols
  {
    var n := f.Rows();
    if n < 2 || short !in f.cols || long !in f.cols then []
    else
      CrossRule(f.index[n - 1], commodity, f.cols[short][n - 2], f.cols[long][n - 2],
                f.cols[short][n - 1], f.cols[long][n - 1], up, down, severity)
  }

  lemma EmitsOne(s: Signal, kind: SignalKind)
    ensures Emits([s], kind) <==> s.kind == kind
  {
    if s.kind == kind {
      assert s in [s];
    }
  }

  /** detect_ma_crossovers: the 20/50 pair (warning) then the 50/200 pair (alert). */
  function MaCrossovers(f: Frame, commodity: string): (r: seq<Signal>)
    requires f.Valid()
    ensures |r| <= 2
    ensures forall s :: s in r ==> f.Rows() >= 2 && s.date == f.index[f.Rows() - 1] && s.commodity == commodity
    ensures forall s :: s in r ==>
      (s.kind in {GoldenCross20To50, DeathCross20To50} && s.severity == Warning)
      || (s.kind in {GoldenCross50To200, DeathCross50To200} && s.severity == Alert)
  {
    Crossover(f, commodity, MA(20), MA(50), GoldenCross20To50, DeathCross20To50, Warning)
    + Crossover(f, commodity, MA(50), MA(200), GoldenCross50To200, DeathCross50To200, Alert)
  }

  /** detect_macd_crossover: MACD against its signal line, severity info. */
  function MacdCrossover(f: Frame, commodity: string): (r: seq<Signal>)
    requires f.Valid()
    ensures |r| <= 1
    ensures DatedAtLastRow(f, commodity, Info, r)
    ensures forall s :: s in r ==> s.kind in {MacdBullish, MacdBearish}
  {
    Crossover(f, commodity, MACD, MACDSignal, MacdBullish, MacdBearish, Info)
  }

  // ---------------------------------------------------------------------
  // Volume spike
  // ---------------------------------------------------------------------

  /** The mean volume over the 20 rows before the last (iloc[-21:-1]). */
  function PriorAverageVolume(v: Column): Option<real>
    requires |v| >= 21
  {
    MeanSkipNa(v[|v| - 21..|v| - 1])
  }

  /** detect_volume_spikes: the last volume is at least `threshold` times the
      average of the 20 rows before it. */
  function VolumeSpikes(f: Frame, commodity: string, threshold: real): (r: seq<Signal>)
    requires f.Valid()
    ensures |r| <= 1
    ensures DatedAtLastRow(f, commodity, Info, r)
    ensures forall s :: s in r ==> s.kind == VolumeSpike
  {
    var n := f.Rows();
    if Volume !in f.cols || n < 21 then []
    else
      var v := f.cols[Volume];
      var avg := PriorAverageVolume(v);
      var today := v[n - 1];
      if avg.None? || avg.value == 0.0 || today.None? then []
      else if today.value / avg.value >= threshold then [Signal(f.index[n - 1], commodity, VolumeSpike, Info)]
      else []
  }

  /** A spike is reported exactly when there are 21 rows, the prior average is
      defined and non-zero, today's volume is defined, and their ratio reaches
      the threshold; against a positive average that is the same as today's
      volume reaching threshold times the average. */
  lemma VolumeSpikeFires(f: Frame, commodity: string, threshold: real)
    requires f.Valid()
    ensures var r, n := VolumeSpikes(f, commodity, threshold), f.Rows();
      && (r != [] <==>
            && Volume in f.cols && n >= 21
            && PriorAverageVolume(f.cols[Volume]).Some? && PriorAverageVolume(f.cols[Volume]).value != 0.0
            && f.cols[Volume][n - 1].Some?
            && f.cols[Volume][n - 1].value / PriorAverageVolume(f.cols[Volume]).value >= threshold)
      && (Volume in f.cols && n >= 21 && PriorAverageVolume(f.cols[Volume]).Some?
          && PriorAverageVolume(f.cols[Volume]).value > 0.0 && f.cols[Volume][n - 1].Some? ==>
            (r != [] <==> f.cols[Volume][n - 1].value >= threshold * PriorAverageVolume(f.cols[Volume]).value))
  {
    var n := f.Rows();
    if Volume in f.cols && n >= 21 {
      var v := f.cols[Volume];
      var avg := PriorAverageVolume(v);
      if avg.Some? && avg.value > 0.0 && v[n - 1].Some? {
        RatioReaches(v[n - 1].value, avg.value, threshold);
      }
    }
  }

  lemma RatioReaches(x: real, avg: real, threshold: real)
    requires avg > 0.0
    ensures x / avg >= threshold <==> x >= threshold * avg
  {
    assert x / avg * avg == x;
    if x / avg >= threshold {
      assert x / avg * avg >= threshold * avg;
    } else {
      assert x / avg * avg < threshold * avg;
    }
  }

  // ---------------------------------------------------------------------
  // RSI extremes
  // ---------------------------------------------------------------------

  /** detect_rsi_extremes: the latest RSI above 70 is overbought, otherwise
      below 30 oversold (the thresholds are written into the detector). */
  function RsiExtremes(f: Frame, commodity: string): (r: seq<Signal>)
    requires f.Valid()
    ensures |r| <= 1
    ensures DatedAtLastRow(f, commodity, Warning, r)
    ensures forall s :: s in r ==> s.kind in {RsiOverbought, RsiOversold}
  {
    var n := f.Rows();
    if RSI !in f.cols || n == 0 then []
    else
      var latest := f.cols[RSI][n - 1];
      if latest.None? then []
      else if latest.value > 70.0 then [Signal(f.index[n - 1], commodity, RsiOverbought, Warning)]
      else if latest.value < 30.0 then [Signal(f.index[n - 1], commodity, RsiOversold, Warning)]
      else []
  }

  /** The latest RSI, when the frame has one. */
  function LatestRsi(f: Frame): Option<real>
    requires f.Valid()
  {
    if RSI !in f.cols || f.Rows() == 0 then None else f.cols[RSI][f.Rows() - 1]
  }

  /** Overbought exactly above 70, oversold exactly below 30; 70, 30 and a
      missing RSI give nothing. */
  lemma RsiExtremesFire(f: Frame, commodity: string)
    requires f.Valid()
    ensures var r, x := RsiExtremes(f, commodity), LatestRsi(f);
      && (Emits(r, RsiOverbought) <==> x.Some? && x.value > 70.0)
      && (Emits(r, RsiOversold) <==> x.Some? && x.value < 30.0)
      && (x.None? || 30.0 <= x.value <= 70.0 ==> r == [])
  {
    var r, x := RsiExtremes(f, commodity), LatestRsi(f);
    if x.Some? {
      var today := f.index[f.Rows() - 1];
      if x.value > 70.0 {
        assert r[0] == Signal(today, commodity, RsiOverbought, Warning);
      } else if x.value < 30.0 {
        assert r[0] == Signal(today, commodity, RsiOversold, Warning);
      }
    }
  }

  // ---------------------------------------------------------------------
  // RSI divergence
  // ---------------------------------------------------------------------

  /** First row of df.iloc[-lookback:]; a lookback of 0 gives iloc[-0:],
      which is the whole frame. */
  function WindowStart(n: nat, lookback: nat): (lo: nat)
    requires lookback < n
    ensures lo < n
    ensures lookback > 0 ==> n - lo == lookback
    ensures lookback == 0 ==> lo == 0
  {
    if lookback == 0 then 0 else n - lookback
  }

  /** j is where the largest defined value of c[lo..hi] first occurs (idxmax). */
  predicate IsFirstMax(c: Column, lo: nat, hi: nat, j: nat)
    requires lo <= hi <= |c|
  {
    && lo <= j < hi && c[j].Some?
    && (forall k :: lo <= k < hi && c[k].Some? ==> c[k].value <= c[j].value)
    && (forall k :: lo <= k < j && c[k].Some? ==> c[k].value < c[j].value)
  }

  /** j is where the smallest defined value of c[lo..hi] first occurs (idxmin). */
  predicate IsFirstMin(c: Column, lo: nat, hi: nat, j: nat)
    requires lo <= hi <= |c|
  {
    && lo <= j < hi && c[j].Some?
    && (forall k :: lo <= k < hi && c[k].Some? ==> c[j].value <= c[k].value)
    && (forall k :: lo <= k < j && c[k].Some? ==> c[j].value < c[k].value)
  }

  /** Series.idxmax() with skipna over rows lo..hi-1; None when nothing is defined. */
  function FirstMaxIndex(c: Column, lo: nat, hi: nat): (r: Option<nat>)
    requires lo <= hi <= |c|
    ensures r.None? <==> forall k :: lo <= k < hi ==> c[k].None?
    ensures r.Some? ==> IsFirstMax(c, lo, hi, r.value)
    decreases hi - lo
  {
    if lo == hi then None
    else
      var rest := FirstMaxIndex(c, lo + 1, hi);
      if c[lo].None? then rest
      else if rest.None? || c[lo].value >= c[rest.value].value then Some(lo)
      else rest
  }

  /** Series.idxmin() with skipna over rows lo..hi-1; None when nothing is defined. */
  function FirstMinIndex(c: Column, lo: nat, hi: nat): (r: Option<nat>)
    requires lo <= hi <= |c|
    ensures r.None? <==> forall k :: lo <= k < hi ==> c[k].None?
    ensures r.Some? ==> IsFirstMin(c, lo, hi, r.value)
    decreases hi - lo
  {
    if lo == hi then None
    else
      var rest := FirstMinIndex(c, lo + 1, hi);
      if c[lo].None? then rest
      else if rest.None? || c[lo].value <= c[rest.value].value then Some(lo)
      else rest
  }

  /** The first occurrence of a maximum is unique. */
  lemma FirstMaxUnique(c: Column, lo: nat, hi: nat, i: nat, j: nat)
    requires lo <= hi <= |c| && IsFirstMax(c, lo, hi, i) && IsFirstMax(c, lo, hi, j)
    ensures i == j
  {
  }

  /** The first occurrence of a minimum is unique. */
  lemma FirstMinUnique(c: Column, lo: nat, hi: nat, i: nat, j: nat)
    requires lo <= hi <= |c| && IsFirstMin(c, lo, hi, i) && IsFirstMin(c, lo, hi, j)
    ensures i == j
  {
  }

  /** The bearish rule given the window's first high at row j and current RSI `now`. */
  predicate BearishAt(close: Column, rsi: Column, j: nat, now: real)
    requires |close| == |rsi| && j < |close| && |close| >= 1
  {
    var last := |close| - 1;
    && rsi[j].Some? && close[last].Some? && close[j].Some?
    && close[last].value >= close[j].value * 0.99
    && now < rsi[j].value - 5.0
    && j != last
  }

  /** The bullish rule given the window's first low at row j and current RSI `now`. */
  predicate BullishAt(close: Column, rsi: Column, j: nat, now: real)
    requires |close| == |rsi| && j < |close| && |close| >= 1
  {
    var last := |close| - 1;
    && rsi[j].Some? && close[last].Some? && close[j].Some?
    && close[last].value <= close[j].value * 1.01
    && now > rsi[j].value + 5.0
    && j != last
  }

  /** detect_rsi_divergence over the last `lookback` rows (current bar included):
      bearish when the close is within 1% of the window high while RSI sits more
      than 5 points under the RSI at that high; bullish symmetrically at the low. */
  function RsiDivergence(f: Frame, commodity: string, lookback: nat): (r: seq<Signal>)
    requires f.Valid()
    ensures |r| <= 2
    ensures DatedAtLastRow(f, commodity, Warning, r)
    ensures forall s :: s in r ==> s.kind in {BearishDivergence, BullishDivergence}
  {
    var n := f.Rows();
    if RSI !in f.cols || Close !in f.cols || n < lookback + 1 then []
    else
      var close, rsi := f.cols[Close], f.cols[RSI];
      var lo := WindowStart(n, lookback);
      var now := rsi[n - 1];
      if now.None? then []
      else
        var today := f.index[n - 1];
        var high, low := FirstMaxIndex(close, lo, n), FirstMinIndex(close, lo, n);
        (if high.Some? && BearishAt(close, rsi, high.value, now.value)
         then [Signal(today, commodity, BearishDivergence, Warning)] else [])
        + (if low.Some? && BullishAt(close, rsi, low.value, now.value)
           then [Signal(today, commodity, BullishDivergence, Warning)] else [])
  }

  /** The columns and window the divergence rule looks at are present. */
  predicate DivergenceApplies(f: Frame, lookback: nat)
    requires f.Valid()
  {
    RSI in f.cols && Close in f.cols && f.Rows() >= lookback + 1 && f.cols[RSI][f.Rows() - 1].Some?
  }

  /** Bearish divergence is reported exactly when the rule holds at the row
      where the window's close first reaches its high; bullish likewise at the low. */
  lemma DivergenceFires(f: Frame, commodity: string, lookback: nat)
    requires f.Valid()
    ensures var r := RsiDivergence(f, commodity, lookback);
      && (Emits(r, BearishDivergence) <==>
            DivergenceApplies(f, lookback)
            && var n := f.Rows();
               exists j: nat :: IsFirstMax(f.cols[Close], WindowStart(n, lookback), n, j)
                           && BearishAt(f.cols[Close], f.cols[RSI], j, f.cols[RSI][n - 1].value))
      && (Emits(r, BullishDivergence) <==>
            DivergenceApplies(f, lookback)
            && var n := f.Rows();
               exists j: nat :: IsFirstMin(f.cols[Close], WindowStart(n, lookback), n, j)
                           && BullishAt(f.cols[Close], f.cols[RSI], j, f.cols[RSI][n - 1].value))
  {
    var r := RsiDivergence(f, commodity, lookback);
    if DivergenceApplies(f, lookback) {
      var n := f.Rows();
      var close, rsi := f.cols[Close], f.cols[RSI];
      var lo := WindowStart(n, lookback);
      var now := rsi[n - 1].value;
      var today := f.index[n - 1];
      var high, low := FirstMaxIndex(close, lo, n), FirstMinIndex(close, lo, n);
      var bear := high.Some? && BearishAt(close, rsi, high.value, now);
      var bull := low.Some? && BullishAt(close, rsi, low.value, now);
      assert r == (if bear then [Signal(today, commodity, BearishDivergence, Warning)] else [])
                  + (if bull then [Signal(today, commodity, BullishDivergence, Warning)] else []);
      forall j: nat | IsFirstMax(close, lo, n, j) ensures high == Some(j) {
        FirstMaxUnique(close, lo, n, high.value, j);
      }
      forall j: nat | IsFirstMin(close, lo, n, j) ensures low == Some(j) {
        FirstMinUnique(close, lo, n, low.value, j);
      }
      if bear {
        assert Emits(r, BearishDivergence) by {
          assert r[0].kind == BearishDivergence;
        }
      }
      if bull {
        assert Emits(r, BullishDivergence) by {
          assert r[|r| - 1].kind == BullishDivergence;
        }
      }
    }
  }

  /** A close strictly above every other close of the window makes the current
      bar the high itself, so the "not the same bar" guard rules bearish out. */
  lemma NewHighIsNotBearish(f: Frame, commodity: string, lookback: nat)
    requires f.Valid() && Close in f.cols && f.Rows() >= lookback + 1
    requires var n, c := f.Rows(), f.cols[Close];
      c[n - 1].Some? && forall k :: WindowStart(n, lookback) <= k < n - 1 && c[k].Some? ==> c[k].value < c[n - 1].value
    ensures !Emits(RsiDivergence(f, commodity, lookback), BearishDivergence)
  {
    var n, c := f.Rows(), f.cols[Close];
    var lo := WindowStart(n, lookback);
    var high := FirstMaxIndex(c, lo, n);
    assert IsFirstMax(c, lo, n, n - 1);
    FirstMaxUnique(c, lo, n, high.value, n - 1);
  }

  /** Symmetrically, a close strictly below every other close of the window
      rules bullish divergence out. */
  lemma NewLowIsNotBullish(f: Frame, commodity: string, lookback: nat)
    requires f.Valid() && Close in f.cols && f.Rows() >= lookback + 1
    requires var n, c := f.Rows(), f.cols[Close];
      c[n - 1].Some? && forall k :: WindowStart(n, lookback) <= k < n - 1 && c[k].Some? ==> c[n - 1].value < c[k].value
    ensures !Emits(RsiDivergence(f, commodity, lookback), BullishDivergence)
  {
    var n, c := f.Rows(), f.cols[Close];
    var lo := WindowStart(n, lookback);
    var low := FirstMinIndex(c, lo, n);
    assert IsFirstMin(c, lo, n, n - 1);
    FirstMinUnique(c, lo, n, low.value, n - 1);
  }

  // ---------------------------------------------------------------------
  // Bollinger squeeze
  // ---------------------------------------------------------------------

  /** detect_bollinger_squeeze: the current BB width is within 5% of its
      minimum over the last 120 rows, the current row included. */
  function SqueezeSignals(f: Frame, commodity: string): (r: seq<Signal>)
    requires f.Valid()
    ensures |r| <= 1
    ensures DatedAtLastRow(f, commodity, Info, r)
    ensures forall s :: s in r ==> s.kind == BollingerSqueeze
    ensures r != [] ==> BBWidth in f.cols && f.Rows() >= 120 && f.cols[BBWidth][f.Rows() - 1].Some?
  {
    var n := f.Rows();
    if BBWidth !in f.cols || n < 120 then []
    else
      var w := f.cols[BBWidth];
      var current := w[n - 1];
      if current.None? then []
      else
        var low := MinSkipNa(w[n - 120..]);
        if low.Some? && current.value <= low.value * 1.05 then [Signal(f.index[n - 1], commodity, BollingerSqueeze, Info)]
        else []
  }

  /** A squeeze is reported exactly when BB_Width exists, there are 120 rows,
      the current width is defined and within 5% of the 120-row minimum.
      With a defined current width that minimum is always defined, and a
      current width that is itself the (non-negative) minimum always fires. */
  lemma SqueezeFires(f: Frame, commodity: string)
    requires f.Valid()
    ensures SqueezeSignals(f, commodity) != [] <==>
      && BBWidth in f.cols && f.Rows() >= 120 && f.cols[BBWidth][f.Rows() - 1].Some?
      && MinSkipNa(f.cols[BBWidth][f.Rows() - 120..]).Some?
      && f.cols[BBWidth][f.Rows() - 1].value <= MinSkipNa(f.cols[BBWidth][f.Rows() - 120..]).value * 1.05
    ensures BBWidth in f.cols && f.Rows() >= 120 && f.cols[BBWidth][f.Rows() - 1].Some? ==>
      var n, w := f.Rows(), f.cols[BBWidth];
      var low := MinSkipNa(w[n - 120..]);
      && low.Some?
      && (w[n - 1].value == low.value && low.value >= 0.0 ==> SqueezeSignals(f, commodity) != [])
  {
    var n := f.Rows();
    if BBWidth in f.cols && n >= 120 {
      var w := f.cols[BBWidth];
      assert w[n - 120..][119] == w[n - 1];
    }
  }

  // ---------------------------------------------------------------------
  // All detectors
  // ---------------------------------------------------------------------

  /** detect_all_signals with the detectors' default parameters (volume
      threshold 2.0, divergence lookback 20), concatenated in a fixed order. */
  function DetectAllSignals(f: Frame, commodity: string): (r: seq<Signal>)
    requires f.Valid()
    ensures |r| <= 8
    ensures forall s :: s in r ==> f.Rows() >= 1 && s.date == f.index[f.Rows() - 1] && s.commodity == commodity
  {
    MaCrossovers(f, commodity) + VolumeSpikes(f, commodity, 2.0) + RsiExtremes(f, commodity)
    + RsiDivergence(f, commodity, 20) + MacdCrossover(f, commodity) + SqueezeSignals(f, commodity)
  }

  /** Position of a signal's detector in detect_all_signals. */
  function DetectorRank(k: SignalKind): nat {
    match k
    case GoldenCross20To50 | DeathCross20To50 | GoldenCross50To200 | DeathCross50To200 => 0
    case VolumeSpike => 1
    case RsiOverbought | RsiOversold => 2
    case BearishDivergence | BullishDivergence => 3
    case MacdBullish | MacdBearish => 4
    case BollingerSqueeze => 5
  }

  predicate RankedAtMost(r: seq<Signal>, rank: nat) {
    forall s :: s in r ==> DetectorRank(s.kind) <= rank
  }

  predicate RankedAtLeast(r: seq<Signal>, rank: nat) {
    forall s :: s in r ==> DetectorRank(s.kind) >= rank
  }

  predicate InDetectorOrder(r: seq<Signal>) {
    forall i, j :: 0 <= i < j < |r| ==> DetectorRank(r[i].kind) <= DetectorRank(r[j].kind)
  }

  /** Appending a block of later detectors keeps the detector order. */
  lemma AppendInOrder(a: seq<Signal>, b: seq<Signal>, rank: nat)
    requires InDetectorOrder(a) && InDetectorOrder(b)
    requires RankedAtMost(a, rank) && RankedAtLeast(b, rank)
    ensures InDetectorOrder(a + b)
  {
    forall i, j | 0 <= i < j < |a + b| ensures DetectorRank((a + b)[i].kind) <= DetectorRank((a + b)[j].kind) {
      if i < |a| && j >= |a| {
        assert (a + b)[i] in a && (a + b)[j] in b;
      } else if i < |a| {
        assert (a + b)[i] == a[i] && (a + b)[j] == a[j];
      } else {
        assert (a + b)[i] == b[i - |a|] && (a + b)[j] == b[j - |a|];
      }
    }
  }

  /** A block whose signals all share one rank is in detector order. */
  lemma SameRankInOrder(r: seq<Signal>, rank: nat)
    requires RankedAtMost(r, rank) && RankedAtLeast(r, rank)
    ensures InDetectorOrder(r)
  {
    forall i, j | 0 <= i < j < |r| ensures DetectorRank(r[i].kind) <= DetectorRank(r[j].kind) {
      assert r[i] in r && r[j] in r;
    }
  }

  /** The combined list is neither sorted nor filtered: it is grouped by
      detector, in the order MA, volume, RSI extremes, divergence, MACD, squeeze. */
  lemma AllSignalsInDetectorOrder(f: Frame, commodity: string)
    requires f.Valid()
    ensures InDetectorOrder(DetectAllSignals(f, commodity))
  {
    var ma, vol, ext := MaCrossovers(f, commodity), VolumeSpikes(f, commodity, 2.0), RsiExtremes(f, commodity);
    var div, macd, sq := RsiDivergence(f, commodity, 20), MacdCrossover(f, commodity), SqueezeSignals(f, commodity);
    KindsRanked(ma, {GoldenCross20To50, DeathCross20To50, GoldenCross50To200, DeathCross50To200}, 0);
    KindsRanked(vol, {VolumeSpike}, 1);
    KindsRanked(ext, {RsiOverbought, RsiOversold}, 2);
    KindsRanked(div, {BearishDivergence, BullishDivergence}, 3);
    KindsRanked(macd, {MacdBullish, MacdBearish}, 4);
    KindsRanked(sq, {BollingerSqueeze}, 5);
    SixBlocksInOrder(ma, vol, ext, div, macd, sq);
  }

  /** Signals whose kinds all come from one detector share its rank. */
  lemma KindsRanked(r: seq<Signal>, kinds: set<SignalKind>, rank: nat)
    requires forall s :: s in r ==> s.kind in kinds
    requires forall k :: k in kinds ==> DetectorRank(k) == rank
    ensures RankedAtMost(r, rank) && RankedAtLeast(r, rank)
  {
  }

  /** Six blocks of ranks 0 to 5, one rank each, concatenated in rank order. */
  lemma SixBlocksInOrder(b0: seq<Signal>, b1: seq<Signal>, b2: seq<Signal>,
                         b3: seq<Signal>, b4: seq<Signal>, b5: seq<Signal>)
    requires RankedAtMost(b0, 0) && RankedAtLeast(b0, 0)
    requires RankedAtMost(b1, 1) && RankedAtLeast(b1, 1)
    requires RankedAtMost(b2, 2) && RankedAtLeast(b2, 2)
    requires RankedAtMost(b3, 3) && RankedAtLeast(b3, 3)
    requires RankedAtMost(b4, 4) && RankedAtLeast(b4, 4)
    requires RankedAtMost(b5, 5) && RankedAtLeast(b5, 5)
    ensures InDetectorOrder(b0 + b1 + b2 + b3 + b4 + b5)
  {
    SameRankInOrder(b0, 0);
    SameRankInOrder(b1, 1);
    SameRankInOrder(b2, 2);
    SameRankInOrder(b3, 3);
    SameRankInOrder(b4, 4);
    SameRankInOrder(b5, 5);
    AppendInOrder(b0, b1, 1);
    AppendInOrder(b0 + b1, b2, 2);
    AppendInOrder(b0 + b1 + b2, b3, 3);
    AppendInOrder(b0 + b1 + b2 + b3, b4, 4);
    AppendInOrder(b0 + b1 + b2 + b3 + b4, b5, 5);
  }
}
