/**
 * Forward-curve analysis: the term structure of one commodity's futures,
 * one row per contract month. The curve is classified by counting the
 * strict rises and falls between consecutive contracts; the slope and the
 * calendar spread are plain arithmetic with zero guards.
 */
module ForwardCurve {
  import opened Common

  /** One contract of the curve: its delivery month (day 1), its close and,
      when the frame has a label column, its label such as "Jul 2025". */
  datatype Contract = Contract(month: Date, close: real, tag: Option<string>)

  datatype Structure = Flat | Contango | Backwardation | MildContango | MildBackwardation | Mixed

  /** The dictionary returned by analyze_curve, without its summary text. */
  datatype CurveAnalysis = CurveAnalysis(
    structure: Structure,
    frontPrice: real,
    backPrice: real,
    spread: real,
    spreadPct: real,
    numContracts: nat)

  function MonthKey(c: Contract): int {
    DateKey(c.month)
  }

  /** sort_values("contract_month"), nearest contract first. */
  function ByMonth(curve: seq<Contract>): (r: seq<Contract>)
    ensures |r| == |curve| && multiset(r) == multiset(curve)
    ensures SortedBy(r, MonthKey)
  {
    SortBy(curve, MonthKey)
  }

  function Closes(curve: seq<Contract>): (r: seq<real>)
    ensures |r| == |curve| && forall i :: 0 <= i < |curve| ==> r[i] == curve[i].close
  {
    seq(|curve|, i requires 0 <= i < |curve| => curve[i].close)
  }

  /** The number of i in 1..|s|-1 with s[i] > s[i-1]. */
  function Rises(s: seq<real>): nat {
    if |s| < 2 then 0
    else Rises(s[..|s| - 1]) + (if s[|s| - 1] > s[|s| - 2] then 1 else 0)
  }

  /** The number of i in 1..|s|-1 with s[i] < s[i-1]. */
  function Falls(s: seq<real>): nat {
    if |s| < 2 then 0
    else Falls(s[..|s| - 1]) + (if s[|s| - 1] < s[|s| - 2] then 1 else 0)
  }

  /** A step with equal closes counts as neither, so there are at most n-1 moves. */
  lemma {:induction false} MovesAtMost(s: seq<real>)
    requires |s| >= 1
    ensures Rises(s) + Falls(s) <= |s| - 1
  {
    if |s| >= 2 {
      MovesAtMost(s[..|s| - 1]);
    }
  }

  predicate StrictlyIncreasing(s: seq<real>) {
    forall i :: 0 < i < |s| ==> s[i - 1] < s[i]
  }

  predicate StrictlyDecreasing(s: seq<real>) {
    forall i :: 0 < i < |s| ==> s[i - 1] > s[i]
  }

  lemma {:induction false} IncreasingMoves(s: seq<real>)
    requires |s| >= 1 && StrictlyIncreasing(s)
    ensures Rises(s) == |s| - 1 && Falls(s) == 0
  {
    if |s| >= 2 {
      IncreasingMoves(s[..|s| - 1]);
    }
  }

  lemma {:induction false} DecreasingMoves(s: seq<real>)
    requires |s| >= 1 && StrictlyDecreasing(s)
    ensures Falls(s) == |s| - 1 && Rises(s) == 0
  {
    if |s| >= 2 {
      DecreasingMoves(s[..|s| - 1]);
    }
  }

  /** Every step of the curve is a rise, a fall, or a repeat of the previous close. */
  function Repeats(s: seq<real>): nat {
    if |s| < 2 then 0
    else Repeats(s[..|s| - 1]) + (if s[|s| - 1] == s[|s| - 2] then 1 else 0)
  }

  lemma {:induction false} MovesPartitionSteps(s: seq<real>)
    requires |s| >= 1
    ensures Rises(s) + Falls(s) + Repeats(s) == |s| - 1
  {
    if |s| >= 2 {
      MovesPartitionSteps(s[..|s| - 1]);
    }
  }

  /** The structure from the move counts, tested in the order of the source. */
  function Classify(inc: nat, dec: nat): Structure {
    if inc + dec == 0 then Flat
    else if inc > dec * 2 then Contango
    else if dec > inc * 2 then Backwardation
    else if inc > dec then MildContango
    else if dec > inc then MildBackwardation
    else Mixed
  }

  /** Each structure holds for exactly the counts the source intends. */
  lemma ClassifyExactly(inc: nat, dec: nat)
    ensures Classify(inc, dec) == Flat <==> inc == 0 && dec == 0
    ensures Classify(inc, dec) == Contango <==> inc > 2 * dec
    ensures Classify(inc, dec) == Backwardation <==> dec > 2 * inc
    ensures Classify(inc, dec) == MildContango <==> dec < inc <= 2 * dec
    ensures Classify(inc, dec) == MildBackwardation <==> inc < dec <= 2 * inc
    ensures Classify(inc, dec) == Mixed <==> inc == dec > 0
  {
  }

  function Mirror(s: Structure): Structure {
    match s
    case Contango => Backwardation
    case Backwardation => Contango
    case MildContango => MildBackwardation
    case MildBackwardation => MildContango
    case other => other
  }

  /** Swapping the roles of rises and falls mirrors the structure. */
  lemma ClassifySymmetric(inc: nat, dec: nat)
    ensures Classify(dec, inc) == Mirror(Classify(inc, dec))
  {
  }

  /** spread / front * 100, or 0 when the front close is 0. */
  function PercentOf(spread: real, base: real): (r: real)
    ensures base != 0.0 ==> r * base == spread * 100.0
    ensures base == 0.0 ==> r == 0.0
  {
    if base != 0.0 then spread / base * 100.0 else 0.0
  }

  /** With a positive base the percentage has the sign of the spread. */
  lemma PercentSign(spread: real, base: real)
    requires base > 0.0
    ensures PercentOf(spread, base) > 0.0 <==> spread > 0.0
    ensures PercentOf(spread, base) < 0.0 <==> spread < 0.0
  {
    FactorSign(PercentOf(spread, base), base, spread * 100.0);
  }

  lemma PositiveProduct(a: real, b: real)
    requires a > 0.0 && b > 0.0
    ensures a * b > 0.0
  {
  }

  /** analyze_curve: nothing for fewer than two contracts; otherwise the
      curve is sorted by contract month and the consecutive closes are
      compared one step at a time. */
  method AnalyzeCurve(curve: seq<Contract>) returns (r: Option<CurveAnalysis>)
    ensures r.None? <==> |curve| < 2
    ensures r.Some? ==>
      var sorted := ByMonth(curve);
      var closes := Closes(sorted);
      && r.value.frontPrice == sorted[0].close
      && r.value.backPrice == sorted[|sorted| - 1].close
      && r.value.spread == r.value.backPrice - r.value.frontPrice
      && r.value.spreadPct == PercentOf(r.value.spread, r.value.frontPrice)
      && r.value.numContracts == |curve|
      && r.value.structure == Classify(Rises(closes), Falls(closes))
  {
    if |curve| < 2 {
      return None;
    }
    var sorted := ByMonth(curve);
    ghost var closes := Closes(sorted);
    var front := sorted[0].close;
    var back := sorted[|sorted| - 1].close;
    var spread := back - front;
    var spreadPct := if front != 0.0 then spread / front * 100.0 else 0.0;
    var ups, downs := 0, 0;
    for i := 1 to |sorted|
      invariant ups == Rises(closes[..i]) && downs == Falls(closes[..i])
    {
      assert closes[..i + 1][..i] == closes[..i];
      if sorted[i].close > sorted[i - 1].close {
        ups := ups + 1;
      } else if sorted[i].close < sorted[i - 1].close {
        downs := downs + 1;
      }
    }
    assert closes[..|sorted|] == closes;
    r := Some(CurveAnalysis(Classify(ups, downs), front, back, spread, spreadPct, |curve|));
  }

  /** A curve whose closes rise strictly from each contract to the next is
      contango; one whose closes fall strictly is backwardation. */
  lemma MonotoneCurves(curve: seq<Contract>)
    requires |curve| >= 2
    ensures var closes := Closes(ByMonth(curve));
      && (StrictlyIncreasing(closes) ==> Classify(Rises(closes), Falls(closes)) == Contango)
      && (StrictlyDecreasing(closes) ==> Classify(Rises(closes), Falls(closes)) == Backwardation)
  {
    var closes := Closes(ByMonth(curve));
    if StrictlyIncreasing(closes) {
      IncreasingMoves(closes);
    }
    if StrictlyDecreasing(closes) {
      DecreasingMoves(closes);
    }
  }

  /** The number of whole months from a to b, ignoring the day. */
  function MonthsBetween(a: Date, b: Date): int {
    (b.year - a.year) * 12 + (b.month - a.month)
  }

  /** curve_slope: the average price change per month from the front to the
      back contract; None for fewer than two contracts or when both lie in
      the same month. */
  function CurveSlope(curve: seq<Contract>): (r: Option<real>)
    ensures r.None? <==>
      |curve| < 2 || MonthsBetween(ByMonth(curve)[0].month, ByMonth(curve)[|curve| - 1].month) == 0
    ensures r.Some? ==>
      var s := ByMonth(curve);
      r.value * (MonthsBetween(s[0].month, s[|s| - 1].month) as real) == s[|s| - 1].close - s[0].close
  {
    if |curve| < 2 then None
    else
      var s := ByMonth(curve);
      var months := MonthsBetween(s[0].month, s[|s| - 1].month);
      if months == 0 then None
      else Some((s[|s| - 1].close - s[0].close) / (months as real))
  }

  /** With valid contract months the gap from front to back is never
      negative, so a defined slope is positive exactly when the back contract
      is dearer than the front one. */
  lemma SlopeSign(curve: seq<Contract>)
    requires forall i :: 0 <= i < |curve| ==> ValidDate(curve[i].month)
    requires CurveSlope(curve).Some?
    ensures var s := ByMonth(curve);
      && MonthsBetween(s[0].month, s[|s| - 1].month) > 0
      && (CurveSlope(curve).value > 0.0 <==> s[|s| - 1].close > s[0].close)
      && (CurveSlope(curve).value < 0.0 <==> s[|s| - 1].close < s[0].close)
  {
    var s := ByMonth(curve);
    var first, last := s[0], s[|s| - 1];
    SortedMonthsValid(curve);
    LaterMonth(first.month, last.month);
    FactorSign(CurveSlope(curve).value, MonthsBetween(first.month, last.month) as real, last.close - first.close);
  }

  /** Sorting keeps the contracts, so their months stay valid. */
  lemma SortedMonthsValid(curve: seq<Contract>)
    requires forall i :: 0 <= i < |curve| ==> ValidDate(curve[i].month)
    ensures forall i :: 0 <= i < |curve| ==> ValidDate(ByMonth(curve)[i].month)
  {
    var s := ByMonth(curve);
    forall i | 0 <= i < |s| ensures ValidDate(s[i].month) {
      assert s[i] in multiset(curve);
    }
  }

  lemma LaterMonth(a: Date, b: Date)
    requires ValidDate(a) && ValidDate(b) && DateKey(a) <= DateKey(b)
    requires MonthsBetween(a, b) != 0
    ensures MonthsBetween(a, b) > 0
  {
    DateKeyOrder(a, b);
  }

  /** A quotient by a positive number has the sign of the dividend. */
  lemma FactorSign(q: real, d: real, x: real)
    requires d > 0.0 && q * d == x
    ensures q > 0.0 <==> x > 0.0
    ensures q < 0.0 <==> x < 0.0
  {
    if q > 0.0 {
      PositiveProduct(q, d);
    } else if q < 0.0 {
      PositiveProduct(-q, d);
    }
  }

  /** The dictionary returned by calendar_spread. */
  datatype CalendarSpread = CalendarSpread(
    nearLabel: string, nearPrice: real,
    farLabel: string, farPrice: real,
    spread: real, spreadPct: real)

  /** Python's iloc position: a negative index counts from the end. */
  function Position(n: nat, i: int): int {
    if i < 0 then n + i else i
  }

  function LabelOr(c: Contract, default: string): string {
    match c.tag
    case Some(l) => l
    case None => default
  }

  /** What calendar_spread gives: the empty dictionary, the IndexError that
      iloc raises for a position before the start, or the spread. */
  datatype SpreadOutcome = NoSpread | OutOfRange | Spread(value: CalendarSpread)

  /** calendar_spread: nothing for an empty curve or one with at most
      max(near, far) contracts; an IndexError when a negative position
      reaches before the first contract; otherwise the far-minus-near spread
      of the two contracts at those positions of the sorted curve. */
  function CalendarSpreadOf(curve: seq<Contract>, near: int, far: int): (r: SpreadOutcome)
    ensures r.NoSpread? <==> curve == [] || |curve| <= near || |curve| <= far
    ensures r.OutOfRange? <==> curve != [] && near < |curve| && far < |curve| && (near < -|curve| || far < -|curve|)
    ensures r.Spread? ==>
      var s := ByMonth(curve);
      && 0 <= Position(|s|, near) < |s| && 0 <= Position(|s|, far) < |s|
      && r.value.nearPrice == s[Position(|s|, near)].close
      && r.value.farPrice == s[Position(|s|, far)].close
      && r.value.nearLabel == LabelOr(s[Position(|s|, near)], "")
      && r.value.farLabel == LabelOr(s[Position(|s|, far)], "")
      && r.value.spread == r.value.farPrice - r.value.nearPrice
      && r.value.spreadPct == PercentOf(r.value.spread, r.value.nearPrice)
  {
    if curve == [] || |curve| <= near || |curve| <= far then NoSpread
    else if near < -|curve| || far < -|curve| then OutOfRange
    else
      var s := ByMonth(curve);
      var n, f := s[Position(|s|, near)], s[Position(|s|, far)];
      var spread := f.close - n.close;
      Spread(CalendarSpread(LabelOr(n, ""), n.close, LabelOr(f, ""), f.close, spread,
        if n.close != 0.0 then spread / n.close * 100.0 else 0.0))
  }

  /** With the default positions the calendar spread of a curve of at least
      two contracts is its first step, and it agrees in sign with that step's
      move counted by analyze_curve. */
  lemma FrontSpreadIsFirstStep(curve: seq<Contract>)
    requires |curve| >= 2
    ensures var s := ByMonth(curve);
      && CalendarSpreadOf(curve, 0, 1).Spread?
      && (CalendarSpreadOf(curve, 0, 1).value.spread > 0.0 <==> Rises(Closes(s)[..2]) == 1)
      && (CalendarSpreadOf(curve, 0, 1).value.spread < 0.0 <==> Falls(Closes(s)[..2]) == 1)
  {
    var s := ByMonth(curve);
    var c := Closes(s)[..2];
    assert c[..1] == [s[0].close];
  }
}
