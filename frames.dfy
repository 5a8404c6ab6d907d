/**
 * A price frame: a date index and named columns of equal length. Column
 * names are a datatype rather than free strings, so that "MA_20" or "RSI"
 * is one constructor and every analysis step says exactly which columns it
 * reads and which it adds.
 */
module Frames {
  import opened Common

  datatype Col =
    | Open | High | Low | Close | Volume
    | MA(window: nat)
    | RSI
    | DailyPctChange | WeeklyPctChange
    | MACD | MACDSignal | MACDHistogram
    | BBUpper | BBMiddle | BBLower | BBWidth
    // Any other column. The name is not checked against the names above:
    // Other("RSI") would be a second key for pandas' one "RSI" column, so
    // callers use the typed constructors for those.
    | Other(name: string)

  datatype Frame = Frame(index: seq<Date>, cols: map<Col, Column>) {
    /** Every column has one entry per row. */
    predicate Valid() {
      forall c :: c in cols ==> |cols[c]| == |index|
    }

    function Rows(): nat {
      |index|
    }

    /** pandas `df[c] = col`: adds the column, or replaces it if present. */
    function With(c: Col, col: Column): (r: Frame)
      requires Valid() && |col| == |index|
      ensures r.Valid() && r.index == index && r.cols == cols[c := col]
    {
      Frame(index, cols[c := col])
    }
  }

  /** The columns of `f` other than those in `added` are the same in `r`. */
  ghost predicate OnlyAdds(f: Frame, r: Frame, added: set<Col>) {
    && r.index == f.index
    && (forall k :: k in r.cols <==> k in f.cols || k in added)
    && forall k :: k in f.cols && k !in added ==> r.cols[k] == f.cols[k]
  }

  /** Two rounds of additions add the union of what each added. */
  lemma AddsThen(f: Frame, g: Frame, h: Frame, first: set<Col>, second: set<Col>)
    requires OnlyAdds(f, g, first) && OnlyAdds(g, h, second)
    ensures OnlyAdds(f, h, first + second)
  {
  }
}
