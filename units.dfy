/**
 * Conversion of futures prices from their native exchange units (cents per
 * bushel, cents per pound, dollars per short ton, ringgit per tonne) to US
 * dollars per metric ton, for display. Every factor is the native price
 * multiplied into USD/MT; palm oil has no factor because it needs an
 * exchange rate, not a unit conversion.
 */
module Units {
  import opened Common
  import opened Frames

  const BushelsPerTonSoy: real := 36.7437
  const BushelsPerTonCorn: real := 39.368
  const PoundsPerTon: real := 2204.62
  const TonsPerShortTon: real := 0.907185

  /** CONVERSION_FACTORS, by commodity name; palm oil is present without a factor. */
  const ConversionFactors: map<string, Option<real>> := map[
    "Soybeans" := Some(BushelsPerTonSoy / 100.0),
    "Soybean Oil" := Some(PoundsPerTon / 100.0),
    "Soybean Meal" := Some(1.0 / TonsPerShortTon),
    "Corn" := Some(BushelsPerTonCorn / 100.0),
    "Wheat" := Some(BushelsPerTonSoy / 100.0),
    "Sugar" := Some(PoundsPerTon / 100.0),
    "Cotton" := Some(PoundsPerTon / 100.0),
    "Coffee" := Some(PoundsPerTon / 100.0),
    "Live Cattle" := Some(PoundsPerTon / 100.0),
    "Lean Hogs" := Some(PoundsPerTon / 100.0),
    "Palm Oil (BMD)" := None
  ]

  const PalmOil: string := "Palm Oil (BMD)"

  /** The commodities priced in cents per pound. */
  const PoundPriced: set<string> := {"Soybean Oil", "Sugar", "Cotton", "Coffee", "Live Cattle", "Lean Hogs"}

  /** CONVERSION_FACTORS.get(commodity): None for palm oil and for any name not in the table. */
  function Factor(commodity: string): (r: Option<real>)
    ensures r.Some? ==> r.value > 0.0
  {
    if commodity in ConversionFactors then ConversionFactors[commodity] else None
  }

  /** A factor exists exactly for the ten tabled commodities other than palm oil. */
  lemma FactorDefined(commodity: string)
    ensures Factor(commodity).None? <==> commodity == PalmOil || commodity !in ConversionFactors
  {
  }

  /** Commodities measured in the same unit share a factor: soybeans and wheat
      the soybean bushel weight, every pound-priced one the pound count of a
      tonne, meal the short-ton ratio. */
  lemma SharedFactors(commodity: string)
    ensures commodity in PoundPriced ==> Factor(commodity) == Some(22.0462)
    ensures commodity == "Soybeans" || commodity == "Wheat" ==> Factor(commodity) == Some(0.367437)
    ensures commodity == "Corn" ==> Factor(commodity) == Some(0.39368)
    ensures commodity == "Soybean Meal" ==> Factor(commodity).value * TonsPerShortTon == 1.0
  {
  }

  /** to_metric_tons: the price in USD/MT, or None when there is no factor. */
  function ToMetricTons(value: real, commodity: string): (r: Option<real>)
    ensures r.None? <==> Factor(commodity).None?
  {
    match Factor(commodity)
    case None => None
    case Some(k) => Some(value * k)
  }

  /** The conversion is linear: zero stays zero, sums and multiples carry over. */
  lemma ToMetricTonsLinear(a: real, b: real, t: real, commodity: string)
    requires Factor(commodity).Some?
    ensures ToMetricTons(0.0, commodity) == Some(0.0)
    ensures ToMetricTons(a + b, commodity).value == ToMetricTons(a, commodity).value + ToMetricTons(b, commodity).value
    ensures ToMetricTons(t * a, commodity).value == t * ToMetricTons(a, commodity).value
  {
  }

  /** Every factor is positive, so the conversion keeps the order of prices
      and can be undone by dividing by the factor. */
  lemma ToMetricTonsMonotone(a: real, b: real, commodity: string)
    requires Factor(commodity).Some?
    ensures a < b <==> ToMetricTons(a, commodity).value < ToMetricTons(b, commodity).value
    ensures a == b <==> ToMetricTons(a, commodity).value == ToMetricTons(b, commodity).value
    ensures ToMetricTons(a, commodity).value / Factor(commodity).value == a
  {
    var k := Factor(commodity).value;
    if a < b {
      PositiveScale(b - a, k);
    }
    if b < a {
      PositiveScale(a - b, k);
    }
  }

  lemma PositiveScale(d: real, k: real)
    requires d > 0.0 && k > 0.0
    ensures d * k > 0.0
  {
  }

  /** `col * factor` on a column: NaN stays NaN. */
  function Scale(c: Column, k: real): (r: Column)
    ensures |r| == |c|
    ensures forall i :: 0 <= i < |c| ==> r[i].Some? == c[i].Some?
    ensures forall i :: 0 <= i < |c| && c[i].Some? ==> r[i].value == c[i].value * k
  {
    seq(|c|, i requires 0 <= i < |c| => if c[i].Some? then Some(c[i].value * k) else None)
  }

  /** Scaling by a positive factor keeps a row-wise order between two columns
      (Low <= High, BB_Lower <= BB_Middle <= BB_Upper), and scaling back by
      its inverse restores the column. */
  lemma ScaleKeepsOrder(a: Column, b: Column, k: real, i: nat)
    requires k > 0.0 && i < |a| && i < |b| && a[i].Some? && b[i].Some?
    ensures a[i].value <= b[i].value <==> Scale(a, k)[i].value <= Scale(b, k)[i].value
    ensures Scale(Scale(a, k), 1.0 / k) == a
  {
    if a[i].value < b[i].value {
      PositiveScale(b[i].value - a[i].value, k);
    }
    if b[i].value < a[i].value {
      PositiveScale(a[i].value - b[i].value, k);
    }
    ScaleInverse(a, k);
  }

  lemma ScaleInverse(a: Column, k: real)
    requires k != 0.0
    ensures Scale(Scale(a, k), 1.0 / k) == a
  {
    var mid := Scale(a, k);
    var back := Scale(mid, 1.0 / k);
    forall j | 0 <= j < |a| ensures back[j] == a[j] {
      if a[j].Some? {
        var x := a[j].value;
        assert mid[j].value == x * k;
        assert back[j].value == (x * k) * (1.0 / k);
        assert (x * k) * (1.0 / k) == x;
        assert back[j].Some?;
        assert back[j] == Some(back[j].value);
        assert back[j].value == x;
      } else {
        assert back[j].None?;
      }
    }
  }

  /** The OHLC price columns. */
  const OhlcColumns: seq<Col> := [Open, High, Low, Close]

  /** The indicator columns expressed in price units. */
  const PriceColumns: seq<Col> := [MA(20), MA(50), MA(200), BBUpper, BBLower, BBMiddle]

  /** Whether convert_df_to_mt rescales a column. */
  predicate Converted(c: Col) {
    c in OhlcColumns || c in PriceColumns
  }

  /** One loop of convert_df_to_mt: `col * k` for each listed column present,
      in list order; a listed column occurs once, so each is scaled once. */
  method ScaleListed(f: Frame, cols: seq<Col>, k: real) returns (r: Frame)
    requires f.Valid()
    requires forall i, j :: 0 <= i < j < |cols| ==> cols[i] != cols[j]
    ensures r.Valid() && r.index == f.index && r.cols.Keys == f.cols.Keys
    ensures forall c :: c in f.cols ==> r.cols[c] == if c in cols then Scale(f.cols[c], k) else f.cols[c]
  {
    r := f;
    for i := 0 to |cols|
      invariant r.Valid() && r.index == f.index && r.cols.Keys == f.cols.Keys
      invariant forall c :: c in f.cols ==> r.cols[c] == if c in cols[..i] then Scale(f.cols[c], k) else f.cols[c]
    {
      var c := cols[i];
      assert c !in cols[..i];
      if c in r.cols {
        r := r.With(c, Scale(r.cols[c], k));
      }
    }
    assert cols[..|cols|] == cols;
  }

  /** convert_df_to_mt: without a factor an unchanged copy; otherwise each
      present OHLC and price-unit indicator column is multiplied by the
      factor and every other column (Volume, RSI, MACD, ...) is kept. */
  method ConvertDfToMt(f: Frame, commodity: string) returns (r: Frame)
    requires f.Valid()
    ensures r.Valid() && r.index == f.index && r.cols.Keys == f.cols.Keys
    ensures Factor(commodity).None? ==> r == f
    ensures Factor(commodity).Some? ==> forall c :: c in f.cols ==>
      r.cols[c] == if Converted(c) then Scale(f.cols[c], Factor(commodity).value) else f.cols[c]
  {
    var factor := Factor(commodity);
    if factor.None? {
      return f;
    }
    var ohlc := ScaleListed(f, OhlcColumns, factor.value);
    r := ScaleListed(ohlc, PriceColumns, factor.value);
    forall c | c in PriceColumns ensures c !in OhlcColumns {
    }
  }

  /** mt_label: ringgit for palm oil, US dollars for everything else. */
  function MtLabel(commodity: string): (r: string)
    ensures r == "MYR/MT" <==> commodity == PalmOil
    ensures r != "MYR/MT" ==> r == "USD/MT"
  {
    if commodity == PalmOil then "MYR/MT" else "USD/MT"
  }

  /** native_label's table. */
  const NativeLabels: map<string, string> := map[
    "Soybeans" := "cents/bu",
    "Soybean Oil" := "cents/lb",
    "Soybean Meal" := "$/short ton",
    "Corn" := "cents/bu",
    "Wheat" := "cents/bu",
    "Sugar" := "cents/lb",
    "Cotton" := "cents/lb",
    "Coffee" := "cents/lb",
    "Live Cattle" := "cents/lb",
    "Lean Hogs" := "cents/lb",
    "Palm Oil (BMD)" := "MYR/MT"
  ]

  /** native_label: the exchange unit, or "" for an unknown commodity. */
  function NativeLabel(commodity: string): (r: string)
    ensures r == "" <==> commodity !in NativeLabels
  {
    if commodity in NativeLabels then NativeLabels[commodity] else ""
  }

  /** The two tables agree: the same commodities are known; the pound-priced
      ones are exactly those converted with the pounds-per-tonne factor; the
      bushel-priced ones are converted by bushels per tonne over 100 cents;
      and the one without a factor is the one whose display label is MYR/MT. */
  lemma LabelsMatchFactors(commodity: string)
    ensures commodity in NativeLabels <==> commodity in ConversionFactors
    ensures NativeLabel(commodity) == "cents/lb" <==> commodity in PoundPriced
    ensures NativeLabel(commodity) == "cents/bu" ==>
      Factor(commodity) == Some(BushelsPerTonSoy / 100.0) || Factor(commodity) == Some(BushelsPerTonCorn / 100.0)
    ensures commodity in ConversionFactors ==> (Factor(commodity).None? <==> MtLabel(commodity) == "MYR/MT")
  {
    assert NativeLabels.Keys == ConversionFactors.Keys;
  }
}
