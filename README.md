# Commodity analysis core in Dafny

This project models the numeric core of a commodity market-analysis
application:

- **Technical indicators** (`technical.dfy`):
  - moving averages;
  - Wilder-smoothed RSI;
  - daily and weekly percentage changes;
  - MACD built from `adjust=False` exponential averages;
  - Bollinger bands.
- **Signal detectors** (`signals.dfy`), run on the latest row of a price frame:
  - moving-average and MACD crossovers;
  - volume spikes;
  - RSI extremes and RSI divergence;
  - the Bollinger squeeze;
  - the combined detector list.
- **Soybean crush spread** (`spreads.dfy`).
- **Forward curves** (`forward_curve.dfy`): structure, slope and calendar spread.
- **Contract schedule** (`contract_tickers.dfy`): the upcoming futures contracts of a
  commodity, with their month codes.
- **Unit conversion** (`units.dfy`): native exchange units to metric tons.
- **Seasonal analysis** (`seasonal.dfy`): a monthly profile and the latest
  price against it.
- **Cleaners** (`cleaner.dfy`): the steps applied to raw OHLCV, FRED,
  forward-curve, PSD, World Bank and export-sales data.

Shared pieces:

- `common.dfy` models the pandas operations the code relies on:
  - a column is a sequence of `Option<real>`, with `None` for NaN;
  - `mean`/`min`/`max` skip NaN;
  - `ffill`;
  - boolean-mask filtering;
  - `sort_values`.
- `frames.dfy` models a data frame: a date index plus a map from typed column
  names to columns.

Code that builds a new frame step by step is written as methods. These are
`AddMovingAverages`, `AddRsi`, `WilderSmooth`, `AnalyzeCurve`, the contract
scan and `ConvertDfToMt`. Each is proved against a specification function.
Everything else is pure functions with lemmas about them.

The clock (`date.today()`) is a parameter of the contract schedule. Logging
is modelled as a returned list of warnings (`Cleaner.GapWarnings`). The
human-readable summary strings are not modelled.

## Model

| member | source | states |
|---|---|---|
| Technical.MovingAverageWithinWindow | analysis/technical.py:39-42 | MA_w at row i is defined iff the window of w closes ending at i exists and is fully defined; it then lies between any bounds of the closes |
| Technical.MovingAverageOfConstant | analysis/technical.py:39-42 | on a constant series, MA_w is NaN for the first w-1 rows and the constant afterwards |
| Technical.AveragesAdded | analysis/technical.py:39-42 | setting the averages adds exactly the MA_w columns, keeps every other column, and MA_w is the rolling mean of the closes |
| Technical.AddMovingAverages | analysis/technical.py:19-42 | the loop over the windows produces the frame with one MA_w column per window on the same index |
| Technical.GainLossDefined | analysis/technical.py:68-71 | gain and loss are defined iff the diff is; both are non-negative; gain − loss equals the change in close |
| Technical.FirstDefined | analysis/technical.py:77 | first_valid_index: the first defined position, or None iff nothing is defined |
| Technical.WilderValueSign | analysis/technical.py:81-82 | one Wilder step of non-negative values stays non-negative, and is positive when the new value is |
| Technical.WilderSmooth | analysis/technical.py:77-82 | the in-place smoothing loop leaves avg_gain and avg_loss equal, row by row, to the specification Smoothed |
| Technical.AddRsi | analysis/technical.py:45-87 | the frame gains exactly the RSI column, equal to RsiColumn of the closes |
| Technical.RsiUndefinedBeforePeriod | analysis/technical.py:73-85 | smoothing never starts before row `period`, so RSI is NaN on the first `period` rows |
| Technical.RsiStartAtPeriod | analysis/technical.py:73-79 | with the first period+1 closes defined, smoothing starts exactly at row `period` |
| Technical.RsiSeedAtPeriod | analysis/technical.py:73-74 | the seed at row `period` is the plain mean of the first `period` gains and losses |
| Technical.AveragesDefined | analysis/technical.py:77-82 | from row `period` on, over defined closes, both averages are defined |
| Technical.AvgGainRecurrence | analysis/technical.py:81 | after the seed, avg_gain[i] = (avg_gain[i-1]·(period−1) + gain[i]) / period |
| Technical.AvgLossRecurrence | analysis/technical.py:82 | after the seed, avg_loss follows the same Wilder recurrence on the losses |
| Technical.SmoothedNonNegative | analysis/technical.py:73-82 | every defined smoothed average of non-negative values is non-negative |
| Technical.RsiInRange | analysis/technical.py:84-85 | wherever RSI is defined it lies in [0, 100] |
| Technical.RsiOfRisingSeries | analysis/technical.py:68-85 | on a strictly rising series RSI is exactly 100 from row `period` on (zero average loss) |
| Technical.RsiOfConstantSeries | analysis/technical.py:68-85 | on a constant series both averages are 0 and, with no guard for 0 / 0, RSI is NaN on every row |
| Technical.PctChangeRoundTrip | analysis/technical.py:109-110 | a change is defined iff the closes in force `lag` rows apart exist with a non-zero base; applying it to the base gives back the later close |
| Technical.PctChangeOfDefined | analysis/technical.py:109-110 | over defined closes, the change at i is defined iff i ≥ lag with a non-zero base, and close[i] = close[i−lag]·(1 + change/100) |
| Technical.PctValueInverse | analysis/technical.py:109 | a percentage change applied to its base gives the later value |
| Technical.AddPriceChanges | analysis/technical.py:90-111 | adds the daily (lag 1) and weekly (lag 5) change columns and nothing else |
| Technical.EwmDefinedness | analysis/technical.py:153-156 | ewm(adjust=False) at row i is defined iff some value at or before i is |
| Technical.EwmRecurrence | analysis/technical.py:153-156 | over defined values the average starts at the first value, then ewm[i] = α·x[i] + (1−α)·ewm[i−1] |
| Technical.EwmBlend | analysis/technical.py:153 | one update of a seeded average is the α-blend of the new value and the old average |
| Technical.MacdDefinedness | analysis/technical.py:152-157 | MACD, signal and histogram are defined exactly from the first defined close on (no warm-up gap); histogram + signal = MACD |
| Technical.CalculateMacd | analysis/technical.py:114-158 | adds exactly the MACD, MACD_Signal and MACD_Histogram columns |
| Technical.BollingerBands | analysis/technical.py:192-197 | upper − middle = middle − lower = numStd·std, so upper ≥ middle ≥ lower for a non-negative spread; nothing is defined before the window is full; the width is defined iff the middle band is non-zero and equals 2·numStd·std / middle · 100 |
| Technical.CalculateBollinger | analysis/technical.py:161-198 | adds exactly BB_Middle, BB_Upper, BB_Lower and BB_Width |
| Technical.ComputeAllTechnicals | analysis/technical.py:232-245 | runs the indicators in source order; the result equals the specification Technicals |
| Technical.TechnicalsAdded | analysis/technical.py:232-245 | compute_all_technicals adds exactly the technical columns, keeps every other column, and each added column is its indicator |
| Signals.CrossoverFires | analysis/signals.py:50-66 | a cross is emitted iff all four values are defined and the short average crosses the long one in that direction; never both directions |
| Signals.Crossover | analysis/signals.py:42-51 | at most one record, dated at the last row; needs two rows and both columns |
| Signals.MaCrossovers | analysis/signals.py:20-90 | at most two records: 20/50 crosses as warnings, 50/200 crosses as alerts, all dated at the last row |
| Signals.MacdCrossover | analysis/signals.py:257-308 | at most one MACD bullish or bearish record, severity info, dated at the last row |
| Signals.VolumeSpikeFires | analysis/signals.py:116-126 | a spike is reported iff there are 21 rows, the prior 20-row average is defined and non-zero, today's volume is defined, and the ratio reaches the threshold; for a positive average, iff volume ≥ threshold × average |
| Signals.RsiExtremesFire | analysis/signals.py:156-178 | overbought iff the latest RSI > 70, oversold iff < 30; otherwise (or NaN) nothing |
| Signals.WindowStart | analysis/signals.py:214 | first row of iloc[-lookback:]; a lookback of 0 selects the whole frame |
| Signals.FirstMaxIndex | analysis/signals.py:222 | idxmax over the window: None iff all NaN, else the first position of the largest value |
| Signals.FirstMinIndex | analysis/signals.py:239 | idxmin over the window: None iff all NaN, else the first position of the smallest value |
| Signals.DivergenceFires | analysis/signals.py:211-252 | bearish (bullish) divergence is reported iff the rule holds at the row where the window's close first reaches its high (low) |
| Signals.NewHighIsNotBearish | analysis/signals.py:221-228 | a current close strictly above every other close of the window is the window's high, so the not-the-same-bar guard rules bearish divergence out |
| Signals.NewLowIsNotBullish | analysis/signals.py:238-245 | a current close strictly below every other close of the window gives no bullish divergence |
| Signals.SqueezeFires | analysis/signals.py:331-346 | a squeeze fires iff BB_Width exists, there are at least 120 rows, the current width is defined and it is ≤ 1.05 × the 120-row minimum; with a defined current width that minimum is defined, and a width that is itself a non-negative minimum always fires |
| Signals.DetectAllSignals | analysis/signals.py:351-375 | at most eight records, all dated at the last row for the commodity |
| Signals.AllSignalsInDetectorOrder | analysis/signals.py:368-375 | the combined list is grouped by detector, in the order the detectors run |
| Spreads.CloseOnFinds | analysis/spreads.py:50-54 | on a date index the lookup by date finds exactly the defined close of that date |
| Spreads.CrushRowFromCloses | analysis/spreads.py:50-60 | each row carries the three closes of its date and the margin oil·11 + meal·2.2 − soybeans |
| Spreads.CrushSpreadRows | analysis/spreads.py:50-65 | a date has a row iff soybeans, oil and meal all have a defined close on it |
| Spreads.CrushSpreadChronological | analysis/spreads.py:50-62 | rows come out in strictly increasing date order |
| Spreads.CrushDatesFromSoybeans | analysis/spreads.py:50-54 | every result date is a date of the soybean series |
| Spreads.CrushValueMonotone | analysis/spreads.py:56-60 | the margin rises with oil and meal and falls with soybeans, strictly when one moves strictly |
| ForwardCurve.ByMonth | analysis/forward_curve.py:57 | sort_values("contract_month"): a permutation of the curve, sorted by month |
| ForwardCurve.MovesPartitionSteps | analysis/forward_curve.py:64-70 | every step is a rise, a fall or a repeat: rises + falls + repeats = n − 1 |
| ForwardCurve.ClassifyExactly | analysis/forward_curve.py:72-84 | each structure holds for exactly its counts: flat iff no moves, contango iff inc > 2·dec, mild contango iff dec < inc ≤ 2·dec, mixed iff inc = dec > 0, and the mirror cases |
| ForwardCurve.ClassifySymmetric | analysis/forward_curve.py:72-84 | swapping rises and falls mirrors the structure |
| ForwardCurve.PercentOf | analysis/forward_curve.py:61 | spread_pct · front = spread · 100, and 0 when the front is 0 |
| ForwardCurve.PercentSign | analysis/forward_curve.py:61 | with a positive front, spread_pct has the sign of the spread |
| ForwardCurve.AnalyzeCurve | analysis/forward_curve.py:33-110 | None iff fewer than two contracts; otherwise front/back of the sorted curve, spread, spread_pct, count, and the structure from the loop's rise and fall counts |
| ForwardCurve.MonotoneCurves | analysis/forward_curve.py:63-84 | strictly rising closes classify as contango, strictly falling as backwardation |
| ForwardCurve.CurveSlope | analysis/forward_curve.py:113-143 | None iff fewer than two contracts or zero months apart; otherwise slope × months = back − front |
| ForwardCurve.SlopeSign | analysis/forward_curve.py:132-143 | with valid months the month gap is positive, so the slope is positive iff the back is dearer than the front |
| ForwardCurve.CalendarSpreadOf | analysis/forward_curve.py:146-183 | no spread iff the curve is empty or too short for either position; OutOfRange (the IndexError of iloc) iff otherwise a negative position reaches before the first contract; else the far-minus-near spread at those positions of the sorted curve, its percentage, and the labels |
| ForwardCurve.FrontSpreadIsFirstStep | analysis/forward_curve.py:166-174 | the default calendar spread is the first step of the curve and agrees in sign with analyze_curve's first move |
| ContractTickers.MonthCodeRoundTrip | config.py:304-307 | every month 1..12 has a code, and the code names its month back |
| ContractTickers.YearDigits | data/fetchers/forward_curve_fetcher.py:66 | the year string is four digits; its last two encode year mod 100 |
| ContractTickers.TickerDecodes | data/fetchers/forward_curve_fetcher.py:65-67 | the ticker is root, month code, two-digit year, '.', exchange; each part decodes to its value |
| ContractTickers.LabelNamesMonth | data/fetchers/forward_curve_fetcher.py:68-69 | the "%b %Y" label is the month's abbreviation, a space and the four-digit year |
| ContractTickers.HorizonMembers | data/fetchers/forward_curve_fetcher.py:53-63 | a year-month is scanned iff it is a trading month of a scanned year and not already past |
| ContractTickers.HorizonIncreasing | data/fetchers/forward_curve_fetcher.py:56-57 | with distinct trading months the scan visits year-months in strictly increasing order |
| ContractTickers.SortedDistinct | data/fetchers/forward_curve_fetcher.py:57 | sorting distinct trading months gives a strictly increasing list |
| ContractTickers.ScheduleProperties | data/fetchers/forward_curve_fetcher.py:51-79 | at most num_contracts entries, each an unexpired trading month within three years; all such months when fewer are found; increasing when the months are distinct |
| ContractTickers.BuildContractTickers | data/fetchers/forward_curve_fetcher.py:30-79 | the returned list is exactly the ticker/date/label entries of the schedule |
| ContractTickers.ScanYears | data/fetchers/forward_curve_fetcher.py:53-77 | the while loop over years collects the first num_contracts scanned months |
| ContractTickers.ScanMonths | data/fetchers/forward_curve_fetcher.py:57-75 | one pass of the for loop appends this year's unexpired trading months until num_contracts is reached |
| Units.Factor | processing/units.py:32-71 | every factor in the table is positive |
| Units.FactorDefined | processing/units.py:32-71 | a factor exists exactly for the tabled commodities other than palm oil |
| Units.SharedFactors | processing/units.py:35-66 | commodities in the same unit share the same factor value |
| Units.ToMetricTons | processing/units.py:74-94 | None iff the commodity has no factor |
| Units.ToMetricTonsLinear | processing/units.py:91-94 | the conversion is linear |
| Units.ToMetricTonsMonotone | processing/units.py:91-94 | the conversion keeps the order of prices and is undone by dividing by the factor |
| Units.ScaleKeepsOrder | processing/units.py:120-133 | scaling two columns keeps row-wise order (Low ≤ High, bands), and scaling back by 1/k restores the column |
| Units.ScaleListed | processing/units.py:121-123 | one conversion loop scales exactly the listed columns present and keeps the rest |
| Units.ConvertDfToMt | processing/units.py:97-134 | without a factor an unchanged copy; otherwise exactly the OHLC and price-unit indicator columns are scaled |
| Units.MtLabel | processing/units.py:137-154 | MYR/MT iff palm oil, USD/MT otherwise |
| Units.NativeLabel | processing/units.py:157-176 | "" iff the commodity is unknown |
| Units.LabelsMatchFactors | processing/units.py:32-71 | both tables know the same commodities; cents/lb ones are exactly the pound-priced ones; cents/bu ones use a bushel factor; the MYR/MT one has no factor |
| Seasonal.MonthClosesAre | analysis/seasonal.py:42-44 | a value is in a month's group iff some row of that calendar month has it |
| Seasonal.MonthlySeasonalRows | analysis/seasonal.py:38-50 | one row per calendar month present, in increasing month order; each row holds that month's mean/min/max; min ≤ avg ≤ max; 1 to 12 rows |
| Seasonal.DeviationPct | analysis/seasonal.py:88 | deviation · avg = (current − avg) · 100 when defined |
| Seasonal.AboveMeansAboveAverage | analysis/seasonal.py:88-93 | with a positive average "above" iff current > average; with a negative one iff current < average; never when they are equal |
| Seasonal.CurrentVsSeasonalDefined | analysis/seasonal.py:53-100 | None iff the frame is empty or has no Close; otherwise the last close, the mean of its calendar month over all years, the deviation, and "above" iff the deviation is positive |
| Cleaner.CleanOhlcv | processing/cleaner.py:55-108 | an empty frame (no rows, or no columns, as `df.empty`) is returned unchanged; otherwise the row count is the number of rows with an OHLC value |
| Cleaner.CleanOhlcvKeptRows | processing/cleaner.py:83-85 | the rows kept are exactly the input rows with some OHLC value, in order |
| Cleaner.CleanOhlcvColumn | processing/cleaner.py:85-103 | each column is the forward fill of its kept entries: kept values unchanged, NaN only before the first value |
| Cleaner.CleanOhlcvHasPrice | processing/cleaner.py:73-103 | every output row has an OHLC value, unless the frame has no columns and is returned as it is |
| Cleaner.MaxGapIsLongestRun | processing/cleaner.py:91-94 | max_gap is the length of the longest run of NaN: such a run exists, none is longer, and it is 0 iff the column has no NaN |
| Cleaner.GapWarningsExact | processing/cleaner.py:88-100 | a warning names exactly the OHLC columns whose longest gap after the drop exceeds 5, with that gap |
| Cleaner.CleanFredSeriesSuffix | processing/cleaner.py:118-125 | the result is the forward-filled date-sorted series without its leading NaN run |
| Cleaner.CleanFredSeriesSorted | processing/cleaner.py:123-124 | the result is sorted by date |
| Cleaner.CleanFredSeriesValue | processing/cleaner.py:124 | every output value is defined and is some input value |
| Cleaner.CleanForwardCurveProperties | processing/cleaner.py:337-343 | the rows with a positive close, each as often as in the input, sorted by contract month |
| Cleaner.StripProperties | processing/cleaner.py:195-196 | strip() leaves no white space at either end, removes only white space, and is idempotent |
| Cleaner.Trunc | processing/cleaner.py:202 | astype(int) truncates toward zero |
| Cleaner.CleanPsdProperties | processing/cleaner.py:178-208 | a row is in the result iff it is an input row with a year and a value, country stripped and year truncated; countries are stripped, years whole, values defined |
| Cleaner.CleanPsdInOrder | processing/cleaner.py:178-208 | the result is exactly the kept input rows, each cleaned, in input order and with their multiplicity |
| Cleaner.CleanWorldbankProperties | processing/cleaner.py:359-366 | the rows with a price, each as often as in the input, sorted by date |
| Cleaner.CleanExportSalesProperties | processing/cleaner.py:304-316 | the rows with net_sales, each as often as in the input, sorted by week_ending |
| Common.MeanBetweenMinAndMax | analysis/seasonal.py:44-48 | mean, min and max (NaN skipped) are defined together, with min ≤ mean ≤ max |
| Common.FfillProperties | processing/cleaner.py:103 | ffill keeps every defined value and fills a NaN with the last defined value before it, or leaves it NaN when there is none |
| Common.SortBy | processing/cleaner.py:123 | sort_values: the result is sorted by the key and a permutation of the input |
| Common.FilterMultiset | processing/cleaner.py:339 | dropna as a mask: every kept element passes, and a passing element is kept as often as it occurs |

## Left out

- Historical volatility (`calculate_volatility`) is not modelled. It needs a
  square root and a rolling sample standard deviation over reals.
- Technical.CalculateBollinger: the rolling standard deviation is a parameter
  column, not computed. So is the 20-row deviation passed to
  Technical.ComputeAllTechnicals. The HV columns that compute_all_technicals
  adds are not modelled.
- Floating point is modelled as exact real arithmetic.
  - A division that pandas would turn into ±inf (a zero base in pct_change,
    a zero middle band in BB_Width) is modelled as NaN (`None`). The
    exception is Seasonal.AboveSeasonal, where the sign of an infinite
    deviation decides the result as in IEEE arithmetic.
  - RSI with a zero average loss is 100, and 0/0 is NaN, as under IEEE.
- Common.SortBy: pandas' default quicksort is not stable. The model sorts
  stably, keeping the input order among equal keys. Most members claim only
  "sorted and a permutation", which holds for any order of ties. These
  members fix the exact output and so assume the input order among equal
  keys; they match pandas whenever the keys are distinct:
  - Cleaner.CleanFredSeriesSuffix, for observations with the same date (the
    forward-filled values depend on the order of the tie);
  - ForwardCurve.AnalyzeCurve, ForwardCurve.MonotoneCurves,
    ForwardCurve.CurveSlope, ForwardCurve.SlopeSign,
    ForwardCurve.CalendarSpreadOf and ForwardCurve.FrontSpreadIsFirstStep,
    for contracts with the same contract month (front, back and the
    positions follow the order of the tie).
- String coercions are not modelled. This covers `pd.to_datetime`,
  `pd.to_numeric(errors="coerce")`, the contract-month strings and the
  label text. Inputs are taken as already-coerced values. A value that
  fails to parse is `None`, and dates are (year, month, day) values.
  Contract-month strings 'YYYY-MM-DD' sort like `Common.DateKey`.
- Cleaner.CleanWorldbank takes a table that has its Date and price columns.
  The KeyError that `df["Date"]` or `dropna(subset=["price"])` raises when
  one is missing is not modelled, because the row type cannot lack a column.
  (clean_export_sales checks its columns, and Cleaner.CleanExportSales models
  that check.)
- Frames.Col: `Other(name)` is not checked against the typed column names.
  `Other("RSI")` would be a second key for the one pandas column "RSI", so
  the model always uses the typed constructors for those columns.
- Cleaner.CleanPsdProperties assumes a finite numeric year. An infinite
  year makes `astype(int)` raise.
- ForwardCurve.CalendarSpreadOf: the IndexError that `df.iloc` raises for a
  position before the first contract is returned as the `OutOfRange`
  outcome instead of being raised.
- ForwardCurve contracts carry defined closes. A NaN close in a curve
  (compared with `>` in the source) is not modelled.
- ContractTickers.BuildContractTickers requires:
  - today's year to be in 1000..9996, so the scanned years have four digits;
  - every trading month to be in 1..12, since the source raises a KeyError
    on any other month.
- ContractTickers.ScanYears and ContractTickers.ScanMonths are the outer and
  inner loops of `_build_contract_tickers`, split into two methods.
- Units.ScaleListed is one of the two loops of `convert_df_to_mt`.
- Seasonal.MonthlySeasonalRows and Seasonal.CurrentVsSeasonalDefined require
  a date index with valid months. pandas guarantees this for a
  DatetimeIndex.
- Gap warnings are returned as values (`Cleaner.GapWarnings`). The log
  message text is not modelled.
- `_validate_price_data` only logs, so it is not part of this model.
- Cleaners that change the index type or name (`to_datetime`, naming the
  index "Date", `reset_index`) are modelled as keeping positions only.
- The summary, implication and assessment strings are left out of the
  returned records, as are the signal description strings. Signal dates
  are `Date` values rather than strings.
- The Python `dict`/`list` return shapes are modelled as datatypes.
  - An empty dict is `None`.
  - A DataFrame is a `Frame`, or a sequence of row records for the
    tabular cleaners.
  - A table's column presence is a boolean flag per column.
