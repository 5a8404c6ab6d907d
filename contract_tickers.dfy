/**
 * Building the futures contract symbols of a forward curve: starting from
 * the current year, every trading month still in the future is turned into
 * a ticker root + month code + two-digit year + "." + exchange, until the
 * requested number of contracts is reached or three more years have been
 * scanned. The current date is a parameter.
 */
module ContractTickers {
  import opened Common

  /** The standard futures month codes, January to December. */
  const MonthCodes: string := "FGHJKMNQUVXZ"

  /** strftime's %b month abbreviations in the C locale. */
  const MonthAbbrevs: seq<string> := ["Jan", "Feb", "Mar", "Apr", "May", "Jun", "Jul", "Aug", "Sep", "Oct", "Nov", "Dec"]

  function MonthCode(m: int): char
    requires 1 <= m <= 12
  {
    MonthCodes[m - 1]
  }

  /** Reading a month code back. */
  function CodeMonth(c: char): Option<int> {
    match c
    case 'F' => Some(1) case 'G' => Some(2) case 'H' => Some(3) case 'J' => Some(4)
    case 'K' => Some(5) case 'M' => Some(6) case 'N' => Some(7) case 'Q' => Some(8)
    case 'U' => Some(9) case 'V' => Some(10) case 'X' => Some(11) case 'Z' => Some(12)
    case _ => None
  }

  /** Every month has its own code. */
  lemma MonthCodeRoundTrip(m: int)
    requires 1 <= m <= 12
    ensures CodeMonth(MonthCode(m)) == Some(m)
  {
  }

  function DigitChar(d: int): char
    requires 0 <= d <= 9
  {
    "0123456789"[d]
  }

  function DigitValue(c: char): int {
    c as int - '0' as int
  }

  /** str(year) for a four-digit year. */
  function YearString(y: int): (s: string)
    requires 1000 <= y <= 9999
    ensures |s| == 4
  {
    [DigitChar(y / 10 / 10 / 10), DigitChar(y / 10 / 10 % 10), DigitChar(y / 10 % 10), DigitChar(y % 10)]
  }

  lemma DigitRoundTrip(d: int)
    requires 0 <= d <= 9
    ensures '0' <= DigitChar(d) <= '9' && DigitValue(DigitChar(d)) == d
  {
  }

  lemma DivTen(x: int)
    ensures x == 10 * (x / 10) + x % 10 && 0 <= x % 10 < 10
  {
  }

  lemma ModHundred(y: int, q: int, t: int)
    requires y == 100 * q + t && 0 <= t < 100
    ensures y % 100 == t
  {
  }

  /** The four characters of str(year) are the decimal digits of the year. */
  lemma YearDigits(y: int)
    requires 1000 <= y <= 9999
    ensures var s := YearString(y);
      && (forall k :: 0 <= k < 4 ==> '0' <= s[k] <= '9')
      && DigitValue(s[2]) * 10 + DigitValue(s[3]) == y % 100
      && DigitValue(s[0]) * 1000 + DigitValue(s[1]) * 100 + DigitValue(s[2]) * 10 + DigitValue(s[3]) == y
  {
    var q1 := y / 10;
    var q2 := q1 / 10;
    var q3 := q2 / 10;
    DivTen(y);
    DivTen(q1);
    DivTen(q2);
    assert 0 <= q3 <= 9;
    DigitRoundTrip(q3);
    DigitRoundTrip(q2 % 10);
    DigitRoundTrip(q1 % 10);
    DigitRoundTrip(y % 10);
    ModHundred(y, q2, 10 * (q1 % 10) + y % 10);
  }

  datatype YearMonth = YearMonth(year: int, month: int)

  predicate ValidMonth(ym: YearMonth) {
    1000 <= ym.year <= 9999 && 1 <= ym.month <= 12
  }

  /** One entry of the result: the ticker, day 1 of the contract month and
      the "%b %Y" label. */
  datatype ContractSpec = ContractSpec(ticker: string, contractMonth: Date, monthLabel: string)

  function Ticker(root: string, exchange: string, ym: YearMonth): string
    requires ValidMonth(ym)
  {
    root + [MonthCode(ym.month)] + YearString(ym.year)[2..] + "." + exchange
  }

  function Label(ym: YearMonth): string
    requires ValidMonth(ym)
  {
    MonthAbbrevs[ym.month - 1] + " " + YearString(ym.year)
  }

  function Entry(root: string, exchange: string, ym: YearMonth): ContractSpec
    requires ValidMonth(ym)
  {
    ContractSpec(Ticker(root, exchange, ym), Date(ym.year, ym.month, 1), Label(ym))
  }

  function Entries(root: string, exchange: string, s: seq<YearMonth>): (r: seq<ContractSpec>)
    requires forall k :: 0 <= k < |s| ==> ValidMonth(s[k])
    ensures |r| == |s| && forall k :: 0 <= k < |s| ==> r[k] == Entry(root, exchange, s[k])
  {
    seq(|s|, k requires 0 <= k < |s| => Entry(root, exchange, s[k]))
  }

  /** The ticker names its contract: after the root come the month's code,
      the year modulo 100 in two digits, a dot and the exchange. */
  lemma TickerDecodes(root: string, exchange: string, ym: YearMonth)
    requires ValidMonth(ym)
    ensures var t := Ticker(root, exchange, ym);
      && |t| == |root| + 4 + |exchange|
      && t[..|root|] == root
      && CodeMonth(t[|root|]) == Some(ym.month)
      && DigitValue(t[|root| + 1]) * 10 + DigitValue(t[|root| + 2]) == ym.year % 100
      && t[|root| + 3] == '.'
      && t[|root| + 4..] == exchange
  {
    var t := Ticker(root, exchange, ym);
    var y := YearString(ym.year)[2..];
    YearDigits(ym.year);
    MonthCodeRoundTrip(ym.month);
    assert t == root + [MonthCode(ym.month)] + y + "." + exchange;
    assert t[|root| + 1] == y[0] && t[|root| + 2] == y[1];
  }

  /** The label is the month's abbreviation, a space and the four-digit year. */
  lemma LabelNamesMonth(ym: YearMonth)
    requires ValidMonth(ym)
    ensures var l := Label(ym);
      && |l| == 8 && l[..3] == MonthAbbrevs[ym.month - 1] && l[3] == ' '
      && DigitValue(l[4]) * 1000 + DigitValue(l[5]) * 100 + DigitValue(l[6]) * 10 + DigitValue(l[7]) == ym.year
  {
    var l := Label(ym);
    YearDigits(ym.year);
    assert l[4..] == YearString(ym.year);
  }

  function Id(m: int): int {
    m
  }

  /** What one month of one year contributes: nothing for a month of the
      current year that is not after today, else that contract. */
  function Emitted(year: int, today: Date, m: int): seq<YearMonth> {
    if year == today.year && m <= today.month then [] else [YearMonth(year, m)]
  }

  /** The contracts of one year from the first i of the sorted months. */
  function MonthsUpTo(year: int, today: Date, months: seq<int>, i: nat): seq<YearMonth>
    requires i <= |months|
  {
    if i == 0 then [] else MonthsUpTo(year, today, months, i - 1) + Emitted(year, today, months[i - 1])
  }

  /** All contracts of the years from today's year up to (not including) `year`. */
  function Horizon(today: Date, months: seq<int>, year: int): seq<YearMonth>
    decreases year - today.year
  {
    if year <= today.year then []
    else Horizon(today, months, year - 1) + MonthsUpTo(year - 1, today, months, |months|)
  }

  /** The first n elements, or all of them when there are fewer. */
  function Take<T>(s: seq<T>, n: int): seq<T> {
    if n <= 0 then [] else if n < |s| then s[..n] else s
  }

  /** What _build_contract_tickers returns: the first num_contracts
      contracts of the sorted trading months over today's year and the three
      after it. */
  function Schedule(today: Date, tradingMonths: seq<int>, numContracts: int): seq<YearMonth> {
    Take(Horizon(today, SortBy(tradingMonths, Id), today.year + 4), numContracts)
  }

  lemma {:induction false} MonthsPrefix(year: int, today: Date, months: seq<int>, i: nat, j: nat)
    requires i <= j <= |months|
    ensures MonthsUpTo(year, today, months, i) <= MonthsUpTo(year, today, months, j)
    decreases j
  {
    if i < j {
      MonthsPrefix(year, today, months, i, j - 1);
    }
  }

  lemma {:induction false} HorizonPrefix(today: Date, months: seq<int>, y1: int, y2: int)
    requires y1 <= y2
    ensures Horizon(today, months, y1) <= Horizon(today, months, y2)
    decreases y2 - y1
  {
    if y1 < y2 {
      HorizonPrefix(today, months, y1, y2 - 1);
      if y2 > today.year {
        assert Horizon(today, months, y2 - 1) <= Horizon(today, months, y2);
      }
    }
  }

  /** Taking n from a longer sequence only looks at its first part. */
  lemma TakeOfExtension<T>(a: seq<T>, b: seq<T>, n: int)
    requires a <= b && |a| >= n
    ensures Take(a, n) == Take(b, n)
  {
  }

  lemma TakeAll<T>(s: seq<T>, n: int)
    requires |s| <= n
    ensures Take(s, n) == s
  {
  }

  lemma Associative<T>(a: seq<T>, b: seq<T>, c: seq<T>)
    ensures (a + b) + c == a + (b + c)
  {
  }

  predicate AllValid(s: seq<YearMonth>) {
    forall k :: 0 <= k < |s| ==> ValidMonth(s[k])
  }

  /** Entry by entry, the contracts are those of the year-months picked. */
  predicate Describes(contracts: seq<ContractSpec>, root: string, exchange: string, picked: seq<YearMonth>) {
    && |contracts| == |picked|
    && forall k :: 0 <= k < |picked| ==> ValidMonth(picked[k]) && contracts[k] == Entry(root, exchange, picked[k])
  }

  lemma DescribesAppend(contracts: seq<ContractSpec>, root: string, exchange: string, picked: seq<YearMonth>, ym: YearMonth)
    requires Describes(contracts, root, exchange, picked) && ValidMonth(ym)
    ensures Describes(contracts + [Entry(root, exchange, ym)], root, exchange, picked + [ym])
  {
  }

  lemma DescribesEntries(contracts: seq<ContractSpec>, root: string, exchange: string, picked: seq<YearMonth>)
    requires Describes(contracts, root, exchange, picked)
    ensures AllValid(picked) && contracts == Entries(root, exchange, picked)
  {
  }

  /** sorted() keeps the trading months. */
  lemma SortedMonths(tradingMonths: seq<int>)
    ensures forall m :: m in SortBy(tradingMonths, Id) <==> m in tradingMonths
  {
    var months := SortBy(tradingMonths, Id);
    forall m ensures m in months <==> m in tradingMonths {
      assert m in months <==> m in multiset(months);
      assert m in tradingMonths <==> m in multiset(tradingMonths);
    }
  }

  lemma HorizonStep(today: Date, months: seq<int>, year: int)
    requires today.year <= year
    ensures Horizon(today, months, year + 1) == Horizon(today, months, year) + MonthsUpTo(year, today, months, |months|)
  {
  }

  /** Position of a contract month on a single month scale. */
  function MonthIndex(ym: YearMonth): int {
    ym.year * 12 + ym.month
  }

  /** A contract is a candidate when it lies in the scanned years, is a
      trading month, and is not in the current year at or before today's month. */
  predicate Candidate(today: Date, months: seq<int>, lastYear: int, ym: YearMonth) {
    && today.year <= ym.year <= lastYear
    && ym.month in months
    && (ym.year == today.year ==> ym.month > today.month)
  }

  /** One year's contracts are the candidate months of that year, in the
      order of the months. */
  lemma {:induction false} MonthsUpToMembers(year: int, today: Date, months: seq<int>, i: nat, ym: YearMonth)
    requires i <= |months|
    ensures ym in MonthsUpTo(year, today, months, i) <==>
      ym.year == year && (exists j :: 0 <= j < i && months[j] == ym.month) && (year == today.year ==> ym.month > today.month)
  {
    if i > 0 {
      MonthsUpToMembers(year, today, months, i - 1, ym);
      if ym.year == year && months[i - 1] == ym.month {
        assert exists j :: 0 <= j < i && months[j] == ym.month;
      }
      if exists j :: 0 <= j < i && months[j] == ym.month {
        var j :| 0 <= j < i && months[j] == ym.month;
        if j < i - 1 {
          assert exists j' :: 0 <= j' < i - 1 && months[j'] == ym.month;
        }
      }
    }
  }

  /** The horizon up to `year` holds exactly the candidates of the years before it. */
  lemma {:induction false} HorizonMembers(today: Date, months: seq<int>, year: int, ym: YearMonth)
    ensures ym in Horizon(today, months, year) <==> Candidate(today, months, year - 1, ym)
    decreases year - today.year
  {
    if year > today.year {
      HorizonMembers(today, months, year - 1, ym);
      MonthsUpToMembers(year - 1, today, months, |months|, ym);
      if ym.month in months {
        var j :| 0 <= j < |months| && months[j] == ym.month;
      }
    }
  }

  /** Strictly increasing in time. */
  predicate Increasing(s: seq<YearMonth>) {
    forall k, l :: 0 <= k < l < |s| ==> MonthIndex(s[k]) < MonthIndex(s[l])
  }

  /** Strictly increasing months. */
  predicate StrictlySorted(months: seq<int>) {
    forall j, k :: 0 <= j < k < |months| ==> months[j] < months[k]
  }

  lemma IncreasingAppend(a: seq<YearMonth>, b: seq<YearMonth>)
    requires Increasing(a) && Increasing(b)
    requires forall x, y :: x in a && y in b ==> MonthIndex(x) < MonthIndex(y)
    ensures Increasing(a + b)
  {
    forall k, l | 0 <= k < l < |a + b| ensures MonthIndex((a + b)[k]) < MonthIndex((a + b)[l]) {
      if k < |a| && l >= |a| {
        assert (a + b)[k] in a && (a + b)[l] in b;
      }
    }
  }

  /** With strictly sorted months, one year's contracts are in time order. */
  lemma {:induction false} MonthsUpToIncreasing(year: int, today: Date, months: seq<int>, i: nat)
    requires i <= |months| && StrictlySorted(months)
    ensures Increasing(MonthsUpTo(year, today, months, i))
  {
    if i > 0 {
      MonthsUpToIncreasing(year, today, months, i - 1);
      forall x, y | x in MonthsUpTo(year, today, months, i - 1) && y in Emitted(year, today, months[i - 1])
        ensures MonthIndex(x) < MonthIndex(y)
      {
        MonthsUpToMembers(year, today, months, i - 1, x);
      }
      IncreasingAppend(MonthsUpTo(year, today, months, i - 1), Emitted(year, today, months[i - 1]));
    }
  }

  /** With strictly sorted calendar months, the whole horizon is in time order. */
  lemma {:induction false} HorizonIncreasing(today: Date, months: seq<int>, year: int)
    requires StrictlySorted(months) && forall m :: m in months ==> 1 <= m <= 12
    ensures Increasing(Horizon(today, months, year))
    decreases year - today.year
  {
    if year > today.year {
      HorizonIncreasing(today, months, year - 1);
      MonthsUpToIncreasing(year - 1, today, months, |months|);
      forall x, y | x in Horizon(today, months, year - 1) && y in MonthsUpTo(year - 1, today, months, |months|)
        ensures MonthIndex(x) < MonthIndex(y)
      {
        HorizonMembers(today, months, year - 1, x);
        MonthsUpToMembers(year - 1, today, months, |months|, y);
        var j :| 0 <= j < |months| && months[j] == y.month;
        assert months[j] in months;
      }
      IncreasingAppend(Horizon(today, months, year - 1), MonthsUpTo(year - 1, today, months, |months|));
    }
  }

  /** Sorting distinct trading months gives strictly increasing months. */
  lemma SortedDistinct(tradingMonths: seq<int>)
    requires forall j, k :: 0 <= j < k < |tradingMonths| ==> tradingMonths[j] != tradingMonths[k]
    ensures StrictlySorted(SortBy(tradingMonths, Id))
  {
    var months := SortBy(tradingMonths, Id);
    forall j, k | 0 <= j < k < |months| ensures months[j] < months[k] {
      assert Id(months[j]) <= Id(months[k]);
      NoRepeatInPermutation(months, tradingMonths, j, k);
    }
  }

  /** A permutation of a sequence without repetitions has none either. */
  lemma NoRepeatInPermutation(a: seq<int>, b: seq<int>, j: nat, k: nat)
    requires multiset(a) == multiset(b) && j < k < |a|
    requires forall j, k :: 0 <= j < k < |b| ==> b[j] != b[k]
    ensures a[j] != a[k]
  {
    if a[j] == a[k] {
      TwoOccurrences(a, j, k);
      DistinctCount(b, a[j]);
      assert false;
    }
  }

  lemma TwoOccurrences(s: seq<int>, j: nat, k: nat)
    requires j < k < |s| && s[j] == s[k]
    ensures multiset(s)[s[j]] >= 2
  {
    assert s == s[..k] + [s[k]] + s[k + 1..];
    assert s[..k][j] == s[j];
    assert s[j] in multiset(s[..k]);
  }

  /** In a sequence without repetitions, a value occurs at most once. */
  lemma {:induction false} DistinctCount(s: seq<int>, m: int)
    requires forall j, k :: 0 <= j < k < |s| ==> s[j] != s[k]
    ensures multiset(s)[m] <= 1
  {
    if s != [] {
      var t := s[..|s| - 1];
      assert s == t + [s[|s| - 1]];
      DistinctCount(t, m);
      if s[|s| - 1] == m {
        assert m !in t;
      }
    }
  }

  /** The schedule: at most num_contracts entries; each a candidate month of
      today's year or the three after it, never one already past; all
      candidates when fewer than num_contracts exist; and, when the trading
      months are distinct, in strictly increasing time order. */
  lemma ScheduleProperties(today: Date, tradingMonths: seq<int>, numContracts: int)
    requires forall m :: m in tradingMonths ==> 1 <= m <= 12
    ensures |Schedule(today, tradingMonths, numContracts)| <= (if numContracts < 0 then 0 else numContracts)
    ensures forall k :: 0 <= k < |Schedule(today, tradingMonths, numContracts)| ==>
      Candidate(today, tradingMonths, today.year + 3, Schedule(today, tradingMonths, numContracts)[k])
    ensures |Schedule(today, tradingMonths, numContracts)| < numContracts ==>
      forall ym :: Candidate(today, tradingMonths, today.year + 3, ym) ==> ym in Schedule(today, tradingMonths, numContracts)
    ensures (forall j, k :: 0 <= j < k < |tradingMonths| ==> tradingMonths[j] != tradingMonths[k]) ==>
      Increasing(Schedule(today, tradingMonths, numContracts))
  {
    ScheduleMembers(today, tradingMonths, numContracts);
    ScheduleComplete(today, tradingMonths, numContracts);
    if forall j, k :: 0 <= j < k < |tradingMonths| ==> tradingMonths[j] != tradingMonths[k] {
      ScheduleIncreasing(today, tradingMonths, numContracts);
    }
  }

  /** Every scheduled contract is a candidate. */
  lemma ScheduleMembers(today: Date, tradingMonths: seq<int>, numContracts: int)
    ensures forall k :: 0 <= k < |Schedule(today, tradingMonths, numContracts)| ==>
      Candidate(today, tradingMonths, today.year + 3, Schedule(today, tradingMonths, numContracts)[k])
  {
    var months := SortBy(tradingMonths, Id);
    var h := Horizon(today, months, today.year + 4);
    var s := Schedule(today, tradingMonths, numContracts);
    SortedMonths(tradingMonths);
    forall k | 0 <= k < |s| ensures Candidate(today, tradingMonths, today.year + 3, s[k]) {
      assert s[k] == h[k];
      HorizonMembers(today, months, today.year + 4, s[k]);
    }
  }

  /** A schedule shorter than num_contracts holds every candidate. */
  lemma ScheduleComplete(today: Date, tradingMonths: seq<int>, numContracts: int)
    ensures |Schedule(today, tradingMonths, numContracts)| < numContracts ==>
      forall ym :: Candidate(today, tradingMonths, today.year + 3, ym) ==> ym in Schedule(today, tradingMonths, numContracts)
  {
    var months := SortBy(tradingMonths, Id);
    var s := Schedule(today, tradingMonths, numContracts);
    if |s| < numContracts {
      assert s == Horizon(today, months, today.year + 4);
      SortedMonths(tradingMonths);
      forall ym | Candidate(today, tradingMonths, today.year + 3, ym) ensures ym in s {
        HorizonMembers(today, months, today.year + 4, ym);
      }
    }
  }

  /** Distinct trading months give a schedule strictly increasing in time. */
  lemma ScheduleIncreasing(today: Date, tradingMonths: seq<int>, numContracts: int)
    requires forall m :: m in tradingMonths ==> 1 <= m <= 12
    requires forall j, k :: 0 <= j < k < |tradingMonths| ==> tradingMonths[j] != tradingMonths[k]
    ensures Increasing(Schedule(today, tradingMonths, numContracts))
  {
    var h := Horizon(today, SortBy(tradingMonths, Id), today.year + 4);
    SortedDistinct(tradingMonths);
    SortedMonths(tradingMonths);
    HorizonIncreasing(today, SortBy(tradingMonths, Id), today.year + 4);
    var s := Schedule(today, tradingMonths, numContracts);
    forall k, l | 0 <= k < l < |s| ensures MonthIndex(s[k]) < MonthIndex(s[l]) {
      assert s[k] == h[k] && s[l] == h[l];
    }
  }

  /** _build_contract_tickers, with date.today() passed in as `today`. */
  method BuildContractTickers(root: string, exchange: string, tradingMonths: seq<int>, numContracts: int, today: Date)
    returns (contracts: seq<ContractSpec>)
    requires 1000 <= today.year <= 9996 && 1 <= today.month <= 12
    requires forall m :: m in tradingMonths ==> 1 <= m <= 12
    ensures AllValid(Schedule(today, tradingMonths, numContracts))
    ensures contracts == Entries(root, exchange, Schedule(today, tradingMonths, numContracts))
  {
    var months := SortBy(tradingMonths, Id);
    SortedMonths(tradingMonths);
    contracts := ScanYears(root, exchange, months, numContracts, today);
  }

  /** The outer loop of _build_contract_tickers: one pass over the sorted
      trading months per year, from today's year to three years ahead, while
      fewer than num_contracts entries are collected. */
  method ScanYears(root: string, exchange: string, months: seq<int>, numContracts: int, today: Date)
    returns (contracts: seq<ContractSpec>)
    requires 1000 <= today.year <= 9996 && 1 <= today.month <= 12
    requires forall m :: m in months ==> 1 <= m <= 12
    ensures AllValid(Take(Horizon(today, months, today.year + 4), numContracts))
    ensures contracts == Entries(root, exchange, Take(Horizon(today, months, today.year + 4), numContracts))
  {
    contracts := [];
    ghost var picked: seq<YearMonth> := [];
    var year := today.year;
    var maxYear := year + 3;
    while |contracts| < numContracts && year <= maxYear
      invariant today.year <= year <= maxYear + 1
      invariant picked == Take(Horizon(today, months, year), numContracts)
      invariant Describes(contracts, root, exchange, picked)
      decreases maxYear + 1 - year
    {
      TakeAll(Horizon(today, months, year), numContracts);
      contracts, picked := ScanMonths(root, exchange, months, numContracts, today, year, contracts, picked);
      HorizonStep(today, months, year);
      year := year + 1;
    }
    if year <= maxYear {
      HorizonPrefix(today, months, year, maxYear + 1);
      TakeOfExtension(Horizon(today, months, year), Horizon(today, months, maxYear + 1), numContracts);
    }
    DescribesEntries(contracts, root, exchange, picked);
  }

  /** The inner loop of _build_contract_tickers for one year: the sorted
      trading months in order, skipping those of the current year that are
      not after today, and breaking off once num_contracts entries are
      collected. `done` is what the earlier years contributed. */
  method ScanMonths(root: string, exchange: string, months: seq<int>, numContracts: int, today: Date, year: int,
                    contracts0: seq<ContractSpec>, ghost done: seq<YearMonth>)
    returns (contracts: seq<ContractSpec>, ghost picked: seq<YearMonth>)
    requires 1000 <= year <= 9999
    requires forall m :: m in months ==> 1 <= m <= 12
    requires Describes(contracts0, root, exchange, done) && |done| <= numContracts
    ensures Describes(contracts, root, exchange, picked)
    ensures picked == Take(done + MonthsUpTo(year, today, months, |months|), numContracts)
  {
    contracts, picked := contracts0, done;
    for i := 0 to |months|
      invariant picked == done + MonthsUpTo(year, today, months, i)
      invariant |picked| <= numContracts
      invariant Describes(contracts, root, exchange, picked)
    {
      if |contracts| >= numContracts {
        MonthsPrefix(year, today, months, i, |months|);
        TakeOfExtension(picked, done + MonthsUpTo(year, today, months, |months|), numContracts);
        return;
      }
      var month := months[i];
      assert month in months;
      Associative(done, MonthsUpTo(year, today, months, i), Emitted(year, today, month));
      if year == today.year && month <= today.month {
        continue;
      }
      var ym := YearMonth(year, month);
      DescribesAppend(contracts, root, exchange, picked, ym);
      picked := picked + [ym];
      contracts := contracts + [ContractSpec(Ticker(root, exchange, ym), Date(year, month, 1), Label(ym))];
    }
    TakeAll(picked, numContracts);
  }
}
