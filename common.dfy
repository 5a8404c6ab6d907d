/**
 * Shared vocabulary of the model: optional values (pandas NaN is `None`),
 * calendar dates, numeric columns and the few sequence operations that
 * several analysis and cleaning steps rely on (sums, NaN-skipping
 * aggregates, forward fill, filtering, a stable sort by an integer key).
 */
module Common {

  datatype Option<+T> = None | Some(value: T)

  /** A calendar date as stored in a DatetimeIndex or a 'YYYY-MM-DD' column. */
  datatype Date = Date(year: int, month: int, day: int)

  predicate ValidDate(d: Date) {
    1 <= d.month <= 12 && 1 <= d.day <= 31
  }

  /** The date as the integer YYYYMMDD: for valid dates its order is the
      chronological order and the order of the 'YYYY-MM-DD' strings. */
  function DateKey(d: Date): int {
    d.year * 10000 + d.month * 100 + d.day
  }

  lemma DateKeyOrder(a: Date, b: Date)
    requires ValidDate(a) && ValidDate(b)
    ensures DateKey(a) <= DateKey(b) ==> a.year * 12 + a.month <= b.year * 12 + b.month
    ensures DateKey(a) == DateKey(b) ==> a == b
  {
    var dy, dm, dd := a.year - b.year, a.month - b.month, a.day - b.day;
    assert DateKey(a) - DateKey(b) == dy * 10000 + dm * 100 + dd;
    if dy > 0 {
      assert dy * 10000 >= 10000;
    } else if dy < 0 {
      assert dy * 10000 <= -10000;
      assert a.year * 12 - b.year * 12 == dy * 12 <= -12;
    } else if dm > 0 {
      assert dm * 100 >= 100;
    } else if dm < 0 {
      assert dm * 100 <= -100;
    }
  }

  /** A column of a frame: one optional value per row. */
  type Column = seq<Option<real>>

  predicate AllDefined(s: Column) {
    forall i :: 0 <= i < |s| ==> s[i].Some?
  }

  function Values(s: Column): (r: seq<real>)
    requires AllDefined(s)
    ensures |r| == |s|
    ensures forall i :: 0 <= i < |s| ==> r[i] == s[i].value
  {
    if s == [] then [] else Values(s[..|s| - 1]) + [s[|s| - 1].value]
  }

  function Sum(s: seq<real>): real {
    if s == [] then 0.0 else Sum(s[..|s| - 1]) + s[|s| - 1]
  }

  lemma {:induction false} SumBounds(s: seq<real>, lo: real, hi: real)
    requires forall i :: 0 <= i < |s| ==> lo <= s[i] <= hi
    ensures |s| as real * lo <= Sum(s) <= |s| as real * hi
  {
    if s != [] {
      SumBounds(s[..|s| - 1], lo, hi);
    }
  }

  lemma {:induction false} SumConstant(s: seq<real>, v: real)
    requires forall i :: 0 <= i < |s| ==> s[i] == v
    ensures Sum(s) == |s| as real * v
  {
    if s != [] {
      SumConstant(s[..|s| - 1], v);
    }
  }

  /** The defined values of a column, in order (pandas' skipna). */
  function DefinedValues(s: Column): (r: seq<real>)
    ensures |r| <= |s|
    ensures forall x :: x in r <==> Some(x) in s
  {
    if s == [] then []
    else
      var p := DefinedValues(s[..|s| - 1]);
      assert forall x :: Some(x) in s <==> Some(x) in s[..|s| - 1] || s[|s| - 1] == Some(x);
      match s[|s| - 1]
      case None => p
      case Some(x) => p + [x]
  }

  lemma {:induction false} DefinedValuesOfAllDefined(s: Column)
    requires AllDefined(s)
    ensures DefinedValues(s) == Values(s)
  {
    if s != [] {
      DefinedValuesOfAllDefined(s[..|s| - 1]);
    }
  }

  lemma {:induction false} DefinedValuesEmpty(s: Column)
    ensures DefinedValues(s) == [] <==> forall i :: 0 <= i < |s| ==> s[i].None?
  {
    if s != [] {
      DefinedValuesEmpty(s[..|s| - 1]);
      assert s == s[..|s| - 1] + [s[|s| - 1]];
    }
  }

  /** pandas Series.mean(): NaN entries are skipped; no defined entry gives NaN. */
  function MeanSkipNa(s: Column): (r: Option<real>)
    ensures r.Some? <==> exists i :: 0 <= i < |s| && s[i].Some?
  {
    var v := DefinedValues(s);
    DefinedValuesEmpty(s);
    if v == [] then None else Some(Sum(v) / |v| as real)
  }

  /** Largest element of a non-empty sequence of reals. */
  function MaxOf(s: seq<real>): (m: real)
    requires s != []
    ensures m in s && forall i :: 0 <= i < |s| ==> s[i] <= m
  {
    if |s| == 1 then s[0]
    else
      var p := MaxOf(s[..|s| - 1]);
      if s[|s| - 1] > p then s[|s| - 1] else p
  }

  /** Smallest element of a non-empty sequence of reals. */
  function MinOf(s: seq<real>): (m: real)
    requires s != []
    ensures m in s && forall i :: 0 <= i < |s| ==> m <= s[i]
  {
    if |s| == 1 then s[0]
    else
      var p := MinOf(s[..|s| - 1]);
      if s[|s| - 1] < p then s[|s| - 1] else p
  }

  /** pandas Series.max() with skipna. */
  function MaxSkipNa(s: Column): (r: Option<real>)
    ensures r.Some? <==> exists i :: 0 <= i < |s| && s[i].Some?
    ensures r.Some? ==> Some(r.value) in s
    ensures r.Some? ==> forall i :: 0 <= i < |s| && s[i].Some? ==> s[i].value <= r.value
  {
    var v := DefinedValues(s);
    DefinedValuesEmpty(s);
    if v == [] then None
    else
      var m := MaxOf(v);
      assert forall i :: 0 <= i < |s| && s[i].Some? ==> s[i].value in v;
      Some(m)
  }

  /** pandas Series.min() with skipna. */
  function MinSkipNa(s: Column): (r: Option<real>)
    ensures r.Some? <==> exists i :: 0 <= i < |s| && s[i].Some?
    ensures r.Some? ==> Some(r.value) in s
    ensures r.Some? ==> forall i :: 0 <= i < |s| && s[i].Some? ==> r.value <= s[i].value
  {
    var v := DefinedValues(s);
    DefinedValuesEmpty(s);
    if v == [] then None
    else
      var m := MinOf(v);
      assert forall i :: 0 <= i < |s| && s[i].Some? ==> s[i].value in v;
      Some(m)
  }

  lemma DivideBetween(total: real, n: real, lo: real, hi: real)
    requires n > 0.0 && n * lo <= total <= n * hi
    ensures lo <= total / n <= hi
  {
    assert total / n * n == total;
  }

  /** A mean of values that all lie in [lo, hi] lies in [lo, hi]. */
  lemma MeanWithin(v: seq<real>, lo: real, hi: real)
    requires v != []
    requires forall i :: 0 <= i < |v| ==> lo <= v[i] <= hi
    ensures lo <= Sum(v) / (|v| as real) <= hi
  {
    var n, total := |v| as real, Sum(v);
    assert n * lo <= total <= n * hi by { SumBounds(v, lo, hi); }
    DivideBetween(total, n, lo, hi);
  }

  /** The NaN-skipping mean lies between the NaN-skipping minimum and maximum. */
  lemma MeanBetweenMinAndMax(s: Column)
    ensures MeanSkipNa(s).Some? <==> MinSkipNa(s).Some?
    ensures MeanSkipNa(s).Some? <==> MaxSkipNa(s).Some?
    ensures MeanSkipNa(s).Some? ==>
      MinSkipNa(s).value <= MeanSkipNa(s).value <= MaxSkipNa(s).value
  {
    var v := DefinedValues(s);
    if v != [] {
      assert MinSkipNa(s) == Some(MinOf(v));
      assert MaxSkipNa(s) == Some(MaxOf(v));
      assert MeanSkipNa(s) == Some(Sum(v) / |v| as real);
      MeanWithin(v, MinOf(v), MaxOf(v));
    }
  }

  /** pandas ffill: every missing entry takes the last defined value before it. */
  function Ffill(c: Column): (r: Column)
    ensures |r| == |c|
  {
    if c == [] then []
    else
      var p := Ffill(c[..|c| - 1]);
      p + [if c[|c| - 1].Some? then c[|c| - 1] else if p == [] then None else p[|p| - 1]]
  }

  /** Index of the last defined entry of c[..i+1], if any. */
  function LastDefinedAtOrBefore(c: Column, i: nat): (r: Option<nat>)
    requires i < |c|
    ensures r.Some? ==> r.value <= i && c[r.value].Some?
    ensures r.Some? ==> forall j :: r.value < j <= i ==> c[j].None?
    ensures r.None? ==> forall j :: 0 <= j <= i ==> c[j].None?
  {
    if c[i].Some? then Some(i)
    else if i == 0 then None
    else LastDefinedAtOrBefore(c, i - 1)
  }

  /** Forward fill, element by element: the value at i is the last defined value at or before i. */
  lemma {:induction false} FfillAt(c: Column, i: nat)
    requires i < |c|
    ensures Ffill(c)[i] == match LastDefinedAtOrBefore(c, i) case None => None case Some(j) => c[j]
    decreases |c|
  {
    var p := Ffill(c[..|c| - 1]);
    if i < |c| - 1 {
      FfillAt(c[..|c| - 1], i);
      LastDefinedPrefix(c, |c| - 1, i);
    } else if c[i].None? && i > 0 {
      FfillAt(c[..|c| - 1], i - 1);
      LastDefinedPrefix(c, |c| - 1, i - 1);
    }
  }

  lemma {:induction false} LastDefinedPrefix(c: Column, k: nat, i: nat)
    requires i < k <= |c|
    ensures LastDefinedAtOrBefore(c[..k], i) == LastDefinedAtOrBefore(c, i)
    decreases i
  {
    if c[i].None? && i > 0 {
      LastDefinedPrefix(c, k, i - 1);
    }
  }

  /** Forward fill keeps every defined value, and leaves a value missing exactly
      when nothing is defined at or before it. */
  lemma FfillProperties(c: Column)
    ensures |Ffill(c)| == |c|
    ensures forall i :: 0 <= i < |c| && c[i].Some? ==> Ffill(c)[i] == c[i]
    ensures forall i :: 0 <= i < |c| ==>
      (Ffill(c)[i].None? <==> forall j :: 0 <= j <= i ==> c[j].None?)
  {
    forall i | 0 <= i < |c|
      ensures c[i].Some? ==> Ffill(c)[i] == c[i]
      ensures Ffill(c)[i].None? <==> forall j :: 0 <= j <= i ==> c[j].None?
    {
      FfillAt(c, i);
    }
  }

  /** Keeps the elements whose mask entry is true, in order. */
  function Filter<T>(s: seq<T>, keep: seq<bool>): (r: seq<T>)
    requires |keep| == |s|
    ensures |r| <= |s|
    ensures forall x :: x in r ==> x in s
  {
    if s == [] then []
    else
      var p := Filter(s[..|s| - 1], keep[..|s| - 1]);
      if keep[|s| - 1] then p + [s[|s| - 1]] else p
  }

  /** Positions kept by a mask, ascending. */
  function KeptPositions(keep: seq<bool>): (r: seq<nat>)
    ensures forall k :: 0 <= k < |r| ==> r[k] < |keep| && keep[r[k]]
    ensures forall k, l :: 0 <= k < l < |r| ==> r[k] < r[l]
    ensures forall i :: 0 <= i < |keep| && keep[i] ==> i in r
  {
    if keep == [] then []
    else
      var p := KeptPositions(keep[..|keep| - 1]);
      if keep[|keep| - 1] then p + [|keep| - 1] else p
  }

  /** Filtering picks exactly the kept positions, in their order. */
  lemma {:induction false} FilterAt<T>(s: seq<T>, keep: seq<bool>)
    requires |keep| == |s|
    ensures |Filter(s, keep)| == |KeptPositions(keep)|
    ensures forall k :: 0 <= k < |Filter(s, keep)| ==> Filter(s, keep)[k] == s[KeptPositions(keep)[k]]
  {
    if s != [] {
      FilterAt(s[..|s| - 1], keep[..|s| - 1]);
    }
  }

  lemma {:induction false} FilterAll<T>(s: seq<T>, keep: seq<bool>, P: T -> bool)
    requires |keep| == |s|
    requires forall i :: 0 <= i < |s| && keep[i] ==> P(s[i])
    ensures forall x :: x in Filter(s, keep) ==> P(x)
  {
    if s != [] {
      FilterAll(s[..|s| - 1], keep[..|s| - 1], P);
    }
  }

  /** The mask that keeps the elements satisfying P. */
  function Mask<T>(s: seq<T>, P: T -> bool): (m: seq<bool>)
    ensures |m| == |s| && forall i :: 0 <= i < |s| ==> m[i] == P(s[i])
  {
    seq(|s|, i requires 0 <= i < |s| => P(s[i]))
  }

  lemma {:induction false} FilterMultiset<T>(s: seq<T>, P: T -> bool)
    ensures forall x :: x in multiset(Filter(s, Mask(s, P))) ==> P(x)
    ensures forall x :: P(x) ==> multiset(Filter(s, Mask(s, P)))[x] == multiset(s)[x]
  {
    if s != [] {
      var init := s[..|s| - 1];
      FilterMultiset(init, P);
      assert Mask(s, P)[..|s| - 1] == Mask(init, P);
      assert s == init + [s[|s| - 1]];
    }
  }

  predicate SortedBy<T>(s: seq<T>, key: T -> int) {
    forall i, j :: 0 <= i < j < |s| ==> key(s[i]) <= key(s[j])
  }

  /** Inserts x after every element whose key is at most key(x). */
  function InsertBy<T>(x: T, s: seq<T>, key: T -> int): (r: seq<T>)
    requires SortedBy(s, key)
    ensures |r| == |s| + 1
    ensures SortedBy(r, key)
    ensures multiset(r) == multiset(s) + multiset{x}
  {
    if s == [] then [x]
    else if key(x) < key(s[0]) then [x] + s
    else
      var t := InsertBy(x, s[1..], key);
      InsertByHead(x, s, key, t);
      [s[0]] + t
  }

  lemma InsertByHead<T>(x: T, s: seq<T>, key: T -> int, t: seq<T>)
    requires s != [] && SortedBy(s, key) && key(s[0]) <= key(x)
    requires SortedBy(t, key) && multiset(t) == multiset(s[1..]) + multiset{x}
    ensures SortedBy([s[0]] + t, key)
    ensures multiset([s[0]] + t) == multiset(s) + multiset{x}
  {
    assert s == [s[0]] + s[1..];
    forall k | 0 <= k < |t| ensures key(s[0]) <= key(t[k]) {
      assert t[k] in multiset(t);
      if t[k] != x {
        assert t[k] in multiset(s[1..]);
        assert t[k] in s[1..];
      }
    }
  }

  /** A stable insertion sort by an integer key. */
  function SortBy<T>(s: seq<T>, key: T -> int): (r: seq<T>)
    ensures SortedBy(r, key)
    ensures multiset(r) == multiset(s)
    ensures |r| == |s|
  {
    if s == [] then []
    else
      assert s == s[..|s| - 1] + [s[|s| - 1]];
      InsertBy(s[|s| - 1], SortBy(s[..|s| - 1], key), key)
  }

  lemma {:induction false} FilterSorted<T>(s: seq<T>, keep: seq<bool>, key: T -> int)
    requires |keep| == |s| && SortedBy(s, key)
    ensures SortedBy(Filter(s, keep), key)
  {
    if s != [] {
      var init := s[..|s| - 1];
      FilterSorted(init, keep[..|s| - 1], key);
      var p := Filter(init, keep[..|s| - 1]);
      forall k | 0 <= k < |p| ensures key(p[k]) <= key(s[|s| - 1]) {
        assert p[k] in init;
      }
    }
  }
}
