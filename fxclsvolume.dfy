/** `FXCLSVolume.get_fx_volume`: a wide daily table with one column per
    currency pair and hour of day is reshaped into one hourly series per
    pair. Timestamps count hours; a day `d` starts at hour `d * 24`. */
module FxClsVolume {

  import opened Wrappers
  import opened TimeSeries
  import opened Text

  /** The `currency_pairs` argument: a single pair or a list of pairs. */
  datatype TickerArg = OnePair(pair: string) | PairList(pairs: seq<string>)

  /** The pairs iterated over: a single pair is treated as a list holding
      just that pair, a list as it is. */
  function Pairs(arg: TickerArg): (r: seq<string>)
    ensures arg.OnePair? ==> |r| == 1 && r[0] == arg.pair
    ensures arg.PairList? ==> r == arg.pairs
  {
    match arg
    case OnePair(p) => [p]
    case PairList(ps) => ps
  }

  /** The fields requested from the market data source, one per hour of the day. */
  const HourFields: seq<string> :=
    ["0h", "1h", "2h", "3h", "4h", "5h", "6h", "7h", "8h", "9h", "10h", "11h", "12h",
     "13h", "14h", "15h", "16h", "17h", "18h", "19h", "20h", "21h", "22h", "23h"]

  /** The requested field for hour `i` is the hour written in decimal, then 'h'. */
  lemma HourFieldsAreDecimal(i: nat)
    requires i < 24
    ensures |HourFields| == 24
    ensures HourFields[i] == DecimalString(i) + "h"
  {
    if i < 10 {
      SingleDigitHours(i);
    } else if i < 20 {
      TeenHours(i);
    } else {
      TwentiesHours(i);
    }
  }

  lemma SingleDigitHours(i: nat)
    requires i < 10
    ensures HourFields[i] == DecimalString(i) + "h"
  {
    assert DecimalString(i) == [DigitChar(i)];
    assert i == 0 || i == 1 || i == 2 || i == 3 || i == 4 || i == 5 || i == 6 || i == 7 || i == 8 || i == 9;
  }

  lemma TeenHours(i: nat)
    requires 10 <= i < 20
    ensures HourFields[i] == DecimalString(i) + "h"
  {
    assert DecimalString(i) == "1" + [DigitChar(i - 10)];
    assert i == 10 || i == 11 || i == 12 || i == 13 || i == 14 || i == 15 || i == 16 || i == 17 || i == 18 || i == 19;
  }

  lemma TwentiesHours(i: nat)
    requires 20 <= i < 24
    ensures HourFields[i] == DecimalString(i) + "h"
  {
    assert DecimalString(i) == "2" + [DigitChar(i - 20)];
    assert i == 20 || i == 21 || i == 22 || i == 23;
  }

  /** The name of the wide column read for pair `t` and hour `i`: the pair,
      a dot, at least one digit, and a final 'h'. */
  function ColumnName(t: string, i: nat): (r: string)
    ensures |r| >= |t| + 3 && r[..|t| + 1] == t + "." && r[|r| - 1] == 'h'
  {
    t + "." + DecimalString(i) + "h"
  }

  /** The column read for pair `t` and hour `i` is the field requested for
      that hour, qualified by the pair. */
  lemma ColumnNameIsField(t: string, i: nat)
    requires i < 24
    ensures |HourFields| == 24 && ColumnName(t, i) == t + "." + HourFields[i]
  {
    HourFieldsAreDecimal(i);
  }

  /** The daily table fetched from the market data source: its index of
      days and its columns by name. */
  datatype WideTable<V> = WideTable(days: seq<int>, columns: map<string, seq<V>>)

  /** Every column has one value per day. */
  predicate WellFormed<V>(w: WideTable<V>)
  {
    forall c :: c in w.columns ==> |w.columns[c]| == |w.days|
  }

  /** The table has the hourly columns of pair `t` for the hours below `n`. */
  predicate HasColumnsBelow<V>(w: WideTable<V>, t: string, n: nat)
  {
    forall i :: 0 <= i < n ==> ColumnName(t, i) in w.columns
  }

  /** The table has all 24 hourly columns of pair `t`. */
  predicate HasPairColumns<V>(w: WideTable<V>, t: string)
  {
    HasColumnsBelow(w, t, 24)
  }

  /** The column for pair `t` and hour `i` as a series of its own, its
      index moved on by `i` hours. */
  function HourSlice<V>(w: WideTable<V>, t: string, i: nat): (r: seq<Row<V>>)
    requires WellFormed(w) && i < 24 && ColumnName(t, i) in w.columns
    ensures |r| == |w.days|
  {
    seq(|w.days|, k requires 0 <= k < |w.days| => Row(w.days[k] * 24 + i, w.columns[ColumnName(t, i)][k]))
  }

  /** The hourly slices of pair `t` for the hours below `n`, appended one
      after another. */
  function Stacked<V>(w: WideTable<V>, t: string, n: nat): (r: seq<Row<V>>)
    requires WellFormed(w) && n <= 24 && HasColumnsBelow(w, t, n)
    ensures |r| == n * |w.days|
  {
    if n == 0 then []
    else
      MulSucc(n - 1, |w.days|);
      Stacked(w, t, n - 1) + HourSlice(w, t, n - 1)
  }

  /** The hourly series of pair `t`: the 24 slices appended and sorted by timestamp. */
  function PairSeries<V>(w: WideTable<V>, t: string): (r: seq<Row<V>>)
    requires WellFormed(w) && HasPairColumns(w, t)
    ensures Sorted(r)
    ensures |r| == 24 * |w.days|
  {
    SortByStamp(Stacked(w, t, 24))
  }

  /** `get_fx_volume` on `currency_pairs`, a single pair or a list of them:
      the reshaping loop run over the pairs as a list. */
  method GetFxVolume<V>(currencyPairs: TickerArg, w: WideTable<V>) returns (r: Result<seq<Series<V>>>)
    requires WellFormed(w)
    ensures r.Failure? <==> exists t :: t in Pairs(currencyPairs) && !HasPairColumns(w, t)
    ensures r.Failure? ==> r.error.KeyError? && r.error.key !in w.columns
    ensures r.Success? ==>
              |r.value| == |Pairs(currencyPairs)| &&
              forall k :: 0 <= k < |r.value| ==>
                HasPairColumns(w, Pairs(currencyPairs)[k]) &&
                r.value[k] == Series(Pairs(currencyPairs)[k] + ".volume",
                                     PairSeries(w, Pairs(currencyPairs)[k]))
  {
    r := ReshapePairs(Pairs(currencyPairs), w);
  }

  /** The reshaping loop: for each pair in order, the 24 hourly columns are
      read, renamed `t.volume`, shifted by their hour, appended and sorted.
      A missing column raises `KeyError`. */
  method ReshapePairs<V>(pairs: seq<string>, w: WideTable<V>) returns (r: Result<seq<Series<V>>>)
    requires WellFormed(w)
    ensures r.Failure? <==> exists t :: t in pairs && !HasPairColumns(w, t)
    ensures r.Failure? ==> r.error.KeyError? && r.error.key !in w.columns
    ensures r.Success? ==>
              |r.value| == |pairs| &&
              forall k :: 0 <= k < |r.value| ==>
                HasPairColumns(w, pairs[k]) &&
                r.value[k] == Series(pairs[k] + ".volume", PairSeries(w, pairs[k]))
  {
    var dfList: seq<Series<V>> := [];
    for n := 0 to |pairs|
      invariant |dfList| == n
      invariant forall k :: 0 <= k < n ==>
                  HasPairColumns(w, pairs[k]) &&
                  dfList[k] == Series(pairs[k] + ".volume", PairSeries(w, pairs[k]))
    {
      var t := pairs[n];
      var df: Option<seq<Row<V>>> := None;
      for i := 0 to 24
        invariant df.None? <==> i == 0
        invariant HasColumnsBelow(w, t, i)
        invariant i > 0 ==> df.value == Stacked(w, t, i)
      {
        var txt := DecimalString(i);
        var col := t + "." + txt + "h";
        if col !in w.columns {
          assert col == ColumnName(t, i);
          assert t in pairs && !HasPairColumns(w, t);
          return Failure(KeyError(col));
        }
        var df1 := HourSlice(w, t, i);
        if df.None? {
          df := Some(df1);
        } else {
          df := Some(df.value + df1);
        }
      }
      var sorted := SortByStamp(df.value);
      dfList := dfList + [Series(t + ".volume", sorted)];
    }
    forall t | t in pairs ensures HasPairColumns(w, t) {
      var k :| 0 <= k < |pairs| && pairs[k] == t;
    }
    return Success(dfList);
  }

  lemma MulMonotone(a: nat, b: nat, d: nat)
    requires a <= b
    ensures a * d <= b * d
  {
  }

  lemma MulSucc(a: nat, d: nat)
    ensures (a + 1) * d == a * d + d
  {
  }

  /** Position `j` of the stacked slices holds day `k` of hour `i`, where
      `j == i * D + k`. */
  lemma {:induction false} StackedAt<V>(w: WideTable<V>, t: string, n: nat, j: nat)
      returns (i: nat, k: nat)
    requires WellFormed(w) && n <= 24 && HasColumnsBelow(w, t, n) && j < n * |w.days|
    ensures i < n && k < |w.days| && j == i * |w.days| + k
    ensures Stacked(w, t, n)[j] == Row(w.days[k] * 24 + i, w.columns[ColumnName(t, i)][k])
  {
    var d := |w.days|;
    MulSucc(n - 1, d);
    if j < (n - 1) * d {
      i, k := StackedAt(w, t, n - 1, j);
    } else {
      i, k := n - 1, j - (n - 1) * d;
    }
  }

  /** Hour `i` of day `k` sits at position `i * D + k` of the stacked slices. */
  lemma {:induction false} StackedHas<V>(w: WideTable<V>, t: string, n: nat, k: nat, i: nat)
    requires WellFormed(w) && n <= 24 && HasColumnsBelow(w, t, n) && k < |w.days| && i < n
    ensures i * |w.days| + k < |Stacked(w, t, n)|
    ensures Stacked(w, t, n)[i * |w.days| + k]
            == Row(w.days[k] * 24 + i, w.columns[ColumnName(t, i)][k])
  {
    var d := |w.days|;
    MulSucc(n - 1, d);
    var prev := Stacked(w, t, n - 1);
    assert Stacked(w, t, n) == prev + HourSlice(w, t, n - 1);
    if i < n - 1 {
      StackedHas(w, t, n - 1, k, i);
      MulSucc(i, d);
      MulMonotone(i + 1, n - 1, d);
      assert i * d + k < |prev|;
    } else {
      assert i * d + k == |prev| + k;
    }
  }

  /** Every value of the wide table appears in the pair's series at its
      day plus its hour, and nothing else does. */
  lemma PairSeriesMembers<V>(w: WideTable<V>, t: string)
    requires WellFormed(w) && HasPairColumns(w, t)
    ensures forall k, i :: 0 <= k < |w.days| && 0 <= i < 24 ==>
              Row(w.days[k] * 24 + i, w.columns[ColumnName(t, i)][k]) in PairSeries(w, t)
    ensures forall row :: row in PairSeries(w, t) ==>
              exists k, i :: 0 <= k < |w.days| && 0 <= i < 24 &&
                row == Row(w.days[k] * 24 + i, w.columns[ColumnName(t, i)][k])
  {
    forall k, i | 0 <= k < |w.days| && 0 <= i < 24
      ensures Row(w.days[k] * 24 + i, w.columns[ColumnName(t, i)][k]) in PairSeries(w, t)
    {
      PairSeriesHasCell(w, t, k, i);
    }
    forall row | row in PairSeries(w, t)
      ensures exists k, i :: 0 <= k < |w.days| && 0 <= i < 24 &&
                row == Row(w.days[k] * 24 + i, w.columns[ColumnName(t, i)][k])
    {
      var k, i := PairSeriesRowOrigin(w, t, row);
    }
  }

  /** The value for day `k` and hour `i` is in the pair's series. */
  lemma PairSeriesHasCell<V>(w: WideTable<V>, t: string, k: nat, i: nat)
    requires WellFormed(w) && HasPairColumns(w, t) && k < |w.days| && i < 24
    ensures Row(w.days[k] * 24 + i, w.columns[ColumnName(t, i)][k]) in PairSeries(w, t)
  {
    var s := Stacked(w, t, 24);
    assert multiset(PairSeries(w, t)) == multiset(s);
    StackedHas(w, t, 24, k, i);
    assert s[i * |w.days| + k] in multiset(s);
  }

  /** Each row of the pair's series comes from one day and hour of the wide table. */
  lemma PairSeriesRowOrigin<V>(w: WideTable<V>, t: string, row: Row<V>) returns (k: nat, i: nat)
    requires WellFormed(w) && HasPairColumns(w, t) && row in PairSeries(w, t)
    ensures k < |w.days| && i < 24
    ensures row == Row(w.days[k] * 24 + i, w.columns[ColumnName(t, i)][k])
  {
    var s := Stacked(w, t, 24);
    assert multiset(PairSeries(w, t)) == multiset(s);
    assert row in multiset(s);
    var j :| 0 <= j < |s| && s[j] == row;
    i, k := StackedAt(w, t, 24, j);
  }

  /** No day occurs twice in the index. */
  predicate DistinctDays(days: seq<int>)
  {
    forall p, q :: 0 <= p < q < |days| ==> days[p] != days[q]
  }

  /** With distinct days, every timestamp of the stacked slices is distinct. */
  lemma StackedDistinct<V>(w: WideTable<V>, t: string)
    requires WellFormed(w) && HasPairColumns(w, t) && DistinctDays(w.days)
    ensures DistinctStamps(Stacked(w, t, 24))
  {
    var s := Stacked(w, t, 24);
    forall p, q | 0 <= p < q < |s| ensures s[p].stamp != s[q].stamp {
      var i1, k1 := StackedAt(w, t, 24, p);
      var i2, k2 := StackedAt(w, t, 24, q);
      assert i1 == i2 && k1 == k2 ==> p == q;
    }
  }

  /** With distinct days, looking up day `k` plus hour `i` in the pair's
      series gives back the wide table's value for that day and hour: the
      reshaping loses and mixes up nothing. */
  lemma PairSeriesLookup<V>(w: WideTable<V>, t: string, k: nat, i: nat)
    requires WellFormed(w) && HasPairColumns(w, t) && DistinctDays(w.days)
    requires k < |w.days| && i < 24
    ensures Lookup(PairSeries(w, t), w.days[k] * 24 + i) == Some(w.columns[ColumnName(t, i)][k])
  {
    PairSeriesHasCell(w, t, k, i);
    OnlyCellWithStamp(w, t, k, i);
    LookupUnique(PairSeries(w, t), w.days[k] * 24 + i, w.columns[ColumnName(t, i)][k]);
  }

  lemma OnlyCellWithStamp<V>(w: WideTable<V>, t: string, k: nat, i: nat)
    requires WellFormed(w) && HasPairColumns(w, t) && DistinctDays(w.days)
    requires k < |w.days| && i < 24
    ensures forall m :: 0 <= m < |PairSeries(w, t)| && PairSeries(w, t)[m].stamp == w.days[k] * 24 + i ==>
              PairSeries(w, t)[m].value == w.columns[ColumnName(t, i)][k]
  {
    var s := PairSeries(w, t);
    forall m | 0 <= m < |s| && s[m].stamp == w.days[k] * 24 + i
      ensures s[m].value == w.columns[ColumnName(t, i)][k]
    {
      StampNamesCell(w, t, s[m], k, i);
    }
  }

  /** With distinct days, a row of the pair's series stamped with day `k`
      plus hour `i` is that day's value for that hour. */
  lemma StampNamesCell<V>(w: WideTable<V>, t: string, row: Row<V>, k: nat, i: nat)
    requires WellFormed(w) && HasPairColumns(w, t) && DistinctDays(w.days)
    requires k < |w.days| && i < 24
    requires row in PairSeries(w, t) && row.stamp == w.days[k] * 24 + i
    ensures row == Row(w.days[k] * 24 + i, w.columns[ColumnName(t, i)][k])
  {
    var k', i' := PairSeriesRowOrigin(w, t, row);
    HourStampsDiffer(w.days[k'], i', w.days[k], i);
    assert k' == k;
  }

  /** A day and an hour below 24 are recovered from `day * 24 + hour`. */
  lemma HourStampsDiffer(d1: int, h1: nat, d2: int, h2: nat)
    requires h1 < 24 && h2 < 24 && d1 * 24 + h1 == d2 * 24 + h2
    ensures d1 == d2 && h1 == h2
  {
  }

  /** The days are listed in ascending order without repeats. */
  predicate IncreasingDays(days: seq<int>)
  {
    forall p, q :: 0 <= p < q < |days| ==> days[p] < days[q]
  }

  /** The pair's series in day-then-hour order. */
  function DayMajor<V>(w: WideTable<V>, t: string): (r: seq<Row<V>>)
    requires WellFormed(w) && HasPairColumns(w, t)
    ensures |r| == 24 * |w.days|
  {
    seq(24 * |w.days|, m requires 0 <= m < 24 * |w.days| =>
      Row(w.days[m / 24] * 24 + m % 24, w.columns[ColumnName(t, m % 24)][m / 24]))
  }

  lemma DayMajorStrict<V>(w: WideTable<V>, t: string)
    requires WellFormed(w) && HasPairColumns(w, t) && IncreasingDays(w.days)
    ensures StrictlySorted(DayMajor(w, t))
  {
    var e := DayMajor(w, t);
    forall p, q | 0 <= p < q < |e| ensures e[p].stamp < e[q].stamp {
      if p / 24 < q / 24 {
        assert w.days[p / 24] < w.days[q / 24];
      }
    }
  }

  /** With days in ascending order, position `m` of the pair's series holds
      hour `m mod 24` of day `m div 24`: the values come out day by day,
      each day's hours in order. */
  lemma PairSeriesInDayOrder<V>(w: WideTable<V>, t: string)
    requires WellFormed(w) && HasPairColumns(w, t) && IncreasingDays(w.days)
    ensures forall m :: 0 <= m < |PairSeries(w, t)| ==>
              PairSeries(w, t)[m]
              == Row(w.days[m / 24] * 24 + m % 24, w.columns[ColumnName(t, m % 24)][m / 24])
  {
    var s := PairSeries(w, t);
    var e := DayMajor(w, t);
    StackedDistinct(w, t);
    SortStrict(Stacked(w, t, 24));
    DayMajorStrict(w, t);
    SameRowsAsDayMajor(w, t);
    StrictlySortedUnique(s, e);
  }

  lemma SameRowsAsDayMajor<V>(w: WideTable<V>, t: string)
    requires WellFormed(w) && HasPairColumns(w, t)
    ensures forall row :: row in PairSeries(w, t) <==> row in DayMajor(w, t)
  {
    forall row ensures row in PairSeries(w, t) ==> row in DayMajor(w, t) {
      if row in PairSeries(w, t) {
        SeriesRowInDayMajor(w, t, row);
      }
    }
    forall row ensures row in DayMajor(w, t) ==> row in PairSeries(w, t) {
      if row in DayMajor(w, t) {
        DayMajorRowInSeries(w, t, row);
      }
    }
  }

  lemma SeriesRowInDayMajor<V>(w: WideTable<V>, t: string, row: Row<V>)
    requires WellFormed(w) && HasPairColumns(w, t) && row in PairSeries(w, t)
    ensures row in DayMajor(w, t)
  {
    var k, i := PairSeriesRowOrigin(w, t, row);
    DayMajorHas(w, t, k, i);
  }

  lemma DayMajorRowInSeries<V>(w: WideTable<V>, t: string, row: Row<V>)
    requires WellFormed(w) && HasPairColumns(w, t) && row in DayMajor(w, t)
    ensures row in PairSeries(w, t)
  {
    var e := DayMajor(w, t);
    var m :| 0 <= m < |e| && e[m] == row;
    PairSeriesHasCell(w, t, m / 24, m % 24);
  }

  /** Hour `i` of day `k` sits at position `k * 24 + i` in day-then-hour order. */
  lemma DayMajorHas<V>(w: WideTable<V>, t: string, k: nat, i: nat)
    requires WellFormed(w) && HasPairColumns(w, t) && k < |w.days| && i < 24
    ensures k * 24 + i < |DayMajor(w, t)|
    ensures DayMajor(w, t)[k * 24 + i] == Row(w.days[k] * 24 + i, w.columns[ColumnName(t, i)][k])
  {
    var m := k * 24 + i;
    assert m / 24 == k && m % 24 == i;
  }

  /** One day whose hourly values are 0 to 23 comes out as 0 to 23, in order. */
  lemma SingleDayInOrder(w: WideTable<int>, t: string)
    requires WellFormed(w) && HasPairColumns(w, t) && |w.days| == 1
    requires forall i :: 0 <= i < 24 ==> w.columns[ColumnName(t, i)] == [i]
    ensures |PairSeries(w, t)| == 24
    ensures forall m :: 0 <= m < 24 ==> PairSeries(w, t)[m] == Row(w.days[0] * 24 + m, m)
  {
    PairSeriesInDayOrder(w, t);
  }
}
