/** The tabular time series that every component reads and writes: rows
    keyed by an integer timestamp, and the index sort pandas applies with
    `sort_index`. */
module TimeSeries {

  import opened Wrappers

  /** One row of a table: its index timestamp and its payload. */
  datatype Row<V> = Row(stamp: int, value: V)

  /** A one-column table: the column name and its rows. */
  datatype Series<V> = Series(name: string, rows: seq<Row<V>>)

  predicate Sorted<V>(s: seq<Row<V>>)
  {
    forall p, q :: 0 <= p < q < |s| ==> s[p].stamp <= s[q].stamp
  }

  predicate StrictlySorted<V>(s: seq<Row<V>>)
  {
    forall p, q :: 0 <= p < q < |s| ==> s[p].stamp < s[q].stamp
  }

  /** No two rows share a timestamp. */
  predicate DistinctStamps<V>(s: seq<Row<V>>)
  {
    forall p, q :: 0 <= p < q < |s| ==> s[p].stamp != s[q].stamp
  }

  /** Puts `x` before the first row whose stamp is not earlier than its own. */
  function Insert<V>(x: Row<V>, s: seq<Row<V>>): (r: seq<Row<V>>)
    ensures multiset(r) == multiset(s) + multiset{x}
  {
    if s == [] || x.stamp <= s[0].stamp then
      [x] + s
    else
      assert s == [s[0]] + s[1..];
      [s[0]] + Insert(x, s[1..])
  }

  /** Inserting into a sorted sequence keeps it sorted. */
  lemma {:induction false} InsertSorted<V>(x: Row<V>, s: seq<Row<V>>)
    requires Sorted(s)
    ensures Sorted(Insert(x, s))
  {
    if s != [] && x.stamp > s[0].stamp {
      InsertSorted(x, s[1..]);
      var t := Insert(x, s[1..]);
      forall k | 0 <= k < |t| ensures s[0].stamp <= t[k].stamp {
        assert t[k] in multiset(t);
        if t[k] != x {
          assert t[k] in s[1..];
        }
      }
      assert Insert(x, s) == [s[0]] + t;
    }
  }

  /** `DataFrame.sort_index()`: the rows in ascending timestamp order. */
  function SortByStamp<V>(s: seq<Row<V>>): (r: seq<Row<V>>)
    ensures Sorted(r)
    ensures multiset(r) == multiset(s)
    ensures |r| == |s|
  {
    if s == [] then []
    else
      assert s == [s[0]] + s[1..];
      var t := SortByStamp(s[1..]);
      InsertSorted(s[0], t);
      Insert(s[0], t)
  }

  /** Inserting a row whose stamp is new into a strictly sorted sequence
      keeps it strictly sorted. */
  lemma {:induction false} InsertStrict<V>(x: Row<V>, s: seq<Row<V>>)
    requires StrictlySorted(s)
    requires forall k :: 0 <= k < |s| ==> s[k].stamp != x.stamp
    ensures StrictlySorted(Insert(x, s))
  {
    if s != [] && x.stamp > s[0].stamp {
      InsertStrict(x, s[1..]);
      var t := Insert(x, s[1..]);
      forall k | 0 <= k < |t| ensures t[k].stamp > s[0].stamp {
        assert t[k] in multiset(t);
        if t[k] != x {
          assert t[k] in s[1..];
        }
      }
      assert Insert(x, s) == [s[0]] + t;
    }
  }

  /** Sorting rows with pairwise distinct stamps orders them strictly. */
  lemma {:induction false} SortStrict<V>(s: seq<Row<V>>)
    requires DistinctStamps(s)
    ensures StrictlySorted(SortByStamp(s))
  {
    if s != [] {
      assert DistinctStamps(s[1..]);
      SortStrict(s[1..]);
      var t := SortByStamp(s[1..]);
      forall k | 0 <= k < |t| ensures t[k].stamp != s[0].stamp {
        assert t[k] in multiset(s[1..]);
      }
      InsertStrict(s[0], t);
    }
  }

  /** Two strictly sorted sequences with the same rows are equal: a strictly
      sorted order is determined by its elements. */
  lemma {:induction false} StrictlySortedUnique<V>(x: seq<Row<V>>, y: seq<Row<V>>)
    requires StrictlySorted(x) && StrictlySorted(y)
    requires forall e :: e in x <==> e in y
    ensures x == y
    decreases |x|
  {
    if x != [] {
      assert x[0] in y;
    }
    if y != [] {
      assert y[0] in x;
    }
    if x != [] && y != [] {
      assert x[0] == y[0];
      forall e ensures e in x[1..] <==> e in y[1..] {
        if e in x[1..] {
          assert e in y && e.stamp > x[0].stamp;
        }
        if e in y[1..] {
          assert e in x && e.stamp > y[0].stamp;
        }
      }
      StrictlySortedUnique(x[1..], y[1..]);
      assert x == [x[0]] + x[1..] && y == [y[0]] + y[1..];
    }
  }

  /** The value stored at the first row with timestamp `stamp`, if any. */
  function Lookup<V>(s: seq<Row<V>>, stamp: int): (r: Option<V>)
    ensures r.None? <==> forall k :: 0 <= k < |s| ==> s[k].stamp != stamp
  {
    if s == [] then None
    else if s[0].stamp == stamp then Some(s[0].value)
    else Lookup(s[1..], stamp)
  }

  /** When `e` is the only row stamped `e.stamp`, looking up that stamp finds its value. */
  lemma {:induction false} LookupUnique<V>(s: seq<Row<V>>, stamp: int, v: V)
    requires Row(stamp, v) in s
    requires forall k :: 0 <= k < |s| && s[k].stamp == stamp ==> s[k].value == v
    ensures Lookup(s, stamp) == Some(v)
  {
    if s[0].stamp != stamp {
      assert Row(stamp, v) in s[1..];
      LookupUnique(s[1..], stamp, v);
    }
  }
}
