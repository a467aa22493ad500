/** The HDF5 append path of `write_time_series_cache_to_disk`: the stored
    table is trimmed at its tail by a backward scan and the incoming batch is
    appended; and the column filter of the Arctic write path. */
module CacheWriter {

  import opened Wrappers
  import opened TimeSeries
  import Seqs
  import Text

  /** Where the backward scan over the stored index stops for an incoming
      batch whose last stamp is `last`: the last position from 1 on whose
      stamp is not later than `last`, or 0 when there is none (row 0 is
      never inspected). */
  function ScanStop<V>(rows: seq<Row<V>>, last: int): (i: nat)
    requires |rows| >= 1
    ensures i <= |rows| - 1
    ensures forall k :: i < k < |rows| ==> rows[k].stamp > last
    ensures i > 0 ==> rows[i].stamp <= last
  {
    if |rows| == 1 || rows[|rows| - 1].stamp <= last then |rows| - 1
    else ScanStop(rows[..|rows| - 1], last)
  }

  /** The three facts the scan establishes pin its stopping point down. */
  lemma ScanStopUnique<V>(rows: seq<Row<V>>, last: int, j: nat)
    requires |rows| >= 1 && j <= |rows| - 1
    requires forall k :: j < k < |rows| ==> rows[k].stamp > last
    requires j > 0 ==> rows[j].stamp <= last
    ensures j == ScanStop(rows, last)
  {
  }

  /** The stored table after an append, or the error the append raises:
      the first `ScanStop` rows are kept and the batch follows them. An
      empty batch has no last stamp, so `data_frame.index[-1]` fails. */
  function Appended<V>(rows: seq<Row<V>>, batch: seq<Row<V>>): (r: Result<seq<Row<V>>>)
    requires |rows| >= 1
    ensures r.Failure? <==> batch == []
    ensures r.Failure? ==> r.error == IndexError
    ensures r.Success? ==>
              var i := ScanStop(rows, batch[|batch| - 1].stamp);
              |r.value| == i + |batch| && r.value[..i] == rows[..i] && r.value[i..] == batch
  {
    if batch == [] then Failure(IndexError)
    else
      var i := ScanStop(rows, batch[|batch| - 1].stamp);
      var r := rows[..i] + batch;
      assert r[i..] == batch;
      Success(r)
  }

  /** When no stored row from position 1 on is as early as the batch's
      last stamp, the whole old table is dropped and only the batch
      remains. */
  lemma {:induction false} WholeStoreDropped<V>(rows: seq<Row<V>>, batch: seq<Row<V>>)
    requires |rows| >= 1 && batch != []
    requires forall k :: 1 <= k < |rows| ==> rows[k].stamp > batch[|batch| - 1].stamp
    ensures Appended(rows, batch) == Success(batch)
  {
    assert rows[..0] + batch == batch;
  }

  /** In a sorted table every row that survives the trim is no later than
      the batch's last stamp. */
  lemma KeptRowsNotLater<V>(rows: seq<Row<V>>, batch: seq<Row<V>>)
    requires |rows| >= 1 && batch != [] && Sorted(rows)
    ensures forall k :: 0 <= k < ScanStop(rows, batch[|batch| - 1].stamp) ==>
              rows[k].stamp <= batch[|batch| - 1].stamp
  {
  }

  /** The trim also removes the boundary row it stopped at, even when that
      row is earlier than the whole batch: appending [5] to a table stamped
      1, 2, 3 loses the row stamped 3. */
  lemma BoundaryRowLost()
    ensures Appended([Row(1, 10), Row(2, 20), Row(3, 30)], [Row(5, 50)])
            == Success([Row(1, 10), Row(2, 20), Row(5, 50)])
  {
    var rows := [Row(1, 10), Row(2, 20), Row(3, 30)];
    assert ScanStop(rows, 5) == 2;
    assert rows[..2] + [Row(5, 50)] == [Row(1, 10), Row(2, 20), Row(5, 50)];
  }

  /** Stored rows that overlap the batch before the boundary are kept, so
      stamps can repeat: appending [2, 4] to a table stamped 1, 2, 3 gives
      1, 2, 2, 4. */
  lemma DuplicateStampsRemain()
    ensures Appended([Row(1, 10), Row(2, 20), Row(3, 30)], [Row(2, 21), Row(4, 41)])
            == Success([Row(1, 10), Row(2, 20), Row(2, 21), Row(4, 41)])
    ensures !DistinctStamps([Row(1, 10), Row(2, 20), Row(2, 21), Row(4, 41)])
  {
    var rows := [Row(1, 10), Row(2, 20), Row(3, 30)];
    assert ScanStop(rows, 4) == 2;
    assert rows[..2] + [Row(2, 21), Row(4, 41)] == [Row(1, 10), Row(2, 20), Row(2, 21), Row(4, 41)];
    var r := [Row(1, 10), Row(2, 20), Row(2, 21), Row(4, 41)];
    assert r[1].stamp == r[2].stamp;
  }

  /** The `data` table of an HDF5 store opened for appending. */
  class TableStore<V> {
    var rows: seq<Row<V>>

    constructor (initial: seq<Row<V>>)
      ensures rows == initial
    {
      rows := initial;
    }

    /** `store.remove(key='data', start=start, stop=stop)`: rows
        `start` to `stop - 1` are deleted. */
    method Remove(start: nat, stop: nat)
      requires start <= stop <= |rows|
      modifies this
      ensures rows == old(rows[..start] + rows[stop..])
    {
      rows := rows[..start] + rows[stop..];
    }

    /** `store.put(key='data', value=batch, append=True)`. */
    method Put(batch: seq<Row<V>>)
      modifies this
      ensures rows == old(rows) + batch
    {
      rows := rows + batch;
    }

    /** The append branch: scan back from the last stored row until a row
        no later than the batch's last stamp is found (row 0 is never
        read), delete from that row to the end, then append the batch. */
    method AppendBatch(batch: seq<Row<V>>) returns (err: Option<PyError>)
      requires |rows| >= 1
      modifies this
      ensures batch == [] ==> err == Some(IndexError) && rows == old(rows)
      ensures batch != [] ==> err == None && rows == Appended(old(rows), batch).value
    {
      var nrows := |rows|;
      if batch == [] {
        return Some(IndexError);
      }
      var lastPoint := batch[|batch| - 1].stamp;
      var i := nrows - 1;
      while i > 0
        invariant 0 <= i <= nrows - 1
        invariant forall k :: i < k < nrows ==> rows[k].stamp > lastPoint
        decreases i
      {
        var readIndex := rows[i].stamp;
        if readIndex <= lastPoint {
          break;
        }
        i := i - 1;
      }
      ScanStopUnique(rows, lastPoint, i);
      ghost var before := rows;
      Remove(i, nrows);
      assert rows == before[..i];
      Put(batch);
      err := None;
    }
  }

  /** The test "does not contain `pat`", to select column names with. */
  function Lacks(pat: string): string -> bool
  {
    col => !Text.Contains(col, pat)
  }

  /** The Arctic write path's column filter: without a pattern every
      column is kept; with one, the columns whose name does not contain it,
      in their original order. */
  method FilterOutMatching(cols: seq<string>, pattern: Option<string>) returns (r: seq<string>)
    ensures pattern.None? ==> r == cols
    ensures pattern.Some? ==> r == Seqs.Filter(cols, Lacks(pattern.value))
  {
    if pattern.None? {
      return cols;
    }
    var keep := Lacks(pattern.value);
    r := [];
    for j := 0 to |cols|
      invariant r == Seqs.Filter(cols[..j], keep)
    {
      Seqs.FilterConcat(cols[..j], [cols[j]], keep);
      assert cols[..j + 1] == cols[..j] + [cols[j]];
      if !Text.Contains(cols[j], pattern.value) {
        r := r + [cols[j]];
      }
    }
    assert cols[..|cols|] == cols;
  }

  /** A column survives the filter exactly when its name does not contain
      the pattern. */
  lemma FilterOutMatchingMembers(cols: seq<string>, pat: string)
    ensures forall c :: c in Seqs.Filter(cols, Lacks(pat)) <==> c in cols && !Text.Contains(c, pat)
  {
    Seqs.FilterMembers(cols, Lacks(pat));
  }
}
