/** Offset ranges from Iceberg rows (replay/src/replay/iceberg_reader.py). */
module Iceberg {
  import opened Wrappers

  /** The offsets of one Kafka partition from startOffset up to, but not including, endOffset. */
  datatype OffsetRange = OffsetRange(partition: int, startOffset: int, endOffset: int)

  /** The two columns of one row of the scan. */
  datatype OffsetRow = OffsetRow(partition: int, offset: int)

  /** Rows written without Kafka metadata carry -1. */
  predicate IsValidRow(row: OffsetRow) {
    row.partition != -1 && row.offset != -1
  }

  ghost predicate HasOffset(rows: seq<OffsetRow>, partition: int, offset: int) {
    exists i :: 0 <= i < |rows| && IsValidRow(rows[i]) && rows[i] == OffsetRow(partition, offset)
  }

  /** The range contains every valid offset of its partition, and both of its ends are attained. */
  ghost predicate IsHullOf(rows: seq<OffsetRow>, r: OffsetRange) {
    && HasOffset(rows, r.partition, r.startOffset)
    && HasOffset(rows, r.partition, r.endOffset - 1)
    && forall i :: 0 <= i < |rows| && IsValidRow(rows[i]) && rows[i].partition == r.partition ==>
         r.startOffset <= rows[i].offset < r.endOffset
  }

  ghost predicate SortedByPartition(ranges: seq<OffsetRange>) {
    forall i, j :: 0 <= i < j < |ranges| ==> ranges[i].partition < ranges[j].partition
  }

  ghost predicate Mentions(ranges: seq<OffsetRange>, partition: int) {
    exists k :: 0 <= k < |ranges| && ranges[k].partition == partition
  }

  /** One tight range for each partition that has a valid row, in partition order. */
  ghost predicate TightHull(rows: seq<OffsetRow>, ranges: seq<OffsetRange>) {
    && SortedByPartition(ranges)
    && (forall k :: 0 <= k < |ranges| ==> IsHullOf(rows, ranges[k]))
    && (forall i :: 0 <= i < |rows| && IsValidRow(rows[i]) ==> Mentions(ranges, rows[i].partition))
  }

  function MinOf(s: seq<int>): (m: int)
    requires s != []
    ensures m in s && forall i :: 0 <= i < |s| ==> m <= s[i]
  {
    if |s| == 1 then s[0]
    else
      var m := MinOf(s[1..]);
      if s[0] <= m then s[0] else m
  }

  function MaxOf(s: seq<int>): (m: int)
    requires s != []
    ensures m in s && forall i :: 0 <= i < |s| ==> s[i] <= m
  {
    if |s| == 1 then s[0]
    else
      var m := MaxOf(s[1..]);
      if s[0] >= m then s[0] else m
  }

  predicate IsLeast(k: int, s: set<int>) {
    k in s && forall j :: j in s ==> k <= j
  }

  lemma {:induction false} PickOne<T>(s: set<T>) returns (x: T)
    requires s != {}
    ensures x in s
  {
    x :| x in s;
  }

  lemma {:induction false} LeastExists(s: set<int>)
    requires s != {}
    ensures exists k :: IsLeast(k, s)
  {
    var x := PickOne(s);
    var t := s - {x};
    if t == {} {
      assert forall j :: j in s ==> j == x || j in t;
      assert IsLeast(x, s);
    } else {
      LeastExists(t);
      var k :| IsLeast(k, t);
      var least := if x <= k then x else k;
      assert forall j :: j in s ==> j == x || j in t;
      assert IsLeast(least, s);
    }
  }

  /** The offsets collected per partition from the rows seen so far. */
  ghost predicate Grouped(rows: seq<OffsetRow>, byPartition: map<int, seq<int>>) {
    && (forall p :: p in byPartition ==> byPartition[p] != [])
    && (forall p, x :: p in byPartition && x in byPartition[p] ==> HasOffset(rows, p, x))
    && (forall i :: 0 <= i < |rows| && IsValidRow(rows[i]) ==>
          rows[i].partition in byPartition && rows[i].offset in byPartition[rows[i].partition])
  }

  lemma {:induction false} HasOffsetAppend(rows: seq<OffsetRow>, row: OffsetRow)
    ensures forall p, x :: HasOffset(rows, p, x) ==> HasOffset(rows + [row], p, x)
    ensures IsValidRow(row) ==> HasOffset(rows + [row], row.partition, row.offset)
  {
    var all := rows + [row];
    forall p, x | HasOffset(rows, p, x) ensures HasOffset(all, p, x) {
      var i :| 0 <= i < |rows| && IsValidRow(rows[i]) && rows[i] == OffsetRow(p, x);
      assert all[i] == rows[i];
    }
    if IsValidRow(row) {
      assert all[|rows|] == row;
    }
  }

  /** by_partition.setdefault(part, []).append(off), skipping rows with a -1. */
  method GroupRows(rows: seq<OffsetRow>) returns (byPartition: map<int, seq<int>>)
    ensures Grouped(rows, byPartition)
  {
    byPartition := map[];
    for i := 0 to |rows|
      invariant Grouped(rows[..i], byPartition)
    {
      var row := rows[i];
      assert rows[..i + 1] == rows[..i] + [row];
      HasOffsetAppend(rows[..i], row);
      if row.partition == -1 || row.offset == -1 {
        continue;
      }
      var offsets := if row.partition in byPartition then byPartition[row.partition] else [];
      byPartition := byPartition[row.partition := offsets + [row.offset]];
    }
    assert rows[..|rows|] == rows;
  }

  lemma {:induction false} GroupHull(rows: seq<OffsetRow>, byPartition: map<int, seq<int>>, p: int)
    requires Grouped(rows, byPartition) && p in byPartition
    ensures IsHullOf(rows, OffsetRange(p, MinOf(byPartition[p]), MaxOf(byPartition[p]) + 1))
  {
  }

  lemma {:induction false} AppendRange(rows: seq<OffsetRow>, ranges: seq<OffsetRange>, r: OffsetRange)
    ensures forall q :: Mentions(ranges, q) || q == r.partition ==> Mentions(ranges + [r], q)
  {
    forall q | Mentions(ranges, q) || q == r.partition ensures Mentions(ranges + [r], q) {
      if Mentions(ranges, q) {
        var k :| 0 <= k < |ranges| && ranges[k].partition == q;
        assert (ranges + [r])[k].partition == q;
      } else {
        assert (ranges + [r])[|ranges|].partition == q;
      }
    }
  }

  /** The rows of the scan, none after a catalog or scan error. */
  function RowsOfScan(scan: Option<seq<OffsetRow>>): seq<OffsetRow> {
    match scan
    case Some(rows) => rows
    case None => []
  }

  /** read_offset_range behind the scan; None stands for a catalog or scan error. */
  method ReadOffsetRange(scan: Option<seq<OffsetRow>>) returns (ranges: seq<OffsetRange>)
    ensures TightHull(RowsOfScan(scan), ranges)
  {
    ranges := [];
    if scan.None? {
      return;
    }
    var rows := scan.value;
    if rows == [] || forall i :: 0 <= i < |rows| ==> rows[i].partition == -1 {
      return;
    }
    var byPartition := GroupRows(rows);
    var rest := byPartition.Keys;
    assert HullSoFar(rows, byPartition, rest, ranges);
    hide HullSoFar, Grouped;
    while rest != {}
      invariant HullSoFar(rows, byPartition, rest, ranges)
      decreases |rest|
    {
      LeastExists(rest);
      var p :| p in rest && IsLeast(p, rest);
      HullStep(rows, byPartition, rest, ranges, p);
      ranges := ranges + [OffsetRange(p, MinOf(byPartition[p]), MaxOf(byPartition[p]) + 1)];
      rest := rest - {p};
    }
    HullComplete(rows, byPartition, ranges);
  }

  /** The partitions not in rest have their ranges, all below those still to come. */
  ghost predicate HullSoFar(rows: seq<OffsetRow>, byPartition: map<int, seq<int>>, rest: set<int>,
                            ranges: seq<OffsetRange>) {
    && rest <= byPartition.Keys
    && SortedByPartition(ranges)
    && (forall k :: 0 <= k < |ranges| ==> IsHullOf(rows, ranges[k]))
    && (forall k, p :: 0 <= k < |ranges| && p in rest ==> ranges[k].partition < p)
    && (forall p :: p in byPartition && p !in rest ==> Mentions(ranges, p))
  }

  lemma {:induction false} HullStep(rows: seq<OffsetRow>, byPartition: map<int, seq<int>>, rest: set<int>,
                                    ranges: seq<OffsetRange>, p: int)
    requires Grouped(rows, byPartition) && HullSoFar(rows, byPartition, rest, ranges)
    requires IsLeast(p, rest)
    ensures p in byPartition && byPartition[p] != []
    ensures HullSoFar(rows, byPartition, rest - {p},
                      ranges + [OffsetRange(p, MinOf(byPartition[p]), MaxOf(byPartition[p]) + 1)])
  {
    GroupHull(rows, byPartition, p);
    hide IsHullOf, Mentions, MinOf, MaxOf;
    AppendRange(rows, ranges, OffsetRange(p, MinOf(byPartition[p]), MaxOf(byPartition[p]) + 1));
  }

  lemma {:induction false} HullComplete(rows: seq<OffsetRow>, byPartition: map<int, seq<int>>, ranges: seq<OffsetRange>)
    requires Grouped(rows, byPartition) && HullSoFar(rows, byPartition, {}, ranges)
    ensures TightHull(rows, ranges)
  {
  }

  /** The result is empty, which is what triggers the fallback, exactly when no row is valid. */
  lemma {:induction false} EmptyIffNoValidRow(rows: seq<OffsetRow>, ranges: seq<OffsetRange>)
    requires TightHull(rows, ranges)
    ensures ranges == [] <==> forall i :: 0 <= i < |rows| ==> !IsValidRow(rows[i])
  {
    if ranges != [] {
      assert IsHullOf(rows, ranges[0]);
    }
  }

  lemma {:induction false} SortedPartitionsUnique(a: seq<OffsetRange>, b: seq<OffsetRange>)
    requires SortedByPartition(a) && SortedByPartition(b)
    requires forall r :: r in a <==> r in b
    ensures a == b
  {
    if a == [] {
      assert forall i :: 0 <= i < |b| ==> b[i] in a;
    } else {
      assert a[0] in b;
      assert b[0] in a;
      assert a[0] == b[0];
      forall r ensures r in a[1..] <==> r in b[1..] {
        TailMembers(a, r);
        TailMembers(b, r);
      }
      SortedPartitionsUnique(a[1..], b[1..]);
    }
  }

  lemma {:induction false} TailMembers(a: seq<OffsetRange>, r: OffsetRange)
    requires SortedByPartition(a) && a != []
    ensures r in a[1..] <==> r in a && r != a[0]
  {
  }

  lemma {:induction false} HullContained(rows: seq<OffsetRow>, a: seq<OffsetRange>, b: seq<OffsetRange>, r: OffsetRange)
    requires TightHull(rows, a) && TightHull(rows, b) && r in a
    ensures r in b
  {
  }

  /** The rows determine the ranges: there is only one tight hull. */
  lemma {:induction false} TightHullUnique(rows: seq<OffsetRow>, a: seq<OffsetRange>, b: seq<OffsetRange>)
    requires TightHull(rows, a) && TightHull(rows, b)
    ensures a == b
  {
    forall r ensures r in a <==> r in b {
      if r in a {
        HullContained(rows, a, b, r);
      }
      if r in b {
        HullContained(rows, b, a, r);
      }
    }
    SortedPartitionsUnique(a, b);
  }

  /** The rows that count, in plain terms: a row with neither field -1, partition 0 and offset 0 included,
      lies in the range of its partition, and both ends of a range are offsets of such rows. */
  lemma {:induction false} RangesHoldRows(rows: seq<OffsetRow>, ranges: seq<OffsetRange>)
    requires TightHull(rows, ranges)
    ensures forall i :: 0 <= i < |rows| && rows[i].partition != -1 && rows[i].offset != -1 ==>
              exists k :: 0 <= k < |ranges| && ranges[k].partition == rows[i].partition
                          && ranges[k].startOffset <= rows[i].offset < ranges[k].endOffset
    ensures forall k :: 0 <= k < |ranges| ==>
              && ranges[k].partition != -1 && ranges[k].startOffset != -1 && ranges[k].endOffset != 0
              && OffsetRow(ranges[k].partition, ranges[k].startOffset) in rows
              && OffsetRow(ranges[k].partition, ranges[k].endOffset - 1) in rows
  {
    hide IsHullOf;
    forall i | 0 <= i < |rows| && rows[i].partition != -1 && rows[i].offset != -1
      ensures exists k :: 0 <= k < |ranges| && ranges[k].partition == rows[i].partition
                          && ranges[k].startOffset <= rows[i].offset < ranges[k].endOffset
    {
      assert Mentions(ranges, rows[i].partition);
      var k :| 0 <= k < |ranges| && ranges[k].partition == rows[i].partition;
      RowLiesInHull(rows, ranges[k], i);
    }
    forall k | 0 <= k < |ranges|
      ensures ranges[k].partition != -1 && ranges[k].startOffset != -1 && ranges[k].endOffset != 0
      ensures OffsetRow(ranges[k].partition, ranges[k].startOffset) in rows
      ensures OffsetRow(ranges[k].partition, ranges[k].endOffset - 1) in rows
    {
      HullEndsAreRows(rows, ranges[k]);
    }
  }

  lemma {:induction false} RowLiesInHull(rows: seq<OffsetRow>, r: OffsetRange, i: nat)
    requires IsHullOf(rows, r) && i < |rows| && rows[i].partition == r.partition
    requires rows[i].partition != -1 && rows[i].offset != -1
    ensures r.startOffset <= rows[i].offset < r.endOffset
  {
  }

  lemma {:induction false} HullEndsAreRows(rows: seq<OffsetRow>, r: OffsetRange)
    requires IsHullOf(rows, r)
    ensures r.partition != -1 && r.startOffset != -1 && r.endOffset != 0
    ensures OffsetRow(r.partition, r.startOffset) in rows && OffsetRow(r.partition, r.endOffset - 1) in rows
  {
  }

  /** One record at partition 0 and offset 0, and a row without metadata. */
  lemma {:induction false} FirstRecordCounts(ranges: seq<OffsetRange>)
    requires TightHull([OffsetRow(-1, -1), OffsetRow(0, 0)], ranges)
    ensures ranges == [OffsetRange(0, 0, 1)]
  {
    var rows := [OffsetRow(-1, -1), OffsetRow(0, 0)];
    var expected := [OffsetRange(0, 0, 1)];
    assert rows[1] == OffsetRow(0, 0) && IsValidRow(rows[1]);
    assert HasOffset(rows, 0, 0);
    assert IsHullOf(rows, expected[0]);
    assert Mentions(expected, 0) by {
      assert expected[0].partition == 0;
    }
    TightHullUnique(rows, ranges, expected);
  }
}
