/** Bucketing of access-log records by time: `aggregate_per_minute` and
    `add_status_features` (auto_scaling.py), which build the gap-free
    1-minute series, and the 5-minute re-aggregation of `process_log_to_5m`
    (main_pipeline.py).

    A bucket of width w minutes is identified by its bin number b and covers
    the local wall-clock minutes b * w .. b * w + w - 1. pandas starts
    resample bins at local midnight; for a width that divides a day (1 and 5
    here) that is the same as numbering bins from the local epoch. */
module Aggregation {
  import opened Basics
  import opened CivilTime
  import opened LogParser

  // ---------------------------------------------------------------------
  // Records, bins and columns
  // ---------------------------------------------------------------------

  /** `(status // 100) * 100`: the hundreds class of a status code. */
  function StatusGroupOf(status: nat): (g: nat)
    ensures g <= status < g + 100 && g % 100 == 0
  {
    DivOfSum(status / 100, 0, 100);
    (status / 100) * 100
  }

  /** The local wall-clock minute a record falls in. */
  function MinuteOfRecord(r: Record): int {
    MinuteOf(r.stamp)
  }

  /** The bin of width w that holds minute m. */
  function BinOf(m: int, w: nat): int
    requires w > 0
  {
    m / w
  }

  /** The columns of a bucketed frame: `requests`, `bytes`, `status_<g>`. */
  datatype Column = Requests | Bytes | Status(group: int)

  /** What one record adds to a column of its bucket. */
  function Contribution(r: Record, col: Column): nat {
    match col
    case Requests => 1
    case Bytes => r.bytes
    case Status(g) => if StatusGroupOf(r.status) == g then 1 else 0
  }

  /** A column's total over the records in bin b of width w. */
  function BinTotal(recs: seq<Record>, w: nat, b: int, col: Column): nat
    requires w > 0
  {
    if |recs| == 0 then 0
    else
      (if BinOf(MinuteOfRecord(recs[0]), w) == b then Contribution(recs[0], col) else 0)
      + BinTotal(recs[1..], w, b, col)
  }

  /** A column's total over all records. */
  function ColumnTotal(recs: seq<Record>, col: Column): nat {
    if |recs| == 0 then 0 else Contribution(recs[0], col) + ColumnTotal(recs[1..], col)
  }

  /** The bins of the records, in order. */
  function Bins(recs: seq<Record>, w: nat): (bs: seq<int>)
    requires w > 0
    ensures |bs| == |recs|
    ensures forall i :: 0 <= i < |recs| ==> bs[i] == BinOf(MinuteOfRecord(recs[i]), w)
  {
    if |recs| == 0 then [] else [BinOf(MinuteOfRecord(recs[0]), w)] + Bins(recs[1..], w)
  }

  /** A bucket's `requests` is the number of records whose bin it is. */
  lemma {:induction false} RequestsCountRecords(recs: seq<Record>, w: nat, b: int)
    requires w > 0
    ensures BinTotal(recs, w, b, Requests) == multiset(Bins(recs, w))[b]
  {
    if |recs| > 0 {
      RequestsCountRecords(recs[1..], w, b);
      assert Bins(recs, w) == [BinOf(MinuteOfRecord(recs[0]), w)] + Bins(recs[1..], w);
    }
  }

  /** The conservation totals: every record counts once in `requests`, its
      size in `bytes` and once in its own status class. */
  lemma {:induction false} ColumnTotals(recs: seq<Record>, g: int)
    ensures ColumnTotal(recs, Requests) == |recs|
    ensures ColumnTotal(recs, Bytes) == TotalBytes(recs)
    ensures ColumnTotal(recs, Status(g)) == multiset(Groups(recs))[g]
  {
    if |recs| > 0 {
      ColumnTotals(recs[1..], g);
      assert Groups(recs) == [StatusGroupOf(recs[0].status)] + Groups(recs[1..]);
    }
  }

  function TotalBytes(recs: seq<Record>): nat {
    if |recs| == 0 then 0 else recs[0].bytes + TotalBytes(recs[1..])
  }

  /** The status classes of the records, in order. */
  function Groups(recs: seq<Record>): (gs: seq<int>)
    ensures |gs| == |recs|
    ensures forall i :: 0 <= i < |recs| ==> gs[i] == StatusGroupOf(recs[i].status)
  {
    if |recs| == 0 then [] else [StatusGroupOf(recs[0].status)] + Groups(recs[1..])
  }

  // ---------------------------------------------------------------------
  // The first and last minute
  // ---------------------------------------------------------------------

  /** The minute of the earliest record (`df.index.min()`). */
  function MinMinute(recs: seq<Record>): int
    requires |recs| > 0
  {
    if |recs| == 1 then MinuteOfRecord(recs[0])
    else
      var rest := MinMinute(recs[1..]);
      if MinuteOfRecord(recs[0]) <= rest then MinuteOfRecord(recs[0]) else rest
  }

  /** The minute of the latest record (`df.index.max()`). */
  function MaxMinute(recs: seq<Record>): int
    requires |recs| > 0
  {
    if |recs| == 1 then MinuteOfRecord(recs[0])
    else
      var rest := MaxMinute(recs[1..]);
      if MinuteOfRecord(recs[0]) >= rest then MinuteOfRecord(recs[0]) else rest
  }

  /** Every record's minute lies between the first and the last. */
  lemma {:induction false} MinutesInSpan(recs: seq<Record>, i: int)
    requires 0 <= i < |recs|
    ensures MinMinute(recs) <= MinuteOfRecord(recs[i]) <= MaxMinute(recs)
  {
    if i > 0 {
      assert recs[1..][i - 1] == recs[i];
      MinutesInSpan(recs[1..], i - 1);
    } else if |recs| > 1 {
      MinutesInSpan(recs[1..], 0);
    }
  }

  /** The first and last minute are minutes of records. */
  lemma {:induction false} SpanIsAttained(recs: seq<Record>) returns (i: nat, j: nat)
    requires |recs| > 0
    ensures i < |recs| && MinMinute(recs) == MinuteOfRecord(recs[i])
    ensures j < |recs| && MaxMinute(recs) == MinuteOfRecord(recs[j])
  {
    if |recs| == 1 {
      return 0, 0;
    }
    var i', j' := SpanIsAttained(recs[1..]);
    assert recs[1..][i'] == recs[i' + 1] && recs[1..][j'] == recs[j' + 1];
    i := if MinuteOfRecord(recs[0]) <= MinMinute(recs[1..]) then 0 else i' + 1;
    j := if MinuteOfRecord(recs[0]) >= MaxMinute(recs[1..]) then 0 else j' + 1;
  }

  // ---------------------------------------------------------------------
  // The status classes seen anywhere
  // ---------------------------------------------------------------------

  predicate StrictlyIncreasing(s: seq<int>) {
    forall i, j :: 0 <= i < j < |s| ==> s[i] < s[j]
  }

  predicate Distinct(s: seq<int>) {
    forall i, j :: 0 <= i < j < |s| ==> s[i] != s[j]
  }

  /** Adds g to an increasing list of classes, keeping it increasing. */
  function InsertGroup(g: int, gs: seq<int>): (r: seq<int>)
    ensures forall x :: x in r <==> x == g || x in gs
  {
    if |gs| == 0 then [g]
    else if g < gs[0] then [g] + gs
    else if g == gs[0] then gs
    else [gs[0]] + InsertGroup(g, gs[1..])
  }

  lemma {:induction false} InsertGroupIncreasing(g: int, gs: seq<int>)
    requires StrictlyIncreasing(gs)
    ensures StrictlyIncreasing(InsertGroup(g, gs))
  {
    if |gs| > 0 && g > gs[0] {
      var tail := InsertGroup(g, gs[1..]);
      InsertGroupIncreasing(g, gs[1..]);
      assert forall k :: 0 <= k < |tail| ==> gs[0] < tail[k] by {
        forall k | 0 <= k < |tail|
          ensures gs[0] < tail[k]
        {
          assert tail[k] in tail;
          if tail[k] != g {
            var m :| 0 <= m < |gs[1..]| && gs[1..][m] == tail[k];
            assert gs[1..][m] == gs[m + 1];
          }
        }
      }
      var r := [gs[0]] + tail;
      forall i, j | 0 <= i < j < |r|
        ensures r[i] < r[j]
      {
        if i > 0 {
          assert r[i] == tail[i - 1] && r[j] == tail[j - 1];
        }
      }
    }
  }

  /** The `status_<g>` columns `unstack` makes: every class that occurs,
      once, in increasing order. */
  function GroupsOf(recs: seq<Record>): (gs: seq<int>)
    ensures StrictlyIncreasing(gs)
    ensures forall x :: x in gs <==> x in Groups(recs)
  {
    if |recs| == 0 then []
    else
      var rest := GroupsOf(recs[1..]);
      InsertGroupIncreasing(StatusGroupOf(recs[0].status), rest);
      assert Groups(recs) == [StatusGroupOf(recs[0].status)] + Groups(recs[1..]);
      InsertGroup(StatusGroupOf(recs[0].status), rest)
  }

  lemma IncreasingIsDistinct(s: seq<int>)
    requires StrictlyIncreasing(s)
    ensures Distinct(s)
  {
  }

  // ---------------------------------------------------------------------
  // Bucketed series
  // ---------------------------------------------------------------------

  /** One bucket: `requests`, `bytes` and the `status_<g>` counts. */
  datatype Row = Row(requests: nat, bytes: nat, status: map<int, nat>)

  /** A gap-free series of buckets of `width` minutes; row k is bin
      `first + k`, so it starts at minute (first + k) * width. `groups`
      lists the `status_<g>` columns in column order. */
  datatype Series = Series(width: nat, first: int, groups: seq<int>, rows: seq<Row>)

  function Cell(row: Row, col: Column): nat {
    match col
    case Requests => row.requests
    case Bytes => row.bytes
    case Status(g) => if g in row.status then row.status[g] else 0
  }

  /** The `status_<g>` cells of bin b of width w. */
  function StatusCounts(recs: seq<Record>, w: nat, b: int, groups: seq<int>): map<int, nat>
    requires w > 0
  {
    map g | g in groups :: BinTotal(recs, w, b, Status(g))
  }

  /** The bucket of bin b of width w with the given status columns. */
  function RowOf(recs: seq<Record>, w: nat, b: int, groups: seq<int>): Row
    requires w > 0
  {
    Row(BinTotal(recs, w, b, Requests), BinTotal(recs, w, b, Bytes), StatusCounts(recs, w, b, groups))
  }

  /** The bins from the first record's to the last record's. */
  function Span(recs: seq<Record>, w: nat): (n: nat)
    requires |recs| > 0 && w > 0
    ensures n >= 1
  {
    MinutesInSpan(recs, 0);
    DivMonotone(MinMinute(recs), MaxMinute(recs), w);
    BinOf(MaxMinute(recs), w) - BinOf(MinMinute(recs), w) + 1
  }

  /** Direct aggregation of the records into buckets of w minutes, with
      every bin from the first record's to the last record's. */
  function Bucketize(recs: seq<Record>, w: nat, groups: seq<int>): (s: Series)
    requires |recs| > 0 && w > 0
    ensures s.width == w && s.groups == groups
    ensures s.first == BinOf(MinMinute(recs), w)
    ensures s.first + |s.rows| - 1 == BinOf(MaxMinute(recs), w)
  {
    var b0 := BinOf(MinMinute(recs), w);
    Series(w, b0, groups, seq(Span(recs, w), k => RowOf(recs, w, b0 + k, groups)))
  }

  /** `aggregate_per_minute`: `resample("1min")` counts the records and
      sums their bytes in every minute from the first record's to the last
      record's; minutes without records hold 0. */
  function AggregatePerMinute(recs: seq<Record>): (s: Series)
    requires |recs| > 0
    ensures s.width == 1 && s.groups == []
    ensures s.first == MinMinute(recs) && s.first + |s.rows| - 1 == MaxMinute(recs)
    ensures forall k :: 0 <= k < |s.rows| ==> s.rows[k].status == map[]
  {
    var lo := MinMinute(recs);
    Series(1, lo, [], seq(Span(recs, 1), k =>
      Row(BinTotal(recs, 1, lo + k, Requests), BinTotal(recs, 1, lo + k, Bytes), map[])))
  }

  /** `add_status_features`: one `status_<g>` column per class seen in the
      records, holding the count of that class in the row's minute, 0 where
      the minute has none (the left join and `fillna(0)`). */
  function AddStatusFeatures(recs: seq<Record>, per: Series): (s: Series)
    requires per.width == 1 && per.groups == []
    ensures s.width == 1 && s.first == per.first && |s.rows| == |per.rows|
    ensures StrictlyIncreasing(s.groups)
    ensures forall g :: g in s.groups <==> g in Groups(recs)
    ensures forall k :: 0 <= k < |s.rows| ==>
      && s.rows[k].requests == per.rows[k].requests
      && s.rows[k].bytes == per.rows[k].bytes
      && s.rows[k].status.Keys == set g | g in s.groups
  {
    WithStatusColumns(recs, per, GroupsOf(recs))
  }

  /** The 1-minute series with the given `status_<g>` columns filled in. */
  function WithStatusColumns(recs: seq<Record>, per: Series, gs: seq<int>): (s: Series)
    requires per.width == 1
  {
    per.(groups := gs,
         rows := seq(|per.rows|, k requires 0 <= k < |per.rows| =>
           per.rows[k].(status := StatusCounts(recs, 1, per.first + k, gs))))
  }

  /** The 1-minute frame `process_log_to_5m` starts from. */
  function PerMinute(recs: seq<Record>): Series
    requires |recs| > 0
  {
    AddStatusFeatures(recs, AggregatePerMinute(recs))
  }

  /** Adding status columns to the per-minute counts is direct bucketing at
      width 1. Both sides are built from the same bin totals, so this holds
      largely by definition; what the totals mean is stated by TallySum,
      BucketizeConserves and ColumnTotals. */
  lemma StatusColumnsAreBucketize(recs: seq<Record>, gs: seq<int>)
    requires |recs| > 0
    ensures WithStatusColumns(recs, AggregatePerMinute(recs), gs) == Bucketize(recs, 1, gs)
  {
    var a := WithStatusColumns(recs, AggregatePerMinute(recs), gs);
    var b := Bucketize(recs, 1, gs);
    var lo := MinMinute(recs);
    assert BinOf(lo, 1) == lo;
    assert |a.rows| == |b.rows|;
    forall k | 0 <= k < |a.rows|
      ensures a.rows[k] == b.rows[k]
    {
      assert b.rows[k] == RowOf(recs, 1, lo + k, gs);
    }
  }

  /** The two steps together are direct aggregation at width 1; like
      StatusColumnsAreBucketize, this holds largely by definition, and the
      independent content is in TallySum, BucketizeConserves and
      ColumnTotals. */
  lemma PerMinuteIsBucketize(recs: seq<Record>)
    requires |recs| > 0
    ensures PerMinute(recs) == Bucketize(recs, 1, GroupsOf(recs))
  {
    StatusColumnsAreBucketize(recs, GroupsOf(recs));
  }

  // ---------------------------------------------------------------------
  // Coverage and conservation
  // ---------------------------------------------------------------------

  /** A column of a series, indexed by bin number (0 outside the series). */
  function SeriesCell(s: Series, col: Column): int -> int {
    b => if s.first <= b < s.first + |s.rows| then Cell(s.rows[b - s.first], col) else 0
  }

  /** A column's sum over all rows of a series. */
  function SeriesTotal(s: Series, col: Column): int {
    RangeSum(s.first, |s.rows|, SeriesCell(s, col))
  }

  /** A column's bucket totals as a function of the bin. */
  function Tally(recs: seq<Record>, w: nat, col: Column): int -> int
    requires w > 0
  {
    b => BinTotal(recs, w, b, col)
  }

  predicate BinsWithin(recs: seq<Record>, w: nat, lo: int, n: nat)
    requires w > 0
  {
    forall i :: 0 <= i < |recs| ==> lo <= BinOf(MinuteOfRecord(recs[i]), w) < lo + n
  }

  /** Summing the bucket totals over a range of bins that holds every
      record counts every record exactly once. */
  lemma {:induction false} TallySum(recs: seq<Record>, w: nat, lo: int, n: nat, col: Column)
    requires w > 0 && BinsWithin(recs, w, lo, n)
    ensures RangeSum(lo, n, Tally(recs, w, col)) == ColumnTotal(recs, col)
  {
    if |recs| > 0 {
      var p := BinOf(MinuteOfRecord(recs[0]), w);
      var c := Contribution(recs[0], col);
      var head: int -> int := b => if b == p then c else 0;
      assert BinsWithin(recs[1..], w, lo, n) by {
        forall i | 0 <= i < |recs| - 1
          ensures recs[1..][i] == recs[i + 1]
        {
        }
      }
      TallySum(recs[1..], w, lo, n, col);
      forall b | lo <= b < lo + n
        ensures Tally(recs, w, col)(b) == head(b) + Tally(recs[1..], w, col)(b)
      {
      }
      RangeSumAdd(lo, n, head, Tally(recs[1..], w, col), Tally(recs, w, col));
      RangeSumPoint(lo, n, head, p);
      assert head(p) == c;
      assert ColumnTotal(recs, col) == c + ColumnTotal(recs[1..], col);
    } else {
      RangeSumZero(lo, n, Tally(recs, w, col));
    }
  }

  /** A cell of a bucket is the column's total over the bucket's records. */
  lemma CellOfRow(recs: seq<Record>, w: nat, b: int, groups: seq<int>, col: Column)
    requires w > 0
    requires col.Status? ==> col.group in groups
    ensures Cell(RowOf(recs, w, b, groups), col) == BinTotal(recs, w, b, col)
  {
    if col.Status? {
      assert col.group in StatusCounts(recs, w, b, groups);
    }
  }

  /** Row k of the bucketed series is the bucket of bin first + k. */
  lemma BucketizeRow(recs: seq<Record>, w: nat, groups: seq<int>, b: int)
    requires |recs| > 0 && w > 0
    requires var s := Bucketize(recs, w, groups); s.first <= b < s.first + |s.rows|
    ensures var s := Bucketize(recs, w, groups); s.rows[b - s.first] == RowOf(recs, w, b, groups)
  {
  }

  /** Every record's bin is one of the series' rows. */
  lemma BucketizeCovers(recs: seq<Record>, w: nat, groups: seq<int>)
    requires |recs| > 0 && w > 0
    ensures var s := Bucketize(recs, w, groups);
      BinsWithin(recs, w, s.first, |s.rows|)
  {
    forall i | 0 <= i < |recs|
      ensures BinOf(MinMinute(recs), w) <= BinOf(MinuteOfRecord(recs[i]), w) <= BinOf(MaxMinute(recs), w)
    {
      MinutesInSpan(recs, i);
      DivMonotone(MinMinute(recs), MinuteOfRecord(recs[i]), w);
      DivMonotone(MinuteOfRecord(recs[i]), MaxMinute(recs), w);
    }
  }

  /** A bin that holds a record has at least one request. */
  lemma {:induction false} OccupiedBin(recs: seq<Record>, w: nat, i: int)
    requires w > 0 && 0 <= i < |recs|
    ensures BinTotal(recs, w, BinOf(MinuteOfRecord(recs[i]), w), Requests) > 0
  {
    if i > 0 {
      assert recs[1..][i - 1] == recs[i];
      OccupiedBin(recs[1..], w, i - 1);
    }
  }

  /** The series starts and ends with buckets that hold records, as the
      resample range runs from the first record's bin to the last one's. */
  lemma BucketizeEndsOccupied(recs: seq<Record>, w: nat, groups: seq<int>)
    requires |recs| > 0 && w > 0
    ensures var s := Bucketize(recs, w, groups);
      s.rows[0].requests > 0 && s.rows[|s.rows| - 1].requests > 0
  {
    var s := Bucketize(recs, w, groups);
    var i, j := SpanIsAttained(recs);
    OccupiedBin(recs, w, i);
    OccupiedBin(recs, w, j);
    BucketizeRow(recs, w, groups, s.first);
    BucketizeRow(recs, w, groups, s.first + |s.rows| - 1);
  }

  /** The column sums of the bucketed series equal the totals over the
      records: nothing is lost or counted twice. */
  lemma BucketizeConserves(recs: seq<Record>, w: nat, groups: seq<int>, col: Column)
    requires |recs| > 0 && w > 0
    requires col.Status? ==> col.group in groups
    ensures SeriesTotal(Bucketize(recs, w, groups), col) == ColumnTotal(recs, col)
  {
    var s := Bucketize(recs, w, groups);
    BucketizeCovers(recs, w, groups);
    forall b | s.first <= b < s.first + |s.rows|
      ensures SeriesCell(s, col)(b) == Tally(recs, w, col)(b)
    {
      BucketizeRow(recs, w, groups, b);
      CellOfRow(recs, w, b, groups, col);
    }
    RangeSumExt(s.first, |s.rows|, SeriesCell(s, col), Tally(recs, w, col));
    TallySum(recs, w, s.first, |s.rows|, col);
  }

  /** No status class of a bucket counts more than the bucket's requests. */
  lemma {:induction false} StatusAtMostRequests(recs: seq<Record>, w: nat, b: int, g: int)
    requires w > 0
    ensures BinTotal(recs, w, b, Status(g)) <= BinTotal(recs, w, b, Requests)
  {
    if |recs| > 0 {
      StatusAtMostRequests(recs[1..], w, b, g);
    }
  }

  // ---------------------------------------------------------------------
  // The status classes partition the requests
  // ---------------------------------------------------------------------

  /** The `status_<g>` cells of a row, listed in the order of gs. */
  function StatusCells(row: Row, gs: seq<int>): int -> int {
    k => if 0 <= k < |gs| then Cell(row, Status(gs[k])) else 0
  }

  /** The sum of a row's `status_<g>` cells over the classes gs. */
  function StatusSum(row: Row, gs: seq<int>): int {
    RangeSum(0, |gs|, StatusCells(row, gs))
  }

  /** The counts of the classes gs in bin b, listed in the order of gs. */
  function ClassCounts(recs: seq<Record>, w: nat, b: int, gs: seq<int>): int -> int
    requires w > 0
  {
    k => if 0 <= k < |gs| then BinTotal(recs, w, b, Status(gs[k])) else 0
  }

  predicate ClassesListed(recs: seq<Record>, gs: seq<int>) {
    forall i :: 0 <= i < |recs| ==> StatusGroupOf(recs[i].status) in gs
  }

  /** When gs lists every record's class once, the class counts of a bin
      add up to its request count. */
  lemma {:induction false} ClassCountsPartition(recs: seq<Record>, w: nat, b: int, gs: seq<int>)
    requires w > 0 && Distinct(gs) && ClassesListed(recs, gs)
    ensures RangeSum(0, |gs|, ClassCounts(recs, w, b, gs)) == BinTotal(recs, w, b, Requests)
  {
    if |recs| == 0 {
      RangeSumZero(0, |gs|, ClassCounts(recs, w, b, gs));
    } else {
      var r := recs[0];
      var g := StatusGroupOf(r.status);
      var hit := BinOf(MinuteOfRecord(r), w) == b;
      var head: int -> int := k => if hit && 0 <= k < |gs| && gs[k] == g then 1 else 0;
      assert ClassesListed(recs[1..], gs) by {
        forall i | 0 <= i < |recs| - 1
          ensures recs[1..][i] == recs[i + 1]
        {
        }
      }
      ClassCountsPartition(recs[1..], w, b, gs);
      forall k | 0 <= k < |gs|
        ensures ClassCounts(recs, w, b, gs)(k) == head(k) + ClassCounts(recs[1..], w, b, gs)(k)
      {
      }
      RangeSumAdd(0, |gs|, head, ClassCounts(recs[1..], w, b, gs), ClassCounts(recs, w, b, gs));
      assert g in gs;
      var p :| 0 <= p < |gs| && gs[p] == g;
      RangeSumPoint(0, |gs|, head, p);
      assert head(p) == (if hit then 1 else 0);
    }
  }

  /** In every bucket of the series, the `status_<g>` columns add up to
      `requests`: each request falls in exactly one status class. */
  lemma BucketStatusPartition(recs: seq<Record>, w: nat, k: int)
    requires |recs| > 0 && w > 0
    requires 0 <= k < |Bucketize(recs, w, GroupsOf(recs)).rows|
    ensures var s := Bucketize(recs, w, GroupsOf(recs));
      StatusSum(s.rows[k], s.groups) == s.rows[k].requests
  {
    var gs := GroupsOf(recs);
    var s := Bucketize(recs, w, gs);
    var b := s.first + k;
    BucketizeRow(recs, w, gs, b);
    forall j | 0 <= j < |gs|
      ensures StatusCells(s.rows[k], gs)(j) == ClassCounts(recs, w, b, gs)(j)
    {
      CellOfRow(recs, w, b, gs, Status(gs[j]));
    }
    RangeSumExt(0, |gs|, StatusCells(s.rows[k], gs), ClassCounts(recs, w, b, gs));
    IncreasingIsDistinct(gs);
    assert ClassesListed(recs, gs) by {
      forall i | 0 <= i < |recs|
        ensures StatusGroupOf(recs[i].status) in gs
      {
        assert Groups(recs)[i] in Groups(recs);
      }
    }
    ClassCountsPartition(recs, w, b, gs);
  }

  // ---------------------------------------------------------------------
  // Re-aggregation into wider buckets (`process_log_to_5m`)
  // ---------------------------------------------------------------------

  /** The width of the buckets the forecasting pipeline works on. */
  const FiveMinutes := 5

  /** `df.resample(...).agg(rules)` raises a KeyError when a column the
      rules name is absent from the frame. */
  datatype AggError = MissingColumn(group: int)

  /** The `status_<g>` columns other than `status_200` and `status_500`, in
      their order. */
  function OtherGroups(gs: seq<int>): (r: seq<int>)
    ensures forall x :: x in r <==> x in gs && x != 200 && x != 500
  {
    if |gs| == 0 then []
    else (if gs[0] == 200 || gs[0] == 500 then [] else [gs[0]]) + OtherGroups(gs[1..])
  }

  /** The order of the columns in the aggregation rules: `status_200` and
      `status_500` first, then the other classes as the frame lists them. */
  function OutputGroups(gs: seq<int>): seq<int> {
    [200, 500] + OtherGroups(gs)
  }

  /** The rules sum `status_200`, `status_500` and every status column of
      the frame, and no other. */
  lemma OutputGroupsListed(gs: seq<int>)
    ensures forall g :: g in OutputGroups(gs) <==> g == 200 || g == 500 || g in gs
  {
  }

  /** The cells of the fine series that fall in bucket B of width w. */
  function Coarse(s: Series, w: nat, B: int, col: Column): int -> int
    requires w > 0
  {
    m => if m / w == B then SeriesCell(s, col)(m) else 0
  }

  lemma CoarseNonNegative(s: Series, w: nat, B: int, col: Column)
    requires w > 0
    ensures forall m :: Coarse(s, w, B, col)(m) >= 0
  {
    forall m
      ensures Coarse(s, w, B, col)(m) >= 0
    {
      assert Coarse(s, w, B, col)(m) == if m / w == B then SeriesCell(s, col)(m) else 0;
      if s.first <= m < s.first + |s.rows| {
        assert SeriesCell(s, col)(m) == Cell(s.rows[m - s.first], col);
      } else {
        assert SeriesCell(s, col)(m) == 0;
      }
    }
  }

  /** The `sum` rule: a column summed over the 1-minute rows in bucket B. */
  function BinSum(s: Series, w: nat, B: int, col: Column): (n: nat)
    requires w > 0
  {
    CoarseNonNegative(s, w, B, col);
    RangeSumNonNegative(s.first, |s.rows|, Coarse(s, w, B, col));
    RangeSum(s.first, |s.rows|, Coarse(s, w, B, col))
  }

  /** The number of buckets of width w spanned by the rows of s. */
  function CoarseSpan(s: Series, w: nat): nat
    requires w > 0
  {
    if |s.rows| == 0 then 0
    else
      DivMonotone(s.first, s.first + |s.rows| - 1, w);
      (s.first + |s.rows| - 1) / w - s.first / w + 1
  }

  /** Summing a 1-minute series into buckets of w minutes; bucket bins are
      counted from the local epoch, which is the same as from local
      midnight because w divides a day. The rules sum `requests`, `bytes`,
      `status_200`, `status_500` and every other `status_<g>` column, so
      the frame must have the first two status columns. */
  function Reaggregate(s: Series, w: nat): (r: Result<Series, AggError>)
    requires s.width == 1 && w > 0 && MinutesPerDay % w == 0
    ensures r.Success? <==> 200 in s.groups && 500 in s.groups
    ensures r.Failure? ==> r.error == MissingColumn(if 200 in s.groups then 500 else 200)
    ensures r.Success? ==>
      && r.value.width == w
      && r.value.first == s.first / w
      && r.value.groups == OutputGroups(s.groups)
  {
    if 200 !in s.groups then Failure(MissingColumn(200))
    else if 500 !in s.groups then Failure(MissingColumn(500))
    else
      var gs := OutputGroups(s.groups);
      var b0 := s.first / w;
      Success(Series(w, b0, gs, seq(CoarseSpan(s, w), j =>
        Row(BinSum(s, w, b0 + j, Requests), BinSum(s, w, b0 + j, Bytes),
            map g | g in gs :: BinSum(s, w, b0 + j, Status(g))))))
  }

  /** The minutes of bucket B of width w are B * w .. B * w + w - 1. */
  lemma BucketMinutes(w: nat, B: int, m: int)
    requires w > 0
    ensures m / w == B <==> B * w <= m < B * w + w
  {
    if B * w <= m < B * w + w {
      DivOfSum(B, m - B * w, w);
    } else if m < B * w {
      DivOfSum(B - 1, w - 1, w);
      DivMonotone(m, B * w - 1, w);
    } else {
      DivOfSum(B + 1, 0, w);
      DivMonotone(B * w + w, m, w);
    }
  }

  /** The `sum` rule adds up exactly the 1-minute rows of the bucket: the
      w minutes from B * w on, a minute outside the series counting 0. */
  lemma BinSumIsWindow(s: Series, w: nat, B: int, col: Column)
    requires w > 0
    ensures BinSum(s, w, B, col) == RangeSum(B * w, w, SeriesCell(s, col))
  {
    var f := Coarse(s, w, B, col);
    var start := B * w;
    var a := if s.first <= start then s.first else start;
    var e1, e2 := s.first + |s.rows|, start + w;
    var e := if e1 >= e2 then e1 else e2;
    forall x | a <= x < s.first || e1 <= x < e
      ensures f(x) == 0
    {
      assert SeriesCell(s, col)(x) == 0;
      assert f(x) == if x / w == B then SeriesCell(s, col)(x) else 0;
    }
    RangeSumWiden(a, e - a, s.first, |s.rows|, f);
    forall x | a <= x < start || e2 <= x < e
      ensures f(x) == 0
    {
      BucketMinutes(w, B, x);
    }
    RangeSumWiden(a, e - a, start, w, f);
    forall x | start <= x < start + w
      ensures f(x) == SeriesCell(s, col)(x)
    {
      BucketMinutes(w, B, x);
    }
    RangeSumExt(start, w, f, SeriesCell(s, col));
  }

  /** Row j of the re-aggregated series is the bucket of bin first + j,
      every cell the sum of the w one-minute cells of that bucket; and
      every 1-minute row falls in one of its buckets. */
  lemma ReaggregateSums(s: Series, w: nat, j: nat, col: Column)
    requires s.width == 1 && w > 0 && MinutesPerDay % w == 0
    requires Reaggregate(s, w).Success? && j < |Reaggregate(s, w).value.rows|
    requires col.Status? ==> col.group in Reaggregate(s, w).value.groups
    ensures var r := Reaggregate(s, w).value;
      Cell(r.rows[j], col) == RangeSum((r.first + j) * w, w, SeriesCell(s, col))
  {
    var r := Reaggregate(s, w).value;
    var B := r.first + j;
    BinSumIsWindow(s, w, B, col);
    if col.Status? {
      assert col.group in r.rows[j].status;
    }
  }

  /** The re-aggregated series has a bucket for every 1-minute row. */
  lemma ReaggregateCovers(s: Series, w: nat, m: int)
    requires s.width == 1 && w > 0 && MinutesPerDay % w == 0
    requires Reaggregate(s, w).Success? && s.first <= m < s.first + |s.rows|
    ensures var r := Reaggregate(s, w).value;
      r.first <= m / w < r.first + |r.rows|
  {
    DivMonotone(s.first, m, w);
    DivMonotone(m, s.first + |s.rows| - 1, w);
  }

  /** Bucket totals of width w as a function of the minute: the count of
      minute m if it lies in bucket B, else 0. */
  function CoarseTally(recs: seq<Record>, w: nat, B: int, col: Column): int -> int
    requires w > 0
  {
    m => if m / w == B then BinTotal(recs, 1, m, col) else 0
  }

  /** Summing the 1-minute totals of the minutes in bucket B gives the total
      of bucket B, when the minutes summed over hold every record. */
  lemma {:induction false} FineToCoarse(recs: seq<Record>, w: nat, B: int, lo: int, n: nat, col: Column)
    requires w > 0 && BinsWithin(recs, 1, lo, n)
    ensures RangeSum(lo, n, CoarseTally(recs, w, B, col)) == BinTotal(recs, w, B, col)
  {
    if |recs| == 0 {
      RangeSumZero(lo, n, CoarseTally(recs, w, B, col));
    } else {
      var p := MinuteOfRecord(recs[0]);
      var c := Contribution(recs[0], col);
      var head: int -> int := m => if m == p && m / w == B then c else 0;
      assert BinsWithin(recs[1..], 1, lo, n) by {
        forall i | 0 <= i < |recs| - 1
          ensures recs[1..][i] == recs[i + 1]
        {
        }
      }
      FineToCoarse(recs[1..], w, B, lo, n, col);
      forall m | lo <= m < lo + n
        ensures CoarseTally(recs, w, B, col)(m) == head(m) + CoarseTally(recs[1..], w, B, col)(m)
      {
      }
      RangeSumAdd(lo, n, head, CoarseTally(recs[1..], w, B, col), CoarseTally(recs, w, B, col));
      assert BinOf(p, 1) == p;
      RangeSumPoint(lo, n, head, p);
      assert head(p) == (if BinOf(p, w) == B then c else 0);
    }
  }

  /** A cell of the directly bucketed 1-minute series is the minute's
      total. */
  lemma FineCell(recs: seq<Record>, gs: seq<int>, col: Column, m: int)
    requires |recs| > 0
    requires col.Status? ==> col.group in gs
    requires var s := Bucketize(recs, 1, gs); s.first <= m < s.first + |s.rows|
    ensures SeriesCell(Bucketize(recs, 1, gs), col)(m) == BinTotal(recs, 1, m, col)
  {
    BucketizeRow(recs, 1, gs, m);
    SeriesCellOfRow(Bucketize(recs, 1, gs), recs, 1, gs, col, m);
  }

  /** The cell of a series row that is the bucket of bin b. */
  lemma SeriesCellOfRow(s: Series, recs: seq<Record>, w: nat, gs: seq<int>, col: Column, b: int)
    requires w > 0 && s.first <= b < s.first + |s.rows|
    requires s.rows[b - s.first] == RowOf(recs, w, b, gs)
    requires col.Status? ==> col.group in gs
    ensures SeriesCell(s, col)(b) == BinTotal(recs, w, b, col)
  {
    CellOfRow(recs, w, b, gs, col);
  }

  /** Re-bucketing the directly bucketed 1-minute series of some records
      sums, for bucket B, exactly the records of bucket B. */
  lemma BinSumOfBucketize(recs: seq<Record>, gs: seq<int>, w: nat, B: int, col: Column)
    requires |recs| > 0 && w > 0
    requires col.Status? ==> col.group in gs
    ensures BinSum(Bucketize(recs, 1, gs), w, B, col) == BinTotal(recs, w, B, col)
  {
    var s := Bucketize(recs, 1, gs);
    BucketizeCovers(recs, 1, gs);
    forall m | s.first <= m < s.first + |s.rows|
      ensures Coarse(s, w, B, col)(m) == CoarseTally(recs, w, B, col)(m)
    {
      FineCell(recs, gs, col, m);
    }
    RangeSumExt(s.first, |s.rows|, Coarse(s, w, B, col), CoarseTally(recs, w, B, col));
    FineToCoarse(recs, w, B, s.first, |s.rows|, col);
  }

  /** The bucket range of the re-bucketed series is that of direct
      bucketing at width w. */
  lemma CoarseSpanOfBucketize(recs: seq<Record>, gs: seq<int>, w: nat)
    requires |recs| > 0 && w > 0
    ensures var s := Bucketize(recs, 1, gs);
      s.first / w == BinOf(MinMinute(recs), w) && CoarseSpan(s, w) == Span(recs, w)
  {
    var s := Bucketize(recs, 1, gs);
    assert BinOf(MinMinute(recs), 1) == MinMinute(recs);
    assert BinOf(MaxMinute(recs), 1) == MaxMinute(recs);
    assert s.first + |s.rows| - 1 == MaxMinute(recs);
  }

  /** The re-bucketed row of bucket B is the direct bucket B. */
  lemma ReaggregateRow(recs: seq<Record>, gs: seq<int>, w: nat, B: int)
    requires |recs| > 0 && w > 0
    requires 200 in gs && 500 in gs
    ensures var s := Bucketize(recs, 1, gs);
      var out := OutputGroups(gs);
      Row(BinSum(s, w, B, Requests), BinSum(s, w, B, Bytes),
          map g | g in out :: BinSum(s, w, B, Status(g)))
      == RowOf(recs, w, B, out)
  {
    var s := Bucketize(recs, 1, gs);
    var out := OutputGroups(gs);
    BinSumOfBucketize(recs, gs, w, B, Requests);
    BinSumOfBucketize(recs, gs, w, B, Bytes);
    forall g | g in out
      ensures BinSum(s, w, B, Status(g)) == BinTotal(recs, w, B, Status(g))
    {
      BinSumOfBucketize(recs, gs, w, B, Status(g));
    }
  }

  /** Re-bucketing a directly bucketed 1-minute series is direct bucketing
      at the wider width. */
  lemma ReaggregateBucketize(recs: seq<Record>, gs: seq<int>, w: nat)
    requires |recs| > 0 && w > 0 && MinutesPerDay % w == 0
    requires 200 in gs && 500 in gs
    ensures Reaggregate(Bucketize(recs, 1, gs), w) == Success(Bucketize(recs, w, OutputGroups(gs)))
  {
    var out := OutputGroups(gs);
    var r := Reaggregate(Bucketize(recs, 1, gs), w).value;
    var d := Bucketize(recs, w, out);
    CoarseSpanOfBucketize(recs, gs, w);
    assert |r.rows| == |d.rows|;
    forall j | 0 <= j < |r.rows|
      ensures r.rows[j] == d.rows[j]
    {
      ReaggregateRow(recs, gs, w, r.first + j);
    }
    assert r.rows == d.rows;
  }

  /** `process_log_to_5m` after the log is loaded: the 1-minute frame of
      the records summed into 5-minute buckets. */
  function FiveMinuteSeries(recs: seq<Record>): (r: Result<Series, AggError>)
    requires |recs| > 0
    ensures r.Success? <==> 200 in Groups(recs) && 500 in Groups(recs)
    ensures r.Failure? ==> r.error == MissingColumn(if 200 in Groups(recs) then 500 else 200)
    ensures r.Success? ==>
      && r.value.width == FiveMinutes
      && r.value.first == MinMinute(recs) / FiveMinutes
      && r.value.groups == OutputGroups(GroupsOf(recs))
  {
    Reaggregate(PerMinute(recs), FiveMinutes)
  }

  /** The 5-minute frame is the direct 5-minute bucketing of the records,
      and it exists exactly when some request got a 2xx and some a 5xx. */
  lemma FiveMinuteIsBucketize(recs: seq<Record>)
    requires |recs| > 0
    ensures FiveMinuteSeries(recs).Success? <==>
      200 in Groups(recs) && 500 in Groups(recs)
    ensures FiveMinuteSeries(recs).Success? ==>
      FiveMinuteSeries(recs).value == Bucketize(recs, FiveMinutes, OutputGroups(GroupsOf(recs)))
  {
    PerMinuteIsBucketize(recs);
    if 200 in GroupsOf(recs) && 500 in GroupsOf(recs) {
      ReaggregateBucketize(recs, GroupsOf(recs), FiveMinutes);
    }
  }

  /** The 5-minute frame keeps every request, every byte and every status
      count of the records. */
  lemma FiveMinuteConserves(recs: seq<Record>, g: int)
    requires |recs| > 0 && FiveMinuteSeries(recs).Success?
    requires g in FiveMinuteSeries(recs).value.groups
    ensures var s := FiveMinuteSeries(recs).value;
      && SeriesTotal(s, Requests) == |recs|
      && SeriesTotal(s, Bytes) == TotalBytes(recs)
      && SeriesTotal(s, Status(g)) == multiset(Groups(recs))[g]
  {
    FiveMinuteIsBucketize(recs);
    var out := OutputGroups(GroupsOf(recs));
    BucketizeConserves(recs, FiveMinutes, out, Requests);
    BucketizeConserves(recs, FiveMinutes, out, Bytes);
    BucketizeConserves(recs, FiveMinutes, out, Status(g));
    ColumnTotals(recs, g);
  }

  // ---------------------------------------------------------------------
  // From log lines to the 5-minute frame
  // ---------------------------------------------------------------------

  /** Why `process_log_to_5m` stops: the log cannot be loaded, or the
      5-minute rules name a column the frame lacks. */
  datatype PipelineError = LoadFailed(load: LoadError) | AggregateFailed(agg: AggError)

  /** `process_log_to_5m` on the lines of an existing log file. */
  function ProcessLogTo5m(lines: seq<string>): (r: Result<Series, PipelineError>)
    ensures LoadLog(lines).Failure? ==> r == Failure(LoadFailed(LoadLog(lines).error))
    ensures r.Success? ==> r.value.width == FiveMinutes
    ensures LoadLog(lines).Success? ==>
      && (r.Success? <==> 200 in Groups(LoadLog(lines).value) && 500 in Groups(LoadLog(lines).value))
      && (r.Failure? ==> r.error.AggregateFailed?)
      && (r.Success? ==> r.value == Bucketize(LoadLog(lines).value, FiveMinutes,
                                              OutputGroups(GroupsOf(LoadLog(lines).value))))
  {
    match LoadLog(lines)
    case Failure(e) => Failure(LoadFailed(e))
    case Success(recs) =>
      FiveMinuteIsBucketize(recs);
      match FiveMinuteSeries(recs)
      case Failure(e) => Failure(AggregateFailed(e))
      case Success(s) => Success(s)
  }

  /** Every line the pattern matches is one request of the 5-minute frame,
      and every byte it reports is in the `bytes` column. */
  lemma ProcessLogCountsEveryLine(lines: seq<string>)
    requires ProcessLogTo5m(lines).Success?
    ensures SeriesTotal(ProcessLogTo5m(lines).value, Requests) == |MatchAll(lines)|
    ensures SeriesTotal(ProcessLogTo5m(lines).value, Bytes) == TotalBytes(LoadLog(lines).value)
  {
    var recs := LoadLog(lines).value;
    FiveMinuteConserves(recs, 200);
  }
}
