/** The model inputs `feature_engineering` (main_pipeline.py) adds to the
    5-minute frame: calendar features of each bucket, the share of 5xx
    responses, a crash flag, and the request and byte counts one bucket and
    288 buckets (one day) earlier.

    pandas computes `ratio_5xx` in binary floating point; here it is an
    exact `real`. */
module Features {
  import opened Basics
  import opened CivilTime
  import opened Aggregation

  // ---------------------------------------------------------------------
  // The frame
  // ---------------------------------------------------------------------

  /** A row of a bucketed frame with the local minute its bucket starts at
      (the frame's index). */
  datatype Bucket = Bucket(start: int, row: Row)

  /** A bucketed frame: its `status_<g>` columns and its rows in index
      order. Unlike a `Series` it may have gaps, as the concatenation of
      two logs' frames does. */
  datatype Frame = Frame(groups: seq<int>, buckets: seq<Bucket>)

  /** The frame of a gap-free series: row k starts at bin first + k. */
  function FrameOf(s: Series): (f: Frame)
    ensures f.groups == s.groups && |f.buckets| == |s.rows|
    ensures forall k :: 0 <= k < |s.rows| ==> f.buckets[k] == Bucket((s.first + k) * s.width, s.rows[k])
  {
    Frame(s.groups, seq(|s.rows|, k requires 0 <= k < |s.rows| => Bucket((s.first + k) * s.width, s.rows[k])))
  }

  // ---------------------------------------------------------------------
  // Features of one row
  // ---------------------------------------------------------------------

  /** The `1e-9` that keeps the ratio defined for an empty bucket. */
  const Epsilon: real := 0.000000001

  /** The ratio above which a bucket counts as a crash. */
  const CrashRatio: real := 0.2

  /** How far back the lag features look: one bucket, and one day of
      5-minute buckets. */
  const ShortLag: nat := 1
  const DayLag: nat := 288

  function Ratio5xx(errors: nat, requests: nat): (r: real)
    ensures r >= 0.0
  {
    errors as real / (requests as real + Epsilon)
  }

  /** `is_crash`: the 5xx ratio exceeds 0.2 (pandas stores it as 1 or 0). */
  predicate IsCrash(errors: nat, requests: nat) {
    Ratio5xx(errors, requests) > CrashRatio
  }

  /** `series.shift(k)` at position i: the value k rows earlier, missing
      (NaN) for the first k rows. */
  function Shift(xs: seq<nat>, k: nat, i: nat): (r: Option<nat>)
    requires i < |xs|
    ensures r.Some? <==> i >= k
    ensures r.Some? ==> r.value == xs[i - k]
  {
    if i >= k then Some(xs[i - k]) else None
  }

  /** The columns `feature_engineering` adds to a row of the frame. */
  datatype FeatureRow = FeatureRow(
    bucket: Bucket,
    hour: int,
    dayOfWeek: int,
    ratio5xx: real,
    isCrash: bool,
    lagRequests1: Option<nat>,
    lagRequests288: Option<nat>,
    lagBytes1: Option<nat>,
    lagBytes288: Option<nat>)

  /** `df['status_500']` raises a KeyError when the frame has no such
      column. */
  datatype FeatureError = MissingStatus500

  function RequestsOf(f: Frame): (xs: seq<nat>)
    ensures |xs| == |f.buckets|
    ensures forall i :: 0 <= i < |xs| ==> xs[i] == f.buckets[i].row.requests
  {
    seq(|f.buckets|, i requires 0 <= i < |f.buckets| => f.buckets[i].row.requests)
  }

  function BytesOf(f: Frame): (xs: seq<nat>)
    ensures |xs| == |f.buckets|
    ensures forall i :: 0 <= i < |xs| ==> xs[i] == f.buckets[i].row.bytes
  {
    seq(|f.buckets|, i requires 0 <= i < |f.buckets| => f.buckets[i].row.bytes)
  }

  /** The features of row i of the frame: the calendar of the bucket's
      start, its 5xx ratio and crash flag, and the counts of the rows 1 and
      288 positions back where there are such rows. */
  function FeaturesAt(f: Frame, i: nat): (r: FeatureRow)
    requires i < |f.buckets|
    ensures var b := f.buckets[i];
      && r.bucket == b
      && r.hour == HourOf(b.start)
      && r.dayOfWeek == DayOfWeekOf(b.start)
      && r.ratio5xx == Ratio5xx(Cell(b.row, Status(500)), b.row.requests)
      && (r.isCrash <==> 5 * Cell(b.row, Status(500)) > b.row.requests)
    ensures && (r.lagRequests1.Some? <==> i >= ShortLag)
            && (r.lagBytes1.Some? <==> i >= ShortLag)
            && (r.lagRequests288.Some? <==> i >= DayLag)
            && (r.lagBytes288.Some? <==> i >= DayLag)
    ensures i >= ShortLag ==>
      && r.lagRequests1.value == f.buckets[i - ShortLag].row.requests
      && r.lagBytes1.value == f.buckets[i - ShortLag].row.bytes
    ensures i >= DayLag ==>
      && r.lagRequests288.value == f.buckets[i - DayLag].row.requests
      && r.lagBytes288.value == f.buckets[i - DayLag].row.bytes
  {
    var b := f.buckets[i];
    var errors := Cell(b.row, Status(500));
    IsCrashExact(errors, b.row.requests);
    FeatureRow(b, HourOf(b.start), DayOfWeekOf(b.start),
               Ratio5xx(errors, b.row.requests), IsCrash(errors, b.row.requests),
               Shift(RequestsOf(f), ShortLag, i), Shift(RequestsOf(f), DayLag, i),
               Shift(BytesOf(f), ShortLag, i), Shift(BytesOf(f), DayLag, i))
  }

  /** `feature_engineering`: one feature row per row of the frame, in the
      same order and keeping the row's columns; it needs `status_500`. */
  function FeatureEngineering(f: Frame): (r: Result<seq<FeatureRow>, FeatureError>)
    ensures r.Success? <==> 500 in f.groups
    ensures r.Success? ==> |r.value| == |f.buckets|
    ensures r.Success? ==> forall i :: 0 <= i < |f.buckets| ==>
      && r.value[i].bucket == f.buckets[i]
      && 0 <= r.value[i].hour < 24
      && 0 <= r.value[i].dayOfWeek < 7
      && (r.value[i].lagRequests1.Some? <==> i >= ShortLag)
      && (r.value[i].lagRequests288.Some? <==> i >= DayLag)
    ensures r.Success? ==> forall i :: 0 <= i < |f.buckets| ==>
      && r.value[i].hour == HourOf(f.buckets[i].start)
      && r.value[i].dayOfWeek == DayOfWeekOf(f.buckets[i].start)
      && r.value[i].ratio5xx == Ratio5xx(Cell(f.buckets[i].row, Status(500)), f.buckets[i].row.requests)
      && (r.value[i].isCrash <==> IsCrash(Cell(f.buckets[i].row, Status(500)), f.buckets[i].row.requests))
      && (r.value[i].isCrash <==> 5 * Cell(f.buckets[i].row, Status(500)) > f.buckets[i].row.requests)
  {
    if 500 !in f.groups then Failure(MissingStatus500)
    else Success(seq(|f.buckets|, i requires 0 <= i < |f.buckets| => FeaturesAt(f, i)))
  }

  // ---------------------------------------------------------------------
  // What the features mean
  // ---------------------------------------------------------------------

  /** With exact arithmetic the crash flag says that more than a fifth of
      the bucket's requests failed with a 5xx; the `1e-9` never tips it. */
  lemma IsCrashExact(errors: nat, requests: nat)
    ensures IsCrash(errors, requests) <==> 5 * errors > requests
  {
    var d := requests as real + Epsilon;
    assert d > 0.0;
    assert Ratio5xx(errors, requests) * d == errors as real;
    if 5 * errors > requests {
      assert (5 * errors) as real >= requests as real + 1.0;
      assert errors as real > CrashRatio * d;
    } else {
      assert (5 * errors) as real <= requests as real;
      assert errors as real <= CrashRatio * d;
    }
  }

  /** The 5xx ratio of a bucket whose 5xx count is at most its request
      count lies in [0, 1). */
  lemma RatioBounded(errors: nat, requests: nat)
    requires errors <= requests
    ensures 0.0 <= Ratio5xx(errors, requests) < 1.0
  {
    var d := requests as real + Epsilon;
    var r := Ratio5xx(errors, requests);
    assert r * d == errors as real;
    assert errors as real < d;
  }

  /** The lag features are the request and byte counts 1 and 288 rows
      earlier. */
  lemma LagsAreEarlierRows(f: Frame, i: nat)
    requires 500 in f.groups && i < |f.buckets|
    ensures var row := FeatureEngineering(f).value[i];
      && (i >= ShortLag ==>
            row.lagRequests1 == Some(f.buckets[i - 1].row.requests) &&
            row.lagBytes1 == Some(f.buckets[i - 1].row.bytes))
      && (i >= DayLag ==>
            row.lagRequests288 == Some(f.buckets[i - 288].row.requests) &&
            row.lagBytes288 == Some(f.buckets[i - 288].row.bytes))
      && (i < ShortLag ==> row.lagBytes1 == None)
      && (i < DayLag ==> row.lagBytes288 == None)
  {
    assert FeatureEngineering(f).value[i] == FeaturesAt(f, i);
  }

  // ---------------------------------------------------------------------
  // Calendar features of 5-minute buckets
  // ---------------------------------------------------------------------

  /** A 5-minute bucket lies inside one hour and one day: every minute of
      bucket B has the hour and weekday of the bucket's start. */
  lemma BucketCalendar(B: int, m: int)
    requires m / FiveMinutes == B
    ensures HourOf(m) == HourOf(B * FiveMinutes)
    ensures DayOfWeekOf(m) == DayOfWeekOf(B * FiveMinutes)
  {
    var r := m - B * 5;
    assert 0 <= r < 5 by {
      DivBounds(m, 5);
    }
    var qh, th := B / 12, B % 12;
    assert B == qh * 12 + th;
    assert B * 5 == qh * 60 + th * 5;
    assert m == qh * 60 + (th * 5 + r);
    DivOfSum(qh, th * 5, 60);
    DivOfSum(qh, th * 5 + r, 60);
    var qd, td := B / 288, B % 288;
    assert B == qd * 288 + td;
    assert B * 5 == qd * MinutesPerDay + td * 5;
    assert m == qd * MinutesPerDay + (td * 5 + r);
    DivOfSum(qd, td * 5, MinutesPerDay);
    DivOfSum(qd, td * 5 + r, MinutesPerDay);
  }

  /** In the frame of a gap-free 5-minute series, the row one back is the
      bucket five minutes earlier, and the row 288 back is the same time of
      day the day before: same hour, previous weekday. */
  lemma LagsOfGapFreeSeries(s: Series, i: nat)
    requires s.width == FiveMinutes && DayLag <= i < |s.rows|
    ensures var bs := FrameOf(s).buckets;
      && bs[i - 1].start == bs[i].start - FiveMinutes
      && bs[i - DayLag].start == bs[i].start - MinutesPerDay
      && HourOf(bs[i - DayLag].start) == HourOf(bs[i].start)
      && DayOfWeekOf(bs[i - DayLag].start) == (DayOfWeekOf(bs[i].start) + 6) % 7
  {
    var bs := FrameOf(s).buckets;
    var t := bs[i].start;
    assert t == (s.first + i) * 5;
    assert bs[i - DayLag].start == t - MinutesPerDay;
    var q := t / MinutesPerDay;
    var rem := t % MinutesPerDay;
    assert t == q * MinutesPerDay + rem;
    assert t - MinutesPerDay == (q - 1) * MinutesPerDay + rem;
    DivOfSum(q, rem, MinutesPerDay);
    DivOfSum(q - 1, rem, MinutesPerDay);
    var qh, th := rem / 60, rem % 60;
    assert rem == qh * 60 + th;
    assert t == (q * 24 + qh) * 60 + th;
    assert t - MinutesPerDay == ((q - 1) * 24 + qh) * 60 + th;
    DivOfSum(q * 24 + qh, th, 60);
    DivOfSum((q - 1) * 24 + qh, th, 60);
    assert qh < 24 by {
      DivBounds(rem, 60);
    }
    DivOfSum(q, qh, 24);
    DivOfSum(q - 1, qh, 24);
  }

  /** The hour and weekday features of a bucket of the 5-minute frame are
      those of every request in it. */
  lemma FeaturesMatchRecords(recs: seq<LogParser.Record>, i: int, s: Series, k: nat)
    requires s.width == FiveMinutes && k < |s.rows|
    requires 0 <= i < |recs| && BinOf(MinuteOfRecord(recs[i]), FiveMinutes) == s.first + k
    ensures HourOf(FrameOf(s).buckets[k].start) == HourOf(MinuteOfRecord(recs[i]))
    ensures DayOfWeekOf(FrameOf(s).buckets[k].start) == DayOfWeekOf(MinuteOfRecord(recs[i]))
  {
    BucketCalendar(s.first + k, MinuteOfRecord(recs[i]));
  }

  /** In every bucket of a directly bucketed frame the 5xx ratio lies in
      [0, 1). */
  lemma BucketRatioBounded(recs: seq<LogParser.Record>, w: nat, groups: seq<int>, k: nat)
    requires |recs| > 0 && w > 0 && 500 in groups
    requires k < |Bucketize(recs, w, groups).rows|
    ensures var row := Bucketize(recs, w, groups).rows[k];
      0.0 <= Ratio5xx(Cell(row, Status(500)), row.requests) < 1.0
  {
    var s := Bucketize(recs, w, groups);
    BucketizeRow(recs, w, groups, s.first + k);
    CellOfRow(recs, w, s.first + k, groups, Status(500));
    StatusAtMostRequests(recs, w, s.first + k, 500);
    RatioBounded(Cell(s.rows[k], Status(500)), s.rows[k].requests);
  }
}
