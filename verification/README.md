# NASA access-log autoscaling pipeline — a Dafny model

This project models the deterministic core of a load-forecasting and
autoscaling prototype built on NASA HTTP access logs:

- **Loading a log** (`load_log`, auto_scaling.py). Lines are matched against
  `LOG_PATTERN`, and the lines that do not match are skipped. The status and
  byte count are read as numbers (a non-numeric byte count such as `-`
  becomes 0). The `%d/%b/%Y:%H:%M:%S %z` time field is converted, and the
  records are ordered by instant.
- **Bucketing** (`aggregate_per_minute`, `add_status_features`). A gap-free
  1-minute series is built with `requests`, `bytes` and one `status_<g>`
  count per hundreds class of status codes. `process_log_to_5m`
  (main_pipeline.py) re-aggregates it into 5-minute buckets with sum rules.
  Those rules name `status_200` and `status_500` explicitly and add every
  other status column.
- **Features** (`feature_engineering`). Each 5-minute bucket gets:
  - its hour and weekday;
  - the 5xx ratio and crash flag;
  - the request and byte counts one bucket and one day (288 buckets)
    earlier.
- **Autoscaler** (app_dashboard.py). It computes:
  - servers needed from a forecast, a safety margin and a per-server
    capacity;
  - the scale-up-now / scale-down-after-cooldown fold that gives the servers
    online;
  - the system capacity.
- **Dashboard figures**: the overloaded buckets, the uptime percentage and
  the "flapping" figure.

Modules, one per file:

| file | module | models |
|---|---|---|
| basics.dfy | `Basics` | Option/Result, decimal digits, range sums, filter-map |
| civil_time.dfy | `CivilTime` | the timestamp format, the proleptic Gregorian calendar, local minute / hour / weekday |
| log_parser.dfy | `LogParser` | `LOG_PATTERN` as a recogniser of maximal runs, `load_log` |
| aggregation.dfy | `Aggregation` | 1-minute and 5-minute bucketing, status columns, `process_log_to_5m` |
| features.dfy | `Features` | `feature_engineering` |
| autoscaler.dfy | `Autoscaler` | servers needed, the cooldown fold, system capacity |
| metrics.dfy | `Metrics` | overload, uptime, flapping |

A bucket of width `w` minutes is identified by its bin number `b`, which
covers local wall-clock minutes `b*w .. b*w+w-1`. pandas starts resample
bins at local midnight, and for a width that divides a day (1 and 5) that is
the same as numbering bins from the local epoch. A `Series` is a gap-free
run of such buckets: empty buckets between the first and the last occupied
one are rows of zeros, as `fillna(0)` leaves them. Where the Python raises,
the model returns a `Failure` that names the reason.

Behaviour worth knowing:

- With forecasts `[80,80,250,80,80,80,80]`, capacity 100, margin 10 % and a
  15-minute cooldown, the code gives `[1,1,3,3,3,1,1]`. The scale-down
  happens at step 5, three steps after the scale-up at step 2, since
  `5 - 2 >= 15 // 5`. See `Autoscaler.CooldownExample`.
- `\d{3}` admits any three digits, so a status runs from 0 to 999 and not
  only from 100 to 599.
- `load_log` keeps no count of dropped lines. The model proves instead that
  a non-matching line does not change the result.

## Model

| member | source | states |
|---|---|---|
| CivilTime.ParseCivil | auto_scaling.py:33-36 | a time field is accepted only as a real calendar date, a real wall-clock time and an offset below 24 h, within pandas' nanosecond timestamp range |
| CivilTime.CivilRoundTrip | auto_scaling.py:33-36 | every valid timestamp in the nanosecond range, written in the `%d/%b/%Y:%H:%M:%S %z` format, parses back to itself |
| CivilTime.NanosecondRangeEnds | auto_scaling.py:33-36 | the accepted range runs from 1677-09-21 00:12:44 to 2262-04-11 23:47:16 wall-clock time, and the seconds just outside it are rejected |
| CivilTime.MonthNameIsFound | auto_scaling.py:35 | each of the twelve `%b` month abbreviations is read as its own month |
| CivilTime.NextDateIsNextDay | auto_scaling.py:33-36 | the day count advances by exactly one from each date to the next, across month ends, year ends and leap days |
| CivilTime.HourOf | main_pipeline.py:44 | the hour feature always lies in 0..23 |
| CivilTime.DayOfWeekOf | main_pipeline.py:45 | the weekday feature always lies in 0..6 |
| CivilTime.CalendarFeaturesOfStamp | main_pipeline.py:44-45 | a parsed timestamp's hour is the hour written in the log, and its weekday is that of its date (Monday = 0) |
| CivilTime.ExampleDate | main_pipeline.py:45 | 23 Aug 1995 is day 9365 after 1 Jan 1970 and a Wednesday (weekday 2) |
| LogParser.ScanLayout | auto_scaling.py:9-14 | a line laid out as the pattern's fields and separators is split back into exactly those fields |
| LogParser.ScanSound | auto_scaling.py:9-14 | whatever the scanner splits off is the pattern's fields and separators, in order, followed by the unread rest |
| LogParser.RecogniseSound | auto_scaling.py:9-14 | a recognised line is the pattern's layout of its groups, followed by nothing or by whitespace |
| LogParser.RecogniseLayout | auto_scaling.py:9-14 | any well-formed groups, laid out and followed by nothing or whitespace, are recognised as those groups |
| LogParser.Recognise | auto_scaling.py:22 | a line the pattern recognises yields groups of the pattern's shape: non-space host, method and path, a bracket-free time, a quote-free protocol, a three-digit status and a non-space byte token |
| LogParser.MatchLine | auto_scaling.py:22-28 | a matched line's status code is three digits, so below 1000 |
| LogParser.MatchLineSound | auto_scaling.py:22-28 | a line yields an entry only if it is the pattern's layout of well-formed groups, and the entry is read from those groups |
| LogParser.MatchLineComplete | auto_scaling.py:22-28 | every line with the pattern's layout is matched, and it yields the entry of its groups |
| LogParser.MatchLineBytes | auto_scaling.py:28 | a well-formed line always matches; a digit-only `bytes` token is read as its decimal value, and any other token (such as `-`) as 0 |
| LogParser.EntryRoundTrip | auto_scaling.py:26-28 | a renderable entry, written as a log line, is matched back to itself (host, time, method, path, protocol, status, bytes) |
| LogParser.MatchAll | auto_scaling.py:21-29 | at most one entry per line; every matching line's entry is kept, and every kept entry comes from a matching line |
| LogParser.MatchAllAppend | auto_scaling.py:21-29 | the entries of two runs of lines are the entries of each run, concatenated |
| LogParser.SkippedLineIsDropped | auto_scaling.py:22-24 | a line the pattern rejects contributes nothing, wherever it stands |
| LogParser.ToRecords | auto_scaling.py:33-36 | the time conversion succeeds iff every time field parses, keeps one record per entry in order, and otherwise fails with a bad timestamp |
| LogParser.SortByInstant | auto_scaling.py:39 | the records are ordered by instant and are a permutation of the input |
| LogParser.LoadEntries | auto_scaling.py:31-39 | loading succeeds iff some line matched, every time parsed and the offsets agree; the result is sorted and a permutation of the converted records |
| LogParser.LoadLog | auto_scaling.py:16-44 | a loaded log has one record per matching line, at least one, ordered by instant; it fails with "no rows" iff no line matches |
| LogParser.LoadIgnoresSkippedLine | auto_scaling.py:21-24 | inserting a non-matching line anywhere does not change what `load_log` returns |
| Aggregation.StatusGroupOf | auto_scaling.py:66 | the status class is a multiple of 100 and is the hundred the status lies in |
| Aggregation.RequestsCountRecords | auto_scaling.py:52-53 | a bucket's request count is the number of records whose minute falls in it |
| Aggregation.ColumnTotals | auto_scaling.py:52-54 | over a whole log the request column counts the records, the byte column sums their bytes, and `status_<g>` counts the records of class g |
| Aggregation.MinutesInSpan | auto_scaling.py:52 | every record's minute lies between the earliest and the latest minute of the log |
| Aggregation.SpanIsAttained | auto_scaling.py:52 | the earliest and latest minutes are those of actual records |
| Aggregation.InsertGroupIncreasing | auto_scaling.py:68-72 | adding a status class to an increasing list of classes keeps it increasing |
| Aggregation.GroupsOf | auto_scaling.py:68-75 | the `status_<g>` columns are the classes present in the log, each once, in increasing order |
| Aggregation.Bucketize | auto_scaling.py:52-57 | the direct bucketing runs from the earliest record's bin to the latest record's, with the given width and status columns |
| Aggregation.AggregatePerMinute | auto_scaling.py:51-57 | the per-minute frame runs from the earliest record's minute to the latest's, with no status columns yet |
| Aggregation.AddStatusFeatures | auto_scaling.py:64-79 | the frame keeps its minutes, requests and bytes, and gains exactly one `status_<g>` column per class present in the log, in increasing order, with a cell in every row |
| Aggregation.StatusColumnsAreBucketize | auto_scaling.py:64-79 | joining the status counts onto the per-minute frame gives the 1-minute bucketing with those status columns (by construction from the same bin totals) |
| Aggregation.PerMinuteIsBucketize | auto_scaling.py:51-79 | `aggregate_per_minute` followed by `add_status_features` is the 1-minute bucketing of the records with one column per status class present (by construction from the same bin totals) |
| Aggregation.BucketizeCovers | auto_scaling.py:52-57 | every record's bucket lies inside the series |
| Aggregation.BucketizeEndsOccupied | auto_scaling.py:52 | the first and the last bucket of the series each hold at least one request |
| Aggregation.BucketizeConserves | auto_scaling.py:52-57 | summed over the series, each column equals its total over the records, so no request, byte or status is lost or counted twice |
| Aggregation.StatusAtMostRequests | auto_scaling.py:66-77 | no status count of a bucket exceeds its request count |
| Aggregation.BucketStatusPartition | auto_scaling.py:66-77 | in every bucket the `status_<g>` counts add up to the request count |
| Aggregation.OutputGroupsListed | main_pipeline.py:28-35 | the 5-minute rules cover exactly `status_200`, `status_500` and the status columns present |
| Aggregation.Reaggregate | main_pipeline.py:28-37 | re-aggregation succeeds iff `status_200` and `status_500` exist; otherwise it fails naming the first missing one; on success it has 5-minute buckets starting at the first minute's bucket |
| Aggregation.BucketMinutes | main_pipeline.py:37 | minute m falls in bucket B of width w iff B*w <= m < B*w + w |
| Aggregation.BinSumIsWindow | main_pipeline.py:37 | a coarse bucket's sum is the sum of the fine cells over its w minutes |
| Aggregation.ReaggregateSums | main_pipeline.py:37 | every cell of a re-aggregated row is the sum of that column over the row's w one-minute rows |
| Aggregation.ReaggregateCovers | main_pipeline.py:37 | every minute of the fine series lies in a bucket of the coarse one |
| Aggregation.FineToCoarse | main_pipeline.py:37 | summing the per-minute counts of a coarse bucket's minutes gives the count of records in the coarse bucket |
| Aggregation.ReaggregateBucketize | main_pipeline.py:37 | re-aggregating the 1-minute bucketing gives exactly the direct bucketing at width w |
| Aggregation.FiveMinuteSeries | main_pipeline.py:23-37 | the 5-minute frame exists iff the log has 2xx and 5xx responses, otherwise it names the missing column; it starts at the earliest minute's 5-minute bucket with `status_200`, `status_500` and then the other classes |
| Aggregation.FiveMinuteIsBucketize | main_pipeline.py:23-37 | the 5-minute frame exists iff the log has both 2xx and 5xx responses, and then it equals the direct 5-minute bucketing of the records |
| Aggregation.FiveMinuteConserves | main_pipeline.py:23-37 | the 5-minute frame holds every record, every byte and every status of the loaded log |
| Aggregation.ProcessLogTo5m | main_pipeline.py:17-38 | a load failure propagates unchanged; after a load, the result exists iff the log has 2xx and 5xx responses, and it is then the direct 5-minute bucketing of the loaded records |
| Aggregation.ProcessLogCountsEveryLine | main_pipeline.py:23-37 | the 5-minute frame's requests total the matching lines, and its bytes total the loaded bytes |
| Features.FeaturesAt | main_pipeline.py:43-56 | a bucket's row holds the hour and weekday of its start, its 5xx ratio, a crash flag set iff 5xx responses are more than a fifth of its requests, and the counts 1 and 288 rows earlier, present exactly when such rows exist |
| Features.FeatureEngineering | main_pipeline.py:40-58 | succeeds iff `status_500` exists; one feature row per bucket, in order, with the hour and weekday of the bucket's start, its 5xx ratio and crash flag, and lags present exactly from row 1 and from row 288 |
| Features.IsCrashExact | main_pipeline.py:46-47 | a bucket counts as a crash iff more than a fifth of its requests are 5xx |
| Features.RatioBounded | main_pipeline.py:46 | the 5xx ratio lies in [0, 1) when the 5xx count is at most the request count |
| Features.BucketRatioBounded | main_pipeline.py:46 | in every bucket of a bucketed log the 5xx ratio lies in [0, 1) |
| Features.LagsAreEarlierRows | main_pipeline.py:50-56 | the lag features are the request and byte counts 1 and 288 rows earlier, and missing before that |
| Features.BucketCalendar | main_pipeline.py:44-45 | every minute of a 5-minute bucket has the hour and weekday of the bucket's start |
| Features.LagsOfGapFreeSeries | main_pipeline.py:50-51 | in a gap-free 5-minute frame the 288-row lag is the same hour on the previous weekday, and the 1-row lag starts 5 minutes earlier |
| Features.FeaturesMatchRecords | main_pipeline.py:44-45 | a bucket's hour and weekday are those of every request in it |
| Autoscaler.SafeDemand | app_dashboard.py:51 | the forecast scaled up by the margin: equal to it at 0 % and never below it for non-negative inputs |
| Autoscaler.Ceil | app_dashboard.py:52 | `np.ceil`: the least integer not below its argument |
| Autoscaler.ServersNeeded | app_dashboard.py:51-53 | fails iff the capacity is zero; otherwise it is the fewest servers, and at least one, whose capacity covers the forecast plus margin |
| Autoscaler.LeastCover | app_dashboard.py:52-53 | `max(1, ceil(demand / capacity))` servers cover the demand, and every smaller positive count falls short |
| Autoscaler.NeededAll | app_dashboard.py:51-53 | the per-bucket servers needed, one per forecast, failing iff the capacity is zero and there is a bucket |
| Autoscaler.Step | app_dashboard.py:62-70 | one decision either keeps the state or moves to exactly the servers needed, stamping the change; the count never ends below the need, and it drops only once the cooldown has passed |
| Autoscaler.Run | app_dashboard.py:56-70 | one state per bucket, each with at least the servers that bucket needs |
| Autoscaler.ServersOnline | app_dashboard.py:56-72 | one server count per bucket, never below the servers needed |
| Autoscaler.RunStep | app_dashboard.py:61-70 | each state of the fold is one scaling decision applied to the state before it |
| Autoscaler.SimulateServers | app_dashboard.py:56-72 | the loop yields one server count per bucket, never below what is needed, equal to the fold's result |
| Autoscaler.OnlineCoversNeed | app_dashboard.py:61-70 | the servers online never fall below the servers needed |
| Autoscaler.OnlineAtLeastOne | app_dashboard.py:53-70 | with at least one server needed everywhere, at least one is online everywhere |
| Autoscaler.ScaleUpImmediate | app_dashboard.py:63-65 | a rise in need is met in the same bucket and resets the cooldown clock |
| Autoscaler.ScaleDownCooldown | app_dashboard.py:66-69 | a fall in need is followed only once the cooldown has elapsed since the last change; otherwise the state is kept |
| Autoscaler.LastChangeIsLatest | app_dashboard.py:57-69 | `last_change` is the latest bucket where the server count changed, or the sentinel when none has |
| Autoscaler.ScaleDownsSpaced | app_dashboard.py:66-69 | a scale-down comes at least the cooldown after the previous change |
| Autoscaler.SentinelNeverBlocks | app_dashboard.py:58-67 | before any change, a scale-down is never held back by the -999 sentinel for cooldowns up to 999 steps |
| Autoscaler.FirstChangeIsScaleUp | app_dashboard.py:57-66 | with at least one server needed everywhere, the first change is never a scale-down |
| Autoscaler.NoCooldownFollowsNeed | app_dashboard.py:59-70 | with a cooldown below two steps, the servers online equal the servers needed |
| Autoscaler.Autoscale | app_dashboard.py:51-72 | the simulated run fails iff the capacity is zero and the frame is not empty, and otherwise gives one count per bucket |
| Autoscaler.SystemCapacity | app_dashboard.py:73 | one capacity per bucket, the servers online times the per-server capacity, so more servers never mean less capacity |
| Autoscaler.CapacityCoversForecast | app_dashboard.py:51-73 | in every bucket the system capacity covers the forecast plus margin, whatever the cooldown |
| Autoscaler.CooldownExample | app_dashboard.py:56-70 | forecasts 80,80,250,80,80,80,80 at capacity 100, 10 % margin and a 15-minute cooldown give servers 1,1,3,3,3,1,1 |
| Metrics.Overloaded | app_dashboard.py:104 | the overloaded buckets are exactly those whose requests exceed the capacity, in increasing order |
| Metrics.OverloadCount | app_dashboard.py:123 | the overload count is at most the number of buckets |
| Metrics.OverloadCountIsSetSize | app_dashboard.py:104 | the overload count is the number of buckets whose requests exceed the capacity |
| Metrics.Uptime | app_dashboard.py:123-125 | fails iff the frame is empty; otherwise it lies in [0, 100] and is 100 iff no bucket is overloaded |
| Metrics.UptimeRange | app_dashboard.py:125 | the uptime formula lies in [0, 100] and equals 100 iff the overload count is 0 |
| Metrics.NoOverloadIffZero | app_dashboard.py:104 | the overload count is 0 iff every bucket's requests are within its capacity |
| Metrics.Flapping | app_dashboard.py:127 | the total distance the server count travels, which is at least the number of times the count changes |
| Metrics.FlappingZeroIffConstant | app_dashboard.py:127 | the flapping figure is 0 iff the server count never changes |
| Metrics.FlappingAtLeastNet | app_dashboard.py:127 | the flapping figure is at least the net change from the first to the last bucket |
| Metrics.FlappingSplit | app_dashboard.py:127 | the flapping figure of a run is the sum of the figures of its two halves, split at any bucket |
| Metrics.ForecastHeldMeansFullUptime | app_dashboard.py:51-125 | when no bucket's actual requests exceed the forecast plus margin, the simulated run reports 100 % uptime, whatever the cooldown |

## Left out

- The Streamlit user interface, the charts, the cost figure and reading of
  the prediction CSV are left out. So are model training (gradient boosting,
  the train/test split and evaluation in main_pipeline.py) and api.py. None
  of them carries logic the core depends on.
- File I/O: a log is given as its sequence of lines. The missing-file branch
  of `process_log_to_5m` (which prints and returns None) is left out. The
  `errors="ignore"` decoding is left out too, since strings are sequences of
  characters.
- The joining of two logs' frames in the main script is left out. The
  feature code is stated over a `Frame` that may have gaps, as the joined
  frame can.
- Floating point is left out: forecasts, margins, ratios and uptime are exact
  reals. Rounding in `ratio_5xx` and uptime, and `inf`/NaN from a zero
  capacity (which the model turns into a failure), are not modelled.
- LogParser.ToRecords: accepts only the fixed 26-character form
  `dd/Mon/yyyy:HH:MM:SS +hhmm`. `strptime` also accepts one-digit days and
  hours and a few other variants that NASA logs never use.
- LogParser.LoadEntries: reports mixed UTC offsets as a failure. pandas
  would convert them to an object column and fail later at `resample`. The
  model does not reproduce that later point or its message.
- LogParser.MatchLine: accepts only ASCII digits as the status. On a str
  pattern Python's `\d` and `int()` also accept the other Unicode decimal
  digits, which NASA logs do not contain.
- CivilTime.ParseCivil: bounds the wall-clock time by pandas' nanosecond
  range. Near either end pandas also rejects the few hours where only the
  conversion to UTC leaves the range; those hours are not modelled.
- LogParser.MatchLineBytes: treats only ASCII digits as digits. Python's
  `str.isdigit` also accepts other Unicode digit characters, which NASA logs
  do not contain.
- LogParser.SortByInstant: puts records with the same instant in one fixed
  order, while pandas' default sort promises no order for ties. Every later
  step counts or sums records within a minute, so the order of ties does
  not matter.
- Aggregation.Reaggregate: reports only the first missing column of the two
  the rules name, not pandas' full KeyError text.
- Aggregation.Reaggregate: requires the bucket width to divide a day. That
  holds for 5 minutes, and it is what makes the bins counted from the epoch
  agree with pandas' midnight origin.
- Autoscaler.Autoscale: `cooldown` is a natural number. The selectbox
  offers 0, 5, 15, 30 or 60 minutes, so negative cooldowns are not modelled.
- The `int()` truncation of `servers_needed` is the identity after `np.ceil`,
  so it is not written out.
- Metrics.Uptime: treats the capacity column as integers: servers times an
  integer capacity per server, as the integer `number_input` gives. Zero
  and negative capacities are possible there and are kept in the model.
