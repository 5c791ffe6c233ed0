/** The autoscaling simulation of app_dashboard.py: each bucket's forecast
    demand becomes a number of servers needed, and a fold with hysteresis
    turns the needs into the number of servers online, scaling up at once
    and scaling down only after a cooldown.

    The forecast and the safety margin are floating-point numbers in the
    dashboard; here they are exact `real`s. */
module Autoscaler {
  import opened Basics

  // ---------------------------------------------------------------------
  // Servers needed for one bucket
  // ---------------------------------------------------------------------

  /** The least integer not below x (`np.ceil`). */
  function Ceil(x: real): (c: int)
    ensures c as real >= x && (c - 1) as real < x
  {
    -((-x).Floor)
  }

  /** `pred * (1 + margin / 100)`: the forecast plus the safety buffer. */
  function SafeDemand(pred: real, margin: real): (d: real)
    ensures margin == 0.0 ==> d == pred
    ensures pred >= 0.0 && margin >= 0.0 ==> d >= pred
  {
    pred * (1.0 + margin / 100.0)
  }

  /** The requests k servers of the given capacity can take. */
  function Supply(k: int, capacity: int): real {
    k as real * capacity as real
  }

  /** Dividing by a zero capacity gives an infinite or undefined float,
      which `int(...)` refuses. */
  datatype ScaleError = ZeroCapacity

  /** `max(1, int(ceil(safe_demand / capacity)))`. */
  function ServersNeeded(pred: real, margin: real, capacity: int): (r: Result<int, ScaleError>)
    ensures r.Failure? <==> capacity == 0
    ensures r.Success? ==> r.value >= 1
    ensures r.Success? && capacity > 0 ==>
      && Supply(r.value, capacity) >= SafeDemand(pred, margin)
      && forall k: int :: 1 <= k < r.value ==> Supply(k, capacity) < SafeDemand(pred, margin)
  {
    if capacity == 0 then Failure(ZeroCapacity)
    else
      var c := Ceil(SafeDemand(pred, margin) / capacity as real);
      var n := if c >= 1 then c else 1;
      if capacity > 0 then
        LeastCover(SafeDemand(pred, margin), capacity, c, n);
        Success(n)
      else
        Success(n)
  }

  /** The ceiling of d / capacity is the least number of servers whose
      total capacity covers d. */
  lemma LeastCover(d: real, capacity: int, c: int, n: int)
    requires capacity > 0 && c == Ceil(d / capacity as real) && n == (if c >= 1 then c else 1)
    ensures Supply(n, capacity) >= d
    ensures forall k: int :: 1 <= k < n ==> Supply(k, capacity) < d
  {
    var cap := capacity as real;
    var q := d / cap;
    DivideBack(d, cap);
    ScaleLe(q, c as real, cap);
    ScaleLe(c as real, n as real, cap);
    assert Supply(n, capacity) == n as real * cap;
    forall k: int | 1 <= k < n
      ensures Supply(k, capacity) < d
    {
      FewerFallShort(k, c - 1, capacity, d);
    }
  }

  /** Servers fewer than the ceiling cannot cover the demand. */
  lemma FewerFallShort(k: int, m: int, capacity: int, d: real)
    requires capacity > 0 && k <= m && m as real < d / capacity as real
    ensures Supply(k, capacity) < d
  {
    var cap := capacity as real;
    DivideBack(d, cap);
    ScaleLe(k as real, m as real, cap);
    ScaleLt(m as real, d / cap, cap);
  }

  lemma DivideBack(d: real, z: real)
    requires z > 0.0
    ensures d / z * z == d
  {
  }

  lemma ScaleLe(x: real, y: real, z: real)
    requires x <= y && z > 0.0
    ensures x * z <= y * z
  {
  }

  lemma ScaleLt(x: real, y: real, z: real)
    requires x < y && z > 0.0
    ensures x * z < y * z
  {
  }

  /** The `servers_needed` column for a whole forecast. */
  function NeededAll(preds: seq<real>, margin: real, capacity: int): (r: Result<seq<int>, ScaleError>)
    ensures r.Failure? <==> capacity == 0 && |preds| > 0
    ensures r.Success? ==> |r.value| == |preds|
    ensures r.Success? ==> forall i :: 0 <= i < |preds| ==>
      ServersNeeded(preds[i], margin, capacity) == Success(r.value[i])
  {
    if capacity == 0 then
      if |preds| == 0 then Success([]) else Failure(ZeroCapacity)
    else
      Success(seq(|preds|, i requires 0 <= i < |preds| => ServersNeeded(preds[i], margin, capacity).value))
  }

  // ---------------------------------------------------------------------
  // The cooldown fold
  // ---------------------------------------------------------------------

  /** `(current_s, last_change)`: servers online and the bucket of the last
      accepted change. */
  datatype ScaleState = ScaleState(current: int, lastChange: int)

  /** One server and a `last_change` far in the past. */
  const Sentinel := -999
  const Initial := ScaleState(1, Sentinel)

  /** The dashboard's cooldown choices are minutes; a step is a 5-minute
      bucket (`cooldown // 5`). */
  function CooldownSteps(cooldown: nat): nat {
    cooldown / 5
  }

  /** The loop body for bucket i: a higher need is met at once; a lower
      need is met only if the last change is at least `steps` buckets
      back. */
  function Step(s: ScaleState, i: int, needed: int, steps: int): (r: ScaleState)
    ensures r.current >= needed
    ensures r == s || r == ScaleState(needed, i)
    ensures r.current < s.current ==> i - s.lastChange >= steps
  {
    if needed > s.current then ScaleState(needed, i)
    else if needed < s.current then
      if i - s.lastChange >= steps then ScaleState(needed, i) else s
    else s
  }

  /** The states after each bucket. */
  function Run(needed: seq<int>, steps: int): (states: seq<ScaleState>)
    ensures |states| == |needed|
    ensures forall i :: 0 <= i < |needed| ==> states[i].current >= needed[i]
    decreases |needed|
  {
    if |needed| == 0 then []
    else
      var before := Run(needed[..|needed| - 1], steps);
      before + [Step(Last(before), |needed| - 1, needed[|needed| - 1], steps)]
  }

  /** The state before the next bucket: the last one, or the initial one. */
  function Last(states: seq<ScaleState>): ScaleState {
    if |states| == 0 then Initial else states[|states| - 1]
  }

  /** The state before bucket i. */
  function Before(needed: seq<int>, steps: int, i: nat): ScaleState
    requires i <= |needed|
  {
    if i == 0 then Initial else Run(needed, steps)[i - 1]
  }

  /** `servers_final`: the servers online after each bucket. */
  function ServersOnline(needed: seq<int>, steps: int): (online: seq<int>)
    ensures |online| == |needed|
    ensures forall i :: 0 <= i < |needed| ==> online[i] >= needed[i]
  {
    var states := Run(needed, steps);
    seq(|states|, i requires 0 <= i < |states| => states[i].current)
  }

  /** A prefix of the run is the run of the prefix. */
  lemma {:induction false} RunPrefix(needed: seq<int>, steps: int, n: nat)
    requires n <= |needed|
    ensures Run(needed[..n], steps) == Run(needed, steps)[..n]
    decreases |needed|
  {
    if n < |needed| {
      var m := |needed| - 1;
      assert needed[..m][..n] == needed[..n];
      RunPrefix(needed[..m], steps, n);
    } else {
      assert needed[..n] == needed;
    }
  }

  /** Bucket i of the run is the step from the state before it. */
  lemma RunStep(needed: seq<int>, steps: int, i: nat)
    requires i < |needed|
    ensures Run(needed, steps)[i] == Step(Before(needed, steps, i), i, needed[i], steps)
  {
    RunPrefix(needed, steps, i + 1);
    if i > 0 {
      RunPrefix(needed, steps, i);
      assert needed[..i + 1][..i] == needed[..i];
    }
    assert needed[..i + 1][i] == needed[i];
  }

  // ---------------------------------------------------------------------
  // The simulation loop
  // ---------------------------------------------------------------------

  /** The dashboard's loop over the buckets, appending `current_s` after
      each one. */
  method SimulateServers(needed: seq<int>, steps: int) returns (online: seq<int>)
    ensures |online| == |needed|
    ensures forall i :: 0 <= i < |needed| ==> online[i] >= needed[i]
    ensures online == ServersOnline(needed, steps)
  {
    var current, lastChange := Initial.current, Initial.lastChange;
    online := [];
    var i := 0;
    while i < |needed|
      invariant 0 <= i <= |needed|
      invariant ScaleState(current, lastChange) == Before(needed, steps, i)
      invariant online == ServersOnline(needed, steps)[..i]
      invariant forall j :: 0 <= j < i ==> online[j] >= needed[j]
    {
      RunStep(needed, steps, i);
      OnlineCoversNeed(needed, steps, i);
      var need := needed[i];
      if need > current {
        current := need;
        lastChange := i;
      } else if need < current {
        if i - lastChange >= steps {
          current := need;
          lastChange := i;
        }
      }
      online := online + [current];
      i := i + 1;
    }
  }

  // ---------------------------------------------------------------------
  // Properties of the fold
  // ---------------------------------------------------------------------

  /** Whatever the cooldown, the servers online never fall below the need
      of their bucket. */
  lemma OnlineCoversNeed(needed: seq<int>, steps: int, i: nat)
    requires i < |needed|
    ensures ServersOnline(needed, steps)[i] >= needed[i]
  {
    RunStep(needed, steps, i);
  }

  /** So if every need is at least one server, so is every bucket. */
  lemma OnlineAtLeastOne(needed: seq<int>, steps: int)
    requires forall i :: 0 <= i < |needed| ==> needed[i] >= 1
    ensures forall i :: 0 <= i < |needed| ==> ServersOnline(needed, steps)[i] >= 1
  {
    forall i | 0 <= i < |needed|
      ensures ServersOnline(needed, steps)[i] >= 1
    {
      OnlineCoversNeed(needed, steps, i);
    }
  }

  /** Scale-up is never delayed: a need above the servers online is met in
      its own bucket, which becomes the last change. */
  lemma ScaleUpImmediate(needed: seq<int>, steps: int, i: nat)
    requires i < |needed| && needed[i] > Before(needed, steps, i).current
    ensures ServersOnline(needed, steps)[i] == needed[i]
    ensures Run(needed, steps)[i].lastChange == i
  {
    RunStep(needed, steps, i);
  }

  /** A lower need is met exactly when the last change is at least `steps`
      buckets back; otherwise nothing changes. */
  lemma ScaleDownCooldown(needed: seq<int>, steps: int, i: nat)
    requires i < |needed| && needed[i] < Before(needed, steps, i).current
    ensures var prev := Before(needed, steps, i);
      if i - prev.lastChange >= steps then Run(needed, steps)[i] == ScaleState(needed[i], i)
      else Run(needed, steps)[i] == prev
  {
    RunStep(needed, steps, i);
  }

  /** The servers online change at bucket i. */
  predicate ChangedAt(needed: seq<int>, steps: int, i: nat)
    requires i < |needed|
  {
    Run(needed, steps)[i].current != Before(needed, steps, i).current
  }

  /** `last_change` is the latest bucket at which the servers online
      changed, or the sentinel while there has been none. */
  lemma {:induction false} LastChangeIsLatest(needed: seq<int>, steps: int, i: nat)
    requires i < |needed|
    ensures var last := Run(needed, steps)[i].lastChange;
      && (last == Sentinel ==> forall j :: 0 <= j <= i ==> !ChangedAt(needed, steps, j))
      && (last != Sentinel ==>
            && 0 <= last <= i
            && ChangedAt(needed, steps, last)
            && forall j :: last < j <= i ==> !ChangedAt(needed, steps, j))
  {
    RunStep(needed, steps, i);
    if i > 0 {
      LastChangeIsLatest(needed, steps, i - 1);
    }
  }

  /** Accepted changes that lower the servers are at least `steps` buckets
      after the change before them. */
  lemma ScaleDownsSpaced(needed: seq<int>, steps: int, j: nat, i: nat)
    requires j < i < |needed|
    requires ChangedAt(needed, steps, j) && ChangedAt(needed, steps, i)
    requires forall k :: j < k < i ==> !ChangedAt(needed, steps, k)
    requires Run(needed, steps)[i].current < Before(needed, steps, i).current
    ensures i - j >= steps
  {
    RunStep(needed, steps, i);
    LastChangeIsLatest(needed, steps, i - 1);
  }

  /** With no change before it, a scale-down is accepted whenever the
      cooldown is at most 999 buckets: the sentinel never blocks it. */
  lemma SentinelNeverBlocks(needed: seq<int>, steps: int, i: nat)
    requires i < |needed| && steps <= 999
    requires forall j :: 0 <= j < i ==> !ChangedAt(needed, steps, j)
    requires needed[i] < Before(needed, steps, i).current
    ensures ServersOnline(needed, steps)[i] == needed[i]
  {
    RunStep(needed, steps, i);
    if i > 0 {
      LastChangeIsLatest(needed, steps, i - 1);
    }
  }

  /** With every need at least one server, the first change is a scale-up,
      so the sentinel is never even consulted. */
  lemma FirstChangeIsScaleUp(needed: seq<int>, steps: int, i: nat)
    requires i < |needed| && forall j :: 0 <= j < |needed| ==> needed[j] >= 1
    requires forall j :: 0 <= j < i ==> !ChangedAt(needed, steps, j)
    ensures Before(needed, steps, i) == Initial
    ensures needed[i] >= Before(needed, steps, i).current
  {
    if i > 0 {
      RunStep(needed, steps, i - 1);
      FirstChangeIsScaleUp(needed, steps, i - 1);
      assert !ChangedAt(needed, steps, i - 1);
    }
  }

  /** With a cooldown of at most one bucket (`cooldown` below 10 minutes),
      the servers online follow the need exactly. */
  lemma {:induction false} NoCooldownFollowsNeed(needed: seq<int>, steps: int, i: nat)
    requires steps <= 1 && i < |needed|
    ensures ServersOnline(needed, steps)[i] == needed[i]
    ensures Run(needed, steps)[i].lastChange <= i
  {
    RunStep(needed, steps, i);
    if i > 0 {
      NoCooldownFollowsNeed(needed, steps, i - 1);
    }
  }

  // ---------------------------------------------------------------------
  // The whole decision
  // ---------------------------------------------------------------------

  /** `servers_online` for a forecast, from the sidebar's capacity, margin
      and cooldown. */
  function Autoscale(preds: seq<real>, capacity: int, margin: real, cooldown: nat): (r: Result<seq<int>, ScaleError>)
    ensures r.Failure? <==> capacity == 0 && |preds| > 0
    ensures r.Success? ==> |r.value| == |preds|
  {
    var needed :- NeededAll(preds, margin, capacity);
    Success(ServersOnline(needed, CooldownSteps(cooldown)))
  }

  /** `system_capacity`: servers online times the capacity of one. */
  function SystemCapacity(online: seq<int>, capacity: int): (caps: seq<int>)
    ensures |caps| == |online|
    ensures forall i :: 0 <= i < |online| ==> caps[i] == online[i] * capacity
    ensures capacity >= 0 ==> forall i, j :: 0 <= i < |online| && 0 <= j < |online| && online[i] <= online[j] ==>
      caps[i] <= caps[j]
  {
    seq(|online|, i requires 0 <= i < |online| => online[i] * capacity)
  }

  /** Every bucket's capacity covers the bucket's forecast with its margin. */
  lemma CapacityCoversForecast(preds: seq<real>, capacity: int, margin: real, cooldown: nat, i: nat)
    requires capacity > 0 && i < |preds|
    ensures var caps := SystemCapacity(Autoscale(preds, capacity, margin, cooldown).value, capacity);
      caps[i] as real >= SafeDemand(preds[i], margin)
  {
    var needed := NeededAll(preds, margin, capacity).value;
    var steps := CooldownSteps(cooldown);
    OnlineCoversNeed(needed, steps, i);
    assert ServersNeeded(preds[i], margin, capacity) == Success(needed[i]);
    CoverMonotone(needed[i], ServersOnline(needed, steps)[i], capacity, SafeDemand(preds[i], margin));
  }

  /** More servers cover at least as much. */
  lemma CoverMonotone(n: int, m: int, capacity: int, d: real)
    requires capacity > 0 && n <= m && Supply(n, capacity) >= d
    ensures (m * capacity) as real >= d
  {
    ScaleLe(n as real, m as real, capacity as real);
  }

  /** An example at the dashboard's default settings: capacity 100, margin
      10 %, cooldown 15 minutes, and forecasts 80, 80, 250, 80, 80, 80, 80 give 1, 1, 3, 3, 3,
      1, 1 servers; the drop back to one waits three buckets after the
      scale-up. */
  lemma CooldownExample()
    ensures Autoscale([80.0, 80.0, 250.0, 80.0, 80.0, 80.0, 80.0], 100, 10.0, 15)
      == Success([1, 1, 3, 3, 3, 1, 1])
  {
    var preds := [80.0, 80.0, 250.0, 80.0, 80.0, 80.0, 80.0];
    assert ServersNeeded(80.0, 10.0, 100) == Success(1);
    assert ServersNeeded(250.0, 10.0, 100) == Success(3);
    var needed := [1, 1, 3, 1, 1, 1, 1];
    assert NeededAll(preds, 10.0, 100).value == needed;
    RunStep(needed, 3, 0);
    RunStep(needed, 3, 1);
    RunStep(needed, 3, 2);
    RunStep(needed, 3, 3);
    RunStep(needed, 3, 4);
    RunStep(needed, 3, 5);
    RunStep(needed, 3, 6);
    assert ServersOnline(needed, 3) == [1, 1, 3, 3, 3, 1, 1];
  }
}
