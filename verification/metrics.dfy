/** The service figures the dashboard reports for a simulated run: the
    buckets where the actual requests exceed the capacity online, the
    uptime percentage, and the "flapping" figure of the server count. */
module Metrics {
  import opened Basics
  import opened Autoscaler

  // ---------------------------------------------------------------------
  // Overload
  // ---------------------------------------------------------------------

  /** The positions of the `overload` frame: buckets whose requests exceed
      the system capacity. */
  function Overloaded(requests: seq<int>, caps: seq<int>): (idx: seq<nat>)
    requires |requests| == |caps|
    ensures forall k :: 0 <= k < |idx| ==> idx[k] < |requests| && requests[idx[k]] > caps[idx[k]]
    ensures forall i :: 0 <= i < |requests| && requests[i] > caps[i] ==> i in idx
    ensures forall k, l :: 0 <= k < l < |idx| ==> idx[k] < idx[l]
    decreases |requests|
  {
    if |requests| == 0 then []
    else
      var n := |requests| - 1;
      var before := Overloaded(requests[..n], caps[..n]);
      if requests[n] > caps[n] then before + [n] else before
  }

  /** `len(overload)`. */
  function OverloadCount(requests: seq<int>, caps: seq<int>): (c: nat)
    requires |requests| == |caps|
    ensures c <= |requests|
  {
    var idx := Overloaded(requests, caps);
    IncreasingBelow(idx, |requests|);
    |idx|
  }

  /** An increasing sequence of naturals below n has at most n elements. */
  lemma {:induction false} IncreasingBelow(idx: seq<nat>, n: nat)
    requires forall k :: 0 <= k < |idx| ==> idx[k] < n
    requires forall k, l :: 0 <= k < l < |idx| ==> idx[k] < idx[l]
    ensures |idx| <= n
  {
    if |idx| > 0 {
      var last := idx[|idx| - 1];
      IncreasingBelow(idx[..|idx| - 1], last);
    }
  }

  /** The overload count is the number of overloaded buckets. */
  lemma OverloadCountIsSetSize(requests: seq<int>, caps: seq<int>)
    requires |requests| == |caps|
    ensures OverloadCount(requests, caps) == |set i | 0 <= i < |requests| && requests[i] > caps[i]|
  {
    var idx := Overloaded(requests, caps);
    var over := set i | 0 <= i < |requests| && requests[i] > caps[i];
    assert over == set k | 0 <= k < |idx| :: idx[k];
    DistinctImageSize(idx);
  }

  /** The elements of a strictly increasing sequence are as many as its
      positions. */
  lemma {:induction false} DistinctImageSize(idx: seq<nat>)
    requires forall k, l :: 0 <= k < l < |idx| ==> idx[k] < idx[l]
    ensures |set k | 0 <= k < |idx| :: idx[k]| == |idx|
  {
    if |idx| > 0 {
      var m := |idx| - 1;
      var front := idx[..m];
      DistinctImageSize(front);
      var before := set k | 0 <= k < m :: front[k];
      var all := set k | 0 <= k < |idx| :: idx[k];
      assert all == before + {idx[m]};
      assert idx[m] !in before;
    }
  }

  // ---------------------------------------------------------------------
  // Uptime
  // ---------------------------------------------------------------------

  /** `overload_count / total_reqs` divides by zero on an empty frame. */
  datatype MetricError = EmptyFrame

  /** `100 - (overload_count / total_reqs * 100)`. */
  function Uptime(requests: seq<int>, caps: seq<int>): (r: Result<real, MetricError>)
    requires |requests| == |caps|
    ensures r.Failure? <==> |requests| == 0
    ensures r.Success? ==> 0.0 <= r.value <= 100.0
    ensures r.Success? ==> (r.value == 100.0 <==> forall i :: 0 <= i < |requests| ==> requests[i] <= caps[i])
  {
    if |requests| == 0 then Failure(EmptyFrame)
    else
      var c := OverloadCount(requests, caps);
      UptimeRange(c, |requests|);
      NoOverloadIffZero(requests, caps);
      Success(Percent(c, |requests|))
  }

  /** `100 - c / n * 100`. */
  function Percent(c: nat, n: nat): real
    requires n > 0
  {
    100.0 - c as real / n as real * 100.0
  }

  lemma UptimeRange(c: nat, n: nat)
    requires 0 < n && c <= n
    ensures 0.0 <= Percent(c, n) <= 100.0
    ensures Percent(c, n) == 100.0 <==> c == 0
  {
    var f := c as real / n as real;
    assert f * n as real == c as real;
    assert f <= 1.0;
    if c > 0 {
      assert f > 0.0;
    }
  }

  lemma NoOverloadIffZero(requests: seq<int>, caps: seq<int>)
    requires |requests| == |caps|
    ensures OverloadCount(requests, caps) == 0 <==> forall i :: 0 <= i < |requests| ==> requests[i] <= caps[i]
  {
    var idx := Overloaded(requests, caps);
    if |idx| > 0 {
      assert requests[idx[0]] > caps[idx[0]];
    }
  }

  // ---------------------------------------------------------------------
  // Flapping
  // ---------------------------------------------------------------------

  function Abs(x: int): nat {
    if x < 0 then -x else x
  }

  /** `np.sum(np.abs(np.diff(servers_online)))`: the total distance the
      server count travels, not the number of times it changes; every
      change moves the count by at least one server, so the figure is at
      least the number of changes. */
  function Flapping(online: seq<int>): (f: nat)
    ensures f >= Changes(online)
  {
    if |online| < 2 then 0
    else Flapping(online[..|online| - 1]) + Abs(online[|online| - 1] - online[|online| - 2])
  }

  /** The number of buckets whose server count differs from the previous
      bucket's. */
  function Changes(online: seq<int>): nat {
    if |online| < 2 then 0
    else Changes(online[..|online| - 1]) + (if online[|online| - 1] != online[|online| - 2] then 1 else 0)
  }

  predicate Constant(online: seq<int>) {
    forall i :: 0 <= i < |online| ==> online[i] == online[0]
  }

  /** The flapping figure is zero exactly when the server count never
      changes. */
  lemma {:induction false} FlappingZeroIffConstant(online: seq<int>)
    ensures Flapping(online) == 0 <==> Constant(online)
  {
    if |online| >= 2 {
      var front := online[..|online| - 1];
      FlappingZeroIffConstant(front);
      if Constant(online) {
        assert Constant(front);
      }
      if Flapping(online) == 0 {
        assert forall i :: 0 <= i < |front| ==> online[i] == front[i];
      }
    }
  }

  /** The count travels at least the net distance from the first bucket to
      the last. */
  lemma {:induction false} FlappingAtLeastNet(online: seq<int>)
    requires |online| > 0
    ensures Flapping(online) >= Abs(online[|online| - 1] - online[0])
  {
    if |online| >= 2 {
      var front := online[..|online| - 1];
      FlappingAtLeastNet(front);
      assert front[0] == online[0];
    }
  }

  /** A change in the middle adds to the figure of what came before: the
      figure over a run split at bucket k is the sum of both halves. */
  lemma {:induction false} FlappingSplit(online: seq<int>, k: nat)
    requires 0 < k <= |online|
    ensures Flapping(online) == Flapping(online[..k]) + Flapping(online[k - 1..])
    decreases |online|
  {
    if |online| > k {
      var front := online[..|online| - 1];
      FlappingSplit(front, k);
      assert front[..k] == online[..k];
      var tail := online[k - 1..];
      assert tail[..|tail| - 1] == front[k - 1..];
    } else {
      assert online[..k] == online;
      assert |online[k - 1..]| == 1;
    }
  }

  // ---------------------------------------------------------------------
  // The simulated run
  // ---------------------------------------------------------------------

  /** When no bucket's actual requests exceed its forecast with the safety
      margin, the simulated run has no overload and reports 100 % uptime,
      whatever the cooldown. */
  lemma ForecastHeldMeansFullUptime(preds: seq<real>, requests: seq<int>, capacity: int, margin: real, cooldown: nat)
    requires capacity > 0 && |requests| == |preds| > 0
    requires forall i :: 0 <= i < |preds| ==> requests[i] as real <= SafeDemand(preds[i], margin)
    ensures var caps := SystemCapacity(Autoscale(preds, capacity, margin, cooldown).value, capacity);
      Uptime(requests, caps) == Success(100.0)
  {
    var caps := SystemCapacity(Autoscale(preds, capacity, margin, cooldown).value, capacity);
    forall i | 0 <= i < |requests|
      ensures requests[i] <= caps[i]
    {
      CapacityCoversForecast(preds, capacity, margin, cooldown, i);
    }
  }
}
