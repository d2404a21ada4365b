/** Link loads and network stability (`Link.computeLoad`, `Link.getUsage`,
    `Network.isStable`). */
module Loads {
  import opened Wrappers
  import opened Errors
  import opened Topology
  import opened Direction

  // ---------------------------------------------------------------------------
  // computeLoad
  // ---------------------------------------------------------------------------

  /** `flow.maxMessageSize / flow.period`, the mean rate one pair contributes. */
  function Rate(f: Flow): (r: Result<real, Fault>)
    ensures f.period == 0.0 <==> r == Err(DivisionByZero)
    ensures r.Ok? ==> r.value * f.period == f.maxMessageSize
  {
    if f.period == 0.0 then Err(DivisionByZero) else Ok(f.maxMessageSize / f.period)
  }

  /** What one (flow, target) pair adds to `result`: nothing unless the target
      crosses the link; for a crossing pair the mode's test decides, and any
      other mode than "direct" or "inverse" raises. */
  function LoadStep(l: Link, f: Flow, t: Target, mode: string): (r: Result<real, Fault>)
    ensures !Crosses(l, t) ==> r == Ok(0.0)
    ensures Crosses(l, t) && mode != "direct" && mode != "inverse" ==> r == Err(InvalidMode)
  {
    if !Crosses(l, t) then Ok(0.0)
    else if mode == "direct" then
      var d :- IsDirect(t, l.start, l.end);
      if d then Rate(f) else Ok(0.0)
    else if mode == "inverse" then
      var d :- IsDirect(t, l.start, l.end);
      if !d then Rate(f) else Ok(0.0)
    else Err(InvalidMode)
  }

  /** The inner loop over one flow's targets from k on. */
  function LoadTargets(l: Link, f: Flow, k: nat, acc: real, mode: string): Result<real, Fault>
    decreases |f.targets| - k
  {
    if k >= |f.targets| then Ok(acc)
    else
      var x :- LoadStep(l, f, f.targets[k], mode);
      LoadTargets(l, f, k + 1, acc + x, mode)
  }

  /** The outer loop over the link's flows from i on. */
  function LoadFlows(net: Topology, l: LinkId, i: nat, acc: real, mode: string): Result<real, Fault>
    requires Valid(net) && l < |net.links|
    decreases |net.links[l].flows| - i
  {
    var fs := net.links[l].flows;
    if i >= |fs| then Ok(acc)
    else
      assert LinkValid(net, net.links[l]);
      var acc' :- LoadTargets(net.links[l], net.flows[fs[i]], 0, acc, mode);
      LoadFlows(net, l, i + 1, acc', mode)
  }

  /** `Link.computeLoad(mode)`. */
  function Load(net: Topology, l: LinkId, mode: string): Result<real, Fault>
    requires Valid(net) && l < |net.links|
  {
    LoadFlows(net, l, 0, 0.0, mode)
  }

  /** `computeLoad` as written: two nested accumulator loops. */
  method ComputeLoad(net: Topology, l: LinkId, mode: string) returns (r: Result<real, Fault>)
    requires Valid(net) && l < |net.links|
    ensures r == Load(net, l, mode)
  {
    assert LinkValid(net, net.links[l]);
    var link := net.links[l];
    var result := 0.0;
    var i := 0;
    while i < |link.flows|
      invariant 0 <= i <= |link.flows|
      invariant LoadFlows(net, l, i, result, mode) == Load(net, l, mode)
    {
      var flow := net.flows[link.flows[i]];
      var k := 0;
      var inner := result;
      while k < |flow.targets|
        invariant 0 <= k <= |flow.targets|
        invariant LoadTargets(link, flow, k, inner, mode) == LoadTargets(link, flow, 0, result, mode)
      {
        var x := LoadStep(link, flow, flow.targets[k], mode);
        if x.Err? {
          return Err(x.error);
        }
        inner := inner + x.value;
        k := k + 1;
      }
      result := inner;
      i := i + 1;
    }
    return Ok(result);
  }

  /** Some target of some flow of the link crosses it. */
  predicate AnyCrossing(net: Topology, l: LinkId)
    requires Valid(net) && l < |net.links|
  {
    exists i, k :: 0 <= i < |net.links[l].flows| && net.links[l].flows[i] < |net.flows| &&
                   0 <= k < |net.flows[net.links[l].flows[i]].targets| &&
                   Crosses(net.links[l], net.flows[net.links[l].flows[i]].targets[k])
  }

  lemma {:induction false} InvalidTargets(l: Link, f: Flow, k: nat, acc: real, mode: string)
    requires mode != "direct" && mode != "inverse"
    ensures LoadTargets(l, f, k, acc, mode) ==
              if exists j :: k <= j < |f.targets| && Crosses(l, f.targets[j]) then Err(InvalidMode) else Ok(acc)
    decreases |f.targets| - k
  {
    if k < |f.targets| {
      InvalidTargets(l, f, k + 1, acc + 0.0, mode);
    }
  }

  lemma {:induction false} InvalidFlows(net: Topology, l: LinkId, i: nat, mode: string)
    requires Valid(net) && l < |net.links| && mode != "direct" && mode != "inverse"
    ensures var fs := net.links[l].flows;
            LoadFlows(net, l, i, 0.0, mode) ==
              if exists j, k :: i <= j < |fs| && fs[j] < |net.flows| && 0 <= k < |net.flows[fs[j]].targets| &&
                                Crosses(net.links[l], net.flows[fs[j]].targets[k])
              then Err(InvalidMode) else Ok(0.0)
    decreases |net.links[l].flows| - i
  {
    var fs := net.links[l].flows;
    assert LinkValid(net, net.links[l]);
    if i < |fs| {
      InvalidTargets(net.links[l], net.flows[fs[i]], 0, 0.0, mode);
      InvalidFlows(net, l, i + 1, mode);
    }
  }

  /** An unknown mode raises exactly when some target crosses the link, and
      otherwise the load is 0. */
  lemma LoadInvalidMode(net: Topology, l: LinkId, mode: string)
    requires Valid(net) && l < |net.links| && mode != "direct" && mode != "inverse"
    ensures Load(net, l, mode) == if AnyCrossing(net, l) then Err(InvalidMode) else Ok(0.0)
  {
    InvalidFlows(net, l, 0, mode);
  }

  /** The rate of every crossing pair, whatever its direction. */
  function CrossStep(l: Link, f: Flow, t: Target): Result<real, Fault>
  {
    if Crosses(l, t) then Rate(f) else Ok(0.0)
  }

  function CrossTargets(l: Link, f: Flow, k: nat, acc: real): Result<real, Fault>
    decreases |f.targets| - k
  {
    if k >= |f.targets| then Ok(acc)
    else
      var x :- CrossStep(l, f, f.targets[k]);
      CrossTargets(l, f, k + 1, acc + x)
  }

  function CrossFlows(net: Topology, l: LinkId, i: nat, acc: real): Result<real, Fault>
    requires Valid(net) && l < |net.links|
    decreases |net.links[l].flows| - i
  {
    var fs := net.links[l].flows;
    if i >= |fs| then Ok(acc)
    else
      assert LinkValid(net, net.links[l]);
      var acc' :- CrossTargets(net.links[l], net.flows[fs[i]], 0, acc);
      CrossFlows(net, l, i + 1, acc')
  }

  /** The summed rate of all pairs crossing the link, in either direction. */
  function TotalLoad(net: Topology, l: LinkId): Result<real, Fault>
    requires Valid(net) && l < |net.links|
  {
    CrossFlows(net, l, 0, 0.0)
  }

  lemma {:induction false} SplitTargets(l: Link, f: Flow, k: nat, x: real, y: real)
    ensures var d := LoadTargets(l, f, k, x, "direct");
            var v := LoadTargets(l, f, k, y, "inverse");
            d.Ok? && v.Ok? ==> CrossTargets(l, f, k, x + y) == Ok(d.value + v.value)
    decreases |f.targets| - k
  {
    if k < |f.targets| {
      var t := f.targets[k];
      var d := LoadStep(l, f, t, "direct");
      var v := LoadStep(l, f, t, "inverse");
      if d.Ok? && v.Ok? {
        SplitTargets(l, f, k + 1, x + d.value, y + v.value);
        assert CrossStep(l, f, t).Ok? && CrossStep(l, f, t).value == d.value + v.value;
        assert x + d.value + (y + v.value) == x + y + CrossStep(l, f, t).value;
      }
    }
  }

  lemma {:induction false} SplitFlows(net: Topology, l: LinkId, i: nat, x: real, y: real)
    requires Valid(net) && l < |net.links|
    ensures var d := LoadFlows(net, l, i, x, "direct");
            var v := LoadFlows(net, l, i, y, "inverse");
            d.Ok? && v.Ok? ==> CrossFlows(net, l, i, x + y) == Ok(d.value + v.value)
    decreases |net.links[l].flows| - i
  {
    var fs := net.links[l].flows;
    assert LinkValid(net, net.links[l]);
    if i < |fs| {
      var f := net.flows[fs[i]];
      var d := LoadTargets(net.links[l], f, 0, x, "direct");
      var v := LoadTargets(net.links[l], f, 0, y, "inverse");
      if d.Ok? && v.Ok? {
        SplitTargets(net.links[l], f, 0, x, y);
        SplitFlows(net, l, i + 1, d.value, v.value);
      }
    }
  }

  /** Each crossing pair counts in exactly one of the two modes, so when both
      loads are defined they add up to the load of every crossing pair. */
  lemma DirectPlusInverse(net: Topology, l: LinkId)
    requires Valid(net) && l < |net.links|
    ensures var d := Load(net, l, "direct");
            var v := Load(net, l, "inverse");
            d.Ok? && v.Ok? ==> TotalLoad(net, l) == Ok(d.value + v.value)
  {
    SplitFlows(net, l, 0, 0.0, 0.0);
  }

  lemma {:induction false} TargetsNonNegative(l: Link, f: Flow, k: nat, acc: real, mode: string)
    requires f.maxMessageSize >= 0.0 && f.period > 0.0 && acc >= 0.0
    ensures LoadTargets(l, f, k, acc, mode).Ok? ==> LoadTargets(l, f, k, acc, mode).value >= acc
    decreases |f.targets| - k
  {
    if k < |f.targets| {
      var x := LoadStep(l, f, f.targets[k], mode);
      if x.Ok? {
        assert x.value >= 0.0 by {
          if x.value != 0.0 {
            assert x.value * f.period == f.maxMessageSize;
          }
        }
        TargetsNonNegative(l, f, k + 1, acc + x.value, mode);
      }
    }
  }

  lemma {:induction false} FlowsNonNegative(net: Topology, l: LinkId, i: nat, acc: real, mode: string)
    requires Valid(net) && l < |net.links| && acc >= 0.0
    requires forall f :: 0 <= f < |net.flows| ==> net.flows[f].maxMessageSize >= 0.0 && net.flows[f].period > 0.0
    ensures LoadFlows(net, l, i, acc, mode).Ok? ==> LoadFlows(net, l, i, acc, mode).value >= acc
    decreases |net.links[l].flows| - i
  {
    var fs := net.links[l].flows;
    assert LinkValid(net, net.links[l]);
    if i < |fs| {
      var inner := LoadTargets(net.links[l], net.flows[fs[i]], 0, acc, mode);
      TargetsNonNegative(net.links[l], net.flows[fs[i]], 0, acc, mode);
      if inner.Ok? {
        FlowsNonNegative(net, l, i + 1, inner.value, mode);
      }
    }
  }

  /** With positive periods and non-negative message sizes a load is never
      negative. */
  lemma LoadNonNegative(net: Topology, l: LinkId, mode: string)
    requires Valid(net) && l < |net.links|
    requires forall f :: 0 <= f < |net.flows| ==> net.flows[f].maxMessageSize >= 0.0 && net.flows[f].period > 0.0
    ensures Load(net, l, mode).Ok? ==> Load(net, l, mode).value >= 0.0
  {
    FlowsNonNegative(net, l, 0, 0.0, mode);
  }

  /** `Link.getUsage(mode)`: the load as a fraction of the link capacity. */
  function Usage(net: Topology, l: LinkId, mode: string): (r: Result<real, Fault>)
    requires Valid(net) && l < |net.links|
    ensures Load(net, l, mode).Err? ==> r == Err(Load(net, l, mode).error)
    ensures Load(net, l, mode).Ok? && net.links[l].capacity == 0.0 ==> r == Err(DivisionByZero)
    ensures r.Ok? ==> Load(net, l, mode).Ok? && r.value * net.links[l].capacity == Load(net, l, mode).value
  {
    var load :- Load(net, l, mode);
    if net.links[l].capacity == 0.0 then Err(DivisionByZero) else Ok(load / net.links[l].capacity)
  }

  // ---------------------------------------------------------------------------
  // isStable
  // ---------------------------------------------------------------------------

  /** The sum of the nominal arrival slopes of flows fs[i..], added to acc. */
  function SlopeFrom(net: Topology, fs: seq<FlowId>, i: nat, acc: real): Result<real, Fault>
    requires Valid(net) && forall k :: 0 <= k < |fs| ==> fs[k] < |net.flows|
    decreases |fs| - i
  {
    if i >= |fs| then Ok(acc)
    else
      assert FlowValid(net, fs[i]);
      var a :- NominalArrival(net, net.flows[fs[i]]);
      SlopeFrom(net, fs, i + 1, acc + a.m)
  }

  /** The arrival accumulated for one link by `isStable`. */
  function LinkArrival(net: Topology, l: LinkId): Result<real, Fault>
    requires Valid(net) && l < |net.links|
  {
    assert LinkValid(net, net.links[l]);
    SlopeFrom(net, net.links[l].flows, 0, 0.0)
  }

  /** The loop of `isStable` over links i onward; it never stops early, so a
      later link can still raise after an unstable one. */
  function StableFrom(net: Topology, i: nat, stable: bool): Result<bool, Fault>
    requires Valid(net)
    decreases |net.links| - i
  {
    if i >= |net.links| then Ok(stable)
    else
      var arrival :- LinkArrival(net, i);
      StableFrom(net, i + 1, if arrival > net.links[i].capacity then false else stable)
  }

  /** `Network.isStable`. */
  function Stable(net: Topology): Result<bool, Fault>
    requires Valid(net)
  {
    StableFrom(net, 0, true)
  }

  lemma {:induction false} StableFromSpec(net: Topology, i: nat, stable: bool)
    requires Valid(net) && i <= |net.links|
    ensures StableFrom(net, i, stable).Ok? <==> forall l :: i <= l < |net.links| ==> LinkArrival(net, l).Ok?
    ensures StableFrom(net, i, stable).Ok? ==>
              (StableFrom(net, i, stable).value <==>
                 stable && forall l :: i <= l < |net.links| ==> LinkArrival(net, l).value <= net.links[l].capacity)
    decreases |net.links| - i
  {
    if i < |net.links| {
      var arrival := LinkArrival(net, i);
      if arrival.Ok? {
        StableFromSpec(net, i + 1, if arrival.value > net.links[i].capacity then false else stable);
      }
    }
  }

  /** `isStable` answers exactly when every link's arrival slope sum is
      defined, and answers true exactly when none of them exceeds the link's
      capacity (equality is still stable). */
  lemma StableSpec(net: Topology)
    requires Valid(net)
    ensures Stable(net).Ok? <==> forall l :: 0 <= l < |net.links| ==> LinkArrival(net, l).Ok?
    ensures Stable(net).Ok? ==>
              (Stable(net).value <==> forall l :: 0 <= l < |net.links| ==> LinkArrival(net, l).value <= net.links[l].capacity)
  {
    StableFromSpec(net, 0, true);
  }

  lemma {:induction false} SlopeFromSpec(net: Topology, fs: seq<FlowId>, i: nat, acc: real)
    requires Valid(net) && forall k :: 0 <= k < |fs| ==> fs[k] < |net.flows|
    requires i <= |fs|
    ensures SlopeFrom(net, fs, i, acc).Ok? <==>
              forall k :: i <= k < |fs| ==> net.flows[fs[k]].period - net.flows[fs[k]].jitter != 0.0
    ensures SlopeFrom(net, fs, i, acc).Ok? ==>
              SlopeFrom(net, fs, i, acc).value == acc + SlopeSum(net, fs[i..])
    decreases |fs| - i
  {
    if i < |fs| {
      assert FlowValid(net, fs[i]);
      var a := NominalArrival(net, net.flows[fs[i]]);
      if a.Ok? {
        SlopeFromSpec(net, fs, i + 1, acc + a.value.m);
        assert fs[i..][1..] == fs[i + 1..];
      }
    }
  }

  /** The sum of `maxMessageSize / (period - jitter)` over the flows. */
  function SlopeSum(net: Topology, fs: seq<FlowId>): real
    requires forall k :: 0 <= k < |fs| ==> fs[k] < |net.flows|
  {
    if fs == [] then 0.0
    else
      var f := net.flows[fs[0]];
      (if f.period - f.jitter == 0.0 then 0.0 else f.maxMessageSize / (f.period - f.jitter)) + SlopeSum(net, fs[1..])
  }

  /** The arrival `isStable` compares with a link's capacity is the sum of the
      slopes `maxMessageSize / (period - jitter)` of the flows registered on
      the link, and it is defined unless one of them has period == jitter. */
  lemma LinkArrivalSpec(net: Topology, l: LinkId)
    requires Valid(net) && l < |net.links|
    ensures var fs := net.links[l].flows;
            (LinkArrival(net, l).Ok? <==> forall k :: 0 <= k < |fs| ==> net.flows[fs[k]].period != net.flows[fs[k]].jitter) &&
            (LinkArrival(net, l).Ok? ==> LinkArrival(net, l).value == SlopeSum(net, fs))
  {
    assert LinkValid(net, net.links[l]);
    SlopeFromSpec(net, net.links[l].flows, 0, 0.0);
    assert net.links[l].flows[0..] == net.links[l].flows;
  }
}
