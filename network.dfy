/** The state an analysis works on (Classes.py, class Network, together with
    the per-node tables of class Node): the arena, and the per-node, per-link
    delay, aggregate-arrival and backlog tables that the bound engine fills
    lazily. Every method is proved equal to the function of the same
    computation in Topology, Loads or Engine. */
module Analysis {
  import opened Wrappers
  import opened Errors
  import opened Curves
  import opened Utils
  import opened Topology
  import Arena = Topology
  import opened Direction
  import Loads
  import opened Engine

  /** The tables `initializeNodes` leaves: one uncomputed cell for every link
      at either end of which a node sits, and nothing else. */
  ghost predicate Initialised(net: Topology, c: Cache)
  {
    (forall a: NodeId, b: LinkId :: (a, b) in c <==> a < |net.nodes| && b in GetLinks(net, a)) &&
    forall k :: k in c ==> c[k] == None
  }

  // The outcome of each engine function, named so that the methods' contracts
  // and loop invariants can refer to it.

  /** `WorstService` from tables c returns r and leaves c'. */
  predicate ServiceGives(net: Topology, chk: bool, c: Cache, node: NodeId, t: Target, fuel: nat,
                         r: Result<AffineCurve, Fault>, c': Cache)
    requires Valid(net) && TargetValid(net, t) && node < |net.nodes|
  {
    WorstService(net, chk, c, node, t, fuel) == Out(r, c')
  }

  // Single steps of the engine functions, one per branch the methods take.

  lemma WorstServiceEarly(net: Topology, chk: bool, c: Cache, node: NodeId, t: Target, fuel: nat)
    requires Valid(net) && TargetValid(net, t) && node < |net.nodes|
    ensures FindOutgoingLink(net, t, node).Err? ==>
              ServiceGives(net, chk, c, node, t, fuel, Err(FindOutgoingLink(net, t, node).error), c)
    ensures FindOutgoingLink(net, t, node) == Ok(None) ==> ServiceGives(net, chk, c, node, t, fuel, Err(NoConnectingLink), c)
  {
  }

  lemma WorstServiceFrom(net: Topology, chk: bool, c: Cache, node: NodeId, t: Target, l: LinkId, fuel: nat,
                         sf: Out<(AffineCurve, real)>)
    requires Valid(net) && TargetValid(net, t) && node < |net.nodes|
    requires FindOutgoingLink(net, t, node) == Ok(Some(l)) && l < |net.links|
    requires forall k :: 0 <= k < |net.links[l].flows| ==> net.links[l].flows[k] < |net.flows|
    requires FoldReaches(net, chk, c, node, t, net.links[l].flows, 0, ServiceAffine(net.nodes[node]), 0.0, fuel, sf)
    ensures ServiceGives(net, chk, c, node, t, fuel,
                         if sf.res.Err? then Err(sf.res.error)
                         else if net.nodes[node].capacity == 0.0 then Err(DivisionByZero)
                         else Ok(Penalise(sf.res.value.0, sf.res.value.1, net.nodes[node].capacity)),
                         sf.cache)
  {
  }

  /** The branches of `Hop` before either aggregation starts. */
  lemma HopEarly(net: Topology, chk: bool, c: Cache, node: NodeId, t: Target, fuel: nat)
    requires Valid(net) && TargetValid(net, t) && node < |net.nodes|
    ensures var ol := FindOutgoingLink(net, t, node);
            (ol.Err? ==> HopGives(net, chk, c, node, t, fuel, Err(ol.error), c)) &&
            (ol.Ok? && (ol.value.None? || (node, ol.value.value) !in c) ==>
               HopGives(net, chk, c, node, t, fuel, Err(MissingCacheEntry), c)) &&
            (ol.Ok? && ol.value.Some? && (node, ol.value.value) in c && SameDirectionFlows(net, ol.value.value, t).Err? ==>
               HopGives(net, chk, c, node, t, fuel, Err(SameDirectionFlows(net, ol.value.value, t).error), c))
  {
  }

  /** At the source, `Hop` is the nominal aggregation followed by `Finish`. */
  lemma HopSource(net: Topology, chk: bool, c: Cache, t: Target, l: LinkId, fuel: nat,
                  r: Result<HopResult, Fault>, c': Cache)
    requires Valid(net) && TargetValid(net, t)
    requires FindOutgoingLink(net, t, t.source) == Ok(Some(l)) && (t.source, l) in c
    requires SameDirectionFlows(net, l, t).Ok?
    ensures var agg := SourceAggregate(net, SameDirectionFlows(net, l, t).value, t.parent, 0, None, Zero);
            (agg.Err? ==> HopGives(net, chk, c, t.source, t, fuel, Err(agg.error), c)) &&
            (agg.Ok? && FinishGives(net, chk, c, t.source, t, l, DelayKnown(c[(t.source, l)]), agg.value.0, 0.0, agg.value.1,
                                    fuel, r, c') ==>
               HopGives(net, chk, c, t.source, t, fuel, r, c'))
  {
  }

  /** Away from the source, `Hop` is `Aggregate` from the first flow. */
  lemma HopAway(net: Topology, chk: bool, c: Cache, node: NodeId, t: Target, l: LinkId, fuel: nat, goal: Out<HopResult>)
    requires Valid(net) && TargetValid(net, t) && node < |net.nodes| && node != t.source
    requires FindOutgoingLink(net, t, node) == Ok(Some(l)) && (node, l) in c
    requires SameDirectionFlows(net, l, t).Ok?
    requires AggregateReaches(net, chk, c, node, t, l, DelayKnown(c[(node, l)]), SameDirectionFlows(net, l, t).value, 0,
                              None, 0.0, Zero, fuel, goal)
    ensures HopGives(net, chk, c, node, t, fuel, goal.res, goal.cache)
  {
  }

  /** `Target.hasPath()`: walks `[source] + path`, registering the target's
      flow on the first link that joins each consecutive pair, and answers
      whether every pair was joined and the path ends at the destination. The
      links are taken and given back as values: the new list is the one the
      network is built on. */
  method HasPath(links: seq<Link>, t: Target) returns (r: Result<bool, Fault>, links': seq<Link>)
    ensures (r, links') == Arena.HasPath(links, t)
  {
    links' := links;
    var src := t.source;
    var flag := true;
    var i := 0;
    while i < |t.path|
      invariant 0 <= i <= |t.path| && flag
      invariant HasPathFrom(links', t, src, i) == Arena.HasPath(links, t)
    {
      var j := 0;
      while j < |links'|
        invariant 0 <= j <= |links'|
        invariant ConnectingFrom(links', src, t.path[i], 0) == ConnectingFrom(links', src, t.path[i], j)
        invariant flag <==> j == 0
      {
        if ConnectsSystems(links'[j], src, t.path[i]) {
          links' := links'[j := Register(links'[j], t.parent)];
          flag := true;
          break;
        }
        flag := false;
        j := j + 1;
      }
      if !flag {
        return Ok(false), links';
      }
      src := t.path[i];
      i := i + 1;
    }
    if |t.path| == 0 {
      return Err(EmptyPath), links';
    }
    r := Ok(t.path[|t.path| - 1] == t.dest);
  }

  /** What the aggregation loop has gathered so far: the query flow's own
      arrival curve (once met), its delay up to this node and the sum of the
      arrival curves of all the flows seen. */
  datatype Partial = Partial(arrival: Option<AffineCurve>, delay: real, total: AffineCurve)

  class Network {
    const topo: Topology
    var cache: Cache
    /** The global `checkStability` flag of Utils.py. */
    const checkStability: bool

    /** The arena is well formed. */
    predicate Valid()
    {
      Arena.Valid(topo)
    }

    /** A network whose nodes have not been initialised yet: every table
        lookup is a KeyError. */
    constructor (net: Topology, checkStability: bool)
      requires Arena.Valid(net)
      ensures Valid() && topo == net && cache == map[] && this.checkStability == checkStability
    {
      topo := net;
      cache := map[];
      this.checkStability := checkStability;
    }

    /** `Network.initializeNodes()`: every node's `initAllDicts`, which
        replaces the node's three tables with one uncomputed cell per link of
        the node. */
    method InitializeNodes()
      requires Valid()
      modifies this`cache
      ensures Initialised(topo, cache)
    {
      var tables: Cache := map[];
      var n := 0;
      while n < |topo.nodes|
        invariant 0 <= n <= |topo.nodes|
        invariant forall a: NodeId, b: LinkId :: (a, b) in tables <==> a < n && b in GetLinks(topo, a)
        invariant forall k :: k in tables ==> tables[k] == None
      {
        var links := GetLinks(topo, n);
        var j := 0;
        while j < |links|
          invariant 0 <= j <= |links|
          invariant forall a: NodeId, b: LinkId :: (a, b) in tables <==>
                      (a < n && b in GetLinks(topo, a)) || (a == n && b in links[..j])
          invariant forall k :: k in tables ==> tables[k] == None
        {
          assert links[..j + 1] == links[..j] + [links[j]];
          tables := tables[(n, links[j]) := None];
          j := j + 1;
        }
        assert links[..|links|] == links;
        n := n + 1;
      }
      cache := tables;
    }

    /** `Node.getWorstCaseService(target)` at `node`. */
    method GetWorstCaseService(node: NodeId, t: Target, fuel: nat) returns (r: Result<AffineCurve, Fault>)
      requires Valid() && TargetValid(topo, t) && node < |topo.nodes|
      modifies this`cache
      decreases fuel, 2
      ensures ServiceGives(topo, checkStability, old(cache), node, t, fuel, r, cache)
    {
      var ol := FindOutgoingLink(topo, t, node);
      WorstServiceEarly(topo, checkStability, cache, node, t, fuel);
      if ol.Err? {
        return Err(ol.error);
      }
      if ol.value.None? {
        return Err(NoConnectingLink);
      }
      ghost var c0 := cache;
      var sf := ServiceLoop(node, t, ol.value.value, fuel);
      WorstServiceFrom(topo, checkStability, c0, node, t, ol.value.value, fuel, Out(sf, cache));
      if sf.Err? {
        return Err(sf.error);
      }
      if topo.nodes[node].capacity == 0.0 {
        return Err(DivisionByZero);
      }
      r := Ok(Penalise(sf.value.0, sf.value.1, topo.nodes[node].capacity));
    }

    /** The loop of `getWorstCaseService` over every flow of link l: the
        output arrival of each strictly higher-priority flow at its previous
        node is subtracted from the service curve, and a store-and-forward
        switch keeps the largest message of the other flows. */
    method ServiceLoop(node: NodeId, t: Target, l: LinkId, fuel: nat) returns (r: Result<(AffineCurve, real), Fault>)
      requires Valid() && TargetValid(topo, t) && node < |topo.nodes| && l < |topo.links|
      modifies this`cache
      decreases fuel, 1
      ensures LinkValid(topo, topo.links[l])
      ensures FoldReaches(topo, checkStability, old(cache), node, t, topo.links[l].flows, 0,
                          ServiceAffine(topo.nodes[node]), 0.0, fuel, Out(r, cache))
    {
      var service := ServiceAffine(topo.nodes[node]);
      var flows := topo.links[l].flows;
      assert LinkValid(topo, topo.links[l]);
      ghost var goal := ServiceFold(topo, checkStability, cache, node, t, flows, 0, service, 0.0, fuel);
      var maximumMsgSize := 0.0;
      var i := 0;
      while i < |flows|
        invariant 0 <= i <= |flows|
        invariant FoldReaches(topo, checkStability, cache, node, t, flows, i, service, maximumMsgSize, fuel, goal)
      {
        var flow := flows[i];
        if topo.flows[flow].priority > topo.flows[t.parent].priority {
          ServiceFoldHigher(topo, checkStability, cache, node, t, flows, i, service, maximumMsgSize, fuel, goal);
          var up := Upstream(topo, flow, node);
          if up.Err? {
            return Err(up.error);
          }
          if fuel == 0 {
            return Err(OutOfFuel);
          }
          var reduced := ServiceHigher(node, t, flows, i, up.value.0, up.value.1, service, maximumMsgSize, fuel, goal);
          if reduced.Err? {
            return Err(reduced.error);
          }
          service := reduced.value;
        } else {
          ServiceFoldLower(topo, checkStability, cache, node, t, flows, i, service, maximumMsgSize, fuel, goal);
        }
        maximumMsgSize := NextMax(topo, node, t, flow, maximumMsgSize);
        i := i + 1;
      }
      r := Ok((service, maximumMsgSize));
    }

    /** A flow of higher priority than the target's, with its upstream hop
        known: its arrival curve at this node, computed by the recursive
        analysis, is taken from the service. */
    method ServiceHigher(node: NodeId, t: Target, flows: seq<FlowId>, i: nat, previous: NodeId, upstream: Target,
                         service: AffineCurve, maxMsg: real, fuel: nat, ghost goal: Out<(AffineCurve, real)>)
      returns (r: Result<AffineCurve, Fault>)
      requires Valid() && TargetValid(topo, t) && node < |topo.nodes|
      requires forall k :: 0 <= k < |flows| ==> flows[k] < |topo.flows|
      requires i < |flows| && topo.flows[flows[i]].priority > topo.flows[t.parent].priority
      requires Upstream(topo, flows[i], node) == Ok((previous, upstream)) && fuel > 0
      requires FoldReaches(topo, checkStability, cache, node, t, flows, i, service, maxMsg, fuel, goal)
      modifies this`cache
      decreases fuel, 0
      ensures r.Err? ==> goal == Out(Err(r.error), cache)
      ensures r.Ok? ==> FoldReaches(topo, checkStability, cache, node, t, flows, i + 1, r.value,
                                    NextMax(topo, node, t, flows[i], maxMsg), fuel, goal)
    {
      ghost var before := cache;
      var other := ComputeTargetArrivalAffine(previous, upstream, fuel - 1);
      if other.Err? {
        ServiceFoldHopFails(topo, checkStability, before, node, t, flows, i, service, maxMsg, fuel, goal,
                            previous, upstream, other.error, cache);
        return Err(other.error);
      }
      var arrival := other.value.outputArrival;
      var reduced := AffineCurve(service.m - arrival.m, service.n - arrival.n);
      ServiceFoldHopGoes(topo, checkStability, before, node, t, flows, i, service, maxMsg, fuel, goal,
                         previous, upstream, other.value, cache, reduced);
      r := Ok(reduced);
    }

    method ComputeTargetArrivalAffine(node: NodeId, t: Target, fuel: nat) returns (r: Result<HopResult, Fault>)
      requires Valid() && TargetValid(topo, t) && node < |topo.nodes|
      modifies this`cache
      decreases fuel, 6
      ensures HopGives(topo, checkStability, old(cache), node, t, fuel, r, cache)
    {
      var ol := FindOutgoingLink(topo, t, node);
      HopEarly(topo, checkStability, cache, node, t, fuel);
      if ol.Err? {
        return Err(ol.error);
      }
      if ol.value.None? || (node, ol.value.value) !in cache {
        return Err(MissingCacheEntry);
      }
      var link := ol.value.value;
      var linkDelayCalculated := DelayKnown(cache[(node, link)]);
      var fs := SameDirectionFlows(topo, link, t);
      if fs.Err? {
        return Err(fs.error);
      }
      var flows := fs.value;
      ghost var c0 := cache;
      if node == t.source {
        var totalArrival := Zero;
        var arrival: Option<AffineCurve> := None;
        var i := 0;
        while i < |flows|
          invariant 0 <= i <= |flows|
          invariant SourceAggregate(topo, flows, t.parent, i, arrival, totalArrival) ==
                    SourceAggregate(topo, flows, t.parent, 0, None, Zero)
        {
          assert FlowValid(topo, flows[i]);
          var temp := NominalArrival(topo, topo.flows[flows[i]]);
          if temp.Err? {
            HopSource(topo, checkStability, c0, t, link, fuel, Err(temp.error), cache);
            return Err(temp.error);
          }
          if flows[i] == t.parent {
            arrival := Some(temp.value);
          }
          totalArrival := Add(totalArrival, temp.value);
          i := i + 1;
        }
        r := FinishHop(node, t, link, linkDelayCalculated, arrival, 0.0, totalArrival, fuel);
        HopSource(topo, checkStability, c0, t, link, fuel, r, cache);
      } else {
        ghost var goal := Aggregate(topo, checkStability, c0, node, t, link, linkDelayCalculated, flows, 0, None, 0.0, Zero, fuel);
        var agg := AggregateLoop(node, t, link, linkDelayCalculated, flows, fuel, goal);
        HopAway(topo, checkStability, c0, node, t, link, fuel, goal);
        if agg.Err? {
          return Err(agg.error);
        }
        r := FinishHop(node, t, link, linkDelayCalculated, agg.value.arrival, agg.value.delay, agg.value.total, fuel);
      }
    }

    /** The loop of `computeTargetArrivalAffine` away from the source: the
        output arrival of every same-direction flow at its previous node is
        recomputed, unless the hop is cached and the flow is not the query
        flow, and summed into the aggregate arrival; the query flow's becomes
        the input arrival and its accumulated delay the prior delay. */
    method AggregateLoop(node: NodeId, t: Target, l: LinkId, known: bool, flows: seq<FlowId>, fuel: nat,
                         ghost goal: Out<HopResult>)
      returns (r: Result<Partial, Fault>)
      requires Valid() && TargetValid(topo, t) && node < |topo.nodes| && l < |topo.links|
      requires forall k :: 0 <= k < |flows| ==> flows[k] < |topo.flows|
      requires (node, l) in cache && (known ==> DelayKnown(cache[(node, l)]))
      requires AggregateReaches(topo, checkStability, cache, node, t, l, known, flows, 0, None, 0.0, Zero, fuel, goal)
      modifies this`cache
      decreases fuel, 5
      ensures r.Ok? ==> (node, l) in cache && (known ==> DelayKnown(cache[(node, l)]))
      ensures r.Err? ==> goal == Out(Err(r.error), cache)
      ensures r.Ok? ==> FinishGives(topo, checkStability, cache, node, t, l, known, r.value.arrival, r.value.delay, r.value.total,
                                    fuel, goal.res, goal.cache)
    {
      var totalArrival := Zero;
      var totalDelay := 0.0;
      var arrival: Option<AffineCurve> := None;
      var i := 0;
      while i < |flows|
        invariant 0 <= i <= |flows|
        invariant (node, l) in cache && (known ==> DelayKnown(cache[(node, l)]))
        invariant AggregateReaches(topo, checkStability, cache, node, t, l, known, flows, i,
                                   arrival, totalDelay, totalArrival, fuel, goal)
      {
        AggregateUpstream(topo, checkStability, cache, node, t, l, known, flows, i, arrival, totalDelay, totalArrival, fuel, goal);
        var up := Upstream(topo, flows[i], node);
        if up.Err? {
          return Err(up.error);
        }
        if !known || flows[i] == t.parent {
          if fuel == 0 {
            return Err(OutOfFuel);
          }
          var step := AggregateFlow(node, t, l, known, flows, i, up.value.0, up.value.1,
                                    arrival, totalDelay, totalArrival, fuel, goal);
          if step.Err? {
            return Err(step.error);
          }
          arrival, totalDelay, totalArrival := step.value.arrival, step.value.delay, step.value.total;
        }
        i := i + 1;
      }
      AggregateEnd(topo, checkStability, cache, node, t, l, known, flows, arrival, totalDelay, totalArrival, fuel, goal);
      r := Ok(Partial(arrival, totalDelay, totalArrival));
    }

    /** A flow whose arrival curve at this node is needed: the recursive
        analysis one hop upstream, added to the aggregate (and, for the query
        flow, taken as its own arrival with its delay so far). */
    method AggregateFlow(node: NodeId, t: Target, l: LinkId, known: bool, flows: seq<FlowId>, i: nat,
                         previous: NodeId, upstream: Target, arrival: Option<AffineCurve>, totalDelay: real, totalArrival: AffineCurve, fuel: nat,
                         ghost goal: Out<HopResult>)
      returns (r: Result<Partial, Fault>)
      requires Valid() && TargetValid(topo, t) && node < |topo.nodes| && l < |topo.links|
      requires forall k :: 0 <= k < |flows| ==> flows[k] < |topo.flows|
      requires (node, l) in cache && (known ==> DelayKnown(cache[(node, l)]))
      requires i < |flows| && (!known || flows[i] == t.parent) && Upstream(topo, flows[i], node) == Ok((previous, upstream))
      requires fuel > 0
      requires AggregateReaches(topo, checkStability, cache, node, t, l, known, flows, i,
                                arrival, totalDelay, totalArrival, fuel, goal)
      modifies this`cache
      decreases fuel, 4
      ensures r.Ok? ==> (node, l) in cache && (known ==> DelayKnown(cache[(node, l)]))
      ensures r.Err? ==> goal == Out(Err(r.error), cache)
      ensures r.Ok? ==> AggregateReaches(topo, checkStability, cache, node, t, l, known, flows, i + 1,
                                         r.value.arrival, r.value.delay, r.value.total, fuel, goal)
    {
      ghost var before := cache;
      var temp := ComputeTargetArrivalAffine(previous, upstream, fuel - 1);
      if temp.Err? {
        AggregateHopFails(topo, checkStability, before, node, t, l, known, flows, i, arrival, totalDelay, totalArrival,
                          fuel, goal, previous, upstream, temp.error, cache);
        return Err(temp.error);
      }
      var h := temp.value;
      var own := flows[i] == t.parent;
      var p := Partial(if own then Some(h.outputArrival) else arrival,
                       if own then totalDelay + h.delay else totalDelay,
                       Add(totalArrival, h.outputArrival));
      AggregateHopGoes(topo, checkStability, before, node, t, l, known, flows, i, arrival, totalDelay, totalArrival,
                       fuel, goal, previous, upstream, h, cache, p.arrival, p.delay, p.total);
      r := Ok(p);
    }

    /** The end of `computeTargetArrivalAffine`: the worst-case service curve,
        the backlog and the delay bounds of Theorem 1 (the delay computed and
        stored, or read back from the tables), and the output arrival of the
        query flow. */
    method FinishHop(node: NodeId, t: Target, l: LinkId, known: bool, arrival: Option<AffineCurve>,
                     prior: real, totalArrival: AffineCurve, fuel: nat) returns (r: Result<HopResult, Fault>)
      requires Valid() && TargetValid(topo, t) && node < |topo.nodes| && l < |topo.links|
      requires (node, l) in cache && (known ==> DelayKnown(cache[(node, l)]))
      modifies this`cache
      decreases fuel, 3
      ensures FinishGives(topo, checkStability, old(cache), node, t, l, known, arrival, prior, totalArrival, fuel, r, cache)
    {
      if arrival.None? {
        return Err(NoInputArrival);
      }
      ghost var before := cache;
      var service := GetWorstCaseService(node, t, fuel);
      assert Keeps(before, cache, (node, l));
      if service.Err? {
        return Err(service.error);
      }
      var b := Theorem1Backlog(totalArrival, service.value, checkStability);
      if b.Err? {
        return Err(b.error);
      }
      var total, backlog, delay := totalArrival, b.value, Finite(0.0);
      if !known {
        var d := Theorem1Delay(totalArrival, service.value, checkStability);
        if d.Err? {
          return Err(d.error);
        }
        delay := d.value;
        cache := cache[(node, l) := Some(Entry(delay, totalArrival, backlog))];
      } else {
        var e := cache[(node, l)].value;
        delay, total, backlog := e.delay, e.totalArrival, e.backlog;
      }
      if delay.Infinite? {
        return Err(Unbounded);
      }
      r := Ok(HopResult(DelayBy(arrival.value, delay.value), prior + delay.value, total, backlog));
    }

    /** `Node.getTargetLeavingThroughLink(link)`: two nested scans that stop at
        the first target whose outgoing link at `node` is the given one. */
    method GetTargetLeavingThroughLink(node: NodeId, l: LinkId) returns (r: Result<Option<Target>, Fault>)
      requires Valid() && l < |topo.links|
      ensures r == TargetLeaving(topo, node, l)
    {
      assert LinkValid(topo, topo.links[l]);
      var flows := topo.links[l].flows;
      var found := false;
      var anOutgoingTarget: Option<Target> := None;
      var i := 0;
      while i < |flows|
        invariant 0 <= i <= |flows| && !found && anOutgoingTarget == None
        invariant LeavingFrom(topo, node, l, i) == TargetLeaving(topo, node, l)
      {
        var targets := topo.flows[flows[i]].targets;
        var k := 0;
        while k < |targets|
          invariant 0 <= k <= |targets| && !found && anOutgoingTarget == None
          invariant LeavingTarget(topo, node, l, targets, k) == LeavingTarget(topo, node, l, targets, 0)
        {
          var out := FindOutgoingLink(topo, targets[k], node);
          if out.Err? {
            return Err(out.error);
          }
          if out.value == Some(l) {
            anOutgoingTarget := Some(targets[k]);
            found := true;
            break;
          }
          k := k + 1;
        }
        if found {
          return Ok(anOutgoingTarget);
        }
        i := i + 1;
      }
      return Ok(None);
    }

    /** `Node.getBacklog(link)` at `node`. */
    method GetBacklog(node: NodeId, l: LinkId, fuel: nat) returns (r: Result<Bound, Fault>)
      requires Valid() && node < |topo.nodes| && l < |topo.links|
      modifies this`cache
      ensures Out(r, cache) == Engine.GetBacklog(topo, checkStability, old(cache), node, l, fuel)
    {
      if (node, l) !in cache {
        return Err(MissingCacheEntry);
      }
      if BacklogKnown(cache[(node, l)]) {
        return Ok(cache[(node, l)].value.backlog);
      }
      var anOutgoingTarget := GetTargetLeavingThroughLink(node, l);
      if anOutgoingTarget.Err? {
        return Err(anOutgoingTarget.error);
      }
      if anOutgoingTarget.value.None? {
        return Ok(Finite(0.0));
      }
      var h := ComputeTargetArrivalAffine(node, anOutgoingTarget.value.value, fuel);
      if h.Err? {
        return Err(h.error);
      }
      return Ok(h.value.backlog);
    }

    /** `Node.getDelay(link)` at `node`, as written (see `Engine.GetDelay`). */
    method GetDelay(node: NodeId, l: LinkId, fuel: nat) returns (r: Result<Bound, Fault>)
      requires Valid() && node < |topo.nodes| && l < |topo.links|
      modifies this`cache
      ensures Out(r, cache) == Engine.GetDelay(topo, checkStability, old(cache), node, l, fuel)
    {
      if (node, l) !in cache {
        return Err(MissingCacheEntry);
      }
      if DelayKnown(cache[(node, l)]) {
        return Ok(cache[(node, l)].value.delay);
      }
      var anOutgoingTarget := GetTargetLeavingThroughLink(node, l);
      if anOutgoingTarget.Err? {
        return Err(anOutgoingTarget.error);
      }
      if anOutgoingTarget.value.None? {
        return Ok(Finite(0.0));
      }
      var h := ComputeTargetArrivalAffine(node, anOutgoingTarget.value.value, fuel);
      if h.Err? {
        return Err(h.error);
      }
      return Ok(Finite(h.value.delay));
    }

    /** `Node.getDelay(link)` as evidently intended (see `Engine.GetHopDelay`):
        after a fresh computation, the delay the hop stored for the link. */
    method GetHopDelay(node: NodeId, l: LinkId, fuel: nat) returns (r: Result<Bound, Fault>)
      requires Valid() && node < |topo.nodes| && l < |topo.links|
      modifies this`cache
      ensures Out(r, cache) == Engine.GetHopDelay(topo, checkStability, old(cache), node, l, fuel)
    {
      if (node, l) !in cache {
        return Err(MissingCacheEntry);
      }
      if DelayKnown(cache[(node, l)]) {
        return Ok(cache[(node, l)].value.delay);
      }
      var anOutgoingTarget := GetTargetLeavingThroughLink(node, l);
      if anOutgoingTarget.Err? {
        return Err(anOutgoingTarget.error);
      }
      if anOutgoingTarget.value.None? {
        return Ok(Finite(0.0));
      }
      var h := ComputeTargetArrivalAffine(node, anOutgoingTarget.value.value, fuel);
      if h.Err? {
        return Err(h.error);
      }
      return Ok(cache[(node, l)].value.delay);
    }

    /** `Node.getTotalBacklog()` at `node`. */
    method GetTotalBacklog(node: NodeId, fuel: nat) returns (r: Result<Bound, Fault>)
      requires Valid() && node < |topo.nodes|
      modifies this`cache
      ensures Out(r, cache) == Engine.GetTotalBacklog(topo, checkStability, old(cache), node, fuel)
    {
      var links := GetLinks(topo, node);
      var totalBacklog := Finite(0.0);
      var i := 0;
      while i < |links|
        invariant 0 <= i <= |links|
        invariant TotalBacklogFrom(topo, checkStability, cache, node, links, i, totalBacklog, fuel) ==
                  Engine.GetTotalBacklog(topo, checkStability, old(cache), node, fuel)
      {
        var b := GetBacklog(node, links[i], fuel);
        if b.Err? {
          return Err(b.error);
        }
        totalBacklog := totalBacklog.Plus(b.value);
        i := i + 1;
      }
      return Ok(totalBacklog);
    }

    /** `Target.computeEndToEndDelay()`. */
    method ComputeEndToEndDelay(t: Target, fuel: nat) returns (r: Result<real, Fault>)
      requires Valid() && TargetValid(topo, t)
      modifies this`cache
      ensures Out(r, cache) == EndToEnd(topo, checkStability, old(cache), t, fuel)
    {
      if t.path == [] {
        return Err(EmptyPath);
      }
      var destinationNode := t.path[|t.path| - 1];
      var priorToDestNode := FindPreviousNode(t, destinationNode);
      if priorToDestNode.Err? {
        return Err(priorToDestNode.error);
      }
      FindPreviousNodeLast(t, destinationNode, priorToDestNode.value);
      PathNodesValid(topo, t, priorToDestNode.value);
      var h := ComputeTargetArrivalAffine(priorToDestNode.value, t, fuel);
      if h.Err? {
        return Err(h.error);
      }
      return Ok(h.value.delay);
    }

    /** `Network.isStable()`: for every link, the nominal slopes of its
        registered flows are summed and compared with the link's capacity. */
    method IsStable() returns (r: Result<bool, Fault>)
      requires Valid()
      ensures r == Loads.Stable(topo)
    {
      var stable := true;
      var l := 0;
      while l < |topo.links|
        invariant 0 <= l <= |topo.links|
        invariant Loads.StableFrom(topo, l, stable) == Loads.Stable(topo)
      {
        assert LinkValid(topo, topo.links[l]);
        var flows := topo.links[l].flows;
        var arrival := 0.0;
        var i := 0;
        while i < |flows|
          invariant 0 <= i <= |flows|
          invariant Loads.SlopeFrom(topo, flows, i, arrival) == Loads.LinkArrival(topo, l)
        {
          assert FlowValid(topo, flows[i]);
          var a := NominalArrival(topo, topo.flows[flows[i]]);
          if a.Err? {
            return Err(a.error);
          }
          arrival := arrival + a.value.m;
          i := i + 1;
        }
        if arrival > topo.links[l].capacity {
          stable := false;
        }
        l := l + 1;
      }
      return Ok(stable);
    }
  }
}
