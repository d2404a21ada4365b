/** The per-hop bound engine of Classes.py as state-passing functions: the
    per-node, per-link tables are one map threaded through every call, and
    each call returns its outcome together with the tables it leaves behind. */
module Engine {
  import opened Wrappers
  import opened Errors
  import opened Curves
  import opened Utils
  import opened Topology
  import opened Direction

  /** One cell of a node's three per-link tables (`delayBoundsPerLink`,
      `totalArrivalsPerLink`, `backlogsPerLink`), which are always written
      together; `None` is the value `initAllDicts` stores (-1, AffineCurve(-1, 0), -1). */
  datatype Entry = Entry(delay: Bound, totalArrival: AffineCurve, backlog: Bound)

  type Key = (NodeId, LinkId)

  /** A key is present exactly when the node's tables have an entry for the
      link; a missing key is a KeyError. */
  type Cache = map<Key, Option<Entry>>

  /** The value `computeTargetArrivalAffine` returns as a dictionary. */
  datatype HopResult = HopResult(outputArrival: AffineCurve, delay: real, totalArrival: AffineCurve, backlog: Bound)

  /** An outcome together with the tables after the call. */
  datatype Out<T> = Out(res: Result<T, Fault>, cache: Cache)

  /** `delayBoundsPerLink[link] >= 0`: the hop counts as already computed. */
  predicate DelayKnown(e: Option<Entry>)
  {
    e.Some? && e.value.delay.NonNegative()
  }

  /** `backlogsPerLink[link] >= 0`. */
  predicate BacklogKnown(e: Option<Entry>)
  {
    e.Some? && e.value.backlog.NonNegative()
  }

  /** Cell `key` holds a finite delay together with the aggregate arrival and
      backlog the hop returned. */
  predicate Cell(c: Cache, key: Key, r: HopResult)
  {
    key in c && c[key].Some? && c[key].value.delay.Finite? &&
    c[key].value.totalArrival == r.totalArrival && c[key].value.backlog == r.backlog
  }

  /** `Cell`, and the hop's result follows from its input arrival and the
      delay accumulated before it: `totalDelay += delay`,
      `outputArrival = arrival.delayBy(delay)`. */
  predicate Stored(c: Cache, key: Key, r: HopResult, prior: real, input: AffineCurve)
  {
    Cell(c, key, r) &&
    r.delay == prior + c[key].value.delay.value &&
    r.outputArrival == DelayBy(input, c[key].value.delay.value)
  }

  /** m is the rate of flow f's nominal arrival curve. */
  predicate SlopeOf(net: Topology, f: FlowId, m: real)
  {
    f < |net.flows| && net.flows[f].source < |net.nodes| &&
    NominalArrival(net, net.flows[f]).Ok? && NominalArrival(net, net.flows[f]).value.m == m
  }

  /** Key k is still present in c' and unchanged if its delay was known in c. */
  predicate Keeps(c: Cache, c': Cache, k: Key)
    requires k in c
  {
    k in c' && (DelayKnown(c[k]) ==> c'[k] == c[k])
  }

  /** The tables only ever gain computed cells: no key appears or disappears,
      and a cell whose delay is known is never written again. */
  predicate Extends(c: Cache, c': Cache)
  {
    c'.Keys == c.Keys && forall k {:trigger Keeps(c, c', k)} :: k in c ==> Keeps(c, c', k)
  }

  /** `Extends`, except that cell `own` may be overwritten. */
  predicate ExtendsOff(c: Cache, c': Cache, own: Key)
  {
    c'.Keys == c.Keys && forall k {:trigger Keeps(c, c', k)} :: k in c && k != own ==> Keeps(c, c', k)
  }

  lemma ExtendsTrans(a: Cache, b: Cache, c: Cache)
    requires Extends(a, b) && Extends(b, c)
    ensures Extends(a, c)
  {
    forall k | k in a ensures Keeps(a, c, k) {
      assert Keeps(a, b, k) && Keeps(b, c, k);
    }
  }

  lemma ExtendsOffTrans(a: Cache, b: Cache, c: Cache, own: Key)
    requires Extends(a, b) && ExtendsOff(b, c, own)
    ensures ExtendsOff(a, c, own)
  {
    forall k | k in a && k != own ensures Keeps(a, c, k) {
      assert Keeps(a, b, k) && Keeps(b, c, k);
    }
  }

  lemma ExtendsStore(a: Cache, b: Cache, own: Key, v: Option<Entry>)
    requires Extends(a, b) && own in b
    ensures ExtendsOff(a, b[own := v], own)
  {
    forall k | k in a && k != own ensures Keeps(a, b[own := v], k) {
      assert Keeps(a, b, k);
    }
  }

  /** The target of flow f whose path passes through `node`, and the node
      before `node` on it (`findTargetPassingThroughNode`, then
      `findPreviousNode`, in that order). */
  function Upstream(net: Topology, f: FlowId, node: NodeId): (r: Result<(NodeId, Target), Fault>)
    requires Valid(net) && f < |net.flows|
    ensures r.Ok? ==> r.value.0 < |net.nodes| && TargetValid(net, r.value.1) && r.value.1.parent == f &&
                      r.value.1 in net.flows[f].targets && node in r.value.1.path &&
                      FindPreviousNode(r.value.1, node) == Ok(r.value.0)
    ensures FindTargetPassingThroughNode(net, f, node).Err? ==> r == Err(NoTargetThroughNode)
  {
    var ot :- FindTargetPassingThroughNode(net, f, node);
    var op :- FindPreviousNode(ot, node);
    TargetOfValid(net, f, ot);
    PathNodesValid(net, ot, op);
    Ok((op, ot))
  }

  /** A store-and-forward switch remembers the largest message of the other
      flows on the link (`maximumMsgSize = max(flow.maxMessageSize, maximumMsgSize)`). */
  function NextMax(net: Topology, node: NodeId, t: Target, f: FlowId, maxMsg: real): real
    requires node < |net.nodes| && f < |net.flows|
  {
    var k := net.nodes[node].kind;
    if f != t.parent && k.Switch? && k.technique == StoreAndForward then Max(net.flows[f].maxMessageSize, maxMsg)
    else maxMsg
  }

  /** The source branch of `computeTargetArrivalAffine` from flow i on: the
      nominal arrival of every same-direction flow is added to the aggregate,
      and the query flow's own becomes the input arrival. */
  function SourceAggregate(net: Topology, fs: seq<FlowId>, parent: FlowId, i: nat,
                           input: Option<AffineCurve>, total: AffineCurve): (r: Result<(Option<AffineCurve>, AffineCurve), Fault>)
    requires Valid(net) && forall k :: 0 <= k < |fs| ==> fs[k] < |net.flows|
    decreases |fs| - i
    ensures r.Ok? && r.value.0 != input ==>
              r.value.0.Some? && parent < |net.flows| && net.flows[parent].source < |net.nodes| &&
              NominalArrival(net, net.flows[parent]) == Ok(r.value.0.value)
  {
    if i >= |fs| then Ok((input, total))
    else
      assert FlowValid(net, fs[i]);
      var a :- NominalArrival(net, net.flows[fs[i]]);
      SourceAggregate(net, fs, parent, i + 1, if fs[i] == parent then Some(a) else input, Add(total, a))
  }

  /** Lines 256-310: the output arrival, accumulated delay, aggregate arrival
      and backlog of target t leaving `node`. `fuel` bounds the depth of the
      recursion into upstream nodes. */
  function Hop(net: Topology, chk: bool, c: Cache, node: NodeId, t: Target, fuel: nat): (o: Out<HopResult>)
    requires Valid(net) && TargetValid(net, t) && node < |net.nodes|
    decreases fuel, 4, 0
    ensures Extends(c, o.cache)
    ensures o.res.Ok? ==>
              var ol := FindOutgoingLink(net, t, node);
              ol.Ok? && ol.value.Some? && (node, ol.value.value) in c && Cell(o.cache, (node, ol.value.value), o.res.value) &&
              (DelayKnown(c[(node, ol.value.value)]) ==> o.cache[(node, ol.value.value)] == c[(node, ol.value.value)])
    ensures o.res.Ok? ==> SlopeOf(net, t.parent, o.res.value.outputArrival.m)
  {
    var ol := FindOutgoingLink(net, t, node);
    if ol.Err? then Out(Err(ol.error), c)
    else if ol.value.None? || (node, ol.value.value) !in c then Out(Err(MissingCacheEntry), c)
    else
      var l := ol.value.value;
      var known := DelayKnown(c[(node, l)]);
      var fs := SameDirectionFlows(net, l, t);
      if fs.Err? then Out(Err(fs.error), c)
      else if node == t.source then
        var agg := SourceAggregate(net, fs.value, t.parent, 0, None, Zero);
        if agg.Err? then Out(Err(agg.error), c)
        else
          var o := Finish(net, chk, c, node, t, l, known, agg.value.0, 0.0, agg.value.1, fuel);
          assert Keeps(c, o.cache, (node, l));
          o
      else
        var o := Aggregate(net, chk, c, node, t, l, known, fs.value, 0, None, 0.0, Zero, fuel);
        assert Keeps(c, o.cache, (node, l));
        o
  }

  /** The non-source branch: for every same-direction flow, its upstream
      target and node are looked up, and its output arrival at the previous
      node is recomputed unless the hop is cached and the flow is not the
      query flow. */
  function Aggregate(net: Topology, chk: bool, c: Cache, node: NodeId, t: Target, l: LinkId, known: bool,
                     fs: seq<FlowId>, i: nat, input: Option<AffineCurve>, prior: real, total: AffineCurve,
                     fuel: nat): (o: Out<HopResult>)
    requires Valid(net) && TargetValid(net, t) && node < |net.nodes| && l < |net.links|
    requires forall k :: 0 <= k < |fs| ==> fs[k] < |net.flows|
    requires (node, l) in c && (known ==> DelayKnown(c[(node, l)]))
    decreases fuel, 3, |fs| - i
    ensures known ==> Extends(c, o.cache)
    ensures ExtendsOff(c, o.cache, (node, l))
    ensures o.res.Ok? ==> Cell(o.cache, (node, l), o.res.value)
    ensures o.res.Ok? && known ==> o.cache[(node, l)] == c[(node, l)]
    ensures o.res.Ok? && (input.Some? ==> SlopeOf(net, t.parent, input.value.m)) ==>
              SlopeOf(net, t.parent, o.res.value.outputArrival.m)
  {
    if i >= |fs| then Finish(net, chk, c, node, t, l, known, input, prior, total, fuel)
    else
      var up := Upstream(net, fs[i], node);
      if up.Err? then Out(Err(up.error), c)
      else if !known || fs[i] == t.parent then
        if fuel == 0 then Out(Err(OutOfFuel), c)
        else
          var o := Hop(net, chk, c, up.value.0, up.value.1, fuel - 1);
          if o.res.Err? then Out(Err(o.res.error), o.cache)
          else
            var h := o.res.value;
            assert Keeps(c, o.cache, (node, l));
            var o' := Aggregate(net, chk, o.cache, node, t, l, known, fs, i + 1,
                                if fs[i] == t.parent then Some(h.outputArrival) else input,
                                if fs[i] == t.parent then prior + h.delay else prior,
                                Add(total, h.outputArrival), fuel);
            ExtendsOffTrans(c, o.cache, o'.cache, (node, l));
            if known then ExtendsTrans(c, o.cache, o'.cache); o' else o'
      else Aggregate(net, chk, c, node, t, l, known, fs, i + 1, input, prior, total, fuel)
  }

  /** Lines 283-310: service curve, backlog, delay (computed and stored, or read
      back from the tables) and the output arrival of the query flow. */
  function Finish(net: Topology, chk: bool, c: Cache, node: NodeId, t: Target, l: LinkId, known: bool,
                  input: Option<AffineCurve>, prior: real, total: AffineCurve, fuel: nat): (o: Out<HopResult>)
    requires Valid(net) && TargetValid(net, t) && node < |net.nodes| && l < |net.links|
    requires (node, l) in c && (known ==> DelayKnown(c[(node, l)]))
    decreases fuel, 2, 0
    ensures known ==> Extends(c, o.cache)
    ensures ExtendsOff(c, o.cache, (node, l))
    ensures input.None? ==> o.res == Err(NoInputArrival)
    ensures o.res.Ok? ==> input.Some? && Stored(o.cache, (node, l), o.res.value, prior, input.value)
    ensures o.res.Ok? && known ==> o.cache[(node, l)] == c[(node, l)]
    ensures o.res.Ok? && !known ==> o.res.value.totalArrival == total
  {
    if input.None? then Out(Err(NoInputArrival), c)
    else
      var sv := WorstService(net, chk, c, node, t, fuel);
      assert Keeps(c, sv.cache, (node, l));
      if sv.res.Err? then Out(Err(sv.res.error), sv.cache)
      else
        var service := sv.res.value;
        var backlog := Theorem1Backlog(total, service, chk);
        if backlog.Err? then Out(Err(backlog.error), sv.cache)
        else if !known then
          var delay := Theorem1Delay(total, service, chk);
          if delay.Err? then Out(Err(delay.error), sv.cache)
          else
            ExtendsStore(c, sv.cache, (node, l), Some(Entry(delay.value, total, backlog.value)));
            Emit(input.value, prior, delay.value, total, backlog.value,
                 sv.cache[(node, l) := Some(Entry(delay.value, total, backlog.value))])
        else
          var e := sv.cache[(node, l)].value;
          Emit(input.value, prior, e.delay, e.totalArrival, e.backlog, sv.cache)
  }

  /** `outputArrival = arrival.delayBy(delay)`, `totalDelay += delay`; an
      unbounded hop has no finite output curve. The output is the input
      arrival read `delay` later, at the input's rate (Theorem 2). */
  function Emit(input: AffineCurve, prior: real, delay: Bound, total: AffineCurve, backlog: Bound, c: Cache): (o: Out<HopResult>)
    ensures o.cache == c
    ensures o.res.Err? <==> delay.Infinite?
    ensures o.res.Err? ==> o.res.error == Unbounded
    ensures o.res.Ok? ==> o.res.value.outputArrival.m == input.m &&
                          (forall x :: Eval(o.res.value.outputArrival, x) == Eval(input, x + delay.value))
    ensures o.res.Ok? ==> o.res.value.delay - prior == delay.value
    ensures o.res.Ok? ==> o.res.value.totalArrival == total && o.res.value.backlog == backlog
  {
    if delay.Infinite? then Out(Err(Unbounded), c)
    else
      DelayByEval(input, delay.value);
      Out(Ok(HopResult(DelayBy(input, delay.value), prior + delay.value, total, backlog)), c)
  }

  /** Flow f outranks the query flow: its traffic is served first. */
  predicate Higher(net: Topology, t: Target, f: FlowId)
    requires f < |net.flows| && t.parent < |net.flows|
  {
    net.flows[f].priority > net.flows[t.parent].priority
  }

  /** Flow f's message counts towards the store-and-forward penalty of `node`. */
  predicate Penalises(net: Topology, node: NodeId, t: Target, f: FlowId)
    requires node < |net.nodes|
  {
    f != t.parent && net.nodes[node].kind.Switch? && net.nodes[node].kind.technique == StoreAndForward
  }

  /** The rate f withdraws from the service of the query flow. */
  function HigherRate(net: Topology, t: Target, f: FlowId): real
    requires f < |net.flows| && t.parent < |net.flows|
  {
    if Higher(net, t, f) && net.flows[f].source < |net.nodes| && NominalArrival(net, net.flows[f]).Ok?
    then NominalArrival(net, net.flows[f]).value.m
    else 0.0
  }

  /** Sum of the nominal rates of the higher-priority flows among fs[i..]. */
  function HigherSlopes(net: Topology, t: Target, fs: seq<FlowId>, i: nat): real
    requires t.parent < |net.flows| && forall k :: 0 <= k < |fs| ==> fs[k] < |net.flows|
    decreases |fs| - i
  {
    if i >= |fs| then 0.0 else HigherRate(net, t, fs[i]) + HigherSlopes(net, t, fs, i + 1)
  }

  /** v is the larger of acc and the largest message of the penalising flows
      among fs[i..]. */
  predicate IsMaxFrom(net: Topology, node: NodeId, t: Target, fs: seq<FlowId>, i: nat, acc: real, v: real)
    requires node < |net.nodes| && forall k :: 0 <= k < |fs| ==> fs[k] < |net.flows|
  {
    v >= acc &&
    (forall k :: i <= k < |fs| && Penalises(net, node, t, fs[k]) ==> v >= net.flows[fs[k]].maxMessageSize) &&
    (v == acc || exists k :: i <= k < |fs| && Penalises(net, node, t, fs[k]) && v == net.flows[fs[k]].maxMessageSize)
  }

  lemma MaxStep(net: Topology, node: NodeId, t: Target, fs: seq<FlowId>, i: nat, acc: real, v: real)
    requires node < |net.nodes| && forall k :: 0 <= k < |fs| ==> fs[k] < |net.flows|
    requires i < |fs| && IsMaxFrom(net, node, t, fs, i + 1, NextMax(net, node, t, fs[i], acc), v)
    ensures IsMaxFrom(net, node, t, fs, i, acc, v)
  {
    if v != acc && v == NextMax(net, node, t, fs[i], acc) {
      assert Penalises(net, node, t, fs[i]) && v == net.flows[fs[i]].maxMessageSize;
    }
  }

  /** `Node.getWorstCaseService(target)` (lines 204-237). */
  function WorstService(net: Topology, chk: bool, c: Cache, node: NodeId, t: Target, fuel: nat): (o: Out<AffineCurve>)
    requires Valid(net) && TargetValid(net, t) && node < |net.nodes|
    decreases fuel, 1, 0
    ensures Extends(c, o.cache)
    ensures FindOutgoingLink(net, t, node).Err? ==> o.res == Err(FindOutgoingLink(net, t, node).error)
    ensures FindOutgoingLink(net, t, node) == Ok(None) ==> o.res == Err(NoConnectingLink)
  {
    var ol := FindOutgoingLink(net, t, node);
    if ol.Err? then Out(Err(ol.error), c)
    else if ol.value.None? then Out(Err(NoConnectingLink), c)
    else
      assert LinkValid(net, net.links[ol.value.value]);
      var fs := net.links[ol.value.value].flows;
      var sf := ServiceFold(net, chk, c, node, t, fs, 0, ServiceAffine(net.nodes[node]), 0.0, fuel);
      if sf.res.Err? then Out(Err(sf.res.error), sf.cache)
      else
        var capacity := net.nodes[node].capacity;
        if capacity == 0.0 then Out(Err(DivisionByZero), sf.cache)
        else Out(Ok(Penalise(sf.res.value.0, sf.res.value.1, capacity)), sf.cache)
  }

  /** The worst-case service curve has the node's rate less the nominal rates
      of the strictly higher-priority flows on the outgoing link; with none of
      them, no hop is recomputed and the curve is the node's own, shifted by
      the largest waiting message of a store-and-forward switch. */
  lemma WorstServiceSpec(net: Topology, chk: bool, c: Cache, node: NodeId, t: Target, fuel: nat)
    requires Valid(net) && TargetValid(net, t) && node < |net.nodes|
    ensures var o := WorstService(net, chk, c, node, t, fuel);
            o.res.Ok? ==>
              var l := FindOutgoingLink(net, t, node).value.value;
              net.nodes[node].capacity != 0.0 &&
              o.res.value.m == net.nodes[node].capacity - HigherSlopes(net, t, net.links[l].flows, 0)
    ensures var o := WorstService(net, chk, c, node, t, fuel);
            FindOutgoingLink(net, t, node).Ok? && FindOutgoingLink(net, t, node).value.Some? ==>
              var l := FindOutgoingLink(net, t, node).value.value;
              var n := net.nodes[node];
              (forall k :: 0 <= k < |net.links[l].flows| ==> !Higher(net, t, net.links[l].flows[k])) ==>
                o.cache == c &&
                (n.capacity == 0.0 ==> o.res == Err(DivisionByZero)) &&
                (n.capacity != 0.0 ==> exists v :: IsMaxFrom(net, node, t, net.links[l].flows, 0, 0.0, v) &&
                                          o.res == Ok(AffineCurve(n.capacity, -n.capacity * n.techLatency - v)))
  {
    var ol := FindOutgoingLink(net, t, node);
    if ol.Ok? && ol.value.Some? {
      assert LinkValid(net, net.links[ol.value.value]);
      var fs := net.links[ol.value.value].flows;
      var service := ServiceAffine(net.nodes[node]);
      var sf := ServiceFold(net, chk, c, node, t, fs, 0, service, 0.0, fuel);
      ServiceFoldRate(net, chk, c, node, t, fs, 0, service, 0.0, fuel, sf);
      ServiceFoldMax(net, chk, c, node, t, fs, 0, service, 0.0, fuel, sf);
      if forall k :: 0 <= k < |fs| ==> !Higher(net, t, fs[k]) {
        ServiceFoldShielded(net, chk, c, node, t, fs, 0, service, 0.0, fuel);
      }
      MaxFromIsMax(net, node, t, fs, 0, 0.0);
    }
  }

  /** Line 234: the largest waiting message is sent at full speed, so it
      shifts the service curve by its transmission time scaled by the rate. */
  function Penalise(service: AffineCurve, maxMsg: real, capacity: real): (r: AffineCurve)
    requires capacity != 0.0
    ensures r.m == service.m
    ensures service.m == capacity ==> r.n == service.n - maxMsg
  {
    assert service.m == capacity ==> maxMsg / capacity * service.m == maxMsg;
    AffineCurve(service.m, service.n - maxMsg / capacity * service.m)
  }

  /** The loop of `getWorstCaseService` over all flows of the outgoing link,
      both directions, from flow i on: a strictly higher-priority flow's output
      arrival at the previous node is subtracted from the service curve. */
  function ServiceFold(net: Topology, chk: bool, c: Cache, node: NodeId, t: Target, fs: seq<FlowId>, i: nat,
                       service: AffineCurve, maxMsg: real, fuel: nat): (o: Out<(AffineCurve, real)>)
    requires Valid(net) && TargetValid(net, t) && node < |net.nodes|
    requires forall k :: 0 <= k < |fs| ==> fs[k] < |net.flows|
    decreases fuel, 0, |fs| - i
    ensures Extends(c, o.cache)
  {
    if i >= |fs| then Out(Ok((service, maxMsg)), c)
    else if net.flows[fs[i]].priority > net.flows[t.parent].priority then
      var up := Upstream(net, fs[i], node);
      if up.Err? then Out(Err(up.error), c)
      else if fuel == 0 then Out(Err(OutOfFuel), c)
      else
        var o := Hop(net, chk, c, up.value.0, up.value.1, fuel - 1);
        if o.res.Err? then Out(Err(o.res.error), o.cache)
        else
          var a := o.res.value.outputArrival;
          var o' := ServiceFold(net, chk, o.cache, node, t, fs, i + 1, AffineCurve(service.m - a.m, service.n - a.n),
                                NextMax(net, node, t, fs[i], maxMsg), fuel);
          ExtendsTrans(c, o.cache, o'.cache);
          o'
    else ServiceFold(net, chk, c, node, t, fs, i + 1, service, NextMax(net, node, t, fs[i], maxMsg), fuel)
  }

  /** `Hop` from tables c returns r and leaves c'. */
  predicate HopGives(net: Topology, chk: bool, c: Cache, node: NodeId, t: Target, fuel: nat,
                     r: Result<HopResult, Fault>, c': Cache)
    requires Valid(net) && TargetValid(net, t) && node < |net.nodes|
  {
    Hop(net, chk, c, node, t, fuel) == Out(r, c')
  }

  /** `ServiceFold` from flow i on, with tables c, ends in goal. */
  predicate FoldReaches(net: Topology, chk: bool, c: Cache, node: NodeId, t: Target, fs: seq<FlowId>, i: nat,
                        service: AffineCurve, maxMsg: real, fuel: nat, goal: Out<(AffineCurve, real)>)
    requires Valid(net) && TargetValid(net, t) && node < |net.nodes|
    requires forall k :: 0 <= k < |fs| ==> fs[k] < |net.flows|
  {
    ServiceFold(net, chk, c, node, t, fs, i, service, maxMsg, fuel) == goal
  }

  lemma ServiceFoldLower(net: Topology, chk: bool, c: Cache, node: NodeId, t: Target, fs: seq<FlowId>, i: nat,
                         service: AffineCurve, maxMsg: real, fuel: nat, goal: Out<(AffineCurve, real)>)
    requires Valid(net) && TargetValid(net, t) && node < |net.nodes|
    requires forall k :: 0 <= k < |fs| ==> fs[k] < |net.flows|
    requires i < |fs| && net.flows[fs[i]].priority <= net.flows[t.parent].priority
    requires FoldReaches(net, chk, c, node, t, fs, i, service, maxMsg, fuel, goal)
    ensures FoldReaches(net, chk, c, node, t, fs, i + 1, service, NextMax(net, node, t, fs[i], maxMsg), fuel, goal)
  {
  }

  lemma ServiceFoldHigher(net: Topology, chk: bool, c: Cache, node: NodeId, t: Target, fs: seq<FlowId>, i: nat,
                          service: AffineCurve, maxMsg: real, fuel: nat, goal: Out<(AffineCurve, real)>)
    requires Valid(net) && TargetValid(net, t) && node < |net.nodes|
    requires forall k :: 0 <= k < |fs| ==> fs[k] < |net.flows|
    requires i < |fs| && net.flows[fs[i]].priority > net.flows[t.parent].priority
    requires FoldReaches(net, chk, c, node, t, fs, i, service, maxMsg, fuel, goal)
    ensures Upstream(net, fs[i], node).Err? ==> goal == Out(Err(Upstream(net, fs[i], node).error), c)
    ensures Upstream(net, fs[i], node).Ok? && fuel == 0 ==> goal == Out(Err(OutOfFuel), c)
  {
  }

  lemma ServiceFoldHopFails(net: Topology, chk: bool, c: Cache, node: NodeId, t: Target, fs: seq<FlowId>, i: nat,
                            service: AffineCurve, maxMsg: real, fuel: nat, goal: Out<(AffineCurve, real)>,
                            prev: NodeId, up: Target, e: Fault, c': Cache)
    requires Valid(net) && TargetValid(net, t) && node < |net.nodes|
    requires forall k :: 0 <= k < |fs| ==> fs[k] < |net.flows|
    requires i < |fs| && net.flows[fs[i]].priority > net.flows[t.parent].priority
    requires Upstream(net, fs[i], node) == Ok((prev, up)) && fuel > 0
    requires FoldReaches(net, chk, c, node, t, fs, i, service, maxMsg, fuel, goal)
    requires HopGives(net, chk, c, prev, up, fuel - 1, Err(e), c')
    ensures goal == Out(Err(e), c')
  {
  }

  lemma ServiceFoldHopGoes(net: Topology, chk: bool, c: Cache, node: NodeId, t: Target, fs: seq<FlowId>, i: nat,
                           service: AffineCurve, maxMsg: real, fuel: nat, goal: Out<(AffineCurve, real)>,
                           prev: NodeId, up: Target, h: HopResult, c': Cache, service': AffineCurve)
    requires Valid(net) && TargetValid(net, t) && node < |net.nodes|
    requires forall k :: 0 <= k < |fs| ==> fs[k] < |net.flows|
    requires i < |fs| && net.flows[fs[i]].priority > net.flows[t.parent].priority
    requires Upstream(net, fs[i], node) == Ok((prev, up)) && fuel > 0
    requires FoldReaches(net, chk, c, node, t, fs, i, service, maxMsg, fuel, goal)
    requires HopGives(net, chk, c, prev, up, fuel - 1, Ok(h), c')
    requires service' == AffineCurve(service.m - h.outputArrival.m, service.n - h.outputArrival.n)
    ensures FoldReaches(net, chk, c', node, t, fs, i + 1, service', NextMax(net, node, t, fs[i], maxMsg), fuel, goal)
  {
  }

  /** From flow i on, the fold withdraws exactly the nominal rates of the
      strictly higher-priority flows from the service rate. */
  lemma {:induction false} ServiceFoldRate(net: Topology, chk: bool, c: Cache, node: NodeId, t: Target, fs: seq<FlowId>, i: nat,
                                           service: AffineCurve, maxMsg: real, fuel: nat, goal: Out<(AffineCurve, real)>)
    requires Valid(net) && TargetValid(net, t) && node < |net.nodes|
    requires forall k :: 0 <= k < |fs| ==> fs[k] < |net.flows|
    requires FoldReaches(net, chk, c, node, t, fs, i, service, maxMsg, fuel, goal)
    decreases |fs| - i
    ensures goal.res.Ok? ==> goal.res.value.0.m == service.m - HigherSlopes(net, t, fs, i)
  {
    if i < |fs| {
      var next := NextMax(net, node, t, fs[i], maxMsg);
      if net.flows[fs[i]].priority > net.flows[t.parent].priority {
        ServiceFoldHigher(net, chk, c, node, t, fs, i, service, maxMsg, fuel, goal);
        var up := Upstream(net, fs[i], node);
        if up.Ok? && fuel > 0 {
          var (prev, ut) := up.value;
          var o := Hop(net, chk, c, prev, ut, fuel - 1);
          if o.res.Err? {
            ServiceFoldHopFails(net, chk, c, node, t, fs, i, service, maxMsg, fuel, goal, prev, ut, o.res.error, o.cache);
          } else {
            var a := o.res.value.outputArrival;
            var reduced := AffineCurve(service.m - a.m, service.n - a.n);
            ServiceFoldHopGoes(net, chk, c, node, t, fs, i, service, maxMsg, fuel, goal, prev, ut, o.res.value, o.cache, reduced);
            ServiceFoldRate(net, chk, o.cache, node, t, fs, i + 1, reduced, next, fuel, goal);
          }
        }
      } else {
        ServiceFoldLower(net, chk, c, node, t, fs, i, service, maxMsg, fuel, goal);
        ServiceFoldRate(net, chk, c, node, t, fs, i + 1, service, next, fuel, goal);
      }
    }
  }

  /** The largest penalising message among fs[i..], or acc. */
  function MaxFrom(net: Topology, node: NodeId, t: Target, fs: seq<FlowId>, i: nat, acc: real): real
    requires node < |net.nodes| && forall k :: 0 <= k < |fs| ==> fs[k] < |net.flows|
    decreases |fs| - i
  {
    if i >= |fs| then acc else MaxFrom(net, node, t, fs, i + 1, NextMax(net, node, t, fs[i], acc))
  }

  /** `MaxFrom` is the maximum it is named for. */
  lemma {:induction false} MaxFromIsMax(net: Topology, node: NodeId, t: Target, fs: seq<FlowId>, i: nat, acc: real)
    requires node < |net.nodes| && forall k :: 0 <= k < |fs| ==> fs[k] < |net.flows|
    decreases |fs| - i
    ensures IsMaxFrom(net, node, t, fs, i, acc, MaxFrom(net, node, t, fs, i, acc))
  {
    if i < |fs| {
      MaxFromIsMax(net, node, t, fs, i + 1, NextMax(net, node, t, fs[i], acc));
      MaxStep(net, node, t, fs, i, acc, MaxFrom(net, node, t, fs, i, acc));
    }
  }

  /** From flow i on, the fold's second component is the largest message of
      the flows that penalise a store-and-forward switch, or maxMsg. */
  lemma {:induction false} ServiceFoldMax(net: Topology, chk: bool, c: Cache, node: NodeId, t: Target, fs: seq<FlowId>, i: nat,
                                          service: AffineCurve, maxMsg: real, fuel: nat, goal: Out<(AffineCurve, real)>)
    requires Valid(net) && TargetValid(net, t) && node < |net.nodes|
    requires forall k :: 0 <= k < |fs| ==> fs[k] < |net.flows|
    requires FoldReaches(net, chk, c, node, t, fs, i, service, maxMsg, fuel, goal)
    decreases |fs| - i
    ensures goal.res.Ok? ==> goal.res.value.1 == MaxFrom(net, node, t, fs, i, maxMsg)
  {
    if i < |fs| {
      var next := NextMax(net, node, t, fs[i], maxMsg);
      assert MaxFrom(net, node, t, fs, i, maxMsg) == MaxFrom(net, node, t, fs, i + 1, next);
      if net.flows[fs[i]].priority > net.flows[t.parent].priority {
        ServiceFoldHigher(net, chk, c, node, t, fs, i, service, maxMsg, fuel, goal);
        var up := Upstream(net, fs[i], node);
        if up.Ok? && fuel > 0 {
          var (prev, ut) := up.value;
          var o := Hop(net, chk, c, prev, ut, fuel - 1);
          if o.res.Err? {
            ServiceFoldHopFails(net, chk, c, node, t, fs, i, service, maxMsg, fuel, goal, prev, ut, o.res.error, o.cache);
          } else {
            var a := o.res.value.outputArrival;
            var reduced := AffineCurve(service.m - a.m, service.n - a.n);
            ServiceFoldHopGoes(net, chk, c, node, t, fs, i, service, maxMsg, fuel, goal, prev, ut, o.res.value, o.cache, reduced);
            ServiceFoldMax(net, chk, o.cache, node, t, fs, i + 1, reduced, next, fuel, goal);
          }
        }
      } else {
        ServiceFoldLower(net, chk, c, node, t, fs, i, service, maxMsg, fuel, goal);
        ServiceFoldMax(net, chk, c, node, t, fs, i + 1, service, next, fuel, goal);
      }
    }
  }

  /** Without a strictly higher-priority flow among fs[i..], the fold
      recomputes no hop and leaves the tables and the curve unchanged. */
  lemma {:induction false} ServiceFoldShielded(net: Topology, chk: bool, c: Cache, node: NodeId, t: Target, fs: seq<FlowId>, i: nat,
                                               service: AffineCurve, maxMsg: real, fuel: nat)
    requires Valid(net) && TargetValid(net, t) && node < |net.nodes|
    requires forall k :: 0 <= k < |fs| ==> fs[k] < |net.flows|
    requires forall k :: i <= k < |fs| ==> !Higher(net, t, fs[k])
    decreases |fs| - i
    ensures var o := ServiceFold(net, chk, c, node, t, fs, i, service, maxMsg, fuel);
            o.cache == c && o.res.Ok? && o.res.value.0 == service
  {
    if i < |fs| {
      assert !Higher(net, t, fs[i]);
      ServiceFoldShielded(net, chk, c, node, t, fs, i + 1, service, NextMax(net, node, t, fs[i], maxMsg), fuel);
    }
  }

  // ---------------------------------------------------------------------------
  // Properties of one hop
  // ---------------------------------------------------------------------------

  /** Every flow of fs has a nominal arrival curve. */
  predicate AllNominal(net: Topology, fs: seq<FlowId>)
    requires forall k :: 0 <= k < |fs| ==> fs[k] < |net.flows|
  {
    forall k :: 0 <= k < |fs| ==> net.flows[fs[k]].source < |net.nodes| && NominalArrival(net, net.flows[fs[k]]).Ok?
  }

  /** The nominal arrival curves of fs, in order. */
  function NominalCurves(net: Topology, fs: seq<FlowId>): (cs: seq<AffineCurve>)
    requires forall k :: 0 <= k < |fs| ==> fs[k] < |net.flows|
    requires AllNominal(net, fs)
    ensures |cs| == |fs|
  {
    seq(|fs|, k requires 0 <= k < |fs| => NominalArrival(net, net.flows[fs[k]]).value)
  }

  lemma {:induction false} SourceAggregateSum(net: Topology, fs: seq<FlowId>, parent: FlowId, i: nat,
                                              input: Option<AffineCurve>, total: AffineCurve)
    requires Valid(net) && forall k :: 0 <= k < |fs| ==> fs[k] < |net.flows|
    requires i <= |fs| && AllNominal(net, fs[..i]) && total == Sum(NominalCurves(net, fs[..i]))
    ensures var r := SourceAggregate(net, fs, parent, i, input, total);
            (r.Ok? <==> AllNominal(net, fs)) && (r.Ok? ==> r.value.1 == Sum(NominalCurves(net, fs)))
    decreases |fs| - i
  {
    if i == |fs| {
      assert fs[..i] == fs;
    } else {
      assert FlowValid(net, fs[i]);
      var a := NominalArrival(net, net.flows[fs[i]]);
      if a.Ok? {
        assert fs[..i + 1][..i] == fs[..i];
        assert NominalCurves(net, fs[..i + 1]) == NominalCurves(net, fs[..i]) + [a.value];
        SourceAggregateSum(net, fs, parent, i + 1, if fs[i] == parent then Some(a.value) else input, Add(total, a.value));
      }
    }
  }

  /** At the source of the query target, the aggregate arrival is the sum of
      the nominal arrival curves of the same-direction flows, and it is
      defined exactly when each of them is. */
  lemma SourceAggregateTotal(net: Topology, fs: seq<FlowId>, parent: FlowId)
    requires Valid(net) && forall k :: 0 <= k < |fs| ==> fs[k] < |net.flows|
    ensures var r := SourceAggregate(net, fs, parent, 0, None, Zero);
            (r.Ok? <==> AllNominal(net, fs)) && (r.Ok? ==> r.value.1 == Sum(NominalCurves(net, fs)))
  {
    assert fs[..0] == [];
    assert NominalCurves(net, fs[..0]) == [];
    SourceAggregateSum(net, fs, parent, 0, None, Zero);
  }

  /** At its source, a target's accumulated delay is the delay of the first hop,
      its output is its nominal arrival delayed by that delay, and a freshly
      computed aggregate is the sum of the same-direction nominal arrivals. */
  lemma HopAtSource(net: Topology, chk: bool, c: Cache, t: Target, fuel: nat)
    requires Valid(net) && TargetValid(net, t)
    requires Hop(net, chk, c, t.source, t, fuel).res.Ok?
    ensures var o := Hop(net, chk, c, t.source, t, fuel);
            var key := (t.source, FindOutgoingLink(net, t, t.source).value.value);
            var fs := SameDirectionFlows(net, key.1, t);
            var a := NominalArrival(net, net.flows[t.parent]);
            key in c && fs.Ok? && a.Ok? && Stored(o.cache, key, o.res.value, 0.0, a.value) &&
            (!DelayKnown(c[key]) ==> AllNominal(net, fs.value) && o.res.value.totalArrival == Sum(NominalCurves(net, fs.value)))
  {
    var l := FindOutgoingLink(net, t, t.source).value.value;
    var fs := SameDirectionFlows(net, l, t);
    SourceAggregateTotal(net, fs.value, t.parent);
  }

  /** The hop of flow t.parent at the node before `node`, computed on tables c1,
      returned p. */
  predicate FedBy(net: Topology, chk: bool, c1: Cache, node: NodeId, t: Target, fuel: nat, p: HopResult)
    requires Valid(net) && TargetValid(net, t)
  {
    var up := Upstream(net, t.parent, node);
    up.Ok? && fuel > 0 && Hop(net, chk, c1, up.value.0, up.value.1, fuel - 1).res == Ok(p)
  }

  /** `Finish` from tables c returns r and leaves c'. */
  predicate FinishGives(net: Topology, chk: bool, c: Cache, node: NodeId, t: Target, l: LinkId, known: bool,
                        input: Option<AffineCurve>, prior: real, total: AffineCurve, fuel: nat,
                        r: Result<HopResult, Fault>, c': Cache)
    requires Valid(net) && TargetValid(net, t) && node < |net.nodes| && l < |net.links|
    requires (node, l) in c && (known ==> DelayKnown(c[(node, l)]))
  {
    Finish(net, chk, c, node, t, l, known, input, prior, total, fuel) == Out(r, c')
  }

  /** `Aggregate` from flow i on, with tables c, ends in goal. */
  predicate AggregateReaches(net: Topology, chk: bool, c: Cache, node: NodeId, t: Target, l: LinkId, known: bool,
                             fs: seq<FlowId>, i: nat, input: Option<AffineCurve>, prior: real, total: AffineCurve,
                             fuel: nat, goal: Out<HopResult>)
    requires Valid(net) && TargetValid(net, t) && node < |net.nodes| && l < |net.links|
    requires forall k :: 0 <= k < |fs| ==> fs[k] < |net.flows|
    requires (node, l) in c && (known ==> DelayKnown(c[(node, l)]))
  {
    Aggregate(net, chk, c, node, t, l, known, fs, i, input, prior, total, fuel) == goal
  }

  lemma AggregateUpstream(net: Topology, chk: bool, c: Cache, node: NodeId, t: Target, l: LinkId, known: bool,
                          fs: seq<FlowId>, i: nat, input: Option<AffineCurve>, prior: real, total: AffineCurve,
                          fuel: nat, goal: Out<HopResult>)
    requires Valid(net) && TargetValid(net, t) && node < |net.nodes| && l < |net.links|
    requires forall k :: 0 <= k < |fs| ==> fs[k] < |net.flows|
    requires (node, l) in c && (known ==> DelayKnown(c[(node, l)]))
    requires i < |fs| && AggregateReaches(net, chk, c, node, t, l, known, fs, i, input, prior, total, fuel, goal)
    ensures Upstream(net, fs[i], node).Err? ==> goal == Out(Err(Upstream(net, fs[i], node).error), c)
    ensures Upstream(net, fs[i], node).Ok? && (!known || fs[i] == t.parent) && fuel == 0 ==> goal == Out(Err(OutOfFuel), c)
    ensures Upstream(net, fs[i], node).Ok? && known && fs[i] != t.parent ==>
              AggregateReaches(net, chk, c, node, t, l, known, fs, i + 1, input, prior, total, fuel, goal)
  {
  }

  lemma AggregateHopFails(net: Topology, chk: bool, c: Cache, node: NodeId, t: Target, l: LinkId, known: bool,
                          fs: seq<FlowId>, i: nat, input: Option<AffineCurve>, prior: real, total: AffineCurve,
                          fuel: nat, goal: Out<HopResult>, prev: NodeId, up: Target, e: Fault, c': Cache)
    requires Valid(net) && TargetValid(net, t) && node < |net.nodes| && l < |net.links|
    requires forall k :: 0 <= k < |fs| ==> fs[k] < |net.flows|
    requires (node, l) in c && (known ==> DelayKnown(c[(node, l)]))
    requires i < |fs| && AggregateReaches(net, chk, c, node, t, l, known, fs, i, input, prior, total, fuel, goal)
    requires Upstream(net, fs[i], node) == Ok((prev, up)) && (!known || fs[i] == t.parent) && fuel > 0
    requires HopGives(net, chk, c, prev, up, fuel - 1, Err(e), c')
    ensures goal == Out(Err(e), c')
  {
  }

  lemma AggregateHopGoes(net: Topology, chk: bool, c: Cache, node: NodeId, t: Target, l: LinkId, known: bool,
                         fs: seq<FlowId>, i: nat, input: Option<AffineCurve>, prior: real, total: AffineCurve,
                         fuel: nat, goal: Out<HopResult>, prev: NodeId, up: Target, h: HopResult, c': Cache,
                         input': Option<AffineCurve>, prior': real, total': AffineCurve)
    requires Valid(net) && TargetValid(net, t) && node < |net.nodes| && l < |net.links|
    requires forall k :: 0 <= k < |fs| ==> fs[k] < |net.flows|
    requires (node, l) in c && (known ==> DelayKnown(c[(node, l)]))
    requires i < |fs| && AggregateReaches(net, chk, c, node, t, l, known, fs, i, input, prior, total, fuel, goal)
    requires Upstream(net, fs[i], node) == Ok((prev, up)) && (!known || fs[i] == t.parent) && fuel > 0
    requires HopGives(net, chk, c, prev, up, fuel - 1, Ok(h), c')
    requires input' == (if fs[i] == t.parent then Some(h.outputArrival) else input)
    requires prior' == (if fs[i] == t.parent then prior + h.delay else prior)
    requires total' == Add(total, h.outputArrival)
    ensures (node, l) in c' && (known ==> DelayKnown(c'[(node, l)]))
    ensures AggregateReaches(net, chk, c', node, t, l, known, fs, i + 1, input', prior', total', fuel, goal)
  {
    assert Keeps(c, c', (node, l));
  }

  lemma AggregateEnd(net: Topology, chk: bool, c: Cache, node: NodeId, t: Target, l: LinkId, known: bool,
                     fs: seq<FlowId>, input: Option<AffineCurve>, prior: real, total: AffineCurve,
                     fuel: nat, goal: Out<HopResult>)
    requires Valid(net) && TargetValid(net, t) && node < |net.nodes| && l < |net.links|
    requires forall k :: 0 <= k < |fs| ==> fs[k] < |net.flows|
    requires (node, l) in c && (known ==> DelayKnown(c[(node, l)]))
    requires AggregateReaches(net, chk, c, node, t, l, known, fs, |fs|, input, prior, total, fuel, goal)
    ensures FinishGives(net, chk, c, node, t, l, known, input, prior, total, fuel, goal.res, goal.cache)
  {
  }

  /** Without the query flow among fs[i..], its input arrival and prior delay
      pass through the rest of the aggregation unchanged. */
  lemma {:induction false} AggregateKeeps(net: Topology, chk: bool, c: Cache, node: NodeId, t: Target, l: LinkId, known: bool,
                 fs: seq<FlowId>, i: nat, input: Option<AffineCurve>, prior: real, total: AffineCurve, fuel: nat,
                 goal: Out<HopResult>)
    requires Valid(net) && TargetValid(net, t) && node < |net.nodes| && l < |net.links|
    requires forall k :: 0 <= k < |fs| ==> fs[k] < |net.flows|
    requires (node, l) in c && (known ==> DelayKnown(c[(node, l)]))
    requires i <= |fs| && t.parent !in fs[i..]
    requires AggregateReaches(net, chk, c, node, t, l, known, fs, i, input, prior, total, fuel, goal)
    ensures goal.res.Ok? ==> input.Some? && Stored(goal.cache, (node, l), goal.res.value, prior, input.value)
    decreases |fs| - i
  {
    if i < |fs| {
      assert fs[i..] == [fs[i]] + fs[i + 1..];
      AggregateUpstream(net, chk, c, node, t, l, known, fs, i, input, prior, total, fuel, goal);
      var up := Upstream(net, fs[i], node);
      if up.Ok? && known {
        AggregateKeeps(net, chk, c, node, t, l, known, fs, i + 1, input, prior, total, fuel, goal);
      } else if up.Ok? && fuel > 0 {
        var (prev, ut) := up.value;
        var o1 := Hop(net, chk, c, prev, ut, fuel - 1);
        if o1.res.Err? {
          AggregateHopFails(net, chk, c, node, t, l, known, fs, i, input, prior, total, fuel, goal, prev, ut, o1.res.error, o1.cache);
        } else {
          var total' := Add(total, o1.res.value.outputArrival);
          AggregateHopGoes(net, chk, c, node, t, l, known, fs, i, input, prior, total, fuel, goal, prev, ut, o1.res.value, o1.cache,
                           input, prior, total');
          AggregateKeeps(net, chk, o1.cache, node, t, l, known, fs, i + 1, input, prior, total', fuel, goal);
        }
      }
    } else {
      AggregateEnd(net, chk, c, node, t, l, known, fs, input, prior, total, fuel, goal);
    }
  }

  /** With the query flow among fs[i..], the input arrival and the prior
      delay come from its hop at the previous node. */
  /** Some hop of the query flow at the previous node returned p, and this hop
      adds its own delay to p's accumulated delay and delays p's output. */
  ghost predicate FedStored(net: Topology, chk: bool, node: NodeId, t: Target, fuel: nat, c: Cache, key: Key, r: HopResult, prior: real)
    requires Valid(net) && TargetValid(net, t)
  {
    exists c1, p :: FedBy(net, chk, c1, node, t, fuel, p) && Stored(c, key, r, prior + p.delay, p.outputArrival)
  }

  lemma {:induction false} AggregateFeeds(net: Topology, chk: bool, c: Cache, node: NodeId, t: Target, l: LinkId, known: bool,
                 fs: seq<FlowId>, i: nat, input: Option<AffineCurve>, prior: real, total: AffineCurve, fuel: nat,
                 goal: Out<HopResult>)
    requires Valid(net) && TargetValid(net, t) && node < |net.nodes| && l < |net.links|
    requires forall k :: 0 <= k < |fs| ==> fs[k] < |net.flows|
    requires (node, l) in c && (known ==> DelayKnown(c[(node, l)]))
    requires NoDup(fs) && i <= |fs| && t.parent in fs[i..]
    requires AggregateReaches(net, chk, c, node, t, l, known, fs, i, input, prior, total, fuel, goal)
    ensures goal.res.Ok? ==> FedStored(net, chk, node, t, fuel, goal.cache, (node, l), goal.res.value, prior)
    decreases |fs| - i, 1
  {
    if fs[i] == t.parent {
      FeedsHere(net, chk, c, node, t, l, known, fs, i, input, prior, total, fuel, goal);
    } else {
      assert t.parent in fs[i + 1..] by {
        var k :| i <= k < |fs| && fs[k] == t.parent;
        assert fs[k] == fs[i + 1..][k - i - 1];
      }
      FeedsPast(net, chk, c, node, t, l, known, fs, i, input, prior, total, fuel, goal);
    }
  }

  /** The step of `AggregateFeeds` at another flow. */
  lemma {:induction false} FeedsPast(net: Topology, chk: bool, c: Cache, node: NodeId, t: Target, l: LinkId, known: bool,
                 fs: seq<FlowId>, i: nat, input: Option<AffineCurve>, prior: real, total: AffineCurve, fuel: nat,
                 goal: Out<HopResult>)
    requires Valid(net) && TargetValid(net, t) && node < |net.nodes| && l < |net.links|
    requires forall k :: 0 <= k < |fs| ==> fs[k] < |net.flows|
    requires (node, l) in c && (known ==> DelayKnown(c[(node, l)]))
    requires NoDup(fs) && i < |fs| && fs[i] != t.parent && t.parent in fs[i + 1..]
    requires AggregateReaches(net, chk, c, node, t, l, known, fs, i, input, prior, total, fuel, goal)
    ensures goal.res.Ok? ==> FedStored(net, chk, node, t, fuel, goal.cache, (node, l), goal.res.value, prior)
    decreases |fs| - i, 0
  {
    AggregateUpstream(net, chk, c, node, t, l, known, fs, i, input, prior, total, fuel, goal);
    var up := Upstream(net, fs[i], node);
    if up.Ok? && known {
      AggregateFeeds(net, chk, c, node, t, l, known, fs, i + 1, input, prior, total, fuel, goal);
    } else if up.Ok? && fuel > 0 {
      var (prev, ut) := up.value;
      var o1 := Hop(net, chk, c, prev, ut, fuel - 1);
      if o1.res.Err? {
        AggregateHopFails(net, chk, c, node, t, l, known, fs, i, input, prior, total, fuel, goal, prev, ut, o1.res.error, o1.cache);
      } else {
        var total' := Add(total, o1.res.value.outputArrival);
        AggregateHopGoes(net, chk, c, node, t, l, known, fs, i, input, prior, total, fuel, goal, prev, ut, o1.res.value, o1.cache,
                         input, prior, total');
        AggregateFeeds(net, chk, o1.cache, node, t, l, known, fs, i + 1, input, prior, total', fuel, goal);
      }
    }
  }

  /** The step of `AggregateFeeds` at the query flow itself. */
  lemma FeedsHere(net: Topology, chk: bool, c: Cache, node: NodeId, t: Target, l: LinkId, known: bool,
                 fs: seq<FlowId>, i: nat, input: Option<AffineCurve>, prior: real, total: AffineCurve, fuel: nat,
                 goal: Out<HopResult>)
    requires Valid(net) && TargetValid(net, t) && node < |net.nodes| && l < |net.links|
    requires forall k :: 0 <= k < |fs| ==> fs[k] < |net.flows|
    requires (node, l) in c && (known ==> DelayKnown(c[(node, l)]))
    requires NoDup(fs) && i < |fs| && fs[i] == t.parent
    requires AggregateReaches(net, chk, c, node, t, l, known, fs, i, input, prior, total, fuel, goal)
    ensures goal.res.Ok? ==> FedStored(net, chk, node, t, fuel, goal.cache, (node, l), goal.res.value, prior)
  {
    AggregateUpstream(net, chk, c, node, t, l, known, fs, i, input, prior, total, fuel, goal);
    var up := Upstream(net, fs[i], node);
    if up.Ok? && fuel > 0 {
      var (prev, ut) := up.value;
      var o1 := Hop(net, chk, c, prev, ut, fuel - 1);
      if o1.res.Err? {
        AggregateHopFails(net, chk, c, node, t, l, known, fs, i, input, prior, total, fuel, goal, prev, ut, o1.res.error, o1.cache);
      } else {
        var h := o1.res.value;
        AggregateHopGoes(net, chk, c, node, t, l, known, fs, i, input, prior, total, fuel, goal, prev, ut, h, o1.cache,
                         Some(h.outputArrival), prior + h.delay, Add(total, h.outputArrival));
        FeedsFrom(net, chk, c, node, t, l, known, fs, i, prior, total, fuel, goal, prev, ut, h, o1.cache);
      }
    }
  }

  /** `FeedsHere` once the hop of the query flow at the previous node has
      returned h. */
  lemma FeedsFrom(net: Topology, chk: bool, c: Cache, node: NodeId, t: Target, l: LinkId, known: bool,
                  fs: seq<FlowId>, i: nat, prior: real, total: AffineCurve, fuel: nat, goal: Out<HopResult>,
                  prev: NodeId, ut: Target, h: HopResult, c': Cache)
    requires Valid(net) && TargetValid(net, t) && node < |net.nodes| && l < |net.links|
    requires forall k :: 0 <= k < |fs| ==> fs[k] < |net.flows|
    requires NoDup(fs) && i < |fs| && fs[i] == t.parent
    requires Upstream(net, fs[i], node) == Ok((prev, ut)) && fuel > 0
    requires HopGives(net, chk, c, prev, ut, fuel - 1, Ok(h), c')
    requires (node, l) in c' && (known ==> DelayKnown(c'[(node, l)]))
    requires AggregateReaches(net, chk, c', node, t, l, known, fs, i + 1, Some(h.outputArrival), prior + h.delay,
                              Add(total, h.outputArrival), fuel, goal)
    ensures goal.res.Ok? ==> FedStored(net, chk, node, t, fuel, goal.cache, (node, l), goal.res.value, prior)
  {
    assert t.parent !in fs[i + 1..] by {
      forall k | i + 1 <= k < |fs| ensures fs[k] != t.parent { assert fs[i] != fs[k]; }
    }
    AggregateKeeps(net, chk, c', node, t, l, known, fs, i + 1, Some(h.outputArrival), prior + h.delay,
                   Add(total, h.outputArrival), fuel, goal);
    assert FedBy(net, chk, c, node, t, fuel, h);
  }

  /** Away from its source, a target's accumulated delay is the accumulated
      delay returned by the hop of the same flow at the previous node plus the
      delay of this hop, and its output arrival is that hop's output delayed by
      this hop's delay. */
  lemma HopFeeds(net: Topology, chk: bool, c: Cache, node: NodeId, t: Target, fuel: nat)
    requires Valid(net) && TargetValid(net, t) && node < |net.nodes| && node != t.source
    requires Hop(net, chk, c, node, t, fuel).res.Ok?
    ensures var o := Hop(net, chk, c, node, t, fuel);
            var key := (node, FindOutgoingLink(net, t, node).value.value);
            exists c1, p :: FedBy(net, chk, c1, node, t, fuel, p) &&
                            Stored(o.cache, key, o.res.value, p.delay, p.outputArrival)
  {
    var l := FindOutgoingLink(net, t, node).value.value;
    var fs := SameDirectionFlows(net, l, t);
    SameDirectionFlowsSpec(net, l, t);
    var known := DelayKnown(c[(node, l)]);
    assert fs.value[0..] == fs.value;
    if t.parent in fs.value {
      AggregateFeeds(net, chk, c, node, t, l, known, fs.value, 0, None, 0.0, Zero, fuel,
                     Aggregate(net, chk, c, node, t, l, known, fs.value, 0, None, 0.0, Zero, fuel));
    } else {
      AggregateKeeps(net, chk, c, node, t, l, known, fs.value, 0, None, 0.0, Zero, fuel,
                     Aggregate(net, chk, c, node, t, l, known, fs.value, 0, None, 0.0, Zero, fuel));
    }
  }

  // ---------------------------------------------------------------------------
  // Readers of the tables
  // ---------------------------------------------------------------------------

  /** The inner loop of `getTargetLeavingThroughLink` over targets k onward of
      one flow: the first whose outgoing link at `node` is l. */
  function LeavingTarget(net: Topology, node: NodeId, l: LinkId, ts: seq<Target>, k: nat): (r: Result<Option<Target>, Fault>)
    decreases |ts| - k
    ensures r.Ok? && r.value.Some? ==>
              (exists j :: k <= j < |ts| && ts[j] == r.value.value) && FindOutgoingLink(net, r.value.value, node) == Ok(Some(l))
    ensures r.Ok? && r.value.None? ==> forall j :: k <= j < |ts| ==> FindOutgoingLink(net, ts[j], node).Ok? &&
                                                                     FindOutgoingLink(net, ts[j], node) != Ok(Some(l))
  {
    if k >= |ts| then Ok(None)
    else
      var out :- FindOutgoingLink(net, ts[k], node);
      if out == Some(l) then Ok(Some(ts[k])) else LeavingTarget(net, node, l, ts, k + 1)
  }

  /** The outer loop of `getTargetLeavingThroughLink`, over the link's flows
      from i on. */
  function LeavingFrom(net: Topology, node: NodeId, l: LinkId, i: nat): (r: Result<Option<Target>, Fault>)
    requires Valid(net) && l < |net.links|
    decreases |net.links[l].flows| - i
    ensures r.Ok? && r.value.Some? ==>
              TargetValid(net, r.value.value) && FindOutgoingLink(net, r.value.value, node) == Ok(Some(l)) &&
              r.value.value.parent in net.links[l].flows && r.value.value in net.flows[r.value.value.parent].targets
    ensures r.Ok? && r.value.None? ==>
              forall j, k :: i <= j < |net.links[l].flows| && 0 <= k < |net.flows[net.links[l].flows[j]].targets| ==>
                FindOutgoingLink(net, net.flows[net.links[l].flows[j]].targets[k], node) != Ok(Some(l))
  {
    var fs := net.links[l].flows;
    if i >= |fs| then Ok(None)
    else
      assert LinkValid(net, net.links[l]);
      var found :- LeavingTarget(net, node, l, net.flows[fs[i]].targets, 0);
      if found.Some? then
        TargetOfValid(net, fs[i], found.value);
        Ok(found)
      else LeavingFrom(net, node, l, i + 1)
  }

  /** `Node.getTargetLeavingThroughLink(link)`. */
  function TargetLeaving(net: Topology, node: NodeId, l: LinkId): (r: Result<Option<Target>, Fault>)
    requires Valid(net) && l < |net.links|
    ensures r.Ok? && r.value.Some? ==>
              TargetValid(net, r.value.value) && FindOutgoingLink(net, r.value.value, node) == Ok(Some(l)) &&
              r.value.value.parent in net.links[l].flows && r.value.value in net.flows[r.value.value.parent].targets
    ensures r.Ok? && r.value.None? ==>
              forall f, k :: f in net.links[l].flows && 0 <= k < |net.flows[f].targets| ==>
                FindOutgoingLink(net, net.flows[f].targets[k], node) != Ok(Some(l))
  {
    assert LinkValid(net, net.links[l]);
    LeavingFrom(net, node, l, 0)
  }

  /** `Node.getBacklog(link)`: the stored backlog when it is known, 0 when no
      target leaves through the link, else the backlog of a fresh computation. */
  function GetBacklog(net: Topology, chk: bool, c: Cache, node: NodeId, l: LinkId, fuel: nat): (o: Out<Bound>)
    requires Valid(net) && node < |net.nodes| && l < |net.links|
    ensures Extends(c, o.cache)
    ensures (node, l) !in c ==> o.res == Err(MissingCacheEntry)
    ensures (node, l) in c && BacklogKnown(c[(node, l)]) ==> o == Out(Ok(c[(node, l)].value.backlog), c)
    ensures (node, l) in c && TargetLeaving(net, node, l) == Ok(None) && !BacklogKnown(c[(node, l)]) ==>
              o == Out(Ok(Finite(0.0)), c)
    ensures o.res.Ok? && (node, l) in c && !BacklogKnown(c[(node, l)]) && TargetLeaving(net, node, l) != Ok(None) ==>
              (node, l) in o.cache && o.cache[(node, l)].Some? && o.res.value == o.cache[(node, l)].value.backlog
  {
    if (node, l) !in c then Out(Err(MissingCacheEntry), c)
    else if BacklogKnown(c[(node, l)]) then Out(Ok(c[(node, l)].value.backlog), c)
    else
      var leaving := TargetLeaving(net, node, l);
      if leaving.Err? then Out(Err(leaving.error), c)
      else if leaving.value.None? then Out(Ok(Finite(0.0)), c)
      else
        var o := Hop(net, chk, c, node, leaving.value.value, fuel);
        if o.res.Err? then Out(Err(o.res.error), o.cache) else Out(Ok(o.res.value.backlog), o.cache)
  }

  /** `Node.getDelay(link)` as written: the stored hop delay when it is known,
      but after a fresh computation the delay accumulated from the source of
      the leaving target up to and including this hop. */
  function GetDelay(net: Topology, chk: bool, c: Cache, node: NodeId, l: LinkId, fuel: nat): (o: Out<Bound>)
    requires Valid(net) && node < |net.nodes| && l < |net.links|
    ensures Extends(c, o.cache)
    ensures (node, l) !in c ==> o.res == Err(MissingCacheEntry)
    ensures (node, l) in c && DelayKnown(c[(node, l)]) ==> o == Out(Ok(c[(node, l)].value.delay), c)
    ensures (node, l) in c && TargetLeaving(net, node, l) == Ok(None) && !DelayKnown(c[(node, l)]) ==>
              o == Out(Ok(Finite(0.0)), c)
  {
    if (node, l) !in c then Out(Err(MissingCacheEntry), c)
    else if DelayKnown(c[(node, l)]) then Out(Ok(c[(node, l)].value.delay), c)
    else
      var leaving := TargetLeaving(net, node, l);
      if leaving.Err? then Out(Err(leaving.error), c)
      else if leaving.value.None? then Out(Ok(Finite(0.0)), c)
      else
        var o := Hop(net, chk, c, node, leaving.value.value, fuel);
        if o.res.Err? then Out(Err(o.res.error), o.cache) else Out(Ok(Finite(o.res.value.delay)), o.cache)
  }

  /** `getDelay` as evidently intended: the delay of this hop alone, the value
      the tables hold once it is computed. */
  function GetHopDelay(net: Topology, chk: bool, c: Cache, node: NodeId, l: LinkId, fuel: nat): (o: Out<Bound>)
    requires Valid(net) && node < |net.nodes| && l < |net.links|
    ensures Extends(c, o.cache)
    ensures (node, l) !in c ==> o.res == Err(MissingCacheEntry)
    ensures (node, l) in c && DelayKnown(c[(node, l)]) ==> o == Out(Ok(c[(node, l)].value.delay), c)
    ensures (node, l) in c && TargetLeaving(net, node, l) == Ok(None) && !DelayKnown(c[(node, l)]) ==>
              o == Out(Ok(Finite(0.0)), c)
    ensures o.res.Ok? && (node, l) in c && TargetLeaving(net, node, l) != Ok(None) ==>
              (node, l) in o.cache && o.cache[(node, l)].Some? && o.res.value == o.cache[(node, l)].value.delay
  {
    if (node, l) !in c then Out(Err(MissingCacheEntry), c)
    else if DelayKnown(c[(node, l)]) then Out(Ok(c[(node, l)].value.delay), c)
    else
      var leaving := TargetLeaving(net, node, l);
      if leaving.Err? then Out(Err(leaving.error), c)
      else if leaving.value.None? then Out(Ok(Finite(0.0)), c)
      else
        var o := Hop(net, chk, c, node, leaving.value.value, fuel);
        if o.res.Err? then Out(Err(o.res.error), o.cache) else Out(Ok(o.cache[(node, l)].value.delay), o.cache)
  }

  /** `Node.getTotalBacklog()` from the i-th link of the node on. */
  function TotalBacklogFrom(net: Topology, chk: bool, c: Cache, node: NodeId, ls: seq<LinkId>, i: nat,
                            acc: Bound, fuel: nat): (o: Out<Bound>)
    requires Valid(net) && node < |net.nodes| && forall k :: 0 <= k < |ls| ==> ls[k] < |net.links|
    decreases |ls| - i
    ensures Extends(c, o.cache)
  {
    if i >= |ls| then Out(Ok(acc), c)
    else
      var o := GetBacklog(net, chk, c, node, ls[i], fuel);
      if o.res.Err? then Out(Err(o.res.error), o.cache)
      else
        var o' := TotalBacklogFrom(net, chk, o.cache, node, ls, i + 1, acc.Plus(o.res.value), fuel);
        ExtendsTrans(c, o.cache, o'.cache);
        o'
  }

  /** `Node.getTotalBacklog()`: the backlogs of all links at the node, summed. */
  function GetTotalBacklog(net: Topology, chk: bool, c: Cache, node: NodeId, fuel: nat): (o: Out<Bound>)
    requires Valid(net) && node < |net.nodes|
    ensures Extends(c, o.cache)
  {
    TotalBacklogFrom(net, chk, c, node, GetLinks(net, node), 0, Finite(0.0), fuel)
  }

  /** `Target.computeEndToEndDelay()`: the delay accumulated up to the node
      before the destination, `path[-1]`. */
  function EndToEnd(net: Topology, chk: bool, c: Cache, t: Target, fuel: nat): (o: Out<real>)
    requires Valid(net) && TargetValid(net, t)
    ensures Extends(c, o.cache)
    ensures t.path == [] ==> o.res == Err(EmptyPath)
  {
    if t.path == [] then Out(Err(EmptyPath), c)
    else
      var prev := FindPreviousNode(t, t.path[|t.path| - 1]);
      if prev.Err? then Out(Err(prev.error), c)
      else
        FindPreviousNodeLast(t, t.path[|t.path| - 1], prev.value);
        PathNodesValid(net, t, prev.value);
        var o := Hop(net, chk, c, prev.value, t, fuel);
        if o.res.Err? then Out(Err(o.res.error), o.cache) else Out(Ok(o.res.value.delay), o.cache)
  }

  // ---------------------------------------------------------------------------
  // Properties of the readers
  // ---------------------------------------------------------------------------

  /** Once a hop is computed, its tables answer the readers: the backlog and
      the hop delay read back are the ones the hop returned and stored, and
      reading changes nothing. */
  lemma ReadAfterHop(net: Topology, chk: bool, c: Cache, node: NodeId, t: Target, fuel: nat, fuel': nat)
    requires Valid(net) && TargetValid(net, t) && node < |net.nodes|
    requires Hop(net, chk, c, node, t, fuel).res.Ok?
    ensures var o := Hop(net, chk, c, node, t, fuel);
            var l := FindOutgoingLink(net, t, node).value.value;
            var d := o.cache[(node, l)].value.delay;
            (o.res.value.backlog.NonNegative() ==> GetBacklog(net, chk, o.cache, node, l, fuel') == Out(Ok(o.res.value.backlog), o.cache)) &&
            (d.value >= 0.0 ==> GetHopDelay(net, chk, o.cache, node, l, fuel') == Out(Ok(d), o.cache))
  {
  }

  /** An uncomputed cell with a leaving target makes `getDelay` return the
      accumulated delay of that target's hop. */
  lemma GetDelayComputes(net: Topology, chk: bool, c: Cache, node: NodeId, l: LinkId, t: Target, fuel: nat)
    requires Valid(net) && node < |net.nodes| && l < |net.links|
    requires (node, l) in c && !DelayKnown(c[(node, l)]) && TargetLeaving(net, node, l) == Ok(Some(t))
    ensures TargetValid(net, t)
    ensures var h := Hop(net, chk, c, node, t, fuel);
            h.res.Ok? ==> GetDelay(net, chk, c, node, l, fuel) == Out(Ok(Finite(h.res.value.delay)), h.cache)
  {
  }

  /** Found while stating the readers' contracts: when `getDelay` has to
      compute the hop of a target that did not start at this node, it returns
      the delay accumulated since the source, not the delay it stores for the
      hop (see `GetDelayRereads` for the next call). */
  lemma GetDelayAccumulates(net: Topology, chk: bool, c: Cache, node: NodeId, l: LinkId, t: Target, fuel: nat)
    requires Valid(net) && node < |net.nodes| && l < |net.links|
    requires (node, l) in c && !DelayKnown(c[(node, l)]) && TargetLeaving(net, node, l) == Ok(Some(t))
    requires t.source != node && GetDelay(net, chk, c, node, l, fuel).res.Ok?
    ensures var o := GetDelay(net, chk, c, node, l, fuel);
            (node, l) in o.cache && o.cache[(node, l)].Some? && o.cache[(node, l)].value.delay.Finite? &&
            exists c1, p :: FedBy(net, chk, c1, node, t, fuel, p) &&
                            o.res.value == Finite(p.delay + o.cache[(node, l)].value.delay.value)
  {
    GetDelayComputes(net, chk, c, node, l, t, fuel);
    HopFeeds(net, chk, c, node, t, fuel);
  }

  /** After `getDelay` has computed a hop, a second call reads the stored hop
      delay back unchanged. */
  lemma GetDelayRereads(net: Topology, chk: bool, c: Cache, node: NodeId, l: LinkId, fuel: nat, fuel': nat)
    requires Valid(net) && node < |net.nodes| && l < |net.links|
    requires (node, l) in c && !DelayKnown(c[(node, l)])
    requires TargetLeaving(net, node, l).Ok? && TargetLeaving(net, node, l).value.Some?
    requires GetDelay(net, chk, c, node, l, fuel).res.Ok?
    ensures var o := GetDelay(net, chk, c, node, l, fuel);
            (node, l) in o.cache && o.cache[(node, l)].Some? &&
            (DelayKnown(o.cache[(node, l)]) ==>
               GetDelay(net, chk, o.cache, node, l, fuel') == Out(Ok(o.cache[(node, l)].value.delay), o.cache))
  {
    var t := TargetLeaving(net, node, l).value.value;
    var o := Hop(net, chk, c, node, t, fuel);
    assert GetDelay(net, chk, c, node, l, fuel) == Out(Ok(Finite(o.res.value.delay)), o.cache);
  }

  /** The corrected reader answers the same on every call once it has
      answered. */
  lemma GetHopDelayStable(net: Topology, chk: bool, c: Cache, node: NodeId, l: LinkId, fuel: nat, fuel': nat)
    requires Valid(net) && node < |net.nodes| && l < |net.links|
    requires GetHopDelay(net, chk, c, node, l, fuel).res.Ok?
    requires GetHopDelay(net, chk, c, node, l, fuel).res.value.NonNegative()
    ensures var o := GetHopDelay(net, chk, c, node, l, fuel);
            GetHopDelay(net, chk, o.cache, node, l, fuel') == Out(o.res, o.cache)
  {
    var o := GetHopDelay(net, chk, c, node, l, fuel);
    if !DelayKnown(c[(node, l)]) && TargetLeaving(net, node, l) != Ok(None) {
      assert DelayKnown(o.cache[(node, l)]);
    }
  }

  /** The corrected reader and the backlog reader describe the same hop: after
      either has computed it, the delay and backlog it left in the tables are
      those of one call of the hop computation. */
  lemma GetHopDelayIsHop(net: Topology, chk: bool, c: Cache, node: NodeId, l: LinkId, fuel: nat)
    requires Valid(net) && node < |net.nodes| && l < |net.links|
    requires (node, l) in c && !DelayKnown(c[(node, l)])
    requires TargetLeaving(net, node, l).Ok? && TargetLeaving(net, node, l).value.Some?
    requires GetHopDelay(net, chk, c, node, l, fuel).res.Ok?
    ensures var t := TargetLeaving(net, node, l).value.value;
            var h := Hop(net, chk, c, node, t, fuel);
            var o := GetHopDelay(net, chk, c, node, l, fuel);
            h.res.Ok? && o.cache == h.cache && Cell(o.cache, (node, l), h.res.value) &&
            o.res.value == o.cache[(node, l)].value.delay
  {
  }

  /** The sum of the backlogs stored for links ls[i..] of the node. */
  function StoredBacklogs(c: Cache, node: NodeId, ls: seq<LinkId>, i: nat, acc: Bound): Bound
    requires forall k :: 0 <= k < |ls| ==> (node, ls[k]) in c && BacklogKnown(c[(node, ls[k])])
    decreases |ls| - i
  {
    if i >= |ls| then acc
    else
      assert BacklogKnown(c[(node, ls[i])]);
      StoredBacklogs(c, node, ls, i + 1, acc.Plus(c[(node, ls[i])].value.backlog))
  }

  lemma {:induction false} TotalFromStored(net: Topology, chk: bool, c: Cache, node: NodeId, ls: seq<LinkId>, i: nat,
                                           acc: Bound, fuel: nat)
    requires Valid(net) && node < |net.nodes| && forall k :: 0 <= k < |ls| ==> ls[k] < |net.links|
    requires forall k :: 0 <= k < |ls| ==> (node, ls[k]) in c && BacklogKnown(c[(node, ls[k])])
    ensures TotalBacklogFrom(net, chk, c, node, ls, i, acc, fuel) == Out(Ok(StoredBacklogs(c, node, ls, i, acc)), c)
    decreases |ls| - i
  {
    if i < |ls| {
      TotalFromStored(net, chk, c, node, ls, i + 1, acc.Plus(c[(node, ls[i])].value.backlog), fuel);
    }
  }

  /** When every link of the node has a known backlog, the total backlog is
      the sum of the stored backlogs and the tables are left as they are. */
  lemma TotalBacklogStored(net: Topology, chk: bool, c: Cache, node: NodeId, fuel: nat)
    requires Valid(net) && node < |net.nodes|
    requires forall k :: 0 <= k < |GetLinks(net, node)| ==>
               (node, GetLinks(net, node)[k]) in c && BacklogKnown(c[(node, GetLinks(net, node)[k])])
    ensures var ls := GetLinks(net, node);
            GetTotalBacklog(net, chk, c, node, fuel) == Out(Ok(StoredBacklogs(c, node, ls, 0, Finite(0.0))), c)
  {
    var ls := GetLinks(net, node);
    TotalFromStored(net, chk, c, node, ls, 0, Finite(0.0), fuel);
  }

  /** The end-to-end delay of a target is the accumulated delay of its hop at
      the node before its destination: the first hop's delay when that node is
      the source, else the upstream accumulated delay plus that hop's delay. */
  lemma EndToEndChain(net: Topology, chk: bool, c: Cache, t: Target, fuel: nat)
    requires Valid(net) && TargetValid(net, t)
    requires EndToEnd(net, chk, c, t, fuel).res.Ok?
    ensures var prev := FindPreviousNode(t, t.path[|t.path| - 1]).value;
            var d := EndToEnd(net, chk, c, t, fuel).res.value;
            prev < |net.nodes| && Hop(net, chk, c, prev, t, fuel).res.Ok? &&
            var h := Hop(net, chk, c, prev, t, fuel);
            var key := (prev, FindOutgoingLink(net, t, prev).value.value);
            (prev == t.source ==> d == h.cache[key].value.delay.value) &&
            (prev != t.source ==> exists c1, p :: FedBy(net, chk, c1, prev, t, fuel, p) &&
                                                 d == p.delay + h.cache[key].value.delay.value)
  {
    var prev := FindPreviousNode(t, t.path[|t.path| - 1]).value;
    FindPreviousNodeLast(t, t.path[|t.path| - 1], prev);
    PathNodesValid(net, t, prev);
    if prev == t.source {
      HopAtSource(net, chk, c, t, fuel);
    } else {
      HopFeeds(net, chk, c, prev, t, fuel);
    }
  }
}
