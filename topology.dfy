/** The entities of Classes.py as an arena: nodes, links and flows are
    addressed by their index; a target is a value held by its flow. */
module Topology {
  import opened Wrappers
  import opened Errors
  import opened Curves

  type NodeId = nat
  type LinkId = nat
  type FlowId = nat

  datatype Technique = CutThrough | StoreAndForward

  /** Station or Switch; only a Switch has a switching technique and a buffer. */
  datatype NodeKind = Station | Switch(technique: Technique, buffer: real)

  datatype Node = Node(kind: NodeKind, capacity: real, techLatency: real)

  /** `flows` is the link's dictionary of flows, in insertion order. */
  datatype Link = Link(start: NodeId, end: NodeId, capacity: real, flows: seq<FlowId>)

  /** One destination of a flow: `path` is the explicit route after `source`. */
  datatype Target = Target(dest: NodeId, source: NodeId, path: seq<NodeId>, parent: FlowId)

  /** A flow after `setNetwork`, so `maxMessageSize` is known. */
  datatype Flow = Flow(jitter: real, maxPayload: real, period: real, priority: int,
                       source: NodeId, targets: seq<Target>, maxMessageSize: real)

  datatype Topology = Topology(nodes: seq<Node>, links: seq<Link>, flows: seq<Flow>, overhead: real)

  predicate NoDup(s: seq<nat>)
  {
    forall i, j :: 0 <= i < j < |s| ==> s[i] != s[j]
  }

  predicate TargetValid(net: Topology, t: Target)
  {
    t.source < |net.nodes| && t.dest < |net.nodes| && t.parent < |net.flows| &&
    forall i :: 0 <= i < |t.path| ==> t.path[i] < |net.nodes|
  }

  predicate LinkValid(net: Topology, l: Link)
  {
    l.start < |net.nodes| && l.end < |net.nodes| && NoDup(l.flows) &&
    forall i :: 0 <= i < |l.flows| ==> l.flows[i] < |net.flows|
  }

  /** A flow of the network: `setNetwork` has given it the network's overhead,
      and its references resolve. */
  predicate FlowValid(net: Topology, id: FlowId)
    requires id < |net.flows|
  {
    net.flows[id] == SetNetwork(net.flows[id], net.overhead) &&
    net.flows[id].source < |net.nodes| &&
    forall k :: 0 <= k < |net.flows[id].targets| ==>
      TargetValid(net, net.flows[id].targets[k]) && net.flows[id].targets[k].parent == id
  }

  /** Every reference in the arena names an existing entity, as the object
      references of the source always do once names are resolved. */
  predicate Valid(net: Topology)
  {
    (forall l :: 0 <= l < |net.links| ==> LinkValid(net, net.links[l])) &&
    (forall f :: 0 <= f < |net.flows| ==> FlowValid(net, f))
  }

  lemma TargetOfValid(net: Topology, f: FlowId, t: Target)
    requires Valid(net) && f < |net.flows| && t in net.flows[f].targets
    ensures TargetValid(net, t) && t.parent == f
  {
    assert FlowValid(net, f);
    var k :| 0 <= k < |net.flows[f].targets| && net.flows[f].targets[k] == t;
  }

  lemma PathNodesValid(net: Topology, t: Target, x: NodeId)
    requires TargetValid(net, t) && x in [t.source] + t.path
    ensures x < |net.nodes|
  {
    if x != t.source {
      var i :| 0 <= i < |t.path| && t.path[i] == x;
    }
  }

  // ---------------------------------------------------------------------------
  // Flow and node curves
  // ---------------------------------------------------------------------------

  /** `Flow.setNetwork`: the payload gains the network's per-frame overhead. */
  function SetNetwork(f: Flow, overhead: real): (g: Flow)
    ensures g.maxMessageSize - g.maxPayload == overhead
    ensures g.(maxMessageSize := f.maxMessageSize) == f
  {
    f.(maxMessageSize := f.maxPayload + overhead)
  }

  /** `Flow.computeArrivalAffine(BE)`; `sourceCapacity` is the transmission
      capacity of the flow's source node. */
  function ArrivalAffine(f: Flow, be: bool, sourceCapacity: real): (r: Result<AffineCurve, Fault>)
    ensures f.period - f.jitter == 0.0 ==> r == Err(DivisionByZero)
    ensures r.Ok? ==> r.value.m * (f.period - f.jitter) == f.maxMessageSize
    ensures f.period - f.jitter != 0.0 && be ==> r.Ok? && r.value.n == f.maxMessageSize
    ensures f.period - f.jitter != 0.0 && !be && sourceCapacity * f.period == 0.0 ==> r == Err(DivisionByZero)
    ensures f.period - f.jitter != 0.0 && !be && sourceCapacity * f.period != 0.0 ==>
              r.Ok? && r.value.n == f.maxMessageSize - f.maxMessageSize * f.maxMessageSize / (sourceCapacity * f.period)
  {
    if f.period - f.jitter == 0.0 then Err(DivisionByZero)
    else
      var m := f.maxMessageSize / (f.period - f.jitter);
      if !be then
        if sourceCapacity * f.period == 0.0 then Err(DivisionByZero)
        else Ok(AffineCurve(m, f.maxMessageSize - f.maxMessageSize * f.maxMessageSize / (sourceCapacity * f.period)))
      else Ok(AffineCurve(m, f.maxMessageSize))
  }

  /** The nominal arrival curve every caller in the core asks for (BE = True). */
  function NominalArrival(net: Topology, f: Flow): Result<AffineCurve, Fault>
    requires f.source < |net.nodes|
  {
    ArrivalAffine(f, true, net.nodes[f.source].capacity)
  }

  /** A larger message on the same period and jitter gives a steeper curve with
      a larger burst. */
  lemma ArrivalGrowsWithMessage(f: Flow, g: Flow, c: real)
    requires g == f.(maxMessageSize := g.maxMessageSize)
    requires f.period - f.jitter > 0.0 && f.maxMessageSize < g.maxMessageSize
    ensures ArrivalAffine(f, true, c).Ok? && ArrivalAffine(g, true, c).Ok?
    ensures ArrivalAffine(f, true, c).value.m < ArrivalAffine(g, true, c).value.m
    ensures ArrivalAffine(f, true, c).value.n < ArrivalAffine(g, true, c).value.n
  {
    var d := f.period - f.jitter;
    var a, b := f.maxMessageSize / d, g.maxMessageSize / d;
    assert a * d == f.maxMessageSize && b * d == g.maxMessageSize;
  }

  /** A shorter period (still above the jitter) gives a steeper curve. */
  lemma ArrivalGrowsWhenPeriodShrinks(f: Flow, g: Flow, c: real)
    requires g == f.(period := g.period)
    requires f.jitter < g.period < f.period && f.maxMessageSize > 0.0
    ensures ArrivalAffine(f, true, c).Ok? && ArrivalAffine(g, true, c).Ok?
    ensures ArrivalAffine(f, true, c).value.m < ArrivalAffine(g, true, c).value.m
  {
    var df, dg := f.period - f.jitter, g.period - g.jitter;
    var mf, mg := f.maxMessageSize / df, g.maxMessageSize / dg;
    assert mf * df == mg * dg;
    assert mf > 0.0 && mg > 0.0;
    assert mf * df > mf * dg by {
      assert mf * (df - dg) > 0.0;
    }
    assert (mg - mf) * dg > 0.0;
  }

  /** `Node.computeServiceAffine`: a rate-latency curve of rate C that is zero
      at the technological latency. */
  function ServiceAffine(n: Node): (r: AffineCurve)
    ensures r.m == n.capacity
    ensures Eval(r, n.techLatency) == 0.0
    ensures forall time :: Eval(r, time) == n.capacity * (time - n.techLatency)
  {
    AffineCurve(n.capacity, -n.capacity * n.techLatency)
  }

  // ---------------------------------------------------------------------------
  // Links: connectivity and lookup
  // ---------------------------------------------------------------------------

  /** `Link.connectsSystems`, with the `None` fall-through read as false. */
  function ConnectsSystems(l: Link, a: NodeId, b: NodeId): (r: bool)
    ensures r <==> (l.start == a && l.end == b) || (l.start == b && l.end == a)
  {
    if l.start == a && l.end == b then true
    else if l.end == a then l.start == b
    else false
  }

  /** The scan of `getConnectingLink` from link i on. */
  function ConnectingFrom(links: seq<Link>, a: NodeId, b: NodeId, i: nat): (r: Option<LinkId>)
    decreases |links| - i
    ensures r.Some? ==> i <= r.value < |links| && ConnectsSystems(links[r.value], a, b) &&
                        forall k :: i <= k < r.value ==> !ConnectsSystems(links[k], a, b)
    ensures r.None? ==> forall k :: i <= k < |links| ==> !ConnectsSystems(links[k], a, b)
  {
    if i >= |links| then None
    else if ConnectsSystems(links[i], a, b) then Some(i)
    else ConnectingFrom(links, a, b, i + 1)
  }

  /** `Network.getConnectingLink`: the first link joining a and b. */
  function GetConnectingLink(net: Topology, a: NodeId, b: NodeId): Option<LinkId>
  {
    ConnectingFrom(net.links, a, b, 0)
  }

  /** The lookup does not depend on the order of its two nodes. */
  lemma {:induction false} ConnectingFromSymmetric(links: seq<Link>, a: NodeId, b: NodeId, i: nat)
    ensures ConnectingFrom(links, a, b, i) == ConnectingFrom(links, b, a, i)
    decreases |links| - i
  {
    if i < |links| && !ConnectsSystems(links[i], a, b) {
      ConnectingFromSymmetric(links, a, b, i + 1);
    }
  }

  lemma GetConnectingLinkSymmetric(net: Topology, a: NodeId, b: NodeId)
    ensures GetConnectingLink(net, a, b) == GetConnectingLink(net, b, a)
  {
    ConnectingFromSymmetric(net.links, a, b, 0);
  }

  /** `Node.getLinks` from link i on: the links with the node at either end. */
  function LinksFrom(net: Topology, node: NodeId, i: nat): (r: seq<LinkId>)
    decreases |net.links| - i
    ensures forall k :: 0 <= k < |r| ==> i <= r[k] < |net.links|
    ensures forall l :: l in r <==> i <= l < |net.links| && (net.links[l].start == node || net.links[l].end == node)
    ensures forall j, k :: 0 <= j < k < |r| ==> r[j] < r[k]
  {
    if i >= |net.links| then []
    else if net.links[i].start == node || net.links[i].end == node then [i] + LinksFrom(net, node, i + 1)
    else LinksFrom(net, node, i + 1)
  }

  function GetLinks(net: Topology, node: NodeId): seq<LinkId>
  {
    LinksFrom(net, node, 0)
  }

  // ---------------------------------------------------------------------------
  // Targets: path scans
  // ---------------------------------------------------------------------------

  /** `[source] + path`, the sequence every direction query scans. */
  function CompletePath(t: Target): seq<NodeId>
  {
    [t.source] + t.path
  }

  /** Position j holds the last occurrence of `node` among the first `end`
      elements of s. */
  predicate LastBefore(s: seq<NodeId>, j: nat, end: nat, node: NodeId)
  {
    j < end <= |s| && s[j] == node && forall k :: j < k < end ==> s[k] != node
  }

  /** The loop of `findPreviousNode` from path index i; a later match replaces
      an earlier one. */
  function PreviousFrom(t: Target, node: NodeId, i: nat, found: Option<NodeId>): (r: Option<NodeId>)
    decreases |t.path| - i
    ensures r.Some? ==> r == found || r.value in CompletePath(t)
  {
    if i >= |t.path| then found
    else
      var found' := if t.path[i] == node then Some(CompletePath(t)[i]) else found;
      PreviousFrom(t, node, i + 1, found')
  }

  /** `Target.findPreviousNode`. */
  function FindPreviousNode(t: Target, node: NodeId): (r: Result<NodeId, Fault>)
    ensures r.Ok? ==> r.value in CompletePath(t)
  {
    var scan := PreviousFrom(t, node, 0, None);
    if scan.Some? then Ok(scan.value) else Err(NoPreviousNode)
  }

  lemma {:induction false} PreviousFromLast(t: Target, node: NodeId, i: nat, found: Option<NodeId>)
    requires i <= |t.path|
    ensures (forall j :: i <= j < |t.path| ==> t.path[j] != node) ==> PreviousFrom(t, node, i, found) == found
    ensures (exists j :: i <= j < |t.path| && t.path[j] == node) ==>
              exists j :: i <= j && LastBefore(t.path, j, |t.path|, node) &&
                          PreviousFrom(t, node, i, found) == Some(CompletePath(t)[j])
    decreases |t.path| - i
  {
    if i < |t.path| {
      var found' := if t.path[i] == node then Some(CompletePath(t)[i]) else found;
      PreviousFromLast(t, node, i + 1, found');
      if t.path[i] == node && forall j :: i + 1 <= j < |t.path| ==> t.path[j] != node {
        assert PreviousFrom(t, node, i, found) == Some(CompletePath(t)[i]);
      }
    }
  }

  /** The predecessor is the node just before the LAST occurrence of `node`
      in `[source] + path`; there is one exactly when `node` is on the path
      (the source's own position does not count). */
  lemma FindPreviousNodeSpec(t: Target, node: NodeId)
    ensures FindPreviousNode(t, node).Ok? <==> node in t.path
    ensures FindPreviousNode(t, node).Err? ==> FindPreviousNode(t, node) == Err(NoPreviousNode)
  {
    PreviousFromLast(t, node, 0, None);
  }

  lemma FindPreviousNodeLast(t: Target, node: NodeId, p: NodeId)
    requires FindPreviousNode(t, node) == Ok(p)
    ensures exists j :: 1 <= j < |CompletePath(t)| && LastBefore(CompletePath(t), j, |CompletePath(t)|, node) && CompletePath(t)[j - 1] == p
  {
    PreviousFromLast(t, node, 0, None);
    var cp := CompletePath(t);
    var r := PreviousFrom(t, node, 0, None);
    var j: nat :| LastBefore(t.path, j, |t.path|, node) && r == Some(cp[j]);
    assert cp[j + 1] == node;
    forall k | j + 1 < k < |cp| ensures cp[k] != node {
      assert cp[k] == t.path[k - 1];
    }
    assert LastBefore(cp, j + 1, |cp|, node);
  }

  /** The loop of `findNextNode` over `range(len(path) - 1)` from index i. */
  function NextFrom(t: Target, node: NodeId, i: nat, found: Option<NodeId>): (r: Option<NodeId>)
    decreases |t.path| - i
    ensures r.Some? ==> r == found || r.value in t.path
  {
    if i + 1 >= |t.path| then found
    else
      var found' := if t.path[i] == node then Some(t.path[i + 1]) else found;
      NextFrom(t, node, i + 1, found')
  }

  /** `Target.findNextNode`: the source's successor is `path[0]` (an IndexError
      on an empty path), later matches in the path replace it. */
  function FindNextNode(t: Target, node: NodeId): (r: Result<NodeId, Fault>)
    ensures r.Ok? ==> r.value in t.path
  {
    if node == t.source && |t.path| == 0 then Err(EmptyPath)
    else
      var start := if node == t.source then Some(t.path[0]) else None;
      var scan := NextFrom(t, node, 0, start);
      if scan.Some? then Ok(scan.value) else Err(NoNextNode)
  }

  lemma {:induction false} NextFromLast(t: Target, node: NodeId, i: nat, found: Option<NodeId>)
    ensures (forall j :: i <= j < |t.path| - 1 ==> t.path[j] != node) ==> NextFrom(t, node, i, found) == found
    ensures (exists j :: i <= j < |t.path| - 1 && t.path[j] == node) ==>
              exists j :: i <= j < |t.path| - 1 && t.path[j] == node && LastBefore(t.path, j, |t.path| - 1, node) &&
                          NextFrom(t, node, i, found) == Some(t.path[j + 1])
    decreases |t.path| - i
  {
    if i + 1 < |t.path| {
      var found' := if t.path[i] == node then Some(t.path[i + 1]) else found;
      NextFromLast(t, node, i + 1, found');
      if t.path[i] == node && forall j :: i + 1 <= j < |t.path| - 1 ==> t.path[j] != node {
        assert NextFrom(t, node, i, found) == Some(t.path[i + 1]);
      }
    }
  }

  /** The successor exists exactly when `node` occurs in `[source] + path`
      before its final element. */
  lemma FindNextNodeSpec(t: Target, node: NodeId)
    ensures FindNextNode(t, node).Ok? <==> node in CompletePath(t)[..|t.path|]
  {
    var cp := CompletePath(t);
    var first := if node == t.source && |t.path| > 0 then Some(t.path[0]) else None;
    NextFromLast(t, node, 0, first);
    if node == t.source {
      assert cp[..|t.path|] == [] || cp[..|t.path|][0] == node;
    } else if node in cp[..|t.path|] {
      var k :| 0 <= k < |t.path| && cp[..|t.path|][k] == node;
      assert k >= 1 && t.path[k - 1] == node;
    } else {
      forall j | 0 <= j < |t.path| - 1 ensures t.path[j] != node {
        assert cp[..|t.path|][j + 1] == t.path[j];
      }
    }
  }

  /** A last match at path index j is a last match at j + 1 in `[source] + path`. */
  lemma LastInPathShifts(t: Target, node: NodeId, j: nat)
    requires j + 1 < |t.path| && LastBefore(t.path, j, |t.path| - 1, node)
    ensures LastBefore(CompletePath(t), j + 1, |t.path|, node)
  {
    var cp := CompletePath(t);
    forall k | j + 1 < k < |t.path| ensures cp[k] != node {
      assert cp[k] == t.path[k - 1];
    }
  }

  /** The successor is the node just after the LAST occurrence of `node` among
      all but the final element of `[source] + path`. */
  lemma FindNextNodeLast(t: Target, node: NodeId, n: NodeId)
    requires FindNextNode(t, node) == Ok(n)
    ensures exists j :: 0 <= j < |t.path| && LastBefore(CompletePath(t), j, |t.path|, node) && CompletePath(t)[j + 1] == n
  {
    var cp := CompletePath(t);
    var first := if node == t.source then Some(t.path[0]) else None;
    NextFromLast(t, node, 0, first);
    if exists j :: 0 <= j < |t.path| - 1 && t.path[j] == node {
      var j: nat :| j < |t.path| - 1 && t.path[j] == node && LastBefore(t.path, j, |t.path| - 1, node) &&
                    NextFrom(t, node, 0, first) == Some(t.path[j + 1]);
      LastInPathShifts(t, node, j);
      assert cp[j + 2] == n;
    } else {
      forall k | 0 < k < |t.path| ensures cp[k] != node {
        assert cp[k] == t.path[k - 1];
      }
      assert LastBefore(cp, 0, |t.path|, node) && cp[1] == n;
    }
  }

  /** `Target.findOutgoingLink`: the link from `node` to its successor, or
      `None` when no link joins them. */
  function FindOutgoingLink(net: Topology, t: Target, node: NodeId): (r: Result<Option<LinkId>, Fault>)
    ensures r.Err? <==> FindNextNode(t, node).Err?
    ensures r.Ok? && r.value.Some? ==>
              r.value.value < |net.links| && ConnectsSystems(net.links[r.value.value], node, FindNextNode(t, node).value)
  {
    var next :- FindNextNode(t, node);
    Ok(GetConnectingLink(net, node, next))
  }

  /** The scan of `Flow.findTargetPassingThroughNode` from target k on. */
  function TargetThroughFrom(ts: seq<Target>, node: NodeId, k: nat): (r: Option<nat>)
    decreases |ts| - k
    ensures r.Some? ==> k <= r.value < |ts| && node in ts[r.value].path &&
                        forall j :: k <= j < r.value ==> node !in ts[j].path
    ensures r.None? ==> forall j :: k <= j < |ts| ==> node !in ts[j].path
  {
    if k >= |ts| then None
    else if node in ts[k].path then Some(k)
    else TargetThroughFrom(ts, node, k + 1)
  }

  /** `Flow.findTargetPassingThroughNode`: the first target whose path (the
      source excluded) contains the node. */
  function FindTargetPassingThroughNode(net: Topology, f: FlowId, node: NodeId): (r: Result<Target, Fault>)
    requires f < |net.flows|
    ensures r.Ok? ==> r.value in net.flows[f].targets && node in r.value.path
    ensures r.Err? <==> forall k :: 0 <= k < |net.flows[f].targets| ==> node !in net.flows[f].targets[k].path
  {
    var scan := TargetThroughFrom(net.flows[f].targets, node, 0);
    if scan.Some? then Ok(net.flows[f].targets[scan.value]) else Err(NoTargetThroughNode)
  }

  // ---------------------------------------------------------------------------
  // hasPath: path validation and registration of the flow on its links
  // ---------------------------------------------------------------------------

  /** `link.flows[name] = flow`: a new key goes to the end, an old key keeps its place. */
  function Register(l: Link, f: FlowId): (r: Link)
    ensures r.start == l.start && r.end == l.end && r.capacity == l.capacity
    ensures f in r.flows && forall g :: g in r.flows <==> g in l.flows || g == f
    ensures NoDup(l.flows) ==> NoDup(r.flows)
  {
    if f in l.flows then l else l.(flows := l.flows + [f])
  }

  /** Two link lists that differ at most in their flow registrations. */
  predicate SameShape(a: seq<Link>, b: seq<Link>)
  {
    |a| == |b| &&
    forall l :: 0 <= l < |a| ==> a[l].start == b[l].start && a[l].end == b[l].end && a[l].capacity == b[l].capacity
  }

  /** Every link either keeps its flows or gains flow f at the end. */
  predicate RegistersOnly(a: seq<Link>, b: seq<Link>, f: FlowId)
    requires |a| == |b|
  {
    forall l :: 0 <= l < |a| ==> b[l].flows == a[l].flows || (f !in a[l].flows && b[l].flows == a[l].flows + [f])
  }

  lemma ConnectingSameShape(a: seq<Link>, b: seq<Link>, x: NodeId, y: NodeId)
    requires SameShape(a, b)
    ensures ConnectingFrom(a, x, y, 0) == ConnectingFrom(b, x, y, 0)
  {
  }

  /** The outer loop of `hasPath` from path element i, `src` being the current
      intermediate source. Returns the verdict and the links after registration. */
  function HasPathFrom(links: seq<Link>, t: Target, src: NodeId, i: nat): (r: (Result<bool, Fault>, seq<Link>))
    decreases |t.path| - i
    ensures SameShape(links, r.1)
    ensures RegistersOnly(links, r.1, t.parent)
  {
    if i >= |t.path| then
      var verdict := if |t.path| == 0 then Err(EmptyPath) else Ok(t.path[|t.path| - 1] == t.dest);
      (verdict, links)
    else
      match ConnectingFrom(links, src, t.path[i], 0)
      case Some(l) =>
        var links' := links[l := Register(links[l], t.parent)];
        var r := HasPathFrom(links', t, t.path[i], i + 1);
        assert RegistersOnly(links, r.1, t.parent) by {
          forall k | 0 <= k < |links|
            ensures r.1[k].flows == links[k].flows ||
                    (t.parent !in links[k].flows && r.1[k].flows == links[k].flows + [t.parent])
          {
            if k == l && t.parent !in links[k].flows {
              assert t.parent in links'[k].flows;
              assert r.1[k].flows == links'[k].flows;
            }
          }
        }
        r
      case None =>
        if |links| == 0 then HasPathFrom(links, t, t.path[i], i + 1) else (Ok(false), links)
  }

  /** `Target.hasPath` run against the network's links. */
  function HasPath(links: seq<Link>, t: Target): (Result<bool, Fault>, seq<Link>)
  {
    HasPathFrom(links, t, t.source, 0)
  }

  /** Some link joins a and b. */
  predicate Joined(links: seq<Link>, a: NodeId, b: NodeId)
  {
    exists l :: 0 <= l < |links| && ConnectsSystems(links[l], a, b)
  }

  /** Every consecutive pair of cp from index i on is joined by a link; with no
      links at all the inner loop never clears the flag, so every pair passes. */
  predicate ChainedFrom(links: seq<Link>, cp: seq<NodeId>, i: nat)
  {
    |links| == 0 || forall k :: i <= k < |cp| - 1 ==> Joined(links, cp[k], cp[k + 1])
  }

  lemma {:induction false} HasPathFromVerdict(links: seq<Link>, t: Target, i: nat)
    requires i <= |t.path|
    ensures var cp := CompletePath(t);
            var r := HasPathFrom(links, t, cp[i], i);
            r.0 == (if |t.path| == 0 then Err(EmptyPath)
                    else Ok(ChainedFrom(links, cp, i) && t.path[|t.path| - 1] == t.dest))
    decreases |t.path| - i
  {
    var cp := CompletePath(t);
    if i < |t.path| {
      assert cp[i + 1] == t.path[i];
      var c := ConnectingFrom(links, cp[i], t.path[i], 0);
      match c
      case Some(l) =>
        var links' := links[l := Register(links[l], t.parent)];
        HasPathFromVerdict(links', t, i + 1);
        assert SameShape(links, links');
        forall k | i + 1 <= k < |cp| - 1
          ensures Joined(links, cp[k], cp[k + 1]) <==> Joined(links', cp[k], cp[k + 1])
        {
          ConnectingSameShape(links, links', cp[k], cp[k + 1]);
        }
        assert Joined(links, cp[i], cp[i + 1]);
      case None =>
        if |links| == 0 {
          HasPathFromVerdict(links, t, i + 1);
        } else {
          assert !Joined(links, cp[i], cp[i + 1]);
        }
    }
  }

  /** `hasPath` is true exactly when the path is non-empty, every consecutive
      pair of `[source] + path` is joined by some link (vacuously so in a network
      with no links) and the path ends at the target; it is an IndexError on an
      empty path. */
  lemma HasPathVerdict(links: seq<Link>, t: Target)
    ensures HasPath(links, t).0 ==
              if |t.path| == 0 then Err(EmptyPath)
              else Ok(ChainedFrom(links, CompletePath(t), 0) && t.path[|t.path| - 1] == t.dest)
  {
    HasPathFromVerdict(links, t, 0);
  }

  lemma {:induction false} HasPathFromRegisters(links: seq<Link>, t: Target, i: nat, k: nat)
    requires i <= k < |t.path|
    requires forall j :: i <= j <= k ==> Joined(links, CompletePath(t)[j], CompletePath(t)[j + 1])
    ensures var cp := CompletePath(t);
            var l := ConnectingFrom(links, cp[k], cp[k + 1], 0);
            l.Some? && t.parent in HasPathFrom(links, t, cp[i], i).1[l.value].flows
    decreases |t.path| - i
  {
    var cp := CompletePath(t);
    assert cp[i + 1] == t.path[i];
    assert Joined(links, cp[i], cp[i + 1]);
    var l := ConnectingFrom(links, cp[i], t.path[i], 0).value;
    var links' := links[l := Register(links[l], t.parent)];
    var r := HasPathFrom(links', t, t.path[i], i + 1);
    assert HasPathFrom(links, t, cp[i], i) == r;
    if k == i {
      assert t.parent in links'[l].flows;
      assert RegistersOnly(links', r.1, t.parent);
    } else {
      forall j | i + 1 <= j <= k ensures Joined(links', cp[j], cp[j + 1]) {
        ConnectingSameShape(links, links', cp[j], cp[j + 1]);
      }
      HasPathFromRegisters(links', t, i + 1, k);
      ConnectingSameShape(links, links', cp[k], cp[k + 1]);
    }
  }

  /** Every pair walked before the first unjoined one registers the target's
      flow on the link `getConnectingLink` would return, even when a later
      pair then fails. */
  lemma HasPathRegisters(links: seq<Link>, t: Target, k: nat)
    requires k < |t.path|
    requires forall j :: 0 <= j <= k ==> Joined(links, CompletePath(t)[j], CompletePath(t)[j + 1])
    ensures var cp := CompletePath(t);
            var l := ConnectingFrom(links, cp[k], cp[k + 1], 0);
            l.Some? && t.parent in HasPath(links, t).1[l.value].flows
  {
    HasPathFromRegisters(links, t, 0, k);
  }
}
