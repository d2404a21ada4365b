/** Direction of travel of a target over a link (`Target.isDirectWith`,
    `Link.findFlowTargetsPassingThroughLink`, `Link.sameDirection`,
    `Link.getFlowsInSameDirection`). */
module Direction {
  import opened Wrappers
  import opened Errors
  import opened Topology

  // ---------------------------------------------------------------------------
  // isDirectWith
  // ---------------------------------------------------------------------------

  /** The loop of `isDirectWith` from position i of the complete path, `direct`
      being `None` until A (`Some(true)`) or B (`Some(false)`) is met. */
  function DirectFrom(cp: seq<NodeId>, a: NodeId, b: NodeId, i: nat, direct: Option<bool>): (r: Result<bool, Fault>)
    decreases |cp| - i
    ensures r.Err? ==> r.error == NodeMissing || r.error == CircularPath
  {
    if i >= |cp| then Err(NodeMissing)
    else if cp[i] == a then
      if direct == Some(false) then Ok(false)
      else if direct == Some(true) then Err(CircularPath)
      else DirectFrom(cp, a, b, i + 1, Some(true))
    else if cp[i] == b then
      if direct == Some(true) then Ok(true)
      else if direct == Some(false) then Err(CircularPath)
      else DirectFrom(cp, a, b, i + 1, Some(false))
    else DirectFrom(cp, a, b, i + 1, direct)
  }

  /** `Target.isDirectWith(A, B)`. */
  function IsDirect(t: Target, a: NodeId, b: NodeId): (r: Result<bool, Fault>)
    ensures a == b <==> r == Err(SameNodes)
  {
    if a == b then Err(SameNodes) else DirectFrom(CompletePath(t), a, b, 0, None)
  }

  /** `isDirectWith` as the source writes it: a loop over `[source] + path`
      updating `direct`, returning or raising as soon as the answer is known. */
  method IsDirectWith(t: Target, a: NodeId, b: NodeId) returns (r: Result<bool, Fault>)
    ensures r == IsDirect(t, a, b)
  {
    if a == b {
      return Err(SameNodes);
    }
    var cp := [t.source] + t.path;
    var direct: Option<bool> := None;
    var i := 0;
    while i < |cp|
      invariant 0 <= i <= |cp| && cp == CompletePath(t)
      invariant DirectFrom(cp, a, b, i, direct) == IsDirect(t, a, b)
    {
      if cp[i] == a {
        if direct == Some(false) {
          return Ok(false);
        } else if direct == Some(true) {
          return Err(CircularPath);
        }
        direct := Some(true);
      } else if cp[i] == b {
        if direct == Some(true) {
          return Ok(true);
        } else if direct == Some(false) {
          return Err(CircularPath);
        }
        direct := Some(false);
      }
      i := i + 1;
    }
    return Err(NodeMissing);
  }

  /** The elements of cp from i on that are A or B, in path order. */
  function HitsFrom(cp: seq<NodeId>, a: NodeId, b: NodeId, i: nat): (h: seq<NodeId>)
    decreases |cp| - i
    ensures forall k :: 0 <= k < |h| ==> h[k] == a || h[k] == b
  {
    if i >= |cp| then []
    else if cp[i] == a || cp[i] == b then [cp[i]] + HitsFrom(cp, a, b, i + 1)
    else HitsFrom(cp, a, b, i + 1)
  }

  /** The verdict read off the first two hits: fewer than two is a missing
      node, a repeat is a circular path, otherwise "A came first". */
  function Classify(h: seq<NodeId>, a: NodeId): Result<bool, Fault>
  {
    if |h| < 2 then Err(NodeMissing)
    else if h[0] == h[1] then Err(CircularPath)
    else Ok(h[0] == a)
  }

  /** What `direct` records, as the hits seen so far that still matter. */
  function Seen(direct: Option<bool>, a: NodeId, b: NodeId): seq<NodeId>
  {
    match direct
    case None => []
    case Some(d) => if d then [a] else [b]
  }

  lemma {:induction false} DirectFromClassifies(cp: seq<NodeId>, a: NodeId, b: NodeId, i: nat, direct: Option<bool>)
    requires a != b
    ensures DirectFrom(cp, a, b, i, direct) == Classify(Seen(direct, a, b) + HitsFrom(cp, a, b, i), a)
    decreases |cp| - i
  {
    if i < |cp| {
      if cp[i] == a && direct.None? {
        DirectFromClassifies(cp, a, b, i + 1, Some(true));
      } else if cp[i] == b && direct.None? {
        DirectFromClassifies(cp, a, b, i + 1, Some(false));
      } else if cp[i] != a && cp[i] != b {
        DirectFromClassifies(cp, a, b, i + 1, direct);
      }
    }
  }

  /** `isDirectWith(A, B)` raises for A == B; otherwise it looks only at the
      first two occurrences of A or B in `[source] + path`: true when they are
      A then B, false when B then A, an error when the first one repeats or
      fewer than two occur. */
  lemma IsDirectSpec(t: Target, a: NodeId, b: NodeId)
    ensures IsDirect(t, a, b) == if a == b then Err(SameNodes) else Classify(HitsFrom(CompletePath(t), a, b, 0), a)
  {
    if a != b {
      DirectFromClassifies(CompletePath(t), a, b, 0, None);
    }
  }

  lemma {:induction false} HitsSymmetric(cp: seq<NodeId>, a: NodeId, b: NodeId, i: nat)
    ensures HitsFrom(cp, a, b, i) == HitsFrom(cp, b, a, i)
    decreases |cp| - i
  {
    if i < |cp| {
      HitsSymmetric(cp, a, b, i + 1);
    }
  }

  /** Whenever one orientation has an answer, the other has the opposite one. */
  lemma IsDirectAntisymmetric(t: Target, a: NodeId, b: NodeId)
    ensures IsDirect(t, a, b).Ok? <==> IsDirect(t, b, a).Ok?
    ensures IsDirect(t, a, b).Ok? ==> IsDirect(t, b, a).value == !IsDirect(t, a, b).value
  {
    IsDirectSpec(t, a, b);
    IsDirectSpec(t, b, a);
    HitsSymmetric(CompletePath(t), a, b, 0);
  }

  lemma {:induction false} HitsAbsent(cp: seq<NodeId>, a: NodeId, b: NodeId, i: nat)
    requires forall k :: i <= k < |cp| ==> cp[k] != a && cp[k] != b
    ensures HitsFrom(cp, a, b, i) == []
    decreases |cp| - i
  {
    if i < |cp| {
      HitsAbsent(cp, a, b, i + 1);
    }
  }

  lemma {:induction false} HitsOnce(cp: seq<NodeId>, a: NodeId, b: NodeId, i: nat, q: nat)
    requires NoDup(cp) && i <= q < |cp| && cp[q] == b && a != b
    requires forall k :: i <= k < |cp| ==> cp[k] != a
    ensures HitsFrom(cp, a, b, i) == [b]
    decreases |cp| - i
  {
    if i < q {
      HitsOnce(cp, a, b, i + 1, q);
    } else {
      HitsAbsent(cp, a, b, i + 1);
    }
  }

  lemma {:induction false} HitsTwice(cp: seq<NodeId>, a: NodeId, b: NodeId, i: nat, p: nat, q: nat)
    requires NoDup(cp) && i <= p < |cp| && i <= q < |cp| && cp[p] == a && cp[q] == b && p != q
    ensures HitsFrom(cp, a, b, i) == if p < q then [a, b] else [b, a]
    decreases |cp| - i
  {
    if i < p && i < q {
      HitsTwice(cp, a, b, i + 1, p, q);
    } else if i == p {
      HitsOnce(cp, a, b, i + 1, q);
    } else {
      HitsOnce(cp, b, a, i + 1, p);
      HitsSymmetric(cp, a, b, i + 1);
    }
  }

  /** On a path that visits no node twice and holds both A and B, the answer
      is defined and says whether A comes before B. */
  lemma IsDirectOnSimplePath(t: Target, p: nat, q: nat)
    requires NoDup(CompletePath(t)) && p < |CompletePath(t)| && q < |CompletePath(t)| && p != q
    ensures IsDirect(t, CompletePath(t)[p], CompletePath(t)[q]) == Ok(p < q)
  {
    var cp := CompletePath(t);
    IsDirectSpec(t, cp[p], cp[q]);
    HitsTwice(cp, cp[p], cp[q], 0, p, q);
  }

  // ---------------------------------------------------------------------------
  // Link-level direction queries
  // ---------------------------------------------------------------------------

  /** Both endpoints of the link occur somewhere in `[source] + path`; they need
      not be adjacent. */
  predicate Crosses(l: Link, t: Target)
  {
    l.start in CompletePath(t) && l.end in CompletePath(t)
  }

  /** `Link.findFlowTargetsPassingThroughLink` over targets k onward. */
  function CrossingFrom(l: Link, ts: seq<Target>, k: nat): (r: seq<Target>)
    decreases |ts| - k
    ensures forall x :: x in r <==> (exists j :: k <= j < |ts| && ts[j] == x) && Crosses(l, x)
  {
    if k >= |ts| then []
    else if Crosses(l, ts[k]) then [ts[k]] + CrossingFrom(l, ts, k + 1)
    else CrossingFrom(l, ts, k + 1)
  }

  function CrossingTargets(l: Link, f: Flow): (r: seq<Target>)
    ensures forall x :: x in r <==> x in f.targets && Crosses(l, x)
  {
    CrossingFrom(l, f.targets, 0)
  }

  /** `Link.sameDirection`: the query target's orientation is asked first. */
  function SameDirection(l: Link, t: Target, o: Target): (r: Result<bool, Fault>)
    ensures r.Ok? <==> IsDirect(t, l.start, l.end).Ok? && IsDirect(o, l.start, l.end).Ok?
    ensures r.Ok? ==> r.value == (IsDirect(t, l.start, l.end).value == IsDirect(o, l.start, l.end).value)
    ensures IsDirect(t, l.start, l.end).Err? ==> r == Err(IsDirect(t, l.start, l.end).error)
  {
    var x :- IsDirect(t, l.start, l.end);
    var y :- IsDirect(o, l.start, l.end);
    Ok(x == y)
  }

  /** The inner loop of `getFlowsInSameDirection` over one flow's crossing
      targets from j on: every target is compared, so a later failure still
      raises after a match. */
  function AnySameFrom(l: Link, t: Target, os: seq<Target>, j: nat, found: bool): (r: Result<bool, Fault>)
    decreases |os| - j
    ensures r.Ok? ==> (r.value <==> found || exists k :: j <= k < |os| && SameDirection(l, t, os[k]) == Ok(true))
    ensures r.Ok? <==> forall k :: j <= k < |os| ==> SameDirection(l, t, os[k]).Ok?
  {
    if j >= |os| then Ok(found)
    else
      var same :- SameDirection(l, t, os[j]);
      AnySameFrom(l, t, os, j + 1, found || same)
  }

  /** The outer loop of `getFlowsInSameDirection` over `link.flows` from i on,
      `acc` being the flows kept so far. */
  function SameDirectionFrom(net: Topology, l: LinkId, t: Target, i: nat, acc: seq<FlowId>): (r: Result<seq<FlowId>, Fault>)
    requires l < |net.links| && Valid(net)
    decreases |net.links[l].flows| - i
    ensures r.Ok? ==> forall g :: g in r.value ==> g in acc || g in net.links[l].flows
  {
    var fs := net.links[l].flows;
    if i >= |fs| then Ok(acc)
    else
      assert LinkValid(net, net.links[l]);
      var keep :- AnySameFrom(net.links[l], t, CrossingTargets(net.links[l], net.flows[fs[i]]), 0, false);
      SameDirectionFrom(net, l, t, i + 1, if keep then acc + [fs[i]] else acc)
  }

  /** `Link.getFlowsInSameDirection(target)`, the keys of the resulting
      dictionary in insertion order. */
  function SameDirectionFlows(net: Topology, l: LinkId, t: Target): (r: Result<seq<FlowId>, Fault>)
    requires l < |net.links| && Valid(net)
    ensures r.Ok? ==> forall k :: 0 <= k < |r.value| ==> r.value[k] in net.links[l].flows && r.value[k] < |net.flows|
  {
    assert LinkValid(net, net.links[l]);
    SameDirectionFrom(net, l, t, 0, [])
  }

  /** A flow of the link is kept when one of its crossing targets travels the
      same way as the query target. */
  predicate Kept(net: Topology, l: LinkId, t: Target, f: FlowId)
    requires l < |net.links| && f < |net.flows|
  {
    exists o :: o in CrossingTargets(net.links[l], net.flows[f]) && SameDirection(net.links[l], t, o) == Ok(true)
  }

  lemma AnySameKept(net: Topology, l: LinkId, t: Target, f: FlowId)
    requires l < |net.links| && f < |net.flows|
    ensures var keep := AnySameFrom(net.links[l], t, CrossingTargets(net.links[l], net.flows[f]), 0, false);
            keep.Ok? ==> (keep.value <==> Kept(net, l, t, f))
  {
    var os := CrossingTargets(net.links[l], net.flows[f]);
    var keep := AnySameFrom(net.links[l], t, os, 0, false);
    if keep.Ok? && keep.value {
      var k :| 0 <= k < |os| && SameDirection(net.links[l], t, os[k]) == Ok(true);
      assert os[k] in os;
    }
  }

  lemma {:induction false} SameDirectionFromSpec(net: Topology, l: LinkId, t: Target, i: nat, acc: seq<FlowId>)
    requires l < |net.links| && Valid(net)
    requires i <= |net.links[l].flows|
    requires NoDup(acc) && forall g :: g in acc ==> g in net.links[l].flows[..i]
    ensures var r := SameDirectionFrom(net, l, t, i, acc);
            r.Ok? ==> NoDup(r.value) &&
                      forall g :: g in r.value <==> g in acc || (g in net.links[l].flows[i..] && Kept(net, l, t, g))
    decreases |net.links[l].flows| - i
  {
    var fs := net.links[l].flows;
    assert LinkValid(net, net.links[l]);
    if i < |fs| {
      var keep := AnySameFrom(net.links[l], t, CrossingTargets(net.links[l], net.flows[fs[i]]), 0, false);
      if keep.Ok? {
        var acc' := if keep.value then acc + [fs[i]] else acc;
        assert fs[i] !in acc;
        assert fs[..i + 1] == fs[..i] + [fs[i]];
        SameDirectionFromSpec(net, l, t, i + 1, acc');
        assert fs[i..] == [fs[i]] + fs[i + 1..];
        AnySameKept(net, l, t, fs[i]);
      }
    }
  }

  /** When it succeeds, `getFlowsInSameDirection` keeps each flow of the link
      once, and exactly those flows one of whose crossing targets travels the
      link the same way as the query target. */
  lemma SameDirectionFlowsSpec(net: Topology, l: LinkId, t: Target)
    requires l < |net.links| && Valid(net)
    ensures var r := SameDirectionFlows(net, l, t);
            r.Ok? ==> NoDup(r.value) && forall g :: g in r.value <==> g in net.links[l].flows && Kept(net, l, t, g)
  {
    SameDirectionFromSpec(net, l, t, 0, []);
    assert net.links[l].flows[0..] == net.links[l].flows;
  }

  /** A target that crosses the link in a definite direction and whose flow is
      registered on the link keeps its own flow among the same-direction flows. */
  lemma OwnFlowKept(net: Topology, l: LinkId, t: Target)
    requires l < |net.links| && Valid(net)
    requires t.parent < |net.flows| && t in net.flows[t.parent].targets && t.parent in net.links[l].flows
    requires Crosses(net.links[l], t) && IsDirect(t, net.links[l].start, net.links[l].end).Ok?
    ensures SameDirectionFlows(net, l, t).Ok? ==> t.parent in SameDirectionFlows(net, l, t).value
  {
    SameDirectionFlowsSpec(net, l, t);
    assert t in CrossingTargets(net.links[l], net.flows[t.parent]);
    assert SameDirection(net.links[l], t, t) == Ok(true);
  }
}
