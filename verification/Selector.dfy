/** The selection of endpoints for a logical interconnect: for each of its two sides
    one endpoint per link, walking through the topologies of the side and keeping
    the links on as few nodes as the policy allows. */
module Selectors {
  import opened Sorting
  import opened Wrappers
  import opened Endpoints

  datatype Side = Side(topologies: seq<string>, selector: Selector, diversity: Option<nat>, name: Option<string>)

  datatype Interconnect = Interconnect(ref: Ref, links: nat, lacp: Option<bool>, sides: seq<Side>)

  // ---------------------------------------------------------------------
  // One side
  // ---------------------------------------------------------------------

  /** The candidates left in each topology, and the two nodes recorded for it; the
      empty name stands for a node not yet chosen. */
  datatype SideState = SideState(lists: map<string, seq<Endpoint>>, nodes: map<string, seq<string>>)

  function TopologyOf(side: Side, link: nat): (t: string)
    requires side.topologies != []
    ensures t in side.topologies
  {
    side.topologies[link % |side.topologies|]
  }

  function NodeIndex(side: Side, link: nat): (i: nat)
    ensures i < 2
  {
    if |side.topologies| == 1 then link % 2 else 0
  }

  predicate Diverse(side: Side) {
    |side.topologies| == 1 && side.diversity.Some? && side.diversity.value > 1
  }

  predicate WellFormed(side: Side, st: SideState) {
    side.topologies != [] && forall t | t in side.topologies :: t in st.lists && t in st.nodes && |st.nodes[t]| == 2
  }

  /** Whether a candidate is taken when the scan reaches it. */
  predicate Eligible(me: Ref, diverse: bool, nodes: seq<string>, idx: nat, ep: Endpoint)
    requires idx < |nodes|
  {
    || ep.WasAllocated(me)
    || (!ep.IsAllocated(me) &&
        if nodes[idx] != "" then ep.nodeName == nodes[idx]
        else diverse ==> ep.IsNodeDiverse(idx, nodes))
  }

  /** The first eligible candidate at or after `i`, or the end of the list. */
  function Scan(me: Ref, diverse: bool, nodes: seq<string>, idx: nat, eps: seq<Endpoint>, i: nat): (r: nat)
    requires idx < |nodes| && i <= |eps|
    ensures i <= r <= |eps|
    ensures forall j | i <= j < r :: !Eligible(me, diverse, nodes, idx, eps[j])
    ensures r < |eps| ==> Eligible(me, diverse, nodes, idx, eps[r])
    decreases |eps| - i
  {
    if i == |eps| || Eligible(me, diverse, nodes, idx, eps[i]) then i
    else Scan(me, diverse, nodes, idx, eps, i + 1)
  }

  function Without(eps: seq<Endpoint>, i: nat): seq<Endpoint>
    requires i < |eps|
  {
    eps[..i] + eps[i + 1..]
  }

  /** A candidate claimed before is taken without recording its node. */
  function Recorded(me: Ref, nodes: seq<string>, idx: nat, ep: Endpoint): (r: seq<string>)
    requires idx < |nodes|
    ensures |r| == |nodes|
  {
    if ep.WasAllocated(me) || nodes[idx] != "" then nodes else nodes[idx := ep.nodeName]
  }

  function Take(side: Side, me: Ref, st: SideState, link: nat, i: nat): (r: SideState)
    requires WellFormed(side, st) && i < |st.lists[TopologyOf(side, link)]|
    ensures WellFormed(side, r)
  {
    var t := TopologyOf(side, link);
    var nodes := Recorded(me, st.nodes[t], NodeIndex(side, link), st.lists[t][i]);
    SideState(st.lists[t := Without(st.lists[t], i)], st.nodes[t := nodes])
  }

  datatype Progress = Stuck | Progress(picked: seq<Endpoint>, state: SideState)

  /** The first `k` links. */
  function Run(side: Side, me: Ref, start: SideState, k: nat): (r: Progress)
    requires WellFormed(side, start)
    ensures r.Progress? ==> WellFormed(side, r.state) && |r.picked| == k
  {
    if k == 0 then Progress([], start)
    else
      match Run(side, me, start, k - 1)
      case Stuck => Stuck
      case Progress(picked, st) => Next(side, me, picked, st, k - 1)
  }

  function Next(side: Side, me: Ref, picked: seq<Endpoint>, st: SideState, link: nat): (r: Progress)
    requires WellFormed(side, st)
    ensures r.Progress? ==> WellFormed(side, r.state) && |r.picked| == |picked| + 1
  {
    var t := TopologyOf(side, link);
    var i := Scan(me, Diverse(side), st.nodes[t], NodeIndex(side, link), st.lists[t], 0);
    if i == |st.lists[t]| then Stuck
    else Progress(picked + [st.lists[t][i]], Take(side, me, st, link, i))
  }

  lemma {:induction false} StuckStays(side: Side, me: Ref, start: SideState, k: nat, n: nat)
    requires WellFormed(side, start) && k <= n && Run(side, me, start, k).Stuck?
    ensures Run(side, me, start, n).Stuck?
    decreases n
  {
    if k < n {
      StuckStays(side, me, start, k, n - 1);
    }
  }

  // ---------------------------------------------------------------------
  // Properties of one side
  // ---------------------------------------------------------------------

  /** The candidates a side starts from. */
  ghost predicate Start(side: Side, start: SideState) {
    && WellFormed(side, start)
    && (forall t | t in side.topologies :: Distinct(start.lists[t]) && start.nodes[t] == ["", ""])
    && (forall t, u | t in side.topologies && u in side.topologies && t != u ::
          Names(start.lists[t]) !! Names(start.lists[u]))
  }

  ghost predicate Left(side: Side, start: SideState, picked: seq<Endpoint>, st: SideState, t: string)
    requires t in start.lists && t in st.lists
  {
    && Distinct(st.lists[t])
    && forall ep | ep in st.lists[t] :: ep in start.lists[t] && ep.name !in Names(picked)
  }

  /** What holds of the endpoints picked so far. */
  ghost predicate Proper(side: Side, me: Ref, start: SideState, picked: seq<Endpoint>)
    requires WellFormed(side, start)
  {
    && Distinct(picked)
    && forall i | 0 <= i < |picked| :: picked[i] in start.lists[TopologyOf(side, i)] && !picked[i].IsAllocated(me)
  }

  lemma WithoutOne(eps: seq<Endpoint>, i: nat)
    requires Distinct(eps) && i < |eps|
    ensures Distinct(Without(eps, i))
    ensures forall ep | ep in Without(eps, i) :: ep in eps && ep.name != eps[i].name
  {
    var rest := Without(eps, i);
    assert forall j | 0 <= j < |rest| :: rest[j] == eps[if j < i then j else j + 1];
  }

  lemma NamesAppend(eps: seq<Endpoint>, ep: Endpoint)
    ensures Names(eps + [ep]) == Names(eps) + {ep.name}
  {
    assert forall x :: x in eps + [ep] <==> x in eps || x == ep;
    forall n ensures n in Names(eps + [ep]) <==> n in Names(eps) || n == ep.name {
    }
  }

  lemma TakeKeepsLeft(side: Side, me: Ref, start: SideState, picked: seq<Endpoint>, st: SideState,
                      link: nat, i: nat, t: string)
    requires Start(side, start) && WellFormed(side, st) && t in side.topologies
    requires i < |st.lists[TopologyOf(side, link)]|
    requires Left(side, start, picked, st, t) && Left(side, start, picked, st, TopologyOf(side, link))
    ensures Left(side, start, picked + [st.lists[TopologyOf(side, link)][i]], Take(side, me, st, link, i), t)
  {
    hide Recorded, Diverse, NodeIndex, TopologyOf, Without, Names;
    var u := TopologyOf(side, link);
    var ep := st.lists[u][i];
    assert ep in st.lists[u];
    NamesAppend(picked, ep);
    if t == u {
      WithoutOne(st.lists[u], i);
    } else {
      forall x | x in st.lists[t] ensures x.name != ep.name {
        assert Names(start.lists[t]) !! Names(start.lists[u]);
        InNames(start.lists[t], x);
        InNames(start.lists[u], ep);
      }
    }
  }

  lemma InNames(eps: seq<Endpoint>, ep: Endpoint)
    requires ep in eps
    ensures ep.name in Names(eps)
  {
  }

  /** Whatever the side picks: endpoints of the right topologies, none twice and
      none of another resource. */
  lemma {:induction false} RunProper(side: Side, me: Ref, start: SideState, k: nat)
    requires WellFormed(side, start) && Start(side, start)
    ensures var r := Run(side, me, start, k);
            r.Progress? ==> Proper(side, me, start, r.picked) &&
                            forall t | t in side.topologies :: Left(side, start, r.picked, r.state, t)
  {
    hide Next, Left, Proper, Start;
    if k == 0 {
      NonePicked(side, me, start);
    } else if Run(side, me, start, k).Progress? {
      RunProper(side, me, start, k - 1);
      var before := Run(side, me, start, k - 1);
      PickProper(side, me, start, before.picked, before.state, k - 1);
    }
  }

  lemma NonePicked(side: Side, me: Ref, start: SideState)
    requires Start(side, start)
    ensures Proper(side, me, start, []) && forall t | t in side.topologies :: Left(side, start, [], start, t)
  {
  }

  lemma PickProper(side: Side, me: Ref, start: SideState, picked: seq<Endpoint>, st: SideState, link: nat)
    requires Start(side, start) && WellFormed(side, start) && WellFormed(side, st) && link == |picked|
    requires Proper(side, me, start, picked)
    requires forall t | t in side.topologies :: Left(side, start, picked, st, t)
    requires Next(side, me, picked, st, link).Progress?
    ensures var r := Next(side, me, picked, st, link);
            Proper(side, me, start, r.picked) &&
            forall t | t in side.topologies :: Left(side, start, r.picked, r.state, t)
  {
    hide Take, Names, Diverse, NodeIndex, TopologyOf, Start;
    var u := TopologyOf(side, link);
    var i := Scan(me, Diverse(side), st.nodes[u], NodeIndex(side, link), st.lists[u], 0);
    var ep := st.lists[u][i];
    assert Left(side, start, picked, st, u);
    assert ep in st.lists[u];
    forall j | 0 <= j < |picked| ensures picked[j].name != ep.name {
      InNames(picked, picked[j]);
    }
    forall t | t in side.topologies
      ensures Left(side, start, picked + [ep], Take(side, me, st, link, i), t)
    {
      TakeKeepsLeft(side, me, start, picked, st, link, i, t);
    }
  }

  /** No candidate is claimed by this resource already, and all have a node. */
  ghost predicate Fresh(side: Side, me: Ref, start: SideState)
    requires WellFormed(side, start)
  {
    forall t, ep | t in side.topologies && ep in start.lists[t] :: !ep.WasAllocated(me) && ep.nodeName != ""
  }

  /** The pair of topology and node number that a link falls on. */
  predicate SameSlot(side: Side, i: nat, j: nat)
    requires side.topologies != []
  {
    TopologyOf(side, i) == TopologyOf(side, j) && NodeIndex(side, i) == NodeIndex(side, j)
  }

  /** Links of the same slot share a node, and under node diversity links of
      different slots do not. */
  ghost predicate OnNodes(side: Side, picked: seq<Endpoint>)
    requires side.topologies != []
  {
    && (forall i: nat, j: nat | i < |picked| && j < |picked| && SameSlot(side, i, j) ::
          picked[i].nodeName == picked[j].nodeName)
    && (Diverse(side) ==>
          forall i: nat, j: nat | i < |picked| && j < |picked| && i % 2 != j % 2 ::
            picked[i].nodeName != picked[j].nodeName)
  }

  /** The recorded nodes are those of the picked endpoints. */
  ghost predicate NodesOf(side: Side, picked: seq<Endpoint>, st: SideState)
    requires WellFormed(side, st)
  {
    && (forall i: nat | i < |picked| ::
          picked[i].nodeName != "" && st.nodes[TopologyOf(side, i)][NodeIndex(side, i)] == picked[i].nodeName)
    && (Diverse(side) ==>
          var nodes := st.nodes[side.topologies[0]];
          nodes[0] == "" || nodes[1] == "" || nodes[0] != nodes[1])
  }

  lemma {:induction false} FreshNodes(side: Side, me: Ref, start: SideState, k: nat)
    requires Start(side, start) && Fresh(side, me, start)
    ensures var r := Run(side, me, start, k); r.Progress? ==> NodesOf(side, r.picked, r.state)
  {
    hide Next, Left, Proper, Fresh;
    if k > 0 && Run(side, me, start, k).Progress? {
      FreshNodes(side, me, start, k - 1);
      RunProper(side, me, start, k - 1);
      hide Start, NodesOf;
      var before := Run(side, me, start, k - 1);
      FreshPick(side, me, start, before.picked, before.state, k - 1);
    }
  }

  lemma FreshPick(side: Side, me: Ref, start: SideState, picked: seq<Endpoint>, st: SideState, link: nat)
    requires WellFormed(side, start) && Fresh(side, me, start) && WellFormed(side, st) && link == |picked|
    requires forall t | t in side.topologies :: Left(side, start, picked, st, t)
    requires NodesOf(side, picked, st) && Next(side, me, picked, st, link).Progress?
    ensures var r := Next(side, me, picked, st, link); NodesOf(side, r.picked, r.state)
  {
    hide TopologyOf, NodeIndex, Names;
    var t, idx := TopologyOf(side, link), NodeIndex(side, link);
    var nodes := st.nodes[t];
    var i := Scan(me, Diverse(side), nodes, idx, st.lists[t], 0);
    var ep := st.lists[t][i];
    assert Left(side, start, picked, st, t) && ep in st.lists[t];
    assert !ep.WasAllocated(me) && ep.nodeName != "";
    var nodes' := Recorded(me, nodes, idx, ep);
    assert nodes'[idx] == ep.nodeName;
    assert nodes[idx] != "" ==> nodes' == nodes;
  }

  lemma NodesApart(side: Side, picked: seq<Endpoint>, st: SideState)
    requires WellFormed(side, st) && NodesOf(side, picked, st)
    ensures OnNodes(side, picked)
  {
    if Diverse(side) {
      var t := side.topologies[0];
      assert forall i: nat | i < |picked| ::
          picked[i].nodeName != "" && st.nodes[TopologyOf(side, i)][NodeIndex(side, i)] == picked[i].nodeName;
      forall i: nat, j: nat | i < |picked| && j < |picked| && i % 2 != j % 2
        ensures picked[i].nodeName != picked[j].nodeName
      {
        assert TopologyOf(side, i) == t && TopologyOf(side, j) == t;
      }
    }
  }

  /** A fresh selection on its nodes: with node diversity all even links are on one
      node and all odd links on another; with several topologies all links of a
      topology are on one node. */
  lemma FreshOnNodes(side: Side, me: Ref, start: SideState, k: nat)
    requires WellFormed(side, start) && Start(side, start) && Fresh(side, me, start)
    ensures var r := Run(side, me, start, k); r.Progress? ==> OnNodes(side, r.picked)
  {
    hide Run, Start, Fresh, NodesOf, OnNodes;
    FreshNodes(side, me, start, k);
    var r := Run(side, me, start, k);
    if r.Progress? {
      NodesApart(side, r.picked, r.state);
    }
  }

  /** With one topology links fall on the same slot exactly when both are even or both
      odd, with several exactly when they have the same topology. */
  lemma SlotMeaning(side: Side, i: nat, j: nat)
    requires side.topologies != []
    ensures SameSlot(side, i, j) <==>
            if |side.topologies| == 1 then i % 2 == j % 2
            else side.topologies[i % |side.topologies|] == side.topologies[j % |side.topologies|]
  {
    if |side.topologies| == 1 {
      assert i % 1 == 0 && j % 1 == 0;
    }
  }

  /** A candidate claimed before is taken without its node being recorded, so a
      selection that is not fresh may put both links on one node. */
  lemma StickyUnrecorded(side: Side, me: Ref, start: SideState, a: Endpoint, b: Endpoint)
    requires Diverse(side) && WellFormed(side, start)
    requires start.lists[side.topologies[0]] == [a, b] && start.nodes[side.topologies[0]] == ["", ""]
    requires a.WasAllocated(me) && b.claimRef == None && a.nodeName == b.nodeName
    ensures var r := Run(side, me, start, 2); r.Progress? && r.picked == [a, b] && !OnNodes(side, r.picked)
  {
    var t := side.topologies[0];
    assert TopologyOf(side, 0) == t && TopologyOf(side, 1) == t;
    RunStep(side, me, start, 0);
    var first := Next(side, me, [], start, 0);
    assert first.picked == [a] && first.state.lists[t] == [b] && first.state.nodes[t] == ["", ""];
    RunStep(side, me, start, 1);
    var second := Next(side, me, first.picked, first.state, 1);
    assert second.picked == [a, b];
    var i: nat, j: nat := 0, 1;
    assert i % 2 != j % 2 && [a, b][i].nodeName == [a, b][j].nodeName;
  }

  // ---------------------------------------------------------------------
  // The selector
  // ---------------------------------------------------------------------

  datatype EndpointSpec = EndpointSpec(interfaceName: string, nodeName: string)

  datatype LinkEndpointSpec = LinkEndpointSpec(topology: string, spec: EndpointSpec)

  datatype LogicalEndpointSpec = LogicalEndpointSpec(
    lacp: Option<bool>, name: Option<string>, endpoints: seq<EndpointSpec>)

  /** A link has no endpoints until the first is added, and then two. */
  type LinkSpec = seq<LinkEndpointSpec>

  function SpecOf(ep: Endpoint): EndpointSpec {
    EndpointSpec(ep.interfaceName, ep.nodeName)
  }

  function SpecsOf(eps: seq<Endpoint>): seq<EndpointSpec> {
    seq(|eps|, i requires 0 <= i < |eps| => SpecOf(eps[i]))
  }

  const NO_ENDPOINT := LinkEndpointSpec("", EndpointSpec("", ""))

  function WithEndpoint(link: LinkSpec, e: nat, le: LinkEndpointSpec): (r: LinkSpec)
    requires e < 2 && |link| in {0, 2}
    ensures |r| == 2 && r[e] == le && (|link| == 2 ==> r[1 - e] == link[1 - e])
  {
    (if |link| == 0 then [NO_ENDPOINT, NO_ENDPOINT] else link)[e := le]
  }

  datatype Selection = Selection(
    endpoints: seq<Endpoint>, logicalEndpoints: seq<LogicalEndpointSpec>, linkSpecs: seq<LinkSpec>)

  /** Every part of the result says the same about the endpoints picked so far. */
  ghost predicate Agrees(cr: Interconnect, r: Selection, picks: seq<seq<Endpoint>>) {
    && |picks| == 2 && |r.logicalEndpoints| == 2 && |r.linkSpecs| == cr.links
    && r.endpoints == picks[0] + picks[1]
    && (forall e | 0 <= e < 2 :: LogicalAgrees(cr, r, e, picks[e]))
    && (forall l | 0 <= l < cr.links :: |r.linkSpecs[l]| in {0, 2})
    && (forall e | 0 <= e < 2 :: LinksAgree(cr, r, e, picks[e]))
  }

  ghost predicate LogicalAgrees(cr: Interconnect, r: Selection, e: nat, picked: seq<Endpoint>)
    requires e < |r.logicalEndpoints|
  {
    && r.logicalEndpoints[e].endpoints == SpecsOf(picked)
    && (picked != [] ==>
          e < |cr.sides| && r.logicalEndpoints[e].lacp == cr.lacp && r.logicalEndpoints[e].name == cr.sides[e].name)
  }

  ghost predicate LinksAgree(cr: Interconnect, r: Selection, e: nat, picked: seq<Endpoint>)
    requires e < 2 && |r.linkSpecs| == cr.links
  {
    && |picked| <= cr.links
    && (picked != [] ==> e < |cr.sides| && cr.sides[e].topologies != [])
    && forall l: nat | l < |picked| ::
         |r.linkSpecs[l]| == 2 &&
         r.linkSpecs[l][e] == LinkEndpointSpec(TopologyOf(cr.sides[e], l), SpecOf(picked[l]))
  }

  function Added(cr: Interconnect, r: Selection, topology: string, link: nat, e: nat, ep: Endpoint): Selection
    requires e < 2 && e < |cr.sides| && link < cr.links
    requires |r.logicalEndpoints| == 2 && |r.linkSpecs| == cr.links && |r.linkSpecs[link]| in {0, 2}
  {
    var logical := r.logicalEndpoints[e];
    Selection(r.endpoints + [ep],
           r.logicalEndpoints[e := LogicalEndpointSpec(cr.lacp, cr.sides[e].name, logical.endpoints + [SpecOf(ep)])],
           r.linkSpecs[link := WithEndpoint(r.linkSpecs[link], e, LinkEndpointSpec(topology, SpecOf(ep)))])
  }

  lemma AddedAgrees(cr: Interconnect, r: Selection, picks: seq<seq<Endpoint>>, e: nat, ep: Endpoint)
    requires Agrees(cr, r, picks) && e < 2 && e < |cr.sides| && cr.sides[e].topologies != []
    requires |picks[e]| < cr.links && (e == 0 ==> picks[1] == [])
    ensures Agrees(cr, Added(cr, r, TopologyOf(cr.sides[e], |picks[e]|), |picks[e]|, e, ep),
                   picks[e := picks[e] + [ep]])
  {
    hide TopologyOf;
    var link := |picks[e]|;
    var r' := Added(cr, r, TopologyOf(cr.sides[e], link), link, e, ep);
    var picks' := picks[e := picks[e] + [ep]];
    assert SpecsOf(picks[e] + [ep]) == SpecsOf(picks[e]) + [SpecOf(ep)];
    assert r'.endpoints == picks'[0] + picks'[1];
    assert LogicalAgrees(cr, r, 1 - e, picks[1 - e]) && LinksAgree(cr, r, 1 - e, picks[1 - e]);
    assert LogicalAgrees(cr, r, e, picks[e]) && LinksAgree(cr, r, e, picks[e]);
    assert LogicalAgrees(cr, r', 1 - e, picks'[1 - e]) && LinksAgree(cr, r', 1 - e, picks'[1 - e]);
    assert LogicalAgrees(cr, r', e, picks'[e]) && LinksAgree(cr, r', e, picks'[e]);
  }

  datatype Outcome = Done | NoEndpoints | MalformedSelector | NoneMatching | InvalidIndex | Panicked

  /** What a finished side promises about its endpoints. */
  ghost predicate SideSelected(c: Cluster, me: Ref, side: Side, picked: seq<Endpoint>) {
    && Distinct(picked)
    && (picked != [] ==> side.topologies != [] && side.selector.Selector?)
    && (forall l: nat | l < |picked| ::
          && Stored(c, picked[l]) && picked[l].InTopology(TopologyOf(side, l))
          && side.selector.matches(picked[l].labels) && !picked[l].IsAllocated(me))
    && (picked != [] && FreshCluster(c, me, side) ==> OnNodes(side, picked))
  }

  /** No endpoint of the side's topologies is claimed by this resource, and all
      have a node. */
  ghost predicate FreshCluster(c: Cluster, me: Ref, side: Side) {
    forall n, t | n in c && t in side.topologies && c[n].InTopology(t) :: !c[n].WasAllocated(me) && c[n].nodeName != ""
  }

  /** The state a side starts from, as listed from the cluster. */
  ghost predicate Prepared(c: Cluster, side: Side, start: SideState) {
    && (forall t | t in side.topologies ::
          && t in start.lists && t in start.nodes && start.nodes[t] == ["", ""]
          && Distinct(start.lists[t]) && side.selector.Selector?)
    && (forall t, ep | t in side.topologies && ep in start.lists[t] ::
          Stored(c, ep) && ep.InTopology(t) && side.selector.matches(ep.labels))
  }

  lemma PreparedStart(c: Cluster, side: Side, start: SideState)
    requires Prepared(c, side, start) && side.topologies != []
    ensures Start(side, start)
  {
    forall t, u, n | t in side.topologies && u in side.topologies && t != u
      ensures !(n in Names(start.lists[t]) && n in Names(start.lists[u]))
    {
    }
  }

  lemma PreparedFresh(c: Cluster, me: Ref, side: Side, start: SideState)
    requires Prepared(c, side, start) && side.topologies != [] && FreshCluster(c, me, side)
    ensures WellFormed(side, start) && Fresh(side, me, start)
  {
    forall t, ep | t in side.topologies && ep in start.lists[t] ensures !ep.WasAllocated(me) && ep.nodeName != "" {
      assert Stored(c, ep) && ep.InTopology(t);
      assert ep.name in c && c[ep.name] == ep;
    }
  }

  /** What a side picks, unless it fails at a link or has no topology to walk. */
  function RunSide(side: Side, me: Ref, start: SideState, links: nat): (r: Option<seq<Endpoint>>)
    ensures r.Some? ==> |r.value| == links
  {
    if links == 0 then Some([])
    else if !WellFormed(side, start) then None
    else
      match Run(side, me, start, links)
      case Stuck => None
      case Progress(picked, _) => Some(picked)
  }

  lemma ProperSelected(c: Cluster, me: Ref, side: Side, start: SideState, picked: seq<Endpoint>)
    requires Prepared(c, side, start) && WellFormed(side, start) && Proper(side, me, start, picked)
    requires FreshCluster(c, me, side) ==> OnNodes(side, picked)
    ensures SideSelected(c, me, side, picked)
  {
    hide TopologyOf, OnNodes, FreshCluster;
    assert side.topologies[0] in side.topologies;
    forall l: nat | l < |picked|
      ensures Stored(c, picked[l]) && picked[l].InTopology(TopologyOf(side, l))
      ensures side.selector.matches(picked[l].labels)
    {
      var t := TopologyOf(side, l);
      assert t in side.topologies && picked[l] in start.lists[t];
    }
  }

  /** The endpoints of a finished side: stored ones of the right topologies that the
      selector matches, none twice, none of another resource, and, when fresh, on
      their nodes. */
  lemma RunSelected(c: Cluster, me: Ref, side: Side, start: SideState, links: nat)
    requires Prepared(c, side, start) && RunSide(side, me, start, links).Some?
    ensures SideSelected(c, me, side, RunSide(side, me, start, links).value)
  {
    if links > 0 {
      PreparedStart(c, side, start);
      hide Run, Start, Fresh, FreshCluster, Proper, OnNodes, SideSelected, Prepared;
      RunProper(side, me, start, links);
      if FreshCluster(c, me, side) {
        PreparedFresh(c, me, side, start);
        FreshOnNodes(side, me, start, links);
      }
      ProperSelected(c, me, side, start, Run(side, me, start, links).picked);
    }
  }

  lemma RunStep(side: Side, me: Ref, start: SideState, link: nat)
    requires WellFormed(side, start)
    ensures Run(side, me, start, 0) == Progress([], start)
    ensures var before := Run(side, me, start, link);
            before.Progress? ==> Run(side, me, start, link + 1) == Next(side, me, before.picked, before.state, link)
  {
  }

  lemma Shape(cr: Interconnect, r: Selection, picks: seq<seq<Endpoint>>)
    requires Agrees(cr, r, picks)
    ensures |picks| == 2 && |r.logicalEndpoints| == 2 && |r.linkSpecs| == cr.links
    ensures forall l | 0 <= l < cr.links :: |r.linkSpecs[l]| in {0, 2}
  {
  }

  class EndpointSelector {
    const client: Inventory
    const cr: Interconnect
    var result: Selection

    constructor (cr: Interconnect, client: Inventory)
      ensures this.cr == cr && this.client == client && Agrees(cr, result, [[], []])
    {
      this.cr, this.client := cr, client;
      var none := LogicalEndpointSpec(None, None, []);
      result := Selection([], [none, none], seq(cr.links, i => []));
    }

    method AddEndpoint(topology: string, link: nat, e: nat, ep: Endpoint) returns (ok: bool)
      requires e < |cr.sides| && |result.logicalEndpoints| == 2 && |result.linkSpecs| == cr.links
      requires link < cr.links ==> |result.linkSpecs[link]| in {0, 2}
      modifies this`result
      ensures ok <==> link < cr.links && e < 2
      ensures result == if ok then Added(cr, old(result), topology, link, e, ep) else old(result)
    {
      if link >= cr.links || e >= 2 {
        return false;
      }
      var spec := SpecOf(ep);
      result := result.(endpoints := result.endpoints + [ep]);
      var links := if |result.linkSpecs[link]| == 0 then [NO_ENDPOINT, NO_ENDPOINT] else result.linkSpecs[link];
      result := result.(linkSpecs := result.linkSpecs[link := links[e := LinkEndpointSpec(topology, spec)]]);
      var logical := result.logicalEndpoints[e].(lacp := cr.lacp, name := cr.sides[e].name);
      logical := logical.(endpoints := logical.endpoints + [spec]);
      result := result.(logicalEndpoints := result.logicalEndpoints[e := logical]);
      ok := true;
    }

    /** The candidates of each topology of a side. */
    method PrepareSide(side: Side) returns (outcome: Outcome, start: SideState)
      requires forall t | t in side.topologies :: t in client.inventory
      requires forall t | t in client.inventory :: Listing(client.cluster, Some(t), client.inventory[t])
      ensures outcome in {Done, MalformedSelector, NoneMatching}
      ensures outcome == Done ==> Prepared(client.cluster, side, start) && StartsFrom(client.inventory, side, start)
      ensures outcome == MalformedSelector <==> side.topologies != [] && side.selector.Malformed?
      ensures outcome == NoneMatching <==>
              && side.selector.Selector?
              && exists t | t in side.topologies :: NoneMatches(client.inventory[t], side.selector)
    {
      var lists: map<string, seq<Endpoint>> := map[];
      var nodes: map<string, seq<string>> := map[];
      start := SideState(lists, nodes);
      NothingPrepared(client.cluster, client.inventory, side);
      hide ReadyUpTo, Prepared, StartsFrom, Listing, Candidates, InOrder, NoneMatches, SortedBy;
      for i := 0 to |side.topologies|
        invariant ReadyUpTo(client.cluster, client.inventory, side, i, SideState(lists, nodes))
        invariant i > 0 ==> side.selector.Selector?
        invariant side.selector.Selector? ==>
                    forall j | 0 <= j < i :: !NoneMatches(client.inventory[side.topologies[j]], side.selector)
      {
        var t := side.topologies[i];
        var r := client.GetTopologyEndpointsWithSelector(t, side.selector);
        if r.BadSelector? {
          return MalformedSelector, start;
        }
        if r.NothingSelected? {
          return NoneMatching, start;
        }
        ReadyStep(client.cluster, client.inventory, side, i, SideState(lists, nodes), r.eps);
        lists, nodes := lists[t := r.eps], nodes[t := ["", ""]];
      }
      outcome, start := Done, SideState(lists, nodes);
      AllReady(client.cluster, client.inventory, side, start);
    }

    /** One link of a side: the first eligible candidate is added and removed from the
        candidates. */
    method SelectLink(e: nat, st: SideState, link: nat, ghost picks: seq<seq<Endpoint>>)
      returns (outcome: Outcome, st': SideState, ghost picks': seq<seq<Endpoint>>)
      requires e < |cr.sides| && WellFormed(cr.sides[e], st) && Agrees(cr, result, picks) && |picks| == 2
      requires link < cr.links && (e < 2 ==> |picks[e]| == link) && (e == 0 ==> picks[1] == [])
      modifies this`result
      ensures Agrees(cr, result, picks') && |picks'| == 2 && WellFormed(cr.sides[e], st')
      ensures if e >= 2 then outcome in {NoEndpoints, InvalidIndex} && picks' == picks
              else
                match Next(cr.sides[e], cr.ref, picks[e], st, link)
                case Stuck => outcome == NoEndpoints
                case Progress(picked, next) => outcome == Done && picks' == picks[e := picked] && st' == next
    {
      var side := cr.sides[e];
      Shape(cr, result, picks);
      hide Agrees, Scan, Take, TopologyOf, NodeIndex, Diverse, Added;
      outcome, st', picks' := Done, st, picks;
      var t := TopologyOf(side, link);
      var i := ScanCandidates(side, st.nodes[t], NodeIndex(side, link), st.lists[t]);
      if i == |st.lists[t]| {
        return NoEndpoints, st', picks';
      }
      var ep := st.lists[t][i];
      if e < 2 {
        AddedAgrees(cr, result, picks, e, ep);
      }
      var ok := AddEndpoint(t, link, e, ep);
      if !ok {
        return InvalidIndex, st', picks';
      }
      st' := Take(side, cr.ref, st, link, i);
      picks' := picks[e := picks[e] + [ep]];
    }

    /** One endpoint for each link of a side, or the failure at the first link that
        no candidate is left for. */
    method SelectLinks(e: nat, start: SideState, ghost picks: seq<seq<Endpoint>>)
      returns (outcome: Outcome, ghost picks': seq<seq<Endpoint>>)
      requires e < |cr.sides| && WellFormed(cr.sides[e], start) && Agrees(cr, result, picks) && |picks| == 2
      requires (e < 2 ==> picks[e] == []) && (e == 0 ==> picks[1] == [])
      modifies this`result
      ensures Agrees(cr, result, picks')
      ensures e >= 2 ==> picks' == picks && outcome in (if cr.links == 0 then {Done} else {NoEndpoints, InvalidIndex})
      ensures e < 2 ==>
                match Run(cr.sides[e], cr.ref, start, cr.links)
                case Stuck => outcome == NoEndpoints
                case Progress(picked, _) => outcome == Done && picks' == picks[e := picked]
    {
      hide Agrees, Run, Next;
      var side := cr.sides[e];
      var st := start;
      picks' := picks;
      RunStep(side, cr.ref, start, 0);
      for link := 0 to cr.links
        invariant Agrees(cr, result, picks') && |picks'| == 2 && WellFormed(side, st)
        invariant e >= 2 ==> picks' == picks && link == 0
        invariant e < 2 ==> var run := Run(side, cr.ref, start, link);
                            run.Progress? && picks' == picks[e := run.picked] && st == run.state
      {
        RunStep(side, cr.ref, start, link);
        outcome, st, picks' := SelectLink(e, st, link, picks');
        if outcome != Done {
          if e < 2 {
            StuckStays(side, cr.ref, start, link + 1, cr.links);
          }
          return outcome, picks';
        }
      }
      outcome := Done;
    }

    /** The links of a side, of which the first fails when the side has no topology:
        the remainder by zero is a run-time panic. */
    method SelectSide(e: nat, start: SideState, ghost picks: seq<seq<Endpoint>>)
      returns (outcome: Outcome, ghost picks': seq<seq<Endpoint>>)
      requires e < |cr.sides| && Prepared(client.cluster, cr.sides[e], start)
      requires Agrees(cr, result, picks) && |picks| == 2
      requires (e < 2 ==> picks[e] == []) && (e == 0 ==> picks[1] == [])
      modifies this`result
      ensures Agrees(cr, result, picks')
      ensures outcome == Panicked <==> cr.links > 0 && cr.sides[e].topologies == []
      ensures outcome == InvalidIndex ==> e >= 2
      ensures e < 2 ==>
                match RunSide(cr.sides[e], cr.ref, start, cr.links)
                case None => outcome in {NoEndpoints, Panicked}
                case Some(picked) => outcome == Done && picks' == picks[e := picked]
      ensures e >= 2 ==> picks' == picks && (cr.links > 0 ==> outcome != Done)
    {
      hide Agrees, Run;
      if cr.links == 0 {
        return Done, picks;
      }
      if cr.sides[e].topologies == [] {
        return Panicked, picks;
      }
      outcome, picks' := SelectLinks(e, start, picks);
    }

    /** The scan over the candidates of a topology, branch by branch. */
    method ScanCandidates(side: Side, nodes: seq<string>, idx: nat, eps: seq<Endpoint>) returns (i: nat)
      requires idx < |nodes|
      ensures i == Scan(cr.ref, Diverse(side), nodes, idx, eps, 0)
    {
      i := 0;
      while i < |eps|
        invariant i <= |eps|
        invariant Scan(cr.ref, Diverse(side), nodes, idx, eps, 0) == Scan(cr.ref, Diverse(side), nodes, idx, eps, i)
      {
        var ep := eps[i];
        if ep.WasAllocated(cr.ref) {
          return;
        }
        if nodes[idx] != "" {
          if ep.nodeName == nodes[idx] && !ep.IsAllocated(cr.ref) {
            return;
          }
        } else if |side.topologies| == 1 && side.diversity.Some? && side.diversity.value > 1 {
          if ep.IsNodeDiverse(idx, nodes) && !ep.IsAllocated(cr.ref) {
            return;
          }
        } else if !ep.IsAllocated(cr.ref) {
          return;
        }
        i := i + 1;
      }
    }

    /** selectEndpoints. When it succeeds for two sides with topologies, every slot of
        every link is filled, and the parts of the result agree. */
    method SelectEndpoints() returns (outcome: Outcome, ghost picks: seq<seq<Endpoint>>)
      requires Keyed(client.cluster) && Agrees(cr, result, [[], []])
      modifies this`result, client`inventory
      ensures Agrees(cr, result, picks)
      ensures outcome == InvalidIndex ==> |cr.sides| > 2
      ensures outcome == Panicked ==> cr.links > 0 && exists side | side in cr.sides :: side.topologies == []
      ensures outcome == Done && |cr.sides| == 2 ==>
                Finished(client.cluster, cr, 0, picks[0]) && Finished(client.cluster, cr, 1, picks[1])
      ensures outcome == Done && |cr.sides| == 2 && Alike(cr.sides[0], cr.sides[1]) ==> picks[0] == picks[1]
    {
      client.Init(Topologies(cr.sides));
      picks := [[], []];
      hide Agrees, Prepared, SideSelected, Listing, RunSide, Topologies, StartsFrom, Alike;
      for e := 0 to |cr.sides|
        invariant client.cluster == old(client.cluster)
        invariant Agrees(cr, result, picks) && |picks| == 2
        invariant forall side, t | side in cr.sides && t in side.topologies :: t in client.inventory
        invariant forall t | t in client.inventory :: Listing(client.cluster, Some(t), client.inventory[t])
        invariant if 0 < e then Finished(client.cluster, cr, 0, picks[0]) else picks[0] == []
        invariant if 1 < e then Finished(client.cluster, cr, 1, picks[1]) else picks[1] == []
        invariant 0 < e ==> RanFrom(client.inventory, cr, 0, picks[0])
        invariant 1 < e ==> RanFrom(client.inventory, cr, 1, picks[1])
      {
        var side := cr.sides[e];
        assert side in cr.sides;
        var prepared, start := PrepareSide(side);
        if prepared != Done {
          return prepared, picks;
        }
        var selected;
        selected, picks := SelectSide(e, start, picks);
        if selected != Done {
          return selected, picks;
        }
        Shape(cr, result, picks);
        if e < 2 {
          RunSelected(client.cluster, cr.ref, side, start, cr.links);
          assert RanFrom(client.inventory, cr, e, picks[e]);
        }
      }
      if |cr.sides| == 2 && Alike(cr.sides[0], cr.sides[1]) {
        AlikePicks(client.inventory, cr, picks[0], picks[1]);
      }
      outcome := Done;
    }
  }

  /** The state that the listed inventory gives a side. */
  ghost predicate StartsFrom(inventory: map<string, seq<Endpoint>>, side: Side, start: SideState) {
    && start.lists.Keys == start.nodes.Keys == (set t | t in side.topologies)
    && (side.topologies != [] ==> side.selector.Selector?)
    && forall t | t in side.topologies ::
         && t in inventory && start.nodes[t] == ["", ""]
         && start.lists[t] == InOrder(inventory[t], side.selector.matches)
  }

  /** The first `n` topologies of a side have been listed. */
  ghost predicate ReadyUpTo(c: Cluster, inventory: map<string, seq<Endpoint>>, side: Side, n: nat, st: SideState)
    requires n <= |side.topologies|
  {
    var done := side.(topologies := side.topologies[..n]);
    Prepared(c, done, st) && StartsFrom(inventory, done, st)
  }

  lemma NothingPrepared(c: Cluster, inventory: map<string, seq<Endpoint>>, side: Side)
    ensures ReadyUpTo(c, inventory, side, 0, SideState(map[], map[]))
  {
  }

  lemma AllReady(c: Cluster, inventory: map<string, seq<Endpoint>>, side: Side, st: SideState)
    requires ReadyUpTo(c, inventory, side, |side.topologies|, st)
    ensures Prepared(c, side, st) && StartsFrom(inventory, side, st)
  {
    hide Prepared, StartsFrom;
    assert side.topologies[..|side.topologies|] == side.topologies;
    assert side.(topologies := side.topologies[..|side.topologies|]) == side;
  }

  lemma ReadyStep(c: Cluster, inventory: map<string, seq<Endpoint>>, side: Side, i: nat, st: SideState,
                  eps: seq<Endpoint>)
    requires i < |side.topologies| && side.selector.Selector? && side.topologies[i] in inventory
    requires ReadyUpTo(c, inventory, side, i, st)
    requires Listing(c, Some(side.topologies[i]), inventory[side.topologies[i]])
    requires Candidates(inventory[side.topologies[i]], side.selector.matches, eps)
    requires eps == InOrder(inventory[side.topologies[i]], side.selector.matches)
    ensures var t := side.topologies[i];
            ReadyUpTo(c, inventory, side, i + 1, SideState(st.lists[t := eps], st.nodes[t := ["", ""]]))
  {
    hide Prepared, StartsFrom, InOrder, Listing, Candidates;
    PreparedStep(c, side, i, st, inventory[side.topologies[i]], eps);
    StartStep(inventory, side, i, st);
  }

  lemma StartStep(inventory: map<string, seq<Endpoint>>, side: Side, i: nat, st: SideState)
    requires i < |side.topologies| && side.selector.Selector? && side.topologies[i] in inventory
    requires StartsFrom(inventory, side.(topologies := side.topologies[..i]), st)
    ensures var t := side.topologies[i];
            StartsFrom(inventory, side.(topologies := side.topologies[..i + 1]),
                       SideState(st.lists[t := InOrder(inventory[t], side.selector.matches)],
                                 st.nodes[t := ["", ""]]))
  {
    hide InOrder;
    assert side.topologies[..i + 1] == side.topologies[..i] + [side.topologies[i]];
  }

  /** Sides that differ in the name of their logical endpoint only. */
  ghost predicate Alike(a: Side, b: Side) {
    a.(name := None) == b.(name := None)
  }

  lemma AlikeStart(inventory: map<string, seq<Endpoint>>, a: Side, b: Side, s: SideState, t: SideState)
    requires Alike(a, b) && StartsFrom(inventory, a, s) && StartsFrom(inventory, b, t)
    ensures s == t
  {
    hide InOrder;
    assert a.topologies == b.topologies && a.selector == b.selector;
    assert s.lists == t.lists && s.nodes == t.nodes;
  }

  lemma NextIgnoresName(side: Side, name: Option<string>, me: Ref, picked: seq<Endpoint>, st: SideState, link: nat)
    requires WellFormed(side, st)
    ensures var b := side.(name := name);
            WellFormed(b, st) && Next(b, me, picked, st, link) == Next(side, me, picked, st, link)
  {
    hide Scan, Without, Recorded;
    var b := side.(name := name);
    assert TopologyOf(b, link) == TopologyOf(side, link) && NodeIndex(b, link) == NodeIndex(side, link);
  }

  lemma {:induction false} RunIgnoresName(side: Side, name: Option<string>, me: Ref, start: SideState, k: nat)
    requires WellFormed(side, start) && WellFormed(side.(name := name), start)
    ensures Run(side.(name := name), me, start, k) == Run(side, me, start, k)
    decreases k
  {
    hide Run, WellFormed;
    if k == 0 {
      NoLinks(side, me, start);
      NoLinks(side.(name := name), me, start);
    } else {
      RunIgnoresName(side, name, me, start, k - 1);
      NextRunIgnoresName(side, name, me, start, k);
    }
  }

  lemma NoLinks(side: Side, me: Ref, start: SideState)
    requires WellFormed(side, start)
    ensures Run(side, me, start, 0) == Progress([], start)
  {
  }

  lemma NextRunIgnoresName(side: Side, name: Option<string>, me: Ref, start: SideState, k: nat)
    requires k > 0 && WellFormed(side, start) && WellFormed(side.(name := name), start)
    requires Run(side.(name := name), me, start, k - 1) == Run(side, me, start, k - 1)
    ensures Run(side.(name := name), me, start, k) == Run(side, me, start, k)
  {
    hide Run, Next, WellFormed;
    OneMore(side, me, start, k);
    OneMore(side.(name := name), me, start, k);
    var before := Run(side, me, start, k - 1);
    if before.Progress? {
      NextIgnoresName(side, name, me, before.picked, before.state, k - 1);
    }
  }

  lemma OneMore(side: Side, me: Ref, start: SideState, k: nat)
    requires WellFormed(side, start) && k > 0
    ensures var before := Run(side, me, start, k - 1);
            if before.Stuck? then Run(side, me, start, k) == Stuck
            else Run(side, me, start, k) == Next(side, me, before.picked, before.state, k - 1)
  {
    hide Next;
  }

  /** The side picked these endpoints, starting from the listed inventory. */
  ghost predicate RanFrom(inventory: map<string, seq<Endpoint>>, cr: Interconnect, e: nat, picked: seq<Endpoint>)
    requires e < |cr.sides|
  {
    exists start :: StartsFrom(inventory, cr.sides[e], start) &&
                    RunSide(cr.sides[e], cr.ref, start, cr.links) == Some(picked)
  }

  /** Sides that are alike pick the same endpoints. */
  lemma AlikePicks(inventory: map<string, seq<Endpoint>>, cr: Interconnect, p: seq<Endpoint>, q: seq<Endpoint>)
    requires |cr.sides| == 2 && Alike(cr.sides[0], cr.sides[1])
    requires RanFrom(inventory, cr, 0, p) && RanFrom(inventory, cr, 1, q)
    ensures p == q
  {
    var a, b := cr.sides[0], cr.sides[1];
    assert b == a.(name := b.name);
    hide StartsFrom, Run, Alike, WellFormed;
    var s :| StartsFrom(inventory, a, s) && RunSide(a, cr.ref, s, cr.links) == Some(p);
    var t :| StartsFrom(inventory, b, t) && RunSide(b, cr.ref, t, cr.links) == Some(q);
    AlikeStart(inventory, a, b, s, t);
    if cr.links > 0 {
      RunIgnoresName(a, b.name, cr.ref, s, cr.links);
    }
  }

  /** A side with an endpoint for each link. */
  ghost predicate Finished(c: Cluster, cr: Interconnect, e: nat, picked: seq<Endpoint>)
    requires e < |cr.sides|
  {
    |picked| == cr.links && SideSelected(c, cr.ref, cr.sides[e], picked)
  }

  lemma PreparedStep(c: Cluster, side: Side, i: nat, st: SideState, items: seq<Endpoint>, eps: seq<Endpoint>)
    requires i < |side.topologies| && side.selector.Selector?
    requires Prepared(c, side.(topologies := side.topologies[..i]), st)
    requires Listing(c, Some(side.topologies[i]), items) && Candidates(items, side.selector.matches, eps)
    ensures var t := side.topologies[i];
            Prepared(c, side.(topologies := side.topologies[..i + 1]),
                     SideState(st.lists[t := eps], st.nodes[t := ["", ""]]))
  {
    assert side.topologies[..i + 1] == side.topologies[..i] + [side.topologies[i]];
  }

  /** GetTopologies. */
  function Topologies(sides: seq<Side>): (r: seq<string>)
    ensures forall t :: t in r <==> exists side | side in sides :: t in side.topologies
  {
    if sides == [] then []
    else
      var n := |sides| - 1;
      assert sides == sides[..n] + [sides[n]];
      Topologies(sides[..n]) + sides[n].topologies
  }
}
