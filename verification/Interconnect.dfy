/** The claims of a logical interconnect: what its reconciliation does to the
    endpoints, and what any number of interconnects keep apart. */
module Interconnects {
  import opened Wrappers
  import opened Endpoints
  import opened Selectors

  // ---------------------------------------------------------------------
  // One reconciliation
  // ---------------------------------------------------------------------

  /** Claims that are no longer selected are dropped and the selected ones set. */
  function Reclaimed(c: Cluster, me: Ref, selected: set<Name>): Cluster {
    Marked(Marked(c, ClaimedBy(c, me) - selected, None), selected, Some(me))
  }

  /** The selection names stored endpoints that no other resource claims. */
  predicate Claimable(c: Cluster, me: Ref, selected: set<Name>) {
    forall n | n in selected :: n in c && !c[n].IsAllocated(me)
  }

  /** Exactly the selected endpoints reference the resource; those of every other
      resource, and all but the claims of an endpoint, stay as they were. */
  lemma ReclaimedExact(c: Cluster, me: Ref, selected: set<Name>)
    requires Claimable(c, me, selected)
    ensures ClaimedBy(Reclaimed(c, me, selected), me) == selected
    ensures forall other | other != me :: ClaimedBy(Reclaimed(c, me, selected), other) == ClaimedBy(c, other)
    ensures Reclaimed(c, me, selected).Keys == c.Keys
    ensures forall n | n in c && n !in selected && !c[n].WasAllocated(me) :: Reclaimed(c, me, selected)[n] == c[n]
  {
    var c' := Reclaimed(c, me, selected);
    forall n ensures n in ClaimedBy(c', me) <==> n in selected {
    }
    forall other | other != me ensures ClaimedBy(c', other) == ClaimedBy(c, other) {
      forall n ensures n in ClaimedBy(c', other) <==> n in ClaimedBy(c, other) {
      }
    }
  }

  datatype Populated = Applied | NotSelected(reason: Outcome) | UpdateFailed

  lemma NoneTwice()
    ensures Distinct([])
  {
  }

  lemma DistinctWith(eps: seq<Endpoint>, i: nat, some: seq<Endpoint>)
    requires Distinct(eps) && i < |eps| && Distinct(some) && forall ep | ep in some :: ep in eps[..i]
    ensures Distinct(some + [eps[i]])
  {
    forall k | 0 <= k < |some| ensures some[k].name != eps[i].name {
      assert some[k] in eps[..i];
      var j :| 0 <= j < i && eps[j] == some[k];
    }
  }

  method Contains(eps: seq<Endpoint>, name: Name) returns (found: bool)
    ensures found <==> name in Names(eps)
  {
    for i := 0 to |eps|
      invariant name !in Names(eps[..i])
    {
      assert eps[..i + 1] == eps[..i] + [eps[i]];
      NamesAppend(eps[..i], eps[i]);
      if name == eps[i].name {
        InNames(eps, eps[i]);
        return true;
      }
    }
    assert eps[..|eps|] == eps;
    found := false;
  }

  /** The claims that the selection does not contain. */
  method StaleClaims(claimed: seq<Endpoint>, selected: seq<Endpoint>) returns (stale: seq<Endpoint>)
    ensures Names(stale) == Names(claimed) - Names(selected) && |stale| <= |claimed|
    ensures forall ep | ep in stale :: ep in claimed
    ensures Distinct(claimed) ==> Distinct(stale)
  {
    stale := [];
    assert claimed[..0] == [] && Names([]) == {};
    hide Names, Distinct;
    assert Distinct([]) by { NoneTwice(); }
    for i := 0 to |claimed|
      invariant Names(stale) == Names(claimed[..i]) - Names(selected) && |stale| <= i
      invariant forall ep | ep in stale :: ep in claimed[..i]
      invariant Distinct(claimed) ==> Distinct(stale)
    {
      var ep := claimed[i];
      assert claimed[..i + 1] == claimed[..i] + [ep];
      NamesAppend(claimed[..i], ep);
      NamesAppend(stale, ep);
      var found := Contains(selected, ep.name);
      if !found {
        if Distinct(claimed) {
          DistinctWith(claimed, i, stale);
        }
        stale := stale + [ep];
      }
    }
    assert claimed[..|claimed|] == claimed;
  }

  lemma SelectedClaimable(c: Cluster, cr: Interconnect, picks: seq<seq<Endpoint>>)
    requires |cr.sides| == 2 && |picks| == 2
    requires Finished(c, cr, 0, picks[0]) && Finished(c, cr, 1, picks[1])
    ensures Claimable(c, cr.ref, Names(picks[0] + picks[1])) && AllStored(c, picks[0] + picks[1])
  {
    hide OnNodes, TopologyOf, FreshCluster;
    forall ep | ep in picks[0] + picks[1] ensures Stored(c, ep) && !ep.IsAllocated(cr.ref) {
      assert ep in picks[0] || ep in picks[1];
    }
  }

  /** Slot `e` of link `l` is filled with a selected endpoint, and the logical
      endpoint of the side says the same. */
  ghost predicate SlotFilled(cr: Interconnect, r: Selection, e: nat, l: nat)
    requires e < |cr.sides| && e < 2 && l < cr.links
    requires |r.endpoints| == 2 * cr.links && |r.logicalEndpoints| == 2 && |r.linkSpecs| == cr.links
  {
    var ep := r.endpoints[if e == 0 then l else cr.links + l];
    var side, logical := cr.sides[e], r.logicalEndpoints[e];
    && side.topologies != [] && |r.linkSpecs[l]| == 2 && |logical.endpoints| == cr.links
    && r.linkSpecs[l][e] == LinkEndpointSpec(TopologyOf(side, l), SpecOf(ep))
    && logical.endpoints[l] == SpecOf(ep) && logical.lacp == cr.lacp && logical.name == side.name
  }

  /** A complete selection for two sides. */
  ghost predicate Complete(c: Cluster, cr: Interconnect, r: Selection)
    requires |cr.sides| == 2
  {
    && |r.endpoints| == 2 * cr.links && |r.logicalEndpoints| == 2 && |r.linkSpecs| == cr.links
    && (forall e: nat, l: nat | e < 2 && l < cr.links :: SlotFilled(cr, r, e, l))
    && SideSelected(c, cr.ref, cr.sides[0], r.endpoints[..cr.links])
    && SideSelected(c, cr.ref, cr.sides[1], r.endpoints[cr.links..])
  }

  lemma SelectionComplete(c: Cluster, cr: Interconnect, r: Selection, picks: seq<seq<Endpoint>>)
    requires |cr.sides| == 2 && Agrees(cr, r, picks)
    requires Finished(c, cr, 0, picks[0]) && Finished(c, cr, 1, picks[1])
    ensures Complete(c, cr, r)
  {
    hide SideSelected, TopologyOf;
    assert r.endpoints[..cr.links] == picks[0] && r.endpoints[cr.links..] == picks[1];
    forall e: nat, l: nat | e < 2 && l < cr.links ensures SlotFilled(cr, r, e, l) {
      SlotAgrees(cr, r, picks, e, l);
    }
  }

  lemma SlotAgrees(cr: Interconnect, r: Selection, picks: seq<seq<Endpoint>>, e: nat, l: nat)
    requires |cr.sides| == 2 && Agrees(cr, r, picks) && e < 2 && l < cr.links
    requires |picks[0]| == cr.links && |picks[1]| == cr.links
    ensures |r.endpoints| == 2 * cr.links && SlotFilled(cr, r, e, l)
  {
    hide TopologyOf;
    assert LogicalAgrees(cr, r, e, picks[e]) && LinksAgree(cr, r, e, picks[e]);
    assert r.endpoints[if e == 0 then l else cr.links + l] == picks[e][l];
  }

  lemma PrefixNames(eps: seq<Endpoint>, k: nat)
    requires k <= |eps|
    ensures Names(eps[..k]) <= Names(eps)
  {
  }

  /** An update that stops half way leaves other resources alone as well. */
  lemma PartialKeeps(c: Cluster, me: Ref, dropped: set<Name>, added: set<Name>)
    requires dropped <= ClaimedBy(c, me) && Claimable(c, me, added)
    ensures forall other | other != me ::
              && ClaimedBy(Marked(c, dropped, None), other) == ClaimedBy(c, other)
              && ClaimedBy(Marked(Marked(c, dropped, None), added, Some(me)), other) == ClaimedBy(c, other)
  {
    var c1 := Marked(c, dropped, None);
    var c2 := Marked(c1, added, Some(me));
    forall other, n | other != me
      ensures n in ClaimedBy(c1, other) <==> n in ClaimedBy(c, other)
      ensures n in ClaimedBy(c2, other) <==> n in ClaimedBy(c, other)
    {
    }
  }

  lemma ClaimableSubset(c: Cluster, me: Ref, some: set<Name>, all: set<Name>)
    requires Claimable(c, me, all) && some <= all
    ensures Claimable(c, me, some)
  {
  }

  lemma DistinctRepeatable(eps: seq<Endpoint>, ref: Option<Ref>)
    requires Distinct(eps)
    ensures Repeatable(eps, ref)
  {
  }

  /** Copies of endpoints that are not touched stay the stored version. */
  lemma StillStored(c: Cluster, dropped: set<Name>, eps: seq<Endpoint>)
    requires AllStored(c, eps) && dropped !! Names(eps)
    ensures AllStored(Marked(c, dropped, None), eps)
  {
    forall ep | ep in eps ensures Stored(Marked(c, dropped, None), ep) {
      assert Stored(c, ep) && ep.name in Names(eps);
    }
  }

  /** The claim step on the selected endpoints: stale claims are dropped, then the
      selected endpoints are claimed. With no failure of the server it succeeds
      exactly when no endpoint that is new to the resource was selected twice. */
  method ClaimSelected(client: Inventory, me: Ref, claimed: seq<Endpoint>, selected: seq<Endpoint>,
                       failDelete: nat, failClaim: nat)
    returns (ok: bool)
    requires Names(claimed) == ClaimedBy(client.cluster, me) && Claimable(client.cluster, me, Names(selected))
    requires AllStored(client.cluster, claimed) && Distinct(claimed) && AllStored(client.cluster, selected)
    modifies client`cluster
    ensures ok ==> client.cluster == Reclaimed(old(client.cluster), me, Names(selected))
    ensures ok ==> ClaimedBy(client.cluster, me) == Names(selected)
    ensures forall other | other != me :: ClaimedBy(client.cluster, other) == ClaimedBy(old(client.cluster), other)
    ensures failDelete >= |claimed| && failClaim >= |selected| ==> (ok <==> Repeatable(selected, Some(me)))
    ensures ok ==> Repeatable(selected, Some(me))
  {
    ghost var c := client.cluster;
    ReclaimedExact(c, me, Names(selected));
    var stale := StaleClaims(claimed, selected);
    assert AllStored(c, stale);
    hide Marked, ClaimedBy, Names, Claimable, AllStored, Repeatable, Distinct;
    DistinctRepeatable(stale, None);
    ok := client.DeleteClaim(stale, failDelete);
    if !ok {
      ghost var k :| 0 <= k < |stale| && client.cluster == Marked(c, Names(stale[..k]), None);
      PrefixNames(stale, k);
      ClaimableSubset(c, me, {}, Names(selected));
      PartialKeeps(c, me, Names(stale[..k]), {});
      return false;
    }
    ghost var c1 := client.cluster;
    StillStored(c, Names(stale), selected);
    ok := client.Claim(me, selected, failClaim);
    if !ok {
      ghost var k :| 0 <= k < |selected| && client.cluster == Marked(c1, Names(selected[..k]), Some(me));
      PrefixNames(selected, k);
      ClaimableSubset(c, me, Names(selected[..k]), Names(selected));
      PartialKeeps(c, me, Names(stale), Names(selected[..k]));
    }
  }

  predicate Apart(a: Side, b: Side) {
    forall t | t in a.topologies :: t !in b.topologies
  }

  /** Sides without a common topology select different endpoints. */
  lemma SidesApart(c: Cluster, cr: Interconnect, picks: seq<seq<Endpoint>>)
    requires |cr.sides| == 2 && |picks| == 2
    requires Finished(c, cr, 0, picks[0]) && Finished(c, cr, 1, picks[1])
    requires Apart(cr.sides[0], cr.sides[1])
    ensures Distinct(picks[0] + picks[1])
  {
    hide OnNodes, FreshCluster;
    var p, q := picks[0], picks[1];
    forall i, j | 0 <= i < |p| && 0 <= j < |q| ensures p[i].name != q[j].name {
      assert Stored(c, p[i]) && p[i].InTopology(TopologyOf(cr.sides[0], i));
      assert Stored(c, q[j]) && q[j].InTopology(TopologyOf(cr.sides[1], j));
    }
  }

  /** The same endpoints selected for both sides can be claimed only when all of them
      are claimed by the resource already. */
  lemma SameTwice(picked: seq<Endpoint>, me: Ref)
    ensures Repeatable(picked + picked, Some(me)) <==> forall ep | ep in picked :: ep.WasAllocated(me)
  {
    var both, n := picked + picked, |picked|;
    if Repeatable(both, Some(me)) {
      forall ep | ep in picked ensures ep.WasAllocated(me) {
        var i :| 0 <= i < n && picked[i] == ep;
        assert both[i] == both[n + i] == ep;
      }
    }
    if forall ep | ep in picked :: ep.WasAllocated(me) {
      forall i, j | 0 <= i < j < |both| && both[i].name == both[j].name ensures both[i].claimRef == Some(me) {
        assert both[i] in picked;
      }
    }
  }

  /** Sides that are alike pick the same endpoints, and these can be claimed if and only
      if all of them are claimed by the resource already. */
  lemma EqualSidesClash(inventory: map<string, seq<Endpoint>>, cr: Interconnect, p: seq<Endpoint>, q: seq<Endpoint>)
    requires |cr.sides| == 2 && Alike(cr.sides[0], cr.sides[1])
    requires RanFrom(inventory, cr, 0, p) && RanFrom(inventory, cr, 1, q)
    ensures p == q
    ensures Repeatable(p + q, Some(cr.ref)) <==> forall ep | ep in p :: ep.WasAllocated(cr.ref)
  {
    hide RanFrom, Alike, Repeatable;
    AlikePicks(inventory, cr, p, q);
    SameTwice(p, cr.ref);
  }

  /** An endpoint that is the only candidate of both sides. */
  ghost predicate OnlyCandidate(cr: Interconnect, t: string, ep: Endpoint) {
    && cr.links == 1 && |cr.sides| == 2 && Alike(cr.sides[0], cr.sides[1])
    && cr.sides[0].topologies == [t] && cr.sides[0].selector.Selector?
    && cr.sides[0].selector.matches(ep.labels) && ep.InTopology(t)
  }

  lemma PicksOnly(side: Side, me: Ref, t: string, ep: Endpoint)
    requires side.topologies == [t] && !ep.IsAllocated(me)
    ensures RunSide(side, me, SideState(map[t := [ep]], map[t := ["", ""]]), 1) == Some([ep])
  {
    var start := SideState(map[t := [ep]], map[t := ["", ""]]);
    assert TopologyOf(side, 0) == t && WellFormed(side, start);
    RunStep(side, me, start, 0);
    assert Eligible(me, Diverse(side), start.nodes[t], NodeIndex(side, 0), ep);
    hide Run, Take, Diverse, Eligible;
    assert Next(side, me, [], start, 0).Progress? && Next(side, me, [], start, 0).picked == [ep];
  }

  lemma StartsWithOnly(side: Side, t: string, ep: Endpoint)
    requires side.topologies == [t] && side.selector.Selector? && side.selector.matches(ep.labels)
    ensures StartsFrom(map[t := [ep]], side, SideState(map[t := [ep]], map[t := ["", ""]]))
  {
    OnlySelected(ep, side.selector.matches);
    hide InOrder;
  }

  lemma OnlySelected(ep: Endpoint, matches: Labels -> bool)
    requires matches(ep.labels)
    ensures InOrder([ep], matches) == [ep]
  {
    assert [ep][..0] == [] && SelectedOf([ep], matches) == [ep];
  }

  /** Listed from this cluster, both sides pick the endpoint. */
  ghost predicate BothPick(c: Cluster, cr: Interconnect, t: string, ep: Endpoint)
    requires |cr.sides| == 2
  {
    && Listing(c, Some(t), [ep]) && AllStored(c, [ep, ep])
    && RanFrom(map[t := [ep]], cr, 0, [ep]) && RanFrom(map[t := [ep]], cr, 1, [ep])
  }

  lemma OneStored(ep: Endpoint, t: string)
    requires ep.InTopology(t)
    ensures Listing(map[ep.name := ep], Some(t), [ep]) && AllStored(map[ep.name := ep], [ep, ep])
  {
    var c := map[ep.name := ep];
    forall x: Endpoint ensures x in [ep] <==> Stored(c, x) {
    }
  }

  lemma OnlyStored(cr: Interconnect, t: string, ep: Endpoint)
    requires OnlyCandidate(cr, t, ep) && !ep.IsAllocated(cr.ref)
    ensures BothPick(map[ep.name := ep], cr, t, ep)
  {
    OneStored(ep, t);
    RanFromOnly(cr, 0, t, ep);
    RanFromOnly(cr, 1, t, ep);
    hide Listing, AllStored, RanFrom;
  }

  lemma RanFromOnly(cr: Interconnect, e: nat, t: string, ep: Endpoint)
    requires OnlyCandidate(cr, t, ep) && !ep.IsAllocated(cr.ref) && e < 2
    ensures RanFrom(map[t := [ep]], cr, e, [ep])
  {
    hide StartsFrom, RunSide;
    PicksOnly(cr.sides[e], cr.ref, t, ep);
    StartsWithOnly(cr.sides[e], t, ep);
  }

  /** One link between two sides whose only candidate is the same endpoint: both sides
      pick it and the second status update fails, after the first has claimed it. The
      next attempt then succeeds, with a link from the endpoint to itself. */
  lemma SelfLink(cr: Interconnect, t: string, ep: Endpoint)
    requires OnlyCandidate(cr, t, ep) && ep.claimRef == None
    ensures var ep' := ep.SetRef(Some(cr.ref));
            var c, c' := map[ep.name := ep], map[ep.name := ep'];
            && BothPick(c, cr, t, ep) && !Repeatable([ep, ep], Some(cr.ref))
            && Marked(c, {ep.name}, Some(cr.ref)) == c'
            && BothPick(c', cr, t, ep') && Repeatable([ep', ep'], Some(cr.ref))
  {
    var ep' := ep.SetRef(Some(cr.ref));
    hide BothPick, Repeatable;
    OnlyStored(cr, t, ep);
    OnlyStored(cr, t, ep');
    SameTwice([ep], cr.ref);
    SameTwice([ep'], cr.ref);
    assert [ep] + [ep] == [ep, ep] && [ep'] + [ep'] == [ep', ep'];
    assert ep in [ep];
    assert Marked(map[ep.name := ep], {ep.name}, Some(cr.ref)) == map[ep.name := ep'];
  }

  lemma AlikeClaims(c: Cluster, cr: Interconnect, r: Selection, picks: seq<seq<Endpoint>>)
    requires |cr.sides| == 2 && Agrees(cr, r, picks)
    requires Finished(c, cr, 0, picks[0]) && Finished(c, cr, 1, picks[1])
    requires AllStored(c, r.endpoints)
    ensures |r.endpoints| == 2 * cr.links
    ensures picks[0] == picks[1] && Repeatable(r.endpoints, Some(cr.ref)) ==>
              && r.endpoints[..cr.links] == r.endpoints[cr.links..]
              && Names(r.endpoints) <= ClaimedBy(c, cr.ref)
  {
    hide SideSelected, Repeatable, Stored;
    var p := picks[0];
    assert r.endpoints[..cr.links] == p && r.endpoints[cr.links..] == picks[1];
    SameTwice(p, cr.ref);
    if p == picks[1] && Repeatable(r.endpoints, Some(cr.ref)) {
      forall n | n in Names(r.endpoints) ensures n in ClaimedBy(c, cr.ref) {
        var ep :| ep in r.endpoints && ep.name == n;
        StoredClaim(c, cr.ref, ep);
      }
    }
  }

  lemma StoredClaim(c: Cluster, me: Ref, ep: Endpoint)
    requires Stored(c, ep) && ep.WasAllocated(me)
    ensures ep.name in ClaimedBy(c, me)
  {
  }

  /** The selection and claim steps of populateResources. When everything succeeds
      exactly the selected endpoints reference this resource; whatever happens, no
      endpoint of another resource changes hands. */
  method PopulateResources(client: Inventory, cr: Interconnect, claimed: seq<Endpoint>, failDelete: nat, failClaim: nat)
    returns (outcome: Populated, result: Selection)
    requires Keyed(client.cluster) && |cr.sides| == 2
    requires Names(claimed) == ClaimedBy(client.cluster, cr.ref)
    requires AllStored(client.cluster, claimed) && Distinct(claimed)
    modifies client
    ensures outcome == Applied ==>
              && Complete(old(client.cluster), cr, result)
              && Claimable(old(client.cluster), cr.ref, Names(result.endpoints))
              && client.cluster == Reclaimed(old(client.cluster), cr.ref, Names(result.endpoints))
              && ClaimedBy(client.cluster, cr.ref) == Names(result.endpoints)
    ensures outcome.NotSelected? ==> outcome.reason != Done && client.cluster == old(client.cluster)
    ensures forall other | other != cr.ref :: ClaimedBy(client.cluster, other) == ClaimedBy(old(client.cluster), other)
    ensures failDelete >= |claimed| && failClaim >= 2 * cr.links && Apart(cr.sides[0], cr.sides[1]) ==>
              outcome != UpdateFailed
    ensures outcome == Applied && Alike(cr.sides[0], cr.sides[1]) ==>
              && result.endpoints[..cr.links] == result.endpoints[cr.links..]
              && Names(result.endpoints) <= ClaimedBy(old(client.cluster), cr.ref)
  {
    ghost var c := client.cluster;
    var s := new EndpointSelector(cr, client);
    var selection;
    ghost var picks;
    selection, picks := s.SelectEndpoints();
    result := s.result;
    if selection != Done {
      return NotSelected(selection), result;
    }
    SelectionComplete(c, cr, result, picks);
    SelectedClaimable(c, cr, picks);
    if Apart(cr.sides[0], cr.sides[1]) {
      SidesApart(c, cr, picks);
      DistinctRepeatable(result.endpoints, Some(cr.ref));
    }
    AlikeClaims(c, cr, result, picks);
    hide Complete, Agrees, Finished, Reclaimed, ClaimedBy, Names, Claimable, Keyed, AllStored, Repeatable, Distinct;
    var ok := ClaimSelected(client, cr.ref, claimed, result.endpoints, failDelete, failClaim);
    outcome := if ok then Applied else UpdateFailed;
  }

  /** The deletion of a resource: its claims are released. */
  lemma ReleaseIsReclaim(c: Cluster, me: Ref)
    ensures Marked(c, ClaimedBy(c, me), None) == Reclaimed(c, me, {}) && Claimable(c, me, {})
  {
    assert ClaimedBy(c, me) - {} == ClaimedBy(c, me);
  }

  /** The deletion of a resource: all its claims are dropped, as if it had been
      reconciled to select nothing. */
  method ReleaseClaims(client: Inventory, me: Ref, failAt: nat) returns (ok: bool)
    requires Keyed(client.cluster)
    modifies client`cluster
    ensures ok ==> client.cluster == Reclaimed(old(client.cluster), me, {}) && ClaimedBy(client.cluster, me) == {}
    ensures failAt >= |ClaimedBy(old(client.cluster), me)| ==> ok
    ensures forall other | other != me :: ClaimedBy(client.cluster, other) == ClaimedBy(old(client.cluster), other)
  {
    ghost var c := client.cluster;
    var claimed := client.GetClaimedEndpoints(me);
    assert AllStored(c, claimed);
    DistinctCount(claimed);
    ReleaseIsReclaim(c, me);
    ReclaimedExact(c, me, {});
    hide Marked, ClaimedBy, Names, Claimable, AllStored, Repeatable, Distinct, Keyed;
    DistinctRepeatable(claimed, None);
    ok := client.DeleteClaim(claimed, failAt);
    if !ok {
      ghost var k :| 0 <= k < |claimed| && client.cluster == Marked(c, Names(claimed[..k]), None);
      PrefixNames(claimed, k);
      PartialKeeps(c, me, Names(claimed[..k]), {});
    }
  }

  lemma {:induction false} DistinctCount(eps: seq<Endpoint>)
    requires Distinct(eps)
    ensures |Names(eps)| == |eps|
    decreases |eps|
  {
    if eps == [] {
      assert Names(eps) == {};
    } else {
      var init, last := eps[..|eps| - 1], eps[|eps| - 1];
      assert eps == init + [last];
      DistinctCount(init);
      NamesAppend(init, last);
      assert last.name !in Names(init);
    }
  }

  // ---------------------------------------------------------------------
  // Runs of several interconnects
  // ---------------------------------------------------------------------

  /** A successful reconciliation; the deletion of a resource selects nothing. */
  datatype Event = Event(ref: Ref, selected: set<Name>)

  function After(c: Cluster, events: seq<Event>): Cluster {
    if events == [] then c
    else
      var n := |events| - 1;
      Reclaimed(After(c, events[..n]), events[n].ref, events[n].selected)
  }

  ghost predicate Admissible(c: Cluster, events: seq<Event>) {
    forall k | 0 <= k < |events| :: Claimable(After(c, events[..k]), events[k].ref, events[k].selected)
  }

  lemma AdmissiblePrefix(c: Cluster, events: seq<Event>)
    requires events != [] && Admissible(c, events)
    ensures Admissible(c, events[..|events| - 1])
    ensures var n := |events| - 1; Claimable(After(c, events[..n]), events[n].ref, events[n].selected)
  {
    var init := events[..|events| - 1];
    forall k | 0 <= k < |init| ensures Claimable(After(c, init[..k]), init[k].ref, init[k].selected) {
      assert init[..k] == events[..k];
    }
  }

  /** However reconciliations interleave, the endpoints that reference a resource are
      exactly those of its own last selection. */
  lemma {:induction false} LastSelectionStands(c: Cluster, events: seq<Event>, k: nat, me: Ref)
    requires Admissible(c, events) && k < |events| && events[k].ref == me
    requires forall j | k < j < |events| :: events[j].ref != me
    ensures ClaimedBy(After(c, events), me) == events[k].selected
    decreases |events|
  {
    hide Reclaimed, ClaimedBy, Claimable, Admissible;
    var n := |events| - 1;
    AdmissiblePrefix(c, events);
    ReclaimedExact(After(c, events[..n]), events[n].ref, events[n].selected);
    if k < n {
      LastSelectionStands(c, events[..n], k, me);
    }
  }

  /** The last selections of two resources never share an endpoint. */
  lemma SelectionsDisjoint(c: Cluster, events: seq<Event>, i: nat, j: nat)
    requires Admissible(c, events) && i < |events| && j < |events| && events[i].ref != events[j].ref
    requires forall k | i < k < |events| :: events[k].ref != events[i].ref
    requires forall k | j < k < |events| :: events[k].ref != events[j].ref
    ensures events[i].selected !! events[j].selected
  {
    hide After, Admissible;
    LastSelectionStands(c, events, i, events[i].ref);
    LastSelectionStands(c, events, j, events[j].ref);
  }
}
