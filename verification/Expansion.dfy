/** What a claim adds to the table.  A network prefix that is to be created is
    expanded into its subnet and the host routes of its first, last and own
    address; every other claim becomes a single route. */
module Expansion {
  import opened Powers
  import opened Prefixes
  import opened Claims
  import opened Wrappers
  import opened RoutingTable

  function WithoutGateway(l: Labels): Labels {
    l - {GatewayKey}
  }

  /** The labels common to all routes of a claim. */
  function RouteLabels(c: IPClaim, pi: Prefix): Labels {
    c.labels[PrefixKindKey := KindValue(c.kind)]
    [AddressFamilyKey := FamilyValue(pi.family)]
    [SubnetKey := SubnetName(pi)]
  }

  function NetRoute(c: IPClaim, pi: Prefix): Route {
    Route(Masked(pi), WithoutGateway(RouteLabels(c, pi)))
  }

  function AddressRoute(c: IPClaim, pi: Prefix): Route {
    Route(AddressPrefix(pi), RouteLabels(c, pi))
  }

  function FirstRoute(c: IPClaim, pi: Prefix): Route {
    Route(FirstPrefix(pi), WithoutGateway(RouteLabels(c, pi)))
  }

  function LastRoute(c: IPClaim, pi: Prefix): Route {
    Route(LastPrefix(pi), WithoutGateway(RouteLabels(c, pi)))
  }

  /** getMutatedRoutesWithLabels. */
  function Expand(c: IPClaim, pi: Prefix): (rs: seq<Route>) {
    if c.kind.Network? && c.createPrefix.Some? then
      if pi.len == Width(pi.family) - 1 then [NetRoute(c, pi)]
      else if IsNorLastNorFirst(pi) then
        [NetRoute(c, pi), AddressRoute(c, pi), FirstRoute(c, pi), LastRoute(c, pi)]
      else if IsFirst(pi) then
        [NetRoute(c, pi), AddressRoute(c, pi), LastRoute(c, pi)]
      else
        [NetRoute(c, pi), AddressRoute(c, pi), FirstRoute(c, pi)]
    else if c.kind.Network? then
      [Route(AddressPrefix(pi), RouteLabels(c, pi))]
    else
      [Route(pi, RouteLabels(c, pi))]
  }

  ghost function PrefixesOf(rs: seq<Route>): set<Prefix> {
    set r | r in rs :: r.prefix
  }

  ghost predicate DistinctPrefixes(rs: seq<Route>) {
    forall i, j | 0 <= i < j < |rs| :: rs[i].prefix != rs[j].prefix
  }

  /** A subnet with more than two addresses has distinct first and last ones. */
  lemma WideSubnet(pi: Prefix)
    requires pi.len < Width(pi.family) - 1
    ensures First(pi) + 3 <= Last(pi)
  {
    var k := HostBits(pi);
    assert Pow2(k) == 2 * Pow2(k - 1) && Pow2(k - 1) == 2 * Pow2(k - 2);
  }

  /** Expanding a network prefix longer than two addresses: the routes are
      pairwise distinct, they are the subnet with its first, last and own
      address, these are the prefixes the subnet map accepts, and only the own
      address may carry the gateway label. */
  lemma NetworkExpansion(c: IPClaim, pi: Prefix)
    requires c.kind.Network? && c.createPrefix.Some?
    requires pi.len < Width(pi.family) - 1
    ensures var rs := Expand(c, pi);
            && DistinctPrefixes(rs)
            && PrefixesOf(rs) == {Masked(pi), FirstPrefix(pi), LastPrefix(pi), AddressPrefix(pi)}
            && (forall q: Prefix :: q in PrefixesOf(rs) <==> IsPresentInSubnetMap(pi, q))
            && (forall r | r in rs && GatewayKey in r.labels :: r.prefix == AddressPrefix(pi))
  {
    WideSubnet(pi);
    var rs := Expand(c, pi);
    assert rs[0] in rs && rs[1] in rs && rs[2] in rs && (|rs| == 4 ==> rs[3] in rs);
    hide First, Last, RouteLabels;
    var four := {Masked(pi), FirstPrefix(pi), LastPrefix(pi), AddressPrefix(pi)};
    assert four <= PrefixesOf(rs);
    forall r | r in rs ensures r.prefix in four {
      assert r == rs[0] || r == rs[1] || r == rs[2] || (|rs| == 4 && r == rs[3]);
    }
  }

  /** A two-address subnet (section 2 of RFC 3021, section 6 of RFC 6164) is a
      single route and carries no gateway label. */
  lemma PointToPointExpansion(c: IPClaim, pi: Prefix)
    requires c.kind.Network? && c.createPrefix.Some?
    requires pi.len == Width(pi.family) - 1
    ensures PrefixesOf(Expand(c, pi)) == {Masked(pi)}
    ensures forall r | r in Expand(c, pi) :: GatewayKey !in r.labels
  {
    assert Expand(c, pi) == [NetRoute(c, pi)];
  }

  /** Labels other than the five owner labels do not change who owns a route. */
  lemma OwnsWith(c: IPClaim, l: Labels, k: LabelKey, v: LabelValue)
    requires c.Owns(l) && k !in c.OwnerSelector()
    ensures c.Owns(l[k := v])
  {
  }

  lemma OwnsWithoutGateway(c: IPClaim, l: Labels)
    requires c.Owns(l)
    ensures c.Owns(WithoutGateway(l))
  {
  }

  lemma OwnIsNotForeign(c: IPClaim, l: Labels)
    requires c.Named() && c.Owns(l)
    ensures !c.Foreign(l)
    ensures Lookup(l, NsnName) == Lookup(c.labels, NsnName)
    ensures Lookup(l, NsnNamespace) == Lookup(c.labels, NsnNamespace)
    ensures Lookup(l, OwnerGvk) == Lookup(c.labels, OwnerGvk)
  {
    var sel := c.OwnerSelector();
    assert NsnName in sel && NsnNamespace in sel && OwnerGvk in sel;
  }

  /** Routes of a claim carry its kind and belong to it. */
  lemma RouteLabelsOwned(c: IPClaim, pi: Prefix, l: Labels)
    requires c.Named()
    requires l == RouteLabels(c, pi) || l == WithoutGateway(RouteLabels(c, pi))
    ensures HasKind(l, c.kind) && c.Owns(l) && !c.Foreign(l)
  {
    var l1 := c.labels[PrefixKindKey := KindValue(c.kind)];
    var l2 := l1[AddressFamilyKey := FamilyValue(pi.family)];
    OwnsWith(c, c.labels, PrefixKindKey, KindValue(c.kind));
    OwnsWith(c, l1, AddressFamilyKey, FamilyValue(pi.family));
    OwnsWith(c, l2, SubnetKey, SubnetName(pi));
    OwnsWithoutGateway(c, RouteLabels(c, pi));
    OwnIsNotForeign(c, l);
  }

  /** Every route of a claim lies in the claim's subnet and is stored masked. */
  lemma ExpansionLies(c: IPClaim, pi: Prefix, r: Route)
    requires r in Expand(c, pi)
    requires c.kind.Network? || IsMasked(pi)
    ensures IsMasked(r.prefix) && Covers(pi, r.prefix)
    ensures r.prefix == Masked(pi) || IsAddressPrefix(r.prefix)
    ensures r.labels == RouteLabels(c, pi) || r.labels == WithoutGateway(RouteLabels(c, pi))
  {
    var rs := Expand(c, pi);
    var i :| 0 <= i < |rs| && rs[i] == r;
    assert || r.prefix in [Masked(pi), FirstPrefix(pi), LastPrefix(pi), AddressPrefix(pi)]
           || (r.prefix == pi && IsMasked(pi));
    FirstClearsHostBits(pi);
    if r.prefix == Masked(pi) {
      MaskedCovers(pi);
    } else if r.prefix != pi {
      HostCovered(pi, r.prefix.addr);
      HostFacts(pi.family, r.prefix.addr);
    }
  }

  /** The expansion holds the subnet itself whenever the prefix is created. */
  lemma ExpansionHasSubnet(c: IPClaim, pi: Prefix)
    requires c.createPrefix.Some?
    requires c.kind.Network? || IsMasked(pi)
    ensures Masked(pi) in PrefixesOf(Expand(c, pi))
  {
    var rs := Expand(c, pi);
    assert rs[0] in rs && rs[0].prefix == Masked(pi);
  }

  // ---------------------------------------------------------------------
  // Adding the expansion
  // ---------------------------------------------------------------------

  /** addRib: a route whose prefix is taken is left as it is. */
  function AddRoutes(t: Table, rs: seq<Route>): (t': Table)
    decreases |rs|
  {
    if rs == [] then t
    else
      var before := AddRoutes(t, rs[..|rs| - 1]);
      var r := rs[|rs| - 1];
      if r.prefix in before then before else before[r.prefix := r.labels]
  }

  /** Existing routes survive with their labels, every listed prefix is present
      afterwards, and what is new carries the labels of a listed route. */
  lemma {:induction false} AddRoutesFrame(t: Table, rs: seq<Route>)
    ensures var t' := AddRoutes(t, rs);
            && t'.Keys == t.Keys + PrefixesOf(rs)
            && (forall p | p in t :: p in t' && t'[p] == t[p])
            && (forall p | p in t' && p !in t :: Route(p, t'[p]) in rs)
    decreases |rs|
  {
    if rs == [] {
      assert PrefixesOf(rs) == {};
    } else {
      var init, r := rs[..|rs| - 1], rs[|rs| - 1];
      AddRoutesFrame(t, init);
      assert rs == init + [r];
      assert PrefixesOf(rs) == PrefixesOf(init) + {r.prefix};
    }
  }
}
