/** Repeating a claim that was just made: when it changes nothing, and what the
    repetition of a pool does to the routes inside it. */
module Reclaims {
  import opened Powers
  import opened Bits
  import opened Prefixes
  import opened Claims
  import opened Wrappers
  import opened RoutingTable
  import opened Expansion
  import opened Validation
  import opened Updates
  import opened Hierarchy
  import opened Idempotence
  import opened Runs

  // ---------------------------------------------------------------------
  // An update that changes nothing
  // ---------------------------------------------------------------------

  /** An update leaves the table as it is if and only if every route of the claim
      carries its updated labels already; then it reports nothing either. */
  lemma UnchangedIff(t: Table, c: IPClaim, m: Mode, pi: Option<Prefix>, rs: seq<Route>)
    requires Legal(t) && Compatible(t, c) && c.Named() && Enumerates(rs, t, OwnKeys(t, c))
    ensures var st := UpdateAll(State(t, pi, []), c, m, rs);
            && (st.table == t <==> forall q | q in OwnKeys(t, c) :: t[q] == UpdatedLabels(t, c, q, m.nearestFirst))
            && (st.table == t ==> st.reports == [])
  {
    hide UpdatedLabels, Legal, Compatible, UpdateAll;
    UpdateAllSettles(t, c, m, pi, rs);
    EnumeratesPrefixes(rs, t, OwnKeys(t, c));
    if forall q | q in OwnKeys(t, c) :: t[q] == UpdatedLabels(t, c, q, m.nearestFirst) {
      SettledWalk(State(t, pi, []), c, m, rs);
    }
  }

  // ---------------------------------------------------------------------
  // The table after a new claim
  // ---------------------------------------------------------------------

  /** A claim that finds neither its prefix nor a route of its own. */
  ghost predicate NewClaim(t: Table, c: IPClaim, pi: Prefix) {
    && Legal(t) && c.createPrefix.Some? && c.Named() && Compatible(t, c) && OwnKeys(t, c) == {}
    && Masked(pi) !in t && Accepts(t, c, pi)
  }

  function With(t: Table, c: IPClaim, pi: Prefix): Table {
    AddRoutes(t, Expand(c, pi))
  }

  lemma ExpansionDistinct(c: IPClaim, pi: Prefix)
    requires c.createPrefix.Some? && ValidateInput(c, Some(pi)).Accepted?
    ensures DistinctPrefixes(Expand(c, pi))
  {
    if c.kind.Network? && pi.len < Width(pi.family) - 1 {
      NetworkExpansion(c, pi);
    }
  }

  lemma ExpansionNew(t: Table, c: IPClaim, pi: Prefix, r: Route)
    requires NewClaim(t, c, pi) && r in Expand(c, pi)
    ensures r.prefix !in t
  {
    NewRoute(c, pi, r);
    if r.prefix != Masked(pi) {
      NothingBelow(t, c, pi);
      assert r.prefix in t ==> r.prefix in ChildKeys(t, Masked(pi));
    }
  }

  lemma SameRoute(rs: seq<Route>, r: Route, d: Route)
    requires DistinctPrefixes(rs) && r in rs && d in rs
    ensures r.prefix == d.prefix <==> r == d
  {
  }

  /** After a new claim the routes of the claim are its expansion. */
  lemma WithOwn(t: Table, c: IPClaim, pi: Prefix)
    requires NewClaim(t, c, pi)
    ensures var t' := With(t, c, pi);
            && Legal(t') && Compatible(t', c)
            && OwnKeys(t', c) == PrefixesOf(Expand(c, pi))
            && (forall r | r in Expand(c, pi) :: r.prefix in t' && t'[r.prefix] == r.labels)
            && (forall q | q in t' && q !in t :: q in PrefixesOf(Expand(c, pi)))
            && (forall q | q in t :: q in t' && t'[q] == t[q])
  {
    var rs := Expand(c, pi);
    var t' := With(t, c, pi);
    InsertKeepsLegal(t, c, pi);
    ExpansionDistinct(c, pi);
    forall r | r in rs ensures r.prefix !in t && HasKind(r.labels, c.kind) && c.Owns(r.labels) {
      ExpansionNew(t, c, pi, r);
      NewRoute(c, pi, r);
    }
    hide Expand, Legal, Accepts;
    AddRoutesFrame(t, rs);
    forall r | r in rs ensures t'[r.prefix] == r.labels {
      SameRoute(rs, r, Route(r.prefix, t'[r.prefix]));
    }
    forall q ensures q in OwnKeys(t', c) <==> q in PrefixesOf(rs) {
      assert q in t ==> q !in OwnKeys(t, c);
    }
  }

  // ---------------------------------------------------------------------
  // The parents of a host route
  // ---------------------------------------------------------------------

  /** Above a new host route there are the subnet and the parents of the subnet. */
  lemma HostParents(t: Table, c: IPClaim, pi: Prefix, p: Prefix)
    requires NewClaim(t, c, pi) && c.kind.Network? && IsAddressPrefix(p) && Inside(p, Masked(pi))
    ensures ParentKeys(With(t, c, pi), p) == ParentKeys(t, Masked(pi)) + {Masked(pi)}
  {
    var s, t' := Masked(pi), With(t, c, pi);
    WithOwn(t, c, pi);
    ExpansionHasSubnet(c, pi);
    hide With, Expand, Legal, Compatible, Covers;
    forall d ensures d in ParentKeys(t', p) <==> d in ParentKeys(t, s) || d == s {
      if d in ParentKeys(t, s) {
        CoversTransitive(d, s, p);
      }
      if d in ParentKeys(t', p) && d in t {
        NewRouteAbove(t, c, pi, d, p);
      } else if d in ParentKeys(t', p) {
        var r :| r in Expand(c, pi) && r.prefix == d;
        NewRoute(c, pi, r);
      }
    }
  }

  lemma {:induction false} ListingEnds(t: Table, keys: set<Prefix>, s: Prefix)
    requires keys <= t.Keys && s in keys && forall d | d in keys && d != s :: Before(d, s)
    ensures var rs := Listing(t, keys);
            && rs != [] && rs[|rs| - 1].prefix == s
            && (keys != {s} ==> rs[0].prefix != s)
    decreases |keys|
  {
    var p := Least(keys);
    if keys != {s} {
      assert exists d :: d in keys && d != s by {
        assert keys - {s} != {};
        var d :| d in keys - {s};
      }
      assert p != s;
      ListingEnds(t, keys - {p}, s);
    }
  }

  /** The parent a host route is presented with: the subnet, or one above it when
      the table lists parents from the top and there is one. */
  lemma FirstListed(t: Table, c: IPClaim, pi: Prefix, p: Prefix, nearestFirst: bool)
    requires NewClaim(t, c, pi) && c.kind.Network? && IsAddressPrefix(p) && Inside(p, Masked(pi))
    ensures var ps := ParentList(With(t, c, pi), p, nearestFirst);
            && ps != [] && ps[0].prefix.len <= pi.len
            && (ps[0].prefix.len == pi.len <==> nearestFirst || ParentKeys(t, Masked(pi)) == {})
  {
    var s, t' := Masked(pi), With(t, c, pi);
    HostParents(t, c, pi, p);
    var keys := ParentKeys(t', p);
    forall d | d in keys && d != s ensures Before(d, s) && d.len < s.len {
      assert d in ParentKeys(t, s) && IsMasked(d);
      AncestorFirst(d, s);
    }
    assert s !in ParentKeys(t, s) && keys == ParentKeys(t, s) + {s};
    assert keys == {s} <==> ParentKeys(t, s) == {};
    FirstOfListing(t', keys, s);
    hide NewClaim, With, Before, Covers, Inside, Listing;
  }

  lemma FirstOfListing(t: Table, keys: set<Prefix>, s: Prefix)
    requires keys <= t.Keys && s in keys && forall d | d in keys && d != s :: Before(d, s) && d.len < s.len
    ensures var up := Listing(t, keys);
            && up != [] && up[0].prefix.len <= s.len && (up[0].prefix.len == s.len <==> keys == {s})
            && Reversed(up)[0].prefix == s
  {
    hide Before, Listing;
    ListingEnds(t, keys, s);
    ListingEnumerates(t, keys);
    var up := Listing(t, keys);
    assert up[0] in up;
    assert keys == {s} ==> up[0].prefix == s;
  }

  // ---------------------------------------------------------------------
  // When a repetition changes nothing
  // ---------------------------------------------------------------------

  /** What the caller can see beforehand: a pool says so in its labels already; a
      network of more than two addresses is presented with its own subnet, and does
      not put the gateway label on its first or last address. */
  ghost predicate Harmless(t: Table, c: IPClaim, pi: Prefix, nearestFirst: bool) {
    match c.kind
    case Pool => PoolKey in c.labels && c.labels[PoolKey] == Text("true")
    case Network =>
      pi.len == Width(pi.family) - 1 ||
      ((nearestFirst || ParentKeys(t, Masked(pi)) == {}) && (IsNorLastNorFirst(pi) || GatewayKey !in c.labels))
    case _ => true
  }

  /** The subnet route of a network never changes. */
  lemma NetSettled(t: Table, c: IPClaim, pi: Prefix, nearestFirst: bool)
    requires c.kind.Network? && !IsAddressPrefix(pi)
    ensures NetRoute(c, pi).labels == UpdatedLabels(t, c, Masked(pi), nearestFirst)
  {
    MaskedCovers(pi);
    assert SubnetName(Masked(pi)) == SubnetName(pi);
  }

  /** The labels of a host route presented with `info`. */
  lemma HostLabels(c: IPClaim, pi: Prefix, p: Prefix, info: Prefix)
    requires p.family == pi.family == info.family
    ensures RouteLabels(c, p)[SubnetKey := SubnetName(info)] == RouteLabels(c, pi) <==>
            SubnetName(info) == SubnetName(pi)
    ensures SubnetName(info) != SubnetName(pi) ==>
              && RouteLabels(c, p)[SubnetKey := SubnetName(info)] != WithoutGateway(RouteLabels(c, pi))
              && WithoutGateway(RouteLabels(c, p))[SubnetKey := SubnetName(info)] != RouteLabels(c, pi)
    ensures WithoutGateway(RouteLabels(c, p))[SubnetKey := SubnetName(info)] == WithoutGateway(RouteLabels(c, pi)) <==>
            SubnetName(info) == SubnetName(pi)
    ensures SubnetName(info) == SubnetName(pi) ==>
              (WithoutGateway(RouteLabels(c, p))[SubnetKey := SubnetName(info)] == RouteLabels(c, pi) <==>
               GatewayKey !in c.labels)
  {
    var l, k := RouteLabels(c, p), RouteLabels(c, pi);
    var x := SubnetName(info);
    assert l[SubnetKey := x][SubnetKey] == x && k[SubnetKey] == SubnetName(pi);
    assert WithoutGateway(l)[SubnetKey := x][SubnetKey] == x && WithoutGateway(k)[SubnetKey] == SubnetName(pi);
    assert GatewayKey in k <==> GatewayKey in c.labels;
    if GatewayKey !in c.labels {
      assert WithoutGateway(l) == l && WithoutGateway(k) == k;
    } else {
      assert GatewayKey !in WithoutGateway(l)[SubnetKey := x];
    }
  }

  /** Host routes of a network other than the own address are the first and last. */
  lemma HostShape(c: IPClaim, pi: Prefix, r: Route)
    requires c.kind.Network? && c.createPrefix.Some? && pi.len < Width(pi.family) - 1
    requires r in Expand(c, pi) && IsAddressPrefix(r.prefix)
    ensures r.prefix.family == pi.family && Covers(pi, r.prefix) && Inside(r.prefix, Masked(pi))
    ensures if r.prefix == AddressPrefix(pi) then r == AddressRoute(c, pi)
            else r == FirstRoute(c, pi) || r == LastRoute(c, pi)
  {
    ExpansionLies(c, pi, r);
    MaskedCovers(pi);
    CoversTransitive(Masked(pi), pi, r.prefix);
    NetworkExpansion(c, pi);
    var rs := Expand(c, pi);
    assert AddressRoute(c, pi) == rs[1];
    SameRoute(rs, r, rs[1]);
    assert r in [NetRoute(c, pi), AddressRoute(c, pi), FirstRoute(c, pi), LastRoute(c, pi)];
  }

  /** Hosts of a subnet, presented with the length of the subnet, name the subnet
      and its bounds. */
  lemma SameSubnet(pi: Prefix, p: Prefix)
    requires Covers(pi, p)
    ensures var info := Prefix(p.family, p.addr, pi.len);
            First(info) == First(pi) && Last(info) == Last(pi) && SubnetName(info) == SubnetName(pi)
  {
  }

  /** The labels an update gives a host route that is presented with `info`. */
  function HostUpdated(c: IPClaim, p: Prefix, info: Prefix): Labels {
    var l := RouteLabels(c, p);
    var edge := p == FirstPrefix(info) || p == LastPrefix(info);
    (if edge then WithoutGateway(l) else l)[SubnetKey := SubnetName(info)]
  }

  lemma HostLabelsSettled(c: IPClaim, pi: Prefix, r: Route, info: Prefix)
    requires c.kind.Network? && c.createPrefix.Some? && pi.len < Width(pi.family) - 1
    requires r in Expand(c, pi) && IsAddressPrefix(r.prefix)
    requires info.family == r.prefix.family && info.addr == r.prefix.addr
    ensures r.labels == HostUpdated(c, r.prefix, info) <==>
            && info.len == pi.len
            && (r.prefix == AddressPrefix(pi) ==> IsNorLastNorFirst(pi) || GatewayKey !in c.labels)
  {
    hide Expand, Covers, Inside, RouteLabels, WithoutGateway, First, Last;
    HostShape(c, pi, r);
    SameSubnet(pi, r.prefix);
    HostLabels(c, pi, r.prefix, info);
  }

  /** Which host routes an update leaves alone. */
  lemma HostSettled(t: Table, c: IPClaim, pi: Prefix, r: Route, nearestFirst: bool)
    requires NewClaim(t, c, pi) && c.kind.Network? && pi.len < Width(pi.family) - 1
    requires r in Expand(c, pi) && IsAddressPrefix(r.prefix)
    ensures r.labels == UpdatedLabels(With(t, c, pi), c, r.prefix, nearestFirst) <==>
            && (nearestFirst || ParentKeys(t, Masked(pi)) == {})
            && (r.prefix == AddressPrefix(pi) ==> IsNorLastNorFirst(pi) || GatewayKey !in c.labels)
  {
    assert c.createPrefix.Some?;
    hide NewClaim, With, Expand, Covers, Inside, ParentList, IsNorLastNorFirst, HostUpdated, UpdatedLabels, ParentInfo;
    HostShape(c, pi, r);
    FirstListed(t, c, pi, r.prefix, nearestFirst);
    HostUpdatedLabels(With(t, c, pi), c, r.prefix, nearestFirst);
    HostLabelsSettled(c, pi, r, ParentInfo(With(t, c, pi), c, r.prefix, nearestFirst).value);
  }

  lemma HostUpdatedLabels(t: Table, c: IPClaim, p: Prefix, nearestFirst: bool)
    requires c.kind.Network? && IsAddressPrefix(p) && ParentList(t, p, nearestFirst) != []
    ensures var info := ParentInfo(t, c, p, nearestFirst);
            && info.Some? && info.value.family == p.family && info.value.addr == p.addr
            && info.value.len == ParentList(t, p, nearestFirst)[0].prefix.len
            && UpdatedLabels(t, c, p, nearestFirst) == HostUpdated(c, p, info.value)
  {
    hide ParentList, RouteLabels, WithoutGateway, First, Last;
  }

  lemma NewClaimShape(t: Table, c: IPClaim, pi: Prefix)
    requires NewClaim(t, c, pi)
    ensures !IsAddressPrefix(pi) && (!c.kind.Network? ==> Expand(c, pi) == [Route(pi, RouteLabels(c, pi))])
    ensures c.kind.Network? ==> NetRoute(c, pi) in Expand(c, pi)
  {
    if c.kind.Network? {
      assert Expand(c, pi)[0] == NetRoute(c, pi);
    }
  }

  /** The routes of a new claim carry their updated labels exactly when repeating
      the claim is harmless. */
  lemma SettledIff(t: Table, c: IPClaim, pi: Prefix, nearestFirst: bool)
    requires NewClaim(t, c, pi)
    ensures (forall r | r in Expand(c, pi) :: r.labels == UpdatedLabels(With(t, c, pi), c, r.prefix, nearestFirst)) <==>
            Harmless(t, c, pi, nearestFirst)
  {
    var rs, t' := Expand(c, pi), With(t, c, pi);
    NewClaimShape(t, c, pi);
    if !c.kind.Network? {
      var l := RouteLabels(c, pi);
      SameWith(l, PoolKey, Text("true"));
      assert PoolKey in l <==> PoolKey in c.labels;
      hide NewClaim, With;
      assert forall r :: r in rs <==> r == Route(pi, l);
    } else {
      NetworkSettledIff(t, c, pi, nearestFirst);
    }
  }

  lemma SameWith(l: Labels, k: LabelKey, v: LabelValue)
    ensures l[k := v] == l <==> k in l && l[k] == v
  {
    assert l[k := v][k] == v;
  }

  lemma NetworkSettledIff(t: Table, c: IPClaim, pi: Prefix, nearestFirst: bool)
    requires NewClaim(t, c, pi) && c.kind.Network?
    ensures (forall r | r in Expand(c, pi) :: r.labels == UpdatedLabels(With(t, c, pi), c, r.prefix, nearestFirst)) <==>
            Harmless(t, c, pi, nearestFirst)
  {
    var rs, t' := Expand(c, pi), With(t, c, pi);
    NewClaimShape(t, c, pi);
    NetSettled(t', c, pi, nearestFirst);
    NetworkRoutes(c, pi);
    hide UpdatedLabels, NewClaim, With, Expand, RouteLabels, WithoutGateway;
    if pi.len < Width(pi.family) - 1 {
      HostSettled(t, c, pi, AddressRoute(c, pi), nearestFirst);
      forall r | r in rs && r != NetRoute(c, pi) && Harmless(t, c, pi, nearestFirst)
        ensures r.labels == UpdatedLabels(t', c, r.prefix, nearestFirst)
      {
        HostSettled(t, c, pi, r, nearestFirst);
      }
    }
  }

  lemma NetworkRoutes(c: IPClaim, pi: Prefix)
    requires c.kind.Network? && c.createPrefix.Some?
    ensures forall r | r in Expand(c, pi) :: r == NetRoute(c, pi) || IsAddressPrefix(r.prefix)
    ensures pi.len == Width(pi.family) - 1 ==> forall r | r in Expand(c, pi) :: r == NetRoute(c, pi)
    ensures pi.len != Width(pi.family) - 1 ==> AddressRoute(c, pi) in Expand(c, pi)
  {
    if pi.len != Width(pi.family) - 1 {
      assert AddressRoute(c, pi) == Expand(c, pi)[1];
    }
  }

  /** Repeating a claim that was just made changes nothing if and only if it is
      harmless; then nothing is reported. */
  lemma FirstReclaimIff(t: Table, c: IPClaim, pi: Prefix, m: Mode, rs: seq<Route>)
    requires NewClaim(t, c, pi)
    requires var t' := With(t, c, pi); Enumerates(rs, t', OwnKeys(t', c))
    ensures var t' := With(t, c, pi);
            var st := UpdateAll(State(t', Some(pi), []), c, m, rs);
            && (st.table == t' <==> Harmless(t, c, pi, m.nearestFirst))
            && (Harmless(t, c, pi, m.nearestFirst) ==> st.reports == [])
  {
    hide UpdatedLabels, Harmless, Expand, Legal, Compatible, UpdateAll;
    var t' := With(t, c, pi);
    WithOwn(t, c, pi);
    UnchangedIff(t', c, m, Some(pi), rs);
    SettledIff(t, c, pi, m.nearestFirst);
    if forall q | q in OwnKeys(t', c) :: t'[q] == UpdatedLabels(t', c, q, m.nearestFirst) {
      forall r | r in Expand(c, pi) ensures r.labels == UpdatedLabels(t', c, r.prefix, m.nearestFirst) {
        assert r.prefix in OwnKeys(t', c);
      }
    }
    if forall r | r in Expand(c, pi) :: r.labels == UpdatedLabels(t', c, r.prefix, m.nearestFirst) {
      forall q | q in OwnKeys(t', c) ensures t'[q] == UpdatedLabels(t', c, q, m.nearestFirst) {
        var r :| r in Expand(c, pi) && r.prefix == q;
      }
    }
  }

  // ---------------------------------------------------------------------
  // Claims in between
  // ---------------------------------------------------------------------

  /** Listed from the top, the first parent is no longer than any other. */
  lemma TopFirst(t: Table, p: Prefix, g: Prefix)
    requires WellFormed(t) && g in ParentKeys(t, p)
    ensures var ps := ParentList(t, p, false); ps != [] && ps[0].prefix.len <= g.len
  {
    var f := Least(ParentKeys(t, p));
    AncestorsComparable(f, g, p);
    if g.len < f.len {
      AncestorFirst(g, f);
    }
  }

  /** A host route that carries the name of its subnet and has a shorter parent gets
      other labels when parents are listed from the top. */
  lemma HostRelabelled(t: Table, c: IPClaim, pi: Prefix, p: Prefix, g: Prefix)
    requires WellFormed(t) && c.kind.Network? && IsAddressPrefix(p) && p in t
    requires SubnetKey in t[p] && t[p][SubnetKey] == SubnetName(pi)
    requires g in ParentKeys(t, p) && g.len < pi.len
    ensures UpdatedLabels(t, c, p, false) != t[p]
  {
    TopFirst(t, p, g);
    hide ParentList, RouteLabels, WithoutGateway, First, Last, Inside;
    HostUpdatedLabels(t, c, p, false);
  }

  /** Repeating a network claim after an aggregate was claimed above it changes its host
      routes when parents are listed from the top, even where repeating it at once would
      have been harmless. */
  lemma AggregateAbove(t: Table, c: IPClaim, pi: Prefix, a: IPClaim, pa: Prefix, m: Mode, rs: seq<Route>)
    requires NewClaim(t, c, pi) && c.kind.Network? && pi.len < Width(pi.family) - 1
    requires NewClaim(With(t, c, pi), a, pa) && Compatible(With(With(t, c, pi), a, pa), c)
    requires Inside(Masked(pi), Masked(pa)) && !m.nearestFirst
    requires var t' := With(With(t, c, pi), a, pa); Enumerates(rs, t', OwnKeys(t', c))
    ensures var t' := With(With(t, c, pi), a, pa);
            UpdateAll(State(t', Some(pi), []), c, m, rs).table != t'
  {
    var t1 := With(t, c, pi);
    var t', r, g := With(t1, a, pa), AddressRoute(c, pi), Masked(pa);
    WithOwn(t, c, pi);
    WithOwn(t1, a, pa);
    NetworkRoutes(c, pi);
    ExpansionLies(c, pi, r);
    MaskedCovers(pi);
    CoversTransitive(Masked(pi), pi, r.prefix);
    CoversTransitive(g, Masked(pi), r.prefix);
    ExpansionHasSubnet(a, pa);
    NewRoute(c, pi, r);
    hide With, Expand, Legal, Compatible, UpdateAll, UpdatedLabels, Covers, NewClaim, First, Last;
    assert g in ParentKeys(t', r.prefix);
    HostRelabelled(t', c, pi, r.prefix, g);
    UnchangedIff(t', c, m, Some(pi), rs);
    assert r.prefix in OwnKeys(t', c);
  }

  // ---------------------------------------------------------------------
  // A repetition that is not harmless
  // ---------------------------------------------------------------------

  /** An aggregate of a network instance, a pool in it that does not say so in its
      labels, and a pool of somebody else in that one. */
  predicate NestedPools(a: IPClaim, c: IPClaim, d: IPClaim) {
    && a.prefix.Some? && c.prefix.Some? && d.prefix.Some?
    && Admissible(a) && Admissible(c) && Admissible(d)
    && ValidateInput(a, a.prefix).Accepted? && ValidateInput(c, c.prefix).Accepted?
    && ValidateInput(d, d.prefix).Accepted?
    && a.kind.Aggregate? && InstanceOwned(a.labels) && c.kind.Pool? && d.kind.Pool?
    && !SameName(a.labels, c.labels) && !SameName(d.labels, c.labels) && !SameName(a.labels, d.labels)
    && Inside(c.prefix.value, a.prefix.value) && Inside(d.prefix.value, c.prefix.value)
    && Lookup(c.labels, PoolKey) != Text("true")
  }

  lemma NestedCoherent(a: IPClaim, c: IPClaim, d: IPClaim)
    requires NestedPools(a, c, d)
    ensures Coherent({a, c, d})
  {
    hide Admissible, ValidateInput, Inside, InstanceOwned;
  }

  lemma SingleRoute(t: Table, c: IPClaim)
    requires Admissible(c) && !c.kind.Network? && ValidateInput(c, c.prefix).Accepted? && c.prefix.value !in t
    ensures IsMasked(c.prefix.value) && TargetKey(c, c.prefix.value) == Masked(c.prefix.value) == c.prefix.value
    ensures AddRoutes(t, Expand(c, c.prefix.value)) == t[c.prefix.value := RouteLabels(c, c.prefix.value)]
    ensures var l := RouteLabels(c, c.prefix.value); HasKind(l, c.kind) && c.Owns(l) && !c.Foreign(l)
  {
    var pi := c.prefix.value;
    var r := Route(pi, RouteLabels(c, pi));
    assert Expand(c, pi) == [r] && [r][..0] == [];
    assert AddRoutes(t, [r][..0]) == t;
    RouteLabelsOwned(c, pi, r.labels);
  }

  /** A claim is accepted below `p` when nothing is below it and `p` is the nearest
      of its parents. */
  lemma AcceptedBelow(t: Table, c: IPClaim, p: Prefix)
    requires Admissible(c) && c.kind.Pool? && ValidateInput(c, c.prefix).Accepted?
    requires WellFormed(t) && p in t && (HasKind(t[p], Aggregate) || HasKind(t[p], Pool))
    requires var s := c.prefix.value; s !in t && Inside(s, p) && forall q | q in t :: Covers(q, p) && q.len <= p.len
    ensures Accepts(t, c, c.prefix.value)
  {
    var s := c.prefix.value;
    assert p in ParentKeys(t, s);
    forall q | q in t ensures !Inside(q, s) {
    }
    assert ChildKeys(t, s) == {};
    forall q | NearestParent(t, s, q) ensures ValidateParentExist(t[q], c, s).Accepted? {
      assert NearestParent(t, s, p);
      NearestParentUnique(t, s, p, q);
    }
  }

  lemma ForeignUnless(c: IPClaim, d: IPClaim, l: Labels)
    requires c.Named() && d.Named() && d.Owns(l) && !SameName(d.labels, c.labels)
    ensures c.Foreign(l) && !c.Owns(l)
  {
    OwnIsNotForeign(d, l);
    if c.Owns(l) {
      OwnIsNotForeign(c, l);
    }
  }

  function AfterOne(a: IPClaim): Table
    requires a.prefix.Some?
  {
    map[a.prefix.value := RouteLabels(a, a.prefix.value)]
  }

  function AfterTwo(a: IPClaim, c: IPClaim): Table
    requires a.prefix.Some? && c.prefix.Some?
  {
    AfterOne(a)[c.prefix.value := RouteLabels(c, c.prefix.value)]
  }

  function AfterThree(a: IPClaim, c: IPClaim, d: IPClaim): Table
    requires a.prefix.Some? && c.prefix.Some? && d.prefix.Some?
  {
    AfterTwo(a, c)[d.prefix.value := RouteLabels(d, d.prefix.value)]
  }

  function AfterFour(a: IPClaim, c: IPClaim): Table
    requires a.prefix.Some? && c.prefix.Some?
  {
    AfterOne(a)[c.prefix.value := RouteLabels(c, c.prefix.value)[PoolKey := Text("true")]]
  }

  lemma FirstStep(a: IPClaim, c: IPClaim, d: IPClaim, m: Mode)
    requires NestedPools(a, c, d) && !m.initializing
    ensures Step(map[], Claim(a), m, AfterOne(a))
  {
    hide Admissible, Expand, ValidateInput, RouteLabels, Inside;
    var none: Table := map[];
    SingleRoute(none, a);
    EmptyTableAccepts(a, a.prefix.value);
  }

  /** A pool that is claimed below `p`. */
  lemma JoinsBelow(t: Table, c: IPClaim, p: Prefix, m: Mode)
    requires Admissible(c) && c.kind.Pool? && ValidateInput(c, c.prefix).Accepted?
    requires WellFormed(t) && p in t && (HasKind(t[p], Aggregate) || HasKind(t[p], Pool))
    requires var s := c.prefix.value; s !in t && Inside(s, p) && forall q | q in t :: Covers(q, p) && q.len <= p.len
    ensures Step(t, Claim(c), m, t[c.prefix.value := RouteLabels(c, c.prefix.value)])
  {
    hide Expand, ValidateInput, RouteLabels, Accepts, Covers, Inside;
    SingleRoute(t, c);
    AcceptedBelow(t, c, p);
  }

  lemma SecondStep(a: IPClaim, c: IPClaim, d: IPClaim, m: Mode)
    requires NestedPools(a, c, d) && !m.initializing
    ensures Step(AfterOne(a), Claim(c), m, AfterTwo(a, c))
  {
    hide Admissible, Expand, ValidateInput, RouteLabels, Inside, Covers, Step, SameName, Lookup, HasKind;
    var none: Table := map[];
    SingleRoute(none, a);
    InsideCovers(c.prefix.value, a.prefix.value);
    SelfCovers(a.prefix.value);
    JoinsBelow(AfterOne(a), c, a.prefix.value, m);
  }

  lemma JoinsBelowTwo(pa: Prefix, la: Labels, pc: Prefix, lc: Labels, d: IPClaim, m: Mode)
    requires IsMasked(pa) && IsMasked(pc) && Covers(pa, pc) && pa.len < pc.len && HasKind(lc, Pool)
    requires Admissible(d) && d.kind.Pool? && ValidateInput(d, d.prefix).Accepted? && Inside(d.prefix.value, pc)
    ensures var t := map[pa := la, pc := lc];
            Step(t, Claim(d), m, t[d.prefix.value := RouteLabels(d, d.prefix.value)])
  {
    hide Step, RouteLabels, ValidateInput, Inside, Covers, HasKind, IsMasked;
    InsideCovers(d.prefix.value, pc);
    SelfCovers(pc);
    JoinsBelow(map[pa := la, pc := lc], d, pc, m);
  }

  lemma ThirdStep(a: IPClaim, c: IPClaim, d: IPClaim, m: Mode)
    requires NestedPools(a, c, d) && !m.initializing
    ensures Step(AfterTwo(a, c), Claim(d), m, AfterThree(a, c, d))
  {
    hide Admissible, Expand, ValidateInput, RouteLabels, Inside, Covers, Step, SameName, Lookup,
         HasKind, InstanceOwned, IsMasked, AddRoutes;
    var none: Table := map[];
    SingleRoute(none, a);
    SingleRoute(none, c);
    var pa, pc := a.prefix.value, c.prefix.value;
    InsideCovers(pc, pa);
    assert AfterTwo(a, c) == map[pa := RouteLabels(a, pa), pc := RouteLabels(c, pc)];
    JoinsBelowTwo(pa, RouteLabels(a, pa), pc, RouteLabels(c, pc), d, m);
  }

  lemma SelfCovers(p: Prefix)
    ensures Covers(p, p)
  {
  }

  lemma InsideCovers(q: Prefix, p: Prefix)
    requires Inside(q, p)
    ensures Covers(p, q) && p.len < q.len
  {
  }

  /** The labels of a pool that does not say so in its labels are not settled. */
  lemma PoolUnsettled(c: IPClaim)
    requires Admissible(c) && c.kind.Pool? && Lookup(c.labels, PoolKey) != Text("true")
    requires ValidateInput(c, c.prefix).Accepted?
    ensures var lc := RouteLabels(c, c.prefix.value);
            && c.Owns(lc) && ValidatePrefixOwner(lc, c).Accepted?
            && lc[PoolKey := Text("true")] != lc && !c.Foreign(lc[PoolKey := Text("true")])
  {
    var none: Table, lc := map[], RouteLabels(c, c.prefix.value);
    SingleRoute(none, c);
    PrefixOwnerIsOwner(lc, c);
    SameWith(lc, PoolKey, Text("true"));
    assert PoolKey in lc <==> PoolKey in c.labels;
  }

  lemma OtherOwner(c: IPClaim, d: IPClaim)
    requires Admissible(c) && Admissible(d) && !d.kind.Network? && !SameName(d.labels, c.labels)
    requires ValidateInput(d, d.prefix).Accepted?
    ensures var ld := RouteLabels(d, d.prefix.value); c.Foreign(ld) && !c.Owns(ld)
  {
    var none: Table := map[];
    SingleRoute(none, d);
    ForeignUnless(c, d, RouteLabels(d, d.prefix.value));
  }

  /** Where the three prefixes lie. */
  lemma NestedPrefixes(a: IPClaim, c: IPClaim, d: IPClaim)
    requires NestedPools(a, c, d)
    ensures var pa, pc, pd := a.prefix.value, c.prefix.value, d.prefix.value;
            && pa.len < pc.len < pd.len && Inside(pd, pc) && !Inside(pa, pc) && !Inside(pc, pc)
            && IsMasked(pc) && Masked(pc) == pc && !IsAddressPrefix(pc)
  {
    var none: Table := map[];
    SingleRoute(none, c);
    InsideCovers(c.prefix.value, a.prefix.value);
    InsideCovers(d.prefix.value, c.prefix.value);
  }

  lemma OneListed(t: Table, p: Prefix)
    requires p in t
    ensures Listing(t, {p}) == [Route(p, t[p])]
  {
    ListingHead(t, {p}, p);
    assert {p} - {p} == {};
  }

  /** Updating the route in the middle of three deletes the foreign one inside it. */
  lemma EvictInner(c: IPClaim, m: Mode, pa: Prefix, la: Labels, pc: Prefix, pd: Prefix, ld: Labels)
    requires c.kind.Pool? && c.createPrefix.Some? && !m.initializing && !IsAddressPrefix(pc)
    requires pa.len < pc.len < pd.len && Inside(pd, pc) && c.Foreign(ld)
    requires var lc := RouteLabels(c, pc);
             lc[PoolKey := Text("true")] != lc && !c.Foreign(lc[PoolKey := Text("true")])
    ensures var lc := RouteLabels(c, pc);
            UpdateStep(State(map[pa := la, pc := lc, pd := ld], Some(pc), []), c, m, Route(pc, lc)) ==
            State(map[pa := la, pc := lc[PoolKey := Text("true")]], Some(pc), [[Route(pd, ld)]])
  {
    hide RouteLabels, Inside, Listing, Lookup;
    var lc := RouteLabels(c, pc);
    var l := lc[PoolKey := Text("true")];
    var t1 := map[pa := la, pc := l, pd := ld];
    assert map[pa := la, pc := lc, pd := ld][pc := l] == t1;
    assert ForeignKeys(t1, c, pc) == {pd} by { ShorterOutside(pa, pc); ShorterOutside(pc, pc); }
    OneListed(t1, pd);
    assert t1 - {pd} == map[pa := la, pc := l];
  }

  lemma ShorterOutside(q: Prefix, p: Prefix)
    requires q.len <= p.len
    ensures !Inside(q, p)
  {
  }

  /** The repetition of the outer pool relabels it, deletes the inner one and
      reports it. */
  lemma ReclaimEvicts(a: IPClaim, c: IPClaim, d: IPClaim, m: Mode)
    requires NestedPools(a, c, d) && !m.initializing
    ensures var t, pc, pd := AfterThree(a, c, d), c.prefix.value, d.prefix.value;
            && pc in t && pd in t
            && UpdateStep(State(t, Some(pc), []), c, m, Route(pc, t[pc])) ==
               State(AfterFour(a, c), Some(pc), [[Route(pd, t[pd])]])
  {
    NestedPrefixes(a, c, d);
    hide Admissible, RouteLabels, ValidateInput, Inside, Lookup, SameName, UpdateStep, InstanceOwned;
    PoolUnsettled(c);
    OtherOwner(c, d);
    var pa, pc, pd := a.prefix.value, c.prefix.value, d.prefix.value;
    var la, lc, ld := RouteLabels(a, pa), RouteLabels(c, pc), RouteLabels(d, pd);
    assert AfterThree(a, c, d) == map[pa := la, pc := lc, pd := ld];
    EvictInner(c, m, pa, la, pc, pd, ld);
  }

  lemma OwnedInMiddle(c: IPClaim, pa: Prefix, la: Labels, pc: Prefix, lc: Labels, pd: Prefix, ld: Labels)
    requires pa.len < pc.len < pd.len && c.Owns(lc) && !c.Owns(la) && !c.Owns(ld)
    ensures var t := map[pa := la, pc := lc, pd := ld];
            Enumerates([Route(pc, lc)], t, OwnKeys(t, c))
  {
    hide Matches;
    var t, r := map[pa := la, pc := lc, pd := ld], Route(pc, lc);
    assert OwnKeys(t, c) == {pc};
    assert forall x :: x in [r] <==> x == r;
  }

  lemma OwnedAfterThree(a: IPClaim, c: IPClaim, d: IPClaim)
    requires NestedPools(a, c, d)
    ensures var t, pc := AfterThree(a, c, d), c.prefix.value;
            && pc in t && Enumerates([Route(pc, t[pc])], t, OwnKeys(t, c))
            && Accepts(t, c, pc) && TargetKey(c, pc) == pc
  {
    NestedPrefixes(a, c, d);
    hide Admissible, RouteLabels, Matches, Inside, Lookup, ValidatePrefixOwner, ValidateInput, SameName,
         Enumerates, OwnKeys, InstanceOwned;
    PoolUnsettled(c);
    OtherOwner(c, a);
    OtherOwner(c, d);
    var pa, pc, pd := a.prefix.value, c.prefix.value, d.prefix.value;
    var la, lc, ld := RouteLabels(a, pa), RouteLabels(c, pc), RouteLabels(d, pd);
    assert AfterThree(a, c, d) == map[pa := la, pc := lc, pd := ld];
    OwnedInMiddle(c, pa, la, pc, lc, pd, ld);
  }

  lemma RepeatStep(a: IPClaim, c: IPClaim, d: IPClaim, m: Mode)
    requires NestedPools(a, c, d) && !m.initializing
    ensures Step(AfterThree(a, c, d), Claim(c), m, AfterFour(a, c))
  {
    ReclaimEvicts(a, c, d, m);
    OwnedAfterThree(a, c, d);
    hide Admissible, RouteLabels, ValidateInput, Inside, Lookup, SameName, AfterThree, AfterFour, UpdateStep, Accepts,
         Enumerates, OwnKeys, Step, TargetKey;
    var t, pc, pd := AfterThree(a, c, d), c.prefix.value, d.prefix.value;
    OneRouteUpdate(t, c, pc, m, AfterFour(a, c), [[Route(pd, t[pd])]]);
  }

  /** A claim that updates its one route. */
  lemma OneRouteUpdate(t: Table, c: IPClaim, pc: Prefix, m: Mode, t': Table, reports: seq<seq<Route>>)
    requires c.prefix == Some(pc) && pc in t && Accepts(t, c, pc) && TargetKey(c, pc) == pc
    requires Enumerates([Route(pc, t[pc])], t, OwnKeys(t, c))
    requires UpdateStep(State(t, Some(pc), []), c, m, Route(pc, t[pc])) == State(t', Some(pc), reports)
    ensures Step(t, Claim(c), m, t')
  {
    hide UpdateStep, Accepts, Enumerates, OwnKeys, TargetKey, AddRoutes, Expand;
    var r, st := Route(pc, t[pc]), State(t, Some(pc), []);
    assert [r][..|[r]| - 1] == [] && UpdateAll(st, c, m, []) == st;
    assert UpdateAll(st, c, m, [r]) == UpdateStep(st, c, m, r);
    assert UpdatedBy(t, c, pc, m, [r], t');
  }

  lemma NestedRun(a: IPClaim, c: IPClaim, d: IPClaim, m: Mode)
    requires NestedPools(a, c, d) && !m.initializing
    ensures Run({a, c, d}, [map[], AfterOne(a), AfterTwo(a, c), AfterThree(a, c, d), AfterFour(a, c)],
                [Claim(a), Claim(c), Claim(d), Claim(c)], m)
  {
    FirstStep(a, c, d, m);
    SecondStep(a, c, d, m);
    ThirdStep(a, c, d, m);
    RepeatStep(a, c, d, m);
    NestedCoherent(a, c, d);
    hide Admissible, Step, Coherent, Run, ValidateInput, Inside, InstanceOwned, SameName, Lookup, AfterOne, AfterTwo,
         AfterThree, AfterFour;
    FourSteps({a, c, d}, m, a, c, d, AfterOne(a), AfterTwo(a, c), AfterThree(a, c, d), AfterFour(a, c));
  }

  /** A run of four claims in which the last one only repeats the second, and yet
      deletes the route of a third owner. */
  lemma PoolReclaimEvicts(a: IPClaim, c: IPClaim, d: IPClaim, m: Mode)
    requires NestedPools(a, c, d) && !m.initializing
    ensures var ts := [map[], AfterOne(a), AfterTwo(a, c), AfterThree(a, c, d), AfterFour(a, c)];
            && Run({a, c, d}, ts, [Claim(a), Claim(c), Claim(d), Claim(c)], m)
            && d.prefix.value in ts[3] && d.prefix.value !in ts[4]
  {
    hide Admissible, Run, ValidateInput, Inside, InstanceOwned, SameName, Lookup, RouteLabels;
    NestedRun(a, c, d, m);
    NestedPrefixes(a, c, d);
  }

  lemma FourSteps(cs: set<IPClaim>, m: Mode, x: IPClaim, y: IPClaim, z: IPClaim,
                  t1: Table, t2: Table, t3: Table, t4: Table)
    requires Coherent(cs) && !m.initializing && x in cs && y in cs && z in cs
    requires x.prefix.Some? && y.prefix.Some? && z.prefix.Some?
    requires Step(map[], Claim(x), m, t1) && Step(t1, Claim(y), m, t2)
    requires Step(t2, Claim(z), m, t3) && Step(t3, Claim(y), m, t4)
    ensures Run(cs, [map[], t1, t2, t3, t4], [Claim(x), Claim(y), Claim(z), Claim(y)], m)
  {
    hide Step, Coherent;
  }

  function Sample(name: string, owner: OwnerKind, kind: PrefixKind, len: nat): IPClaim
    requires len <= 32
  {
    IPClaim(kind, Some(true), Some(Prefix(IPv4, 10 * Pow2(24), len)), None,
            map[NsnName := Text(name), NsnNamespace := Text("default"), OwnerGvk := GvkValue(owner),
                OwnerNsnName := Text(name), OwnerNsnNamespace := Text("default")], None)
  }

  /** 10.0.0.0/8, 10.0.0.0/16 and 10.0.0.0/24. */
  lemma NestedPoolsExist()
    ensures NestedPools(Sample("vpc", NetworkInstanceGvk, Aggregate, 8), Sample("outer", IPPrefixGvk, Pool, 16),
                        Sample("inner", IPPrefixGvk, Pool, 24))
  {
    hide Pow2, Shr, ValidateInput, Admissible;
    SampleAccepted("vpc", NetworkInstanceGvk, Aggregate, 8);
    SampleAccepted("outer", IPPrefixGvk, Pool, 16);
    SampleAccepted("inner", IPPrefixGvk, Pool, 24);
    SampleName("vpc", NetworkInstanceGvk, Aggregate, 8);
    SampleName("outer", IPPrefixGvk, Pool, 16);
    SampleName("inner", IPPrefixGvk, Pool, 24);
    assert "vpc" != "outer" && "outer" != "inner" && "vpc" != "inner";
  }

  lemma SampleName(name: string, owner: OwnerKind, kind: PrefixKind, len: nat)
    requires len <= 32
    ensures Lookup(Sample(name, owner, kind, len).labels, NsnName) == Text(name)
  {
  }

  lemma SampleAccepted(name: string, owner: OwnerKind, kind: PrefixKind, len: nat)
    requires 8 <= len < 32 && !kind.Network? && name != ""
    ensures Admissible(Sample(name, owner, kind, len))
    ensures ValidateInput(Sample(name, owner, kind, len), Sample(name, owner, kind, len).prefix).Accepted?
  {
    hide Pow2, Shr;
    SampleMasked(32 - len);
  }

  lemma SampleMasked(k: nat)
    requires k <= 24
    ensures Shr(10 * Pow2(24), k) * Pow2(k) == 10 * Pow2(24)
  {
    hide Pow2, Shr;
    Pow2Splits(24 - k, k);
    var u, w := Pow2(24 - k), Pow2(k);
    MulAssociates(10, u, w);
    assert w * u == u * w;
    ShrUnique(10 * Pow2(24), k, 10 * u);
  }
}
