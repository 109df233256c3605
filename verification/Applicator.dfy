/** The applicator: the methods that change the routing table on behalf of one
    claim.  Each is proved against the functions on tables. */
module Applicators {
  import opened Prefixes
  import opened Claims
  import opened Wrappers
  import opened RoutingTable
  import opened Expansion
  import opened Updates
  import opened Runs
  import opened Allocation

  /** How applying a claim ends.  `Crashed` is an index out of range. */
  datatype Outcome =
    | Added
    | Updated
    | MultiplePrefixes
    | Crashed
    | Allocated(selected: Prefix, length: nat, free: Prefix)
    | NoMatchingRoute | NoRouteOfLength | NoFreePrefix

  /** What a dynamic claim looks for in a route: its own kind, an aggregate to
      fall back on, or a length below the requested one. */
  datatype Want = OwnKind | Fallback | Shorter(n: nat)

  predicate Fits(c: IPClaim, w: Want, r: Route) {
    match w
    case OwnKind => !c.kind.Aggregate? && HasKind(r.labels, c.kind)
    case Fallback => (c.kind.Loopback? || c.kind.Network?) && HasKind(r.labels, Aggregate)
    case Shorter(n) => r.prefix.len < n
  }

  ghost predicate FirstFit(c: IPClaim, rs: seq<Route>, w: Want, found: Option<Route>) {
    match found
    case None => forall i | 0 <= i < |rs| :: !Fits(c, w, rs[i])
    case Some(r) =>
      exists i | 0 <= i < |rs| ::
        rs[i] == r && Fits(c, w, r) && forall j | 0 <= j < i :: !Fits(c, w, rs[j])
  }

  predicate FullLength(n: nat) { n == 32 || n == 128 }

  /** The route a dynamic claim is served from: for a single address the first of
      its own kind, failing that the first aggregate it may use; otherwise the
      first route that is shorter than the request. */
  ghost predicate Selected(c: IPClaim, rs: seq<Route>, n: nat, found: Option<Route>) {
    if !FullLength(n) then FirstFit(c, rs, Shorter(n), found)
    else if exists r | r in rs :: Fits(c, OwnKind, r) then FirstFit(c, rs, OwnKind, found)
    else FirstFit(c, rs, Fallback, found)
  }

  /** The length asked for, or that of an address of the first matching route. */
  function LengthFor(c: IPClaim, rs: seq<Route>): nat
    requires rs != []
  {
    if c.prefixLength.Some? then c.prefixLength.value else Width(rs[0].prefix.family)
  }

  /** Among the routes the selector matches, in some order, `found` is the one that a
      claim of length `n` is served from. */
  ghost predicate ServedFrom(t: Table, c: IPClaim, n: nat, found: Option<Route>) {
    exists rs :: rs != [] && Enumerates(rs, t, MatchKeys(t, c.SelectorLabels())) && n == LengthFor(c, rs)
                 && Selected(c, rs, n, found)
  }

  lemma NoneMatching(t: Table, c: IPClaim, rs: seq<Route>)
    requires Enumerates(rs, t, MatchKeys(t, c.SelectorLabels()))
    ensures rs == [] <==> MatchKeys(t, c.SelectorLabels()) == {}
  {
    EnumeratesPrefixes(rs, t, MatchKeys(t, c.SelectorLabels()));
    assert rs != [] ==> rs[0] in rs;
  }

  lemma Serves(t: Table, c: IPClaim, rs: seq<Route>, found: Option<Route>)
    requires rs != [] && Enumerates(rs, t, MatchKeys(t, c.SelectorLabels()))
    requires Selected(c, rs, LengthFor(c, rs), found)
    ensures ServedFrom(t, c, LengthFor(c, rs), found)
    ensures if c.prefixLength.Some? then LengthFor(c, rs) == c.prefixLength.value else FullLength(LengthFor(c, rs))
    ensures found.Some? ==>
              found.value.prefix in MatchKeys(t, c.SelectorLabels()) && found.value.prefix in t
              && found.value == Route(found.value.prefix, t[found.value.prefix])
  {
    assert found.Some? ==> found.value in rs;
  }

  lemma FirstFitStep(c: IPClaim, rs: seq<Route>, i: nat, w: Want, found: Option<Route>)
    requires i < |rs| && FirstFit(c, rs[..i], w, found)
    ensures FirstFit(c, rs[..i + 1], w,
                     if found.None? && Fits(c, w, rs[i]) then Some(rs[i]) else found)
  {
    var next := rs[..i + 1];
    assert next[..i] == rs[..i] && next[i] == rs[i];
    if found.Some? {
      var k :| 0 <= k < i && rs[..i][k] == found.value && Fits(c, w, found.value)
               && forall j | 0 <= j < k :: !Fits(c, w, rs[..i][j]);
      assert next[k] == found.value && forall j | 0 <= j < k :: next[j] == rs[..i][j];
    } else if Fits(c, w, rs[i]) {
      assert forall j | 0 <= j < i :: next[j] == rs[..i][j];
    }
  }

  /** The gateway in the status of a claim. */
  datatype Gateway = Unset | NoGateway | At(family: Family, addr: nat)

  function GatewaySelector(p: Prefix): Labels {
    map[GatewayKey := Text("true"), SubnetKey := SubnetName(p)]
  }

  /** A route of the subnet with the gateway label gives the gateway, and there is
      none only without such a route. */
  ghost predicate GatewayOf(t: Table, p: Prefix, g: Gateway) {
    var keys := MatchKeys(t, GatewaySelector(p));
    match g
    case Unset => false
    case NoGateway => keys == {}
    case At(f, a) => exists q | q in keys :: q.family == f && q.addr == a
  }

  /** The owner has more than one route. */
  ghost predicate Several(t: Table, c: IPClaim) {
    exists p, q | p in OwnKeys(t, c) && q in OwnKeys(t, c) :: p != q
  }

  lemma SeveralRoutes(t: Table, c: IPClaim, rs: seq<Route>)
    requires Enumerates(rs, t, OwnKeys(t, c))
    ensures |rs| > 1 <==> Several(t, c)
  {
    if |rs| > 1 {
      assert rs[0] in rs && rs[1] in rs;
    }
    if p, q :| p in OwnKeys(t, c) && q in OwnKeys(t, c) && p != q {
      assert Route(p, t[p]) in rs && Route(q, t[q]) in rs;
    }
  }

  class Applicator {
    const initializing: bool
    const claim: IPClaim
    const rib: Rib
    var pi: Option<Prefix>
    var statusPrefix: Option<Prefix>
    var statusGateway: Gateway
    // the lists handed to the watcher
    var reports: seq<seq<Route>>

    constructor (initializing: bool, claim: IPClaim, rib: Rib, pi: Option<Prefix>)
      ensures this.initializing == initializing && this.claim == claim && this.rib == rib
      ensures this.pi == pi && statusPrefix == None && statusGateway == Unset && reports == []
    {
      this.initializing, this.claim, this.rib, this.pi := initializing, claim, rib, pi;
      statusPrefix, statusGateway, reports := None, Unset, [];
    }

    ghost function Mode(): Mode {
      Updates.Mode(initializing, rib.nearestFirst)
    }

    ghost function Now(): State
      reads this, rib
    {
      State(rib.routes, pi, reports)
    }

    method HandleUpdate(routes: seq<Route>)
      modifies this`reports
      ensures reports == old(reports) + [routes]
    {
      reports := reports + [routes];
    }

    // -------------------------------------------------------------------
    // Adding
    // -------------------------------------------------------------------

    method GetMutatedRoutesWithLabels() returns (routes: seq<Route>)
      requires pi.Some?
      ensures routes == Expand(claim, pi.value)
    {
      routes := [];
      var p := pi.value;
      var labels := claim.labels;
      labels := labels[PrefixKindKey := KindValue(claim.kind)];
      labels := labels[AddressFamilyKey := FamilyValue(p.family)];
      labels := labels[SubnetKey := SubnetName(p)];
      var prefix := p;
      if claim.kind.Network? {
        if claim.createPrefix.Some? {
          routes := routes + [Route(Masked(p), labels - {GatewayKey})];
          if p.len == Width(p.family) - 1 {
          } else if IsNorLastNorFirst(p) {
            routes := routes + [Route(AddressPrefix(p), labels)];
            routes := routes + [Route(FirstPrefix(p), labels - {GatewayKey})];
            routes := routes + [Route(LastPrefix(p), labels - {GatewayKey})];
          } else if IsFirst(p) {
            routes := routes + [Route(AddressPrefix(p), labels)];
            routes := routes + [Route(LastPrefix(p), labels - {GatewayKey})];
          } else {
            routes := routes + [Route(AddressPrefix(p), labels)];
            routes := routes + [Route(FirstPrefix(p), labels - {GatewayKey})];
          }
          return;
        }
        prefix := AddressPrefix(p);
      }
      routes := routes + [Route(prefix, labels)];
    }

    /** getGateway: the address of a route that carries the gateway label of the
        subnet. */
    method GetGateway(p: Prefix) returns (g: Gateway)
      ensures GatewayOf(rib.routes, p, g)
    {
      var routes := rib.GetByLabel(GatewaySelector(p));
      if |routes| > 0 {
        assert routes[0] in routes;
        return At(routes[0].prefix.family, routes[0].prefix.addr);
      }
      return NoGateway;
    }

    method AddRib()
      requires pi.Some?
      modifies this`statusPrefix, this`statusGateway, rib
      ensures rib.routes == AddRoutes(old(rib.routes), Expand(claim, pi.value))
      ensures statusPrefix == pi
      ensures if claim.kind.Network? && claim.createPrefix.None? then GatewayOf(rib.routes, pi.value, statusGateway)
              else statusGateway == old(statusGateway)
    {
      var routes := GetMutatedRoutesWithLabels();
      var i := 0;
      while i < |routes|
        invariant 0 <= i <= |routes|
        invariant rib.routes == AddRoutes(old(rib.routes), routes[..i])
        invariant statusGateway == old(statusGateway)
      {
        var _ := rib.Add(routes[i]);
        assert routes[..i + 1][..i] == routes[..i];
        i := i + 1;
      }
      assert routes[..i] == routes;
      statusPrefix := pi;
      if claim.kind.Network? && claim.createPrefix.None? {
        statusGateway := GetGateway(pi.value);
      }
    }

    // -------------------------------------------------------------------
    // Updating
    // -------------------------------------------------------------------

    method GetUpdatedLabels(route: Route) returns (labels: Labels)
      modifies this`pi
      ensures labels == UpdatedLabels(rib.routes, claim, route.prefix, rib.nearestFirst)
      ensures var info := ParentInfo(rib.routes, claim, route.prefix, rib.nearestFirst);
              pi == if info.Some? then info else old(pi)
    {
      var p := route.prefix;
      labels := claim.labels;
      labels := labels[PrefixKindKey := KindValue(claim.kind)];
      labels := labels[AddressFamilyKey := FamilyValue(p.family)];
      labels := labels[SubnetKey := SubnetName(p)];
      if claim.kind.Network? {
        if IsAddressPrefix(p) {
          var parents := rib.Parents(p);
          if |parents| > 0 {
            assert parents[0].prefix.family == p.family by {
              ParentListEnumerates(rib.routes, p, rib.nearestFirst);
              assert parents[0] in parents;
            }
            var info := Prefix(p.family, p.addr, parents[0].prefix.len);
            pi := Some(info);
            if p == FirstPrefix(info) || p == LastPrefix(info) {
              labels := labels - {GatewayKey};
            }
            labels := labels[SubnetKey := SubnetName(info)];
          }
        } else {
          labels := labels - {GatewayKey};
          labels := labels[SubnetKey := SubnetName(p)];
        }
      }
      if claim.kind.Pool? {
        labels := labels[PoolKey := Text("true")];
      }
    }

    /** Removes the foreign routes inside `p` and tells the watcher. */
    method EvictChildren(p: Prefix)
      modifies this`reports, rib
      ensures Now() == Evict(old(Now()), claim, p)
    {
      hide Listing, ChildKeys;
      ghost var t := rib.routes;
      var children := rib.Children(p);
      var toBeUpdated: seq<Route> := [];
      assert t - PrefixesOf(toBeUpdated) == t;
      var i := 0;
      while i < |children|
        invariant 0 <= i <= |children|
        invariant toBeUpdated == ForeignOf(claim, children[..i])
        invariant rib.routes == t - PrefixesOf(toBeUpdated)
        invariant reports == old(reports)
      {
        var child := children[i];
        assert children[..i + 1][..i] == children[..i];
        if claim.Foreign(child.labels) {
          MinusAppend(t, toBeUpdated, child);
          toBeUpdated := toBeUpdated + [child];
          var _ := rib.Delete(child.prefix);
        }
        i := i + 1;
      }
      assert children[..i] == children;
      EvictedListing(t, claim, p);
      HandleUpdate(toBeUpdated);
    }

    /** Updates the given routes one after the other. */
    method UpdateRib(routes: seq<Route>)
      requires routes != []
      modifies this, rib
      ensures Now() == UpdateAll(old(Now()), claim, Mode(), routes)
      ensures statusPrefix ==
              if !claim.kind.Network? then Some(routes[0].prefix)
              else if claim.prefix.Some? then claim.prefix
              else if pi.Some? then pi
              else Some(routes[0].prefix)
      ensures if claim.kind.Network? && claim.createPrefix.None?
              then GatewayOf(rib.routes, statusPrefix.value, statusGateway)
              else statusGateway == old(statusGateway)
    {
      hide UpdatedLabels, ParentInfo, GatewayOf, Listing, ForeignKeys;
      var i := 0;
      while i < |routes|
        invariant 0 <= i <= |routes|
        invariant Now() == UpdateAll(old(Now()), claim, Mode(), routes[..i])
        invariant statusGateway == old(statusGateway)
      {
        var route := routes[i];
        assert routes[..i + 1][..i] == routes[..i];
        var labels := GetUpdatedLabels(route);
        if labels != route.labels {
          rib.Set(Route(route.prefix, labels));
          if pi.Some? && !initializing && !IsAddressPrefix(pi.value) && claim.createPrefix.Some? {
            EvictChildren(route.prefix);
          }
        }
        i := i + 1;
      }
      assert routes[..i] == routes;
      ShowUpdated(routes[0].prefix);
    }

    /** The status after an update. */
    method ShowUpdated(first: Prefix)
      modifies this`statusPrefix, this`statusGateway
      ensures statusPrefix ==
              if !claim.kind.Network? then Some(first)
              else if claim.prefix.Some? then claim.prefix
              else if pi.Some? then pi
              else Some(first)
      ensures if claim.kind.Network? && claim.createPrefix.None?
              then GatewayOf(rib.routes, statusPrefix.value, statusGateway)
              else statusGateway == old(statusGateway)
    {
      hide GatewayOf;
      statusPrefix := Some(first);
      if claim.kind.Network? {
        if claim.prefix.Some? {
          statusPrefix := claim.prefix;
        } else if pi.Some? {
          statusPrefix := pi;
        }
        if claim.createPrefix.None? {
          statusGateway := GetGateway(statusPrefix.value);
        }
      }
    }

    method GetRoutesByOwner() returns (routes: seq<Route>, ok: bool)
      ensures Enumerates(routes, rib.routes, OwnKeys(rib.routes, claim))
      ensures ok <==> !TooMany(claim, routes)
    {
      routes := rib.GetByLabel(claim.OwnerSelector());
      ok := !(|routes| > 1 && !(claim.createPrefix.Some? && claim.kind.Network?));
    }

    // -------------------------------------------------------------------
    // Claims that name their prefix
    // -------------------------------------------------------------------

    method ApplyPrefix() returns (outcome: Outcome)
      requires pi.Some? && reports == []
      modifies this, rib
      ensures Applied(old(rib.routes), claim, old(pi.value), Mode(), rib.routes)
      ensures outcome == Crashed <==>
              TargetKey(claim, old(pi.value)) in old(rib.routes) && OwnKeys(old(rib.routes), claim) == {}
      ensures outcome == MultiplePrefixes <==>
              && TargetKey(claim, old(pi.value)) in old(rib.routes) && Several(old(rib.routes), claim)
              && !(claim.createPrefix.Some? && claim.kind.Network?)
      ensures outcome == Added <==> TargetKey(claim, old(pi.value)) !in old(rib.routes)
      ensures outcome in {Added, Updated, MultiplePrefixes, Crashed}
      ensures outcome == Added ==> statusPrefix == pi
      ensures outcome != Updated ==> reports == []
      ensures outcome == Updated ==>
                exists rs :: rs != [] && Enumerates(rs, old(rib.routes), OwnKeys(old(rib.routes), claim))
                             && Now() == UpdateAll(old(Now()), claim, Mode(), rs)
    {
      ghost var t, p := rib.routes, pi.value;
      var found;
      if claim.kind.Network? {
        if claim.createPrefix.None? {
          found := rib.Get(AddressPrefix(pi.value));
        } else {
          found := rib.Get(Masked(pi.value));
        }
      } else {
        found := rib.Get(pi.value);
      }
      if found.Some? {
        var routes, ok := GetRoutesByOwner();
        SeveralRoutes(t, claim, routes);
        EnumeratesPrefixes(routes, t, OwnKeys(t, claim));
        assert routes == [] ==> OwnKeys(t, claim) == {};
        if |routes| > 0 {
          assert routes[0] in routes;
        }
        if !ok {
          assert UpdatedBy(t, claim, p, Mode(), routes, t);
          return MultiplePrefixes;
        }
        if routes == [] {
          assert UpdatedBy(t, claim, p, Mode(), routes, t);
          return Crashed;
        }
        UpdateRib(routes);
        assert UpdatedBy(t, claim, p, Mode(), routes, rib.routes);
        return Updated;
      }
      AddRib();
      return Added;
    }

    // -------------------------------------------------------------------
    // Claims that leave the prefix to the backend
    // -------------------------------------------------------------------

    method GetSelectedRouteWithPrefixLength(routes: seq<Route>, n: nat) returns (selected: Option<Route>)
      ensures Selected(claim, routes, n, selected)
    {
      if FullLength(n) {
        var ownKind, otherKind: Option<Route> := None, None;
        for i := 0 to |routes|
          invariant FirstFit(claim, routes[..i], OwnKind, ownKind)
          invariant FirstFit(claim, routes[..i], Fallback, otherKind)
        {
          FirstFitStep(claim, routes, i, OwnKind, ownKind);
          FirstFitStep(claim, routes, i, Fallback, otherKind);
          if Fits(claim, OwnKind, routes[i]) && ownKind.None? {
            ownKind := Some(routes[i]);
          }
          if Fits(claim, Fallback, routes[i]) && otherKind.None? {
            otherKind := Some(routes[i]);
          }
        }
        assert routes[..|routes|] == routes;
        return if ownKind.Some? then ownKind else otherKind;
      }
      for i := 0 to |routes|
        invariant FirstFit(claim, routes[..i], Shorter(n), None)
      {
        FirstFitStep(claim, routes, i, Shorter(n), None);
        if routes[i].prefix.len < n {
          assert forall j | 0 <= j < i :: routes[j] == routes[..i][j];
          return Some(routes[i]);
        }
      }
      assert routes[..|routes|] == routes;
      return None;
    }

    /** A new claim: a free prefix is taken out of a route that its selector matches,
        or nothing changes. */
    method AllocateNew() returns (outcome: Outcome)
      modifies this, rib
      ensures outcome.Allocated? ==>
                && outcome.selected in MatchKeys(old(rib.routes), claim.SelectorLabels())
                && ServedFrom(old(rib.routes), claim, outcome.length,
                              Some(Route(outcome.selected, old(rib.routes)[outcome.selected])))
                && (if claim.prefixLength.Some? then outcome.length == claim.prefixLength.value
                    else FullLength(outcome.length))
                && outcome.free.family == outcome.selected.family
                && (outcome.selected.len < outcome.length ==>
                      Available(old(rib.routes), outcome.selected, outcome.length, outcome.free))
                && rib.routes == Allocate(old(rib.routes), claim, outcome.selected, outcome.free)
                && pi == Some(AllocatedInfo(claim, outcome.selected, outcome.free))
                && statusPrefix == pi
      ensures outcome == NoMatchingRoute <==> MatchKeys(old(rib.routes), claim.SelectorLabels()) == {}
      ensures outcome == NoRouteOfLength ==> exists n :: ServedFrom(old(rib.routes), claim, n, None)
      ensures outcome == NoFreePrefix ==> exists n, r :: ServedFrom(old(rib.routes), claim, n, Some(r))
      ensures reports == old(reports)
      ensures !outcome.Allocated? ==> rib.routes == old(rib.routes)
      ensures outcome.Allocated? || outcome.NoMatchingRoute? || outcome.NoRouteOfLength? || outcome.NoFreePrefix?
    {
      ghost var t := rib.routes;
      var routes := rib.GetByLabel(claim.SelectorLabels());
      hide GatewayOf, Expand, AddRoutes, Available, ServedFrom, Selected, Enumerates, MatchKeys, LengthFor,
           FullLength, UpdateAll, Inside;
      NoneMatching(t, claim, routes);
      if |routes| == 0 {
        return NoMatchingRoute;
      }
      var n := LengthFor(claim, routes);
      var found := GetSelectedRouteWithPrefixLength(routes, n);
      Serves(t, claim, routes, found);
      if found.None? {
        return NoRouteOfLength;
      }
      var selected := found.value.prefix;
      var free := rib.GetAvailablePrefixByBitLen(selected, n);
      if free.None? {
        return NoFreePrefix;
      }
      if claim.kind.Network? {
        if claim.createPrefix.Some? {
          pi := Some(free.value);
        } else {
          pi := Some(Prefix(free.value.family, free.value.addr, selected.len));
        }
      } else {
        pi := Some(Prefix(free.value.family, free.value.addr, n));
      }
      AddRib();
      return Allocated(selected, n, free.value);
    }

    /** A claim without a prefix and without a prefix in its status: its routes
        are refreshed, or a free prefix is taken out of a route that its selector
        matches, or nothing changes. */
    method ApplyDynamic() returns (outcome: Outcome)
      requires statusPrefix.None?
      modifies this, rib
      ensures outcome == Updated ==>
                exists rs :: rs != [] && Enumerates(rs, old(rib.routes), OwnKeys(old(rib.routes), claim))
                             && Now() == UpdateAll(old(Now()), claim, Mode(), rs)
      ensures outcome == MultiplePrefixes <==>
              Several(old(rib.routes), claim) && !(claim.createPrefix.Some? && claim.kind.Network?)
      ensures outcome.Allocated? ==>
                && OwnKeys(old(rib.routes), claim) == {}
                && outcome.selected in MatchKeys(old(rib.routes), claim.SelectorLabels())
                && ServedFrom(old(rib.routes), claim, outcome.length,
                              Some(Route(outcome.selected, old(rib.routes)[outcome.selected])))
                && (if claim.prefixLength.Some? then outcome.length == claim.prefixLength.value
                    else FullLength(outcome.length))
                && outcome.free.family == outcome.selected.family
                && (outcome.selected.len < outcome.length ==>
                      Available(old(rib.routes), outcome.selected, outcome.length, outcome.free))
                && rib.routes == Allocate(old(rib.routes), claim, outcome.selected, outcome.free)
                && pi == Some(AllocatedInfo(claim, outcome.selected, outcome.free))
                && statusPrefix == pi && reports == old(reports)
      ensures outcome == NoMatchingRoute <==>
              OwnKeys(old(rib.routes), claim) == {} && MatchKeys(old(rib.routes), claim.SelectorLabels()) == {}
      ensures outcome == NoRouteOfLength ==> exists n :: ServedFrom(old(rib.routes), claim, n, None)
      ensures outcome == NoFreePrefix ==> exists n, r :: ServedFrom(old(rib.routes), claim, n, Some(r))
      ensures !outcome.Allocated? && outcome != Updated ==>
                rib.routes == old(rib.routes) && reports == old(reports)
      ensures outcome.Allocated? || outcome.Updated? || outcome.MultiplePrefixes?
              || outcome.NoMatchingRoute? || outcome.NoRouteOfLength? || outcome.NoFreePrefix?
    {
      ghost var t := rib.routes;
      var routes, ok := GetRoutesByOwner();
      EnumeratesPrefixes(routes, t, OwnKeys(t, claim));
      SeveralRoutes(t, claim, routes);
      hide GatewayOf, Available, Allocate, Several, OwnKeys, MatchKeys, UpdateAll, ServedFrom;
      if !ok {
        return MultiplePrefixes;
      }
      if |routes| > 0 {
        UpdateRib(routes);
        return Updated;
      }
      assert OwnKeys(t, claim) == {};
      outcome := AllocateNew();
    }

    // -------------------------------------------------------------------
    // Deleting
    // -------------------------------------------------------------------

    /** Deletes one route of the claim, evicting what is foreign inside it. */
    method DeleteRoute(route: Route) returns (ok: bool)
      modifies this`reports, rib
      ensures Now() == if ok then DeleteStep(old(Now()), claim, Mode(), route)
                       else DeleteBegun(old(Now()), claim, Mode(), route.prefix)
      ensures ok <==> route.prefix in old(rib.routes)
    {
      if !initializing && !IsAddressPrefix(route.prefix) && claim.createPrefix.Some? {
        EvictChildren(route.prefix);
      }
      ok := rib.Delete(route.prefix);
      if ok && !initializing {
        var children := rib.Children(route.prefix);
        HandleUpdate(children);
      }
    }

    /** Deletes the routes of the claim.  It can only fail halfway when the
        selector of the claim hides the name of the claim. */
    method Delete() returns (ok: bool)
      modifies this`reports, rib
      ensures claim.Named() ==> ok
      ensures ok ==> exists rs :: Enumerates(rs, old(rib.routes), OwnKeys(old(rib.routes), claim))
                                  && Now() == DeleteAll(old(Now()), claim, Mode(), rs)
      ensures !ok ==> exists rs :: Enumerates(rs, old(rib.routes), OwnKeys(old(rib.routes), claim))
                                   && StoppedDelete(old(Now()), claim, Mode(), rs, Now())
    {
      hide DeleteStep, DeleteBegun;
      var routes := rib.GetByLabel(claim.OwnerSelector());
      var i := 0;
      while i < |routes|
        invariant 0 <= i <= |routes|
        invariant Now() == DeleteAll(old(Now()), claim, Mode(), routes[..i])
        invariant claim.Named() ==> Pending(rib.routes, routes, i)
      {
        assert routes[..i + 1][..i] == routes[..i];
        if claim.Named() {
          DeleteKeepsPending(Now(), claim, Mode(), routes, i);
        }
        ok := DeleteRoute(routes[i]);
        if !ok {
          assert StopsAt(old(Now()), claim, Mode(), routes, i, Now());
          assert StoppedDelete(old(Now()), claim, Mode(), routes, Now());
          return;
        }
        i := i + 1;
      }
      assert routes[..i] == routes;
      ok := true;
    }
  }

  /** A delete that ends at route `k` because an eviction has removed it. */
  ghost predicate StopsAt(st: State, c: IPClaim, m: Mode, rs: seq<Route>, k: nat, st': State) {
    && k < |rs|
    && var before := DeleteAll(st, c, m, rs[..k]);
       rs[k].prefix !in before.table && st' == DeleteBegun(before, c, m, rs[k].prefix)
  }

  ghost predicate StoppedDelete(st: State, c: IPClaim, m: Mode, rs: seq<Route>, st': State) {
    exists k: nat :: StopsAt(st, c, m, rs, k, st')
  }

  /** The routes a walk still has to handle are as the walk found them. */
  predicate Pending(t: Table, rs: seq<Route>, i: nat) {
    forall j | i <= j < |rs| :: rs[j].prefix in t && t[rs[j].prefix] == rs[j].labels
  }

  lemma DeleteKeepsPending(st: State, c: IPClaim, m: Mode, rs: seq<Route>, i: nat)
    requires c.Named() && i < |rs| && Pending(st.table, rs, i)
    requires DistinctPrefixes(rs) && forall r | r in rs :: c.Owns(r.labels)
    ensures Pending(DeleteStep(st, c, m, rs[i]).table, rs, i + 1)
  {
    forall j | i <= j < |rs| ensures rs[j].prefix !in ForeignKeys(st.table, c, rs[i].prefix) {
      OwnIsNotForeign(c, rs[j].labels);
    }
  }
}
