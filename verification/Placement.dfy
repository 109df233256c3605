/** Where claims without a prefix may be placed.  The choice of the route a block is
    taken from looks at lengths and labels and never at kinds: the hierarchy survives
    exactly for the pairs of kinds given here. */
module Placement {
  import opened Prefixes
  import opened Claims
  import opened Wrappers
  import opened RoutingTable
  import opened Expansion
  import opened Updates
  import opened Hierarchy
  import opened Allocation
  import opened Applicators

  /** The claim brings a subnet for its host routes. */
  predicate BringsSubnet(c: IPClaim, free: Prefix) {
    c.createPrefix.Some? && !IsAddressPrefix(free)
  }

  /** The kinds of route that a claim may be taken from. */
  predicate MayHost(outer: Labels, c: IPClaim, free: Prefix) {
    || (HasKind(outer, Aggregate) && (c.kind.Network? ==> BringsSubnet(c, free)))
    || (HasKind(outer, Pool) && c.kind.Pool?)
    || (HasKind(outer, Network) && c.kind.Network? && SameName(outer, c.labels) && !BringsSubnet(c, free))
  }

  /** A route of an allocated claim: the block itself, or a host route of a network,
      which lies in a block that the claim brings. */
  lemma AllocatedShape(c: IPClaim, selected: Prefix, free: Prefix, r: Route)
    requires selected.family == free.family && IsMasked(free) && c.Named()
    requires r in Expand(c, AllocatedInfo(c, selected, free))
    ensures HasKind(r.labels, c.kind) && KnownKind(r.labels) && SameName(r.labels, c.labels)
    ensures IsMasked(r.prefix) && Covers(free, r.prefix)
    ensures r.prefix == free || (c.kind.Network? && IsAddressPrefix(r.prefix))
    ensures c.kind.Network? && !BringsSubnet(c, free) ==> IsAddressPrefix(r.prefix)
  {
    var pi := AllocatedInfo(c, selected, free);
    AllocatedInside(c, selected, free, r);
    OwnIsNotForeign(c, r.labels);
    if c.createPrefix.Some? || !c.kind.Network? {
      ExpansionLies(c, pi, r);
    } else {
      HostFacts(pi.family, pi.addr);
    }
  }

  lemma BroughtSubnet(c: IPClaim, selected: Prefix, free: Prefix)
    requires selected.family == free.family && IsMasked(free)
    ensures Expand(c, AllocatedInfo(c, selected, free)) != []
    ensures BringsSubnet(c, free) ==> free in PrefixesOf(Expand(c, AllocatedInfo(c, selected, free)))
  {
    if c.createPrefix.Some? {
      ExpansionHasSubnet(c, free);
    }
  }

  /** A block of length `n` was found free below a route of a legal table. */
  ghost predicate Found(t: Table, c: IPClaim, selected: Prefix, free: Prefix) {
    Legal(t) && c.Named() && selected in t && selected.len < free.len && Available(t, selected, free.len, free)
  }

  /** What is known of a route that the claim added. */
  lemma Placed(t: Table, c: IPClaim, selected: Prefix, free: Prefix, q: Prefix)
    requires Found(t, c, selected, free) && q in Allocate(t, c, selected, free) && q !in t
    ensures var l := Allocate(t, c, selected, free)[q];
            HasKind(l, c.kind) && KnownKind(l) && SameName(l, c.labels)
    ensures IsMasked(q) && Covers(free, q) && Inside(q, selected)
    ensures q == free || (c.kind.Network? && IsAddressPrefix(q))
    ensures c.kind.Network? && !BringsSubnet(c, free) ==> IsAddressPrefix(q)
    ensures forall p | p in t :: (Inside(q, p) ==> Covers(p, selected)) && !Inside(p, q)
  {
    var t' := Allocate(t, c, selected, free);
    AllocationFrame(t, c, selected, free.len, free);
    AddRoutesFrame(t, Expand(c, AllocatedInfo(c, selected, free)));
    AllocatedShape(c, selected, free, Route(q, t'[q]));
    hide Allocate, Expand, AddRoutes, Covers, Disjoint, Legal, Available, KnownKind, SameName;
    forall p | p in t ensures (Inside(q, p) ==> Covers(p, selected)) && !Inside(p, q) {
      assert Disjoint(q, p) || Covers(p, selected);
      NothingOldInside(p, q, selected);
      if Inside(q, p) {
        Laminar(q, p);
      }
    }
  }

  /** Around the selected route are aggregates, and pools when it is a pool. */
  lemma AroundSelected(t: Table, selected: Prefix, p: Prefix)
    requires Legal(t) && selected in t && p in t && !IsAddressPrefix(selected) && Covers(p, selected)
    ensures p == selected || HasKind(t[p], Aggregate) || (HasKind(t[p], Pool) && HasKind(t[selected], Pool))
  {
    if p.len == selected.len {
      CoversSameLength(p, selected);
    } else {
      assert MayContain(t[p], selected, t[selected]) && KnownKind(t[p]);
    }
  }

  lemma PlacedNests(t: Table, c: IPClaim, selected: Prefix, free: Prefix, p: Prefix, q: Prefix)
    requires Found(t, c, selected, free) && MayHost(t[selected], c, free)
    requires var t' := Allocate(t, c, selected, free); p in t' && q in t' && Inside(q, p)
    ensures var t' := Allocate(t, c, selected, free); MayContain(t'[p], q, t'[q])
  {
    var t' := Allocate(t, c, selected, free);
    AllocationFrame(t, c, selected, free.len, free);
    hide Allocate, Available;
    if p in t && q in t {
      assert MayContain(t[p], q, t[q]);
    } else if p in t {
      Placed(t, c, selected, free, q);
      AroundSelected(t, selected, p);
    } else {
      Placed(t, c, selected, free, p);
      if q !in t {
        Placed(t, c, selected, free, q);
      }
    }
  }

  lemma PlacedHosts(t: Table, c: IPClaim, selected: Prefix, free: Prefix)
    requires Found(t, c, selected, free) && MayHost(t[selected], c, free)
    ensures HostsHaveSubnets(Allocate(t, c, selected, free))
  {
    var t' := Allocate(t, c, selected, free);
    AllocationFrame(t, c, selected, free.len, free);
    BroughtSubnet(c, selected, free);
    hide Allocate, Available, Expand;
    forall q | q in t' && IsHostRoute(t', q) ensures HasSubnet(t', q) {
      if q in t {
        assert HasSubnet(t, q);
        var s: Prefix :| s in t && Inside(q, s) && HasKind(t[s], Network);
        assert s in t' && HasKind(t'[s], Network);
      } else {
        Placed(t, c, selected, free, q);
        var s := if BringsSubnet(c, free) then free else selected;
        if BringsSubnet(c, free) {
          Placed(t, c, selected, free, free);
        }
        assert s in t' && Inside(q, s) && HasKind(t'[s], Network);
      }
    }
  }

  lemma PlacedRoots(t: Table, c: IPClaim, selected: Prefix, free: Prefix)
    requires Found(t, c, selected, free)
    ensures RootsAreInstances(Allocate(t, c, selected, free))
  {
    var t' := Allocate(t, c, selected, free);
    AllocationFrame(t, c, selected, free.len, free);
    hide Allocate, Available;
    forall q | q in t' && ParentKeys(t', q) == {} ensures InstanceOwned(t'[q]) {
      assert forall p | p in ParentKeys(t, q) :: p in ParentKeys(t', q);
      assert ParentKeys(t, q) == {};
      assert q !in t ==> selected in ParentKeys(t', q);
    }
  }

  lemma PlacedKinds(t: Table, c: IPClaim, selected: Prefix, free: Prefix)
    requires Found(t, c, selected, free)
    ensures var t' := Allocate(t, c, selected, free);
            WellFormed(t') && forall p {:trigger KnownKind(t'[p])} | p in t' :: KnownKind(t'[p])
  {
    var t' := Allocate(t, c, selected, free);
    AllocationFrame(t, c, selected, free.len, free);
    hide Allocate, Available, IsMasked;
    forall p | p in t' ensures IsMasked(p) && KnownKind(t'[p]) {
      if p in t {
        assert IsMasked(p) && KnownKind(t[p]);
      } else {
        Placed(t, c, selected, free, p);
      }
    }
  }

  lemma HostedIsLegal(t: Table, c: IPClaim, selected: Prefix, free: Prefix)
    requires Found(t, c, selected, free) && MayHost(t[selected], c, free)
    ensures Legal(Allocate(t, c, selected, free))
  {
    var t' := Allocate(t, c, selected, free);
    PlacedKinds(t, c, selected, free);
    PlacedHosts(t, c, selected, free);
    PlacedRoots(t, c, selected, free);
    hide Allocate, Found, MayHost, MayContain, HostsHaveSubnets, RootsAreInstances, KnownKind, WellFormed, Inside;
    forall p, q | p in t' && q in t' && Inside(q, p) ensures MayContain(t'[p], q, t'[q]) {
      PlacedNests(t, c, selected, free, p, q);
    }
  }

  /** A host route without a subnet of its own needs a network around it. */
  lemma HostNeedsNetwork(t: Table, c: IPClaim, selected: Prefix, free: Prefix, q: Prefix)
    requires Found(t, c, selected, free) && HasKind(t[selected], Aggregate)
    requires c.kind.Network? && !BringsSubnet(c, free)
    requires q in Allocate(t, c, selected, free) && q !in t
    ensures !HasSubnet(Allocate(t, c, selected, free), q)
  {
    var t' := Allocate(t, c, selected, free);
    AllocationFrame(t, c, selected, free.len, free);
    hide Allocate, Available;
    Placed(t, c, selected, free, q);
    forall s | s in t' && Inside(q, s) ensures !HasKind(t'[s], Network) {
      if s in t {
        AroundSelected(t, selected, s);
      } else {
        Placed(t, c, selected, free, s);
        assert false;
      }
    }
  }

  lemma LegalIsHosted(t: Table, c: IPClaim, selected: Prefix, free: Prefix)
    requires Found(t, c, selected, free) && Legal(Allocate(t, c, selected, free))
    ensures MayHost(t[selected], c, free)
  {
    var t' := Allocate(t, c, selected, free);
    var rs := Expand(c, AllocatedInfo(c, selected, free));
    AllocationFrame(t, c, selected, free.len, free);
    BroughtSubnet(c, selected, free);
    assert rs[0] in rs && rs[0].prefix in PrefixesOf(rs);
    var q := if BringsSubnet(c, free) then free else rs[0].prefix;
    hide Allocate, Available, Expand;
    Placed(t, c, selected, free, q);
    assert MayContain(t'[selected], q, t'[q]) && KnownKind(t[selected]);
    if HasKind(t[selected], Aggregate) && c.kind.Network? && !BringsSubnet(c, free) {
      assert IsHostRoute(t', q) && HasSubnet(t', q);
      HostNeedsNetwork(t, c, selected, free, q);
    }
  }

  /** A block taken out of a route keeps the hierarchy legal if and only if the route is
      an aggregate, and the claim brings a subnet when it is for a network; or both are
      pools; or the claim takes a single address out of a network of its own name. */
  lemma AllocationLegalIff(t: Table, c: IPClaim, selected: Prefix, free: Prefix)
    requires Found(t, c, selected, free)
    ensures Legal(Allocate(t, c, selected, free)) <==> MayHost(t[selected], c, free)
  {
    hide Allocate, MayHost, Legal;
    if MayHost(t[selected], c, free) {
      HostedIsLegal(t, c, selected, free);
    }
    if Legal(Allocate(t, c, selected, free)) {
      LegalIsHosted(t, c, selected, free);
    }
  }

  lemma OnlyRoute(c: IPClaim, p: Prefix, l: Labels, n: nat)
    requires Matches(c.SelectorLabels(), l) && c.prefixLength == Some(n) && p.len < n && !FullLength(n)
    ensures ServedFrom(map[p := l], c, n, Some(Route(p, l)))
  {
    var t, rs := map[p := l], [Route(p, l)];
    assert MatchKeys(t, c.SelectorLabels()) == {p};
    assert rs[0] == Route(p, l) && Enumerates(rs, t, {p});
    assert FirstFit(c, rs, Shorter(n), Some(rs[0]));
  }

  /** A pool taken out of a network: the selection takes any matching route that is
      shorter than the request, and the table is not legal afterwards. */
  lemma PoolOutOfNetwork(c: IPClaim, p: Prefix, l: Labels, free: Prefix)
    requires c.Named() && c.kind.Pool? && c.createPrefix.Some?
    requires c.prefixLength == Some(free.len) && !FullLength(free.len) && Matches(c.SelectorLabels(), l)
    requires IsMasked(p) && IsMasked(free) && Covers(p, free) && p.len < free.len
    requires HasKind(l, Network) && InstanceOwned(l)
    ensures Legal(map[p := l]) && Available(map[p := l], p, free.len, free)
    ensures ServedFrom(map[p := l], c, free.len, Some(Route(p, l)))
    ensures !Legal(Allocate(map[p := l], c, p, free))
  {
    var t := map[p := l];
    OnlyRoute(c, p, l, free.len);
    assert KnownKind(t[p]) && Legal(t);
    assert ChildKeys(t, p) == {};
    hide Allocate, Legal, ServedFrom;
    AllocationLegalIff(t, c, p, free);
  }
}
