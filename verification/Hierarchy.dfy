/** The hierarchy of prefixes over whole runs of created prefixes: what
    validation lets in, what updates and deletes leave behind, and that every
    route stays under a parent that is legal for its kind. */
module Hierarchy {
  import opened Prefixes
  import opened Claims
  import opened Wrappers
  import opened RoutingTable
  import opened Expansion
  import opened Validation
  import opened Updates

  // ---------------------------------------------------------------------
  // The invariant
  // ---------------------------------------------------------------------

  predicate KnownKind(l: Labels) {
    HasKind(l, Network) || HasKind(l, Loopback) || HasKind(l, Pool) || HasKind(l, Aggregate)
  }

  predicate SameName(l: Labels, k: Labels) {
    Lookup(l, NsnName) == Lookup(k, NsnName) && Lookup(l, NsnNamespace) == Lookup(k, NsnNamespace)
  }

  /** What may lie anywhere inside a route, by the kind of that route. */
  predicate MayContain(outer: Labels, q: Prefix, inner: Labels) {
    && (HasKind(outer, Network) ==>
          IsAddressPrefix(q) && HasKind(inner, Network) && SameName(outer, inner))
    && !HasKind(outer, Loopback)
    && (HasKind(outer, Pool) ==> HasKind(inner, Pool))
  }

  ghost predicate NestedLegally(t: Table) {
    forall p, q {:trigger MayContain(t[p], q, t[q])} | p in t && q in t && Inside(q, p) ::
      MayContain(t[p], q, t[q])
  }

  predicate IsHostRoute(t: Table, q: Prefix)
    requires q in t
  {
    IsAddressPrefix(q) && HasKind(t[q], Network)
  }

  ghost predicate HasSubnet(t: Table, q: Prefix) {
    exists p | p in t :: Inside(q, p) && HasKind(t[p], Network)
  }

  /** Host routes of a network have a subnet around them. */
  ghost predicate HostsHaveSubnets(t: Table) {
    forall q {:trigger HasSubnet(t, q)} | q in t && IsHostRoute(t, q) :: HasSubnet(t, q)
  }

  /** Routes at the top belong to a network instance. */
  ghost predicate RootsAreInstances(t: Table) {
    forall q {:trigger ParentKeys(t, q)} | q in t && ParentKeys(t, q) == {} ::
      InstanceOwned(t[q])
  }

  ghost predicate Legal(t: Table) {
    && WellFormed(t)
    && (forall p {:trigger KnownKind(t[p])} | p in t :: KnownKind(t[p]))
    && NestedLegally(t)
    && HostsHaveSubnets(t)
    && RootsAreInstances(t)
  }

  // ---------------------------------------------------------------------
  // What the invariant means for parents
  // ---------------------------------------------------------------------

  /** The legal parents of each kind: aggregates under aggregates, pools under
      aggregates or pools, loopbacks and network subnets under aggregates, host
      routes of a network under a subnet of the same claim. */
  predicate LegalParent(q: Prefix, inner: Labels, outer: Labels) {
    && (HasKind(inner, Aggregate) || HasKind(inner, Loopback) ==> HasKind(outer, Aggregate))
    && (HasKind(inner, Pool) ==> HasKind(outer, Aggregate) || HasKind(outer, Pool))
    && (HasKind(inner, Network) && !IsAddressPrefix(q) ==> HasKind(outer, Aggregate))
    && (HasKind(inner, Network) && IsAddressPrefix(q) ==>
          HasKind(outer, Network) && SameName(outer, inner))
  }

  /** In a legal table every nearest parent is legal and every route without
      parents belongs to a network instance. */
  lemma NearestParentsLegal(t: Table, q: Prefix)
    requires Legal(t) && q in t
    ensures forall p: Prefix | NearestParent(t, q, p) :: LegalParent(q, t[q], t[p])
    ensures ParentKeys(t, q) == {} ==> InstanceOwned(t[q])
  {
    forall p: Prefix | NearestParent(t, q, p) ensures LegalParent(q, t[q], t[p]) {
      assert KnownKind(t[p]);
      assert MayContain(t[p], q, t[q]);
      if IsHostRoute(t, q) {
        assert HasSubnet(t, q);
        var s :| s in t && Inside(q, s) && HasKind(t[s], Network);
        NearestParentInnermost(t, q, p, s);
        assert s.len < p.len ==> MayContain(t[s], p, t[p]);
        CoversSameLength(s, p);
      }
    }
  }

  // ---------------------------------------------------------------------
  // Insertion
  // ---------------------------------------------------------------------

  /** Every parent of an accepted new prefix is an aggregate, or a pool when the
      claim is for a pool: the check of the nearest one reaches all of them. */
  lemma AcceptedParents(t: Table, c: IPClaim, pi: Prefix, p: Prefix)
    requires Legal(t) && c.createPrefix.Some?
    requires ValidateInput(c, Some(pi)).Accepted? && AcceptsNew(t, c, pi)
    requires p in ParentKeys(t, Masked(pi))
    ensures HasKind(t[p], Aggregate) || (c.kind.Pool? && HasKind(t[p], Pool))
  {
    var s := Masked(pi);
    var n := LongestExists(ParentKeys(t, s));
    assert NearestParent(t, s, n);
    NearestParentInnermost(t, s, n, p);
    if p != n {
      if p.len == n.len {
        CoversSameLength(p, n);
      }
      assert MayContain(t[p], n, t[n]) && KnownKind(t[p]);
    }
  }

  /** Looking at the first child is enough: below an accepted prefix that is not
      an aggregate there is nothing at all. */
  lemma NothingBelow(t: Table, c: IPClaim, pi: Prefix)
    requires Legal(t) && c.createPrefix.Some? && !c.kind.Aggregate?
    requires ValidateInput(c, Some(pi)).Accepted?
    requires Masked(pi) !in t && AcceptsNew(t, c, pi)
    ensures ChildKeys(t, Masked(pi)) == {}
  {
    var s := Masked(pi);
    MaskedCovers(pi);
    if ChildKeys(t, s) != {} {
      var h := Least(ChildKeys(t, s));
      assert IsHostRoute(t, h);
      assert HasSubnet(t, h);
      var p :| p in t && Inside(h, p) && HasKind(t[p], Network);
      AncestorsComparable(s, p, h);
      if Covers(s, p) && s.len < p.len {
        assert p in ChildKeys(t, s);
        AncestorFirst(p, h);
        assert false;
      }
      if s.len == p.len {
        CoversSameLength(s, p);
        assert false;
      }
      AcceptedParents(t, c, pi, p);
      assert false;
    }
  }

  /** The first-child check is as strong as checking every child. */
  lemma FirstChildSuffices(t: Table, c: IPClaim, pi: Prefix)
    requires Legal(t) && c.createPrefix.Some?
    requires ValidateInput(c, Some(pi)).Accepted?
    requires Masked(pi) !in t && AcceptsNew(t, c, pi)
    ensures forall q | q in ChildKeys(t, Masked(pi)) ::
              ValidateChildrenExist(Route(q, t[q]), c.kind).Accepted?
  {
    if !c.kind.Aggregate? {
      NothingBelow(t, c, pi);
    }
  }

  /** Old and new routes of an accepted claim nest legally. */
  lemma InsertNests(t: Table, c: IPClaim, pi: Prefix, p: Prefix, q: Prefix)
    requires Legal(t) && c.createPrefix.Some? && c.Named()
    requires ValidateInput(c, Some(pi)).Accepted?
    requires Masked(pi) !in t && AcceptsNew(t, c, pi)
    requires var t' := AddRoutes(t, Expand(c, pi)); p in t' && q in t'
    requires Inside(q, p)
    ensures var t' := AddRoutes(t, Expand(c, pi)); MayContain(t'[p], q, t'[q])
  {
    var rs, s := Expand(c, pi), Masked(pi);
    var t' := AddRoutes(t, rs);
    AddRoutesFrame(t, rs);
    MaskedCovers(pi);
    if p in t && q in t {
      assert MayContain(t[p], q, t[q]);
    } else if p !in t {
      NewRoute(c, pi, Route(p, t'[p]));
      assert p == s;
      if q in t {
        assert q in ChildKeys(t, s);
        if !c.kind.Aggregate? {
          NothingBelow(t, c, pi);
          assert false;
        }
      } else {
        NewRoute(c, pi, Route(q, t'[q]));
      }
    } else {
      NewRoute(c, pi, Route(q, t'[q]));
      NewRouteAbove(t, c, pi, p, q);
      AcceptedParents(t, c, pi, p);
    }
  }

  /** A route of a claim: the subnet itself or a host route of a network. */
  lemma NewRoute(c: IPClaim, pi: Prefix, r: Route)
    requires c.createPrefix.Some? && c.Named() && ValidateInput(c, Some(pi)).Accepted?
    requires r in Expand(c, pi)
    ensures r.prefix == Masked(pi) || (c.kind.Network? && IsAddressPrefix(r.prefix) && Inside(r.prefix, Masked(pi)))
    ensures HasKind(r.labels, c.kind) && c.Owns(r.labels) && IsMasked(r.prefix)
    ensures SameName(r.labels, c.labels) && Lookup(r.labels, OwnerGvk) == Lookup(c.labels, OwnerGvk)
  {
    ExpansionLies(c, pi, r);
    RouteLabelsOwned(c, pi, r.labels);
    OwnIsNotForeign(c, r.labels);
    MaskedCovers(pi);
    CoversTransitive(Masked(pi), pi, r.prefix);
  }

  /** An old route around a new one is a parent of the claimed subnet. */
  lemma NewRouteAbove(t: Table, c: IPClaim, pi: Prefix, p: Prefix, q: Prefix)
    requires Legal(t) && c.createPrefix.Some?
    requires ValidateInput(c, Some(pi)).Accepted?
    requires Masked(pi) !in t && AcceptsNew(t, c, pi)
    requires p in t && Inside(q, p) && Covers(Masked(pi), q)
    requires q == Masked(pi) || c.kind.Network?
    ensures p in ParentKeys(t, Masked(pi))
  {
    var s := Masked(pi);
    MaskedCovers(pi);
    if q != s {
      AncestorsComparable(p, s, q);
      if s.len == p.len {
        CoversSameLength(s, p);
      }
      if s.len < p.len {
        assert p in ChildKeys(t, s);
        NothingBelow(t, c, pi);
      }
    }
  }

  lemma InsertHosts(t: Table, c: IPClaim, pi: Prefix)
    requires Legal(t) && c.createPrefix.Some? && c.Named()
    requires Masked(pi) !in t && Accepts(t, c, pi)
    ensures HostsHaveSubnets(AddRoutes(t, Expand(c, pi)))
  {
    var rs, s := Expand(c, pi), Masked(pi);
    var t' := AddRoutes(t, rs);
    AddRoutesFrame(t, rs);
    ExpansionHasSubnet(c, pi);
    forall q | q in t' && IsHostRoute(t', q) ensures HasSubnet(t', q) {
      if q in t {
        assert HasSubnet(t, q);
        var p :| p in t && Inside(q, p) && HasKind(t[p], Network);
        assert p in t' && t'[p] == t[p];
      } else {
        NewRoute(c, pi, Route(q, t'[q]));
        NewRoute(c, pi, Route(s, t'[s]));
        assert s in t' && Inside(q, s);
      }
    }
  }

  lemma InsertRoots(t: Table, c: IPClaim, pi: Prefix)
    requires Legal(t) && c.createPrefix.Some? && c.Named()
    requires Masked(pi) !in t && Accepts(t, c, pi)
    ensures RootsAreInstances(AddRoutes(t, Expand(c, pi)))
  {
    var rs, s := Expand(c, pi), Masked(pi);
    var t' := AddRoutes(t, rs);
    AddRoutesFrame(t, rs);
    ExpansionHasSubnet(c, pi);
    forall q | q in t' && ParentKeys(t', q) == {} ensures InstanceOwned(t'[q]) {
      assert forall p | p in ParentKeys(t, q) :: p in ParentKeys(t', q);
      assert ParentKeys(t, q) == {};
      if q !in t {
        NewRoute(c, pi, Route(q, t'[q]));
        assert q != s ==> s in ParentKeys(t', q);
      }
    }
  }

  /** An accepted new prefix keeps the table legal. */
  lemma InsertKeepsLegal(t: Table, c: IPClaim, pi: Prefix)
    requires Legal(t) && c.createPrefix.Some? && c.Named()
    requires Masked(pi) !in t && Accepts(t, c, pi)
    ensures Legal(AddRoutes(t, Expand(c, pi)))
  {
    InsertKinds(t, c, pi);
    InsertNestsAll(t, c, pi);
    InsertHosts(t, c, pi);
    InsertRoots(t, c, pi);
    hide Accepts, WellFormed, NestedLegally, HostsHaveSubnets, RootsAreInstances, Expand, AddRoutes;
  }

  lemma InsertKinds(t: Table, c: IPClaim, pi: Prefix)
    requires Legal(t) && c.createPrefix.Some? && c.Named()
    requires Masked(pi) !in t && Accepts(t, c, pi)
    ensures var t' := AddRoutes(t, Expand(c, pi));
            WellFormed(t') && forall p {:trigger KnownKind(t'[p])} | p in t' :: KnownKind(t'[p])
  {
    assert WellFormed(t) && forall p {:trigger KnownKind(t[p])} | p in t :: KnownKind(t[p]);
    assert ValidateInput(c, Some(pi)).Accepted?;
    var rs, t' := Expand(c, pi), AddRoutes(t, Expand(c, pi));
    forall r | r in rs ensures IsMasked(r.prefix) && KnownKind(r.labels) {
      NewRouteKnown(c, pi, r);
    }
    hide Legal, Accepts, Expand, AddRoutes, ValidateInput, IsMasked, KnownKind;
    AddRoutesFrame(t, rs);
    forall p | p in t' ensures IsMasked(p) && KnownKind(t'[p]) {
      if p in t {
        assert IsMasked(p) && KnownKind(t[p]);
      } else {
        assert Route(p, t'[p]) in rs;
      }
    }
  }

  lemma NewRouteKnown(c: IPClaim, pi: Prefix, r: Route)
    requires c.createPrefix.Some? && c.Named() && ValidateInput(c, Some(pi)).Accepted?
    requires r in Expand(c, pi)
    ensures IsMasked(r.prefix) && KnownKind(r.labels)
  {
    NewRoute(c, pi, r);
  }

  lemma InsertNestsAll(t: Table, c: IPClaim, pi: Prefix)
    requires Legal(t) && c.createPrefix.Some? && c.Named()
    requires Masked(pi) !in t && Accepts(t, c, pi)
    ensures NestedLegally(AddRoutes(t, Expand(c, pi)))
  {
    var t' := AddRoutes(t, Expand(c, pi));
    assert ValidateInput(c, Some(pi)).Accepted? && AcceptsNew(t, c, pi);
    hide Expand, AddRoutes, Legal, Accepts, AcceptsNew, ValidateInput;
    forall p, q | p in t' && q in t' && Inside(q, p) ensures MayContain(t'[p], q, t'[q]) {
      InsertNests(t, c, pi, p, q);
    }
  }

  // ---------------------------------------------------------------------
  // Relabelling and removal
  // ---------------------------------------------------------------------

  /** New labels of the same kind, name and owner kind keep the table legal. */
  lemma RelabelKeepsLegal(t: Table, p: Prefix, l: Labels)
    requires Legal(t) && p in t
    requires Lookup(l, PrefixKindKey) == Lookup(t[p], PrefixKindKey)
    requires SameName(l, t[p]) && Lookup(l, OwnerGvk) == Lookup(t[p], OwnerGvk)
    ensures Legal(t[p := l])
  {
    var t' := t[p := l];
    forall q | q in t' ensures IsMasked(q) && KnownKind(t'[q]) {
      assert KnownKind(t[q]) && IsMasked(q);
    }
    forall a, b | a in t' && b in t' && Inside(b, a) ensures MayContain(t'[a], b, t'[b]) {
      assert MayContain(t[a], b, t[b]);
    }
    forall q | q in t' && IsHostRoute(t', q)
      ensures HasSubnet(t', q)
    {
      assert HasSubnet(t, q);
      var s :| s in t && Inside(q, s) && HasKind(t[s], Network);
      assert s in t' && HasKind(t'[s], Network);
    }
    forall q | q in t' && ParentKeys(t', q) == {}
      ensures InstanceOwned(t'[q])
    {
      assert ParentKeys(t, q) == ParentKeys(t', q);
    }
  }

  /** Removing routes that drag everything of their own name and keep a common
      survivor around them keeps the table legal. */
  lemma EvictKeepsLegal(t: Table, c: IPClaim, p: Prefix)
    requires Legal(t) && p in t && !c.Foreign(t[p])
    ensures Legal(t - ForeignKeys(t, c, p))
  {
    var t' := t - ForeignKeys(t, c, p);
    forall q | q in t' ensures IsMasked(q) && KnownKind(t'[q]) {
      assert KnownKind(t[q]) && IsMasked(q);
    }
    forall a, b | a in t' && b in t' && Inside(b, a) ensures MayContain(t'[a], b, t'[b]) {
      assert MayContain(t[a], b, t[b]);
    }
    forall q | q in t' && IsHostRoute(t', q)
      ensures HasSubnet(t', q)
    {
      assert HasSubnet(t, q);
      var s :| s in t && Inside(q, s) && HasKind(t[s], Network);
      if s !in t' {
        assert MayContain(t[s], q, t[q]);
        CoversTransitive(p, s, q);
        assert false;
      }
      assert t'[s] == t[s];
    }
    forall q | q in t' && ParentKeys(t', q) == {}
      ensures InstanceOwned(t'[q])
    {
      if s :| s in ParentKeys(t, q) {
        assert s !in ParentKeys(t', q) && p !in ParentKeys(t', q);
        assert s in ForeignKeys(t, c, p);
        CoversTransitive(p, s, q);
        assert false;
      }
      assert ParentKeys(t, q) == {};
    }
  }

  lemma DeleteKeepsLegal(t: Table, c: IPClaim)
    requires Legal(t)
    ensures Legal(Remaining(t, c))
  {
    var t' := Remaining(t, c);
    forall q | q in t' ensures IsMasked(q) && KnownKind(t'[q]) {
      assert KnownKind(t[q]) && IsMasked(q);
    }
    forall a, b | a in t' && b in t' && Inside(b, a) ensures MayContain(t'[a], b, t'[b]) {
      assert MayContain(t[a], b, t[b]);
    }
    forall q | q in t' && IsHostRoute(t', q)
      ensures HasSubnet(t', q)
    {
      assert HasSubnet(t, q);
      var s :| s in t && Inside(q, s) && HasKind(t[s], Network);
      NothingOrphaned(t, c, q);
      assert s in ParentKeys(t, q);
      assert t'[s] == t[s];
    }
    forall q | q in t' && ParentKeys(t', q) == {}
      ensures InstanceOwned(t'[q])
    {
      NothingOrphaned(t, c, q);
    }
  }

  // ---------------------------------------------------------------------
  // Update walks
  // ---------------------------------------------------------------------

  /** The three tables one route of an update can lead to. */
  lemma UpdateStepTable(st: State, c: IPClaim, m: Mode, r: Route)
    ensures var t := st.table;
            var t1 := t[r.prefix := UpdatedLabels(t, c, r.prefix, m.nearestFirst)];
            UpdateStep(st, c, m, r).table in [t, t1, t1 - ForeignKeys(t1, c, r.prefix)]
  {
  }

  /** Relabelling an own route keeps what a claim relies on. */
  lemma RelabelKeeps(t: Table, c: IPClaim, p: Prefix, l: Labels)
    requires Legal(t) && Compatible(t, c) && c.Named()
    requires p in OwnKeys(t, c)
    requires HasKind(l, c.kind) && c.Owns(l)
    ensures var t' := t[p := l];
            Legal(t') && Compatible(t', c) && OwnKeys(t', c) == OwnKeys(t, c)
  {
    OwnIsNotForeign(c, t[p]);
    OwnIsNotForeign(c, l);
    RelabelKeepsLegal(t, p, l);
  }

  lemma EvictKeeps(t: Table, c: IPClaim, p: Prefix)
    requires Legal(t) && Compatible(t, c) && c.Named()
    requires p in OwnKeys(t, c)
    ensures var t' := t - ForeignKeys(t, c, p);
            Legal(t') && Compatible(t', c) && OwnKeys(t', c) == OwnKeys(t, c)
  {
    OwnIsNotForeign(c, t[p]);
    EvictKeepsLegal(t, c, p);
    var t' := t - ForeignKeys(t, c, p);
    forall q | q in OwnKeys(t, c) ensures q in OwnKeys(t', c) {
      OwnIsNotForeign(c, t[q]);
    }
  }

  /** One route of an update: legality, compatibility and the claim's own
      prefixes are kept, and no route appears. */
  lemma UpdateStepKeeps(st: State, c: IPClaim, m: Mode, r: Route)
    requires Legal(st.table) && Compatible(st.table, c) && c.Named()
    requires r.prefix in OwnKeys(st.table, c)
    ensures var t' := UpdateStep(st, c, m, r).table;
            && Legal(t') && Compatible(t', c)
            && OwnKeys(t', c) == OwnKeys(st.table, c)
            && t'.Keys <= st.table.Keys
  {
    var t, p := st.table, r.prefix;
    var l := UpdatedLabels(t, c, p, m.nearestFirst);
    UpdatedLabelsOwned(t, c, p, m.nearestFirst);
    RelabelKeeps(t, c, p, l);
    EvictKeeps(t[p := l], c, p);
    UpdateStepTable(st, c, m, r);
  }

  lemma {:induction false} UpdateAllKeeps(st: State, c: IPClaim, m: Mode, rs: seq<Route>)
    requires Legal(st.table) && Compatible(st.table, c) && c.Named()
    requires forall r | r in rs :: r.prefix in OwnKeys(st.table, c)
    ensures var t' := UpdateAll(st, c, m, rs).table;
            && Legal(t') && Compatible(t', c)
            && OwnKeys(t', c) == OwnKeys(st.table, c)
            && t'.Keys <= st.table.Keys
    decreases |rs|
  {
    if rs != [] {
      var init, r := rs[..|rs| - 1], rs[|rs| - 1];
      assert r in rs && forall d | d in init :: d in rs;
      UpdateAllKeeps(st, c, m, init);
      UpdateStepKeeps(UpdateAll(st, c, m, init), c, m, r);
    }
  }
}
