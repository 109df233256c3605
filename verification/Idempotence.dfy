/** What an update makes of the table, and that updating a claim twice is updating
    it once. */
module Idempotence {
  import opened Prefixes
  import opened Claims
  import opened Wrappers
  import opened RoutingTable
  import opened Expansion
  import opened Updates
  import opened Hierarchy

  /** Which prefix comes where in a listing depends on the prefixes only. */
  lemma {:induction false} ListingOrder(t: Table, t': Table, keys: set<Prefix>)
    requires keys <= t.Keys && keys <= t'.Keys
    ensures |Listing(t, keys)| == |Listing(t', keys)|
    ensures forall i | 0 <= i < |Listing(t, keys)| ::
              Listing(t, keys)[i].prefix == Listing(t', keys)[i].prefix
    decreases |keys|
  {
    if keys != {} {
      ListingOrder(t, t', keys - {Least(keys)});
    }
  }

  /** Updated labels depend on the table through the parents only. */
  lemma SameParentsSameLabels(t: Table, t': Table, c: IPClaim, p: Prefix, nearestFirst: bool)
    requires c.kind.Network? && IsAddressPrefix(p) ==> ParentKeys(t, p) == ParentKeys(t', p)
    ensures UpdatedLabels(t, c, p, nearestFirst) == UpdatedLabels(t', c, p, nearestFirst)
  {
    hide Listing, RouteLabels, WithoutGateway, SubnetName, First, Last;
    if c.kind.Network? && IsAddressPrefix(p) {
      ListingOrder(t, t', ParentKeys(t, p));
    }
  }

  /** No route between an own host route and the top is foreign and inside an own
      route, so eviction never touches the parents of an own host route. */
  lemma EvictKeepsParents(t: Table, c: IPClaim, r: Prefix, p: Prefix)
    requires Legal(t) && Compatible(t, c) && c.Named()
    requires r in OwnKeys(t, c) && p in OwnKeys(t, c)
    requires c.kind.Network? && IsAddressPrefix(p)
    ensures ParentKeys(t - ForeignKeys(t, c, r), p) == ParentKeys(t, p)
  {
    OwnIsNotForeign(c, t[p]);
    OwnIsNotForeign(c, t[r]);
    assert IsHostRoute(t, p);
    assert HasSubnet(t, p);
    var s :| s in t && Inside(p, s) && HasKind(t[s], Network);
    assert MayContain(t[s], p, t[p]);
    assert Inside(s, r) ==> MayContain(t[r], s, t[s]);
    forall d | d in ParentKeys(t, p) ensures d !in ForeignKeys(t, c, r) {
      AncestorsComparable(s, d, p);
      assert s.len < d.len ==> MayContain(t[s], d, t[d]);
      if s.len == d.len {
        CoversSameLength(s, d);
      } else if Inside(d, r) && d.len < s.len {
        CoversTransitive(r, d, s);
        assert false;
      }
    }
  }

  /** One step of a walk leaves the updated labels of every own route what they
      were. */
  lemma UpdateStepStable(st: State, c: IPClaim, m: Mode, r: Route, q: Prefix)
    requires Legal(st.table) && Compatible(st.table, c) && c.Named()
    requires r.prefix in OwnKeys(st.table, c) && q in OwnKeys(st.table, c)
    ensures UpdatedLabels(UpdateStep(st, c, m, r).table, c, q, m.nearestFirst) ==
            UpdatedLabels(st.table, c, q, m.nearestFirst)
  {
    var t, p := st.table, r.prefix;
    var l := UpdatedLabels(t, c, p, m.nearestFirst);
    var t1 := t[p := l];
    var t' := UpdateStep(st, c, m, r).table;
    UpdateStepTable(st, c, m, r);
    if c.kind.Network? && IsAddressPrefix(q) {
      UpdatedLabelsOwned(t, c, p, m.nearestFirst);
      RelabelKeeps(t, c, p, l);
      EvictKeepsParents(t1, c, p, q);
      assert ParentKeys(t1, q) == ParentKeys(t, q);
    }
    SameParentsSameLabels(t, t', c, q, m.nearestFirst);
  }

  /** One step gives its route the updated labels and touches no other own one. */
  lemma UpdateStepValues(st: State, c: IPClaim, m: Mode, r: Route, q: Prefix)
    requires c.Named() && r.prefix in OwnKeys(st.table, c) && q in OwnKeys(st.table, c)
    requires r.labels == st.table[r.prefix]
    ensures var t' := UpdateStep(st, c, m, r).table;
            && q in t'
            && t'[q] == if q == r.prefix then UpdatedLabels(st.table, c, q, m.nearestFirst) else st.table[q]
  {
    OwnIsNotForeign(c, st.table[q]);
    UpdatedLabelsOwned(st.table, c, r.prefix, m.nearestFirst);
    UpdateStepCases(st, c, m, r);
    hide UpdateStep, UpdatedLabels, Inside;
  }

  lemma UpdateStepCases(st: State, c: IPClaim, m: Mode, r: Route)
    ensures var l, t' := UpdatedLabels(st.table, c, r.prefix, m.nearestFirst), UpdateStep(st, c, m, r).table;
            if l == r.labels then t' == st.table
            else var t1 := st.table[r.prefix := l]; t' == t1 || t' == t1 - ForeignKeys(t1, c, r.prefix)
  {
    hide UpdatedLabels, ParentInfo, ForeignKeys, Listing;
  }

  /** The claim's routes in `done` carry their updated labels, the others those
      of the start, and what the updated labels are has not changed. */
  ghost predicate Settled(t: Table, t': Table, c: IPClaim, m: Mode, done: set<Prefix>) {
    && Legal(t') && Compatible(t', c) && OwnKeys(t', c) == OwnKeys(t, c)
    && (forall q | q in OwnKeys(t, c) ::
          && t'[q] == (if q in done then UpdatedLabels(t, c, q, m.nearestFirst) else t[q])
          && UpdatedLabels(t', c, q, m.nearestFirst) == UpdatedLabels(t, c, q, m.nearestFirst))
  }

  lemma UpdateStepSettles(t: Table, st: State, c: IPClaim, m: Mode, done: set<Prefix>, r: Route)
    requires c.Named() && r.prefix in OwnKeys(t, c) && r.prefix !in done
    requires r.labels == t[r.prefix]
    requires Settled(t, st.table, c, m, done)
    ensures Settled(t, UpdateStep(st, c, m, r).table, c, m, done + {r.prefix})
  {
    UpdateStepKeeps(st, c, m, r);
    forall q | q in OwnKeys(t, c)
      ensures var t' := UpdateStep(st, c, m, r).table;
              && q in t'
              && t'[q] == (if q in done + {r.prefix} then UpdatedLabels(t, c, q, m.nearestFirst) else t[q])
              && UpdatedLabels(t', c, q, m.nearestFirst) == UpdatedLabels(t, c, q, m.nearestFirst)
    {
      UpdateStepStable(st, c, m, r, q);
      UpdateStepValues(st, c, m, r, q);
    }
  }

  lemma LastIsNew(rs: seq<Route>)
    requires rs != [] && DistinctPrefixes(rs)
    ensures var init, r := rs[..|rs| - 1], rs[|rs| - 1];
            && PrefixesOf(rs) == PrefixesOf(init) + {r.prefix}
            && r.prefix !in PrefixesOf(init) && DistinctPrefixes(init)
            && r in rs && forall d | d in init :: d in rs
  {
    var init, r := rs[..|rs| - 1], rs[|rs| - 1];
    assert rs == init + [r];
    forall d | d in init ensures d.prefix != r.prefix {
      var i :| 0 <= i < |init| && init[i] == d;
      assert rs[i] == d;
    }
  }

  lemma {:induction false} UpdateAllSettles(t: Table, c: IPClaim, m: Mode, pi: Option<Prefix>, rs: seq<Route>)
    requires Legal(t) && Compatible(t, c) && c.Named()
    requires forall r | r in rs :: r.prefix in OwnKeys(t, c) && r.labels == t[r.prefix]
    requires DistinctPrefixes(rs)
    ensures Settled(t, UpdateAll(State(t, pi, []), c, m, rs).table, c, m, PrefixesOf(rs))
    decreases |rs|
  {
    if rs == [] {
      assert PrefixesOf(rs) == {};
    } else {
      var init, r := rs[..|rs| - 1], rs[|rs| - 1];
      LastIsNew(rs);
      UpdateAllSettles(t, c, m, pi, init);
      UpdateStepSettles(t, UpdateAll(State(t, pi, []), c, m, init), c, m, PrefixesOf(init), r);
    }
  }

  /** A walk over routes that carry their updated labels already does nothing. */
  lemma {:induction false} SettledWalk(st: State, c: IPClaim, m: Mode, rs: seq<Route>)
    requires forall r | r in rs :: r.labels == UpdatedLabels(st.table, c, r.prefix, m.nearestFirst)
    ensures var st' := UpdateAll(st, c, m, rs);
            st'.table == st.table && st'.reports == st.reports
    decreases |rs|
  {
    if rs != [] {
      var init, r := rs[..|rs| - 1], rs[|rs| - 1];
      assert r in rs && forall d | d in init :: d in rs;
      SettledWalk(st, c, m, init);
    }
  }

  /** After an update, a second one of the same claim changes no label, deletes
      no route and reports nothing, whatever the order of either walk. */
  lemma UpdateTwice(t: Table, c: IPClaim, m: Mode, pi: Option<Prefix>, rs: seq<Route>,
                    pi2: Option<Prefix>, reports: seq<seq<Route>>, again: seq<Route>)
    requires Legal(t) && Compatible(t, c) && c.Named()
    requires Enumerates(rs, t, OwnKeys(t, c))
    requires var t' := UpdateAll(State(t, pi, []), c, m, rs).table;
             Enumerates(again, t', OwnKeys(t', c))
    ensures var t' := UpdateAll(State(t, pi, []), c, m, rs).table;
            var st := UpdateAll(State(t', pi2, reports), c, m, again);
            st.table == t' && st.reports == reports
  {
    var t' := UpdateAll(State(t, pi, []), c, m, rs).table;
    UpdateAllSettles(t, c, m, pi, rs);
    EnumeratesPrefixes(rs, t, OwnKeys(t, c));
    SettledWalk(State(t', pi2, reports), c, m, again);
  }

  // ---------------------------------------------------------------------
  // The outcome of an update
  // ---------------------------------------------------------------------

  /** The route lies inside one of `done` whose labels the update changes. */
  ghost predicate Displaced(t: Table, c: IPClaim, nearestFirst: bool, done: set<Prefix>, q: Prefix)
    requires done <= t.Keys
  {
    exists p | p in done :: Inside(q, p) && t[p] != UpdatedLabels(t, c, p, nearestFirst)
  }

  lemma DisplacedStep(t: Table, c: IPClaim, nearestFirst: bool, done: set<Prefix>, p: Prefix, q: Prefix)
    requires done <= t.Keys && p in t
    ensures Displaced(t, c, nearestFirst, done + {p}, q) <==>
            || Displaced(t, c, nearestFirst, done, q)
            || (Inside(q, p) && t[p] != UpdatedLabels(t, c, p, nearestFirst))
  {
    hide UpdatedLabels, Inside;
    if Inside(q, p) && t[p] != UpdatedLabels(t, c, p, nearestFirst) {
      assert p in done + {p};
    }
    if Displaced(t, c, nearestFirst, done, q) {
      var d :| d in done && Inside(q, d) && t[d] != UpdatedLabels(t, c, d, nearestFirst);
      assert d in done + {p};
    }
  }

  /** What a walk over `done` made of a foreign route: gone and reported once, or
      there with its labels and not reported. */
  ghost predicate Decided(t: Table, c: IPClaim, m: Mode, done: set<Prefix>, st: State, q: Prefix)
    requires done <= t.Keys && q in t
  {
    && (q in st.table <==> !Displaced(t, c, m.nearestFirst, done, q))
    && (q in st.table ==> st.table[q] == t[q])
    && TimesReported(st.reports, q) == if q in st.table then 0 else 1
  }

  /** The walk works on a prefix that is not a single address. */
  ghost predicate OnSubnet(st: State) {
    st.pi.Some? && !IsAddressPrefix(st.pi.value)
  }

  lemma UpdateStepOnSubnet(st: State, c: IPClaim, m: Mode, r: Route)
    requires OnSubnet(st)
    ensures OnSubnet(UpdateStep(st, c, m, r))
    ensures var info := ParentInfo(st.table, c, r.prefix, m.nearestFirst);
            info.Some? ==> !IsAddressPrefix(info.value)
  {
    hide UpdatedLabels, Listing;
    var parents := ParentList(st.table, r.prefix, m.nearestFirst);
    if ParentInfo(st.table, c, r.prefix, m.nearestFirst).Some? {
      ParentListEnumerates(st.table, r.prefix, m.nearestFirst);
      assert parents[0] in parents;
      assert parents[0].prefix in ParentKeys(st.table, r.prefix);
    }
  }

  /** One step outside initialization: nothing, or new labels and an eviction. */
  lemma UpdateStepOutcome(st: State, c: IPClaim, m: Mode, r: Route)
    requires OnSubnet(st) && c.createPrefix.Some? && !m.initializing
    ensures var p, l := r.prefix, UpdatedLabels(st.table, c, r.prefix, m.nearestFirst);
            var st' := UpdateStep(st, c, m, r);
            if l == r.labels then st'.table == st.table && st'.reports == st.reports
            else
              var t1 := st.table[p := l];
              && st'.table == t1 - ForeignKeys(t1, c, p)
              && st'.reports == st.reports + [Listing(t1, ForeignKeys(t1, c, p))]
  {
    UpdateStepOnSubnet(st, c, m, r);
    hide UpdatedLabels, Listing, ForeignKeys, ParentInfo;
  }

  /** Relabelling a route and evicting what is inside it takes a foreign route exactly
      when it is inside, and reports it then. */
  lemma {:induction false} EvictDecides(st: State, c: IPClaim, p: Prefix, l: Labels, q: Prefix, k: Labels)
    requires q != p && c.Foreign(k) && (q in st.table ==> st.table[q] == k)
    requires TimesReported(st.reports, q) == if q in st.table then 0 else 1
    ensures var t1 := st.table[p := l];
            var gone := ForeignKeys(t1, c, p);
            && (q in t1 - gone <==> q in st.table && !Inside(q, p))
            && (q in t1 - gone ==> (t1 - gone)[q] == k)
            && TimesReported(st.reports + [Listing(t1, gone)], q) == if q in t1 - gone then 0 else 1
  {
    var t1 := st.table[p := l];
    var gone := ForeignKeys(t1, c, p);
    TimesReportedAppend(st.reports, Listing(t1, gone), q);
    ListingOccurs(t1, gone, q);
  }

  lemma UpdateStepDecides(t: Table, c: IPClaim, m: Mode, done: set<Prefix>, st: State, r: Route, q: Prefix)
    requires c.createPrefix.Some? && !m.initializing && OnSubnet(st)
    requires done <= t.Keys && r.prefix in t && r.labels == t[r.prefix] && q in t && q != r.prefix
    requires UpdatedLabels(st.table, c, r.prefix, m.nearestFirst) == UpdatedLabels(t, c, r.prefix, m.nearestFirst)
    requires c.Foreign(t[q]) && Decided(t, c, m, done, st, q)
    ensures Decided(t, c, m, done + {r.prefix}, UpdateStep(st, c, m, r), q)
  {
    var p := r.prefix;
    UpdateStepOutcome(st, c, m, r);
    DisplacedStep(t, c, m.nearestFirst, done, p, q);
    EvictDecides(st, c, p, UpdatedLabels(t, c, p, m.nearestFirst), q, t[q]);
    hide UpdateStep, UpdatedLabels, Displaced, Listing, Inside, TimesReported, ForeignKeys;
  }

  /** A walk over some of the claim's routes has decided every foreign route. */
  lemma {:induction false} UpdateAllDecides(t: Table, c: IPClaim, m: Mode, pi: Option<Prefix>, rs: seq<Route>)
    requires Legal(t) && Compatible(t, c) && c.Named() && c.createPrefix.Some? && !m.initializing
    requires OnSubnet(State(t, pi, []))
    requires forall r | r in rs :: r.prefix in OwnKeys(t, c) && r.labels == t[r.prefix]
    requires DistinctPrefixes(rs)
    ensures PrefixesOf(rs) <= t.Keys
    ensures var st := UpdateAll(State(t, pi, []), c, m, rs);
            && OnSubnet(st)
            && forall q | q in t && c.Foreign(t[q]) :: Decided(t, c, m, PrefixesOf(rs), st, q)
    decreases |rs|
  {
    if rs == [] {
      assert PrefixesOf(rs) == {};
    } else {
      var init, r := rs[..|rs| - 1], rs[|rs| - 1];
      LastIsNew(rs);
      UpdateAllDecides(t, c, m, pi, init);
      UpdateAllSettles(t, c, m, pi, init);
      var st := UpdateAll(State(t, pi, []), c, m, init);
      OwnIsNotForeign(c, t[r.prefix]);
      UpdateStepOnSubnet(st, c, m, r);
      hide Decided, OnSubnet, UpdateStep, UpdatedLabels, Legal, Compatible, PrefixesOf, DistinctPrefixes;
      forall q | q in t && c.Foreign(t[q])
        ensures Decided(t, c, m, PrefixesOf(rs), UpdateStep(st, c, m, r), q)
      {
        UpdateStepDecides(t, c, m, PrefixesOf(init), st, r, q);
      }
    }
  }

  /** Updating a created prefix outside initialization: the claim's routes get their
      updated labels, a route of another owner goes if and only if it lies inside one
      of them whose labels that changes, what stays keeps its labels, and each route
      that went was reported exactly once. */
  lemma UpdateOutcome(t: Table, c: IPClaim, m: Mode, pi: Prefix, rs: seq<Route>)
    requires Legal(t) && Compatible(t, c) && c.Named()
    requires c.createPrefix.Some? && !m.initializing && !IsAddressPrefix(pi)
    requires Enumerates(rs, t, OwnKeys(t, c))
    ensures var st := UpdateAll(State(t, Some(pi), []), c, m, rs);
            && st.table.Keys <= t.Keys && OwnKeys(st.table, c) == OwnKeys(t, c)
            && (forall p | p in OwnKeys(t, c) :: st.table[p] == UpdatedLabels(t, c, p, m.nearestFirst))
            && forall q | q in t && c.Foreign(t[q]) ::
                 && (q !in st.table <==>
                     exists p | p in OwnKeys(t, c) ::
                       Inside(q, p) && t[p] != UpdatedLabels(t, c, p, m.nearestFirst))
                 && (q in st.table ==> st.table[q] == t[q])
                 && TimesReported(st.reports, q) == if q in st.table then 0 else 1
  {
    EnumeratesPrefixes(rs, t, OwnKeys(t, c));
    UpdateAllKeeps(State(t, Some(pi), []), c, m, rs);
    UpdateAllSettles(t, c, m, Some(pi), rs);
    UpdateAllDecides(t, c, m, Some(pi), rs);
    hide UpdateAll, UpdatedLabels, Legal, Compatible, TimesReported, Enumerates, PrefixesOf;
    var st := UpdateAll(State(t, Some(pi), []), c, m, rs);
    forall q | q in t && c.Foreign(t[q])
      ensures q !in st.table <==>
              exists p | p in OwnKeys(t, c) :: Inside(q, p) && t[p] != UpdatedLabels(t, c, p, m.nearestFirst)
      ensures q in st.table ==> st.table[q] == t[q]
      ensures TimesReported(st.reports, q) == if q in st.table then 0 else 1
    {
      assert Decided(t, c, m, OwnKeys(t, c), st, q);
    }
  }
}
