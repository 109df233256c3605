/** Updating and deleting the routes of a claim.  Both walk over the routes of
    the owner; a route that changes or goes takes the foreign routes inside it
    along and reports them to the watcher.

    The walks are given here as functions on tables, the applicator's methods
    are proved to compute them, and the properties of whole walks are proved of
    the functions. */
module Updates {
  import opened Prefixes
  import opened Claims
  import opened Wrappers
  import opened RoutingTable
  import opened Expansion

  /** What a walk changes: the table, the applicator's prefix and the lists
      handed to the watcher. */
  datatype State = State(table: Table, pi: Option<Prefix>, reports: seq<seq<Route>>)

  /** How a walk runs: whether the backend is initializing and the direction in
      which the table lists parents. */
  datatype Mode = Mode(initializing: bool, nearestFirst: bool)

  ghost function OwnKeys(t: Table, c: IPClaim): set<Prefix> {
    MatchKeys(t, c.OwnerSelector())
  }

  ghost function ForeignKeys(t: Table, c: IPClaim, p: Prefix): set<Prefix> {
    set q | q in t && Inside(q, p) && c.Foreign(t[q])
  }

  /** Removal of the foreign routes inside `p`, reported in table order. */
  ghost function Evict(st: State, c: IPClaim, p: Prefix): State {
    var gone := ForeignKeys(st.table, c, p);
    st.(table := st.table - gone, reports := st.reports + [Listing(st.table, gone)])
  }

  /** The foreign ones among some routes, in the same order. */
  function ForeignOf(c: IPClaim, rs: seq<Route>): (fs: seq<Route>) {
    if rs == [] then []
    else
      var fs := ForeignOf(c, rs[..|rs| - 1]);
      if c.Foreign(rs[|rs| - 1].labels) then fs + [rs[|rs| - 1]] else fs
  }

  lemma {:induction false} ForeignOfCons(c: IPClaim, r: Route, rs: seq<Route>)
    ensures ForeignOf(c, [r] + rs) == ForeignOf(c, [r]) + ForeignOf(c, rs)
    decreases |rs|
  {
    if rs == [] {
      assert [r] + rs == [r];
    } else {
      var init := rs[..|rs| - 1];
      ForeignOfCons(c, r, init);
      assert ([r] + rs)[..|rs|] == [r] + init;
    }
  }

  ghost function ForeignAmong(t: Table, c: IPClaim, keys: set<Prefix>): set<Prefix>
    requires keys <= t.Keys
  {
    set q | q in keys && c.Foreign(t[q])
  }

  lemma ListingHead(t: Table, keys: set<Prefix>, p: Prefix)
    requires keys <= t.Keys && IsLeast(p, keys)
    ensures Listing(t, keys) == [Route(p, t[p])] + Listing(t, keys - {p})
  {
    LeastUnique(p, Least(keys), keys);
  }

  lemma ForeignOfOne(c: IPClaim, r: Route)
    ensures ForeignOf(c, [r]) == if c.Foreign(r.labels) then [r] else []
  {
    assert [r][..0] == [];
  }

  /** Filtering a listing is listing what passes the filter. */
  lemma {:induction false} ForeignListing(t: Table, c: IPClaim, keys: set<Prefix>)
    requires keys <= t.Keys
    ensures ForeignOf(c, Listing(t, keys)) == Listing(t, ForeignAmong(t, c, keys))
    decreases |keys|
  {
    var passing := ForeignAmong(t, c, keys);
    if keys == {} {
      assert passing == {};
    } else {
      var p := Least(keys);
      var rest := keys - {p};
      ForeignListing(t, c, rest);
      ForeignOfCons(c, Route(p, t[p]), Listing(t, rest));
      ForeignOfOne(c, Route(p, t[p]));
      if c.Foreign(t[p]) {
        assert IsLeast(p, passing);
        ListingHead(t, passing, p);
        assert passing - {p} == ForeignAmong(t, c, rest);
      } else {
        assert passing == ForeignAmong(t, c, rest);
      }
    }
  }

  lemma MinusAppend(t: Table, rs: seq<Route>, r: Route)
    ensures t - PrefixesOf(rs) - {r.prefix} == t - PrefixesOf(rs + [r])
  {
    assert PrefixesOf(rs + [r]) == PrefixesOf(rs) + {r.prefix};
  }

  /** The foreign children met in table order are what eviction reports and
      removes. */
  lemma EvictedListing(t: Table, c: IPClaim, p: Prefix)
    ensures var fs := ForeignOf(c, Listing(t, ChildKeys(t, p)));
            fs == Listing(t, ForeignKeys(t, c, p)) && PrefixesOf(fs) == ForeignKeys(t, c, p)
  {
    ForeignListing(t, c, ChildKeys(t, p));
    assert ForeignAmong(t, c, ChildKeys(t, p)) == ForeignKeys(t, c, p);
    ListingEnumerates(t, ForeignKeys(t, c, p));
    EnumeratesPrefixes(Listing(t, ForeignKeys(t, c, p)), t, ForeignKeys(t, c, p));
  }

  // ---------------------------------------------------------------------
  // updateRib
  // ---------------------------------------------------------------------

  /** The prefix a host route of a network is presented with: its address and
      the length of the first listed parent. */
  ghost function ParentInfo(t: Table, c: IPClaim, p: Prefix, nearestFirst: bool): Option<Prefix> {
    var parents := ParentList(t, p, nearestFirst);
    if c.kind.Network? && IsAddressPrefix(p) && parents != [] then
      ParentListEnumerates(t, p, nearestFirst);
      assert parents[0] in parents;
      Some(Prefix(p.family, p.addr, parents[0].prefix.len))
    else None
  }

  /** GetUpdatedLabels. */
  ghost function UpdatedLabels(t: Table, c: IPClaim, p: Prefix, nearestFirst: bool): Labels {
    var l := RouteLabels(c, p);
    var info := ParentInfo(t, c, p, nearestFirst);
    match c.kind
    case Network =>
      if info.Some? then
        var edge := p == FirstPrefix(info.value) || p == LastPrefix(info.value);
        (if edge then WithoutGateway(l) else l)[SubnetKey := SubnetName(info.value)]
      else if IsAddressPrefix(p) then l
      else WithoutGateway(l)
    case Pool => l[PoolKey := Text("true")]
    case _ => l
  }

  ghost function UpdateStep(st: State, c: IPClaim, m: Mode, r: Route): State {
    var p := r.prefix;
    var l := UpdatedLabels(st.table, c, p, m.nearestFirst);
    var info := ParentInfo(st.table, c, p, m.nearestFirst);
    var st1 := if info.Some? then st.(pi := info) else st;
    if l == r.labels then st1
    else
      var st2 := st1.(table := st1.table[p := l]);
      if && st2.pi.Some? && !m.initializing && !IsAddressPrefix(st2.pi.value)
         && c.createPrefix.Some?
      then Evict(st2, c, p) else st2
  }

  ghost function UpdateAll(st: State, c: IPClaim, m: Mode, rs: seq<Route>): State
    decreases |rs|
  {
    if rs == [] then st
    else UpdateStep(UpdateAll(st, c, m, rs[..|rs| - 1]), c, m, rs[|rs| - 1])
  }

  // ---------------------------------------------------------------------
  // Delete
  // ---------------------------------------------------------------------

  /** What precedes the removal of a route: foreign routes inside it go first. */
  ghost function DeleteBegun(st: State, c: IPClaim, m: Mode, p: Prefix): State {
    if !m.initializing && !IsAddressPrefix(p) && c.createPrefix.Some? then Evict(st, c, p) else st
  }

  ghost function DeleteStep(st: State, c: IPClaim, m: Mode, r: Route): State {
    var p := r.prefix;
    var st1 := DeleteBegun(st, c, m, p);
    var st2 := st1.(table := st1.table - {p});
    if m.initializing then st2
    else st2.(reports := st2.reports + [Listing(st2.table, ChildKeys(st2.table, p))])
  }

  ghost function DeleteAll(st: State, c: IPClaim, m: Mode, rs: seq<Route>): State
    decreases |rs|
  {
    if rs == [] then st
    else DeleteStep(DeleteAll(st, c, m, rs[..|rs| - 1]), c, m, rs[|rs| - 1])
  }

  // ---------------------------------------------------------------------
  // Labels of an update
  // ---------------------------------------------------------------------

  /** Whatever goes under the claim's name in the table is the claim's own and
      has the kind the claim asks for. */
  ghost predicate Compatible(t: Table, c: IPClaim) {
    forall q | q in t && !c.Foreign(t[q]) :: c.Owns(t[q]) && HasKind(t[q], c.kind)
  }

  /** An update keeps kind and owner labels. */
  lemma UpdatedLabelsOwned(t: Table, c: IPClaim, p: Prefix, nearestFirst: bool)
    requires c.Named()
    ensures var l := UpdatedLabels(t, c, p, nearestFirst);
            HasKind(l, c.kind) && c.Owns(l) && !c.Foreign(l)
  {
    var base, plain := RouteLabels(c, p), WithoutGateway(RouteLabels(c, p));
    var info := ParentInfo(t, c, p, nearestFirst);
    RouteLabelsOwned(c, p, base);
    RouteLabelsOwned(c, p, plain);
    OwnsWith(c, base, PoolKey, Text("true"));
    if info.Some? {
      OwnsWith(c, base, SubnetKey, SubnetName(info.value));
      OwnsWith(c, plain, SubnetKey, SubnetName(info.value));
    }
    OwnIsNotForeign(c, UpdatedLabels(t, c, p, nearestFirst));
  }

  // ---------------------------------------------------------------------
  // The outcome of a delete
  // ---------------------------------------------------------------------

  /** What a delete of a created prefix takes away: the claim's routes and all
      that lies inside them. */
  ghost predicate Doomed(t: Table, c: IPClaim, q: Prefix) {
    q in t && (c.Owns(t[q]) || exists p | p in t && c.Owns(t[p]) :: Inside(q, p))
  }

  ghost function Remaining(t: Table, c: IPClaim): Table {
    map q | q in t && !Doomed(t, c, q) :: t[q]
  }

  function Occurrences(rs: seq<Route>, q: Prefix): nat {
    if rs == [] then 0 else (if rs[0].prefix == q then 1 else 0) + Occurrences(rs[1..], q)
  }

  /** How often a prefix is handed to the watcher. */
  function TimesReported(reports: seq<seq<Route>>, q: Prefix): nat {
    if reports == [] then 0
    else TimesReported(reports[..|reports| - 1], q) + Occurrences(reports[|reports| - 1], q)
  }

  lemma TimesReportedAppend(reports: seq<seq<Route>>, last: seq<Route>, q: Prefix)
    ensures TimesReported(reports + [last], q) == TimesReported(reports, q) + Occurrences(last, q)
  {
    assert (reports + [last])[..|reports|] == reports;
  }

  /** A listing holds each of its prefixes once. */
  lemma {:induction false} ListingOccurs(t: Table, keys: set<Prefix>, q: Prefix)
    requires keys <= t.Keys
    ensures Occurrences(Listing(t, keys), q) == if q in keys then 1 else 0
    decreases |keys|
  {
    if keys != {} {
      var p := Least(keys);
      ListingOccurs(t, keys - {p}, q);
      assert Listing(t, keys)[1..] == Listing(t, keys - {p});
    }
  }

  /** The table once the routes in `done` have been handled. */
  ghost predicate Thinned(t: Table, c: IPClaim, done: set<Prefix>, tab: Table) {
    && (forall q | q in tab :: q in t && tab[q] == t[q])
    && (forall q | q in t ::
          q in tab <==>
          q !in done && !(c.Foreign(t[q]) && exists p | p in done :: Inside(q, p)))
  }

  /** Every foreign route that has gone was reported once, no other was. */
  ghost predicate Told(t: Table, c: IPClaim, st: State) {
    forall q | q in t && c.Foreign(t[q]) ::
      TimesReported(st.reports, q) == if q in st.table then 0 else 1
  }

  lemma ThinnedStep(t: Table, c: IPClaim, done: set<Prefix>, p: Prefix, tab: Table)
    requires Thinned(t, c, done, tab)
    ensures Thinned(t, c, done + {p}, tab - ForeignKeys(tab, c, p) - {p})
  {
    var tab' := tab - ForeignKeys(tab, c, p) - {p};
    forall q | q in t
      ensures q in tab' <==>
              q !in done + {p} && !(c.Foreign(t[q]) && exists d | d in done + {p} :: Inside(q, d))
    {
      assert q in ForeignKeys(tab, c, p) <==> q in tab && Inside(q, p) && c.Foreign(t[q]);
      assert (exists d | d in done + {p} :: Inside(q, d)) <==>
             (exists d | d in done :: Inside(q, d)) || Inside(q, p) by {
        if Inside(q, p) {
          assert p in done + {p};
        }
        if d :| d in done && Inside(q, d) {
          assert d in done + {p};
        }
      }
    }
  }

  lemma DeleteStepTable(c: IPClaim, m: Mode, r: Route, st: State)
    requires c.createPrefix.Some? && !m.initializing
    ensures var p := r.prefix;
            DeleteStep(st, c, m, r).table == st.table - ForeignKeys(st.table, c, p) - {p}
  {
  }

  lemma ToldStep(t: Table, c: IPClaim, m: Mode, r: Route, st: State, q: Prefix)
    requires c.createPrefix.Some? && !m.initializing
    requires q in t && c.Foreign(t[q]) && q != r.prefix
    requires q in st.table ==> st.table[q] == t[q]
    requires TimesReported(st.reports, q) == if q in st.table then 0 else 1
    ensures var st' := DeleteStep(st, c, m, r);
            TimesReported(st'.reports, q) == if q in st'.table then 0 else 1
  {
    var p := r.prefix;
    var gone := ForeignKeys(st.table, c, p);
    var st' := DeleteStep(st, c, m, r);
    DeleteStepTable(c, m, r, st);
    assert q in gone <==> q in st.table && Inside(q, p);
    var st1 := DeleteBegun(st, c, m, p);
    if !IsAddressPrefix(p) {
      TimesReportedAppend(st.reports, Listing(st.table, gone), q);
      ListingOccurs(st.table, gone, q);
    }
    var kept := ChildKeys(st'.table, p);
    TimesReportedAppend(st1.reports, Listing(st'.table, kept), q);
    ListingOccurs(st'.table, kept, q);
  }

  lemma {:induction false} DeleteAllProgress(t: Table, c: IPClaim, m: Mode, rs: seq<Route>, pi: Option<Prefix>)
    requires c.Named() && c.createPrefix.Some? && !m.initializing
    requires forall r | r in rs :: r.prefix in OwnKeys(t, c)
    ensures var st := DeleteAll(State(t, pi, []), c, m, rs);
            Thinned(t, c, PrefixesOf(rs), st.table) && Told(t, c, st)
    decreases |rs|
  {
    if rs == [] {
      assert PrefixesOf(rs) == {};
    } else {
      var init, r := rs[..|rs| - 1], rs[|rs| - 1];
      assert rs == init + [r] && r in rs;
      assert forall d | d in init :: d in rs;
      DeleteAllProgress(t, c, m, init, pi);
      var st := DeleteAll(State(t, pi, []), c, m, init);
      assert PrefixesOf(rs) == PrefixesOf(init) + {r.prefix};
      ThinnedStep(t, c, PrefixesOf(init), r.prefix, st.table);
      DeleteStepTable(c, m, r, st);
      OwnIsNotForeign(c, t[r.prefix]);
      forall q | q in t && c.Foreign(t[q])
        ensures TimesReported(DeleteStep(st, c, m, r).reports, q) ==
                if q in DeleteStep(st, c, m, r).table then 0 else 1
      {
        ToldStep(t, c, m, r, st, q);
      }
    }
  }

  lemma ThinnedIsRemaining(t: Table, c: IPClaim, tab: Table)
    requires Compatible(t, c) && c.Named()
    requires Thinned(t, c, OwnKeys(t, c), tab)
    ensures tab == Remaining(t, c)
  {
    forall q | q in t ensures q in tab <==> !Doomed(t, c, q) {
      if c.Owns(t[q]) {
        assert q in OwnKeys(t, c);
      } else {
        assert (exists p | p in OwnKeys(t, c) :: Inside(q, p)) <==>
               (exists p | p in t && c.Owns(t[p]) :: Inside(q, p));
      }
    }
  }

  lemma EnumeratesPrefixes(rs: seq<Route>, t: Table, keys: set<Prefix>)
    requires Enumerates(rs, t, keys)
    ensures PrefixesOf(rs) == keys
  {
    forall p | p in keys ensures p in PrefixesOf(rs) {
      assert Route(p, t[p]) in rs;
    }
  }

  /** Deleting a created prefix outside initialization: the claim's routes and
      everything inside them are gone, everything else keeps its labels, and each
      foreign route that went was reported exactly once. */
  lemma DeleteOutcome(t: Table, c: IPClaim, m: Mode, rs: seq<Route>, pi: Option<Prefix>)
    requires Compatible(t, c)
    requires c.Named() && c.createPrefix.Some? && !m.initializing
    requires Enumerates(rs, t, OwnKeys(t, c))
    ensures var st := DeleteAll(State(t, pi, []), c, m, rs);
            && st.table == Remaining(t, c)
            && forall q | q in t && c.Foreign(t[q]) ::
                 TimesReported(st.reports, q) == if q in Remaining(t, c) then 0 else 1
  {
    DeleteAllProgress(t, c, m, rs, pi);
    EnumeratesPrefixes(rs, t, OwnKeys(t, c));
    ThinnedIsRemaining(t, c, DeleteAll(State(t, pi, []), c, m, rs).table);
  }

  // ---------------------------------------------------------------------
  // Nothing is orphaned
  // ---------------------------------------------------------------------

  /** A route that survives a delete keeps exactly the parents it had. */
  lemma NothingOrphaned(t: Table, c: IPClaim, q: Prefix)
    requires q in Remaining(t, c)
    ensures ParentKeys(Remaining(t, c), q) == ParentKeys(t, q)
  {
    forall p | p in ParentKeys(t, q) ensures !Doomed(t, c, p) {
      if r :| r in t && c.Owns(t[r]) && Inside(p, r) {
        CoversTransitive(r, p, q);
      }
    }
  }
}
