/** Claims that leave the choice of the prefix to the backend: what a new claim
    adds, and that deleting it brings the table back. */
module Allocation {
  import opened Prefixes
  import opened Claims
  import opened Wrappers
  import opened RoutingTable
  import opened Expansion
  import opened Updates

  /** updatePrefixInfo: a single network address is presented with the length of
      the route it was taken from. */
  function AllocatedInfo(c: IPClaim, selected: Prefix, free: Prefix): (pi: Prefix)
    requires selected.family == free.family
  {
    if c.kind.Network? && c.createPrefix.None? then Prefix(free.family, free.addr, selected.len)
    else free
  }

  /** The table after a new claim took `free` out of `selected`. */
  function Allocate(t: Table, c: IPClaim, selected: Prefix, free: Prefix): Table
    requires selected.family == free.family
  {
    AddRoutes(t, Expand(c, AllocatedInfo(c, selected, free)))
  }

  lemma AllocatedInside(c: IPClaim, selected: Prefix, free: Prefix, r: Route)
    requires selected.family == free.family && IsMasked(free)
    requires r in Expand(c, AllocatedInfo(c, selected, free))
    ensures Covers(free, r.prefix) && IsMasked(r.prefix)
    ensures c.Named() ==> HasKind(r.labels, c.kind) && c.Owns(r.labels) && !c.Foreign(r.labels)
  {
    var pi := AllocatedInfo(c, selected, free);
    ExpansionLies(c, pi, r);
    if c.Named() {
      RouteLabelsOwned(c, pi, r.labels);
    }
    if c.kind.Network? && c.createPrefix.None? {
      HostCovered(free, free.addr) by { FirstClearsHostBits(free); }
    }
  }

  /** Every route is disjoint from a free block, except the route it was taken
      from and what contains that. */
  lemma FreeBlockClear(t: Table, selected: Prefix, n: nat, free: Prefix, q: Prefix)
    requires WellFormed(t) && selected in t && selected.len < n
    requires Available(t, selected, n, free) && q in t
    ensures Disjoint(free, q) || Covers(q, selected)
  {
    Laminar(selected, q);
    if Disjoint(selected, q) {
      DisjointInherited(selected, q, free);
    } else if Covers(selected, q) && !Covers(q, selected) {
      if q.len == selected.len {
        CoversSameLength(selected, q);
      }
      assert q in ChildKeys(t, selected);
    }
  }

  /** A new claim leaves every existing route and its labels as they are; what it
      adds is new, lies strictly inside the selected route, and is disjoint from
      every existing route but the selected one and those around it. */
  lemma AllocationFrame(t: Table, c: IPClaim, selected: Prefix, n: nat, free: Prefix)
    requires WellFormed(t) && selected in t && selected.len < n
    requires Available(t, selected, n, free)
    ensures var t' := Allocate(t, c, selected, free);
            && (forall q | q in t :: q in t' && t'[q] == t[q])
            && (forall r | r in t' && r !in t ::
                  && Inside(r, selected)
                  && forall q | q in t :: Disjoint(r, q) || Covers(q, selected))
            && PrefixesOf(Expand(c, AllocatedInfo(c, selected, free))) == t'.Keys - t.Keys
  {
    var rs := Expand(c, AllocatedInfo(c, selected, free));
    var t' := Allocate(t, c, selected, free);
    AddRoutesFrame(t, rs);
    forall r | r in rs
      ensures Inside(r.prefix, selected) && r.prefix !in t
      ensures forall q | q in t :: Disjoint(r.prefix, q) || Covers(q, selected)
    {
      AllocatedInside(c, selected, free, r);
      CoversTransitive(selected, free, r.prefix);
      forall q | q in t ensures Disjoint(r.prefix, q) || Covers(q, selected) {
        FreeBlockClear(t, selected, n, free, q);
        if Disjoint(free, q) {
          DisjointInherited(free, q, r.prefix);
        }
      }
      if r.prefix in t {
        Laminar(r.prefix, r.prefix);
        assert false;
      }
    }
  }

  /** Without eviction a delete takes exactly the listed routes. */
  lemma {:induction false} PlainDelete(st: State, c: IPClaim, m: Mode, rs: seq<Route>)
    requires m.initializing || c.createPrefix.None?
    ensures DeleteAll(st, c, m, rs).table == st.table - PrefixesOf(rs)
    decreases |rs|
  {
    if rs == [] {
      assert PrefixesOf(rs) == {};
    } else {
      var init, r := rs[..|rs| - 1], rs[|rs| - 1];
      PlainDelete(st, c, m, init);
      assert rs == init + [r];
      assert PrefixesOf(rs) == PrefixesOf(init) + {r.prefix};
    }
  }

  /** The routes of a new claim are exactly the ones it added. */
  lemma AllocatedOwn(t: Table, c: IPClaim, selected: Prefix, n: nat, free: Prefix)
    requires WellFormed(t) && selected in t && selected.len < n
    requires Available(t, selected, n, free)
    requires c.Named() && Compatible(t, c) && OwnKeys(t, c) == {}
    ensures var t' := Allocate(t, c, selected, free);
            OwnKeys(t', c) == t'.Keys - t.Keys && Compatible(t', c)
  {
    var t' := Allocate(t, c, selected, free);
    AllocationFrame(t, c, selected, n, free);
    AddRoutesFrame(t, Expand(c, AllocatedInfo(c, selected, free)));
    forall q | q in t' && q !in t
      ensures c.Owns(t'[q]) && HasKind(t'[q], c.kind)
    {
      AllocatedInside(c, selected, free, Route(q, t'[q]));
    }
    forall q | q in t ensures q !in OwnKeys(t', c) && c.Foreign(t[q]) {
      assert q !in OwnKeys(t, c);
    }
  }

  /** No existing route lies inside one that a new claim added. */
  lemma NothingOldInside(q: Prefix, p: Prefix, selected: Prefix)
    requires Inside(p, selected)
    requires Disjoint(p, q) || Covers(q, selected)
    ensures !Inside(q, p)
  {
    Laminar(p, q);
    if Covers(q, selected) && Covers(p, q) {
      CoversTransitive(p, q, selected);
    }
  }

  lemma AllocatedDifference(t: Table, c: IPClaim, selected: Prefix, n: nat, free: Prefix)
    requires WellFormed(t) && selected in t && selected.len < n
    requires Available(t, selected, n, free)
    ensures var t' := Allocate(t, c, selected, free); t' - (t'.Keys - t.Keys) == t
  {
    AllocationFrame(t, c, selected, n, free);
  }

  lemma AllocatedDoomed(t: Table, c: IPClaim, selected: Prefix, n: nat, free: Prefix)
    requires WellFormed(t) && selected in t && selected.len < n
    requires Available(t, selected, n, free)
    requires c.Named() && Compatible(t, c) && OwnKeys(t, c) == {}
    ensures Remaining(Allocate(t, c, selected, free), c) == t
  {
    var t' := Allocate(t, c, selected, free);
    AllocationFrame(t, c, selected, n, free);
    AllocatedOwn(t, c, selected, n, free);
    assert forall q | q in t' :: c.Owns(t'[q]) <==> q in OwnKeys(t', c);
    forall q, p | q in t && p in OwnKeys(t', c) ensures !Inside(q, p) {
      NothingOldInside(q, p, selected);
    }
    forall q | q in t' ensures Doomed(t', c, q) <==> q !in t {
      assert q in OwnKeys(t', c) <==> q !in t;
    }
  }

  /** A new claim followed by its deletion restores the table, prefixes and
      labels, for every kind of claim, in and out of initialization, and whatever
      the order in which the routes are deleted. */
  lemma AllocateThenDelete(t: Table, c: IPClaim, m: Mode, selected: Prefix, n: nat, free: Prefix,
                           rs: seq<Route>, pi: Option<Prefix>)
    requires WellFormed(t) && selected in t && selected.len < n
    requires Available(t, selected, n, free)
    requires c.Named() && Compatible(t, c) && OwnKeys(t, c) == {}
    requires var t' := Allocate(t, c, selected, free); Enumerates(rs, t', OwnKeys(t', c))
    ensures DeleteAll(State(Allocate(t, c, selected, free), pi, []), c, m, rs).table == t
  {
    var t' := Allocate(t, c, selected, free);
    AllocatedOwn(t, c, selected, n, free);
    EnumeratesPrefixes(rs, t', OwnKeys(t', c));
    if m.initializing || c.createPrefix.None? {
      PlainDelete(State(t', pi, []), c, m, rs);
      AllocatedDifference(t, c, selected, n, free);
    } else {
      DeleteOutcome(t', c, m, rs, pi);
      AllocatedDoomed(t, c, selected, n, free);
    }
  }
}
