/** The routing table behind the IPAM backend: prefixes with their labels and
    the queries over the containment order. */
module RoutingTable {
  import opened Powers
  import opened Bits
  import opened Prefixes
  import opened Claims
  import opened Wrappers

  datatype Route = Route(prefix: Prefix, labels: Labels)

  type Table = map<Prefix, Labels>

  /** Routes are stored under masked prefixes. */
  ghost predicate WellFormed(t: Table) {
    forall p {:trigger IsMasked(p)} | p in t :: IsMasked(p)
  }

  // ---------------------------------------------------------------------
  // Listings
  // ---------------------------------------------------------------------

  /** The routes of `keys`, each once, in any order. */
  ghost predicate Enumerates(rs: seq<Route>, t: Table, keys: set<Prefix>) {
    && (forall r | r in rs :: r.prefix in keys && r.prefix in t && r.labels == t[r.prefix])
    && (forall p | p in keys :: p in t && Route(p, t[p]) in rs)
    && (forall i, j | 0 <= i < j < |rs| :: rs[i].prefix != rs[j].prefix)
  }

  ghost predicate IsLeast(p: Prefix, s: set<Prefix>) {
    p in s && forall q | q in s && q != p :: Before(p, q)
  }

  ghost function Least(s: set<Prefix>): (p: Prefix)
    requires s != {}
    ensures IsLeast(p, s)
  {
    var x :| x in s;
    var rest := s - {x};
    assert s == rest + {x};
    if rest == {} then x
    else
      var y := Least(rest);
      if Before(x, y) then x else y
  }

  /** The routes of `keys` in table order. */
  ghost function Listing(t: Table, keys: set<Prefix>): (rs: seq<Route>)
    requires keys <= t.Keys
    decreases |keys|
  {
    if keys == {} then []
    else
      var p := Least(keys);
      [Route(p, t[p])] + Listing(t, keys - {p})
  }

  lemma EnumeratesCons(t: Table, keys: set<Prefix>, p: Prefix, tail: seq<Route>)
    requires p in keys && p in t && Enumerates(tail, t, keys - {p})
    ensures Enumerates([Route(p, t[p])] + tail, t, keys)
  {
    var rs := [Route(p, t[p])] + tail;
    assert forall r :: r in rs <==> r == Route(p, t[p]) || r in tail;
    forall i, j | 0 <= i < j < |rs| ensures rs[i].prefix != rs[j].prefix {
      assert tail[j - 1] in tail;
    }
  }

  lemma {:induction false} ListingEnumerates(t: Table, keys: set<Prefix>)
    requires keys <= t.Keys
    ensures Enumerates(Listing(t, keys), t, keys)
    decreases |keys|
  {
    if keys != {} {
      var p := Least(keys);
      ListingEnumerates(t, keys - {p});
      EnumeratesCons(t, keys, p, Listing(t, keys - {p}));
    }
  }

  ghost function ChildKeys(t: Table, p: Prefix): set<Prefix> {
    set q | q in t && Inside(q, p)
  }

  ghost function ParentKeys(t: Table, p: Prefix): set<Prefix> {
    set q | q in t && Inside(p, q)
  }

  ghost function MatchKeys(t: Table, sel: Labels): set<Prefix> {
    set q | q in t && Matches(sel, t[q])
  }

  /** The order in which a table lists the parents of a prefix: a chain, given
      from either end. */
  ghost function ParentList(t: Table, p: Prefix, nearestFirst: bool): (rs: seq<Route>) {
    var up := Listing(t, ParentKeys(t, p));
    if nearestFirst then Reversed(up) else up
  }

  function Reversed<T>(s: seq<T>): (r: seq<T>)
    ensures |r| == |s|
    ensures forall i | 0 <= i < |s| :: r[i] == s[|s| - 1 - i]
  {
    if s == [] then [] else Reversed(s[1..]) + [s[0]]
  }

  lemma ReversedEnumerates(rs: seq<Route>, t: Table, keys: set<Prefix>)
    requires Enumerates(rs, t, keys)
    ensures Enumerates(Reversed(rs), t, keys)
  {
    var back := Reversed(rs);
    forall r | r in rs ensures r in back {
      var i :| 0 <= i < |rs| && rs[i] == r;
      assert back[|rs| - 1 - i] == r;
    }
    forall i, j | 0 <= i < j < |back| ensures back[i].prefix != back[j].prefix {
      assert rs[|rs| - 1 - j].prefix != rs[|rs| - 1 - i].prefix;
    }
  }

  lemma ParentListEnumerates(t: Table, p: Prefix, nearestFirst: bool)
    ensures Enumerates(ParentList(t, p, nearestFirst), t, ParentKeys(t, p))
  {
    ListingEnumerates(t, ParentKeys(t, p));
    ReversedEnumerates(Listing(t, ParentKeys(t, p)), t, ParentKeys(t, p));
  }

  /** `q` is the most specific route strictly containing `p`. */
  ghost predicate NearestParent(t: Table, p: Prefix, q: Prefix) {
    && q in ParentKeys(t, p)
    && forall r | r in ParentKeys(t, p) :: r.len <= q.len
  }

  lemma NearestParentUnique(t: Table, p: Prefix, q: Prefix, r: Prefix)
    requires WellFormed(t)
    requires NearestParent(t, p, q) && NearestParent(t, p, r)
    ensures q == r
  {
    AncestorsComparable(q, r, p);
    CoversSameLength(q, r);
  }

  /** Every other route containing `p` contains its nearest parent too. */
  lemma NearestParentInnermost(t: Table, p: Prefix, q: Prefix, r: Prefix)
    requires NearestParent(t, p, q) && r in ParentKeys(t, p)
    ensures Covers(r, q)
  {
    AncestorsComparable(r, q, p);
  }

  lemma {:induction false} LongestExists(keys: set<Prefix>) returns (q: Prefix)
    requires keys != {}
    ensures q in keys && forall r | r in keys :: r.len <= q.len
  {
    q :| q in keys;
    var rest := keys - {q};
    if rest != {} {
      var s := LongestExists(rest);
      assert keys == rest + {q};
      if q.len < s.len {
        q := s;
      }
    }
  }

  /** A free block: aligned, of the wanted length, inside `p` and clear of every
      route inside `p`. */
  ghost predicate Available(t: Table, p: Prefix, n: nat, free: Prefix) {
    && IsMasked(free) && free.len == n && Covers(p, free)
    && forall q | q in ChildKeys(t, p) :: Disjoint(q, free)
  }

  /** The block of length `n` starting at a multiple of its size inside `p` is
      aligned and lies in `p`. */
  lemma AlignedBlock(p: Prefix, n: nat, a: nat, j: nat)
    requires p.len <= n <= Width(p.family)
    requires a == j * Pow2(Width(p.family) - n) && First(p) <= a <= Last(p)
    ensures IsMasked(Prefix(p.family, a, n)) && Covers(p, Prefix(p.family, a, n))
  {
    ShrUnique(a, Width(p.family) - n, j);
    ShrUnique(a, HostBits(p), Shr(p.addr, HostBits(p)));
  }

  /** A subnet starts at a multiple of every smaller block size. */
  lemma FirstBlock(p: Prefix, n: nat)
    requires p.len <= n <= Width(p.family)
    ensures First(p) == (Shr(p.addr, HostBits(p)) * Pow2(n - p.len)) * Pow2(Width(p.family) - n)
  {
    var k := Width(p.family) - n;
    Pow2Splits(k, n - p.len);
    MulAssociates(Shr(p.addr, HostBits(p)), Pow2(n - p.len), Pow2(k));
    assert HostBits(p) == k + (n - p.len);
  }

  lemma NextBlock(j: nat, w: nat)
    ensures (j + 1) * w == j * w + w
  {
  }

  // ---------------------------------------------------------------------
  // The table as a mutable object
  // ---------------------------------------------------------------------

  method LeastOf(s: set<Prefix>) returns (p: Prefix)
    requires s != {}
    ensures IsLeast(p, s)
  {
    p :| p in s;
    var rest := s - {p};
    while rest != {}
      invariant p in s && p !in rest && rest <= s
      invariant forall q | q in s && q !in rest && q != p :: Before(p, q)
      decreases |rest|
    {
      var q :| q in rest;
      rest := rest - {q};
      if Before(q, p) {
        p := q;
      }
    }
  }

  lemma LeastUnique(p: Prefix, q: Prefix, s: set<Prefix>)
    requires IsLeast(p, s) && IsLeast(q, s)
    ensures p == q
  {
  }

  class Rib {
    var routes: Table
    // the direction in which the table lists parents
    const nearestFirst: bool

    constructor (nearestFirst: bool)
      ensures routes == map[] && this.nearestFirst == nearestFirst
    {
      this.nearestFirst := nearestFirst;
      routes := map[];
    }

    method Clone() returns (copy: Rib)
      ensures fresh(copy) && copy.routes == routes && copy.nearestFirst == nearestFirst
    {
      copy := new Rib(nearestFirst);
      copy.routes := routes;
    }

    function Get(p: Prefix): (r: Option<Route>)
      reads this
      ensures r.Some? <==> p in routes
      ensures r.Some? ==> r.value == Route(p, routes[p])
    {
      if p in routes then Some(Route(p, routes[p])) else None
    }

    /** Fails, changing nothing, when the prefix is present. */
    method Add(r: Route) returns (added: bool)
      modifies this`routes
      ensures added <==> r.prefix !in old(routes)
      ensures routes == if added then old(routes)[r.prefix := r.labels] else old(routes)
    {
      added := r.prefix !in routes;
      if added {
        routes := routes[r.prefix := r.labels];
      }
    }

    method Set(r: Route)
      modifies this`routes
      ensures routes == old(routes)[r.prefix := r.labels]
    {
      routes := routes[r.prefix := r.labels];
    }

    /** Fails, changing nothing, when the prefix is absent. */
    method Delete(p: Prefix) returns (deleted: bool)
      modifies this`routes
      ensures deleted <==> p in old(routes)
      ensures routes == old(routes) - {p}
    {
      deleted := p in routes;
      routes := routes - {p};
    }

    method List(keys: set<Prefix>) returns (rs: seq<Route>)
      requires keys <= routes.Keys
      ensures rs == Listing(routes, keys)
    {
      rs := [];
      var rest := keys;
      while rest != {}
        invariant rest <= keys
        invariant rs + Listing(routes, rest) == Listing(routes, keys)
        decreases |rest|
      {
        var p := LeastOf(rest);
        LeastUnique(p, Least(rest), rest);
        rs := rs + [Route(p, routes[p])];
        rest := rest - {p};
      }
    }

    /** The matching routes; callers may not rely on their order. */
    method GetByLabel(sel: Labels) returns (rs: seq<Route>)
      ensures Enumerates(rs, routes, MatchKeys(routes, sel))
    {
      var keys := set q | q in routes && Matches(sel, routes[q]);
      rs := List(keys);
      ListingEnumerates(routes, keys);
    }

    /** Strictly more specific routes in table order. */
    method Children(p: Prefix) returns (rs: seq<Route>)
      ensures rs == Listing(routes, ChildKeys(routes, p))
    {
      rs := List(set q | q in routes && Inside(q, p));
    }

    /** Strictly less specific routes. */
    method Parents(p: Prefix) returns (rs: seq<Route>)
      ensures rs == ParentList(routes, p, nearestFirst)
    {
      rs := List(set q | q in routes && Inside(p, q));
      if nearestFirst {
        rs := Reversed(rs);
      }
    }

    /** A free prefix of length `n` inside `p`.  The promise is for lengths
        beyond that of `p`; which free prefix is taken is up to the table. */
    method GetAvailablePrefixByBitLen(p: Prefix, n: nat) returns (free: Option<Prefix>)
      ensures free.Some? && p.len < n ==> Available(routes, p, n, free.value)
      ensures free.Some? ==> free.value.family == p.family && free.value.len == n
    {
      if n <= p.len || Width(p.family) < n {
        return None;
      }
      var size := Pow2(Width(p.family) - n);
      var j := Shr(p.addr, HostBits(p)) * Pow2(n - p.len);
      var a := First(p);
      FirstBlock(p, n);
      while a <= Last(p)
        invariant First(p) <= a == j * size
        decreases Last(p) + 1 - a
      {
        var block := Prefix(p.family, a, n);
        AlignedBlock(p, n, a, j);
        if forall q | q in routes && Inside(q, p) :: Disjoint(q, block) {
          return Some(block);
        }
        NextBlock(j, size);
        j, a := j + 1, a + size;
      }
      return None;
    }
  }
}
