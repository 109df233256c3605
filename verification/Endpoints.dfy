/** The endpoints of the inventory: who claims them, the listing of candidates,
    and the claiming and releasing of several of them. */
module Endpoints {
  import opened Wrappers
  import opened Sorting

  type Labels = map<string, string>

  datatype Name = Name(namespace: string, name: string) {
    function String(): string {
      namespace + "/" + name
    }
  }

  /** A reference to the resource that claims an endpoint. */
  datatype Ref = Ref(apiVersion: string, kind: string, namespace: string, name: string)

  /** An endpoint with the resource version under which it is stored. */
  datatype Endpoint = Endpoint(name: Name, labels: Labels, interfaceName: string, nodeName: string,
                               claimRef: Option<Ref>, version: nat)
  {
    /** A status update; one that changes nothing keeps the version. */
    function SetRef(ref: Option<Ref>): Endpoint {
      if claimRef == ref then this else this.(claimRef := ref, version := version + 1)
    }

    predicate WasAllocated(me: Ref) {
      claimRef == Some(me)
    }

    predicate IsAllocated(me: Ref) {
      claimRef.Some? && claimRef.value != me
    }

    predicate IsNodeDiverse(idx: nat, nodes: seq<string>) {
      forall i | 0 <= i < |nodes| && i != idx :: nodes[i] == "" || nodes[i] != nodeName
    }

    predicate InTopology(topology: string) {
      TOPOLOGY_KEY in labels && labels[TOPOLOGY_KEY] == topology
    }
  }

  const TOPOLOGY_KEY: string := "inv.nephio.org/topology"

  /** A label selector; an absent one matches nothing. */
  datatype Selector = Malformed | Selector(matches: Labels -> bool)

  predicate Distinct(eps: seq<Endpoint>) {
    forall i, j | 0 <= i < j < |eps| :: eps[i].name != eps[j].name
  }

  function Names(eps: seq<Endpoint>): set<Name> {
    set ep | ep in eps :: ep.name
  }

  /** The endpoints stored by the API server. */
  type Cluster = map<Name, Endpoint>

  predicate Keyed(c: Cluster) {
    forall n | n in c :: c[n].name == n
  }

  predicate Stored(c: Cluster, ep: Endpoint) {
    ep.name in c && c[ep.name] == ep
  }

  /** All stored endpoints, or all of a topology, each once, in any order. */
  ghost predicate Listing(c: Cluster, topology: Option<string>, items: seq<Endpoint>) {
    && Distinct(items)
    && forall ep :: ep in items <==> Stored(c, ep) && (topology.Some? ==> ep.InTopology(topology.value))
  }

  /** The cluster with the claim of the named endpoints set. */
  function Marked(c: Cluster, names: set<Name>, ref: Option<Ref>): Cluster {
    map n | n in c :: if n in names then c[n].SetRef(ref) else c[n]
  }

  /** No update spoils a later copy of the same endpoint: an endpoint that occurs
      again has the reference already. */
  predicate Repeatable(eps: seq<Endpoint>, ref: Option<Ref>) {
    forall i, j | 0 <= i < j < |eps| && eps[i].name == eps[j].name :: eps[i].claimRef == ref
  }

  predicate AllStored(c: Cluster, eps: seq<Endpoint>) {
    forall ep | ep in eps :: Stored(c, ep)
  }

  function ClaimedBy(c: Cluster, me: Ref): set<Name> {
    set n | n in c && c[n].WasAllocated(me)
  }

  /** The endpoints a selector chooses among: selected items only, none twice, and
      all of them up to equal namespaced names. */
  ghost predicate Candidates(items: seq<Endpoint>, matches: Labels -> bool, eps: seq<Endpoint>) {
    && Distinct(eps)
    && (forall ep | ep in eps :: ep in items && matches(ep.labels))
    && (forall ep | ep in items && matches(ep.labels) :: ep.name.String() in Strings(eps))
  }

  function Strings(eps: seq<Endpoint>): set<string> {
    set ep | ep in eps :: ep.name.String()
  }

  /** The first selected item of each namespaced name. */
  function SelectedOf(items: seq<Endpoint>, matches: Labels -> bool): seq<Endpoint> {
    if items == [] then []
    else
      var objs, v := SelectedOf(items[..|items| - 1], matches), items[|items| - 1];
      if matches(v.labels) && v.name.String() !in Strings(objs) then objs + [v] else objs
  }

  /** The candidates in the order of their interfaces. */
  function InOrder(items: seq<Endpoint>, matches: Labels -> bool): seq<Endpoint> {
    SortBy((ep: Endpoint) => ep.interfaceName, SelectedOf(items, matches))
  }

  /** GetSelectedObjects: filters, and drops repeated names. */
  method GetSelectedObjects(items: seq<Endpoint>, matches: Labels -> bool) returns (objs: seq<Endpoint>)
    ensures Candidates(items, matches, objs)
    ensures objs == SelectedOf(items, matches)
  {
    objs := [];
    var seen: set<string> := {};
    for i := 0 to |items|
      invariant seen == Strings(objs)
      invariant Candidates(items[..i], matches, objs)
      invariant objs == SelectedOf(items[..i], matches)
    {
      var v := items[i];
      assert items[..i + 1] == items[..i] + [v] && items[..i + 1][..i] == items[..i];
      if matches(v.labels) {
        if v.name.String() !in seen {
          AddCandidate(items[..i], matches, objs, v);
          objs := objs + [v];
        }
        seen := seen + {v.name.String()};
      }
    }
    assert items[..|items|] == items;
  }

  lemma AddCandidate(items: seq<Endpoint>, matches: Labels -> bool, objs: seq<Endpoint>, v: Endpoint)
    requires Candidates(items, matches, objs) && matches(v.labels) && v.name.String() !in Strings(objs)
    ensures Candidates(items + [v], matches, objs + [v])
    ensures Strings(objs + [v]) == Strings(objs) + {v.name.String()}
  {
    var objs' := objs + [v];
    assert forall ep :: ep in objs' <==> ep in objs || ep == v;
    forall i | 0 <= i < |objs| ensures objs[i].name != v.name {
      assert objs[i] in objs;
    }
    forall x ensures x in Strings(objs') <==> x in Strings(objs) || x == v.name.String() {
    }
  }

  lemma SortedCandidates(items: seq<Endpoint>, matches: Labels -> bool, objs: seq<Endpoint>, eps: seq<Endpoint>)
    requires Candidates(items, matches, objs) && multiset(eps) == multiset(objs)
    ensures Candidates(items, matches, eps) && |eps| == |objs|
  {
    assert |multiset(eps)| == |eps| && |multiset(objs)| == |objs|;
    forall ep ensures ep in eps <==> ep in objs {
      assert ep in eps <==> ep in multiset(eps);
      assert ep in objs <==> ep in multiset(objs);
    }
    assert Strings(eps) == Strings(objs);
    DistinctPermuted(objs, eps);
  }

  lemma DistinctPermuted(objs: seq<Endpoint>, eps: seq<Endpoint>)
    requires Distinct(objs) && multiset(eps) == multiset(objs)
    ensures Distinct(eps)
  {
    forall i, j | 0 <= i < j < |eps| ensures eps[i].name != eps[j].name {
      assert eps == eps[..i] + [eps[i]] + eps[i + 1..j] + [eps[j]] + eps[j + 1..];
      assert eps[i] in multiset(objs) && eps[j] in multiset(objs);
      if eps[i] == eps[j] {
        OnceOnly(objs, eps[i]);
      }
    }
  }

  lemma {:induction false} OnceOnly(objs: seq<Endpoint>, ep: Endpoint)
    requires Distinct(objs)
    ensures multiset(objs)[ep] <= 1
  {
    if ep in objs {
      var i :| 0 <= i < |objs| && objs[i] == ep;
      assert objs == objs[..i] + [ep] + objs[i + 1..];
      assert ep !in objs[..i] && ep !in objs[i + 1..];
    }
  }

  /** The selector matches none of the endpoints. */
  ghost predicate NoneMatches(items: seq<Endpoint>, selector: Selector)
    requires selector.Selector?
  {
    forall ep | ep in items :: !selector.matches(ep.labels)
  }

  datatype Listed = Listed(eps: seq<Endpoint>) | NoTopology | BadSelector | NothingSelected

  /** The client of the API server that the controllers use. */
  class Inventory {
    var cluster: Cluster
    var inventory: map<string, seq<Endpoint>>

    constructor (cluster: Cluster)
      ensures this.cluster == cluster && inventory == map[]
    {
      this.cluster, inventory := cluster, map[];
    }

    method List(topology: Option<string>) returns (items: seq<Endpoint>)
      requires Keyed(cluster)
      ensures Listing(cluster, topology, items)
    {
      items := [];
      var rest := cluster.Keys;
      while rest != {}
        invariant rest <= cluster.Keys
        invariant Distinct(items)
        invariant forall ep | ep in items :: ep.name !in rest
        invariant forall ep :: ep in items <==>
          Stored(cluster, ep) && ep.name !in rest && (topology.Some? ==> ep.InTopology(topology.value))
        decreases |rest|
      {
        var n :| n in rest;
        var ep := cluster[n];
        if topology.None? || ep.InTopology(topology.value) {
          assert forall i | 0 <= i < |items| :: items[i] in items;
          items := items + [ep];
        }
        rest := rest - {n};
      }
    }

    /** Init: one listing for each of the topologies. */
    method Init(topologies: seq<string>)
      requires Keyed(cluster)
      modifies this`inventory
      ensures forall t :: t in inventory <==> t in topologies
      ensures forall t | t in inventory :: Listing(cluster, Some(t), inventory[t])
    {
      inventory := map[];
      for i := 0 to |topologies|
        invariant forall t :: t in inventory <==> t in topologies[..i]
        invariant forall t | t in inventory :: Listing(cluster, Some(t), inventory[t])
      {
        assert topologies[..i + 1] == topologies[..i] + [topologies[i]];
        if topologies[i] !in inventory {
          var eps := List(Some(topologies[i]));
          inventory := inventory[topologies[i] := eps];
        }
      }
      assert topologies[..|topologies|] == topologies;
    }

    method GetTopologyEndpointsWithSelector(topology: string, selector: Selector) returns (r: Listed)
      ensures r == NoTopology <==> topology !in inventory
      ensures r == BadSelector <==> topology in inventory && selector.Malformed?
      ensures r == NothingSelected <==>
              topology in inventory && selector.Selector? && NoneMatches(inventory[topology], selector)
      ensures r.Listed? ==>
                && Candidates(inventory[topology], selector.matches, r.eps)
                && SortedBy((ep: Endpoint) => ep.interfaceName, r.eps)
                && r.eps == InOrder(inventory[topology], selector.matches)
    {
      if topology !in inventory {
        return NoTopology;
      }
      if selector.Malformed? {
        return BadSelector;
      }
      var objs := GetSelectedObjects(inventory[topology], selector.matches);
      if |objs| == 0 {
        return NothingSelected;
      }
      assert objs[0] in objs;
      var key := (ep: Endpoint) => ep.interfaceName;
      var eps := SortBy(key, objs);
      SortBySorts(key, objs);
      SortedCandidates(inventory[topology], selector.matches, objs, eps);
      r := Listed(eps);
    }

    method GetClaimedEndpoints(me: Ref) returns (eps: seq<Endpoint>)
      requires Keyed(cluster)
      ensures Distinct(eps)
      ensures forall ep :: ep in eps <==> Stored(cluster, ep) && ep.WasAllocated(me)
      ensures Names(eps) == ClaimedBy(cluster, me)
    {
      var items := List(None);
      eps := [];
      for i := 0 to |items|
        invariant Distinct(eps)
        invariant forall ep :: ep in eps <==> ep in items[..i] && ep.WasAllocated(me)
      {
        assert items[..i + 1] == items[..i] + [items[i]];
        forall j | 0 <= j < |eps| ensures eps[j].name != items[i].name {
          assert eps[j] in eps;
          assert eps[j] in items[..i];
        }
        if items[i].WasAllocated(me) {
          eps := eps + [items[i]];
        }
      }
      assert items[..|items|] == items;
      forall n ensures n in Names(eps) <==> n in ClaimedBy(cluster, me) {
        if n in ClaimedBy(cluster, me) {
          assert Stored(cluster, cluster[n]);
          assert cluster[n] in eps;
        }
      }
    }

    /** Status updates, one after the other. One fails when the endpoint is gone or
        its copy is not the stored version, and the one numbered `failAt` fails for
        another reason. */
    method UpdateStatus(eps: seq<Endpoint>, ref: Option<Ref>, failAt: nat) returns (ok: bool)
      modifies this`cluster
      ensures ok ==> cluster == Marked(old(cluster), Names(eps), ref)
      ensures !ok ==> exists k | 0 <= k < |eps| :: cluster == Marked(old(cluster), Names(eps[..k]), ref)
      ensures AllStored(old(cluster), eps) ==> (ok <==> failAt >= |eps| && Repeatable(eps, ref))
    {
      ghost var c := cluster;
      assert cluster == Marked(c, Names(eps[..0]), ref);
      for i := 0 to |eps|
        invariant failAt >= i
        invariant cluster == Marked(c, Names(eps[..i]), ref)
        invariant AllStored(c, eps) ==> Repeatable(eps[..i], ref)
      {
        var n := eps[i].name;
        UpdateOne(c, eps, i, ref);
        if i == failAt || n !in cluster || cluster[n].version != eps[i].version {
          return false;
        }
        cluster := cluster[n := cluster[n].SetRef(ref)];
      }
      assert eps[..|eps|] == eps;
      ok := true;
    }

    method Claim(me: Ref, eps: seq<Endpoint>, failAt: nat) returns (ok: bool)
      modifies this`cluster
      ensures ok ==> cluster == Marked(old(cluster), Names(eps), Some(me))
      ensures !ok ==> exists k | 0 <= k < |eps| :: cluster == Marked(old(cluster), Names(eps[..k]), Some(me))
      ensures AllStored(old(cluster), eps) ==> (ok <==> failAt >= |eps| && Repeatable(eps, Some(me)))
    {
      ok := UpdateStatus(eps, Some(me), failAt);
    }

    method DeleteClaim(eps: seq<Endpoint>, failAt: nat) returns (ok: bool)
      modifies this`cluster
      ensures ok ==> cluster == Marked(old(cluster), Names(eps), None)
      ensures !ok ==> exists k | 0 <= k < |eps| :: cluster == Marked(old(cluster), Names(eps[..k]), None)
      ensures AllStored(old(cluster), eps) ==> (ok <==> failAt >= |eps| && Repeatable(eps, None))
    {
      ok := UpdateStatus(eps, None, failAt);
    }
  }

  /** One update among several: what it makes of the cluster, and when its copy is
      the stored version. */
  lemma UpdateOne(c: Cluster, eps: seq<Endpoint>, i: nat, ref: Option<Ref>)
    requires i < |eps|
    ensures var n, now := eps[i].name, Marked(c, Names(eps[..i]), ref);
            && (n in now ==> now[n := now[n].SetRef(ref)] == Marked(c, Names(eps[..i + 1]), ref))
            && (AllStored(c, eps) ==> n in now)
            && (AllStored(c, eps) && Repeatable(eps[..i], ref) ==>
                  (now[n].version == eps[i].version <==> Repeatable(eps[..i + 1], ref)))
            && (AllStored(c, eps) && !Repeatable(eps[..i + 1], ref) ==> !Repeatable(eps, ref))
  {
    MarkOne(c, eps, i, ref);
    NotRepeatable(eps, i, ref);
    if AllStored(c, eps) {
      assert Stored(c, eps[i]);
    }
    if AllStored(c, eps) && Repeatable(eps[..i], ref) {
      VersionStays(c, eps, i, ref);
    }
    hide Names, Repeatable;
  }

  lemma MarkOne(c: Cluster, eps: seq<Endpoint>, i: nat, ref: Option<Ref>)
    requires i < |eps|
    ensures var n, now := eps[i].name, Marked(c, Names(eps[..i]), ref);
            n in now ==> now[n := now[n].SetRef(ref)] == Marked(c, Names(eps[..i + 1]), ref)
  {
    assert eps[..i + 1] == eps[..i] + [eps[i]];
    assert Names(eps[..i + 1]) == Names(eps[..i]) + {eps[i].name};
    hide Names;
  }

  lemma NotRepeatable(eps: seq<Endpoint>, i: nat, ref: Option<Ref>)
    requires i < |eps|
    ensures !Repeatable(eps[..i + 1], ref) ==> !Repeatable(eps, ref)
  {
    if !Repeatable(eps[..i + 1], ref) {
      var a, b :| 0 <= a < b < i + 1 && eps[..i + 1][a].name == eps[..i + 1][b].name && eps[..i + 1][a].claimRef != ref;
      assert eps[a].name == eps[b].name && eps[a].claimRef != ref;
    }
  }

  lemma VersionStays(c: Cluster, eps: seq<Endpoint>, i: nat, ref: Option<Ref>)
    requires i < |eps| && AllStored(c, eps) && Repeatable(eps[..i], ref)
    ensures eps[i].name in c
    ensures Marked(c, Names(eps[..i]), ref)[eps[i].name].version == eps[i].version <==> Repeatable(eps[..i + 1], ref)
  {
    var n, next := eps[i].name, eps[..i + 1];
    assert eps[i] in eps && c[n] == eps[i];
    if n in Names(eps[..i]) {
      var ep :| ep in eps[..i] && ep.name == n;
      var a :| 0 <= a < i && eps[..i][a] == ep;
      assert eps[a] in eps && eps[a] == eps[i];
      assert next[a] == next[i] == eps[i];
    }
    forall a | 0 <= a < i && n !in Names(eps[..i]) ensures next[a].name != next[i].name {
      assert eps[..i][a] in eps[..i];
    }
    assert forall a | 0 <= a < i :: next[a] == eps[..i][a];
    if n in Names(eps[..i]) && eps[i].claimRef == ref {
      forall a, b | 0 <= a < b < |next| && next[a].name == next[b].name ensures next[a].claimRef == ref {
        if b == i {
          assert eps[a] in eps;
        }
      }
    }
  }
}
