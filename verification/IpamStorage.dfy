/** Saving the routing table and restoring it after a restart.  What is saved is
    every route; what comes back depends on which owners the cluster still lists
    and on what their specifications say. */
module IpamStorage {
  import opened Prefixes
  import opened Claims
  import opened RoutingTable

  /** The prefix of a listed object, in its specification or else its status. */
  datatype SpecPrefix = Absent | Malformed | Given(prefix: Prefix)

  /** A listed IPPrefix or IPClaim. */
  datatype Item = Item(name: string, namespace: string, kind: PrefixKind, prefix: SpecPrefix)

  /** A network whose prefix does not parse ends the search for an owner. */
  predicate Stops(item: Item) {
    item.kind.Network? && item.prefix.Malformed?
  }

  /** Some listed object is the owner and no owner before it stops the search. */
  ghost predicate Listed(l: Labels, items: seq<Item>) {
    exists i | 0 <= i < |items| ::
      && NamedBy(l, items[i].name, items[i].namespace)
      && forall j | 0 <= j <= i :: !(NamedBy(l, items[j].name, items[j].namespace) && Stops(items[j]))
  }

  predicate OwnedByKind(l: Labels, k: OwnerKind) {
    Lookup(l, OwnerGvk) == GvkValue(k)
  }

  ghost predicate Restorable(l: Labels, prefixes: seq<Item>, claims: seq<Item>) {
    || (OwnedByKind(l, IPPrefixGvk) && Listed(l, prefixes))
    || (OwnedByKind(l, IPClaimGvk) && Listed(l, claims))
  }

  /** GetData: all routes with their labels. */
  method GetData(rib: Rib) returns (data: Table)
    ensures data == rib.routes
  {
    data := map[];
    var rest := rib.routes.Keys;
    while rest != {}
      invariant rest <= rib.routes.Keys
      invariant data == map p | p in rib.routes && p !in rest :: rib.routes[p]
      decreases |rest|
    {
      var p :| p in rest;
      data := data[p := rib.routes[p]];
      rest := rest - {p};
    }
  }

  /** restoreIPPrefixes and restorIPClaims: they differ in what they log only. */
  method RestoreFromList(rib: Rib, p: Prefix, l: Labels, items: seq<Item>)
    modifies rib
    ensures rib.routes == if Listed(l, items) && p !in old(rib.routes) then old(rib.routes)[p := l]
                          else old(rib.routes)
  {
    for i := 0 to |items|
      invariant forall j | 0 <= j < i :: !(NamedBy(l, items[j].name, items[j].namespace) && Stops(items[j]))
      invariant rib.routes ==
                if (exists j | 0 <= j < i :: NamedBy(l, items[j].name, items[j].namespace)) && p !in old(rib.routes)
                then old(rib.routes)[p := l] else old(rib.routes)
    {
      if NamedBy(l, items[i].name, items[i].namespace) {
        if Stops(items[i]) {
          break;
        }
        var _ := rib.Add(Route(p, l));
      }
    }
  }

  /** restoreNetworkInstancePrefixes, given the names the instance derives from
      its listed prefixes. */
  method RestoreInstancePrefixes(rib: Rib, p: Prefix, l: Labels, names: seq<string>, namespace: string)
    modifies rib
    ensures rib.routes == if InstanceListed(l, names, namespace) && p !in old(rib.routes)
                          then old(rib.routes)[p := l] else old(rib.routes)
  {
    for i := 0 to |names|
      invariant rib.routes == if InstanceListed(l, names[..i], namespace) && p !in old(rib.routes)
                              then old(rib.routes)[p := l] else old(rib.routes)
    {
      assert names[..i + 1] == names[..i] + [names[i]];
      if Lookup(l, NsnName) == Text(names[i]) && Lookup(l, NsnNamespace) == Text(namespace) {
        var _ := rib.Add(Route(p, l));
        assert names[i] in names[..i + 1];
      }
    }
    assert names[..|names|] == names;
  }

  predicate InstanceListed(l: Labels, names: seq<string>, namespace: string) {
    Lookup(l, NsnNamespace) == Text(namespace) && exists n | n in names :: Lookup(l, NsnName) == Text(n)
  }

  /** A pass over the saved data brings this route back. */
  ghost predicate Wanted(data: Table, owner: OwnerKind, items: seq<Item>, p: Prefix) {
    p in data && OwnedByKind(data[p], owner) && Listed(data[p], items)
  }

  /** `t` is `base` and the wanted routes of `keys` that `base` does not have. */
  ghost predicate Grown(base: Table, t: Table, data: Table, owner: OwnerKind, items: seq<Item>, keys: set<Prefix>) {
    && (forall p | p in base :: p in t && t[p] == base[p])
    && (forall p | p in t && p !in base :: p in keys && Wanted(data, owner, items, p) && t[p] == data[p])
    && (forall p | p in keys && Wanted(data, owner, items, p) :: p in t)
  }

  lemma GrownStep(base: Table, t: Table, data: Table, owner: OwnerKind, items: seq<Item>, keys: set<Prefix>, p: Prefix)
    requires p in data && Grown(base, t, data, owner, items, keys)
    ensures var t' := if Wanted(data, owner, items, p) && p !in t then t[p := data[p]] else t;
            Grown(base, t', data, owner, items, keys + {p})
  {
  }

  /** restorePrefixes for a list of objects; the saved data is visited in any
      order. */
  method RestorePrefixes(rib: Rib, data: Table, owner: OwnerKind, items: seq<Item>)
    modifies rib
    ensures Grown(old(rib.routes), rib.routes, data, owner, items, data.Keys)
  {
    var done, rest := {}, data.Keys;
    while rest != {}
      invariant done + rest == data.Keys
      invariant Grown(old(rib.routes), rib.routes, data, owner, items, done)
      decreases |rest|
    {
      var p :| p in rest;
      GrownStep(old(rib.routes), rib.routes, data, owner, items, done, p);
      if OwnedByKind(data[p], owner) {
        RestoreFromList(rib, p, data[p], items);
      }
      done, rest := done + {p}, rest - {p};
    }
  }

  lemma BothPasses(t0: Table, t1: Table, t2: Table, data: Table, prefixes: seq<Item>, claims: seq<Item>)
    requires t0 == map[]
    requires Grown(t0, t1, data, IPPrefixGvk, prefixes, data.Keys)
    requires Grown(t1, t2, data, IPClaimGvk, claims, data.Keys)
    ensures t2 == map p | p in data && Restorable(data[p], prefixes, claims) :: data[p]
  {
    forall p ensures p in t2 <==> p in data && Restorable(data[p], prefixes, claims) {
      assert p in data && Restorable(data[p], prefixes, claims) <==>
             Wanted(data, IPPrefixGvk, prefixes, p) || Wanted(data, IPClaimGvk, claims, p);
    }
  }

  /** RestoreData.  The network instance is rebuilt from its name alone, so it
      lists no prefixes and its pass restores nothing. */
  method RestoreData(rib: Rib, data: Table, prefixes: seq<Item>, claims: seq<Item>, namespace: string)
    modifies rib
    ensures old(rib.routes) == map[] ==>
              rib.routes == map p | p in data && Restorable(data[p], prefixes, claims) :: data[p]
  {
    var rest := data.Keys;
    while rest != {}
      invariant rib.routes == old(rib.routes)
      decreases |rest|
    {
      var p :| p in rest;
      if p in data && OwnedByKind(data[p], NetworkInstanceGvk) {
        RestoreInstancePrefixes(rib, p, data[p], [], namespace);
      }
      rest := rest - {p};
    }
    RestorePrefixes(rib, data, IPPrefixGvk, prefixes);
    ghost var t1 := rib.routes;
    RestorePrefixes(rib, data, IPClaimGvk, claims);
    if old(rib.routes) == map[] {
      BothPasses(old(rib.routes), t1, rib.routes, data, prefixes, claims);
    }
  }

  /** Saving a table and restoring it into an empty one brings back exactly the
      routes whose owners are listed; it brings back the whole table if and only
      if every route has a listed IPPrefix or IPClaim as its owner. */
  method SaveAndRestore(rib: Rib, prefixes: seq<Item>, claims: seq<Item>, namespace: string) returns (back: Rib)
    ensures back.routes == map p | p in rib.routes && Restorable(rib.routes[p], prefixes, claims) :: rib.routes[p]
    ensures back.routes == rib.routes <==>
            forall p | p in rib.routes :: Restorable(rib.routes[p], prefixes, claims)
    ensures forall p | p in rib.routes && InstanceOwned(rib.routes[p]) :: p !in back.routes
  {
    var data := GetData(rib);
    back := new Rib(rib.nearestFirst);
    RestoreData(back, data, prefixes, claims, namespace);
  }
}
