/** The VLAN backend: claims and releases over the id database of VLAN ids, with
    the reserved ids of IEEE 802.1Q (Table 9-2, clause 9.6), and its storage. */
module Vlan {
  import opened Wrappers
  import opened Claims
  import opened IdDatabase

  const MAX_ENTRIES: nat := 4096

  const GUARDED: set<nat> := {0, 1, 4095}

  function ReservedLabels(kind: string): Labels {
    map[Custom("type") := Text(kind), Custom("status") := Text("reserved")]
  }

  /** The table of a fresh database: untagged, default and reserved. */
  function Reserved(): (s: Store)
    ensures s.Keys == GUARDED
  {
    map[0 := ReservedLabels("untagged"), 1 := ReservedLabels("default"), 4095 := ReservedLabels("reserved")]
  }

  method NewTable() returns (table: Database)
    ensures fresh(table) && IsVlanTable(table) && table.store == Reserved()
  {
    var init := [Entry(0, ReservedLabels("untagged")), Entry(1, ReservedLabels("default")),
                 Entry(4095, ReservedLabels("reserved"))];
    table := new Database(0, MAX_ENTRIES, 65536, GUARDED, init);
    assert init[..2] == [init[0], init[1]] && init[..2][..1] == [init[0]] && [init[0]][..0] == [];
    assert StoreOf([init[0]]) == map[0 := init[0].labels];
    assert StoreOf(init[..2]) == map[0 := init[0].labels, 1 := init[1].labels];
    assert StoreOf(init) == StoreOf(init[..2])[4095 := init[2].labels];
  }

  predicate IsVlanTable(table: Database) {
    table.offset == 0 && table.maxEntries == MAX_ENTRIES && table.modulus == 65536 && table.guarded == GUARDED
  }

  // ---------------------------------------------------------------------
  // Claims
  // ---------------------------------------------------------------------

  datatype ClaimType = Dynamic | Static(id: nat) | Range(start: nat, size: nat) | Size(count: nat)

  datatype VLANClaim = VLANClaim(claimType: ClaimType, labels: Labels, statusId: Option<nat>)

  /** The labels name an owner in full. */
  predicate Complete(l: Labels) {
    forall k | k in OwnerSelectorOf(l) :: k in l
  }

  predicate SameOwner(l: Labels, m: Labels) {
    OwnerSelectorOf(l) == OwnerSelectorOf(m)
  }

  ghost function OwnIds(store: Store, l: Labels): set<nat> {
    MatchIds(store, OwnerSelectorOf(l))
  }

  /** The table after a claim. */
  ghost function Claimed(store: Store, c: VLANClaim): Store {
    if OwnIds(store, c.labels) != {} then store
    else
      match c.claimType
      case Dynamic =>
        var free := FreeIn(store, 0, MAX_ENTRIES);
        if free == [] || free[0] in GUARDED then store else store[free[0] := c.labels]
      case Static(id) => if id < MAX_ENTRIES && id !in GUARDED then store[id := c.labels] else store
      case Range(_, _) => store
      case Size(_) => store
  }

  ghost function Released(store: Store, l: Labels): Store {
    store - OwnIds(store, l)
  }

  // ---------------------------------------------------------------------
  // The invariant
  // ---------------------------------------------------------------------

  ghost predicate Inv(store: Store) {
    && (forall id | id in GUARDED :: id in store && store[id] == Reserved()[id])
    && (forall id | id in store :: id < MAX_ENTRIES)
    && (forall id | id in store && id !in GUARDED :: Complete(store[id]))
    && (forall i, j | i in store && j in store && i !in GUARDED && j !in GUARDED && i != j ::
          !SameOwner(store[i], store[j]))
  }

  /** An entry belongs to an owner exactly when it names the same owner in full. */
  lemma OwnedIff(l: Labels, m: Labels)
    requires Complete(l)
    ensures Matches(OwnerSelectorOf(l), m) <==> Complete(m) && SameOwner(l, m)
  {
    var sel := OwnerSelectorOf(l);
    if Matches(sel, m) {
      assert forall k | k in sel :: k in m && m[k] == sel[k];
      assert NsnName in sel && NsnNamespace in sel && OwnerGvk in sel;
      assert OwnerNsnName in sel && OwnerNsnNamespace in sel;
    }
    if Complete(m) && SameOwner(l, m) {
      forall k | k in sel ensures k in m && m[k] == sel[k] {
        assert k in OwnerSelectorOf(m);
      }
    }
  }

  lemma ReservedUnowned(kind: string, l: Labels)
    ensures !Matches(OwnerSelectorOf(l), ReservedLabels(kind))
  {
    assert NsnName in OwnerSelectorOf(l);
  }

  /** An owner holds at most one id, and no reserved one. */
  lemma AtMostOne(store: Store, l: Labels, i: nat, j: nat)
    requires Inv(store) && Complete(l) && i in OwnIds(store, l) && j in OwnIds(store, l)
    ensures i == j && i !in GUARDED
  {
    forall id | id in GUARDED ensures id !in OwnIds(store, l) {
      ReservedUnowned("untagged", l);
      ReservedUnowned("default", l);
      ReservedUnowned("reserved", l);
    }
    OwnedIff(l, store[i]);
    OwnedIff(l, store[j]);
  }

  lemma AddKeepsInv(store: Store, id: nat, l: Labels)
    requires Inv(store) && Complete(l) && OwnIds(store, l) == {}
    requires id < MAX_ENTRIES && id !in GUARDED
    ensures Inv(store[id := l])
  {
    hide OwnerSelectorOf, Complete, SameOwner, Matches;
    forall i | i in store && i !in GUARDED ensures !SameOwner(l, store[i]) && !SameOwner(store[i], l) {
      OwnedIff(l, store[i]);
      assert i !in OwnIds(store, l);
      SameOwnerSymmetric(l, store[i]);
    }
  }

  lemma SameOwnerSymmetric(l: Labels, m: Labels)
    ensures SameOwner(l, m) <==> SameOwner(m, l)
  {
  }

  lemma ClaimKeepsInv(store: Store, c: VLANClaim)
    requires Inv(store) && Complete(c.labels)
    ensures Inv(Claimed(store, c))
  {
    FirstFree(store, 0, MAX_ENTRIES);
    if OwnIds(store, c.labels) == {} {
      match c.claimType
      case Dynamic =>
        var free := FreeIn(store, 0, MAX_ENTRIES);
        if free != [] && free[0] !in GUARDED {
          AddKeepsInv(store, free[0], c.labels);
        }
      case Static(id) =>
        if id < MAX_ENTRIES && id !in GUARDED {
          AddKeepsInv(store, id, c.labels);
        }
      case Range(_, _) =>
      case Size(_) =>
    }
  }

  lemma ReleaseKeepsInv(store: Store, l: Labels)
    requires Inv(store) && Complete(l)
    ensures Inv(Released(store, l))
  {
    forall id | id in GUARDED ensures id !in OwnIds(store, l) {
      if id in OwnIds(store, l) {
        AtMostOne(store, l, id, id);
      }
    }
  }

  // ---------------------------------------------------------------------
  // Runs
  // ---------------------------------------------------------------------

  datatype Op = Claim(claim: VLANClaim) | Release(labels: Labels)

  ghost function Step(store: Store, op: Op): Store {
    match op
    case Claim(c) => Claimed(store, c)
    case Release(l) => Released(store, l)
  }

  ghost function After(ops: seq<Op>): Store {
    if ops == [] then Reserved() else Step(After(ops[..|ops| - 1]), ops[|ops| - 1])
  }

  predicate Named(op: Op) {
    Complete(match op case Claim(c) => c.labels case Release(l) => l)
  }

  /** After any claims and releases by owners that name themselves: the reserved
      ids keep their entries, all ids are within bounds, and each owner holds at
      most one id. */
  lemma {:induction false} RunKeepsInv(ops: seq<Op>)
    requires forall op | op in ops :: Named(op)
    ensures Inv(After(ops))
  {
    if ops == [] {
      assert Reserved().Keys == GUARDED;
    } else {
      var init, op := ops[..|ops| - 1], ops[|ops| - 1];
      assert op in ops && forall o | o in init :: o in ops;
      RunKeepsInv(init);
      match op
      case Claim(c) => ClaimKeepsInv(After(init), c);
      case Release(l) => ReleaseKeepsInv(After(init), l);
    }
  }

  /** A new dynamic claim takes an id that was free, the least one, and changes no
      other entry; it changes nothing only when no id is free. */
  lemma DynamicTakesFree(store: Store, c: VLANClaim)
    requires Inv(store) && Complete(c.labels) && c.claimType.Dynamic? && OwnIds(store, c.labels) == {}
    ensures var store' := Claimed(store, c);
            if exists id: nat :: id < MAX_ENTRIES && id !in store then
              exists id: nat ::
                && id < MAX_ENTRIES && id !in store && store' == store[id := c.labels]
                && (forall x: nat | x < id :: x in store)
                && OwnIds(store', c.labels) == {id}
            else store' == store
  {
    assert forall id | id in GUARDED :: id in store;
    hide Inv, Complete, OwnIds, FreeIn;
    FirstFree(store, 0, MAX_ENTRIES);
    var free := FreeIn(store, 0, MAX_ENTRIES);
    if free != [] {
      OwnAfterAdd(store, free[0], c.labels);
    }
  }

  /** A new entry is all that its owner holds. */
  lemma OwnAfterAdd(store: Store, id: nat, l: Labels)
    requires Complete(l) && OwnIds(store, l) == {}
    ensures OwnIds(store[id := l], l) == {id}
  {
    OwnedIff(l, l);
    hide OwnerSelectorOf, Complete;
    var own := OwnIds(store[id := l], l);
    forall x ensures x in own <==> x == id {
      assert x in store && x != id ==> x !in OwnIds(store, l);
    }
  }

  // ---------------------------------------------------------------------
  // The handlers
  // ---------------------------------------------------------------------

  datatype Outcome =
    | Assigned(id: nat)        // the status carries this id
    | RangeReported            // the status carries a range
    | Unchanged
    | ReturnedMultiple | DifferentId | Refused | Crashed

  const BOUND: nat := MAX_ENTRIES - 1

  /** The last id of a range; one that wraps around below the start makes the range
      its start alone. */
  function RangeTop(start: nat, size: nat): (top: nat)
    ensures start <= top
  {
    var end := Wrap(start + size - 1, 65536);
    if end < start then start else end
  }

  /** What a claim of an owner without entries is told. */
  ghost function NewOutcome(store: Store, t: ClaimType): (outcome: Outcome)
    ensures outcome != ReturnedMultiple
  {
    var free := FreeIn(store, 0, MAX_ENTRIES);
    match t
    case Dynamic => if free == [] || free[0] in GUARDED then Refused else Assigned(free[0])
    case Static(id) => if id < MAX_ENTRIES && id !in GUARDED then Assigned(id) else Refused
    case Range(start, size) =>
      var top := RangeTop(start, size);
      if start >= BOUND || Wrap(start + size - 1, 65536) >= BOUND then Refused
      else if LowestInside(free, start, top) then Crashed
      else if Broken(free, start, top) then Refused
      else RangeReported
    case Size(count) =>
      if count < BOUND && (if count == 0 then 1 else count) <= |free| then RangeReported else Refused
  }

  lemma VlanBounds(table: Database)
    requires IsVlanTable(table)
    ensures table.Typed() && table.End() == MAX_ENTRIES && table.Bound() == BOUND
  {
    WrapSmall(MAX_ENTRIES, 65536);
    WrapSmall(BOUND, 65536);
  }

  /** What an owner of one id is told. */
  function FoundOutcome(c: VLANClaim, id: nat): Outcome {
    match c.claimType
    case Dynamic => Assigned(id)
    case Static(_) => if c.statusId in {None, Some(id)} then Assigned(id) else DifferentId
    case Range(_, _) => Unchanged
    case Size(_) => Unchanged
  }

  class Applogic {
    const table: Database

    constructor (table: Database)
      ensures this.table == table
    {
      this.table := table;
    }

    method GetEntriesByOwner(l: Labels) returns (entries: seq<Entry>)
      ensures ListsEntries(table.store, OwnIds(table.store, l), entries)
    {
      entries := table.GetByLabel(OwnerSelectorOf(l));
    }

    /** The handlers for an owner that holds entries. */
    method ApplyFound(entries: seq<Entry>, c: VLANClaim) returns (outcome: Outcome)
      requires entries != []
      ensures c.claimType.Dynamic? || c.claimType.Static? ==>
                (outcome == ReturnedMultiple <==> |entries| > 1)
      ensures c.claimType.Dynamic? && |entries| == 1 ==> outcome == Assigned(entries[0].id)
      ensures c.claimType.Static? && |entries| == 1 ==>
                outcome == if c.statusId in {None, Some(entries[0].id)} then Assigned(entries[0].id) else DifferentId
      ensures c.claimType.Range? || c.claimType.Size? ==> outcome == Unchanged
    {
      if c.claimType.Range? || c.claimType.Size? {
        return Unchanged;
      }
      if |entries| > 1 {
        return ReturnedMultiple;
      }
      if c.claimType.Dynamic? || c.statusId.None? || c.statusId == Some(entries[0].id) {
        return Assigned(entries[0].id);
      }
      return DifferentId;
    }

    method ApplyNewDynamic(c: VLANClaim) returns (outcome: Outcome)
      requires IsVlanTable(table) && OwnIds(table.store, c.labels) == {} && c.claimType.Dynamic?
      modifies table
      ensures table.store == Claimed(old(table.store), c)
      ensures outcome == NewOutcome(old(table.store), c.claimType)
    {
      hide FreeIn, OwnIds;
      VlanBounds(table);
      FirstFree(table.store, 0, MAX_ENTRIES);
      ghost var free := FreeIn(table.store, 0, MAX_ENTRIES);
      var r := table.FindFree();
      if r.NotFound? {
        assert free == [];
        return Refused;
      }
      assert free != [] && r.value == free[0];
      var ok := table.Set(Entry(r.value, c.labels));
      return if ok then Assigned(r.value) else Refused;
    }

    method ApplyNewStatic(c: VLANClaim) returns (outcome: Outcome)
      requires IsVlanTable(table) && OwnIds(table.store, c.labels) == {} && c.claimType.Static? && Fits16(c.claimType)
      modifies table
      ensures table.store == Claimed(old(table.store), c)
      ensures outcome == NewOutcome(old(table.store), c.claimType)
    {
      hide FreeIn, OwnIds;
      VlanBounds(table);
      var r := table.FindFreeID(c.claimType.id);
      if r.NotFound? {
        return Refused;
      }
      var ok := table.Set(Entry(r.value.id, c.labels));
      return if ok then Assigned(c.claimType.id) else Refused;
    }

    method ApplyNewRange(start: nat, size: nat) returns (outcome: Outcome)
      requires IsVlanTable(table) && start < 65536 && size < 65536
      ensures outcome == NewOutcome(table.store, Range(start, size))
    {
      hide FreeIn, Wrap, LowestInside, Broken, FreeBeyond, Within, Ascending;
      VlanBounds(table);
      var r := table.FindFreeRange(start, size);
      return if r.Found? then RangeReported else if r.NotFound? then Refused else Crashed;
    }

    method ApplyNewSize(count: nat) returns (outcome: Outcome)
      requires IsVlanTable(table) && count < 65536
      ensures outcome == NewOutcome(table.store, Size(count))
    {
      hide FreeIn, Wrap;
      VlanBounds(table);
      var r := table.FindFreeSize(count);
      return if r.Found? then RangeReported else Refused;
    }

    /** The handlers for a new claim: what happens to the table and what the claim
        is told. */
    method ApplyNew(c: VLANClaim) returns (outcome: Outcome)
      requires IsVlanTable(table) && OwnIds(table.store, c.labels) == {} && Fits16(c.claimType)
      modifies table
      ensures table.store == Claimed(old(table.store), c)
      ensures outcome == NewOutcome(old(table.store), c.claimType)
      ensures outcome.Assigned? ==> table.store == old(table.store)[outcome.id := c.labels]
    {
      hide FreeIn, OwnIds, Wrap, LowestInside, Broken;
      match c.claimType {
        case Dynamic => outcome := ApplyNewDynamic(c);
        case Static(_) => outcome := ApplyNewStatic(c);
        case Range(start, size) => outcome := ApplyNewRange(start, size);
        case Size(count) => outcome := ApplyNewSize(count);
      }
    }

    /** ApplyHandler: what the claim does to the table and what it is told; an owner
        is never found to hold several ids. */
    method ApplyHandler(c: VLANClaim) returns (outcome: Outcome)
      requires IsVlanTable(table) && Fits16(c.claimType)
      modifies table
      ensures table.store == Claimed(old(table.store), c)
      ensures Inv(old(table.store)) && Complete(c.labels) ==>
                Inv(table.store) && outcome != ReturnedMultiple
      ensures OwnIds(old(table.store), c.labels) == {} ==> outcome == NewOutcome(old(table.store), c.claimType)
      ensures Inv(old(table.store)) && Complete(c.labels) ==>
                forall id | id in OwnIds(old(table.store), c.labels) :: outcome == FoundOutcome(c, id)
      ensures outcome.Assigned? && Complete(c.labels) ==> outcome.id in OwnIds(table.store, c.labels)
    {
      hide Inv, Complete, OwnIds, NewOutcome, ListsEntries, Claimed, Fits16;
      ghost var store := table.store;
      if Inv(store) && Complete(c.labels) {
        ClaimKeepsInv(store, c);
      }
      var entries := GetEntriesByOwner(c.labels);
      FoundEntries(store, c.labels, entries);
      OwnerServed(store, c);
      if |entries| > 0 {
        outcome := ApplyFound(entries, c);
      } else {
        outcome := ApplyNew(c);
        if outcome.Assigned? && Complete(c.labels) {
          OwnAfterAdd(store, outcome.id, c.labels);
        }
      }
    }

    /** DeleteHandler: frees the ids of the owner and nothing else. It fails exactly
        when one of them is reserved, which the invariant rules out. */
    method DeleteHandler(l: Labels) returns (ok: bool)
      requires IsVlanTable(table)
      modifies table
      ensures ok <==> OwnIds(old(table.store), l) !! GUARDED
      ensures ok ==> table.store == Released(old(table.store), l)
      ensures Inv(old(table.store)) && Complete(l) ==> ok && Inv(table.store)
    {
      ghost var store := table.store;
      if Inv(store) && Complete(l) {
        ReleaseKeepsInv(store, l);
        OwnUnreserved(store, l);
      }
      hide Inv, Complete, OwnIds, OwnerSelectorOf, MatchIds;
      var entries := GetEntriesByOwner(l);
      ListedIds(store, OwnIds(store, l), entries);
      for i := 0 to |entries|
        invariant table.store == store - IdsOf(entries[..i]) && IdsOf(entries[..i]) !! GUARDED
      {
        IdsAppend(entries, i);
        var deleted := table.Delete(entries[i].id);
        if !deleted {
          return false;
        }
      }
      assert entries[..|entries|] == entries;
      ok := true;
    }
  }

  lemma OwnerServed(store: Store, c: VLANClaim)
    ensures OwnIds(store, c.labels) != {} ==> Claimed(store, c) == store
  {
  }

  lemma FoundEntries(store: Store, l: Labels, entries: seq<Entry>)
    requires ListsEntries(store, OwnIds(store, l), entries)
    ensures entries == [] <==> OwnIds(store, l) == {}
    ensures entries != [] ==> entries[0].id in OwnIds(store, l)
    ensures Inv(store) && Complete(l) ==>
              |entries| <= 1 && forall id | id in OwnIds(store, l) :: entries != [] && entries[0].id == id
  {
    if entries != [] {
      assert entries[0] in entries;
    }
    forall id | id in OwnIds(store, l) ensures Entry(id, store[id]) in entries {
    }
    if Inv(store) && Complete(l) {
      if |entries| > 1 {
        assert entries[1] in entries;
        AtMostOne(store, l, entries[0].id, entries[1].id);
        assert false;
      }
      forall id | id in OwnIds(store, l) ensures entries != [] && entries[0].id == id {
        assert Entry(id, store[id]) in entries;
        AtMostOne(store, l, entries[0].id, id);
      }
    }
  }

  ghost function IdsOf(entries: seq<Entry>): set<nat> {
    set e | e in entries :: e.id
  }

  lemma IdsAppend(entries: seq<Entry>, i: nat)
    requires i < |entries|
    ensures IdsOf(entries[..i + 1]) == IdsOf(entries[..i]) + {entries[i].id}
    ensures entries[i].id in IdsOf(entries)
  {
    assert entries[..i + 1] == entries[..i] + [entries[i]];
    assert entries[i] in entries;
    forall x ensures x in IdsOf(entries[..i + 1]) <==> x in IdsOf(entries[..i]) || x == entries[i].id {
      assert entries[i] in entries[..i + 1];
    }
  }

  lemma ListedIds(store: Store, ids: set<nat>, entries: seq<Entry>)
    requires ListsEntries(store, ids, entries) && ids <= store.Keys
    ensures IdsOf(entries) == ids
  {
    forall id | id in ids ensures id in IdsOf(entries) {
      assert Entry(id, store[id]) in entries;
    }
  }

  lemma OwnUnreserved(store: Store, l: Labels)
    requires Inv(store) && Complete(l)
    ensures OwnIds(store, l) !! GUARDED
  {
    forall id | id in OwnIds(store, l) ensures id !in GUARDED {
      AtMostOne(store, l, id, id);
    }
  }

  /** The numbers of a claim are 16-bit integers. */
  predicate Fits16(t: ClaimType) {
    match t
    case Dynamic => true
    case Static(id) => id < 65536
    case Range(start, size) => start < 65536 && size < 65536
    case Size(count) => count < 65536
  }

  // ---------------------------------------------------------------------
  // Ranges
  // ---------------------------------------------------------------------

  /** In a table of which the start of a range and some id beyond it are free, a range
      claim is refused exactly when a free id follows a used one. */
  lemma VlanRangeDecided(store: Store, start: nat, size: nat, beyond: nat)
    requires Inv(store) && 1 <= size && start + size - 1 < beyond < BOUND && start !in store && beyond !in store
    ensures NewOutcome(store, Range(start, size)) ==
            if exists x | start < x < start + size :: x !in store && x - 1 in store then Refused else RangeReported
  {
    hide FreeIn, Inv, LowestInside, Broken, FreeBeyond, Wrap;
    WrapSmall(start + size - 1, 65536);
    RangeDecided(store, 0, MAX_ENTRIES, start, start + size - 1, beyond);
  }

  /** On a fresh table a range that begins at a reserved id and goes on to the first
      free one panics, and no other does. */
  lemma FreshRangeCrashes(start: nat, size: nat)
    requires 1 <= size && start + size - 1 < BOUND
    ensures NewOutcome(Reserved(), Range(start, size)) == Crashed <==> start < 2 <= start + size - 1
  {
    hide FreeIn, Broken, Wrap;
    WrapSmall(start + size - 1, 65536);
    FirstFree(Reserved(), 0, MAX_ENTRIES);
    var free := FreeIn(Reserved(), 0, MAX_ENTRIES);
    assert 2 !in Reserved() && 0 in Reserved() && 1 in Reserved();
    assert free != [] && free[0] == 2;
  }

  /** A range that is free, with nothing free beyond it. */
  lemma NothingBeyond(store: Store, lo: nat, hi: nat, start: nat, end: nat)
    requires lo <= start <= end < hi
    requires (forall x | start <= x <= end :: x !in store) && (forall x | end < x < hi :: x in store)
    ensures var free := FreeIn(store, lo, hi);
            !LowestInside(free, start, end) && !Broken(free, start, end) && !FreeBeyond(free, end)
  {
    var free := FreeIn(store, lo, hi);
    FreeInExact(store, lo, hi);
    hide FreeIn;
    assert start in free;
    AscendingFirst(free, start);
    forall id | id in free && start < id <= end ensures id - 1 in free {
      assert id - 1 !in store;
    }
  }

  /** With only the last id before the reserved one taken, the range of all others is
      free, and yet the search returns nothing. */
  lemma FreeRangeLost(l: Labels)
    ensures var store := Reserved()[4094 := l];
            var free := FreeIn(store, 0, MAX_ENTRIES);
            && (forall x | 2 <= x <= 4093 :: x !in store)
            && !LowestInside(free, 2, 4093) && !Broken(free, 2, 4093) && !FreeBeyond(free, 4093)
  {
    hide FreeIn, LowestInside, Broken, FreeBeyond;
    var store := Reserved()[4094 := l];
    assert forall x | 2 <= x <= 4093 :: x !in store;
    NothingBeyond(store, 0, MAX_ENTRIES, 2, 4093);
  }

  // ---------------------------------------------------------------------
  // Storage
  // ---------------------------------------------------------------------

  /** A listed VLAN or VLANClaim, and whether its specification gives an id. */
  datatype Item = Item(name: string, namespace: string, hasId: bool)

  predicate OwnerListed(l: Labels, vlans: seq<Item>, claims: seq<Item>) {
    || (Lookup(l, OwnerGvk) == GvkValue(VLANGvk) && exists x | x in vlans :: NamedBy(l, x.name, x.namespace))
    || (Lookup(l, OwnerGvk) == GvkValue(VLANClaimGvk) && exists x | x in claims :: NamedBy(l, x.name, x.namespace))
  }

  method GetData(table: Database) returns (data: Store)
    ensures data == table.store
  {
    data := map[];
    var entries := table.GetAll();
    for i := 0 to |entries|
      invariant forall id | id in data :: id in table.store && data[id] == table.store[id]
      invariant forall j | 0 <= j < i :: entries[j].id in data
    {
      assert entries[i] in entries;
      data := data[entries[i].id := entries[i].labels];
    }
    forall id | id in table.store ensures id in data {
      assert Entry(id, table.store[id]) in entries;
    }
  }

  /** A listed VLAN is asked for its id on a match, which panics where it has none;
      a listed claim is not. */
  ghost predicate Trips(l: Labels, owner: OwnerKind, items: seq<Item>) {
    owner == VLANGvk && exists x | x in items :: NamedBy(l, x.name, x.namespace) && !x.hasId
  }

  /** One saved entry against a list of objects; every match sets it again. */
  method RestoreFromList(table: Database, id: nat, l: Labels, owner: OwnerKind, items: seq<Item>)
    returns (panicked: bool)
    requires IsVlanTable(table)
    modifies table
    ensures panicked <==> Trips(l, owner, items)
    ensures !panicked ==> table.store == if (exists x | x in items :: NamedBy(l, x.name, x.namespace)) && id !in GUARDED
                                         then old(table.store)[id := l] else old(table.store)
  {
    for i := 0 to |items|
      invariant table.store == if (exists x | x in items[..i] :: NamedBy(l, x.name, x.namespace)) && id !in GUARDED
                               then old(table.store)[id := l] else old(table.store)
      invariant owner == VLANGvk ==> forall x | x in items[..i] && NamedBy(l, x.name, x.namespace) :: x.hasId
    {
      assert items[..i + 1] == items[..i] + [items[i]];
      assert items[i] in items;
      if NamedBy(l, items[i].name, items[i].namespace) {
        if owner == VLANGvk && !items[i].hasId {
          return true;
        }
        var _ := table.Set(Entry(id, l));
        assert items[i] in items[..i + 1];
      }
    }
    assert items[..|items|] == items;
    panicked := false;
  }

  ghost predicate Wanted(data: Store, owner: OwnerKind, items: seq<Item>, id: nat) {
    && id in data && id !in GUARDED && Lookup(data[id], OwnerGvk) == GvkValue(owner)
    && exists x | x in items :: NamedBy(data[id], x.name, x.namespace)
  }

  /** `store` is `base` with the wanted entries of `ids` set. */
  ghost predicate Grown(base: Store, store: Store, data: Store, owner: OwnerKind, items: seq<Item>, ids: set<nat>) {
    forall id: nat ::
      if id in ids && Wanted(data, owner, items, id) then id in store && store[id] == data[id]
      else (id in store <==> id in base) && (id in base ==> store[id] == base[id])
  }

  lemma GrownStep(base: Store, store: Store, data: Store, owner: OwnerKind, items: seq<Item>, ids: set<nat>, id: nat)
    requires id in data && Grown(base, store, data, owner, items, ids)
    ensures Grown(base, if Wanted(data, owner, items, id) then store[id := data[id]] else store,
                  data, owner, items, ids + {id})
  {
    hide Wanted;
  }

  /** Some saved entry of the owner kind trips over a listed object. */
  ghost predicate AnyTrips(data: Store, owner: OwnerKind, items: seq<Item>) {
    exists id | id in data :: Lookup(data[id], OwnerGvk) == GvkValue(owner) && Trips(data[id], owner, items)
  }

  method RestoreVLANs(table: Database, data: Store, owner: OwnerKind, items: seq<Item>) returns (panicked: bool)
    requires IsVlanTable(table)
    modifies table
    ensures panicked <==> AnyTrips(data, owner, items)
    ensures !panicked ==> Grown(old(table.store), table.store, data, owner, items, data.Keys)
  {
    hide Grown, Trips;
    var done, rest := {}, data.Keys;
    NothingGrown(table.store, data, owner, items);
    while rest != {}
      invariant done + rest == data.Keys
      invariant Grown(old(table.store), table.store, data, owner, items, done)
      invariant forall id | id in done && Lookup(data[id], OwnerGvk) == GvkValue(owner) ::
                  !Trips(data[id], owner, items)
      decreases |rest|
    {
      var id :| id in rest;
      GrownStep(old(table.store), table.store, data, owner, items, done, id);
      if Lookup(data[id], OwnerGvk) == GvkValue(owner) {
        panicked := RestoreFromList(table, id, data[id], owner, items);
        if panicked {
          return;
        }
      }
      done, rest := done + {id}, rest - {id};
    }
    assert done == data.Keys;
    panicked := false;
  }

  lemma NothingGrown(store: Store, data: Store, owner: OwnerKind, items: seq<Item>)
    ensures Grown(store, store, data, owner, items, {})
  {
  }

  /** The table a restart leads to. */
  ghost function Restored(data: Store, vlans: seq<Item>, claims: seq<Item>): Store {
    Reserved() + map id | id in data && id !in GUARDED && OwnerListed(data[id], vlans, claims) :: data[id]
  }

  lemma WantedIff(data: Store, vlans: seq<Item>, claims: seq<Item>, id: nat)
    ensures Wanted(data, VLANGvk, vlans, id) || Wanted(data, VLANClaimGvk, claims, id) <==>
            id in data && id !in GUARDED && OwnerListed(data[id], vlans, claims)
    ensures Wanted(data, VLANGvk, vlans, id) || Wanted(data, VLANClaimGvk, claims, id) ==> id in data
  {
    hide NamedBy;
  }

  lemma BothPasses(s1: Store, s2: Store, data: Store, vlans: seq<Item>, claims: seq<Item>)
    requires Grown(Reserved(), s1, data, VLANGvk, vlans, data.Keys)
    requires Grown(s1, s2, data, VLANClaimGvk, claims, data.Keys)
    ensures s2 == Restored(data, vlans, claims)
  {
    hide Wanted, OwnerListed, ReservedLabels;
    var r := Restored(data, vlans, claims);
    forall id: nat ensures (id in s2 <==> id in r) && (id in s2 ==> s2[id] == r[id]) {
      WantedIff(data, vlans, claims, id);
    }
  }

  lemma RestoredIff(data: Store, vlans: seq<Item>, claims: seq<Item>)
    requires Inv(data)
    ensures Restored(data, vlans, claims) == data <==>
            forall id | id in data && id !in GUARDED :: OwnerListed(data[id], vlans, claims)
  {
    hide OwnerListed, Complete, SameOwner, ReservedLabels;
    var r := Restored(data, vlans, claims);
    if forall id | id in data && id !in GUARDED :: OwnerListed(data[id], vlans, claims) {
      forall id: nat ensures (id in data <==> id in r) && (id in r ==> r[id] == data[id]) {
        assert id in Reserved() ==> id in GUARDED;
      }
    } else {
      var id :| id in data && id !in GUARDED && !OwnerListed(data[id], vlans, claims);
      assert id !in r;
    }
  }

  /** Saving a table and restoring it into a fresh one gives back the same table
      if and only if the owner of every entry that is not reserved is listed. It
      panics exactly when an entry's owner is listed as a VLAN without an id. */
  method SaveAndRestore(table: Database, vlans: seq<Item>, claims: seq<Item>) returns (back: Database, panicked: bool)
    requires Inv(table.store)
    ensures panicked <==> AnyTrips(table.store, VLANGvk, vlans)
    ensures !panicked ==> back.store == Restored(table.store, vlans, claims)
    ensures !panicked ==>
              (back.store == table.store <==>
               forall id | id in table.store && id !in GUARDED :: OwnerListed(table.store[id], vlans, claims))
  {
    assert !AnyTrips(table.store, VLANClaimGvk, claims);
    hide Grown, OwnerListed, Restored, Inv, Reserved, AnyTrips;
    var data := GetData(table);
    back := NewTable();
    panicked := RestoreVLANs(back, data, VLANGvk, vlans);
    if panicked {
      return;
    }
    ghost var s1 := back.store;
    panicked := RestoreVLANs(back, data, VLANClaimGvk, claims);
    if !panicked {
      BothPasses(s1, back.store, data, vlans, claims);
      RestoredIff(data, vlans, claims);
    }
  }
}
