/** The database of integer identifiers: entries by id, and the search for free
    ids, alone, as a range, or as a number of them.

    Ids are unsigned machine integers; sums that leave their range wrap around
    modulo `modulus`. */
module IdDatabase {
  import opened Wrappers
  import opened Claims

  type Store = map<nat, Labels>

  datatype Entry = Entry(id: nat, labels: Labels)

  // ---------------------------------------------------------------------
  // Free ids
  // ---------------------------------------------------------------------

  /** The ids of [lo, hi) that are not in the store, ascending. */
  function FreeIn(store: Store, lo: nat, hi: nat): (r: seq<nat>)
    requires lo <= hi
    decreases hi
  {
    if lo == hi then []
    else
      var before := FreeIn(store, lo, hi - 1);
      if hi - 1 in store then before else before + [hi - 1]
  }

  predicate Ascending(ids: seq<nat>) {
    forall i, j | 0 <= i < j < |ids| :: ids[i] < ids[j]
  }

  /** The enumeration is ascending and is the complement of the store. */
  lemma {:induction false} FreeInExact(store: Store, lo: nat, hi: nat)
    requires lo <= hi
    ensures Ascending(FreeIn(store, lo, hi))
    ensures forall x: nat :: x in FreeIn(store, lo, hi) <==> lo <= x < hi && x !in store
    decreases hi
  {
    if lo < hi {
      FreeInExact(store, lo, hi - 1);
      var before, free := FreeIn(store, lo, hi - 1), FreeIn(store, lo, hi);
      assert free == if hi - 1 in store then before else before + [hi - 1];
      hide FreeIn;
      AppendAscends(before, hi - 1);
    }
  }

  lemma AppendAscends(ids: seq<nat>, x: nat)
    requires Ascending(ids) && forall y | y in ids :: y < x
    ensures Ascending(ids + [x]) && forall y :: y in ids + [x] <==> y in ids || y == x
  {
    assert forall i | 0 <= i < |ids| :: ids[i] in ids;
  }

  lemma AscendingFirst(ids: seq<nat>, x: nat)
    requires Ascending(ids) && ids != []
    ensures x in ids ==> ids[0] <= x
  {
  }

  /** The first free id is the least, and there is none when nothing is free. */
  lemma FirstFree(store: Store, lo: nat, hi: nat)
    requires lo <= hi
    ensures var free := FreeIn(store, lo, hi);
            if free == [] then forall x: nat | lo <= x < hi :: x in store
            else lo <= free[0] < hi && free[0] !in store && forall x: nat | lo <= x < free[0] :: x in store
  {
    var free := FreeIn(store, lo, hi);
    FreeInExact(store, lo, hi);
    if free != [] {
      assert free[0] in free;
      forall x: nat | lo <= x < free[0] ensures x in store {
        AscendingFirst(free, x);
      }
    } else {
      forall x: nat | lo <= x < hi ensures x in store {
        assert x !in free;
      }
    }
  }

  /** In an ascending sequence an element is preceded by its predecessor exactly
      when the predecessor occurs. */
  lemma ConsecutiveIff(ids: seq<nat>, i: nat)
    requires Ascending(ids) && 0 < i < |ids|
    ensures ids[i - 1] + 1 == ids[i] <==> ids[i] > 0 && ids[i] - 1 in ids
  {
    if ids[i] > 0 && ids[i] - 1 in ids {
      var j :| 0 <= j < |ids| && ids[j] == ids[i] - 1;
      assert j == i - 1;
    }
  }

  /** The iterator over a sequence of keys; it starts before the first one. */
  class Iterator {
    const keys: seq<nat>
    var current: int

    constructor (keys: seq<nat>)
      ensures this.keys == keys && current == -1
    {
      this.keys, current := keys, -1;
    }

    method Next() returns (more: bool)
      modifies this
      ensures current == old(current) + 1 && more == (current < |keys|)
    {
      current := current + 1;
      more := current < |keys|;
    }

    function Value(): nat
      requires 0 <= current < |keys|
      reads this
    {
      keys[current]
    }

    /** Compares with the key before; at the first key that index is out of range
        and the source panics. */
    function IsConsecutive(): Option<bool>
      requires 0 <= current < |keys|
      reads this
    {
      if current == 0 then None else Some(keys[current - 1] + 1 == keys[current])
    }
  }

  // ---------------------------------------------------------------------
  // The database
  // ---------------------------------------------------------------------

  datatype Search<T> = Found(value: T) | NotFound | Panicked

  /** Sums of machine integers. */
  function Wrap(x: int, modulus: nat): nat
    requires modulus > 0
  {
    x % modulus
  }

  lemma WrapSmall(x: nat, modulus: nat)
    requires x < modulus
    ensures Wrap(x, modulus) == x
  {
  }

  method LeastId(ids: set<nat>) returns (least: nat)
    requires ids != {}
    ensures least in ids && forall id | id in ids :: least <= id
  {
    least :| least in ids;
    var others := ids - {least};
    while others != {}
      invariant least in ids && others <= ids && least !in others
      invariant forall id | id in ids && id !in others :: least <= id
      decreases |others|
    {
      var id :| id in others;
      others := others - {id};
      if id < least {
        least := id;
      }
    }
  }

  /** `entries` are the entries of `ids` in ascending order. */
  ghost predicate ListsEntries(store: Store, ids: set<nat>, entries: seq<Entry>) {
    && (forall e | e in entries :: e.id in ids && e.id in store && e.labels == store[e.id])
    && (forall id | id in ids :: id in store && Entry(id, store[id]) in entries)
    && (forall i, j | 0 <= i < j < |entries| :: entries[i].id < entries[j].id)
  }

  ghost function MatchIds(store: Store, sel: Labels): set<nat> {
    set id | id in store && Matches(sel, store[id])
  }

  ghost predicate Below(ids: set<nat>, others: set<nat>) {
    forall a, b | a in ids && b in others :: a < b
  }

  lemma ListsMore(store: Store, done: set<nat>, rest: set<nat>, entries: seq<Entry>, id: nat)
    requires ListsEntries(store, done, entries) && Below(done, rest)
    requires id in store && id in rest && forall x | x in rest :: id <= x
    ensures ListsEntries(store, done + {id}, entries + [Entry(id, store[id])])
    ensures Below(done + {id}, rest - {id})
    ensures (done + {id}) + (rest - {id}) == done + rest
  {
    var more := entries + [Entry(id, store[id])];
    assert forall e :: e in more <==> e in entries || e == Entry(id, store[id]);
    assert forall i | 0 <= i < |entries| :: entries[i] in entries;
  }

  method ListEntries(store: Store, ids: set<nat>) returns (entries: seq<Entry>)
    requires ids <= store.Keys
    ensures ListsEntries(store, ids, entries)
  {
    entries := [];
    var done, rest := {}, ids;
    assert ListsEntries(store, done, entries) && Below(done, rest);
    hide ListsEntries, Below;
    while rest != {}
      invariant done + rest == ids && ListsEntries(store, done, entries) && Below(done, rest)
      decreases |rest|
    {
      var least := LeastId(rest);
      ListsMore(store, done, rest, entries, least);
      entries := entries + [Entry(least, store[least])];
      done, rest := done + {least}, rest - {least};
    }
    assert done == ids;
  }

  class Database {
    const offset: nat
    const maxEntries: nat
    const modulus: nat
    // ids that may be neither set nor deleted
    const guarded: set<nat>
    var store: Store

    constructor (offset: nat, maxEntries: nat, modulus: nat, guarded: set<nat>, init: seq<Entry>)
      requires offset < modulus && maxEntries < modulus
      ensures this.offset == offset && this.maxEntries == maxEntries && this.modulus == modulus
      ensures this.guarded == guarded && Typed()
      ensures store == StoreOf(init)
    {
      this.offset, this.maxEntries, this.modulus, this.guarded := offset, maxEntries, modulus, guarded;
      store := map[];
      new;
      for i := 0 to |init|
        invariant store == StoreOf(init[..i])
      {
        assert init[..i + 1][..i] == init[..i];
        store := store[init[i].id := init[i].labels];
      }
      assert init[..|init|] == init;
    }

    /** The configuration consists of machine integers. */
    predicate Typed() {
      offset < modulus && maxEntries < modulus
    }

    /** The end of the configured interval, which is empty when the sum wraps around
        below the offset. */
    function End(): (end: nat)
      requires Typed()
      ensures offset <= end
    {
      var end := Wrap(offset + maxEntries, modulus);
      if end < offset then offset else end
    }

    /** The bound that the searches check against: the last id, unless it wraps. */
    function Bound(): nat
      requires Typed()
    {
      Wrap(offset + maxEntries - 1, modulus)
    }

    ghost function Free(): seq<nat>
      requires Typed()
      reads this
    {
      FreeIn(store, offset, End())
    }

    method Set(e: Entry) returns (ok: bool)
      modifies this
      ensures ok <==> e.id !in guarded
      ensures store == if ok then old(store)[e.id := e.labels] else old(store)
    {
      ok := e.id !in guarded;
      if ok {
        store := store[e.id := e.labels];
      }
    }

    method Delete(id: nat) returns (ok: bool)
      modifies this
      ensures ok <==> id !in guarded
      ensures store == if ok then old(store) - {id} else old(store)
    {
      ok := id !in guarded;
      if ok {
        store := store - {id};
      }
    }

    /** The entries in ascending order of their ids. */
    method GetAll() returns (entries: seq<Entry>)
      ensures ListsEntries(store, store.Keys, entries)
    {
      entries := ListEntries(store, store.Keys);
    }

    /** The entries whose labels match, in ascending order of their ids. */
    method GetByLabel(sel: Labels) returns (entries: seq<Entry>)
      ensures ListsEntries(store, MatchIds(store, sel), entries)
    {
      entries := ListEntries(store, set id | id in store && Matches(sel, store[id]));
    }

    /** Ascending, exactly the ids of the interval that are not in the store. */
    method IterateFree() returns (free: Iterator)
      requires Typed()
      ensures fresh(free) && free.current == -1
      ensures free.keys == Free()
    {
      hide Wrap;
      var keys := [];
      var id := offset;
      while id < Wrap(offset + maxEntries, modulus)
        invariant offset <= id <= End()
        invariant keys == FreeIn(store, offset, id)
      {
        if id !in store {
          keys := keys + [id];
        }
        id := id + 1;
      }
      free := new Iterator(keys);
    }

    /** The least free id. */
    method FindFree() returns (r: Search<nat>)
      requires Typed()
      ensures r.Found? ==>
                && offset <= r.value < End() && r.value !in store
                && forall x: nat | offset <= x < r.value :: x in store
      ensures r.NotFound? ==> forall x: nat | offset <= x < End() :: x in store
      ensures !r.Panicked?
    {
      hide Wrap;
      FirstFree(store, offset, End());
      var free := IterateFree();
      var more := free.Next();
      if more {
        return Found(free.Value());
      }
      return NotFound;
    }

    /** An id within the bound is returned whether it is free or not. */
    method FindFreeID(id: nat) returns (r: Search<Entry>)
      requires Typed() && id < modulus
      ensures r.Found? <==> id <= Bound()
      ensures r.Found? ==> r.value == Entry(id, if id in store then store[id] else map[])
      ensures !r.Panicked?
    {
      if id > Bound() {
        return NotFound;
      }
      return Found(Entry(id, if id in store then store[id] else map[]));
    }

    // -------------------------------------------------------------------
    // A number of free ids
    // -------------------------------------------------------------------

    /** The `size` lowest free ids, or nothing when there are fewer; a request for
        none is served with one. */
    method FindFreeSize(size: nat) returns (r: Search<seq<nat>>)
      requires Typed() && size < modulus
      ensures var free := Free();
              var want := if size == 0 then 1 else size;
              if size >= Bound() then r == NotFound
              else if want <= |free| then r == Found(free[..want])
              else r == NotFound
    {
      hide Wrap, FreeIn;
      if size >= Bound() {
        return NotFound;
      }
      var entries := [];
      var free := IterateFree();
      var i := 0;
      var more := free.Next();
      while more
        invariant 0 <= free.current <= |free.keys| && more == (free.current < |free.keys|)
        invariant i == free.current && (i == 0 || i < size) && entries == free.keys[..i]
        invariant fresh(free)
        decreases |free.keys| - free.current
      {
        assert free.keys[..i + 1] == free.keys[..i] + [free.keys[i]];
        i := i + 1;
        entries := entries + [free.Value()];
        if i >= size {
          return Found(entries);
        }
        more := free.Next();
      }
      return NotFound;
    }

    // -------------------------------------------------------------------
    // A range of ids
    // -------------------------------------------------------------------

    /** The ids of a range that are free.  It fails where a free id follows a used
        one; it panics where the lowest free id lies inside the range but not at
        its start; and when nothing is free beyond the range it returns the empty
        list whatever it has found.  An end that wraps around below the start
        makes the range its start alone. */
    method FindFreeRange(start: nat, size: nat) returns (r: Search<seq<nat>>)
      requires Typed() && start < modulus && size < modulus
      ensures var free := Free();
              var end := Wrap(start + size - 1, modulus);
              var top := if end < start then start else end;
              if start >= Bound() || end >= Bound() then r == NotFound
              else if LowestInside(free, start, top) then r == Panicked
              else if Broken(free, start, top) then r == NotFound
              else if !FreeBeyond(free, top) then r == Found([])
              else r.Found? && Ascending(r.value) && Within(free, start, top, r.value)
    {
      hide Wrap;
      var end := Wrap(start + size - 1, modulus);
      if start >= Bound() {
        return NotFound;
      }
      if end >= Bound() {
        return NotFound;
      }
      FreeInExact(store, offset, End());
      var free := IterateFree();
      r := WalkRange(free, start, end);
    }
  }

  /** The walk over the free ids in the search for a range. */
  method WalkRange(free: Iterator, start: nat, end: nat) returns (r: Search<seq<nat>>)
    requires free.current == -1 && Ascending(free.keys)
    modifies free
    ensures var top := if end < start then start else end;
            if LowestInside(free.keys, start, top) then r == Panicked
            else if Broken(free.keys, start, top) then r == NotFound
            else if !FreeBeyond(free.keys, top) then r == Found([])
            else r.Found? && Ascending(r.value) && Within(free.keys, start, top, r.value)
  {
    hide Ascending, Within, Walked, Broken, LowestInside, FreeBeyond;
    ghost var top := if end < start then start else end;
    StartWalk(free.keys, start, top);
    var entries: seq<nat> := [];
    var more := free.Next();
    while more
      invariant 0 <= free.current <= |free.keys| && more == (free.current < |free.keys|)
      invariant Walked(free.keys, free.current, start, top)
      invariant Ascending(entries) && Within(free.keys[..free.current], start, top, entries)
      decreases |free.keys| - free.current
    {
      ghost var c := free.current;
      var id := free.Value();
      WithinStep(free.keys, c, start, top, entries);
      if id > start {
        if id > end {
          WalkedPast(free.keys, c, start, top, entries);
          return Found(entries);
        }
        if free.IsConsecutive() == None {
          WalkedBroken(free.keys, c, start, top);
          return Panicked;
        }
        if free.IsConsecutive() == Some(false) {
          WalkedBroken(free.keys, c, start, top);
          return NotFound;
        }
      }
      WalkOn(free.keys, c, start, top);
      if id >= start {
        entries := entries + [id];
      }
      more := free.Next();
    }
    WalkedPast(free.keys, |free.keys|, start, top, entries) by {
      assert free.keys[..free.current] == free.keys;
    }
    return Found([]);
  }

  /** Inside (start, end] a free id follows one that is not free. */
  ghost predicate Broken(free: seq<nat>, start: nat, end: nat) {
    exists id | id in free :: start < id <= end && id - 1 !in free
  }

  /** The lowest of all free ids lies in (start, end]. */
  ghost predicate LowestInside(free: seq<nat>, start: nat, end: nat) {
    free != [] && start < free[0] <= end
  }

  ghost predicate FreeBeyond(free: seq<nat>, end: nat) {
    exists id | id in free :: end < id
  }

  /** `ids` are the free ids of [start, end]. */
  ghost predicate Within(free: seq<nat>, start: nat, end: nat, ids: seq<nat>) {
    forall x: nat :: x in ids <==> x in free && start <= x <= end
  }

  /** The search has passed the first `c` free ids without complaint. */
  ghost predicate Walked(free: seq<nat>, c: nat, start: nat, end: nat)
    requires c <= |free|
  {
    forall i | 0 <= i < c :: free[i] <= end && (free[i] > start ==> Follows(free, i))
  }

  /** An element and its predecessor are neighbours. */
  predicate Follows(free: seq<nat>, i: nat)
    requires i < |free|
  {
    i > 0 && free[i - 1] + 1 == free[i]
  }

  lemma StartWalk(free: seq<nat>, start: nat, end: nat)
    ensures Walked(free, 0, start, end) && Within(free[..0], start, end, []) && Ascending([])
  {
  }

  lemma WalkOn(free: seq<nat>, c: nat, start: nat, end: nat)
    requires c < |free| && Walked(free, c, start, end) && free[c] <= end
    requires free[c] > start ==> c > 0 && free[c - 1] + 1 == free[c]
    ensures Walked(free, c + 1, start, end)
  {
  }

  lemma WithinStep(free: seq<nat>, c: nat, start: nat, end: nat, ids: seq<nat>)
    requires c < |free| && Ascending(free) && Ascending(ids) && Within(free[..c], start, end, ids)
    ensures start <= free[c] <= end ==> Ascending(ids + [free[c]]) && Within(free[..c + 1], start, end, ids + [free[c]])
    ensures free[c] < start ==> Within(free[..c + 1], start, end, ids)
  {
    assert free[..c + 1] == free[..c] + [free[c]];
    forall x | x in ids ensures x < free[c] {
      assert x in free[..c];
      var i :| 0 <= i < c && free[..c][i] == x;
      assert free[i] == x;
    }
    assert forall i | 0 <= i < |ids| :: ids[i] in ids;
  }

  /** The search stopped at an id that does not follow its predecessor. */
  lemma WalkedBroken(free: seq<nat>, c: nat, start: nat, end: nat)
    requires c < |free| && Ascending(free) && Walked(free, c, start, end)
    requires start < free[c] <= end && (c > 0 ==> free[c - 1] + 1 != free[c])
    ensures c == 0 <==> LowestInside(free, start, end)
    ensures c > 0 ==> Broken(free, start, end)
  {
    assert c > 0 ==> free[0] <= start;
    if c > 0 {
      ConsecutiveIff(free, c);
      assert free[c] in free;
    }
  }

  /** The search went past the end of the range. */
  lemma WalkedPast(free: seq<nat>, c: nat, start: nat, end: nat, ids: seq<nat>)
    requires c <= |free| && Ascending(free) && Walked(free, c, start, end) && start <= end
    requires c < |free| ==> end < free[c]
    requires Within(free[..c], start, end, ids)
    ensures !LowestInside(free, start, end) && !Broken(free, start, end)
    ensures FreeBeyond(free, end) <==> c < |free|
    ensures Within(free, start, end, ids)
  {
    PassedIds(free, c, end);
    WalkedUnbroken(free, c, start, end);
    hide Walked, Broken;
    if c < |free| {
      assert free[c] in free;
    }
  }

  /** The ids passed are those up to the end of the range. */
  lemma PassedIds(free: seq<nat>, c: nat, end: nat)
    requires c <= |free| && Ascending(free) && (c < |free| ==> end < free[c])
    ensures forall x | x in free && x <= end :: x in free[..c]
    ensures forall x | x in free[..c] :: x in free
  {
    forall x | x in free && x <= end ensures x in free[..c] {
      var i :| 0 <= i < |free| && free[i] == x;
      assert free[..c][i] == x;
    }
  }

  lemma WalkedUnbroken(free: seq<nat>, c: nat, start: nat, end: nat)
    requires c <= |free| && Ascending(free) && Walked(free, c, start, end) && (c < |free| ==> end < free[c])
    ensures !LowestInside(free, start, end) && !Broken(free, start, end)
    ensures forall i | 0 <= i < c :: free[i] <= end
  {
    forall id | id in free && start < id <= end ensures id - 1 in free {
      var i :| 0 <= i < |free| && free[i] == id;
      assert free[i - 1] in free;
    }
  }

  /** With the start of the range and some id beyond it free, the search neither
      panics nor loses what it found: it fails exactly when a free id follows a
      used one inside the range. */
  lemma RangeDecided(store: Store, lo: nat, hi: nat, start: nat, end: nat, beyond: nat)
    requires lo <= start <= end < beyond < hi && start !in store && beyond !in store
    ensures var free := FreeIn(store, lo, hi);
            && !LowestInside(free, start, end) && FreeBeyond(free, end)
            && (Broken(free, start, end) <==> exists x | start < x <= end :: x !in store && x - 1 in store)
  {
    var free := FreeIn(store, lo, hi);
    FreeInExact(store, lo, hi);
    hide FreeIn;
    assert start in free && beyond in free;
    AscendingFirst(free, start);
    if x :| start < x <= end && x !in store && x - 1 in store {
      assert x in free && x - 1 !in free;
    }
  }

  /** With the start of the range free, a range of free ids that is not broken is a
      run from the start: it is as long as the range exactly when the whole range is
      free. */
  lemma {:induction false} RunFromStart(store: Store, lo: nat, hi: nat, start: nat, size: nat, ids: seq<nat>)
    requires lo <= start && 1 <= size && start + size <= hi && start !in store
    requires var free := FreeIn(store, lo, hi); !Broken(free, start, start + size - 1)
    requires Ascending(ids) && Within(FreeIn(store, lo, hi), start, start + size - 1, ids)
    ensures 1 <= |ids| <= size && forall i | 0 <= i < |ids| :: ids[i] == start + i
    ensures |ids| == size <==> forall x | start <= x < start + size :: x !in store
  {
    var free, end := FreeIn(store, lo, hi), start + size - 1;
    FreeInExact(store, lo, hi);
    assert start in ids;
    RunPrefix(free, start, end, ids);
    assert ids[|ids| - 1] in ids;
    if |ids| == size {
      forall x | start <= x < start + size ensures x !in store {
        assert ids[x - start] in ids;
      }
    }
    if forall x | start <= x < start + size :: x !in store {
      assert end in ids;
    }
  }

  lemma RunPrefix(free: seq<nat>, start: nat, end: nat, ids: seq<nat>)
    requires Ascending(ids) && Within(free, start, end, ids) && start in ids && !Broken(free, start, end)
    ensures forall i | 0 <= i < |ids| :: ids[i] == start + i
  {
    assert forall i | 0 <= i < |ids| :: ids[i] in ids;
    var z :| 0 <= z < |ids| && ids[z] == start;
    assert ids[0] in ids && z == 0;
    for i := 1 to |ids|
      invariant forall j | 0 <= j < i :: ids[j] == start + j
    {
      assert ids[i] in free && ids[i] - 1 in free;
      assert ids[i] - 1 in ids;
      ConsecutiveIff(ids, i);
    }
  }

  function StoreOf(entries: seq<Entry>): Store {
    if entries == [] then map[]
    else StoreOf(entries[..|entries| - 1])[entries[|entries| - 1].id := entries[|entries| - 1].labels]
  }
}
