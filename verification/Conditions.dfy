/** The conditions of a resource: a list with one condition of each type, set in
    place and compared regardless of order, transition times and observed generations. */
module Conditions {
  import opened Wrappers
  import opened Sorting

  /** A condition; `generation` is the observed generation. */
  datatype Condition = Condition(
    kind: string, status: string, reason: string, message: string, time: int, generation: int)
  {
    /** Transition time and observed generation play no part. */
    predicate Equal(other: Condition) {
      kind == other.kind && status == other.status && reason == other.reason && message == other.message
    }

    function Untimed(): Condition {
      this.(time := 0, generation := 0)
    }
  }

  predicate Unique(cs: seq<Condition>) {
    forall i, j | 0 <= i < j < |cs| :: cs[i].kind != cs[j].kind
  }

  function Untimed(cs: seq<Condition>): seq<Condition> {
    seq(|cs|, i requires 0 <= i < |cs| => cs[i].Untimed())
  }

  /** The two lists are permutations of each other ignoring time. */
  ghost predicate Permuted(cs: seq<Condition>, ds: seq<Condition>) {
    multiset(Untimed(cs)) == multiset(Untimed(ds))
  }

  function DefaultCondition(kind: string): Condition {
    Condition(kind, "False", "", "", 0, 0)
  }

  function Lookup(cs: seq<Condition>, kind: string): Option<Condition> {
    if cs == [] then None
    else if cs[0].kind == kind then Some(cs[0])
    else Lookup(cs[1..], kind)
  }

  // ---------------------------------------------------------------------
  // Setting conditions
  // ---------------------------------------------------------------------

  /** The first `n` elements after setting one condition. */
  function Replaced(cs: seq<Condition>, c: Condition, n: nat): seq<Condition>
    requires n <= |cs|
  {
    seq(|cs|, i requires 0 <= i < |cs| => if i < n && cs[i].kind == c.kind && !cs[i].Equal(c) then c else cs[i])
  }

  function SetOne(cs: seq<Condition>, c: Condition): seq<Condition> {
    if exists i | 0 <= i < |cs| :: cs[i].kind == c.kind then Replaced(cs, c, |cs|) else cs + [c]
  }

  function SetAll(cs: seq<Condition>, supplied: seq<Condition>): seq<Condition> {
    if supplied == [] then cs
    else SetOne(SetAll(cs, supplied[..|supplied| - 1]), supplied[|supplied| - 1])
  }

  /** The last condition of a type that was supplied. */
  function LastSupplied(supplied: seq<Condition>, kind: string): Option<Condition> {
    if supplied == [] then None
    else if supplied[|supplied| - 1].kind == kind then Some(supplied[|supplied| - 1])
    else LastSupplied(supplied[..|supplied| - 1], kind)
  }

  predicate SameCondition(c: Option<Condition>, d: Option<Condition>) {
    c.Some? == d.Some? && (c.Some? ==> c.value.Equal(d.value))
  }

  class ConditionedStatus {
    var conditions: seq<Condition>

    constructor ()
      ensures conditions == []
    {
      conditions := [];
    }

    method GetCondition(kind: string) returns (c: Condition)
      ensures c == match Lookup(conditions, kind) case Some(d) => d case None => DefaultCondition(kind)
    {
      for i := 0 to |conditions|
        invariant Lookup(conditions, kind) == Lookup(conditions[i..], kind)
      {
        assert conditions[i..][1..] == conditions[i + 1..];
        if conditions[i].kind == kind {
          return conditions[i];
        }
      }
      c := DefaultCondition(kind);
    }

    method SetConditions(supplied: seq<Condition>)
      modifies this
      ensures conditions == SetAll(old(conditions), supplied)
    {
      for k := 0 to |supplied|
        invariant conditions == SetAll(old(conditions), supplied[..k])
      {
        var c := supplied[k];
        assert supplied[..k + 1][..k] == supplied[..k];
        ghost var before := conditions;
        var present := false;
        for i := 0 to |conditions|
          invariant |conditions| == |before| && conditions == Replaced(before, c, i)
          invariant present <==> exists j | 0 <= j < i :: before[j].kind == c.kind
        {
          assert conditions[i] == before[i];
          if conditions[i].kind == c.kind {
            present := true;
            if !conditions[i].Equal(c) {
              conditions := conditions[i := c];
            }
          }
        }
        if !present {
          assert conditions == before;
          conditions := conditions + [c];
        }
      }
      assert supplied[..|supplied|] == supplied;
    }

    /** Equal, also on absent statuses. With unique types it holds exactly when the
        lists are permutations of each other ignoring time. */
    static method Equal(r: ConditionedStatus?, other: ConditionedStatus?) returns (eq: bool)
      ensures r == null || other == null ==> eq == (r == null && other == null)
      ensures r != null && other != null && Unique(r.conditions) && Unique(other.conditions) ==>
                (eq <==> Permuted(r.conditions, other.conditions))
      ensures r != null && other != null && eq ==> Permuted(r.conditions, other.conditions)
    {
      if r == null || other == null {
        return r == null && other == null;
      }
      hide Unique, Permuted, SortedForm, SortedCopy;
      var cs, ds := r.conditions, other.conditions;
      if |ds| != |cs| {
        PermutedLength(cs, ds);
        return false;
      }
      var sc, oc := SortedCopy(cs), SortedCopy(ds);
      SortedEqual(cs, ds, sc, oc);
      for i := 0 to |sc|
        invariant forall j | 0 <= j < i :: sc[j].Equal(oc[j])
      {
        if !sc[i].Equal(oc[i]) {
          return false;
        }
      }
      eq := true;
    }
  }

  // ---------------------------------------------------------------------
  // Comparing
  // ---------------------------------------------------------------------

  ghost predicate SortedForm(cs: seq<Condition>, sorted: seq<Condition>) {
    && multiset(sorted) == multiset(cs)
    && forall i, j | 0 <= i < j < |sorted| :: !Less(sorted[j].kind, sorted[i].kind)
  }

  function Drop(cs: seq<Condition>, i: nat): seq<Condition>
    requires i < |cs|
  {
    cs[..i] + cs[i + 1..]
  }

  lemma Dropped(cs: seq<Condition>, i: nat)
    requires i < |cs|
    ensures multiset(cs) == multiset(Drop(cs, i)) + multiset{cs[i]}
    ensures |Drop(cs, i)| == |cs| - 1
  {
    assert cs == cs[..i] + [cs[i]] + cs[i + 1..];
  }

  lemma DroppedUntimed(cs: seq<Condition>, i: nat)
    requires i < |cs|
    ensures Untimed(Drop(cs, i)) == Drop(Untimed(cs), i)
  {
  }

  /** One element less on each side. */
  lemma PermutedStep(cs: seq<Condition>, i: nat, ds: seq<Condition>, j: nat)
    requires i < |cs| && j < |ds| && cs[i].Equal(ds[j]) && Permuted(Drop(cs, i), Drop(ds, j))
    ensures Permuted(cs, ds)
  {
    DroppedUntimed(cs, i);
    DroppedUntimed(ds, j);
    var u, v := Untimed(cs), Untimed(ds);
    assert u[i] == v[j];
    hide Drop, Untimed;
    Dropped(u, i);
    Dropped(v, j);
  }

  lemma Emptied(cs: seq<Condition>)
    requires multiset(cs) == multiset{}
    ensures cs == []
  {
    assert |multiset(cs)| == |cs|;
  }

  /** A copy of the list sorted by type. */
  function SortedCopy(cs: seq<Condition>): (sorted: seq<Condition>)
    ensures SortedForm(cs, sorted) && |sorted| == |cs|
  {
    var kind := (c: Condition) => c.kind;
    var sorted := SortBy(kind, cs);
    SortBySorts(kind, cs);
    assert |multiset(sorted)| == |sorted| && |multiset(cs)| == |cs|;
    sorted
  }

  lemma {:induction false} UntimedPermutes(cs: seq<Condition>, ds: seq<Condition>)
    requires multiset(cs) == multiset(ds)
    ensures Permuted(cs, ds)
    decreases |cs|
  {
    hide Drop, Permuted, Untimed;
    if cs == [] {
      Emptied(ds);
      assert Permuted(cs, ds) by { PermutedReflexive(cs); }
    } else {
      assert cs[0] in multiset(ds);
      var i :| 0 <= i < |ds| && ds[i] == cs[0];
      Dropped(cs, 0);
      Dropped(ds, i);
      assert multiset(Drop(cs, 0)) == multiset(cs) - multiset{cs[0]} == multiset(Drop(ds, i));
      UntimedPermutes(Drop(cs, 0), Drop(ds, i));
      PermutedStep(cs, 0, ds, i);
    }
  }

  lemma PermutedLength(cs: seq<Condition>, ds: seq<Condition>)
    ensures Permuted(cs, ds) ==> |cs| == |ds|
  {
    assert |multiset(Untimed(cs))| == |cs| && |multiset(Untimed(ds))| == |ds|;
  }

  lemma PermutedReflexive(cs: seq<Condition>)
    ensures Permuted(cs, cs)
  {
  }

  lemma UniquePermuted(cs: seq<Condition>, ds: seq<Condition>)
    requires Unique(cs) && multiset(cs) == multiset(ds)
    ensures Unique(ds)
  {
    forall i, j | 0 <= i < j < |ds| ensures ds[i].kind != ds[j].kind {
      assert ds == ds[..i] + [ds[i]] + ds[i + 1..j] + [ds[j]] + ds[j + 1..];
      assert ds[i] in multiset(cs) && ds[j] in multiset(cs);
      if ds[i] == ds[j] {
        TwiceRepeats(cs, ds[i]);
      }
    }
  }

  lemma TwiceRepeats(cs: seq<Condition>, c: Condition)
    requires multiset(cs)[c] >= 2
    ensures !Unique(cs)
  {
    var i :| 0 <= i < |cs| && cs[i] == c;
    assert cs == cs[..i] + [c] + cs[i + 1..];
    if c in cs[..i] {
      var j :| 0 <= j < i && cs[..i][j] == c;
      assert cs[j].kind == cs[i].kind;
    } else {
      assert c in cs[i + 1..];
      var j :| 0 <= j < |cs| - i - 1 && cs[i + 1..][j] == c;
      assert cs[i].kind == cs[i + 1 + j].kind;
    }
  }

  predicate Ascending(cs: seq<Condition>) {
    forall i, j | 0 <= i < j < |cs| :: Less(cs[i].kind, cs[j].kind)
  }

  lemma AscendingHead(cs: seq<Condition>, ds: seq<Condition>)
    requires Ascending(cs) && Ascending(ds) && cs != [] && ds != [] && cs[0] in ds && ds[0] in cs
    ensures cs[0] == ds[0]
  {
    LessTotal(cs[0].kind, ds[0].kind);
  }

  lemma AscendingRest(cs: seq<Condition>)
    requires Ascending(cs) && cs != []
    ensures Ascending(Drop(cs, 0)) && cs == [cs[0]] + Drop(cs, 0)
  {
    assert Drop(cs, 0) == cs[1..];
  }

  /** An ascending list is determined by its elements. */
  lemma {:induction false} AscendingDetermined(cs: seq<Condition>, ds: seq<Condition>)
    requires Ascending(cs) && Ascending(ds) && multiset(cs) == multiset(ds)
    ensures cs == ds
    decreases |cs|
  {
    hide Ascending, Drop;
    if cs == [] {
      Emptied(ds);
    } else {
      assert cs[0] in multiset(ds);
      assert ds[0] in multiset(cs);
      AscendingHead(cs, ds);
      Dropped(cs, 0);
      Dropped(ds, 0);
      assert multiset(Drop(cs, 0)) == multiset(cs) - multiset{cs[0]} == multiset(Drop(ds, 0));
      AscendingRest(cs);
      AscendingRest(ds);
      AscendingDetermined(Drop(cs, 0), Drop(ds, 0));
    }
  }

  lemma SortedUnique(cs: seq<Condition>, sorted: seq<Condition>)
    requires Unique(cs) && SortedForm(cs, sorted)
    ensures Ascending(Untimed(sorted))
  {
    UniquePermuted(cs, sorted);
    forall i, j | 0 <= i < j < |sorted| ensures Less(sorted[i].kind, sorted[j].kind) {
      LessTotal(sorted[i].kind, sorted[j].kind);
    }
  }

  /** Whatever order the sort gives to conditions of the same type: if the sorted
      lists agree position by position the lists are permutations ignoring time,
      and with unique types also the other way around. */
  lemma SortedEqual(cs: seq<Condition>, ds: seq<Condition>, sc: seq<Condition>, oc: seq<Condition>)
    requires SortedForm(cs, sc) && SortedForm(ds, oc) && |sc| == |oc|
    ensures (forall i | 0 <= i < |sc| :: sc[i].Equal(oc[i])) ==> Permuted(cs, ds)
    ensures Unique(cs) && Unique(ds) && Permuted(cs, ds) ==> forall i | 0 <= i < |sc| :: sc[i].Equal(oc[i])
  {
    UntimedPermutes(cs, sc);
    UntimedPermutes(ds, oc);
    if forall i | 0 <= i < |sc| :: sc[i].Equal(oc[i]) {
      assert Untimed(sc) == Untimed(oc);
    }
    if Unique(cs) && Unique(ds) && Permuted(cs, ds) {
      SortedUnique(cs, sc);
      SortedUnique(ds, oc);
      AscendingDetermined(Untimed(sc), Untimed(oc));
      forall i | 0 <= i < |sc| ensures sc[i].Equal(oc[i]) {
        assert Untimed(sc)[i] == Untimed(oc)[i];
      }
    }
  }

  /** Without unique types a permutation may compare as different. */
  lemma EqualNeedsUnique(c: Condition, d: Condition)
    requires c.kind == d.kind && !c.Equal(d)
    ensures SortedForm([c, d], [c, d]) && SortedForm([d, c], [d, c]) && Permuted([c, d], [d, c])
    ensures ![c, d][0].Equal([d, c][0])
  {
    SortedPair(c, d);
    SortedPair(d, c);
    var cs, ds := [c, d], [d, c];
    assert Drop(cs, 0) == [d] == Drop(ds, 1);
    hide Drop, Permuted, SortedForm;
    PermutedReflexive([d]);
    PermutedStep(cs, 0, ds, 1);
  }

  lemma SortedPair(c: Condition, d: Condition)
    requires c.kind == d.kind
    ensures SortedForm([c, d], [c, d])
  {
    LessTotal(c.kind, d.kind);
    hide Less;
  }

  // ---------------------------------------------------------------------
  // Runs
  // ---------------------------------------------------------------------

  lemma {:induction false} LookupFinds(cs: seq<Condition>, kind: string)
    ensures match Lookup(cs, kind)
            case None => forall i | 0 <= i < |cs| :: cs[i].kind != kind
            case Some(c) => exists i :: 0 <= i < |cs| && cs[i] == c && c.kind == kind
  {
    if cs != [] {
      if cs[0].kind != kind {
        LookupFinds(cs[1..], kind);
        if Lookup(cs, kind).Some? {
          var i :| 0 <= i < |cs| - 1 && cs[1..][i] == Lookup(cs, kind).value;
          assert cs[i + 1] == Lookup(cs, kind).value;
        }
      }
    }
  }

  lemma LookupUnique(cs: seq<Condition>, i: nat)
    requires Unique(cs) && i < |cs|
    ensures Lookup(cs, cs[i].kind) == Some(cs[i])
  {
    LookupFinds(cs, cs[i].kind);
  }

  lemma SetOneLooksUp(cs: seq<Condition>, c: Condition, kind: string)
    requires Unique(cs)
    ensures Unique(SetOne(cs, c))
    ensures if kind == c.kind then SameCondition(Lookup(SetOne(cs, c), kind), Some(c))
            else Lookup(SetOne(cs, c), kind) == Lookup(cs, kind)
  {
    var r := SetOne(cs, c);
    assert Unique(r);
    LookupFinds(cs, kind);
    LookupFinds(r, kind);
    if kind == c.kind {
      assert exists i :: 0 <= i < |r| && r[i].kind == kind by {
        if exists i | 0 <= i < |cs| :: cs[i].kind == kind {
          var i :| 0 <= i < |cs| && cs[i].kind == kind;
          assert r[i].kind == kind;
        } else {
          assert r[|cs|].kind == kind;
        }
      }
    } else if Lookup(cs, kind).Some? {
      var i :| 0 <= i < |cs| && cs[i] == Lookup(cs, kind).value;
      assert r[i] == cs[i];
      LookupUnique(r, i);
    } else {
      assert forall i | 0 <= i < |r| :: r[i].kind != kind;
    }
  }

  /** However conditions are set on a status with unique types: the types stay
      unique, a type that was supplied has the value supplied last, ignoring time,
      and a type that was not supplied keeps its condition. */
  lemma {:induction false} SetAllLooksUp(cs: seq<Condition>, supplied: seq<Condition>, kind: string)
    requires Unique(cs)
    ensures Unique(SetAll(cs, supplied))
    ensures var last := LastSupplied(supplied, kind);
            if last.Some? then SameCondition(Lookup(SetAll(cs, supplied), kind), last)
            else Lookup(SetAll(cs, supplied), kind) == Lookup(cs, kind)
  {
    if supplied != [] {
      var n := |supplied| - 1;
      SetAllLooksUp(cs, supplied[..n], kind);
      SetOneLooksUp(SetAll(cs, supplied[..n]), supplied[n], kind);
    }
  }

  /** Several calls act as one. */
  lemma {:induction false} SetAllConcat(cs: seq<Condition>, first: seq<Condition>, second: seq<Condition>)
    ensures SetAll(SetAll(cs, first), second) == SetAll(cs, first + second)
  {
    if second == [] {
      assert first + second == first;
    } else {
      var n := |second| - 1;
      SetAllConcat(cs, first, second[..n]);
      var all := first + second;
      assert all[..|all| - 1] == first + second[..n] && all[|all| - 1] == second[n];
      hide SetOne;
    }
  }

  /** Setting one condition changes nothing exactly when it is already there,
      ignoring time. */
  lemma SetOneNoOp(cs: seq<Condition>, c: Condition)
    ensures SetOne(cs, c) == cs <==>
            (exists i | 0 <= i < |cs| :: cs[i].kind == c.kind) &&
            (forall i | 0 <= i < |cs| && cs[i].kind == c.kind :: cs[i].Equal(c))
  {
    var r := SetOne(cs, c);
    if i :| 0 <= i < |cs| && cs[i].kind == c.kind && !cs[i].Equal(c) {
      assert r[i] == c;
    } else if exists i | 0 <= i < |cs| :: cs[i].kind == c.kind {
      assert forall i | 0 <= i < |cs| :: r[i] == cs[i];
    } else {
      assert |r| == |cs| + 1;
    }
  }

  /** Supplying what is already there changes nothing, times included. */
  lemma {:induction false} SetAllNoOp(cs: seq<Condition>, supplied: seq<Condition>)
    requires Unique(cs)
    requires forall c | c in supplied :: SameCondition(Lookup(cs, c.kind), Some(c))
    ensures SetAll(cs, supplied) == cs
  {
    if supplied != [] {
      var n := |supplied| - 1;
      var c := supplied[n];
      SetAllNoOp(cs, supplied[..n]);
      assert c in supplied;
      LookupFinds(cs, c.kind);
      var i :| 0 <= i < |cs| && cs[i] == Lookup(cs, c.kind).value;
      SetOneNoOp(cs, c);
    }
  }

  lemma PermutedHas(cs: seq<Condition>, ds: seq<Condition>, i: nat)
    requires Unique(ds) && Permuted(cs, ds) && i < |cs|
    ensures SameCondition(Some(cs[i]), Lookup(ds, cs[i].kind))
  {
    assert Untimed(cs)[i] in multiset(Untimed(ds));
    var j :| 0 <= j < |ds| && Untimed(ds)[j] == Untimed(cs)[i];
    LookupUnique(ds, j);
  }

  lemma PermutedFinds(cs: seq<Condition>, ds: seq<Condition>, kind: string)
    requires Unique(cs) && Unique(ds) && Permuted(cs, ds)
    ensures SameCondition(Lookup(cs, kind), Lookup(ds, kind))
  {
    hide Permuted, Unique, Lookup;
    LookupFinds(cs, kind);
    LookupFinds(ds, kind);
    forall i | 0 <= i < |cs| ensures SameCondition(Some(cs[i]), Lookup(ds, cs[i].kind)) {
      PermutedHas(cs, ds, i);
    }
    forall j | 0 <= j < |ds| ensures SameCondition(Some(ds[j]), Lookup(cs, ds[j].kind)) {
      PermutedSymmetric(cs, ds);
      PermutedHas(ds, cs, j);
    }
  }

  lemma PermutedSymmetric(cs: seq<Condition>, ds: seq<Condition>)
    requires Permuted(cs, ds)
    ensures Permuted(ds, cs)
  {
  }

  ghost predicate SameLookups(cs: seq<Condition>, ds: seq<Condition>) {
    forall kind :: SameCondition(Lookup(cs, kind), Lookup(ds, kind))
  }

  lemma {:induction false} FindsPermuted(cs: seq<Condition>, ds: seq<Condition>)
    requires Unique(cs) && Unique(ds) && SameLookups(cs, ds)
    ensures Permuted(cs, ds)
    decreases |cs|
  {
    hide Drop, Permuted, Unique, Lookup;
    if cs == [] {
      var kind := if ds == [] then "" else ds[0].kind;
      LookupFinds(cs, kind);
      LookupFinds(ds, kind);
      assert SameCondition(Lookup(cs, kind), Lookup(ds, kind));
      PermutedReflexive(cs);
    } else {
      var kind := cs[0].kind;
      LookupUnique(cs, 0);
      LookupFinds(ds, kind);
      assert SameCondition(Lookup(cs, kind), Lookup(ds, kind));
      var i :| 0 <= i < |ds| && ds[i] == Lookup(ds, kind).value;
      forall k ensures SameCondition(Lookup(Drop(cs, 0), k), Lookup(Drop(ds, i), k)) {
        Without(cs, 0, k);
        Without(ds, i, k);
        assert SameCondition(Lookup(cs, k), Lookup(ds, k));
      }
      Without(cs, 0, kind);
      Without(ds, i, kind);
      Dropped(cs, 0);
      FindsPermuted(Drop(cs, 0), Drop(ds, i));
      PermutedStep(cs, 0, ds, i);
    }
  }

  lemma Without(cs: seq<Condition>, i: nat, kind: string)
    requires Unique(cs) && i < |cs|
    ensures Unique(Drop(cs, i))
    ensures Lookup(Drop(cs, i), kind) == if kind == cs[i].kind then None else Lookup(cs, kind)
  {
    var rest := Drop(cs, i);
    assert forall j | 0 <= j < |rest| :: rest[j] == cs[if j < i then j else j + 1];
    hide Drop, Lookup;
    LookupFinds(rest, kind);
    LookupFinds(cs, kind);
    if kind != cs[i].kind && Lookup(cs, kind).Some? {
      var j :| 0 <= j < |cs| && cs[j] == Lookup(cs, kind).value;
      assert rest[if j < i then j else j - 1] == cs[j];
      LookupUnique(rest, if j < i then j else j - 1);
    }
  }

  lemma BuiltLookup(supplied: seq<Condition>, kind: string)
    ensures Unique(SetAll([], supplied))
    ensures SameCondition(Lookup(SetAll([], supplied), kind), LastSupplied(supplied, kind))
  {
    SetAllLooksUp([], supplied, kind);
  }

  ghost predicate SameSupplied(first: seq<Condition>, second: seq<Condition>) {
    forall kind :: SameCondition(LastSupplied(first, kind), LastSupplied(second, kind))
  }

  /** Two statuses built from empty are permutations of each other, ignoring time,
      exactly when each type was last supplied with the same value. */
  lemma RunsPermuted(first: seq<Condition>, second: seq<Condition>)
    ensures Permuted(SetAll([], first), SetAll([], second)) <==> SameSupplied(first, second)
  {
    hide Permuted, Unique, Lookup, SetAll, LastSupplied;
    var cs, ds := SetAll([], first), SetAll([], second);
    BuiltLookup(first, "");
    BuiltLookup(second, "");
    if Permuted(cs, ds) {
      forall kind ensures SameCondition(LastSupplied(first, kind), LastSupplied(second, kind)) {
        PermutedFinds(cs, ds, kind);
        BuiltLookup(first, kind);
        BuiltLookup(second, kind);
      }
    }
    if SameSupplied(first, second) {
      forall kind ensures SameCondition(Lookup(cs, kind), Lookup(ds, kind)) {
        assert SameCondition(LastSupplied(first, kind), LastSupplied(second, kind));
        BuiltLookup(first, kind);
        BuiltLookup(second, kind);
      }
      FindsPermuted(cs, ds);
    }
  }
}
