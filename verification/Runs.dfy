/** Runs of the backend: claims of created prefixes, their repetition and their
    deletion, in any order and by any number of owners. */
module Runs {
  import opened Prefixes
  import opened Claims
  import opened Wrappers
  import opened RoutingTable
  import opened Expansion
  import opened Validation
  import opened Updates
  import opened Hierarchy

  // ---------------------------------------------------------------------
  // ApplyPrefix and Delete as relations between tables
  // ---------------------------------------------------------------------

  /** The prefix whose presence decides between adding and updating. */
  function TargetKey(c: IPClaim, pi: Prefix): Prefix {
    if c.kind.Network? then
      if c.createPrefix.None? then AddressPrefix(pi) else Masked(pi)
    else pi
  }

  /** More than one own route is an error except for created networks. */
  predicate TooMany(c: IPClaim, rs: seq<Route>) {
    |rs| > 1 && !(c.createPrefix.Some? && c.kind.Network?)
  }

  ghost predicate Applied(t: Table, c: IPClaim, pi: Prefix, m: Mode, t': Table) {
    if TargetKey(c, pi) in t then
      exists rs :: Enumerates(rs, t, OwnKeys(t, c)) && UpdatedBy(t, c, pi, m, rs, t')
    else t' == AddRoutes(t, Expand(c, pi))
  }

  ghost predicate UpdatedBy(t: Table, c: IPClaim, pi: Prefix, m: Mode, rs: seq<Route>, t': Table) {
    t' == if TooMany(c, rs) then t else UpdateAll(State(t, Some(pi), []), c, m, rs).table
  }

  ghost predicate Deleted(t: Table, c: IPClaim, pi: Option<Prefix>, m: Mode, t': Table) {
    exists rs :: Enumerates(rs, t, OwnKeys(t, c)) && t' == DeleteAll(State(t, pi, []), c, m, rs).table
  }

  // ---------------------------------------------------------------------
  // Runs
  // ---------------------------------------------------------------------

  datatype Op = Claim(claim: IPClaim) | Release(claim: IPClaim)

  /** The claims considered: created prefixes that are given, by named owners. */
  predicate Admissible(c: IPClaim) {
    c.prefix.Some? && c.createPrefix.Some? && c.Named()
  }

  /** Admissible claims of which those under one name have one owner and one kind. */
  ghost predicate Coherent(cs: set<IPClaim>) {
    && (forall c | c in cs :: Admissible(c))
    && (forall c, d | c in cs && d in cs && SameName(c.labels, d.labels) ::
          c.OwnerSelector() == d.OwnerSelector() && c.kind == d.kind)
  }

  ghost predicate Step(t: Table, op: Op, m: Mode, t': Table)
    requires op.claim.prefix.Some?
  {
    var c, pi := op.claim, op.claim.prefix.value;
    match op
    case Claim(_) => if Accepts(t, c, pi) then Applied(t, c, pi, m, t') else t' == t
    case Release(_) => Deleted(t, c, None, m, t')
  }

  /** A run from the empty table over a set of claims: each is made, repeated and
      deleted any number of times, in any order. */
  ghost predicate Run(cs: set<IPClaim>, ts: seq<Table>, ops: seq<Op>, m: Mode) {
    && Coherent(cs)
    && |ts| == |ops| + 1
    && ts[0] == map[]
    && !m.initializing
    && forall i {:trigger ops[i]} | 0 <= i < |ops| ::
         ops[i].claim in cs && Step(ts[i], ops[i], m, ts[i + 1])
  }

  // ---------------------------------------------------------------------
  // Every route comes from a claim
  // ---------------------------------------------------------------------

  ghost predicate MadeBy(cs: set<IPClaim>, l: Labels) {
    exists c | c in cs :: c.Owns(l) && HasKind(l, c.kind)
  }

  ghost predicate Sourced(cs: set<IPClaim>, t: Table) {
    forall q | q in t :: MadeBy(cs, t[q])
  }

  /** What goes under the name of a claim of the set was made by that claim. */
  lemma SourcedCompatible(cs: set<IPClaim>, t: Table, c: IPClaim)
    requires Coherent(cs) && Sourced(cs, t) && c in cs
    ensures Compatible(t, c)
  {
    forall q | q in t && !c.Foreign(t[q]) ensures c.Owns(t[q]) && HasKind(t[q], c.kind) {
      assert MadeBy(cs, t[q]);
      var d :| d in cs && d.Owns(t[q]) && HasKind(t[q], d.kind);
      OwnIsNotForeign(d, t[q]);
      assert Admissible(c) && SameName(c.labels, d.labels);
    }
  }

  lemma {:induction false} UpdateSourced(cs: set<IPClaim>, st: State, c: IPClaim, m: Mode, rs: seq<Route>)
    requires c in cs && c.Named() && Sourced(cs, st.table)
    ensures Sourced(cs, UpdateAll(st, c, m, rs).table)
    decreases |rs|
  {
    if rs != [] {
      var init, r := rs[..|rs| - 1], rs[|rs| - 1];
      UpdateSourced(cs, st, c, m, init);
      UpdateStepSourced(cs, UpdateAll(st, c, m, init), c, m, r);
    }
  }

  lemma UpdateStepSourced(cs: set<IPClaim>, st: State, c: IPClaim, m: Mode, r: Route)
    requires c in cs && c.Named() && Sourced(cs, st.table)
    ensures Sourced(cs, UpdateStep(st, c, m, r).table)
  {
    hide UpdatedLabels, UpdateStep, MadeBy, ForeignKeys, Matches, HasKind;
    var t := st.table;
    var l := UpdatedLabels(t, c, r.prefix, m.nearestFirst);
    UpdatedLabelsOwned(t, c, r.prefix, m.nearestFirst);
    OwnedIsMade(cs, c, l);
    UpdateStepTable(st, c, m, r);
  }

  lemma OwnedIsMade(cs: set<IPClaim>, c: IPClaim, l: Labels)
    requires c in cs && c.Owns(l) && HasKind(l, c.kind)
    ensures MadeBy(cs, l)
  {
  }

  lemma InsertSourced(cs: set<IPClaim>, t: Table, c: IPClaim, pi: Prefix)
    requires c in cs && c.Named() && c.createPrefix.Some? && ValidateInput(c, Some(pi)).Accepted? && Sourced(cs, t)
    ensures Sourced(cs, AddRoutes(t, Expand(c, pi)))
  {
    AddRoutesFrame(t, Expand(c, pi));
    var t' := AddRoutes(t, Expand(c, pi));
    forall q | q in t' ensures MadeBy(cs, t'[q]) {
      if q !in t {
        NewRoute(c, pi, Route(q, t'[q]));
      } else {
        assert MadeBy(cs, t[q]);
      }
    }
  }

  /** A validated claim that finds its prefix finds a route of its own. */
  lemma AcceptedTargetIsOwn(t: Table, c: IPClaim, pi: Prefix)
    requires c.createPrefix.Some? && c.Named() && Accepts(t, c, pi)
    ensures TargetKey(c, pi) == Masked(pi)
    ensures Masked(pi) in t ==> Masked(pi) in OwnKeys(t, c)
  {
    if Masked(pi) in t {
      PrefixOwnerIsOwner(t[Masked(pi)], c);
    }
  }

  /** Every claim, repeated claim and delete keeps the table legal and made by the
      claims of the set. */
  lemma StepKeepsLegal(cs: set<IPClaim>, t: Table, op: Op, m: Mode, t': Table)
    requires Coherent(cs) && op.claim in cs && Admissible(op.claim)
    requires Legal(t) && Sourced(cs, t) && !m.initializing && Step(t, op, m, t')
    ensures Legal(t') && Sourced(cs, t')
  {
    hide Legal, Sourced, Coherent, Compatible;
    var c := op.claim;
    var pi := c.prefix.value;
    SourcedCompatible(cs, t, c);
    match op
    case Claim(_) =>
      if Accepts(t, c, pi) {
        AcceptedTargetIsOwn(t, c, pi);
        if Masked(pi) in t {
          var rs :| Enumerates(rs, t, OwnKeys(t, c)) && UpdatedBy(t, c, pi, m, rs, t');
          UpdateAllKeeps(State(t, Some(pi), []), c, m, rs);
          UpdateSourced(cs, State(t, Some(pi), []), c, m, rs);
        } else {
          InsertKeepsLegal(t, c, pi);
          InsertSourced(cs, t, c, pi);
        }
      }
    case Release(_) =>
      var rs :| Enumerates(rs, t, OwnKeys(t, c)) && t' == DeleteAll(State(t, None, []), c, m, rs).table;
      DeleteOutcome(t, c, m, rs, None);
      DeleteKeepsLegal(t, c);
      RemainingSourced(cs, t, c);
  }

  lemma RemainingSourced(cs: set<IPClaim>, t: Table, c: IPClaim)
    requires Sourced(cs, t)
    ensures Sourced(cs, Remaining(t, c))
  {
    forall q | q in Remaining(t, c) ensures MadeBy(cs, Remaining(t, c)[q]) {
      assert MadeBy(cs, t[q]);
    }
  }

  lemma {:induction false} RunLegal(cs: set<IPClaim>, ts: seq<Table>, ops: seq<Op>, m: Mode, n: nat)
    requires Run(cs, ts, ops, m) && n < |ts|
    ensures Legal(ts[n]) && Sourced(cs, ts[n])
    decreases n
  {
    hide Legal, Sourced, Step;
    if n == 0 {
      EmptyLegal(cs);
    } else {
      RunLegal(cs, ts, ops, m, n - 1);
      assert ops[n - 1].claim in cs;
      StepKeepsLegal(cs, ts[n - 1], ops[n - 1], m, ts[n]);
    }
  }

  lemma EmptyLegal(cs: set<IPClaim>)
    ensures Legal(map[]) && Sourced(cs, map[])
  {
  }

  /** At every point of every run each claim of the set finds under its name only
      what it made itself. */
  lemma RunCompatible(cs: set<IPClaim>, ts: seq<Table>, ops: seq<Op>, m: Mode, n: nat, c: IPClaim)
    requires Run(cs, ts, ops, m) && n < |ts| && c in cs
    ensures Compatible(ts[n], c)
  {
    RunLegal(cs, ts, ops, m, n);
    SourcedCompatible(cs, ts[n], c);
  }

  /** In every table of every run, every route's nearest parent is legal for its
      kind, and a route without a parent belongs to a network instance. */
  lemma RunHierarchy(cs: set<IPClaim>, ts: seq<Table>, ops: seq<Op>, m: Mode, n: nat, q: Prefix)
    requires Run(cs, ts, ops, m) && n < |ts| && q in ts[n]
    ensures forall p: Prefix | NearestParent(ts[n], q, p) :: LegalParent(q, ts[n][q], ts[n][p])
    ensures ParentKeys(ts[n], q) == {} ==> InstanceOwned(ts[n][q])
  {
    RunLegal(cs, ts, ops, m, n);
    NearestParentsLegal(ts[n], q);
  }

  // ---------------------------------------------------------------------
  // What stands at the top
  // ---------------------------------------------------------------------

  ghost predicate InstancesAggregate(t: Table) {
    forall q | q in t && InstanceOwned(t[q]) :: HasKind(t[q], Aggregate)
  }

  /** Whatever a network instance of the set can get into a table is an aggregate. */
  ghost predicate InstancesClaimAggregates(cs: set<IPClaim>) {
    forall c | c in cs && InstanceOwned(c.labels) && ValidateInput(c, c.prefix).Accepted? :: c.kind.Aggregate?
  }

  lemma StepKeepsAggregates(cs: set<IPClaim>, t: Table, op: Op, m: Mode, t': Table)
    requires Coherent(cs) && op.claim in cs && Admissible(op.claim)
    requires Sourced(cs, t) && !m.initializing && Step(t, op, m, t')
    requires InstancesClaimAggregates(cs) && InstancesAggregate(t)
    ensures InstancesAggregate(t')
  {
    hide Sourced, Coherent, InstancesClaimAggregates;
    var c := op.claim;
    var pi := c.prefix.value;
    match op
    case Claim(_) =>
      if Accepts(t, c, pi) {
        AcceptedIsAggregate(cs, c);
        AcceptedTargetIsOwn(t, c, pi);
        if Masked(pi) in t {
          var rs :| Enumerates(rs, t, OwnKeys(t, c)) && UpdatedBy(t, c, pi, m, rs, t');
          UpdateKeepsAggregates(State(t, Some(pi), []), c, m, rs);
        } else {
          AddRoutesFrame(t, Expand(c, pi));
          forall q | q in t' && q !in t && InstanceOwned(t'[q]) ensures HasKind(t'[q], Aggregate) {
            NewRoute(c, pi, Route(q, t'[q]));
          }
        }
      }
    case Release(_) =>
      SourcedCompatible(cs, t, c);
      var rs :| Enumerates(rs, t, OwnKeys(t, c)) && t' == DeleteAll(State(t, None, []), c, m, rs).table;
      DeleteOutcome(t, c, m, rs, None);
  }

  lemma AcceptedIsAggregate(cs: set<IPClaim>, c: IPClaim)
    requires InstancesClaimAggregates(cs) && c in cs && ValidateInput(c, c.prefix).Accepted?
    ensures InstanceOwned(c.labels) ==> c.kind.Aggregate?
  {
  }

  lemma RelabelKeepsAggregates(t: Table, c: IPClaim, p: Prefix, l: Labels)
    requires InstancesAggregate(t) && c.Named()
    requires c.Owns(l) && HasKind(l, c.kind)
    requires InstanceOwned(c.labels) ==> c.kind.Aggregate?
    ensures InstancesAggregate(t[p := l])
  {
    OwnIsNotForeign(c, l);
  }

  lemma {:induction false} UpdateKeepsAggregates(st: State, c: IPClaim, m: Mode, rs: seq<Route>)
    requires c.Named() && InstancesAggregate(st.table)
    requires InstanceOwned(c.labels) ==> c.kind.Aggregate?
    ensures InstancesAggregate(UpdateAll(st, c, m, rs).table)
    decreases |rs|
  {
    if rs != [] {
      var init, p := rs[..|rs| - 1], rs[|rs| - 1].prefix;
      UpdateKeepsAggregates(st, c, m, init);
      var st1 := UpdateAll(st, c, m, init);
      var l := UpdatedLabels(st1.table, c, p, m.nearestFirst);
      UpdatedLabelsOwned(st1.table, c, p, m.nearestFirst);
      RelabelKeepsAggregates(st1.table, c, p, l);
      UpdateStepTable(st1, c, m, rs[|rs| - 1]);
      hide UpdatedLabels, UpdateStep, ForeignKeys;
    }
  }

  lemma {:induction false} RunAggregates(cs: set<IPClaim>, ts: seq<Table>, ops: seq<Op>, m: Mode, n: nat)
    requires Run(cs, ts, ops, m) && n < |ts| && InstancesClaimAggregates(cs)
    ensures InstancesAggregate(ts[n])
    decreases n
  {
    hide Legal, Sourced, Step;
    if n > 0 {
      RunAggregates(cs, ts, ops, m, n - 1);
      RunLegal(cs, ts, ops, m, n - 1);
      assert ops[n - 1].claim in cs;
      StepKeepsAggregates(cs, ts[n - 1], ops[n - 1], m, ts[n]);
    }
  }

  /** Only aggregates stand at the top. */
  ghost predicate TopIsAggregate(t: Table) {
    forall q | q in t && ParentKeys(t, q) == {} :: HasKind(t[q], Aggregate)
  }

  /** If network instances claim aggregates only, only aggregates stand at the
      top: every other route has a parent. */
  lemma RunTop(cs: set<IPClaim>, ts: seq<Table>, ops: seq<Op>, m: Mode, n: nat)
    requires Run(cs, ts, ops, m) && n < |ts| && InstancesClaimAggregates(cs)
    ensures TopIsAggregate(ts[n])
  {
    hide Run;
    RunAggregates(cs, ts, ops, m, n);
    forall q | q in ts[n] && ParentKeys(ts[n], q) == {} ensures HasKind(ts[n][q], Aggregate) {
      RunHierarchy(cs, ts, ops, m, n, q);
    }
  }

  lemma EmptyTableAccepts(c: IPClaim, pi: Prefix)
    requires InstanceOwned(c.labels) && ValidateInput(c, Some(pi)).Accepted?
    ensures Accepts(map[], c, pi)
  {
    var none: Table := map[];
    assert ChildKeys(none, Masked(pi)) == {} && ParentKeys(none, Masked(pi)) == {};
  }

  /** The condition is needed: validation never asks for the kind of a claim
      without a parent, so any prefix a network instance claims first stands at
      the top. */
  lemma AnyKindAtTop(cs: set<IPClaim>, c: IPClaim, m: Mode)
    requires Coherent(cs) && !m.initializing
    requires c in cs && InstanceOwned(c.labels) && ValidateInput(c, c.prefix).Accepted?
    ensures c.prefix.Some?
    ensures var s, t' := Masked(c.prefix.value), AddRoutes(map[], Expand(c, c.prefix.value));
            && Run(cs, [map[], t'], [Claim(c)], m)
            && s in t' && HasKind(t'[s], c.kind) && ParentKeys(t', s) == {}
  {
    assert Admissible(c);
    var pi := c.prefix.value;
    var s, none: Table := Masked(pi), map[];
    var rs := Expand(c, pi);
    var t' := AddRoutes(none, rs);
    AddRoutesFrame(none, rs);
    ExpansionHasSubnet(c, pi);
    NewRoute(c, pi, Route(s, t'[s]));
    forall p | p in t' ensures !Inside(s, p) {
      NewRoute(c, pi, Route(p, t'[p]));
    }
    EmptyTableAccepts(c, pi);
    AcceptedTargetIsOwn(none, c, pi);
    assert Step(none, Claim(c), m, t');
  }

  lemma OtherAtTop(cs: set<IPClaim>, c: IPClaim, m: Mode) returns (ts: seq<Table>, ops: seq<Op>)
    requires Coherent(cs) && !m.initializing && c in cs && InstanceOwned(c.labels)
    requires ValidateInput(c, c.prefix).Accepted? && !c.kind.Aggregate?
    ensures Run(cs, ts, ops, m) && |ts| == 2 && !TopIsAggregate(ts[1])
  {
    AnyKindAtTop(cs, c, m);
    hide Run, Expand, ValidateInput, Coherent, AddRoutes, ParentKeys;
    ts, ops := [map[], AddRoutes(map[], Expand(c, c.prefix.value))], [Claim(c)];
  }

  /** Every table of every run over the claims has only aggregates at the top. */
  ghost predicate TopsAreAggregates(cs: set<IPClaim>, m: Mode) {
    forall ts: seq<Table>, ops: seq<Op>, n: nat | Run(cs, ts, ops, m) && n < |ts| :: TopIsAggregate(ts[n])
  }

  /** Exactly the sets of claims in which network instances claim aggregates only
      keep everything else below something. */
  lemma TopIff(cs: set<IPClaim>, m: Mode)
    requires Coherent(cs) && !m.initializing
    ensures TopsAreAggregates(cs, m) <==> InstancesClaimAggregates(cs)
  {
    hide Run, TopIsAggregate, Expand, ValidateInput, AddRoutes;
    if InstancesClaimAggregates(cs) {
      forall ts: seq<Table>, ops: seq<Op>, n: nat | Run(cs, ts, ops, m) && n < |ts| ensures TopIsAggregate(ts[n]) {
        RunTop(cs, ts, ops, m, n);
      }
    } else {
      var c :| c in cs && InstanceOwned(c.labels) && ValidateInput(c, c.prefix).Accepted? && !c.kind.Aggregate?;
      var ts, ops := OtherAtTop(cs, c, m);
      var n: nat := 1;
      assert Run(cs, ts, ops, m) && n < |ts| && !TopIsAggregate(ts[n]);
    }
  }
}
