/** Validation of a claim that names its prefix: a dry run of the insertion
    followed by a look at the first child and at the nearest parent. */
module Validation {
  import opened Prefixes
  import opened Claims
  import opened Wrappers
  import opened RoutingTable

  datatype Reason =
    | DynamicAggregate | PrefixLengthMissing | PrefixLengthWithoutCreate | DynamicKindUnsupported
    | AddressPrefixForKind | NetDiffersFromAddress | CreateAddressPrefix
    | DuplicatePrefix | ParentNotNetwork
    | ChildOfOtherKind | ChildNotAddress | NestingNotAllowed
    | AggregateRequired | IllegalParent

  datatype Verdict = Accepted | Rejected(reason: Reason)

  // ---------------------------------------------------------------------
  // validator_functions.go
  // ---------------------------------------------------------------------

  function ValidateInput(c: IPClaim, pi: Option<Prefix>): Verdict {
    if pi.None? then
      if c.kind.Aggregate? then Rejected(DynamicAggregate)
      else if c.createPrefix.Some? then
        if c.prefixLength.None? then Rejected(PrefixLengthMissing) else Accepted
      else if c.prefixLength.Some? then Rejected(PrefixLengthWithoutCreate)
      else if c.kind.Pool? then Rejected(DynamicKindUnsupported)
      else Accepted
    else if (c.kind.Aggregate? || c.kind.Network?) && IsAddressPrefix(pi.value) then
      Rejected(AddressPrefixForKind)
    else if !c.kind.Network? && Masked(pi.value) != pi.value then
      Rejected(NetDiffersFromAddress)
    else if c.createPrefix.Some? && IsAddressPrefix(pi.value) then
      Rejected(CreateAddressPrefix)
    else Accepted
  }

  function ValidatePrefixOwner(l: Labels, c: IPClaim): Verdict {
    if || Lookup(l, NsnNamespace) != Lookup(c.labels, NsnNamespace)
       || Lookup(l, NsnName) != Lookup(c.labels, NsnName)
       || Lookup(l, OwnerNsnNamespace) != Lookup(c.labels, OwnerNsnNamespace)
       || Lookup(l, OwnerNsnName) != Lookup(c.labels, OwnerNsnName)
       || Lookup(l, OwnerGvk) != Lookup(c.labels, OwnerGvk)
    then Rejected(DuplicatePrefix) else Accepted
  }

  function ValidateChildrenExist(r: Route, kind: PrefixKind): Verdict {
    match kind
    case Network =>
      if !HasKind(r.labels, Network) then Rejected(ChildOfOtherKind)
      else if !IsAddressPrefix(r.prefix) then Rejected(ChildNotAddress)
      else Accepted
    case Aggregate => Accepted
    case _ => Rejected(NestingNotAllowed)
  }

  /** The kind plays no part: any claim of a network instance may be parentless. */
  function ValidateNoParentExist(kind: PrefixKind, ownerGvk: LabelValue): Verdict {
    if ownerGvk == GvkValue(NetworkInstanceGvk) then Accepted else Rejected(AggregateRequired)
  }

  function ValidateParentExist(l: Labels, c: IPClaim, pi: Prefix): Verdict {
    var ok := match c.kind
      case Aggregate => HasKind(l, Aggregate)
      case Loopback => HasKind(l, Aggregate) || (IsAddressPrefix(pi) && HasKind(l, Loopback))
      case Network => HasKind(l, if c.createPrefix.Some? then Aggregate else Network)
      case Pool => HasKind(l, Aggregate) || HasKind(l, Pool);
    if ok then Accepted else Rejected(IllegalParent)
  }

  /** The owner check passes exactly for routes of the claim. */
  lemma PrefixOwnerIsOwner(l: Labels, c: IPClaim)
    requires c.Named()
    ensures ValidatePrefixOwner(l, c).Accepted? <==> c.Owns(l)
    ensures c.Owns(l) ==> !c.Foreign(l)
  {
    var sel := c.OwnerSelector();
    if c.Owns(l) {
      assert forall k | k in sel :: k in l && l[k] == sel[k];
      assert NsnName in sel && NsnNamespace in sel && OwnerGvk in sel;
      assert OwnerNsnName in sel && OwnerNsnNamespace in sel;
    }
    if ValidatePrefixOwner(l, c).Accepted? {
      forall k | k in sel ensures k in l && l[k] == sel[k] {
        assert Lookup(l, k) == Lookup(c.labels, k) && k in c.labels && c.labels[k] != Text("");
      }
    }
  }

  // ---------------------------------------------------------------------
  // What validation accepts
  // ---------------------------------------------------------------------

  /** A prefix that is not in the table: the least child in table order and the
      nearest parent are inspected, nothing else. */
  ghost predicate AcceptsNew(t: Table, c: IPClaim, pi: Prefix) {
    var s := Masked(pi);
    && (ChildKeys(t, s) != {} ==>
          var q := Least(ChildKeys(t, s));
          ValidateChildrenExist(Route(q, t[q]), c.kind).Accepted?)
    && (ParentKeys(t, s) == {} ==>
          ValidateNoParentExist(c.kind, Lookup(c.labels, OwnerGvk)).Accepted?)
    && (forall q | NearestParent(t, s, q) ::
          ValidateParentExist(t[q], c, pi).Accepted?)
  }

  /** A prefix that is in the table. */
  ghost predicate AcceptsExisting(t: Table, c: IPClaim, pi: Prefix)
    requires Masked(pi) in t
  {
    if c.createPrefix.Some? || !c.kind.Network? then
      ValidatePrefixOwner(t[Masked(pi)], c).Accepted?
    else
      && HasKind(t[Masked(pi)], Network)
      && (AddressPrefix(pi) in t ==> ValidatePrefixOwner(t[AddressPrefix(pi)], c).Accepted?)
  }

  ghost predicate Accepts(t: Table, c: IPClaim, pi: Prefix) {
    && ValidateInput(c, Some(pi)).Accepted?
    && if Masked(pi) in t then AcceptsExisting(t, c, pi) else AcceptsNew(t, c, pi)
  }

  /** The verdict, with the reason for a rejection: input first, then the owner of
      a prefix that is taken, else the least child before the nearest parent. */
  ghost predicate Decision(t: Table, c: IPClaim, pi: Prefix, v: Verdict) {
    var s := Masked(pi);
    if ValidateInput(c, Some(pi)).Rejected? then v == ValidateInput(c, Some(pi))
    else if s in t then
      if c.createPrefix.Some? || !c.kind.Network? then v == ValidatePrefixOwner(t[s], c)
      else if !HasKind(t[s], Network) then v == Rejected(ParentNotNetwork)
      else if AddressPrefix(pi) !in t then v == Accepted
      else v == ValidatePrefixOwner(t[AddressPrefix(pi)], c)
    else if ChildKeys(t, s) != {} && ChildVerdict(t, c, s).Rejected? then v == ChildVerdict(t, c, s)
    else if ParentKeys(t, s) == {} then v == ValidateNoParentExist(c.kind, Lookup(c.labels, OwnerGvk))
    else exists q :: NearestParent(t, s, q) && v == ValidateParentExist(t[q], c, pi)
  }

  ghost function ChildVerdict(t: Table, c: IPClaim, s: Prefix): Verdict
    requires ChildKeys(t, s) != {}
  {
    var q := Least(ChildKeys(t, s));
    ValidateChildrenExist(Route(q, t[q]), c.kind)
  }

  /** Adding the dummy route under test changes neither its children nor its
      parents. */
  lemma DryRunKeys(t: Table, s: Prefix, l: Labels)
    ensures ChildKeys(t[s := l], s) == ChildKeys(t, s)
    ensures ParentKeys(t[s := l], s) == ParentKeys(t, s)
  {
  }

  /** findParent: the most specific of the given routes. */
  method FindParent(routes: seq<Route>) returns (parent: Route)
    requires routes != []
    ensures parent in routes
    ensures forall r | r in routes :: r.prefix.len <= parent.prefix.len
  {
    parent := routes[0];
    for i := 0 to |routes|
      invariant parent in routes
      invariant forall r | r in routes[..i] :: r.prefix.len <= parent.prefix.len
    {
      if routes[i].prefix.len > parent.prefix.len {
        parent := routes[i];
      }
    }
  }

  /** Whatever the direction of the parent list, it is empty exactly when there
      is no parent, and its longest element is the nearest parent. */
  lemma ParentVerdict(t: Table, s: Prefix, dummy: Labels, nearestFirst: bool, found: Option<Route>)
    requires WellFormed(t) && s !in t
    requires found.None? ==> ParentList(t[s := dummy], s, nearestFirst) == []
    requires found.Some? ==>
               && found.value in ParentList(t[s := dummy], s, nearestFirst)
               && forall r | r in ParentList(t[s := dummy], s, nearestFirst) ::
                    r.prefix.len <= found.value.prefix.len
    ensures ParentKeys(t, s) == {} <==> found.None?
    ensures forall q | NearestParent(t, s, q) :: found == Some(Route(q, t[q]))
    ensures found.Some? ==> NearestParent(t, s, found.value.prefix)
  {
    var t' := t[s := dummy];
    var rs := ParentList(t', s, nearestFirst);
    DryRunKeys(t, s, dummy);
    ParentListEnumerates(t', s, nearestFirst);
    forall r | r in ParentKeys(t, s) ensures Route(r, t[r]) in rs {
      assert Route(r, t'[r]) in rs;
    }
    if found.Some? {
      assert found.value.prefix in ParentKeys(t, s);
      forall r | r in ParentKeys(t, s) ensures r.len <= found.value.prefix.len {
        assert Route(r, t[r]) in rs;
      }
      forall q | NearestParent(t, s, q) ensures found == Some(Route(q, t[q])) {
        NearestParentUnique(t, s, q, found.value.prefix);
      }
    }
  }

  class PrefixValidator {
    const claim: IPClaim
    const rib: Rib
    const pi: Prefix

    constructor (claim: IPClaim, rib: Rib, pi: Prefix)
      ensures this.claim == claim && this.rib == rib && this.pi == pi
    {
      this.claim, this.rib, this.pi := claim, rib, pi;
    }

    /** Validation accepts exactly what `Accepts` describes, gives the reason where it
        does not and, working on a clone, leaves the table alone. */
    method Validate() returns (verdict: Verdict)
      requires WellFormed(rib.routes)
      ensures verdict.Accepted? <==> Accepts(rib.routes, claim, pi)
      ensures Decision(rib.routes, claim, pi, verdict)
    {
      verdict := ValidateInput(claim, Some(pi));
      if verdict.Rejected? {
        return;
      }
      ghost var t := rib.routes;
      var dryrun := rib.Clone();
      var s := Masked(pi);
      var found := dryrun.Get(s);
      if found.Some? {
        if claim.createPrefix.Some? {
          return ValidatePrefixOwner(found.value.labels, claim);
        }
        if claim.kind.Network? {
          if !HasKind(found.value.labels, Network) {
            return Rejected(ParentNotNetwork);
          }
          found := dryrun.Get(AddressPrefix(pi));
          if found.None? {
            return Accepted;
          }
        }
        return ValidatePrefixOwner(found.value.labels, claim);
      }

      var dummy := claim.labels[PrefixKindKey := KindValue(claim.kind)][SubnetKey := SubnetName(pi)];
      var _ := dryrun.Add(Route(s, dummy));
      DryRunKeys(t, s, dummy);

      var routes := dryrun.Children(s);
      if |routes| > 0 {
        verdict := ValidateChildrenExist(routes[0], claim.kind);
        if verdict.Rejected? {
          return;
        }
      }

      routes := dryrun.Parents(s);
      if |routes| == 0 {
        ParentVerdict(t, s, dummy, dryrun.nearestFirst, None);
        return ValidateNoParentExist(claim.kind, Lookup(claim.labels, OwnerGvk));
      }
      var parent := FindParent(routes);
      ParentVerdict(t, s, dummy, dryrun.nearestFirst, Some(parent));
      return ValidateParentExist(parent.labels, claim, pi);
    }
  }
}
