/** The two entry points of the IPAM backend for claims that name their prefix:
    each call is one step of a run. */
module Backend {
  import opened Claims
  import opened Wrappers
  import opened RoutingTable
  import opened Validation
  import opened Updates
  import opened Hierarchy
  import opened Runs
  import opened Applicators

  /** Claim: validate, then apply. What the caller is told, what is reported, and
      that an accepted claim of a created prefix never indexes out of range. */
  method ClaimPrefix(rib: Rib, c: IPClaim)
    returns (verdict: Verdict, outcome: Option<Outcome>, reports: seq<seq<Route>>)
    requires c.prefix.Some? && WellFormed(rib.routes)
    modifies rib
    ensures Decision(old(rib.routes), c, c.prefix.value, verdict)
    ensures outcome.Some? <==> verdict.Accepted?
    ensures verdict.Accepted? <==> Accepts(old(rib.routes), c, c.prefix.value)
    ensures Step(old(rib.routes), Op.Claim(c), Updates.Mode(false, rib.nearestFirst), rib.routes)
    ensures c.createPrefix.Some? && c.Named() ==> outcome != Some(Crashed)
    ensures outcome.Some? ==>
              && (outcome.value == Added <==> TargetKey(c, c.prefix.value) !in old(rib.routes))
              && (outcome.value == Crashed <==>
                    TargetKey(c, c.prefix.value) in old(rib.routes) && OwnKeys(old(rib.routes), c) == {})
              && (outcome.value == MultiplePrefixes <==>
                    && TargetKey(c, c.prefix.value) in old(rib.routes) && Several(old(rib.routes), c)
                    && !(c.createPrefix.Some? && c.kind.Network?))
    ensures outcome != Some(Updated) ==> reports == []
    ensures outcome == Some(Updated) ==>
              exists rs :: Enumerates(rs, old(rib.routes), OwnKeys(old(rib.routes), c))
                && var m := Updates.Mode(false, rib.nearestFirst);
                   var st := UpdateAll(State(old(rib.routes), c.prefix, []), c, m, rs);
                   rib.routes == st.table && reports == st.reports
  {
    ghost var t := rib.routes;
    outcome, reports := None, [];
    var v := new PrefixValidator(c, rib, c.prefix.value);
    verdict := v.Validate();
    if verdict.Accepted? {
      if c.createPrefix.Some? && c.Named() {
        AcceptedTargetIsOwn(t, c, c.prefix.value);
      }
      hide Accepts, Decision, UpdateAll, Several;
      var a := new Applicator(false, c, rib, c.prefix);
      var o := a.ApplyPrefix();
      outcome, reports := Some(o), a.reports;
    }
  }

  /** DeleteClaim: a claim that is deleted by its owner leaves a legal table
      legal. */
  method DeleteClaim(rib: Rib, c: IPClaim) returns (reports: seq<seq<Route>>)
    requires c.prefix.Some? && c.Named()
    modifies rib
    ensures Step(old(rib.routes), Op.Release(c), Updates.Mode(false, rib.nearestFirst), rib.routes)
    ensures c.createPrefix.Some? && Compatible(old(rib.routes), c) ==>
              && rib.routes == Remaining(old(rib.routes), c)
              && (Legal(old(rib.routes)) ==> Legal(rib.routes))
              && forall q | q in old(rib.routes) && c.Foreign(old(rib.routes)[q]) ::
                   TimesReported(reports, q) == if q in rib.routes then 0 else 1
  {
    ghost var t := rib.routes;
    var a := new Applicator(false, c, rib, None);
    ghost var m := a.Mode();
    var ok := a.Delete();
    reports := a.reports;
    ghost var rs :| Enumerates(rs, t, OwnKeys(t, c)) && a.Now() == DeleteAll(State(t, None, []), c, m, rs);
    if c.createPrefix.Some? && Compatible(t, c) {
      DeleteOutcome(t, c, m, rs, None);
      if Legal(t) {
        DeleteKeepsLegal(t, c);
      }
    }
  }
}
