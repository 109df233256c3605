/** The endpoint lease: any number of processes read the shared lease object,
    check whether it has expired and write it back under optimistic concurrency.

    Every call to the API server is one step, steps of different processes
    interleave freely, reads may return any version that ever existed, and a
    global clock advances between steps.  Times are nanoseconds; a renew time is
    stored with microsecond precision. */
module Leases {
  import opened Wrappers

  type Time = nat

  const DURATION: Time := 1_000_000_000

  /** A time as it is stored: rounded down to a microsecond. */
  function Micro(t: Time): Time {
    t - t % 1000
  }

  lemma MicroMonotone(s: Time, t: Time)
    requires s <= t
    ensures Micro(s) <= Micro(t) <= t
  {
    assert Micro(s) == 1000 * (s / 1000) && Micro(t) == 1000 * (t / 1000);
  }

  /** One version of the lease object; `committed` is when it was written. */
  datatype Version = Version(holder: string, renewed: Time, committed: Time)

  /** Where a process is in AcquireLease. */
  datatype Phase =
    | Idle
    | Absent                                   // the first Get found nothing
    | Creating(stamp: Time)                    // the lease to create is stamped
    | Present                                  // about to read again
    | Read(version: nat)                       // holds some version of the lease
    | Checked(version: nat, at: Time)          // that version may be replaced
    | Writing(version: nat, at: Time, stamp: Time) // the new lease is stamped

  datatype Process = Process(identity: string, phase: Phase)

  /** The history of the object, its last element being the current version, and
      all processes. */
  datatype Cluster = Cluster(clock: Time, history: seq<Version>, processes: map<nat, Process>)

  // ---------------------------------------------------------------------
  // Steps
  // ---------------------------------------------------------------------

  datatype Action =
    | Tick(to: Time)
    | FirstGet(found: bool)
    | Stamp
    | Create
    | SecondGet(read: Option<nat>)
    | Check
    | Update

  function SetPhase(g: Cluster, p: nat, phase: Phase): Cluster
    requires p in g.processes
  {
    g.(processes := g.processes[p := g.processes[p].(phase := phase)])
  }

  /** The version may be taken over or renewed by `who` at time `now`. */
  predicate MayReplace(v: Version, who: string, now: Time) {
    v.holder == who || v.renewed + DURATION < now
  }

  predicate Enabled(g: Cluster, p: nat, a: Action) {
    && p in g.processes
    && match (a, g.processes[p].phase)
       case (Tick(to), _) => g.clock <= to
       case (FirstGet(found), Idle) => found ==> g.history != []
       case (Stamp, Absent) => true
       case (Stamp, Checked(_, _)) => true
       case (Create, Creating(_)) => true
       case (SecondGet(read), Present) => read.Some? ==> read.value < |g.history|
       case (Check, Read(v)) => v < |g.history|
       case (Update, Writing(_, _, _)) => true
       case _ => false
  }

  function Perform(g: Cluster, p: nat, a: Action): Cluster
    requires Enabled(g, p, a)
  {
    var me := g.processes[p].identity;
    match a
    case Tick(to) => g.(clock := to)
    case FirstGet(found) => SetPhase(g, p, if found then Present else Absent)
    case Stamp =>
      var ph := g.processes[p].phase;
      SetPhase(g, p, if ph.Absent? then Creating(g.clock) else Writing(ph.version, ph.at, g.clock))
    case Create =>
      // fails when the object exists
      if g.history == [] then
        var v := Version(me, Micro(g.processes[p].phase.stamp), g.clock);
        SetPhase(g.(history := [v]), p, Present)
      else SetPhase(g, p, Idle)
    case SecondGet(read) =>
      SetPhase(g, p, if read.Some? then Read(read.value) else Idle)
    case Check =>
      var n := g.processes[p].phase.version;
      SetPhase(g, p, if MayReplace(g.history[n], me, g.clock) then Checked(n, g.clock) else Idle)
    case Update =>
      // fails unless the version read is the current one
      var ph := g.processes[p].phase;
      if ph.version == |g.history| - 1 then
        var v := Version(me, Micro(ph.stamp), g.clock);
        SetPhase(g.(history := g.history + [v]), p, Idle)
      else SetPhase(g, p, Idle)
  }

  ghost predicate Next(g: Cluster, g': Cluster) {
    exists p, a :: Enabled(g, p, a) && g' == Perform(g, p, a)
  }

  predicate Initial(g: Cluster) {
    g.history == [] && forall p | p in g.processes :: g.processes[p].phase == Idle
  }

  ghost predicate Run(gs: seq<Cluster>) {
    && gs != [] && Initial(gs[0])
    && forall i | 0 <= i < |gs| - 1 :: Next(gs[i], gs[i + 1])
  }

  // ---------------------------------------------------------------------
  // The invariant
  // ---------------------------------------------------------------------

  ghost predicate HistoryOk(h: seq<Version>, clock: Time) {
    && (forall i | 0 <= i < |h| :: h[i].renewed <= Micro(h[i].committed) && h[i].committed <= clock)
    && (forall i | 0 < i < |h| ::
          && h[i - 1].committed <= h[i].committed
          && h[i - 1].renewed <= h[i].renewed
          && MayReplace(h[i - 1], h[i].holder, h[i].committed))
  }

  /** What a process in the middle of AcquireLease may rely on. */
  predicate ProcessOk(g: Cluster, q: Process) {
    match q.phase
    case Idle => true
    case Absent => true
    case Creating(stamp) => stamp <= g.clock
    case Present => true
    case Read(n) => n < |g.history|
    case Checked(n, at) =>
      && n < |g.history| && g.history[n].committed <= at <= g.clock
      && MayReplace(g.history[n], q.identity, at)
    case Writing(n, at, stamp) =>
      && n < |g.history| && g.history[n].committed <= at <= stamp <= g.clock
      && MayReplace(g.history[n], q.identity, at)
  }

  ghost predicate Inv(g: Cluster) {
    && HistoryOk(g.history, g.clock)
    && forall p | p in g.processes :: ProcessOk(g, g.processes[p])
  }

  /** A process keeps what it relies on while others move. */
  lemma OthersKeep(g: Cluster, g': Cluster, q: Process)
    requires ProcessOk(g, q) && g.clock <= g'.clock && g.history <= g'.history
    ensures ProcessOk(g', q)
  {
    assert forall i | 0 <= i < |g.history| :: g'.history[i] == g.history[i];
  }

  lemma AppendOk(h: seq<Version>, clock: Time, v: Version)
    requires HistoryOk(h, clock)
    requires v.committed == clock && v.renewed <= Micro(clock)
    requires h != [] ==> h[|h| - 1].renewed <= v.renewed && MayReplace(h[|h| - 1], v.holder, clock)
    ensures HistoryOk(h + [v], clock)
  {
    hide Micro, MayReplace;
    var h' := h + [v];
    assert forall i | 0 <= i < |h| :: h'[i] == h[i];
  }

  lemma StepKeepsHistory(g: Cluster, p: nat, a: Action)
    requires Inv(g) && Enabled(g, p, a)
    ensures var g' := Perform(g, p, a);
            HistoryOk(g'.history, g'.clock) && g.clock <= g'.clock && g.history <= g'.history
  {
    var ph := g.processes[p].phase;
    assert ProcessOk(g, g.processes[p]);
    if a.Update? && ph.version == |g.history| - 1 {
      var last := g.history[ph.version];
      MicroMonotone(last.committed, ph.stamp);
      MicroMonotone(ph.stamp, g.clock);
      AppendOk(g.history, g.clock, Version(g.processes[p].identity, Micro(ph.stamp), g.clock));
    }
    if a.Create? {
      MicroMonotone(ph.stamp, g.clock);
    }
  }

  lemma MoverKeeps(g: Cluster, p: nat, a: Action)
    requires Inv(g) && Enabled(g, p, a) && !a.Tick?
    ensures var g' := Perform(g, p, a); ProcessOk(g', g'.processes[p])
  {
    assert ProcessOk(g, g.processes[p]);
  }

  lemma OthersStand(g: Cluster, p: nat, a: Action)
    requires Enabled(g, p, a)
    ensures var g' := Perform(g, p, a);
            && g'.processes.Keys == g.processes.Keys
            && forall q | q in g.processes && (q != p || a.Tick?) :: g'.processes[q] == g.processes[q]
  {
  }

  lemma StepKeepsInv(g: Cluster, g': Cluster)
    requires Inv(g) && Next(g, g')
    ensures Inv(g') && g.clock <= g'.clock && g.history <= g'.history
  {
    var p, a :| Enabled(g, p, a) && g' == Perform(g, p, a);
    StepKeepsHistory(g, p, a);
    OthersStand(g, p, a);
    forall q | q in g'.processes ensures ProcessOk(g', g'.processes[q]) {
      assert ProcessOk(g, g.processes[q]);
      if q == p && !a.Tick? {
        MoverKeeps(g, p, a);
      } else {
        OthersKeep(g, g', g.processes[q]);
      }
    }
  }

  lemma {:induction false} RunInv(gs: seq<Cluster>, n: nat)
    requires Run(gs) && n < |gs|
    ensures Inv(gs[n])
    decreases n
  {
    if n > 0 {
      RunInv(gs, n - 1);
      StepKeepsInv(gs[n - 1], gs[n]);
    }
  }

  // ---------------------------------------------------------------------
  // What the lease promises
  // ---------------------------------------------------------------------

  /** Renew times and commit times only grow, and a change of holder waits for
      the lease to run out: once a version renewed at time r by one identity is
      committed, another identity holds the lease only in versions committed after
      r plus the duration. */
  lemma {:induction false} HolderIsExclusive(h: seq<Version>, clock: Time, i: nat, j: nat)
    requires HistoryOk(h, clock) && i <= j < |h|
    ensures h[i].renewed <= h[j].renewed && h[i].committed <= h[j].committed
    ensures h[j].holder != h[i].holder ==> h[i].renewed + DURATION < h[j].committed
    decreases j
  {
    if i < j {
      HolderIsExclusive(h, clock, i, j - 1);
    }
  }

  lemma PrefixTransitive<T>(a: seq<T>, b: seq<T>, c: seq<T>)
    requires a <= b <= c
    ensures a <= c
  {
    assert forall i | 0 <= i < |a| :: a[i] == b[i] == c[i];
  }

  lemma StepGrows(g: Cluster, g': Cluster)
    requires Next(g, g')
    ensures g.history <= g'.history && g.clock <= g'.clock
  {
  }

  lemma {:induction false} RunHistory(gs: seq<Cluster>, m: nat, n: nat)
    requires Run(gs) && m <= n < |gs|
    ensures gs[m].history <= gs[n].history && gs[m].clock <= gs[n].clock
    decreases n
  {
    if m < n {
      RunHistory(gs, m, n - 1);
      StepGrows(gs[n - 1], gs[n]);
      PrefixTransitive(gs[m].history, gs[n - 1].history, gs[n].history);
    }
  }

  /** In every run, however the processes interleave and however stale their
      reads: renew times never decrease, and after a version of one identity has
      been committed at state m, any state n in which the clock has not passed its
      renew time plus the duration still has that identity as the holder. */
  lemma RunExclusive(gs: seq<Cluster>, m: nat, n: nat)
    requires Run(gs) && m <= n < |gs| && gs[m].history != []
    ensures gs[n].history != []
    ensures var v, w := gs[m].history[|gs[m].history| - 1], gs[n].history[|gs[n].history| - 1];
            && v.renewed <= w.renewed
            && (gs[n].clock <= v.renewed + DURATION ==> w.holder == v.holder)
  {
    RunHistory(gs, m, n);
    RunInv(gs, n);
    var h := gs[n].history;
    assert gs[m].history[|gs[m].history| - 1] == h[|gs[m].history| - 1];
    HolderIsExclusive(h, gs[n].clock, |gs[m].history| - 1, |h| - 1);
  }

  // ---------------------------------------------------------------------
  // An expired lease can be taken
  // ---------------------------------------------------------------------

  /** AcquireLease on an existing lease without interference leads to `g'`. */
  ghost predicate TakesOver(g: Cluster, p: nat, g': Cluster)
    requires p in g.processes && g.processes[p].phase == Idle && g.history != []
  {
    var g1 := Perform(g, p, FirstGet(true));
    var g2 := Perform(g1, p, SecondGet(Some(|g.history| - 1)));
    var g3 := Perform(g2, p, Check);
    && Enabled(g3, p, Stamp)
    && var g4 := Perform(g3, p, Stamp);
    && Enabled(g4, p, Update) && g' == Perform(g4, p, Update)
  }

  /** An undisturbed attempt takes the lease if and only if the current version
      is the caller's own or has run out. */
  lemma TakeoverIffReplaceable(g: Cluster, p: nat)
    requires p in g.processes && g.processes[p].phase == Idle && g.history != []
    ensures var v, me := g.history[|g.history| - 1], g.processes[p].identity;
            MayReplace(v, me, g.clock) <==>
            TakesOver(g, p, g.(history := g.history + [Version(me, Micro(g.clock), g.clock)]))
  {
    var v, q := g.history[|g.history| - 1], g.processes[p];
    if MayReplace(v, q.identity, g.clock) {
      assert g.processes[p := q] == g.processes;
    }
  }

  // ---------------------------------------------------------------------
  // AcquireLease
  // ---------------------------------------------------------------------

  /** One process calling AcquireLease.  Between any two of its calls to the API
      server the rest of the cluster may do anything. */
  class Caller {
    const me: nat
    var g: Cluster
    ghost var trace: seq<Cluster>

    constructor (me: nat, g: Cluster)
      requires Initial(g) && me in g.processes
      ensures Valid() && this.me == me && this.g == g
    {
      this.me, this.g, this.trace := me, g, [g];
    }

    ghost predicate Valid()
      reads this
    {
      Run(trace) && trace[|trace| - 1] == g && me in g.processes
    }

    /** The others move.  Callers may rely on nothing but the contract. */
    method Others()
      requires Valid()
      modifies this
      ensures Valid() && old(trace) <= trace && g.processes[me] == old(g.processes[me])
    {
    }

    method Do(a: Action)
      requires Valid() && Enabled(g, me, a)
      modifies this
      ensures Valid() && old(trace) <= trace
      ensures g == Perform(old(g), me, a)
    {
      ghost var before := g;
      g := Perform(g, me, a);
      OthersStand(before, me, a);
      assert Next(before, g);
      trace := trace + [g];
    }

    /** The first Get and, where it finds nothing, the Create. */
    method GetOrCreate() returns (ok: bool)
      requires Valid() && g.processes[me].phase == Idle
      modifies this
      ensures Valid() && old(trace) <= trace
      ensures ok ==> g.processes[me].phase == Present
    {
      var found: bool := *;
      found := found && g.history != [];
      Do(FirstGet(found));
      if !found {
        Others();
        Do(Stamp);
        Others();
        Do(Create);
      }
      ok := g.processes[me].phase == Present;
    }

    /** The second Get, possibly served from a cache, and the expiry check. */
    method ReadAndCheck() returns (ok: bool)
      requires Valid() && g.processes[me].phase == Present
      modifies this
      ensures Valid() && old(trace) <= trace
      ensures ok ==> g.processes[me].phase.Checked?
    {
      var hit: bool := *;
      if !hit || g.history == [] {
        Do(SecondGet(None));
        return false;
      }
      var n :| 0 <= n < |g.history|;
      Do(SecondGet(Some(n)));
      Others();
      HistoryGrows(n);
      Do(Check);
      ok := g.processes[me].phase.Checked?;
    }

    /** Everything the call does is a sequence of steps of the protocol, so what
        holds of all runs holds while it is under way; a call that succeeds has
        written the current version. */
    method AcquireLease() returns (ok: bool)
      requires Valid() && g.processes[me].phase == Idle
      modifies this
      ensures Valid() && old(trace) <= trace
      ensures ok ==> g.history != [] && g.history[|g.history| - 1].holder == g.processes[me].identity
    {
      ok := GetOrCreate();
      if !ok {
        return;
      }
      Others();
      ok := ReadAndCheck();
      if !ok {
        return;
      }
      Others();
      Do(Stamp);
      Others();
      ok := g.processes[me].phase.version == |g.history| - 1;
      Do(Update);
    }

    /** What was read before the others moved still exists. */
    lemma HistoryGrows(n: nat)
      requires Valid() && g.processes[me].phase == Read(n)
      ensures n < |g.history|
    {
      RunInv(trace, |trace| - 1);
      assert ProcessOk(g, g.processes[me]);
    }
  }

  // ---------------------------------------------------------------------
  // Holder identities
  // ---------------------------------------------------------------------

  function LowerChar(c: char): char {
    if 'A' <= c <= 'Z' then 'a' + (c - 'A') else c
  }

  function Lower(s: string): (r: string)
    ensures |r| == |s| && forall i | 0 <= i < |s| :: r[i] == LowerChar(s[i])
  {
    seq(|s|, i requires 0 <= i < |s| => LowerChar(s[i]))
  }

  /** getHolderIdentity. */
  function HolderIdentity(kind: string, namespace: string, name: string): string {
    Lower(kind) + "." + Lower(namespace) + "." + Lower(name)
  }

  lemma DotSplits(a: string, x: string, b: string, y: string)
    requires '.' !in a && '.' !in b
    requires a + "." + x == b + "." + y
    ensures a == b && x == y
  {
    var s, t := a + "." + x, b + "." + y;
    assert s[|a|] == '.' && t[|b|] == '.';
    assert |a| == |b|;
    assert a == s[..|a|] && b == t[..|b|] && x == s[|a| + 1..] && y == t[|b| + 1..];
  }

  lemma LowerKeepsDots(s: string)
    requires '.' !in s
    ensures '.' !in Lower(s)
  {
  }

  /** Objects of kinds and namespaces without dots are the same holder exactly
      when they agree up to case. */
  lemma HolderIdentityInjective(k1: string, s1: string, n1: string, k2: string, s2: string, n2: string)
    requires '.' !in k1 && '.' !in k2 && '.' !in s1 && '.' !in s2
    ensures HolderIdentity(k1, s1, n1) == HolderIdentity(k2, s2, n2) <==>
            Lower(k1) == Lower(k2) && Lower(s1) == Lower(s2) && Lower(n1) == Lower(n2)
  {
    LowerKeepsDots(k1);
    LowerKeepsDots(k2);
    LowerKeepsDots(s1);
    LowerKeepsDots(s2);
    var x, y := Lower(s1) + "." + Lower(n1), Lower(s2) + "." + Lower(n2);
    assert HolderIdentity(k1, s1, n1) == Lower(k1) + "." + x;
    assert HolderIdentity(k2, s2, n2) == Lower(k2) + "." + y;
    if HolderIdentity(k1, s1, n1) == HolderIdentity(k2, s2, n2) {
      DotSplits(Lower(k1), x, Lower(k2), y);
      DotSplits(Lower(s1), Lower(n1), Lower(s2), Lower(n2));
    }
  }
}
