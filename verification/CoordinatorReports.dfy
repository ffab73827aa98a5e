/** What the session coordinator answers and counts, in terms of the registry's list and of what happened. */
module CoordinatorReports {
  import opened Wrappers
  import opened Bytes
  import opened Registry
  import opened Coordinator
  import opened CoordinatorInvariants
  import opened CoordinatorRuns

  // ----- a commit's answer

  /** Each answer of a commit with its condition; a commit that succeeds changes its own client's session only. */
  lemma CommitExact(s: State, session: Session, connection: ConnId)
    requires Indexed(s.registry)
    ensures var (t, r) := Commit(s, session, connection);
            var c, f := session.identity.clientId, session.fingerprint;
            && (r == Err(SessionIdentityRevoked) <==> !Admits(s.registry, f, c))
            && (r == Err(SessionPolicyChanged) <==>
                  Admits(s.registry, f, c) && !AdmitsUnchanged(s.registry, session, c))
            && (r.Ok? <==> AdmitsUnchanged(s.registry, session, c))
            && (r.Ok? ==>
                  && r.value.generation == session.generation
                  && r.value.replacedGeneration ==
                       (if c in s.active then Some(s.active[c].session.generation) else None)
                  && t.active == s.active[c := ActiveSession(session, connection, |s.handles|)])
  {
    hide Indexed, Decide, Admits, AdmitsUnchanged, Activated;
    DecideExact(s.registry, session, session.identity.clientId);
  }

  // ----- a reload's report

  /** The sessions that a registry does not admit at all, those it admits under another policy, and the rest. */
  ghost function Revoked(active: map<string, ActiveSession>, r: IdentityRegistry): set<string> {
    set c | c in active && !Admits(r, active[c].session.fingerprint, c)
  }

  ghost function Changed(active: map<string, ActiveSession>, r: IdentityRegistry): set<string> {
    set c | c in active && Admits(r, active[c].session.fingerprint, c) && !AdmitsUnchanged(r, active[c].session, c)
  }

  ghost function Kept(active: map<string, ActiveSession>, r: IdentityRegistry): set<string> {
    set c | c in active && AdmitsUnchanged(r, active[c].session, c)
  }

  /** The listed sessions with this decision. */
  ghost function Decided(s: State, order: seq<string>, d: Decision): set<string>
    requires Indexed(s.registry)
  {
    set c | c in order && c in s.active && Decide(s.registry, s.active[c].session, c) == d
  }

  lemma DecidedExact(s: State, order: seq<string>)
    requires Indexed(s.registry) && ListsAll(order, s.active.Keys)
    ensures Decided(s, order, IdentityRevoked) == Revoked(s.active, s.registry)
    ensures Decided(s, order, PolicyChanged) == Changed(s.active, s.registry)
    ensures Decided(s, order, Keep) == Kept(s.active, s.registry)
  {
    hide Indexed, Decide, Admits, AdmitsUnchanged;
    forall c | c in s.active
      ensures c in order
      ensures Decide(s.registry, s.active[c].session, c) == Keep <==>
                AdmitsUnchanged(s.registry, s.active[c].session, c)
      ensures Decide(s.registry, s.active[c].session, c) == IdentityRevoked <==>
                !Admits(s.registry, s.active[c].session.fingerprint, c)
      ensures AdmitsUnchanged(s.registry, s.active[c].session, c) ==>
                Admits(s.registry, s.active[c].session.fingerprint, c)
    {
      DecideExact(s.registry, s.active[c].session, c);
    }
  }

  /** One round takes its client out of the set it belongs to and leaves the others where they are. */
  lemma DecidedStep(s: State, order: seq<string>, d: Decision)
    requires Indexed(s.registry) && order != [] && Lists(order, s.active.Keys)
    ensures var next := ReconcileOne(s, order[0]);
            && order[0] !in Decided(next, order[1..], d)
            && Decided(s, order, d) ==
                 Decided(next, order[1..], d) +
                 (if Decide(s.registry, s.active[order[0]].session, order[0]) == d then {order[0]} else {})
  {
    hide Indexed, Decide;
    var next := ReconcileOne(s, order[0]);
    assert order == [order[0]] + order[1..];
    assert order[0] !in order[1..];
    forall c | c in order[1..]
      ensures c in next.active && next.active[c] == s.active[c]
    {
      assert c in order && c != order[0];
    }
  }

  lemma {:induction false} TallyExact(s: State, order: seq<string>, report: ReconcileReport)
    requires Indexed(s.registry) && Lists(order, s.active.Keys)
    ensures var r := Tally(s, order, report);
            && r.kept == report.kept + |Decided(s, order, Keep)|
            && r.identityRevoked == report.identityRevoked + |Decided(s, order, IdentityRevoked)|
            && r.policyChanged == report.policyChanged + |Decided(s, order, PolicyChanged)|
    decreases order
  {
    hide Indexed, Decide, Decided;
    if order == [] {
      NobodyDecided(s);
    } else {
      ListsRest(s, order);
      DecidedStep(s, order, Keep);
      DecidedStep(s, order, IdentityRevoked);
      DecidedStep(s, order, PolicyChanged);
      TallyExact(ReconcileOne(s, order[0]), order[1..], Count(s, order[0], report));
    }
  }

  lemma NobodyDecided(s: State)
    requires Indexed(s.registry)
    ensures forall d :: Decided(s, [], d) == {}
  {
  }

  /** The report of a reload counts the sessions of each kind ... */
  lemma ReportExact(s: State, order: seq<string>)
    requires Indexed(s.registry) && ListsAll(order, s.active.Keys)
    ensures Tally(s, order, ReconcileReport(0, 0, 0)) ==
              ReconcileReport(|Kept(s.active, s.registry)|, |Revoked(s.active, s.registry)|,
                              |Changed(s.active, s.registry)|)
  {
    hide Indexed, Tally, Decided, Kept, Revoked, Changed;
    DecidedExact(s, order);
    TallyExact(s, order, ReconcileReport(0, 0, 0));
  }

  lemma {:induction false} ReconcileMetrics(s: State, order: seq<string>)
    requires Indexed(s.registry) && Lists(order, s.active.Keys)
    requires s.metrics.identityRevocations <= U64_MAX && s.metrics.policyChangeCloses <= U64_MAX
    ensures var m := ReconcileAll(s, order).metrics;
            m == s.metrics.(
                   identityRevocations := SatAdd(s.metrics.identityRevocations, |Decided(s, order, IdentityRevoked)|),
                   policyChangeCloses := SatAdd(s.metrics.policyChangeCloses, |Decided(s, order, PolicyChanged)|))
    decreases order
  {
    hide Indexed, Decide, Decided;
    if order == [] {
      NobodyDecided(s);
    } else {
      ListsRest(s, order);
      DecidedStep(s, order, IdentityRevoked);
      DecidedStep(s, order, PolicyChanged);
      ReconcileMetrics(ReconcileOne(s, order[0]), order[1..]);
    }
  }

  /** ... the metrics move by the same numbers, and exactly the sessions of the third kind stay. */
  lemma ReloadExact(s: State, registry: IdentityRegistry, order: seq<string>)
    requires Indexed(registry) && ListsAll(order, s.active.Keys)
    requires s.metrics.identityRevocations <= U64_MAX && s.metrics.policyChangeCloses <= U64_MAX
    ensures var t := Reload(s, registry, order);
            && t.registry == registry && t.active.Keys == Kept(s.active, registry)
            && (forall c :: c in t.active ==> t.active[c] == s.active[c])
            && t.metrics == s.metrics.(
                 activeSessions := |Kept(s.active, registry)|,
                 identityRevocations := SatAdd(s.metrics.identityRevocations, |Revoked(s.active, registry)|),
                 policyChangeCloses := SatAdd(s.metrics.policyChangeCloses, |Changed(s.active, registry)|))
  {
    hide Indexed, Decide, ReconcileAll, Requoted, Revoked, Changed, Admits, AdmitsUnchanged;
    var u := s.(registry := registry);
    DecidedExact(u, order);
    ReconcileMetrics(u, order);
    ReconcileAllExact(u, order);
    var t := Reload(s, registry, order);
    forall c
      ensures c in t.active <==> c in Kept(s.active, registry)
    {
      if c in s.active {
        DecideExact(registry, s.active[c].session, c);
      }
    }
    assert t.active.Keys == Kept(s.active, registry);
  }

  // ----- metrics against the closes asked for

  /** How many of the closes asked for carry this code. */
  function Coded(closes: seq<CloseRequest>, code: nat): nat {
    if closes == [] then 0
    else Coded(closes[..|closes| - 1], code) + (if closes[|closes| - 1].code == code then 1 else 0)
  }

  lemma CodedSnoc(closes: seq<CloseRequest>, request: CloseRequest, code: nat)
    ensures Coded(closes + [request], code) == Coded(closes, code) + (if request.code == code then 1 else 0)
  {
    assert (closes + [request])[..|closes|] == closes;
  }

  lemma {:induction false} CodedPerformed(closes: seq<CloseRequest>, k: nat, code: nat)
    requires k < |closes|
    ensures Coded(closes[k := closes[k].(performed := true)], code) == Coded(closes, code)
  {
    var done := closes[k := closes[k].(performed := true)];
    var last := |closes| - 1;
    if k < last {
      CodedPerformed(closes[..last], k, code);
      assert done[..last] == closes[..last][k := closes[..last][k].(performed := true)];
    } else {
      assert done[..last] == closes[..last];
    }
  }

  /** A counter that stops at the largest 64-bit number. */
  function Capped(n: nat): nat {
    Min(n, U64_MAX)
  }

  /** Five of the metrics count the closes asked for with their code. */
  ghost predicate MetricsMatch(m: Metrics, closes: seq<CloseRequest>) {
    && m.replacements == Capped(Coded(closes, 0x100))
    && m.identityRevocations == Capped(Coded(closes, 0x101))
    && m.policyChangeCloses == Capped(Coded(closes, 0x102))
    && m.commitRejections == Capped(Coded(closes, 0x103))
    && m.shutdownCloses == Capped(Coded(closes, 0x104))
  }

  lemma MatchInRange(m: Metrics, closes: seq<CloseRequest>)
    requires MetricsMatch(m, closes)
    ensures m.identityRevocations <= U64_MAX && m.policyChangeCloses <= U64_MAX
  {
  }

  /** The other metrics play no part. */
  lemma MatchFrame(m: Metrics, n: Metrics, closes: seq<CloseRequest>)
    requires MetricsMatch(m, closes)
    requires n == m.(activeSessions := n.activeSessions, normalReleases := n.normalReleases)
    ensures MetricsMatch(n, closes)
  {
  }

  lemma NothingCoded(m: Metrics)
    requires m == Metrics(0, 0, 0, 0, 0, 0, 0, 0)
    ensures MetricsMatch(m, [])
  {
  }

  /** One more close with a code, and one more in the metric that counts it. */
  lemma MatchOneMore(m: Metrics, closes: seq<CloseRequest>, request: CloseRequest, next: Metrics)
    requires MetricsMatch(m, closes)
    requires next.replacements ==
               if request.code == 0x100 then SatAdd(m.replacements, 1) else m.replacements
    requires next.identityRevocations ==
               if request.code == 0x101 then SatAdd(m.identityRevocations, 1) else m.identityRevocations
    requires next.policyChangeCloses ==
               if request.code == 0x102 then SatAdd(m.policyChangeCloses, 1) else m.policyChangeCloses
    requires next.commitRejections ==
               if request.code == 0x103 then SatAdd(m.commitRejections, 1) else m.commitRejections
    requires next.shutdownCloses == if request.code == 0x104 then SatAdd(m.shutdownCloses, 1) else m.shutdownCloses
    ensures MetricsMatch(next, closes + [request])
  {
    hide Coded;
    CodedSnoc(closes, request, 0x100);
    CodedSnoc(closes, request, 0x101);
    CodedSnoc(closes, request, 0x102);
    CodedSnoc(closes, request, 0x103);
    CodedSnoc(closes, request, 0x104);
  }

  lemma CommitMatches(s: State, session: Session, connection: ConnId)
    requires Indexed(s.registry) && MetricsMatch(s.metrics, s.closes)
    ensures var t := Commit(s, session, connection).0; MetricsMatch(t.metrics, t.closes)
  {
    hide Indexed, Decide, Activated, Coded;
    var t := Commit(s, session, connection).0;
    if |t.closes| > |s.closes| {
      var request := t.closes[|s.closes|];
      assert t.closes == s.closes + [request];
      MatchOneMore(s.metrics, s.closes, request, t.metrics);
    }
  }

  lemma ReconcileOneMatches(s: State, c: string)
    requires Indexed(s.registry) && c in s.active && MetricsMatch(s.metrics, s.closes)
    ensures var t := ReconcileOne(s, c); MetricsMatch(t.metrics, t.closes)
  {
    hide Indexed, Decide, Coded;
    var t := ReconcileOne(s, c);
    if |t.closes| > |s.closes| {
      var request := t.closes[|s.closes|];
      assert t.closes == s.closes + [request];
      MatchOneMore(s.metrics, s.closes, request, t.metrics);
    }
  }

  lemma {:induction false} ReconcileMatches(s: State, order: seq<string>)
    requires Indexed(s.registry) && MetricsMatch(s.metrics, s.closes)
    ensures var t := ReconcileAll(s, order); MetricsMatch(t.metrics, t.closes)
    decreases order
  {
    hide Indexed, MetricsMatch, ReconcileOne;
    if order != [] {
      if order[0] in s.active {
        ReconcileOneMatches(s, order[0]);
        ReconcileOneExact(s, order[0]);
        ReconcileMatches(ReconcileOne(s, order[0]), order[1..]);
      } else {
        ReconcileMatches(s, order[1..]);
      }
    }
  }

  /** The shutdown loop asks for one close with its code per session, and for no other. */
  lemma {:induction false} CloseEachCoded(s: State, order: seq<string>, code: nat)
    requires Lists(order, s.active.Keys)
    ensures Coded(CloseEach(s, order).closes, code) ==
              Coded(s.closes, code) + (if code == 0x104 then |order| else 0)
    decreases order
  {
    if order != [] {
      hide Coded;
      var next := DropAndClose(s, order[0], CLOSE_SERVER_SHUTDOWN);
      CodedSnoc(s.closes, CloseRequest(s.active[order[0]].connection, CLOSE_SERVER_SHUTDOWN, false), code);
      forall i | 0 <= i < |order[1..]|
        ensures order[1..][i] in next.active
      {
        assert order[1..][i] == order[i + 1] && order[0] != order[i + 1];
      }
      CloseEachCoded(next, order[1..], code);
    }
  }

  lemma CloseAllMatches(s: State, order: seq<string>)
    requires ListsAll(order, s.active.Keys) && MetricsMatch(s.metrics, s.closes)
    ensures var t := CloseAll(s, order); MetricsMatch(t.metrics, t.closes)
  {
    hide Coded, CloseEach;
    ListingSize(order, s.active.Keys);
    CloseEachCoded(s, order, 0x100);
    CloseEachCoded(s, order, 0x101);
    CloseEachCoded(s, order, 0x102);
    CloseEachCoded(s, order, 0x103);
    CloseEachCoded(s, order, 0x104);
  }

  lemma PerformMatches(s: State, k: nat)
    requires k < |s.closes| && MetricsMatch(s.metrics, s.closes)
    ensures var t := Perform(s, k); MetricsMatch(t.metrics, t.closes)
  {
    hide Coded;
    CodedPerformed(s.closes, k, 0x100);
    CodedPerformed(s.closes, k, 0x101);
    CodedPerformed(s.closes, k, 0x102);
    CodedPerformed(s.closes, k, 0x103);
    CodedPerformed(s.closes, k, 0x104);
  }

  lemma StepMatches(s: State, op: Op)
    requires Indexed(s.registry) && LegalOp(s, op) && MetricsMatch(s.metrics, s.closes)
    ensures var t := Step(s, op); MetricsMatch(t.metrics, t.closes)
  {
    hide Indexed, Commit, ReconcileAll, CloseAll, Perform, Coded;
    match op
    case OpCommit(session, connection) => CommitMatches(s, session, connection);
    case OpReload(registry, order) => ReconcileMatches(s.(registry := registry), order);
    case OpCloseAll(order) => CloseAllMatches(s, order);
    case OpPerform(k) => PerformMatches(s, k);
    case _ =>
  }

  /** How many commits of a run were admitted by the registry in force when they came. */
  ghost function Admitted(s: State, ops: seq<Op>): nat
    requires Invariant(s) && LegalRun(s, ops)
    decreases ops
  {
    if ops == [] then 0
    else
      StepKeepsInvariant(s, ops[0]);
      (if ops[0].OpCommit? && AdmitsUnchanged(s.registry, ops[0].session, ops[0].session.identity.clientId)
       then 1 else 0) + Admitted(Step(s, ops[0]), ops[1..])
  }

  lemma CommittedAfterStep(s: State, op: Op)
    requires Indexed(s.registry) && LegalOp(s, op)
    ensures Step(s, op).metrics.totalCommitted ==
              if op.OpCommit? && AdmitsUnchanged(s.registry, op.session, op.session.identity.clientId)
              then SatAdd(s.metrics.totalCommitted, 1) else s.metrics.totalCommitted
  {
    hide Indexed, Decide, Activated, AdmitsUnchanged, Admits;
    match op
    case OpCommit(session, _) => DecideExact(s.registry, session, session.identity.clientId);
    case OpReload(registry, order) => ReconcileCommitted(s.(registry := registry), order);
    case _ =>
  }

  lemma {:induction false} ReconcileCommitted(s: State, order: seq<string>)
    requires Indexed(s.registry)
    ensures ReconcileAll(s, order).metrics.totalCommitted == s.metrics.totalCommitted
    decreases order
  {
    hide Indexed, Decide;
    if order != [] {
      ReconcileCommitted(if order[0] in s.active then ReconcileOne(s, order[0]) else s, order[1..]);
    }
  }

  lemma CommitsAccounted(s: State)
    requires Invariant(s)
    ensures s.metrics.totalCommitted <= U64_MAX
    ensures s.metrics.totalCommitted < U64_MAX ==> s.metrics.totalCommitted == |s.active| + Departed(s.metrics)
  {
  }

  /**
    Over every run: the metrics of replacements, revocations, policy changes, refused commits and shutdowns are
    the numbers of closes asked for with their codes, and the commits counted are those that were admitted, each
    up to the largest 64-bit number. With the sessions still active they leave the releases as the difference.
   */
  lemma {:induction false} MetricsExact(s: State, ops: seq<Op>)
    requires Invariant(s) && LegalRun(s, ops) && MetricsMatch(s.metrics, s.closes)
    ensures var t := Run(s, ops);
            && MetricsMatch(t.metrics, t.closes)
            && t.metrics.totalCommitted == Capped(s.metrics.totalCommitted + Admitted(s, ops))
            && (t.metrics.totalCommitted < U64_MAX ==>
                  t.metrics.totalCommitted == |t.active| + Departed(t.metrics))
    decreases ops
  {
    hide Invariant, Indexed, LegalOp, Step, MetricsMatch, AdmitsUnchanged;
    CommitsAccounted(s);
    if ops != [] {
      InvariantIndexed(s);
      StepKeepsInvariant(s, ops[0]);
      StepMatches(s, ops[0]);
      CommittedAfterStep(s, ops[0]);
      MetricsExact(Step(s, ops[0]), ops[1..]);
    }
  }
}
