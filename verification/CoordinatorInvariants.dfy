/** What every step of the session coordinator keeps. */
module CoordinatorInvariants {
  import opened Wrappers
  import opened Bytes
  import opened Registry
  import opened Coordinator

  // ----- A. authorization

  /** Every active session stands under its own client id and is authorized by the current registry. */
  ghost predicate Authorized(s: State)
    requires Indexed(s.registry)
  {
    forall c :: c in s.active ==>
      s.active[c].session.identity.clientId == c && Decide(s.registry, s.active[c].session, c) == Keep
  }

  // ----- B. data path handles

  /** The active handles are exactly those in the active map. */
  ghost predicate HandlesExact(s: State) {
    SessionsHaveHandles(s) && ActiveHandlesAreCurrent(s)
  }

  ghost predicate SessionsHaveHandles(s: State) {
    forall c :: c in s.active ==>
      var h := s.active[c].handle;
      h < |s.handles| && s.handles[h].active && s.handles[h].clientId == c
      && s.handles[h].generation == s.active[c].session.generation
  }

  ghost predicate ActiveHandlesAreCurrent(s: State) {
    forall h :: 0 <= h < |s.handles| && s.handles[h].active ==>
      s.handles[h].clientId in s.active && s.active[s.handles[h].clientId].handle == h
  }

  /** At most one active handle per client. */
  ghost predicate OneActivePerClient(handles: seq<Handle>) {
    forall i, j :: 0 <= i < j < |handles| && handles[i].active && handles[j].active ==>
      handles[i].clientId != handles[j].clientId
  }

  // ----- C. rate limiters

  /** Every active session uses the limiter stored for its client, and no two clients share one. */
  ghost predicate LimitersStored(s: State) {
    && (forall c :: c in s.active ==>
          && c in s.quotas && s.active[c].handle < |s.handles|
          && s.handles[s.active[c].handle].limiter == s.quotas[c].id)
    && (forall c :: c in s.quotas ==> s.quotas[c].id < s.limiters)
    && (forall c, d :: c in s.quotas && d in s.quotas && c != d ==> s.quotas[c].id != s.quotas[d].id)
  }

  /** Every stored limiter is of a client that the registry in force enables, and carries the limits it gives. */
  ghost predicate LimitsInForce(quotas: map<string, Limiter>, registry: IdentityRegistry)
    requires Indexed(registry)
  {
    forall c :: c in quotas ==>
      EnabledClient(registry, c) && quotas[c].limits == ByClientId(registry, c).value.limits
  }

  // ----- D. metrics

  function Departed(m: Metrics): nat {
    m.replacements + m.identityRevocations + m.policyChangeCloses + m.normalReleases + m.shutdownCloses
  }

  /** Every committed session is still active or left in exactly one counted way, below saturation. */
  ghost predicate Conserved(s: State) {
    && s.metrics.totalCommitted <= U64_MAX
    && (s.metrics.totalCommitted < U64_MAX ==> s.metrics.totalCommitted == |s.active| + Departed(s.metrics))
  }

  ghost predicate Counted(s: State) {
    s.metrics.activeSessions == |s.active| && Conserved(s)
  }

  ghost predicate Invariant(s: State) {
    && Indexed(s.registry) && Authorized(s) && HandlesExact(s) && LimitersStored(s)
    && LimitsInForce(s.quotas, s.registry) && Counted(s)
  }

  lemma InvariantIndexed(s: State)
    requires Invariant(s)
    ensures Indexed(s.registry)
  {
  }

  lemma InitialInvariant(registry: IdentityRegistry, firstGeneration: u64)
    requires Indexed(registry)
    ensures Invariant(Initial(registry, firstGeneration))
  {
  }

  /** Between steps there is therefore at most one active handle per client. */
  lemma ExactMeansOnePerClient(s: State)
    requires HandlesExact(s)
    ensures OneActivePerClient(s.handles)
  {
  }

  // ----- dropping one session

  lemma DropKeepsHandles(s: State, c: string)
    requires HandlesExact(s) && c in s.active
    ensures HandlesExact(Drop(s, c))
  {
  }

  lemma DropKeepsLimiters(s: State, c: string)
    requires LimitersStored(s) && c in s.active
    ensures LimitersStored(Drop(s, c))
  {
  }

  lemma DropCounts(s: State, c: string)
    requires c in s.active
    ensures |Drop(s, c).active| == |s.active| - 1
  {
  }

  // ----- commit

  /** What the three writes leave: the old handles, the replaced one inactive, the new one active. */
  lemma ActivatedExact(s: State, session: Session, limiter: nat)
    ensures var c, r := session.identity.clientId, Activated(s, session, limiter);
            && |r| == |s.handles| + 1
            && r[|s.handles|] == Handle(c, session.generation, limiter, true)
            && forall h :: 0 <= h < |s.handles| ==>
                 r[h] == if c in s.active && s.active[c].handle == h
                         then s.handles[h].(active := false) else s.handles[h]
  {
  }

  lemma ActivatedFrame(s: State, t: State, session: Session, limiter: nat)
    requires s.handles == t.handles && s.active == t.active
    ensures Activated(s, session, limiter) == Activated(t, session, limiter)
  {
  }

  /** Inside a commit, after every single write to a handle, at most one handle per client is active. */
  lemma CommitNeverOverlaps(s: State, session: Session, limiter: nat)
    requires HandlesExact(s)
    ensures OneActivePerClient(s.handles)
    ensures OneActivePerClient(Created(s, session, limiter))
    ensures OneActivePerClient(Displaced(s, session, limiter))
    ensures OneActivePerClient(Activated(s, session, limiter))
  {
    ExactMeansOnePerClient(s);
    ActivatedExact(s, session, limiter);
  }

  lemma InstallKeepsHandles(s: State, session: Session, connection: ConnId)
    requires HandlesExact(s)
    ensures HandlesExact(Install(s, session, connection))
  {
    InstallKeepsSessionsHandled(s, session, connection);
    InstallKeepsHandlesCurrent(s, session, connection);
  }

  lemma InstallKeepsSessionsHandled(s: State, session: Session, connection: ConnId)
    requires HandlesExact(s)
    ensures SessionsHaveHandles(Install(s, session, connection))
  {
    hide Activated, ActiveHandlesAreCurrent;
    ActivatedExact(s, session, LimiterFor(s, session.identity.clientId));
  }

  lemma InstallKeepsHandlesCurrent(s: State, session: Session, connection: ConnId)
    requires HandlesExact(s)
    ensures ActiveHandlesAreCurrent(Install(s, session, connection))
  {
    hide Activated;
    ActivatedExact(s, session, LimiterFor(s, session.identity.clientId));
  }

  lemma InstallKeepsLimiters(s: State, session: Session, connection: ConnId)
    requires LimitersStored(s) && HandlesExact(s)
    ensures LimitersStored(Install(s, session, connection))
  {
    ActivatedExact(s, session, LimiterFor(s, session.identity.clientId));
    hide Activated, HandlesExact;
  }

  lemma InstallKeepsAuthorized(s: State, session: Session, connection: ConnId)
    requires Indexed(s.registry) && Authorized(s)
    requires Decide(s.registry, session, session.identity.clientId) == Keep
    ensures Authorized(Install(s, session, connection))
  {
    hide Indexed, Decide, Activated;
  }

  /** What is committed carries the limits of the identity that the registry in force has for the client. */
  lemma KeptLimits(r: IdentityRegistry, session: Session, c: string)
    requires Indexed(r) && Decide(r, session, c) == Keep
    ensures EnabledClient(r, c) && ByClientId(r, c).value.limits == session.identity.limits
    ensures var a := Authorize(r, session.fingerprint);
            a.Ok? && a.value.clientId == c && SameSessionPolicy(session.identity, a.value)
  {
    AuthorizedIsEnabledClient(r, session.fingerprint);
  }

  lemma InstallKeepsLimitsInForce(s: State, session: Session, connection: ConnId)
    requires Indexed(s.registry) && LimitsInForce(s.quotas, s.registry)
    requires Decide(s.registry, session, session.identity.clientId) == Keep
    ensures LimitsInForce(Install(s, session, connection).quotas, s.registry)
  {
    hide Indexed, Decide, Activated, EnabledClient, ByClientId;
    KeptLimits(s.registry, session, session.identity.clientId);
  }

  lemma InstallCounts(s: State, session: Session, connection: ConnId)
    requires Counted(s)
    ensures Counted(Install(s, session, connection))
  {
    hide Activated;
    var c := session.identity.clientId;
    assert Install(s, session, connection).active.Keys == s.active.Keys + {c};
  }

  // ----- reload and shutdown

  lemma {:induction false} ReconcileKeepsHandles(s: State, order: seq<string>)
    requires Indexed(s.registry) && HandlesExact(s)
    ensures HandlesExact(ReconcileAll(s, order))
    decreases order
  {
    hide Indexed, Decide;
    if order != [] {
      if order[0] in s.active {
        DropKeepsHandles(s, order[0]);
        ReconcileKeepsHandles(ReconcileOne(s, order[0]), order[1..]);
      } else {
        ReconcileKeepsHandles(s, order[1..]);
      }
    }
  }

  lemma {:induction false} ReconcileCounts(s: State, order: seq<string>)
    requires Indexed(s.registry) && Conserved(s)
    ensures Conserved(ReconcileAll(s, order))
    decreases order
  {
    hide Indexed, Decide;
    if order != [] {
      if order[0] in s.active {
        DropCounts(s, order[0]);
        ReconcileCounts(ReconcileOne(s, order[0]), order[1..]);
      } else {
        ReconcileCounts(s, order[1..]);
      }
    }
  }

  lemma ReloadKeepsAuthorized(s: State, registry: IdentityRegistry, order: seq<string>)
    requires Indexed(s.registry) && Indexed(registry) && Authorized(s) && ListsAll(order, s.active.Keys)
    ensures Authorized(Reload(s, registry, order))
  {
    hide Indexed, Decide;
    ReconcileAllExact(s.(registry := registry), order);
  }

  lemma RequotedInForce(quotas: map<string, Limiter>, registry: IdentityRegistry)
    requires Indexed(registry)
    ensures LimitsInForce(Requoted(quotas, registry), registry)
  {
    hide Indexed, EnabledClient, ByClientId;
    EnabledIsFound(registry);
  }

  lemma EnabledIsFound(registry: IdentityRegistry)
    requires Indexed(registry)
    ensures forall c :: EnabledClient(registry, c) ==> ByClientId(registry, c).Some?
  {
  }

  lemma ReloadKeepsLimiters(s: State, registry: IdentityRegistry, order: seq<string>)
    requires Indexed(s.registry) && Indexed(registry) && LimitersStored(s) && ListsAll(order, s.active.Keys)
    ensures LimitersStored(Reload(s, registry, order))
  {
    hide Indexed, Decide, EnabledClient, Requoted, ReconcileAll, LimitersStored;
    var t := s.(registry := registry);
    ReconcileAllExact(t, order);
    RequotedKeepsIds(s.quotas, registry);
    StoredForActive(s);
    var r := ReconcileAll(t, order);
    forall c | c in r.active
      ensures EnabledClient(registry, c)
    {
      assert c in s.active && c in order;
      KeptLimits(registry, s.active[c].session, c);
    }
    LimitersNarrow(s, Reload(s, registry, order));
  }

  lemma StoredForActive(s: State)
    requires LimitersStored(s)
    ensures forall c :: c in s.active ==> c in s.quotas
  {
  }

  /** Fewer sessions and fewer limiters, the rest as they were. */
  lemma LimitersNarrow(s: State, t: State)
    requires LimitersStored(s) && t.limiters == s.limiters && |t.handles| == |s.handles|
    requires forall c :: c in t.active ==> c in s.active && t.active[c] == s.active[c] && c in t.quotas
    requires forall c :: c in t.quotas ==> c in s.quotas && t.quotas[c].id == s.quotas[c].id
    requires forall h :: 0 <= h < |s.handles| ==> t.handles[h].limiter == s.handles[h].limiter
    ensures LimitersStored(t)
  {
  }

  lemma RequotedKeepsIds(quotas: map<string, Limiter>, registry: IdentityRegistry)
    requires Indexed(registry)
    ensures var r := Requoted(quotas, registry);
            && (forall c :: c in r <==> c in quotas && EnabledClient(registry, c))
            && (forall c :: c in r ==> r[c].id == quotas[c].id)
  {
    hide Indexed, EnabledClient, ByClientId;
    EnabledIsFound(registry);
  }

  lemma {:induction false} CloseEachKeepsHandles(s: State, order: seq<string>)
    requires HandlesExact(s)
    ensures HandlesExact(CloseEach(s, order))
    decreases order
  {
    if order != [] {
      if order[0] in s.active {
        DropKeepsHandles(s, order[0]);
        CloseEachKeepsHandles(DropAndClose(s, order[0], CLOSE_SERVER_SHUTDOWN), order[1..]);
      } else {
        CloseEachKeepsHandles(s, order[1..]);
      }
    }
  }

  lemma CloseAllKeepsInvariant(s: State, order: seq<string>)
    requires Invariant(s) && ListsAll(order, s.active.Keys)
    ensures Invariant(CloseAll(s, order))
  {
    hide Indexed, HandlesExact, CloseEach;
    CloseEachExact(s, order);
    CloseEachKeepsHandles(s, order);
    HandlesExactFrame(CloseEach(s, order), CloseAll(s, order));
    assert CloseAll(s, order).active == map[];
  }

  lemma HandlesExactFrame(s: State, t: State)
    requires HandlesExact(s) && s.active == t.active && s.handles == t.handles
    ensures HandlesExact(t)
  {
  }

  lemma ReloadKeepsInvariant(s: State, registry: IdentityRegistry, order: seq<string>)
    requires Invariant(s) && Indexed(registry) && ListsAll(order, s.active.Keys)
    ensures Invariant(Reload(s, registry, order))
  {
    hide Indexed, HandlesExact, Authorized, LimitersStored, LimitsInForce, Requoted;
    var t := s.(registry := registry);
    HandlesExactFrame(s, t);
    ReconcileKeepsHandles(t, order);
    ReconcileCounts(t, order);
    HandlesExactFrame(ReconcileAll(t, order), Reload(s, registry, order));
    ReloadKeepsAuthorized(s, registry, order);
    ReloadKeepsLimiters(s, registry, order);
    RequotedInForce(s.quotas, registry);
  }

  lemma ReleaseKeepsInvariant(s: State, c: string, generation: u64)
    requires Invariant(s)
    ensures Invariant(Release(s, c, generation).0)
  {
    hide Indexed, HandlesExact, LimitersStored, LimitsInForce, Decide;
    if IsCurrent(s, c, generation) {
      DropKeepsHandles(s, c);
      DropKeepsLimiters(s, c);
      DropCounts(s, c);
      HandlesExactFrame(Drop(s, c), Release(s, c, generation).0);
      LimitersFrame(Drop(s, c), Release(s, c, generation).0);
    }
  }

  lemma LimitersFrame(s: State, t: State)
    requires LimitersStored(s) && s.active == t.active && s.handles == t.handles
    requires s.quotas == t.quotas && s.limiters == t.limiters
    ensures LimitersStored(t)
  {
  }

  lemma CommitKeepsInvariant(s: State, session: Session, connection: ConnId)
    requires Invariant(s)
    ensures Invariant(Commit(s, session, connection).0)
  {
    hide Indexed, Authorized, HandlesExact, LimitersStored, LimitsInForce, Counted, Decide;
    var c := session.identity.clientId;
    if Decide(s.registry, session, c) == Keep {
      InstallKeepsAuthorized(s, session, connection);
      InstallKeepsHandles(s, session, connection);
      InstallKeepsLimiters(s, session, connection);
      InstallKeepsLimitsInForce(s, session, connection);
      InstallCounts(s, session, connection);
    } else {
      RefuseKeepsInvariant(s, connection);
    }
  }

  lemma RefuseKeepsInvariant(s: State, connection: ConnId)
    requires Invariant(s)
    ensures Invariant(Refuse(s, connection))
  {
    hide Indexed, Decide;
  }

  lemma StepKeepsInvariant(s: State, op: Op)
    requires Invariant(s) && LegalOp(s, op)
    ensures Invariant(Step(s, op))
  {
    hide Invariant, Indexed, Decide, Commit, Release, Reload, CloseAll;
    InvariantIndexed(s);
    match op
    case OpAllocate => UntouchedKeepsInvariant(s, Allocate(s).0);
    case OpCommit(session, connection) => CommitKeepsInvariant(s, session, connection);
    case OpRelease(c, generation) => ReleaseKeepsInvariant(s, c, generation);
    case OpReload(registry, order) => ReloadKeepsInvariant(s, registry, order);
    case OpCloseAll(order) => CloseAllKeepsInvariant(s, order);
    case OpPerform(k) => UntouchedKeepsInvariant(s, Perform(s, k));
  }

  lemma UntouchedKeepsInvariant(s: State, t: State)
    requires Invariant(s)
    requires s.registry == t.registry && s.active == t.active && s.metrics == t.metrics && s.quotas == t.quotas
    requires s.handles == t.handles && s.limiters == t.limiters
    ensures Invariant(t)
  {
  }

  // ----- what single steps promise

  /** A refused commit changes the rejection count and asks for the newcomer's close, and nothing else. */
  lemma RefusedCommitIsInert(s: State, session: Session, connection: ConnId)
    requires Indexed(s.registry) && Commit(s, session, connection).1.Err?
    ensures var t := Commit(s, session, connection).0;
            && t.registry == s.registry && t.active == s.active && t.quotas == s.quotas && t.handles == s.handles
            && t.limiters == s.limiters && t.nextGeneration == s.nextGeneration
            && t.metrics == s.metrics.(commitRejections := SatAdd(s.metrics.commitRejections, 1))
            && t.closes == s.closes + [CloseRequest(connection, CLOSE_COMMIT_REJECTED, false)]
  {
    hide Indexed, Decide;
  }

  /** The reload report adds up to the sessions that were active. */
  lemma {:induction false} ReportAddsUp(s: State, order: seq<string>, report: ReconcileReport)
    requires Indexed(s.registry) && Lists(order, s.active.Keys)
    ensures var r := Tally(s, order, report);
            r.kept + r.identityRevoked + r.policyChanged ==
            report.kept + report.identityRevoked + report.policyChanged + |order|
    decreases order
  {
    hide Indexed, Decide;
    if order != [] {
      var next := ReconcileOne(s, order[0]);
      ListsRest(s, order);
      ReportAddsUp(next, order[1..], Count(s, order[0], report));
    }
  }

  /** The report that the reload loop accumulates. */
  function Tally(s: State, order: seq<string>, report: ReconcileReport): ReconcileReport
    requires Indexed(s.registry)
    decreases order
  {
    if order == [] then report
    else if order[0] in s.active then Tally(ReconcileOne(s, order[0]), order[1..], Count(s, order[0], report))
    else Tally(s, order[1..], report)
  }

  lemma ListsRest(s: State, order: seq<string>)
    requires Indexed(s.registry) && order != [] && Lists(order, s.active.Keys)
    ensures Lists(order[1..], ReconcileOne(s, order[0]).active.Keys)
  {
    hide Indexed, Decide;
    forall i | 0 <= i < |order[1..]|
      ensures order[1..][i] in ReconcileOne(s, order[0]).active
    {
      assert order[1..][i] == order[i + 1] && order[0] != order[i + 1];
    }
  }

  /** A full listing has as many entries as there are clients. */
  lemma {:induction false} ListingSize(order: seq<string>, clients: set<string>)
    requires ListsAll(order, clients)
    ensures |order| == |clients|
    decreases order
  {
    if order == [] {
      assert clients == {};
    } else {
      var rest := clients - {order[0]};
      forall c | c in rest
        ensures c in order[1..]
      {
        assert c in order;
      }
      ListingSize(order[1..], rest);
    }
  }
}
