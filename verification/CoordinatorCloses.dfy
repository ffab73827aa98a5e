/** Which connections the session coordinator closes over whole runs, how often, and with which code. */
module CoordinatorCloses {
  import opened Wrappers
  import opened Bytes
  import opened Registry
  import opened Coordinator
  import opened CoordinatorInvariants
  import opened CoordinatorRuns

  // ----- at most once

  /** The connections that a run's commits bring. */
  function Brings(op: Op): set<ConnId> {
    if op.OpCommit? then {op.connection} else {}
  }

  /** No two commits bring the same connection, and none brings one of `used`. */
  ghost predicate FreshConnections(used: set<ConnId>, ops: seq<Op>)
    decreases ops
  {
    ops == [] || (Brings(ops[0]) !! used && FreshConnections(used + Brings(ops[0]), ops[1..]))
  }

  function AllConnections(used: set<ConnId>, ops: seq<Op>): set<ConnId>
    decreases ops
  {
    if ops == [] then used else AllConnections(used + Brings(ops[0]), ops[1..])
  }

  /** No connection is asked to close twice, and none that is current is asked to close at all. */
  ghost predicate ClosesOnce(active: map<string, ActiveSession>, closes: seq<CloseRequest>, used: set<ConnId>) {
    && (forall i :: 0 <= i < |closes| ==> closes[i].connection in used)
    && (forall i, j :: 0 <= i < j < |closes| ==> closes[i].connection != closes[j].connection)
    && (forall c :: c in active ==> active[c].connection in used)
    && (forall c, i :: c in active && 0 <= i < |closes| ==> active[c].connection != closes[i].connection)
    && (forall c, d :: c in active && d in active && c != d ==> active[c].connection != active[d].connection)
  }

  ghost predicate ClosedOnce(s: State, used: set<ConnId>) {
    ClosesOnce(s.active, s.closes, used)
  }

  lemma DropAndCloseClosedOnce(active: map<string, ActiveSession>, closes: seq<CloseRequest>, used: set<ConnId>,
                               c: string, code: nat)
    requires ClosesOnce(active, closes, used) && c in active
    ensures ClosesOnce(active - {c}, closes + [CloseRequest(active[c].connection, code, false)], used)
  {
  }

  lemma {:induction false} ReconcileClosedOnce(s: State, order: seq<string>, used: set<ConnId>)
    requires Indexed(s.registry) && ClosedOnce(s, used)
    ensures ClosedOnce(ReconcileAll(s, order), used)
    decreases order
  {
    hide Indexed, Decide, ClosesOnce;
    if order != [] {
      if order[0] in s.active {
        DropAndCloseClosedOnce(s.active, s.closes, used, order[0], CLOSE_IDENTITY_REVOKED);
        DropAndCloseClosedOnce(s.active, s.closes, used, order[0], CLOSE_POLICY_CHANGED);
        ReconcileClosedOnce(ReconcileOne(s, order[0]), order[1..], used);
      } else {
        ReconcileClosedOnce(s, order[1..], used);
      }
    }
  }

  lemma {:induction false} CloseEachClosedOnce(s: State, order: seq<string>, used: set<ConnId>)
    requires ClosedOnce(s, used)
    ensures ClosedOnce(CloseEach(s, order), used)
    decreases order
  {
    hide ClosesOnce;
    if order != [] {
      if order[0] in s.active {
        DropAndCloseClosedOnce(s.active, s.closes, used, order[0], CLOSE_SERVER_SHUTDOWN);
        CloseEachClosedOnce(DropAndClose(s, order[0], CLOSE_SERVER_SHUTDOWN), order[1..], used);
      } else {
        CloseEachClosedOnce(s, order[1..], used);
      }
    }
  }

  lemma CommitClosedOnce(s: State, session: Session, connection: ConnId, used: set<ConnId>)
    requires Indexed(s.registry) && ClosedOnce(s, used) && connection !in used
    ensures ClosedOnce(Commit(s, session, connection).0, used + {connection})
  {
    hide Indexed, Decide, Activated;
  }

  lemma ReleaseClosedOnce(s: State, c: string, generation: u64, used: set<ConnId>)
    requires ClosedOnce(s, used)
    ensures ClosedOnce(Release(s, c, generation).0, used)
  {
  }

  lemma PerformClosedOnce(s: State, k: nat, used: set<ConnId>)
    requires k < |s.closes| && ClosedOnce(s, used)
    ensures ClosedOnce(Perform(s, k), used)
  {
  }

  lemma StepClosedOnce(s: State, op: Op, used: set<ConnId>)
    requires Indexed(s.registry) && LegalOp(s, op) && ClosedOnce(s, used) && Brings(op) !! used
    ensures ClosedOnce(Step(s, op), used + Brings(op))
  {
    hide Indexed, ClosesOnce, Commit, ReconcileAll, CloseEach, Release;
    if !op.OpCommit? {
      assert used + Brings(op) == used;
    }
    match op
    case OpCommit(session, connection) => CommitClosedOnce(s, session, connection, used);
    case OpRelease(c, generation) => ReleaseClosedOnce(s, c, generation, used);
    case OpReload(registry, order) => ReconcileClosedOnce(s.(registry := registry), order, used);
    case OpCloseAll(order) => CloseEachClosedOnce(s, order, used);
    case OpPerform(k) => PerformClosedOnce(s, k, used);
    case OpAllocate =>
  }

  /** Over every run with a new connection per commit: at most one close per connection, none of a current one. */
  lemma {:induction false} RunClosesOnce(s: State, ops: seq<Op>, used: set<ConnId>)
    requires Invariant(s) && LegalRun(s, ops) && ClosedOnce(s, used) && FreshConnections(used, ops)
    ensures ClosedOnce(Run(s, ops), AllConnections(used, ops))
    decreases ops
  {
    hide Invariant, Indexed, ClosedOnce, LegalOp, Step;
    if ops != [] {
      StepKeepsInvariant(s, ops[0]);
      InvariantIndexed(s);
      StepClosedOnce(s, ops[0], used);
      RunClosesOnce(Step(s, ops[0]), ops[1..], used + Brings(ops[0]));
    }
  }

  // ----- who leaves, and why

  /** The step takes the session of client `c` out of the active map, or puts another in its place. */
  ghost predicate Leaves(s: State, op: Op, c: string)
    requires Indexed(s.registry) && LegalOp(s, op) && c in s.active
  {
    var t := Step(s, op);
    c !in t.active || t.active[c] != s.active[c]
  }

  /** The session's own end asked for its release. */
  predicate Releases(s: State, op: Op, c: string)
    requires c in s.active
  {
    op == OpRelease(c, s.active[c].session.generation)
  }

  /** The code for a decision of a reload. */
  function CodeOf(d: Decision): Option<nat> {
    match d
    case Keep => None
    case IdentityRevoked => Some(CLOSE_IDENTITY_REVOKED)
    case PolicyChanged => Some(CLOSE_POLICY_CHANGED)
  }

  /**
    The code with which a reload closes a session: 0x101 if the new registry has no enabled identity of the client
    with the session's certificate, 0x102 if it has one that differs in more than its certificates.
   */
  ghost function ReloadCode(r: IdentityRegistry, session: Session, c: string): Option<nat> {
    if !Admits(r, session.fingerprint, c) then Some(0x101)
    else if !AdmitsUnchanged(r, session, c) then Some(0x102)
    else None
  }

  lemma ReloadCodeOfDecision(r: IdentityRegistry, session: Session, c: string)
    requires Indexed(r)
    ensures CodeOf(Decide(r, session, c)) == ReloadCode(r, session, c)
  {
    hide Decide, Admits, AdmitsUnchanged, Indexed;
    DecideExact(r, session, c);
  }

  /**
    The reason for which a step makes client `c` leave, as the code for it: replaced by a commit that the registry
    in force admits, dropped by a reload, or shut down; none for a release.
   */
  ghost function DepartureCode(s: State, op: Op, c: string): Option<nat>
    requires c in s.active
  {
    match op
    case OpCommit(session, _) =>
      if session.identity.clientId == c && AdmitsUnchanged(s.registry, session, c) then Some(0x100) else None
    case OpReload(registry, _) => ReloadCode(registry, s.active[c].session, c)
    case OpCloseAll(_) => Some(0x104)
    case _ => None
  }

  /** A session leaves exactly when it is released or there is a reason with a code. */
  lemma LeavesExactly(s: State, op: Op, c: string)
    requires Invariant(s) && LegalOp(s, op) && c in s.active
    ensures Leaves(s, op, c) <==> DepartureCode(s, op, c).Some? || Releases(s, op, c)
  {
    hide Invariant, Indexed, Decide, Commit, ReconcileAll, CloseEach, Admits, AdmitsUnchanged;
    match op
    case OpCommit(session, connection) =>
      CommitLeaves(s, session, connection, c);
      InvariantIndexed(s);
      DecideExact(s.registry, session, c);
    case OpReload(registry, order) =>
      ReconcileAllExact(s.(registry := registry), order);
      ReloadCodeOfDecision(registry, s.active[c].session, c);
    case OpCloseAll(order) => CloseEachExact(s, order);
    case _ =>
  }

  lemma CommitLeaves(s: State, session: Session, connection: ConnId, c: string)
    requires Invariant(s) && c in s.active
    ensures var t := Commit(s, session, connection).0;
            (c !in t.active || t.active[c] != s.active[c]) <==>
              session.identity.clientId == c && Decide(s.registry, session, c) == Keep
  {
    hide Indexed, Decide, Activated, LimitersStored, Counted, Authorized;
    assert s.active[c].handle < |s.handles|;
  }

  // ----- closes of one step

  /** A close with this code was asked for, at position `from` or later. */
  ghost predicate Asked(closes: seq<CloseRequest>, from: nat, connection: ConnId, code: nat) {
    exists i :: from <= i < |closes| && closes[i].connection == connection && closes[i].code == code
  }

  /** The requests of `before` stand at the front of `after`; they may have been performed since. */
  ghost predicate Extends(before: seq<CloseRequest>, after: seq<CloseRequest>) {
    && |before| <= |after|
    && forall i :: 0 <= i < |before| ==>
         after[i].connection == before[i].connection && after[i].code == before[i].code
  }

  lemma ExtendsTrans(a: seq<CloseRequest>, b: seq<CloseRequest>, c: seq<CloseRequest>)
    requires Extends(a, b) && Extends(b, c)
    ensures Extends(a, c)
  {
  }

  /** What is new after two stretches is new after the one or after the other. */
  lemma AskedSplits(a: nat, b: seq<CloseRequest>, c: seq<CloseRequest>, connection: ConnId, code: nat)
    requires a <= |b| && Extends(b, c)
    ensures Asked(c, a, connection, code) <==> Asked(b, a, connection, code) || Asked(c, |b|, connection, code)
  {
    if Asked(c, a, connection, code) {
      var i :| a <= i < |c| && c[i].connection == connection && c[i].code == code;
      assert i < |b| ==> b[i].connection == connection && b[i].code == code;
    }
    if Asked(b, a, connection, code) {
      var i :| a <= i < |b| && b[i].connection == connection && b[i].code == code;
      assert c[i].connection == connection && c[i].code == code;
    }
  }

  lemma AskedOne(closes: seq<CloseRequest>, request: CloseRequest, connection: ConnId, code: nat)
    ensures Extends(closes, closes + [request])
    ensures Asked(closes + [request], |closes|, connection, code) <==>
              request.connection == connection && request.code == code
  {
    assert (closes + [request])[|closes|] == request;
  }

  lemma AskedNone(closes: seq<CloseRequest>, connection: ConnId, code: nat)
    ensures Extends(closes, closes) && !Asked(closes, |closes|, connection, code)
  {
  }

  /** A reload round for some listed client asks for exactly this. */
  ghost predicate ReconcileAsks(s: State, order: seq<string>, connection: ConnId, code: nat)
    requires Indexed(s.registry)
  {
    exists c :: c in s.active && c in order && s.active[c].connection == connection &&
      CodeOf(Decide(s.registry, s.active[c].session, c)) == Some(code)
  }

  /** One round: the listed client's own request, if it does not stay. */
  lemma ReconcileOneAsks(s: State, c: string, connection: ConnId, code: nat)
    requires Indexed(s.registry) && c in s.active
    ensures var t := ReconcileOne(s, c);
            && Extends(s.closes, t.closes)
            && (Asked(t.closes, |s.closes|, connection, code) <==>
                  && s.active[c].connection == connection
                  && CodeOf(Decide(s.registry, s.active[c].session, c)) == Some(code))
  {
    hide Indexed, Decide, Asked, Extends;
    AskedNone(s.closes, connection, code);
    AskedOne(s.closes, CloseRequest(s.active[c].connection, CLOSE_IDENTITY_REVOKED, false), connection, code);
    AskedOne(s.closes, CloseRequest(s.active[c].connection, CLOSE_POLICY_CHANGED, false), connection, code);
  }

  lemma {:induction false} ReconcileAllAsks(s: State, order: seq<string>, connection: ConnId, code: nat)
    requires Indexed(s.registry)
    ensures Extends(s.closes, ReconcileAll(s, order).closes)
    ensures Asked(ReconcileAll(s, order).closes, |s.closes|, connection, code) <==>
              ReconcileAsks(s, order, connection, code)
    decreases order
  {
    hide Indexed, Decide, Asked, Extends;
    AskedNone(s.closes, connection, code);
    if order != [] {
      var next := if order[0] in s.active then ReconcileOne(s, order[0]) else s;
      if order[0] in s.active {
        ReconcileOneAsks(s, order[0], connection, code);
      }
      ReconcileAllAsks(next, order[1..], connection, code);
      ExtendsLonger(s.closes, next.closes);
      ExtendsTrans(s.closes, next.closes, ReconcileAll(s, order).closes);
      AskedSplits(|s.closes|, next.closes, ReconcileAll(s, order).closes, connection, code);
      ReconcileAsksStep(s, order, next, connection, code);
    }
  }

  lemma ExtendsLonger(a: seq<CloseRequest>, b: seq<CloseRequest>)
    requires Extends(a, b)
    ensures |a| <= |b|
  {
  }

  lemma ReconcileAsksStep(s: State, order: seq<string>, next: State, connection: ConnId, code: nat)
    requires Indexed(s.registry) && order != []
    requires next == if order[0] in s.active then ReconcileOne(s, order[0]) else s
    ensures ReconcileAsks(s, order, connection, code) <==>
              || (&& order[0] in s.active && s.active[order[0]].connection == connection
                  && CodeOf(Decide(s.registry, s.active[order[0]].session, order[0])) == Some(code))
              || ReconcileAsks(next, order[1..], connection, code)
  {
    hide Indexed, Decide;
    assert order == [order[0]] + order[1..];
    if ReconcileAsks(s, order, connection, code) {
      var c :| c in s.active && c in order && s.active[c].connection == connection &&
        CodeOf(Decide(s.registry, s.active[c].session, c)) == Some(code);
      assert c != order[0] ==> c in next.active && next.active[c] == s.active[c] && c in order[1..];
    }
    if ReconcileAsks(next, order[1..], connection, code) {
      var c :| c in next.active && c in order[1..] && next.active[c].connection == connection &&
        CodeOf(Decide(next.registry, next.active[c].session, c)) == Some(code);
      assert c in s.active && s.active[c] == next.active[c] && c in order;
    }
  }

  /** A shutdown round for some listed client asks for exactly this. */
  ghost predicate CloseEachAsksFor(s: State, order: seq<string>, connection: ConnId, code: nat) {
    code == CLOSE_SERVER_SHUTDOWN && exists c :: c in s.active && c in order && s.active[c].connection == connection
  }

  lemma {:induction false} CloseEachAsks(s: State, order: seq<string>, connection: ConnId, code: nat)
    ensures Extends(s.closes, CloseEach(s, order).closes)
    ensures Asked(CloseEach(s, order).closes, |s.closes|, connection, code) <==>
              CloseEachAsksFor(s, order, connection, code)
    decreases order
  {
    hide Asked, Extends;
    AskedNone(s.closes, connection, code);
    if order != [] {
      var next := if order[0] in s.active then DropAndClose(s, order[0], CLOSE_SERVER_SHUTDOWN) else s;
      if order[0] in s.active {
        AskedOne(s.closes, CloseRequest(s.active[order[0]].connection, CLOSE_SERVER_SHUTDOWN, false), connection, code);
      }
      CloseEachAsks(next, order[1..], connection, code);
      ExtendsLonger(s.closes, next.closes);
      ExtendsTrans(s.closes, next.closes, CloseEach(s, order).closes);
      AskedSplits(|s.closes|, next.closes, CloseEach(s, order).closes, connection, code);
      CloseEachAsksStep(s, order, next, connection, code);
    }
  }

  lemma CloseEachAsksStep(s: State, order: seq<string>, next: State, connection: ConnId, code: nat)
    requires order != []
    requires next == if order[0] in s.active then DropAndClose(s, order[0], CLOSE_SERVER_SHUTDOWN) else s
    ensures CloseEachAsksFor(s, order, connection, code) <==>
              || (&& order[0] in s.active && s.active[order[0]].connection == connection
                  && code == CLOSE_SERVER_SHUTDOWN)
              || CloseEachAsksFor(next, order[1..], connection, code)
  {
    assert order == [order[0]] + order[1..];
    if CloseEachAsksFor(s, order, connection, code) {
      var c :| c in s.active && c in order && s.active[c].connection == connection;
      assert c != order[0] ==> c in next.active && next.active[c] == s.active[c] && c in order[1..];
    }
    if CloseEachAsksFor(next, order[1..], connection, code) {
      var c :| c in next.active && c in order[1..] && next.active[c].connection == connection;
      assert c in s.active && s.active[c] == next.active[c] && c in order;
    }
  }

  /** The step makes some session on this connection leave for the reason with this code ... */
  ghost predicate Departs(s: State, op: Op, connection: ConnId, code: nat)
    requires Indexed(s.registry) && LegalOp(s, op)
  {
    exists c :: c in s.active && s.active[c].connection == connection && Leaves(s, op, c) &&
      DepartureCode(s, op, c) == Some(code)
  }

  /** ... or refuses the newcomer on it. */
  ghost predicate RefusesNewcomer(s: State, op: Op, connection: ConnId, code: nat) {
    && op.OpCommit? && op.connection == connection && code == 0x103
    && !AdmitsUnchanged(s.registry, op.session, op.session.identity.clientId)
  }

  lemma CommitCloses(s: State, session: Session, connection: ConnId, closed: ConnId, code: nat)
    requires Indexed(s.registry)
    ensures var t, c := Commit(s, session, connection).0, session.identity.clientId;
            && Extends(s.closes, t.closes)
            && (Asked(t.closes, |s.closes|, closed, code) <==>
                  if Decide(s.registry, session, c) == Keep
                  then c in s.active && s.active[c].connection == closed && code == CLOSE_SESSION_REPLACED
                  else connection == closed && code == CLOSE_COMMIT_REJECTED)
  {
    hide Indexed, Decide, Asked, Extends, Activated;
    var c := session.identity.clientId;
    AskedNone(s.closes, closed, code);
    AskedOne(s.closes, CloseRequest(connection, CLOSE_COMMIT_REJECTED, false), closed, code);
    if c in s.active {
      AskedOne(s.closes, CloseRequest(s.active[c].connection, CLOSE_SESSION_REPLACED, false), closed, code);
    }
  }

  /** Why a new connection per commit is needed: one that is committed again is closed as its own replacement. */
  lemma ReusedConnectionIsClosed(s: State, session: Session, connection: ConnId)
    requires Indexed(s.registry) && AdmitsUnchanged(s.registry, session, session.identity.clientId)
    requires session.identity.clientId in s.active
    requires s.active[session.identity.clientId].connection == connection
    ensures var t := Commit(s, session, connection).0;
            && t.active[session.identity.clientId].connection == connection
            && Asked(t.closes, |s.closes|, connection, 0x100)
  {
    hide Indexed, Decide, Asked, Activated, AdmitsUnchanged, Admits;
    DecideExact(s.registry, session, session.identity.clientId);
    CommitCloses(s, session, connection, connection, CLOSE_SESSION_REPLACED);
  }

  /** The requests that a step adds, in terms of its kind. */
  lemma StepAsks(s: State, op: Op, connection: ConnId, code: nat)
    requires Indexed(s.registry) && LegalOp(s, op)
    ensures Extends(s.closes, Step(s, op).closes)
    ensures Asked(Step(s, op).closes, |s.closes|, connection, code) <==>
              || (exists c :: c in s.active && s.active[c].connection == connection &&
                    DepartureCode(s, op, c) == Some(code))
              || RefusesNewcomer(s, op, connection, code)
  {
    hide Indexed, Decide, Commit, ReconcileAll, CloseEach, Admits, AdmitsUnchanged, ReloadCode;
    match op
    case OpCommit(session, newcomer) =>
      hide Asked, Extends;
      CommitCloses(s, session, newcomer, connection, code);
      var c := session.identity.clientId;
      DecideExact(s.registry, session, c);
      if Asked(Step(s, op).closes, |s.closes|, connection, code) && Decide(s.registry, session, c) == Keep {
        assert DepartureCode(s, op, c) == Some(code);
      }
    case OpReload(registry, order) =>
      hide Asked, Extends;
      var u := s.(registry := registry);
      ReconcileAllAsks(u, order, connection, code);
      if ReconcileAsks(u, order, connection, code) {
        var c :| c in u.active && c in order && u.active[c].connection == connection &&
          CodeOf(Decide(u.registry, u.active[c].session, c)) == Some(code);
        ReloadCodeOfDecision(registry, u.active[c].session, c);
        assert DepartureCode(s, op, c) == Some(code);
      }
      if c :| c in s.active && s.active[c].connection == connection && DepartureCode(s, op, c) == Some(code) {
        ReloadCodeOfDecision(registry, u.active[c].session, c);
        assert c in u.active && c in order;
      }
    case OpCloseAll(order) =>
      hide Asked, Extends;
      CloseEachAsks(s, order, connection, code);
      if CloseEachAsksFor(s, order, connection, code) {
        var c :| c in s.active && c in order && s.active[c].connection == connection;
        assert DepartureCode(s, op, c) == Some(code);
      }
    case _ =>
  }

  /** One step asks for exactly the closes of the sessions that it makes leave, each with its reason's code. */
  lemma StepClosesExactly(s: State, op: Op, connection: ConnId, code: nat)
    requires Invariant(s) && Indexed(s.registry) && LegalOp(s, op)
    ensures Extends(s.closes, Step(s, op).closes)
    ensures Asked(Step(s, op).closes, |s.closes|, connection, code) <==>
              Departs(s, op, connection, code) || RefusesNewcomer(s, op, connection, code)
  {
    hide Invariant, Indexed, LegalOp, Step, Asked, Extends, DepartureCode, RefusesNewcomer, Leaves;
    StepAsks(s, op, connection, code);
    forall c | c in s.active
      ensures DepartureCode(s, op, c).Some? ==> Leaves(s, op, c)
    {
      LeavesExactly(s, op, c);
    }
  }

  // ----- closes of a run

  /** Some step of the run makes a session on this connection leave with this code, or refuses a newcomer on it. */
  ghost predicate Accounts(s: State, ops: seq<Op>, connection: ConnId, code: nat)
    requires Invariant(s) && LegalRun(s, ops)
    decreases ops
  {
    ops != [] &&
    (InvariantIndexed(s); StepKeepsInvariant(s, ops[0]);
     || Departs(s, ops[0], connection, code)
     || RefusesNewcomer(s, ops[0], connection, code)
     || Accounts(Step(s, ops[0]), ops[1..], connection, code))
  }

  /**
    Over every run, the closes asked for are exactly those of the sessions that left other than by their own
    release, each with the code of the reason it left, and those of the newcomers that were refused.
   */
  lemma {:induction false} RunClosesExactly(s: State, ops: seq<Op>, connection: ConnId, code: nat)
    requires Invariant(s) && LegalRun(s, ops)
    ensures Extends(s.closes, Run(s, ops).closes)
    ensures Asked(Run(s, ops).closes, |s.closes|, connection, code) <==> Accounts(s, ops, connection, code)
    decreases ops
  {
    hide Invariant, Indexed, LegalOp, Step, Asked, Extends, Departs, RefusesNewcomer;
    AskedNone(s.closes, connection, code);
    if ops != [] {
      StepKeepsInvariant(s, ops[0]);
      InvariantIndexed(s);
      var next := Step(s, ops[0]);
      StepClosesExactly(s, ops[0], connection, code);
      RunClosesExactly(next, ops[1..], connection, code);
      ExtendsLonger(s.closes, next.closes);
      ExtendsTrans(s.closes, next.closes, Run(s, ops).closes);
      AskedSplits(|s.closes|, next.closes, Run(s, ops).closes, connection, code);
    }
  }

  /** Where every commit brings a new connection, the code of a closed connection is the only one it gets. */
  lemma OneCodePerConnection(s: State, ops: seq<Op>, used: set<ConnId>, connection: ConnId, code: nat, other: nat)
    requires Invariant(s) && LegalRun(s, ops) && ClosedOnce(s, used) && FreshConnections(used, ops)
    requires Accounts(s, ops, connection, code) && Accounts(s, ops, connection, other)
    ensures code == other
  {
    hide Invariant, LegalRun, Run, Accounts;
    RunClosesOnce(s, ops, used);
    RunClosesExactly(s, ops, connection, code);
    RunClosesExactly(s, ops, connection, other);
    var closes := Run(s, ops).closes;
    var i :| |s.closes| <= i < |closes| && closes[i].connection == connection && closes[i].code == code;
    var j :| |s.closes| <= j < |closes| && closes[j].connection == connection && closes[j].code == other;
    assert i == j;
  }
}
