/** Safety of the session coordinator over whole runs: every interleaving of its steps. */
module CoordinatorRuns {
  import opened Wrappers
  import opened Bytes
  import opened Registry
  import opened Coordinator
  import opened CoordinatorInvariants

  ghost predicate LegalRun(s: State, ops: seq<Op>)
    requires Invariant(s)
    decreases ops
  {
    ops == [] ||
    (LegalOp(s, ops[0]) && (StepKeepsInvariant(s, ops[0]); LegalRun(Step(s, ops[0]), ops[1..])))
  }

  ghost function Run(s: State, ops: seq<Op>): (r: State)
    requires Invariant(s) && LegalRun(s, ops)
    ensures Invariant(r)
    decreases ops
  {
    if ops == [] then s
    else
      StepKeepsInvariant(s, ops[0]);
      Run(Step(s, ops[0]), ops[1..])
  }

  /**
    Every reachable state: each active session is authorized, for its own client and with its own
    policy, by the registry in force now, whatever registry it was negotiated against; the active
    handles are exactly the active sessions' and one per client; each session uses its client's limiter;
    every stored limiter carries the limits that the registry in force gives its client; and below
    saturation every commit is accounted for.
   */
  lemma ReachableStates(start: State, ops: seq<Op>)
    requires Invariant(start) && LegalRun(start, ops)
    ensures var s := Run(start, ops);
            && Indexed(s.registry)
            && (forall c :: c in s.active ==>
                  var a := Authorize(s.registry, s.active[c].session.fingerprint);
                  && a.Ok? && a.value.clientId == c && SameSessionPolicy(s.active[c].session.identity, a.value)
                  && AdmitsUnchanged(s.registry, s.active[c].session, c))
            && OneActivePerClient(s.handles)
            && (forall h :: 0 <= h < |s.handles| ==>
                  (s.handles[h].active <==> exists c :: c in s.active && s.active[c].handle == h))
            && (forall c :: c in s.active ==>
                  s.active[c].handle < |s.handles| && c in s.quotas
                  && s.handles[s.active[c].handle].limiter == s.quotas[c].id
                  && s.quotas[c].limits == s.active[c].session.identity.limits)
            && (forall c :: c in s.quotas ==>
                  EnabledClient(s.registry, c) && s.quotas[c].limits == ByClientId(s.registry, c).value.limits)
            && s.metrics.activeSessions == |s.active|
            && (s.metrics.totalCommitted < U64_MAX ==> s.metrics.totalCommitted == |s.active| + Departed(s.metrics))
  {
    hide Indexed, Decide, Authorize, EnabledClient, ByClientId, SameSessionPolicy, AdmitsUnchanged, Admits;
    var s := Run(start, ops);
    ExactMeansOnePerClient(s);
    EnabledIsFound(s.registry);
    forall c | c in s.active
      ensures var a := Authorize(s.registry, s.active[c].session.fingerprint);
              && a.Ok? && a.value.clientId == c && SameSessionPolicy(s.active[c].session.identity, a.value)
              && AdmitsUnchanged(s.registry, s.active[c].session, c)
              && c in s.quotas && s.quotas[c].limits == s.active[c].session.identity.limits
    {
      KeptLimits(s.registry, s.active[c].session, c);
      DecideExact(s.registry, s.active[c].session, c);
    }
  }

  // ----- rate limiters

  /** The step leaves the client's limiter in place: no shutdown, and no reload without the client. */
  ghost predicate KeepsClient(op: Op, c: string) {
    match op
    case OpCloseAll(_) => false
    case OpReload(registry, _) => Indexed(registry) && EnabledClient(registry, c)
    case _ => true
  }

  lemma LimiterSurvivesStep(s: State, op: Op, c: string)
    requires Indexed(s.registry) && LegalOp(s, op) && KeepsClient(op, c)
    requires c in s.quotas
    ensures var t := Step(s, op); c in t.quotas && t.quotas[c].id == s.quotas[c].id
  {
    hide Indexed, Decide, EnabledClient;
    if op.OpReload? {
      ReconcileAllExact(s.(registry := op.registry), op.order);
    }
  }

  lemma {:induction false} LimiterSurvivesRun(s: State, ops: seq<Op>, c: string)
    requires Invariant(s) && LegalRun(s, ops) && c in s.quotas
    requires forall op :: op in ops ==> KeepsClient(op, c)
    ensures var t := Run(s, ops); c in t.quotas && t.quotas[c].id == s.quotas[c].id
    decreases ops
  {
    hide Invariant, Indexed, KeepsClient, LegalOp, Step;
    if ops != [] {
      StepKeepsInvariant(s, ops[0]);
      InvariantIndexed(s);
      LimiterSurvivesStep(s, ops[0], c);
      LimiterSurvivesRun(Step(s, ops[0]), ops[1..], c);
    }
  }

  /** The limiter that a successful commit hands to its data path. */
  function CommittedLimiter(s: State, session: Session, connection: ConnId): nat
    requires Indexed(s.registry) && Commit(s, session, connection).1.Ok?
  {
    Commit(s, session, connection).0.handles[|s.handles|].limiter
  }

  lemma CommittedLimiterExact(s: State, session: Session, connection: ConnId)
    requires Indexed(s.registry) && Commit(s, session, connection).1.Ok?
    ensures var c, t := session.identity.clientId, Commit(s, session, connection).0;
            c in t.quotas && CommittedLimiter(s, session, connection) == t.quotas[c].id
            && (c in s.quotas ==> t.quotas[c].id == s.quotas[c].id)
  {
    hide Indexed, Decide;
    ActivatedExact(s, session, LimiterFor(s, session.identity.clientId));
    hide Activated;
  }

  /**
    Replacing a session or reconnecting never yields a fresh rate bucket: two commits of one client with
    no shutdown and no reload without the client in between share one limiter.
   */
  lemma ReconnectKeepsLimiter(s: State, first: Op, t: State, between: seq<Op>, second: Op)
    requires Invariant(s) && first.OpCommit? && second.OpCommit?
    requires first.session.identity.clientId == second.session.identity.clientId
    requires Commit(s, first.session, first.connection).1.Ok? && t == Commit(s, first.session, first.connection).0
    requires Invariant(t) && LegalRun(t, between)
    requires forall op :: op in between ==> KeepsClient(op, first.session.identity.clientId)
    requires Commit(Run(t, between), second.session, second.connection).1.Ok?
    ensures CommittedLimiter(Run(t, between), second.session, second.connection) ==
            CommittedLimiter(s, first.session, first.connection)
  {
    CommittedLimiterExact(s, first.session, first.connection);
    LimiterSurvivesRun(t, between, first.session.identity.clientId);
    CommittedLimiterExact(Run(t, between), second.session, second.connection);
    hide Indexed, Commit, Invariant, CommittedLimiter;
  }

  // ----- generations

  /** Allocated generations in order of allocation. */
  ghost function Allocated(s: State, ops: seq<Op>): seq<u64>
    requires Invariant(s) && LegalRun(s, ops)
    decreases ops
  {
    if ops == [] then []
    else
      StepKeepsInvariant(s, ops[0]);
      var here := if ops[0].OpAllocate? && Allocate(s).1.Some? then [Allocate(s).1.value] else [];
      here + Allocated(Step(s, ops[0]), ops[1..])
  }

  lemma GenerationAfterStep(s: State, op: Op)
    requires Indexed(s.registry) && LegalOp(s, op)
    ensures Step(s, op).nextGeneration == if op.OpAllocate? then Allocate(s).0.nextGeneration else s.nextGeneration
  {
    hide Indexed, Decide, Activated;
    if op.OpReload? {
      ReconcileAllExact(s.(registry := op.registry), op.order);
    } else if op.OpCloseAll? {
      CloseEachExact(s, op.order);
    }
  }

  /** Non-zero, strictly increasing, none below `next`, and none at all when `next` is the exhausted mark. */
  ghost predicate AscendingFrom(g: seq<u64>, next: u64) {
    && (next == 0 ==> g == [])
    && (forall i :: 0 <= i < |g| ==> next <= g[i])
    && (forall i, j :: 0 <= i < j < |g| ==> g[i] < g[j])
  }

  lemma NothingAscends(next: u64)
    ensures AscendingFrom([], next)
  {
  }

  lemma AscendingOneMore(g: seq<u64>, next: u64)
    requires next != 0 && AscendingFrom(g, (next + 1) % 0x1_0000_0000_0000_0000)
    ensures AscendingFrom([next] + g, next)
  {
    if next == U64_MAX {
      assert g == [];
    } else {
      assert forall i :: 0 <= i < |g| ==> next < g[i];
    }
  }

  /** Generations are non-zero and strictly increasing, whatever runs in between; once exhausted, never again. */
  lemma {:induction false} GenerationsIncrease(s: State, ops: seq<Op>)
    requires Invariant(s) && LegalRun(s, ops)
    ensures AscendingFrom(Allocated(s, ops), s.nextGeneration)
    decreases ops
  {
    hide Invariant, Indexed, LegalOp, Step, AscendingFrom;
    NothingAscends(s.nextGeneration);
    if ops != [] {
      StepKeepsInvariant(s, ops[0]);
      InvariantIndexed(s);
      GenerationAfterStep(s, ops[0]);
      GenerationsIncrease(Step(s, ops[0]), ops[1..]);
      var rest := Allocated(Step(s, ops[0]), ops[1..]);
      if ops[0].OpAllocate? && s.nextGeneration != 0 {
        assert Allocated(s, ops) == [s.nextGeneration] + rest;
        AscendingOneMore(rest, s.nextGeneration);
      } else {
        assert Allocated(s, ops) == rest;
      }
    }
  }

  /** A commit of this generation. */
  predicate Commits(op: Op, generation: u64) {
    op.OpCommit? && op.session.generation == generation
  }

  /** A generation can become current only by its own commit. */
  lemma NotCurrentUntilCommitted(s: State, op: Op, c: string, generation: u64)
    requires Indexed(s.registry) && LegalOp(s, op)
    requires !IsCurrent(s, c, generation) && !Commits(op, generation)
    ensures !IsCurrent(Step(s, op), c, generation)
  {
    hide Indexed, Decide, Activated;
    if op.OpReload? {
      ReconcileAllExact(s.(registry := op.registry), op.order);
    } else if op.OpCloseAll? {
      CloseEachExact(s, op.order);
    }
  }

  lemma {:induction false} StaysStale(s: State, ops: seq<Op>, c: string, generation: u64)
    requires Invariant(s) && LegalRun(s, ops)
    requires !IsCurrent(s, c, generation)
    requires forall op :: op in ops ==> !Commits(op, generation)
    ensures !IsCurrent(Run(s, ops), c, generation)
    ensures Release(Run(s, ops), c, generation) == (Run(s, ops), false)
    decreases ops
  {
    hide Invariant, Indexed, LegalOp, Step;
    if ops != [] {
      StepKeepsInvariant(s, ops[0]);
      InvariantIndexed(s);
      NotCurrentUntilCommitted(s, ops[0], c, generation);
      StaysStale(Step(s, ops[0]), ops[1..], c, generation);
    }
  }

  /** Each generation is committed at most once. */
  ghost predicate CommittedOnce(ops: seq<Op>) {
    forall i, j :: 0 <= i < j < |ops| && ops[i].OpCommit? && ops[j].OpCommit? ==>
      ops[i].session.generation != ops[j].session.generation
  }

  /** A current generation was committed by the run that made it so. */
  lemma {:induction false} CurrentWasCommitted(s: State, ops: seq<Op>, c: string, generation: u64)
    requires Invariant(s) && LegalRun(s, ops)
    requires !IsCurrent(s, c, generation) && IsCurrent(Run(s, ops), c, generation)
    ensures exists i :: 0 <= i < |ops| && Commits(ops[i], generation)
  {
    if forall i :: 0 <= i < |ops| ==> !Commits(ops[i], generation) {
      StaysStale(s, ops, c, generation);
    }
  }

  /**
    A displaced generation never becomes current again, and a release that names it changes nothing at
    all: `made` makes the generation current, `lost` displaces it, `later` is whatever follows.
   */
  lemma DisplacedNeverReturns(s: State, made: seq<Op>, lost: seq<Op>, later: seq<Op>, c: string, generation: u64)
    requires Invariant(s) && LegalRun(s, made) && LegalRun(Run(s, made), lost)
    requires LegalRun(Run(Run(s, made), lost), later)
    requires CommittedOnce(made + lost + later)
    requires !IsCurrent(s, c, generation)
    requires IsCurrent(Run(s, made), c, generation) && !IsCurrent(Run(Run(s, made), lost), c, generation)
    ensures var end := Run(Run(Run(s, made), lost), later);
            !IsCurrent(end, c, generation) && Release(end, c, generation) == (end, false)
  {
    hide Invariant, Indexed, LegalRun, IsCurrent, Release;
    CurrentWasCommitted(s, made, c, generation);
    var i :| 0 <= i < |made| && Commits(made[i], generation);
    var all := made + lost + later;
    forall op | op in later
      ensures !Commits(op, generation)
    {
      var k :| 0 <= k < |later| && later[k] == op;
      assert all[|made| + |lost| + k] == op && all[i] == made[i];
    }
    StaysStale(Run(Run(s, made), lost), later, c, generation);
  }
}
