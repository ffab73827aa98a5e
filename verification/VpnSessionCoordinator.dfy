/**
  The session coordinator as the program runs it: one object whose fields every method updates in place
  under the lock. Each method is proved to take the step that module `Coordinator` defines for it.
 */
module VpnSessionCoordinator {
  import opened Wrappers
  import opened Bytes
  import opened IpPacket
  import opened Registry
  import opened Coordinator
  import opened CoordinatorInvariants
  import opened CoordinatorReports

  const MAX_GLOBAL_REASSEMBLY_BYTES := 1024 * 1024 * 1024
  const MAX_GLOBAL_INFLIGHT_PACKETS := 65_536

  datatype ManagedError = GenerationExhausted | InvalidResourceLimits

  predicate BudgetInRange(byteLimit: nat, packetLimit: nat) {
    && MAX_IP_PACKET_LEN <= byteLimit <= MAX_GLOBAL_REASSEMBLY_BYTES
    && 0 < packetLimit <= MAX_GLOBAL_INFLIGHT_PACKETS
  }

  /** Lists the members of a set in some order, as iterating over a hash map does. */
  method Enumerate(clients: set<string>) returns (order: seq<string>)
    ensures ListsAll(order, clients)
  {
    order := [];
    var rest := clients;
    while rest != {}
      invariant rest <= clients
      invariant forall c :: c in clients <==> c in rest || c in order
      invariant forall c :: c in order ==> c !in rest
      invariant Lists(order, clients)
      decreases |rest|
    {
      var c :| c in rest;
      order, rest := order + [c], rest - {c};
    }
  }

  class SessionCoordinator {
    var registry: IdentityRegistry
    var active: map<string, ActiveSession>
    var metrics: Metrics
    var identityQuotas: map<string, Limiter>
    var nextGeneration: u64
    var handles: seq<Handle>
    var limiters: nat
    var closes: seq<CloseRequest>

    function State(): State
      reads this
    {
      Coordinator.State(registry, active, metrics, identityQuotas, nextGeneration, handles, limiters, closes)
    }

    ghost predicate Valid()
      reads this
    {
      Invariant(State()) && MetricsMatch(metrics, closes)
    }

    /** The fallible constructor: a zero generation and a budget out of range are refused, in this order. */
    static method Create(registry: IdentityRegistry, initialGeneration: u64, byteLimit: nat, packetLimit: nat)
      returns (r: Result<SessionCoordinator, ManagedError>)
      requires Indexed(registry)
      ensures r == Err(GenerationExhausted) <==> initialGeneration == 0
      ensures r == Err(InvalidResourceLimits) <==> initialGeneration != 0 && !BudgetInRange(byteLimit, packetLimit)
      ensures r.Ok? <==> initialGeneration != 0 && BudgetInRange(byteLimit, packetLimit)
      ensures r.Ok? ==> fresh(r.value) && r.value.Valid() && r.value.State() == Initial(registry, initialGeneration)
    {
      if initialGeneration == 0 {
        return Err(GenerationExhausted);
      }
      if !BudgetInRange(byteLimit, packetLimit) {
        return Err(InvalidResourceLimits);
      }
      var coordinator := new SessionCoordinator(registry, initialGeneration);
      return Ok(coordinator);
    }

    constructor (registry: IdentityRegistry, initialGeneration: u64)
      requires Indexed(registry)
      ensures Valid() && State() == Initial(registry, initialGeneration)
    {
      hide Invariant, MetricsMatch, Indexed;
      this.registry, nextGeneration := registry, initialGeneration;
      active, metrics, identityQuotas := map[], Metrics(0, 0, 0, 0, 0, 0, 0, 0), map[];
      handles, limiters, closes := [], 0, [];
      new;
      assert State() == Initial(registry, initialGeneration);
      assert Invariant(State()) by { InitialInvariant(registry, initialGeneration); }
      assert MetricsMatch(metrics, closes) by { NothingCoded(metrics); }
    }

    method AllocateGeneration() returns (generation: Option<u64>)
      requires Valid()
      modifies this
      ensures Valid() && (State(), generation) == Allocate(old(State()))
    {
      hide Invariant, MetricsMatch;
      UntouchedKeepsInvariant(State(), Allocate(State()).0);
      if nextGeneration == 0 {
        return None;
      }
      generation := Some(nextGeneration);
      nextGeneration := (nextGeneration + 1) % 0x1_0000_0000_0000_0000;
    }

    /** Authorizes against the registry in force, then swaps the sessions, or refuses. */
    method CommitSession(session: Session, connection: ConnId) returns (r: Result<CommitReport, CommitError>)
      requires Valid()
      modifies this
      ensures Valid() && (State(), r) == Commit(old(State()), session, connection)
      ensures var c, f := session.identity.clientId, session.fingerprint;
              && (r == Err(SessionIdentityRevoked) <==> !Admits(registry, f, c))
              && (r == Err(SessionPolicyChanged) <==>
                    Admits(registry, f, c) && !AdmitsUnchanged(registry, session, c))
              && (r.Ok? <==> AdmitsUnchanged(registry, session, c))
    {
      hide Invariant, Indexed, Decide, Install, SatAdd, MetricsMatch, Admits, AdmitsUnchanged;
      InvariantIndexed(State());
      CommitKeepsInvariant(State(), session, connection);
      CommitMatches(State(), session, connection);
      CommitExact(State(), session, connection);
      var clientId := session.identity.clientId;
      var decision := Decide(registry, session, clientId);
      if decision != Keep {
        metrics := metrics.(commitRejections := SatAdd(metrics.commitRejections, 1));
        closes := closes + [CloseRequest(connection, CLOSE_COMMIT_REJECTED, false)];
        return Err(if decision == PolicyChanged then SessionPolicyChanged else SessionIdentityRevoked);
      }
      var replacedGeneration := if clientId in active then Some(active[clientId].session.generation) else None;
      InstallSession(session, connection);
      r := Ok(CommitReport(session.generation, replacedGeneration));
    }

    /** The writes of a successful commit. */
    method InstallSession(session: Session, connection: ConnId)
      modifies this
      ensures State() == Install(old(State()), session, connection) && registry == old(registry)
    {
      hide SatAdd, Activated;
      var clientId := session.identity.clientId;
      var limiter := StoredLimiter(clientId, session.identity.limits);
      var handle := |handles|;
      var replaced := if clientId in active then Some(active[clientId]) else None;
      ActivatedFrame(State(), old(State()), session, limiter);
      SwitchHandles(session, limiter, if replaced.Some? then Some(replaced.value.handle) else None);
      active := active[clientId := ActiveSession(session, connection, handle)];
      metrics := metrics.(totalCommitted := SatAdd(metrics.totalCommitted, 1), activeSessions := |active|);
      if replaced.Some? {
        metrics := metrics.(replacements := SatAdd(metrics.replacements, 1));
        closes := closes + [CloseRequest(replaced.value.connection, CLOSE_SESSION_REPLACED, false)];
      }
    }

    /** The client's limiter, a new one if there is none, given the session's limits. */
    method StoredLimiter(clientId: string, limits: IdentityLimits) returns (limiter: nat)
      modifies this`identityQuotas, this`limiters
      ensures limiter == LimiterFor(old(State()), clientId)
      ensures identityQuotas == old(identityQuotas)[clientId := Limiter(limiter, limits)]
      ensures limiters == if clientId in old(identityQuotas) then old(limiters) else old(limiters) + 1
    {
      if clientId in identityQuotas {
        limiter := identityQuotas[clientId].id;
      } else {
        limiter := limiters;
        limiters := limiters + 1;
      }
      identityQuotas := identityQuotas[clientId := Limiter(limiter, limits)];
    }

    /** The new data path handle is made inactive, the old one deactivated, and then the new one activated. */
    method SwitchHandles(session: Session, limiter: nat, replaced: Option<nat>)
      requires var c := session.identity.clientId;
               replaced == if c in active then Some(active[c].handle) else None
      modifies this`handles
      ensures handles == Activated(old(State()), session, limiter)
    {
      hide WithFlag;
      var handle := |handles|;
      handles := handles + [Handle(session.identity.clientId, session.generation, limiter, false)];
      if replaced.Some? {
        handles := WithFlag(handles, replaced.value, false);
      }
      handles := WithFlag(handles, handle, true);
    }

    method ReleaseIfCurrent(clientId: string, generation: u64) returns (released: bool)
      requires Valid()
      modifies this
      ensures Valid() && (State(), released) == Release(old(State()), clientId, generation)
      ensures released <==> clientId in old(active) && old(active)[clientId].session.generation == generation
      ensures active == if released then old(active) - {clientId} else old(active)
    {
      hide Invariant, Coded;
      ReleaseKeepsInvariant(State(), clientId, generation);
      if clientId !in active || active[clientId].session.generation != generation {
        return false;
      }
      handles := WithFlag(handles, active[clientId].handle, false);
      active := active - {clientId};
      metrics := metrics.(normalReleases := SatAdd(metrics.normalReleases, 1));
      metrics := metrics.(activeSessions := |active|);
      return true;
    }

    /** Installs a registry, decides every active session against it, and drops those it does not keep. */
    method ReplaceRegistry(registry: IdentityRegistry) returns (report: ReconcileReport, ghost order: seq<string>)
      requires Valid() && Indexed(registry)
      modifies this
      ensures Valid() && ListsAll(order, old(active.Keys))
      ensures State() == Reload(old(State()), registry, order)
      ensures report == Tally(old(State()).(registry := registry), order, ReconcileReport(0, 0, 0))
      ensures report.kept + report.identityRevoked + report.policyChanged == |old(active)|
      ensures report == ReconcileReport(|Kept(old(active), registry)|, |Revoked(old(active), registry)|,
                                        |Changed(old(active), registry)|)
      ensures active.Keys == Kept(old(active), registry) && forall c :: c in active ==> active[c] == old(active)[c]
      ensures metrics.identityRevocations == SatAdd(old(metrics.identityRevocations), |Revoked(old(active), registry)|)
      ensures metrics.policyChangeCloses == SatAdd(old(metrics.policyChangeCloses), |Changed(old(active), registry)|)
    {
      hide Invariant, Indexed, Decide, ListsAll, ReconcileAll, Tally, ReconcileOne, Coordinator.Count, MetricsMatch,
           Kept, Revoked, Changed;
      this.registry := registry;
      var listed := Enumerate(active.Keys);
      order := listed;
      ghost var start := State();
      ReloadKeepsInvariant(old(State()), registry, listed);
      ReconcileMatches(start, listed);
      MatchInRange(metrics, closes);
      ReloadExact(old(State()), registry, listed);
      ReportExact(start, listed);
      ListedOnce(listed, active.Keys);
      ReportAddsUp(start, listed, ReconcileReport(0, 0, 0));
      ListingSize(listed, active.Keys);
      report := ReconcileReport(0, 0, 0);
      var k := 0;
      while k < |listed|
        invariant 0 <= k <= |listed| && this.registry == registry && identityQuotas == start.quotas
        invariant forall i :: k <= i < |listed| ==> listed[i] in active
        invariant ReconcileAll(State(), listed[k..]) == ReconcileAll(start, listed)
        invariant Tally(State(), listed[k..], report) == Tally(start, listed, ReconcileReport(0, 0, 0))
      {
        assert listed[k..][0] == listed[k] && listed[k..][1..] == listed[k + 1..];
        FirstRound(State(), listed[k..], report);
        report := ReconcileRound(listed[k], report);
        k := k + 1;
      }
      NoRounds(State(), report);
      assert listed[k..] == [];
      MatchFrame(State().metrics, Reload(old(State()), registry, listed).metrics, closes);
      metrics := metrics.(activeSessions := |active|);
      identityQuotas := map c | c in identityQuotas && EnabledClient(registry, c) ::
        Limiter(identityQuotas[c].id, ByClientId(registry, c).value.limits);
    }

    /** One round of the reload loop. */
    method ReconcileRound(c: string, before: ReconcileReport) returns (report: ReconcileReport)
      requires Indexed(registry) && c in active
      modifies this
      ensures State() == ReconcileOne(old(State()), c) && report == Count(old(State()), c, before)
      ensures active.Keys >= old(active.Keys) - {c}
      ensures registry == old(registry) && identityQuotas == old(identityQuotas)
    {
      hide Indexed, Decide;
      report := before;
      match Decide(registry, active[c].session, c) {
        case Keep =>
          report := report.(kept := report.kept + 1);
        case IdentityRevoked =>
          closes := closes + [CloseRequest(active[c].connection, CLOSE_IDENTITY_REVOKED, false)];
          handles := WithFlag(handles, active[c].handle, false);
          active := active - {c};
          report := report.(identityRevoked := report.identityRevoked + 1);
          metrics := metrics.(identityRevocations := SatAdd(metrics.identityRevocations, 1));
        case PolicyChanged =>
          closes := closes + [CloseRequest(active[c].connection, CLOSE_POLICY_CHANGED, false)];
          handles := WithFlag(handles, active[c].handle, false);
          active := active - {c};
          report := report.(policyChanged := report.policyChanged + 1);
          metrics := metrics.(policyChangeCloses := SatAdd(metrics.policyChangeCloses, 1));
      }
    }

    lemma FirstRound(s: State, order: seq<string>, report: ReconcileReport)
      requires Indexed(s.registry) && order != [] && order[0] in s.active
      ensures ReconcileAll(s, order) == ReconcileAll(ReconcileOne(s, order[0]), order[1..])
      ensures Tally(s, order, report) ==
                Tally(ReconcileOne(s, order[0]), order[1..], Coordinator.Count(s, order[0], report))
    {
    }

    lemma NoRounds(s: State, report: ReconcileReport)
      requires Indexed(s.registry)
      ensures ReconcileAll(s, []) == s && Tally(s, [], report) == report
    {
    }

    lemma ListedOnce(order: seq<string>, clients: set<string>)
      requires ListsAll(order, clients)
      ensures Lists(order, clients)
      ensures forall i, j :: 0 <= i < j < |order| ==> order[i] != order[j]
      ensures forall i :: 0 <= i < |order| ==> order[i] in clients
    {
    }

    /** Drops and closes every session. */
    method CloseAllSessions() returns (count: nat, ghost order: seq<string>)
      requires Valid()
      modifies this
      ensures Valid() && ListsAll(order, old(active.Keys)) && active == map[] && identityQuotas == map[]
      ensures State() == CloseAll(old(State()), order) && count == |old(active)|
    {
      hide Invariant, ListsAll, CloseEach, MetricsMatch;
      var listed := Enumerate(active.Keys);
      order := listed;
      ghost var start := State();
      CloseAllKeepsInvariant(start, listed);
      CloseAllMatches(start, listed);
      ListedOnce(listed, active.Keys);
      AllDropped(start, listed);
      count := |active|;
      var k := 0;
      while k < |listed|
        invariant 0 <= k <= |listed| && metrics == start.metrics && identityQuotas == start.quotas
        invariant forall i :: k <= i < |listed| ==> listed[i] in active
        invariant CloseEach(State(), listed[k..]) == CloseEach(start, listed)
      {
        var c := listed[k];
        assert listed[k..][0] == c && listed[k..][1..] == listed[k + 1..];
        FirstShutDown(State(), listed[k..]);
        ShutDown(c);
        k := k + 1;
      }
      assert listed[k..] == [];
      assert CloseEach(State(), []) == State() by { NoShutDowns(State()); }
      metrics := metrics.(shutdownCloses := SatAdd(metrics.shutdownCloses, count));
      metrics := metrics.(activeSessions := 0);
      identityQuotas := map[];
    }

    lemma FirstShutDown(s: State, order: seq<string>)
      requires order != [] && order[0] in s.active
      ensures CloseEach(s, order) == CloseEach(DropAndClose(s, order[0], CLOSE_SERVER_SHUTDOWN), order[1..])
    {
    }

    lemma NoShutDowns(s: State)
      ensures CloseEach(s, []) == s
    {
    }

    method ShutDown(c: string)
      requires c in active
      modifies this
      ensures State() == DropAndClose(old(State()), c, CLOSE_SERVER_SHUTDOWN)
    {
      closes := closes + [CloseRequest(active[c].connection, CLOSE_SERVER_SHUTDOWN, false)];
      handles := WithFlag(handles, active[c].handle, false);
      active := active - {c};
    }

    lemma AllDropped(s: State, order: seq<string>)
      requires ListsAll(order, s.active.Keys)
      ensures CloseEach(s, order).active == map[]
    {
      CloseEachExact(s, order);
    }

    /** A pending close reaches its connection. */
    method PerformClose(request: nat)
      requires Valid() && request < |closes| && !closes[request].performed
      modifies this
      ensures Valid() && State() == Perform(old(State()), request)
    {
      hide Invariant, MetricsMatch;
      UntouchedKeepsInvariant(State(), Perform(State(), request));
      PerformMatches(State(), request);
      closes := closes[request := closes[request].(performed := true)];
    }
  }
}
