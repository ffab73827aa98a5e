/** The health verdict over a ledger (src/proxy_observe.rs, `evaluate` and `evaluate_role`). */
module ObservationHealth {
  import opened Wrappers
  import opened Bytes
  import opened Sums
  import opened Observation

  datatype Policy = Policy(
    requireClient: bool, requireServer: bool, requireCleanShutdown: bool, requireFinalInactive: bool,
    requireClosedLifecycles: bool, maxRejections: nat, maxTimeouts: nat, maxUpstreamErrors: nat,
    maxForcedShutdowns: nat, maxRuntimeFailures: nat)

  datatype Violation =
    | NoValidEvents
    | MalformedJsonl
    | OversizedJsonlLine
    | SchemaMismatch
    | InvalidEvent
    | OfRole(role: Role, kind: RoleViolation)

  datatype RoleViolation =
    | MissingRuntime
    | RuntimeFailuresExceeded
    | ConnectionLifecycleOpen
    | StreamLifecycleOpen
    | ShutdownLifecycleOpen
    | ShutdownSequenceInvalid
    | RejectionsExceeded
    | MissingMetrics
    | ActiveConnectionsNonzero
    | ActiveStreamsNonzero
    | ShutdownMetricsInvalid
    | ForcedShutdownsExceeded
    | TimeoutsExceeded
    | UpstreamErrorsExceeded

  function RuntimeFailures(c: Counters): nat {
    SatAdd(SatAdd(SatAdd(SatAdd(SatAdd(SatAdd(c.startupFailed, c.runtimeFailed), c.credentialReloadFailures),
                                c.taskFailures), c.pathEventLagReports), c.connectionFailures), c.streamFailures)
  }

  function MetricTimeouts(m: Metrics): nat {
    SatAdd(SatAdd(SatAdd(SatAdd(m.dnsTimeouts, m.handshakeTimeouts), m.requestTimeouts), m.streamOpenTimeouts),
           m.upstreamConnectTimeouts)
  }

  predicate NonzeroBalance(m: Balance) {
    exists id :: id in m && m[id] != 0
  }

  predicate LifecycleOpen(started: nat, finished: nat, balance: Balance) {
    started != finished || NonzeroBalance(balance)
  }

  function Rejections(c: Counters, m: Option<Metrics>): nat {
    var events := SatAdd(c.connectionRejects, c.streamRejects);
    if m.None? then events else Max(events, SatAdd(m.value.connectionRejects, m.value.streamRejects))
  }

  /** The three totals in plain numbers, up to the largest 64-bit number. */
  lemma TotalsExact(c: Counters, m: Metrics)
    ensures RuntimeFailures(c) ==
              Min(c.startupFailed + c.runtimeFailed + c.credentialReloadFailures + c.taskFailures
                  + c.pathEventLagReports + c.connectionFailures + c.streamFailures, U64_MAX)
    ensures MetricTimeouts(m) ==
              Min(m.dnsTimeouts + m.handshakeTimeouts + m.requestTimeouts + m.streamOpenTimeouts
                  + m.upstreamConnectTimeouts, U64_MAX)
    ensures Rejections(c, None) == Min(c.connectionRejects + c.streamRejects, U64_MAX)
    ensures Rejections(c, Some(m)) ==
              Min(Max(c.connectionRejects + c.streamRejects, m.connectionRejects + m.streamRejects), U64_MAX)
  {
  }

  // ----- when each violation is due

  predicate CounterRaised(kind: RoleViolation, r: RoleObservation, p: Policy) {
    var c := r.counters;
    match kind
    case RuntimeFailuresExceeded => RuntimeFailures(c) > p.maxRuntimeFailures
    case ConnectionLifecycleOpen =>
      p.requireClosedLifecycles && LifecycleOpen(c.connectionsStarted, c.connectionsFinished, r.connectionBalance)
    case StreamLifecycleOpen =>
      p.requireClosedLifecycles && LifecycleOpen(c.streamsStarted, c.streamsFinished, r.streamBalance)
    case ShutdownLifecycleOpen => p.requireCleanShutdown && c.shutdownComplete != c.runtimeStarted
    case ShutdownSequenceInvalid => p.requireCleanShutdown && c.shutdownStarted != c.shutdownComplete
    case _ => false
  }

  predicate MetricRaised(kind: RoleViolation, c: Counters, m: Metrics, p: Policy) {
    match kind
    case ActiveConnectionsNonzero => p.requireFinalInactive && m.activeConnections != 0
    case ActiveStreamsNonzero => p.requireFinalInactive && m.activeStreams != 0
    case ShutdownMetricsInvalid => p.requireCleanShutdown && SatAdd(m.gracefulShutdowns, m.forcedShutdowns) != 1
    case ForcedShutdownsExceeded =>
      Max(Max(c.shutdownForced, c.forcedShutdownCompletions), m.forcedShutdowns) > p.maxForcedShutdowns
    case TimeoutsExceeded => Max(c.timeoutEvents, MetricTimeouts(m)) > p.maxTimeouts
    case UpstreamErrorsExceeded => Max(c.upstreamErrorEvents, m.upstreamErrors) > p.maxUpstreamErrors
    case _ => false
  }

  /**
    Whether a violation is due for a role. The tests against the last metrics snapshot need one: a role without
    a snapshot is reported for that, and not tested further.
   */
  predicate Raised(kind: RoleViolation, r: RoleObservation, required: bool, p: Policy) {
    var observed := r != NOTHING_SEEN;
    match kind
    case MissingRuntime => (required || observed) && r.counters.runtimeStarted == 0
    case MissingMetrics => observed && r.latestMetrics.None?
    case RejectionsExceeded => observed && Rejections(r.counters, r.latestMetrics) > p.maxRejections
    case _ =>
      observed && (|| CounterRaised(kind, r, p)
                   || (r.latestMetrics.Some? && MetricRaised(kind, r.counters, r.latestMetrics.value, p)))
  }

  /** The place of a violation in the report. */
  function Rank(kind: RoleViolation): nat {
    match kind
    case MissingRuntime => 0
    case RuntimeFailuresExceeded => 1
    case ConnectionLifecycleOpen => 2
    case StreamLifecycleOpen => 3
    case ShutdownLifecycleOpen => 4
    case ShutdownSequenceInvalid => 5
    case RejectionsExceeded => 6
    case MissingMetrics => 7
    case ActiveConnectionsNonzero => 8
    case ActiveStreamsNonzero => 9
    case ShutdownMetricsInvalid => 10
    case ForcedShutdownsExceeded => 11
    case TimeoutsExceeded => 12
    case UpstreamErrorsExceeded => 13
  }

  const RANKS := 14

  predicate Ascending(list: seq<RoleViolation>) {
    forall i, j :: 0 <= i < j < |list| ==> Rank(list[i]) < Rank(list[j])
  }

  /** The list holds exactly the violations due among the first `n` ranks, each once and in their order. */
  ghost predicate ListsDue(list: seq<RoleViolation>, n: nat, r: RoleObservation, required: bool, p: Policy) {
    && Ascending(list)
    && forall kind :: kind in list <==> Rank(kind) < n && Raised(kind, r, required, p)
  }

  /** One test: the violation is pushed exactly if it is due, and the list is right one rank further. */
  lemma Tested(before: seq<RoleViolation>, kind: RoleViolation, after: seq<RoleViolation>,
               r: RoleObservation, required: bool, p: Policy)
    requires ListsDue(before, Rank(kind), r, required, p)
    requires after == if Raised(kind, r, required, p) then before + [kind] else before
    ensures ListsDue(after, Rank(kind) + 1, r, required, p)
  {
    hide Raised;
    RankIdentifies(kind);
    forall i, j | 0 <= i < j < |after|
      ensures Rank(after[i]) < Rank(after[j])
    {
      if j == |before| {
        assert before[i] in before;
      }
    }
  }

  lemma RankIdentifies(kind: RoleViolation)
    ensures forall other :: Rank(other) == Rank(kind) ==> other == kind
    ensures Rank(kind) < RANKS
  {
  }

  /** Where none of the remaining violations is due, the list is complete. */
  lemma NothingLeft(list: seq<RoleViolation>, n: nat, r: RoleObservation, required: bool, p: Policy)
    requires ListsDue(list, n, r, required, p)
    requires forall kind :: Rank(kind) >= n ==> !Raised(kind, r, required, p)
    ensures ListsDue(list, RANKS, r, required, p)
  {
    hide Raised;
    forall kind
      ensures kind in list <==> Rank(kind) < RANKS && Raised(kind, r, required, p)
    {
      RankIdentifies(kind);
    }
  }

  // ----- the evaluation

  /** The tests on the counters and balances, each pushing onto the list. */
  method EvaluateCounters(list: seq<RoleViolation>, r: RoleObservation, required: bool, p: Policy)
    returns (violations: seq<RoleViolation>)
    requires ListsDue(list, 1, r, required, p) && r != NOTHING_SEEN
    ensures ListsDue(violations, 6, r, required, p)
  {
    hide ListsDue, RuntimeFailures, LifecycleOpen, Rejections, MetricRaised;
    var c := r.counters;
    NotOfMetrics(c, p);
    violations := list;
    if RuntimeFailures(c) > p.maxRuntimeFailures {
      violations := violations + [RuntimeFailuresExceeded];
    }
    Tested(list, RuntimeFailuresExceeded, violations, r, required, p);
    ghost var before := violations;
    if p.requireClosedLifecycles && LifecycleOpen(c.connectionsStarted, c.connectionsFinished, r.connectionBalance) {
      violations := violations + [ConnectionLifecycleOpen];
    }
    Tested(before, ConnectionLifecycleOpen, violations, r, required, p);
    before := violations;
    if p.requireClosedLifecycles && LifecycleOpen(c.streamsStarted, c.streamsFinished, r.streamBalance) {
      violations := violations + [StreamLifecycleOpen];
    }
    Tested(before, StreamLifecycleOpen, violations, r, required, p);
    before := violations;
    if p.requireCleanShutdown && c.shutdownComplete != c.runtimeStarted {
      violations := violations + [ShutdownLifecycleOpen];
    }
    Tested(before, ShutdownLifecycleOpen, violations, r, required, p);
    before := violations;
    if p.requireCleanShutdown && c.shutdownStarted != c.shutdownComplete {
      violations := violations + [ShutdownSequenceInvalid];
    }
    Tested(before, ShutdownSequenceInvalid, violations, r, required, p);
  }

  /** The tests on the last metrics snapshot. */
  method EvaluateMetrics(list: seq<RoleViolation>, r: RoleObservation, required: bool, p: Policy)
    returns (violations: seq<RoleViolation>)
    requires ListsDue(list, 8, r, required, p) && r != NOTHING_SEEN && r.latestMetrics.Some?
    ensures ListsDue(violations, RANKS, r, required, p)
  {
    hide ListsDue, CounterRaised, Rejections, MetricTimeouts, SatAdd, Max;
    var c, m := r.counters, r.latestMetrics.value;
    NotOfCounters(r, p);
    violations := list;
    if p.requireFinalInactive && m.activeConnections != 0 {
      violations := violations + [ActiveConnectionsNonzero];
    }
    Tested(list, ActiveConnectionsNonzero, violations, r, required, p);
    ghost var before := violations;
    if p.requireFinalInactive && m.activeStreams != 0 {
      violations := violations + [ActiveStreamsNonzero];
    }
    Tested(before, ActiveStreamsNonzero, violations, r, required, p);
    before := violations;
    if p.requireCleanShutdown && SatAdd(m.gracefulShutdowns, m.forcedShutdowns) != 1 {
      violations := violations + [ShutdownMetricsInvalid];
    }
    Tested(before, ShutdownMetricsInvalid, violations, r, required, p);
    before := violations;
    var eventForced := Max(c.shutdownForced, c.forcedShutdownCompletions);
    if Max(eventForced, m.forcedShutdowns) > p.maxForcedShutdowns {
      violations := violations + [ForcedShutdownsExceeded];
    }
    Tested(before, ForcedShutdownsExceeded, violations, r, required, p);
    before := violations;
    if Max(c.timeoutEvents, MetricTimeouts(m)) > p.maxTimeouts {
      violations := violations + [TimeoutsExceeded];
    }
    Tested(before, TimeoutsExceeded, violations, r, required, p);
    before := violations;
    if Max(c.upstreamErrorEvents, m.upstreamErrors) > p.maxUpstreamErrors {
      violations := violations + [UpstreamErrorsExceeded];
    }
    Tested(before, UpstreamErrorsExceeded, violations, r, required, p);
  }

  lemma NotOfCounters(r: RoleObservation, p: Policy)
    ensures forall kind :: Rank(kind) >= 6 ==> !CounterRaised(kind, r, p)
  {
  }

  lemma NotOfMetrics(c: Counters, p: Policy)
    ensures forall kind, m :: Rank(kind) < 8 ==> !MetricRaised(kind, c, m, p)
  {
  }

  /** `evaluate_role`: the report of a role lists exactly the violations due, once each, in a fixed order. */
  method EvaluateRole(r: RoleObservation, required: bool, p: Policy) returns (violations: seq<RoleViolation>)
    ensures Ascending(violations)
    ensures forall kind :: kind in violations <==> Raised(kind, r, required, p)
  {
    hide Raised, ListsDue, Ascending, Rejections;
    violations := [];
    var observed := r != NOTHING_SEEN;
    if (required || observed) && r.counters.runtimeStarted == 0 {
      violations := [MissingRuntime];
    }
    PlainlyDue(r, required, p);
    NothingDueYet(r, required, p);
    assert [] + [MissingRuntime] == [MissingRuntime];
    Tested([], MissingRuntime, violations, r, required, p);
    if !observed {
      NothingLeft(violations, 1, r, required, p);
      Complete(violations, r, required, p);
      return;
    }
    violations := EvaluateCounters(violations, r, required, p);
    ghost var before := violations;
    if Rejections(r.counters, r.latestMetrics) > p.maxRejections {
      violations := violations + [RejectionsExceeded];
    }
    Tested(before, RejectionsExceeded, violations, r, required, p);
    before := violations;
    if r.latestMetrics.None? {
      violations := violations + [MissingMetrics];
      Tested(before, MissingMetrics, violations, r, required, p);
      NothingLeft(violations, 8, r, required, p);
      Complete(violations, r, required, p);
      return;
    }
    Tested(before, MissingMetrics, violations, r, required, p);
    violations := EvaluateMetrics(violations, r, required, p);
    Complete(violations, r, required, p);
  }

  /** The violations tested by the role's own evaluation, and where it may stop early. */
  lemma PlainlyDue(r: RoleObservation, required: bool, p: Policy)
    ensures var observed := r != NOTHING_SEEN;
            && (Raised(MissingRuntime, r, required, p) <==> (required || observed) && r.counters.runtimeStarted == 0)
            && (Raised(RejectionsExceeded, r, required, p) <==>
                  observed && Rejections(r.counters, r.latestMetrics) > p.maxRejections)
            && (Raised(MissingMetrics, r, required, p) <==> observed && r.latestMetrics.None?)
            && (!observed ==> forall kind :: Rank(kind) >= 1 ==> !Raised(kind, r, required, p))
            && (r.latestMetrics.None? ==> forall kind :: Rank(kind) >= 8 ==> !Raised(kind, r, required, p))
  {
    hide CounterRaised, MetricRaised, Rejections;
    NotOfCounters(r, p);
  }

  lemma Complete(list: seq<RoleViolation>, r: RoleObservation, required: bool, p: Policy)
    requires ListsDue(list, RANKS, r, required, p)
    ensures Ascending(list)
    ensures forall kind :: kind in list <==> Raised(kind, r, required, p)
  {
    hide Raised;
    forall kind
      ensures kind in list <==> Raised(kind, r, required, p)
    {
      RankIdentifies(kind);
    }
  }

  lemma NothingDueYet(r: RoleObservation, required: bool, p: Policy)
    ensures ListsDue([], 0, r, required, p)
  {
  }

  predicate Required(p: Policy, role: Role) {
    if role == Client then p.requireClient else p.requireServer
  }

  /** Whether a violation is due for a whole log. */
  predicate Due(v: Violation, o: Observation, p: Policy) {
    match v
    case NoValidEvents => o.validEvents == 0
    case MalformedJsonl => o.malformedLines != 0
    case OversizedJsonlLine => o.oversizedLines != 0
    case SchemaMismatch => o.schemaMismatches != 0
    case InvalidEvent => o.invalidEvents != 0
    case OfRole(role, kind) => Raised(kind, Of(o, role), Required(p, role), p)
  }

  function Label(role: Role, kinds: seq<RoleViolation>): seq<Violation> {
    seq(|kinds|, i requires 0 <= i < |kinds| => OfRole(role, kinds[i]))
  }

  lemma LabelListed(whose: Role, kinds: seq<RoleViolation>, role: Role, kind: RoleViolation)
    ensures OfRole(role, kind) in Label(whose, kinds) <==> whose == role && kind in kinds
  {
    if whose == role && kind in kinds {
      var i :| 0 <= i < |kinds| && kinds[i] == kind;
      assert Label(whose, kinds)[i] == OfRole(role, kind);
    }
  }

  /** The five tests on the log as a whole. */
  method EvaluateLog(o: Observation, p: Policy) returns (violations: seq<Violation>)
    ensures forall v :: v in violations <==> !v.OfRole? && Due(v, o, p)
  {
    hide Raised;
    violations := [];
    if o.validEvents == 0 {
      violations := violations + [NoValidEvents];
    }
    if o.malformedLines != 0 {
      violations := violations + [MalformedJsonl];
    }
    if o.oversizedLines != 0 {
      violations := violations + [OversizedJsonlLine];
    }
    if o.schemaMismatches != 0 {
      violations := violations + [SchemaMismatch];
    }
    if o.invalidEvents != 0 {
      violations := violations + [InvalidEvent];
    }
  }

  /** `evaluate`: the verdict lists exactly the violations due, and is healthy exactly when there are none. */
  method Evaluate(o: Observation, p: Policy) returns (healthy: bool, violations: seq<Violation>)
    ensures forall v :: v in violations <==> Due(v, o, p)
    ensures healthy <==> forall v :: !Due(v, o, p)
    ensures healthy ==> forall role :: Of(o, role) != NOTHING_SEEN ==> EventsWithin(Of(o, role).counters, p)
  {
    hide Raised, Label, Due, EventsWithin;
    violations := EvaluateLog(o, p);
    var client := EvaluateRole(o.client, p.requireClient, p);
    var server := EvaluateRole(o.server, p.requireServer, p);
    RolesListed(client, server, o, p);
    violations := violations + (Label(Client, client) + Label(Server, server));
    healthy := violations == [];
    assert violations != [] ==> violations[0] in violations;
    if healthy {
      forall role | Of(o, role) != NOTHING_SEEN
        ensures EventsWithin(Of(o, role).counters, p)
      {
        HealthyMeansWithinLimits(o, p, role);
      }
    }
  }

  lemma RolesListed(client: seq<RoleViolation>, server: seq<RoleViolation>, o: Observation, p: Policy)
    requires forall kind :: kind in client <==> Raised(kind, o.client, p.requireClient, p)
    requires forall kind :: kind in server <==> Raised(kind, o.server, p.requireServer, p)
    ensures forall v :: v in Label(Client, client) + Label(Server, server) <==> v.OfRole? && Due(v, o, p)
  {
    hide Raised;
    forall v
      ensures v in Label(Client, client) + Label(Server, server) <==> v.OfRole? && Due(v, o, p)
    {
      if v.OfRole? {
        LabelListed(Client, client, v.role, v.kind);
        LabelListed(Server, server, v.role, v.kind);
      }
    }
  }

  // ----- a missing snapshot hides event counts, and a healthy verdict hides nothing

  /** The event counts that are tested only together with the snapshot, and over their limits. */
  predicate EventsExceed(kind: RoleViolation, c: Counters, p: Policy) {
    match kind
    case ForcedShutdownsExceeded => Max(c.shutdownForced, c.forcedShutdownCompletions) > p.maxForcedShutdowns
    case TimeoutsExceeded => c.timeoutEvents > p.maxTimeouts
    case UpstreamErrorsExceeded => c.upstreamErrorEvents > p.maxUpstreamErrors
    case _ => false
  }

  /** An event count over its limit is reported exactly when there is a snapshot; otherwise its absence is. */
  lemma ReportedExactlyWithSnapshot(r: RoleObservation, required: bool, p: Policy, kind: RoleViolation)
    requires EventsExceed(kind, r.counters, p)
    ensures Raised(kind, r, required, p) <==> r.latestMetrics.Some?
    ensures r.latestMetrics.None? ==> Raised(MissingMetrics, r, required, p)
  {
    hide MetricTimeouts, RuntimeFailures, LifecycleOpen, SatAdd;
    assert r != NOTHING_SEEN;
  }

  /** A role that timed out, under a policy that allows no timeout, is not reported for it. */
  lemma MissingSnapshotHidesTimeouts(required: bool, p: Policy)
    requires p.maxTimeouts == 0
    ensures var r := NOTHING_SEEN.(counters := ZERO.(timeoutEvents := 1));
            && EventsExceed(TimeoutsExceeded, r.counters, p)
            && !Raised(TimeoutsExceeded, r, required, p) && Raised(MissingMetrics, r, required, p)
  {
    var r := NOTHING_SEEN.(counters := ZERO.(timeoutEvents := 1));
    ReportedExactlyWithSnapshot(r, required, p, TimeoutsExceeded);
  }

  /** The event counts of a role, each against its limit. */
  predicate EventsWithin(c: Counters, p: Policy) {
    && RuntimeFailures(c) <= p.maxRuntimeFailures
    && SatAdd(c.connectionRejects, c.streamRejects) <= p.maxRejections
    && Max(c.shutdownForced, c.forcedShutdownCompletions) <= p.maxForcedShutdowns
    && c.timeoutEvents <= p.maxTimeouts
    && c.upstreamErrorEvents <= p.maxUpstreamErrors
  }

  lemma NothingRaisedMeansWithin(r: RoleObservation, required: bool, p: Policy)
    requires r != NOTHING_SEEN && forall kind :: !Raised(kind, r, required, p)
    ensures r.latestMetrics.Some? && EventsWithin(r.counters, p)
  {
    hide RuntimeFailures, MetricTimeouts, LifecycleOpen, SatAdd;
    assert !Raised(MissingMetrics, r, required, p) && !Raised(RuntimeFailuresExceeded, r, required, p);
    assert !Raised(RejectionsExceeded, r, required, p) && !Raised(ForcedShutdownsExceeded, r, required, p);
    assert !Raised(TimeoutsExceeded, r, required, p) && !Raised(UpstreamErrorsExceeded, r, required, p);
  }

  /** A healthy verdict vouches for the event counts of every role that was observed. */
  lemma HealthyMeansWithinLimits(o: Observation, p: Policy, role: Role)
    requires (forall v :: !Due(v, o, p)) && Of(o, role) != NOTHING_SEEN
    ensures Of(o, role).latestMetrics.Some? && EventsWithin(Of(o, role).counters, p)
  {
    hide Raised, EventsWithin;
    forall kind
      ensures !Raised(kind, Of(o, role), Required(p, role), p)
    {
      assert !Due(OfRole(role, kind), o, p);
    }
    NothingRaisedMeansWithin(Of(o, role), Required(p, role), p);
  }

  lemma NothingRaisedMeansClosed(r: RoleObservation, required: bool, p: Policy)
    requires r != NOTHING_SEEN && forall kind :: !Raised(kind, r, required, p)
    ensures r.counters.runtimeStarted > 0 && r.latestMetrics.Some?
    ensures p.requireCleanShutdown ==>
              && r.counters.shutdownStarted == r.counters.shutdownComplete == r.counters.runtimeStarted
              && SatAdd(r.latestMetrics.value.gracefulShutdowns, r.latestMetrics.value.forcedShutdowns) == 1
    ensures p.requireFinalInactive ==>
              r.latestMetrics.value.activeConnections == r.latestMetrics.value.activeStreams == 0
  {
    hide RuntimeFailures, MetricTimeouts, LifecycleOpen, SatAdd, Rejections;
    assert !Raised(MissingRuntime, r, required, p) && !Raised(MissingMetrics, r, required, p);
    assert !Raised(ShutdownLifecycleOpen, r, required, p) && !Raised(ShutdownSequenceInvalid, r, required, p);
    assert !Raised(ShutdownMetricsInvalid, r, required, p);
    assert !Raised(ActiveConnectionsNonzero, r, required, p) && !Raised(ActiveStreamsNonzero, r, required, p);
  }

  /** And, where the policy asks for it, for as many shutdowns begun and ended as runtimes started, and none active. */
  lemma HealthyMeansClosed(o: Observation, p: Policy, role: Role)
    requires (forall v :: !Due(v, o, p)) && Of(o, role) != NOTHING_SEEN
    ensures var r := Of(o, role);
            && r.counters.runtimeStarted > 0 && r.latestMetrics.Some?
            && (p.requireCleanShutdown ==>
                  && r.counters.shutdownStarted == r.counters.shutdownComplete == r.counters.runtimeStarted
                  && SatAdd(r.latestMetrics.value.gracefulShutdowns, r.latestMetrics.value.forcedShutdowns) == 1)
            && (p.requireFinalInactive ==>
                  r.latestMetrics.value.activeConnections == r.latestMetrics.value.activeStreams == 0)
  {
    hide Raised;
    forall kind
      ensures !Raised(kind, Of(o, role), Required(p, role), p)
    {
      assert !Due(OfRole(role, kind), o, p);
    }
    NothingRaisedMeansClosed(Of(o, role), Required(p, role), p);
  }

  // ----- lifecycles

  /** How often a log says, for one role, that a connection (or a stream on it) started or finished. */
  function Started(lines: seq<Line>, role: Role, ofStreams: bool, id: ConnectionId): nat {
    if lines == [] then 0
    else
      One(lines[0] == Event(role, if ofStreams then StreamStarted(id) else ConnectionStarted(id)))
      + Started(lines[1..], role, ofStreams, id)
  }

  predicate Finishes(line: Line, role: Role, ofStreams: bool, id: ConnectionId) {
    && line.Event? && line.role == role
    && (if ofStreams then line.event.StreamFinished? && line.event.id == id
        else line.event.ConnectionFinished? && line.event.id == id)
  }

  function Finished(lines: seq<Line>, role: Role, ofStreams: bool, id: ConnectionId): nat {
    if lines == [] then 0 else One(Finishes(lines[0], role, ofStreams, id)) + Finished(lines[1..], role, ofStreams, id)
  }

  /** Some connection id has unequal numbers of starts and finishes in the log. */
  ghost predicate Unbalanced(lines: seq<Line>, role: Role, ofStreams: bool) {
    exists id :: Started(lines, role, ofStreams, id) != Finished(lines, role, ofStreams, id)
  }

  function BalanceOf(r: RoleObservation, ofStreams: bool): Balance {
    if ofStreams then r.streamBalance else r.connectionBalance
  }

  function Surplus(r: RoleObservation, ofStreams: bool): int {
    if ofStreams then r.counters.streamsStarted - r.counters.streamsFinished
    else r.counters.connectionsStarted - r.counters.connectionsFinished
  }

  /** No zero is kept, and the balances add up to the surplus of starts over finishes. */
  ghost predicate BooksClosed(r: RoleObservation, ofStreams: bool) {
    && (forall id :: id in BalanceOf(r, ofStreams) ==> BalanceOf(r, ofStreams)[id] != 0)
    && Total(BalanceOf(r, ofStreams)) == Surplus(r, ofStreams)
  }

  lemma AdjustTotal(m: Balance, id: ConnectionId, delta: int)
    requires forall k :: k in m ==> m[k] != 0
    ensures Total(Adjust(m, id, delta)) == Total(m) + delta
    ensures forall k :: k in Adjust(m, id, delta) ==> Adjust(m, id, delta)[k] != 0
    ensures forall k :: At(Adjust(m, id, delta), k) == At(m, k) + (if k == id then delta else 0)
  {
    TotalInsert(m, id, At(m, id) + delta);
    if id in m {
      TotalRemove(m, id);
    } else {
      assert m - {id} == m;
    }
  }

  /** The counters and the balance of one kind move together, or both stay. */
  function Shift(e: RoleEvent, ofStreams: bool): int {
    if (e.ConnectionStarted? && !ofStreams) || (e.StreamStarted? && ofStreams) then 1
    else if (e.ConnectionFinished? && !ofStreams) || (e.StreamFinished? && ofStreams) then -1
    else 0
  }

  lemma EventShifts(r: RoleObservation, e: RoleEvent, ofStreams: bool)
    ensures Surplus(IngestRole(r, e), ofStreams) == Surplus(r, ofStreams) + Shift(e, ofStreams)
    ensures Shift(e, ofStreams) == 0 ==> BalanceOf(IngestRole(r, e), ofStreams) == BalanceOf(r, ofStreams)
    ensures Shift(e, ofStreams) != 0 ==>
              BalanceOf(IngestRole(r, e), ofStreams) == Adjust(BalanceOf(r, ofStreams), e.id, Shift(e, ofStreams))
  {
    hide Adjust, IsTimeoutReason, IsUpstreamErrorReason, IsCleanEnd;
  }

  lemma RoleEventKeepsBooks(r: RoleObservation, e: RoleEvent, ofStreams: bool)
    requires BooksClosed(r, ofStreams)
    ensures BooksClosed(IngestRole(r, e), ofStreams)
  {
    hide IngestRole, Adjust, BalanceOf, Surplus;
    EventShifts(r, e, ofStreams);
    if Shift(e, ofStreams) != 0 {
      AdjustTotal(BalanceOf(r, ofStreams), e.id, Shift(e, ofStreams));
    }
  }

  lemma RoleEventMovesBalance(r: RoleObservation, e: RoleEvent, role: Role, ofStreams: bool, id: ConnectionId)
    requires BooksClosed(r, ofStreams)
    ensures At(BalanceOf(IngestRole(r, e), ofStreams), id) ==
              At(BalanceOf(r, ofStreams), id)
              + One(Event(role, e) == Event(role, if ofStreams then StreamStarted(id) else ConnectionStarted(id)))
              - One(Finishes(Event(role, e), role, ofStreams, id))
  {
    hide Bump;
  }

  /** A line keeps the books of both roles; lines of the other role, or of none, leave this role alone. */
  lemma LineKeepsBooks(o: Observation, line: Line, role: Role, ofStreams: bool, id: ConnectionId)
    requires BooksClosed(Of(o, role), ofStreams)
    ensures BooksClosed(Of(Ingest(o, line), role), ofStreams)
    ensures At(BalanceOf(Of(Ingest(o, line), role), ofStreams), id) ==
              At(BalanceOf(Of(o, role), ofStreams), id)
              + One(line == Event(role, if ofStreams then StreamStarted(id) else ConnectionStarted(id)))
              - One(Finishes(line, role, ofStreams, id))
  {
    hide IngestRole, BooksClosed;
    if line.Event? && line.role == role {
      RoleEventKeepsBooks(Of(o, role), line.event, ofStreams);
      RoleEventMovesBalance(Of(o, role), line.event, role, ofStreams, id);
    }
  }

  lemma {:induction false} BalanceExact(o: Observation, lines: seq<Line>, role: Role, ofStreams: bool, id: ConnectionId)
    requires BooksClosed(Of(o, role), ofStreams)
    ensures BooksClosed(Of(IngestAll(o, lines), role), ofStreams)
    ensures At(BalanceOf(Of(IngestAll(o, lines), role), ofStreams), id) ==
              At(BalanceOf(Of(o, role), ofStreams), id)
              + Started(lines, role, ofStreams, id) - Finished(lines, role, ofStreams, id)
    decreases lines
  {
    hide Ingest, BooksClosed;
    if lines != [] {
      LineKeepsBooks(o, lines[0], role, ofStreams, id);
      BalanceExact(Ingest(o, lines[0]), lines[1..], role, ofStreams, id);
    }
  }

  lemma OpenMeansNonempty(r: RoleObservation, ofStreams: bool)
    requires BooksClosed(r, ofStreams)
    ensures Surplus(r, ofStreams) != 0 || NonzeroBalance(BalanceOf(r, ofStreams)) <==>
              BalanceOf(r, ofStreams) != map[]
  {
    var m := BalanceOf(r, ofStreams);
    if m != map[] {
      var id :| id in m;
      assert m[id] != 0;
    }
  }

  function LifecycleViolation(ofStreams: bool): RoleViolation {
    if ofStreams then StreamLifecycleOpen else ConnectionLifecycleOpen
  }

  lemma LifecycleRaised(r: RoleObservation, required: bool, p: Policy, ofStreams: bool)
    ensures Raised(LifecycleViolation(ofStreams), r, required, p) <==>
              r != NOTHING_SEEN && p.requireClosedLifecycles &&
              (Surplus(r, ofStreams) != 0 || NonzeroBalance(BalanceOf(r, ofStreams)))
  {
    hide NonzeroBalance;
  }

  /**
    For every log: the verdict reports an open lifecycle for a role exactly when, for some connection id,
    the log has unequal numbers of started and finished events of that role.
   */
  lemma OpenLifecycleExact(lines: seq<Line>, p: Policy, role: Role, ofStreams: bool)
    ensures Due(OfRole(role, LifecycleViolation(ofStreams)), Observe(lines), p) <==>
              p.requireClosedLifecycles && Unbalanced(lines, role, ofStreams)
  {
    hide Raised, IngestAll, BooksClosed, Started, Finished, NonzeroBalance;
    var r := Of(Observe(lines), role);
    EmptyBooks(role, ofStreams);
    forall id
      ensures At(BalanceOf(r, ofStreams), id) ==
                Started(lines, role, ofStreams, id) - Finished(lines, role, ofStreams, id)
    {
      BalanceExact(EMPTY, lines, role, ofStreams, id);
    }
    BalanceExact(EMPTY, lines, role, ofStreams, ConnectionId(0));
    LifecycleRaised(r, Required(p, role), p, ofStreams);
    OpenMeansNonempty(r, ofStreams);
    NoZeroKept(r, ofStreams);
    var m := BalanceOf(r, ofStreams);
    if m != map[] {
      var id :| id in m;
      assert At(m, id) != 0;
      assert Started(lines, role, ofStreams, id) != Finished(lines, role, ofStreams, id);
      assert Unbalanced(lines, role, ofStreams);
      assert r != NOTHING_SEEN;
    } else {
      assert forall id :: At(m, id) == 0;
    }
  }

  lemma EmptyBooks(role: Role, ofStreams: bool)
    ensures BooksClosed(Of(EMPTY, role), ofStreams) && BalanceOf(Of(EMPTY, role), ofStreams) == map[]
  {
  }

  lemma NoZeroKept(r: RoleObservation, ofStreams: bool)
    requires BooksClosed(r, ofStreams)
    ensures forall id :: id in BalanceOf(r, ofStreams) ==> BalanceOf(r, ofStreams)[id] != 0
  {
  }
}
