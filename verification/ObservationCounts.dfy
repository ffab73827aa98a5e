/** What the ledger's numbers mean: every counter is the number of lines or events that it stands for. */
module ObservationCounts {
  import opened Wrappers
  import opened Bytes
  import opened Observation
  import Health = ObservationHealth

  // ----- the counters of a role

  datatype Counter =
    | RuntimeStarts | StartupFailures | RuntimeFailures | Reloads | ReloadFailures | ConnectionFailures
    | StreamFailures | Timeouts | UpstreamErrors | ConnectionStarts | ConnectionEnds | StreamStarts | StreamEnds
    | RefusedConnections | RefusedStreams | PathChanges | Snapshots | ShutdownStarts | ForcedShutdowns
    | ShutdownEnds | ForcedShutdownEnds | TaskFailures | LagReports | UnknownEvents

  function Value(c: Counters, which: Counter): nat {
    match which
    case RuntimeStarts => c.runtimeStarted
    case StartupFailures => c.startupFailed
    case RuntimeFailures => c.runtimeFailed
    case Reloads => c.credentialReloads
    case ReloadFailures => c.credentialReloadFailures
    case ConnectionFailures => c.connectionFailures
    case StreamFailures => c.streamFailures
    case Timeouts => c.timeoutEvents
    case UpstreamErrors => c.upstreamErrorEvents
    case ConnectionStarts => c.connectionsStarted
    case ConnectionEnds => c.connectionsFinished
    case StreamStarts => c.streamsStarted
    case StreamEnds => c.streamsFinished
    case RefusedConnections => c.connectionRejects
    case RefusedStreams => c.streamRejects
    case PathChanges => c.pathChanges
    case Snapshots => c.metricsSnapshots
    case ShutdownStarts => c.shutdownStarted
    case ForcedShutdowns => c.shutdownForced
    case ShutdownEnds => c.shutdownComplete
    case ForcedShutdownEnds => c.forcedShutdownCompletions
    case TaskFailures => c.taskFailures
    case LagReports => c.pathEventLagReports
    case UnknownEvents => c.unknownEvents
  }

  /** The reasons that stand for a timeout. */
  predicate NamesTimeout(reason: string) {
    || reason == "dns_timeout" || reason == "handshake_timeout" || reason == "handshake_confirmation_timeout"
    || reason == "request_timeout" || reason == "request_negotiation_timeout" || reason == "stream_open_timeout"
    || reason == "upstream_connect_timeout"
  }

  /** The reasons that stand for an upstream error; a timeout of the upstream connection is both. */
  predicate NamesUpstreamError(reason: string) {
    || reason == "upstream_connect_failed" || reason == "upstream_connect_timeout"
    || reason == "server_rejected_upstream"
  }

  /** The ends of a connection that are no failures. */
  predicate NamesCleanEnd(reason: string) {
    reason == "shutdown" || reason == "shutdown_forced" || reason == "peer_closed"
  }

  lemma ReasonsAgree(reason: string)
    ensures IsTimeoutReason(reason) == NamesTimeout(reason)
    ensures IsUpstreamErrorReason(reason) == NamesUpstreamError(reason)
    ensures IsCleanEnd(reason) == NamesCleanEnd(reason)
  {
  }

  /** The events that a counter counts, counter by counter. */
  predicate Counts(which: Counter, e: RoleEvent) {
    match which
    case RuntimeStarts => e.RuntimeStarted?
    case StartupFailures => e.StartupFailed?
    case RuntimeFailures => e.RuntimeFailed?
    case Reloads => e.CredentialsReloaded?
    case ReloadFailures => e.CredentialsReloadFailed?
    case ConnectionFailures =>
      || (e.ConnectionFailed? && e.reason != "shutdown")
      || (e.ConnectionFinished? && !NamesCleanEnd(e.reason))
    case StreamFailures => e.StreamFinished? && e.reason != "completed"
    case Timeouts => (e.StartupFailed? || e.StreamFinished? || e.ConnectionFailed?) && NamesTimeout(e.reason)
    case UpstreamErrors => e.StreamFinished? && NamesUpstreamError(e.reason)
    case ConnectionStarts => e.ConnectionStarted?
    case ConnectionEnds => e.ConnectionFinished?
    case StreamStarts => e.StreamStarted?
    case StreamEnds => e.StreamFinished?
    case RefusedConnections => e.ConnectionRejected?
    case RefusedStreams => e.StreamRejected?
    case PathChanges => e.PathChanged?
    case Snapshots => e.MetricsSnapshot?
    case ShutdownStarts => e.ShutdownStarted?
    case ForcedShutdowns => e.ShutdownForced?
    case ShutdownEnds => e.ShutdownComplete?
    case ForcedShutdownEnds => e == ShutdownComplete(true)
    case TaskFailures => e.TaskFailed?
    case LagReports => e.PathEventsLagged?
    case UnknownEvents => e.UnknownEvent?
  }

  /** The counters that look at the reason of an event ... */
  lemma ReasonsCounted(c: Counters, e: RoleEvent, which: Counter)
    requires which.ConnectionFailures? || which.StreamFailures? || which.Timeouts? || which.UpstreamErrors?
    ensures Value(Bump(c, e), which) == Value(c, which) + One(Counts(which, e))
  {
    hide IsTimeoutReason, IsUpstreamErrorReason, IsCleanEnd, NamesTimeout, NamesUpstreamError, NamesCleanEnd;
    match e
    case StartupFailed(reason) => ReasonsAgree(reason);
    case ConnectionFinished(_, reason) => ReasonsAgree(reason);
    case StreamFinished(_, reason) => ReasonsAgree(reason);
    case ConnectionFailed(reason) => ReasonsAgree(reason);
    case _ =>
  }

  /** ... those of connections and streams ... */
  lemma LifecyclesCounted(c: Counters, e: RoleEvent, which: Counter)
    requires which.ConnectionStarts? || which.ConnectionEnds? || which.StreamStarts? || which.StreamEnds? ||
             which.RefusedConnections? || which.RefusedStreams? || which.PathChanges? || which.Snapshots?
    ensures Value(Bump(c, e), which) == Value(c, which) + One(Counts(which, e))
  {
    hide IsTimeoutReason, IsUpstreamErrorReason, IsCleanEnd, NamesTimeout, NamesUpstreamError, NamesCleanEnd;
  }

  /** ... and those of the runtime. */
  lemma RuntimeCounted(c: Counters, e: RoleEvent, which: Counter)
    requires which.RuntimeStarts? || which.StartupFailures? || which.RuntimeFailures? || which.Reloads? ||
             which.ReloadFailures? || which.TaskFailures? || which.LagReports? || which.UnknownEvents?
    ensures Value(Bump(c, e), which) == Value(c, which) + One(Counts(which, e))
  {
    hide IsTimeoutReason, IsUpstreamErrorReason, IsCleanEnd, NamesTimeout, NamesUpstreamError, NamesCleanEnd;
  }

  lemma ShutdownsCounted(c: Counters, e: RoleEvent, which: Counter)
    requires which.ShutdownStarts? || which.ForcedShutdowns? || which.ShutdownEnds? || which.ForcedShutdownEnds?
    ensures Value(Bump(c, e), which) == Value(c, which) + One(Counts(which, e))
  {
    hide IsTimeoutReason, IsUpstreamErrorReason, IsCleanEnd, NamesTimeout, NamesUpstreamError, NamesCleanEnd;
  }

  lemma BumpCounts(c: Counters, e: RoleEvent, which: Counter)
    ensures Value(Bump(c, e), which) == Value(c, which) + One(Counts(which, e))
  {
    hide Bump, Value, Counts;
    if which.ConnectionFailures? || which.StreamFailures? || which.Timeouts? || which.UpstreamErrors? {
      ReasonsCounted(c, e, which);
    } else if which.ShutdownStarts? || which.ForcedShutdowns? || which.ShutdownEnds? || which.ForcedShutdownEnds? {
      ShutdownsCounted(c, e, which);
    } else if which.RuntimeStarts? || which.StartupFailures? || which.RuntimeFailures? || which.Reloads? ||
              which.ReloadFailures? || which.TaskFailures? || which.LagReports? || which.UnknownEvents? {
      RuntimeCounted(c, e, which);
    } else {
      LifecyclesCounted(c, e, which);
    }
  }

  /** How many lines of a log are events of this role that the counter counts. */
  function EventsCounted(lines: seq<Line>, role: Role, which: Counter): nat {
    if lines == [] then 0
    else One(lines[0].Event? && lines[0].role == role && Counts(which, lines[0].event))
         + EventsCounted(lines[1..], role, which)
  }

  lemma LineCounts(o: Observation, line: Line, role: Role, which: Counter)
    ensures Value(Of(Ingest(o, line), role).counters, which) ==
              Value(Of(o, role).counters, which)
              + One(line.Event? && line.role == role && Counts(which, line.event))
  {
    hide Bump, Value, Counts;
    if line.Event? {
      BumpCounts(Of(o, role).counters, line.event, which);
    }
  }

  lemma {:induction false} CountersGrow(o: Observation, lines: seq<Line>, role: Role, which: Counter)
    ensures Value(Of(IngestAll(o, lines), role).counters, which) ==
              Value(Of(o, role).counters, which) + EventsCounted(lines, role, which)
    decreases lines
  {
    hide Ingest, Value, Counts;
    if lines != [] {
      LineCounts(o, lines[0], role, which);
      CountersGrow(Ingest(o, lines[0]), lines[1..], role, which);
    }
  }

  /** For every log, role and counter: its value is the number of the role's events that it counts. */
  lemma CounterExact(lines: seq<Line>, role: Role, which: Counter)
    ensures Value(Of(Observe(lines), role).counters, which) == EventsCounted(lines, role, which)
  {
    hide IngestAll, Counts, EventsCounted;
    CountersGrow(EMPTY, lines, role, which);
  }

  // ----- the counters of the log

  datatype LogCounter =
    | AllLines | EmptyLines | ValidEvents | MalformedLines | OversizedLines | Mismatches | InvalidEvents

  function LogValue(o: Observation, which: LogCounter): nat {
    match which
    case AllLines => o.lines
    case EmptyLines => o.emptyLines
    case ValidEvents => o.validEvents
    case MalformedLines => o.malformedLines
    case OversizedLines => o.oversizedLines
    case Mismatches => o.schemaMismatches
    case InvalidEvents => o.invalidEvents
  }

  predicate CountsLine(which: LogCounter, line: Line) {
    match which
    case AllLines => true
    case EmptyLines => line.Blank?
    case ValidEvents => line.Event?
    case MalformedLines => line.NotUtf8? || line.Malformed?
    case OversizedLines => line.Oversized?
    case Mismatches => line.ForeignSchema?
    case InvalidEvents => line.InvalidRecord? || (line.Event? && line.event.Incomplete?)
  }

  function LinesCounted(lines: seq<Line>, which: LogCounter): nat {
    if lines == [] then 0 else One(CountsLine(which, lines[0])) + LinesCounted(lines[1..], which)
  }

  lemma {:induction false} LogCountersGrow(o: Observation, lines: seq<Line>, which: LogCounter)
    ensures LogValue(IngestAll(o, lines), which) == LogValue(o, which) + LinesCounted(lines, which)
    decreases lines
  {
    hide IngestRole;
    if lines != [] {
      LogCountersGrow(Ingest(o, lines[0]), lines[1..], which);
    }
  }

  /** For every log: each number about the log as a whole is the number of lines of its kind. */
  lemma LogCounterExact(lines: seq<Line>, which: LogCounter)
    ensures LogValue(Observe(lines), which) == LinesCounted(lines, which)
  {
    hide IngestAll, LinesCounted, CountsLine;
    LogCountersGrow(EMPTY, lines, which);
  }

  // ----- the metrics kept

  /** The last snapshot of a role in a log. */
  function LastSnapshot(lines: seq<Line>, role: Role): Option<Metrics> {
    if lines == [] then None
    else
      var last := lines[|lines| - 1];
      if last.Event? && last.role == role && last.event.MetricsSnapshot? then Some(last.event.metrics)
      else LastSnapshot(lines[..|lines| - 1], role)
  }

  lemma {:induction false} IngestLast(o: Observation, lines: seq<Line>, last: Line)
    ensures IngestAll(o, lines + [last]) == Ingest(IngestAll(o, lines), last)
    decreases lines
  {
    hide Ingest;
    if lines == [] {
      assert [last][1..] == [];
    } else {
      IngestLast(Ingest(o, lines[0]), lines[1..], last);
      assert (lines + [last])[1..] == lines[1..] + [last];
    }
  }

  /** For every log and role: the metrics kept are those of its last snapshot. */
  lemma {:induction false} LatestMetricsExact(lines: seq<Line>, role: Role)
    ensures Of(Observe(lines), role).latestMetrics == LastSnapshot(lines, role)
    decreases |lines|
  {
    hide IngestAll, Bump, Adjust;
    if lines == [] {
      NothingIngested();
    } else {
      var init, last := lines[..|lines| - 1], lines[|lines| - 1];
      LatestMetricsExact(init, role);
      IngestLast(EMPTY, init, last);
      assert init + [last] == lines;
    }
  }

  lemma NothingIngested()
    ensures Observe([]) == EMPTY
  {
  }

  // ----- what a healthy verdict says about the log

  /** How many events of a role count as runtime failures: the sum over seven counters. */
  function FailuresCounted(lines: seq<Line>, role: Role): nat {
    EventsCounted(lines, role, StartupFailures) + EventsCounted(lines, role, RuntimeFailures)
    + EventsCounted(lines, role, ReloadFailures) + EventsCounted(lines, role, TaskFailures)
    + EventsCounted(lines, role, LagReports) + EventsCounted(lines, role, ConnectionFailures)
    + EventsCounted(lines, role, StreamFailures)
  }

  /**
    A log that gets a healthy verdict has no malformed, oversized, foreign or invalid line, and for every role that
    it mentions the numbers of its failures, rejections, timeouts, upstream errors and forced shutdowns are within
    the limits of the policy.
   */
  lemma HealthyLog(lines: seq<Line>, p: Health.Policy, role: Role)
    requires forall v :: !Health.Due(v, Observe(lines), p)
    ensures LinesCounted(lines, ValidEvents) > 0 && LinesCounted(lines, MalformedLines) == 0
    ensures LinesCounted(lines, OversizedLines) == 0 && LinesCounted(lines, Mismatches) == 0
    ensures LinesCounted(lines, InvalidEvents) == 0
    ensures Of(Observe(lines), role) != NOTHING_SEEN ==>
              && LastSnapshot(lines, role).Some?
              && Min(FailuresCounted(lines, role), U64_MAX) <= p.maxRuntimeFailures
              && Min(EventsCounted(lines, role, RefusedConnections) + EventsCounted(lines, role, RefusedStreams),
                     U64_MAX) <= p.maxRejections
              && EventsCounted(lines, role, Timeouts) <= p.maxTimeouts
              && EventsCounted(lines, role, UpstreamErrors) <= p.maxUpstreamErrors
              && EventsCounted(lines, role, ForcedShutdowns) <= p.maxForcedShutdowns
              && EventsCounted(lines, role, ForcedShutdownEnds) <= p.maxForcedShutdowns
  {
    hide IngestAll, EventsCounted, LinesCounted, Health.Raised, Health.RuntimeFailures, LastSnapshot;
    var o := Observe(lines);
    LogIsClean(o, p);
    LogCounterExact(lines, ValidEvents);
    LogCounterExact(lines, MalformedLines);
    LogCounterExact(lines, OversizedLines);
    LogCounterExact(lines, Mismatches);
    LogCounterExact(lines, InvalidEvents);
    if Of(o, role) != NOTHING_SEEN {
      Health.HealthyMeansWithinLimits(o, p, role);
      Health.TotalsExact(Of(o, role).counters, Of(o, role).latestMetrics.value);
      LatestMetricsExact(lines, role);
      CounterExact(lines, role, StartupFailures);
      CounterExact(lines, role, RuntimeFailures);
      CounterExact(lines, role, ReloadFailures);
      CounterExact(lines, role, TaskFailures);
      CounterExact(lines, role, LagReports);
      CounterExact(lines, role, ConnectionFailures);
      CounterExact(lines, role, StreamFailures);
      CounterExact(lines, role, RefusedConnections);
      CounterExact(lines, role, RefusedStreams);
      CounterExact(lines, role, Timeouts);
      CounterExact(lines, role, UpstreamErrors);
      CounterExact(lines, role, ForcedShutdowns);
      CounterExact(lines, role, ForcedShutdownEnds);
    }
  }

  /**
    Where the policy asks for a clean shutdown, such a log has, for every role that it mentions, as many shutdowns
    begun and ended as runtimes started, and at least one; where it asks for it, the last snapshot shows nothing active.
   */
  lemma HealthyLogIsClosed(lines: seq<Line>, p: Health.Policy, role: Role)
    requires (forall v :: !Health.Due(v, Observe(lines), p)) && Of(Observe(lines), role) != NOTHING_SEEN
    ensures EventsCounted(lines, role, RuntimeStarts) > 0 && LastSnapshot(lines, role).Some?
    ensures p.requireCleanShutdown ==>
              && EventsCounted(lines, role, ShutdownEnds) == EventsCounted(lines, role, RuntimeStarts)
              && EventsCounted(lines, role, ShutdownStarts) == EventsCounted(lines, role, RuntimeStarts)
    ensures var m := LastSnapshot(lines, role);
            && (p.requireCleanShutdown ==> m.value.gracefulShutdowns + m.value.forcedShutdowns == 1)
            && (p.requireFinalInactive ==> m.value.activeConnections == m.value.activeStreams == 0)
  {
    hide IngestAll, EventsCounted, Health.Raised, LastSnapshot;
    Health.HealthyMeansClosed(Observe(lines), p, role);
    LatestMetricsExact(lines, role);
    CounterExact(lines, role, RuntimeStarts);
    CounterExact(lines, role, ShutdownStarts);
    CounterExact(lines, role, ShutdownEnds);
  }

  lemma LogIsClean(o: Observation, p: Health.Policy)
    requires forall v :: !Health.Due(v, o, p)
    ensures o.validEvents > 0 && o.malformedLines == 0 && o.oversizedLines == 0 && o.schemaMismatches == 0
    ensures o.invalidEvents == 0
  {
    hide Health.Raised;
    assert !Health.Due(Health.NoValidEvents, o, p) && !Health.Due(Health.MalformedJsonl, o, p);
    assert !Health.Due(Health.OversizedJsonlLine, o, p) && !Health.Due(Health.SchemaMismatch, o, p);
    assert !Health.Due(Health.InvalidEvent, o, p);
  }
}
