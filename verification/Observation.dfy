/**
  The proxy event ledger (src/proxy_observe.rs). A line of the log is taken already classified:
  JSON and UTF-8 parsing are outside the model.
 */
module Observation {
  import opened Wrappers

  datatype Role = Client | Server

  datatype Metrics = Metrics(
    activeConnections: nat, totalConnections: nat, connectionRejects: nat, activeStreams: nat, totalStreams: nat,
    streamRejects: nat, dnsTimeouts: nat, handshakeTimeouts: nat, requestTimeouts: nat, streamOpenTimeouts: nat,
    upstreamConnectTimeouts: nat, upstreamErrors: nat, uploadBytes: nat, downloadBytes: nat,
    gracefulShutdowns: nat, forcedShutdowns: nat)

  datatype ConnectionId = ConnectionId(number: nat)

  /** A role's event with the fields that matter; `Incomplete` lacks a required field. */
  datatype RoleEvent =
    | RuntimeStarted
    | StartupFailed(reason: string)
    | RuntimeFailed
    | CredentialsReloaded
    | CredentialsReloadFailed
    | ConnectionStarted(id: ConnectionId)
    | ConnectionFinished(id: ConnectionId, reason: string)
    | StreamStarted(id: ConnectionId)
    | StreamFinished(id: ConnectionId, reason: string)
    | ConnectionRejected
    | StreamRejected
    | PathChanged
    | MetricsSnapshot(metrics: Metrics)
    | ShutdownStarted
    | ShutdownForced
    | ShutdownComplete(forced: bool)
    | TaskFailed
    | PathEventsLagged
    | ConnectionFailed(reason: string)
    | UnknownEvent
    | Incomplete

  datatype Line =
    | Oversized
    | NotUtf8
    | Blank
    | Malformed
    | ForeignSchema
    | InvalidRecord
    | Event(role: Role, event: RoleEvent)

  predicate IsTimeoutReason(reason: string) {
    reason in {"dns_timeout", "handshake_timeout", "handshake_confirmation_timeout", "request_timeout",
               "request_negotiation_timeout", "stream_open_timeout", "upstream_connect_timeout"}
  }

  predicate IsUpstreamErrorReason(reason: string) {
    reason in {"upstream_connect_failed", "upstream_connect_timeout", "server_rejected_upstream"}
  }

  /** A connection that ended like this did not fail. */
  predicate IsCleanEnd(reason: string) {
    reason in {"shutdown", "shutdown_forced", "peer_closed"}
  }

  datatype Counters = Counters(
    runtimeStarted: nat, startupFailed: nat, runtimeFailed: nat, credentialReloads: nat,
    credentialReloadFailures: nat, connectionFailures: nat, streamFailures: nat, timeoutEvents: nat,
    upstreamErrorEvents: nat, connectionsStarted: nat, connectionsFinished: nat, streamsStarted: nat,
    streamsFinished: nat, connectionRejects: nat, streamRejects: nat, pathChanges: nat, metricsSnapshots: nat,
    shutdownStarted: nat, shutdownForced: nat, shutdownComplete: nat, forcedShutdownCompletions: nat,
    taskFailures: nat, pathEventLagReports: nat, unknownEvents: nat)

  const ZERO := Counters(0, 0, 0, 0, 0, 0, 0, 0, 0, 0, 0, 0, 0, 0, 0, 0, 0, 0, 0, 0, 0, 0, 0, 0)

  type Balance = map<ConnectionId, int>

  datatype RoleObservation = RoleObservation(
    counters: Counters, latestMetrics: Option<Metrics>, connectionBalance: Balance, streamBalance: Balance)

  const NOTHING_SEEN := RoleObservation(ZERO, None, map[], map[])

  datatype Observation = Observation(
    lines: nat, emptyLines: nat, validEvents: nat, malformedLines: nat, oversizedLines: nat,
    schemaMismatches: nat, invalidEvents: nat, client: RoleObservation, server: RoleObservation)

  const EMPTY := Observation(0, 0, 0, 0, 0, 0, 0, NOTHING_SEEN, NOTHING_SEEN)

  // ----- ingestion

  function One(b: bool): nat {
    if b then 1 else 0
  }

  /** The counters that an event moves, each by how much. */
  function Bump(c: Counters, e: RoleEvent): Counters {
    match e
    case RuntimeStarted => c.(runtimeStarted := c.runtimeStarted + 1)
    case StartupFailed(reason) =>
      c.(startupFailed := c.startupFailed + 1, timeoutEvents := c.timeoutEvents + One(IsTimeoutReason(reason)))
    case RuntimeFailed => c.(runtimeFailed := c.runtimeFailed + 1)
    case CredentialsReloaded => c.(credentialReloads := c.credentialReloads + 1)
    case CredentialsReloadFailed => c.(credentialReloadFailures := c.credentialReloadFailures + 1)
    case ConnectionStarted(_) => c.(connectionsStarted := c.connectionsStarted + 1)
    case ConnectionFinished(_, reason) =>
      c.(connectionsFinished := c.connectionsFinished + 1,
         connectionFailures := c.connectionFailures + One(!IsCleanEnd(reason)))
    case StreamStarted(_) => c.(streamsStarted := c.streamsStarted + 1)
    case StreamFinished(_, reason) =>
      c.(streamsFinished := c.streamsFinished + 1,
         streamFailures := c.streamFailures + One(reason != "completed"),
         timeoutEvents := c.timeoutEvents + One(IsTimeoutReason(reason)),
         upstreamErrorEvents := c.upstreamErrorEvents + One(IsUpstreamErrorReason(reason)))
    case ConnectionRejected => c.(connectionRejects := c.connectionRejects + 1)
    case StreamRejected => c.(streamRejects := c.streamRejects + 1)
    case PathChanged => c.(pathChanges := c.pathChanges + 1)
    case MetricsSnapshot(_) => c.(metricsSnapshots := c.metricsSnapshots + 1)
    case ShutdownStarted => c.(shutdownStarted := c.shutdownStarted + 1)
    case ShutdownForced => c.(shutdownForced := c.shutdownForced + 1)
    case ShutdownComplete(forced) =>
      c.(shutdownComplete := c.shutdownComplete + 1,
         forcedShutdownCompletions := c.forcedShutdownCompletions + One(forced))
    case TaskFailed => c.(taskFailures := c.taskFailures + 1)
    case PathEventsLagged => c.(pathEventLagReports := c.pathEventLagReports + 1)
    case ConnectionFailed(reason) =>
      c.(connectionFailures := c.connectionFailures + One(reason != "shutdown"),
         timeoutEvents := c.timeoutEvents + One(IsTimeoutReason(reason)))
    case UnknownEvent => c.(unknownEvents := c.unknownEvents + 1)
    case Incomplete => c
  }

  function At(m: Balance, id: ConnectionId): int {
    if id in m then m[id] else 0
  }

  /** Moves a balance and forgets it when it returns to zero. */
  function Adjust(m: Balance, id: ConnectionId, delta: int): Balance {
    if At(m, id) + delta == 0 then m - {id} else m[id := At(m, id) + delta]
  }

  function IngestRole(r: RoleObservation, e: RoleEvent): RoleObservation {
    var s := r.(counters := Bump(r.counters, e));
    match e
    case ConnectionStarted(id) => s.(connectionBalance := Adjust(r.connectionBalance, id, 1))
    case ConnectionFinished(id, _) => s.(connectionBalance := Adjust(r.connectionBalance, id, -1))
    case StreamStarted(id) => s.(streamBalance := Adjust(r.streamBalance, id, 1))
    case StreamFinished(id, _) => s.(streamBalance := Adjust(r.streamBalance, id, -1))
    case MetricsSnapshot(m) => s.(latestMetrics := Some(m))
    case _ => s
  }

  function Of(o: Observation, role: Role): RoleObservation {
    if role == Client then o.client else o.server
  }

  function WithRole(o: Observation, role: Role, r: RoleObservation): Observation {
    if role == Client then o.(client := r) else o.(server := r)
  }

  function Ingest(o: Observation, line: Line): Observation {
    var n := o.(lines := o.lines + 1);
    match line
    case Oversized => n.(oversizedLines := o.oversizedLines + 1)
    case NotUtf8 => n.(malformedLines := o.malformedLines + 1)
    case Blank => n.(emptyLines := o.emptyLines + 1)
    case Malformed => n.(malformedLines := o.malformedLines + 1)
    case ForeignSchema => n.(schemaMismatches := o.schemaMismatches + 1)
    case InvalidRecord => n.(invalidEvents := o.invalidEvents + 1)
    case Event(role, e) =>
      WithRole(n, role, IngestRole(Of(o, role), e)).(
        validEvents := o.validEvents + 1, invalidEvents := o.invalidEvents + One(e.Incomplete?))
  }

  function IngestAll(o: Observation, lines: seq<Line>): Observation
    decreases lines
  {
    if lines == [] then o else IngestAll(Ingest(o, lines[0]), lines[1..])
  }

  function Observe(lines: seq<Line>): Observation {
    IngestAll(EMPTY, lines)
  }

  /** The ledger as an object whose counters and maps are updated in place. */
  class Ledger {
    var observation: Observation

    constructor ()
      ensures observation == EMPTY
    {
      observation := EMPTY;
    }

    method AdjustBalance(role: Role, ofStreams: bool, id: ConnectionId, delta: int)
      modifies this
      ensures var r := Of(old(observation), role);
              observation == WithRole(old(observation), role,
                if ofStreams then r.(streamBalance := Adjust(r.streamBalance, id, delta))
                else r.(connectionBalance := Adjust(r.connectionBalance, id, delta)))
    {
      var r := Of(observation, role);
      var balances := if ofStreams then r.streamBalance else r.connectionBalance;
      var balance := At(balances, id) + delta;
      balances := balances[id := balance];
      if balance == 0 {
        assert balances - {id} == (if ofStreams then r.streamBalance else r.connectionBalance) - {id};
        balances := balances - {id};
      }
      r := if ofStreams then r.(streamBalance := balances) else r.(connectionBalance := balances);
      observation := WithRole(observation, role, r);
    }

    method IngestLine(line: Line)
      modifies this
      ensures observation == Ingest(old(observation), line)
    {
      hide Bump;
      observation := observation.(lines := observation.lines + 1);
      match line {
        case Oversized => observation := observation.(oversizedLines := observation.oversizedLines + 1);
        case NotUtf8 => observation := observation.(malformedLines := observation.malformedLines + 1);
        case Blank => observation := observation.(emptyLines := observation.emptyLines + 1);
        case Malformed => observation := observation.(malformedLines := observation.malformedLines + 1);
        case ForeignSchema => observation := observation.(schemaMismatches := observation.schemaMismatches + 1);
        case InvalidRecord => observation := observation.(invalidEvents := observation.invalidEvents + 1);
        case Event(role, e) =>
          observation := observation.(validEvents := observation.validEvents + 1);
          var r := Of(observation, role);
          observation := WithRole(observation, role, r.(counters := Bump(r.counters, e)));
          match e {
            case ConnectionStarted(id) => AdjustBalance(role, false, id, 1);
            case ConnectionFinished(id, _) => AdjustBalance(role, false, id, -1);
            case StreamStarted(id) => AdjustBalance(role, true, id, 1);
            case StreamFinished(id, _) => AdjustBalance(role, true, id, -1);
            case MetricsSnapshot(m) =>
              observation := WithRole(observation, role, Of(observation, role).(latestMetrics := Some(m)));
            case Incomplete => observation := observation.(invalidEvents := observation.invalidEvents + 1);
            case _ =>
          }
      }
    }
  }
}
