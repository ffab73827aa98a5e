/**
  The public soak as a state machine (src/proxy_soak.rs). Worker tasks and the supervisor run at once and
  share counters, a stop code and a stop flag; every atomic operation is one step, and steps of different
  tasks interleave in any order. The network, the clock and the caller's shutdown are chosen freely.
 */
module SoakProtocol {
  import opened Wrappers
  import opened Bytes
  import opened SoakPacer

  const MAX_PUBLIC_SOAK_WORKERS: nat := 8
  const MAX_SOAK_PAYLOAD_BYTES: nat := 4 * 1024 * 1024
  const MAX_APPLICATION_BYTE_BUDGET: nat := 0x100_0000_0000
  const MAX_UPLOAD_RATE_BPS: nat := 1_000_000_000
  const MAX_PACING_WINDOW: nat := 10 * NANOS_PER_SECOND
  const WRITE_CHUNK_BYTES: nat := 16 * 1024

  datatype Config = Config(workers: nat, payload: nat, budget: u64, uploadRateBps: nat)

  /** `validate`, but for the client address, the duration and the checkpoint interval. */
  predicate ValidConfig(c: Config) {
    && 1 <= c.workers <= MAX_PUBLIC_SOAK_WORKERS
    && 1 <= c.payload <= MAX_SOAK_PAYLOAD_BYTES
    && 1 <= c.uploadRateBps <= MAX_UPLOAD_RATE_BPS
    && FlowBytes(c) <= c.budget <= MAX_APPLICATION_BYTE_BUDGET
    && DurationForRate(PacedBytes(c), c.uploadRateBps) <= MAX_PACING_WINDOW
  }

  /** The payloads that all workers together may have under way. */
  function PacedBytes(c: Config): nat {
    c.payload * c.workers
  }

  /** What one flow may carry: its payload out and the echo back. */
  function FlowBytes(c: Config): nat {
    2 * c.payload
  }

  datatype Reason = DurationElapsed | BudgetExhausted | FlowFailed | Interrupted

  function Code(r: Reason): nat {
    match r
    case DurationElapsed => 1
    case BudgetExhausted => 2
    case FlowFailed => 3
    case Interrupted => 4
  }

  function FromCode(code: nat): Option<Reason> {
    match code
    case 1 => Some(DurationElapsed)
    case 2 => Some(BudgetExhausted)
    case 3 => Some(FlowFailed)
    case 4 => Some(Interrupted)
    case _ => None
  }

  predicate IsNormalCompletion(r: Reason) {
    r == DurationElapsed || r == BudgetExhausted
  }

  // ----- state

  /** Where a worker's loop stands, named by what it does next. */
  datatype Phase =
    | CheckingStop
    | LoadingReserved
    | Exchanging(current: nat)
    | Attempting
    | Sending
    | Receiving
    | Completing
    | Failing(timedOut: bool)
    | CountingTimeout
    | Requesting(reason: Reason)
    | Signalling(reason: Reason)
    | Finished(why: Option<Reason>)

  /** `offset` and `echoed` are the current flow's; a worker whose flow failed runs no other. */
  datatype Worker = Worker(phase: Phase, offset: nat, echoed: nat)

  datatype Shared = Shared(
    reserved: nat, attempted: nat, completed: nat, failed: nat, timedOut: nat, sent: nat, echoed: nat,
    stopCode: nat, stopFlag: bool)

  datatype Report = Report(
    stagePass: bool, reason: Reason, attempted: nat, completed: nat, failed: nat, timedOut: nat,
    reserved: nat, sent: nat, echoed: nat)

  datatype Supervisor =
    | Waiting
    | Asking(reason: Reason)
    | Announcing
    | ReadingCode
    | NoLegalCode
    | Closing(reason: Reason)
    | Joining(reason: Reason)
    | Reported(report: Report)

  datatype State = State(shared: Shared, workers: seq<Worker>, supervisor: Supervisor)

  const FRESH := Shared(0, 0, 0, 0, 0, 0, 0, 0, false)

  function Init(c: Config): State {
    State(FRESH, seq(c.workers, _ => Worker(CheckingStop, 0, 0)), Waiting)
  }

  // ----- a worker's steps

  datatype Action =
    | CheckStop
    | LoadReserved
    | Exchange(spurious: bool)
    | Attempt
    | Write(written: nat)
    | ShutDownWrite
    | Read(read: nat)
    | EndOfEcho(same: bool)
    | IoError
    | TimeOut
    | Complete
    | CountFailure
    | CountTimeout
    | Request
    | Signal

  function ChunkEnd(c: Config, offset: nat): nat {
    Min(c.payload, (offset / WRITE_CHUNK_BYTES + 1) * WRITE_CHUNK_BYTES)
  }

  predicate Enabled(c: Config, w: Worker, a: Action) {
    match a
    case CheckStop => w.phase.CheckingStop?
    case LoadReserved => w.phase.LoadingReserved?
    case Exchange(_) => w.phase.Exchanging?
    case Attempt => w.phase.Attempting?
    case Write(n) => w.phase.Sending? && 0 < n && w.offset + n <= ChunkEnd(c, w.offset)
    case ShutDownWrite => w.phase.Sending? && w.offset >= c.payload
    case Read(n) => w.phase.Receiving? && 0 < n <= WRITE_CHUNK_BYTES
    case EndOfEcho(same) => w.phase.Receiving? && (same ==> w.echoed == c.payload)
    case IoError => w.phase.Sending? || w.phase.Receiving?
    case TimeOut => w.phase.Sending? || w.phase.Receiving?
    case Complete => w.phase.Completing?
    case CountFailure => w.phase.Failing?
    case CountTimeout => w.phase.CountingTimeout?
    case Request => w.phase.Requesting?
    case Signal => w.phase.Signalling?
  }

  function Act(c: Config, sh: Shared, w: Worker, a: Action): (Shared, Worker)
    requires Enabled(c, w, a)
  {
    match a
    case CheckStop => (sh, w.(phase := if sh.stopFlag then Finished(None) else LoadingReserved))
    case LoadReserved => (sh, w.(phase := Exchanging(sh.reserved)))
    case Exchange(spurious) =>
      var next := w.phase.current + FlowBytes(c);
      if next > U64_MAX || next > c.budget then (sh, w.(phase := Requesting(BudgetExhausted)))
      else if w.phase.current == sh.reserved && !spurious then (sh.(reserved := next), w.(phase := Attempting))
      else (sh, w.(phase := Exchanging(sh.reserved)))
    case Attempt => (sh.(attempted := sh.attempted + 1), w.(phase := Sending))
    case Write(n) => (sh.(sent := sh.sent + n), w.(offset := w.offset + n))
    case ShutDownWrite => (sh, w.(phase := Receiving))
    case Read(n) =>
      if w.echoed + n > c.payload then (sh, w.(phase := Failing(false)))
      else (sh.(echoed := sh.echoed + n), w.(echoed := w.echoed + n))
    case EndOfEcho(same) => (sh, w.(phase := if same then Completing else Failing(false)))
    case IoError => (sh, w.(phase := Failing(false)))
    case TimeOut => (sh, w.(phase := Failing(true)))
    case Complete => (sh.(completed := sh.completed + 1), Worker(CheckingStop, 0, 0))
    case CountFailure =>
      (sh.(failed := sh.failed + 1),
       w.(phase := if w.phase.timedOut then CountingTimeout else Requesting(FlowFailed)))
    case CountTimeout => (sh.(timedOut := sh.timedOut + 1), w.(phase := Requesting(FlowFailed)))
    case Request =>
      if sh.stopCode == 0 then (sh.(stopCode := Code(w.phase.reason)), w.(phase := Signalling(w.phase.reason)))
      else (sh, w.(phase := Finished(Some(w.phase.reason))))
    case Signal => (sh.(stopFlag := true), w.(phase := Finished(Some(w.phase.reason))))
  }

  // ----- the supervisor's steps

  datatype SupervisorAction = SeeStop | Interrupt | Deadline | Ask | Announce | ReadCode | Close | Join

  predicate SupervisorEnabled(s: State, a: SupervisorAction) {
    match a
    case SeeStop => s.supervisor.Waiting? && s.shared.stopFlag
    case Interrupt => s.supervisor.Waiting?
    case Deadline => s.supervisor.Waiting?
    case Ask => s.supervisor.Asking?
    case Announce => s.supervisor.Announcing?
    case ReadCode => s.supervisor.ReadingCode?
    case Close => s.supervisor.Closing?
    case Join => s.supervisor.Joining? && AllFinished(s.workers)
  }

  predicate AllFinished(workers: seq<Worker>) {
    forall i :: 0 <= i < |workers| ==> workers[i].phase.Finished?
  }

  function MakeReport(c: Config, sh: Shared, reason: Reason): Report {
    var expected := Min(sh.completed * c.payload, U64_MAX);
    var pass :=
      && IsNormalCompletion(reason)
      && sh.attempted != 0
      && sh.completed != 0
      && sh.attempted == sh.completed
      && sh.failed == 0
      && sh.timedOut == 0
      && sh.sent == expected
      && sh.echoed == expected
      && sh.reserved == SatAdd(sh.sent, sh.echoed)
      && sh.reserved <= c.budget;
    Report(pass, reason, sh.attempted, sh.completed, sh.failed, sh.timedOut, sh.reserved, sh.sent, sh.echoed)
  }

  function Supervise(c: Config, s: State, a: SupervisorAction): State
    requires SupervisorEnabled(s, a)
  {
    match a
    case SeeStop => s.(supervisor := ReadingCode)
    case Interrupt => s.(supervisor := Asking(Interrupted))
    case Deadline => s.(supervisor := Asking(DurationElapsed))
    case Ask =>
      if s.shared.stopCode == 0 then
        s.(shared := s.shared.(stopCode := Code(s.supervisor.reason)), supervisor := Announcing)
      else s.(supervisor := ReadingCode)
    case Announce => s.(shared := s.shared.(stopFlag := true), supervisor := ReadingCode)
    case ReadCode =>
      (match FromCode(s.shared.stopCode)
       case None => s.(supervisor := NoLegalCode)
       case Some(reason) => s.(supervisor := Closing(reason)))
    case Close => s.(shared := s.shared.(stopFlag := true), supervisor := Joining(s.supervisor.reason))
    case Join => s.(supervisor := Reported(MakeReport(c, s.shared, s.supervisor.reason)))
  }

  // ----- runs

  datatype Step = WorkerStep(i: nat, action: Action) | SupervisorStep(how: SupervisorAction)

  predicate Legal(c: Config, s: State, step: Step) {
    match step
    case WorkerStep(i, a) => i < |s.workers| && Enabled(c, s.workers[i], a)
    case SupervisorStep(a) => SupervisorEnabled(s, a)
  }

  function Next(c: Config, s: State, step: Step): State
    requires Legal(c, s, step)
  {
    match step
    case WorkerStep(i, a) =>
      var (sh, w) := Act(c, s.shared, s.workers[i], a);
      s.(shared := sh, workers := s.workers[i := w])
    case SupervisorStep(a) => Supervise(c, s, a)
  }

  predicate LegalRun(c: Config, s: State, steps: seq<Step>)
    decreases steps
  {
    steps == [] || (Legal(c, s, steps[0]) && LegalRun(c, Next(c, s, steps[0]), steps[1..]))
  }

  function Run(c: Config, s: State, steps: seq<Step>): State
    requires LegalRun(c, s, steps)
    decreases steps
  {
    if steps == [] then s else Run(c, Next(c, s, steps[0]), steps[1..])
  }
}
