/**
  What a soak's report says against what happened in the run: the reason it stopped, and its counts.
  The history of a run is taken from its steps, not from the counters and the stop code that workers and supervisor share.
 */
module SoakHistory {
  import opened Wrappers
  import opened SoakProtocol
  import opened SoakInvariants

  /** What has happened: the causes for a stop, the first request for one, and the flows' steps, counted. */
  datatype Past = Past(
    deadline: bool, interrupt: bool, noRoom: bool, first: Option<Reason>,
    taken: nat, matched: nat, broken: nat, late: nat, written: nat, read: nat)

  const NOTHING := Past(false, false, false, None, 0, 0, 0, 0, 0, 0)

  /** An exchange that finds no room for another flow in the budget. */
  predicate FindsNoRoom(c: Config, s: State, step: Step) {
    && step.WorkerStep? && step.action.Exchange? && step.i < |s.workers| && s.workers[step.i].phase.Exchanging?
    && s.workers[step.i].phase.current + FlowBytes(c) > c.budget
  }

  /** An exchange that takes a flow's bytes out of the budget. */
  predicate TakesBudget(c: Config, s: State, step: Step) {
    && step.WorkerStep? && step.action.Exchange? && !step.action.spurious && step.i < |s.workers|
    && s.workers[step.i].phase == Exchanging(s.shared.reserved) && !FindsNoRoom(c, s, step)
  }

  /** A read that brings more than was sent. */
  predicate ReadsTooMuch(c: Config, s: State, step: Step) {
    && step.WorkerStep? && step.action.Read? && step.i < |s.workers|
    && s.workers[step.i].echoed + step.action.read > c.payload
  }

  /** A step that breaks a flow off: an error, a timeout, a wrong echo or one that is too long. */
  predicate Breaks(c: Config, s: State, step: Step) {
    step.WorkerStep? &&
    (step.action.IoError? || step.action.TimeOut? || step.action == EndOfEcho(false) || ReadsTooMuch(c, s, step))
  }

  /** The reason for which a step asks for the stop, if it does. */
  function AskedFor(s: State, step: Step): Option<Reason> {
    match step
    case WorkerStep(i, Request) => if i < |s.workers| && s.workers[i].phase.Requesting?
                                   then Some(s.workers[i].phase.reason) else None
    case SupervisorStep(Ask) => if s.supervisor.Asking? then Some(s.supervisor.reason) else None
    case _ => None
  }

  function One(b: bool): nat {
    if b then 1 else 0
  }

  function Happened(c: Config, s: State, past: Past, step: Step): Past {
    Past(past.deadline || step == SupervisorStep(Deadline),
         past.interrupt || step == SupervisorStep(Interrupt),
         past.noRoom || FindsNoRoom(c, s, step),
         if past.first.Some? then past.first else AskedFor(s, step),
         past.taken + One(TakesBudget(c, s, step)),
         past.matched + One(step.WorkerStep? && step.action == EndOfEcho(true)),
         past.broken + One(Breaks(c, s, step)),
         past.late + One(step.WorkerStep? && step.action.TimeOut?),
         past.written + (if step.WorkerStep? && step.action.Write? then step.action.written else 0),
         past.read +
         (if step.WorkerStep? && step.action.Read? && !ReadsTooMuch(c, s, step) then step.action.read else 0))
  }

  function History(c: Config, s: State, past: Past, steps: seq<Step>): Past
    requires LegalRun(c, s, steps)
    decreases steps
  {
    if steps == [] then past
    else History(c, Next(c, s, steps[0]), Happened(c, s, past, steps[0]), steps[1..])
  }

  // ----- causes

  /** Each reason has its cause in the past. */
  predicate HasCause(r: Reason, past: Past) {
    match r
    case DurationElapsed => past.deadline
    case Interrupted => past.interrupt
    case BudgetExhausted => past.noRoom
    case FlowFailed => past.broken > 0
  }

  /** What a worker is about to ask for has a cause; so has a failure on its way to be asked for. */
  predicate WorkerCaused(w: Worker, past: Past) {
    match w.phase
    case Failing(_) => past.broken > 0
    case CountingTimeout => past.broken > 0
    case Requesting(r) => HasCause(r, past) && (r == BudgetExhausted || r == FlowFailed)
    case _ => true
  }

  /** The supervisor waits until the deadline or an interrupt; it then works with the first request. */
  predicate SupervisorCaused(s: Supervisor, past: Past) {
    match s
    case Waiting => !past.deadline && !past.interrupt
    case Asking(r) => HasCause(r, past)
    case Closing(r) => past.first == Some(r)
    case Joining(r) => past.first == Some(r)
    case Reported(report) => past.first == Some(report.reason)
    case _ => true
  }

  ghost predicate Caused(s: State, past: Past) {
    && (past.first.None? <==> s.shared.stopCode == 0)
    && (past.first.Some? ==> Code(past.first.value) == s.shared.stopCode && HasCause(past.first.value, past))
    && !(past.deadline && past.interrupt)
    && (forall i :: 0 <= i < |s.workers| ==> WorkerCaused(s.workers[i], past))
    && SupervisorCaused(s.supervisor, past)
  }

  lemma CausesLast(c: Config, s: State, past: Past, step: Step)
    ensures var next := Happened(c, s, past, step);
            && (forall r :: HasCause(r, past) ==> HasCause(r, next))
            && (forall w :: WorkerCaused(w, past) ==> WorkerCaused(w, next))
  {
  }

  lemma CodesDiffer(r: Reason)
    ensures Code(r) != 0 && FromCode(Code(r)) == Some(r)
  {
  }

  lemma WorkerStepCaused(c: Config, s: State, past: Past, i: nat, a: Action)
    requires i < |s.workers| && Enabled(c, s.workers[i], a) && Caused(s, past)
    ensures Caused(Next(c, s, WorkerStep(i, a)), Happened(c, s, past, WorkerStep(i, a)))
  {
    hide ChunkEnd, FlowBytes;
    var step := WorkerStep(i, a);
    var after, next := Happened(c, s, past, step), Next(c, s, step);
    CausesLast(c, s, past, step);
    if a.Request? {
      CodesDiffer(s.workers[i].phase.reason);
    }
    assert WorkerCaused(s.workers[i], past);
    assert WorkerCaused(next.workers[i], after);
  }

  lemma SupervisorStepCaused(c: Config, s: State, past: Past, a: SupervisorAction)
    requires SupervisorEnabled(s, a) && Caused(s, past)
    ensures Caused(Next(c, s, SupervisorStep(a)), Happened(c, s, past, SupervisorStep(a)))
  {
    hide MakeReport, WorkerCaused;
    var step := SupervisorStep(a);
    CausesLast(c, s, past, step);
    if a.Ask? {
      CodesDiffer(s.supervisor.reason);
    }
    if past.first.Some? {
      CodesDiffer(past.first.value);
    }
    ReportReason(c, s.shared);
  }

  lemma ReportReason(c: Config, sh: Shared)
    ensures forall r :: MakeReport(c, sh, r).reason == r
  {
  }

  lemma {:induction false} RunCaused(c: Config, s: State, past: Past, steps: seq<Step>)
    requires LegalRun(c, s, steps) && Caused(s, past)
    ensures Caused(Run(c, s, steps), History(c, s, past, steps))
    decreases steps
  {
    hide Caused, Enabled, SupervisorEnabled, Next, Happened;
    if steps != [] {
      StepCaused(c, s, past, steps[0]);
      RunCaused(c, Next(c, s, steps[0]), Happened(c, s, past, steps[0]), steps[1..]);
    }
  }

  lemma StepCaused(c: Config, s: State, past: Past, step: Step)
    requires Legal(c, s, step) && Caused(s, past)
    ensures Caused(Next(c, s, step), Happened(c, s, past, step))
  {
    hide Caused, Enabled, SupervisorEnabled, Next, Happened;
    match step
    case WorkerStep(i, a) => WorkerStepCaused(c, s, past, i, a);
    case SupervisorStep(a) => SupervisorStepCaused(c, s, past, a);
  }

  /** The two flags are what they say: the step is in the run. */
  lemma {:induction false} FlagsExact(c: Config, s: State, past: Past, steps: seq<Step>)
    requires LegalRun(c, s, steps)
    ensures var h := History(c, s, past, steps);
            && (h.deadline <==> past.deadline || SupervisorStep(Deadline) in steps)
            && (h.interrupt <==> past.interrupt || SupervisorStep(Interrupt) in steps)
    decreases steps
  {
    hide Legal, Next, FindsNoRoom, TakesBudget, Breaks, AskedFor, ReadsTooMuch;
    if steps != [] {
      assert steps == [steps[0]] + steps[1..];
      FlagsExact(c, Next(c, s, steps[0]), Happened(c, s, past, steps[0]), steps[1..]);
    }
  }

  // ----- counts

  /** The counters lag behind what happened by the workers that have not counted yet. */
  ghost predicate Counts(c: Config, s: State, past: Past) {
    && past.taken == s.shared.attempted + Sum(Holding, s.workers)
    && past.matched == s.shared.completed + Sum(Winning, s.workers)
    && past.broken == s.shared.failed + Sum(Losing, s.workers)
    && past.late == s.shared.timedOut + Sum(LosingLate, s.workers)
    && past.written == s.shared.sent
    && past.read == s.shared.echoed
    && (s.supervisor.Reported? ==>
          AllFinished(s.workers) && s.supervisor.report == MakeReport(c, s.shared, s.supervisor.report.reason))
  }

  /** One step of a worker moves history and counters alike, but for what the worker still has to count. */
  lemma ActCounts(c: Config, s: State, i: nat, a: Action, past: Past)
    requires i < |s.workers| && Enabled(c, s.workers[i], a) && c.budget <= MAX_APPLICATION_BYTE_BUDGET
    ensures var (sh, w) := Act(c, s.shared, s.workers[i], a);
            var v, next := s.workers[i], Happened(c, s, past, WorkerStep(i, a));
            && next.taken - past.taken ==
                 sh.attempted - s.shared.attempted + Weight(Holding, w) - Weight(Holding, v)
            && next.matched - past.matched ==
                 sh.completed - s.shared.completed + Weight(Winning, w) - Weight(Winning, v)
            && next.broken - past.broken == sh.failed - s.shared.failed + Weight(Losing, w) - Weight(Losing, v)
            && next.late - past.late ==
                 sh.timedOut - s.shared.timedOut + Weight(LosingLate, w) - Weight(LosingLate, v)
            && next.written - past.written == sh.sent - s.shared.sent
            && next.read - past.read == sh.echoed - s.shared.echoed
  {
    hide ChunkEnd, AskedFor;
  }

  lemma StepCounts(c: Config, s: State, past: Past, step: Step)
    requires Legal(c, s, step) && Counts(c, s, past) && c.budget <= MAX_APPLICATION_BYTE_BUDGET
    ensures Counts(c, Next(c, s, step), Happened(c, s, past, step))
  {
    match step
    case WorkerStep(i, a) =>
      hide Act, Weight, Sum, Happened, MakeReport;
      var w := Act(c, s.shared, s.workers[i], a).1;
      ActCounts(c, s, i, a, past);
      SumUpdate(Holding, s.workers, i, w);
      SumUpdate(Winning, s.workers, i, w);
      SumUpdate(Losing, s.workers, i, w);
      SumUpdate(LosingLate, s.workers, i, w);
    case SupervisorStep(a) =>
      hide Sum, AskedFor;
  }

  lemma {:induction false} RunCounts(c: Config, s: State, past: Past, steps: seq<Step>)
    requires LegalRun(c, s, steps) && Counts(c, s, past) && c.budget <= MAX_APPLICATION_BYTE_BUDGET
    ensures Counts(c, Run(c, s, steps), History(c, s, past, steps))
    decreases steps
  {
    hide Counts, Legal, Next, Happened;
    if steps != [] {
      StepCounts(c, s, past, steps[0]);
      RunCounts(c, Next(c, s, steps[0]), Happened(c, s, past, steps[0]), steps[1..]);
    }
  }

  lemma {:induction false} NothingLeftToCount(workers: seq<Worker>)
    requires AllFinished(workers)
    ensures Sum(Holding, workers) == Sum(Winning, workers) == Sum(Losing, workers) == Sum(LosingLate, workers) == 0
    decreases |workers|
  {
    if workers != [] {
      NothingLeftToCount(workers[1..]);
    }
  }

  lemma InitHistory(c: Config)
    ensures Caused(Init(c), NOTHING) && Counts(c, Init(c), NOTHING)
  {
    hide Sum;
    SumsStartAtZero(Holding, c.workers);
    SumsStartAtZero(Winning, c.workers);
    SumsStartAtZero(Losing, c.workers);
    SumsStartAtZero(LosingLate, c.workers);
  }

  /**
    The report of every run against its history. The reason is that of the first request for a stop, and it has its
    cause in the run: the deadline step, the interrupt step, an exchange that found no room, a flow that broke off.
    The counts are the reservations taken, the echoes that matched, the flows that broke off and those that were
    late, and the bytes written and read. A stage passes only after the deadline or an exhausted budget, and never
    if a flow broke off.
   */
  lemma ReportTellsHistory(c: Config, steps: seq<Step>)
    requires ValidConfig(c) && LegalRun(c, Init(c), steps) && Run(c, Init(c), steps).supervisor.Reported?
    ensures var r, h := Run(c, Init(c), steps).supervisor.report, History(c, Init(c), NOTHING, steps);
            && h.first == Some(r.reason)
            && (r.reason == DurationElapsed ==> SupervisorStep(Deadline) in steps)
            && (r.reason == Interrupted ==> SupervisorStep(Interrupt) in steps)
            && (r.reason == BudgetExhausted ==> h.noRoom)
            && (r.reason == FlowFailed ==> h.broken > 0)
            && r.attempted == h.taken && r.completed == h.matched && r.failed == h.broken && r.timedOut == h.late
            && r.sent == h.written && r.echoed == h.read
            && (r.stagePass <==>
                  && (r.reason == DurationElapsed || r.reason == BudgetExhausted)
                  && h.broken == 0 && h.matched != 0)
            && (r.stagePass ==> SupervisorStep(Deadline) in steps || h.noRoom)
  {
    hide Run, LegalRun, Sum, MakeReport, History;
    InitHistory(c);
    RunCaused(c, Init(c), NOTHING, steps);
    RunCounts(c, Init(c), NOTHING, steps);
    FlagsExact(c, Init(c), NOTHING, steps);
    EveryReportIsTruthful(c, steps);
    var s := Run(c, Init(c), steps);
    NothingLeftToCount(s.workers);
    ReportFields(c, s.shared, s.supervisor.report.reason);
  }

  lemma ReportFields(c: Config, sh: Shared, reason: Reason)
    ensures var r := MakeReport(c, sh, reason);
            && r.attempted == sh.attempted && r.completed == sh.completed && r.failed == sh.failed
            && r.timedOut == sh.timedOut && r.sent == sh.sent && r.echoed == sh.echoed && r.reason == reason
  {
  }

  /** A run has a deadline step or an interrupt step, not both; so an interrupted one reports no elapsed duration. */
  lemma InterruptedNeverElapsed(c: Config, steps: seq<Step>)
    requires ValidConfig(c) && LegalRun(c, Init(c), steps) && SupervisorStep(Interrupt) in steps
    ensures SupervisorStep(Deadline) !in steps
    ensures var s := Run(c, Init(c), steps).supervisor; s.Reported? ==> s.report.reason != DurationElapsed
  {
    hide Run, LegalRun, History;
    InitHistory(c);
    RunCaused(c, Init(c), NOTHING, steps);
    FlagsExact(c, Init(c), NOTHING, steps);
    if Run(c, Init(c), steps).supervisor.Reported? {
      ReportTellsHistory(c, steps);
    }
  }

  // ----- stopping

  /** A worker ends only for a stop: it saw the flag, or it asked for the stop itself. */
  lemma WorkersEndForAStop(c: Config, steps: seq<Step>, i: nat)
    requires ValidConfig(c) && LegalRun(c, Init(c), steps)
    requires var s := Run(c, Init(c), steps); i < |s.workers| && s.workers[i].phase.Finished?
    ensures var s := Run(c, Init(c), steps);
            && s.shared.stopCode != 0
            && (s.workers[i].phase.why.None? ==> s.shared.stopFlag)
  {
    hide Run, LegalRun;
    InitKeepsInvariant(c);
    RunKeepsInvariant(c, Init(c), steps);
    assert WorkerOk(c, Run(c, Init(c), steps).shared, Run(c, Init(c), steps).workers[i]);
  }

  lemma ActHeedsStop(c: Config, s: State, i: nat, a: Action, past: Past)
    requires i < |s.workers| && Enabled(c, s.workers[i], a) && s.shared.stopFlag
    requires c.budget <= MAX_APPLICATION_BYTE_BUDGET
    ensures var (sh, w) := Act(c, s.shared, s.workers[i], a);
            && sh.stopFlag
            && Happened(c, s, past, WorkerStep(i, a)).taken + Weight(Reserving, w) <=
                 past.taken + Weight(Reserving, s.workers[i])
  {
    hide ChunkEnd, AskedFor, Breaks, ReadsTooMuch;
  }

  /**
    Once the flag is up, no more flows are started than workers had already passed their check of it; a worker that
    completes a flow after that starts no other.
   */
  lemma {:induction false} StopIsHeeded(c: Config, s: State, past: Past, steps: seq<Step>)
    requires LegalRun(c, s, steps) && s.shared.stopFlag && c.budget <= MAX_APPLICATION_BYTE_BUDGET
    ensures History(c, s, past, steps).taken + Sum(Reserving, Run(c, s, steps).workers) <=
              past.taken + Sum(Reserving, s.workers)
    decreases steps
  {
    hide Sum, Weight, Happened, MakeReport, Enabled;
    if steps != [] {
      match steps[0] {
        case WorkerStep(i, a) =>
          hide Act;
          ActHeedsStop(c, s, i, a, past);
          SumUpdate(Reserving, s.workers, i, Act(c, s.shared, s.workers[i], a).1);
        case SupervisorStep(a) =>
          SupervisorTakesNothing(c, s, past, a);
      }
      StopIsHeeded(c, Next(c, s, steps[0]), Happened(c, s, past, steps[0]), steps[1..]);
    }
  }

  lemma SupervisorTakesNothing(c: Config, s: State, past: Past, a: SupervisorAction)
    ensures Happened(c, s, past, SupervisorStep(a)).taken == past.taken
  {
  }

  // ----- progress

  /** A write may take any number of the bytes left, as long as they all lie in one chunk of 16 KiB. */
  lemma WriteEnabledExactly(c: Config, w: Worker, n: nat)
    requires w.phase.Sending?
    ensures Enabled(c, w, Write(n)) <==>
              0 < n && w.offset + n <= c.payload && (w.offset + n - 1) / 16_384 == w.offset / 16_384
  {
    if n > 0 {
      SameChunk(w.offset, n);
    }
  }

  lemma SameChunk(offset: nat, n: nat)
    requires n > 0
    ensures offset + n <= (offset / 16_384 + 1) * 16_384 <==> (offset + n - 1) / 16_384 == offset / 16_384
  {
  }

  /** What a worker that has not finished can do next, whatever the others do. */
  function Something(w: Worker): Action
    requires !w.phase.Finished?
  {
    match w.phase
    case CheckingStop => CheckStop
    case LoadingReserved => LoadReserved
    case Exchanging(_) => Exchange(false)
    case Attempting => Attempt
    case Sending => IoError
    case Receiving => IoError
    case Completing => Complete
    case Failing(_) => CountFailure
    case CountingTimeout => CountTimeout
    case Requesting(_) => Request
    case Signalling(_) => Signal
  }

  /** No run gets stuck before its report: there is always a step that some task can take. */
  lemma NeverStuck(c: Config, steps: seq<Step>)
    requires ValidConfig(c) && LegalRun(c, Init(c), steps) && !Run(c, Init(c), steps).supervisor.Reported?
    ensures exists step :: Legal(c, Run(c, Init(c), steps), step)
  {
    hide Run, LegalRun, ChunkEnd;
    EveryReportIsTruthful(c, steps);
    var s := Run(c, Init(c), steps);
    if s.supervisor.Joining? && !AllFinished(s.workers) {
      var i :| 0 <= i < |s.workers| && !s.workers[i].phase.Finished?;
      assert Legal(c, s, WorkerStep(i, Something(s.workers[i])));
    } else {
      assert Legal(c, s, SupervisorStep(Due(s.supervisor)));
    }
  }

  /** The supervisor's next step; while it waits, the deadline. */
  function Due(s: Supervisor): SupervisorAction {
    match s
    case Waiting => Deadline
    case Asking(_) => Ask
    case Announcing => Announce
    case ReadingCode => ReadCode
    case Closing(_) => Close
    case _ => Join
  }
}
