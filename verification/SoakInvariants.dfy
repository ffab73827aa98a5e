/** What every interleaving of the public soak keeps, and what its report therefore means. */
module SoakInvariants {
  import opened Wrappers
  import opened SoakProtocol

  // ----- sums over the workers

  datatype Measure = Holding | InFlight | Failed | LateFailure | Sent | Echoed | Winning | Losing | LosingLate
    | Reserving

  predicate Flying(p: Phase) {
    p.Sending? || p.Receiving? || p.Completing? || p.Failing?
  }

  predicate HasFailed(p: Phase) {
    || p.CountingTimeout?
    || ((p.Requesting? || p.Signalling?) && p.reason == FlowFailed)
    || p == Finished(Some(FlowFailed))
  }

  function Weight(m: Measure, w: Worker): nat {
    match m
    case Holding => if w.phase.Attempting? then 1 else 0
    case InFlight => if Flying(w.phase) then 1 else 0
    case Failed => if HasFailed(w.phase) then 1 else 0
    case LateFailure => if w.phase.CountingTimeout? then 1 else 0
    case Sent => w.offset
    case Echoed => w.echoed
    case Winning => if w.phase.Completing? then 1 else 0
    case Losing => if w.phase.Failing? then 1 else 0
    case Reserving => if w.phase.LoadingReserved? || w.phase.Exchanging? then 1 else 0
    case LosingLate => if w.phase == Failing(true) || w.phase.CountingTimeout? then 1 else 0
  }

  function Sum(m: Measure, workers: seq<Worker>): nat {
    if workers == [] then 0 else Weight(m, workers[0]) + Sum(m, workers[1..])
  }

  lemma {:induction false} SumUpdate(m: Measure, workers: seq<Worker>, i: nat, w: Worker)
    requires i < |workers|
    ensures Sum(m, workers[i := w]) == Sum(m, workers) - Weight(m, workers[i]) + Weight(m, w)
    decreases i
  {
    hide Weight;
    if i == 0 {
      assert workers[i := w][1..] == workers[1..];
    } else {
      SumUpdate(m, workers[1..], i - 1, w);
      assert workers[i := w][1..] == workers[1..][i - 1 := w];
    }
  }

  /** `n` flows of `unit` bytes; a product of two variables, kept in one place. */
  function Times(n: nat, unit: nat): nat {
    n * unit
  }

  lemma TimesAdds(a: nat, b: nat, unit: nat)
    ensures Times(a + b, unit) == Times(a, unit) + Times(b, unit)
    ensures Times(0, unit) == 0 && Times(1, unit) == unit
  {
  }

  // ----- the invariant

  ghost predicate WorkerOk(c: Config, sh: Shared, w: Worker) {
    && w.offset <= c.payload && w.echoed <= c.payload
    && (!Flying(w.phase) && !HasFailed(w.phase) ==> w.offset == 0 && w.echoed == 0)
    && (w.phase.Receiving? ==> w.offset == c.payload)
    && (w.phase.Completing? ==> w.offset == c.payload && w.echoed == c.payload)
    && (w.phase.Exchanging? ==> w.phase.current <= sh.reserved)
    && (w.phase.Requesting? || w.phase.Signalling? ==> Justified(c, sh, w.phase.reason))
    && (w.phase.CountingTimeout? ==> sh.failed > 0)
    && (w.phase.Signalling? ==> sh.stopCode != 0)
    && (w.phase == Finished(None) ==> sh.stopFlag)
    && (w.phase.Finished? ==> sh.stopCode != 0)
  }

  /** What a stop reason says about the counters. */
  predicate Justified(c: Config, sh: Shared, r: Reason) {
    && (r == BudgetExhausted ==> sh.reserved + FlowBytes(c) > c.budget)
    && (r == FlowFailed ==> sh.failed > 0)
  }

  ghost predicate SharedOk(c: Config, sh: Shared) {
    && sh.reserved <= c.budget
    && sh.stopCode <= 4
    && (sh.stopFlag ==> sh.stopCode != 0)
    && (forall r :: Code(r) == sh.stopCode ==> Justified(c, sh, r))
  }

  /** The counters against the workers. */
  ghost predicate Books(c: Config, sh: Shared, workers: seq<Worker>) {
    && sh.reserved == Times(sh.attempted + Sum(Holding, workers), FlowBytes(c))
    && sh.attempted == sh.completed + sh.failed + Sum(InFlight, workers)
    && sh.failed == Sum(Failed, workers)
    && sh.timedOut + Sum(LateFailure, workers) <= sh.failed
    && sh.sent == Times(sh.completed, c.payload) + Sum(Sent, workers)
    && sh.echoed == Times(sh.completed, c.payload) + Sum(Echoed, workers)
  }

  /** What a report promises its reader. */
  ghost predicate Truthful(c: Config, r: Report) {
    && r.attempted == r.completed + r.failed
    && r.timedOut <= r.failed
    && r.reserved == Times(r.attempted, FlowBytes(c)) <= c.budget
    && r.sent + r.echoed <= r.reserved
    && (r.failed == 0 ==> r.sent == r.echoed == Times(r.completed, c.payload))
    && (r.reason == BudgetExhausted ==> r.reserved + FlowBytes(c) > c.budget)
    && (r.reason == FlowFailed ==> r.failed > 0)
    && (r.stagePass <==> IsNormalCompletion(r.reason) && r.failed == 0 && r.attempted != 0)
  }

  ghost predicate SupervisorOk(c: Config, sh: Shared, s: Supervisor) {
    match s
    case Waiting => true
    case Asking(r) => IsCallersReason(r)
    case Announcing => sh.stopCode != 0
    case ReadingCode => sh.stopCode != 0
    case NoLegalCode => false
    case Closing(r) => Code(r) == sh.stopCode
    case Joining(r) => Code(r) == sh.stopCode
    case Reported(report) => Code(report.reason) == sh.stopCode && Truthful(c, report)
  }

  predicate IsCallersReason(r: Reason) {
    r == DurationElapsed || r == Interrupted
  }

  ghost predicate Invariant(c: Config, s: State) {
    && SharedOk(c, s.shared)
    && Books(c, s.shared, s.workers)
    && (forall i :: 0 <= i < |s.workers| ==> WorkerOk(c, s.shared, s.workers[i]))
    && SupervisorOk(c, s.shared, s.supervisor)
  }

  // ----- a worker's step

  /** How shared state may move: the counters only grow, and a stop code is never replaced. */
  predicate Grows(sh: Shared, next: Shared) {
    && sh.reserved <= next.reserved && sh.failed <= next.failed
    && (sh.stopCode != 0 ==> next.stopCode == sh.stopCode)
    && (sh.stopFlag ==> next.stopFlag)
  }

  lemma ActGrows(c: Config, sh: Shared, w: Worker, a: Action)
    requires Enabled(c, w, a) && WorkerOk(c, sh, w)
    ensures Grows(sh, Act(c, sh, w, a).0)
  {
  }

  lemma ActKeepsWorker(c: Config, sh: Shared, w: Worker, a: Action)
    requires Enabled(c, w, a) && WorkerOk(c, sh, w) && SharedOk(c, sh)
    ensures var (next, v) := Act(c, sh, w, a); WorkerOk(c, next, v)
  {
  }

  lemma ActKeepsShared(c: Config, sh: Shared, w: Worker, a: Action)
    requires Enabled(c, w, a) && WorkerOk(c, sh, w) && SharedOk(c, sh)
    ensures SharedOk(c, Act(c, sh, w, a).0)
  {
    var next := Act(c, sh, w, a).0;
    forall r | Code(r) == next.stopCode
      ensures Justified(c, next, r)
    {
      assert sh.stopCode != 0 ==> Justified(c, sh, r);
    }
  }

  lemma WorkerOkIsStable(c: Config, sh: Shared, next: Shared, w: Worker)
    requires Grows(sh, next) && WorkerOk(c, sh, w)
    ensures WorkerOk(c, next, w)
  {
  }

  lemma SupervisorOkIsStable(c: Config, sh: Shared, next: Shared, s: Supervisor)
    requires Grows(sh, next) && SupervisorOk(c, sh, s)
    ensures SupervisorOk(c, next, s)
  {
    hide Truthful;
  }

  function Once(n: int, unit: nat): nat {
    if n == 1 then unit else 0
  }

  /** A step moves the counters by exactly what it moves the worker, and counts at most one flow. */
  ghost predicate FlowsBalanced(c: Config, sh: Shared, w: Worker, next: Shared, v: Worker) {
    var taken := next.attempted - sh.attempted + Weight(Holding, v) - Weight(Holding, w);
    && 0 <= taken <= 1
    && next.reserved == sh.reserved + Once(taken, FlowBytes(c))
    && next.attempted - sh.attempted ==
         next.completed - sh.completed + next.failed - sh.failed + Weight(InFlight, v) - Weight(InFlight, w)
  }

  ghost predicate FailuresBalanced(sh: Shared, w: Worker, next: Shared, v: Worker) {
    && next.failed - sh.failed == Weight(Failed, v) - Weight(Failed, w)
    && next.timedOut - sh.timedOut + Weight(LateFailure, v) - Weight(LateFailure, w) <= next.failed - sh.failed
  }

  ghost predicate BytesBalanced(c: Config, sh: Shared, w: Worker, next: Shared, v: Worker) {
    var done := next.completed - sh.completed;
    && 0 <= done <= 1
    && next.sent - sh.sent == Once(done, c.payload) + Weight(Sent, v) - Weight(Sent, w)
    && next.echoed - sh.echoed == Once(done, c.payload) + Weight(Echoed, v) - Weight(Echoed, w)
  }

  lemma ActBalancesFlows(c: Config, sh: Shared, w: Worker, a: Action)
    requires Enabled(c, w, a)
    ensures var (next, v) := Act(c, sh, w, a); FlowsBalanced(c, sh, w, next, v)
  {
    hide ChunkEnd;
  }

  lemma ActBalancesFailures(c: Config, sh: Shared, w: Worker, a: Action)
    requires Enabled(c, w, a)
    ensures var (next, v) := Act(c, sh, w, a); FailuresBalanced(sh, w, next, v)
  {
    hide ChunkEnd;
  }

  lemma ActBalancesBytes(c: Config, sh: Shared, w: Worker, a: Action)
    requires Enabled(c, w, a) && WorkerOk(c, sh, w)
    ensures var (next, v) := Act(c, sh, w, a); BytesBalanced(c, sh, w, next, v)
  {
    hide ChunkEnd, Justified;
  }

  lemma BalancedKeepsBooks(c: Config, sh: Shared, workers: seq<Worker>, i: nat, next: Shared, v: Worker)
    requires i < |workers| && Books(c, sh, workers)
    requires FlowsBalanced(c, sh, workers[i], next, v) && FailuresBalanced(sh, workers[i], next, v)
    requires BytesBalanced(c, sh, workers[i], next, v)
    ensures Books(c, next, workers[i := v])
  {
    hide Weight, Sum, Times;
    SumUpdate(Holding, workers, i, v);
    SumUpdate(InFlight, workers, i, v);
    SumUpdate(Failed, workers, i, v);
    SumUpdate(LateFailure, workers, i, v);
    SumUpdate(Sent, workers, i, v);
    SumUpdate(Echoed, workers, i, v);
    TimesAdds(sh.attempted + Sum(Holding, workers), 1, FlowBytes(c));
    TimesAdds(sh.completed, 1, c.payload);
  }

  lemma WorkerStepKeepsInvariant(c: Config, s: State, i: nat, a: Action)
    requires i < |s.workers| && Enabled(c, s.workers[i], a) && Invariant(c, s)
    ensures Invariant(c, Next(c, s, WorkerStep(i, a)))
  {
    hide Act, WorkerOk, SharedOk, SupervisorOk, Books, FlowsBalanced, FailuresBalanced, BytesBalanced, Grows;
    var w := s.workers[i];
    var (next, v) := Act(c, s.shared, w, a);
    ActGrows(c, s.shared, w, a);
    ActKeepsWorker(c, s.shared, w, a);
    ActKeepsShared(c, s.shared, w, a);
    ActBalancesFlows(c, s.shared, w, a);
    ActBalancesFailures(c, s.shared, w, a);
    ActBalancesBytes(c, s.shared, w, a);
    BalancedKeepsBooks(c, s.shared, s.workers, i, next, v);
    SupervisorOkIsStable(c, s.shared, next, s.supervisor);
    var workers := s.workers[i := v];
    forall j | 0 <= j < |workers|
      ensures WorkerOk(c, next, workers[j])
    {
      if j != i {
        WorkerOkIsStable(c, s.shared, next, s.workers[j]);
      }
    }
  }

  // ----- the supervisor's step

  /** Workers that have finished hold nothing back: sums over them are those of failed flows alone. */
  lemma {:induction false} FinishedSums(c: Config, sh: Shared, workers: seq<Worker>)
    requires AllFinished(workers)
    requires forall i :: 0 <= i < |workers| ==> WorkerOk(c, sh, workers[i])
    ensures Sum(Holding, workers) == Sum(InFlight, workers) == Sum(LateFailure, workers) == 0
    ensures Sum(Sent, workers) <= Times(Sum(Failed, workers), c.payload)
    ensures Sum(Echoed, workers) <= Times(Sum(Failed, workers), c.payload)
    decreases |workers|
  {
    hide Times;
    TimesAdds(0, 0, c.payload);
    if workers != [] {
      FinishedSums(c, sh, workers[1..]);
      assert WorkerOk(c, sh, workers[0]) && workers[0].phase.Finished?;
      TimesAdds(Weight(Failed, workers[0]), Sum(Failed, workers[1..]), c.payload);
    }
  }

  lemma ReportIsTruthful(c: Config, sh: Shared, workers: seq<Worker>, reason: Reason)
    requires ValidConfig(c) && SharedOk(c, sh) && Books(c, sh, workers) && AllFinished(workers)
    requires forall i :: 0 <= i < |workers| ==> WorkerOk(c, sh, workers[i])
    requires Code(reason) == sh.stopCode
    ensures Truthful(c, MakeReport(c, sh, reason)) && MakeReport(c, sh, reason).reason == reason
  {
    hide Sum, WorkerOk, AllFinished, Times;
    FinishedSums(c, sh, workers);
    TimesAdds(sh.completed, sh.failed, c.payload);
    TimesTwice(sh.attempted, c.payload);
    TimesZero(c.payload);
    TimesIsProduct(sh.completed, c.payload);
    assert Justified(c, sh, reason);
  }

  lemma TimesTwice(n: nat, unit: nat)
    ensures Times(n, 2 * unit) == 2 * Times(n, unit)
  {
  }

  lemma TimesZero(unit: nat)
    ensures Times(0, unit) == 0
  {
  }

  lemma TimesIsProduct(n: nat, unit: nat)
    ensures Times(n, unit) == n * unit
  {
  }

  lemma SupervisorStepKeepsInvariant(c: Config, s: State, a: SupervisorAction)
    requires ValidConfig(c) && SupervisorEnabled(s, a) && Invariant(c, s)
    ensures Invariant(c, Supervise(c, s, a))
  {
    hide Sum, WorkerOk, Times, Truthful, MakeReport;
    var next := Supervise(c, s, a);
    if a.Join? {
      ReportIsTruthful(c, s.shared, s.workers, s.supervisor.reason);
    }
    forall j | 0 <= j < |s.workers|
      ensures WorkerOk(c, next.shared, s.workers[j])
    {
      WorkerOkIsStable(c, s.shared, next.shared, s.workers[j]);
    }
  }

  // ----- runs

  lemma {:induction false} SumsStartAtZero(m: Measure, n: nat)
    ensures Sum(m, seq(n, _ => Worker(CheckingStop, 0, 0))) == 0
  {
    if n > 0 {
      var workers := seq(n, _ => Worker(CheckingStop, 0, 0));
      SumsStartAtZero(m, n - 1);
      assert workers[1..] == seq(n - 1, _ => Worker(CheckingStop, 0, 0));
    }
  }

  lemma InitKeepsInvariant(c: Config)
    requires ValidConfig(c)
    ensures Invariant(c, Init(c))
  {
    hide Sum, Times;
    SumsStartAtZero(Holding, c.workers);
    SumsStartAtZero(InFlight, c.workers);
    SumsStartAtZero(Failed, c.workers);
    SumsStartAtZero(LateFailure, c.workers);
    SumsStartAtZero(Sent, c.workers);
    SumsStartAtZero(Echoed, c.workers);
    TimesZero(FlowBytes(c));
    TimesZero(c.payload);
  }

  lemma {:induction false} RunKeepsInvariant(c: Config, s: State, steps: seq<Step>)
    requires ValidConfig(c) && Invariant(c, s) && LegalRun(c, s, steps)
    ensures Invariant(c, Run(c, s, steps))
    decreases steps
  {
    hide Invariant, Act, Enabled, Supervise, SupervisorEnabled;
    if steps != [] {
      match steps[0] {
        case WorkerStep(i, a) => WorkerStepKeepsInvariant(c, s, i, a);
        case SupervisorStep(a) => SupervisorStepKeepsInvariant(c, s, a);
      }
      RunKeepsInvariant(c, Next(c, s, steps[0]), steps[1..]);
    }
  }

  /** In every state of every run the reservations are within the budget and cover what was carried. */
  lemma BudgetIsNeverExceeded(c: Config, steps: seq<Step>)
    requires ValidConfig(c) && LegalRun(c, Init(c), steps)
    ensures var sh := Run(c, Init(c), steps).shared;
            sh.sent + sh.echoed <= sh.reserved <= c.budget
  {
    hide Run, LegalRun;
    InitKeepsInvariant(c);
    RunKeepsInvariant(c, Init(c), steps);
    CarriedIsReserved(c, Run(c, Init(c), steps));
  }

  lemma CarriedIsReserved(c: Config, s: State)
    requires Invariant(c, s)
    ensures s.shared.sent + s.shared.echoed <= s.shared.reserved
  {
    hide Sum, WorkerOk, Times;
    var sh := s.shared;
    var flows := Sum(InFlight, s.workers) + Sum(Failed, s.workers);
    CarriedSums(c, sh, s.workers);
    TimesAdds(sh.completed, flows, c.payload);
    TimesAdds(sh.attempted, Sum(Holding, s.workers), FlowBytes(c));
    TimesTwice(sh.attempted, c.payload);
  }

  lemma {:induction false} CarriedSums(c: Config, sh: Shared, workers: seq<Worker>)
    requires forall i :: 0 <= i < |workers| ==> WorkerOk(c, sh, workers[i])
    ensures Sum(Sent, workers) <= Times(Sum(InFlight, workers) + Sum(Failed, workers), c.payload)
    ensures Sum(Echoed, workers) <= Times(Sum(InFlight, workers) + Sum(Failed, workers), c.payload)
    decreases |workers|
  {
    hide Times;
    TimesZero(c.payload);
    if workers != [] {
      CarriedSums(c, sh, workers[1..]);
      assert WorkerOk(c, sh, workers[0]);
      TimesAdds(Weight(InFlight, workers[0]) + Weight(Failed, workers[0]),
                Sum(InFlight, workers[1..]) + Sum(Failed, workers[1..]), c.payload);
    }
  }

  /** The supervisor always finds a legal stop code, and the report of every run is truthful. */
  lemma EveryReportIsTruthful(c: Config, steps: seq<Step>)
    requires ValidConfig(c) && LegalRun(c, Init(c), steps)
    ensures var s := Run(c, Init(c), steps);
            && !s.supervisor.NoLegalCode?
            && (s.supervisor.Reported? ==>
                  Truthful(c, s.supervisor.report) && Code(s.supervisor.report.reason) == s.shared.stopCode)
  {
    hide Run, LegalRun, Truthful;
    InitKeepsInvariant(c);
    RunKeepsInvariant(c, Init(c), steps);
  }

  /** The first stop request decides: once written, the code outlives every further step. */
  lemma {:induction false} StopCodeIsWrittenOnce(c: Config, s: State, steps: seq<Step>)
    requires LegalRun(c, s, steps) && s.shared.stopCode != 0
    ensures Run(c, s, steps).shared.stopCode == s.shared.stopCode
    decreases steps
  {
    hide Enabled, SupervisorEnabled, MakeReport;
    if steps != [] {
      StopCodeIsWrittenOnce(c, Next(c, s, steps[0]), steps[1..]);
    }
  }
}
