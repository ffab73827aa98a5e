/**
  The server-wide reassembly budget (src/vpn_quota.rs, `VpnGlobalReassemblyBudget`): two atomic
  counters that every data path adds to and subtracts from, each update one atomic step.
  A subtraction that would go below zero aborts the program in the source.
 */
module GlobalBudget {
  import opened Sums

  datatype Unit = ByteUnit | PacketUnit

  /** One atomic update. `granted` records whether a bounded addition found room. */
  datatype BudgetOp = Add(unit: Unit, n: nat, granted: bool) | Sub(unit: Unit, n: nat)

  function Delta(op: BudgetOp, unit: Unit): int {
    if op.unit != unit then 0
    else if op.Sub? then 0 - op.n
    else if op.granted then op.n else 0
  }

  /** What a data path owns after the updates it made: added and not yet given back. */
  function Held(trace: seq<BudgetOp>, unit: Unit): int {
    if trace == [] then 0 else Held(trace[..|trace| - 1], unit) + Delta(trace[|trace| - 1], unit)
  }

  /** A data path is safe when it never gives back more than it owns. */
  predicate Safe(trace: seq<BudgetOp>) {
    trace != [] ==>
      var before, op := trace[..|trace| - 1], trace[|trace| - 1];
      Safe(before) && (op.Sub? ==> op.n <= Held(before, op.unit))
  }

  lemma SafeSnoc(trace: seq<BudgetOp>, op: BudgetOp)
    requires Safe(trace) && (op.Sub? ==> op.n <= Held(trace, op.unit))
    ensures Safe(trace + [op])
    ensures forall unit :: Held(trace + [op], unit) == Held(trace, unit) + Delta(op, unit)
  {
    assert (trace + [op])[..|trace|] == trace;
  }

  lemma {:induction false} SafeHeldNonNegative(trace: seq<BudgetOp>, unit: Unit)
    requires Safe(trace)
    ensures Held(trace, unit) >= 0
  {
    if trace != [] {
      SafeHeldNonNegative(trace[..|trace| - 1], unit);
    }
  }

  // ----- all data paths together

  datatype PathId = PathId(number: nat)

  datatype Event = Event(path: PathId, op: BudgetOp)

  /** A counter after an interleaving of the updates of all data paths. */
  function Counter(run: seq<Event>, unit: Unit): int {
    if run == [] then 0 else Counter(run[..|run| - 1], unit) + Delta(run[|run| - 1].op, unit)
  }

  /** A bounded addition is granted only within the limit. */
  predicate LegalRun(run: seq<Event>, limit: Unit -> nat) {
    run != [] ==>
      var before, op := run[..|run| - 1], run[|run| - 1].op;
      LegalRun(before, limit) && (op.Add? && op.granted ==> Counter(before, op.unit) + op.n <= limit(op.unit))
  }

  /** The updates that one data path made, in order. */
  function Of(run: seq<Event>, path: PathId): seq<BudgetOp> {
    if run == [] then []
    else
      var before, last := Of(run[..|run| - 1], path), run[|run| - 1];
      if last.path == path then before + [last.op] else before
  }

  ghost function Shares(run: seq<Event>, paths: set<PathId>, unit: Unit): map<PathId, int> {
    map p | p in paths :: Held(Of(run, p), unit)
  }

  ghost predicate AllSafe(run: seq<Event>, paths: set<PathId>) {
    forall p :: p in paths ==> Safe(Of(run, p))
  }

  ghost predicate Within(run: seq<Event>, paths: set<PathId>) {
    forall e :: e in run ==> e.path in paths
  }

  /** One event moves one data path's share by as much as it moves the counter. */
  lemma ShareStep(before: seq<Event>, last: Event, p: PathId, unit: Unit)
    ensures Held(Of(before + [last], p), unit) ==
              Held(Of(before, p), unit) + (if p == last.path then Delta(last.op, unit) else 0)
  {
    var run := before + [last];
    assert run[..|run| - 1] == before;
    var mine := Of(before, p);
    assert (mine + [last.op])[..|mine|] == mine;
  }

  lemma SharesStep(before: seq<Event>, last: Event, paths: set<PathId>, unit: Unit)
    requires last.path in paths
    ensures Total(Shares(before + [last], paths, unit)) == Total(Shares(before, paths, unit)) + Delta(last.op, unit)
  {
    hide Of, Held, Total;
    var shares, moved := Shares(before, paths, unit), Shares(before + [last], paths, unit);
    forall p | p in paths
      ensures moved[p] == shares[p] + (if p == last.path then Delta(last.op, unit) else 0)
    {
      ShareStep(before, last, p, unit);
    }
    var v := moved[last.path];
    assert v == shares[last.path] + Delta(last.op, unit);
    TotalInsert(shares, last.path, v);
    assert moved == shares[last.path := v];
  }

  /** Under every interleaving, a counter is exactly the sum of what the data paths own. */
  lemma {:induction false} CounterIsTheSum(run: seq<Event>, paths: set<PathId>, unit: Unit)
    requires Within(run, paths)
    ensures Counter(run, unit) == Total(Shares(run, paths, unit))
  {
    if run == [] {
      TotalOfZeros(Shares(run, paths, unit));
    } else {
      hide Shares, Total;
      var before, last := run[..|run| - 1], run[|run| - 1];
      assert run == before + [last];
      CounterIsTheSum(before, paths, unit);
      SharesStep(before, last, paths, unit);
    }
  }

  lemma SharesNonNegative(run: seq<Event>, paths: set<PathId>, unit: Unit)
    requires AllSafe(run, paths)
    ensures forall p :: p in paths ==> Shares(run, paths, unit)[p] >= 0
  {
    forall p | p in paths
      ensures Shares(run, paths, unit)[p] >= 0
    {
      SafeHeldNonNegative(Of(run, p), unit);
    }
  }

  /** When all data paths are safe, the counters stay between zero and the limits ... */
  lemma {:induction false} CountersStayInRange(run: seq<Event>, paths: set<PathId>, limit: Unit -> nat, unit: Unit)
    requires AllSafe(run, paths) && LegalRun(run, limit) && Within(run, paths)
    ensures 0 <= Counter(run, unit) <= limit(unit)
  {
    CounterIsTheSum(run, paths, unit);
    SharesNonNegative(run, paths, unit);
    CounterBounded(run, limit, unit);
  }

  lemma {:induction false} CounterBounded(run: seq<Event>, limit: Unit -> nat, unit: Unit)
    requires LegalRun(run, limit)
    ensures Counter(run, unit) <= limit(unit)
  {
    if run != [] {
      CounterBounded(run[..|run| - 1], limit, unit);
    }
  }

  /** ... and the subtraction that would abort the program never does. */
  lemma SubtractionNeverUnderflows(run: seq<Event>, next: Event, paths: set<PathId>)
    requires Within(run, paths) && AllSafe(run, paths)
    requires next.path in paths && Safe(Of(run, next.path) + [next.op])
    ensures next.op.Sub? ==> next.op.n <= Counter(run, next.op.unit)
  {
    var trace := Of(run, next.path);
    assert (trace + [next.op])[..|trace|] == trace;
    CounterIsTheSum(run, paths, next.op.unit);
    SharesNonNegative(run, paths, next.op.unit);
    TotalCovers(Shares(run, paths, next.op.unit), next.path);
  }

  /** When every data path has given everything back, the counters are zero. */
  lemma IdleBudgetIsEmpty(run: seq<Event>, paths: set<PathId>, unit: Unit)
    requires Within(run, paths)
    requires forall p :: p in paths ==> Held(Of(run, p), unit) == 0
    ensures Counter(run, unit) == 0
  {
    CounterIsTheSum(run, paths, unit);
    TotalOfZeros(Shares(run, paths, unit));
  }
}
