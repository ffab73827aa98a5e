/**
  The receive ledger of the realtime experiment (src/realtime.rs, `ReceiveAccounting`). The payload generator
  is a parameter: every property holds for any function from sequence numbers to payloads.
 */
module RealtimeLedger {
  import opened Wrappers
  import opened Bytes
  import opened RealtimeCodec
  import opened RealtimeBatch

  const DEADLINE_MICROS: nat := 300_000

  /** What the sender knows: when each sequence was generated, how many batches there are, the payloads. */
  datatype Experiment = Experiment(generated: seq<nat>, batches: nat, payloadOf: nat -> seq<byte>)

  /** A datagram and when it arrived, in microseconds after the start; negative if before it. */
  datatype Event = Event(data: seq<byte>, elapsed: int)

  datatype Ledger = Ledger(
    firstCorrect: seq<bool>, latencies: seq<nat>, observed: nat, decoded: nat, valid: nat, late: nat,
    duplicate: nat, malformed: nat, invalidBatch: nat, invalidSequence: nat, timestampErrors: nat,
    digestErrors: nat, contentErrors: nat)

  /** Addition on a counter that stops at `cap`; the program's counters stop at the largest 64-bit number. */
  function CapAdd(cap: nat, a: nat, b: nat): nat {
    Min(a + b, cap)
  }

  function Unmarked(n: nat): seq<bool> {
    seq(n, _ => false)
  }

  function New(logicalMessages: nat): Ledger {
    Ledger(Unmarked(logicalMessages), [], 0, 0, 0, 0, 0, 0, 0, 0, 0, 0, 0)
  }

  /** `error_messages`, in arithmetic that saturates. */
  function ErrorMessages(l: Ledger, cap: nat): nat {
    var a := CapAdd(cap, Min(l.malformed * BATCH_MESSAGES, cap), l.invalidBatch);
    var b := CapAdd(cap, CapAdd(cap, a, l.invalidSequence), l.timestampErrors);
    CapAdd(cap, CapAdd(cap, b, l.digestErrors), l.contentErrors)
  }

  datatype Verdict = WrongSequence | WrongTime | WrongDigest | WrongContent | Correct

  function Judge(e: Experiment, received: nat, expected: nat, m: DecodedMessage): (v: Verdict)
    ensures v.Correct? ==> expected < |e.generated| && m.micros <= received
  {
    if m.sequence != expected || expected >= |e.generated| then WrongSequence
    else if m.micros != e.generated[expected] || m.micros > received then WrongTime
    else if Digest32(m.payload) != m.digest then WrongDigest
    else if m.payload != e.payloadOf(m.sequence) then WrongContent
    else Correct
  }

  /** A correct message counts once; the latency decides whether in time. */
  function Tally(l: Ledger, v: Verdict, expected: nat, latency: int, cap: nat): Ledger
    requires v.Correct? ==> expected < |l.firstCorrect| && latency >= 0
  {
    match v
    case WrongSequence => l.(invalidSequence := CapAdd(cap, l.invalidSequence, 1))
    case WrongTime => l.(timestampErrors := CapAdd(cap, l.timestampErrors, 1))
    case WrongDigest => l.(digestErrors := CapAdd(cap, l.digestErrors, 1))
    case WrongContent => l.(contentErrors := CapAdd(cap, l.contentErrors, 1))
    case Correct =>
      if l.firstCorrect[expected] then l.(duplicate := CapAdd(cap, l.duplicate, 1))
      else
        var marked := l.(firstCorrect := l.firstCorrect[expected := true], latencies := l.latencies + [latency]);
        if latency <= DEADLINE_MICROS then marked.(valid := CapAdd(cap, l.valid, 1))
        else marked.(late := CapAdd(cap, l.late, 1))
  }

  function TallyOne(l: Ledger, e: Experiment, received: nat, batch: Batch, slot: nat, cap: nat): Ledger
    requires slot < |batch.messages| && |l.firstCorrect| == |e.generated|
  {
    var expected, m := batch.batchId * BATCH_MESSAGES + slot, batch.messages[slot];
    Tally(l, Judge(e, received, expected, m), expected, received - m.micros, cap)
  }

  /** The first `n` messages of a batch, in order. */
  function TallyFirst(l: Ledger, e: Experiment, received: nat, batch: Batch, n: nat, cap: nat): (r: Ledger)
    requires n <= |batch.messages| && |l.firstCorrect| == |e.generated|
    ensures |r.firstCorrect| == |l.firstCorrect|
  {
    if n == 0 then l else TallyOne(TallyFirst(l, e, received, batch, n - 1, cap), e, received, batch, n - 1, cap)
  }

  predicate Timely(ev: Event) {
    0 <= ev.elapsed <= U64_MAX
  }

  /** The ledger after a datagram; `record` returns an error exactly when it is not timely. */
  function Record(l: Ledger, e: Experiment, ev: Event, cap: nat): (r: Ledger)
    requires |l.firstCorrect| == |e.generated|
    ensures |r.firstCorrect| == |l.firstCorrect|
  {
    var seen := l.(observed := CapAdd(cap, l.observed, 1));
    if !Timely(ev) then seen
    else
      match Decode(ev.data)
      case None => seen.(malformed := CapAdd(cap, l.malformed, 1))
      case Some(batch) =>
        var read := seen.(decoded := CapAdd(cap, l.decoded, 1));
        if batch.batchId >= e.batches then read.(invalidBatch := CapAdd(cap, l.invalidBatch, BATCH_MESSAGES))
        else TallyFirst(read, e, ev.elapsed, batch, |batch.messages|, cap)
  }

  function RecordAll(l: Ledger, e: Experiment, events: seq<Event>, cap: nat): (r: Ledger)
    requires |l.firstCorrect| == |e.generated|
    ensures |r.firstCorrect| == |l.firstCorrect|
  {
    if events == [] then l else Record(RecordAll(l, e, events[..|events| - 1], cap), e, events[|events| - 1], cap)
  }

  class ReceiveAccounting {
    var firstCorrect: seq<bool>
    var latencies: seq<nat>
    var observed: nat
    var decoded: nat
    var valid: nat
    var late: nat
    var duplicate: nat
    var malformed: nat
    var invalidBatch: nat
    var invalidSequence: nat
    var timestampErrors: nat
    var digestErrors: nat
    var contentErrors: nat

    ghost function Contents(): Ledger
      reads this
    {
      Ledger(firstCorrect, latencies, observed, decoded, valid, late, duplicate, malformed, invalidBatch,
             invalidSequence, timestampErrors, digestErrors, contentErrors)
    }

    constructor (logicalMessages: nat)
      ensures Contents() == New(logicalMessages)
    {
      firstCorrect := Unmarked(logicalMessages);
      latencies := [];
      observed, decoded, valid, late, duplicate, malformed := 0, 0, 0, 0, 0, 0;
      invalidBatch, invalidSequence, timestampErrors, digestErrors, contentErrors := 0, 0, 0, 0, 0;
    }

    method RecordEvent(ev: Event, e: Experiment) returns (ok: bool)
      requires |firstCorrect| == |e.generated|
      modifies this
      ensures Contents() == Record(old(Contents()), e, ev, U64_MAX)
      ensures ok <==> 0 <= ev.elapsed <= 0xFFFF_FFFF_FFFF_FFFF
    {
      hide Decode, Judge, TallyFirst;
      observed := SatAdd(observed, 1);
      if !Timely(ev) {
        return false;
      }
      var received := ev.elapsed;
      var batch := DecodeBatch(ev.data);
      if batch.None? {
        malformed := SatAdd(malformed, 1);
        return true;
      }
      decoded := SatAdd(decoded, 1);
      var batchId, messages := batch.value.batchId, batch.value.messages;
      if batchId >= e.batches {
        invalidBatch := SatAdd(invalidBatch, BATCH_MESSAGES);
        return true;
      }
      ghost var read := Contents();
      TallyNone(read, e, received, batch.value, U64_MAX);
      for slot := 0 to |messages|
        invariant |firstCorrect| == |e.generated|
        invariant Contents() == TallyFirst(read, e, received, batch.value, slot, U64_MAX)
      {
        TallyNext(read, e, received, batch.value, slot, U64_MAX);
        RecordMessage(e, received, batchId * BATCH_MESSAGES + slot, messages[slot]);
      }
      return true;
    }

    method RecordMessage(e: Experiment, received: nat, expected: nat, m: DecodedMessage)
      requires |firstCorrect| == |e.generated|
      modifies this
      ensures Contents() ==
                Tally(old(Contents()), Judge(e, received, expected, m), expected, received - m.micros, U64_MAX)
    {
      hide Digest32;
      if m.sequence != expected || expected >= |e.generated| {
        invalidSequence := SatAdd(invalidSequence, 1);
      } else if m.micros != e.generated[expected] || m.micros > received {
        timestampErrors := SatAdd(timestampErrors, 1);
      } else if Digest32(m.payload) != m.digest {
        digestErrors := SatAdd(digestErrors, 1);
      } else if m.payload != e.payloadOf(m.sequence) {
        contentErrors := SatAdd(contentErrors, 1);
      } else if firstCorrect[expected] {
        duplicate := SatAdd(duplicate, 1);
      } else {
        firstCorrect := firstCorrect[expected := true];
        var latency := received - m.micros;
        latencies := latencies + [latency];
        if latency <= DEADLINE_MICROS {
          valid := SatAdd(valid, 1);
        } else {
          late := SatAdd(late, 1);
        }
      }
    }
  }

  lemma TallyNone(l: Ledger, e: Experiment, received: nat, batch: Batch, cap: nat)
    requires |l.firstCorrect| == |e.generated|
    ensures TallyFirst(l, e, received, batch, 0, cap) == l
  {
  }

  lemma TallyNext(l: Ledger, e: Experiment, received: nat, batch: Batch, slot: nat, cap: nat)
    requires |l.firstCorrect| == |e.generated| && slot < |batch.messages|
    ensures TallyFirst(l, e, received, batch, slot + 1, cap) ==
              TallyOne(TallyFirst(l, e, received, batch, slot, cap), e, received, batch, slot, cap)
  {
  }

  // ----- conservation

  /** All messages accounted for, in unbounded arithmetic. */
  function Accounted(l: Ledger): nat {
    l.valid + l.late + l.duplicate + Errors(l)
  }

  function Errors(l: Ledger): nat {
    l.malformed * BATCH_MESSAGES + l.invalidBatch + l.invalidSequence + l.timestampErrors + l.digestErrors
    + l.contentErrors
  }

  function CountTrue(marks: seq<bool>): (n: nat)
    ensures n <= |marks|
  {
    if marks == [] then 0 else (if marks[0] then 1 else 0) + CountTrue(marks[1..])
  }

  function InTime(latencies: seq<nat>): nat {
    if latencies == [] then 0
    else InTime(latencies[..|latencies| - 1]) + (if latencies[|latencies| - 1] <= DEADLINE_MICROS then 1 else 0)
  }

  lemma {:induction false} CountTrueUpdate(marks: seq<bool>, i: nat)
    requires i < |marks| && !marks[i]
    ensures CountTrue(marks[i := true]) == CountTrue(marks) + 1
    decreases i
  {
    if i == 0 {
      assert marks[i := true][1..] == marks[1..];
    } else {
      CountTrueUpdate(marks[1..], i - 1);
      assert marks[i := true][1..] == marks[1..][i - 1 := true];
    }
  }

  /** The marks, the latencies and the two counters tell the same story. */
  ghost predicate Marked(l: Ledger) {
    && CountTrue(l.firstCorrect) == l.valid + l.late == |l.latencies|
    && InTime(l.latencies) == l.valid
  }

  lemma InTimeSnoc(latencies: seq<nat>, latency: nat)
    ensures InTime(latencies + [latency]) == InTime(latencies) + (if latency <= DEADLINE_MICROS then 1 else 0)
  {
    var more := latencies + [latency];
    assert more[..|more| - 1] == latencies;
  }

  lemma TallyMarks(l: Ledger, v: Verdict, expected: nat, latency: int, cap: nat)
    requires v.Correct? ==> expected < |l.firstCorrect| && latency >= 0
    requires Marked(l) && l.valid < cap && l.late < cap
    ensures Marked(Tally(l, v, expected, latency, cap))
  {
    hide CountTrue, InTime;
    if v.Correct? && !l.firstCorrect[expected] {
      CountTrueUpdate(l.firstCorrect, expected);
      InTimeSnoc(l.latencies, latency);
    }
  }

  /** While nothing saturates, each message judged moves the account by one. */
  lemma TallyCounts(l: Ledger, v: Verdict, expected: nat, latency: int, cap: nat)
    requires v.Correct? ==> expected < |l.firstCorrect| && latency >= 0
    requires Marked(l) && Accounted(l) < cap
    ensures var r := Tally(l, v, expected, latency, cap);
            && Marked(r) && Accounted(r) == Accounted(l) + 1
            && r.observed == l.observed && r.decoded == l.decoded && r.malformed == l.malformed
  {
    hide Marked;
    TallyMarks(l, v, expected, latency, cap);
  }

  lemma {:induction false} TallyFirstCounts(
    l: Ledger, e: Experiment, received: nat, batch: Batch, n: nat, cap: nat)
    requires n <= |batch.messages| && |l.firstCorrect| == |e.generated|
    requires Marked(l) && Accounted(l) + n <= cap
    ensures var r := TallyFirst(l, e, received, batch, n, cap);
            && Marked(r) && Accounted(r) == Accounted(l) + n
            && r.observed == l.observed && r.decoded == l.decoded && r.malformed == l.malformed
  {
    hide Marked, Tally, Judge;
    if n > 0 {
      TallyFirstCounts(l, e, received, batch, n - 1, cap);
      var before := TallyFirst(l, e, received, batch, n - 1, cap);
      var expected, m := batch.batchId * BATCH_MESSAGES + (n - 1), batch.messages[n - 1];
      TallyCounts(before, Judge(e, received, expected, m), expected, received - m.micros, cap);
    }
  }

  /** The conservation law with what goes with it. */
  ghost predicate Conserved(l: Ledger) {
    && BATCH_MESSAGES * l.observed == Accounted(l)
    && l.observed == l.decoded + l.malformed
    && Marked(l)
  }

  lemma DecodedHasFive(data: seq<byte>)
    requires Decode(data).Some?
    ensures |Decode(data).value.messages| == BATCH_MESSAGES
  {
    DecodeSomeMeans(data);
  }

  lemma RecordConserves(l: Ledger, e: Experiment, ev: Event, cap: nat)
    requires |l.firstCorrect| == |e.generated| && Conserved(l) && Timely(ev)
    requires BATCH_MESSAGES * (l.observed + 1) <= cap
    ensures Conserved(Record(l, e, ev, cap)) && Record(l, e, ev, cap).observed == l.observed + 1
  {
    hide Decode, CountTrue, InTime, Judge, Tally, TallyFirst;
    var seen := l.(observed := CapAdd(cap, l.observed, 1));
    var batch := Decode(ev.data);
    if batch.Some? && batch.value.batchId < e.batches {
      DecodedHasFive(ev.data);
      var read := seen.(decoded := CapAdd(cap, l.decoded, 1));
      TallyFirstCounts(read, e, ev.elapsed, batch.value, BATCH_MESSAGES, cap);
    }
  }

  lemma NewIsConserved(n: nat)
    ensures Conserved(New(n))
  {
    hide CountTrue, Unmarked;
    NothingMarked(n);
  }

  lemma {:induction false} NothingMarked(n: nat)
    ensures CountTrue(Unmarked(n)) == 0
  {
    if n > 0 {
      NothingMarked(n - 1);
      assert Unmarked(n)[1..] == Unmarked(n - 1);
    }
  }

  ghost predicate AllTimely(events: seq<Event>) {
    forall i :: 0 <= i < |events| ==> Timely(events[i])
  }

  /** With counters wide enough for the run, five times the datagrams is everything in the account. */
  lemma {:induction false} WideRunConserves(e: Experiment, events: seq<Event>, cap: nat)
    requires AllTimely(events) && BATCH_MESSAGES * |events| <= cap
    ensures var l := RecordAll(New(|e.generated|), e, events, cap);
            Conserved(l) && l.observed == |events|
    decreases |events|
  {
    hide Record, Conserved;
    var start := New(|e.generated|);
    if events == [] {
      NewIsConserved(|e.generated|);
    } else {
      var init := events[..|events| - 1];
      WideRunConserves(e, init, cap);
      RecordConserves(RecordAll(start, e, init, cap), e, events[|events| - 1], cap);
    }
  }

  // ----- counters that saturate

  /** The same ledger with every counter cut off at `cap`. */
  function Clip(l: Ledger, cap: nat): Ledger {
    l.(observed := Min(l.observed, cap), decoded := Min(l.decoded, cap), valid := Min(l.valid, cap),
       late := Min(l.late, cap), duplicate := Min(l.duplicate, cap), malformed := Min(l.malformed, cap),
       invalidBatch := Min(l.invalidBatch, cap), invalidSequence := Min(l.invalidSequence, cap),
       timestampErrors := Min(l.timestampErrors, cap), digestErrors := Min(l.digestErrors, cap),
       contentErrors := Min(l.contentErrors, cap))
  }

  lemma ClipTally(l: Ledger, v: Verdict, expected: nat, latency: int, cap: nat, wide: nat)
    requires v.Correct? ==> expected < |l.firstCorrect| && latency >= 0
    requires cap <= wide
    ensures Tally(Clip(l, cap), v, expected, latency, cap) == Clip(Tally(l, v, expected, latency, wide), cap)
  {
    hide Min, CapAdd;
    match v
    case WrongSequence => ClipOne(l.invalidSequence, cap, wide);
    case WrongTime => ClipOne(l.timestampErrors, cap, wide);
    case WrongDigest => ClipOne(l.digestErrors, cap, wide);
    case WrongContent => ClipOne(l.contentErrors, cap, wide);
    case Correct =>
      ClipOne(l.duplicate, cap, wide);
      ClipOne(l.valid, cap, wide);
      ClipOne(l.late, cap, wide);
  }

  lemma ClipOne(n: nat, cap: nat, wide: nat)
    requires cap <= wide
    ensures CapAdd(cap, Min(n, cap), 1) == Min(CapAdd(wide, n, 1), cap)
  {
  }

  lemma {:induction false} ClipTallyFirst(
    l: Ledger, e: Experiment, received: nat, batch: Batch, n: nat, cap: nat, wide: nat)
    requires n <= |batch.messages| && |l.firstCorrect| == |e.generated| && cap <= wide
    ensures TallyFirst(Clip(l, cap), e, received, batch, n, cap) ==
              Clip(TallyFirst(l, e, received, batch, n, wide), cap)
  {
    hide Tally, Judge;
    if n > 0 {
      ClipTallyFirst(l, e, received, batch, n - 1, cap, wide);
      var before := TallyFirst(l, e, received, batch, n - 1, wide);
      var expected, m := batch.batchId * BATCH_MESSAGES + (n - 1), batch.messages[n - 1];
      ClipTally(before, Judge(e, received, expected, m), expected, received - m.micros, cap, wide);
    }
  }

  lemma ClipRecord(l: Ledger, e: Experiment, ev: Event, cap: nat, wide: nat)
    requires |l.firstCorrect| == |e.generated| && cap <= wide
    ensures Record(Clip(l, cap), e, ev, cap) == Clip(Record(l, e, ev, wide), cap)
  {
    hide Decode, TallyFirst;
    var batch := Decode(ev.data);
    if Timely(ev) && batch.Some? && batch.value.batchId < e.batches {
      var read := l.(observed := CapAdd(wide, l.observed, 1), decoded := CapAdd(wide, l.decoded, 1));
      ClipTallyFirst(read, e, ev.elapsed, batch.value, |batch.value.messages|, cap, wide);
    }
  }

  /** Saturating counters are the true counters cut off; marks and latencies do not depend on them. */
  lemma {:induction false} SaturatedRun(e: Experiment, events: seq<Event>, cap: nat, wide: nat)
    requires cap <= wide
    ensures RecordAll(New(|e.generated|), e, events, cap) == Clip(RecordAll(New(|e.generated|), e, events, wide), cap)
    decreases |events|
  {
    hide Record;
    if events != [] {
      var init := events[..|events| - 1];
      SaturatedRun(e, init, cap, wide);
      ClipRecord(RecordAll(New(|e.generated|), e, init, wide), e, events[|events| - 1], cap, wide);
    }
  }

  /** The conservation law as the report's reader would check it. */
  predicate LawHolds(l: Ledger) {
    BATCH_MESSAGES * l.observed == l.valid + l.late + l.duplicate + ErrorMessages(l, U64_MAX)
  }

  /** Counters wide enough for a run. */
  function Wide(events: seq<Event>): nat {
    Max(U64_MAX, BATCH_MESSAGES * |events|)
  }

  /**
    After every run of successful calls the law holds, if and only if the four true totals that it adds up,
    of valid, late, duplicate and error messages, each fit 64 bits.
   */
  lemma RunConservesExactly(e: Experiment, events: seq<Event>)
    requires AllTimely(events)
    ensures var l, ideal := RecordAll(New(|e.generated|), e, events, U64_MAX),
                            RecordAll(New(|e.generated|), e, events, Wide(events));
            && Conserved(ideal) && ideal.observed == |events|
            && (LawHolds(l) <==>
                  && ideal.valid <= U64_MAX && ideal.late <= U64_MAX && ideal.duplicate <= U64_MAX
                  && Errors(ideal) <= U64_MAX)
  {
    hide RecordAll, CountTrue, InTime;
    WideRunConserves(e, events, Wide(events));
    SaturatedRun(e, events, U64_MAX, Wide(events));
    ClippedErrors(RecordAll(New(|e.generated|), e, events, Wide(events)));
  }

  lemma ClippedErrors(l: Ledger)
    ensures ErrorMessages(Clip(l, U64_MAX), U64_MAX) == Min(Errors(l), U64_MAX)
  {
    hide Min, CapAdd;
    var a := l.malformed * BATCH_MESSAGES;
    ClippedFive(l.malformed, U64_MAX);
    ClippedSum(a, l.invalidBatch, U64_MAX);
    ClippedSum(a + l.invalidBatch, l.invalidSequence, U64_MAX);
    ClippedSum(a + l.invalidBatch + l.invalidSequence, l.timestampErrors, U64_MAX);
    ClippedSum(a + l.invalidBatch + l.invalidSequence + l.timestampErrors, l.digestErrors, U64_MAX);
    ClippedSum(a + l.invalidBatch + l.invalidSequence + l.timestampErrors + l.digestErrors, l.contentErrors, U64_MAX);
  }

  lemma ClippedSum(a: nat, b: nat, cap: nat)
    ensures CapAdd(cap, Min(a, cap), Min(b, cap)) == Min(a + b, cap)
  {
  }

  lemma ClippedFive(n: nat, cap: nat)
    ensures Min(Min(n, cap) * BATCH_MESSAGES, cap) == Min(n * BATCH_MESSAGES, cap)
  {
  }

  /** In particular it holds for every run whose message count fits 64 bits. */
  lemma RunConserves(e: Experiment, events: seq<Event>)
    requires AllTimely(events) && BATCH_MESSAGES * |events| <= U64_MAX
    ensures var l := RecordAll(New(|e.generated|), e, events, U64_MAX);
            LawHolds(l) && l.observed == |events| && l.observed == l.decoded + l.malformed
  {
    hide RecordAll, CountTrue, InTime;
    RunConservesExactly(e, events);
    SaturatedRun(e, events, U64_MAX, Wide(events));
  }

  /** A run of malformed datagrams counts nothing else, until the counters are full. */
  lemma {:induction false} MalformedRun(e: Experiment, events: seq<Event>)
    requires AllTimely(events) && forall i :: 0 <= i < |events| ==> Decode(events[i].data) == None
    ensures RecordAll(New(|e.generated|), e, events, U64_MAX) ==
              New(|e.generated|).(observed := Min(|events|, U64_MAX), malformed := Min(|events|, U64_MAX))
    decreases |events|
  {
    hide Decode;
    if events != [] {
      MalformedRun(e, events[..|events| - 1]);
    }
  }

  /** On such runs the law holds exactly while their message count fits 64 bits. */
  lemma LawHoldsExactlyUpToTheLimit(e: Experiment, events: seq<Event>)
    requires AllTimely(events) && forall i :: 0 <= i < |events| ==> Decode(events[i].data) == None
    ensures LawHolds(RecordAll(New(|e.generated|), e, events, U64_MAX)) <==> BATCH_MESSAGES * |events| <= U64_MAX
  {
    hide RecordAll, Decode;
    MalformedRun(e, events);
  }

  /** So it does fail: for the shortest run of empty datagrams that is too long, and for every longer one. */
  lemma LawFailsPastTheLimit(e: Experiment, n: nat)
    requires BATCH_MESSAGES * n > U64_MAX
    ensures !LawHolds(RecordAll(New(|e.generated|), e, EmptyDatagrams(n), U64_MAX))
  {
    hide RecordAll, LawHolds;
    LawHoldsExactlyUpToTheLimit(e, EmptyDatagrams(n));
  }

  /** Empty datagrams that arrive at the start of the experiment. */
  function EmptyDatagrams(n: nat): (events: seq<Event>)
    ensures |events| == n && AllTimely(events)
    ensures forall i :: 0 <= i < n ==> Decode(events[i].data) == None
  {
    seq(n, _ => Event([], 0))
  }

  /** Valid plus late is the number of sequences marked, with one latency each, after every run at all. */
  lemma RunMarks(e: Experiment, events: seq<Event>)
    requires AllTimely(events) && |e.generated| <= U64_MAX
    ensures Marked(RecordAll(New(|e.generated|), e, events, U64_MAX))
  {
    hide RecordAll, CountTrue, InTime;
    WideRunConserves(e, events, Wide(events));
    SaturatedRun(e, events, U64_MAX, Wide(events));
  }

  // ----- what was sent, and arrives

  function SentBatch(e: Experiment, b: nat): seq<Message>
    requires BATCH_MESSAGES * b + 5 <= |e.generated| <= U32_MAX
    requires forall i :: 0 <= i < |e.generated| ==> e.generated[i] <= U64_MAX
  {
    seq(5, i requires 0 <= i < 5 =>
      Message(BATCH_MESSAGES * b + i, e.generated[BATCH_MESSAGES * b + i], e.payloadOf(BATCH_MESSAGES * b + i)))
  }

  ghost predicate ValidExperiment(e: Experiment) {
    && |e.generated| == BATCH_MESSAGES * e.batches && |e.generated| <= U32_MAX
    && (forall i :: 0 <= i < |e.generated| ==> e.generated[i] <= U64_MAX)
    && (forall i :: 0 <= i < |e.generated| ==> |e.payloadOf(i)| == MESSAGE_SIZE)
  }

  /** An unaltered copy of batch `b` that arrives after its messages were generated. */
  ghost predicate CleanCopy(e: Experiment, ev: Event, b: nat)
    requires ValidExperiment(e)
  {
    && b < e.batches && Timely(ev)
    && Encode(b, SentBatch(e, b)) == Ok(ev.data)
    && (forall k :: BATCH_MESSAGES * b <= k < BATCH_MESSAGES * b + 5 ==> e.generated[k] <= ev.elapsed)
  }

  lemma CleanCopyDecodes(e: Experiment, ev: Event, b: nat)
    requires ValidExperiment(e) && CleanCopy(e, ev, b)
    ensures Decode(ev.data) == Some(AsSent(b, SentBatch(e, b)))
    ensures forall i :: 0 <= i < 5 ==>
              Judge(e, ev.elapsed, BATCH_MESSAGES * b + i, AsSent(b, SentBatch(e, b)).messages[i]) == Correct
  {
    hide Encode, Decode, Digest32;
    var ms := SentBatch(e, b);
    assert Sized(ms);
    RoundTripExactly(b, ms);
    forall i | 0 <= i < 5
      ensures Judge(e, ev.elapsed, BATCH_MESSAGES * b + i, AsSent(b, ms).messages[i]) == Correct
    {
      assert ms[i].micros == e.generated[BATCH_MESSAGES * b + i] <= ev.elapsed;
    }
  }

  function ErrorCounts(l: Ledger): (nat, nat, nat, nat, nat, nat) {
    (l.malformed, l.invalidBatch, l.invalidSequence, l.timestampErrors, l.digestErrors, l.contentErrors)
  }

  /** A correct copy marks its five sequences, whatever was marked before, and raises no error. */
  lemma {:induction false} CorrectMessagesMark(
    l: Ledger, e: Experiment, received: nat, batch: Batch, n: nat, cap: nat)
    requires n <= |batch.messages| == 5 && |l.firstCorrect| == |e.generated|
    requires forall i :: 0 <= i < 5 ==>
               Judge(e, received, batch.batchId * BATCH_MESSAGES + i, batch.messages[i]) == Correct
    ensures var r := TallyFirst(l, e, received, batch, n, cap);
            && ErrorCounts(r) == ErrorCounts(l)
            && forall k :: 0 <= k < |l.firstCorrect| ==>
                 (r.firstCorrect[k] <==>
                    l.firstCorrect[k] || batch.batchId * BATCH_MESSAGES <= k < batch.batchId * BATCH_MESSAGES + n)
  {
    hide Judge, Tally, TallyFirst, ErrorCounts;
    if n == 0 {
      TallyNone(l, e, received, batch, cap);
    } else {
      CorrectMessagesMark(l, e, received, batch, n - 1, cap);
      TallyNext(l, e, received, batch, n - 1, cap);
      var expected := batch.batchId * BATCH_MESSAGES + (n - 1);
      CorrectIsInRange(e, received, expected, batch.messages[n - 1]);
      CorrectMarksOne(TallyFirst(l, e, received, batch, n - 1, cap), expected,
                      received - batch.messages[n - 1].micros, cap);
    }
  }

  lemma CorrectIsInRange(e: Experiment, received: nat, expected: nat, m: DecodedMessage)
    requires Judge(e, received, expected, m) == Correct
    ensures expected < |e.generated| && m.micros <= received
  {
  }

  lemma CorrectMarksOne(l: Ledger, expected: nat, latency: nat, cap: nat)
    requires expected < |l.firstCorrect|
    ensures var r := Tally(l, Correct, expected, latency, cap);
            r.firstCorrect == l.firstCorrect[expected := true] && ErrorCounts(r) == ErrorCounts(l)
  {
    assert l.firstCorrect[expected] ==> l.firstCorrect[expected := true] == l.firstCorrect;
  }

  lemma CleanCopyMarks(l: Ledger, e: Experiment, ev: Event, b: nat, cap: nat)
    requires ValidExperiment(e) && CleanCopy(e, ev, b) && |l.firstCorrect| == |e.generated|
    ensures var r := Record(l, e, ev, cap);
            && ErrorCounts(r) == ErrorCounts(l)
            && forall k :: 0 <= k < |l.firstCorrect| ==>
                 (r.firstCorrect[k] <==> l.firstCorrect[k] || k / BATCH_MESSAGES == b)
  {
    hide Encode, Decode, Judge, TallyFirst;
    CleanCopyDecodes(e, ev, b);
    var batch := AsSent(b, SentBatch(e, b));
    var read := l.(observed := CapAdd(cap, l.observed, 1), decoded := CapAdd(cap, l.decoded, 1));
    CorrectMessagesMark(read, e, ev.elapsed, batch, 5, cap);
  }

  ghost predicate CleanRun(e: Experiment, events: seq<Event>, batches: seq<nat>)
    requires ValidExperiment(e)
  {
    |events| == |batches| && forall i :: 0 <= i < |events| ==> CleanCopy(e, events[i], batches[i])
  }

  /**
    Copies of sent batches, in any order and any number: no errors, and a sequence is received exactly when
    some copy of its batch arrived.
   */
  lemma {:induction false} CleanRunMarks(e: Experiment, events: seq<Event>, batches: seq<nat>)
    requires ValidExperiment(e) && CleanRun(e, events, batches)
    ensures var l := RecordAll(New(|e.generated|), e, events, U64_MAX);
            && ErrorCounts(l) == (0, 0, 0, 0, 0, 0)
            && forall k :: 0 <= k < |e.generated| ==> (l.firstCorrect[k] <==> k / BATCH_MESSAGES in batches)
    decreases |events|
  {
    hide Record, CleanCopy, ValidExperiment;
    if events != [] {
      var last := |events| - 1;
      CleanRunMarks(e, events[..last], batches[..last]);
      var before := RecordAll(New(|e.generated|), e, events[..last], U64_MAX);
      CleanCopyMarks(before, e, events[last], batches[last], U64_MAX);
      assert batches == batches[..last] + [batches[last]];
    }
  }

  /** `lost_messages` of the report. */
  function Lost(l: Ledger, logicalMessages: nat): nat {
    SatSub(logicalMessages, l.valid + l.late)
  }

  lemma {:induction false} AllTrue(marks: seq<bool>)
    ensures CountTrue(marks) == |marks| <==> forall i :: 0 <= i < |marks| ==> marks[i]
    decreases |marks|
  {
    if marks != [] {
      AllTrue(marks[1..]);
      assert forall i :: 0 < i < |marks| ==> marks[i] == marks[1..][i - 1];
      if CountTrue(marks) == |marks| {
        assert marks[0];
      }
    }
  }

  /** Nothing is lost exactly when every batch arrived at least once. */
  lemma NothingLostExactly(e: Experiment, events: seq<Event>, batches: seq<nat>)
    requires ValidExperiment(e) && CleanRun(e, events, batches)
    ensures Lost(RecordAll(New(|e.generated|), e, events, U64_MAX), |e.generated|) == 0 <==>
              forall b :: 0 <= b < e.batches ==> b in batches
  {
    hide Record, RecordAll, CountTrue, InTime, CleanCopy;
    var l := RecordAll(New(|e.generated|), e, events, U64_MAX);
    forall i | 0 <= i < |events|
      ensures Timely(events[i])
    {
      CleanIsTimely(e, events[i], batches[i]);
    }
    RunMarks(e, events);
    CleanRunMarks(e, events, batches);
    AllTrue(l.firstCorrect);
    if forall i :: 0 <= i < |l.firstCorrect| ==> l.firstCorrect[i] {
      forall b | 0 <= b < e.batches
        ensures b in batches
      {
        assert l.firstCorrect[BATCH_MESSAGES * b] && BATCH_MESSAGES * b / BATCH_MESSAGES == b;
      }
    }
  }

  lemma CleanIsTimely(e: Experiment, ev: Event, b: nat)
    requires ValidExperiment(e) && CleanCopy(e, ev, b)
    ensures Timely(ev)
  {
  }
}
