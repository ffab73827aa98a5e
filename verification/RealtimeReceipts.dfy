/** What the receive ledger's marks, latencies and counters mean, in terms of the datagrams that arrived. */
module RealtimeReceipts {
  import opened Wrappers
  import opened Bytes
  import opened RealtimeCodec
  import opened RealtimeLedger

  // ----- one message

  /** The message is what the sender sent under this number, and it arrives no earlier than it was generated. */
  predicate Intact(e: Experiment, m: DecodedMessage, k: nat, received: nat) {
    && k < |e.generated| && e.generated[k] <= received
    && m.sequence == k && m.micros == e.generated[k]
    && m.payload == e.payloadOf(k) && m.digest == Digest32(e.payloadOf(k))
  }

  /** Each verdict with its condition; a message is correct exactly if it is intact. */
  lemma JudgeExact(e: Experiment, received: nat, expected: nat, m: DecodedMessage)
    ensures var v := Judge(e, received, expected, m);
            && (v.WrongSequence? <==> m.sequence != expected || expected >= |e.generated|)
            && (v.WrongTime? <==>
                  && m.sequence == expected < |e.generated|
                  && (m.micros != e.generated[expected] || m.micros > received))
            && (v.WrongDigest? <==>
                  && m.sequence == expected < |e.generated| && m.micros == e.generated[expected] <= received
                  && m.digest != Digest32(m.payload))
            && (v.WrongContent? <==>
                  && m.sequence == expected < |e.generated| && m.micros == e.generated[expected] <= received
                  && m.digest == Digest32(m.payload) && m.payload != e.payloadOf(expected))
            && (v.Correct? <==> Intact(e, m, expected, received))
  {
    hide Digest32;
  }

  // ----- a datagram

  /** The datagram is counted message by message. */
  predicate Readable(e: Experiment, ev: Event) {
    Timely(ev) && Decode(ev.data).Some? && Decode(ev.data).value.batchId < e.batches
  }

  /** The sequence number that the ledger expects in a slot. */
  function NumberOf(ev: Event, slot: nat): nat {
    if Decode(ev.data).Some? then Decode(ev.data).value.batchId * 5 + slot else slot
  }

  ghost predicate Brings(e: Experiment, ev: Event, slot: nat)
    requires slot < 5
  {
    Readable(e, ev) &&
    (DecodedHasFive(ev.data);
     Intact(e, Decode(ev.data).value.messages[slot], NumberOf(ev, slot), ev.elapsed))
  }

  /** Some slot of the datagram is an intact copy of message `k`. */
  ghost predicate BringsNumber(e: Experiment, ev: Event, k: nat) {
    Readable(e, ev) && k / 5 == Decode(ev.data).value.batchId && Brings(e, ev, k % 5)
  }

  /** Message `k` arrived intact in one of the datagrams. */
  ghost predicate Received(e: Experiment, events: seq<Event>, k: nat) {
    exists i :: 0 <= i < |events| && BringsNumber(e, events[i], k)
  }

  lemma ReceivedSnoc(e: Experiment, events: seq<Event>, ev: Event, k: nat)
    ensures Received(e, events + [ev], k) <==> Received(e, events, k) || BringsNumber(e, ev, k)
  {
    hide BringsNumber;
    var more := events + [ev];
    if Received(e, events, k) {
      var i :| 0 <= i < |events| && BringsNumber(e, events[i], k);
      assert BringsNumber(e, more[i], k);
    }
    if BringsNumber(e, ev, k) {
      assert BringsNumber(e, more[|events|], k);
    }
  }

  // ----- latencies

  /** The latencies that the first `n` slots of a datagram add: those of messages that had not arrived before. */
  ghost function NewLatencies(e: Experiment, before: seq<Event>, ev: Event, n: nat): seq<nat>
    requires n <= 5
  {
    if n == 0 then []
    else
      NewLatencies(e, before, ev, n - 1) +
      (if Brings(e, ev, n - 1) && !Received(e, before, NumberOf(ev, n - 1))
       then [LatencyOf(e, ev, NumberOf(ev, n - 1))] else [])
  }

  /** The time from generation to arrival. */
  function LatencyOf(e: Experiment, ev: Event, k: nat): nat {
    if k < |e.generated| && e.generated[k] <= ev.elapsed then ev.elapsed - e.generated[k] else 0
  }

  /** The latency of every message at its first intact arrival, in order of arrival. */
  ghost function FirstLatencies(e: Experiment, events: seq<Event>): seq<nat> {
    if events == [] then []
    else FirstLatencies(e, events[..|events| - 1]) + NewLatencies(e, events[..|events| - 1], events[|events| - 1], 5)
  }

  // ----- the ledger against them

  /** Marks and latencies of the ledger are those of the datagrams so far. */
  ghost predicate Tells(l: Ledger, e: Experiment, events: seq<Event>) {
    && |l.firstCorrect| == |e.generated|
    && (forall k :: 0 <= k < |e.generated| ==> (l.firstCorrect[k] <==> Received(e, events, k)))
    && l.latencies == FirstLatencies(e, events)
  }

  /** The same in the middle of a datagram, after its first `n` slots. */
  ghost predicate TellsFirst(l: Ledger, e: Experiment, before: seq<Event>, ev: Event, n: nat)
    requires Readable(e, ev) && n <= 5
  {
    && MarksFirst(l.firstCorrect, e, before, ev, n)
    && l.latencies == FirstLatencies(e, before) + NewLatencies(e, before, ev, n)
  }

  lemma BringsSlot(e: Experiment, ev: Event, slot: nat)
    requires Readable(e, ev) && slot < 5
    ensures BringsNumber(e, ev, NumberOf(ev, slot)) <==> Brings(e, ev, slot)
  {
    hide Decode, Brings;
    var b := Decode(ev.data).value.batchId;
    assert (b * 5 + slot) / 5 == b && (b * 5 + slot) % 5 == slot;
  }

  /** The marks after one more slot. */
  ghost predicate MarksFirst(marks: seq<bool>, e: Experiment, before: seq<Event>, ev: Event, n: nat)
    requires Readable(e, ev) && n <= 5
  {
    && |marks| == |e.generated|
    && (forall k :: 0 <= k < |e.generated| ==>
          (marks[k] <==> Received(e, before, k) || (BringsNumber(e, ev, k) && k < NumberOf(ev, n))))
  }

  lemma MarkOneMore(marks: seq<bool>, e: Experiment, before: seq<Event>, ev: Event, slot: nat)
    requires Readable(e, ev) && slot < 5 && MarksFirst(marks, e, before, ev, slot)
    ensures Brings(e, ev, slot) ==>
              && NumberOf(ev, slot) < |marks|
              && (marks[NumberOf(ev, slot)] <==> Received(e, before, NumberOf(ev, slot)))
              && MarksFirst(marks[NumberOf(ev, slot) := true], e, before, ev, slot + 1)
    ensures !Brings(e, ev, slot) ==> MarksFirst(marks, e, before, ev, slot + 1)
  {
    hide Decode, Received, Brings, BringsNumber, Readable;
    BringsSlot(e, ev, slot);
    BringsInRange(e, ev, slot);
    NextNumber(e, ev, slot);
  }

  lemma NextNumber(e: Experiment, ev: Event, slot: nat)
    requires Readable(e, ev)
    ensures Decode(ev.data).Some? && NumberOf(ev, slot + 1) == NumberOf(ev, slot) + 1
  {
    hide Decode;
  }

  lemma BringsInRange(e: Experiment, ev: Event, slot: nat)
    requires slot < 5 && Readable(e, ev)
    ensures Brings(e, ev, slot) ==> NumberOf(ev, slot) < |e.generated| && e.generated[NumberOf(ev, slot)] <= ev.elapsed
  {
    hide Decode, Digest32;
  }

  /** One slot's message marks its number and adds a latency if it is intact and new; else both stay. */
  lemma TallyOneTells(l: Ledger, e: Experiment, ev: Event, slot: nat, cap: nat)
    requires Readable(e, ev) && slot < 5 && |l.firstCorrect| == |e.generated|
    requires |Decode(ev.data).value.messages| == 5
    ensures var r, k := TallyOne(l, e, ev.elapsed, Decode(ev.data).value, slot, cap), NumberOf(ev, slot);
            if Brings(e, ev, slot) && !l.firstCorrect[k]
            then
              && r.firstCorrect == l.firstCorrect[k := true]
              && r.latencies == l.latencies + [ev.elapsed - e.generated[k]]
            else r.firstCorrect == l.firstCorrect && r.latencies == l.latencies
  {
    hide Decode, Judge, Digest32;
    JudgeExact(e, ev.elapsed, NumberOf(ev, slot), Decode(ev.data).value.messages[slot]);
  }

  lemma TellsOneMore(l: Ledger, e: Experiment, before: seq<Event>, ev: Event, slot: nat, cap: nat)
    requires Readable(e, ev) && slot < 5 && TellsFirst(l, e, before, ev, slot)
    requires |Decode(ev.data).value.messages| == 5
    ensures TellsFirst(TallyOne(l, e, ev.elapsed, Decode(ev.data).value, slot, cap), e, before, ev, slot + 1)
  {
    hide Decode, TallyOne, Received, FirstLatencies, Brings, MarksFirst, NumberOf;
    MarkOneMore(l.firstCorrect, e, before, ev, slot);
    BringsInRange(e, ev, slot);
    MarksLength(l.firstCorrect, e, before, ev, slot);
    TallyOneTells(l, e, ev, slot, cap);
    var k := NumberOf(ev, slot);
    if Brings(e, ev, slot) && !l.firstCorrect[k] {
      Associate(FirstLatencies(e, before), NewLatencies(e, before, ev, slot), ev.elapsed - e.generated[k]);
    } else if Brings(e, ev, slot) {
      assert l.firstCorrect[k := true] == l.firstCorrect;
    }
  }

  lemma MarksLength(marks: seq<bool>, e: Experiment, before: seq<Event>, ev: Event, n: nat)
    requires Readable(e, ev) && n <= 5 && MarksFirst(marks, e, before, ev, n)
    ensures |marks| == |e.generated|
  {
  }

  lemma Associate(a: seq<nat>, b: seq<nat>, x: nat)
    ensures a + b + [x] == a + (b + [x])
  {
  }

  lemma {:induction false} TellsFirstSlots(l: Ledger, e: Experiment, before: seq<Event>, ev: Event, n: nat, cap: nat)
    requires Readable(e, ev) && n <= 5 && |Decode(ev.data).value.messages| == 5
    requires |l.firstCorrect| == |e.generated| && TellsFirst(l, e, before, ev, 0)
    ensures TellsFirst(TallyFirst(l, e, ev.elapsed, Decode(ev.data).value, n, cap), e, before, ev, n)
  {
    hide Decode, TellsFirst, TallyOne;
    if n == 0 {
      TallyNone(l, e, ev.elapsed, Decode(ev.data).value, cap);
    } else {
      TellsFirstSlots(l, e, before, ev, n - 1, cap);
      TallyNext(l, e, ev.elapsed, Decode(ev.data).value, n - 1, cap);
      TellsOneMore(TallyFirst(l, e, ev.elapsed, Decode(ev.data).value, n - 1, cap), e, before, ev, n - 1, cap);
    }
  }

  lemma TellsStart(l: Ledger, e: Experiment, before: seq<Event>, ev: Event)
    requires Readable(e, ev) && Tells(l, e, before)
    ensures TellsFirst(l, e, before, ev, 0)
  {
    hide Decode, Received, FirstLatencies, Brings;
  }

  lemma TellsEnd(l: Ledger, e: Experiment, before: seq<Event>, ev: Event)
    requires Readable(e, ev) && TellsFirst(l, e, before, ev, 5)
    ensures Tells(l, e, before + [ev])
  {
    hide Decode, Received, Brings, NewLatencies;
    forall k | 0 <= k < |e.generated|
      ensures l.firstCorrect[k] <==> Received(e, before + [ev], k)
    {
      ReceivedSnoc(e, before, ev, k);
      assert BringsNumber(e, ev, k) ==> k < NumberOf(ev, 5);
    }
    FirstLatenciesSnoc(e, before, ev);
  }

  lemma FirstLatenciesSnoc(e: Experiment, before: seq<Event>, ev: Event)
    ensures FirstLatencies(e, before + [ev]) == FirstLatencies(e, before) + NewLatencies(e, before, ev, 5)
  {
    hide NewLatencies;
    assert (before + [ev])[..|before|] == before;
  }

  lemma {:induction false} NothingNew(e: Experiment, before: seq<Event>, ev: Event, n: nat)
    requires n <= 5 && !Readable(e, ev)
    ensures NewLatencies(e, before, ev, n) == []
    ensures forall k :: !BringsNumber(e, ev, k)
  {
    hide Decode, Received;
    if n > 0 {
      NothingNew(e, before, ev, n - 1);
    }
  }

  lemma UnreadableTells(l: Ledger, r: Ledger, e: Experiment, before: seq<Event>, ev: Event)
    requires !Readable(e, ev) && Tells(l, e, before)
    requires r.firstCorrect == l.firstCorrect && r.latencies == l.latencies
    ensures Tells(r, e, before + [ev])
  {
    hide Decode, Received, NewLatencies, BringsNumber, FirstLatencies;
    NothingNew(e, before, ev, 5);
    FirstLatenciesSnoc(e, before, ev);
    forall k | 0 <= k < |e.generated|
      ensures r.firstCorrect[k] <==> Received(e, before + [ev], k)
    {
      ReceivedSnoc(e, before, ev, k);
    }
  }

  lemma RecordTells(l: Ledger, e: Experiment, before: seq<Event>, ev: Event, cap: nat)
    requires |l.firstCorrect| == |e.generated| && Tells(l, e, before)
    ensures Tells(Record(l, e, ev, cap), e, before + [ev])
  {
    if Readable(e, ev) {
      DecodedHasFive(ev.data);
      hide Decode, Tells, TellsFirst, TallyFirst;
      var read := l.(observed := CapAdd(cap, l.observed, 1), decoded := CapAdd(cap, l.decoded, 1));
      TellsFrame(l, read, e, before);
      TellsStart(read, e, before, ev);
      TellsFirstSlots(read, e, before, ev, 5, cap);
      TellsEnd(TallyFirst(read, e, ev.elapsed, Decode(ev.data).value, 5, cap), e, before, ev);
    } else {
      hide Decode, Tells;
      UnreadableTells(l, Record(l, e, ev, cap), e, before, ev);
    }
  }

  lemma TellsFrame(l: Ledger, r: Ledger, e: Experiment, before: seq<Event>)
    requires Tells(l, e, before) && r.firstCorrect == l.firstCorrect && r.latencies == l.latencies
    ensures Tells(r, e, before)
  {
  }

  /**
    After every run: a message is marked exactly if an intact copy of it arrived in some datagram, with the payload,
    the digest and the timestamp it was sent with; and the latencies are those of the first arrivals, in order.
   */
  lemma {:induction false} LedgerTells(e: Experiment, events: seq<Event>, cap: nat)
    ensures Tells(RecordAll(New(|e.generated|), e, events, cap), e, events)
    decreases |events|
  {
    if events == [] {
      hide Brings;
    } else {
      hide Record, Tells;
      var init, last := events[..|events| - 1], events[|events| - 1];
      LedgerTells(e, init, cap);
      RecordTells(RecordAll(New(|e.generated|), e, init, cap), e, init, last, cap);
      assert init + [last] == events;
    }
  }

  // ----- counters

  /** The verdict on a slot of a readable datagram. */
  function VerdictOf(e: Experiment, ev: Event, slot: nat): Verdict
    requires Readable(e, ev) && slot < |Decode(ev.data).value.messages|
  {
    Judge(e, ev.elapsed, NumberOf(ev, slot), Decode(ev.data).value.messages[slot])
  }

  /** The counter for a verdict; a correct message is valid, late or a duplicate. */
  function CounterOf(l: Ledger, v: Verdict): nat {
    match v
    case WrongSequence => l.invalidSequence
    case WrongTime => l.timestampErrors
    case WrongDigest => l.digestErrors
    case WrongContent => l.contentErrors
    case Correct => l.valid + l.late + l.duplicate
  }

  function One(b: bool): nat {
    if b then 1 else 0
  }

  /** How many of the first `n` slots get this verdict. */
  function JudgedIn(e: Experiment, ev: Event, v: Verdict, n: nat): nat
    requires Readable(e, ev) && n <= |Decode(ev.data).value.messages|
  {
    if n == 0 then 0 else JudgedIn(e, ev, v, n - 1) + One(VerdictOf(e, ev, n - 1) == v)
  }

  /** How many messages of all readable datagrams do. */
  function JudgedAll(e: Experiment, events: seq<Event>, v: Verdict): nat {
    if events == [] then 0
    else
      var last := events[|events| - 1];
      JudgedAll(e, events[..|events| - 1], v) +
      (if Readable(e, last) then JudgedIn(e, last, v, |Decode(last.data).value.messages|) else 0)
  }

  predicate IsMalformed(ev: Event) {
    Timely(ev) && Decode(ev.data).None?
  }

  predicate NamesWrongBatch(e: Experiment, ev: Event) {
    Timely(ev) && Decode(ev.data).Some? && Decode(ev.data).value.batchId >= e.batches
  }

  function MalformedAmong(events: seq<Event>): nat {
    if events == [] then 0
    else MalformedAmong(events[..|events| - 1]) + One(IsMalformed(events[|events| - 1]))
  }

  function WrongBatchesAmong(e: Experiment, events: seq<Event>): nat {
    if events == [] then 0
    else WrongBatchesAmong(e, events[..|events| - 1]) + One(NamesWrongBatch(e, events[|events| - 1]))
  }

  /** The counters are these numbers. */
  ghost predicate Numbers(l: Ledger, e: Experiment, events: seq<Event>) {
    && (forall v :: CounterOf(l, v) == JudgedAll(e, events, v) <= 5 * |events|)
    && l.malformed == MalformedAmong(events) <= |events|
    && l.invalidBatch == 5 * WrongBatchesAmong(e, events) <= 5 * |events|
    && l.observed == |events|
  }

  lemma TallyOneNumbers(l: Ledger, e: Experiment, ev: Event, slot: nat, cap: nat, v: Verdict)
    requires Readable(e, ev) && slot < |Decode(ev.data).value.messages| && |l.firstCorrect| == |e.generated|
    requires forall w :: CounterOf(l, w) < cap
    ensures var r := TallyOne(l, e, ev.elapsed, Decode(ev.data).value, slot, cap);
            && CounterOf(r, v) == CounterOf(l, v) + One(VerdictOf(e, ev, slot) == v)
            && r.malformed == l.malformed && r.invalidBatch == l.invalidBatch && r.observed == l.observed
  {
    hide Decode, Judge;
    assert CounterOf(l, WrongSequence) < cap && CounterOf(l, WrongTime) < cap && CounterOf(l, WrongDigest) < cap;
    assert CounterOf(l, WrongContent) < cap && CounterOf(l, Correct) < cap;
  }

  lemma {:induction false} TallyFirstNumbers(l: Ledger, e: Experiment, ev: Event, n: nat, cap: nat)
    requires Readable(e, ev) && n <= |Decode(ev.data).value.messages| && |l.firstCorrect| == |e.generated|
    requires forall v :: CounterOf(l, v) + n <= cap
    ensures var r := TallyFirst(l, e, ev.elapsed, Decode(ev.data).value, n, cap);
            && (forall v :: CounterOf(r, v) == CounterOf(l, v) + JudgedIn(e, ev, v, n) && JudgedIn(e, ev, v, n) <= n)
            && r.malformed == l.malformed && r.invalidBatch == l.invalidBatch && r.observed == l.observed
  {
    hide Decode, TallyOne, CounterOf, VerdictOf;
    if n == 0 {
      TallyNone(l, e, ev.elapsed, Decode(ev.data).value, cap);
    } else {
      TallyFirstNumbers(l, e, ev, n - 1, cap);
      TallyNext(l, e, ev.elapsed, Decode(ev.data).value, n - 1, cap);
      var before := TallyFirst(l, e, ev.elapsed, Decode(ev.data).value, n - 1, cap);
      TallyOneNumbers(before, e, ev, n - 1, cap, Correct);
      forall v
        ensures var r := TallyFirst(l, e, ev.elapsed, Decode(ev.data).value, n, cap);
                CounterOf(r, v) == CounterOf(l, v) + JudgedIn(e, ev, v, n) && JudgedIn(e, ev, v, n) <= n
      {
        TallyOneNumbers(before, e, ev, n - 1, cap, v);
      }
    }
  }

  lemma RecordNumbers(l: Ledger, e: Experiment, before: seq<Event>, ev: Event, cap: nat)
    requires |l.firstCorrect| == |e.generated| && Numbers(l, e, before) && 5 * (|before| + 1) <= cap
    ensures Numbers(Record(l, e, ev, cap), e, before + [ev])
  {
    var more := before + [ev];
    assert more[..|more| - 1] == before && more[|more| - 1] == ev;
    if Readable(e, ev) {
      DecodedHasFive(ev.data);
      hide Decode, TallyFirst, JudgedIn;
      var read := l.(observed := CapAdd(cap, l.observed, 1), decoded := CapAdd(cap, l.decoded, 1));
      assert forall v :: CounterOf(read, v) == CounterOf(l, v);
      TallyFirstNumbers(read, e, ev, 5, cap);
      assert forall v :: JudgedAll(e, more, v) == JudgedAll(e, before, v) + JudgedIn(e, ev, v, 5);
    } else {
      hide Decode, TallyFirst, JudgedIn;
      assert forall v :: CounterOf(Record(l, e, ev, cap), v) == CounterOf(l, v);
      assert forall v :: JudgedAll(e, more, v) == JudgedAll(e, before, v);
    }
  }

  /** With counters wide enough: each is the number of the messages or datagrams that it stands for. */
  lemma {:induction false} WideNumbers(e: Experiment, events: seq<Event>, cap: nat)
    requires 5 * |events| <= cap
    ensures Numbers(RecordAll(New(|e.generated|), e, events, cap), e, events)
    decreases |events|
  {
    if events != [] {
      hide Record, Numbers;
      var init, last := events[..|events| - 1], events[|events| - 1];
      WideNumbers(e, init, cap);
      RecordNumbers(RecordAll(New(|e.generated|), e, init, cap), e, init, last, cap);
      assert init + [last] == events;
    }
  }

  /** The program's counters are these numbers up to the largest 64-bit number, whatever arrives and when. */
  lemma CountersExact(e: Experiment, events: seq<Event>)
    ensures var l := RecordAll(New(|e.generated|), e, events, U64_MAX);
            && l.invalidSequence == Min(JudgedAll(e, events, WrongSequence), U64_MAX)
            && l.timestampErrors == Min(JudgedAll(e, events, WrongTime), U64_MAX)
            && l.digestErrors == Min(JudgedAll(e, events, WrongDigest), U64_MAX)
            && l.contentErrors == Min(JudgedAll(e, events, WrongContent), U64_MAX)
            && l.malformed == Min(MalformedAmong(events), U64_MAX)
            && l.invalidBatch == Min(5 * WrongBatchesAmong(e, events), U64_MAX)
            && l.observed == Min(|events|, U64_MAX)
  {
    hide RecordAll, JudgedAll, MalformedAmong, WrongBatchesAmong;
    WideNumbers(e, events, Wide(events));
    SaturatedRun(e, events, U64_MAX, Wide(events));
    var ideal := RecordAll(New(|e.generated|), e, events, Wide(events));
    assert CounterOf(ideal, WrongSequence) == JudgedAll(e, events, WrongSequence);
    assert CounterOf(ideal, WrongTime) == JudgedAll(e, events, WrongTime);
    assert CounterOf(ideal, WrongDigest) == JudgedAll(e, events, WrongDigest);
    assert CounterOf(ideal, WrongContent) == JudgedAll(e, events, WrongContent);
  }
}
