/** The five-message realtime batch on the wire (src/realtime.rs). */
module RealtimeCodec {
  import opened Wrappers
  import opened Bytes
  import opened Digest

  const MAGIC: seq<byte> := [0x46, 0x57, 0x43, 0x31]
  const VERSION: byte := 1
  const BATCH_MESSAGES := 5
  const MESSAGE_SIZE := 200
  const TIMESTAMP_QUANTUM_MICROS := 4
  const BATCH_HEADER_SIZE := 20 + (BATCH_MESSAGES - 1) * 2 + BATCH_MESSAGES * 4
  const BATCH_SIZE := BATCH_HEADER_SIZE + BATCH_MESSAGES * MESSAGE_SIZE

  datatype Message = Message(sequence: u32, micros: u64, payload: seq<byte>)

  datatype DecodedMessage = DecodedMessage(sequence: u32, micros: nat, digest: nat, payload: seq<byte>)

  datatype Batch = Batch(batchId: u32, messages: seq<DecodedMessage>)

  datatype EncodeError =
    | WrongCount
    | FirstSequenceOverflow
    | SequenceMismatch
    | BaseOutOfRange
    | NotMonotonic
    | NotQuantized
    | GapTooLong

  /** The digest a message carries: the low 32 bits. */
  function Digest32(payload: seq<byte>): (d: nat)
    ensures d <= U32_MAX
  {
    DigestOf(payload) % 0x1_0000_0000
  }

  // ----- the frame: fields by position

  datatype Frame = Frame(
    batchId: u32, first: u32, base: u32, ticks: seq<nat>, digests: seq<nat>, payloads: seq<seq<byte>>)

  predicate Bounded(ns: seq<nat>, max: nat) {
    forall i :: 0 <= i < |ns| ==> ns[i] <= max
  }

  predicate WellFormed(f: Frame) {
    && |f.ticks| == BATCH_MESSAGES - 1 && Bounded(f.ticks, U16_MAX)
    && |f.digests| == BATCH_MESSAGES && Bounded(f.digests, U32_MAX)
    && |f.payloads| == BATCH_MESSAGES
    && (forall i :: 0 <= i < BATCH_MESSAGES ==> |f.payloads[i]| == MESSAGE_SIZE)
  }

  function Join(blocks: seq<seq<byte>>): seq<byte> {
    if blocks == [] then [] else blocks[0] + Join(blocks[1..])
  }

  function Words(ns: seq<nat>, width: nat): seq<seq<byte>> {
    seq(|ns|, i requires 0 <= i < |ns| => ToBe(ns[i], width))
  }

  function Preamble(batchId: u32, first: u32, base: u32): seq<byte> {
    MAGIC + [VERSION, BATCH_MESSAGES, 0, 0] + ToBe(batchId, 4) + ToBe(first, 4) + ToBe(base, 4)
  }

  function Wire(f: Frame): seq<byte> {
    Preamble(f.batchId, f.first, f.base) + Join(Words(f.ticks, 2)) + Join(Words(f.digests, 4)) + Join(f.payloads)
  }

  predicate HeaderOk(data: seq<byte>) {
    && |data| == BATCH_SIZE
    && data[..4] == MAGIC
    && data[4] == VERSION
    && data[5] == BATCH_MESSAGES
    && data[6..8] == [0, 0]
  }

  function TickAt(data: seq<byte>, i: nat): nat
    requires |data| == BATCH_SIZE && i < BATCH_MESSAGES - 1
  {
    Be16(data[20 + 2 * i..20 + 2 * i + 2])
  }

  function DigestAt(data: seq<byte>, i: nat): nat
    requires |data| == BATCH_SIZE && i < BATCH_MESSAGES
  {
    Be32(data[28 + 4 * i..28 + 4 * i + 4])
  }

  function PayloadAt(data: seq<byte>, i: nat): seq<byte>
    requires |data| == BATCH_SIZE && i < BATCH_MESSAGES
  {
    data[48 + 200 * i..48 + 200 * i + 200]
  }

  function Unwire(data: seq<byte>): Frame
    requires |data| == BATCH_SIZE
  {
    Frame(Be32(data[8..12]), Be32(data[12..16]), Be32(data[16..20]),
          seq(4, i requires 0 <= i < 4 => TickAt(data, i)),
          seq(5, i requires 0 <= i < 5 => DigestAt(data, i)),
          seq(5, i requires 0 <= i < 5 => PayloadAt(data, i)))
  }

  // ----- blocks of one size

  predicate AllOfSize(blocks: seq<seq<byte>>, size: nat) {
    forall i :: 0 <= i < |blocks| ==> |blocks[i]| == size
  }

  lemma {:induction false} JoinLength(blocks: seq<seq<byte>>, size: nat)
    requires AllOfSize(blocks, size)
    ensures |Join(blocks)| == size * |blocks|
    decreases |blocks|
  {
    if blocks != [] {
      JoinLength(blocks[1..], size);
      assert size * |blocks| == size + size * |blocks[1..]|;
    }
  }

  lemma {:induction false} JoinAt(blocks: seq<seq<byte>>, size: nat, i: nat)
    requires AllOfSize(blocks, size) && i < |blocks|
    ensures |Join(blocks)| == size * |blocks| && size * i + size <= size * |blocks|
    ensures Join(blocks)[size * i..size * i + size] == blocks[i]
    decreases i
  {
    JoinLength(blocks, size);
    JoinLength(blocks[1..], size);
    if i > 0 {
      JoinAt(blocks[1..], size, i - 1);
      assert size * i == size + size * (i - 1);
      var rest := Join(blocks[1..]);
      assert (blocks[0] + rest)[size..] == rest;
      assert (blocks[0] + rest)[size + size * (i - 1)..size + size * (i - 1) + size] ==
             rest[size * (i - 1)..size * (i - 1) + size];
    } else {
      assert size * |blocks| == size + size * |blocks[1..]|;
    }
  }

  /** Blocks that are the consecutive slices of some data join to the data. */
  lemma {:induction false} JoinOfSlices(data: seq<byte>, blocks: seq<seq<byte>>, size: nat)
    requires |data| == size * |blocks| && AllOfSize(blocks, size)
    requires forall i :: 0 <= i < |blocks| ==> IsSlice(data, blocks[i], size * i)
    ensures Join(blocks) == data
    decreases |blocks|
  {
    if blocks != [] {
      var rest := blocks[1..];
      assert size * |blocks| == size + size * |rest|;
      forall i | 0 <= i < |rest|
        ensures IsSlice(data[size..], rest[i], size * i)
      {
        assert IsSlice(data, blocks[i + 1], size * (i + 1));
        assert size * (i + 1) == size + size * i;
      }
      JoinOfSlices(data[size..], rest, size);
      assert IsSlice(data, blocks[0], size * 0);
      assert data == data[..size] + data[size..];
    }
  }

  predicate IsSlice(data: seq<byte>, block: seq<byte>, start: int) {
    0 <= start && start + |block| <= |data| && data[start..start + |block|] == block
  }

  // ----- frames and bytes correspond

  lemma PreambleParts(b: u32, first: u32, base: u32)
    ensures var p := Preamble(b, first, base);
            && |p| == 20 && p[..4] == MAGIC && p[4] == VERSION && p[5] == BATCH_MESSAGES && p[6..8] == [0, 0]
            && p[8..12] == ToBe(b, 4) && p[12..16] == ToBe(first, 4) && p[16..20] == ToBe(base, 4)
  {
    hide ToBe;
    var p := Preamble(b, first, base);
    var head := MAGIC + [VERSION, BATCH_MESSAGES, 0, 0];
    assert p[..8] == head;
    SubSlice(p, 0, 8, 0, 4);
    SubSlice(p, 0, 8, 6, 8);
    assert head[..4] == MAGIC && head[6..8] == [0, 0];
  }

  lemma SubSlice(data: seq<byte>, lo: nat, hi: nat, a: nat, b: nat)
    requires a <= b && lo + b <= hi <= |data|
    ensures data[lo..hi][a..b] == data[lo + a..lo + b]
  {
    var inner, outer := data[lo..hi][a..b], data[lo + a..lo + b];
    forall i | 0 <= i < b - a
      ensures inner[i] == outer[i]
    {
      assert data[lo..hi][a + i] == data[lo + (a + i)];
    }
  }

  lemma WireParts(f: Frame)
    requires WellFormed(f)
    ensures var w := Wire(f);
            && |w| == BATCH_SIZE && w[..20] == Preamble(f.batchId, f.first, f.base)
            && w[20..28] == Join(Words(f.ticks, 2)) && w[28..48] == Join(Words(f.digests, 4))
            && w[48..] == Join(f.payloads)
  {
    hide Join, Preamble, ToBe;
    PreambleParts(f.batchId, f.first, f.base);
    JoinLength(Words(f.ticks, 2), 2);
    JoinLength(Words(f.digests, 4), 4);
    JoinLength(f.payloads, MESSAGE_SIZE);
  }

  lemma UnwireOfWire(f: Frame)
    requires WellFormed(f)
    ensures HeaderOk(Wire(f)) && Unwire(Wire(f)) == f
  {
    hide Wire, Join, Preamble, ToBe, FromBe;
    var w := Wire(f);
    WireParts(f);
    PreambleParts(f.batchId, f.first, f.base);
    HeaderSlices(w);
    RoundTrip32(f.batchId);
    RoundTrip32(f.first);
    RoundTrip32(f.base);
    forall i | 0 <= i < 4
      ensures TickAt(w, i) == f.ticks[i]
    {
      JoinAt(Words(f.ticks, 2), 2, i);
      SubSlice(w, 20, 28, 2 * i, 2 * i + 2);
      RoundTrip16(f.ticks[i]);
    }
    forall i | 0 <= i < 5
      ensures DigestAt(w, i) == f.digests[i]
    {
      JoinAt(Words(f.digests, 4), 4, i);
      SubSlice(w, 28, 48, 4 * i, 4 * i + 4);
      RoundTrip32(f.digests[i]);
    }
    forall i | 0 <= i < 5
      ensures PayloadAt(w, i) == f.payloads[i]
    {
      JoinAt(f.payloads, MESSAGE_SIZE, i);
      SubSlice(w, 48, |w|, 200 * i, 200 * i + 200);
    }
    assert Unwire(w).ticks == f.ticks && Unwire(w).digests == f.digests && Unwire(w).payloads == f.payloads;
  }

  lemma HeaderSlices(data: seq<byte>)
    requires |data| == BATCH_SIZE
    ensures data[..20][..4] == data[..4] && data[..20][4] == data[4] && data[..20][5] == data[5]
    ensures data[..20][6..8] == data[6..8] && data[..20][8..12] == data[8..12]
    ensures data[..20][12..16] == data[12..16] && data[..20][16..20] == data[16..20]
  {
  }

  lemma WireOfUnwire(data: seq<byte>)
    requires HeaderOk(data)
    ensures WellFormed(Unwire(data)) && Wire(Unwire(data)) == data
  {
    hide Join, ToBe, FromBe;
    var f := Unwire(data);
    PreambleOfHeader(data);
    forall i | 0 <= i < 4
      ensures IsSlice(data[20..28], Words(f.ticks, 2)[i], 2 * i)
    {
      var word := data[20 + 2 * i..20 + 2 * i + 2];
      ToBeOfFromBe(word);
      SubSlice(data, 20, 28, 2 * i, 2 * i + 2);
    }
    JoinOfSlices(data[20..28], Words(f.ticks, 2), 2);
    forall i | 0 <= i < 5
      ensures IsSlice(data[28..48], Words(f.digests, 4)[i], 4 * i)
    {
      var word := data[28 + 4 * i..28 + 4 * i + 4];
      ToBeOfFromBe(word);
      SubSlice(data, 28, 48, 4 * i, 4 * i + 4);
    }
    JoinOfSlices(data[28..48], Words(f.digests, 4), 4);
    forall i | 0 <= i < 5
      ensures IsSlice(data[48..], f.payloads[i], 200 * i)
    {
      SubSlice(data, 48, |data|, 200 * i, 200 * i + 200);
    }
    JoinOfSlices(data[48..], f.payloads, MESSAGE_SIZE);
    assert data == data[..20] + data[20..28] + data[28..48] + data[48..];
  }

  lemma PreambleOfHeader(data: seq<byte>)
    requires HeaderOk(data)
    ensures Preamble(Be32(data[8..12]), Be32(data[12..16]), Be32(data[16..20])) == data[..20]
  {
    hide ToBe, FromBe;
    ToBeOfFromBe(data[8..12]);
    ToBeOfFromBe(data[12..16]);
    ToBeOfFromBe(data[16..20]);
    assert data[..20] == data[..4] + [data[4], data[5]] + data[6..8] + data[8..12] + data[12..16] + data[16..20];
    assert data[..8] == MAGIC + [VERSION, BATCH_MESSAGES, 0, 0];
  }

  // ----- encoding

  function Gap(a: Message, b: Message): Result<nat, EncodeError> {
    if b.micros < a.micros then Err(NotMonotonic)
    else if (b.micros - a.micros) % TIMESTAMP_QUANTUM_MICROS != 0 then Err(NotQuantized)
    else if (b.micros - a.micros) / TIMESTAMP_QUANTUM_MICROS > U16_MAX then Err(GapTooLong)
    else Ok((b.micros - a.micros) / TIMESTAMP_QUANTUM_MICROS)
  }

  /** The gaps between neighbours, or the first that cannot be written. */
  function Gaps(ms: seq<Message>): Result<seq<nat>, EncodeError>
    requires ms != []
  {
    if |ms| == 1 then Ok([])
    else
      match Gap(ms[0], ms[1])
      case Err(e) => Err(e)
      case Ok(gap) => Prepend([gap], Gaps(ms[1..]))
  }

  function Prepend(gaps: seq<nat>, rest: Result<seq<nat>, EncodeError>): Result<seq<nat>, EncodeError> {
    match rest
    case Err(e) => Err(e)
    case Ok(more) => Ok(gaps + more)
  }

  function Digests(ms: seq<Message>): (ds: seq<nat>)
    ensures |ds| == |ms| && Bounded(ds, U32_MAX)
  {
    seq(|ms|, i requires 0 <= i < |ms| => Digest32(ms[i].payload))
  }

  function Payloads(ms: seq<Message>): seq<seq<byte>> {
    seq(|ms|, i requires 0 <= i < |ms| => ms[i].payload)
  }

  /** A payload is a 200-byte array. */
  predicate Sized(ms: seq<Message>) {
    forall i :: 0 <= i < |ms| ==> |ms[i].payload| == MESSAGE_SIZE
  }

  function FrameOf(batchId: u32, ms: seq<Message>, gaps: seq<nat>): Frame
    requires ms != [] && ms[0].micros <= U32_MAX
  {
    Frame(batchId, ms[0].sequence, ms[0].micros, gaps, Digests(ms), Payloads(ms))
  }

  function Encode(batchId: u32, ms: seq<Message>): Result<seq<byte>, EncodeError> {
    if |ms| != BATCH_MESSAGES then Err(WrongCount)
    else if batchId * BATCH_MESSAGES > U32_MAX then Err(FirstSequenceOverflow)
    else if ms[0].sequence != batchId * BATCH_MESSAGES then Err(SequenceMismatch)
    else if ms[0].micros > U32_MAX then Err(BaseOutOfRange)
    else
      match Gaps(ms)
      case Err(e) => Err(e)
      case Ok(gaps) => Ok(Wire(FrameOf(batchId, ms, gaps)))
  }

  // ----- decoding

  function Prefix(ticks: seq<nat>, n: nat): nat
    requires n <= |ticks|
  {
    if n == 0 then 0 else Prefix(ticks, n - 1) + ticks[n - 1]
  }

  function MicrosAt(f: Frame, i: nat): nat
    requires i <= |f.ticks|
  {
    f.base + TIMESTAMP_QUANTUM_MICROS * Prefix(f.ticks, i)
  }

  function Interpret(f: Frame): Option<Batch>
    requires WellFormed(f)
  {
    if f.first + 4 > U32_MAX then None
    else Some(Batch(f.batchId, seq(5, i requires 0 <= i < 5 =>
      DecodedMessage(f.first + i, MicrosAt(f, i), f.digests[i], f.payloads[i]))))
  }

  lemma UnwireWellFormed(data: seq<byte>)
    requires |data| == BATCH_SIZE
    ensures WellFormed(Unwire(data))
  {
  }

  function Decode(data: seq<byte>): Option<Batch> {
    if !HeaderOk(data) then None
    else
      UnwireWellFormed(data);
      Interpret(Unwire(data))
  }

  // ----- gaps and timestamps

  ghost predicate GapsMatch(ms: seq<Message>, gaps: seq<nat>) {
    && |gaps| == |ms| - 1 && Bounded(gaps, U16_MAX)
    && (forall i :: 0 <= i < |gaps| ==> ms[i + 1].micros == ms[i].micros + TIMESTAMP_QUANTUM_MICROS * gaps[i])
  }

  /** Gaps are found exactly when neighbours are that many quanta apart. */
  lemma {:induction false} GapsExact(ms: seq<Message>, gaps: seq<nat>)
    requires ms != []
    ensures Gaps(ms) == Ok(gaps) <==> GapsMatch(ms, gaps)
    decreases |ms|
  {
    if |ms| == 1 {
      assert GapsMatch(ms, gaps) <==> gaps == [];
    } else if gaps == [] {
      assert !GapsMatch(ms, gaps);
    } else {
      var rest := gaps[1..];
      GapsExact(ms[1..], rest);
      assert gaps == [gaps[0]] + rest;
      GapsMatchStep(ms, gaps);
      var gap := Gap(ms[0], ms[1]);
      assert gap == Ok(gaps[0]) <==>
             gaps[0] <= U16_MAX && ms[1].micros == ms[0].micros + TIMESTAMP_QUANTUM_MICROS * gaps[0];
      if Gaps(ms) == Ok(gaps) {
        assert gaps == [gap.value] + Gaps(ms[1..]).value;
        assert gaps[1..] == Gaps(ms[1..]).value;
      }
    }
  }

  lemma GapsMatchStep(ms: seq<Message>, gaps: seq<nat>)
    requires |ms| > 1 && gaps != []
    ensures GapsMatch(ms, gaps) <==>
              && GapsMatch(ms[1..], gaps[1..]) && gaps[0] <= U16_MAX
              && ms[1].micros == ms[0].micros + TIMESTAMP_QUANTUM_MICROS * gaps[0]
  {
    if GapsMatch(ms[1..], gaps[1..]) && gaps[0] <= U16_MAX &&
       ms[1].micros == ms[0].micros + TIMESTAMP_QUANTUM_MICROS * gaps[0] {
      forall i | 0 <= i < |gaps|
        ensures ms[i + 1].micros == ms[i].micros + TIMESTAMP_QUANTUM_MICROS * gaps[i] && gaps[i] <= U16_MAX
      {
        if i > 0 {
          assert ms[1..][i - 1 + 1] == ms[i + 1] && ms[1..][i - 1] == ms[i] && gaps[1..][i - 1] == gaps[i];
        }
      }
    }
  }

  lemma {:induction false} MicrosFollowGaps(ms: seq<Message>, f: Frame, i: nat)
    requires ms != [] && GapsMatch(ms, f.ticks) && f.base == ms[0].micros && i < |ms|
    ensures MicrosAt(f, i) == ms[i].micros
  {
    if i > 0 {
      MicrosFollowGaps(ms, f, i - 1);
    }
  }

  // ----- round trips

  /** What a receiver gets from a batch that was encoded: the numbering is rebuilt from the first sequence. */
  function Received(batchId: u32, ms: seq<Message>): Option<Batch>
    requires |ms| == BATCH_MESSAGES
  {
    if batchId * BATCH_MESSAGES + 4 > U32_MAX then None
    else Some(Batch(batchId, seq(5, i requires 0 <= i < 5 =>
      DecodedMessage(batchId * BATCH_MESSAGES + i, ms[i].micros, Digest32(ms[i].payload), ms[i].payload))))
  }

  lemma EncodeThenDecode(batchId: u32, ms: seq<Message>)
    requires Sized(ms) && Encode(batchId, ms).Ok?
    ensures |Encode(batchId, ms).value| == BATCH_SIZE
    ensures Decode(Encode(batchId, ms).value) == Received(batchId, ms)
  {
    hide Wire, Unwire, Gaps, HeaderOk, GapsMatch, MicrosAt, Digest32;
    var gaps := Gaps(ms).value;
    GapsExact(ms, gaps);
    var f := FrameOf(batchId, ms, gaps);
    FrameIsWellFormed(batchId, ms, gaps);
    UnwireOfWire(f);
    WireParts(f);
    forall i | 0 <= i < 5
      ensures MicrosAt(f, i) == ms[i].micros
    {
      MicrosFollowGaps(ms, f, i);
    }
    InterpretedAsReceived(f, ms);
  }

  lemma InterpretedAsReceived(f: Frame, ms: seq<Message>)
    requires |ms| == BATCH_MESSAGES && WellFormed(f) && f.first == f.batchId * BATCH_MESSAGES
    requires f.digests == Digests(ms) && f.payloads == Payloads(ms)
    requires forall i :: 0 <= i < 5 ==> MicrosAt(f, i) == ms[i].micros
    ensures Interpret(f) == Received(f.batchId, ms)
  {
    hide MicrosAt, Digest32;
    if f.first + 4 <= U32_MAX {
      assert Interpret(f).value.messages == Received(f.batchId, ms).value.messages;
    }
  }

  lemma FrameIsWellFormed(batchId: u32, ms: seq<Message>, gaps: seq<nat>)
    requires |ms| == BATCH_MESSAGES && Sized(ms) && ms[0].micros <= U32_MAX && GapsMatch(ms, gaps)
    ensures WellFormed(FrameOf(batchId, ms, gaps))
  {
  }

  /** The batch as its sender numbered it. */
  function AsSent(batchId: u32, ms: seq<Message>): Batch {
    Batch(batchId, seq(|ms|, i requires 0 <= i < |ms| =>
      DecodedMessage(ms[i].sequence, ms[i].micros, Digest32(ms[i].payload), ms[i].payload)))
  }

  /** The encoder checks only the first sequence; the batch comes back exactly when all five are consecutive. */
  lemma RoundTripExactly(batchId: u32, ms: seq<Message>)
    requires Sized(ms) && Encode(batchId, ms).Ok?
    ensures Decode(Encode(batchId, ms).value) == Some(AsSent(batchId, ms)) <==>
              forall i :: 0 <= i < |ms| ==> ms[i].sequence == batchId * BATCH_MESSAGES + i
  {
    hide Encode, Decode, Digest32;
    EncodeOkMeans(batchId, ms);
    EncodeThenDecode(batchId, ms);
    var r := Received(batchId, ms);
    if r == Some(AsSent(batchId, ms)) {
      forall i | 0 <= i < |ms|
        ensures ms[i].sequence == batchId * BATCH_MESSAGES + i
      {
        assert r.value.messages[i] == AsSent(batchId, ms).messages[i];
      }
    }
    if forall i :: 0 <= i < |ms| ==> ms[i].sequence == batchId * BATCH_MESSAGES + i {
      assert ms[4].sequence == batchId * BATCH_MESSAGES + 4;
      assert r.value.messages == AsSent(batchId, ms).messages;
    }
  }

  lemma EncodeOkMeans(batchId: u32, ms: seq<Message>)
    requires Encode(batchId, ms).Ok?
    ensures |ms| == BATCH_MESSAGES && ms[0].sequence == batchId * BATCH_MESSAGES
  {
  }

  /** One batch number encodes and never decodes: its first sequence is the largest there is. */
  lemma LastBatchIsLost(ms: seq<Message>)
    requires Sized(ms) && Encode(858993459, ms).Ok?
    ensures Decode(Encode(858993459, ms).value) == None
  {
    EncodeOkMeans(858993459, ms);
    EncodeThenDecode(858993459, ms);
  }

  lemma LastBatchEncodes(payload: seq<byte>)
    requires |payload| == MESSAGE_SIZE
    ensures var m := Message(U32_MAX, 0, payload);
            Sized([m, m, m, m, m]) && Encode(858993459, [m, m, m, m, m]).Ok?
  {
    var m := Message(U32_MAX, 0, payload);
    GapsExact([m, m, m, m, m], [0, 0, 0, 0]);
  }

  function Undecorated(messages: seq<DecodedMessage>): seq<Message>
    requires forall i :: 0 <= i < |messages| ==> messages[i].micros <= U64_MAX
  {
    seq(|messages|, i requires 0 <= i < |messages| =>
      Message(messages[i].sequence, messages[i].micros, messages[i].payload))
  }

  /** Everything that decodes re-encodes to the same bytes exactly when its number and digests are right. */
  lemma ReencodesExactly(data: seq<byte>)
    requires Decode(data).Some?
    ensures var batch := Decode(data).value;
            && (forall i :: 0 <= i < |batch.messages| ==> batch.messages[i].micros <= U64_MAX)
            && (Encode(batch.batchId, Undecorated(batch.messages)) == Ok(data) <==>
                  && batch.messages[0].sequence == batch.batchId * BATCH_MESSAGES
                  && forall i :: 0 <= i < 5 ==> batch.messages[i].digest == Digest32(batch.messages[i].payload))
  {
    hide Wire, Unwire, Gaps, HeaderOk, GapsMatch, Digest32, MicrosAt, Decode;
    DecodeSomeMeans(data);
    var f := Unwire(data);
    WireOfUnwire(data);
    var batch := Decode(data).value;
    forall i | 0 <= i < 5
      ensures batch.messages[i].micros <= U64_MAX && batch.messages[0].micros == f.base
    {
      MicrosFit(f, i);
      MicrosFit(f, 0);
    }
    var ms := Undecorated(batch.messages);
    DecodedGaps(f, ms);
    GapsExact(ms, f.ticks);
    var g := FrameOf(batch.batchId, ms, f.ticks);
    FrameIsWellFormed(batch.batchId, ms, f.ticks);
    UnwireOfWire(g);
    SameFrame(f, g, ms);
  }

  lemma DecodeSomeMeans(data: seq<byte>)
    requires Decode(data).Some?
    ensures HeaderOk(data) && |data| == BATCH_SIZE && WellFormed(Unwire(data))
    ensures var f, batch := Unwire(data), Decode(data).value;
            && batch.batchId == f.batchId && |batch.messages| == 5
            && forall i :: 0 <= i < 5 ==>
                 batch.messages[i] == DecodedMessage(f.first + i, MicrosAt(f, i), f.digests[i], f.payloads[i])
  {
    hide MicrosAt, Unwire;
    UnwireWellFormed(data);
  }

  lemma MicrosFit(f: Frame, i: nat)
    requires WellFormed(f) && i < 5
    ensures MicrosAt(f, i) <= U32_MAX + 4 * (4 * U16_MAX)
    ensures i == 0 ==> MicrosAt(f, i) == f.base
  {
    assert forall k :: 0 <= k < 4 ==> f.ticks[k] <= U16_MAX;
    assert Prefix(f.ticks, 1) <= U16_MAX;
    assert Prefix(f.ticks, 2) <= 2 * U16_MAX;
    assert Prefix(f.ticks, 3) <= 3 * U16_MAX;
    assert Prefix(f.ticks, 4) <= 4 * U16_MAX;
  }

  lemma DecodedGaps(f: Frame, ms: seq<Message>)
    requires WellFormed(f) && |ms| == 5
    requires forall i :: 0 <= i < 5 ==> ms[i].micros == MicrosAt(f, i)
    ensures GapsMatch(ms, f.ticks)
  {
    forall i | 0 <= i < 4
      ensures ms[i + 1].micros == ms[i].micros + TIMESTAMP_QUANTUM_MICROS * f.ticks[i]
    {
      assert Prefix(f.ticks, i + 1) == Prefix(f.ticks, i) + f.ticks[i];
    }
  }

  lemma SameFrame(f: Frame, g: Frame, ms: seq<Message>)
    requires |ms| == 5 && WellFormed(f) && g.batchId == f.batchId && g.first == f.first && g.base == f.base
    requires g.ticks == f.ticks && g.digests == Digests(ms) && g.payloads == Payloads(ms)
    requires forall i :: 0 <= i < 5 ==> ms[i].payload == f.payloads[i]
    ensures g == f <==> forall i :: 0 <= i < 5 ==> f.digests[i] == Digest32(f.payloads[i])
  {
    hide Digest32;
    assert g.payloads == f.payloads;
    assert (forall i :: 0 <= i < 5 ==> f.digests[i] == g.digests[i]) <==> f.digests == g.digests;
  }

  // ----- the layout, byte by byte

  /**
    A frame on the wire: the four letters, version, message count and two zero bytes; batch number, first sequence
    and base time in four bytes each; four gaps in two bytes, five digests in four, five payloads in two hundred.
   */
  lemma WireLayout(f: Frame)
    requires WellFormed(f)
    ensures var w := Wire(f);
            && |w| == 1048 && w[0] == 0x46 && w[1] == 0x57 && w[2] == 0x43 && w[3] == 0x31
            && w[4] == 1 && w[5] == 5 && w[6] == w[7] == 0
            && Four(w[8], w[9], w[10], w[11]) == f.batchId
            && Four(w[12], w[13], w[14], w[15]) == f.first
            && Four(w[16], w[17], w[18], w[19]) == f.base
            && (forall i :: 0 <= i < 4 ==> Two(w[20 + 2 * i], w[21 + 2 * i]) == f.ticks[i])
            && (forall i :: 0 <= i < 5 ==>
                  Four(w[28 + 4 * i], w[29 + 4 * i], w[30 + 4 * i], w[31 + 4 * i]) == f.digests[i])
            && (forall i :: 0 <= i < 5 ==> w[48 + 200 * i..248 + 200 * i] == f.payloads[i])
  {
    hide Wire, Unwire;
    var w := Wire(f);
    UnwireOfWire(f);
    UnwireFields(w);
    Be32Parts(w[8..12]);
    Be32Parts(w[12..16]);
    Be32Parts(w[16..20]);
    assert w[6] == w[6..8][0] && w[7] == w[6..8][1];
    assert w[0] == w[..4][0] && w[1] == w[..4][1] && w[2] == w[..4][2] && w[3] == w[..4][3];
    forall i | 0 <= i < 4
      ensures Two(w[20 + 2 * i], w[21 + 2 * i]) == f.ticks[i]
    {
      Be16Parts(w[20 + 2 * i..20 + 2 * i + 2]);
      assert TickAt(w, i) == f.ticks[i];
    }
    forall i | 0 <= i < 5
      ensures Four(w[28 + 4 * i], w[29 + 4 * i], w[30 + 4 * i], w[31 + 4 * i]) == f.digests[i]
      ensures w[48 + 200 * i..248 + 200 * i] == f.payloads[i]
    {
      Be32Parts(w[28 + 4 * i..28 + 4 * i + 4]);
      assert DigestAt(w, i) == f.digests[i] && PayloadAt(w, i) == f.payloads[i];
    }
  }

  lemma UnwireFields(w: seq<byte>)
    requires |w| == BATCH_SIZE
    ensures var f := Unwire(w);
            && f.batchId == Be32(w[8..12]) && f.first == Be32(w[12..16]) && f.base == Be32(w[16..20])
            && |f.ticks| == 4 && |f.digests| == |f.payloads| == 5
            && (forall i :: 0 <= i < 4 ==> f.ticks[i] == TickAt(w, i))
            && (forall i :: 0 <= i < 5 ==> f.digests[i] == DigestAt(w, i) && f.payloads[i] == PayloadAt(w, i))
  {
  }
}
