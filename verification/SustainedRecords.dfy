/** The self-checking sustained record stream (src/lib.rs, writer and receiver of sustained records). */
module SustainedRecords {
  import opened Wrappers
  import opened Bytes
  import opened Digest

  const RECORD_HEADER := 16
  const RECORD_END: u64 := U64_MAX

  datatype StreamError =
    | Truncated
    | WrongRecordCount
    | TrailingData
    | WrongSequence
    | BadPayload
    | ByteCountOverflow
    | SequenceOverflow

  datatype Totals = Totals(records: nat, bytes: nat)

  // ----- payloads

  function PayloadByte(seed: byte, sequence: nat, index: nat): byte {
    ((seed + sequence % 256) % 256 + index % 256 * 31 % 256) % 256
  }

  function Payload(seed: byte, sequence: nat, length: nat): (p: seq<byte>)
    ensures |p| == length
  {
    seq(length, i requires 0 <= i < length => PayloadByte(seed, sequence, i))
  }

  /** The pattern in plain arithmetic: seed, record number and 31 times the index, modulo 256. */
  lemma PayloadExact(seed: byte, sequence: nat, length: nat, i: nat)
    requires i < length
    ensures Payload(seed, sequence, length)[i] == (seed + sequence + 31 * i) % 256
  {
    var p, x, y := Payload(seed, sequence, length), seed + sequence % 256, i % 256 * 31;
    assert p[i] == (x % 256 + y % 256) % 256;
    Reduced(x / 256 + y / 256, x % 256 + y % 256);
    assert x + y == 256 * (x / 256 + y / 256) + (x % 256 + y % 256);
    Reduced(sequence / 256 + 31 * (i / 256), x + y);
    assert seed + sequence + 31 * i == 256 * (sequence / 256 + 31 * (i / 256)) + (x + y);
  }

  lemma Reduced(q: nat, r: nat)
    ensures (256 * q + r) % 256 == r % 256
  {
    assert 256 * q + r == 256 * (q + r / 256) + r % 256;
  }

  /** Fills a reused buffer in place. */
  method FillPayload(payload: array<byte>, seed: byte, sequence: nat)
    modifies payload
    ensures payload[..] == Payload(seed, sequence, payload.Length)
  {
    for i := 0 to payload.Length
      invariant forall k :: 0 <= k < i ==> payload[k] == PayloadByte(seed, sequence, k)
    {
      payload[i] := PayloadByte(seed, sequence, i);
    }
  }

  method PayloadIsValid(payload: seq<byte>, seed: byte, sequence: nat) returns (valid: bool)
    ensures valid <==> payload == Payload(seed, sequence, |payload|)
  {
    for i := 0 to |payload|
      invariant forall k :: 0 <= k < i ==> payload[k] == PayloadByte(seed, sequence, k)
    {
      if payload[i] != PayloadByte(seed, sequence, i) {
        return false;
      }
    }
    return true;
  }

  // ----- the stream

  function Record(seed: byte, chunk: nat, sequence: nat): (r: seq<byte>)
    ensures |r| == RECORD_HEADER + chunk
  {
    var payload := Payload(seed, sequence, chunk);
    ToBe(sequence, 8) + ToBe(DigestOf(payload), 8) + payload
  }

  function EndMark(records: nat): (r: seq<byte>)
    ensures |r| == RECORD_HEADER
  {
    ToBe(RECORD_END, 8) + ToBe(records, 8)
  }

  /** Records from number `first` on and the end mark: what a writer of `count` records still has to send. */
  function StreamFrom(seed: byte, chunk: nat, first: nat, count: nat): seq<byte>
    requires first <= count
    decreases count - first
  {
    if first == count then EndMark(count) else Record(seed, chunk, first) + StreamFrom(seed, chunk, first + 1, count)
  }

  function Records(seed: byte, chunk: nat, count: nat): seq<byte> {
    if count == 0 then [] else Records(seed, chunk, count - 1) + Record(seed, chunk, count - 1)
  }

  lemma {:induction false} StreamSplits(seed: byte, chunk: nat, at: nat, count: nat)
    requires at <= count
    ensures StreamFrom(seed, chunk, 0, count) == Records(seed, chunk, at) + StreamFrom(seed, chunk, at, count)
  {
    hide Record;
    if at == 0 {
      assert Records(seed, chunk, 0) == [];
    } else {
      StreamSplits(seed, chunk, at - 1, count);
      assert StreamFrom(seed, chunk, at - 1, count) == Record(seed, chunk, at - 1) + StreamFrom(seed, chunk, at, count);
      assert Records(seed, chunk, at) == Records(seed, chunk, at - 1) + Record(seed, chunk, at - 1);
    }
  }

  /** The writer: `rounds` records fit before its time is up. */
  method WriteRecords(rounds: nat, chunk: nat, seed: byte) returns (r: Result<Totals, StreamError>, sent: seq<byte>)
    ensures r.Ok? <==> rounds <= U64_MAX && Volume(rounds, chunk) <= U64_MAX
    ensures r.Ok? ==> r.value == Totals(rounds, Volume(rounds, chunk)) && sent == StreamFrom(seed, chunk, 0, rounds)
  {
    hide Record, Volume, Records, StreamFrom, Payload, DigestOf, ToBe, EndMark;
    VolumeOfNone(chunk);
    RecordsOfNone(seed, chunk);
    var payload := new byte[chunk];
    sent := [];
    var sequence, bytes := 0, 0;
    while sequence < rounds
      invariant 0 <= sequence <= rounds && sequence <= U64_MAX && bytes == Volume(sequence, chunk) <= U64_MAX
      invariant sent == Records(seed, chunk, sequence)
    {
      FillPayload(payload, seed, sequence);
      var digest := ComputeDigest(payload[..]);
      RecordsOneMore(seed, chunk, sequence);
      VolumeStep(sequence, chunk);
      sent := sent + (ToBe(sequence, 8) + ToBe(digest, 8) + payload[..]);
      VolumeMonotone(sequence + 1, rounds, chunk);
      if sequence + 1 > U64_MAX {
        return Err(SequenceOverflow), sent;
      }
      if bytes + chunk > U64_MAX {
        return Err(ByteCountOverflow), sent;
      }
      sequence, bytes := sequence + 1, bytes + chunk;
    }
    StreamSplits(seed, chunk, rounds, rounds);
    StreamEnds(seed, chunk, rounds);
    sent := sent + EndMark(sequence);
    r := Ok(Totals(sequence, bytes));
  }

  lemma StreamEnds(seed: byte, chunk: nat, count: nat)
    ensures StreamFrom(seed, chunk, count, count) == EndMark(count)
  {
  }

  lemma RecordsOfNone(seed: byte, chunk: nat)
    ensures Records(seed, chunk, 0) == []
  {
  }

  lemma RecordsOneMore(seed: byte, chunk: nat, sequence: nat)
    ensures Records(seed, chunk, sequence + 1) ==
              Records(seed, chunk, sequence) +
              (ToBe(sequence, 8) + ToBe(DigestOf(Payload(seed, sequence, chunk)), 8) + Payload(seed, sequence, chunk))
  {
  }

  /** The payload bytes of `n` records. */
  function Volume(n: nat, chunk: nat): nat {
    n * chunk
  }

  lemma VolumeOfNone(chunk: nat)
    ensures Volume(0, chunk) == 0
  {
  }

  lemma VolumeStep(n: nat, chunk: nat)
    ensures Volume(n + 1, chunk) == Volume(n, chunk) + chunk
  {
  }

  lemma VolumeMonotone(n: nat, m: nat, chunk: nat)
    requires n <= m
    ensures Volume(n, chunk) <= Volume(m, chunk)
  {
    assert m * chunk == n * chunk + (m - n) * chunk;
  }

  /** What the receiver decides about the bytes `d` after `n` records of `bytes` bytes in all. */
  function Parse(d: seq<byte>, seed: byte, chunk: nat, n: nat, bytes: nat): Result<Totals, StreamError>
    decreases |d|
  {
    if |d| < RECORD_HEADER then Err(Truncated)
    else if Be64(d[..8]) == RECORD_END then
      if Be64(d[8..16]) != n then Err(WrongRecordCount)
      else if |d| > RECORD_HEADER then Err(TrailingData)
      else Ok(Totals(n, bytes))
    else if Be64(d[..8]) != n then Err(WrongSequence)
    else if |d| < RECORD_HEADER + chunk then Err(Truncated)
    else
      var payload := d[16..16 + chunk];
      if payload != Payload(seed, n, chunk) || DigestOf(payload) != Be64(d[8..16]) then Err(BadPayload)
      else if bytes + chunk > U64_MAX then Err(ByteCountOverflow)
      else Parse(d[16 + chunk..], seed, chunk, n + 1, bytes + chunk)
  }

  /** The receiver's loop over a cursor and two counters. */
  method ReceiveRecords(data: seq<byte>, chunk: nat, seed: byte) returns (r: Result<Totals, StreamError>)
    ensures r == Parse(data, seed, chunk, 0, 0)
  {
    hide DigestOf, Payload, Be64;
    var at: nat, expected: nat, bytes: nat := 0, 0, 0;
    while true
      invariant 0 <= at <= |data|
      invariant Parse(data[at..], seed, chunk, expected, bytes) == Parse(data, seed, chunk, 0, 0)
      decreases |data| - at
    {
      var rest := data[at..];
      if |rest| < RECORD_HEADER {
        return Err(Truncated);
      }
      var sequence, expectedDigest := Be64(rest[..8]), Be64(rest[8..16]);
      if sequence == RECORD_END {
        if expectedDigest != expected {
          return Err(WrongRecordCount);
        }
        if |rest| > RECORD_HEADER {
          return Err(TrailingData);
        }
        return Ok(Totals(expected, bytes));
      }
      if sequence != expected {
        return Err(WrongSequence);
      }
      if |rest| < RECORD_HEADER + chunk {
        return Err(Truncated);
      }
      var payload := rest[16..16 + chunk];
      var valid := PayloadIsValid(payload, seed, sequence);
      var digest := ComputeDigest(payload);
      if !valid || digest != expectedDigest {
        return Err(BadPayload);
      }
      if bytes + chunk > U64_MAX {
        return Err(ByteCountOverflow);
      }
      assert rest[16 + chunk..] == data[at + 16 + chunk..];
      expected, bytes, at := expected + 1, bytes + chunk, at + 16 + chunk;
    }
  }

  // ----- exactly the writer's streams are accepted

  lemma RecordParts(seed: byte, chunk: nat, n: nat, rest: seq<byte>)
    requires n < U64_MAX
    ensures var d := Record(seed, chunk, n) + rest;
            && Be64(d[..8]) == n && Be64(d[8..16]) == DigestOf(Payload(seed, n, chunk))
            && d[16..16 + chunk] == Payload(seed, n, chunk) && d[16 + chunk..] == rest
  {
    hide DigestOf, Payload;
    var payload := Payload(seed, n, chunk);
    var d := Record(seed, chunk, n) + rest;
    assert d[..8] == ToBe(n, 8);
    assert d[8..16] == ToBe(DigestOf(payload), 8);
    assert d[16..16 + chunk] == payload;
    assert d[16 + chunk..] == rest;
    RoundTrip64(n);
    RoundTrip64(DigestOf(payload));
  }

  lemma EndMarkParts(n: nat)
    requires n <= U64_MAX
    ensures Be64(EndMark(n)[..8]) == RECORD_END && Be64(EndMark(n)[8..16]) == n
  {
    assert EndMark(n)[..8] == ToBe(RECORD_END, 8) && EndMark(n)[8..16] == ToBe(n, 8);
    RoundTrip64(RECORD_END);
    RoundTrip64(n);
  }

  /** Every stream that a writer can send is accepted, with its own counts ... */
  lemma {:induction false} WrittenIsAccepted(seed: byte, chunk: nat, n: nat, k: nat, bytes: nat)
    requires n <= k <= U64_MAX && bytes + Volume(k - n, chunk) <= U64_MAX
    ensures Parse(StreamFrom(seed, chunk, n, k), seed, chunk, n, bytes) == Ok(Totals(k, bytes + Volume(k - n, chunk)))
    decreases k - n
  {
    hide DigestOf, Payload, Be64, Record, EndMark, Volume;
    VolumeOfNone(chunk);
    if n == k {
      EndMarkParts(k);
    } else {
      var rest := StreamFrom(seed, chunk, n + 1, k);
      RecordParts(seed, chunk, n, rest);
      VolumeStep(k - (n + 1), chunk);
      WrittenIsAccepted(seed, chunk, n + 1, k, bytes + chunk);
    }
  }

  lemma RecordFromParts(d: seq<byte>, seed: byte, chunk: nat, n: nat)
    requires |d| >= RECORD_HEADER + chunk && Be64(d[..8]) == n
    requires d[16..16 + chunk] == Payload(seed, n, chunk) && Be64(d[8..16]) == DigestOf(Payload(seed, n, chunk))
    ensures d == Record(seed, chunk, n) + d[16 + chunk..]
  {
    hide DigestOf, Payload;
    ToBeOfFromBe(d[..8]);
    ToBeOfFromBe(d[8..16]);
    assert d == d[..8] + d[8..16] + d[16..16 + chunk] + d[16 + chunk..];
  }

  lemma EndMarkFromParts(d: seq<byte>, n: nat)
    requires |d| == RECORD_HEADER && Be64(d[..8]) == RECORD_END && Be64(d[8..16]) == n
    ensures d == EndMark(n)
  {
    ToBeOfFromBe(d[..8]);
    ToBeOfFromBe(d[8..16]);
    assert d == d[..8] + d[8..16];
  }

  /** ... and nothing else is. */
  lemma {:induction false} AcceptedIsWritten(d: seq<byte>, seed: byte, chunk: nat, n: nat, bytes: nat)
    requires n <= U64_MAX && bytes <= U64_MAX && Parse(d, seed, chunk, n, bytes).Ok?
    ensures var t := Parse(d, seed, chunk, n, bytes).value;
            && n <= t.records <= U64_MAX
            && t.bytes == bytes + Volume(t.records - n, chunk) <= U64_MAX
            && d == StreamFrom(seed, chunk, n, t.records)
    decreases |d|
  {
    hide DigestOf, Payload, Be64, Record, EndMark, Volume;
    VolumeOfNone(chunk);
    if Be64(d[..8]) == RECORD_END {
      EndMarkFromParts(d, n);
    } else {
      RecordFromParts(d, seed, chunk, n);
      AcceptedIsWritten(d[16 + chunk..], seed, chunk, n + 1, bytes + chunk);
      var t := Parse(d, seed, chunk, n, bytes).value;
      VolumeStep(t.records - (n + 1), chunk);
    }
  }

  /** The receiver accepts a byte stream exactly when it is the writer's for some record count, and reports it. */
  lemma ReceiverExact(d: seq<byte>, seed: byte, chunk: nat, k: nat)
    ensures Parse(d, seed, chunk, 0, 0) == Ok(Totals(k, Volume(k, chunk))) <==>
              k <= U64_MAX && Volume(k, chunk) <= U64_MAX && d == StreamFrom(seed, chunk, 0, k)
    ensures Parse(d, seed, chunk, 0, 0).Ok? ==>
              var t := Parse(d, seed, chunk, 0, 0).value; t == Totals(t.records, Volume(t.records, chunk))
  {
    hide Parse, StreamFrom, Volume;
    if Parse(d, seed, chunk, 0, 0).Ok? {
      AcceptedIsWritten(d, seed, chunk, 0, 0);
    }
    if k <= U64_MAX && Volume(k, chunk) <= U64_MAX {
      WrittenIsAccepted(seed, chunk, 0, k, 0);
    }
  }

  // ----- damage is always noticed

  lemma {:induction false} StreamLength(seed: byte, chunk: nat, first: nat, count: nat)
    requires first <= count
    ensures |StreamFrom(seed, chunk, first, count)| == RECORD_HEADER + (count - first) * (RECORD_HEADER + chunk)
    decreases count - first
  {
    hide Record, EndMark;
    if first < count {
      StreamLength(seed, chunk, first + 1, count);
      assert (count - first) * (RECORD_HEADER + chunk) ==
             (RECORD_HEADER + chunk) + (count - (first + 1)) * (RECORD_HEADER + chunk);
    }
  }

  /** Two accepted streams of the same length are the same: any overwriting, reordering or corruption is rejected. */
  lemma CorruptionRejected(d: seq<byte>, damaged: seq<byte>, seed: byte, chunk: nat)
    requires Parse(d, seed, chunk, 0, 0).Ok?
    requires |damaged| == |d| && damaged != d
    ensures Parse(damaged, seed, chunk, 0, 0).Err?
  {
    hide Parse, StreamFrom;
    AcceptedIsWritten(d, seed, chunk, 0, 0);
    var k := Parse(d, seed, chunk, 0, 0).value.records;
    if Parse(damaged, seed, chunk, 0, 0).Ok? {
      AcceptedIsWritten(damaged, seed, chunk, 0, 0);
      var j := Parse(damaged, seed, chunk, 0, 0).value.records;
      StreamLength(seed, chunk, 0, k);
      StreamLength(seed, chunk, 0, j);
      SameProduct(k, j, RECORD_HEADER + chunk);
      assert false;
    }
  }

  lemma SameProduct(k: nat, j: nat, m: nat)
    requires m > 0 && k * m == j * m
    ensures k == j
  {
    assert (k - j) * m == 0;
  }

  /** A stream that breaks off anywhere is truncated, whatever was read before. */
  lemma {:induction false} BrokenOffIsTruncated(
    d: seq<byte>, part: seq<byte>, seed: byte, chunk: nat, n: nat, bytes: nat)
    requires Parse(d, seed, chunk, n, bytes).Ok? && part <= d && part != d
    ensures Parse(part, seed, chunk, n, bytes) == Err(Truncated)
    decreases |d|
  {
    hide DigestOf, Payload, Be64;
    if |part| >= RECORD_HEADER {
      assert part[..8] == d[..8] && part[8..16] == d[8..16];
      if Be64(d[..8]) != RECORD_END && |part| >= RECORD_HEADER + chunk {
        assert part[16..16 + chunk] == d[16..16 + chunk];
        assert part[16 + chunk..] <= d[16 + chunk..];
        assert part == part[..16 + chunk] + part[16 + chunk..] && d == d[..16 + chunk] + d[16 + chunk..];
        BrokenOffIsTruncated(d[16 + chunk..], part[16 + chunk..], seed, chunk, n + 1, bytes + chunk);
      }
    }
  }

  /** No accepted stream is a proper prefix of another: whatever breaks off is refused as truncated ... */
  lemma PrefixRejected(d: seq<byte>, part: seq<byte>, seed: byte, chunk: nat)
    requires Parse(d, seed, chunk, 0, 0).Ok? && part <= d && part != d
    ensures Parse(part, seed, chunk, 0, 0) == Err(Truncated)
  {
    BrokenOffIsTruncated(d, part, seed, chunk, 0, 0);
  }

  /** ... and anything after the end mark as trailing data. */
  lemma {:induction false} MoreIsTrailing(d: seq<byte>, more: seq<byte>, seed: byte, chunk: nat, n: nat, bytes: nat)
    requires Parse(d, seed, chunk, n, bytes).Ok? && more != []
    ensures Parse(d + more, seed, chunk, n, bytes) == Err(TrailingData)
    decreases |d|
  {
    hide DigestOf, Payload, Be64;
    var longer := d + more;
    assert longer[..8] == d[..8] && longer[8..16] == d[8..16];
    if Be64(d[..8]) != RECORD_END {
      assert longer[16..16 + chunk] == d[16..16 + chunk];
      assert longer[16 + chunk..] == d[16 + chunk..] + more;
      MoreIsTrailing(d[16 + chunk..], more, seed, chunk, n + 1, bytes + chunk);
    }
  }
}
