/**
  The line scanner in front of the ledger (src/proxy_observe.rs, `analyze_proxy_jsonl`). The buffered reader
  may hand out the input in pieces of any size; the observation depends only on the bytes.
 */
module JsonlScanner {
  import opened Bytes
  import opened Observation

  const NEWLINE: byte := 10
  const MAX_PROXY_EVENT_LINE_BYTES: nat := 64 * 1024

  predicate NoNewline(text: seq<byte>) {
    forall i :: 0 <= i < |text| ==> text[i] != NEWLINE
  }

  /** The position of the first newline, or the length if there is none. */
  function LineEnd(data: seq<byte>): (end: nat)
    ensures end <= |data| && forall i :: 0 <= i < end ==> data[i] != NEWLINE
    ensures end < |data| ==> data[end] == NEWLINE
  {
    if data == [] || data[0] == NEWLINE then 0 else LineEnd(data[1..]) + 1
  }

  lemma LineEndUnique(data: seq<byte>, end: nat)
    requires end <= |data| && forall i :: 0 <= i < end ==> data[i] != NEWLINE
    requires end < |data| ==> data[end] == NEWLINE
    ensures LineEnd(data) == end
  {
  }

  /** The lines of a file; an unterminated last line counts unless it is empty. */
  function Lines(data: seq<byte>): seq<seq<byte>> {
    if data == [] then []
    else
      var end := LineEnd(data);
      if end == |data| then [data] else [data[..end]] + Lines(data[end + 1..])
  }

  function Terminated(lines: seq<seq<byte>>): seq<byte> {
    if lines == [] then [] else lines[0] + [NEWLINE] + Terminated(lines[1..])
  }

  lemma TerminatedCons(first: seq<byte>, rest: seq<seq<byte>>)
    ensures Terminated([first] + rest) == first + [NEWLINE] + Terminated(rest)
  {
    assert ([first] + rest)[1..] == rest;
  }

  lemma NothingTerminated()
    ensures Terminated([]) == []
  {
  }

  function WithFinalNewline(data: seq<byte>): seq<byte> {
    if data == [] || data[|data| - 1] == NEWLINE then data else data + [NEWLINE]
  }

  ghost predicate AllPlain(lines: seq<seq<byte>>) {
    forall text :: text in lines ==> NoNewline(text)
  }

  /** Splitting loses nothing: the lines written back, each with its newline, are the file. */
  lemma {:induction false} LinesKeepTheBytes(data: seq<byte>)
    ensures Terminated(Lines(data)) == WithFinalNewline(data) && AllPlain(Lines(data))
    decreases |data|
  {
    hide Terminated, Lines;
    var end := LineEnd(data);
    if end == |data| {
      LastLine(data);
      NothingTerminated();
      TerminatedCons(data, []);
      assert [data] == [data] + [];
    } else {
      var first, rest := data[..end], data[end + 1..];
      LinesKeepTheBytes(rest);
      FirstLine(first, rest);
      TerminatedCons(first, Lines(rest));
      assert first + [NEWLINE] + rest == data;
      assert first + [NEWLINE] + WithFinalNewline(rest) == WithFinalNewline(data);
    }
  }

  /** And nothing is invented: every list of newline-free lines is what its file splits into. */
  lemma {:induction false} LinesOfTerminated(lines: seq<seq<byte>>)
    requires AllPlain(lines)
    ensures Lines(Terminated(lines)) == lines
    decreases |lines|
  {
    if lines != [] {
      LinesOfTerminated(lines[1..]);
      FirstLine(lines[0], Terminated(lines[1..]));
    }
  }

  lemma FirstLine(first: seq<byte>, rest: seq<byte>)
    requires NoNewline(first)
    ensures Lines(first + [NEWLINE] + rest) == [first] + Lines(rest)
  {
    var data := first + [NEWLINE] + rest;
    assert data[..|first|] == first;
    LineEndUnique(data, |first|);
    assert data[|first| + 1..] == rest;
  }

  lemma LastLine(last: seq<byte>)
    requires NoNewline(last)
    ensures Lines(last) == if last == [] then [] else [last]
  {
    assert last[..|last|] == last;
    LineEndUnique(last, |last|);
  }

  /** A line over the limit is only counted; any other is read by `parse`, which stands for UTF-8 and JSON. */
  function Classify(parse: seq<byte> -> Line, text: seq<byte>): Line {
    if |text| > MAX_PROXY_EVENT_LINE_BYTES then Oversized else parse(text)
  }

  /** The limit in numbers; a line of exactly 65536 bytes is still read. */
  lemma OversizedExactly(parse: seq<byte> -> Line, text: seq<byte>)
    requires parse(text) != Oversized
    ensures Classify(parse, text) == Oversized <==> |text| >= 65_537
    ensures |text| <= 65_536 ==> Classify(parse, text) == parse(text)
  {
  }

  function ClassifyAll(parse: seq<byte> -> Line, lines: seq<seq<byte>>): (r: seq<Line>)
    ensures |r| == |lines|
  {
    if lines == [] then [] else [Classify(parse, lines[0])] + ClassifyAll(parse, lines[1..])
  }

  /** What the scanner owes the rest of the input after a line has ended. */
  lemma OneLineOff(o: Observation, parse: seq<byte> -> Line, first: seq<byte>, rest: seq<byte>)
    requires NoNewline(first)
    ensures IngestAll(o, ClassifyAll(parse, Lines(first + [NEWLINE] + rest))) ==
              IngestAll(Ingest(o, Classify(parse, first)), ClassifyAll(parse, Lines(rest)))
  {
    hide Ingest;
    FirstLine(first, rest);
    var lines := [first] + Lines(rest);
    assert lines[1..] == Lines(rest);
    assert ClassifyAll(parse, lines)[1..] == ClassifyAll(parse, Lines(rest));
  }

  lemma LastLineOff(o: Observation, parse: seq<byte> -> Line, last: seq<byte>)
    requires NoNewline(last)
    ensures IngestAll(o, ClassifyAll(parse, Lines(last))) ==
              if last == [] then o else Ingest(o, Classify(parse, last))
  {
    hide Ingest;
    LastLine(last);
    if last != [] {
      assert [last][1..] == [];
      assert ClassifyAll(parse, [last]) == [Classify(parse, last)];
      assert [Classify(parse, last)][1..] == [];
    }
  }

  /**
    The scan. `available` is whatever non-empty piece of the remaining input the reader offers, chosen
    afresh each time round; `line` never holds more than the limit.
   */
  method Analyze(data: seq<byte>, parse: seq<byte> -> Line) returns (observation: Observation)
    ensures observation == Observe(ClassifyAll(parse, Lines(data)))
  {
    hide Ingest, IngestAll, Lines, ClassifyAll;
    var ledger := new Ledger();
    var line: seq<byte>, oversized, rest := [], false, data;
    ghost var pending: seq<byte> := [];
    assert pending + rest == data;
    while rest != []
      invariant NoNewline(pending)
      invariant oversized ==> |pending| > MAX_PROXY_EVENT_LINE_BYTES && line == []
      invariant !oversized ==> line == pending && |line| <= MAX_PROXY_EVENT_LINE_BYTES
      invariant IngestAll(ledger.observation, ClassifyAll(parse, Lines(pending + rest))) ==
                  Observe(ClassifyAll(parse, Lines(data)))
      decreases |rest|
    {
      var offered: nat :| 0 < offered <= |rest|;
      var available := rest[..offered];
      var contentLength := LineEnd(available);
      if !oversized {
        if |line| + contentLength > MAX_PROXY_EVENT_LINE_BYTES {
          oversized := true;
          line := [];
        } else {
          line := line + available[..contentLength];
        }
      }
      var lineFinished := contentLength < offered;
      ghost var before := pending + rest;
      pending := pending + available[..contentLength];
      if lineFinished {
        rest := rest[contentLength + 1..];
        assert before == pending + [NEWLINE] + rest;
        OneLineOff(ledger.observation, parse, pending, rest);
        IngestBufferedLine(ledger, parse, line, oversized, pending);
        line, oversized, pending := [], false, [];
        assert pending + rest == rest;
      } else {
        rest := rest[contentLength..];
        assert before == pending + rest;
      }
    }
    assert pending + rest == pending;
    LastLineOff(ledger.observation, parse, pending);
    if oversized || line != [] {
      IngestBufferedLine(ledger, parse, line, oversized, pending);
    }
    observation := ledger.observation;
  }

  method IngestBufferedLine(
    ledger: Ledger, parse: seq<byte> -> Line, line: seq<byte>, oversized: bool, ghost whole: seq<byte>)
    requires if oversized then |whole| > MAX_PROXY_EVENT_LINE_BYTES
             else line == whole && |line| <= MAX_PROXY_EVENT_LINE_BYTES
    modifies ledger
    ensures ledger.observation == Ingest(old(ledger.observation), Classify(parse, whole))
  {
    if oversized {
      var o := ledger.observation;
      ledger.observation := o.(lines := o.lines + 1, oversizedLines := o.oversizedLines + 1);
    } else {
      ledger.IngestLine(parse(line));
    }
  }
}
