/** The encoder and decoder as the program runs them, buffer by buffer (src/realtime.rs). */
module RealtimeBatch {
  import opened Wrappers
  import opened Bytes
  import opened Digest
  import opened RealtimeCodec

  lemma {:induction false} JoinSnoc(blocks: seq<seq<byte>>, last: seq<byte>)
    ensures Join(blocks + [last]) == Join(blocks) + last
    decreases |blocks|
  {
    var all := blocks + [last];
    if blocks == [] {
      assert all[1..] == [];
    } else {
      JoinSnoc(blocks[1..], last);
      assert all[1..] == blocks[1..] + [last];
    }
  }

  lemma JoinWordsSnoc(ns: seq<nat>, n: nat, width: nat)
    ensures Join(Words(ns + [n], width)) == Join(Words(ns, width)) + ToBe(n, width)
  {
    hide Join, ToBe;
    JoinSnoc(Words(ns, width), ToBe(n, width));
    assert Words(ns + [n], width) == Words(ns, width) + [ToBe(n, width)];
  }

  lemma PrependTwice(gaps: seq<nat>, gap: nat, rest: Result<seq<nat>, EncodeError>)
    ensures Prepend(gaps, Prepend([gap], rest)) == Prepend(gaps + [gap], rest)
  {
    if rest.Ok? {
      assert gaps + ([gap] + rest.value) == gaps + [gap] + rest.value;
    }
  }

  /** The timestamp loop: two bytes for each pair of neighbours, in order. */
  method AppendGaps(encoded: seq<byte>, messages: seq<Message>) returns (r: Result<seq<byte>, EncodeError>)
    requires messages != []
    ensures Gaps(messages).Err? ==> r == Err(Gaps(messages).error)
    ensures Gaps(messages).Ok? ==> r == Ok(encoded + Join(Words(Gaps(messages).value, 2)))
  {
    hide Join, ToBe, Words;
    var out := encoded;
    ghost var gaps: seq<nat> := [];
    assert messages[0..] == messages;
    assert Gaps(messages) == Prepend([], Gaps(messages)) by {
      if Gaps(messages).Ok? {
        assert [] + Gaps(messages).value == Gaps(messages).value;
      }
    }
    NothingJoined();
    for i := 0 to |messages| - 1
      invariant out == encoded + Join(Words(gaps, 2))
      invariant Gaps(messages) == Prepend(gaps, Gaps(messages[i..]))
    {
      var gap := Gap(messages[i], messages[i + 1]);
      assert messages[i..][1] == messages[i + 1] && messages[i..][1..] == messages[i + 1..];
      if gap.Err? {
        return Err(gap.error);
      }
      PrependTwice(gaps, gap.value, Gaps(messages[i + 1..]));
      JoinWordsSnoc(gaps, gap.value, 2);
      out := out + ToBe(gap.value, 2);
      gaps := gaps + [gap.value];
    }
    assert Gaps(messages[|messages| - 1..]) == Ok([]);
    assert gaps + [] == gaps;
    return Ok(out);
  }

  lemma NothingJoined()
    ensures Join(Words([], 2)) == [] && Join(Words([], 4)) == [] && Join([]) == []
  {
  }

  method AppendDigests(encoded: seq<byte>, messages: seq<Message>) returns (out: seq<byte>)
    ensures out == encoded + Join(Words(Digests(messages), 4))
  {
    hide Join, ToBe, Words, DigestOf;
    out := encoded;
    NothingJoined();
    assert Digests([]) == [];
    for i := 0 to |messages|
      invariant out == encoded + Join(Words(Digests(messages[..i]), 4))
    {
      var hash := ComputeDigest(messages[i].payload);
      JoinWordsSnoc(Digests(messages[..i]), hash % 0x1_0000_0000, 4);
      assert Digests(messages[..i + 1]) == Digests(messages[..i]) + [hash % 0x1_0000_0000];
      out := out + ToBe(hash % 0x1_0000_0000, 4);
    }
    assert messages[..|messages|] == messages;
  }

  method AppendPayloads(encoded: seq<byte>, messages: seq<Message>) returns (out: seq<byte>)
    ensures out == encoded + Join(Payloads(messages))
  {
    hide Join;
    out := encoded;
    NothingJoined();
    assert Payloads([]) == [];
    for i := 0 to |messages|
      invariant out == encoded + Join(Payloads(messages[..i]))
    {
      JoinSnoc(Payloads(messages[..i]), messages[i].payload);
      assert Payloads(messages[..i + 1]) == Payloads(messages[..i]) + [messages[i].payload];
      out := out + messages[i].payload;
    }
    assert messages[..|messages|] == messages;
  }

  method EncodeBatch(batchId: u32, messages: seq<Message>) returns (r: Result<seq<byte>, EncodeError>)
    ensures r == Encode(batchId, messages)
  {
    hide Join, Words, Preamble, Gaps, Digests, Payloads;
    if |messages| != BATCH_MESSAGES {
      return Err(WrongCount);
    }
    var expectedFirst := batchId * BATCH_MESSAGES;
    if expectedFirst > U32_MAX {
      return Err(FirstSequenceOverflow);
    }
    if messages[0].sequence != expectedFirst {
      return Err(SequenceMismatch);
    }
    if messages[0].micros > U32_MAX {
      return Err(BaseOutOfRange);
    }
    var encoded := Preamble(batchId, messages[0].sequence, messages[0].micros);
    var timed := AppendGaps(encoded, messages);
    if timed.Err? {
      return Err(timed.error);
    }
    encoded := timed.value;
    encoded := AppendDigests(encoded, messages);
    encoded := AppendPayloads(encoded, messages);
    return Ok(encoded);
  }

  /** The decoder; the checked additions of the timestamps cannot fail, those of the sequences can. */
  method DecodeBatch(data: seq<byte>) returns (r: Option<Batch>)
    ensures r == Decode(data)
  {
    hide WellFormed, Be16, Be32, Prefix, MicrosAt;
    if !HeaderOk(data) {
      return None;
    }
    ghost var f := Unwire(data);
    UnwireWellFormed(data);
    var batchId, first := Be32(data[8..12]), Be32(data[12..16]);
    var micros: seq<nat> := [Be32(data[16..20])];
    FirstMicros(f);
    for slot := 1 to 5
      invariant |micros| == slot
      invariant forall k :: 0 <= k < slot ==> micros[k] == MicrosAt(f, k)
    {
      var offset := 20 + (slot - 1) * 2;
      var ticks := Be16(data[offset..offset + 2]);
      assert TickAt(data, slot - 1) == ticks;
      NextMicros(f, slot);
      var next := micros[slot - 1] + ticks * TIMESTAMP_QUANTUM_MICROS;
      assert next <= U64_MAX;
      micros := micros + [next];
    }
    var messages: seq<DecodedMessage> := [];
    for slot := 0 to 5
      invariant |messages| == slot && (slot > 0 ==> first + slot - 1 <= U32_MAX)
      invariant forall k :: 0 <= k < slot ==>
        messages[k] == DecodedMessage(first + k, MicrosAt(f, k), f.digests[k], f.payloads[k])
    {
      if first + slot > U32_MAX {
        return None;
      }
      messages := messages + [DecodedMessage(first + slot, micros[slot], DigestAt(data, slot), PayloadAt(data, slot))];
    }
    assert messages == Interpret(f).value.messages;
    return Some(Batch(batchId, messages));
  }

  lemma FirstMicros(f: Frame)
    ensures MicrosAt(f, 0) == f.base
  {
  }

  lemma NextMicros(f: Frame, slot: nat)
    requires WellFormed(f) && 1 <= slot <= 4
    ensures |f.ticks| == 4
    ensures MicrosAt(f, slot) == MicrosAt(f, slot - 1) + f.ticks[slot - 1] * TIMESTAMP_QUANTUM_MICROS <= U64_MAX
  {
    MicrosFit(f, slot);
  }
}
