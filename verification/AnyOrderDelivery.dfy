/**
  The promise of the fragment protocol: whatever the order, the repeats and the traffic of other
  packets in between, the reassembler stays silent until the last distinct fragment of a packet
  arrives and then returns exactly the packet that was cut up.
 */
module AnyOrderDelivery {
  import opened Wrappers
  import opened Bytes
  import opened IpPacket
  import opened FragmentCodec
  import opened Pieces
  import opened Reassembly

  ghost function Elements(pieces: seq<Piece>): set<Piece> {
    set p | p in pieces
  }

  /** A packet in transit and the pieces it was cut into, in order. */
  datatype Shipment = Shipment(id: u32, packet: seq<byte>, parts: seq<Piece>) {

    ghost predicate Valid() {
      && Inspect(packet).Ok?
      && |parts| <= MAX_FRAGMENTS
      && Disjoint(parts, 0, |packet|)
      && SumLen(parts) == |packet|
      && (forall k :: 0 <= k < |parts| ==>
            && parts[k].End() <= |packet|
            && parts[k].payload == packet[parts[k].offset..parts[k].End()])
    }

    ghost function All(): set<Piece> {
      Elements(parts)
    }

    function Carrying(p: Piece): Fragment {
      Fragment(id, |packet|, p.offset, p.payload)
    }
  }

  // ----- the encoder's cut is a valid shipment

  lemma {:induction false} EvenCutTiles(packet: seq<byte>, cap: nat, k: nat)
    requires cap > 0 && k <= Count(packet, cap)
    ensures var cut, at := EvenCut(packet, cap, k), Min(k * cap, |packet|);
            Disjoint(cut, at, |packet|) && SumLen(cut) == |packet| - at
    decreases Count(packet, cap) - k
  {
    if k == Count(packet, cap) {
      DivCeilBounds(|packet|, cap);
    } else {
      var cut, first := EvenCut(packet, cap, k), ChunkPiece(packet, cap, k);
      EvenCutTiles(packet, cap, k + 1);
      assert cut[0] == first && cut[1..] == EvenCut(packet, cap, k + 1);
      assert first.End() == Min((k + 1) * cap, |packet|) by {
        assert (k + 1) * cap == k * cap + cap;
      }
    }
  }

  ghost function ChunkPiece(packet: seq<byte>, cap: nat, i: nat): Piece
    requires cap > 0 && i < Count(packet, cap)
  {
    Piece(i * cap, Chunk(packet, cap, i))
  }

  /** The encoder's chunks from number `k` on. */
  ghost function EvenCut(packet: seq<byte>, cap: nat, k: nat): (cut: seq<Piece>)
    requires cap > 0 && k <= Count(packet, cap)
  {
    seq(Count(packet, cap) - k, i requires 0 <= i < Count(packet, cap) - k => ChunkPiece(packet, cap, k + i))
  }

  /** What `Encode` produces is a valid shipment: fragment i carries part i. */
  lemma EncodedShipment(id: u32, packet: seq<byte>, maxDatagramLen: nat)
    requires Inspect(packet).Ok? && maxDatagramLen >= MIN_DATAGRAM_LEN
    ensures var cap := maxDatagramLen - HEADER_LEN;
            var s := Shipment(id, packet, EvenCut(packet, cap, 0));
            && s.Valid()
            && |s.parts| == Count(packet, cap)
            && forall i :: 0 <= i < |s.parts| ==> FragmentAt(id, packet, cap, i) == s.Carrying(s.parts[i])
  {
    var cap := maxDatagramLen - HEADER_LEN;
    var s := Shipment(id, packet, EvenCut(packet, cap, 0));
    CountAtMostMax(packet, cap);
    EvenCutTiles(packet, cap, 0);
    hide Inspect, SumLen, Disjoint;
    forall k | 0 <= k < |s.parts|
      ensures FragmentAt(id, packet, cap, k) == s.Carrying(s.parts[k])
      ensures s.parts[k].End() <= |packet| && s.parts[k].payload == packet[s.parts[k].offset..s.parts[k].End()]
    {
      assert s.parts[k] == ChunkPiece(packet, cap, k);
    }
  }

  // ----- sets of disjoint pieces

  lemma {:induction false} ElementsCount(pieces: seq<Piece>, from: nat, to: nat)
    requires Disjoint(pieces, from, to)
    ensures |Elements(pieces)| == |pieces|
  {
    if pieces != [] {
      ElementsCount(pieces[1..], pieces[0].End(), to);
      forall p | p in pieces[1..]
        ensures p != pieces[0]
      {
        var i :| 0 <= i < |pieces[1..]| && pieces[1..][i] == p;
        DisjointAt(pieces[1..], pieces[0].End(), to, i);
      }
      assert Elements(pieces) == Elements(pieces[1..]) + {pieces[0]};
    }
  }

  lemma BeginsAfter(pieces: seq<Piece>, from: nat, to: nat, p: Piece)
    requires Disjoint(pieces, from, to) && p in pieces
    ensures from <= p.offset < p.End() <= to
  {
    var i :| 0 <= i < |pieces| && pieces[i] == p;
    DisjointAt(pieces, from, to, i);
  }

  /** Disjoint pieces in order are determined by the set of them. */
  lemma {:induction false} SameElementsSamePieces(a: seq<Piece>, b: seq<Piece>, from: nat, to: nat)
    requires Disjoint(a, from, to) && Disjoint(b, from, to)
    requires Elements(a) == Elements(b)
    ensures a == b
  {
    assert a != [] ==> a[0] in Elements(b);
    assert b != [] ==> b[0] in Elements(a);
    if a != [] {
      if a[0] != b[0] {
        assert a[0] in b[1..] && b[0] in a[1..];
        BeginsAfter(b[1..], b[0].End(), to, a[0]);
        BeginsAfter(a[1..], a[0].End(), to, b[0]);
        assert false;
      }
      forall p | p in Elements(a[1..])
        ensures p in Elements(b[1..])
      {
        BeginsAfter(a[1..], a[0].End(), to, p);
        assert p in Elements(a);
      }
      forall p | p in Elements(b[1..])
        ensures p in Elements(a[1..])
      {
        BeginsAfter(b[1..], b[0].End(), to, p);
        assert p in Elements(b);
      }
      SameElementsSamePieces(a[1..], b[1..], a[0].End(), to);
    }
  }

  /** Two different parts of one packet do not overlap. */
  lemma PartsApart(s: Shipment, p: Piece, q: Piece)
    requires s.Valid() && p in s.parts && q in s.parts && p != q
    ensures !Overlaps(s.Carrying(p), q)
  {
    var i :| 0 <= i < |s.parts| && s.parts[i] == p;
    var j :| 0 <= j < |s.parts| && s.parts[j] == q;
    DisjointPair(s.parts, 0, |s.packet|, Min(i, j), Max(i, j));
  }

  // ----- what has been delivered

  /** The parts that an operation delivers: at most one. */
  ghost function DeliveredBy(s: Shipment, op: Op): set<Piece> {
    set p | p in s.All() && op.OpIngest? && Decode(op.datagram) == Ok(s.Carrying(p))
  }

  /** The parts delivered by a run, on top of those in `got`. */
  ghost function Delivered(s: Shipment, got: set<Piece>, ops: seq<Op>): set<Piece>
    decreases ops
  {
    if ops == [] then got else Delivered(s, got + DeliveredBy(s, ops[0]), ops[1..])
  }

  /** Datagrams that carry the shipment's id are its own fragments. */
  ghost predicate Genuine(s: Shipment, op: Op) {
    op.OpIngest? && Decode(op.datagram).Ok? && Decode(op.datagram).value.packetId == s.id ==>
      DeliveredBy(s, op) != {}
  }

  /** The operation neither expires, evicts, rejects nor clears the stored part of the packet. */
  ghost predicate Undisturbed(t: Table, id: u32, op: Op) {
    match op
    case OpIngest(now, _, victims) => id !in victims && InTime(t, id, now)
    case OpExpire(now) => InTime(t, id, now)
    case OpEvict(other) => other != id
    case OpReject(other) => other != id
    case OpClear => false
  }

  ghost predicate HoldsPieces(p: Partial, s: Shipment, got: set<Piece>) {
    p.totalLen == |s.packet| && Elements(p.pieces) == got
  }

  /** The packets stored are exactly the parts in `got`, with no entry at all when there are none. */
  ghost predicate Holding(packets: map<u32, Partial>, s: Shipment, got: set<Piece>) {
    && got <= s.All()
    && (s.id in packets <==> got != {})
    && (got != {} ==> HoldsPieces(packets[s.id], s, got))
  }

  // ----- one fragment

  lemma ScanKnowsParts(s: Shipment, p: Partial, got: set<Piece>, part: Piece)
    requires s.Valid() && got <= s.All() && part in s.All()
    requires HoldsPieces(p, s, got) && Disjoint(p.pieces, 0, p.totalLen)
    ensures Scan(p.pieces, s.Carrying(part)) == if part in got then Duplicate else Fresh
  {
    var f := s.Carrying(part);
    BeginsAfter(s.parts, 0, |s.packet|, part);
    ScanExact(p.pieces, f, 0, p.totalLen);
    assert Piece(f.offset, f.payload) == part;
    if part !in got {
      forall k | 0 <= k < |p.pieces|
        ensures p.pieces[k] != part && !Overlaps(f, p.pieces[k])
      {
        assert p.pieces[k] in Elements(p.pieces);
        PartsApart(s, part, p.pieces[k]);
      }
    }
  }

  lemma ElementsInsert(pieces: seq<Piece>, p: Piece)
    ensures Elements(Insert(pieces, p)) == Elements(pieces) + {p}
  {
    var r := Insert(pieces, p);
    assert forall x :: x in r <==> x in multiset(r);
    assert forall x :: x in pieces <==> x in multiset(pieces);
  }

  /** All parts held: the packet is complete and assembles to the original. */
  lemma AllPartsAssemble(s: Shipment, p: Partial)
    requires s.Valid() && HoldsPieces(p, s, s.All()) && Disjoint(p.pieces, 0, p.totalLen)
    ensures SumLen(p.pieces) == |s.packet|
    ensures Assemble(p.pieces, []) == Ok(s.packet)
  {
    SameElementsSamePieces(p.pieces, s.parts, 0, |s.packet|);
    AssembleInOrder(s, 0);
    assert s.parts[0..] == s.parts;
  }

  /** Assembly up to a part, and the part, is assembly up to its end. */
  lemma OnePart(s: Shipment, k: nat, at: nat)
    requires s.Valid() && k < |s.parts| && s.parts[k].offset == at && s.parts[k].End() <= |s.packet|
    ensures s.packet[..at] + s.parts[k].payload == s.packet[..s.parts[k].End()]
  {
    hide Disjoint, SumLen;
    assert s.parts[k].payload == s.packet[at..s.parts[k].End()];
  }

  lemma {:induction false} AssembleInOrder(s: Shipment, k: nat)
    requires s.Valid() && k <= |s.parts|
    requires var at := |s.packet| - SumLen(s.parts[k..]);
             at >= 0 && Disjoint(s.parts[k..], at, |s.packet|)
    ensures var at := |s.packet| - SumLen(s.parts[k..]);
            Assemble(s.parts[k..], s.packet[..at]) == Ok(s.packet)
    decreases |s.parts| - k
  {
    var rest := s.parts[k..];
    var at := |s.packet| - SumLen(rest);
    if rest == [] {
      assert s.packet[..at] == s.packet;
    } else {
      var part := rest[0];
      DisjointFits(rest[1..], part.End(), |s.packet|);
      assert part.offset == at;
      assert rest[1..] == s.parts[k + 1..];
      assert part == s.parts[k];
      OnePart(s, k, at);
      AssembleInOrder(s, k + 1);
    }
  }

  /** Some part missing: the packet is not complete. */
  lemma MissingPartIncomplete(s: Shipment, p: Partial, got: set<Piece>)
    requires s.Valid() && got < s.All() && HoldsPieces(p, s, got) && Disjoint(p.pieces, 0, p.totalLen)
    ensures SumLen(p.pieces) < |s.packet|
    ensures |p.pieces| < |s.parts|
  {
    var part :| part in s.All() && part !in got;
    BeginsAfter(s.parts, 0, |s.packet|, part);
    ScanKnowsParts(s, p, got, part);
    InsertKeepsDisjoint(p.pieces, s.Carrying(part), 0, p.totalLen);
    DisjointFits(Insert(p.pieces, part), 0, p.totalLen);
    ElementsCount(p.pieces, 0, p.totalLen);
    ElementsCount(s.parts, 0, |s.packet|);
    CardinalityMonotone(got + {part}, s.All());
  }

  ghost predicate Started(p: Partial, s: Shipment, got: set<Piece>) {
    && HoldsPieces(p, s, got)
    && Disjoint(p.pieces, 0, p.totalLen)
    && p.received == SumLen(p.pieces)
  }

  /** A part that is still missing: the packet is held, or delivered if it was the last one. */
  lemma MissingPartArrives(s: Shipment, p: Partial, got: set<Piece>, part: Piece, now: nat, t: Table)
    requires s.Valid() && got <= s.All() && part in s.All() && part !in got
    requires Started(p, s, got)
    ensures Scan(p.pieces, s.Carrying(part)) == Fresh && |p.pieces| < MAX_FRAGMENTS
    ensures var q := WithPiece(p, s.Carrying(part), now);
            && HoldsPieces(q, s, got + {part})
            && Settle(t, s.id, q) == if got + {part} == s.All() then Deliver(t, s.packet) else Hold(t, s.id, q)
  {
    var f := s.Carrying(part);
    var q := WithPiece(p, f, now);
    ScanKnowsParts(s, p, got, part);
    MissingPartIncomplete(s, p, got);
    BeginsAfter(s.parts, 0, |s.packet|, part);
    InsertKeepsDisjoint(p.pieces, f, 0, p.totalLen);
    ElementsInsert(p.pieces, part);
    if got + {part} == s.All() {
      AllPartsAssemble(s, q);
    } else {
      MissingPartIncomplete(s, q, got + {part});
    }
  }

  lemma PartialStarted(s: Shipment, t: Table, got: set<Piece>, part: Piece, now: nat)
    requires s.Valid() && Consistent(t) && Holding(t.packets, s, got)
    ensures Started(PartialFor(t, s.Carrying(part), now), s, got)
  {
  }

  /** Admission of one of the shipment's fragments. */
  lemma AdmitPart(t: Table, s: Shipment, got: set<Piece>, part: Piece, now: nat, datagram: seq<byte>)
    requires s.Valid() && Consistent(t) && Holding(t.packets, s, got) && got != s.All()
    requires part in s.All() && Decode(datagram) == Ok(s.Carrying(part))
    ensures var o := Admit(t, now, datagram);
            && o.table.packets == t.packets - {s.id}
            && if got + {part} == s.All() then o == Deliver(o.table, s.packet)
               else o.Hold? && o.id == s.id && HoldsPieces(o.partial, s, got + {part})
  {
    var f := s.Carrying(part);
    var p := PartialFor(t, f, now);
    PartialStarted(s, t, got, part, now);
    assert Remove(t, s.id).packets == t.packets - {s.id};
    if part in got {
      assert got + {part} == got;
      ScanKnowsParts(s, p, got, part);
      assert Admit(t, now, datagram).Hold?;
    } else {
      MissingPartArrives(s, p, got, part, now, Remove(t, s.id));
    }
  }

  // ----- runs

  /** One fragment of the shipment, in full: the result it returns and what the table then holds. */
  lemma FragmentArrives(t: Table, s: Shipment, got: set<Piece>, part: Piece, op: Op)
    requires s.Valid() && Invariant(t) && Holding(t.packets, s, got) && got != s.All()
    requires op.OpIngest? && InTime(t, s.id, op.now)
    requires part in s.All() && Decode(op.datagram) == Ok(s.Carrying(part))
    ensures var r := Ingest(t, op.now, op.datagram, op.victims);
            if got + {part} == s.All()
            then r.1 == Ok(Some(s.packet)) && s.id !in r.0.packets
            else r.1 == Ok(None) && Holding(r.0.packets, s, got + {part})
  {
    PreparedKeepsInvariant(t, op.now);
    AdmitPart(Prepared(t, op.now), s, got, part, op.now, op.datagram);
  }

  /** Everything else that may happen leaves the held parts alone. */
  lemma OtherTraffic(t: Table, s: Shipment, got: set<Piece>, op: Op)
    requires Invariant(t) && Holding(t.packets, s, got)
    requires Undisturbed(t, s.id, op)
    requires op.OpIngest? && Decode(op.datagram).Ok? ==> Decode(op.datagram).value.packetId != s.id
    ensures Holding(Step(t, op).packets, s, got)
  {
    hide Invariant, Ingest;
    if op.OpIngest? {
      IngestLeavesOthers(t, op.now, op.datagram, op.victims, s.id);
    } else if op.OpExpire? {
      ExpiryInInstants(t, op.now);
    }
  }

  lemma {:induction false} DeliveredBetween(s: Shipment, got: set<Piece>, ops: seq<Op>)
    requires got <= s.All()
    ensures got <= Delivered(s, got, ops) <= s.All()
    decreases ops
  {
    if ops != [] {
      DeliveredBetween(s, got + DeliveredBy(s, ops[0]), ops[1..]);
    }
  }

  /** One operation of the run, whichever it is. */
  lemma HeldOneStep(t: Table, s: Shipment, got: set<Piece>, op: Op)
    requires s.Valid() && Invariant(t) && Holding(t.packets, s, got)
    requires LegalOp(t, op) && Undisturbed(t, s.id, op) && Genuine(s, op)
    requires got + DeliveredBy(s, op) != s.All()
    ensures Holding(Step(t, op).packets, s, got + DeliveredBy(s, op))
    ensures Invariant(Step(t, op))
  {
    hide Ingest, Invariant, Holding, Inspect;
    StepKeepsInvariant(t, op);
    if part :| part in DeliveredBy(s, op) {
      assert DeliveredBy(s, op) == {part};
      FragmentArrives(t, s, got, part, op);
    } else {
      assert got + DeliveredBy(s, op) == got;
      OtherTraffic(t, s, got, op);
    }
  }

  /** A legal run that leaves the shipment's entry alone and carries only genuine fragments of it. */
  ghost predicate QuietRun(t: Table, s: Shipment, ops: seq<Op>)
    decreases ops
  {
    ops == [] ||
    (&& LegalOp(t, ops[0]) && Undisturbed(t, s.id, ops[0]) && Genuine(s, ops[0])
     && QuietRun(Step(t, ops[0]), s, ops[1..]))
  }

  /** Over any run in which parts are still missing, the table holds what was delivered. */
  lemma {:induction false} HeldThroughout(t: Table, s: Shipment, got: set<Piece>, ops: seq<Op>)
    requires s.Valid() && Invariant(t) && Holding(t.packets, s, got)
    requires QuietRun(t, s, ops)
    requires Delivered(s, got, ops) != s.All()
    ensures Holding(Run(t, ops).packets, s, Delivered(s, got, ops)) && Invariant(Run(t, ops))
    decreases ops
  {
    if ops != [] {
      var next := got + DeliveredBy(s, ops[0]);
      DeliveredBetween(s, next, ops[1..]);
      HeldOneStep(t, s, got, ops[0]);
      HeldThroughout(Step(t, ops[0]), s, next, ops[1..]);
    }
  }

  /**
    Main theorem. Start from any table without the packet id, run any operations at all in which that
    id's datagrams are genuine and the stored part is not disturbed, with at least one part still
    missing; then feed one more of the fragments. It returns nothing unless it is the last missing
    one, and then it returns the original packet.
   */
  lemma PacketArrivesExactly(t: Table, s: Shipment, ops: seq<Op>, last: Op, part: Piece)
    requires s.Valid() && Invariant(t) && s.id !in t.packets
    requires QuietRun(t, s, ops)
    requires Delivered(s, {}, ops) != s.All()
    requires last.OpIngest? && LegalOp(Run(t, ops), last) && Undisturbed(Run(t, ops), s.id, last)
    requires part in s.All() && Decode(last.datagram) == Ok(s.Carrying(part))
    ensures var r := Ingest(Run(t, ops), last.now, last.datagram, last.victims);
            if Delivered(s, {}, ops) + {part} == s.All()
            then r.1 == Ok(Some(s.packet)) && s.id !in r.0.packets
            else r.1 == Ok(None)
  {
    HeldThroughout(t, s, {}, ops);
    FragmentArrives(Run(t, ops), s, Delivered(s, {}, ops), part, last);
  }

  /** The shipment that the encoder makes of a packet. */
  ghost function Encoded(id: u32, packet: seq<byte>, maxDatagramLen: nat): Shipment
    requires maxDatagramLen > HEADER_LEN
  {
    Shipment(id, packet, EvenCut(packet, maxDatagramLen - HEADER_LEN, 0))
  }

  /** The `i`-th datagram that the encoder makes of a packet. */
  ghost predicate EncoderSends(id: u32, packet: seq<byte>, maxDatagramLen: nat, i: nat, datagram: seq<byte>) {
    && maxDatagramLen >= MIN_DATAGRAM_LEN && |packet| <= MAX_IP_PACKET_LEN
    && i < Count(packet, maxDatagramLen - HEADER_LEN)
    && datagram == Datagram(FragmentAt(id, packet, maxDatagramLen - HEADER_LEN, i))
  }

  /** The parts that a run has delivered of what the encoder sends. */
  ghost function Arrived(id: u32, packet: seq<byte>, maxDatagramLen: nat, ops: seq<Op>): set<Piece>
    requires maxDatagramLen > HEADER_LEN
  {
    Delivered(Encoded(id, packet, maxDatagramLen), {}, ops)
  }

  lemma EncoderSendsPart(id: u32, packet: seq<byte>, maxDatagramLen: nat, i: nat, datagram: seq<byte>)
    requires Inspect(packet).Ok? && EncoderSends(id, packet, maxDatagramLen, i, datagram)
    ensures var s := Encoded(id, packet, maxDatagramLen);
            && s.Valid() && i < |s.parts| && s.parts[i] in s.All()
            && Decode(datagram) == Ok(s.Carrying(s.parts[i]))
  {
    hide Inspect, EvenCut, Datagram, Decode;
    EncodedShipment(id, packet, maxDatagramLen);
    DecodeOfDatagram(FragmentAt(id, packet, maxDatagramLen - HEADER_LEN, i));
  }

  /** The theorem for the encoder's own datagrams, at every admissible packet, id and capacity. */
  lemma EncodedPacketArrives(
    t: Table, id: u32, packet: seq<byte>, maxDatagramLen: nat, ops: seq<Op>, last: Op, i: nat)
    requires last.OpIngest? && EncoderSends(id, packet, maxDatagramLen, i, last.datagram) && Inspect(packet).Ok?
    requires Invariant(t) && id !in t.packets
    requires QuietRun(t, Encoded(id, packet, maxDatagramLen), ops)
    requires Arrived(id, packet, maxDatagramLen, ops) != Encoded(id, packet, maxDatagramLen).All()
    requires LegalOp(Run(t, ops), last) && Undisturbed(Run(t, ops), id, last)
    ensures var s := Encoded(id, packet, maxDatagramLen);
            var r := Ingest(Run(t, ops), last.now, last.datagram, last.victims);
            && i < |s.parts|
            && (if Arrived(id, packet, maxDatagramLen, ops) + {s.parts[i]} == s.All()
                then r.1 == Ok(Some(packet)) && id !in r.0.packets
                else r.1 == Ok(None))
  {
    hide Ingest, Run, QuietRun, Invariant, Inspect, Delivered, LegalOp, EvenCut, Decode, Datagram, Count;
    var s := Encoded(id, packet, maxDatagramLen);
    EncoderSendsPart(id, packet, maxDatagramLen, i, last.datagram);
    PacketArrivesExactly(t, s, ops, last, s.parts[i]);
  }
}
