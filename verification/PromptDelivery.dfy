/**
  Delivery in terms of the clock: when the packets of a run are spared eviction, the stored part of a packet is
  lost to its age exactly if some operation comes a timeout or more after the last new fragment of it.
 */
module PromptDelivery {
  import opened Wrappers
  import opened Bytes
  import opened IpPacket
  import opened FragmentCodec
  import opened Pieces
  import opened Reassembly
  import opened AnyOrderDelivery

  /** The operation does not drop the packet, unless for its age. */
  predicate Spares(id: u32, op: Op) {
    match op
    case OpIngest(_, _, victims) => id !in victims
    case OpExpire(_) => true
    case OpEvict(other) => other != id
    case OpReject(other) => other != id
    case OpClear => false
  }

  ghost predicate SparedRun(s: Shipment, ops: seq<Op>) {
    forall op :: op in ops ==> Spares(s.id, op) && Genuine(s, op)
  }

  /** The clock reading of an operation that has one is less than a timeout after `latest`. */
  predicate SoonAfter(op: Op, latest: nat, timeout: nat) {
    op.OpIngest? || op.OpExpire? ==> op.now < latest + timeout
  }

  /** When the last new part arrived; a repeat does not count. */
  ghost function LatestAfter(s: Shipment, got: set<Piece>, latest: nat, op: Op): nat {
    if op.OpIngest? && !(DeliveredBy(s, op) <= got) then op.now else latest
  }

  ghost function Latest(s: Shipment, got: set<Piece>, latest: nat, ops: seq<Op>): nat
    decreases ops
  {
    if ops == [] then latest
    else Latest(s, got + DeliveredBy(s, ops[0]), LatestAfter(s, got, latest, ops[0]), ops[1..])
  }

  /** From the first part on, every operation comes less than a timeout after the last new part. */
  ghost predicate Prompt(s: Shipment, got: set<Piece>, latest: nat, ops: seq<Op>, timeout: nat)
    decreases ops
  {
    ops == [] ||
    (&& (got != {} ==> SoonAfter(ops[0], latest, timeout))
     && Prompt(s, got + DeliveredBy(s, ops[0]), LatestAfter(s, got, latest, ops[0]), ops[1..], timeout))
  }

  /** The stored parts and the instant from which their age counts. */
  ghost predicate HoldingSince(t: Table, s: Shipment, got: set<Piece>, latest: nat) {
    Holding(t.packets, s, got) && (got != {} ==> t.packets[s.id].updatedAt == latest)
  }

  /** A repeat of a stored part leaves its packet's instant alone; a new part sets it. */
  lemma PartSetsInstant(t: Table, s: Shipment, got: set<Piece>, latest: nat, part: Piece, op: Op)
    requires s.Valid() && Invariant(t) && HoldingSince(t, s, got, latest) && got + {part} != s.All()
    requires op.OpIngest? && InTime(t, s.id, op.now)
    requires part in s.All() && Decode(op.datagram) == Ok(s.Carrying(part))
    ensures HoldingSince(Step(t, op), s, got + {part}, if part in got then latest else op.now)
  {
    hide Invariant, Inspect, Holding, Admit, Decode, Prepared, PartialFor;
    FragmentArrives(t, s, got, part, op);
    PreparedHolds(t, s, got, latest, op.now);
    AdmitSetsInstant(Prepared(t, op.now), s, got, part, op.now, op.datagram);
  }

  lemma PreparedHolds(t: Table, s: Shipment, got: set<Piece>, latest: nat, now: nat)
    requires Invariant(t) && HoldingSince(t, s, got, latest) && InTime(t, s.id, now)
    ensures Invariant(Prepared(t, now)) && HoldingSince(Prepared(t, now), s, got, latest)
  {
    hide Prepared, HoldsPieces, Invariant;
    PreparedKeepsInvariant(t, now);
  }

  lemma AdmitSetsInstant(t: Table, s: Shipment, got: set<Piece>, part: Piece, now: nat, datagram: seq<byte>)
    requires s.Valid() && Invariant(t) && Holding(t.packets, s, got) && got + {part} != s.All()
    requires part in s.All() && Decode(datagram) == Ok(s.Carrying(part))
    ensures var o := Admit(t, now, datagram);
            && o.Hold? && o.id == s.id
            && (if part in got then s.id in t.packets && o.partial.updatedAt == t.packets[s.id].updatedAt
                else o.partial.updatedAt == now)
  {
    hide Inspect, Decode, Assemble, Scan, Disjoint, SumLen, Insert;
    var f := s.Carrying(part);
    var p := PartialFor(t, f, now);
    PartialStarted(s, t, got, part, now);
    if part in got {
      ScanKnowsParts(s, p, got, part);
    } else {
      MissingPartArrives(s, p, got, part, now, Remove(t, s.id));
    }
  }

  lemma OtherTrafficKeepsInstant(t: Table, s: Shipment, got: set<Piece>, latest: nat, op: Op)
    requires Invariant(t) && HoldingSince(t, s, got, latest) && Undisturbed(t, s.id, op)
    requires op.OpIngest? && Decode(op.datagram).Ok? ==> Decode(op.datagram).value.packetId != s.id
    ensures HoldingSince(Step(t, op), s, got, latest)
  {
    hide Invariant, Ingest, HoldsPieces;
    OtherTraffic(t, s, got, op);
    if op.OpIngest? {
      IngestLeavesOthers(t, op.now, op.datagram, op.victims, s.id);
    } else if op.OpExpire? {
      ExpiryInInstants(t, op.now);
    }
  }

  lemma HeldSinceOneStep(t: Table, s: Shipment, got: set<Piece>, latest: nat, op: Op)
    requires s.Valid() && Invariant(t) && HoldingSince(t, s, got, latest)
    requires LegalOp(t, op) && Undisturbed(t, s.id, op) && Genuine(s, op)
    requires got + DeliveredBy(s, op) != s.All()
    ensures HoldingSince(Step(t, op), s, got + DeliveredBy(s, op), LatestAfter(s, got, latest, op))
    ensures Invariant(Step(t, op)) && Step(t, op).limits == t.limits
  {
    hide Invariant, HoldingSince, Inspect, Step, LegalOp;
    StepKeepsInvariant(t, op);
    if part :| part in DeliveredBy(s, op) {
      assert DeliveredBy(s, op) == {part};
      PartSetsInstant(t, s, got, latest, part, op);
    } else {
      assert got + DeliveredBy(s, op) == got;
      OtherTrafficKeepsInstant(t, s, got, latest, op);
    }
  }

  /** One operation disturbs a spared packet exactly if it comes too late. */
  lemma DisturbedExactly(t: Table, s: Shipment, got: set<Piece>, latest: nat, op: Op)
    requires HoldingSince(t, s, got, latest) && Spares(s.id, op)
    ensures Undisturbed(t, s.id, op) <==> (got != {} ==> SoonAfter(op, latest, t.limits.timeout))
  {
    hide HoldsPieces;
  }

  /** A run of spared operations leaves the stored part alone exactly if it is prompt. */
  lemma {:induction false} QuietExactlyIfPrompt(t: Table, s: Shipment, got: set<Piece>, latest: nat, ops: seq<Op>)
    requires s.Valid() && Invariant(t) && HoldingSince(t, s, got, latest)
    requires LegalRun(t, ops) && SparedRun(s, ops) && Delivered(s, got, ops) != s.All()
    ensures QuietRun(t, s, ops) <==> Prompt(s, got, latest, ops, t.limits.timeout)
    ensures QuietRun(t, s, ops) ==>
              HoldingSince(Run(t, ops), s, Delivered(s, got, ops), Latest(s, got, latest, ops))
    decreases ops
  {
    hide Invariant, HoldingSince, Step, LegalOp, Undisturbed, Genuine, Spares, SoonAfter, LatestAfter;
    if ops != [] {
      var next := got + DeliveredBy(s, ops[0]);
      SubsetsOfAll(t, s, got, latest, ops[0]);
      DeliveredBetween(s, next, ops[1..]);
      DisturbedExactly(t, s, got, latest, ops[0]);
      if Undisturbed(t, s.id, ops[0]) {
        HeldSinceOneStep(t, s, got, latest, ops[0]);
        QuietExactlyIfPrompt(Step(t, ops[0]), s, next, LatestAfter(s, got, latest, ops[0]), ops[1..]);
      }
    }
  }

  lemma SubsetsOfAll(t: Table, s: Shipment, got: set<Piece>, latest: nat, op: Op)
    requires HoldingSince(t, s, got, latest)
    ensures got + DeliveredBy(s, op) <= s.All()
  {
    hide HoldsPieces;
  }

  /**
    Whatever the order, the repeats and the traffic of other packets: if nothing but age may drop the packet,
    and from its first fragment on every operation, the last one included, comes less than a timeout after the
    last new fragment, then nothing is returned until the last missing fragment, and then the packet.
   */
  lemma PromptPacketArrives(t: Table, s: Shipment, ops: seq<Op>, last: Op, part: Piece)
    requires s.Valid() && Invariant(t) && s.id !in t.packets
    requires LegalRun(t, ops) && SparedRun(s, ops) && Prompt(s, {}, 0, ops, t.limits.timeout)
    requires Delivered(s, {}, ops) != s.All()
    requires last.OpIngest? && LegalOp(Run(t, ops), last) && Spares(s.id, last)
    requires Delivered(s, {}, ops) != {} ==> SoonAfter(last, Latest(s, {}, 0, ops), t.limits.timeout)
    requires part in s.All() && Decode(last.datagram) == Ok(s.Carrying(part))
    ensures var r := Ingest(Run(t, ops), last.now, last.datagram, last.victims);
            if Delivered(s, {}, ops) + {part} == s.All()
            then r.1 == Ok(Some(s.packet)) && s.id !in r.0.packets
            else r.1 == Ok(None)
  {
    hide Invariant, Ingest, Inspect, Decode, LegalOp, Undisturbed, QuietRun, LegalRun, Run, Prompt, SoonAfter;
    EveryRunKeepsInvariant(t, ops);
    QuietExactlyIfPrompt(t, s, {}, 0, ops);
    DisturbedExactly(Run(t, ops), s, Delivered(s, {}, ops), Latest(s, {}, 0, ops), last);
    PacketArrivesExactly(t, s, ops, last, part);
  }

  /** All clock readings of a run lie in one window. */
  predicate WithinWindow(ops: seq<Op>, start: nat, length: nat) {
    forall op :: op in ops && (op.OpIngest? || op.OpExpire?) ==> start <= op.now < start + length
  }

  /** In particular a run inside one window of the length of the timeout is prompt. */
  lemma {:induction false} WindowIsPrompt(
    s: Shipment, got: set<Piece>, latest: nat, ops: seq<Op>, start: nat, timeout: nat)
    requires WithinWindow(ops, start, timeout) && (got != {} ==> start <= latest)
    ensures Prompt(s, got, latest, ops, timeout)
    ensures Delivered(s, got, ops) != {} ==> start <= Latest(s, got, latest, ops)
    decreases ops
  {
    hide DeliveredBy;
    if ops != [] {
      assert ops[0] in ops;
      DeliveredOnlyByIngest(s, ops[0]);
      WindowIsPrompt(s, got + DeliveredBy(s, ops[0]), LatestAfter(s, got, latest, ops[0]), ops[1..], start, timeout);
    }
  }

  lemma DeliveredOnlyByIngest(s: Shipment, op: Op)
    ensures DeliveredBy(s, op) != {} ==> op.OpIngest?
  {
  }
}
