/**
  The two read-only predictors (src/vpn.rs, `additional_buffered_bytes` and
  `fragment_will_complete`) against what an ingest of the same fragment then does.
 */
module Predictors {
  import opened Wrappers
  import opened Bytes
  import opened IpPacket
  import opened FragmentCodec
  import opened Pieces
  import opened Reassembly

  function AdditionalBytes(t: Table, f: Fragment): Result<nat, PacketError> {
    if f.packetId !in t.packets then Ok(|f.payload|)
    else
      var p := t.packets[f.packetId];
      if p.totalLen != f.totalLen then Err(FragmentTotalChanged)
      else
        match Scan(p.pieces, f)
        case Duplicate => Ok(0)
        case Overlapping => Err(FragmentOverlap)
        case Fresh => if |p.pieces| >= MAX_FRAGMENTS then Err(FragmentLimitExceeded) else Ok(|f.payload|)
  }

  predicate WillComplete(t: Table, f: Fragment) {
    ReceivedFor(t, f) + |f.payload| == f.totalLen
  }

  function ReceivedFor(t: Table, f: Fragment): nat {
    if f.packetId in t.packets then t.packets[f.packetId].received else 0
  }

  /** The rejections that the first predictor can announce. */
  predicate Predictable(e: PacketError) {
    e in {FragmentTotalChanged, FragmentOverlap, FragmentLimitExceeded}
  }

  lemma InspectErrorsUnpredictable(packet: seq<byte>)
    ensures Inspect(packet).Err? ==> !Predictable(Inspect(packet).error)
  {
  }

  /** On one table: the rejection, the exact repeat, the growth and the completion are all foretold. */
  lemma PredictedOutcome(t: Table, f: Fragment, now: nat, datagram: seq<byte>)
    requires Consistent(t) && Decode(datagram) == Ok(f)
    ensures var a, o := AdditionalBytes(t, f), Admit(t, now, datagram);
            && (a.Err? ==> o == Reject(Remove(t, f.packetId), a.error) && Predictable(a.error))
            && (o.Reject? && Predictable(o.error) ==> a == Err(o.error))
            && (a == Ok(0) <==> f.packetId in t.packets && t.packets[f.packetId].totalLen == f.totalLen
                                && Piece(f.offset, f.payload) in t.packets[f.packetId].pieces)
            && (a == Ok(0) ==> o.Hold? && o.partial == t.packets[f.packetId])
            && (a.Ok? && a.value > 0 ==>
                  && (WillComplete(t, f) <==> !o.Hold?)
                  && (o.Hold? ==> o.partial.received == ReceivedFor(t, f) + a.value && o.partial.updatedAt == now))
  {
    var p := PartialFor(t, f, now);
    assert Disjoint(p.pieces, 0, p.totalLen) || p.totalLen != f.totalLen || p.pieces == [];
    if f.packetId in t.packets {
      ScanExact(p.pieces, f, 0, p.totalLen);
    }
    if p.totalLen == f.totalLen && Scan(p.pieces, f) == Fresh && |p.pieces| < MAX_FRAGMENTS {
      var q := WithPiece(p, f, now);
      WithPieceValid(p, f, now);
      if q.received == q.totalLen {
        FullPacketAssembles(q);
        InspectErrorsUnpredictable(Assemble(q.pieces, []).value);
      }
    }
  }

  /** Expiry at ingest time does not invalidate a prediction made for a packet that survives it. */
  lemma PredictionSurvivesExpiry(t: Table, f: Fragment, now: nat)
    requires Invariant(t) && InTime(t, f.packetId, now)
    ensures var u := Prepared(t, now);
            && Invariant(u)
            && AdditionalBytes(u, f) == AdditionalBytes(t, f)
            && (WillComplete(u, f) <==> WillComplete(t, f))
            && ReceivedFor(u, f) == ReceivedFor(t, f)
  {
    PreparedKeepsInvariant(t, now);
  }

  /** On one table: putting a repeated packet back needs no room and restores packets and bytes. */
  lemma RepeatIsRestored(u: Table, f: Fragment, now: nat, datagram: seq<byte>)
    requires Invariant(u) && Decode(datagram) == Ok(f) && AdditionalBytes(u, f) == Ok(0)
    ensures var o := Admit(u, now, datagram);
            && o.Hold? && o.id == f.packetId && HasRoom(o.table, o.partial.received)
            && o.table.packets[o.id := o.partial] == u.packets
            && o.table.buffered + o.partial.received == u.buffered
  {
    PredictedOutcome(u, f, now, datagram);
    RemoveExact(u, f.packetId);
    AdmitExact(u, now, datagram);
    hide Admit, BytesOf, PartialValid, AdditionalBytes, Decode;
  }

  /** An exact repeat evicts nothing and leaves packets, byte counter and deadline as they were. */
  lemma RepeatChangesNothing(t: Table, f: Fragment, now: nat, datagram: seq<byte>, victims: seq<u32>)
    requires Invariant(t) && InTime(t, f.packetId, now)
    requires Decode(datagram) == Ok(f) && AdditionalBytes(t, f) == Ok(0)
    requires LegalIngest(t, now, datagram, victims)
    ensures victims == []
    ensures var u := Ingest(t, now, datagram, victims).0;
            u.packets == Prepared(t, now).packets && u.buffered == Prepared(t, now).buffered
  {
    hide Admit, Prepared, Invariant, AdditionalBytes, Decode;
    PredictionSurvivesExpiry(t, f, now);
    RepeatIsRestored(Prepared(t, now), f, now, datagram);
  }

  /** Both predictors, asked before an ingest, against that ingest. */
  lemma PredictorsAgree(t: Table, f: Fragment, now: nat, datagram: seq<byte>)
    requires Invariant(t) && InTime(t, f.packetId, now)
    requires Decode(datagram) == Ok(f)
    ensures var a, o := AdditionalBytes(t, f), Admit(Prepared(t, now), now, datagram);
            && (a.Err? <==> o.Reject? && Predictable(o.error))
            && (a.Err? ==> o.error == a.error)
            && (a.Ok? && a.value > 0 ==>
                  && (WillComplete(t, f) <==> !o.Hold?)
                  && (o.Hold? ==> o.partial.received == ReceivedFor(t, f) + a.value))
  {
    PredictionSurvivesExpiry(t, f, now);
    PredictedOutcome(Prepared(t, now), f, now, datagram);
  }
}
