/**
  The reassembler as the program runs it: one object whose fields are updated in place.
  Every method is proved to take the step that module `Reassembly` defines for it.
 */
module Reassembler {
  import opened Wrappers
  import opened Bytes
  import opened IpPacket
  import opened FragmentCodec
  import opened Pieces
  import opened Reassembly
  import opened Predictors

  /** The overlap scan as a loop over the stored pieces in offset order. */
  method ScanPieces(pieces: seq<Piece>, f: Fragment) returns (verdict: Verdict)
    ensures verdict == Scan(pieces, f)
  {
    var i := 0;
    while i < |pieces|
      invariant 0 <= i <= |pieces|
      invariant Scan(pieces[i..], f) == Scan(pieces, f)
    {
      if pieces[i].offset == f.offset && pieces[i].payload == f.payload {
        return Duplicate;
      }
      if f.offset < pieces[i].End() && pieces[i].offset < f.offset + |f.payload| {
        return Overlapping;
      }
      assert pieces[i..][1..] == pieces[i + 1..];
      i := i + 1;
    }
    return Fresh;
  }

  /** The reassembly loop and the inspection of its result. */
  method AssemblePieces(p: Partial) returns (r: Result<seq<byte>, PacketError>)
    ensures forall t, id :: p.received == p.totalLen ==>
              Settle(t, id, p) == (if r.Ok? then Deliver(t, r.value) else Reject(t, r.error))
  {
    var packet: seq<byte> := [];
    var i := 0;
    while i < |p.pieces|
      invariant 0 <= i <= |p.pieces|
      invariant Assemble(p.pieces[i..], packet) == Assemble(p.pieces, [])
    {
      if p.pieces[i].offset != |packet| {
        return Err(FragmentBounds);
      }
      packet := packet + p.pieces[i].payload;
      assert p.pieces[i..][1..] == p.pieces[i + 1..];
      i := i + 1;
    }
    assert p.pieces[i..] == [];
    if |packet| != p.totalLen {
      return Err(FragmentBounds);
    }
    var inspected := Inspect(packet);
    r := if inspected.Err? then Err(inspected.error) else Ok(packet);
  }

  /** Evictions in progress: every victim was an oldest packet and was taken for want of room. */
  ghost predicate Evicting(t: Table, incoming: nat, victims: seq<u32>)
    decreases victims
  {
    victims == [] ||
    (!HasRoom(t, incoming) && IsOldest(t, victims[0]) && Evicting(EvictOne(t, victims[0]), incoming, victims[1..]))
  }

  lemma {:induction false} EvictingOneMore(t: Table, incoming: nat, victims: seq<u32>, v: u32)
    requires Evicting(t, incoming, victims)
    requires var u := EvictAll(t, victims); !HasRoom(u, incoming) && IsOldest(u, v)
    ensures Evicting(t, incoming, victims + [v])
    ensures EvictAll(t, victims + [v]) == EvictOne(EvictAll(t, victims), v)
    decreases victims
  {
    if victims != [] {
      EvictingOneMore(EvictOne(t, victims[0]), incoming, victims[1..], v);
      assert (victims + [v])[1..] == victims[1..] + [v];
    }
  }

  lemma {:induction false} EvictingEnough(t: Table, incoming: nat, victims: seq<u32>)
    requires Evicting(t, incoming, victims) && HasRoom(EvictAll(t, victims), incoming)
    ensures ValidEvictions(t, incoming, victims)
    decreases victims
  {
    if victims != [] {
      EvictingEnough(EvictOne(t, victims[0]), incoming, victims[1..]);
    }
  }

  class VpnReassembler {
    const limits: Limits
    var packets: map<u32, Partial>
    var bufferedBytes: nat
    var stats: Stats

    function State(): Table
      reads this
    {
      Table(limits, packets, bufferedBytes, stats)
    }

    ghost predicate Valid()
      reads this
    {
      Invariant(State())
    }

    constructor (limits: Limits)
      requires LimitsValid(limits)
      ensures Valid() && New(limits) == Ok(State())
    {
      this.limits := limits;
      packets, bufferedBytes := map[], 0;
      stats := Stats(0, 0, 0, 0, 0, 0, 0);
    }

    /** The source's fallible `new`. */
    static method Create(limits: Limits) returns (r: Result<VpnReassembler, PacketError>)
      ensures r.Ok? <==> limits.maxInflight > 0 && limits.maxBuffered >= 65_535 && limits.timeout > 0
      ensures r.Ok? ==> fresh(r.value) && r.value.Valid() && New(limits) == Ok(r.value.State())
      ensures r.Err? ==> New(limits) == Err(r.error)
    {
      if limits.maxInflight == 0 || limits.maxBuffered < MAX_IP_PACKET_LEN || limits.timeout == 0 {
        return Err(InvalidReassemblyLimits);
      }
      var reassembler := new VpnReassembler(limits);
      return Ok(reassembler);
    }

    method RemovePacket(id: u32)
      modifies this
      ensures State() == Remove(old(State()), id)
    {
      if id in packets {
        bufferedBytes := SatSub(bufferedBytes, packets[id].received);
        packets := packets - {id};
      }
    }

    method EvictPacket(id: u32) returns (evicted: bool)
      requires Valid()
      modifies this
      ensures Valid() && (State(), evicted) == Reassembly.EvictPacket(old(State()), id)
    {
      StepKeepsInvariant(State(), OpEvict(id));
      if id !in packets {
        return false;
      }
      RemovePacket(id);
      stats := stats.(packetsEvicted := SatAdd(stats.packetsEvicted, 1));
      return true;
    }

    method Clear()
      requires Valid()
      modifies this
      ensures Valid() && State() == Reassembly.Clear(old(State()))
    {
      StepKeepsInvariant(State(), OpClear);
      packets, bufferedBytes := map[], 0;
    }

    method RejectDecodedFragment(id: u32)
      requires Valid()
      modifies this
      ensures Valid() && State() == RejectDecoded(old(State()), id)
    {
      StepKeepsInvariant(State(), OpReject(id));
      stats := stats.(fragmentsReceived := SatAdd(stats.fragmentsReceived, 1));
      stats := stats.(fragmentsRejected := SatAdd(stats.fragmentsRejected, 1));
      RemovePacket(id);
    }

    /** An oldest packet, ties left to the hash map; or the answer that there is none. */
    method EvictOldest() returns (evicted: bool, ghost victim: u32)
      modifies this
      ensures evicted <==> old(packets) != map[]
      ensures !evicted ==> State() == old(State())
      ensures evicted ==> IsOldest(old(State()), victim) && State() == EvictOne(old(State()), victim)
    {
      victim := 0;
      if packets == map[] {
        return false, 0;
      }
      ghost var eldest := OldestExists(State(), packets.Keys);
      assert IsOldest(State(), eldest);
      var id :| id in packets && forall other :: other in packets ==> packets[id].updatedAt <= packets[other].updatedAt;
      RemovePacket(id);
      stats := stats.(packetsEvicted := SatAdd(stats.packetsEvicted, 1));
      return true, id;
    }

    /** Terminates with room, having evicted oldest packets only while there was none. */
    method MakeRoom(incoming: nat) returns (ghost victims: seq<u32>)
      requires Consistent(State()) && incoming <= MAX_IP_PACKET_LEN
      modifies this
      ensures ValidEvictions(old(State()), incoming, victims)
      ensures State() == EvictAll(old(State()), victims)
    {
      victims := [];
      while |packets| >= limits.maxInflight
        invariant Evicting(old(State()), incoming, victims) && State() == EvictAll(old(State()), victims)
        invariant Consistent(State())
        decreases |packets|
      {
        EvictKeepsBooks();
        ghost var before := State();
        var evicted, victim := EvictOldest();
        if !evicted {
          break;
        }
        EvictingOneMore(old(State()), incoming, victims, victim);
        victims := victims + [victim];
      }
      while bufferedBytes + incoming > limits.maxBuffered
        invariant Evicting(old(State()), incoming, victims) && State() == EvictAll(old(State()), victims)
        invariant Consistent(State()) && |packets| < limits.maxInflight
        decreases |packets|
      {
        EvictKeepsBooks();
        var evicted, victim := EvictOldest();
        if !evicted {
          break;
        }
        EvictingOneMore(old(State()), incoming, victims, victim);
        victims := victims + [victim];
      }
      EvictingEnough(old(State()), incoming, victims);
    }

    lemma EvictKeepsBooks()
      requires Consistent(State())
      ensures forall id :: id in packets ==>
                Consistent(EvictOne(State(), id)) && |EvictOne(State(), id).packets| < |packets|
      ensures packets == map[] ==> bufferedBytes == 0
    {
      forall id | id in packets
        ensures Consistent(EvictOne(State(), id)) && |EvictOne(State(), id).packets| < |packets|
      {
        RemoveExact(State(), id);
      }
    }

    /** Removes the packets past their deadline. */
    method Expire(now: nat) returns (count: nat)
      requires Valid()
      modifies this
      ensures Valid() && State() == Reassembly.Expire(old(State()), now)
      ensures forall id :: id in packets <==> id in old(packets) && now < old(packets)[id].updatedAt + limits.timeout
      ensures forall id :: id in packets ==> packets[id] == old(packets)[id]
      ensures count == |PastDeadline(old(State()), now)| == |old(packets)| - |packets|
    {
      hide Invariant, Without, SatAdd;
      ghost var t := State();
      StepKeepsInvariant(t, OpExpire(now));
      ExpiryInInstants(t, now);
      var expired := set id | id in packets && SatSub(now, packets[id].updatedAt) >= limits.timeout;
      assert expired == ExpiredIds(t, now) == PastDeadline(t, now);
      count := |expired|;
      RemoveEach(expired);
      WithoutKeepsTheRest(t, expired);
      stats := stats.(packetsExpired := SatAdd(stats.packetsExpired, count));
    }

    /** Removes packets one by one. */
    method RemoveEach(ids: set<u32>)
      requires ids <= packets.Keys
      modifies this
      ensures State() == Without(old(State()), ids)
    {
      hide Without, Remove;
      ghost var t := State();
      var todo := ids;
      ghost var done: set<u32> := {};
      WithoutNone(t);
      while todo != {}
        invariant todo !! done && todo + done == ids
        invariant State() == Without(t, done)
        decreases todo
      {
        var id :| id in todo;
        WithoutOneMore(t, done, id);
        RemovePacket(id);
        todo, done := todo - {id}, done + {id};
      }
      assert done == ids;
    }

    /** Takes the fragment's packet out of the table and matches the fragment against its pieces. */
    method MatchFragment(now: nat, f: Fragment, ghost datagram: seq<byte>) returns (r: Result<Partial, PacketError>)
      requires Decode(datagram) == Ok(f)
      modifies this
      ensures Admit(old(State()), now, datagram) ==
                (if r.Ok? then Settle(State(), f.packetId, r.value) else Reject(State(), r.error))
    {
      hide Inspect, Assemble, Scan, Insert;
      var partial := if f.packetId in packets then packets[f.packetId] else Partial(f.totalLen, [], 0, now);
      RemovePacket(f.packetId);
      if partial.totalLen != f.totalLen {
        return Err(FragmentTotalChanged);
      }
      var verdict := ScanPieces(partial.pieces, f);
      if verdict == Overlapping {
        return Err(FragmentOverlap);
      }
      if verdict == Fresh {
        if |partial.pieces| >= MAX_FRAGMENTS {
          return Err(FragmentLimitExceeded);
        }
        partial := WithPiece(partial, f, now);
      } else {
        stats := stats.(duplicateFragments := SatAdd(stats.duplicateFragments, 1));
      }
      return Ok(partial);
    }

    /** `ingest_inner`: decode, match against the stored pieces, then deliver, refuse or store. */
    method IngestInner(now: nat, datagram: seq<byte>) returns (r: Delivery, ghost victims: seq<u32>)
      requires Valid()
      modifies this
      ensures match Admit(old(State()), now, datagram)
              case Reject(u, e) => r == Err(e) && State() == u && victims == []
              case Deliver(u, packet) => r == Ok(Some(packet)) && State() == u && victims == []
              case Hold(u, id, p) =>
                r == Ok(None) && ValidEvictions(u, p.received, victims) && State() == Store(u, id, p, victims)
    {
      hide Admit, Inspect, Assemble, Decode, ValidEvictions, PartialValid, EvictAll, Consistent;
      AdmitExact(State(), now, datagram);
      victims := [];
      var decoded := Decode(datagram);
      if decoded.Err? {
        return Err(decoded.error), [];
      }
      var f := decoded.value;
      var matched := MatchFragment(now, f, datagram);
      if matched.Err? {
        return Err(matched.error), [];
      }
      var partial := matched.value;
      if partial.received == partial.totalLen {
        var assembled := AssemblePieces(partial);
        r := if assembled.Ok? then Ok(Some(assembled.value)) else Err(assembled.error);
        return r, [];
      }
      victims := MakeRoom(partial.received);
      bufferedBytes := bufferedBytes + partial.received;
      packets := packets[f.packetId := partial];
      r := Ok(None);
    }

    /** The whole step: count, expire, ingest, book the result. */
    method Ingest(now: nat, datagram: seq<byte>) returns (r: Delivery, ghost victims: seq<u32>)
      requires Valid()
      modifies this
      ensures LegalIngest(old(State()), now, datagram, victims)
      ensures (State(), r) == Reassembly.Ingest(old(State()), now, datagram, victims)
      ensures Valid()
    {
      PreparedKeepsInvariant(State(), now);
      stats := stats.(fragmentsReceived := SatAdd(stats.fragmentsReceived, 1));
      var _ := Expire(now);
      r, victims := IngestInner(now, datagram);
      match r {
        case Ok(Some(packet)) =>
          stats := stats.(packetsCompleted := SatAdd(stats.packetsCompleted, 1));
          stats := stats.(completedBytes := SatAdd(stats.completedBytes, |packet|));
        case Ok(None) =>
        case Err(_) =>
          stats := stats.(fragmentsRejected := SatAdd(stats.fragmentsRejected, 1));
      }
      IngestKeepsInvariant(old(State()), now, datagram, victims);
    }

    /** `additional_buffered_bytes`. */
    method AdditionalBufferedBytes(f: Fragment) returns (r: Result<nat, PacketError>)
      ensures r == AdditionalBytes(State(), f)
    {
      if f.packetId !in packets {
        return Ok(|f.payload|);
      }
      var partial := packets[f.packetId];
      if partial.totalLen != f.totalLen {
        return Err(FragmentTotalChanged);
      }
      var verdict := ScanPieces(partial.pieces, f);
      if verdict == Duplicate {
        return Ok(0);
      }
      if verdict == Overlapping {
        return Err(FragmentOverlap);
      }
      if |partial.pieces| >= MAX_FRAGMENTS {
        return Err(FragmentLimitExceeded);
      }
      return Ok(|f.payload|);
    }

    /** `oldest_packet_updated_at`: an oldest packet other than the excluded one. */
    method OldestPacketUpdatedAt(excluded: Option<u32>) returns (r: Option<(u32, nat)>)
      ensures r.None? <==> forall id :: id in packets ==> excluded == Some(id)
      ensures r.Some? ==>
                && r.value.0 in packets && excluded != Some(r.value.0)
                && r.value.1 == packets[r.value.0].updatedAt
                && forall id :: id in packets && excluded != Some(id) ==> r.value.1 <= packets[id].updatedAt
    {
      var candidates := set id | id in packets && excluded != Some(id);
      if candidates == {} {
        assert forall id :: id in packets ==> id !in candidates;
        return None;
      }
      ghost var eldest := OldestExists(State(), candidates);
      var id :| && id in candidates
                && forall other :: other in candidates ==> packets[id].updatedAt <= packets[other].updatedAt;
      return Some((id, packets[id].updatedAt));
    }
  }
}
