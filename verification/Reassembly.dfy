/**
  The bounded reassembler (src/vpn.rs, `VpnReassembler`) as a state machine on values:
  what every operation computes, and what every run keeps.

  Evicting "the oldest packet" leaves ties to the hash map, so the packets that `make_room`
  evicts are an explicit argument, `victims`, constrained by `ValidEvictions`.
 */
module Reassembly {
  import opened Wrappers
  import opened Bytes
  import opened Sums
  import opened IpPacket
  import opened FragmentCodec
  import opened Pieces

  datatype Limits = Limits(maxInflight: nat, maxBuffered: nat, timeout: nat)

  datatype Partial = Partial(totalLen: nat, pieces: seq<Piece>, received: nat, updatedAt: nat)

  datatype Stats = Stats(
    fragmentsReceived: nat, fragmentsRejected: nat, duplicateFragments: nat,
    packetsCompleted: nat, completedBytes: nat, packetsExpired: nat, packetsEvicted: nat)

  datatype Table = Table(limits: Limits, packets: map<u32, Partial>, buffered: nat, stats: Stats)

  type Delivery = Result<Option<seq<byte>>, PacketError>

  // ----- operations

  predicate LimitsValid(l: Limits) {
    l.maxInflight != 0 && l.maxBuffered >= MAX_IP_PACKET_LEN && l.timeout != 0
  }

  function New(limits: Limits): Result<Table, PacketError> {
    if !LimitsValid(limits) then Err(InvalidReassemblyLimits)
    else Ok(Table(limits, map[], 0, Stats(0, 0, 0, 0, 0, 0, 0)))
  }

  function Remove(t: Table, id: u32): Table {
    if id !in t.packets then t
    else t.(packets := t.packets - {id}, buffered := SatSub(t.buffered, t.packets[id].received))
  }

  function EvictOne(t: Table, id: u32): Table {
    Remove(t, id).(stats := t.stats.(packetsEvicted := SatAdd(t.stats.packetsEvicted, 1)))
  }

  /** `evict_packet`: answers whether the packet was there. */
  function EvictPacket(t: Table, id: u32): (Table, bool) {
    if id in t.packets then (EvictOne(t, id), true) else (t, false)
  }

  function Clear(t: Table): Table {
    t.(packets := map[], buffered := 0)
  }

  function RejectDecoded(t: Table, id: u32): Table {
    var s := t.stats;
    Remove(t.(stats := s.(fragmentsReceived := SatAdd(s.fragmentsReceived, 1),
                          fragmentsRejected := SatAdd(s.fragmentsRejected, 1))), id)
  }

  predicate IsExpired(p: Partial, now: nat, limits: Limits) {
    SatSub(now, p.updatedAt) >= limits.timeout
  }

  function ExpiredIds(t: Table, now: nat): set<u32> {
    set id | id in t.packets && IsExpired(t.packets[id], now, t.limits)
  }

  ghost function Received(packets: map<u32, Partial>): map<u32, nat> {
    map id | id in packets :: packets[id].received
  }

  ghost function BytesOf(packets: map<u32, Partial>): nat {
    Total(Received(packets))
  }

  /** The packets with ids in `gone`. */
  ghost function Among(packets: map<u32, Partial>, gone: set<u32>): map<u32, Partial> {
    packets - (packets.Keys - gone)
  }

  /** Removing packets one by one subtracts their bytes one by one; the order does not matter. */
  ghost function Without(t: Table, gone: set<u32>): Table {
    t.(packets := t.packets - gone, buffered := SatSub(t.buffered, BytesOf(Among(t.packets, gone))))
  }

  ghost function Expire(t: Table, now: nat): Table {
    var gone := ExpiredIds(t, now);
    Without(t, gone).(stats := t.stats.(packetsExpired := SatAdd(t.stats.packetsExpired, |gone|)))
  }

  /** How far an ingest gets before `make_room`. */
  datatype Outcome =
    | Reject(table: Table, error: PacketError)
    | Deliver(table: Table, packet: seq<byte>)
    | Hold(table: Table, id: u32, partial: Partial)

  /** The stored partial of the fragment's packet, or an empty one. */
  function PartialFor(t: Table, f: Fragment, now: nat): Partial {
    if f.packetId in t.packets then t.packets[f.packetId] else Partial(f.totalLen, [], 0, now)
  }

  function WithPiece(p: Partial, f: Fragment, now: nat): Partial {
    Partial(p.totalLen, Insert(p.pieces, Piece(f.offset, f.payload)), p.received + |f.payload|, now)
  }

  /** `ingest_inner` up to the point where an incomplete packet is stored again. */
  function Admit(t: Table, now: nat, datagram: seq<byte>): Outcome {
    var decoded := Decode(datagram);
    if decoded.Err? then Reject(t, decoded.error)
    else
      var f := decoded.value;
      var partial := PartialFor(t, f, now);
      var removed := Remove(t, f.packetId);
      if partial.totalLen != f.totalLen then Reject(removed, FragmentTotalChanged)
      else
        match Scan(partial.pieces, f)
        case Overlapping => Reject(removed, FragmentOverlap)
        case Duplicate =>
          var s := removed.stats;
          Settle(removed.(stats := s.(duplicateFragments := SatAdd(s.duplicateFragments, 1))), f.packetId, partial)
        case Fresh =>
          if |partial.pieces| >= MAX_FRAGMENTS then Reject(removed, FragmentLimitExceeded)
          else Settle(removed, f.packetId, WithPiece(partial, f, now))
  }

  /** Delivers a packet whose bytes are all there; otherwise it is held. */
  function Settle(t: Table, id: u32, p: Partial): Outcome {
    if p.received != p.totalLen then Hold(t, id, p)
    else
      var assembled := Assemble(p.pieces, []);
      if assembled.Err? then Reject(t, assembled.error)
      else if |assembled.value| != p.totalLen then Reject(t, FragmentBounds)
      else
        var inspected := Inspect(assembled.value);
        if inspected.Err? then Reject(t, inspected.error) else Deliver(t, assembled.value)
  }

  predicate HasRoom(t: Table, incoming: nat) {
    |t.packets| < t.limits.maxInflight && t.buffered + incoming <= t.limits.maxBuffered
  }

  predicate IsOldest(t: Table, id: u32) {
    id in t.packets && forall other :: other in t.packets ==> t.packets[id].updatedAt <= t.packets[other].updatedAt
  }

  /** Evict an oldest packet while there is no room, and not once more. */
  predicate ValidEvictions(t: Table, incoming: nat, victims: seq<u32>)
    decreases victims
  {
    if victims == [] then HasRoom(t, incoming)
    else
      && !HasRoom(t, incoming)
      && IsOldest(t, victims[0])
      && ValidEvictions(EvictOne(t, victims[0]), incoming, victims[1..])
  }

  function EvictAll(t: Table, victims: seq<u32>): Table
    decreases victims
  {
    if victims == [] then t else EvictAll(EvictOne(t, victims[0]), victims[1..])
  }

  /** The table on which an ingest works, after counting the datagram and expiring old packets. */
  ghost function Prepared(t: Table, now: nat): Table {
    Expire(t.(stats := t.stats.(fragmentsReceived := SatAdd(t.stats.fragmentsReceived, 1))), now)
  }

  ghost predicate LegalIngest(t: Table, now: nat, datagram: seq<byte>, victims: seq<u32>) {
    match Admit(Prepared(t, now), now, datagram)
    case Hold(u, _, p) => ValidEvictions(u, p.received, victims)
    case _ => victims == []
  }

  /** `make_room` and then storing the packet again. */
  ghost function Store(t: Table, id: u32, p: Partial, victims: seq<u32>): Table {
    var v := EvictAll(t, victims);
    v.(packets := v.packets[id := p], buffered := v.buffered + p.received)
  }

  ghost function Ingest(t: Table, now: nat, datagram: seq<byte>, victims: seq<u32>): (Table, Delivery) {
    match Admit(Prepared(t, now), now, datagram)
    case Reject(u, e) =>
      (u.(stats := u.stats.(fragmentsRejected := SatAdd(u.stats.fragmentsRejected, 1))), Err(e))
    case Deliver(u, packet) =>
      (u.(stats := u.stats.(packetsCompleted := SatAdd(u.stats.packetsCompleted, 1),
                            completedBytes := SatAdd(u.stats.completedBytes, |packet|))), Ok(Some(packet)))
    case Hold(u, id, p) =>
      (Store(u, id, p, victims), Ok(None))
  }

  // ----- runs

  datatype Op =
    | OpIngest(now: nat, datagram: seq<byte>, victims: seq<u32>)
    | OpExpire(now: nat)
    | OpEvict(id: u32)
    | OpReject(id: u32)
    | OpClear

  ghost predicate LegalOp(t: Table, op: Op) {
    op.OpIngest? ==> LegalIngest(t, op.now, op.datagram, op.victims)
  }

  ghost function Step(t: Table, op: Op): Table {
    match op
    case OpIngest(now, datagram, victims) => Ingest(t, now, datagram, victims).0
    case OpExpire(now) => Expire(t, now)
    case OpEvict(id) => EvictPacket(t, id).0
    case OpReject(id) => RejectDecoded(t, id)
    case OpClear => Clear(t)
  }

  ghost predicate LegalRun(t: Table, ops: seq<Op>)
    decreases ops
  {
    ops == [] || (LegalOp(t, ops[0]) && LegalRun(Step(t, ops[0]), ops[1..]))
  }

  ghost function Run(t: Table, ops: seq<Op>): Table
    decreases ops
  {
    if ops == [] then t else Run(Step(t, ops[0]), ops[1..])
  }

  // ----- the invariant

  predicate PartialValid(p: Partial) {
    && p.totalLen <= MAX_IP_PACKET_LEN
    && Disjoint(p.pieces, 0, p.totalLen)
    && 0 < |p.pieces| <= MAX_FRAGMENTS
    && p.received == SumLen(p.pieces) < p.totalLen
  }

  /** Everything except the caps, which hold only between calls. */
  ghost predicate Consistent(t: Table) {
    LimitsValid(t.limits) && AllValid(t.packets) && t.buffered == BytesOf(t.packets)
  }

  predicate AllValid(packets: map<u32, Partial>) {
    forall id :: id in packets ==> PartialValid(packets[id])
  }

  ghost predicate Invariant(t: Table) {
    && Consistent(t)
    && |t.packets| <= t.limits.maxInflight
    && t.buffered <= t.limits.maxBuffered
  }

  lemma BytesRemove(packets: map<u32, Partial>, id: u32)
    requires id in packets
    ensures BytesOf(packets) == packets[id].received + BytesOf(packets - {id})
  {
    TotalRemove(Received(packets), id);
    assert Received(packets) - {id} == Received(packets - {id});
  }

  lemma BytesInsert(packets: map<u32, Partial>, id: u32, p: Partial)
    requires id !in packets
    ensures BytesOf(packets[id := p]) == BytesOf(packets) + p.received
  {
    BytesRemove(packets[id := p], id);
    assert packets[id := p] - {id} == packets;
  }

  lemma BytesSplit(packets: map<u32, Partial>, gone: set<u32>)
    requires gone <= packets.Keys
    ensures BytesOf(packets) == BytesOf(packets - gone) + BytesOf(Among(packets, gone))
  {
    var m := Received(packets);
    TotalSplit(m, gone);
    assert m - gone == Received(packets - gone);
    assert m - (m.Keys - gone) == Received(Among(packets, gone));
  }

  /** Removing a packet takes exactly its bytes off the counter: the subtraction never clips. */
  lemma RemoveExact(t: Table, id: u32)
    requires Consistent(t)
    ensures Consistent(Remove(t, id))
    ensures id in t.packets ==> Remove(t, id).buffered == t.buffered - t.packets[id].received
    ensures Remove(t, id).buffered <= t.buffered
    ensures |Remove(t, id).packets| == |t.packets| - (if id in t.packets then 1 else 0)
  {
    if id in t.packets {
      BytesRemove(t.packets, id);
    }
  }

  /** The packets that got their last new piece a timeout ago or longer. */
  ghost function PastDeadline(t: Table, now: nat): set<u32> {
    set id | id in t.packets && t.packets[id].updatedAt + t.limits.timeout <= now
  }

  /** The packet, if stored, got its last new piece less than a timeout ago. */
  predicate InTime(t: Table, id: u32, now: nat) {
    id in t.packets ==> now < t.packets[id].updatedAt + t.limits.timeout
  }

  /** The elapsed time that the program compares, as deadlines; a clock that went back expires nothing. */
  lemma ExpiredExactly(t: Table, now: nat)
    requires t.limits.timeout != 0
    ensures ExpiredIds(t, now) == PastDeadline(t, now)
  {
  }

  /**
    Expiry likewise. What stays is exactly what got a new piece less than a timeout ago, unchanged; the rest is
    gone, with its bytes, and counted.
   */
  lemma ExpireExact(t: Table, now: nat)
    requires Consistent(t)
    ensures Consistent(Expire(t, now))
    ensures forall id :: id in Expire(t, now).packets <==>
              id in t.packets && now < t.packets[id].updatedAt + t.limits.timeout
    ensures forall id :: id in Expire(t, now).packets ==> Expire(t, now).packets[id] == t.packets[id]
    ensures t.buffered == Expire(t, now).buffered + BytesOf(Among(t.packets, PastDeadline(t, now)))
    ensures |Expire(t, now).packets| == |t.packets| - |PastDeadline(t, now)|
    ensures Expire(t, now).stats ==
              t.stats.(packetsExpired := SatAdd(t.stats.packetsExpired, |PastDeadline(t, now)|))
  {
    ExpiredExactly(t, now);
    var gone := ExpiredIds(t, now);
    BytesSplit(t.packets, gone);
    assert (t.packets - gone).Keys == t.packets.Keys - gone;
  }

  lemma ExpiryInInstants(t: Table, now: nat)
    requires Invariant(t)
    ensures ExpiredIds(t, now) == PastDeadline(t, now)
    ensures var u := Expire(t, now);
            && (forall id :: id in u.packets <==> id in t.packets && now < t.packets[id].updatedAt + t.limits.timeout)
            && (forall id :: id in u.packets ==> u.packets[id] == t.packets[id])
            && |u.packets| == |t.packets| - |PastDeadline(t, now)|
  {
    hide BytesOf, Among;
    ExpiredExactly(t, now);
    ExpireExact(t, now);
  }

  /** Removing in any order comes to the same: one packet more is one packet more without. */
  lemma WithoutNone(t: Table)
    ensures Without(t, {}) == t
  {
    assert Among(t.packets, {}) == map[] && t.packets - {} == t.packets;
    assert Received(map[]) == map[];
  }

  lemma WithoutKeepsTheRest(t: Table, gone: set<u32>)
    ensures Without(t, gone).stats == t.stats && Without(t, gone).limits == t.limits
  {
  }

  lemma WithoutOneMore(t: Table, gone: set<u32>, id: u32)
    requires id in t.packets && id !in gone
    ensures Remove(Without(t, gone), id) == Without(t, gone + {id})
  {
    BytesInsert(Among(t.packets, gone), id, t.packets[id]);
    assert Among(t.packets, gone + {id}) == Among(t.packets, gone)[id := t.packets[id]];
    assert t.packets - gone - {id} == t.packets - (gone + {id});
  }

  lemma PreparedKeepsInvariant(t: Table, now: nat)
    requires Invariant(t)
    ensures Invariant(Prepared(t, now))
    ensures Prepared(t, now).limits == t.limits
    ensures forall id :: id in Prepared(t, now).packets <==>
              id in t.packets && now < t.packets[id].updatedAt + t.limits.timeout
    ensures forall id :: id in Prepared(t, now).packets ==> Prepared(t, now).packets[id] == t.packets[id]
  {
    var counted := t.(stats := t.stats.(fragmentsReceived := SatAdd(t.stats.fragmentsReceived, 1)));
    ExpireExact(counted, now);
  }

  /** A fragment that is in bounds and overlaps nothing extends a partial packet. */
  lemma WithPieceValid(p: Partial, f: Fragment, now: nat)
    requires InBounds(f) && p.totalLen == f.totalLen
    requires PartialValid(p) || p == Partial(f.totalLen, [], 0, now)
    requires Scan(p.pieces, f) == Fresh && |p.pieces| < MAX_FRAGMENTS
    ensures var q := WithPiece(p, f, now);
            && Disjoint(q.pieces, 0, q.totalLen)
            && q.received == SumLen(q.pieces) <= q.totalLen
            && 0 < |q.pieces| <= MAX_FRAGMENTS
  {
    InsertKeepsDisjoint(p.pieces, f, 0, p.totalLen);
    DisjointFits(WithPiece(p, f, now).pieces, 0, p.totalLen);
  }

  /** A partial packet that an ingest puts back is a valid one. */
  lemma HeldPartialValid(t: Table, now: nat, f: Fragment)
    requires AllValid(t.packets) && InBounds(f)
    ensures var p := PartialFor(t, f, now);
            && (Scan(p.pieces, f) == Duplicate ==> PartialValid(p) && p.received < MAX_IP_PACKET_LEN)
            && (p.totalLen == f.totalLen && Scan(p.pieces, f) == Fresh && |p.pieces| < MAX_FRAGMENTS ==>
                  var q := WithPiece(p, f, now);
                  q.received == q.totalLen || (PartialValid(q) && q.received < MAX_IP_PACKET_LEN))
  {
    var p := PartialFor(t, f, now);
    if p.totalLen == f.totalLen && Scan(p.pieces, f) == Fresh && |p.pieces| < MAX_FRAGMENTS {
      WithPieceValid(p, f, now);
    }
  }

  /** An ingest takes the packet out of the table; what it may put back is valid. */
  lemma AdmitExact(t: Table, now: nat, datagram: seq<byte>)
    requires Consistent(t)
    ensures var o := Admit(t, now, datagram);
            && Consistent(o.table)
            && o.table.limits == t.limits
            && o.table.buffered <= t.buffered
            && (Decode(datagram).Ok? ==>
                  && o.table.packets == t.packets - {Decode(datagram).value.packetId}
                  && o.table.buffered == Remove(t, Decode(datagram).value.packetId).buffered)
            && (Decode(datagram).Err? ==> o == Reject(t, Decode(datagram).error))
            && (o.Hold? ==>
                  && PartialValid(o.partial) && o.partial.received < MAX_IP_PACKET_LEN
                  && o.id == Decode(datagram).value.packetId)
  {
    hide Inspect, Assemble, Decode, Scan, PartialValid, Insert, BytesOf;
    if Decode(datagram).Ok? {
      var f := Decode(datagram).value;
      RemoveExact(t, f.packetId);
      assert Remove(t, f.packetId).packets == t.packets - {f.packetId};
      HeldPartialValid(t, now, f);
    }
  }

  /** Reassembly-time bounds errors cannot happen: a full packet is refused only for its IP header. */
  lemma FullPacketAssembles(p: Partial)
    requires Disjoint(p.pieces, 0, p.totalLen) && p.received == SumLen(p.pieces) == p.totalLen
    ensures Assemble(p.pieces, []).Ok? && |Assemble(p.pieces, []).value| == p.totalLen
    ensures forall t, id :: Settle(t, id, p) ==
              var packet := Assemble(p.pieces, []).value;
              if Inspect(packet).Ok? then Deliver(t, packet) else Reject(t, Inspect(packet).error)
    ensures forall i :: 0 <= i < |p.pieces| ==>
              && p.pieces[i].End() <= p.totalLen
              && Assemble(p.pieces, []).value[p.pieces[i].offset..p.pieces[i].End()] == p.pieces[i].payload
  {
    FullPiecesTile(p.pieces, [], p.totalLen);
  }

  /** No run can make an ingest of a decodable datagram answer with a bounds error: a full packet has no gap. */
  lemma IngestNeverOutOfBounds(t: Table, now: nat, datagram: seq<byte>, victims: seq<u32>)
    requires Invariant(t) && Decode(datagram).Ok?
    ensures Ingest(t, now, datagram, victims).1 != Err(FragmentBounds)
  {
    hide Inspect, Assemble, Decode, Scan, Insert, Invariant, Prepared;
    var u, f := Prepared(t, now), Decode(datagram).value;
    PreparedKeepsInvariant(t, now);
    DecodedInBounds(datagram);
    SettlesInBounds(u, now, f);
  }

  lemma DecodedInBounds(datagram: seq<byte>)
    requires Decode(datagram).Ok?
    ensures InBounds(Decode(datagram).value)
  {
  }

  /** Whatever the fragment turns the packet into settles without a bounds error. */
  lemma SettlesInBounds(u: Table, now: nat, f: Fragment)
    requires Invariant(u) && InBounds(f)
    ensures var p := PartialFor(u, f, now);
            && (Scan(p.pieces, f) == Duplicate ==> p.received < p.totalLen)
            && (p.totalLen == f.totalLen && Scan(p.pieces, f) == Fresh && |p.pieces| < MAX_FRAGMENTS ==>
                  forall t, id :: Settle(t, id, WithPiece(p, f, now)) != Reject(t, FragmentBounds))
  {
    hide Assemble, Insert, Inspect, Scan;
    var p := PartialFor(u, f, now);
    HeldPartialValid(u, now, f);
    if p.totalLen == f.totalLen && Scan(p.pieces, f) == Fresh && |p.pieces| < MAX_FRAGMENTS {
      WithPieceValid(p, f, now);
      var q := WithPiece(p, f, now);
      if q.received == q.totalLen {
        FullPacketAssembles(q);
        InspectHasItsOwnErrors(Assemble(q.pieces, []).value);
      }
    }
  }

  lemma InspectHasItsOwnErrors(packet: seq<byte>)
    ensures Inspect(packet) != Err(FragmentBounds)
  {
  }

  // ----- make_room

  /** Eviction ends with room and keeps the books. */
  lemma {:induction false} EvictionsMakeRoom(t: Table, incoming: nat, victims: seq<u32>)
    requires Consistent(t) && ValidEvictions(t, incoming, victims)
    ensures Consistent(EvictAll(t, victims)) && HasRoom(EvictAll(t, victims), incoming)
    ensures EvictAll(t, victims).limits == t.limits
    ensures |EvictAll(t, victims).packets| + |victims| == |t.packets|
    decreases victims
  {
    if victims != [] {
      RemoveExact(t, victims[0]);
      EvictionsMakeRoom(EvictOne(t, victims[0]), incoming, victims[1..]);
    }
  }

  /** It takes the victims out and touches nothing else ... */
  lemma {:induction false} EvictionsTakeVictims(t: Table, victims: seq<u32>)
    ensures EvictAll(t, victims).packets == t.packets - (set v | v in victims)
    decreases victims
  {
    if victims != [] {
      EvictionsTakeVictims(EvictOne(t, victims[0]), victims[1..]);
      assert victims == [victims[0]] + victims[1..];
      assert (set v | v in victims) == {victims[0]} + (set v | v in victims[1..]);
    }
  }

  /** ... and every victim was stored and is no newer than any packet that stayed. */
  lemma {:induction false} VictimsAreOldest(t: Table, incoming: nat, victims: seq<u32>, v: u32, id: u32)
    requires ValidEvictions(t, incoming, victims)
    requires v in victims && id in t.packets && id !in victims
    ensures v in t.packets && t.packets[v].updatedAt <= t.packets[id].updatedAt
    decreases victims
  {
    if v != victims[0] {
      VictimsAreOldest(EvictOne(t, victims[0]), incoming, victims[1..], v, id);
    }
  }

  /** There is always an oldest packet to evict ... */
  lemma {:induction false} OldestExists(t: Table, among: set<u32>) returns (id: u32)
    requires among != {} && among <= t.packets.Keys
    ensures id in among && forall other :: other in among ==> t.packets[id].updatedAt <= t.packets[other].updatedAt
    decreases |among|
  {
    var first :| first in among;
    id := first;
    if among != {first} {
      var rest := OldestExists(t, among - {first});
      if t.packets[rest].updatedAt < t.packets[first].updatedAt {
        id := rest;
      }
      assert forall other :: other in among ==> other == first || other in among - {first};
    }
  }

  /** ... so `make_room` always ends with room for a packet of legal size. */
  lemma {:induction false} RoomCanBeMade(t: Table, incoming: nat) returns (victims: seq<u32>)
    requires Consistent(t) && incoming <= MAX_IP_PACKET_LEN
    ensures ValidEvictions(t, incoming, victims)
    decreases |t.packets|
  {
    if HasRoom(t, incoming) {
      victims := [];
    } else {
      assert t.packets != map[];
      var id := OldestExists(t, t.packets.Keys);
      RemoveExact(t, id);
      var rest := RoomCanBeMade(EvictOne(t, id), incoming);
      victims := [id] + rest;
    }
  }

  // ----- every run

  lemma StoreKeepsInvariant(t: Table, id: u32, p: Partial, victims: seq<u32>)
    requires Consistent(t) && id !in t.packets && PartialValid(p)
    requires ValidEvictions(t, p.received, victims)
    ensures Invariant(Store(t, id, p, victims)) && Store(t, id, p, victims).limits == t.limits
  {
    EvictionsMakeRoom(t, p.received, victims);
    EvictionsTakeVictims(t, victims);
    var v := EvictAll(t, victims);
    BytesInsert(v.packets, id, p);
    assert v.packets[id := p].Keys == v.packets.Keys + {id};
  }

  lemma IngestKeepsInvariant(t: Table, now: nat, datagram: seq<byte>, victims: seq<u32>)
    requires Invariant(t) && LegalIngest(t, now, datagram, victims)
    ensures Invariant(Ingest(t, now, datagram, victims).0)
    ensures Ingest(t, now, datagram, victims).0.limits == t.limits
  {
    PreparedKeepsInvariant(t, now);
    var u := Prepared(t, now);
    AdmitExact(u, now, datagram);
    var o := Admit(u, now, datagram);
    if o.Hold? {
      StoreKeepsInvariant(o.table, o.id, o.partial, victims);
    } else {
      CardinalityMonotone(o.table.packets.Keys, u.packets.Keys);
    }
  }

  /** An ingest leaves the packets of other ids as they were, unless they are past their deadline or evicted. */
  lemma IngestLeavesOthers(t: Table, now: nat, datagram: seq<byte>, victims: seq<u32>, other: u32)
    requires Invariant(t)
    requires Decode(datagram).Ok? ==> Decode(datagram).value.packetId != other
    ensures var u := Ingest(t, now, datagram, victims).0;
            && (other in u.packets ==> other in t.packets && u.packets[other] == t.packets[other])
            && (other in t.packets && now < t.packets[other].updatedAt + t.limits.timeout && other !in victims ==>
                  other in u.packets)
  {
    hide Admit, Settle, Decode, Inspect, Assemble, Consistent, BytesOf, Among, PartialValid, SatAdd, SatSub;
    PreparedKeepsInvariant(t, now);
    var p := Prepared(t, now);
    AdmitExact(p, now, datagram);
    var o := Admit(p, now, datagram);
    if o.Hold? {
      EvictionsTakeVictims(o.table, victims);
    }
  }

  lemma {:induction false} CardinalityMonotone<T>(a: set<T>, b: set<T>)
    requires a <= b
    ensures |a| <= |b|
  {
    assert b == a + (b - a);
  }

  lemma StepKeepsInvariant(t: Table, op: Op)
    requires Invariant(t) && LegalOp(t, op)
    ensures Invariant(Step(t, op)) && Step(t, op).limits == t.limits
  {
    match op
    case OpIngest(now, datagram, victims) =>
      IngestKeepsInvariant(t, now, datagram, victims);
    case OpExpire(now) => ExpireExact(t, now);
    case OpEvict(id) => RemoveExact(t, id);
    case OpReject(id) =>
      var s := t.stats;
      RemoveExact(t.(stats := s.(fragmentsReceived := SatAdd(s.fragmentsReceived, 1),
                                 fragmentsRejected := SatAdd(s.fragmentsRejected, 1))), id);
    case OpClear =>
  }

  /** The counter, the caps and the shape of every stored packet, over every run. */
  lemma {:induction false} EveryRunKeepsInvariant(t: Table, ops: seq<Op>)
    requires Invariant(t) && LegalRun(t, ops)
    ensures Invariant(Run(t, ops)) && Run(t, ops).limits == t.limits
    decreases ops
  {
    if ops != [] {
      StepKeepsInvariant(t, ops[0]);
      EveryRunKeepsInvariant(Step(t, ops[0]), ops[1..]);
    }
  }

  /** From a fresh reassembler: the form in which a caller meets the invariant. */
  lemma ReachableTables(limits: Limits, ops: seq<Op>)
    requires New(limits).Ok? && LegalRun(New(limits).value, ops)
    ensures var t := Run(New(limits).value, ops);
            && t.buffered == BytesOf(t.packets) <= limits.maxBuffered
            && |t.packets| <= limits.maxInflight
            && (forall id :: id in t.packets ==>
                  var p := t.packets[id];
                  && 0 < |p.pieces| <= MAX_FRAGMENTS
                  && p.received == SumLen(p.pieces) < p.totalLen
                  && (forall i :: 0 <= i < |p.pieces| ==> 0 < |p.pieces[i].payload| && p.pieces[i].End() <= p.totalLen)
                  && (forall i, j :: 0 <= i < j < |p.pieces| ==> p.pieces[i].End() <= p.pieces[j].offset))
  {
    EveryRunKeepsInvariant(New(limits).value, ops);
    var t := Run(New(limits).value, ops);
    forall id | id in t.packets
      ensures var p := t.packets[id];
              && (forall i :: 0 <= i < |p.pieces| ==> 0 < |p.pieces[i].payload| && p.pieces[i].End() <= p.totalLen)
              && (forall i, j :: 0 <= i < j < |p.pieces| ==> p.pieces[i].End() <= p.pieces[j].offset)
    {
      var p := t.packets[id];
      forall i | 0 <= i < |p.pieces|
        ensures 0 < |p.pieces[i].payload| && p.pieces[i].End() <= p.totalLen
      {
        DisjointAt(p.pieces, 0, p.totalLen, i);
      }
      forall i, j | 0 <= i < j < |p.pieces|
        ensures p.pieces[i].End() <= p.pieces[j].offset
      {
        DisjointPair(p.pieces, 0, p.totalLen, i, j);
      }
    }
  }

  lemma {:induction false} DisjointPair(pieces: seq<Piece>, from: nat, to: nat, i: nat, j: nat)
    requires Disjoint(pieces, from, to) && i < j < |pieces|
    ensures pieces[i].End() <= pieces[j].offset
  {
    if i == 0 {
      DisjointAt(pieces[1..], pieces[0].End(), to, j - 1);
    } else {
      DisjointPair(pieces[1..], pieces[0].End(), to, i - 1, j - 1);
    }
  }
}
