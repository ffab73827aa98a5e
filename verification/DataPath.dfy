/**
  One identity's data path (src/vpn_data_path.rs, `VpnDataPathHandle::ingest_datagram` and what it
  calls): two reassemblers under one lock, kept inside the identity's limits and booked against the
  server-wide budget.

  Other data paths change the budget counters at any moment, so whether a reservation is granted is
  an input (`Grants`), and the updates this data path makes are recorded in `trace`.
 */
module DataPath {
  import opened Wrappers
  import opened Bytes
  import opened IpPacket
  import opened FragmentCodec
  import opened Pieces
  import opened Reassembly
  import opened Predictors
  import opened Reassembler
  import opened GlobalBudget

  const MAX_INFLIGHT := 1024
  const FRAGMENT_TIMEOUT := 3_000_000_000

  datatype Direction = Uplink | Downlink

  datatype QuotaRejection =
    | InvalidDatagramSize
    | PacketRateExceeded
    | ByteRateExceeded
    | IdentityReassemblyLimit
    | GlobalReassemblyLimit
    | IdentityInflightLimit
    | GlobalInflightLimit

  datatype DataPathError =
    | StaleGeneration
    | NegotiatedPacketTooLarge
    | Quota(rejection: QuotaRejection)
    | Refused(error: PacketError)
    | ResourceAccountingInvariant

  /** Whether the budget's two bounded additions find room at the moment they are made. */
  datatype Grants = Grants(bytes: bool, packets: bool)

  // ----- what an ingest does to the size of one table

  /** Every packet got a new piece less than a timeout ago. */
  predicate NothingExpired(t: Table, now: nat) {
    forall id :: id in t.packets ==> now < t.packets[id].updatedAt + t.limits.timeout
  }

  lemma ExpireLeavesNothingExpired(t: Table, now: nat)
    requires Invariant(t)
    ensures NothingExpired(Expire(t, now), now)
    ensures |Expire(t, now).packets| <= |t.packets| && Expire(t, now).buffered <= t.buffered
    ensures Expire(t, now).limits == t.limits
  {
    ExpireExact(t, now);
  }

  lemma RejectShrinks(t: Table, id: u32)
    requires Invariant(t)
    ensures |RejectDecoded(t, id).packets| <= |t.packets| && RejectDecoded(t, id).buffered <= t.buffered
  {
    var s := t.stats;
    RemoveExact(t.(stats := s.(fragmentsReceived := SatAdd(s.fragmentsReceived, 1),
                               fragmentsRejected := SatAdd(s.fragmentsRejected, 1))), id);
  }

  lemma SinglePacketBytes(t: Table, id: u32)
    requires Invariant(t) && t.packets.Keys <= {id}
    ensures |t.packets| <= 1
    ensures t.buffered == if id in t.packets then t.packets[id].received else 0
  {
    if id in t.packets {
      BytesRemove(t.packets, id);
      assert t.packets.Keys == {id} && t.packets - {id} == map[];
    } else {
      assert t.packets == map[];
    }
    assert Received(map[]) == map[];
  }

  lemma PreparedUnchanged(t: Table, now: nat)
    requires Invariant(t) && NothingExpired(t, now)
    ensures Prepared(t, now).packets == t.packets && Prepared(t, now).buffered == t.buffered
    ensures Prepared(t, now).limits == t.limits
  {
    ExpiredExactly(t, now);
    assert PastDeadline(t, now) == {};
    WithoutNone(t.(stats := t.stats.(fragmentsReceived := SatAdd(t.stats.fragmentsReceived, 1))));
  }

  /** One more packet for a new id, none for a known one. */
  function NewPackets(t: Table, f: Fragment): nat {
    if f.packetId in t.packets then 0 else 1
  }

  /** The predictors look at the stored packets only. */
  lemma SameTablePredictions(t: Table, u: Table)
    requires t.packets == u.packets
    ensures forall f :: AdditionalBytes(t, f) == AdditionalBytes(u, f)
    ensures forall f :: ReceivedFor(t, f) == ReceivedFor(u, f)
  {
  }

  /** A refused or completing fragment never makes the table larger. */
  lemma IngestShrinks(t: Table, now: nat, datagram: seq<byte>, victims: seq<u32>)
    requires Invariant(t) && NothingExpired(t, now) && LegalIngest(t, now, datagram, victims)
    requires Decode(datagram).Ok? ==>
               var f := Decode(datagram).value;
               AdditionalBytes(t, f).Err? || AdditionalBytes(t, f) == Ok(0) || WillComplete(t, f)
    ensures var u := Ingest(t, now, datagram, victims).0;
            u.buffered <= t.buffered && |u.packets| <= |t.packets|
    ensures Decode(datagram).Err? ==> Ingest(t, now, datagram, victims).1 == Err(Decode(datagram).error)
  {
    hide Admit, Consistent, Decode, Prepared, Predictors.AdditionalBytes;
    PreparedUnchanged(t, now);
    PreparedKeepsInvariant(t, now);
    var p := Prepared(t, now);
    SameTablePredictions(t, p);
    AdmitExact(p, now, datagram);
    if Decode(datagram).Ok? {
      var f := Decode(datagram).value;
      PredictedOutcome(p, f, now, datagram);
      CardinalityMonotone((p.packets - {f.packetId}).Keys, p.packets.Keys);
      if AdditionalBytes(t, f) == Ok(0) {
        RepeatChangesNothing(t, f, now, datagram, victims);
      }
    }
  }

  /** A fragment that is stored grows the table by exactly what was predicted, evicting nothing if there was room. */
  lemma IngestGrows(t: Table, now: nat, datagram: seq<byte>, victims: seq<u32>)
    requires Invariant(t) && NothingExpired(t, now) && LegalIngest(t, now, datagram, victims)
    requires Decode(datagram).Ok?
    requires var f := Decode(datagram).value;
             && AdditionalBytes(t, f).Ok? && AdditionalBytes(t, f).value > 0 && !WillComplete(t, f)
             && |t.packets| + NewPackets(t, f) <= t.limits.maxInflight
             && t.buffered + AdditionalBytes(t, f).value <= t.limits.maxBuffered
    ensures victims == []
    ensures var f, u := Decode(datagram).value, Ingest(t, now, datagram, victims).0;
            && u.buffered == t.buffered + AdditionalBytes(t, f).value
            && |u.packets| == |t.packets| + NewPackets(t, f)
  {
    hide Admit, Consistent, Decode, Prepared, Predictors.AdditionalBytes;
    var f := Decode(datagram).value;
    PreparedUnchanged(t, now);
    PreparedKeepsInvariant(t, now);
    var p := Prepared(t, now);
    SameTablePredictions(t, p);
    PredictedOutcome(p, f, now, datagram);
    AdmitExact(p, now, datagram);
    RemoveExact(p, f.packetId);
    var o := Admit(p, now, datagram);
    assert HasRoom(o.table, o.partial.received);
    assert (o.table.packets[f.packetId := o.partial]).Keys == o.table.packets.Keys + {f.packetId};
  }

  /** Under either promise, an ingest keeps the table and grows it by no more than was reserved for it. */
  lemma GrowthIsReserved(t: Table, now: nat, datagram: seq<byte>, f: Fragment, bytes: nat, packets: nat)
    requires Invariant(t) && NothingExpired(t, now) && Decode(datagram) == Ok(f)
    requires bytes > 0 && AdditionalBytes(t, f) == Ok(bytes) && packets == NewPackets(t, f)
    requires WillComplete(t, f) ||
             (t.buffered + bytes <= t.limits.maxBuffered && |t.packets| + packets <= t.limits.maxInflight)
    ensures forall victims :: LegalIngest(t, now, datagram, victims) ==>
              var (u, r) := Ingest(t, now, datagram, victims);
              && Invariant(u)
              && u.buffered <= t.buffered + (if WillComplete(t, f) then 0 else bytes)
              && |u.packets| <= |t.packets| + (if WillComplete(t, f) then 0 else packets)
              && (r.Ok? && r.value.Some? ==> |r.value.value| == f.totalLen)
  {
    hide Invariant, Ingest, LegalIngest, AdditionalBytes, Decode, NothingExpired, NewPackets, WillComplete;
    forall victims | LegalIngest(t, now, datagram, victims)
      ensures var (u, r) := Ingest(t, now, datagram, victims);
              && Invariant(u)
              && u.buffered <= t.buffered + (if WillComplete(t, f) then 0 else bytes)
              && |u.packets| <= |t.packets| + (if WillComplete(t, f) then 0 else packets)
              && (r.Ok? && r.value.Some? ==> |r.value.value| == f.totalLen)
    {
      DeliveredPacket(t, now, datagram, victims);
      IngestKeepsInvariant(t, now, datagram, victims);
      if WillComplete(t, f) {
        IngestShrinks(t, now, datagram, victims);
      } else {
        IngestGrows(t, now, datagram, victims);
      }
    }
  }

  /** A stored fragment never exceeds the packet it belongs to. */
  lemma PredictedGrowthFits(t: Table, f: Fragment)
    requires Invariant(t) && InBounds(f)
    requires AdditionalBytes(t, f).Ok? && AdditionalBytes(t, f).value > 0
    ensures ReceivedFor(t, f) + AdditionalBytes(t, f).value <= MAX_IP_PACKET_LEN
  {
    var p := PartialFor(t, f, 0);
    WithPieceValid(p, f, 0);
  }

  /** What is delivered is a well-formed packet of the announced length. */
  lemma DeliveredPacket(t: Table, now: nat, datagram: seq<byte>, victims: seq<u32>)
    ensures var r := Ingest(t, now, datagram, victims).1;
            r.Ok? && r.value.Some? ==>
              Decode(datagram).Ok? && Inspect(r.value.value).Ok? && |r.value.value| == Decode(datagram).value.totalLen
  {
    hide Inspect, Decode, Assemble, Scan, Prepared;
  }

  /** The table lost packets but nothing else happened to those it kept. */
  ghost predicate SubTable(t: Table, u: Table) {
    && t.limits == u.limits
    && t.packets.Keys <= u.packets.Keys
    && (forall id :: id in t.packets ==> t.packets[id] == u.packets[id])
  }

  lemma SubTableSelf(t: Table)
    ensures SubTable(t, t)
  {
  }

  lemma SubTableNothingExpired(t: Table, u: Table, now: nat)
    requires SubTable(t, u) && NothingExpired(u, now)
    ensures NothingExpired(t, now)
  {
  }

  lemma SamePacketPredictions(t: Table, u: Table, f: Fragment)
    requires f.packetId in t.packets <==> f.packetId in u.packets
    requires f.packetId in t.packets ==> t.packets[f.packetId] == u.packets[f.packetId]
    ensures AdditionalBytes(t, f) == AdditionalBytes(u, f)
    ensures ReceivedFor(t, f) == ReceivedFor(u, f) && NewPackets(t, f) == NewPackets(u, f)
  {
  }

  // ----- room for a fragment

  /** The tables of both directions. */
  datatype Sides = Sides(up: Table, down: Table)

  function On(s: Sides, d: Direction): Table {
    if d == Uplink then s.up else s.down
  }

  function Opposite(d: Direction): Direction {
    if d == Uplink then Downlink else Uplink
  }

  /** A stored packet of either direction. */
  datatype Place = Place(direction: Direction, id: u32)

  /** Both directions together have room for this much more. */
  predicate HasSpace(s: Sides, bytes: nat, packets: nat, maxBytes: nat) {
    && s.up.buffered + s.down.buffered + bytes <= maxBytes
    && |s.up.packets| + |s.down.packets| + packets <= MAX_INFLIGHT
  }

  /**
    A packet of either direction that no other is older than, leaving aside `mine`. Among equally old ones the
    uplink's goes first; within a direction the hash map decides.
   */
  predicate OldestBut(s: Sides, mine: Place, p: Place) {
    && p != mine && p.id in On(s, p.direction).packets
    && (forall d, id :: id in On(s, d).packets && Place(d, id) != mine ==>
          On(s, p.direction).packets[p.id].updatedAt <= On(s, d).packets[id].updatedAt)
    && (p.direction == Downlink ==>
          forall id :: id in s.up.packets && Place(Uplink, id) != mine ==>
            s.down.packets[p.id].updatedAt < s.up.packets[id].updatedAt)
  }

  function DropOne(s: Sides, p: Place): Sides {
    if p.direction == Uplink then s.(up := EvictOne(s.up, p.id)) else s.(down := EvictOne(s.down, p.id))
  }

  function DropAll(s: Sides, drops: seq<Place>): Sides
    decreases drops
  {
    if drops == [] then s else DropAll(DropOne(s, drops[0]), drops[1..])
  }

  /** Dropping an oldest packet but one's own while there is no room, and not once more. */
  predicate NeededDrops(s: Sides, mine: Place, bytes: nat, packets: nat, maxBytes: nat, drops: seq<Place>)
    decreases drops
  {
    if drops == [] then HasSpace(s, bytes, packets, maxBytes)
    else
      && !HasSpace(s, bytes, packets, maxBytes)
      && OldestBut(s, mine, drops[0])
      && NeededDrops(DropOne(s, drops[0]), mine, bytes, packets, maxBytes, drops[1..])
  }

  /** The same with the loop still running. */
  predicate Dropping(s: Sides, mine: Place, bytes: nat, packets: nat, maxBytes: nat, drops: seq<Place>)
    decreases drops
  {
    drops == [] ||
    (&& !HasSpace(s, bytes, packets, maxBytes)
     && OldestBut(s, mine, drops[0])
     && Dropping(DropOne(s, drops[0]), mine, bytes, packets, maxBytes, drops[1..]))
  }

  lemma {:induction false} DroppingOneMore(
    s: Sides, mine: Place, bytes: nat, packets: nat, maxBytes: nat, drops: seq<Place>, p: Place)
    requires Dropping(s, mine, bytes, packets, maxBytes, drops)
    requires var u := DropAll(s, drops); !HasSpace(u, bytes, packets, maxBytes) && OldestBut(u, mine, p)
    ensures Dropping(s, mine, bytes, packets, maxBytes, drops + [p])
    ensures DropAll(s, drops + [p]) == DropOne(DropAll(s, drops), p)
    decreases drops
  {
    hide HasSpace, OldestBut, DropOne;
    if drops != [] {
      DroppingOneMore(DropOne(s, drops[0]), mine, bytes, packets, maxBytes, drops[1..], p);
      assert (drops + [p])[1..] == drops[1..] + [p];
    }
  }

  lemma {:induction false} DroppingEnough(
    s: Sides, mine: Place, bytes: nat, packets: nat, maxBytes: nat, drops: seq<Place>)
    requires Dropping(s, mine, bytes, packets, maxBytes, drops)
    requires HasSpace(DropAll(s, drops), bytes, packets, maxBytes)
    ensures NeededDrops(s, mine, bytes, packets, maxBytes, drops)
    decreases drops
  {
    hide HasSpace, OldestBut, DropOne;
    if drops != [] {
      DroppingEnough(DropOne(s, drops[0]), mine, bytes, packets, maxBytes, drops[1..]);
    }
  }

  /** What the drops needed come to. */
  lemma {:induction false} NeededIsEnough(
    s: Sides, mine: Place, bytes: nat, packets: nat, maxBytes: nat, drops: seq<Place>)
    requires NeededDrops(s, mine, bytes, packets, maxBytes, drops)
    ensures HasSpace(DropAll(s, drops), bytes, packets, maxBytes)
    ensures SubTable(DropAll(s, drops).up, s.up) && SubTable(DropAll(s, drops).down, s.down)
    ensures KeepsPacket(On(DropAll(s, drops), mine.direction), On(s, mine.direction), mine.id)
    decreases drops
  {
    hide HasSpace, DropOne;
    if drops != [] {
      DropOneSpares(s, mine, drops[0]);
      NeededIsEnough(DropOne(s, drops[0]), mine, bytes, packets, maxBytes, drops[1..]);
    }
  }

  /** Nothing is dropped exactly if both directions together leave room for it, limits included. */
  lemma DropsOnlyForWant(s: Sides, mine: Place, bytes: nat, packets: nat, maxBytes: nat, drops: seq<Place>)
    requires NeededDrops(s, mine, bytes, packets, maxBytes, drops)
    ensures drops == [] <==>
              && s.up.buffered + s.down.buffered + bytes <= maxBytes
              && |s.up.packets| + |s.down.packets| + packets <= 1024
  {
  }

  function DropTime(s: Sides, p: Place): nat {
    if p.id in On(s, p.direction).packets then On(s, p.direction).packets[p.id].updatedAt else 0
  }

  /** And every packet dropped was stored, is not one's own, and is no newer than any other that stays. */
  lemma {:induction false} DropsAreOldest(
    s: Sides, mine: Place, bytes: nat, packets: nat, maxBytes: nat, drops: seq<Place>, p: Place, other: Place)
    requires NeededDrops(s, mine, bytes, packets, maxBytes, drops) && p in drops
    requires other != mine && other !in drops && other.id in On(s, other.direction).packets
    ensures p != mine && p.id in On(s, p.direction).packets && DropTime(s, p) <= DropTime(s, other)
    decreases drops
  {
    hide HasSpace;
    if p != drops[0] {
      DropsAreOldest(DropOne(s, drops[0]), mine, bytes, packets, maxBytes, drops[1..], p, other);
    }
  }

  lemma DropOneSpares(s: Sides, mine: Place, p: Place)
    requires p != mine && p.id in On(s, p.direction).packets
    ensures SubTable(DropOne(s, p).up, s.up) && SubTable(DropOne(s, p).down, s.down)
    ensures KeepsPacket(On(DropOne(s, p), mine.direction), On(s, mine.direction), mine.id)
  {
  }

  /** Drops take packets out of both tables, never one's own, and do nothing else to what stays. */
  lemma {:induction false} DropsSpareMine(
    s: Sides, mine: Place, bytes: nat, packets: nat, maxBytes: nat, drops: seq<Place>)
    requires Dropping(s, mine, bytes, packets, maxBytes, drops)
    ensures SubTable(DropAll(s, drops).up, s.up) && SubTable(DropAll(s, drops).down, s.down)
    ensures KeepsPacket(On(DropAll(s, drops), mine.direction), On(s, mine.direction), mine.id)
    decreases drops
  {
    hide HasSpace, DropOne;
    if drops != [] {
      var t := DropOne(s, drops[0]);
      DropOneSpares(s, mine, drops[0]);
      DropsSpareMine(t, mine, bytes, packets, maxBytes, drops[1..]);
    }
  }

  // ----- the answer to a datagram

  ghost predicate KeepsPacket(t: Table, u: Table, id: u32) {
    && (id in t.packets <==> id in u.packets)
    && (id in t.packets ==> t.packets[id] == u.packets[id])
  }

  /** The answer and the table left behind are the reassembler's own, on table `t`. */
  ghost predicate Answered(t: Table, now: nat, datagram: seq<byte>, victims: seq<u32>, after: Table, r: Delivery) {
    && LegalIngest(t, now, datagram, victims)
    && (after, r) == Reassembly.Ingest(t, now, datagram, victims)
  }

  predicate FromReassembler(r: Result<Option<seq<byte>>, DataPathError>) {
    r.Ok? || r.error.Refused?
  }

  function AsDelivery(r: Result<Option<seq<byte>>, DataPathError>): Delivery
    requires FromReassembler(r)
  {
    if r.Ok? then Ok(r.value) else Err(r.error.error)
  }

  /**
    What `ingest_datagram` does to the table of its direction, from the table `e` that expiry leaves: it may
    drop other packets, down to `t`, and then answers as the reassembler does on `t`.
   */
  ghost predicate Handled(e: Table, now: nat, datagram: seq<byte>, t: Table, victims: seq<u32>, after: Table,
                          r: Result<Option<seq<byte>>, DataPathError>)
    requires FromReassembler(r)
  {
    && OnlyOthersDropped(e, t, datagram)
    && Answered(t, now, datagram, victims, after, AsDelivery(r))
  }

  /** From `e` to `t` nothing was lost but packets of other ids than the datagram's. */
  ghost predicate OnlyOthersDropped(e: Table, t: Table, datagram: seq<byte>) {
    SubTable(t, e) && (Decode(datagram).Ok? ==> KeepsPacket(t, e, Decode(datagram).value.packetId))
  }

  ghost function Expired(s: Sides, now: nat): Sides {
    Sides(Reassembly.Expire(s.up, now), Reassembly.Expire(s.down, now))
  }

  /** The datagram announces a packet over the negotiated size. */
  predicate TooLarge(datagram: seq<byte>, maxIpPacketLen: nat) {
    Decode(datagram).Ok? && Decode(datagram).value.totalLen > maxIpPacketLen
  }

  /** The datagram brings bytes that the table does not have yet and may take. */
  predicate Grows(t: Table, datagram: seq<byte>, maxIpPacketLen: nat) {
    && Decode(datagram).Ok? && !TooLarge(datagram, maxIpPacketLen)
    && AdditionalBytes(t, Decode(datagram).value).Ok? && AdditionalBytes(t, Decode(datagram).value).value > 0
  }

  /** The drops that a growing fragment needs; one that completes its packet needs no room. */
  predicate RoomMade(s: Sides, direction: Direction, f: Fragment, maxBytes: nat, drops: seq<Place>) {
    var t := On(s, direction);
    && AdditionalBytes(t, f).Ok?
    && (if WillComplete(t, f) then NeededDrops(s, Place(direction, f.packetId), 0, 0, maxBytes, drops)
        else
          NeededDrops(s, Place(direction, f.packetId), AdditionalBytes(t, f).value, NewPackets(t, f), maxBytes, drops))
  }

  class VpnDataPath {
    const uplink: VpnReassembler
    const downlink: VpnReassembler
    const maxIpPacketLen: nat
    const maxReassemblyBytes: nat
    var active: bool
    var accountedBytes: nat
    var accountedPackets: nat
    ghost var trace: seq<BudgetOp>

    function BufferedBytes(): nat
      reads uplink, downlink
    {
      uplink.bufferedBytes + downlink.bufferedBytes
    }

    function InflightPackets(): nat
      reads uplink, downlink
    {
      |uplink.packets| + |downlink.packets|
    }

    function Side(direction: Direction): VpnReassembler {
      if direction == Uplink then uplink else downlink
    }

    function Other(direction: Direction): VpnReassembler {
      if direction == Uplink then downlink else uplink
    }

    ghost predicate KeptAs(direction: Direction, id: u32, p: Partial)
      reads uplink, downlink
    {
      id in Side(direction).packets && Side(direction).packets[id] == p
    }

    /** The two reassemblers are separate, each valid under the identity's limits. */
    ghost predicate Tables()
      reads uplink, downlink
    {
      && uplink != downlink && maxReassemblyBytes >= MAX_IP_PACKET_LEN
      && uplink.Valid() && downlink.Valid()
      && uplink.limits == downlink.limits == Limits(MAX_INFLIGHT, maxReassemblyBytes, FRAGMENT_TIMEOUT)
    }

    /** What this data path owns in the budget is what it has on its books. */
    ghost predicate Booked()
      reads this
    {
      Safe(trace) && Held(trace, ByteUnit) == accountedBytes && Held(trace, PacketUnit) == accountedPackets
    }

    /** The books cover the actual use. */
    ghost predicate Covered()
      reads this, uplink, downlink
    {
      BufferedBytes() <= accountedBytes && InflightPackets() <= accountedPackets
    }

    ghost predicate WithinLimits()
      reads uplink, downlink
    {
      BufferedBytes() <= maxReassemblyBytes && InflightPackets() <= MAX_INFLIGHT
    }

    /** Between calls: both directions together inside the limits, and the books exact. */
    ghost predicate Valid()
      reads this, uplink, downlink
    {
      && Tables() && Booked() && WithinLimits()
      && BufferedBytes() == accountedBytes && InflightPackets() == accountedPackets
    }

    /** The fallible constructor; both refusals are the same error. */
    static method Create(maxIpPacketLen: nat, maxReassemblyBytes: nat) returns (r: Result<VpnDataPath, PacketError>)
      ensures r.Ok? <==>
                MIN_IP_PACKET_LEN <= maxIpPacketLen <= MAX_IP_PACKET_LEN && MAX_IP_PACKET_LEN <= maxReassemblyBytes
      ensures r.Err? ==> r.error == InvalidReassemblyLimits
      ensures r.Ok? ==>
                && fresh(r.value) && fresh(r.value.uplink) && fresh(r.value.downlink)
                && r.value.Valid() && !r.value.active && r.value.trace == []
                && r.value.maxIpPacketLen == maxIpPacketLen && r.value.maxReassemblyBytes == maxReassemblyBytes
    {
      if !(MIN_IP_PACKET_LEN <= maxIpPacketLen <= MAX_IP_PACKET_LEN) || maxReassemblyBytes < MAX_IP_PACKET_LEN {
        return Err(InvalidReassemblyLimits);
      }
      var path := new VpnDataPath(maxIpPacketLen, maxReassemblyBytes);
      return Ok(path);
    }

    constructor (maxIpPacketLen: nat, maxReassemblyBytes: nat)
      requires MIN_IP_PACKET_LEN <= maxIpPacketLen <= MAX_IP_PACKET_LEN <= maxReassemblyBytes
      ensures Valid() && !active && trace == []
      ensures fresh(uplink) && fresh(downlink)
      ensures this.maxIpPacketLen == maxIpPacketLen && this.maxReassemblyBytes == maxReassemblyBytes
    {
      var limits := Limits(MAX_INFLIGHT, maxReassemblyBytes, FRAGMENT_TIMEOUT);
      uplink := new VpnReassembler(limits);
      downlink := new VpnReassembler(limits);
      this.maxIpPacketLen, this.maxReassemblyBytes := maxIpPacketLen, maxReassemblyBytes;
      active, accountedBytes, accountedPackets, trace := false, 0, 0, [];
    }

    method Release(unit: Unit, n: nat)
      requires Safe(trace) && n <= Held(trace, unit)
      modifies this`trace
      ensures Safe(trace) && old(trace) <= trace
      ensures Held(trace, unit) == Held(old(trace), unit) - n
      ensures forall other :: other != unit ==> Held(trace, other) == Held(old(trace), other)
    {
      hide Safe, Held;
      if n != 0 {
        SafeSnoc(trace, Sub(unit, n));
        trace := trace + [Sub(unit, n)];
      }
    }

    /** Gives back what is booked beyond the actual use; refuses if the books do not cover it. */
    method ReconcileShrink() returns (ok: bool)
      requires Tables() && Booked()
      modifies this
      ensures ok <==> old(Covered())
      ensures ok ==> Booked() && BufferedBytes() == accountedBytes && InflightPackets() == accountedPackets
      ensures active == old(active) && old(trace) <= trace
      ensures !ok ==> unchanged(this)
    {
      var bytes, packets := BufferedBytes(), InflightPackets();
      if bytes > accountedBytes || packets > accountedPackets {
        return false;
      }
      Release(ByteUnit, accountedBytes - bytes);
      Release(PacketUnit, accountedPackets - packets);
      accountedBytes, accountedPackets := bytes, packets;
      return true;
    }

    /** The two bounded additions, the second undoing the first when it is refused. */
    method TryReserve(bytes: nat, packets: nat, grants: Grants) returns (r: Option<QuotaRejection>)
      requires Safe(trace)
      modifies this`trace
      ensures Safe(trace) && old(trace) <= trace
      ensures r.None? <==> grants.bytes && grants.packets
      ensures Held(trace, ByteUnit) == Held(old(trace), ByteUnit) + (if r.None? then bytes else 0)
      ensures Held(trace, PacketUnit) == Held(old(trace), PacketUnit) + (if r.None? then packets else 0)
      ensures r == Some(GlobalReassemblyLimit) <==> !grants.bytes
      ensures r == Some(GlobalInflightLimit) <==> grants.bytes && !grants.packets
    {
      hide Safe, Held;
      SafeHeldNonNegative(trace, ByteUnit);
      SafeSnoc(trace, Add(ByteUnit, bytes, grants.bytes));
      trace := trace + [Add(ByteUnit, bytes, grants.bytes)];
      if !grants.bytes {
        return Some(GlobalReassemblyLimit);
      }
      SafeSnoc(trace, Add(PacketUnit, packets, grants.packets));
      trace := trace + [Add(PacketUnit, packets, grants.packets)];
      if !grants.packets {
        Release(ByteUnit, bytes);
        return Some(GlobalInflightLimit);
      }
      return None;
    }

    ghost function Both(): Sides
      reads uplink, downlink
    {
      Sides(uplink.State(), downlink.State())
    }

    /** Evicts one stored packet of one direction. */
    method EvictFrom(from: Direction, id: u32)
      requires Tables() && id in Side(from).packets
      modifies Side(from)
      ensures Tables() && Both() == DropOne(old(Both()), Place(from, id))
      ensures BufferedBytes() <= old(BufferedBytes()) && InflightPackets() == old(InflightPackets()) - 1
    {
      hide Consistent;
      RemoveExact(Side(from).State(), id);
      var _ := Side(from).EvictPacket(id);
    }

    /** Evicts an oldest packet of either direction, sparing the one being added to. */
    method EvictOldest(direction: Direction, packetId: u32, existing: bool)
      returns (evicted: bool, ghost victim: Place)
      requires Tables()
      requires existing <==> packetId in Side(direction).packets
      modifies uplink, downlink
      ensures Tables()
      ensures evicted <==> !old(OnlyMine(direction, packetId, existing))
      ensures !evicted ==> unchanged(uplink) && unchanged(downlink)
      ensures evicted ==>
                && OldestBut(old(Both()), Place(direction, packetId), victim)
                && Both() == DropOne(old(Both()), victim)
      ensures BufferedBytes() <= old(BufferedBytes())
      ensures InflightPackets() == old(InflightPackets()) - (if evicted then 1 else 0)
    {
      hide Invariant;
      victim := Place(direction, packetId);
      var candidate := OldestCandidate(direction, packetId, existing);
      if candidate.None? {
        return false, victim;
      }
      EvictFrom(candidate.value.direction, candidate.value.id);
      return true, candidate.value;
    }

    /** An oldest packet of either direction that is not spared. */
    method OldestCandidate(direction: Direction, packetId: u32, existing: bool) returns (r: Option<Place>)
      requires existing <==> packetId in Side(direction).packets
      ensures r.None? <==> OnlyMine(direction, packetId, existing)
      ensures r.Some? ==> OldestBut(Both(), Place(direction, packetId), r.value)
    {
      var spared := if existing then Some(packetId) else None;
      var up := uplink.OldestPacketUpdatedAt(if direction == Uplink then spared else None);
      var down := downlink.OldestPacketUpdatedAt(if direction == Downlink then spared else None);
      if up.None? && down.None? {
        return None;
      }
      if down.None? || (up.Some? && up.value.1 <= down.value.1) {
        return Some(Place(Uplink, up.value.0));
      } else {
        return Some(Place(Downlink, down.value.0));
      }
    }

    /** Nothing is stored but the packet being added to. */
    ghost predicate OnlyMine(direction: Direction, packetId: u32, existing: bool)
      reads uplink, downlink
    {
      && Other(direction).packets == map[]
      && Side(direction).packets.Keys <= (if existing then {packetId} else {})
    }

    /**
      Evicts until the fragment fits the identity's limits, and no longer. It always does fit in the end, so the
      identity's own rejections never happen.
     */
    method MakeIdentityRoom(direction: Direction, packetId: u32, existing: bool, bytes: nat, packets: nat)
      returns (ghost drops: seq<Place>)
      requires Tables()
      requires existing <==> packetId in Side(direction).packets
      requires packets <= (if existing then 0 else 1)
      requires bytes + (if existing then Side(direction).packets[packetId].received else 0) <= maxReassemblyBytes
      modifies uplink, downlink
      ensures Tables()
      ensures NeededDrops(old(Both()), Place(direction, packetId), bytes, packets, maxReassemblyBytes, drops)
      ensures Both() == DropAll(old(Both()), drops)
      ensures existing ==> KeptAs(direction, packetId, old(Side(direction).packets)[packetId])
      ensures BufferedBytes() <= old(BufferedBytes()) && InflightPackets() <= old(InflightPackets())
    {
      hide Invariant, OldestBut, DropOne, SubTable;
      ghost var before, mine := Both(), Place(direction, packetId);
      drops := [];
      while InflightPackets() + packets > MAX_INFLIGHT || BufferedBytes() + bytes > maxReassemblyBytes
        invariant Tables()
        invariant Dropping(before, mine, bytes, packets, maxReassemblyBytes, drops) && Both() == DropAll(before, drops)
        invariant BufferedBytes() <= old(BufferedBytes()) && InflightPackets() <= old(InflightPackets())
        decreases InflightPackets()
      {
        DropsSpareMine(before, mine, bytes, packets, maxReassemblyBytes, drops);
        OnlyPacket(direction, packetId, existing);
        var evicted, victim := EvictOldest(direction, packetId, existing);
        assert evicted;
        DroppingOneMore(before, mine, bytes, packets, maxReassemblyBytes, drops, victim);
        drops := drops + [victim];
      }
      DropsSpareMine(before, mine, bytes, packets, maxReassemblyBytes, drops);
      DroppingEnough(before, mine, bytes, packets, maxReassemblyBytes, drops);
    }

    /** With no packet but one's own left, the use is that packet's. */
    lemma OnlyPacket(direction: Direction, packetId: u32, existing: bool)
      requires Tables()
      requires existing ==> packetId in Side(direction).packets
      ensures OnlyMine(direction, packetId, existing) ==>
                && InflightPackets() <= (if existing then 1 else 0)
                && BufferedBytes() == (if existing then Side(direction).packets[packetId].received else 0)
    {
      hide Invariant;
      if OnlyMine(direction, packetId, existing) {
        SinglePacketBytes(Side(direction).State(), packetId);
        SinglePacketBytes(Other(direction).State(), packetId);
        assert !existing ==> Side(direction).packets == map[];
      }
    }

    /** Ingest of a datagram that cannot make the table larger. */
    method IngestShrinking(direction: Direction, datagram: seq<byte>, now: nat)
      returns (r: Delivery, ghost victims: seq<u32>)
      requires Valid() && NothingExpired(Side(direction).State(), now)
      requires Decode(datagram).Ok? ==>
                 var f, t := Decode(datagram).value, Side(direction).State();
                 AdditionalBytes(t, f).Err? || AdditionalBytes(t, f) == Ok(0)
      modifies this, Side(direction)
      ensures Valid() && active == old(active) && old(trace) <= trace
      ensures Answered(old(Side(direction).State()), now, datagram, victims, Side(direction).State(), r)
      ensures Decode(datagram).Err? ==> r == Err(Decode(datagram).error)
      ensures r.Ok? && r.value.Some? ==> Decode(datagram).Ok? && |r.value.value| == Decode(datagram).value.totalLen
    {
      hide Invariant, Reassembly.Ingest, LegalIngest, AdditionalBytes, Decode, NothingExpired, Safe, Held;
      ghost var t := Side(direction).State();
      r, victims := Side(direction).Ingest(now, datagram);
      IngestShrinks(t, now, datagram, victims);
      DeliveredPacket(t, now, datagram, victims);
      IngestKeepsInvariant(t, now, datagram, victims);
      var ok := ReconcileShrink();
      assert ok;
    }

    /** Ingest under a granted reservation, and its settlement against the actual use. */
    method IngestReserved(direction: Direction, datagram: seq<byte>, now: nat, f: Fragment, bytes: nat, packets: nat)
      returns (r: Delivery, ghost victims: seq<u32>)
      requires Tables() && WithinLimits() && Safe(trace)
      requires Held(trace, ByteUnit) == accountedBytes + bytes && Held(trace, PacketUnit) == accountedPackets + packets
      requires BufferedBytes() == accountedBytes && InflightPackets() == accountedPackets
      requires NothingExpired(Side(direction).State(), now) && Decode(datagram) == Ok(f)
      requires bytes > 0 && AdditionalBytes(Side(direction).State(), f) == Ok(bytes)
      requires packets == NewPackets(Side(direction).State(), f)
      requires WillComplete(Side(direction).State(), f) ||
               (BufferedBytes() + bytes <= maxReassemblyBytes && InflightPackets() + packets <= MAX_INFLIGHT)
      modifies this, Side(direction)
      ensures Valid() && active == old(active) && old(trace) <= trace
      ensures Answered(old(Side(direction).State()), now, datagram, victims, Side(direction).State(), r)
      ensures r.Ok? && r.value.Some? ==> |r.value.value| == f.totalLen
    {
      hide Invariant, Reassembly.Ingest, LegalIngest, AdditionalBytes, Decode, NothingExpired, Safe, Held, NewPackets,
           WillComplete;
      ghost var t := Side(direction).State();
      GrowthIsReserved(t, now, datagram, f, bytes, packets);
      r, victims := Side(direction).Ingest(now, datagram);
      accountedBytes, accountedPackets := accountedBytes + bytes, accountedPackets + packets;
      var ok := ReconcileShrink();
      assert ok;
    }

    /** Room for a fragment that adds bytes, and the books settled; a completing fragment needs none. */
    method MakeRoomFor(direction: Direction, datagram: seq<byte>, now: nat, f: Fragment, additional: nat)
      returns (ghost drops: seq<Place>)
      requires Valid() && Decode(datagram) == Ok(f)
      requires NothingExpired(uplink.State(), now) && NothingExpired(downlink.State(), now)
      requires additional > 0 && AdditionalBytes(Side(direction).State(), f) == Ok(additional)
      modifies this, uplink, downlink
      ensures Valid() && active == old(active) && old(trace) <= trace
      ensures RoomMade(old(Both()), direction, f, maxReassemblyBytes, drops) && Both() == DropAll(old(Both()), drops)
      ensures OnlyOthersDropped(old(Side(direction).State()), Side(direction).State(), datagram)
      ensures SubTable(Other(direction).State(), old(Other(direction).State()))
      ensures NothingExpired(Side(direction).State(), now)
      ensures AdditionalBytes(Side(direction).State(), f) == Ok(additional)
      ensures NewPackets(Side(direction).State(), f) == (if old(f.packetId in Side(direction).packets) then 0 else 1)
      ensures || WillComplete(Side(direction).State(), f)
              || (&& BufferedBytes() + additional <= maxReassemblyBytes
                  && InflightPackets() + NewPackets(Side(direction).State(), f) <= MAX_INFLIGHT)
    {
      hide Invariant, AdditionalBytes, Decode, NothingExpired, Safe, Held, NeededDrops, DropAll;
      var side := Side(direction);
      var existing := f.packetId in side.packets;
      var completes := WillComplete(side.State(), f);
      PredictedGrowthFits(side.State(), f);
      ghost var before := Both();
      ghost var bytes, packets := if completes then 0 else additional, if !existing && !completes then 1 else 0;
      drops := MakeIdentityRoom(direction, f.packetId, existing,
                                if completes then 0 else additional, if !existing && !completes then 1 else 0);
      NeededIsEnough(before, Place(direction, f.packetId), bytes, packets, maxReassemblyBytes, drops);
      SubTableNothingExpired(side.State(), old(side.State()), now);
      SamePacketPredictions(side.State(), old(side.State()), f);
      var ok := ReconcileShrink();
      assert ok;
    }

    /** Ingest of a datagram that the predictor says adds bytes: room, reservation, ingest, settlement. */
    method IngestGrowing(direction: Direction, datagram: seq<byte>, now: nat, f: Fragment, grants: Grants)
      returns (r: Result<Option<seq<byte>>, DataPathError>, ghost drops: seq<Place>, ghost victims: seq<u32>)
      requires Valid() && Decode(datagram) == Ok(f)
      requires NothingExpired(uplink.State(), now) && NothingExpired(downlink.State(), now)
      requires var a := AdditionalBytes(Side(direction).State(), f); a.Ok? && a.value > 0
      modifies this, uplink, downlink
      ensures Valid() && active == old(active) && old(trace) <= trace
      ensures RoomMade(old(Both()), direction, f, maxReassemblyBytes, drops)
      ensures Other(direction).State() == On(DropAll(old(Both()), drops), Opposite(direction))
      ensures OnlyOthersDropped(old(Side(direction).State()), On(DropAll(old(Both()), drops), direction), datagram)
      ensures SubTable(Other(direction).State(), old(Other(direction).State()))
      ensures FromReassembler(r) <==> grants.bytes && grants.packets
      ensures r == Err(Quota(GlobalReassemblyLimit)) <==> !grants.bytes
      ensures r == Err(Quota(GlobalInflightLimit)) <==> grants.bytes && !grants.packets
      ensures FromReassembler(r) ==>
                Answered(On(DropAll(old(Both()), drops), direction), now, datagram, victims, Side(direction).State(),
                         AsDelivery(r))
      ensures !FromReassembler(r) ==> Side(direction).State() == On(DropAll(old(Both()), drops), direction)
      ensures r.Ok? && r.value.Some? ==> |r.value.value| == f.totalLen
    {
      hide Invariant, AdditionalBytes, Decode, NothingExpired, Safe, Held, Answered, OnlyOthersDropped, SubTable,
           WillComplete, RoomMade, DropAll;
      var side := Side(direction);
      var existing := f.packetId in side.packets;
      var additional := AdditionalBytes(side.State(), f).value;
      drops := MakeRoomFor(direction, datagram, now, f, additional);
      var refused := TryReserve(additional, if existing then 0 else 1, grants);
      if refused.Some? {
        r, victims := Err(Quota(refused.value)), [];
        return;
      }
      var result;
      result, victims := IngestReserved(direction, datagram, now, f, additional, if existing then 0 else 1);
      r := if result.Ok? then Ok(result.value) else Err(Refused(result.error));
    }

    method ExpireBoth(now: nat)
      requires Valid()
      modifies this, uplink, downlink
      ensures Valid() && active == old(active) && old(trace) <= trace
      ensures Both() == Expired(old(Both()), now)
      ensures NothingExpired(uplink.State(), now) && NothingExpired(downlink.State(), now)
    {
      hide Safe, Held, Invariant, Reassembly.Expire, NothingExpired;
      ExpireLeavesNothingExpired(uplink.State(), now);
      ExpireLeavesNothingExpired(downlink.State(), now);
      var _ := uplink.Expire(now);
      var _ := downlink.Expire(now);
      var ok := ReconcileShrink();
      assert ok;
    }

    /**
      `ingest_datagram` up to the packet policy check. Whatever the datagram, the clock, the rate
      limiter and the other data paths do: both directions stay inside the identity's limits, the books
      stay exact, and the accounting failure that the source guards against throughout never occurs.
      A datagram that is neither stale, over the rate nor over the negotiated size gets the reassembler's
      own answer, unless it adds bytes that the budget does not grant. Before it, packets past their deadline
      are gone; a fragment that adds bytes makes the oldest packets of other ids give way, as many as it needs.
     */
    method IngestDatagram(direction: Direction, datagram: seq<byte>, now: nat,
                          rate: Option<QuotaRejection>, grants: Grants)
      returns (r: Result<Option<seq<byte>>, DataPathError>, ghost drops: seq<Place>, ghost victims: seq<u32>)
      requires Valid()
      requires rate.Some? ==> rate.value in {InvalidDatagramSize, PacketRateExceeded, ByteRateExceeded}
      modifies this, uplink, downlink
      ensures Valid() && active == old(active) && old(trace) <= trace
      ensures r.Err? ==> r.error != ResourceAccountingInvariant
      ensures r.Err? ==> r.error != Quota(IdentityReassemblyLimit) && r.error != Quota(IdentityInflightLimit)
      ensures r == Err(StaleGeneration) <==> !active
      ensures active && rate.Some? ==> r == Err(Quota(rate.value))
      ensures r.Err? && r.error in {Quota(InvalidDatagramSize), Quota(PacketRateExceeded), Quota(ByteRateExceeded)} ==>
                active && rate.Some?
      ensures !active || rate.Some? ==> unchanged(this) && unchanged(uplink) && unchanged(downlink)
      ensures r == Err(NegotiatedPacketTooLarge) <==>
                active && rate.None? && Decode(datagram).Ok? && Decode(datagram).value.totalLen > maxIpPacketLen
      ensures r == Err(NegotiatedPacketTooLarge) ==>
                Side(direction).State() ==
                  RejectDecoded(On(Expired(old(Both()), now), direction), Decode(datagram).value.packetId)
      ensures var grows := Grows(On(Expired(old(Both()), now), direction), datagram, maxIpPacketLen);
              && (r == Err(Quota(GlobalReassemblyLimit)) <==> active && rate.None? && grows && !grants.bytes)
              && (r == Err(Quota(GlobalInflightLimit)) <==>
                    active && rate.None? && grows && grants.bytes && !grants.packets)
              && (FromReassembler(r) <==>
                    && active && rate.None? && !TooLarge(datagram, maxIpPacketLen)
                    && (grows ==> grants.bytes && grants.packets))
              && (active && rate.None? ==>
                    if grows
                    then
                      RoomMade(Expired(old(Both()), now), direction, Decode(datagram).value, maxReassemblyBytes, drops)
                    else drops == [])
      ensures active && rate.None? ==>
                Other(direction).State() == On(DropAll(Expired(old(Both()), now), drops), Opposite(direction))
      ensures FromReassembler(r) ==>
                Handled(On(Expired(old(Both()), now), direction), now, datagram,
                        On(DropAll(Expired(old(Both()), now), drops), direction), victims, Side(direction).State(), r)
      ensures r in {Err(Quota(GlobalReassemblyLimit)), Err(Quota(GlobalInflightLimit))} ==>
                && Side(direction).State() == On(DropAll(Expired(old(Both()), now), drops), direction)
                && OnlyOthersDropped(On(Expired(old(Both()), now), direction), Side(direction).State(), datagram)
      ensures active && rate.None? ==>
                SubTable(Other(direction).State(), Reassembly.Expire(old(Other(direction).State()), now))
      ensures r.Ok? && r.value.Some? ==> |r.value.value| <= maxIpPacketLen
    {
      hide Invariant, AdditionalBytes, Decode, NothingExpired, Safe, Held, Reassembly.Expire, RejectDecoded, Handled,
           OnlyOthersDropped, SubTable, RoomMade, Grows, DropAll;
      drops, victims := [], [];
      if !active {
        r := Err(StaleGeneration);
        return;
      }
      if rate.Some? {
        r := Err(Quota(rate.value));
        return;
      }
      ExpireBoth(now);
      r, drops, victims := IngestAdmitted(direction, datagram, now, grants);
    }

    /** The rest of it, for a datagram within the rate, when nothing stored is past its deadline. */
    method IngestAdmitted(direction: Direction, datagram: seq<byte>, now: nat, grants: Grants)
      returns (r: Result<Option<seq<byte>>, DataPathError>, ghost drops: seq<Place>, ghost victims: seq<u32>)
      requires Valid() && NothingExpired(uplink.State(), now) && NothingExpired(downlink.State(), now)
      modifies this, uplink, downlink
      ensures Valid() && active == old(active) && old(trace) <= trace
      ensures FromReassembler(r) || r.error == NegotiatedPacketTooLarge
              || r.error in {Quota(GlobalReassemblyLimit), Quota(GlobalInflightLimit)}
      ensures r == Err(NegotiatedPacketTooLarge) <==> TooLarge(datagram, maxIpPacketLen)
      ensures r == Err(NegotiatedPacketTooLarge) ==>
                Side(direction).State() == RejectDecoded(On(old(Both()), direction), Decode(datagram).value.packetId)
      ensures var grows := Grows(On(old(Both()), direction), datagram, maxIpPacketLen);
              && (r == Err(Quota(GlobalReassemblyLimit)) <==> grows && !grants.bytes)
              && (r == Err(Quota(GlobalInflightLimit)) <==> grows && grants.bytes && !grants.packets)
              && (if grows then RoomMade(old(Both()), direction, Decode(datagram).value, maxReassemblyBytes, drops)
                  else drops == [])
      ensures Other(direction).State() == On(DropAll(old(Both()), drops), Opposite(direction))
      ensures SubTable(Other(direction).State(), On(old(Both()), Opposite(direction)))
      ensures OnlyOthersDropped(On(old(Both()), direction), On(DropAll(old(Both()), drops), direction), datagram)
      ensures FromReassembler(r) ==>
                Handled(On(old(Both()), direction), now, datagram, On(DropAll(old(Both()), drops), direction), victims,
                        Side(direction).State(), r)
      ensures r in {Err(Quota(GlobalReassemblyLimit)), Err(Quota(GlobalInflightLimit))} ==>
                Side(direction).State() == On(DropAll(old(Both()), drops), direction)
      ensures r.Ok? && r.value.Some? ==> |r.value.value| <= maxIpPacketLen
    {
      hide Invariant, AdditionalBytes, Decode, NothingExpired, Safe, Held, RejectDecoded, Answered, SubTable, RoomMade;
      drops, victims := [], [];
      var side := Side(direction);
      SubTableSelf(side.State());
      SubTableSelf(Other(direction).State());
      var decoded := Decode(datagram);
      if decoded.Err? {
        var refused;
        refused, victims := IngestShrinking(direction, datagram, now);
        r := Err(Refused(decoded.error));
        return;
      }
      var f := decoded.value;
      if f.totalLen > maxIpPacketLen {
        RejectTooLarge(direction, f.packetId);
        r := Err(NegotiatedPacketTooLarge);
        return;
      }
      var additional := side.AdditionalBufferedBytes(f);
      if additional.Err? || additional.value == 0 {
        var result;
        result, victims := IngestShrinking(direction, datagram, now);
        r := if result.Ok? then Ok(result.value) else Err(Refused(result.error));
        return;
      }
      r, drops, victims := IngestGrowing(direction, datagram, now, f, grants);
    }

    method RejectTooLarge(direction: Direction, packetId: u32)
      requires Valid()
      modifies this, Side(direction)
      ensures Valid() && active == old(active) && old(trace) <= trace
      ensures Side(direction).State() == RejectDecoded(old(Side(direction).State()), packetId)
    {
      hide Safe, Held, Invariant, RejectDecoded;
      RejectShrinks(Side(direction).State(), packetId);
      Side(direction).RejectDecodedFragment(packetId);
      var ok := ReconcileShrink();
      assert ok;
    }

    method Activate()
      requires Valid()
      modifies this`active
      ensures Valid() && active
    {
      active := true;
    }

    /** Everything is dropped and everything is given back. */
    method Deactivate()
      requires Valid()
      modifies this, uplink, downlink
      ensures Valid() && !active && old(trace) <= trace
      ensures uplink.packets == map[] && downlink.packets == map[]
      ensures Held(trace, ByteUnit) == 0 && Held(trace, PacketUnit) == 0
    {
      hide Safe, Held, Invariant;
      active := false;
      uplink.Clear();
      downlink.Clear();
      Release(ByteUnit, accountedBytes);
      Release(PacketUnit, accountedPackets);
      accountedBytes, accountedPackets := 0, 0;
    }
  }
}
