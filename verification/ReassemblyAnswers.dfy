/** Every answer of the reassembler in terms of what is stored and what arrives, and what its counters count. */
module ReassemblyAnswers {
  import opened Wrappers
  import opened Bytes
  import opened IpPacket
  import opened FragmentCodec
  import opened Pieces
  import opened Reassembly

  // ----- refusals

  /** A partial packet of the fragment's id is stored, and not past its deadline. */
  predicate Stored(t: Table, f: Fragment, now: nat) {
    f.packetId in t.packets && InTime(t, f.packetId, now)
  }

  predicate StoredPiece(p: Partial, f: Fragment) {
    Piece(f.offset, f.payload) in p.pieces
  }

  /** Some byte of the fragment is already covered by a stored piece. */
  ghost predicate Covered(p: Partial, f: Fragment) {
    exists k, i :: 0 <= k < |p.pieces| && f.offset <= i < f.offset + |f.payload| && Covers(p.pieces[k], i)
  }

  predicate Covers(p: Piece, i: nat) {
    p.offset <= i < p.offset + |p.payload|
  }

  lemma OverlapsMeansCovers(f: Fragment, p: Piece)
    requires f.payload != [] && p.payload != []
    ensures Overlaps(f, p) <==> exists i :: f.offset <= i < f.offset + |f.payload| && Covers(p, i)
  {
    if Overlaps(f, p) {
      assert Covers(p, Max(f.offset, p.offset));
    }
  }

  lemma ScanByContent(p: Partial, f: Fragment)
    requires PartialValid(p) && InBounds(f)
    ensures Scan(p.pieces, f) == Duplicate <==> StoredPiece(p, f)
    ensures Scan(p.pieces, f) == Overlapping <==> !StoredPiece(p, f) && Covered(p, f)
  {
    ScanExact(p.pieces, f, 0, p.totalLen);
    forall k | 0 <= k < |p.pieces|
      ensures Overlaps(f, p.pieces[k]) <==>
                exists i :: f.offset <= i < f.offset + |f.payload| && Covers(p.pieces[k], i)
    {
      DisjointAt(p.pieces, 0, p.totalLen, k);
      OverlapsMeansCovers(f, p.pieces[k]);
    }
  }

  /**
    Each refusal of a decoded fragment with its condition, in terms of the packet stored in time; and a fragment
    that none of them applies to is refused for the IP header of the packet it completes, or not at all.
   */
  lemma RefusedExactly(t: Table, now: nat, datagram: seq<byte>, victims: seq<u32>)
    requires Invariant(t) && Decode(datagram).Ok?
    ensures var f, r := Decode(datagram).value, Ingest(t, now, datagram, victims).1;
            if Stored(t, f, now) then
              var p := t.packets[f.packetId];
              if p.totalLen != f.totalLen then r == Err(FragmentTotalChanged)
              else if StoredPiece(p, f) then r == Ok(None)
              else if Covered(p, f) then r == Err(FragmentOverlap)
              else if |p.pieces| == MAX_FRAGMENTS then r == Err(FragmentLimitExceeded)
              else Completes(p.received, f, r)
            else Completes(0, f, r)
  {
    hide Inspect, Assemble, Decode, Scan, Insert, Invariant, Prepared, StoredPiece, Covered;
    var f := Decode(datagram).value;
    var u := Prepared(t, now);
    PreparedKeepsInvariant(t, now);
    DecodedInBounds(datagram);
    AnswerOnTable(u, now, datagram, f);
  }

  /** The fragment is held if bytes are missing; else the whole packet is delivered or refused for its header. */
  predicate Completes(before: nat, f: Fragment, r: Delivery) {
    if before + |f.payload| < f.totalLen then r == Ok(None)
    else if r.Ok? then r.value.Some? && |r.value.value| == f.totalLen && Inspect(r.value.value).Ok?
    else r.error in {InvalidIpVersion, InvalidIpv4Header, InvalidIpv4Length, InvalidIpv6Length,
                     Ipv6JumbogramUnsupported}
  }

  function Answer(o: Outcome): Delivery {
    match o
    case Reject(_, e) => Err(e)
    case Deliver(_, packet) => Ok(Some(packet))
    case Hold(_, _, _) => Ok(None)
  }

  lemma AnswerOnTable(u: Table, now: nat, datagram: seq<byte>, f: Fragment)
    requires Invariant(u) && Decode(datagram) == Ok(f) && InBounds(f)
    ensures var r := Answer(Admit(u, now, datagram));
            if f.packetId in u.packets then
              var p := u.packets[f.packetId];
              if p.totalLen != f.totalLen then r == Err(FragmentTotalChanged)
              else if StoredPiece(p, f) then r == Ok(None)
              else if Covered(p, f) then r == Err(FragmentOverlap)
              else if |p.pieces| == MAX_FRAGMENTS then r == Err(FragmentLimitExceeded)
              else Completes(p.received, f, r)
            else Completes(0, f, r)
  {
    hide Inspect, Assemble, Decode, Scan, Insert, StoredPiece, Covered, Completes;
    var p := PartialFor(u, f, now);
    if f.packetId in u.packets {
      assert PartialValid(p);
      ScanByContent(p, f);
    } else {
      ScanNothing(f);
    }
    if p.totalLen == f.totalLen && Scan(p.pieces, f) == Fresh && |p.pieces| < MAX_FRAGMENTS {
      SettlesByContent(p, f, now, Remove(u, f.packetId));
    }
  }

  lemma ScanNothing(f: Fragment)
    ensures Scan([], f) == Fresh
  {
  }

  lemma SettlesByContent(p: Partial, f: Fragment, now: nat, t: Table)
    requires InBounds(f) && p.totalLen == f.totalLen
    requires PartialValid(p) || p == Partial(f.totalLen, [], 0, now)
    requires Scan(p.pieces, f) == Fresh && |p.pieces| < MAX_FRAGMENTS
    ensures Completes(p.received, f, Answer(Settle(t, f.packetId, WithPiece(p, f, now))))
  {
    hide Assemble, Scan, Insert, Inspect;
    WithPieceValid(p, f, now);
    var q := WithPiece(p, f, now);
    if q.received == q.totalLen {
      FullPacketAssembles(q);
      HeaderErrors(Assemble(q.pieces, []).value, f);
    }
  }

  lemma HeaderErrors(packet: seq<byte>, f: Fragment)
    requires |packet| == f.totalLen && InBounds(f)
    ensures Inspect(packet).Err? ==>
              Inspect(packet).error in {InvalidIpVersion, InvalidIpv4Header, InvalidIpv4Length, InvalidIpv6Length,
                                        Ipv6JumbogramUnsupported}
  {
  }

  // ----- counters

  /** What an operation adds to each counter. */
  ghost function Adds(t: Table, op: Op): Stats {
    match op
    case OpIngest(now, datagram, victims) =>
      var r := Ingest(t, now, datagram, victims).1;
      Stats(1, if r.Err? then 1 else 0, if Repeats(t, now, datagram) then 1 else 0,
            if r.Ok? && r.value.Some? then 1 else 0, if r.Ok? && r.value.Some? then |r.value.value| else 0,
            |PastDeadline(t, now)|, |victims|)
    case OpExpire(now) => Stats(0, 0, 0, 0, 0, |PastDeadline(t, now)|, 0)
    case OpEvict(id) => Stats(0, 0, 0, 0, 0, 0, if id in t.packets then 1 else 0)
    case OpReject(_) => Stats(1, 1, 0, 0, 0, 0, 0)
    case OpClear => Stats(0, 0, 0, 0, 0, 0, 0)
  }

  /** The datagram brings a piece that is stored already. */
  predicate Repeats(t: Table, now: nat, datagram: seq<byte>) {
    && Decode(datagram).Ok? && Stored(t, Decode(datagram).value, now)
    && t.packets[Decode(datagram).value.packetId].totalLen == Decode(datagram).value.totalLen
    && StoredPiece(t.packets[Decode(datagram).value.packetId], Decode(datagram).value)
  }

  /** Addition that stops at the largest 64-bit number, counter by counter. */
  function Plus(a: Stats, b: Stats): Stats {
    Stats(SatAdd(a.fragmentsReceived, b.fragmentsReceived), SatAdd(a.fragmentsRejected, b.fragmentsRejected),
          SatAdd(a.duplicateFragments, b.duplicateFragments), SatAdd(a.packetsCompleted, b.packetsCompleted),
          SatAdd(a.completedBytes, b.completedBytes), SatAdd(a.packetsExpired, b.packetsExpired),
          SatAdd(a.packetsEvicted, b.packetsEvicted))
  }

  function Sum(a: Stats, b: Stats): Stats {
    Stats(a.fragmentsReceived + b.fragmentsReceived, a.fragmentsRejected + b.fragmentsRejected,
          a.duplicateFragments + b.duplicateFragments, a.packetsCompleted + b.packetsCompleted,
          a.completedBytes + b.completedBytes, a.packetsExpired + b.packetsExpired,
          a.packetsEvicted + b.packetsEvicted)
  }

  const NONE := Stats(0, 0, 0, 0, 0, 0, 0)

  predicate InRange(s: Stats) {
    && s.fragmentsReceived <= U64_MAX && s.fragmentsRejected <= U64_MAX && s.duplicateFragments <= U64_MAX
    && s.packetsCompleted <= U64_MAX && s.completedBytes <= U64_MAX && s.packetsExpired <= U64_MAX
    && s.packetsEvicted <= U64_MAX
  }

  lemma {:induction false} EvictionsCounted(t: Table, victims: seq<u32>)
    requires t.stats.packetsEvicted <= U64_MAX
    ensures EvictAll(t, victims).stats ==
              t.stats.(packetsEvicted := SatAdd(t.stats.packetsEvicted, |victims|))
    decreases victims
  {
    if victims != [] {
      EvictionsCounted(EvictOne(t, victims[0]), victims[1..]);
    }
  }

  lemma PreparedStats(t: Table, now: nat)
    requires Invariant(t)
    ensures Prepared(t, now).stats ==
              t.stats.(fragmentsReceived := SatAdd(t.stats.fragmentsReceived, 1),
                       packetsExpired := SatAdd(t.stats.packetsExpired, |PastDeadline(t, now)|))
  {
    hide BytesOf, Among;
    var counted := t.(stats := t.stats.(fragmentsReceived := SatAdd(t.stats.fragmentsReceived, 1)));
    ExpireExact(counted, now);
    assert PastDeadline(counted, now) == PastDeadline(t, now);
  }

  lemma AdmitStats(u: Table, now: nat, datagram: seq<byte>)
    requires Invariant(u)
    ensures var repeats := && Decode(datagram).Ok? && Decode(datagram).value.packetId in u.packets
                           && u.packets[Decode(datagram).value.packetId].totalLen == Decode(datagram).value.totalLen
                           && StoredPiece(u.packets[Decode(datagram).value.packetId], Decode(datagram).value);
            Admit(u, now, datagram).table.stats ==
              if repeats then u.stats.(duplicateFragments := SatAdd(u.stats.duplicateFragments, 1)) else u.stats
  {
    hide Inspect, Assemble, Decode, Scan, Insert, StoredPiece, BytesOf;
    if Decode(datagram).Ok? {
      var f := Decode(datagram).value;
      DecodedInBounds(datagram);
      if f.packetId in u.packets {
        ScanByContent(u.packets[f.packetId], f);
      } else {
        ScanNothing(f);
      }
    }
  }

  lemma IngestStats(t: Table, now: nat, datagram: seq<byte>, victims: seq<u32>)
    requires Invariant(t) && InRange(t.stats) && LegalIngest(t, now, datagram, victims)
    ensures Ingest(t, now, datagram, victims).0.stats == Plus(t.stats, Adds(t, OpIngest(now, datagram, victims)))
  {
    hide Invariant, Prepared, Admit, Decode, StoredPiece, PastDeadline;
    PreparedKeepsInvariant(t, now);
    PreparedStats(t, now);
    var u := Prepared(t, now);
    AdmitStats(u, now, datagram);
    var o := Admit(u, now, datagram);
    if o.Hold? {
      EvictionsCounted(o.table, victims);
    }
  }

  lemma StepStats(t: Table, op: Op)
    requires Invariant(t) && InRange(t.stats) && LegalOp(t, op)
    ensures Step(t, op).stats == Plus(t.stats, Adds(t, op)) && InRange(Step(t, op).stats)
  {
    hide Ingest, PastDeadline, LegalIngest, BytesOf, Among;
    match op
    case OpIngest(now, datagram, victims) => IngestStats(t, now, datagram, victims);
    case OpExpire(now) => ExpireExact(t, now);
    case _ =>
  }

  /** What a run adds to each counter. */
  ghost function AddsAll(t: Table, ops: seq<Op>): Stats
    decreases ops
  {
    if ops == [] then NONE else Sum(Adds(t, ops[0]), AddsAll(Step(t, ops[0]), ops[1..]))
  }

  lemma PlusPlus(a: Stats, b: Stats, c: Stats)
    ensures Plus(Plus(a, b), c) == Plus(a, Sum(b, c))
    ensures InRange(a) ==> Plus(a, NONE) == a
  {
  }

  /**
    Over every run: the counters are the numbers of datagrams taken, of refusals, of repeats, of packets and
    bytes delivered, of packets that outlived their deadline and of evictions, up to the largest 64-bit number.
   */
  lemma {:induction false} CountersCount(t: Table, ops: seq<Op>)
    requires Invariant(t) && InRange(t.stats) && LegalRun(t, ops)
    ensures Run(t, ops).stats == Plus(t.stats, AddsAll(t, ops))
    decreases ops
  {
    hide Invariant, Step, Adds, InRange, Plus, Sum, LegalOp;
    if ops == [] {
      PlusPlus(t.stats, NONE, NONE);
    } else {
      StepStats(t, ops[0]);
      StepKeepsInvariant(t, ops[0]);
      CountersCount(Step(t, ops[0]), ops[1..]);
      PlusPlus(t.stats, Adds(t, ops[0]), AddsAll(Step(t, ops[0]), ops[1..]));
    }
  }
}
