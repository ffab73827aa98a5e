/** The FWI1 fragment codec (src/vpn.rs, `encode_vpn_ip_fragments` and `decode_vpn_ip_fragment`). */
module FragmentCodec {
  import opened Wrappers
  import opened Bytes
  import opened IpPacket

  const HEADER_LEN := 12
  const MAX_FRAGMENTS := 64
  const MIN_DATAGRAM_LEN := HEADER_LEN + 1024
  const MAX_DATAGRAM_LEN := HEADER_LEN + MAX_IP_PACKET_LEN

  /** "FWI1" */
  const MAGIC: seq<byte> := [0x46, 0x57, 0x49, 0x31]

  datatype Fragment = Fragment(packetId: u32, totalLen: nat, offset: nat, payload: seq<byte>)

  /** What a decoded fragment always satisfies. */
  predicate InBounds(f: Fragment) {
    0 < |f.payload| && f.offset + |f.payload| <= f.totalLen <= MAX_IP_PACKET_LEN
  }

  function Datagram(f: Fragment): seq<byte> {
    MAGIC + ToBe(f.packetId, 4) + ToBe(f.totalLen, 2) + ToBe(f.offset, 2) + f.payload
  }

  function Decode(datagram: seq<byte>): (r: Result<Fragment, PacketError>)
    ensures r.Ok? ==> InBounds(r.value)
  {
    if |datagram| <= HEADER_LEN then Err(FragmentEmpty)
    else if datagram[..4] != MAGIC then Err(InvalidMagic)
    else
      var totalLen := Be16(datagram[8..10]);
      var offset := Be16(datagram[10..12]);
      var payload := datagram[HEADER_LEN..];
      if totalLen == 0 || offset >= totalLen || |payload| > SatSub(totalLen, offset) then Err(FragmentBounds)
      else Ok(Fragment(Be32(datagram[4..8]), totalLen, offset, payload))
  }

  /** Decoding inverts encoding on every fragment that lies in bounds ... */
  lemma DecodeOfDatagram(f: Fragment)
    requires InBounds(f)
    ensures Decode(Datagram(f)) == Ok(f)
  {
    var d := Datagram(f);
    assert d[..4] == MAGIC;
    assert d[4..8] == ToBe(f.packetId, 4);
    assert d[8..10] == ToBe(f.totalLen, 2);
    assert d[10..12] == ToBe(f.offset, 2);
    assert d[12..] == f.payload;
    RoundTrip32(f.packetId);
    RoundTrip16(f.totalLen);
    RoundTrip16(f.offset);
  }

  /** ... and encoding inverts decoding on every datagram that is accepted. */
  lemma DatagramOfDecode(d: seq<byte>)
    requires Decode(d).Ok?
    ensures Datagram(Decode(d).value) == d
  {
    ToBeOfFromBe(d[4..8]);
    ToBeOfFromBe(d[8..10]);
    ToBeOfFromBe(d[10..12]);
    assert d == d[..4] + d[4..8] + d[8..10] + d[10..12] + d[12..];
  }

  /** The layout, byte by byte: the four letters, the id, the total length and the offset, and then the payload. */
  lemma DatagramLayout(f: Fragment)
    requires InBounds(f)
    ensures var d := Datagram(f);
            && |d| == 12 + |f.payload| && d[0] == 0x46 && d[1] == 0x57 && d[2] == 0x49 && d[3] == 0x31
            && f.packetId == Four(d[4], d[5], d[6], d[7])
            && f.totalLen == Two(d[8], d[9]) && f.offset == Two(d[10], d[11]) && d[12..] == f.payload
  {
    var d := Datagram(f);
    DecodeOfDatagram(f);
    Be32Parts(d[4..8]);
    Be16Parts(d[8..10]);
    Be16Parts(d[10..12]);
    assert d[..4] == MAGIC;
  }

  /** A datagram is accepted exactly if it is that of some fragment in bounds; else each refusal has its condition. */
  lemma DecodeExact(d: seq<byte>)
    ensures Decode(d).Ok? <==> exists f :: InBounds(f) && Datagram(f) == d
    ensures Decode(d) == Err(FragmentEmpty) <==> |d| <= 12
    ensures Decode(d) == Err(InvalidMagic) <==> |d| > 12 && d[..4] != [0x46, 0x57, 0x49, 0x31]
    ensures Decode(d).Err? ==> Decode(d).error in {FragmentEmpty, InvalidMagic, FragmentBounds}
  {
    if Decode(d).Ok? {
      DatagramOfDecode(d);
      assert InBounds(Decode(d).value) && Datagram(Decode(d).value) == d;
    }
    if f :| InBounds(f) && Datagram(f) == d {
      DecodeOfDatagram(f);
    }
  }

  lemma DivCeilBounds(n: nat, cap: nat)
    requires cap > 0
    ensures n <= DivCeil(n, cap) * cap < n + cap
  {
    assert (n + cap - 1) == DivCeil(n, cap) * cap + (n + cap - 1) % cap;
  }

  /** The number of fragments, and where the i-th chunk starts and ends. */
  function Count(packet: seq<byte>, cap: nat): nat
    requires cap > 0
  {
    DivCeil(|packet|, cap)
  }

  lemma ChunkInside(packet: seq<byte>, cap: nat, i: nat)
    requires cap > 0 && i < Count(packet, cap)
    ensures i * cap < |packet|
  {
    DivCeilBounds(|packet|, cap);
    assert i * cap <= (Count(packet, cap) - 1) * cap;
  }

  function Chunk(packet: seq<byte>, cap: nat, i: nat): (chunk: seq<byte>)
    requires cap > 0 && i < Count(packet, cap)
    ensures i * cap < |packet| && 0 < |chunk| <= cap
    ensures |chunk| == Min(cap, |packet| - i * cap)
  {
    ChunkInside(packet, cap, i);
    packet[i * cap..Min(i * cap + cap, |packet|)]
  }

  /** The i-th fragment of `packet` cut into chunks of `cap` bytes. */
  function FragmentAt(packetId: u32, packet: seq<byte>, cap: nat, i: nat): (f: Fragment)
    requires cap > 0 && i < Count(packet, cap)
    requires |packet| <= MAX_IP_PACKET_LEN
    ensures InBounds(f) && f.totalLen == |packet|
    ensures f.payload == packet[f.offset..f.offset + |f.payload|]
  {
    Fragment(packetId, |packet|, i * cap, Chunk(packet, cap, i))
  }

  /** A capacity at or above the minimum never needs more than 64 fragments. */
  lemma CountAtMostMax(packet: seq<byte>, cap: nat)
    requires |packet| <= MAX_IP_PACKET_LEN
    requires cap >= MIN_DATAGRAM_LEN - HEADER_LEN
    ensures Count(packet, cap) <= MAX_FRAGMENTS
  {
    DivCeilBounds(|packet|, cap);
    assert (Count(packet, cap) - 1) * cap < MAX_FRAGMENTS * cap;
  }

  /** One fragment fits its datagram and decodes from it. */
  lemma FragmentFits(packetId: u32, packet: seq<byte>, cap: nat, i: nat)
    requires cap > 0 && i < Count(packet, cap) && |packet| <= MAX_IP_PACKET_LEN
    ensures var f := FragmentAt(packetId, packet, cap, i);
            |Datagram(f)| <= HEADER_LEN + cap && Decode(Datagram(f)) == Ok(f)
  {
    hide Decode, Count;
    DecodeOfDatagram(FragmentAt(packetId, packet, cap, i));
    ChunkInside(packet, cap, i);
  }

  /**
    Encodes a packet. The only refusals are the inspection's own error and a capacity
    below the minimum: the fragment-count and offset guards never fire.
   */
  method Encode(packetId: u32, packet: seq<byte>, maxDatagramLen: nat)
    returns (r: Result<seq<seq<byte>>, PacketError>)
    ensures Inspect(packet).Err? ==> r == Err(Inspect(packet).error)
    ensures Inspect(packet).Ok? && maxDatagramLen < MIN_DATAGRAM_LEN ==> r == Err(DatagramCapacityTooSmall)
    ensures Inspect(packet).Ok? && maxDatagramLen >= MIN_DATAGRAM_LEN ==>
              && r.Ok?
              && var cap := maxDatagramLen - HEADER_LEN;
              && 0 < |r.value| == Count(packet, cap) <= MAX_FRAGMENTS
              && forall i :: 0 <= i < |r.value| ==>
                   && |r.value[i]| <= maxDatagramLen
                   && Decode(r.value[i]) == Ok(FragmentAt(packetId, packet, cap, i))
  {
    hide Decode, Datagram, FragmentAt, Chunk;
    var inspected := Inspect(packet);
    if inspected.Err? {
      return Err(inspected.error);
    }
    if maxDatagramLen < MIN_DATAGRAM_LEN {
      return Err(DatagramCapacityTooSmall);
    }
    var cap := maxDatagramLen - HEADER_LEN;
    var count := DivCeil(|packet|, cap);
    CountAtMostMax(packet, cap);
    DivCeilBounds(|packet|, cap);
    var fragments: seq<seq<byte>> := [];
    r := if count > MAX_FRAGMENTS then Err(TooManyFragments) else Ok(fragments);
    var index := 0;
    while r.Ok? && index < count
      invariant 0 <= index <= count == Count(packet, cap)
      invariant r == Ok(fragments)
      invariant |fragments| == index
      invariant forall i :: 0 <= i < index ==>
                  && |fragments[i]| <= maxDatagramLen
                  && Decode(fragments[i]) == Ok(FragmentAt(packetId, packet, cap, i))
    {
      var f := FragmentAt(packetId, packet, cap, index);
      FragmentFits(packetId, packet, cap, index);
      fragments := fragments + [Datagram(f)];
      r := if f.offset > U16_MAX then Err(FragmentBounds) else Ok(fragments);
      index := index + 1;
    }
  }
}
