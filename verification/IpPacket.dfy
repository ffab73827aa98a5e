/** IP packet inspection (src/vpn.rs, `inspect_vpn_ip_packet`). */
module IpPacket {
  import opened Wrappers
  import opened Bytes

  const MAX_IP_PACKET_LEN := U16_MAX
  const MIN_IP_PACKET_LEN := 1280

  datatype PacketError =
    | PacketEmpty
    | PacketTooLarge
    | DatagramCapacityTooSmall
    | TooManyFragments
    | InvalidMagic
    | FragmentEmpty
    | FragmentBounds
    | FragmentTotalChanged
    | FragmentOverlap
    | FragmentLimitExceeded
    | InvalidReassemblyLimits
    | InvalidIpVersion
    | InvalidIpv4Header
    | InvalidIpv4Length
    | InvalidIpv6Length
    | Ipv6JumbogramUnsupported

  datatype IpAddr = V4(octets: seq<byte>) | V6(octets: seq<byte>)

  datatype PacketMeta = PacketMeta(source: IpAddr, destination: IpAddr)

  function Inspect(packet: seq<byte>): Result<PacketMeta, PacketError> {
    if packet == [] then Err(PacketEmpty)
    else if |packet| > MAX_IP_PACKET_LEN then Err(PacketTooLarge)
    else if packet[0] / 16 == 4 then InspectV4(packet)
    else if packet[0] / 16 == 6 then InspectV6(packet)
    else Err(InvalidIpVersion)
  }

  function InspectV4(packet: seq<byte>): Result<PacketMeta, PacketError> {
    if |packet| < 20 then Err(InvalidIpv4Header)
    else
      var headerLen := packet[0] % 16 * 4;
      if headerLen < 20 || headerLen > |packet| then Err(InvalidIpv4Header)
      else
        var totalLen := Be16(packet[2..4]);
        if totalLen != |packet| || totalLen < headerLen then Err(InvalidIpv4Length)
        else Ok(PacketMeta(V4(packet[12..16]), V4(packet[16..20])))
  }

  function InspectV6(packet: seq<byte>): Result<PacketMeta, PacketError> {
    if |packet| < 40 then Err(InvalidIpv6Length)
    else
      var payloadLen := Be16(packet[4..6]);
      if payloadLen == 0 && |packet| > 40 then Err(Ipv6JumbogramUnsupported)
      else if payloadLen + 40 != |packet| then Err(InvalidIpv6Length)
      else Ok(PacketMeta(V6(packet[8..24]), V6(packet[24..40])))
  }

  /**
    Section 3.1 of RFC 791 (version, IHL, Total Length) and section 3 of RFC 8200
    (version, Payload Length), stated on the packet as a whole.
   */
  ghost predicate WellFormedIp(packet: seq<byte>) {
    || (&& 20 <= |packet| <= MAX_IP_PACKET_LEN
        && 4 * 16 + 5 <= packet[0] < 5 * 16
        && 4 * (packet[0] - 4 * 16) <= |packet|
        && packet[2..4] == ToBe(|packet|, 2))
    || (&& 40 <= |packet| <= MAX_IP_PACKET_LEN
        && 6 * 16 <= packet[0] < 7 * 16
        && packet[4..6] == ToBe(|packet| - 40, 2))
  }

  /** Inspection accepts exactly the well-formed packets. */
  lemma InspectExact(packet: seq<byte>)
    ensures Inspect(packet).Ok? <==> WellFormedIp(packet)
  {
    if 20 <= |packet| <= MAX_IP_PACKET_LEN {
      RoundTrip16(|packet|);
      ToBeOfFromBe(packet[2..4]);
      assert packet[0] == packet[0] / 16 * 16 + packet[0] % 16;
    }
    if 40 <= |packet| <= MAX_IP_PACKET_LEN {
      RoundTrip16(|packet| - 40);
      ToBeOfFromBe(packet[4..6]);
    }
  }

  /** Every refusal with its condition, in the order in which the tests are made. */
  lemma InspectRefusesExactly(packet: seq<byte>)
    ensures var r, n := Inspect(packet), |packet|;
            if n == 0 then r == Err(PacketEmpty)
            else if n > 65_535 then r == Err(PacketTooLarge)
            else if 64 <= packet[0] < 80 then
              var words := packet[0] - 64;
              if n < 20 || words < 5 || 4 * words > n then r == Err(InvalidIpv4Header)
              else r.Ok? || r == Err(InvalidIpv4Length)
            else if 96 <= packet[0] < 112 then
              if n < 40 then r == Err(InvalidIpv6Length)
              else if n > 40 && packet[4] == packet[5] == 0 then r == Err(Ipv6JumbogramUnsupported)
              else r.Ok? || r == Err(InvalidIpv6Length)
            else r == Err(InvalidIpVersion)
  {
    if packet != [] {
      assert packet[0] == packet[0] / 16 * 16 + packet[0] % 16;
    }
    if |packet| >= 40 {
      Be16Parts(packet[4..6]);
    }
  }

  /** An IPv4 packet names its source in the four bytes after the first twelve and then its destination ... */
  lemma Ipv4Addresses(head: seq<byte>, source: seq<byte>, destination: seq<byte>, rest: seq<byte>)
    requires |head| == 12 && |source| == 4 && |destination| == 4 && 64 <= head[0] < 80
    requires Inspect(head + source + destination + rest).Ok?
    ensures Inspect(head + source + destination + rest) == Ok(PacketMeta(V4(source), V4(destination)))
  {
    var packet := head + source + destination + rest;
    assert packet[12..16] == source && packet[16..20] == destination;
  }

  /** ... and an IPv6 packet in the sixteen bytes after the first eight. */
  lemma Ipv6Addresses(head: seq<byte>, source: seq<byte>, destination: seq<byte>, rest: seq<byte>)
    requires |head| == 8 && |source| == 16 && |destination| == 16 && 96 <= head[0] < 112
    requires Inspect(head + source + destination + rest).Ok?
    ensures Inspect(head + source + destination + rest) == Ok(PacketMeta(V6(source), V6(destination)))
  {
    var packet := head + source + destination + rest;
    assert packet[8..24] == source && packet[24..40] == destination;
  }

  /** Accepted packets delimit themselves: no accepted packet is a proper prefix of another. */
  lemma AcceptedPacketsArePrefixFree(p: seq<byte>, q: seq<byte>)
    requires Inspect(p).Ok? && Inspect(q).Ok?
    requires p <= q
    ensures p == q
  {
    if p[0] / 16 == 4 {
      assert p[2..4] == q[2..4];
    } else {
      assert p[4..6] == q[4..6];
    }
  }
}
