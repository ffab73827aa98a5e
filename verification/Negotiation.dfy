/**
  The control handshake across both ends (src/vpn_session.rs, `negotiate_vpn_hello` on the server and
  `validate_server_accept` on the client; src/vpn_control.rs, `select_vpn_wire_version`).
 */
module Negotiation {
  import opened Wrappers
  import opened Bytes
  import opened TunnelAddress
  import opened ControlCodec
  import Reg = Registry

  /** The server's versions and sizes; the datagram size is already capped by the connection's. */
  datatype Config = Config(minWireVersion: u16, maxWireVersion: u16, maxIpPacketLen: u16, maxDatagramLen: u16)

  predicate ConfigValid(c: Config) {
    0 < c.minWireVersion <= c.maxWireVersion && SizesValid(c.maxIpPacketLen, c.maxDatagramLen)
  }

  function SelectWireVersion(clientMin: u16, clientMax: u16, serverMin: u16, serverMax: u16): Option<u16> {
    if clientMin == 0 || serverMin == 0 || clientMin > clientMax || serverMin > serverMax then None
    else
      var lower, upper := Max(clientMin, serverMin), Min(clientMax, serverMax);
      if lower <= upper then Some(upper) else None
  }

  predicate InBoth(v: u16, clientMin: u16, clientMax: u16, serverMin: u16, serverMax: u16) {
    clientMin <= v <= clientMax && serverMin <= v <= serverMax
  }

  /** The greatest version that both ends support, if there is one; an end that starts at zero supports none. */
  lemma SelectsGreatestCommon(clientMin: u16, clientMax: u16, serverMin: u16, serverMax: u16)
    ensures var r := SelectWireVersion(clientMin, clientMax, serverMin, serverMax);
            && (r.Some? <==>
                  && clientMin != 0 && serverMin != 0
                  && exists v: u16 :: InBoth(v, clientMin, clientMax, serverMin, serverMax))
            && (r.Some? ==>
                  && InBoth(r.value, clientMin, clientMax, serverMin, serverMax)
                  && forall v: u16 :: InBoth(v, clientMin, clientMax, serverMin, serverMax) ==> v <= r.value)
  {
    var r := SelectWireVersion(clientMin, clientMax, serverMin, serverMax);
    if r.Some? {
      assert InBoth(r.value, clientMin, clientMax, serverMin, serverMax);
    }
  }

  /** An identity's tunnel addresses are usable; `VpnDataPolicy::new` lets no others through. */
  predicate PolicyUsable(p: Reg.DataPolicy) {
    && (p.clientIpv4.Some? ==> ValidIpv4(p.clientIpv4.value))
    && (p.clientIpv6.Some? ==> ValidIpv6(p.clientIpv6.value))
    && (p.clientIpv4.Some? || p.clientIpv6.Some?)
  }

  /** A registry as the program can have one: built from identities that were themselves constructed. */
  ghost predicate Proper(r: Reg.IdentityRegistry) {
    Reg.Built(r) && forall i :: 0 <= i < |r.identities| ==> PolicyUsable(r.identities[i].policy)
  }

  lemma ProperIsIndexed(r: Reg.IdentityRegistry)
    requires Proper(r)
    ensures Reg.Indexed(r)
  {
  }

  datatype Negotiated = Negotiated(identity: Reg.Identity, fingerprint: Reg.Fingerprint, accept: Accept)

  function AsIpv4(a: Option<seq<byte>>): Option<Ipv4> {
    if a.Some? && |a.value| == 4 then Some(a.value) else None
  }

  function AsIpv6(a: Option<seq<byte>>): Option<Ipv6> {
    if a.Some? && |a.value| == 16 then Some(a.value) else None
  }

  predicate UsesIpv4(h: Hello, identity: Reg.Identity) {
    HasCap(h.capabilities, CAP_IPV4) && identity.policy.clientIpv4.Some?
  }

  predicate UsesIpv6(h: Hello, identity: Reg.Identity) {
    HasCap(h.capabilities, CAP_IPV6) && identity.policy.clientIpv6.Some?
  }

  function Offer(r: Reg.IdentityRegistry, identity: Reg.Identity, h: Hello, c: Config, version: u16, generation: u64)
    : Accept
  {
    var v4, v6 := UsesIpv4(h, identity), UsesIpv6(h, identity);
    Accept(version, REQUIRED_CAPABILITIES + (if v4 then CAP_IPV4 else 0) + (if v6 then CAP_IPV6 else 0),
           Min(h.maxIpPacketLen, c.maxIpPacketLen), Min(h.maxDatagramLen, c.maxDatagramLen), generation,
           if v4 then AsIpv4(identity.policy.clientIpv4) else None, if v4 then AsIpv4(r.serverIpv4) else None,
           if v6 then AsIpv6(identity.policy.clientIpv6) else None, if v6 then AsIpv6(r.serverIpv6) else None)
  }

  function Negotiate(r: Reg.IdentityRegistry, f: Reg.Fingerprint, h: Hello, c: Config, generation: u64)
    : Result<Negotiated, RejectReason>
    requires Reg.Indexed(r)
  {
    if ValidateHello(h).Some? then Err(ProtocolViolation)
    else
      match Reg.Authorize(r, f)
      case Err(UnknownFingerprint) => Err(Unauthorized)
      case Err(IdentityDisabled) => Err(RejectReason.IdentityDisabled)
      case Ok(identity) =>
        var version := SelectWireVersion(h.minWireVersion, h.maxWireVersion, c.minWireVersion, c.maxWireVersion);
        if version.None? then Err(UnsupportedVersion)
        else if !UsesIpv4(h, identity) && !UsesIpv6(h, identity) then Err(PolicyRejected)
        else
          var accept := Offer(r, identity, h, c, version.value, generation);
          if ValidateAccept(accept).Some? then Err(PolicyRejected) else Ok(Negotiated(identity, f, accept))
  }

  /** The client's check of the server's answer; both messages have passed their own validation. */
  predicate ServerAcceptOk(h: Hello, a: Accept) {
    && ValidateAccept(a).None?
    && h.minWireVersion <= a.selectedWireVersion <= h.maxWireVersion
    && (forall bit :: bit in {CAP_IPV4, CAP_IPV6, CAP_FRAGMENTATION, CAP_MULTIPATH} && HasCap(a.capabilities, bit) ==>
          HasCap(h.capabilities, bit))
    && a.maxIpPacketLen <= h.maxIpPacketLen
    && a.maxDatagramLen <= h.maxDatagramLen
  }

  /** Against a valid hello: a valid answer, within the versions, the families and the sizes that the hello offered. */
  lemma ClientAcceptsExactly(h: Hello, a: Accept)
    requires ValidateHello(h).None?
    ensures ServerAcceptOk(h, a) <==>
              && ValidateAccept(a).None? && h.minWireVersion <= a.selectedWireVersion <= h.maxWireVersion
              && (h.capabilities == 15 || a.capabilities == h.capabilities)
              && a.maxIpPacketLen <= h.maxIpPacketLen && a.maxDatagramLen <= h.maxDatagramLen
  {
    HelloValidExactly(h);
    AcceptValidExactly(a);
    hide ValidateHello, ValidateAccept;
    if ValidateAccept(a).None? {
      SubsetOfCapabilities(a.capabilities, h.capabilities);
    }
  }

  lemma SubsetOfCapabilities(a: u32, h: u32)
    requires a in {13, 14, 15} && h in {13, 14, 15}
    ensures (forall bit :: bit in {CAP_IPV4, CAP_IPV6, CAP_FRAGMENTATION, CAP_MULTIPATH} && HasCap(a, bit) ==>
               HasCap(h, bit)) <==>
            h == 15 || a == h
  {
    assert CAP_IPV4 in {CAP_IPV4, CAP_IPV6, CAP_FRAGMENTATION, CAP_MULTIPATH};
    assert CAP_IPV6 in {CAP_IPV4, CAP_IPV6, CAP_FRAGMENTATION, CAP_MULTIPATH};
    assert HasCap(a, CAP_IPV4) <==> a != 14;
    assert HasCap(a, CAP_IPV6) <==> a != 13;
    assert HasCap(h, CAP_IPV4) <==> h != 14;
    assert HasCap(h, CAP_IPV6) <==> h != 13;
  }

  lemma AuthorizedAddresses(r: Reg.IdentityRegistry, f: Reg.Fingerprint)
    requires Proper(r) && Reg.Authorize(r, f).Ok?
    ensures var identity := Reg.Authorize(r, f).value;
            && PolicyUsable(identity.policy) && Reg.Admissible(identity, r.serverIpv4, r.serverIpv6)
            && Reg.ServerAddressesValid(r.serverIpv4, r.serverIpv6)
  {
    hide Reg.Admissible, Reg.Clash, PolicyUsable;
  }

  /** An offer made from sound data passes the server's own check and the client's. */
  lemma OfferIsValid(
    r: Reg.IdentityRegistry, identity: Reg.Identity, h: Hello, c: Config, version: u16, generation: u64)
    requires Reg.ServerAddressesValid(r.serverIpv4, r.serverIpv6) && PolicyUsable(identity.policy)
    requires Reg.Admissible(identity, r.serverIpv4, r.serverIpv6)
    requires ValidateHello(h).None? && ConfigValid(c) && generation != 0
    requires h.minWireVersion <= version <= h.maxWireVersion
    requires UsesIpv4(h, identity) || UsesIpv6(h, identity)
    ensures ServerAcceptOk(h, Offer(r, identity, h, c, version, generation))
  {
    hide ValidIpv4, ValidIpv6, Reg.IdentityFault;
    ValidLengths(r, identity);
    var a := Offer(r, identity, h, c, version, generation);
    assert FamiliesMatch(a);
    assert AddressesUsable(a);
  }

  lemma ValidLengths(r: Reg.IdentityRegistry, identity: Reg.Identity)
    requires Reg.ServerAddressesValid(r.serverIpv4, r.serverIpv6) && PolicyUsable(identity.policy)
    ensures r.serverIpv4.Some? ==> |r.serverIpv4.value| == 4
    ensures r.serverIpv6.Some? ==> |r.serverIpv6.value| == 16
    ensures identity.policy.clientIpv4.Some? ==> |identity.policy.clientIpv4.value| == 4
    ensures identity.policy.clientIpv6.Some? ==> |identity.policy.clientIpv6.value| == 16
  {
  }

  ghost predicate CommonVersion(h: Hello, c: Config) {
    exists v: u16 :: InBoth(v, h.minWireVersion, h.maxWireVersion, c.minWireVersion, c.maxWireVersion)
  }

  /** The hello offers an address family in which the identity has an address. */
  predicate CommonFamily(h: Hello, identity: Reg.Identity) {
    || (HasCap(h.capabilities, CAP_IPV4) && identity.policy.clientIpv4.Some?)
    || (HasCap(h.capabilities, CAP_IPV6) && identity.policy.clientIpv6.Some?)
  }

  /**
    What is granted for each address family: the client gets the identity's own address and the server is named by
    the registry's, exactly when the hello offers the family and the identity has an address in it; else neither.
    The capability bits are those of these families and the two that are required; each size is the lesser of
    what the two ends can take.
   */
  predicate GrantsOwn(a: Accept, r: Reg.IdentityRegistry, identity: Reg.Identity, h: Hello, c: Config) {
    var p := identity.policy;
    && (if HasCap(h.capabilities, CAP_IPV4) && p.clientIpv4.Some?
        then a.clientIpv4 == p.clientIpv4 && a.serverIpv4 == r.serverIpv4 && a.serverIpv4.Some?
        else a.clientIpv4.None? && a.serverIpv4.None?)
    && (if HasCap(h.capabilities, CAP_IPV6) && p.clientIpv6.Some?
        then a.clientIpv6 == p.clientIpv6 && a.serverIpv6 == r.serverIpv6 && a.serverIpv6.Some?
        else a.clientIpv6.None? && a.serverIpv6.None?)
    && a.capabilities == 12 + (if a.clientIpv4.Some? then 1 else 0) + (if a.clientIpv6.Some? then 2 else 0)
    && a.maxIpPacketLen <= h.maxIpPacketLen && a.maxIpPacketLen <= c.maxIpPacketLen
    && a.maxIpPacketLen in {h.maxIpPacketLen, c.maxIpPacketLen}
    && a.maxDatagramLen <= h.maxDatagramLen && a.maxDatagramLen <= c.maxDatagramLen
    && a.maxDatagramLen in {h.maxDatagramLen, c.maxDatagramLen}
  }

  /**
    The answer for every hello, certificate and configuration: each refusal with its reason, and acceptance
    otherwise. The final validation of the server's own answer never fails. What is granted is for the
    authorized identity and the given generation, with that identity's addresses and the lesser sizes, at the
    greatest common version, and satisfies the client.
   */
  lemma NegotiationExact(r: Reg.IdentityRegistry, f: Reg.Fingerprint, h: Hello, c: Config, generation: u64)
    requires Proper(r) && ConfigValid(c) && generation != 0
    ensures var n, a := Negotiate(r, f, h, c, generation), Reg.Authorize(r, f);
            if ValidateHello(h).Some? then n == Err(ProtocolViolation)
            else if a == Err(Reg.UnknownFingerprint) then n == Err(Unauthorized)
            else if a == Err(Reg.IdentityDisabled) then n == Err(RejectReason.IdentityDisabled)
            else if !CommonVersion(h, c) then n == Err(UnsupportedVersion)
            else if !CommonFamily(h, a.value) then n == Err(PolicyRejected)
            else
              && n.Ok? && n.value.identity == a.value && n.value.fingerprint == f
              && n.value.accept.sessionGeneration == generation
              && GrantsOwn(n.value.accept, r, a.value, h, c)
              && ServerAcceptOk(h, n.value.accept)
              && Greatest(n.value.accept.selectedWireVersion, h, c)
  {
    hide Reg.Built, Reg.Authorize, Proper, ServerAcceptOk, Offer, Reg.Admissible, Reg.Indexed, GrantsOwn;
    ProperIsIndexed(r);
    SelectsGreatestCommon(h.minWireVersion, h.maxWireVersion, c.minWireVersion, c.maxWireVersion);
    if ValidateHello(h).None? && Reg.Authorize(r, f).Ok? {
      var identity := Reg.Authorize(r, f).value;
      var version := SelectWireVersion(h.minWireVersion, h.maxWireVersion, c.minWireVersion, c.maxWireVersion);
      AuthorizedAddresses(r, f);
      HelloVersions(h);
      if version.Some? && CommonFamily(h, identity) {
        OfferIsValid(r, identity, h, c, version.value, generation);
        AcceptedIsValid(h, Offer(r, identity, h, c, version.value, generation));
        OfferParts(r, identity, h, c, version.value, generation);
      }
    }
  }

  /** No version that both ends support is greater. */
  ghost predicate Greatest(version: u16, h: Hello, c: Config) {
    && InBoth(version, h.minWireVersion, h.maxWireVersion, c.minWireVersion, c.maxWireVersion)
    && forall v: u16 :: InBoth(v, h.minWireVersion, h.maxWireVersion, c.minWireVersion, c.maxWireVersion) ==>
         v <= version
  }

  lemma HelloVersions(h: Hello)
    requires ValidateHello(h).None?
    ensures 0 < h.minWireVersion <= h.maxWireVersion
  {
  }

  lemma AcceptedIsValid(h: Hello, a: Accept)
    requires ServerAcceptOk(h, a)
    ensures ValidateAccept(a).None? && a.maxIpPacketLen >= MIN_IP_PACKET_LEN
  {
  }

  lemma OfferParts(
    r: Reg.IdentityRegistry, identity: Reg.Identity, h: Hello, c: Config, version: u16, generation: u64)
    requires Reg.ServerAddressesValid(r.serverIpv4, r.serverIpv6) && PolicyUsable(identity.policy)
    requires Reg.Admissible(identity, r.serverIpv4, r.serverIpv6)
    ensures var a := Offer(r, identity, h, c, version, generation);
            a.sessionGeneration == generation && a.selectedWireVersion == version && GrantsOwn(a, r, identity, h, c)
  {
    hide ValidIpv4, ValidIpv6, Reg.IdentityFault, HasCap;
    ValidLengths(r, identity);
  }

  /**
    The whole exchange on the wire, for every registry that can be built: the hello arrives as sent, and what
    the client receives decodes to what the server granted and satisfies the client.
   */
  lemma HandshakeOnTheWire(r: Reg.IdentityRegistry, f: Reg.Fingerprint, h: Hello, c: Config, generation: u64)
    requires Proper(r) && ConfigValid(c) && generation != 0
    requires Encode(HelloMessage(h)).Ok?
    ensures Decode(Encode(HelloMessage(h)).value) == Ok(HelloMessage(h))
    ensures var n := Negotiate(r, f, h, c, generation);
            n.Ok? ==>
              var answer := Encode(AcceptMessage(n.value.accept));
              && answer.Ok? && Decode(answer.value) == Ok(AcceptMessage(n.value.accept))
              && GrantsOwn(n.value.accept, r, n.value.identity, h, c)
              && ServerAcceptOk(h, n.value.accept)
  {
    DecodeOfEncode(HelloMessage(h));
    NegotiationExact(r, f, h, c, generation);
    hide Reg.Built, Proper, ValidateHello, ValidateAccept, Negotiate, Decode, GrantsOwn;
    var n := Negotiate(r, f, h, c, generation);
    if n.Ok? {
      AcceptedIsValid(h, n.value.accept);
      DecodeOfEncode(AcceptMessage(n.value.accept));
    }
  }
}
