/** The FWC1 control messages (src/vpn_control.rs): validation, encoding and decoding. */
module ControlCodec {
  import opened Wrappers
  import opened Bytes
  import opened TunnelAddress

  const HEADER_LEN := 8
  const MAX_MESSAGE_LEN := 256
  const FORMAT_VERSION: byte := 1
  const HELLO: byte := 1
  const ACCEPT: byte := 2
  const REJECT: byte := 3
  const HELLO_BODY_LEN := 12
  const ACCEPT_BODY_LEN := 60
  const REJECT_BODY_LEN := 4
  const MIN_IP_PACKET_LEN := 1280
  const MIN_DATAGRAM_LEN := 1036

  /** "FWC1" */
  const MAGIC: seq<byte> := [0x46, 0x57, 0x43, 0x31]

  /** Capability bits, by value. */
  const CAP_IPV4 := 1
  const CAP_IPV6 := 2
  const CAP_FRAGMENTATION := 4
  const CAP_MULTIPATH := 8
  const REQUIRED_CAPABILITIES := CAP_FRAGMENTATION + CAP_MULTIPATH

  type Ipv4 = a: seq<byte> | |a| == 4 witness [0, 0, 0, 0]
  type Ipv6 = a: seq<byte> | |a| == 16 witness [0, 0, 0, 0, 0, 0, 0, 0, 0, 0, 0, 0, 0, 0, 0, 0]

  datatype ControlError =
    | MessageTooShort
    | MessageTooLong
    | InvalidMagic
    | UnsupportedFormatVersion
    | UnknownMessageType
    | LengthMismatch
    | InvalidHello
    | InvalidAccept
    | InvalidReject
    | UnknownCapabilities
    | MissingRequiredCapabilities
    | InvalidAddress

  datatype Hello = Hello(
    minWireVersion: u16, maxWireVersion: u16, capabilities: u32, maxIpPacketLen: u16, maxDatagramLen: u16)

  datatype Accept = Accept(
    selectedWireVersion: u16, capabilities: u32, maxIpPacketLen: u16, maxDatagramLen: u16, sessionGeneration: u64,
    clientIpv4: Option<Ipv4>, serverIpv4: Option<Ipv4>, clientIpv6: Option<Ipv6>, serverIpv6: Option<Ipv6>)

  datatype RejectReason =
    | UnsupportedVersion
    | Unauthorized
    | IdentityDisabled
    | AddressInUse
    | ResourceLimit
    | PolicyRejected
    | ProtocolViolation

  datatype Reject = Reject(reason: RejectReason, retryAfterSecs: u16)

  datatype Message = HelloMessage(hello: Hello) | AcceptMessage(accept: Accept) | RejectMessage(reject: Reject)

  // ----- validation

  predicate HasCap(capabilities: u32, bit: nat)
    requires bit > 0
  {
    capabilities / bit % 2 == 1
  }

  function ValidateCapabilities(capabilities: u32): Option<ControlError> {
    if capabilities >= 16 then Some(UnknownCapabilities)
    else if !HasCap(capabilities, CAP_FRAGMENTATION) || !HasCap(capabilities, CAP_MULTIPATH)
            || !(HasCap(capabilities, CAP_IPV4) || HasCap(capabilities, CAP_IPV6))
    then Some(MissingRequiredCapabilities)
    else None
  }

  predicate SizesValid(maxIpPacketLen: u16, maxDatagramLen: u16) {
    maxIpPacketLen >= MIN_IP_PACKET_LEN && maxDatagramLen >= MIN_DATAGRAM_LEN
  }

  /** The first reason to refuse a hello, if any. */
  function ValidateHello(h: Hello): Option<ControlError> {
    if h.minWireVersion == 0 || h.minWireVersion > h.maxWireVersion then Some(InvalidHello)
    else if ValidateCapabilities(h.capabilities).Some? then ValidateCapabilities(h.capabilities)
    else if !SizesValid(h.maxIpPacketLen, h.maxDatagramLen) then Some(InvalidHello)
    else None
  }

  predicate FamiliesMatch(a: Accept) {
    && (HasCap(a.capabilities, CAP_IPV4) <==> a.clientIpv4.Some? && a.serverIpv4.Some?)
    && (HasCap(a.capabilities, CAP_IPV6) <==> a.clientIpv6.Some? && a.serverIpv6.Some?)
    && (a.clientIpv4.Some? <==> a.serverIpv4.Some?)
    && (a.clientIpv6.Some? <==> a.serverIpv6.Some?)
  }

  predicate AddressesUsable(a: Accept) {
    && (a.clientIpv4.Some? && a.serverIpv4.Some? ==>
          a.clientIpv4 != a.serverIpv4 && ValidIpv4(a.clientIpv4.value) && ValidIpv4(a.serverIpv4.value))
    && (a.clientIpv6.Some? && a.serverIpv6.Some? ==>
          a.clientIpv6 != a.serverIpv6 && ValidIpv6(a.clientIpv6.value) && ValidIpv6(a.serverIpv6.value))
  }

  /** The first reason to refuse an accept, if any. */
  function ValidateAccept(a: Accept): Option<ControlError> {
    if a.selectedWireVersion == 0 || a.sessionGeneration == 0 then Some(InvalidAccept)
    else if ValidateCapabilities(a.capabilities).Some? then ValidateCapabilities(a.capabilities)
    else if !SizesValid(a.maxIpPacketLen, a.maxDatagramLen) then Some(InvalidAccept)
    else if !FamiliesMatch(a) then Some(InvalidAccept)
    else if !AddressesUsable(a) then Some(InvalidAddress)
    else None
  }

  function Validate(m: Message): Option<ControlError> {
    match m
    case HelloMessage(h) => ValidateHello(h)
    case AcceptMessage(a) => ValidateAccept(a)
    case RejectMessage(_) => None
  }

  function ReasonCode(r: RejectReason): u16 {
    match r
    case UnsupportedVersion => 1
    case Unauthorized => 2
    case IdentityDisabled => 3
    case AddressInUse => 4
    case ResourceLimit => 5
    case PolicyRejected => 6
    case ProtocolViolation => 7
  }

  function ReasonOf(code: u16): Option<RejectReason> {
    if code == 1 then Some(UnsupportedVersion)
    else if code == 2 then Some(Unauthorized)
    else if code == 3 then Some(IdentityDisabled)
    else if code == 4 then Some(AddressInUse)
    else if code == 5 then Some(ResourceLimit)
    else if code == 6 then Some(PolicyRejected)
    else if code == 7 then Some(ProtocolViolation)
    else None
  }

  /** Of all capability sets, three are valid: both required bits, with IPv4, with IPv6, or with both. */
  lemma CapabilitiesExactly(capabilities: u32)
    ensures ValidateCapabilities(capabilities) ==
              if capabilities > 15 then Some(UnknownCapabilities)
              else if capabilities < 13 then Some(MissingRequiredCapabilities)
              else None
  {
  }

  /** A hello is valid exactly if its versions start above zero and are in order, and all else is in range. */
  lemma HelloValidExactly(h: Hello)
    ensures ValidateHello(h) ==
              if !(1 <= h.minWireVersion <= h.maxWireVersion) then Some(InvalidHello)
              else if h.capabilities > 15 then Some(UnknownCapabilities)
              else if h.capabilities < 13 then Some(MissingRequiredCapabilities)
              else if h.maxIpPacketLen < 1280 || h.maxDatagramLen < 1036 then Some(InvalidHello)
              else None
  {
    hide ValidateCapabilities;
    CapabilitiesExactly(h.capabilities);
  }

  /** Two addresses of one family, both there or neither. */
  predicate Paired(client: Option<seq<byte>>, server: Option<seq<byte>>, offered: bool) {
    client.Some? == offered && server.Some? == offered
  }

  /** An accept is valid exactly if its numbers are and each family it offers has two different usable addresses. */
  lemma AcceptValidExactly(a: Accept)
    ensures ValidateAccept(a) ==
              if a.selectedWireVersion == 0 || a.sessionGeneration == 0 then Some(InvalidAccept)
              else if a.capabilities > 15 then Some(UnknownCapabilities)
              else if a.capabilities < 13 then Some(MissingRequiredCapabilities)
              else if a.maxIpPacketLen < 1280 || a.maxDatagramLen < 1036 then Some(InvalidAccept)
              else if !Paired(a.clientIpv4, a.serverIpv4, a.capabilities != 14) then Some(InvalidAccept)
              else if !Paired(a.clientIpv6, a.serverIpv6, a.capabilities != 13) then Some(InvalidAccept)
              else if a.clientIpv4.Some? && (a.clientIpv4 == a.serverIpv4 || !ValidIpv4(a.clientIpv4.value)
                                             || !ValidIpv4(a.serverIpv4.value)) then Some(InvalidAddress)
              else if a.clientIpv6.Some? && (a.clientIpv6 == a.serverIpv6 || !ValidIpv6(a.clientIpv6.value)
                                             || !ValidIpv6(a.serverIpv6.value)) then Some(InvalidAddress)
              else None
  {
    hide ValidateCapabilities, ValidIpv4, ValidIpv6;
    CapabilitiesExactly(a.capabilities);
  }

  // ----- encoding

  function HelloBody(h: Hello): (b: seq<byte>)
    ensures |b| == HELLO_BODY_LEN
  {
    ToBe(h.minWireVersion, 2) + ToBe(h.maxWireVersion, 2) + ToBe(h.capabilities, 4)
    + ToBe(h.maxIpPacketLen, 2) + ToBe(h.maxDatagramLen, 2)
  }

  function Ipv4Or0(a: Option<Ipv4>): Ipv4 {
    if a.Some? then a.value else ZEROS_4
  }

  function Ipv6Or0(a: Option<Ipv6>): Ipv6 {
    if a.Some? then a.value else ZEROS_16
  }

  function AcceptNumbers(a: Accept): (b: seq<byte>)
    ensures |b| == 20
  {
    ToBe(a.selectedWireVersion, 2) + ToBe(0, 2) + ToBe(a.capabilities, 4)
    + ToBe(a.maxIpPacketLen, 2) + ToBe(a.maxDatagramLen, 2) + ToBe(a.sessionGeneration, 8)
  }

  function AcceptAddresses(a: Accept): (b: seq<byte>)
    ensures |b| == 40
  {
    Ipv4Or0(a.clientIpv4) + Ipv4Or0(a.serverIpv4) + Ipv6Or0(a.clientIpv6) + Ipv6Or0(a.serverIpv6)
  }

  function AcceptBody(a: Accept): (b: seq<byte>)
    ensures |b| == ACCEPT_BODY_LEN
  {
    AcceptNumbers(a) + AcceptAddresses(a)
  }

  function RejectBody(r: Reject): (b: seq<byte>)
    ensures |b| == REJECT_BODY_LEN
  {
    ToBe(ReasonCode(r.reason), 2) + ToBe(r.retryAfterSecs, 2)
  }

  function Body(m: Message): (b: seq<byte>)
    ensures |b| <= ACCEPT_BODY_LEN
  {
    match m
    case HelloMessage(h) => HelloBody(h)
    case AcceptMessage(a) => AcceptBody(a)
    case RejectMessage(r) => RejectBody(r)
  }

  function TypeOf(m: Message): byte {
    match m
    case HelloMessage(_) => HELLO
    case AcceptMessage(_) => ACCEPT
    case RejectMessage(_) => REJECT
  }

  function Frame(kind: byte, body: seq<byte>): seq<byte> {
    MAGIC + [FORMAT_VERSION, kind] + ToBe(|body|, 2) + body
  }

  function Encode(m: Message): Result<seq<byte>, ControlError> {
    if Validate(m).Some? then Err(Validate(m).value) else Ok(Frame(TypeOf(m), Body(m)))
  }

  // ----- decoding

  function DecodeHello(body: seq<byte>): Result<Hello, ControlError> {
    if |body| != HELLO_BODY_LEN then Err(InvalidHello)
    else
      var h := Hello(Be16(body[0..2]), Be16(body[2..4]), Be32(body[4..8]), Be16(body[8..10]), Be16(body[10..12]));
      if ValidateHello(h).Some? then Err(ValidateHello(h).value) else Ok(h)
  }

  /** The accept that a body of the right length spells out, before any check. */
  function ReadAccept(body: seq<byte>): Accept
    requires |body| == ACCEPT_BODY_LEN
  {
    var capabilities := Be32(body[4..8]);
    var v4, v6 := HasCap(capabilities, CAP_IPV4), HasCap(capabilities, CAP_IPV6);
    Accept(Be16(body[0..2]), capabilities, Be16(body[8..10]), Be16(body[10..12]), Be64(body[12..20]),
           if v4 then Some(body[20..24]) else None, if v4 then Some(body[24..28]) else None,
           if v6 then Some(body[28..44]) else None, if v6 then Some(body[44..60]) else None)
  }

  /** The bytes of an absent address family are zero. */
  predicate AbsentFamiliesZero(body: seq<byte>)
    requires |body| == ACCEPT_BODY_LEN
  {
    var capabilities := Be32(body[4..8]);
    && (!HasCap(capabilities, CAP_IPV4) ==> body[20..24] == ZEROS_4 && body[24..28] == ZEROS_4)
    && (!HasCap(capabilities, CAP_IPV6) ==> body[28..44] == ZEROS_16 && body[44..60] == ZEROS_16)
  }

  function DecodeAccept(body: seq<byte>): Result<Accept, ControlError> {
    if |body| != ACCEPT_BODY_LEN then Err(InvalidAccept)
    else if body[2..4] != [0, 0] then Err(InvalidAccept)
    else if !AbsentFamiliesZero(body) then Err(InvalidAccept)
    else
      var a := ReadAccept(body);
      if ValidateAccept(a).Some? then Err(ValidateAccept(a).value) else Ok(a)
  }

  function DecodeReject(body: seq<byte>): Result<Reject, ControlError> {
    if |body| != REJECT_BODY_LEN then Err(InvalidReject)
    else
      var reason := ReasonOf(Be16(body[0..2]));
      if reason.None? then Err(InvalidReject) else Ok(Reject(reason.value, Be16(body[2..4])))
  }

  function Decode(encoded: seq<byte>): Result<Message, ControlError> {
    if |encoded| < HEADER_LEN then Err(MessageTooShort)
    else if |encoded| > MAX_MESSAGE_LEN then Err(MessageTooLong)
    else if encoded[..4] != MAGIC then Err(InvalidMagic)
    else if encoded[4] != FORMAT_VERSION then Err(UnsupportedFormatVersion)
    else if HEADER_LEN + Be16(encoded[6..8]) != |encoded| then Err(LengthMismatch)
    else
      var body := encoded[HEADER_LEN..];
      if encoded[5] == HELLO then (var h :- DecodeHello(body); Ok(HelloMessage(h)))
      else if encoded[5] == ACCEPT then (var a :- DecodeAccept(body); Ok(AcceptMessage(a)))
      else if encoded[5] == REJECT then (var r :- DecodeReject(body); Ok(RejectMessage(r)))
      else Err(UnknownMessageType)
  }

  // ----- the bodies

  lemma HelloRoundTrip(h: Hello)
    requires ValidateHello(h).None?
    ensures DecodeHello(HelloBody(h)) == Ok(h)
  {
    hide ValidateHello;
    var b := HelloBody(h);
    assert b[0..2] == ToBe(h.minWireVersion, 2);
    assert b[2..4] == ToBe(h.maxWireVersion, 2);
    assert b[4..8] == ToBe(h.capabilities, 4);
    assert b[8..10] == ToBe(h.maxIpPacketLen, 2);
    assert b[10..12] == ToBe(h.maxDatagramLen, 2);
    RoundTrip16(h.minWireVersion);
    RoundTrip16(h.maxWireVersion);
    RoundTrip32(h.capabilities);
    RoundTrip16(h.maxIpPacketLen);
    RoundTrip16(h.maxDatagramLen);
  }

  lemma HelloReencodes(b: seq<byte>)
    requires DecodeHello(b).Ok?
    ensures ValidateHello(DecodeHello(b).value).None? && HelloBody(DecodeHello(b).value) == b
  {
    hide ValidateHello;
    ToBeOfFromBe(b[0..2]);
    ToBeOfFromBe(b[2..4]);
    ToBeOfFromBe(b[4..8]);
    ToBeOfFromBe(b[8..10]);
    ToBeOfFromBe(b[10..12]);
    assert b == b[0..2] + b[2..4] + b[4..8] + b[8..10] + b[10..12];
  }

  /** The numbers of an accept read back from its body. */
  lemma AcceptNumbersRead(a: Accept)
    ensures var b := AcceptBody(a);
            && b[2..4] == [0, 0]
            && Be16(b[0..2]) == a.selectedWireVersion && Be32(b[4..8]) == a.capabilities
            && Be16(b[8..10]) == a.maxIpPacketLen && Be16(b[10..12]) == a.maxDatagramLen
            && Be64(b[12..20]) == a.sessionGeneration
  {
    var b := AcceptBody(a);
    assert b[0..2] == ToBe(a.selectedWireVersion, 2);
    assert b[2..4] == ToBe(0, 2);
    assert b[4..8] == ToBe(a.capabilities, 4);
    assert b[8..10] == ToBe(a.maxIpPacketLen, 2);
    assert b[10..12] == ToBe(a.maxDatagramLen, 2);
    assert b[12..20] == ToBe(a.sessionGeneration, 8);
    RoundTrip16(a.selectedWireVersion);
    RoundTrip32(a.capabilities);
    RoundTrip16(a.maxIpPacketLen);
    RoundTrip16(a.maxDatagramLen);
    RoundTrip64(a.sessionGeneration);
  }

  lemma AcceptAddressesRead(a: Accept)
    ensures var b := AcceptBody(a);
            && b[20..24] == Ipv4Or0(a.clientIpv4) && b[24..28] == Ipv4Or0(a.serverIpv4)
            && b[28..44] == Ipv6Or0(a.clientIpv6) && b[44..60] == Ipv6Or0(a.serverIpv6)
  {
    hide AcceptNumbers, Ipv4Or0, Ipv6Or0;
    var b, tail := AcceptBody(a), AcceptAddresses(a);
    assert b[20..] == tail;
    SliceAfter(b, 20, 0, 4);
    SliceAfter(b, 20, 4, 8);
    SliceAfter(b, 20, 8, 24);
    SliceAfter(b, 20, 24, 40);
    assert tail[..8] == Ipv4Or0(a.clientIpv4) + Ipv4Or0(a.serverIpv4);
    assert tail[0..4] == tail[..8][..4] && tail[4..8] == tail[..8][4..];
  }

  lemma SliceAfter(b: seq<byte>, at: nat, from: nat, end: nat)
    requires from <= end && at + end <= |b|
    ensures b[at..][from..end] == b[at + from..at + end]
  {
    var inner, outer := b[at..][from..end], b[at + from..at + end];
    forall i | 0 <= i < end - from
      ensures inner[i] == outer[i]
    {
      assert b[at..][from + i] == b[at + (from + i)];
    }
  }

  lemma AcceptRoundTrip(a: Accept)
    requires ValidateAccept(a).None?
    ensures DecodeAccept(AcceptBody(a)) == Ok(a)
  {
    AcceptNumbersRead(a);
    AcceptAddressesRead(a);
    hide AcceptBody, ValidateCapabilities, AddressesUsable, Be16, Be32, Be64;
  }

  lemma AcceptNumbersReencode(b: seq<byte>)
    requires |b| == ACCEPT_BODY_LEN && b[2..4] == [0, 0]
    ensures AcceptNumbers(ReadAccept(b)) == b[..20]
  {
    ToBeOfFromBe(b[0..2]);
    ToBeOfFromBe(b[2..4]);
    ToBeOfFromBe(b[4..8]);
    ToBeOfFromBe(b[8..10]);
    ToBeOfFromBe(b[10..12]);
    ToBeOfFromBe(b[12..20]);
    assert ToBe(0, 2) == [0, 0];
    hide ToBe, FromBe;
    assert b[..20] == b[0..2] + b[2..4] + b[4..8] + b[8..10] + b[10..12] + b[12..20];
  }

  lemma AcceptAddressesReencode(b: seq<byte>)
    requires |b| == ACCEPT_BODY_LEN && AbsentFamiliesZero(b)
    ensures AcceptAddresses(ReadAccept(b)) == b[20..]
  {
    hide Be16, Be32, Be64, HasCap;
    assert b[44..] == b[44..60];
    assert b[28..] == b[28..44] + b[44..];
    assert b[24..] == b[24..28] + b[28..];
    assert b[20..] == b[20..24] + b[24..];
  }

  lemma AcceptReencodes(b: seq<byte>)
    requires DecodeAccept(b).Ok?
    ensures ValidateAccept(DecodeAccept(b).value).None? && AcceptBody(DecodeAccept(b).value) == b
  {
    hide ValidateAccept, AcceptNumbers, AcceptAddresses, ReadAccept, AbsentFamiliesZero;
    AcceptNumbersReencode(b);
    AcceptAddressesReencode(b);
    assert b == b[..20] + b[20..];
  }

  lemma RejectRoundTrip(r: Reject)
    ensures DecodeReject(RejectBody(r)) == Ok(r)
  {
    var b := RejectBody(r);
    assert b[0..2] == ToBe(ReasonCode(r.reason), 2);
    assert b[2..4] == ToBe(r.retryAfterSecs, 2);
    RoundTrip16(ReasonCode(r.reason));
    RoundTrip16(r.retryAfterSecs);
  }

  lemma RejectReencodes(b: seq<byte>)
    requires DecodeReject(b).Ok?
    ensures RejectBody(DecodeReject(b).value) == b
  {
    ToBeOfFromBe(b[0..2]);
    ToBeOfFromBe(b[2..4]);
    assert b == b[0..2] + b[2..4];
  }

  // ----- the codec is a bijection between valid messages and accepted byte strings

  lemma FrameParts(kind: byte, body: seq<byte>)
    requires |body| <= ACCEPT_BODY_LEN
    ensures var e := Frame(kind, body);
            && HEADER_LEN <= |e| <= MAX_MESSAGE_LEN && e[..4] == MAGIC && e[4] == FORMAT_VERSION && e[5] == kind
            && HEADER_LEN + Be16(e[6..8]) == |e| && e[HEADER_LEN..] == body
  {
    var e := Frame(kind, body);
    assert e[6..8] == ToBe(|body|, 2);
    RoundTrip16(|body|);
  }

  lemma DecodeOfEncode(m: Message)
    ensures Encode(m).Ok? <==> Validate(m).None?
    ensures Encode(m).Ok? ==> Decode(Encode(m).value) == Ok(m)
  {
    hide ValidateHello, ValidateAccept, DecodeHello, DecodeAccept, DecodeReject, HelloBody, AcceptBody, RejectBody,
         Frame;
    if Validate(m).None? {
      FrameParts(TypeOf(m), Body(m));
      match m
      case HelloMessage(h) => HelloRoundTrip(h);
      case AcceptMessage(a) => AcceptRoundTrip(a);
      case RejectMessage(r) => RejectRoundTrip(r);
    }
  }

  lemma FrameOfParts(e: seq<byte>)
    requires |e| >= HEADER_LEN && e[..4] == MAGIC && e[4] == FORMAT_VERSION && HEADER_LEN + Be16(e[6..8]) == |e|
    ensures Frame(e[5], e[HEADER_LEN..]) == e
  {
    ToBeOfFromBe(e[6..8]);
    assert e == e[..4] + [e[4], e[5]] + e[6..8] + e[8..];
  }

  lemma EncodeOfDecode(e: seq<byte>)
    requires Decode(e).Ok?
    ensures Encode(Decode(e).value) == Ok(e)
  {
    hide ValidateHello, ValidateAccept, DecodeHello, DecodeAccept, DecodeReject, HelloBody, AcceptBody, RejectBody,
         Frame;
    FrameOfParts(e);
    var body := e[HEADER_LEN..];
    if e[5] == HELLO {
      HelloReencodes(body);
    } else if e[5] == ACCEPT {
      AcceptReencodes(body);
    } else {
      RejectReencodes(body);
    }
  }

  // ----- the layout, byte by byte

  /** The frame: four letters, the format, the kind of message and the length of the body. */
  lemma FrameLayout(m: Message)
    requires Validate(m).None?
    ensures var e := Frame(TypeOf(m), Body(m));
            && Encode(m) == Ok(e) && |e| == 8 + |Body(m)|
            && e[0] == 0x46 && e[1] == 0x57 && e[2] == 0x43 && e[3] == 0x31 && e[4] == 1
            && e[5] == (match m case HelloMessage(_) => 1 case AcceptMessage(_) => 2 case RejectMessage(_) => 3)
            && Two(e[6], e[7]) == |Body(m)| && e[8..] == Body(m)
  {
    hide Validate, Body;
    FrameParts(TypeOf(m), Body(m));
    Be16Parts(Frame(TypeOf(m), Body(m))[6..8]);
  }

  lemma HelloLayout(h: Hello)
    ensures var b := HelloBody(h);
            && |b| == 12
            && Two(b[0], b[1]) == h.minWireVersion && Two(b[2], b[3]) == h.maxWireVersion
            && Four(b[4], b[5], b[6], b[7]) == h.capabilities
            && Two(b[8], b[9]) == h.maxIpPacketLen && Two(b[10], b[11]) == h.maxDatagramLen
  {
    var b := HelloBody(h);
    assert b[0..2] == ToBe(h.minWireVersion, 2);
    assert b[2..4] == ToBe(h.maxWireVersion, 2);
    assert b[4..8] == ToBe(h.capabilities, 4);
    assert b[8..10] == ToBe(h.maxIpPacketLen, 2);
    assert b[10..12] == ToBe(h.maxDatagramLen, 2);
    Spelled16(b, 0, h.minWireVersion);
    Spelled16(b, 2, h.maxWireVersion);
    Spelled32(b, 4, h.capabilities);
    Spelled16(b, 8, h.maxIpPacketLen);
    Spelled16(b, 10, h.maxDatagramLen);
  }

  lemma Spelled16(b: seq<byte>, at: nat, n: u16)
    requires at + 2 <= |b| && b[at..at + 2] == ToBe(n, 2)
    ensures Two(b[at], b[at + 1]) == n
  {
    RoundTrip16(n);
    Be16Parts(b[at..at + 2]);
  }

  lemma Spelled32(b: seq<byte>, at: nat, n: u32)
    requires at + 4 <= |b| && b[at..at + 4] == ToBe(n, 4)
    ensures Four(b[at], b[at + 1], b[at + 2], b[at + 3]) == n
  {
    RoundTrip32(n);
    Be32Parts(b[at..at + 4]);
  }

  /** An accept: version, two zero bytes, capabilities, sizes, generation; then client and server, IPv4 and IPv6. */
  lemma AcceptLayout(a: Accept)
    ensures var b := AcceptBody(a);
            && |b| == 60
            && Two(b[0], b[1]) == a.selectedWireVersion && b[2] == b[3] == 0
            && Four(b[4], b[5], b[6], b[7]) == a.capabilities
            && Two(b[8], b[9]) == a.maxIpPacketLen && Two(b[10], b[11]) == a.maxDatagramLen
            && Four(b[12], b[13], b[14], b[15]) * 0x1_0000_0000 + Four(b[16], b[17], b[18], b[19]) ==
                 a.sessionGeneration
            && (a.clientIpv4.Some? ==> b[20..24] == a.clientIpv4.value)
            && (a.serverIpv4.Some? ==> b[24..28] == a.serverIpv4.value)
            && (a.clientIpv6.Some? ==> b[28..44] == a.clientIpv6.value)
            && (a.serverIpv6.Some? ==> b[44..60] == a.serverIpv6.value)
  {
    AcceptNumbersRead(a);
    AcceptAddressesRead(a);
    hide AcceptBody;
    var b := AcceptBody(a);
    Be16Parts(b[0..2]);
    assert b[2] == b[2..4][0] && b[3] == b[2..4][1];
    Be32Parts(b[4..8]);
    Be16Parts(b[8..10]);
    Be16Parts(b[10..12]);
    Be64Parts(b[12..20]);
  }

  /** A reject: its reason's number and the seconds to wait. */
  lemma RejectLayout(r: Reject)
    ensures var b := RejectBody(r);
            && |b| == 4 && Two(b[2], b[3]) == r.retryAfterSecs
            && Two(b[0], b[1]) ==
                 (match r.reason
                  case UnsupportedVersion => 1
                  case Unauthorized => 2
                  case IdentityDisabled => 3
                  case AddressInUse => 4
                  case ResourceLimit => 5
                  case PolicyRejected => 6
                  case ProtocolViolation => 7)
  {
    var b := RejectBody(r);
    assert b[0..2] == ToBe(ReasonCode(r.reason), 2);
    assert b[2..4] == ToBe(r.retryAfterSecs, 2);
    Spelled16(b, 0, ReasonCode(r.reason));
    Spelled16(b, 2, r.retryAfterSecs);
  }

  /** The refusals of a body: of the wrong length, with bytes set that must be zero, or for what it says. */
  lemma BodyRefusals(b: seq<byte>)
    ensures |b| != 12 ==> DecodeHello(b) == Err(InvalidHello)
    ensures |b| != 60 ==> DecodeAccept(b) == Err(InvalidAccept)
    ensures |b| == 60 && (b[2] != 0 || b[3] != 0) ==> DecodeAccept(b) == Err(InvalidAccept)
    ensures |b| == 60 && b[2] == b[3] == 0 ==>
              var zero4 := forall i :: 20 <= i < 28 ==> b[i] == 0;
              var zero6 := forall i :: 28 <= i < 60 ==> b[i] == 0;
              var capabilities := Four(b[4], b[5], b[6], b[7]);
              if (capabilities % 2 == 0 && !zero4) || (capabilities / 2 % 2 == 0 && !zero6)
              then DecodeAccept(b) == Err(InvalidAccept)
              else var a := ReadAccept(b);
                   DecodeAccept(b) == if ValidateAccept(a).None? then Ok(a) else Err(ValidateAccept(a).value)
    ensures |b| != 4 || Two(b[0], b[1]) == 0 || Two(b[0], b[1]) > 7 ==> DecodeReject(b) == Err(InvalidReject)
  {
    hide ValidateHello, ValidateAccept, ReadAccept;
    if |b| == 60 {
      assert b[2..4] == [0, 0] <==> b[2] == b[3] == 0;
      Be32Parts(b[4..8]);
      AbsentFamilies(b);
    }
    if |b| == 4 {
      Be16Parts(b[0..2]);
    }
  }

  lemma AbsentFamilies(b: seq<byte>)
    requires |b| == 60
    ensures (b[20..24] == ZEROS_4 && b[24..28] == ZEROS_4) <==> forall i :: 20 <= i < 28 ==> b[i] == 0
    ensures (b[28..44] == ZEROS_16 && b[44..60] == ZEROS_16) <==> forall i :: 28 <= i < 60 ==> b[i] == 0
  {
    ZeroSlice(b, 20, 24, ZEROS_4);
    ZeroSlice(b, 24, 28, ZEROS_4);
    ZeroSlice(b, 28, 44, ZEROS_16);
    ZeroSlice(b, 44, 60, ZEROS_16);
  }

  lemma ZeroSlice(b: seq<byte>, from: nat, to: nat, zeros: seq<byte>)
    requires from <= to <= |b| && |zeros| == to - from && forall i :: 0 <= i < |zeros| ==> zeros[i] == 0
    ensures b[from..to] == zeros <==> forall i :: from <= i < to ==> b[i] == 0
  {
    if b[from..to] == zeros {
      forall i | from <= i < to
        ensures b[i] == 0
      {
        assert b[i] == b[from..to][i - from];
      }
    }
  }

  /** The refusals of a frame, in the order of the tests; with none of them the body decides. */
  lemma FrameRefusals(e: seq<byte>)
    ensures if |e| < 8 then Decode(e) == Err(MessageTooShort)
            else if |e| > 256 then Decode(e) == Err(MessageTooLong)
            else if e[..4] != [0x46, 0x57, 0x43, 0x31] then Decode(e) == Err(InvalidMagic)
            else if e[4] != 1 then Decode(e) == Err(UnsupportedFormatVersion)
            else if 8 + Two(e[6], e[7]) != |e| then Decode(e) == Err(LengthMismatch)
            else if e[5] == 1 then Decode(e).Err? == DecodeHello(e[8..]).Err? &&
              (Decode(e).Err? ==> Decode(e).error == DecodeHello(e[8..]).error)
            else if e[5] == 2 then Decode(e).Err? == DecodeAccept(e[8..]).Err? &&
              (Decode(e).Err? ==> Decode(e).error == DecodeAccept(e[8..]).error)
            else if e[5] == 3 then Decode(e).Err? == DecodeReject(e[8..]).Err? &&
              (Decode(e).Err? ==> Decode(e).error == DecodeReject(e[8..]).error)
            else Decode(e) == Err(UnknownMessageType)
  {
    hide DecodeHello, DecodeAccept, DecodeReject;
    if |e| >= 8 {
      Be16Parts(e[6..8]);
    }
  }
}
