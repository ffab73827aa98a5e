/** The identity registry (src/vpn_identity.rs): who may connect, and under which policy. */
module Registry {
  import opened Wrappers
  import opened Bytes
  import opened TunnelAddress

  const MAX_IDENTITIES := 4096
  const MAX_CLIENT_ID_LEN := 64
  const MAX_FINGERPRINTS := 2
  const MAX_PACKETS_PER_SECOND := 1_000_000
  const MAX_BYTES_PER_SECOND := 4 * 1024 * 1024 * 1024
  const MIN_REASSEMBLY_BYTES := U16_MAX
  const MAX_REASSEMBLY_BYTES := 8 * 1024 * 1024

  datatype Fingerprint = Fingerprint(sha256: seq<byte>)

  datatype Network = Network(octets: seq<byte>, prefixLen: nat)

  datatype DataPolicy = DataPolicy(
    clientIpv4: Option<seq<byte>>, clientIpv6: Option<seq<byte>>, allowedDestinations: seq<Network>)

  datatype IdentityLimits = IdentityLimits(
    maxConnections: nat, maxPacketsPerSecond: nat, maxBytesPerSecond: nat, maxReassemblyBytes: nat)

  datatype Identity = Identity(
    clientId: string, fingerprints: seq<Fingerprint>, enabled: bool, policy: DataPolicy, limits: IdentityLimits)

  /** Everything but the list of certificates. */
  predicate SameSessionPolicy(a: Identity, b: Identity) {
    a.clientId == b.clientId && a.enabled == b.enabled && a.policy == b.policy && a.limits == b.limits
  }

  datatype RegistryError =
    | MissingServerAddress
    | InvalidServerAddress
    | TooManyIdentities
    | InvalidClientId
    | MissingFingerprint
    | TooManyFingerprints
    | InvalidLimits
    | AddressFamilyUnavailable
    | ClientServerAddressConflict
    | DuplicateClientId
    | DuplicateFingerprint
    | DuplicateClientAddress

  datatype AuthorizationError = UnknownFingerprint | IdentityDisabled

  /** The identities and the two indexes built over them. */
  datatype IdentityRegistry = IdentityRegistry(
    serverIpv4: Option<seq<byte>>, serverIpv6: Option<seq<byte>>,
    identities: seq<Identity>, byClientId: map<string, nat>, byFingerprint: map<Fingerprint, nat>)

  /** Both indexes are exactly the inverse of the list. */
  ghost predicate Indexed(r: IdentityRegistry) {
    && (forall c :: c in r.byClientId ==>
          r.byClientId[c] < |r.identities| && r.identities[r.byClientId[c]].clientId == c)
    && (forall i :: 0 <= i < |r.identities| ==>
          r.identities[i].clientId in r.byClientId && r.byClientId[r.identities[i].clientId] == i)
    && (forall f :: f in r.byFingerprint ==>
          r.byFingerprint[f] < |r.identities| && f in r.identities[r.byFingerprint[f]].fingerprints)
    && (forall i, f :: 0 <= i < |r.identities| && f in r.identities[i].fingerprints ==>
          f in r.byFingerprint && r.byFingerprint[f] == i)
  }

  function ByClientId(r: IdentityRegistry, clientId: string): (o: Option<Identity>)
    requires Indexed(r)
  {
    if clientId in r.byClientId then Some(r.identities[r.byClientId[clientId]]) else None
  }

  function Authorize(r: IdentityRegistry, f: Fingerprint): Result<Identity, AuthorizationError>
    requires Indexed(r)
  {
    if f !in r.byFingerprint then Err(UnknownFingerprint)
    else
      var identity := r.identities[r.byFingerprint[f]];
      if !identity.enabled then Err(IdentityDisabled) else Ok(identity)
  }

  predicate EnabledClient(r: IdentityRegistry, clientId: string)
    requires Indexed(r)
  {
    ByClientId(r, clientId).Some? && ByClientId(r, clientId).value.enabled
  }

  /** An authorized identity is enabled, carries the certificate, and is the one found under its own client id. */
  lemma AuthorizedIsEnabledClient(r: IdentityRegistry, f: Fingerprint)
    requires Indexed(r) && Authorize(r, f).Ok?
    ensures var identity := Authorize(r, f).value;
            f in identity.fingerprints && ByClientId(r, identity.clientId) == Some(identity)
            && EnabledClient(r, identity.clientId)
  {
    assert r.identities[r.byFingerprint[f]].clientId in r.byClientId;
  }

  /** Some identity on the list has this certificate and is enabled, or is not. */
  ghost predicate Certifies(r: IdentityRegistry, f: Fingerprint, enabled: bool) {
    exists i :: 0 <= i < |r.identities| && f in r.identities[i].fingerprints && r.identities[i].enabled == enabled
  }

  /** Authorization in terms of the list alone: each answer with its condition. */
  lemma AuthorizeExact(r: IdentityRegistry, f: Fingerprint)
    requires Indexed(r)
    ensures Authorize(r, f).Ok? <==> Certifies(r, f, true)
    ensures Authorize(r, f) == Err(IdentityDisabled) <==> Certifies(r, f, false)
    ensures Authorize(r, f) == Err(UnknownFingerprint) <==>
              forall i :: 0 <= i < |r.identities| ==> f !in r.identities[i].fingerprints
    ensures Authorize(r, f).Ok? ==>
              var identity := Authorize(r, f).value;
              identity in r.identities && f in identity.fingerprints && identity.enabled
  {
    if f in r.byFingerprint {
      var i := r.byFingerprint[f];
      assert f in r.identities[i].fingerprints;
    }
  }

  /** A certificate belongs to one identity only. */
  lemma FingerprintIdentifies(r: IdentityRegistry, f: Fingerprint, i: nat)
    requires Indexed(r) && i < |r.identities| && f in r.identities[i].fingerprints
    ensures Authorize(r, f) == if r.identities[i].enabled then Ok(r.identities[i]) else Err(IdentityDisabled)
  {
  }

  // ----- construction

  predicate ClientIdChar(c: char) {
    'a' <= c <= 'z' || 'A' <= c <= 'Z' || '0' <= c <= '9' || c == '-' || c == '_' || c == '.'
  }

  predicate LimitsInRange(l: IdentityLimits) {
    && l.maxConnections == 1
    && 0 < l.maxPacketsPerSecond <= MAX_PACKETS_PER_SECOND
    && 0 < l.maxBytesPerSecond <= MAX_BYTES_PER_SECOND
    && MIN_REASSEMBLY_BYTES <= l.maxReassemblyBytes <= MAX_REASSEMBLY_BYTES
  }

  predicate ClientIdValid(clientId: string) {
    0 < |clientId| <= MAX_CLIENT_ID_LEN && forall k :: 0 <= k < |clientId| ==> ClientIdChar(clientId[k])
  }

  predicate AllDistinct(fingerprints: seq<Fingerprint>) {
    forall i, j :: 0 <= i < j < |fingerprints| ==> fingerprints[i] != fingerprints[j]
  }

  /** `VpnIdentity::validate`: what is wrong with an identity by itself, tested in this order. */
  function IdentityFault(identity: Identity): Option<RegistryError> {
    if !ClientIdValid(identity.clientId) then Some(InvalidClientId)
    else if identity.fingerprints == [] then Some(MissingFingerprint)
    else if |identity.fingerprints| > MAX_FINGERPRINTS then Some(TooManyFingerprints)
    else if !AllDistinct(identity.fingerprints) then Some(DuplicateFingerprint)
    else if !LimitsInRange(identity.limits) then Some(InvalidLimits)
    else None
  }

  /** What is wrong with an identity by itself, in numbers and in the order of the tests. */
  lemma FitExactly(identity: Identity)
    ensures var name, certificates, l := identity.clientId, identity.fingerprints, identity.limits;
            IdentityFault(identity) ==
              if |name| == 0 || |name| > 64 || !(forall k :: 0 <= k < |name| ==> ClientIdChar(name[k]))
              then Some(InvalidClientId)
              else if |certificates| == 0 then Some(MissingFingerprint)
              else if |certificates| > 2 then Some(TooManyFingerprints)
              else if |certificates| == 2 && certificates[0] == certificates[1] then Some(DuplicateFingerprint)
              else if l.maxConnections != 1 || l.maxPacketsPerSecond == 0 || l.maxPacketsPerSecond > 1_000_000
                      || l.maxBytesPerSecond == 0 || l.maxBytesPerSecond > 4_294_967_296
                      || l.maxReassemblyBytes < 65_535 || l.maxReassemblyBytes > 8_388_608
              then Some(InvalidLimits)
              else None
  {
  }

  predicate FamilyAvailable(identity: Identity, ipv4: Option<seq<byte>>, ipv6: Option<seq<byte>>) {
    && (identity.policy.clientIpv4.Some? ==> ipv4.Some?)
    && (identity.policy.clientIpv6.Some? ==> ipv6.Some?)
  }

  predicate AddressConflict(identity: Identity, ipv4: Option<seq<byte>>, ipv6: Option<seq<byte>>) {
    || (identity.policy.clientIpv4.Some? && identity.policy.clientIpv4 == ipv4)
    || (identity.policy.clientIpv6.Some? && identity.policy.clientIpv6 == ipv6)
  }

  predicate ServerAddressesValid(ipv4: Option<seq<byte>>, ipv6: Option<seq<byte>>) {
    && (ipv4.Some? ==> ValidIpv4(ipv4.value))
    && (ipv6.Some? ==> ValidIpv6(ipv6.value))
  }

  /** What an identity must satisfy by itself. */
  predicate Admissible(identity: Identity, ipv4: Option<seq<byte>>, ipv6: Option<seq<byte>>) {
    IdentityFault(identity).None? && FamilyAvailable(identity, ipv4, ipv6) && !AddressConflict(identity, ipv4, ipv6)
  }

  ghost predicate ShareCertificate(a: Identity, b: Identity) {
    exists f :: f in a.fingerprints && f in b.fingerprints
  }

  predicate ShareAddress(a: Identity, b: Identity) {
    || (a.policy.clientIpv4.Some? && a.policy.clientIpv4 == b.policy.clientIpv4)
    || (a.policy.clientIpv6.Some? && a.policy.clientIpv6 == b.policy.clientIpv6)
  }

  /** Two identities that may not stand in one registry. */
  ghost predicate Clash(a: Identity, b: Identity) {
    a.clientId == b.clientId || ShareCertificate(a, b) || ShareAddress(a, b)
  }

  ghost predicate Acceptable(identities: seq<Identity>, ipv4: Option<seq<byte>>, ipv6: Option<seq<byte>>) {
    && (forall i :: 0 <= i < |identities| ==> Admissible(identities[i], ipv4, ipv6))
    && (forall i, j :: 0 <= i < j < |identities| ==> !Clash(identities[i], identities[j]))
  }

  /** What building a registry guarantees. */
  ghost predicate Built(r: IdentityRegistry) {
    && Indexed(r) && |r.identities| <= MAX_IDENTITIES
    && (r.serverIpv4.Some? || r.serverIpv6.Some?) && ServerAddressesValid(r.serverIpv4, r.serverIpv6)
    && Acceptable(r.identities, r.serverIpv4, r.serverIpv6)
  }

  /** What keeps an identity out of a registry that already holds `before`. */
  ghost function EntryFault(before: seq<Identity>, identity: Identity, ipv4: Option<seq<byte>>, ipv6: Option<seq<byte>>)
    : Option<RegistryError>
  {
    if IdentityFault(identity).Some? then IdentityFault(identity)
    else if !FamilyAvailable(identity, ipv4, ipv6) then Some(AddressFamilyUnavailable)
    else if AddressConflict(identity, ipv4, ipv6) then Some(ClientServerAddressConflict)
    else if exists i :: 0 <= i < |before| && before[i].clientId == identity.clientId then Some(DuplicateClientId)
    else if exists i :: 0 <= i < |before| && ShareCertificate(before[i], identity) then Some(DuplicateFingerprint)
    else if exists i :: 0 <= i < |before| && ShareAddress(before[i], identity) then Some(DuplicateClientAddress)
    else None
  }

  /** The fault of the first identity, from position `n` on, that has one. */
  ghost function FirstFault(identities: seq<Identity>, n: nat, ipv4: Option<seq<byte>>, ipv6: Option<seq<byte>>)
    : Option<RegistryError>
    requires n <= |identities|
    decreases |identities| - n
  {
    if n == |identities| then None
    else
      var fault := EntryFault(identities[..n], identities[n], ipv4, ipv6);
      if fault.Some? then fault else FirstFault(identities, n + 1, ipv4, ipv6)
  }

  ghost function RegistryFault(ipv4: Option<seq<byte>>, ipv6: Option<seq<byte>>, identities: seq<Identity>)
    : Option<RegistryError>
  {
    if ipv4.None? && ipv6.None? then Some(MissingServerAddress)
    else if !ServerAddressesValid(ipv4, ipv6) then Some(InvalidServerAddress)
    else if |identities| > MAX_IDENTITIES then Some(TooManyIdentities)
    else FirstFault(identities, 0, ipv4, ipv6)
  }

  /** An identity finds no fault exactly when it is fit and clashes with none before it. */
  lemma NoEntryFault(before: seq<Identity>, identity: Identity, ipv4: Option<seq<byte>>, ipv6: Option<seq<byte>>)
    ensures EntryFault(before, identity, ipv4, ipv6).None? <==>
              && Admissible(identity, ipv4, ipv6)
              && forall i :: 0 <= i < |before| ==> !Clash(before[i], identity)
  {
    hide IdentityFault, FamilyAvailable, AddressConflict, ShareCertificate, ShareAddress;
  }

  /** Enters the certificates of one identity; stops at one that is already entered. */
  method IndexFingerprints(index: map<Fingerprint, nat>, fingerprints: seq<Fingerprint>, at: nat)
    returns (ok: bool, grown: map<Fingerprint, nat>)
    requires AllDistinct(fingerprints)
    ensures ok <==> forall f :: f in fingerprints ==> f !in index
    ensures ok ==> forall f :: f in grown <==> f in index || f in fingerprints
    ensures ok ==> forall f :: f in grown ==> grown[f] == if f in fingerprints then at else index[f]
  {
    grown := index;
    var k := 0;
    while k < |fingerprints|
      invariant 0 <= k <= |fingerprints|
      invariant forall f :: f in fingerprints[..k] ==> f !in index
      invariant forall f :: f in grown <==> f in index || f in fingerprints[..k]
      invariant forall f :: f in grown ==> grown[f] == if f in fingerprints[..k] then at else index[f]
    {
      if fingerprints[k] in grown {
        assert fingerprints[k] in index;
        return false, grown;
      }
      grown := grown[fingerprints[k] := at];
      assert fingerprints[..k + 1] == fingerprints[..k] + [fingerprints[k]];
      k := k + 1;
    }
    return true, grown;
  }

  /** The addresses that the first identities use. */
  ghost predicate AddressesOf(ipv4s: set<seq<byte>>, ipv6s: set<seq<byte>>, identities: seq<Identity>) {
    && (forall a :: a in ipv4s <==> exists i :: 0 <= i < |identities| && identities[i].policy.clientIpv4 == Some(a))
    && (forall a :: a in ipv6s <==> exists i :: 0 <= i < |identities| && identities[i].policy.clientIpv6 == Some(a))
  }

  /** The indexes know exactly the client ids, certificates and addresses of the identities entered. */
  lemma IndexesKnow(r: IdentityRegistry, ipv4s: set<seq<byte>>, ipv6s: set<seq<byte>>, identity: Identity)
    requires Indexed(r) && AddressesOf(ipv4s, ipv6s, r.identities)
    ensures identity.clientId in r.byClientId <==>
              exists i :: 0 <= i < |r.identities| && r.identities[i].clientId == identity.clientId
    ensures (exists f :: f in identity.fingerprints && f in r.byFingerprint) <==>
              exists i :: 0 <= i < |r.identities| && ShareCertificate(r.identities[i], identity)
    ensures KnownAddress(ipv4s, ipv6s, identity) <==>
              exists i :: 0 <= i < |r.identities| && ShareAddress(r.identities[i], identity)
  {
    CertificatesKnow(r, identity);
    AddressesKnow(ipv4s, ipv6s, r.identities, identity);
    hide AddressesOf, ShareCertificate, ShareAddress;
    if identity.clientId in r.byClientId {
      assert r.identities[r.byClientId[identity.clientId]].clientId == identity.clientId;
    }
  }

  predicate KnownAddress(ipv4s: set<seq<byte>>, ipv6s: set<seq<byte>>, identity: Identity) {
    || (identity.policy.clientIpv4.Some? && identity.policy.clientIpv4.value in ipv4s)
    || (identity.policy.clientIpv6.Some? && identity.policy.clientIpv6.value in ipv6s)
  }

  lemma CertificatesKnow(r: IdentityRegistry, identity: Identity)
    requires Indexed(r)
    ensures (exists f :: f in identity.fingerprints && f in r.byFingerprint) <==>
              exists i :: 0 <= i < |r.identities| && ShareCertificate(r.identities[i], identity)
  {
    if f :| f in identity.fingerprints && f in r.byFingerprint {
      assert ShareCertificate(r.identities[r.byFingerprint[f]], identity);
    }
    if i :| 0 <= i < |r.identities| && ShareCertificate(r.identities[i], identity) {
      var f :| f in r.identities[i].fingerprints && f in identity.fingerprints;
      assert f in r.byFingerprint;
    }
  }

  lemma AddressesKnow(ipv4s: set<seq<byte>>, ipv6s: set<seq<byte>>, identities: seq<Identity>, identity: Identity)
    requires AddressesOf(ipv4s, ipv6s, identities)
    ensures KnownAddress(ipv4s, ipv6s, identity) <==>
              exists i :: 0 <= i < |identities| && ShareAddress(identities[i], identity)
  {
    var p := identity.policy;
    if p.clientIpv4.Some? && p.clientIpv4.value in ipv4s {
      var i :| 0 <= i < |identities| && identities[i].policy.clientIpv4 == Some(p.clientIpv4.value);
      assert ShareAddress(identities[i], identity);
    } else if p.clientIpv6.Some? && p.clientIpv6.value in ipv6s {
      var i :| 0 <= i < |identities| && identities[i].policy.clientIpv6 == Some(p.clientIpv6.value);
      assert ShareAddress(identities[i], identity);
    }
  }

  lemma AcceptableSnoc(identities: seq<Identity>, n: nat, ipv4: Option<seq<byte>>, ipv6: Option<seq<byte>>)
    requires n < |identities|
    ensures Acceptable(identities[..n + 1], ipv4, ipv6) <==>
              && Acceptable(identities[..n], ipv4, ipv6)
              && Admissible(identities[n], ipv4, ipv6)
              && forall i :: 0 <= i < n ==> !Clash(identities[i], identities[n])
    ensures Acceptable(identities, ipv4, ipv6) ==> Acceptable(identities[..n + 1], ipv4, ipv6)
  {
    hide Admissible, Clash;
    var a, b := identities[..n], identities[..n + 1];
    assert forall i :: 0 <= i < n ==> a[i] == identities[i] && b[i] == identities[i];
    assert b[n] == identities[n];
    if Acceptable(b, ipv4, ipv6) {
      forall i, j | 0 <= i < j < |a|
        ensures !Clash(a[i], a[j])
      {
        assert !Clash(b[i], b[j]);
      }
      forall i | 0 <= i < n
        ensures !Clash(identities[i], identities[n]) && Admissible(a[i], ipv4, ipv6)
      {
        assert !Clash(b[i], b[n]) && Admissible(b[i], ipv4, ipv6);
      }
    }
  }

  /** Builds a registry: accepted exactly when no identity is unfit and no two clash, and then fully indexed. */
  method NewRegistry(ipv4: Option<seq<byte>>, ipv6: Option<seq<byte>>, identities: seq<Identity>)
    returns (r: Result<IdentityRegistry, RegistryError>)
    ensures r.Ok? <==>
              && (ipv4.Some? || ipv6.Some?) && ServerAddressesValid(ipv4, ipv6)
              && |identities| <= MAX_IDENTITIES && Acceptable(identities, ipv4, ipv6)
    ensures r.Ok? ==> Built(r.value) && r.value.identities == identities
    ensures r.Ok? ==> r.value.serverIpv4 == ipv4 && r.value.serverIpv6 == ipv6
    ensures r.Err? ==> RegistryFault(ipv4, ipv6, identities) == Some(r.error)
  {
    hide Indexed, AddressesOf, Admissible, Clash, EntryFault;
    NothingIndexed(ipv4, ipv6);
    if ipv4.None? && ipv6.None? {
      return Err(MissingServerAddress);
    }
    if !ServerAddressesValid(ipv4, ipv6) {
      return Err(InvalidServerAddress);
    }
    if |identities| > MAX_IDENTITIES {
      return Err(TooManyIdentities);
    }
    var reg := IdentityRegistry(ipv4, ipv6, [], map[], map[]);
    var ipv4s: set<seq<byte>>, ipv6s: set<seq<byte>> := {}, {};
    var n := 0;
    while n < |identities|
      invariant 0 <= n <= |identities| && reg.identities == identities[..n]
      invariant reg.serverIpv4 == ipv4 && reg.serverIpv6 == ipv6
      invariant Indexed(reg) && AddressesOf(ipv4s, ipv6s, reg.identities)
      invariant Acceptable(identities[..n], ipv4, ipv6)
      invariant FirstFault(identities, 0, ipv4, ipv6) == FirstFault(identities, n, ipv4, ipv6)
    {
      var error;
      ghost var before := reg;
      error, reg, ipv4s, ipv6s := AddIdentity(reg, ipv4s, ipv6s, identities[n]);
      AcceptableSnoc(identities, n, ipv4, ipv6);
      NoEntryFault(identities[..n], identities[n], ipv4, ipv6);
      if error.Some? {
        return Err(error.value);
      }
      assert identities[..n + 1] == identities[..n] + [identities[n]];
      n := n + 1;
    }
    assert identities[..n] == identities;
    return Ok(reg);
  }

  /** One round of the loop. */
  method AddIdentity(reg: IdentityRegistry, ipv4s: set<seq<byte>>, ipv6s: set<seq<byte>>, identity: Identity)
    returns (error: Option<RegistryError>, r: IdentityRegistry, v4: set<seq<byte>>, v6: set<seq<byte>>)
    requires Indexed(reg) && AddressesOf(ipv4s, ipv6s, reg.identities)
    ensures error == EntryFault(reg.identities, identity, reg.serverIpv4, reg.serverIpv6)
    ensures error.None? ==>
              && Indexed(r) && AddressesOf(v4, v6, r.identities) && r.identities == reg.identities + [identity]
              && r.serverIpv4 == reg.serverIpv4 && r.serverIpv6 == reg.serverIpv6
  {
    hide AddressesOf, Indexed, ShareCertificate, ShareAddress;
    r, v4, v6 := reg, ipv4s, ipv6s;
    IndexesKnow(reg, ipv4s, ipv6s, identity);
    var fault := IdentityFault(identity);
    if fault.Some? {
      return fault, r, v4, v6;
    }
    if !FamilyAvailable(identity, reg.serverIpv4, reg.serverIpv6) {
      return Some(AddressFamilyUnavailable), r, v4, v6;
    }
    if AddressConflict(identity, reg.serverIpv4, reg.serverIpv6) {
      return Some(ClientServerAddressConflict), r, v4, v6;
    }
    if identity.clientId in reg.byClientId {
      return Some(DuplicateClientId), r, v4, v6;
    }
    var at := |reg.identities|;
    var ok, grown := IndexFingerprints(reg.byFingerprint, identity.fingerprints, at);
    if !ok {
      return Some(DuplicateFingerprint), r, v4, v6;
    }
    if KnownAddress(ipv4s, ipv6s, identity) {
      return Some(DuplicateClientAddress), r, v4, v6;
    }
    var p := identity.policy;
    r := reg.(identities := reg.identities + [identity], byClientId := reg.byClientId[identity.clientId := at],
              byFingerprint := grown);
    v4 := if p.clientIpv4.Some? then ipv4s + {p.clientIpv4.value} else ipv4s;
    v6 := if p.clientIpv6.Some? then ipv6s + {p.clientIpv6.value} else ipv6s;
    IndexedGrows(reg, identity, grown);
    AddressesGrow(ipv4s, ipv6s, v4, v6, reg.identities, identity);
    error := None;
  }

  lemma NothingIndexed(ipv4: Option<seq<byte>>, ipv6: Option<seq<byte>>)
    ensures Indexed(IdentityRegistry(ipv4, ipv6, [], map[], map[])) && AddressesOf({}, {}, [])
  {
  }

  lemma IndexedGrows(reg: IdentityRegistry, identity: Identity, grown: map<Fingerprint, nat>)
    requires Indexed(reg) && identity.clientId !in reg.byClientId
    requires forall f :: f in identity.fingerprints ==> f !in reg.byFingerprint
    requires forall f :: f in grown <==> f in reg.byFingerprint || f in identity.fingerprints
    requires forall f :: f in grown ==>
               grown[f] == if f in identity.fingerprints then |reg.identities| else reg.byFingerprint[f]
    ensures Indexed(reg.(identities := reg.identities + [identity],
                         byClientId := reg.byClientId[identity.clientId := |reg.identities|], byFingerprint := grown))
  {
  }

  lemma AddressesGrow(ipv4s: set<seq<byte>>, ipv6s: set<seq<byte>>, v4: set<seq<byte>>, v6: set<seq<byte>>,
                      identities: seq<Identity>, identity: Identity)
    requires AddressesOf(ipv4s, ipv6s, identities)
    requires v4 == if identity.policy.clientIpv4.Some? then ipv4s + {identity.policy.clientIpv4.value} else ipv4s
    requires v6 == if identity.policy.clientIpv6.Some? then ipv6s + {identity.policy.clientIpv6.value} else ipv6s
    ensures AddressesOf(v4, v6, identities + [identity])
  {
    var more := identities + [identity];
    assert more[|identities|] == identity;
    assert forall i :: 0 <= i < |identities| ==> more[i] == identities[i];
    forall a | a in v4
      ensures exists i :: 0 <= i < |more| && more[i].policy.clientIpv4 == Some(a)
    {
      if a in ipv4s {
        var i :| 0 <= i < |identities| && identities[i].policy.clientIpv4 == Some(a);
        assert more[i].policy.clientIpv4 == Some(a);
      }
    }
    forall a | a in v6
      ensures exists i :: 0 <= i < |more| && more[i].policy.clientIpv6 == Some(a)
    {
      if a in ipv6s {
        var i :| 0 <= i < |identities| && identities[i].policy.clientIpv6 == Some(a);
        assert more[i].policy.clientIpv6 == Some(a);
      }
    }
  }
}
