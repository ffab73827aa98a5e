/**
  The session coordinator (src/vpn_active_session.rs, `VpnSessionCoordinator`) as a state machine.
  Each method body under the coordinator's lock is one step; the connection closes that follow after
  the lock is dropped are requests that are carried out later, in any order.

  Iteration over a hash map has no fixed order, so the steps that iterate take the order as an argument.
 */
module Coordinator {
  import opened Wrappers
  import opened Bytes
  import opened Registry

  const CLOSE_SESSION_REPLACED := 0x100
  const CLOSE_IDENTITY_REVOKED := 0x101
  const CLOSE_POLICY_CHANGED := 0x102
  const CLOSE_COMMIT_REJECTED := 0x103
  const CLOSE_SERVER_SHUTDOWN := 0x104

  datatype ConnId = ConnId(stableId: nat)

  /** What the control handshake negotiated, possibly against an older registry. */
  datatype Session = Session(identity: Identity, fingerprint: Fingerprint, generation: u64, maxIpPacketLen: u16)

  /** A data path handle and the rate limiter object it was given. */
  datatype Handle = Handle(clientId: string, generation: u64, limiter: nat, active: bool)

  /** A stored rate limiter: which object it is, and the limits it was last given. */
  datatype Limiter = Limiter(id: nat, limits: IdentityLimits)

  datatype ActiveSession = ActiveSession(session: Session, connection: ConnId, handle: nat)

  datatype CloseRequest = CloseRequest(connection: ConnId, code: nat, performed: bool)

  datatype Metrics = Metrics(
    activeSessions: nat, totalCommitted: nat, replacements: nat, commitRejections: nat,
    identityRevocations: nat, policyChangeCloses: nat, normalReleases: nat, shutdownCloses: nat)

  /**
    `handles` lists every data path handle ever created, `limiters` counts the rate limiters created,
    `closes` lists every close that was asked for.
   */
  datatype State = State(
    registry: IdentityRegistry, active: map<string, ActiveSession>, metrics: Metrics, quotas: map<string, Limiter>,
    nextGeneration: u64, handles: seq<Handle>, limiters: nat, closes: seq<CloseRequest>)

  datatype CommitError = SessionIdentityRevoked | SessionPolicyChanged

  datatype CommitReport = CommitReport(generation: u64, replacedGeneration: Option<u64>)

  function Initial(registry: IdentityRegistry, firstGeneration: u64): State {
    State(registry, map[], Metrics(0, 0, 0, 0, 0, 0, 0, 0), map[], firstGeneration, [], 0, [])
  }

  // ----- steps

  /** `fetch_update` on the counter: zero means exhausted and stays so. */
  function Allocate(s: State): (State, Option<u64>) {
    if s.nextGeneration == 0 then (s, None)
    else (s.(nextGeneration := (s.nextGeneration + 1) % 0x1_0000_0000_0000_0000), Some(s.nextGeneration))
  }

  datatype Decision = Keep | PolicyChanged | IdentityRevoked

  function Decide(r: IdentityRegistry, session: Session, clientId: string): Decision
    requires Indexed(r)
  {
    match Authorize(r, session.fingerprint)
    case Ok(identity) =>
      if identity.clientId == clientId && SameSessionPolicy(session.identity, identity) then Keep
      else if identity.clientId == clientId then PolicyChanged
      else IdentityRevoked
    case Err(_) => IdentityRevoked
  }

  /** The registry has an enabled identity of this client with this certificate. */
  ghost predicate Admits(r: IdentityRegistry, f: Fingerprint, c: string) {
    exists i :: 0 <= i < |r.identities| && Holds(r.identities[i], f, c)
  }

  predicate Holds(identity: Identity, f: Fingerprint, c: string) {
    identity.enabled && identity.clientId == c && f in identity.fingerprints
  }

  /** And that identity is the one the session was negotiated for, but for the list of certificates. */
  ghost predicate AdmitsUnchanged(r: IdentityRegistry, session: Session, c: string) {
    exists i :: 0 <= i < |r.identities| && Holds(r.identities[i], session.fingerprint, c)
                && session.identity.(fingerprints := []) == r.identities[i].(fingerprints := [])
  }

  /** The three decisions in terms of the registry's list of identities. */
  lemma DecideExact(r: IdentityRegistry, session: Session, c: string)
    requires Indexed(r)
    ensures Decide(r, session, c) == Keep <==> AdmitsUnchanged(r, session, c)
    ensures Decide(r, session, c) == PolicyChanged <==>
              Admits(r, session.fingerprint, c) && !AdmitsUnchanged(r, session, c)
    ensures Decide(r, session, c) == IdentityRevoked <==> !Admits(r, session.fingerprint, c)
    ensures AdmitsUnchanged(r, session, c) ==> Admits(r, session.fingerprint, c)
  {
    var f := session.fingerprint;
    if f in r.byFingerprint {
      var i := r.byFingerprint[f];
      assert Holds(r.identities[i], f, c) <==> r.identities[i].enabled && r.identities[i].clientId == c;
    }
  }

  function WithFlag(handles: seq<Handle>, h: nat, active: bool): (r: seq<Handle>)
    ensures |r| == |handles|
  {
    if h < |handles| then handles[h := handles[h].(active := active)] else handles
  }

  /** The handles after the new one is created inactive ... */
  function Created(s: State, session: Session, limiter: nat): seq<Handle> {
    s.handles + [Handle(session.identity.clientId, session.generation, limiter, false)]
  }

  /** ... after the replaced one, if any, is deactivated ... */
  function Displaced(s: State, session: Session, limiter: nat): seq<Handle> {
    var c := session.identity.clientId;
    if c in s.active then WithFlag(Created(s, session, limiter), s.active[c].handle, false)
    else Created(s, session, limiter)
  }

  /** ... and after the new one is activated: the order of the writes in a successful commit. */
  function Activated(s: State, session: Session, limiter: nat): seq<Handle> {
    WithFlag(Displaced(s, session, limiter), |s.handles|, true)
  }

  function LimiterFor(s: State, c: string): nat {
    if c in s.quotas then s.quotas[c].id else s.limiters
  }

  /** A successful commit; the client's limiter, old or new, is given the session's limits. */
  function Install(s: State, session: Session, connection: ConnId): State {
    var c, m := session.identity.clientId, s.metrics;
    var active := s.active[c := ActiveSession(session, connection, |s.handles|)];
    s.(quotas := s.quotas[c := Limiter(LimiterFor(s, c), session.identity.limits)],
       limiters := if c in s.quotas then s.limiters else s.limiters + 1,
       handles := Activated(s, session, LimiterFor(s, c)),
       active := active,
       metrics := m.(totalCommitted := SatAdd(m.totalCommitted, 1),
                     replacements := if c in s.active then SatAdd(m.replacements, 1) else m.replacements,
                     activeSessions := |active|),
       closes := if c in s.active
                 then s.closes + [CloseRequest(s.active[c].connection, CLOSE_SESSION_REPLACED, false)]
                 else s.closes)
  }

  function Commit(s: State, session: Session, connection: ConnId): (State, Result<CommitReport, CommitError>)
    requires Indexed(s.registry)
  {
    var c := session.identity.clientId;
    match Decide(s.registry, session, c)
    case Keep =>
      (Install(s, session, connection),
       Ok(CommitReport(session.generation, if c in s.active then Some(s.active[c].session.generation) else None)))
    case PolicyChanged => (Refuse(s, connection), Err(SessionPolicyChanged))
    case IdentityRevoked => (Refuse(s, connection), Err(SessionIdentityRevoked))
  }

  function Refuse(s: State, connection: ConnId): State {
    s.(metrics := s.metrics.(commitRejections := SatAdd(s.metrics.commitRejections, 1)),
       closes := s.closes + [CloseRequest(connection, CLOSE_COMMIT_REJECTED, false)])
  }

  /** Takes a session out and deactivates its data path. */
  function Drop(s: State, c: string): State
    requires c in s.active
  {
    s.(active := s.active - {c}, handles := WithFlag(s.handles, s.active[c].handle, false))
  }

  predicate IsCurrent(s: State, c: string, generation: u64) {
    c in s.active && s.active[c].session.generation == generation
  }

  function Release(s: State, c: string, generation: u64): (State, bool) {
    if !IsCurrent(s, c, generation) then (s, false)
    else
      var m := s.metrics;
      (Drop(s, c).(metrics := m.(normalReleases := SatAdd(m.normalReleases, 1),
                                 activeSessions := |s.active - {c}|)), true)
  }

  function DropAndClose(s: State, c: string, code: nat): State
    requires c in s.active
  {
    Drop(s, c).(closes := s.closes + [CloseRequest(s.active[c].connection, code, false)])
  }

  datatype ReconcileReport = ReconcileReport(kept: nat, identityRevoked: nat, policyChanged: nat)

  /** One round of the reload loop. */
  function ReconcileOne(s: State, c: string): State
    requires Indexed(s.registry) && c in s.active
  {
    var m := s.metrics;
    match Decide(s.registry, s.active[c].session, c)
    case Keep => s
    case IdentityRevoked =>
      DropAndClose(s, c, CLOSE_IDENTITY_REVOKED).(
        metrics := m.(identityRevocations := SatAdd(m.identityRevocations, 1)))
    case PolicyChanged =>
      DropAndClose(s, c, CLOSE_POLICY_CHANGED).(
        metrics := m.(policyChangeCloses := SatAdd(m.policyChangeCloses, 1)))
  }

  function Count(s: State, c: string, report: ReconcileReport): ReconcileReport
    requires Indexed(s.registry) && c in s.active
  {
    match Decide(s.registry, s.active[c].session, c)
    case Keep => report.(kept := report.kept + 1)
    case IdentityRevoked => report.(identityRevoked := report.identityRevoked + 1)
    case PolicyChanged => report.(policyChanged := report.policyChanged + 1)
  }

  /** `order` lists clients of `clients`, each at most once. */
  predicate Lists(order: seq<string>, clients: set<string>) {
    && (forall i :: 0 <= i < |order| ==> order[i] in clients)
    && (forall i, j :: 0 <= i < j < |order| ==> order[i] != order[j])
  }

  predicate ListsAll(order: seq<string>, clients: set<string>) {
    Lists(order, clients) && forall c :: c in clients ==> c in order
  }

  /** The rounds for the clients in `order`; a client that is not active is passed over. */
  function ReconcileAll(s: State, order: seq<string>): (r: State)
    requires Indexed(s.registry)
    ensures r.registry == s.registry
    decreases order
  {
    if order == [] then s
    else ReconcileAll(if order[0] in s.active then ReconcileOne(s, order[0]) else s, order[1..])
  }

  /** The limiters of enabled clients, each given the limits of the new registry. */
  function Requoted(quotas: map<string, Limiter>, registry: IdentityRegistry): map<string, Limiter>
    requires Indexed(registry)
  {
    map c | c in quotas && EnabledClient(registry, c) ::
      Limiter(quotas[c].id, ByClientId(registry, c).value.limits)
  }

  function Reload(s: State, registry: IdentityRegistry, order: seq<string>): State
    requires Indexed(registry)
  {
    var r := ReconcileAll(s.(registry := registry), order);
    r.(metrics := r.metrics.(activeSessions := |r.active|),
       quotas := Requoted(s.quotas, registry))
  }

  function CloseEach(s: State, order: seq<string>): State
    decreases order
  {
    if order == [] then s
    else CloseEach(if order[0] in s.active then DropAndClose(s, order[0], CLOSE_SERVER_SHUTDOWN) else s, order[1..])
  }

  function CloseAll(s: State, order: seq<string>): State {
    var m := s.metrics;
    CloseEach(s, order).(
      quotas := map[],
      metrics := m.(shutdownCloses := SatAdd(m.shutdownCloses, |s.active|), activeSessions := 0))
  }

  function Perform(s: State, k: nat): State
    requires k < |s.closes|
  {
    s.(closes := s.closes[k := s.closes[k].(performed := true)])
  }

  datatype Op =
    | OpAllocate
    | OpCommit(session: Session, connection: ConnId)
    | OpRelease(clientId: string, generation: u64)
    | OpReload(registry: IdentityRegistry, order: seq<string>)
    | OpCloseAll(order: seq<string>)
    | OpPerform(request: nat)

  ghost predicate LegalOp(s: State, op: Op) {
    match op
    case OpReload(registry, order) => Indexed(registry) && ListsAll(order, s.active.Keys)
    case OpCloseAll(order) => ListsAll(order, s.active.Keys)
    case OpPerform(k) => k < |s.closes| && !s.closes[k].performed
    case _ => true
  }

  ghost function Step(s: State, op: Op): State
    requires Indexed(s.registry) && LegalOp(s, op)
  {
    match op
    case OpAllocate => Allocate(s).0
    case OpCommit(session, connection) => Commit(s, session, connection).0
    case OpRelease(clientId, generation) => Release(s, clientId, generation).0
    case OpReload(registry, order) => Reload(s, registry, order)
    case OpCloseAll(order) => CloseAll(s, order)
    case OpPerform(k) => Perform(s, k)
  }

  // ----- the loops in closed form

  /** After the rounds for `order`, exactly the clients in it that are no longer authorized are gone. */
  lemma {:induction false} ReconcileAllExact(s: State, order: seq<string>)
    requires Indexed(s.registry)
    ensures var r := ReconcileAll(s, order);
            && (forall c :: c in r.active <==>
                  c in s.active && (c in order ==> Decide(s.registry, s.active[c].session, c) == Keep))
            && (forall c :: c in r.active ==> r.active[c] == s.active[c])
            && r.quotas == s.quotas && r.limiters == s.limiters && r.nextGeneration == s.nextGeneration
            && |r.handles| == |s.handles|
            && (forall h :: 0 <= h < |s.handles| ==> r.handles[h].limiter == s.handles[h].limiter)
    decreases order
  {
    hide Indexed, Decide, ReconcileOne;
    if order != [] {
      var next := if order[0] in s.active then ReconcileOne(s, order[0]) else s;
      if order[0] in s.active {
        ReconcileOneExact(s, order[0]);
      }
      ReconcileAllExact(next, order[1..]);
      assert order == [order[0]] + order[1..];
    }
  }

  lemma ReconcileOneExact(s: State, c: string)
    requires Indexed(s.registry) && c in s.active
    ensures var r := ReconcileOne(s, c);
            && r.active == (if Decide(s.registry, s.active[c].session, c) == Keep then s.active else s.active - {c})
            && r.registry == s.registry
            && r.quotas == s.quotas && r.limiters == s.limiters && r.nextGeneration == s.nextGeneration
            && |r.handles| == |s.handles|
            && (forall h :: 0 <= h < |s.handles| ==> r.handles[h].limiter == s.handles[h].limiter)
  {
    hide Indexed, Decide;
  }

  lemma {:induction false} CloseEachExact(s: State, order: seq<string>)
    requires Lists(order, s.active.Keys)
    ensures var r := CloseEach(s, order);
            && (forall c :: c in r.active <==> c in s.active && c !in order)
            && (forall c :: c in r.active ==> r.active[c] == s.active[c])
            && r.registry == s.registry && r.nextGeneration == s.nextGeneration && r.limiters == s.limiters
            && |r.handles| == |s.handles|
    decreases order
  {
    if order != [] {
      var next := DropAndClose(s, order[0], CLOSE_SERVER_SHUTDOWN);
      forall i | 0 <= i < |order[1..]|
        ensures order[1..][i] in next.active
      {
        assert order[1..][i] == order[i + 1] && order[0] != order[i + 1];
      }
      CloseEachExact(next, order[1..]);
      assert order == [order[0]] + order[1..];
    }
  }
}
