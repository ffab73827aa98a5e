/**
  The managed control handshake (src/vpn_active_session.rs, `vpn_server_managed_control_handshake`) as a layer
  over the session coordinator. Any number of handshakes are under way at once. Each allocates a generation,
  takes a snapshot of the registry, negotiates against the snapshot and commits what it negotiated; reloads,
  releases, shutdowns and the steps of other handshakes may fall between any two of its steps.
 */
module ManagedHandshake {
  import opened Wrappers
  import opened Bytes
  import opened IpPacket
  import opened Registry
  import opened Coordinator
  import opened CoordinatorInvariants
  import Runs = CoordinatorRuns
  import Closes = CoordinatorCloses
  import Control = ControlCodec
  import Neg = Negotiation

  datatype HandshakeId = HandshakeId(number: nat)

  datatype Handshake =
    | Allocated(generation: u64, connection: ConnId)
    | Negotiating(generation: u64, connection: ConnId, snapshot: IdentityRegistry)

  /** `used` holds the connection of every handshake that was ever begun. */
  datatype World = World(coordinator: State, pending: map<HandshakeId, Handshake>, used: set<ConnId>)

  function Start(registry: IdentityRegistry, firstGeneration: u64): World {
    World(Initial(registry, firstGeneration), map[], {})
  }

  datatype Step =
    | Begin(id: HandshakeId, connection: ConnId)
    | Snapshot(id: HandshakeId)
    | Conclude(id: HandshakeId, fingerprint: Fingerprint, hello: Control.Hello, config: Neg.Config)
    | Abandon(id: HandshakeId)
    | Elsewhere(op: Op)

  ghost predicate Legal(w: World, step: Step) {
    match step
    case Begin(id, connection) => id !in w.pending && connection !in w.used
    case Snapshot(id) => id in w.pending && w.pending[id].Allocated?
    case Conclude(id, _, _, config) => id in w.pending && w.pending[id].Negotiating? && Neg.ConfigValid(config)
    case Abandon(id) => id in w.pending
    case Elsewhere(op) =>
      && !op.OpCommit? && !op.OpAllocate? && LegalOp(w.coordinator, op)
      && (op.OpReload? ==> Neg.Proper(op.registry))
  }

  /** The coordinator's view of what was negotiated. */
  function SessionOf(n: Neg.Negotiated): Session {
    Session(n.identity, n.fingerprint, n.accept.sessionGeneration, n.accept.maxIpPacketLen)
  }

  function Outcome(h: Handshake, fingerprint: Fingerprint, hello: Control.Hello, config: Neg.Config)
    : Result<Neg.Negotiated, Control.RejectReason>
    requires h.Negotiating? && Indexed(h.snapshot)
  {
    Neg.Negotiate(h.snapshot, fingerprint, hello, config, h.generation)
  }

  /** What the coordinator is asked to do in a step; at most one operation. */
  ghost function OpsOf(w: World, step: Step): seq<Op>
    requires Sound(w) && Legal(w, step)
  {
    match step
    case Begin(_, _) => [OpAllocate]
    case Conclude(id, fingerprint, hello, config) =>
      var n := Outcome(w.pending[id], fingerprint, hello, config);
      if n.Ok? then [OpCommit(SessionOf(n.value), w.pending[id].connection)] else []
    case Elsewhere(op) => [op]
    case _ => []
  }

  ghost function PendingAfter(w: World, step: Step): map<HandshakeId, Handshake>
    requires Legal(w, step)
  {
    match step
    case Begin(id, connection) =>
      var generation := Allocate(w.coordinator).1;
      if generation.Some? then w.pending[id := Allocated(generation.value, connection)] else w.pending
    case Snapshot(id) =>
      w.pending[id := Negotiating(w.pending[id].generation, w.pending[id].connection, w.coordinator.registry)]
    case Conclude(id, _, _, _) => w.pending - {id}
    case Abandon(id) => w.pending - {id}
    case Elsewhere(_) => w.pending
  }

  ghost function Next(w: World, step: Step): World
    requires Sound(w) && Legal(w, step)
  {
    OpsAreLegal(w, step);
    World(Runs.Run(w.coordinator, OpsOf(w, step)), PendingAfter(w, step),
          if step.Begin? then w.used + {step.connection} else w.used)
  }

  // ----- what every step keeps

  /** The generation was handed out before the counter reached `next`; zero marks the exhausted counter. */
  predicate HandedOut(generation: u64, next: u64) {
    generation != 0 && (next == 0 || generation < next)
  }

  ghost predicate Sound(w: World) {
    && Invariant(w.coordinator) && Neg.Proper(w.coordinator.registry)
    && PendingSound(w.pending, w.coordinator.nextGeneration, w.used)
  }

  /** Pending handshakes have generations and connections of their own, and snapshots that were once in force. */
  ghost predicate PendingSound(pending: map<HandshakeId, Handshake>, next: u64, used: set<ConnId>) {
    && (forall id :: id in pending ==>
          && HandedOut(pending[id].generation, next) && pending[id].connection in used
          && (pending[id].Negotiating? ==> Neg.Proper(pending[id].snapshot) && Indexed(pending[id].snapshot)))
    && (forall a, b :: a in pending && b in pending && a != b ==>
          pending[a].generation != pending[b].generation && pending[a].connection != pending[b].connection)
  }

  lemma OpsAreLegal(w: World, step: Step)
    requires Sound(w) && Legal(w, step)
    ensures Runs.LegalRun(w.coordinator, OpsOf(w, step))
  {
    hide Invariant, Neg.Proper, Indexed, Neg.Negotiate, Coordinator.Step;
    var ops := OpsOf(w, step);
    InvariantIndexed(w.coordinator);
    if ops != [] {
      assert ops[1..] == [];
      StepKeepsInvariant(w.coordinator, ops[0]);
    }
  }

  /** The coordinator after one operation. */
  lemma RunOne(s: State, op: Op)
    requires Invariant(s) && Runs.LegalRun(s, [op])
    ensures LegalOp(s, op) && Indexed(s.registry) && Runs.Run(s, [op]) == Coordinator.Step(s, op)
  {
    hide Invariant, Indexed, Coordinator.Step;
    InvariantIndexed(s);
    StepKeepsInvariant(s, op);
    assert [op][1..] == [];
  }

  lemma RunNone(s: State)
    requires Invariant(s)
    ensures Runs.LegalRun(s, []) && Runs.Run(s, []) == s
  {
  }

  /** The registry in force after a step is the one before it or the one just loaded. */
  lemma RegistryAfter(s: State, op: Op)
    requires Indexed(s.registry) && LegalOp(s, op)
    ensures Coordinator.Step(s, op).registry == if op.OpReload? then op.registry else s.registry
  {
    hide Indexed, Decide, Activated;
    if op.OpCloseAll? {
      CloseEachExact(s, op.order);
    }
  }

  lemma CoordinatorAfter(w: World, step: Step)
    requires Sound(w) && Legal(w, step)
    ensures var s, t := w.coordinator, Next(w, step).coordinator;
            && Invariant(t) && Neg.Proper(t.registry)
            && t.nextGeneration == if step.Begin? then Allocate(s).0.nextGeneration else s.nextGeneration
  {
    hide Invariant, Neg.Proper, Indexed, Coordinator.Step, PendingSound, Neg.Negotiate, Allocate;
    OpsAreLegal(w, step);
    var ops := OpsOf(w, step);
    if ops == [] {
      RunNone(w.coordinator);
    } else {
      assert ops == [ops[0]];
      RunOne(w.coordinator, ops[0]);
      RegistryAfter(w.coordinator, ops[0]);
      Runs.GenerationAfterStep(w.coordinator, ops[0]);
    }
  }

  lemma AllocateExact(s: State)
    ensures Allocate(s).1.Some? ==>
              && HandedOut(Allocate(s).1.value, Allocate(s).0.nextGeneration)
              && !HandedOut(Allocate(s).1.value, s.nextGeneration)
    ensures forall g: u64 :: HandedOut(g, s.nextGeneration) ==> HandedOut(g, Allocate(s).0.nextGeneration)
  {
  }

  lemma NextKeepsSound(w: World, step: Step)
    requires Sound(w) && Legal(w, step)
    ensures Sound(Next(w, step))
  {
    hide Invariant, Neg.Proper, Indexed, Coordinator.Step, Runs.Run, Runs.LegalRun, OpsOf, Allocate, PendingSound;
    var s, next := w.coordinator, Next(w, step);
    CoordinatorAfter(w, step);
    AllocateExact(s);
    InvariantIndexed(s);
    match step
    case Begin(id, connection) =>
      PendingLater(w.pending, s.nextGeneration, next.coordinator.nextGeneration, w.used, next.used);
      if Allocate(s).1.Some? {
        FreshGeneration(w.pending, s.nextGeneration, Allocate(s).1.value, w.used);
        PendingAdds(w.pending, next.coordinator.nextGeneration, next.used, id, Allocate(s).1.value, connection);
      }
    case Snapshot(id) => PendingSnapshots(w.pending, s.nextGeneration, w.used, id, s.registry);
    case Conclude(id, _, _, _) => PendingDrops(w.pending, s.nextGeneration, w.used, id);
    case Abandon(id) => PendingDrops(w.pending, s.nextGeneration, w.used, id);
    case Elsewhere(_) =>
  }

  lemma PendingLater(pending: map<HandshakeId, Handshake>, next: u64, later: u64, used: set<ConnId>, more: set<ConnId>)
    requires PendingSound(pending, next, used) && used <= more
    requires forall g: u64 :: HandedOut(g, next) ==> HandedOut(g, later)
    ensures PendingSound(pending, later, more)
  {
    hide Neg.Proper, Indexed, HandedOut;
  }

  /** No pending handshake has a generation that was not handed out, or a connection that was not used. */
  lemma FreshGeneration(pending: map<HandshakeId, Handshake>, next: u64, generation: u64, used: set<ConnId>)
    requires PendingSound(pending, next, used) && !HandedOut(generation, next)
    ensures forall id :: id in pending ==> pending[id].generation != generation && pending[id].connection in used
  {
    hide Neg.Proper, Indexed;
  }

  lemma PendingAdds(pending: map<HandshakeId, Handshake>, next: u64, used: set<ConnId>,
                    id: HandshakeId, generation: u64, connection: ConnId)
    requires PendingSound(pending, next, used) && HandedOut(generation, next) && connection in used
    requires forall other :: other in pending ==>
               pending[other].generation != generation && pending[other].connection != connection
    ensures PendingSound(pending[id := Allocated(generation, connection)], next, used)
  {
    hide Neg.Proper, Indexed, HandedOut;
  }

  lemma PendingSnapshots(pending: map<HandshakeId, Handshake>, next: u64, used: set<ConnId>,
                         id: HandshakeId, registry: IdentityRegistry)
    requires PendingSound(pending, next, used) && id in pending && Neg.Proper(registry) && Indexed(registry)
    ensures var snapshot := Negotiating(pending[id].generation, pending[id].connection, registry);
            PendingSound(pending[id := snapshot], next, used)
  {
    hide Neg.Proper, Indexed, HandedOut;
  }

  lemma PendingDrops(pending: map<HandshakeId, Handshake>, next: u64, used: set<ConnId>, id: HandshakeId)
    requires PendingSound(pending, next, used)
    ensures PendingSound(pending - {id}, next, used)
  {
    hide Neg.Proper, Indexed, HandedOut;
  }

  // ----- runs

  ghost predicate LegalRun(w: World, steps: seq<Step>)
    requires Sound(w)
    decreases steps
  {
    steps == [] || (Legal(w, steps[0]) && (NextKeepsSound(w, steps[0]); LegalRun(Next(w, steps[0]), steps[1..])))
  }

  ghost function Run(w: World, steps: seq<Step>): (r: World)
    requires Sound(w) && LegalRun(w, steps)
    ensures Sound(r)
    decreases steps
  {
    if steps == [] then w
    else
      NextKeepsSound(w, steps[0]);
      Run(Next(w, steps[0]), steps[1..])
  }

  /** All that the handshakes and the rest of a run ask of the coordinator, in order. */
  ghost function AllOps(w: World, steps: seq<Step>): seq<Op>
    requires Sound(w) && LegalRun(w, steps)
    decreases steps
  {
    if steps == [] then []
    else
      NextKeepsSound(w, steps[0]);
      OpsOf(w, steps[0]) + AllOps(Next(w, steps[0]), steps[1..])
  }

  /** A run of handshakes is a run of the coordinator, so all that holds of its runs holds here. */
  lemma {:induction false} RunsTheCoordinator(w: World, steps: seq<Step>)
    requires Sound(w) && LegalRun(w, steps)
    ensures Runs.LegalRun(w.coordinator, AllOps(w, steps))
    ensures Runs.Run(w.coordinator, AllOps(w, steps)) == Run(w, steps).coordinator
    decreases steps
  {
    hide Sound, Legal, OpsOf, Invariant;
    SoundMeansInvariant(w);
    if steps == [] {
      RunNone(w.coordinator);
    } else {
      NextKeepsSound(w, steps[0]);
      var next := Next(w, steps[0]);
      RunsTheCoordinator(next, steps[1..]);
      OpsAreLegal(w, steps[0]);
      SoundMeansInvariant(next);
      RunConcat(w.coordinator, OpsOf(w, steps[0]), AllOps(next, steps[1..]));
    }
  }

  lemma SoundMeansInvariant(w: World)
    requires Sound(w)
    ensures Invariant(w.coordinator) && Indexed(w.coordinator.registry)
  {
  }

  lemma {:induction false} RunConcat(s: State, a: seq<Op>, b: seq<Op>)
    requires Invariant(s) && Runs.LegalRun(s, a) && Runs.LegalRun(Runs.Run(s, a), b)
    ensures Runs.LegalRun(s, a + b) && Runs.Run(s, a + b) == Runs.Run(Runs.Run(s, a), b)
    decreases a
  {
    hide Invariant, Coordinator.Step, LegalOp;
    if a == [] {
      assert a + b == b;
    } else {
      InvariantIndexed(s);
      StepKeepsInvariant(s, a[0]);
      RunConcat(Coordinator.Step(s, a[0]), a[1..], b);
      assert (a + b)[0] == a[0] && (a + b)[1..] == a[1..] + b;
    }
  }

  // ----- each generation is committed at most once

  ghost predicate IsPending(w: World, generation: u64) {
    exists id :: id in w.pending && w.pending[id].generation == generation
  }

  /** A generation that a run may still commit: one that is pending, or one not handed out yet. */
  ghost predicate MayCommit(w: World, generation: u64) {
    IsPending(w, generation) || !HandedOut(generation, w.coordinator.nextGeneration)
  }

  /** No step makes a generation committable that was not. */
  lemma MayCommitShrinks(w: World, step: Step, generation: u64)
    requires Sound(w) && Legal(w, step)
    ensures MayCommit(Next(w, step), generation) ==> MayCommit(w, generation)
  {
    hide Invariant, Indexed, Coordinator.Step, Runs.Run, Runs.LegalRun, Allocate, Neg.Proper, Outcome, OpsOf;
    CoordinatorAfter(w, step);
    AllocateExact(w.coordinator);
    var next := Next(w, step);
    if IsPending(next, generation) {
      var id :| id in next.pending && next.pending[id].generation == generation;
      assert !step.Begin? || id != step.id ==> id in w.pending && w.pending[id].generation == generation;
    }
  }

  /** The commit that a step makes, if any, is of a pending generation, which is then committable no longer. */
  lemma CommitsPending(w: World, step: Step, generation: u64)
    requires Sound(w) && Legal(w, step)
    ensures (exists op :: op in OpsOf(w, step) && Runs.Commits(op, generation)) ==>
              && IsPending(w, generation) && !MayCommit(Next(w, step), generation)
  {
    hide Invariant, Indexed, Coordinator.Step, Runs.Run, Runs.LegalRun, Allocate, Neg.Proper, Outcome;
    if step.Conclude? {
      CoordinatorAfter(w, step);
      OutcomeExact(w.pending[step.id], step.fingerprint, step.hello, step.config);
    }
  }

  /** An accepted outcome carries the handshake's generation and sizes that a data path takes. */
  lemma OutcomeExact(h: Handshake, fingerprint: Fingerprint, hello: Control.Hello, config: Neg.Config)
    requires h.Negotiating? && Indexed(h.snapshot) && Neg.Proper(h.snapshot)
    requires Neg.ConfigValid(config) && h.generation != 0
    ensures var n := Outcome(h, fingerprint, hello, config);
            n.Ok? ==>
              && SessionOf(n.value).generation == h.generation
              && SessionOf(n.value).fingerprint == fingerprint
              && Authorize(h.snapshot, fingerprint) == Ok(SessionOf(n.value).identity)
              && SessionOf(n.value).maxIpPacketLen <= hello.maxIpPacketLen
              && SessionOf(n.value).maxIpPacketLen <= config.maxIpPacketLen
              && SessionOf(n.value).maxIpPacketLen in {hello.maxIpPacketLen, config.maxIpPacketLen}
              && DataPathTakes(SessionOf(n.value))
  {
    hide Neg.Negotiate, Neg.ConfigValid, Neg.CommonVersion;
    var n := Outcome(h, fingerprint, hello, config);
    Neg.NegotiationExact(h.snapshot, fingerprint, hello, config, h.generation);
    if n.Ok? {
      Neg.AcceptedIsValid(hello, n.value.accept);
      Neg.AuthorizedAddresses(h.snapshot, fingerprint);
    }
  }

  /** The sizes for which creating a data path does not fail. */
  predicate DataPathTakes(session: Session) {
    && MIN_IP_PACKET_LEN <= session.maxIpPacketLen <= MAX_IP_PACKET_LEN
    && session.identity.limits.maxReassemblyBytes >= MAX_IP_PACKET_LEN
  }

  /**
    Managed handshakes, however they interleave, commit every generation at most once, and only generations
    that were pending at the start of the run or are handed out in it.
   */
  lemma {:induction false} HandshakesCommitOnce(w: World, steps: seq<Step>)
    requires Sound(w) && LegalRun(w, steps)
    ensures Runs.CommittedOnce(AllOps(w, steps))
    ensures forall op, g :: op in AllOps(w, steps) && Runs.Commits(op, g) ==> MayCommit(w, g)
    decreases steps
  {
    hide Sound, Legal, OpsOf, Next, MayCommit, IsPending;
    if steps != [] {
      NextKeepsSound(w, steps[0]);
      var next := Next(w, steps[0]);
      var here, rest := OpsOf(w, steps[0]), AllOps(next, steps[1..]);
      HandshakesCommitOnce(next, steps[1..]);
      AtMostOneOp(w, steps[0]);
      forall g: u64
        ensures (exists op :: op in here && Runs.Commits(op, g)) ==> MayCommit(w, g) && !MayCommit(next, g)
        ensures MayCommit(next, g) ==> MayCommit(w, g)
      {
        CommitsPending(w, steps[0], g);
        MayCommitShrinks(w, steps[0], g);
        PendingMayCommit(w, g);
      }
      assert AllOps(w, steps) == here + rest;
      DistinctConcat(here, rest);
    }
  }

  lemma PendingMayCommit(w: World, generation: u64)
    ensures IsPending(w, generation) ==> MayCommit(w, generation)
  {
  }

  lemma AtMostOneOp(w: World, step: Step)
    requires Sound(w) && Legal(w, step)
    ensures |OpsOf(w, step)| <= 1
  {
  }

  lemma DistinctConcat(here: seq<Op>, rest: seq<Op>)
    requires |here| <= 1 && Runs.CommittedOnce(rest)
    requires forall op, g :: op in rest && Runs.Commits(op, g) ==>
               !(exists first :: first in here && Runs.Commits(first, g))
    ensures Runs.CommittedOnce(here + rest)
  {
    var all := here + rest;
    forall i, j | 0 <= i < j < |all| && all[i].OpCommit? && all[j].OpCommit?
      ensures all[i].session.generation != all[j].session.generation
    {
      if i < |here| {
        assert all[i] in here && all[j] == rest[j - |here|];
        assert Runs.Commits(all[i], all[i].session.generation);
        assert Runs.Commits(all[j], all[j].session.generation);
      } else {
        assert all[i] == rest[i - |here|] && all[j] == rest[j - |here|];
      }
    }
  }

  lemma StartIsSound(registry: IdentityRegistry, firstGeneration: u64)
    requires Neg.Proper(registry)
    ensures Sound(Start(registry, firstGeneration))
  {
    Neg.ProperIsIndexed(registry);
    hide Neg.Proper, Indexed, Invariant;
    InitialInvariant(registry, firstGeneration);
  }

  /**
    A server on which sessions come from managed handshakes only: a displaced generation never becomes current
    again, and a release that names it changes nothing, with no assumption about the commits.
   */
  lemma DisplacedNeverReturns(w: World, made: seq<Step>, lost: seq<Step>, later: seq<Step>, c: string, generation: u64)
    requires Sound(w) && LegalRun(w, made) && LegalRun(Run(w, made), lost)
    requires LegalRun(Run(Run(w, made), lost), later)
    requires !IsCurrent(w.coordinator, c, generation) && IsCurrent(Run(w, made).coordinator, c, generation)
    requires !IsCurrent(Run(Run(w, made), lost).coordinator, c, generation)
    ensures var end := Run(Run(Run(w, made), lost), later).coordinator;
            !IsCurrent(end, c, generation) && Release(end, c, generation) == (end, false)
  {
    hide Sound, Run, LegalRun, AllOps, IsCurrent, Release, Invariant, Runs.Run, Runs.LegalRun, Runs.CommittedOnce;
    var v, u := Run(w, made), Run(Run(w, made), lost);
    StepsConcat(w, made, lost);
    StepsConcat(w, made + lost, later);
    HandshakesCommitOnce(w, made + lost + later);
    SoundMeansInvariant(w);
    RunsTheCoordinator(w, made);
    RunsTheCoordinator(v, lost);
    RunsTheCoordinator(u, later);
    Runs.DisplacedNeverReturns(w.coordinator, AllOps(w, made), AllOps(v, lost), AllOps(u, later), c, generation);
  }

  lemma {:induction false} StepsConcat(w: World, a: seq<Step>, b: seq<Step>)
    requires Sound(w) && LegalRun(w, a) && LegalRun(Run(w, a), b)
    ensures LegalRun(w, a + b) && Run(w, a + b) == Run(Run(w, a), b)
    ensures AllOps(w, a + b) == AllOps(w, a) + AllOps(Run(w, a), b)
    decreases a
  {
    hide Sound, Legal, Next, OpsOf;
    if a == [] {
      assert a + b == b;
    } else {
      NextKeepsSound(w, a[0]);
      StepsConcat(Next(w, a[0]), a[1..], b);
      assert (a + b)[0] == a[0] && (a + b)[1..] == a[1..] + b;
    }
  }

  // ----- each connection is committed and closed at most once

  ghost function Connections(pending: map<HandshakeId, Handshake>): set<ConnId> {
    set id | id in pending :: pending[id].connection
  }

  /** The connections whose handshakes are over. */
  ghost function Settled(w: World): set<ConnId> {
    w.used - Connections(w.pending)
  }

  lemma StepSettles(w: World, step: Step)
    requires Sound(w) && Legal(w, step)
    ensures Settled(w) <= Settled(Next(w, step))
    ensures forall op :: op in OpsOf(w, step) && op.OpCommit? ==>
              op.connection !in Settled(w) && op.connection in Settled(Next(w, step))
  {
    hide Invariant, Indexed, Neg.Proper, Coordinator.Step, Runs.Run, Runs.LegalRun, Allocate, Outcome;
    var next := Next(w, step);
    forall id | id in next.pending
      ensures next.pending[id].connection in Connections(w.pending) || next.pending[id].connection !in w.used
    {
      if id in w.pending {
        assert w.pending[id].connection in Connections(w.pending);
      }
    }
    if step.Conclude? {
      var h := w.pending[step.id];
      assert h.connection in Connections(w.pending);
      assert h.connection !in Connections(next.pending);
    }
  }

  lemma {:induction false} FreshForFewer(fewer: set<ConnId>, more: set<ConnId>, ops: seq<Op>)
    requires fewer <= more && Closes.FreshConnections(more, ops)
    ensures Closes.FreshConnections(fewer, ops)
    decreases ops
  {
    if ops != [] {
      FreshForFewer(fewer + Closes.Brings(ops[0]), more + Closes.Brings(ops[0]), ops[1..]);
    }
  }

  /** Handshakes never bring a connection twice. */
  lemma {:induction false} HandshakesBringNewConnections(w: World, steps: seq<Step>)
    requires Sound(w) && LegalRun(w, steps)
    ensures Closes.FreshConnections(Settled(w), AllOps(w, steps))
    decreases steps
  {
    hide Sound, Legal, OpsOf, Next, Settled;
    if steps != [] {
      NextKeepsSound(w, steps[0]);
      var next := Next(w, steps[0]);
      var here, rest := OpsOf(w, steps[0]), AllOps(next, steps[1..]);
      HandshakesBringNewConnections(next, steps[1..]);
      StepSettles(w, steps[0]);
      AtMostOneOp(w, steps[0]);
      if here == [] {
        assert here + rest == rest;
        FreshForFewer(Settled(w), Settled(next), rest);
      } else {
        assert here[0] in here && (here + rest)[0] == here[0] && (here + rest)[1..] == rest;
        FreshForFewer(Settled(w) + Closes.Brings(here[0]), Settled(next), rest);
      }
    }
  }

  /** So where each connection has one handshake, no connection is closed twice or while it is current. */
  lemma ClosesOnce(registry: IdentityRegistry, firstGeneration: u64, steps: seq<Step>)
    requires Sound(Start(registry, firstGeneration)) && LegalRun(Start(registry, firstGeneration), steps)
    ensures exists used :: Closes.ClosedOnce(Run(Start(registry, firstGeneration), steps).coordinator, used)
  {
    hide Sound, Run, LegalRun, AllOps, Invariant, Runs.Run, Runs.LegalRun, Closes.FreshConnections;
    var w := Start(registry, firstGeneration);
    SoundMeansInvariant(w);
    RunsTheCoordinator(w, steps);
    HandshakesBringNewConnections(w, steps);
    assert Settled(w) == {};
    assert Closes.ClosedOnce(w.coordinator, {});
    Closes.RunClosesOnce(w.coordinator, AllOps(w, steps), {});
  }

  // ----- what is committed fits a data path

  /** Every session that a handshake commits has sizes that a data path takes: creating it cannot fail. */
  lemma CommitsFitDataPaths(w: World, steps: seq<Step>)
    requires Sound(w) && LegalRun(w, steps)
    ensures forall op :: op in AllOps(w, steps) && op.OpCommit? ==>
              && 1280 <= op.session.maxIpPacketLen <= 65_535
              && 65_535 <= op.session.identity.limits.maxReassemblyBytes
  {
    hide Sound, LegalRun, AllOps;
    CommitsAreTaken(w, steps);
  }

  lemma {:induction false} CommitsAreTaken(w: World, steps: seq<Step>)
    requires Sound(w) && LegalRun(w, steps)
    ensures forall op :: op in AllOps(w, steps) && op.OpCommit? ==> DataPathTakes(op.session)
    decreases steps
  {
    hide Sound, Legal, OpsOf, Next, DataPathTakes;
    if steps != [] {
      NextKeepsSound(w, steps[0]);
      CommitsAreTaken(Next(w, steps[0]), steps[1..]);
      StepFitsDataPath(w, steps[0]);
    }
  }

  lemma StepFitsDataPath(w: World, step: Step)
    requires Sound(w) && Legal(w, step)
    ensures forall op :: op in OpsOf(w, step) && op.OpCommit? ==> DataPathTakes(op.session)
  {
    hide Invariant, Indexed, Neg.Proper, DataPathTakes, Outcome;
    if step.Conclude? {
      OutcomeExact(w.pending[step.id], step.fingerprint, step.hello, step.config);
    }
  }
}
