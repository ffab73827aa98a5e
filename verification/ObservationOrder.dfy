/** The order of the lines in a log does not matter, except among one role's metrics snapshots. */
module ObservationOrder {
  import opened Wrappers
  import opened Observation

  function Add(a: Counters, b: Counters): Counters {
    Counters(
      a.runtimeStarted + b.runtimeStarted, a.startupFailed + b.startupFailed, a.runtimeFailed + b.runtimeFailed,
      a.credentialReloads + b.credentialReloads, a.credentialReloadFailures + b.credentialReloadFailures,
      a.connectionFailures + b.connectionFailures, a.streamFailures + b.streamFailures,
      a.timeoutEvents + b.timeoutEvents, a.upstreamErrorEvents + b.upstreamErrorEvents,
      a.connectionsStarted + b.connectionsStarted, a.connectionsFinished + b.connectionsFinished,
      a.streamsStarted + b.streamsStarted, a.streamsFinished + b.streamsFinished,
      a.connectionRejects + b.connectionRejects, a.streamRejects + b.streamRejects, a.pathChanges + b.pathChanges,
      a.metricsSnapshots + b.metricsSnapshots, a.shutdownStarted + b.shutdownStarted,
      a.shutdownForced + b.shutdownForced, a.shutdownComplete + b.shutdownComplete,
      a.forcedShutdownCompletions + b.forcedShutdownCompletions, a.taskFailures + b.taskFailures,
      a.pathEventLagReports + b.pathEventLagReports, a.unknownEvents + b.unknownEvents)
  }

  lemma BumpAdds(c: Counters, e: RoleEvent)
    ensures Bump(c, e) == Add(c, Bump(ZERO, e))
  {
    hide One, IsTimeoutReason, IsUpstreamErrorReason, IsCleanEnd;
  }

  lemma AddCommutes(c: Counters, a: Counters, b: Counters)
    ensures Add(Add(c, a), b) == Add(Add(c, b), a)
  {
  }

  lemma BumpsCommute(c: Counters, x: RoleEvent, y: RoleEvent)
    ensures Bump(Bump(c, x), y) == Bump(Bump(c, y), x)
  {
    BumpAdds(c, x);
    BumpAdds(c, y);
    BumpAdds(Bump(c, x), y);
    BumpAdds(Bump(c, y), x);
    AddCommutes(c, Bump(ZERO, x), Bump(ZERO, y));
    hide Bump, Add;
  }

  lemma AdjustsCommute(m: Balance, i: ConnectionId, a: int, j: ConnectionId, b: int)
    ensures Adjust(Adjust(m, i, a), j, b) == Adjust(Adjust(m, j, b), i, a)
  {
    var l, r := Adjust(Adjust(m, i, a), j, b), Adjust(Adjust(m, j, b), i, a);
    assert forall k :: k in l <==> k in r;
    assert forall k :: k in l ==> l[k] == r[k];
  }

  predicate BothSnapshots(x: RoleEvent, y: RoleEvent) {
    x.MetricsSnapshot? && y.MetricsSnapshot?
  }

  /** How an event moves the two balances. */
  function Moves(e: RoleEvent, ofStreams: bool): Option<(ConnectionId, int)> {
    match e
    case ConnectionStarted(id) => if ofStreams then None else Some((id, 1))
    case ConnectionFinished(id, _) => if ofStreams then None else Some((id, -1))
    case StreamStarted(id) => if ofStreams then Some((id, 1)) else None
    case StreamFinished(id, _) => if ofStreams then Some((id, -1)) else None
    case _ => None
  }

  function Moved(m: Balance, move: Option<(ConnectionId, int)>): Balance {
    if move.Some? then Adjust(m, move.value.0, move.value.1) else m
  }

  lemma IngestRoleParts(r: RoleObservation, e: RoleEvent)
    ensures IngestRole(r, e) == RoleObservation(
              Bump(r.counters, e), if e.MetricsSnapshot? then Some(e.metrics) else r.latestMetrics,
              Moved(r.connectionBalance, Moves(e, false)), Moved(r.streamBalance, Moves(e, true)))
  {
  }

  lemma MovesCommute(m: Balance, x: Option<(ConnectionId, int)>, y: Option<(ConnectionId, int)>)
    ensures Moved(Moved(m, x), y) == Moved(Moved(m, y), x)
  {
    if x.Some? && y.Some? {
      AdjustsCommute(m, x.value.0, x.value.1, y.value.0, y.value.1);
    }
  }

  lemma RoleEventsCommute(r: RoleObservation, x: RoleEvent, y: RoleEvent)
    requires !BothSnapshots(x, y)
    ensures IngestRole(IngestRole(r, x), y) == IngestRole(IngestRole(r, y), x)
  {
    hide Bump, Adjust, IngestRole, Moves, Moved;
    IngestRoleParts(r, x);
    IngestRoleParts(r, y);
    IngestRoleParts(IngestRole(r, x), y);
    IngestRoleParts(IngestRole(r, y), x);
    BumpsCommute(r.counters, x, y);
    MovesCommute(r.connectionBalance, Moves(x, false), Moves(y, false));
    MovesCommute(r.streamBalance, Moves(x, true), Moves(y, true));
  }

  predicate SnapshotOf(line: Line, role: Role) {
    line.Event? && line.role == role && line.event.MetricsSnapshot?
  }

  lemma LinesCommute(o: Observation, x: Line, y: Line)
    requires !(SnapshotOf(x, Client) && SnapshotOf(y, Client)) && !(SnapshotOf(x, Server) && SnapshotOf(y, Server))
    ensures Ingest(Ingest(o, x), y) == Ingest(Ingest(o, y), x)
  {
    hide IngestRole;
    if x.Event? && y.Event? && x.role == y.role {
      RoleEventsCommute(Of(o, x.role), x.event, y.event);
    }
  }

  /** The metrics snapshots of one role, in order. */
  function Snapshots(lines: seq<Line>, role: Role): seq<Line> {
    if lines == [] then []
    else if SnapshotOf(lines[0], role) then [lines[0]] + Snapshots(lines[1..], role)
    else Snapshots(lines[1..], role)
  }

  lemma {:induction false} SnapshotsConcat(a: seq<Line>, b: seq<Line>, role: Role)
    ensures Snapshots(a + b, role) == Snapshots(a, role) + Snapshots(b, role)
  {
    hide SnapshotOf;
    if a == [] {
      assert a + b == b;
    } else {
      SnapshotsConcat(a[1..], b, role);
      assert (a + b)[0] == a[0] && (a + b)[1..] == a[1..] + b;
      assert [a[0]] + Snapshots(a[1..], role) + Snapshots(b, role) ==
             [a[0]] + (Snapshots(a[1..], role) + Snapshots(b, role));
    }
  }

  /** Where `x` stands in a log, it stands in the snapshots if it is one. */
  lemma SnapshotsAround(before: seq<Line>, x: Line, after: seq<Line>, role: Role)
    ensures Snapshots(before + [x] + after, role) ==
              Snapshots(before, role) + (if SnapshotOf(x, role) then [x] else []) + Snapshots(after, role)
  {
    hide SnapshotOf;
    SnapshotsConcat(before + [x], after, role);
    SnapshotsConcat(before, [x], role);
  }

  /** Bringing a line to the front past lines that are no snapshots of its kind changes nothing. */
  lemma {:induction false} BringToFront(o: Observation, before: seq<Line>, x: Line, after: seq<Line>)
    requires forall role :: SnapshotOf(x, role) ==> Snapshots(before, role) == []
    ensures IngestAll(o, before + [x] + after) == IngestAll(o, [x] + before + after)
    decreases before
  {
    hide Ingest;
    if before == [] {
      assert before + [x] + after == [x] + before + after;
    } else {
      var y := before[0];
      assert forall role :: SnapshotOf(x, role) ==> !SnapshotOf(y, role);
      BringToFront(Ingest(o, y), before[1..], x, after);
      LinesCommute(o, y, x);
      assert (before + [x] + after)[1..] == before[1..] + [x] + after;
      var front := [x] + before + after;
      assert front[1..] == before + after;
      assert (before + after)[1..] == before[1..] + after;
      assert ([x] + before[1..] + after)[1..] == before[1..] + after;
    }
  }

  lemma FirstOccurrence(lines: seq<Line>, x: Line) returns (i: nat)
    requires x in lines
    ensures i < |lines| && lines[i] == x && x !in lines[..i]
  {
    i := 0;
    while lines[i] != x
      invariant 0 <= i < |lines| && x in lines[i..] && x !in lines[..i]
      decreases |lines| - i
    {
      assert lines[..i + 1] == lines[..i] + [lines[i]];
      assert lines[i..] == [lines[i]] + lines[i + 1..];
      i := i + 1;
    }
  }

  /** The first snapshot in a log is `x` when `a` starts with it, so none stands before its first occurrence. */
  lemma NoSnapshotBefore(a: seq<Line>, before: seq<Line>, x: Line, after: seq<Line>, role: Role)
    requires a != [] && a[0] == x && SnapshotOf(x, role) && x !in before
    requires Snapshots(a, role) == Snapshots(before + [x] + after, role)
    ensures Snapshots(before, role) == []
  {
    hide SnapshotOf;
    SnapshotsAround(before, x, after, role);
    assert Snapshots(a, role)[0] == x;
    if Snapshots(before, role) != [] {
      assert x in Snapshots(before, role);
      SnapshotsAmong(before, role);
      assert false;
    }
  }

  lemma {:induction false} SnapshotsAmong(lines: seq<Line>, role: Role)
    ensures forall s :: s in Snapshots(lines, role) ==> s in lines
  {
    hide SnapshotOf;
    if lines != [] {
      SnapshotsAmong(lines[1..], role);
    }
  }

  lemma SnapshotsWithout(a: seq<Line>, before: seq<Line>, x: Line, after: seq<Line>, role: Role)
    requires a != [] && a[0] == x && Snapshots(a, role) == Snapshots(before + [x] + after, role)
    requires SnapshotOf(x, role) ==> Snapshots(before, role) == []
    ensures Snapshots(a[1..], role) == Snapshots(before + after, role)
  {
    hide SnapshotOf;
    SnapshotsAround(before, x, after, role);
    SnapshotsConcat(before, after, role);
    if SnapshotOf(x, role) {
      assert ([x] + Snapshots(a[1..], role))[1..] == ([x] + Snapshots(after, role))[1..];
    }
  }

  lemma ElementsWithout(a: seq<Line>, before: seq<Line>, x: Line, after: seq<Line>)
    requires a != [] && a[0] == x && multiset(a) == multiset(before + [x] + after)
    ensures multiset(a[1..]) == multiset(before + after)
  {
    assert a == [x] + a[1..];
    assert multiset(a[1..]) == multiset(a) - multiset{x};
    assert multiset(before + after) == multiset(before + [x] + after) - multiset{x};
  }

  /**
    Reordering the lines of a log changes nothing in the observation, as long as each role's metrics
    snapshots stay in order.
   */
  lemma {:induction false} OrderDoesNotMatter(o: Observation, a: seq<Line>, b: seq<Line>)
    requires multiset(a) == multiset(b)
    requires forall role :: Snapshots(a, role) == Snapshots(b, role)
    ensures IngestAll(o, a) == IngestAll(o, b)
    decreases a
  {
    if a == [] {
      assert |multiset(b)| == 0;
    } else {
      hide Ingest, Snapshots, SnapshotOf;
      var x := a[0];
      assert x in multiset(b);
      var i := FirstOccurrence(b, x);
      var before, after := b[..i], b[i + 1..];
      assert b == before + [x] + after;
      forall role
        ensures SnapshotOf(x, role) ==> Snapshots(before, role) == []
        ensures Snapshots(a[1..], role) == Snapshots(before + after, role)
      {
        if SnapshotOf(x, role) {
          NoSnapshotBefore(a, before, x, after, role);
        }
        SnapshotsWithout(a, before, x, after, role);
      }
      BringToFront(o, before, x, after);
      assert ([x] + before + after)[1..] == before + after;
      ElementsWithout(a, before, x, after);
      OrderDoesNotMatter(Ingest(o, x), a[1..], before + after);
    }
  }
}
