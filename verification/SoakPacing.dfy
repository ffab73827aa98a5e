/**
  When the pacer keeps the rate, in terms of what its callers can know beforehand: the sizes, the latest clock
  reading and the end of the clock. A validated public soak is inside that condition.
 */
module SoakPacing {
  import opened Bytes
  import opened Rates
  import opened SoakPacer
  import opened SoakProtocol

  /** The exact time that the rate demands for one send. */
  function Spacing(bitsPerSecond: nat, bytes: nat): nat {
    DivCeil(Load(bytes), RateOf(bitsPerSecond))
  }

  function TotalSpacing(bitsPerSecond: nat, sizes: seq<nat>): nat {
    if sizes == [] then 0 else Spacing(bitsPerSecond, sizes[0]) + TotalSpacing(bitsPerSecond, sizes[1..])
  }

  function Sizes(calls: seq<Call>): (sizes: seq<nat>)
    ensures |sizes| == |calls|
  {
    seq(|calls|, i requires 0 <= i < |calls| => calls[i].bytes)
  }

  /** Every spacing fits 64 bits, and all of them one after another end within the clock. */
  predicate Roomy(bitsPerSecond: nat, last: nat, base: nat, sizes: seq<nat>) {
    && (forall i :: 0 <= i < |sizes| ==> Spacing(bitsPerSecond, sizes[i]) <= U64_MAX)
    && (TotalSpacing(bitsPerSecond, sizes) == 0 || base + TotalSpacing(bitsPerSecond, sizes) <= last)
  }

  /** Over every window of the run the bits sent are at most the rate times the scheduled distance. */
  ghost predicate WindowsPaced(bitsPerSecond: nat, last: nat, nextSend: nat, calls: seq<Call>) {
    var starts := Starts(bitsPerSecond, last, nextSend, calls);
    forall i, j :: 0 <= i <= j < |calls| ==> WindowPaced(bitsPerSecond, starts, calls, i, j)
  }

  predicate WindowPaced(bitsPerSecond: nat, starts: seq<nat>, calls: seq<Call>, i: nat, j: nat)
    requires i <= j < |calls| == |starts|
  {
    starts[i] <= starts[j] && TotalLoad(calls[i..j]) <= Passed(RateOf(bitsPerSecond), starts[j] - starts[i])
  }

  predicate AllAtMost(calls: seq<Call>, top: nat) {
    forall i :: 0 <= i < |calls| ==> calls[i].now <= top
  }

  predicate SizesFit(sizes: seq<nat>) {
    forall i :: 0 <= i < |sizes| ==> sizes[i] <= U64_MAX
  }

  // ----- room enough

  lemma NoBytesNoSpacing(bitsPerSecond: nat, bytes: nat)
    ensures Spacing(bitsPerSecond, bytes) == 0 <==> bytes == 0
  {
    hide Passed;
    var rate := RateOf(bitsPerSecond);
    CeilingExact(Load(bytes), rate);
    NothingPasses(rate);
    if bytes == 0 && Spacing(bitsPerSecond, bytes) > 0 {
      OnePasses(rate);
      PassedGrows(rate, 1, Spacing(bitsPerSecond, bytes));
    }
  }

  /** The pacer moves on by exactly the spacing when that fits, and stays when nothing is sent. */
  lemma AfterExact(bitsPerSecond: nat, last: nat, scheduled: nat, bytes: nat)
    requires bytes <= U64_MAX && bitsPerSecond <= U64_MAX
    requires bytes == 0 || Fits(bitsPerSecond, last, scheduled, bytes)
    ensures After(bitsPerSecond, last, scheduled, bytes) == scheduled + Spacing(bitsPerSecond, bytes)
  {
    hide DurationForRate;
    DurationExact(bytes, bitsPerSecond);
    NoBytesNoSpacing(bitsPerSecond, bytes);
  }

  lemma RoomyStep(bitsPerSecond: nat, last: nat, base: nat, sizes: seq<nat>)
    requires sizes != []
    ensures var spacing := Spacing(bitsPerSecond, sizes[0]);
            Roomy(bitsPerSecond, last, base, sizes) <==>
              && spacing <= U64_MAX && (spacing == 0 || base + spacing <= last)
              && Roomy(bitsPerSecond, last, base + spacing, sizes[1..])
  {
    hide Spacing;
    var rest := sizes[1..];
    assert sizes == [sizes[0]] + rest;
    assert forall i :: 0 <= i < |rest| ==> rest[i] == sizes[i + 1];
    if forall i :: 0 <= i < |rest| ==> Spacing(bitsPerSecond, rest[i]) <= U64_MAX {
      forall i | 0 < i < |sizes|
        ensures Spacing(bitsPerSecond, sizes[i]) <= U64_MAX
      {
        assert rest[i - 1] == sizes[i];
      }
    }
  }

  lemma SizesTail(calls: seq<Call>)
    requires calls != []
    ensures Sizes(calls)[0] == calls[0].bytes && Sizes(calls)[1..] == Sizes(calls[1..])
  {
  }

  lemma {:induction false} RoomyFits(bitsPerSecond: nat, last: nat, nextSend: nat, base: nat, calls: seq<Call>, n: nat)
    requires bitsPerSecond <= U64_MAX && nextSend <= base && AllAtMost(calls, base) && SizesFit(Sizes(calls))
    requires n <= |calls| && Roomy(bitsPerSecond, last, base, Sizes(calls)[..n])
    ensures AllFit(bitsPerSecond, last, nextSend, calls, n)
    decreases n
  {
    hide Roomy, After, Fits, Spacing;
    if n > 0 {
      var sizes := Sizes(calls)[..n];
      var scheduled, spacing := Max(nextSend, calls[0].now), Spacing(bitsPerSecond, calls[0].bytes);
      var after := After(bitsPerSecond, last, scheduled, calls[0].bytes);
      SizesTail(calls);
      RoomyStep(bitsPerSecond, last, base, sizes);
      assert sizes[1..] == Sizes(calls[1..])[..n - 1];
      FitsBelow(bitsPerSecond, last, scheduled, base, calls[0].bytes);
      AfterExact(bitsPerSecond, last, scheduled, calls[0].bytes);
      RoomyFits(bitsPerSecond, last, after, base + spacing, calls[1..], n - 1);
      AllFitCons(bitsPerSecond, last, nextSend, calls, n);
    }
  }

  lemma FitsBelow(bitsPerSecond: nat, last: nat, scheduled: nat, base: nat, bytes: nat)
    requires scheduled <= base && Spacing(bitsPerSecond, bytes) <= U64_MAX
    requires Spacing(bitsPerSecond, bytes) == 0 || base + Spacing(bitsPerSecond, bytes) <= last
    ensures bytes == 0 || Fits(bitsPerSecond, last, scheduled, bytes)
  {
    NoBytesNoSpacing(bitsPerSecond, bytes);
  }

  lemma AllFitCons(bitsPerSecond: nat, last: nat, nextSend: nat, calls: seq<Call>, n: nat)
    requires 0 < n <= |calls|
    requires CallFits(bitsPerSecond, last, Max(nextSend, calls[0].now), calls[0].bytes)
    requires var after := After(bitsPerSecond, last, Max(nextSend, calls[0].now), calls[0].bytes);
             AllFit(bitsPerSecond, last, after, calls[1..], n - 1)
    ensures AllFit(bitsPerSecond, last, nextSend, calls, n)
  {
    hide CallFits, After;
    var starts := Starts(bitsPerSecond, last, nextSend, calls);
    StartsTail(bitsPerSecond, last, nextSend, calls);
    forall k | 0 <= k < n
      ensures CallFits(bitsPerSecond, last, starts[k], calls[k].bytes)
    {
      if k > 0 {
        assert starts[1..][k - 1] == starts[k] && calls[1..][k - 1] == calls[k];
      }
    }
  }

  lemma AllFitFewer(bitsPerSecond: nat, last: nat, nextSend: nat, calls: seq<Call>, n: nat, fewer: nat)
    requires fewer <= n <= |calls| && AllFit(bitsPerSecond, last, nextSend, calls, n)
    ensures AllFit(bitsPerSecond, last, nextSend, calls, fewer)
  {
  }

  /** With room enough every window is paced, at any clock readings up to `top`. */
  lemma RoomyIsPaced(bitsPerSecond: nat, last: nat, nextSend: nat, top: nat, calls: seq<Call>)
    requires bitsPerSecond <= U64_MAX && calls != [] && AllAtMost(calls, top) && SizesFit(Sizes(calls))
    requires Roomy(bitsPerSecond, last, Max(nextSend, top), Sizes(calls)[..|calls| - 1])
    ensures WindowsPaced(bitsPerSecond, last, nextSend, calls)
  {
    hide Roomy, AllFit, Starts, TotalLoad, Passed;
    var n := |calls| - 1;
    RoomyFits(bitsPerSecond, last, nextSend, Max(nextSend, top), calls, n);
    forall i, j | 0 <= i <= j < |calls|
      ensures WindowPaced(bitsPerSecond, Starts(bitsPerSecond, last, nextSend, calls), calls, i, j)
    {
      AllFitFewer(bitsPerSecond, last, nextSend, calls, n, j);
      EveryWindowIsPaced(bitsPerSecond, last, nextSend, calls, i, j);
    }
  }

  // ----- and not otherwise

  /** A run of these sizes with every clock reading at `top`. */
  function AllAt(top: nat, sizes: seq<nat>): (calls: seq<Call>)
    ensures |calls| == |sizes| && AllAtMost(calls, top) && Sizes(calls) == sizes
  {
    seq(|sizes|, i requires 0 <= i < |sizes| => Call(top, sizes[i]))
  }

  lemma AllAtTail(top: nat, sizes: seq<nat>)
    requires sizes != []
    ensures AllAt(top, sizes)[0] == Call(top, sizes[0]) && AllAt(top, sizes)[1..] == AllAt(top, sizes[1..])
  {
  }

  /** Without room enough some window breaks the rate. */
  lemma {:induction false} CrampedIsNotPaced(bitsPerSecond: nat, last: nat, nextSend: nat, top: nat, sizes: seq<nat>)
    requires bitsPerSecond <= U64_MAX && sizes != [] && SizesFit(sizes)
    requires !Roomy(bitsPerSecond, last, Max(nextSend, top), sizes[..|sizes| - 1])
    ensures !WindowsPaced(bitsPerSecond, last, nextSend, AllAt(top, sizes))
    decreases |sizes|
  {
    hide Roomy, Fits, Spacing, Starts, After, WindowPaced;
    NothingIsRoomy(bitsPerSecond, last, Max(nextSend, top));
    var init := sizes[..|sizes| - 1];
    var calls := AllAt(top, sizes);
    var base, bytes := Max(nextSend, top), sizes[0];
    AllAtTail(top, sizes);
    RoomyStep(bitsPerSecond, last, base, init);
    assert init[1..] == sizes[1..][..|sizes| - 2];
    FitsExactly(bitsPerSecond, last, base, bytes);
    var after := After(bitsPerSecond, last, base, bytes);
    if bytes == 0 || Fits(bitsPerSecond, last, base, bytes) {
      AfterExact(bitsPerSecond, last, base, bytes);
      CrampedIsNotPaced(bitsPerSecond, last, after, top, sizes[1..]);
      TailNotPaced(bitsPerSecond, last, nextSend, calls);
    } else {
      FirstGapTooShort(bitsPerSecond, last, nextSend, calls);
    }
  }

  lemma NothingIsRoomy(bitsPerSecond: nat, last: nat, base: nat)
    ensures Roomy(bitsPerSecond, last, base, [])
  {
  }

  lemma FitsExactly(bitsPerSecond: nat, last: nat, base: nat, bytes: nat)
    ensures (bytes == 0 || Fits(bitsPerSecond, last, base, bytes)) <==>
              var spacing := Spacing(bitsPerSecond, bytes);
              spacing <= U64_MAX && (spacing == 0 || base + spacing <= last)
  {
    NoBytesNoSpacing(bitsPerSecond, bytes);
  }

  lemma TailNotPaced(bitsPerSecond: nat, last: nat, nextSend: nat, calls: seq<Call>)
    requires calls != []
    requires var after := After(bitsPerSecond, last, Max(nextSend, calls[0].now), calls[0].bytes);
             !WindowsPaced(bitsPerSecond, last, after, calls[1..])
    ensures !WindowsPaced(bitsPerSecond, last, nextSend, calls)
  {
    hide After, Starts, TotalLoad, Passed;
    var after := After(bitsPerSecond, last, Max(nextSend, calls[0].now), calls[0].bytes);
    var starts, rest := Starts(bitsPerSecond, last, nextSend, calls), Starts(bitsPerSecond, last, after, calls[1..]);
    StartsTail(bitsPerSecond, last, nextSend, calls);
    var i, j :| 0 <= i <= j < |calls[1..]| && !WindowPaced(bitsPerSecond, rest, calls[1..], i, j);
    assert calls[1..][i..j] == calls[i + 1..j + 1];
    assert rest[i] == starts[i + 1] && rest[j] == starts[j + 1];
    assert !WindowPaced(bitsPerSecond, starts, calls, i + 1, j + 1);
  }

  /** Where the spacing does not fit and the next caller asks no later, the two sends are too close. */
  lemma FirstGapTooShort(bitsPerSecond: nat, last: nat, nextSend: nat, calls: seq<Call>)
    requires bitsPerSecond <= U64_MAX && |calls| > 1 && calls[0].bytes <= U64_MAX
    requires calls[1].now <= Max(nextSend, calls[0].now)
    requires calls[0].bytes != 0 && !Fits(bitsPerSecond, last, Max(nextSend, calls[0].now), calls[0].bytes)
    ensures !WindowsPaced(bitsPerSecond, last, nextSend, calls)
  {
    hide After, Fits, Passed, Load;
    var base, bytes := Max(nextSend, calls[0].now), calls[0].bytes;
    GapIsLongEnoughExactly(bitsPerSecond, last, base, bytes);
    var starts := Starts(bitsPerSecond, last, nextSend, calls);
    StartsTail(bitsPerSecond, last, nextSend, calls);
    assert starts[0] == base && starts[1] == starts[1..][0] == After(bitsPerSecond, last, base, bytes);
    assert calls[0..1] == [calls[0]];
    assert [calls[0]][1..] == [];
    assert TotalLoad(calls[0..1]) == Load(bytes);
    assert !WindowPaced(bitsPerSecond, starts, calls, 0, 1);
  }

  /** Every run with these sizes, read by a clock that never passes `top`, keeps the rate. */
  ghost predicate AlwaysPaced(bitsPerSecond: nat, last: nat, nextSend: nat, top: nat, sizes: seq<nat>) {
    forall calls :: Sizes(calls) == sizes && AllAtMost(calls, top) ==>
      WindowsPaced(bitsPerSecond, last, nextSend, calls)
  }

  /**
    The exact condition, in terms of sizes and clock alone. Whatever the clock reads up to `top`, every window
    is paced, if and only if each spacing before the last send fits 64 bits and all of them together still fit
    between `top`, or the pacer's own next instant if that is later, and the end of the clock.
   */
  lemma PacedExactlyWithRoom(bitsPerSecond: nat, last: nat, nextSend: nat, top: nat, sizes: seq<nat>)
    requires bitsPerSecond <= U64_MAX && sizes != [] && SizesFit(sizes)
    ensures AlwaysPaced(bitsPerSecond, last, nextSend, top, sizes) <==>
              Roomy(bitsPerSecond, last, Max(nextSend, top), sizes[..|sizes| - 1])
  {
    hide Roomy, WindowsPaced, AllAt;
    if Roomy(bitsPerSecond, last, Max(nextSend, top), sizes[..|sizes| - 1]) {
      forall calls | Sizes(calls) == sizes && AllAtMost(calls, top)
        ensures WindowsPaced(bitsPerSecond, last, nextSend, calls)
      {
        RoomyIsPaced(bitsPerSecond, last, nextSend, top, calls);
      }
    } else {
      CrampedIsNotPaced(bitsPerSecond, last, nextSend, top, sizes);
      assert Sizes(AllAt(top, sizes)) == sizes;
    }
  }

  /** The failing family at its plainest: at the end of any clock, any two sends share an instant. */
  lemma LawFailsAtTheLastInstant(bitsPerSecond: nat, last: nat, nextSend: nat, bytes: nat)
    requires bitsPerSecond <= U64_MAX && nextSend <= last && 0 < bytes <= U64_MAX
    ensures Starts(bitsPerSecond, last, nextSend, [Call(last, bytes), Call(last, bytes)]) == [last, last]
    ensures !WindowsPaced(bitsPerSecond, last, nextSend, [Call(last, bytes), Call(last, bytes)])
  {
    hide DurationForRate, WindowsPaced;
    var calls := [Call(last, bytes), Call(last, bytes)];
    DurationExact(bytes, bitsPerSecond);
    NoBytesNoSpacing(bitsPerSecond, bytes);
    assert calls[1..] == [Call(last, bytes)];
    assert [Call(last, bytes)][1..] == [];
    FirstGapTooShort(bitsPerSecond, last, nextSend, calls);
  }

  // ----- a validated soak

  lemma SpacingGrows(bitsPerSecond: nat, bytes: nat, more: nat)
    requires bytes <= more
    ensures Spacing(bitsPerSecond, bytes) <= Spacing(bitsPerSecond, more)
  {
    hide Passed;
    var rate := RateOf(bitsPerSecond);
    CeilingExact(Load(bytes), rate);
    CeilingExact(Load(more), rate);
    if Spacing(bitsPerSecond, more) < Spacing(bitsPerSecond, bytes) {
      PassedGrows(rate, Spacing(bitsPerSecond, more) + 1, Spacing(bitsPerSecond, bytes));
      PassedAdds(rate, Spacing(bitsPerSecond, more), 1);
      OnePasses(rate);
    }
  }

  /** Validation in plain numbers: the last test asks that ten seconds at the rate carry all workers' payloads. */
  lemma ValidExactly(c: Config)
    ensures ValidConfig(c) <==>
              && 1 <= c.workers <= 8 && 1 <= c.payload <= 4_194_304 && 1 <= c.uploadRateBps <= 1_000_000_000
              && 2 * c.payload <= c.budget <= 1_099_511_627_776
              && 8 * PacedBytes(c) <= 10 * c.uploadRateBps
  {
    hide DurationForRate, PacedBytes;
    if 1 <= c.workers <= 8 && 1 <= c.payload <= 4_194_304 && 1 <= c.uploadRateBps <= 1_000_000_000 {
      PayloadWithinAll(c);
      DurationExact(PacedBytes(c), c.uploadRateBps);
      CeilingWithin(Load(PacedBytes(c)), c.uploadRateBps, MAX_PACING_WINDOW);
    }
  }

  lemma CeilingWithin(load: nat, rate: nat, window: nat)
    requires rate > 0
    ensures DivCeil(load, rate) <= window <==> load <= Passed(rate, window)
  {
    hide Passed;
    var ceiling := DivCeil(load, rate);
    CeilingExact(load, rate);
    hide DivCeil;
    if ceiling <= window {
      PassedGrows(rate, ceiling, window);
    } else {
      PassedAdds(rate, ceiling - 1, 1);
      OnePasses(rate);
      PassedGrows(rate, window, ceiling - 1);
    }
  }

  /** No chunk of a validated soak takes longer than the pacing window. */
  lemma ChunkWithinWindow(c: Config, bytes: nat)
    requires ValidConfig(c) && bytes <= c.payload
    ensures Spacing(c.uploadRateBps, bytes) <= MAX_PACING_WINDOW
  {
    hide DurationForRate, Spacing, DivCeil, PacedBytes;
    PayloadWithinAll(c);
    DurationExact(PacedBytes(c), c.uploadRateBps);
    WindowIsShort(c);
    SpacingGrows(c.uploadRateBps, bytes, PacedBytes(c));
  }

  lemma PayloadWithinAll(c: Config)
    requires 1 <= c.workers <= MAX_PUBLIC_SOAK_WORKERS && c.payload <= MAX_SOAK_PAYLOAD_BYTES
    ensures c.payload <= PacedBytes(c) <= U64_MAX
  {
    assert c.payload * c.workers == c.payload + c.payload * (c.workers - 1);
    assert MAX_SOAK_PAYLOAD_BYTES * c.workers ==
           c.payload * c.workers + (MAX_SOAK_PAYLOAD_BYTES - c.payload) * c.workers;
  }

  lemma WindowIsShort(c: Config)
    requires ValidConfig(c) && PacedBytes(c) <= U64_MAX
    ensures Spacing(c.uploadRateBps, PacedBytes(c)) <= MAX_PACING_WINDOW
  {
    hide DurationForRate, PacedBytes;
    DurationExact(PacedBytes(c), c.uploadRateBps);
  }

  lemma {:induction false} TotalWithinWindows(c: Config, sizes: seq<nat>)
    requires ValidConfig(c) && forall i :: 0 <= i < |sizes| ==> sizes[i] <= c.payload
    ensures TotalSpacing(c.uploadRateBps, sizes) <= |sizes| * MAX_PACING_WINDOW
    decreases |sizes|
  {
    hide Spacing, ValidConfig;
    if sizes != [] {
      ChunkWithinWindow(c, sizes[0]);
      TotalWithinWindows(c, sizes[1..]);
    }
  }

  /**
    A validated soak, whatever its chunks and its clock: every window is paced as long as the clock can still
    count one pacing window for each chunk. Nothing else is asked of the run.
   */
  lemma ValidatedSoakIsPaced(c: Config, last: nat, nextSend: nat, top: nat, calls: seq<Call>)
    requires ValidConfig(c) && AllAtMost(calls, top) && nextSend <= top
    requires forall i :: 0 <= i < |calls| ==> calls[i].bytes <= Min(c.payload, WRITE_CHUNK_BYTES)
    requires top + |calls| * MAX_PACING_WINDOW <= last
    ensures WindowsPaced(c.uploadRateBps, last, nextSend, calls)
  {
    hide Spacing, WindowsPaced, ValidConfig;
    RateInRange(c);
    if calls == [] {
      NothingToPace(c.uploadRateBps, last, nextSend);
    } else {
      var sizes := Sizes(calls)[..|calls| - 1];
      forall i | 0 <= i < |sizes|
        ensures Spacing(c.uploadRateBps, sizes[i]) <= U64_MAX
      {
        ChunkWithinWindow(c, sizes[i]);
      }
      TotalWithinWindows(c, sizes);
      RoomyIsPaced(c.uploadRateBps, last, nextSend, top, calls);
    }
  }

  lemma RateInRange(c: Config)
    requires ValidConfig(c)
    ensures c.uploadRateBps <= U64_MAX && c.payload <= U64_MAX
  {
  }

  lemma NothingToPace(bitsPerSecond: nat, last: nat, nextSend: nat)
    ensures WindowsPaced(bitsPerSecond, last, nextSend, [])
  {
  }
}
