/**
  The shared upload pacer of the public soak (src/proxy_soak.rs). Instants are nanoseconds; `last` is the
  latest instant the clock can represent, past which the checked addition fails.
 */
module SoakPacer {
  import opened Bytes
  import opened Rates

  const NANOS_PER_SECOND: nat := 1_000_000_000

  /** The bits of `bytes`, times the nanoseconds in a second. */
  function Load(bytes: nat): nat {
    bytes * 8 * NANOS_PER_SECOND
  }

  /** The rate in force: a zero rate counts as one bit per second. */
  function RateOf(bitsPerSecond: nat): (rate: nat)
    ensures rate > 0
  {
    if bitsPerSecond == 0 then 1 else bitsPerSecond
  }

  /** In 128-bit arithmetic that saturates, then narrowed to 64 bits. */
  function DurationForRate(bytes: nat, bitsPerSecond: nat): nat {
    var numerator := Min(Min(bytes * 8, U128_MAX) * NANOS_PER_SECOND, U128_MAX);
    var denominator := RateOf(bitsPerSecond);
    var nanos := Min(numerator + SatSub(denominator, 1), U128_MAX) / denominator;
    if nanos <= U64_MAX then nanos else U64_MAX
  }

  lemma CeilingExact(load: nat, rate: nat)
    requires rate > 0
    ensures Passed(rate, DivCeil(load, rate)) >= load
    ensures Passed(rate, DivCeil(load, rate)) < load + rate
  {
    var q := (load + rate - 1) / rate;
    assert load + rate - 1 == rate * q + (load + rate - 1) % rate;
  }

  /** For every buffer a 64-bit length can describe, the 128-bit steps never saturate. */
  lemma DurationExact(bytes: nat, bitsPerSecond: nat)
    requires bytes <= U64_MAX && bitsPerSecond <= U64_MAX
    ensures DurationForRate(bytes, bitsPerSecond) == Min(DivCeil(Load(bytes), RateOf(bitsPerSecond)), U64_MAX)
  {
  }

  datatype Call = Call(now: nat, bytes: nat)

  /** The earliest next send after one that is scheduled at `scheduled`. */
  function After(bitsPerSecond: nat, last: nat, scheduled: nat, bytes: nat): nat {
    var spacing := DurationForRate(bytes, bitsPerSecond);
    if scheduled + spacing <= last then scheduled + spacing else scheduled
  }

  class PublicRatePacer {
    var nextSend: nat
    const uploadRateBps: nat
    const last: nat

    constructor (now: nat, uploadRateBps: nat, last: nat)
      ensures nextSend == now && this.uploadRateBps == uploadRateBps && this.last == last
    {
      nextSend := now;
      this.uploadRateBps := uploadRateBps;
      this.last := last;
    }

    /** The part under the lock; the caller then sleeps until `scheduled`. */
    method WaitForBytes(now: nat, bytes: nat) returns (scheduled: nat)
      modifies this
      ensures [scheduled] == Starts(uploadRateBps, last, old(nextSend), [Call(now, bytes)])
      ensures nextSend == After(uploadRateBps, last, scheduled, bytes)
    {
      scheduled := Max(nextSend, now);
      var spacing := DurationForRate(bytes, uploadRateBps);
      nextSend := scheduled;
      if scheduled + spacing <= last {
        nextSend := scheduled + spacing;
      }
    }
  }

  /** The instants at which a run of calls may send. */
  function Starts(bitsPerSecond: nat, last: nat, nextSend: nat, calls: seq<Call>): (starts: seq<nat>)
    ensures |starts| == |calls|
    decreases calls
  {
    if calls == [] then []
    else
      var scheduled := Max(nextSend, calls[0].now);
      [scheduled] + Starts(bitsPerSecond, last, After(bitsPerSecond, last, scheduled, calls[0].bytes), calls[1..])
  }

  function TotalLoad(calls: seq<Call>): nat {
    if calls == [] then 0 else Load(calls[0].bytes) + TotalLoad(calls[1..])
  }

  // ----- one call

  /** The spacing is representable, and so is the instant after it. */
  predicate Fits(bitsPerSecond: nat, last: nat, scheduled: nat, bytes: nat) {
    var spacing := DivCeil(Load(bytes), RateOf(bitsPerSecond));
    spacing <= U64_MAX && scheduled + spacing <= last
  }

  /** The gap left after a send is long enough for it exactly when nothing was sent or the spacing fits. */
  lemma GapIsLongEnoughExactly(bitsPerSecond: nat, last: nat, scheduled: nat, bytes: nat)
    requires bytes <= U64_MAX && bitsPerSecond <= U64_MAX
    ensures After(bitsPerSecond, last, scheduled, bytes) >= scheduled
    ensures Passed(RateOf(bitsPerSecond), After(bitsPerSecond, last, scheduled, bytes) - scheduled) >= Load(bytes) <==>
              bytes == 0 || Fits(bitsPerSecond, last, scheduled, bytes)
  {
    hide DurationForRate, Passed;
    var rate := RateOf(bitsPerSecond);
    var exact := DivCeil(Load(bytes), rate);
    DurationExact(bytes, bitsPerSecond);
    CeilingExact(Load(bytes), rate);
    NothingPasses(rate);
    if exact > U64_MAX {
      PassedAdds(rate, exact - 1, 1);
      OnePasses(rate);
      PassedGrows(rate, U64_MAX, exact - 1);
    }
  }

  // ----- runs

  /** Scheduled times never go back, whatever the clock, the sizes and the overflows. */
  lemma {:induction false} StartsNeverGoBack(
    bitsPerSecond: nat, last: nat, nextSend: nat, calls: seq<Call>, i: nat, j: nat)
    requires i <= j < |calls|
    ensures Starts(bitsPerSecond, last, nextSend, calls)[i] <= Starts(bitsPerSecond, last, nextSend, calls)[j]
    ensures nextSend <= Starts(bitsPerSecond, last, nextSend, calls)[i]
    decreases j
  {
    hide DurationForRate;
    if j > 0 {
      var after := After(bitsPerSecond, last, Max(nextSend, calls[0].now), calls[0].bytes);
      StartsNeverGoBack(bitsPerSecond, last, after, calls[1..], if i == 0 then 0 else i - 1, j - 1);
      StartsTail(bitsPerSecond, last, nextSend, calls);
    }
  }

  /** The spacing of each of the first `n` calls fits, where there is any. */
  predicate AllFit(bitsPerSecond: nat, last: nat, nextSend: nat, calls: seq<Call>, n: nat)
    requires n <= |calls|
  {
    var starts := Starts(bitsPerSecond, last, nextSend, calls);
    forall k :: 0 <= k < n ==> CallFits(bitsPerSecond, last, starts[k], calls[k].bytes)
  }

  predicate CallFits(bitsPerSecond: nat, last: nat, scheduled: nat, bytes: nat) {
    bytes <= U64_MAX && (bytes == 0 || Fits(bitsPerSecond, last, scheduled, bytes))
  }

  lemma TailFits(bitsPerSecond: nat, last: nat, nextSend: nat, calls: seq<Call>, n: nat)
    requires 0 < n <= |calls| && AllFit(bitsPerSecond, last, nextSend, calls, n)
    ensures var after := After(bitsPerSecond, last, Max(nextSend, calls[0].now), calls[0].bytes);
            AllFit(bitsPerSecond, last, after, calls[1..], n - 1)
    ensures CallFits(bitsPerSecond, last, Max(nextSend, calls[0].now), calls[0].bytes)
  {
    hide CallFits, After;
    var starts := Starts(bitsPerSecond, last, nextSend, calls);
    assert starts[0] == Max(nextSend, calls[0].now);
    forall k | 0 <= k < n - 1
      ensures CallFits(bitsPerSecond, last, starts[1..][k], calls[1..][k].bytes)
    {
      assert calls[1..][k] == calls[k + 1] && starts[1..][k] == starts[k + 1];
    }
  }

  /** Between the first and the last send of a run there is time for all that was sent before the last. */
  lemma {:induction false} RunIsPaced(bitsPerSecond: nat, last: nat, nextSend: nat, calls: seq<Call>)
    requires bitsPerSecond <= U64_MAX && calls != []
    requires AllFit(bitsPerSecond, last, nextSend, calls, |calls| - 1)
    ensures var starts := Starts(bitsPerSecond, last, nextSend, calls);
            var end := |calls| - 1;
            && starts[0] <= starts[end]
            && TotalLoad(calls[..end]) <= Passed(RateOf(bitsPerSecond), starts[end] - starts[0])
    decreases |calls|
  {
    hide Fits, After, Passed, Load, AllFit;
    var rate := RateOf(bitsPerSecond);
    var starts := Starts(bitsPerSecond, last, nextSend, calls);
    var end := |calls| - 1;
    if end > 0 {
      var after := After(bitsPerSecond, last, starts[0], calls[0].bytes);
      TailFits(bitsPerSecond, last, nextSend, calls, end);
      RunIsPaced(bitsPerSecond, last, after, calls[1..]);
      assert starts[1..] == Starts(bitsPerSecond, last, after, calls[1..]);
      GapIsLongEnoughExactly(bitsPerSecond, last, starts[0], calls[0].bytes);
      PassedGrows(rate, after - starts[0], starts[1] - starts[0]);
      PassedAdds(rate, starts[1] - starts[0], starts[end] - starts[1]);
      assert calls[..end][1..] == calls[1..][..end - 1];
    } else {
      assert calls[..end] == [];
    }
  }

  /**
    Over every run of calls, at any clock readings: what was sent from call `i` up to, not including, call `j`
    takes no less time than the rate demands, whichever window is looked at.
   */
  lemma {:induction false} EveryWindowIsPaced(
    bitsPerSecond: nat, last: nat, nextSend: nat, calls: seq<Call>, i: nat, j: nat)
    requires bitsPerSecond <= U64_MAX && i <= j < |calls|
    requires AllFit(bitsPerSecond, last, nextSend, calls, j)
    ensures var starts := Starts(bitsPerSecond, last, nextSend, calls);
            && starts[i] <= starts[j]
            && TotalLoad(calls[i..j]) <= Passed(RateOf(bitsPerSecond), starts[j] - starts[i])
    decreases i
  {
    hide After, Passed, AllFit, TotalLoad, Starts;
    var starts := Starts(bitsPerSecond, last, nextSend, calls);
    if i == 0 {
      WindowFromTheStart(bitsPerSecond, last, nextSend, calls, j);
      assert calls[..j] == calls[i..j];
    } else {
      var scheduled := Max(nextSend, calls[0].now);
      var after := After(bitsPerSecond, last, scheduled, calls[0].bytes);
      TailFits(bitsPerSecond, last, nextSend, calls, j);
      EveryWindowIsPaced(bitsPerSecond, last, after, calls[1..], i - 1, j - 1);
      StartsTail(bitsPerSecond, last, nextSend, calls);
      assert calls[1..][i - 1..j - 1] == calls[i..j];
    }
  }

  lemma StartsTail(bitsPerSecond: nat, last: nat, nextSend: nat, calls: seq<Call>)
    requires calls != []
    ensures var after := After(bitsPerSecond, last, Max(nextSend, calls[0].now), calls[0].bytes);
            Starts(bitsPerSecond, last, nextSend, calls)[1..] == Starts(bitsPerSecond, last, after, calls[1..])
  {
    hide After;
  }

  lemma WindowFromTheStart(bitsPerSecond: nat, last: nat, nextSend: nat, calls: seq<Call>, j: nat)
    requires bitsPerSecond <= U64_MAX && j < |calls|
    requires AllFit(bitsPerSecond, last, nextSend, calls, j)
    ensures var starts := Starts(bitsPerSecond, last, nextSend, calls);
            && starts[0] <= starts[j]
            && TotalLoad(calls[..j]) <= Passed(RateOf(bitsPerSecond), starts[j] - starts[0])
  {
    hide After, Passed, AllFit, TotalLoad, Starts;
    PrefixOfRun(bitsPerSecond, last, nextSend, calls, j);
    RunIsPaced(bitsPerSecond, last, nextSend, calls[..j + 1]);
    assert calls[..j + 1][..j] == calls[..j];
  }

  lemma {:induction false} StartsPrefix(bitsPerSecond: nat, last: nat, nextSend: nat, calls: seq<Call>, n: nat)
    requires n <= |calls|
    ensures Starts(bitsPerSecond, last, nextSend, calls[..n]) == Starts(bitsPerSecond, last, nextSend, calls)[..n]
    decreases n
  {
    hide After;
    if n > 0 {
      var scheduled := Max(nextSend, calls[0].now);
      StartsPrefix(bitsPerSecond, last, After(bitsPerSecond, last, scheduled, calls[0].bytes), calls[1..], n - 1);
      assert calls[..n][1..] == calls[1..][..n - 1];
    }
  }

  lemma PrefixOfRun(bitsPerSecond: nat, last: nat, nextSend: nat, calls: seq<Call>, n: nat)
    requires n < |calls| && AllFit(bitsPerSecond, last, nextSend, calls, n)
    ensures AllFit(bitsPerSecond, last, nextSend, calls[..n + 1], n)
    ensures Starts(bitsPerSecond, last, nextSend, calls[..n + 1]) ==
              Starts(bitsPerSecond, last, nextSend, calls)[..n + 1]
  {
    hide CallFits, After, Starts;
    StartsPrefix(bitsPerSecond, last, nextSend, calls, n + 1);
  }

  // ----- no needless delay

  /** Every call but the first finds the pacer still waiting for the one before it. */
  predicate Busy(bitsPerSecond: nat, last: nat, nextSend: nat, calls: seq<Call>) {
    forall k :: 0 < k < |calls| ==>
      calls[k].now <=
        After(bitsPerSecond, last, Starts(bitsPerSecond, last, nextSend, calls)[k - 1], calls[k - 1].bytes)
  }

  lemma TailBusy(bitsPerSecond: nat, last: nat, nextSend: nat, calls: seq<Call>)
    requires calls != [] && Busy(bitsPerSecond, last, nextSend, calls)
    ensures var after := After(bitsPerSecond, last, Max(nextSend, calls[0].now), calls[0].bytes);
            Busy(bitsPerSecond, last, after, calls[1..])
    ensures |calls| > 1 ==>
              calls[1].now <= After(bitsPerSecond, last, Max(nextSend, calls[0].now), calls[0].bytes)
  {
    hide After;
    var starts := Starts(bitsPerSecond, last, nextSend, calls);
    forall k | 0 < k < |calls[1..]|
      ensures calls[1..][k].now <= After(bitsPerSecond, last, starts[1..][k - 1], calls[1..][k - 1].bytes)
    {
      assert calls[1..][k] == calls[k + 1] && starts[1..][k - 1] == starts[k];
      assert calls[1..][k - 1] == calls[k];
    }
    assert starts[0] == Max(nextSend, calls[0].now);
  }

  /** While it is busy the pacer loses less than one nanosecond a send against the exact rate. */
  lemma {:induction false} BusyRunIsTight(bitsPerSecond: nat, last: nat, nextSend: nat, calls: seq<Call>)
    requires bitsPerSecond <= U64_MAX && calls != []
    requires forall k :: 0 <= k < |calls| ==> calls[k].bytes <= U64_MAX
    requires Busy(bitsPerSecond, last, nextSend, calls)
    ensures var starts := Starts(bitsPerSecond, last, nextSend, calls);
            var end := |calls| - 1;
            && starts[0] <= starts[end]
            && Passed(RateOf(bitsPerSecond), starts[end] - starts[0]) <=
                 TotalLoad(calls[..end]) + Passed(RateOf(bitsPerSecond), end)
    decreases |calls|
  {
    hide After, Passed, Load, Busy;
    var rate := RateOf(bitsPerSecond);
    var starts := Starts(bitsPerSecond, last, nextSend, calls);
    var end := |calls| - 1;
    NothingPasses(rate);
    if end > 0 {
      var after := After(bitsPerSecond, last, starts[0], calls[0].bytes);
      TailBusy(bitsPerSecond, last, nextSend, calls);
      BusyRunIsTight(bitsPerSecond, last, after, calls[1..]);
      assert starts[1..] == Starts(bitsPerSecond, last, after, calls[1..]);
      GapIsTight(bitsPerSecond, last, starts[0], calls[0].bytes);
      PassedAdds(rate, starts[1] - starts[0], starts[end] - starts[1]);
      PassedAdds(rate, 1, end - 1);
      OnePasses(rate);
      assert calls[..end][1..] == calls[1..][..end - 1];
    } else {
      assert calls[..end] == [];
    }
  }

  lemma GapIsTight(bitsPerSecond: nat, last: nat, scheduled: nat, bytes: nat)
    requires bytes <= U64_MAX && bitsPerSecond <= U64_MAX
    ensures After(bitsPerSecond, last, scheduled, bytes) >= scheduled
    ensures Passed(RateOf(bitsPerSecond), After(bitsPerSecond, last, scheduled, bytes) - scheduled) <=
              Load(bytes) + RateOf(bitsPerSecond)
  {
    hide DurationForRate, Passed, Load;
    var rate := RateOf(bitsPerSecond);
    DurationExact(bytes, bitsPerSecond);
    CeilingExact(Load(bytes), rate);
    NothingPasses(rate);
    PassedGrows(rate, DurationForRate(bytes, bitsPerSecond), DivCeil(Load(bytes), rate));
  }
}
