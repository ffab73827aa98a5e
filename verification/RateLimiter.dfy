/**
  The token buckets of one identity (src/vpn_quota.rs, `VpnIdentityRateLimiter`), which outlive reconnects and
  reconfigurations. Instants are nanoseconds; tokens are billionths of a packet or a byte.
 */
module RateLimiter {
  import opened Wrappers
  import opened Bytes
  import opened FragmentCodec
  import opened Rates

  const TOKEN_SCALE: nat := 1_000_000_000

  datatype Limits = Limits(packetsPerSecond: u32, bytesPerSecond: u64)

  datatype Bucket = Bucket(limits: Limits, packetTokens: nat, byteTokens: nat, lastRefill: nat)

  datatype Rejection = InvalidDatagramSize | PacketRateExceeded | ByteRateExceeded

  function SatMul128(a: nat, b: nat): nat {
    Min(a * b, U128_MAX)
  }

  function SatAdd128(a: nat, b: nat): nat {
    Min(a + b, U128_MAX)
  }

  function PacketCapacity(l: Limits): nat {
    SatMul128(l.packetsPerSecond, TOKEN_SCALE)
  }

  /** A burst holds at least one datagram of the largest size. */
  function ByteCapacity(l: Limits): nat {
    SatMul128(Max(l.bytesPerSecond, MAX_DATAGRAM_LEN), TOKEN_SCALE)
  }

  predicate Valid(b: Bucket) {
    b.packetTokens <= PacketCapacity(b.limits) && b.byteTokens <= ByteCapacity(b.limits)
  }

  function Full(l: Limits, now: nat): Bucket {
    Bucket(l, PacketCapacity(l), ByteCapacity(l), now)
  }

  /** One bucket's tokens after `elapsed` nanoseconds. */
  function Topped(tokens: nat, elapsed: nat, rate: nat, capacity: nat): nat {
    Min(SatAdd128(tokens, SatMul128(elapsed, rate)), capacity)
  }

  /** A clock that went backwards refills nothing. */
  function Refilled(b: Bucket, now: nat): Bucket {
    if now < b.lastRefill then b
    else
      var elapsed := now - b.lastRefill;
      b.(packetTokens := Topped(b.packetTokens, elapsed, b.limits.packetsPerSecond, PacketCapacity(b.limits)),
         byteTokens := Topped(b.byteTokens, elapsed, b.limits.bytesPerSecond, ByteCapacity(b.limits)),
         lastRefill := now)
  }

  function Reconfigured(b: Bucket, limits: Limits, now: nat): Bucket {
    var r := Refilled(b, now);
    Bucket(limits, Min(r.packetTokens, PacketCapacity(limits)), Min(r.byteTokens, ByteCapacity(limits)), r.lastRefill)
  }

  function Sum(lengths: seq<nat>): nat {
    if lengths == [] then 0 else Sum(lengths[..|lengths| - 1]) + lengths[|lengths| - 1]
  }

  /** Sizes the limiter will consider at all: a non-empty group of datagrams, in range, whose total fits. */
  predicate Sized(lengths: seq<nat>) {
    && lengths != []
    && (forall i :: 0 <= i < |lengths| ==> 0 < lengths[i] <= MAX_DATAGRAM_LEN)
    && Sum(lengths) <= U64_MAX
  }

  function PacketCost(lengths: seq<nat>): nat {
    SatMul128(|lengths|, TOKEN_SCALE)
  }

  function ByteCost(lengths: seq<nat>): nat {
    SatMul128(Sum(lengths), TOKEN_SCALE)
  }

  predicate Affords(b: Bucket, lengths: seq<nat>) {
    b.packetTokens >= PacketCost(lengths) && b.byteTokens >= ByteCost(lengths)
  }

  class VpnIdentityRateLimiter {
    var state: Bucket

    constructor (limits: Limits, now: nat)
      ensures state == Full(limits, now)
    {
      state := Bucket(limits, PacketCapacity(limits), ByteCapacity(limits), now);
    }

    method Refill(now: nat)
      modifies this
      ensures state == Refilled(old(state), now)
    {
      if now < state.lastRefill {
        return;
      }
      var elapsed, limits := now - state.lastRefill, state.limits;
      state := state.(
        packetTokens := Topped(state.packetTokens, elapsed, limits.packetsPerSecond, PacketCapacity(limits)));
      state := state.(byteTokens := Topped(state.byteTokens, elapsed, limits.bytesPerSecond, ByteCapacity(limits)));
      state := state.(lastRefill := now);
    }

    method Reconfigure(limits: Limits, now: nat)
      modifies this
      ensures state == Reconfigured(old(state), limits, now)
    {
      Refill(now);
      state := state.(limits := limits);
      state := state.(packetTokens := Min(state.packetTokens, PacketCapacity(limits)));
      state := state.(byteTokens := Min(state.byteTokens, ByteCapacity(limits)));
    }

    /** Admits all the datagrams of a group or none; a refusal takes no token. */
    method AdmitDatagrams(lengths: seq<nat>, now: nat) returns (r: Option<Rejection>)
      modifies this
      ensures state == Step(old(state), Admit(lengths, now))
      ensures r.None? <==> Sized(lengths) && Affords(Refilled(old(state), now), lengths)
      ensures r == Some(InvalidDatagramSize) <==> !Sized(lengths)
      ensures r == Some(PacketRateExceeded) <==>
                Sized(lengths) && Refilled(old(state), now).packetTokens < PacketCost(lengths)
    {
      hide Refilled;
      if lengths == [] {
        return Some(InvalidDatagramSize);
      }
      var total := 0;
      for i := 0 to |lengths|
        invariant state == old(state)
        invariant forall k :: 0 <= k < i ==> 0 < lengths[k] <= MAX_DATAGRAM_LEN
        invariant total == Sum(lengths[..i])
      {
        if lengths[i] == 0 || lengths[i] > MAX_DATAGRAM_LEN {
          return Some(InvalidDatagramSize);
        }
        assert lengths[..i + 1][..i] == lengths[..i];
        total := total + lengths[i];
      }
      assert lengths[..|lengths|] == lengths;
      if total > U64_MAX {
        return Some(InvalidDatagramSize);
      }
      Refill(now);
      var packetCost, byteCost := SatMul128(|lengths|, TOKEN_SCALE), SatMul128(total, TOKEN_SCALE);
      if state.packetTokens < packetCost {
        return Some(PacketRateExceeded);
      }
      if state.byteTokens < byteCost {
        return Some(ByteRateExceeded);
      }
      state := state.(packetTokens := state.packetTokens - packetCost, byteTokens := state.byteTokens - byteCost);
      return None;
    }
  }

  // ----- runs

  datatype Op = Admit(lengths: seq<nat>, now: nat) | Change(limits: Limits, now: nat)

  predicate Admits(b: Bucket, op: Op) {
    op.Admit? && Sized(op.lengths) && Affords(Refilled(b, op.now), op.lengths)
  }

  function Step(b: Bucket, op: Op): Bucket {
    match op
    case Change(limits, now) => Reconfigured(b, limits, now)
    case Admit(lengths, now) =>
      if !Sized(lengths) then b
      else
        var r := Refilled(b, now);
        if Affords(r, lengths) then
          r.(packetTokens := r.packetTokens - PacketCost(lengths), byteTokens := r.byteTokens - ByteCost(lengths))
        else r
  }

  function Run(b: Bucket, ops: seq<Op>): Bucket
    decreases ops
  {
    if ops == [] then b else Run(Step(b, ops[0]), ops[1..])
  }

  function PacketsAdmitted(b: Bucket, ops: seq<Op>): nat
    decreases ops
  {
    if ops == [] then 0
    else (if Admits(b, ops[0]) then |ops[0].lengths| else 0) + PacketsAdmitted(Step(b, ops[0]), ops[1..])
  }

  function BytesAdmitted(b: Bucket, ops: seq<Op>): nat
    decreases ops
  {
    if ops == [] then 0
    else (if Admits(b, ops[0]) then Sum(ops[0].lengths) else 0) + BytesAdmitted(Step(b, ops[0]), ops[1..])
  }

  /** No limits in force during the run exceed these. */
  predicate Within(b: Bucket, ops: seq<Op>, packets: nat, bytes: nat) {
    && b.limits.packetsPerSecond <= packets && b.limits.bytesPerSecond <= bytes
    && (forall i :: 0 <= i < |ops| && ops[i].Change? ==>
          ops[i].limits.packetsPerSecond <= packets && ops[i].limits.bytesPerSecond <= bytes)
  }

  // ----- saturation is never felt

  lemma ToppedExact(tokens: nat, elapsed: nat, rate: nat, capacity: nat)
    requires capacity <= U128_MAX
    ensures Topped(tokens, elapsed, rate, capacity) == Min(tokens + Passed(rate, elapsed), capacity)
  {
  }

  lemma CostsExact(lengths: seq<nat>)
    requires Sized(lengths)
    ensures PacketCost(lengths) == |lengths| * TOKEN_SCALE && ByteCost(lengths) == Sum(lengths) * TOKEN_SCALE
  {
    CountAtMostSum(lengths);
  }

  lemma {:induction false} CountAtMostSum(lengths: seq<nat>)
    requires forall i :: 0 <= i < |lengths| ==> 0 < lengths[i]
    ensures |lengths| <= Sum(lengths)
    decreases |lengths|
  {
    if lengths != [] {
      CountAtMostSum(lengths[..|lengths| - 1]);
    }
  }

  /** One second's packets, and one second's bytes or one datagram of the largest size. */
  lemma CapacitiesExact(l: Limits)
    ensures PacketCapacity(l) == l.packetsPerSecond * 1_000_000_000
    ensures ByteCapacity(l) == Max(l.bytesPerSecond, 65_547) * 1_000_000_000
  {
  }

  /** A refill in plain numbers: what the rate earned since the last one, up to a full bucket. */
  lemma RefillExact(b: Bucket, now: nat)
    ensures now < b.lastRefill ==> Refilled(b, now) == b
    ensures now >= b.lastRefill ==>
              var r, l := Refilled(b, now), b.limits;
              && r.limits == l && r.lastRefill == now
              && r.packetTokens == Min(b.packetTokens + Passed(l.packetsPerSecond, now - b.lastRefill),
                                       l.packetsPerSecond * 1_000_000_000)
              && r.byteTokens == Min(b.byteTokens + Passed(l.bytesPerSecond, now - b.lastRefill),
                                     Max(l.bytesPerSecond, 65_547) * 1_000_000_000)
  {
    hide Passed, Topped;
    CapacitiesExact(b.limits);
    if now >= b.lastRefill {
      ToppedExact(b.packetTokens, now - b.lastRefill, b.limits.packetsPerSecond, PacketCapacity(b.limits));
      ToppedExact(b.byteTokens, now - b.lastRefill, b.limits.bytesPerSecond, ByteCapacity(b.limits));
    }
  }

  /**
    A reconfiguration refills at the old rate and then cuts the tokens to the new capacities: it hands out no
    token, keeps all that still fit, and with the limits unchanged is a refill.
   */
  lemma ReconfigureExact(b: Bucket, limits: Limits, now: nat)
    requires Valid(b)
    ensures var r, t := Refilled(b, now), Reconfigured(b, limits, now);
            && t.limits == limits && t.lastRefill == r.lastRefill
            && t.packetTokens == Min(r.packetTokens, limits.packetsPerSecond * 1_000_000_000)
            && t.byteTokens == Min(r.byteTokens, Max(limits.bytesPerSecond, 65_547) * 1_000_000_000)
            && (limits == b.limits ==> t == r)
  {
    hide Refilled, PacketCapacity, ByteCapacity;
    CapacitiesExact(limits);
    RefillKeepsValid(b, now);
  }

  /**
    One group of datagrams, in plain numbers: it is admitted exactly if each is a datagram's size and the tokens
    after the refill cover their number and their bytes; it then costs exactly that, and otherwise nothing.
   */
  lemma AdmitExact(b: Bucket, lengths: seq<nat>, now: nat)
    ensures var r, t, sum := Refilled(b, now), Step(b, Admit(lengths, now)), Sum(lengths);
            var sized := && lengths != [] && sum <= U64_MAX
                         && (forall i :: 0 <= i < |lengths| ==> 0 < lengths[i] <= 65_547);
            && (Admits(b, Admit(lengths, now)) <==>
                  && sized && |lengths| * 1_000_000_000 <= r.packetTokens && sum * 1_000_000_000 <= r.byteTokens)
            && (Admits(b, Admit(lengths, now)) ==>
                  t == r.(packetTokens := r.packetTokens - |lengths| * 1_000_000_000,
                          byteTokens := r.byteTokens - sum * 1_000_000_000))
            && (!Admits(b, Admit(lengths, now)) ==> t == if sized then r else b)
  {
    hide Refilled, Sum, PacketCost, ByteCost;
    if Sized(lengths) {
      CostsExact(lengths);
    }
  }

  lemma RefillEarns(b: Bucket, now: nat)
    ensures var r := Refilled(b, now);
            && r.limits == b.limits && r.lastRefill >= b.lastRefill
            && r.packetTokens <= b.packetTokens + Passed(b.limits.packetsPerSecond, r.lastRefill - b.lastRefill)
            && r.byteTokens <= b.byteTokens + Passed(b.limits.bytesPerSecond, r.lastRefill - b.lastRefill)
  {
    hide Passed, Topped;
    NothingPasses(b.limits.packetsPerSecond);
    NothingPasses(b.limits.bytesPerSecond);
    if now >= b.lastRefill {
      ToppedExact(b.packetTokens, now - b.lastRefill, b.limits.packetsPerSecond, PacketCapacity(b.limits));
      ToppedExact(b.byteTokens, now - b.lastRefill, b.limits.bytesPerSecond, ByteCapacity(b.limits));
    }
  }

  /** One operation: what it admits and what it leaves is no more than what was there and what it earned. */
  lemma StepEarns(b: Bucket, op: Op)
    ensures var r := Step(b, op);
            && r.lastRefill >= b.lastRefill
            && r.packetTokens + PacketsAdmitted(b, [op]) * TOKEN_SCALE <=
                 b.packetTokens + Passed(b.limits.packetsPerSecond, r.lastRefill - b.lastRefill)
            && r.byteTokens + BytesAdmitted(b, [op]) * TOKEN_SCALE <=
                 b.byteTokens + Passed(b.limits.bytesPerSecond, r.lastRefill - b.lastRefill)
  {
    hide Passed, Refilled, Sum;
    RefillEarns(b, op.now);
    NothingPasses(b.limits.packetsPerSecond);
    NothingPasses(b.limits.bytesPerSecond);
    assert [op][1..] == [];
    if op.Admit? && Sized(op.lengths) {
      CostsExact(op.lengths);
    }
  }

  /**
    Over every run of admissions and reconfigurations, at any clock readings: what is admitted is covered by
    the tokens at the start and what the highest limits in force earn in the time that passed.
   */
  lemma {:induction false} AdmittedWithinRate(b: Bucket, ops: seq<Op>, packets: nat, bytes: nat)
    requires Within(b, ops, packets, bytes)
    ensures var r := Run(b, ops);
            && r.lastRefill >= b.lastRefill
            && r.packetTokens + PacketsAdmitted(b, ops) * TOKEN_SCALE <=
                 b.packetTokens + Passed(packets, r.lastRefill - b.lastRefill)
            && r.byteTokens + BytesAdmitted(b, ops) * TOKEN_SCALE <=
                 b.byteTokens + Passed(bytes, r.lastRefill - b.lastRefill)
    decreases ops
  {
    hide Passed, Step, Admits, Sum;
    NothingPasses(packets);
    NothingPasses(bytes);
    if ops != [] {
      var s, r := Step(b, ops[0]), Run(b, ops);
      StepKeepsWithin(b, ops, packets, bytes);
      AdmittedWithinRate(s, ops[1..], packets, bytes);
      StepEarns(b, ops[0]);
      assert [ops[0]][1..] == [];
      PassedFaster(b.limits.packetsPerSecond, packets, s.lastRefill - b.lastRefill);
      PassedFaster(b.limits.bytesPerSecond, bytes, s.lastRefill - b.lastRefill);
      PassedAdds(packets, s.lastRefill - b.lastRefill, r.lastRefill - s.lastRefill);
      PassedAdds(bytes, s.lastRefill - b.lastRefill, r.lastRefill - s.lastRefill);
    }
  }

  lemma StepKeepsWithin(b: Bucket, ops: seq<Op>, packets: nat, bytes: nat)
    requires ops != [] && Within(b, ops, packets, bytes)
    ensures Within(Step(b, ops[0]), ops[1..], packets, bytes)
  {
    hide Sum, Affords, Topped;
    forall i | 0 <= i < |ops[1..]| && ops[1..][i].Change?
      ensures ops[1..][i].limits.packetsPerSecond <= packets && ops[1..][i].limits.bytesPerSecond <= bytes
    {
      assert ops[1..][i] == ops[i + 1];
    }
  }

  predicate NoLaterThan(ops: seq<Op>, end: nat) {
    forall i :: 0 <= i < |ops| ==> ops[i].now <= end
  }

  lemma {:induction false} RefillsNoLaterThan(b: Bucket, ops: seq<Op>, end: nat)
    requires b.lastRefill <= end && NoLaterThan(ops, end)
    ensures Run(b, ops).lastRefill <= end
    decreases ops
  {
    hide Topped, Affords, Sum, PacketCapacity, ByteCapacity;
    if ops != [] {
      RefillsNoLaterThan(Step(b, ops[0]), ops[1..], end);
    }
  }

  lemma BurstPlusRateSinceRefill(b: Bucket, ops: seq<Op>, packets: nat, bytes: nat, end: nat)
    requires Valid(b) && Within(b, ops, packets, bytes) && b.lastRefill <= end && NoLaterThan(ops, end)
    ensures PacketsAdmitted(b, ops) * TOKEN_SCALE <=
              PacketCapacity(b.limits) + Passed(packets, end - b.lastRefill)
    ensures BytesAdmitted(b, ops) * TOKEN_SCALE <= ByteCapacity(b.limits) + Passed(bytes, end - b.lastRefill)
  {
    hide Passed, PacketCapacity, ByteCapacity, PacketsAdmitted, BytesAdmitted, Run;
    AdmittedWithinRate(b, ops, packets, bytes);
    RefillsNoLaterThan(b, ops, end);
    PassedGrows(packets, Run(b, ops).lastRefill - b.lastRefill, end - b.lastRefill);
    PassedGrows(bytes, Run(b, ops).lastRefill - b.lastRefill, end - b.lastRefill);
  }

  // ----- windows

  lemma ToppedTwice(tokens: nat, first: nat, second: nat, rate: nat, capacity: nat)
    requires capacity <= U128_MAX
    ensures Topped(Topped(tokens, first, rate, capacity), second, rate, capacity) ==
              Topped(tokens, first + second, rate, capacity)
  {
    hide Topped, Passed;
    ToppedExact(tokens, first, rate, capacity);
    ToppedExact(Topped(tokens, first, rate, capacity), second, rate, capacity);
    ToppedExact(tokens, first + second, rate, capacity);
    PassedAdds(rate, first, second);
  }

  /** An extra refill on the way does not show. */
  lemma RefillTwice(b: Bucket, start: nat, now: nat)
    requires b.lastRefill <= start <= now
    ensures Refilled(Refilled(b, start), now) == Refilled(b, now)
  {
    hide Topped;
    var first, second := start - b.lastRefill, now - start;
    assert first + second == now - b.lastRefill;
    ToppedTwice(b.packetTokens, first, second, b.limits.packetsPerSecond, PacketCapacity(b.limits));
    ToppedTwice(b.byteTokens, first, second, b.limits.bytesPerSecond, ByteCapacity(b.limits));
  }

  predicate NoEarlierThan(ops: seq<Op>, start: nat) {
    forall i :: 0 <= i < |ops| ==> start <= ops[i].now
  }

  /** So what a run admits from `start` on is what it admits after a refill at `start`. */
  lemma {:induction false} AdmittedFromRefill(b: Bucket, start: nat, ops: seq<Op>)
    requires b.lastRefill <= start && NoEarlierThan(ops, start)
    ensures PacketsAdmitted(Refilled(b, start), ops) == PacketsAdmitted(b, ops)
    ensures BytesAdmitted(Refilled(b, start), ops) == BytesAdmitted(b, ops)
    decreases ops
  {
    hide Refilled, Affords, Sum, Sized;
    if ops != [] {
      RefillTwice(b, start, ops[0].now);
      if ops[0].Admit? && !Sized(ops[0].lengths) {
        AdmittedFromRefill(b, start, ops[1..]);
      }
    }
  }

  lemma RefillKeepsValid(b: Bucket, now: nat)
    requires Valid(b)
    ensures Valid(Refilled(b, now)) && Refilled(b, now).limits == b.limits
    ensures b.lastRefill <= now ==> Refilled(b, now).lastRefill == now
  {
    hide SatMul128, SatAdd128;
  }

  /**
    In every window: at most one burst and what the rate earns in the window, however long the limiter was
    idle before it and wherever the clock stood at its last refill.
   */
  lemma BurstPlusRate(b: Bucket, ops: seq<Op>, packets: nat, bytes: nat, start: nat, end: nat)
    requires Valid(b) && Within(b, ops, packets, bytes)
    requires start <= end && NoEarlierThan(ops, start) && NoLaterThan(ops, end)
    ensures PacketsAdmitted(b, ops) * TOKEN_SCALE <= PacketCapacity(b.limits) + Passed(packets, end - start)
    ensures BytesAdmitted(b, ops) * TOKEN_SCALE <= ByteCapacity(b.limits) + Passed(bytes, end - start)
  {
    hide Passed, PacketCapacity, ByteCapacity, PacketsAdmitted, BytesAdmitted, Run, Refilled, Valid;
    if b.lastRefill <= start {
      RefillKeepsValid(b, start);
      AdmittedFromRefill(b, start, ops);
      BurstPlusRateSinceRefill(Refilled(b, start), ops, packets, bytes, end);
    } else {
      var reached := Max(b.lastRefill, end);
      BurstPlusRateSinceRefill(b, ops, packets, bytes, reached);
      PassedGrows(packets, reached - b.lastRefill, end - start);
      PassedGrows(bytes, reached - b.lastRefill, end - start);
    }
  }

  lemma {:induction false} RunKeepsValid(b: Bucket, ops: seq<Op>)
    requires Valid(b)
    ensures Valid(Run(b, ops))
    decreases ops
  {
    hide Step, Valid;
    if ops != [] {
      StepKeepsValid(b, ops[0]);
      RunKeepsValid(Step(b, ops[0]), ops[1..]);
    }
  }

  lemma FullIsValid(limits: Limits, now: nat)
    ensures Valid(Full(limits, now))
  {
  }

  /** The same for a window anywhere in the life of a limiter: `before` is all that came first. */
  lemma EveryWindow(
    limits: Limits, created: nat, before: seq<Op>, window: seq<Op>, packets: nat, bytes: nat, start: nat, end: nat)
    requires Within(Run(Full(limits, created), before), window, packets, bytes)
    requires start <= end && NoEarlierThan(window, start) && NoLaterThan(window, end)
    ensures var b := Run(Full(limits, created), before);
            && PacketsAdmitted(b, window) * 1_000_000_000 <=
                 b.limits.packetsPerSecond * 1_000_000_000 + Passed(packets, end - start)
            && BytesAdmitted(b, window) * 1_000_000_000 <=
                 Max(b.limits.bytesPerSecond, 65_547) * 1_000_000_000 + Passed(bytes, end - start)
  {
    hide Run, Within, Passed, PacketsAdmitted, BytesAdmitted, PacketCapacity, ByteCapacity;
    CapacitiesExact(Run(Full(limits, created), before).limits);
    FullIsValid(limits, created);
    RunKeepsValid(Full(limits, created), before);
    BurstPlusRate(Run(Full(limits, created), before), window, packets, bytes, start, end);
  }

  // ----- no starvation

  lemma StepKeepsValid(b: Bucket, op: Op)
    requires Valid(b)
    ensures Valid(Step(b, op))
  {
    hide Sum, PacketCost, ByteCost, SatMul128, SatAdd128;
  }

  /** Left alone until full, the limiter admits any one datagram, however large, at any limits. */
  lemma IdleLimiterAdmits(b: Bucket, length: nat, now: nat)
    requires 0 < length <= MAX_DATAGRAM_LEN && b.limits.packetsPerSecond > 0
    requires now >= b.lastRefill
    requires Passed(b.limits.packetsPerSecond, now - b.lastRefill) >= PacketCapacity(b.limits)
    requires Passed(b.limits.bytesPerSecond, now - b.lastRefill) >= ByteCapacity(b.limits)
    ensures Admits(b, Admit([length], now))
  {
    hide Passed, Topped;
    ToppedExact(b.packetTokens, now - b.lastRefill, b.limits.packetsPerSecond, PacketCapacity(b.limits));
    ToppedExact(b.byteTokens, now - b.lastRefill, b.limits.bytesPerSecond, ByteCapacity(b.limits));
    assert [length][..0] == [];
    assert Sum([length]) == length;
  }
}
