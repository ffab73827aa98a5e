/** Rate times time: a product of two variables, kept in one place with the few laws its users need. */
module Rates {

  /** What passes in `nanos` nanoseconds at `rate`, in billionths of the rate's unit. */
  function Passed(rate: nat, nanos: nat): nat {
    rate * nanos
  }

  lemma PassedAdds(rate: nat, a: nat, b: nat)
    ensures Passed(rate, a + b) == Passed(rate, a) + Passed(rate, b)
  {
  }

  lemma PassedGrows(rate: nat, a: nat, b: nat)
    requires a <= b
    ensures Passed(rate, a) <= Passed(rate, b)
    ensures rate > 0 && a < b ==> Passed(rate, a) < Passed(rate, b)
  {
    PassedAdds(rate, a, b - a);
  }

  lemma PassedFaster(slow: nat, fast: nat, nanos: nat)
    requires slow <= fast
    ensures Passed(slow, nanos) <= Passed(fast, nanos)
  {
    assert fast * nanos == slow * nanos + (fast - slow) * nanos;
  }

  lemma NothingPasses(rate: nat)
    ensures Passed(rate, 0) == 0
  {
  }

  lemma OnePasses(rate: nat)
    ensures Passed(rate, 1) == rate
  {
  }
}
