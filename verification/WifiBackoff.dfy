// The Wi-Fi reconnect backoff: a doubling accumulator with jitter inside its bound.
module WifiBackoff {
  import opened Wrappers
  import opened MachineInts
  import opened BackoffCalls

  datatype ConfigError = InvalidReconnectPolicy

  datatype Policy = Policy(initial: u32, maximum: u32, jitterMax: u32) {
    predicate Accepted() {
      0 < initial <= maximum && jitterMax < maximum
    }
  }

  const DEFAULT_POLICY := Policy(1_000, 60_000, 500)

  function NewPolicy(initial: u32, maximum: u32, jitterMax: u32): (r: Result<Policy, ConfigError>)
    ensures r.Ok? <==> 0 < initial <= maximum && jitterMax < maximum
    ensures r.Ok? ==> r.value.Accepted() && r.value == Policy(initial, maximum, jitterMax)
  {
    if initial == 0 || initial > maximum || jitterMax >= maximum then Err(InvalidReconnectPolicy)
    else Ok(Policy(initial, maximum, jitterMax))
  }

  datatype State = State(nextBase: u32, attempts: u32)

  function MaximumBase(p: Policy): u32
    requires p.Accepted()
  {
    p.maximum - p.jitterMax
  }

  function SaturatingDouble(x: u32): u32 {
    Min(2 * x, U32_MAX)
  }

  function Jitter(p: Policy, entropy: u32): u32
    requires p.Accepted()
  {
    if p.jitterMax == 0 then 0 else entropy % (p.jitterMax + 1)
  }

  function Advance(p: Policy, s: State): State
    requires p.Accepted()
  {
    var base := Min(s.nextBase, MaximumBase(p));
    State(Min(SaturatingDouble(base), MaximumBase(p)), SaturatingAddU32(s.attempts, 1))
  }

  /** The state after any interleaving of delays and resets. */
  function StateAfter(p: Policy, c: Calls): State
    requires p.Accepted()
  {
    match c
    case Unused => State(p.initial, 0)
    case Next(past, _) => Advance(p, StateAfter(p, past))
    case Reset(_) => State(p.initial, 0)
  }

  /** The delay that the next call gives, clamps and saturation included. */
  function DelayAfter(p: Policy, c: Calls, entropy: u32): u32
    requires p.Accepted()
  {
    var base := Min(StateAfter(p, c).nextBase, MaximumBase(p));
    Min(SaturatingAddU32(base, Jitter(p, entropy)), p.maximum)
  }

  class ReconnectBackoff {
    const policy: Policy
    var nextBase: u32
    var attempts: u32
    ghost var calls: Calls

    ghost predicate Valid()
      reads this
    {
      policy.Accepted() && State(nextBase, attempts) == StateAfter(policy, calls)
    }

    constructor (policy: Policy)
      requires policy.Accepted()
      ensures Valid() && calls == Unused && this.policy == policy
    {
      this.policy := policy;
      nextBase, attempts := policy.initial, 0;
      calls := Unused;
    }

    method NextDelay(entropy: u32) returns (delay: u32)
      requires Valid()
      modifies this
      ensures Valid() && calls == Next(old(calls), entropy)
      ensures delay == Min(policy.initial * Pow2(SinceReset(old(calls))), policy.maximum - policy.jitterMax)
                       + entropy % (policy.jitterMax + 1)
      ensures 1 <= delay <= policy.maximum
      ensures attempts == Min(SinceReset(calls), U32_MAX)
    {
      ClosedForm(policy, calls, entropy);
      var maximumBase := if policy.jitterMax <= policy.maximum then policy.maximum - policy.jitterMax else 0;
      var base := Min(nextBase, maximumBase);
      var jitter := 0;
      if policy.jitterMax != 0 {
        jitter := entropy % (policy.jitterMax + 1);
      }
      nextBase := Min(SaturatingDouble(base), maximumBase);
      attempts := SaturatingAddU32(attempts, 1);
      calls := Next(calls, entropy);
      delay := Min(SaturatingAddU32(base, jitter), policy.maximum);
    }

    method ResetSequence()
      requires Valid()
      modifies this
      ensures Valid() && calls == Reset(old(calls)) && attempts == 0
    {
      nextBase, attempts := policy.initial, 0;
      calls := Reset(calls);
    }
  }

  /* ---------- the closed form ---------- */

  /** The base of the n-th delay since the last reset. */
  function Base(p: Policy, n: nat): nat
    requires p.Accepted()
  {
    Min(p.initial * Pow2(n), MaximumBase(p))
  }

  /**
    * The accumulator computes the closed form: bounded doubling plus jitter, between one and the maximum.
    * Neither the saturating doubling, nor the saturating addition, nor the final clamp ever changes it.
    */
  lemma ClosedForm(p: Policy, c: Calls, entropy: u32)
    requires p.Accepted()
    ensures DelayAfter(p, c, entropy) == Base(p, SinceReset(c)) + Jitter(p, entropy)
    ensures 1 <= DelayAfter(p, c, entropy) <= p.maximum
    ensures StateAfter(p, c).attempts == Min(SinceReset(c), U32_MAX)
    ensures Jitter(p, entropy) == entropy % (p.jitterMax + 1) <= p.jitterMax
  {
    AccumulatorDoubles(p, c);
    PositiveBase(p, SinceReset(c));
  }

  lemma {:induction false} AccumulatorDoubles(p: Policy, c: Calls)
    requires p.Accepted()
    ensures Min(StateAfter(p, c).nextBase, MaximumBase(p)) == Base(p, SinceReset(c))
    ensures StateAfter(p, c).attempts == Min(SinceReset(c), U32_MAX)
  {
    match c
    case Unused =>
    case Reset(_) =>
    case Next(past, _) =>
      AccumulatorDoubles(p, past);
      ScaledTwice(p.initial, SinceReset(past));
      DoublesBelow(StateAfter(p, past).nextBase, p.initial * Pow2(SinceReset(past)), MaximumBase(p));
  }

  lemma ScaledTwice(x: u32, n: nat)
    ensures x * Pow2(n + 1) == 2 * (x * Pow2(n)) && x * Pow2(n) >= 0
  {
    assert Pow2(n + 1) == 2 * Pow2(n);
  }

  /** Clamping before doubling, and saturating while doubling, make no difference below the bound. */
  lemma DoublesBelow(next: u32, exact: nat, bound: u32)
    requires Min(next, bound) == Min(exact, bound)
    ensures Min(Min(SaturatingDouble(Min(next, bound)), bound), bound) == Min(2 * exact, bound)
  {
  }

  lemma PositiveBase(p: Policy, n: nat)
    requires p.Accepted()
    ensures Base(p, n) >= 1
  {
    if Pow2(n) > 1 {
      ScaledGap(1, Pow2(n), p.initial);
    }
  }

  /** The default policy: doubling from one second up to 59.5, and half a second of jitter. */
  lemma DefaultDelays(c: Calls, entropy: u32)
    ensures DelayAfter(DEFAULT_POLICY, c, entropy) == Min(1_000 * Pow2(SinceReset(c)), 59_500) + entropy % 501
  {
    ClosedForm(DEFAULT_POLICY, c, entropy);
  }

  /** Later bases are never shorter. */
  lemma BaseGrows(p: Policy, m: nat, n: nat)
    requires p.Accepted() && m <= n
    ensures Base(p, m) <= Base(p, n)
  {
    Pow2Monotone(m, n);
    assert p.initial * Pow2(m) <= p.initial * Pow2(n) by {
      if Pow2(m) < Pow2(n) {
        ScaledGap(Pow2(m), Pow2(n), p.initial);
      }
    }
  }
}
