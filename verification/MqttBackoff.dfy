// The MQTT reconnect backoff: a shift of the initial delay by the number of attempts.
module MqttBackoff {
  import opened Wrappers
  import opened MachineInts
  import opened BackoffCalls
  import WifiBackoff

  datatype ConfigError = InvalidReconnectPolicy

  datatype Policy = Policy(initial: u32, maximum: u32, jitter: u32) {
    predicate Accepted() {
      0 < initial <= maximum
    }
  }

  const DEFAULT_POLICY := Policy(1_000, 60_000, 250)

  function NewPolicy(initial: u32, maximum: u32, jitter: u32): (r: Result<Policy, ConfigError>)
    ensures r.Ok? <==> 0 < initial <= maximum
    ensures r.Ok? ==> r.value.Accepted() && r.value == Policy(initial, maximum, jitter)
  {
    if initial == 0 || maximum < initial then Err(InvalidReconnectPolicy)
    else Ok(Policy(initial, maximum, jitter))
  }

  /** `u32::checked_shl`: it rejects only shifts of 32 or more, and drops the high bits. */
  function CheckedShl(x: u32, shift: nat): Option<u32> {
    if shift < 32 then Some((x * Pow2(shift)) % U32_LIMIT) else None
  }

  function JitterOf(p: Policy, entropy: u32): u32 {
    if p.jitter == 0 then 0 else entropy % SaturatingAddU32(p.jitter, 1)
  }

  function AttemptsAfter(c: Calls): u8 {
    match c
    case Unused => 0
    case Next(past, _) => Min(AttemptsAfter(past) + 1, 255)
    case Reset(_) => 0
  }

  /** The delay that the next call gives, by the number of attempts counted so far. */
  function Delay(p: Policy, attempts: u8, entropy: u32): u32 {
    var shifted := CheckedShl(p.initial, Min(attempts, 31));
    var base := Min(if shifted.Some? then shifted.value else U32_MAX, p.maximum);
    Min(SaturatingAddU32(base, JitterOf(p, entropy)), p.maximum)
  }

  function DelayAfter(p: Policy, c: Calls, entropy: u32): u32 {
    Delay(p, AttemptsAfter(c), entropy)
  }

  class ReconnectBackoff {
    const policy: Policy
    var attempts: u8
    ghost var calls: Calls

    ghost predicate Valid()
      reads this
    {
      policy.Accepted() && attempts == AttemptsAfter(calls)
    }

    constructor (policy: Policy)
      requires policy.Accepted()
      ensures Valid() && calls == Unused && this.policy == policy
    {
      this.policy := policy;
      attempts := 0;
      calls := Unused;
    }

    method NextDelay(jitter: u32) returns (delay: u32)
      requires Valid()
      modifies this
      ensures Valid() && calls == Next(old(calls), jitter)
      ensures var n := SinceReset(old(calls));
        delay == Min(Min((policy.initial * Pow2(Min(n, 31))) % 0x1_0000_0000, policy.maximum) +
                     (if policy.jitter == 0xFFFF_FFFF then jitter % 0xFFFF_FFFF else jitter % (policy.jitter + 1)),
                     policy.maximum)
      ensures attempts == Min(SinceReset(calls), 255)
    {
      ClosedForm(policy, calls, jitter);
      var shift := Min(attempts, 31);
      var shifted := CheckedShl(policy.initial, shift);
      var base := Min(if shifted.Some? then shifted.value else U32_MAX, policy.maximum);
      attempts := Min(attempts + 1, 255);
      calls := Next(calls, jitter);
      var j := 0;
      if policy.jitter != 0 {
        j := jitter % SaturatingAddU32(policy.jitter, 1);
      }
      delay := Min(SaturatingAddU32(base, j), policy.maximum);
      AttemptsCount(calls);
    }

    method ResetSequence()
      requires Valid()
      modifies this
      ensures Valid() && calls == Reset(old(calls)) && attempts == 0
    {
      attempts := 0;
      calls := Reset(calls);
    }
  }

  /* ---------- the closed form ---------- */

  function Base(p: Policy, n: nat): nat {
    Min((p.initial * Pow2(Min(n, 31))) % U32_LIMIT, p.maximum)
  }

  /** What bounded exponential backoff means. */
  function Ideal(p: Policy, n: nat): nat {
    Min(p.initial * Pow2(n), p.maximum)
  }

  lemma {:induction false} AttemptsCount(c: Calls)
    ensures AttemptsAfter(c) == Min(SinceReset(c), 255)
  {
    if c.Next? {
      AttemptsCount(c.past);
    }
  }

  /** After any interleaving of delays and resets; the delay never exceeds the maximum. */
  lemma ClosedForm(p: Policy, c: Calls, entropy: u32)
    requires p.Accepted()
    ensures DelayAfter(p, c, entropy) == Min(Base(p, SinceReset(c)) + JitterOf(p, entropy), p.maximum)
    ensures Base(p, SinceReset(c)) <= DelayAfter(p, c, entropy) <= p.maximum
  {
    AttemptsCount(c);
  }

  lemma IdealGrows(p: Policy, m: nat, n: nat)
    requires m <= n
    ensures Ideal(p, m) <= Ideal(p, n)
  {
    Pow2Monotone(m, n);
    if Pow2(m) < Pow2(n) && p.initial > 0 {
      ScaledGap(Pow2(m), Pow2(n), p.initial);
    }
  }

  lemma FittingShift(p: Policy, n: nat)
    requires p.Accepted() && p.initial * Pow2(n) < U32_LIMIT
    ensures n <= 31
  {
    if n > 31 {
      Pow2Values();
      Pow2Monotone(32, n);
      if p.initial > 1 {
        ScaledGap(1, p.initial, Pow2(n));
      }
    }
  }

  /** The base is the ideal one exactly while the shifted value fits, or where its low bits still reach the maximum. */
  lemma MeetsIdealIff(p: Policy, n: nat)
    requires p.Accepted()
    ensures Base(p, n) == Ideal(p, n) <==>
            p.initial * Pow2(n) < U32_LIMIT || (p.initial * Pow2(Min(n, 31))) % U32_LIMIT >= p.maximum
  {
    var exact := p.initial * Pow2(n);
    if exact < U32_LIMIT {
      FittingShift(p, n);
      PositiveProduct(p.initial, Pow2(n));
      RemainderIsUnique(exact, U32_LIMIT, 0, exact);
    } else {
      assert Ideal(p, n) == p.maximum;
    }
  }

  /* ---------- where the shift loses the delay ---------- */

  /** How the low bits of the shifted value come from the initial delay. */
  lemma ShiftedBits(x: u32, s: nat)
    requires s <= 31
    ensures (x * Pow2(s)) % U32_LIMIT == (x % Pow2(32 - s)) * Pow2(s)
  {
    Pow2Add(32 - s, s);
    Pow2Values();
    ScaledRemainder(x, Pow2(32 - s), Pow2(s));
  }

  /** The base is zero exactly when every set bit of the initial delay has been shifted out. */
  lemma ZeroIff(p: Policy, n: nat)
    requires p.Accepted()
    ensures Base(p, n) == 0 <==> p.initial % Pow2(32 - Min(n, 31)) == 0
  {
    var s := Min(n, 31);
    ShiftedBits(p.initial, s);
    var low := p.initial % Pow2(32 - s);
    if low > 0 {
      PositiveProduct(low, Pow2(s));
    }
  }

  /** An even initial delay ends at a base of zero from the thirty-second attempt on; an odd one never gets there. */
  lemma EvenInitialCollapses(p: Policy, n: nat)
    requires p.Accepted()
    ensures p.initial % 2 == 0 && n >= 31 ==> Base(p, n) == 0
    ensures p.initial % 2 == 1 ==> Base(p, n) > 0
  {
    ZeroIff(p, n);
    var s := Min(n, 31);
    Pow2Values();
    if p.initial % Pow2(32 - s) == 0 {
      FactorDivides(p.initial, 2, Pow2(31 - s));
    }
  }

  /**
    * As long as initial times maximum fits, the policy is exactly bounded exponential backoff until the
    * initial delay has been shifted out, and has a base of zero from then on.
    */
  lemma IdealUntilShiftedOut(p: Policy, n: nat)
    requires p.Accepted() && p.initial * p.maximum <= U32_LIMIT && p.maximum <= 0x8000_0000
    ensures Base(p, n) == Ideal(p, n) <==> p.initial % Pow2(32 - Min(n, 31)) != 0
    ensures Base(p, n) != Ideal(p, n) ==> Base(p, n) == 0
  {
    ZeroIff(p, n);
    MeetsIdealIff(p, n);
    PositiveProduct(p.initial, Pow2(n));
    if p.initial * Pow2(n) >= U32_LIMIT && p.initial % Pow2(32 - Min(n, 31)) != 0 {
      OverflowLeavesMaximum(p, n);
    }
  }

  /** Past the overflow, whatever is left of the shifted value still reaches the maximum. */
  lemma OverflowLeavesMaximum(p: Policy, n: nat)
    requires p.Accepted() && p.initial * p.maximum <= U32_LIMIT && p.maximum <= 0x8000_0000
    requires p.initial * Pow2(n) >= U32_LIMIT && p.initial % Pow2(32 - Min(n, 31)) != 0
    ensures (p.initial * Pow2(Min(n, 31))) % U32_LIMIT >= p.maximum
  {
    var s := Min(n, 31);
    ShiftedBits(p.initial, s);
    ShiftReachesMaximum(p, n);
    TimesAtLeastOne(p.initial % Pow2(32 - s), Pow2(s));
  }

  lemma TimesAtLeastOne(x: nat, y: nat)
    requires x > 0
    ensures x * y >= y
  {
  }

  lemma PositiveProduct(x: nat, y: nat)
    requires x > 0 && y > 0
    ensures x * y > 0
  {
  }

  /** Once the shifted value has overflowed, the lowest bit it can have left already reaches the maximum. */
  lemma ShiftReachesMaximum(p: Policy, n: nat)
    requires p.Accepted() && p.initial * p.maximum <= U32_LIMIT && p.maximum <= 0x8000_0000
    requires p.initial * Pow2(n) >= U32_LIMIT
    ensures Pow2(Min(n, 31)) >= p.maximum
  {
    if n <= 31 {
      if Pow2(n) < p.maximum {
        ScaledGap(Pow2(n), p.maximum, p.initial);
      }
    } else {
      Pow2Values();
    }
  }

  /** Under the same bounds a policy is bounded exponential backoff for ever if and only if its initial delay is odd. */
  lemma IdealForeverIff(p: Policy)
    requires p.Accepted() && p.initial * p.maximum <= U32_LIMIT && p.maximum <= 0x8000_0000
    ensures (forall n: nat :: Base(p, n) == Ideal(p, n)) <==> p.initial % 2 == 1
  {
    if p.initial % 2 == 1 {
      forall n: nat
        ensures Base(p, n) == Ideal(p, n)
      {
        IdealUntilShiftedOut(p, n);
        EvenInitialCollapses(p, n);
      }
    } else {
      EvenInitialCollapses(p, 31);
      PositiveProduct(p.initial, Pow2(31));
    }
  }

  /** The default policy is ideal for its first twenty-nine delays, and its base is zero after them. */
  lemma DefaultPolicyCollapses(n: nat)
    ensures Base(DEFAULT_POLICY, n) == Ideal(DEFAULT_POLICY, n) <==> n <= 28
    ensures n >= 29 ==> Base(DEFAULT_POLICY, n) == 0
  {
    IdealUntilShiftedOut(DEFAULT_POLICY, n);
    ThousandDivides(32 - Min(n, 31));
  }

  /** From the thirtieth attempt on, nothing but the jitter is left of the default delay. */
  lemma DefaultDelayCollapses(attempts: u8, entropy: u32)
    requires attempts >= 29
    ensures Delay(DEFAULT_POLICY, attempts, entropy) == entropy % 251
  {
    DefaultPolicyCollapses(attempts);
  }

  /** Before that, the default policy doubles from one second up to sixty, with a quarter of a second of jitter. */
  lemma DefaultDelaysDouble(c: Calls, entropy: u32)
    requires SinceReset(c) <= 28
    ensures DelayAfter(DEFAULT_POLICY, c, entropy) == Min(Min(1_000 * Pow2(SinceReset(c)), 60_000) + entropy % 251, 60_000)
  {
    ClosedForm(DEFAULT_POLICY, c, entropy);
    DefaultPolicyCollapses(SinceReset(c));
  }

  lemma ThousandDivides(k: nat)
    ensures 1_000 % Pow2(k) == 0 <==> k <= 3
  {
    Pow2Values();
    if k > 3 && 1_000 % Pow2(k) == 0 {
      Pow2Add(4, k - 4);
      FactorDivides(1_000, 16, Pow2(k - 4));
    }
  }

  /* ---------- against the Wi-Fi backoff ---------- */

  /**
    * With the same initial and maximum delay and no jitter, the Wi-Fi accumulator and the MQTT shift give
    * the same delay after the same calls exactly where the shift meets the ideal.
    */
  lemma AgreesWithWifi(initial: u32, maximum: u32, c: Calls, entropy: u32)
    requires 0 < initial <= maximum
    ensures var n := SinceReset(c);
      DelayAfter(Policy(initial, maximum, 0), c, entropy) ==
      WifiBackoff.DelayAfter(WifiBackoff.Policy(initial, maximum, 0), c, entropy)
      <==> initial * Pow2(n) < U32_LIMIT || (initial * Pow2(Min(n, 31))) % U32_LIMIT >= maximum
  {
    ClosedForm(Policy(initial, maximum, 0), c, entropy);
    WifiBackoff.ClosedForm(WifiBackoff.Policy(initial, maximum, 0), c, entropy);
    MeetsIdealIff(Policy(initial, maximum, 0), SinceReset(c));
  }
}
