// The fixed-width integers of the firmware, and the Rust operations on them that the model needs.
module MachineInts {
  import opened Wrappers

  const U32_LIMIT := 0x1_0000_0000
  const U32_MAX := 0xFFFF_FFFF
  const I32_MAX := 0x7FFF_FFFF
  const I32_MIN := -0x8000_0000
  const I16_MIN := -0x8000

  type byte = x: int | 0 <= x < 0x100
  type u8 = byte
  type u16 = x: int | 0 <= x < 0x1_0000
  type u32 = x: int | 0 <= x < 0x1_0000_0000
  type u64 = x: int | 0 <= x < 0x1_0000_0000_0000_0000
  type i8 = x: int | -0x80 <= x < 0x80
  type i16 = x: int | -0x8000 <= x < 0x8000
  type i32 = x: int | -0x8000_0000 <= x < 0x8000_0000

  /** `u32::wrapping_add`. */
  function WrappingAddU32(a: u32, b: u32): (r: u32)
    ensures r == a + b || r == a + b - 0x1_0000_0000
  {
    (a + b) % U32_LIMIT
  }

  /** `u32::saturating_add`. */
  function SaturatingAddU32(a: u32, b: u32): (r: u32)
    ensures r <= a + b && (r == a + b || r == 0xFFFF_FFFF)
  {
    Min(a + b, U32_MAX)
  }

  /** `i32::saturating_add`. */
  function SaturatingAddI32(a: i32, b: i32): (r: i32)
    ensures r == a + b || (r == 0x7FFF_FFFF && r < a + b) || (r == -0x8000_0000 && a + b < r)
  {
    Max(I32_MIN, Min(a + b, I32_MAX))
  }

  /** `u64::saturating_sub`. */
  function SaturatingSubU64(a: u64, b: u64): (r: u64)
    ensures b + r == if b <= a then a else b
  {
    Max(a - b, 0)
  }

  /** Rust's `/`, which truncates toward zero, for a positive divisor. */
  function TruncatingDiv(a: int, b: int): int
    requires 0 < b
  {
    if 0 <= a then a / b else -((-a) / b)
  }

  /** Rust's `as i16`, which keeps the low sixteen bits. */
  function AsI16(x: int): (r: i16)
    ensures (x - r) % 0x1_0000 == 0
  {
    var low := x % 0x1_0000;
    if low < 0x8000 then low else low - 0x1_0000
  }

  /** A wrapping counter holds the true count modulo 2^32. */
  lemma WrappingCounts(n: nat)
    ensures WrappingAddU32(n % U32_LIMIT, 1) == (n + 1) % U32_LIMIT
    ensures n <= U32_MAX ==> n % U32_LIMIT == n
  {
  }

  lemma AsI16Keeps(x: int)
    requires -0x8000 <= x < 0x8000
    ensures AsI16(x) == x
  {
  }

  function Pow2(n: nat): (p: nat)
    ensures 1 <= p
  {
    if n == 0 then 1 else 2 * Pow2(n - 1)
  }

  /** Multiplying a strict inequality by a positive number leaves a gap of at least that number. */
  lemma {:induction false} ScaledGap(x: int, y: int, b: int)
    requires 0 < b && x < y
    ensures x * b + b <= y * b
    decreases y - x
  {
    assert y * b == (y - 1) * b + b;
    if x + 1 < y {
      ScaledGap(x, y - 1, b);
    }
  }

  function Abs(x: int): nat {
    if 0 <= x then x else -x
  }

  /** The quotient has the sign of the dividend and is the largest that fits into it. */
  lemma TruncatesTowardZero(a: int, b: int)
    requires 0 < b
    ensures var q := TruncatingDiv(a, b);
      && Abs(q) * b <= Abs(a) < Abs(q) * b + b
      && (0 <= a ==> 0 <= q) && (a <= 0 ==> q <= 0)
  {
    var q := Abs(a) / b;
    assert Abs(a) == b * q + Abs(a) % b;
    assert Abs(TruncatingDiv(a, b)) == q;
  }

  /** Bounds on a quotient carry over from bounds on the dividend. */
  lemma TruncatingDivBounds(a: int, b: int, low: int, high: int)
    requires 0 < b && low * b <= a <= high * b
    ensures low <= TruncatingDiv(a, b) <= high
  {
    var magnitude := if 0 <= a then a else -a;
    var q := magnitude / b;
    assert q * b <= magnitude < q * b + b;
    var signed := TruncatingDiv(a, b);
    assert signed * b == if 0 <= a then q * b else -(q * b);
    if high < signed {
      ScaledGap(high, signed, b);
    }
    if signed < low {
      ScaledGap(signed, low, b);
    }
  }

  lemma {:induction false} Pow2Monotone(m: nat, n: nat)
    requires m <= n
    ensures Pow2(m) <= Pow2(n)
    decreases n
  {
    if m < n {
      Pow2Monotone(m, n - 1);
    }
  }

  lemma {:induction false} Pow2Add(m: nat, n: nat)
    ensures Pow2(m + n) == Pow2(m) * Pow2(n)
  {
    if m > 0 {
      Pow2Add(m - 1, n);
    }
  }

  /** Quotient and remainder are determined by the equation they satisfy. */
  lemma RemainderIsUnique(x: int, m: int, k: int, r: int)
    requires x == m * k + r && 0 <= r < m
    ensures x % m == r
  {
    var q := x / m;
    assert x == m * q + x % m;
    if q < k {
      ScaledGap(q, k, m);
    } else if k < q {
      ScaledGap(k, q, m);
    }
  }

  /** Scaling both sides scales the remainder. */
  lemma ScaledRemainder(x: nat, q: nat, p: nat)
    requires 0 < q && 0 < p
    ensures 0 < q * p && (x * p) % (q * p) == (x % q) * p
  {
    var k, r := x / q, x % q;
    assert x == q * k + r;
    calc {
      x * p;
      (q * k + r) * p;
      (q * k) * p + r * p;
      { assert (q * k) * p == (q * p) * k; }
      (q * p) * k + r * p;
    }
    ScaledGap(r, q, p);
    assert 0 <= r * p < q * p;
    RemainderIsUnique(x * p, q * p, k, r * p);
  }

  lemma Pow2Values()
    ensures Pow2(1) == 2 && Pow2(2) == 4 && Pow2(3) == 8 && Pow2(4) == 16
    ensures Pow2(31) == 0x8000_0000 && Pow2(32) == U32_LIMIT
  {
    assert Pow2(4) == 2 * Pow2(3) == 4 * Pow2(2) == 8 * Pow2(1);
    Pow2Add(4, 4);
    Pow2Add(8, 8);
    Pow2Add(16, 16);
    assert Pow2(32) == 2 * Pow2(31);
  }

  /** What a product divides, its factors divide. */
  lemma FactorDivides(x: nat, a: nat, b: nat)
    requires 0 < a && 0 < a * b && x % (a * b) == 0
    ensures x % a == 0
  {
    var q := x / (a * b);
    assert x == (a * b) * q;
    assert (a * b) * q == a * (b * q);
    RemainderIsUnique(x, a, b * q, 0);
  }
}
