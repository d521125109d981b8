/** Machine integers, bytes, durations and the clock, shared by the components. */
module Machine {

  datatype Option<+T> = None | Some(value: T)

  const U32_MAX: nat := 0xFFFF_FFFF
  const U64_MAX: nat := 0xFFFF_FFFF_FFFF_FFFF
  const NANOS_PER_SECOND: nat := 1_000_000_000

  /** The longest `std::time::Duration`: 2^64 - 1 seconds plus 999_999_999 nanoseconds. */
  const MAX_DURATION: nat := 18_446_744_073_709_551_615_999_999_999

  type u32 = x: nat | x <= U32_MAX
  type u64 = x: nat | x <= U64_MAX
  type NonZeroU32 = x: nat | 1 <= x <= U32_MAX witness 1

  type byte = b: nat | b < 256

  /** An ASCII decimal digit. */
  predicate Digit(b: byte) { 0x30 <= b <= 0x39 }

  /** A duration in nanoseconds. */
  type Duration = d: nat | d <= MAX_DURATION

  /** A reading of the monotone clock, in nanoseconds. */
  type Instant = nat

  /** `Instant::duration_since`, which yields zero when `earlier` is in the future. */
  function Elapsed(now: Instant, earlier: Instant): nat {
    if now < earlier then 0 else now - earlier
  }

  function Min(a: nat, b: nat): nat {
    if a <= b then a else b
  }

  /** A cancellation token as seen by one loop: the instant at which the adversary fires it.
      `Quiet` stands for a token that never fires and for no token at all. */
  datatype Token = Quiet | FiresAt(at: Instant) {
    predicate Cancelled(now: Instant) {
      FiresAt? && at <= now
    }
  }
}

/** src/backoff.rs: the delay arithmetic and the cancel-aware sleep. */
module Backoff {
  import opened Machine

  function Pow2(n: nat): (r: nat)
    ensures r >= 1
  {
    if n == 0 then 1 else 2 * Pow2(n - 1)
  }

  lemma {:induction false} Pow2Monotone(m: nat, n: nat)
    requires m <= n
    ensures Pow2(m) <= Pow2(n)
    decreases n
  {
    if m == n {
    } else {
      Pow2Monotone(m, n - 1);
    }
  }

  lemma {:induction false} Pow2Sum(m: nat, n: nat)
    ensures Pow2(m + n) == Pow2(m) * Pow2(n)
  {
    if m == 0 {
    } else {
      Pow2Sum(m - 1, n);
    }
  }

  lemma Pow2Values()
    ensures Pow2(31) == 0x8000_0000 && Pow2(32) == 0x1_0000_0000
  {
    assert Pow2(4) == 16;
    Pow2Sum(4, 4);
    Pow2Sum(8, 8);
    Pow2Sum(16, 16);
    assert Pow2(32) == 2 * Pow2(31);
  }

  lemma Pow2Small(n: nat)
    requires n < 32
    ensures Pow2(n) <= 0x8000_0000
  {
    Pow2Values();
    Pow2Monotone(n, 31);
  }

  /** `1u32.checked_shl(attempt.saturating_sub(1)).unwrap_or(u32::MAX)` */
  function Factor(attempt: u32): u32 {
    var shift := if attempt == 0 then 0 else attempt - 1;
    if shift < 32 then Pow2Small(shift); Pow2(shift) else U32_MAX
  }

  /** `Duration::saturating_mul` */
  function SaturatingMul(d: Duration, k: u32): Duration {
    Min(d * k, MAX_DURATION)
  }

  function Capped(base: Duration, max: Duration, attempt: u32): Duration {
    Min(SaturatingMul(base, Factor(attempt)), max)
  }

  /** `entropy` is the low 64 bits of the wall clock in nanoseconds. */
  function FullJitter(capped: Duration, entropy: u64): Duration {
    var cappedNanos := Min(capped, U64_MAX);
    if cappedNanos == 0 then 0 else
      assert entropy % cappedNanos < cappedNanos;
      entropy % cappedNanos
  }

  function ComputeDelay(base: Duration, max: Duration, attempt: u32, jitter: bool, entropy: u64): Duration {
    var capped := Capped(base, max, attempt);
    if jitter then FullJitter(capped, entropy) else capped
  }

  /** Whether the full delay elapses. `wokeAt` is the instant of the poll that ends the
      sleep; at that poll a fired token wins over the timer. A zero delay never polls. */
  predicate SleepOrCancel(token: Token, delay: Duration, wokeAt: Instant) {
    delay == 0 || !token.Cancelled(wokeAt)
  }

  lemma {:induction false} MulMonotone(d: nat, a: nat, b: nat)
    requires a <= b
    ensures d * a <= d * b
  {
    assert d * b == d * a + d * (b - a);
  }

  // ----- what the shifted factor is -------------------------------------------------

  /** The factor never exceeds the true power of two, also past the end of the shift. */
  lemma FactorAtMostPower(attempt: u32)
    requires attempt >= 1
    ensures 1 <= Factor(attempt) <= Pow2(attempt - 1)
  {
    if attempt > 32 {
      Pow2Values();
      Pow2Monotone(32, attempt - 1);
    }
  }

  lemma FactorMonotone(a: u32, b: u32)
    requires a <= b
    ensures Factor(a) <= Factor(b)
  {
    var m := if a == 0 then 0 else a - 1;
    var n := if b == 0 then 0 else b - 1;
    if n < 32 {
      Pow2Monotone(m, n);
    }
  }

  // ----- the un-jittered delay --------------------------------------------------------

  /** In exact nanoseconds, although the multiplication saturates: `base * 2^(attempt-1)` capped
      up to attempt 32 (with 0 read as 1), and `base * (2^32 - 1)` capped from attempt 33 on. */
  lemma DelayExact(base: Duration, max: Duration, attempt: u32, entropy: u64)
    ensures attempt <= 32 ==>
              ComputeDelay(base, max, attempt, false, entropy)
              == Min(base * Pow2(if attempt == 0 then 0 else attempt - 1), max)
    ensures attempt > 32 ==>
              ComputeDelay(base, max, attempt, false, entropy) == Min(base * U32_MAX, max)
  {
  }

  /** The documented `base * 2^(attempt-1)` capped at `max` is what is returned exactly while the
      shift is in range, or when the cap (or a zero base) hides the difference. */
  lemma DelayMatchesFormulaIff(base: Duration, max: Duration, attempt: u32, entropy: u64)
    requires attempt >= 1
    ensures ComputeDelay(base, max, attempt, false, entropy) == Min(base * Pow2(attempt - 1), max)
            <==> attempt <= 32 || base == 0 || max <= base * U32_MAX
  {
    DelayExact(base, max, attempt, entropy);
    if attempt > 32 {
      Pow2Values();
      Pow2Monotone(32, attempt - 1);
      MulMonotone(base, U32_MAX, Pow2(attempt - 1));
      MulMonotone(base, 0x1_0000_0000, Pow2(attempt - 1));
    }
  }

  /** The first attempt at which the documented formula fails: one nanosecond, no effective cap. */
  lemma FormulaFailsAtAttempt33()
    ensures ComputeDelay(1, MAX_DURATION, 33, false, 0) == 0xFFFF_FFFF
    ensures Min(1 * Pow2(32), MAX_DURATION) == 0x1_0000_0000
  {
    Pow2Values();
  }

  lemma DelayMonotone(base: Duration, max: Duration, a: u32, b: u32, entropy: u64)
    requires a <= b
    ensures ComputeDelay(base, max, a, false, entropy) <= ComputeDelay(base, max, b, false, entropy) <= max
  {
    FactorMonotone(a, b);
    MulMonotone(base, Factor(a), Factor(b));
  }

  /** Without jitter a backoff is skipped exactly when the base or the cap is zero. */
  lemma ZeroDelayIff(base: Duration, max: Duration, attempt: u32, entropy: u64)
    ensures ComputeDelay(base, max, attempt, false, entropy) == 0 <==> base == 0 || max == 0
  {
    if base > 0 {
      FactorAtMostPower(if attempt == 0 then 1 else attempt);
      MulMonotone(base, 1, Factor(attempt));
    }
  }

  // ----- the jittered delay -----------------------------------------------------------

  /** Jitter only shortens, and strictly so unless the capped delay is already zero. */
  lemma JitterStrictlyBelow(base: Duration, max: Duration, attempt: u32, entropy: u64)
    ensures var capped := ComputeDelay(base, max, attempt, false, entropy);
            var drawn := ComputeDelay(base, max, attempt, true, entropy);
            if capped == 0 then drawn == 0 else drawn < capped
  {
  }

  lemma SmallRemainder(x: nat, n: nat)
    requires x < n
    ensures x % n == x
  {
    var q := x / n;
    assert x == q * n + x % n;
    if q >= 1 {
      MulMonotone(n, 1, q);
    }
  }

  lemma JitterOf(capped: Duration, entropy: u64)
    ensures if capped == 0 then FullJitter(capped, entropy) == 0 else FullJitter(capped, entropy) < Min(capped, U64_MAX)
    ensures entropy < Min(capped, U64_MAX) ==> FullJitter(capped, entropy) == entropy
  {
    if entropy < Min(capped, U64_MAX) {
      SmallRemainder(entropy, Min(capped, U64_MAX));
    }
  }

  /** The drawn delays are exactly those below the capped delay that fit 64-bit nanoseconds: the
      upper end of the documented closed interval `[0, capped]` is never drawn. */
  lemma JitterRange(capped: Duration, d: Duration)
    ensures (exists entropy: u64 :: FullJitter(capped, entropy) == d)
            <==> d < Min(capped, U64_MAX) || (capped == 0 && d == 0)
  {
    if exists entropy: u64 :: FullJitter(capped, entropy) == d {
      var entropy: u64 :| FullJitter(capped, entropy) == d;
      JitterOf(capped, entropy);
    } else {
      var entropy := Min(d, U64_MAX);
      JitterOf(capped, entropy);
      assert FullJitter(capped, entropy) != d;
    }
  }

  /** Both upper bounds, with or without jitter. */
  lemma DelayBounds(base: Duration, max: Duration, attempt: u32, jitter: bool, entropy: u64)
    requires attempt >= 1
    ensures ComputeDelay(base, max, attempt, jitter, entropy) <= max
    ensures ComputeDelay(base, max, attempt, jitter, entropy) <= base * Pow2(attempt - 1)
  {
    FactorAtMostPower(attempt);
    MulMonotone(base, Factor(attempt), Pow2(attempt - 1));
    JitterStrictlyBelow(base, max, attempt, entropy);
  }

  /** How many entropies below `n` draw `d`. */
  function Draws(capped: Duration, d: nat, n: nat): nat
    requires n <= U64_MAX + 1
  {
    if n == 0 then 0 else Draws(capped, d, n - 1) + if FullJitter(capped, n - 1) == d then 1 else 0
  }

  lemma RemainderUnique(m: nat, q: nat, r: nat, q': nat, r': nat)
    requires m * q + r == m * q' + r' && r < m && r' < m
    ensures q == q' && r == r'
  {
    assert m * (q + 1) == m * q + m;
    assert m * (q' + 1) == m * q' + m;
    if q < q' {
      MulMonotone(m, q + 1, q');
    } else if q' < q {
      MulMonotone(m, q' + 1, q);
    }
  }

  lemma QuotientIs(x: nat, m: nat, q: nat, r: nat)
    requires x == m * q + r && r < m
    ensures x / m == q && x % m == r
  {
    assert x == m * (x / m) + x % m;
    RemainderUnique(m, x / m, x % m, q, r);
  }

  lemma JitterIs(capped: Duration, entropy: u64, q: nat, r: nat)
    requires entropy == Min(capped, U64_MAX) * q + r && r < Min(capped, U64_MAX)
    ensures FullJitter(capped, entropy) == r
  {
    QuotientIs(entropy, Min(capped, U64_MAX), q, r);
  }

  lemma {:induction false} DrawsCount(capped: Duration, m: nat, d: nat, n: nat, q: nat, r: nat)
    requires m == Min(capped, U64_MAX) && n <= U64_MAX + 1 && d < m
    requires n == m * q + r && r < m
    ensures Draws(capped, d, n) == q + if d < r then 1 else 0
    decreases n
  {
    if n == 0 {
      MulMonotone(m, 0, q);
      if q > 0 {
        MulMonotone(m, 1, q);
      }
    } else if r > 0 {
      JitterIs(capped, n - 1, q, r - 1);
      DrawsCount(capped, m, d, n - 1, q, r - 1);
    } else {
      assert q > 0 && m * q == m * (q - 1) + m;
      JitterIs(capped, n - 1, q - 1, m - 1);
      DrawsCount(capped, m, d, n - 1, q - 1, m - 1);
    }
  }

  lemma Division(n: nat, m: nat) returns (q: nat, r: nat)
    requires m > 0
    ensures q == n / m && r == n % m && n == m * q + r && r < m
  {
    q, r := n / m, n % m;
  }

  /** The jitter is as uniform as a remainder can be: among the first `n` entropies, and so among all,
      every delay that can be drawn is drawn equally often, give or take one. */
  lemma JitterUniform(capped: Duration, m: nat, d: nat, n: nat)
    requires m == Min(capped, U64_MAX) && n <= U64_MAX + 1 && d < m
    ensures n / m <= Draws(capped, d, n) <= n / m + 1
    ensures Draws(capped, d, n) == n / m + 1 <==> d < n % m
  {
    var q, r := Division(n, m);
    DrawsCount(capped, m, d, n, q, r);
  }

  // ----- a description of every backoff -------------------------------------------------------

  function Times(m: nat, q: nat): nat {
    m * q
  }

  /** `d` is what is left of `x` when multiples of `m` are taken away. */
  ghost predicate IsRemainder(x: nat, m: nat, d: nat) {
    d < m && exists q: nat :: x == Times(m, q) + d
  }

  /** What the backoff `d` after attempt `attempt` is, in exact nanoseconds: the doubled base under the
      cap, or with jitter what is left of the entropy when multiples of that are taken away. */
  ghost predicate IsBackoff(base: Duration, max: Duration, attempt: u32, jitter: bool, entropy: u64, d: nat)
    requires attempt >= 1
  {
    var capped := Min(base * (if attempt <= 32 then Pow2(attempt - 1) else U32_MAX), max);
    if !jitter then d == capped
    else if capped == 0 then d == 0
    else IsRemainder(entropy, Min(capped, U64_MAX), d)
  }

  lemma RemainderIff(x: nat, m: nat, d: nat)
    requires m > 0
    ensures IsRemainder(x, m, d) <==> d == x % m
  {
    assert x == Times(m, x / m) + x % m;
    if IsRemainder(x, m, d) {
      var q: nat :| x == Times(m, q) + d;
      RemainderUnique(m, q, d, x / m, x % m);
    }
  }

  /** `compute_delay` returns the backoff described, and the description fits nothing else. */
  lemma DelayIff(base: Duration, max: Duration, attempt: u32, jitter: bool, entropy: u64, d: nat)
    requires attempt >= 1
    ensures ComputeDelay(base, max, attempt, jitter, entropy) == d
            <==> IsBackoff(base, max, attempt, jitter, entropy, d)
  {
    DelayExact(base, max, attempt, entropy);
    var capped := Capped(base, max, attempt);
    if jitter && capped > 0 {
      RemainderIff(entropy, Min(capped, U64_MAX), d);
    }
  }
}
