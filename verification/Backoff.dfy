/** The delay between two attempts of a policy call, in milliseconds. */
module Backoff {
  import opened Arithmetic

  const MAX_SHIFT: nat := 30

  function Min(a: nat, b: nat): nat {
    if a <= b then a else b
  }

  function Shift(attempt: nat): nat {
    Min(if attempt == 0 then 0 else attempt - 1, MAX_SHIFT)
  }

  // The delay as it is meant: 2^(attempt-1) times the initial delay, up to the maximum.
  function Ideal(attempt: nat, initial: nat, max: nat): nat {
    Min(initial * Pow2(Shift(attempt)), max)
  }

  function Doubled(x: nat, times: nat): nat {
    if times == 0 then x else 2 * Doubled(x, times - 1)
  }

  // The delay as it is computed. The u128 product cannot saturate: a Duration has fewer than
  // 2^74 milliseconds and the multiplier is at most 2^30. The cast to u64 truncates.
  function Delay(attempt: nat, initial: nat, max: nat): nat {
    Min(Doubled(initial, Shift(attempt)), max) % U64
  }

  lemma {:induction false} DoubledIsProduct(x: nat, times: nat)
    ensures Doubled(x, times) == x * Pow2(times)
  {
    if times > 0 {
      DoubledIsProduct(x, times - 1);
    }
  }

  // The cast is harmless exactly when the delay fits; a maximum below 2^64 is enough.
  lemma DelayIsIdealWhenItFits(attempt: nat, initial: nat, max: nat)
    ensures Delay(attempt, initial, max) == Ideal(attempt, initial, max) <==> Ideal(attempt, initial, max) < U64
    ensures max < U64 ==> Delay(attempt, initial, max) == Ideal(attempt, initial, max)
  {
    DoubledIsProduct(initial, Shift(attempt));
    TruncationKeepsExactly(Ideal(attempt, initial, max));
  }

  lemma TruncationKeepsExactly(x: nat)
    ensures x % U64 <= x && (x % U64 == x <==> x < U64)
  {}

  // The first delay is the initial one and each of the next thirty is twice the one before, up to
  // the maximum; from attempt 31 on the delay stays. Attempt 0, which is never made, waits like 1.
  lemma DelayDoublesThenStays(attempt: nat, initial: nat, max: nat)
    ensures 1 <= attempt <= 31 && max < U64 ==>
      Delay(attempt, initial, max) == Min(initial * Pow2(attempt - 1), max)
    ensures 1 <= attempt <= 31 ==> Delay(attempt, initial, max) == Min(initial * Pow2(attempt - 1), max) % U64
    ensures attempt >= 31 ==> Delay(attempt, initial, max) == Delay(31, initial, max)
    ensures Delay(0, initial, max) == Delay(1, initial, max)
  {
    DelayIsIdealWhenItFits(attempt, initial, max);
    if 1 <= attempt <= 31 {
      DoubledIsProduct(initial, attempt - 1);
    }
  }

  // A maximum of exactly 2^64 milliseconds can give no delay at all.
  lemma DelayCanVanish()
    ensures Delay(1, U64, U64) == 0 && Ideal(1, U64, U64) == U64
  {
    assert Doubled(U64, 0) == U64 && Pow2(0) == 1;
  }

  lemma {:induction false} Pow2Grows(a: nat, b: nat)
    requires a <= b
    ensures Pow2(a) <= Pow2(b)
    decreases b
  {
    if a < b {
      Pow2Grows(a, b - 1);
    }
  }

  lemma MulGrows(x: nat, a: nat, b: nat)
    requires a <= b
    ensures x * a <= x * b
  {}

  lemma IdealGrows(a: nat, b: nat, initial: nat, max: nat)
    requires a <= b
    ensures Ideal(a, initial, max) <= Ideal(b, initial, max)
  {
    Pow2Grows(Shift(a), Shift(b));
    MulGrows(initial, Pow2(Shift(a)), Pow2(Shift(b)));
  }

  lemma DelayNeverShrinks(a: nat, b: nat, initial: nat, max: nat)
    requires a <= b && max < U64
    ensures Delay(a, initial, max) <= Delay(b, initial, max)
  {
    DelayIsIdealWhenItFits(a, initial, max);
    DelayIsIdealWhenItFits(b, initial, max);
    IdealGrows(a, b, initial, max);
  }

  // The sum of the delays after attempts 1..n.
  function TotalDelay(n: nat, initial: nat, max: nat): nat {
    if n == 0 then 0 else TotalDelay(n - 1, initial, max) + Delay(n, initial, max)
  }

  lemma DelayBounds(n: nat, initial: nat, max: nat)
    requires n >= 1
    ensures Delay(n, initial, max) <= max
    ensures Delay(n, initial, max) <= initial * Pow2(n - 1)
  {
    DoubledIsProduct(initial, Shift(n));
    Pow2Grows(Shift(n), n - 1);
    MulGrows(initial, Pow2(Shift(n)), Pow2(n - 1));
    TruncationKeepsExactly(Min(Doubled(initial, Shift(n)), max));
  }

  lemma OneMoreDelay(n: nat, p: nat, initial: nat, max: nat)
    requires n >= 1 && p >= 1
    ensures n * max == (n - 1) * max + max
    ensures initial * (2 * p - 1) == initial * (p - 1) + initial * p
  {}

  // Within one evaluation of n attempts at most n-1 delays are slept: no more than the maximum
  // each, and no more than a geometric sum of the initial delay. No condition on the maximum.
  lemma {:induction false} TotalDelayBound(n: nat, initial: nat, max: nat)
    requires n >= 1
    ensures TotalDelay(n - 1, initial, max) <= (n - 1) * max
    ensures TotalDelay(n - 1, initial, max) <= initial * (Pow2(n - 1) - 1)
  {
    if n > 1 {
      TotalDelayBound(n - 1, initial, max);
      DelayBounds(n - 1, initial, max);
      OneMoreDelay(n - 1, Pow2(n - 2), initial, max);
    }
  }
}
