/** The waiting times of the two retry loops: one shifts 64-bit integers, one multiplies 64-bit floats. */
module Backoff {
  import opened Arithmetic
  import Retry

  const TWO53 := 0x20_0000_0000_0000
  const TWO63 := 0x8000_0000_0000_0000
  const TWO64 := 0x1_0000_0000_0000_0000

  /** Durations in nanoseconds, as 64-bit integers. */
  datatype Policy = Policy(maxAttempts: int, initialBackoff: int, maxBackoff: int)

  /** The retry bounds that configuration validation enforces. */
  predicate Valid(p: Policy) {
    1 <= p.maxAttempts <= 5 && 0 < p.initialBackoff <= p.maxBackoff < TWO63
  }

  function Pow2(n: nat): nat { if n == 0 then 1 else 2 * Pow2(n - 1) }

  lemma SmallPowers()
    ensures Pow2(0) == 1 && Pow2(1) == 2 && Pow2(2) == 4 && Pow2(3) == 8 && Pow2(4) == 16
  {
    assert Pow2(2) == 2 * Pow2(1);
    assert Pow2(3) == 2 * Pow2(2);
    assert Pow2(4) == 2 * Pow2(3);
  }

  /** Two's complement truncation to 64 bits. */
  function Wrap64(x: int): int {
    var m := x % TWO64;
    if m >= TWO63 then m - TWO64 else m
  }

  /** The delay before attempt `attempt + 1`, by shifting. */
  function GrpcDelay(p: Policy, attempt: nat): int
    requires attempt >= 1
  {
    var delay := Wrap64(p.initialBackoff * Pow2(attempt - 1));
    if delay > p.maxBackoff then p.maxBackoff else delay
  }

  /** What the delay is meant to be: doubling from the initial backoff, capped. */
  function Capped(p: Policy, attempt: nat): int
    requires attempt >= 1
  {
    var doubled := p.initialBackoff * Pow2(attempt - 1);
    if doubled > p.maxBackoff then p.maxBackoff else doubled
  }

  lemma WrapExactly(x: int)
    requires 0 <= x < TWO64
    ensures Wrap64(x) == x <==> x < TWO63
    ensures x >= TWO63 ==> Wrap64(x) < 0
  {
  }

  /** At one attempt whose doubled backoff still fits 64 unsigned bits, the delay is right exactly when it fits 63. */
  lemma DelayExactly(p: Policy, attempt: nat)
    requires Valid(p) && attempt >= 1 && p.initialBackoff * Pow2(attempt - 1) < TWO64
    requires Pow2(attempt - 1) >= 1
    ensures GrpcDelay(p, attempt) == Capped(p, attempt) <==> p.initialBackoff * Pow2(attempt - 1) < TWO63
    ensures p.initialBackoff * Pow2(attempt - 1) >= TWO63 ==> GrpcDelay(p, attempt) < 0
  {
    var doubled := p.initialBackoff * Pow2(attempt - 1);
    assert doubled >= 0;
    WrapExactly(doubled);
  }

  /** The largest doubling a policy can come to: the one before its last attempt. */
  function LastDoubling(p: Policy): int
    requires p.maxAttempts >= 1
  {
    p.initialBackoff * Pow2(if p.maxAttempts >= 2 then p.maxAttempts - 2 else 0)
  }

  ghost predicate ScheduleIsRight(p: Policy) {
    forall attempt: nat :: 1 <= attempt < p.maxAttempts ==> GrpcDelay(p, attempt) == Capped(p, attempt)
  }

  /** When the last doubling does not fit, some delay comes out negative. */
  lemma FirstWrap(p: Policy) returns (attempt: nat)
    requires Valid(p) && LastDoubling(p) >= TWO63
    ensures 1 <= attempt < p.maxAttempts && GrpcDelay(p, attempt) < 0
  {
    SmallPowers();
    assert p.maxAttempts == 3 || p.maxAttempts == 4 || p.maxAttempts == 5;
    attempt := if p.initialBackoff * 2 >= TWO63 then 2 else if p.initialBackoff * 4 >= TWO63 then 3 else 4;
    DelayExactly(p, attempt);
  }

  /** Under a valid policy every delay is the capped doubling exactly when the last doubling fits 63 bits. */
  lemma ShiftScheduleExactly(p: Policy)
    requires Valid(p)
    ensures ScheduleIsRight(p) <==> LastDoubling(p) < TWO63
  {
    SmallPowers();
    if LastDoubling(p) < TWO63 {
      forall attempt: nat | 1 <= attempt < p.maxAttempts ensures GrpcDelay(p, attempt) == Capped(p, attempt) {
        assert attempt == 1 || attempt == 2 || attempt == 3 || attempt == 4;
        DelayExactly(p, attempt);
      }
    } else {
      var wrapping := FirstWrap(p);
      assert Capped(p, wrapping) > 0;
    }
  }

  /** Below 2^60 nanoseconds no allowed number of attempts wraps. */
  lemma SmallBackoffsNeverWrap(p: Policy)
    requires Valid(p) && p.initialBackoff < 0x1000_0000_0000_0000
    ensures ScheduleIsRight(p)
  {
    var exponent: nat := if p.maxAttempts >= 2 then p.maxAttempts - 2 else 0;
    SmallPowers();
    Pow2Grows(exponent, 3);
    MulMono(p.initialBackoff, Pow2(exponent), 8);
    ShiftScheduleExactly(p);
  }

  /** At 2^60 nanoseconds the fourth delay wraps to a negative one, which does not wait at all. */
  lemma FirstWrappingBackoff()
    ensures var p := Policy(5, 0x1000_0000_0000_0000, 0x1000_0000_0000_0000);
      Valid(p) && !ScheduleIsRight(p) && GrpcDelay(p, 4) < 0
  {
    var p := Policy(5, 0x1000_0000_0000_0000, 0x1000_0000_0000_0000);
    SmallPowers();
    ShiftScheduleExactly(p);
    DelayExactly(p, 4);
  }

  lemma {:induction false} Pow2Grows(m: nat, n: nat)
    requires m <= n
    ensures 1 <= Pow2(m) <= Pow2(n)
  {
    if m < n { Pow2Grows(m, n - 1); } else if m > 0 { Pow2Grows(m - 1, m - 1); }
  }

  /** The capped delays never shrink and stay between the initial and the maximal backoff. */
  lemma CappedIsMonotone(p: Policy, a: nat, b: nat)
    requires Valid(p) && 1 <= a <= b
    ensures p.initialBackoff <= Capped(p, a) <= Capped(p, b) <= p.maxBackoff
  {
    Pow2Grows(0, a - 1);
    Pow2Grows(a - 1, b - 1);
    MulMono(p.initialBackoff, 1, Pow2(a - 1));
    MulMono(p.initialBackoff, Pow2(a - 1), Pow2(b - 1));
  }

  /** While the last doubling fits, the delays waited never shrink. */
  lemma DelaysAreMonotone(p: Policy, a: nat, b: nat)
    requires Valid(p) && LastDoubling(p) < TWO63 && 1 <= a <= b < p.maxAttempts
    ensures GrpcDelay(p, a) <= GrpcDelay(p, b)
  {
    ShiftScheduleExactly(p);
    CappedIsMonotone(p, a, b);
  }

  /**
   * Every delay waited lies between the initial and the maximal backoff exactly when the last doubling
   * fits 63 bits.
   */
  lemma DelaysInRangeExactly(p: Policy)
    requires Valid(p)
    ensures (forall attempt: nat :: 1 <= attempt < p.maxAttempts ==>
      p.initialBackoff <= GrpcDelay(p, attempt) <= p.maxBackoff)
      <==> LastDoubling(p) < TWO63
  {
    hide GrpcDelay, Capped;
    if LastDoubling(p) < TWO63 {
      ShiftScheduleExactly(p);
      forall attempt: nat | 1 <= attempt < p.maxAttempts
        ensures p.initialBackoff <= GrpcDelay(p, attempt) <= p.maxBackoff
      {
        CappedIsMonotone(p, attempt, attempt);
      }
    } else {
      var wrapping := FirstWrap(p);
    }
  }

  /** The time spent in a wait: a timer with a negative delay fires at once. */
  function Waited(p: Policy, attempt: nat): nat
    requires attempt >= 1
  {
    if GrpcDelay(p, attempt) > 0 then GrpcDelay(p, attempt) else 0
  }

  lemma WaitedBelowCapped(p: Policy, attempt: nat)
    requires Valid(p) && attempt >= 1
    ensures Waited(p, attempt) <= p.initialBackoff * Pow2(attempt - 1) && Waited(p, attempt) <= p.maxBackoff
  {
    Pow2Grows(0, attempt - 1);
    MulMono(p.initialBackoff, 1, Pow2(attempt - 1));
  }

  /** All the waiting before attempt `n`. */
  function TotalWait(p: Policy, n: nat): nat {
    if n <= 1 then 0 else TotalWait(p, n - 1) + Waited(p, n - 1)
  }

  /**
   * Under every valid policy, wrapping or not, the total wait of `n` attempts is bounded by the
   * doublings and by the cap.
   */
  lemma {:induction false} TotalWaitBounded(p: Policy, n: nat)
    requires Valid(p) && n >= 1
    ensures TotalWait(p, n) <= (Pow2(n - 1) - 1) * p.initialBackoff
    ensures TotalWait(p, n) <= (n - 1) * p.maxBackoff
  {
    if n > 1 {
      TotalWaitBounded(p, n - 1);
      WaitedBelowCapped(p, n - 1);
      OneMoreWait(Pow2(n - 2), p.initialBackoff);
      OneMoreCap(n - 1, p.maxBackoff);
    }
  }

  lemma OneMoreWait(a: int, initial: int)
    ensures (2 * a - 1) * initial == (a - 1) * initial + initial * a
  {
  }

  lemma OneMoreCap(n: int, cap: int)
    ensures n * cap == (n - 1) * cap + cap
  {
  }

  // ---------------------------------------------------------------- floating point

  /** The power of two of the last place of a 53-bit significand for `n`. */
  function Ulp(n: nat, ulp: nat): (r: nat)
    requires ulp > 0
    ensures r > 0
    decreases if ulp <= n then n - ulp else 0
  {
    if n / ulp < TWO53 then ulp else Ulp(n, 2 * ulp)
  }

  /** Conversion of a non-negative integer to a 64-bit float: round to nearest, ties to even. */
  function Float64(n: nat): nat {
    var ulp := Ulp(n, 1);
    var q, rest := n / ulp, n % ulp;
    if 2 * rest > ulp || (2 * rest == ulp && q % 2 == 1) then (q + 1) * ulp else q * ulp
  }

  /** The conversion misses by at most half a last place and gives a 53-bit multiple of it. */
  lemma FloatIsNearest(n: nat)
    ensures var ulp, f: int := Ulp(n, 1), Float64(n);
      && 2 * (f - n) <= ulp && 2 * (n - f) <= ulp
      && exists q: nat :: q <= TWO53 && Float64(n) == q * ulp
  {
    var ulp := Ulp(n, 1);
    UlpFits(n, 1);
    var q, rest := n / ulp, n % ulp;
    assert n == q * ulp + rest;
    assert (q + 1) * ulp == q * ulp + ulp;
    assert Float64(n) == q * ulp || Float64(n) == (q + 1) * ulp;
  }

  lemma {:induction false} UlpFits(n: nat, ulp: nat)
    requires ulp > 0
    ensures n / Ulp(n, ulp) < TWO53
    decreases if ulp <= n then n - ulp else 0
  {
    if n / ulp >= TWO53 { UlpFits(n, 2 * ulp); }
  }

  /**
   * The delay computed in floating point. Scaling by a power of two is exact; converting a value of
   * 2^63 or more back to an integer is left to the implementation, so its result is `overflow`.
   */
  function HttpDelay(p: Policy, attempt: nat, overflow: int): int
    requires attempt >= 1 && p.initialBackoff >= 0
  {
    var scaled := Float64(p.initialBackoff) * Pow2(attempt - 1);
    var delay := if scaled < TWO63 then scaled else overflow;
    if delay > p.maxBackoff then p.maxBackoff else delay
  }

  /** Integers up to 2^53 are floats. */
  lemma SmallIntegersAreFloats(n: nat)
    requires n <= TWO53
    ensures Float64(n) == n
  {
    if n < TWO53 {
      assert Ulp(n, 1) == 1;
    } else {
      assert TWO53 / 1 == TWO53 && TWO53 / 2 < TWO53;
      assert Ulp(n, 1) == Ulp(n, 2) == 2;
    }
  }

  ghost predicate SchedulesAgree(p: Policy, overflow: int)
    requires Valid(p)
  {
    forall attempt: nat :: 1 <= attempt < p.maxAttempts ==> HttpDelay(p, attempt, overflow) == GrpcDelay(p, attempt)
  }

  // ---------------------------------------------------------------- rounding and powers of two

  const TWO60 := 0x1000_0000_0000_0000

  /** Below 2^64 the last place of a 53-bit significand is at most 2^11, and divides 2^60. */
  predicate SmallUlp(u: nat) {
    || u == 1 || u == 2 || u == 4 || u == 8 || u == 16 || u == 32
    || u == 64 || u == 128 || u == 256 || u == 512 || u == 1024 || u == 2048
  }

  lemma {:induction false} UlpIsSmall(n: nat, u: nat)
    requires n < TWO64 && SmallUlp(u)
    ensures SmallUlp(Ulp(n, u))
    decreases 2048 - u
  {
    if n / u >= TWO53 {
      assert u < 2048;
      UlpIsSmall(n, 2 * u);
    }
  }

  /** Rounding does not cross a multiple of the last place. */
  lemma RoundingKeepsMultiples(n: nat, t: nat)
    ensures n >= t * Ulp(n, 1) ==> Float64(n) >= t * Ulp(n, 1)
    ensures n <= t * Ulp(n, 1) ==> Float64(n) <= t * Ulp(n, 1)
  {
    var ulp := Ulp(n, 1);
    var q, rest := n / ulp, n % ulp;
    assert n == q * ulp + rest;
    assert (q + 1) * ulp == q * ulp + ulp;
    MulAbove(q, t, ulp);
    MulAbove(t, q, ulp);
    if n == t * ulp { Quotient(t, ulp, q, rest); }
  }

  lemma Quotient(t: nat, ulp: nat, q: nat, rest: nat)
    requires t * ulp == q * ulp + rest && rest < ulp
    ensures q == t && rest == 0
  {
    MulAbove(q, t, ulp);
    MulAbove(t, q, ulp);
  }

  lemma MulAbove(a: nat, b: nat, u: nat)
    ensures a < b ==> a * u + u <= b * u
  {
    if a < b {
      MulMono(u, a + 1, b);
      assert (a + 1) * u == a * u + u;
    }
  }

  lemma PlacesIn2048(u: nat) returns (k: nat)
    requires SmallUlp(u)
    ensures k * u == 2048
  {
    k := 2048 / u;
  }

  /** Rounding a 64-bit integer does not cross a multiple of 2^60. */
  lemma RoundingKeepsPowers(n: nat, c: nat)
    requires n < TWO64
    ensures n >= c * TWO60 ==> Float64(n) >= c * TWO60
    ensures n <= c * TWO60 ==> Float64(n) <= c * TWO60
  {
    hide Ulp, Float64;
    UlpIsSmall(n, 1);
    var ulp := Ulp(n, 1);
    var k := PlacesIn2048(ulp);
    var t := c * 0x2_0000_0000_0000 * k;
    assert t * ulp == c * 0x2_0000_0000_0000 * (k * ulp) == c * TWO60;
    RoundingKeepsMultiples(n, t);
  }

  // ---------------------------------------------------------------- exactly when the schedules agree

  /** The last doubling of the converted backoff. */
  function FloatDoubling(p: Policy): int
    requires p.maxAttempts >= 1 && p.initialBackoff >= 0
  {
    LastDoubling(p.(initialBackoff := Float64(p.initialBackoff)))
  }

  /** The backoff converts exactly, or rounds up and is the cap. */
  predicate ConvertsWell(p: Policy)
    requires p.initialBackoff >= 0
  {
    var f := Float64(p.initialBackoff);
    f == p.initialBackoff || (f > p.initialBackoff && p.initialBackoff == p.maxBackoff)
  }

  /** The conditions under which the schedules agree, by which of the two last doublings leave 63 bits. */
  predicate Agreement(p: Policy, overflow: int)
    requires Valid(p)
  {
    var last, float := LastDoubling(p), FloatDoubling(p);
    if p.maxAttempts == 1 then true
    else if last >= TWO63 then ConvertsWell(p) && last < TWO64 && float < TWO64 && overflow == last - TWO64
    else if float >= TWO63 then
      (p.maxAttempts >= 3 ==> p.initialBackoff == p.maxBackoff)
      && p.initialBackoff == if overflow > p.maxBackoff then p.maxBackoff else overflow
    else ConvertsWell(p)
  }

  function Cap(p: Policy, delay: int): int { if delay > p.maxBackoff then p.maxBackoff else delay }

  function FloatDelay(p: Policy, scaled: int, overflow: int): int {
    Cap(p, if scaled < TWO63 then scaled else overflow)
  }

  /** The delays of the at most four waits, written out. */
  lemma WrittenOut(p: Policy, overflow: int)
    requires Valid(p)
    ensures var i, f := p.initialBackoff, Float64(p.initialBackoff);
      && GrpcDelay(p, 1) == Cap(p, Wrap64(i)) && GrpcDelay(p, 2) == Cap(p, Wrap64(2 * i))
      && GrpcDelay(p, 3) == Cap(p, Wrap64(4 * i)) && GrpcDelay(p, 4) == Cap(p, Wrap64(8 * i))
      && HttpDelay(p, 1, overflow) == FloatDelay(p, f, overflow)
      && HttpDelay(p, 2, overflow) == FloatDelay(p, 2 * f, overflow)
      && HttpDelay(p, 3, overflow) == FloatDelay(p, 4 * f, overflow)
      && HttpDelay(p, 4, overflow) == FloatDelay(p, 8 * f, overflow)
  {
    hide Float64, Wrap64;
    SmallPowers();
  }

  lemma AgreeWrittenOut(p: Policy, overflow: int)
    requires Valid(p)
    ensures var i, f := p.initialBackoff, Float64(p.initialBackoff);
      SchedulesAgree(p, overflow) <==>
      && (p.maxAttempts >= 2 ==> FloatDelay(p, f, overflow) == Cap(p, Wrap64(i)))
      && (p.maxAttempts >= 3 ==> FloatDelay(p, 2 * f, overflow) == Cap(p, Wrap64(2 * i)))
      && (p.maxAttempts >= 4 ==> FloatDelay(p, 4 * f, overflow) == Cap(p, Wrap64(4 * i)))
      && (p.maxAttempts >= 5 ==> FloatDelay(p, 8 * f, overflow) == Cap(p, Wrap64(8 * i)))
  {
    hide Float64, Wrap64, Cap, FloatDelay, GrpcDelay, HttpDelay;
    WrittenOut(p, overflow);
    if !SchedulesAgree(p, overflow) {
      var attempt: nat :| 1 <= attempt < p.maxAttempts && HttpDelay(p, attempt, overflow) != GrpcDelay(p, attempt);
      assert attempt == 1 || attempt == 2 || attempt == 3 || attempt == 4;
    }
  }

  /** A delay that wrapped to a negative one is not repeated by the next wait. */
  lemma NotTwice(p: Policy, x: int)
    requires TWO63 <= x < TWO64 && p.maxBackoff > 0
    ensures Wrap64(x) == x - TWO64 && Cap(p, Wrap64(x)) == x - TWO64 && Cap(p, Wrap64(2 * x)) != x - TWO64
  {
    assert x % TWO64 == x;
    assert (2 * x) % TWO64 == 2 * x - TWO64;
  }

  lemma Fits(x: int)
    requires 0 <= x < TWO63
    ensures Wrap64(x) == x
  {
  }

  lemma LastWrittenOut(p: Policy)
    requires Valid(p) && p.maxAttempts >= 2
    ensures var factor := if p.maxAttempts == 2 then 1 else if p.maxAttempts == 3 then 2
                          else if p.maxAttempts == 4 then 4 else 8;
      LastDoubling(p) == factor * p.initialBackoff && FloatDoubling(p) == factor * Float64(p.initialBackoff)
  {
    hide Float64;
    SmallPowers();
  }

  lemma AgreeOnOneWait(p: Policy, overflow: int)
    requires Valid(p) && p.maxAttempts == 2
    ensures SchedulesAgree(p, overflow) <==> Agreement(p, overflow)
  {
    var i, f := p.initialBackoff, Float64(p.initialBackoff);
    hide Float64, Wrap64, SchedulesAgree, LastDoubling, FloatDoubling, Pow2;
    AgreeWrittenOut(p, overflow);
    LastWrittenOut(p);
    RoundingKeepsPowers(i, 8);
    Fits(i);
  }

  lemma AgreeOnTwoWaits(p: Policy, overflow: int)
    requires Valid(p) && p.maxAttempts == 3
    ensures SchedulesAgree(p, overflow) <==> Agreement(p, overflow)
  {
    var i, f := p.initialBackoff, Float64(p.initialBackoff);
    hide Float64, Wrap64, SchedulesAgree, LastDoubling, FloatDoubling, Pow2;
    AgreeWrittenOut(p, overflow);
    LastWrittenOut(p);
    RoundingKeepsPowers(i, 4);
    RoundingKeepsPowers(i, 8);
    Fits(i);
    if 2 * i < TWO63 { Fits(2 * i); } else if 2 * i < TWO64 { NotTwice(p, 2 * i); }
  }

  lemma AgreeOnThreeWaits(p: Policy, overflow: int)
    requires Valid(p) && p.maxAttempts == 4
    ensures SchedulesAgree(p, overflow) <==> Agreement(p, overflow)
  {
    var i, f := p.initialBackoff, Float64(p.initialBackoff);
    hide Float64, Wrap64, SchedulesAgree, LastDoubling, FloatDoubling, Pow2;
    AgreeWrittenOut(p, overflow);
    LastWrittenOut(p);
    RoundingKeepsPowers(i, 2);
    RoundingKeepsPowers(i, 4);
    RoundingKeepsPowers(i, 8);
    Fits(i);
    if 2 * i < TWO63 { Fits(2 * i); } else if 2 * i < TWO64 { NotTwice(p, 2 * i); }
    if 4 * i < TWO63 { Fits(4 * i); } else if 4 * i < TWO64 { NotTwice(p, 4 * i); }
  }

  lemma AgreeOnFourFitting(p: Policy, overflow: int)
    requires Valid(p) && p.maxAttempts == 5 && 8 * p.initialBackoff < TWO63
    ensures SchedulesAgree(p, overflow) <==> Agreement(p, overflow)
  {
    var i := p.initialBackoff;
    hide Float64, Wrap64, SchedulesAgree, LastDoubling, FloatDoubling, Pow2;
    AgreeWrittenOut(p, overflow);
    LastWrittenOut(p);
    RoundingKeepsPowers(i, 1);
    Fits(i);
    Fits(2 * i);
    Fits(4 * i);
    Fits(8 * i);
  }

  lemma AgreeOnFourWrapping(p: Policy, overflow: int)
    requires Valid(p) && p.maxAttempts == 5 && 8 * p.initialBackoff >= TWO63
    ensures SchedulesAgree(p, overflow) <==> Agreement(p, overflow)
  {
    var i := p.initialBackoff;
    hide Float64, Wrap64, SchedulesAgree, LastDoubling, FloatDoubling, Pow2;
    AgreeWrittenOut(p, overflow);
    LastWrittenOut(p);
    RoundingKeepsPowers(i, 1);
    RoundingKeepsPowers(i, 2);
    RoundingKeepsPowers(i, 4);
    RoundingKeepsPowers(i, 8);
    Fits(i);
    if 4 * i < TWO63 {
      Fits(2 * i);
      Fits(4 * i);
      NotTwice(p, 8 * i);
    } else if 2 * i < TWO63 {
      Fits(2 * i);
      NotTwice(p, 4 * i);
    } else {
      NotTwice(p, 2 * i);
    }
  }

  lemma AgreeOnFourWaits(p: Policy, overflow: int)
    requires Valid(p) && p.maxAttempts == 5
    ensures SchedulesAgree(p, overflow) <==> Agreement(p, overflow)
  {
    hide SchedulesAgree, Agreement;
    if 8 * p.initialBackoff < TWO63 { AgreeOnFourFitting(p, overflow); } else { AgreeOnFourWrapping(p, overflow); }
  }

  /**
   * For every valid policy, and whatever an overflowing conversion gives, the exact condition under which
   * the floating-point and the shifted schedule agree at every attempt.
   */
  lemma SchedulesAgreeExactly(p: Policy, overflow: int)
    requires Valid(p)
    ensures SchedulesAgree(p, overflow) <==> Agreement(p, overflow)
  {
    hide SchedulesAgree, Agreement;
    match p.maxAttempts
    case 2 => AgreeOnOneWait(p, overflow);
    case 3 => AgreeOnTwoWaits(p, overflow);
    case 4 => AgreeOnThreeWaits(p, overflow);
    case 5 => AgreeOnFourWaits(p, overflow);
    case _ => NothingToAgreeOn(p, overflow);
  }

  lemma NothingToAgreeOn(p: Policy, overflow: int)
    requires Valid(p) && p.maxAttempts == 1
    ensures SchedulesAgree(p, overflow) && Agreement(p, overflow)
  {
  }

  /** Up to 2^53 nanoseconds, some 104 days, the two schedules are the same. */
  lemma SmallSchedulesAgree(p: Policy, overflow: int)
    requires Valid(p) && p.initialBackoff <= TWO53
    ensures SchedulesAgree(p, overflow)
  {
    hide Float64, SchedulesAgree;
    var exponent: nat := if p.maxAttempts >= 2 then p.maxAttempts - 2 else 0;
    SmallPowers();
    Pow2Grows(exponent, 3);
    MulMono(p.initialBackoff, Pow2(exponent), 8);
    SmallIntegersAreFloats(p.initialBackoff);
    assert FloatDoubling(p) == LastDoubling(p) <= 8 * TWO53;
    SchedulesAgreeExactly(p, overflow);
  }

  // ---------------------------------------------------------------- the two loops side by side

  function HttpWaited(p: Policy, attempt: nat, overflow: int): nat
    requires attempt >= 1 && p.initialBackoff >= 0
  {
    var delay := HttpDelay(p, attempt, overflow);
    if delay > 0 then delay else 0
  }

  /** All the waiting of the HTTP loop before attempt `n`. */
  function HttpTotalWait(p: Policy, n: nat, overflow: int): nat
    requires p.initialBackoff >= 0
  {
    if n <= 1 then 0 else HttpTotalWait(p, n - 1, overflow) + HttpWaited(p, n - 1, overflow)
  }

  lemma {:induction false} SameTotals(p: Policy, n: nat, overflow: int)
    requires Valid(p) && SchedulesAgree(p, overflow) && n <= p.maxAttempts
    ensures HttpTotalWait(p, n, overflow) == TotalWait(p, n)
  {
    hide HttpDelay, GrpcDelay;
    if n > 1 { SameTotals(p, n - 1, overflow); }
  }

  /**
   * Under one policy with a backoff of at most 2^53 nanoseconds, the two loops make as many attempts and
   * wait as long for any outcomes that are final for both or for neither.
   */
  lemma LoopsWaitAlike(p: Policy, exchanges: nat -> Retry.Exchange, codes: nat -> Retry.Code, ends: Retry.Waits,
      overflow: int)
    requires Valid(p) && p.initialBackoff <= TWO53
    requires forall k: nat :: 1 <= k <= p.maxAttempts ==> (Retry.Settles(exchanges(k)) <==> !Retry.Transient(codes(k)))
    ensures var sent := Retry.Call(p.maxAttempts, exchanges, ends).sent;
      var calls := Retry.GrpcCall(p.maxAttempts, codes, ends).1;
      sent == calls && HttpTotalWait(p, sent, overflow) == TotalWait(p, calls)
  {
    SmallSchedulesAgree(p, overflow);
    Retry.LoopsAgree(p.maxAttempts, exchanges, codes, ends);
    Retry.GrpcIsBounded(p.maxAttempts, codes, ends);
    SameTotals(p, Retry.GrpcCall(p.maxAttempts, codes, ends).1, overflow);
  }
}
