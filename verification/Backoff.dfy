/** Delay arithmetic on 64-bit durations: exponential growth with saturation, jitter and server hints. */
module Backoff {
  import opened Common
  import opened Arith

  newtype int64 = x: int | -TWO_63 <= x < TWO_63
  newtype int16 = x: int | -0x8000 <= x < 0x8000

  /** The random source, adversarial: any function of the span. */
  type Jitter = int64 -> int64

  function Pow2(n: nat): nat {
    if n == 0 then 1 else 2 * Pow2(n - 1)
  }

  lemma {:induction false} Pow2Monotone(a: nat, b: nat)
    requires a <= b
    ensures 1 <= Pow2(a) <= Pow2(b)
    decreases b
  {
    if a < b {
      Pow2Monotone(a, b - 1);
    } else if a > 0 {
      Pow2Monotone(a - 1, b - 1);
    }
  }

  /** The closed form: base doubled attempt - 1 times, capped. */
  function Ceiling(base: int, cap: int, attempt: int): int {
    Min(cap, base * Pow2(Max(attempt - 1, 0)))
  }

  function Clamp(x: int, low: int, high: int): int {
    if x < low then low else if x > high then high else x
  }

  lemma DoublingStep(base: int, n: nat)
    ensures base * Pow2(n + 1) == 2 * (base * Pow2(n))
  {
    assert Pow2(n + 1) == 2 * Pow2(n);
    var q := Pow2(n);
    assert base * (2 * q) == 2 * (base * q);
  }

  lemma DoublingGrows(base: int, a: nat, b: nat)
    requires base >= 0 && a <= b
    ensures base * Pow2(a) <= base * Pow2(b)
  {
    Pow2Monotone(a, b);
    MulLe(Pow2(a), Pow2(b), base);
  }

  /** The saturating loop reaches the closed form, and no step overflows 64 bits. */
  method GrowCeiling(base: int64, cap: int64, attempt: int16) returns (ceiling: int64)
    requires base >= 0 && cap >= 0
    ensures ceiling as int == Ceiling(base as int, cap as int, attempt as int)
  {
    ceiling := base;
    var current: int16 := 1;
    while current < attempt && ceiling < cap
      invariant 1 <= current && (current <= attempt || current == 1)
      invariant ceiling as int == base as int * Pow2(current as int - 1)
      decreases attempt as int - current as int
    {
      DoublingStep(base as int, current as int - 1);
      if ceiling > cap / 2 {
        DoublingGrows(base as int, current as int, attempt as int - 1);
        ceiling := cap;
        break;
      }
      ceiling := ceiling * 2;
      current := current + 1;
    }
    if ceiling >= cap && current < attempt {
      SaturatedStays(base as int, cap as int, current as int, attempt as int);
    }
    if ceiling > cap {
      ceiling := cap;
    }
  }

  lemma SaturatedStays(base: int, cap: int, current: int, attempt: int)
    requires base >= 0 && 1 <= current <= attempt
    ensures base * Pow2(current - 1) >= cap ==> base * Pow2(attempt - 1) >= cap
  {
    DoublingGrows(base, current - 1, attempt - 1);
  }

  // ----- retry delay

  /** What a retry waits: clamped jitter, or the server's hint when that is longer and within the cap. */
  function RetryDelaySpec(base: int64, cap: int64, jitter: Jitter, attempt: int16, serverDelay: int64): int {
    if base <= 0 || cap <= 0 then 0
    else
      var ceiling := Ceiling(base as int, cap as int, attempt as int);
      CeilingBounds(base as int, cap as int, attempt as int);
      var drawn := Clamp(jitter(ceiling as int64) as int, 0, ceiling);
      if drawn < serverDelay as int <= cap as int then serverDelay as int else drawn
  }

  lemma CeilingBounds(base: int, cap: int, attempt: int)
    requires base >= 0 && cap >= 0
    ensures 0 <= Ceiling(base, cap, attempt) <= cap
  {
    MulLe(0, Pow2(Max(attempt - 1, 0)), base);
  }

  method RetryDelay(base: int64, cap: int64, jitter: Jitter, attempt: int16, serverDelay: int64) returns (delay: int64)
    ensures delay as int == RetryDelaySpec(base, cap, jitter, attempt, serverDelay)
  {
    if base <= 0 || cap <= 0 {
      return 0;
    }
    var ceiling := GrowCeiling(base, cap, attempt);
    CeilingBounds(base as int, cap as int, attempt as int);
    delay := jitter(ceiling);
    if delay < 0 {
      delay := 0;
    }
    if delay > ceiling {
      delay := ceiling;
    }
    if serverDelay > delay && serverDelay <= cap {
      delay := serverDelay;
    }
  }

  /**
   * Whatever the jitter: the delay is in 0..Cap; it is at least the server's hint when that is within
   * the cap and equals the longer of hint and draw; a hint beyond the cap changes nothing; and without
   * a usable hint it never exceeds the exponential ceiling.
   */
  lemma RetryDelayBounds(base: int64, cap: int64, jitter: Jitter, attempt: int16, serverDelay: int64)
    requires base > 0 && cap > 0
    ensures var d := RetryDelaySpec(base, cap, jitter, attempt, serverDelay);
      && 0 <= d <= cap as int
      && (serverDelay <= cap ==> d == Max(RetryDelaySpec(base, cap, jitter, attempt, 0), serverDelay as int))
      && (serverDelay > cap ==> d == RetryDelaySpec(base, cap, jitter, attempt, 0))
      && RetryDelaySpec(base, cap, jitter, attempt, 0) <= Ceiling(base as int, cap as int, attempt as int)
  {
    CeilingBounds(base as int, cap as int, attempt as int);
  }

  /** Later attempts never have a lower ceiling, and from some attempt on it is the cap. */
  lemma CeilingMonotone(base: int, cap: int, a: int, b: int)
    requires base > 0 && cap > 0 && a <= b
    ensures Ceiling(base, cap, a) <= Ceiling(base, cap, b) <= cap
    ensures b - 1 >= cap ==> Ceiling(base, cap, b) == cap
  {
    DoublingGrows(base, Max(a - 1, 0), Max(b - 1, 0));
    if b - 1 >= cap {
      Pow2Exceeds(b - 1);
      MulLe(1, base, Pow2(b - 1));
    }
  }

  lemma {:induction false} Pow2Exceeds(n: nat)
    ensures Pow2(n) > n
  {
    if n > 0 { Pow2Exceeds(n - 1); }
  }

  /** The ceiling starts at the base and doubles with every attempt from the second on, up to the cap. */
  lemma CeilingDoubles(base: int, cap: int, attempt: int)
    requires base >= 0 && cap >= 0
    ensures attempt <= 1 ==> Ceiling(base, cap, attempt) == if base < cap then base else cap
    ensures attempt >= 1 ==>
      Ceiling(base, cap, attempt + 1)
      == if 2 * Ceiling(base, cap, attempt) < cap then 2 * Ceiling(base, cap, attempt) else cap
  {
    if attempt >= 1 {
      DoublingStep(base, attempt - 1);
      CeilingBounds(base, cap, attempt);
    }
  }

  /**
   * Without a usable policy there is no wait. Otherwise it is what was drawn, brought into 0..ceiling, unless
   * the server asked for longer and the cap allows that.
   */
  lemma RetryDelayExact(base: int64, cap: int64, jitter: Jitter, attempt: int16, serverDelay: int64)
    ensures base <= 0 || cap <= 0 ==> RetryDelaySpec(base, cap, jitter, attempt, serverDelay) == 0
    ensures base > 0 && cap > 0 ==>
      var ceiling := Ceiling(base as int, cap as int, attempt as int);
      && 0 < ceiling <= cap as int
      && var draw := jitter(ceiling as int64) as int;
         var wait := if draw < 0 then 0 else if draw > ceiling then ceiling else draw;
         RetryDelaySpec(base, cap, jitter, attempt, serverDelay)
         == if wait < serverDelay as int && serverDelay <= cap then serverDelay as int else wait
  {
    if base > 0 && cap > 0 {
      CeilingBounds(base as int, cap as int, attempt as int);
      Pow2Monotone(0, Max(attempt as int - 1, 0));
      MulLe(1, Pow2(Max(attempt as int - 1, 0)), base as int);
    }
  }

  // ----- poll delay

  const SECOND: int64 := 1_000_000_000

  method DefaultPollCap(base: int64) returns (cap: int64)
    requires 0 < base <= 10 * SECOND
    ensures cap as int == if 16 * base as int < 10_000_000_000 then 16 * base as int else 10_000_000_000
  {
    cap := base * 16;
    if cap > 10 * SECOND {
      cap := 10 * SECOND;
    }
  }

  method PollDelay(base: int64, cap: int64, jitter: Jitter, emptyPolls: int16) returns (delay: int64)
    requires base >= 0 && cap >= 0
    ensures var ceiling := Ceiling(base as int, cap as int, emptyPolls as int);
      var half := ceiling - ceiling / 2;
      && 0 <= ceiling <= cap as int
      && ceiling / 2 <= delay as int <= ceiling
      && var draw := jitter(half as int64) as int;
         delay as int == ceiling / 2 + (if draw < 0 then 0 else if draw > half then half else draw)
  {
    CeilingBounds(base as int, cap as int, emptyPolls as int);
    var ceiling := GrowCeiling(base, cap, emptyPolls);
    var floor := ceiling / 2;
    var drawn := jitter(ceiling - floor);
    if drawn < 0 {
      drawn := 0;
    }
    if drawn > ceiling - floor {
      drawn := ceiling - floor;
    }
    delay := floor + drawn;
  }
}
