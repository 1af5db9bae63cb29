/** Retry delays as `configuration.rs` computes them and the loop of `rpc.rs` that waits
    them out. */
module Backoff {
  import opened Basics

  const U32_MAX: nat := 0xFFFF_FFFF

  /** The longest duration, in nanoseconds: u64 seconds and a last incomplete second. */
  const DURATION_MAX: nat := 0x1_0000_0000_0000_0000 * 1_000_000_000 - 1

  type u32 = n: nat | n <= U32_MAX
  type Duration = n: nat | n <= DURATION_MAX

  datatype RetryPolicy = RetryPolicy(maxAttempts: u32, backoff: Duration, maxBackoff: Duration) {
    predicate MayRetryAfter(attempt: u32) {
      attempt < maxAttempts
    }
  }

  function Least(a: nat, b: nat): nat {
    if a <= b then a else b
  }

  /** `1u32.checked_shl(n)`, and the greatest u32 when the shift is too far. */
  function Multiplier(doublings: nat): nat {
    if doublings < 32 then Pow2(doublings) else U32_MAX
  }

  function SaturatingMul(d: Duration, by_: nat): Duration {
    Least(d * by_, DURATION_MAX)
  }

  function DelayForAttempt(p: RetryPolicy, attempt: u32): Duration {
    if attempt <= 1 then 0 else Least(SaturatingMul(p.backoff, Multiplier(attempt - 2)), p.maxBackoff)
  }

  // ----- The delays -----

  /** The duration limit cannot be felt through the ceiling. */
  lemma DelayIs(p: RetryPolicy, attempt: u32)
    ensures DelayForAttempt(p, attempt)
            == if attempt <= 1 then 0 else Least(p.backoff * Multiplier(attempt - 2), p.maxBackoff)
  {
  }

  lemma MultiplierGrows(m: nat, n: nat)
    requires m <= n
    ensures 1 <= Multiplier(m) <= Multiplier(n) <= U32_MAX
  {
    PowersOfTwo();
    assert Pow2(32) == 2 * Pow2(31);
    Pow2Grows(0, if m < 32 then m else 0);
    if m < 32 {
      Pow2Grows(m, 31);
      if n < 32 {
        Pow2Grows(m, n);
      }
    }
    if n < 32 {
      Pow2Grows(n, 31);
    }
  }

  lemma Scaled(b: nat, m: nat, n: nat)
    requires m <= n
    ensures b * m <= b * n
  {
  }

  /** Delays never shrink from one attempt to a later one and never exceed the ceiling. */
  lemma DelaysGrow(p: RetryPolicy, earlier: u32, later: u32)
    requires earlier <= later
    ensures DelayForAttempt(p, earlier) <= DelayForAttempt(p, later) <= p.maxBackoff
  {
    hide Multiplier;
    if earlier >= 2 {
      MultiplierGrows(earlier - 2, later - 2);
      Scaled(p.backoff, Multiplier(earlier - 2), Multiplier(later - 2));
    }
  }

  /** The next delay is twice this one under the ceiling exactly for attempt 0, for attempts
      2 to 32, when the policy never waits, or when the greatest multiplier reaches the
      ceiling. Attempt 34 uses one less than the power of two it would need, and no later
      one grows. */
  lemma DoublesIff(p: RetryPolicy, attempt: u32)
    requires attempt < U32_MAX
    ensures DelayForAttempt(p, attempt + 1) == Least(2 * DelayForAttempt(p, attempt), p.maxBackoff)
            <==> || attempt == 0
                 || 2 <= attempt <= 32
                 || p.backoff == 0
                 || p.maxBackoff == 0
                 || (attempt > 32 && p.backoff * U32_MAX >= p.maxBackoff)
  {
    DelayIs(p, attempt);
    DelayIs(p, attempt + 1);
    hide SaturatingMul, DelayForAttempt;
    if 2 <= attempt <= 32 {
      Twice(p.backoff, Multiplier(attempt - 2), Multiplier(attempt - 1));
    } else if attempt == 33 {
      PowersOfTwo();
      assert Pow2(32) == 2 * Pow2(31);
      assert Multiplier(31) == 0x8000_0000 && Multiplier(32) == 2 * 0x8000_0000 - 1;
      AlmostTwice(p.backoff, Multiplier(31), Multiplier(32));
    } else if attempt > 33 {
      assert Multiplier(attempt - 2) == Multiplier(attempt - 1) == U32_MAX;
    }
  }

  lemma Twice(b: nat, m: nat, n: nat)
    requires n == 2 * m
    ensures b * n == 2 * (b * m)
  {
  }

  lemma AlmostTwice(b: nat, m: nat, n: nat)
    requires n == 2 * m - 1
    ensures b * n == 2 * (b * m) - b
  {
  }

  // ----- A whole request -----

  /** What an attempt comes to: a value, a failure that may pass, or one that will not. */
  datatype Outcome<T> = Done(value: T) | Transient | Permanent

  /** What happens around one attempt: whether the run is found cancelled before it, what it
      comes to, and how long into the wait after it the run is cancelled, if it is. */
  datatype Turn<T> = Turn(cancelled: bool, outcome: Outcome<T>, interrupted: Option<Duration>)

  /** How a request ends. */
  datatype Ending<T> = Answered(value: T) | Refused | Stopped

  /** The waits after attempts `from` up to but not including `until`. */
  function Waits(p: RetryPolicy, from: u32, until: u32): nat
    decreases until
  {
    if until <= from then 0 else Waits(p, from, until - 1) + DelayForAttempt(p, until - 1)
  }

  /** The run is cancelled during the wait after an attempt. */
  predicate WaitCut<T>(p: RetryPolicy, turn: Turn<T>, attempt: u32) {
    turn.interrupted.Some? && turn.interrupted.value < DelayForAttempt(p, attempt)
  }

  /** Every attempt before this one failed transiently, might be retried and was waited out. */
  ghost predicate Retried<T>(p: RetryPolicy, turn: u32 -> Turn<T>, attempt: u32) {
    forall n: u32 :: 1 <= n < attempt ==>
      !turn(n).cancelled && turn(n).outcome.Transient? && n < p.maxAttempts && !WaitCut(p, turn(n), n)
  }

  /** A request ends at the first attempt that is not retried, in the way its turn says. */
  ghost predicate EndsAt<T>(p: RetryPolicy, turn: u32 -> Turn<T>, attempt: u32, ending: Ending<T>) {
    && attempt >= 1 && Retried(p, turn, attempt)
    && var t := turn(attempt);
    match ending
    case Answered(value) => !t.cancelled && t.outcome == Done(value)
    case Refused => !t.cancelled && !t.outcome.Done? && (t.outcome.Permanent? || attempt >= p.maxAttempts)
    case Stopped => t.cancelled || (t.outcome.Transient? && attempt < p.maxAttempts && WaitCut(p, t, attempt))
  }

  /** The time slept by a request that ended at an attempt. */
  function Slept<T>(p: RetryPolicy, turn: Turn<T>, attempt: u32, ending: Ending<T>): nat {
    Waits(p, 1, attempt)
    + if ending.Stopped? && !turn.cancelled && turn.interrupted.Some? then turn.interrupted.value else 0
  }

  /** Runs a request, retrying transient failures. `turn` stands for the network and for
      cancellation, and `slept` is the time spent waiting. */
  method Attempt<T>(p: RetryPolicy, turn: u32 -> Turn<T>) returns (ending: Ending<T>, attempt: u32, slept: nat)
    ensures EndsAt(p, turn, attempt, ending)
    ensures slept == Slept(p, turn(attempt), attempt, ending)
    ensures var t := turn(attempt);
            if ending.Stopped? && !t.cancelled
            then t.interrupted.Some? && slept == Waits(p, 1, attempt) + t.interrupted.value
            else slept == Waits(p, 1, attempt)
  {
    attempt, slept := 1, 0;
    while true
      invariant attempt >= 1 && slept == Waits(p, 1, attempt)
      invariant Retried(p, turn, attempt)
      decreases U32_MAX - attempt
    {
      var t := turn(attempt);
      if t.cancelled {
        return Stopped, attempt, slept;
      }
      if t.outcome.Done? {
        return Answered(t.outcome.value), attempt, slept;
      }
      if !t.outcome.Transient? || !p.MayRetryAfter(attempt) {
        return Refused, attempt, slept;
      }
      var delay := DelayForAttempt(p, attempt);
      if delay != 0 {
        if t.interrupted.Some? && t.interrupted.value < delay {
          return Stopped, attempt, slept + t.interrupted.value;
        }
        slept := slept + delay;
      }
      attempt := attempt + 1;
    }
  }

  /** `worst_case_retry_wait`: the sum of the permitted waits, saturating. */
  method WorstCaseRetryWait(p: RetryPolicy) returns (total: Duration)
    ensures total == Least(Waits(p, 1, p.maxAttempts), 18_446_744_073_709_551_615 * 1_000_000_000 + 999_999_999)
  {
    total := 0;
    var attempt: u32 := 1;
    while attempt < p.maxAttempts
      invariant 1 <= attempt && (attempt <= p.maxAttempts || attempt == 1)
      invariant total == Least(Waits(p, 1, attempt), DURATION_MAX)
    {
      total := Least(total + DelayForAttempt(p, attempt), DURATION_MAX);
      attempt := attempt + 1;
    }
  }

  lemma {:induction false} WaitsGrow(p: RetryPolicy, until: u32, later: u32)
    requires until <= later
    ensures Waits(p, 1, until) <= Waits(p, 1, later)
    decreases later
  {
    if until < later {
      WaitsGrow(p, until, later - 1);
    }
  }

  /** The loop waits before a retry by the number of the attempt that failed, so the first
      retry comes at once and only the waits after it count towards the ceiling. */
  lemma {:induction false} WaitsBounded(p: RetryPolicy, until: u32)
    ensures Waits(p, 1, until) <= (if until < 3 then 0 else until - 2) * p.maxBackoff
    decreases until
  {
    if until >= 2 {
      WaitsBounded(p, until - 1);
      DelaysGrow(p, until - 1, until - 1);
      if until >= 3 {
        OneMore(until - 3, p.maxBackoff);
      }
    }
  }

  lemma OneMore(n: nat, b: nat)
    ensures (n + 1) * b == n * b + b
  {
  }

  /** No wait before the first retry; then the shortest wait, doubled with every attempt up
      to the 33rd and the same from the 34th on; and never more than the ceiling. */
  lemma DelayExactly(p: RetryPolicy, attempt: u32)
    ensures attempt <= 1 ==> DelayForAttempt(p, attempt) == 0
    ensures 2 <= attempt <= 33 ==> DelayForAttempt(p, attempt) == Least(p.backoff * Pow2(attempt - 2), p.maxBackoff)
    ensures attempt > 33 ==> DelayForAttempt(p, attempt) == Least(p.backoff * 0xFFFF_FFFF, p.maxBackoff)
  {
    hide Pow2, Least;
    DelayIs(p, attempt);
  }

  lemma Proportional(b: nat, m: nat, n: nat)
    requires m <= n
    ensures b * m <= b * n
  {
  }

  lemma AllBefore(b: nat, m: nat)
    ensures b * (2 * m - 1) == b * (m - 1) + b * m
  {
  }

  /** What is waited before the attempts up to the 34th: the waits double from the shortest
      while they keep under the ceiling, and are the ceiling from then on. */
  lemma {:induction false} WaitsExactly(p: RetryPolicy, until: u32) returns (m: nat)
    requires 2 <= until <= 34
    ensures m <= until - 2
    ensures m > 0 ==> p.backoff * Pow2(m - 1) <= p.maxBackoff
    ensures m < until - 2 ==> p.backoff * Pow2(m) > p.maxBackoff
    ensures Waits(p, 1, until) == p.backoff * (Pow2(m) - 1) + (until - 2 - m) * p.maxBackoff
    decreases until
  {
    hide DelayForAttempt;
    DelayExactly(p, until - 1);
    if until == 2 {
      m := 0;
      assert Waits(p, 1, 1) == 0;
    } else {
      var k := until - 3;
      m := WaitsExactly(p, until - 1);
      Pow2Grows(m, k);
      assert Pow2(k + 1) == 2 * Pow2(k);
      hide Pow2;
      Proportional(p.backoff, Pow2(m), Pow2(k));
      assert Waits(p, 1, until) == Waits(p, 1, until - 1) + Least(p.backoff * Pow2(k), p.maxBackoff);
      if m == k && p.backoff * Pow2(k) <= p.maxBackoff {
        m := k + 1;
        AllBefore(p.backoff, Pow2(k));
      } else {
        OneMore(k - m, p.maxBackoff);
      }
    }
  }

  /** Every wait after the 33rd attempt is the same: the shortest times the greatest u32, or
      the ceiling. */
  lemma {:induction false} WaitsBeyond(p: RetryPolicy, until: u32)
    requires until >= 34
    ensures Waits(p, 1, until) == Waits(p, 1, 34) + (until - 34) * Least(p.backoff * 0xFFFF_FFFF, p.maxBackoff)
    decreases until
  {
    hide DelayForAttempt, Least;
    if until > 34 {
      WaitsBeyond(p, until - 1);
      DelayExactly(p, until - 1);
      OneMore(until - 35, Least(p.backoff * 0xFFFF_FFFF, p.maxBackoff));
      assert Waits(p, 1, until) == Waits(p, 1, until - 1) + DelayForAttempt(p, until - 1);
    }
  }

  /** Whatever the network does and whenever the run is cancelled, a request comes to no
      attempt beyond the first that the policy does not permit and never waits longer than
      the worst case; it waits exactly that when nothing is cancelled and every attempt
      fails transiently; and the worst case is at most the ceiling for every retry but the
      first. */
  lemma RequestBounded<T>(p: RetryPolicy, turn: u32 -> Turn<T>, attempt: u32, ending: Ending<T>)
    requires EndsAt(p, turn, attempt, ending)
    ensures attempt <= if p.maxAttempts == 0 then 1 else p.maxAttempts
    ensures Slept(p, turn(attempt), attempt, ending) <= Waits(p, 1, p.maxAttempts)
    ensures (forall n: u32 :: turn(n) == Turn(false, Transient, None)) ==>
              ending.Refused? && Slept(p, turn(attempt), attempt, ending) == Waits(p, 1, p.maxAttempts)
    ensures Waits(p, 1, p.maxAttempts) <= (if p.maxAttempts < 3 then 0 else p.maxAttempts - 2) * p.maxBackoff
  {
    hide DelayForAttempt;
    if attempt > 1 {
      assert turn(attempt - 1).outcome.Transient? && attempt - 1 < p.maxAttempts;
    }
    if attempt < p.maxAttempts {
      WaitsGrow(p, attempt + 1, p.maxAttempts);
      assert Waits(p, 1, attempt + 1) == Waits(p, 1, attempt) + DelayForAttempt(p, attempt);
    }
    WaitsBounded(p, p.maxAttempts);
  }

  /** What happens around the attempts determines how a request ends, and at which. */
  lemma OneAnswer<T>(p: RetryPolicy, turn: u32 -> Turn<T>, a: u32, b: u32, e: Ending<T>, f: Ending<T>)
    requires EndsAt(p, turn, a, e) && EndsAt(p, turn, b, f)
    ensures a == b && e == f
  {
  }
}
