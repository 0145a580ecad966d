/**
 The delay before a retry: an exponential ceiling, scaled into its upper half by a jitter
 drawn at random. Jitter and scaling are over the reals; the result is whole seconds.
 */
module JobBackoff {
  import opened Prelude
  import opened JobRepo
  import opened JobLife

  const BASE_SECONDS := 30
  const CAP_SECONDS := 1800

  function ShiftedOne(bits: nat): (n: nat)
    ensures n >= 1
  {
    if bits == 0 then 1 else 2 * ShiftedOne(bits - 1)
  }

  function Backoff(attempts: nat): int {
    Min(Max(BASE_SECONDS * ShiftedOne(Min(attempts, 20)), 1), CAP_SECONDS)
  }

  /** To the nearest whole number, halves away from zero; `x` is not negative. */
  function Rounded(x: real): int {
    (x + 0.5).Floor
  }

  function Clamped(jitter: real): real {
    if jitter < 0.0 then 0.0 else if jitter > 1.0 then 1.0 else jitter
  }

  /** Half of the ceiling, and of the other half what the jitter leaves. */
  function Jittered(ceiling: int, jitter: real): real {
    ceiling as real * (0.5 + jitter * 0.5)
  }

  function NextRetryAt(attempts: nat, jitter: real, now: int): int {
    now + Max(Rounded(Jittered(Backoff(attempts), Clamped(jitter))), 1)
  }

  /** Half the ceiling after `attempts` failures: 15 seconds, doubled each time up to 900. */
  function HalfCeiling(attempts: nat): int {
    if attempts == 0 then 15 else Min(2 * HalfCeiling(attempts - 1), 900)
  }

  lemma {:induction false} ShiftsGrow(m: nat, n: nat)
    requires m <= n
    ensures ShiftedOne(m) <= ShiftedOne(n)
    decreases n
  {
    if m < n { ShiftsGrow(m, n - 1); }
  }

  /** Neither the clamp of the shift nor that of the product changes the capped doubling. */
  lemma {:induction false} BackoffDoubles(attempts: nat)
    ensures Backoff(attempts) == 2 * HalfCeiling(attempts)
    ensures 15 <= HalfCeiling(attempts) <= 900
  {
    assert ShiftedOne(3) == 8;
    assert ShiftedOne(6) == 64;
    if attempts > 0 {
      BackoffDoubles(attempts - 1);
      if attempts > 6 {
        ShiftsGrow(6, Min(attempts, 20));
        ShiftsGrow(6, Min(attempts - 1, 20));
      }
    }
  }

  /** `half` and the part of it that the jitter adds. */
  function Stretched(half: int, j: real): real {
    half as real + half as real * j
  }

  lemma Scaled(ceiling: int, half: int, j: real)
    requires ceiling == 2 * half
    ensures Jittered(ceiling, j) == Stretched(half, j)
  {
    var h := half as real;
    assert ceiling as real == 2.0 * h;
    assert 2.0 * h * (0.5 + j * 0.5) == h * (2.0 * (0.5 + j * 0.5)) == h * (1.0 + j) == h + h * j;
  }

  lemma StretchedGrows(half: int, half': int, j: real, j': real)
    requires 0 <= half <= half' && 0.0 <= j <= j'
    ensures Stretched(half, j) <= Stretched(half', j')
  {
    var h, h' := half as real, half' as real;
    assert h * j <= h' * j by { assert (h' - h) * j >= 0.0; }
    assert h' * j <= h' * j' by { assert h' * (j' - j) >= 0.0; }
  }

  lemma StretchedEnds(half: int)
    ensures Stretched(half, 0.0) == half as real && Stretched(half, 1.0) == (2 * half) as real
  {
  }

  lemma ClampedGrows(j: real, j': real)
    ensures 0.0 <= Clamped(j) <= 1.0 && (j <= j' ==> Clamped(j) <= Clamped(j'))
    ensures (j <= 0.0 ==> Clamped(j) == 0.0) && (j >= 1.0 ==> Clamped(j) == 1.0)
  {
  }

  lemma RoundedGrows(x: real, y: real)
    ensures x <= y ==> Rounded(x) <= Rounded(y)
  {
  }

  lemma RoundedWhole(n: int)
    ensures Rounded(n as real) == n
  {
  }

  lemma DelayFromHalf(attempts: nat, jitter: real, now: int)
    ensures NextRetryAt(attempts, jitter, now)
            == now + Max(Rounded(Stretched(HalfCeiling(attempts), Clamped(jitter))), 1)
  {
    BackoffDoubles(attempts);
    Scaled(Backoff(attempts), HalfCeiling(attempts), Clamped(jitter));
    hide Backoff, HalfCeiling, Clamped, Rounded, Stretched, Jittered;
  }

  /**
   Whatever the jitter, in range or not, a retry waits between half of the ceiling and all
   of it, and both ends are reached.
   */
  lemma RetryWaitsWithinTheWindow(attempts: nat, jitter: real, now: int)
    ensures now + HalfCeiling(attempts) <= NextRetryAt(attempts, jitter, now) <= now + 2 * HalfCeiling(attempts)
    ensures jitter <= 0.0 ==> NextRetryAt(attempts, jitter, now) == now + HalfCeiling(attempts)
    ensures jitter >= 1.0 ==> NextRetryAt(attempts, jitter, now) == now + 2 * HalfCeiling(attempts)
  {
    hide *;
    var half, j := HalfCeiling(attempts), Clamped(jitter);
    BackoffDoubles(attempts);
    DelayFromHalf(attempts, jitter, now);
    ClampedGrows(jitter, jitter);
    StretchedEnds(half);
    StretchedGrows(half, half, 0.0, j);
    StretchedGrows(half, half, j, 1.0);
    RoundedGrows(half as real, Stretched(half, j));
    RoundedGrows(Stretched(half, j), (2 * half) as real);
    RoundedWhole(half);
    RoundedWhole(2 * half);
  }

  /** The delay is the exact share of the ceiling to the nearest second, a half counting up. */
  lemma DelayIsNearest(attempts: nat, jitter: real, now: int)
    requires 0.0 <= jitter <= 1.0
    ensures var share := Stretched(HalfCeiling(attempts), jitter);
            share - 0.5 < (NextRetryAt(attempts, jitter, now) - now) as real <= share + 0.5
  {
    assert Clamped(jitter) == jitter;
    hide *;
    BackoffDoubles(attempts);
    DelayFromHalf(attempts, jitter, now);
    RetryWaitsWithinTheWindow(attempts, jitter, now);
    RoundedIsNear(Stretched(HalfCeiling(attempts), jitter));
  }

  lemma RoundedIsNear(x: real)
    ensures x - 0.5 < Rounded(x) as real <= x + 0.5
  {
  }

  /** More jitter or more failures never make a retry earlier. */
  lemma RetriesNeverGetEarlier(attempts: nat, more: nat, jitter: real, jitter': real, now: int)
    requires attempts <= more && jitter <= jitter'
    ensures NextRetryAt(attempts, jitter, now) <= NextRetryAt(more, jitter', now)
  {
    hide *;
    CeilingsGrow(attempts, more);
    ClampedGrows(jitter, jitter');
    BackoffDoubles(attempts);
    DelayFromHalf(attempts, jitter, now);
    DelayFromHalf(more, jitter', now);
    StretchedGrows(HalfCeiling(attempts), HalfCeiling(more), Clamped(jitter), Clamped(jitter'));
    RoundedGrows(Stretched(HalfCeiling(attempts), Clamped(jitter)), Stretched(HalfCeiling(more), Clamped(jitter')));
  }

  lemma {:induction false} CeilingsGrow(m: nat, n: nat)
    requires m <= n
    ensures HalfCeiling(m) <= HalfCeiling(n)
    decreases n
  {
    BackoffDoubles(n);
    if m < n {
      CeilingsGrow(m, n - 1);
      BackoffDoubles(n - 1);
    }
  }

  /**
   A job whose run failed at time `at` with budget left is selected by no poller before
   half the ceiling for its failures has passed.
   */
  lemma FailedJobsRest(
    es: seq<Event>, id: JobId, at: int, jitter: real, now: int, limit: nat, rows: seq<JobRecord>)
    requires id in Run(INITIAL, es).jobs && IsSelection(Run(INITIAL, es).jobs, now, limit, rows)
    requires var s := StoryOf(INITIAL, es, id, Unknown);
             && s.Alive? && s.last.Ran? && s.last.outcome.HandlerErr? && s.last.attempts + 1 < s.last.maxAttempts
             && s.last.retryAt == NextRetryAt(s.last.attempts + 1, jitter, at)
             && now < at + HalfCeiling(s.last.attempts + 1)
    ensures forall r :: r in rows ==> r.id != id
  {
    hide Run, StoryOf, IsSelection, NextRetryAt, HalfCeiling;
    RetriesWait(es, id, now, limit, rows);
    RetryWaitsWithinTheWindow(StoryOf(INITIAL, es, id, Unknown).last.attempts + 1, jitter, at);
  }
}
