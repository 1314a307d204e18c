/** Lengths of time in milliseconds, and the UTC calendar. */
module Clock {
  const SECOND: int := 1_000
  const DAY: int := 86_400_000

  /** The number of the UTC calendar day an instant falls in. */
  function UtcDay(t: int): int { t / DAY }

  /** Day n runs from midnight to midnight, twenty-four hours of sixty minutes of sixty seconds. */
  lemma UtcDayIs(t: int, n: int)
    ensures UtcDay(t) == n <==> n * 24 * 60 * 60 * 1000 <= t < (n + 1) * 24 * 60 * 60 * 1000
  {
  }
}
