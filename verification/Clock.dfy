// Instants and durations as Go computes them: nanoseconds, an instant counted
// from the zero time (midnight UTC, 1 January of year 1), int64 durations.
module Clock {
  const SECOND: int := 1_000_000_000
  const MINUTE: int := 60 * SECOND
  const HOUR: int := 3600 * SECOND
  const ZERO_TIME: int := 0
  const MAX_INT64: int := 0x7FFF_FFFF_FFFF_FFFF
  const MIN_INT64: int := -0x8000_0000_0000_0000

  predicate IsInt64(n: int) { MIN_INT64 <= n <= MAX_INT64 }

  /** int64 arithmetic keeps the low 64 bits. */
  function Wrap64(n: int): (r: int)
    ensures IsInt64(r) && (IsInt64(n) ==> r == n)
  {
    var low := n % 0x1_0000_0000_0000_0000;
    if low <= MAX_INT64 then low else low - 0x1_0000_0000_0000_0000
  }

  /** `Time.Sub` saturates instead of wrapping. */
  function Sub(t: int, u: int): int {
    if t - u > MAX_INT64 then MAX_INT64
    else if t - u < MIN_INT64 then MIN_INT64
    else t - u
  }

  /** `Time.Truncate`: down to a multiple of `d` since the zero time. */
  function Truncate(t: int, d: int): int
    requires d > 0
  {
    t - t % d
  }

  /** The whole second an instant falls in. */
  function Floor(t: int): int { t / SECOND }

  lemma TruncateIsFloor(t: int)
    ensures Truncate(t, SECOND) == Floor(t) * SECOND
  {}

  lemma FloorOfSeconds(s: int)
    ensures Floor(s * SECOND) == s
  {}

  lemma FloorMonotone(t: int, u: int)
    requires t <= u
    ensures Floor(t) <= Floor(u)
  {}
}
