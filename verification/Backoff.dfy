// client-windows/internal/report/loop.go: how long the agent waits between
// reports. Durations are int64 nanoseconds and doubling wraps.
module Backoff {
  import opened Clock

  const MAX_BACKOFF: int := 2 * MINUTE

  datatype Outcome = Accepted | PermanentFailure | RetryableFailure

  function NextBackoff(interval: int, period: int): int {
    var d := Wrap64(period * 2);
    var capped := if d > MAX_BACKOFF then MAX_BACKOFF else d;
    if capped < interval then interval else capped
  }

  function CapBackoff(interval: int): int {
    if MAX_BACKOFF < interval then interval else MAX_BACKOFF
  }

  // ---------- What the waits should be, from the history alone ----------

  function Max(a: int, b: int): int { if a < b then b else a }

  function Min(a: int, b: int): int { if a < b then a else b }

  function Pow2(n: nat): (p: nat)
    ensures p >= 1
  {
    if n == 0 then 1 else 2 * Pow2(n - 1)
  }

  /** Retryable failures in a row at the end of a history. */
  function Failures(h: seq<Outcome>): nat {
    if h == [] || h[|h| - 1] != RetryableFailure then 0 else 1 + Failures(h[..|h| - 1])
  }

  /** Whether a permanent failure happened since the start or the last success. */
  predicate Stuck(h: seq<Outcome>) {
    h != [] && !h[|h| - 1].Accepted? && (h[|h| - 1].PermanentFailure? || Stuck(h[..|h| - 1]))
  }

  /** The interval doubled `n` times, between the interval and two minutes. */
  function Doubled(interval: int, n: nat): int {
    Max(interval, Min(Pow2(n) * interval, MAX_BACKOFF))
  }

  /** The wait after the last outcome of a history. */
  function WaitAfter(interval: int, h: seq<Outcome>): int
    requires h != []
  {
    if h[|h| - 1].Accepted? then interval
    else if Stuck(h) then Max(interval, MAX_BACKOFF)
    else Doubled(interval, Failures(h) - 1)
  }

  function PeriodAfter(interval: int, h: seq<Outcome>): int {
    if Stuck(h) then Max(interval, MAX_BACKOFF) else Doubled(interval, Failures(h))
  }

  // ---------- The loop ----------

  /** Doubling in int64, wrapped or not, is doubling between the bounds. */
  lemma DoublesOnce(interval: int, n: nat)
    requires 0 < interval <= MAX_INT64
    ensures NextBackoff(interval, Doubled(interval, n)) == Doubled(interval, n + 1)
  {
    var p := Pow2(n) * interval;
    assert p >= interval by { Multiplies(Pow2(n), interval); }
    assert Pow2(n + 1) * interval == 2 * p;
  }

  lemma Multiplies(k: nat, interval: int)
    requires k >= 1 && interval > 0
    ensures k * interval >= interval
  {}

  lemma StaysCapped(interval: int)
    requires 0 < interval <= MAX_INT64
    ensures NextBackoff(interval, Max(interval, MAX_BACKOFF)) == Max(interval, MAX_BACKOFF)
  {}

  /** A failure is waited out for the period so far, and the period doubles. */
  lemma NextPeriod(interval: int, h: seq<Outcome>)
    requires 0 < interval <= MAX_INT64
    ensures WaitAfter(interval, h + [RetryableFailure]) == PeriodAfter(interval, h)
    ensures PeriodAfter(interval, h + [RetryableFailure]) == NextBackoff(interval, PeriodAfter(interval, h))
  {
    hide NextBackoff, Doubled;
    assert (h + [RetryableFailure])[..|h|] == h;
    if Stuck(h) { StaysCapped(interval); } else { DoublesOnce(interval, Failures(h)); }
  }

  lemma FreshPeriod(interval: int, h: seq<Outcome>)
    requires interval > 0
    ensures PeriodAfter(interval, h + [Accepted]) == interval
    ensures PeriodAfter(interval, []) == interval
  {
    assert Doubled(interval, 0) == interval;
  }

  /** One round per outcome; the run ends wherever it is cancelled. The wait after
      every round is the closed form, for every positive int64 interval. */
  method Run(interval: int, outcomes: seq<Outcome>) returns (waits: seq<int>)
    requires 0 < interval <= MAX_INT64
    ensures |waits| == |outcomes|
    ensures forall i | 0 <= i < |waits| :: waits[i] == WaitAfter(interval, outcomes[..i + 1])
    // The same from one round to the next, in nanoseconds.
    ensures forall i | 0 <= i < |waits| ::
              waits[i] ==
                if outcomes[i].Accepted? then interval
                else if outcomes[i].PermanentFailure? then Max(interval, 120_000_000_000)
                else if i == 0 || outcomes[i - 1].Accepted? then interval
                else if outcomes[i - 1].PermanentFailure? then Max(interval, 120_000_000_000)
                else Max(interval, Min(2 * waits[i - 1], 120_000_000_000))
  {
    hide Doubled, NextBackoff;
    var period := interval;
    waits := [];
    FreshPeriod(interval, []);
    for i := 0 to |outcomes|
      invariant period == PeriodAfter(interval, outcomes[..i])
      invariant |waits| == i
      invariant forall k | 0 <= k < i :: waits[k] == WaitAfter(interval, outcomes[..k + 1])
    {
      assert outcomes[..i + 1] == outcomes[..i] + [outcomes[i]];
      var wait: int;
      match outcomes[i] {
        case Accepted =>
          FreshPeriod(interval, outcomes[..i]);
          wait := interval;
          period := interval;
        case PermanentFailure =>
          wait := CapBackoff(interval);
          period := CapBackoff(interval);
        case RetryableFailure =>
          NextPeriod(interval, outcomes[..i]);
          wait := period;
          period := NextBackoff(interval, period);
      }
      waits := waits + [wait];
    }
    hide WaitAfter;
    forall i | 0 <= i < |waits|
      ensures waits[i] ==
                if outcomes[i].Accepted? then interval
                else if outcomes[i].PermanentFailure? then Max(interval, 120_000_000_000)
                else if i == 0 || outcomes[i - 1].Accepted? then interval
                else if outcomes[i - 1].PermanentFailure? then Max(interval, 120_000_000_000)
                else Max(interval, Min(2 * waits[i - 1], 120_000_000_000))
    {
      assert outcomes[..i + 1] == outcomes[..i] + [outcomes[i]];
      WaitStep(interval, outcomes[..i], outcomes[i]);
    }
  }

  /** How each wait follows from the one before. */
  lemma WaitStep(interval: int, h: seq<Outcome>, o: Outcome)
    requires 0 < interval <= MAX_INT64
    ensures var wait := WaitAfter(interval, h + [o]);
            wait ==
              if o.Accepted? then interval
              else if o.PermanentFailure? then Max(interval, 120_000_000_000)
              else if h == [] || h[|h| - 1].Accepted? then interval
              else if h[|h| - 1].PermanentFailure? then Max(interval, 120_000_000_000)
              else Max(interval, Min(2 * WaitAfter(interval, h), 120_000_000_000))
  {
    assert Doubled(interval, 0) == interval;
    hide Doubled;
    assert (h + [o])[..|h|] == h;
    assert h != [] && h[|h| - 1].PermanentFailure? ==> Stuck(h);
    assert h != [] && h[|h| - 1].Accepted? ==> !Stuck(h) && Failures(h) == 0;
    if o == RetryableFailure {
      NextPeriod(interval, h);
      if h != [] && h[|h| - 1] == RetryableFailure && !Stuck(h) { DoubledStep(interval, Failures(h) - 1); }
    }
  }

  lemma DoubledStep(interval: int, n: nat)
    requires interval > 0
    ensures Doubled(interval, n + 1) == Max(interval, Min(2 * Doubled(interval, n), 120_000_000_000))
  {
    var p := Pow2(n) * interval;
    assert p >= interval by { Multiplies(Pow2(n), interval); }
    assert Pow2(n + 1) * interval == 2 * p;
  }

  // ---------- What follows for every run ----------

  /** No failure makes the agent report faster than configured, nor slower than
      two minutes unless it is configured slower. */
  lemma WaitBounds(interval: int, h: seq<Outcome>)
    requires interval > 0 && h != []
    ensures interval <= WaitAfter(interval, h) <= Max(interval, MAX_BACKOFF)
  {
    assert Failures(h) >= 1 || h[|h| - 1] != RetryableFailure;
  }

  lemma {:induction false} Pow2Monotone(m: nat, n: nat)
    requires m <= n
    ensures Pow2(m) <= Pow2(n)
    decreases n
  {
    if m < n { Pow2Monotone(m, n - 1); }
  }

  /** Until the next success the waits never get shorter. */
  lemma WaitsGrow(interval: int, h: seq<Outcome>, o: Outcome)
    requires interval > 0 && h != [] && !h[|h| - 1].Accepted? && !o.Accepted?
    ensures WaitAfter(interval, h) <= WaitAfter(interval, h + [o])
  {
    hide Doubled;
    assert (h + [o])[..|h|] == h;
    WaitBounds(interval, h);
    if !Stuck(h) && o == RetryableFailure { DoubledStep(interval, Failures(h) - 1); }
  }

  /** Thirty-eight failures in a row reach the bound, whatever the interval. */
  lemma BoundReached(interval: int, h: seq<Outcome>)
    requires interval > 0 && Failures(h) >= 38
    ensures WaitAfter(interval, h) == Max(interval, MAX_BACKOFF)
  {
    if !Stuck(h) {
      Pow2Monotone(37, Failures(h) - 1);
      Pow2Of37();
      var p := Pow2(Failures(h) - 1);
      assert p * interval >= p by { Multiplies(interval, p); }
    }
  }

  lemma Pow2Of37()
    ensures Pow2(37) == 0x20_0000_0000
  {
    assert Pow2(10) == 1024;
    assert Pow2(20) == 0x10_0000;
    assert Pow2(30) == 0x4000_0000;
  }

  /** One doubling that wraps: the agent keeps its interval instead of speeding up. */
  lemma WrappedDoubling()
    ensures var interval := 0x4000_0000_0000_0000;
            Wrap64(interval * 2) < 0 && NextBackoff(interval, interval) == interval
  {}

  /** The waits of the documented example. */
  lemma DefaultWaits(j: nat)
    requires 1 <= j
    ensures Doubled(10 * SECOND, j - 1) == (match j
      case 1 => 10 * SECOND
      case 2 => 20 * SECOND
      case 3 => 40 * SECOND
      case 4 => 80 * SECOND
      case _ => 120 * SECOND)
  {
    if j >= 5 { Pow2Monotone(4, j - 1); assert Pow2(4) == 16; }
  }
}
