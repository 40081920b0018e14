// Local days and clocks. A zone is what the code asks of `*time.Location`: the
// local date and time of day of an instant, and the instant `time.Date` answers
// for a local date and time of day.
module Zones {
  import opened Clock

  const DAY: int := 24 * HOUR

  /** Time since local midnight, as the wall clock shows it. */
  type ClockTime = c: int | 0 <= c < DAY

  /** A calendar day is a day number; the code prints it as a date. */
  datatype Zone = Zone(dayOf: int -> int, clockOf: int -> ClockTime, at: (int, ClockTime) -> int)

  function HourOf(z: Zone, t: int): (h: int)
    ensures 0 <= h < 24
    ensures h * HOUR <= z.clockOf(t) < (h + 1) * HOUR
  {
    z.clockOf(t) / HOUR
  }

  /** `startOfDay`: what `time.Date` answers for midnight of the day of `t`. */
  function StartOfDay(z: Zone, t: int): int { z.at(z.dayOf(t), 0) }

  /** `t.AddDate(0, 0, 1)`: the same wall clock on the next date. */
  function NextDay(z: Zone, t: int): int { z.at(z.dayOf(t) + 1, z.clockOf(t)) }

  /** One turn of the day loop. */
  function NextMidnight(z: Zone, cur: int): int { StartOfDay(z, NextDay(z, cur)) }

  /** The date on which one turn of the day loop lands from the start of `d`. */
  function DateAfter(z: Zone, d: int): int { z.dayOf(NextDay(z, z.at(d, 0))) }

  /** The dates that meet [from, to), the first at least, and the one after them. */
  predicate AmongDates(z: Zone, from: int, to: int, d: int) {
    z.dayOf(from) <= d && (d == z.dayOf(from) || d <= z.dayOf(to - 1) + 1)
  }

  /** No midnight of [from, to) is skipped: each of its days begins at its
      midnight, may have any length, and is followed by the next date. */
  ghost predicate Regular(z: Zone, from: int, to: int) {
    && (forall t, d | AmongDates(z, from, to, d) :: z.dayOf(t) >= d <==> z.at(d, 0) <= t)
    && (forall d | AmongDates(z, from, to, d) :: z.dayOf(z.at(d, 0)) == d)
    && (forall d | z.dayOf(from) <= d <= z.dayOf(to - 1) :: DateAfter(z, d) == d + 1)
  }

  /** The `n`-th value of the loop variable of daySlots. */
  function Cur(z: Zone, from: int, n: nat): int {
    if n == 0 then StartOfDay(z, from) else NextMidnight(z, Cur(z, from, n - 1))
  }

  lemma {:induction false} CurIsMidnight(z: Zone, from: int, n: nat)
    requires forall d | z.dayOf(from) <= d < z.dayOf(from) + n :: DateAfter(z, d) == d + 1
    ensures Cur(z, from, n) == z.at(z.dayOf(from) + n, 0)
  {
    if n > 0 {
      CurIsMidnight(z, from, n - 1);
      assert DateAfter(z, z.dayOf(from) + n - 1) == z.dayOf(from) + n;
    }
  }

  /** While no turn skips, the loop visits the midnights of consecutive dates,
      each once and in order, and stops after the last date that begins before
      `to`. */
  lemma VisitsEveryDate(z: Zone, from: int, to: int, n: nat)
    requires Regular(z, from, to) && (n == 0 || z.dayOf(from) + n <= z.dayOf(to - 1) + 1)
    ensures Cur(z, from, n) == z.at(z.dayOf(from) + n, 0)
    ensures Cur(z, from, n) < to <==> z.dayOf(from) + n <= z.dayOf(to - 1)
    ensures z.dayOf(Cur(z, from, n)) == z.dayOf(from) + n
    ensures NextMidnight(z, Cur(z, from, n)) == Cur(z, from, n + 1)
  {
    CurIsMidnight(z, from, n);
    assert AmongDates(z, from, to, z.dayOf(from) + n);
  }

  // ---------- Zones that skip a midnight ----------

  lemma {:induction false} Stuck(z: Zone, d: int, from: int, n: nat, k: nat)
    requires Cur(z, from, n) == z.at(d, 0) && DateAfter(z, d) == d
    ensures Cur(z, from, n + k) == z.at(d, 0)
  {
    if k > 0 { Stuck(z, d, from, n, k - 1); }
  }

  /** Some turn of the loop reaches `to`. */
  ghost predicate Terminates(z: Zone, from: int, to: int) {
    exists n: nat :: Cur(z, from, n) >= to
  }

  /** The date of the `n`-th value of the loop variable. */
  function DateNo(z: Zone, from: int, n: nat): int {
    if n == 0 then z.dayOf(from) else DateAfter(z, DateNo(z, from, n - 1))
  }

  lemma {:induction false} CurIsDateNo(z: Zone, from: int, n: nat)
    ensures Cur(z, from, n) == z.at(DateNo(z, from, n), 0)
  {
    if n > 0 { CurIsDateNo(z, from, n - 1); }
  }

  /** `last` is the last date of the window, and the loop never lands on an earlier
      date from a later one. How far a turn goes, and whether it goes forward at
      all, is left open. */
  ghost predicate Window(z: Zone, from: int, to: int, last: int) {
    && z.dayOf(from) <= last
    && (forall d :: z.at(d, 0) < to <==> d <= last)
    && (forall d, e | d <= e <= last :: DateAfter(z, d) <= DateAfter(z, e))
  }

  lemma {:induction false} StaysBelow(z: Zone, from: int, to: int, last: int, d: int, n: nat)
    requires Window(z, from, to, last) && z.dayOf(from) <= d <= last && DateAfter(z, d) <= d
    ensures DateNo(z, from, n) <= d
  {
    if n > 0 { StaysBelow(z, from, to, last, d, n - 1); }
  }

  lemma {:induction false} Climbs(z: Zone, from: int, last: int, n: nat) returns (m: nat)
    requires forall d | z.dayOf(from) <= d <= last :: DateAfter(z, d) > d
    ensures m <= n && (DateNo(z, from, m) > last || (m == n && DateNo(z, from, m) >= z.dayOf(from) + n))
  {
    m := n;
    if n > 0 {
      var k := Climbs(z, from, last, n - 1);
      if DateNo(z, from, k) > last { m := k; }
    }
  }

  /** The day loop terminates if and only if every turn from a date of the window
      goes forward. */
  lemma TerminatesIff(z: Zone, from: int, to: int, last: int)
    requires Window(z, from, to, last)
    ensures Terminates(z, from, to) <==> forall d | z.dayOf(from) <= d <= last :: DateAfter(z, d) > d
  {
    hide DateAfter;
    if forall d | z.dayOf(from) <= d <= last :: DateAfter(z, d) > d {
      var n := Climbs(z, from, last, last + 1 - z.dayOf(from));
      CurIsDateNo(z, from, n);
      assert Cur(z, from, n) >= to;
    } else {
      var d :| z.dayOf(from) <= d <= last && DateAfter(z, d) <= d;
      forall n: nat ensures Cur(z, from, n) < to {
        StaysBelow(z, from, to, last, d, n);
        CurIsDateNo(z, from, n);
      }
    }
  }

  lemma RegularTerminates(z: Zone, from: int, to: int)
    requires Regular(z, from, to)
    ensures Terminates(z, from, to)
  {
    var first, last := z.dayOf(from), z.dayOf(to - 1);
    var n := if first <= last then last + 1 - first else 0;
    VisitsEveryDate(z, from, to, n);
    assert Cur(z, from, n) >= to;
  }

  // ---------- Zones with one transition, computed as time.Date does ----------

  function OffsetAt(t: int, shift: int, before: int, after: int): int {
    if t < shift then before else after
  }

  /** `time.Date`: guess the offset as if the local time were UTC, and look it up
      again when the guess leaves the period of that offset. */
  function DateIn(local: int, shift: int, before: int, after: int): int {
    var guess := OffsetAt(local, shift, before, after);
    if guess == 0 then local
    else
      var utc := local - guess;
      if (utc < shift) == (local < shift) then utc else local - OffsetAt(utc, shift, before, after)
  }

  function OneShift(shift: int, before: int, after: int): Zone {
    Zone(t => (t + OffsetAt(t, shift, before, after)) / DAY,
         t => (t + OffsetAt(t, shift, before, after)) % DAY,
         (d, c) => DateIn(d * DAY + c, shift, before, after))
  }

  predicate SmallShift(before: int, after: int) { -DAY < after - before < DAY }

  /** The change of clocks touches the midnight of `d`: it skips it or shows it
      twice, unless the one midnight `time.Date` then answers is the moment the
      date begins. */
  predicate Disturbed(d: int, shift: int, before: int, after: int) {
    var m := d * DAY;
    || (shift + before <= m < shift + after && (m < shift || m > shift + before))
    || (shift + after <= m < shift + before && (m >= shift || m > shift + after))
  }

  lemma ShiftDay(t: int, d: int, shift: int, before: int, after: int)
    ensures OneShift(shift, before, after).dayOf(t) >= d <==> d * DAY <= t + OffsetAt(t, shift, before, after)
  {}

  lemma ShiftDayIs(t: int, d: int, c: int, shift: int, before: int, after: int)
    requires 0 <= c < DAY && t + OffsetAt(t, shift, before, after) == d * DAY + c
    ensures OneShift(shift, before, after).dayOf(t) == d && OneShift(shift, before, after).clockOf(t) == c
  {}

  /** An undisturbed day begins at its midnight. */
  lemma BeginsAtMidnight(d: int, t: int, shift: int, before: int, after: int)
    requires !Disturbed(d, shift, before, after)
    ensures var z := OneShift(shift, before, after); z.dayOf(t) >= d <==> z.at(d, 0) <= t
  {
    ShiftDay(t, d, shift, before, after);
    assert OneShift(shift, before, after).at(d, 0) == DateIn(d * DAY, shift, before, after);
  }

  /** Where `time.Date` puts an undisturbed midnight on the clock: at 00:00, or at
      the end of a gap that begins there. */
  lemma MidnightClock(d: int, shift: int, before: int, after: int)
    requires SmallShift(before, after) && !Disturbed(d, shift, before, after)
    ensures var z := OneShift(shift, before, after);
            && z.dayOf(z.at(d, 0)) == d
            && z.clockOf(z.at(d, 0)) == if d * DAY == shift + before && before < after then after - before else 0
  {
    var t := DateIn(d * DAY, shift, before, after);
    var c := if d * DAY == shift + before && before < after then after - before else 0;
    assert t + OffsetAt(t, shift, before, after) == d * DAY + c;
    ShiftDayIs(t, d, c, shift, before, after);
  }

  lemma NextDateFollows(d: int, shift: int, before: int, after: int)
    requires SmallShift(before, after)
    requires !Disturbed(d, shift, before, after) && !Disturbed(d + 1, shift, before, after)
    ensures DateAfter(OneShift(shift, before, after), d) == d + 1
  {
    var z := OneShift(shift, before, after);
    MidnightClock(d, shift, before, after);
    MidnightClock(d + 1, shift, before, after);
    if d * DAY == shift + before && before < after {
      var c := after - before;
      var t := DateIn((d + 1) * DAY + c, shift, before, after);
      assert t + OffsetAt(t, shift, before, after) == (d + 1) * DAY + c;
      ShiftDayIs(t, d + 1, c, shift, before, after);
    }
  }

  /** A disturbed midnight is not where its day begins. */
  lemma DisturbedIsIrregular(d: int, shift: int, before: int, after: int) returns (t: int)
    requires SmallShift(before, after) && Disturbed(d, shift, before, after)
    ensures var z := OneShift(shift, before, after);
            z.dayOf(z.at(d, 0)) != d || !(z.dayOf(t) >= d <==> z.at(d, 0) <= t)
  {
    var m, start := d * DAY, DateIn(d * DAY, shift, before, after);
    t := if after < before && m >= shift then m - before else shift;
    ShiftDay(start, d, shift, before, after);
    ShiftDay(t, d, shift, before, after);
  }

  /** With one change of clocks, in either direction and at any offset, no midnight
      of the window is skipped if and only if the change touches none of them. */
  lemma OneShiftRegularIff(shift: int, before: int, after: int, from: int, to: int)
    requires SmallShift(before, after)
    ensures var z := OneShift(shift, before, after);
            Regular(z, from, to) <==> forall d | AmongDates(z, from, to, d) :: !Disturbed(d, shift, before, after)
  {
    var z := OneShift(shift, before, after);
    hide OneShift, Disturbed, DateAfter;
    if forall d | AmongDates(z, from, to, d) :: !Disturbed(d, shift, before, after) {
      forall t, d | AmongDates(z, from, to, d) ensures z.dayOf(t) >= d <==> z.at(d, 0) <= t {
        BeginsAtMidnight(d, t, shift, before, after);
      }
      forall d | AmongDates(z, from, to, d) ensures z.dayOf(z.at(d, 0)) == d { MidnightClock(d, shift, before, after); }
      forall d | z.dayOf(from) <= d <= z.dayOf(to - 1) ensures DateAfter(z, d) == d + 1 {
        assert AmongDates(z, from, to, d) && AmongDates(z, from, to, d + 1);
        NextDateFollows(d, shift, before, after);
      }
    } else {
      var d :| AmongDates(z, from, to, d) && Disturbed(d, shift, before, after);
      var t := DisturbedIsIrregular(d, shift, before, after);
    }
  }

  function Fixed(offset: int): Zone { OneShift(0, offset, offset) }

  /** Every zone of constant offset is regular; UTC is one. */
  lemma FixedIsRegular(offset: int, from: int, to: int)
    ensures Regular(Fixed(offset), from, to)
  {
    OneShiftRegularIff(0, offset, offset, from, to);
  }

  // ---------- Clocks that skip a midnight ----------

  /** West of UTC, where a midnight that is skipped is still ahead on the UTC clock:
      `time.Date` answers a time of the day before. */
  lemma WestwardGap(d: int, shift: int, before: int, after: int)
    requires 0 < after - before && 2 * (after - before) <= DAY
    requires shift + before <= d * DAY < shift + after && d * DAY < shift
    ensures var z := OneShift(shift, before, after);
            && z.dayOf(z.at(d, 0)) == d - 1
            && DateAfter(z, d - 1) == d - 1 && DateAfter(z, d) == d
            && (forall e | e < d :: !Disturbed(e, shift, before, after))
  {
    var z, gap := OneShift(shift, before, after), after - before;
    var start := DateIn(d * DAY, shift, before, after);
    assert start == d * DAY - after < shift;
    ShiftDayIs(start, d - 1, DAY - gap, shift, before, after);
    forall e | e < d ensures !Disturbed(e, shift, before, after) { assert e * DAY <= (d - 1) * DAY; }
    MidnightClock(d - 1, shift, before, after);
    var t := DateIn(d * DAY + (DAY - gap), shift, before, after);
    assert t == d * DAY + (DAY - gap) - after >= shift;
    ShiftDayIs(t, d, DAY - gap, shift, before, after);
  }

  /** The day loop then stays on one date: any window that begins on that day or
      earlier, and ends later, is never finished. Havana does this each spring,
      going from 00:00 to 01:00 five hours west of UTC. */
  lemma SkippedMidnightNeverEnds(d: int, shift: int, before: int, after: int, from: int, to: int)
    requires 0 < after - before && 2 * (after - before) <= DAY
    requires shift + before <= d * DAY < shift + after && d * DAY < shift
    ensures var z := OneShift(shift, before, after);
            && (z.dayOf(from) < d && z.at(d - 1, 0) < to ==> !Terminates(z, from, to))
            && (z.dayOf(from) == d && z.at(d, 0) < to ==> !Terminates(z, from, to))
  {
    var z := OneShift(shift, before, after);
    WestwardGap(d, shift, before, after);
    hide OneShift, DateAfter, Disturbed;
    if z.dayOf(from) < d && z.at(d - 1, 0) < to {
      forall n: nat ensures Cur(z, from, n) < to { BeforeTheGap(d, shift, before, after, from, to, n); }
    }
    if z.dayOf(from) == d && z.at(d, 0) < to {
      forall n: nat ensures Cur(z, from, n) < to { Stuck(z, d, from, 0, n); }
    }
  }

  lemma BeforeTheGap(d: int, shift: int, before: int, after: int, from: int, to: int, n: nat)
    requires SmallShift(before, after) && forall e | e < d :: !Disturbed(e, shift, before, after)
    requires var z := OneShift(shift, before, after);
             z.dayOf(from) < d && z.at(d - 1, 0) < to && DateAfter(z, d - 1) == d - 1
    ensures Cur(OneShift(shift, before, after), from, n) < to
  {
    var z := OneShift(shift, before, after);
    hide OneShift, DateAfter, Disturbed;
    var k := d - 1 - z.dayOf(from);
    forall e | z.dayOf(from) <= e < d - 1 ensures DateAfter(z, e) == e + 1 {
      NextDateFollows(e, shift, before, after);
    }
    CurIsMidnight(z, from, k);
    if n <= k {
      CurIsMidnight(z, from, n);
      BeginsAtMidnight(z.dayOf(from) + n, z.at(d - 1, 0), shift, before, after);
      MidnightClock(d - 1, shift, before, after);
    } else {
      Stuck(z, d - 1, from, k, n - k);
    }
  }

  /** East of UTC a gap that begins at midnight does no harm: `time.Date` answers
      its end, the first moment of the day. Beirut is an example. */
  lemma SkippedMidnightEastIsFine(d: int, shift: int, before: int, after: int)
    requires 0 < after - before < DAY && 0 <= before && d * DAY == shift + before
    ensures var z := OneShift(shift, before, after);
            z.at(d, 0) == shift && z.dayOf(shift) == d && z.clockOf(shift) == after - before
            && forall from, to :: Regular(z, from, to)
  {
    var z := OneShift(shift, before, after);
    MidnightClock(d, shift, before, after);
    assert z.at(d, 0) == shift;
    forall from, to ensures Regular(z, from, to) {
      forall e | AmongDates(z, from, to, e) ensures !Disturbed(e, shift, before, after) {
        if e > d { assert e * DAY >= (d + 1) * DAY; }
        if e < d { assert e * DAY <= (d - 1) * DAY; }
      }
      hide Disturbed;
      OneShiftRegularIff(shift, before, after, from, to);
    }
  }
}
