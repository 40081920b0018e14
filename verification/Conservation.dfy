// What the usage response promises, whatever order rows and maps come in.
module Conservation {
  import opened Clock
  import opened Sums
  import opened UsageTypes
  import opened Store
  import opened Ranking
  import opened RowMaps
  import opened Zones
  import opened Aggregate
  import Text

  // ---------- Sums over lists that cover a map ----------

  type Entry = (string, nat)

  function SumEntries(es: seq<Entry>): nat {
    if es == [] then 0 else SumEntries(es[..|es| - 1]) + es[|es| - 1].1
  }

  /** Every key of `m` is listed once, with its value. */
  ghost predicate Covers(es: seq<Entry>, m: map<string, nat>) {
    && (forall i, j | 0 <= i < j < |es| :: es[i].0 != es[j].0)
    && (forall i | 0 <= i < |es| :: es[i].0 in m && m[es[i].0] == es[i].1)
    && (forall k | k in m :: Listed(es, k))
  }

  ghost predicate Listed(es: seq<Entry>, k: string) {
    exists i | 0 <= i < |es| :: es[i].0 == k
  }

  lemma {:induction false} CoverSum(es: seq<Entry>, m: map<string, nat>)
    requires Covers(es, m)
    ensures SumEntries(es) == SumWhere(m, All())
  {
    if es == [] {
      assert forall k | k in m :: Listed(es, k);
      assert m == map[];
    } else {
      var n := |es| - 1;
      var k := es[n].0;
      forall j | j in m - {k} ensures Listed(es[..n], j) {
        assert Listed(es, j);
        var i :| 0 <= i < |es| && es[i].0 == j;
        assert es[..n][i].0 == j;
      }
      CoverSum(es[..n], m - {k});
      TakeFromSum(m, k);
    }
  }

  function ActEntries(acts: seq<ActivityUsage>): (es: seq<Entry>)
    ensures |es| == |acts|
  {
    seq(|acts|, i requires 0 <= i < |acts| => (acts[i].description, acts[i].seconds))
  }

  function AppEntries(apps: seq<AppUsage>): (es: seq<Entry>)
    ensures |es| == |apps|
  {
    seq(|apps|, i requires 0 <= i < |apps| => (apps[i].app, apps[i].seconds))
  }

  lemma RankedActsCover(acts: seq<ActivityUsage>, m: map<string, nat>)
    requires IsRankedActs(acts, m)
    ensures Covers(ActEntries(acts), m)
  {
    var es := ActEntries(acts);
    forall i, j | 0 <= i < j < |es| ensures es[i].0 != es[j].0 {
      assert acts[i] in acts && acts[j] in acts && ActBefore()(acts[i], acts[j]);
      Text.LessIrreflexive(acts[i].description);
    }
    forall i | 0 <= i < |es| ensures es[i].0 in m && m[es[i].0] == es[i].1 { assert acts[i] in acts; }
    forall k | k in m ensures Listed(es, k) {
      assert ActivityUsage(k, m[k]) in acts;
      var i :| 0 <= i < |acts| && acts[i] == ActivityUsage(k, m[k]);
      assert es[i].0 == k;
    }
  }

  ghost function AppTotals(perApp: map<string, map<string, nat>>): map<string, nat> {
    map a | a in perApp :: SumWhere(perApp[a], All())
  }

  lemma {:induction false} RankingExists(m: map<string, nat>, keys: set<string>) returns (flat: seq<ActivityUsage>)
    requires keys <= m.Keys
    ensures Distinct(flat)
    ensures forall a: ActivityUsage :: a in flat <==> a.description in keys && a.seconds == m[a.description]
    decreases keys
  {
    if keys == {} {
      flat := [];
    } else {
      var k :| k in keys;
      var rest := RankingExists(m, keys - {k});
      var entry := ActivityUsage(k, m[k]);
      assert entry !in rest;
      flat := rest + [entry];
    }
  }

  lemma EveryMapRanks(m: map<string, nat>) returns (acts: seq<ActivityUsage>)
    ensures IsRankedActs(acts, m)
  {
    var flat := RankingExists(m, m.Keys);
    acts := SortBy(flat, ActBefore());
    hide ActBefore;
    SortActs(flat, acts);
  }

  lemma RankedAppsCover(apps: seq<AppUsage>, perApp: map<string, map<string, nat>>)
    requires IsRankedApps(apps, perApp)
    ensures Covers(AppEntries(apps), AppTotals(perApp))
  {
    var es, m := AppEntries(apps), AppTotals(perApp);
    hide SumWhere, IsRankedActs;
    forall i, j | 0 <= i < j < |es| ensures es[i].0 != es[j].0 {
      assert apps[i] in apps && apps[j] in apps && AppBefore()(apps[i], apps[j]);
      Text.LessIrreflexive(apps[i].app);
    }
    forall i | 0 <= i < |es| ensures es[i].0 in m && m[es[i].0] == es[i].1 { assert apps[i] in apps; }
    forall k | k in m ensures Listed(es, k) {
      var acts := EveryMapRanks(perApp[k]);
      var entry := AppUsage(k, m[k], acts);
      assert entry in apps;
      var i :| 0 <= i < |apps| && apps[i] == entry;
      assert es[i].0 == k;
    }
  }

  // ---------- Seconds of a response ----------

  function SumApps(apps: seq<AppUsage>): nat { SumEntries(AppEntries(apps)) }

  function SumActivities(apps: seq<AppUsage>): nat {
    if apps == [] then 0
    else SumActivities(apps[..|apps| - 1]) + SumEntries(ActEntries(apps[|apps| - 1].activities))
  }

  function SumHours(slots: seq<HourUsage>): nat {
    if slots == [] then 0 else SumHours(slots[..|slots| - 1]) + slots[|slots| - 1].seconds
  }

  function SumDays(slots: seq<DayUsage>): nat {
    if slots == [] then 0 else SumDays(slots[..|slots| - 1]) + slots[|slots| - 1].seconds
  }

  lemma AppTotalsAreGroups(rows: seq<Row>)
    ensures AppTotals(PerApp(rows)) == By(rows, InState(Active), AppOf())
  {
    hide SumWhere, SumRows, Names;
    var m := AppTotals(PerApp(rows));
    forall a | a in m ensures m[a] == SumRows(rows, ActiveIn(a)) {
      BySum(rows, ActiveIn(a), DescriptionOf());
    }
  }

  lemma AppsHoldActive(apps: seq<AppUsage>, rows: seq<Row>)
    requires IsRankedApps(apps, PerApp(rows))
    ensures SumApps(apps) == SumRows(rows, InState(Active))
  {
    RankedAppsCover(apps, PerApp(rows));
    hide IsRankedApps, AppTotals, PerApp, Covers;
    CoverSum(AppEntries(apps), AppTotals(PerApp(rows)));
    AppTotalsAreGroups(rows);
    BySum(rows, InState(Active), AppOf());
  }

  lemma {:induction false} ActivitiesHoldApps(apps: seq<AppUsage>, perApp: map<string, map<string, nat>>)
    requires forall a | a in apps :: a.app in perApp && IsAppEntry(a, perApp[a.app])
    ensures SumActivities(apps) == SumApps(apps)
  {
    hide IsRankedActs;
    if apps != [] {
      var n := |apps| - 1;
      var a := apps[n];
      assert a in apps;
      ActivitiesHoldApps(apps[..n], perApp);
      RankedActsCover(a.activities, perApp[a.app]);
      CoverSum(ActEntries(a.activities), perApp[a.app]);
      assert AppEntries(apps)[..n] == AppEntries(apps[..n]);
    }
  }

  /** Rows selected by `q` and rows selected by `p`, when no row is both. */
  lemma {:induction false} SumRowsSplit(rows: seq<Row>, q: Selector, p: Selector, either: Selector)
    requires forall r | r in rows :: !(q(r) && p(r)) && either(r) == (q(r) || p(r))
    ensures SumRows(rows, either) == SumRows(rows, q) + SumRows(rows, p)
  {
    if rows != [] {
      assert rows[|rows| - 1] in rows;
      SumRowsSplit(rows[..|rows| - 1], q, p, either);
    }
  }

  function ActiveBeforeHour(z: Zone, n: int): Selector {
    (r: Row) => r.state == Active && HourOf(z, r.hourStart) < n
  }

  lemma {:induction false} HoursHold(slots: seq<HourUsage>, rows: seq<Row>, z: Zone, n: nat)
    requires n <= |slots| <= 24
    requires forall h | 0 <= h < |slots| :: slots[h].seconds == SumRows(rows, ActiveAtHour(z, h))
    ensures SumHours(slots[..n]) == SumRows(rows, ActiveBeforeHour(z, n))
  {
    hide HourOf;
    if n == 0 {
      SumRowsNone(rows, ActiveBeforeHour(z, 0));
    } else {
      HoursHold(slots, rows, z, n - 1);
      assert slots[..n][..n - 1] == slots[..n - 1];
      SumRowsSplit(rows, ActiveBeforeHour(z, n - 1), ActiveAtHour(z, n - 1), ActiveBeforeHour(z, n));
    }
  }

  /** The 24 hours of a day hold every active row. */
  lemma HourlyHoldsActive(slots: seq<HourUsage>, rows: seq<Row>, z: Zone)
    requires IsHourly(slots, rows, z)
    ensures SumHours(slots) == SumRows(rows, InState(Active))
  {
    hide IsTop, By;
    HoursHold(slots, rows, z, 24);
    assert slots[..24] == slots;
    SumRowsSame(rows, ActiveBeforeHour(z, 24), InState(Active));
  }

  function ActiveInDays(z: Zone, first: int, end: int): Selector {
    (r: Row) => r.state == Active && first <= z.dayOf(r.hourStart) < end
  }

  lemma {:induction false} DaysHold(slots: seq<DayUsage>, rows: seq<Row>, z: Zone, first: int, n: nat)
    requires n <= |slots| && AreDaySlots(slots, rows, z, first)
    ensures SumDays(slots[..n]) == SumRows(rows, ActiveInDays(z, first, first + n))
  {
    hide IsTop, By;
    if n == 0 {
      SumRowsNone(rows, ActiveInDays(z, first, first));
    } else {
      DaysHold(slots, rows, z, first, n - 1);
      assert slots[..n][..n - 1] == slots[..n - 1];
      assert IsDaySlot(slots[n - 1], rows, z, first + n - 1);
      SumRowsSplit(rows, ActiveInDays(z, first, first + n - 1), ActiveOnDay(z, first + n - 1),
                   ActiveInDays(z, first, first + n));
    }
  }

  /** Every row begins inside the window. */
  predicate InWindow(rows: seq<Row>, from: int, to: int) {
    forall r | r in rows :: from <= r.hourStart < to
  }

  /** Each row of the window falls on exactly one of the listed dates. */
  lemma DailyHoldsActive(slots: seq<DayUsage>, rows: seq<Row>, from: int, to: int, z: Zone)
    requires Regular(z, from, to) && IsDaily(slots, rows, from, to, z) && InWindow(rows, from, to)
    ensures SumDays(slots) == SumRows(rows, InState(Active))
  {
    hide Regular, IsDaily, AreDaySlots, SumRows, SumDays;
    var first := z.dayOf(from);
    DailyIsDates(slots, rows, from, to, z);
    DaysHold(slots, rows, z, first, |slots|);
    assert slots[..|slots|] == slots;
    DatesCover(rows, z, from, to, |slots|);
    SumRowsSame(rows, ActiveInDays(z, first, first + |slots|), InState(Active));
  }

  lemma DatesCover(rows: seq<Row>, z: Zone, from: int, to: int, n: nat)
    requires Regular(z, from, to) && InWindow(rows, from, to)
    requires var first, last := z.dayOf(from), z.dayOf(to - 1); n == if first <= last then last - first + 1 else 0
    ensures forall r | r in rows :: ActiveInDays(z, z.dayOf(from), z.dayOf(from) + n)(r) == InState(Active)(r)
  {
    hide Regular;
    forall r | r in rows { DayInWindow(z, from, r.hourStart, to); }
  }

  lemma DayInWindow(z: Zone, from: int, t: int, to: int)
    requires Regular(z, from, to) && from <= t < to
    ensures z.dayOf(from) <= z.dayOf(t) <= z.dayOf(to - 1)
  {
    var first, last := z.dayOf(from), z.dayOf(to - 1);
    assert AmongDates(z, from, to, first);
    assert z.at(first, 0) <= from;
    assert AmongDates(z, from, to, last + 1);
    assert z.at(last + 1, 0) > to - 1;
  }

  /** Conservation: the active total is the sum over the apps, over all their
      activities, and over the chart slots of the window; the three totals
      together are all the device's rows. */
  lemma SecondsConserved(du: DeviceUsage, d: Device, rows: seq<Row>, w: Window, from: int, to: int, z: Zone)
    requires IsDeviceUsage(du, d, rows, w, from, to, z)
    ensures du.totals.active == SumApps(du.apps) == SumActivities(du.apps)
    ensures w == Today ==> SumHours(du.hourly) == du.totals.active
    ensures w != Today && Regular(z, from, to) && InWindow(rows, from, to) ==> SumDays(du.daily) == du.totals.active
    ensures du.totals.active + du.totals.idle + du.totals.locked == SumRows(rows, EveryRow())
  {
    AppsHoldActive(du.apps, rows);
    ActivitiesHoldApps(du.apps, PerApp(rows));
    hide IsRankedApps, PerApp, IsHourly, IsDaily, SumRows, SumHours, SumDays, Regular, SumApps, SumActivities;
    if w == Today { HourlyHoldsActive(du.hourly, rows, z); }
    else if Regular(z, from, to) && InWindow(rows, from, to) { DailyHoldsActive(du.daily, rows, from, to, z); }
    ThreeStates(rows);
  }

  lemma ThreeStates(rows: seq<Row>)
    ensures SumRows(rows, InState(Active)) + SumRows(rows, InState(Idle)) + SumRows(rows, InState(Locked)) ==
            SumRows(rows, EveryRow())
  {
    var away: Selector := (r: Row) => r.state != Active;
    SumRowsSplit(rows, InState(Idle), InState(Locked), away);
    SumRowsSplit(rows, InState(Active), away, EveryRow());
  }

  // ---------- One response per set of rows ----------

  lemma PerAppPermuted(xs: seq<Row>, ys: seq<Row>)
    requires Permuted(xs, ys)
    ensures PerApp(xs) == PerApp(ys)
  {
    forall r ensures r in xs <==> r in ys { PermutedMembers(xs, ys, r); }
    assert Names(xs, InState(Active), AppOf()) == Names(ys, InState(Active), AppOf());
    forall a { ByPermuted(xs, ys, ActiveIn(a), DescriptionOf()); }
  }

  lemma HourlyUnique(x: seq<HourUsage>, y: seq<HourUsage>, xs: seq<Row>, ys: seq<Row>, z: Zone)
    requires IsHourly(x, xs, z) && IsHourly(y, ys, z) && Permuted(xs, ys)
    ensures x == y
  {
    hide IsTop, By, SumRows;
    forall h | 0 <= h < 24 ensures x[h] == y[h] {
      SumRowsPermuted(xs, ys, ActiveAtHour(z, h));
      ByPermuted(xs, ys, ActiveAtHour(z, h), AppOf());
      TopUnique(By(xs, ActiveAtHour(z, h), AppOf()), x[h].topApp, y[h].topApp);
    }
  }

  lemma DailyUnique(x: seq<DayUsage>, y: seq<DayUsage>, xs: seq<Row>, ys: seq<Row>, from: int, to: int, z: Zone)
    requires IsDaily(x, xs, from, to, z) && IsDaily(y, ys, from, to, z) && Permuted(xs, ys)
    ensures x == y
  {
    hide IsTop, By, SumRows, Cur;
    assert |x| == |y|;
    forall i | 0 <= i < |x| ensures x[i] == y[i] {
      var d := z.dayOf(Cur(z, from, i));
      assert IsDaySlot(x[i], xs, z, d) && IsDaySlot(y[i], ys, z, d);
      SumRowsPermuted(xs, ys, ActiveOnDay(z, d));
      ByPermuted(xs, ys, ActiveOnDay(z, d), AppOf());
      TopUnique(By(xs, ActiveOnDay(z, d), AppOf()), x[i].topApp, y[i].topApp);
    }
  }

  /** The usage of a device is the same for every order of its rows and every
      iteration order of the maps built from them. */
  lemma DeviceUsageCanonical(x: DeviceUsage, y: DeviceUsage, d: Device, xs: seq<Row>, ys: seq<Row>,
                             w: Window, from: int, to: int, z: Zone)
    requires IsDeviceUsage(x, d, xs, w, from, to, z) && IsDeviceUsage(y, d, ys, w, from, to, z)
    requires Permuted(xs, ys)
    ensures x == y
  {
    hide IsRankedApps, PerApp, IsHourly, IsDaily, SumRows, InState;
    forall s: UsageState { SumRowsPermuted(xs, ys, InState(s)); }
    PerAppPermuted(xs, ys);
    RankedAppsUnique(x.apps, y.apps, PerApp(xs));
    if w == Today { HourlyUnique(x.hourly, y.hourly, xs, ys, z); }
    else { DailyUnique(x.daily, y.daily, xs, ys, from, to, z); }
    assert SumRows(xs, InState(Active)) == SumRows(ys, InState(Active));
    assert SumRows(xs, InState(Idle)) == SumRows(ys, InState(Idle));
    assert SumRows(xs, InState(Locked)) == SumRows(ys, InState(Locked));
  }

  lemma {:induction false} RowsOfCopies(rows: seq<Row>, id: string, r: Row)
    ensures multiset(RowsOf(rows, id))[r] == if r.device == id then multiset(rows)[r] else 0
  {
    if rows != [] {
      var front, last := rows[..|rows| - 1], rows[|rows| - 1];
      assert rows == front + [last];
      RowsOfCopies(front, id, r);
    }
  }

  lemma RowsOfPermuted(xs: seq<Row>, ys: seq<Row>, id: string)
    requires Permuted(xs, ys)
    ensures Permuted(RowsOf(xs, id), RowsOf(ys, id))
  {
    hide RowsOf;
    var a, b := multiset(RowsOf(xs, id)), multiset(RowsOf(ys, id));
    forall r ensures a[r] == b[r] {
      RowsOfCopies(xs, id, r);
      RowsOfCopies(ys, id, r);
    }
    assert a == b;
  }

  lemma DeviceOrder()
    ensures StrictOrder(DeviceBefore())
  {
    forall x: Device ensures !DeviceBefore()(x, x) { Text.LessIrreflexive(x.id); }
    forall x: Device, y: Device, z: Device | DeviceBefore()(x, y) && DeviceBefore()(y, z) ensures DeviceBefore()(x, z) {
      Text.LessTransitive(x.id, y.id, z.id);
    }
  }

  lemma DevicesSort(devices: seq<Device>)
    requires DistinctIds(devices)
    ensures Sorted(SortBy(devices, DeviceBefore()), DeviceBefore())
    ensures SameElements(SortBy(devices, DeviceBefore()), devices)
    ensures var sorted := SortBy(devices, DeviceBefore());
            forall i, j | 0 <= i < j < |sorted| :: Text.Less(sorted[i].id, sorted[j].id)
  {
    DeviceOrder();
    forall x, y | x in devices && y in devices && x != y ensures DeviceBefore()(x, y) || DeviceBefore()(y, x) {
      var i :| 0 <= i < |devices| && devices[i] == x;
      var j :| 0 <= j < |devices| && devices[j] == y;
      Text.LessTotal(x.id, y.id);
    }
    SortBySorts(devices, DeviceBefore());
    hide SortBy;
    var sorted := SortBy(devices, DeviceBefore());
    forall i, j | 0 <= i < j < |sorted| ensures Text.Less(sorted[i].id, sorted[j].id) {
      assert DeviceBefore()(sorted[i], sorted[j]);
    }
  }

  /** The whole response is the same for every order of devices and rows. */
  lemma ResponseCanonical(x: seq<DeviceUsage>, y: seq<DeviceUsage>, ds: seq<Device>, es: seq<Device>,
                          xs: seq<Row>, ys: seq<Row>, w: Window, from: int, to: int, z: Zone)
    requires IsResponse(x, ds, xs, w, from, to, z) && IsResponse(y, es, ys, w, from, to, z)
    requires DistinctIds(ds) && DistinctIds(es) && SameElements(ds, es) && Permuted(xs, ys)
    ensures x == y
  {
    DevicesSort(ds);
    DevicesSort(es);
    DeviceOrder();
    hide DeviceBefore, SortBy, IsDeviceUsage, RowsOf;
    var sorted := SortBy(ds, DeviceBefore());
    SortedUnique(sorted, SortBy(es, DeviceBefore()), DeviceBefore());
    forall i | 0 <= i < |x| ensures x[i] == y[i] {
      RowsOfPermuted(xs, ys, sorted[i].id);
      DeviceUsageCanonical(x[i], y[i], sorted[i], RowsOf(xs, sorted[i].id), RowsOf(ys, sorted[i].id), w, from, to, z);
    }
  }

  // ---------- How many days ----------

  /** The handler's window: whole local days, today included. */
  function WindowStart(z: Zone, to: int, w: Window): int {
    z.at(z.dayOf(to) - (WindowDays(w) - 1), 0)
  }

  /** The last date of a window that ends at `to`. */
  lemma LastDate(z: Zone, from: int, to: int)
    requires Regular(z, from, to) && z.dayOf(from) <= z.dayOf(to)
    ensures var first, today, last := z.dayOf(from), z.dayOf(to), z.dayOf(to - 1);
            if to != z.at(today, 0) then last == today
            else if first < today then last == today - 1
            else last < today
  {
    var first, today, last := z.dayOf(from), z.dayOf(to), z.dayOf(to - 1);
    assert AmongDates(z, from, to, first);
    assert first <= last ==> AmongDates(z, from, to, last) && AmongDates(z, from, to, last + 1);
    assert today <= last + 1 ==> AmongDates(z, from, to, today);
  }

  /** The daily chart lists exactly the days of the window, today last, except at
      the very instant of local midnight, when today has not begun to count. */
  lemma DayCount(slots: seq<DayUsage>, rows: seq<Row>, to: int, w: Window, z: Zone)
    requires Regular(z, WindowStart(z, to, w), to) && IsDaily(slots, rows, WindowStart(z, to, w), to, z)
    requires z.dayOf(WindowStart(z, to, w)) == z.dayOf(to) - (WindowDays(w) - 1)
    ensures |slots| == if to == z.at(z.dayOf(to), 0) then WindowDays(w) - 1 else WindowDays(w)
    ensures forall i | 0 <= i < |slots| :: slots[i].date == z.dayOf(to) - (WindowDays(w) - 1) + i
  {
    hide IsTop, By, SumRows, IsDaily;
    var today := z.dayOf(to);
    DailyIsDates(slots, rows, WindowStart(z, to, w), to, z);
    LastDate(z, WindowStart(z, to, w), to);
    forall i | 0 <= i < |slots| ensures slots[i].date == today - (WindowDays(w) - 1) + i {
      assert IsDaySlot(slots[i], rows, z, today - (WindowDays(w) - 1) + i);
    }
  }
}
