// server/internal/usage/aggregate.go: stored buckets into totals, a ranking and
// chart slots.
module Aggregate {
  import opened Wrappers
  import opened Clock
  import opened Sums
  import opened UsageTypes
  import opened Store
  import opened Ranking
  import opened RowMaps
  import opened Zones
  import Text

  datatype Window = Today | Week | Month

  /** The window named by the request; nothing for an unknown name. */
  function WindowOf(name: string): Option<Window> {
    if name == "today" then Some(Today)
    else if name == "7d" then Some(Week)
    else if name == "30d" then Some(Month)
    else None
  }

  function WindowDays(w: Window): nat {
    match w case Today => 1 case Week => 7 case Month => 30
  }

  datatype Device = Device(id: string, name: string, kind: string)
  datatype ActivityUsage = ActivityUsage(description: string, seconds: nat)
  datatype AppUsage = AppUsage(app: string, seconds: nat, activities: seq<ActivityUsage>)
  datatype Totals = Totals(active: nat, idle: nat, locked: nat)
  datatype HourUsage = HourUsage(hour: int, seconds: nat, topApp: string)
  datatype DayUsage = DayUsage(date: int, seconds: nat, topApp: string)
  datatype DeviceUsage = DeviceUsage(device: Device, totals: Totals, apps: seq<AppUsage>,
                                     hourly: seq<HourUsage>, daily: seq<DayUsage>)

  // ---------- Selections of rows ----------

  function InState(s: UsageState): Selector { (r: Row) => r.state == s }
  function EveryRow(): Selector { (r: Row) => true }
  function ActiveIn(app: string): Selector { Keyed(InState(Active), AppOf(), app) }
  function ActiveAtHour(z: Zone, h: int): Selector { (r: Row) => r.state == Active && HourOf(z, r.hourStart) == h }
  function ActiveOnDay(z: Zone, d: int): Selector { (r: Row) => r.state == Active && z.dayOf(r.hourStart) == d }
  function AppOf(): Naming { (r: Row) => r.app }
  function DescriptionOf(): Naming { (r: Row) => r.description }

  /** app -> description -> seconds, active rows only. */
  function PerApp(rows: seq<Row>): map<string, map<string, nat>> {
    map a | a in Names(rows, InState(Active), AppOf()) :: By(rows, ActiveIn(a), DescriptionOf())
  }

  // ---------- What a ranking and a top app are ----------

  function ActBefore(): (ActivityUsage, ActivityUsage) -> bool {
    (a: ActivityUsage, b: ActivityUsage) =>
      a.seconds > b.seconds || (a.seconds == b.seconds && Text.Less(a.description, b.description))
  }

  function AppBefore(): (AppUsage, AppUsage) -> bool {
    (a: AppUsage, b: AppUsage) => a.seconds > b.seconds || (a.seconds == b.seconds && Text.Less(a.app, b.app))
  }

  /** The descriptions of `m`, each once, by seconds descending and then by name. */
  ghost predicate IsRankedActs(acts: seq<ActivityUsage>, m: map<string, nat>) {
    && Sorted(acts, ActBefore())
    && forall a: ActivityUsage :: a in acts <==> a.description in m && a.seconds == m[a.description]
  }

  ghost predicate IsAppEntry(a: AppUsage, byDesc: map<string, nat>) {
    a.seconds == SumWhere(byDesc, All()) && IsRankedActs(a.activities, byDesc)
  }

  ghost predicate IsRankedApps(apps: seq<AppUsage>, perApp: map<string, map<string, nat>>) {
    && Sorted(apps, AppBefore())
    && forall a: AppUsage :: a in apps <==> a.app in perApp && IsAppEntry(a, perApp[a.app])
  }

  /** The app with the most seconds, the alphabetically first one on a tie;
      no app at all when there are no seconds. */
  ghost predicate IsTop(m: map<string, nat>, top: string) {
    if SumWhere(m, All()) == 0 then top == ""
    else top in m && forall a | a in m && a != top :: m[a] < m[top] || (m[a] == m[top] && Text.Less(top, a))
  }

  lemma ActOrder()
    ensures StrictOrder(ActBefore())
  {
    forall x: ActivityUsage ensures !ActBefore()(x, x) { Text.LessIrreflexive(x.description); }
    forall x: ActivityUsage, y: ActivityUsage, z: ActivityUsage | ActBefore()(x, y) && ActBefore()(y, z)
      ensures ActBefore()(x, z)
    {
      if x.seconds == y.seconds == z.seconds { Text.LessTransitive(x.description, y.description, z.description); }
    }
  }

  lemma AppOrder()
    ensures StrictOrder(AppBefore())
  {
    forall x: AppUsage ensures !AppBefore()(x, x) { Text.LessIrreflexive(x.app); }
    forall x: AppUsage, y: AppUsage, z: AppUsage | AppBefore()(x, y) && AppBefore()(y, z)
      ensures AppBefore()(x, z)
    {
      if x.seconds == y.seconds == z.seconds { Text.LessTransitive(x.app, y.app, z.app); }
    }
  }

  /** A map has one ranking of activities. */
  lemma RankedActsUnique(xs: seq<ActivityUsage>, ys: seq<ActivityUsage>, m: map<string, nat>)
    requires IsRankedActs(xs, m) && IsRankedActs(ys, m)
    ensures xs == ys
  {
    ActOrder();
    SortedUnique(xs, ys, ActBefore());
  }

  /** A map has one ranking of apps. */
  lemma RankedAppsUnique(xs: seq<AppUsage>, ys: seq<AppUsage>, perApp: map<string, map<string, nat>>)
    requires IsRankedApps(xs, perApp) && IsRankedApps(ys, perApp)
    ensures xs == ys
  {
    AppOrder();
    SortedUnique(xs, ys, AppBefore());
  }

  /** A map has one top app. */
  lemma TopUnique(m: map<string, nat>, x: string, y: string)
    requires IsTop(m, x) && IsTop(m, y)
    ensures x == y
  {
    if SumWhere(m, All()) != 0 && x != y { Text.LessAsymmetric(x, y); }
  }

  // ---------- Ranking ----------

  lemma TakeFromSum(m: map<string, nat>, k: string)
    requires k in m
    ensures SumWhere(m, All()) == m[k] + SumWhere(m - {k}, All())
  {
    SumWithout(m, All(), k);
  }

  method RankActivities(byDesc: map<string, nat>) returns (total: nat, acts: seq<ActivityUsage>)
    ensures total == SumWhere(byDesc, All()) && IsRankedActs(acts, byDesc)
    ensures forall i, j | 0 <= i < j < |acts| ::
              acts[i].seconds > acts[j].seconds
              || (acts[i].seconds == acts[j].seconds && Text.Less(acts[i].description, acts[j].description))
  {
    total := 0;
    var flat: seq<ActivityUsage> := [];
    var rest := byDesc;
    hide SumWhere, ActBefore;
    while rest != map[]
      invariant rest.Keys <= byDesc.Keys && forall k | k in rest :: rest[k] == byDesc[k]
      invariant total + SumWhere(rest, All()) == SumWhere(byDesc, All())
      invariant forall a: ActivityUsage :: a in flat <==>
                  a.description in byDesc && a.description !in rest && a.seconds == byDesc[a.description]
      invariant Distinct(flat)
      decreases rest.Keys
    {
      var desc :| desc in rest;
      TakeFromSum(rest, desc);
      total := total + rest[desc];
      var entry := ActivityUsage(desc, rest[desc]);
      assert entry !in flat;
      flat := flat + [entry];
      rest := rest - {desc};
    }
    acts := SortBy(flat, ActBefore());
    SortActs(flat, acts);
  }

  lemma SortActs(flat: seq<ActivityUsage>, acts: seq<ActivityUsage>)
    requires Distinct(flat) && acts == SortBy(flat, ActBefore())
    requires forall a, b | a in flat && b in flat && a != b :: a.description != b.description
    ensures Sorted(acts, ActBefore()) && forall a :: a in acts <==> a in flat
    ensures forall i, j | 0 <= i < j < |acts| ::
              acts[i].seconds > acts[j].seconds
              || (acts[i].seconds == acts[j].seconds && Text.Less(acts[i].description, acts[j].description))
  {
    ActOrder();
    forall a, b | a in flat && b in flat && a != b ensures ActBefore()(a, b) || ActBefore()(b, a) {
      Text.LessTotal(a.description, b.description);
    }
    hide ActBefore;
    SortBySorts(flat, ActBefore());
  }

  lemma SortApps(flat: seq<AppUsage>, apps: seq<AppUsage>)
    requires Distinct(flat) && apps == SortBy(flat, AppBefore())
    requires forall a, b | a in flat && b in flat && a != b :: a.app != b.app
    ensures Sorted(apps, AppBefore()) && forall a :: a in apps <==> a in flat
    ensures forall i, j | 0 <= i < j < |apps| ::
              apps[i].seconds > apps[j].seconds
              || (apps[i].seconds == apps[j].seconds && Text.Less(apps[i].app, apps[j].app))
  {
    AppOrder();
    forall a, b | a in flat && b in flat && a != b ensures AppBefore()(a, b) || AppBefore()(b, a) {
      Text.LessTotal(a.app, b.app);
    }
    hide AppBefore;
    SortBySorts(flat, AppBefore());
  }

  lemma EntryUnique(a: AppUsage, b: AppUsage, m: map<string, nat>)
    requires a.app == b.app && IsAppEntry(a, m) && IsAppEntry(b, m)
    ensures a == b
  {
    RankedActsUnique(a.activities, b.activities, m);
  }

  method RankApps(perApp: map<string, map<string, nat>>) returns (apps: seq<AppUsage>)
    ensures IsRankedApps(apps, perApp)
    ensures forall i, j | 0 <= i < j < |apps| ::
              apps[i].seconds > apps[j].seconds
              || (apps[i].seconds == apps[j].seconds && Text.Less(apps[i].app, apps[j].app))
  {
    var flat: seq<AppUsage> := [];
    var rest := perApp;
    hide SumWhere, IsRankedActs, AppBefore;
    while rest != map[]
      invariant rest.Keys <= perApp.Keys && forall k | k in rest :: rest[k] == perApp[k]
      invariant forall a: AppUsage :: a in flat <==> a.app in perApp && a.app !in rest && IsAppEntry(a, perApp[a.app])
      invariant Distinct(flat)
      decreases rest.Keys
    {
      var app :| app in rest;
      var total, acts := RankActivities(rest[app]);
      var entry := AppUsage(app, total, acts);
      assert entry !in flat;
      forall a: AppUsage | a.app == app && IsAppEntry(a, perApp[app]) ensures a == entry {
        EntryUnique(a, entry, perApp[app]);
      }
      flat := flat + [entry];
      rest := rest - {app};
    }
    apps := SortBy(flat, AppBefore());
    forall a, b | a in flat && b in flat && a != b ensures a.app != b.app {
      if a.app == b.app { EntryUnique(a, b, perApp[a.app]); }
    }
    SortApps(flat, apps);
  }

  function NameBefore(): (string, string) -> bool { (a: string, b: string) => Text.Less(a, b) }

  lemma NameOrder()
    ensures StrictOrder(NameBefore())
  {
    forall x: string ensures !NameBefore()(x, x) { Text.LessIrreflexive(x); }
    forall x: string, y: string, z: string | NameBefore()(x, y) && NameBefore()(y, z) ensures NameBefore()(x, z) {
      Text.LessTransitive(x, y, z);
    }
  }

  method SortedNames(m: map<string, nat>) returns (names: seq<string>)
    ensures Sorted(names, NameBefore()) && forall a :: a in names <==> a in m
  {
    var flat: seq<string> := [];
    var rest := m.Keys;
    while rest != {}
      invariant rest <= m.Keys && Distinct(flat)
      invariant forall a :: a in flat <==> a in m && a !in rest
      decreases rest
    {
      var a :| a in rest;
      assert a !in flat;
      flat := flat + [a];
      rest := rest - {a};
    }
    names := SortBy(flat, NameBefore());
    NameOrder();
    forall a, b | a in flat && b in flat && a != b ensures NameBefore()(a, b) || NameBefore()(b, a) {
      Text.LessTotal(a, b);
    }
    SortBySorts(flat, NameBefore());
  }

  /** `top` is the best of the names seen so far. */
  ghost predicate IsBest(m: map<string, nat>, seen: set<string>, best: int, top: string) {
    if seen == {} then best == -1 && top == ""
    else
      && top in seen && top in m && m[top] == best
      && forall a | a in seen && a in m && a != top :: m[a] < best || (m[a] == best && Text.Less(top, a))
  }

  lemma BestGrows(m: map<string, nat>, seen: set<string>, best: int, top: string, app: string)
    requires IsBest(m, seen, best, top) && app in m && app !in seen
    requires forall a | a in seen :: Text.Less(a, app)
    ensures if m[app] > best then IsBest(m, seen + {app}, m[app], app) else IsBest(m, seen + {app}, best, top)
  {}

  function Member(names: set<string>): string -> bool { (k: string) => k in names }

  lemma SumOneMore(m: map<string, nat>, seen: set<string>, app: string)
    requires app in m && app !in seen
    ensures SumWhere(m, Member(seen + {app})) == SumWhere(m, Member(seen)) + m[app]
  {
    SumWithout(m, Member(seen), app);
    SumWithout(m, Member(seen + {app}), app);
    SumSame(m - {app}, Member(seen), Member(seen + {app}));
  }

  lemma SumEnds(m: map<string, nat>)
    ensures SumWhere(m, Member({})) == 0 && SumWhere(m, Member(m.Keys)) == SumWhere(m, All())
  {
    SumSame(m, Member(m.Keys), All());
  }

  /** Sorted names: what is not yet seen comes after what is. */
  ghost predicate Ahead(names: seq<string>, i: nat, seen: set<string>)
    requires i <= |names|
  {
    && (forall j | 0 <= j < i :: names[j] in seen)
    && (forall a, j | a in seen && i <= j < |names| :: Text.Less(a, names[j]))
  }

  lemma AheadGrows(names: seq<string>, i: nat, seen: set<string>)
    requires Sorted(names, NameBefore()) && i < |names| && Ahead(names, i, seen)
    ensures names[i] !in seen && (forall a | a in seen :: Text.Less(a, names[i]))
    ensures Ahead(names, i + 1, seen + {names[i]})
  {
    if names[i] in seen { Text.LessIrreflexive(names[i]); }
    forall j | i < j < |names| ensures Text.Less(names[i], names[j]) { assert NameBefore()(names[i], names[j]); }
  }

  method SumAndTop(byApp: map<string, nat>) returns (total: nat, top: string)
    ensures total == SumWhere(byApp, All()) && IsTop(byApp, top)
  {
    var names := SortedNames(byApp);
    total, top := 0, "";
    var best: int := -1;
    ghost var seen: set<string> := {};
    SumEnds(byApp);
    assert Ahead(names, 0, seen);
    hide SumWhere, IsBest, Member;
    for i := 0 to |names|
      invariant seen <= byApp.Keys && Ahead(names, i, seen)
      invariant total == SumWhere(byApp, Member(seen)) && IsBest(byApp, seen, best, top)
    {
      var app := names[i];
      assert app in names;
      AheadGrows(names, i, seen);
      SumOneMore(byApp, seen, app);
      BestGrows(byApp, seen, best, top, app);
      hide Ahead;
      seen := seen + {app};
      total := total + byApp[app];
      if byApp[app] > best {
        best, top := byApp[app], app;
      }
    }
    assert seen == byApp.Keys by {
      forall a | a in byApp ensures a in seen { assert a in names; }
    }
    if total == 0 {
      return 0, "";
    }
  }

  // ---------- Slots ----------

  ghost predicate IsHourly(slots: seq<HourUsage>, rows: seq<Row>, z: Zone) {
    |slots| == 24 && forall h | 0 <= h < 24 :: IsHourSlot(slots[h], rows, z, h)
  }

  ghost predicate IsDaySlot(slot: DayUsage, rows: seq<Row>, z: Zone, d: int) {
    && slot.date == d && slot.seconds == SumRows(rows, ActiveOnDay(z, d))
    && IsTop(By(rows, ActiveOnDay(z, d), AppOf()), slot.topApp)
  }

  /** One slot for every value of the day loop's variable, in order. */
  ghost predicate IsDaily(slots: seq<DayUsage>, rows: seq<Row>, from: int, to: int, z: Zone) {
    SlotsOf(slots, rows, from, to, z) && Cur(z, from, |slots|) >= to
  }

  ghost predicate SlotsOf(slots: seq<DayUsage>, rows: seq<Row>, from: int, to: int, z: Zone) {
    forall i | 0 <= i < |slots| :: Cur(z, from, i) < to && IsDaySlot(slots[i], rows, z, z.dayOf(Cur(z, from, i)))
  }

  lemma OneMoreSlot(slots: seq<DayUsage>, slot: DayUsage, rows: seq<Row>, from: int, to: int, z: Zone)
    requires SlotsOf(slots, rows, from, to, z) && Cur(z, from, |slots|) < to
    requires IsDaySlot(slot, rows, z, z.dayOf(Cur(z, from, |slots|)))
    ensures SlotsOf(slots + [slot], rows, from, to, z)
    ensures Cur(z, from, |slots| + 1) == NextMidnight(z, Cur(z, from, |slots|))
  {
    hide IsDaySlot, NextMidnight;
    forall i | 0 <= i < |slots| + 1
      ensures Cur(z, from, i) < to && IsDaySlot((slots + [slot])[i], rows, z, z.dayOf(Cur(z, from, i)))
    {}
  }

  lemma StopsBy(slots: seq<DayUsage>, rows: seq<Row>, from: int, to: int, z: Zone, end: nat)
    requires SlotsOf(slots, rows, from, to, z) && Cur(z, from, end) >= to
    ensures |slots| <= end
  {}

  function AddUnder(m: map<string, nat>, k: string, n: nat): map<string, nat> {
    m[k := (if k in m then m[k] else 0) + n]
  }

  ghost predicate GroupsByHour(perHour: seq<map<string, nat>>, rows: seq<Row>, z: Zone) {
    |perHour| == 24 && forall h | 0 <= h < 24 :: perHour[h] == By(rows, ActiveAtHour(z, h), AppOf())
  }

  ghost predicate IsHourSlot(slot: HourUsage, rows: seq<Row>, z: Zone, h: int) {
    && slot.hour == h && slot.seconds == SumRows(rows, ActiveAtHour(z, h))
    && IsTop(By(rows, ActiveAtHour(z, h), AppOf()), slot.topApp)
  }

  lemma NoRowsByHour(z: Zone)
    ensures GroupsByHour(seq(24, i => map[]), [], z)
  {
    forall h | 0 <= h < 24 ensures By([], ActiveAtHour(z, h), AppOf()) == map[] {}
  }

  lemma ByHourGrows(perHour: seq<map<string, nat>>, rows: seq<Row>, r: Row, z: Zone)
    requires GroupsByHour(perHour, rows, z)
    ensures var h := HourOf(z, r.hourStart);
            GroupsByHour(if r.state == Active then perHour[h := AddUnder(perHour[h], r.app, r.seconds)] else perHour,
                         rows + [r], z)
  {
    hide By, HourOf;
    forall h | 0 <= h < 24 { ByGrows(rows, r, ActiveAtHour(z, h), AppOf()); }
  }

  method GroupByHour(rows: seq<Row>, z: Zone) returns (perHour: seq<map<string, nat>>)
    ensures GroupsByHour(perHour, rows, z)
  {
    hide HourOf, GroupsByHour;
    perHour := seq(24, i => map[]);
    NoRowsByHour(z);
    assert rows[..0] == [];
    for i := 0 to |rows|
      invariant |perHour| == 24 && GroupsByHour(perHour, rows[..i], z)
    {
      var r := rows[i];
      assert rows[..i + 1] == rows[..i] + [r];
      ByHourGrows(perHour, rows[..i], r, z);
      if r.state == Active {
        var h := HourOf(z, r.hourStart);
        perHour := perHour[h := AddUnder(perHour[h], r.app, r.seconds)];
      }
    }
    assert rows[..|rows|] == rows;
  }

  method HourSlot(rows: seq<Row>, z: Zone, h: int, perHour: seq<map<string, nat>>) returns (slot: HourUsage)
    requires GroupsByHour(perHour, rows, z) && 0 <= h < 24
    ensures IsHourSlot(slot, rows, z, h)
  {
    hide IsTop, SumWhere, SumRows, By;
    var seconds, top := SumAndTop(perHour[h]);
    BySum(rows, ActiveAtHour(z, h), AppOf());
    slot := HourUsage(h, seconds, top);
  }

  lemma HourSlotClock(slot: HourUsage, rows: seq<Row>, z: Zone, h: int)
    requires IsHourSlot(slot, rows, z, h)
    ensures slot.hour == h
            && slot.seconds ==
               SumRows(rows, (r: Row) => r.state == Active && h * HOUR <= z.clockOf(r.hourStart) < (h + 1) * HOUR)
  {
    hide IsTop, By;
    SumRowsSame(rows, ActiveAtHour(z, h),
                (r: Row) => r.state == Active && h * HOUR <= z.clockOf(r.hourStart) < (h + 1) * HOUR);
  }

  /** Slot `h` holds the active seconds whose local clock reads `h` o'clock. */
  method HourlySlots(rows: seq<Row>, z: Zone) returns (out: seq<HourUsage>)
    ensures IsHourly(out, rows, z)
    ensures |out| == 24
            && forall h | 0 <= h < 24 ::
                 out[h].hour == h
                 && out[h].seconds ==
                    SumRows(rows, (r: Row) => r.state == Active && h * HOUR <= z.clockOf(r.hourStart) < (h + 1) * HOUR)
  {
    hide IsHourSlot, GroupsByHour, SumRows;
    var perHour := GroupByHour(rows, z);
    out := [];
    for h := 0 to 24
      invariant |out| == h && forall g | 0 <= g < h :: IsHourSlot(out[g], rows, z, g)
    {
      var slot := HourSlot(rows, z, h, perHour);
      out := out + [slot];
    }
    forall h | 0 <= h < 24 { HourSlotClock(out[h], rows, z, h); }
  }

  /** The loop may run only where it ends: see `TerminatesIff`. */
  method DaySlots(rows: seq<Row>, from: int, to: int, z: Zone) returns (out: seq<DayUsage>)
    requires Terminates(z, from, to)
    ensures IsDaily(out, rows, from, to, z)
  {
    hide IsDaySlot, GroupsByDay, SlotsOf, NextMidnight;
    var perDay := GroupByDay(rows, z);
    ghost var end: nat :| Cur(z, from, end) >= to;
    out := [];
    var cur := StartOfDay(z, from);
    NoSlots(rows, from, to, z);
    hide Cur, StartOfDay;
    while cur < to
      invariant cur == Cur(z, from, |out|) && SlotsOf(out, rows, from, to, z)
      decreases end - |out|
    {
      var slot := DaySlot(rows, z, z.dayOf(cur), perDay);
      OneMoreSlot(out, slot, rows, from, to, z);
      out := out + [slot];
      cur := NextMidnight(z, cur);
      StopsBy(out, rows, from, to, z, end);
    }
  }

  lemma NoSlots(rows: seq<Row>, from: int, to: int, z: Zone)
    ensures SlotsOf([], rows, from, to, z)
  {}

  ghost predicate AreDaySlots(slots: seq<DayUsage>, rows: seq<Row>, z: Zone, first: int) {
    forall i | 0 <= i < |slots| :: IsDaySlot(slots[i], rows, z, first + i)
  }

  /** Where no midnight is skipped there is one slot per local date meeting
      [from, to), in order. */
  lemma DailyIsDates(slots: seq<DayUsage>, rows: seq<Row>, from: int, to: int, z: Zone)
    requires Regular(z, from, to) && IsDaily(slots, rows, from, to, z)
    ensures var first, last := z.dayOf(from), z.dayOf(to - 1);
            |slots| == (if first <= last then last - first + 1 else 0) && AreDaySlots(slots, rows, z, first)
  {
    hide IsDaySlot;
    var first, last := z.dayOf(from), z.dayOf(to - 1);
    var n: nat := if first <= last then last - first + 1 else 0;
    forall i: nat | i <= n
      ensures z.dayOf(Cur(z, from, i)) == first + i && (Cur(z, from, i) < to <==> i < n)
    {
      VisitsEveryDate(z, from, to, i);
    }
    hide Regular, Cur;
    assert |slots| > n ==> Cur(z, from, n) < to;
  }

  ghost predicate GroupsByDay(perDay: map<int, map<string, nat>>, rows: seq<Row>, z: Zone) {
    forall d :: (if d in perDay then perDay[d] else map[]) == By(rows, ActiveOnDay(z, d), AppOf())
  }

  method DaySlot(rows: seq<Row>, z: Zone, day: int, perDay: map<int, map<string, nat>>) returns (slot: DayUsage)
    requires GroupsByDay(perDay, rows, z)
    ensures IsDaySlot(slot, rows, z, day)
  {
    var seconds, top := SumAndTop(if day in perDay then perDay[day] else map[]);
    BySum(rows, ActiveOnDay(z, day), AppOf());
    slot := DayUsage(day, seconds, top);
  }

  lemma ByDayGrows(perDay: map<int, map<string, nat>>, rows: seq<Row>, r: Row, z: Zone)
    requires GroupsByDay(perDay, rows, z)
    ensures var day := z.dayOf(r.hourStart);
            GroupsByDay(if r.state == Active
                        then perDay[day := AddUnder(if day in perDay then perDay[day] else map[], r.app, r.seconds)]
                        else perDay, rows + [r], z)
  {
    hide By;
    var day := z.dayOf(r.hourStart);
    var put := if r.state == Active
               then perDay[day := AddUnder(if day in perDay then perDay[day] else map[], r.app, r.seconds)]
               else perDay;
    forall d ensures (if d in put then put[d] else map[]) == By(rows + [r], ActiveOnDay(z, d), AppOf()) {
      ByGrows(rows, r, ActiveOnDay(z, d), AppOf());
    }
  }

  method GroupByDay(rows: seq<Row>, z: Zone) returns (perDay: map<int, map<string, nat>>)
    ensures GroupsByDay(perDay, rows, z)
  {
    perDay := map[];
    assert rows[..0] == [];
    hide GroupsByDay;
    for i := 0 to |rows|
      invariant GroupsByDay(perDay, rows[..i], z)
    {
      var r := rows[i];
      assert rows[..i + 1] == rows[..i] + [r];
      ByDayGrows(perDay, rows[..i], r, z);
      if r.state == Active {
        var day := z.dayOf(r.hourStart);
        perDay := perDay[day := AddUnder(if day in perDay then perDay[day] else map[], r.app, r.seconds)];
      }
    }
    assert rows[..|rows|] == rows;
  }

  // ---------- One device ----------

  ghost predicate IsDeviceUsage(du: DeviceUsage, d: Device, rows: seq<Row>, w: Window, from: int, to: int, z: Zone) {
    && du.device == d
    && du.totals == Totals(SumRows(rows, InState(Active)), SumRows(rows, InState(Idle)), SumRows(rows, InState(Locked)))
    && IsRankedApps(du.apps, PerApp(rows))
    && (if w == Today then IsHourly(du.hourly, rows, z) && du.daily == []
        else du.hourly == [] && IsDaily(du.daily, rows, from, to, z))
  }

  lemma PerAppGrows(rows: seq<Row>, r: Row)
    ensures var m := PerApp(rows);
            PerApp(rows + [r]) ==
            if r.state != Active then m
            else m[r.app := AddUnder(if r.app in m then m[r.app] else map[], r.description, r.seconds)]
  {
    hide By, Names, ActiveIn;
    var m, n := PerApp(rows), PerApp(rows + [r]);
    NamesGrow(rows, r, InState(Active), AppOf());
    var put := if r.state != Active then m
               else m[r.app := AddUnder(if r.app in m then m[r.app] else map[], r.description, r.seconds)];
    assert n.Keys == put.Keys;
    forall a | a in n ensures n[a] == put[a] {
      DescriptionsGrow(rows, r, a);
      if a !in m { NoRowsNoNames(rows, a); }
    }
  }

  lemma DescriptionsGrow(rows: seq<Row>, r: Row, a: string)
    ensures By(rows + [r], ActiveIn(a), DescriptionOf()) ==
            if r.state == Active && r.app == a
            then AddUnder(By(rows, ActiveIn(a), DescriptionOf()), r.description, r.seconds)
            else By(rows, ActiveIn(a), DescriptionOf())
  {
    ByGrows(rows, r, ActiveIn(a), DescriptionOf());
    hide By;
  }

  lemma NoRowsNoNames(rows: seq<Row>, app: string)
    requires app !in Names(rows, InState(Active), AppOf())
    ensures By(rows, ActiveIn(app), DescriptionOf()) == map[]
  {
    forall r | r in rows ensures !ActiveIn(app)(r) {}
    assert Names(rows, ActiveIn(app), DescriptionOf()) == {};
  }

  method Totalise(rows: seq<Row>) returns (totals: Totals, perApp: map<string, map<string, nat>>)
    ensures totals ==
            Totals(SumRows(rows, InState(Active)), SumRows(rows, InState(Idle)), SumRows(rows, InState(Locked)))
    ensures perApp == PerApp(rows)
  {
    var active, idle, locked := 0, 0, 0;
    perApp := map[];
    assert rows[..0] == [];
    for i := 0 to |rows|
      invariant active == SumRows(rows[..i], InState(Active))
      invariant idle == SumRows(rows[..i], InState(Idle))
      invariant locked == SumRows(rows[..i], InState(Locked))
      invariant perApp == PerApp(rows[..i])
    {
      var r := rows[i];
      assert rows[..i + 1] == rows[..i] + [r];
      SumRowsGrows(rows[..i], r, InState(Active));
      SumRowsGrows(rows[..i], r, InState(Idle));
      SumRowsGrows(rows[..i], r, InState(Locked));
      PerAppGrows(rows[..i], r);
      hide SumRows, PerApp;
      match r.state {
        case Active => active := active + r.seconds;
        case Idle => idle := idle + r.seconds;
        case Locked => locked := locked + r.seconds;
      }
      if r.state != Active {
        continue;
      }
      perApp := perApp[r.app := AddUnder(if r.app in perApp then perApp[r.app] else map[], r.description, r.seconds)];
    }
    assert rows[..|rows|] == rows;
    totals := Totals(active, idle, locked);
  }

  method AggregateDevice(d: Device, rows: seq<Row>, w: Window, from: int, to: int, z: Zone) returns (du: DeviceUsage)
    requires w == Today || Terminates(z, from, to)
    ensures IsDeviceUsage(du, d, rows, w, from, to, z)
  {
    hide IsRankedApps, IsHourly, IsDaily, SumRows, PerApp, Terminates;
    var totals, perApp := Totalise(rows);
    var apps := RankApps(perApp);
    if w == Today {
      var hourly := HourlySlots(rows, z);
      du := DeviceUsage(d, totals, apps, hourly, []);
    } else {
      var daily := DaySlots(rows, from, to, z);
      du := DeviceUsage(d, totals, apps, [], daily);
    }
  }

  // ---------- The whole response ----------

  function RowsOf(rows: seq<Row>, id: string): seq<Row> {
    if rows == [] then []
    else
      var front := RowsOf(rows[..|rows| - 1], id);
      if rows[|rows| - 1].device == id then front + [rows[|rows| - 1]] else front
  }

  function DeviceBefore(): (Device, Device) -> bool { (a: Device, b: Device) => Text.Less(a.id, b.id) }

  /** Device ids are a primary key. */
  predicate DistinctIds(devices: seq<Device>) {
    forall i, j | 0 <= i < j < |devices| :: devices[i].id != devices[j].id
  }

  /** The devices by id, each with the usage of its own rows; rows of other
      devices are ignored. */
  ghost predicate IsResponse(out: seq<DeviceUsage>, devices: seq<Device>, rows: seq<Row>, w: Window,
                             from: int, to: int, z: Zone) {
    var sorted := SortBy(devices, DeviceBefore());
    && |out| == |sorted|
    && forall i | 0 <= i < |out| :: IsDeviceUsage(out[i], sorted[i], RowsOf(rows, sorted[i].id), w, from, to, z)
  }

  method GroupByDevice(rows: seq<Row>) returns (byDevice: map<string, seq<Row>>)
    ensures forall id :: (if id in byDevice then byDevice[id] else []) == RowsOf(rows, id)
  {
    byDevice := map[];
    for i := 0 to |rows|
      invariant forall id :: (if id in byDevice then byDevice[id] else []) == RowsOf(rows[..i], id)
    {
      var r := rows[i];
      assert rows[..i + 1][..i] == rows[..i];
      byDevice := byDevice[r.device := (if r.device in byDevice then byDevice[r.device] else []) + [r]];
    }
    assert rows[..|rows|] == rows;
  }

  method Aggregate(devices: seq<Device>, rows: seq<Row>, w: Window, from: int, to: int, z: Zone)
    returns (out: seq<DeviceUsage>)
    requires w == Today || Terminates(z, from, to)
    ensures IsResponse(out, devices, rows, w, from, to, z)
  {
    hide RowsOf, IsDeviceUsage, Terminates, SortBy;
    var byDevice := GroupByDevice(rows);
    var sorted := SortBy(devices, DeviceBefore());
    out := [];
    for i := 0 to |sorted|
      invariant |out| == i
      invariant forall j | 0 <= j < i :: IsDeviceUsage(out[j], sorted[j], RowsOf(rows, sorted[j].id), w, from, to, z)
    {
      var id := sorted[i].id;
      var du := AggregateDevice(sorted[i], if id in byDevice then byDevice[id] else [], w, from, to, z);
      out := out + [du];
    }
  }
}
