// The usage request (server/internal/api/handlers.go), and the whole pipeline
// from reports to the seconds it shows.
module UsageReport {
  import opened Wrappers
  import opened Clock
  import opened Sums
  import opened UsageTypes
  import opened Attribution
  import opened Store
  import opened Accounting
  import opened Timeline
  import opened RowMaps
  import opened Zones
  import opened Aggregate
  import opened Conservation
  import Rfc3339
  import Text

  const BAD_REQUEST := 400
  const INTERNAL_ERROR := 500

  datatype UsageResponse = UsageResponse(window: Window, from: int, to: int, devices: seq<DeviceUsage>)

  /** A missing window means today; an unknown one is refused. */
  function RequestedWindow(name: string): Option<Window> {
    WindowOf(if name == "" then "today" else name)
  }

  /** The devices that have reported, as the response names them. */
  ghost predicate ReportingDevices(ds: seq<Device>, db: Db) {
    && DistinctIds(ds)
    && forall d :: d in ds <==> d.id in db.devices && d.id in db.states
                                && db.devices[d.id] == Identity(d.name, d.kind)
  }

  ghost predicate Answers(resp: UsageResponse, db: Db, w: Window, now: int, z: Zone) {
    && resp.window == w && resp.to == now && resp.from == WindowStart(z, now, w)
    && exists ds, rows ::
         ReportingDevices(ds, db) && Enumerates(rows, Selected(db.usage, resp.from, now))
         && IsResponse(resp.devices, ds, rows, w, resp.from, now, z)
  }

  /** Every state row and every bucket of the window can be read back. */
  ghost predicate Legible(db: Db, from: int, to: int) {
    && (forall d | d in db.states && d in db.devices :: ReadState(db, d).Ok?)
    && (forall k | k in Selected(db.usage, from, to) :: Rfc3339.Parse(k.hourStart).Some?)
  }

  /** GET /api/v1/usage, where the day loop of a charted window ends: see
      `TerminatesIff`. */
  method Usage(store: Store, name: string, now: int, z: Zone) returns (r: Result<UsageResponse, int>)
    requires RequestedWindow(name).Some? ==>
               var w := RequestedWindow(name).value;
               w == Today || Terminates(z, WindowStart(z, now, w), now)
    ensures RequestedWindow(name).None? ==> r == Err(BAD_REQUEST)
    ensures RequestedWindow(name).Some? ==>
              var w := RequestedWindow(name).value;
              if Legible(store.Contents(), WindowStart(z, now, w), now)
              then r.Ok? && Answers(r.value, store.Contents(), w, now, z)
              else r == Err(INTERNAL_ERROR)
    // The same by the names of the request: how many local days, and which chart.
    ensures name !in {"", "today", "7d", "30d"} ==> r == Err(400)
    ensures r.Ok? ==>
              var days := if name == "7d" then 7 else if name == "30d" then 30 else 1;
              && r.value.to == now && r.value.from == z.at(z.dayOf(now) - (days - 1), 0)
              && forall du | du in r.value.devices ::
                   if days == 1 then |du.hourly| == 24 && du.daily == [] else du.hourly == []
    ensures r.Ok? ==>
              var out := r.value.devices;
              forall i, j | 0 <= i < j < |out| :: Text.Less(out[i].device.id, out[j].device.id)
  {
    hide Terminates, ReadState, Rfc3339.Format, Rfc3339.Parse, Selected, Enumerates, IsResponse;
    var window := RequestedWindow(name);
    if window.None? {
      return Err(BAD_REQUEST);
    }
    var w := window.value;
    var from := z.at(z.dayOf(now) - (WindowDays(w) - 1), 0);
    var states := store.ListStates();
    if states.Err? {
      return Err(INTERNAL_ERROR);
    }
    var ds := DevicesOf(states.value);
    ListedDevices(states.value, ds, store.Contents());
    var rows := store.QueryUsage(from, now);
    if rows.Err? {
      return Err(INTERNAL_ERROR);
    }
    var out := Aggregate.Aggregate(ds, rows.value, w, from, now, z);
    ResponseShape(out, ds, rows.value, w, from, now, z);
    return Ok(UsageResponse(w, from, now, out));
  }

  lemma ResponseShape(out: seq<DeviceUsage>, ds: seq<Device>, rows: seq<Row>, w: Window, from: int, to: int, z: Zone)
    requires IsResponse(out, ds, rows, w, from, to, z) && DistinctIds(ds)
    ensures forall i, j | 0 <= i < j < |out| :: Text.Less(out[i].device.id, out[j].device.id)
    ensures forall du | du in out :: if w == Today then |du.hourly| == 24 && du.daily == [] else du.hourly == []
  {
    hide DeviceBefore, RowsOf, PerApp, SumRows;
    DevicesSort(ds);
  }

  function DevicesOf(states: seq<ListedState>): (ds: seq<Device>)
    ensures |ds| == |states|
  {
    seq(|states|, i requires 0 <= i < |states| =>
      Device(states[i].id, states[i].identity.name, states[i].identity.kind))
  }

  lemma ListedDevices(states: seq<ListedState>, ds: seq<Device>, db: Db)
    requires ListsStates(states, db) && ds == DevicesOf(states)
    requires forall d | d in db.states && d in db.devices :: ReadState(db, d).Ok?
    ensures ReportingDevices(ds, db)
  {
    hide ReadState;
    forall d
      ensures d in ds <==> d.id in db.devices && d.id in db.states && db.devices[d.id] == Identity(d.name, d.kind)
    {
      if d in ds {
        var i :| 0 <= i < |ds| && ds[i] == d;
        assert states[i] in states;
      }
      if d.id in db.devices && d.id in db.states && db.devices[d.id] == Identity(d.name, d.kind) {
        var x := ListedState(d.id, db.devices[d.id], ReadState(db, d.id).value);
        assert x in states;
        var i :| 0 <= i < |states| && states[i] == x;
        assert ds[i] == d;
      }
    }
  }

  // ---------- Rows of the window ----------

  /** The rows of a query begin inside the window, so each of them falls on one
      of the listed dates (see `DailyHoldsActive`). */
  lemma QueriedRowsInWindow(usage: UsageTable, rows: seq<Row>, from: int, to: int)
    requires Rfc3339.Stampable(from) && Rfc3339.Stampable(to) && from == Floor(from) * SECOND
    requires Enumerates(rows, Selected(usage, from, to))
    ensures InWindow(rows, from, to)
  {
    assert Floor(to) * SECOND <= to;
    hide Rfc3339.Format, Rfc3339.Stampable, Rfc3339.Parse, Floor;
    var sel := Selected(usage, from, to);
    var keys: seq<UsageKey> :| Listing(rows, keys, sel);
    forall r | r in rows ensures from <= r.hourStart < to {
      var i :| 0 <= i < |rows| && rows[i] == r;
      assert keys[i] in keys;
      assert RowFor(keys[i], sel[keys[i]], rows[i]);
      SelectedIsTimeRange(usage, from, to, keys[i], r.hourStart);
      Rfc3339.FormatParse(keys[i].hourStart);
    }
  }

  function OfDeviceRows(id: string, q: Selector): Selector { (r: Row) => r.device == id && q(r) }

  lemma {:induction false} RowsOfSum(rows: seq<Row>, id: string, q: Selector)
    ensures SumRows(RowsOf(rows, id), q) == SumRows(rows, OfDeviceRows(id, q))
  {
    if rows != [] {
      var front, r := rows[..|rows| - 1], rows[|rows| - 1];
      RowsOfSum(front, id, q);
      if r.device == id { SumRowsGrows(RowsOf(front, id), r, q); }
    }
  }

  /** Summing a selection is summing the whole table under a narrower predicate. */
  lemma {:induction false} SumSelected(m: UsageTable, sel: UsageTable, p: UsageKey -> bool, q: UsageKey -> bool)
    requires sel.Keys <= m.Keys && forall k | k in sel :: sel[k] == m[k]
    requires forall k | k in m :: q(k) == (k in sel && p(k))
    ensures SumWhere(sel, p) == SumWhere(m, q)
    decreases m.Keys
  {
    if m == map[] {
      assert sel == map[];
    } else {
      var k :| k in m;
      SumAbsent(sel, p, k);
      SumAbsent(m, q, k);
      SumSelected(m - {k}, sel - {k}, p, q);
    }
  }

  // ---------- From reports to the screen ----------

  /** The row a labelled second would be in, but for its total. */
  function RowAt(d: string, o: Activity, s: int): Row {
    Row(d, s / 3600 * HOUR, StateOf(o), o.app, o.description, 0)
  }

  /** A selection by anything but the seconds. */
  ghost predicate IgnoresSeconds(q: Selector) {
    forall r: Row, n: nat :: q(r.(seconds := n)) == q(r)
  }

  /** The labelled seconds that fall in a selection and whose UTC hour begins in the window. */
  function Shown(hist: seq<Report>, maxGap: int, d: string, q: Selector, from: int, to: int): int -> bool {
    s => Label(hist, maxGap, s).Some? && q(RowAt(d, Label(hist, maxGap, s).value, s))
         && Floor(from) <= s / 3600 * 3600 < Floor(to)
  }

  function KeyMatches(id: string, q: Selector): UsageKey -> bool {
    (k: UsageKey) => k.device == id && Rfc3339.Parse(k.hourStart).Some?
                     && q(Row(id, Rfc3339.Parse(k.hourStart).value, k.state, k.app, k.description, 0))
  }

  function KeyShown(id: string, q: Selector, from: int, to: int): UsageKey -> bool {
    (k: UsageKey) => KeyMatches(id, q)(k) && Text.AtMost(Rfc3339.Format(from), k.hourStart)
                     && Text.Less(k.hourStart, Rfc3339.Format(to))
  }

  ghost predicate FourDigitYears(hist: seq<Report>) {
    forall r | r in hist :: Rfc3339.Stampable(r.seenAt)
  }

  /** A labelled second lies between two reports, so its hour has a stamp. */
  lemma LabelledHourStampable(hist: seq<Report>, maxGap: int, s: int)
    requires Monotone(hist) && FourDigitYears(hist) && Label(hist, maxGap, s).Some?
    ensures Rfc3339.Stampable(s / 3600 * HOUR)
  {
    hide Floor, Label;
    LabelledIsCredited(hist, maxGap, s);
    var c :| c in CreditsOf(hist, maxGap) && c.from <= s < c.to;
    CreditBounds(hist, maxGap, c);
    assert hist[0] in hist && hist[|hist| - 1] in hist;
    FloorOfSeconds(s / 3600 * 3600);
  }

  lemma ShownIsSelected(hist: seq<Report>, maxGap: int, d: string, q: Selector, from: int, to: int, s: int)
    requires Monotone(hist) && FourDigitYears(hist) && Rfc3339.Stampable(from) && Rfc3339.Stampable(to)
    ensures TimelineHits(hist, maxGap, d, KeyShown(d, q, from, to))(s) == Shown(hist, maxGap, d, q, from, to)(s)
  {
    hide Rfc3339.Stampable, Rfc3339.Format, Rfc3339.Parse, Floor, Label, StateOf, Truncate;
    if Label(hist, maxGap, s).Some? {
      LabelledHourStampable(hist, maxGap, s);
      var o, t := Label(hist, maxGap, s).value, s / 3600 * HOUR;
      assert t == s / 3600 * 3600 * SECOND;
      Rfc3339.FormatRange(from, t, to);
      Rfc3339.ParseFormat(t);
      FloorOfSeconds(s / 3600 * 3600);
      TruncateIsFloor(t);
      assert KeyMatches(d, q)(KeyAt(d, o, s)) == q(RowAt(d, o, s));
    }
  }

  lemma TotalIsLedger(usage: UsageTable, rows: seq<Row>, id: string, q: Selector, from: int, to: int)
    requires Enumerates(rows, Selected(usage, from, to)) && IgnoresSeconds(q)
    ensures SumRows(RowsOf(rows, id), q) == SumWhere(usage, OfDevice(id, KeyShown(id, q, from, to)))
  {
    hide Rfc3339.Format, SumWhere, RowsOf, SumRows, Rfc3339.Parse;
    var sel := Selected(usage, from, to);
    RowsOfSum(rows, id, q);
    forall k, r | k in sel && RowFor(k, sel[k], r) ensures OfDeviceRows(id, q)(r) == KeyMatches(id, q)(k) {
      assert r == Row(k.device, r.hourStart, k.state, k.app, k.description, 0).(seconds := sel[k]);
    }
    SumEnumerated(rows, sel, OfDeviceRows(id, q), KeyMatches(id, q));
    SumSelected(usage, sel, KeyMatches(id, q), OfDevice(id, KeyShown(id, q, from, to)));
  }

  /** The rows of a window, queried after a run of reports whose history of the
      device is clean and monotone and lies within the seconds lo..hi. */
  ghost predicate Queried(devices: Devices, rs: seq<Report>, maxGap: int, rows: seq<Row>, id: string,
                          from: int, to: int, lo: int, hi: int) {
    var hist := HistoryOf(rs, id);
    && id in devices && Rfc3339.Stampable(from) && Rfc3339.Stampable(to)
    && Monotone(hist) && Clean(hist, maxGap) && FourDigitYears(hist)
    && (hist != [] ==> lo <= Floor(hist[0].seenAt) && Floor(hist[|hist| - 1].seenAt) <= hi)
    && Enumerates(rows, Selected(Run(devices, rs, maxGap).usage, from, to))
  }

  /** The seconds of any selection of the device's rows are the labelled seconds in it. */
  lemma SelectionShown(devices: Devices, rs: seq<Report>, maxGap: int, rows: seq<Row>, id: string,
                       from: int, to: int, lo: int, hi: int, q: Selector)
    requires Queried(devices, rs, maxGap, rows, id, from, to, lo, hi) && IgnoresSeconds(q)
    ensures SumRows(RowsOf(rows, id), q) == Count(lo, hi, Shown(HistoryOf(rs, id), maxGap, id, q, from, to))
  {
    hide Rfc3339.Stampable, Rfc3339.Format, Floor, Enumerates, Selected, RowsOf, SumRows, Run, Clean, Monotone;
    hide FourDigitYears, SumWhere, TimelineHits, Shown, KeyShown, IgnoresSeconds;
    var hist := HistoryOf(rs, id);
    var p, shown := KeyShown(id, q, from, to), Shown(hist, maxGap, id, q, from, to);
    TotalIsLedger(Run(devices, rs, maxGap).usage, rows, id, q, from, to);
    BucketsCountSeconds(devices, rs, maxGap, id, p, lo, hi);
    forall s ensures TimelineHits(hist, maxGap, id, p)(s) == shown(s) {
      ShownIsSelected(hist, maxGap, id, q, from, to, s);
    }
    CountSame(lo, hi, TimelineHits(hist, maxGap, id, p), shown);
  }

  /** The seconds a ranking shows for an app and for each of its activities. */
  lemma RankedSeconds(apps: seq<AppUsage>, rows: seq<Row>, a: AppUsage)
    requires IsRankedApps(apps, PerApp(rows)) && a in apps
    ensures a.seconds == SumRows(rows, ActiveIn(a.app))
    ensures forall b | b in a.activities :: b.seconds == SumRows(rows, ActiveAs(a.app, b.description))
  {
    hide SumWhere, SumRows, Names;
    BySum(rows, ActiveIn(a.app), DescriptionOf());
  }

  function ActiveAs(app: string, description: string): Selector {
    Keyed(ActiveIn(app), DescriptionOf(), description)
  }

  /** An app with seconds is in the ranking. */
  lemma RankedComplete(apps: seq<AppUsage>, rows: seq<Row>, app: string)
    requires IsRankedApps(apps, PerApp(rows)) && SumRows(rows, ActiveIn(app)) > 0
    ensures exists a :: a in apps && a.app == app
  {
    hide SumWhere, By;
    if app !in Names(rows, InState(Active), AppOf()) { SumRowsNone(rows, ActiveIn(app)); }
    hide SumRows;
    var m := PerApp(rows)[app];
    var acts := EveryMapRanks(m);
    assert AppUsage(app, SumWhere(m, All()), acts) in apps;
  }

  // ---------- What the page shows, in terms of the labels ----------

  type Condition = (Activity, int) -> bool

  /** The labelled seconds whose UTC hour begins in the window, counted by a
      condition on the label and on the instant the hour begins. */
  function SecondsWhere(rs: seq<Report>, maxGap: int, id: string, from: int, to: int, lo: int, hi: int,
                        f: Condition): nat
  {
    Count(lo, hi, SecondHolds(HistoryOf(rs, id), maxGap, from, to, f))
  }

  function SecondHolds(hist: seq<Report>, maxGap: int, from: int, to: int, f: Condition): int -> bool {
    s => Label(hist, maxGap, s).Some? && Floor(from) <= s / 3600 * 3600 < Floor(to)
         && f(Label(hist, maxGap, s).value, s / 3600 * HOUR)
  }

  function WhileActive(): Condition { (o: Activity, t: int) => !o.locked && !o.idle }
  function WhileIdle(): Condition { (o: Activity, t: int) => !o.locked && o.idle }
  function WhileLocked(): Condition { (o: Activity, t: int) => o.locked }

  function InApp(app: string): Condition {
    (o: Activity, t: int) => !o.locked && !o.idle && o.app == app
  }

  function InActivity(app: string, description: string): Condition {
    (o: Activity, t: int) => !o.locked && !o.idle && o.app == app && o.description == description
  }

  function AtHour(z: Zone, h: int): Condition {
    (o: Activity, t: int) => !o.locked && !o.idle && h * HOUR <= z.clockOf(t) < (h + 1) * HOUR
  }

  function AtHourIn(z: Zone, h: int): string -> Condition {
    (app: string) =>
      (o: Activity, t: int) => !o.locked && !o.idle && h * HOUR <= z.clockOf(t) < (h + 1) * HOUR && o.app == app
  }

  function OnDate(z: Zone, d: int): Condition {
    (o: Activity, t: int) => !o.locked && !o.idle && z.dayOf(t) == d
  }

  function OnDateIn(z: Zone, d: int): string -> Condition {
    (app: string) => (o: Activity, t: int) => !o.locked && !o.idle && z.dayOf(t) == d && o.app == app
  }

  /** A selection of rows means the same as a condition on labels. */
  ghost predicate Means(q: Selector, f: Condition) {
    forall d: string, o: Activity, t: int, n: nat :: q(Row(d, t, StateOf(o), o.app, o.description, n)) == f(o, t)
  }

  lemma MeaningIgnoresSeconds(q: Selector, f: Condition)
    requires Means(q, f)
    ensures IgnoresSeconds(q)
  {
    forall r: Row, n: nat ensures q(r.(seconds := n)) == q(r) {
      var o := Activity(r.app, r.description, r.state == Idle, 0, r.state == Locked);
      assert r == Row(r.device, r.hourStart, StateOf(o), o.app, o.description, r.seconds);
      assert r.(seconds := n) == Row(r.device, r.hourStart, StateOf(o), o.app, o.description, n);
    }
  }

  lemma Counted(devices: Devices, rs: seq<Report>, maxGap: int, rows: seq<Row>, id: string,
                from: int, to: int, lo: int, hi: int, q: Selector, f: Condition)
    requires Queried(devices, rs, maxGap, rows, id, from, to, lo, hi) && Means(q, f)
    ensures SumRows(RowsOf(rows, id), q) == SecondsWhere(rs, maxGap, id, from, to, lo, hi, f)
  {
    hide Queried, RowsOf, SumRows, Label, Floor, StateOf, HistoryOf, Count;
    MeaningIgnoresSeconds(q, f);
    SelectionShown(devices, rs, maxGap, rows, id, from, to, lo, hi, q);
    var hist := HistoryOf(rs, id);
    forall s ensures Shown(hist, maxGap, id, q, from, to)(s) == SecondHolds(hist, maxGap, from, to, f)(s) {
      if Label(hist, maxGap, s).Some? {
        var o, t := Label(hist, maxGap, s).value, s / 3600 * HOUR;
        assert RowAt(id, o, s) == Row(id, t, StateOf(o), o.app, o.description, 0);
        assert q(Row(id, t, StateOf(o), o.app, o.description, 0)) == f(o, t);
      }
    }
    CountSame(lo, hi, Shown(hist, maxGap, id, q, from, to), SecondHolds(hist, maxGap, from, to, f));
  }

  lemma LabelMeanings(app: string, description: string)
    ensures Means(InState(Active), WhileActive()) && Means(InState(Idle), WhileIdle())
    ensures Means(InState(Locked), WhileLocked()) && Means(ActiveIn(app), InApp(app))
    ensures Means(ActiveAs(app, description), InActivity(app, description))
  {}

  lemma DateMeanings(z: Zone, d: int, app: string)
    ensures Means(ActiveOnDay(z, d), OnDate(z, d)) && Means(Keyed(ActiveOnDay(z, d), AppOf(), app), OnDateIn(z, d)(app))
  {}

  lemma HourMeanings(z: Zone, h: int, app: string)
    ensures Means(ActiveAtHour(z, h), AtHour(z, h))
    ensures Means(Keyed(ActiveAtHour(z, h), AppOf(), app), AtHourIn(z, h)(app))
  {
    forall t ensures HourOf(z, t) == h <==> h * HOUR <= z.clockOf(t) < (h + 1) * HOUR {}
    hide HourOf;
  }

  type SecondsOf = Condition -> nat

  /** No app when there are no seconds; otherwise the one with the most, the
      alphabetically first on a tie. */
  ghost predicate ShowsTop(top: string, seconds: SecondsOf, f: Condition, per: string -> Condition) {
    if seconds(f) == 0 then top == ""
    else forall a | a != top && seconds(per(a)) > 0 ::
           seconds(per(a)) < seconds(per(top)) || (seconds(per(a)) == seconds(per(top)) && Text.Less(top, a))
  }

  ghost predicate ShowsTotals(du: DeviceUsage, seconds: SecondsOf) {
    du.totals == Totals(seconds(WhileActive()), seconds(WhileIdle()), seconds(WhileLocked()))
  }

  ghost predicate ShowsApps(du: DeviceUsage, seconds: SecondsOf) {
    && (forall a | a in du.apps :: a.seconds == seconds(InApp(a.app)))
    && (forall a, b | a in du.apps && b in a.activities :: b.seconds == seconds(InActivity(a.app, b.description)))
    && (forall app | seconds(InApp(app)) > 0 :: exists a :: a in du.apps && a.app == app)
  }

  ghost predicate ShowsHours(du: DeviceUsage, seconds: SecondsOf, z: Zone) {
    forall h | 0 <= h < |du.hourly| ::
      && du.hourly[h].hour == h && du.hourly[h].seconds == seconds(AtHour(z, h))
      && ShowsTop(du.hourly[h].topApp, seconds, AtHour(z, h), AtHourIn(z, h))
  }

  ghost predicate ShowsDates(du: DeviceUsage, seconds: SecondsOf, z: Zone) {
    forall i | 0 <= i < |du.daily| ::
      && du.daily[i].seconds == seconds(OnDate(z, du.daily[i].date))
      && ShowsTop(du.daily[i].topApp, seconds, OnDate(z, du.daily[i].date), OnDateIn(z, du.daily[i].date))
  }

  /** Summing rows is counting labels. */
  ghost predicate RowsCount(rows: seq<Row>, seconds: SecondsOf) {
    forall q, f | Means(q, f) :: SumRows(rows, q) == seconds(f)
  }

  lemma AppsShown(du: DeviceUsage, rows: seq<Row>, seconds: SecondsOf)
    requires IsRankedApps(du.apps, PerApp(rows)) && RowsCount(rows, seconds)
    ensures ShowsApps(du, seconds)
  {
    hide SumRows, ActiveIn, ActiveAs, InApp, InActivity, Means, IsRankedApps;
    forall app ensures SumRows(rows, ActiveIn(app)) == seconds(InApp(app)) { LabelMeanings(app, ""); }
    forall app, description
      ensures SumRows(rows, ActiveAs(app, description)) == seconds(InActivity(app, description))
    {
      LabelMeanings(app, description);
    }
    hide RowsCount;
    forall a | a in du.apps { RankedSeconds(du.apps, rows, a); }
    forall app | seconds(InApp(app)) > 0 { RankedComplete(du.apps, rows, app); }
  }

  lemma TopShown(rows: seq<Row>, seconds: SecondsOf, q: Selector, top: string, f: Condition, per: string -> Condition)
    requires RowsCount(rows, seconds) && IsTop(By(rows, q, AppOf()), top)
    requires Means(q, f) && forall app :: Means(Keyed(q, AppOf(), app), per(app))
    ensures ShowsTop(top, seconds, f, per)
  {
    hide SumRows, SumWhere, Means;
    BySum(rows, q, AppOf());
    forall a | a !in Names(rows, q, AppOf()) ensures SumRows(rows, Keyed(q, AppOf(), a)) == 0 {
      SumRowsNone(rows, Keyed(q, AppOf(), a));
    }
    forall a ensures SumRows(rows, Keyed(q, AppOf(), a)) == seconds(per(a)) {}
    hide RowsCount, Keyed;
    var m := By(rows, q, AppOf());
    assert forall a | a in m :: m[a] == seconds(per(a));
    assert forall a | seconds(per(a)) > 0 :: a in m;
    hide By;
  }

  lemma HourShown(slot: HourUsage, rows: seq<Row>, seconds: SecondsOf, z: Zone, h: int)
    requires IsHourSlot(slot, rows, z, h) && RowsCount(rows, seconds)
    ensures slot.hour == h && slot.seconds == seconds(AtHour(z, h))
    ensures ShowsTop(slot.topApp, seconds, AtHour(z, h), AtHourIn(z, h))
  {
    hide SumRows, ActiveAtHour, AtHour, AtHourIn, Means, IsTop, By, Keyed, ShowsTop;
    forall app ensures Means(Keyed(ActiveAtHour(z, h), AppOf(), app), AtHourIn(z, h)(app)) { HourMeanings(z, h, app); }
    HourMeanings(z, h, "");
    TopShown(rows, seconds, ActiveAtHour(z, h), slot.topApp, AtHour(z, h), AtHourIn(z, h));
  }

  lemma DateShown(slot: DayUsage, rows: seq<Row>, seconds: SecondsOf, z: Zone, d: int)
    requires IsDaySlot(slot, rows, z, d) && RowsCount(rows, seconds)
    ensures slot.date == d && slot.seconds == seconds(OnDate(z, d))
    ensures ShowsTop(slot.topApp, seconds, OnDate(z, d), OnDateIn(z, d))
  {
    hide SumRows, ActiveOnDay, OnDate, OnDateIn, Means, IsTop, By, Keyed, ShowsTop;
    forall app ensures Means(Keyed(ActiveOnDay(z, d), AppOf(), app), OnDateIn(z, d)(app)) { DateMeanings(z, d, app); }
    DateMeanings(z, d, "");
    TopShown(rows, seconds, ActiveOnDay(z, d), slot.topApp, OnDate(z, d), OnDateIn(z, d));
  }

  /** The whole pipeline, from reports to the page: every number of seconds shown
      for a device is the number of seconds of its timeline in the hours of the
      window that carry the state, the app, the activity, the local hour or the
      local date it is shown for; no app with such seconds is missing; and the app
      named at an hour or a date is the one with the most seconds there. */
  lemma ScreenTime(devices: Devices, rs: seq<Report>, maxGap: int, rows: seq<Row>, du: DeviceUsage, dev: Device,
                   w: Window, from: int, to: int, z: Zone, lo: int, hi: int)
    requires Queried(devices, rs, maxGap, rows, dev.id, from, to, lo, hi)
    requires IsDeviceUsage(du, dev, RowsOf(rows, dev.id), w, from, to, z)
    ensures var seconds := f => SecondsWhere(rs, maxGap, dev.id, from, to, lo, hi, f);
            && ShowsTotals(du, seconds) && ShowsApps(du, seconds)
            && ShowsHours(du, seconds, z) && ShowsDates(du, seconds, z)
  {
    hide Queried, RowsOf, SumRows, InState, ActiveIn, ActiveAs, ActiveAtHour, ActiveOnDay, SecondsWhere, Means;
    hide WhileActive, WhileIdle, WhileLocked, InApp, InActivity, AtHour, AtHourIn, OnDate, OnDateIn, Keyed, ShowsTop;
    hide IsRankedApps, IsTop, PerApp, By, Cur;
    var mine := RowsOf(rows, dev.id);
    var seconds: SecondsOf := f => SecondsWhere(rs, maxGap, dev.id, from, to, lo, hi, f);
    forall q, f | Means(q, f) ensures SumRows(mine, q) == seconds(f) {
      Counted(devices, rs, maxGap, rows, dev.id, from, to, lo, hi, q, f);
    }
    LabelMeanings("", "");
    AppsShown(du, mine, seconds);
    forall h | 0 <= h < |du.hourly| { HourShown(du.hourly[h], mine, seconds, z, h); }
    forall i | 0 <= i < |du.daily| {
      DateShown(du.daily[i], mine, seconds, z, z.dayOf(Cur(z, from, i)));
    }
  }
}
