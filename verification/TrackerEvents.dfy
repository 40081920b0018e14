// What the events of a device say about its status (server/internal/state/state.go
// and the report handler): when an offline event is stale, and when the last event
// is right.
module TrackerEvents {
  import opened Wrappers
  import opened Clock
  import opened TrackerProtocol

  // ---------- When an offline event is stale ----------

  /** The time of the last report of `d` stored among some actions. */
  function LastStore(acts: seq<Action>, d: Id): Option<int> {
    if acts == [] then None
    else
      var a := acts[|acts| - 1];
      if a.Store? && a.id == d then Some(a.seenAt) else LastStore(acts[..|acts| - 1], d)
  }

  /** The store holds the last report since `s`, or what it held at `s`. */
  lemma {:induction false} StoreHolds(s: State, acts: seq<Action>, threshold: int, d: Id)
    requires d in s.lastSeen
    ensures var t := Exec(s, acts, threshold);
            d in t.lastSeen
            && t.lastSeen[d] == match LastStore(acts, d) case None => s.lastSeen[d] case Some(at) => at
  {
    hide IsOnline, IsListing, HistoryOf;
    if acts != [] { StoreHolds(s, acts[..|acts| - 1], threshold, d); }
  }

  /** The devices were listed at `s0` with a time that is past the threshold by now. */
  ghost predicate ListedStale(ids: seq<Id>, s0: State, clock: int, threshold: int) {
    forall d | d in ids :: d in s0.lastSeen && !IsOnline(clock, s0.lastSeen[d], threshold)
  }

  ghost predicate ListedAt(list: seq<Seen>, s0: State) {
    forall r | r in list :: r.id in s0.lastSeen && s0.lastSeen[r.id] == r.lastSeen
  }

  /** The scan that listed at `s0`, for as long as it lasts. */
  ghost predicate SameScan(s0: State, s: State, threshold: int) {
    && s0.scans <= s.scans
    && (s.scans == s0.scans ==>
          match s.phase
          case Listed(list) => ListedAt(list, s0)
          case Judging(list, now, _, found) =>
            now <= s.clock && ListedAt(list, s0) && ListedStale(found, s0, s.clock, threshold)
          case _ => false)
    && (s.scans == s0.scans + 1 && s.phase.Sending? ==> ListedStale(s.phase.found, s0, s.clock, threshold))
  }

  lemma LaterIsStaler(ids: seq<Id>, s0: State, clock: int, later: int, threshold: int)
    requires ListedStale(ids, s0, clock, threshold) && clock <= later
    ensures ListedStale(ids, s0, later, threshold)
  {
    forall d | d in ids ensures !IsOnline(later, s0.lastSeen[d], threshold) {
      SubMonotone(clock, later, s0.lastSeen[d]);
    }
  }

  lemma JudgeSameScan(s0: State, s: State, threshold: int)
    requires SameScan(s0, s, threshold) && Enabled(s, Judge)
    ensures SameScan(s0, Next(s, Judge, threshold), threshold)
  {
    hide Insert, IsListing;
    var row, t := s.phase.list[0], Next(s, Judge, threshold);
    assert row in s.phase.list && forall r | r in s.phase.list[1..] :: r in s.phase.list;
    assert t.clock == s.clock && t.scans == s.scans;
    if s.scans == s0.scans {
      SubMonotone(s.phase.now, s.clock, row.lastSeen);
      assert ListedAt(t.phase.list, s0);
      assert forall d | d in t.phase.found :: d in s.phase.found || d == row.id;
      hide Remove;
    }
  }

  lemma StepSameScan(s0: State, s: State, a: Action, threshold: int)
    requires SameScan(s0, s, threshold) && Enabled(s, a)
    ensures SameScan(s0, Next(s, a, threshold), threshold)
  {
    hide Insert, Remove, IsListing, IsOnline, ListedAt;
    match a {
      case Tick(now) =>
        if (s.scans == s0.scans && s.phase.Judging?) || (s.scans == s0.scans + 1 && s.phase.Sending?) {
          LaterIsStaler(s.phase.found, s0, s.clock, now, threshold);
        }
      case Judge => JudgeSameScan(s0, s, threshold);
      case Sync => InsertKeepsRest(s, s.phase.online);
      case MarkOnline(d) => InsertKeepsRest(s, {d});
      case Send => assert forall d | d in s.phase.found[1..] :: d in s.phase.found;
      case _ =>
    }
  }

  lemma InsertKeepsRest(s: State, ids: set<Id>)
    ensures var t := Insert(s, ids);
            t.phase == s.phase && t.clock == s.clock && t.scans == s.scans && t.lastSeen == s.lastSeen
            && t.events == s.events && t.known == s.known + ids
  {}

  lemma {:induction false} RunSameScan(s0: State, rows: seq<Seen>, mid: seq<Action>, threshold: int)
    requires Enabled(s0, List(rows))
    ensures SameScan(s0, Exec(Next(s0, List(rows), threshold), mid, threshold), threshold)
  {
    var s1 := Next(s0, List(rows), threshold);
    assert SameScan(s0, s1, threshold);
    hide SameScan, Next, Enabled;
    if mid != [] {
      var n := |mid| - 1;
      RunSameScan(s0, rows, mid[..n], threshold);
      var s := Exec(s1, mid[..n], threshold);
      if Enabled(s, mid[n]) { StepSameScan(s0, s, mid[n], threshold); }
    }
  }

  /** A scan lists at `s0`, and anything happens until the moment `t`, while an
      offline event of `d` waits to be broadcast. That event is stale at `t`, in
      that the store then says the device is online, if and only if a report of
      the device was stored since the listing and the last one is recent. */
  lemma OfflineIsStaleIff(s0: State, rows: seq<Seen>, mid: seq<Action>, threshold: int, d: Id)
    requires Enabled(s0, List(rows))
    requires var t := Exec(Next(s0, List(rows), threshold), mid, threshold);
             d in PendingOffline(t) && (t.scans == s0.scans || (t.scans == s0.scans + 1 && t.phase.Sending?))
    ensures var t := Exec(Next(s0, List(rows), threshold), mid, threshold);
            d in t.lastSeen
            && (IsOnline(t.clock, t.lastSeen[d], threshold) <==>
                LastStore(mid, d).Some? && IsOnline(t.clock, LastStore(mid, d).value, threshold))
  {
    hide Exec, IsOnline, IsListing;
    RunSameScan(s0, rows, mid, threshold);
    StoreHolds(Next(s0, List(rows), threshold), mid, threshold, d);
  }

  /** The same at the moment of judgement and by the scan's own clock: the row
      being judged is what the store held when it was listed, whatever was stored
      since, so a known device judged stale is online in the store if and only if
      its last report since the listing is recent. */
  lemma JudgedStaleIff(s0: State, rows: seq<Seen>, mid: seq<Action>, threshold: int, d: Id)
    requires Enabled(s0, List(rows))
    requires var t := Exec(Next(s0, List(rows), threshold), mid, threshold);
             t.scans == s0.scans && Enabled(t, Judge) && t.phase.list[0].id == d && d in t.known
             && !IsOnline(t.phase.now, t.phase.list[0].lastSeen, threshold)
    ensures var t := Exec(Next(s0, List(rows), threshold), mid, threshold);
            && PendingOffline(Next(t, Judge, threshold)) == PendingOffline(t) + [d]
            && d in s0.lastSeen && t.phase.list[0].lastSeen == s0.lastSeen[d]
            && d in t.lastSeen
            && (IsOnline(t.phase.now, t.lastSeen[d], threshold) <==>
                LastStore(mid, d).Some? && IsOnline(t.phase.now, LastStore(mid, d).value, threshold))
  {
    hide Exec, IsListing;
    RunSameScan(s0, rows, mid, threshold);
    var t := Exec(Next(s0, List(rows), threshold), mid, threshold);
    assert t.phase.list[0] in t.phase.list;
    StoreHolds(Next(s0, List(rows), threshold), mid, threshold, d);
  }

  // ---------- When the last event is right ----------

  /** The last event of a device. */
  function LastEvent(events: seq<Event>, d: Id): Option<Event> {
    if events == [] then None
    else if events[|events| - 1].id == d then Some(events[|events| - 1])
    else LastEvent(events[..|events| - 1], d)
  }

  /** How far the report of `d` in flight has come: 0 for none, 1 once stored,
      2 once marked. */
  function Stage(acts: seq<Action>, d: Id): nat {
    if acts == [] then 0
    else
      match acts[|acts| - 1]
      case Store(e, _) => if e == d then 1 else Stage(acts[..|acts| - 1], d)
      case MarkOnline(e) => if e == d then 2 else Stage(acts[..|acts| - 1], d)
      case Announce(e) => if e == d then 0 else Stage(acts[..|acts| - 1], d)
      case _ => Stage(acts[..|acts| - 1], d)
  }

  /** An action that keeps the reports of `d` whole and out of scans: the steps of
      a report come in order while no scan is on, and no scan lists while a report
      is in flight. */
  predicate InTurn(s: State, stage: nat, a: Action, d: Id) {
    match a
    case Store(e, _) => e == d ==> stage == 0 && s.phase.Idle?
    case MarkOnline(e) => e == d ==> stage == 1 && s.phase.Idle?
    case Announce(e) => e == d ==> stage == 2 && s.phase.Idle?
    case List(_) => stage == 0
    case _ => true
  }

  /** No report of `d` lands inside a scan. */
  ghost predicate Undisturbed(s: State, acts: seq<Action>, threshold: int, d: Id) {
    acts == [] ||
    (var n := |acts| - 1;
     Undisturbed(s, acts[..n], threshold, d)
     && InTurn(Exec(s, acts[..n], threshold), Stage(acts[..n], d), acts[n], d))
  }

  /** The last event is `update` exactly for a known device. */
  ghost predicate Told(s: State, d: Id) {
    if d in s.known then LastEvent(s.events, d) == Some(Update(d))
    else LastEvent(s.events, d) in {None, Some(Offline(d))}
  }

  /** An unknown device is not online. */
  predicate UnknownIsOffline(s: State, threshold: int, d: Id) {
    d in s.lastSeen && d !in s.known ==> !IsOnline(s.clock, s.lastSeen[d], threshold)
  }

  ghost predicate Lists(list: seq<Seen>, d: Id) {
    exists r :: r in list && r.id == d
  }

  /** The rows still to judge are current for `d`, and name it at most once. */
  ghost predicate Current(list: seq<Seen>, s: State, d: Id) {
    && (forall r | r in list && r.id == d :: d in s.lastSeen && s.lastSeen[d] == r.lastSeen)
    && (forall i, j | 0 <= i < j < |list| :: list[i].id != list[j].id)
  }

  /** Where the scan stands with `d`. */
  ghost predicate ScanOk(s: State, threshold: int, d: Id) {
    match s.phase
    case Idle => true
    case Listed(list) => Current(list, s, d)
    case Judging(list, now, online, found) =>
      && now <= s.clock && Current(list, s, d)
      && (d in online ==> d in s.known && !Lists(list, d))
      && (d in found ==> d !in s.known && !Lists(list, d))
      && (d !in s.known && Lists(list, d) ==> !IsOnline(now, s.lastSeen[d], threshold))
    case Sending(found) => d in found ==> d !in s.known
  }

  /** What holds while the reports of `d` stay out of scans. */
  ghost predicate TurnInv(s: State, stage: nat, threshold: int, d: Id) {
    && (!s.phase.Idle? ==> stage == 0)
    && (stage == 0 ==> UnknownIsOffline(s, threshold, d))
    && (stage == 2 ==> d in s.known)
    && (stage < 2 && d !in PendingOffline(s) ==> Told(s, d))
    && ScanOk(s, threshold, d)
  }

  function StageAfter(stage: nat, a: Action, d: Id): nat {
    match a
    case Store(e, _) => if e == d then 1 else stage
    case MarkOnline(e) => if e == d then 2 else stage
    case Announce(e) => if e == d then 0 else stage
    case _ => stage
  }

  lemma LastEventGrows(events: seq<Event>, e: Event, d: Id)
    ensures LastEvent(events + [e], d) == if e.id == d then Some(e) else LastEvent(events, d)
  {
    assert (events + [e])[..|events|] == events;
  }

  lemma ReportInTurn(s: State, stage: nat, a: Action, threshold: int, d: Id)
    requires TurnInv(s, stage, threshold, d) && InTurn(s, stage, a, d)
    requires a.Store? || a.MarkOnline? || a.Announce?
    ensures TurnInv(Next(s, a, threshold), StageAfter(stage, a, d), threshold, d)
  {
    hide IsOnline, LastEvent, Lists;
    match a {
      case MarkOnline(e) => InsertKeepsRest(s, {e});
      case Announce(e) => LastEventGrows(s.events, Update(e), d);
      case Store(e, _) =>
    }
    hide Insert;
  }

  lemma ListingInTurn(s: State, a: Action, threshold: int, d: Id)
    requires TurnInv(s, 0, threshold, d) && Enabled(s, a) && (a.List? || a.ReadClock? || a.Finish?)
    ensures TurnInv(Next(s, a, threshold), 0, threshold, d)
  {
    hide IsOnline, LastEvent;
  }

  lemma TickInTurn(s: State, stage: nat, a: Action, threshold: int, d: Id)
    requires TurnInv(s, stage, threshold, d) && Enabled(s, a) && a.Tick?
    ensures TurnInv(Next(s, a, threshold), stage, threshold, d)
  {
    if d in s.lastSeen { SubMonotone(s.clock, a.now, s.lastSeen[d]); }
    hide LastEvent, Lists, Sub;
  }

  lemma SyncInTurn(s: State, threshold: int, d: Id)
    requires TurnInv(s, 0, threshold, d) && Enabled(s, Sync)
    ensures TurnInv(Next(s, Sync, threshold), 0, threshold, d)
  {
    hide IsOnline, LastEvent;
    InsertKeepsRest(s, s.phase.online);
    hide Insert, Lists, Current;
  }

  lemma SendInTurn(s: State, threshold: int, d: Id)
    requires TurnInv(s, 0, threshold, d) && Enabled(s, Send)
    ensures TurnInv(Next(s, Send, threshold), 0, threshold, d)
  {
    hide IsOnline, LastEvent, Current, Lists, Insert, Remove, IsListing;
    var e, rest := s.phase.found[0], s.phase.found[1..];
    LastEventGrows(s.events, Offline(e), d);
    assert s.phase.found == [e] + rest;
    assert Next(s, Send, threshold) == s.(phase := Sending(rest), events := s.events + [Offline(e)]);
    hide Next;
  }

  lemma JudgeInTurn(s: State, threshold: int, d: Id)
    requires TurnInv(s, 0, threshold, d) && Enabled(s, Judge)
    ensures TurnInv(Next(s, Judge, threshold), 0, threshold, d)
  {
    var t := Next(s, Judge, threshold);
    if d in s.lastSeen { SubMonotone(s.phase.now, s.clock, s.lastSeen[d]); }
    assert Current(t.phase.list, t, d);
    hide Next, LastEvent, Lists, Current, Sub;
  }

  lemma StepInTurn(s: State, stage: nat, a: Action, threshold: int, d: Id)
    requires TurnInv(s, stage, threshold, d) && Enabled(s, a) && InTurn(s, stage, a, d)
    ensures TurnInv(Next(s, a, threshold), StageAfter(stage, a, d), threshold, d)
  {
    hide ScanOk, Told, UnknownIsOffline, Insert, Remove, IsListing;
    match a {
      case Tick(_) => TickInTurn(s, stage, a, threshold, d);
      case Store(_, _) => ReportInTurn(s, stage, a, threshold, d);
      case MarkOnline(_) => ReportInTurn(s, stage, a, threshold, d);
      case Announce(_) => ReportInTurn(s, stage, a, threshold, d);
      case List(_) => ListingInTurn(s, a, threshold, d);
      case ReadClock => ListingInTurn(s, a, threshold, d);
      case Judge => JudgeInTurn(s, threshold, d);
      case Sync => SyncInTurn(s, threshold, d);
      case Send => SendInTurn(s, threshold, d);
      case ListFails =>
      case Finish => ListingInTurn(s, a, threshold, d);
    }
  }

  lemma {:induction false} RunInTurn(clock: int, acts: seq<Action>, threshold: int, d: Id)
    requires Undisturbed(Init(clock), acts, threshold, d)
    ensures TurnInv(Exec(Init(clock), acts, threshold), Stage(acts, d), threshold, d)
  {
    assert TurnInv(Init(clock), 0, threshold, d);
    hide TurnInv, Next, InTurn;
    if acts != [] {
      var n := |acts| - 1;
      RunInTurn(clock, acts[..n], threshold, d);
      assert acts == acts[..n] + [acts[n]];
      var mid := Exec(Init(clock), acts[..n], threshold);
      if Enabled(mid, acts[n]) { StepInTurn(mid, Stage(acts[..n], d), acts[n], threshold, d); }
    }
  }

  /** In every run in which no report of `d` lands inside a scan, whenever neither
      is in flight the last event of `d` is `update` if and only if the device is
      known, and `offline`, or none yet, otherwise; and an `offline` is true: the
      device has not been seen within the threshold. */
  lemma LastEventIsRight(clock: int, acts: seq<Action>, threshold: int, d: Id)
    requires Undisturbed(Init(clock), acts, threshold, d)
    requires Exec(Init(clock), acts, threshold).phase.Idle? && Stage(acts, d) == 0
    ensures var s := Exec(Init(clock), acts, threshold);
            && (LastEvent(s.events, d) == Some(Update(d)) <==> d in s.known)
            && (d !in s.known ==> LastEvent(s.events, d) in {None, Some(Offline(d))})
            && (LastEvent(s.events, d) == Some(Offline(d)) && d in s.lastSeen ==>
                  !IsOnline(s.clock, s.lastSeen[d], threshold)
                  && (IsInt64(threshold) ==> s.clock - s.lastSeen[d] > threshold))
  {
    hide Exec, Undisturbed, Stage, LastEvent, IsOnline;
    RunInTurn(clock, acts, threshold, d);
  }

  // ---------- A report that lands inside a scan ----------

  /** A scan of the single device `d` up to its judgement, with a complete
      report of `d` landing before the judgement; and the rest of the scan. */
  function RacingStart(d: Id, last: int, seenAt: int): seq<Action> {
    [List([Seen(d, last)]), ReadClock, Store(d, seenAt), MarkOnline(d), Announce(d)]
  }

  function RacingEnd(): seq<Action> { [Judge, Sync, Send, Finish] }

  function QuietScan(d: Id, last: int): seq<Action> {
    [List([Seen(d, last)]), ReadClock, Judge, Sync, Finish]
  }

  /** The last event of a device need not match its status: a report that lands
      inside a scan can be followed by a stale `offline`. The device is online
      in the store but unknown to the tracker; the next scan makes it known
      again and broadcasts nothing. */
  lemma StaleOffline(s: State, d: Id, last: int, seenAt: int, threshold: int)
    requires s.phase.Idle? && s.lastSeen == map[d := last] && s.known == {d}
    requires !IsOnline(s.clock, last, threshold) && IsOnline(s.clock, seenAt, threshold)
    ensures var t := Exec(s, RacingStart(d, last, seenAt) + RacingEnd(), threshold);
            t.events == s.events + [Update(d), Offline(d)]
            && t.lastSeen == map[d := seenAt] && IsOnline(t.clock, seenAt, threshold) && d !in t.known
            && var u := Exec(t, QuietScan(d, seenAt), threshold);
               d in u.known && u.events == t.events
  {
    ExecConcat(s, RacingStart(d, last, seenAt), RacingEnd(), threshold);
    ReportLands(s, d, last, seenAt, threshold);
    var mid := Exec(s, RacingStart(d, last, seenAt), threshold);
    StaleJudgement(mid, d, last, threshold);
    var t := Exec(mid, RacingEnd(), threshold);
    hide Exec, IsOnline;
    assert t.events == s.events + [Update(d), Offline(d)];
    QuietScanRestores(t, d, seenAt, threshold);
  }

  lemma ReportLands(s: State, d: Id, last: int, seenAt: int, threshold: int)
    requires s.phase.Idle? && s.lastSeen == map[d := last] && s.known == {d}
    ensures var t := Exec(s, RacingStart(d, last, seenAt), threshold);
            t.phase == Judging([Seen(d, last)], s.clock, {}, []) && t.clock == s.clock
            && t.lastSeen == map[d := seenAt] && t.known == {d} && t.events == s.events + [Update(d)]
  {
    hide Exec, IsOnline, HistoryOf;
    var r4 := [Announce(d)];
    var r3 := [MarkOnline(d)] + r4;
    var r2 := [Store(d, seenAt)] + r3;
    var r1 := [ReadClock] + r2;
    assert RacingStart(d, last, seenAt) == [List([Seen(d, last)])] + r1;
    var s1 := First(s, List([Seen(d, last)]), r1, threshold);
    var s2 := First(s1, ReadClock, r2, threshold);
    var s3 := First(s2, Store(d, seenAt), r3, threshold);
    var s4 := First(s3, MarkOnline(d), r4, threshold);
    assert r4 == [Announce(d)] + [];
    var s5 := First(s4, Announce(d), [], threshold);
    Nothing(s5, threshold);
  }

  lemma StaleJudgement(s: State, d: Id, last: int, threshold: int)
    requires s.phase == Judging([Seen(d, last)], s.clock, {}, []) && d in s.known
    requires !IsOnline(s.clock, last, threshold)
    ensures var t := Exec(s, RacingEnd(), threshold);
            t.phase.Idle? && t.clock == s.clock && t.lastSeen == s.lastSeen
            && t.known == s.known - {d} && t.events == s.events + [Offline(d)]
  {
    hide Exec, IsOnline, HistoryOf;
    var r3 := [Finish];
    var r2 := [Send] + r3;
    var r1 := [Sync] + r2;
    assert RacingEnd() == [Judge] + r1;
    var s1 := First(s, Judge, r1, threshold);
    var s2 := First(s1, Sync, r2, threshold);
    var s3 := First(s2, Send, r3, threshold);
    assert r3 == [Finish] + [];
    var s4 := First(s3, Finish, [], threshold);
    Nothing(s4, threshold);
  }

  lemma QuietScanRestores(s: State, d: Id, seenAt: int, threshold: int)
    requires s.phase.Idle? && s.lastSeen == map[d := seenAt] && IsOnline(s.clock, seenAt, threshold)
    ensures var u := Exec(s, QuietScan(d, seenAt), threshold);
            d in u.known && u.events == s.events
  {
    hide Exec, IsOnline, HistoryOf;
    var r4 := [Finish];
    var r3 := [Sync] + r4;
    var r2 := [Judge] + r3;
    var r1 := [ReadClock] + r2;
    assert QuietScan(d, seenAt) == [List([Seen(d, seenAt)])] + r1;
    var s1 := First(s, List([Seen(d, seenAt)]), r1, threshold);
    var s2 := First(s1, ReadClock, r2, threshold);
    var s3 := First(s2, Judge, r3, threshold);
    var s4 := First(s3, Sync, r4, threshold);
    assert r4 == [Finish] + [];
    var s5 := First(s4, Finish, [], threshold);
    Nothing(s5, threshold);
  }
}
