// server/internal/state/state.go as a transition system: the scanner and the
// report handlers race over the store and the `known` set. One action is one
// database call, one region under the tracker's lock, or one broadcast.
module TrackerProtocol {
  import opened Clock

  type Id = string

  /** A listed device and its last_seen_at. */
  datatype Seen = Seen(id: Id, lastSeen: int)

  /** Where the scanner is inside scanOnce. */
  datatype Phase =
    | Idle
    | Listed(list: seq<Seen>)
    | Judging(list: seq<Seen>, now: int, online: set<Id>, found: seq<Id>)
    | Sending(found: seq<Id>)

  datatype Event = Update(id: Id) | Offline(id: Id)

  datatype Mark = Inserted | Removed

  /** `events` is the broadcast log, `history` every change of `known` per
      device and `scans` the number of completed scans; they only observe. */
  datatype State = State(lastSeen: map<Id, int>, known: set<Id>, clock: int, phase: Phase,
                         events: seq<Event>, history: map<Id, seq<Mark>>, scans: nat)

  datatype Action =
    | Tick(now: int)
    // The three steps of a report that matter here.
    | Store(id: Id, seenAt: int)
    | MarkOnline(id: Id)
    | Announce(id: Id)
    // The steps of a scan.
    | List(rows: seq<Seen>)
    | ListFails
    | ReadClock
    | Judge
    | Sync
    | Send
    | Finish

  function Init(clock: int): State { State(map[], {}, clock, Idle, [], map[], 0) }

  /** The difference saturates, so at the largest threshold everybody is online. */
  predicate IsOnline(now: int, lastSeen: int, threshold: int): (b: bool)
    ensures IsInt64(threshold) ==> (b <==> now - lastSeen <= threshold || threshold == MAX_INT64)
  {
    Sub(now, lastSeen) <= threshold
  }

  /** One row per stored device. */
  ghost predicate IsListing(rows: seq<Seen>, lastSeen: map<Id, int>) {
    && (forall i, j | 0 <= i < j < |rows| :: rows[i].id != rows[j].id)
    && (forall d | d in lastSeen :: Seen(d, lastSeen[d]) in rows)
    && (forall r | r in rows :: r.id in lastSeen && lastSeen[r.id] == r.lastSeen)
  }

  ghost predicate Enabled(s: State, a: Action) {
    match a
    case Tick(now) => s.clock <= now
    case Store(_, _) => true
    case MarkOnline(_) => true
    case Announce(_) => true
    case List(rows) => s.phase.Idle? && IsListing(rows, s.lastSeen)
    case ListFails => s.phase.Idle?
    case ReadClock => s.phase.Listed?
    case Judge => s.phase.Judging? && s.phase.list != []
    case Sync => s.phase.Judging? && s.phase.list == []
    case Send => s.phase.Sending? && s.phase.found != []
    case Finish => s.phase.Sending? && s.phase.found == []
  }

  function HistoryOf(s: State, d: Id): seq<Mark> {
    if d in s.history then s.history[d] else []
  }

  /** Adds `ids` to the known set and records the ones that were not in it. */
  function Insert(s: State, ids: set<Id>): State {
    s.(known := s.known + ids,
       history := map d | d in s.history.Keys + ids ::
                    HistoryOf(s, d) + if d in ids && d !in s.known then [Inserted] else [])
  }

  function Remove(s: State, d: Id): State {
    if d in s.known then s.(known := s.known - {d}, history := s.history[d := HistoryOf(s, d) + [Removed]])
    else s
  }

  function Next(s: State, a: Action, threshold: int): State
    requires Enabled(s, a)
  {
    match a
    case Tick(now) => s.(clock := now)
    case Store(d, seenAt) => s.(lastSeen := s.lastSeen[d := seenAt])
    case MarkOnline(d) => Insert(s, {d})
    case Announce(d) => s.(events := s.events + [Update(d)])
    case List(rows) => s.(phase := Listed(rows))
    case ListFails => s
    case ReadClock => s.(phase := Judging(s.phase.list, s.clock, {}, []))
    case Judge =>
      var row, rest := s.phase.list[0], s.phase.list[1..];
      if IsOnline(s.phase.now, row.lastSeen, threshold)
      then s.(phase := s.phase.(list := rest, online := s.phase.online + {row.id}))
      else
        var was := row.id in s.known;
        Remove(s, row.id).(phase := s.phase.(list := rest, found := s.phase.found + if was then [row.id] else []))
    case Sync => Insert(s, s.phase.online).(phase := Sending(s.phase.found), scans := s.scans + 1)
    case Send => s.(phase := Sending(s.phase.found[1..]), events := s.events + [Offline(s.phase.found[0])])
    case Finish => s.(phase := Idle)
  }

  /** Executes the actions in order, skipping those that are not enabled. */
  ghost function Exec(s: State, acts: seq<Action>, threshold: int): State {
    if acts == [] then s
    else
      var mid := Exec(s, acts[..|acts| - 1], threshold);
      if Enabled(mid, acts[|acts| - 1]) then Next(mid, acts[|acts| - 1], threshold) else mid
  }

  lemma ExecGrows(s: State, acts: seq<Action>, a: Action, threshold: int)
    ensures var mid := Exec(s, acts, threshold);
            Exec(s, acts + [a], threshold) == if Enabled(mid, a) then Next(mid, a, threshold) else mid
  {
    assert (acts + [a])[..|acts|] == acts;
  }

  lemma {:induction false} ExecConcat(s: State, first: seq<Action>, second: seq<Action>, threshold: int)
    ensures Exec(s, first + second, threshold) == Exec(Exec(s, first, threshold), second, threshold)
  {
    hide Next, Enabled;
    if second == [] {
      assert first + second == first;
    } else {
      var n := |second| - 1;
      ExecConcat(s, first, second[..n], threshold);
      assert (first + second)[..|first| + n] == first + second[..n];
    }
  }

  // ---------- Offline events alternate with online marks ----------

  function Occurs<T(==)>(xs: seq<T>, x: T): nat {
    if xs == [] then 0 else Occurs(xs[..|xs| - 1], x) + if xs[|xs| - 1] == x then 1 else 0
  }

  lemma OccursGrows<T>(xs: seq<T>, y: T, x: T)
    ensures Occurs(xs + [y], x) == Occurs(xs, x) + if y == x then 1 else 0
  {
    assert (xs + [y])[..|xs|] == xs;
  }

  lemma {:induction false} OccursDrops<T>(xs: seq<T>, x: T)
    requires xs != []
    ensures Occurs(xs, x) == Occurs(xs[1..], x) + if xs[0] == x then 1 else 0
  {
    if |xs| > 1 {
      var n := |xs| - 1;
      OccursDrops(xs[..n], x);
      assert xs[..n][1..] == xs[1..][..n - 1];
    }
  }

  /** Offline events found but not broadcast yet. */
  function PendingOffline(s: State): seq<Id> {
    if s.phase.Judging? || s.phase.Sending? then s.phase.found else []
  }

  /** Offline events of `d`, broadcast or on their way. */
  function Offlines(s: State, d: Id): nat {
    Occurs(s.events, Offline(d)) + Occurs(PendingOffline(s), d)
  }

  /** Insertions and removals take turns, beginning with an insertion. */
  predicate Alternates(h: seq<Mark>) {
    forall i | 0 <= i < |h| :: h[i] == if i % 2 == 0 then Inserted else Removed
  }

  predicate DeviceOk(s: State, d: Id) {
    var h := HistoryOf(s, d);
    && Alternates(h)
    && (d in s.known <==> |h| % 2 == 1)
    && Offlines(s, d) == |h| / 2
  }

  lemma InsertKeepsDevice(s: State, ids: set<Id>, d: Id)
    requires DeviceOk(s, d)
    ensures DeviceOk(Insert(s, ids), d)
  {}

  lemma RemovedTurn(h: seq<Mark>)
    requires Alternates(h) && |h| % 2 == 1
    ensures Alternates(h + [Removed]) && |h + [Removed]| % 2 == 0 && |h + [Removed]| / 2 == |h| / 2 + 1
  {}

  lemma RemovedHistory(s: State, e: Id, d: Id)
    ensures HistoryOf(Remove(s, e), d) == HistoryOf(s, d) + if d == e && d in s.known then [Removed] else []
    ensures Remove(s, e).known == s.known - {e}
  {
    assert HistoryOf(s, d) + [] == HistoryOf(s, d);
    assert e !in s.known ==> s.known - {e} == s.known;
  }

  /** Judging a stale device removes it and notes the offline event, if it was known. */
  lemma JudgeEffect(s: State, threshold: int, d: Id)
    requires Enabled(s, Judge)
    ensures var t, row := Next(s, Judge, threshold), s.phase.list[0];
            var gone := row.id == d && d in s.known && !IsOnline(s.phase.now, row.lastSeen, threshold);
            && HistoryOf(t, d) == HistoryOf(s, d) + (if gone then [Removed] else [])
            && (d in t.known <==> d in s.known && !gone)
            && Offlines(t, d) == Offlines(s, d) + if gone then 1 else 0
    ensures var t, row := Next(s, Judge, threshold), s.phase.list[0];
            t.phase.Judging? && t.phase.list == s.phase.list[1..] && t.phase.now == s.phase.now
            && t.phase.online ==
               s.phase.online + (if IsOnline(s.phase.now, row.lastSeen, threshold) then {row.id} else {})
            && t.lastSeen == s.lastSeen && t.clock == s.clock && t.scans == s.scans
  {
    hide IsOnline;
    var row := s.phase.list[0];
    RemovedHistory(s, row.id, d);
    OccursGrows(s.phase.found, row.id, d);
    assert s.phase.found + [] == s.phase.found && HistoryOf(s, d) + [] == HistoryOf(s, d);
    var t := Next(s, Judge, threshold);
    hide Occurs;
    assert t.events == s.events;
    if IsOnline(s.phase.now, row.lastSeen, threshold) {
      assert PendingOffline(t) == s.phase.found && HistoryOf(t, d) == HistoryOf(s, d);
    } else {
      assert HistoryOf(t, d) == HistoryOf(Remove(s, row.id), d);
      assert PendingOffline(t) == s.phase.found + if row.id in s.known then [row.id] else [];
    }
  }

  lemma JudgeKeepsDevice(s: State, threshold: int, d: Id)
    requires DeviceOk(s, d) && Enabled(s, Judge)
    ensures DeviceOk(Next(s, Judge, threshold), d)
  {
    JudgeEffect(s, threshold, d);
    if d in s.known { RemovedTurn(HistoryOf(s, d)); }
    hide Next, Alternates, HistoryOf, Offlines, IsOnline;
    assert HistoryOf(s, d) + [] == HistoryOf(s, d);
  }

  lemma SendKeepsDevice(s: State, threshold: int, d: Id)
    requires DeviceOk(s, d) && Enabled(s, Send)
    ensures DeviceOk(Next(s, Send, threshold), d)
  {
    OccursGrows(s.events, Offline(s.phase.found[0]), Offline(d));
    OccursDrops(s.phase.found, d);
    hide Occurs, Insert, Remove, IsOnline, Alternates;
  }

  lemma StepKeepsDevice(s: State, a: Action, threshold: int, d: Id)
    requires DeviceOk(s, d) && Enabled(s, a)
    ensures DeviceOk(Next(s, a, threshold), d)
  {
    match a {
      case MarkOnline(e) => InsertKeepsDevice(s, {e}, d);
      case Sync => InsertKeepsDevice(s, s.phase.online, d);
      case Announce(e) => OccursGrows(s.events, Update(e), Offline(d));
      case Send => SendKeepsDevice(s, threshold, d);
      case Judge => JudgeKeepsDevice(s, threshold, d);
      case _ =>
    }
    hide Occurs, Insert, Remove, IsOnline, Alternates;
  }

  lemma {:induction false} RunKeepsDevice(s: State, acts: seq<Action>, threshold: int, d: Id)
    requires DeviceOk(s, d)
    ensures DeviceOk(Exec(s, acts, threshold), d)
  {
    hide DeviceOk, Next, Enabled;
    if acts != [] {
      var n := |acts| - 1;
      RunKeepsDevice(s, acts[..n], threshold, d);
      var mid := Exec(s, acts[..n], threshold);
      if Enabled(mid, acts[n]) { StepKeepsDevice(mid, acts[n], threshold, d); }
    }
  }

  lemma {:induction false} CountTurns(h: seq<Mark>)
    requires Alternates(h)
    ensures Occurs(h, Inserted) == (|h| + 1) / 2 && Occurs(h, Removed) == |h| / 2
  {
    if h != [] { CountTurns(h[..|h| - 1]); }
  }

  /** In every interleaving, for every device: insertions into `known` and
      removals from it take turns, and insertions = offline events broadcast +
      offline events pending + 1 if the device is currently known. So two
      offline events of a device always have a report or an online scan between
      them. */
  lemma OfflineAlternates(clock: int, acts: seq<Action>, threshold: int, d: Id)
    ensures var s := Exec(Init(clock), acts, threshold);
            Alternates(HistoryOf(s, d))
            && Occurs(HistoryOf(s, d), Removed) == Offlines(s, d)
            && Occurs(HistoryOf(s, d), Inserted) ==
               Occurs(s.events, Offline(d)) + Occurs(PendingOffline(s), d) + if d in s.known then 1 else 0
  {
    var s := Exec(Init(clock), acts, threshold);
    RunKeepsDevice(Init(clock), acts, threshold, d);
    CountTurns(HistoryOf(s, d));
  }

  lemma SubMonotone(t: int, u: int, last: int)
    requires t <= u
    ensures Sub(t, last) <= Sub(u, last)
  {}

  // ---------- A scan nobody interrupts ----------

  function OnlineIds(rows: seq<Seen>, now: int, threshold: int): set<Id> {
    set r | r in rows && IsOnline(now, r.lastSeen, threshold) :: r.id
  }

  function StaleIds(rows: seq<Seen>, now: int, threshold: int): set<Id> {
    set r | r in rows && !IsOnline(now, r.lastSeen, threshold) :: r.id
  }

  /** The listed devices found to have gone offline, in list order. */
  function GoneOffline(rows: seq<Seen>, known: set<Id>, now: int, threshold: int): seq<Id> {
    if rows == [] then []
    else
      var front, row := rows[..|rows| - 1], rows[|rows| - 1];
      GoneOffline(front, known, now, threshold)
      + if !IsOnline(now, row.lastSeen, threshold) && row.id in known && row.id !in StaleIds(front, now, threshold)
        then [row.id] else []
  }

  function KnownAfter(rows: seq<Seen>, known: set<Id>, now: int, threshold: int): set<Id> {
    known - StaleIds(rows, now, threshold) + OnlineIds(rows, now, threshold)
  }

  /** A scan that nobody interrupts leaves `known`, on the listed devices, equal
      to the devices online at scan time, and reports offline exactly the listed
      devices that were known and are not online, each once, in order. */
  lemma ScanSettles(rows: seq<Seen>, lastSeen: map<Id, int>, known: set<Id>, now: int, threshold: int, d: Id)
    requires IsListing(rows, lastSeen)
    ensures d in lastSeen ==> (d in KnownAfter(rows, known, now, threshold) <==> IsOnline(now, lastSeen[d], threshold))
    ensures d !in lastSeen ==> (d in KnownAfter(rows, known, now, threshold) <==> d in known)
    ensures Occurs(GoneOffline(rows, known, now, threshold), d) ==
            if d in lastSeen && d in known && !IsOnline(now, lastSeen[d], threshold) then 1 else 0
    ensures IsInt64(threshold) && threshold < MAX_INT64 && d in lastSeen ==>
              (d in KnownAfter(rows, known, now, threshold) <==> now - lastSeen[d] <= threshold)
              && Occurs(GoneOffline(rows, known, now, threshold), d) ==
                 if d in known && now - lastSeen[d] > threshold then 1 else 0
  {
    GoneOnce(rows, known, now, threshold, d);
    if d in lastSeen {
      assert Seen(d, lastSeen[d]) in rows;
      if d in StaleIds(rows, now, threshold) {
        var r :| r in rows && !IsOnline(now, r.lastSeen, threshold) && r.id == d;
        assert r.lastSeen == lastSeen[d];
      }
      if d in OnlineIds(rows, now, threshold) {
        var r :| r in rows && IsOnline(now, r.lastSeen, threshold) && r.id == d;
        assert r.lastSeen == lastSeen[d];
      }
    }
  }

  lemma {:induction false} GoneOnce(rows: seq<Seen>, known: set<Id>, now: int, threshold: int, d: Id)
    ensures Occurs(GoneOffline(rows, known, now, threshold), d) ==
            if d in known && d in StaleIds(rows, now, threshold) then 1 else 0
  {
    if rows != [] {
      var front, row := rows[..|rows| - 1], rows[|rows| - 1];
      GoneOnce(front, known, now, threshold, d);
      StaleGrows(front, row, now, threshold);
      assert rows == front + [row];
      OccursGrows(GoneOffline(front, known, now, threshold), row.id, d);
      assert GoneOffline(front, known, now, threshold) + [] == GoneOffline(front, known, now, threshold);
    }
  }

  lemma StaleGrows(front: seq<Seen>, row: Seen, now: int, threshold: int)
    ensures StaleIds(front + [row], now, threshold) ==
            StaleIds(front, now, threshold) + if IsOnline(now, row.lastSeen, threshold) then {} else {row.id}
    ensures OnlineIds(front + [row], now, threshold) ==
            OnlineIds(front, now, threshold) + if IsOnline(now, row.lastSeen, threshold) then {row.id} else {}
  {}

  /** Executing the first action of a run. */
  lemma First(s: State, a: Action, rest: seq<Action>, threshold: int) returns (t: State)
    requires Enabled(s, a)
    ensures t == Next(s, a, threshold) && Exec(s, [a] + rest, threshold) == Exec(t, rest, threshold)
  {
    t := Next(s, a, threshold);
    ExecGrows(s, [], a, threshold);
    assert [] + [a] == [a];
    ExecConcat(s, [a], rest, threshold);
  }

  lemma Nothing(s: State, threshold: int)
    ensures Exec(s, [], threshold) == s
  {}
}
