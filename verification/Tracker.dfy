// server/internal/state/state.go: the tracker itself, and the link between an
// uninterrupted scan and the transition system.
module Tracker {
  import opened Wrappers
  import opened Clock
  import opened TrackerProtocol
  import HubProtocol
  import Hub

  /** The offline events of a list of devices, in order. */
  function OfflineEvents(ids: seq<Id>): (es: seq<Event>)
    ensures |es| == |ids|
  {
    seq(|ids|, i requires 0 <= i < |ids| => Offline(ids[i]))
  }

  lemma OfflineEventsGrow(ids: seq<Id>, n: nat)
    requires n < |ids|
    ensures OfflineEvents(ids[..n + 1]) == OfflineEvents(ids[..n]) + [Offline(ids[n])]
  {}

  lemma ScanGrows(rows: seq<Seen>, known: set<Id>, now: int, threshold: int, n: nat)
    requires n < |rows|
    ensures var row := rows[n];
            var left := known - StaleIds(rows[..n], now, threshold);
            if IsOnline(now, row.lastSeen, threshold) then
              OnlineIds(rows[..n + 1], now, threshold) == OnlineIds(rows[..n], now, threshold) + {row.id}
              && known - StaleIds(rows[..n + 1], now, threshold) == left
              && GoneOffline(rows[..n + 1], known, now, threshold) == GoneOffline(rows[..n], known, now, threshold)
            else
              OnlineIds(rows[..n + 1], now, threshold) == OnlineIds(rows[..n], now, threshold)
              && known - StaleIds(rows[..n + 1], now, threshold) == left - {row.id}
              && GoneOffline(rows[..n + 1], known, now, threshold) ==
                 GoneOffline(rows[..n], known, now, threshold) + if row.id in left then [row.id] else []
  {
    assert rows[..n + 1] == rows[..n] + [rows[n]];
    assert rows[..n + 1][..n] == rows[..n];
    StaleGrows(rows[..n], rows[n], now, threshold);
    hide StaleIds, OnlineIds, IsOnline;
    assert GoneOffline(rows[..n], known, now, threshold) + [] == GoneOffline(rows[..n], known, now, threshold);
  }

  lemma {:induction false} OfflineOccurs(ids: seq<Id>, d: Id)
    ensures Occurs(OfflineEvents(ids), Offline(d)) == Occurs(ids, d)
  {
    if ids != [] {
      var n := |ids| - 1;
      OfflineOccurs(ids[..n], d);
      OfflineEventsGrow(ids, n);
      assert ids[..n + 1] == ids;
      OccursGrows(OfflineEvents(ids[..n]), Offline(ids[n]), Offline(d));
    }
  }

  /** A scan of distinct rows, device by device and in terms of the times alone. */
  lemma ScanTells(rows: seq<Seen>, known: set<Id>, now: int, threshold: int, r: Seen)
    requires IsInt64(threshold) && threshold < MAX_INT64 && r in rows
    requires forall i, j | 0 <= i < j < |rows| :: rows[i].id != rows[j].id
    ensures r.id in KnownAfter(rows, known, now, threshold) <==> now - r.lastSeen <= threshold
    ensures Occurs(OfflineEvents(GoneOffline(rows, known, now, threshold)), Offline(r.id)) ==
            if r.id in known && now - r.lastSeen > threshold then 1 else 0
  {
    forall q | q in rows && q.id == r.id ensures q == r {}
    OfflineOccurs(GoneOffline(rows, known, now, threshold), r.id);
    GoneOnce(rows, known, now, threshold, r.id);
  }

  lemma ScanSilentOn(rows: seq<Seen>, known: set<Id>, now: int, threshold: int, d: Id)
    requires forall r | r in rows :: r.id != d
    ensures d in KnownAfter(rows, known, now, threshold) <==> d in known
    ensures Occurs(OfflineEvents(GoneOffline(rows, known, now, threshold)), Offline(d)) == 0
  {
    OfflineOccurs(GoneOffline(rows, known, now, threshold), d);
    GoneOnce(rows, known, now, threshold, d);
  }

  /** What one scan of distinct rows tells: which devices are known afterwards, and
      which are reported offline in `news`. */
  ghost predicate ScanNews(rows: seq<Seen>, was: set<Id>, now: int, threshold: int, known: set<Id>, news: seq<Event>) {
    && (forall r | r in rows :: r.id in known <==> now - r.lastSeen <= threshold)
    && (forall r | r in rows ::
          Occurs(news, Offline(r.id)) == if r.id in was && now - r.lastSeen > threshold then 1 else 0)
    && (forall d | !(exists r :: r in rows && r.id == d) :: (d in known <==> d in was) && Occurs(news, Offline(d)) == 0)
    && (forall e | e in news :: e.Offline?)
  }

  lemma ScanIsNews(rows: seq<Seen>, known: set<Id>, now: int, threshold: int)
    requires IsInt64(threshold) && threshold < MAX_INT64
    requires forall i, j | 0 <= i < j < |rows| :: rows[i].id != rows[j].id
    ensures ScanNews(rows, known, now, threshold, KnownAfter(rows, known, now, threshold),
                     OfflineEvents(GoneOffline(rows, known, now, threshold)))
  {
    hide KnownAfter, GoneOffline, Occurs, IsOnline;
    forall r | r in rows ensures Occurs(OfflineEvents(GoneOffline(rows, known, now, threshold)), Offline(r.id)) ==
        if r.id in known && now - r.lastSeen > threshold then 1 else 0
      ensures r.id in KnownAfter(rows, known, now, threshold) <==> now - r.lastSeen <= threshold
    {
      ScanTells(rows, known, now, threshold, r);
    }
    forall d | !(exists r :: r in rows && r.id == d)
      ensures (d in KnownAfter(rows, known, now, threshold) <==> d in known)
              && Occurs(OfflineEvents(GoneOffline(rows, known, now, threshold)), Offline(d)) == 0
    {
      ScanSilentOn(rows, known, now, threshold, d);
    }
  }

  class Tracker {
    var known: set<Id>
    const hub: Hub.Hub<Event>
    const threshold: int

    constructor (hub: Hub.Hub<Event>, threshold: int)
      ensures known == {} && this.hub == hub && this.threshold == threshold
    {
      this.known := {};
      this.hub := hub;
      this.threshold := threshold;
    }

    method MarkOnline(id: Id)
      modifies this
      ensures known == old(known) + {id}
    {
      known := known + {id};
    }

    /** One scan. `states` is what the store listed, or nothing if it failed. */
    method ScanOnce(states: Option<seq<Seen>>, now: int, waiting: set<HubProtocol.ChanId>)
      requires hub.Valid()
      modifies this, hub
      ensures hub.Valid() && hub.start == old(hub.start)
      ensures states.None? ==> known == old(known) && hub.log == old(hub.log)
      ensures states.Some? ==>
                known == KnownAfter(states.value, old(known), now, threshold)
                && hub.log == old(hub.log) + OfflineEvents(GoneOffline(states.value, old(known), now, threshold))
      ensures states.Some? && IsInt64(threshold) && threshold < MAX_INT64
              && (forall i, j | 0 <= i < j < |states.value| :: states.value[i].id != states.value[j].id) ==>
                old(hub.log) <= hub.log
                && ScanNews(states.value, old(known), now, threshold, known, hub.log[|old(hub.log)|..])
    {
      if states.None? {
        return;
      }
      var rows := states.value;
      var online: set<Id> := {};
      var transitions: seq<Id> := [];
      hide IsOnline;
      assert online == OnlineIds(rows[..0], now, threshold);
      assert known - StaleIds(rows[..0], now, threshold) == known;
      for i := 0 to |rows|
        invariant online == OnlineIds(rows[..i], now, threshold)
        invariant known == old(known) - StaleIds(rows[..i], now, threshold)
        invariant transitions == GoneOffline(rows[..i], old(known), now, threshold)
        invariant hub.Valid() && hub.log == old(hub.log) && hub.start == old(hub.start)
      {
        ScanGrows(rows, old(known), now, threshold, i);
        hide StaleIds, OnlineIds, GoneOffline;
        if IsOnline(now, rows[i].lastSeen, threshold) {
          online := online + {rows[i].id};
        } else {
          var was := rows[i].id in known;
          known := known - {rows[i].id};
          if was {
            transitions := transitions + [rows[i].id];
          }
        }
      }
      assert rows[..|rows|] == rows;
      hide StaleIds, OnlineIds, GoneOffline;
      known := known + online;

      assert transitions[..0] == [];
      for i := 0 to |transitions|
        invariant hub.Valid() && hub.start == old(hub.start)
        invariant hub.log == old(hub.log) + OfflineEvents(transitions[..i])
        invariant known == KnownAfter(rows, old(known), now, threshold)
      {
        OfflineEventsGrow(transitions, i);
        hub.Broadcast(Offline(transitions[i]), waiting);
      }
      assert transitions[..|transitions|] == transitions;
      assert hub.log[|old(hub.log)|..] == OfflineEvents(transitions);
      hide KnownAfter, ScanNews, OfflineEvents;
      if IsInt64(threshold) && threshold < MAX_INT64
         && forall i, j | 0 <= i < j < |rows| :: rows[i].id != rows[j].id {
        ScanIsNews(rows, old(known), now, threshold);
      }
    }
  }

  // ---------- The method is a run of the transition system ----------

  predicate IsScanStep(a: Action) {
    a.List? || a.ReadClock? || a.Judge? || a.Sync? || a.Send? || a.Finish?
  }

  lemma {:induction false} JudgeRun(s: State, rows: seq<Seen>, n: nat, threshold: int) returns (acts: seq<Action>)
    requires s.phase == Judging(rows, s.clock, {}, []) && n <= |rows|
    ensures forall a | a in acts :: IsScanStep(a)
    ensures var t := Exec(s, acts, threshold);
            t.phase == Judging(rows[n..], s.clock, OnlineIds(rows[..n], s.clock, threshold),
                               GoneOffline(rows[..n], s.known, s.clock, threshold))
            && t.known == s.known - StaleIds(rows[..n], s.clock, threshold)
            && t.events == s.events && t.clock == s.clock && t.lastSeen == s.lastSeen
  {
    hide IsOnline, HistoryOf;
    if n == 0 {
      acts := [];
    } else {
      acts := JudgeRun(s, rows, n - 1, threshold);
      var mid := Exec(s, acts, threshold);
      assert rows[n - 1..] == [rows[n - 1]] + rows[n..];
      ScanGrows(rows, s.known, s.clock, threshold, n - 1);
      ExecGrows(s, acts, Judge, threshold);
      hide OnlineIds, StaleIds, GoneOffline, Exec;
      acts := acts + [Judge];
    }
  }

  lemma {:induction false} SendRun(s: State, threshold: int) returns (acts: seq<Action>)
    requires s.phase.Sending?
    ensures forall a | a in acts :: IsScanStep(a)
    ensures Exec(s, acts, threshold) == s.(phase := Idle, events := s.events + OfflineEvents(s.phase.found))
    decreases |s.phase.found|
  {
    if s.phase.found == [] {
      acts := [Finish];
      assert s.events + OfflineEvents([]) == s.events;
      var t := First(s, Finish, [], threshold);
      assert [Finish] + [] == [Finish];
    } else {
      var t := Next(s, Send, threshold);
      var rest := SendRun(t, threshold);
      acts := [Send] + rest;
      var u := First(s, Send, rest, threshold);
      hide Exec;
      assert OfflineEvents(s.phase.found) == [Offline(s.phase.found[0])] + OfflineEvents(s.phase.found[1..]);
    }
  }

  /** An uninterrupted scan of the transition system does what `ScanOnce` does. */
  lemma ScanIsRun(s: State, rows: seq<Seen>, threshold: int) returns (acts: seq<Action>)
    requires s.phase.Idle? && IsListing(rows, s.lastSeen)
    ensures forall a | a in acts :: IsScanStep(a)
    ensures var t := Exec(s, acts, threshold);
            t.phase.Idle? && t.lastSeen == s.lastSeen
            && t.known == KnownAfter(rows, s.known, s.clock, threshold)
            && t.events == s.events + OfflineEvents(GoneOffline(rows, s.known, s.clock, threshold))
  {
    hide IsOnline, HistoryOf, Exec, StaleIds, OnlineIds, GoneOffline;
    var s1 := Next(s, List(rows), threshold);
    var s2 := Next(s1, ReadClock, threshold);
    var judging := JudgeRun(s2, rows, |rows|, threshold);
    assert rows[..|rows|] == rows;
    var s3 := Exec(s2, judging, threshold);
    var s4 := Next(s3, Sync, threshold);
    var sending := SendRun(s4, threshold);
    var tail := [Sync] + sending;
    var rest := judging + tail;
    acts := [List(rows)] + ([ReadClock] + rest);
    var a := First(s, List(rows), [ReadClock] + rest, threshold);
    var b := First(s1, ReadClock, rest, threshold);
    ExecConcat(s2, judging, tail, threshold);
    var c := First(s3, Sync, sending, threshold);
  }
}
