// A device that went silent (server/internal/state/state.go): it is reported offline
// once, by the first scan that completes, and never again.
module TrackerSilence {
  import opened Clock
  import opened TrackerProtocol

  predicate Touches(a: Action, d: Id) {
    (a.Store? || a.MarkOnline?) && a.id == d
  }

  ghost predicate Silent(acts: seq<Action>, d: Id) {
    forall a | a in acts :: !Touches(a, d)
  }

  ghost predicate ListsSilent(list: seq<Seen>, d: Id, last: int) {
    forall i | 0 <= i < |list| :: list[i].id == d ==> list[i].lastSeen == last
  }

  ghost predicate ListsDevice(list: seq<Seen>, d: Id, last: int) {
    exists i | 0 <= i < |list| :: list[i] == Seen(d, last)
  }

  /** The scan in progress will judge `d` stale, or already did. */
  ghost predicate ScanSilent(s: State, start: int, last: int, d: Id) {
    match s.phase
    case Listed(list) => ListsSilent(list, d, last) && ListsDevice(list, d, last)
    case Judging(list, now, online, _) =>
      start <= now && d !in online && ListsSilent(list, d, last)
      && (ListsDevice(list, d, last) || d !in s.known)
    case _ => true
  }

  /** What stays true after `s0` while `d` is silent and past the threshold. */
  ghost predicate SilentInv(s0: State, s: State, d: Id) {
    && d in s0.lastSeen && d in s.lastSeen && s.lastSeen[d] == s0.lastSeen[d]
    && s0.clock <= s.clock && s0.scans <= s.scans
    && (d in s.known ==> d in s0.known)
    && Offlines(s, d) == Offlines(s0, d) + (if d in s0.known && d !in s.known then 1 else 0)
    && (s0.scans < s.scans ==> d !in s.known)
    && ScanSilent(s, s0.clock, s0.lastSeen[d], d)
  }

  lemma ListingIsSilent(rows: seq<Seen>, lastSeen: map<Id, int>, d: Id)
    requires IsListing(rows, lastSeen) && d in lastSeen
    ensures ListsSilent(rows, d, lastSeen[d]) && ListsDevice(rows, d, lastSeen[d])
  {
    forall i | 0 <= i < |rows| && rows[i].id == d ensures rows[i].lastSeen == lastSeen[d] {
      assert rows[i] in rows;
    }
    assert Seen(d, lastSeen[d]) in rows;
  }

  lemma SilentStep(s0: State, s: State, a: Action, threshold: int, d: Id)
    requires SilentInv(s0, s, d) && Enabled(s, a) && !Touches(a, d)
    requires !IsOnline(s0.clock, s0.lastSeen[d], threshold)
    ensures SilentInv(s0, Next(s, a, threshold), d)
  {
    hide SilentInv, Next, IsOnline, IsListing;
    match a {
      case List(_) => SilentList(s0, s, a, threshold, d);
      case Judge => SilentJudge(s0, s, threshold, d);
      case Sync => SilentSync(s0, s, threshold, d);
      case Send => SilentSend(s0, s, threshold, d);
      case Announce(_) => SilentAnnounce(s0, s, a, threshold, d);
      case MarkOnline(_) => SilentMark(s0, s, a, threshold, d);
      case _ => SilentNeutral(s0, s, a, threshold, d);
    }
  }

  lemma SilentNeutral(s0: State, s: State, a: Action, threshold: int, d: Id)
    requires SilentInv(s0, s, d) && Enabled(s, a) && !Touches(a, d)
    requires a.Tick? || a.Store? || a.ListFails? || a.ReadClock? || a.Finish?
    ensures SilentInv(s0, Next(s, a, threshold), d)
  {
    hide Occurs, ListsSilent, ListsDevice;
  }

  lemma SilentMark(s0: State, s: State, a: Action, threshold: int, d: Id)
    requires SilentInv(s0, s, d) && a.MarkOnline? && !Touches(a, d)
    ensures SilentInv(s0, Next(s, a, threshold), d)
  {
    hide Occurs, ListsSilent, ListsDevice, HistoryOf;
  }

  lemma SilentAnnounce(s0: State, s: State, a: Action, threshold: int, d: Id)
    requires SilentInv(s0, s, d) && a.Announce?
    ensures SilentInv(s0, Next(s, a, threshold), d)
  {
    OccursGrows(s.events, Update(a.id), Offline(d));
    hide Occurs, ListsSilent, ListsDevice;
  }

  lemma SilentList(s0: State, s: State, a: Action, threshold: int, d: Id)
    requires SilentInv(s0, s, d) && a.List? && Enabled(s, a)
    ensures SilentInv(s0, Next(s, a, threshold), d)
  {
    ListingIsSilent(a.rows, s.lastSeen, d);
    hide Occurs, ListsSilent, ListsDevice, IsListing;
  }

  lemma SilentSync(s0: State, s: State, threshold: int, d: Id)
    requires SilentInv(s0, s, d) && Enabled(s, Sync)
    ensures SilentInv(s0, Next(s, Sync, threshold), d)
  {
    hide Occurs, HistoryOf;
  }

  lemma SilentSend(s0: State, s: State, threshold: int, d: Id)
    requires SilentInv(s0, s, d) && Enabled(s, Send)
    ensures SilentInv(s0, Next(s, Send, threshold), d)
  {
    OccursGrows(s.events, Offline(s.phase.found[0]), Offline(d));
    OccursDrops(s.phase.found, d);
    hide Occurs;
  }

  lemma SilentJudge(s0: State, s: State, threshold: int, d: Id)
    requires SilentInv(s0, s, d) && Enabled(s, Judge)
    requires !IsOnline(s0.clock, s0.lastSeen[d], threshold)
    ensures SilentInv(s0, Next(s, Judge, threshold), d)
  {
    SubMonotone(s0.clock, s.phase.now, s0.lastSeen[d]);
    assert !IsOnline(s.phase.now, s0.lastSeen[d], threshold);
    hide IsOnline, Next, Offlines, HistoryOf, ListsSilent, ListsDevice;
    JudgeEffect(s, threshold, d);
    var t := Next(s, Judge, threshold);
    assert ScanSilent(t, s0.clock, s0.lastSeen[d], d);
  }

  lemma {:induction false} SilentRun(s0: State, acts: seq<Action>, threshold: int, d: Id)
    requires s0.phase.Idle? && d in s0.lastSeen && Silent(acts, d)
    requires !IsOnline(s0.clock, s0.lastSeen[d], threshold)
    ensures SilentInv(s0, Exec(s0, acts, threshold), d)
  {
    if acts != [] {
      var n := |acts| - 1;
      assert forall a | a in acts[..n] :: a in acts;
      SilentRun(s0, acts[..n], threshold, d);
      var mid := Exec(s0, acts[..n], threshold);
      assert acts[n] in acts;
      if Enabled(mid, acts[n]) { SilentStep(s0, mid, acts[n], threshold, d); }
    }
  }

  /** Convergence: once a device stops reporting, with no report or scan in
      flight and the clock past its deadline, then in every continuation it is
      never marked again; as soon as one scan has completed it is not known and
      exactly one offline event was produced if it was known before and none if
      it was not; and no later scan produces another. */
  lemma SilentDeviceConverges(s0: State, acts: seq<Action>, more: seq<Action>, threshold: int, d: Id)
    requires s0.phase.Idle? && d in s0.lastSeen && Silent(acts, d) && Silent(more, d)
    requires !IsOnline(s0.clock, s0.lastSeen[d], threshold)
    ensures var s := Exec(s0, acts, threshold);
            (d in s.known ==> d in s0.known)
            && (s.scans > s0.scans ==>
                  d !in s.known && Offlines(s, d) == Offlines(s0, d) + if d in s0.known then 1 else 0)
    ensures var s, t := Exec(s0, acts, threshold), Exec(s0, acts + more, threshold);
            s.scans > s0.scans ==> Offlines(t, d) == Offlines(s, d) && d !in t.known
  {
    assert Silent(acts + more, d);
    SilentRun(s0, acts, threshold, d);
    SilentRun(s0, acts + more, threshold, d);
    ExecConcat(s0, acts, more, threshold);
    ScansGrow(Exec(s0, acts, threshold), more, threshold);
  }

  lemma {:induction false} ScansGrow(s: State, acts: seq<Action>, threshold: int)
    ensures Exec(s, acts, threshold).scans >= s.scans
  {
    if acts != [] { ScansGrow(s, acts[..|acts| - 1], threshold); }
  }
}
