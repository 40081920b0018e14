// What client-windows/internal/setup/catalog.go must agree with: the history of
// observations, and nothing else.
module CatalogSpec {
  import opened Ranking
  import opened Recency
  import opened Wrappers
  import Text

  /** One foreground reading. */
  datatype Obs = Obs(process: string, title: string, time: int)

  function Key(o: Obs): string { Text.Normalize(o.process) }

  datatype Sample = Sample(title: string, firstSeen: int, lastSeen: int, count: nat)
  datatype Entry = Entry(process: string, firstSeen: int, lastSeen: int, count: nat,
                         samples: seq<Sample>, configurable: bool)
  type Table = map<string, Entry>

  /** What the page is shown: the apps and the counters. */
  datatype Snapshot = Snapshot(apps: seq<Entry>, locked: bool, lockedSeen: nat, observations: nat)

  /** Names with characters that no Windows file name has cannot be configured. */
  predicate IsConfigurable(process: string) {
    forall c | c in process :: c !in "?*<>|\"/\\"
  }

  lemma ConfigurableIff(process: string)
    ensures IsConfigurable(process) <==>
            '?' !in process && '*' !in process && '<' !in process && '>' !in process && '|' !in process
            && '"' !in process && '/' !in process && '\\' !in process
  {}

  // ---------- The specification ----------

  /** The distinct processes seen, most recently seen first. */
  function Processes(hist: seq<Obs>): seq<string> {
    if hist == [] then []
    else
      var before, o := Processes(hist[..|hist| - 1]), hist[|hist| - 1];
      if Key(o) == "" then before else MoveToFront(before, Key(o))
  }

  /** The processes the catalog keeps: the most recent ones. */
  function Kept(hist: seq<Obs>, maxApps: nat): seq<string> { Take(maxApps, Processes(hist)) }

  /** The distinct non-empty titles of a process since it was last taken in,
      newest first. */
  function TitlesSince(hist: seq<Obs>, key: string, maxApps: nat): seq<string> {
    if hist == [] then []
    else
      var before, o := hist[..|hist| - 1], hist[|hist| - 1];
      if Key(o) != key then TitlesSince(before, key, maxApps)
      else
        var had := if key in Kept(before, maxApps) then TitlesSince(before, key, maxApps) else [];
        if o.title == "" then had else MoveToFront(had, o.title)
  }

  /** How often, and since when, a process was seen since it was last taken in. */
  function CountSince(hist: seq<Obs>, key: string, maxApps: nat): nat {
    if hist == [] then 0
    else
      var before := hist[..|hist| - 1];
      if Key(hist[|hist| - 1]) != key then CountSince(before, key, maxApps)
      else 1 + if key in Kept(before, maxApps) then CountSince(before, key, maxApps) else 0
  }

  function FirstSince(hist: seq<Obs>, key: string, maxApps: nat): int {
    if hist == [] then 0
    else
      var before, o := hist[..|hist| - 1], hist[|hist| - 1];
      if Key(o) != key || key in Kept(before, maxApps) then FirstSince(before, key, maxApps) else o.time
  }

  function LastTime(hist: seq<Obs>, key: string): int {
    if hist == [] then 0
    else if Key(hist[|hist| - 1]) == key then hist[|hist| - 1].time
    else LastTime(hist[..|hist| - 1], key)
  }

  function LockedCount(hist: seq<Obs>): nat {
    if hist == [] then 0
    else LockedCount(hist[..|hist| - 1]) + if Key(hist[|hist| - 1]) == "" then 1 else 0
  }

  /** The clock moved forward between observations. */
  ghost predicate Increasing(hist: seq<Obs>) {
    forall i, j | 0 <= i < j < |hist| :: hist[i].time < hist[j].time
  }

  ghost predicate EntryAgrees(e: Entry, hist: seq<Obs>, key: string, maxSamples: nat, maxApps: nat) {
    && e.process == key && e.configurable == IsConfigurable(key)
    && e.lastSeen == LastTime(hist, key)
    && e.firstSeen == FirstSince(hist, key, maxApps)
    && e.count == CountSince(hist, key, maxApps)
    && Titles(e.samples) == Take(maxSamples, TitlesSince(hist, key, maxApps))
  }

  ghost predicate Agrees(t: Table, hist: seq<Obs>, maxSamples: nat, maxApps: nat) {
    && (forall k :: k in t <==> k in Kept(hist, maxApps))
    && (forall k | k in t :: EntryAgrees(t[k], hist, k, maxSamples, maxApps))
  }

  // ---------- One observation on values ----------

  function Titles(samples: seq<Sample>): (ts: seq<string>)
    ensures |ts| == |samples|
  {
    seq(|samples|, i requires 0 <= i < |samples| => samples[i].title)
  }

  /** The position of the first sample with a title, or the number of samples. */
  function Find(samples: seq<Sample>, title: string): (i: nat)
    ensures i <= |samples|
    ensures i < |samples| ==> samples[i].title == title
    ensures forall j | 0 <= j < i :: samples[j].title != title
  {
    if samples == [] then 0
    else if samples[0].title == title then 0
    else
      var i := Find(samples[1..], title);
      assert forall j | 1 <= j <= i :: samples[j] == samples[1..][j - 1];
      1 + i
  }

  function Sampled(samples: seq<Sample>, title: string, now: int, max: nat): seq<Sample> {
    var i := Find(samples, title);
    if i < |samples|
    then [samples[i].(lastSeen := now, count := samples[i].count + 1)] + (samples[..i] + samples[i + 1..])
    else Take(max, [Sample(title, now, now, 1)] + samples)
  }

  function FreshEntry(key: string, now: int): Entry {
    Entry(key, now, 0, 0, [], IsConfigurable(key))
  }

  function TouchedEntry(e: Entry, title: string, now: int, maxSamples: nat): Entry {
    e.(lastSeen := now, count := e.count + 1,
       samples := if title == "" then e.samples else Sampled(e.samples, title, now, maxSamples))
  }

  function Touched(t: Table, key: string, title: string, now: int, maxSamples: nat): Table {
    t[key := TouchedEntry(if key in t then t[key] else FreshEntry(key, now), title, now, maxSamples)]
  }

  /** `kept` is `t` without as many of its least recently seen apps as it has too many. */
  ghost predicate Evicts(t: Table, kept: Table, maxApps: nat) {
    && kept.Keys <= t.Keys && (forall k | k in kept :: kept[k] == t[k])
    && |kept.Keys| == (if |t.Keys| <= maxApps then |t.Keys| else maxApps)
    && (forall e, k | e in t && e !in kept && k in kept :: t[e].lastSeen <= t[k].lastSeen)
  }

  // ---------- Agreement ----------

  lemma HistoryGrows(hist: seq<Obs>, o: Obs)
    ensures (hist + [o])[..|hist|] == hist && (hist + [o])[|hist + [o]| - 1] == o
  {}

  /** Remembering a title keeps the newest distinct titles. */
  lemma SampledTitles(samples: seq<Sample>, title: string, now: int, max: nat)
    requires |samples| <= max
    ensures Titles(Sampled(samples, title, now, max)) == Take(max, MoveToFront(Titles(samples), title))
    ensures |Sampled(samples, title, now, max)| <= max
  {
    hide Without;
    var i, ts := Find(samples, title), Titles(samples);
    if i < |samples| {
      WithoutPresent(ts, i);
      KnownTitle(samples, title, now, max);
    } else {
      assert title !in ts;
      WithoutAbsent(ts, title);
      var all := [Sample(title, now, now, 1)] + samples;
      assert Titles(all) == [title] + ts;
      assert Titles(Take(max, all)) == Take(max, Titles(all));
    }
  }

  lemma KnownTitle(samples: seq<Sample>, title: string, now: int, max: nat)
    requires Find(samples, title) < |samples|
    ensures var i, ts := Find(samples, title), Titles(samples);
            Titles(Sampled(samples, title, now, max)) == [ts[i]] + (ts[..i] + ts[i + 1..]) && ts[i] == title
  {
    var i, ts := Find(samples, title), Titles(samples);
    hide Find;
    assert Titles(samples[..i] + samples[i + 1..]) == ts[..i] + ts[i + 1..];
  }

  lemma {:induction false} ProcessTimes(hist: seq<Obs>)
    requires Increasing(hist)
    ensures Falling(Processes(hist), k => LastTime(hist, k))
    ensures forall k | k in Processes(hist) :: k != "" && hist != [] && LastTime(hist, k) <= hist[|hist| - 1].time
  {
    hide Key;
    if hist != [] {
      var n := |hist| - 1;
      var before, o := hist[..n], hist[n];
      assert hist == before + [o];
      ProcessTimes(before);
      var ps := Processes(before);
      forall k | k in ps ensures LastTime(before, k) < o.time { assert hist[n - 1].time < hist[n].time; }
      if Key(o) != "" {
        MoveToFrontMembers(ps, Key(o));
        MoveFalling(ps, Key(o), before, o);
      }
    }
  }

  lemma IncreasingPrefix(hist: seq<Obs>, o: Obs)
    requires Increasing(hist + [o])
    ensures Increasing(hist)
  {
    forall i, j | 0 <= i < j < |hist| ensures hist[i].time < hist[j].time {
      assert (hist + [o])[i] == hist[i] && (hist + [o])[j] == hist[j];
    }
  }

  /** Evicting the least recently seen apps keeps the most recent processes. */
  lemma EvictionKeepsRecent(t: Table, kept: Table, hist: seq<Obs>, o: Obs, maxApps: nat)
    requires maxApps > 0 && Key(o) != "" && Increasing(hist + [o])
    requires forall k :: k in t <==> k == Key(o) || k in Kept(hist, maxApps)
    requires forall k | k in t :: t[k].lastSeen == LastTime(hist + [o], k)
    requires Evicts(t, kept, maxApps)
    ensures forall k :: k in kept <==> k in Kept(hist + [o], maxApps)
  {
    hide Key, MoveToFront, LastTime, Falling, Distinct, Take, Evicts, Increasing;
    RecentOrder(hist, o, maxApps);
    KeptAfter(hist, o, maxApps);
    KeepMostRecent(t, kept, MoveToFront(Kept(hist, maxApps), Key(o)), k => LastTime(hist + [o], k), maxApps);
  }

  lemma KeptAfter(hist: seq<Obs>, o: Obs, maxApps: nat)
    requires maxApps > 0 && Key(o) != ""
    ensures Kept(hist + [o], maxApps) == Take(maxApps, MoveToFront(Kept(hist, maxApps), Key(o)))
  {
    hide Key, MoveToFront, Take;
    HistoryGrows(hist, o);
    TakeMoveToFront(Processes(hist), Key(o), maxApps);
  }

  /** The processes kept so far, with the one just seen in front, by time. */
  lemma RecentOrder(hist: seq<Obs>, o: Obs, maxApps: nat)
    requires Key(o) != "" && Increasing(hist + [o])
    ensures var m := MoveToFront(Kept(hist, maxApps), Key(o));
            && |m| <= maxApps + 1 && Falling(m, k => LastTime(hist + [o], k)) && Distinct(m)
            && (forall k :: k in m <==> k == Key(o) || k in Kept(hist, maxApps))
  {
    hide Key, LastTime;
    var few := Kept(hist, maxApps);
    IncreasingPrefix(hist, o);
    ProcessTimes(hist);
    assert forall k | k in few :: k in Processes(hist);
    forall k | k in few ensures LastTime(hist, k) < o.time {
      assert (hist + [o])[|hist| - 1].time < (hist + [o])[|hist|].time;
    }
    hide MoveToFront, Processes, Falling;
    MoveToFrontMembers(few, Key(o));
    MoveFalling(few, Key(o), hist, o);
  }

  lemma KeepMostRecent(t: Table, kept: Table, m: seq<string>, g: string -> int, maxApps: nat)
    requires |m| <= maxApps + 1 && Falling(m, g) && Distinct(m)
    requires forall k :: k in t <==> k in m
    requires forall k | k in t :: t[k].lastSeen == g(k)
    requires Evicts(t, kept, maxApps)
    ensures forall k :: k in kept <==> k in Take(maxApps, m)
  {
    SizeOfDistinct(m, t.Keys);
    if |m| <= maxApps {
      SubsetOfSameSize(kept.Keys, t.Keys);
    } else {
      OneEvicted(t, kept, m, g, maxApps);
    }
  }

  lemma SubsetOfSameSize<T>(s: set<T>, t: set<T>)
    requires s <= t && |s| == |t|
    ensures s == t
  {
    assert |t - s| == |t| - |s|;
  }

  lemma MoveFalling(few: seq<string>, key: string, hist: seq<Obs>, o: Obs)
    requires Falling(few, k => LastTime(hist, k)) && key == Key(o)
    requires forall k | k in few :: LastTime(hist, k) < o.time
    ensures Falling(MoveToFront(few, key), k => LastTime(hist + [o], k))
  {
    hide Key;
    HistoryGrows(hist, o);
    var f: string -> int := k => LastTime(hist, k);
    var g: string -> int := k => LastTime(hist + [o], k);
    FallingIsDistinct(few, f);
    FallingWithout(few, key, f);
    var rest := Without(few, key);
    forall k | k in rest ensures g(k) == f(k) < o.time { WithoutMembers(few, key, k); }
    var all := [key] + rest;
    forall i, j | 0 <= i < j < |all| ensures g(all[i]) > g(all[j]) {
      assert all[j] == rest[j - 1] && rest[j - 1] in rest;
      if i > 0 { assert all[i] == rest[i - 1] && rest[i - 1] in rest; }
    }
  }

  lemma OneMissing<T>(s: set<T>, t: set<T>) returns (e: T)
    requires s <= t && |t| == |s| + 1
    ensures e in t && e !in s && s == t - {e}
  {
    assert |t - s| == 1;
    e :| e in t - s;
    SubsetOfSameSize(s, t - {e});
  }

  lemma OneEvicted(t: Table, kept: Table, m: seq<string>, g: string -> int, maxApps: nat)
    requires |m| == maxApps + 1 && Falling(m, g) && Distinct(m)
    requires forall k :: k in t <==> k in m
    requires |t.Keys| == |m| && forall k | k in t :: t[k].lastSeen == g(k)
    requires Evicts(t, kept, maxApps)
    ensures forall k :: k in kept <==> k in m[..maxApps]
  {
    var e := OneMissing(kept.Keys, t.Keys);
    if e != m[maxApps] {
      assert m[maxApps] in kept;
      LastIsOldest(m, g, e);
    }
    ButLast(m);
  }

  lemma LastIsOldest(m: seq<string>, g: string -> int, e: string)
    requires m != [] && Falling(m, g) && e in m && e != m[|m| - 1]
    ensures g(e) > g(m[|m| - 1])
  {}

  lemma ButLast(m: seq<string>)
    requires m != [] && Distinct(m)
    ensures forall k :: k in m[..|m| - 1] <==> k in m && k != m[|m| - 1]
  {
    var n := |m| - 1;
    forall k | k in m && k != m[n] ensures k in m[..n] {
      var j :| 0 <= j < |m| && m[j] == k;
      assert m[..n][j] == k;
    }
  }

  lemma TouchedAgrees(t: Table, hist: seq<Obs>, o: Obs, maxSamples: nat, maxApps: nat, k: string)
    requires maxSamples > 0 && Key(o) != "" && Agrees(t, hist, maxSamples, maxApps)
    ensures var u := Touched(t, Key(o), o.title, o.time, maxSamples);
            k in u ==> EntryAgrees(u[k], hist + [o], k, maxSamples, maxApps)
  {
    hide EntryAgrees, FreshEntry, TouchedEntry;
    var u := Touched(t, Key(o), o.title, o.time, maxSamples);
    if k in u {
      hide Key, Kept;
      if k == Key(o) {
        TouchedHere(if k in t then Some(t[k]) else None, hist, o, maxSamples, maxApps);
      } else {
        OtherTouched(t[k], hist, o, k, maxSamples, maxApps);
      }
    }
  }

  /** An observation of another app. */
  lemma OtherTouched(e: Entry, hist: seq<Obs>, o: Obs, k: string, maxSamples: nat, maxApps: nat)
    requires EntryAgrees(e, hist, k, maxSamples, maxApps) && k != Key(o)
    ensures EntryAgrees(e, hist + [o], k, maxSamples, maxApps)
  {
    hide Key, Kept, MoveToFront, Take;
    HistoryGrows(hist, o);
  }

  /** An observation of the app itself, which may be new. */
  lemma TouchedHere(had: Option<Entry>, hist: seq<Obs>, o: Obs, maxSamples: nat, maxApps: nat)
    requires maxSamples > 0 && (had.Some? <==> Key(o) in Kept(hist, maxApps))
    requires had.Some? ==> EntryAgrees(had.value, hist, Key(o), maxSamples, maxApps)
    ensures var e := if had.Some? then had.value else FreshEntry(Key(o), o.time);
            EntryAgrees(TouchedEntry(e, o.title, o.time, maxSamples), hist + [o], Key(o), maxSamples, maxApps)
  {
    hide Key, Kept, Sampled, MoveToFront, IsConfigurable;
    HistoryGrows(hist, o);
    var e := if had.Some? then had.value else FreshEntry(Key(o), o.time);
    var titles := if had.Some? then TitlesSince(hist, Key(o), maxApps) else [];
    assert Titles(e.samples) == Take(maxSamples, titles);
    if o.title != "" {
      SampledTitles(e.samples, o.title, o.time, maxSamples);
      TakeMoveToFront(titles, o.title, maxSamples);
    }
  }

  /** The catalog refines recency: on a clock that moves forward, observing keeps
      the table in agreement with the history. */
  lemma ObserveAgrees(t: Table, kept: Table, hist: seq<Obs>, o: Obs, maxSamples: nat, maxApps: nat)
    requires maxSamples > 0 && maxApps > 0 && Increasing(hist + [o])
    requires Agrees(t, hist, maxSamples, maxApps) && Key(o) != ""
    requires Evicts(Touched(t, Key(o), o.title, o.time, maxSamples), kept, maxApps)
    ensures Agrees(kept, hist + [o], maxSamples, maxApps)
  {
    var u := Touched(t, Key(o), o.title, o.time, maxSamples);
    forall k | k in u ensures EntryAgrees(u[k], hist + [o], k, maxSamples, maxApps) {
      TouchedAgrees(t, hist, o, maxSamples, maxApps, k);
    }
    EvictionKeepsRecent(u, kept, hist, o, maxApps);
  }

  lemma LockKeepsEntry(e: Entry, hist: seq<Obs>, o: Obs, key: string, maxSamples: nat, maxApps: nat)
    requires EntryAgrees(e, hist, key, maxSamples, maxApps) && Key(o) == "" && key != ""
    ensures EntryAgrees(e, hist + [o], key, maxSamples, maxApps)
  {
    hide Key, Kept, MoveToFront, Take;
    HistoryGrows(hist, o);
  }

  /** The lock screen changes nothing in the table. */
  lemma LockAgrees(t: Table, hist: seq<Obs>, o: Obs, maxSamples: nat, maxApps: nat)
    requires Agrees(t, hist, maxSamples, maxApps) && Key(o) == "" && Increasing(hist + [o])
    ensures Agrees(t, hist + [o], maxSamples, maxApps)
  {
    hide Key, EntryAgrees;
    HistoryGrows(hist, o);
    IncreasingPrefix(hist, o);
    ProcessTimes(hist);
    hide LastTime, Falling, Increasing;
    forall k | k in t ensures EntryAgrees(t[k], hist + [o], k, maxSamples, maxApps) {
      assert k in Processes(hist);
      LockKeepsEntry(t[k], hist, o, k, maxSamples, maxApps);
    }
  }

  /** The counters follow the history, and so does the table while the clock
      moves forward. */
  ghost predicate Consistent(t: Table, hist: seq<Obs>, locked: bool, lockedSeen: nat, observations: nat,
                             maxSamples: nat, maxApps: nat) {
    && maxSamples > 0 && maxApps > 0
    && observations == |hist| && lockedSeen == LockedCount(hist)
    && (locked <==> hist != [] && Key(hist[|hist| - 1]) == "")
    && (Increasing(hist) ==> Agrees(t, hist, maxSamples, maxApps))
  }

  lemma StaysConsistent(t: Table, kept: Table, hist: seq<Obs>, o: Obs, locked: bool, lockedSeen: nat,
                        observations: nat, maxSamples: nat, maxApps: nat)
    requires Consistent(t, hist, locked, lockedSeen, observations, maxSamples, maxApps)
    requires if Key(o) == "" then kept == t
             else Evicts(Touched(t, Key(o), o.title, o.time, maxSamples), kept, maxApps)
    ensures Consistent(kept, hist + [o], Key(o) == "", lockedSeen + if Key(o) == "" then 1 else 0,
                       observations + 1, maxSamples, maxApps)
  {
    hide Key, Agrees, Increasing, Evicts, Touched;
    HistoryGrows(hist, o);
    if Increasing(hist + [o]) { StaysInAgreement(t, kept, hist, o, maxSamples, maxApps); }
  }

  lemma StaysInAgreement(t: Table, kept: Table, hist: seq<Obs>, o: Obs, maxSamples: nat, maxApps: nat)
    requires maxSamples > 0 && maxApps > 0 && Increasing(hist + [o])
    requires Increasing(hist) ==> Agrees(t, hist, maxSamples, maxApps)
    requires if Key(o) == "" then kept == t
             else Evicts(Touched(t, Key(o), o.title, o.time, maxSamples), kept, maxApps)
    ensures Agrees(kept, hist + [o], maxSamples, maxApps)
  {
    hide Key, Agrees, Evicts, Touched;
    IncreasingPrefix(hist, o);
    if Key(o) == "" { LockAgrees(t, hist, o, maxSamples, maxApps); }
    else { ObserveAgrees(t, kept, hist, o, maxSamples, maxApps); }
  }

  // ---------- Snapshots of one run ----------

  /** Most recently seen first, names on a tie. */
  function NewerFirst(): (Entry, Entry) -> bool {
    (a: Entry, b: Entry) => a.lastSeen > b.lastSeen || (a.lastSeen == b.lastSeen && Text.Less(a.process, b.process))
  }

  lemma NewerOrder()
    ensures StrictOrder(NewerFirst())
  {
    forall x: Entry ensures !NewerFirst()(x, x) { Text.LessIrreflexive(x.process); }
    forall x: Entry, y: Entry, z: Entry | NewerFirst()(x, y) && NewerFirst()(y, z) ensures NewerFirst()(x, z) {
      if x.lastSeen == y.lastSeen == z.lastSeen { Text.LessTransitive(x.process, y.process, z.process); }
    }
  }

  /** The state of a catalog between two observations. */
  datatype Version = Version(table: Table, locked: bool, lockedSeen: nat)

  /** A snapshot of the version reached after `n` observations. */
  ghost predicate IsSnapshot(snap: Snapshot, v: Version, n: nat) {
    && snap.observations == n && snap.locked == v.locked && snap.lockedSeen == v.lockedSeen
    && Sorted(snap.apps, NewerFirst())
    && forall e :: e in snap.apps <==> e.process in v.table && v.table[e.process] == e
  }

  /** Snapshots of one catalog: `run[n]` is its version after `n` observations. */
  ghost predicate TakenFrom(snaps: seq<Snapshot>, run: seq<Version>) {
    forall s | s in snaps :: s.observations < |run| && IsSnapshot(s, run[s.observations], s.observations)
  }

  lemma TakenOneMore(snaps: seq<Snapshot>, snap: Snapshot, run: seq<Version>, longer: seq<Version>, n: nat)
    requires TakenFrom(snaps, run) && run <= longer
    requires n < |longer| && IsSnapshot(snap, longer[n], n)
    ensures TakenFrom(snaps + [snap], longer)
  {
    assert snap.observations == n;
    hide IsSnapshot;
    forall s | s in snaps + [snap]
      ensures s.observations < |longer| && IsSnapshot(s, longer[s.observations], s.observations)
    {
      if s in snaps { assert longer[s.observations] == run[s.observations]; }
    }
  }

  lemma SnapshotUnique(a: Snapshot, b: Snapshot, v: Version, n: nat)
    requires IsSnapshot(a, v, n) && IsSnapshot(b, v, n)
    ensures a == b
  {
    NewerOrder();
    hide NewerFirst;
    SortedUnique(a.apps, b.apps, NewerFirst());
  }

  /** Within one run, equal counters mean equal snapshots. */
  lemma CounterDetermines(snaps: seq<Snapshot>, run: seq<Version>, a: Snapshot, b: Snapshot)
    requires TakenFrom(snaps, run) && a in snaps && b in snaps && a.observations == b.observations
    ensures a == b
  {
    hide IsSnapshot;
    SnapshotUnique(a, b, run[a.observations], a.observations);
  }
}
