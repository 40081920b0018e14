// client-windows/internal/setup/catalog.go: the catalog itself.
module Catalog {
  import opened Wrappers
  import opened Ranking
  import opened Recency
  import opened CatalogSpec
  import Text

  const DEFAULT_MAX_SAMPLES := 20
  const DEFAULT_MAX_APPS := 256

  /** A known title moves to the front with one more sighting, keeping the time it
      was first seen; a new one is put in front of the others, and the oldest goes
      when there are too many. */
  ghost predicate Remembers(was: seq<Sample>, now: seq<Sample>, title: string, at: int, max: nat) {
    && (forall i | FirstTitleAt(was, title, i) ::
          now == [Sample(title, was[i].firstSeen, at, was[i].count + 1)] + (was[..i] + was[i + 1..]))
    && ((forall s | s in was :: s.title != title) && |was| < max ==> now == [Sample(title, at, at, 1)] + was)
    && ((forall s | s in was :: s.title != title) && |was| == max > 0 ==>
          now == [Sample(title, at, at, 1)] + was[..max - 1])
  }

  predicate FirstTitleAt(samples: seq<Sample>, title: string, i: int) {
    0 <= i < |samples| && samples[i].title == title && forall j | 0 <= j < i :: samples[j].title != title
  }

  lemma SampledRemembers(samples: seq<Sample>, title: string, now: int, max: nat)
    ensures Remembers(samples, Sampled(samples, title, now, max), title, now, max)
  {
    var i := Find(samples, title);
    hide Find;
    forall j | FirstTitleAt(samples, title, j) ensures j == i {}
    if i == |samples| && |samples| == max > 0 {
      assert ([Sample(title, now, now, 1)] + samples)[..max] == [Sample(title, now, now, 1)] + samples[..max - 1];
    }
    if i < |samples| { assert samples[i] in samples; }
  }

  /** One application that has been in the foreground. */
  class App {
    const process: string
    const firstSeen: int
    const configurable: bool
    var lastSeen: int
    var count: nat
    var samples: seq<Sample>

    ghost function View(): Entry
      reads this
    {
      Entry(process, firstSeen, lastSeen, count, samples, configurable)
    }

    constructor (key: string, now: int)
      ensures View() == FreshEntry(key, now)
      ensures process == key && firstSeen == now && count == 0 && samples == []
    {
      process, firstSeen, configurable := key, now, IsConfigurable(key);
      lastSeen, count, samples := 0, 0, [];
    }

    method Touch(title: string, now: int, max: nat)
      modifies this
      ensures View() == TouchedEntry(old(View()), title, now, max)
      ensures lastSeen == now && count == old(count) + 1 && (title == "" ==> samples == old(samples))
    {
      hide Sampled;
      lastSeen := now;
      count := count + 1;
      if title != "" {
        AddSample(title, now, max);
      }
    }

    method AddSample(title: string, now: int, max: nat)
      modifies this`samples
      ensures samples == Sampled(old(samples), title, now, max)
      ensures Remembers(old(samples), samples, title, now, max)
    {
      SampledRemembers(samples, title, now, max);
      hide Remembers;
      for i := 0 to |samples|
        invariant samples == old(samples)
        invariant forall j | 0 <= j < i :: samples[j].title != title
      {
        if samples[i].title == title {
          assert Find(samples, title) == i;
          samples := samples[i := samples[i].(lastSeen := now, count := samples[i].count + 1)];
          var s := samples[i];
          samples := samples[..i] + samples[i + 1..];
          samples := [s] + samples;
          return;
        }
      }
      samples := [Sample(title, now, now, 1)] + samples;
      if |samples| > max {
        samples := samples[..max];
      }
    }
  }

  function SeenAt(seen: map<string, int>, k: string): int { if k in seen then seen[k] else 0 }

  /** Least recently seen first; Go leaves the order of ties open, this one uses names. */
  function OlderFirst(seen: map<string, int>): (string, string) -> bool {
    (a: string, b: string) =>
      SeenAt(seen, a) < SeenAt(seen, b) || (SeenAt(seen, a) == SeenAt(seen, b) && Text.Less(a, b))
  }

  lemma OlderOrder(seen: map<string, int>)
    ensures StrictOrder(OlderFirst(seen))
  {
    forall x: string ensures !OlderFirst(seen)(x, x) { Text.LessIrreflexive(x); }
    forall x: string, y: string, z: string | OlderFirst(seen)(x, y) && OlderFirst(seen)(y, z)
      ensures OlderFirst(seen)(x, z)
    {
      if SeenAt(seen, x) == SeenAt(seen, y) == SeenAt(seen, z) { Text.LessTransitive(x, y, z); }
    }
  }

  lemma OldestOrder(flat: seq<string>, seen: map<string, int>)
    requires Distinct(flat) && forall k :: k in flat <==> k in seen
    ensures var keys := SortBy(flat, OlderFirst(seen));
            && Distinct(keys) && (forall k :: k in keys <==> k in seen)
            && forall i, j | 0 <= i < j < |keys| :: seen[keys[i]] <= seen[keys[j]]
  {
    var keys := SortBy(flat, OlderFirst(seen));
    OlderOrder(seen);
    forall a, b | a in flat && b in flat && a != b ensures OlderFirst(seen)(a, b) || OlderFirst(seen)(b, a) {
      Text.LessTotal(a, b);
    }
    SortBySorts(flat, OlderFirst(seen));
    forall i, j | 0 <= i < j < |keys| ensures keys[i] != keys[j] && seen[keys[i]] <= seen[keys[j]] {
      assert keys[i] in keys && keys[j] in keys && OlderFirst(seen)(keys[i], keys[j]);
    }
  }

  function ProcessesOf(es: seq<Entry>): (ps: seq<string>)
    ensures |ps| == |es|
  {
    seq(|es|, i requires 0 <= i < |es| => es[i].process)
  }

  /** Sorting an agreeing table by time gives the specification's own order. */
  lemma SnapshotIsRecent(t: Table, hist: seq<Obs>, maxSamples: nat, maxApps: nat, sorted: seq<Entry>)
    requires Increasing(hist) && Agrees(t, hist, maxSamples, maxApps)
    requires Sorted(sorted, NewerFirst())
    requires forall e :: e in sorted <==> e.process in t && t[e.process] == e
    ensures ProcessesOf(sorted) == Kept(hist, maxApps)
  {
    hide Key, TitlesSince, CountSince, FirstSince;
    var f: string -> int := k => LastTime(hist, k);
    var ps, kept := ProcessesOf(sorted), Kept(hist, maxApps);
    ProcessTimes(hist);
    assert Falling(kept, f);
    hide Kept, LastTime, Increasing;
    forall k ensures k in ps <==> k in kept {
      if k in ps {
        var i :| 0 <= i < |ps| && ps[i] == k;
        assert sorted[i] in sorted;
      }
      if k in kept {
        assert t[k] in sorted;
        var i :| 0 <= i < |sorted| && sorted[i] == t[k];
        assert ps[i] == k;
      }
    }
    forall e | e in sorted ensures f(e.process) == e.lastSeen && e.process in kept {}
    hide Agrees;
    SortedFalls(sorted, kept, f);
    FallingUnique(ps, kept, f);
  }

  lemma SortedFalls(sorted: seq<Entry>, kept: seq<string>, f: string -> int)
    requires Sorted(sorted, NewerFirst()) && Falling(kept, f)
    requires forall e | e in sorted :: f(e.process) == e.lastSeen && e.process in kept
    ensures Falling(ProcessesOf(sorted), f)
  {
    var ps := ProcessesOf(sorted);
    forall i, j | 0 <= i < j < |ps| ensures f(ps[i]) > f(ps[j]) {
      assert sorted[i] in sorted && sorted[j] in sorted && NewerFirst()(sorted[i], sorted[j]);
      if f(ps[i]) == f(ps[j]) { Text.LessIrreflexive(ps[i]); }
    }
  }

  /** Dropping the first `n` names, when that leaves as many apps as allowed. */
  lemma EvictsOldest(t: Table, keys: seq<string>, n: nat, maxApps: nat)
    requires Distinct(keys) && (forall k :: k in keys <==> k in t) && |t.Keys| == maxApps + n
    requires forall i, j | 0 <= i < j < |keys| :: t[keys[i]].lastSeen <= t[keys[j]].lastSeen
    ensures n <= |keys| && Evicts(t, t - (set k | k in keys[..n]), maxApps)
  {
    SizeOfDistinct(keys, t.Keys);
    var doomed := set k | k in keys[..n];
    DoomedSize(keys, n, doomed);
    var kept := t - doomed;
    hide Distinct;
    assert doomed <= t.Keys && kept.Keys == t.Keys - doomed;
    forall e, k | e in doomed && k in t && k !in doomed ensures t[e].lastSeen <= t[k].lastSeen {}
    hide Evicts;
  }

  lemma DoomedSize(keys: seq<string>, n: nat, doomed: set<string>)
    requires Distinct(keys) && n <= |keys| && doomed == set k | k in keys[..n]
    ensures |doomed| == n
  {
    forall i, j | 0 <= i < j < n ensures keys[..n][i] != keys[..n][j] {}
    SizeOfDistinct(keys[..n], doomed);
  }

  /** What a map of apps holds. */
  ghost function ViewOf(apps: map<string, App>): Table
    reads apps.Values
  {
    map k | k in apps :: apps[k].View()
  }

  lemma TouchedOne(t: Table, mid: Table, key: string, title: string, now: int, maxSamples: nat)
    requires mid == t[key := if key in t then t[key] else FreshEntry(key, now)]
    ensures mid[key := TouchedEntry(mid[key], title, now, maxSamples)] == Touched(t, key, title, now, maxSamples)
  {
    hide TouchedEntry, FreshEntry;
  }

  lemma NothingEvicted(apps: map<string, App>, maxApps: nat)
    requires |apps| <= maxApps
    ensures Evicts(ViewOf(apps), ViewOf(apps), maxApps)
  {
    assert ViewOf(apps).Keys == apps.Keys && |apps.Keys| == |apps|;
  }

  lemma ViewWithout(apps: map<string, App>, doomed: set<string>)
    ensures ViewOf(apps - doomed) == ViewOf(apps) - doomed
  {}

  method TitlesIn(samples: seq<Sample>) returns (titles: seq<string>)
    ensures titles == Titles(samples)
  {
    titles := [];
    for i := 0 to |samples|
      invariant titles == Titles(samples)[..i]
    {
      titles := titles + [samples[i].title];
    }
  }

  class Catalog {
    var apps: map<string, App>
    const maxSamples: nat
    const maxApps: nat
    var locked: bool
    var lockedSeen: nat
    var observations: nat
    /** Everything observed so far, and the versions that led here. */
    ghost var hist: seq<Obs>
    ghost var run: seq<Version>

    ghost function View(): Table
      reads this, apps.Values
    {
      ViewOf(apps)
    }

    /** Every app is stored once, under its own name. */
    ghost predicate Separate()
      reads this
    {
      && (forall k | k in apps :: apps[k].process == k)
      && (forall j, k | j in apps && k in apps && j != k :: apps[j] != apps[k])
    }

    ghost predicate Valid()
      reads this, apps.Values
    {
      && Separate() && Consistent(View(), hist, locked, lockedSeen, observations, maxSamples, maxApps)
      && |run| == observations + 1 && run[observations] == Version(View(), locked, lockedSeen)
    }

    constructor (maxSamplesPerApp: int, maxApps: int)
      ensures Valid() && hist == [] && apps == map[] && fresh(apps.Values)
      ensures this.maxSamples == if maxSamplesPerApp <= 0 then 20 else maxSamplesPerApp
      ensures this.maxApps == if maxApps <= 0 then 256 else maxApps
    {
      this.apps := map[];
      this.maxSamples := if maxSamplesPerApp <= 0 then DEFAULT_MAX_SAMPLES else maxSamplesPerApp;
      this.maxApps := if maxApps <= 0 then DEFAULT_MAX_APPS else maxApps;
      this.locked, this.lockedSeen, this.observations := false, 0, 0;
      this.hist, this.run := [], [Version(map[], false, 0)];
      new;
      assert View() == map[];
    }

    /** The app of a process, taken in if it is new. */
    method AppFor(key: string, now: int) returns (app: App)
      requires Separate()
      modifies this`apps
      ensures apps == old(apps)[key := app] && Separate()
      ensures fresh(apps.Values - old(apps.Values))
      ensures key in old(apps) ==> app == old(apps)[key] && app in old(apps.Values)
      ensures View() == old(View())[key := if key in old(View()) then old(View())[key] else FreshEntry(key, now)]
      ensures key !in old(apps) ==> fresh(app) && app.View() == FreshEntry(key, now)
    {
      if key in apps {
        app := apps[key];
        assert apps == apps[key := app];
      } else {
        app := new App(key, now);
        apps := apps[key := app];
        assert apps.Values - old(apps.Values) <= {app};
      }
    }

    /** Touches an app that is there. */
    method TouchApp(key: string, title: string, now: int)
      requires Separate() && key in apps
      modifies apps[key]
      ensures View() == old(View())[key := TouchedEntry(old(View())[key], title, now, maxSamples)]
    {
      hide TouchedEntry;
      ghost var mid := View();
      apps[key].Touch(title, now, maxSamples);
      assert forall k | k in apps ::
               View()[k] == if k == key then TouchedEntry(mid[k], title, now, maxSamples) else mid[k];
    }

    method Touch(key: string, title: string, now: int)
      requires Separate() && maxSamples > 0
      modifies this`apps, apps.Values
      ensures Separate() && fresh(apps.Values - old(apps.Values))
      ensures View() == Touched(old(View()), key, title, now, maxSamples)
    {
      hide TouchedEntry, FreshEntry, Touched, ViewOf;
      ghost var before := View();
      var app := AppFor(key, now);
      ghost var mid := View();
      TouchApp(key, title, now);
      TouchedOne(before, mid, key, title, now, maxSamples);
    }

    method Names() returns (flat: seq<string>)
      ensures Distinct(flat) && forall k :: k in flat <==> k in apps
    {
      flat := [];
      var left := apps.Keys;
      while left != {}
        invariant left <= apps.Keys && Distinct(flat)
        invariant forall k :: k in flat <==> k in apps && k !in left
        decreases left
      {
        var k :| k in left;
        assert k !in flat;
        flat := flat + [k];
        left := left - {k};
      }
    }

    /** The names of the apps, least recently seen first. */
    method ByLastSeen() returns (keys: seq<string>)
      requires Separate()
      ensures Distinct(keys) && forall k :: k in keys <==> k in apps
      ensures forall i, j | 0 <= i < j < |keys| :: View()[keys[i]].lastSeen <= View()[keys[j]].lastSeen
    {
      var flat := Names();
      var seen: map<string, int> := map k | k in apps :: apps[k].lastSeen;
      keys := SortBy(flat, OlderFirst(seen));
      OldestOrder(flat, seen);
      assert forall k | k in apps :: View()[k].lastSeen == seen[k];
    }

    /** The first names to go: as many as there are apps too many. */
    method Doomed() returns (doomed: set<string>)
      requires Separate() && |apps| > maxApps
      ensures Evicts(View(), View() - doomed, maxApps)
    {
      hide Evicts, Distinct;
      ghost var t := View();
      var keys := ByLastSeen();
      var n := |apps| - maxApps;
      assert t.Keys == apps.Keys && |apps.Keys| == |apps|;
      EvictsOldest(t, keys, n, maxApps);
      doomed := set k | k in keys[..n];
    }

    /** Drops the least recently seen apps once there are too many. */
    method EvictApps()
      requires Separate()
      modifies this`apps
      ensures Separate() && apps.Values <= old(apps.Values)
      ensures Evicts(old(View()), View(), maxApps)
    {
      hide Evicts, ViewOf;
      if |apps| <= maxApps {
        NothingEvicted(apps, maxApps);
        return;
      }
      var doomed := Doomed();
      ViewWithout(apps, doomed);
      apps := apps - doomed;
    }

    /** Records a sighting of an app and keeps the table within its bound. */
    method Record(key: string, title: string, now: int)
      requires Separate() && maxSamples > 0
      modifies this`apps, apps.Values
      ensures Separate() && fresh(apps.Values - old(apps.Values))
      ensures Evicts(Touched(old(View()), key, title, now, maxSamples), View(), maxApps)
    {
      hide Evicts, Touched, ViewOf;
      Touch(key, title, now);
      EvictApps();
    }

    /** Records one foreground reading. */
    method Observe(process: string, title: string, now: int)
      requires Valid()
      modifies this, apps.Values
      ensures Valid() && fresh(apps.Values - old(apps.Values))
      ensures hist == old(hist) + [Obs(process, title, now)]
      ensures old(run) <= run
      ensures var key := Text.Normalize(process);
              if key == "" then View() == old(View())
              else Evicts(Touched(old(View()), key, title, now, maxSamples), View(), maxApps)
    {
      hide Text.Normalize, Agrees, Increasing, LockedCount, Evicts, Touched, ViewOf;
      assert maxSamples > 0;
      hide Consistent;
      var key := Text.Normalize(process);
      observations := observations + 1;
      hist := hist + [Obs(process, title, now)];
      if key == "" {
        locked := true;
        lockedSeen := lockedSeen + 1;
      } else {
        locked := false;
        Record(key, title, now);
      }
      StaysConsistent(old(View()), View(), old(hist), Obs(process, title, now), old(locked), old(lockedSeen),
                      old(observations), maxSamples, maxApps);
      run := run + [Version(View(), locked, lockedSeen)];
    }

    /** A copy of the catalog, most recently seen app first. On a clock that moves
        forward it lists exactly the most recent processes, in order. */
    method TakeSnapshot() returns (snap: Snapshot)
      requires Valid()
      ensures IsSnapshot(snap, Version(View(), locked, lockedSeen), observations)
      ensures snap.locked == locked && snap.lockedSeen == lockedSeen && snap.observations == observations
      ensures forall e :: e in snap.apps <==> e.process in apps && apps[e.process].View() == e
      ensures forall i, j | 0 <= i < j < |snap.apps| ::
                snap.apps[i].lastSeen > snap.apps[j].lastSeen
                || (snap.apps[i].lastSeen == snap.apps[j].lastSeen
                    && Text.Less(snap.apps[i].process, snap.apps[j].process))
      ensures Increasing(hist) ==> ProcessesOf(snap.apps) == Kept(hist, maxApps)
    {
      var flat: seq<Entry> := [];
      var left := apps.Keys;
      hide Agrees;
      ghost var t := View();
      while left != {}
        invariant left <= apps.Keys && Distinct(flat)
        invariant forall e :: e in flat <==> e.process in t && e.process !in left && t[e.process] == e
        decreases left
      {
        var k :| k in left;
        var app := apps[k];
        assert t[k] == app.View() && t[k].process == k;
        var clone := Entry(app.process, app.firstSeen, app.lastSeen, app.count, app.samples, app.configurable);
        assert clone !in flat;
        flat := flat + [clone];
        left := left - {k};
      }
      var sorted := SortBy(flat, NewerFirst());
      NewerOrder();
      forall a, b | a in flat && b in flat && a != b ensures NewerFirst()(a, b) || NewerFirst()(b, a) {
        Text.LessTotal(a.process, b.process);
      }
      SortBySorts(flat, NewerFirst());
      hide NewerFirst;
      if Increasing(hist) { SnapshotIsRecent(t, hist, maxSamples, maxApps, sorted); }
      snap := Snapshot(sorted, locked, lockedSeen, observations);
    }

    /** The titles recorded for one process, newest first. */
    method TitlesOf(process: string) returns (titles: seq<string>)
      requires Valid()
      ensures Increasing(hist) ==>
                var key := Text.Normalize(process);
                titles == if key in Kept(hist, maxApps) then Take(maxSamples, TitlesSince(hist, key, maxApps)) else []
    {
      hide Text.Normalize, TitlesSince, CountSince, FirstSince, LastTime, Processes, Take, Increasing;
      var key := Text.Normalize(process);
      if key !in apps {
        return [];
      }
      var app := apps[key];
      assert View()[key] == app.View();
      titles := TitlesIn(app.samples);
    }
  }
}
