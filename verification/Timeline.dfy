// What the usage buckets mean: a table of labelled seconds.
module Timeline {
  import opened Wrappers
  import opened Clock
  import opened Sums
  import opened UsageTypes
  import opened Attribution
  import opened Store
  import opened Accounting
  import Rfc3339

  /** Every report of the history was stored. */
  ghost predicate AllStored(hist: seq<Report>) {
    forall r | r in hist :: !r.faults.upsert
  }

  lemma CreditsWithin(hist: seq<Report>, maxGap: int, lo: int, hi: int)
    requires Monotone(hist)
    requires hist != [] ==> lo <= Floor(hist[0].seenAt) && Floor(hist[|hist| - 1].seenAt) <= hi
    ensures forall c | c in CreditsOf(hist, maxGap) :: lo <= c.from <= c.to <= hi
  {
    hide Floor;
    forall c | c in CreditsOf(hist, maxGap) ensures lo <= c.from <= c.to <= hi {
      CreditBounds(hist, maxGap, c);
    }
  }

  /** The bucket table refines the timeline: any selection of a device's buckets
      holds the number of seconds whose label falls in the selection. */
  lemma BucketsCountSeconds(devices: Devices, rs: seq<Report>, maxGap: int, d: string, p: UsageKey -> bool,
                            lo: int, hi: int)
    requires d in devices
    requires Monotone(HistoryOf(rs, d)) && Clean(HistoryOf(rs, d), maxGap)
    requires var hist := HistoryOf(rs, d);
             hist != [] ==> lo <= Floor(hist[0].seenAt) && Floor(hist[|hist| - 1].seenAt) <= hi
    ensures SumWhere(Run(devices, rs, maxGap).usage, OfDevice(d, p)) ==
            Count(lo, hi, TimelineHits(HistoryOf(rs, d), maxGap, d, p))
  {
    hide Floor, Rfc3339.Format, Label;
    var hist := HistoryOf(rs, d);
    Ledger(devices, rs, maxGap, d, p);
    CreditsWithin(hist, maxGap, lo, hi);
    LedgerIsTimeline(hist, maxGap, d, p, lo, hi);
  }

  function Earliest(hist: seq<Report>, s: int): int {
    if hist != [] && Floor(hist[0].seenAt) < s then Floor(hist[0].seenAt) else s
  }

  function Latest(hist: seq<Report>, s: int): int {
    if hist != [] && s < Floor(hist[|hist| - 1].seenAt) then Floor(hist[|hist| - 1].seenAt) else s
  }

  predicate LabelledAs(l: Option<Activity>, state: UsageState, app: string, description: string) {
    l.Some? && StateOf(l.value) == state && l.value.app == app && l.value.description == description
  }

  lemma HourOfKey(h: int, s: int)
    requires Rfc3339.Stampable(h * HOUR)
    ensures Rfc3339.Format(h * HOUR) == Rfc3339.Format(s / 3600 * HOUR) <==> 3600 * h <= s < 3600 * h + 3600
  {
    hide Rfc3339.Format, Rfc3339.Stampable;
    Rfc3339.FormatInjective(h * HOUR, s / 3600 * HOUR);
    FloorOfSeconds(3600 * h);
    FloorOfSeconds(3600 * (s / 3600));
  }

  function SecondsAs(hist: seq<Report>, maxGap: int, state: UsageState, app: string, description: string): int -> bool {
    s => LabelledAs(Label(hist, maxGap, s), state, app, description)
  }

  /** One bucket is the number of seconds of its hour that carry its label. */
  lemma BucketIsTimeline(devices: Devices, rs: seq<Report>, maxGap: int, d: string, h: int,
                         state: UsageState, app: string, description: string)
    requires d in devices && Rfc3339.Stampable(h * HOUR)
    requires Monotone(HistoryOf(rs, d)) && Clean(HistoryOf(rs, d), maxGap)
    ensures var usage := Run(devices, rs, maxGap).usage;
            var k := UsageKey(d, Rfc3339.Format(h * HOUR), state, app, description);
            (if k in usage then usage[k] else 0) ==
            Count(3600 * h, 3600 * h + 3600, SecondsAs(HistoryOf(rs, d), maxGap, state, app, description))
  {
    hide Floor, Rfc3339.Format, Rfc3339.Stampable, Label, Run, StateOf, Monotone, Clean;
    var k := UsageKey(d, Rfc3339.Format(h * HOUR), state, app, description);
    var hist := HistoryOf(rs, d);
    var p := (j: UsageKey) => j == k;
    var usage := Run(devices, rs, maxGap).usage;
    SumSingle(usage, OfDevice(d, p), k);
    var a, b := 3600 * h, 3600 * h + 3600;
    var lo, hi := Earliest(hist, a), Latest(hist, b);
    BucketsCountSeconds(devices, rs, maxGap, d, p, lo, hi);
    var f := TimelineHits(hist, maxGap, d, p);
    var g := SecondsAs(hist, maxGap, state, app, description);
    forall s ensures f(s) == (a <= s < b && g(s)) {
      KeyOfLabel(hist, maxGap, k, h, s);
    }
    CountSplit(lo, a, hi, f);
    CountSplit(a, b, hi, f);
    CountConstant(lo, a, f, false);
    CountConstant(b, hi, f, false);
    CountSame(a, b, f, g);
  }

  lemma KeyOfLabel(hist: seq<Report>, maxGap: int, k: UsageKey, h: int, s: int)
    requires Rfc3339.Stampable(h * HOUR) && k.hourStart == Rfc3339.Format(h * HOUR)
    ensures Label(hist, maxGap, s).Some? && KeyAt(k.device, Label(hist, maxGap, s).value, s) == k
            <==> 3600 * h <= s < 3600 * h + 3600 && LabelledAs(Label(hist, maxGap, s), k.state, k.app, k.description)
  {
    hide Rfc3339.Format, Rfc3339.Stampable, Label, StateOf;
    HourOfKey(h, s);
  }

  function InHour(h: int): UsageKey -> bool {
    (k: UsageKey) => k.hourStart == Rfc3339.Format(h * HOUR)
  }

  /** No second is counted twice: a device's buckets of one hour never sum past the hour. */
  lemma HourCap(devices: Devices, rs: seq<Report>, maxGap: int, d: string, h: int)
    requires d in devices && Rfc3339.Stampable(h * HOUR)
    requires Monotone(HistoryOf(rs, d)) && Clean(HistoryOf(rs, d), maxGap)
    ensures SumWhere(Run(devices, rs, maxGap).usage, OfDevice(d, InHour(h))) <= 3600
  {
    hide Floor, Rfc3339.Format, Rfc3339.Stampable, Label, Run, StateOf, Monotone, Clean;
    var hist := HistoryOf(rs, d);
    var a, b := 3600 * h, 3600 * h + 3600;
    var lo, hi := Earliest(hist, a), Latest(hist, b);
    BucketsCountSeconds(devices, rs, maxGap, d, InHour(h), lo, hi);
    var f := TimelineHits(hist, maxGap, d, InHour(h));
    forall s | lo <= s < hi && f(s) ensures a <= s < b {
      assert InHour(h)(KeyAt(d, Label(hist, maxGap, s).value, s));
      HourOfKey(h, s);
    }
    CountWithin(lo, hi, a, b, f);
  }

  // ---------- Totals over a whole run ----------

  function Everything(): UsageKey -> bool { (k: UsageKey) => true }

  /** The whole seconds between consecutive reports that were not credited:
      silences past the gap, failed reads and failed additions. */
  function Missed(hist: seq<Report>, maxGap: int): int {
    if |hist| < 2 then 0
    else
      var n := |hist| - 1;
      Missed(hist[..n], maxGap)
      + if NextCredit(hist[..n], hist[n], maxGap).None? then Floor(hist[n].seenAt) - Floor(hist[n - 1].seenAt) else 0
  }

  lemma {:induction false} BookedPlusMissed(hist: seq<Report>, maxGap: int, d: string)
    requires hist != [] && Monotone(hist) && AllStored(hist)
    ensures LedgerSum(d, CreditsOf(hist, maxGap), Everything()) + Missed(hist, maxGap) ==
            Floor(hist[|hist| - 1].seenAt) - Floor(hist[0].seenAt)
  {
    hide Floor, Readable, Credited, LedgerSum;
    var n := |hist| - 1;
    var before := hist[..n];
    if n == 0 {
      EmptyLedger(d, Everything());
      assert Base(before).None?;
    } else {
      MonotonePrefix(hist);
      BookedPlusMissed(before, maxGap, d);
      assert before[n - 1] in hist;
      assert Base(before) == Some(hist[n - 1]);
      var next := NextCredit(before, hist[n], maxGap);
      if next.Some? {
        CreditBounds(hist, maxGap, next.value);
        WholeCredit(d, CreditsOf(before, maxGap), next.value);
      }
    }
  }

  lemma EmptyLedger(d: string, p: UsageKey -> bool)
    ensures LedgerSum(d, [], p) == 0
  {}

  lemma WholeCredit(d: string, cs: seq<Credit>, c: Credit)
    requires c.from <= c.to
    ensures LedgerSum(d, cs + [c], Everything()) == LedgerSum(d, cs, Everything()) + c.to - c.from
  {
    hide LedgerSum, Rfc3339.Format;
    LedgerGrows(d, cs, c, Everything());
    CountConstant(c.from, c.to, Hits(d, c.activity, Everything()), true);
  }

  /** Conservation over a run: what a device's buckets hold plus what was not
      credited is the elapsed time in whole seconds. */
  lemma TotalPlusMissed(devices: Devices, rs: seq<Report>, maxGap: int, d: string)
    requires d in devices && HistoryOf(rs, d) != []
    requires Monotone(HistoryOf(rs, d)) && AllStored(HistoryOf(rs, d))
    ensures var hist := HistoryOf(rs, d);
            SumWhere(Run(devices, rs, maxGap).usage, OfDevice(d, Everything())) + Missed(hist, maxGap) ==
            Floor(hist[|hist| - 1].seenAt) - Floor(hist[0].seenAt)
  {
    hide Floor, Run, CreditsOf, Missed, Monotone, SumWhere;
    Ledger(devices, rs, maxGap, d, Everything());
    BookedPlusMissed(HistoryOf(rs, d), maxGap, d);
  }

  /** Nothing failed and no silence exceeded the gap. */
  ghost predicate Steady(hist: seq<Report>, maxGap: int) {
    && (forall r | r in hist :: r.faults == Faults(false, false, false) && Readable(r))
    && (forall i | 1 <= i < |hist| ::
          Sub(Floor(hist[i].seenAt) * SECOND, Floor(hist[i - 1].seenAt) * SECOND) <= maxGap)
  }

  lemma {:induction false} SteadyMissesNothing(hist: seq<Report>, maxGap: int)
    requires Monotone(hist) && Steady(hist, maxGap)
    ensures Missed(hist, maxGap) == 0
  {
    hide Floor, Readable, Sub;
    if |hist| >= 2 {
      var n := |hist| - 1;
      MonotonePrefix(hist);
      assert Steady(hist[..n], maxGap) by {
        forall i | 1 <= i < n
          ensures Sub(Floor(hist[..n][i].seenAt) * SECOND, Floor(hist[..n][i - 1].seenAt) * SECOND) <= maxGap {}
      }
      SteadyMissesNothing(hist[..n], maxGap);
      assert hist[..n][n - 1] == hist[n - 1] && hist[n] in hist && hist[n - 1] in hist;
      FloorMonotone(hist[n - 1].seenAt, hist[n].seenAt);
    }
  }

  /** No drift: over a steady run of any length the total is off the elapsed
      time by less than one second, not by one second per report. */
  lemma NoDrift(devices: Devices, rs: seq<Report>, maxGap: int, d: string)
    requires d in devices && HistoryOf(rs, d) != []
    requires Monotone(HistoryOf(rs, d)) && Steady(HistoryOf(rs, d), maxGap)
    ensures var hist := HistoryOf(rs, d);
            var total := SumWhere(Run(devices, rs, maxGap).usage, OfDevice(d, Everything()));
            var elapsed := hist[|hist| - 1].seenAt - hist[0].seenAt;
            total == Floor(hist[|hist| - 1].seenAt) - Floor(hist[0].seenAt)
            && -SECOND < total * SECOND - elapsed < SECOND
  {
    hide Run, Missed, SumWhere, Readable, Sub;
    SteadyMissesNothing(HistoryOf(rs, d), maxGap);
    TotalPlusMissed(devices, rs, maxGap, d);
  }

  // ---------- Where the promise needs its assumptions ----------

  /** If storing a credited report fails, the next credited report counts the
      same seconds again: the two credits sum past the elapsed time. */
  lemma FailedUpsertCountsTwice(b: Report, r: Report, q: Report, maxGap: int, d: string)
    requires !b.faults.upsert && Readable(b)
    requires r.faults == Faults(false, false, true) && Credited(b.seenAt, r.seenAt, maxGap)
    requires !q.faults.get && !q.faults.add && Credited(b.seenAt, q.seenAt, maxGap)
    ensures CreditsOf([b, r, q], maxGap) ==
            [Credit(b.activity, Floor(b.seenAt), Floor(r.seenAt)), Credit(b.activity, Floor(b.seenAt), Floor(q.seenAt))]
    ensures LedgerSum(d, CreditsOf([b, r, q], maxGap), Everything()) > Floor(q.seenAt) - Floor(b.seenAt)
  {
    hide Readable, Floor, LedgerSum, Sub;
    var x := Credit(b.activity, Floor(b.seenAt), Floor(r.seenAt));
    var y := Credit(b.activity, Floor(b.seenAt), Floor(q.seenAt));
    CreditsGrow([], b, maxGap);
    assert [] + [b] == [b];
    CreditsGrow([b], r, maxGap);
    assert [b] + [r] == [b, r];
    assert CreditsOf([b, r], maxGap) == [x];
    CreditsGrow([b, r], q, maxGap);
    assert [b, r] + [q] == [b, r, q];
    TwoCredits(d, x, y);
  }

  lemma TwoCredits(d: string, x: Credit, y: Credit)
    requires x.from <= x.to && y.from <= y.to
    ensures LedgerSum(d, [x, y], Everything()) == (x.to - x.from) + (y.to - y.from)
  {
    hide LedgerSum;
    EmptyLedger(d, Everything());
    WholeCredit(d, [], x);
    WholeCredit(d, [x], y);
    assert [] + [x] == [x] && [x] + [y] == [x, y];
  }

  lemma EarlyStamps(s: int)
    requires 0 <= s < 86400
    ensures Rfc3339.Stampable(s * SECOND)
  {
    FloorOfSeconds(s);
  }

  /** The same on concrete reports: 30 seconds booked over 20 elapsed. */
  lemma FailedUpsertExample()
    ensures var a := Activity("Editor", "coding", false, 0, false);
            var hist := [Report("d", a, 100 * SECOND, 100 * SECOND, Faults(false, false, false)),
                         Report("d", a, 110 * SECOND, 110 * SECOND, Faults(false, false, true)),
                         Report("d", a, 120 * SECOND, 120 * SECOND, Faults(false, false, false))];
            Monotone(hist) && !Clean(hist, 60 * SECOND)
            && LedgerSum("d", CreditsOf(hist, 60 * SECOND), Everything()) > 20
  {
    hide Rfc3339.Stampable;
    var a := Activity("Editor", "coding", false, 0, false);
    var b := Report("d", a, 100 * SECOND, 100 * SECOND, Faults(false, false, false));
    var r := Report("d", a, 110 * SECOND, 110 * SECOND, Faults(false, false, true));
    var q := Report("d", a, 120 * SECOND, 120 * SECOND, Faults(false, false, false));
    EarlyStamps(100);
    assert Readable(b);
    assert Credited(b.seenAt, r.seenAt, 60 * SECOND) && Credited(b.seenAt, q.seenAt, 60 * SECOND);
    hide Readable, CreditsOf, Clean, LedgerSum, Credited;
    FailedUpsertCountsTwice(b, r, q, 60 * SECOND, "d");
    var cs := CreditsOf([b, r, q], 60 * SECOND);
    DisjointIffClean([b, r, q], 60 * SECOND);
    assert Overlapping(cs[0], cs[1]);
  }

  /** The client's own clock is not quite irrelevant: a stored `reported_at`
      without a four-digit UTC year makes the stored row unreadable, so the next
      report of the device is credited nothing. */
  lemma UnreadableReportedAt(devices: Devices, rs: seq<Report>, r: Report, maxGap: int)
    requires r.device in devices
    requires Base(HistoryOf(rs, r.device)).Some?
    requires !Rfc3339.Stampable(Base(HistoryOf(rs, r.device)).value.reportedAt)
    ensures CreditOf(Run(devices, rs, maxGap), r, maxGap).None?
    ensures ReadState(Run(devices, rs, maxGap), r.device) == Err(BadStamp)
  {
    hide Rfc3339.Format, Rfc3339.Stampable, Rfc3339.Parse, Run, Floor;
    StateMirrorsHistory(devices, rs, maxGap, r.device);
    ReadBack(Run(devices, rs, maxGap), r.device, HistoryOf(rs, r.device));
  }

  /** Everything the server's own clock asks of a report before it is credited. */
  predicate DueByServerClock(b: Report, r: Report, maxGap: int) {
    && !r.faults.get && !r.faults.add
    && Rfc3339.Stampable(b.seenAt) && Floor(b.seenAt) != 0 && Credited(b.seenAt, r.seenAt, maxGap)
  }

  /** After any run, a report that is due by the server's clock is credited if and
      only if the client's clock in the stored report has a four-digit UTC year. */
  lemma CreditedIffReportedAtReadable(devices: Devices, rs: seq<Report>, r: Report, maxGap: int)
    requires r.device in devices
    requires Base(HistoryOf(rs, r.device)).Some?
    requires DueByServerClock(Base(HistoryOf(rs, r.device)).value, r, maxGap)
    ensures CreditOf(Run(devices, rs, maxGap), r, maxGap).Some? <==>
            Rfc3339.Stampable(Base(HistoryOf(rs, r.device)).value.reportedAt)
  {
    hide Rfc3339.Stampable, Run, Floor, Credited, CreditOf, HistoryOf, Base;
    StateMirrorsHistory(devices, rs, maxGap, r.device);
    CreditFromState(Run(devices, rs, maxGap), HistoryOf(rs, r.device), r, maxGap);
  }

  /** The same on concrete reports: the client's clock is one second into year
      10000, as 9999-12-31T23:00:01 one hour west of UTC is, and ten seconds that
      are due are lost. With a readable client clock they are credited. */
  lemma UnreadableReportedAtExample(devices: Devices, a: Activity)
    requires "d" in devices
    ensures var late := (Rfc3339.END_OF_STAMPS + 1) * SECOND;
            var b := Report("d", a, late, 100 * SECOND, Faults(false, false, false));
            var r := Report("d", a, 110 * SECOND, 110 * SECOND, Faults(false, false, false));
            && DueByServerClock(b, r, 60 * SECOND)
            && CreditOf(Run(devices, [b], 60 * SECOND), r, 60 * SECOND).None?
            && CreditOf(Run(devices, [b.(reportedAt := 100 * SECOND)], 60 * SECOND), r, 60 * SECOND).Some?
  {
    var late := (Rfc3339.END_OF_STAMPS + 1) * SECOND;
    var b := Report("d", a, late, 100 * SECOND, Faults(false, false, false));
    var c := b.(reportedAt := 100 * SECOND);
    var r := Report("d", a, 110 * SECOND, 110 * SECOND, Faults(false, false, false));
    assert !Rfc3339.Stampable(late) by { FloorOfSeconds(Rfc3339.END_OF_STAMPS + 1); }
    EarlyStamps(100);
    assert DueByServerClock(b, r, 60 * SECOND) && DueByServerClock(c, r, 60 * SECOND);
    hide DueByServerClock, Rfc3339.Stampable, CreditOf, Run;
    OnlyReport(b);
    OnlyReport(c);
    CreditedIffReportedAtReadable(devices, [b], r, 60 * SECOND);
    CreditedIffReportedAtReadable(devices, [c], r, 60 * SECOND);
  }

  lemma OnlyReport(b: Report)
    requires !b.faults.upsert
    ensures HistoryOf([b], b.device) == [b] && Base([b]) == Some(b)
  {
    assert HistoryOf([b], b.device) == HistoryOf([], b.device) + [b];
  }

  // ---------- What the next report adds ----------

  /** The last report of `d` among `rs` that was stored, if any was. */
  ghost predicate LastStored(rs: seq<Report>, d: string, last: Option<Report>) {
    match last
    case None => forall j | 0 <= j < |rs| && rs[j].device == d :: rs[j].faults.upsert
    case Some(b) => exists i | 0 <= i < |rs| :: StoredLastAt(rs, d, i) && rs[i] == b
  }

  ghost predicate StoredLastAt(rs: seq<Report>, d: string, i: nat)
    requires i < |rs|
  {
    && rs[i].device == d && !rs[i].faults.upsert
    && forall j | i < j < |rs| && rs[j].device == d :: rs[j].faults.upsert
  }

  lemma {:induction false} BaseIsLastStored(rs: seq<Report>, d: string, last: Option<Report>)
    requires LastStored(rs, d, last)
    ensures Base(HistoryOf(rs, d)) == last
  {
    if rs != [] {
      var n := |rs| - 1;
      var before := rs[..n];
      if rs[n].device == d && !rs[n].faults.upsert {
        assert last == Some(rs[n]);
      } else {
        assert LastStored(before, d, last) by {
          if last.Some? {
            var i :| 0 <= i < |rs| && StoredLastAt(rs, d, i) && rs[i] == last.value;
            assert StoredLastAt(before, d, i) && before[i] == last.value;
          }
        }
        BaseIsLastStored(before, d, last);
      }
      assert before + [rs[n]] == rs;
    }
  }

  /** What one more report of a registered device adds after any run: the seconds
      since the last stored report of the device, under the activity of that
      report, when they are more than none and no more than the gap, nothing
      failed and the stored row can be read; otherwise nothing at all. */
  lemma ReportAdds(devices: Devices, rs: seq<Report>, r: Report, maxGap: int, last: Option<Report>,
                   p: UsageKey -> bool)
    requires r.device in devices && LastStored(rs, r.device, last)
    ensures var was, now := Run(devices, rs, maxGap).usage, Run(devices, rs + [r], maxGap).usage;
            if last.Some? && !r.faults.get && !r.faults.add
               && Rfc3339.Stampable(last.value.reportedAt) && Rfc3339.Stampable(last.value.seenAt)
               && Floor(last.value.seenAt) != 0
               && 0 < Floor(r.seenAt) - Floor(last.value.seenAt)
               && ((Floor(r.seenAt) - Floor(last.value.seenAt)) * SECOND <= maxGap || maxGap >= MAX_INT64)
            then
              SumWhere(now, OfDevice(r.device, p)) == SumWhere(was, OfDevice(r.device, p)) +
              Count(Floor(last.value.seenAt), Floor(r.seenAt), Hits(r.device, last.value.activity, p))
            else now == was
  {
    var db := Run(devices, rs, maxGap);
    assert Book(db.usage, r.device, None) == db.usage;
    hide Floor, Rfc3339.Stampable, Credited, CreditOf, HistoryOf, Base, Book;
    BaseIsLastStored(rs, r.device, last);
    StateMirrorsHistory(devices, rs, maxGap, r.device);
    CreditFromState(db, HistoryOf(rs, r.device), r, maxGap);
    if last.Some? { CreditedIff(last.value.seenAt, r.seenAt, maxGap); }
    var c := CreditOf(db, r, maxGap);
    RunOneMore(devices, rs, r, maxGap);
    if c.Some? { BookSum(db.usage, r.device, c, r.device, p); }
  }

  lemma RunOneMore(devices: Devices, rs: seq<Report>, r: Report, maxGap: int)
    requires r.device in devices && Run(devices, rs, maxGap).devices == devices
    ensures var db := Run(devices, rs, maxGap);
            Run(devices, rs + [r], maxGap).usage == Book(db.usage, r.device, CreditOf(db, r, maxGap))
  {
    hide Book, CreditOf, Rfc3339.Format;
    assert (rs + [r])[..|rs|] == rs;
  }
}
