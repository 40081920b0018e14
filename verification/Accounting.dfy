// Runs of reports (server/internal/api/handlers.go) against the store: what
// each report adds to the usage buckets, and the timeline those buckets count.
module Accounting {
  import opened Wrappers
  import opened Clock
  import opened Sums
  import opened UsageTypes
  import opened Attribution
  import opened Store
  import Rfc3339

  // ---------- One report ----------

  /** Which of the three database calls of a report fail. */
  datatype Faults = Faults(get: bool, add: bool, upsert: bool)

  datatype Report = Report(device: string, activity: Activity, reportedAt: int, seenAt: int, faults: Faults)

  /** The seconds [from, to) credited to one activity. */
  datatype Credit = Credit(activity: Activity, from: int, to: int)

  /** What a report of a registered device adds to the buckets. */
  function CreditOf(db: Db, r: Report, maxGap: int): Option<Credit> {
    if r.faults.get then None
    else match ReadState(db, r.device)
      case Err(_) => None
      case Ok(prev) =>
        if prev.lastSeenAt == ZERO_TIME || r.faults.add || !Credited(prev.lastSeenAt, r.seenAt, maxGap) then None
        else Some(Credit(prev.activity, Floor(prev.lastSeenAt), Floor(r.seenAt)))
  }

  function Book(t: UsageTable, id: string, c: Option<Credit>): UsageTable {
    if c.None? || c.value.from >= c.value.to then t
    else AddAll(t, id, HourPieces(c.value.activity, c.value.from, c.value.to))
  }

  /** The database after one report; an unregistered device is turned away. */
  function Step(db: Db, r: Report, maxGap: int): Db {
    if r.device !in db.devices then db
    else
      var booked := db.(usage := Book(db.usage, r.device, CreditOf(db, r, maxGap)));
      if r.faults.upsert then booked else PutState(booked, r.device, r.activity, r.reportedAt, r.seenAt)
  }

  function Empty(devices: Devices): Db { Db(devices, map[], map[]) }

  function Run(devices: Devices, rs: seq<Report>, maxGap: int): Db {
    if rs == [] then Empty(devices)
    else Step(Run(devices, rs[..|rs| - 1], maxGap), rs[|rs| - 1], maxGap)
  }

  // ---------- The same from the report history alone ----------

  function HistoryOf(rs: seq<Report>, d: string): seq<Report> {
    if rs == [] then []
    else
      var before := HistoryOf(rs[..|rs| - 1], d);
      if rs[|rs| - 1].device == d then before + [rs[|rs| - 1]] else before
  }

  /** The report the server last managed to store. */
  function Base(hist: seq<Report>): Option<Report> {
    if hist == [] then None
    else if hist[|hist| - 1].faults.upsert then Base(hist[..|hist| - 1])
    else Some(hist[|hist| - 1])
  }

  /** A stored report can be read back and does not look like "never reported". */
  predicate Readable(b: Report) {
    Rfc3339.Stampable(b.reportedAt) && Rfc3339.Stampable(b.seenAt) && Floor(b.seenAt) != 0
  }

  function NextCredit(hist: seq<Report>, r: Report, maxGap: int): Option<Credit> {
    match Base(hist)
    case None => None
    case Some(b) =>
      if !r.faults.get && !r.faults.add && Readable(b) && Credited(b.seenAt, r.seenAt, maxGap)
      then Some(Credit(b.activity, Floor(b.seenAt), Floor(r.seenAt)))
      else None
  }

  function CreditsOf(hist: seq<Report>, maxGap: int): seq<Credit> {
    if hist == [] then []
    else
      var before := CreditsOf(hist[..|hist| - 1], maxGap);
      match NextCredit(hist[..|hist| - 1], hist[|hist| - 1], maxGap)
      case None => before
      case Some(c) => before + [c]
  }

  /** The bucket that second `s` belongs to while `o` is observed. */
  function KeyAt(d: string, o: Activity, s: int): UsageKey {
    UsageKey(d, Rfc3339.Format(s / 3600 * HOUR), StateOf(o), o.app, o.description)
  }

  function Hits(d: string, o: Activity, p: UsageKey -> bool): int -> bool {
    s => p(KeyAt(d, o, s))
  }

  function OfDevice(d: string, p: UsageKey -> bool): UsageKey -> bool {
    (k: UsageKey) => k.device == d && p(k)
  }

  /** The credited seconds, counted with multiplicity, whose bucket satisfies `p`. */
  function LedgerSum(d: string, cs: seq<Credit>, p: UsageKey -> bool): nat {
    if cs == [] then 0
    else LedgerSum(d, cs[..|cs| - 1], p)
         + Count(cs[|cs| - 1].from, cs[|cs| - 1].to, Hits(d, cs[|cs| - 1].activity, p))
  }

  // ---------- Ledger: buckets are the sum of the credits, in every run ----------

  lemma CreditsGrow(hist: seq<Report>, r: Report, maxGap: int)
    ensures CreditsOf(hist + [r], maxGap) ==
            CreditsOf(hist, maxGap) + match NextCredit(hist, r, maxGap) case None => [] case Some(c) => [c]
    ensures Base(hist + [r]) == if r.faults.upsert then Base(hist) else Some(r)
  {
    assert (hist + [r])[..|hist|] == hist;
  }

  lemma {:induction false} PiecesCount(d: string, o: Activity, a: int, b: int, p: UsageKey -> bool, n: nat)
    requires a < b && n <= |HourPieces(o, a, b)|
    ensures SumDeltas(d, HourPieces(o, a, b)[..n], OfDevice(d, p)) == Count(a, PieceStart(a, b, n), Hits(d, o, p))
  {
    hide Rfc3339.Format, Overlap, StateOf, KeyFor, KeyAt;
    var pieces := HourPieces(o, a, b);
    if n > 0 {
      PiecesCount(d, o, a, b, p, n - 1);
      assert pieces[..n] == pieces[..n - 1] + [pieces[n - 1]];
      PieceKey(d, o, a, b, n - 1);
      hide PieceStart, HourPieces, Count, SumDeltas;
      CountSplit(a, PieceStart(a, b, n - 1), PieceStart(a, b, n), Hits(d, o, p));
      PieceCount(d, o, a, b, p, n - 1);
    }
  }

  lemma PieceKey(d: string, o: Activity, a: int, b: int, n: nat)
    requires a < b && n < |HourPieces(o, a, b)|
    ensures var piece, x := HourPieces(o, a, b)[n], PieceStart(a, b, n);
            KeyFor(d, piece) == KeyAt(d, o, x) && KeyFor(d, piece).device == d
            && piece.seconds == PieceStart(a, b, n + 1) - x
  {
    hide Rfc3339.Format, Overlap, StateOf;
    PieceLength(a, b, n);
    hide PieceStart;
  }

  /** All seconds of one piece share a bucket. */
  lemma PieceCount(d: string, o: Activity, a: int, b: int, p: UsageKey -> bool, n: nat)
    requires a < b && PieceStart(a, b, n) < b
    ensures var x, y := PieceStart(a, b, n), PieceStart(a, b, n + 1);
            Count(x, y, Hits(d, o, p)) == if p(KeyAt(d, o, x)) then y - x else 0
  {
    hide Rfc3339.Format, StateOf, Count;
    PieceLength(a, b, n);
    var x, y := PieceStart(a, b, n), PieceStart(a, b, n + 1);
    hide PieceStart;
    forall s | x <= s < y ensures Hits(d, o, p)(s) == p(KeyAt(d, o, x)) {
      assert KeyAt(d, o, s) == KeyAt(d, o, x);
    }
    CountConstant(x, y, Hits(d, o, p), p(KeyAt(d, o, x)));
  }

  /** Splitting over the hours loses and invents nothing: the pieces of an
      interval hold, bucket by bucket, the seconds of the interval. */
  lemma PiecesAreSeconds(d: string, o: Activity, a: int, b: int, p: UsageKey -> bool)
    requires a < b
    ensures SumDeltas(d, HourPieces(o, a, b), OfDevice(d, p)) == Count(a, b, Hits(d, o, p))
  {
    var pieces := HourPieces(o, a, b);
    PiecesCount(d, o, a, b, p, |pieces|);
    assert pieces[..|pieces|] == pieces;
    assert PieceStart(a, b, |pieces|) == b by { LastPiece(a, b); }
  }

  lemma {:induction false} OtherDevice(id: string, ds: seq<Bucket>, d: string, p: UsageKey -> bool)
    requires id != d
    ensures SumDeltas(id, ds, OfDevice(d, p)) == 0
  {
    if ds != [] { OtherDevice(id, ds[..|ds| - 1], d, p); }
  }

  ghost predicate Mirrors(db: Db, d: string, hist: seq<Report>) {
    match Base(hist)
    case None => d !in db.states
    case Some(b) =>
      d in db.states
      && db.states[d] == StateRecord(Some(b.activity), Rfc3339.Format(b.reportedAt), Rfc3339.Format(b.seenAt))
  }

  lemma ReadBack(db: Db, d: string, hist: seq<Report>)
    requires d in db.devices && Mirrors(db, d, hist)
    ensures ReadState(db, d) == match Base(hist)
            case None => Ok(StateRow(NO_ACTIVITY, ZERO_TIME, ZERO_TIME))
            case Some(b) =>
              if Rfc3339.Stampable(b.reportedAt) && Rfc3339.Stampable(b.seenAt)
              then Ok(StateRow(b.activity, Truncate(b.reportedAt, SECOND), Truncate(b.seenAt, SECOND)))
              else Err(BadStamp)
  {
    hide Rfc3339.Format, Rfc3339.Parse, Rfc3339.Stampable;
    if Base(hist).Some? {
      var b := Base(hist).value;
      Rfc3339.ParseFormat(b.reportedAt);
      Rfc3339.ParseFormat(b.seenAt);
    }
  }

  lemma CreditFromState(db: Db, hist: seq<Report>, r: Report, maxGap: int)
    requires r.device in db.devices && Mirrors(db, r.device, hist)
    ensures CreditOf(db, r, maxGap) == NextCredit(hist, r, maxGap)
  {
    hide Rfc3339.Format, Rfc3339.Parse, Rfc3339.Stampable, Truncate, Floor, ReadState, Sub;
    ReadBack(db, r.device, hist);
    if Base(hist).Some? {
      var b := Base(hist).value;
      TruncateIsFloor(b.seenAt);
      FloorOfSeconds(Floor(b.seenAt));
    }
  }

  lemma {:induction false} StateMirrorsHistory(devices: Devices, rs: seq<Report>, maxGap: int, d: string)
    requires d in devices
    ensures Run(devices, rs, maxGap).devices == devices
    ensures Mirrors(Run(devices, rs, maxGap), d, HistoryOf(rs, d))
  {
    hide Rfc3339.Format, Rfc3339.Parse, Rfc3339.Stampable;
    if rs != [] {
      var before := rs[..|rs| - 1];
      StateMirrorsHistory(devices, before, maxGap, d);
      CreditsGrow(HistoryOf(before, d), rs[|rs| - 1], maxGap);
    }
  }

  lemma BookSum(t: UsageTable, id: string, c: Option<Credit>, d: string, p: UsageKey -> bool)
    requires c.Some? ==> c.value.from < c.value.to
    ensures SumWhere(Book(t, id, c), OfDevice(d, p)) == SumWhere(t, OfDevice(d, p)) +
            if c.Some? && id == d then Count(c.value.from, c.value.to, Hits(d, c.value.activity, p)) else 0
  {
    hide Rfc3339.Format, HourPieces, AddAll, Overlap, StateOf, SumDeltas;
    if c.Some? {
      var pieces := HourPieces(c.value.activity, c.value.from, c.value.to);
      AddAllSum(t, id, pieces, OfDevice(d, p));
      if id == d { PiecesAreSeconds(d, c.value.activity, c.value.from, c.value.to, p); }
      else { OtherDevice(id, pieces, d, p); }
    }
  }

  lemma LedgerGrows(d: string, cs: seq<Credit>, c: Credit, p: UsageKey -> bool)
    ensures LedgerSum(d, cs + [c], p) == LedgerSum(d, cs, p) + Count(c.from, c.to, Hits(d, c.activity, p))
  {
    assert (cs + [c])[..|cs|] == cs;
  }

  /** After any run of reports of any devices, whatever fails and however the
      clock moves, every selection of a device's buckets holds exactly the
      seconds of that device's credits. */
  lemma {:induction false} Ledger(devices: Devices, rs: seq<Report>, maxGap: int, d: string, p: UsageKey -> bool)
    requires d in devices
    ensures SumWhere(Run(devices, rs, maxGap).usage, OfDevice(d, p)) ==
            LedgerSum(d, CreditsOf(HistoryOf(rs, d), maxGap), p)
  {
    hide Rfc3339.Format, Rfc3339.Parse, Rfc3339.Stampable, ReadState, Floor;
    if rs != [] {
      var before, r := rs[..|rs| - 1], rs[|rs| - 1];
      var db := Run(devices, before, maxGap);
      Ledger(devices, before, maxGap, d, p);
      StateMirrorsHistory(devices, before, maxGap, d);
      if r.device in devices {
        StateMirrorsHistory(devices, before, maxGap, r.device);
        var c := CreditOf(db, r, maxGap);
        CreditFromState(db, HistoryOf(before, r.device), r, maxGap);
        BookSum(db.usage, r.device, c, d, p);
        if r.device == d {
          CreditsGrow(HistoryOf(before, d), r, maxGap);
          if c.Some? { LedgerGrows(d, CreditsOf(HistoryOf(before, d), maxGap), c.value, p); }
        }
      }
    }
  }

  // ---------- Timeline: every second carries at most one activity ----------

  /** The server clock never went back between reports of the device. */
  ghost predicate Monotone(hist: seq<Report>) {
    forall i, j | 0 <= i < j < |hist| :: hist[i].seenAt <= hist[j].seenAt
  }

  /** Something was credited since the last report that was stored. */
  predicate Exposed(hist: seq<Report>, maxGap: int) {
    hist != [] && hist[|hist| - 1].faults.upsert &&
    (Exposed(hist[..|hist| - 1], maxGap) || NextCredit(hist[..|hist| - 1], hist[|hist| - 1], maxGap).Some?)
  }

  /** No report is credited while the history is exposed. */
  predicate Clean(hist: seq<Report>, maxGap: int) {
    hist == [] ||
    (Clean(hist[..|hist| - 1], maxGap) &&
     (NextCredit(hist[..|hist| - 1], hist[|hist| - 1], maxGap).Some? ==> !Exposed(hist[..|hist| - 1], maxGap)))
  }

  predicate Overlapping(c: Credit, e: Credit) { c.from < e.to && e.from < c.to }

  ghost predicate Disjoint(cs: seq<Credit>) {
    forall i, j | 0 <= i < j < |cs| :: !Overlapping(cs[i], cs[j])
  }

  lemma MonotonePrefix(hist: seq<Report>)
    requires Monotone(hist) && hist != []
    ensures Monotone(hist[..|hist| - 1])
  {}

  lemma {:induction false} BaseInHistory(hist: seq<Report>)
    ensures Base(hist).Some? ==> Base(hist).value in hist
  {
    if hist != [] { BaseInHistory(hist[..|hist| - 1]); }
  }

  /** Credits are nonempty and lie between the first and the last report. */
  lemma {:induction false} CreditBounds(hist: seq<Report>, maxGap: int, c: Credit)
    requires Monotone(hist) && c in CreditsOf(hist, maxGap)
    ensures hist != [] && Floor(hist[0].seenAt) <= c.from < c.to <= Floor(hist[|hist| - 1].seenAt)
  {
    hide Readable;
    var n := |hist| - 1;
    var before := hist[..n];
    if c in CreditsOf(before, maxGap) {
      MonotonePrefix(hist);
      CreditBounds(before, maxGap, c);
      FloorMonotone(hist[n - 1].seenAt, hist[n].seenAt);
    } else {
      BaseInHistory(before);
      var b := Base(before).value;
      FloorMonotone(hist[0].seenAt, b.seenAt);
    }
  }

  lemma {:induction false} CoveredBeforeBase(hist: seq<Report>, maxGap: int, c: Credit)
    requires Monotone(hist) && !Exposed(hist, maxGap) && c in CreditsOf(hist, maxGap)
    ensures Base(hist).Some? && c.to <= Floor(Base(hist).value.seenAt)
  {
    hide Readable;
    var n := |hist| - 1;
    if hist[n].faults.upsert {
      MonotonePrefix(hist);
      CoveredBeforeBase(hist[..n], maxGap, c);
    } else {
      CreditBounds(hist, maxGap, c);
    }
  }

  lemma {:induction false} ExposedWitness(hist: seq<Report>, maxGap: int) returns (c: Credit)
    requires Exposed(hist, maxGap)
    ensures c in CreditsOf(hist, maxGap) && Base(hist).Some? && c.from == Floor(Base(hist).value.seenAt) < c.to
  {
    hide Readable;
    var n := |hist| - 1;
    if Exposed(hist[..n], maxGap) {
      c := ExposedWitness(hist[..n], maxGap);
    } else {
      c := NextCredit(hist[..n], hist[n], maxGap).value;
    }
  }

  /** With a clock that never goes back, two credits of a device overlap exactly
      when some report was credited after an earlier credited report that
      failed to be stored and before any later one succeeded. */
  lemma {:induction false} DisjointIffClean(hist: seq<Report>, maxGap: int)
    requires Monotone(hist)
    ensures Disjoint(CreditsOf(hist, maxGap)) <==> Clean(hist, maxGap)
  {
    hide Readable, Floor;
    if hist != [] {
      var n := |hist| - 1;
      var before, r := hist[..n], hist[n];
      MonotonePrefix(hist);
      DisjointIffClean(before, maxGap);
      var cs := CreditsOf(before, maxGap);
      var next := NextCredit(before, r, maxGap);
      if next.Some? {
        assert CreditsOf(hist, maxGap) == cs + [next.value];
        assert Disjoint(cs + [next.value]) <==>
               Disjoint(cs) && forall i | 0 <= i < |cs| :: !Overlapping(cs[i], next.value) by {
          AppendDisjoint(cs, next.value);
        }
        if Exposed(before, maxGap) {
          var e := ExposedWitness(before, maxGap);
          var i :| 0 <= i < |cs| && cs[i] == e;
          assert Overlapping(cs[i], next.value);
        } else {
          forall i | 0 <= i < |cs| ensures !Overlapping(cs[i], next.value) {
            CoveredBeforeBase(before, maxGap, cs[i]);
          }
        }
      }
    }
  }

  lemma AppendDisjoint(cs: seq<Credit>, c: Credit)
    ensures Disjoint(cs + [c]) <==> Disjoint(cs) && forall i | 0 <= i < |cs| :: !Overlapping(cs[i], c)
  {
    var all := cs + [c];
    if Disjoint(all) {
      forall i, j | 0 <= i < j < |cs| ensures !Overlapping(cs[i], cs[j]) {
        assert all[i] == cs[i] && all[j] == cs[j];
      }
      forall i | 0 <= i < |cs| ensures !Overlapping(cs[i], c) {
        assert all[i] == cs[i] && all[|cs|] == c;
      }
    }
  }

  /** The activity a second is labelled with, if any. */
  function Label(hist: seq<Report>, maxGap: int, s: int): Option<Activity> {
    if hist == [] then None
    else match NextCredit(hist[..|hist| - 1], hist[|hist| - 1], maxGap)
      case Some(c) =>
        if c.from <= s < c.to then Some(c.activity) else Label(hist[..|hist| - 1], maxGap, s)
      case None => Label(hist[..|hist| - 1], maxGap, s)
  }

  function TimelineHits(hist: seq<Report>, maxGap: int, d: string, p: UsageKey -> bool): int -> bool {
    s => Label(hist, maxGap, s).Some? && p(KeyAt(d, Label(hist, maxGap, s).value, s))
  }

  lemma LabelGrows(hist: seq<Report>, maxGap: int, s: int)
    requires hist != []
    ensures Label(hist, maxGap, s) ==
            var next := NextCredit(hist[..|hist| - 1], hist[|hist| - 1], maxGap);
            if next.Some? && next.value.from <= s < next.value.to then Some(next.value.activity)
            else Label(hist[..|hist| - 1], maxGap, s)
  {
    hide Readable, Floor, Credited, Base;
  }

  lemma {:induction false} LabelledIsCredited(hist: seq<Report>, maxGap: int, s: int)
    requires Label(hist, maxGap, s).Some?
    ensures exists c :: c in CreditsOf(hist, maxGap) && c.from <= s < c.to
  {
    hide Readable, Floor;
    var n := |hist| - 1;
    var next := NextCredit(hist[..n], hist[n], maxGap);
    if next.Some? && next.value.from <= s < next.value.to {
      assert next.value in CreditsOf(hist, maxGap);
    } else {
      LabelledIsCredited(hist[..n], maxGap, s);
    }
  }

  lemma FreshStretch(hist: seq<Report>, r: Report, maxGap: int, s: int)
    requires Monotone(hist) && !Exposed(hist, maxGap)
    requires NextCredit(hist, r, maxGap).Some? && NextCredit(hist, r, maxGap).value.from <= s
    ensures Label(hist, maxGap, s).None?
  {
    hide Readable, Floor;
    if Label(hist, maxGap, s).Some? {
      LabelledIsCredited(hist, maxGap, s);
      var c :| c in CreditsOf(hist, maxGap) && c.from <= s < c.to;
      CoveredBeforeBase(hist, maxGap, c);
    }
  }

  /** On a clean history the ledger counts the labelled seconds, each once. */
  lemma {:induction false} LedgerIsTimeline(hist: seq<Report>, maxGap: int, d: string, p: UsageKey -> bool,
                                            lo: int, hi: int)
    requires Monotone(hist) && Clean(hist, maxGap)
    requires forall c | c in CreditsOf(hist, maxGap) :: lo <= c.from <= c.to <= hi
    ensures LedgerSum(d, CreditsOf(hist, maxGap), p) == Count(lo, hi, TimelineHits(hist, maxGap, d, p))
  {
    hide Readable, Floor, Rfc3339.Format, StateOf;
    var now := TimelineHits(hist, maxGap, d, p);
    if hist == [] {
      forall s ensures !now(s) { assert Label(hist, maxGap, s).None?; }
      if lo <= hi { CountConstant(lo, hi, now, false); }
    } else {
      var n := |hist| - 1;
      var before, r := hist[..n], hist[n];
      var was := TimelineHits(before, maxGap, d, p);
      var next := NextCredit(before, r, maxGap);
      MonotonePrefix(hist);
      assert forall c | c in CreditsOf(before, maxGap) :: c in CreditsOf(hist, maxGap);
      LedgerIsTimeline(before, maxGap, d, p, lo, hi);
      if next.None? {
        forall s ensures was(s) == now(s) { LabelGrows(hist, maxGap, s); }
        CountSame(lo, hi, was, now);
      } else {
        var c := next.value;
        assert c in CreditsOf(hist, maxGap);
        LedgerGrows(d, CreditsOf(before, maxGap), c, p);
        AddStretch(hist, maxGap, d, p, lo, hi, c);
      }
    }
  }

  lemma AddStretch(hist: seq<Report>, maxGap: int, d: string, p: UsageKey -> bool, lo: int, hi: int, c: Credit)
    requires hist != [] && Monotone(hist[..|hist| - 1]) && !Exposed(hist[..|hist| - 1], maxGap)
    requires NextCredit(hist[..|hist| - 1], hist[|hist| - 1], maxGap) == Some(c)
    requires lo <= c.from <= c.to <= hi
    ensures Count(lo, hi, TimelineHits(hist, maxGap, d, p)) ==
            Count(lo, hi, TimelineHits(hist[..|hist| - 1], maxGap, d, p)) + Count(c.from, c.to, Hits(d, c.activity, p))
  {
    hide Readable, Floor, Rfc3339.Format, StateOf;
    var before := hist[..|hist| - 1];
    var now := TimelineHits(hist, maxGap, d, p);
    var was := TimelineHits(before, maxGap, d, p);
    var stretch := Hits(d, c.activity, p);
    forall s ensures now(s) == if c.from <= s < c.to then stretch(s) else was(s) { LabelGrows(hist, maxGap, s); }
    CountSplit(lo, c.from, hi, now);
    CountSplit(c.from, c.to, hi, now);
    CountSplit(lo, c.from, hi, was);
    CountSplit(c.from, c.to, hi, was);
    CountSame(lo, c.from, was, now);
    CountSame(c.to, hi, was, now);
    CountSame(c.from, c.to, now, stretch);
    forall s | c.from <= s < c.to ensures !was(s) {
      FreshStretch(before, hist[|hist| - 1], maxGap, s);
    }
    CountConstant(c.from, c.to, was, false);
  }
}
