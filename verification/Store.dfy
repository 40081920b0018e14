// server/internal/store/store.go: the device_state and usage_bucket tables.
// Instants are kept as text, as in the database.
module Store {
  import opened Wrappers
  import opened Clock
  import opened Sums
  import opened UsageTypes
  import Rfc3339
  import Text

  datatype StoreError = DeviceNotFound | BadPayload | BadStamp | Unavailable

  /** What the devices table says of a device. */
  datatype Identity = Identity(name: string, kind: string)

  type Devices = map<string, Identity>

  /** A device_state row; no payload when the stored text is not a report. */
  datatype StateRecord = StateRecord(payload: Option<Activity>, reportedAt: string, lastSeenAt: string)

  /** A state row as GetState returns it. */
  datatype StateRow = StateRow(activity: Activity, reportedAt: int, lastSeenAt: int)

  /** The primary key of usage_bucket. */
  datatype UsageKey = UsageKey(device: string, hourStart: string, state: UsageState, app: string, description: string)

  type UsageTable = map<UsageKey, nat>

  /** A usage row as QueryUsage returns it. */
  datatype Row = Row(device: string, hourStart: int, state: UsageState, app: string, description: string, seconds: nat)

  /** The whole database. */
  datatype Db = Db(devices: Devices, states: map<string, StateRecord>, usage: UsageTable)

  // ---------- Accumulating ----------

  function KeyFor(id: string, b: Bucket): UsageKey {
    UsageKey(id, Rfc3339.Format(b.hourStart), b.state, b.app, b.description)
  }

  function AddOne(t: UsageTable, k: UsageKey, seconds: nat): UsageTable {
    t[k := (if k in t then t[k] else 0) + seconds]
  }

  function AddAll(t: UsageTable, id: string, ds: seq<Bucket>): UsageTable {
    if ds == [] then t
    else AddOne(AddAll(t, id, ds[..|ds| - 1]), KeyFor(id, ds[|ds| - 1]), ds[|ds| - 1].seconds)
  }

  /** The seconds of the deltas whose key satisfies `p`. */
  function SumDeltas(id: string, ds: seq<Bucket>, p: UsageKey -> bool): nat {
    if ds == [] then 0
    else SumDeltas(id, ds[..|ds| - 1], p) + if p(KeyFor(id, ds[|ds| - 1])) then ds[|ds| - 1].seconds else 0
  }

  /** Accumulating adds to every selection of keys exactly the deltas it selects. */
  lemma {:induction false} AddAllSum(t: UsageTable, id: string, ds: seq<Bucket>, p: UsageKey -> bool)
    ensures SumWhere(AddAll(t, id, ds), p) == SumWhere(t, p) + SumDeltas(id, ds, p)
  {
    hide Rfc3339.Format, Rfc3339.Stampable, Rfc3339.Parse;
    if ds != [] {
      var before := AddAll(t, id, ds[..|ds| - 1]);
      var k := KeyFor(id, ds[|ds| - 1]);
      AddAllSum(t, id, ds[..|ds| - 1], p);
      SumPut(before, p, k, (if k in before then before[k] else 0) + ds[|ds| - 1].seconds);
      SumAbsent(before, p, k);
    }
  }

  lemma {:induction false} AddAllKeys(t: UsageTable, id: string, ds: seq<Bucket>, k: UsageKey)
    ensures k in AddAll(t, id, ds) <==> k in t || exists b :: b in ds && k == KeyFor(id, b)
  {
    hide KeyFor;
    if ds != [] {
      var front, last := ds[..|ds| - 1], ds[|ds| - 1];
      AddAllKeys(t, id, front, k);
      assert ds == front + [last];
      assert forall b :: b in ds <==> b in front || b == last;
    }
  }

  // ---------- Reading back ----------

  /** A row of ListStates. */
  datatype ListedState = ListedState(id: string, identity: Identity, row: StateRow)

  /** Every registered device that has reported, once. */
  ghost predicate ListsStates(out: seq<ListedState>, db: Db) {
    && (forall i, j | 0 <= i < j < |out| :: out[i].id != out[j].id)
    && (forall x :: x in out <==>
          x.id in db.devices && x.id in db.states
          && x.identity == db.devices[x.id] && ReadState(db, x.id) == Ok(x.row))
  }

  /** What GetState makes of the tables. A registered device that never
      reported is a row of zero values, not an error. */
  function ReadState(db: Db, id: string): Result<StateRow, StoreError> {
    if id !in db.devices then Err(DeviceNotFound)
    else if id !in db.states then Ok(StateRow(NO_ACTIVITY, ZERO_TIME, ZERO_TIME))
    else
      var s := db.states[id];
      if s.payload.None? then Err(BadPayload)
      else
        match (Rfc3339.Parse(s.reportedAt), Rfc3339.Parse(s.lastSeenAt))
        case (Some(r), Some(l)) => Ok(StateRow(s.payload.value, r, l))
        case _ => Err(BadStamp)
  }

  function PutState(db: Db, id: string, a: Activity, reportedAt: int, seenAt: int): Db {
    db.(states := db.states[id := StateRecord(Some(a), Rfc3339.Format(reportedAt), Rfc3339.Format(seenAt))])
  }

  /** A stored report comes back with whole-second instants, or not at all when
      one of its instants has no four-digit UTC year. */
  lemma PutThenRead(db: Db, id: string, a: Activity, reportedAt: int, seenAt: int)
    requires id in db.devices
    ensures ReadState(PutState(db, id, a, reportedAt, seenAt), id) ==
            if Rfc3339.Stampable(reportedAt) && Rfc3339.Stampable(seenAt)
            then Ok(StateRow(a, Truncate(reportedAt, SECOND), Truncate(seenAt, SECOND)))
            else Err(BadStamp)
  {
    hide Rfc3339.Parse, Rfc3339.Format, Rfc3339.Stampable, Truncate;
    Rfc3339.ParseFormat(reportedAt);
    Rfc3339.ParseFormat(seenAt);
  }

  /** The buckets whose hour text lies in [from, to), compared as text. */
  function Selected(t: UsageTable, from: int, to: int): UsageTable {
    map k | k in t && Text.AtMost(Rfc3339.Format(from), k.hourStart)
                   && Text.Less(k.hourStart, Rfc3339.Format(to)) :: t[k]
  }

  /** On readable hours the text range is the time range. */
  lemma SelectedIsTimeRange(t: UsageTable, from: int, to: int, k: UsageKey, hourStart: int)
    requires Rfc3339.Stampable(from) && Rfc3339.Stampable(to)
    requires Rfc3339.Parse(k.hourStart) == Some(hourStart)
    ensures k in Selected(t, from, to) <==> k in t && Floor(from) <= Floor(hourStart) < Floor(to)
  {
    hide Rfc3339.Format, Rfc3339.Stampable, Rfc3339.Parse;
    Rfc3339.FormatParse(k.hourStart);
    Rfc3339.FormatRange(from, hourStart, to);
  }

  predicate RowFor(k: UsageKey, seconds: nat, r: Row) {
    && r.device == k.device && r.state == k.state && r.app == k.app && r.description == k.description
    && Rfc3339.Parse(k.hourStart) == Some(r.hourStart) && r.seconds == seconds
  }

  ghost predicate Listing(rows: seq<Row>, keys: seq<UsageKey>, m: UsageTable) {
    && |rows| == |keys|
    && (forall k :: k in keys <==> k in m)
    && (forall i, j | 0 <= i < j < |keys| :: keys[i] != keys[j])
    && (forall i | 0 <= i < |keys| :: RowFor(keys[i], m[keys[i]], rows[i]))
  }

  /** `rows` lists every bucket of `m` exactly once. */
  ghost predicate Enumerates(rows: seq<Row>, m: UsageTable) {
    exists keys :: Listing(rows, keys, m)
  }

  function SumRows(rows: seq<Row>, q: Row -> bool): nat {
    if rows == [] then 0
    else SumRows(rows[..|rows| - 1], q) + if q(rows[|rows| - 1]) then rows[|rows| - 1].seconds else 0
  }

  lemma ListingWithoutLast(rows: seq<Row>, keys: seq<UsageKey>, m: UsageTable)
    requires Listing(rows, keys, m) && rows != []
    ensures var n := |rows| - 1;
            keys[n] in m && rows[n].seconds == m[keys[n]] && Listing(rows[..n], keys[..n], m - {keys[n]})
  {
    hide Rfc3339.Parse;
    var n := |rows| - 1;
    var k, rest := keys[n], keys[..n];
    assert k in keys;
    forall j ensures j in rest <==> j in m - {k} {
      if j in m - {k} {
        assert j in keys;
        var i :| 0 <= i < |keys| && keys[i] == j;
        assert rest[i] == j;
      }
      if j in rest { assert j in keys; }
    }
    forall i | 0 <= i < n ensures RowFor(rest[i], (m - {k})[rest[i]], rows[..n][i]) {
      assert rest[i] in rest;
      assert RowFor(keys[i], m[keys[i]], rows[i]);
    }
  }

  lemma {:induction false} SumListing(rows: seq<Row>, keys: seq<UsageKey>, m: UsageTable, q: Row -> bool,
                                      p: UsageKey -> bool)
    requires Listing(rows, keys, m)
    requires forall i | 0 <= i < |rows| :: q(rows[i]) == p(keys[i])
    ensures SumRows(rows, q) == SumWhere(m, p)
    decreases |rows|
  {
    hide RowFor;
    if rows == [] {
      assert forall k :: k in m ==> k in keys;
      assert m == map[];
    } else {
      var n := |rows| - 1;
      assert |keys| == |rows|;
      hide Listing;
      ListingWithoutLast(rows, keys, m);
      SumListing(rows[..n], keys[..n], m - {keys[n]}, q, p);
      SumWithout(m, p, keys[n]);
    }
  }

  /** Summing the listed rows is summing the buckets they list. */
  lemma SumEnumerated(rows: seq<Row>, m: UsageTable, q: Row -> bool, p: UsageKey -> bool)
    requires Enumerates(rows, m)
    requires forall k, r | k in m && RowFor(k, m[k], r) :: q(r) == p(k)
    ensures SumRows(rows, q) == SumWhere(m, p)
  {
    var keys :| Listing(rows, keys, m);
    forall i | 0 <= i < |rows| ensures q(rows[i]) == p(keys[i]) {
      assert keys[i] in keys;
      assert RowFor(keys[i], m[keys[i]], rows[i]);
    }
    SumListing(rows, keys, m, q, p);
  }

  // ---------- The store ----------

  class Store {
    var devices: Devices
    var states: map<string, StateRecord>
    var usage: UsageTable

    function Contents(): Db
      reads this
    {
      Db(devices, states, usage)
    }

    constructor (registered: Devices)
      ensures Contents() == Db(registered, map[], map[])
    {
      devices, states, usage := registered, map[], map[];
    }

    /** `fails` stands for any database error; the statement then has no effect. */
    method UpsertState(id: string, a: Activity, reportedAt: int, seenAt: int, fails: bool) returns (ok: bool)
      modifies this
      ensures ok == !fails
      ensures Contents() == if ok then PutState(old(Contents()), id, a, reportedAt, seenAt) else old(Contents())
    {
      if fails {
        return false;
      }
      states := states[id := StateRecord(Some(a), Rfc3339.Format(reportedAt), Rfc3339.Format(seenAt))];
      return true;
    }

    method GetState(id: string, fails: bool) returns (r: Result<StateRow, StoreError>)
      ensures r == if fails then Err(Unavailable) else ReadState(Contents(), id)
    {
      if fails {
        return Err(Unavailable);
      }
      if id !in devices {
        return Err(DeviceNotFound);
      }
      if id !in states {
        return Ok(StateRow(NO_ACTIVITY, ZERO_TIME, ZERO_TIME));
      }
      if states[id].payload.None? {
        return Err(BadPayload);
      }
      var reported := Rfc3339.Parse(states[id].reportedAt);
      if reported.None? {
        return Err(BadStamp);
      }
      var seen := Rfc3339.Parse(states[id].lastSeenAt);
      if seen.None? {
        return Err(BadStamp);
      }
      return Ok(StateRow(states[id].payload.value, reported.value, seen.value));
    }

    /** One unreadable row fails the whole listing. */
    method ListStates() returns (r: Result<seq<ListedState>, StoreError>)
      ensures r.Ok? <==> forall d | d in states && d in devices :: ReadState(Contents(), d).Ok?
      ensures r.Ok? ==> ListsStates(r.value, Contents())
    {
      hide ReadState;
      var out: seq<ListedState> := [];
      var left := states.Keys;
      while left != {}
        invariant left <= states.Keys
        invariant forall i, j | 0 <= i < j < |out| :: out[i].id != out[j].id
        invariant forall d | d in states && d !in left && d in devices :: ReadState(Contents(), d).Ok?
        invariant forall x :: x in out <==>
                    x.id in devices && x.id in states && x.id !in left
                    && x.identity == devices[x.id] && ReadState(Contents(), x.id) == Ok(x.row)
        decreases left
      {
        var d :| d in left;
        left := left - {d};
        if d in devices {
          var row := GetState(d, false);
          if row.Err? {
            return Err(row.error);
          }
          forall i | 0 <= i < |out| ensures out[i].id != d { assert out[i] in out; }
          out := out + [ListedState(d, devices[d], row.value)];
        }
      }
      return Ok(out);
    }

    /** One transaction: either every delta is added or none is. */
    method AddUsage(id: string, deltas: seq<Bucket>, fails: bool) returns (ok: bool)
      modifies this
      ensures ok == (deltas == [] || !fails)
      ensures Contents() == old(Contents()).(usage := if ok then AddAll(old(usage), id, deltas) else old(usage))
    {
      hide Rfc3339.Format, Rfc3339.Stampable, Rfc3339.Parse;
      if deltas == [] {
        return true;
      }
      var tx := usage;
      for i := 0 to |deltas|
        invariant tx == AddAll(old(usage), id, deltas[..i])
        invariant unchanged(this)
      {
        var k := KeyFor(id, deltas[i]);
        assert deltas[..i + 1][..i] == deltas[..i];
        tx := tx[k := (if k in tx then tx[k] else 0) + deltas[i].seconds];
      }
      assert deltas[..|deltas|] == deltas;
      if fails {
        return false;
      }
      usage := tx;
      return true;
    }

    /** Every bucket of the range once, in no particular order. */
    method QueryUsage(from: int, to: int) returns (r: Result<seq<Row>, StoreError>)
      ensures r.Ok? <==> forall k | k in Selected(usage, from, to) :: Rfc3339.Parse(k.hourStart).Some?
      ensures r.Ok? ==> Enumerates(r.value, Selected(usage, from, to))
    {
      hide Rfc3339.Format, Rfc3339.Stampable, Rfc3339.Parse;
      var lo, hi := Rfc3339.Format(from), Rfc3339.Format(to);
      var rows: seq<Row> := [];
      ghost var keys: seq<UsageKey> := [];
      ghost var sel := Selected(usage, from, to);
      var left := usage.Keys;
      while left != {}
        invariant left <= usage.Keys
        invariant |rows| == |keys|
        invariant forall k :: k in keys <==> k in sel && k !in left
        invariant forall i, j | 0 <= i < j < |keys| :: keys[i] != keys[j]
        invariant forall i | 0 <= i < |keys| :: keys[i] in sel && RowFor(keys[i], sel[keys[i]], rows[i])
        decreases |left|
      {
        var k :| k in left;
        left := left - {k};
        if Text.AtMost(lo, k.hourStart) && Text.Less(k.hourStart, hi) {
          assert k in sel;
          var hour := Rfc3339.Parse(k.hourStart);
          if hour.None? {
            return Err(BadStamp);
          }
          rows := rows + [Row(k.device, hour.value, k.state, k.app, k.description, usage[k])];
          keys := keys + [k];
        }
      }
      assert Listing(rows, keys, sel);
      forall k | k in sel ensures Rfc3339.Parse(k.hourStart).Some? {
        assert k in keys;
        var i :| 0 <= i < |keys| && keys[i] == k;
        assert RowFor(keys[i], sel[keys[i]], rows[i]);
      }
      return Ok(rows);
    }

    /** Deletes the buckets before the cutoff and reports how many there were. */
    method PruneUsage(before: int) returns (n: nat)
      modifies this
      ensures usage == map k | k in old(usage) && !Text.Less(k.hourStart, Rfc3339.Format(before)) :: old(usage)[k]
      ensures n == |old(usage)| - |usage|
      ensures states == old(states) && devices == old(devices)
    {
      hide Rfc3339.Format, Text.Less;
      var cutoff := Rfc3339.Format(before);
      var doomed := set k | k in usage && Text.Less(k.hourStart, cutoff);
      n := |doomed|;
      usage := usage - doomed;
    }
  }

  /** On readable hours pruning keeps exactly the hours from the cutoff on. */
  lemma PruneKeepsRecent(before: int, hour: string, hourStart: int)
    requires Rfc3339.Stampable(before) && Rfc3339.Parse(hour) == Some(hourStart)
    ensures Text.Less(hour, Rfc3339.Format(before)) <==> Floor(hourStart) < Floor(before)
  {
    hide Rfc3339.Format, Rfc3339.Stampable, Rfc3339.Parse;
    Rfc3339.FormatParse(hour);
    Rfc3339.FormatOrder(hourStart, before);
  }
}
