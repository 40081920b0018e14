// server/internal/api/handlers.go: the report handler, step by step.
module Handlers {
  import opened Wrappers
  import opened Clock
  import opened UsageTypes
  import Attribution
  import Store
  import Accounting
  import TrackerProtocol
  import Tracker
  import HubProtocol

  const NO_CONTENT := 204
  const UNAUTHORIZED := 401
  const INTERNAL_ERROR := 500

  /** A report without a client time is stamped with the server's. */
  function EffectiveReportedAt(reportedAt: int, seenAt: int): int {
    if reportedAt == ZERO_TIME then seenAt else reportedAt
  }

  lemma TurnedAway(db: Store.Db, r: Accounting.Report, maxGap: int)
    requires r.device !in db.devices
    ensures Accounting.Step(db, r, maxGap) == db
  {}

  class Handlers {
    const store: Store.Store
    const tracker: Tracker.Tracker
    const maxGap: int

    constructor (store: Store.Store, tracker: Tracker.Tracker, maxGap: int)
      ensures this.store == store && this.tracker == tracker && this.maxGap == maxGap
    {
      this.store := store;
      this.tracker := tracker;
      this.maxGap := maxGap;
    }

    /** Credits the time since the previous report; no failure reaches the caller. */
    method AttributeUsage(id: string, ghost r: Accounting.Report, seenAt: int, faults: Accounting.Faults)
      requires id in store.devices && r.device == id && r.seenAt == seenAt && r.faults == faults
      modifies store
      ensures store.Contents() ==
              old(store.Contents()).(usage := Accounting.Book(old(store.usage), id,
                                                              Accounting.CreditOf(old(store.Contents()), r, maxGap)))
    {
      var prev := store.GetState(id, faults.get);
      hide Store.ReadState, Floor, Attribution.HourPieces, Store.AddAll, Sub;
      if prev.Err? {
        return;
      }
      if prev.value.lastSeenAt == ZERO_TIME {
        return;
      }
      var buckets := Attribution.Attribute(prev.value.activity, prev.value.lastSeenAt, seenAt, maxGap);
      if |buckets| == 0 {
        return;
      }
      var ok := store.AddUsage(id, buckets, faults.add);
    }

    /** The database steps: credit first, then overwrite. */
    method StoreReport(id: string, activity: Activity, reportedAt: int, seenAt: int, faults: Accounting.Faults)
      returns (stored: bool)
      requires id in store.devices
      modifies store
      ensures stored == !faults.upsert
      ensures store.Contents() ==
              Accounting.Step(old(store.Contents()),
                              Accounting.Report(id, activity, reportedAt, seenAt, faults), maxGap)
    {
      hide Accounting.CreditOf, Accounting.Book, Store.PutState;
      AttributeUsage(id, Accounting.Report(id, activity, reportedAt, seenAt, faults), seenAt, faults);
      stored := store.UpsertState(id, activity, reportedAt, seenAt, faults.upsert);
    }

    /** The last two steps of an accepted report. */
    method MarkAndAnnounce(id: string, waiting: set<HubProtocol.ChanId>)
      requires tracker.hub.Valid()
      modifies tracker, tracker.hub
      ensures tracker.known == old(tracker.known) + {id}
      ensures tracker.hub.Valid() && tracker.hub.log == old(tracker.hub.log) + [TrackerProtocol.Update(id)]
    {
      tracker.MarkOnline(id);
      tracker.hub.Broadcast(TrackerProtocol.Update(id), waiting);
    }

    /** One authenticated report. `waiting` are the subscribers blocked in a receive. */
    method Report(id: string, activity: Activity, reportedAt: int, seenAt: int,
                  faults: Accounting.Faults, waiting: set<HubProtocol.ChanId>) returns (status: int)
      requires tracker.hub.Valid()
      modifies store, tracker, tracker.hub
      ensures status == if id !in old(store.devices) then 401 else if faults.upsert then 500 else 204
      ensures id !in old(store.devices) ==> store.Contents() == old(store.Contents())
      ensures store.Contents() ==
              Accounting.Step(old(store.Contents()),
                Accounting.Report(id, activity, if reportedAt == ZERO_TIME then seenAt else reportedAt, seenAt, faults),
                maxGap)
      ensures tracker.known == if status == NO_CONTENT then old(tracker.known) + {id} else old(tracker.known)
      ensures tracker.hub.Valid()
      ensures tracker.hub.log ==
              old(tracker.hub.log) + if status == NO_CONTENT then [TrackerProtocol.Update(id)] else []
    {
      hide HubProtocol.Inv, Accounting.Step;
      if id !in store.devices {
        TurnedAway(store.Contents(),
                   Accounting.Report(id, activity, EffectiveReportedAt(reportedAt, seenAt), seenAt, faults), maxGap);
        return UNAUTHORIZED;
      }
      var stored := StoreReport(id, activity, EffectiveReportedAt(reportedAt, seenAt), seenAt, faults);
      if !stored {
        return INTERNAL_ERROR;
      }
      MarkAndAnnounce(id, waiting);
      return NO_CONTENT;
    }
  }
}
