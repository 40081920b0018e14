# Verified model of cyberstalk-me

cyberstalk-me shows, on a public page, what its owner's devices are doing. An
agent on each device reports the foreground activity every few seconds; a server
keeps the latest state, adds up screen time in hourly buckets, streams changes to
browsers and tells when a device has gone silent. This project models the parts of
both programs where correctness is not visible in one function, and proves what
they promise. `dafny verify dfyconfig.toml` checks all of it.

## How it is organised

**Screen time, end to end (server).** `Attribution` is the hour-splitting loop,
`Store` the tables with their RFC 3339 text keys, `Handlers` the order of steps of
a report. `Accounting` folds those steps over any run of reports and any pattern of
failing database calls, and proves a ledger: what the buckets hold is the sum of
the credited intervals. `Timeline` turns the ledger into a labelling of whole
seconds by activities. `Aggregate`, `RowMaps`, `Ranking`, `Zones` and
`Conservation` are the way back out: totals, rankings and chart slots.
`UsageReport.ScreenTime` joins both ends: every number a visitor sees is a count of
labelled seconds. `Rfc3339`, `Clock`, `Sums` and `UsageTypes` carry the calendar,
int64 durations, sums over tables and the shared types.

**Hub and tracker (server).** `HubProtocol` and `TrackerProtocol` are transition
systems with one step per lock region or channel operation; their theorems hold for
every interleaving. `TrackerSilence` follows a device that stops reporting, and
`TrackerEvents` says what the events of a device tell about its status. `Hub` and
`Tracker` are the classes; each method is proved to be a run of the protocol.

**Discovery catalog (agent).** `CatalogSpec` says what the two-level bounded
recency structure must hold in terms of the observation history alone; `Catalog` is
the structure. `Recency` has the move-to-front laws both rest on.

**Catalog stream.** `Sse` has the writer, the incremental reader, and what any
split, cut or failure does to a stream; `CatalogStream` puts a live catalog behind it.

**Smaller cores (agent).** `Backoff` (the waits of the report loop), `Mapping` (the
privacy boundary) with `RuleEditor` (the edits the setup page offers), and
`Durations` (printing and reading back).

`Text` and `Wrappers` are shared helpers.

## Assumptions

- Reports of one device are handled one after the other; time is nanoseconds.
- `Timeline` needs a server clock that does not go back (`Monotone`) and no report
  credited again after a failed state write (`Clean`). Both are conditions on the
  run; `Accounting.DisjointIffClean` shows the second one is exact.
- Failing database calls are parameters of each report (`Faults`), so every theorem
  about runs is about every pattern of failures.
- The catalog is compared with its history while its clock moves strictly forward;
  its counters need no such condition.
- The report interval is positive, as `client-windows/internal/config/config.go:263-264` demands.
- A local time zone is three functions: the local date and clock of an instant, and
  the instant the library answers for a local date and clock. The charts of 7 and 30
  days are modelled where the day loop ends (`Zones.Terminates`); `Zones.Regular` says
  that no midnight of the window is skipped.

## Where the code differs from what is written about it

- `server/internal/api/handlers.go:110-120`: adding usage and overwriting the state are two
  transactions. When the second fails after the first succeeded, the interval is
  credited again by the next report (`Timeline.FailedUpsertCountsTwice`), although
  `server/internal/store/store.go:328-330` asks for each interval exactly once. Buckets are free of double
  counting if and only if this never happens.
- `server/internal/api/handlers.go:147-148` says only the server clock is used. A `reported_at` that is
  outside years 0 to 9999 once converted to UTC is stored but cannot be read back,
  and then nothing is credited until the next report is stored. A report that is due by
  the server's clock is credited if and only if the stored `reported_at` is readable
  (`Timeline.CreditedIffReportedAtReadable`).
- `server/internal/usage/aggregate.go:190-191` steps from midnight to midnight so that a clock change
  cannot skip or repeat a date. West of UTC, where a change of clocks skips a midnight,
  the loop never ends (`Zones.SkippedMidnightNeverEnds`). `Zones.TerminatesIff` is
  the exact condition for any zone, and `Zones.OneShiftRegularIff` says exactly which
  changes of clocks leave all midnights of a window in place.
- `server/internal/store/store.go:381-383` says the lexical order of stamps is chronological.
  From the first stamp on this holds exactly up to year 9999 (`Rfc3339.OrderHoldsIff`).
- `server/internal/usage/usage.go:54-56` bounds the rounding error by one second per report. It is one
  second per run (`Timeline.NoDrift`).
- `server/internal/hub/hub.go:53-54` says a closed channel counts as not ready and is removed. Sending
  on one panics; it cannot happen as long as no closed channel is subscribed again
  (`HubProtocol.SubscribeNeedsOpen`).
- The last event of a device need not match its status: a report can land between
  the scan's listing and the broadcast. An offline event is stale if and only if a
  recent report of the device was stored since the listing
  (`TrackerEvents.OfflineIsStaleIff`); where no report lands inside a scan the last
  event is right (`TrackerEvents.LastEventIsRight`).
- `client-windows/webui/src/lib/rules.ts:145-148` says the page compares names as the agent does. ECMAScript does
  not trim U+0085 and Go does; `RuleEditor.EditorPreservesAcceptance` is the exact
  condition under which edits keep a draft acceptable.
- `client-windows/internal/config/config.go:127-130` reads a bare integer as seconds; above 9223372036 it wraps
  (`Durations.BareSecondsIff`).

## Model

| member | source | states |
|---|---|---|
| Attribution.StateOf | server/internal/usage/usage.go:32-47 | Locked beats idle, idle beats active. |
| Attribution.Attribute | server/internal/usage/usage.go:63-94 | Something is credited if and only if the whole-second length is positive and at most the gap (a gap of the largest int64 turns nothing away); then one bucket per UTC hour touched, in order, each holding exactly the seconds of the interval in that hour, under the observed activity. |
| Attribution.PiecesPartition | server/internal/usage/usage.go:73-93 | The pieces partition the interval: every second lies in the hour of exactly one piece, none is empty or longer than an hour, and together they last as long as the interval. |
| Accounting.PiecesAreSeconds | server/internal/usage/usage.go:49-56 | Over any set of bucket keys, the pieces of an interval add up to the number of its seconds whose key is in the set: splitting loses and invents nothing. |
| Rfc3339.ParseFormat | server/internal/store/store.go:178 | Reading a stamp back gives the instant cut to whole seconds, exactly when its UTC year has four digits; any other stamp cannot be read. |
| Rfc3339.DateTable | server/internal/store/store.go:178 | The valid dates and times, month by month: 31, 28 or 29, 31, 30 and so on, with the Gregorian leap years. |
| Rfc3339.NextSecond | server/internal/store/store.go:178 | Where the calendar starts (1 January of year 1) and what every next second is called: the carries of seconds, minutes, hours, days, months and years. |
| Rfc3339.StampLayout | server/internal/store/store.go:178 | The twenty characters of a stamp, digit by digit and separator by separator. |
| Rfc3339.StampOfZero | server/internal/store/store.go:178 | The zero time is printed as 0001-01-01T00:00:00Z. |
| Rfc3339.StampableIff | server/internal/store/store.go:235-242 | The readable instants are one interval: years 0 to 9999. |
| Rfc3339.FormatOrder | server/internal/store/store.go:381-383 | Lexical order of two stamps is chronological order of their whole seconds, both ways (sections 5.1 and 5.6 of RFC 3339). |
| Rfc3339.FormatParse | server/internal/store/store.go:402-405 | A text that can be read is the stamp of exactly the second it denotes. |
| Rfc3339.FormatInjective | server/internal/store/store.go:357-358 | A stamp of a four-digit year is printed for its own whole second only. |
| Rfc3339.FormatRange | server/internal/store/store.go:384-390 | A half-open range of stamps is exactly the half-open range of time. |
| Rfc3339.OrderHoldsIff | server/internal/store/store.go:381-383 | Among all instants from the first stamp up to a given one, lexical order is chronological order if and only if that instant lies before year 10000. |
| Rfc3339.FormatOrderNeedsFourDigits | server/internal/store/store.go:381-383 | Some later instant sorts first: the witness for the failing half. |
| Store.Store.UpsertState | server/internal/store/store.go:170-183 | Overwrites the one row of the device and nothing else; a failing call changes nothing. |
| Store.Store.GetState | server/internal/store/store.go:206-246 | Unknown device, device without reports (zero row, no error), undecodable payload, unreadable stamp and readable row, each as the code tells them apart. |
| Store.PutThenRead | server/internal/store/store.go:170-246 | What was written is read back cut to whole seconds, or not at all when either stamp is out of range. |
| Store.Store.ListStates | server/internal/store/store.go:251-288 | Every registered device that has reported, once; fails as a whole if any row is unreadable. |
| Store.Store.AddUsage | server/internal/store/store.go:335-366 | All deltas are added in one step or none; no deltas never fails. |
| Store.AddAllSum | server/internal/store/store.go:346-361 | Over any set of keys the table grows by exactly the deltas with those keys, however often a key repeats. |
| Store.AddAllKeys | server/internal/store/store.go:346-361 | A key exists afterwards if it did before or a delta has it. |
| Store.Store.QueryUsage | server/internal/store/store.go:384-413 | Returns every bucket whose key is in the text range, once, with its seconds; fails if a key cannot be read. |
| Store.SelectedIsTimeRange | server/internal/store/store.go:381-390 | The text range selects exactly the buckets whose hour lies in the time range. |
| Store.SumEnumerated | server/internal/store/store.go:396-408 | Sums over the returned rows are sums over the selected buckets, in any order of rows. |
| Store.Store.PruneUsage | server/internal/store/store.go:417-429 | Removes exactly the buckets with an earlier key, reports how many, and leaves states and devices alone. |
| Store.PruneKeepsRecent | server/internal/store/store.go:415-420 | A bucket is pruned if and only if its hour is before the limit. |
| Handlers.Handlers.AttributeUsage | server/internal/api/handlers.go:149-178 | Whatever fails, the usage table changes by exactly the credit due to the stored observation, and the state is untouched. |
| Handlers.Handlers.Report | server/internal/api/handlers.go:85-141 | One report is one `Accounting.Step`, stamped with the server's time when it brings none: 401 for an unknown device, which changes nothing, 500 when the overwrite fails, 204 otherwise; credit first, overwrite second, known and broadcast only if the overwrite succeeded, and usage failures never show in the status. |
| Accounting.CreditFromState | server/internal/api/handlers.go:106-120 | The credit computed from the stored row is the credit the history of the device calls for. |
| Accounting.StateMirrorsHistory | server/internal/api/handlers.go:106-120 | After any run with any failures, the stored observation of a device is its last report that was stored. |
| Accounting.Ledger | server/internal/api/handlers.go:143-178 | After any run of reports of any devices with any failures, the buckets of a device, over any set of keys, hold the sum of its credited intervals. |
| Accounting.DisjointIffClean | server/internal/api/handlers.go:114-120 | On a clock that does not go back, no second is credited twice if and only if no report is credited while something was credited since the last stored report. |
| Accounting.LedgerIsTimeline | server/internal/api/handlers.go:106-120 | Then the ledger counts the seconds of a timeline that gives each second at most one activity. |
| Timeline.BucketsCountSeconds | server/internal/api/handlers.go:106-120 | After every such run the buckets over any set of keys equal the number of seconds the timeline labels with those keys. |
| Timeline.BucketIsTimeline | server/internal/store/store.go:335-366 | Each single bucket equals the number of seconds of its hour that carry its state, app and description; absent means none. |
| Timeline.ReportAdds | server/internal/api/handlers.go:106-178 | After any run, one more report adds, over any set of keys of its device, the seconds since the last stored report of the device under the activity of that report, when they are positive and within the gap, nothing failed and the stored row is readable; otherwise the usage table does not change. |
| Timeline.HourCap | server/internal/usage/usage.go:49-62 | The buckets of one device and hour never exceed 3600 seconds. |
| Timeline.TotalPlusMissed | server/internal/api/handlers.go:143-178 | With failing reads and additions, the grand total plus exactly the intervals that failed or were too long is the whole-second span of the run. |
| Timeline.NoDrift | server/internal/usage/usage.go:54-56 | A run without gaps and failures totals the difference of the floors, within one second of real time over the whole run. |
| Timeline.FailedUpsertCountsTwice | server/internal/api/handlers.go:114-120 | When overwriting the state fails after usage was added, the next report credits the interval again and the total exceeds the time that passed. |
| Timeline.FailedUpsertExample | server/internal/api/handlers.go:114-120 | Concrete reports where more is booked than has elapsed. |
| Timeline.UnreadableReportedAt | server/internal/api/handlers.go:147-153 | A stored client time that cannot be read back blocks crediting, although only the server clock should matter. |
| Timeline.CreditedIffReportedAtReadable | server/internal/api/handlers.go:147-178 | After any run, a report that is due by the server's clock is credited if and only if the stored client time has a four-digit UTC year. |
| Timeline.UnreadableReportedAtExample | server/internal/api/handlers.go:147-178 | A client clock one second into year 10000 loses ten seconds that a readable one would have been credited. |
| HubProtocol.ChannelSafety | server/internal/hub/hub.go:43-74 | In every interleaving no step sends on or closes a closed channel, and a channel that was ever subscribed is registered if and only if it is open. |
| HubProtocol.GapFreeDelivery | server/internal/api/handlers.go:289-320 | What a subscriber received plus what it has buffered is a contiguous slice of the broadcast log from its subscription on, up to the end while it is registered. |
| HubProtocol.CutOffIsFinal | server/internal/hub/hub.go:58-68 | Once cut off a subscriber gets nothing more, and keeps a gap-free prefix. |
| HubProtocol.BroadcastNeverWaits | server/internal/hub/hub.go:53-70 | Whatever the buffers hold, a broadcast always has a next step of its own, and each brings it nearer its end. |
| HubProtocol.SubscribeNeedsOpen | server/internal/hub/hub.go:31-39 | Subscribing a closed channel makes the next send panic, subscribing an open one keeps the invariant. |
| HubProtocol.UnsubscribeIdempotent | server/internal/hub/hub.go:41-51 | A second unsubscribe changes nothing. |
| Hub.Hub.Subscribe | server/internal/hub/hub.go:31-39 | One subscribe step of the protocol: the channel is registered, and no channel, event or other subscriber changes. |
| Hub.Hub.Unsubscribe | server/internal/hub/hub.go:43-51 | One unsubscribe step of the protocol, which never panics: a registered channel is removed and closed, the others stay as they are. |
| Hub.Hub.Broadcast | server/internal/hub/hub.go:55-74 | Every subscriber with room gets the event in its buffer and stays; one without a buffer is served exactly when its receiver waits; a full one, and one nobody waits at, is closed and removed; no other channel changes; and the whole is a run of the protocol. |
| TrackerProtocol.OfflineAlternates | server/internal/state/state.go:96-148 | In every interleaving of reports with the steps of scans, insertions into known = offline events sent + pending + (1 if known), and insertions and removals alternate. |
| TrackerSilence.SilentDeviceConverges | server/internal/state/state.go:96-140 | Once a device is silent past the threshold, the first complete scan emits one offline event if and only if it was known, and no later scan emits another. |
| TrackerProtocol.ScanSettles | server/internal/state/state.go:102-135 | An undisturbed scan leaves known, on listed devices, equal to the ones last seen at most the threshold ago, and reports offline, once, exactly the known ones seen longer ago. |
| TrackerEvents.OfflineIsStaleIff | server/internal/state/state.go:97-139 | For every interleaving since a listing, while an offline event of a device waits to be broadcast: the store says the device is online if and only if a report of it was stored since the listing and the last one is recent. |
| TrackerEvents.JudgedStaleIff | server/internal/state/state.go:97-127 | The row being judged is what the store held at the listing; so a known device judged stale is online, by the scan's clock, if and only if its last report since then is recent. |
| TrackerEvents.LastEventIsRight | server/internal/state/state.go:96-148 | In every run in which no report of the device lands inside a scan, its last event at rest is update exactly when it is known, offline or none otherwise, and an offline is true. |
| TrackerEvents.StaleOffline | server/internal/state/state.go:97-118 | Why that condition is needed: a report landing between listing and judging is followed by a stale offline event; the next scan repairs known but sends no event. |
| Tracker.Tracker.MarkOnline | server/internal/state/state.go:142-148 | Adds the device, nothing else. |
| Tracker.Tracker.ScanOnce | server/internal/state/state.go:96-140 | A failed listing changes nothing; otherwise a listed device is known afterwards if and only if it was last seen at most the threshold ago, the known ones seen longer ago are broadcast offline once, nothing else is broadcast and unlisted devices stay as they were. |
| Tracker.ScanIsRun | server/internal/state/state.go:96-140 | A whole scan is a run of the protocol's atomic steps. |
| Zones.VisitsEveryDate | server/internal/usage/aggregate.go:190-196 | While no midnight of the window is skipped, the day loop visits consecutive dates, each once, and stops after the last that begins before the end. |
| Zones.TerminatesIff | server/internal/usage/aggregate.go:190-196 | In any zone whose turns never cross, however far they go, the day loop ends if and only if every turn from a date of the window goes forward. |
| Zones.RegularTerminates | server/internal/usage/aggregate.go:190-196 | In particular the loop ends on every window in which no midnight is skipped. |
| Zones.OneShiftRegularIff | server/internal/usage/aggregate.go:190-204 | With one change of clocks, either way and at any offset, no midnight of a window is skipped if and only if the change touches none of them. |
| Zones.SkippedMidnightNeverEnds | server/internal/usage/aggregate.go:190-204 | West of UTC, when a change of clocks skips a midnight, no window that begins on that day or earlier and ends later is ever finished. |
| Zones.SkippedMidnightEastIsFine | server/internal/usage/aggregate.go:190-204 | East of UTC a gap that begins at midnight leaves every window regular. |
| Zones.FixedIsRegular | server/internal/usage/aggregate.go:64-66 | Zones of constant offset, UTC among them, skip no midnight. |
| Ranking.SortedUnique | server/internal/usage/aggregate.go:136-149 | A strictly sorted sequence is determined by its elements, so neither sort algorithm nor map order can show. |
| Ranking.SortBySorts | server/internal/usage/aggregate.go:136-149 | Sorting distinct comparable elements gives their strictly sorted sequence. |
| RowMaps.BySum | server/internal/usage/aggregate.go:97-115 | Grouping rows by a name loses no seconds. |
| RowMaps.ByPermuted | server/internal/usage/aggregate.go:97-115 | The groups do not depend on the order of the rows. |
| Aggregate.RankActivities | server/internal/usage/aggregate.go:130-141 | The total of the map and its one ranking: more seconds first, then the alphabetically earlier description. |
| Aggregate.RankApps | server/internal/usage/aggregate.go:127-151 | The one ranking of the apps with their totals and ranked activities: more seconds first, then the alphabetically earlier name. |
| Aggregate.RankedAppsUnique | server/internal/usage/aggregate.go:125-151 | There is only one such ranking. |
| Text.LessAt | server/internal/usage/aggregate.go:136-149 | Two names are ordered by the first character in which they differ, and a name that is the beginning of another comes first. |
| Aggregate.SumAndTop | server/internal/usage/aggregate.go:206-228 | The total and the alphabetically first app with the most seconds, empty when there is no usage. |
| Aggregate.TopUnique | server/internal/usage/aggregate.go:206-208 | There is only one such app. |
| Aggregate.Totalise | server/internal/usage/aggregate.go:95-115 | The three totals by state, and active seconds grouped by app and description. |
| Aggregate.HourlySlots | server/internal/usage/aggregate.go:153-173 | 24 slots; slot h has the active seconds of the rows whose local clock reads from h:00 up to h+1:00, and their top app. |
| Aggregate.DaySlots | server/internal/usage/aggregate.go:175-198 | Where the loop ends: one slot for each of its midnights, in order, with the active seconds and top app of that date. |
| Aggregate.DailyIsDates | server/internal/usage/aggregate.go:175-198 | Where no midnight is skipped these are exactly the local dates meeting the window, each once and in order. |
| Aggregate.AggregateDevice | server/internal/usage/aggregate.go:89-123 | Totals, ranking and the chart of the window for one device. |
| Aggregate.Aggregate | server/internal/usage/aggregate.go:63-87 | The devices by id, each with its own rows; rows of other devices are ignored. |
| Conservation.SecondsConserved | server/internal/usage/aggregate.go:89-123 | Active total = sum over apps = sum over activities = sum of the chart slots; the three totals together are all rows of the device. |
| Conservation.DailyHoldsActive | server/internal/usage/aggregate.go:177-198 | Every row of the window falls on exactly one listed date. |
| Conservation.DeviceUsageCanonical | server/internal/usage/aggregate.go:89-123 | Any two answers for permuted rows are equal. |
| Conservation.ResponseCanonical | server/internal/usage/aggregate.go:63-87 | So is the whole response, for any order of devices and rows. |
| Conservation.DayCount | server/internal/api/handlers.go:199-204 | The chart lists exactly the 7 or 30 days ending today, one fewer only at the very instant of midnight. |
| UsageReport.Usage | server/internal/api/handlers.go:186-245 | Unknown window, unreadable data and success, each as the code answers; on success 1, 7 or 30 local days for "today" (or nothing), "7d" and "30d", with the hourly chart for one day only, and the reporting devices in alphabetical order of id with the aggregated rows. |
| UsageReport.QueriedRowsInWindow | server/internal/api/handlers.go:224-242 | The rows handed to the aggregation lie in the window. |
| UsageReport.ScreenTime | server/internal/api/handlers.go:186-245 | From reports to page: each total, app, activity, hour slot and day slot shows the number of labelled seconds that are locked, idle or active, have that app and description, and whose hour has that local clock or date, among the hours of the window; no app with seconds is missing; and the top app of a slot is the one with the most such seconds, the alphabetically first on a tie. |
| UsageReport.SelectionShown | server/internal/api/handlers.go:224-242 | The same for any selection of the rows of a device. |
| Recency.TakeMoveToFront | client-windows/internal/setup/catalog.go:152-172 | Cutting before a move to front does not change what is kept after it. |
| CatalogSpec.SampledTitles | client-windows/internal/setup/catalog.go:154-172 | Remembering a title keeps the newest distinct titles, at most as many as allowed. |
| CatalogSpec.EvictionKeepsRecent | client-windows/internal/setup/catalog.go:174-190 | Dropping the least recently seen apps leaves exactly the most recent distinct processes. |
| CatalogSpec.ObserveAgrees | client-windows/internal/setup/catalog.go:124-150 | One observation keeps the table in agreement with the history: which apps, when first and last seen, how often, and their newest distinct titles since they were last taken in. |
| CatalogSpec.LockAgrees | client-windows/internal/setup/catalog.go:132-136 | The lock screen changes nothing in the table. |
| CatalogSpec.ConfigurableIff | client-windows/internal/setup/catalog.go:246-248 | A rule may be written for a name if and only if it contains none of ? * < > | " / and backslash. |
| Catalog.Catalog.constructor | client-windows/internal/setup/catalog.go:98-116 | An empty catalog; bounds that are not positive become 20 titles and 256 apps. |
| Catalog.App.AddSample | client-windows/internal/setup/catalog.go:154-172 | A known title moves to the front with one more sighting and the time of this one, keeping when it was first seen; a new one is put in front with one sighting, and the oldest dropped when there are too many; the others stay as they were. |
| Catalog.Catalog.EvictApps | client-windows/internal/setup/catalog.go:176-190 | Exactly the surplus is dropped, and nothing kept was seen before anything dropped. |
| Catalog.Catalog.Observe | client-windows/internal/setup/catalog.go:124-150 | The history grows by the observation, the counters follow it, the least recently seen surplus goes, and the table stays in agreement with the history while the clock moves forward. |
| Catalog.Catalog.TakeSnapshot | client-windows/internal/setup/catalog.go:194-218 | A copy of every app and of the counters, most recently seen first and then by name; on a clock that moves forward these are exactly the most recent processes. |
| Catalog.SnapshotIsRecent | client-windows/internal/setup/catalog.go:209-216 | Sorting an agreeing table by time gives the order of the specification. |
| Catalog.Catalog.TitlesOf | client-windows/internal/setup/catalog.go:222-236 | On a clock that moves forward, the newest distinct titles of a process since it was last taken in, or none. |
| Sse.ParseConcat | client-windows/webui/src/lib/api.ts:140-164 | Reading a text in two parts gives what reading it at once gives. |
| Sse.ChunksDoNotMatter | client-windows/webui/src/lib/api.ts:140-164 | So does any split into reads. |
| Sse.Reader.Feed | client-windows/webui/src/lib/api.ts:142-164 | After every read, the callback has had exactly the decodable payloads of the complete frames received so far, and the buffer holds the rest. |
| Sse.WireFormat | client-windows/internal/setup/server.go:571-583 | A payload is written as "data: ", itself and an empty line; a frame is read as what follows "data: ", and one without that prefix or with nothing behind it says nothing. |
| Sse.FrameArrivesIff | client-windows/internal/setup/server.go:571-583 | A payload survives its frame if and only if it is not empty, has no blank line and does not end in a newline. |
| Sse.ArrivedFrames | client-windows/webui/src/lib/api.ts:147-163 | At every moment the payloads emitted are those of the frames that have arrived whole, in order. |
| Sse.Send | client-windows/internal/setup/server.go:571-583 | A whole frame, or as much of it as the connection takes before it fails. |
| Sse.HandleCatalog | client-windows/internal/setup/server.go:585-612 | The connection gets the frames of the first snapshot and of each one with a new counter, cut where it fails. |
| Sse.LastSentIsCurrent | client-windows/internal/setup/server.go:600-608 | For snapshots taken from one run of a catalog, the last one sent is the current one after every tick. |
| CatalogSpec.CounterDetermines | client-windows/internal/setup/catalog.go:70-71 | Within one run, snapshots with equal counters are equal. |
| CatalogStream.Watch | client-windows/internal/setup/server.go:585-608 | What the handler sees of a live catalog, with any readings in between, are snapshots of one run. |
| CatalogStream.Stream | client-windows/internal/setup/server.go:585-612 | So the stream of a live catalog ends with the catalog as it is at the last tick. |
| Sse.SentChanges | client-windows/internal/setup/server.go:600-608 | No two snapshots in a row carry the same counter. |
| Sse.StreamArrives | client-windows/webui/src/lib/api.ts:140-164 | However much of a stream arrives and however it is split, the page hears exactly the snapshots that arrived whole, in order. |
| Backoff.Run | client-windows/internal/report/loop.go:57-97 | For every sequence of outcomes and every positive int64 interval, each wait is its closed form, and follows from the one before: a success waits I, a permanent failure max(I, 2 min), a retryable failure I when it is the first, max(I, 2 min) after a permanent one, and otherwise twice the wait before, between I and 2 min. |
| Backoff.DoublesOnce | client-windows/internal/report/loop.go:113-124 | Doubling in int64 is doubling between the bounds, also where it wraps. |
| Backoff.WrappedDoubling | client-windows/internal/report/loop.go:115-124 | A doubling that does wrap leaves the agent at its interval instead of speeding it up. |
| Backoff.StaysCapped | client-windows/internal/report/loop.go:126-133 | The period after a permanent failure is a fixed point. |
| Backoff.WaitBounds | client-windows/internal/report/loop.go:113-114 | No wait is below the interval or above the larger of interval and bound. |
| Backoff.WaitsGrow | client-windows/internal/report/loop.go:39-42 | Until the next success the waits never get shorter. |
| Backoff.BoundReached | client-windows/internal/report/loop.go:12-14 | Thirty-eight failures in a row reach the bound, whatever the interval. |
| Backoff.DefaultWaits | client-windows/internal/report/loop.go:39-42 | The waits of the documented example. |
| Mapping.New | client-windows/internal/mapping/mapping.go:94-139 | Accepts if and only if names are non-empty and distinct, patterns compile and exposed names have rules; otherwise reports the first fault, everything before it being right; the mapper indexes the rules by name. |
| Mapping.Resolve | client-windows/internal/mapping/mapping.go:147-205 | The index answers as a scan of the rule list (what that is, `Mapping.ResolvesWithoutRule` and `Mapping.RuleResolves` say), and the title is read at most once, and only where `Mapping.NeedsTitleIff` says. |
| Mapping.ResolvesWithoutRule | client-windows/internal/mapping/mapping.go:147-174 | Idle seconds are never negative, and idle means at least the threshold; no process is the locked screen with its app, description and flag; a process without a rule gets both defaults. |
| Mapping.RuleResolves | client-windows/internal/mapping/mapping.go:167-197 | A process with a rule gets its app; an exposed one its trimmed title, or the rule's description when that is blank; any other the description of the first pattern that matches, or the rule's when none does. |
| Mapping.NeedsTitleIff | client-windows/internal/mapping/mapping.go:167-197 | The title is read if and only if the process has a rule that is exposed or has patterns. |
| Text.NormalizeIff | client-windows/internal/mapping/mapping.go:207-211 | Two process names are one rule if and only if, trimmed, they agree letter by letter in either ASCII case. |
| Mapping.LookUpFinds | client-windows/internal/mapping/mapping.go:167-174 | A scan finds a rule exactly when one has the name. |
| Mapping.TitleStaysHere | client-windows/internal/mapping/mapping.go:141-146 | The title of a process that is not exposed is never reported: the description is one the configuration spells out. |
| Mapping.TitleIndistinguishable | client-windows/internal/mapping/mapping.go:187-195 | Titles no pattern tells apart are reported alike. |
| RuleEditor.RemoveRuleIff | client-windows/webui/src/lib/rules.ts:35-51 | Removing a rule keeps a draft acceptable if and only if the page recognises every exposed name the agent takes for it. |
| RuleEditor.RemoveRuleExample | client-windows/webui/src/lib/rules.ts:145-152 | A draft whose removal of a rule the agent refuses. |
| RuleEditor.SetExposeTitleIff | client-windows/webui/src/lib/rules.ts:121-124 | Exposing is acceptable if and only if the name has a rule; withdrawing always is. |
| RuleEditor.PageTrims | client-windows/webui/src/lib/rules.ts:145-152 | The page compares names without the ECMAScript white space around them and in lower case. |
| RuleEditor.RemovingEffect | client-windows/webui/src/lib/rules.ts:42-51 | Removing a rule takes out that rule and the exposed names the page takes for it, and nothing else. |
| RuleEditor.PatternEffect | client-windows/webui/src/lib/rules.ts:73-108 | Removing a pattern takes out that pattern of that rule; moving one puts it at its new place and shifts the ones in between by one; nothing else changes, and out of range nothing does. |
| RuleEditor.ExposingEffect | client-windows/webui/src/lib/rules.ts:121-124 | Ticking the box leaves the rule's own spelling of its name exposed and clearing it none of its spellings; nothing else changes. |
| RuleEditor.EditKeeps | client-windows/webui/src/lib/rules.ts:42-124 | Every edit keeps an acceptable draft acceptable and the names in agreement. |
| RuleEditor.EditorPreservesAcceptance | client-windows/webui/src/lib/rules.ts:42-124 | An accepted draft stays accepted under every sequence of edits if and only if page and agent agree on its exposed names. |
| RuleEditor.MovePatternBack | client-windows/webui/src/lib/rules.ts:90-108 | Moving a pattern there and back changes nothing, in range or not. |
| RuleEditor.MoveDecides | client-windows/webui/src/lib/rules.ts:82-108 | What a move does to a title, exactly: it decides between the moved pattern and the first match it jumps over, only when both match and nothing before them does. |
| RuleEditor.MoveKeepsUnambiguous | client-windows/webui/src/lib/rules.ts:82-108 | A title that at most one pattern matches is reported the same after any move. |
| RuleEditor.RemoveRuleResolvesIff | client-windows/webui/src/lib/rules.ts:42-51 | The removed process is reported by the defaults and every other as before, for all titles, if and only if the page withdraws no exposure that the agent takes for another process. |
| RuleEditor.DuplicateProcesses | client-windows/webui/src/lib/rules.ts:133-143 | Exactly the non-empty names more than one rule claims. |
| Durations.DurationRoundTrip | client-windows/internal/config/save.go:172-185 | Every positive whole-second int64 duration is read back as printed, also between white space. |
| Durations.FormatIsShortest | client-windows/internal/config/save.go:168-180 | The printed form is a number of hours, minutes or seconds that is the duration, and no other such spelling is shorter. |
| Durations.SpelledIsTotal | client-windows/internal/config/config.go:121-131 | Numbers with units (ns, us in its three spellings, ms, s, m, h) one after the other, as in 1m30s, are read as their sum in nanoseconds, negated after a minus sign. |
| Durations.FormatDistinct | client-windows/internal/config/save.go:172-185 | Two such durations are never printed alike. |
| Durations.BareSeconds | client-windows/internal/config/config.go:121-131 | A bare integer is its seconds in int64, wrapped where they do not fit. |
| Durations.BareSecondsIff | client-windows/internal/config/config.go:127-130 | It is read as seconds exactly from -9223372036 to 9223372036. |
| Durations.BareSecondsExample | client-windows/internal/config/config.go:127-130 | A large bare number is read as less than a third of a second. |

## Left out

- SQL text, indexes, pragmas and real transactions: the tables are maps, and a call succeeds or fails as a whole. The ORDER BY of the queries is not modelled, because the aggregation is proved not to depend on it.
- UsageReport.ScreenTime: a second is shown when its hour begins in the window, as the buckets have it, also where the window begins inside an hour.
- Store.Store.GetState: battery and network fields of a report are not modelled; a stored text either decodes or does not.
- Rfc3339.FormatParse: covers the UTC spelling the store writes; other spellings `time.Parse` accepts (offsets, fractions of a second) are never stored.
- Aggregate.DaySlots: a method that does not return has no contract here, so the windows on which the loop runs for ever are covered by `Zones.TerminatesIff` alone; Aggregate.Aggregate and UsageReport.Usage inherit this.
- Zones.VisitsEveryDate: does not cover clocks that fall back across midnight inside the window, where a date begins twice.
- Zones.TerminatesIff: zones in which a later date's turn lands before an earlier date's are not characterised.
- Conservation.DayCount: dates are day numbers; printing them as text is not part of this model.
- Accounting.Ledger: runs are reports on a fixed set of devices; registering and pruning are not interleaved with them.
- Handlers.Handlers.Report: authentication, decoding and the checks of required fields come before the modelled steps.
- Hub.Hub.Broadcast: which subscribers wait at an unbuffered channel is a parameter; the debug counters read outside the lock are not part of this model.
- Stream's own writing to the browser: the consumer is the receive step of the protocol.
- Catalog.App.AddSample: titles are a sequence in a field; that Go's slices share memory with an earlier snapshot is not captured (the code copies them for that reason).
- Catalog.Catalog.EvictApps: Go leaves the order of equal times open; the model breaks ties by name, and its contract holds for any order.
- Sorting: the library's sort is an insertion sort here; `Ranking.SortedUnique` shows it makes no difference.
- Text.Normalize: lower-casing outside ASCII; white space is the full Unicode set of Go, and of ECMAScript in `RuleEditor`.
- Sse.Reader.Feed: bytes split inside a character are the text decoder's job; payload encoding and decoding are parameters, assumed inverse only where stated.
- Sse.HandleCatalog: cancellation ends the stream between ticks, which is a shorter list of snapshots; flushing and the page's liveness timer are not part of this model.
- Backoff.Run: the report's content, sending it and cancellation; a run is the outcomes up to where it stops.
- Mapping.New: regular expressions are two uninterpreted predicates; error messages are reasons instead of texts.
- RuleEditor.EditKeeps: adding and rewriting rules or patterns can make a draft unacceptable and is not claimed to keep it.
- Durations.DurationRoundTrip: durations below a second or not positive are printed by Go's library; numbers with a fraction are rejected by the model's parser instead of being read.
- The retention loop around `PruneUsage`, the snapshot handler, static files, tokens, configuration files, the Windows collector and the React components: wiring, foreign calls and user interface.
