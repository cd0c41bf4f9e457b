# Verification of rustspell

A model in Dafny of the stateful core of the spell-check server: the usage rollup, the store with
its caches and tables, the failed-authentication limiter, CIDR networks, the engine registry, the
tokenizer, the two spell-check endpoints and the billing gates around them. `dafny verify
dfyconfig.toml` checks everything.

## How it is laid out

| files | what they model |
|---|---|
| `CivilDate`, `DayText`, `UsageWindow`, `UsageRetention` | day numbers, calendar dates, their text, query windows and the retention purge (`src/usage.rs`) |
| `Histogram`, `Percentiles`, `LatencyTrends` | latency buckets, interpolated percentiles, aggregation (`src/usage.rs`) |
| `MapSums`, `UsageRecorder`, `UsageFlow`, `UsageQuery` | the in-memory buffer, additive flushes, and conservation over interleaved runs (`src/usage.rs`, `src/store.rs`, `src/main.rs`) |
| `StoreRows`, `KeyStore`, `TenantStore`, `OriginStore`, `DictionaryStore` | records, rows and each table with its cache, as functions (`src/store.rs`) |
| `StoreMachine`, `Store` | the store as a state machine, and the class whose methods are its steps |
| `KeyLifecycle`, `QuotaFlow` | keys with a second process on the same table; quota at the grain of its locks |
| `RateLimiting`, `Cidr`, `ClientIp` | `src/auth.rs`, `src/config.rs` |
| `EngineRegistry`, `Tokenizer`, `Spellcheck` | `src/engine.rs`, `src/handlers.rs` |
| `Billing`, `Vetting`, `Gates` | the layers around the spell-check routes, as a concurrent state machine and as methods on a live store |

Code that updates state in place is a class (`Recorder`, `Tables`, `Store`, `RateLimiter`,
`EngineRegistry`) or a method with a loop; each is proved to compute a function, and the promises
are proved about that function. Concurrency is modelled as state machines whose steps are critical
sections and database statements; `Leads` says that a list of steps leads from one state to another,
and main results hold for every such list.

## Where the code and its documentation disagree

The model follows the code.

- Undated latency aggregation is described as adding up a histogram over days (`src/usage.rs:311-312`);
  the code lists equal bounds of different days side by side and `percentile` then interpolates inside
  the first of them. `FlatAgreesExactly` says exactly when the two meet, `FlatAggregateCanDiffer` gives two days for
  which they do not, and `SplitNeverLowers` and `SplitKeepsBucket` bound the difference.
- `tokenize` means to skip a run of nothing but punctuation (`src/engine.rs:84`), but stripping slices
  past the end of such a run first and panics. `TokensAreRuns` says exactly when; `LoneCommaPanics` is
  an example. Both endpoints inherit it, and a request that panics there has used quota and is not
  recorded: that is the aborted term of `ConsumedIsRecorded`.
- Token offsets are documented as preserving positions; they are those of the whole run, leading
  punctuation included, as the tests also expect (`src/engine.rs:284-291`).
- `try_consume_quota` is documented never to overcount after a crash (`src/store.rs:645-647`). That
  holds without count patches (`PersistedNeverAhead`); across a reset it holds exactly when the row and
  every write on its way carry at most the new count (`CountPatchIsSafe`), and `ResetCanBeOvertaken` is
  a reset for which they do not.
- `authenticate` is documented to honour any change made outside the process (`src/store.rs:430-433`).
  A rotation elsewhere is honoured once its new value is used (`NoWayBack`), and until then the old value
  works on (`RotatedElsewhere`); a revocation elsewhere is not noticed for a cached key until a restart
  (`RevokedElsewhere`).
- Times from 2^63 on wrap to negative columns and read back as none (`src/store.rs:291-292`), although
  the comment above the decoders takes every written time to be non-negative.
- Days are compared as text because `YYYY-MM-DD` sorts by date (`src/usage.rs:410-413`). Past the year
  9999 it does not (`TextOrderIsDayOrder` is exact), and a billing period that ends there, which nothing
  refuses, then selects the wrong days (`PeriodWindowSelects`, `LongPeriodSelectsNothingRecent`).
- A chain of trusted proxies only is said to give its rightmost address (`src/auth.rs:83-87`); the code
  falls back to the peer (`ClientExactly`).
- `parse_day` accepts a plus sign in each number, so its text is not always restored.

## Model

| member | source | states |
|---|---|---|
| `CivilDate.DateOfDayIsValid` | src/usage.rs:426-438 | For every integer day number the computed month and day form a real Gregorian calendar date |
| `CivilDate.EpochDate` | src/usage.rs:426-438 | Day 0 is 1970-01-01 |
| `CivilDate.DateOfNextDay` | src/usage.rs:426-478 | Day d+1 is the calendar successor of day d by month lengths and leap years, before and after the epoch |
| `CivilDate.DateOfDayCountsDays` | src/usage.rs:426-438 | The closed form equals counting one calendar day at a time from 1970-01-01, forwards and backwards |
| `CivilDate.DayOfDateOfDay` | src/usage.rs:426-464 | As year/month/day triples, parsing's arithmetic undoes formatting's for every integer day |
| `CivilDate.DateOfDayOfDate` | src/usage.rs:426-464 | As triples, formatting's arithmetic undoes parsing's for every valid date of any year |
| `CivilDate.DayOfDateIsOffset` | src/usage.rs:457-463 | The day number of a valid date is its offset in a calendar of March-based years, era truncation included |
| `CivilDate.DayOfDateKeepsOrder` | src/usage.rs:457-463 | Later dates have larger day numbers |
| `CivilDate.DateOfDayOrder` | src/usage.rs:426-438 | Day numbers and their dates are in the same order |
| `DayText.ParseFormatDay` | src/usage.rs:426-464 | `parse_day(format_day(d))` is `Some(d)` exactly when the year of d fits four places (-999 to 9999), else `None` |
| `DayText.FormatParseDay` | src/usage.rs:442-464 | `format_day` restores an accepted text exactly when it has no plus sign and no negative zero year |
| `DayText.PlusSignIsLost` | src/usage.rs:447-449 | A concrete accepted text that is not restored: `1970-+1-01` |
| `DayText.FormatDayOrder` | src/usage.rs:410-438 | In years 0 to 9999 the byte order of the texts is the order of the days |
| `DayText.FourDigitsMeansYear` | src/usage.rs:426-438 | The days of years 0 to 9999 are exactly those from -719528 to 2932896 |
| `DayText.LongYearOrder` | src/usage.rs:410-413 | Against a year past 9999 a four-digit year sorts first exactly when it is at most the first four digits of the longer one |
| `DayText.FormatDayOrderAny` | src/usage.rs:410-413 | How the text of a day of years 0 to 9999 compares with that of any day at all, negative and long years included |
| `DayText.TextOrderIsDayOrder` | src/usage.rs:410-413 | Text order is day order exactly when the other year is at most 9999 or its first four digits are not below this one |
| `DayText.ParsedYearFits` | src/usage.rs:442-464 | An accepted text has a year of at most four places |
| `UsageWindow.InRangeIsDayRange` | src/store.rs:941-943 | The text range of the usage queries selects exactly the days between its ends |
| `UsageWindow.ExplicitWindow` | src/usage.rs:358-380 | An explicit window is accepted exactly when both dates parse, are in order and lie fewer than 90 days apart; it holds the canonical texts of the same days, which are the given ones exactly when those are canonical |
| `UsageWindow.InRangeExactly` | src/store.rs:941-943 | Which days of years 0 to 9999 the text range selects, from and to any days at all |
| `UsageWindow.DefaultWindow` | src/usage.rs:392 | Without dates or billing period the window selects exactly the last thirty days |
| `UsageWindow.PeriodWindowSelects` | src/usage.rs:388-391 | Which days of years 0 to 9999 the window of a billing period selects, for every pair of times |
| `UsageWindow.PeriodWindowCoversPeriod` | src/usage.rs:388-391 | It selects the day of a moment in the period exactly when the period ends by 9999 or the moment's year is at most the first four digits of the end's |
| `UsageWindow.LongPeriodSelectsNothingRecent` | src/usage.rs:388-391 | So a period that ends in the year 10000 selects nothing after the year 1000 |
| `UsageWindow.DayOfMeaning` | src/usage.rs:388-391 | A time below 2^63 is on the day its second lies in; a later one counts as negative and rounds toward day 0 |
| `UsageWindow.WindowErrors` | src/usage.rs:352-385 | Which error each refused pair of ends reports, a half-open pair first |
| `UsageWindow.PurgeIsDayOrder` | src/store.rs:976-990 | The purge's text comparison removes exactly the days of years 0 to 9999 more than 90 days before the day it runs, for any day it runs up to 90 days past 9999-12-31 |
| `UsageWindow.PurgeSparesWindow` | src/usage.rs:370-407 | A purge run on or before day T never removes a day of years 0 to 9999 inside an accepted explicit window that ends on T or later |
| `UsageRetention.PurgeTick` | src/main.rs:155-168 | After a purge on a day, a row of any day of years 0 to 9999 is still there exactly when its day is at most 90 days before, for every day up to 90 days past 9999-12-31, and by the text order beyond; no row selected by an accepted window that ends that day or later goes, and no value changes |
| `UsageRetention.PurgeStep` | src/main.rs:155-168 | The same for the purge step of the interleaved runs |
| `Histogram.BucketForMeaning` | src/usage.rs:149-156 | A latency's bucket is the least ladder bound that is not below it, or the overflow bucket above the last |
| `Histogram.HistogramCounts` | src/usage.rs:149-156 | Counts up to a ladder bound equal the number of latencies up to it |
| `Histogram.HistogramTotal` | src/usage.rs:149-156 | A histogram's total is the number of latencies |
| `Histogram.KthSmallestExists` | src/usage.rs:158-164 | Every multiset of latencies has a k-th smallest for each k in range |
| `Histogram.KthSmallestIsUnique` | src/usage.rs:158-164 | There is only one k-th smallest latency |
| `Percentiles.Percentile` | src/usage.rs:165-208 | The loop with its running count and lower bound computes the recursive walk, empty histogram included |
| `Percentiles.PercentileBracketsOrderStatistic` | src/usage.rs:165-208 | For any latencies and q in (0,1], with k the ceiling of q times their number, the percentile lies between the previous listed bound and the bound of the bucket of the k-th smallest; it is exactly 1000 when that latency is in overflow |
| `Percentiles.PercentileInLadderBucket` | src/usage.rs:165-208 | With all ten bounds listed the percentile lies in the ladder bucket of that latency itself |
| `Percentiles.QuantileMonotone` | src/usage.rs:165-208 | With non-negative counts and bounds up to 1000 the percentile grows with q, stays at most 1000 and is `None` exactly when the total is zero |
| `Percentiles.QuantileFormula` | src/usage.rs:165-208 | On distinct bounds it is the integer nearest to the point that divides the crossing bucket in the proportion of the rank q times the total |
| `Percentiles.SplitNeverLowers` | src/usage.rs:313-340 | Repeated entries for a bound, as flat aggregation over days lists them, never lower the percentile of the merged histogram |
| `Percentiles.SplitKeepsBucket` | src/usage.rs:313-340 | Split and merged histogram report from the same bucket |
| `Percentiles.UnsplitAgrees` | src/usage.rs:313-340 | They agree when each bound appears once |
| `Percentiles.SplitQuantileFormula` | src/usage.rs:165-208 | On any histogram, bounds repeated or not, the report is the integer nearest to the point inside the first entry of the crossing bound if that entry alone reaches the rank q times the total, else to the bound itself |
| `Percentiles.SplitAgreesExactly` | src/usage.rs:313-340 | For every split and its merge: both reports in closed form; the interpolated points are equal exactly when the crossing bucket has no width, its first entry holds all of it, or the rank is its last place, and then the reports are too |
| `Percentiles.SplitCrossesOrOverflows` | src/usage.rs:313-340 | For every q in (0,1] either that theorem applies or the rank is in overflow and both reports are 1000 |
| `LatencyTrends.SortDates` | src/usage.rs:323-324 | The group dates come out strictly ascending, each once, the undated group first |
| `LatencyTrends.AscendingMeaning` | src/usage.rs:323-324 | In that order only the first date can be the undated one, and each text is below every later one |
| `LatencyTrends.GroupRows` | src/usage.rs:314-321 | Grouping keeps every row, in order, in the group of its date |
| `LatencyTrends.PushGroup` | src/usage.rs:329-337 | A group reports p50, p95 and p99, each when there is one |
| `LatencyTrends.AggregateLatency` | src/usage.rs:313-340 | The output is the groups' percentiles in date order |
| `LatencyTrends.GroupPercentilesAscend` | src/usage.rs:329-337 | A group reports either nothing or p50 <= p95 <= p99 |
| `LatencyTrends.ReportLayout` | src/usage.rs:326-339 | The report lists, date by date in order, p50, p95 and p99 of that date's group, the percentiles at 0.50, 0.95 and 0.99 |
| `LatencyTrends.FlatGroupIsEveryRow` | src/usage.rs:315-321 | Undated, one group holds every row as listed, equal bounds of different days side by side |
| `LatencyTrends.FlatAgreesExactly` | src/usage.rs:313-340 | An undated aggregate of query rows interpolates to the point of the summed histogram exactly when a single row carries the crossing bound or the rank is the last place of its bucket |
| `LatencyTrends.FlatAggregateCanDiffer` | src/usage.rs:313-340 | An input that fails: two days of fifty requests up to 10 ms report p50 as 10, summed they report 5 |
| `UsageRecorder.Recorder.AddToDaily` | src/usage.rs:110-123 | The first critical section adds one request and its microseconds under the event's day, tenant, language, status and slug, and changes no other key |
| `UsageRecorder.Recorder.AddToLatency` | src/usage.rs:125-132 | The second adds one under the event's day, tenant and the ladder bucket of its whole milliseconds, and changes no other key |
| `UsageRecorder.EventBucket` | src/usage.rs:125-156 | An event is counted in the bucket of the least ladder bound that its whole milliseconds do not exceed, in overflow from 1001 ms on |
| `UsageRecorder.Recorder.Record` | src/usage.rs:100-133 | Recording updates both maps by one event |
| `UsageRecorder.Recorder.Drain` | src/usage.rs:137-145 | Draining empties both maps and lists what they held, each entry once, in any order |
| `UsageRecorder.Tables.FlushUsage` | src/store.rs:836-883 | A committed flush upserts every entry additively into both tables; a refused one changes nothing |
| `UsageRecorder.Tables.PurgeUsageBefore` | src/store.rs:976-990 | Exactly the rows whose day does not sort below the cutoff stay, with their values, in both tables; the number removed is returned |
| `UsageRecorder.FlushedBufferIsMerged` | src/store.rs:836-883 | Flushing a drained buffer adds it to the tables key by key, in whatever order it was listed |
| `UsageFlow.StepConservesDaily` | src/usage.rs:100-145 | No record, drain, flush, failed flush, purge or crash creates or loses a request count |
| `UsageFlow.StepConservesLatency` | src/usage.rs:100-145 | Nor a latency count, those between their two locks included |
| `UsageFlow.RunsConserve` | src/main.rs:140-151 | So over every run from any state, for every additive way of counting |
| `UsageFlow.EveryRunConserves` | src/main.rs:140-151 | Over every interleaving at lock granularity and any number of server lifetimes, everything recorded is in the table, buffered, half drained, in flight, lost with a failed batch or a killed server, or purged, exactly once; a latency may also wait for its second lock |
| `UsageFlow.QuietTableIsTheLog` | src/store.rs:836-883 | Once everything is flushed, each daily key that no lost batch and no purge held has exactly the recorded requests and microseconds in the table |
| `UsageFlow.QuietBucketIsTheLog` | src/store.rs:836-883 | The same for each latency bucket |
| `UsageFlow.TablesNeverOvercount` | src/main.rs:140-168 | In every reachable state, purges, failures and crashes included, each table holds at most what was recorded |
| `UsageFlow.TotalsDifferByOpenRecords` | src/usage.rs:110-132 | In every reachable state a day and tenant's daily and latency totals, with what was lost or purged of them, differ by exactly the records between their two locks; the live totals alone do while nothing of that day was lost or purged |
| `UsageQuery.QueryUsageLatency` | src/store.rs:935-973 | The query returns one row for each day and bucket present in the window and scope, with the summed count |
| `UsageQuery.TenantSeesOwnEntries` | src/store.rs:935-973 | A tenant's query is exactly the platform's query of that tenant's own entries |
| `UsageQuery.RowSumsAreTableSums` | src/store.rs:935-973 | Summing rows is summing the table rows in window and scope |
| `UsageQuery.GroupIsHistogramOfRecorded` | src/usage.rs:313-340 | Every output group is a histogram of exactly the latencies recorded for that scope, window and date |
| `UsageQuery.ReportedPercentileBracketsRecorded` | src/usage.rs:313-340 | End to end: the percentile reported for a window lies in the bucket of the true order statistic of the recorded latencies |
| `StoreRows.TimeRoundTrip` | src/store.rs:1133-1135 | An optional time survives the signed column exactly when it is below 2^63; otherwise it reads back as none |
| `StoreRows.KeyRoundTrip` | src/store.rs:1116-1137 | A key record survives the database exactly when its optional times are below 2^63 and its tenant id is not empty |
| `StoreRows.TenantRoundTrip` | src/store.rs:1139-1158 | A tenant survives exactly when its optional times are below 2^63; any quota limit survives |
| `StoreRows.OriginRoundTrip` | src/store.rs:1160-1168 | An origin always survives |
| `StoreRows.DictionaryRoundTrip` | src/store.rs:1170-1177 | A dictionary always survives |
| `KeyStore.ReloadKeys` | src/store.rs:187-205 | Reloading builds one cache entry for each row, under its hash, in whatever order the rows arrive |
| `KeyStore.CreateMatches` | src/store.rs:271-313 | Creating a key keeps table and cache in agreement |
| `KeyStore.RevokeMatches` | src/store.rs:327-355 | So does revoking, the first revocation time kept on both sides |
| `KeyStore.RotateMatches` | src/store.rs:358-428 | So does rotating |
| `KeyStore.ResetMatches` | src/store.rs:380-409 | So does resetting the bootstrap key, in all three outcomes |
| `KeyStore.AuthenticateMatches` | src/store.rs:434-457 | So does authenticating, when it replaces cached hashes of the id |
| `KeyStore.TouchMatches` | src/store.rs:479-493 | So does the synchronous half of a use time |
| `KeyStore.LandTouchMatches` | src/store.rs:495-507 | So does its deferred write |
| `KeyStore.ReloadMatches` | src/store.rs:187-205 | A freshly reloaded cache agrees with its table |
| `KeyStore.RestartKeepsKeys` | src/store.rs:187-205 | Reloading gives back the running key cache, use times aside, exactly when every cached expiry and revocation time is below 2^63 and no tenant id is empty |
| `KeyStore.RotationReplacesValue` | src/store.rs:358-428 | After a rotation the new value authenticates as the same key, the old one does not; another tenant's key is left alone |
| `KeyStore.CreatedKeyAuthenticates` | src/store.rs:271-313 | A created key authenticates, with the tenant, role and expiry it was created with, exactly until the second it expires at |
| `KeyStore.AuthenticatesExactly` | src/store.rs:434-457 | A hash authenticates exactly when it is cached for a key neither revoked nor expired or some row has it and says neither; the record returned has that hash and is neither; no other key's cache entry changes |
| `KeyStore.RevokesExactly` | src/store.rs:327-355 | A revocation finds exactly the tenant's own cached key of that id, revokes it and its row unless they were, and touches nothing of another tenant or key |
| `KeyStore.RotatesExactly` | src/store.rs:412-428 | A rotation moves exactly the tenant's own key of that id to the new value, its use forgotten, in cache and row, and touches nothing else |
| `KeyStore.ResetsExactly` | src/store.rs:380-409 | A reset counts the platform keys titled bootstrap that have no tenant and are neither revoked nor expired: it creates one, rotates the only one, or reports how many and changes nothing |
| `KeyStore.ResetGivesAWorkingKey` | src/store.rs:380-409 | Whenever a reset succeeds the value it returns authenticates at once as a platform key and a rotated one's old value no longer does; it fails exactly when several keys could be meant |
| `KeyLifecycle.CacheIsIndexedByHash` | src/store.rs:434-457 | In every reachable state, other processes and restarts included, each cached record sits under its own hash and no id has two |
| `KeyLifecycle.RunsKeepInv` | src/store.rs:327-457 | Every run of this server, restarts and another process keeps that agreement |
| `KeyLifecycle.RevokedForever` | src/store.rs:327-355 | Once a revocation here has succeeded no hash ever authenticates as that key again, not after rotations or revocations here or elsewhere nor after a restart |
| `KeyLifecycle.ExpiredForever` | src/store.rs:64-68 | A key created to expire at e authenticates under no hash from e on, whatever this or another process does in between, restarts included; before e what authenticates as it still expires at e |
| `KeyLifecycle.LaterHashIsYounger` | src/store.rs:434-457 | Along any run the hashes that authenticate as one key only get younger |
| `KeyLifecycle.RevokedElsewhere` | src/store.rs:434-457 | After a revocation by another process a hash still authenticates as that key exactly when it is cached for it and active; after a restart none ever does |
| `KeyLifecycle.RotatedElsewhere` | src/store.rs:434-457 | After a rotation by another process the new value authenticates if its row is active, and any other hash does as that key exactly when it is cached for it and active, until a restart |
| `KeyLifecycle.NoWayBack` | src/store.rs:451-455 | Once a rotated value has authenticated, the value before it never does again |
| `KeyLifecycle.ResetElsewhere` | src/cli.rs:14-37 | The reset run by a second process is one of the two outside steps of the machine, or nothing |
| `TenantStore.ReloadTenants` | src/store.rs:207-220 | Reloading builds one cache entry for each tenant row |
| `TenantStore.UpdateMatches` | src/store.rs:570-624 | A patch keeps table and cache in agreement |
| `TenantStore.SuspendMatches` | src/store.rs:664-680 | So does suspending |
| `TenantStore.ConsumeMatches` | src/store.rs:632-643 | So does consuming quota |
| `TenantStore.CreateMatches` | src/store.rs:512-552 | So does creating a tenant |
| `TenantStore.WriteCountMatches` | src/store.rs:649-659 | So does the deferred write of a count |
| `TenantStore.RestartKeepsTenants` | src/store.rs:207-220 | Reloading gives back the running tenants, counts aside, exactly when every optional time is below 2^63 |
| `TenantStore.RefusedUpdateIsUndone` | src/store.rs:582-621 | If the database refuses a patch the cache already has, table and cache still agree exactly when the patch changed nothing stored but the count |
| `OriginStore.ReloadOrigins` | src/store.rs:222-236 | Reloading builds the index and the set of origins that match the table |
| `OriginStore.RegisterMatches` | src/store.rs:684-718 | Registering keeps table, index and set in agreement |
| `OriginStore.RevokeMatches` | src/store.rs:731-761 | So does revoking, also when several tenants share the origin |
| `OriginStore.RevokeIsPrecise` | src/store.rs:731-761 | Revoking one registration changes that one answer, and the global set drops the origin exactly when nobody else owns it |
| `OriginStore.MatchesAgree` | src/store.rs:222-236 | Whatever matches the table answers every lookup alike |
| `DictionaryStore.ReloadDictionaries` | src/store.rs:238-245 | Reloading builds one entry for each dictionary row |
| `DictionaryStore.RegisterMatches` | src/store.rs:783-813 | Registering keeps table and cache equal |
| `DictionaryStore.RegisterKeepsCreation` | src/store.rs:790-797 | Registering again replaces the URL and keeps the first creation time |
| `StoreMachine.EmptyIsGood` | src/store.rs:176-183 | A new database satisfies the store invariant |
| `StoreMachine.StepKeepsInv` | src/store.rs:187-813 | Every operation of the store keeps all tables and caches in agreement |
| `StoreMachine.RunsKeepInv` | src/store.rs:187-813 | So does every run |
| `StoreMachine.OriginsAgree` | src/store.rs:684-776 | After every run an origin is registered exactly when some row carries it and exactly when some tenant owns it |
| `StoreMachine.RestartIsInvisible` | src/store.rs:187-247 | After any run a restart gives the same key, tenant, origin and dictionary answers, but for use times, counts and empty origin maps, exactly when every optional time in the caches is below 2^63 |
| `StoreMachine.RunsKeepTimes` | src/store.rs:260-624 | If the times passed in are below 2^63, every restart along the run is invisible |
| `StoreMachine.ReopenedIsGood` | src/store.rs:143-184 | A store opened on the tables of a good one is good again |
| `Store.Store.constructor` | src/store.rs:174-184 | Opening fills the caches from the tables |
| `Store.Store.CreateKey` | src/store.rs:271-313 | The key is created in row and cache with exactly the given tenant, title, role, value and expiry, or refused when its tenant does not exist |
| `Store.Store.RevokeKey` | src/store.rs:327-355 | As `revoke_key`: the answer tells whether the tenant has such a cached key; that key alone is revoked |
| `Store.Store.RotateKey` | src/store.rs:358-375 | The answer and the new cache: the tenant's own key of that id has moved to the new value, nothing else has changed |
| `Store.Store.RotateKeyByHash` | src/store.rs:411-428 | The row gets the new hash and the record moves to it |
| `Store.Store.ResetBootstrapPlatformKey` | src/store.rs:380-409 | Reset creates, rotates the only active bootstrap key or reports how many there are, and the cache is accordingly |
| `Store.Store.Authenticate` | src/store.rs:434-457 | The record returned has the shown hash and is neither revoked nor expired; one is returned exactly when a cached key or a row with that hash is neither |
| `Store.Store.TouchLastUsed` | src/store.rs:479-493 | The use time of every cached entry of the key changes, and nothing else |
| `Store.Store.LandLastUsed` | src/store.rs:495-507 | The deferred write changes the row alone |
| `Store.Store.CreateTenant` | src/store.rs:512-559 | A tenant and its admin key are created with the documented defaults |
| `Store.Store.UpdateTenant` | src/store.rs:570-624 | Each given field is replaced, every other field and every other tenant kept, in cache and row; unknown tenants change nothing |
| `Store.Store.TryConsumeQuota` | src/store.rs:632-643 | A call is admitted exactly when the tenant exists and is unlimited or below its limit, and then counts one |
| `Store.Store.LandRequestCount` | src/store.rs:645-659 | The deferred write changes the row alone |
| `Store.Store.SetSuspended` | src/store.rs:664-680 | Suspending sets the time in row and cache, lifting clears it, no other tenant changes, and the answer tells whether the tenant exists |
| `Store.Store.RegisterOrigin` | src/store.rs:684-718 | Registering adds exactly that row, or is refused exactly when the tenant does not exist or has the origin already |
| `Store.Store.RevokeOrigin` | src/store.rs:731-761 | A revocation removes exactly that row, when it is the tenant's own, and says so |
| `Store.Store.TenantOwnsOrigin` | src/store.rs:769-776 | The cached answer is whether a row of the table says so |
| `Store.Store.RegisterDictionary` | src/store.rs:783-813 | The stored record has the new URL and the first registration's time |
| `QuotaFlow.AdmitsExactly` | src/store.rs:632-643 | With limit and count unpatched, n interleaved calls admit exactly min(n, limit - count) floored at 0, all n when the limit is 0, and each counts once |
| `QuotaFlow.PersistedNeverAhead` | src/store.rs:645-661 | Without count patches the persisted count never exceeds the one in memory, in whatever order writes and snapshots land or are lost |
| `QuotaFlow.CountPatchIsSafe` | src/store.rs:597-621 | After a count patch no later run, in whatever order writes land or are lost, stores more than is in memory exactly when the row and every write on its way carried at most the new count before it |
| `QuotaFlow.ResetCanBeOvertaken` | src/store.rs:597-601 | An unsafe patch: a count write from before a reset lands after it |
| `QuotaFlow.InOrderAgrees` | src/store.rs:584-661 | If writes land in the order issued and none is lost, the table ends with the counts in memory, patches included |
| `QuotaFlow.UpdateIsAtomicUpdate` | src/store.rs:570-624 | The whole operation is its critical section followed by its write |
| `QuotaFlow.SuspensionIsKept` | src/store.rs:570-680 | In every interleaving a tenant is suspended in its row and in memory as its last suspension or reactivation said there; a patch's snapshot that lands after a suspension does not undo it |
| `RateLimiting.RateLimiter.constructor` | src/auth.rs:36-43 | A new limiter has no windows |
| `RateLimiting.RateLimiter.Check` | src/auth.rs:46-57 | The check turns away exactly while the address's cooldown end is ahead, and reports the difference |
| `RateLimiting.RateLimiter.RecordFailure` | src/auth.rs:60-74 | A failure changes the address's window and no other: it keeps the failures less than the window ago and the new one, or starts a cooldown from now and forgets them |
| `RateLimiting.PrunedRefinesHistory` | src/auth.rs:60-74 | Under a clock that does not run backwards the pruned list starts a cooldown exactly when the failures since the last start, within the window and counting the current one, reach the maximum; the list stays shorter than the maximum |
| `RateLimiting.TriggersExactly` | src/auth.rs:68-73 | On the times alone: a failure starts a cooldown exactly when itself and the failures after the last start that happened less than the window before it reach the maximum |
| `RateLimiting.SpentIsLastStart` | src/auth.rs:70-73 | The last start of a history is the longest of its beginnings that ended in one |
| `RateLimiting.CooldownNeverDecreases` | src/auth.rs:70-73 | One more failure never brings the end of a cooldown earlier |
| `RateLimiting.CooldownIsCooling` | src/auth.rs:46-57 | The end kept is the latest: a moment is before it exactly when some started cooldown is still running |
| `RateLimiting.AddressesAreSeparate` | src/auth.rs:64-67 | After any run each address's window depends on its own failures alone |
| `RateLimiting.ChecksAgainstFullHistory` | src/auth.rs:46-74 | Over every run an address is turned away exactly while a cooldown its full history started is running, with the remaining time of the latest |
| `Cidr.MaskKeepsPrefix` | src/config.rs:99-118 | The shift and mask keep the leading bits and clear the rest, prefix 0 included |
| `Cidr.ContainsIsBlock` | src/config.rs:41-81 | A specification is accepted exactly when it is an address, or an address, the first slash and a decimal prefix with or without a plus sign that fits the unmapped address; the network then contains exactly the addresses of its family in the aligned block of 2^(width - prefix) around the address, host bits aside |
| `Cidr.CanonicalUnmaps` | src/config.rs:87-95 | The canonical form of an IPv4-mapped address is the IPv4 address it carries; every other address is its own |
| `Cidr.RefusedExactly` | src/config.rs:41-63 | Which error a refused specification reports: its address first, then a prefix that is no number of at most 255, then one too long for the unmapped address |
| `Cidr.ParseU8IsDecimal` | src/config.rs:56-60 | A prefix text stands for a number of at most 255 exactly when it is that number in decimal digits, after a plus sign or none |
| `ClientIp.ResolvedClientIp` | src/auth.rs:88-120 | The loop that pops the forwarded chain computes the specified client address |
| `ClientIp.LastUntrustedMeaning` | src/auth.rs:110-120 | It is the last hop of the chain that is no trusted proxy, every later one being one; there is none exactly when all are trusted |
| `ClientIp.ForgedPartIsIgnored` | src/auth.rs:98-120 | What a client writes into the header itself changes nothing as long as the part the proxies add names one hop that is not trusted; only without such a hop does it decide |
| `ClientIp.ClientExactly` | src/auth.rs:83-120 | The address taken is the peer's, unless the peer is trusted and forwards a chain with a hop that is not; then the last such hop's. A chain of trusted proxies only gives the peer, not its rightmost hop as the comment says |
| `ClientIp.HopsAreEntries` | src/auth.rs:100-109 | The hops are the addresses of the comma-separated entries, trimmed and unmapped, the entries that are none skipped |
| `Cidr.MappedIsV4` | src/config.rs:87-95 | An IPv4 address and its IPv4-mapped form are the same to every network |
| `Cidr.ParsedIsValid` | src/config.rs:66-69 | A parsed network is masked and contains its own address |
| `Cidr.NestedOrDisjoint` | src/config.rs:74-80 | Two networks are nested or disjoint, decided by masking one address |
| `EngineRegistry.RunsAreExclusive` | src/engine.rs:158-220 | Whatever is loaded, replaced, cancelled or fails, the load lock has one holder and cached languages stay cached |
| `EngineRegistry.DefaultAlwaysPresent` | src/engine.rs:134-144 | The default language is present in every reachable state |
| `EngineRegistry.StepExclusive` | src/engine.rs:158-220 | Only an insertion or a replacement changes the map; a failed load leaves it alone |
| `EngineRegistry.SomeoneCanMove` | src/engine.rs:169-188 | No deadlock: while a task is unfinished some task can move |
| `EngineRegistry.LoadedAtMostOnce` | src/engine.rs:158-189 | In runs of `get_or_load(language, None)` no language is successfully loaded twice or when cached at the start, and all successful callers of a language have the one cached engine |
| `EngineRegistry.ForcedCallsLoadAnew` | src/engine.rs:158-210 | In every run a call of `load`, or one with a source URL, never answers with an engine that was there when it began: what it returns was loaded for its language since |
| `EngineRegistry.EnginesAreNew` | src/engine.rs:158-220 | In every run no two loads give the same engine, and a replacement puts in place one that was not there before, for its language alone |
| `EngineRegistry.SoloIsRun` | src/engine.rs:158-210 | The protocol run by one task alone is the sequential call |
| `EngineRegistry.EngineRegistry.constructor` | src/engine.rs:119-132 | A new registry holds the default engine |
| `EngineRegistry.EngineRegistry.DefaultEngine` | src/engine.rs:137-144 | The default engine is always there |
| `EngineRegistry.EngineRegistry.GetOrLoad` | src/engine.rs:158-189 | A hit changes nothing; a miss looks again under the lock, then caches what it loads or fails without change |
| `EngineRegistry.EngineRegistry.Load` | src/engine.rs:194-210 | Loading always replaces the entry, or fails without change |
| `EngineRegistry.EngineRegistry.Replace` | src/engine.rs:215-220 | Replacing changes that entry alone |
| `Tokenizer.StripMeaning` | src/engine.rs:228-244 | Stripping fails exactly on text of nothing but punctuation; otherwise it removes the longest punctuation prefix and suffix |
| `Tokenizer.StrippedIsUnique` | src/engine.rs:228-244 | There is only one way to strip a text |
| `Tokenizer.RunsAreTheRuns` | src/engine.rs:223-226 | The matches are exactly the maximal non-space runs, in order, each once |
| `Tokenizer.Tokenize` | src/engine.rs:79-94 | The loop over the matches computes the specified tokens or panics as specified |
| `Tokenizer.TokensAreRuns` | src/engine.rs:79-94 | Tokenizing panics exactly when some run is all punctuation; otherwise token k is run k stripped, with the run's offsets in characters and UTF-8 bytes |
| `Tokenizer.CharacterClasses` | src/engine.rs:223-231 | White space and punctuation, code point by code point |
| `Tokenizer.Utf8LengthIsEncoded` | src/engine.rs:79-94 | The byte offsets count the bytes of the UTF-8 encoding |
| `Tokenizer.LoneCommaPanics` | src/engine.rs:237-243 | A lone comma between words is enough |
| `Spellcheck.Spellcheck` | src/handlers.rs:221-234 | `/spellcheck` returns one result for each text token, then for each word, in order: valid without suggestions or invalid with the engine's |
| `Spellcheck.SpellcheckPositions` | src/handlers.rs:255-290 | `/spellcheck/positions` returns one result for each distinct invalid token, with its text positions and suggestions, in any order |
| `Spellcheck.EndpointsAgree` | src/handlers.rs:212-316 | The second endpoint returns each token the first marks invalid exactly once, with the same suggestions |
| `Spellcheck.PositionsComeFromText` | src/handlers.rs:258-269 | Positions are the strictly increasing starts of the token's occurrences in the text; words add none |
| `Spellcheck.PositionsAreOccurrences` | src/handlers.rs:258-269 | A position is listed exactly when the token stands there as a maximal run, punctuation aside |
| `Billing.ThroughCharges` | src/auth.rs:129-438 | Only the quota layer charges, and only when it admits; whatever refuses or panics leaves every count alone |
| `Billing.RecordedTenantIsCharged` | src/handlers.rs:716-720 | In every reachable state the tenant read from the key record for the rollup is the one the quota layer charged |
| `Billing.ConsumedIsRecorded` | src/handlers.rs:705-748 | In every run of concurrent requests a tenant's successful quota consumptions equal its requests recorded since the start plus those still on the way through the handler and those aborted there |
| `Billing.RefusalIsFree` | src/handlers.rs:782-784 | A request refused by any layer, or whose layer panics, changes no tenant and records nothing |
| `Billing.CountIsUsage` | src/store.rs:632-643 | Without count patches, the growth of a tenant's count since the server started is the growth of its rollup (table, buffered, half drained, in flight, lost and purged together) plus requests in or aborted in their handler |
| `Vetting.KeyLayerExactly` | src/auth.rs:129-163 | The first layer turns away exactly while the address cools down, telling it to wait the whole seconds left but at least one; else it refuses and notes a failure exactly when no active key is shown; else the request goes on with a record that the shown hash stands for |
| `Vetting.TenantLayerExactly` | src/auth.rs:327-349 | The second is forbidden exactly while the key's tenant is suspended |
| `Vetting.OriginLayerExactly` | src/auth.rs:301-323 | The third is forbidden exactly when there is an `Origin` header that no row of the table gives to the key's tenant |
| `Vetting.QuotaLayerExactly` | src/auth.rs:420-438 | The fourth charges exactly while the tenant has quota left, one request of that tenant and nothing else |
| `Vetting.ChargedWereVetted` | src/handlers.rs:778-809 | In every run of concurrent requests and store changes, each charged request passed all four checks, each at its own moment: an active key of the charged tenant shown by an address not cooling down, the tenant not suspended, its `Origin` given to the tenant by the table, and quota left |
| `Vetting.HandledWereVetted` | src/handlers.rs:778-809 | So did each request in a handler, for the tenant it will be recorded for |
| `Vetting.SuspensionTakesEffect` | src/auth.rs:327-349 | A suspension takes effect at once for requests that have authenticated but not yet passed the tenant layer |
| `Vetting.TurnedAwayByOwnFailures` | src/auth.rs:46-74 | In every run whose failures were noted in the order of their times a request is turned away exactly while a cooldown is running that its own address's full history of failures started |
| `Gates.RequireActiveKey` | src/auth.rs:129-163 | The running layer does to store and limiter what the billing model says: turned away, refused or let on exactly as the address's cooldown and the shown key tell |
| `Gates.RequireActiveTenant` | src/auth.rs:327-349 | The tenant layer answers 403 exactly when the cached tenant of the key is suspended, and else lets the request on as it is |
| `Gates.RequireOriginBinding` | src/auth.rs:301-323 | The origin layer answers 403 exactly when there is an `Origin` header that no row of the table gives to the key's tenant |
| `Gates.RequireQuota` | src/auth.rs:420-438 | The quota layer charges exactly when the tenant has quota left |
| `Gates.EnterHandler` | src/handlers.rs:716-720 | The last layer reads the tenant from the key record again |
| `Gates.RecordUsage` | src/handlers.rs:722-747 | A response is recorded once, unattributed language and slug filled in, success without a slug |
| `Gates.Admit` | src/handlers.rs:785-809 | A request that runs through all layers reaches the handler for a tenant exactly when its address is not cooling down, its hash stands for an active key of that tenant, the tenant is not suspended, owns the `Origin` if there is one, and has quota left; it is charged exactly then |

## Left out

- HTTP plumbing, routing beyond the layers of the spell-check routes, CORS, request validation, JSON, metrics, tracing and shutdown signals.
- The SQL engine: tables are maps with primary, unique and foreign keys, statements are atomic and transactions all or nothing. Text columns compare byte by byte; a locale collation in PostgreSQL is not modelled.
- Database failures other than refused rows and failed usage flushes. A store operation interrupted between its statement and its cache update is not modelled, except for the order in `update_tenant` (`RefusedUpdateIsUndone`).
- Store: each method is one atomic step, except quota, suspension and tenant updates in `QuotaFlow`. Finer interleavings of `register_origin`, of two concurrent rotations and of `authenticate` with a rotation are not modelled.
- Store: hashing is injective, and generated ids and hashes are fresh and not empty.
- Store: listing operations, the bootstrap key created on first start, and role names in text.
- KeyLifecycle: another process creates, rotates and revokes keys; nothing deletes rows or takes a revocation back.
- Integer widths: day numbers, counts, microseconds and request counts are unbounded, so overflow past 2^63 is not modelled; the casts of times and limits are. The server clock is below 2^63 seconds.
- Percentiles: `f64` values are reals, so rounding of the floating-point operations and not-a-number inputs are not modelled; `round` and the saturating cast are.
- UsageFlow: the listing order of a drained map is arbitrary, but one batch is applied by one step.
- Daily, error and language aggregation and their percentages, which are plain sums.
- RateLimiting: instants and durations are naturals, and adding the cooldown does not overflow.
- Cidr: the text of an address is parsed by an uninterpreted function, in a specification and in a forwarded chain.
- EngineRegistry: downloading and parsing are one step that may fail; file locking, refresh and renames in `src/dictionary.rs` are not modelled.
- Tokenizer: texts are sequences of characters; stripping works on characters where the source works on byte offsets, which agree because all punctuation is ASCII.
- Spellcheck: `check` and `suggest` are uninterpreted deterministic functions, and choosing the language's engine comes before either endpoint.
- Billing: one server lifetime, on whatever store and usage tables it finds; every layer but the last is one step, and the second lock of `record` is a step of the usage buffer that the response does not wait for.
- Billing: the dedicated layers of the other route groups (admin, platform, dictionary, usage scope) are not modelled.
- The environment, command line, dictionary download, Swagger and OpenAPI.
