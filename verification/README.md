# A verified model of the kaisho sync server

This project models the part of the kaisho cloud backend that has to be right for data not to be lost: the
sync protocol (paged pulls, last-writer-wins batches, the mobile client's offline queue), the running timer, the
SQL query builder every handler goes through, and the small state machines beside them (AI limiter, cron worker,
advisor loop, API-key cache, migration runner, duration texts). Tables are maps with a primary key and a
constraint; everything outside (database tie order, clocks, replies of models and networks, other clients) is
a parameter the statements quantify over. `dafny verify dfyconfig.toml` checks the whole project.

How the files hang together:

- `Seqs`: sequences without repeats and their filtered members.
- `Rows`, `Tables`, `Apply`: rows and stamps, a table under constraints, one `/apply` request.
- `Batches`, `Lww`, `Duplicates`, `TimerBatches`: a batch against its entries one at a time, in general, for
  last-writer-wins convergence, with repeated ids, and with running timers.
- `Paging`, `Drain`, `Replica`, `Echo`: pages, pulling to the end, a replica under concurrent writes, pushing back.
- `Ack`, `Redelivery`, `OfflineQueue`, `Timer`: acknowledgement, at-least-once delivery, the client that delivers,
  "later start wins".
- `Ident`, `Sql`, `Builder`, `Writes`, `PageQuery`: identifiers, statements with three-valued conditions, the builder
  as a compiler, its writes column by column, and the paging query through it.
- `Limiter`, `Cron`, `Advisor`, `AuthCache`, `AuthReplies`, `Migrate`, `Duration`, `Spellings`: the machines beside the
  protocol.

Stamps are microseconds, as PostgreSQL stores them; `Ms` is the millisecond a JavaScript Date keeps of them.
Where the source compares or transports a stamp through a Date, the model truncates.

## What the proofs found

The following promises do not hold of the code on all inputs. For each there is the exact condition under which
they do, and a lemma with a concrete input or a family of inputs where they fail.

- Paging assumes whole-millisecond stamps. A row that took the database's `now()` (`/active/start` inserts one) can
  be finer; the pull then answers pages that do not advance. `Drain.PagingWorksExactly`, `Paging.PageIsWindowExactly`,
  `Drain.SubMillisecondGroupStalls`.
- A batch decides every entry against one snapshot, so an id repeated in a batch may keep an older version:
  `Duplicates.RepeatedIdsExactly`, `Duplicates.OlderVersionWins`.
- A batch writes its inserts before its updates. On clock_entries an entry that starts a timer is refused when the
  same batch stops the running one, although one request each would store both: `TimerBatches.BatchIsSinglesExactly`,
  `Duplicates.StopThenStartInOneBatch`, `Duplicates.StopThenStartOneByOne`.
- An entry without a stamp, which the schemas of inbox entries, tasks and notes admit, is never stale. It carries a
  stored row back in time exactly when the server clock stands below the row's stamp and the constraint admits the
  write: `Duplicates.OneEntryGoesBackExactly`, `Duplicates.UnstampedEntryGoesBack`.
- The handler decides on a snapshot and its UPDATE carries no stamp condition, so with overlapping requests a stamped
  entry too can be written over a newer row: `Duplicates.OverlapGoesBackExactly`, `Duplicates.OlderVersionOverlaps`.
- A write stamped at or below a puller's cursor leaves the replica out of step, and no pull delivers it unless the
  entry is written again ahead of the puller: `Replica.LateWriteIsLostExactly`,
  `Replica.LateWriteBetweenQueriesExactly`, `Replica.LateWriteBehindPageExactly`, `Replica.LateWriteNeverArrives`. The
  two queries of a single-timestamp page may see different tables: `Drain.TwoSnapshots`.
- At-least-once delivery is exactly-once if and only if every repeat finds each of its entries stale, refused or
  stored already: `Redelivery.RepeatsAreInvisibleExactly`. It fails for a start that the one-active index refuses at
  first, for a request that repeats a new id, whose refused mention the second delivery writes, and for entries without
  a stamp, which each delivery stamps anew: `Redelivery.RepeatedTimersExactly`, `Redelivery.RefusedThenAccepted`,
  `Redelivery.RepeatedIdLandsTwice`, `Redelivery.UnstampedIsRestamped`.
- First landings come in queueing order if and only if no request lands for the first time after it was dropped on a
  client error and a later one has landed: `OfflineQueue.EveryRunIsInOrderExactly`, `OfflineQueue.DroppedThenLands`.
- Requests queued while `flushQueue` awaits a reply that removes the head are overwritten; a flush loses nothing if
  and only if there are none: `OfflineQueue.QueuedDuringAwaitIsKeptExactly`.
- `/active/start` stops the running timer before it inserts; a taken id leaves the user without a timer:
  `Timer.StartLeavesNoneExactly`.
- A negative `AI_MAX_CONCURRENCY` lets no call through, ever: `Limiter.NegativeSettingStarvesExactly`.
- The key lookup reads five accounts per prefix: `AuthCache.EveryLookupIsCompleteExactly`.
- A migration file with the baseline's name makes the first run fail: `Migrate.FirstRunSucceedsExactly`.
- The edit sheet takes a bare number as hours, the server refuses it: `Duration.ParsersAgreeExactly`.
- A duration is multiplied as doubles. Only a number that does not end on a half minute is sure to round as written;
  "1.025h" is 61.5 minutes and the code's product falls below it: `Duration.HalvesAreFragileExactly`.
- A string for a jsonb column travels without a cast, and the column parses it: `Builder.RecordIsPayloadExactly`.

The comment above `wireToRow` (api/routes/sync.js:228) says that it always stamps a fresh `updated_at`; the code
keeps the client's stamp, and so does the model.

## Model

| member | source | states |
|---|---|---|
| Rows.StoreThenReadIsIdentity | api/routes/sync.js:100-115 | storing an entry and reading it back gives the entry itself if and only if it has no empty optional text and only whole-millisecond stamps |
| Rows.PullDelivers | api/routes/sync.js:100-115 | what a pull delivers of any stored row: its own columns, stamps on their millisecond, an empty optional text as absent |
| Rows.MillisecondOf | api/routes/sync.js:280-284 | a stamp lies in its millisecond, before 1970 too, and truncating moves it back by less than one |
| Tables.Table.Insert | api/routes/sync.js:78 | one INSERT statement stores all its rows or none: all exactly when no key collides and the constraint holds afterwards |
| Tables.Table.Update | api/routes/syncResource.js:255-260 | one UPDATE replaces the applied columns of one row of one user, or fails on a constraint; no matching row is no error |
| Tables.UpdateWrites | api/routes/syncResource.js:236-260 | which columns an update writes: body, stamp and deletion of that one row of that user; its key, owner and acknowledgement and every other row stay |
| Tables.BulkInsertIsGreedy | api/routes/sync.js:76-88 | for every subset-closed constraint the bulk statement succeeds exactly when no row fails on its own, and leaves the same table |
| Tables.GreedyKeeps | api/routes/sync.js:80-86 | row-by-row insertion keeps the old rows and the constraint, adds only given rows, and rows gained plus rows refused make up the batch |
| Tables.GreedyKeepsAllItCan | api/routes/sync.js:80-86 | a refused row could not be added to the final table either |
| Tables.BothSchemasSubsetClosed | db/schema.sql:330-332 | the one-active index and the bare primary key survive dropping rows |
| Tables.InsertWithRowRetry | api/routes/sync.js:76-88 | fast path and fallback leave the table of greedy insertion and return exactly the refused ids, in order |
| Apply.DecideEntries | api/routes/syncResource.js:218-243 | the loop splits a batch by last-writer-wins into inserts, updates and skips, each in batch order |
| Apply.UpdateRows | api/routes/syncResource.js:253-267 | the update loop leaves the table of the updates in order and reports exactly the failed ids |
| Apply.ApplyEntries | api/routes/syncResource.js:205-279 | the handler's table and counters are those of deciding against the snapshot, greedy inserts, then updates |
| Apply.ApplyAccounts | api/routes/syncResource.js:206-279 | whatever the constraint refuses: the four outcomes add up to the batch, `inserted` is the number of rows gained, no other user's row changes, nothing is dropped |
| Apply.ApplyKeepsAcks | api/routes/syncResource.js:233-260 | for any schema, table and batch: no row is dropped, every stored row keeps its acknowledgement, and a new row has none |
| Batches.SingleIsRequest | api/routes/syncResource.js:205-279 | a request of one entry decides and writes that entry |
| Batches.BatchIsInsertsFirst | api/routes/syncResource.js:205-269 | for any constraint, a batch with distinct ids equals its entries one request each, in the order in which it writes them: new ids, changed ones, stale ones; same table, same report |
| Batches.BatchIsIdleExactly | api/routes/syncResource.js:205-269 | for any constraint a batch, ids repeated or not, changes nothing if and only if each entry is stale, refused or stored already, provided repeats of an id are stamped |
| Batches.IdleEntriesAreIdle | api/routes/syncResource.js:205-269 | one half without any proviso: such entries change nothing |
| Lww.SingleWrites | api/routes/sync.js:277-285 | an entry the constraint does not refuse is written exactly when it is newer than the stored row |
| Lww.ErrorFreeIsSmooth | api/routes/syncResource.js:255-267 | if no request reported an error, the constraint refused no entry |
| Lww.HarmlessIsSmooth | db/schema.sql:330-332 | entries no table refuses are refused nowhere in any sequence |
| Lww.EachWon | api/routes/sync.js:277-285 | after any sequence of entries of which the constraint refused none, every key holds the newest version among table and entries; running timers included |
| Lww.BatchWon | api/routes/syncResource.js:205-269 | the same after one batch |
| Lww.WrittenReadsBack | api/routes/sync.js:233-263 | whatever stood under its key, a written entry is read back as it was sent if and only if it is canonical |
| Lww.PushedIsPulled | api/routes/sync.js:233-263 | after a batch of which the constraint refused nothing, a canonical entry newer than the stored row is pulled exactly as it was pushed |
| Lww.WonIsUnique | api/routes/sync.js:277-285 | if equal id and stamp means equal content, "newest version of each id" determines the table |
| Lww.OrderDoesNotMatter | docs/architecture.md:227-233 | convergence for any schema: the same entries in two orders, repeated at will, leave the same table, if the constraint refused none in either |
| Lww.BatchIsSingles | api/routes/syncResource.js:205-269 | a batch with distinct ids leaves the table its entries leave one at a time, in batch order, if the constraint refuses none either way |
| Lww.BatchesAreSingles | api/routes/syncResource.js:205-269 | the same for any sequence of batches |
| Lww.BatchingDoesNotMatter | api/routes/syncResource.js:205-269 | any two ways of cutting and ordering the same entries into batches end in the same table, the newest version of each id, if the constraint refused none either way |
| Lww.ErrorFreeBatchesAreSmooth | api/routes/syncResource.js:248-267 | if no batch reported an error, the constraint refused none |
| Lww.HarmlessEntries | db/schema.sql:330-332 | nothing refuses an entry where the key is the only constraint, nor a stopped or deleted entry of clock_entries |
| Duplicates.HarmlessIsPhasesSmooth | db/schema.sql:330-332 | entries no table refuses are refused in neither phase of a batch |
| Duplicates.BatchStores | api/routes/syncResource.js:214-243 | with repeated ids, timers included, if the constraint refuses nothing: a new id keeps its first mention, a known id its last accepted one |
| Duplicates.RepeatedIdsExactly | api/routes/syncResource.js:214-243 | a batch of which the constraint refuses nothing either way agrees with its entries one at a time if and only if for every id the mention it keeps is the newest |
| Duplicates.OlderVersionWins | api/routes/syncResource.js:214-243 | an input where the older of two versions in a batch is kept |
| Duplicates.StopThenStartInOneBatch | api/routes/syncResource.js:245-260 | stopping the running timer and starting the next in one batch: the start is refused and reported |
| Duplicates.StopThenStartOneByOne | api/routes/syncResource.js:245-260 | the same two entries one request each are both stored |
| Duplicates.UnstampedEntryGoesBack | api/routes/sync.js:277-285 | an input where an entry without a stamp replaces a newer row |
| Duplicates.OneEntryGoesBackExactly | api/routes/sync.js:258-285 | in any table one entry on its own makes a stored row older if and only if it has no stamp, the clock stands below the row's stamp, and the constraint admits the write |
| Duplicates.OverlapGoesBackExactly | api/routes/syncResource.js:209-260 | decided on one table and written to another, an entry makes a row older if and only if it was taken for an update, the row it meets is newer than its stamp, and the constraint admits the write |
| Duplicates.OlderVersionOverlaps | api/routes/syncResource.js:209-260 | an input where version 2, decided against version 1, replaces version 3 |
| Duplicates.UnstampedRepeatCancels | api/routes/syncResource.js:218-260 | an input where a second mention without a stamp takes back the first, so that the batch changes nothing though its first entry would |
| TimerBatches.EachStores | db/schema.sql:330-332 | one at a time on clock_entries, an entry is written exactly unless stale, its key is another user's, or it starts a timer while another runs; the timer that runs in the end is the one the slot rule names |
| TimerBatches.SlotDecides | db/schema.sql:330-332 | two orders of the same entries leave the same table if and only if they leave the same timer running |
| TimerBatches.OrderShowsInSlot | api/routes/syncResource.js:245-269 | writing inserts first leaves the same timer running if and only if the first start once the slot is free has a new id (nothing ran before) or a known id (one was stopped) |
| TimerBatches.BatchIsSinglesExactly | api/routes/syncResource.js:205-269 | on clock_entries a batch with distinct ids leaves the table of its entries one at a time if and only if that condition holds |
| TimerBatches.BlockedIsIdle | db/schema.sql:330-332 | on clock_entries a stamped entry changes nothing if and only if it is stale, under another user's key, or starts a timer while one runs |
| TimerBatches.BatchIsIdleExactly | api/routes/syncResource.js:205-269 | on clock_entries a stamped batch, ids repeated or not, new or delivered again, changes nothing if and only if that holds of each entry |
| Paging.QueryAfter | api/routes/syncResource.js:159-165 | the first query replies with some sorted prefix of the rows above the cursor |
| Paging.QueryAt | api/routes/syncResource.js:179-184 | the second query replies with every row of one stamp, by id |
| Paging.ReadPage | api/routes/syncResource.js:158-187 | the page is a trimmed sorted prefix or one timestamp read in full, for any tie order |
| Paging.TrimmedRows | api/routes/syncResource.js:167-177 | a trimmed page is everything below the first reply's last millisecond, a short one is everything |
| Paging.GroupIsLowest | api/routes/syncResource.js:172-184 | when the first reply is one timestamp, nothing above the cursor lies below it |
| Paging.PageIsWindowExactly | api/routes/syncResource.js:104-187 | for stamps of any resolution, a page is exactly the rows above `since` up to its own cursor if and only if it is empty, or the cursor moved and its rows in the cursor's millisecond sit on it |
| Drain.PageIsGood | api/routes/syncResource.js:104-187 | on whole-millisecond stamps every page is that window, advances the cursor while more remains, and is one complete timestamp once it reaches the limit |
| Drain.PagingWorksExactly | api/routes/syncResource.js:153-187 | all pages from all cursors the server can hand out are good if and only if all of the user's stamps are whole milliseconds |
| Drain.PageConsumes | api/routes/syncResource.js:104-114 | a page and what lies above its cursor partition what lay above `since`; with has_more the rest gets smaller |
| Drain.DrainAll | test/sync-paging.test.js:83-93 | pulling until has_more is false terminates and delivers every row above the cursor exactly once, in stamp order |
| Drain.SubMillisecondGroupStalls | api/routes/syncResource.js:172-186 | at least `limit` rows inside one millisecond with none on it: every answer is empty, claims more and repeats the cursor |
| Drain.TwoSnapshots | api/routes/syncResource.js:179-186 | with a write between the two queries the page is still the window if and only if it is empty or nothing new lies strictly between `since` and its stamp |
| Replica.ApplyIsGoodWrite | api/routes/syncResource.js:205-269 | a batch drops nothing and changes rows only to newer stamps ahead of the puller |
| Replica.NextKeepsInv | api/routes/syncResource.js:86-187 | every step (apply by anybody, first query, second query, delivery) keeps the replica invariant |
| Replica.ReplicaSafety | api/routes/syncResource.js:86-187 | in every reachable state each server row up to the cursor equals the replica's, tombstones included, and with nothing above the cursor the two are equal |
| Replica.LastPageCatchesUp | api/routes/syncResource.js:104-114 | a delivered page with has_more = false makes replica and server equal |
| Replica.LateWriteIsLostExactly | api/routes/sync.js:277-285 | between pulls, an entry keeps the replica in step if and only if it changes nothing or is stamped above the cursor |
| Replica.LateWriteBetweenQueriesExactly | api/routes/syncResource.js:159-186 | between the two queries of a page, after delivery: if and only if it changes nothing, is stamped at or above the timestamp read in full, or finds that timestamp emptied and is above the cursor |
| Replica.LateWriteBehindPageExactly | api/routes/syncResource.js:104-114 | with a page on its way, after delivery: if and only if it changes nothing or is stamped above the page's cursor |
| Replica.LateWriteNeverArrives | api/routes/syncResource.js:104-108 | in every run after such a write, whatever is pulled, the replica lacks this version as long as no step writes the entry again ahead of the puller |
| Echo.PushBackIsSkipped | api/routes/sync.js:247-285 | rows read and pushed back are all skipped and change nothing, at any stamp resolution |
| Echo.PullThenPush | api/routes/syncResource.js:218-229 | draining a quiet store and pushing all of it back leaves it unchanged and counts every entry as skipped |
| Ack.AckRows | api/routes/syncResource.js:300-333 | through the query builder, acknowledging stamps exactly the caller's unacknowledged rows among the first 500 ids and counts exactly those |
| Ack.AckedRow | api/routes/syncResource.js:312-323 | row by row: a row of the caller, under one of the first 500 ids and not acknowledged yet, gets its stamp and nothing else; rows of others, under later ids or acknowledged already stay; none comes or goes |
| Ack.SecondAckIsIdle | api/routes/syncResource.js:317-323 | acknowledging again finds nothing and changes nothing |
| Ack.CountIsTheDrop | api/routes/syncResource.js:312-333 | the reported count is exactly the drop in outstanding rows |
| Redelivery.AbsorbedAfterwards | api/routes/sync.js:277-285 | after a delivery of which the constraint refused nothing, the table holds each of its entries in that version or a newer one |
| Redelivery.RepeatsAreInvisibleExactly | mobile/src/offlineQueue.ts:71-103 | for any constraint and any clock readings, ids repeated or not: at every moment of a trace the store is that of each request once, at its first application, if and only if every repeat finds each entry stale, refused or stored already, provided repeats of an id within a request are stamped |
| Redelivery.RepeatedTimersExactly | db/schema.sql:330-332 | on clock_entries, with stamped requests, timers and repeated ids included, the same if and only if every entry of every repeat is stale, under another user's key, or starts a timer while one runs |
| Redelivery.AtLeastOnceIsExactlyOnce | api/routes/sync.js:277-285 | stamped requests of which the constraint refuses nothing, delivered again at will with anything in between, leave the store of each once |
| Redelivery.RefusedThenAccepted | db/schema.sql:330-332 | an input where a start, refused at first, is accepted when delivered again after the running timer was stopped |
| Redelivery.UnstampedIsRestamped | api/routes/sync.js:258-260 | an input where a request without a stamp, delivered twice, is stamped anew |
| Redelivery.RepeatedIdLandsTwice | api/routes/syncResource.js:214-251 | an input where two versions of a new note in one request, delivered twice, end on the second version, delivered once on the first |
| OfflineQueue.Client.QueueRequest | mobile/src/offlineQueue.ts:54-65 | a request joins the end of the queue |
| OfflineQueue.Client.FlushQueue | mobile/src/offlineQueue.ts:71-103 | the loop delivers from the head, drops on success and client error, stops on server and network error, and counts what left |
| OfflineQueue.FlushTakesExactly | mobile/src/offlineQueue.ts:71-103 | a flush takes the first n requests off the queue, each on a success or a client error, and stops at the end of the queue or at a server or network error, whose request stays |
| OfflineQueue.TakenHasLanded | mobile/src/offlineQueue.ts:71-103 | a request a flush takes off the queue has landed, unless it was refused as a client error |
| OfflineQueue.CallsLand | mobile/src/offlineQueue.ts:54-103 | at least once, over any sequence of queueing and flushing without client errors: every request that has left the queue has landed |
| OfflineQueue.QueuedDuringAwaitIsKeptExactly | mobile/src/offlineQueue.ts:71-103 | after a whole flush, whatever the replies, every request queued before or during it is in the queue or has left it, in order, if and only if nothing was queued while a reply that removes the head was awaited |
| OfflineQueue.AttemptIsARun | mobile/src/offlineQueue.ts:80-99 | an attempt, with any outcome and any copies landing meanwhile, is a run of the event machine |
| OfflineQueue.FlushIsARun | mobile/src/offlineQueue.ts:71-103 | so is a whole flush |
| OfflineQueue.CallsAreARun | mobile/src/offlineQueue.ts:54-103 | and any sequence of queueing and flushing, with anybody's requests and late copies landing in between |
| OfflineQueue.LandingKeepsOrderExactly | mobile/src/offlineQueue.ts:71-103 | a landing keeps the queueing order of first landings if and only if it is not the first one of a dropped request that a later one has overtaken |
| OfflineQueue.EveryRunIsInOrderExactly | mobile/src/offlineQueue.ts:71-103 | in every run, own requests landing at any time after they were sent: of the waiting ones only the head may have landed, and first landings come in queueing order if and only if no overtaken request landed |
| OfflineQueue.DroppedThenLands | mobile/src/offlineQueue.ts:82-87 | from any idle client, a run where a request dropped on a client error lands after the next one |
| OfflineQueue.DeliveredStore | mobile/src/offlineQueue.ts:71-103 | in every run whose repeats are idle the store is that of every landed request once, and this client's are in queueing order if and only if no overtaken request landed |
| OfflineQueue.StoreAfterCalls | mobile/src/offlineQueue.ts:54-103 | the same of the client after any sequence of calls, whatever the replies and whenever requests and their copies landed once sent |
| Timer.ActiveStart | api/routes/sync.js:344-417 | the handler's table and reply are those of the "later start wins" rule |
| Timer.ActiveStop | api/routes/sync.js:428-473 | the handler ends the running timer, or reports none or another id |
| Timer.StartWrites | api/routes/sync.js:344-406 | a start that wins stores what was asked for, running, empty texts as absent, and replies with it |
| Timer.StopWrites | api/routes/sync.js:428-462 | a stop ends the running timer at the time asked for or now, stamps it now, keeps everything else of it, and replies with it |
| Timer.TimersAreStamped | api/routes/sync.js:376-406 | every row a start or a stop changes belongs to the user and is stamped now; no row is dropped |
| Timer.ChangesArePulled | api/routes/syncResource.js:159-165 | so a client pulling from any cursor below now finds every one of these rows above it |
| Timer.StopLeavesNone | api/routes/sync.js:376-383 | ending the running timer leaves a legal table without one |
| Timer.StartWhereNoneRuns | api/routes/sync.js:385-406 | a start where nothing runs succeeds exactly when its id is new, and is then the running timer |
| Timer.StartLeavesNoneExactly | api/routes/sync.js:376-406 | a start leaves the user without a timer if and only if its id is taken and the running timer does not stand |
| Timer.RunIsChain | api/routes/sync.js:349-417 | after any run of starts with fresh ids the table is the old one and one linked entry per accepted start |
| Timer.LatestStartWins | api/routes/sync.js:327-336 | the running timer is the greatest start, first arrival among equals; any start of the run delivered again changes nothing |
| Timer.ArrivalOrderDoesNotMatter | docs/architecture.md:243-248 | the winner is the same in every order of arrival, save among starts of one millisecond |
| Timer.RunBooksTheWholeTime | api/routes/sync.js:376-383 | the run's entries are positive, adjacent and disjoint, and sum to the running start minus the first start |
| Ident.QuotedReadsBack | api/db_pg.js:95-97 | lexing a quoted name followed by any text consumes exactly the identifier and yields the name |
| Ident.QuotingIsInjective | api/db_pg.js:95-97 | different names stay different in SQL |
| Builder.PgQuery.SelectCols | api/db_pg.js:127-154 | a first select sets the projection, a later one RETURNING; a count without the head form is refused and changes nothing |
| Builder.PgQuery.AddFilter | api/db_pg.js:182-221 | filters accumulate in call order |
| Builder.PgQuery.WhereClause | api/db_pg.js:247-267 | the clause and the extended parameters are those of compiling the filters in order |
| Builder.PgQuery.Build | api/db_pg.js:340-378 | every operation builds its compiled statement and parameters |
| Builder.PgQuery.Shape | api/db_pg.js:380-413 | one row for `single` and at most one for `maybeSingle` or an error; a count only where asked for; the head form gives the count alone |
| Builder.PgQuery.Run | api/db_pg.js:340-413 | build, execute and shape together do what the calls ask for, writes, counts and selects, `single` and `maybeSingle` included, refused exactly when the statement is malformed; column by column in the rows of `Writes` |
| Builder.WhereMeans | api/db_pg.js:247-267 | whatever parameters surround its own, the emitted clause is true of exactly the rows passing every filter: `= ANY`, `@>` and NULL comparisons included |
| Builder.CellsMean | api/db_pg.js:299-304 | the emitted cells evaluate to what the columns hold of the payload, with the jsonb cast undoing the encoding and missing keys as NULL |
| Builder.RecordIsPayloadExactly | api/db_pg.js:85-93 | that is the payload itself if and only if no jsonb column is sent a string, or an array it is not known to be a jsonb column for, that it parses to something else |
| Builder.UpdateMeans | api/db_pg.js:326-338 | with SET parameters before WHERE parameters, an update changes exactly the passing rows to the payload |
| Builder.ExcludedIsAll | api/db_pg.js:309-321 | setting the non-conflict columns from EXCLUDED makes an agreeing row take over the whole payload |
| Builder.UpsertMeans | api/db_pg.js:309-321 | an upsert overwrites the row that agrees on the target, appends without one, and with target columns only does nothing |
| Builder.CompilesExactly | api/db_pg.js:293-338 | the statement is well formed if and only if there is a column to write and a target to conflict on |
| Builder.CompilationPreservesMeaning | api/db_pg.js:293-378 | for every builder state, table and server, the emitted statement and parameters have the reference effect, on what the columns hold of the payload, of insert, update, upsert, delete or count: table, returned rows, rows touched |
| Builder.SelectPreservesMeaning | api/db_pg.js:342-358 | the emitted WHERE and no other rows reach ORDER BY, LIMIT and projection: the possible results are the arrangements of the passing rows |
| Writes.InsertWrites | api/db_pg.js:293-304 | an insert appends one row a payload object, in order: each field in its own column, NULL for a column of the first object that a later one lacks, nothing else; RETURNING gives these rows |
| Writes.UpdateWrites | api/db_pg.js:326-338 | an update writes each field of the payload into its column of every row that passes the filters, and leaves the other columns and the other rows as they were |
| Writes.UpdateReturns | api/db_pg.js:326-338 | with RETURNING * it gives back the rows it hit as they have become, in table order, and counts them |
| Writes.UpsertWrites | api/db_pg.js:305-323 | an upsert conflicts on the columns the call names, or else on the primary key: the first row equal on them takes over the payload field by field, and without one the new row is appended |
| Writes.ReturningShows | api/db_pg.js:281-291 | RETURNING gives all columns of each row, or the listed ones and no others, or nothing |
| Sql.DescendingReverses | api/db_pg.js:269-279 | descending is ascending backwards, and NULLs go first or last as asked |
| PageQuery.AskChanges | api/routes/syncResource.js:159-165 | the chained calls of the paging query leave the builder in the state the next row is about |
| PageQuery.AnswersAreSortedPrefixes | api/routes/syncResource.js:159-165 | for the paging query the database's possible answers are exactly the sorted prefixes, ties in any order, of the user's rows above the cursor, which paging is proved on |
| PageQuery.ColumnsEncode | db/schema.sql:73-90 | the columns of a clock entry tell rows apart, as the previous row asks |
| Limiter.Queue.Acquire | api/ai/queue.js:29-37 | a call takes a free slot or joins the end of the waiters |
| Limiter.Queue.Release | api/ai/queue.js:39-47 | a slot goes to the first waiter, or is freed |
| Limiter.EveryRunIsFifo | api/ai/queue.js:25-63 | in every interleaving `active` is the number of slots held and within the limit, nobody waits beside a free slot, and grants are the first arrivals, as many as limit and completions allow |
| Limiter.SettingIsTheLimit | api/ai/queue.js:22-47 | a setting n > 0 lets at most n calls go on at once, and lets through the first arrivals, n more than have finished; eight without a setting or at zero |
| Limiter.ClampIsIdle | api/ai/queue.js:40-42 | the clamp at zero never changes the result |
| Limiter.NegativeSettingStarvesExactly | api/ai/queue.js:22-23 | calls are ever let through if and only if the setting is not negative |
| Cron.Worker.Unschedule | api/workers/cron.js:246-252 | stops exactly the job's task and forgets it |
| Cron.Worker.Reconcile | api/workers/cron.js:287-331 | the loops compute the reconciled map, a failed load changes nothing, and the live tasks stay exactly those in the map |
| Cron.Worker.FireBegin | api/workers/cron.js:218-226 | a tick begins a run exactly when none of the job is in flight, and then takes the guard |
| Cron.Worker.FireEnd | api/workers/cron.js:236-238 | the end of a run clears its guard, and only that run is over |
| Cron.ReconciledMatches | api/workers/cron.js:287-331 | after a load the map is exactly the enabled jobs with valid expressions at the current expression; unchanged jobs keep their task, all others have a new one |
| Cron.SecondReconcileIsIdle | api/workers/cron.js:287-331 | a second reconcile on the same rows starts and stops nothing |
| Cron.NoOverlap | api/workers/cron.js:218-239 | across interleaved ticks, reconciles and completions each job has at most one run in flight, and the guard set is exactly those jobs |
| Cron.TickBegins | api/workers/cron.js:218-239 | after any interleaving a tick begins a run if and only if none of the job is in flight, only a begun run can end, and a reconcile begins and ends none |
| Cron.RunsSinceLastEnd | api/workers/cron.js:218-239 | in every history a job has its one run in flight if and only if it was ticked since its last completion |
| Advisor.RunRoundTools | api/ai/advisor.js:259-270 | a round appends exactly its results, in order, and the names of its calls |
| Advisor.RoundAdds | api/ai/advisor.js:241-270 | a round adds its own turn, then for each of its calls, in order, the answer to that call under its id, and changes nothing before it |
| Advisor.RunAdvisor | api/ai/advisor.js:293-351 | at most six model calls, the trailing fallback never reached; each call sees the transcript so far, with tools in the first five as long as the cap was not reached; the text is the model's, or nothing, or the fallback where tools were withheld; however the run ends, what was metered is the sum of the rounds metered, on completion equal to the returned usage, and below cap + 2B for a user admitted below the cap with rounds of at most B |
| Advisor.EveryPromptIsPaired | api/ai/advisor.js:241-270 | at every model call each assistant turn of the loop is followed by exactly its tool results, in order, with matching ids |
| Advisor.OvershootIsBounded | api/ai/advisor.js:306-311 | one round may cross the cap and one more, without tools, answers: below cap + 2B |
| AuthCache.LookupIsCompleteExactly | api/middleware.js:73-96 | a lookup answers what the key is worth if and only if its holder is among the candidates; with at most five accounts under the prefix it is |
| AuthCache.EveryLookupIsCompleteExactly | api/middleware.js:73-96 | every possible database reply is complete if and only if the key is nobody's or at most five accounts share its prefix |
| AuthCache.Auth.RequireApiKey | api/middleware.js:56-100 | the handler answers from a fresh cache entry, or compares the candidates and caches an enabled match |
| AuthCache.Auth.GetCachedUser | api/db.js:32-44 | a hit only within five minutes; an expired entry is dropped |
| AuthCache.Auth.InvalidateAuthCache | api/db.js:54-60 | exactly the entries of one user go |
| AuthCache.Auth.RotateKey | api/services/accounts.js:50-61 | a rotation replaces the key and drops the user's entries |
| AuthCache.Auth.Disable | api/services/accounts.js:68-77 | disabling or enabling drops the user's entries |
| AuthCache.Auth.Delete | api/services/accounts.js:98-107 | deleting drops the account and its entries |
| AuthCache.CacheStaysTrue | api/db.js:29-60 | in every run each cached key belongs to its account, which is enabled |
| AuthCache.CacheIsInvisible | api/middleware.js:56-100 | after any run of authentications, rotations, disables, enables, creations and deletions, an authentication answers what the key is worth at that moment |
| AuthReplies.KeyFollowsSwitch | api/services/accounts.js:68-77 | over whole runs, cached or not: a key that was accepted is refused as disabled from the moment its account is switched off, and accepted again from the moment it is switched on |
| AuthReplies.OldKeyIsRejected | api/services/accounts.js:50-107 | a key that was accepted is rejected for good once its account got another or was deleted, unless the same key is minted again |
| AuthReplies.NewKeyIsAccepted | api/services/accounts.js:50-61 | the key a rotation mints is accepted from then on, on the account's plan |
| AuthReplies.FirstKeyIsAccepted | api/services/accounts.js:50-61 | so is the first key of a new account, on the plan it was created with |
| AuthReplies.CachedReplyIsRecent | api/db.js:29-52 | a reply given without the database is one the database gave for the same key at most 300000 ms before |
| AuthReplies.RecentReplyIsCached | api/db.js:29-52 | an acceptance by the database is repeated without it for the next 300000 ms, unless something is done to the account |
| Migrate.Database.Apply | db/migrate.js:50-66 | a version and its record are applied together or not at all |
| Migrate.Database.MigrateLocked | db/migrate.js:80-97 | a run applies the missing versions in order until one fails |
| Migrate.RestartsAreSafe | db/migrate.js:50-97 | whatever failed before, the log is a repeat-free beginning of baseline and files and the schema is what it says; a run succeeds exactly when nothing left is broken, and then equals one clean run |
| Migrate.FirstRunSucceedsExactly | db/migrate.js:80-97 | with nothing broken the first run succeeds if and only if no file bears the baseline's name |
| Duration.DecimalReadsBack | mobile/src/utils/time.ts:5-12 | printing a natural number and reading it back, without bound |
| Duration.CompoundExactly | api/utils/clocks.js:18-37 | the scanner accepts exactly the compound grammar and reads its two numbers |
| Duration.SimpleExactly | api/utils/clocks.js:14-42 | the scanner accepts exactly one number, with or without a fraction, and one unit; it rounds the exact product, as the code does for whole numbers and for fractions away from a half |
| Duration.RoundsAlikeExactly | api/utils/clocks.js:39-42 | a computed product rounds like the exact one if and only if it lies in the same half-open interval |
| Duration.HalvesAreFragileExactly | api/utils/clocks.js:39-42 | every product near enough to the exact one rounds like it if and only if the exact one does not end on a half |
| Duration.FormatMinsReadsBack | mobile/src/utils/time.ts:5-12 | both parsers read back every duration the lists print |
| Duration.PrintSheetReadsBack | mobile/src/components/EditEntrySheet.tsx:76-84 | both parsers read back what the edit sheet prints |
| Duration.ParsersAgreeExactly | mobile/src/components/EditEntrySheet.tsx:106-116 | on every string the sheet accepts the server refuses a bare number and reads everything else alike |
| Duration.QuickBookShowsDuration | api/routes/clocks.js:224-252 | booking a printed duration books an entry that displays it; zero is refused |
| Spellings.WholeNumberMeans | api/utils/clocks.js:14-42 | a whole number with any spelling of hours is 60 minutes each, with any spelling of minutes itself, spaces before the unit or not |
| Spellings.FractionMeans | api/utils/clocks.js:14-42 | a number of hours with any digits after the point is its whole hours and the nearest minute of the fraction |
| Spellings.TenthsOfHours | api/utils/clocks.js:14-42 | a tenth of an hour is six minutes, as in "2.5h" |
| Spellings.AppendedDigits | api/utils/clocks.js:39 | k digits after a number multiply it by 10 to the k |
| Spellings.ListsPrint | mobile/src/utils/time.ts:5-12 | the lists print hours and minutes below sixty, leave out a zero part, and print zero as "0m" |
| Spellings.SheetPrints | mobile/src/components/EditEntrySheet.tsx:76-84 | the edit sheet prints the hours always, and the minutes below sixty unless they are zero |
| Spellings.PaddingDoesNotMatter | api/utils/clocks.js:32 | spaces around the text do not matter |
| Spellings.CaseDoesNotMatter | api/utils/clocks.js:32 | capital and small letters read alike |
| Spellings.EntryShowsNearestMinute | api/utils/clocks.js:93-99 | the duration shown of an entry is the nearest minute, halves upwards |

## Left out

- Handlers are atomic, except for the two queries of a page, the pulls of a replica, and one entry decided and written on different tables: whole apply or start requests running inside each other are not modelled.
- One reading of the server clock stands for all readings within an apply or a start request, and for the database's `now()` in the row a start inserts.
- Timestamps that do not parse; an empty stamp is modelled, other unparsable text is not.
- Fractions of a millisecond before 1970, where a Date rounds the other way.
- The applied columns of tasks, notes, projects and inbox entries: those of clock entries stand for them. `created_at` and column defaults are not modelled.
- Hard wipe, server-stamped edits and the other routes of api/routes/clocks.js (start, stop, PATCH, DELETE): they may set a stamp below an existing one, so last-writer-wins holds for apply requests only.
- The desktop client; the replica only pulls and merges.
- Requests of the offline queue other than apply requests, and what the browser's storage may lose.
- Redelivery.RepeatsAreInvisibleExactly: speaks of requests in which an entry that repeats an id carries a stamp; without one, a later mention can take an earlier one back (`Duplicates.UnstampedRepeatCancels`), and only the half from idle entries is stated.
- SQL as text: statements are trees with numbered parameters; only the quoting of identifiers is modelled on characters.
- Constraint failures inside the builder's statements, strings that are no JSON among them, array and range operators on types other than arrays, multi-row upserts, `rpc` and `raw`.
- The digits of double arithmetic: numbers beyond 2^53 in parseInt and parseFloat, and which way a product that ends on a half falls ("1.025h" is 61 in the code and 62 here). Letters whose lower case lies outside ASCII.
- The week and month arithmetic of api/utils/clocks.js.
- A plan change while a key is cached, the JWT path and the plan cache of api/middleware.js.
- `increment_ai_usage` and concurrent advisor runs of one user: usage is a sum within one run.
- What a cron run does once begun (prompt, output, timeout), and the heartbeat row.
- Account e-mail, passwords and hashing: hashes are taken to be injective and a key stands for its hash.
- The advisory lock around the migration runner: runs come one after another.
- Validation schemas, HTTP, broadcasts, rate limits and logging.
