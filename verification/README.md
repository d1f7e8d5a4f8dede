# kine: a verified model of the log-structured store behind k8s-dqlite

k8s-dqlite makes one SQL table, `kine`, behave like etcd. Every write appends a row; ids are
revisions; a compactor deletes old rows; a poller turns new rows into an event stream, filling holes
on the way; a broadcaster fans the stream out; the front end answers etcd's ranges, transactions and
watches. No single function makes this right. This project models the table, the processes that work
on it concurrently and the front end, and proves what they keep.

## How it is built

**One invariant carries everything** (`History.Inv`). Beside the table the model keeps a ghost
history of every row ever written. The invariant says that the history is well formed (each row
creates a dead key, or names the live version it replaces and carries its birth revision and old
value), and that the table *is* the part of the history that a compaction to the current compact
revision keeps - a row is kept if it is newer, or is its key's live version at that revision - apart
from gap rows, which stand only where a row was not kept. Reads, watches, compare-and-swap, paging and
space bounds all follow from it.

| layer | modules |
|---|---|
| keys, table, SQL statements | `Keys`, `Table` |
| history, invariant, steps and runs | `History`, `Writes`, `Compaction`, `Runs` |
| the driver object | `Driver` (`class Generic`) |
| what readers see | `Snapshots`, `Queries`, `Listing`, `Pagination` |
| compactor and space | `Compactor` (`class SqlLog`), `Space` |
| poller and stream | `Poller` (`class Poll`), `Stream`, `Progress` |
| watches | `Broadcaster` (`class Broadcaster`), `Watch`, `Events`, `Delivery` |
| front end | `Cas`, `Backend` (`class LogStructured`), `Ranges`, `Txns`, `EtcdRanges`, `Server` (`class LimitedServer`) |
| where it falls short | `Witnesses` |

Statements and queries are functions on the table. Objects that the program updates in place are
classes, and each method says which function of the old state the new state is; loops of the program
are loops here, with invariants. Concurrency is a state machine: single statements and transactions
are the atomic steps, and theorems are about every interleaving of them. Front-end calls that run
several statements take a parameter `others`, the steps everyone else takes between their statements.

**Assumptions.** Client keys contain no NUL byte, do not begin with `gap-` and are not
`compact_rev_key`; watched prefixes do not begin with `gap-` either. A failed statement has no effect, and
statements and transactions are serializable. SQLite takes the bare column `deleted` of the create
statement from the row with the largest id. A key is a `string` of byte-valued chars. The clock enters
only as the boolean `elapsed` of one poll turn, and expiry timers as steps that may happen at any moment.

## What the proofs found

Where the store falls short of etcd, the exact condition is proved. Where a witness is named, it is a run
from an empty database on which that happens.

- **Compacting without the bookkeeping row is unsafe.** UpdateCompactSQL then updates nothing, deleted
  rows are not accounted for, and reads at compacted revisions are not refused. The transaction keeps
  the invariant if and only if the row is there or there is nothing to delete
  (`Compaction.CompactNeedsItsKey`). `compactStart` puts the row in place before any compaction.
- **The watch has a window.** A watch reads rows first and its resume revision second. It is exact if
  and only if it had nothing to catch up or no matching write fell between these two reads
  (`Watch.WatchIsExact`, `Delivery.WatchOverRuns`); otherwise that write is delivered by neither the
  catch-up nor the stream (`Watch.WindowIsLost`, `Witnesses.WatchMisses`).
- **A watch from revision 0 or 1 skips what was compacted.** It is never refused, and delivers the kept
  events only; what any watch delivers, and when that is everything, are `Watch.WatchDelivers` and
  `Watch.WatchIsComplete`.
- **A list of the present has the same window.** The revision it carries may be newer than its entries
  (`Backend.ListIsTrue`); when a limit cuts it short the revision is read even later, with the count
  (`Ranges.PresentIsAnswered`). A list and a watch from its revision make up the whole history if and only
  if no matching write fell into either window (`Watch.ListThenWatch`, `Witnesses.ListMisses`). An empty
  list, which is asked again at a fixed revision, has no window.
- **Pages that begin at the present may not fit together.** They make up the listing at the revision they
  go on with if and only if no key up to the first page's last shows something else there than when that
  page was read (`Pagination.PagesFromPresent`, `Witnesses.PresentPagesMiss`).
- **A first page of one entry can come twice.** If a key equals the listed prefix itself and is not alone
  under it, the second page asks from that key, and the handler takes that for a fresh start; pages of
  one entry never end (`Pagination.SingleEntryPagesStall`, `Witnesses.PageStalls`). Everywhere else paging
  at a revision is exact, with pages of any sizes (`Pagination.Paginate`).
- **Counts can be short.** If a key equals the listed prefix, the count that goes with a first page that has
  more is one short (`Pagination.PageIsSlice`, `Witnesses.PageStalls`). A count is not refused at a compacted
  revision and then leaves out the compacted versions (`Ranges.CountIsAnswered`); a count of nothing is
  answered with that of the whole directory (`Ranges.ZeroIsRecounted`, `EtcdRanges.ClientCountIsEtcd`).
- **Ranges are etcd's but for the prefix itself and the refusals.** On the requests clients send, entries, flag
  and count are etcd's except as in the last two points (`EtcdRanges.ClientRangeIsEtcd`); for all others
  `EtcdRanges.RangeIsEtcd` compares the keys. Future revisions are not refused, counts at compacted ones
  are not, and lists of an empty store are (`EtcdRanges.RefusalsAgree`).
- **An absent directory is answered with what is below it.** A get of a key that ends in a slash runs as a
  listing; it is the truth if and only if the key is there or nothing is listed under it
  (`Ranges.GetIsExact`, `Witnesses.DirectoryIsAnswered`). A get at an older revision carries that revision and
  not the newest (`EtcdRanges.GetIsEtcd`).
- **Transactions are etcd's on a known set.** Among those clients of this store send - one key, a plain
  put, a failure branch that reads the key - success flag and state are etcd's except for a delete of
  an absent key at revision 0, which fails here (`Txns.OneKeyIsEtcd`, `Witnesses.AbsentDeleteDiffers`). Of
  all others, `Txns.StateIsEtcd` says exactly which agree. A create and a delete compare the key they
  write, whatever key the comparison names (`Witnesses.OtherKeyCreateDiffers`); an update writes the key
  it compares, whatever key the put names, and ignores the flags that keep a value or a lease
  (`Witnesses.FlaggedUpdateDiffers`).
- **Answers leave out numbers.** No previous value is returned, a delete does not say how many keys it
  deleted, a read-back of a failed swap carries count 0, and the header of a failure carries revision 0. The
  whole answer is therefore etcd's exactly in the cases of `Txns.AnswerIsEtcd`
  (`Witnesses.AnswersOweNumbers`).
- **A failed swap reads back its own key.** The failure branch may ask for another key, a span or an older
  revision: the handler ignores all that and fetches the key it would have written. The entries are
  etcd's if and only if what the branch asks for comes to the same (`Txns.ReadBackIsEtcd`,
  `Witnesses.OtherKeyIsReadBack`, `Witnesses.DirectoryIsAnswered`); for a branch that asks for the key itself
  that is `Txns.OwnEntries`.
- **The gap-filling path is only reached behind compaction.** No id above the compact revision is ever
  missing (`Runs.NoHoleAboveCompacted`), so holes the poller fills are compacted rows.

## Model

| member | source | states |
|---|---|---|
| Keys.PrefixRangeExact | pkg/kine/drivers/generic/generic.go:370-380 | for NUL-free keys the SQL range of a prefix holds exactly the keys the stream filter matches: those with the prefix if it ends in a slash, else that one key |
| Keys.SlashRangeExact | pkg/kine/drivers/generic/generic.go:370-375 | between `stem/` and `stem0` in byte order lie exactly the keys that begin with `stem/` |
| Keys.StartKeyIsExclusive | pkg/kine/drivers/generic/generic.go:748-775 | asking for names from startKey followed by byte 1 is asking for names strictly after startKey |
| Keys.FillNameInjective | pkg/kine/drivers/generic/generic.go:828-836 | two gap rows never share a name, so filling different revisions cannot collide on the name index |
| Keys.DecimalIsParsed | pkg/kine/drivers/generic/generic.go:828-832 | the number in a gap row's name, read as decimal, is its revision, and has no leading zero |
| Writes.CreateKeepsInv | pkg/kine/drivers/generic/generic.go:325-341 | create inserts exactly when the key has no live version in the history, never violates an index, and keeps the invariant and the compact revision |
| Writes.UpdateKeepsInv | pkg/kine/drivers/generic/generic.go:343-359 | update inserts exactly when the key's newest version is live and is the expected revision, never violates an index, and keeps the invariant |
| Writes.DeleteKeepsInv | pkg/kine/drivers/generic/generic.go:307-323 | delete inserts a tombstone under the same exact condition and keeps the invariant |
| Writes.FillKeepsInv | pkg/kine/drivers/generic/generic.go:828-832 | a fill succeeds exactly when the id is free, adds one row named gap- and the id in decimal, marked deleted and empty otherwise, and keeps the invariant, the history and the compact revision |
| Writes.IndexFree | pkg/kine/drivers/sqlite/schema.go:80-82 | no stored row holds the (prev_revision, name) pair of the row a write appends |
| Compaction.CompactKeepsTable | pkg/kine/drivers/generic/generic.go:669-693 | the two deletes and the update, from any start at or below the compact revision, leave exactly the rows the history keeps at the new compact revision: no live version is lost and no tombstone's removal revives a key |
| Compaction.ReplacedIsNamed | pkg/kine/drivers/generic/generic.go:669-680 | a live version that has a successor is named as prev_revision by a non-created row between them, so selecting by prev_revision finds every superseded version |
| Compaction.KeptIsSpared | pkg/kine/drivers/generic/generic.go:669-691 | a row the history keeps is selected by neither delete, however stale the start |
| Compaction.CompactKeepsInv | pkg/kine/drivers/generic/generic.go:641-695 | the whole transaction keeps the invariant, from stale starts too, and moves the compact revision to the larger of the old one and end |
| Compaction.CompactNeedsItsKey | pkg/kine/drivers/generic/generic.go:302-305 | the transaction is safe if and only if the bookkeeping row exists or there is nothing to delete |
| Compaction.BatchesCompose | pkg/kine/drivers/generic/generic.go:641-695 | two adjacent batches give the same table as one pass over both windows |
| Runs.StepOutcome | pkg/kine/drivers/generic/generic.go:302-362 | any step keeps the invariant; it appends one row or changes no history; only a compaction moves the compact revision; only a fill of a taken id reports a violation |
| Runs.RunIsLater | pkg/kine/drivers/generic/generic.go:302-362 | over any run history only grows and neither the newest id nor the compact revision goes back |
| Runs.ReachableInv | pkg/kine/drivers/generic/generic.go:302-362 | every run from an empty database, by any number of clients, pollers and compactors, keeps the invariant |
| Runs.RunKeepsIndex | pkg/kine/drivers/sqlite/schema.go:80-82 | in every run no two rows of the table share name and prev_revision |
| Runs.NoHoleAboveCompacted | pkg/kine/logstructured/sqllog/sql.go:164-175 | above the compact revision every written row is in the table unchanged, and nothing else is |
| Runs.MaxIdIsNewest | pkg/kine/logstructured/sqllog/sql.go:155-175 | MAX(id) is the newest id ever handed out, and the compact revision stays below it |
| Runs.OneCompactKey | pkg/kine/logstructured/sqllog/sql.go:97-132 | there are never two bookkeeping rows, so the repair of duplicates is unreachable |
| Runs.CompactKeyStays | pkg/kine/logstructured/sqllog/sql.go:97-113 | once written, the bookkeeping row is there for good |
| Runs.StaleCompactorIsEnabled | pkg/kine/logstructured/sqllog/sql.go:155-175 | a compactor acting on an interval it read long ago still takes a step that the invariant survives |
| Driver.Generic.Create | pkg/kine/drivers/generic/generic.go:521-552 | the object takes the create step; it reports success exactly if the key was not live, with the next id, and never an error |
| Driver.Generic.Update | pkg/kine/drivers/generic/generic.go:554-579 | the object takes the update step; it reports success exactly if the key was live at the expected revision |
| Driver.Generic.Delete | pkg/kine/drivers/generic/generic.go:581-606 | the object takes the delete step; it reports success exactly if the key was live at the expected revision |
| Driver.Generic.Fill | pkg/kine/drivers/generic/generic.go:828-832 | the object takes the fill step; it succeeds exactly if the id was free |
| Driver.Generic.TryCompact | pkg/kine/drivers/generic/generic.go:641-695 | the three statements in order are the compaction step |
| Driver.Generic.Compact | pkg/kine/drivers/generic/generic.go:610-639 | compacts from the recorded revision to the requested one capped at MAX(id), though others act between reading these and the transaction, and does nothing if that has been done by anyone |
| Compactor.CompactStartOutcome | pkg/kine/logstructured/sqllog/sql.go:97-113 | without a bookkeeping row one is written, of that name, created and empty, at the next id; with one nothing changes |
| Compactor.SqlLog.CompactStart | pkg/kine/logstructured/sqllog/sql.go:97-137 | leaves a bookkeeping row, whatever others do between looking and writing, and writes nothing if there is one; the branch for several is dead |
| Compactor.BatchStep | pkg/kine/logstructured/sqllog/sql.go:164-175 | a run that has come some way, and takes one more batch, is a single compaction of the whole way |
| Compactor.CompactAmong | pkg/kine/logstructured/sqllog/sql.go:164-175 | a batch beside others is done afterwards, by this compactor or by another, keeping the invariant and the bookkeeping row |
| Compactor.SqlLog.DoCompact | pkg/kine/logstructured/sqllog/sql.go:139-177 | beside clients, pollers and other compactors the batched loop ends in ceil((target - start) / 1000) batches with the invariant kept and the compact revision at or above its target; with nobody else acting it leaves the table of a single pass to MAX(id) - 100 |
| Snapshots.VisibleExactly | pkg/kine/drivers/generic/generic.go:91-105 | at any revision, compacted or not, a query shows a key's true version if that version is kept, and otherwise nothing: never a wrong one |
| Snapshots.VisibleFromCompacted | pkg/kine/drivers/generic/generic.go:91-105 | from the compact revision on, a query shows the history's version of every key |
| Snapshots.CheckAfterRead | pkg/kine/logstructured/sqllog/sql.go:247-268 | reading rows first and the compact revision afterwards is sound: whatever ran between, an answer that is not refused was and stays the truth at that revision |
| Snapshots.CompactKeepsSnapshots | pkg/kine/drivers/generic/generic.go:641-695 | from any stale start, a compaction changes no snapshot at or above the larger of compact revision and end |
| Snapshots.FillKeepsSnapshots | pkg/kine/drivers/generic/generic.go:828-832 | a fill changes no snapshot, no existing row and not MAX(id) |
| Snapshots.AfterIsComplete | pkg/kine/logstructured/sqllog/sql.go:183-216 | an After query not refused afterwards has every row written above its revision, each as it was written |
| Snapshots.MetadataSurvives | pkg/kine/logstructured/sqllog/sql.go:536-565 | a surviving row still scans to its own key, value, lease and flags, the revision of its incarnation's create, and the key, revisions and value of the version before it, though those rows may be gone |
| Queries.PrefixIdsMatch | pkg/kine/drivers/generic/generic.go:809-817 | the catch-up query selects exactly the rows the live filter would |
| Queries.CompactKeyQuery | pkg/kine/logstructured/sqllog/sql.go:97-113 | the query for the bookkeeping key returns one row if there is one, else none |
| Space.SpaceIsExact | pkg/kine/drivers/generic/generic.go:669-691 | the rows that are not gaps number exactly the keys live at the compact revision plus the ids above it |
| Space.SpaceAfterCompaction | pkg/kine/logstructured/sqllog/sql.go:155-176 | an uninterrupted compaction run leaves at most a hundred rows beyond the live keys |
| Poller.PassedStep | pkg/kine/logstructured/sqllog/sql.go:422-447 | the scan goes on at an event exactly if it is the next revision or the awaited one's time is up |
| Poller.Poll.Turn | pkg/kine/logstructured/sqllog/sql.go:396-470 | one turn of the loop publishes the real events it passed, moves the position to the last of them, remembers a first missing revision and fills one seen before |
| Stream.RealBetween | pkg/kine/logstructured/sqllog/sql.go:449-461 | what is left of the table's rows without gap rows is, event for event, the kept history |
| Stream.PassPublishes | pkg/kine/logstructured/sqllog/sql.go:396-470 | one pass, sequential or skipping, publishes exactly the kept history between its old and its new position |
| Stream.NextKeepsInv | pkg/kine/logstructured/sqllog/sql.go:368-471 | query, scan and fill of the poller, interleaved with any writes, compactions and foreign fills, keep the log equal to the history up to the position less the lost ids |
| Stream.StreamIsHistory | pkg/kine/logstructured/sqllog/sql.go:328-471 | that holds in every interleaving from every reachable database |
| Stream.StreamSpelledOut | pkg/kine/logstructured/sqllog/sql.go:368-471 | the stream is strictly increasing, each passed write is in it if and only if it is not lost, and a lost one was a tombstone or a superseded version at or below the compact revision |
| Stream.NothingIsLost | pkg/kine/logstructured/sqllog/sql.go:338-363 | if compaction never overtakes the poller, every write between its start and its position is broadcast, in order, once |
| Progress.TurnCases | pkg/kine/logstructured/sqllog/sql.go:422-447 | a turn short of the newest revision advances, or notes the missing revision, or fills it |
| Progress.ThreeTurnsAdvance | pkg/kine/logstructured/sqllog/sql.go:396-470 | with a quiet database any three consecutive turns move the position |
| Progress.CatchesUp | pkg/kine/logstructured/sqllog/sql.go:396-470 | three turns per outstanding revision bring the poller to the newest one |
| Progress.StepsAreTurn | pkg/kine/logstructured/sqllog/sql.go:396-470 | the query, scan and fill steps that others may come between are, with nobody between them, one turn of the loop |
| Progress.PassReachesEnd | pkg/kine/logstructured/sqllog/sql.go:396-470 | at or above the compact revision there is no gap, and a single pass takes everything up to the newest revision that fits in it |
| Broadcaster.Broadcaster.Subscribe | pkg/kine/broadcaster/broadcaster.go:16-32 | a new open channel that begins with the next publication; nothing else changes |
| Broadcaster.Broadcaster.Unsub | pkg/kine/broadcaster/broadcaster.go:34-39 | closes and forgets a channel only if it is still subscribed |
| Broadcaster.Broadcaster.Publish | pkg/kine/broadcaster/broadcaster.go:68-80 | the loop gives the item to every subscriber with room and closes every other one |
| Broadcaster.Broadcaster.StreamEnded | pkg/kine/broadcaster/broadcaster.go:60-65 | the loop closes every subscriber once and stops the broadcaster |
| Broadcaster.ActKeepsOk | pkg/kine/broadcaster/broadcaster.go:16-80 | every act keeps: no panic, open exactly if subscribed, and an open channel misses nothing since its subscription |
| Broadcaster.BroadcastIsSafe | pkg/kine/broadcaster/broadcaster.go:16-80 | over all interleavings no channel is closed twice or sent on after closing, and each subscriber receives a contiguous run of the published sequence from its subscription on |
| Broadcaster.ClosedSubscriberPanics | pkg/kine/broadcaster/broadcaster.go:34-39 | what would go wrong: with a subscriber whose channel is closed already, a publication, its cancellation and the end of the stream panic |
| Broadcaster.PublishReaches | pkg/kine/broadcaster/broadcaster.go:68-80 | a publication reaches exactly the subscribers that have fewer than a hundred items waiting, and closes the others, who keep what waits for them |
| Broadcaster.EndClosesAll | pkg/kine/broadcaster/broadcaster.go:60-65 | the end of the stream closes every channel and takes nothing away from it |
| Broadcaster.CancelCloses | pkg/kine/broadcaster/broadcaster.go:25-39 | cancelling closes that channel, takes nothing away from it, and leaves all others |
| Watch.Filter | pkg/kine/logstructured/sqllog/sql.go:315-326 | keeps exactly the events of the prefix, in order |
| Watch.DropCovered | pkg/kine/logstructured/logstructured.go:363-369 | drops the longest leading part at or below a revision, which on ascending events is every such event |
| Watch.Deliver | pkg/kine/logstructured/logstructured.go:339-358 | the goroutine's output is the catch-up followed by the stream's matching events above what the catch-up covered |
| Watch.CatchUpIsWanted | pkg/kine/logstructured/sqllog/sql.go:183-216 | a catch-up that is not refused is exactly the matching history between the revision and the time of the row query, though compaction may run meanwhile |
| Watch.StreamCompletes | pkg/kine/logstructured/logstructured.go:339-358 | catch-up and stream together are the wanted events, less what the stream lost, exactly if nothing wanted lies between the two reads |
| Watch.WatchIsExact | pkg/kine/logstructured/logstructured.go:307-361 | a watch that is not refused delivers exactly the matching events from its revision on, in order and once each, later ones lost to compaction excepted, if and only if it had nothing to catch up or no matching write fell between its two reads |
| Watch.WindowIsLost | pkg/kine/logstructured/logstructured.go:339-358 | however long it goes on, a watch that had something to catch up delivers nothing that was written between its two reads |
| Watch.CatchUpIsKept | pkg/kine/logstructured/sqllog/sql.go:183-216 | a catch-up, refused or not, is exactly the matching history up to the row query that is still kept |
| Watch.WatchDelivers | pkg/kine/logstructured/logstructured.go:307-361 | any watch, refused or not and from whatever revision, delivers exactly the matching events above its revision that are not among those described as missed |
| Watch.WatchIsComplete | pkg/kine/logstructured/logstructured.go:320-334 | a watch from revision 0 or 1, as any other, delivers the whole matching history if and only if none of it was compacted before the catch-up, written between its two reads, or not carried by the stream |
| Watch.ListThenWatch | pkg/kine/logstructured/sqllog/sql.go:247-268 | a list of the present and a watch from its revision make up the whole matching history if and only if no matching write fell between the two reads of either |
| Events.CreateIsTold | pkg/kine/logstructured/sqllog/sql.go:536-565 | the one event of a create is a put flagged as create, of what the key holds from then on, with nothing before it |
| Events.UpdateIsTold | pkg/kine/logstructured/sqllog/sql.go:536-565 | the one event of an update is a put of what the key holds from then on, with what it held before but for the lease, which is the new one |
| Events.DeleteIsTold | pkg/kine/logstructured/sqllog/sql.go:536-565 | the one event of a delete is a delete of the incarnation that ends, without a value, with what the key held before |
| Delivery.MoveKeepsOk | pkg/kine/broadcaster/broadcaster.go:55-80 | with clients, compactors, the poller, the pipe and the broadcaster running freely, compaction passing the poller included, what is published and what waits in the pipe are together the log |
| Delivery.ReceivedIsWritten | pkg/kine/broadcaster/broadcaster.go:55-80 | what a subscriber has received is, in ascending order, the written history between where its subscription began and where its receptions reach, less the lost ids |
| Delivery.WatchOverRuns | pkg/kine/logstructured/logstructured.go:307-361 | over every run from an empty database, subscribers coming, lagging and being evicted, compaction passing the poller or not, a watcher that subscribed before its queries has delivered exactly the wanted events up to where its receptions reach, lost ones written after its row query excepted, under the same exact condition |
| Delivery.AnyWatchOverRuns | pkg/kine/logstructured/logstructured.go:307-361 | over every run from an empty database, any watcher has delivered exactly the matching events up to where its receptions reach that it does not miss |
| Listing.CurrentIsNewestRevision | pkg/kine/drivers/generic/generic.go:744-776 | listing and counting the present are listing and counting at MAX(id) |
| Listing.RevisionAfterIsList | pkg/kine/drivers/generic/generic.go:107-124 | the statement for lists with a start key, which orders a joined subquery by name and id, gives what the statement for lists from a prefix gives |
| Listing.CountIsLength | pkg/kine/drivers/generic/generic.go:277-281 | counting the joined rows gives the number of events listed |
| Listing.SuffixAfter | pkg/kine/drivers/generic/generic.go:759-776 | the sorted names above the p-th of them are the rest of the sorted names |
| Listing.ListIsHistory | pkg/kine/logstructured/sqllog/sql.go:218-273 | a list whose compact-revision check passes afterwards is the history's listing |
| Pagination.RestOfListing | pkg/kine/drivers/generic/generic.go:759-776 | the query with a start key is exactly the rest of the full listing after that key |
| Pagination.PageIsSlice | pkg/kine/server/list.go:57-93 | a page is a slice of the full listing, says rightly whether there is more, and then counts what remains from its start, except that a first page does not count a key equal to the prefix |
| Pagination.ListingIsStable | pkg/kine/logstructured/sqllog/sql.go:236-251 | whatever is written or compacted meanwhile, up to r, the listing at r does not change |
| Pagination.Paginate | pkg/kine/server/list.go:31-93 | paging at r with pages of any sizes, each answered by whatever the database has become, terminates and collects exactly the listing at r, using no more pages than needed |
| Pagination.SingleEntryPagesStall | pkg/kine/logstructured/sqllog/sql.go:236-245 | exactly the case left out there: with a first page of one entry, and a key equal to the prefix that is not alone, the second page begins with that entry again, and pages of one entry are all the same |
| Pagination.PagesFromPresent | pkg/kine/server/list.go:75-93 | a page of the present and the listing after its last key, at the revision read with the count, make up the listing at that revision if and only if no key up to that last one shows something else there |
| Cas.CreateIsCas | pkg/kine/drivers/generic/generic.go:325-341 | on the abstract map, create sets an absent key with create and mod revision equal to the new revision, and leaves the map alone if the key is there |
| Cas.UpdateIsCas | pkg/kine/drivers/generic/generic.go:343-359 | update replaces the value exactly if the live mod revision is the expected one, keeps the create revision, and touches no other key |
| Cas.DeleteIsCas | pkg/kine/drivers/generic/generic.go:307-323 | delete removes the key exactly if the live mod revision is the expected one, and touches no other key |
| Cas.HousekeepingKeepsMap | pkg/kine/drivers/generic/generic.go:641-695 | compactions, fills and the bookkeeping write leave every key of the abstract map as it was |
| Cas.AtMostOneSucceeds | pkg/kine/server/update.go:47-87 | over any run, compactions included, at most one update or delete conditioned on a given key and revision succeeds; expiries are such deletes |
| Cas.ExpiryIsSafe | pkg/kine/logstructured/logstructured.go:290-305 | an expiry scheduled by any event, a tombstone's included, firing at any later time, deletes the key if the event is still its newest live version and otherwise changes nothing |
| Backend.LogStructured.List | pkg/kine/logstructured/logstructured.go:152-192 | whatever others do between its statements: refuses compacted revisions, carries a revision read after the rows for the present, and asks an empty present again only once, at the revision read then |
| Backend.LogStructured.Count | pkg/kine/logstructured/logstructured.go:194-223 | the count with the newest revision of one statement, and if it is zero the number of entries of the whole prefix at a newer present, up to a thousand |
| Backend.LogStructured.Get | pkg/kine/logstructured/logstructured.go:75-137 | the first entry under the key, compacted or not, with a revision read after it for the present, and read once more if the table was empty then |
| Backend.ListIsTrue | pkg/kine/logstructured/sqllog/sql.go:218-273 | every answer of a list is the true listing at the snapshot it shows; its revision is never older, and newer exactly if it is a list of the present that was not empty and someone wrote between its two reads, or the revision was in the future |
| Backend.StartIsFollowed | pkg/kine/logstructured/sqllog/sql.go:236-245 | a start key counts only within a directory and only if it is not the directory itself |
| Backend.FirstIsVisible | pkg/kine/logstructured/logstructured.go:98-128 | what a get finds is what its key holds if and only if the key is no directory, or is there, or nothing is listed under it |
| Backend.FirstIsHistory | pkg/kine/logstructured/logstructured.go:98-128 | from the compact revision on, what a get finds is what the history has there, ever after |
| Backend.SingleKeyListing | pkg/kine/drivers/generic/generic.go:370-380 | a list of a prefix without a slash is that one key's visible version or empty |
| Ranges.PrefixIsRecovered | pkg/kine/server/list.go:31-34 | lowering the last byte of the range end of a directory prefix gives the prefix back |
| Ranges.RaisedIsRecovered | pkg/kine/server/list.go:31-34 | from the range end clients make of any prefix, by raising its last byte, the handler derives the prefix, with a slash added if it has none |
| Ranges.OpenEndIsDerived | pkg/kine/server/list.go:31-34 | a range end of a NUL byte is lowered, wrapping around, to the highest byte and a slash |
| Ranges.ContinuationIsRecovered | pkg/kine/server/list.go:35 | trimming NUL bytes from a continuation key gives the last key of the page before back |
| Ranges.NulsAreTrimmed | pkg/kine/server/list.go:35 | all trailing NUL bytes are trimmed, however many, and nothing else |
| Ranges.MoreCounts | pkg/kine/server/list.go:75-93 | when there is more, the count is not zero, so the recount is never reached |
| Ranges.CountIsOfKept | pkg/kine/drivers/generic/generic.go:277-281 | a count is never more than what the history lists, and is that exactly if all versions it counts are kept |
| Ranges.PageIsAnswered | pkg/kine/server/list.go:14-96 | a client's request for the page at position p, sent at any later moment and not refused, is answered, whatever others do during it, with the listing's entries from p on and the right flag; the number counted, which is the count unless it is zero, is what remains exactly if no version it counts has been compacted by then |
| Ranges.PresentIsAnswered | pkg/kine/server/list.go:63-93 | a list of the present shows the snapshot of the moment its rows are read, cut at the limit; the revision it carries is that of the second read, or if there are more that of the count; the count is of all it shows, or if there are more of what is found, when counting, at the revision of the second read |
| Ranges.CompactedIsRefused | pkg/kine/server/list.go:63-66 | a list at a revision that is compacted when its check is made is refused as compacted |
| Ranges.CountIsAnswered | pkg/kine/server/list.go:43-55 | a count is answered with the number of keys of the prefix after the start that have a version at the revision, the newest for 0, less exactly those whose version has been compacted, and with the newest revision |
| Ranges.ZeroIsRecounted | pkg/kine/logstructured/logstructured.go:213-221 | a count of nothing is done over, whatever others do: for the whole prefix, at a newer present, up to a thousand keys, with the refusals of that list |
| Ranges.GetRevision | pkg/kine/logstructured/logstructured.go:83-95 | the revision a get carries is the one asked for, or for the present that of a later read and once more if that found an empty table; it is never below the entry's, and with nobody else acting it is the newest if and only if the present or the newest was asked for |
| Ranges.GetIsExact | pkg/kine/server/get.go:11-43 | a single key is answered with its true version at the revision asked for if and only if that is still kept, or there is none and the key is no directory or one with nothing listed under it; from the compact revision on versions are kept |
| Ranges.RevisionIsLater | pkg/kine/logstructured/logstructured.go:130-138 | the revision of an answer about the present is no older than its row and newer exactly by what was written until it was read |
| EtcdRanges.RefusalsAgree | pkg/kine/server/list.go:43-66 | with nobody else acting, lists and counts are refused where etcd refuses them if and only if the revision is not in the future and the store not empty, and for counts not compacted; on the empty store counts if and only if a revision is given; the refusal says compacted, or that there is no revision |
| EtcdRanges.RangeIsEtcd | pkg/kine/server/list.go:31-93 | at a revision both can answer, the entries are etcd's if and only if the first keys there is room for are, the flag if both or neither have more, the count if as many keys are counted as etcd finds |
| EtcdRanges.ClientRangeIsEtcd | pkg/kine/server/list.go:31-93 | on the requests clients send, entries, flag and count are all etcd's if and only if the prefix is not itself a key, or the request begins with it and has room for all, or it goes on after another key |
| EtcdRanges.CountIsEtcd | pkg/kine/server/list.go:43-55 | at a revision both can answer, a count is etcd's if and only if as many keys are counted as etcd finds; entries, flag and revision always are |
| EtcdRanges.ClientCountIsEtcd | pkg/kine/server/list.go:43-55 | for the counts clients ask for: etcd's if and only if the prefix is not itself a key or the count goes on after a key, as long as anything comes after the start; else if and only if the whole directory has as many keys now as etcd finds then |
| EtcdRanges.GetIsEtcd | pkg/kine/server/get.go:11-43 | a get beside etcd's range of one key: exactly when entries, revision and count agree |
| Server.LimitedServer.Range | pkg/kine/server/limited.go:14-20 | a request without range end is answered with the single key, any other with the page, whatever others do meanwhile |
| Server.LimitedServer.List | pkg/kine/server/list.go:14-96 | the handler runs list and count as separate calls with others writing between, and answers with its refusals, its cut at the limit and its recount |
| Server.LimitedServer.Get | pkg/kine/server/get.go:11-43 | the row of one moment with the revision of a later one, compacted revisions not refused |
| Server.LimitedServer.Txn | pkg/kine/server/limited.go:29-43 | recognised writes are compare-and-swap on their key and answered accordingly, reading back at a later moment if they fail; compactions are answered as failed; everything else is refused unchanged |
| Server.LimitedServer.Create | pkg/kine/server/create.go:24-72 | takes the create step and succeeds exactly on an absent key; unsupported flags change nothing |
| Server.LimitedServer.Update | pkg/kine/server/update.go:28-90 | swaps exactly if the key is at the expected revision, 0 meaning absent; on failure answers with what the key holds when its row is read later, and the revision of a still later moment |
| Server.LimitedServer.Delete | pkg/kine/server/delete.go:24-77 | deletes exactly if the key is at the expected positive revision; on failure answers as a failed update does |
| Server.CreateRequest | pkg/kine/server/create.go:11-72 | for all keys, values and leases the create request clients send is recognised: an absent key is set at the next revision with create revision, value and lease, a present one is left, and the answer says which |
| Server.UpdateRequest | pkg/kine/server/update.go:11-90 | the update request is recognised for all keys, revisions, values and leases: the key is replaced exactly if it is at the revision, 0 meaning absent, and else the answer is what is read back |
| Server.DeleteRequest | pkg/kine/server/delete.go:11-77 | the delete request is recognised for all keys and revisions: the key goes exactly if it is at the revision, which must be one, and else the answer is what is read back |
| Server.ReadBackIs | pkg/kine/server/update.go:73-87 | what is read back is what the key holds after others have acted, if it is no directory or is there |
| Server.ReadAtIs | pkg/kine/server/update.go:73-87 | the revision that goes with a read-back is that of a read after its row, once more if the table was empty then, and no older than the row |
| Server.CompactionRequest | pkg/kine/server/compact.go:10-41 | the API server's compaction is answered as a failed comparison with one empty entry counted once, whatever it puts, and nothing is done |
| Server.OnlyTheseAreSupported | pkg/kine/server/limited.go:29-43 | exactly those shapes are answered; everything else is refused as unsupported and writes nothing |
| Txns.ShapesDiffer | pkg/kine/server/limited.go:29-43 | no transaction has two of the recognised shapes, so the order of recognition does not matter |
| Txns.StepSwaps | pkg/kine/drivers/generic/generic.go:307-359 | the statement of a recognised write is a compare-and-swap of the abstract map, reporting an id exactly if the key was at the expected revision |
| Txns.StateIsEtcd | pkg/kine/server/limited.go:29-43 | for every recognised write, on whatever keys and with whatever flags and ranges: success flag and state are etcd's if and only if etcd accepts it and, shape by shape, a create's two keys are both absent or both present; a delete's two keys are both at the revision or both not, its span holding no other live key, and at revision 0 the compared key is there; a succeeding update puts the key it compares and keeps nothing it would change |
| Txns.AnswerIsEtcd | pkg/kine/server/limited.go:29-43 | for every such write etcd accepts: the responses are etcd's if and only if test and comparison agree and the answer owes no number - a create, an update without a previous value to return, or a failure that has nothing to count and nothing written since; the header too if and only if it also succeeded or the store is empty |
| Txns.OneKeyIsEtcd | pkg/kine/server/limited.go:29-43 | on transactions about one key with a plain put, success flag and state are etcd's if and only if it is not a delete at revision 0 of an absent key |
| Txns.ReadBackIsEtcd | pkg/kine/server/update.go:73-87 | whatever key is written and whatever the failure branch asks for, the entries read back are those etcd would show at the moment of the reading, if and only if both show none, or the branch does not only count, leaves out no value, and finds alone or first with room for one the key read back, in its version of now |
| Txns.OwnEntries | pkg/kine/server/delete.go:60-75 | for a branch that asks for the key itself these are the same if and only if the key is there and asked for with all it has, or absent and no directory or one with nothing below it |
| Witnesses.AbsentDeleteDiffers | pkg/kine/server/delete.go:24-77 | on the empty database, deleting an absent key at revision 0 fails, and etcd's state is that of success |
| Witnesses.OtherKeyCreateDiffers | pkg/kine/server/create.go:11-20 | after one create, a create of a second key whose comparison says that the first is absent goes through, and etcd refuses it |
| Witnesses.FlaggedUpdateDiffers | pkg/kine/server/update.go:11-26 | after one create, an update that asks to keep the value replaces it, and one whose put names another key writes the compared key; etcd does neither |
| Witnesses.AnswersOweNumbers | pkg/kine/server/delete.go:49-75 | after one create, a delete that succeeds is answered without the number deleted, and a failed update with the key's entry but without its count; etcd gives both |
| Witnesses.DirectoryIsAnswered | pkg/kine/logstructured/logstructured.go:98-128 | after one create, a get of its absent directory is answered with that key, and so is the read-back of a failed update of the directory; etcd finds nothing |
| Witnesses.OtherKeyIsReadBack | pkg/kine/server/update.go:73-87 | after one create, a failed update whose failure branch asks for another, absent key reads back the created key |
| Witnesses.PageStalls | pkg/kine/server/list.go:31-93 | after creates of a directory key and of a key below it, a first page of one entry counts one too few, and the second page is the first page again |
| Witnesses.PresentPagesMiss | pkg/kine/server/list.go:75-93 | after two creates and one more, of a key before the first page's last while that page is counted: the first page and the listing after it do not make up the listing at their revision |
| Witnesses.ListMisses | pkg/kine/logstructured/sqllog/sql.go:247-268 | a key created between the two reads of a list of the present is not in it, and no watch from the revision it carries ever delivers it |
| Witnesses.WatchMisses | pkg/kine/logstructured/logstructured.go:327-358 | in a run with a subscriber, the poller and the broadcaster, a key created between the two reads of a watch with a catch-up is received from the stream and not delivered |

## Left out

- Retries, error translation, connection pooling, statement caching: driver behaviour outside the table.
- Integer width: revisions are unbounded here; overflow of 64-bit ids and negative revisions or limits in requests are not modelled.
- Start-up, TLS, gRPC, metrics, tracing, schema creation and migration: nothing of the protocol is in them.
- The repair of duplicate bookkeeping rows: proved unreachable instead (`Runs.OneCompactKey`).
- `includeDeleted` queries: no caller asks for them. Events carry the previous value; the previous lease, which the scan copies from the new row, is no history claim.
- Prefixes asked for without a trailing slash, in lists with a start key: the start key is ignored there, and only the single-key case is stated.
- Timing: notification channels, the shortened wait and lease timers; time enters as free choices.
- The second goroutine and the closing handshake of the expiry producer; expiries are steps scheduled by any event, which covers duplicates.
- A watch that is refused still delivers the partial catch-up it read before its channel closes: `Watch.WatchDelivers` says what, and that it closes is not modelled.
- Pagination.Paginate: each page is the entries of one table state; what a whole request does while others write is `Ranges.PageIsAnswered`.
- Ranges.PageIsAnswered: when the number counted is zero because all versions were compacted between list and count, the recount that follows is described for counts only (`Ranges.ZeroIsRecounted`).
- EtcdRanges.RangeIsEtcd: compares with nobody else acting; requests that leave out values are compared for their refusals only.
- Ranges.PresentIsAnswered: an empty present is asked again, and is described by `Backend.ListIsTrue`.
- Space.SpaceIsExact: gap rows are not counted; one filled at or below the compact revision lies behind every later window, unless a stale start reaches back to it, so as a rule nothing removes it.
- Txns.StateIsEtcd: of etcd's requests, comparisons over ranges of keys, sort orders, bounds on the revisions a range returns, the existence of leases and the per-key version counter are not part of the model.
