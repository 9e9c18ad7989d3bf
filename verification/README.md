# Dhava replication core: a verified model

Dhava keeps records on edge nodes that work offline and exchange them with a headquarters
server over links that are slow and lose messages. This project models that exchange in
Dafny and proves what it guarantees: who wins a conflict, when replicas end with the same
data, what an acknowledgement stands for, what a sync brings and what it withholds, and
that the wire frame can be read back from any stream.

`dafny verify dfyconfig.toml` checks all of it.

## How the model is laid out

| file | models |
|---|---|
| `Orders.dfy` | the order on node identifiers, and listings in a total order |
| `VectorClocks.dfy` | vector clocks |
| `Models.dfy`, `Protocol.dfy` | operations, records, messages |
| `Conflict.dfy` | the conflict resolver |
| `Store.dfy` | the record table |
| `Outbox.dfy`, `Scheduling.dfy` | the priority queue, batch size and tier cutoff |
| `Server.dfy` | the server's receive loop and its delta |
| `Engine.dfy` | local writes, the sync cycle, restarts, the link |
| `Framing.dfy`, `Tcp.dfy` | the binary frame and its chunked reader |
| `Replicas.dfy`, `Runs.dfy` | what engine and server do alike; whole runs of a replica |
| `Convergence.dfy`, `AnyStart.dfy`, `Replay.dfy` | the theorems about replicas that receive the same operations, in some order |
| `Resend.dfy`, `Reordering.dfy`, `Resending.dfy` | operations on a record that arrive out of order, or again |
| `Sync.dfy`, `Withheld.dfy` | what completed syncs bring and do not bring |
| `Offline.dfy`, `OfflineSync.dfy` | offline work sent by tier and time |
| `AtLeastOnce.dfy`, `Outcomes.dfy`, `Lifetimes.dfy` | the theorems about all runs of an engine, a server and a faulty link, and what each fate of an exchange comes to |

Objects that the program updates in place (`LocalStore`, `OutboxQueue`, `DDILSyncServer`,
`DDILSyncEngine`, the socket) are classes. Each of their methods is proved to compute the
next state given by a function on values (`ApplyOp`, `Handled`, `Finish`, `SyncEdge` and
so on), and the theorems are about runs of those functions.

## Main results

1. **Convergence, exactly.** From any missing or deleted record, a set of operations of
   all four kinds ends in one view under all delivery orders, batchings and repetitions if
   and only if it holds nothing but deletes, or one of its other operations is beaten by
   none, beats all that could be shown, and leaves the same data over whatever it is
   applied to (`Convergence.ConvergesExactlyWhen`; in simpler words
   `Convergence.ConvergesOnMissing` and `Convergence.ConvergesWithoutMerges`; for whole
   servers `Sync.ServersConverge`). `AnyStart.ConvergesFromAnyRecord` is the theorem for all
   records, live ones included: only the operations that the record can come to take count. Without merges, well synchronised clocks, or a causal
   maximum with no assumption on times at all, are enough exactly if the winner is no
   delete, or all are (`Convergence.WinnerDecides`). Three updates 0.8 s apart already have no canonical
   winner (`Convergence.SkewWindowCycle`); further failing inputs are
   `Convergence.OvertakenDeleteIsLost` and `Convergence.OvertakenMergeLosesFields`.
2. **At-least-once delivery** in every run of writes, lost, damaged or stale messages, late
   and repeated requests, error replies, restarts, purges and other nodes' requests
   (`AtLeastOnce.AtLeastOnceDelivery`).
3. **Offline work.** The server, which resolves, ends where the edge is, which never
   resolves its own writes, if it receives them in order (`Replay.ReplayFromEmpty`). The
   outbox sends by tier and time, so it may not. For any order, any records to start with,
   and over as many syncs as it takes to drain the outbox, `OfflineSync.OfflineThenSyncs`
   says exactly when both show the same; `OfflineSync.DeleteInHigherTierIsLost` and
   `OfflineSync.MergeInHigherTierLosesFields` are runs in which they do not.
4. **Resending a batch** whose reply was lost changes no record's view when the record's
   writes were enqueued in send order (`Offline.OfflineResend`), although a deleted record
   is alive again for a moment. For any send order and all kinds
   `Offline.OfflineResendExactlyWhen` gives the exact condition, one part on the times and
   one on the merges of the batch; `OfflineSync.BackdatedWriteSpoilsResend` and
   `Resending.MergeBehindDelete` are failing inputs for the two parts. After a restart the
   link may be slower and the batch shorter: `Offline.SlowerRetry`.
5. **Push-pull agreement, exactly**: when edge and server show the same record after a
   sync (`Sync.PushPullAgreement`), when three nodes do (`Sync.ThreeNodesAgree`), and when
   a record the edge has never seen arrives (`Sync.UnseenRecordArrives`). "Every unseen record is sent" is false: counters are
   kept per record, but the filter compares them with the peer's one global clock
   (`Withheld.SecondRecordIsWithheld` is a run).
6. **Quiescence.** After a completed sync a second one brings nothing
   (`Sync.SecondSyncIsQuiet`).
7. **Scheduling.** The queue order is characterised up to identity
   (`Outbox.SortIsTheArrangement`), several syncs together send it once and in order
   (`Scheduling.SendOrderIsKept`), a slower link sends a prefix of what a faster one
   sends (`Scheduling.BandwidthPrefix`), and draining takes exactly the rounded-up
   quotient of syncs (`Lifetimes.OutboxDrains`).
8. **Clock coverage, exactly.** Over an engine's lifetime its clock covers all it has
   stored, created or pulled (`Lifetimes.EngineClockCovers`) and is the least clock that
   does (`Lifetimes.EngineClockIsLeast`); a restart loses the cover
   (`Runs.RestartLosesCover`).
9. **Framing** accepts exactly frames, from any stream in any chunks
   (`Framing.UnframeExact`, `Framing.StreamExact`, `Tcp.SendReceive`).

A *view* of a record is its data, clock, time and author while it is live, and nothing
while it is deleted or missing. Version numbers are left out of views on purpose: they
count the writes a replica took (`Runs.VersionsCountWrites`), which differs between
replicas.

## Conventions

- Times, bandwidths and operation identifiers are arguments. Timestamps and the tolerance
  are reals. Integers are unbounded, as in Python.
- SHA-256 is a parameter: a function from bytes to 32 bytes. No property of it is used,
  so integrity against changed bytes is not claimed.
- Where SQL leaves the order of equal rows open, the outbox breaks ties by enqueue order
  and a query by record identifier.
- A message is what its receiver finds when undoing encryption, compression and
  MessagePack: readable entries, a malformed entry at some place, or nothing readable.
- Two operations never draw the same identifier (they are version 4 UUIDs), and an edge
  node and the server do not share one store object.
- A stale reply is any reply the server has sent before, to this node or another. A damaged
  request reaches the server unreadable or with a payload that does not match its hash.

## Where the code and its documentation differ

The model follows the code.

- `README.md:199-203` lists tiers by bandwidth with P0 and P1 alone between 16 and 64 kbps
  and P2 from 64 kbps. The code (`engine.py:575-583`) sends P2 together with P1 from
  16 kbps, P3 from the low and P4 from the high threshold. See `Scheduling.TierEligibility`.
- `README.md:238` calls two equal clocks concurrent and breaks the tie by node
  identifier. The code (`conflict.py:113-117`) discards the operation as a duplicate.
- `README.md:114` speaks of atomic queue locking. `sync_now` (`engine.py:416`) ignores the
  result of `lock()` and always unlocks, so the lock excludes nothing. See
  `Engine.DDILSyncEngine.SyncNow`.
- `README.md:114` and `outbox.py:17` promise first in, first out within a tier. Rows are
  ordered by timestamp (`outbox.py:119-133`), which is enqueue order exactly when the times
  of the tier's rows do not go back (`Outbox.TierIsFifo`); `Outbox.TierIsNotFifo` is a
  queue for which it is not.

## Model

| member | source | states |
|---|---|---|
| `StringOrder.Transitive` | conflict.py:136 | With StringOrder.Asymmetric and StringOrder.Connected: the node identifier comparison of the tiebreak is a strict total order on all strings. |
| `StringOrder.Asymmetric` | conflict.py:136 | The tiebreak never prefers both of two identifiers. |
| `StringOrder.Connected` | conflict.py:136 | Of two different identifiers one is always smaller, so the tiebreak always has an answer. |
| `StringOrder.LessExactly` | conflict.py:136 | A string comes before another if and only if it is a beginning of it or has the smaller character where they first differ. |
| `StringOrder.FirstDifferenceDecides` | conflict.py:136 | The first difference decides whatever follows it, however long. |
| `SetSort.PositionIsRank` | store.py:34-57 | In a listing ordered by a strict total order, a row's position is the number of rows before it in that order. |
| `SetSort.NegativeBounds` | store.py:57 | Negative slice bounds count from the end and stop at the beginning. |
| `VectorClocks.CompareByLoop` | vector_clock.py:48-72 | The two-flag loop, visiting the nodes in any order, answers exactly as the pointwise order over all node identifiers does. |
| `VectorClocks.CompareDecides` | vector_clock.py:48-77 | The four answers split all pairs of clocks exactly by the pointwise order in the two directions, and `dominates` is the converse order. |
| `VectorClocks.OrderDecides` | vector_clock.py:25-30 | The same for dictionaries with zero or negative entries: normalising changes nothing about the order. |
| `VectorClocks.OrderFlips` | vector_clock.py:48-72 | Swapping the arguments swaps before and after and leaves equal and concurrent alone. |
| `VectorClocks.BeforeTransitive` | vector_clock.py:48-72 | "Before" is transitive. |
| `VectorClocks.EqualIsIdentical` | vector_clock.py:25-30 | Two normalised clocks compare equal if and only if they are the same dictionary. |
| `VectorClocks.MergeIsLeastUpperBound` | vector_clock.py:38-46 | Merge lies above both clocks and below everything that lies above both. |
| `VectorClocks.MergeIsSemilattice` | vector_clock.py:38-46 | Merge is idempotent, commutative and associative, as dictionaries and not just as orders. |
| `VectorClocks.IncrementIsAfter` | vector_clock.py:32-36 | A tick is strictly after the clock it started from. |
| `VectorClocks.IncrementIsNext` | vector_clock.py:32-36 | No clock lies strictly between a clock and its tick. |
| `VectorClocks.IncrementAt` | vector_clock.py:32-36 | A tick raises the given node's counter by one and no other. |
| `Conflict.Resolve` | conflict.py:47-181 | The winner follows from liveness, causal order, time window and author; the action is merge, apply or discard by winner and kind; the basis is the causal comparison, or "non-existent" without a live record; each tiebreaker is named only where its condition holds, and by identifier the greater one wins. |
| `Conflict.ConflictExactly` | conflict.py:89-119 | A conflict is counted if and only if both versions are live and neither clock is below the other. |
| `Conflict.FirstDifferenceWins` | conflict.py:134-151 | Between concurrent versions inside the window the first difference of the identifiers decides. |
| `Conflict.NineBeatsTen` | conflict.py:134-151 | "edge-9" wins against "edge-10". |
| `Conflict.SymmetricWinner` | conflict.py:119-151 | For concurrent versions both replicas pick the same winner if and only if the gap exceeds the tolerance or the authors differ (with the separate condition for a negative tolerance). |
| `Conflict.OneSideYields` | conflict.py:94-151 | Between versions of different authors with different clocks at least one side gives way, for every tolerance. |
| `Conflict.CausalWinner` | conflict.py:94-111 | A causally later version wins in both directions whatever the timestamps say. |
| `Store.WindowIsRank` | store.py:34-57 | A record is in the first `limit` rows of a query if and only if fewer than `limit` records of the collection rank before it. |
| `Store.PageIsRank` | store.py:34-57 | A query lists exactly the rows that pass its filters and have from `offset` to `offset + limit` newer such rows. |
| `Store.FilterCommutesWithOrder` | store.py:47-55 | Filtering the ordered rows gives the filtered rows in order. |
| `Store.FirstPage` | server.py:203 | The server's query, without filters and from the start, is the first `limit` rows. |
| `Store.QueryByTime` | store.py:34-57 | Whatever the slice, a query lists matching rows once each, later modified ones first. |
| `Store.FirstPageByTime` | store.py:34-57 | A matching row is left out of a first page only if the page is full and nothing on it was modified before that row. |
| `Store.WindowDistinct` | store.py:34-57 | A query never lists a record twice. |
| `Store.CollectionsExact` | store.py:78-82 | The collection list holds exactly the collections with a live record, each once. |
| `Store.AppliedMeaning` | store.py:91-277 | Column by column what an applied operation leaves: only its own record changes, an existing version rises by exactly one and a new one starts at the Lamport value or one, clock, time and author are the operation's, deletion flag and time belong to deletes, a merge lays its fields over the old, a delete keeps the data. |
| `Store.LocalStore.Get` | store.py:20-32 | Tombstones are shown only on request. |
| `Store.LocalStore.GetVectorClock` | store.py:84-89 | The clock a write starts from, tombstones included, empty for an unknown key. |
| `Store.LocalStore.Query` | store.py:34-57 | The filtered rows in order, cut as a Python slice; on the table's columns: only matching rows, each once, times never going up, and a first page leaves a matching row out only if it is full of rows modified no earlier. |
| `Store.LocalStore.GetAllCollections` | store.py:78-82 | A collection is listed if and only if it has a live record, and the list is strictly alphabetic. |
| `Store.LocalStore.ApplyOperation` | store.py:91-103 | The new table; the returned record is what a read then finds; no other key changes. |
| `Store.LocalStore.ApplyWhole` | store.py:105-189 | Create and update: the upsert of the whole payload, also over a tombstone. |
| `Store.LocalStore.ApplyMerge` | store.py:191-234 | Merge: right-biased union with the existing data, also over a tombstone. |
| `Store.LocalStore.ApplyDelete` | store.py:236-277 | Delete: a tombstone that keeps the data column, or an empty one for an unknown key. |
| `Replicas.DeliveryIsPerKey` | server.py:129-155 | A delivery run acts on every record as the subsequence of that record's operations alone. |
| `Replicas.ReceiveConcat` | server.py:128-157 | Splitting a run of operations into batches does not matter. |
| `Replicas.ReceiveClock` | server.py:130-135 | After a receive run the global clock covers the old clock and every operation of the run. |
| `Replicas.ReceiveClockIsLeast` | server.py:130-135 | The global clock after a receive run is the least that covers the old clock and every operation of the run. |
| `Replicas.ReceiveLamport` | server.py:130-132 | The exact Lamport value after a receive run. |
| `Replicas.WriteAdvances` | engine.py:175-196 | A local write's clock is strictly after the one its record had. |
| `Replicas.WriteTicksOnce` | engine.py:175-191 | A local write's clock is the record's with one tick of the writer, its Lamport value the next one, and it carries what the caller gave, a delete carrying nothing. |
| `Convergence.ConvergesExactlyWhen` | conflict.py:53-153 | From any missing or deleted record, a set of operations of all four kinds ends in one view under all delivery orders with repetitions if and only if it holds only deletes, or some other operation is beaten by none, beats all others that could be shown, and leaves its data whatever it is laid over. |
| `Convergence.ConvergesOnMissing` | store.py:191-234 | On a missing record the data part says: if a merge wins, it sets every field of all others. |
| `Convergence.ConvergesWithoutMerges` | conflict.py:53-153 | Without merges the condition and the view are the same for every missing or deleted record. |
| `Convergence.SettlesEndsIn` | server.py:129-157 | Which view it is: the one the settling operation leaves on its own. |
| `AnyStart.ConvergesFromAnyRecord` | conflict.py:53-153 | The same from every record, live ones included: all delivery orders end in one view if and only if the record can come to show none of the operations, or one of those it can come to show wins against what it shows at first and settles it among them. |
| `AnyStart.SettlesFromEndsIn` | server.py:129-157 | Which view that is. |
| `AnyStart.ReplicasConvergeFromAny` | server.py:129-157 | Two replicas with the same record, live or not, that receive the same operations on it under that condition show the same record. |
| `Convergence.TopDecides` | conflict.py:53-65 | If one operation wins against all others, a set without merges converges if and only if that one is no delete or all are. |
| `Convergence.SkewSafeDecision` | conflict.py:119-151 | When causal order implies a gap above the tolerance, the decision is time window, then node identifier. |
| `Convergence.SkewSafeIsStrictTotal` | conflict.py:89-153 | If also closeness in time is transitive on the set and authors differ inside a window, "wins" is a strict total order. |
| `Convergence.TotalOrderHasTop` | conflict.py:89-153 | A strict total order of winners has an operation that wins against all others. |
| `Convergence.ChainTopIsTop` | conflict.py:94-111 | The maximum of a causal chain wins against the whole chain, with no assumption on timestamps. |
| `Convergence.WinnerDecides` | conflict.py:53-153 | Under synchronised clocks or below a causal maximum a set without merges converges if and only if the winner is no delete or all are. |
| `Convergence.ReplicaSettles` | server.py:129-157 | A replica without the live record that receives the operations in any order, batching and repetition, among other traffic, shows what the settling operation leaves. |
| `Convergence.ReplicasConverge` | server.py:129-157 | Two replicas that receive the same operations of any kinds on a record show the same record, if these converge and the data under possible tombstones is the same or no merge is among them. |
| `Convergence.AllBeatenDiverges` | conflict.py:53-151 | A set in which every operation that could be shown is beaten by another, delete or not, does not converge. |
| `Convergence.SkewWindowCycle` | conflict.py:122-151 | Three concurrent updates 0.8 s apart under the default tolerance do not converge: the window is not transitive. |
| `Convergence.OvertakenDeleteIsLost` | conflict.py:53-65 | A failing input: a delete that overtakes an operation it wins against is lost and the operation revives the record. |
| `Convergence.OvertakenMergeLosesFields` | store.py:191-234 | Two merges, one winning against the other, commute on a missing record if and only if the winner sets every field of the other. |
| `Resend.ChainFromDead` | conflict.py:53-65 | From a missing or deleted record a causal chain ends live exactly when its last operation is no delete, with that operation's clock. |
| `Resend.ChainFromLive` | conflict.py:89-117 | On a live record a causal chain is turned away as a whole, or ends as its last operation leaves the record. |
| `Resend.ChainTwice` | server.py:129-157 | Running a causal chain of any kinds twice leaves the view of the first run, from any starting record. |
| `Resend.ResendIsIdempotent` | server.py:129-157 | Handling a whole batch a second time leaves every record's view, if the batch's operations on the record form a chain. |
| `Resend.ResendBrieflyUndoesDelete` | conflict.py:53-65 | In between, the resend of an update and a delete does revive the record. |
| `Resend.WritesFormChain` | engine.py:175-196 | A node's writes of one record, with nothing pulled in between, form such a chain, ending in the stored clock. |
| `Reordering.WhatSurvives` | conflict.py:53-117 | When operations that know of each other reach a missing or deleted record in any order, it shows the newest one that is no delete and has nothing newer delivered after it, and nothing if there is none. |
| `Reordering.WhatIsTaken` | conflict.py:53-117 | Which operations the resolver takes is decided by causal order alone when none is concurrent with what the record shows, and the record's data is what the taken ones leave over its own. |
| `Reordering.FirstTakenRun` | conflict.py:53-151 | A live record that takes the first of the operations runs on like a deleted one with its data. |
| `Resending.ResendInAnyOrder` | server.py:129-157 | One node's operations of any kinds on a record can be sent again in the order sent, to any record, if late ones are old and merges come back the same. |
| `Resending.ResendExactlyWhen` | server.py:129-157 | They can be sent again to every record if and only if each one sent after a survivor is no later in time than some newer one sent before it, and what the second run takes adds nothing to what the first has taken; both conditions speak of the operations alone, the tolerance plays no part. |
| `Resending.ResendOn` | server.py:129-157 | On one record: the second run is harmless if and only if what it takes leaves the data of the first run. |
| `Resending.TopComesBack` | conflict.py:94-117 | The second condition always holds if the newest operation is no delete. |
| `Resending.ReplacementComesBack` | store.py:105-189 | It also holds if what survives is a create or update. |
| `Resending.ComesBackUnlessTheyMeet` | store.py:191-277 | And if the operations do not hold both deletes and merges. |
| `Resending.RivalExists` | conflict.py:119-151 | The records that show necessity: another node's own write over what it had pulled, refusing all before a given operation and taking that one. |
| `Resending.LateOneSpoilsResend` | conflict.py:119-151 | A record that refuses all before a late operation and takes that one changes its view on the resend. |
| `Resending.MergesSpoilResend` | store.py:191-234 | Where merges do not come back the same, some record changes its data on the resend. |
| `Resending.MergeBehindDelete` | store.py:191-234 | A failing input although late ones are old: an update, a newer delete and an older merge, in that order. |
| `Offline.BatchOnRecord` | outbox.py:91-137 | A batch holds of each record a front part of its eligible rows in send order. |
| `Offline.OfflineResend` | engine.py:417-470 | The batch a sync pushes after offline work, at any bandwidth, can be pushed again to any server in any state without changing what a record shows, if that record's writes were enqueued in send order. |
| `Offline.OfflineResendExactlyWhen` | engine.py:417-470 | For any send order and any kinds: every server can take the batch again if and only if the two conditions hold of the record's operations in it. |
| `Offline.SteadyClockResend` | engine.py:417-470 | If the times of the record's writes do not go back, the second condition is the exact one, whatever the tiers; it holds unless the newest operation sent is a delete and both deletes and merges are present. |
| `Resend.PrefixAgain` | server.py:129-157 | Running a front part of a chain after the chain keeps the view if and only if the record had turned the chain away, or the chain's last operation is no delete, or the front part's last is one; the rest brings the view back in any case. |
| `Outbox.PendingAlike` | outbox.py:91-137 | What is sent does not depend on the rows' attempts, errors and acknowledgement times. |
| `Offline.RetryIsPrefix` | engine.py:445-454 | After a lost reply and a restart, a slower link sends again a front part of the batch. |
| `Offline.SlowerRetry` | engine.py:445-454 | When that retry changes what the server shows, exactly, and that sending the rest of the batch restores it. |
| `OfflineSync.BackdatedWriteSpoilsResend` | engine.py:417-470 | A failing run: the second of two updates lies in a higher tier and is backdated behind a server's concurrent record; pushing the same batch again changes the view. |
| `Replay.WriteKeepsSimulation` | engine.py:164-363 | One write of any kind keeps the relation between the edge's record and the server's. |
| `Replay.ReplaySimulates` | server.py:138-155 | Along any writes delivered in order, the relation holds for every key. |
| `Replay.ReplayFromEmpty` | engine.py:164-363 | A single edge and a server, both from empty, show the same records after any writes of all four kinds, discarded double deletes and merges over tombstones included. |
| `Runs.ReceiveIsRun` | engine.py:484-510 | The pull loop is a run of remote events. |
| `Runs.PerformKeepsCovered` | engine.py:175-196 | A write or pull keeps the global clock and the Lamport counter above everything stored, created or pulled. |
| `Runs.LifetimeIsCovered` | engine.py:489-496 | Along every run from an empty store the global clock covers every stored record and every operation seen. |
| `Runs.RunClockIsLeast` | engine.py:489-496 | The global clock after a run is the least that covers the one at its start and every operation created or pulled. |
| `Runs.PerformLamport` | engine.py:175-176 | One event raises the Lamport counter by one, or past the value it brings. |
| `Runs.ClockNeverDecreases` | engine.py:489-496 | The global clock never decreases and the Lamport counter grows with every event. |
| `Runs.NextLamportIsLargest` | engine.py:175-178 | The next local operation's Lamport value exceeds all seen before. |
| `Runs.RestartLosesCover` | engine.py:117-118 | After a restart the zeroed clock covers the store if and only if no stored record has a counter at all. |
| `Runs.EventOnRecord` | conflict.py:94-151 | An event leaves a record or gives it the operation's clock, time and author and the next version; a live record is never replaced by an older or equal clock. |
| `Runs.VersionsCountWrites` | store.py:91-277 | Over any run keys never vanish and a record's version counts exactly the writes it took. |
| `Runs.UntouchedStays` | store.py:91-277 | A run that takes no write on a record leaves it unchanged. |
| `Runs.OwnCounterDropsOnlyByLosing` | store.py:148-189 | A node's own counter on a live record goes down only when the record lost a concurrent conflict. |
| `Outbox.OutboxQueue.Enqueue` | outbox.py:25-61 | A new operation is appended as pending; a repeated identifier is refused with the queue unchanged; identifiers stay unique. |
| `Outbox.OutboxQueue.GetPending` | outbox.py:91-137 | The limited send order of the matching pending rows; higher tiers first and earlier times first inside one, each operation in the tier, under the cutoff and in the collection asked for. |
| `Outbox.OutboxQueue.PendingCount` | outbox.py:63-72 | The number of places of the queue that hold a pending row of the tier, or of any. |
| `Outbox.OutboxQueue.PendingBreakdown` | outbox.py:74-89 | One count per tier; the counts sum to the pending count in every state of the queue. |
| `Outbox.OutboxQueue.MarkSynced` | outbox.py:139-153 | Exactly the named rows become synced at the given time; what else they hold and all other rows stay. |
| `Outbox.OutboxQueue.MarkFailed` | outbox.py:155-170 | Exactly the named rows become failed, with one more attempt and the error; all other rows stay. |
| `Outbox.OutboxQueue.MarkConflicted` | outbox.py:172-182 | Exactly the named row becomes conflicted with the detail, all others stay, and no query returns more rows than before. |
| `Outbox.OutboxQueue.ResetInFlight` | outbox.py:184-188 | Exactly the failed rows become pending, attempts and error kept; their number is returned, and the pending count grows by it. |
| `Outbox.OutboxQueue.PurgeSynced` | outbox.py:190-195 | Exactly the synced rows with a time before the cutoff go, and their number is returned. |
| `Outbox.OutboxQueue.Lock` | outbox.py:197-203 | Whether the queue was open; it is locked afterwards. |
| `Outbox.PurgeShrinks` | outbox.py:190-195 | A purge keeps exactly the rows that are not synced with a time before the cutoff. |
| `Outbox.SelectMembers` | outbox.py:101-117 | The filter keeps exactly the pending rows of the tier, or under the cutoff, and of the collection. |
| `Outbox.SortIsStable` | outbox.py:119-133 | Within a tier and a time the order is first in, first out. |
| `Outbox.SortIsTheArrangement` | outbox.py:119-133 | A sequence is the send order if and only if it is ordered by tier then time and keeps the enqueue order inside each tier and time. |
| `Outbox.AlreadyInOrder` | outbox.py:119-133 | The queue is sent in enqueue order if and only if it was enqueued in tier-then-time order. |
| `Outbox.SelectionIsSortedAlone` | outbox.py:101-133 | Whatever rows are selected, they are sent in the same order whether or not there are others. |
| `Outbox.TierIsFifo` | outbox.py:119-133 | A tier is sent in enqueue order if and only if the times of its rows do not go back. |
| `Outbox.TierIsNotFifo` | outbox.py:119-133 | A failing queue: two rows of one tier with the second backdated are sent the other way round. |
| `Outbox.RecordKeepsItsOrder` | outbox.py:119-133 | The operations on a record leave in enqueue order if and only if their tiers and times stand in that order. |
| `Outbox.PendingIsBestPrefix` | outbox.py:91-137 | A batch holds min(limit, matches) rows, in order, and no matching row left out ranks before one returned. |
| `Scheduling.TierEligibility` | engine.py:575-583 | Which tier a link carries at which bandwidth, for all thresholds. |
| `Scheduling.BatchLength` | engine.py:565-573 | Exactly how many eligible rows a sync sends in each bandwidth band, for all thresholds and batch sizes. |
| `Scheduling.CutCommutesWithSort` | outbox.py:119-133 | The order under a higher cutoff is the order under the lower one followed by the order of the rows between. |
| `Scheduling.LimitsAreMonotone` | engine.py:565-583 | Cutoff and limit grow with the bandwidth, for all thresholds. |
| `Scheduling.BandwidthPrefix` | engine.py:565-583 | The batch of a slower link is a prefix of the batch of a faster one, for all thresholds and batch sizes. |
| `Scheduling.AckMarksBatch` | outbox.py:139-153 | Acknowledging a batch marks exactly its rows. |
| `Scheduling.SyncMovesBatch` | engine.py:417-474 | An acknowledged sync moves exactly min(k, eligible) rows from pending to synced and changes no other row. |
| `Scheduling.RemainingAfter` | engine.py:417-474 | The exact number of eligible rows left after n syncs. |
| `Scheduling.DrainBound` | engine.py:565-573 | No eligible row is left if and only if at least the rounded-up quotient of syncs has been made. |
| `Scheduling.SendOrderIsKept` | engine.py:417-474 | Over any number of acknowledged syncs, what was sent followed by what is still to be sent is the send order of the queue they started on. |
| `Scheduling.DrainedHasSentAll` | engine.py:417-474 | Syncs that leave nothing eligible have sent everything eligible once and in send order. |
| `Scheduling.UnusualBatchSizes` | engine.py:565-573 | A negative batch size drains everything in one sync, a batch size of zero sends nothing. |
| `Protocol.GoodCount` | server.py:128-159 | How far a reader gets before the first malformed entry. |
| `Protocol.WrapIsReadable` | engine.py:422-424 | What one side packs the other reads back in full. |
| `Server.DeltaOnKey` | server.py:195-230 | A delta holds each record at most once. |
| `Server.DeltaExact` | server.py:195-230 | An operation is in the delta if and only if it is the current state of a record in the window, by another author, not covered by the peer's clock. |
| `Server.WindowListed` | server.py:200-203 | The window is: a collection with a live record, and fewer than 500 newer records in it. |
| `Server.WantedMeansUncovered` | server.py:204-210 | The two comparison outcomes that send a record amount to "not below the peer's clock". |
| `Server.DeltaByTime` | server.py:200-210 | An uncovered record of another author is sent if fewer than 500 others of its collection were modified at its time or later, and none is sent of which 500 were modified later. |
| `Server.DeltaCarriesRecord` | server.py:212-227 | Field by field what an operation of a delta carries. |
| `Server.DeltaIsNamed` | server.py:214 | Its identifier names collection, record and the version in decimal. |
| `Server.DeltaInOrder` | server.py:198-203 | A delta goes through the collections in alphabetic order and through each from the latest record to the earliest. |
| `Server.ReplyExactly` | server.py:95-193 | A request is answered with ok if and only if the node is registered or need not be and the payload is empty or matches its hash and is readable to its end; what is then acknowledged and sent, and that an error reply carries nothing and registers nobody. |
| `Server.DDILSyncServer.ReceiveOperation` | server.py:129-155 | One pass of the receive loop: the exact Lamport value, the global clock as the maximum node by node, and the store as the resolver decides. |
| `Server.DDILSyncServer.ReceiveItems` | server.py:128-157 | The loop processes exactly the entries before the first malformed one and acknowledges those. |
| `Server.DDILSyncServer.ReceivePayload` | server.py:111-166 | Integrity failure runs nothing; an unreadable list runs its readable prefix and is then an error. |
| `Server.DDILSyncServer.HandleSyncRequest` | server.py:95-193 | The new server state and the reply; when it is ok, by the parts of the request; an acknowledgement names exactly what reached the resolver, an error reply nothing; only an ok reply registers the node, and a refused node changes no state. |
| `Server.DDILSyncServer.GetOperationsForPeer` | server.py:195-230 | The nested loops compute the delta characterised by Server.DeltaExact. |
| `Server.DDILSyncServer.GetOperationsInCollection` | server.py:202-229 | The inner loop over one window. |
| `Engine.DDILSyncEngine.constructor` | engine.py:91-126 | A start or restart zeroes the counter and the clock, keeps the store and makes failed rows pending. |
| `Engine.DDILSyncEngine.NextOperation` | engine.py:175-191 | The next Lamport value, the record's clock with one tick of this node, and the global clock raised by it. |
| `Engine.DDILSyncEngine.PerformWrite` | engine.py:164-212 | A write's effect on counter, clock, store and outbox. |
| `Engine.DDILSyncEngine.CreateRecord` | engine.py:164-212 | Create, with the record it returns. |
| `Engine.DDILSyncEngine.UpdateRecord` | engine.py:218-266 | Update, with the record it returns. |
| `Engine.DDILSyncEngine.MergeRecord` | engine.py:268-316 | Merge, with the fields it returns. |
| `Engine.DDILSyncEngine.DeleteRecord` | engine.py:318-363 | Delete; afterwards the record is not live. |
| `Engine.DDILSyncEngine.PullOperation` | engine.py:484-510 | One pass of the pull loop: the exact Lamport value, the global clock as the maximum node by node, and the store as the resolver decides. |
| `Engine.DDILSyncEngine.PullItems` | engine.py:484-510 | The pull loop up to its end or to the entry that raises. |
| `Engine.DDILSyncEngine.FinishSync` | engine.py:445-516 | What each kind of answer does to the rows, the replica and the mode; the sync is completed if and only if the answer arrived, was ok and could be read to its end. |
| `Outcomes.NoAnswerFailsBatch` | engine.py:445-454 | Without an answer every row of the batch fails with one more attempt and the error noted, no other row changes, and the pending operations fall by exactly the batch. |
| `Outcomes.ErrorReplyFailsBatch` | engine.py:461-470 | The same after an error reply, with its text. |
| `Outcomes.GarbledReplyChangesNothing` | engine.py:456-563 | An answer that cannot be read, or no transport, changes nothing on the edge. |
| `Outcomes.OkReplySyncsNamedRows` | engine.py:472-510 | After an ok reply exactly the rows it names are synced and its readable part is received. |
| `Outcomes.ServerByFate` | server.py:95-193 | The server runs the batch if and only if it admits the node and the request arrives whole, whatever becomes of the reply. |
| `Outcomes.AnswerByFate` | server.py:95-193 | What comes back for each fate of the exchange, with the error a damaged or unadmitted request is answered with. |
| `Outcomes.CompletesExactlyWhen` | engine.py:512-516 | A sync is completed if and only if it is delivered to a server that admits the node, or another readable ok reply comes. |
| `Outcomes.RestartMeans` | engine.py:117-126 | What a restart keeps and forgets, and that exactly the failed rows become pending. |
| `Outcomes.StepIsSync` | engine.py:410-510 | A sync step of a run does to both nodes what a sync does, and the log of run operations grows by the batch exactly if it arrived. |
| `Engine.DDILSyncEngine.SyncNow` | engine.py:385-563 | A whole sync on both nodes for every fate of the exchange; the lock is open afterwards whatever it was before. |
| `Engine.Exchange` | transports/loopback.py:50-57 | What the link does to the server and which answer it returns, damage that shows only in the payload hash included. |
| `Sync.ReplicasAfterSync` | engine.py:410-510 | After a delivered sync the server has received the batch and the edge the delta taken after it. |
| `Sync.RecordsAfterSync` | engine.py:481-510 | The same, record by record: at most one pulled operation per record. |
| `Sync.RefusedIsPulled` | conflict.py:94-151 | A server record that turned a push away wins on the edge when pulled. |
| `Sync.PushPullAgreement` | server.py:202-229 | After a completed sync that pushed the edge's writes of a record, of any kinds and in the order made, both sides show the same if and only if the server took writes and has the edge's record from them, or sent its own record back, or both had deleted it or show the write of one clock. |
| `Sync.ChainArrives` | conflict.py:94-151 | A pushed chain of which the server takes something leaves its record as the edge has it, if and only if a last merge finds the data for it. |
| `Sync.PullAgreement` | server.py:202-229 | A node with nothing to push on a record agrees with the server after a sync if and only if it did before or the record is in the delta and the node takes it. |
| `Sync.ThreeNodesAgree` | server.py:95-230 | One node agrees with the server, another syncs its own write, the first syncs again: all three show the same if and only if the write was taken and lies in the first node's delta, or it was refused and the server's record reached the writer or was there already. |
| `Sync.UnseenRecordArrives` | server.py:206-210 | A live record the edge has never seen arrives if and only if it is in the window, by another author, and not covered by the edge's one global clock. |
| `Withheld.SecondRecordIsWithheld` | server.py:202-210 | A run of four completed syncs after which a reader lacks a record it has never seen: the writer's first writes of two records carry the same clock. |
| `Sync.FirstDelivery` | server.py:212-227 | A live record that reaches a node without it through a delta is stored as it was, version included unless below one. |
| `Sync.RequestsAreOneRun` | server.py:128-157 | Handling any requests, failed ones included, is one run of the operations that got through. |
| `Sync.ServersConverge` | server.py:95-193 | Two servers that handle different request streams but ran the same operations of any kinds on a record show the same record, if these converge. |
| `Sync.DeltaIsExhausted` | server.py:195-230 | After a whole delta has been processed the same server has nothing more for the edge, the cut at 500 included. |
| `Sync.SecondSyncIsQuiet` | engine.py:485-495 | A second sync with nothing to push gets an empty delta and changes neither side. |
| `AtLeastOnce.StepKeeps` | engine.py:410-474 | Every step (write, sync of any outcome, restart, purge, any other arrival of a request at the server) keeps the four-part delivery invariant. |
| `AtLeastOnce.AtLeastOnceDelivery` | server.py:128-166 | In every run a row is synced only if the server ran that very operation, and an enqueued operation is without a row only if that had happened and the row was purged. |
| `AtLeastOnce.OwnRequestMayRepeat` | server.py:128-157 | The runs include every late or repeated arrival of the edge's own requests. |
| `AtLeastOnce.OnlyRestartRevives` | outbox.py:184-188 | Between restarts no failed row becomes pending. |
| `AtLeastOnce.BatchIsEnqueued` | engine.py:417-420 | A pushed operation is an enqueued one, identified by its identifier. |
| `AtLeastOnce.PurgeKeeps` | outbox.py:190-195 | A purge keeps the delivery invariant. |
| `AtLeastOnce.SyncKeeps` | engine.py:410-474 | A sync over any link keeps the delivery invariant. |
| `Lifetimes.StepIsRun` | engine.py:484-510 | Every step short of a restart is a run of local writes and pulled operations. |
| `Lifetimes.EngineClockCovers` | engine.py:489-509 | In one engine lifetime, failed syncs included, the clock covers all stored, created and pulled, and the next Lamport value exceeds all of theirs. |
| `Lifetimes.EngineClockIsLeast` | engine.py:489-509 | The engine's clock is the least that covers the one at its start and what it has created or pulled since. |
| `Lifetimes.OutboxDrains` | engine.py:410-474 | Against a server that answers, the two nodes together need exactly the rounded-up quotient of syncs to drain the eligible rows. |
| `OfflineSync.WholeOutboxIsPushed` | outbox.py:91-137 | A batch with room for the whole queue sends all of it, and a record's rows in enqueue order if and only if they were enqueued in send order. |
| `OfflineSync.OwnRecordsAreNotReturned` | server.py:206 | A server that holds only a node's own records sends that node nothing. |
| `OfflineSync.OfflineThenSyncs` | engine.py:385-510 | After any offline work on any database and as many syncs as drain the outbox, with a server that holds this node's records, every row is synced and the server shows a record on which the two agreed before as the edge does: always if the last write replaces the record; if it merges, exactly when the writes taken by causal order leave the data of all of them; if it deletes, exactly when no other write of the record was sent with nothing newer after it. |
| `OfflineSync.OwnSyncs` | engine.py:410-510 | Over several syncs the server receives what was sent, in that order, and the edge's replica stays as it was. |
| `OfflineSync.InOrderIsSame` | outbox.py:119-133 | For a record written in send order that condition always holds. |
| `OfflineSync.DeleteInHigherTierIsLost` | outbox.py:119-133 | A failing run: a record is written and deleted in a higher tier; all is acknowledged, the edge has deleted it, and the server shows it. |
| `OfflineSync.MergeInHigherTierLosesFields` | store.py:191-234 | A failing run: of two merges the second lies in a higher tier; the server ends with its fields only, and the two sides agree if and only if it sets every field of the first. |
| `Framing.LengthRoundTrip` | utils/serialization.py:48-55 | The length field decodes to the length. |
| `Framing.LengthRoundTripBack` | utils/serialization.py:69-71 | And every four bytes are the field of the length they decode to. |
| `Framing.HeaderBytes` | utils/serialization.py:20-55 | The bytes of a frame: DDIL, version one, the length with its most significant byte first, the digest, the payload. |
| `Framing.RejectionExactly` | utils/serialization.py:66-86 | Which error each kind of damaged data is rejected with. |
| `Framing.ChangedPayloadIsFound` | utils/serialization.py:83-86 | A changed payload is rejected if its digest changes. |
| `Framing.UnframeExact` | utils/serialization.py:48-89 | Unframing yields (p, rest) if and only if the data is the frame of p followed by rest. |
| `Framing.StrictPrefixIsIncomplete` | utils/serialization.py:66-83 | Every strict prefix of a frame is rejected as incomplete, never as bad. |
| `Framing.FramesArePrefixFree` | utils/serialization.py:48-89 | Two streams that start with frames are equal only if payloads and rests are. |
| `Framing.StreamRoundTrip` | utils/serialization.py:48-89 | Concatenated frames come apart in order, up to whatever follows. |
| `Framing.StreamExact` | utils/serialization.py:58-89 | Repeated unframing ends, and frames and rest put together are the data again. |
| `Tcp.Socket.ReadExactly` | transports/tcp.py:60-64 | The read loop ends for every schedule of chunks, takes exactly the bytes wanted, and over a reliable stream fails only if they are not there. |
| `Tcp.ReplyIsFrame` | transports/tcp.py:59-79 | A reply is p if and only if the stream starts with the frame of p. |
| `Tcp.SendReceive` | transports/tcp.py:51-86 | Over a reliable connection the outcome depends on the stream alone, not on the chunks; exactly 41 + length bytes are consumed. |

## Left out

- SQLite, write-ahead logging, pragmas, threads: a table is a map or a sequence, each method call one atomic step.
- Crashes inside a write: applying to the store and enqueueing are two transactions, and the model claims nothing about a crash between them.
- SQLite's limit on the number of bound variables in one statement, which a very long acknowledgement list could reach.
- Encryption, compression, signatures, key exchange, MessagePack, JSON and the field-by-field dictionary conversions.
- HTTP, serial and file transports, the ranking of transports, and measuring bandwidth and latency; a link is a bandwidth number and a fate.
- Audit log, telemetry counters, session statistics (conflict counts, byte counts, durations), status callbacks.
- The resolver's reason and audit texts; its action, winner, basis and kind of tiebreak are kept.
- The user, authority and source module columns, which no decision reads; the key columns inside a record, which are its key here.
- `count`; and Python's equality of `True` with `1` in query filters.
- Command line, background loop, examples, media references.
- Comparing or dominating with a plain dictionary that was not normalised: all call sites pass a `VectorClock`.
- Rounding of floating-point timestamps.
- A restart of the server, and registering a node from outside: the set of registered nodes starts empty and grows with each answered request.
- The `SYNCING` state, which is only visible to other threads during a sync.
- `Engine.DDILSyncEngine.PerformWrite`: assumes a fresh identifier; the primary key error of a repeated one is modelled in `Outbox.OutboxQueue.Enqueue` only. The four write methods repeat one course in the source, which is written once here.
- `Store.LocalStore.ApplyWhole`: create and update have the same body in the source and share one method here.
- `Tcp.SendReceive`: connecting and sending are left out; a connection that fails there is a `NoReply` before anything is read.
- `Server.DDILSyncServer.HandleSyncRequest`: error texts omit the node name and the exception text.
- `Engine.DDILSyncEngine.FinishSync`: an answer whose exchange failed carries one fixed text; the transport's own wording is not modelled.
- `Engine.Exchange`: damage changes the payload only; a request or reply whose other fields are changed is not modelled.
- `OfflineSync.OfflineThenSyncs`: the server holds records of this node only, so that nothing is pulled in between, and the link carries the tiers of all writes; what several nodes do to one record is in `Sync.PushPullAgreement` and `Sync.ThreeNodesAgree`.
- `Sync.PushPullAgreement`: speaks of a record whose writes are pushed in the order made.
- `Sync.ThreeNodesAgree`: the second node pushes one write, and no merge.
