# A verified model of the vector-database benchmark harness

The harness drives Qdrant, Milvus and Weaviate with many clients, logs what they did, and
computes recall and throughput from the logs. This project models the parts of it whose
correctness is decided by the code and not by a database, and proves what they promise. Dafny
checks it with `dafny verify dfyconfig.toml`.

| component | modules |
|---|---|
| row split among workers and clients, four splitters | `RowPartition` |
| recall reconstruction from a mixed insert and query log | `TopK`, `Visibility`, `RecallRun`, `RecallReport`, `Truncation` |
| coordination of the Go batch clients | `Coordination`, `BatchProtocol`, `BatchProofs`, `BatchRuns`, `BatchSafety` |
| the Rust batch client's barrier | `RustBarrier` |
| result files and the recall tool | `Decimal`, `ResultFiles`, `RecallTool` |
| shard rebalancing | `ShardRebalance` |
| the hand-written NPY readers | `NpyFormat` |
| trace trees | `TraceTree` |
| bulk import | `BulkUpload` |
| waiting for quiescence | `Quiescence` |
| the schema sweep | `SchemaSweep` |
| the mixed insert workload and its dry run | `MixedWorkload`, `DryRunSearch` |
| throughput windows | `Throughput` |

`Basics` holds small notions shared by all of them.

## How to read it

Code that only computes is a function; code that changes things step by step is a method with
its loops, or a class whose methods change its fields, proved against a function of the inputs
or of the old state. The lemmas then say what that function means. Concurrent parts are step
relations: a state, the steps any client may take next, and runs as sequences of states; what
is claimed of them holds for every run, that is, for every interleaving. The Go clients'
shared objects are classes in `Coordination`, and the step relation is built from the same
transitions that their methods are proved to make.

What the outside does is a parameter or a nondeterministic choice: which inserts and uploads
succeed, what a poll sees and when, what becomes of a shard transfer, what sizes the batch
picker draws, how a sort orders equal scores.

The main chain of the recall reconstruction is `MixedWorkload.RunInsertClient` (what one
client logs), `MixedWorkload.RunInsertClients` (what the workload reports),
`MixedWorkload.LogsAreDisjointInserts` (what all logs together satisfy), `Truncation.AnswerQuery`
(cutting log and matrix changes no answer), `RecallRun.RecallAnswers` (one running top-k extended
lag by lag is the exact answer for every lag) and `RecallReport.ReportQuery` (what is reported
from it, told about the whole log). What an answer is, `RecallRun.RightFor` says from the scores,
the ids and the log alone. The main chain of the coordination protocol is
`BatchProofs.AdvanceKeepsInv`, `BatchRuns.NeverStuck`, `BatchRuns.StopsOnlyDone`,
`BatchRuns.RunsAreBounded`, `BatchSafety.RunSafety`, `BatchSafety.CompletedRun` and, for the sweep
that is really started, `BatchSafety.SweepCompletes`; `BatchSafety.RankZeroMustHaveRows` shows
that the protocol depends on how the rows are split.

## Where the code does less than one might expect

Each of these is proved with its exact condition.

- The inverse row order is right for every visible prefix only if no row is inserted twice
  (`Visibility.InverseExactIff`, `Visibility.RepeatedRowIsMisjudged`); the mixed clients' logs guarantee it.
- A user row cap below the computed limit can cut an insert block, and the reconstruction then
  fails (`Truncation.AnswerCut`, `Truncation.SmallCapCutsBlock`). If it falls between blocks the
  reconstruction succeeds on fewer rows than were visible, without a sign of it
  (`Truncation.TruncationKeepsVisible`, `Truncation.SmallCapDropsRows`).
- The Go batch clients free the timing file's lock before they look at the error of an append. If
  rank 0's append fails, the next client can write its record into a file without a header before
  the process ends (`BatchSafety.HeaderMayBeMissing`); that is the only way to lose the header
  (`BatchSafety.FileOfEveryState`).
- A candidate with a negative id is dropped when the running state is read back
  (`TopK.ToListsExactIff`, `RecallRun.ReadBackExactForAllIff`).
- The Rust barrier counts clients that are never spawned: with fewer rows than clients, and at
  least one row, no client passes the first wait (`RustBarrier.NobodyPasses`,
  `RustBarrier.LayoutStopsDoneIff`). A client other than rank 0 that fails before its last wait leaves
  `main` waiting for rank 0 (`RustBarrier.MainReturnsIff`).
- The rebalance takes a transfer that is no longer listed for a finished one, so a shard whose
  transfer left no replica is dropped everywhere; so is the first shard of a repeated address
  (`ShardRebalance.LostIff`, `ShardRebalance.VanishedTransferLosesShard`,
  `ShardRebalance.RepeatedAddressLosesShard`).
- The recall tool cannot read a matrix of one-byte integers that it accepts
  (`RecallTool.RowsReadIff`).
- The Rust NPY reader checks the product of the shape against 64 bits but not the sum with the
  header, which wraps in a release build: a header alone can be accepted with 2^62 - 1 rows
  (`NpyFormat.WrappedLengthIsAccepted`, `NpyFormat.AcceptedFilesReadInBounds`).
- The Rust configuration accepts a batch size of 0, with which the streaming loop stays at the
  first row of a non-empty range for ever (`NpyFormat.StreamEndsIff`).
- The Go mixed client reports success after a failed insert if it could write its log, while
  the Rust client always reports an error (`MixedWorkload.RunInsertClient`,
  `MixedWorkload.FirstInsertFails`). Whether a Go workload that ended without an error
  has inserted every row shows only in the status of its log records
  (`MixedWorkload.RunInsertClients`).
- A schema variable is not loaded if its name is no shell identifier or one of the loading
  function's locals (`combo_line`, `assignment`, `key`, `value`, `assignments`); a name that is
  no identifier, and `key` or `value`, also ends the strict shell of the submit manager, with
  the variables after it not loaded (`SchemaSweep.RestoredIff`).

Where messages and code disagree the model follows the code: the time-out messages of
`milvus/scripts/index.py` speak of 10 and 30 minutes, while the limit it compares with is
60 times 180 seconds; `Quiescence.WaitForIndex` takes the limit as a parameter.

## Model

| member | source | states |
|---|---|---|
| `RowPartition.ClosedFormsAgree` | qdrant/clients/batch_client/src/main.rs:102-114 | the Go and Rust closed forms give every part the same slice |
| `RowPartition.PrefixStarts` | milvus/scripts/mpInsert.py:87-102 | the loop of running sums starts each part at the sum of the counts before it |
| `RowPartition.CountsAgree` | milvus/scripts/mpInsert.py:41-44 | those sums are the closed form: part i starts and ends where `split_range` says |
| `RowPartition.CountsSumToAll` | milvus/scripts/mpInsert.py:41-44 | the counts add up to all rows |
| `RowPartition.SplitTiles` | weaviate/clients/batch_client/main.go:1034-1052 | the slices are consecutive and cover [0, n) exactly |
| `RowPartition.SplitSizes` | weaviate/clients/batch_client/main.go:1034-1052 | a slice has n / parts rows, and one more for the first n % parts |
| `RowPartition.SplitElsewhere` | weaviate/clients/batch_client/main.go:1034-1040 | under a number that is none of a part nothing is dealt |
| `RowPartition.TilesPartition` | qdrant/clients/mixed/src/main.rs:703-717 | of slices that tile a range, every row of the range lies in exactly one and no other row in any |
| `RowPartition.RustRangesAgree` | qdrant/clients/batch_client/src/main.rs:116-138 | the Rust rank range, computed with its own splitter, is the Go client range of the same rank |
| `RowPartition.RanksAreMapped` | weaviate/clients/batch_client/main.go:1056-1072 | every rank below the total maps to an existing worker and client, and back to itself |
| `RowPartition.BadRankIff` | weaviate/clients/batch_client/main.go:1056-1072 | a rank is refused if and only if the workers together hold no more clients than that |
| `RowPartition.RankSlicesTile` | weaviate/clients/batch_client/main.go:1076-1085 | over all ranks, the nested split and the explicit-total split both tile the rows |
| `RowPartition.NestedSizes` | weaviate/clients/batch_client/main.go:1081-1084 | splitting twice still leaves sizes of rows / total or one more |
| `RowPartition.RankSizes` | weaviate/clients/batch_client/main.go:1076-1085 | so any two clients of any layout differ by at most one row |
| `RowPartition.AllBusyIff` | qdrant/clients/batch_client/src/main.rs:698-706 | no client is without rows if and only if there are at least as many rows as clients |
| `RowPartition.RowCountFacts` | weaviate/clients/batch_client/main.go:1229-1230 | the clients have all rows together, rank 0 has some if there are any, and everybody has some if and only if there are at least as many rows as clients |
| `RowPartition.RankZeroHasRows` | weaviate/clients/batch_client/main.go:1229-1230 | rank 0 has rows if and only if there are any |
| `RowPartition.TargetIsProportional` | qdrant/clients/mixed/src/main.rs:776-796 | under the proportional rule clients go to existing workers, in non-decreasing order, and the final clamp never acts |
| `RowPartition.TargetMeans` | qdrant/clients/mixed/src/main.rs:776-796 | with a count per worker, worker w takes the clients from w * per to (w + 1) * per, and the last one all that are left; without one, those whose share of the clients lies in its share of the workers; an error means a missing number or a 0 |
| `TopK.Argsort` | qdrant/scripts/mixed_timeline.py:526-540 | sorting yields some ranking of the same entries; nothing is said about ties |
| `TopK.TopKScoresUnique` | qdrant/scripts/mixed_timeline.py:526-540 | any two top-k answers over the same candidates have the same scores place by place, whatever the tie order |
| `TopK.RankedPrefixIsTopK` | qdrant/scripts/mixed_timeline.py:526-540 | the first k of a ranking are a top-k: own candidates with own scores, min(k, n) of them, none better left out |
| `TopK.TopkOfChunk` | qdrant/scripts/mixed_timeline.py:638-641 | the winners of a chunk are a top-k of it |
| `TopK.MergedWinners` | qdrant/scripts/mixed_timeline.py:610-621 | the best k of the winners of two candidate sets are a top-k of their union |
| `TopK.MergeTopk` | qdrant/scripts/mixed_timeline.py:599-621 | `merge_topk` keeps a top-k of everything merged so far |
| `TopK.UpdateTopk` | qdrant/scripts/mixed_timeline.py:624-642 | one update turns a top-k of A into a top-k of A and the chunk |
| `TopK.FreshState` | qdrant/scripts/mixed_timeline.py:592-596 | the initial state is a top-k seen through its fillers |
| `TopK.WithoutPads` | qdrant/scripts/mixed_timeline.py:592-596 | fillers only ever occupy the tail, and dropping them leaves a top-k of the real candidates |
| `TopK.ToListsExactIff` | qdrant/scripts/mixed_timeline.py:645-652 | reading the state back by `id >= 0` is a top-k if and only if no kept candidate has a negative id |
| `TopK.NegativeIdIsLost` | qdrant/scripts/mixed_timeline.py:645-652 | a concrete candidate with a negative id that is read back as no result |
| `Visibility.PlaceBlock` | qdrant/scripts/mixed_timeline.py:563-566 | writing a block into the inverse places exactly its rows, or fails exactly when the block does not fit |
| `Visibility.BuildInsertVisibilityIndex` | qdrant/scripts/mixed_timeline.py:550-570 | times, offsets and row list are those of the successful events, and the order array is the inverse of the row list; it fails exactly when some successful block does not fit |
| `Visibility.VisiblePrefixOfOk` | qdrant/scripts/mixed_timeline.py:580-583 | the events visible at a cutoff are a prefix of the successful ones, found by the binary search |
| `Visibility.PrefixIsVisible` | qdrant/scripts/mixed_timeline.py:586-589 | for every query time and lag the prefix of the row list found by two lookups is exactly the rows completed by then, in order |
| `Visibility.LargerLagShowsLess` | qdrant/scripts/mixed_timeline.py:721-723 | a larger lag shows a prefix of what a smaller one shows |
| `Visibility.VisibleRowCount` | qdrant/scripts/mixed_timeline.py:550-589 | the rows visible at a cutoff hold each row as often as an insert of it had succeeded by then |
| `Visibility.InverseExactIff` | qdrant/scripts/mixed_timeline.py:655-670 | the inverse decides membership in every visible prefix if and only if no row was inserted twice |
| `Visibility.RepeatedRowIsMisjudged` | qdrant/scripts/mixed_timeline.py:655-670 | a concrete log that inserts a row twice: a query between the two sees the row and the inverse denies it |
| `Visibility.VisibleIdsExact` | qdrant/scripts/mixed_timeline.py:655-670 | an id passes the test if and only if it is an initial id or the id of a visible row |
| `Visibility.DistinctIffDisjoint` | qdrant/scripts/mixed_timeline.py:560-567 | no row is listed twice if and only if the insert blocks are disjoint |
| `RecallRun.LagTargets` | qdrant/scripts/mixed_timeline.py:716-723 | the targets are the requested lags with their visible counts, sorted by count |
| `RecallRun.TopKIsChosen` | qdrant/scripts/mixed_timeline.py:630-642 | a top-k told place by place: k vectors or all, each once with its own score and id, in order (smaller first for L2), and no vector left out is better than a kept one |
| `RecallRun.RankInit` | qdrant/scripts/mixed_timeline.py:725-738 | after the initial vectors the state is a top-k of exactly them, for any chunk size: the best of them, each with its own score and id, and fillers behind |
| `RecallRun.ExtendTo` | qdrant/scripts/mixed_timeline.py:740-755 | extending from one visible prefix to a longer one keeps the best of exactly the longer one, for any chunk size |
| `RecallRun.ExactByLag` | qdrant/scripts/mixed_timeline.py:714-758 | one running state serves every lag: each snapshot comes from a top-k of the rows visible under its lag |
| `RecallRun.ReadBackExactForAllIff` | qdrant/scripts/mixed_timeline.py:645-652 | reading back is exact for every k and every top-k if and only if no candidate has a negative id |
| `RecallRun.AnswerIsExactIff` | qdrant/scripts/mixed_timeline.py:645-652 | an answer is the exact top-k if and only if it is full, which natural ids guarantee |
| `RecallRun.AnswerMeans` | qdrant/scripts/mixed_timeline.py:645-652 | an answer read back is such a best selection of the initial vectors and of the rows the log shows inserted by the cutoff, without the entries whose id is negative |
| `RecallRun.RecallAnswers` | qdrant/scripts/mixed_timeline.py:673-758 | from the log, for any id offsets: the list for every lag is the best k of the initial vectors and the rows inserted by issue time minus lag, each with its own score and id, negative ids left out; with natural ids it is exact; it fails exactly when a successful block does not fit |
| `RecallReport.ExpectedAreVisible` | qdrant/scripts/mixed_timeline.py:767-786 | an answer read back names no id that the visibility test rejects |
| `RecallReport.OverlapIsVisibleOverlap` | qdrant/scripts/mixed_timeline.py:787-788 | when no id of the exact answer is rejected, which `RecallReport.ReportLags` establishes from the log, the overlap with the returned ids and with the visible ones among them are equal |
| `RecallReport.RecallIsProportion` | qdrant/scripts/mixed_timeline.py:789-808 | recall lies in [0, 1], and the too-new count is the number of hidden ids returned |
| `RecallReport.FullRecallIff` | qdrant/scripts/mixed_timeline.py:787-790 | recall is 1 if and only if every exact id was returned and the exact answer repeats no id |
| `RecallReport.ReportLags` | qdrant/scripts/mixed_timeline.py:696-811 | over a log with disjoint blocks, for every lag: the overlap is the number of ids shared with the exact answer and loses nothing by counting visible ids only; recall times the length of the answer is the overlap, and precision times the visible ids too; the visible ids are, in order, those returned that had been inserted; too new are the others, missing the wanted ids not among them |
| `RecallReport.ReportQuery` | qdrant/scripts/mixed_timeline.py:919-945 | the same from end to end for every successful query, told about the whole log: always if the user asked for no fewer rows than the limit, and otherwise for the lags whose visible blocks start below his cap and about the cut log for all |
| `Truncation.RecallInsertRowLimit` | qdrant/scripts/mixed_timeline.py:298-312 | the limit is the largest end row visible to the last successful query under the smallest lag, or 0 |
| `Truncation.TruncationKeepsVisible` | qdrant/scripts/mixed_timeline.py:927-930 | filtering the log leaves the visible rows unchanged if and only if every visible block with rows starts below the cap; otherwise rows are lost |
| `Truncation.InBoundsIff` | qdrant/scripts/mixed_timeline.py:927-932 | every kept successful block fits the cut matrix if and only if the cap cuts no block |
| `Truncation.LimitCutsNoBlock` | qdrant/scripts/mixed_timeline.py:298-312 | with disjoint insert blocks the computed limit cuts none |
| `Truncation.SmallCapCutsBlock` | qdrant/scripts/mixed_timeline.py:921-932 | a user cap below the limit can cut a block: a concrete log and cap |
| `Truncation.SmallCapDropsRows` | qdrant/scripts/mixed_timeline.py:921-932 | a concrete log and cap between two blocks: no block is cut and one of two visible rows is gone |
| `Truncation.AnswerCut` | qdrant/scripts/mixed_timeline.py:927-945 | the reconstruction on the cut log and matrix succeeds if and only if the cap is within the matrix and cuts no block; it answers for the cut input, and for the whole one under every lag whose visible blocks start below the cap |
| `Truncation.LimitCoversLag` | qdrant/scripts/mixed_timeline.py:303-312 | below the computed limit start all blocks visible to any successful query under any requested lag |
| `Truncation.AnswerQuery` | qdrant/scripts/mixed_timeline.py:919-945 | without a cap, or with one of at least the limit, it succeeds if and only if the limit is within the matrix and cuts no block, which disjoint blocks guarantee, and the answers for all lags are those of the whole log and matrix; with a smaller cap it succeeds if and only if that cap is within the matrix and cuts no block |
| `Coordination.Barrier.constructor` | weaviate/clients/batch_client/main.go:807-814 | a barrier of n > 0 starts with n missing arrivals in generation 0 |
| `Coordination.Barrier.Arrive` | weaviate/clients/batch_client/main.go:818-829 | an arrival counts down, and the last one opens the next generation and refills the count |
| `Coordination.Barrier.MayLeave` | weaviate/clients/batch_client/main.go:831-833 | a waiter leaves once the generation differs from the one it read |
| `Coordination.SharedTiming.MarkSearchableAt` | weaviate/clients/batch_client/main.go:883-888 | only the first call sets the time and closes the channel |
| `Coordination.SharedTiming.CountReady` | weaviate/clients/batch_client/main.go:897-905 | a count and whether it reached the expected number |
| `Coordination.RankZeroGate.constructor` | weaviate/clients/batch_client/main.go:915-919 | the gate starts closed |
| `Coordination.RankZeroGate.Passes` | weaviate/clients/batch_client/main.go:922-933 | rank 0 always passes, others once the gate is open |
| `Coordination.RankZeroGate.Open` | weaviate/clients/batch_client/main.go:936-941 | opening the gate opens it for good |
| `Coordination.WriteCoordinator.TryLock` | weaviate/clients/batch_client/main.go:960-969 | the lock is taken exactly when nobody writes and rank 0 is through or is the caller |
| `Coordination.WriteCoordinator.Unlock` | weaviate/clients/batch_client/main.go:972-980 | unlocking frees the writer and marks rank 0 as through when it is the caller |
| `Coordination.WriteCoordinator.SkipRankZero` | weaviate/clients/batch_client/main.go:984-991 | skipping marks rank 0 as through |
| `Coordination.LockedCSVWriter.Append` | weaviate/clients/batch_client/main.go:1000-1030 | one record is appended, after the header when rank 0 writes it first; with an open, write or flush error the lines that got through, and the error |
| `BatchProofs.InitInv` | weaviate/clients/batch_client/main.go:1290-1323 | the initial state satisfies all five invariants |
| `BatchProofs.ArriveKeepsBarrier` | weaviate/clients/batch_client/main.go:818-835 | an arrival keeps: count plus waiters is N, and every client is past as many waits as there were generations |
| `BatchProofs.CountKeepsSearch` | weaviate/clients/batch_client/main.go:897-905 | counting a client without rows keeps the ready count equal to the clients counted and the channel closed at most once |
| `BatchProofs.OtherKeepsSearch` | weaviate/clients/batch_client/main.go:1437-1461 | with rows, the channel is closed exactly when rank 0 is past publishing |
| `BatchProofs.WriterMoves` | weaviate/clients/batch_client/main.go:1508-1538 | taking and freeing the writer keeps at most one holder and nobody before rank 0 |
| `BatchProofs.WriteKeepsCsv` | weaviate/clients/batch_client/main.go:1000-1030 | a write, whatever goes wrong in it, keeps the file: no line twice, the header only in front, a record of everyone who appended without an error, and the header and rank 0's record first unless rank 0's append failed |
| `BatchProofs.AdvanceKeepsInv` | weaviate/clients/batch_client/main.go:1311-1541 | every enabled step of every client keeps all invariants, with or without an error in an append |
| `BatchRuns.RunKeepsInv` | weaviate/clients/batch_client/main.go:1311-1541 | the invariants hold in every state of every run, runs with failed appends included |
| `BatchRuns.GateBlocked` | weaviate/clients/batch_client/main.go:1327-1338 | a client held at the gate means that rank 0 can move |
| `BatchRuns.ChannelClosed` | weaviate/clients/batch_client/main.go:1311-1323 | without rows, the channel is closed once anybody is past the first wait |
| `BatchRuns.SearchBlocked` | weaviate/clients/batch_client/main.go:1437-1461 | a client held at the channel means that rank 0 has rows and can move |
| `BatchRuns.LockBlocked` | weaviate/clients/batch_client/main.go:960-980 | a client held at the writer means that the holder or rank 0 can move |
| `BatchRuns.NeverStuck` | weaviate/clients/batch_client/main.go:1311-1541 | if rank 0 has rows whenever anybody has: a step in which the process lives on is possible if and only if the process has not died and somebody is neither through nor about to end it after a failed append, and some step if and only if it has not died and somebody is not through; so no reachable state is a deadlock |
| `BatchRuns.StopsOnlyDone` | weaviate/clients/batch_client/main.go:1311-1541 | a run in which nobody died and nobody can go on has ended with every client through, or about to end the process after a failed append |
| `BatchRuns.RunsAreBounded` | weaviate/clients/batch_client/main.go:1311-1541 | no run is longer than 22 states a client plus the rows plus two |
| `BatchSafety.LoopSteps` | weaviate/clients/batch_client/main.go:1343-1348 | in its loop a client goes on by one batch as long as its counter is below its rows, and only then to the third wait |
| `BatchSafety.ClientProgress` | weaviate/clients/batch_client/main.go:1343-1348 | in every state of every run a client has been at every multiple of the batch size up to its counter, and past its loop at all of them below its rows |
| `BatchSafety.EveryRowSent` | weaviate/clients/batch_client/main.go:1343-1348 | every row of a client that is past its loop was in a batch it sent, and in one only |
| `BatchSafety.SentOnce` | weaviate/clients/batch_client/main.go:1311-1541 | a client never comes back to a point that it has left, so no batch is sent twice |
| `BatchSafety.RunSafety` | weaviate/clients/batch_client/main.go:1311-1541 | always: nobody is more than one wait ahead; before anybody is past the channel everybody has left its loop and sent all its batches; with the marker nobody with rows passes the gate before rank 0 opens it; one close at most, one writer at most |
| `BatchSafety.WhoOpens` | weaviate/clients/batch_client/main.go:1311-1460 | with rows the channel is closed from rank 0's last step before it on, and one step earlier at most if it has waited for quiescence, which a query sweep does not; without rows rank 0 gives way to other writers from its first step on in an insert sweep, and in no other |
| `BatchSafety.RankZeroWritesFirst` | weaviate/clients/batch_client/main.go:960-980 | nobody holds the writer before rank 0 has let go of it |
| `BatchSafety.CompletedRun` | milvus/clients/batch_client/main.go:861-873 | in a completed run every client sent all its batches, with five generations and one close; the file is empty if nobody had rows, else header, rank 0, and one record for each other client with rows |
| `BatchSafety.FileOfEveryState` | weaviate/clients/batch_client/main.go:1508-1541 | the timing file in every state of every run: no line twice, exactly the records of those who appended without an error and perhaps of those whose append failed, and the header and rank 0's record first unless rank 0's append failed |
| `BatchSafety.HeaderMayBeMissing` | weaviate/clients/batch_client/main.go:1538-1541 | the lock is freed before the error is looked at: for every sweep in which rank 0 and another client have rows there is a run whose file is that client's record without a header |
| `BatchSafety.RankZeroMustHaveRows` | weaviate/clients/batch_client/main.go:1437-1461 | if somebody had rows and rank 0 had none, every run would come to a stop and none would complete: where nobody died everybody would be blocked |
| `BatchSafety.SplitStartsValid` | weaviate/clients/batch_client/main.go:1229-1230 | the split gives rank 0 rows whenever there are any, for every layout, and the clients all rows together |
| `BatchSafety.SweepCompletes` | weaviate/clients/batch_client/main.go:1290-1541 | so the sweep that `main` starts, for every layout, rows and mode, can always go on without a death until everybody is through or about to end the process, is bounded by clients and rows, and when all are through has sent every batch and leaves an empty file exactly when there are no rows |
| `RustBarrier.RunKeepsInv` | qdrant/clients/batch_client/src/main.rs:698-712 | in every state the barrier count matches the waiters, and failed or absent clients pin the generation |
| `RustBarrier.RunsAreBounded` | qdrant/clients/batch_client/src/main.rs:698-712 | no run is longer than two steps a wait and one more for each client |
| `RustBarrier.StoppedIff` | qdrant/clients/batch_client/src/main.rs:698-712 | a run cannot go on exactly where nobody can move |
| `RustBarrier.NobodyPasses` | qdrant/clients/batch_client/src/main.rs:656-712 | if some client has no rows nobody ever passes the first wait |
| `RustBarrier.StopsDoneIff` | qdrant/clients/batch_client/src/main.rs:656-712 | a run without failures that cannot go on has finished all spawned clients if and only if all clients have rows or none has |
| `RustBarrier.LayoutStopsDoneIff` | qdrant/clients/batch_client/src/main.rs:656-712 | that is, for the rows of any layout, if and only if there are no rows or at least as many rows as clients |
| `RustBarrier.MainReturnsIff` | qdrant/clients/batch_client/src/main.rs:714-718 | where a run stops, `main` returns if and only if all waits were made or rank 0 itself failed; any other failed client leaves it waiting |
| `RustBarrier.FileOfEveryState` | qdrant/clients/batch_client/src/main.rs:1000-1016 | in every state of every run: until rank 0 comes to its last wait the file is what it was before; a finished client has its record there with the header in front, and no other client has got one |
| `RustBarrier.FinishedFile` | qdrant/clients/batch_client/src/main.rs:1000-1016 | when all have finished the timing file is the header and one record for each client |
| `Decimal.PrintedValue` | utils/compute_recall.py:200-202 | printing a number and reading its digits gives the number back |
| `ResultFiles.NameKeepsKey` | utils/compute_recall.py:199-203 | the worker and client printed into a file name are the ones parsed out of it |
| `ResultFiles.NumberedKey` | utils/compute_recall.py:199-203 | a name that ends in `_w`, digits, `_c`, digits and `.npy` is sorted by the values of the digits and then by name |
| `ResultFiles.NumberedOrZero` | utils/compute_recall.py:199-203 | any other name is sorted by two zeros and then by name |
| `ResultFiles.OrderIsUnique` | utils/compute_recall.py:214-214 | files with different numbers have one ordering only |
| `ResultFiles.OneOrder` | utils/compute_recall.py:199-214 | so files whose names differ have one order only, by worker, client and name |
| `ResultFiles.WrittenRows` | weaviate/clients/batch_client/main.go:1552-1560 | in rank order the clients' files hold the rows from the first one on, clients without rows writing no file |
| `ResultFiles.OrderedFilesAreTheAnswers` | utils/compute_recall.py:206-243 | the files in numeric order, however listed, concatenate to one result per query in query order, for both splits |
| `ResultFiles.MergeQueryResultChunks` | qdrant/clients/batch_client/src/main.rs:637-650 | the merge loop assigns chunk after chunk into a matrix of fillers |
| `ResultFiles.MergedRow` | qdrant/clients/batch_client/src/main.rs:637-650 | a merged row is its own query's result where some chunk covers it and the filler elsewhere |
| `ResultFiles.MergedChunksAreTheAnswers` | qdrant/clients/batch_client/src/main.rs:714-723 | for every order of the chunks the merged matrix is one result per query with no filler left |
| `ResultFiles.FilesAgreeWithMerge` | qdrant/clients/batch_client/src/main.rs:721-724 | the Go files in the recall tool's order equal the Rust matrix |
| `RecallTool.DistinctSize` | utils/compute_recall.py:250-254 | the set-size check finds exactly the rows that repeat an id |
| `RecallTool.HitsAreFound` | utils/compute_recall.py:256-258 | the matches of a query are the places of its ground truth whose id is among the first k returned |
| `RecallTool.CompareRows` | utils/compute_recall.py:228-269 | the loop returns the summary of all rows, or the first row that has a negative or repeated id among its first k |
| `RecallTool.ComputeRecall` | utils/compute_recall.py:206-283 | each early rejection happens exactly under its condition; otherwise the summary over the ordered files: matches found, their mean, lowest and highest proportion, the variance about the mean, and the number of perfect queries |
| `RecallTool.VarianceIsNonNegative` | utils/compute_recall.py:270-272 | over exact numbers the computed variance is never negative, so its clamp never acts |
| `RecallTool.SummaryIsCoherent` | utils/compute_recall.py:270-282 | lowest <= mean <= highest, the mean is matches over possible matches, and it is 1 if and only if every query is perfect |
| `RecallTool.RecallOfAllClients` | utils/compute_recall.py:206-283 | over the files the clients wrote, the summary compares each query with its own ground truth |
| `RecallTool.RowsReadIff` | utils/compute_recall.py:180-187 | an accepted matrix is read row by row to its end if and only if its items are wider than a byte |
| `ShardRebalance.BuildTopology` | qdrant/scripts/configure_collection.py:242-246 | the dictionary has each address once, with the last index it appears at |
| `ShardRebalance.TopologyCoversIff` | qdrant/scripts/configure_collection.py:242-246 | every shard is wanted at its own node if and only if no address repeats |
| `ShardRebalance.Locate` | qdrant/scripts/configure_collection.py:397-413 | the location map holds the replicas at the addresses of the registry and no others |
| `ShardRebalance.Replicate` | qdrant/scripts/configure_collection.py:416-453 | the phase finishes if and only if every step passes; it then has added exactly the installed copies, and otherwise those made before the first step that does not pass, and one more if its transfer timed out and arrived; nothing is ever removed |
| `ShardRebalance.Drop` | qdrant/scripts/configure_collection.py:458-493 | exactly the unwanted replicas whose drop succeeds are gone |
| `ShardRebalance.Rebalance` | qdrant/scripts/configure_collection.py:416-493 | the final replicas, and that every state on the way holds the initial or the final ones; replicas outside the registry are never touched |
| `ShardRebalance.LostIff` | qdrant/scripts/configure_collection.py:458-493 | a shard ends without a replica if and only if it never reached the node that wants it and all its replicas were at the registry's nodes and dropped |
| `ShardRebalance.NeverWithoutReplica` | qdrant/scripts/configure_collection.py:416-493 | with distinct addresses no shard is without a replica at any step, also when drops fail or the run is aborted, unless its finished transfer left no replica |
| `ShardRebalance.OneShardANode` | qdrant/scripts/configure_collection.py:416-493 | if everything succeeds shard i is on node i and on no other of the nodes |
| `ShardRebalance.ExtraShardsAreLost` | qdrant/scripts/configure_collection.py:262-278 | a shard beyond the node count is lost exactly if all its replicas are dropped, which the guard for documents prevents |
| `ShardRebalance.RepeatedAddressLosesShard` | qdrant/scripts/configure_collection.py:242-246 | a repeated address leaves its first shard wanted nowhere and lost in the same way |
| `ShardRebalance.VanishedTransferLosesShard` | qdrant/scripts/configure_collection.py:450-493 | a concrete cluster of two nodes in which a rebalance finishes without an error and shard 0 is gone |
| `ShardRebalance.RepeatedAddressExample` | qdrant/scripts/configure_collection.py:242-246 | a concrete registry with one address twice: everything succeeds and shard 0 is gone |
| `NpyFormat.LittleEndianRoundTrip` | qdrant/clients/batch_client/src/main.rs:428-438 | a length written in little-endian bytes is read back |
| `NpyFormat.QuotedValue` | qdrant/clients/batch_client/src/main.rs:497-523 | a value in quotes of either kind ends at the next quote of its own kind; any other character in front of it is refused |
| `NpyFormat.SignedNumber` | qdrant/clients/batch_client/src/main.rs:459-467 | a plus sign before a dimension is skipped by both readers, a minus sign is read by the Go reader only |
| `NpyFormat.OtherFilesRefused` | qdrant/clients/batch_client/src/main.rs:416-442 | a file that begins otherwise, or is of another version, is refused as such |
| `NpyFormat.PrintedDimensions` | qdrant/clients/batch_client/src/main.rs:459-470 | the dimensions of any tuple are parsed back by the comma splitter if all are below 2^64 (Rust) or 2^63 (Go), and refused otherwise |
| `NpyFormat.PrintedHeader` | qdrant/clients/batch_client/src/main.rs:446-475 | the header numpy prints for any type, order and shape: another type than little-endian float32, Fortran order, a dimension too large and another number of dimensions than two are refused, in this order, and otherwise the dimensions are read |
| `NpyFormat.FileRoundTrip` | qdrant/clients/batch_client/src/main.rs:416-494 | for versions 1 to 3, any padding and payload the file parses to rows, columns and payload offset unless a dimension is past the reader's numbers; Rust else refuses it exactly when the size overflows or the file is shorter than the length it computes, whose sum wraps at 2^64 |
| `NpyFormat.RefusedWhenShort` | qdrant/clients/batch_client/src/main.rs:477-487 | while that sum does not wrap: exactly when the payload is shorter than the shape asks for |
| `NpyFormat.WrappedLengthIsAccepted` | qdrant/clients/batch_client/src/main.rs:477-487 | a file of 128 header bytes and no payload that is accepted with 2^62 - 1 rows |
| `NpyFormat.AcceptedFilesReadInBounds` | qdrant/clients/batch_client/src/main.rs:477-487 | every row range up to the accepted row count lies inside the file if and only if offset plus payload size is below 2^64 |
| `NpyFormat.ReadRows` | qdrant/clients/batch_client/src/main.rs:577-609 | a read succeeds if and only if it is in bounds, and then yields exactly those rows |
| `NpyFormat.RowsSplit` | qdrant/clients/batch_client/src/main.rs:1309-1313 | reading a range in two pieces gives the same rows |
| `NpyFormat.Stream` | qdrant/clients/batch_client/src/main.rs:1309-1340 | any number of rounds of the streaming loop yields exactly the rows up to where it has got, or an error exactly if those are not all in the file |
| `NpyFormat.StreamEndsIff` | qdrant/clients/batch_client/src/main.rs:1309-1340 | some number of rounds gets to the end of the range if and only if the batch size is positive or the range empty |
| `NpyFormat.RowsAreASlice` | qdrant/clients/batch_client/src/main.rs:765-768 | the streamed rows are the slice the eager reader takes |
| `NpyFormat.MatrixRoundTrip` | milvus/clients/batch_client/main.go:666-696 | either reader finds in a written file the matrix that was written |
| `TraceTree.BuildTraces` | milvus/utils/analyze_traces.py:116-122 | each trace holds what its dictionary holds, and only traces with spans are present |
| `TraceTree.KeptIsLast` | milvus/utils/analyze_traces.py:116-122 | a span is kept if and only if it is the last read with its trace and a non-empty id |
| `TraceTree.KeptInReadOrder` | milvus/utils/analyze_traces.py:116-122 | the dictionary is in the order in which its ids were first read |
| `TraceTree.File` | milvus/utils/analyze_traces.py:126-132 | the filing loop yields as roots the spans whose parent id is empty or in no span of the trace, and under every id of the trace the spans that name it as parent |
| `TraceTree.PathUnique` | milvus/utils/analyze_traces.py:134-138 | there is at most one chain of parents down to a span from one without a parent in the trace |
| `TraceTree.PathIsShort` | milvus/utils/analyze_traces.py:134-138 | no chain from a root is longer than the trace, so the recursion ends whatever the parent pointers |
| `TraceTree.SortOrders` | milvus/utils/analyze_traces.py:136-140 | siblings are in order of start time |
| `TraceTree.ForestShape` | milvus/utils/analyze_traces.py:125-140 | the trees have on top exactly the spans whose parent id is empty or in no span of the trace, and below every span, at every depth, exactly those that name it as parent; siblings are each there once, by start time, and in reading order where that is equal |
| `TraceTree.EachRootedSpanOnce` | milvus/utils/analyze_traces.py:125-140 | a span whose parents lead to one without a parent in the trace is in the trees exactly once, any other span not at all |
| `TraceTree.CyclesAreDropped` | milvus/utils/analyze_traces.py:125-140 | spans whose parents never leave a set in which all have parents are in no tree |
| `TraceTree.WalkConserves` | milvus/utils/analyze_traces.py:171-183 | under every name path aggregation adds exactly the spans at that path, in walk order |
| `TraceTree.WalkRecords` | milvus/utils/analyze_traces.py:55-59 | what is recorded there: the durations, at least zero, in walk order, the trace ids, and counts of kinds and status codes, a missing code as -1 |
| `TraceTree.WalkRecordsAll` | milvus/utils/analyze_traces.py:171-183 | the durations recorded grow by the number of spans in the trees |
| `TraceTree.WalkDeepens` | milvus/utils/analyze_traces.py:61-64 | every aggregation node is one deeper than its parent |
| `BulkUpload.RunKeepsInv` | milvus/scripts/bulk_upload_import_mc.py:697-743 | uploaded, in hand and queued groups are in order what was handed over; written ids are an unbroken range; every staged file is still there or remote |
| `BulkUpload.JoinReturns` | milvus/scripts/bulk_upload_import_mc.py:742-743 | something can move until the writer has ended: the join always returns |
| `BulkUpload.RunIsBounded` | milvus/scripts/bulk_upload_import_mc.py:697-743 | no run is longer than a bound in the planned groups and files |
| `BulkUpload.NothingLost` | milvus/scripts/bulk_upload_import_mc.py:586-601 | in every state a staged file is still on disk or already uploaded |
| `BulkUpload.GoodWorker` | milvus/scripts/bulk_upload_import_mc.py:742-761 | a worker that ends well uploaded exactly its groups in order, holding exactly its rows' ids |
| `BulkUpload.CleanRunSucceeds` | milvus/scripts/bulk_upload_import_mc.py:697-761 | a worker for which nothing goes wrong ends well with everything uploaded |
| `BulkUpload.NothingLeftStaged` | milvus/scripts/bulk_upload_import_mc.py:586-601 | and, where every file sent could be removed and no staged name is used twice, leaves none of its files staged |
| `BulkUpload.RequestHoldsAllRows` | milvus/scripts/bulk_upload_import_mc.py:913-929 | whenever a request is built its groups hold every row id exactly once, in row order, and every worker with rows has uploaded the files of its groups |
| `BulkUpload.GoodOutcomeIff` | milvus/scripts/bulk_upload_import_mc.py:742-761 | a worker with rows leaves a good outcome if and only if neither its writer nor its uploader failed; a bad one is neither marked ok nor exits with zero, and is published if and only if the writer failed |
| `BulkUpload.RequestBuiltIff` | milvus/scripts/bulk_upload_import_mc.py:913-929 | a request is built if and only if there are rows and every worker left a good outcome |
| `Quiescence.SettlesIff` | weaviate/clients/batch_client/main.go:621-634 | the comparison with `stableSince` is the definition of a settled window |
| `Quiescence.WaitForQuiescence` | weaviate/clients/batch_client/main.go:586-676 | the loop returns at the first poll that settles, with the time its window began a period ago, every snapshot since then showing an empty queue, nothing being indexed and no HNSW index unready where that counts; and otherwise not at all |
| `Quiescence.ReturnedTime` | weaviate/clients/batch_client/main.go:587-644 | a returned time was a quiescent poll's, the last poll is a period later, and all fetched snapshots between were quiescent without a failed check |
| `Quiescence.WaitForIndex` | milvus/scripts/index.py:219-282 | the Milvus loop ends the same way, with nothing pending in the window, counting only polls from the one that shows the target, and times out only past its limit |
| `Quiescence.StabilizationIsNonNegative` | milvus/scripts/index.py:284-289 | with a clock that does not run backwards the stabilization time is not negative |
| `SchemaSweep.SplitGivesWords` | common/engine_schema_lib.sh:107-120 | whatever the raw value, its entries are words of its first line, or one empty entry |
| `SchemaSweep.SplitsSpacedValues` | common/engine_schema_lib.sh:107-120 | values written with spaces between them are read back as the same list |
| `SchemaSweep.EmitCombos` | common/engine_schema_lib.sh:382-405 | the recursion with its loop prints the specified lines |
| `SchemaSweep.ChoicesAre` | common/engine_schema_lib.sh:398-404 | the choices enumerated are exactly one value of every list |
| `SchemaSweep.ChoicesCount` | common/engine_schema_lib.sh:398-404 | their number is the product of the list lengths |
| `SchemaSweep.ChoicesDistinct` | common/engine_schema_lib.sh:398-404 | none is repeated when no list repeats a value |
| `SchemaSweep.SweepIsProduct` | common/engine_schema_lib.sh:382-405 | as many lines as the product, the line of every choice and no other |
| `SchemaSweep.EachChoiceOnce` | common/engine_schema_lib.sh:382-405 | each choice is on exactly one line when names are printable and lists repeat nothing |
| `SchemaSweep.FieldsOfLine` | common/engine_schema_lib.sh:419-423 | a printed line, which is one line, is cut back into its assignments |
| `SchemaSweep.IdentifiersAre` | common/engine_schema_lib.sh:419-427 | the names that the loading function can assign are the words of letters, digits and underscores that do not begin with a digit |
| `SchemaSweep.Shell.LoadCombo` | common/engine_schema_lib.sh:412-427 | the loop assigns each field of the first line in turn; a refused name ends a strict shell |
| `SchemaSweep.LoadRestoresChoice` | common/engine_schema_lib.sh:412-427 | loading a line gives every variable that is assigned its chosen value, whatever was loaded before, and touches nothing else; a strict shell gets to the end if and only if no name is refused |
| `SchemaSweep.RestoredIff` | common/engine_schema_lib.sh:412-427 | a variable is restored if and only if its name is an identifier and none of the locals and, in a strict shell, no name before it was refused; or it already had the value |
| `SchemaSweep.LinesTellChoicesApart` | common/engine_schema_lib.sh:393-404 | different choices are printed as different lines |
| `MixedWorkload.GoPicksPositive` | milvus/clients/mixed/main.go:340-354 | every accepted configuration picks positive sizes, within its bounds |
| `MixedWorkload.AcceptedAlike` | milvus/clients/mixed/main.go:340-354 | given numbers that are not negative, and 0 for a bound that is not set, the Go and the Rust client accept the same batch configurations |
| `MixedWorkload.OthersRefused` | milvus/clients/mixed/main.go:340-354 | what only one of them can be given is refused: negative numbers by Go, bounds of zero by Rust |
| `MixedWorkload.GoPicksAny` | milvus/clients/mixed/main.go:667-677 | any size within the bounds may be picked |
| `MixedWorkload.BatchPicker.constructor` | qdrant/clients/mixed/src/main.rs:907-916 | the state starts from client and role |
| `MixedWorkload.BatchPicker.Next` | qdrant/clients/mixed/src/main.rs:918-928 | sizes are positive and within bounds, the lower bound plus the state modulo their number; the 64-bit state wraps and steps only between different bounds |
| `MixedWorkload.RunInsertClient` | milvus/clients/mixed/main.go:434-515 | the log is consecutive non-empty blocks from the slice's start with ids by row, each record what its operation did; an error is reported if and only if the client was cancelled, its log could not be written, or an insert failed and it is the Rust client |
| `MixedWorkload.FirstInsertFails` | milvus/clients/mixed/main.go:502-505 | both clients in a world whose first insert fails: both logs say so, the Rust client reports it and the Go client does not |
| `MixedWorkload.AllIdsOnce` | milvus/clients/mixed/main.go:457-513 | if every client gets to its end the ids are start id to start id plus rows, each once |
| `MixedWorkload.RunInsertClients` | milvus/clients/mixed/main.go:355-404 | the workload's insert clients over the split rows: without an error all logged records are ok if and only if no insert failed, which for Rust is always so, and then every id was inserted exactly once |
| `MixedWorkload.LogsAreDisjointInserts` | qdrant/clients/mixed/src/main.rs:241-326 | whatever sizes were picked and whichever inserts failed, all clients' events in any order have disjoint non-empty blocks |
| `MixedWorkload.LogsAreReconstructible` | qdrant/scripts/mixed_timeline.py:298-312 | for such logs the row limit cuts no block and every kept block fits |
| `DryRunSearch.SortScored` | milvus/clients/mixed/main.go:1014-1023 | the in-place insertion sort leaves the sorted arrangement |
| `DryRunSearch.SortOrders` | milvus/clients/mixed/main.go:1014-1023 | which is ordered by score, then id |
| `DryRunSearch.SortIgnoresOrder` | milvus/clients/mixed/main.go:928-936 | and does not depend on the order the map was walked in |
| `DryRunSearch.Search` | milvus/clients/mixed/main.go:924-955 | a search returns the first k of that arrangement: in order by score, then id, and nothing left out comes before a pair returned |
| `DryRunSearch.SearchIsTopK` | milvus/clients/mixed/main.go:924-955 | which is an exact top-k of all stored vectors by dot product |
| `Throughput.PostQueryRows` | qdrant/scripts/mixed_timeline.py:388-452 | the interval loop ends; mixed-window and interval rows add up to the aggregate in operations and vectors, up to the last insert and no further |
| `Throughput.LateInsertInOneInterval` | qdrant/scripts/mixed_timeline.py:414-420 | every late insert lies in exactly one interval |
| `Throughput.PerClientRows` | qdrant/scripts/mixed_timeline.py:454-467 | the per-client rows are in ascending order and add up to the aggregate |
| `Throughput.ClientsAddUp` | qdrant/scripts/mixed_timeline.py:454-467 | over distinct clients that cover all events nothing is lost or counted twice |

## Left out

- Database requests, containers, job submission, object-store commands and tracing: they appear only as success, failure or an observed value.
- Rounding of float32 and float64, cosine normalisation and numpy's order of equal scores: scores are exact numbers given per query, and ties are open.
- Wall-clock pacing, durations and percentiles.
- Thread pools in `compute_recall_details`: queries are independent of each other, and one is modelled.
- BatchProtocol.Advance: one sweep is modelled; every sweep has objects of its own. An assumption is that requests and the wait for quiescence return.
- Coordination.LockedCSVWriter.Append: a line torn in the middle by a failed flush.
- RustBarrier.Advance: rank 0's header write is taken in one step with its last arrival, and the loop in which rank 0 counts points is assumed to end.
- ResultFiles.SortKey: Unicode digits and a newline at the end of a file name, which the regular expression would also accept.
- RecallTool.ComputeRecall: the square root of the variance, and the descriptor parser.
- ShardRebalance.Rebalance: partial replicas, and a server that would refuse to drop a last replica.
- NpyFormat.Parse: UTF-8 decoding is a parameter of the Rust reader; Unicode spaces beyond Latin-1 are not trimmed.
- NpyFormat.ReadRows: the Go reader's silent 64-bit wrap-around for sizes no file can have.
- TraceTree.Walk: aggregation nodes are values, not objects updated in place; the recursion limit of Python is not modelled.
- BulkUpload.WriterStep: how the bulk writer cuts a batch into groups is a parameter; two groups never sharing a file name is what its writer library provides.
- Quiescence.WaitForQuiescence: one clock reading per poll.
- SchemaSweep.EmitCombos: choices, defaults and conditional requirements of the registry.
- SchemaSweep.Shell.LoadCombo: read-only and special shell variables.
- SchemaSweep.RestoredIff: names with a bracket, which the shell takes for an element of an array, and names or values with a newline, which no split value has.
- MixedWorkload.RunInsertClient: setup failures before the first batch, which log nothing, and a line torn in the middle by a failed write of the log.
- MixedWorkload.RunInsertClients: query clients, and that one client's error cancels the others; whether and when a client is cancelled is a parameter.
- Throughput.PostQueryRows: the interval is a positive constant in the source and a positive parameter here.
- The copies of modelled code in `weaviate/scripts/mixed_timeline.py` and `weaviate/clients/mixed/main.go`.
- Port arithmetic, text substitution, queue throttling, shard install checks and documentation generation: they would add only easier members.
