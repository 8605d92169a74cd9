# CppColDB in Dafny

CppColDB is an embedded analytical SQL database: a columnar store with compressed, zone-mapped
segments behind a buffer pool, multi-version catalog and row visibility, a write-ahead log, a
rule-based optimizer and vectorised operators.  This project models its core and proves what the
core is for.

* **Queries.**  `Cells` and `Relational` define expressions and the relational operators; `Scalars`,
  `Relational` and `SortOrder` say what they mean in terms of numbers, bytes and row positions.  `Optimizer`, `Pruning` and `Execution` follow a query from the bound plan through folding,
  predicate pushdown, column pruning and filter merging to the planned operators on stored row groups,
  and prove when the result is that of the bound query: always if no filter reaches the scan, and
  otherwise if pruning leaves the scan a payload column and its zone-map columns in place.
* **Operators.**  `TableScan` and `LateScan` (zone-map skipping and late materialization),
  `HashJoin` (resumable probe), `SortOrder`, `TopKSort` and `SortLimit` (top-k heap, full sort,
  LIMIT and OFFSET), `AggTable`, `Aggregation` and `AggregateResult` (chained hash table, scalar fast
  path, answer rows) refine the relational operators for every chunking of their input.
* **Storage.**  `ColumnSegments` and `ColumnChunks` refine one flat sequence of cells per column.
  `Bits`, `BitPacking`, `Codecs`, `RunLengths`, `Strings`, `Compression` and `StringSegments` work on
  the bytes of a segment and say exactly when a vector survives the codec chosen for it.
  `BufferPool` refines a plain array of blocks with counts of handles.
* **Transactions.**  `CatalogVersions` and `CatalogIsolation`, `RowVersions` and `RowIsolation` are
  state machines over begin, write, commit and rollback, proved to show every transaction its own
  snapshot over all allowed runs; `DatabaseIsolation` does so for all row groups of all tables at
  once.  `Updates` proves that UPDATE statements set every visible matching row and that rollback
  restores column values.
* **Log.**  `Wal` works on bytes: replay of any prefix, checkpoints, truncation and a crash inside it.

Mutable objects of the system are classes whose methods are tied to functions on values; the
theorems are about those functions and about whole runs.  Hash functions, initial buffer contents
and codecs that a component only passes through are parameters.

Some promises hold only under a condition.  For those the project gives a concrete failing input and
the exact condition: filters pushed below a limit or a projection, aggregates over pruned scans,
scans without a payload column, zone maps looked up by output position, whole WHERE queries under
each choice of passes, appends that straddle a flush and their rollback, zone maps after the update
of a row that is not flushed yet, the rollback of a drop that overwrote an older one, NULLs in bit-
packed vectors, differences above 32 bits, strings of 65536 bytes and more, NULL keys in joins and
groups, a drop or delete of something whose fate is still open for somebody, two open appends to one
row group, log entries above 128 MiB or 4 GiB, a checkpoint marker at the start of the log, and a
crash inside truncation.

A filter above a projection, a sort or a limit is what the pushdown pass accepts; the binder itself
only builds filters directly above a scan or a join (src/planner/binder.cpp, lines 124, 469, 523 and
1325).

Where a comment in the source and its code differ, the model follows the code.  A catalog run in
which no two running transactions write one name is not enough for snapshot isolation
(`CatalogIsolation.StaleDropResurrects`); the condition used is that every version of the name is
decided for the writer when it writes.  The comment on `Truncate` speaks of everything before the last
marker; a marker at position zero is taken for no marker and everything is removed.

## Model

| member | source | states |
|---|---|---|
| `Cells.ApplyBinaryOp` | src/execution/operator/expr_evaluator.cpp:10-97 | slot i of the result is the scalar operation on slot i of the operands; NULL in either operand gives NULL |
| `Cells.Evaluate` | src/execution/operator/expr_evaluator.cpp:135-179 | column-at-a-time evaluation gives, in slot i, the meaning of the expression on row i |
| `Cells.EvaluatePredicate` | src/execution/operator/expr_evaluator.cpp:181-192 | the selection holds exactly the rows whose predicate is neither NULL nor zero, in ascending order |
| `Cells.RemapKeepsValue` | src/planner/physical_planner.cpp:117-160 | an expression with remapped references has the same value on any row that agrees with the old one through the map |
| `Scalars.StrLessIff` | src/execution/operator/expr_evaluator.cpp:59-67 | strings are ordered by their first differing byte, and a proper prefix comes first |
| `Scalars.IntComparisons` | src/execution/operator/expr_evaluator.cpp:78-85 | each of the six comparisons of two integers gives 1 exactly when the relation holds, else 0 |
| `Scalars.RealComparisons` | src/execution/operator/expr_evaluator.cpp:68-77 | with a float on either side, the six comparisons are those of the two real numbers |
| `Scalars.StringComparisons` | src/execution/operator/expr_evaluator.cpp:59-67 | the six comparisons of two strings are equality and byte order |
| `Scalars.NullOperand` | src/execution/operator/expr_evaluator.cpp:20-25 | NULL in either operand gives NULL for every operator |
| `Scalars.WhereColumn` | src/execution/operator/expr_evaluator.cpp:181-192 | a predicate that compares an integer column with a literal keeps exactly the rows whose number satisfies the relation, and none with NULL |
| `Scalars.Connectives` | src/execution/operator/expr_evaluator.cpp:89-95 | AND, OR and NOT on truth values |
| `Scalars.Sums` | src/execution/operator/expr_evaluator.cpp:28-52 | sum and difference are those of the real numbers, without the fraction for an integer result |
| `Scalars.Products` | src/execution/operator/expr_evaluator.cpp:28-52 | the product likewise |
| `Scalars.Quotients` | src/execution/operator/expr_evaluator.cpp:28-52 | the quotient likewise, and NULL exactly for a zero divisor |
| `Scalars.IntArithmetic` | src/execution/operator/expr_evaluator.cpp:28-52 | integer sums, differences and products are exact; a quotient rounds toward zero, its remainder having the sign of the dividend |
| `Scalars.Negation` | src/execution/operator/expr_evaluator.cpp:107-111 | the sign changes |
| `Scalars.Casts` | src/execution/operator/expr_evaluator.cpp:117-133 | an integer widens to the same number, a float is truncated toward zero, NULL stays NULL, and every other cast copies |
| `Relational.KeepMeaning` | src/execution/operator/physical_filter.cpp:7-14 | filtering keeps exactly the rows on which every predicate holds, in their order |
| `Scalars.TruncOfQuotient` | src/execution/operator/expr_evaluator.cpp:39-60 | the quotient computed in floating point and truncated is integer division truncating toward zero, for all operands |
| `Optimizer.FoldExprKeepsValue` | src/planner/optimizer.cpp:92-227 | constant folding never changes the value of a well-typed expression, on any row |
| `Optimizer.FoldPlanKeepsRows` | src/planner/optimizer.cpp:229-271 | folding a plan, including dropping always-true filters and replacing always-false ones by an empty scan, keeps its row sequence on every database |
| `Optimizer.CombinePredicates` | src/planner/optimizer.cpp:281-303 | the pending predicates are ANDed left to right and the list is drained |
| `Optimizer.AndAllHolds` | src/planner/optimizer.cpp:281-303 | the combined predicate holds on a row exactly when every one of the predicates does, with NULL counted as not holding |
| `Optimizer.PushdownKeepsRows` | src/planner/optimizer.cpp:305-377 | pushing pending predicates into a plan denotes filtering its rows by them, for every plan whose filters sit above scans, filters, joins, aggregates, limits that pass nothing or everything, or sorts whose keys have one kind of value each |
| `SortOrder.FilterSorted` | src/planner/optimizer.cpp:360-377 | with keys of one kind each, filtering the stably sorted rows is stably sorting the filtered rows |
| `Optimizer.PushPastLimitIff` | src/planner/optimizer.cpp:360-377 | moving filters below a limit keeps every result exactly when the limit passes nothing or everything; any other limit has a witness |
| `Optimizer.PushPastProjectionIff` | src/planner/optimizer.cpp:360-377 | for a projection of column references, pushing a test of output column i below it keeps the rows on every table exactly when that output column is table column i |
| `Optimizer.MergeFiltersKeepsRows` | src/planner/optimizer.cpp:548-579 | merging stacked filters keeps the rows and leaves no filter directly above a filter |
| `Optimizer.RewritingKeepsRows` | src/planner/optimizer.cpp:35-44 | every selection of folding, pushdown and merging, in the order they run, keeps the row sequence of every bound plan with such filter placement |
| `Pruning.KeepIds` | src/planner/optimizer.cpp:430-455 | the pruned column list holds exactly the columns that were scanned and are required |
| `Pruning.PruneKeepsRequired` | src/planner/optimizer.cpp:422-537 | after pruning, the scan has every column it had that is required from above or referenced below, and no new one |
| `Pruning.Positions` | src/planner/physical_planner.cpp:117-125 | every scanned column is mapped to a chunk position that holds that very column |
| `Execution.ScanMatches` | src/execution/operator/physical_table_scan.cpp:319-420 | the planned scan operator, run on the row groups of a table, returns the visible rows that pass the pushed filters, narrowed to its columns, if nothing was pushed, or a payload column is read and zone maps are looked up at the right columns |
| `Execution.BasePlanned` | src/planner/physical_planner.cpp:166-205 | scan, filter, sort and limit run with remapped expressions on narrow chunks give the narrowed logical rows, for such scans |
| `Execution.QueryPlanned` | src/planner/physical_planner.cpp:211-266 | a one-table query without aggregation, planned on any covering column list with such a scan, yields exactly its logical rows |
| `Execution.OptimizedQueryKeepsRows` | src/planner/optimizer.cpp:35-44 | for every choice of passes: optimize, plan on narrow chunks and run on stored tables, and the result is what the bound query denotes on the full visible rows, if the scan of the optimized plan has no pushed filter, or keeps a payload column and its zone-map columns in place |
| `Execution.SelectWhereIff` | src/planner/optimizer.cpp:35-44 | for every choice of passes, SELECT c FROM t WHERE a = v returns the right rows on every table of n columns exactly when pushdown is off, or nothing is pruned and n is above one, or pruning keeps c beside a and leaves a at its own position |
| `Execution.PrunedAggregateFails` | src/planner/physical_planner.cpp:367-420 | a concrete WHERE and GROUP BY query whose pruned plan groups by the wrong column, because aggregate expressions are not remapped |
| `Execution.AlignedAggregateKeepsRows` | src/planner/physical_planner.cpp:367-420 | an aggregate keeps its rows when every column it reads is scanned at its own position |
| `Execution.GroupByColumnIff` | src/planner/physical_planner.cpp:367-420 | grouping by one column of a narrowed scan is right on every table exactly when that column kept its own position |
| `CatalogVersions.Schema.GetEntry` | src/catalog/schema.cpp:24-38 | newest-first search returns the last visible version of the name, if there is one |
| `CatalogVersions.Schema.CreateEntry` | src/catalog/schema.cpp:40-43 | the new version goes to the end of the chain of its name; all other chains stay |
| `CatalogVersions.Schema.MarkDeleted` | src/catalog/schema.cpp:45-55 | only the last version visible to the transaction is marked; an unknown or invisible name changes nothing |
| `CatalogVersions.Schema.CommitEntry` | src/catalog/schema.cpp:57-74 | every pending create and drop mark of the transaction in the chain gets the commit time, nothing else changes |
| `CatalogVersions.Schema.RollbackCreate` | src/catalog/schema.cpp:76-87 | exactly the versions the transaction created and did not commit are removed |
| `CatalogVersions.Schema.RollbackDrop` | src/catalog/schema.cpp:89-99 | exactly the uncommitted drop marks of the transaction are cleared |
| `CatalogVersions.TransactionManager.BeginTransaction` | src/transaction/transaction_manager.cpp:12-21 | a new transaction number and a start time behind every commit so far |
| `CatalogVersions.TransactionManager.CreateTable` | src/catalog/catalog.cpp:90-116 | refused exactly when the name is visible to the transaction; otherwise a version is added and logged for undo |
| `CatalogVersions.TransactionManager.DropTable` | src/catalog/catalog.cpp:118-127 | refused exactly when the name is not visible; otherwise the visible version is marked and logged for undo |
| `CatalogVersions.TransactionManager.Commit` | src/transaction/transaction_manager.cpp:23-39 | the clock advances and every undo entry is committed at the new time, in order |
| `CatalogVersions.TransactionManager.Rollback` | src/transaction/transaction_manager.cpp:41-49 | every undo entry is taken back, newest first |
| `CatalogVersions.CommitUndoChain` | src/transaction/transaction_manager.cpp:51-56 | committing a whole undo list stamps the chain of a name once if the list mentions it, and leaves it alone if not |
| `CatalogVersions.RollbackUndoChain` | src/transaction/transaction_manager.cpp:91-99 | taking back a whole undo list removes own creations and clears own drop marks of exactly the names it mentions |
| `CatalogIsolation.StepRefines` | src/transaction/transaction_manager.cpp:12-49 | one step of begin, create, drop, commit or rollback keeps the invariant and matches the same step on private snapshots |
| `CatalogIsolation.SnapshotIsolation` | src/transaction/transaction_manager.cpp:12-49 | after every allowed run the version chains show each running transaction exactly its private snapshot, and a new one the committed state |
| `CatalogIsolation.LookupChangesOnlyByOwnSteps` | src/catalog/schema.cpp:8-38 | whatever others do in between, a running transaction looks up the same entry for every name |
| `CatalogIsolation.CommitUnseenByRunning` | src/transaction/transaction_manager.cpp:23-39 | a commit changes no lookup of a transaction that is already running |
| `CatalogIsolation.CommitVisibleToNext` | src/transaction/transaction_manager.cpp:23-39 | a transaction that begins after a commit sees the version of the committer for each name it wrote, and the earlier committed version of every other name |
| `CatalogIsolation.RollbackRestoresChains` | src/transaction/transaction_manager.cpp:91-99 | in every reachable state, any creates and drops of a transaction followed by its rollback leave the version chain of a name exactly as it was if and only if no drop of that name overwrote a mark; allowed writes overwrite none |
| `CatalogIsolation.StaleRollbackLosesDrop` | src/catalog/schema.cpp:45-99 | a concrete run in which a drop that is rolled back takes the committed drop of another transaction with it |
| `CatalogIsolation.DropDisturbsIff` | src/catalog/schema.cpp:45-55 | a drop changes which version another transaction finds exactly when it overwrites a drop mark that transaction counted on and nothing newer is visible |
| `CatalogIsolation.CreateNeverDisturbs` | src/catalog/schema.cpp:40-43 | an uncommitted create changes the lookup of no other transaction |
| `CatalogIsolation.StaleDropResurrects` | src/catalog/schema.cpp:45-55 | a concrete run with never two running writers on one name in which a dropped table comes back for a later transaction |
| `BufferPool.BufferManager.Unpin` | src/storage/buffer_manager.cpp:56-67 | one pin less; the last one puts the frame at the front of the queue |
| `BufferPool.BufferManager.EvictOne` | src/storage/buffer_manager.cpp:69-84 | evicts the back of the queue, writing it back if dirty, and fails without change exactly when nothing is queued; no pinned frame is touched |
| `BufferPool.BufferManager.EnsureSpace` | src/storage/buffer_manager.cpp:86-91 | succeeds exactly when the pinned frames leave room for one more block |
| `BufferPool.BufferManager.Pin` | src/storage/buffer_manager.cpp:93-126 | returns the last written contents of the block; refused exactly for an unknown block or when no frame can be freed |
| `BufferPool.BufferManager.MarkDirty` | src/storage/buffer_manager.cpp:128-132 | the frame is dirty and its writes count as marked |
| `BufferPool.BufferManager.AllocateBlock` | src/storage/buffer_manager.cpp:134-153 | the next block number, a zero block pinned once; the number is taken and the file grows even when no frame is free |
| `BufferPool.BufferManager.Flush` | src/storage/buffer_manager.cpp:155-164 | all frames clean, and the file holds the last written contents of every block whose writes were marked |
| `BufferPool.EvictedInv` | src/storage/buffer_manager.cpp:69-84 | after an eviction: used bytes are block size times frames, the queue holds exactly the unpinned ids without duplicates, and clean frames equal their block on file |
| `BufferPool.LoadedInv` | src/storage/buffer_manager.cpp:109-126 | after a load the same invariant holds and the pool size is not exceeded |
| `BufferPool.PoolSize` | src/storage/buffer_manager.cpp:86-91 | the number of frames is the number of queued ones plus the number of pinned ones |
| `BufferPool.BytesIsProduct` | src/storage/buffer_manager.cpp:86-91 | used bytes are block size times number of frames |
| `BufferPool.RunClient` | src/storage/buffer_manager.cpp:56-164 | for any sequence of allocate, pin, write, mark, unpin and flush on a pool over an empty file, every answer is that of a reference without frames or queue: blocks as last written, pins and allocations refused exactly for unknown blocks or when the pinned blocks leave no room, writes and unpins done exactly when a handle allows them |
| `BufferPool.RefIsHistory` | src/storage/buffer_manager.cpp:56-164 | the reference is the history: as many blocks as allocations, in each what was last written to it, and as many handles as were given out and not given back |
| `BufferPool.AnswersByHistory` | src/storage/buffer_manager.cpp:56-164 | every answer follows from the calls before it: refused exactly when the block does not exist, or has no handle and the held blocks and one more do not fit; shown as last written, zero in every byte at first; stores and unpins need a handle |
| `ColumnSegments.BuildStats` | src/storage/column/column_chunk.cpp:53-77 | the least and the greatest present value in number or byte order, NULL exactly when there is none |
| `ColumnSegments.AddStatsCovers` | src/storage/column/column_chunk.cpp:53-77 | folding a vector in covers it and everything covered before |
| `ColumnSegments.PutAllMeaning` | src/storage/column/column_chunk.cpp:344-428 | after point updates a row holds the value of the last one at its place, or what it held before |
| `ColumnSegments.ExcludedValue` | src/storage/column/column_chunk.cpp:96-139 | no value within the bounds of an excluded segment satisfies the predicate, for every operator and type |
| `ColumnSegments.ExcludesIff` | src/storage/column/column_chunk.cpp:96-139 | statistics rule a segment out exactly when no value between them satisfies the predicate |
| `ColumnSegments.ZoneSkipSound` | src/storage/column/column_chunk.cpp:96-139 | with covering statistics no skipped row satisfies the predicate |
| `ColumnChunks.ColumnChunk.MakeScanState` | src/storage/column/column_chunk.cpp:141-157 | a cursor that stands at exactly the given row |
| `ColumnChunks.ColumnChunk.Scan` | src/storage/column/column_chunk.cpp:159-205 | from any cursor the exact slice of the flat sequence, across segment boundaries, with the cursor behind it |
| `ColumnChunks.ColumnChunk.ScanRows` | src/storage/column/column_chunk.cpp:251-284 | the rows at any ascending offsets, in that order |
| `ColumnChunks.ColumnChunk.Flush` | src/storage/column/column_chunk.cpp:207-227 | the flat sequence does not change; the pending vector becomes one segment |
| `ColumnChunks.ColumnChunk.AppendFromVector` | src/storage/column/column_chunk.cpp:229-241 | appending concatenates; a sound zone map stays sound exactly when the statistics kept before cover the rows the call itself moves into segments |
| `ColumnChunks.ColumnChunk.UpdateCombinedStats` | src/storage/column/column_chunk.cpp:430-454 | the running statistics after the vector |
| `ColumnChunks.ColumnChunk.TruncatePending` | src/storage/column/column_chunk.cpp:243-249 | the flat sequence cut behind the given number of pending rows |
| `ColumnChunks.ColumnChunk.AppendAndRevert` | src/storage/column/row_group.cpp:158-180 | an append and its rollback leave the column as it was exactly when the append did not straddle a flush; otherwise the rows that reached a segment stay |
| `ColumnChunks.StraddlingAppendLeavesRow` | src/storage/column/row_group.cpp:158-180 | with 1023 rows pending, the rollback of an append of two leaves one row behind |
| `ColumnChunks.ColumnChunk.ZoneMapSkipRows` | src/storage/column/column_chunk.cpp:96-139 | skips all that remains of one segment or nothing, and with sound statistics no row that satisfies the predicate |
| `ColumnChunks.ColumnChunk.WriteRows` | src/storage/column/column_chunk.cpp:344-428 | equals the point updates in order and touches nothing else; refused exactly on a size mismatch, a descending or an out-of-range offset; the zone map stays sound exactly when the running statistics cover what is pending afterwards |
| `ColumnChunks.UpdateBeforeFlush` | src/storage/column/column_chunk.cpp:208-428 | rows are appended, one of them is updated and then flushed: the column holds the new value, and a search for it skips the segment exactly when it lies outside the range of the values as appended |
| `ColumnChunks.UpdateHidesRow` | src/storage/column/column_chunk.cpp:208-428 | the update of a pending 1 to 5 hides the row from a search for 5 |
| `ColumnChunks.StraddlesIff` | src/storage/column/column_chunk.cpp:229-241 | an append moves its own rows into a segment exactly when it straddles a flush |
| `ColumnChunks.WholeAppendStaysCovered` | src/storage/column/column_chunk.cpp:229-241 | an append that does not straddle a flush keeps every segment covered |
| `ColumnChunks.StraddlingAppendUncovers` | src/storage/column/column_chunk.cpp:229-241 | a concrete straddling append that seals a segment whose statistics miss one of its values |
| `RowVersions.VersionInfo.MarkDeleted` | src/storage/column/version_info.cpp:6-10 | the marker of the row and all three counters after the call, with the cases of a row without a marker |
| `RowVersions.VersionInfo.CommitDelete` | src/storage/column/version_info.cpp:12-18 | the marker of the row and all three counters after the call, with the cases of a row without a marker |
| `RowVersions.VersionInfo.ClearDeleteMarker` | src/storage/column/version_info.cpp:20-23 | the marker of the row and all three counters after the call, with the cases of a row without a marker |
| `RowVersions.VersionInfo.MarkInserted` | src/storage/column/version_info.cpp:25-28 | the marker of the row and all three counters after the call, with the cases of a row without a marker |
| `RowVersions.VersionInfo.CommitInsert` | src/storage/column/version_info.cpp:30-38 | the marker of the row and all three counters after the call, with the cases of a row without a marker |
| `RowVersions.VersionInfo.RevertInsert` | src/storage/column/version_info.cpp:40-43 | the marker of the row and all three counters after the call, with the cases of a row without a marker |
| `RowVersions.VersionInfo.MarkUpdated` | src/storage/column/version_info.cpp:45-49 | the marker of the row and all three counters after the call, with the cases of a row without a marker |
| `RowVersions.VersionInfo.CommitUpdate` | src/storage/column/version_info.cpp:51-57 | the marker of the row and all three counters after the call, with the cases of a row without a marker |
| `RowVersions.VersionInfo.RevertUpdate` | src/storage/column/version_info.cpp:59-64 | the marker of the row and all three counters after the call, with the cases of a row without a marker |
| `RowVersions.ApplyInv` | src/storage/column/version_info.cpp:6-64 | every call that answers an earlier mark keeps: open marks are counted, delete and update markers are counted exactly, insert markers are older than the recorded maximum |
| `RowVersions.FastPathIsSound` | src/storage/column/version_info.hpp:46-53 | after every history in which each commit or revert answers a mark of its kind, the fast-path test implies that every row is visible |
| `RowVersions.VersionInfo.SelectVisible` | src/storage/column/row_group.cpp:52-70 | with or without the fast path, the selection is ascending and holds exactly the visible rows of the range |
| `RowVersions.UntouchedVisible` | src/storage/column/version_info.cpp:66-68 | a row no event is about is visible to everyone |
| `RowVersions.MarkedVisible` | src/storage/column/version_info.cpp:70-99 | after a mark of t as the last event of the row, an inserted or updated row is visible to t alone and a deleted one to everyone but t |
| `RowVersions.CommittedVisible` | src/storage/column/version_info.cpp:70-99 | after the commit of that mark at time c, an inserted or updated row is visible to t and those who started after c, a deleted one to those but t who did not |
| `RowVersions.RevertedVisible` | src/storage/column/version_info.cpp:20-64 | after the mark is taken back the row is visible to everyone |
| `RowVersions.UpdateHidesFromOthers` | src/storage/column/version_info.cpp:45-57 | an update hides a row from every other transaction that saw it, and from those already running for good |
| `RowIsolation.RowGroup.Append` | src/storage/column/row_group.cpp:133-150 | rows are added behind the others and marked inserted by the transaction; a system append leaves no marks |
| `RowIsolation.RowGroup.CommitAppend` | src/storage/column/row_group.cpp:152-156 | the rows of the latest append, whoever made it, are stamped |
| `RowIsolation.RowGroup.RevertAppend` | src/storage/column/row_group.cpp:158-180 | the latest append and its marks are gone, the rest stays |
| `RowIsolation.RowGroup.MarkDeletedRows` | src/execution/operator/physical_delete.cpp:64-69 | exactly the matched rows carry a delete mark of the transaction |
| `RowIsolation.RowTransactions.BeginTransaction` | src/transaction/transaction_manager.cpp:12-21 | a fresh number and the start time right behind the last commit: the begin step of the machine |
| `RowIsolation.RowTransactions.Insert` | src/execution/operator/physical_insert.cpp:34-49 | the append and its undo entry are the append step of the machine |
| `RowIsolation.RowTransactions.DeleteRows` | src/execution/operator/physical_delete.cpp:64-77 | the marks on the scanned rows and the undo entry are the delete step of the machine |
| `RowIsolation.RowTransactions.CommitTransaction` | src/transaction/transaction_manager.cpp:23-76 | the row group after committing the undo list in order is the commit step of the machine |
| `RowIsolation.RowTransactions.RollbackTransaction` | src/transaction/transaction_manager.cpp:41-117 | the row group after taking the undo list back newest first is the rollback step of the machine |
| `RowIsolation.CommitUndoForm` | src/transaction/transaction_manager.cpp:51-76 | committing a whole undo list stamps exactly the rows it speaks about |
| `RowIsolation.RollbackUndoForm` | src/transaction/transaction_manager.cpp:91-117 | taking a whole undo list back removes exactly its marks and its appended rows |
| `RowIsolation.StepRefines` | src/transaction/transaction_manager.cpp:12-117 | one allowed step keeps the invariant and matches the same step on private row sets |
| `RowIsolation.RowSnapshotIsolation` | src/storage/column/version_info.cpp:66-102 | after every allowed run each running transaction sees exactly its private row set |
| `RowIsolation.ViewChangesOnlyByOwnSteps` | src/storage/column/version_info.cpp:66-102 | the visible rows of a running transaction change only by its own steps |
| `RowIsolation.CommitIsAtomic` | src/transaction/transaction_manager.cpp:23-39 | whoever begins after a commit sees all its inserts and deletes on top of the committed rows, and nothing else |
| `RowIsolation.DeleteDisturbsIff` | src/storage/column/version_info.cpp:6-10 | a delete leaves the view of another transaction alone exactly when that transaction already saw every deleted row |
| `RowIsolation.DeletableIff` | src/storage/column/version_info.cpp:66-102 | in every reachable state a row is free to delete exactly when all running transactions, and the next one, see it |
| `RowIsolation.OwnDeleteExposesRow` | src/storage/column/version_info.cpp:6-10 | a concrete run in which deleting an own uncommitted row shows it to another transaction |
| `RowIsolation.SecondAppendIff` | src/storage/column/row_group.cpp:133-156 | in every reachable state, after one more append every commit stamps exactly the rows of its own transaction if and only if nobody, the appending transaction included, had an open append |
| `RowIsolation.SecondAppendLeaks` | src/storage/column/row_group.cpp:133-156 | a concrete run in which a second open append makes a commit publish the rows of the other transaction |
| `DatabaseIsolation.StepAt` | src/transaction/transaction_manager.cpp:12-117 | every step of the machine with one clock and one undo list over all row groups of all tables is, in each row group, one step of the row-group machine or none |
| `DatabaseIsolation.RunAt` | src/transaction/transaction_manager.cpp:12-117 | every run is, in each row group, a run of that group, and an allowed one if every step is allowed |
| `DatabaseIsolation.DatabaseSnapshotIsolation` | src/transaction/transaction_manager.cpp:12-117 | after every allowed run each row group of each table shows every transaction exactly its private row set |
| `DatabaseIsolation.RowsChangeOnlyByOwnSteps` | src/transaction/transaction_manager.cpp:12-117 | what a running transaction sees of any row of any table changes only by its own steps |
| `DatabaseIsolation.CommitIsAtomicEverywhere` | src/transaction/transaction_manager.cpp:23-76 | whoever begins after a commit sees exactly the rows committed before, without those the committer deleted and with those it inserted, in all row groups and tables at once |
| `DatabaseIsolation.RollbackLeavesNothing` | src/transaction/transaction_manager.cpp:41-117 | whoever begins after a rollback sees exactly the rows committed before, in every row group |
| `TableScan.ExtractMeaning` | src/execution/operator/physical_table_scan.cpp:20-56 | an extracted zone-map predicate says about the cell what the filter says about the row, also with the literal on the left |
| `TableScan.ZoneMapSkipRows` | src/storage/column/row_group.cpp:20-30 | the rows to skip are those of the first predicate whose column can skip any, and none exactly when no predicate can |
| `TableScan.SkippedNotChosen` | src/storage/column/row_group.cpp:20-30 | rows skipped by a predicate on a column scanned at its own position fail the filters |
| `TableScan.ScanBatchWithOffsets` | src/storage/column/row_group.cpp:76-117 | the visible rows of the next at most 1024, in order, with their values and offsets |
| `TableScan.Intersect` | src/execution/operator/physical_table_scan.cpp:361-370 | merge-intersection of two ascending selections: exactly the common positions, ascending |
| `TableScan.SelectRows` | src/execution/operator/physical_table_scan.cpp:355-374 | exactly the positions on which every filter holds |
| `TableScan.ScanLate` | src/storage/column/row_group.cpp:119-131 | the payload columns at exactly the selected rows |
| `TableScan.Assemble` | src/execution/operator/physical_table_scan.cpp:386-400 | filter columns compacted and payload columns, each at its own output position |
| `TableScan.LateBatch` | src/execution/operator/physical_table_scan.cpp:341-402 | one batch of late materialization is exactly the visible rows of the range that pass all filters, projected |
| `LateScan.SplitColumns` | src/execution/operator/physical_table_scan.cpp:161-177 | filter and payload positions split all positions, each list ascending |
| `LateScan.PhysicalTableScan.constructor` | src/execution/operator/physical_table_scan.cpp:143-189 | extracted predicates, split columns and remapped filters |
| `LateScan.PhysicalTableScan.GetData` | src/execution/operator/physical_table_scan.cpp:319-420 | each call returns the next rows that are left to return, or reports the end exactly when nothing is left |
| `LateScan.ScanAll` | src/execution/operator/physical_table_scan.cpp:319-420 | all chunks of a scan are exactly: skip while zone maps allow, read a batch, filter it only if there is a payload column, and again, over all row groups |
| `LateScan.ScanKeeps` | src/execution/operator/physical_table_scan.cpp:319-420 | with zone maps looked up at the right columns, filtering what a scan returns gives the visible rows that pass, and with a payload column it already is that |
| `LateScan.PayloadIff` | src/execution/operator/physical_table_scan.cpp:404-418 | for filters that reject some row, the scan returns the filtered rows on every table exactly when it reads a payload column |
| `LateScan.EqualityScanIff` | src/execution/operator/physical_table_scan.cpp:319-420 | a scan filtered by one equality is right on every table exactly when it reads a second column and lists the filtered one at its own position |
| `LateScan.FilterColumnsOnly` | src/execution/operator/physical_table_scan.cpp:404-418 | a concrete scan of column a for a = 1 that returns a row with another value |
| `LateScan.ZoneSafeIff` | src/storage/column/row_group.cpp:20-30 | looking zone maps up by output position is safe on every table exactly when the column is scanned at its own position |
| `Bits.MaskIsMod` | src/storage/column/compression/bit_packing.cpp:18-19 | masking with width ones is the remainder modulo two to the width |
| `Bits.I64RoundTrip` | src/storage/column/compression/bit_packing.cpp:54-57 | a 64-bit integer survives eight little-endian bytes |
| `BitPacking.WriteNBits` | src/storage/column/compression/bit_packing.cpp:10-25 | the bits of the value are ORed into the field, across bytes, and every other bit of the buffer is unchanged |
| `BitPacking.ReadNBits` | src/storage/column/compression/bit_packing.cpp:27-44 | the number stored in the field |
| `BitPacking.ReadBack` | src/storage/column/compression/bit_packing.cpp:10-44 | a value written into zeroed bits at any position reads back modulo two to the width |
| `BitPacking.OtherField` | src/storage/column/compression/bit_packing.cpp:10-25 | a write leaves every field it does not overlap as it was |
| `BitPacking.BitPackEncode` | src/storage/column/compression/bit_packing.cpp:46-67 | minimum in eight bytes, then each difference modulo two to the width in its field, in the stated size |
| `BitPacking.BitPackDecode` | src/storage/column/compression/bit_packing.cpp:69-82 | the stored minimum plus each field |
| `BitPacking.RepackedIff` | src/storage/column/compression/bit_packing.cpp:46-82 | the vector comes back exactly when every difference to the minimum fits into the width |
| `BitPacking.RoundTrip` | src/storage/column/compression/bit_packing.cpp:46-82 | decoding an encoded vector gives the minimum plus each difference modulo two to the width |
| `Codecs.BuildBitmap` | src/storage/column/compression.cpp:105-112 | bit i is set exactly when cell i is present |
| `Codecs.ApplyBitmap` | src/storage/column/compression.cpp:114-121 | cells without a set bit become NULL |
| `Codecs.PlainDecode` | src/storage/column/compression.cpp:231-235 | plain 64-bit integers read back as they were |
| `Codecs.DeltaEncode` | src/storage/column/compression/delta.cpp:6-24 | first value in eight bytes, then each difference in four |
| `Codecs.DeltaDecode` | src/storage/column/compression/delta.cpp:26-41 | the running sum of the differences as 32-bit integers |
| `Codecs.ResummedIff` | src/storage/column/compression/delta.cpp:6-41 | differences bring a vector back exactly when each of them is a 32-bit integer |
| `RunLengths.RleEncode` | src/storage/column/compression/rle.cpp:44-77 | the bytes of exactly the longest runs of the vector, NULLs included |
| `RunLengths.RunsExpand` | src/storage/column/compression/rle.cpp:44-77 | the longest runs expand to the vector they were taken from |
| `RunLengths.RunsDiffer` | src/storage/column/compression/rle.cpp:44-77 | the runs are maximal: two in a row never hold the same cell |
| `RunLengths.RleDecode` | src/storage/column/compression/rle.cpp:79-103 | decoding the runs gives back their cells and validity |
| `Strings.StringsBack` | src/storage/column/compression.cpp:236-245 | length-prefixed strings read back as they were, wherever they start |
| `Strings.BuildDict` | src/storage/column/compression/dictionary.cpp:41-66 | codes in order of first appearance, each standing for its string, NULL for the reserved code |
| `Strings.DictEncode` | src/storage/column/compression/dictionary.cpp:41-81 | the bytes of the dictionary in order of first appearance and of the codes, and looking the codes up gives the vector |
| `Strings.DictDecode` | src/storage/column/compression/dictionary.cpp:83-109 | the cells the bytes decode to, whatever they are, or nothing when a read would leave the buffer |
| `Strings.DictBack` | src/storage/column/compression/dictionary.cpp:83-109 | decoding an encoded dictionary of short strings gives back what the codes stand for |
| `Strings.DecodedShort` | src/storage/column/compression/dictionary.cpp:83-109 | no string of 65536 bytes or more ever comes out of the decoder |
| `Compression.AllIdentical` | src/storage/column/compression.cpp:28-37 | true exactly when all present values are equal |
| `Compression.MinBitsRequired` | src/storage/column/compression.cpp:39-52 | the width of the value range of the present values, one for a single value, zero without any |
| `Compression.BitsForMeaning` | src/storage/column/compression.cpp:50-51 | the width is the least one that holds the range |
| `Compression.IsMonotonic` | src/storage/column/compression.cpp:54-62 | true exactly when the present values never decrease |
| `Compression.SelectIntCompression` | src/storage/column/compression.cpp:76-85 | run lengths exactly for equal present values, bits exactly for different ones less than 2^32 apart, with the least width that holds their differences, steps exactly for ascending ones further apart, nothing otherwise |
| `Compression.CompressInts` | src/storage/column/compression.cpp:127-206 | header, bitmap and data that encode the vector under the choice, in front of whatever the buffer held |
| `Compression.ReadSegment` | src/storage/column/compression.cpp:212-228 | the header fields, the bitmap and the data read back from any buffer that starts with a segment |
| `Compression.DecodeInts` | src/storage/column/compression.cpp:230-279 | decoding by the type byte yields what the choice brings the vector back as |
| `Compression.StoreAndLoadInts` | src/storage/column/compression.cpp:76-279 | compress under the own choice of the code, decompress from the same buffer: equal values come back, NULLs or not; so do those 2^32 or more apart that are not ascending; a vector without NULLs comes back unless it is ascending, spread over 2^32 or more and has a difference above 32 bits; in general exactly when it survives |
| `Compression.NullFreeReloadIff` | src/storage/column/compression.cpp:39-95 | an integer vector without NULLs comes back unless it is ascending, spread over 2^32 or more, and has a difference that is no 32-bit integer |
| `Compression.SurvivesIff` | src/storage/column/compression.cpp:76-95 | for every vector, in terms of its cells: equal values survive; values 2^32 or more apart unless they ascend with a step that does not fit; closer ones exactly when no more bits are needed with NULL slots counted as zero |
| `Compression.DeltaIff` | src/storage/column/compression.cpp:184-190 | a vector sent to differences, NULLs or not, comes back exactly when the difference leading to each present slot is a 32-bit integer or, across NULL slots, which hold zero, the steps down to zero and up again wrap around to the same sum |
| `Compression.LargeStepBreaksDelta` | src/storage/column/compression.cpp:54-85 | two values 2^33 apart are sent to differences and come back wrong |
| `Compression.BitPackedIff` | src/storage/column/compression.cpp:173-183 | a bit-packed vector, NULLs or not, comes back exactly when the greatest present value fits above the least slot, NULL slots counting as zero |
| `Compression.NullBreaksBitPacking` | src/storage/column/compression.cpp:173-183 | a concrete vector with one NULL whose other values come back wrong |
| `Compression.IntCodecLosslessIff` | src/storage/column/compression.cpp:76-95 | the codec a column chunk runs on loses nothing exactly on the vectors that survive; without NULLs these are all but the ascending ones spread over 2^32 or more with a difference above 32 bits |
| `StringSegments.CountDistinct` | src/storage/column/compression.cpp:64-70 | the number of distinct present strings |
| `StringSegments.SelectStrCompression` | src/storage/column/compression.cpp:89-92 | dictionary up to 1000 distinct strings, uncompressed beyond |
| `StringSegments.StringReloadIff` | src/storage/column/compression.cpp:156-164 | an uncompressed VARCHAR vector comes back exactly when every string is shorter than 65536 bytes |
| `StringSegments.DictReloadIff` | src/storage/column/compression/dictionary.cpp:41-109 | a dictionary vector comes back exactly when every string is shorter than 65536 bytes |
| `StringSegments.LongStringLost` | src/storage/column/compression/dictionary.cpp:41-109 | a vector of one string of 65536 bytes does not come back, whatever the buffer held |
| `StringSegments.StoreAndLoadStrings` | src/storage/column/compression.cpp:76-279 | a VARCHAR vector comes back with its NULLs, under either choice, exactly when every string is shorter than 65536 bytes |
| `HashJoin.JoinHashTable.HashKey` | src/execution/join_hash_table.cpp:30-36 | the fold of the value hashes over the key |
| `HashJoin.JoinHashTable.Insert` | src/execution/join_hash_table.cpp:38-49 | every bucket again holds exactly the built rows of its hash in insertion order |
| `HashJoin.JoinHashTable.ComputeHashes` | src/execution/join_hash_table.cpp:66-100 | column-at-a-time hashing gives each row the hash of its key |
| `HashJoin.JoinHashTable.Consume` | src/execution/operator/physical_hash_join.cpp:32-47 | the table after a chunk represents all rows built so far, in order |
| `HashJoin.BucketMatches` | src/execution/operator/physical_hash_join.cpp:158-178 | collisions are filtered out: the bucket of a key yields exactly the built rows with that key in order, any other bucket none of them |
| `HashJoin.HashJoinProbe.Execute` | src/execution/operator/physical_hash_join.cpp:92-188 | one call emits the next at most 1024 rows of the join; exactly 1024 when it stops early, and what is left shrinks by them |
| `HashJoin.Join` | src/execution/operator/physical_hash_join.cpp:92-188 | the outputs of successive calls up to the one that asks for input concatenate, in left-row then insertion order, to what each row contributes, NULL keys included; with present keys that is the nested-loop equi-join with the boxed build side, and without NULLs every left row in order beside exactly the right rows with the same key |
| `Relational.EquiJoinMeaning` | src/execution/operator/physical_hash_join.cpp:92-188 | the reference join: for each left row in order, exactly the right rows whose key columns have the same types and cells, in order |
| `HashJoin.BoxHarmlessIff` | src/execution/join_hash_table.cpp:10-28 | boxing the build side leaves every join with present probe keys alone exactly when the build side has no NULL in any column |
| `HashJoin.NullProbeIff` | src/execution/operator/physical_hash_join.cpp:58-78 | a probe row with a NULL key joins nothing, as it should, exactly when its hash differs from that of the key with zero for NULL or no built row has that key |
| `HashJoin.NullProbeJoinsZero` | src/execution/operator/physical_hash_join.cpp:58-78 | with a hash that maps zero to zero, a NULL probe key joins with zero |
| `HashJoin.NullKeyJoinsZero` | src/execution/join_hash_table.cpp:10-28 | a NULL integer key on the build side joins with zero |
| `SortOrder.KeyLessStrictTotal` | src/execution/operator/physical_sort.cpp:13-65 | key comparison with the position as tie-break is a strict total order on rows, for keys of one type each |
| `SortOrder.SortToIsStableSort` | src/execution/operator/physical_sort.cpp:167-179 | sorting positions by that order is the stable sort of the rows |
| `SortOrder.StableSortMeaning` | src/execution/operator/physical_sort.cpp:13-65 | the stable sort is a permutation of the rows; of two rows, the one with the smaller number or string, or the greater if descending, at the first differing key comes first, a NULL behind every present value, and rows equal in all keys keep their input order |
| `SortOrder.LowestIsPrefix` | src/execution/operator/physical_sort.cpp:141-166 | any sorted set of rows below all others is a prefix of the stable sort |
| `TopKSort.LessTotal` | src/execution/operator/physical_sort.cpp:13-65 | the comparison of chunk and row positions is total and irreflexive |
| `TopKSort.LessTransitive` | src/execution/operator/physical_sort.cpp:13-65 | and transitive |
| `TopKSort.Offer` | src/execution/operator/physical_sort.cpp:150-162 | the heap holds the k smallest of all rows offered so far, its front the greatest of them |
| `SortLimit.EvaluateKeys` | src/execution/operator/physical_sort.cpp:121-131 | key vectors hold each key expression on each row of each chunk |
| `SortLimit.TopK` | src/execution/operator/physical_sort.cpp:144-163 | after all chunks the heap holds the k smallest rows |
| `SortLimit.ComputeOrder` | src/execution/operator/physical_sort.cpp:133-181 | read back as rows, the order is the stable sort of all input, or its first k rows, as ordered by the keys themselves |
| `SortLimit.SortBuffer.Consume` | src/execution/operator/physical_sort.cpp:75-119 | the collected rows grow by the chunk; an empty chunk is not kept |
| `SortLimit.SortBuffer.Finalize` | src/execution/operator/physical_sort.cpp:121-182 | the buffer is sorted: all rows, or the first k |
| `SortLimit.SortSource.GetData` | src/execution/operator/physical_sort_source.cpp:10-42 | the next at most 1024 rows of the order, and whether they were the last |
| `SortLimit.PhysicalLimit.Execute` | src/execution/operator/physical_limit.cpp:10-53 | each chunk contributes its share of the limited rows; finished only when no later row can matter |
| `SortLimit.HintKeepsLimit` | src/planner/physical_planner.cpp:238-252 | keeping limit plus offset rows, saturating, never changes the limited result |
| `SortLimit.HintThroughProjection` | src/planner/physical_planner.cpp:26-42 | nor does it with a projection between sort and limit |
| `SortLimit.OrderByLimit` | src/planner/physical_planner.cpp:238-266 | ORDER BY with LIMIT and OFFSET through the heap or the full sort, for any chunking: the rows of the input, each once, in the order of their keys with NULLs last and ties in input order, without the first offset rows and no more than limit |
| `AggTable.Walk` | src/execution/aggregate_hash_table.cpp:49-55 | the chain walk finds the entry of the key exactly when there is one |
| `AggTable.AggregateHashTable.FindOrCreate` | src/execution/aggregate_hash_table.cpp:49-72 | the entry of the key; a new one goes to the end, and entries and order survive a resize |
| `AggTable.AggregateHashTable.Resize` | src/execution/aggregate_hash_table.cpp:74-82 | the capacity doubles, every entry sits on the chain of its own bucket, keys and accumulators stay |
| `AggTable.LinkOne` | src/execution/aggregate_hash_table.cpp:58-63 | linking an entry in front of its chain keeps every chain: each entry points at the next older one of its bucket |
| `Aggregation.AddRowsIsGroupBy` | src/execution/operator/physical_hash_aggregation.cpp:62-79 | adding rows one at a time gives one group per key in first-appearance order, each accumulator folded over exactly its own rows |
| `Aggregation.StarMany` | src/execution/operator/physical_hash_aggregation.cpp:30-32 | adding the chunk size is counting its rows one by one |
| `Aggregation.ChunkIsRows` | src/execution/operator/physical_hash_aggregation.cpp:20-40 | one lookup per chunk for the one empty key is a lookup for every row |
| `Aggregation.PhysicalHashAggregation.Consume` | src/execution/operator/physical_hash_aggregation.cpp:13-80 | both paths add exactly the rows of the chunk to the groups; an empty chunk creates none |
| `Aggregation.Aggregate` | src/execution/operator/physical_hash_aggregation.cpp:13-80 | for any chunking and any hash function the groups are those of the boxed keys, and those of GROUP BY exactly when no key holds a NULL |
| `Aggregation.NullGroupsWithZero` | src/execution/aggregate_hash_table.cpp:20-38 | a NULL key shares the group of zero |
| `Aggregation.CountMeaning` | src/execution/aggregate_hash_table.cpp:94-100 | the count is that of the present values, for COUNT(*) of the rows |
| `Aggregation.MinMeaning` | src/execution/aggregate_hash_table.cpp:113-123 | the minimum kept is a least present value of the group, NULL exactly when there is none |
| `Aggregation.MaxMeaning` | src/execution/aggregate_hash_table.cpp:125-135 | the maximum kept is a greatest present value of the group, NULL exactly when there is none |
| `AggregateResult.PhysicalAggregationSource.GetData` | src/execution/operator/physical_aggregation_source.cpp:10-62 | the next at most 1024 answer rows, key columns first, and whether they were the last; one synthetic row without GROUP BY and input |
| `AggregateResult.ColumnOfGroup` | src/execution/aggregate_hash_table.cpp:143-168 | a column of the answer, by the member rows of its group: COUNT is their number, or that of those with a value; MIN and MAX are one of their values with none below or above, NULL exactly when there is none; SUM and AVG are total and mean of their numbers, NULL without any |
| `AggregateResult.AggregateRowsMeaning` | src/execution/operator/physical_aggregation_source.cpp:10-62 | one answer row per distinct key in the order of its first row: the key, then its columns in that sense |
| `AggregateResult.EmptyAggregate` | src/execution/operator/physical_aggregation_source.cpp:19-40 | without GROUP BY and input there is one row with zero for COUNT and NULL for everything else |
| `AggregateResult.AggregateQuery` | src/execution/operator/physical_aggregation_source.cpp:10-62 | from input chunks to answer rows, for any chunking and hash function: the answer is that of GROUP BY, in the sense above, exactly when no key holds a NULL |
| `Wal.CollectEntries` | src/main/database.cpp:168-175 | all entries up to a short header or payload; an oversized entry is an error |
| `Wal.EntryLayout` | src/storage/wal.cpp:90-97 | an entry on file is the type byte, the size in four bytes with the lowest first, and the payload |
| `Wal.PrefixReplay` | src/storage/wal.cpp:338-355 | replaying any byte prefix of a log gives exactly the entries that lie wholly inside it, or an error exactly when the header of a payload above 128 MiB lies inside |
| `Wal.FullReplayIff` | src/storage/wal.cpp:90-97 | a whole log, of payloads of any size, replays to its entries exactly when none is above 134217728 bytes; with sizes below 2^32 it is an error otherwise |
| `Wal.WrappedEntry` | src/storage/wal.cpp:90-97 | a payload of 2^32 bytes or more is read as an error or as an entry cut to its size modulo 2^32 |
| `Wal.LargeEntryFails` | src/storage/wal.cpp:338-355 | one entry of 128 MiB and a byte makes any log around it unreadable |
| `Wal.FindReplayStart` | src/main/database.cpp:177-183 | the index behind the last checkpoint marker |
| `Wal.WriteAheadLog.AppendEntry` | src/storage/wal.cpp:90-97 | the buffer holds one more entry, its size written modulo 2^32; the checkpoint position still is where the last marker starts |
| `Wal.WriteAheadLog.WriteCheckpointMarker` | src/storage/wal.cpp:305-309 | the marker is buffered and its position recorded |
| `Wal.WriteAheadLog.Flush` | src/storage/wal.cpp:315-332 | the buffered entries reach the file in order |
| `Wal.WriteAheadLog.Truncate` | src/storage/wal.cpp:361-406 | the file keeps the entries from the last marker on, the buffer stays; a position of zero keeps nothing of the file, and a marker that was never flushed makes the call fail with nothing changed |
| `Wal.DropKeepsReplay` | src/storage/wal.cpp:373-405 | dropping what precedes the last marker leaves the entries to replay as they were |
| `Wal.TruncateKeepsRecoveryIff` | src/storage/wal.cpp:361-406 | truncation leaves recovery unchanged exactly when the last marker does not start the file or nothing is left to replay |
| `Wal.MarkerFirstLosesEntry` | src/storage/wal.cpp:361-370 | a log of a marker and one entry loses the entry when it is truncated |
| `Wal.TruncateCrashIff` | src/storage/wal.cpp:385-402 | a crash while the tail is written back leaves recovery unchanged exactly when all of it was written or nothing was to be replayed |
| `Wal.TruncateCrashLosesEntry` | src/storage/wal.cpp:385-402 | a crash right after the file was emptied loses a flushed entry behind the marker |
| `Wal.Recover` | src/main/database.cpp:164-183 | after a cut anywhere, recovery acts on exactly the whole entries behind the last marker among them, or fails exactly on a payload header above 128 MiB |
| `Updates.MatchingRows` | src/execution/operator/physical_update.cpp:63-73 | the rows the predicate keeps, or all of the batch |
| `Updates.UpdateBatch` | src/execution/operator/physical_update.cpp:83-130 | each target column gets the value of its expression on the scanned row at the matching rows; the old cells are saved and nothing else changes |
| `Updates.UndoBatch` | src/transaction/transaction_manager.cpp:118-150 | writing the saved cells back restores all columns of the group |
| `Updates.UndoReverse` | src/transaction/transaction_manager.cpp:91-151 | undoing any run of batches newest first gives back every column of every group |
| `Updates.UpdateTable` | src/execution/operator/physical_update.cpp:52-134 | one UPDATE statement sets every visible matching row of the table from its own old values, the last assignment to a column deciding, and nothing else, whatever the batches |
| `Updates.UpdatedCell` | src/execution/operator/physical_update.cpp:52-134 | a cell after the statement: set by the last assignment to its column from the old cells of its row exactly when the row is visible and satisfies the predicate, unchanged otherwise |
| `Updates.UpdateAndRollback` | src/execution/operator/physical_update.cpp:52-134 | any statements of a transaction, one after the other, have that effect, and its rollback restores all column values |

## Left out

- Floating-point rounding, NaN and 64-bit overflow in expressions: numbers are exact integers and reals; folding and evaluation agree on those.
- Scalars.TruncOfQuotient: exact reals stand for doubles, so the rounding of large quotients is not covered.
- Execution.OptimizedQueryKeepsRows: queries of one table without aggregation; joins and aggregates have their own operator theorems and are not carried through the passes.
- Execution.GroupByColumnIff: where a position lies outside the narrow chunk the source reads past it and the model reads NULL.
- Evaluation of malformed operand pairs that the binder rejects is given NULL.
- Compression.DecodeInts: FLOAT segments are copied bytewise by the source and are not modelled at byte level.
- Compression.MinBitsRequired: value ranges of 2^63 and more overflow a signed subtraction in the source and are excluded.
- Strings.DictDecode: a read past the buffer or the dictionary, which the source does not check, gives no vector.
- Block capacity: an encoding larger than its block is not modelled.
- BufferPool.RunClient: a client that gives up the last handle of a block with an unmarked store is skipped; pools without a file, shutdown and the mutex are not modelled.
- TableScan.ZoneMapSkipRows: partitioned tables and partition pruning are not modelled.
- HashJoin.Join: BOOLEAN keys (hashed differently on the two sides), NULLs in VARCHAR, FLOAT or BOOLEAN key or build columns (which make the source throw), partition-wise joins and extra join conditions are not modelled.
- HashJoin.HashJoinProbe.Execute: output is a sequence of rows instead of columns.
- TopKSort.Offer: the heap and sort routines of the C++ library are represented by what they promise.
- AggregateResult.ColumnOfGroup: SUM and AVG are exact over the reals; a star is taken for COUNT only.
- Aggregation.Aggregate: a NULL in a VARCHAR, FLOAT or BOOLEAN group key makes the source throw (src/common/types.cpp, lines 139 to 153), while the model boxes it to zero as it does for integers.
- Aggregation.PhysicalHashAggregation.Consume: the same NULL keys are boxed to zero instead of throwing.
- AggTable.AggregateHashTable.FindOrCreate: masking by the capacity is written as a remainder.
- RowIsolation.RowSnapshotIsolation: no UPDATE marks, because updates are in place and have no snapshots (`RowVersions.UpdateHidesFromOthers`); `DatabaseIsolation` carries it to all row groups and tables.
- DatabaseIsolation.RunAt: the machine over all row groups is on values; the objects behind it are those of `RowIsolation`, one row group at a time, and which row group an INSERT picks is a parameter of the step.
- RowIsolation.RowGroup.RevertAppend: speaks of markers and the row count; what happens to the columns is `ColumnChunks.ColumnChunk.AppendAndRevert`.
- Updates.UpdateAndRollback: which rows are visible is fixed for the transaction; the table is taken as found during rollback, and version marks are not restored to what they were before the update.
- Wal.Recover: payloads of 2^32 bytes and more are excluded here; `Wal.WrappedEntry` and `Wal.FullReplayIff` say what they do.
- Wal.WriteAheadLog.Truncate: payload decoding and failing file operations are not modelled.
- Projection, INSERT, ALTER TABLE, partitions, the parser, most of the binder, the executor's pipelines, threads and the profiler: they would add only easy members or are not part of this model.
