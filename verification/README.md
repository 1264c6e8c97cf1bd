# A verified model of the code-graph indexer

The repository indexes a source tree into a graph: it parses files concurrently and
commits them in order, keeps files, nodes and edges in SQLite behind two caches, and
keeps the graph current with an incremental sync. Around that core sit a few graph and
text algorithms. This project models the parts where the behaviour is a protocol, an
invariant over many writes, or an algorithm with a specification of its own, and proves
what they promise. Check all of it with `dafny verify dfyconfig.toml`.

## How it is laid out

| file | what it models |
|---|---|
| `Collections.dfy`, `StableSort.dfy` | `filter`, the insertion-ordered `Map`, the stable `Array.sort` |
| `GraphTables.dfy` | the tables, cascade on delete and replace, insert-or-ignore on the edge identity |
| `StoreExtraction.dfy`, `StoreMethod.dfy` | storing one file's result: as a function on tables, and as the method the code runs |
| `StoreRuns.dfy` | every run of store operations, against a simple index; file dependents |
| `NodeCache.dfy`, `QueryBuilder.dfy` | the LRU node cache and the segment vocabulary in front of the tables |
| `FullIndex.dfy` | a full index over a populated graph: the vocabulary wipe and what the stores write back |
| `Sync.dfy`, `SyncFromScratch.dfy` | the reconcile loop, what a second sync finds, and a sync against an index from scratch |
| `ParseWindow.dfy`, `IndexRun.dfy` | the bounded parse window as a step system, and the object that takes the steps |
| `IndexProgress.dfy`, `RetryPass.dfy` | the counters, the retry passes, the completeness check |
| `IndexOutcome.dfy` | what a full index leaves in the database, file by file, and in its report |
| `ScopeIgnore.dfy`, `IncludeRoots.dfy` | what is ignored, directory pruning, the static roots of include patterns |
| `AsyncMutex.dfy` | the promise mutex |
| `Affected.dfy`, `CallPaths.dfy`, `ContextTrim.dfy` | the breadth-first search of `affected`, call-path search and selection, budgeted trimming |
| `DfmParser.dfy`, `XmlComments.dfy` | the form parser, comment blanking and line lookup |
| `MergeGraph.dfy`, `CanonicalJson.dfy` | the order-stable merge, canonical key order |

Every member that changes state is a method proved equal to a specification function;
the theorems are about those functions and about runs built from them.

## Where the code and its promises part

* A full index clears the segment vocabulary and relies on every file being stored again
  (comments at `src/index.ts:445-447` and `src/db/queries.ts:469-473`). A file whose hash is
  unchanged is not stored. A name of such a file stays searchable only if a stored file has
  it too; otherwise it is lost (`FullIndex.SkippedFileStaysUnsearchable`). Exactly when the
  vocabulary ends complete is `FullIndex.CompleteIff`, and for a scan, told from the graph
  and the results before the run, `FullIndex.ScanCompleteIff`.
* The retry passes decrement `filesErrored` for every retry that succeeds, also when the
  file had been counted as indexed. `RetryPass.RetryDrift` says by how much the counter is
  too low after both passes. It is right whatever the retries do iff the retryable errors
  are about distinct files that were all counted as errored (`RetryPass.ErroredRightIff`);
  `RetryPass.ErroredCanGoNegative` is a run that ends at -1. The sum of the three counters
  is conserved all the same.
* "A directory that is an ancestor of an embedded root is never ignored" holds only outside
  other embedded repositories: `ScopeIgnore.NestedFileIsLost`. Pruning loses a kept file
  exactly when one lies below an embedded root that the rules of an outer one hide
  (`ScopeIgnore.FilesSafeIff`).
* The static roots do not cover a bare directory pattern such as `Tools/`, which matches at
  any depth: exactly when they cover everything is `IncludeRoots.CoverageIff`.
* Call paths that are "a sub-path of a longer kept chain" are dropped by a test on the
  joined text. It can be right on the flows that the search finds only if no id begins or
  ends another, or there are fewer than four ids; and that is enough when no id is empty or
  contains the separator `>` (`CallPaths.FlowTestRightIff`). The ids that extractors hash
  satisfy all of this (`CallPaths.HashedIdsArePlain`). The `rn-export:` ids of React Native
  methods may begin one another (`CallPaths.TextTestMisfires`). Route ids hold a raw path
  and may contain the separator; then a flow can be dropped for one that shares no symbol
  with it, though no id begins or ends another (`CallPaths.SeparatorMisfires`).
* Recovered edges are compared by the text `source:target:kind`, candidate edges by their
  triple. Recovery loses no found triple iff no two of the ids can be read, joined by a
  colon, as two others (`ContextTrim.RecoversAllIff`). Ids with one colon satisfy this
  (`ContextTrim.HashedTellApart`); route ids, which hold many, need not
  (`ContextTrim.RouteEdgeIsDropped`).
* Warnings are compared by the text `message|file|symbol`. It tells warnings apart, whatever
  their messages, iff no place `|file|symbol` ends another (`MergeGraph.KeyRightIff`), which
  needs a bar in a file or symbol (`MergeGraph.NoBarsApart`).
* Sorting keys loses an own member called `__proto__`, because assigning to that key sets
  the prototype (`CanonicalJson.ProtoIsLost`).

## Model

| member | source | states |
|---|---|---|
| GraphTables.InsertLiveExact | src/db/queries.ts:1489-1507 | A batch of edges only appends; what is appended comes from the batch and has both ends in the table; an identity is present afterwards iff it was before or a live edge of the batch carries it. |
| GraphTables.KeySame | src/db/migrations.ts:98-99 | Two edges are one iff source, target, kind, line and column agree, an absent line or column counting as -1. |
| GraphTables.EdgeIgnoredIff | src/db/queries.ts:1467-1507 | An edge of a batch gets a row of its own iff both ends are there and no row so far agrees with it in all five columns. |
| GraphTables.RowsAfterBatch | src/db/queries.ts:1489-1507 | After a batch an edge has a row iff it had one or a live edge of the batch agrees with it in all five columns. |
| GraphTables.InsertExact | src/db/queries.ts:256-326 | An insert writes the row iff the required fields are there; where it replaces a row, exactly the edges at that row go. |
| GraphTables.UpdateExact | src/db/queries.ts:367-437 | An update changes the one row, if it exists and the required fields are there, and no edge. |
| GraphTables.DeleteExact | src/db/queries.ts:442-449 | A delete removes one row and exactly its edges. |
| GraphTables.DeleteFileExact | src/db/queries.ts:1728-1736 | Deleting a file removes exactly its record, its rows and the edges at them. |
| GraphTables.InsertNodesWellFormed | src/db/queries.ts:256-362 | Inserting any nodes, incomplete or already present, keeps every edge anchored and every identity single, although replacing a row cascades to its edges. |
| GraphTables.DeleteNodesWellFormed | src/db/queries.ts:442-465 | Deleting nodes leaves no dangling edge. |
| GraphTables.InsertEdgesWellFormed | src/db/queries.ts:1467-1507 | Inserting any edges leaves no dangling edge and no repeated (source, target, kind, line, column). |
| StoreExtraction.Retarget | src/extraction/index.ts:2136-2139 | The replacement target exists iff a new node has the old target's kind and name, and then it is such a node. |
| StoreExtraction.RetargetIsLast | src/extraction/index.ts:2136-2139 | Among several new nodes of the kind and name the last is taken. |
| StoreExtraction.Reattach | src/extraction/index.ts:2140-2146 | The re-attached edges are exactly the snapshotted ones whose target has a counterpart, moved onto it. |
| StoreExtraction.StoreWellFormed | src/extraction/index.ts:2065-2179 | Storing any result over any sound graph keeps the graph sound. |
| StoreExtraction.RowsExact | src/extraction/index.ts:2100-2113 | After a re-index the file's rows are exactly the complete nodes of the result (the last of equal ids), and no other file's row changes. |
| StoreExtraction.MovedExact | src/db/queries.ts:1674-1690 | The snapshot and its re-resolution give exactly the incoming non-`contains` edges of other files, moved by kind and name. |
| StoreExtraction.EdgesOfRebuilt | src/extraction/index.ts:2115-2150 | Edges that do not touch the file are unchanged; its own edges are those extracted between inserted nodes; incoming edges are the survivors, with source, kind, line and column kept. Every extracted and every surviving edge has a row that agrees with it in the five columns of its identity. |
| StoreExtraction.ReindexExact | src/extraction/index.ts:2065-2179 | The whole effect of storing a changed file: rows, own edges, surviving incoming edges, every dropped or untouched edge, the file record, and soundness. |
| StoreMethod.IndexByKindName | src/extraction/index.ts:2136-2139 | The map built in the loop agrees with the replacement target for every kind and name. |
| StoreMethod.ReattachAll | src/extraction/index.ts:2140-2146 | The loop produces the re-attached edges in snapshot order. |
| StoreMethod.StoreExtractionResult | src/extraction/index.ts:2065-2179 | The method on the real query layer has the effect just specified on the tables, keeps the node cache coherent, and adds exactly the vocabulary rows of the stored nodes, or nothing when the hash is unchanged. |
| FullIndex.StoresKeep | src/extraction/index.ts:2065-2179 | After any list of stores, rows of files that were not stored again are as before, and every row of a stored file has its vocabulary written. |
| FullIndex.CompleteIff | src/index.ts:445-449 | After the wipe and any list of stores the vocabulary is complete iff every segmentable name in a file that was not stored again has its rows among those the stores wrote. |
| FullIndex.ScanCompleteIff | src/index.ts:445-449 | For a scan, which lists a file once, the same condition in terms of the graph before the run and the results: which files are new or changed, and which names they hold. |
| FullIndex.RestoringAllCompletes | src/db/queries.ts:469-473 | Storing every tracked file again is enough. |
| FullIndex.SkippedFileStaysUnsearchable | src/extraction/index.ts:2074-2078 | A name of a skipped file that no stored file shares is still in the graph and is lost to the search. |
| FullIndex.UnchangedTreeIff | src/extraction/index.ts:2074-2078 | Indexing an unchanged tree again changes no table and leaves the vocabulary complete iff no name has a segment. |
| FullIndex.WipeAndStore | src/index.ts:448-449 | The wipe and the stores on the query layer: tables, vocabulary, and searchable iff that condition holds. |
| QueryLayer.QueryBuilder.ClearNameSegmentVocab | src/db/queries.ts:474-477 | The table is emptied, and the in-memory set with it, so the fast path stays sound. |
| StoreRuns.RunsStayWellFormed | src/db/queries.ts:256-465 | Over every run of stores, inserts, updates, deletes and clears: anchored edges, single identities, each row under its own id. |
| StoreRuns.RunsRemember | src/db/queries.ts:256-465 | Over every run of the seven write operations the file and node tables equal a simple index of hashes and appended rows: nothing missing, no leftovers. |
| StoreRuns.NoLeftovers | src/extraction/index.ts:2065-2179 | When only indexing writes, a file's rows are exactly those of the last result really stored for it, and a file without one has neither rows nor record. |
| StoreRuns.ChangeRemembers | src/db/queries.ts:367-437 | An update replaces the row if there is one and does nothing otherwise. |
| StoreRuns.RemoveNodeRemembers | src/db/queries.ts:442-449 | A delete removes the row under that id and no other. |
| StoreRuns.InsertsRemembered | src/db/queries.ts:256-362 | Inserted rows replace those with the same id, incomplete ones are skipped. |
| StoreRuns.StoreRemembers | src/extraction/index.ts:2072-2113 | One store refines one update of that index, including the unchanged-hash early return and a file that was not tracked and is not cleared. |
| StoreRuns.DependentsAfterReindex | src/db/queries.ts:1634-1646 | After a re-index another file is a dependent iff it was one through an edge whose target is still defined by kind and name. |
| NodeCache.TouchKeeps | src/db/queries.ts:568-578 | A hit keeps the cache coherent and its order that of last touches, and changes no entry. |
| NodeCache.CacheNodeKeeps | src/db/queries.ts:665-674 | Caching a row keeps every cached node equal to its table row and the size within the bound. |
| NodeCache.CacheNodeExact | src/db/queries.ts:665-674 | Caching a row stores it, keeps at most 1000 entries, and below that drops none. |
| NodeCache.EvictsLeastRecent | src/db/queries.ts:665-674 | A full cache drops the least recently touched entry and no other. |
| NodeCache.ForgetKeeps | src/db/queries.ts:287-291 | Dropping the entry of a row that is about to change keeps coherence with the changed table. |
| QueryLayer.QueryBuilder.GetNodeById | src/db/queries.ts:568-590 | Answers exactly the table lookup, cached or not, and touches or caches exactly the entry it answers with. |
| QueryLayer.QueryBuilder.GetNodesByIds | src/db/queries.ts:606-641 | The chunked lookup answers exactly the rows asked for, for any list of ids with repeats and misses, although entries may be evicted meanwhile. |
| QueryLayer.QueryBuilder.ServeHits | src/db/queries.ts:606-622 | The first pass divides the ids into served hits and listed misses, and what it serves is the table lookup. |
| QueryLayer.QueryBuilder.AddRows | src/db/queries.ts:623-639 | A chunk adds exactly its rows to the answer while caching each. |
| QueryLayer.QueryBuilder.InsertNode | src/db/queries.ts:256-329 | Insert refines the table operation, keeps the cache coherent and the vocabulary complete. |
| QueryLayer.QueryBuilder.InsertNodes | src/db/queries.ts:356-362 | The same for a batch. |
| QueryLayer.QueryBuilder.UpdateNode | src/db/queries.ts:367-437 | The same for an update, which drops the cached copy even when it is then refused. |
| QueryLayer.QueryBuilder.DeleteNode | src/db/queries.ts:442-449 | The same for a delete. |
| QueryLayer.QueryBuilder.DeleteNodesByFile | src/db/queries.ts:454-465 | Scanning the cache by file path removes every entry whose row the delete removes. |
| QueryLayer.QueryBuilder.DeleteFile | src/db/queries.ts:1728-1736 | Rows, edges and record of a file go, caches still agree. |
| QueryLayer.QueryBuilder.Clear | src/db/queries.ts:2106-2114 | Empty tables, coherent cache, vocabulary still complete. |
| QueryLayer.QueryBuilder.GetExistingNodeIds | src/db/queries.ts:643-663 | The chunked query returns exactly the ids that have a row. |
| QueryLayer.QueryBuilder.InsertEdges | src/db/queries.ts:1489-1507 | The endpoint filter and the inserts have the specified effect on the table. |
| QueryLayer.QueryBuilder.InsertNameSegments | src/db/queries.ts:339-351 | Whatever the in-memory set holds, and even as it is cleared at its cap, afterwards all rows of the name are there and nothing else was added. |
| QueryLayer.QueryBuilder.RebuildNameSegmentVocab | src/index.ts:1172-1181 | The paged loop re-establishes a complete vocabulary and adds exactly the rows of the listed names. |
| SegmentVocab.InsertNodesVocab | src/db/queries.ts:328-351 | Writing nodes keeps every segmentable name findable by each of its segments. |
| SegmentVocab.RowsOfExact | src/db/queries.ts:328-351 | A node owes one row per segment of its name iff it is complete and neither a file nor an import. |
| SegmentVocab.VocabCompleteExact | src/db/queries.ts:321-337 | Complete means that every segment of the name of every node that is neither file nor import has its row. |
| SegmentVocab.RebuildCompletes | src/index.ts:1172-1181 | From any vocabulary, adding the rows of all distinct names makes it complete. |
| Sync.Run | src/extraction/index.ts:2189-2325 | The method's tables, file list and three counts are those of the specification, with caches kept. |
| Sync.ClassifyAll | src/extraction/index.ts:2241-2288 | Added and modified partition the files to index. |
| Sync.ChangedExact | src/extraction/index.ts:2241-2288 | A path is to be indexed iff it was scanned and judged added or modified. |
| Sync.ChangedIff | src/extraction/index.ts:2252-2288 | A scanned untracked file is re-indexed iff it can be read; a tracked one iff it can be statted and read, its size or floored mtime differs from the record, and its hash differs. |
| Sync.CountsExact | src/extraction/index.ts:2279-2287 | The two counts are the numbers of untracked and tracked files among those re-indexed. |
| Sync.RemovedIff | src/extraction/index.ts:2231-2235 | A record survives the removals iff the path was scanned and is on disk. |
| Sync.IndexFileExact | src/extraction/index.ts:1956-2060 | Field by field: which paths a single-file index stores, and the record it leaves. |
| Sync.IndexFilesRecords | src/extraction/index.ts:1956-2060 | Indexing distinct changed files gives each storable one its disk record and leaves every other record alone. |
| Sync.SyncRecords | src/extraction/index.ts:2189-2325 | The whole file table after a sync, path by path. |
| Sync.SyncIsFresh | src/extraction/index.ts:2225-2288 | Tracked paths are scanned and on disk, and each has the current hash unless size and floored mtime equal the record, or it could not be statted, read or stored. |
| Sync.SecondSyncChanged | src/extraction/index.ts:2241-2288 | A second sync over the same tree reports a path iff the first one tried it and could not store it. |
| Sync.SyncConverges | src/extraction/index.ts:2189-2325 | A second sync over the same tree changes no table at all, removes nothing, and reports nothing iff everything was stored the first time. |
| SyncFromScratch.SyncAnswers | src/extraction/index.ts:2189-2325 | A sync keeps the node table to exactly the parser's answers for the contents that the file table tracks. |
| SyncFromScratch.SyncIsFromScratchIff | src/extraction/index.ts:2181-2188 | After a sync the tracked hashes and the node table equal those of indexing the tree from scratch iff every tracked file that is still there can be indexed and is not taken for unchanged by size and time when it did change. |
| ParseWindow.StepInv | src/extraction/index.ts:1570-1755 | The invariant of the window is kept by every step: dispatch, refusal, completion with flush, resume, abort, drain. |
| ParseWindow.RunInv | src/extraction/index.ts:1570-1755 | So it holds in every state of every run. |
| ParseWindow.FlushStructure | src/extraction/index.ts:1642-1651 | A flush stops at the first sequence number that has not completed, and moves nothing but cursor, buffer and log. |
| ParseWindow.FlushLedger | src/extraction/index.ts:1642-1651 | What a flush commits are the next files in dispatch order. |
| ParseWindow.BufferBound | src/extraction/index.ts:1577-1582 | At most `windowSize` files are dispatched and uncommitted, and at most `windowSize - 1` results wait in the buffer. |
| ParseWindow.FullWindowWaits | src/extraction/index.ts:1669-1677 | Whenever the window is full, the file at the commit cursor is still being parsed, so the race is never over an empty set. |
| ParseWindow.DrainedRefinesSequential | src/extraction/index.ts:1573-1579 | Every drained run, whatever the completion order, commits exactly the dispatched files once each in file order; the graph, the counters and the retry list equal those of the sequential loop, the errors as a multiset. |
| IndexOutcome.DrainedRunOutcome | src/extraction/index.ts:1589-1755 | After every drained run over a scan, each file that gave a node or no error is tracked under its content hash with exactly its complete nodes, unless it had that hash before; unreadable, oversized, rejected and node-less erroneous files keep record and rows; so does every other file. |
| IndexOutcome.SequentialOutcome | src/extraction/index.ts:1680-1748 | The same of the one-worker loop. |
| IndexOutcome.OneStore | src/extraction/index.ts:2065-2179 | One store: the record field by field, the last complete node per id, and nothing about any other file. |
| IndexOutcome.RetryOutcome | src/extraction/index.ts:1823-1834 | A retry that gives a node or no error stores the file, moves it between the counters, adds its totals and takes its entry out of the errors; any other changes nothing. |
| IndexOutcome.TotalsExact | src/extraction/index.ts:1605-1608 | The totals are the sums over the committed results, edges only of results with a node. |
| IndexOutcome.ErrorsExact | src/extraction/index.ts:1598-1634 | Every event appends exactly its own errors, with the file's path where they had none, and its own codes. |
| IndexOutcome.StatusExact | src/extraction/index.ts:1605-1621 | Which results count as indexed and which as errored. |
| ParseWindow.AbortFreezes | src/extraction/index.ts:1642-1643 | After an abort nothing more is committed. |
| ParseWindow.StepsRunOut | src/extraction/index.ts:1656-1678 | Every step uses up part of a finite measure, so every run ends. |
| ParseWindow.NoDeadlock | src/extraction/index.ts:1675-1677 | Until it has drained or aborted, the window always has a step to take. |
| IndexRun.IndexAll.StoreResult | src/extraction/index.ts:1589-1624 | The counters, errors and graph after one result. |
| IndexRun.IndexAll.CommitJob | src/extraction/index.ts:1645-1649 | Committing a buffered item keeps the state equal to the replay of the log. |
| IndexRun.IndexAll.FlushOrdered | src/extraction/index.ts:1642-1651 | The loop is the flush of the step system. |
| IndexRun.IndexAll.SettleParse | src/extraction/index.ts:1658-1668 | A settled parse takes exactly one step of the window. |
| IndexRun.IndexAll.Feed | src/extraction/index.ts:1656-1668 | Dispatch takes exactly one step of the window. |
| IndexRun.IndexAll.PassOver | src/extraction/index.ts:1711-1740 | A file that is unreadable or too large is counted, reported and passed over, in one step of the window. |
| IndexRun.IndexAll.DrainAll | src/extraction/index.ts:1750-1755 | The last flush takes exactly the drain step. |
| IndexProgress.ReplaySplits | src/extraction/index.ts:1589-1636 | Interleaving refusals with commits changes nothing but the order of errors. |
| IndexProgress.ReplayAccounts | src/extraction/index.ts:1589-1636 | Indexed plus skipped plus errored equals the events so far. |
| IndexProgress.SequentialAccounts | src/extraction/index.ts:1680-1748 | The sequential loop accounts for every file once. |
| RetryPass.RunPass | src/extraction/index.ts:1802-1836 | One retry pass, as a loop, has the specified effect and lists the files that still crash. |
| RetryPass.RetryConserves | src/extraction/index.ts:1823-1886 | A retry pass moves files between counters and never changes their sum. |
| RetryPass.NoShortfall | src/extraction/index.ts:1785-1886 | Both passes leave the sum of the counters at the number of files dealt with. |
| RetryPass.DrainedRunIsComplete | src/index.ts:526-549 | Every run of the window that drains, followed by both passes with any outcome, ends with indexed plus skipped plus errored equal to the files found, so it is never marked partial. |
| RetryPass.ReconcileExact | src/index.ts:526-549 | Exactly when a run is marked failed, partial and complete. |
| RetryPass.RetryableExact | src/extraction/index.ts:1787-1790 | Exactly which errors are retried. |
| RetryPass.StillFailingExact | src/extraction/index.ts:1815-1821 | The second pass gets exactly the entries whose retry crashed, in order. |
| RetryPass.RemoveFirstExact | src/extraction/index.ts:1828-1829 | The entry is taken out once, where it first stands. |
| RetryPass.CountersAreExact | src/extraction/index.ts:1605-1628 | Before the retries `filesIndexed`, `filesSkipped` and `filesErrored` are each the number of files whose outcome has that status. |
| RetryPass.RetryDrift | src/extraction/index.ts:1823-1886 | After both passes `filesErrored` is below the number of errored files by exactly the successful retries of files that were not errored. |
| RetryPass.ErroredRightIff | src/extraction/index.ts:1787-1790 | The counter is right for every outcome of the attempts iff the retryable errors, before the passes, are about distinct files all counted as errored. |
| RetryPass.ErroredCanGoNegative | src/extraction/svelte-extractor.ts:64-70 | A component with a node and an out-of-bounds parse error ends with `filesErrored` at -1. |
| ScopeIgnore.FirstMatch | src/extraction/index.ts:665-666 | The loop finds an embedded root that the path starts with, or there is none. |
| ScopeIgnore.InnermostJudges | src/extraction/index.ts:644-645 | Among roots sorted longest first, the one found is the innermost. |
| ScopeIgnore.BuildIsSorted | src/extraction/index.ts:644-645 | The constructor's sort keeps the roots and makes the innermost one judge every path. |
| ScopeIgnore.ExcludeAdds | src/extraction/index.ts:652-652 | An exclude ignores exactly what it matches, in addition. |
| ScopeIgnore.IncludedKept | src/extraction/index.ts:656-664 | An included file that no default and no exclude ignores is kept. |
| ScopeIgnore.IncludeRootKept | src/extraction/index.ts:657-660 | So is a directory along or below an include root. |
| ScopeIgnore.OutsideRootDecides | src/extraction/index.ts:675-679 | A path under no embedded root that no exclude and no include decides is ignored iff the root's rules match it, except a directory leading to an embedded root, which is kept. |
| ScopeIgnore.InsideEmbeddedDecides | src/extraction/index.ts:665-673 | Inside an embedded repository it is ignored iff the defaults match the full path or the repository's rules the inner one; its root is kept. |
| ScopeIgnore.InsideIgnoresRootRules | src/extraction/index.ts:609-613 | There the root's rules make no difference. |
| ScopeIgnore.AncestorKept | src/extraction/index.ts:648-680 | Unless a hidden embedded root lies between, a kept path keeps its ancestor, through all five levels of rules. |
| ScopeIgnore.FilesSafeIff | src/extraction/index.ts:609-619 | Pruning loses a kept file iff a kept file lies below an embedded root that an outer repository's rules hide. |
| ScopeIgnore.PruningSafeIff | src/extraction/index.ts:609-619 | The same for paths that may be directories: safe iff no embedded root is hidden. |
| ScopeIgnore.UnnestedIsSafe | src/extraction/index.ts:675-678 | In particular it is safe when embedded roots are not nested. |
| ScopeIgnore.NestedFileIsLost | src/extraction/index.ts:665-678 | A file of a nested repository that is kept and that the walker never reaches. |
| ScopeIgnore.HiddenRootMayBeHarmless | src/extraction/index.ts:669-672 | A hidden root below a directory that the defaults ignore loses no file, so the two conditions differ. |
| ScopeIgnore.WalkFindsAllKept | src/extraction/index.ts:609-619 | When pruning is safe, the pruning walk lists exactly the kept files of the tree, in order. |
| ScopeIgnore.PlainWalk | src/extraction/index.ts:675-679 | In a project without embedded repositories, exclude and include, the walk lists exactly the files that the root's rules do not match. |
| ScopeIgnore.FilesExact | src/extraction/index.ts:609-619 | The files of a tree are those of its file entries and those inside its directories. |
| IncludeRoots.LeadOf | src/extraction/index.ts:363-377 | The segments up to the first glob, less the file name of a literal pattern. |
| IncludeRoots.RootExact | src/extraction/index.ts:368-377 | The root is the pattern up to its first glob segment; a literal pattern without a trailing slash loses its last segment. |
| IncludeRoots.FilePattern | src/extraction/index.ts:363-367 | Splitting a path, with or without a slash in front, gives back its segments. |
| IncludeRoots.DirPattern | src/extraction/index.ts:363-367 | The same with a slash at the end, which is noticed. |
| IncludeRoots.GlobCharExact | src/extraction/index.ts:349-349 | The characters that make a segment a glob. |
| IncludeRoots.RootsFromPatterns | src/extraction/index.ts:361-389 | Every returned root is that of some pattern, or the whole tree. |
| IncludeRoots.IncludeStaticRoots | src/extraction/index.ts:361-389 | The loop computes the specified roots, with the early return for a pattern without a literal lead. |
| IncludeRoots.RootsAreMinimal | src/extraction/index.ts:386-388 | No returned root is a prefix of another and none is repeated. |
| IncludeRoots.CollapseCovers | src/extraction/index.ts:386-388 | Collapsing keeps, for every root, one that is a prefix of it. |
| IncludeRoots.AnchoredCovered | src/extraction/index.ts:351-360 | Every path an anchored pattern matches lies under a returned root. |
| IncludeRoots.CoverageIff | src/extraction/index.ts:351-360 | All matched paths are covered iff the whole tree is walked or no pattern is a bare directory name. |
| AsyncMutex.StepInv | src/utils.ts:384-400 | Every turn of acquire, of a woken waiter and of release keeps the invariant of flag, queue and phases. |
| AsyncMutex.SafeAndLive | src/utils.ts:384-411 | In every reachable state at most one task is inside, and when none is inside or woken none waits. |
| AsyncMutex.BudgetShrinks | src/utils.ts:385-389 | Re-queuing cannot go on forever. |
| AsyncMutex.FirstComeFirstWoken | src/utils.ts:386-398 | Of two waiting tasks the one that waits longer stays ahead or is the one woken. |
| AsyncMutex.AttemptExact | src/utils.ts:385-391 | A task that finds the lock taken goes to the end of the queue; one that finds it free goes in. |
| AsyncMutex.EveryoneGetsIn | src/utils.ts:405-412 | A run that cannot be extended has let every task through. |
| AsyncMutex.NewcomerOvertakes | src/utils.ts:385-398 | A run in which a newcomer overtakes a woken waiter, which queues again. |
| AsyncMutex.Mutex.TurnOfAcquire | src/utils.ts:384-391 | One turn of the loop on the object is one step and tells whether the lock was taken. |
| AsyncMutex.Mutex.Release | src/utils.ts:393-399 | Releasing is one step and wakes the first waiter. |
| Affected.AffectedTests | src/bin/codegraph.ts:2140-2173 | A test is reported iff it was changed itself, or an allowed path of non-test files leads to it from a changed file; the dependents are exactly those reached. |
| Affected.Search1 | src/bin/codegraph.ts:2151-2172 | The queue search visits exactly what is within the depth limit, an unparsable limit meaning none. |
| Affected.Expand | src/bin/codegraph.ts:2160-2171 | The inner loop visits each new dependent once, in order, and queues the non-tests. |
| Affected.WithinIffPath | src/bin/codegraph.ts:2140-2143 | Being within n steps is having a path of length at most n whose earlier vertices are no tests. |
| Affected.ReachedIffPath | src/bin/codegraph.ts:2156-2170 | Reached means that there is a path whose earlier files are no tests and whose length is at most the depth option. |
| Affected.FirstVisitIsShortest | src/bin/codegraph.ts:2161-2170 | A file first seen next to a head of depth d is at distance d + 1, and the search invariant survives recording that. |
| Affected.NextLevel | src/bin/codegraph.ts:2156-2158 | When the queue passes to the next depth, everything within that depth has been visited. |
| Affected.TurnKeeps | src/bin/codegraph.ts:2156-2171 | A turn of the loop keeps the invariant, and finds a file or shortens the queue. |
| Affected.SearchIsComplete | src/bin/codegraph.ts:2156-2172 | With an empty queue every allowed path ends in a visited file. |
| CallPaths.ChainsExact | src/context/index.ts:334-346 | The search without a budget yields exactly the maximal simple call paths of three to six symbols. |
| CallPaths.BudgetCutsOff | src/context/index.ts:333-346 | With a budget it yields a prefix of those, and all of them unless the budget is used up. |
| CallPaths.SearchIsPrefix | src/context/index.ts:347-351 | The same over all starts, which share the budget. |
| CallPaths.SearchIsSound | src/context/index.ts:334-351 | Every chain found is a maximal simple call path from a start. |
| CallPaths.Searcher.Visit | src/context/index.ts:334-346 | The recursive method finds what the specification finds, and leaves `seen` as it found it. |
| CallPaths.FindChains | src/context/index.ts:332-351 | The loop over the starts, with the shared budget. |
| CallPaths.Select | src/context/index.ts:359-369 | At most three chains are kept, best first, each with two roots, none a sub-path of another; one is left out only if its text occurs in a kept one or three are kept. |
| CallPaths.KeepFirst | src/context/index.ts:363-369 | The selection loop keeps ranked chains in order and none whose text occurs in an earlier one. |
| CallPaths.NoneIsPart | src/context/index.ts:354-358 | With that ranking, neither direction of sub-path is possible between kept chains. |
| CallPaths.TextTestExact | src/context/index.ts:365-366 | For non-empty ids without the separator that do not begin or end one another, the test on joined text holds iff one chain is a sub-path of the other. |
| CallPaths.TextTestRightIff | src/context/index.ts:365-366 | For all ids: if the two tests agree over all chains of two or more ids, no id begins or ends another. When no id is empty or contains the separator, that is also enough. |
| CallPaths.FlowTestRightIff | src/context/index.ts:354-366 | For all ids: if they agree over flows of three to six different symbols, no id begins or ends another or there are fewer than four ids. When no id is empty or contains the separator, that is also enough. |
| CallPaths.HashedIdsArePlain | src/extraction/tree-sitter-helpers.ts:18-30 | Ids made of a node kind, a colon and a hash never begin or end one another. |
| CallPaths.TextTestMisfires | src/resolution/frameworks/react-native.ts:387-390 | A flow into a native method `get` is taken for a part of the same flow into `getAll`. |
| CallPaths.SeparatorMisfires | src/resolution/frameworks/express.ts:145-152 | With ids that contain the separator, none beginning or ending another, a flow is taken for a part of one that shares no symbol with it. |
| CallPaths.CalleesExact | src/context/index.ts:321-328 | A symbol is among the listed callees iff a `calls` edge inside the subgraph says so. |
| CallPaths.RootCountExact | src/context/index.ts:359-360 | The ranking counts the places of a chain that hold a root. |
| CallPaths.BuildAdjacency | src/context/index.ts:321-328 | The map built in the loop lists exactly those callees. |
| CallPaths.BuildCallPaths | src/context/index.ts:320-370 | Every chain shown is a real simple call path inside the subgraph with two roots, from one of the first five starts; and unless the budget is used up, every such flow is shown, or occurs in the text of one shown, or three are shown. |
| ContextTrim.MergeEdges | src/context/index.ts:1013-1021 | Edges are merged into the candidates once per (source, target, kind), none is lost. |
| ContextTrim.RecoverEdges | src/context/index.ts:1122-1138 | The loop adds found edges once per joined text, in order, without repeated triples, and only found ones. |
| ContextTrim.TextIsTriple | src/context/index.ts:1129-1137 | Between ids of which no two, joined, read as two others, two edges have the same text iff they have the same triple. |
| ContextTrim.TextRightIff | src/context/index.ts:1129-1137 | Text and triple agree on all edges between the ids iff no two ids, joined by a colon, read as two others. |
| ContextTrim.RecoversAllIff | src/context/index.ts:1122-1138 | The recovery step never loses a found triple between the ids iff the same holds. |
| ContextTrim.HashedTellApart | src/extraction/tree-sitter-helpers.ts:18-30 | It holds of ids with one colon. |
| ContextTrim.RouteEdgeIsDropped | src/resolution/frameworks/express.ts:151-152 | An edge from one route to a file is dropped for an edge from another route to another file. |
| ContextTrim.PriorityIds | src/context/index.ts:1028-1037 | The priority list starts with exactly the entry points and holds every direct neighbour of one. |
| ContextTrim.PriorityIff | src/context/index.ts:1028-1037 | The one pass over the edges lists exactly the nodes that a walk from an entry point along later and later edges reaches. |
| ContextTrim.FartherDependsOnOrder | src/context/index.ts:1028-1037 | So a node that is no direct neighbour is listed or not depending on the order of the edges. |
| ContextTrim.TrimNodes | src/context/index.ts:1027-1054 | Exactly `maxNodes` nodes remain; every entry point if they fit, every node of the priority list if it fits, and no other node if it does not; the list is served in its order, the rest in the order of the map. |
| ContextTrim.KeptOfFileExact | src/context/index.ts:1075-1093 | A file keeps at most its budget, everything if that fits, and gives up an entry point only when all it keeps are entry points. |
| ContextTrim.KeptFirst | src/context/index.ts:1077-1092 | A node a file keeps is no worse than one it drops: an entry point if that was one, else by kind, containers before callables before the rest, and earlier in the map among equals. |
| ContextTrim.CapFiles | src/context/index.ts:1067-1093 | The deletions leave exactly what each file keeps. |
| ContextTrim.CapNonProduction | src/context/index.ts:1099-1115 | The cap is met, exactly the non-production nodes beyond it go, in map order, and the entry points lose exactly those. |
| ContextTrim.EvictedExact | src/context/index.ts:1101-1109 | Exactly as many non-production nodes go as are too many, and they are the last in the map. |
| ContextTrim.DroppedRootMeansCrowd | src/context/index.ts:1074-1093 | The per-file cap drops an entry point only of a file with more entry points than its budget. |
| ContextTrim.Trim | src/context/index.ts:1024-1140 | For every candidate graph: all three budgets, priority nodes first, edges inside the node set and without repeats, every candidate edge between kept nodes kept, every recovered text kept and every recovered triple where texts tell the edges apart, exactly which nodes each cap removes, exactly which entry points are returned, and which of them may lack a node. |
| DfmParser.StepLine | src/extraction/dfm-extractor.ts:91-157 | No line empties the stack. |
| DfmParser.LineExact | src/extraction/dfm-extractor.ts:95-156 | Whatever a line matches: which of its readings counts, and what it then changes and leaves alone. |
| DfmParser.DfmExtractor.ParseComponents | src/extraction/dfm-extractor.ts:79-158 | The loop over the lines computes the specified nodes, edges and references. |
| DfmParser.RunTree | src/extraction/dfm-extractor.ts:91-157 | On arbitrary lines the tree invariant is kept. |
| DfmParser.AnyLinesGiveTree | src/extraction/dfm-extractor.ts:91-157 | On arbitrary lines the `contains` edges form a tree: one parent per component, and every component reaches the file node. |
| DfmParser.ParsePrint | src/extraction/dfm-extractor.ts:91-157 | Printed items, parsed in any context, add exactly their meaning under the current component. |
| DfmParser.FormRoundTrip | src/extraction/dfm-extractor.ts:78-158 | Printing a form, with one-line properties of any ending and multi-line ones, and parsing it gives back exactly its components, parent-child edges and event owners. |
| XmlComments.IndexOfFirst | src/extraction/mybatis-extractor.ts:61-66 | The search finds the first occurrence, or there is none. |
| XmlComments.StripXmlComments | src/extraction/mybatis-extractor.ts:55-77 | The array loop computes the specified text. |
| XmlComments.BlankSection | src/extraction/mybatis-extractor.ts:60-74 | One turn overwrites exactly the comment it stands at, up to its end. |
| XmlComments.StripKeeps | src/extraction/mybatis-extractor.ts:43-50 | Newlines stay in place, everything outside comments is unchanged, the rest of a comment is blank. |
| XmlComments.StripComment | src/extraction/mybatis-extractor.ts:65-72 | A comment up to its first close is blanked, newlines apart, and the text after it is stripped on its own. |
| XmlComments.StripCData | src/extraction/mybatis-extractor.ts:60-64 | A CDATA section up to its first close stays, and the text after it is stripped on its own. |
| XmlComments.StripText | src/extraction/mybatis-extractor.ts:74-74 | Where neither opens, one character stays, and the text after it is stripped on its own. |
| XmlComments.StripOpen | src/extraction/mybatis-extractor.ts:61-71 | An opener that is never closed reaches to the end. |
| XmlComments.StripParts | src/extraction/mybatis-extractor.ts:55-77 | Text without angle brackets, a comment or CDATA section, and the rest, put together. |
| XmlComments.ScanOfResult | src/extraction/mybatis-extractor.ts:55-77 | Scanning the result finds the same CDATA sections and no comment. |
| XmlComments.NoCommentLeft | src/extraction/mybatis-extractor.ts:43-46 | No position of the result is inside a comment. |
| XmlComments.OpenerOnlyInCData | src/extraction/mybatis-extractor.ts:48-50 | A comment opener in the result stands inside CDATA. |
| XmlComments.StripTwice | src/extraction/mybatis-extractor.ts:55-77 | Blanking is idempotent. |
| XmlComments.ComputeLineStarts | src/extraction/mybatis-extractor.ts:292-297 | The loop computes the line starts. |
| XmlComments.NewlinesExact | src/extraction/mybatis-extractor.ts:292-297 | The count of newlines before an offset is the number of places that hold one. |
| XmlComments.StartsExact | src/extraction/mybatis-extractor.ts:292-297 | The line starts are increasing, and one is at or before an offset iff enough newlines are. |
| XmlComments.GetLineNumber | src/extraction/mybatis-extractor.ts:299-309 | The binary search gives one plus the newlines before the offset. |
| XmlComments.LineInOriginal | src/extraction/mybatis-extractor.ts:46-48 | A line number found in the blanked text is the line in the original. |
| MergeGraph.MergeableGraph.MergeGraphPart | src/appgraph/merge.ts:25-43 | The in-place merge has the specified effect on nodes, edges and warnings. |
| MergeGraph.NodesSeparate | src/appgraph/merge.ts:45-51 | The node comparison is a total order that tells nodes of different ids apart. |
| MergeGraph.EdgesSeparate | src/appgraph/merge.ts:53-60 | So is the edge comparison. |
| MergeGraph.MergedInOrder | src/appgraph/merge.ts:37-60 | Merged nodes are sorted by kind, match key and id, edges by kind, source, target and id. |
| MergeGraph.MergedWarnings | src/appgraph/merge.ts:40-73 | Warnings are touched only by a part that has some; then exactly the first of each message, file and symbol stay, sorted by message. |
| MergeGraph.DedupeWarnings | src/appgraph/merge.ts:62-73 | The loop computes the first occurrences, sorted by message. |
| MergeGraph.DedupedKeys | src/appgraph/merge.ts:62-73 | Deduplicated warnings are sorted, have distinct keys, and lose no key. |
| MergeGraph.KeyRightIff | src/appgraph/merge.ts:66-66 | Two warnings share a key only if they are equal, whatever the messages at these places, iff no place, as the key writes it, ends another. |
| MergeGraph.NoBarsApart | src/appgraph/merge.ts:66-66 | Places whose file and symbol hold no bar satisfy this. |
| MergeGraph.BarsCollide | src/appgraph/merge.ts:66-66 | Two different warnings with one key, of which the second is dropped. |
| MergeGraph.CanonicalUnique | src/appgraph/merge.ts:5-10 | Two sorted lists with distinct ids that mean the same map are the same list. |
| MergeGraph.FoldIsCanonical | src/appgraph/merge.ts:1-43 | Folding any parts gives the sorted list of the last-wins node map and of the first-wins edge map. |
| MergeGraph.FoldDependsOnMapsOnly | src/appgraph/merge.ts:5-10 | Two ways of cutting the same facts into parts give the same nodes and edges, in the same order. |
| MergeGraph.MergeTwice | src/appgraph/merge.ts:25-43 | Merging the same part again changes nothing. |
| CanonicalJson.SortKeysOf | src/appgraph/serialize.ts:23-33 | The recursion that rebuilds objects key by key computes the specified value. |
| CanonicalJson.SortKeysCanonical | src/appgraph/serialize.ts:23-33 | Results are equal iff the values agree, at every level, up to the order of object keys and up to members called `__proto__`. |
| CanonicalJson.SortKeysExact | src/appgraph/serialize.ts:4-6 | For values without such members results are equal iff the values agree up to key order. |
| CanonicalJson.ProtoIsLost | src/appgraph/serialize.ts:26-29 | An object with only such a member and the empty object have one canonical form. |
| CanonicalJson.SortKeysSame | src/appgraph/serialize.ts:23-33 | The result is the same value up to key order and such members, and its keys are distinct. |
| CanonicalJson.SortKeysInOrder | src/appgraph/serialize.ts:27-27 | At every level the keys of the result are in order. |
| CanonicalJson.StringLeExact | src/appgraph/serialize.ts:27-27 | That order is by code unit, the first difference deciding and a prefix first. |
| CanonicalJson.SortKeysTwice | src/appgraph/serialize.ts:23-33 | Canonicalising twice changes nothing. |

## Left out

* SQLite itself: full-text search, write-ahead logging, rollback and row ids. Tables are a map of rows and a list of edges in insertion order; one connection whose transactions commit.
* The `unresolved_refs` table and the reference resolver, graph traverser, module and community passes.
* Git, the file system, worker threads and the parsers: scan results, file contents, stats and parse results are arbitrary inputs.
* Content and node-id hashes are taken as injective: a hash stands for what was hashed. Results about what a file's rows are assume that every node written carries the path its id was hashed from.
* The order in which the snapshot query returns incoming edges is taken to be table order; it decides only which of two edges that collapse onto one identity keeps its metadata.
* `indexedAt` and every other clock reading, progress callbacks, cooperative yields and log lines.
* Compilation of gitignore patterns: a matcher is any predicate that ignores the contents of an ignored directory. Include patterns follow a segment model with an arbitrary matcher for a segment that holds a glob; negated patterns are not given their re-including meaning.
* The line expressions of the form parser are an arbitrary classification of lines; the statement expressions of the MyBatis extractor are not modelled.
* `localeCompare` is any total order on strings. JavaScript lists integer-like object keys first; key order here is the sorted order.
* Text is a sequence of UTF-16 code units.
* The budget ratios 0.2 and 0.15 of the node limit are parameters; the properties hold for every value.
* How an error entry is removed in the retry passes: by value, where the code compares object identity, which differs only for two equal entries of one file.
* Pool recycling, and the comment stripping before the last retry, which only changes what the parser is handed.
* `FileLock`, migrations, configuration, command-line output, search ranking, supervision and telemetry.
* How call paths are rendered as text.
* Edges in the comparison of a sync with an index from scratch: those between files come from the resolver.
- IndexRun.IndexAll.Feed: covers the call up to its first await; the wait is the resume step of the window, whose order of wake-ups is left to the step system.
- QueryLayer.QueryBuilder.GetNodesByIds: states the answer and cache coherence; which entries are cached afterwards is left open, an entry re-read in a later chunk keeping its place in the eviction order.
- CallPaths.BuildCallPaths: says nothing about flows that a used-up budget leaves unseen.
