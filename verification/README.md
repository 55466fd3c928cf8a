# CostWise: verified models of the derived stores

CostWise answers questions about a code base without re-reading it. To do so it keeps several stores
that are derived from something simpler: a symbol index from the files on disk, a result cache from the
calls made to it, a blob stash and an event ledger from what was written to them, remembered facts from
the last thing said. This project models those stores, the two concurrent protocols around them, and the
text edits of the installer, and proves that each agrees with the simple truth it is derived from.

Code that updates state in place is modelled by classes and methods with loops, proved against
specification functions; what the functions mean is then proved by lemmas over every input, every history
or every interleaving. SQLite tables are maps (with a row order where rows have no key) and sequences, the
clock is an increasing counter, SHA-256 is injective, and parsing is a total function of path and content.

`dafny verify dfyconfig.toml` checks everything.

## The modules

| module | models |
|---|---|
| `Disk` | which files a walk reaches and which of them the indexer and the staleness detector look at |
| `SymbolDb`, `Indexer`, `IndexHistory` | the symbol database, one incremental run, and every history of edits, deletions, re-creations and runs |
| `RepositoryState` | the staleness detector, and what it says right after a run |
| `Cache`, `CacheHistory` | the write-through LRU cache, and every sequence of operations on it, restarts included |
| `FlowGraph` | the breadth-first flow tracer |
| `AutoReindex` | what the watcher does after a batch: a re-index, and the cache cleared if it reports work |
| `Watchdog` | the debounce timer of the file watcher, in every interleaving with its callbacks |
| `SessionCache` | double-checked session creation by any number of threads |
| `CallEdges`, `CallExtraction`, `CallMeaning` | call edges from a syntax tree, with and without the caller stack |
| `ManagedBlock`, `CodexConfig` | the block kept in a shared Markdown file, and the section kept in a TOML file |
| `Ledger` | the event file and the slice of the last sessions |
| `Stash` | the blob stash and its manifest |
| `ContextBuilder` | the two passes that fill a token budget |
| `Knowledge`, `Facts` | the knowledge memory, and the facts a session remembers across restarts |
| `Snippets` | the lines shown around matches |
| `Text`, `Numbers`, `Sets`, `Wrappers` | strings, decimals, set sizes, `Option` |

## What turned out not to hold

Each of these is a theorem here, with the exact condition under which the code does what is expected.

- References and call edges are cleared only when the new list is non-empty, so an incremental index does
  not always equal a rebuild. For a file whose content was read by a run with the stage on it does exactly when
  its current list is non-empty or no version looked at since it last (re)appeared had any
  (`IndexHistory.RefsEqualRebuildIff`, `CallsEqualRebuildIff`; a file that ends up wrong: `StaleRows`). The
  symbols table always does (`SymbolsEqualRebuild`).
- A run without the call stage marks its files as indexed, so no later run, with whatever stages, changes their
  calls until they change: what is there is what earlier versions left (`CallsAreNeverMadeUp`), for a new file
  nothing, which is right exactly when it makes no calls (`SkippedStageIsNeverMadeUp`; an example: `MissingCall`).
- A deleted file leaves a row without a hash, and every later run counts it as deleted again until a run sees it
  or the tables are wiped (`IndexHistory.SweptStaysSwept`, `SweptIsCountedAgain`; an example: `CountedAgain`). The
  number a run reports as deleted is the number of files that went since a run last looked exactly when every file
  swept before is there again (`DeletedIsRightIff`). Since the watcher clears the cache after every run that reports
  work, a run that changes nothing clears it exactly when there is such a row (`AutoReindex.Reindex`,
  `LearnAndReindex`).
- Right after a run the detected state is Ready exactly when the detector knows the extension of every file
  the run looked at. It does not know `.cc`, `.cxx`, `.hh`, nor any extension in upper case
  (`RepositoryState.ReadyAfterRunIff`, `UnknownExtensions`; an example: `CcIsStale`).
- Ready does not mean that nothing is left to index: that is so exactly when every file the indexer looks at is
  tracked, and those swept before have an extension the detector knows (`RepositoryState.ReadyIsIndexedIff`;
  examples: `ReadyWithNewFile`, `ReadyWithReturnedFile`).
- The stash is a first-in first-out queue of 256: storing content again does not renew it, so what has just been
  stored again may go with the next new content (`Stash.StoringAgainDoesNotRenew`). A handle with n others
  behind it is never evicted exactly when at most 255 - n of the stores are new at their time (`NeverEvictedIff`).
- The watcher keeps ten paths per batch: no path is lost exactly when no batch outgrows the cap
  (`Watchdog.NoPathLostIff`; an example: `ElevenEvents`).
- A failed re-index is not tried again. With everything at rest, a reported Index covers the last event exactly
  when not every Index that began after it failed (`Watchdog.RestIsReportedIff`; an example: `FailedIsNotRetried`).
- Upserting the managed block twice equals doing it once exactly when the file has no start marker without an
  end marker behind it; otherwise the second upsert drops text (`ManagedBlock.UpsertIdempotentIff`,
  `StrayLosesText`), and so does a removal (`RemoveTakesStray`; an example of both: `StrayExample`). Removing
  after an upsert gives the old text back, trimmed, exactly when it held no start marker (`RemoveUndoesUpsertIff`).
- `writeMcpEntry` reports an update without writing anything, not even the removal of the old section, exactly
  when the entry's header is there and its block is not (`CodexConfig.ConfigFile.WriteMcpEntry`; an example:
  `UpdateThatIsNone`).
- At level 7 the context builder counts tokens for a result with neither body nor snippet and then writes
  nothing for it; measured and written text agree exactly when no such result fits beside those chosen before it
  (`ContextBuilder.BodyTextIsMeasuredIff`, `BareResultIsNotWritten`).
- The comments on the ledger's latest session speak of a gap between neighbouring events; the code measures every
  event against the latest one. It never keeps more than the documented session, and all of it exactly when the
  session as a whole is no longer than the threshold (`Ledger.LatestSession`, `CutIsGapIff`; an example:
  `ThreeEvents`).
- A cache key shares its line with another key exactly when one of its texts, the query included, holds a `|`
  (`Cache.RenderCollidesIff`); two keys with a bar in the query only are still told apart (`RenderInjective`).
- A call at or below an arrow function is not recorded in JavaScript and TypeScript, even when its name and its
  enclosing function resolve (`CallMeaning.RecordedIff`; an example: `ArrowCallIsLost`). Nor is a call through a
  member, `obj.f()`, anywhere in them: exactly the calls of plain names resolve (`CallsIff`, `MemberCallIsLost`).

## Model

| member | source | states |
|---|---|---|
| Disk.SkippedIff | internal/retrieval/treesitter.go:272-281 | a file is passed over if and only if some directory above it, however far, has one of the skipped names |
| SymbolDb.SymbolDB.constructor | internal/treesitter/db.go:45-132 | opening a database of another schema version wipes the four tables, one of the current version keeps them |
| SymbolDb.SymbolDB.StoreSymbols | internal/treesitter/db.go:143-167 | the table then holds, whole, each of the stored rows that no later one with the same name, kind, file and start line replaces, and of what it held before exactly the rows with other keys |
| SymbolDb.StoredIff | internal/treesitter/db.go:138-172 | the same for any rows and any table with consistent keys |
| SymbolDb.KeysAreUnique | internal/treesitter/db.go:138-141 | no two rows of the table agree on those four columns |
| SymbolDb.UpsertView | internal/treesitter/db.go:138-172 | storing rows of one file leaves every other file's rows and the keying of the table intact |
| SymbolDb.RowsOfDrop | internal/treesitter/db.go:214-217 | clearing a file empties exactly that file's reference or call rows |
| SymbolDb.RowsOfAppend | internal/treesitter/db.go:188-212 | storing rows of a file adds exactly those rows, in order, to that file and to no other |
| Indexer.SharedIndexer.Reindex | internal/retrieval/indexer.go:104-161 | the database afterwards is `Visited`: symbols replaced, references and calls replaced only by a non-empty list, hash recorded |
| Indexer.SharedIndexer.Sweep | internal/retrieval/indexer.go:171-187 | everything stored for a file that is gone is cleared and a row without a hash remains |
| Indexer.SharedIndexer.Visit | internal/retrieval/indexer.go:73-164 | which of ignored, skipped and re-parsed a walked path is, and the tables that follow |
| Indexer.SharedIndexer.WalkFiles | internal/retrieval/indexer.go:70-168 | whatever the walk order, the files seen are the readable supported ones, and the counters count seen, unchanged and re-parsed files |
| Indexer.SharedIndexer.SweepMissing | internal/retrieval/indexer.go:170-188 | exactly the tracked files not seen are swept and counted, in any order |
| Indexer.SharedIndexer.Index | internal/retrieval/indexer.go:60-192 | one run takes the tables to `RunOf` of the disk, counts the disk and the old tracking table, and leaves the tables alone when there is nothing to change; what it counts as deleted is what disappeared if and only if every row swept before belongs to a file seen again |
| Indexer.RunViews | internal/retrieval/indexer.go:60-192 | walk and sweep, in any order, amount to one independent step per file |
| Indexer.TallyMeaning | internal/retrieval/indexer.go:87-163 | counting along a walk counts the sets of seen, unchanged and re-parsed files |
| Indexer.IdleRun | internal/retrieval/indexer.go:98-102 | a run that changes no file's rows changes no table, row order included |
| Indexer.DeletedIsDisappearedIff | internal/retrieval/indexer.go:170-188 | the tracked files not seen are as many as those that disappeared since a run last looked if and only if every file swept before is seen again |
| Indexer.RunFiles | internal/retrieval/indexer.go:98-188 | the tracking table after a run has the hash of every file seen and clears every other row |
| IndexHistory.RunExtends | internal/retrieval/indexer.go:60-192 | a run extends the history the tables realize, so the invariants below hold after any history |
| IndexHistory.Replay | internal/retrieval/indexer.go:60-192 | a whole history of edits, openings and runs on a real database, with any walk orders, leaves tables that realize it |
| IndexHistory.RowsFollowVersions | internal/retrieval/indexer.go:98-188 | after any history the rows of a file are determined by the versions indexed since it last appeared: the latest for symbols, the latest non-empty one for references and for calls, among those parsed for them |
| IndexHistory.SymbolsEqualRebuild | internal/retrieval/indexer.go:111-126 | after any history that ends in a run, with the symbol stage always on, the symbols table equals the one a run from scratch builds, and holds a symbol of a file if and only if the file is on disk and its parse finds the symbol with no later one of the same name, kind and start line |
| IndexHistory.SymbolsAreOnDisk | internal/retrieval/indexer.go:111-126 | the second half, for one file and one symbol |
| IndexHistory.RefsEqualRebuildIff | internal/retrieval/indexer.go:128-141 | after any history ending in a run, with any stages: if the current content was first read with the reference stage, a file's references equal a rebuild if and only if its current list is non-empty or no version looked at since it appeared had any; otherwise they are those earlier versions left |
| IndexHistory.CallsEqualRebuildIff | internal/retrieval/indexer.go:143-157 | the same for calls, including the runs that leave the call stage out |
| IndexHistory.StaleRows | internal/retrieval/indexer.go:128-157 | a file edited between two runs keeps the reference and the call it no longer has |
| IndexHistory.CallsAreNeverMadeUp | internal/retrieval/indexer.go:98-102 | however many runs with whatever stages and edits of other files follow a run, the calls of a file that does not change stay what they were |
| IndexHistory.SkippedStageIsNeverMadeUp | internal/retrieval/treesitter.go:40-44 | a new file first indexed without the call stage has no calls until it changes, whatever runs follow, which is right if and only if there are none in it |
| IndexHistory.MissingCall | internal/retrieval/treesitter.go:40-44 | a file with a call, indexed without the call stage and then with it, has none |
| IndexHistory.SecondRunIsIdle | internal/retrieval/indexer.go:98-102 | a second run, with any stages, skips every file, changes nothing, and finds the same rows to sweep again |
| IndexHistory.IndexTwice | internal/retrieval/indexer.go:60-192 | running twice: the second run re-parses nothing, skips all it sees, sweeps as many files as the first and changes no table |
| IndexHistory.ClearedIff | internal/retrieval/indexer.go:98-188 | after any history a file has a row if and only if a run saw it since the tables were last wiped, and the row is cleared if and only if a later run missed it |
| IndexHistory.SweptStaysSwept | internal/retrieval/indexer.go:170-188 | through any later history in which no run sees it and nothing is wiped, a swept file keeps its cleared row |
| IndexHistory.SweptIsCountedAgain | internal/retrieval/indexer.go:170-188 | and the next run counts it again, though it did not disappear |
| IndexHistory.DeletedIff | internal/retrieval/indexer.go:170-188 | after any history, which files the next run counts as deleted and which of them went since a run last looked |
| IndexHistory.DeletedIsRightIff | internal/retrieval/indexer.go:170-188 | after any history the two numbers are equal if and only if every file an earlier run swept is there again |
| IndexHistory.CountedAgain | internal/retrieval/indexer.go:170-188 | one file indexed, removed, and two runs: each counts one deletion |
| AutoReindex.Reindex | internal/watcher/watcher.go:125-140 | the cache is cleared if and only if the run re-parsed or swept something; it is not left alone when the tables changed; and when they did not it is cleared if and only if a row swept before belongs to a file still gone |
| AutoReindex.LearnAndReindex | internal/watcher/watcher.go:125-140 | with such a row, whatever was put for the repository since the last re-index is gone after the next one, and the row remains |
| RepositoryState.DetectRepositoryState | internal/repository/state.go:45-134 | the state is Unindexed exactly without rows, and Ready exactly when each row of a file the detector looks at has that file's hash and every other row is cleared; the counts are the numbers of files it looks at, of rows with another hash, and of uncleared rows of files that are gone |
| RepositoryState.ReadyMeaning | internal/repository/state.go:106-134 | what Ready means, row by row |
| RepositoryState.StaleWithoutFile | internal/repository/state.go:106-134 | a .go file indexed and then removed makes the state Stale with one deleted file |
| RepositoryState.HashFiles | internal/repository/state.go:78-104 | the hash map of the walk holds exactly the non-empty files the detector looks at |
| RepositoryState.CountStale | internal/repository/state.go:106-125 | the loop over the rows counts exactly the changed and the deleted ones |
| RepositoryState.HistoryKeepsTrackable | internal/retrieval/indexer.go:73-88 | after any history every tracked path is one the indexer looks at |
| RepositoryState.ReadyAfterRunIff | internal/repository/state.go:78-131 | after any history that ends in a run the state is Unindexed without rows, Ready if every file seen has an extension the detector knows, and Stale otherwise |
| RepositoryState.CcIsStale | internal/repository/state.go:183-194 | a repository of one .cc file is stale right after it was indexed |
| RepositoryState.FromReadyOnlyNewFiles | internal/repository/state.go:106-134 | from Ready, a tracked file is re-parsed by the next run only if it was once swept, is back, and has an extension the detector does not know |
| RepositoryState.ReadyIsIndexedIff | internal/repository/state.go:106-134 | from Ready, the next run has nothing to parse if and only if every file it looks at is tracked, and those swept before have an extension the detector knows |
| RepositoryState.ReadyWithNewFile | internal/repository/state.go:106-134 | an indexed repository with a new .go file is Ready |
| RepositoryState.ReadyWithReturnedFile | internal/repository/state.go:106-134 | a repository whose .cc file was swept and is back is Ready |
| RepositoryState.UnknownExtensions | internal/repository/state.go:183-194 | of the parsed files the detector knows exactly those with a lower-case extension other than .cc, .cxx, .hh |
| Cache.SelectNewest | internal/cache/cache.go:252-262 | the newest rows in descending order of last access, up to the limit |
| Cache.NewestPrefixUnique | internal/cache/cache.go:252-285 | two newest-first prefixes of a table agree as far as the shorter goes |
| Cache.Cache.constructor | internal/cache/cache.go:61-93 | opening loads the newest rows up to the capacity, 100 by default, in recency order; the other rows stay on disk behind them |
| Cache.Cache.LoadFromDB | internal/cache/cache.go:252-285 | list and map hold exactly the newest rows of the table |
| Cache.Cache.Get | internal/cache/cache.go:128-146 | the list is moved as a plain LRU list would be, the entry last put is returned, hits and misses are counted, and the rows on disk are the same keys, those in memory newer than the rest |
| Cache.Cache.Put | internal/cache/cache.go:149-179 | the list becomes that of a plain LRU list with this capacity, and the table holds exactly the rows of the list and the rows on disk only, newest first: what is evicted has no row |
| Cache.Cache.Evict | internal/cache/cache.go:163-172 | exactly the least recently touched entries go from memory, and a row leaves the table if and only if its key left the list |
| Cache.Cache.PersistEntry | internal/cache/cache.go:241-250 | the row is written with a newer time than every other row |
| Cache.Cache.Invalidate | internal/cache/cache.go:182-211 | exactly the entries of one repository go, from memory and table, the rows on disk only included, and the order of the rest is kept |
| Cache.Restart | internal/cache/cache.go:61-93 | closing and opening keeps all rows in their order, and as many of the newest as there is room for are in the list: the same list when nothing was on disk only and it fits, its newest part when it does not |
| Cache.RenderInjective | internal/cache/cache.go:121-125 | keys with no bar outside the query render differently |
| Cache.RenderCollidesIff | internal/cache/cache.go:121-125 | another key has the same line if and only if one of the texts of the key holds a bar |
| CacheHistory.ReplayShape | internal/cache/cache.go:128-211 | after any operations and restarts list and rows on disk together are in order of last use, the list is within capacity, and every slot holds what was put last |
| CacheHistory.NothingBeyond | internal/cache/cache.go:149-179 | unless the cache is reopened with less room, every row of the table is in the list: what was evicted does not come back |
| CacheHistory.SameRoomNeverShrinks | internal/cache/cache.go:61-93 | a run in which every restart asks for the same capacity never reopens with less room |
| CacheHistory.RestartsChangeNothing | internal/cache/cache.go:61-93 | a run with any number of restarts at the same capacity ends as the run without them |
| CacheHistory.KeptIff | internal/cache/cache.go:128-211 | after any operations and restarts, an entry has been in the list ever since it was last put if and only if at every time since there was room for it behind the keys touched after it and not invalidated, and those are the keys in front of it |
| CacheHistory.FoundIff | internal/cache/cache.go:128-211 | unless the cache is reopened with less room, a Get finds an entry if and only if that is so |
| CacheHistory.InUseIsKept | internal/cache/cache.go:149-179 | it is so if, counting the operations alone, fewer other keys than there was room for were mentioned since its last mention, at every time |
| CacheHistory.JustPutIsKept | internal/cache/cache.go:149-179 | after any run an entry just put is in use, and in the list |
| CacheHistory.Perform | internal/cache/cache.go:128-211 | one call or restart takes the cache from the list and rows of its history to those of the longer one, and a Get finds what was put last |
| CacheHistory.PerformAll | internal/cache/cache.go:128-211 | from an empty table, after any calls and restarts with any capacities list, map and table hold what the history says and no row besides, and every Get found what was put last |
| FlowGraph.FlowTrace.AddUnique | internal/retrieval/flowgraph.go:172-183 | a node is added if and only if its vertex was not visited, and the visited set stays that of the nodes |
| FlowGraph.FlowTrace.Expand | internal/retrieval/flowgraph.go:190-235 | everything next to the expanded node is in the list afterwards and the search invariant holds |
| FlowGraph.FlowTrace.TraceFlow | internal/retrieval/flowgraph.go:171-239 | distinct nodes in ascending depth, the seeds among them, each depth the shortest distance from the seeds even when the cap cuts the search, each other node next to an earlier one by a row of the databases, with its line and relation, and every caller, callee and import of a node above the depth limit in an uncut search |
| FlowGraph.NextIff | internal/retrieval/flowgraph.go:195-234 | what is next to a node: for a function or a class the callee of every edge it starts and the caller of every edge it ends, for a module every import of its file |
| FlowGraph.SuccIff | internal/retrieval/flowgraph.go:195-234 | the same for vertices |
| FlowGraph.BothWays | internal/retrieval/flowgraph.go:171-239 | with one edge, the search finds the caller from the callee and the callee from the caller |
| FlowGraph.NewDistance | internal/retrieval/flowgraph.go:189-236 | a vertex first reached from depth d is at distance d + 1 |
| FlowGraph.FoundUpTo | internal/retrieval/flowgraph.go:189-236 | everything up to the depth of the first unexpanded node has been found |
| FlowGraph.Conclude | internal/retrieval/flowgraph.go:189-238 | what an exhausted and what a cut search has found |
| FlowGraph.WithinHasPath | internal/retrieval/flowgraph.go:171-239 | a vertex within n steps is the end of a path of at most n edges from a seed |
| FlowGraph.PathIsWithin | internal/retrieval/flowgraph.go:171-239 | the end of any path of n edges from a seed is within n steps |
| FlowGraph.MaxNodeDepth | internal/retrieval/flowgraph.go:311-319 | the greatest depth, which for a traced list is that of its last node |
| Watchdog.Watchdog.TriggerReindex | internal/watcher/watcher.go:108-121 | the object goes from showing a state to showing the state after the event step, and stops the running timer |
| Watchdog.Watchdog.TakeBatch | internal/watcher/watcher.go:121-125 | the object goes to the state after the step that takes a batch, and returns that batch |
| Watchdog.Drive | internal/watcher/watcher.go:108-125 | along every run of the interleaved steps the object shows every state and hands out the batches of the run |
| Watchdog.AlwaysCovered | internal/watcher/watcher.go:108-155 | in every interleaving, events not yet covered by an Index have a timer or a callback on its way to one |
| Watchdog.QuietMeansIndexed | internal/watcher/watcher.go:108-155 | when no timer is armed and no callback has yet to index, the last Index began after the last event |
| Watchdog.AlwaysRuns | internal/watcher/watcher.go:112-125 | batches are the first ten arrivals of consecutive disjoint stretches of the events |
| Watchdog.NoPathLostIff | internal/watcher/watcher.go:112-125 | batches and pending paths together are all events in order if and only if no stretch outgrew the cap |
| Watchdog.ElevenEvents | internal/watcher/watcher.go:112-116 | eleven events in a row leave ten paths |
| Watchdog.AlwaysOwned | internal/watcher/watcher.go:108-155 | each timer and each batch is in at most one place, and no batch is reported twice |
| Watchdog.EveryBatchOnce | internal/watcher/watcher.go:121-154 | once all is quiet every batch was reported or failed, exactly once |
| Watchdog.RestIsReportedIff | internal/watcher/watcher.go:125-154 | at rest some Index began after the last event, and one of those was reported if and only if not all of them failed |
| Watchdog.FailedIsNotRetried | internal/watcher/watcher.go:125-154 | one event whose Index fails leaves nothing pending and nothing reported |
| SessionCache.Always | internal/mcpserver/session_cache.go:89-142 | the locks exclude, a mapped session is open, a second check under the write lock is right, no session leaks |
| SessionCache.MapHoldsTheOpenSession | internal/mcpserver/session_cache.go:107-168 | with the write lock free, the open sessions of a key are exactly the one the map holds: created minus closed is 1 or 0 |
| SessionCache.NeverTwoOpen | internal/mcpserver/session_cache.go:107-142 | at no instant are two sessions of one key open |
| SessionCache.NeverClosedTwice | internal/mcpserver/session_cache.go:154-168 | each session is closed at most once |
| SessionCache.CloseEndsThemAll | internal/mcpserver/session_cache.go:154-168 | when closing ends, the sessions closed are exactly those ever created |
| SessionCache.NeverStuck | internal/mcpserver/session_cache.go:89-168 | while some thread is inside a call, some thread inside one can take a step |
| SessionCache.AloneFinds | internal/mcpserver/session_cache.go:89-105 | with no other thread around, a call whose key is in the map takes the read lock alone and returns what the map holds |
| SessionCache.AloneCreates | internal/mcpserver/session_cache.go:89-142 | a call whose key is missing goes on to create one session, put it into the map and return it |
| SessionCache.LatecomerFinds | internal/mcpserver/session_cache.go:110-116 | a call that missed, while another thread made the session in between, makes none and returns that one |
| SessionCache.FailureLeavesNothing | internal/mcpserver/session_cache.go:110-122 | when a session cannot be made, the call ends with lock, map and sessions as they were |
| SessionCache.AloneCloses | internal/mcpserver/session_cache.go:154-168 | closing everything ends with an empty map, each session in it closed once and no other |
| SessionCache.HeldAtSomeInstant | internal/mcpserver/session_cache.go:99-142 | a session recorded as held was in the map at some instant since the call began |
| SessionCache.ReturnsHeldSession | internal/mcpserver/session_cache.go:89-142 | every call returns the session the map held for its key at some instant during the call |
| CallExtraction.LastIndex | internal/treesitter/langspec.go:222-229 | the last occurrence, or -1 when there is none |
| CallExtraction.CutToLastSegment | internal/treesitter/langspec.go:201-220 | the name is cut to its last segment |
| CallExtraction.LastSegmentIsFree | internal/treesitter/langspec.go:201-220 | the last segment is the end of the name and holds none of the separators |
| CallExtraction.LastSegmentIsBehind | internal/treesitter/langspec.go:201-220 | and it is the whole name, or stands right behind a separator |
| CallExtraction.Extractor.Walk | internal/treesitter/callgraph.go:17-33 | the walk appends exactly the edges of the subtree under the top of the stack and restores the stack |
| CallExtraction.Extractor.WalkBespoke | internal/treesitter/callgraph.go:61-235 | the same for the Go, Python and JavaScript walks, which skip anonymous functions |
| CallExtraction.Extractor.WalkSpecDriven | internal/treesitter/langspec.go:265-302 | the same for the table-driven walk |
| CallMeaning.PositionsComplete | internal/treesitter/langspec.go:265-302 | every node of the tree has its position in the list |
| CallMeaning.PositionsOrdered | internal/treesitter/langspec.go:265-302 | the list is in preorder, each position once |
| CallMeaning.Nearest | internal/treesitter/callgraph.go:113-170 | the nearest enclosing node that opens a scope, if any |
| CallMeaning.EdgesAreCollected | internal/treesitter/callgraph.go:61-235 | the recursive walk looks at exactly the positions of the list, in their order |
| CallMeaning.EdgeDownIsEdgeAt | internal/treesitter/callgraph.go:61-235 | what a walk emits at a position depends only on the nearest enclosing function and on no skipped node lying above it |
| CallMeaning.WalkMeaning | internal/treesitter/callgraph.go:61-235 | a walk from the root emits, in preorder, one edge for each resolvable call in no skipped subtree, labelled by the nearest enclosing named function |
| CallMeaning.RecordedIff | internal/treesitter/callgraph.go:61-235 | for Go, Python, the two script languages and every table-driven language, a position contributes an edge if and only if the name it calls resolves, a named function encloses it and, in the script languages, no arrow function stands at or above it |
| CallMeaning.CallsIff | internal/treesitter/callgraph.go:34-59 | in the four bespoke languages a call names an identifier by its text, an attribute or a selector expression by its last name, and nothing else |
| CallMeaning.MemberCallIsLost | internal/treesitter/callgraph.go:34-59 | in the two script languages a call through a member expression contributes no edge, wherever it stands |
| CallMeaning.ArrowCallIsLost | internal/treesitter/callgraph.go:209-210 | the same call in the same function is recorded outside an arrow function and not inside |
| CallMeaning.ExtractCalls | internal/treesitter/callgraph.go:17-33 | the stack-based extraction of a file computes exactly that, and each edge gives the name the call node calls, the name of the nearest enclosing function that has one, the line and the language |
| CallMeaning.EdgeSaysSo | internal/treesitter/callgraph.go:61-235 | the edge of a position says who calls whom there: the texts are those of the nodes the grammar names by |
| CallExtraction.NameFromChildMeaning | internal/treesitter/treesitter.go:130-143 | a declaration is named by its first child of the four identifier kinds; only without one by its first word; and without that "unknown" |
| CallExtraction.GenericNameMeaning | internal/treesitter/langspec.go:159-169 | by its name field, else by the first identifier of its declarator, else like the others |
| CallExtraction.GenericCalleeMeaning | internal/treesitter/langspec.go:190-199 | a call is named by the last identifier of its function, else its name, else its constructor field |
| CallMeaning.FirstIdentifierMeaning | internal/treesitter/langspec.go:173-184 | the first identifier is the text of the first outermost node of the four kinds that has one |
| CallMeaning.LastIdentifierMeaning | internal/treesitter/langspec.go:201-220 | the last identifier is the last segment of the text of the last outermost node of the seven kinds that has one |
| ManagedBlock.SharedFile.UpsertBlock | internal/skill/skill.go:260-300 | the file afterwards is the upserted text; created, updated and unchanged are told apart correctly |
| ManagedBlock.SharedFile.RemoveBlock | internal/skill/skill.go:304-334 | the file afterwards is the trimmed rest, or gone when the rest is blank |
| ManagedBlock.SpanAfterUpsert | internal/skill/skill.go:260-300 | where the block of any file is after an upsert |
| ManagedBlock.UpsertKeepsTheRest | internal/skill/skill.go:272-299 | without a stray start marker the text between the markers is then the block, every character outside is kept, and a block that was not there before stands behind an empty line |
| ManagedBlock.UpsertIdempotentIff | internal/skill/skill.go:260-300 | a second upsert changes nothing if and only if the file had no stray start marker |
| ManagedBlock.StrayLosesText | internal/skill/skill.go:272-299 | with one, the second upsert drops everything from that marker to the block |
| ManagedBlock.RemoveUndoesInsert | internal/skill/skill.go:260-334 | removing a block from a file that had no start marker before gives the trimmed original and a newline, or deletes a blank file |
| ManagedBlock.RemoveTakesStray | internal/skill/skill.go:260-334 | behind a stray start marker, removing what was inserted takes everything from that marker on |
| ManagedBlock.RemoveUndoesUpsertIff | internal/skill/skill.go:260-334 | removing after an upsert gives the trimmed original back if and only if it held no start marker |
| ManagedBlock.StrayExample | internal/skill/skill.go:260-334 | with the program's two markers and any block: text behind a lone start marker, which a second upsert, or a removal, loses |
| ManagedBlock.MarkersAreUsable | internal/skill/skill.go:106-111 | the program's two markers meet what the theorems ask of markers |
| ManagedBlock.RemoveForgetsReplace | internal/skill/skill.go:260-334 | replacing a block and removing it is removing it |
| ManagedBlock.SkillBlockIsBlock | internal/skill/skill.go:223-225 | the block written ends at its first end marker |
| CodexConfig.RemoveSection | internal/installer/targets/codex.go:152-172 | the line loop keeps exactly the kept lines and trims leading newlines |
| CodexConfig.SkippingMeaning | internal/installer/targets/codex.go:156-170 | a line is dropped if and only if a header stands at or above it with no other section between |
| CodexConfig.RemovedHasNoHeader | internal/installer/targets/codex.go:152-172 | no header line is left |
| CodexConfig.RemovedTwice | internal/installer/targets/codex.go:152-172 | on any text, removing a section twice is removing it once |
| CodexConfig.ConfigFile.WriteMcpEntry | internal/installer/targets/codex.go:60-105 | when the file is written and what with; an update is reported without a change if and only if the header is there and the block is not |
| CodexConfig.InstalledDiffers | internal/installer/targets/codex.go:60-105 | when something is written it differs from what was there |
| CodexConfig.UpdateThatIsNone | internal/installer/targets/codex.go:60-105 | with the program's own entry, for any path: a file that holds its header and nothing else gets an update reported and nothing written |
| CodexConfig.CostwiseIsProper | internal/installer/targets/codex.go:53-58 | the program's own entry meets what the theorems ask of an entry |
| CodexConfig.ConfigFile.Uninstall | internal/installer/targets/codex.go:107-148 | the sections are cut from the file, and the report says whether the entry was there |
| CodexConfig.UninstallUndoesInstall | internal/installer/targets/codex.go:60-148 | for a text that mentions neither header, uninstall after install returns it up to leading and trailing newlines |
| CodexConfig.CoreMeaning | internal/installer/targets/codex.go:143-143 | that text is the original without the newlines at its ends and with one at its end, or empty if there was nothing but newlines |
| CodexConfig.CommentedHeader | internal/installer/targets/codex.go:129-172 | a line that begins with the header belongs to the section when the entry is uninstalled, and ends the section when the old one is cut out |
| Ledger.Boundaries | internal/ledger/ledger.go:291-296 | the positions of the start markers |
| Ledger.Intervals | internal/ledger/ledger.go:300-320 | the intervals between markers, leaving out empty ones |
| Ledger.Sessions | internal/ledger/ledger.go:288-320 | exactly the non-empty sessions, in order |
| Ledger.LastNSessions | internal/ledger/ledger.go:278-338 | newest first, exactly the events that are neither marker nor watch event and have fewer than min(n, 5) non-empty sessions after their own |
| Ledger.NewestFirstMembers | internal/ledger/ledger.go:278-338 | an event is in that list if and only if it satisfies that condition |
| Ledger.MoreSessionsExtend | internal/ledger/ledger.go:278-338 | the result for n sessions is a prefix of the result for n + 1 |
| Ledger.FiveAreMost | internal/ledger/ledger.go:278-338 | asking for more than five sessions gives five |
| Ledger.TwoSessions | internal/ledger/ledger.go:278-338 | an example: a session event of another kind than start and a start event of another kind than session divide nothing, and a watch event is left out |
| Ledger.LatestSession | internal/ledger/ledger.go:340-362 | the longest tail of events within the idle threshold of the latest one, newest first; for events in order it is the documented session, cut at a gap between neighbours, if and only if that session as a whole is within the threshold |
| Ledger.GapStartMeaning | internal/ledger/ledger.go:134-136 | there is exactly one place where the documented session can begin |
| Ledger.CutIsGapIff | internal/ledger/ledger.go:340-362 | the code never cuts in front of that place, and cuts there if and only if the session as a whole is within the threshold |
| Ledger.ThreeEvents | internal/ledger/ledger.go:340-362 | three events twenty minutes apart are one session by their gaps, and the code leaves the first out |
| Ledger.SplitLines | internal/ledger/ledger.go:110-125 | the lines of the file, no empty line after a final newline |
| Ledger.LinesAreTheFile | internal/ledger/ledger.go:110-125 | no line holds a newline, and one below the other they are the file, with a newline added if its last line has none |
| Ledger.ReadAll | internal/ledger/ledger.go:85-108 | the decodable events of the lines, in order; none when there is no file |
| Ledger.PassedOver | internal/ledger/ledger.go:97-131 | an empty line or a byte order mark anywhere in the file makes no difference |
| Ledger.ReadAfterAppend | internal/ledger/ledger.go:35-108 | reading after an append gives what was there and then the new event |
| Ledger.ReadAllWritten | internal/ledger/ledger.go:35-108 | a file only ever appended to reads back as the events appended |
| Stash.Store.constructor | internal/stash/stash.go:51-63 | opening any directory rebuilds the index from its manifest, and what another store left behind is consistent again |
| Stash.Store.Store | internal/stash/stash.go:67-95 | the entry is retrievable under its handle with its exact content, known content keeps its age and, unless another is given, its tag, at most 256 entries remain, and the stash acts as a first-in first-out queue of that length |
| Stash.Store.PruneLocked | internal/stash/stash.go:111-130 | index and files lose the same entries, only ones older than all survivors, down to the cap |
| Stash.Store.Prune | internal/stash/stash.go:99-107 | without a limit nothing is dropped; exactly the last entries of the queue remain, and the manifest agrees with the index whether or not it was written |
| Stash.Store.Get | internal/stash/stash.go:134-147 | content is found for exactly the known handles, and hashes to the handle |
| Stash.Store.Query | internal/stash/stash.go:152-189 | no line matches exactly when no line contains the trimmed query, letter case aside; else the answer shows lines that match, in order, within the room, and the number of those left out |
| Stash.Store.List | internal/stash/stash.go:192-201 | every entry once, most recent first |
| Stash.Store.Load | internal/stash/stash.go:203-215 | the index has exactly the handles of the manifest, each with the last of its entries |
| Stash.Store.Persist | internal/stash/stash.go:218-226 | whatever order the entries are written in, the manifest rebuilds the index |
| Stash.Reopen | internal/stash/stash.go:51-63 | a store opened on what another left behind knows the same |
| Stash.SpellingsNormalize | internal/stash/stash.go:229-248 | a handle is found under each of its three spellings |
| Stash.FirstFitMeaning | internal/stash/stash.go:165-188 | an excerpt never exceeds its room and is the whole of the matching lines if and only if the whole fits |
| Stash.FirstFitPush | internal/stash/stash.go:165-180 | one more line is taken exactly if it fits behind what was taken before; what does not fit is passed over |
| Stash.MatchingMeaning | internal/stash/stash.go:165-177 | the matching lines are exactly the lines that contain the trimmed query, letter case aside, in order |
| Stash.PruneKeepsTheEnd | internal/stash/stash.go:111-130 | what a prune leaves is the end of the queue |
| Stash.StoreQueues | internal/stash/stash.go:67-95 | new content joins the end of the queue, from whose front one may drop out; known content keeps its place |
| Stash.OutlastsStores | internal/stash/stash.go:67-95 | a handle with n others behind it outlasts any 255 - n further stores |
| Stash.StaysIff | internal/stash/stash.go:67-95 | whatever is stored, it is never evicted if and only if at most 255 - n of the stores are of content not in the queue at their time |
| Stash.NeverEvictedIff | internal/stash/stash.go:51-130 | the same for the queue of any run |
| Stash.OutlastsIff | internal/stash/stash.go:67-95 | if all that is stored is new, it outlasts them if and only if there are at most 255 - n of them |
| Stash.NewContentPushes | internal/stash/stash.go:67-130 | after storing content that is new each time the queue is the last 256 of old and new |
| Stash.StoringAgainDoesNotRenew | internal/stash/stash.go:82-89 | known content at the front of a full stash, stored again, still goes with the next new content |
| Stash.Run | internal/stash/stash.go:51-130 | from an empty directory, after any run of Store, Prune and reopening, index, files and manifest hold exactly the queue of the run |
| ContextBuilder.SortByScore | internal/contextbuilder/builder.go:111-115 | a permutation in descending order of score |
| ContextBuilder.Select | internal/contextbuilder/builder.go:117-222 | the first pass keeps each result that fits beside those before it, and counts tokens, dropped results and empty snippets |
| ContextBuilder.Build | internal/contextbuilder/builder.go:100-341 | selected plus dropped is total, the results without a snippet are counted, tokens stay within the budget, at levels 1 to 6 the text is between 4 times the tokens and 3 characters per block more, and every chosen result is shown in the text |
| ContextBuilder.ChosenAreShown | internal/contextbuilder/builder.go:224-267 | the text holds the base name of each chosen result at level 0, its snippet at levels 1 to 6, its path at levels 1 to 3, and at level 7 its body, or else path and snippet |
| ContextBuilder.CostIff | internal/contextbuilder/builder.go:117-222 | a result can be chosen at all if and only if the level is 0, 1 or 7, it has a snippet, or from level 3 on its file has content |
| ContextBuilder.ChosenAreResults | internal/contextbuilder/builder.go:117-222 | every chosen result is one that was given, with the content of its file for a missing snippet at levels 3 to 6 and otherwise unchanged |
| ContextBuilder.LeftOutWouldOverflow | internal/contextbuilder/builder.go:215-219 | a result with a block is left out only when even the finished choice has no room for it |
| ContextBuilder.WithinBudget | internal/contextbuilder/builder.go:117-222 | the tokens of what is chosen never exceed the budget |
| ContextBuilder.NewBuilderKeepsBudget | internal/contextbuilder/builder.go:90-98 | a builder made without a budget keeps the default one, any other its own |
| ContextBuilder.TextIsMeasuredIff | internal/contextbuilder/builder.go:122-267 | the second pass writes exactly the blocks the first one measured if and only if no chosen result is bare |
| ContextBuilder.LengthMatchesTokens | internal/contextbuilder/builder.go:122-267 | at levels 1 to 6 that is always so, and fixes the length of the text |
| ContextBuilder.BodyTextIsMeasuredIff | internal/contextbuilder/builder.go:199-265 | at level 7 it is so exactly when every result that fits beside those chosen before it has a body or a snippet |
| ContextBuilder.BareIsChosenIff | internal/contextbuilder/builder.go:199-219 | a result with neither is chosen if and only if one fits beside those chosen before it |
| ContextBuilder.BareResultIsNotWritten | internal/contextbuilder/builder.go:199-265 | a result with neither is charged and not written |
| ContextBuilder.FileNamesCount | internal/contextbuilder/builder.go:122-132 | at level 0 the budget is a number of files |
| ContextBuilder.NewBuilderSpendsBudget | internal/contextbuilder/builder.go:90-132 | of enough results a builder made without a budget chooses the first 3000 at level 0, any other as many as its budget |
| Knowledge.TokenizeKey | internal/kmemory/kmemory.go:284-299 | the loop computes the terms of a text |
| Knowledge.TermsMeaning | internal/kmemory/kmemory.go:284-299 | the terms are exactly the maximal runs of two or more letters and digits, letter case aside, each once |
| Knowledge.TermsOfSpelled | internal/kmemory/kmemory.go:284-299 | an example: digits belong to a word, an underscore and a comma do not, and neither a single character nor a repeated word is a term |
| Text.LowerMeaning | internal/kmemory/kmemory.go:84-86 | lower-casing leaves no capital letter and changes nothing else |
| Knowledge.NoteKeysAreApart | internal/kmemory/kmemory.go:84-86 | no entry of another kind shares a key with a note |
| Knowledge.KeysAreApartIff | internal/kmemory/kmemory.go:84-86 | two entries share a key if and only if they are of one kind and their keys are the same, letter case aside |
| Knowledge.ScoreIsPositiveIff | internal/kmemory/kmemory.go:154-168 | an entry scores if and only if some term occurs in its key, value or file |
| Knowledge.ScoreIs | internal/kmemory/kmemory.go:154-168 | the score is twice the number of terms in the key plus the number of those found in value or file only |
| Knowledge.KeyOutranks | internal/kmemory/kmemory.go:154-168 | a term found in the key outranks one found in value or file only, and that one found nowhere |
| Knowledge.ScoreDominates | internal/kmemory/kmemory.go:154-168 | an entry no worse on every term and better on one has the higher score |
| Knowledge.RankByOverlap | internal/kmemory/kmemory.go:174-199 | exactly the entries kept that score, each once, by score and then by last use |
| Knowledge.KnowledgeMemory.Store | internal/kmemory/kmemory.go:88-106 | the entry replaces the one of the same kind and key, letter case aside |
| Knowledge.KnowledgeMemory.Lookup | internal/kmemory/kmemory.go:108-119 | finds by kind and key and changes only the time of use and the hit count |
| Knowledge.KnowledgeMemory.Search | internal/kmemory/kmemory.go:121-132 | exactly the entries of a kind that share a term with the query, ranked |
| Knowledge.KnowledgeMemory.SearchAll | internal/kmemory/kmemory.go:134-143 | exactly the entries that share a term with the query, ranked |
| Knowledge.KnowledgeMemory.SaveToFile | internal/kmemory/kmemory.go:223-247 | loading the file into a fresh memory gives the same entries, hit counts aside |
| Knowledge.KnowledgeMemory.LoadFromFile | internal/kmemory/kmemory.go:249-282 | the last entry of the file under a key takes the place of the one in memory, its hits counted from one, and keys not in the file keep theirs; a missing or malformed file changes nothing |
| Knowledge.SavedComesBack | internal/kmemory/kmemory.go:223-282 | the order the entries were written in does not matter |
| Facts.RepoSession.constructor | internal/session/repo_session.go:118-120 | a session starts with the notes of its facts file |
| Facts.RepoSession.RememberFact | internal/session/repo_session.go:140-146 | the last fact under a key wins and is on disk when the call returns |
| Facts.RepoSession.RecallFacts | internal/session/repo_session.go:150-168 | one line each for exactly the notes that share a term with the query, best match first and last used first among equals; for a blank query one line for every note |
| Facts.FallbackAddsNothing | internal/session/repo_session.go:154-165 | when no note matches, the wider search finds no note either |
| Facts.OtherKindsSpareNotes | internal/kmemory/kmemory.go:84-96 | storing knowledge of another kind leaves the notes alone |
| Facts.Restart | internal/session/repo_session.go:118-133 | a restarted session has the same notes, and so answers every query with the same lines |
| Facts.Handle | internal/session/repo_session.go:118-146 | of remembering, storing other knowledge, looking up and restarting only the first changes the notes |
| Facts.Run | internal/session/repo_session.go:118-168 | after any run of remembering, storing other knowledge, looking up and restarting the notes are those of the run |
| Facts.LastFactWins | internal/session/repo_session.go:140-146 | a note is there exactly when its key was ever used, letter case aside, and says what was said last |
| Snippets.CollectLines | internal/retrieval/grep.go:477-486 | exactly the existing lines within the context of a match, each once |
| Snippets.ExtractSnippetLines | internal/retrieval/grep.go:472-511 | the snippet equals a scan over all lines that shows those near a match, marks the matches, and puts an ellipsis before each run |
| Snippets.RenderedMeaning | internal/retrieval/grep.go:489-505 | a line stands behind its number, counted from one, and is marked exactly if it is a match |
| Snippets.LineStands | internal/retrieval/grep.go:489-510 | each such line stands behind all those above it, right after the line before it or after an ellipsis |
| Snippets.OneMatch | internal/retrieval/grep.go:472-511 | an example: a match in the third of five lines, with one line of context |
| Snippets.UniqueInts | internal/retrieval/grep.go:513-523 | the first occurrences, in order |
| Snippets.FirstOnesInOrder | internal/retrieval/grep.go:513-523 | the numbers stand in the order in which they first appear |
| Snippets.UniqueKeepsSnippet | internal/retrieval/grep.go:89-110 | removing repeated matches first does not change the snippet |

## Left out

- Database, file and parser failures, and crashes in the middle of a call: every operation succeeds. Runs of the indexer do not overlap.
- SQLite, fsnotify, Tree-sitter, JSON and the operating system: tables, events, syntax trees, an injective encoding of entries, and a map of files stand for them.
- Hash collisions: SHA-256 is injective, so a file hash stands for the content and a cache key hash for the rendered key. For the stash the truncation to six bytes is taken to be injective too.
- The order in which equal scores, equal times and map iterations come out: left open, so every statement holds for any such order.
- The order of rows of the references and call tables across files, `last_indexed`, and the age of the index: no decision depends on them.
- A repository whose root directory is itself called `vendor`, `build` or the like: the source skips it as a whole, the model looks only at names below the root.
- Letter case outside ASCII: `Lower` changes the letters A to Z only. Lengths count characters where the source counts bytes.
- The list elements of the LRU cache: the list is a sequence of keys, so moving an element by its pointer is removing and pushing its key.
- The visited key of the flow tracer as one string: kind, name and file are a triple, so a clash of separators is not modelled. Seeds come in as given; how a query finds them is not part of this model.
- The texts of the managed block's heading and policy and of the program's path in the TOML section: parameters, with what is needed of them (no newline, no marker inside) as preconditions.
- Which files a scope installs into, backups, prompts, and the other installer targets.
- `SessionBrief` and the rendering of events: the budget loop there skips a long line and may still take an older one, so it keeps no simple promise.
- The `index` field of the knowledge memory: it is written and never read.
- Aliasing of knowledge entries: entries are values, so a caller that keeps the pointer it stored, or the one it was given, cannot change the memory behind its back.
- Precision, recall, efficiency and the ranking score of the context builder, and every other floating-point score: no decision of the modelled code depends on them. Scores are reals, so NaN does not occur.
- `extractFunctionBody`, file loading and number formatting in the context builder: functions of the result, the same in both passes.
- MCP handlers, command line, doctor, updater, benchmarks, path permissions, keyword tables and classifiers: plumbing or tables without a deep invariant.
