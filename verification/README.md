# A Dafny model of remindb

remindb keeps a workspace's notes as a forest of nodes in a small database, and logs every
change to that forest the way a version control system logs commits. This project models
the parts of it where a mistake would lose data silently, and proves what they promise.

## What is modelled

**The versioned node store.** `Store.dfy` holds the class: a node table, a snapshot table, the
diff rows, the HEAD cursor and the next row id, with every committing operation as one method
(`Emit`, `Write`, `Summarize`, `Forget`, `Compile`, `Purge`, `Rollback`) and the readers
(`RestoreToSnapshot`, `Diff`, `Changes`). A transaction is one atomic step: a method that fails
leaves everything unchanged. Three ghost fields carry the history: `prior`, HEAD as it was when each
snapshot was made, `record`, the graph and the rows of every commit still in the log, and `trail`, the
commits since the log was last an exact record.
The parts it is built from are pure functions and lemmas in their own modules:

- `Graph.dfy`, `Delta.dfy`: the forest, its cascading delete, and replaying a list of deltas.
- `History.dfy`, `Recovery.dfy`, `Trail.dfy`: what a commit logs, and what walking back over it
  recovers.
- `Query.dfy`: the two readers of the log, consolidated and paged.
- `Log.dfy`, `State.dfy`, `Record.dfy`: the invariant of the log and of the whole store.
- `Rollback.dfy`, `Forget.dfy`, `Compile.dfy`, `CompileEffect.dfy`, `CompileRoot.dfy`,
  `Provenance.dfy`: what each operation commits, and when that is truthful.
- `Lineage.dfy`: what a structural id stands for, derived from the digest it was made with.
- `Run.dfy`, `StoreRun.dfy`, `Rescan.dfy`: whole runs of those operations from the empty store, as
  a state machine and as calls on the store itself.

A commit is *faithful* when its deltas name each node once, state the stored values truthfully
and strand no node in a cascade; that is exactly when its rows are the difference it made
(`History.CommitLinksIffFaithful`). Every commit keeps the store's invariant; a faithful one also
extends the exact record, and any other restarts it.

**The parts around it**, each against its own specification:

- `Ast.dfy`, `Tree.dfy`, `Markdown.dfy`: the heading stack that builds a document's tree on the
  heap, and the flattening that lists it.
- `ContentId.dfy`, `Transformer.dfy`: base-62 ids of a 64-bit digest, and the walk that wires them.
- `Resolver.dfy`, `Relations.dfy`: resolving wiki links and the queue of those that wait.
- `TempKey.dfy`, `Tempfile.dfy`, `TempLoad.dfy`: the keys of a temperature-seed file, the trie built in
  any order of them, and which files load.
- `Redact.dfy`: merging overlapping hits in place and writing one marker per span.
- `LedgerName.dfy`, `Ledger.dfy`, `LedgerOwner.dfy`, `LedgerFile.dfy`: the names of session files,
  their summaries and their compaction.
- `Notify.dfy`: the debounced notifier as interleaved steps.

`Order.dfy` is the byte order on ids and the sort the delta lists go through, `Wrappers.dfy` the
optional value.

## What the proofs found

- **When time travel is exact.** Start from the empty store and let any sequence of commits follow:
  compiles of batches of files whose ids `wireIdentity` made, over whatever was loaded; writes under
  any id; forgets and purges; and rollbacks that keep history. Every graph stays a closed forest in
  which each node is a write's root or stands in the file and below the ids its own id was made from
  (`Runs.EveryRunIsSound`). Every snapshot from a given one on restores to the graph it committed if
  and only if every later compile was over a load that covers its forest, every later purge took no
  node of another file and no later rollback lost a node it found (`Runs.EveryRunTravelsInTimeIff`).
  The rows are exactly the differences if and only if, moreover, no rollback stranded a node at all
  (`Runs.EveryRunIsExactIff`). A purge takes a node of another file only when it is told to purge the
  file of the writes itself (`Provenances.PurgeIsFaithfulIff`).
- **When a diff is exact.** The consolidated diff of a range is the comparison of its two graphs as soon
  as the commits in the range told the truth, whatever the others did (`Runs.EveryRunDiffsExactly`),
  and those of all snapshots between two are so if and only if all commits between them did
  (`Runs.EveryRunDiffsExactlyIff`). A rollback that can be undone but strands a node it added is where
  the two readers part: time travel stays exact across it and the diff does not.
- **What structural ids stand for.** That each stands for a file and a chain of enclosing ids is not
  assumed: it follows from the id function when the digest does not collide on the ids in use
  (`Lineages.WhoIsCoherent`, `Lineages.BatchIsWired`). The store's own invariant does not depend on any
  of this.
- **Loading by compile root can misreport.** A node whose latest row is a write is not found by the
  compile-root selection, so a full rescan logs it as added although it is stored, and the snapshot
  before the rescan no longer restores to a graph that holds it (`Rescans.WriteThenRescan`). Walking
  back over a directory compile is exact if and only if every stored node its forest names, and
  everything right below a node of the directory that the forest drops, was last written under the
  same root (`CompileRoots.RootCompileUndoneIff`). That is always so while one directory is all that is
  ever compiled (`Runs.OneRootIsTruthful`, `Rescans.Rescan`), and for a load by file unless a write stands
  under an id of the forest (`CompileRoots.FileCompileUndoneIff`). The graph itself converges however the state was loaded, and a second
  rescan makes no snapshot (`Provenances.CompileConverges`, `Rescans.RescanTwice`).
- **A rollback can miss its target.** Deltas are replayed in id order with cascading deletes, so a
  node moved away from a removed parent can be deleted after all, and its unchanged children with
  it, while every foreign key still holds (`Rollbacks.RollbackCanLoseANode`).
  `Rollbacks.RollbackHitsTargetIff` says exactly when the target is reached. A node lost that way is
  not at the old HEAD either (`Rollbacks.LostNodeIsNowhere`): what the old HEAD restores to is the old
  graph without the nodes a cascade took when their own delta was absent or already spent
  (`Rollbacks.KeptHistoryRestoresHead`). A rollback that loses only what it added itself misses its
  target and can still be undone (`Rollbacks.MissedButUndone`).
- **Dropping history keeps the discarded graph.** The one snapshot that survives above the target
  carries rows written against the discarded HEAD, so restoring the target again never returns the
  target but the discarded graph, as far as the rollback kept it (`Rollbacks.DroppedHistoryRestoresDiscarded`, and
  `Stores.Store.Rollback` itself).
- **A write may stand where a file's node belongs.** A write whose anchor is an id that is not stored
  creates a root node in the file `mcp:write`. If the anchor is the structural id of a forgotten
  node, the next compile of that node's file by file does not find it, and logs an add over it
  (`CompileRoots.AnchoredWriteIsLost`). Walking back over a by-file compile is exact if and only if no
  write stands under an id of its forest (`CompileRoots.FileCompileUndoneIff`); the runs above include
  such writes, and the graph still converges (`Provenances.CompileConverges`).
- **A ledger file shared by two clients** can change owner when it is compacted
  (`Ledgers.SharedFileChangesHands`); `LedgerOwners.CompactionKeepsSummaryIff` says exactly when. Two
  clients share a file when their slugs and the digests of their joined fields agree
  (`LedgerNames.SharesFileIff`). The join does not escape its separator, so a NUL that moves from the
  end of a name to the start of a title gives the same file whatever the digest, and compaction then
  shows (`LedgerFiles.CompactionIsVisible`). When the clients of a file are told apart, as they are
  by a digest without collisions among them when no field but the name holds a NUL, it never does
  (`LedgerFiles.CompactionIsInvisible`).

## Model

| member | source | states |
|---|---|---|
| Graphs.Grow | pkg/store/queries.go:121-128 | everything at or below a set of nodes: contains the set and is closed under children |
| Graphs.GrowIsLeast | pkg/store/queries.go:121-128 | it is the least such set, so a cascade takes no more than it must |
| Graphs.DeleteKeepsClosed | pkg/store/node.go:248-257 | a cascading delete leaves no node with a missing parent |
| Graphs.CascadeSplits | pkg/mcp/tools/forget.go:85-96 | without parent cycles, a node's cascade is the node and its descendants, the node not among them |
| Deltas.RunIsIntendedIff | pkg/emitter/emitter.go:83-117 | replaying deltas one by one gives what they mean together exactly when no cascade takes a node whose delta is absent or already spent |
| Deltas.RemovalsTakeSubtrees | pkg/emitter/emitter.go:83-117 | removals in any order take exactly the subtrees below the removed ids |
| Deltas.RemovalsAreSafeIff | pkg/emitter/emitter.go:83-117 | a list of removals strands nothing exactly when the removed ids are closed under current children |
| Deltas.UpsertsAreSafe | pkg/diff/engine.go:14-64 | putting all upserts before the removals moves the whole question to the graph the upserts leave |
| History.CommitLinksIffFaithful | pkg/emitter/emitter.go:75-159 | the rows a commit logs are its true difference, one row per changed node, exactly when its deltas were distinct, truthful and safe |
| History.FaithfulLinks | pkg/emitter/emitter.go:119-138 | a faithful commit's rows hold each changed node's old and new state and account for every node |
| History.LinksAreFaithful | pkg/emitter/emitter.go:119-138 | rows that are the true difference can only come from faithful deltas |
| History.UndoLinks | pkg/store/snapshot.go:326-374 | undoing a true difference, last row first, gives back the earlier graph on every versioned field and skips nothing |
| History.UndoAppend | pkg/store/snapshot.go:288-324 | undoing a longer log undoes its later part first |
| Recoveries.UndoRecovers | pkg/store/snapshot.go:326-374 | walking back over any truthful deltas, safe or not, skips nothing and recovers exactly the nodes still stored or logged as removed |
| Recoveries.UndoRecoversIff | pkg/store/snapshot.go:326-374 | so it recovers the graph exactly when no stored node vanished without a removal row |
| Recoveries.UndoableIff | pkg/store/snapshot.go:326-374 | and that is exactly when no cascade took a stored node whose own delta was absent or already spent; what was added meanwhile may go |
| Trails.TimeTravel | pkg/store/snapshot.go:288-324 | for every run of faithful commits and every t since its start, walking the log back from HEAD gives the graph at t exactly |
| Trails.GraphAtCommit | pkg/store/snapshot.go:288-324 | the graph at a commit's id is the graph that commit left |
| Trails.RestoresIff | pkg/store/snapshot.go:288-324 | whatever the rows say, every snapshot from a given one on restores to its graph exactly when each commit after it can be undone |
| Trails.RangeSpans | pkg/store/queries.go:162-163 | for any from <= to, when the commits in between told the truth, their rows describe node by node how the two graphs differ: first row the old side, last row the new side; no other commit matters |
| Trails.SpansCompose | pkg/query/diff.go:9-42 | two consecutive ranges that describe their ends make one that does |
| Query.ConsolidateDiffs | pkg/query/diff.go:9-42 | the brackets kept in a map and an order give one record per node that changed, and a record comes before another exactly as a row of its node comes before every row of the other |
| Query.ConsolidationIsExact | pkg/query/diff.go:9-81 | over any range, the records are exactly the net changes between its two graphs: at most one per node, none for transient or unchanged ones |
| Query.DiffIsComparison | pkg/query/engine.go:173-179 | the same stated on the graphs at the two snapshots of a run whose commits in between told the truth |
| Query.CommitDiffsIff | pkg/query/diff.go:9-81 | when a commit's deltas name each node once with its true values, the diff of its snapshot is the comparison of the graphs before and after exactly when the commit is faithful |
| Query.Delta | pkg/query/engine.go:143-171 | one page: a prefix of the remaining rows, cut at a snapshot boundary, with the two flags meaning what they say |
| Query.PageVerdict | pkg/query/engine.go:138-171 | overflow holds exactly when the next snapshot alone has more rows than the limit; a truncated page that does not overflow is non-empty and advances |
| Query.ResumeIsLossless | pkg/query/engine.go:143-171 | the rows after the last snapshot of a page are exactly the rows the page left out |
| Query.Drain | pkg/query/engine.go:143-171 | paging until nothing is left yields every row after the start once and in order, or all those before the first snapshot larger than the limit |
| Logs.BigEndianIsInjective | pkg/diff/hash.go:51-55 | the eight bytes folded in for an id determine it |
| Logs.CursorFormsFoldHead | pkg/diff/hash.go:25-48 | all three digest forms start with HEAD in eight bytes |
| Logs.CursorInputsAreInjective | pkg/diff/hash.go:25-48 | two inputs of one form are equal only for the same HEAD, the same rollback target and the same bytes behind them |
| Logs.CursorIsFresh | pkg/diff/hash.go:22-48 | a digest input that folds the present HEAD repeats that of no live snapshot, whatever state it describes |
| Logs.AppendKeepsLog | pkg/store/snapshot.go:93-140 | a new snapshot keeps the log sound: HEAD largest, ids fresh, parents present and smaller, rows in order and of live snapshots |
| Logs.PruneKeepsLog | pkg/store/snapshot.go:378-397 | so does pruning down to a target, right after a snapshot parented on it |
| Logs.WithoutMembers | pkg/store/queries.go:170-172 | pruning keeps exactly the rows at or below the target and those of the excluded snapshot |
| Logs.AppendIsLinear | pkg/store/snapshot.go:94-117 | a commit on top of HEAD leaves every snapshot parented on the newest older one still live |
| Logs.PruneIsLinear | pkg/store/snapshot.go:378-397 | so does dropping the history above a target, whose new snapshot is parented on the target |
| Logs.ParentsVisitTheLog | pkg/store/snapshot.go:94-117 | so following parents from HEAD visits every live snapshot down to the first and no other id |
| Rollbacks.ComputeRollbackDeltas | pkg/mcp/tools/rollback.go:141-181 | the list holds exactly the differences between the two graphs, in id order |
| Rollbacks.RollbackDeltasAreDetermined | pkg/mcp/tools/rollback.go:141-181 | the random order of the maps it is built from cannot be seen in it |
| Rollbacks.RollbackIsHonest | pkg/mcp/tools/rollback.go:141-261 | its deltas are distinct and state the current and the target values truthfully |
| Rollbacks.RollbackHitsTargetIff | pkg/mcp/tools/rollback.go:216-237 | applying them reaches the target on every versioned field exactly when no cascade takes a node without a pending delta |
| Rollbacks.ClosedRemovalIsSafe | pkg/mcp/tools/rollback.go:216-237 | that is so whenever the removed ids are closed under current children |
| Rollbacks.KeptHistoryRestoresHead | pkg/mcp/tools/rollback.go:86-116 | after any rollback that keeps history the old HEAD restores to the old graph without the nodes lost, so to the whole of it exactly when no cascade took one of its nodes without a delta or after its own |
| Rollbacks.ThereAndBack | pkg/mcp/tools/rollback.go:38-116 | rolling back and then rolling back to the old HEAD, each target being what the log restores at the time, is the identity exactly when the first can be undone and the second strands no node |
| Rollbacks.DroppedHistoryRestoresDiscarded | pkg/mcp/tools/rollback.go:86-111 | after a rollback that dropped history, walking the pruned log back to its target never gives the target: it gives the discarded graph without the nodes lost, so all of it exactly when none was |
| Rollbacks.RollbackCanLoseANode | pkg/mcp/tools/rollback.go:216-237 | three nodes for which the rollback commits but one unchanged node is gone |
| Rollbacks.LostNodeIsNowhere | pkg/mcp/tools/rollback.go:216-237 | the node lost is not in what the old HEAD restores to either |
| Rollbacks.MissedButUndone | pkg/mcp/tools/rollback.go:216-237 | three nodes for which the rollback misses its target, losing only what it added, and walking back is still exact |
| Forgets.BuildForgetDeltas | pkg/mcp/tools/forget.go:76-121 | each mode's plan: refused with the number of children, the target and its descendants, or the children moved and then the target |
| Forgets.ForgetLeaves | pkg/mcp/tools/forget.go:76-121 | each plan is faithful and leaves exactly the forest its mode names: cascade the subtree gone, reparent the target alone gone and its children one level up with their subtrees |
| Forgets.ForgetKeepsForest | pkg/mcp/tools/forget.go:23-74 | the forest stays closed, and acyclic by the same rank |
| Forgets.MovesReach | pkg/mcp/tools/forget.go:98-121 | after the moves alone, exactly the direct children have changed, and only their parent |
| Compiles.DiffFlat | pkg/diff/engine.go:14-64 | adds and modifications in the forest's order, then one removal for each stored id the forest does not name, in id order |
| Compiles.TreeHolds | pkg/parser/ast.go:49-56 | with distinct ids, the forest as a map holds every node under its id |
| CompileEffects.CompileReaches | pkg/emitter/emitter.go:83-117 | committing a compile's diff upserts what changed and then takes the removed ids with what is stored below them, whatever it was diffed against |
| CompileEffects.CompileHonestIff | pkg/emitter/emitter.go:140-159 | its rows are truthful exactly when every stored node the forest names was loaded: an add hits an absent id |
| CompileEffects.DiffIsAgainst | pkg/diff/engine.go:14-64 | the diff adds the named ids that were not loaded, changes those loaded with another hash, and removes those loaded and not named, each exactly |
| CompileEffects.CompileFaithfulIff | pkg/compiler/compiler.go:256-287 | a compile is faithful exactly when that holds and nothing outside the removed set hangs below it |
| Provenances.SweepSparesForest | pkg/compiler/compiler.go:249-287 | however the stored state was loaded, the removals and their cascades reach no node of a wired forest |
| Provenances.CompileConverges | pkg/compiler/compiler.go:249-287 | so after every compile the store agrees with the forest on id, hash and content; the removed ids are gone and every node outside the forest and the removed subtrees is untouched |
| CompileEffects.EmptyDiffMeansNoDeltas | pkg/emitter/emitter.go:75-81 | the delta list is empty exactly when the loaded state already has the forest's ids and hashes |
| CompileEffects.RecompileByFilesIsEmptyIff | pkg/compiler/compiler.go:634-663 | a second compile of the same files finds nothing to do, so makes no second snapshot, exactly when the first one converged |
| CompileRoots.LatestAfterCommit | pkg/store/queries.go:34-43 | a commit dates exactly the nodes of its deltas |
| CompileRoots.ByRootFinds | pkg/store/queries.go:34-43 | loading by compile root finds exactly the stored nodes whose last row is under one of its snapshots |
| CompileRoots.RecompileByRootIsEmpty | pkg/compiler/compiler.go:396-406 | a second compile of the same directory finds nothing to do, although loading by compile root may have missed nodes |
| CompileRoots.RecompileByFilesIsEmpty | pkg/compiler/compiler.go:634-663 | nor does a second compile of the same files |
| CompileRoots.MissedNodeIsLost | pkg/store/queries.go:34-43 | a stored node of the forest that the load missed makes the commit unfaithful, and walking back over it loses the node |
| CompileRoots.WrittenNodeIsLost | pkg/store/queries.go:34-43 | a node whose latest row is under no snapshot of the root is missed by the load, so its compile loses the node on walking back |
| CompileRoots.CompileUndoneIff | pkg/compiler/compiler.go:249-287 | on a structural store, walking back over a compile is exact exactly when the load covered the forest, which is exactly when the compile was logged truthfully |
| CompileRoots.RootCompileUndoneIff | pkg/compiler/compiler.go:396-406 | walking back over a directory compile is exact exactly when every stored node its forest names, and everything right below a node of the root that it drops, was last written under the root |
| CompileRoots.FileCompileUndoneIff | pkg/compiler/compiler.go:634-642 | walking back over a by-file compile is exact exactly when every stored node its forest names, and everything right below a node of its files that it drops, is stored in its files; that is when no write stands under an id of the forest |
| CompileRoots.AnchoredWriteIsLost | pkg/mcp/tools/write.go:22-83 | loading by file misses a node written under the structural id of a forgotten one, with the same effect |
| Provenances.CompileFaithfulIffCovers | pkg/compiler/compiler.go:249-287 | a compile of a wired forest is logged truthfully exactly when the load holds every stored node the forest names and everything right below a node the forest drops |
| Provenances.ByFilesCoversIff | pkg/compiler/compiler.go:634-642 | loading by file covers a wired forest of those files exactly when no write stands under one of its ids |
| Provenances.ByFileCompileIsFaithfulIff | pkg/compiler/compiler.go:621-642 | so that is exactly when a by-file compile is faithful, and its sweep spares the forest in any case |
| Provenances.ByFileHonestIff | pkg/compiler/compiler.go:634-642 | a by-file compile states the stored values truthfully exactly when every stored node the forest names is stored in one of its files |
| Provenances.ByFilesLeaveTheRest | pkg/compiler/compiler.go:634-663 | a by-file compile of a wired forest, of any files but the writes' own, removes just the nodes of those files the forest dropped, and leaves every other node it does not name as it was |
| Provenances.CoveredLeavesTheRest | pkg/compiler/compiler.go:249-287 | so does any compile over a load that covers its forest, with the loaded nodes for those of the files |
| Provenances.CompileKeepsProvenance | pkg/transformer/transformer.go:53-72 | a compile keeps every node but the writes' roots in the file its id was made from, below an enclosing id |
| Provenances.ForgetKeepsProvenance | pkg/mcp/tools/forget.go:76-121 | so does a forget in any mode |
| Provenances.ProvenanceIsAcyclic | internal/contentid/contentid.go:28-33 | structural ids rule out parent cycles |
| Provenances.PurgeIsFaithfulIff | pkg/mcp/rescan/rescan.go:353-392 | removing all nodes of some files takes their subtrees, and is faithful exactly when no node of another file stands below one of them; that is always so for any files but the writes' own, and then it removes nothing else |
| Lineages.IdFixesLineage | internal/contentid/contentid.go:28-33 | the same id in any two batches stands for the same file and the same chain of enclosing ids, when the digest does not collide on them |
| Lineages.WhoIsCoherent | pkg/transformer/transformer.go:53-72 | so the ids of any batches of files give each id a file and a lineage, and an enclosing id its own part of it |
| Lineages.BatchIsWired | pkg/transformer/transformer.go:46-72 | and the forest of each batch is wired by them, has distinct ids and lists every parent before its children |
| Lineages.JoinIsOneFilePerTree | pkg/compiler/compiler.go:231-234 | a batch put together of parsed documents keeps each tree in one file |
| States.CommitKeepsState | pkg/emitter/emitter.go:119-138 | every commit, faithful or not, keeps the store's invariant |
| States.PruneKeepsState | pkg/store/snapshot.go:378-397 | so does a pruning rollback, the exact record starting at the new snapshot |
| States.RestoreIsExact | pkg/store/snapshot.go:288-324 | in any state that keeps the invariant, restoring any snapshot of the exact record gives its graph |
| Records.CommitKeepsRecord | pkg/emitter/emitter.go:119-138 | every commit, faithful or not, goes onto the record of the live snapshots with its graph and rows |
| Records.PruneKeepsRecord | pkg/store/snapshot.go:378-397 | pruning leaves exactly the commits of the snapshots it keeps, and their rows are the log that is left |
| Records.RecordedRestores | pkg/store/snapshot.go:278-324 | in any store a live snapshot restores to its graph when every later commit still in the log can be undone |
| Records.RestorableAfterRollback | pkg/mcp/tools/rollback.go:86-116 | a rollback that keeps history leaves every later commit of an earlier snapshot undoable exactly when they were and the rollback lost no node it found, whether or not it reached its target |
| Stores.CommitIsSound | pkg/emitter/emitter.go:75-138 | any delta list whose foreign keys hold leaves a sound store, and its cursor is never a duplicate |
| Stores.NodeChangeIsTruthful | pkg/mcp/tools/deps.go:112-133 | a single-node change is either nothing at all or one faithful delta |
| Stores.TruthfulCommitExtends | pkg/emitter/emitter.go:119-138 | a faithful commit lengthens the exact record by itself |
| Stores.CursorNeverRepeats | pkg/diff/hash.go:22-48 | no commit is ever refused for a repeated cursor |
| Stores.RollbackReady | pkg/mcp/tools/rollback.go:56-84 | a rollback's list is well formed, and empty only when the graph already is the target |
| Stores.Store.CapturePreState | pkg/emitter/emitter.go:140-159 | the stored nodes of all deltas but adds |
| Stores.Store.Apply | pkg/emitter/emitter.go:83-117 | succeeds exactly when each statement's foreign keys hold, and then leaves the replayed graph |
| Stores.Store.Record | pkg/emitter/emitter.go:119-138 | one snapshot, one row per delta and HEAD advanced, or nothing when the cursor is taken or ids run out |
| Stores.Store.Transact | pkg/emitter/emitter.go:45-65 | the commit happens as a whole or not at all |
| Stores.Store.Emit | pkg/emitter/emitter.go:75-138 | no deltas, no snapshot; otherwise the whole new state of tables, HEAD and record, the invariant kept; the one new snapshot holds the message and the root given and is parented on the old HEAD, or on nothing when there was none |
| Stores.Store.RestoreToSnapshot | pkg/store/snapshot.go:278-324 | found exactly for live snapshots; the graph as it stood then with nothing skipped, when every later commit still in the log can be undone, in particular within the exact record |
| Stores.Store.ReverseApply | pkg/store/snapshot.go:326-374 | the in-place reverse walk computes the undone graph and the skipped ids |
| Stores.Store.PruneSnapshotsAfter | pkg/store/snapshot.go:378-397 | the snapshots and rows above the target are gone except HEAD's, and so are their commits from the record, the invariant kept |
| Stores.Store.Rollback | pkg/mcp/tools/rollback.go:38-116 | the four refusals change nothing; a rollback ends at the target exactly when its replay is safe; the target is the graph as it stood then; its snapshot is parented on the old HEAD, or on the target when the history is dropped; afterwards the old HEAD, or the target itself when the history was dropped, restores to the old graph without the nodes lost, and to the whole of it exactly when none was |
| Stores.RollThereAndBack | pkg/mcp/tools/rollback.go:38-116 | a rollback that can be undone and a second one to the old HEAD bring the old graph back, when the second strands no node and an id is left |
| Stores.Store.Write | pkg/mcp/tools/write.go:22-83 | nothing when the stored content has the same hash; otherwise the node holds the payload, its hash, the label and the size, a stored one keeping its place and kind and a new one being a root of the writes' own file, every other node as it was, the exact record one commit longer, and one snapshot more, on the old HEAD and under no compile root |
| Stores.Store.Summarize | pkg/mcp/tools/summarize.go:21-71 | the same for a stored node and the summary, labelled as one, refused for an unknown id |
| Stores.Store.Forget | pkg/mcp/tools/forget.go:23-74 | which request is refused and why; otherwise the forest its mode names, the exact record one commit longer, and one snapshot more under no compile root |
| Stores.ChangesAllowed | pkg/emitter/emitter.go:83-117 | a forest that lists parents first passes every foreign key, each change in its turn |
| Stores.Store.Compile | pkg/compiler/compiler.go:236-287 | it is diffed against the stored nodes of the files given, or in a full rescan of a root against those last written under the root; no snapshot exactly when that diff is empty; it commits exactly when there is a change, a row id is left and every foreign key holds, which listing parents first guarantees; then the compiled graph, its place in the record, and one snapshot more under the compile root given |
| Stores.Store.Purge | pkg/mcp/rescan/rescan.go:353-392 | exactly the nodes of the deleted files and what hangs below them are gone, with one snapshot more under no compile root |
| Stores.Store.Diff | pkg/mcp/tools/diff.go:17-30 | refused exactly for reversed bounds, otherwise the consolidated rows of the range; when the commits of the range told the truth, in particular within the exact record, the comparison of the two graphs |
| Stores.Store.Changes | pkg/mcp/tools/delta.go:24-45 | one page of the rows after a snapshot |
| Runs.EveryRunIsSound | pkg/emitter/emitter.go:75-138 | in every run of writes, forgets, compiles over any load, purges and rollbacks from the empty store, every graph is a closed forest of nodes that are writes' roots or stand where their ids belong |
| Runs.LegalIsFaithfulIff | pkg/emitter/emitter.go:75-138 | a commit's rows are the difference it made exactly when it is a write under any id, a forget, a purge that takes no node of another file, a compile over a covering load, or a rollback that strands no node |
| Runs.LegalIsUndoneIff | pkg/store/snapshot.go:326-374 | they walk back to the graph it found exactly then, or when a rollback lost no more than it added itself |
| Runs.EveryRunIsExactIff | pkg/emitter/emitter.go:75-138 | in every run every snapshot's rows are exactly the difference it made if and only if every compile was over a covering load and no purge or rollback stranded a node |
| Runs.EveryRunTravelsInTimeIff | pkg/store/snapshot.go:288-324 | in every run every snapshot from a given one on restores every versioned field of every node as it committed them, nothing skipped, if and only if every later compile was over a covering load, no later purge took a node of another file and no later rollback lost a node it found |
| Runs.EveryRunTravelsInTime | pkg/store/snapshot.go:288-324 | after a truthful run, restoring at any time gives the graph of that time |
| Runs.EveryRunDiffsExactly | pkg/query/engine.go:173-179 | in every run, for any from <= to, when the commits in between told the truth the records of the range are exactly the net changes between its two graphs |
| Runs.LegalTellsValues | pkg/emitter/emitter.go:140-159 | every commit's deltas name each node once, with its true stored and new values, whether or not its rows are the difference it makes |
| Runs.EveryRunDiffsExactlyIff | pkg/query/engine.go:173-179 | in every run, the diffs of all snapshots between two given ones are the comparisons of their graphs if and only if every commit between them told the truth |
| Runs.OneRootIsTruthful | pkg/compiler/compiler.go:396-406 | a run that only ever compiles one directory is truthful: every load covers its forest |
| StoreRuns.Write | pkg/mcp/tools/write.go:22-83 | on the store itself, a write under any id, also a file's node's that is no longer stored, stores the payload under it, changes nothing else and keeps the record going back to the empty store |
| StoreRuns.Forget | pkg/mcp/tools/forget.go:23-74 | so does a forget in any mode, which leaves the forest its mode names or is refused |
| StoreRuns.Compile | pkg/compiler/compiler.go:236-287 | so does a compile over a covering load, which commits exactly when something changed and an id is left; then it agrees with the forest, the nodes of the files given, or in a full rescan those last written under the root, are gone unless the forest names them, and every other node it does not name is as before |
| StoreRuns.Purge | pkg/mcp/rescan/rescan.go:353-392 | a purge of whole files takes their nodes with what hangs below; when that is no node of another file, as for any files but the writes' own, it takes no others and the record goes on |
| StoreRuns.Rollback | pkg/mcp/tools/rollback.go:38-116 | so does a rollback that keeps history and strands no node, which reaches its target, the graph as it stood then; its refusals change nothing |
| StoreRuns.Restore | pkg/store/snapshot.go:278-324 | at any point of such a run every live snapshot restores to the graph it committed, and no other id is found |
| StoreRuns.Diff | pkg/mcp/tools/diff.go:17-30 | and the diff of any two snapshots is the comparison of their graphs |
| Rescans.WriteThenRescan | pkg/store/queries.go:34-43 | a write and then a committed full rescan naming its node: the write's snapshot restores to a graph without the node |
| Rescans.RescanTwice | pkg/compiler/compiler.go:396-406 | a full rescan of a structural store, whatever its load misses, leaves the store agreeing with the forest, and a second one makes no snapshot |
| Rescans.Rescan | pkg/compiler/compiler.go:396-406 | a store of one directory stays so, and each rescan keeps the record going back to the empty store with nothing assumed of the load |
| Rescans.Link | pkg/compiler/compiler.go:278-280 | the link step of a wired compile never fails, and leaves the tables of a run |
| Ast.CollectNodes | pkg/parser/ast.go:58-64 | appends the listing of the trees, each node before its children, whatever was there before |
| Trees.PlanIsRight | pkg/parser/markdown.go:16-26 | in the tree built node by node, depth is the parent's plus one and a node's children are the nodes that name it, in order |
| Trees.PreorderIsPlaceOrder | pkg/parser/ast.go:58-64 | if nothing hangs above an earlier node's open sections, listing a forest in pre-order gives its nodes in order of place |
| Markdown.NearestIsNearest | pkg/parser/markdown.go:29-34 | the parent of a heading is the nearest earlier heading of strictly smaller level, of any other block the latest heading |
| Markdown.SectionsNest | pkg/parser/markdown.go:29-34 | between a block and its parent, nothing hangs above that parent |
| Markdown.PopSections | pkg/parser/markdown.go:29-34 | leaves the open sections a new heading belongs to, levels strictly rising, the nearest smaller heading on top |
| Markdown.AttachNode | pkg/parser/markdown.go:16-26 | hangs the node last under the top section, or among the roots, with the depth that gives, and changes nothing else |
| Markdown.ParseMarkdown | pkg/parser/markdown.go:56-82 | the heap holds exactly the tree of the document's blocks, every node in the document's file, its roots behind the preamble's |
| Markdown.Flatten | pkg/parser/ast.go:45-64 | flattening gives the preamble's nodes and then the document's, in document order, none lost or repeated |
| ContentId.EncodeBase62 | internal/contentid/contentid.go:43-50 | the countdown loop writes the eleven last base-62 digits |
| ContentId.DecodeInvertsEncode | internal/contentid/contentid.go:43-50 | decoding gives the number back when the digits are enough |
| ContentId.EncodeInvertsDecode | internal/contentid/contentid.go:43-50 | encoding gives the numeral back, so every numeral is in use |
| ContentId.IdLosesNothing | internal/contentid/contentid.go:28-33 | eleven digits hold every 64-bit value: the cut is a no-op and distinct digests give distinct ids |
| ContentId.ElevenDigitsSuffice | internal/contentid/contentid.go:9-16 | and ten would not |
| ContentId.InputIsInjective | internal/contentid/contentid.go:28-31 | different files, parents or positions give different digest inputs, whatever the file is called |
| ContentId.InputSpells | internal/contentid/contentid.go:28-31 | that input is the file, the parent and the position in decimal without leading zeros, with a NUL between each two |
| Transformer.IdsAreDistinct | pkg/transformer/transformer.go:53-72 | no two nodes of a batch of files share an id, unless the digest itself collides on them |
| Transformer.IdsAreBatchIndependent | pkg/transformer/transformer.go:54-66 | a file's ids depend on its own roots only, not on the other files of the batch or their order |
| Transformer.WireIdentity | pkg/transformer/transformer.go:53-72 | the walk gives every node under the list the id and parent id its place calls for, and spoils none already given |
| Transformer.WireBatch | pkg/transformer/transformer.go:46-50 | a whole batch: each parent id is the enclosing node's id, roots have none, all ids are distinct |
| Resolver.FindHeading | pkg/store/queries.go:290-302 | the first matching heading in order of file, depth and id, if any matches |
| Resolver.FoldIff | pkg/store/queries.go:290-302 | labels are compared up to the case of ASCII letters |
| Resolver.TrimTakesBlanks | pkg/store/queries.go:290-302 | and up to blanks at both ends, no others |
| Resolver.InFileIff | pkg/store/queries.go:295-302 | a file qualifies when it is the one named or ends in it below some directory |
| Resolver.Resolve | pkg/relations/resolver.go:43-62 | a link with an id goes to that node or nowhere; one without goes to the heading with its label, in its file if it names one, that comes first by file, depth and id, and nowhere only when there is none |
| Resolver.ResolvesIff | pkg/relations/resolver.go:43-62 | a link resolves exactly when its id is stored, or a heading matches its label |
| Resolver.FirstIsUnique | pkg/store/queries.go:290-302 | at most one heading is first |
| Relations.NothingResolvableWaits | pkg/relations/compile.go:77-113 | no waiting row a run leaves behind could have been resolved |
| Relations.EveryLinkLands | pkg/relations/compile.go:43-74 | every link of every processed node ends as an edge to its target or as a waiting row: with an id, as an edge to that node exactly when it is stored; with a label alone, as an edge to the first matching heading |
| Relations.EdgesAfterRun | pkg/relations/compile.go:21-113 | the edges after a run are those before it and exactly the links and waiting rows that resolve |
| Relations.WeightAfterRun | pkg/relations/compile.go:43-113 | an edge has the weight of the last link of its source that names it, failing that of the last waiting row that became it, failing that the weight it had |
| Relations.SecondRunChangesNothing | pkg/relations/compile.go:21-113 | a second run over the same nodes leaves edges, weights and waiting rows as they are |
| Relations.NodesSplit | pkg/relations/compile.go:24-37 | a run's effect on any tables: its own edges on top, its own rows behind, only the stale parsed rows of its nodes gone |
| Relations.Tables.Emit | pkg/relations/compile.go:43-74 | one link becomes an edge or a row; an unknown source is refused |
| Relations.Tables.RetryPending | pkg/relations/compile.go:77-113 | the replay turns every resolvable row into an edge and keeps the others in order |
| Relations.Tables.RunTx | pkg/relations/compile.go:21-40 | a run succeeds exactly when every node with links is stored, and then leaves the tables described above |
| Relations.Tables.Run | pkg/relations/compile.go:13-17 | in a transaction of its own, a failed run changes nothing |
| TempKeys.PathsSpellKeys | internal/tempfile/tempfile.go:99-110 | a key's path is the one list of slash-free names that joined by slashes give the key less one leading "./" and one trailing slash, and there is none exactly when a name would be empty, "." or ".." |
| TempKeys.SlashedPath | internal/tempfile/tempfile.go:99-110 | two keys joined by a slash spell the two paths in turn, unless the first ends in a slash or the second starts with "./", when they spell none |
| Tempfile.BuildEntry | internal/tempfile/tempfile.go:83-96 | whichever order the keys come in, whether loading succeeds and the trie it gives are the same |
| Tempfile.AnyPartLast | internal/tempfile/tempfile.go:83-96 | any key can be the one merged last |
| Tempfile.MergeCommutes | internal/tempfile/tempfile.go:140-171 | merging two entries fails or succeeds alike either way round, with the same result |
| Tempfile.MergeAssociates | internal/tempfile/tempfile.go:140-171 | and three entries in either grouping |
| Tempfile.MergeEntry | internal/tempfile/tempfile.go:140-164 | the merge loop computes the order-free merge |
| Tempfile.InsertPath | internal/tempfile/tempfile.go:112-136 | grafting a leaf along a path is merging the path's trie |
| Tempfile.SlashIsNesting | internal/tempfile/tempfile.go:99-136 | outer/inner means the same as an object inner under outer, in any company |
| Tempfile.SlashIsMembership | internal/tempfile/tempfile.go:99-136 | and beside an object already under outer it means one more member inner of that object |
| Tempfile.GraftMerges | internal/tempfile/tempfile.go:112-164 | merging two entries grafted at one place is grafting their merge |
| Tempfile.LeavesAreAssignments | internal/tempfile/tempfile.go:83-187 | the seeded nodes of the trie are exactly the assignments the file spells |
| Tempfile.KeySeedsSubtree | internal/tempfile/tempfile.go:52-136 | whatever else a loaded file holds, a number under a key answers for the path the key spells and every path below it |
| TempLoads.MergeFailsIff | internal/tempfile/tempfile.go:140-171 | two entries fail to merge exactly when some path is seeded in one and seeded or branching in the other |
| TempLoads.LoadsIff | internal/tempfile/tempfile.go:83-187 | a file loads exactly when every number in it lies between 0 and 1, every key spells a path, and no object seeds a path under one key that another seeds too or spells something below |
| Tempfile.Resolve | internal/tempfile/tempfile.go:52-81 | the loop over the slash-separated path, with its fallback, computes the walk |
| Tempfile.SeedCoversSubtree | internal/tempfile/tempfile.go:66-72 | a seed answers for its path and everything below it |
| Tempfile.DeepestWildcardAnswers | internal/tempfile/tempfile.go:61-80 | with no seed on the path, the deepest wildcard beside it answers |
| Redaction.MergeInPlace | internal/redaction/redact.go:76-84 | compacting the hits over their own array leaves the merged spans in front |
| Redaction.MergeIsRight | internal/redaction/redact.go:76-84 | for any sorted hits the spans are disjoint and in order, cover the same bytes, hold each hit whole, and take start and kind from their earliest hit |
| Redaction.Scrub | internal/redaction/redact.go:50-100 | for any hits in range, the output is the unflagged bytes in order with one marker where each span starts |
| Redaction.WriteMarkers | internal/redaction/redact.go:86-98 | the moving cursor writes that text and never slices out of range |
| Ledgers.LatestPerSession | pkg/mcp/ledger/ledger.go:182-223 | the last readable checkpoint of each session, in order of first sight |
| Ledgers.LatestListsMap | pkg/mcp/ledger/ledger.go:201-220 | each session appears once, with the record a map of last writes holds |
| Ledgers.SummarizeClient | pkg/mcp/ledger/ledger.go:226-259 | the roll-up: sums, the latest disconnect, the client of the last of the newest records, and that client's hash |
| Ledgers.LifetimeIsMoments | pkg/mcp/ledger/ledger.go:233-245 | the lifetime is the number of seconds its sessions were connected, each from its connection up to its disconnect or, without one, to when it was last seen |
| Ledgers.CompactFile | pkg/mcp/ledger/ledger.go:262-286 | one line per session in order of connection and id; a file with nothing readable stays as it is |
| Ledgers.CompactionKeepsTotals | pkg/mcp/ledger/ledger.go:226-286 | whatever is appended later, sessions, lifetime, calls and last disconnect are those of the original file |
| Ledgers.CompactionKeepsSummary | pkg/mcp/ledger/ledger.go:226-286 | and so is the whole summary, when the file is one client's |
| LedgerOwners.CompactionKeepsSummaryIff | pkg/mcp/ledger/ledger.go:226-286 | in any file and after any appends, exactly when, of the records seen last, the last one read and the last one connected are of one client and transport |
| LedgerOwners.OwnersExist | pkg/mcp/ledger/ledger.go:226-286 | those two records exist as soon as any was seen; otherwise the summary always stays |
| Ledgers.SharedFileChangesHands | pkg/mcp/ledger/ledger.go:249-286 | two clients last seen at the same moment in one file: compaction changes whose file it is |
| Ledgers.CompactionIsIdempotent | pkg/mcp/ledger/ledger.go:262-286 | compacting a compacted file changes nothing |
| LedgerNames.SlugOf | pkg/mcp/ledger/ledger.go:95-121 | a name becomes at most forty small letters, digits and dashes, no two dashes in a row, none at the ends, never nothing |
| LedgerNames.SlugSpellsName | pkg/mcp/ledger/ledger.go:95-121 | its letters and digits are the name's, lower-cased and in order, up to where it is cut; it is "client" when there are none |
| LedgerNames.SharesFileIff | pkg/mcp/ledger/ledger.go:83-90 | two clients share a file exactly when their slugs and the digests of their joined fields agree |
| LedgerNames.JoinIsInjective | pkg/mcp/ledger/ledger.go:83-86 | the joined fields tell clients apart when no field but the name holds a NUL |
| LedgerNames.NamesCollide | pkg/mcp/ledger/ledger.go:83-90 | a NUL moved from the end of a name to the start of a title leaves the file name as it is, whatever the digest |
| LedgerFiles.FileIsOneClient | pkg/mcp/ledger/ledger.go:83-90 | records told apart stand in one file only when they are of one client |
| LedgerFiles.CompactionIsInvisible | pkg/mcp/ledger/ledger.go:67-136 | no summary of a well-filed ledger is changed by compaction, after any sessions that follow, while the clients of the file are told apart |
| LedgerFiles.CompactionIsVisible | pkg/mcp/ledger/ledger.go:67-136 | and one is changed for two clients that differ only in where a NUL stands |
| LedgerFiles.Ledger.Append | pkg/mcp/ledger/ledger.go:124-136 | one line more in the file its client and transport name, every record still in its own file |
| LedgerFiles.Ledger.Compact | pkg/mcp/ledger/ledger.go:262-286 | every file compacted, none added or dropped, every record still in its own file |
| Notify.NoTouchIsLost | pkg/mcp/notify/notify.go:74-103 | in every interleaving until Close, a uri touched since its last send has a running timer, a fire waiting for the lock, or a fire about to send |
| Notify.PendingIsDeliverable | pkg/mcp/notify/notify.go:90-103 | and the send can always be brought about without another touch |
| Notify.NotificationsAreCoalesced | pkg/mcp/notify/notify.go:74-103 | sends, fires under way and running timers never outnumber the touches |
| Notify.RunIsConsistent | pkg/mcp/notify/notify.go:74-125 | in every run, each uri in the map has its own timer, which runs for it or whose fire is on its way |
| Notify.Publisher.Touch | pkg/mcp/notify/notify.go:74-88 | afterwards one timer runs for a known uri, the one the map had or a new one, so its notification is to come; what is to come for other uris is as before, and an unknown uri changes nothing |
| Notify.Publisher.FireDelete | pkg/mcp/notify/notify.go:90-97 | the half of a fire under the lock: the map forgets this uri alone, and with a server attached its notification is still to come, as are those of all others |
| Notify.Publisher.Close | pkg/mcp/notify/notify.go:117-125 | the loop stops exactly the timers in the map and empties it |
| Order.AscendingIsCanonical | pkg/diff/engine.go:44-58 | a strictly ascending list is determined by its members |
| Order.LessIsLexicographic | pkg/diff/engine.go:44-58 | that order is by the first character that differs, a prefix coming first |

## Left out

- SQLite itself, full-text search and ranking, recursive relation queries, busy retries, migrations: a foreign engine; tables are maps and sequences and a transaction is one atomic step.
- Temperature, pins and access counts: a sideband that no snapshot records and no restore touches.
- The digests: xxhash is a parameter. For contents, node ids and ledger file names only collisions among the values in use are excluded, where a claim needs that. The pairs of ids and hashes that follow HEAD in a cursor's digest are arbitrary bytes.
- Stores.Store.Compile: takes the parsed forest with distinct ids and consistent hashes; parsing, the order of files, skipped files and timing are inputs. Resolving wiki links in the same transaction is modelled on its own in `Relations.dfy`.
- Stores.Store.Forget: the claim about the resulting forest is for graphs without parent cycles, which structural ids rule out; the recursive descendants query does not end on others.
- Stores.Store.Write: the redactor and the label and token counts of a payload are inputs.
- The trigger that queues the links of a deleted target again, and the cascade from nodes into the relation tables: the node table is fixed during a run of `Relations`.
- Resolver.Resolve: `LOWER` and `TRIM` are modelled as SQLite has them for ASCII; ids are taken not to be empty only where a lemma says so.
- Markdown.ParseMarkdown: which blocks a document has, and the trees of its preamble, are inputs; a block without content is `Blank`.
- Transformer.WireBatch: the trees are given with their nodes numbered so that children come after their parents, as flattening numbers them.
- Tempfile.BuildEntry: the trie is a value here and a pointer structure in the code; sharing and update in place are not captured. Reading the JSON file is left out.
- Redaction.Scrub: the hits are given; how a regular expression finds them is left out, and the order among hits with the same span is any order sorting may leave.
- Lineages.BatchIsWired: the rows of a forest are related to the wired nodes by id, parent and file, in document order; their other columns are whatever was parsed.
- LedgerNames.SlugOf: the lower-case form of a character is a parameter.
- Ledgers.SummarizeClient: sums are unbounded, and a line is readable or not as given; the line length at which the scanner gives up, JSON and the file system are left out.
- Notify.NoTouchIsLost: time is left out; a timer may expire at any moment after it was armed, and a server is attached before the first touch, as the code asks.
- Several processes on one database file: the store's operations follow one another.
- Temperature decay and scoring, path matching, budgets, the log ring buffer, configuration, the MCP server, transports, CLI, doctor, plugins and file walking: plumbing, or members that would only be easy.
