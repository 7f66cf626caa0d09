/** The store itself driven through structural commits: its exact record is never restarted. */
module StoreRuns {
  import opened Graphs
  import opened Deltas
  import opened History
  import opened Trails
  import opened Query
  import opened Logs
  import opened States
  import opened Rollbacks
  import opened Forgets
  import opened Provenances
  import opened ContentId
  import opened Lineages
  import opened Runs
  import opened Stores
  import opened Wrappers
  import T = Transformer
  import C = Compiles
  import E = CompileEffects
  import R = CompileRoots

  /** The store's record reaches back to the empty store, and all its graphs are structural. */
  ghost predicate Going(s: Store, digest: string -> UInt64, bs: seq<T.Batch>)
    reads s
  {
    s.Valid() && Fit(digest, bs) && s.trail[0].id == 0 && GoodTrail(s.hash, WhoOf(digest, bs), s.trail)
  }

  /** The record is as it was or one commit longer. */
  twostate predicate Continues(s: Store)
    reads s
  {
    s.trail == old(s.trail) || (|s.trail| == |old(s.trail)| + 1 && s.trail[..|old(s.trail)|] == old(s.trail))
  }

  lemma GoodNow(hash: Hash, who: Identity, nodes: Graph, log: Log, prior: map<nat, nat>, trail: seq<Commit>)
    requires ValidState(hash, nodes, log, prior, trail) && GoodTrail(hash, who, trail)
    ensures trail != [] && Last(trail).graph == nodes && Good(hash, who, nodes)
  {
    assert Last(trail) in trail;
  }

  lemma OneCommitMore(hash: Hash, who: Identity, was: seq<Commit>, trail: seq<Commit>)
    requires GoodTrail(hash, who, was) && was != [] && |trail| == |was| + 1 && trail[..|was|] == was
    requires Good(hash, who, Last(trail).graph)
    ensures GoodTrail(hash, who, trail) && trail[0] == was[0]
  {
    assert trail == was + [Last(trail)];
  }

  method Start(hash: Hash, digest: string -> UInt64, bs: seq<T.Batch>) returns (s: Store)
    requires Fit(digest, bs)
    ensures fresh(s) && Going(s, digest, bs) && s.nodes == map[]
  {
    s := new Store(hash);
  }

  /** Any write, also one that makes a new node under the id of a file's node no longer stored. */
  method Write(s: Store, digest: string -> UInt64, bs: seq<T.Batch>, id: string, payload: string, title: string,
               tokens: int, pairs: seq<Byte>)
    returns (r: Outcome)
    requires Going(s, digest, bs) && id != ""
    modifies s
    ensures Going(s, digest, bs) && Continues(s)
    ensures s.NodeChanging(id, old(s.WrittenNode(id, payload, title, tokens)), pairs, "write:" + id, r)
    ensures r.Committed? ==> s.Holds(id, payload, title, tokens)
  {
    ghost var who, was, g := WhoOf(digest, bs), s.trail, s.nodes;
    GoodNow(s.hash, who, s.nodes, s.TheLog(), s.prior, s.trail);
    ghost var n := s.WrittenNode(id, payload, title, tokens);
    r := s.Write(id, payload, title, tokens, pairs);
    if r.Committed? {
      WrittenIsGood(s.hash, who, g, id, n);
      OneCommitMore(s.hash, who, was, s.trail);
    }
  }

  method Summarize(s: Store, digest: string -> UInt64, bs: seq<T.Batch>, id: string, summary: string, title: string,
                   tokens: int, pairs: seq<Byte>)
    returns (r: Option<Outcome>)
    requires Going(s, digest, bs)
    modifies s
    ensures Going(s, digest, bs) && Continues(s)
    ensures r.None? <==> id !in old(s.nodes)
    ensures r.Some? ==>
      s.NodeChanging(id, old(s.SummaryNode(id, summary, title, tokens)), pairs, "summarize:" + id, r.value)
    ensures r.Some? && r.value.Committed? ==> s.Holds(id, summary, "Summary: " + title, tokens)
  {
    ghost var who, was, g := WhoOf(digest, bs), s.trail, s.nodes;
    GoodNow(s.hash, who, s.nodes, s.TheLog(), s.prior, s.trail);
    ghost var n := s.SummaryNode(id, summary, title, tokens);
    r := s.Summarize(id, summary, title, tokens, pairs);
    if r.Some? && r.value.Committed? {
      WrittenIsGood(s.hash, who, g, id, n);
      OneCommitMore(s.hash, who, was, s.trail);
    }
  }

  /** A forget of any mode. */
  method Forget(s: Store, digest: string -> UInt64, bs: seq<T.Batch>, id: string, mode: Mode, pairs: seq<Byte>)
    returns (r: ForgetOutcome)
    requires Going(s, digest, bs)
    modifies s
    ensures Going(s, digest, bs) && Continues(s)
    ensures r == MissingId <==> id == ""
    ensures r == NoSuchNode <==> id != "" && id !in old(s.nodes)
    ensures r.HasChildren? <==> id in old(s.nodes) && mode == Strict && ChildrenOf(old(s.nodes), {id}) != {}
    ensures r.Emitted? ==> (r.outcome.Committed? <==> old(s.nextId) <= MAX_ROWID)
    ensures s.nodes == if r.Emitted? && r.outcome.Committed? then Forgotten(old(s.nodes), id, mode) else old(s.nodes)
  {
    ghost var who, was, g := WhoOf(digest, bs), s.trail, s.nodes;
    ghost var rank: string -> nat := x => |who.lineage(x)|;
    GoodNow(s.hash, who, g, s.TheLog(), s.prior, was);
    WhoIsCoherent(digest, bs);
    ProvenanceIsAcyclic(g, who);
    assert AcyclicBy(g, rank);
    ghost var ds;
    r, ds := s.Forget(id, mode, pairs, rank);
    if r.Emitted? && r.outcome.Committed? {
      ForgottenIsGood(s.hash, who, g, id, mode, rank);
      OneCommitMore(s.hash, who, was, s.trail);
    }
  }

  /** A compile of a batch over a load that covers it: it commits exactly when something changed
      and an id is left, and then the store agrees with the forest. */
  method Compile(s: Store, digest: string -> UInt64, bs: seq<T.Batch>, ghost b: T.Batch, flat: seq<C.FlatNode>,
                 files: set<string>, fullRescan: bool, root: string, pairs: seq<Byte>, message: string)
    returns (r: Outcome, ghost ds: seq<Delta>)
    requires Going(s, digest, bs) && b in bs && IsFlatOf(flat, digest, b) && Hashed(s.hash, C.Tree(flat))
    requires Covers(s.nodes, C.Tree(flat), s.PrevFor(files, fullRescan, root))
    modifies s
    ensures Going(s, digest, bs) && Continues(s)
    ensures r.Committed? <==>
      !E.EmptyDiff(C.Tree(flat), old(s.PrevFor(files, fullRescan, root))) && old(s.nextId) <= MAX_ROWID
    ensures r.NoDeltas? <==> E.EmptyDiff(C.Tree(flat), old(s.PrevFor(files, fullRescan, root)))
    ensures !r.Committed? ==> unchanged(s)
    ensures r.Committed? ==>
      && s.nodes == E.Compiled(old(s.nodes), C.Tree(flat), old(s.PrevFor(files, fullRescan, root)))
      && r.id == old(s.nextId)
      && s.TheLog() == Extended(old(s.TheLog()), pairs, message, root, RowsFor(r.id, old(s.nodes), ds))
      && IdsOf(ds) == E.Changed(C.Tree(flat), old(s.PrevFor(files, fullRescan, root)))
                      + (old(s.PrevFor(files, fullRescan, root)).Keys - C.Tree(flat).Keys)
    ensures r.Committed? ==>
      LeavesTheRest(old(s.nodes), s.nodes, C.Tree(flat),
                    if fullRescan && root != "" then
                      set x | x in old(s.nodes) && LastWrittenUnder(old(s.TheLog()), x, root)
                    else
                      set x | x in old(s.nodes) && old(s.nodes)[x].sourceFile in files)
    ensures r.Committed? && E.NoCollisionWith(old(s.PrevFor(files, fullRescan, root)), C.Tree(flat)) ==>
      E.Agrees(s.nodes, C.Tree(flat))
  {
    ghost var who, was, g, prev := WhoOf(digest, bs), s.trail, s.nodes, s.PrevFor(files, fullRescan, root);
    GoodNow(s.hash, who, g, s.TheLog(), s.prior, was);
    WhoIsCoherent(digest, bs);
    BatchIsWired(digest, bs, b, flat);
    CompileTakes(who, g, C.Tree(flat), s.TheLog(), files, fullRescan, root, prev);
    ghost var removed;
    r, ds, removed := s.Compile(flat, files, fullRescan, root, pairs, message);
    R.DiffIds(ds, removed, flat, prev);
    if r.Committed? {
      CompileIsGood(s.hash, who, g, flat, prev, removed, ds);
      TruthfulCommitExtends(was, r.id, g, ds, C.Tree(flat));
      OneCommitMore(s.hash, who, was, s.trail);
    }
  }

  lemma CompileTakes(who: Identity, g: Graph, tree: Graph, log: Log, files: set<string>, fullRescan: bool,
                     root: string, prev: E.Prev)
    requires Coherent(who) && Provenance(g, who) && Wired(tree, who) && "" !in g && Covers(g, tree, prev)
    requires prev == if fullRescan && root != "" then R.ByRoot(g, log.diffs, Under(log, root)) else E.ByFiles(g, files)
    ensures LeavesTheRest(g, E.Compiled(g, tree, prev), tree,
                          if fullRescan && root != "" then set x | x in g && LastWrittenUnder(log, x, root)
                          else set x | x in g && g[x].sourceFile in files)
  {
    LoadsByRoot(g, log, root);
    assert E.ByFiles(g, files).Keys == set x | x in g && g[x].sourceFile in files;
    CoveredLeavesTheRest(g, tree, who, prev);
  }

  lemma CompileIsGood(hash: Hash, who: Identity, g: Graph, flat: seq<C.FlatNode>, prev: E.Prev,
                      removed: seq<string>, ds: seq<Delta>)
    requires Coherent(who) && Good(hash, who, g) && C.DistinctIds(flat)
    requires Wired(C.Tree(flat), who) && Hashed(hash, C.Tree(flat)) && E.Loaded(prev, g)
        && Covers(g, C.Tree(flat), prev)
    requires E.IsDiff(ds, removed, flat, prev)
    ensures Faithful(g, ds, C.Tree(flat)) && Run(g, ds, C.Tree(flat)) == E.Compiled(g, C.Tree(flat), prev)
    ensures Good(hash, who, E.Compiled(g, C.Tree(flat), prev))
    ensures E.NoCollisionWith(prev, C.Tree(flat)) ==> E.Agrees(E.Compiled(g, C.Tree(flat), prev), C.Tree(flat))
  {
    CompileFaithfulIffCovers(ds, removed, flat, prev, g, who);
    E.CompileReaches(ds, removed, flat, prev, g);
    CompiledIsGood(hash, who, g, C.Tree(flat), prev);
    if E.NoCollisionWith(prev, C.Tree(flat)) {
      CompileConverges(g, C.Tree(flat), who, prev);
    }
  }

  /** The removal of every node of some files. It takes their subtrees, and when those are of the files
      too, as they are unless the writes' own file is among them, the record goes on. */
  method Purge(s: Store, digest: string -> UInt64, bs: seq<T.Batch>, files: set<string>, pairs: seq<Byte>)
    returns (r: Outcome)
    requires Going(s, digest, bs)
    modifies s
    ensures s.Valid()
    ensures r.Committed? <==> old(s.nextId) <= MAX_ROWID && InFiles(old(s.nodes), files) != {}
    ensures s.nodes ==
      if r.Committed? then old(s.nodes) - Grow(old(s.nodes), InFiles(old(s.nodes), files)) else old(s.nodes)
    ensures ChildClosed(old(s.nodes), InFiles(old(s.nodes), files)) ==>
      && Going(s, digest, bs) && Continues(s)
      && (r.Committed? ==> s.nodes == old(s.nodes) - InFiles(old(s.nodes), files))
    ensures WRITTEN !in files ==> ChildClosed(old(s.nodes), InFiles(old(s.nodes), files))
  {
    ghost var who, was, g := WhoOf(digest, bs), s.trail, s.nodes;
    GoodNow(s.hash, who, g, s.TheLog(), s.prior, was);
    WhoIsCoherent(digest, bs);
    ghost var ds;
    r, ds := s.Purge(files, pairs);
    E.NoIdsNoDeltas(ds);
    PurgeIsGood(s.hash, who, g, files, ds);
    if r.Committed? && ChildClosed(g, InFiles(g, files)) {
      TruthfulCommitExtends(was, r.id, g, ds, map[]);
      OneCommitMore(s.hash, who, was, s.trail);
    }
  }

  lemma PurgeIsGood(hash: Hash, who: Identity, g: Graph, files: set<string>, ds: seq<Delta>)
    requires Coherent(who) && Good(hash, who, g) && AreRemovals(g, ds) && IdsOf(ds) == InFiles(g, files)
    ensures WRITTEN !in files ==> ChildClosed(g, InFiles(g, files))
    ensures ChildClosed(g, InFiles(g, files)) ==>
      && Faithful(g, ds, map[]) && Good(hash, who, g - InFiles(g, files))
      && Run(g, ds, map[]) == g - Grow(g, IdsOf(ds)) == g - InFiles(g, files)
  {
    PurgeIsFaithfulIff(ds, files, g, who);
    if WRITTEN !in files {
      FilesAreClosed(g, files, who);
    }
    if ChildClosed(g, InFiles(g, files)) {
      GrowIsLeast(g, IdsOf(ds), IdsOf(ds));
      WithoutSubtrees(hash, who, g, IdsOf(ds));
    }
  }

  /** A rollback that keeps history: when it strands no node it reaches its target, the graph as it
      stood then, and the record goes on. */
  method Rollback(s: Store, digest: string -> UInt64, bs: seq<T.Batch>, target: int, pairs: seq<Byte>)
    returns (r: RollbackOutcome, ghost ds: seq<Delta>)
    requires Going(s, digest, bs)
    modifies s
    ensures s.Valid()
    ensures old(s.RollbackRefusal(target)).Some? ==> r == old(s.RollbackRefusal(target)).value && unchanged(s)
    ensures old(s.RollbackRefusal(target)).None? ==> s.RollingBack(target, false, pairs, ds, r)
    ensures r.RolledBack? ==> old(s.Goal(target)) == GraphAt(old(s.trail), target)
    ensures (r.RolledBack? ==> ReachesGoal(old(s.nodes), ds, GraphAt(old(s.trail), target))) ==>
      Going(s, digest, bs) && Continues(s)
    ensures r.RolledBack? && ReachesGoal(old(s.nodes), ds, GraphAt(old(s.trail), target)) ==>
      s.nodes == GraphAt(old(s.trail), target)
  {
    ghost var who, was, g := WhoOf(digest, bs), s.trail, s.nodes;
    GoodNow(s.hash, who, g, s.TheLog(), s.prior, was);
    ghost var goal := GraphAt(was, target);
    GraphAtIsGood(s.hash, who, was, target);
    r, ds := s.Rollback(target, false, pairs);
    if r.RolledBack? && ReachesGoal(g, ds, goal) {
      SafeRollbackIsFaithful(g, goal, ds);
      TruthfulCommitExtends(was, r.id, g, ds, goal);
      OneCommitMore(s.hash, who, was, s.trail);
    }
  }

  lemma SafeRollbackIsFaithful(g: Graph, goal: Graph, ds: seq<Delta>)
    requires IsRollbackDeltas(ds, g, goal) && ReachesGoal(g, ds, goal)
    ensures Faithful(g, ds, goal) && Run(g, ds, goal) == goal
  {
    RollbackIsHonest(ds, g, goal);
    RollbackHitsTargetIff(ds, g, goal);
  }

  // ---- the readers, at any point of such a run ----

  /** Every live snapshot restores to the graph it committed, with nothing skipped. */
  method Restore(s: Store, digest: string -> UInt64, bs: seq<T.Batch>, target: nat) returns (r: Option<Restored>)
    requires Going(s, digest, bs)
    ensures r == if target in s.snapshots then Some(Restored(GraphAt(s.trail, target), [])) else None
  {
    r := s.RestoreToSnapshot(target);
  }

  /** The diff of any two snapshots is the comparison of their graphs. */
  method Diff(s: Store, digest: string -> UInt64, bs: seq<T.Batch>, from: nat, to: nat)
    returns (r: Option<seq<DiffRow>>)
    requires Going(s, digest, bs)
    ensures r.None? <==> from > to
    ensures r.Some? ==> Compares(GraphAt(s.trail, from), GraphAt(s.trail, to), r.value)
  {
    r := s.Diff(from, to);
  }
}
