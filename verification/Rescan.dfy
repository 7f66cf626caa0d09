/** Directory compiles on the store, one after another and after other commits. */
module Rescans {
  import opened Graphs
  import opened Deltas
  import opened History
  import opened Trails
  import opened Logs
  import opened States
  import opened Provenances
  import opened ContentId
  import opened Lineages
  import opened Runs
  import opened Stores
  import T = Transformer
  import C = Compiles
  import E = CompileEffects
  import R = CompileRoots
  import L = Relations
  import D = StoreRuns

  // ---- after a write ----

  /** A write dates its node under no compile root. */
  lemma WriteIsUnderNoRoot(hash: Hash, was: Log, nodes: Graph, log: Log, prior: map<nat, nat>, trail: seq<Commit>,
                           root: string, id: string)
    requires ValidState(hash, nodes, log, prior, trail) && root != "" && |trail| > 1
    requires forall r | r in was.diffs :: r.snapshot < was.nextId
    requires |Last(trail).rows| == 1 && Last(trail).rows[0].id == id && Last(trail).id == was.nextId
    requires log.diffs == was.diffs + Last(trail).rows
    requires was.nextId in log.snapshots && log.snapshots[was.nextId].compileRoot == ""
    ensures !R.LastUnder(log.diffs, Under(log, root), id)
  {
    var row := Last(trail).rows[0];
    assert row in Last(trail).rows && row.snapshot == was.nextId;
    assert Last(trail).rows == [row];
    R.LatestAppend(was.diffs, [row], was.nextId, id);
  }

  /** A compile whose load missed a stored node of its forest: the node is gone from the graph that the
      snapshot before it restores to. */
  lemma MissedAtHead(log: Log, more: seq<DiffRow>, g: Graph, ds: seq<Delta>, removed: seq<string>,
                     flat: seq<C.FlatNode>, prev: E.Prev, x: string)
    requires (forall r | r in log.diffs :: r.snapshot <= log.head) && log.head < log.nextId
    requires C.DistinctIds(flat) && E.IsDiff(ds, removed, flat, prev) && E.Loaded(prev, g)
    requires more == RowsFor(log.nextId, g, ds) && x in C.Tree(flat) && x in g && x !in prev
    ensures x !in Undo(After(log.diffs + more, log.head), Restored(E.Compiled(g, C.Tree(flat), prev), [])).nodes
  {
    RowMembers(log.nextId, g, ds);
    AfterHead(log.diffs, more, log.head);
    E.CompileReaches(ds, removed, flat, prev, g);
    R.MissedNodeIsLost(ds, removed, flat, g, prev, log.nextId, x);
  }

  /** Write a node and then rescan the directory whose forest names it: the write's own snapshot no longer
      restores to a graph that holds the node. */
  method WriteThenRescan(s: Store, id: string, payload: string, title: string, tokens: int, pairs: seq<Byte>,
                         flat: seq<C.FlatNode>, files: set<string>, root: string, morePairs: seq<Byte>, message: string)
    returns (w: Outcome, r: Outcome, ghost mid: Graph)
    requires s.Valid() && id != "" && root != ""
    requires C.DistinctIds(flat) && Hashed(s.hash, C.Tree(flat)) && id in C.Tree(flat)
    modifies s
    ensures s.Valid()
    ensures w.Committed? ==> mid == old(s.nodes)[id := old(s.WrittenNode(id, payload, title, tokens))]
    ensures w.Committed? && r.Committed? ==>
      w.id in s.snapshots && id in mid && id !in s.Goal(w.id)
  {
    HeadIsLive(s.hash, s.nodes, s.TheLog(), s.prior, s.trail);
    ghost var was := s.TheLog();
    w := s.Write(id, payload, title, tokens, pairs);
    mid := s.nodes;
    ghost var log := s.TheLog();
    HeadIsLive(s.hash, s.nodes, s.TheLog(), s.prior, s.trail);
    if w.Committed? {
      WriteIsUnderNoRoot(s.hash, was, s.nodes, s.TheLog(), s.prior, s.trail, root, id);
    }
    ghost var prev := s.PrevFor(files, true, root);
    ghost var ds, removed;
    r, ds, removed := s.Compile(flat, files, true, root, morePairs, message);
    if w.Committed? && r.Committed? {
      MissedAtHead(log, RowsFor(log.nextId, mid, ds), mid, ds, removed, flat, prev, id);
    }
  }

  // ---- the same directory twice ----

  /** Whatever the first load missed, the second one finds the forest as it is. */
  lemma SecondLoadIsEmpty(log: Log, snap: Snapshot, g: Graph, ds: seq<Delta>, removed: seq<string>,
                          flat: seq<C.FlatNode>, root: string, who: Identity)
    requires (forall r | r in log.diffs :: r.snapshot < log.nextId) && snap.compileRoot == root
    requires forall s | s in log.snapshots :: s < log.nextId
    requires Coherent(who) && Provenance(g, who) && Wired(C.Tree(flat), who) && "" !in g && C.DistinctIds(flat)
    requires var prev := R.ByRoot(g, log.diffs, Under(log, root));
      E.IsDiff(ds, removed, flat, prev) && E.NoCollisionWith(prev, C.Tree(flat))
    ensures var prev, tree := R.ByRoot(g, log.diffs, Under(log, root)), C.Tree(flat);
      var c, after := E.Compiled(g, tree, prev), Append(log, snap, RowsFor(log.nextId, g, ds));
      E.Agrees(c, tree) && E.EmptyDiff(tree, R.ByRoot(c, after.diffs, Under(after, root)))
  {
    var after := Append(log, snap, RowsFor(log.nextId, g, ds));
    assert Under(after, root) == Under(log, root) + {log.nextId};
    R.RecompileByRootIsEmpty(ds, removed, flat, g, log.diffs, Under(log, root), log.nextId, who);
  }

  /** When nothing is to change, the store agrees with the forest already. */
  lemma EmptyDiffAgrees(g: Graph, tree: Graph, prev: E.Prev)
    requires E.Loaded(prev, g) && E.NoCollisionWith(prev, tree) && E.EmptyDiff(tree, prev)
    ensures E.Agrees(g, tree)
  {
    E.EmptyDiffIff(tree, prev);
  }

  /** Rescan a directory twice. However much the first load misses, once the first compile went through
      the store agrees with the forest, and the second one makes no snapshot. */
  method RescanTwice(s: Store, digest: string -> UInt64, bs: seq<T.Batch>, ghost b: T.Batch, flat: seq<C.FlatNode>,
                     files: set<string>, root: string, pairs: seq<Byte>, morePairs: seq<Byte>, message: string)
    returns (r: Outcome, again: Outcome)
    requires s.Valid() && Fit(digest, bs) && Provenance(s.nodes, WhoOf(digest, bs)) && root != ""
    requires b in bs && IsFlatOf(flat, digest, b) && Hashed(s.hash, C.Tree(flat))
    requires E.NoCollisionWith(s.PrevFor(files, true, root), C.Tree(flat))
    requires C.DistinctIds(flat)
    modifies s
    ensures s.Valid()
    ensures !r.Failed? ==> E.Agrees(s.nodes, C.Tree(flat)) && again.NoDeltas?
    ensures r.Failed? <==> !E.EmptyDiff(C.Tree(flat), old(s.PrevFor(files, true, root))) && old(s.nextId) > MAX_ROWID
  {
    ghost var who, log, g, prev := WhoOf(digest, bs), s.TheLog(), s.nodes, s.PrevFor(files, true, root);
    WhoIsCoherent(digest, bs);
    BatchIsWired(digest, bs, b, flat);
    StoredHashes(s.hash, s.nodes, s.TheLog(), s.prior, s.trail);
    HeadIsLive(s.hash, s.nodes, s.TheLog(), s.prior, s.trail);
    ghost var ds, removed;
    r, ds, removed := s.Compile(flat, files, true, root, pairs, message);
    if r.Committed? {
      SecondLoadIsEmpty(log, s.snapshots[log.nextId], g, ds, removed, flat, root, who);
    } else if r.NoDeltas? {
      EmptyDiffAgrees(g, C.Tree(flat), prev);
    }
    again, ds, removed := s.Compile(flat, files, true, root, morePairs, message);
  }

  // ---- a store of one directory ----

  /** Every snapshot was made by compiling root, and every stored node has a row. */
  ghost predicate OnlyRoot(s: Store, root: string)
    reads s
  {
    && root != "" && Under(s.TheLog(), root) == s.snapshots.Keys
    && forall x | x in s.nodes :: R.LastUnder(s.diffs, s.snapshots.Keys, x)
  }

  /** Then the load takes every stored node, so it covers any forest. */
  lemma OnlyRootCovers(g: Graph, rows: seq<DiffRow>, ids: set<nat>, tree: Graph)
    requires forall x | x in g :: R.LastUnder(rows, ids, x)
    ensures Covers(g, tree, R.ByRoot(g, rows, ids))
  {
    WholeLoadCovers(g, tree, R.ByRoot(g, rows, ids));
  }

  lemma OnlyRootGrows(log: Log, snap: Snapshot, g: Graph, ds: seq<Delta>, h: Graph, root: string)
    requires (forall r | r in log.diffs :: r.snapshot < log.nextId) && snap.compileRoot == root
    requires Under(log, root) == log.snapshots.Keys
        && forall x | x in g :: R.LastUnder(log.diffs, log.snapshots.Keys, x)
    requires forall x | x in h :: x in g || x in IdsOf(ds)
    ensures var after := Append(log, snap, RowsFor(log.nextId, g, ds));
      && Under(after, root) == after.snapshots.Keys
      && forall x | x in h :: R.LastUnder(after.diffs, after.snapshots.Keys, x)
  {
    forall x | x in h
      ensures R.LastUnder(log.diffs + RowsFor(log.nextId, g, ds), log.snapshots.Keys + {log.nextId}, x)
    {
      R.LatestAfterCommit(log.diffs, log.nextId, g, ds, x);
    }
  }

  /** Rescan the one directory of a store: the record goes on, and the store stays of that directory. */
  method Rescan(s: Store, digest: string -> UInt64, bs: seq<T.Batch>, ghost b: T.Batch, flat: seq<C.FlatNode>,
                files: set<string>, root: string, pairs: seq<Byte>, message: string)
    returns (r: Outcome)
    requires D.Going(s, digest, bs) && OnlyRoot(s, root)
    requires b in bs && IsFlatOf(flat, digest, b) && Hashed(s.hash, C.Tree(flat))
    modifies s
    ensures D.Going(s, digest, bs) && D.Continues(s) && OnlyRoot(s, root)
    ensures !r.Failed? && E.NoCollisionWith(old(s.PrevFor(files, true, root)), C.Tree(flat)) ==>
      E.Agrees(s.nodes, C.Tree(flat))
    ensures r.Failed? ==> old(s.nextId) > MAX_ROWID && unchanged(s)
  {
    ghost var log, g, prev := s.TheLog(), s.nodes, s.PrevFor(files, true, root);
    HeadIsLive(s.hash, s.nodes, s.TheLog(), s.prior, s.trail);
    OnlyRootCovers(s.nodes, s.diffs, s.snapshots.Keys, C.Tree(flat));
    ghost var ds;
    r, ds := D.Compile(s, digest, bs, b, flat, files, true, root, pairs, message);
    if r.Committed? {
      OnlyRootGrows(log, s.snapshots[log.nextId], g, ds, s.nodes, root);
    } else if r.NoDeltas? && E.NoCollisionWith(prev, C.Tree(flat)) {
      EmptyDiffAgrees(g, C.Tree(flat), prev);
    }
  }

  // ---- the links of a compile ----

  /** The link step of a compile finds every node of the forest stored, so it never fails. */
  method Link(t: L.Tables, ghost g: Graph, ghost tree: Graph, ghost prev: E.Prev, ghost who: Identity,
              now: Graph, nodes: seq<L.SourceNode>)
    returns (ok: bool)
    requires Coherent(who) && Provenance(g, who) && Wired(tree, who) && "" !in g && E.Loaded(prev, g)
    requires now == E.Compiled(g, tree, prev) && forall n | n in nodes :: n.id in tree
    requires t.Valid(now)
    modifies t
    ensures t.Valid(now) && ok && t.View() == L.AfterRun(now, old(t.View()), nodes)
  {
    SweepSparesForest(g, tree, who, prev);
    ok := t.RunTx(now, nodes);
  }
}
