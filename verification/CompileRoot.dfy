/** Loading prev by compile root: it converges, but it can misreport what it changed. */
module CompileRoots {
  import opened Graphs
  import opened Deltas
  import opened History
  import opened Trails
  import opened Compiles
  import opened CompileEffects
  import opened Provenances
  import opened Recoveries
  import opened Wrappers

  /** MAX(snapshot_id) over the node's rows. */
  function LatestSnapshot(rows: seq<DiffRow>, x: string): Option<nat> {
    if rows == [] then None
    else
      var front := LatestSnapshot(Front(rows), x);
      if Last(rows).id != x then front
      else if front.Some? && front.value > Last(rows).snapshot then front
      else Some(Last(rows).snapshot)
  }

  /** The stored nodes whose latest row was written under the compile root, under being
      the ids of the snapshots made with that root. */
  function ByRoot(g: Graph, rows: seq<DiffRow>, under: set<nat>): Prev {
    map x | x in g && LatestSnapshot(rows, x).Some? && LatestSnapshot(rows, x).value in under ::
      NodeState(g[x].contentHash, g[x].content)
  }

  /** x's last row is of one of these snapshots. */
  ghost predicate LastRowIn(rows: seq<DiffRow>, x: string, ids: set<nat>) {
    exists r :: r in rows && r.id == x && r.snapshot in ids
      && forall o | o in rows && o.id == x :: o.snapshot <= r.snapshot
  }

  lemma {:induction false} LatestIsLast(rows: seq<DiffRow>, x: string)
    ensures LatestSnapshot(rows, x).Some? <==> exists r :: r in rows && r.id == x
    ensures LatestSnapshot(rows, x).Some? ==>
      && (exists r :: r in rows && r.id == x && r.snapshot == LatestSnapshot(rows, x).value)
      && forall o | o in rows && o.id == x :: o.snapshot <= LatestSnapshot(rows, x).value
  {
    if rows != [] {
      LatestIsLast(Front(rows), x);
      assert rows == Front(rows) + [Last(rows)];
      assert Last(rows) in rows && forall r | r in Front(rows) :: r in rows;
    }
  }

  /** Loading by compile root finds exactly the stored nodes whose last row is under the root. */
  lemma ByRootFinds(g: Graph, rows: seq<DiffRow>, under: set<nat>)
    ensures ByRoot(g, rows, under).Keys == set x | x in g && LastRowIn(rows, x, under)
  {
    forall x ensures x in ByRoot(g, rows, under) <==> x in g && LastRowIn(rows, x, under) {
      LatestIsLast(rows, x);
    }
  }

  lemma {:induction false} LatestAppend(rows: seq<DiffRow>, more: seq<DiffRow>, snapshot: nat, x: string)
    requires forall r | r in rows :: r.snapshot < snapshot
    requires forall r | r in more :: r.snapshot == snapshot
    ensures LatestSnapshot(rows + more, x) ==
            if exists r :: r in more && r.id == x then Some(snapshot) else LatestSnapshot(rows, x)
    ensures LatestSnapshot(rows + more, x).Some? ==> LatestSnapshot(rows + more, x).value <= snapshot
    decreases |rows| + |more|
  {
    if more == [] {
      assert rows + more == rows;
      if rows != [] {
        LatestAppend(Front(rows), [], snapshot, x);
        assert Front(rows) + [] == Front(rows);
      }
    } else {
      assert Front(rows + more) == rows + Front(more);
      assert more == Front(more) + [Last(more)];
      LatestAppend(rows, Front(more), snapshot, x);
    }
  }

  lemma LatestAfterCommit(rows: seq<DiffRow>, snapshot: nat, g: Graph, ds: seq<Delta>, x: string)
    requires forall r | r in rows :: r.snapshot < snapshot
    ensures LatestSnapshot(rows + RowsFor(snapshot, g, ds), x) ==
            if x in IdsOf(ds) then Some(snapshot) else LatestSnapshot(rows, x)
  {
    RowMembers(snapshot, g, ds);
    RowIds(snapshot, g, ds, x);
    LatestAppend(rows, RowsFor(snapshot, g, ds), snapshot, x);
  }

  /** After a compile's commit, the nodes it touched are dated by it, all others as before. */
  lemma LatestAfterCompile(rows: seq<DiffRow>, snapshot: nat, g: Graph, ds: seq<Delta>, removed: seq<string>,
                           flat: seq<FlatNode>, prev: Prev)
    requires DistinctIds(flat) && IsDiff(ds, removed, flat, prev)
    requires forall r | r in rows :: r.snapshot < snapshot
    ensures forall x :: LatestSnapshot(rows + RowsFor(snapshot, g, ds), x) ==
              if x in Changed(Tree(flat), prev) || (x in prev && x !in Tree(flat)) then Some(snapshot)
              else LatestSnapshot(rows, x)
    ensures forall x :: LatestSnapshot(rows, x) != Some(snapshot)
  {
    DiffIds(ds, removed, flat, prev);
    LatestIsOld(rows, snapshot);
    forall x ensures LatestSnapshot(rows + RowsFor(snapshot, g, ds), x) ==
        if x in IdsOf(ds) then Some(snapshot) else LatestSnapshot(rows, x) {
      LatestAfterCommit(rows, snapshot, g, ds, x);
    }
  }

  /** Compiling the same root again finds nothing to do exactly when the first compile
      converged, although prev may have missed nodes. */
  lemma RecompileByRootIsEmptyIff(ds: seq<Delta>, removed: seq<string>, flat: seq<FlatNode>,
                                  g: Graph, rows: seq<DiffRow>, under: set<nat>, snapshot: nat)
    requires DistinctIds(flat) && IsDiff(ds, removed, flat, ByRoot(g, rows, under))
    requires NoCollisionWith(ByRoot(g, rows, under), Tree(flat))
    requires (forall r | r in rows :: r.snapshot < snapshot) && snapshot !in under
    ensures var prev, tree := ByRoot(g, rows, under), Tree(flat);
      EmptyDiff(tree, ByRoot(Compiled(g, tree, prev), rows + RowsFor(snapshot, g, ds), under + {snapshot}))
      <==> tree.Keys !! Swept(g, tree, prev)
  {
    var prev, tree := ByRoot(g, rows, under), Tree(flat);
    var c, rows' := Compiled(g, tree, prev), rows + RowsFor(snapshot, g, ds);
    var again := ByRoot(c, rows', under + {snapshot});
    LatestAfterCompile(rows, snapshot, g, ds, removed, flat, prev);
    CompileConvergesIff(tree, prev, g);
    EmptyDiffIff(tree, again);
    if tree.Keys !! Swept(g, tree, prev) {
      forall x | x in tree ensures x in again && again[x].hash == tree[x].contentHash {
        assert x in Changed(tree, prev) || (x in prev && c[x] == g[x]);
      }
      forall x | x in again ensures x in tree {
        assert Get(c, x) == Some(c[x]);
      }
    }
  }

  lemma DiffIds(ds: seq<Delta>, removed: seq<string>, flat: seq<FlatNode>, prev: Prev)
    requires DistinctIds(flat) && IsDiff(ds, removed, flat, prev)
    ensures IdsOf(ds) == Changed(Tree(flat), prev) + (prev.Keys - Tree(flat).Keys)
  {
    ChangedDeltas(flat, prev);
    RemovedDeltas(removed, flat, prev);
    assert IdsOf(ds) == IdsOf(Changes(flat, prev)) + IdsOf(RemovalDeltas(removed, prev));
  }

  lemma LatestIsOld(rows: seq<DiffRow>, snapshot: nat)
    requires forall r | r in rows :: r.snapshot < snapshot
    ensures forall x | LatestSnapshot(rows, x).Some? :: LatestSnapshot(rows, x).value < snapshot
  {
    if rows != [] {
      LatestIsOld(Front(rows), snapshot);
    }
  }

  // ---- the misreported add ----

  /** A stored node that the forest names but prev missed is logged as an add. The commit is not
      truthful, and walking back across it loses the node. */
  lemma MissedNodeIsLost(ds: seq<Delta>, removed: seq<string>, flat: seq<FlatNode>, g: Graph,
                         prev: Prev, snapshot: nat, x: string)
    requires DistinctIds(flat) && IsDiff(ds, removed, flat, prev) && Loaded(prev, g)
    requires x in Tree(flat) && x in g && x !in prev
    ensures !Faithful(g, ds, Tree(flat))
    ensures x !in Undo(RowsFor(snapshot, g, ds), Restored(Run(g, ds, Tree(flat)), [])).nodes
  {
    var tree := Tree(flat);
    CompileHonestIff(ds, removed, flat, prev, g);
    assert x in tree.Keys * g.Keys;
    ChangeMembers(flat, prev);
    var d := ChangeFor(x, tree[x], prev).value;
    RowMembers(snapshot, g, ds);
    UndoneByItsRow(RowsFor(snapshot, g, ds), Restored(Run(g, ds, tree), []), RowFor(snapshot, PreState(g, ds), d));
  }

  /** By-root loading misses a node whose latest row was written under no compile root, as a write's is. */
  lemma WrittenNodeIsLost(ds: seq<Delta>, removed: seq<string>, flat: seq<FlatNode>, g: Graph,
                          rows: seq<DiffRow>, under: set<nat>, snapshot: nat, x: string)
    requires DistinctIds(flat) && IsDiff(ds, removed, flat, ByRoot(g, rows, under))
    requires x in Tree(flat) && x in g
    requires LatestSnapshot(rows, x).Some? ==> LatestSnapshot(rows, x).value !in under
    ensures !Faithful(g, ds, Tree(flat))
    ensures x !in Undo(RowsFor(snapshot, g, ds), Restored(Run(g, ds, Tree(flat)), [])).nodes
  {
    MissedNodeIsLost(ds, removed, flat, g, ByRoot(g, rows, under), snapshot, x);
  }

  /** By-file loading misses a node stored in another file: one written under the structural id of a
      forgotten node stands in the file of writes. */
  lemma AnchoredWriteIsLost(ds: seq<Delta>, removed: seq<string>, flat: seq<FlatNode>, g: Graph,
                            files: set<string>, snapshot: nat, x: string)
    requires DistinctIds(flat) && IsDiff(ds, removed, flat, ByFiles(g, files))
    requires x in Tree(flat) && x in g && g[x].sourceFile == WRITTEN && WRITTEN !in files
    ensures !Faithful(g, ds, Tree(flat))
    ensures x !in Undo(RowsFor(snapshot, g, ds), Restored(Run(g, ds, Tree(flat)), [])).nodes
  {
    MissedNodeIsLost(ds, removed, flat, g, ByFiles(g, files), snapshot, x);
  }

  // ---- structural stores ----

  /** From a store whose ids are structural, walking back over a compile gives the graph it found exactly
      when prev covered the forest, which is exactly when the compile was logged truthfully. */
  lemma CompileUndoneIff(ds: seq<Delta>, removed: seq<string>, flat: seq<FlatNode>, g: Graph, prev: Prev,
                         snapshot: nat, who: Identity)
    requires Coherent(who) && Provenance(g, who) && Wired(Tree(flat), who) && Closed(g) && "" !in g
    requires DistinctIds(flat) && IsDiff(ds, removed, flat, prev) && Loaded(prev, g)
    ensures Undo(RowsFor(snapshot, g, ds), Restored(Run(g, ds, Tree(flat)), [])) == Restored(g, [])
            <==> Covers(g, Tree(flat), prev)
    ensures Faithful(g, ds, Tree(flat)) <==> Covers(g, Tree(flat), prev)
  {
    var tree, h := Tree(flat), Run(g, ds, Tree(flat));
    CompileFaithfulIffCovers(ds, removed, flat, prev, g, who);
    if Covers(g, tree, prev) {
      FaithfulLinks(snapshot, g, ds, tree);
      UndoLinks(g, h, RowsFor(snapshot, g, ds), []);
    }
    if Undo(RowsFor(snapshot, g, ds), Restored(h, [])) == Restored(g, []) {
      forall x | x in tree && x in g ensures x in prev {
        if x !in prev {
          MissedNodeIsLost(ds, removed, flat, g, prev, snapshot, x);
        }
      }
      CompileHonestIff(ds, removed, flat, prev, g);
      UndoRecoversIff(g, ds, tree, snapshot);
      forall x | x in g && x !in tree && g[x].parent in prev && g[x].parent !in tree ensures x in prev {
        KeptIsCovered(ds, removed, flat, g, prev, x);
      }
    }
  }

  /** What hangs right below a dropped node goes with it, unless the forest names it. */
  lemma DroppedWithParent(g: Graph, tree: Graph, prev: Prev, x: string)
    requires prev.Keys <= g.Keys && x in g && x !in tree && g[x].parent in prev && g[x].parent !in tree
    ensures x !in Compiled(g, tree, prev)
  {
    var g1 := Upserted(g, tree, prev);
    assert g[x].parent in (prev.Keys - tree.Keys) * g1.Keys;
    assert x in ChildrenOf(g1, Swept(g, tree, prev));
  }

  /** If every stored node is left or logged as removed, none outside prev hung below a dropped one. */
  lemma KeptIsCovered(ds: seq<Delta>, removed: seq<string>, flat: seq<FlatNode>, g: Graph, prev: Prev, x: string)
    requires DistinctIds(flat) && IsDiff(ds, removed, flat, prev) && prev.Keys <= g.Keys
    requires x in g && x !in Tree(flat) && g[x].parent in prev && g[x].parent !in Tree(flat)
    requires x in Run(g, ds, Tree(flat)) || LogsRemoval(ds, x)
    ensures x in prev
  {
    CompileReaches(ds, removed, flat, prev, g);
    DiffIds(ds, removed, flat, prev);
    DroppedWithParent(g, Tree(flat), prev, x);
    assert x in IdsOf(ds);
  }

  /** Walking back over a by-file compile gives the graph it found exactly when all of its forest that is
      stored is in the files loaded, and so is everything right below a node of theirs that it drops. Unless
      the writes' own file is among them, that is when no write stands under an id of the forest. */
  lemma FileCompileUndoneIff(ds: seq<Delta>, removed: seq<string>, flat: seq<FlatNode>, g: Graph,
                             files: set<string>, snapshot: nat, who: Identity)
    requires Coherent(who) && Provenance(g, who) && Wired(Tree(flat), who) && Closed(g) && "" !in g
    requires DistinctIds(flat) && IsDiff(ds, removed, flat, ByFiles(g, files))
    requires forall x | x in Tree(flat) :: Tree(flat)[x].sourceFile in files
    ensures Undo(RowsFor(snapshot, g, ds), Restored(Run(g, ds, Tree(flat)), [])) == Restored(g, [])
            <==> AllInFiles(g, Tree(flat), files)
    ensures WRITTEN !in files ==>
      (AllInFiles(g, Tree(flat), files) <==> forall x | x in Tree(flat) && x in g :: g[x].sourceFile != WRITTEN)
  {
    CompileUndoneIff(ds, removed, flat, g, ByFiles(g, files), snapshot, who);
    ByFilesCoversIff(g, Tree(flat), files, who);
  }

  ghost predicate LastUnder(rows: seq<DiffRow>, under: set<nat>, x: string) {
    LatestSnapshot(rows, x).Some? && LatestSnapshot(rows, x).value in under
  }

  /** Walking back over a directory compile gives the graph it found exactly when every stored node its
      forest names was last written under the same root, and so was everything right below a node of that
      root that the forest drops. */
  lemma RootCompileUndoneIff(ds: seq<Delta>, removed: seq<string>, flat: seq<FlatNode>, g: Graph,
                             rows: seq<DiffRow>, under: set<nat>, snapshot: nat, who: Identity)
    requires Coherent(who) && Provenance(g, who) && Wired(Tree(flat), who) && Closed(g) && "" !in g
    requires DistinctIds(flat) && IsDiff(ds, removed, flat, ByRoot(g, rows, under))
    ensures Undo(RowsFor(snapshot, g, ds), Restored(Run(g, ds, Tree(flat)), [])) == Restored(g, []) <==>
            && (forall x | x in Tree(flat) && x in g :: LastUnder(rows, under, x))
            && forall x | x in g && x !in Tree(flat) && g[x].parent in g && g[x].parent !in Tree(flat) ::
                 LastUnder(rows, under, g[x].parent) ==> LastUnder(rows, under, x)
  {
    var prev := ByRoot(g, rows, under);
    CompileUndoneIff(ds, removed, flat, g, prev, snapshot, who);
    RootCoversIff(g, Tree(flat), rows, under);
  }

  lemma RootCoversIff(g: Graph, tree: Graph, rows: seq<DiffRow>, under: set<nat>)
    ensures Covers(g, tree, ByRoot(g, rows, under)) <==>
            && (forall x | x in tree && x in g :: LastUnder(rows, under, x))
            && forall x | x in g && x !in tree && g[x].parent in g && g[x].parent !in tree ::
                 LastUnder(rows, under, g[x].parent) ==> LastUnder(rows, under, x)
  {
    var prev := ByRoot(g, rows, under);
    assert forall x | x in g :: x in prev <==> LastUnder(rows, under, x);
    assert tree.Keys * g.Keys <= prev.Keys <==> forall x | x in tree && x in g :: x in prev;
  }

  /** From a store whose ids are structural, compiling the same root again always finds nothing to do. */
  lemma RecompileByRootIsEmpty(ds: seq<Delta>, removed: seq<string>, flat: seq<FlatNode>, g: Graph,
                               rows: seq<DiffRow>, under: set<nat>, snapshot: nat, who: Identity)
    requires DistinctIds(flat) && IsDiff(ds, removed, flat, ByRoot(g, rows, under))
    requires NoCollisionWith(ByRoot(g, rows, under), Tree(flat))
    requires (forall r | r in rows :: r.snapshot < snapshot) && snapshot !in under
    requires Coherent(who) && Provenance(g, who) && Wired(Tree(flat), who) && "" !in g
    ensures var c := Compiled(g, Tree(flat), ByRoot(g, rows, under));
      && Agrees(c, Tree(flat))
      && EmptyDiff(Tree(flat), ByRoot(c, rows + RowsFor(snapshot, g, ds), under + {snapshot}))
  {
    RecompileByRootIsEmptyIff(ds, removed, flat, g, rows, under, snapshot);
    CompileConverges(g, Tree(flat), who, ByRoot(g, rows, under));
    SweepSparesForest(g, Tree(flat), who, ByRoot(g, rows, under));
  }

  /** And so does compiling the same files again. */
  lemma RecompileByFilesIsEmpty(tree: Graph, files: set<string>, g: Graph, who: Identity)
    requires NoCollisionWith(ByFiles(g, files), tree) && forall x | x in tree :: tree[x].sourceFile in files
    requires Coherent(who) && Provenance(g, who) && Wired(tree, who) && "" !in g
    ensures var c := Compiled(g, tree, ByFiles(g, files)); Agrees(c, tree) && EmptyDiff(tree, ByFiles(c, files))
  {
    RecompileByFilesIsEmptyIff(tree, files, g);
    CompileConverges(g, tree, who, ByFiles(g, files));
    SweepSparesForest(g, tree, who, ByFiles(g, files));
  }
}
