/** What committing a compile's diff does to the store, for either way of loading prev. */
module CompileEffects {
  import opened Order
  import opened Graphs
  import opened Deltas
  import opened History
  import opened Compiles
  import opened Wrappers

  type Prev = map<string, NodeState>

  /** prev was read off the stored nodes. */
  ghost predicate Loaded(prev: Prev, g: Graph) {
    forall x | x in prev :: x in g && prev[x] == NodeState(g[x].contentHash, g[x].content)
  }

  /** The forest's nodes the diff writes, tree being the forest as an id-keyed map. */
  function Changed(tree: Graph, prev: Prev): set<string> {
    set x | x in tree && ChangeFor(x, tree[x], prev).Some?
  }

  /** The stored nodes once the changed ones are written, nothing removed yet. */
  function Upserted(g: Graph, tree: Graph, prev: Prev): Graph {
    var changed := Changed(tree, prev);
    map x | x in g.Keys + changed :: if x in changed then tree[x] else g[x]
  }

  /** What the removals take: the removed nodes and everything stored below them. */
  function Swept(g: Graph, tree: Graph, prev: Prev): set<string> {
    var g1 := Upserted(g, tree, prev);
    Grow(g1, (prev.Keys - tree.Keys) * g1.Keys)
  }

  function Compiled(g: Graph, tree: Graph, prev: Prev): Graph {
    Upserted(g, tree, prev) - Swept(g, tree, prev)
  }

  ghost predicate IsDiff(ds: seq<Delta>, removed: seq<string>, flat: seq<FlatNode>, prev: Prev) {
    IsRemoved(removed, flat, prev) && ds == Changes(flat, prev) + RemovalDeltas(removed, prev)
  }

  lemma ChangedDeltas(flat: seq<FlatNode>, prev: Prev)
    requires DistinctIds(flat)
    ensures AllUpserts(Changes(flat, prev)) && Distinct(Changes(flat, prev))
    ensures InTree(Changes(flat, prev), Tree(flat))
    ensures IdsOf(Changes(flat, prev)) == Upserts(Changes(flat, prev), Tree(flat)) == Changed(Tree(flat), prev)
  {
    var tree := Tree(flat);
    ChangeMembers(flat, prev);
    forall x | x in Changed(tree, prev) ensures x in IdsOf(Changes(flat, prev)) {
      assert ChangeFor(x, tree[x], prev).value in Changes(flat, prev);
    }
    assert IdsOf(Changes(flat, prev)) <= Changed(tree, prev);
  }

  lemma RemovedDeltas(removed: seq<string>, flat: seq<FlatNode>, prev: Prev)
    requires IsRemoved(removed, flat, prev)
    ensures AllRemovals(RemovalDeltas(removed, prev)) && Distinct(RemovalDeltas(removed, prev))
    ensures IdsOf(RemovalDeltas(removed, prev)) == prev.Keys - Tree(flat).Keys
  {
    RemovalMembers(removed, prev);
    TreeHolds(flat);
    AscendingIsDistinct(removed, (x: string) => x);
  }

  lemma UpsertsReach(flat: seq<FlatNode>, prev: Prev, g: Graph)
    requires DistinctIds(flat)
    ensures Run(g, Changes(flat, prev), Tree(flat)) == Upserted(g, Tree(flat), prev)
  {
    var ups, tree := Changes(flat, prev), Tree(flat);
    ChangedDeltas(flat, prev);
    UpsertsAreSafe(g, ups, [], tree);
    assert ups + [] == ups;
    RunIsIntendedIff(g, ups, tree);
  }

  /** Committing the diff reaches exactly the swept upsert, whatever prev was. */
  lemma CompileReaches(ds: seq<Delta>, removed: seq<string>, flat: seq<FlatNode>, prev: Prev, g: Graph)
    requires DistinctIds(flat) && IsDiff(ds, removed, flat, prev)
    ensures Run(g, ds, Tree(flat)) == Compiled(g, Tree(flat), prev)
  {
    RemovedDeltas(removed, flat, prev);
    RunAppend(g, Changes(flat, prev), RemovalDeltas(removed, prev), Tree(flat));
    UpsertsReach(flat, prev, g);
    RemovalsTakeSubtrees(Upserted(g, Tree(flat), prev), RemovalDeltas(removed, prev), Tree(flat));
  }

  lemma CompileHonestIff(ds: seq<Delta>, removed: seq<string>, flat: seq<FlatNode>, prev: Prev, g: Graph)
    requires DistinctIds(flat) && IsDiff(ds, removed, flat, prev) && Loaded(prev, g)
    ensures Distinct(ds) && InTree(ds, Tree(flat))
    ensures Honest(g, ds, Tree(flat)) <==> Tree(flat).Keys * g.Keys <= prev.Keys
  {
    var tree := Tree(flat);
    ChangedDeltas(flat, prev);
    RemovedDeltas(removed, flat, prev);
    ChangeMembers(flat, prev);
    RemovalMembers(removed, prev);
    DisjointAppend(Changes(flat, prev), RemovalDeltas(removed, prev));
    forall x | x in tree && x !in prev ensures Delta(x, Add, "", tree[x].contentHash, "", tree[x].content) in ds {
      assert ChangeFor(x, tree[x], prev).value in Changes(flat, prev);
    }
  }

  /** Whatever was loaded, the deltas carry the values the forest has and the stored ones they replace. */
  lemma CompileTellsValues(ds: seq<Delta>, removed: seq<string>, flat: seq<FlatNode>, prev: Prev, g: Graph)
    requires DistinctIds(flat) && IsDiff(ds, removed, flat, prev) && Loaded(prev, g)
    ensures TrueValues(g, ds, Tree(flat))
  {
    ChangeMembers(flat, prev);
    RemovalMembers(removed, prev);
  }

  function IdsWith(ds: seq<Delta>, op: Op): set<string> {
    set d | d in ds && d.op == op :: d.id
  }

  /** ds is the diff of tree against the stored nodes of that set: it adds what is not among them, changes
      what is with another hash, and removes those of them that tree does not name. */
  ghost predicate DiffsAgainst(ds: seq<Delta>, tree: Graph, g: Graph, loaded: set<string>) {
    && IdsWith(ds, Add) == tree.Keys - loaded
    && IdsWith(ds, Mod) == (set x | x in tree && x in loaded && x in g && tree[x].contentHash != g[x].contentHash)
    && IdsWith(ds, Rem) == loaded - tree.Keys
  }

  lemma DiffIsAgainst(ds: seq<Delta>, removed: seq<string>, flat: seq<FlatNode>, prev: Prev, g: Graph)
    requires DistinctIds(flat) && IsDiff(ds, removed, flat, prev) && Loaded(prev, g)
    ensures DiffsAgainst(ds, Tree(flat), g, prev.Keys)
  {
    var tree, ups, rems := Tree(flat), Changes(flat, prev), RemovalDeltas(removed, prev);
    ChangeMembers(flat, prev);
    RemovalMembers(removed, prev);
    TreeHolds(flat);
    forall x | x in tree && ChangeFor(x, tree[x], prev).Some? ensures ChangeFor(x, tree[x], prev).value in ups {
      assert ChangeFor(x, tree[x], prev).value.id == x;
    }
    forall x | x in prev && x !in tree ensures Delta(x, Rem, prev[x].hash, "", prev[x].content, "") in rems {
      assert Delta(x, Rem, prev[x].hash, "", prev[x].content, "").id in removed;
    }
    OpsOf(ds, ups, rems, tree, g, prev);
  }

  lemma OpsOf(ds: seq<Delta>, ups: seq<Delta>, rems: seq<Delta>, tree: Graph, g: Graph, prev: Prev)
    requires ds == ups + rems && Loaded(prev, g)
    requires forall d :: d in ups <==> d.id in tree && ChangeFor(d.id, tree[d.id], prev) == Some(d)
    requires forall x | x in tree && ChangeFor(x, tree[x], prev).Some? :: ChangeFor(x, tree[x], prev).value in ups
    requires forall d | d in rems :: d.op == Rem && d.id in prev && d.id !in tree
    requires forall x | x in prev && x !in tree :: Delta(x, Rem, prev[x].hash, "", prev[x].content, "") in rems
    ensures DiffsAgainst(ds, tree, g, prev.Keys)
  {
    assert IdsWith(ds, Add) == IdsWith(ups, Add);
    assert IdsWith(ds, Mod) == IdsWith(ups, Mod);
    assert IdsWith(ds, Rem) == IdsWith(rems, Rem);
    assert forall x | x in prev && x !in tree :: Delta(x, Rem, prev[x].hash, "", prev[x].content, "").id == x;
    assert forall x | x in tree && ChangeFor(x, tree[x], prev).Some? :: ChangeFor(x, tree[x], prev).value.id == x;
  }

  lemma DisjointAppend(a: seq<Delta>, b: seq<Delta>)
    requires Distinct(a) && Distinct(b) && IdsOf(a) !! IdsOf(b)
    ensures Distinct(a + b)
  {
    forall i, j | 0 <= i < j < |a + b| ensures (a + b)[i].id != (a + b)[j].id {
      if i < |a| && j >= |a| {
        assert a[i].id in IdsOf(a) && b[j - |a|].id in IdsOf(b);
      }
    }
  }

  /** A compile is logged truthfully exactly when prev covers every stored node the forest
      names, and no node outside the removed set sits below a removed one. */
  lemma CompileFaithfulIff(ds: seq<Delta>, removed: seq<string>, flat: seq<FlatNode>, prev: Prev, g: Graph)
    requires DistinctIds(flat) && IsDiff(ds, removed, flat, prev) && Loaded(prev, g)
    requires "" !in g && Closed(Upserted(g, Tree(flat), prev))
    ensures Faithful(g, ds, Tree(flat)) <==>
              Tree(flat).Keys * g.Keys <= prev.Keys
              && ChildClosed(Upserted(g, Tree(flat), prev), prev.Keys - Tree(flat).Keys)
  {
    ChangedDeltas(flat, prev);
    RemovedDeltas(removed, flat, prev);
    CompileHonestIff(ds, removed, flat, prev, g);
    UpsertsReach(flat, prev, g);
    UpsertsAreSafe(g, Changes(flat, prev), RemovalDeltas(removed, prev), Tree(flat));
    RemovalsAreSafeIff(Upserted(g, Tree(flat), prev), RemovalDeltas(removed, prev), Tree(flat));
  }

  // ---- convergence ----

  /** The store holds the forest: each node present with its hash and content. */
  ghost predicate Agrees(g: Graph, tree: Graph) {
    forall x | x in tree :: x in g && g[x].contentHash == tree[x].contentHash && g[x].content == tree[x].content
  }

  ghost predicate NoCollisionWith(prev: Prev, tree: Graph) {
    forall x | x in tree && x in prev && prev[x].hash == tree[x].contentHash :: prev[x].content == tree[x].content
  }

  /** After the commit the store agrees with the forest on id, hash and content exactly when
      the sweep spared the forest; the removed ids are gone, and every node that is neither
      in the forest nor swept is untouched. */
  lemma CompileConvergesIff(tree: Graph, prev: Prev, g: Graph)
    requires Loaded(prev, g) && NoCollisionWith(prev, tree)
    ensures var c := Compiled(g, tree, prev);
      && (Agrees(c, tree) <==> tree.Keys !! Swept(g, tree, prev))
      && (prev.Keys - tree.Keys) !! c.Keys
      && (forall x | x !in tree && x !in Swept(g, tree, prev) :: Get(c, x) == Get(g, x))
  {
    var g1 := Upserted(g, tree, prev);
    assert Agrees(g1, tree);
    assert prev.Keys - tree.Keys <= g1.Keys;
  }

  ghost predicate EmptyDiff(tree: Graph, prev: Prev) {
    Changed(tree, prev) == {} && prev.Keys <= tree.Keys
  }

  lemma EmptyDiffIff(tree: Graph, prev: Prev)
    ensures EmptyDiff(tree, prev) <==>
              prev.Keys == tree.Keys && forall x | x in tree :: x in prev && prev[x].hash == tree[x].contentHash
  {
    if Changed(tree, prev) == {} {
      forall x | x in tree ensures x in prev && prev[x].hash == tree[x].contentHash {
        assert x !in Changed(tree, prev);
      }
    }
  }

  /** EmptyDiff is the diff coming out empty, which the emitter answers with no snapshot. */
  lemma EmptyDiffMeansNoDeltas(ds: seq<Delta>, removed: seq<string>, flat: seq<FlatNode>, prev: Prev)
    requires DistinctIds(flat) && IsDiff(ds, removed, flat, prev)
    ensures EmptyDiff(Tree(flat), prev) <==> ds == []
  {
    ChangedDeltas(flat, prev);
    RemovedDeltas(removed, flat, prev);
    NoIdsNoDeltas(Changes(flat, prev));
    NoIdsNoDeltas(RemovalDeltas(removed, prev));
    if !(prev.Keys <= Tree(flat).Keys) {
      var x :| x in prev.Keys && x !in Tree(flat).Keys;
      assert x in IdsOf(RemovalDeltas(removed, prev));
    }
  }

  lemma NoIdsNoDeltas(ds: seq<Delta>)
    ensures IdsOf(ds) == {} <==> ds == []
  {
    if ds != [] {
      IdsSplit(ds);
    }
  }

  /** SELECT by source_file IN files. */
  function ByFiles(g: Graph, files: set<string>): Prev {
    map x | x in g && g[x].sourceFile in files :: NodeState(g[x].contentHash, g[x].content)
  }

  /** Compiling the same files again finds nothing to do, so no second snapshot appears,
      exactly when the first compile converged. */
  lemma RecompileByFilesIsEmptyIff(tree: Graph, files: set<string>, g: Graph)
    requires NoCollisionWith(ByFiles(g, files), tree)
    requires forall x | x in tree :: tree[x].sourceFile in files
    ensures var prev := ByFiles(g, files);
      EmptyDiff(tree, ByFiles(Compiled(g, tree, prev), files)) <==> tree.Keys !! Swept(g, tree, prev)
  {
    var prev := ByFiles(g, files);
    var c := Compiled(g, tree, prev);
    var again := ByFiles(c, files);
    CompileConvergesIff(tree, prev, g);
    EmptyDiffIff(tree, again);
    if tree.Keys !! Swept(g, tree, prev) {
      forall x | x in tree ensures x in again && again[x].hash == tree[x].contentHash {
        assert x in Changed(tree, prev) || (x in prev && c[x] == g[x]);
      }
      forall x | x in again ensures x in tree {
        assert Get(c, x) == Some(c[x]);
      }
    }
  }
}
