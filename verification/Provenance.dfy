/** Graphs whose ids are structural: an id fixes its file and its chain of enclosing nodes. */
module Provenances {
  import opened Graphs
  import opened Deltas
  import opened History
  import opened Compiles
  import opened CompileEffects
  import opened Forgets
  import opened Wrappers

  /** origin is the file an id was hashed from; lineage its enclosing ids, nearest first.
      Both are functions of the id because the id hash is injective. */
  datatype Identity = Identity(origin: string -> string, lineage: string -> seq<string>)

  ghost predicate Coherent(who: Identity) {
    forall x, k | 0 <= k < |who.lineage(x)| ::
      && who.lineage(who.lineage(x)[k]) == who.lineage(x)[k + 1..]
      && who.origin(who.lineage(x)[k]) == who.origin(x)
  }

  /** A root that a write made, whatever its id, or a node in the file its id was hashed from and
      below some enclosing id. */
  predicate Belongs(who: Identity, x: string, file: string, parent: string) {
    || (file == WRITTEN && parent == "")
    || (file == who.origin(x) && (parent == "" || parent in who.lineage(x)))
  }

  ghost predicate Provenance(g: Graph, who: Identity) {
    forall x | x in g :: Belongs(who, x, g[x].sourceFile, g[x].parent)
  }

  /** A wired forest: every parent is the nearest enclosing id and comes with the forest. */
  ghost predicate Wired(tree: Graph, who: Identity) {
    forall x | x in tree :: NodeIsWired(tree, who, x)
  }

  ghost predicate NodeIsWired(tree: Graph, who: Identity, x: string)
    requires x in tree
  {
    && tree[x].sourceFile == who.origin(x)
    && if tree[x].parent == "" then who.lineage(x) == []
       else who.lineage(x) != [] && who.lineage(x)[0] == tree[x].parent && tree[x].parent in tree
  }

  lemma {:induction false} LineageIsWired(tree: Graph, who: Identity, x: string)
    requires Coherent(who) && Wired(tree, who) && x in tree
    ensures forall a | a in who.lineage(x) :: a in tree
    decreases |who.lineage(x)|
  {
    if tree[x].parent != "" {
      var p := tree[x].parent;
      assert who.lineage(p) == who.lineage(x)[1..];
      LineageIsWired(tree, who, p);
      forall a | a in who.lineage(x) ensures a in tree {
        assert a == p || a in who.lineage(x)[1..];
      }
    }
  }

  lemma LineageSameFile(who: Identity, x: string, a: string)
    requires Coherent(who) && a in who.lineage(x)
    ensures who.origin(a) == who.origin(x)
    ensures |who.lineage(a)| < |who.lineage(x)|
    ensures forall b | b in who.lineage(a) :: b in who.lineage(x)
  {
    var k :| 0 <= k < |who.lineage(x)| && who.lineage(x)[k] == a;
    assert who.lineage(a) == who.lineage(x)[k + 1..];
  }

  /** Structural ids rule out cycles. */
  lemma ProvenanceIsAcyclic(g: Graph, who: Identity)
    requires Coherent(who) && Provenance(g, who) && "" !in g
    ensures AcyclicBy(g, (x: string) => |who.lineage(x)|)
  {
    forall x | x in g && g[x].parent in g ensures |who.lineage(g[x].parent)| < |who.lineage(x)| {
      LineageSameFile(who, x, g[x].parent);
    }
  }

  lemma WiredUpsertIsClosed(g: Graph, tree: Graph, who: Identity, prev: Prev)
    requires Closed(g) && Wired(tree, who) && prev.Keys <= g.Keys
    ensures Closed(Upserted(g, tree, prev))
  {
    var g1 := Upserted(g, tree, prev);
    forall x | x in g1 ensures g1[x].parent == "" || g1[x].parent in g1 {
      if x in Changed(tree, prev) && tree[x].parent != "" {
        var p := tree[x].parent;
        assert p in Changed(tree, prev) || p in prev;
      }
    }
  }

  /** However prev was loaded, the removals never reach a wired forest: no node of it sits below a
      node that is leaving. */
  lemma SweepSparesForest(g: Graph, tree: Graph, who: Identity, prev: Prev)
    requires Coherent(who) && Provenance(g, who) && Wired(tree, who) && Loaded(prev, g) && "" !in g
    ensures tree.Keys !! Swept(g, tree, prev)
  {
    var g1 := Upserted(g, tree, prev);
    var others := g1.Keys - tree.Keys;
    forall x | x in ChildrenOf(g1, others) ensures x in others {
      if x in tree {
        LineageIsWired(tree, who, x);
      }
    }
    GrowIsLeast(g1, (prev.Keys - tree.Keys) * g1.Keys, others);
  }

  /** So every compile of a wired forest converges, by file or by compile root: the store then agrees
      with the forest, and of the other nodes only those removed, or below one removed, are gone. */
  lemma CompileConverges(g: Graph, tree: Graph, who: Identity, prev: Prev)
    requires Coherent(who) && Provenance(g, who) && Wired(tree, who) && "" !in g
    requires Loaded(prev, g) && NoCollisionWith(prev, tree)
    ensures var c := Compiled(g, tree, prev);
      && Agrees(c, tree) && (prev.Keys - tree.Keys) !! c.Keys
      && forall x | x !in tree && x !in Swept(g, tree, prev) :: Get(c, x) == Get(g, x)
  {
    SweepSparesForest(g, tree, who, prev);
    CompileConvergesIff(tree, prev, g);
  }

  /** prev holds every stored node the forest names, and with each node the forest drops everything
      stored right below it that the forest does not name. */
  ghost predicate Covers(g: Graph, tree: Graph, prev: Prev) {
    && tree.Keys * g.Keys <= prev.Keys
    && forall x | x in g && x !in tree && g[x].parent in prev && g[x].parent !in tree :: x in prev
  }

  /** For a wired forest that is what keeps the removals from stranding a node. */
  lemma CoversIff(g: Graph, tree: Graph, who: Identity, prev: Prev)
    requires Coherent(who) && Provenance(g, who) && Wired(tree, who) && "" !in g && prev.Keys <= g.Keys
    ensures Covers(g, tree, prev) <==>
            tree.Keys * g.Keys <= prev.Keys && ChildClosed(Upserted(g, tree, prev), prev.Keys - tree.Keys)
  {
    var g1, gone := Upserted(g, tree, prev), prev.Keys - tree.Keys;
    forall x | x in ChildrenOf(g1, gone) ensures x in g && x !in tree && g1[x] == g[x] {
      if x in tree {
        LineageIsWired(tree, who, x);
      }
    }
    forall x | x in g && x !in tree && g[x].parent in gone ensures x in ChildrenOf(g1, gone) {
    }
  }

  /** A compile of a wired forest is logged truthfully exactly when prev covers it. */
  lemma CompileFaithfulIffCovers(ds: seq<Delta>, removed: seq<string>, flat: seq<FlatNode>, prev: Prev, g: Graph,
                                 who: Identity)
    requires Coherent(who) && Provenance(g, who) && Wired(Tree(flat), who) && Closed(g) && "" !in g
    requires DistinctIds(flat) && IsDiff(ds, removed, flat, prev) && Loaded(prev, g)
    ensures Faithful(g, ds, Tree(flat)) <==> Covers(g, Tree(flat), prev)
  {
    WiredUpsertIsClosed(g, Tree(flat), who, prev);
    CompileFaithfulIff(ds, removed, flat, prev, g);
    CoversIff(g, Tree(flat), who, prev);
  }

  /** Everything of the forest that is stored is stored in one of these files, and so is everything right
      below a node of theirs that the forest drops. */
  ghost predicate AllInFiles(g: Graph, tree: Graph, files: set<string>) {
    && (forall x | x in tree && x in g :: g[x].sourceFile in files)
    && forall x | x in g && x !in tree && g[x].parent in g && g[x].parent !in tree ::
         g[g[x].parent].sourceFile in files ==> g[x].sourceFile in files
  }

  /** Loading prev by file covers a wired forest of those files exactly when no write stands under one of
      its ids. */
  lemma ByFilesCoversIff(g: Graph, tree: Graph, files: set<string>, who: Identity)
    requires Coherent(who) && Provenance(g, who) && Wired(tree, who) && "" !in g
    requires forall x | x in tree :: tree[x].sourceFile in files
    ensures Covers(g, tree, ByFiles(g, files)) <==> AllInFiles(g, tree, files)
    ensures WRITTEN !in files ==>
      (AllInFiles(g, tree, files) <==> forall x | x in tree && x in g :: g[x].sourceFile != WRITTEN)
  {
    assert forall x | x in g :: x in ByFiles(g, files) <==> g[x].sourceFile in files;
    assert tree.Keys * g.Keys <= ByFiles(g, files).Keys <==> forall x | x in tree && x in g :: x in ByFiles(g, files);
    forall x | x in g && g[x].parent in g
      ensures WRITTEN !in files && g[g[x].parent].sourceFile in files ==> g[x].sourceFile in files
    {
      LineageSameFile(who, x, g[x].parent);
    }
  }

  /** A by-file compile of a wired forest is truthful exactly then, and convergent always. */
  lemma ByFileCompileIsFaithfulIff(ds: seq<Delta>, removed: seq<string>, flat: seq<FlatNode>,
                                   files: set<string>, g: Graph, who: Identity)
    requires Coherent(who) && Provenance(g, who) && Wired(Tree(flat), who) && Closed(g) && "" !in g
    requires DistinctIds(flat) && IsDiff(ds, removed, flat, ByFiles(g, files))
    requires forall x | x in Tree(flat) :: Tree(flat)[x].sourceFile in files
    ensures Faithful(g, ds, Tree(flat)) <==> AllInFiles(g, Tree(flat), files)
    ensures Tree(flat).Keys !! Swept(g, Tree(flat), ByFiles(g, files))
  {
    var tree, prev := Tree(flat), ByFiles(g, files);
    ByFilesCoversIff(g, tree, files, who);
    CompileFaithfulIffCovers(ds, removed, flat, prev, g, who);
    SweepSparesForest(g, tree, who, prev);
  }

  /** A by-file compile states the stored values truthfully exactly when every stored node the forest
      names is stored in one of the compiled files. */
  lemma ByFileHonestIff(ds: seq<Delta>, removed: seq<string>, flat: seq<FlatNode>, files: set<string>, g: Graph)
    requires DistinctIds(flat) && IsDiff(ds, removed, flat, ByFiles(g, files))
    ensures Honest(g, ds, Tree(flat)) <==> forall x | x in Tree(flat) && x in g :: g[x].sourceFile in files
  {
    CompileHonestIff(ds, removed, flat, ByFiles(g, files), g);
    assert forall x | x in Tree(flat) && x in g :: x in ByFiles(g, files) <==> g[x].sourceFile in files;
    if Honest(g, ds, Tree(flat)) {
      forall x | x in Tree(flat) && x in g ensures g[x].sourceFile in files {
        assert x in Tree(flat).Keys * g.Keys;
      }
    }
  }

  lemma CompileKeepsProvenance(g: Graph, tree: Graph, who: Identity, prev: Prev)
    requires Coherent(who) && Provenance(g, who) && Wired(tree, who)
    ensures Provenance(Compiled(g, tree, prev), who)
  {
    var g1 := Upserted(g, tree, prev);
    forall x | x in g1 ensures Belongs(who, x, g1[x].sourceFile, g1[x].parent) {
      if x in Changed(tree, prev) && tree[x].parent != "" {
        assert who.lineage(x)[0] == tree[x].parent;
      }
    }
  }

  lemma ForgetKeepsProvenance(g: Graph, id: string, mode: Mode, who: Identity)
    requires Coherent(who) && Provenance(g, who) && id in g && id != ""
    ensures Provenance(Forgotten(g, id, mode), who)
  {
    forall x | x in g && g[x].parent == id ensures g[id].parent == "" || g[id].parent in who.lineage(x) {
      LineageSameFile(who, x, id);
    }
  }

  function InFiles(g: Graph, files: set<string>): set<string> {
    set x | x in g && g[x].sourceFile in files
  }

  /** Nothing stored hangs below a node of a purged file without being of one itself, except below a write. */
  lemma FilesAreClosed(g: Graph, files: set<string>, who: Identity)
    requires Coherent(who) && Provenance(g, who) && "" !in g && WRITTEN !in files
    ensures ChildClosed(g, InFiles(g, files))
  {
    forall x | x in ChildrenOf(g, InFiles(g, files)) ensures x in InFiles(g, files) {
      LineageSameFile(who, x, g[x].parent);
    }
  }

  /** The compile took the loaded nodes the forest does not name, and left every other node it does not
      name as it was. */
  ghost predicate LeavesTheRest(g: Graph, after: Graph, tree: Graph, loaded: set<string>) {
    forall x | x !in tree :: Get(after, x) == if x in loaded then None else Get(g, x)
  }

  lemma ExactSweepLeavesTheRest(g: Graph, tree: Graph, prev: Prev)
    requires prev.Keys <= g.Keys && ChildClosed(Upserted(g, tree, prev), prev.Keys - tree.Keys)
    ensures LeavesTheRest(g, Compiled(g, tree, prev), tree, prev.Keys)
  {
    var g1 := Upserted(g, tree, prev);
    assert (prev.Keys - tree.Keys) * g1.Keys == prev.Keys - tree.Keys;
    GrowIsLeast(g1, prev.Keys - tree.Keys, prev.Keys - tree.Keys);
  }

  /** A by-file compile of a wired forest removes the nodes of those files that the forest dropped, and
      touches no node of any other file but the forest's own. */
  lemma ByFilesLeaveTheRest(g: Graph, tree: Graph, files: set<string>, who: Identity)
    requires Coherent(who) && Provenance(g, who) && Wired(tree, who) && "" !in g && WRITTEN !in files
    ensures LeavesTheRest(g, Compiled(g, tree, ByFiles(g, files)), tree, set x | x in g && g[x].sourceFile in files)
  {
    var prev := ByFiles(g, files);
    var g1, gone := Upserted(g, tree, prev), prev.Keys - tree.Keys;
    FilesAreClosed(g, files, who);
    forall x | x in ChildrenOf(g1, gone) ensures x in gone {
      if x in tree {
        LineageIsWired(tree, who, x);
      } else {
        assert x in ChildrenOf(g, InFiles(g, files));
      }
    }
    ExactSweepLeavesTheRest(g, tree, prev);
    assert prev.Keys == set x | x in g && g[x].sourceFile in files;
  }

  /** So does any compile over a load that covers its forest, whatever was loaded. */
  lemma CoveredLeavesTheRest(g: Graph, tree: Graph, who: Identity, prev: Prev)
    requires Coherent(who) && Provenance(g, who) && Wired(tree, who) && "" !in g && prev.Keys <= g.Keys
    requires Covers(g, tree, prev)
    ensures LeavesTheRest(g, Compiled(g, tree, prev), tree, prev.Keys)
  {
    CoversIff(g, tree, who, prev);
    ExactSweepLeavesTheRest(g, tree, prev);
  }

  /** A purge takes the subtrees of its nodes. It is truthful exactly when that is those nodes alone, as it
      is of any files but that of writes. */
  lemma PurgeIsFaithfulIff(ds: seq<Delta>, files: set<string>, g: Graph, who: Identity)
    requires Coherent(who) && Provenance(g, who) && Closed(g) && "" !in g
    requires AreRemovals(g, ds) && IdsOf(ds) == InFiles(g, files)
    ensures Run(g, ds, map[]) == g - Grow(g, IdsOf(ds))
    ensures Faithful(g, ds, map[]) <==> ChildClosed(g, InFiles(g, files))
    ensures WRITTEN !in files ==> Faithful(g, ds, map[]) && Run(g, ds, map[]) == g - IdsOf(ds)
  {
    RemovalsAreFaithfulIff(g, ds);
    if WRITTEN !in files {
      FilesAreClosed(g, files, who);
      GrowIsLeast(g, IdsOf(ds), IdsOf(ds));
    }
  }
}
