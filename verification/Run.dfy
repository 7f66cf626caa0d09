/** Whole runs: any sequence of commits from the empty store, and when the log walks back over it
    exactly. A run compiles forests of some batches bs, whose ids are hashed with the digest. */
module Runs {
  import opened Graphs
  import opened Deltas
  import opened History
  import opened Trails
  import opened Query
  import opened States
  import opened Recoveries
  import opened Rollbacks
  import opened Forgets
  import opened Provenances
  import opened ContentId
  import opened Lineages
  import T = Transformer
  import C = Compiles
  import E = CompileEffects
  import R = CompileRoots
  import S = Stores

  /** A commit someone asks for, with the lists the database may hand back in any order. */
  datatype Action =
    | Write(id: string, node: Node)
    | Forget(id: string, mode: Mode, kids: seq<string>, below: seq<string>)
    | Compile(batch: T.Batch, flat: seq<C.FlatNode>, prev: E.Prev, removed: seq<string>)
    | Purge(files: set<string>, ids: seq<string>)
    | Rollback(target: int)

  /** What is committed, and under which snapshot id. */
  datatype Event = Event(action: Action, deltas: seq<Delta>, tree: Graph, id: nat)

  ghost predicate Good(hash: Hash, who: Identity, g: Graph) {
    Closed(g) && Hashed(hash, g) && Provenance(g, who)
  }

  /** The deltas e commits are those its action computes on the graph at the end of the trail, the
      target of a rollback being what the log restores; and a rollback's foreign keys hold at COMMIT. */
  ghost predicate Legal(hash: Hash, digest: string -> UInt64, bs: seq<T.Batch>, trail: seq<Commit>, e: Event)
    requires Fit(digest, bs) && trail != []
  {
    var g := Last(trail).graph;
    && Last(trail).id < e.id
    && match e.action
       case Write(id, n) =>
         && id != "" && n.contentHash == hash(n.content) && e.tree == map[id := n] && Placed(g, id, n)
         && C.IsRemoved([], [C.FlatNode(id, n)], S.PrevOf(g, id))
         && E.IsDiff(e.deltas, [], [C.FlatNode(id, n)], S.PrevOf(g, id))
       case Forget(id, mode, kids, below) =>
         id in g && IsPlan(Accepted(e.tree, e.deltas), g, id, mode, kids, below)
       case Compile(b, flat, prev, removed) =>
         && b in bs && IsFlatOf(flat, digest, b) && e.tree == C.Tree(flat) && Hashed(hash, e.tree)
         && E.Loaded(prev, g) && E.IsDiff(e.deltas, removed, flat, prev)
       case Purge(files, ids) =>
         && Lists(ids, InFiles(g, files))
         && e.deltas == Removals(g, ids) && e.tree == map[]
       case Rollback(target) =>
         && e.tree == Back(trail, target).nodes && IsRollbackDeltas(e.deltas, g, e.tree)
         && Closed(Run(g, e.deltas, e.tree))
  }

  /** A written node stays where it is stored; a new one is a root of no file, whatever its id. */
  ghost predicate Placed(g: Graph, id: string, n: Node) {
    if id in g then n.parent == g[id].parent && n.sourceFile == g[id].sourceFile
    else n.parent == "" && n.sourceFile == WRITTEN
  }

  /** A compile whose load covered the forest, a purge that takes no node of another file, a rollback
      that strands no node, or any other commit. */
  ghost predicate Truthful(trail: seq<Commit>, e: Event)
    requires trail != []
  {
    var g := Last(trail).graph;
    match e.action
    case Compile(_, _, prev, _) => Covers(g, e.tree, prev)
    case Purge(files, _) => ChildClosed(g, InFiles(g, files))
    case Rollback(_) => CascadeSafe(g, e.deltas, e.tree)
    case _ => true
  }

  /** The same, but a rollback may lose what it added itself. */
  ghost predicate Reversible(trail: seq<Commit>, e: Event)
    requires trail != []
  {
    var g := Last(trail).graph;
    match e.action
    case Compile(_, _, prev, _) => Covers(g, e.tree, prev)
    case Purge(files, _) => ChildClosed(g, InFiles(g, files))
    case Rollback(_) => Undoable(g, g, e.deltas, e.tree)
    case _ => true
  }

  function CommitOf(trail: seq<Commit>, e: Event): Commit
    requires trail != []
  {
    var g := Last(trail).graph;
    Commit(e.id, Run(g, e.deltas, e.tree), RowsFor(e.id, g, e.deltas))
  }

  /** The record of a run from the empty store. */
  function Play(events: seq<Event>): (trail: seq<Commit>)
    ensures |trail| == |events| + 1 && trail[0] == Commit(0, map[], [])
  {
    if events == [] then [Commit(0, map[], [])]
    else
      var front := Play(events[..|events| - 1]);
      front + [CommitOf(front, events[|events| - 1])]
  }

  ghost predicate LegalRun(hash: Hash, digest: string -> UInt64, bs: seq<T.Batch>, events: seq<Event>)
    requires Fit(digest, bs)
    decreases |events|
  {
    events == [] ||
    (LegalRun(hash, digest, bs, events[..|events| - 1]) &&
     Legal(hash, digest, bs, Play(events[..|events| - 1]), events[|events| - 1]))
  }

  ghost predicate GoodTrail(hash: Hash, who: Identity, trail: seq<Commit>) {
    forall c | c in trail :: Good(hash, who, c.graph)
  }

  /** Every stored value a row holds is of a node where it belongs. */
  ghost predicate StructuralRows(who: Identity, rows: seq<DiffRow>) {
    forall r | r in rows && r.meta.Some? :: Belongs(who, r.id, r.meta.value.sourceFile, r.meta.value.parent)
  }

  ghost predicate GoodRows(hash: Hash, who: Identity, rows: seq<DiffRow>) {
    HashedRows(hash, rows) && StructuralRows(who, rows)
  }

  // ---- each action keeps the graph good ----

  lemma WriteIsFaithful(hash: Hash, who: Identity, g: Graph, id: string, n: Node, ds: seq<Delta>)
    requires Good(hash, who, g) && id != "" && n.contentHash == hash(n.content) && Placed(g, id, n)
    requires E.IsDiff(ds, [], [C.FlatNode(id, n)], S.PrevOf(g, id))
    ensures Faithful(g, ds, map[id := n]) && Good(hash, who, Run(g, ds, map[id := n]))
  {
    S.SingleDiff(id, n, S.PrevOf(g, id), ds, []);
    if ds == [] {
      assert IdsOf(ds) == {};
    } else {
      S.SingleUpsert(g, ds, id, n);
      WrittenIsGood(hash, who, g, id, n);
    }
  }

  lemma WrittenIsGood(hash: Hash, who: Identity, g: Graph, id: string, n: Node)
    requires Good(hash, who, g) && id != "" && n.contentHash == hash(n.content) && Placed(g, id, n)
    ensures Good(hash, who, g[id := n])
  {
  }

  lemma ForgetIsFaithful(hash: Hash, who: Identity, g: Graph, id: string, mode: Mode,
                         kids: seq<string>, below: seq<string>, ds: seq<Delta>, tree: Graph)
    requires Coherent(who) && Good(hash, who, g) && id in g
    requires IsPlan(Accepted(tree, ds), g, id, mode, kids, below)
    ensures Faithful(g, ds, tree) && Good(hash, who, Run(g, ds, tree))
  {
    ProvenanceIsAcyclic(g, who);
    var rank: string -> nat := x => |who.lineage(x)|;
    assert AcyclicBy(g, rank);
    ForgetLeaves(Accepted(tree, ds), g, id, mode, kids, below, rank);
    ForgottenIsGood(hash, who, g, id, mode, rank);
  }

  lemma ForgottenIsGood(hash: Hash, who: Identity, g: Graph, id: string, mode: Mode, rank: string -> nat)
    requires Coherent(who) && Good(hash, who, g) && id in g && AcyclicBy(g, rank)
    requires mode == Strict ==> ChildrenOf(g, {id}) == {}
    ensures Good(hash, who, Forgotten(g, id, mode))
  {
    ForgetKeepsForest(g, id, mode, rank);
    ForgetKeepsProvenance(g, id, mode, who);
  }

  /** Taking a child-closed set away leaves no node without its parent. */
  lemma WithoutSubtrees(hash: Hash, who: Identity, g: Graph, gone: set<string>)
    requires Good(hash, who, g) && ChildClosed(g, gone)
    ensures Good(hash, who, g - gone)
  {
    assert forall x | x in g && g[x].parent in gone :: x in ChildrenOf(g, gone);
  }

  lemma CompiledIsGood(hash: Hash, who: Identity, g: Graph, tree: Graph, prev: E.Prev)
    requires Coherent(who) && Good(hash, who, g) && Wired(tree, who) && Hashed(hash, tree) && prev.Keys <= g.Keys
    ensures Good(hash, who, E.Compiled(g, tree, prev))
  {
    CompileKeepsProvenance(g, tree, who, prev);
    WiredUpsertIsClosed(g, tree, who, prev);
    SweepKeepsClosed(E.Upserted(g, tree, prev), (prev.Keys - tree.Keys) * E.Upserted(g, tree, prev).Keys);
  }

  lemma SweepKeepsClosed(g: Graph, gone: set<string>)
    requires Closed(g) && gone <= g.Keys && "" !in g
    ensures Closed(g - Grow(g, gone))
  {
    assert forall x | x in g && g[x].parent in Grow(g, gone) :: x in ChildrenOf(g, Grow(g, gone));
  }

  lemma PurgeKeepsGood(hash: Hash, who: Identity, g: Graph, files: set<string>, ids: seq<string>)
    requires Coherent(who) && Good(hash, who, g) && Lists(ids, InFiles(g, files))
    ensures var ds := Removals(g, ids);
      && AreRemovals(g, ds) && IdsOf(ds) == InFiles(g, files)
      && Good(hash, who, Run(g, ds, map[])) && HashedDeltas(hash, ds)
      && (Faithful(g, ds, map[]) <==> ChildClosed(g, InFiles(g, files)))
  {
    S.PurgeReady(hash, g, InFiles(g, files), ids);
    PurgeIsFaithfulIff(Removals(g, ids), files, g, who);
    SweepKeepsClosed(g, InFiles(g, files));
  }

  /** Walking back keeps each node in its own file, below an enclosing id. */
  lemma {:induction false} UndoKeepsProvenance(who: Identity, rows: seq<DiffRow>, st: Restored)
    requires StructuralRows(who, rows) && Provenance(st.nodes, who)
    ensures Provenance(Undo(rows, st).nodes, who)
    decreases |rows|
  {
    if rows != [] {
      assert rows[|rows| - 1] in rows;
      UndoKeepsProvenance(who, rows[..|rows| - 1], UndoRow(st, rows[|rows| - 1]));
    }
  }

  lemma {:induction false} RunKeepsProvenance(who: Identity, g: Graph, ds: seq<Delta>, tree: Graph)
    requires Provenance(g, who) && Provenance(tree, who)
    ensures Provenance(Run(g, ds, tree), who)
    decreases |ds|
  {
    if ds != [] {
      RunKeepsProvenance(who, Step(g, ds[0], tree), ds[1..], tree);
    }
  }

  /** The graph a rollback aims at, whether or not it ever stood. */
  lemma TargetIsGood(hash: Hash, who: Identity, trail: seq<Commit>, t: int)
    requires SoundTrail(hash, who, trail)
    ensures Hashed(hash, Back(trail, t).nodes) && Provenance(Back(trail, t).nodes, who)
  {
    assert Last(trail) in trail;
    AfterMembers(RowsOf(trail), t);
    UndoKeepsHashed(hash, After(RowsOf(trail), t), Restored(Last(trail).graph, []));
    UndoKeepsProvenance(who, After(RowsOf(trail), t), Restored(Last(trail).graph, []));
  }

  lemma RollbackKeepsGood(hash: Hash, who: Identity, g: Graph, target: Graph, ds: seq<Delta>)
    requires Good(hash, who, g) && Hashed(hash, target) && Provenance(target, who)
    requires IsRollbackDeltas(ds, g, target) && Closed(Run(g, ds, target))
    ensures Good(hash, who, Run(g, ds, target)) && HashedDeltas(hash, ds)
  {
    RunKeepsHashed(hash, g, ds, target);
    RunKeepsProvenance(who, g, ds, target);
    RollbackIsHonest(ds, g, target);
    HonestIsHashed(hash, g, ds, target);
  }

  lemma HonestIsHashed(hash: Hash, g: Graph, ds: seq<Delta>, tree: Graph)
    requires Honest(g, ds, tree) && Hashed(hash, g) && "" !in tree
    ensures HashedDeltas(hash, ds)
  {
  }

  lemma {:induction false} GraphAtIsGood(hash: Hash, who: Identity, trail: seq<Commit>, t: int)
    requires trail != [] && GoodTrail(hash, who, trail)
    ensures Good(hash, who, GraphAt(trail, t))
    decreases |trail|
  {
    assert Last(trail) in trail;
    if |trail| > 1 {
      assert forall c | c in Front(trail) :: c in trail;
      GraphAtIsGood(hash, who, Front(trail), t);
    }
  }

  ghost predicate SoundTrail(hash: Hash, who: Identity, trail: seq<Commit>) {
    Dated(trail) && GoodTrail(hash, who, trail) && GoodRows(hash, who, RowsOf(trail))
  }

  lemma EventKeepsGood(hash: Hash, digest: string -> UInt64, bs: seq<T.Batch>, trail: seq<Commit>, e: Event)
    requires Fit(digest, bs) && SoundTrail(hash, WhoOf(digest, bs), trail) && Legal(hash, digest, bs, trail, e)
    ensures var g := Last(trail).graph;
      Good(hash, WhoOf(digest, bs), Run(g, e.deltas, e.tree)) && HashedDeltas(hash, e.deltas)
  {
    var g, who := Last(trail).graph, WhoOf(digest, bs);
    WhoIsCoherent(digest, bs);
    assert Last(trail) in trail;
    match e.action
    case Write(id, n) =>
      WriteIsFaithful(hash, who, g, id, n, e.deltas);
      HonestIsHashed(hash, g, e.deltas, e.tree);
    case Forget(id, mode, kids, below) =>
      ForgetIsFaithful(hash, who, g, id, mode, kids, below, e.deltas, e.tree);
      S.ForgetReady(hash, g, Accepted(e.tree, e.deltas), id, mode, kids, below);
    case Compile(b, flat, prev, removed) =>
      CompileKeepsGood(hash, digest, bs, g, b, flat, prev, removed, e.deltas);
    case Purge(files, ids) =>
      PurgeKeepsGood(hash, who, g, files, ids);
    case Rollback(target) =>
      TargetIsGood(hash, who, trail, target);
      RollbackKeepsGood(hash, who, g, e.tree, e.deltas);
  }

  lemma CompileKeepsGood(hash: Hash, digest: string -> UInt64, bs: seq<T.Batch>, g: Graph, b: T.Batch,
                         flat: seq<C.FlatNode>, prev: E.Prev, removed: seq<string>, ds: seq<Delta>)
    requires Fit(digest, bs) && b in bs && IsFlatOf(flat, digest, b) && Hashed(hash, C.Tree(flat))
    requires Good(hash, WhoOf(digest, bs), g) && E.Loaded(prev, g) && E.IsDiff(ds, removed, flat, prev)
    ensures Good(hash, WhoOf(digest, bs), Run(g, ds, C.Tree(flat))) && HashedDeltas(hash, ds)
  {
    WhoIsCoherent(digest, bs);
    BatchIsWired(digest, bs, b, flat);
    E.CompileReaches(ds, removed, flat, prev, g);
    CompiledIsGood(hash, WhoOf(digest, bs), g, C.Tree(flat), prev);
    S.DiffIsHashed(hash, g, flat, prev, ds, removed);
  }

  lemma RowsAreGood(hash: Hash, who: Identity, id: nat, g: Graph, ds: seq<Delta>)
    requires Provenance(g, who) && HashedDeltas(hash, ds)
    ensures GoodRows(hash, who, RowsFor(id, g, ds)) && forall r | r in RowsFor(id, g, ds) :: r.snapshot == id
  {
    RowMembers(id, g, ds);
    RowsAreHashed(hash, id, g, ds);
  }

  /** In every run every graph is a closed forest of structural nodes, whatever was loaded or rolled back. */
  lemma {:induction false} EveryRunIsSound(hash: Hash, digest: string -> UInt64, bs: seq<T.Batch>, events: seq<Event>)
    requires Fit(digest, bs) && LegalRun(hash, digest, bs, events)
    ensures SoundTrail(hash, WhoOf(digest, bs), Play(events))
    decreases |events|
  {
    if events != [] {
      var front, e := Play(events[..|events| - 1]), events[|events| - 1];
      EveryRunIsSound(hash, digest, bs, events[..|events| - 1]);
      EventKeepsGood(hash, digest, bs, front, e);
      assert Last(front) in front;
      RowsAreGood(hash, WhoOf(digest, bs), e.id, Last(front).graph, e.deltas);
      SoundGrows(hash, WhoOf(digest, bs), front, CommitOf(front, e));
    }
  }

  lemma SoundGrows(hash: Hash, who: Identity, trail: seq<Commit>, c: Commit)
    requires SoundTrail(hash, who, trail) && Last(trail).id < c.id && Good(hash, who, c.graph)
    requires GoodRows(hash, who, c.rows) && forall r | r in c.rows :: r.snapshot == c.id
    ensures SoundTrail(hash, who, trail + [c])
  {
    assert Front(trail + [c]) == trail && Last(trail + [c]) == c;
    assert forall d | d in trail + [c] :: d in trail || d == c;
  }

  // ---- when a commit tells the truth, and when it can be undone ----

  lemma RestIsFaithful(hash: Hash, digest: string -> UInt64, bs: seq<T.Batch>, trail: seq<Commit>, e: Event)
    requires Fit(digest, bs) && SoundTrail(hash, WhoOf(digest, bs), trail) && Legal(hash, digest, bs, trail, e)
    requires !e.action.Compile? && !e.action.Purge? && !e.action.Rollback?
    ensures Faithful(Last(trail).graph, e.deltas, e.tree)
  {
    var g, who := Last(trail).graph, WhoOf(digest, bs);
    WhoIsCoherent(digest, bs);
    assert Last(trail) in trail;
    match e.action
    case Write(id, n) => WriteIsFaithful(hash, who, g, id, n, e.deltas);
    case Forget(id, mode, kids, below) => ForgetIsFaithful(hash, who, g, id, mode, kids, below, e.deltas, e.tree);
  }

  /** A commit's rows are the difference it made exactly when it is a write, a forget, a purge that takes
      no node of another file, a compile whose load covered its forest, or a rollback that strands no
      node. */
  lemma LegalIsFaithfulIff(hash: Hash, digest: string -> UInt64, bs: seq<T.Batch>, trail: seq<Commit>, e: Event)
    requires Fit(digest, bs) && SoundTrail(hash, WhoOf(digest, bs), trail) && Legal(hash, digest, bs, trail, e)
    ensures var c := CommitOf(trail, e); Links(Last(trail).graph, c.graph, c.rows) <==> Truthful(trail, e)
  {
    var g := Last(trail).graph;
    assert Last(trail) in trail;
    match e.action {
      case Compile(b, flat, prev, removed) =>
        WhoIsCoherent(digest, bs);
        BatchIsWired(digest, bs, b, flat);
        CompileFaithfulIffCovers(e.deltas, removed, flat, prev, g, WhoOf(digest, bs));
        E.CompileHonestIff(e.deltas, removed, flat, prev, g);
      case Purge(files, ids) =>
        WhoIsCoherent(digest, bs);
        PurgeKeepsGood(hash, WhoOf(digest, bs), g, files, ids);
      case Rollback(target) =>
        RollbackIsHonest(e.deltas, g, e.tree);
      case _ =>
        RestIsFaithful(hash, digest, bs, trail, e);
        FaithfulInTree(g, e.deltas, e.tree);
    }
    CommitLinksIffFaithful(e.id, g, e.deltas, e.tree);
  }

  lemma FaithfulInTree(g: Graph, ds: seq<Delta>, tree: Graph)
    requires Faithful(g, ds, tree)
    ensures InTree(ds, tree)
  {
  }

  lemma PurgeUndoneIff(g: Graph, ds: seq<Delta>, id: nat)
    requires AreRemovals(g, ds)
    ensures Undo(RowsFor(id, g, ds), Restored(Run(g, ds, map[]), [])) == Restored(g, []) <==> Faithful(g, ds, map[])
  {
    UndoableIff(g, ds, map[], id);
    RemovalsUndoableIff(g, g, ds, map[]);
  }

  /** And its rows walk back to the graph it found exactly then, or when a rollback lost no more than it
      added itself. */
  lemma LegalIsUndoneIff(hash: Hash, digest: string -> UInt64, bs: seq<T.Batch>, trail: seq<Commit>, e: Event)
    requires Fit(digest, bs) && SoundTrail(hash, WhoOf(digest, bs), trail) && Legal(hash, digest, bs, trail, e)
    ensures var c := CommitOf(trail, e);
      Undo(c.rows, Restored(c.graph, [])) == Restored(Last(trail).graph, []) <==> Reversible(trail, e)
  {
    var g := Last(trail).graph;
    assert Last(trail) in trail;
    match e.action
    case Compile(b, flat, prev, removed) =>
      WhoIsCoherent(digest, bs);
      BatchIsWired(digest, bs, b, flat);
      R.CompileUndoneIff(e.deltas, removed, flat, g, prev, e.id, WhoOf(digest, bs));
    case Purge(files, ids) =>
      WhoIsCoherent(digest, bs);
      PurgeKeepsGood(hash, WhoOf(digest, bs), g, files, ids);
      PurgeUndoneIff(g, e.deltas, e.id);
    case Rollback(target) =>
      RollbackUndone(e.deltas, g, e.tree, e.id);
    case _ =>
      RestIsFaithful(hash, digest, bs, trail, e);
      FaithfulLinks(e.id, g, e.deltas, e.tree);
      UndoLinks(g, Run(g, e.deltas, e.tree), RowsFor(e.id, g, e.deltas), []);
  }

  // ---- every run ----

  lemma {:induction false} PrefixIsLegal(hash: Hash, digest: string -> UInt64, bs: seq<T.Batch>, events: seq<Event>,
                                         k: nat)
    requires Fit(digest, bs) && LegalRun(hash, digest, bs, events) && k <= |events|
    ensures LegalRun(hash, digest, bs, events[..k])
    decreases |events|
  {
    if k == |events| {
      assert events[..k] == events;
    } else {
      var front := events[..|events| - 1];
      assert front[..k] == events[..k];
      PrefixIsLegal(hash, digest, bs, front, k);
    }
  }

  lemma LegalAt(hash: Hash, digest: string -> UInt64, bs: seq<T.Batch>, events: seq<Event>, k: nat)
    requires Fit(digest, bs) && LegalRun(hash, digest, bs, events) && k < |events|
    ensures LegalRun(hash, digest, bs, events[..k]) && Legal(hash, digest, bs, Play(events[..k]), events[k])
  {
    var upTo := events[..k + 1];
    PrefixIsLegal(hash, digest, bs, events, k + 1);
    assert upTo[..|upTo| - 1] == events[..k] && upTo[|upTo| - 1] == events[k];
  }

  lemma {:induction false} PlayedAt(events: seq<Event>, k: nat)
    requires k < |events|
    ensures Play(events)[k] == Last(Play(events[..k])) && Play(events)[k + 1] == CommitOf(Play(events[..k]), events[k])
    decreases |events|
  {
    var front := events[..|events| - 1];
    if k == |events| - 1 {
      assert events[..k] == front;
    } else {
      assert front[..k] == events[..k];
      PlayedAt(front, k);
    }
  }

  ghost predicate TruthfulAt(events: seq<Event>, k: nat)
    requires k < |events|
  {
    Truthful(Play(events[..k]), events[k])
  }

  ghost predicate ReversibleAt(events: seq<Event>, k: nat)
    requires k < |events|
  {
    Reversible(Play(events[..k]), events[k])
  }

  ghost predicate AllTruthful(events: seq<Event>) {
    forall k: nat | k < |events| :: TruthfulAt(events, k)
  }

  ghost predicate AllReversible(events: seq<Event>, from: nat) {
    forall k: nat | from <= k < |events| :: ReversibleAt(events, k)
  }

  lemma AllTruthfulSplits(events: seq<Event>)
    requires events != []
    ensures AllTruthful(events) <==> AllTruthful(events[..|events| - 1]) && TruthfulAt(events, |events| - 1)
  {
    var before := events[..|events| - 1];
    forall k: nat | k < |before| ensures TruthfulAt(before, k) <==> TruthfulAt(events, k) {
      assert before[..k] == events[..k];
    }
  }

  /** In every run, every snapshot's rows are exactly the difference it made if and only if every compile
      was over a covering load and no purge or rollback stranded a node. */
  lemma {:induction false} EveryRunIsExactIff(hash: Hash, digest: string -> UInt64, bs: seq<T.Batch>,
                                              events: seq<Event>)
    requires Fit(digest, bs) && LegalRun(hash, digest, bs, events)
    ensures ValidTrail(Play(events)) <==> AllTruthful(events)
    decreases |events|
  {
    if events != [] {
      var before, e := events[..|events| - 1], events[|events| - 1];
      EveryRunIsExactIff(hash, digest, bs, before);
      EveryRunIsSound(hash, digest, bs, before);
      LegalIsFaithfulIff(hash, digest, bs, Play(before), e);
      TruthfulGrows(Play(before), e);
      AllTruthfulSplits(events);
    }
  }

  lemma TruthfulGrows(trail: seq<Commit>, e: Event)
    requires trail != [] && Last(trail).id < e.id
    ensures var c := CommitOf(trail, e);
      ValidTrail(trail + [c]) <==> ValidTrail(trail) && Links(Last(trail).graph, c.graph, c.rows)
  {
    var c := CommitOf(trail, e);
    RowMembers(e.id, Last(trail).graph, e.deltas);
    assert Front(trail + [c]) == trail && Last(trail + [c]) == c;
  }

  /** In every run, every snapshot from the given one on restores to the graph it committed, every
      versioned field of every node and nothing skipped, if and only if every later compile was over a
      covering load and no later rollback lost a node it found. */
  lemma EveryRunTravelsInTimeIff(hash: Hash, digest: string -> UInt64, bs: seq<T.Batch>, events: seq<Event>,
                                 from: nat)
    requires Fit(digest, bs) && LegalRun(hash, digest, bs, events) && from <= |events|
    ensures AllRestore(Play(events), from) <==> AllReversible(events, from)
  {
    EveryRunIsSound(hash, digest, bs, events);
    RestoresIff(Play(events), from);
    forall k: nat | k < |events| ensures UndoesAt(Play(events), k + 1) <==> ReversibleAt(events, k) {
      UndoesIffReversible(hash, digest, bs, events, k);
    }
    Shifted(Play(events), events, from);
  }

  lemma UndoesIffReversible(hash: Hash, digest: string -> UInt64, bs: seq<T.Batch>, events: seq<Event>, k: nat)
    requires Fit(digest, bs) && LegalRun(hash, digest, bs, events) && k < |events|
    ensures UndoesAt(Play(events), k + 1) <==> ReversibleAt(events, k)
  {
    LegalAt(hash, digest, bs, events, k);
    PlayedAt(events, k);
    EveryRunIsSound(hash, digest, bs, events[..k]);
    LegalIsUndoneIff(hash, digest, bs, Play(events[..k]), events[k]);
  }

  lemma Shifted(trail: seq<Commit>, events: seq<Event>, from: nat)
    requires |trail| == |events| + 1
    requires forall k: nat | k < |events| :: UndoesAt(trail, k + 1) <==> ReversibleAt(events, k)
    ensures AllUndo(trail, from) <==> AllReversible(events, from)
  {
    if AllUndo(trail, from) {
      forall k: nat | from <= k < |events| ensures ReversibleAt(events, k) {
        assert UndoesAt(trail, k + 1);
      }
    }
    if AllReversible(events, from) {
      forall k: nat | from < k < |trail| ensures UndoesAt(trail, k) {
        assert ReversibleAt(events, k - 1);
      }
    }
  }

  /** After a truthful run, restoring at any time gives every node of that time, exactly. */
  lemma EveryRunTravelsInTime(hash: Hash, digest: string -> UInt64, bs: seq<T.Batch>, events: seq<Event>, t: nat)
    requires Fit(digest, bs) && LegalRun(hash, digest, bs, events) && AllTruthful(events)
    ensures Back(Play(events), t) == Restored(GraphAt(Play(events), t), [])
  {
    EveryRunIsExactIff(hash, digest, bs, events);
    TimeTravel(Play(events), t);
  }

  // ---- diffs of a run ----

  /** Every commit dated in (from, to] tells the truth. */
  ghost predicate TruthfulWithin(events: seq<Event>, from: int, to: int) {
    forall k: nat | k < |events| && from < events[k].id <= to :: TruthfulAt(events, k)
  }

  /** So does every commit after the from-th snapshot, up to the to-th. */
  ghost predicate TruthfulFrom(events: seq<Event>, from: nat, to: nat) {
    forall k: nat | from <= k < to && k < |events| :: TruthfulAt(events, k)
  }

  lemma LinksIffTruthful(hash: Hash, digest: string -> UInt64, bs: seq<T.Batch>, events: seq<Event>, k: nat)
    requires Fit(digest, bs) && LegalRun(hash, digest, bs, events) && k < |events|
    ensures LinksAt(Play(events), k + 1) <==> TruthfulAt(events, k)
    ensures Play(events)[k + 1].id == events[k].id
  {
    LegalAt(hash, digest, bs, events, k);
    PlayedAt(events, k);
    EveryRunIsSound(hash, digest, bs, events[..k]);
    LegalIsFaithfulIff(hash, digest, bs, Play(events[..k]), events[k]);
  }

  /** Whatever the rest of the run did, when the commits of a range told the truth the consolidated
      diff of the range is the comparison of its two graphs. */
  lemma EveryRunDiffsExactly(hash: Hash, digest: string -> UInt64, bs: seq<T.Batch>, events: seq<Event>,
                             from: nat, to: nat)
    requires Fit(digest, bs) && LegalRun(hash, digest, bs, events) && from <= to && TruthfulWithin(events, from, to)
    ensures var trail := Play(events);
      Compares(GraphAt(trail, from), GraphAt(trail, to), Consolidated(RowsOf(trail), from, to))
  {
    var trail := Play(events);
    EveryRunIsSound(hash, digest, bs, events);
    forall k: nat | 0 < k < |trail| && from < trail[k].id <= to ensures LinksAt(trail, k) {
      LinksIffTruthful(hash, digest, bs, events, k - 1);
    }
    DiffIsComparison(trail, from, to);
  }

  /** The deltas of a commit name each node once and carry true values, truthful or not. */
  lemma LegalTellsValues(hash: Hash, digest: string -> UInt64, bs: seq<T.Batch>, trail: seq<Commit>, e: Event)
    requires Fit(digest, bs) && SoundTrail(hash, WhoOf(digest, bs), trail) && Legal(hash, digest, bs, trail, e)
    ensures Distinct(e.deltas) && TrueValues(Last(trail).graph, e.deltas, e.tree)
  {
    var g := Last(trail).graph;
    assert Last(trail) in trail;
    match e.action
    case Compile(b, flat, prev, removed) =>
      BatchIsWired(digest, bs, b, flat);
      E.CompileHonestIff(e.deltas, removed, flat, prev, g);
      E.CompileTellsValues(e.deltas, removed, flat, prev, g);
    case Purge(files, ids) =>
      WhoIsCoherent(digest, bs);
      PurgeKeepsGood(hash, WhoOf(digest, bs), g, files, ids);
    case Rollback(target) =>
      RollbackIsHonest(e.deltas, g, e.tree);
    case _ =>
      RestIsFaithful(hash, digest, bs, trail, e);
  }

  /** The diff of neighbouring snapshots is exact exactly when the later commit tells the truth. */
  lemma DiffsIffTruthful(hash: Hash, digest: string -> UInt64, bs: seq<T.Batch>, events: seq<Event>, k: nat)
    requires Fit(digest, bs) && LegalRun(hash, digest, bs, events) && k < |events|
    ensures DiffsAt(Play(events), k, k + 1) <==> TruthfulAt(events, k)
  {
    var front, e := Play(events[..k]), events[k];
    LegalAt(hash, digest, bs, events, k);
    PlayedAt(events, k);
    EveryRunIsSound(hash, digest, bs, events);
    EveryRunIsSound(hash, digest, bs, events[..k]);
    LinksIffTruthful(hash, digest, bs, events, k);
    LegalTellsValues(hash, digest, bs, front, e);
    RowsOfOne(Play(events), k + 1);
    CommitDiffsIff(e.id, Last(front).graph, e.deltas, e.tree);
    CommitLinksIffFaithful(e.id, Last(front).graph, e.deltas, e.tree);
  }

  /** In every run, the consolidated diff of any two snapshots from one snapshot to another is the
      comparison of their graphs if and only if every commit between them tells the truth: a compile is
      over a covering load, and no purge or rollback strands a node. */
  lemma EveryRunDiffsExactlyIff(hash: Hash, digest: string -> UInt64, bs: seq<T.Batch>, events: seq<Event>,
                                from: nat, to: nat)
    requires Fit(digest, bs) && LegalRun(hash, digest, bs, events) && from <= to <= |events|
    ensures AllDiff(Play(events), from, to) <==> TruthfulFrom(events, from, to)
  {
    var trail := Play(events);
    EveryRunIsSound(hash, digest, bs, events);
    if AllDiff(trail, from, to) {
      forall k: nat | from <= k < to ensures TruthfulAt(events, k) {
        assert DiffsAt(trail, k, k + 1);
        DiffsIffTruthful(hash, digest, bs, events, k);
      }
    }
    if TruthfulFrom(events, from, to) {
      forall a: nat, b: nat | from <= a <= b <= to ensures DiffsAt(trail, a, b) {
        forall k: nat | a < k <= b ensures LinksAt(trail, k) {
          LinksIffTruthful(hash, digest, bs, events, k - 1);
        }
        LinkedDiffs(trail, a, b);
      }
    }
  }

  // ---- runs of one directory ----

  /** Every commit compiles the same root, so each load takes the nodes any earlier commit has dated. */
  ghost predicate OneRoot(events: seq<Event>) {
    forall k: nat | k < |events| :: LoadsItsRoot(Play(events[..k]), events[k])
  }

  ghost predicate LoadsItsRoot(trail: seq<Commit>, e: Event)
    requires trail != []
  {
    e.action.Compile? && e.action.prev == R.ByRoot(Last(trail).graph, RowsOf(trail), IdsOnTrail(trail))
  }

  /** Every stored node has a row, and the latest is of a commit of the run. */
  ghost predicate AllDated(trail: seq<Commit>)
    requires trail != []
  {
    forall x | x in Last(trail).graph :: R.LastUnder(RowsOf(trail), IdsOnTrail(trail), x)
  }

  lemma AllDatedGrows(hash: Hash, digest: string -> UInt64, bs: seq<T.Batch>, trail: seq<Commit>, e: Event)
    requires Fit(digest, bs) && SoundTrail(hash, WhoOf(digest, bs), trail) && Legal(hash, digest, bs, trail, e)
    requires AllDated(trail) && e.action.Compile?
    ensures AllDated(trail + [CommitOf(trail, e)])
  {
    var g, c := Last(trail).graph, CommitOf(trail, e);
    CompiledIds(digest, bs, g, e);
    assert Front(trail + [c]) == trail && Last(trail + [c]) == c;
    IdsGrow(trail, c);
    DatedIds(trail);
    forall x | x in c.graph ensures R.LastUnder(RowsOf(trail + [c]), IdsOnTrail(trail + [c]), x) {
      R.LatestAfterCommit(RowsOf(trail), e.id, g, e.deltas, x);
    }
  }

  /** A compile leaves only nodes it found or has a delta for. */
  lemma CompiledIds(digest: string -> UInt64, bs: seq<T.Batch>, g: Graph, e: Event)
    requires Fit(digest, bs) && e.action.Compile? && e.action.batch in bs
    requires IsFlatOf(e.action.flat, digest, e.action.batch) && e.tree == C.Tree(e.action.flat)
    requires E.IsDiff(e.deltas, e.action.removed, e.action.flat, e.action.prev)
    ensures forall x | x in Run(g, e.deltas, e.tree) :: x in g || x in IdsOf(e.deltas)
  {
    BatchIsWired(digest, bs, e.action.batch, e.action.flat);
    E.CompileReaches(e.deltas, e.action.removed, e.action.flat, e.action.prev, g);
    R.DiffIds(e.deltas, e.action.removed, e.action.flat, e.action.prev);
  }

  /** A load of everything covers every forest. */
  lemma WholeLoadCovers(g: Graph, tree: Graph, prev: E.Prev)
    requires prev.Keys == g.Keys
    ensures Covers(g, tree, prev)
  {
  }

  lemma OneRootSplits(events: seq<Event>)
    requires events != [] && OneRoot(events)
    ensures OneRoot(events[..|events| - 1])
    ensures LoadsItsRoot(Play(events[..|events| - 1]), events[|events| - 1])
  {
    var before := events[..|events| - 1];
    forall k: nat | k < |before| ensures LoadsItsRoot(Play(before[..k]), before[k]) {
      assert before[..k] == events[..k] && LoadsItsRoot(Play(events[..k]), events[k]);
    }
    assert LoadsItsRoot(Play(events[..|events| - 1]), events[|events| - 1]);
  }

  /** In a run that only ever compiles one directory every load covers its forest, so every commit tells
      the truth. */
  lemma {:induction false} OneRootIsTruthful(hash: Hash, digest: string -> UInt64, bs: seq<T.Batch>, events: seq<Event>)
    requires Fit(digest, bs) && LegalRun(hash, digest, bs, events) && OneRoot(events)
    ensures AllDated(Play(events)) && AllTruthful(events)
    decreases |events|
  {
    if events != [] {
      var before, e := events[..|events| - 1], events[|events| - 1];
      OneRootSplits(events);
      OneRootIsTruthful(hash, digest, bs, before);
      EveryRunIsSound(hash, digest, bs, before);
      AllDatedGrows(hash, digest, bs, Play(before), e);
      WholeLoadCovers(Last(Play(before)).graph, e.tree, e.action.prev);
      AllTruthfulSplits(events);
    }
  }
}
