/** The invariant every committed operation keeps: a sound log whose recent part is an
    exact record of how the node graph came to be. */
module States {
  import opened Graphs
  import opened Deltas
  import opened History
  import opened Trails
  import opened Query
  import opened Logs
  import opened Wrappers

  type Hash = string -> string

  ghost predicate Hashed(hash: Hash, g: Graph) {
    "" !in g && forall x | x in g :: g[x].contentHash == hash(g[x].content)
  }

  ghost predicate HashedDeltas(hash: Hash, ds: seq<Delta>) {
    forall d | d in ds :: d.id != "" && (d.op != Add ==> d.oldHash == hash(d.oldContent))
  }

  ghost predicate HashedRows(hash: Hash, rows: seq<DiffRow>) {
    forall r | r in rows :: r.id != "" && (r.op != Add ==> r.oldHash == hash(r.oldContent))
  }

  /** Foreign keys checked statement by statement: each upsert finds its node and its parent. */
  ghost predicate UpsertsAllowed(g: Graph, ds: seq<Delta>, tree: Graph)
    decreases |ds|
  {
    ds != [] ==>
      && (ds[0].op != Rem ==> ds[0].id in tree && ParentPresent(g, ds[0].id, tree[ds[0].id]))
      && UpsertsAllowed(Step(g, ds[0], tree), ds[1..], tree)
  }

  predicate ParentPresent(g: Graph, id: string, n: Node) {
    n.parent == "" || n.parent == id || n.parent in g
  }

  lemma {:induction false} AllowedAppend(g: Graph, a: seq<Delta>, b: seq<Delta>, tree: Graph)
    requires UpsertsAllowed(g, a, tree) && UpsertsAllowed(Run(g, a, tree), b, tree)
    ensures UpsertsAllowed(g, a + b, tree)
    decreases |a|
  {
    if a == [] {
      assert a + b == b;
    } else {
      assert (a + b)[0] == a[0] && (a + b)[1..] == a[1..] + b;
      AllowedAppend(Step(g, a[0], tree), a[1..], b, tree);
    }
  }

  lemma {:induction false} RunKeepsHashed(hash: Hash, g: Graph, ds: seq<Delta>, tree: Graph)
    requires Hashed(hash, g) && Hashed(hash, tree)
    ensures Hashed(hash, Run(g, ds, tree))
    decreases |ds|
  {
    if ds != [] {
      RunKeepsHashed(hash, Step(g, ds[0], tree), ds[1..], tree);
    }
  }

  lemma {:induction false} AllowedKeepsClosed(g: Graph, ds: seq<Delta>, tree: Graph)
    requires Closed(g) && UpsertsAllowed(g, ds, tree)
    ensures Closed(Run(g, ds, tree))
    decreases |ds|
  {
    if ds != [] {
      DeleteKeepsClosed(g, ds[0].id);
      AllowedKeepsClosed(Step(g, ds[0], tree), ds[1..], tree);
    }
  }

  lemma RowsAreHashed(hash: Hash, snapshot: nat, g: Graph, ds: seq<Delta>)
    requires HashedDeltas(hash, ds)
    ensures HashedRows(hash, RowsFor(snapshot, g, ds))
  {
    RowMembers(snapshot, g, ds);
  }

  lemma {:induction false} UndoKeepsHashed(hash: Hash, rows: seq<DiffRow>, st: Restored)
    requires HashedRows(hash, rows) && Hashed(hash, st.nodes)
    ensures Hashed(hash, Undo(rows, st).nodes)
    decreases |rows|
  {
    if rows != [] {
      assert Last(rows) in rows;
      UndoKeepsHashed(hash, Front(rows), UndoRow(st, Last(rows)));
    }
  }

  // ---- the invariant ----

  function IdsOnTrail(trail: seq<Commit>): set<nat> {
    set c | c in trail :: c.id
  }

  ghost predicate ValidTrailOf(hash: Hash, nodes: Graph, log: Log, trail: seq<Commit>) {
    && ValidTrail(trail)
    && Last(trail).id == log.head && Last(trail).graph == nodes
    && (forall c | c in trail :: Hashed(hash, c.graph) && Closed(c.graph))
    && (forall s | s in log.snapshots && trail[0].id <= s :: s in IdsOnTrail(trail))
    && After(log.diffs, trail[0].id) == RowsOf(trail)
  }

  /** trail is the exact part of the record: the commits since the last one that was not
      logged truthfully, or since the empty store. */
  ghost predicate ValidState(hash: Hash, nodes: Graph, log: Log, prior: map<nat, nat>, trail: seq<Commit>) {
    && ValidLog(log, prior)
    && ValidTrailOf(hash, nodes, log, trail)
    && HashedRows(hash, log.diffs)
  }

  /** The record goes on through a truthful commit and starts afresh at any other. */
  ghost function NextTrail(trail: seq<Commit>, c: Commit): seq<Commit> {
    if trail != [] && Links(Last(trail).graph, c.graph, c.rows) then trail + [c] else [Commit(c.id, c.graph, [])]
  }

  lemma ExtendedTrail(hash: Hash, nodes: Graph, log: Log, trail: seq<Commit>, c: Commit, snap: Snapshot)
    requires ValidRows(log) && log.head < log.nextId && (forall s | s in log.snapshots :: s <= log.head)
    requires ValidTrailOf(hash, nodes, log, trail)
    requires c.id == log.nextId && (forall r | r in c.rows :: r.snapshot == c.id)
    requires Hashed(hash, c.graph) && Closed(c.graph) && Links(nodes, c.graph, c.rows)
    ensures ValidTrailOf(hash, c.graph, Append(log, snap, c.rows), trail + [c])
  {
    TrailGrows(trail, c);
    RowsGrow(log.diffs, trail, c);
    IdsGrow(trail, c);
    assert forall d | d in trail + [c] :: d in trail || d == c;
    assert Append(log, snap, c.rows).diffs == log.diffs + c.rows;
  }

  lemma RowsGrow(diffs: seq<DiffRow>, trail: seq<Commit>, c: Commit)
    requires ValidTrail(trail) && Last(trail).id < c.id && After(diffs, trail[0].id) == RowsOf(trail)
    requires forall r | r in c.rows :: r.snapshot == c.id
    ensures (trail + [c])[0] == trail[0] && After(diffs + c.rows, trail[0].id) == RowsOf(trail + [c])
  {
    IdsAscend(trail);
    assert Front(trail + [c]) == trail && Last(trail + [c]) == c;
    AfterAppend(diffs, c.rows, trail[0].id);
    AfterAllOrNone(c.rows, trail[0].id);
  }

  lemma IdsGrow(trail: seq<Commit>, c: Commit)
    ensures IdsOnTrail(trail + [c]) == IdsOnTrail(trail) + {c.id}
  {
    assert c in trail + [c] && forall d | d in trail :: d in trail + [c];
    assert forall d | d in trail + [c] :: d in trail || d == c;
  }

  lemma TrailGrows(trail: seq<Commit>, c: Commit)
    requires ValidTrail(trail) && Last(trail).id < c.id
    requires Links(Last(trail).graph, c.graph, c.rows) && forall r | r in c.rows :: r.snapshot == c.id
    ensures ValidTrail(trail + [c])
    ensures Last(trail + [c]) == c && RowsOf(trail + [c]) == RowsOf(trail) + c.rows
    ensures trail[0].id < c.id
  {
    assert Front(trail + [c]) == trail;
    IdsAscend(trail);
  }

  lemma RestartedTrail(hash: Hash, log: Log, c: Commit, snap: Snapshot)
    requires ValidRows(log) && (forall s | s in log.snapshots :: s < log.nextId)
    requires c.id == log.nextId && (forall r | r in c.rows :: r.snapshot == c.id)
    requires Hashed(hash, c.graph) && Closed(c.graph)
    ensures ValidTrailOf(hash, c.graph, Append(log, snap, c.rows), [Commit(c.id, c.graph, [])])
  {
    var base := Commit(c.id, c.graph, []);
    AfterAllOrNone(log.diffs + c.rows, c.id);
    assert base in [base];
  }

  /** Every commit keeps the invariant, truthful or not. */
  lemma CommitKeepsState(hash: Hash, nodes: Graph, log: Log, prior: map<nat, nat>, trail: seq<Commit>,
                         c: Commit, snap: Snapshot)
    requires ValidState(hash, nodes, log, prior, trail)
    requires log.nextId <= MAX_ROWID && c.id == log.nextId
    requires FoldsHead(snap.cursor, log.head) && (snap.parent.Some? ==> snap.parent.value in log.snapshots)
    requires (forall r | r in c.rows :: r.snapshot == c.id) && HashedRows(hash, c.rows)
    requires Hashed(hash, c.graph) && Closed(c.graph)
    ensures ValidState(hash, c.graph, Append(log, snap, c.rows), prior[c.id := log.head], NextTrail(trail, c))
  {
    AppendKeepsLog(log, prior, snap, c.rows);
    if Links(nodes, c.graph, c.rows) {
      ExtendedTrail(hash, nodes, log, trail, c, snap);
    } else {
      RestartedTrail(hash, log, c, snap);
    }
  }

  /** Pruning after a rollback keeps the invariant; the record starts at the new snapshot. */
  lemma PruneKeepsState(hash: Hash, nodes: Graph, log: Log, prior: map<nat, nat>, trail: seq<Commit>, target: nat)
    requires ValidState(hash, nodes, log, prior, trail)
    requires target in log.snapshots && target < log.head && log.snapshots[log.head].parent == Some(target)
    ensures var pruned := Prune(log, target, log.head);
      ValidState(hash, nodes, pruned, KeepPrior(prior, pruned), [Commit(log.head, nodes, [])])
  {
    var pruned := Prune(log, target, log.head);
    PruneKeepsLog(log, prior, target);
    assert Hashed(hash, nodes) && Closed(nodes) by {
      assert Last(trail) in trail;
    }
    assert ValidTrailOf(hash, nodes, pruned, [Commit(log.head, nodes, [])]) by {
      PrunedTrail(hash, nodes, log, target);
    }
    assert HashedRows(hash, pruned.diffs) by {
      WithoutMembers(log.diffs, target, log.head);
    }
  }

  lemma PrunedTrail(hash: Hash, nodes: Graph, log: Log, target: nat)
    requires (forall r | r in log.diffs :: r.snapshot <= log.head) && (forall s | s in log.snapshots :: s <= log.head)
    requires Hashed(hash, nodes) && Closed(nodes)
    ensures ValidTrailOf(hash, nodes, Prune(log, target, log.head), [Commit(log.head, nodes, [])])
  {
    var pruned := Prune(log, target, log.head);
    WithoutMembers(log.diffs, target, log.head);
    AfterAllOrNone(pruned.diffs, log.head);
    assert Commit(log.head, nodes, []) in [Commit(log.head, nodes, [])];
  }

  lemma {:induction false} WithoutAppend(a: seq<DiffRow>, b: seq<DiffRow>, target: nat, head: nat)
    ensures Without(a + b, target, head) == Without(a, target, head) + Without(b, target, head)
    decreases |b|
  {
    if b == [] {
      assert a + b == a;
    } else {
      assert Front(a + b) == a + Front(b) && Last(a + b) == Last(b);
      WithoutAppend(a, Front(b), target, head);
    }
  }

  lemma {:induction false} WithoutKeepsAll(rows: seq<DiffRow>, target: nat, head: nat)
    requires forall r | r in rows :: r.snapshot == head
    ensures Without(rows, target, head) == rows
    decreases |rows|
  {
    if rows != [] {
      assert rows == Front(rows) + [Last(rows)];
      WithoutKeepsAll(Front(rows), target, head);
    }
  }

  /** Above the target, pruning leaves exactly the rows of the excluded snapshot. */
  lemma AfterPrune(rows: seq<DiffRow>, last: seq<DiffRow>, target: nat, head: nat)
    requires target < head && (forall r | r in rows :: r.snapshot < head)
    requires forall r | r in last :: r.snapshot == head
    ensures After(Without(rows + last, target, head), target) == last
  {
    WithoutAppend(rows, last, target, head);
    WithoutKeepsAll(last, target, head);
    WithoutMembers(rows, target, head);
    AfterAllOrNone(Without(rows, target, head), target);
    AfterAllOrNone(last, target);
    AfterAppend(Without(rows, target, head), last, target);
  }

  /** Above the old HEAD stand exactly the rows of what came later. */
  lemma AfterHead(rows: seq<DiffRow>, last: seq<DiffRow>, head: nat)
    requires (forall r | r in rows :: r.snapshot <= head) && forall r | r in last :: head < r.snapshot
    ensures After(rows + last, head) == last
  {
    AfterAppend(rows, last, head);
    AfterAllOrNone(rows, head);
    AfterAllOrNone(last, head);
  }

  /** The empty store. */
  lemma EmptyIsValid(hash: Hash)
    ensures ValidState(hash, map[], Log(map[], [], 0, 1), map[], [Commit(0, map[], [])])
  {
    assert Commit(0, map[], []) in [Commit(0, map[], [])];
  }

  // ---- what the invariant gives its readers ----

  /** Restoring any live snapshot since the record began gives the graph that snapshot
      committed, with nothing skipped. */
  lemma RestoreIsExact(hash: Hash, nodes: Graph, log: Log, prior: map<nat, nat>, trail: seq<Commit>, t: nat)
    requires ValidState(hash, nodes, log, prior, trail)
    requires t in log.snapshots && trail[0].id <= t
    ensures Undo(After(log.diffs, t), Restored(nodes, [])) == Restored(GraphAt(trail, t), [])
    ensures exists c :: c in trail && c.id == t && GraphAt(trail, t) == c.graph
  {
    AfterAfter(log.diffs, trail[0].id, t);
    TimeTravel(trail, t);
    assert t in IdsOnTrail(trail);
    var i :| 0 <= i < |trail| && trail[i].id == t;
    ValidLinks(trail);
    GraphAtCommit(trail, i);
    assert trail[i] in trail;
  }
}
