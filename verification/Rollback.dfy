/** Rollback: the delta list between two graphs, and what replaying it in id order reaches. */
module Rollbacks {
  import opened Order
  import opened Graphs
  import opened Deltas
  import opened History
  import opened Trails
  import opened Logs
  import opened States
  import opened Recoveries
  import opened Wrappers

  /** The comparison the code makes; content is compared through its hash only. */
  predicate NodeEqual(a: Node, b: Node) {
    && a.contentHash == b.contentHash && a.parent == b.parent && a.sourceFile == b.sourceFile
    && a.nodeType == b.nodeType && a.depth == b.depth && a.title == b.title
    && a.format == b.format && a.tokenCount == b.tokenCount
  }

  /** Equal hashes mean equal content throughout both graphs. */
  ghost predicate NoCollision(g: Graph, h: Graph) {
    forall x | x in g && x in h && g[x].contentHash == h[x].contentHash :: g[x].content == h[x].content
  }

  function RollbackDelta(current: Graph, target: Graph, id: string): Option<Delta> {
    if id in current && id !in target then
      Some(Delta(id, Rem, current[id].contentHash, "", current[id].content, ""))
    else if id in target && id !in current then
      Some(Delta(id, Add, "", target[id].contentHash, "", target[id].content))
    else if id in target && !NodeEqual(current[id], target[id]) then
      Some(Delta(id, Mod, current[id].contentHash, target[id].contentHash, current[id].content, target[id].content))
    else None
  }

  ghost predicate IsRollbackDeltas(ds: seq<Delta>, current: Graph, target: Graph) {
    && Ascending(ds, (d: Delta) => d.id)
    && forall d :: d in ds <==> RollbackDelta(current, target, d.id) == Some(d)
  }

  method ComputeRollbackDeltas(current: Graph, target: Graph) returns (ds: seq<Delta>)
    ensures IsRollbackDeltas(ds, current, target)
  {
    var deltas: seq<Delta> := [];
    var todo := current.Keys;
    while todo != {}
      invariant todo <= current.Keys
      invariant DistinctKeys(deltas, (d: Delta) => d.id)
      invariant forall d :: d in deltas <==>
                  d.id in current && d.id !in target && d.id !in todo && RollbackDelta(current, target, d.id) == Some(d)
    {
      var id :| id in todo;
      todo := todo - {id};
      if id !in target {
        deltas := deltas + [Delta(id, Rem, current[id].contentHash, "", current[id].content, "")];
      }
    }
    todo := target.Keys;
    while todo != {}
      invariant todo <= target.Keys
      invariant DistinctKeys(deltas, (d: Delta) => d.id)
      invariant forall d :: d in deltas <==> d.id !in todo && RollbackDelta(current, target, d.id) == Some(d)
    {
      var id :| id in todo;
      todo := todo - {id};
      if id !in current {
        deltas := deltas + [Delta(id, Add, "", target[id].contentHash, "", target[id].content)];
      } else if !NodeEqual(current[id], target[id]) {
        deltas := deltas + [Delta(id, Mod, current[id].contentHash, target[id].contentHash,
                                  current[id].content, target[id].content)];
      }
    }
    ds := Sort(deltas, (d: Delta) => d.id);
  }

  /** The random map order the list was collected in cannot be seen in the sorted list. */
  lemma RollbackDeltasAreDetermined(a: seq<Delta>, b: seq<Delta>, current: Graph, target: Graph)
    requires IsRollbackDeltas(a, current, target) && IsRollbackDeltas(b, current, target)
    ensures a == b
  {
    AscendingIsCanonical(a, b, (d: Delta) => d.id);
  }

  lemma RollbackIsHonest(ds: seq<Delta>, current: Graph, target: Graph)
    requires IsRollbackDeltas(ds, current, target)
    ensures Distinct(ds) && InTree(ds, target) && Honest(current, ds, target)
  {
    AscendingIsDistinct(ds, (d: Delta) => d.id);
  }

  lemma RollbackMeansTarget(ds: seq<Delta>, current: Graph, target: Graph)
    requires IsRollbackDeltas(ds, current, target) && NoCollision(current, target)
    ensures Intended(current, ds, target) == target
  {
    RollbackIsHonest(ds, current, target);
    forall x ensures Get(Intended(current, ds, target), x) == Get(target, x) {
      var d := RollbackDelta(current, target, x);
      if d.Some? {
        assert d.value in ds && d.value.id == x;
        OneDeltaPerId(ds, target, d.value);
      } else {
        assert x !in IdsOf(ds);
      }
    }
    SameGraph(Intended(current, ds, target), target);
  }

  /** Rollback reaches its target, on every versioned field of every node, exactly when
      no cascade along the way takes a node whose own delta is absent or already spent. */
  lemma RollbackHitsTargetIff(ds: seq<Delta>, current: Graph, target: Graph)
    requires IsRollbackDeltas(ds, current, target) && NoCollision(current, target)
    ensures Run(current, ds, target) == target <==> CascadeSafe(current, ds, target)
  {
    RollbackIsHonest(ds, current, target);
    RollbackMeansTarget(ds, current, target);
    RunIsIntendedIff(current, ds, target);
  }

  /** No surviving node sits directly below a removed one. */
  ghost predicate RemovedClosed(current: Graph, target: Graph) {
    ChildClosed(current, current.Keys - target.Keys)
  }

  /** When the removed ids are closed under current children, any order of replay is safe. */
  lemma ClosedRemovalIsSafe(ds: seq<Delta>, current: Graph, target: Graph)
    requires IsRollbackDeltas(ds, current, target)
    requires Closed(target) && "" !in current && RemovedClosed(current, target)
    ensures CascadeSafe(current, ds, target)
  {
    RollbackIsHonest(ds, current, target);
    var removed := current.Keys - target.Keys;
    forall x | x in removed ensures x in IdsOf(ds) {
      assert RollbackDelta(current, target, x).value in ds;
    }
    SafeWhileClosed(current, ds, target, removed);
  }

  lemma {:induction false} SafeWhileClosed(g: Graph, ds: seq<Delta>, target: Graph, removed: set<string>)
    requires Distinct(ds) && InTree(ds, target)
    requires Closed(target) && "" !in removed && removed !! target.Keys
    requires forall d | d in ds :: d.op == Rem <==> d.id in removed
    requires ChildClosed(g, removed) && removed * g.Keys <= IdsOf(ds)
    ensures CascadeSafe(g, ds, target)
    decreases |ds|
  {
    if ds != [] {
      var d := ds[0];
      IdsSplit(ds);
      assert d in ds;
      if d.op == Rem && d.id in g {
        GrowIsLeast(g, {d.id}, removed);
      }
      SafeWhileClosed(Step(g, d, target), ds[1..], target, removed);
    }
  }

  // ---- what a rollback leaves in the log ----

  /** A rollback's rows, undone: all of the graph it left but the nodes its cascades lost. */
  lemma RollbackUndone(ds: seq<Delta>, current: Graph, target: Graph, snapshot: nat)
    requires IsRollbackDeltas(ds, current, target)
    ensures var back := Undo(RowsFor(snapshot, current, ds), Restored(Run(current, ds, target), []));
      && back == Restored(Kept(current, ds, target), [])
      && (back == Restored(current, []) <==> Undoable(current, current, ds, target))
  {
    RollbackIsHonest(ds, current, target);
    UndoRecovers(current, ds, target, snapshot);
    UndoableIff(current, ds, target, snapshot);
  }

  lemma RollbackMoves(ds: seq<Delta>, current: Graph, target: Graph)
    requires IsRollbackDeltas(ds, current, target)
    ensures current == target ==> ds == []
  {
    if ds != [] {
      assert ds[0] in ds;
    }
  }

  /** The graph at a snapshot, walked back to from these nodes. */
  function WalkBack(log: Log, nodes: Graph, snapshot: int): Restored {
    Undo(After(log.diffs, snapshot), Restored(nodes, []))
  }

  /** The log once a rollback from current to target is in it. */
  function RolledLog(log: Log, snap: Snapshot, current: Graph, ds: seq<Delta>): Log {
    Append(log, snap, RowsFor(log.nextId, current, ds))
  }

  /** Keeping history, the old HEAD still restores to the graph that was rolled back exactly when no
      cascade took one of its nodes without a delta, or after its own. Otherwise what it restores to
      is that graph without the nodes lost. */
  lemma KeptHistoryRestoresHead(log: Log, snap: Snapshot, ds: seq<Delta>, current: Graph, target: Graph)
    requires log.head < log.nextId && forall r | r in log.diffs :: r.snapshot <= log.head
    requires IsRollbackDeltas(ds, current, target)
    ensures var back := WalkBack(RolledLog(log, snap, current, ds), Run(current, ds, target), log.head);
      && back == Restored(Kept(current, ds, target), [])
      && (back == Restored(current, []) <==> Undoable(current, current, ds, target))
  {
    RowMembers(log.nextId, current, ds);
    AfterHead(log.diffs, RowsFor(log.nextId, current, ds), log.head);
    RollbackUndone(ds, current, target, log.nextId);
  }

  /** A second rollback, to what the old HEAD restores to, brings the old graph back exactly when that
      is the old graph and no node is stranded: a node lost is neither here nor there. */
  lemma BackHome(now: Graph, mid: Graph, goal: Graph, forth: seq<Delta>)
    requires IsRollbackDeltas(forth, mid, goal) && NoCollision(mid, goal)
    requires (forall x | x in goal :: x in now && goal[x] == now[x]) && mid.Keys * now.Keys <= goal.Keys
    ensures Run(mid, forth, goal) == now <==> goal == now && CascadeSafe(mid, forth, goal)
  {
    RollbackHitsTargetIff(forth, mid, goal);
    if Run(mid, forth, goal) == now {
      forall x | x in now ensures x in goal {
        RunStaysWithin(mid, forth, goal, x);
        assert x in IdsOf(forth) ==> RollbackDelta(mid, goal, x).Some?;
        assert x in mid.Keys * now.Keys || x in goal;
      }
      assert goal == now;
    }
  }

  /** Rolling back to any snapshot and then to the old HEAD, each target being what the log restores at
      the time, is the identity exactly when the first can be undone and the second strands no node. */
  lemma ThereAndBack(log: Log, snap: Snapshot, back: seq<Delta>, forth: seq<Delta>, now: Graph, t: nat)
    requires log.head < log.nextId && forall r | r in log.diffs :: r.snapshot <= log.head
    requires IsRollbackDeltas(back, now, WalkBack(log, now, t).nodes)
    requires var mid := Run(now, back, WalkBack(log, now, t).nodes);
      var goal := WalkBack(RolledLog(log, snap, now, back), mid, log.head).nodes;
      IsRollbackDeltas(forth, mid, goal) && NoCollision(mid, goal)
    ensures var past := WalkBack(log, now, t).nodes;
      var mid := Run(now, back, past);
      var goal := WalkBack(RolledLog(log, snap, now, back), mid, log.head).nodes;
      && (goal == now <==> Undoable(now, now, back, past))
      && (Run(mid, forth, goal) == now <==> Undoable(now, now, back, past) && CascadeSafe(mid, forth, goal))
  {
    var past := WalkBack(log, now, t).nodes;
    var mid := Run(now, back, past);
    KeptHistoryRestoresHead(log, snap, back, now, past);
    BackHome(now, mid, Kept(now, back, past), forth);
  }

  /** Whatever a rollback with any delta loses, what it keeps of the graph it left is not its target. */
  lemma KeptIsNotTarget(ds: seq<Delta>, current: Graph, target: Graph)
    requires ds != [] && IsRollbackDeltas(ds, current, target)
    ensures Kept(current, ds, target) != target
  {
    var d, kept := ds[0], Kept(current, ds, target);
    assert d in ds;
    if d.op == Rem {
      assert LogsRemoval(ds, d.id);
      assert d.id in kept && d.id !in target;
    } else if d.id in kept {
      assert kept[d.id] == current[d.id] != target[d.id];
    }
  }

  /** After a rollback that drops history, the one snapshot left above the target carries rows written
      against the discarded HEAD. Restoring the target again walks back over them: never to the target,
      and to the discarded graph exactly when no cascade lost one of its nodes. */
  lemma DroppedHistoryRestoresDiscarded(log: Log, snap: Snapshot, ds: seq<Delta>, discarded: Graph, target: Graph,
                                        t: nat)
    requires t < log.nextId && forall r | r in log.diffs :: r.snapshot < log.nextId
    requires ds != [] && IsRollbackDeltas(ds, discarded, target)
    ensures var pruned := Prune(RolledLog(log, snap, discarded, ds), t, log.nextId);
      var back := WalkBack(pruned, Run(discarded, ds, target), t);
      && back == Restored(Kept(discarded, ds, target), [])
      && (back == Restored(discarded, []) <==> Undoable(discarded, discarded, ds, target))
      && back.nodes != target && discarded != target
  {
    KeptIsNotTarget(ds, discarded, target);
    RowMembers(log.nextId, discarded, ds);
    AfterPrune(log.diffs, RowsFor(log.nextId, discarded, ds), t, log.nextId);
    RollbackUndone(ds, discarded, target, log.nextId);
    RollbackMoves(ds, discarded, target);
  }

  // ---- a rollback that loses a node ----

  function Plain(parent: string, text: string): Node {
    Node(parent, "a.md", "text", 1, text, text, "plain", 1, text)
  }

  const LOST_NOW: Graph := map["a" := Plain("", "A"), "b" := Plain("a", "B"), "c" := Plain("b", "C")]
  const LOST_PAST: Graph := map["b" := Plain("", "B"), "c" := Plain("b", "C")]
  const LOSING: seq<Delta> := [Delta("a", Rem, "A", "", "A", ""), Delta("b", Mod, "B", "B", "B", "B")]

  lemma CascadeTakesAll()
    ensures Delete(LOST_NOW, "a") == map[]
  {
    var gone := Cascade(LOST_NOW, "a");
    assert "b" in ChildrenOf(LOST_NOW, gone);
    assert "c" in ChildrenOf(LOST_NOW, gone);
  }

  lemma LosingIsComputed()
    ensures IsRollbackDeltas(LOSING, LOST_NOW, LOST_PAST)
  {
    assert LOSING[0] in LOSING && LOSING[1] in LOSING;
    assert forall d | d in LOSING :: d == LOSING[0] || d == LOSING[1];
  }

  /** b is moved out from under the removed a, and a sorts first: deleting a cascades to b
      and to b's unchanged child c; b's delta puts b back, nothing puts c back, and the
      result still satisfies every foreign key, so the rollback commits. */
  lemma RollbackCanLoseANode()
    ensures IsRollbackDeltas(LOSING, LOST_NOW, LOST_PAST)
    ensures Closed(LOST_NOW) && Closed(LOST_PAST) && NoCollision(LOST_NOW, LOST_PAST)
    ensures var left := Run(LOST_NOW, LOSING, LOST_PAST);
      left == map["b" := Plain("", "B")] && Closed(left) && left != LOST_PAST
  {
    LosingIsComputed();
    CascadeTakesAll();
    var g1 := Step(LOST_NOW, LOSING[0], LOST_PAST);
    var g2 := Step(g1, LOSING[1], LOST_PAST);
    assert LOSING[1..] == [LOSING[1]] && LOSING[1..][1..] == [];
    assert Run(LOST_NOW, LOSING, LOST_PAST) == Run(g1, LOSING[1..], LOST_PAST) == Run(g2, [], LOST_PAST);
    assert "c" in LOST_PAST && "c" !in g2;
  }

  lemma KeptByLosing()
    ensures Kept(LOST_NOW, LOSING, LOST_PAST) == map["a" := Plain("", "A"), "b" := Plain("a", "B")]
  {
    RollbackCanLoseANode();
    assert LOSING[0] in LOSING && LogsRemoval(LOSING, "a");
    assert !LogsRemoval(LOSING, "c");
  }

  /** Nor does walking back over that rollback find c again: it is neither at the target nor at the
      old HEAD. */
  lemma LostNodeIsNowhere(snapshot: nat)
    ensures "c" in LOST_NOW && "c" in LOST_PAST && "c" !in Run(LOST_NOW, LOSING, LOST_PAST)
    ensures Undo(RowsFor(snapshot, LOST_NOW, LOSING), Restored(Run(LOST_NOW, LOSING, LOST_PAST), []))
            == Restored(map["a" := Plain("", "A"), "b" := Plain("a", "B")], [])
  {
    RollbackCanLoseANode();
    KeptByLosing();
    RollbackUndone(LOSING, LOST_NOW, LOST_PAST, snapshot);
  }

  // ---- a rollback that misses its target and can still be undone ----

  const MISSED_NOW: Graph := map["b" := Plain("", "B"), "c" := Plain("b", "C")]
  const MISSED_PAST: Graph := map["a" := Plain("c", "A"), "c" := Plain("", "C")]
  const MISSING: seq<Delta> :=
    [Delta("a", Add, "", "A", "", "A"), Delta("b", Rem, "B", "", "B", ""), Delta("c", Mod, "C", "C", "C", "C")]

  lemma MissingIsComputed()
    ensures IsRollbackDeltas(MISSING, MISSED_NOW, MISSED_PAST)
  {
    assert MISSING[0] in MISSING && MISSING[1] in MISSING && MISSING[2] in MISSING;
    assert forall d | d in MISSING :: d == MISSING[0] || d == MISSING[1] || d == MISSING[2];
  }

  lemma CascadeTakesTheAdd()
    ensures var g1 := Step(MISSED_NOW, MISSING[0], MISSED_PAST);
      Cascade(g1, "b") == {"a", "b", "c"} && Step(g1, MISSING[1], MISSED_PAST) == map[]
  {
    var g1 := Step(MISSED_NOW, MISSING[0], MISSED_PAST);
    var gone := Cascade(g1, "b");
    assert "c" in ChildrenOf(g1, gone);
    assert "a" in ChildrenOf(g1, gone);
  }

  lemma MissingReaches()
    ensures Run(MISSED_NOW, MISSING, MISSED_PAST) == map["c" := Plain("", "C")]
  {
    CascadeTakesTheAdd();
    var g1 := Step(MISSED_NOW, MISSING[0], MISSED_PAST);
    var g2 := Step(g1, MISSING[1], MISSED_PAST);
    var g3 := Step(g2, MISSING[2], MISSED_PAST);
    assert MISSING[1..][1..] == [MISSING[2]] && MISSING[1..][1..][1..] == [];
    assert Run(MISSED_NOW, MISSING, MISSED_PAST) == Run(g1, MISSING[1..], MISSED_PAST)
        == Run(g2, MISSING[1..][1..], MISSED_PAST) == Run(g3, [], MISSED_PAST);
  }

  lemma KeptByMissing()
    ensures Kept(MISSED_NOW, MISSING, MISSED_PAST) == MISSED_NOW
  {
    MissingReaches();
    assert MISSING[1] in MISSING && LogsRemoval(MISSING, "b");
  }

  /** c is moved out from under the removed b, and the added a below c sorts first: deleting b takes
      c and a, c's delta puts c back, nothing puts a back. What is lost is only what was added, so
      walking back still gives the graph the rollback left. */
  lemma MissedButUndone(snapshot: nat)
    ensures IsRollbackDeltas(MISSING, MISSED_NOW, MISSED_PAST)
    ensures var left := Run(MISSED_NOW, MISSING, MISSED_PAST);
      && left == map["c" := Plain("", "C")] && Closed(left) && left != MISSED_PAST
      && Undo(RowsFor(snapshot, MISSED_NOW, MISSING), Restored(left, [])) == Restored(MISSED_NOW, [])
  {
    MissingIsComputed();
    MissingReaches();
    KeptByMissing();
    RollbackUndone(MISSING, MISSED_NOW, MISSED_PAST, snapshot);
    assert "a" in MISSED_PAST;
  }
}
