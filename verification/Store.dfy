/** The versioned store: a mutable node table with its snapshot log, and the operations
    that commit to it. Each method is one transaction; on failure nothing has changed. */
module Stores {
  import opened Order
  import opened Graphs
  import opened Deltas
  import opened History
  import opened Trails
  import opened Query
  import opened Logs
  import opened States
  import opened Recoveries
  import opened Rollbacks
  import opened Records
  import opened Wrappers
  import F = Forgets
  import C = Compiles
  import E = CompileEffects
  import R = CompileRoots
  import I = ContentId

  datatype Outcome = NoDeltas | Failed | Committed(id: nat)

  /** Refusals first; Aborted is a foreign key left dangling at COMMIT. */
  datatype RollbackOutcome =
    | InvalidId | AlreadyThere | AheadOfHead | NotFound
    | NoChange | Aborted | RolledBack(id: nat)

  // ---- what a commit leaves in the log ----

  /** The log with one snapshot more on top of its HEAD, and these rows. */
  function Extended(log: Log, pairs: seq<Byte>, message: string, root: string, rows: seq<DiffRow>): Log {
    Append(log, Snapshot(CursorInput(log.head, pairs), HeadParent(log.head), message, root), rows)
  }

  /** The ids of the snapshots made with this compile root. */
  function Under(log: Log, root: string): set<nat> {
    set s | s in log.snapshots && log.snapshots[s].compileRoot == root
  }

  /** x was last written by a snapshot made with this compile root. */
  ghost predicate LastWrittenUnder(log: Log, x: string, root: string) {
    exists r :: r in log.diffs && r.id == x
      && r.snapshot in log.snapshots && log.snapshots[r.snapshot].compileRoot == root
      && forall o | o in log.diffs && o.id == x :: o.snapshot <= r.snapshot
  }

  lemma LoadsByRoot(nodes: Graph, log: Log, root: string)
    ensures R.ByRoot(nodes, log.diffs, Under(log, root)).Keys == set x | x in nodes && LastWrittenUnder(log, x, root)
  {
    R.ByRootFinds(nodes, log.diffs, Under(log, root));
    assert forall x :: R.LastRowIn(log.diffs, x, Under(log, root)) <==> LastWrittenUnder(log, x, root);
  }

  lemma DiffsAgainstLoaded(nodes: Graph, log: Log, files: set<string>, fullRescan: bool, root: string,
                           flat: seq<C.FlatNode>, prev: E.Prev, ds: seq<Delta>, removed: seq<string>)
    requires prev == if fullRescan && root != "" then R.ByRoot(nodes, log.diffs, Under(log, root))
                     else E.ByFiles(nodes, files)
    requires C.DistinctIds(flat) && E.IsDiff(ds, removed, flat, prev)
    ensures E.DiffsAgainst(ds, C.Tree(flat), nodes,
                           if fullRescan && root != "" then set x | x in nodes && LastWrittenUnder(log, x, root)
                           else set x | x in nodes && nodes[x].sourceFile in files)
  {
    LoadsByRoot(nodes, log, root);
    assert E.ByFiles(nodes, files).Keys == set x | x in nodes && nodes[x].sourceFile in files;
    E.DiffIsAgainst(ds, removed, flat, prev, nodes);
  }

  function Refusal(log: Log, target: int): (o: Option<RollbackOutcome>)
    ensures o == Some(InvalidId) <==> target <= 0
    ensures o == Some(AlreadyThere) <==> 0 < target == log.head
    ensures o == Some(AheadOfHead) <==> target > 0 && target > log.head
    ensures o == Some(NotFound) <==> 0 < target < log.head && target !in log.snapshots
    ensures o.None? <==> 0 < target < log.head && target in log.snapshots
  {
    if target <= 0 then Some(InvalidId)
    else if log.head == target then Some(AlreadyThere)
    else if target > log.head then Some(AheadOfHead)
    else if target !in log.snapshots then Some(NotFound)
    else None
  }

  function RollbackMessage(target: nat): (m: string)
    ensures |m| > 12 && m[..12] == "rollback to " && I.Number(m[12..]) == target
  {
    I.ItoaIsDecimal(target);
    var m := "rollback to " + I.Itoa(target);
    assert m[12..] == I.Itoa(target);
    m
  }

  /** The log with the snapshot of a rollback more, pruned when history is dropped. */
  function RolledBackLog(log: Log, target: nat, dropAfter: bool, pairs: seq<Byte>, current: Graph,
                         ds: seq<Delta>): Log {
    var logged := RolledLog(log, RollbackSnap(log, target, dropAfter, pairs), current, ds);
    if dropAfter then Prune(logged, target, log.nextId) else logged
  }

  function RollbackSnap(log: Log, target: nat, dropAfter: bool, pairs: seq<Byte>): Snapshot {
    Snapshot(RollbackCursorInput(log.head, target, pairs), Some(if dropAfter then target else log.head),
             RollbackMessage(target), "")
  }

  ghost function RolledRecord(record: seq<Commit>, c: Commit, target: nat, dropAfter: bool): seq<Commit> {
    if dropAfter then Surviving(record + [c], target, c.id) else record + [c]
  }

  /** Keeping history or not, the snapshots form one line after a rollback. */
  lemma RolledBackIsLinear(log: Log, prior: map<nat, nat>, target: nat, dropAfter: bool, pairs: seq<Byte>,
                           current: Graph, ds: seq<Delta>)
    requires ValidSnapshots(log, prior) && Linear(log) && target in log.snapshots
    ensures Linear(RolledBackLog(log, target, dropAfter, pairs, current, ds))
  {
    var snap, rows := RollbackSnap(log, target, dropAfter, pairs), RowsFor(log.nextId, current, ds);
    if dropAfter {
      PruneIsLinear(log, prior, snap, rows, target);
    } else {
      AppendIsLinear(log, prior, snap, rows);
    }
  }

  function ForgetMessage(id: string, mode: F.Mode): (m: string)
    ensures mode == F.Strict ==> m == "forget:strict:" + id
    ensures mode == F.CascadeMode ==> m == "forget:cascade:" + id
    ensures mode == F.Reparent ==> m == "forget:reparent:" + id
  {
    var name := match mode case Strict => "strict" case CascadeMode => "cascade" case Reparent => "reparent";
    "forget:" + name + ":" + id
  }

  function PurgeMessage(files: set<string>): (m: string)
    ensures |m| > 21 && m[..15] == "rescan: purged " && I.Number(m[15..|m| - 6]) == |files| && m[|m| - 6..] == " files"
  {
    I.ItoaIsDecimal(|files|);
    var m := "rescan: purged " + I.Itoa(|files|) + " files";
    assert m[15..|m| - 6] == I.Itoa(|files|);
    m
  }

  class Store {
    const hash: Hash
    var nodes: Graph
    var snapshots: map<nat, Snapshot>
    var diffs: seq<DiffRow>
    var head: nat      // the HEAD cursor, 0 before the first snapshot
    var nextId: nat    // the next AUTOINCREMENT snapshot id
    ghost var prior: map<nat, nat>
    ghost var trail: seq<Commit>     // the exact part of the record
    ghost var record: seq<Commit>    // every commit still in the log, exact or not

    function TheLog(): Log
      reads `snapshots, `diffs, `head, `nextId
    {
      Log(snapshots, diffs, head, nextId)
    }

    /** All of the invariant but the parents, which a rollback that drops history leaves behind for the
        time between its commit and its pruning. */
    ghost predicate Sound()
      reads this
    {
      ValidState(hash, nodes, TheLog(), prior, trail) && ValidRecord(nodes, TheLog(), record)
    }

    ghost predicate Valid()
      reads this
    {
      Sound() && Linear(TheLog())
    }

    constructor (hash: Hash)
      ensures Valid() && this.hash == hash
      ensures nodes == map[] && TheLog() == Log(map[], [], 0, 1) && trail == record == [EMPTY]
    {
      this.hash := hash;
      nodes, snapshots, diffs, head, nextId := map[], map[], [], 0, 1;
      prior, trail, record := map[], [EMPTY], [EMPTY];
      EmptyIsValid(hash);
      EmptyRecord();
    }

    // ---- the pieces of a commit ----

    method CapturePreState(deltas: seq<Delta>) returns (pre: Graph)
      ensures pre == PreState(nodes, deltas)
    {
      pre := map[];
      for i := 0 to |deltas|
        invariant pre == PreState(nodes, deltas[..i])
      {
        var d := deltas[i];
        assert deltas[..i + 1] == deltas[..i] + [d];
        if d.op == Add {
          continue;
        }
        if d.id in nodes {
          pre := pre[d.id := nodes[d.id]];
        }
      }
      assert deltas[..|deltas|] == deltas;
    }

    /** Apply the deltas in order; foreign keys are checked at each statement unless deferred. */
    method Apply(deltas: seq<Delta>, tree: Graph, deferred: bool) returns (ok: bool)
      requires deferred ==> InTree(deltas, tree)
      modifies this`nodes
      ensures ok <==> deferred || UpsertsAllowed(old(nodes), deltas, tree)
      ensures ok ==> nodes == Run(old(nodes), deltas, tree)
    {
      for i := 0 to |deltas|
        invariant Run(nodes, deltas[i..], tree) == Run(old(nodes), deltas, tree)
        invariant UpsertsAllowed(old(nodes), deltas, tree) ==> UpsertsAllowed(nodes, deltas[i..], tree)
        invariant !deferred && UpsertsAllowed(nodes, deltas[i..], tree) ==> UpsertsAllowed(old(nodes), deltas, tree)
      {
        var d := deltas[i];
        assert deltas[i..][1..] == deltas[i + 1..];
        match d.op
        case Rem =>
          nodes := nodes - Cascade(nodes, d.id);
        case _ =>
          if d.id !in tree {
            return false;
          }
          if !deferred && !ParentPresent(nodes, d.id, tree[d.id]) {
            return false;
          }
          nodes := nodes[d.id := tree[d.id]];
      }
      return true;
    }

    method InsertDiffs(id: nat, deltas: seq<Delta>, pre: Graph, ghost before: Graph)
      requires pre == PreState(before, deltas)
      modifies this`diffs
      ensures diffs == old(diffs) + RowsFor(id, before, deltas)
    {
      ghost var rows := RowsFor(id, before, deltas);
      for i := 0 to |deltas|
        invariant diffs == old(diffs) + rows[..i]
      {
        diffs := diffs + [RowFor(id, pre, deltas[i])];
      }
    }

    /** Insert the snapshot and its rows and advance HEAD, unless the cursor is taken or
        the row ids are exhausted. */
    method Record(deltas: seq<Delta>, pre: Graph, ghost before: Graph, snap: Snapshot) returns (ok: bool)
      requires pre == PreState(before, deltas)
      modifies this`snapshots, this`diffs, this`head, this`nextId
      ensures ok <==>
        && old(nextId) <= MAX_ROWID
        && forall s | s in old(snapshots) :: old(snapshots)[s].cursor != snap.cursor
      ensures ok ==> TheLog() == Append(old(TheLog()), snap, RowsFor(old(nextId), before, deltas))
      ensures !ok ==> TheLog() == old(TheLog())
    {
      if nextId > MAX_ROWID || exists s | s in snapshots :: snapshots[s].cursor == snap.cursor {
        return false;
      }
      var id := nextId;
      nextId := id + 1;
      snapshots := snapshots[id := snap];
      InsertDiffs(id, deltas, pre, before);
      head := id;
      return true;
    }

    /** The new state of a commit: all of it when the foreign keys hold and an id is left,
        none of it otherwise. The exact record goes on through a truthful commit and starts
        afresh at any other. */
    twostate predicate Committing(deltas: seq<Delta>, tree: Graph, deferred: bool, snap: Snapshot, r: Outcome)
      reads this
    {
      var next := Run(old(nodes), deltas, tree);
      var rows := RowsFor(old(nextId), old(nodes), deltas);
      if Allowed(old(nodes), old(nextId), deltas, tree, deferred) then
        && r == Committed(old(nextId))
        && nodes == next
        && TheLog() == Append(old(TheLog()), snap, rows)
        && prior == old(prior)[old(nextId) := old(head)]
        && trail == NextTrail(old(trail), Commit(old(nextId), next, rows))
        && record == old(record) + [Commit(old(nextId), next, rows)]
      else
        r == Failed && unchanged(this)
    }

    /** One commit, applied and logged or undone as a whole. */
    method Transact(deltas: seq<Delta>, tree: Graph, deferred: bool, snap: Snapshot) returns (r: Outcome)
      requires deferred ==> InTree(deltas, tree)
      requires forall s | s in snapshots :: snapshots[s].cursor != snap.cursor
      modifies this
      ensures Committing(deltas, tree, deferred, snap, r)
    {
      var pre := CapturePreState(deltas);
      var before := nodes;
      var ok := Apply(deltas, tree, deferred);
      // deferred keys are checked at COMMIT; nothing after this point changes a node
      if ok && deferred {
        ok := forall x | x in nodes :: nodes[x].parent == "" || nodes[x].parent in nodes;
      }
      if ok {
        ok := Record(deltas, pre, before, snap);
      }
      if !ok {
        nodes := before;
        return Failed;
      }
      prior := prior[head := old(head)];
      ghost var c := Commit(head, nodes, RowsFor(head, before, deltas));
      trail, record := NextTrail(trail, c), record + [c];
      r := Committed(head);
    }

    /** Commit deltas: node writes, one snapshot, one row per delta, HEAD advanced. The
        commit goes through exactly when every statement's foreign keys hold, the cursor
        never being a duplicate. */
    method Emit(deltas: seq<Delta>, tree: Graph, cursor: seq<Byte>, message: string, root: string)
      returns (r: Outcome)
      requires Valid() && FoldsHead(cursor, head)
      requires Hashed(hash, tree) && HashedDeltas(hash, deltas)
      modifies this
      ensures Valid()
      ensures deltas == [] ==> r == NoDeltas && unchanged(this)
      ensures deltas != [] ==>
        Committing(deltas, tree, false, Snapshot(cursor, HeadParent(old(head)), message, root), r)
      ensures r.Committed? ==>
        && r.id == old(nextId)
        && snapshots == old(snapshots)[r.id := Snapshot(cursor, if old(head) == 0 then None else Some(old(head)),
                                                        message, root)]
    {
      if |deltas| == 0 {
        return NoDeltas;
      }
      var snap := Snapshot(cursor, HeadParent(head), message, root);
      CommitIsSound(hash, nodes, TheLog(), prior, trail, deltas, tree, false, snap);
      CommitIsRecorded(hash, nodes, TheLog(), prior, trail, record, deltas, tree, snap);
      AppendIsLinear(TheLog(), prior, snap, RowsFor(nextId, nodes, deltas));
      r := Transact(deltas, tree, false, snap);
    }

    // ---- restore and rollback ----

    /** The node set at target, walked back from HEAD; a target that is no live snapshot
        is not found. It is the graph target left when every later commit still in the log can be
        undone, as all those of the exact record can. */
    method RestoreToSnapshot(target: nat) returns (r: Option<Restored>)
      requires Valid()
      ensures r.Some? <==> target in snapshots
      ensures r.Some? ==> r.value == Undo(After(diffs, target), Restored(nodes, []))
      ensures r.Some? && trail[0].id <= target ==> r.value == Restored(GraphAt(trail, target), [])
      ensures r.Some? ==>
        forall i: nat | i < |record| && record[i].id == target && AllUndo(record, i) ::
          r.value == Restored(record[i].graph, [])
    {
      if target !in snapshots {
        return None;
      }
      RestoresExactly(hash, nodes, TheLog(), prior, trail, record, target);
      var restored := ReverseApply(After(diffs, target), nodes);
      r := Some(restored);
    }

    /** Undo rows on a copy of the nodes, last row first. */
    static method ReverseApply(rows: seq<DiffRow>, nodes: Graph) returns (r: Restored)
      ensures r == Undo(rows, Restored(nodes, []))
    {
      var state: Graph, skipped: seq<string> := nodes, [];
      assert rows[..|rows|] == rows;
      for i := |rows| downto 0
        invariant Undo(rows[..i], Restored(state, skipped)) == Undo(rows, Restored(nodes, []))
      {
        var d := rows[i];
        assert Front(rows[..i + 1]) == rows[..i] && Last(rows[..i + 1]) == d;
        match d.op
        case Add =>
          state := state - {d.id};
        case Mod =>
          if d.id in state {
            var n := state[d.id].(content := d.oldContent, contentHash := d.oldHash);
            if d.meta.Some? {
              n := NodeFrom(d.meta.value, n.content, n.contentHash);
            }
            state := state[d.id := n];
          }
        case Rem =>
          if d.meta.None? {
            skipped := skipped + [d.id];
          } else {
            state := state[d.id := NodeFrom(d.meta.value, d.oldContent, d.oldHash)];
          }
      }
      r := Restored(state, skipped);
    }

    /** Hard-delete the snapshots above target, and their rows, except HEAD. */
    method PruneSnapshotsAfter(target: nat)
      requires Sound() && target in snapshots && target < head && snapshots[head].parent == Some(target)
      modifies this
      ensures Sound()
      ensures nodes == old(nodes) && TheLog() == Prune(old(TheLog()), target, old(head))
      ensures trail == [Commit(head, nodes, [])] && record == Surviving(old(record), target, old(head))
    {
      PruneIsSound(hash, nodes, TheLog(), prior, trail, record, target);
      DeleteAfter(target, head);
    }

    method DeleteAfter(target: nat, exclude: nat)
      modifies this`diffs, this`snapshots, this`prior, this`trail, this`record
      ensures TheLog() == Prune(old(TheLog()), target, exclude)
      ensures prior == KeepPrior(old(prior), TheLog()) && trail == [Commit(exclude, nodes, [])]
      ensures record == Surviving(old(record), target, exclude)
    {
      diffs := Without(diffs, target, exclude);
      snapshots := map s | s in snapshots && (s <= target || s == exclude) :: snapshots[s];
      prior, trail := KeepPrior(prior, TheLog()), [Commit(exclude, nodes, [])];
      record := Surviving(record, target, exclude);
    }

    /** The graph a rollback to target aims at. */
    ghost function Goal(target: int): Graph
      reads this
    {
      WalkBack(TheLog(), nodes, target).nodes
    }

    /** The guards a rollback checks before it looks at any node. */
    function RollbackRefusal(target: int): Option<RollbackOutcome>
      reads this
    {
      Refusal(TheLog(), target)
    }

    /** Walk the graph back to a prior snapshot as one forward commit, dropping the history
        in between on request. ds is the delta list it computed. The old graph, without the
        nodes a cascade lost, is then what the old HEAD restores to, or with the history dropped
        the target itself, which no longer restores to what it held. */
    method Rollback(target: int, dropAfter: bool, pairs: seq<Byte>) returns (r: RollbackOutcome, ghost ds: seq<Delta>)
      requires Valid()
      modifies this
      ensures Valid()
      ensures old(RollbackRefusal(target)).Some? ==> r == old(RollbackRefusal(target)).value && unchanged(this)
      ensures old(RollbackRefusal(target)).None? ==> RollingBack(target, dropAfter, pairs, ds, r)
      ensures r.RolledBack? ==>
        && r.id in snapshots && snapshots[r.id].parent == Some(if dropAfter then target else old(head))
        && snapshots[r.id].compileRoot == "" && snapshots[r.id].message == RollbackMessage(target)
      ensures r.RolledBack? && NoCollision(old(nodes), old(Goal(target))) ==>
        (nodes == old(Goal(target)) <==> CascadeSafe(old(nodes), ds, old(Goal(target))))
      ensures r.RolledBack? ==> old(RollbackRefusal(target)).None? && old(nodes) != old(Goal(target))
      ensures r.RolledBack? ==>
        && nodes == Run(old(nodes), ds, old(Goal(target)))
        && TheLog() == RolledBackLog(old(TheLog()), target, dropAfter, pairs, old(nodes), ds)
      ensures r.RolledBack? ==>
        var back := WalkBack(TheLog(), nodes, if dropAfter then target else old(head));
        && back == Restored(Kept(old(nodes), ds, old(Goal(target))), [])
        && (back == Restored(old(nodes), []) <==> Undoable(old(nodes), old(nodes), ds, old(Goal(target))))
      ensures r.RolledBack? && old(trail)[0].id <= target ==> old(Goal(target)) == GraphAt(old(trail), target)
      ensures r.RolledBack? ==>
        record == RolledRecord(old(record), Commit(r.id, nodes, RowsFor(r.id, old(nodes), ds)), target, dropAfter)
    {
      ds := [];
      if target <= 0 {
        return InvalidId, [];
      }
      if head == target {
        return AlreadyThere, [];
      }
      if target > head {
        return AheadOfHead, [];
      }
      var restored := RestoreToSnapshot(target);
      if restored.None? {
        return NotFound, [];
      }
      var goal := restored.value.nodes;
      var deltas := ComputeRollbackDeltas(nodes, goal);
      ds := deltas;
      RollbackReady(hash, nodes, TheLog(), prior, trail, target, ds);
      if |deltas| == 0 {
        return NoChange, ds;
      }
      RollbackKeepsOldGraph(hash, nodes, TheLog(), prior, trail, target, ds);
      r := CommitRollback(target, goal, deltas, dropAfter, pairs);
    }

    /** The transaction of a rollback, and the pruning after it. */
    method CommitRollback(target: nat, goal: Graph, deltas: seq<Delta>, dropAfter: bool, pairs: seq<Byte>)
      returns (r: RollbackOutcome)
      requires Valid() && target in snapshots && target < head && goal == Goal(target)
      requires deltas != [] && IsRollbackDeltas(deltas, nodes, goal)
      modifies this
      ensures Valid()
      ensures RollingBack(target, dropAfter, pairs, deltas, r)
      ensures r.RolledBack? ==>
        record == RolledRecord(old(record), Commit(r.id, nodes, RowsFor(r.id, old(nodes), deltas)), target, dropAfter)
    {
      var snap := RollbackSnap(TheLog(), target, dropAfter, pairs);
      RollbackReady(hash, nodes, TheLog(), prior, trail, target, deltas);
      CursorFormsFoldHead(head, target, pairs);
      CommitIsSound(hash, nodes, TheLog(), prior, trail, deltas, goal, true, snap);
      CommitIsRecorded(hash, nodes, TheLog(), prior, trail, record, deltas, goal, snap);
      RolledBackIsLinear(TheLog(), prior, target, dropAfter, pairs, nodes, deltas);
      var out := Transact(deltas, goal, true, snap);
      if out.Failed? {
        return Aborted;
      }
      r := RolledBack(head);
      if dropAfter {
        PruneSnapshotsAfter(target);
      }
    }

    twostate predicate RollingBack(target: nat, dropAfter: bool, pairs: seq<Byte>, ds: seq<Delta>, r: RollbackOutcome)
      reads this
    {
      var was, goal, id := old(nodes), old(Goal(target)), old(nextId);
      && IsRollbackDeltas(ds, was, goal)
      && if ds == [] then r == NoChange && unchanged(this) && (NoCollision(was, goal) ==> nodes == goal)
         else if !Allowed(was, id, ds, goal, true) then r == Aborted && unchanged(this)
         else
           && r == RolledBack(id) && nodes == Run(was, ds, goal)
           && TheLog() == RolledBackLog(old(TheLog()), target, dropAfter, pairs, was, ds)
           && trail == if dropAfter then [Commit(id, nodes, [])]
                       else NextTrail(old(trail), Commit(id, nodes, RowsFor(id, was, ds)))
    }

    // ---- writing, summarizing, forgetting, purging, compiling ----

    /** Commit one changed or new node as a snapshot of its own. */
    method EmitNodeChange(id: string, n: Node, pairs: seq<Byte>, message: string) returns (r: Outcome)
      requires Valid() && id != "" && n.contentHash == hash(n.content)
      requires if id in nodes then n.parent == nodes[id].parent else n.parent == ""
      modifies this
      ensures Valid()
      ensures NodeChanging(id, n, pairs, message, r)
    {
      var deltas, removed := C.DiffFlat([C.FlatNode(id, n)], PrevOf(nodes, id));
      ghost var was, g := trail, nodes;
      NodeChangeIsTruthful(hash, nodes, TheLog(), prior, trail, id, n, deltas, removed);
      CursorFormsFoldHead(head, 0, pairs);
      r := Emit(deltas, map[id := n], CursorInput(head, pairs), message, "");
      if r.Committed? {
        TruthfulCommitExtends(was, r.id, g, deltas, map[id := n]);
      }
    }

    /** Nothing when the stored hash is already n's; otherwise n is stored, every other node
        is as it was, and the log and the exact record go on by one row about id, under no
        compile root. */
    twostate predicate NodeChanging(id: string, n: Node, pairs: seq<Byte>, new message: string, r: Outcome)
      reads this
    {
      if id in old(nodes) && old(nodes)[id].contentHash == n.contentHash then r == NoDeltas && unchanged(this)
      else if old(nextId) > MAX_ROWID then r == Failed && unchanged(this)
      else
        && r == Committed(old(nextId)) && head == r.id
        && nodes == old(nodes)[id := n]
        && |trail| == |old(trail)| + 1 && trail[..|old(trail)|] == old(trail)
        && |Last(trail).rows| == 1 && Last(trail).rows[0].id == id
        && TheLog() == Extended(old(TheLog()), pairs, message, "", Last(trail).rows)
    }

    /** The node under id holds this content, title and size; a node stored before keeps its place and
        kind, a new one is a root of the writes' own file. */
    twostate predicate Holds(id: string, payload: string, new title: string, tokens: int)
      reads this
    {
      && id in nodes && nodes[id].content == payload && nodes[id].contentHash == hash(payload)
      && nodes[id].title == title && nodes[id].tokenCount == tokens
      && if id in old(nodes) then
           var was := old(nodes)[id];
           && nodes[id].parent == was.parent && nodes[id].sourceFile == was.sourceFile
           && nodes[id].nodeType == was.nodeType && nodes[id].depth == was.depth && nodes[id].format == was.format
         else
           && nodes[id].parent == "" && nodes[id].sourceFile == "mcp:write"
           && nodes[id].nodeType == "text" && nodes[id].depth == 1 && nodes[id].format == "plain"
    }

    function WrittenNode(id: string, payload: string, title: string, tokens: int): Node
      reads this
    {
      if id in nodes then
        nodes[id].(title := title, content := payload, tokenCount := tokens, contentHash := hash(payload))
      else
        Node("", WRITTEN, "text", 1, title, payload, "plain", tokens, hash(payload))
    }

    /** MemoryWrite: update the node in place, or create a root node under a fresh id. */
    method Write(id: string, payload: string, title: string, tokens: int, pairs: seq<Byte>) returns (r: Outcome)
      requires Valid() && id != ""
      modifies this
      ensures Valid()
      ensures NodeChanging(id, old(WrittenNode(id, payload, title, tokens)), pairs, "write:" + id, r)
      ensures r.NoDeltas? <==> id in old(nodes) && hash(old(nodes)[id].content) == hash(payload)
      ensures r.Committed? ==> Holds(id, payload, title, tokens)
    {
      StoredHashes(hash, nodes, TheLog(), prior, trail);
      r := EmitNodeChange(id, WrittenNode(id, payload, title, tokens), pairs, "write:" + id);
    }

    function SummaryNode(id: string, summary: string, title: string, tokens: int): Node
      reads this
    {
      WrittenNode(id, summary, "Summary: " + title, tokens)
    }

    /** MemorySummarize: replace a stored node's content. */
    method Summarize(id: string, summary: string, title: string, tokens: int, pairs: seq<Byte>)
      returns (r: Option<Outcome>)
      requires Valid()
      modifies this
      ensures Valid()
      ensures r.None? <==> id !in old(nodes)
      ensures r.None? ==> unchanged(this)
      ensures r.Some? ==>
        NodeChanging(id, old(SummaryNode(id, summary, title, tokens)), pairs, "summarize:" + id, r.value)
      ensures r.Some? && r.value.Committed? ==> Holds(id, summary, "Summary: " + title, tokens)
    {
      if id !in nodes {
        return None;
      }
      StoredHashes(hash, nodes, TheLog(), prior, trail);
      var o := EmitNodeChange(id, SummaryNode(id, summary, title, tokens), pairs, "summarize:" + id);
      r := Some(o);
    }

    /** MemoryForget. When no node is its own ancestor, each mode leaves exactly the forest
        it names and the exact record goes on. */
    method Forget(id: string, mode: F.Mode, pairs: seq<Byte>, ghost rank: string -> nat)
      returns (r: ForgetOutcome, ghost ds: seq<Delta>)
      requires Valid()
      modifies this
      ensures Valid()
      ensures r == MissingId <==> id == ""
      ensures r == NoSuchNode <==> id != "" && id !in old(nodes)
      ensures r.HasChildren? <==> id in old(nodes) && mode == F.Strict && ChildrenOf(old(nodes), {id}) != {}
      ensures !(r.Emitted? && r.outcome.Committed?) ==> unchanged(this)
      ensures r.Emitted? ==> (r.outcome.Committed? <==> old(nextId) <= MAX_ROWID)
      ensures r.Emitted? && r.outcome.Committed? ==>
        TheLog() == Extended(old(TheLog()), pairs, ForgetMessage(id, mode), "", RowsFor(old(nextId), old(nodes), ds))
      ensures r.Emitted? && r.outcome.Committed? && AcyclicBy(old(nodes), rank) ==>
        && nodes == F.Forgotten(old(nodes), id, mode)
        && |trail| == |old(trail)| + 1 && trail[..|old(trail)|] == old(trail)
    {
      ds := [];
      StoredHashes(hash, nodes, TheLog(), prior, trail);
      if id == "" {
        return MissingId, [];
      }
      if id !in nodes {
        return NoSuchNode, [];
      }
      var p := F.BuildForgetDeltas(nodes, id, mode);
      ghost var kids, below :| F.IsPlan(p, nodes, id, mode, kids, below);
      F.ListsNothing(kids, ChildrenOf(nodes, {id}));
      match p
      case Refused(n) =>
        return HasChildren(n), [];
      case Accepted(tree, deltas) =>
        ghost var was, g := trail, nodes;
        ds := deltas;
        ForgetReady(hash, nodes, p, id, mode, kids, below);
        CursorFormsFoldHead(head, 0, pairs);
        var o := Emit(deltas, tree, CursorInput(head, pairs), ForgetMessage(id, mode), "");
        if o.Committed? && AcyclicBy(g, rank) {
          F.ForgetLeaves(p, g, id, mode, kids, below, rank);
          TruthfulCommitExtends(was, o.id, g, deltas, tree);
        }
        r := Emitted(o);
    }

    /** The stored state a compile diffs against. */
    function PrevFor(files: set<string>, fullRescan: bool, root: string): E.Prev
      reads this
    {
      if fullRescan && root != "" then
        R.ByRoot(nodes, diffs, Under(TheLog(), root))
      else E.ByFiles(nodes, files)
    }

    /** Compile a parsed forest. files are the stored keys of its files and of the files
        that were skipped. It commits exactly when there is a change, an id is left and every
        statement's foreign keys hold, as they do for a forest that lists parents first. */
    method Compile(flat: seq<C.FlatNode>, files: set<string>, fullRescan: bool, root: string,
                   pairs: seq<Byte>, message: string)
      returns (r: Outcome, ghost ds: seq<Delta>, ghost removed: seq<string>)
      requires Valid() && C.DistinctIds(flat) && Hashed(hash, C.Tree(flat))
      modifies this
      ensures Valid()
      ensures E.IsDiff(ds, removed, flat, old(PrevFor(files, fullRescan, root)))
      ensures E.DiffsAgainst(ds, C.Tree(flat), old(nodes),
                             if fullRescan && root != "" then
                               set x | x in old(nodes) && LastWrittenUnder(old(TheLog()), x, root)
                             else
                               set x | x in old(nodes) && old(nodes)[x].sourceFile in files)
      ensures r.NoDeltas? <==> E.EmptyDiff(C.Tree(flat), old(PrevFor(files, fullRescan, root)))
      ensures r.Committed? <==>
        ds != [] && old(nextId) <= MAX_ROWID && UpsertsAllowed(old(nodes), ds, C.Tree(flat))
      ensures C.ParentsFirst(flat) ==>
        (r.Committed? <==>
          && !E.EmptyDiff(C.Tree(flat), old(PrevFor(files, fullRescan, root)))
          && old(nextId) <= MAX_ROWID)
      ensures !r.Committed? ==> unchanged(this)
      ensures r.Committed? ==>
        nodes == E.Compiled(old(nodes), C.Tree(flat), old(PrevFor(files, fullRescan, root)))
      ensures r.Committed? ==>
        && r.id == old(nextId)
        && TheLog() == Extended(old(TheLog()), pairs, message, root, RowsFor(r.id, old(nodes), ds))
        && trail == NextTrail(old(trail), Commit(r.id, nodes, RowsFor(r.id, old(nodes), ds)))
    {
      var prev := PrevFor(files, fullRescan, root);
      var deltas, gone := C.DiffFlat(flat, prev);
      ds, removed := deltas, gone;
      CompileReady(hash, nodes, TheLog(), prior, trail, flat, prev, ds, removed);
      DiffsAgainstLoaded(nodes, TheLog(), files, fullRescan, root, flat, prev, ds, removed);
      var tree := C.Tree(flat);
      CursorFormsFoldHead(head, 0, pairs);
      r := Emit(deltas, tree, CursorInput(head, pairs), message, root);
    }

    /** Remove every node of the deleted files, as the rescan loop does. */
    method Purge(files: set<string>, pairs: seq<Byte>) returns (r: Outcome, ghost ds: seq<Delta>)
      requires Valid()
      modifies this
      ensures Valid()
      ensures IdsOf(ds) == set x | x in old(nodes) && old(nodes)[x].sourceFile in files
      ensures AllRemovals(ds) && Distinct(ds)
      ensures forall d | d in ds :: d.id in old(nodes) && d == F.RemDelta(d.id, old(nodes)[d.id])
      ensures !r.Committed? ==> unchanged(this)
      ensures r.Committed? <==> ds != [] && old(nextId) <= MAX_ROWID
      ensures r.Committed? ==> nodes == old(nodes) - Grow(old(nodes), IdsOf(ds))
      ensures r.Committed? ==>
        && r.id == old(nextId)
        && TheLog() == Extended(old(TheLog()), pairs, PurgeMessage(files), "", RowsFor(r.id, old(nodes), ds))
        && trail == NextTrail(old(trail), Commit(r.id, nodes, RowsFor(r.id, old(nodes), ds)))
    {
      StoredHashes(hash, nodes, TheLog(), prior, trail);
      var ids := F.Rows(set x | x in nodes && nodes[x].sourceFile in files);
      var deltas := F.Removals(nodes, ids);
      ds := deltas;
      PurgeReady(hash, nodes, (set x | x in nodes && nodes[x].sourceFile in files), ids);
      CursorFormsFoldHead(head, 0, pairs);
      r := Emit(deltas, map[], CursorInput(head, pairs), PurgeMessage(files), "");
    }

    // ---- the readers ----

    /** MemoryDiff: the net change over (from, to], refused when the bounds are reversed. */
    method Diff(from: int, to: int) returns (r: Option<seq<DiffRow>>)
      requires Valid()
      ensures r == if from > to then None
                   else Some(Consolidated(diffs, from, to))
      ensures r.Some? && trail[0].id <= from ==> Compares(GraphAt(trail, from), GraphAt(trail, to), r.value)
      ensures r.Some? && 0 <= from && LinksWithin(record, from, to) ==>
        Compares(GraphAt(record, from), GraphAt(record, to), r.value)
    {
      if from > to {
        return None;
      }
      if trail[0].id <= from {
        BetweenAfter(diffs, trail[0].id, from, to);
        ValidLinks(trail);
        DiffIsComparison(trail, from, to);
      }
      if 0 <= from && LinksWithin(record, from, to) {
        DiffIsComparison(record, from, to);
      }
      var raw := Between(diffs, from, to);
      var out := ConsolidateDiffs(raw);
      r := Some(out);
    }

    /** MemoryDelta: one page of the rows after since. */
    method Changes(since: int, limit: int) returns (p: Page)
      requires Valid() && limit <= MAX_INT64
      ensures IsPage(After(diffs, since), limit, p)
    {
      p := Query.Delta(diffs, since, limit);
    }
  }

  /** A rollback that keeps history: the old HEAD stays a live snapshot, and restores to the old graph
      exactly when no cascade lost a node of it. */
  method RollKeeping(s: Store, target: int, pairs: seq<Byte>) returns (r: RollbackOutcome, ghost ds: seq<Delta>)
    requires s.Valid()
    modifies s
    ensures s.Valid()
    ensures r.RolledBack? ==>
      && s.nodes == Run(old(s.nodes), ds, old(s.Goal(target))) && s.nextId == old(s.nextId) + 1
      && s.RollbackRefusal(old(s.head)).None?
      && (Undoable(old(s.nodes), old(s.nodes), ds, old(s.Goal(target))) ==> s.Goal(old(s.head)) == old(s.nodes))
  {
    HeadIsLive(s.hash, s.nodes, s.TheLog(), s.prior, s.trail);
    ghost var log, was := s.TheLog(), s.nodes;
    r, ds := s.Rollback(target, false, pairs);
    if r.RolledBack? {
      ghost var snap := RollbackSnap(log, target, false, pairs);
      assert s.TheLog() == RolledLog(log, snap, was, ds);
      OldHeadIsLive(log, snap, was, ds);
    }
  }

  lemma OldHeadIsLive(log: Log, snap: Snapshot, was: Graph, ds: seq<Delta>)
    requires 0 < log.head < log.nextId && log.head in log.snapshots
    ensures Refusal(RolledLog(log, snap, was, ds), log.head).None?
  {
  }

  /** A rollback to a graph with no missing parents gets there when it strands no node and an id is
      left, as a new commit unless it is there already. */
  method RollTo(s: Store, target: int, pairs: seq<Byte>) returns (r: RollbackOutcome, ghost ds: seq<Delta>)
    requires s.Valid()
    modifies s
    ensures s.Valid()
    ensures old(s.RollbackRefusal(target)).None? && Closed(old(s.Goal(target))) ==>
      && IsRollbackDeltas(ds, old(s.nodes), old(s.Goal(target)))
      && (ReachesGoal(old(s.nodes), ds, old(s.Goal(target))) && old(s.nextId) <= MAX_ROWID ==>
            s.nodes == old(s.Goal(target)) && (r.RolledBack? <==> old(s.Goal(target)) != old(s.nodes)))
  {
    ghost var was, goal := s.nodes, s.Goal(target);
    r, ds := s.Rollback(target, false, pairs);
    if IsRollbackDeltas(ds, was, goal) && ReachesGoal(was, ds, goal) {
      RollbackHitsTargetIff(ds, was, goal);
      RollbackMoves(ds, was, goal);
    }
  }

  /** Roll back, then roll back to what was HEAD. When the first lost no node of the old graph, the
      second strands none and an id is left, the old graph is back. */
  method RollThereAndBack(s: Store, target: int, pairs: seq<Byte>, morePairs: seq<Byte>)
    returns (there: RollbackOutcome, back: RollbackOutcome, ghost ds: seq<Delta>, ghost es: seq<Delta>)
    requires s.Valid()
    modifies s
    ensures s.Valid()
    ensures there.RolledBack? && Undoable(old(s.nodes), old(s.nodes), ds, old(s.Goal(target))) ==>
      var mid := Run(old(s.nodes), ds, old(s.Goal(target)));
      && IsRollbackDeltas(es, mid, old(s.nodes))
      && (ReachesGoal(mid, es, old(s.nodes)) && old(s.nextId) < MAX_ROWID ==>
            s.nodes == old(s.nodes) && (back.RolledBack? <==> mid != old(s.nodes)))
  {
    var head := s.head;
    StoredHashes(s.hash, s.nodes, s.TheLog(), s.prior, s.trail);
    there, ds := RollKeeping(s, target, pairs);
    back, es := RollTo(s, head, morePairs);
  }

  ghost predicate ReachesGoal(now: Graph, ds: seq<Delta>, past: Graph) {
    NoCollision(now, past) && CascadeSafe(now, ds, past)
  }

  datatype ForgetOutcome = MissingId | NoSuchNode | HasChildren(count: nat) | Emitted(outcome: Outcome)

  lemma StoredHashes(hash: Hash, nodes: Graph, log: Log, prior: map<nat, nat>, trail: seq<Commit>)
    requires ValidState(hash, nodes, log, prior, trail)
    ensures Hashed(hash, nodes) && Closed(nodes) && trail != [] && Last(trail).graph == nodes
  {
    assert Last(trail) in trail;
  }

  lemma HeadIsLive(hash: Hash, nodes: Graph, log: Log, prior: map<nat, nat>, trail: seq<Commit>)
    requires ValidState(hash, nodes, log, prior, trail)
    ensures log.head < log.nextId && (log.head != 0 ==> log.head in log.snapshots)
    ensures forall s | s in log.snapshots :: s <= log.head
    ensures forall r | r in log.diffs :: r.snapshot <= log.head
  {
  }

  /** The state a single-node change is diffed against. */
  function PrevOf(nodes: Graph, id: string): E.Prev {
    if id in nodes then map[id := C.NodeState(nodes[id].contentHash, nodes[id].content)] else map[]
  }

  lemma SingleDiff(id: string, n: Node, prev: E.Prev, ds: seq<Delta>, removed: seq<string>)
    requires prev.Keys <= {id} && E.IsDiff(ds, removed, [C.FlatNode(id, n)], prev)
    ensures ds == match C.ChangeFor(id, n, prev) { case Some(d) => [d] case None => [] }
  {
    var flat := [C.FlatNode(id, n)];
    assert flat[0] in flat && flat[..0] == [];
    assert id in C.Ids(flat);
    AscendingIsDistinct(removed, (x: string) => x);
    F.ListsNothing(removed, prev.Keys - C.Ids(flat));
    assert prev.Keys - C.Ids(flat) == {};
    assert C.RemovalDeltas(removed, prev) == [];
    assert C.Changes(flat[..0], prev) == [];
  }

  lemma NodeChangeIsTruthful(hash: Hash, nodes: Graph, log: Log, prior: map<nat, nat>, trail: seq<Commit>,
                             id: string, n: Node, ds: seq<Delta>, removed: seq<string>)
    requires ValidState(hash, nodes, log, prior, trail) && id != "" && n.contentHash == hash(n.content)
    requires if id in nodes then n.parent == nodes[id].parent else n.parent == ""
    requires E.IsDiff(ds, removed, [C.FlatNode(id, n)], PrevOf(nodes, id))
    ensures ds == [] <==> id in nodes && nodes[id].contentHash == n.contentHash
    ensures ds != [] ==> |ds| == 1 && ds[0].id == id && Run(nodes, ds, map[id := n]) == nodes[id := n]
    ensures HashedDeltas(hash, ds) && Hashed(hash, map[id := n])
    ensures Faithful(nodes, ds, map[id := n]) && UpsertsAllowed(nodes, ds, map[id := n])
    ensures trail != [] && Last(trail).graph == nodes
  {
    StoredHashes(hash, nodes, log, prior, trail);
    SingleDiff(id, n, PrevOf(nodes, id), ds, removed);
    SingleChange(nodes, id, n, ds);
    SingleIsHashed(hash, nodes, id, n, ds);
  }

  lemma SingleIsHashed(hash: Hash, g: Graph, id: string, n: Node, ds: seq<Delta>)
    requires ds == match C.ChangeFor(id, n, PrevOf(g, id)) { case Some(d) => [d] case None => [] }
    requires Hashed(hash, g) && id != "" && n.contentHash == hash(n.content)
    ensures ds == [] <==> id in g && g[id].contentHash == n.contentHash
    ensures HashedDeltas(hash, ds) && Hashed(hash, map[id := n])
  {
  }

  /** The one delta of a changed or new node states the stored values truthfully. */
  lemma SingleChange(g: Graph, id: string, n: Node, ds: seq<Delta>)
    requires ds == match C.ChangeFor(id, n, PrevOf(g, id)) { case Some(d) => [d] case None => [] }
    requires ParentPresent(g, id, n)
    ensures ds != [] ==> |ds| == 1 && ds[0].id == id && Run(g, ds, map[id := n]) == g[id := n]
    ensures Faithful(g, ds, map[id := n]) && UpsertsAllowed(g, ds, map[id := n])
  {
    if ds != [] {
      SingleUpsert(g, ds, id, n);
    }
  }

  lemma SingleUpsert(g: Graph, ds: seq<Delta>, id: string, n: Node)
    requires |ds| == 1 && ds[0].op != Rem && ds[0].id == id && ParentPresent(g, id, n)
    ensures Run(g, ds, map[id := n]) == g[id := n]
    ensures CascadeSafe(g, ds, map[id := n]) && UpsertsAllowed(g, ds, map[id := n])
  {
    assert ds[1..] == [];
    assert Run(g, ds, map[id := n]) == Run(g[id := n], ds[1..], map[id := n]);
  }

  lemma {:induction false} RemovalsAllowed(g: Graph, rems: seq<Delta>, tree: Graph)
    requires AllRemovals(rems)
    ensures UpsertsAllowed(g, rems, tree)
    decreases |rems|
  {
    if rems != [] {
      RemovalsAllowed(Step(g, rems[0], tree), rems[1..], tree);
    }
  }

  /** Upserts below nodes that are already stored pass every foreign key. */
  lemma {:induction false} UpsertsBelowStored(g: Graph, ups: seq<Delta>, rems: seq<Delta>, tree: Graph)
    requires AllUpserts(ups) && AllRemovals(rems)
    requires forall d | d in ups :: d.id in tree && ParentPresent(g, d.id, tree[d.id])
    ensures UpsertsAllowed(g, ups + rems, tree)
    decreases |ups|
  {
    if ups == [] {
      assert ups + rems == rems;
      RemovalsAllowed(g, rems, tree);
    } else {
      assert (ups + rems)[1..] == ups[1..] + rems;
      assert ups[0] in ups;
      UpsertsBelowStored(Step(g, ups[0], tree), ups[1..], rems, tree);
    }
  }

  /** The delta a listed node gives rise to, if any. */
  function ChangeStep(n: C.FlatNode, prev: E.Prev): seq<Delta> {
    match C.ChangeFor(n.id, n.node, prev) { case Some(d) => [d] case None => [] }
  }

  /** A node whose parent is stored can be written, and is stored then if it was not before. */
  lemma ChangeStepAllowed(g: Graph, n: C.FlatNode, prev: E.Prev, tree: Graph)
    requires prev.Keys <= g.Keys && n.id in tree && tree[n.id] == n.node && ParentPresent(g, n.id, n.node)
    ensures UpsertsAllowed(g, ChangeStep(n, prev), tree)
    ensures Run(g, ChangeStep(n, prev), tree).Keys == g.Keys + {n.id}
  {
    var d := C.ChangeFor(n.id, n.node, prev);
    if d.Some? {
      SingleUpsert(g, [d.value], n.id, n.node);
      assert Run(g, [d.value], tree) == Run(Step(g, d.value, tree), [], tree);
    }
  }

  lemma ParentsFirstSplits(flat: seq<C.FlatNode>)
    requires flat != [] && C.ParentsFirst(flat)
    ensures var front, n := flat[..|flat| - 1], flat[|flat| - 1];
      && C.ParentsFirst(front) && C.Ids(flat) == C.Ids(front) + {n.id}
      && (n.node.parent == "" || n.node.parent in C.Ids(front))
  {
    var front, n := flat[..|flat| - 1], flat[|flat| - 1];
    assert flat == front + [n];
    assert forall i | 0 <= i < |front| :: front[..i] == flat[..i];
  }

  /** A forest that lists parents first passes every foreign key, each change in its turn. */
  lemma {:induction false} ChangesAllowed(g: Graph, flat: seq<C.FlatNode>, prev: E.Prev, tree: Graph)
    requires C.ParentsFirst(flat) && prev.Keys <= g.Keys
    requires forall n | n in flat :: n.id in tree && tree[n.id] == n.node
    ensures UpsertsAllowed(g, C.Changes(flat, prev), tree)
    ensures Run(g, C.Changes(flat, prev), tree).Keys == g.Keys + C.Ids(flat)
    decreases |flat|
  {
    if flat != [] {
      var front, n := flat[..|flat| - 1], flat[|flat| - 1];
      var before := C.Changes(front, prev);
      assert C.Changes(flat, prev) == before + ChangeStep(n, prev);
      ParentsFirstSplits(flat);
      ChangesAllowed(g, front, prev, tree);
      ChangeStepAllowed(Run(g, before, tree), n, prev, tree);
      AllowedAppend(g, before, ChangeStep(n, prev), tree);
      RunAppend(g, before, ChangeStep(n, prev), tree);
    }
  }

  /** So a compile of such a forest is never refused for a foreign key. */
  lemma CompileAllowed(g: Graph, flat: seq<C.FlatNode>, prev: E.Prev, ds: seq<Delta>, removed: seq<string>)
    requires C.DistinctIds(flat) && C.ParentsFirst(flat) && E.Loaded(prev, g) && E.IsDiff(ds, removed, flat, prev)
    ensures UpsertsAllowed(g, ds, C.Tree(flat))
  {
    var tree := C.Tree(flat);
    C.TreeHolds(flat);
    E.RemovedDeltas(removed, flat, prev);
    ChangesAllowed(g, flat, prev, tree);
    RemovalsAllowed(Run(g, C.Changes(flat, prev), tree), C.RemovalDeltas(removed, prev), tree);
    AllowedAppend(g, C.Changes(flat, prev), C.RemovalDeltas(removed, prev), tree);
  }

  lemma ForgetReady(hash: Hash, g: Graph, p: F.ForgetPlan, id: string, mode: F.Mode, kids: seq<string>,
                    below: seq<string>)
    requires Hashed(hash, g) && Closed(g) && id in g && p.Accepted? && F.IsPlan(p, g, id, mode, kids, below)
    ensures p.deltas != [] && Hashed(hash, p.tree) && HashedDeltas(hash, p.deltas)
    ensures UpsertsAllowed(g, p.deltas, p.tree)
  {
    F.RemovalIds(g, below);
    F.MoveIds(g, kids);
    match mode
    case Strict => RemovalsAllowed(g, p.deltas, p.tree);
    case CascadeMode => RemovalsAllowed(g, p.deltas, p.tree);
    case Reparent => UpsertsBelowStored(g, F.Moves(g, kids), [F.RemDelta(id, g[id])], p.tree);
  }

  lemma PurgeReady(hash: Hash, g: Graph, gone: set<string>, ids: seq<string>)
    requires Hashed(hash, g) && gone <= g.Keys && F.Lists(ids, gone)
    ensures var ds := F.Removals(g, ids);
      && IdsOf(ds) == gone && AllRemovals(ds) && Distinct(ds)
      && (forall d | d in ds :: d.id in g && d == F.RemDelta(d.id, g[d.id]))
      && HashedDeltas(hash, ds) && UpsertsAllowed(g, ds, map[])
      && Run(g, ds, map[]) == g - Grow(g, IdsOf(ds))
  {
    var ds := F.Removals(g, ids);
    F.RemovalIds(g, ids);
    RemovalsAllowed(g, ds, map[]);
    RemovalsTakeSubtrees(g, ds, map[]);
    assert IdsOf(ds) == gone && gone * g.Keys == gone;
  }

  lemma DiffIsHashed(hash: Hash, g: Graph, flat: seq<C.FlatNode>, prev: E.Prev, ds: seq<Delta>, removed: seq<string>)
    requires C.DistinctIds(flat) && Hashed(hash, C.Tree(flat)) && Hashed(hash, g)
    requires E.Loaded(prev, g) && E.IsDiff(ds, removed, flat, prev)
    ensures HashedDeltas(hash, ds)
  {
    C.ChangeMembers(flat, prev);
    C.RemovalMembers(removed, prev);
    forall d | d in ds ensures d.id != "" && (d.op != Add ==> d.oldHash == hash(d.oldContent)) {
      if d in C.Changes(flat, prev) {
        assert d.id in C.Tree(flat);
      } else {
        assert d in C.RemovalDeltas(removed, prev);
      }
    }
  }

  lemma CompileReady(hash: Hash, nodes: Graph, log: Log, prior: map<nat, nat>, trail: seq<Commit>,
                     flat: seq<C.FlatNode>, prev: E.Prev, ds: seq<Delta>, removed: seq<string>)
    requires ValidState(hash, nodes, log, prior, trail)
    requires C.DistinctIds(flat) && Hashed(hash, C.Tree(flat))
    requires E.Loaded(prev, nodes) && E.IsDiff(ds, removed, flat, prev)
    ensures HashedDeltas(hash, ds)
    ensures C.ParentsFirst(flat) ==> UpsertsAllowed(nodes, ds, C.Tree(flat))
    ensures Run(nodes, ds, C.Tree(flat)) == E.Compiled(nodes, C.Tree(flat), prev)
    ensures E.EmptyDiff(C.Tree(flat), prev) <==> ds == []
  {
    StoredHashes(hash, nodes, log, prior, trail);
    DiffIsHashed(hash, nodes, flat, prev, ds, removed);
    E.CompileReaches(ds, removed, flat, prev, nodes);
    E.EmptyDiffMeansNoDeltas(ds, removed, flat, prev);
    if C.ParentsFirst(flat) {
      CompileAllowed(nodes, flat, prev, ds, removed);
    }
  }

  /** A rollback's delta list is well formed, and empty only when nothing differs. */
  lemma RollbackReady(hash: Hash, nodes: Graph, log: Log, prior: map<nat, nat>, trail: seq<Commit>,
                      target: nat, ds: seq<Delta>)
    requires ValidState(hash, nodes, log, prior, trail)
    requires IsRollbackDeltas(ds, nodes, Undo(After(log.diffs, target), Restored(nodes, [])).nodes)
    ensures var goal := Undo(After(log.diffs, target), Restored(nodes, [])).nodes;
      && Hashed(hash, goal) && HashedDeltas(hash, ds) && InTree(ds, goal)
      && (NoCollision(nodes, goal) ==> (Run(nodes, ds, goal) == goal <==> CascadeSafe(nodes, ds, goal)))
      && (NoCollision(nodes, goal) && ds == [] ==> nodes == goal)
  {
    var goal := Undo(After(log.diffs, target), Restored(nodes, [])).nodes;
    assert Last(trail) in trail;
    AfterMembers(log.diffs, target);
    UndoKeepsHashed(hash, After(log.diffs, target), Restored(nodes, []));
    RollbackIsHonest(ds, nodes, goal);
    if NoCollision(nodes, goal) {
      RollbackHitsTargetIff(ds, nodes, goal);
    }
  }

  /** Where what is left of the old graph is found once a rollback is in the log. */
  lemma RollbackKeepsOldGraph(hash: Hash, nodes: Graph, log: Log, prior: map<nat, nat>, trail: seq<Commit>,
                              target: nat, ds: seq<Delta>)
    requires ValidState(hash, nodes, log, prior, trail) && target < log.head
    requires ds != [] && IsRollbackDeltas(ds, nodes, WalkBack(log, nodes, target).nodes)
    ensures var goal := WalkBack(log, nodes, target).nodes;
      && nodes != goal && (Kept(nodes, ds, goal) == nodes <==> Undoable(nodes, nodes, ds, goal))
      && forall snap {:trigger RolledLog(log, snap, nodes, ds)} ::
           var logged, left := RolledLog(log, snap, nodes, ds), Run(nodes, ds, goal);
           && WalkBack(logged, left, log.head) == Restored(Kept(nodes, ds, goal), [])
           && WalkBack(Prune(logged, target, log.nextId), left, target) == Restored(Kept(nodes, ds, goal), [])
  {
    var goal := WalkBack(log, nodes, target).nodes;
    RollbackMoves(ds, nodes, goal);
    RollbackUndone(ds, nodes, goal, 0);
    forall snap
      ensures WalkBack(RolledLog(log, snap, nodes, ds), Run(nodes, ds, goal), log.head)
              == Restored(Kept(nodes, ds, goal), [])
      ensures WalkBack(Prune(RolledLog(log, snap, nodes, ds), target, log.nextId), Run(nodes, ds, goal), target)
              == Restored(Kept(nodes, ds, goal), [])
    {
      KeptHistoryRestoresHead(log, snap, ds, nodes, goal);
      DroppedHistoryRestoresDiscarded(log, snap, ds, nodes, goal, target);
    }
  }

  lemma CursorNeverRepeats(log: Log, prior: map<nat, nat>, cursor: seq<Byte>)
    requires ValidLog(log, prior) && FoldsHead(cursor, log.head)
    ensures forall s | s in log.snapshots :: log.snapshots[s].cursor != cursor
  {
    forall s | s in log.snapshots ensures log.snapshots[s].cursor != cursor {
      CursorIsFresh(log, prior, cursor, s);
    }
  }

  function HeadParent(head: nat): Option<nat> {
    if head == 0 then None else Some(head)
  }

  ghost predicate Allowed(nodes: Graph, nextId: nat, deltas: seq<Delta>, tree: Graph, deferred: bool) {
    && nextId <= MAX_ROWID
    && if deferred then Closed(Run(nodes, deltas, tree)) else UpsertsAllowed(nodes, deltas, tree)
  }

  /** The state a pruning leaves. */
  ghost predicate Pruned(hash: Hash, nodes: Graph, log: Log, prior: map<nat, nat>, record: seq<Commit>) {
    ValidState(hash, nodes, log, prior, [Commit(log.head, nodes, [])]) && ValidRecord(nodes, log, record)
  }

  lemma PruneIsSound(hash: Hash, nodes: Graph, log: Log, prior: map<nat, nat>, trail: seq<Commit>,
                     record: seq<Commit>, target: nat)
    requires ValidState(hash, nodes, log, prior, trail) && ValidRecord(nodes, log, record)
    requires target in log.snapshots && target < log.head && log.snapshots[log.head].parent == Some(target)
    ensures var pruned := Prune(log, target, log.head);
      Pruned(hash, nodes, pruned, KeepPrior(prior, pruned), Surviving(record, target, log.head))
  {
    PruneKeepsState(hash, nodes, log, prior, trail, target);
    PruneKeepsRecord(nodes, log, record, target);
  }

  lemma RestoresExactly(hash: Hash, nodes: Graph, log: Log, prior: map<nat, nat>, trail: seq<Commit>,
                        record: seq<Commit>, target: nat)
    requires ValidState(hash, nodes, log, prior, trail) && ValidRecord(nodes, log, record) && target in log.snapshots
    ensures var back := Undo(After(log.diffs, target), Restored(nodes, []));
      && (trail[0].id <= target ==> back == Restored(GraphAt(trail, target), []))
      && forall i: nat | i < |record| && record[i].id == target && AllUndo(record, i) ::
           back == Restored(record[i].graph, [])
  {
    if trail[0].id <= target {
      RestoreIsExact(hash, nodes, log, prior, trail, target);
    }
    forall i: nat | i < |record| && record[i].id == target && AllUndo(record, i)
      ensures WalkBack(log, nodes, target) == Restored(record[i].graph, [])
    {
      RecordedRestores(nodes, log, record, i);
    }
  }

  lemma CommitIsRecorded(hash: Hash, nodes: Graph, log: Log, prior: map<nat, nat>, trail: seq<Commit>,
                         record: seq<Commit>, deltas: seq<Delta>, tree: Graph, snap: Snapshot)
    requires ValidState(hash, nodes, log, prior, trail) && ValidRecord(nodes, log, record)
    ensures var c := Commit(log.nextId, Run(nodes, deltas, tree), RowsFor(log.nextId, nodes, deltas));
      ValidRecord(c.graph, Append(log, snap, c.rows), record + [c])
  {
    HeadIsLive(hash, nodes, log, prior, trail);
    RowMembers(log.nextId, nodes, deltas);
    CommitKeepsRecord(nodes, log, record,
                      Commit(log.nextId, Run(nodes, deltas, tree), RowsFor(log.nextId, nodes, deltas)), snap);
  }

  /** Whatever the deltas, the state a commit leaves keeps the invariant. */
  lemma CommitIsSound(hash: Hash, nodes: Graph, log: Log, prior: map<nat, nat>, trail: seq<Commit>,
                      deltas: seq<Delta>, tree: Graph, deferred: bool, snap: Snapshot)
    requires ValidState(hash, nodes, log, prior, trail)
    requires Hashed(hash, tree) && HashedDeltas(hash, deltas)
    requires FoldsHead(snap.cursor, log.head) && (snap.parent.Some? ==> snap.parent.value in log.snapshots)
    ensures forall s | s in log.snapshots :: log.snapshots[s].cursor != snap.cursor
    ensures var next, rows := Run(nodes, deltas, tree), RowsFor(log.nextId, nodes, deltas);
      Allowed(nodes, log.nextId, deltas, tree, deferred) ==>
        ValidState(hash, next, Append(log, snap, rows), prior[log.nextId := log.head],
                   NextTrail(trail, Commit(log.nextId, next, rows)))
  {
    CursorNeverRepeats(log, prior, snap.cursor);
    if Allowed(nodes, log.nextId, deltas, tree, deferred) {
      var c := Commit(log.nextId, Run(nodes, deltas, tree), RowsFor(log.nextId, nodes, deltas));
      assert Last(trail) in trail;
      RunKeepsHashed(hash, nodes, deltas, tree);
      if !deferred {
        AllowedKeepsClosed(nodes, deltas, tree);
      }
      RowsAreHashed(hash, log.nextId, nodes, deltas);
      CommitKeepsState(hash, nodes, log, prior, trail, c, snap);
    }
  }

  /** A truthful commit extends the exact record. */
  lemma TruthfulCommitExtends(trail: seq<Commit>, id: nat, g: Graph, deltas: seq<Delta>, tree: Graph)
    requires trail != [] && Last(trail).graph == g && Faithful(g, deltas, tree)
    ensures var c := Commit(id, Run(g, deltas, tree), RowsFor(id, g, deltas));
      NextTrail(trail, c) == trail + [c]
  {
    FaithfulLinks(id, g, deltas, tree);
  }
}
