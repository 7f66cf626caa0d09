/** The whole record of the commits still in the log, and what the log says of each of them. */
module Records {
  import opened Graphs
  import opened Deltas
  import opened History
  import opened Trails
  import opened Logs
  import opened States
  import opened Recoveries
  import opened Rollbacks

  const EMPTY: Commit := Commit(0, map[], [])

  /** record is the empty store and then the live snapshots, each with the graph it left and the rows it
      logged, truthful or not; together the rows are the log. */
  ghost predicate ValidRecord(nodes: Graph, log: Log, record: seq<Commit>) {
    && Dated(record) && record[0] == EMPTY
    && Last(record).id == log.head && Last(record).graph == nodes
    && RowsOf(record) == log.diffs
    && IdsOnTrail(record) == log.snapshots.Keys + {0}
  }

  lemma EmptyRecord()
    ensures ValidRecord(map[], Log(map[], [], 0, 1), [EMPTY])
  {
    assert IdsOnTrail([EMPTY]) == {0} by {
      assert [EMPTY][0] in [EMPTY];
    }
  }

  lemma DatedGrows(trail: seq<Commit>, c: Commit)
    requires Dated(trail) && Last(trail).id < c.id && forall r | r in c.rows :: r.snapshot == c.id
    ensures Dated(trail + [c]) && RowsOf(trail + [c]) == RowsOf(trail) + c.rows
    ensures Last(trail + [c]) == c && (trail + [c])[0] == trail[0]
  {
    assert Front(trail + [c]) == trail;
  }

  lemma CommitKeepsRecord(nodes: Graph, log: Log, record: seq<Commit>, c: Commit, snap: Snapshot)
    requires ValidRecord(nodes, log, record) && log.head < log.nextId == c.id
    requires forall r | r in c.rows :: r.snapshot == c.id
    ensures ValidRecord(c.graph, Append(log, snap, c.rows), record + [c])
  {
    IdsGrow(record, c);
    DatedGrows(record, c);
  }

  // ---- pruning ----

  predicate Survives(id: nat, target: nat, exclude: nat) {
    id <= target || id == exclude
  }

  /** The commits pruning leaves. */
  function Surviving(record: seq<Commit>, target: nat, exclude: nat): seq<Commit> {
    if record == [] then []
    else if Survives(Last(record).id, target, exclude) then Surviving(Front(record), target, exclude) + [Last(record)]
    else Surviving(Front(record), target, exclude)
  }

  lemma {:induction false} WithoutAllOrNone(rows: seq<DiffRow>, id: nat, target: nat, exclude: nat)
    requires forall r | r in rows :: r.snapshot == id
    ensures Without(rows, target, exclude) == if Survives(id, target, exclude) then rows else []
  {
    if rows != [] {
      assert rows == Front(rows) + [Last(rows)];
      WithoutAllOrNone(Front(rows), id, target, exclude);
    }
  }

  /** What survives is dated as before, and its rows are the rows that survive. */
  lemma {:induction false} SurvivorsAreDated(record: seq<Commit>, target: nat, exclude: nat)
    requires Dated(record) && record[0].id <= target
    ensures var left := Surviving(record, target, exclude);
      && Dated(left) && left[0] == record[0] && Last(left).id <= Last(record).id
      && RowsOf(left) == Without(RowsOf(record), target, exclude)
  {
    var front, top := Front(record), Last(record);
    if |record| == 1 {
      assert Surviving(front, target, exclude) == [];
      assert Surviving(record, target, exclude) == [top];
    } else {
      SurvivorsAreDated(front, target, exclude);
      WithoutAppend(RowsOf(front), top.rows, target, exclude);
      WithoutAllOrNone(top.rows, top.id, target, exclude);
      var left := Surviving(front, target, exclude);
      if Survives(top.id, target, exclude) {
        assert Surviving(record, target, exclude) == left + [top];
        DatedGrows(left, top);
      } else {
        assert Surviving(record, target, exclude) == left;
      }
    }
  }

  lemma {:induction false} SurvivingMembers(record: seq<Commit>, target: nat, exclude: nat)
    ensures forall c :: c in Surviving(record, target, exclude) <==> c in record && Survives(c.id, target, exclude)
  {
    if record != [] {
      assert record == Front(record) + [Last(record)];
      SurvivingMembers(Front(record), target, exclude);
    }
  }

  lemma SurvivingIds(record: seq<Commit>, log: Log, target: nat)
    requires IdsOnTrail(record) == log.snapshots.Keys + {0}
    ensures IdsOnTrail(Surviving(record, target, log.head)) == Prune(log, target, log.head).snapshots.Keys + {0}
  {
    var left, kept := Surviving(record, target, log.head), Prune(log, target, log.head).snapshots.Keys + {0};
    SurvivingMembers(record, target, log.head);
    forall id | id in kept ensures id in IdsOnTrail(left) {
      assert id in IdsOnTrail(record);
      var c :| c in record && c.id == id;
      assert c in left;
    }
    forall c | c in left ensures c.id in kept {
      assert c.id in IdsOnTrail(record);
    }
  }

  lemma PruneKeepsRecord(nodes: Graph, log: Log, record: seq<Commit>, target: nat)
    requires ValidRecord(nodes, log, record)
    ensures ValidRecord(nodes, Prune(log, target, log.head), Surviving(record, target, log.head))
  {
    SurvivorsAreDated(record, target, log.head);
    SurvivingIds(record, log, target);
    assert Surviving(record, target, log.head) == Surviving(Front(record), target, log.head) + [Last(record)];
  }

  // ---- what the record gives its readers ----

  /** A live snapshot restores to its graph when every later commit still in the log can be undone. */
  lemma RecordedRestores(nodes: Graph, log: Log, record: seq<Commit>, i: nat)
    requires ValidRecord(nodes, log, record) && i < |record| && AllUndo(record, i)
    ensures WalkBack(log, nodes, record[i].id) == Restored(record[i].graph, [])
  {
    RestoresIff(record, i);
    assert RestoresAt(record, i);
  }

  lemma UndoGoesOn(record: seq<Commit>, c: Commit, i: nat)
    requires i < |record|
    ensures AllUndo(record + [c], i) <==>
            AllUndo(record, i) && Undo(c.rows, Restored(c.graph, [])) == Restored(Last(record).graph, [])
  {
    assert Front(record + [c]) == record;
    AllUndoSplits(record + [c], i);
  }

  /** A rollback that keeps history leaves every earlier snapshot as restorable as it was exactly when it
      lost no node of the graph it found, whether or not it reached its target. */
  lemma RestorableAfterRollback(record: seq<Commit>, ds: seq<Delta>, target: Graph, id: nat, i: nat)
    requires i < |record| && IsRollbackDeltas(ds, Last(record).graph, target)
    ensures var g := Last(record).graph;
      var c := Commit(id, Run(g, ds, target), RowsFor(id, g, ds));
      AllUndo(record + [c], i) <==> AllUndo(record, i) && Undoable(g, g, ds, target)
  {
    var g := Last(record).graph;
    RollbackUndone(ds, g, target, id);
    UndoGoesOn(record, Commit(id, Run(g, ds, target), RowsFor(id, g, ds)), i);
  }
}
