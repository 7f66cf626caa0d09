/** What walking back over one commit recovers, whether or not its rows told the whole truth. */
module Recoveries {
  import opened Graphs
  import opened Deltas
  import opened History
  import opened Wrappers

  // ---- one row undone ----

  /** What undoing r leaves under its id, n being what is there. */
  function UndoneValue(n: Option<Node>, r: DiffRow): Option<Node> {
    match r.op
    case Add => None
    case Mod =>
      if n.None? then None
      else if r.meta.Some? then Some(NodeFrom(r.meta.value, r.oldContent, r.oldHash))
      else Some(n.value.(content := r.oldContent, contentHash := r.oldHash))
    case Rem => if r.meta.None? then n else Some(NodeFrom(r.meta.value, r.oldContent, r.oldHash))
  }

  lemma UndoneRow(st: Restored, r: DiffRow, x: string)
    ensures Get(UndoRow(st, r).nodes, x) == if x == r.id then UndoneValue(Get(st.nodes, x), r) else Get(st.nodes, x)
  {
  }

  lemma {:induction false} UndoLeavesOthers(rows: seq<DiffRow>, st: Restored, x: string)
    requires forall r | r in rows :: r.id != x
    ensures Get(Undo(rows, st).nodes, x) == Get(st.nodes, x)
    decreases |rows|
  {
    if rows != [] {
      UndoneRow(st, rows[|rows| - 1], x);
      UndoLeavesOthers(rows[..|rows| - 1], UndoRow(st, rows[|rows| - 1]), x);
    }
  }

  /** Each node is undone by its own row alone. */
  lemma {:induction false} UndoneByItsRow(rows: seq<DiffRow>, st: Restored, r: DiffRow)
    requires DistinctRows(rows) && r in rows
    ensures Get(Undo(rows, st).nodes, r.id) == UndoneValue(Get(st.nodes, r.id), r)
    decreases |rows|
  {
    var front, last := rows[..|rows| - 1], rows[|rows| - 1];
    assert rows == front + [last];
    UndoneRow(st, last, r.id);
    if last == r {
      UndoLeavesOthers(front, UndoRow(st, r), r.id);
    } else {
      UndoneByItsRow(front, UndoRow(st, last), r);
    }
  }

  lemma {:induction false} NothingSkipped(rows: seq<DiffRow>, st: Restored)
    requires forall r | r in rows && r.op == Rem :: r.meta.Some?
    ensures Undo(rows, st).skipped == st.skipped
    decreases |rows|
  {
    if rows != [] {
      assert rows[|rows| - 1] in rows;
      NothingSkipped(rows[..|rows| - 1], UndoRow(st, rows[|rows| - 1]));
    }
  }

  // ---- one commit undone ----

  ghost predicate LogsRemoval(ds: seq<Delta>, x: string) {
    exists d :: d in ds && d.id == x && d.op == Rem
  }

  /** The nodes of g that a commit of ds leaves stored or logs as removed. */
  ghost function Kept(g: Graph, ds: seq<Delta>, tree: Graph): Graph {
    map x | x in g && (x in Run(g, ds, tree) || LogsRemoval(ds, x)) :: g[x]
  }

  lemma UndoneHonestly(g: Graph, h: Graph, ds: seq<Delta>, tree: Graph, snapshot: nat, d: Delta)
    requires Honest(g, ds, tree) && d in ds && (d.id in PreState(g, ds) <==> d.op != Add && d.id in g)
    ensures UndoneValue(Get(h, d.id), RowFor(snapshot, PreState(g, ds), d)) ==
            if d.id in g && (d.id in h || d.op == Rem) then Some(g[d.id]) else None
  {
  }

  lemma UndoneDelta(g: Graph, ds: seq<Delta>, tree: Graph, snapshot: nat, d: Delta)
    requires Distinct(ds) && Honest(g, ds, tree) && d in ds
    ensures Get(Undo(RowsFor(snapshot, g, ds), Restored(Run(g, ds, tree), [])).nodes, d.id) ==
        Get(Kept(g, ds, tree), d.id)
  {
    var r, h := RowFor(snapshot, PreState(g, ds), d), Run(g, ds, tree);
    RowMembers(snapshot, g, ds);
    OneDeltaPerId(ds, tree, d);
    UndoneByItsRow(RowsFor(snapshot, g, ds), Restored(h, []), r);
    UndoneHonestly(g, h, ds, tree, snapshot, d);
    assert LogsRemoval(ds, d.id) <==> d.op == Rem;
  }

  /** Walking back over any truthful deltas, safe or not, skips nothing and recovers exactly the nodes
      that were kept: a node the cascade took without a removal row is what is lost. */
  lemma UndoRecovers(g: Graph, ds: seq<Delta>, tree: Graph, snapshot: nat)
    requires Distinct(ds) && Honest(g, ds, tree)
    ensures Undo(RowsFor(snapshot, g, ds), Restored(Run(g, ds, tree), [])) == Restored(Kept(g, ds, tree), [])
  {
    var rows, h := RowsFor(snapshot, g, ds), Run(g, ds, tree);
    var back := Undo(rows, Restored(h, []));
    RowMembers(snapshot, g, ds);
    forall x ensures Get(back.nodes, x) == Get(Kept(g, ds, tree), x) {
      if x in IdsOf(ds) {
        var d :| d in ds && d.id == x;
        UndoneDelta(g, ds, tree, snapshot, d);
      } else {
        RowIds(snapshot, g, ds, x);
        UndoLeavesOthers(rows, Restored(h, []), x);
        Untouched(g, ds, tree, x);
      }
    }
    SameGraph(back.nodes, Kept(g, ds, tree));
    NothingSkipped(rows, Restored(h, []));
  }

  /** A node without a delta is stored as it was or not at all. */
  lemma Untouched(g: Graph, ds: seq<Delta>, tree: Graph, x: string)
    requires Distinct(ds) && x !in IdsOf(ds)
    ensures Get(Run(g, ds, tree), x) == Get(Kept(g, ds, tree), x)
  {
    if x in Run(g, ds, tree) {
      RunKeepsValues(g, ds, tree, x);
    }
  }

  lemma UndoRecoversIff(g: Graph, ds: seq<Delta>, tree: Graph, snapshot: nat)
    requires Distinct(ds) && Honest(g, ds, tree)
    ensures Undo(RowsFor(snapshot, g, ds), Restored(Run(g, ds, tree), [])) == Restored(g, [])
            <==> forall x | x in g :: x in Run(g, ds, tree) || LogsRemoval(ds, x)
  {
    UndoRecovers(g, ds, tree, snapshot);
  }

  // ---- the same, cascade by cascade ----

  /** No cascade takes a node of start whose own delta is absent or already spent. What the deltas
      themselves added may be lost. */
  ghost predicate Undoable(start: Graph, g: Graph, ds: seq<Delta>, tree: Graph)
    decreases |ds|
  {
    ds != [] ==>
      && (ds[0].op == Rem ==> Cascade(g, ds[0].id) * start.Keys <= IdsOf(ds))
      && Undoable(start, Step(g, ds[0], tree), ds[1..], tree)
  }

  ghost predicate KeepsStart(start: Graph, g: Graph, ds: seq<Delta>, tree: Graph) {
    forall x | x in start && (x in g || x in IdsOf(ds)) :: x in Run(g, ds, tree) || LogsRemoval(ds, x)
  }

  lemma LogsSplit(ds: seq<Delta>, x: string)
    requires ds != []
    ensures LogsRemoval(ds, x) <==> (ds[0].op == Rem && ds[0].id == x) || LogsRemoval(ds[1..], x)
  {
    assert ds == [ds[0]] + ds[1..];
  }

  lemma KeepsStartStep(start: Graph, g: Graph, ds: seq<Delta>, tree: Graph)
    requires ds != [] && Distinct(ds) && InTree(ds, tree)
    ensures KeepsStart(start, g, ds, tree) <==>
            (ds[0].op == Rem ==> Cascade(g, ds[0].id) * start.Keys <= IdsOf(ds))
            && KeepsStart(start, Step(g, ds[0], tree), ds[1..], tree)
  {
    var d, g1, rest := ds[0], Step(g, ds[0], tree), ds[1..];
    IdsSplit(ds);
    assert d in ds;
    forall x ensures LogsRemoval(ds, x) <==> (d.op == Rem && d.id == x) || LogsRemoval(rest, x) {
      LogsSplit(ds, x);
    }
    if KeepsStart(start, g, ds, tree) && d.op == Rem {
      forall x | x in Cascade(g, d.id) && x in start ensures x in IdsOf(ds) {
        if x in Run(g1, rest, tree) {
          RunStaysWithin(g1, rest, tree, x);
        }
      }
    }
  }

  lemma {:induction false} KeepsStartIff(start: Graph, g: Graph, ds: seq<Delta>, tree: Graph)
    requires Distinct(ds) && InTree(ds, tree)
    ensures Undoable(start, g, ds, tree) <==> KeepsStart(start, g, ds, tree)
    decreases |ds|
  {
    if ds != [] {
      IdsSplit(ds);
      KeepsStartStep(start, g, ds, tree);
      KeepsStartIff(start, Step(g, ds[0], tree), ds[1..], tree);
    }
  }

  /** Walking back over truthful deltas gives the graph they found exactly when no cascade took a
      stored node whose own delta was absent or already spent. */
  lemma UndoableIff(g: Graph, ds: seq<Delta>, tree: Graph, snapshot: nat)
    requires Distinct(ds) && Honest(g, ds, tree)
    ensures Undo(RowsFor(snapshot, g, ds), Restored(Run(g, ds, tree), [])) == Restored(g, [])
            <==> Undoable(g, g, ds, tree)
  {
    UndoRecoversIff(g, ds, tree, snapshot);
    KeepsStartIff(g, g, ds, tree);
  }

  /** A safe replay is always undoable. */
  lemma {:induction false} SafeIsUndoable(start: Graph, g: Graph, ds: seq<Delta>, tree: Graph)
    requires CascadeSafe(g, ds, tree)
    ensures Undoable(start, g, ds, tree)
    decreases |ds|
  {
    if ds != [] {
      SafeIsUndoable(start, Step(g, ds[0], tree), ds[1..], tree);
    }
  }

  /** When nothing is added, safe and undoable are the same. */
  lemma {:induction false} RemovalsUndoableIff(start: Graph, g: Graph, ds: seq<Delta>, tree: Graph)
    requires AllRemovals(ds) && g.Keys <= start.Keys
    ensures Undoable(start, g, ds, tree) <==> CascadeSafe(g, ds, tree)
    decreases |ds|
  {
    if ds != [] {
      assert ds[0] in ds;
      assert Cascade(g, ds[0].id) * start.Keys == Cascade(g, ds[0].id);
      RemovalsUndoableIff(start, Step(g, ds[0], tree), ds[1..], tree);
    }
  }
}
