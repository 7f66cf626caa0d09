/** The commits since the last break in the record, oldest first, and what the log
    lets a reader recover about any point among them. */
module Trails {
  import opened Graphs
  import opened Deltas
  import opened History
  import opened Wrappers

  datatype Commit = Commit(id: nat, graph: Graph, rows: seq<DiffRow>)

  function Last<T>(s: seq<T>): T
    requires s != []
  {
    s[|s| - 1]
  }

  function Front<T>(s: seq<T>): seq<T>
    requires s != []
  {
    s[..|s| - 1]
  }

  /** b follows a and logged exactly what it changed. */
  ghost predicate Follows(a: Commit, b: Commit) {
    a.id < b.id && Links(a.graph, b.graph, b.rows) && forall r | r in b.rows :: r.snapshot == b.id
  }

  ghost predicate ValidTrail(trail: seq<Commit>) {
    trail != [] &&
    (|trail| > 1 ==> ValidTrail(Front(trail)) && Follows(Last(Front(trail)), Last(trail)))
  }

  /** The rows logged after the first commit, in log order. */
  function RowsOf(trail: seq<Commit>): seq<DiffRow> {
    if |trail| <= 1 then [] else RowsOf(Front(trail)) + Last(trail).rows
  }

  /** The graph as it stood at snapshot t. */
  function GraphAt(trail: seq<Commit>, t: int): Graph
    requires trail != []
  {
    if |trail| == 1 || Last(trail).id <= t then Last(trail).graph else GraphAt(Front(trail), t)
  }

  // ---- row selections ----

  /** WHERE snapshot_id > lo AND snapshot_id <= hi ORDER BY snapshot_id, id. */
  function Between(rows: seq<DiffRow>, lo: int, hi: int): seq<DiffRow> {
    if rows == [] then []
    else Between(Front(rows), lo, hi) + if lo < Last(rows).snapshot <= hi then [Last(rows)] else []
  }

  /** WHERE snapshot_id > lo ORDER BY snapshot_id, id. */
  function After(rows: seq<DiffRow>, lo: int): seq<DiffRow> {
    if rows == [] then []
    else After(Front(rows), lo) + if lo < Last(rows).snapshot then [Last(rows)] else []
  }

  lemma {:induction false} BetweenAppend(a: seq<DiffRow>, b: seq<DiffRow>, lo: int, hi: int)
    ensures Between(a + b, lo, hi) == Between(a, lo, hi) + Between(b, lo, hi)
    decreases |b|
  {
    if b == [] {
      assert a + b == a;
    } else {
      assert Front(a + b) == a + Front(b) && Last(a + b) == Last(b);
      BetweenAppend(a, Front(b), lo, hi);
    }
  }

  lemma {:induction false} BetweenAllOrNone(rows: seq<DiffRow>, lo: int, hi: int)
    ensures (forall r | r in rows :: lo < r.snapshot <= hi) ==> Between(rows, lo, hi) == rows
    ensures (forall r | r in rows :: !(lo < r.snapshot <= hi)) ==> Between(rows, lo, hi) == []
  {
    if rows != [] {
      assert rows == Front(rows) + [Last(rows)];
      BetweenAllOrNone(Front(rows), lo, hi);
    }
  }

  lemma {:induction false} AfterIsBetween(rows: seq<DiffRow>, lo: int, hi: int)
    requires forall r | r in rows :: r.snapshot <= hi
    ensures After(rows, lo) == Between(rows, lo, hi)
  {
    if rows != [] {
      AfterIsBetween(Front(rows), lo, hi);
    }
  }

  lemma {:induction false} BetweenAfter(rows: seq<DiffRow>, base: int, lo: int, hi: int)
    requires base <= lo
    ensures Between(After(rows, base), lo, hi) == Between(rows, lo, hi)
  {
    if rows != [] {
      var front := After(Front(rows), base);
      BetweenAfter(Front(rows), base, lo, hi);
      if base < Last(rows).snapshot {
        assert After(rows, base) == front + [Last(rows)];
        assert Front(front + [Last(rows)]) == front;
      } else {
        assert After(rows, base) == front;
      }
    }
  }

  lemma {:induction false} IdsAscend(trail: seq<Commit>)
    requires ValidTrail(trail)
    ensures forall i | 0 <= i < |trail| - 1 :: trail[0].id <= trail[i].id < Last(trail).id
    ensures trail[0].id <= Last(trail).id
  {
    if |trail| > 1 {
      IdsAscend(Front(trail));
      assert forall i | 0 <= i < |trail| - 1 :: trail[i] == Front(trail)[i];
    }
  }

  lemma {:induction false} RowsAreUpTo(trail: seq<Commit>)
    requires ValidTrail(trail)
    ensures forall r | r in RowsOf(trail) :: trail[0].id < r.snapshot <= Last(trail).id
  {
    if |trail| > 1 {
      RowsAreUpTo(Front(trail));
      IdsAscend(trail);
    }
  }

  // ---- exact time travel ----

  /** Walking the log back from HEAD to any t since the trail began recovers every
      versioned field of every node as it stood at t, and skips nothing. */
  lemma {:induction false} TimeTravel(trail: seq<Commit>, t: int)
    requires ValidTrail(trail) && trail[0].id <= t
    ensures Undo(After(RowsOf(trail), t), Restored(Last(trail).graph, [])) == Restored(GraphAt(trail, t), [])
  {
    var rows, top := RowsOf(trail), Last(trail);
    RowsAreUpTo(trail);
    AfterIsBetween(rows, t, top.id);
    BetweenAllOrNone(rows, t, top.id);
    if |trail| > 1 && t < top.id {
      var front := Front(trail);
      BetweenAppend(RowsOf(front), top.rows, t, top.id);
      BetweenAllOrNone(top.rows, t, top.id);
      RowsAreUpTo(front);
      AfterIsBetween(RowsOf(front), t, top.id);
      UndoAppend(After(RowsOf(front), t), top.rows, Restored(top.graph, []));
      UndoLinks(Last(front).graph, top.graph, top.rows, []);
      TimeTravel(front, t);
    }
  }

  // ---- time travel, commit by commit ----

  /** Ids ascend and every row carries its commit's id; what the rows say is left open. */
  ghost predicate Dated(trail: seq<Commit>) {
    trail != [] &&
    (|trail| > 1 ==>
      && Dated(Front(trail)) && Last(Front(trail)).id < Last(trail).id
      && forall r | r in Last(trail).rows :: r.snapshot == Last(trail).id)
  }

  /** The graph the log gives for snapshot t, walked back to from the newest commit. */
  function Back(trail: seq<Commit>, t: int): Restored
    requires trail != []
  {
    Undo(After(RowsOf(trail), t), Restored(Last(trail).graph, []))
  }

  /** Undoing the rows of the k-th commit gives the graph before it. */
  ghost predicate UndoesAt(trail: seq<Commit>, k: nat)
    requires 0 < k < |trail|
  {
    Undo(trail[k].rows, Restored(trail[k].graph, [])) == Restored(trail[k - 1].graph, [])
  }

  ghost predicate RestoresAt(trail: seq<Commit>, i: nat)
    requires i < |trail|
  {
    Back(trail, trail[i].id) == Restored(trail[i].graph, [])
  }

  lemma {:induction false} DatedIds(trail: seq<Commit>)
    requires Dated(trail)
    ensures forall i | 0 <= i < |trail| - 1 :: trail[i].id < Last(trail).id
    ensures forall r | r in RowsOf(trail) :: r.snapshot <= Last(trail).id
  {
    if |trail| > 1 {
      DatedIds(Front(trail));
      assert forall i | 0 <= i < |trail| - 1 :: trail[i] == Front(trail)[i];
    }
  }

  lemma {:induction false} DatedInOrder(trail: seq<Commit>, i: nat, j: nat)
    requires Dated(trail) && i <= j < |trail|
    ensures trail[i].id <= trail[j].id && (i < j ==> trail[i].id < trail[j].id)
    decreases |trail|
  {
    DatedIds(trail);
    if j < |trail| - 1 {
      DatedInOrder(Front(trail), i, j);
    }
  }

  /** The graph as it stood at a commit's id is the graph that commit left. */
  lemma {:induction false} GraphAtCommit(trail: seq<Commit>, i: nat)
    requires Dated(trail) && i < |trail|
    ensures GraphAt(trail, trail[i].id) == trail[i].graph
  {
    if i < |trail| - 1 {
      DatedIds(trail);
      GraphAtCommit(Front(trail), i);
    }
  }

  /** The k-th commit logged exactly what it changed. */
  ghost predicate LinksAt(trail: seq<Commit>, k: nat)
    requires 0 < k < |trail|
  {
    Links(trail[k - 1].graph, trail[k].graph, trail[k].rows)
  }

  /** So did every commit dated in (from, to]. */
  ghost predicate LinksWithin(trail: seq<Commit>, from: int, to: int) {
    forall k: nat | 0 < k < |trail| && from < trail[k].id <= to :: LinksAt(trail, k)
  }

  lemma {:induction false} ValidLinks(trail: seq<Commit>)
    requires ValidTrail(trail)
    ensures Dated(trail) && forall k: nat | 0 < k < |trail| :: LinksAt(trail, k)
  {
    if |trail| > 1 {
      var front := Front(trail);
      ValidLinks(front);
      assert forall k: nat | 0 < k < |front| :: LinksAt(trail, k) <==> LinksAt(front, k);
    }
  }

  lemma LinksWithinFront(trail: seq<Commit>, from: int, to: int)
    requires |trail| > 1 && LinksWithin(trail, from, to)
    ensures LinksWithin(Front(trail), from, to)
  {
    var front := Front(trail);
    forall k: nat | 0 < k < |front| && from < front[k].id <= to ensures LinksAt(front, k) {
      assert LinksAt(trail, k);
    }
  }

  lemma NothingToUndo(trail: seq<Commit>)
    requires Dated(trail)
    ensures After(RowsOf(trail), Last(trail).id) == []
  {
    DatedIds(trail);
    AfterIsBetween(RowsOf(trail), Last(trail).id, Last(trail).id);
    BetweenAllOrNone(RowsOf(trail), Last(trail).id, Last(trail).id);
  }

  /** Walking back past the newest commit undoes it first. */
  lemma BackStep(trail: seq<Commit>, i: nat)
    requires Dated(trail) && i < |trail| - 1
    ensures var undone := Undo(Last(trail).rows, Restored(Last(trail).graph, []));
      Back(trail, trail[i].id) == Undo(After(RowsOf(Front(trail)), trail[i].id), undone)
  {
    var front, top, t := Front(trail), Last(trail), trail[i].id;
    DatedIds(trail);
    DatedIds(front);
    AfterIsBetween(RowsOf(trail), t, top.id);
    AfterIsBetween(RowsOf(front), t, top.id);
    BetweenAppend(RowsOf(front), top.rows, t, top.id);
    BetweenAllOrNone(top.rows, t, top.id);
    UndoAppend(After(RowsOf(front), t), top.rows, Restored(top.graph, []));
  }

  /** Every snapshot from the given one on restores to its graph. */
  ghost predicate AllRestore(trail: seq<Commit>, from: nat) {
    forall i: nat | from <= i < |trail| :: RestoresAt(trail, i)
  }

  /** Every commit after the given one can be undone. */
  ghost predicate AllUndo(trail: seq<Commit>, from: nat) {
    forall k: nat | from < k < |trail| :: UndoesAt(trail, k)
  }

  lemma AllUndoSplits(trail: seq<Commit>, from: nat)
    requires from < |trail| - 1
    ensures AllUndo(trail, from) <==> AllUndo(Front(trail), from) && UndoesAt(trail, |trail| - 1)
  {
    assert forall k: nat | from < k < |trail| - 1 :: UndoesAt(trail, k) <==> UndoesAt(Front(trail), k);
  }

  /** Past a commit that can be undone, the log restores what it restored before that commit. */
  lemma RestoreSplits(trail: seq<Commit>, i: nat)
    requires Dated(trail) && i < |trail| - 1 && UndoesAt(trail, |trail| - 1)
    ensures RestoresAt(trail, i) <==> RestoresAt(Front(trail), i)
  {
    BackStep(trail, i);
  }

  lemma NewestRestores(trail: seq<Commit>)
    requires Dated(trail)
    ensures RestoresAt(trail, |trail| - 1)
  {
    NothingToUndo(trail);
  }

  /** The snapshot before the newest restores exactly when the newest commit can be undone. */
  lemma NextRestores(trail: seq<Commit>)
    requires Dated(trail) && |trail| > 1
    ensures RestoresAt(trail, |trail| - 2) <==> UndoesAt(trail, |trail| - 1)
  {
    NothingToUndo(Front(trail));
    assert trail[|trail| - 2] == Last(Front(trail));
    BackStep(trail, |trail| - 2);
  }

  lemma AllRestoreSplits(trail: seq<Commit>, from: nat)
    requires Dated(trail) && from < |trail| - 1
    ensures AllRestore(trail, from) <==> AllRestore(Front(trail), from) && UndoesAt(trail, |trail| - 1)
  {
    NewestRestores(trail);
    NextRestores(trail);
    if UndoesAt(trail, |trail| - 1) {
      forall i: nat | from <= i < |trail| - 1 ensures RestoresAt(trail, i) <==> RestoresAt(Front(trail), i) {
        RestoreSplits(trail, i);
      }
    }
  }

  /** Every snapshot from the given one on restores exactly when each commit after it can be undone. */
  lemma {:induction false} RestoresIff(trail: seq<Commit>, from: nat)
    requires Dated(trail) && from < |trail|
    ensures AllRestore(trail, from) <==> AllUndo(trail, from)
    decreases |trail|
  {
    if from < |trail| - 1 {
      AllRestoreSplits(trail, from);
      AllUndoSplits(trail, from);
      RestoresIff(Front(trail), from);
    } else {
      NewestRestores(trail);
    }
  }

  // ---- a range of rows as the difference between two graphs ----

  function FirstFor(rows: seq<DiffRow>, x: string): Option<DiffRow> {
    if rows == [] then None
    else
      var f := FirstFor(Front(rows), x);
      if f.None? && Last(rows).id == x then Some(Last(rows)) else f
  }

  function LastFor(rows: seq<DiffRow>, x: string): Option<DiffRow> {
    if rows == [] then None
    else if Last(rows).id == x then Some(Last(rows))
    else LastFor(Front(rows), x)
  }

  /** For each node, the first row of the range describes it in g and the last one in h. */
  ghost predicate Spans(g: Graph, h: Graph, rows: seq<DiffRow>) {
    forall x ::
      match (FirstFor(rows, x), LastFor(rows, x))
      case (Some(first), Some(last)) =>
        && (first.op == Add <==> x !in g)
        && (x in g ==> first.oldHash == g[x].contentHash && first.oldContent == g[x].content)
        && (last.op == Rem <==> x !in h)
        && (x in h ==> last.newHash == h[x].contentHash && last.newContent == h[x].content)
      case _ => Get(g, x) == Get(h, x)
  }

  lemma {:induction false} FirstAndLast(rows: seq<DiffRow>, x: string)
    ensures FirstFor(rows, x).Some? <==> LastFor(rows, x).Some?
    ensures FirstFor(rows, x).Some? ==> FirstFor(rows, x).value in rows && FirstFor(rows, x).value.id == x
    ensures LastFor(rows, x).Some? ==> LastFor(rows, x).value in rows && LastFor(rows, x).value.id == x
    ensures FirstFor(rows, x).None? ==> forall r | r in rows :: r.id != x
  {
    if rows != [] {
      assert rows == Front(rows) + [Last(rows)];
      FirstAndLast(Front(rows), x);
    }
  }

  lemma {:induction false} FirstAndLastAppend(a: seq<DiffRow>, b: seq<DiffRow>, x: string)
    ensures FirstFor(a + b, x) == if FirstFor(a, x).Some? then FirstFor(a, x) else FirstFor(b, x)
    ensures LastFor(a + b, x) == if LastFor(b, x).Some? then LastFor(b, x) else LastFor(a, x)
    decreases |b|
  {
    if b == [] {
      assert a + b == a;
    } else {
      assert Front(a + b) == a + Front(b);
      FirstAndLastAppend(a, Front(b), x);
    }
  }

  lemma LinksSpan(g: Graph, h: Graph, rows: seq<DiffRow>)
    requires Links(g, h, rows)
    ensures Spans(g, h, rows)
  {
    forall x ensures FirstFor(rows, x) == LastFor(rows, x) {
      FirstAndLast(rows, x);
    }
    forall x
      ensures FirstFor(rows, x).Some? ==> FirstFor(rows, x).value.id == x && RowLinks(g, h, FirstFor(rows, x).value)
    {
      FirstAndLast(rows, x);
    }
    forall x | FirstFor(rows, x).None? ensures Get(g, x) == Get(h, x) {
      FirstAndLast(rows, x);
    }
  }

  lemma SpansCompose(g: Graph, h: Graph, k: Graph, a: seq<DiffRow>, b: seq<DiffRow>)
    requires Spans(g, h, a) && Spans(h, k, b)
    ensures Spans(g, k, a + b)
  {
    forall x
      ensures FirstFor(a + b, x) == if FirstFor(a, x).Some? then FirstFor(a, x) else FirstFor(b, x)
      ensures LastFor(a + b, x) == if LastFor(b, x).Some? then LastFor(b, x) else LastFor(a, x)
      ensures FirstFor(a, x).Some? <==> LastFor(a, x).Some?
      ensures FirstFor(b, x).Some? <==> LastFor(b, x).Some?
    {
      FirstAndLastAppend(a, b, x);
      FirstAndLast(a, x);
      FirstAndLast(b, x);
    }
  }

  /** What the top commit adds to the rows and the graph at a point. */
  lemma TopStep(trail: seq<Commit>, from: int, to: int)
    requires Dated(trail) && |trail| > 1 && from < Last(trail).id
    ensures var front, top := Front(trail), Last(trail);
      && GraphAt(trail, from) == GraphAt(front, from)
      && GraphAt(trail, to) == (if top.id <= to then top.graph else GraphAt(front, to))
      && Between(RowsOf(trail), from, to) ==
         Between(RowsOf(front), from, to) + (if top.id <= to then top.rows else [])
  {
    var front, top := Front(trail), Last(trail);
    BetweenAppend(RowsOf(front), top.rows, from, to);
    BetweenAllOrNone(top.rows, from, to);
  }

  /** The rows between two neighbouring commits are those of the later one. */
  lemma {:induction false} RowsOfOne(trail: seq<Commit>, k: nat)
    requires Dated(trail) && 0 < k < |trail|
    ensures Between(RowsOf(trail), trail[k - 1].id, trail[k].id) == trail[k].rows
    decreases |trail|
  {
    var front, from, to := Front(trail), trail[k - 1].id, trail[k].id;
    DatedIds(trail);
    TopStep(trail, from, to);
    if k == |trail| - 1 {
      DatedIds(front);
      BetweenAllOrNone(RowsOf(front), from, to);
    } else {
      RowsOfOne(front, k);
    }
  }

  /** When the commits in (from, to] told the truth, whatever the others did, the rows they logged are,
      node by node, the difference between the two graphs. */
  lemma {:induction false} RangeSpans(trail: seq<Commit>, from: int, to: int)
    requires Dated(trail) && trail[0].id <= from <= to && LinksWithin(trail, from, to)
    ensures Spans(GraphAt(trail, from), GraphAt(trail, to), Between(RowsOf(trail), from, to))
  {
    var top := Last(trail);
    if |trail| == 1 || top.id <= from {
      DatedIds(trail);
      BetweenAllOrNone(RowsOf(trail), from, to);
    } else {
      LinksWithinFront(trail, from, to);
      RangeSpans(Front(trail), from, to);
      TopStep(trail, from, to);
      if top.id <= to {
        TopSpans(trail, from, to);
      } else {
        assert Between(RowsOf(trail), from, to) == Between(RowsOf(Front(trail)), from, to);
      }
    }
  }

  lemma TopSpans(trail: seq<Commit>, from: int, to: int)
    requires Dated(trail) && |trail| > 1 && Last(trail).id <= to && LinksAt(trail, |trail| - 1)
    requires Spans(GraphAt(Front(trail), from), GraphAt(Front(trail), to), Between(RowsOf(Front(trail)), from, to))
    ensures Spans(GraphAt(Front(trail), from), Last(trail).graph,
                  Between(RowsOf(Front(trail)), from, to) + Last(trail).rows)
  {
    var front, top := Front(trail), Last(trail);
    LinksSpan(Last(front).graph, top.graph, top.rows);
    SpansCompose(GraphAt(front, from), Last(front).graph, top.graph, Between(RowsOf(front), from, to), top.rows);
  }
}
