/** Diff rows as a history: what it takes for a commit's rows to tell the truth,
    and what the reverse walk then recovers. */
module History {
  import opened Graphs
  import opened Deltas
  import opened Wrappers

  function MetaOf(n: Node): Meta {
    Meta(n.parent, n.sourceFile, n.nodeType, n.depth, n.title, n.format, n.tokenCount)
  }

  function NodeFrom(m: Meta, content: string, hash: string): Node {
    Node(m.parent, m.sourceFile, m.nodeType, m.depth, m.title, content, m.format, m.tokenCount, hash)
  }

  /** The stored nodes captured before a commit; an add does not look its id up. */
  function PreState(g: Graph, ds: seq<Delta>): Graph {
    map d | d in ds && d.op != Add && d.id in g :: d.id := g[d.id]
  }

  function RowFor(snapshot: nat, pre: Graph, d: Delta): DiffRow {
    DiffRow(snapshot, d.id, d.op, d.oldHash, d.newHash, d.oldContent, d.newContent,
            if d.id in pre then Some(MetaOf(pre[d.id])) else None)
  }

  /** The rows a commit of ds on g logs, in delta order. */
  function RowsFor(snapshot: nat, g: Graph, ds: seq<Delta>): seq<DiffRow> {
    seq(|ds|, i requires 0 <= i < |ds| => RowFor(snapshot, PreState(g, ds), ds[i]))
  }

  // ---- rows that tell the truth ----

  ghost predicate DistinctRows(rows: seq<DiffRow>) {
    forall i, j | 0 <= i < j < |rows| :: rows[i].id != rows[j].id
  }

  ghost predicate RowLinks(g: Graph, h: Graph, r: DiffRow) {
    && (r.op == Add <==> r.id !in g)
    && (r.op == Rem <==> r.id !in h)
    && (r.id in g ==> r.oldHash == g[r.id].contentHash && r.oldContent == g[r.id].content
                      && r.meta == Some(MetaOf(g[r.id])))
    && (r.id in h ==> r.newHash == h[r.id].contentHash && r.newContent == h[r.id].content)
  }

  /** The rows are exactly the difference between g and h, one row per changed node. */
  ghost predicate Links(g: Graph, h: Graph, rows: seq<DiffRow>) {
    && DistinctRows(rows)
    && (forall r | r in rows :: RowLinks(g, h, r))
    && (forall x | forall r | r in rows :: r.id != x :: Get(g, x) == Get(h, x))
  }

  /** What a caller can check of its deltas before the commit. */
  ghost predicate Honest(g: Graph, ds: seq<Delta>, tree: Graph) {
    forall d | d in ds ::
      && (d.op == Add <==> d.id !in g)
      && (d.id in g ==> d.oldHash == g[d.id].contentHash && d.oldContent == g[d.id].content)
      && (d.op != Rem ==> d.id in tree && d.newHash == tree[d.id].contentHash
                          && d.newContent == tree[d.id].content)
  }

  /** The deltas say of each node what is stored of it and what the tree gives it; whether a node
      added was there already is left open. */
  ghost predicate TrueValues(g: Graph, ds: seq<Delta>, tree: Graph) {
    forall d | d in ds ::
      && (d.op != Add ==> d.id in g && d.oldHash == g[d.id].contentHash && d.oldContent == g[d.id].content)
      && (d.op != Rem ==> d.id in tree && d.newHash == tree[d.id].contentHash
                          && d.newContent == tree[d.id].content)
  }

  lemma HonestValues(g: Graph, ds: seq<Delta>, tree: Graph)
    requires TrueValues(g, ds, tree)
    ensures Honest(g, ds, tree) <==> forall d | d in ds && d.op == Add :: d.id !in g
  {
  }

  ghost predicate Faithful(g: Graph, ds: seq<Delta>, tree: Graph) {
    Distinct(ds) && Honest(g, ds, tree) && CascadeSafe(g, ds, tree)
  }

  lemma {:induction false} RunKeepsValues(g: Graph, ds: seq<Delta>, tree: Graph, x: string)
    requires Distinct(ds) && x in Run(g, ds, tree)
    ensures x !in IdsOf(ds) ==> x in g && Run(g, ds, tree)[x] == g[x]
    ensures x in Upserts(ds, tree) ==> Run(g, ds, tree)[x] == tree[x]
    decreases |ds|
  {
    if ds != [] {
      IdsSplit(ds);
      UpsertsSplit(ds, tree);
      RunKeepsValues(Step(g, ds[0], tree), ds[1..], tree, x);
    }
  }

  lemma RowMembers(snapshot: nat, g: Graph, ds: seq<Delta>)
    ensures forall d | d in ds :: RowFor(snapshot, PreState(g, ds), d) in RowsFor(snapshot, g, ds)
    ensures forall r | r in RowsFor(snapshot, g, ds) ::
              exists d :: d in ds && r == RowFor(snapshot, PreState(g, ds), d)
    ensures Distinct(ds) <==> DistinctRows(RowsFor(snapshot, g, ds))
  {
    var rows, pre := RowsFor(snapshot, g, ds), PreState(g, ds);
    assert forall i | 0 <= i < |ds| :: rows[i] == RowFor(snapshot, pre, ds[i]);
    forall d | d in ds ensures RowFor(snapshot, pre, d) in rows {
      var i :| 0 <= i < |ds| && ds[i] == d;
      assert rows[i] in rows;
    }
    if DistinctRows(rows) {
      forall i, j | 0 <= i < j < |ds| ensures ds[i].id != ds[j].id {
        assert rows[i].id != rows[j].id;
      }
    }
  }

  lemma RowIds(snapshot: nat, g: Graph, ds: seq<Delta>, x: string)
    ensures x in IdsOf(ds) <==> exists r :: r in RowsFor(snapshot, g, ds) && r.id == x
  {
    RowMembers(snapshot, g, ds);
    if x in IdsOf(ds) {
      var d :| d in ds && d.id == x;
      assert RowFor(snapshot, PreState(g, ds), d) in RowsFor(snapshot, g, ds);
    }
  }

  lemma FaithfulLinks(snapshot: nat, g: Graph, ds: seq<Delta>, tree: Graph)
    requires Faithful(g, ds, tree)
    ensures Links(g, Run(g, ds, tree), RowsFor(snapshot, g, ds))
  {
    var h, rows, pre := Run(g, ds, tree), RowsFor(snapshot, g, ds), PreState(g, ds);
    RunIsIntendedIff(g, ds, tree);
    RowMembers(snapshot, g, ds);
    forall r | r in rows ensures RowLinks(g, h, r) {
      var d :| d in ds && r == RowFor(snapshot, pre, d);
      OneDeltaPerId(ds, tree, d);
    }
    forall x | forall r | r in rows :: r.id != x ensures Get(g, x) == Get(h, x) {
      RowIds(snapshot, g, ds, x);
    }
  }

  lemma OneDeltaPerId(ds: seq<Delta>, tree: Graph, d: Delta)
    requires Distinct(ds) && d in ds
    ensures d.id in Upserts(ds, tree) <==> d.op != Rem && d.id in tree
    ensures forall g: Graph :: d.id in PreState(g, ds) <==> d.op != Add && d.id in g
  {
  }

  lemma LinksAreFaithful(snapshot: nat, g: Graph, ds: seq<Delta>, tree: Graph)
    requires InTree(ds, tree)
    requires Links(g, Run(g, ds, tree), RowsFor(snapshot, g, ds))
    ensures Faithful(g, ds, tree)
  {
    var h, rows, pre := Run(g, ds, tree), RowsFor(snapshot, g, ds), PreState(g, ds);
    RowMembers(snapshot, g, ds);
    forall d | d in ds
      ensures RowLinks(g, h, RowFor(snapshot, pre, d))
      ensures d.op != Rem ==> d.id in h && h[d.id] == tree[d.id]
    {
      assert RowFor(snapshot, pre, d) in rows;
      if d.op != Rem {
        RunKeepsValues(g, ds, tree, d.id);
      }
    }
    forall x ensures Get(h, x) == Get(Intended(g, ds, tree), x) {
      if x in IdsOf(ds) {
        var d :| d in ds && d.id == x;
        OneDeltaPerId(ds, tree, d);
      } else {
        assert forall r | r in rows :: r.id != x;
      }
    }
    SameGraph(h, Intended(g, ds, tree));
    RunIsIntendedIff(g, ds, tree);
  }

  lemma SameGraph(g: Graph, h: Graph)
    requires forall x :: Get(g, x) == Get(h, x)
    ensures g == h
  {
    forall x ensures x in g <==> x in h {
      assert Get(g, x) == Get(h, x);
    }
    forall x | x in g ensures g[x] == h[x] {
      assert Get(g, x) == Get(h, x);
    }
  }

  /** A commit's rows are the true difference it made exactly when its deltas named each
      node once, described the stored nodes truthfully, and left no cascade unlogged. */
  lemma CommitLinksIffFaithful(snapshot: nat, g: Graph, ds: seq<Delta>, tree: Graph)
    requires InTree(ds, tree)
    ensures Links(g, Run(g, ds, tree), RowsFor(snapshot, g, ds)) <==> Faithful(g, ds, tree)
  {
    if Faithful(g, ds, tree) {
      FaithfulLinks(snapshot, g, ds, tree);
    }
    if Links(g, Run(g, ds, tree), RowsFor(snapshot, g, ds)) {
      LinksAreFaithful(snapshot, g, ds, tree);
    }
  }

  // ---- the reverse walk ----

  datatype Restored = Restored(nodes: Graph, skipped: seq<string>)

  function UndoRow(st: Restored, r: DiffRow): Restored {
    match r.op
    case Add => st.(nodes := st.nodes - {r.id})
    case Mod =>
      if r.id !in st.nodes then st
      else
        var n := st.nodes[r.id].(content := r.oldContent, contentHash := r.oldHash);
        st.(nodes := st.nodes[r.id := if r.meta.Some? then NodeFrom(r.meta.value, n.content, n.contentHash) else n])
    case Rem =>
      if r.meta.None? then st.(skipped := st.skipped + [r.id])
      else st.(nodes := st.nodes[r.id := NodeFrom(r.meta.value, r.oldContent, r.oldHash)])
  }

  /** Last row first. */
  function Undo(rows: seq<DiffRow>, st: Restored): Restored {
    if rows == [] then st
    else Undo(rows[..|rows| - 1], UndoRow(st, rows[|rows| - 1]))
  }

  lemma {:induction false} UndoAppend(a: seq<DiffRow>, b: seq<DiffRow>, st: Restored)
    ensures Undo(a + b, st) == Undo(a, Undo(b, st))
    decreases |b|
  {
    if b == [] {
      assert a + b == a;
    } else {
      assert (a + b)[..|a + b| - 1] == a + b[..|b| - 1];
      UndoAppend(a, b[..|b| - 1], UndoRow(st, b[|b| - 1]));
    }
  }

  /** One commit undone: from the graph it left to the graph it found, nothing skipped. */
  lemma {:induction false} UndoLinks(g: Graph, h: Graph, rows: seq<DiffRow>, skipped: seq<string>)
    requires Links(g, h, rows)
    ensures Undo(rows, Restored(h, skipped)) == Restored(g, skipped)
    decreases |rows|
  {
    if rows == [] {
      SameGraph(g, h);
    } else {
      var n := |rows| - 1;
      var r, front := rows[n], rows[..n];
      assert r in rows && RowLinks(g, h, r);
      var st := UndoRow(Restored(h, skipped), r);
      assert Get(st.nodes, r.id) == Get(g, r.id);
      assert forall x | x != r.id :: Get(st.nodes, x) == Get(h, x);
      forall f | f in front ensures RowLinks(g, st.nodes, f) {
        assert f in rows && f.id != r.id;
        assert RowLinks(g, h, f);
        assert Get(st.nodes, f.id) == Get(h, f.id);
      }
      forall x | forall f | f in front :: f.id != x ensures Get(g, x) == Get(st.nodes, x) {
        if x != r.id {
          assert forall f | f in rows :: f in front || f == r;
          assert Get(g, x) == Get(h, x);
        }
      }
      UndoLinks(g, st.nodes, front, skipped);
    }
  }
}
