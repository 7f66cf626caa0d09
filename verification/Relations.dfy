/** Wiki links become edges, or wait in a queue that every run replays. */
module Relations {
  import opened Graphs
  import opened Resolver

  const PARSED: string := "parsed"

  /** A relation row's unique key. */
  datatype Edge = Edge(source: string, target: string, origin: string)

  type Edges = map<Edge, real>

  /** What a pending row says; its id only orders the queue. */
  datatype Row = Row(source: string, ref: Ref, origin: string)

  datatype Pending = Pending(id: nat, row: Row)

  datatype SourceNode = SourceNode(id: string, refs: seq<Ref>)

  /** The two relation tables, without row ids. */
  datatype Links = Links(edges: Edges, rows: seq<Row>)

  // ---- what a run is to do ----

  ghost predicate Open(g: Graph, row: Row) {
    Target(g, row.ref) == ""
  }

  /** The rows that stay in the queue. */
  ghost function OpenRows(g: Graph, rows: seq<Row>): seq<Row> {
    if rows == [] then []
    else
      var last := rows[|rows| - 1];
      if Open(g, last) then OpenRows(g, rows[..|rows| - 1]) + [last] else OpenRows(g, rows[..|rows| - 1])
  }

  lemma {:induction false} OpenRowsMembers(g: Graph, rows: seq<Row>)
    ensures forall row :: row in OpenRows(g, rows) <==> row in rows && Open(g, row)
  {
    if rows != [] {
      OpenRowsMembers(g, rows[..|rows| - 1]);
      assert rows == rows[..|rows| - 1] + [rows[|rows| - 1]];
    }
  }

  /** The edges these rows turn into; a later row's weight replaces an earlier one's. */
  ghost function EdgesOf(g: Graph, rows: seq<Row>): Edges {
    if rows == [] then map[]
    else
      var last, m := rows[|rows| - 1], EdgesOf(g, rows[..|rows| - 1]);
      if Open(g, last) then m else Written(g, m, last)
  }

  ghost predicate EdgeFrom(g: Graph, row: Row, e: Edge) {
    !Open(g, row) && e == Edge(row.source, Target(g, row.ref), row.origin)
  }

  lemma {:induction false} EdgesOfMembers(g: Graph, rows: seq<Row>, e: Edge)
    ensures e in EdgesOf(g, rows) <==> exists row :: row in rows && EdgeFrom(g, row, e)
  {
    if rows != [] {
      var front, last := rows[..|rows| - 1], rows[|rows| - 1];
      EdgesOfMembers(g, front, e);
      assert rows == front + [last];
      assert last in rows && (forall row | row in front :: row in rows);
      assert e in EdgesOf(g, rows) <==> e in EdgesOf(g, front) || EdgeFrom(g, last, e);
    }
  }

  function LinkRows(id: string, refs: seq<Ref>, origin: string): (r: seq<Row>)
    ensures |r| == |refs| && forall k | 0 <= k < |r| :: r[k] == Row(id, refs[k], origin)
  {
    seq(|refs|, k requires 0 <= k < |refs| => Row(id, refs[k], origin))
  }

  /** The queue without the parsed rows of one source. */
  function Cleared(rows: seq<Row>, source: string): seq<Row> {
    if rows == [] then []
    else
      var front, last := Cleared(rows[..|rows| - 1], source), rows[|rows| - 1];
      if last.source == source && last.origin == PARSED then front else front + [last]
  }

  /** One node's links: a node without any leaves both tables alone. */
  ghost function AfterNode(g: Graph, l: Links, n: SourceNode): Links {
    if n.refs == [] then l
    else
      var rows := LinkRows(n.id, n.refs, PARSED);
      Links(l.edges + EdgesOf(g, rows), Cleared(l.rows, n.id) + OpenRows(g, rows))
  }

  ghost function AfterNodes(g: Graph, l: Links, nodes: seq<SourceNode>): Links {
    if nodes == [] then l else AfterNode(g, AfterNodes(g, l, nodes[..|nodes| - 1]), nodes[|nodes| - 1])
  }

  /** Replaying the queue. */
  ghost function AfterRetry(g: Graph, l: Links): Links {
    Links(l.edges + EdgesOf(g, l.rows), OpenRows(g, l.rows))
  }

  ghost function AfterRun(g: Graph, l: Links, nodes: seq<SourceNode>): Links {
    AfterRetry(g, AfterNodes(g, l, nodes))
  }

  lemma {:induction false} EdgesOfAppend(g: Graph, a: seq<Row>, b: seq<Row>)
    ensures EdgesOf(g, a + b) == EdgesOf(g, a) + EdgesOf(g, b)
  {
    if b == [] {
      assert a + b == a;
    } else {
      assert (a + b)[..|a + b| - 1] == a + b[..|b| - 1];
      EdgesOfAppend(g, a, b[..|b| - 1]);
    }
  }

  lemma {:induction false} OpenRowsAppend(g: Graph, a: seq<Row>, b: seq<Row>)
    ensures OpenRows(g, a + b) == OpenRows(g, a) + OpenRows(g, b)
  {
    if b == [] {
      assert a + b == a;
    } else {
      assert (a + b)[..|a + b| - 1] == a + b[..|b| - 1];
      OpenRowsAppend(g, a, b[..|b| - 1]);
    }
  }

  /** These tables with rows written on top. */
  ghost function Writing(g: Graph, l: Links, rows: seq<Row>): Links {
    Links(l.edges + EdgesOf(g, rows), l.rows + OpenRows(g, rows))
  }

  lemma WritingOne(g: Graph, l: Links, row: Row)
    ensures Writing(g, l, [row]) ==
        if Open(g, row) then Links(l.edges, l.rows + [row]) else Links(Written(g, l.edges, row), l.rows)
  {
    var rows := [row];
    assert rows[..|rows| - 1] == [] && rows[|rows| - 1] == row;
    assert OpenRows(g, rows[..|rows| - 1]) == [] && EdgesOf(g, rows[..|rows| - 1]) == map[];
    assert OpenRows(g, rows) == if Open(g, row) then [row] else [];
    assert EdgesOf(g, rows) == if Open(g, row) then map[] else Written(g, map[], row);
    WriteLast(g, l.edges, map[], row);
    assert l.edges + map[] == l.edges;
  }

  /** One more row written on top of these tables. */
  lemma WriteStep(g: Graph, l: Links, rows: seq<Row>, k: nat)
    requires k < |rows|
    ensures Writing(g, Writing(g, l, rows[..k]), [rows[k]]) == Writing(g, l, rows[..k + 1])
  {
    assert rows[..k + 1] == rows[..k] + [rows[k]];
    WritingAppend(g, l, rows[..k], [rows[k]]);
  }

  lemma WritingAppend(g: Graph, l: Links, a: seq<Row>, b: seq<Row>)
    ensures Writing(g, Writing(g, l, a), b) == Writing(g, l, a + b)
  {
    EdgesOfAppend(g, a, b);
    OpenRowsAppend(g, a, b);
    WritesAssociate(l.edges, EdgesOf(g, a), EdgesOf(g, b));
  }

  lemma WritesAssociate(a: map<Edge, real>, b: map<Edge, real>, c: map<Edge, real>)
    ensures a + b + c == a + (b + c)
  {
  }

  // ---- the tables ----

  ghost function QueuedRows(pending: seq<Pending>): (r: seq<Row>)
    ensures |r| == |pending| && forall k | 0 <= k < |r| :: r[k] == pending[k].row
  {
    seq(|pending|, k requires 0 <= k < |pending| => pending[k].row)
  }

  ghost predicate Queued(pending: seq<Pending>, nextId: nat) {
    && (forall k, l | 0 <= k < l < |pending| :: pending[k].id < pending[l].id)
    && forall k | 0 <= k < |pending| :: pending[k].id < nextId
  }

  ghost predicate Waiting(g: Graph, pending: seq<Pending>, nextId: nat) {
    Queued(pending, nextId) && forall p | p in pending :: p.row.source in g
  }

  function Removed(pending: seq<Pending>, k: nat): seq<Pending>
    requires k < |pending|
  {
    pending[..k] + pending[k + 1..]
  }

  function WithoutParsed(pending: seq<Pending>, source: string): seq<Pending> {
    if pending == [] then []
    else
      var front, last := WithoutParsed(pending[..|pending| - 1], source), pending[|pending| - 1];
      if last.row.source == source && last.row.origin == PARSED then front else front + [last]
  }

  lemma {:induction false} WithoutParsedIsQueued(pending: seq<Pending>, source: string, nextId: nat)
    requires Queued(pending, nextId)
    ensures Queued(WithoutParsed(pending, source), nextId)
    ensures forall p | p in WithoutParsed(pending, source) :: p in pending
  {
    if pending != [] {
      var front, last := pending[..|pending| - 1], pending[|pending| - 1];
      WithoutParsedIsQueued(front, source, last.id);
      assert pending == front + [last];
    }
  }

  lemma {:induction false} WithoutParsedClears(pending: seq<Pending>, source: string)
    ensures QueuedRows(WithoutParsed(pending, source)) == Cleared(QueuedRows(pending), source)
  {
    if pending != [] {
      var front, last := pending[..|pending| - 1], pending[|pending| - 1];
      WithoutParsedClears(front, source);
      assert QueuedRows(pending)[..|pending| - 1] == QueuedRows(front);
      assert QueuedRows(WithoutParsed(front, source) + [last]) == QueuedRows(WithoutParsed(front, source)) + [last.row];
    }
  }

  class Tables {
    var edges: Edges
    var pending: seq<Pending>
    var nextId: nat

    /** Queue ids are handed out in order, and the foreign key keeps every waiting source alive. */
    ghost predicate Valid(g: Graph)
      reads this
    {
      Waiting(g, pending, nextId)
    }

    ghost function View(): Links
      reads this
    {
      Links(edges, QueuedRows(pending))
    }

    constructor ()
      ensures View() == Links(map[], [])
    {
      edges, pending, nextId := map[], [], 0;
    }

    /** Write one link as an edge or a waiting row; the foreign key refuses an unknown source. */
    method Emit(g: Graph, sourceId: string, ref: Ref, origin: string) returns (ok: bool)
      requires Valid(g)
      modifies this
      ensures Valid(g) && ok == (sourceId in g)
      ensures var row := Row(sourceId, ref, origin);
        ok ==> View() == Writing(g, old(View()), [row])
    {
      var target := Resolve(g, ref);
      ghost var row := Row(sourceId, ref, origin);
      WritingOne(g, View(), row);
      if sourceId !in g {
        return false;
      }
      if target != "" {
        UpsertRelation(Edge(sourceId, target, origin), ref.weight);
      } else {
        pending := pending + [Pending(nextId, Row(sourceId, ref, origin))];
        nextId := nextId + 1;
      }
      return true;
    }

    method DeleteParsedPendingForSource(source: string, ghost g: Graph)
      requires Valid(g)
      modifies this
      ensures Valid(g) && View() == Links(old(edges), Cleared(old(View()).rows, source))
    {
      WithoutParsedIsQueued(pending, source, nextId);
      WithoutParsedClears(pending, source);
      pending := WithoutParsed(pending, source);
    }

    /** Replace one node's waiting links by what its refs now say. */
    method EmitNode(g: Graph, n: SourceNode) returns (ok: bool)
      requires Valid(g)
      modifies this
      ensures Valid(g) && ok == (n.refs == [] || n.id in g)
      ensures ok ==> View() == AfterNode(g, old(View()), n)
    {
      if |n.refs| == 0 {
        return true;
      }
      DeleteParsedPendingForSource(n.id, g);
      ghost var l, rows := View(), LinkRows(n.id, n.refs, PARSED);
      for k := 0 to |n.refs|
        invariant Valid(g) && (k == 0 || n.id in g) && View() == Writing(g, l, rows[..k])
      {
        WriteStep(g, l, rows, k);
        ok := Emit(g, n.id, n.refs[k], PARSED);
        if !ok {
          return false;
        }
      }
      assert rows[..|n.refs|] == rows;
      return true;
    }

    method UpsertRelation(e: Edge, weight: real)
      modifies this
      ensures edges == old(edges)[e := weight] && pending == old(pending) && nextId == old(nextId)
    {
      edges := edges[e := weight];
    }

    /** Delete the waiting row with this id, if there is one. */
    method DeletePendingByID(id: nat)
      requires Queued(pending, nextId)
      modifies this
      ensures edges == old(edges) && nextId == old(nextId)
      ensures forall k: nat | k < |old(pending)| && old(pending)[k].id == id :: pending == Removed(old(pending), k)
      ensures (forall k: nat | k < |old(pending)| :: old(pending)[k].id != id) ==> pending == old(pending)
    {
      for k := 0 to |pending|
        invariant pending == old(pending) && edges == old(edges) && nextId == old(nextId)
        invariant forall j | 0 <= j < k :: pending[j].id != id
      {
        if pending[k].id == id {
          pending := Removed(pending, k);
          return;
        }
      }
    }

    /** Try one waiting row again: it becomes an edge, or stays where it is. */
    method RetryOne(g: Graph, p: Pending, ghost was: Edges, ghost list: seq<Pending>, ghost k: nat,
                    ghost kept: seq<Pending>)
      returns (ghost nowKept: seq<Pending>)
      requires k < |list| && p == list[k]
      requires Retrying(g, was, list, k, kept, pending, edges) && Waiting(g, pending, nextId)
      modifies this
      ensures Retrying(g, was, list, k + 1, nowKept, pending, edges) && Waiting(g, pending, nextId)
    {
      var target := Resolve(g, p.row.ref);
      if target == "" {
        KeepStep(g, was, list, k, kept, pending, edges);
        return kept + [p];
      }
      TakeStep(g, was, list, k, kept, pending, edges);
      RemovedIsWaiting(g, pending, nextId, |kept|);
      UpsertRelation(Edge(p.row.source, target, p.row.origin), p.row.ref.weight);
      DeletePendingByID(p.id);
      return kept;
    }

    /** Replay every waiting row. */
    method RetryPending(g: Graph)
      requires Valid(g)
      modifies this
      ensures Valid(g) && View() == AfterRetry(g, old(View()))
    {
      var list := pending;
      ghost var was, kept := edges, [];
      assert list[0..] == list && QueuedRows(list)[..0] == [];
      for k := 0 to |list|
        invariant Retrying(g, was, list, k, kept, pending, edges) && Waiting(g, pending, nextId)
      {
        kept := RetryOne(g, list[k], was, list, k, kept);
      }
      assert QueuedRows(list)[..|list|] == QueuedRows(list) && pending == kept;
    }

    /** Resolve the links of these nodes, then replay the queue. */
    method RunTx(g: Graph, nodes: seq<SourceNode>) returns (ok: bool)
      requires Valid(g)
      modifies this
      ensures Valid(g) && ok == forall n | n in nodes :: n.refs == [] || n.id in g
      ensures ok ==> View() == AfterRun(g, old(View()), nodes)
    {
      ghost var l := View();
      for i := 0 to |nodes|
        invariant Valid(g) && View() == AfterNodes(g, l, nodes[..i])
        invariant forall n | n in nodes[..i] :: n.refs == [] || n.id in g
      {
        assert nodes[..i + 1][..i] == nodes[..i] && nodes[..i + 1] == nodes[..i] + [nodes[i]];
        ok := EmitNode(g, nodes[i]);
        if !ok {
          return false;
        }
      }
      assert nodes[..|nodes|] == nodes;
      RetryPending(g);
      return true;
    }

    /** RunTx in a transaction of its own: a failure leaves both tables as they were. */
    method Run(g: Graph, nodes: seq<SourceNode>) returns (ok: bool)
      requires Valid(g)
      modifies this
      ensures Valid(g) && ok == forall n | n in nodes :: n.refs == [] || n.id in g
      ensures View() == if ok then AfterRun(g, old(View()), nodes) else old(View())
    {
      var wasEdges, wasPending, wasNext := edges, pending, nextId;
      ok := RunTx(g, nodes);
      if !ok {
        edges, pending, nextId := wasEdges, wasPending, wasNext;
      }
    }
  }

  /** The replay after k rows: what it kept, and what it has not seen. */
  ghost predicate Retrying(g: Graph, was: Edges, list: seq<Pending>, k: nat, kept: seq<Pending>,
                           pending: seq<Pending>, edges: Edges)
    requires k <= |list|
  {
    && pending == kept + list[k..]
    && QueuedRows(kept) == OpenRows(g, QueuedRows(list)[..k])
    && edges == was + EdgesOf(g, QueuedRows(list)[..k])
  }

  ghost function Written(g: Graph, edges: Edges, row: Row): Edges {
    edges[Edge(row.source, Target(g, row.ref), row.origin) := row.ref.weight]
  }

  /** A row that stays open is kept. */
  lemma KeepStep(g: Graph, was: Edges, list: seq<Pending>, k: nat, kept: seq<Pending>, pending: seq<Pending>,
                 edges: Edges)
    requires k < |list| && Retrying(g, was, list, k, kept, pending, edges) && Open(g, list[k].row)
    ensures Retrying(g, was, list, k + 1, kept + [list[k]], pending, edges)
  {
    assert list[k..] == [list[k]] + list[k + 1..];
    RowsStep(g, QueuedRows(list), k);
    assert QueuedRows(kept + [list[k]]) == QueuedRows(kept) + [list[k].row];
  }

  /** A row that resolves becomes an edge and leaves the queue. */
  lemma TakeStep(g: Graph, was: Edges, list: seq<Pending>, k: nat, kept: seq<Pending>, pending: seq<Pending>,
                 edges: Edges)
    requires k < |list| && Retrying(g, was, list, k, kept, pending, edges) && !Open(g, list[k].row)
    ensures |kept| < |pending| && pending[|kept|] == list[k]
    ensures Retrying(g, was, list, k + 1, kept, Removed(pending, |kept|), Written(g, edges, list[k].row))
  {
    RowsStep(g, QueuedRows(list), k);
    assert Removed(pending, |kept|) == kept + list[k + 1..];
    WriteLast(g, was, EdgesOf(g, QueuedRows(list)[..k]), list[k].row);
  }

  lemma RemovedIsWaiting(g: Graph, pending: seq<Pending>, nextId: nat, k: nat)
    requires Waiting(g, pending, nextId) && k < |pending|
    ensures Waiting(g, Removed(pending, k), nextId)
  {
  }

  lemma WriteLast(g: Graph, was: Edges, m: Edges, row: Row)
    ensures was + Written(g, m, row) == Written(g, was + m, row)
  {
  }

  lemma RowsStep(g: Graph, rows: seq<Row>, k: nat)
    requires k < |rows|
    ensures Open(g, rows[k]) ==>
      && OpenRows(g, rows[..k + 1]) == OpenRows(g, rows[..k]) + [rows[k]]
      && EdgesOf(g, rows[..k + 1]) == EdgesOf(g, rows[..k])
    ensures !Open(g, rows[k]) ==>
      && OpenRows(g, rows[..k + 1]) == OpenRows(g, rows[..k])
      && EdgesOf(g, rows[..k + 1]) == Written(g, EdgesOf(g, rows[..k]), rows[k])
  {
    assert rows[..k + 1][..k] == rows[..k];
  }

  // ---- what a run achieves ----

  /** Whether the run starts this source's parsed links afresh. */
  ghost predicate Rewritten(nodes: seq<SourceNode>, id: string) {
    exists n :: n in nodes && n.refs != [] && n.id == id
  }

  ghost predicate Stays(nodes: seq<SourceNode>, row: Row) {
    row.origin == PARSED ==> !Rewritten(nodes, row.source)
  }

  /** The waiting rows a run leaves to the replay. */
  ghost function Staying(nodes: seq<SourceNode>, rows: seq<Row>): seq<Row> {
    if rows == [] then []
    else
      var front, last := Staying(nodes, rows[..|rows| - 1]), rows[|rows| - 1];
      if Stays(nodes, last) then front + [last] else front
  }

  /** The edges and the waiting rows these nodes' links turn into. */
  ghost function Fresh(g: Graph, nodes: seq<SourceNode>): Links {
    AfterNodes(g, Links(map[], []), nodes)
  }

  lemma {:induction false} StayingMembers(nodes: seq<SourceNode>, rows: seq<Row>)
    ensures forall row :: row in Staying(nodes, rows) <==> row in rows && Stays(nodes, row)
  {
    if rows != [] {
      StayingMembers(nodes, rows[..|rows| - 1]);
      assert rows == rows[..|rows| - 1] + [rows[|rows| - 1]];
    }
  }

  lemma {:induction false} StayingAll(nodes: seq<SourceNode>, rows: seq<Row>)
    ensures (forall row | row in rows :: Stays(nodes, row)) ==> Staying(nodes, rows) == rows
    ensures (forall row | row in rows :: !Stays(nodes, row)) ==> Staying(nodes, rows) == []
  {
    if rows != [] {
      StayingAll(nodes, rows[..|rows| - 1]);
      assert rows == rows[..|rows| - 1] + [rows[|rows| - 1]];
    }
  }

  lemma {:induction false} OpenAll(g: Graph, rows: seq<Row>)
    requires forall row | row in rows :: Open(g, row)
    ensures OpenRows(g, rows) == rows && EdgesOf(g, rows) == map[]
  {
    if rows != [] {
      assert rows == rows[..|rows| - 1] + [rows[|rows| - 1]];
      OpenAll(g, rows[..|rows| - 1]);
    }
  }

  lemma {:induction false} StayingAppend(nodes: seq<SourceNode>, a: seq<Row>, b: seq<Row>)
    ensures Staying(nodes, a + b) == Staying(nodes, a) + Staying(nodes, b)
  {
    if b == [] {
      assert a + b == a;
    } else {
      assert (a + b)[..|a + b| - 1] == a + b[..|b| - 1];
      StayingAppend(nodes, a, b[..|b| - 1]);
    }
  }

  lemma {:induction false} ClearedAppend(a: seq<Row>, b: seq<Row>, source: string)
    ensures Cleared(a + b, source) == Cleared(a, source) + Cleared(b, source)
  {
    if b == [] {
      assert a + b == a;
    } else {
      assert (a + b)[..|a + b| - 1] == a + b[..|b| - 1];
      ClearedAppend(a, b[..|b| - 1], source);
    }
  }

  lemma {:induction false} ClearedMembers(rows: seq<Row>, source: string)
    ensures forall row :: row in Cleared(rows, source) <==>
        row in rows && !(row.source == source && row.origin == PARSED)
  {
    if rows != [] {
      ClearedMembers(rows[..|rows| - 1], source);
      assert rows == rows[..|rows| - 1] + [rows[|rows| - 1]];
    }
  }

  /** Clearing one more source. */
  lemma {:induction false} StayingStep(nodes: seq<SourceNode>, n: SourceNode, rows: seq<Row>)
    ensures Staying(nodes + [n], rows) ==
            if n.refs == [] then Staying(nodes, rows) else Cleared(Staying(nodes, rows), n.id)
  {
    if rows != [] {
      var front, last := rows[..|rows| - 1], rows[|rows| - 1];
      StayingStep(nodes, n, front);
      StaysStep(nodes, n, last);
      assert (Staying(nodes, front) + [last])[..|Staying(nodes, front)|] == Staying(nodes, front);
    }
  }

  lemma StaysStep(nodes: seq<SourceNode>, n: SourceNode, row: Row)
    ensures Stays(nodes + [n], row) <==>
            Stays(nodes, row) && !(n.refs != [] && row.source == n.id && row.origin == PARSED)
  {
    assert n in nodes + [n];
    assert forall x | x in nodes :: x in nodes + [n];
    assert forall x | x in nodes + [n] :: x in nodes || x == n;
  }

  /** Writing the nodes' links is the same on any tables: fresh edges on top, fresh rows behind. */
  lemma {:induction false} NodesSplit(g: Graph, l: Links, nodes: seq<SourceNode>)
    ensures var f := Fresh(g, nodes);
      AfterNodes(g, l, nodes) == Links(l.edges + f.edges, Staying(nodes, l.rows) + f.rows)
  {
    if nodes == [] {
      StayingAll([], l.rows);
    } else {
      var front, n := nodes[..|nodes| - 1], nodes[|nodes| - 1];
      NodesSplit(g, l, front);
      assert nodes == front + [n];
      StayingStep(front, n, l.rows);
      NodeSplit(g, l.edges, Staying(front, l.rows), Fresh(g, front), n);
    }
  }

  lemma NodeSplit(g: Graph, edges: Edges, rows: seq<Row>, f: Links, n: SourceNode)
    ensures var next := AfterNode(g, f, n);
      AfterNode(g, Links(edges + f.edges, rows + f.rows), n) ==
      Links(edges + next.edges, (if n.refs == [] then rows else Cleared(rows, n.id)) + next.rows)
  {
    if n.refs != [] {
      var links := LinkRows(n.id, n.refs, PARSED);
      ClearedAppend(rows, f.rows, n.id);
      JoinEdges(edges, f.edges, EdgesOf(g, links));
      JoinRows(Cleared(rows, n.id), Cleared(f.rows, n.id), OpenRows(g, links));
    }
  }

  lemma JoinEdges(a: Edges, b: Edges, c: Edges)
    ensures a + b + c == a + (b + c)
  {
  }

  lemma JoinRows(a: seq<Row>, b: seq<Row>, c: seq<Row>)
    ensures a + b + c == a + (b + c)
  {
  }

  lemma WriteAgain(a: Edges, f: Edges, r: Edges)
    requires forall e :: e in f ==> e !in r
    ensures a + f + r + f + map[] == a + f + r
  {
  }

  ghost predicate IsLink(nodes: seq<SourceNode>, row: Row) {
    row.origin == PARSED && exists n :: n in nodes && n.id == row.source && row.ref in n.refs
  }

  lemma LinkOfMore(nodes: seq<SourceNode>, n: SourceNode, row: Row)
    ensures IsLink(nodes + [n], row) <==> IsLink(nodes, row) || row in LinkRows(n.id, n.refs, PARSED)
  {
    var rows := LinkRows(n.id, n.refs, PARSED);
    assert n in nodes + [n];
    assert forall x | x in nodes :: x in nodes + [n];
    assert forall x | x in nodes + [n] :: x in nodes || x == n;
    if row.ref in n.refs && row.source == n.id && row.origin == PARSED {
      var k :| 0 <= k < |n.refs| && n.refs[k] == row.ref;
      assert rows[k] == row;
    }
  }

  /** Fresh rows are open links of these nodes; fresh edges are resolved ones. */
  lemma {:induction false} FreshRows(g: Graph, nodes: seq<SourceNode>)
    ensures forall row | row in Fresh(g, nodes).rows :: Open(g, row) && IsLink(nodes, row)
  {
    if nodes != [] {
      var front, n := nodes[..|nodes| - 1], nodes[|nodes| - 1];
      FreshRows(g, front);
      assert nodes == front + [n];
      OpenRowsMembers(g, LinkRows(n.id, n.refs, PARSED));
      ClearedMembers(Fresh(g, front).rows, n.id);
      forall row | row in Fresh(g, nodes).rows ensures Open(g, row) && IsLink(nodes, row) {
        LinkOfMore(front, n, row);
      }
    }
  }

  lemma {:induction false} FreshEdges(g: Graph, nodes: seq<SourceNode>, e: Edge)
    ensures e in Fresh(g, nodes).edges <==> exists row :: IsLink(nodes, row) && EdgeFrom(g, row, e)
  {
    if nodes != [] {
      var front, n := nodes[..|nodes| - 1], nodes[|nodes| - 1];
      FreshEdges(g, front, e);
      assert nodes == front + [n];
      EdgesOfMembers(g, LinkRows(n.id, n.refs, PARSED), e);
      forall row ensures IsLink(nodes, row) <==> IsLink(front, row) || row in LinkRows(n.id, n.refs, PARSED) {
        LinkOfMore(front, n, row);
      }
    }
  }

  /** No waiting row a run leaves behind could have been resolved. */
  lemma NothingResolvableWaits(g: Graph, l: Links, nodes: seq<SourceNode>)
    ensures forall row | row in AfterRun(g, l, nodes).rows :: Open(g, row)
  {
    OpenRowsMembers(g, AfterNodes(g, l, nodes).rows);
  }

  /** The edges after a run: those there before, and the links and waiting rows that resolve. */
  lemma EdgesAfterRun(g: Graph, l: Links, nodes: seq<SourceNode>, e: Edge)
    ensures e in AfterRun(g, l, nodes).edges <==>
            e in l.edges || exists row :: (IsLink(nodes, row) || row in Staying(nodes, l.rows)) && EdgeFrom(g, row, e)
  {
    NodesSplit(g, l, nodes);
    FreshEdges(g, nodes, e);
    FreshRows(g, nodes);
    EdgesOfMembers(g, AfterNodes(g, l, nodes).rows, e);
  }

  ghost predicate DistinctNodes(nodes: seq<SourceNode>) {
    forall i, j | 0 <= i < j < |nodes| :: nodes[i].id != nodes[j].id
  }

  lemma {:induction false} OpenLinksWait(g: Graph, nodes: seq<SourceNode>, row: Row)
    requires DistinctNodes(nodes) && IsLink(nodes, row) && Open(g, row)
    ensures row in Fresh(g, nodes).rows
  {
    if nodes != [] {
      var front, n := nodes[..|nodes| - 1], nodes[|nodes| - 1];
      assert nodes == front + [n];
      LinkOfMore(front, n, row);
      OpenRowsMembers(g, LinkRows(n.id, n.refs, PARSED));
      ClearedMembers(Fresh(g, front).rows, n.id);
      if IsLink(front, row) {
        OpenLinksWait(g, front, row);
        var x :| x in front && x.id == row.source && row.ref in x.refs;
        assert exists i :: 0 <= i < |front| && nodes[i] == x;
      }
    }
  }

  /** Every link of every processed node ends as an edge to what it resolves to, or waits. */
  lemma EveryLinkLands(g: Graph, l: Links, nodes: seq<SourceNode>, n: SourceNode, ref: Ref)
    requires DistinctNodes(nodes) && n in nodes && ref in n.refs
    ensures Target(g, ref) != "" ==> Edge(n.id, Target(g, ref), PARSED) in AfterRun(g, l, nodes).edges
    ensures Target(g, ref) == "" ==> Row(n.id, ref, PARSED) in AfterRun(g, l, nodes).rows
    ensures ref.idHint != "" ==>
      if ref.idHint in g then Edge(n.id, ref.idHint, PARSED) in AfterRun(g, l, nodes).edges
      else Row(n.id, ref, PARSED) in AfterRun(g, l, nodes).rows
    ensures ref.idHint == "" && ref.title != "" ==>
      forall x | x != "" && IsFirst(g, ref, x) :: Edge(n.id, x, PARSED) in AfterRun(g, l, nodes).edges
  {
    forall x | IsFirst(g, ref, x)
      ensures ref.idHint == "" && ref.title != "" ==> Target(g, ref) == x
    {
      TargetIsFirst(g, ref, x);
    }
    var row := Row(n.id, ref, PARSED);
    assert IsLink(nodes, row);
    if Open(g, row) {
      OpenLinksWait(g, nodes, row);
      NodesSplit(g, l, nodes);
      OpenRowsMembers(g, AfterNodes(g, l, nodes).rows);
    } else {
      assert EdgeFrom(g, row, Edge(n.id, Target(g, ref), PARSED));
      EdgesAfterRun(g, l, nodes, Edge(n.id, Target(g, ref), PARSED));
    }
  }

  // ---- the weight of an edge ----

  /** The k-th row is the last of them that becomes e. */
  ghost predicate LastFrom(g: Graph, rows: seq<Row>, e: Edge, k: nat) {
    k < |rows| && EdgeFrom(g, rows[k], e) && forall i | k < i < |rows| :: !EdgeFrom(g, rows[i], e)
  }

  lemma {:induction false} LastRowWeighs(g: Graph, rows: seq<Row>, e: Edge, k: nat)
    requires LastFrom(g, rows, e, k)
    ensures e in EdgesOf(g, rows) && EdgesOf(g, rows)[e] == rows[k].ref.weight
    decreases |rows|
  {
    var last := |rows| - 1;
    if k < last {
      assert !EdgeFrom(g, rows[last], e);
      assert forall i | k < i < last :: rows[..last][i] == rows[i];
      LastRowWeighs(g, rows[..last], e, k);
    }
  }

  /** Another node's links leave this source's edges alone. */
  lemma OtherSources(g: Graph, id: string, refs: seq<Ref>, e: Edge)
    requires e.source != id
    ensures e !in EdgesOf(g, LinkRows(id, refs, PARSED))
  {
    EdgesOfMembers(g, LinkRows(id, refs, PARSED), e);
  }

  lemma {:induction false} FreshWeight(g: Graph, nodes: seq<SourceNode>, i: nat, k: nat, e: Edge)
    requires DistinctNodes(nodes) && i < |nodes| && LastFrom(g, LinkRows(nodes[i].id, nodes[i].refs, PARSED), e, k)
    ensures e in Fresh(g, nodes).edges && Fresh(g, nodes).edges[e] == nodes[i].refs[k].weight
    decreases |nodes|
  {
    var last := |nodes| - 1;
    var front, n := nodes[..last], nodes[last];
    if i == last {
      LastRowWeighs(g, LinkRows(n.id, n.refs, PARSED), e, k);
    } else {
      FreshWeight(g, front, i, k, e);
      assert nodes[i].id != n.id;
      OtherSources(g, n.id, n.refs, e);
    }
  }

  /** After a run an edge has the weight of the last link of its source that names it; failing any, of
      the last waiting row that became it; failing that too, the weight it had. */
  lemma WeightAfterRun(g: Graph, l: Links, nodes: seq<SourceNode>, e: Edge, i: nat, k: nat)
    requires DistinctNodes(nodes)
    ensures i < |nodes| && LastFrom(g, LinkRows(nodes[i].id, nodes[i].refs, PARSED), e, k) ==>
      e in AfterRun(g, l, nodes).edges && AfterRun(g, l, nodes).edges[e] == nodes[i].refs[k].weight
    ensures LastFrom(g, Staying(nodes, l.rows), e, k) ==>
      e in AfterRun(g, l, nodes).edges && AfterRun(g, l, nodes).edges[e] == Staying(nodes, l.rows)[k].ref.weight
    ensures (forall row | IsLink(nodes, row) || row in Staying(nodes, l.rows) :: !EdgeFrom(g, row, e)) ==>
      e in l.edges ==>
      e in AfterRun(g, l, nodes).edges && AfterRun(g, l, nodes).edges[e] == l.edges[e]
  {
    var waiting := Staying(nodes, l.rows);
    RunSplit(g, l, nodes);
    NewEdgesAreApart(g, l, nodes);
    if i < |nodes| && LastFrom(g, LinkRows(nodes[i].id, nodes[i].refs, PARSED), e, k) {
      FreshWeight(g, nodes, i, k, e);
    }
    if LastFrom(g, waiting, e, k) {
      LastRowWeighs(g, waiting, e, k);
    }
    FreshEdges(g, nodes, e);
    EdgesOfMembers(g, waiting, e);
  }

  /** A run in terms of its parts. */
  lemma RunSplit(g: Graph, l: Links, nodes: seq<SourceNode>)
    ensures var f, waiting := Fresh(g, nodes), Staying(nodes, l.rows);
      AfterRun(g, l, nodes) == Links(l.edges + f.edges + EdgesOf(g, waiting), OpenRows(g, waiting) + f.rows)
  {
    NodesSplit(g, l, nodes);
    FreshRows(g, nodes);
    RetrySplit(g, l.edges + Fresh(g, nodes).edges, Staying(nodes, l.rows), Fresh(g, nodes).rows);
  }

  /** Replaying a queue that ends in rows known to be open. */
  lemma RetrySplit(g: Graph, edges: Edges, waiting: seq<Row>, open: seq<Row>)
    requires forall row | row in open :: Open(g, row)
    ensures AfterRetry(g, Links(edges, waiting + open)) ==
            Links(edges + EdgesOf(g, waiting), OpenRows(g, waiting) + open)
  {
    OpenAll(g, open);
    EdgesOfAppend(g, waiting, open);
    OpenRowsAppend(g, waiting, open);
    assert EdgesOf(g, waiting) + map[] == EdgesOf(g, waiting);
  }

  /** A second run over the same nodes changes nothing but row ids. */
  lemma SecondRunChangesNothing(g: Graph, l: Links, nodes: seq<SourceNode>)
    ensures AfterRun(g, AfterRun(g, l, nodes), nodes) == AfterRun(g, l, nodes)
  {
    var f, waiting := Fresh(g, nodes), Staying(nodes, l.rows);
    var once := AfterRun(g, l, nodes);
    RunSplit(g, l, nodes);
    RunSplit(g, once, nodes);
    StayingAgain(g, l.rows, nodes);
    OpenRowsMembers(g, waiting);
    OpenAll(g, OpenRows(g, waiting));
    NewEdgesAreApart(g, l, nodes);
    WriteAgain(l.edges, f.edges, EdgesOf(g, waiting));
  }

  lemma StayingAgain(g: Graph, rows: seq<Row>, nodes: seq<SourceNode>)
    ensures Staying(nodes, OpenRows(g, Staying(nodes, rows)) + Fresh(g, nodes).rows) ==
        OpenRows(g, Staying(nodes, rows))
  {
    var kept, added := OpenRows(g, Staying(nodes, rows)), Fresh(g, nodes).rows;
    StayingAppend(nodes, kept, added);
    StayingMembers(nodes, rows);
    OpenRowsMembers(g, Staying(nodes, rows));
    StayingAll(nodes, kept);
    FreshRows(g, nodes);
    StayingAll(nodes, added);
  }

  /** Replayed rows never write over the links just written. */
  lemma NewEdgesAreApart(g: Graph, l: Links, nodes: seq<SourceNode>)
    ensures forall e :: e in Fresh(g, nodes).edges ==> e !in EdgesOf(g, Staying(nodes, l.rows))
  {
    StayingMembers(nodes, l.rows);
    forall e | e in Fresh(g, nodes).edges ensures e !in EdgesOf(g, Staying(nodes, l.rows)) {
      FreshEdges(g, nodes, e);
      EdgesOfMembers(g, Staying(nodes, l.rows), e);
    }
  }
}
