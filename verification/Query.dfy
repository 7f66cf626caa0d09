/** The two readers of the log: the consolidated diff and the paged delta. */
module Query {
  import opened Graphs
  import opened Deltas
  import opened History
  import opened Trails
  import opened Wrappers

  // ---- one record per changed node over a range ----

  function ConsolidateBracket(first: DiffRow, last: DiffRow): Option<DiffRow> {
    var existedAtFrom := first.op != Add;
    var existsAtTo := last.op != Rem;
    if !existedAtFrom && !existsAtTo then None
    else if !existedAtFrom then
      Some(DiffRow(last.snapshot, first.id, Add, "", last.newHash, "", last.newContent, None))
    else if !existsAtTo then
      Some(DiffRow(last.snapshot, first.id, Rem, first.oldHash, "", first.oldContent, "", None))
    else if first.oldContent == last.newContent then None
    else
      Some(DiffRow(last.snapshot, first.id, Mod, first.oldHash, last.newHash, first.oldContent, last.newContent, None))
  }

  /** Node ids in order of first appearance. */
  function Order(raw: seq<DiffRow>): seq<string> {
    if raw == [] then []
    else
      var seen := Order(Front(raw));
      if Last(raw).id in seen then seen else seen + [Last(raw).id]
  }

  function RecordFor(raw: seq<DiffRow>, id: string): Option<DiffRow> {
    match (FirstFor(raw, id), LastFor(raw, id))
    case (Some(first), Some(last)) => ConsolidateBracket(first, last)
    case _ => None
  }

  function Collect(raw: seq<DiffRow>, order: seq<string>): seq<DiffRow> {
    if order == [] then []
    else
      Collect(raw, Front(order)) +
      match RecordFor(raw, Last(order)) { case Some(rec) => [rec] case None => [] }
  }

  /** A row of x comes before every row of y. */
  ghost predicate SeenBefore(raw: seq<DiffRow>, x: string, y: string) {
    exists k | 0 <= k < |raw| :: raw[k].id == x && forall l | 0 <= l <= k :: raw[l].id != y
  }

  ghost predicate InOrderOfSight(raw: seq<DiffRow>, ids: seq<string>) {
    forall i, j | 0 <= i < j < |ids| :: SeenBefore(raw, ids[i], ids[j])
  }

  lemma {:induction false} OrderMembers(raw: seq<DiffRow>, x: string)
    ensures x in Order(raw) <==> exists k | 0 <= k < |raw| :: raw[k].id == x
  {
    if raw != [] {
      OrderMembers(Front(raw), x);
      assert forall k | 0 <= k < |raw| - 1 :: raw[k] == Front(raw)[k];
    }
  }

  lemma {:induction false} OrderIsOfSight(raw: seq<DiffRow>)
    ensures InOrderOfSight(raw, Order(raw))
  {
    if raw != [] {
      var front, seen, id := Front(raw), Order(Front(raw)), Last(raw).id;
      OrderIsOfSight(front);
      forall x, y | SeenBefore(front, x, y) ensures SeenBefore(raw, x, y) {
        var k :| 0 <= k < |front| && front[k].id == x && forall l | 0 <= l <= k :: front[l].id != y;
        assert raw[k].id == x && forall l | 0 <= l <= k :: raw[l].id == front[l].id;
      }
      if id !in seen {
        forall x | x in seen ensures SeenBefore(raw, x, id) {
          OrderMembers(front, x);
          OrderMembers(front, id);
          var k :| 0 <= k < |front| && front[k].id == x;
          assert raw[k].id == x && forall l | 0 <= l <= k :: raw[l].id == front[l].id;
        }
      }
    }
  }

  function IdsOfRows(rows: seq<DiffRow>): (ids: seq<string>)
    ensures |ids| == |rows| && forall k | 0 <= k < |ids| :: ids[k] == rows[k].id
  {
    seq(|rows|, k requires 0 <= k < |rows| => rows[k].id)
  }

  lemma OneMoreSeen(raw: seq<DiffRow>, ids: seq<string>, id: string)
    requires InOrderOfSight(raw, ids) && forall x | x in ids :: SeenBefore(raw, x, id)
    ensures InOrderOfSight(raw, ids + [id])
  {
  }

  lemma EarlierSeen(raw: seq<DiffRow>, order: seq<string>, ids: seq<string>)
    requires order != [] && InOrderOfSight(raw, order) && forall x | x in ids :: x in Front(order)
    ensures forall x | x in ids :: SeenBefore(raw, x, Last(order))
  {
    forall x | x in ids ensures SeenBefore(raw, x, Last(order)) {
      var k :| 0 <= k < |order| - 1 && order[k] == x;
    }
  }

  lemma IdsAreOf(rows: seq<DiffRow>, order: seq<string>)
    requires forall rec | rec in rows :: rec.id in order
    ensures forall x | x in IdsOfRows(rows) :: x in order
  {
    assert forall k | 0 <= k < |rows| :: rows[k] in rows;
  }

  lemma SightOfFront(raw: seq<DiffRow>, order: seq<string>)
    requires order != [] && InOrderOfSight(raw, order)
    ensures InOrderOfSight(raw, Front(order))
  {
    assert forall i | 0 <= i < |order| - 1 :: Front(order)[i] == order[i];
  }

  /** Records come in the order of their nodes. */
  lemma {:induction false} CollectIsOfSight(raw: seq<DiffRow>, order: seq<string>)
    requires InOrderOfSight(raw, order)
    ensures InOrderOfSight(raw, IdsOfRows(Collect(raw, order)))
    ensures forall rec | rec in Collect(raw, order) :: rec.id in order
  {
    if order != [] {
      var front, id := Collect(raw, Front(order)), Last(order);
      SightOfFront(raw, order);
      CollectIsOfSight(raw, Front(order));
      IdsAreOf(front, Front(order));
      EarlierSeen(raw, order, IdsOfRows(front));
      FirstAndLast(raw, id);
      OneMoreSeen(raw, IdsOfRows(front), id);
      assert forall x | x in Front(order) :: x in order;
      CollectedLast(raw, order);
    }
  }

  lemma CollectedLast(raw: seq<DiffRow>, order: seq<string>)
    requires order != [] && (RecordFor(raw, Last(order)).Some? ==> RecordFor(raw, Last(order)).value.id == Last(order))
    ensures var front := Collect(raw, Front(order));
      IdsOfRows(Collect(raw, order)) ==
      if RecordFor(raw, Last(order)).Some? then IdsOfRows(front) + [Last(order)] else IdsOfRows(front)
    ensures (forall rec | rec in Collect(raw, Front(order)) :: rec.id in order) ==>
      forall rec | rec in Collect(raw, order) :: rec.id in order
  {
  }

  lemma ConsolidatedIsOfSight(raw: seq<DiffRow>)
    ensures InOrderOfSight(raw, IdsOfRows(Collect(raw, Order(raw))))
  {
    OrderIsOfSight(raw);
    CollectIsOfSight(raw, Order(raw));
  }

  datatype Bracket = Bracket(first: DiffRow, last: DiffRow)

  method ConsolidateDiffs(raw: seq<DiffRow>) returns (out: seq<DiffRow>)
    ensures out == Collect(raw, Order(raw))
    ensures InOrderOfSight(raw, IdsOfRows(out))
  {
    var byNode: map<string, Bracket> := map[];
    var order: seq<string> := [];
    for i := 0 to |raw|
      invariant order == Order(raw[..i])
      invariant forall x :: x in byNode <==> x in order
      invariant forall x :: x in byNode <==> FirstFor(raw[..i], x).Some?
      invariant forall x | x in byNode ::
        FirstFor(raw[..i], x) == Some(byNode[x].first) && LastFor(raw[..i], x) == Some(byNode[x].last)
    {
      var d := raw[i];
      assert Front(raw[..i + 1]) == raw[..i] && Last(raw[..i + 1]) == d;
      FirstAndLast(raw[..i], d.id);
      if d.id !in byNode {
        byNode := byNode[d.id := Bracket(d, d)];
        order := order + [d.id];
      } else {
        byNode := byNode[d.id := byNode[d.id].(last := d)];
      }
    }
    assert raw[..|raw|] == raw;
    out := [];
    for i := 0 to |order|
      invariant out == Collect(raw, order[..i])
    {
      var b := byNode[order[i]];
      assert Front(order[..i + 1]) == order[..i];
      var rec := ConsolidateBracket(b.first, b.last);
      if rec.Some? {
        out := out + [rec.value];
      }
    }
    assert order[..|order|] == order;
    ConsolidatedIsOfSight(raw);
  }

  /** What changed for x between g and h, stated on the two graphs alone. */
  function NetChange(g: Graph, h: Graph, x: string): Option<DiffRow> {
    if x in g && x in h then
      if g[x].content == h[x].content then None
      else Some(DiffRow(0, x, Mod, g[x].contentHash, h[x].contentHash, g[x].content, h[x].content, None))
    else if x in h then Some(DiffRow(0, x, Add, "", h[x].contentHash, "", h[x].content, None))
    else if x in g then Some(DiffRow(0, x, Rem, g[x].contentHash, "", g[x].content, "", None))
    else None
  }

  lemma {:induction false} OrderCovers(raw: seq<DiffRow>, x: string)
    ensures x in Order(raw) <==> FirstFor(raw, x).Some?
    ensures forall i, j | 0 <= i < j < |Order(raw)| :: Order(raw)[i] != Order(raw)[j]
  {
    if raw != [] {
      OrderCovers(Front(raw), x);
      OrderCovers(Front(raw), Last(raw).id);
    }
  }

  /** out holds the records of these nodes, each once. */
  ghost predicate IsCollected(raw: seq<DiffRow>, order: seq<string>, out: seq<DiffRow>) {
    && DistinctRows(out)
    && (forall rec | rec in out :: rec.id in order && RecordFor(raw, rec.id) == Some(rec))
    && forall x | x in order && RecordFor(raw, x).Some? :: RecordFor(raw, x).value in out
  }

  lemma CollectOne(raw: seq<DiffRow>, rest: seq<string>, out: seq<DiffRow>, x: string)
    requires IsCollected(raw, rest, out) && x !in rest
    requires RecordFor(raw, x).Some? ==> RecordFor(raw, x).value.id == x
    ensures IsCollected(raw, rest + [x], out + match RecordFor(raw, x) { case Some(rec) => [rec] case None => [] })
  {
    assert forall i | 0 <= i < |out| :: out[i] in out;
  }

  lemma {:induction false} CollectMembers(raw: seq<DiffRow>, order: seq<string>)
    requires forall i, j | 0 <= i < j < |order| :: order[i] != order[j]
    ensures IsCollected(raw, order, Collect(raw, order))
  {
    if order != [] {
      assert order == Front(order) + [Last(order)] && Last(order) !in Front(order);
      CollectMembers(raw, Front(order));
      FirstAndLast(raw, Last(order));
      CollectOne(raw, Front(order), Collect(raw, Front(order)), Last(order));
    }
  }

  lemma CollectsItsOrder(raw: seq<DiffRow>, x: string)
    ensures IsCollected(raw, Order(raw), Collect(raw, Order(raw)))
    ensures RecordFor(raw, x).Some? ==> x in Order(raw) && RecordFor(raw, x).value.id == x
  {
    OrderCovers(raw, x);
    CollectMembers(raw, Order(raw));
    FirstAndLast(raw, x);
  }

  /** The record of a node is its net change, dated by its last row. */
  ghost predicate RecordIsNet(g: Graph, h: Graph, raw: seq<DiffRow>, x: string) {
    match RecordFor(raw, x)
    case Some(rec) =>
      && rec.id == x && NetChange(g, h, x) == Some(rec.(snapshot := 0))
      && LastFor(raw, x).Some? && rec.snapshot == LastFor(raw, x).value.snapshot
    case None => NetChange(g, h, x).None?
  }

  lemma RecordsAreNet(g: Graph, h: Graph, raw: seq<DiffRow>, x: string)
    requires Spans(g, h, raw)
    ensures RecordIsNet(g, h, raw, x)
  {
    FirstAndLast(raw, x);
  }

  /** The records compare g with h: one per node whose presence or content differs, carrying the
      endpoint values, and none for any other node. */
  ghost predicate Compares(g: Graph, h: Graph, out: seq<DiffRow>) {
    && DistinctRows(out)
    && (forall rec | rec in out :: NetChange(g, h, rec.id) == Some(rec.(snapshot := 0)))
    && (forall x | NetChange(g, h, x).Some? :: exists rec :: rec in out && rec.id == x)
  }

  /** Over any range whose rows span g to h, the consolidated records are exactly the comparison of g
      with h: none for transient or unchanged nodes, and each dated by its node's last row. */
  lemma ConsolidationIsExact(g: Graph, h: Graph, raw: seq<DiffRow>)
    requires Spans(g, h, raw)
    ensures var out := Collect(raw, Order(raw));
      && Compares(g, h, out)
      && forall rec | rec in out :: LastFor(raw, rec.id).Some? && rec.snapshot == LastFor(raw, rec.id).value.snapshot
  {
    var out := Collect(raw, Order(raw));
    OrderCovers(raw, "");
    CollectMembers(raw, Order(raw));
    forall rec | rec in out
      ensures NetChange(g, h, rec.id) == Some(rec.(snapshot := 0))
      ensures LastFor(raw, rec.id).Some? && rec.snapshot == LastFor(raw, rec.id).value.snapshot
    {
      RecordsAreNet(g, h, raw, rec.id);
    }
    forall x | NetChange(g, h, x).Some? ensures exists rec :: rec in out && rec.id == x {
      NetChangeIsRecorded(g, h, raw, x);
    }
  }

  lemma NetChangeIsRecorded(g: Graph, h: Graph, raw: seq<DiffRow>, x: string)
    requires Spans(g, h, raw) && NetChange(g, h, x).Some?
    ensures RecordFor(raw, x).Some? && RecordFor(raw, x).value.id == x
    ensures RecordFor(raw, x).value in Collect(raw, Order(raw))
  {
    RecordsAreNet(g, h, raw, x);
    OrderCovers(raw, x);
    CollectMembers(raw, Order(raw));
  }

  /** What MemoryDiff answers for (from, to]. */
  function Consolidated(rows: seq<DiffRow>, from: int, to: int): seq<DiffRow> {
    var raw := Between(rows, from, to);
    Collect(raw, Order(raw))
  }

  /** MemoryDiff over any two points, the commits between them having told the truth, is the
      comparison of their graphs. */
  lemma DiffIsComparison(trail: seq<Commit>, from: int, to: int)
    requires Dated(trail) && trail[0].id <= from <= to && LinksWithin(trail, from, to)
    ensures Compares(GraphAt(trail, from), GraphAt(trail, to), Consolidated(RowsOf(trail), from, to))
  {
    RangeSpans(trail, from, to);
    ConsolidationIsExact(GraphAt(trail, from), GraphAt(trail, to), Between(RowsOf(trail), from, to));
  }

  /** The diff of the a-th and the b-th snapshot compares their graphs. */
  ghost predicate DiffsAt(trail: seq<Commit>, a: nat, b: nat)
    requires a <= b < |trail|
  {
    Compares(trail[a].graph, trail[b].graph, Consolidated(RowsOf(trail), trail[a].id, trail[b].id))
  }

  /** So does that of any two snapshots from the from-th to the to-th. */
  ghost predicate AllDiff(trail: seq<Commit>, from: nat, to: nat) {
    forall a: nat, b: nat | from <= a <= b <= to && b < |trail| :: DiffsAt(trail, a, b)
  }

  lemma LinkedDiffs(trail: seq<Commit>, a: nat, b: nat)
    requires Dated(trail) && a <= b < |trail| && forall k: nat | a < k <= b :: LinksAt(trail, k)
    ensures DiffsAt(trail, a, b)
  {
    var from, to := trail[a].id, trail[b].id;
    DatedInOrder(trail, 0, a);
    DatedInOrder(trail, a, b);
    forall k: nat | 0 < k < |trail| && from < trail[k].id <= to ensures LinksAt(trail, k) {
      if k <= a {
        DatedInOrder(trail, k, a);
      } else if k > b {
        DatedInOrder(trail, b, k);
      }
    }
    DiffIsComparison(trail, from, to);
    GraphAtCommit(trail, a);
    GraphAtCommit(trail, b);
  }

  // ---- the diff of one commit ----

  /** The record of x is its net change, and there is none when there is no change. */
  ghost predicate RecordAgrees(g: Graph, h: Graph, raw: seq<DiffRow>, x: string) {
    match RecordFor(raw, x)
    case Some(rec) => NetChange(g, h, x) == Some(rec.(snapshot := 0))
    case None => NetChange(g, h, x).None?
  }

  lemma CollectedAgrees(g: Graph, h: Graph, raw: seq<DiffRow>, order: seq<string>, out: seq<DiffRow>, x: string)
    requires Compares(g, h, out) && IsCollected(raw, order, out)
    requires RecordFor(raw, x).Some? ==> x in order && RecordFor(raw, x).value.id == x
    ensures RecordAgrees(g, h, raw, x)
  {
  }

  lemma ComparesEach(g: Graph, h: Graph, raw: seq<DiffRow>, x: string)
    requires Compares(g, h, Collect(raw, Order(raw)))
    ensures RecordAgrees(g, h, raw, x)
  {
    CollectsItsOrder(raw, x);
    CollectedAgrees(g, h, raw, Order(raw), Collect(raw, Order(raw)), x);
  }

  lemma {:induction false} OnlyRowFor(rows: seq<DiffRow>, r: DiffRow)
    requires DistinctRows(rows) && r in rows
    ensures FirstFor(rows, r.id) == LastFor(rows, r.id) == Some(r)
  {
    FirstAndLast(rows, r.id);
  }

  /** When its record is its net change, a node with a delta is left as the delta says. */
  lemma DeltaIsKept(snapshot: nat, g: Graph, ds: seq<Delta>, tree: Graph, d: Delta)
    requires Distinct(ds) && TrueValues(g, ds, tree) && d in ds
    requires RecordAgrees(g, Run(g, ds, tree), RowsFor(snapshot, g, ds), d.id)
    ensures Get(Run(g, ds, tree), d.id) == if d.op == Rem then None else Some(tree[d.id])
    ensures d.op == Add ==> d.id !in g
  {
    RowMembers(snapshot, g, ds);
    OnlyRowFor(RowsFor(snapshot, g, ds), RowFor(snapshot, PreState(g, ds), d));
    if d.op != Rem && d.id in Run(g, ds, tree) {
      RunKeepsValues(g, ds, tree, d.id);
    }
  }

  /** Without a record a node without a delta is left alone. */
  lemma RestIsKept(snapshot: nat, g: Graph, ds: seq<Delta>, tree: Graph, x: string)
    requires Distinct(ds) && x !in IdsOf(ds)
    requires RecordAgrees(g, Run(g, ds, tree), RowsFor(snapshot, g, ds), x)
    ensures Get(Run(g, ds, tree), x) == Get(g, x)
  {
    RowIds(snapshot, g, ds, x);
    FirstAndLast(RowsFor(snapshot, g, ds), x);
    if x in Run(g, ds, tree) {
      RunKeepsValues(g, ds, tree, x);
    }
  }

  /** A commit whose records are the net changes did to each node what its deltas mean. */
  lemma ExactMeansIntended(snapshot: nat, g: Graph, ds: seq<Delta>, tree: Graph, x: string)
    requires Distinct(ds) && TrueValues(g, ds, tree)
    requires RecordAgrees(g, Run(g, ds, tree), RowsFor(snapshot, g, ds), x)
    ensures Get(Run(g, ds, tree), x) == Get(Intended(g, ds, tree), x)
    ensures forall d | d in ds && d.id == x && d.op == Add :: x !in g
  {
    if x in IdsOf(ds) {
      var d :| d in ds && d.id == x;
      OneDeltaPerId(ds, tree, d);
      DeltaIsKept(snapshot, g, ds, tree, d);
    } else {
      RestIsKept(snapshot, g, ds, tree, x);
    }
  }

  /** When the deltas give true values, one per node, the diff of the snapshot they make compares the
      graphs before and after exactly when they are faithful. */
  lemma CommitDiffsIff(snapshot: nat, g: Graph, ds: seq<Delta>, tree: Graph)
    requires Distinct(ds) && TrueValues(g, ds, tree)
    ensures var rows, h := RowsFor(snapshot, g, ds), Run(g, ds, tree);
      Compares(g, h, Collect(rows, Order(rows))) <==> Faithful(g, ds, tree)
  {
    var rows, h := RowsFor(snapshot, g, ds), Run(g, ds, tree);
    if Faithful(g, ds, tree) {
      FaithfulLinks(snapshot, g, ds, tree);
      LinksSpan(g, h, rows);
      ConsolidationIsExact(g, h, rows);
    }
    if Compares(g, h, Collect(rows, Order(rows))) {
      forall x
        ensures Get(h, x) == Get(Intended(g, ds, tree), x)
        ensures forall d | d in ds && d.id == x && d.op == Add :: x !in g
      {
        ComparesEach(g, h, rows, x);
        ExactMeansIntended(snapshot, g, ds, tree, x);
      }
      SameGraph(h, Intended(g, ds, tree));
      RunIsIntendedIff(g, ds, tree);
      HonestValues(g, ds, tree);
    }
  }

  // ---- snapshot-aligned paging ----

  ghost predicate Sorted(rows: seq<DiffRow>) {
    forall i, j | 0 <= i < j < |rows| :: rows[i].snapshot <= rows[j].snapshot
  }

  const MAX_INT64: int := 0x7fff_ffff_ffff_ffff

  /** LIMIT n, where a negative n means no limit. */
  function SqlLimit(rows: seq<DiffRow>, n: int): seq<DiffRow> {
    if n < 0 || |rows| <= n then rows else rows[..n]
  }

  datatype Page = Page(rows: seq<DiffRow>, truncated: bool, overflow: bool)

  /** k rows end exactly where a snapshot ends. */
  predicate Boundary(q: seq<DiffRow>, k: nat) {
    k == 0 || k >= |q| || q[k - 1].snapshot != q[k].snapshot
  }

  /** The contract of a page over the pending rows q. */
  ghost predicate IsPage(q: seq<DiffRow>, limit: int, p: Page) {
    if limit < 1 then p == Page([], false, false)
    else if |q| <= limit then p == Page(q, false, false)
    else
      && p.truncated
      && |p.rows| <= limit && p.rows == q[..|p.rows|]
      && (p.overflow <==> q[0].snapshot == q[limit].snapshot)
      && (p.overflow ==> |p.rows| == limit)
      && (!p.overflow ==> p.rows != [] && Boundary(q, |p.rows|))
      && (!p.overflow ==> forall k | |p.rows| < k <= limit :: !Boundary(q, k))
  }

  method Delta(rows: seq<DiffRow>, since: int, limit: int) returns (p: Page)
    requires Sorted(rows) && limit <= MAX_INT64
    ensures IsPage(After(rows, since), limit, p)
  {
    if limit < 1 {
      return Page([], false, false);
    }
    ghost var q := After(rows, since);
    AfterIsSorted(rows, since);
    var bound := if limit == MAX_INT64 then -MAX_INT64 - 1 else limit + 1;
    var diffs := SqlLimit(After(rows, since), bound);
    if |diffs| <= limit {
      return Page(diffs, false, false);
    }
    var peek := diffs[limit].snapshot;
    diffs := diffs[..limit];
    var last := diffs[|diffs| - 1].snapshot;
    if peek != last {
      return Page(diffs, true, false);
    }
    if diffs[0].snapshot == last {
      return Page(diffs, true, true);
    }
    var cut := CompleteRows(q, diffs);
    return Page(diffs[..cut], true, false);
  }

  /** Trim the trailing partial snapshot off diffs, the first rows of q. */
  method CompleteRows(ghost q: seq<DiffRow>, diffs: seq<DiffRow>) returns (cut: nat)
    requires 0 < |diffs| < |q| && diffs == q[..|diffs|]
    requires q[0].snapshot != q[|diffs| - 1].snapshot == q[|diffs|].snapshot
    ensures 0 < cut < |diffs| && Boundary(q, cut)
    ensures forall k | cut < k <= |diffs| :: !Boundary(q, k)
  {
    var last := diffs[|diffs| - 1].snapshot;
    cut := |diffs|;
    while cut > 0 && diffs[cut - 1].snapshot == last
      invariant cut <= |diffs|
      invariant forall k | cut <= k <= |diffs| :: q[k].snapshot == last
    {
      cut := cut - 1;
    }
  }

  lemma {:induction false} AfterMembers(rows: seq<DiffRow>, lo: int)
    ensures forall r :: r in After(rows, lo) <==> r in rows && lo < r.snapshot
  {
    if rows != [] {
      assert rows == Front(rows) + [Last(rows)];
      AfterMembers(Front(rows), lo);
    }
  }

  lemma {:induction false} AfterIsSorted(rows: seq<DiffRow>, lo: int)
    requires Sorted(rows)
    ensures Sorted(After(rows, lo))
  {
    if rows != [] {
      AfterIsSorted(Front(rows), lo);
      AfterMembers(Front(rows), lo);
      forall r | r in Front(rows) ensures r.snapshot <= Last(rows).snapshot {
        var i :| 0 <= i < |rows| - 1 && rows[i] == r;
      }
      var q := After(Front(rows), lo);
      forall i | 0 <= i < |q| ensures q[i].snapshot <= Last(rows).snapshot {
        assert q[i] in q;
      }
    }
  }

  lemma {:induction false} AfterAppend(a: seq<DiffRow>, b: seq<DiffRow>, lo: int)
    ensures After(a + b, lo) == After(a, lo) + After(b, lo)
    decreases |b|
  {
    if b == [] {
      assert a + b == a;
    } else {
      assert Front(a + b) == a + Front(b) && Last(a + b) == Last(b);
      AfterAppend(a, Front(b), lo);
    }
  }

  lemma {:induction false} AfterAllOrNone(rows: seq<DiffRow>, lo: int)
    ensures (forall r | r in rows :: lo < r.snapshot) ==> After(rows, lo) == rows
    ensures (forall r | r in rows :: r.snapshot <= lo) ==> After(rows, lo) == []
  {
    if rows != [] {
      assert rows == Front(rows) + [Last(rows)];
      AfterAllOrNone(Front(rows), lo);
    }
  }

  lemma {:induction false} AfterAfter(rows: seq<DiffRow>, lo: int, hi: int)
    requires lo <= hi
    ensures After(After(rows, lo), hi) == After(rows, hi)
  {
    if rows != [] {
      AfterAfter(Front(rows), lo, hi);
      var front := After(Front(rows), lo);
      if lo < Last(rows).snapshot {
        assert After(rows, lo) == front + [Last(rows)];
        assert Front(front + [Last(rows)]) == front;
      } else {
        assert After(rows, lo) == front;
      }
    }
  }

  /** Cutting sorted rows at a snapshot boundary splits them by snapshot id. */
  lemma CutAtBoundary(q: seq<DiffRow>, k: nat)
    requires Sorted(q) && 0 < k < |q| && Boundary(q, k)
    ensures After(q, q[k - 1].snapshot) == q[k..]
  {
    var lo := q[k - 1].snapshot;
    assert q == q[..k] + q[k..];
    forall r | r in q[..k] ensures r.snapshot <= lo {
      var i :| 0 <= i < k && q[i] == r;
    }
    forall r | r in q[k..] ensures lo < r.snapshot {
      var i :| k <= i < |q| && q[i] == r;
      assert lo < q[k].snapshot <= q[i].snapshot;
    }
    AfterAllOrNone(q[..k], lo);
    AfterAllOrNone(q[k..], lo);
    AfterAppend(q[..k], q[k..], lo);
  }

  lemma ResumeAt(rows: seq<DiffRow>, since: int, k: nat)
    requires Sorted(rows) && 0 < k < |After(rows, since)| && Boundary(After(rows, since), k)
    ensures var q := After(rows, since);
      since < q[k - 1].snapshot && q[k..] == After(rows, q[k - 1].snapshot)
  {
    var q := After(rows, since);
    AfterIsSorted(rows, since);
    AfterMembers(rows, since);
    assert q[k - 1] in q;
    CutAtBoundary(q, k);
    AfterAfter(rows, since, q[k - 1].snapshot);
  }

  /** Resuming from the last id of a complete page continues exactly where it stopped. */
  lemma ResumeIsLossless(rows: seq<DiffRow>, since: int, limit: int, p: Page)
    requires Sorted(rows) && limit >= 1 && IsPage(After(rows, since), limit, p)
    requires p.truncated && !p.overflow
    ensures p.rows != [] && since < Last(p.rows).snapshot
    ensures After(rows, since) == p.rows + After(rows, Last(p.rows).snapshot)
  {
    var q, k := After(rows, since), |p.rows|;
    assert p.rows == q[..k] && 0 < k <= limit < |q| && Boundary(q, k);
    ResumeAt(rows, since, k);
    assert Last(p.rows) == q[k - 1];
    assert q == q[..k] + q[k..];
  }

  /** No limit + 1 consecutive rows of q come from one snapshot. */
  ghost predicate Pageable(q: seq<DiffRow>, limit: nat) {
    forall i {:trigger q[i]} | 0 <= i < |q| - limit :: q[i].snapshot != q[i + limit].snapshot
  }

  lemma PageableSplits(q: seq<DiffRow>, k: nat, limit: nat)
    requires Sorted(q) && 0 < k < |q| && Boundary(q, k)
    requires k <= limit
    ensures Pageable(q, limit) <==> Pageable(q[k..], limit)
  {
    var r := q[k..];
    if Pageable(r, limit) {
      forall i | 0 <= i < |q| - limit ensures q[i].snapshot != q[i + limit].snapshot {
        if i >= k {
          assert r[i - k] == q[i];
        } else {
          assert q[i].snapshot <= q[k - 1].snapshot < q[k].snapshot <= q[i + limit].snapshot;
        }
      }
    }
    if Pageable(q, limit) {
      forall i | 0 <= i < |r| - limit ensures r[i].snapshot != r[i + limit].snapshot {
        assert q[i + k] == r[i] && q[i + k + limit] == r[i + limit];
      }
    }
  }

  /** How many rows a snapshot has in the log. */
  function CountOf(rows: seq<DiffRow>, snapshot: nat): nat {
    if rows == [] then 0
    else CountOf(Front(rows), snapshot) + if Last(rows).snapshot == snapshot then 1 else 0
  }

  lemma {:induction false} CountSplits(a: seq<DiffRow>, b: seq<DiffRow>, snapshot: nat)
    ensures CountOf(a + b, snapshot) == CountOf(a, snapshot) + CountOf(b, snapshot)
    decreases |b|
  {
    if b == [] {
      assert a + b == a;
    } else {
      assert Front(a + b) == a + Front(b) && Last(a + b) == Last(b);
      CountSplits(a, Front(b), snapshot);
    }
  }

  lemma {:induction false} CountBounds(rows: seq<DiffRow>, snapshot: nat)
    ensures CountOf(rows, snapshot) <= |rows|
    ensures (forall r | r in rows :: r.snapshot == snapshot) ==> CountOf(rows, snapshot) == |rows|
    ensures (forall r | r in rows :: r.snapshot != snapshot) ==> CountOf(rows, snapshot) == 0
  {
    if rows != [] {
      assert rows == Front(rows) + [Last(rows)];
      CountBounds(Front(rows), snapshot);
    }
  }

  lemma CountOfRun(q: seq<DiffRow>, n: nat, snapshot: nat)
    requires n <= |q| && forall i | 0 <= i < n :: q[i].snapshot == snapshot
    ensures CountOf(q, snapshot) >= n
  {
    assert q == q[..n] + q[n..];
    CountSplits(q[..n], q[n..], snapshot);
    CountBounds(q[..n], snapshot);
  }

  lemma CountUpTo(q: seq<DiffRow>, n: nat, snapshot: nat)
    requires n <= |q| && forall i | n <= i < |q| :: q[i].snapshot != snapshot
    ensures CountOf(q, snapshot) <= n
  {
    assert q == q[..n] + q[n..];
    CountSplits(q[..n], q[n..], snapshot);
    CountBounds(q[..n], snapshot);
    CountBounds(q[n..], snapshot);
  }

  /** The first pending snapshot reaches past the limit exactly when it has more rows than that. */
  lemma FirstSnapshotReaches(q: seq<DiffRow>, limit: nat)
    requires Sorted(q) && limit < |q|
    ensures q[limit].snapshot == q[0].snapshot <==> CountOf(q, q[0].snapshot) > limit
  {
    if q[limit].snapshot == q[0].snapshot {
      CountOfRun(q, limit + 1, q[0].snapshot);
    } else {
      CountUpTo(q, limit, q[0].snapshot);
    }
  }

  /** Overflow means that the next snapshot alone has more rows than the limit. */
  lemma OverflowIff(rows: seq<DiffRow>, from: int, limit: int, p: Page)
    requires Sorted(rows) && limit >= 1 && IsPage(After(rows, from), limit, p)
    ensures var q := After(rows, from); p.overflow <==> q != [] && CountOf(q, q[0].snapshot) > limit
  {
    var q := After(rows, from);
    AfterIsSorted(rows, from);
    if |q| > limit {
      FirstSnapshotReaches(q, limit);
    } else if q != [] {
      CountBounds(q, q[0].snapshot);
    }
  }

  /** What a page tells the caller about the rows still pending. */
  lemma PageVerdict(rows: seq<DiffRow>, from: int, limit: int, p: Page)
    requires Sorted(rows) && limit >= 1 && IsPage(After(rows, from), limit, p)
    ensures var q := After(rows, from); p.overflow <==> q != [] && CountOf(q, q[0].snapshot) > limit
    ensures p.overflow ==> !Pageable(After(rows, from), limit)
    ensures !p.truncated ==> Pageable(After(rows, from), limit) && !p.overflow && p.rows == After(rows, from)
    ensures p.truncated && !p.overflow ==>
      && p.rows != []
      && After(rows, from) == p.rows + After(rows, Last(p.rows).snapshot)
      && (Pageable(After(rows, from), limit) <==> Pageable(After(rows, Last(p.rows).snapshot), limit))
  {
    var q := After(rows, from);
    OverflowIff(rows, from, limit, p);
    if p.overflow {
      assert q[0].snapshot == q[0 + limit].snapshot;
    } else if p.truncated {
      ResumeIsLossless(rows, from, limit, p);
      AfterIsSorted(rows, from);
      PageableSplits(q, |p.rows|, limit);
      assert q[|p.rows|..] == After(rows, Last(p.rows).snapshot);
    }
  }

  lemma CountFront(q: seq<DiffRow>, k: nat, snapshot: nat)
    requires k <= |q| && forall j | k <= j < |q| :: q[j].snapshot != snapshot
    ensures CountOf(q, snapshot) == CountOf(q[..k], snapshot)
  {
    assert forall r | r in q[k..] :: r.snapshot != snapshot;
    CountBounds(q[k..], snapshot);
    CountSplits(q[..k], q[k..], snapshot);
    assert q == q[..k] + q[k..];
  }

  lemma CountTail(q: seq<DiffRow>, k: nat, snapshot: nat)
    requires k <= |q| && forall j | 0 <= j < k :: q[j].snapshot != snapshot
    ensures CountOf(q, snapshot) == CountOf(q[k..], snapshot)
  {
    assert forall r | r in q[..k] :: r.snapshot != snapshot;
    CountBounds(q[..k], snapshot);
    CountSplits(q[..k], q[k..], snapshot);
    assert q == q[..k] + q[k..];
  }

  lemma BoundarySeparates(q: seq<DiffRow>, k: nat, i: nat, j: nat)
    requires Sorted(q) && i < k <= j < |q| && Boundary(q, k)
    ensures q[i].snapshot < q[j].snapshot
  {
    assert q[i].snapshot <= q[k - 1].snapshot < q[k].snapshot <= q[j].snapshot;
  }

  /** Cut at a boundary, each snapshot's rows are all on one side. */
  lemma CountBefore(q: seq<DiffRow>, k: nat, i: nat)
    requires Sorted(q) && i < k <= |q| && Boundary(q, k)
    ensures CountOf(q, q[i].snapshot) == CountOf(q[..k], q[i].snapshot)
  {
    forall j | k <= j < |q| ensures q[j].snapshot != q[i].snapshot {
      BoundarySeparates(q, k, i, j);
    }
    CountFront(q, k, q[i].snapshot);
  }

  lemma CountBehind(q: seq<DiffRow>, k: nat, i: nat)
    requires Sorted(q) && k <= i < |q| && Boundary(q, k)
    ensures CountOf(q, q[i].snapshot) == CountOf(q[k..], q[i].snapshot)
  {
    forall j | 0 <= j < k ensures q[j].snapshot != q[i].snapshot {
      BoundarySeparates(q, k, j, i);
    }
    CountTail(q, k, q[i].snapshot);
  }

  /** The rows collected are whole snapshots that fit a page, and where the paging stopped the next
      snapshot does not fit. */
  ghost predicate Drained(q: seq<DiffRow>, limit: nat, all: seq<DiffRow>, stuck: bool) {
    && all <= q && Boundary(q, |all|) && (forall i | 0 <= i < |all| :: CountOf(q, q[i].snapshot) <= limit)
    && if stuck then |all| < |q| && CountOf(q, q[|all|].snapshot) > limit else all == q
  }

  lemma PageFits(q: seq<DiffRow>, limit: nat, k: nat, i: nat)
    requires Sorted(q) && i < k <= |q| && Boundary(q, k) && k <= limit
    ensures CountOf(q, q[i].snapshot) <= limit
  {
    CountBefore(q, k, i);
    CountBounds(q[..k], q[i].snapshot);
  }

  /** A complete page and what the rest drains to. */
  lemma DrainedBehind(q: seq<DiffRow>, limit: nat, k: nat, rest: seq<DiffRow>, stuck: bool)
    requires Sorted(q) && 0 < k < |q| && Boundary(q, k) && k <= limit && Drained(q[k..], limit, rest, stuck)
    ensures Drained(q, limit, q[..k] + rest, stuck)
  {
    var all, r := q[..k] + rest, q[k..];
    PrefixBehind(q, k, rest);
    forall i | 0 <= i < |all| ensures CountOf(q, q[i].snapshot) <= limit {
      if i < k {
        PageFits(q, limit, k, i);
      } else {
        BehindCounts(q, k, i);
      }
    }
    if |rest| < |r| {
      BehindCounts(q, k, |all|);
    }
    BoundaryBehind(q, k, |rest|);
  }

  lemma PrefixBehind(q: seq<DiffRow>, k: nat, rest: seq<DiffRow>)
    requires k <= |q| && rest <= q[k..]
    ensures q[..k] + rest <= q && (rest == q[k..] ==> q[..k] + rest == q)
  {
    assert q == q[..k] + q[k..] && q[k..] == rest + q[k..][|rest|..];
  }

  lemma BehindCounts(q: seq<DiffRow>, k: nat, i: nat)
    requires Sorted(q) && k <= i < |q| && Boundary(q, k)
    ensures q[k..][i - k] == q[i] && CountOf(q, q[i].snapshot) == CountOf(q[k..], q[k..][i - k].snapshot)
  {
    CountBehind(q, k, i);
  }

  lemma BoundaryBehind(q: seq<DiffRow>, k: nat, n: nat)
    requires 0 < k < |q| && Boundary(q, k) && n <= |q| - k && Boundary(q[k..], n)
    ensures Boundary(q, k + n)
  {
    if 0 < n < |q| - k {
      assert q[k..][n - 1] == q[k + n - 1] && q[k..][n] == q[k + n];
    }
  }

  /** What the first page gives, before any further call. */
  lemma FirstPage(rows: seq<DiffRow>, from: int, limit: int, p: Page)
    requires Sorted(rows) && limit >= 1 && IsPage(After(rows, from), limit, p)
    ensures p.overflow ==> Drained(After(rows, from), limit, [], true)
    ensures !p.truncated ==> Drained(After(rows, from), limit, p.rows, false)
  {
    var q := After(rows, from);
    AfterIsSorted(rows, from);
    OverflowIff(rows, from, limit, p);
    if !p.truncated {
      forall i | 0 <= i < |q| ensures CountOf(q, q[i].snapshot) <= limit {
        PageFits(q, limit, |q|, i);
      }
    }
  }

  /** The caller's loop: page until nothing more is reported or a snapshot overflows.
      It collects every row after since, once and in order, up to the first snapshot that
      alone logged more than limit rows, if there is one. */
  method Drain(rows: seq<DiffRow>, since: int, limit: int) returns (all: seq<DiffRow>, stuck: bool)
    requires Sorted(rows) && 1 <= limit <= MAX_INT64
    ensures Drained(After(rows, since), limit, all, stuck)
    ensures stuck <==> !Pageable(After(rows, since), limit)
    decreases |After(rows, since)|
  {
    var p := Delta(rows, since, limit);
    PageVerdict(rows, since, limit, p);
    FirstPage(rows, since, limit, p);
    if p.overflow {
      return [], true;
    }
    if !p.truncated {
      return p.rows, false;
    }
    var rest, stop := Drain(rows, Last(p.rows).snapshot, limit);
    AfterIsSorted(rows, since);
    DrainedBehind(After(rows, since), limit, |p.rows|, rest, stop);
    return p.rows + rest, stop;
  }
}
