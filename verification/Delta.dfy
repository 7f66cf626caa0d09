/** Deltas, the diff rows that log them, and the reverse walk over those rows. */
module Deltas {
  import opened Graphs
  import opened Wrappers

  datatype Op = Add | Mod | Rem

  datatype Delta = Delta(
    id: string, op: Op,
    oldHash: string, newHash: string,
    oldContent: string, newContent: string)

  /** The old_* columns of a diff row; all are set together or not at all. */
  datatype Meta = Meta(
    parent: string, sourceFile: string, nodeType: string, depth: int,
    title: string, format: string, tokenCount: int)

  datatype DiffRow = DiffRow(
    snapshot: nat, id: string, op: Op,
    oldHash: string, newHash: string,
    oldContent: string, newContent: string,
    meta: Option<Meta>)

  function IdsOf(ds: seq<Delta>): set<string> {
    set d | d in ds :: d.id
  }

  ghost predicate Distinct(ds: seq<Delta>) {
    forall i, j | 0 <= i < j < |ds| :: ds[i].id != ds[j].id
  }

  // ---- applying deltas ----

  function Step(g: Graph, d: Delta, tree: Graph): Graph {
    match d.op
    case Rem => Delete(g, d.id)
    case _ => if d.id in tree then g[d.id := tree[d.id]] else g
  }

  function Run(g: Graph, ds: seq<Delta>, tree: Graph): Graph
    decreases |ds|
  {
    if ds == [] then g else Run(Step(g, ds[0], tree), ds[1..], tree)
  }

  function Upserts(ds: seq<Delta>, tree: Graph): set<string> {
    set d | d in ds && d.op != Rem && d.id in tree :: d.id
  }

  /** What the deltas mean: the removed ids gone, the upserted ids as in tree, the rest alone. */
  function Intended(g: Graph, ds: seq<Delta>, tree: Graph): Graph {
    var upserts := Upserts(ds, tree);
    map x | x in (g.Keys - IdsOf(ds)) + upserts :: if x in upserts then tree[x] else g[x]
  }

  ghost predicate InTree(ds: seq<Delta>, tree: Graph) {
    forall d | d in ds && d.op != Rem :: d.id in tree
  }

  /** At each removal, everything the cascade takes has its own delta, there or later in the list. */
  ghost predicate CascadeSafe(g: Graph, ds: seq<Delta>, tree: Graph)
    decreases |ds|
  {
    ds != [] ==>
      && (ds[0].op == Rem ==> Cascade(g, ds[0].id) <= IdsOf(ds))
      && CascadeSafe(Step(g, ds[0], tree), ds[1..], tree)
  }

  lemma IdsSplit(ds: seq<Delta>)
    requires ds != []
    ensures IdsOf(ds) == {ds[0].id} + IdsOf(ds[1..])
    ensures Distinct(ds) ==> ds[0].id !in IdsOf(ds[1..]) && Distinct(ds[1..])
  {
    assert ds == [ds[0]] + ds[1..];
  }

  lemma {:induction false} RunStaysWithin(g: Graph, ds: seq<Delta>, tree: Graph, x: string)
    requires x in Run(g, ds, tree)
    ensures x in g || x in IdsOf(ds)
    decreases |ds|
  {
    if ds != [] {
      IdsSplit(ds);
      RunStaysWithin(Step(g, ds[0], tree), ds[1..], tree, x);
    }
  }

  lemma UpsertsSplit(ds: seq<Delta>, tree: Graph)
    requires ds != []
    ensures Upserts(ds, tree) == Upserts(ds[1..], tree) +
                                 (if ds[0].op != Rem && ds[0].id in tree then {ds[0].id} else {})
  {
    assert ds == [ds[0]] + ds[1..];
  }

  lemma IntendedStep(g: Graph, ds: seq<Delta>, tree: Graph)
    requires ds != [] && Distinct(ds) && InTree(ds, tree)
    requires ds[0].op == Rem ==> Cascade(g, ds[0].id) <= IdsOf(ds)
    ensures Intended(Step(g, ds[0], tree), ds[1..], tree) == Intended(g, ds, tree)
  {
    var d, g1 := ds[0], Step(g, ds[0], tree);
    IdsSplit(ds);
    UpsertsSplit(ds, tree);
    assert d in ds;
    assert g1.Keys - IdsOf(ds[1..]) + Upserts(ds[1..], tree) == g.Keys - IdsOf(ds) + Upserts(ds, tree);
  }

  /** Replaying the deltas one by one gives their meaning exactly when no cascade
      takes a node that no pending delta accounts for. */
  lemma {:induction false} RunIsIntendedIff(g: Graph, ds: seq<Delta>, tree: Graph)
    requires Distinct(ds) && InTree(ds, tree)
    ensures Run(g, ds, tree) == Intended(g, ds, tree) <==> CascadeSafe(g, ds, tree)
    decreases |ds|
  {
    if ds == [] {
      assert Intended(g, ds, tree) == g;
    } else {
      var g1 := Step(g, ds[0], tree);
      IdsSplit(ds);
      RunIsIntendedIff(g1, ds[1..], tree);
      if ds[0].op != Rem || Cascade(g, ds[0].id) <= IdsOf(ds) {
        IntendedStep(g, ds, tree);
      } else {
        var x :| x in Cascade(g, ds[0].id) && x !in IdsOf(ds);
        assert x in Intended(g, ds, tree);
        if x in Run(g, ds, tree) {
          RunStaysWithin(g1, ds[1..], tree, x);
        }
      }
    }
  }

  // ---- upserts first, removals last ----

  ghost predicate AllUpserts(ds: seq<Delta>) {
    forall d | d in ds :: d.op != Rem
  }

  ghost predicate AllRemovals(ds: seq<Delta>) {
    forall d | d in ds :: d.op == Rem
  }

  lemma {:induction false} RunAppend(g: Graph, a: seq<Delta>, b: seq<Delta>, tree: Graph)
    ensures Run(g, a + b, tree) == Run(Run(g, a, tree), b, tree)
    decreases |a|
  {
    if a == [] {
      assert a + b == b;
    } else {
      assert (a + b)[1..] == a[1..] + b;
      RunAppend(Step(g, a[0], tree), a[1..], b, tree);
    }
  }

  lemma {:induction false} UpsertsAreSafe(g: Graph, ups: seq<Delta>, rems: seq<Delta>, tree: Graph)
    requires AllUpserts(ups)
    ensures CascadeSafe(g, ups + rems, tree) <==> CascadeSafe(Run(g, ups, tree), rems, tree)
    decreases |ups|
  {
    if ups == [] {
      assert ups + rems == rems;
    } else {
      assert (ups + rems)[1..] == ups[1..] + rems;
      UpsertsAreSafe(Step(g, ups[0], tree), ups[1..], rems, tree);
    }
  }

  /** Removals in any order take exactly the subtrees below the removed ids. */
  lemma {:induction false} RemovalsTakeSubtrees(g: Graph, rems: seq<Delta>, tree: Graph)
    requires AllRemovals(rems)
    ensures Run(g, rems, tree) == g - Grow(g, IdsOf(rems) * g.Keys)
    decreases |rems|
  {
    if rems == [] {
      GrowIsLeast(g, {}, {});
    } else {
      IdsSplit(rems);
      assert rems[0] in rems;
      RemovalsTakeSubtrees(Delete(g, rems[0].id), rems[1..], tree);
      GrowInSteps(g, rems[0].id, IdsOf(rems[1..]));
    }
  }

  /** A list of removals strands nothing exactly when the removed ids keep their children. */
  lemma {:induction false} RemovalsAreSafeIff(g: Graph, rems: seq<Delta>, tree: Graph)
    requires AllRemovals(rems) && Distinct(rems) && Closed(g) && "" !in IdsOf(rems)
    ensures CascadeSafe(g, rems, tree) <==> ChildClosed(g, IdsOf(rems))
    decreases |rems|
  {
    if rems != [] {
      var d, rest := rems[0], rems[1..];
      IdsSplit(rems);
      assert d in rems;
      var gone := Cascade(g, d.id);
      DeleteKeepsClosed(g, d.id);
      RemovalsAreSafeIff(g - gone, rest, tree);
      if ChildClosed(g, IdsOf(rems)) && d.id in g {
        GrowIsLeast(g, {d.id}, IdsOf(rems));
      }
      if CascadeSafe(g, rems, tree) {
        forall x | x in ChildrenOf(g, IdsOf(rems)) ensures x in IdsOf(rems) {
          if x !in gone {
            assert g[x].parent == d.id ==> x in ChildrenOf(g, gone);
            assert x in ChildrenOf(g - gone, IdsOf(rest));
          }
        }
      }
    }
  }
}
