/** Forgetting a node: the delta list of each mode and the forest it leaves. */
module Forgets {
  import opened Graphs
  import opened Deltas
  import opened History

  datatype Mode = Strict | CascadeMode | Reparent

  /** The refusal carries the number of children that block a strict delete. */
  datatype ForgetPlan = Refused(children: nat) | Accepted(tree: Graph, deltas: seq<Delta>)

  function RemDelta(id: string, n: Node): Delta {
    Delta(id, Rem, n.contentHash, "", n.content, "")
  }

  function MoveDelta(id: string, n: Node): Delta {
    Delta(id, Mod, n.contentHash, n.contentHash, n.content, n.content)
  }

  function Removals(g: Graph, ids: seq<string>): seq<Delta>
    requires forall x | x in ids :: x in g
  {
    seq(|ids|, i requires 0 <= i < |ids| => RemDelta(ids[i], g[ids[i]]))
  }

  function Moves(g: Graph, ids: seq<string>): seq<Delta>
    requires forall x | x in ids :: x in g
  {
    seq(|ids|, i requires 0 <= i < |ids| => MoveDelta(ids[i], g[ids[i]]))
  }

  /** Every child of id, moved up to id's own parent. */
  function Promoted(g: Graph, id: string): Graph
    requires id in g
  {
    map x | x in ChildrenOf(g, {id}) :: g[x].(parent := g[id].parent)
  }

  ghost predicate Lists(order: seq<string>, s: set<string>) {
    && (forall x :: x in order <==> x in s)
    && (forall i, j | 0 <= i < j < |order| :: order[i] != order[j])
  }

  /** A query without ORDER BY returns its rows in some order. */
  method Rows(s: set<string>) returns (order: seq<string>)
    ensures Lists(order, s)
  {
    order := [];
    var todo := s;
    while todo != {}
      invariant todo <= s
      invariant Lists(order, s - todo)
    {
      var x :| x in todo;
      todo := todo - {x};
      order := order + [x];
    }
  }

  /** kids lists the children of id, below lists its descendants. */
  ghost predicate IsPlan(p: ForgetPlan, g: Graph, id: string, mode: Mode, kids: seq<string>, below: seq<string>)
    requires id in g
  {
    && Lists(kids, ChildrenOf(g, {id})) && Lists(below, Grow(g, ChildrenOf(g, {id})))
    && match mode
       case Strict => p == if kids != [] then Refused(|kids|) else Accepted(map[], [RemDelta(id, g[id])])
       case CascadeMode => p == Accepted(map[], [RemDelta(id, g[id])] + Removals(g, below))
       case Reparent => p == Accepted(Promoted(g, id), Moves(g, kids) + [RemDelta(id, g[id])])
  }

  method CascadeDeltas(g: Graph, id: string, descendants: seq<string>) returns (deltas: seq<Delta>)
    requires id in g && forall x | x in descendants :: x in g
    ensures deltas == [RemDelta(id, g[id])] + Removals(g, descendants)
  {
    deltas := [RemDelta(id, g[id])];
    for i := 0 to |descendants|
      invariant deltas == [RemDelta(id, g[id])] + Removals(g, descendants[..i])
    {
      deltas := deltas + [RemDelta(descendants[i], g[descendants[i]])];
      assert Removals(g, descendants[..i + 1]) ==
             Removals(g, descendants[..i]) + [RemDelta(descendants[i], g[descendants[i]])];
    }
    assert descendants[..|descendants|] == descendants;
  }

  method ReparentDeltas(g: Graph, id: string, children: seq<string>) returns (tree: Graph, deltas: seq<Delta>)
    requires id in g && forall x | x in children :: x in g
    ensures tree == map x | x in children :: g[x].(parent := g[id].parent)
    ensures deltas == Moves(g, children) + [RemDelta(id, g[id])]
  {
    tree, deltas := map[], [];
    for i := 0 to |children|
      invariant deltas == Moves(g, children[..i])
      invariant tree == map x | x in children[..i] :: g[x].(parent := g[id].parent)
    {
      var c := children[i];
      tree := tree[c := g[c].(parent := g[id].parent)];
      deltas := deltas + [MoveDelta(c, g[c])];
      assert children[..i + 1] == children[..i] + [c];
      assert Moves(g, children[..i + 1]) == Moves(g, children[..i]) + [MoveDelta(c, g[c])];
    }
    assert children[..|children|] == children;
    deltas := deltas + [RemDelta(id, g[id])];
  }

  method BuildForgetDeltas(g: Graph, id: string, mode: Mode) returns (p: ForgetPlan)
    requires id in g
    ensures exists kids, below :: IsPlan(p, g, id, mode, kids, below)
  {
    var children := Rows(ChildrenOf(g, {id}));
    var descendants := Rows(Grow(g, ChildrenOf(g, {id})));
    match mode {
      case Strict =>
        if |children| > 0 {
          p := Refused(|children|);
        } else {
          p := Accepted(map[], [RemDelta(id, g[id])]);
        }
      case CascadeMode =>
        var deltas := CascadeDeltas(g, id, descendants);
        p := Accepted(map[], deltas);
      case Reparent =>
        var tree, deltas := ReparentDeltas(g, id, children);
        assert tree == Promoted(g, id);
        p := Accepted(tree, deltas);
    }
    assert IsPlan(p, g, id, mode, children, descendants);
  }

  // ---- what a plan does ----

  lemma RemovalIds(g: Graph, ids: seq<string>)
    requires forall x | x in ids :: x in g
    ensures IdsOf(Removals(g, ids)) == (set x | x in ids)
    ensures forall d | d in Removals(g, ids) :: d.id in ids && d == RemDelta(d.id, g[d.id])
  {
    forall x | x in ids ensures RemDelta(x, g[x]) in Removals(g, ids) {
      var i :| 0 <= i < |ids| && ids[i] == x;
      assert Removals(g, ids)[i] == RemDelta(x, g[x]);
    }
    assert forall x | x in ids :: RemDelta(x, g[x]).id in IdsOf(Removals(g, ids));
  }

  lemma MoveIds(g: Graph, ids: seq<string>)
    requires forall x | x in ids :: x in g
    ensures IdsOf(Moves(g, ids)) == (set x | x in ids)
    ensures forall d | d in Moves(g, ids) :: d.id in ids && d == MoveDelta(d.id, g[d.id])
  {
    forall x | x in ids ensures MoveDelta(x, g[x]) in Moves(g, ids) {
      var i :| 0 <= i < |ids| && ids[i] == x;
      assert Moves(g, ids)[i] == MoveDelta(x, g[x]);
    }
    assert forall x | x in ids :: MoveDelta(x, g[x]).id in IdsOf(Moves(g, ids));
  }

  /** The forest a forget leaves, stated without reference to deltas. */
  function Forgotten(g: Graph, id: string, mode: Mode): Graph
    requires id in g
  {
    match mode
    case Strict => g - {id}
    case CascadeMode => g - Cascade(g, id)
    case Reparent => map x | x in g && x != id :: if g[x].parent == id then g[x].(parent := g[id].parent) else g[x]
  }

  /** Removals of stored nodes, each once and with its stored values. */
  ghost predicate AreRemovals(g: Graph, ds: seq<Delta>) {
    Distinct(ds) && AllRemovals(ds) && forall d | d in ds :: d.id in g && d == RemDelta(d.id, g[d.id])
  }

  lemma RemovalsAreFaithfulIff(g: Graph, ds: seq<Delta>)
    requires AreRemovals(g, ds) && Closed(g) && "" !in g
    ensures Run(g, ds, map[]) == g - Grow(g, IdsOf(ds))
    ensures Faithful(g, ds, map[]) <==> ChildClosed(g, IdsOf(ds))
  {
    assert IdsOf(ds) * g.Keys == IdsOf(ds);
    RemovalsTakeSubtrees(g, ds, map[]);
    RemovalsAreSafeIff(g, ds, map[]);
  }

  /** Removing a child-closed set of stored ids, each with its true old values. */
  lemma HonestRemovals(g: Graph, ds: seq<Delta>)
    requires AllRemovals(ds) && Distinct(ds) && Closed(g) && "" !in g
    requires forall d | d in ds :: d.id in g && d == RemDelta(d.id, g[d.id])
    requires ChildClosed(g, IdsOf(ds))
    ensures Faithful(g, ds, map[]) && Run(g, ds, map[]) == g - IdsOf(ds)
  {
    assert IdsOf(ds) * g.Keys == IdsOf(ds);
    GrowIsLeast(g, IdsOf(ds), IdsOf(ds));
    RemovalsTakeSubtrees(g, ds, map[]);
    RemovalsAreSafeIff(g, ds, map[]);
  }

  lemma OneMoreRemoval(g: Graph, id: string, rest: seq<Delta>)
    requires id in g && AreRemovals(g, rest) && id !in IdsOf(rest)
    ensures var ds := [RemDelta(id, g[id])] + rest; AreRemovals(g, ds) && IdsOf(ds) == {id} + IdsOf(rest)
  {
    var ds := [RemDelta(id, g[id])] + rest;
    assert ds[0] == RemDelta(id, g[id]) && ds[1..] == rest;
    IdsSplit(ds);
    assert forall i | 0 <= i < |rest| :: rest[i].id in IdsOf(rest);
    assert forall d | d in ds :: d == ds[0] || d in rest;
  }

  /** A node and its descendants, listed once each with their stored values. */
  lemma CascadeIds(g: Graph, id: string, below: seq<string>, rank: string -> nat)
    requires id in g && AcyclicBy(g, rank) && Lists(below, Grow(g, ChildrenOf(g, {id})))
    ensures var ds := [RemDelta(id, g[id])] + Removals(g, below);
      AreRemovals(g, ds) && IdsOf(ds) == Cascade(g, id)
  {
    RemovalIds(g, below);
    CascadeSplits(g, id, rank);
    OneMoreRemoval(g, id, Removals(g, below));
  }

  lemma CascadePlan(g: Graph, id: string, below: seq<string>, rank: string -> nat)
    requires id in g && "" !in g && Closed(g) && AcyclicBy(g, rank)
    requires Lists(below, Grow(g, ChildrenOf(g, {id})))
    ensures var ds := [RemDelta(id, g[id])] + Removals(g, below);
      Faithful(g, ds, map[]) && Run(g, ds, map[]) == g - Cascade(g, id) && IdsOf(ds) == Cascade(g, id)
  {
    CascadeIds(g, id, below, rank);
    HonestRemovals(g, [RemDelta(id, g[id])] + Removals(g, below));
  }

  lemma StrictPlan(g: Graph, id: string)
    requires id in g && "" !in g && Closed(g) && ChildrenOf(g, {id}) == {}
    ensures var ds := [RemDelta(id, g[id])];
      Faithful(g, ds, map[]) && Run(g, ds, map[]) == g - {id}
  {
    var ds := [RemDelta(id, g[id])];
    assert IdsOf(ds) == {id} by {
      IdsSplit(ds);
    }
    HonestRemovals(g, ds);
  }

  /** The graph once the children have moved, the target still in place. */
  lemma MovesReach(g: Graph, id: string, kids: seq<string>)
    requires id in g && Lists(kids, ChildrenOf(g, {id}))
    ensures var g1 := Run(g, Moves(g, kids), Promoted(g, id));
      && g1.Keys == g.Keys
      && forall x | x in g :: g1[x] == if g[x].parent == id then g[x].(parent := g[id].parent) else g[x]
  {
    var ups, tree := Moves(g, kids), Promoted(g, id);
    MoveIds(g, kids);
    UpsertsAreSafe(g, ups, [], tree);
    assert ups + [] == ups;
    RunIsIntendedIff(g, ups, tree);
    assert Upserts(ups, tree) == ChildrenOf(g, {id}) by {
      assert forall d | d in ups :: d.op != Rem && d.id in tree;
      assert Upserts(ups, tree) == IdsOf(ups);
    }
  }

  lemma ReparentPlan(g: Graph, id: string, kids: seq<string>, rank: string -> nat)
    requires id in g && "" !in g && Closed(g) && AcyclicBy(g, rank)
    requires Lists(kids, ChildrenOf(g, {id}))
    ensures var ds, tree := Moves(g, kids) + [RemDelta(id, g[id])], Promoted(g, id);
      Faithful(g, ds, tree) && Run(g, ds, tree) == Forgotten(g, id, Reparent)
  {
    var ups, rem, tree := Moves(g, kids), [RemDelta(id, g[id])], Promoted(g, id);
    var g1 := Run(g, ups, tree);
    MovesReach(g, id, kids);
    RemoveChildless(g1, rem, tree);
    assert Run(g, ups + rem, tree) == g1 - {id} by {
      RunAppend(g, ups, rem, tree);
    }
    MovedThenRemoved(g, g1, id);
    assert CascadeSafe(g, ups + rem, tree) by {
      MoveIds(g, kids);
      UpsertsAreSafe(g, ups, rem, tree);
    }
    assert Distinct(ups + rem) && Honest(g, ups + rem, tree) by {
      ReparentIsHonest(g, id, kids);
    }
  }

  lemma MovedThenRemoved(g: Graph, g1: Graph, id: string)
    requires id in g && g1.Keys == g.Keys
    requires forall x | x in g :: g1[x] == if g[x].parent == id then g[x].(parent := g[id].parent) else g[x]
    ensures g1 - {id} == Forgotten(g, id, Reparent)
  {
    var left, right := g1 - {id}, Forgotten(g, id, Reparent);
    assert left.Keys == right.Keys;
    forall x | x in left ensures left[x] == right[x] {
      assert left[x] == g1[x];
    }
  }

  lemma RemoveChildless(g: Graph, rem: seq<Delta>, tree: Graph)
    requires |rem| == 1 && rem[0].op == Rem && rem[0].id in g && ChildrenOf(g, {rem[0].id}) == {}
    ensures CascadeSafe(g, rem, tree) && Run(g, rem, tree) == g - {rem[0].id}
  {
    assert rem[1..] == [] && rem[0] in rem;
    assert Cascade(g, rem[0].id) == {rem[0].id};
    assert Run(g, rem, tree) == Run(Delete(g, rem[0].id), rem[1..], tree);
  }

  lemma ReparentIsHonest(g: Graph, id: string, kids: seq<string>)
    requires id in g && g[id].parent != id && Lists(kids, ChildrenOf(g, {id}))
    ensures var ds := Moves(g, kids) + [RemDelta(id, g[id])];
      Distinct(ds) && Honest(g, ds, Promoted(g, id))
  {
    MoveIds(g, kids);
    assert id !in kids;
  }

  lemma ListsNothing(order: seq<string>, s: set<string>)
    requires Lists(order, s)
    ensures order == [] <==> s == {}
  {
    assert forall i | 0 <= i < |order| :: order[i] in s;
    if s != {} {
      var x :| x in s;
      assert x in order;
    }
    if order != [] {
      assert order[0] in order;
    }
  }

  /** Each mode's plan is logged truthfully and leaves exactly the forest the mode names:
      cascade takes the target with all its descendants and nothing else; reparent takes
      the target alone, moves its direct children to its parent and keeps their subtrees;
      strict takes the target alone and refuses when it has children. */
  lemma ForgetLeaves(p: ForgetPlan, g: Graph, id: string, mode: Mode, kids: seq<string>, below: seq<string>,
                     rank: string -> nat)
    requires id in g && "" !in g && Closed(g) && AcyclicBy(g, rank)
    requires IsPlan(p, g, id, mode, kids, below)
    ensures p.Refused? <==> mode == Strict && ChildrenOf(g, {id}) != {}
    ensures p.Accepted? ==> Faithful(g, p.deltas, p.tree) && Run(g, p.deltas, p.tree) == Forgotten(g, id, mode)
  {
    ListsNothing(kids, ChildrenOf(g, {id}));
    match mode
    case Strict =>
      if p.Accepted? {
        StrictPlan(g, id);
      }
    case CascadeMode => CascadePlan(g, id, below, rank);
    case Reparent => ReparentPlan(g, id, kids, rank);
  }

  /** Any forget leaves a closed forest, acyclic by the very rank it was acyclic by. */
  lemma ForgetKeepsForest(g: Graph, id: string, mode: Mode, rank: string -> nat)
    requires id in g && Closed(g) && AcyclicBy(g, rank)
    requires mode == Strict ==> ChildrenOf(g, {id}) == {}
    ensures Closed(Forgotten(g, id, mode)) && AcyclicBy(Forgotten(g, id, mode), rank)
  {
    DeleteKeepsClosed(g, id);
    if mode == Strict {
      forall x | x in g ensures g[x].parent != id {
        assert g[x].parent == id ==> x in ChildrenOf(g, {id});
      }
    }
  }
}
