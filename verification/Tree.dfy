/** Trees given by each node's parent, and their pre-order. */
module Trees {
  import opened Ast

  /** Every node comes after its parent; -1 stands for no parent. */
  ghost predicate Topological(parents: seq<int>) {
    forall j | 0 <= j < |parents| :: -1 <= parents[j] < j
  }

  /** Between a node and its parent, nothing hangs above that parent. */
  ghost predicate Nested(parents: seq<int>) {
    forall e, j | 0 <= e < j < |parents| && 0 <= parents[j] < e :: parents[j] <= parents[e]
  }

  /** The nodes of [lo, hi) that hang under p, in order. */
  function Kids(parents: seq<int>, p: int, lo: nat, hi: nat): seq<nat>
    requires hi <= |parents|
    decreases hi
  {
    if hi <= lo then [] else Kids(parents, p, lo, hi - 1) + if parents[hi - 1] == p then [hi - 1] else []
  }

  lemma {:induction false} KidsAscend(parents: seq<int>, p: int, lo: nat, hi: nat)
    requires hi <= |parents|
    ensures Ascending(Kids(parents, p, lo, hi), lo, hi)
    decreases hi
  {
    if lo < hi {
      KidsAscend(parents, p, lo, hi - 1);
    }
  }

  lemma {:induction false} KidsSplit(parents: seq<int>, p: int, lo: nat, mid: nat, hi: nat)
    requires lo <= mid <= hi <= |parents|
    ensures Kids(parents, p, lo, hi) == Kids(parents, p, lo, mid) + Kids(parents, p, mid, hi)
  {
    if mid < hi {
      KidsSplit(parents, p, lo, mid, hi - 1);
    }
  }

  lemma {:induction false} NoKids(parents: seq<int>, p: int, lo: nat, hi: nat)
    requires hi <= |parents| && forall j | lo <= j < hi :: parents[j] != p
    ensures Kids(parents, p, lo, hi) == []
    decreases hi
  {
    if lo < hi {
      NoKids(parents, p, lo, hi - 1);
    }
  }

  lemma {:induction false} KidsOfPrefix(parents: seq<int>, more: int, p: int, lo: nat, hi: nat)
    requires hi <= |parents|
    ensures Kids(parents + [more], p, lo, hi) == Kids(parents, p, lo, hi)
    decreases hi
  {
    if lo < hi {
      KidsOfPrefix(parents, more, p, lo, hi - 1);
    }
  }

  // ---- the tree, node by node ----

  /** Each node's depth, the nodes right below it, and the roots. */
  datatype Plan = Plan(depths: seq<nat>, kids: seq<seq<nat>>, roots: seq<nat>)

  /** One more node, below p, or a root when p is negative. */
  function Hang(plan: Plan, p: int): Plan
    requires p < |plan.depths| == |plan.kids|
  {
    var n := |plan.kids|;
    if p < 0 then Plan(plan.depths + [1], plan.kids + [[]], plan.roots + [n])
    else Plan(plan.depths + [plan.depths[p] + 1], plan.kids[p := plan.kids[p] + [n]] + [[]], plan.roots)
  }

  ghost function PlanOf(parents: seq<int>): (plan: Plan)
    requires Topological(parents)
    ensures |plan.depths| == |plan.kids| == |parents|
  {
    if parents == [] then Plan([], [], []) else Hang(PlanOf(parents[..|parents| - 1]), parents[|parents| - 1])
  }

  lemma PlanGrows(parents: seq<int>, p: int)
    requires Topological(parents) && -1 <= p < |parents|
    ensures Topological(parents + [p]) && PlanOf(parents + [p]) == Hang(PlanOf(parents), p)
  {
    assert (parents + [p])[..|parents|] == parents;
  }

  /** Depth is the parent's plus one; a node's children are the nodes that name it, in order. */
  lemma {:induction false} PlanIsRight(parents: seq<int>, i: nat)
    requires Topological(parents) && i < |parents|
    ensures var plan := PlanOf(parents);
      && plan.depths[i] == (if parents[i] < 0 then 1 else plan.depths[parents[i]] + 1)
      && plan.kids[i] == Kids(parents, i, i + 1, |parents|)
    decreases |parents|
  {
    var last := |parents| - 1;
    var front, p := parents[..last], parents[last];
    assert parents == front + [p];
    if i < last {
      PlanIsRight(front, i);
      KidsOfPrefix(front, p, i, i + 1, last);
    }
  }

  lemma {:induction false} RootsAreRight(parents: seq<int>)
    requires Topological(parents)
    ensures PlanOf(parents).roots == Kids(parents, -1, 0, |parents|)
  {
    if parents != [] {
      var last := |parents| - 1;
      var front, p := parents[..last], parents[last];
      assert parents == front + [p];
      RootsAreRight(front);
      KidsOfPrefix(front, p, -1, 0, last);
    }
  }

  lemma PlanIsShape(parents: seq<int>)
    requires Topological(parents)
    ensures var plan := PlanOf(parents);
      && (forall i: nat | i < |plan.kids| :: plan.kids[i] == Kids(parents, i, i + 1, |parents|))
      && (forall i: nat | i < |plan.kids| :: Ascending(plan.kids[i], i + 1, |plan.kids|))
      && Ascending(plan.roots, 0, |plan.kids|)
  {
    forall i: nat | i < |parents|
      ensures PlanOf(parents).kids[i] == Kids(parents, i, i + 1, |parents|)
      ensures Ascending(PlanOf(parents).kids[i], i + 1, |parents|)
    {
      PlanIsRight(parents, i);
      KidsAscend(parents, i, i + 1, |parents|);
    }
    RootsAreRight(parents);
    KidsAscend(parents, -1, 0, |parents|);
  }

  // ---- pre-order ----

  function Range(lo: nat, hi: nat): seq<nat>
    requires lo <= hi
  {
    seq(hi - lo, k requires 0 <= k => lo + k)
  }

  /** Every node of [lo, hi) hangs under p or inside the range, and the next node outside it. */
  ghost predicate Forest(parents: seq<int>, p: int, lo: nat, hi: nat) {
    && lo <= hi <= |parents|
    && (forall j | lo <= j < hi :: parents[j] == p || lo <= parents[j])
    && (hi < |parents| ==> parents[hi] < lo)
  }

  /** The end of the subtree of lo in a forest under p. */
  function SubtreeEnd(parents: seq<int>, p: int, lo: nat, hi: nat): (e: nat)
    requires lo < hi <= |parents|
    ensures lo < e <= hi
    ensures forall j | lo < j < e :: parents[j] != p
    ensures e < hi ==> parents[e] == p
    decreases hi
  {
    if lo + 1 == hi then hi
    else
      var e := SubtreeEnd(parents, p, lo, hi - 1);
      if e == hi - 1 && parents[hi - 1] != p then hi else e
  }

  /** The first subtree of a forest holds a forest of its own, and so does what follows it. */
  lemma SplitForest(parents: seq<int>, p: int, lo: nat, e: nat, hi: nat)
    requires Topological(parents) && Nested(parents)
    requires Forest(parents, p, lo, hi) && p < lo < hi && e == SubtreeEnd(parents, p, lo, hi)
    ensures Forest(parents, lo, lo + 1, e) && Forest(parents, p, e, hi) && parents[lo] == p
    ensures forall j | e <= j < |parents| :: parents[j] != lo
  {
    assert parents[lo] == p;
    forall j | e <= j < |parents| ensures parents[j] < lo || e <= parents[j] {
    }
  }

  lemma FirstKid(parents: seq<int>, p: int, lo: nat, e: nat, hi: nat)
    requires lo < e <= hi <= |parents| && parents[lo] == p
    requires forall j | lo < j < e :: parents[j] != p
    ensures Kids(parents, p, lo, hi) == [lo] + Kids(parents, p, e, hi)
  {
    KidsSplit(parents, p, lo, e, hi);
    OnlyKid(parents, p, lo, e);
  }

  lemma {:induction false} OnlyKid(parents: seq<int>, p: int, lo: nat, e: nat)
    requires lo < e <= |parents| && parents[lo] == p && forall j | lo < j < e :: parents[j] != p
    ensures Kids(parents, p, lo, e) == [lo]
    decreases e
  {
    if lo + 1 < e {
      OnlyKid(parents, p, lo, e - 1);
    }
  }

  ghost predicate IsShapeOf(shape: Shape, parents: seq<int>) {
    |shape| == |parents| && forall i: nat | i < |shape| :: shape[i] == Kids(parents, i, i + 1, |parents|)
  }

  ghost predicate InOrder(shape: Shape, at: seq<nat>, lo: nat, hi: nat)
    requires lo <= hi
  {
    Ascending(at, 0, |shape|) && Flat(shape, at) == Range(lo, hi)
  }

  lemma ConsAscends(first: nat, rest: seq<nat>, lo: nat, hi: nat, bound: nat)
    requires first < lo && Ascending(rest, lo, hi) && hi <= bound && first < bound
    ensures Ascending(rest, 0, bound) && Ascending([first] + rest, 0, bound)
  {
  }

  lemma RangeStep(lo: nat, mid: nat, hi: nat)
    requires lo < mid <= hi
    ensures Range(lo, hi) == [lo] + Range(lo + 1, mid) + Range(mid, hi)
  {
  }

  lemma JoinInOrder(shape: Shape, lo: nat, e: nat, hi: nat, rest: seq<nat>)
    requires lo < e <= hi <= |shape| && Ascending(rest, e, hi)
    requires InOrder(shape, shape[lo], lo + 1, e) && InOrder(shape, rest, e, hi)
    ensures InOrder(shape, [lo] + rest, lo, hi)
  {
    ConsAscends(lo, rest, e, hi, |shape|);
    FlatStep(shape, lo, rest);
    RangeStep(lo, e, hi);
  }

  /** The children of the first node of a forest all lie in its subtree. */
  lemma OwnKids(parents: seq<int>, lo: nat, e: nat)
    requires lo < e <= |parents| && forall j | e <= j < |parents| :: parents[j] != lo
    ensures Kids(parents, lo, lo + 1, |parents|) == Kids(parents, lo, lo + 1, e)
  {
    KidsSplit(parents, lo, lo + 1, e, |parents|);
    NoKids(parents, lo, e, |parents|);
  }

  /** A forest is its first node, the forest below that node, and the forest after it. */
  lemma FirstSubtree(parents: seq<int>, p: int, lo: nat, hi: nat) returns (e: nat)
    requires Topological(parents) && Nested(parents) && Forest(parents, p, lo, hi) && p < lo < hi
    ensures lo < e <= hi && Forest(parents, lo, lo + 1, e) && Forest(parents, p, e, hi)
    ensures Kids(parents, p, lo, hi) == [lo] + Kids(parents, p, e, hi) && Ascending(Kids(parents, p, e, hi), e, hi)
    ensures Kids(parents, lo, lo + 1, |parents|) == Kids(parents, lo, lo + 1, e)
  {
    e := SubtreeEnd(parents, p, lo, hi);
    SplitForest(parents, p, lo, e, hi);
    FirstKid(parents, p, lo, e, hi);
    OwnKids(parents, lo, e);
    KidsAscend(parents, p, e, hi);
  }

  lemma JoinFirstSubtree(shape: Shape, parents: seq<int>, p: int, lo: nat, e: nat, hi: nat)
    requires IsShapeOf(shape, parents) && lo < e <= hi <= |parents|
    requires Kids(parents, p, lo, hi) == [lo] + Kids(parents, p, e, hi) && Ascending(Kids(parents, p, e, hi), e, hi)
    requires Kids(parents, lo, lo + 1, |parents|) == Kids(parents, lo, lo + 1, e)
    requires InOrder(shape, Kids(parents, lo, lo + 1, e), lo + 1, e) && InOrder(shape, Kids(parents, p, e, hi), e, hi)
    ensures InOrder(shape, Kids(parents, p, lo, hi), lo, hi)
  {
    assert shape[lo] == Kids(parents, lo, lo + 1, e);
    JoinInOrder(shape, lo, e, hi, Kids(parents, p, e, hi));
  }

  /** Listing a forest in pre-order gives its nodes in order of place. */
  lemma {:induction false} PreorderIsPlaceOrder(shape: Shape, parents: seq<int>, p: int, lo: nat, hi: nat)
    requires Topological(parents) && Nested(parents) && IsShapeOf(shape, parents)
    requires Forest(parents, p, lo, hi) && p < lo
    ensures InOrder(shape, Kids(parents, p, lo, hi), lo, hi)
    decreases hi - lo
  {
    if lo < hi {
      var e := FirstSubtree(parents, p, lo, hi);
      PreorderIsPlaceOrder(shape, parents, lo, lo + 1, e);
      PreorderIsPlaceOrder(shape, parents, p, e, hi);
      JoinFirstSubtree(shape, parents, p, lo, e, hi);
    }
  }

  /** A whole nested tree, listed in pre-order. */
  lemma WholePreorder(parents: seq<int>)
    requires Topological(parents) && Nested(parents)
    ensures var plan := PlanOf(parents);
      && (forall i: nat | i < |plan.kids| :: Ascending(plan.kids[i], i + 1, |plan.kids|))
      && InOrder(plan.kids, plan.roots, 0, |parents|)
  {
    PlanIsShape(parents);
    RootsAreRight(parents);
    PreorderIsPlaceOrder(PlanOf(parents).kids, parents, -1, 0, |parents|);
  }
}
