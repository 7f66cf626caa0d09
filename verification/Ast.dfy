/** The node tree every parser produces, and its pre-order listing. */
module Ast {
  datatype NodeType = NodeHeading | NodeText

  class ContextNode {
    const sourceFile: string
    const nodeType: NodeType
    const content: string
    /** Where this node stands in document order. */
    ghost const at: nat
    var depth: nat
    var children: seq<ContextNode>
    var id: string
    var parentId: string

    constructor (sourceFile: string, nodeType: NodeType, content: string, ghost at: nat)
      ensures this.sourceFile == sourceFile && this.nodeType == nodeType && this.content == content
      ensures this.at == at && children == []
    {
      this.sourceFile, this.nodeType, this.content, this.at := sourceFile, nodeType, content, at;
      depth, children, id, parentId := 0, [], "", "";
    }
  }

  predicate Ascending(kids: seq<nat>, lo: nat, hi: nat) {
    && (forall k | 0 <= k < |kids| :: lo <= kids[k] < hi)
    && forall k, l | 0 <= k < l < |kids| :: kids[k] < kids[l]
  }

  /** For every node, the nodes right below it. */
  type Shape = shape: seq<seq<nat>> | forall i: nat | i < |shape| :: Ascending(shape[i], i + 1, |shape|)

  /** The pre-order listing of the trees rooted at these nodes. */
  function Flat(shape: Shape, at: seq<nat>): seq<nat>
    requires Ascending(at, 0, |shape|)
    decreases if at == [] then 0 else |shape| - at[0], |at|
  {
    if at == [] then []
    else [at[0]] + Flat(shape, shape[at[0]]) + Flat(shape, at[1..])
  }

  lemma FlatStep(shape: Shape, first: nat, rest: seq<nat>)
    requires first < |shape| && Ascending([first] + rest, 0, |shape|) && Ascending(rest, 0, |shape|)
    ensures Flat(shape, [first] + rest) == [first] + Flat(shape, shape[first]) + Flat(shape, rest)
  {
    assert ([first] + rest)[1..] == rest;
  }

  ghost function Pick(nodes: seq<ContextNode>, at: seq<nat>): (r: seq<ContextNode>)
    requires forall k | 0 <= k < |at| :: at[k] < |nodes|
    ensures |r| == |at| && forall k | 0 <= k < |r| :: r[k] == nodes[at[k]]
  {
    seq(|at|, k requires 0 <= k < |at| => nodes[at[k]])
  }

  ghost predicate Linked(nodes: seq<ContextNode>, shape: Shape)
    reads nodes`children
  {
    |nodes| == |shape| && forall i | 0 <= i < |nodes| :: nodes[i].children == Pick(nodes, shape[i])
  }

  /** The nodes of the trees rooted at these places, in pre-order. */
  ghost function Listing(nodes: seq<ContextNode>, shape: Shape, at: seq<nat>): seq<ContextNode>
    requires |nodes| == |shape| && Ascending(at, 0, |shape|)
    decreases if at == [] then 0 else |shape| - at[0], |at|
  {
    if at == [] then []
    else [nodes[at[0]]] + Listing(nodes, shape, shape[at[0]]) + Listing(nodes, shape, at[1..])
  }

  lemma {:induction false} ListingIsFlat(nodes: seq<ContextNode>, shape: Shape, at: seq<nat>)
    requires |nodes| == |shape| && Ascending(at, 0, |shape|)
    ensures forall k | 0 <= k < |Flat(shape, at)| :: Flat(shape, at)[k] < |shape|
    ensures Listing(nodes, shape, at) == Pick(nodes, Flat(shape, at))
    decreases if at == [] then 0 else |shape| - at[0], |at|
  {
    if at != [] {
      ListingIsFlat(nodes, shape, shape[at[0]]);
      ListingIsFlat(nodes, shape, at[1..]);
      PickCons(nodes, at[0], Flat(shape, shape[at[0]]), Flat(shape, at[1..]));
    }
  }

  lemma PickCons(nodes: seq<ContextNode>, first: nat, a: seq<nat>, b: seq<nat>)
    requires first < |nodes| && (forall k | 0 <= k < |a| :: a[k] < |nodes|) && forall k | 0 <= k < |b| :: b[k] < |nodes|
    ensures forall k | 0 <= k < |[first] + a + b| :: ([first] + a + b)[k] < |nodes|
    ensures Pick(nodes, [first] + a + b) == [nodes[first]] + Pick(nodes, a) + Pick(nodes, b)
  {
  }

  lemma ListingStep(nodes: seq<ContextNode>, shape: Shape, at: seq<nat>)
    requires |nodes| == |shape| && at != [] && Ascending(at, 0, |shape|)
    ensures Ascending(at[1..], 0, |shape|)
    ensures Listing(nodes, shape, at) ==
        [nodes[at[0]]] + Listing(nodes, shape, shape[at[0]]) + Listing(nodes, shape, at[1..])
  {
  }

  /** Collect the nodes of these trees, each before its children. */
  method CollectNodes(out: seq<ContextNode>, list: seq<ContextNode>, ghost nodes: seq<ContextNode>, ghost shape: Shape,
                      ghost at: seq<nat>)
    returns (r: seq<ContextNode>)
    requires Linked(nodes, shape) && Ascending(at, 0, |shape|) && list == Pick(nodes, at)
    ensures r == out + Listing(nodes, shape, at)
    decreases if at == [] then 0 else |shape| - at[0]
  {
    r := out;
    ghost var rest, goal := at, out + Listing(nodes, shape, at);
    for i := 0 to |list|
      invariant rest == at[i..] && Ascending(rest, 0, |shape|)
      invariant r + Listing(nodes, shape, rest) == goal
    {
      assert rest[0] == at[i] && list[i] == nodes[at[i]];
      ListingStep(nodes, shape, rest);
      r := CollectNodes(r + [list[i]], list[i].children, nodes, shape, shape[at[i]]);
      rest := rest[1..];
    }
  }

  // ---- two forests side by side ----

  function Shift(at: seq<nat>, offset: nat): (r: seq<nat>)
    ensures |r| == |at| && forall k {:trigger r[k]} | 0 <= k < |r| :: r[k] == at[k] + offset
  {
    seq(|at|, k requires 0 <= k < |at| => at[k] + offset)
  }

  /** The first forest's places and, behind them, the second's. */
  function Beside(a: Shape, b: Shape): (r: Shape)
    ensures |r| == |a| + |b|
    ensures forall i: nat {:trigger r[i]} | i < |r| :: r[i] == if i < |a| then a[i] else Shift(b[i - |a|], |a|)
  {
    var r := a + seq(|b|, i requires 0 <= i < |b| => Shift(b[i], |a|));
    assert forall i: nat | i < |r| :: Ascending(r[i], i + 1, |r|) by {
      BesideAscends(a, b);
    }
    r
  }

  lemma BesideAscends(a: Shape, b: Shape)
    ensures var r := a + seq(|b|, i requires 0 <= i < |b| => Shift(b[i], |a|));
      forall i: nat | i < |r| :: Ascending(r[i], i + 1, |r|)
  {
    var r := a + seq(|b|, i requires 0 <= i < |b| => Shift(b[i], |a|));
    forall i: nat | i < |r| ensures Ascending(r[i], i + 1, |r|) {
      if i < |a| {
        assert Ascending(a[i], i + 1, |a|);
      } else {
        assert Ascending(b[i - |a|], i - |a| + 1, |b|);
      }
    }
  }

  lemma {:induction false} ListingOfFirst(m: seq<ContextNode>, a: Shape, at: seq<nat>, n: seq<ContextNode>, b: Shape)
    requires |m| == |a| && |n| == |b| && Ascending(at, 0, |a|)
    ensures Ascending(at, 0, |a| + |b|) && Listing(m + n, Beside(a, b), at) == Listing(m, a, at)
    decreases if at == [] then 0 else |a| - at[0], |at|
  {
    if at != [] {
      ListingOfFirst(m, a, a[at[0]], n, b);
      ListingOfFirst(m, a, at[1..], n, b);
    }
  }

  lemma ShiftAscends(at: seq<nat>, offset: nat, n: nat)
    requires Ascending(at, 0, n)
    ensures Ascending(Shift(at, offset), 0, offset + n)
  {
  }

  lemma ShiftTail(at: seq<nat>, offset: nat)
    requires at != []
    ensures Shift(at, offset)[1..] == Shift(at[1..], offset)
  {
    forall k | 0 <= k < |at| - 1 ensures Shift(at, offset)[1..][k] == Shift(at[1..], offset)[k] {
      assert Shift(at, offset)[1..][k] == Shift(at, offset)[k + 1];
    }
  }

  lemma BothAscend(at: seq<nat>, bt: seq<nat>, m: nat, n: nat)
    requires Ascending(at, 0, m) && Ascending(bt, 0, n)
    ensures Ascending(at + Shift(bt, m), 0, m + n)
  {
  }

  /** The first node of the second forest, where it stands beside the first. */
  lemma SecondStep(m: seq<ContextNode>, a: Shape, n: seq<ContextNode>, b: Shape, at: seq<nat>)
    requires |m| == |a| && |n| == |b| && at != [] && at[0] < |b|
    ensures var i := Shift(at, |a|)[0];
      i < |a| + |b| && (m + n)[i] == n[at[0]] && Beside(a, b)[i] == Shift(b[at[0]], |a|)
    ensures Shift(at, |a|)[1..] == Shift(at[1..], |a|)
  {
    ShiftTail(at, |a|);
  }

  lemma {:induction false} ListingOfSecond(m: seq<ContextNode>, a: Shape, n: seq<ContextNode>, b: Shape, at: seq<nat>)
    requires |m| == |a| && |n| == |b| && Ascending(at, 0, |b|)
    ensures Ascending(Shift(at, |a|), 0, |a| + |b|)
    ensures Listing(m + n, Beside(a, b), Shift(at, |a|)) == Listing(n, b, at)
    decreases if at == [] then 0 else |b| - at[0], |at|
  {
    if at != [] {
      ListingOfSecond(m, a, n, b, b[at[0]]);
      ListingOfSecond(m, a, n, b, at[1..]);
      ShiftAscends(at, |a|, |b|);
      ListingStep(n, b, at);
      ListingStep(m + n, Beside(a, b), Shift(at, |a|));
      SecondStep(m, a, n, b, at);
    }
  }

  lemma {:induction false} ListingAppend(nodes: seq<ContextNode>, shape: Shape, a: seq<nat>, b: seq<nat>)
    requires |nodes| == |shape| && Ascending(a, 0, |shape|) && Ascending(b, 0, |shape|) && Ascending(a + b, 0, |shape|)
    ensures Listing(nodes, shape, a + b) == Listing(nodes, shape, a) + Listing(nodes, shape, b)
    decreases |a|
  {
    if a == [] {
      assert a + b == b;
    } else {
      assert (a + b)[1..] == a[1..] + b && (a + b)[0] == a[0];
      ListingStep(nodes, shape, a + b);
      ListingStep(nodes, shape, a);
      ListingAppend(nodes, shape, a[1..], b);
    }
  }

  /** Two forests listed together: the first one's nodes and then the second's. */
  lemma ListingBeside(m: seq<ContextNode>, a: Shape, at: seq<nat>, n: seq<ContextNode>, b: Shape, bt: seq<nat>)
    requires |m| == |a| && |n| == |b| && Ascending(at, 0, |a|) && Ascending(bt, 0, |b|)
    ensures Ascending(at + Shift(bt, |a|), 0, |a| + |b|)
    ensures Listing(m + n, Beside(a, b), at + Shift(bt, |a|)) == Listing(m, a, at) + Listing(n, b, bt)
  {
    ListingOfFirst(m, a, at, n, b);
    ListingOfSecond(m, a, n, b, bt);
    ListingAppend(m + n, Beside(a, b), at, Shift(bt, |a|));
  }

  lemma PickBeside(m: seq<ContextNode>, n: seq<ContextNode>, at: seq<nat>)
    ensures (forall k | 0 <= k < |at| :: at[k] < |m|) ==> Pick(m + n, at) == Pick(m, at)
    ensures (forall k | 0 <= k < |at| :: at[k] < |n|) ==> Pick(m + n, Shift(at, |m|)) == Pick(n, at)
  {
  }

  lemma BesideIsLinked(m: seq<ContextNode>, a: Shape, at: seq<nat>, n: seq<ContextNode>, b: Shape, bt: seq<nat>)
    requires Linked(m, a) && Linked(n, b) && Ascending(at, 0, |a|) && Ascending(bt, 0, |b|)
    ensures Linked(m + n, Beside(a, b))
    ensures Ascending(at + Shift(bt, |a|), 0, |a| + |b|)
    ensures Pick(m + n, at + Shift(bt, |a|)) == Pick(m, at) + Pick(n, bt)
  {
    ChildrenBeside(m, a, n, b);
    BothAscend(at, bt, |a|, |b|);
    PickBoth(m, at, n, bt);
  }

  lemma PickBoth(m: seq<ContextNode>, at: seq<nat>, n: seq<ContextNode>, bt: seq<nat>)
    requires (forall k | 0 <= k < |at| :: at[k] < |m|) && forall k | 0 <= k < |bt| :: bt[k] < |n|
    ensures forall k | 0 <= k < |at + Shift(bt, |m|)| :: (at + Shift(bt, |m|))[k] < |m + n|
    ensures Pick(m + n, at + Shift(bt, |m|)) == Pick(m, at) + Pick(n, bt)
  {
  }

  lemma ChildrenBeside(m: seq<ContextNode>, a: Shape, n: seq<ContextNode>, b: Shape)
    requires Linked(m, a) && Linked(n, b)
    ensures Linked(m + n, Beside(a, b))
  {
    forall i: nat | i < |m + n| ensures (m + n)[i].children == Pick(m + n, Beside(a, b)[i]) {
      if i < |m| {
        assert Ascending(a[i], i + 1, |a|);
        PickBeside(m, n, a[i]);
      } else {
        assert Ascending(b[i - |m|], i - |m| + 1, |b|);
        PickBeside(m, n, b[i - |m|]);
      }
    }
  }
}
