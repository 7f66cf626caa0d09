/** Markdown blocks become a tree: a stack of open sections decides where each one hangs. */
module Markdown {
  import opened Ast
  import opened Wrappers
  import opened Trees

  /** One top-level block; Blank stands for a block without extractable content. */
  datatype Block = Heading(level: int, content: string) | Text(content: string) | Blank

  /** The blocks that become nodes, in document order. */
  function Kept(doc: seq<Block>): seq<Block> {
    if doc == [] then []
    else Kept(doc[..|doc| - 1]) + if doc[|doc| - 1] == Blank then [] else [doc[|doc| - 1]]
  }

  // ---- where a block belongs, said without a stack ----

  /** The level a section must stay below to hold b; a block that is no heading has no bound. */
  function Bound(b: Block): Option<int> {
    if b.Heading? then Some(b.level) else None
  }

  predicate Encloses(b: Block, bound: Option<int>) {
    b.Heading? && (bound.Some? ==> b.level < bound.value)
  }

  /** The last block before end that opens a section below the bound, or -1. */
  function Nearest(blocks: seq<Block>, end: int, bound: Option<int>): (r: int)
    requires end <= |blocks|
    ensures -1 <= r
    ensures r < end || r == -1
    decreases end
  {
    if end <= 0 then -1
    else if Encloses(blocks[end - 1], bound) then end - 1
    else Nearest(blocks, end - 1, bound)
  }

  /** A heading hangs under the nearest earlier heading of smaller level, any other block under
      the latest heading. */
  function Parent(blocks: seq<Block>, i: nat): int
    requires i < |blocks|
  {
    Nearest(blocks, i, Bound(blocks[i]))
  }

  /** Where every block hangs. */
  function ParentsOf(blocks: seq<Block>): (r: seq<int>)
    ensures |r| == |blocks| && Topological(r)
  {
    if blocks == [] then []
    else
      var front, last := blocks[..|blocks| - 1], blocks[|blocks| - 1];
      ParentsOf(front) + [Nearest(front, |front|, Bound(last))]
  }

  lemma {:induction false} NearestIsNearest(blocks: seq<Block>, end: int, bound: Option<int>)
    requires end <= |blocks|
    ensures var r := Nearest(blocks, end, bound);
      && (r >= 0 ==> Encloses(blocks[r], bound))
      && forall j | r < j < end && 0 <= j :: !Encloses(blocks[j], bound)
    decreases end
  {
    if end > 0 && !Encloses(blocks[end - 1], bound) {
      NearestIsNearest(blocks, end - 1, bound);
    }
  }

  /** Blocks that cannot hold it can be skipped. */
  lemma {:induction false} NearestSkips(blocks: seq<Block>, start: nat, end: nat, bound: Option<int>)
    requires start <= end <= |blocks|
    requires forall j | start <= j < end :: !Encloses(blocks[j], bound)
    ensures Nearest(blocks, end, bound) == Nearest(blocks, start, bound)
  {
    if start < end {
      NearestSkips(blocks, start, end - 1, bound);
    }
  }

  /** Sections nest: between a block and its parent, nothing hangs above that parent. */
  lemma SectionsNest(blocks: seq<Block>, e: nat, j: nat)
    requires e < j < |blocks| && Parent(blocks, j) < e
    ensures 0 <= Parent(blocks, j) ==> Parent(blocks, j) <= Parent(blocks, e)
  {
    var i := Parent(blocks, j);
    if 0 <= i {
      NearestIsNearest(blocks, j, Bound(blocks[j]));
      NearestIsNearest(blocks, e, Bound(blocks[e]));
      assert !Encloses(blocks[e], Bound(blocks[j])) && Encloses(blocks[i], Bound(blocks[j]));
    }
  }

  lemma {:induction false} NearestOfPrefix(blocks: seq<Block>, more: Block, end: int, bound: Option<int>)
    requires end <= |blocks|
    ensures Nearest(blocks + [more], end, bound) == Nearest(blocks, end, bound)
    decreases end
  {
    if end > 0 && !Encloses(blocks[end - 1], bound) {
      NearestOfPrefix(blocks, more, end - 1, bound);
    }
  }

  lemma {:induction false} ParentsAre(blocks: seq<Block>, i: nat)
    requires i < |blocks|
    ensures ParentsOf(blocks)[i] == Parent(blocks, i)
    decreases |blocks|
  {
    var front, last := blocks[..|blocks| - 1], blocks[|blocks| - 1];
    assert blocks == front + [last];
    NearestOfPrefix(front, last, i, Bound(blocks[i]));
    if i < |front| {
      ParentsAre(front, i);
    }
  }

  lemma ParentsNest(blocks: seq<Block>)
    ensures Nested(ParentsOf(blocks))
  {
    var parents := ParentsOf(blocks);
    forall e: nat, j: nat | e < j < |blocks| && 0 <= parents[j] < e ensures parents[j] <= parents[e] {
      ParentsAre(blocks, e);
      ParentsAre(blocks, j);
      SectionsNest(blocks, e, j);
    }
  }

  // ---- the builder ----

  /** An open section; the sentinel at the bottom has no node. */
  datatype Frame = Frame(node: ContextNode?, level: int)

  ghost function At(f: Frame): int {
    if f.node == null then -1 else f.node.at
  }

  ghost function Enclosing(f: Frame): set<ContextNode> {
    if f.node == null then {} else {f.node}
  }

  /** Which node a block becomes. */
  ghost predicate Made(n: ContextNode, b: Block) {
    && b != Blank && n.content == b.content
    && n.nodeType == if b.Heading? then NodeHeading else NodeText
  }

  /** The nodes made for these blocks, each with its own place. */
  ghost predicate Numbered(nodes: seq<ContextNode>, blocks: seq<Block>) {
    |nodes| == |blocks| && forall i | 0 <= i < |nodes| :: nodes[i].at == i && Made(nodes[i], blocks[i])
  }

  /** All of them come from this file. */
  ghost predicate FromFile(nodes: seq<ContextNode>, path: string) {
    forall i | 0 <= i < |nodes| :: nodes[i].sourceFile == path
  }

  /** The heap holds this tree; its roots come after those of the preamble. */
  ghost predicate Built(nodes: seq<ContextNode>, front: seq<ContextNode>, out: seq<ContextNode>, plan: Plan)
    reads nodes`depth, nodes`children
  {
    && |nodes| == |plan.depths| == |plan.kids|
    && (forall i | 0 <= i < |nodes| :: Below(plan.kids[i], |nodes|))
    && (forall i | 0 <= i < |nodes| ::
          nodes[i].depth == plan.depths[i] && nodes[i].children == Pick(nodes, plan.kids[i]))
    && Below(plan.roots, |nodes|) && out == front + Pick(nodes, plan.roots)
  }

  ghost predicate Below(at: seq<nat>, n: nat) {
    forall k | 0 <= k < |at| :: at[k] < n
  }

  /** The heap holds the tree of the blocks. */
  ghost predicate Mirrors(nodes: seq<ContextNode>, front: seq<ContextNode>, out: seq<ContextNode>, blocks: seq<Block>)
    reads nodes`depth, nodes`children
  {
    Numbered(nodes, blocks) && Built(nodes, front, out, PlanOf(ParentsOf(blocks)))
  }

  /** The stack holds the chain of sections open at the end of the blocks, levels rising. */
  ghost predicate OpenSections(stack: seq<Frame>, nodes: seq<ContextNode>, blocks: seq<Block>)
    requires |nodes| == |blocks|
  {
    && stack != [] && stack[0].node == null
    && (forall k | 0 < k < |stack| :: Opens(stack[k - 1], stack[k], nodes, blocks))
    && forall k | 1 < k < |stack| :: stack[k - 1].level < stack[k].level
  }

  ghost predicate Opens(outer: Frame, f: Frame, nodes: seq<ContextNode>, blocks: seq<Block>)
    requires |nodes| == |blocks|
  {
    && 0 <= At(f) < |blocks| && f.node == nodes[At(f)] && Bound(blocks[At(f)]) == Some(f.level)
    && Parent(blocks, At(f)) == At(outer)
  }

  /** The open sections, the latest heading on top. */
  ghost predicate Innermost(stack: seq<Frame>, nodes: seq<ContextNode>, blocks: seq<Block>)
    requires |nodes| == |blocks|
  {
    OpenSections(stack, nodes, blocks) && At(stack[|stack| - 1]) == Nearest(blocks, |blocks|, None)
  }

  /** Close every section a new heading of this level does not belong to. */
  method PopSections(stack: seq<Frame>, level: int, ghost nodes: seq<ContextNode>, ghost blocks: seq<Block>)
    returns (r: seq<Frame>)
    requires |nodes| == |blocks| && Innermost(stack, nodes, blocks)
    ensures OpenSections(r, nodes, blocks) && r <= stack
    ensures At(r[|r| - 1]) == Nearest(blocks, |blocks|, Some(level))
    ensures |r| > 1 ==> r[|r| - 1].level < level
  {
    r := stack;
    ghost var bound := Some(level);
    LatestEncloses(blocks, bound);
    while |r| > 1 && r[|r| - 1].level >= level
      invariant r <= stack && r != [] && OpenSections(r, nodes, blocks) && At(r[|r| - 1]) < |blocks|
      invariant Nearest(blocks, |blocks|, bound) == Nearest(blocks, At(r[|r| - 1]) + 1, bound)
    {
      ghost var top := r[|r| - 1];
      assert Opens(r[|r| - 2], top, nodes, blocks);
      SkipSection(blocks, At(top), level);
      r := r[..|r| - 1];
    }
    if |r| > 1 {
      assert Opens(r[|r| - 2], r[|r| - 1], nodes, blocks);
    }
  }

  /** Nothing after the latest heading opens a section. */
  lemma LatestEncloses(blocks: seq<Block>, bound: Option<int>)
    ensures Nearest(blocks, |blocks|, bound) == Nearest(blocks, Nearest(blocks, |blocks|, None) + 1, bound)
  {
    NearestIsNearest(blocks, |blocks|, None);
    NearestSkips(blocks, Nearest(blocks, |blocks|, None) + 1, |blocks|, bound);
  }

  /** Past a heading of this level or more, the next candidate is that heading's own parent. */
  lemma SkipSection(blocks: seq<Block>, top: nat, level: int)
    requires top < |blocks| && blocks[top].Heading? && level <= blocks[top].level
    ensures Nearest(blocks, top + 1, Some(level)) == Nearest(blocks, Parent(blocks, top) + 1, Some(level))
  {
    var p := Parent(blocks, top);
    forall j | p < j <= top && 0 <= j ensures !Encloses(blocks[j], Some(level)) {
      NearestIsNearest(blocks, top, Bound(blocks[top]));
    }
    NearestSkips(blocks, p + 1, top + 1, Some(level));
  }

  /** One more block hangs under the nearest section that can hold it. */
  lemma ParentsGrow(blocks: seq<Block>, b: Block)
    ensures ParentsOf(blocks + [b]) == ParentsOf(blocks) + [Nearest(blocks, |blocks|, Bound(b))]
  {
    assert (blocks + [b])[..|blocks|] == blocks;
  }

  /** Hang n under the innermost open section and set its depth from there. */
  method AttachNode(stack: seq<Frame>, out: seq<ContextNode>, n: ContextNode,
                    ghost nodes: seq<ContextNode>, ghost front: seq<ContextNode>, ghost plan: Plan)
    returns (r: seq<ContextNode>)
    requires Built(nodes, front, out, plan) && (forall i | 0 <= i < |nodes| :: nodes[i].at == i)
    requires n.at == |nodes| && n.children == [] && stack != []
    requires var top := stack[|stack| - 1]; top.node != null ==> top.node in nodes
    modifies n`depth, Enclosing(stack[|stack| - 1])`children
    ensures Built(nodes + [n], front, r, Hang(plan, At(stack[|stack| - 1])))
  {
    var top := stack[|stack| - 1].node;
    if top == null {
      n.depth := 1;
      r := out + [n];
    } else {
      n.depth := top.depth + 1;
      top.children := top.children + [n];
      r := out;
    }
    ghost var all, grown := nodes + [n], Hang(plan, At(stack[|stack| - 1]));
    forall i | 0 <= i < |nodes| ensures all[i].children == Pick(all, grown.kids[i]) {
      PickMore(nodes, n, plan.kids[i]);
    }
    PickMore(nodes, n, plan.roots);
  }

  lemma PickMore(nodes: seq<ContextNode>, n: ContextNode, at: seq<nat>)
    requires Below(at, |nodes|)
    ensures Pick(nodes + [n], at) == Pick(nodes, at)
    ensures Pick(nodes + [n], at + [|nodes|]) == Pick(nodes, at) + [n]
  {
  }

  lemma TopIsEnclosing(stack: seq<Frame>, nodes: seq<ContextNode>, blocks: seq<Block>)
    requires |nodes| == |blocks| && OpenSections(stack, nodes, blocks)
    ensures var top := stack[|stack| - 1];
      && (top.node == null ==> At(top) == -1)
      && (top.node != null ==> 0 <= At(top) < |nodes| && top.node == nodes[At(top)])
      && forall o | o in Enclosing(top) :: o in nodes
  {
    if |stack| > 1 {
      assert Opens(stack[|stack| - 2], stack[|stack| - 1], nodes, blocks);
    }
  }

  lemma KeptStep(doc: seq<Block>, i: nat)
    requires i < |doc|
    ensures Kept(doc[..i + 1]) == Kept(doc[..i]) + if doc[i] == Blank then [] else [doc[i]]
  {
    assert doc[..i + 1][..i] == doc[..i];
  }

  /** The heap and the stack agree with the blocks read so far and the plan of their tree. */
  ghost predicate StackMatches(stack: seq<Frame>, out: seq<ContextNode>, nodes: seq<ContextNode>,
                               front: seq<ContextNode>,
                         blocks: seq<Block>, plan: Plan)
    reads nodes`depth, nodes`children
  {
    Numbered(nodes, blocks) && Built(nodes, front, out, plan) && Innermost(stack, nodes, blocks)
  }

  /** The plan of one more block. */
  ghost function Planned(plan: Plan, blocks: seq<Block>, b: Block): Plan
    requires |plan.depths| == |plan.kids| == |blocks|
  {
    if b == Blank then plan else Hang(plan, Nearest(blocks, |blocks|, Bound(b)))
  }

  /** Make the node of a block and hang it under the section that holds it. */
  method PlaceBlock(path: string, b: Block, stack: seq<Frame>, out: seq<ContextNode>,
                    ghost nodes: seq<ContextNode>, ghost front: seq<ContextNode>, ghost blocks: seq<Block>,
                    ghost plan: Plan)
    returns (r: seq<ContextNode>, n: ContextNode)
    requires b != Blank && Numbered(nodes, blocks) && Built(nodes, front, out, plan)
        && OpenSections(stack, nodes, blocks)
    requires At(stack[|stack| - 1]) == Nearest(blocks, |blocks|, Bound(b))
    modifies nodes`children
    ensures fresh(n) && n.at == |blocks| && n.sourceFile == path
    ensures Numbered(nodes + [n], blocks + [b]) && Built(nodes + [n], front, r, Planned(plan, blocks, b))
  {
    n := new ContextNode(path, if b.Heading? then NodeHeading else NodeText, b.content, |blocks|);
    TopIsEnclosing(stack, nodes, blocks);
    r := AttachNode(stack, out, n, nodes, front, plan);
  }

  /** A heading closes the sections it does not belong to, hangs under the next, and opens its own. */
  method AddHeading(path: string, b: Block, stack: seq<Frame>, out: seq<ContextNode>,
                    ghost nodes: seq<ContextNode>, ghost front: seq<ContextNode>, ghost blocks: seq<Block>,
                    ghost plan: Plan)
    returns (nowStack: seq<Frame>, nowOut: seq<ContextNode>, ghost added: seq<ContextNode>)
    requires b.Heading? && StackMatches(stack, out, nodes, front, blocks, plan)
    modifies nodes`children
    ensures fresh(added) && FromFile(added, path)
    ensures StackMatches(nowStack, nowOut, nodes + added, front, blocks + [b], Planned(plan, blocks, b))
  {
    var open := PopSections(stack, b.level, nodes, blocks);
    var n;
    nowOut, n := PlaceBlock(path, b, open, out, nodes, front, blocks, plan);
    StackGrows(open, nodes, blocks, n, b);
    nowStack, added := open + [Frame(n, b.level)], [n];
  }

  /** One step of the block loop. */
  method AddBlock(path: string, b: Block, stack: seq<Frame>, out: seq<ContextNode>,
                  ghost nodes: seq<ContextNode>, ghost front: seq<ContextNode>, ghost blocks: seq<Block>,
                  ghost plan: Plan)
    returns (nowStack: seq<Frame>, nowOut: seq<ContextNode>, ghost added: seq<ContextNode>)
    requires StackMatches(stack, out, nodes, front, blocks, plan)
    modifies nodes`children
    ensures fresh(added) && FromFile(added, path)
    ensures StackMatches(nowStack, nowOut, nodes + added, front, blocks + (if b == Blank then [] else [b]),
                         Planned(plan, blocks, b))
  {
    match b
    case Heading(_, _) =>
      nowStack, nowOut, added := AddHeading(path, b, stack, out, nodes, front, blocks, plan);
    case Text(_) =>
      var n;
      nowStack := stack;
      nowOut, n := PlaceBlock(path, b, stack, out, nodes, front, blocks, plan);
      StackGrows(stack, nodes, blocks, n, b);
      added := [n];
    case Blank =>
      assert nodes + [] == nodes && blocks + [] == blocks;
      nowStack, nowOut, added := stack, out, [];
  }

  /** The tree of a document after its preamble: the nodes made, in document order, their roots
      behind the preamble's. */
  method ParseMarkdown(path: string, front: seq<ContextNode>, doc: seq<Block>)
    returns (out: seq<ContextNode>, ghost nodes: seq<ContextNode>)
    ensures Mirrors(nodes, front, out, Kept(doc)) && FromFile(nodes, path) && fresh(nodes)
  {
    out, nodes := front, [];
    var stack := [Frame(null, 0)];
    ghost var blocks, plan := [], Plan([], [], []);
    StartMatches(stack, front);
    for i := 0 to |doc|
      invariant fresh(nodes) && FromFile(nodes, path)
      invariant StackMatches(stack, out, nodes, front, blocks, plan)
      invariant InStep(plan, blocks, doc, i)
    {
      ghost var added;
      stack, out, added := AddBlock(path, doc[i], stack, out, nodes, front, blocks, plan);
      KeepsInStep(plan, blocks, doc, i);
      nodes, plan := nodes + added, Planned(plan, blocks, doc[i]);
      blocks := blocks + if doc[i] == Blank then [] else [doc[i]];
    }
    assert doc[..|doc|] == doc;
  }

  /** The blocks read, and the plan of their tree. */
  ghost predicate InStep(plan: Plan, blocks: seq<Block>, doc: seq<Block>, i: nat)
    requires i <= |doc|
  {
    blocks == Kept(doc[..i]) && plan == PlanOf(ParentsOf(blocks))
  }

  lemma KeepsInStep(plan: Plan, blocks: seq<Block>, doc: seq<Block>, i: nat)
    requires i < |doc| && InStep(plan, blocks, doc, i)
    ensures |plan.depths| == |plan.kids| == |blocks|
    ensures InStep(Planned(plan, blocks, doc[i]), blocks + (if doc[i] == Blank then [] else [doc[i]]), doc, i + 1)
  {
    TreeGrows(plan, blocks, doc[i]);
    KeptStep(doc, i);
  }

  /** The plan kept step by step is the plan of the blocks. */
  lemma TreeGrows(plan: Plan, blocks: seq<Block>, b: Block)
    requires plan == PlanOf(ParentsOf(blocks))
    ensures Planned(plan, blocks, b) == PlanOf(ParentsOf(blocks + if b == Blank then [] else [b]))
  {
    if b == Blank {
      assert blocks + [] == blocks;
    } else {
      ParentsGrow(blocks, b);
      PlanGrows(ParentsOf(blocks), Nearest(blocks, |blocks|, Bound(b)));
    }
  }

  lemma StartMatches(stack: seq<Frame>, front: seq<ContextNode>)
    requires stack == [Frame(null, 0)]
    ensures StackMatches(stack, front, [], front, [], Plan([], [], []))
  {
  }

  lemma StaysOpen(outer: Frame, f: Frame, nodes: seq<ContextNode>, blocks: seq<Block>, n: ContextNode, b: Block)
    requires |nodes| == |blocks| && Opens(outer, f, nodes, blocks)
    ensures Opens(outer, f, nodes + [n], blocks + [b])
  {
    NearestOfPrefix(blocks, b, At(f), Bound(blocks[At(f)]));
  }

  lemma StackStays(stack: seq<Frame>, nodes: seq<ContextNode>, blocks: seq<Block>, n: ContextNode, b: Block)
    requires |nodes| == |blocks| && OpenSections(stack, nodes, blocks)
    ensures OpenSections(stack, nodes + [n], blocks + [b])
  {
    forall k | 0 < k < |stack| ensures Opens(stack[k - 1], stack[k], nodes + [n], blocks + [b]) {
      StaysOpen(stack[k - 1], stack[k], nodes, blocks, n, b);
    }
  }

  lemma Push(stack: seq<Frame>, f: Frame, nodes: seq<ContextNode>, blocks: seq<Block>)
    requires |nodes| == |blocks| && OpenSections(stack, nodes, blocks)
    requires Opens(stack[|stack| - 1], f, nodes, blocks)
    requires |stack| > 1 ==> stack[|stack| - 1].level < f.level
    ensures OpenSections(stack + [f], nodes, blocks)
  {
    var grown := stack + [f];
    forall k | 0 < k < |grown| ensures Opens(grown[k - 1], grown[k], nodes, blocks) {
      assert k < |stack| ==> Opens(stack[k - 1], stack[k], nodes, blocks);
    }
  }

  /** Opening a section for a heading keeps the stack the chain of open sections. */
  lemma StackGrows(stack: seq<Frame>, nodes: seq<ContextNode>, blocks: seq<Block>, n: ContextNode, b: Block)
    requires |nodes| == |blocks| && OpenSections(stack, nodes, blocks) && n.at == |blocks| && b != Blank
    requires At(stack[|stack| - 1]) == Nearest(blocks, |blocks|, Bound(b))
    requires b.Heading? && |stack| > 1 ==> stack[|stack| - 1].level < b.level
    ensures var grown := if b.Heading? then stack + [Frame(n, b.level)] else stack;
      Innermost(grown, nodes + [n], blocks + [b])
  {
    NearestOfPrefix(blocks, b, |blocks|, Bound(b));
    StackStays(stack, nodes, blocks, n, b);
    if b.Heading? {
      assert Opens(stack[|stack| - 1], Frame(n, b.level), nodes + [n], blocks + [b]);
      Push(stack, Frame(n, b.level), nodes + [n], blocks + [b]);
    }
  }

  // ---- flattening ----

  /** Flattening a parsed document yields the preamble's nodes and then its own, in document order,
      none lost or repeated. */
  method Flatten(out: seq<ContextNode>, ghost nodes: seq<ContextNode>, ghost front: seq<ContextNode>,
                 ghost blocks: seq<Block>,
                 ghost preamble: seq<ContextNode>, ghost shape: Shape, ghost at: seq<nat>)
    returns (r: seq<ContextNode>)
    requires Mirrors(nodes, front, out, blocks)
    requires Linked(preamble, shape) && Ascending(at, 0, |shape|) && front == Pick(preamble, at)
    ensures r == Listing(preamble, shape, at) + nodes
  {
    BodyListing(nodes, front, out, blocks);
    ghost var plan := PlanOf(ParentsOf(blocks));
    BesideIsLinked(preamble, shape, at, nodes, plan.kids, plan.roots);
    ListingBeside(preamble, shape, at, nodes, plan.kids, plan.roots);
    r := CollectNodes([], out, preamble + nodes, Beside(shape, plan.kids), at + Shift(plan.roots, |shape|));
  }

  lemma BodyListing(nodes: seq<ContextNode>, front: seq<ContextNode>, out: seq<ContextNode>, blocks: seq<Block>)
    requires Mirrors(nodes, front, out, blocks)
    ensures var plan := PlanOf(ParentsOf(blocks));
      && (forall i: nat | i < |plan.kids| :: Ascending(plan.kids[i], i + 1, |plan.kids|))
      && Ascending(plan.roots, 0, |plan.kids|) && Linked(nodes, plan.kids)
      && Listing(nodes, plan.kids, plan.roots) == nodes
  {
    var plan := PlanOf(ParentsOf(blocks));
    ParentsNest(blocks);
    WholePreorder(ParentsOf(blocks));
    ListingIsFlat(nodes, plan.kids, plan.roots);
  }
}
