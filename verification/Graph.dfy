/** The node table: an id-keyed forest of versioned nodes whose deletes cascade to children. */
module Graphs {
  import opened Wrappers

  /** The versioned columns of a node row. A parent of "" is the SQL NULL of a root. */
  datatype Node = Node(
    parent: string,
    sourceFile: string,
    nodeType: string,
    depth: int,
    title: string,      // the label column
    content: string,
    format: string,
    tokenCount: int,
    contentHash: string)

  type Graph = map<string, Node>

  /** The source file of a node that a write makes; no file has this name. */
  const WRITTEN: string := "mcp:write"

  function Get(g: Graph, x: string): Option<Node> {
    if x in g then Some(g[x]) else None
  }

  function ChildrenOf(g: Graph, s: set<string>): set<string> {
    set x | x in g && g[x].parent in s
  }

  ghost predicate ChildClosed(g: Graph, s: set<string>) {
    ChildrenOf(g, s) <= s
  }

  /** Everything at or below s: what ON DELETE CASCADE removes along with s. */
  function Grow(g: Graph, s: set<string>): (r: set<string>)
    requires s <= g.Keys
    ensures s <= r <= g.Keys
    ensures ChildClosed(g, r)
    decreases |g.Keys - s|
  {
    var more := ChildrenOf(g, s) - s;
    if more == {} then s
    else
      Shrinks(g.Keys, s, more);
      Grow(g, s + more)
  }

  lemma Shrinks(all: set<string>, s: set<string>, more: set<string>)
    requires s <= all && more <= all && more != {} && more !! s
    ensures |all - (s + more)| < |all - s|
  {
    var x :| x in more;
    assert all - (s + more) <= (all - s) - {x};
    CardinalityOfSubset(all - (s + more), (all - s) - {x});
  }

  lemma {:induction false} CardinalityOfSubset(a: set<string>, b: set<string>)
    requires a <= b
    ensures |a| <= |b|
  {
    if a != {} {
      var x :| x in a;
      CardinalityOfSubset(a - {x}, b - {x});
    }
  }

  /** The cascade is the least child-closed set, so it takes nothing it need not. */
  lemma {:induction false} GrowIsLeast(g: Graph, s: set<string>, t: set<string>)
    requires s <= g.Keys && s <= t && ChildClosed(g, t)
    ensures Grow(g, s) <= t
    decreases |g.Keys - s|
  {
    var more := ChildrenOf(g, s) - s;
    if more != {} {
      Shrinks(g.Keys, s, more);
      GrowIsLeast(g, s + more, t);
    }
  }

  function Cascade(g: Graph, id: string): (r: set<string>)
    ensures r <= g.Keys
  {
    if id in g then Grow(g, {id}) else {}
  }

  /** DELETE FROM nodes WHERE id = ?, foreign keys on. */
  function Delete(g: Graph, id: string): Graph {
    g - Cascade(g, id)
  }

  /** Cascading from one id and then from the others takes what cascading from all takes. */
  lemma GrowInSteps(g: Graph, id: string, s: set<string>)
    ensures var g1 := Delete(g, id);
      Grow(g, ({id} + s) * g.Keys) == Cascade(g, id) + Grow(g1, s * g1.Keys)
  {
    var gone, g1, all := Cascade(g, id), Delete(g, id), ({id} + s) * g.Keys;
    GrowIsLeast(g, all, gone + Grow(g1, s * g1.Keys));
    if id in g {
      GrowIsLeast(g, {id}, Grow(g, all));
    }
    GrowIsLeast(g1, s * g1.Keys, Grow(g, all) * g1.Keys);
  }

  /** Every foreign key holds: a parent is NULL or a stored node. */
  ghost predicate Closed(g: Graph) {
    forall x | x in g :: g[x].parent == "" || g[x].parent in g
  }

  lemma DeleteKeepsClosed(g: Graph, id: string)
    requires Closed(g)
    ensures Closed(Delete(g, id))
  {
    if id in g {
      var gone := Cascade(g, id);
      assert forall x | x in g && g[x].parent in gone :: x in ChildrenOf(g, gone);
    }
  }

  /** Parent links descend along rank, so no node is its own ancestor. */
  ghost predicate AcyclicBy(g: Graph, rank: string -> nat) {
    forall x | x in g && g[x].parent in g :: rank(g[x].parent) < rank(x)
  }

  /** On a forest the target is not among its own descendants. */
  lemma CascadeSplits(g: Graph, id: string, rank: string -> nat)
    requires AcyclicBy(g, rank) && id in g
    ensures id !in Grow(g, ChildrenOf(g, {id}))
    ensures Cascade(g, id) == {id} + Grow(g, ChildrenOf(g, {id}))
  {
    var kids := ChildrenOf(g, {id});
    var below := Grow(g, kids);
    var higher := set x | x in g && rank(id) < rank(x);
    GrowIsLeast(g, kids, higher);
    GrowIsLeast(g, {id}, {id} + below);
    assert kids <= ChildrenOf(g, Cascade(g, id));
    GrowIsLeast(g, kids, Cascade(g, id));
  }
}
