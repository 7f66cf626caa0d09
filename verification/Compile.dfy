/** Compiling: the diff of a parsed forest against the stored state, and where it leads. */
module Compiles {
  import opened Order
  import opened Graphs
  import opened Deltas
  import opened Wrappers

  /** One parsed node in pre-order, with its id and parent wired. */
  datatype FlatNode = FlatNode(id: string, node: Node)

  datatype NodeState = NodeState(hash: string, content: string)

  function Ids(flat: seq<FlatNode>): set<string> {
    set n | n in flat :: n.id
  }

  ghost predicate DistinctIds(flat: seq<FlatNode>) {
    forall i, j | 0 <= i < j < |flat| :: flat[i].id != flat[j].id
  }

  /** Each node's parent, if it has one, is listed before it. */
  ghost predicate ParentsFirst(flat: seq<FlatNode>) {
    forall i | 0 <= i < |flat| && flat[i].node.parent != "" :: flat[i].node.parent in Ids(flat[..i])
  }

  /** The id-keyed map of a flattened forest; a later node overrides an earlier one. */
  function Tree(flat: seq<FlatNode>): Graph {
    if flat == [] then map[]
    else Tree(flat[..|flat| - 1])[flat[|flat| - 1].id := flat[|flat| - 1].node]
  }

  // ---- the diff ----

  function ChangeFor(id: string, n: Node, prev: map<string, NodeState>): Option<Delta> {
    if id !in prev then
      Some(Delta(id, Add, "", n.contentHash, "", n.content))
    else if prev[id].hash != n.contentHash then
      Some(Delta(id, Mod, prev[id].hash, n.contentHash, prev[id].content, n.content))
    else None
  }

  function Changes(flat: seq<FlatNode>, prev: map<string, NodeState>): seq<Delta> {
    if flat == [] then []
    else
      var n := flat[|flat| - 1];
      Changes(flat[..|flat| - 1], prev) +
      match ChangeFor(n.id, n.node, prev) { case Some(d) => [d] case None => [] }
  }

  function RemovalDeltas(removed: seq<string>, prev: map<string, NodeState>): seq<Delta>
    requires forall x | x in removed :: x in prev
  {
    seq(|removed|, i requires 0 <= i < |removed| =>
      Delta(removed[i], Rem, prev[removed[i]].hash, "", prev[removed[i]].content, ""))
  }

  /** removed lists, in ascending order, the known ids the forest no longer has. */
  ghost predicate IsRemoved(removed: seq<string>, flat: seq<FlatNode>, prev: map<string, NodeState>) {
    Ascending(removed, (x: string) => x) && forall x :: x in removed <==> x in prev && x !in Ids(flat)
  }

  method DiffFlat(flat: seq<FlatNode>, prev: map<string, NodeState>)
    returns (deltas: seq<Delta>, ghost removed: seq<string>)
    ensures IsRemoved(removed, flat, prev)
    ensures deltas == Changes(flat, prev) + RemovalDeltas(removed, prev)
    ensures forall other :: IsRemoved(other, flat, prev) ==> deltas == Changes(flat, prev) + RemovalDeltas(other, prev)
  {
    var seen;
    seen, deltas := ChangedIn(flat, prev);
    var gone := RemovedIds(seen, prev);
    deltas := AppendRemovals(deltas, gone, prev);
    removed := gone;
    forall other | IsRemoved(other, flat, prev) ensures other == removed {
      AscendingIsCanonical(other, removed, (x: string) => x);
    }
  }

  /** The ids the forest names, and a delta for each node that is new or changed. */
  method ChangedIn(flat: seq<FlatNode>, prev: map<string, NodeState>) returns (seen: set<string>, deltas: seq<Delta>)
    ensures seen == Ids(flat) && deltas == Changes(flat, prev)
  {
    seen, deltas := {}, [];
    for i := 0 to |flat|
      invariant seen == Ids(flat[..i])
      invariant deltas == Changes(flat[..i], prev)
    {
      var n := flat[i];
      assert flat[..i + 1] == flat[..i] + [n];
      assert flat[..i + 1][..i] == flat[..i];
      seen := seen + {n.id};
      if n.id !in prev {
        deltas := deltas + [Delta(n.id, Add, "", n.node.contentHash, "", n.node.content)];
        continue;
      }
      var was := prev[n.id];
      if was.hash != n.node.contentHash {
        deltas := deltas + [Delta(n.id, Mod, was.hash, n.node.contentHash, was.content, n.node.content)];
      }
    }
    assert flat[..|flat|] == flat;
  }

  method AppendRemovals(deltas: seq<Delta>, gone: seq<string>, prev: map<string, NodeState>) returns (r: seq<Delta>)
    requires forall id | id in gone :: id in prev
    ensures r == deltas + RemovalDeltas(gone, prev)
  {
    r := deltas;
    for i := 0 to |gone|
      invariant r == deltas + RemovalDeltas(gone[..i], prev)
    {
      var was := prev[gone[i]];
      r := r + [Delta(gone[i], Rem, was.hash, "", was.content, "")];
      assert RemovalDeltas(gone[..i + 1], prev) ==
             RemovalDeltas(gone[..i], prev) + [Delta(gone[i], Rem, was.hash, "", was.content, "")];
    }
    assert gone[..|gone|] == gone;
  }

  method RemovedIds(seen: set<string>, prev: map<string, NodeState>) returns (sorted: seq<string>)
    ensures Ascending(sorted, (x: string) => x)
    ensures forall x :: x in sorted <==> x in prev && x !in seen
  {
    var removed: seq<string> := [];
    var todo := prev.Keys;
    while todo != {}
      invariant todo <= prev.Keys
      invariant DistinctKeys(removed, (x: string) => x)
      invariant forall x :: x in removed <==> x in prev && x !in todo && x !in seen
    {
      var id :| id in todo;
      todo := todo - {id};
      if id !in seen {
        removed := removed + [id];
      }
    }
    sorted := Sort(removed, (x: string) => x);
  }

  // ---- the members of the diff ----

  lemma {:induction false} TreeKeys(flat: seq<FlatNode>)
    ensures Tree(flat).Keys == Ids(flat)
  {
    if flat != [] {
      assert flat == flat[..|flat| - 1] + [flat[|flat| - 1]];
      TreeKeys(flat[..|flat| - 1]);
    }
  }

  lemma {:induction false} TreeHolds(flat: seq<FlatNode>)
    ensures Tree(flat).Keys == Ids(flat)
    ensures DistinctIds(flat) ==> forall n | n in flat :: Tree(flat)[n.id] == n.node
  {
    TreeKeys(flat);
    if flat != [] && DistinctIds(flat) {
      var front, last := flat[..|flat| - 1], flat[|flat| - 1];
      TreeHolds(front);
      assert flat == front + [last];
      assert forall k | 0 <= k < |front| :: flat[k].id != last.id;
    }
  }

  lemma {:induction false} ChangesAreDistinct(flat: seq<FlatNode>, prev: map<string, NodeState>)
    requires DistinctIds(flat)
    ensures Distinct(Changes(flat, prev)) && forall d | d in Changes(flat, prev) :: d.id in Ids(flat)
  {
    if flat != [] {
      var front, last := flat[..|flat| - 1], flat[|flat| - 1];
      ChangesAreDistinct(front, prev);
      assert last in flat && last.id !in Ids(front);
    }
  }

  lemma {:induction false} ChangeMembers(flat: seq<FlatNode>, prev: map<string, NodeState>)
    requires DistinctIds(flat)
    ensures Distinct(Changes(flat, prev))
    ensures var tree := Tree(flat);
      forall d :: d in Changes(flat, prev) <==> d.id in tree && ChangeFor(d.id, tree[d.id], prev) == Some(d)
  {
    ChangesAreDistinct(flat, prev);
    if flat != [] {
      var front, last := flat[..|flat| - 1], flat[|flat| - 1];
      TreeKeys(front);
      ChangesAreDistinct(front, prev);
      ChangeMembers(front, prev);
      assert last.id !in Ids(front);
    }
  }

  lemma RemovalMembers(removed: seq<string>, prev: map<string, NodeState>)
    requires forall x | x in removed :: x in prev
    ensures forall d :: d in RemovalDeltas(removed, prev) <==>
              d.id in removed && d == Delta(d.id, Rem, prev[d.id].hash, "", prev[d.id].content, "")
    ensures IdsOf(RemovalDeltas(removed, prev)) == set x | x in removed
  {
    forall x | x in removed
      ensures Delta(x, Rem, prev[x].hash, "", prev[x].content, "") in RemovalDeltas(removed, prev)
    {
      var i :| 0 <= i < |removed| && removed[i] == x;
      assert RemovalDeltas(removed, prev)[i].id == x;
    }
    assert forall x | x in removed :: Delta(x, Rem, prev[x].hash, "", prev[x].content, "").id == x;
  }
}
