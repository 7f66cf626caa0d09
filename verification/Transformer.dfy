/** Wiring ids: every node's id digests its file, its parent's id and its place among its siblings. */
module Transformer {
  import opened Ast
  import opened ContentId

  /** A batch of trees: what hangs below each node, the batch's roots, and every node's file. */
  datatype Batch = Batch(shape: Shape, roots: seq<nat>, files: seq<string>)

  /** Each node is a root of the batch or the child of exactly one node. */
  ghost predicate Wellformed(b: Batch) {
    && |b.files| == |b.shape|
    && (forall k | 0 <= k < |b.roots| :: b.roots[k] < |b.shape|)
    && (forall k, l | 0 <= k < l < |b.roots| :: b.roots[k] != b.roots[l])
    && (forall p: nat, q: nat, i | p < |b.shape| && q < |b.shape| && i in b.shape[p] && i in b.shape[q] :: p == q)
    && (forall p: nat, i | p < |b.shape| && i in b.shape[p] :: i !in b.roots)
  }

  /** The node a node hangs under, or -1. */
  ghost function Holder(shape: Shape, i: nat): (p: int)
    requires i < |shape|
    ensures -1 <= p < i
    ensures p >= 0 ==> i in shape[p]
    ensures p < 0 ==> forall q: nat | q < |shape| :: i !in shape[q]
  {
    if exists q: nat :: q < |shape| && i in shape[q] then
      var q: nat :| q < |shape| && i in shape[q];
      q
    else -1
  }

  function IndexOf(s: seq<nat>, x: nat): (k: nat)
    requires x in s
    ensures k < |s| && s[k] == x
  {
    if s[0] == x then 0 else IndexOf(s[1..], x) + 1
  }

  /** How many of these nodes come from this file. */
  function CountFile(files: seq<string>, at: seq<nat>, file: string): nat
    requires forall k | 0 <= k < |at| :: at[k] < |files|
  {
    if at == [] then 0
    else CountFile(files, at[..|at| - 1], file) + if files[at[|at| - 1]] == file then 1 else 0
  }

  // ---- the ids a batch is to have ----

  /** A node's place: among its siblings, or for a root among the earlier roots of its file. */
  ghost function Ordinal(b: Batch, i: nat): nat
    requires Wellformed(b) && i < |b.shape|
  {
    var p := Holder(b.shape, i);
    if p >= 0 then IndexOf(b.shape[p], i)
    else if i in b.roots then CountFile(b.files, b.roots[..IndexOf(b.roots, i)], b.files[i])
    else 0
  }

  ghost function ParentId(digest: string -> UInt64, b: Batch, i: nat): (id: string)
    requires Wellformed(b) && i < |b.shape|
    ensures NUL !in id && (id == "" <==> Holder(b.shape, i) < 0)
    decreases i, 0
  {
    var p := Holder(b.shape, i);
    if p < 0 then "" else Id(digest, b, p)
  }

  ghost function Id(digest: string -> UInt64, b: Batch, i: nat): (id: string)
    requires Wellformed(b) && i < |b.shape|
    ensures NUL !in id && |id| == ID_LENGTH
    decreases i, 1
  {
    Identify(digest, b.files[i], ParentId(digest, b, i), Ordinal(b, i))
  }

  ghost function InputOf(digest: string -> UInt64, b: Batch, i: nat): string
    requires Wellformed(b) && i < |b.shape|
  {
    Input(b.files[i], ParentId(digest, b, i), Ordinal(b, i))
  }

  /** The digest keeps apart the inputs of this batch. */
  ghost predicate KeepsApart(digest: string -> UInt64, b: Batch)
    requires Wellformed(b)
  {
    forall i: nat, j: nat | i < |b.shape| && j < |b.shape| && InputOf(digest, b, i) != InputOf(digest, b, j) ::
      digest(InputOf(digest, b, i)) != digest(InputOf(digest, b, j))
  }

  ghost predicate Complete(b: Batch)
    requires Wellformed(b)
  {
    forall i: nat | i < |b.shape| && Holder(b.shape, i) < 0 :: i in b.roots
  }

  lemma {:induction false} CountGrows(files: seq<string>, at: seq<nat>, j: nat, k: nat)
    requires forall l | 0 <= l < |at| :: at[l] < |files|
    requires j < k <= |at|
    ensures CountFile(files, at[..j], files[at[j]]) < CountFile(files, at[..k], files[at[j]])
    decreases k
  {
    assert at[..k][..k - 1] == at[..k - 1];
    if j < k - 1 {
      CountGrows(files, at, j, k - 1);
    }
  }

  lemma SamePlace(b: Batch, i: nat, j: nat)
    requires Wellformed(b) && Complete(b) && i < |b.shape| && j < |b.shape|
    requires Holder(b.shape, i) == Holder(b.shape, j) && b.files[i] == b.files[j] && Ordinal(b, i) == Ordinal(b, j)
    ensures i == j
  {
    if Holder(b.shape, i) < 0 {
      var k, l := IndexOf(b.roots, i), IndexOf(b.roots, j);
      if k < l {
        CountGrows(b.files, b.roots, k, l);
      } else if l < k {
        CountGrows(b.files, b.roots, l, k);
      }
    }
  }

  /** No two nodes of a batch share an id. */
  lemma {:induction false} IdsAreDistinct(digest: string -> UInt64, b: Batch, i: nat, j: nat)
    requires Wellformed(b) && Complete(b) && KeepsApart(digest, b) && i < |b.shape| && j < |b.shape|
    requires Id(digest, b, i) == Id(digest, b, j)
    ensures i == j
    decreases i
  {
    IdLosesNothing(digest(InputOf(digest, b, i)), digest(InputOf(digest, b, j)));
    InputIsInjective(b.files[i], ParentId(digest, b, i), Ordinal(b, i), b.files[j], ParentId(digest, b, j),
        Ordinal(b, j));
    var p, q := Holder(b.shape, i), Holder(b.shape, j);
    if p >= 0 {
      IdsAreDistinct(digest, b, p, q);
    }
    SamePlace(b, i, j);
  }

  // ---- batches ----

  /** The root above a node. */
  ghost function Root(shape: Shape, i: nat): (r: nat)
    requires i < |shape|
    ensures r < |shape|
    decreases i
  {
    if Holder(shape, i) < 0 then i else Root(shape, Holder(shape, i))
  }

  function OfFile(files: seq<string>, at: seq<nat>, file: string): (r: seq<nat>)
    requires forall k | 0 <= k < |at| :: at[k] < |files|
    ensures forall k | 0 <= k < |r| :: r[k] < |files| && r[k] in at
  {
    if at == [] then []
    else
      OfFile(files, at[..|at| - 1], file) + if files[at[|at| - 1]] == file then [at[|at| - 1]] else []
  }

  /** A root's number in its file is its position among the file's roots. */
  lemma CountIsIndex(files: seq<string>, at: seq<nat>, x: nat)
    requires forall k | 0 <= k < |at| :: at[k] < |files|
    requires forall k, l | 0 <= k < l < |at| :: at[k] != at[l]
    requires x in at
    ensures x in OfFile(files, at, files[x])
    ensures CountFile(files, at[..IndexOf(at, x)], files[x]) == IndexOf(OfFile(files, at, files[x]), x)
  {
    var k := IndexOf(at, x);
    CountIsLength(files, at[..k], files[x]);
    assert at[k] !in at[..k];
    FilterSplits(files, at, k);
    PrefixIndex(OfFile(files, at[..k], files[x]), x, OfFile(files, at, files[x]));
  }

  lemma PrefixIndex(before: seq<nat>, x: nat, all: seq<nat>)
    requires x !in before && before + [x] <= all
    ensures x in all && IndexOf(all, x) == |before|
  {
    assert all == before + [x] + all[|before| + 1..];
    IndexAfter(before, x, all[|before| + 1..]);
  }

  lemma FilterSplits(files: seq<string>, at: seq<nat>, k: nat)
    requires forall l | 0 <= l < |at| :: at[l] < |files|
    requires k < |at| && at[k] !in at[..k]
    ensures var before, all := OfFile(files, at[..k], files[at[k]]), OfFile(files, at, files[at[k]]);
      at[k] !in before && before + [at[k]] <= all
  {
    OfFileStep(files, at, k, files[at[k]]);
    OfFilePrefix(files, at, k + 1, files[at[k]]);
  }

  lemma OfFileStep(files: seq<string>, at: seq<nat>, k: nat, file: string)
    requires forall l | 0 <= l < |at| :: at[l] < |files|
    requires k < |at|
    ensures OfFile(files, at[..k + 1], file) ==
            OfFile(files, at[..k], file) + if files[at[k]] == file then [at[k]] else []
  {
    var step := at[..k + 1];
    assert step[..|step| - 1] == at[..k];
  }

  lemma {:induction false} CountIsLength(files: seq<string>, at: seq<nat>, file: string)
    requires forall k | 0 <= k < |at| :: at[k] < |files|
    ensures CountFile(files, at, file) == |OfFile(files, at, file)|
  {
    if at != [] {
      CountIsLength(files, at[..|at| - 1], file);
    }
  }

  lemma {:induction false} OfFilePrefix(files: seq<string>, at: seq<nat>, k: nat, file: string)
    requires k <= |at| && forall l | 0 <= l < |at| :: at[l] < |files|
    ensures OfFile(files, at[..k], file) <= OfFile(files, at, file)
    decreases |at|
  {
    if k < |at| {
      var front := at[..|at| - 1];
      assert front[..k] == at[..k];
      OfFilePrefix(files, front, k, file);
    } else {
      assert at[..k] == at;
    }
  }

  lemma {:induction false} IndexAfter(before: seq<nat>, x: nat, after: seq<nat>)
    requires x !in before
    ensures IndexOf(before + [x] + after, x) == |before|
  {
    if before != [] {
      assert (before + [x] + after)[1..] == before[1..] + [x] + after;
      IndexAfter(before[1..], x, after);
    }
  }

  lemma SameRootPlace(a: Batch, b: Batch, i: nat)
    requires Wellformed(a) && Wellformed(b) && a.shape == b.shape && a.files == b.files && i < |a.shape|
    requires Holder(a.shape, i) < 0 && i in a.roots
    requires OfFile(a.files, a.roots, a.files[i]) == OfFile(b.files, b.roots, a.files[i])
    ensures Ordinal(a, i) == Ordinal(b, i)
  {
    CountIsIndex(a.files, a.roots, i);
    assert i in OfFile(b.files, b.roots, a.files[i]);
    CountIsIndex(b.files, b.roots, i);
  }

  /** A file's ids depend on that file's roots alone: not on the other files of the batch, nor on
      how the files are interleaved. */
  lemma {:induction false} IdsAreBatchIndependent(digest: string -> UInt64, a: Batch, b: Batch, i: nat)
    requires Wellformed(a) && Wellformed(b) && a.shape == b.shape && a.files == b.files && i < |a.shape|
    requires var r := Root(a.shape, i);
      r in a.roots && OfFile(a.files, a.roots, a.files[r]) == OfFile(b.files, b.roots, a.files[r])
    ensures Id(digest, a, i) == Id(digest, b, i) && ParentId(digest, a, i) == ParentId(digest, b, i)
    decreases i
  {
    var p := Holder(a.shape, i);
    if p < 0 {
      SameRootPlace(a, b, i);
    } else {
      IdsAreBatchIndependent(digest, a, b, p);
    }
  }

  // ---- wiring ----

  /** The nodes of a batch on the heap, each with its place. */
  ghost predicate Holds(nodes: seq<ContextNode>, b: Batch)
    reads nodes`children
  {
    && Wellformed(b) && Linked(nodes, b.shape)
    && forall i | 0 <= i < |nodes| :: nodes[i].at == i && nodes[i].sourceFile == b.files[i]
  }

  /** What one node is to be called. */
  datatype Name = Name(id: string, parentId: string)

  ghost predicate Named(digest: string -> UInt64, b: Batch, names: seq<Name>, i: nat)
    requires Wellformed(b) && i < |names| == |b.shape|
  {
    names[i] == Name(Id(digest, b, i), ParentId(digest, b, i))
  }

  ghost predicate Names(digest: string -> UInt64, b: Batch, names: seq<Name>)
    requires Wellformed(b)
  {
    |names| == |b.shape| && forall i: nat | i < |names| :: Named(digest, b, names, i)
  }

  ghost predicate Carries(n: ContextNode, name: Name)
    reads n`id, n`parentId
  {
    n.id == name.id && n.parentId == name.parentId
  }

  /** Whether a node is one of these or hangs somewhere below one. */
  ghost predicate Under(shape: Shape, at: seq<nat>, i: nat)
    requires i < |shape|
    decreases i
  {
    i in at || (Holder(shape, i) >= 0 && Under(shape, at, Holder(shape, i)))
  }

  /** The list of the children of p, or of the roots when p is -1. */
  ghost predicate Siblings(b: Batch, p: int, at: seq<nat>)
    requires Wellformed(b)
  {
    p < |b.shape| && at == if p < 0 then b.roots else b.shape[p]
  }

  /** A sibling's name, from its list and its place in it. */
  lemma SiblingName(digest: string -> UInt64, b: Batch, names: seq<Name>, p: int, at: seq<nat>, k: nat)
    requires Wellformed(b) && Names(digest, b, names) && -1 <= p && Siblings(b, p, at) && k < |at|
    ensures at[k] < |b.shape|
    ensures var parentId := if p < 0 then "" else names[p].id;
      && (p >= 0 ==> parentId != "")
      && names[at[k]].parentId == parentId
      && names[at[k]].id == Identify(digest, b.files[at[k]], parentId,
           if p < 0 then CountFile(b.files, at[..k], b.files[at[k]]) else k)
  {
    assert at[k] in at && Named(digest, b, names, at[k]);
    if p >= 0 {
      assert at[k] in b.shape[p] && Named(digest, b, names, p);
      assert IndexOf(b.shape[p], at[k]) == k;
    } else {
      assert IndexOf(b.roots, at[k]) == k;
    }
  }

  ghost predicate UnderAt(shape: Shape, a: nat, i: nat)
    requires i < |shape|
  {
    a < |shape| && (i == a || Under(shape, shape[a], i))
  }

  /** The nodes wired so far: those wired before and those under the first k siblings. */
  ghost predicate Reached(shape: Shape, before: set<nat>, at: seq<nat>, k: nat, i: nat)
    requires i < |shape| && k <= |at|
  {
    i in before || exists l :: 0 <= l < k && UnderAt(shape, at[l], i)
  }

  /** Every node wired so far carries its name. */
  ghost predicate Carrying(nodes: seq<ContextNode>, shape: Shape, names: seq<Name>, before: set<nat>, at: seq<nat>,
                           k: nat)
    requires |nodes| == |names| == |shape| && k <= |at|
    reads nodes`id, nodes`parentId
  {
    forall i: nat | i < |nodes| && Reached(shape, before, at, k, i) :: Carries(nodes[i], names[i])
  }

  lemma {:induction false} UnderSplits(b: Batch, at: seq<nat>, i: nat)
    requires Wellformed(b) && i < |b.shape| && Under(b.shape, at, i)
    ensures Reached(b.shape, {}, at, |at|, i)
    decreases i
  {
    var p := Holder(b.shape, i);
    if i in at {
      var k :| 0 <= k < |at| && at[k] == i;
      assert UnderAt(b.shape, at[k], i);
    } else if p in at {
      var k :| 0 <= k < |at| && at[k] == p;
      assert UnderAt(b.shape, at[k], i);
    } else {
      UnderSplits(b, at, p);
      var k :| 0 <= k < |at| && UnderAt(b.shape, at[k], p);
      assert UnderAt(b.shape, at[k], i);
    }
  }

  lemma AllReached(b: Batch, before: set<nat>, at: seq<nat>)
    requires Wellformed(b)
    ensures forall i: nat | i < |b.shape| && Under(b.shape, at, i) :: Reached(b.shape, before, at, |at|, i)
  {
    forall i: nat | i < |b.shape| && Under(b.shape, at, i) ensures Reached(b.shape, before, at, |at|, i) {
      UnderSplits(b, at, i);
    }
  }

  /** The counters of the files of the first k roots. */
  ghost predicate Counts(perFile: map<string, nat>, b: Batch, at: seq<nat>, k: nat)
    requires k <= |at| && forall l | 0 <= l < |at| :: at[l] < |b.files|
  {
    forall file :: Counted(perFile, file) == CountFile(b.files, at[..k], file)
  }

  function Counted(perFile: map<string, nat>, file: string): nat {
    if file in perFile then perFile[file] else 0
  }

  lemma CountsStep(perFile: map<string, nat>, b: Batch, at: seq<nat>, k: nat)
    requires k < |at| && (forall l | 0 <= l < |at| :: at[l] < |b.files|) && Counts(perFile, b, at, k)
    ensures var file := b.files[at[k]]; Counts(perFile[file := Counted(perFile, file) + 1], b, at, k + 1)
  {
    var front := at[..k + 1];
    assert front[..|front| - 1] == at[..k];
    forall file
      ensures CountFile(b.files, front, file) ==
              CountFile(b.files, at[..k], file) + if b.files[at[k]] == file then 1 else 0
    {
    }
  }

  method SetIdentity(digest: string -> UInt64, n: ContextNode, parentId: string, siblingIndex: nat)
    modifies n`id, n`parentId
    ensures n.id == Identify(digest, n.sourceFile, parentId, siblingIndex) && n.parentId == parentId
  {
    n.id := Identify(digest, n.sourceFile, parentId, siblingIndex);
    n.parentId := parentId;
  }

  /** The counters give each root its number, and counting it keeps them right. */
  lemma SiblingStep(digest: string -> UInt64, b: Batch, names: seq<Name>, p: int, at: seq<nat>, k: nat,
                    perFile: map<string, nat>)
    requires Wellformed(b) && Names(digest, b, names) && -1 <= p && Siblings(b, p, at) && k < |at|
    requires p < 0 ==> Counts(perFile, b, at, k)
    ensures p < at[k] < |b.shape|
    ensures var file, parentId := b.files[at[k]], if p < 0 then "" else names[p].id;
      && (p < 0 <==> parentId == "")
      && names[at[k]] == Name(Identify(digest, file, parentId, if p < 0 then Counted(perFile, file) else k), parentId)
      && (p < 0 ==> Counts(perFile[file := Counted(perFile, file) + 1], b, at, k + 1))
  {
    SiblingName(digest, b, names, p, at, k);
    if p < 0 {
      CountsStep(perFile, b, at, k);
    }
  }

  /** Wire one node and everything below it. */
  method WireNode(digest: string -> UInt64, n: ContextNode, parentId: string, siblingIndex: nat,
                  ghost nodes: seq<ContextNode>, ghost b: Batch, ghost names: seq<Name>, ghost at: nat)
    requires Holds(nodes, b) && Names(digest, b, names) && at < |nodes| && n == nodes[at]
    requires names[at] == Name(Identify(digest, n.sourceFile, parentId, siblingIndex), parentId)
    modifies nodes`id, nodes`parentId
    ensures forall i: nat | i < |nodes| && (old(Carries(nodes[i], names[i])) || UnderAt(b.shape, at, i)) ::
              Carries(nodes[i], names[i])
    decreases |b.shape| - at, 1, 0
  {
    SetIdentity(digest, n, parentId, siblingIndex);
    assert forall i: nat | i < |nodes| && old(Carries(nodes[i], names[i])) :: Carries(nodes[i], names[i]);
    WireIdentity(digest, n.children, n.id, nodes, b, names, b.shape[at], at);
  }

  /** Wire one of a list of siblings. Roots may come from several files, so each is numbered within
      its own file. */
  method WireSibling(digest: string -> UInt64, list: seq<ContextNode>, parentId: string, k: nat,
                     perFile: map<string, nat>,
                     ghost nodes: seq<ContextNode>, ghost b: Batch, ghost names: seq<Name>, ghost at: seq<nat>,
                     ghost p: int,
                     ghost before: set<nat>)
    returns (counted: map<string, nat>)
    requires Holds(nodes, b) && Names(digest, b, names) && -1 <= p && Siblings(b, p, at) && list == Pick(nodes, at)
    requires k < |list| && parentId == if p < 0 then "" else names[p].id
    requires (p < 0 ==> Counts(perFile, b, at, k)) && Carrying(nodes, b.shape, names, before, at, k)
    modifies nodes`id, nodes`parentId
    ensures p < 0 ==> Counts(counted, b, at, k + 1)
    ensures Carrying(nodes, b.shape, names, before, at, k + 1)
    decreases |b.shape| - p, 0, 0
  {
    var n := list[k];
    SiblingStep(digest, b, names, p, at, k, perFile);
    var place := k;
    counted := perFile;
    if parentId == "" {
      place := Counted(perFile, n.sourceFile);
      counted := perFile[n.sourceFile := place + 1];
    }
    WireNode(digest, n, parentId, place, nodes, b, names, at[k]);
  }

  /** Wire a list of siblings and everything below them. */
  method WireIdentity(digest: string -> UInt64, list: seq<ContextNode>, parentId: string, ghost nodes: seq<ContextNode>,
                      ghost b: Batch, ghost names: seq<Name>, ghost at: seq<nat>, ghost p: int)
    requires Holds(nodes, b) && Names(digest, b, names) && -1 <= p && Siblings(b, p, at) && list == Pick(nodes, at)
    requires parentId == if p < 0 then "" else names[p].id
    modifies nodes`id, nodes`parentId
    ensures forall i: nat | i < |nodes| && (old(Carries(nodes[i], names[i])) || Under(b.shape, at, i)) ::
              Carries(nodes[i], names[i])
    decreases |b.shape| - p, 0, 1
  {
    var perFile: map<string, nat> := map[];
    ghost var before := set i: nat | i < |nodes| && Carries(nodes[i], names[i]);
    for k := 0 to |list|
      invariant p < 0 ==> Counts(perFile, b, at, k)
      invariant Carrying(nodes, b.shape, names, before, at, k)
    {
      perFile := WireSibling(digest, list, parentId, k, perFile, nodes, b, names, at, p, before);
    }
    AllReached(b, before, at);
  }

  lemma {:induction false} EveryNodeIsUnderARoot(b: Batch, i: nat)
    requires Wellformed(b) && Complete(b) && i < |b.shape|
    ensures Under(b.shape, b.roots, i)
    decreases i
  {
    if Holder(b.shape, i) >= 0 {
      EveryNodeIsUnderARoot(b, Holder(b.shape, i));
    }
  }

  /** Wire a whole batch: each parent id is the enclosing node's id, and no id is used twice. */
  method WireBatch(digest: string -> UInt64, list: seq<ContextNode>, ghost nodes: seq<ContextNode>, ghost b: Batch)
    requires Holds(nodes, b) && Complete(b) && list == Pick(nodes, b.roots)
    modifies nodes`id, nodes`parentId
    ensures forall i: nat | i < |nodes| ::
              nodes[i].id == Id(digest, b, i) && nodes[i].parentId == ParentId(digest, b, i)
    ensures forall n | n in list :: n.parentId == ""
    ensures forall n, c | n in nodes && c in n.children :: c.parentId == n.id
    ensures KeepsApart(digest, b) ==> forall i, j | 0 <= i < j < |nodes| :: nodes[i].id != nodes[j].id
  {
    ghost var names := seq(|b.shape|, i requires 0 <= i < |b.shape| => Name(Id(digest, b, i), ParentId(digest, b, i)));
    assert Names(digest, b, names);
    WireIdentity(digest, list, "", nodes, b, names, b.roots, -1);
    forall i: nat | i < |nodes| ensures nodes[i].id == Id(digest, b, i) && nodes[i].parentId == ParentId(digest, b, i) {
      EveryNodeIsUnderARoot(b, i);
      assert Carries(nodes[i], names[i]) && Named(digest, b, names, i);
    }
    forall k: nat | k < |list| ensures list[k].parentId == "" {
      SiblingName(digest, b, names, -1, b.roots, k);
    }
    forall p: nat, k: nat | p < |nodes| && k < |nodes[p].children|
      ensures nodes[p].children[k].parentId == nodes[p].id
    {
      SiblingName(digest, b, names, p, b.shape[p], k);
    }
    if KeepsApart(digest, b) {
      forall i: nat, j: nat | i < j < |nodes| ensures nodes[i].id != nodes[j].id {
        if nodes[i].id == nodes[j].id {
          IdsAreDistinct(digest, b, i, j);
        }
      }
    }
  }
}
