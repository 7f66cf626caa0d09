/** What an id stands for: the file and the chain of enclosing nodes it was hashed from. */
module Lineages {
  import opened Ast
  import opened Graphs
  import opened ContentId
  import opened Transformer
  import opened Provenances
  import opened Wrappers
  import C = Compiles

  /** A tree is parsed from one file. */
  ghost predicate OneFilePerTree(b: Batch)
    requires Wellformed(b)
  {
    forall i: nat | i < |b.shape| && Holder(b.shape, i) >= 0 :: b.files[Holder(b.shape, i)] == b.files[i]
  }

  /** The batch of one document. */
  lemma DocumentIsOneFile(b: Batch, path: string)
    requires Wellformed(b) && forall i | 0 <= i < |b.files| :: b.files[i] == path
    ensures OneFilePerTree(b)
  {
  }

  /** Two batches as one, the second behind the first. */
  ghost function Join(a: Batch, b: Batch): Batch {
    Batch(Beside(a.shape, b.shape), a.roots + Shift(b.roots, |a.shape|), a.files + b.files)
  }

  lemma ChildInJoin(a: Batch, b: Batch, p: nat, i: nat)
    requires p < |a.shape| + |b.shape| && i in Join(a, b).shape[p]
    ensures if p < |a.shape| then i < |a.shape| && i in a.shape[p]
            else i >= |a.shape| && i - |a.shape| < |b.shape| && i - |a.shape| in b.shape[p - |a.shape|]
  {
    var k :| 0 <= k < |Join(a, b).shape[p]| && Join(a, b).shape[p][k] == i;
    if p < |a.shape| {
      assert Ascending(a.shape[p], p + 1, |a.shape|);
    } else {
      assert Ascending(b.shape[p - |a.shape|], p - |a.shape| + 1, |b.shape|);
      assert i == b.shape[p - |a.shape|][k] + |a.shape|;
    }
  }

  lemma RootInJoin(a: Batch, b: Batch, i: nat)
    requires Wellformed(a) && Wellformed(b) && i in Join(a, b).roots
    ensures if i < |a.shape| then i in a.roots else i - |a.shape| in b.roots
  {
    var k :| 0 <= k < |Join(a, b).roots| && Join(a, b).roots[k] == i;
    if k >= |a.roots| {
      assert i == b.roots[k - |a.roots|] + |a.shape|;
    }
  }

  /** Putting batches behind one another keeps each tree in one file, so a batch of parsed documents
      has one file per tree. */
  lemma JoinIsOneFilePerTree(a: Batch, b: Batch)
    requires Wellformed(a) && Wellformed(b) && OneFilePerTree(a) && OneFilePerTree(b)
    ensures Wellformed(Join(a, b)) && OneFilePerTree(Join(a, b))
  {
    JoinIsWellformed(a, b);
    var j := Join(a, b);
    forall i: nat | i < |j.shape| && Holder(j.shape, i) >= 0 ensures j.files[Holder(j.shape, i)] == j.files[i] {
      ChildIsInItsFile(a, b, Holder(j.shape, i), i);
    }
  }

  lemma ChildIsInItsFile(a: Batch, b: Batch, p: nat, i: nat)
    requires Wellformed(a) && Wellformed(b) && OneFilePerTree(a) && OneFilePerTree(b)
    requires p < |a.shape| + |b.shape| && i in Join(a, b).shape[p]
    ensures i < |a.shape| + |b.shape| && Join(a, b).files[p] == Join(a, b).files[i]
  {
    ChildInJoin(a, b, p, i);
    if p < |a.shape| {
      HeldInFile(a, p, i);
    } else {
      HeldInFile(b, p - |a.shape|, i - |a.shape|);
    }
  }

  lemma HeldInFile(b: Batch, p: nat, i: nat)
    requires Wellformed(b) && OneFilePerTree(b) && p < |b.shape| && i < |b.shape| && i in b.shape[p]
    ensures b.files[p] == b.files[i]
  {
    assert Holder(b.shape, i) == p;
  }

  lemma JoinIsWellformed(a: Batch, b: Batch)
    requires Wellformed(a) && Wellformed(b)
    ensures Wellformed(Join(a, b))
  {
    var j := Join(a, b);
    forall p: nat, q: nat, i | p < |j.shape| && q < |j.shape| && i in j.shape[p] && i in j.shape[q] ensures p == q {
      ChildInJoin(a, b, p, i);
      ChildInJoin(a, b, q, i);
    }
    forall p: nat, i | p < |j.shape| && i in j.shape[p] ensures i !in j.roots {
      ChildInJoin(a, b, p, i);
      if i in j.roots {
        RootInJoin(a, b, i);
      }
    }
    forall k, l | 0 <= k < l < |j.roots| ensures j.roots[k] != j.roots[l] {
      assert k < |a.roots| ==> j.roots[k] == a.roots[k] < |a.shape|;
      assert l >= |a.roots| ==> j.roots[l] == b.roots[l - |a.roots|] + |a.shape|;
    }
  }

  /** The digest keeps apart the inputs of the two batches. */
  ghost predicate KeepsBothApart(digest: string -> UInt64, a: Batch, b: Batch)
    requires Wellformed(a) && Wellformed(b)
  {
    forall i: nat, j: nat | i < |a.shape| && j < |b.shape| && InputOf(digest, a, i) != InputOf(digest, b, j) ::
      digest(InputOf(digest, a, i)) != digest(InputOf(digest, b, j))
  }

  /** Batches of whole files, and a digest with no collision among their nodes. */
  ghost predicate Fit(digest: string -> UInt64, bs: seq<Batch>) {
    && (forall b | b in bs :: Wellformed(b) && Complete(b) && OneFilePerTree(b))
    && forall a, b | a in bs && b in bs :: KeepsBothApart(digest, a, b)
  }

  /** The ids of the nodes around a node, nearest first. */
  ghost function Lineage(digest: string -> UInt64, b: Batch, i: nat): seq<string>
    requires Wellformed(b) && i < |b.shape|
    decreases i
  {
    var p := Holder(b.shape, i);
    if p < 0 then [] else [Id(digest, b, p)] + Lineage(digest, b, p)
  }

  /** The same id in two batches stands for the same file and the same enclosing ids. */
  lemma {:induction false} IdFixesLineage(digest: string -> UInt64, a: Batch, i: nat, b: Batch, j: nat)
    requires Wellformed(a) && Wellformed(b) && KeepsBothApart(digest, a, b)
    requires i < |a.shape| && j < |b.shape| && Id(digest, a, i) == Id(digest, b, j)
    ensures a.files[i] == b.files[j] && Lineage(digest, a, i) == Lineage(digest, b, j)
    decreases i
  {
    IdLosesNothing(digest(InputOf(digest, a, i)), digest(InputOf(digest, b, j)));
    InputIsInjective(a.files[i], ParentId(digest, a, i), Ordinal(a, i), b.files[j], ParentId(digest, b, j),
        Ordinal(b, j));
    if Holder(a.shape, i) >= 0 {
      IdFixesLineage(digest, a, Holder(a.shape, i), b, Holder(b.shape, j));
    }
  }

  lemma LineageTail(digest: string -> UInt64, b: Batch, i: nat, k: nat)
    requires Wellformed(b) && i < |b.shape| && k < |Lineage(digest, b, i)|
    ensures var p, all := Holder(b.shape, i), Lineage(digest, b, i);
      && p >= 0 && all[k + 1..] == Lineage(digest, b, p)[k..]
      && all[k] == if k == 0 then Id(digest, b, p) else Lineage(digest, b, p)[k - 1]
  {
    var p := Holder(b.shape, i);
    ConsTail(Id(digest, b, p), Lineage(digest, b, p), k);
  }

  lemma ConsTail(x: string, rest: seq<string>, k: nat)
    requires k <= |rest|
    ensures ([x] + rest)[k + 1..] == rest[k..]
    ensures ([x] + rest)[k] == if k == 0 then x else rest[k - 1]
  {
  }

  /** j stands k + 1 levels above i. */
  ghost predicate Above(digest: string -> UInt64, b: Batch, i: nat, k: nat, j: nat)
    requires Wellformed(b) && i < |b.shape| && k < |Lineage(digest, b, i)|
  {
    && j < |b.shape| && b.files[j] == b.files[i]
    && Lineage(digest, b, i)[k] == Id(digest, b, j)
    && Lineage(digest, b, i)[k + 1..] == Lineage(digest, b, j)
  }

  lemma AboveHolder(digest: string -> UInt64, b: Batch, i: nat)
    requires Wellformed(b) && OneFilePerTree(b) && i < |b.shape| && Lineage(digest, b, i) != []
    ensures Holder(b.shape, i) >= 0 && Above(digest, b, i, 0, Holder(b.shape, i))
  {
    LineageTail(digest, b, i, 0);
  }

  lemma AboveStep(digest: string -> UInt64, b: Batch, i: nat, k: nat, j: nat)
    requires Wellformed(b) && OneFilePerTree(b) && i < |b.shape| && 0 < k < |Lineage(digest, b, i)|
    requires Above(digest, b, Holder(b.shape, i), k - 1, j)
    ensures Above(digest, b, i, k, j)
  {
    LineageTail(digest, b, i, k);
  }

  /** The node k + 1 levels up. */
  lemma {:induction false} Ancestor(digest: string -> UInt64, b: Batch, i: nat, k: nat) returns (j: nat)
    requires Wellformed(b) && OneFilePerTree(b) && i < |b.shape| && k < |Lineage(digest, b, i)|
    ensures Above(digest, b, i, k, j)
    decreases i
  {
    AboveHolder(digest, b, i);
    j := Holder(b.shape, i);
    if k > 0 {
      j := Ancestor(digest, b, j, k - 1);
      AboveStep(digest, b, i, k, j);
    }
  }

  // ---- the identity the ids of some batches give ----

  /** A node of one of the batches. */
  datatype Place = Place(batch: nat, node: nat)

  ghost predicate Spells(digest: string -> UInt64, bs: seq<Batch>, at: Place, x: string) {
    && at.batch < |bs| && Wellformed(bs[at.batch]) && at.node < |bs[at.batch].shape|
    && Id(digest, bs[at.batch], at.node) == x
  }

  ghost function Find(digest: string -> UInt64, bs: seq<Batch>, x: string): (r: Option<Place>)
    ensures r.Some? ==> Spells(digest, bs, r.value, x)
    ensures r.None? ==> forall at :: !Spells(digest, bs, at, x)
  {
    if exists at :: Spells(digest, bs, at, x) then
      var at :| Spells(digest, bs, at, x);
      Some(at)
    else None
  }

  ghost function OriginOf(digest: string -> UInt64, bs: seq<Batch>, x: string): string {
    var at := Find(digest, bs, x);
    if at.None? then WRITTEN else bs[at.value.batch].files[at.value.node]
  }

  ghost function LineageOf(digest: string -> UInt64, bs: seq<Batch>, x: string): seq<string> {
    var at := Find(digest, bs, x);
    if at.None? then [] else Lineage(digest, bs[at.value.batch], at.value.node)
  }

  ghost function WhoOf(digest: string -> UInt64, bs: seq<Batch>): Identity {
    Identity(x => OriginOf(digest, bs, x), x => LineageOf(digest, bs, x))
  }

  lemma WhoIsRight(digest: string -> UInt64, bs: seq<Batch>, b: Batch, i: nat)
    requires Fit(digest, bs) && b in bs && i < |b.shape|
    ensures OriginOf(digest, bs, Id(digest, b, i)) == b.files[i]
    ensures LineageOf(digest, bs, Id(digest, b, i)) == Lineage(digest, b, i)
  {
    var k :| 0 <= k < |bs| && bs[k] == b;
    assert Spells(digest, bs, Place(k, i), Id(digest, b, i));
    var at := Find(digest, bs, Id(digest, b, i)).value;
    IdFixesLineage(digest, b, i, bs[at.batch], at.node);
  }

  /** The ids of any batches are coherent: an enclosing id stands for its own file and lineage. */
  lemma WhoIsCoherent(digest: string -> UInt64, bs: seq<Batch>)
    requires Fit(digest, bs)
    ensures Coherent(WhoOf(digest, bs))
  {
    var who := WhoOf(digest, bs);
    forall x, k | 0 <= k < |who.lineage(x)|
      ensures who.lineage(who.lineage(x)[k]) == who.lineage(x)[k + 1..]
      ensures who.origin(who.lineage(x)[k]) == who.origin(x)
    {
      var at := Find(digest, bs, x).value;
      var j := Ancestor(digest, bs[at.batch], at.node, k);
      WhoIsRight(digest, bs, bs[at.batch], j);
    }
  }

  // ---- the forest a batch compiles to ----

  /** The wired nodes of a batch in document order, as the rows they become. */
  ghost predicate IsFlatOf(flat: seq<C.FlatNode>, digest: string -> UInt64, b: Batch)
    requires Wellformed(b)
  {
    |flat| == |b.shape| && forall i: nat | i < |flat| :: IsRowOf(flat[i], digest, b, i)
  }

  ghost predicate IsRowOf(n: C.FlatNode, digest: string -> UInt64, b: Batch, i: nat)
    requires Wellformed(b) && i < |b.shape|
  {
    n.id == Id(digest, b, i) && n.node.parent == ParentId(digest, b, i) && n.node.sourceFile == b.files[i]
  }

  lemma FlatIsDistinct(digest: string -> UInt64, bs: seq<Batch>, b: Batch, flat: seq<C.FlatNode>)
    requires Fit(digest, bs) && b in bs && IsFlatOf(flat, digest, b)
    ensures C.DistinctIds(flat)
  {
    assert KeepsBothApart(digest, b, b);
    forall i, j | 0 <= i < j < |flat| ensures flat[i].id != flat[j].id {
      assert IsRowOf(flat[i], digest, b, i) && IsRowOf(flat[j], digest, b, j);
      if Id(digest, b, i) == Id(digest, b, j) {
        IdsAreDistinct(digest, b, i, j);
      }
    }
  }

  lemma FlatIsParentsFirst(digest: string -> UInt64, b: Batch, flat: seq<C.FlatNode>)
    requires Wellformed(b) && IsFlatOf(flat, digest, b)
    ensures C.ParentsFirst(flat)
  {
    forall i | 0 <= i < |flat| && flat[i].node.parent != "" ensures flat[i].node.parent in C.Ids(flat[..i]) {
      assert IsRowOf(flat[i], digest, b, i);
      var p := Holder(b.shape, i);
      assert IsRowOf(flat[p], digest, b, p);
      assert flat[..i][p] in flat[..i];
    }
  }

  /** A row's file and parent are those its id was hashed from. */
  lemma RowIsWired(digest: string -> UInt64, bs: seq<Batch>, b: Batch, flat: seq<C.FlatNode>, i: nat)
    requires Fit(digest, bs) && b in bs && IsFlatOf(flat, digest, b) && i < |flat|
    ensures flat[i].node.sourceFile == OriginOf(digest, bs, flat[i].id)
    ensures var above := LineageOf(digest, bs, flat[i].id);
      if flat[i].node.parent == "" then above == []
      else above != [] && above[0] == flat[i].node.parent && flat[i].node.parent in C.Ids(flat)
  {
    assert IsRowOf(flat[i], digest, b, i);
    WhoIsRight(digest, bs, b, i);
    var p := Holder(b.shape, i);
    if p >= 0 {
      assert IsRowOf(flat[p], digest, b, p) && flat[p] in flat;
    }
  }

  /** Every forest compiled from a batch is wired, has distinct ids, and lists parents first. */
  lemma BatchIsWired(digest: string -> UInt64, bs: seq<Batch>, b: Batch, flat: seq<C.FlatNode>)
    requires Fit(digest, bs) && b in bs && IsFlatOf(flat, digest, b)
    ensures C.DistinctIds(flat) && C.ParentsFirst(flat)
    ensures Wired(C.Tree(flat), WhoOf(digest, bs))
  {
    FlatIsDistinct(digest, bs, b, flat);
    FlatIsParentsFirst(digest, b, flat);
    C.TreeHolds(flat);
    forall i: nat | i < |flat| ensures NodeIsWired(C.Tree(flat), WhoOf(digest, bs), flat[i].id) {
      RowIsWired(digest, bs, b, flat, i);
    }
    assert forall x | x in C.Tree(flat) :: NodeIsWired(C.Tree(flat), WhoOf(digest, bs), x);
  }
}
