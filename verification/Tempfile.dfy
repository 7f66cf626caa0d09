/** The temperature-seed trie: built from a JSON object in whatever order its map iterates. */
module Tempfile {
  import opened TempKeys
  import opened Wrappers

  datatype Json = Num(value: real) | Obj(members: map<string, Json>) | Other

  /** A trie node; no children stands for both the nil and the empty children map. */
  datatype Entry = Entry(temp: Option<real>, children: map<string, Entry>)

  const EMPTY: Entry := Entry(None, map[])

  predicate TempConflict(dst: Entry, src: Entry) {
    if dst.temp.Some? then src.temp.Some? || src.children != map[]
    else src.temp.Some? && dst.children != map[]
  }

  function Merge(dst: Entry, src: Entry): Option<Entry> {
    if TempConflict(dst, src) then None
    else if src.temp.Some? then Some(dst.(temp := src.temp))
    else if exists k | k in src.children && k in dst.children :: Merge(dst.children[k], src.children[k]).None? then None
    else
      Some(dst.(children := map k | k in dst.children.Keys + src.children.Keys ::
        if k !in src.children then dst.children[k]
        else if k !in dst.children then src.children[k]
        else Merge(dst.children[k], src.children[k]).value))
  }

  /** A seeded node has no children, anywhere in the trie. */
  ghost predicate Clean(e: Entry) {
    && (e.temp.Some? ==> e.children == map[])
    && forall k | k in e.children :: Clean(e.children[k])
  }

  lemma {:induction false} MergeIsClean(a: Entry, b: Entry)
    requires Clean(a) && Clean(b) && Merge(a, b).Some?
    ensures Clean(Merge(a, b).value)
  {
    forall k | k in a.children && k in b.children && Merge(a.children[k], b.children[k]).Some?
      ensures Clean(Merge(a.children[k], b.children[k]).value)
    {
      MergeIsClean(a.children[k], b.children[k]);
    }
  }

  predicate FailsAt(a: map<string, Entry>, b: map<string, Entry>, k: string) {
    k in a && k in b && Merge(a[k], b[k]).None?
  }

  predicate Clash(a: map<string, Entry>, b: map<string, Entry>) {
    exists k | k in a :: FailsAt(a, b, k)
  }

  function Union(a: map<string, Entry>, b: map<string, Entry>): map<string, Entry>
    requires !Clash(a, b)
  {
    assert forall k | k in a && k in b :: !FailsAt(a, b, k);
    map k | k in a.Keys + b.Keys ::
      if k !in b then a[k] else if k !in a then b[k] else Merge(a[k], b[k]).value
  }

  /** Merging clean entries case by case: seeds only meet the empty entry. */
  lemma MergeCases(a: Entry, b: Entry)
    requires Clean(a) && Clean(b)
    ensures a == EMPTY ==> Merge(a, b) == Some(b)
    ensures b == EMPTY ==> Merge(a, b) == Some(a)
    ensures a != EMPTY && b != EMPTY && (a.temp.Some? || b.temp.Some?) ==> Merge(a, b) == None
    ensures a.temp.None? && b.temp.None? ==>
      Merge(a, b) == if Clash(a.children, b.children) then None else Some(Entry(None, Union(a.children, b.children)))
  {
    assert forall k | k in a.children && k in b.children ::
        Merge(a.children[k], b.children[k]).None? <==> FailsAt(a.children, b.children, k);
    if a.temp.None? && b.temp.None? && !Clash(a.children, b.children) {
      assert Merge(a, b).value.children == Union(a.children, b.children);
    }
    if a == EMPTY && b.temp.None? {
      assert Union(a.children, b.children) == b.children;
    }
    if b == EMPTY && a.temp.None? {
      assert Union(a.children, b.children) == a.children;
    }
    if b == EMPTY && a.temp.Some? {
      assert Merge(a, b).value.children == map[];
    }
  }

  lemma {:induction false} MergeCommutes(a: Entry, b: Entry)
    requires Clean(a) && Clean(b)
    ensures Merge(a, b) == Merge(b, a)
  {
    MergeCases(a, b);
    MergeCases(b, a);
    forall k | k in a.children && k in b.children
      ensures Merge(a.children[k], b.children[k]) == Merge(b.children[k], a.children[k])
    {
      MergeCommutes(a.children[k], b.children[k]);
    }
    assert forall k :: FailsAt(a.children, b.children, k) <==> FailsAt(b.children, a.children, k);
    if a.temp.None? && b.temp.None? && !Clash(a.children, b.children) {
      assert Union(a.children, b.children) == Union(b.children, a.children);
    }
  }

  /** Merge with failures carried along. */
  function Combine(a: Option<Entry>, b: Option<Entry>): Option<Entry> {
    if a.Some? && b.Some? then Merge(a.value, b.value) else None
  }

  lemma {:induction false} MergeAssociates(a: Entry, b: Entry, c: Entry)
    requires Clean(a) && Clean(b) && Clean(c)
    ensures Combine(Merge(a, b), Some(c)) == Combine(Some(a), Merge(b, c))
  {
    MergeCases(a, b);
    MergeCases(b, c);
    if Merge(a, b).Some? {
      MergeIsClean(a, b);
      MergeCases(Merge(a, b).value, c);
    }
    if Merge(b, c).Some? {
      MergeIsClean(b, c);
      MergeCases(a, Merge(b, c).value);
    }
    if a.temp.None? && b.temp.None? && c.temp.None? {
      forall k | k in a.children && k in b.children && k in c.children
        ensures AssociatesAt(a.children, b.children, c.children, k)
      {
        MergeAssociates(a.children[k], b.children[k], c.children[k]);
      }
      ClashAssociates(a.children, b.children, c.children);
      if Combine(Merge(a, b), Some(c)).Some? {
        UnionAssociates(a.children, b.children, c.children);
      }
    }
  }

  ghost predicate AssociatesAt(a: map<string, Entry>, b: map<string, Entry>, c: map<string, Entry>, k: string)
    requires k in a && k in b && k in c
  {
    Combine(Merge(a[k], b[k]), Some(c[k])) == Combine(Some(a[k]), Merge(b[k], c[k]))
  }

  lemma ClashAssociates(a: map<string, Entry>, b: map<string, Entry>, c: map<string, Entry>)
    requires forall k | k in a && k in b && k in c :: AssociatesAt(a, b, c, k)
    ensures (Clash(a, b) || Clash(Union(a, b), c)) <==> (Clash(b, c) || Clash(a, Union(b, c)))
  {
    if Clash(a, b) && !Clash(b, c) {
      var k :| k in a && FailsAt(a, b, k);
      assert k in c ==> AssociatesAt(a, b, c, k);
      assert FailsAt(a, Union(b, c), k);
    }
    if Clash(b, c) && !Clash(a, b) {
      var k :| k in b && FailsAt(b, c, k);
      assert k in a ==> AssociatesAt(a, b, c, k);
      assert FailsAt(Union(a, b), c, k);
    }
    if !Clash(a, b) && !Clash(b, c) {
      forall k ensures FailsAt(Union(a, b), c, k) <==> FailsAt(a, Union(b, c), k) {
      }
    }
  }

  lemma UnionAssociates(a: map<string, Entry>, b: map<string, Entry>, c: map<string, Entry>)
    requires forall k | k in a && k in b && k in c :: AssociatesAt(a, b, c, k)
    requires !Clash(a, b) && !Clash(b, c)
    requires !Clash(Union(a, b), c) && !Clash(a, Union(b, c))
    ensures Union(Union(a, b), c) == Union(a, Union(b, c))
  {
    var ab, bc := Union(a, b), Union(b, c);
    var l, r := Union(ab, c), Union(a, bc);
    assert l.Keys == r.Keys;
    forall k | k in l ensures l[k] == r[k] {
    }
  }

  // ---- the meaning of an object, with no order in it ----

  function Graft(path: seq<string>, leaf: Entry): Entry {
    if path == [] then leaf else Entry(None, map[path[0] := Graft(path[1..], leaf)])
  }

  function Part(key: string, leaf: Option<Entry>): Option<Entry> {
    if leaf.None? || PathOf(key).None? then None else Some(Graft(PathOf(key).value, leaf.value))
  }

  /** All parts merged; which part goes last is left open. */
  ghost function MergeAll(parts: map<string, Option<Entry>>): Option<Entry> {
    if parts == map[] then Some(EMPTY)
    else
      var k :| k in parts;
      Combine(MergeAll(parts - {k}), parts[k])
  }

  ghost function ParseValue(j: Json): Option<Entry> {
    match j
    case Num(t) => if 0.0 <= t <= 1.0 then Some(Entry(Some(t), map[])) else None
    case Obj(m) => MergeAll(map k | k in m :: Part(k, ParseValue(m[k])))
    case Other => None
  }

  ghost predicate CleanOption(e: Option<Entry>) {
    e.Some? ==> Clean(e.value)
  }

  ghost predicate CleanParts(parts: map<string, Option<Entry>>) {
    forall k | k in parts :: CleanOption(parts[k])
  }

  lemma CombineLaws(a: Option<Entry>, b: Option<Entry>, c: Option<Entry>)
    requires CleanOption(a) && CleanOption(b) && CleanOption(c)
    ensures CleanOption(Combine(a, b))
    ensures Combine(a, b) == Combine(b, a)
    ensures Combine(Combine(a, b), c) == Combine(a, Combine(b, c))
    ensures Combine(a, Some(EMPTY)) == a
  {
    if a.Some? {
      MergeCases(a.value, EMPTY);
    }
    if a.Some? && b.Some? {
      MergeCommutes(a.value, b.value);
      if Merge(a.value, b.value).Some? {
        MergeIsClean(a.value, b.value);
      }
      if c.Some? {
        MergeAssociates(a.value, b.value, c.value);
      }
    }
  }

  lemma {:induction false} MergeAllIsClean(parts: map<string, Option<Entry>>)
    requires CleanParts(parts)
    ensures CleanOption(MergeAll(parts))
  {
    if parts != map[] {
      var k :| k in parts && MergeAll(parts) == Combine(MergeAll(parts - {k}), parts[k]);
      MergeAllIsClean(parts - {k});
      CombineLaws(MergeAll(parts - {k}), parts[k], None);
    }
  }

  /** Any part can be the one merged last: iteration order does not matter. */
  lemma {:induction false} AnyPartLast(parts: map<string, Option<Entry>>, k: string)
    requires CleanParts(parts) && k in parts
    ensures MergeAll(parts) == Combine(MergeAll(parts - {k}), parts[k])
    decreases |parts|
  {
    var j :| j in parts && MergeAll(parts) == Combine(MergeAll(parts - {j}), parts[j]);
    if j != k {
      var rest := parts - {j} - {k};
      assert parts - {k} - {j} == rest;
      assert (parts - {j}).Keys == parts.Keys - {j} && (parts - {k}).Keys == parts.Keys - {k};
      AnyPartLast(parts - {j}, k);
      AnyPartLast(parts - {k}, j);
      MergeAllIsClean(rest);
      CombineLaws(MergeAll(rest), parts[k], parts[j]);
      CombineLaws(MergeAll(rest), parts[j], parts[k]);
      CombineLaws(parts[j], parts[k], None);
    }
  }

  lemma {:induction false} GraftIsClean(path: seq<string>, leaf: Entry)
    requires Clean(leaf)
    ensures Clean(Graft(path, leaf))
  {
    if path != [] {
      GraftIsClean(path[1..], leaf);
    }
  }

  ghost function PartsOf(m: map<string, Json>): map<string, Option<Entry>> {
    map k | k in m :: Part(k, ParseValue(m[k]))
  }

  lemma {:induction false} ParsedIsClean(j: Json)
    ensures CleanOption(ParseValue(j))
  {
    if j.Obj? {
      var parts := PartsOf(j.members);
      forall k | k in parts ensures CleanOption(parts[k]) {
        ParsedIsClean(j.members[k]);
        if parts[k].Some? {
          GraftIsClean(PathOf(k).value, ParseValue(j.members[k]).value);
        }
      }
      MergeAllIsClean(parts);
    }
  }

  // ---- the code, in its arbitrary order ----

  /** The children merged so far: all but those still to do. */
  ghost predicate MergedUpTo(merged: map<string, Entry>, dst: map<string, Entry>, src: map<string, Entry>,
                             todo: set<string>) {
    && todo <= src.Keys && merged.Keys == dst.Keys + (src.Keys - todo)
    && forall k | k in merged ::
         if k !in src || k in todo then k in dst && merged[k] == dst[k]
         else if k !in dst then merged[k] == src[k]
         else Merge(dst[k], src[k]) == Some(merged[k])
  }

  lemma MergedAll(dst: Entry, src: Entry, merged: map<string, Entry>)
    requires !TempConflict(dst, src) && src.temp.None? && MergedUpTo(merged, dst.children, src.children, {})
    ensures Merge(dst, src) == Some(dst.(children := merged))
  {
    assert forall k | k in src.children && k in dst.children :: k in merged;
    assert merged == Merge(dst, src).value.children;
  }

  method MergeEntry(dst: Entry, src: Entry) returns (r: Option<Entry>)
    ensures r == Merge(dst, src)
    decreases src
  {
    if TempConflict(dst, src) {
      return None;
    }
    if src.temp.Some? {
      return Some(dst.(temp := src.temp));
    }
    var merged := dst.children;
    var todo := src.children.Keys;
    while todo != {}
      invariant MergedUpTo(merged, dst.children, src.children, todo)
    {
      var k :| k in todo;
      todo := todo - {k};
      if k !in dst.children {
        merged := merged[k := src.children[k]];
        continue;
      }
      var m := MergeEntry(dst.children[k], src.children[k]);
      if m.None? {
        return None;
      }
      merged := merged[k := m.value];
    }
    MergedAll(dst, src, merged);
    r := Some(dst.(children := merged));
  }

  /** Graft a leaf at path below curr, one segment at a time. */
  method InsertPath(curr: Entry, leaf: Entry, path: seq<string>) returns (r: Option<Entry>)
    requires path != [] && curr.temp.None? && Clean(curr) && Clean(leaf)
    ensures r == Merge(curr, Graft(path, leaf))
    decreases |path|
  {
    var seg := path[0];
    GraftIsClean(path[1..], leaf);
    MergeOneChild(curr, seg, Graft(path[1..], leaf));
    if |path| == 1 {
      assert path[1..] == [];
      if seg !in curr.children {
        return Some(curr.(children := curr.children[seg := leaf]));
      }
      var m := MergeEntry(curr.children[seg], leaf);
      if m.None? {
        return None;
      }
      return Some(curr.(children := curr.children[seg := m.value]));
    }
    var next := if seg in curr.children then curr.children[seg] else EMPTY;
    assert path[1] in Graft(path[1..], leaf).children;
    if next.temp.Some? {
      return None;
    }
    var below := InsertPath(next, leaf, path[1..]);
    MergeCases(EMPTY, Graft(path[1..], leaf));
    if below.None? {
      return None;
    }
    return Some(curr.(children := curr.children[seg := below.value]));
  }

  lemma MergeOneChild(curr: Entry, seg: string, child: Entry)
    requires curr.temp.None? && Clean(curr) && Clean(child)
    ensures Merge(curr, Entry(None, map[seg := child])) ==
            if seg !in curr.children then Some(curr.(children := curr.children[seg := child]))
            else if Merge(curr.children[seg], child).None? then None
            else Some(curr.(children := curr.children[seg := Merge(curr.children[seg], child).value]))
  {
    MergeCases(curr, Entry(None, map[seg := child]));
    UnionOne(curr.children, seg, child);
  }

  lemma UnionOne(m: map<string, Entry>, seg: string, child: Entry)
    ensures Clash(m, map[seg := child]) <==> seg in m && Merge(m[seg], child).None?
    ensures !Clash(m, map[seg := child]) ==>
      Union(m, map[seg := child]) == m[seg := if seg in m then Merge(m[seg], child).value else child]
  {
    var one := map[seg := child];
    assert Clash(m, one) <==> FailsAt(m, one, seg);
    if !Clash(m, one) {
      assert Union(m, one).Keys == m.Keys + {seg};
    }
  }

  /** Load an object, taking its keys in any order at all: both whether it succeeds and the
      trie it yields are those of the order-free meaning. */
  method BuildEntry(raw: map<string, Json>) returns (r: Option<Entry>)
    ensures r == ParseValue(Obj(raw))
    decreases Obj(raw), 0
  {
    ghost var parts := PartsOf(raw);
    PartsAreClean(raw);
    var root, todo := EMPTY, raw.Keys;
    ghost var rest := parts;
    while todo != {}
      invariant todo == rest.Keys && todo <= raw.Keys && PartsWithin(rest, raw)
      invariant Clean(root) && root.temp.None?
      invariant Combine(Some(root), MergeAll(rest)) == ParseValue(Obj(raw))
    {
      var k :| k in todo;
      todo := todo - {k};
      NextPart(raw, rest, root, k);
      rest := rest - {k};
      var leaf := ParseJson(raw[k]);
      if leaf.None? || PathOf(k).None? {
        return None;
      }
      ParsedIsClean(raw[k]);
      var grown := InsertPath(root, leaf.value, PathOf(k).value);
      if grown.None? {
        return None;
      }
      root := grown.value;
    }
    CombineLaws(Some(root), Some(EMPTY), None);
    assert rest == map[];
    r := Some(root);
  }

  ghost predicate PartsWithin(rest: map<string, Option<Entry>>, raw: map<string, Json>) {
    forall k | k in rest :: k in raw && rest[k] == Part(k, ParseValue(raw[k]))
  }

  /** One step of the load: the key taken is merged into the root and leaves the rest. */
  lemma NextPart(raw: map<string, Json>, rest: map<string, Option<Entry>>, root: Entry, k: string)
    requires PartsWithin(rest, raw) && k in rest && Clean(root) && root.temp.None?
    ensures PartsWithin(rest - {k}, raw)
    ensures var step := Combine(Some(root), Part(k, ParseValue(raw[k])));
      && Combine(step, MergeAll(rest - {k})) == Combine(Some(root), MergeAll(rest))
      && (step.Some? ==> Clean(step.value) && step.value.temp.None?)
  {
    var parts := PartsOf(raw);
    PartsAreClean(raw);
    assert forall j | j in rest :: j in parts && rest[j] == parts[j];
    RestIsClean(parts, rest, k);
    CombineLaws(Some(root), parts[k], MergeAll(rest - {k}));
    CombineLaws(parts[k], MergeAll(rest - {k}), None);
    if parts[k].Some? {
      MergeCases(root, parts[k].value);
    }
  }

  lemma PartsAreClean(raw: map<string, Json>)
    ensures var parts := PartsOf(raw);
      && CleanParts(parts) && CleanOption(MergeAll(parts)) && ParseValue(Obj(raw)) == MergeAll(parts)
      && Combine(Some(EMPTY), MergeAll(parts)) == MergeAll(parts)
  {
    var parts := PartsOf(raw);
    forall k | k in parts ensures CleanOption(parts[k]) {
      ParsedIsClean(raw[k]);
      if parts[k].Some? {
        GraftIsClean(PathOf(k).value, ParseValue(raw[k]).value);
      }
    }
    MergeAllIsClean(parts);
    CombineLaws(MergeAll(parts), Some(EMPTY), None);
  }

  lemma RestIsClean(parts: map<string, Option<Entry>>, rest: map<string, Option<Entry>>, k: string)
    requires CleanParts(parts) && k in rest && forall j | j in rest :: j in parts && rest[j] == parts[j]
    ensures CleanOption(parts[k]) && CleanOption(MergeAll(rest - {k})) && CleanOption(MergeAll(rest))
    ensures MergeAll(rest) == Combine(MergeAll(rest - {k}), parts[k])
  {
    AnyPartLast(rest, k);
    MergeAllIsClean(rest);
    MergeAllIsClean(rest - {k});
  }

  method ParseJson(j: Json) returns (r: Option<Entry>)
    ensures r == ParseValue(j)
    decreases j, 1
  {
    match j
    case Num(t) =>
      if t < 0.0 || t > 1.0 {
        return None;
      }
      return Some(Entry(Some(t), map[]));
    case Obj(m) =>
      r := BuildEntry(m);
    case Other =>
      return None;
  }

  // ---- resolving ----

  /** The walk down from e: the first seeded node on the path, else the deepest '*' passed. */
  function Walk(e: Entry, path: seq<string>, fallback: Option<real>): Option<real> {
    if path == [] then fallback
    else
      var star := if "*" in e.children && e.children["*"].temp.Some? then e.children["*"].temp else fallback;
      if path[0] !in e.children then star
      else if e.children[path[0]].temp.Some? then e.children[path[0]].temp
      else Walk(e.children[path[0]], path[1..], star)
  }

  method Resolve(root: Entry, relPath: string) returns (r: Option<real>)
    ensures r == Walk(root, Split(relPath), None)
  {
    var path := Split(relPath);
    var curr := root;
    var fallback: Option<real> := None;
    for i := 0 to |path|
      invariant Walk(curr, path[i..], fallback) == Walk(root, path, None)
    {
      assert path[i..][0] == path[i] && path[i..][1..] == path[i + 1..];
      if "*" in curr.children && curr.children["*"].temp.Some? {
        fallback := curr.children["*"].temp;
      }
      if path[i] !in curr.children {
        return fallback;
      }
      var child := curr.children[path[i]];
      if child.temp.Some? {
        return child.temp;
      }
      curr := child;
    }
    return fallback;
  }

  /** Walking path from e passes only unseeded nodes and ends at a node seeded t. */
  ghost predicate LeafAt(e: Entry, path: seq<string>, t: real) {
    if path == [] then e.temp == Some(t)
    else e.temp.None? && path[0] in e.children && LeafAt(e.children[path[0]], path[1..], t)
  }

  /** The file sets path to t: some chain of keys, slashed or nested, spells path down to t. */
  ghost predicate Assigns(j: Json, path: seq<string>, t: real) {
    match j
    case Num(n) => path == [] && n == t
    case Obj(m) =>
      exists k | k in m :: PathOf(k).Some? && PathOf(k).value <= path && Assigns(m[k], path[|PathOf(k).value|..], t)
    case Other => false
  }

  lemma {:induction false} MergeKeepsLeaves(a: Entry, b: Entry, path: seq<string>, t: real)
    requires Clean(a) && Clean(b) && Merge(a, b).Some?
    ensures LeafAt(Merge(a, b).value, path, t) <==> LeafAt(a, path, t) || LeafAt(b, path, t)
    decreases |path|
  {
    MergeCases(a, b);
    if path != [] && a.temp.None? && b.temp.None? && path[0] in a.children && path[0] in b.children {
      MergeKeepsLeaves(a.children[path[0]], b.children[path[0]], path[1..], t);
    }
  }

  lemma {:induction false} GraftLeaves(at: seq<string>, leaf: Entry, path: seq<string>, t: real)
    ensures LeafAt(Graft(at, leaf), path, t) <==> at <= path && LeafAt(leaf, path[|at|..], t)
    decreases |at|
  {
    if at != [] && path != [] {
      GraftLeaves(at[1..], leaf, path[1..], t);
      if at[0] == path[0] {
        assert at == [at[0]] + at[1..] && path == [path[0]] + path[1..];
        assert at[1..] <= path[1..] ==> path[1..][|at[1..]|..] == path[|at|..];
        assert at <= path ==> at[1..] <= path[1..];
      }
    }
  }

  /** The leaves of a merge are the leaves of its parts. */
  lemma {:induction false} MergeAllLeaves(parts: map<string, Option<Entry>>, path: seq<string>, t: real)
    requires CleanParts(parts) && MergeAll(parts).Some?
    ensures forall k | k in parts :: parts[k].Some?
    ensures LeafAt(MergeAll(parts).value, path, t) <==> exists k | k in parts :: LeafIn(parts, k, path, t)
  {
    if parts != map[] {
      var k :| k in parts;
      var rest := parts - {k};
      AnyPartLast(parts, k);
      MergeAllIsClean(rest);
      MergeAllLeaves(rest, path, t);
      forall j | j in parts && j != k
        ensures j in rest && parts[j].Some? && (LeafIn(rest, j, path, t) <==> LeafIn(parts, j, path, t))
      {
        assert j in rest && rest[j] == parts[j];
      }
      MergeKeepsLeaves(MergeAll(rest).value, parts[k].value, path, t);
      if LeafAt(MergeAll(parts).value, path, t) && !LeafIn(parts, k, path, t) {
        var j :| j in rest && LeafIn(rest, j, path, t);
        assert j in parts && LeafIn(parts, j, path, t);
      }
    }
  }

  ghost predicate LeafIn(parts: map<string, Option<Entry>>, k: string, path: seq<string>, t: real)
    requires k in parts
  {
    parts[k].Some? && LeafAt(parts[k].value, path, t)
  }

  lemma PartLeaves(key: string, j: Json, path: seq<string>, t: real)
    requires PathOf(key).Some? && ParseValue(j).Some?
    ensures LeafAt(Part(key, ParseValue(j)).value, path, t) <==>
            PathOf(key).value <= path && LeafAt(ParseValue(j).value, path[|PathOf(key).value|..], t)
  {
    GraftLeaves(PathOf(key).value, ParseValue(j).value, path, t);
  }

  /** The seeded nodes of a loaded trie are exactly the assignments the file spells. */
  lemma {:induction false} LeavesAreAssignments(j: Json, path: seq<string>, t: real)
    requires ParseValue(j).Some?
    ensures LeafAt(ParseValue(j).value, path, t) <==> Assigns(j, path, t)
    decreases j
  {
    if j.Obj? {
      var m, parts := j.members, PartsOf(j.members);
      PartsAreClean(m);
      MergeAllLeaves(parts, path, t);
      forall k | k in m ensures LeafIn(parts, k, path, t) <==> AssignsVia(m, k, path, t) {
        assert parts[k].Some?;
        PartLeaves(k, m[k], path, t);
        if PathOf(k).value <= path {
          LeavesAreAssignments(m[k], path[|PathOf(k).value|..], t);
        }
      }
      assert Assigns(j, path, t) <==> exists k | k in m :: AssignsVia(m, k, path, t);
    }
  }

  ghost predicate AssignsVia(m: map<string, Json>, k: string, path: seq<string>, t: real)
    requires k in m
  {
    PathOf(k).Some? && PathOf(k).value <= path && Assigns(m[k], path[|PathOf(k).value|..], t)
  }

  /** A seed answers for its own path and everything below it. */
  lemma {:induction false} SeedCoversSubtree(e: Entry, at: seq<string>, below: seq<string>, t: real,
                                             fallback: Option<real>)
    requires at != [] && LeafAt(e, at, t)
    ensures Walk(e, at + below, fallback) == Some(t)
    decreases |at|
  {
    assert (at + below)[1..] == at[1..] + below;
    var child := e.children[at[0]];
    if |at| > 1 {
      SeedCoversSubtree(child, at[1..], below, t,
        if "*" in e.children && e.children["*"].temp.Some? then e.children["*"].temp else fallback);
    }
  }

  lemma KeyAssigns(m: map<string, Json>, key: string, t: real)
    requires key in m && m[key] == Num(t) && PathOf(key).Some?
    ensures Assigns(Obj(m), PathOf(key).value, t)
  {
    var path := PathOf(key).value;
    assert path[|path|..] == [] && Assigns(m[key], path[|path|..], t);
  }

  lemma LeafAnswers(e: Entry, path: seq<string>, rel: seq<string>, t: real)
    requires path != [] && path <= rel && LeafAt(e, path, t)
    ensures Walk(e, rel, None) == Some(t)
  {
    assert path + rel[|path|..] == rel;
    SeedCoversSubtree(e, path, rel[|path|..], t, None);
  }

  /** Whatever else the file holds, the seed under a key answers for the path the key spells and for
      every path below it. */
  lemma KeySeedsSubtree(m: map<string, Json>, key: string, t: real, rel: string)
    requires ParseValue(Obj(m)).Some? && key in m && m[key] == Num(t) && PathOf(key).Some?
    requires rel == Joined(PathOf(key).value) || Joined(PathOf(key).value) + "/" <= rel
    ensures Walk(ParseValue(Obj(m)).value, Split(rel), None) == Some(t)
  {
    var path := PathOf(key).value;
    PathsSpellKeys(key, path);
    SplitOfJoined(path, rel);
    KeyAssigns(m, key, t);
    LeavesAreAssignments(Obj(m), path, t);
    LeafAnswers(ParseValue(Obj(m)).value, path, Split(rel), t);
  }

  ghost predicate NoLeafOn(e: Entry, path: seq<string>) {
    forall k, t | 0 < k <= |path| :: !LeafAt(e, path[..k], t)
  }

  ghost predicate NoWildcardFrom(e: Entry, path: seq<string>, from: nat) {
    forall k, t | from <= k < |path| :: !LeafAt(e, path[..k] + ["*"], t)
  }

  /** Below an unseeded node on the path, both conditions carry over to the rest of the path. */
  lemma StepDown(e: Entry, path: seq<string>, from: nat)
    requires e.temp.None? && path != [] && path[0] in e.children && NoLeafOn(e, path)
    ensures e.children[path[0]].temp.None?
    ensures NoLeafOn(e.children[path[0]], path[1..])
    ensures NoWildcardFrom(e, path, from + 1) ==> NoWildcardFrom(e.children[path[0]], path[1..], from)
  {
    var child := e.children[path[0]];
    if child.temp.Some? {
      assert LeafAt(e, path[..1], child.temp.value);
    }
    forall k, t | 0 < k <= |path[1..]| ensures !LeafAt(child, path[1..][..k], t) {
      assert path[..k + 1][1..] == path[1..][..k];
      assert !LeafAt(e, path[..k + 1], t);
    }
    if NoWildcardFrom(e, path, from + 1) {
      forall k, t | from <= k < |path[1..]| ensures !LeafAt(child, path[1..][..k] + ["*"], t) {
        assert (path[..k + 1] + ["*"])[1..] == path[1..][..k] + ["*"];
        assert !LeafAt(e, path[..k + 1] + ["*"], t);
      }
    }
  }

  lemma {:induction false} NoWildcardFallsBack(e: Entry, path: seq<string>, fallback: Option<real>)
    requires e.temp.None? && NoLeafOn(e, path) && NoWildcardFrom(e, path, 0)
    ensures Walk(e, path, fallback) == fallback
    decreases |path|
  {
    if path != [] {
      if "*" in e.children && e.children["*"].temp.Some? {
        assert path[..0] + ["*"] == ["*"] && ["*"][1..] == [];
        assert LeafAt(e, path[..0] + ["*"], e.children["*"].temp.value);
      }
      if path[0] in e.children {
        StepDown(e, path, 0);
        NoWildcardFallsBack(e.children[path[0]], path[1..], fallback);
      }
    }
  }

  /** With no seed on the path itself, the deepest wildcard beside it answers. */
  lemma {:induction false} DeepestWildcardAnswers(e: Entry, path: seq<string>, k: nat, t: real, fallback: Option<real>)
    requires e.temp.None? && NoLeafOn(e, path)
    requires k < |path| && LeafAt(e, path[..k] + ["*"], t) && NoWildcardFrom(e, path, k + 1)
    ensures Walk(e, path, fallback) == Some(t)
    decreases |path|
  {
    var star := if "*" in e.children && e.children["*"].temp.Some? then e.children["*"].temp else fallback;
    if k == 0 {
      assert path[..0] + ["*"] == ["*"] && ["*"][1..] == [];
      if path[0] in e.children {
        StepDown(e, path, 0);
        NoWildcardFallsBack(e.children[path[0]], path[1..], star);
      }
    } else {
      assert (path[..k] + ["*"])[1..] == path[1..][..k - 1] + ["*"];
      StepDown(e, path, k);
      DeepestWildcardAnswers(e.children[path[0]], path[1..], k - 1, t, star);
    }
  }

  // ---- slashes and nesting ----

  lemma {:induction false} GraftSplits(p: seq<string>, q: seq<string>, leaf: Entry)
    ensures Graft(p + q, leaf) == Graft(p, Graft(q, leaf))
    decreases |p|
  {
    if p == [] {
      assert p + q == q;
    } else {
      assert (p + q)[1..] == p[1..] + q;
      GraftSplits(p[1..], q, leaf);
    }
  }

  lemma WithoutLast(rest: map<string, Json>, key: string, v: Json)
    requires key !in rest
    ensures PartsOf(rest[key := v]) - {key} == PartsOf(rest)
  {
  }

  lemma OneMoreMember(m: map<string, Json>, key: string, v: Json)
    requires key !in m
    ensures ParseValue(Obj(m[key := v])) == Combine(ParseValue(Obj(m)), Part(key, ParseValue(v)))
  {
    PartsAreClean(m[key := v]);
    AnyPartLast(PartsOf(m[key := v]), key);
    WithoutLast(m, key, v);
  }

  /** A slashed key means the same as the nested objects it spells, in any company. */
  lemma SlashIsNesting(rest: map<string, Json>, outer: string, inner: string, v: Json)
    requires PathOf(outer).Some? && PathOf(inner).Some? && JoinsCleanly(outer, inner)
    requires outer + "/" + inner !in rest && outer !in rest
    ensures ParseValue(Obj(rest[outer + "/" + inner := v])) == ParseValue(Obj(rest[outer := Obj(map[inner := v])]))
  {
    OneMoreMember(rest, outer + "/" + inner, v);
    OneMoreMember(rest, outer, Obj(map[inner := v]));
    SameLastPart(outer, inner, v);
  }

  lemma SameLastPart(outer: string, inner: string, v: Json)
    requires PathOf(outer).Some? && PathOf(inner).Some? && JoinsCleanly(outer, inner)
    ensures Part(outer + "/" + inner, ParseValue(v)) == Part(outer, ParseValue(Obj(map[inner := v])))
  {
    OneMember(inner, v);
    SlashedPath(outer, inner);
    if ParseValue(v).Some? {
      GraftSplits(PathOf(outer).value, PathOf(inner).value, ParseValue(v).value);
    }
  }

  lemma OneMember(key: string, v: Json)
    ensures ParseValue(Obj(map[key := v])) == Part(key, ParseValue(v))
  {
    var parts := PartsOf(map[key := v]);
    PartsAreClean(map[key := v]);
    AnyPartLast(parts, key);
    assert parts - {key} == map[];
    CombineLaws(parts[key], Some(EMPTY), None);
  }

  lemma MergeSingletons(seg: string, a: Entry, b: Entry)
    requires Clean(a) && Clean(b)
    ensures Merge(Entry(None, map[seg := a]), Entry(None, map[seg := b])) ==
            if Merge(a, b).None? then None else Some(Entry(None, map[seg := Merge(a, b).value]))
  {
    MergeOneChild(Entry(None, map[seg := a]), seg, b);
    if Merge(a, b).Some? {
      assert map[seg := a][seg := Merge(a, b).value] == map[seg := Merge(a, b).value];
    }
  }

  /** Grafting two entries at one place and merging is merging them and grafting the result. */
  lemma {:induction false} GraftMerges(path: seq<string>, a: Entry, b: Entry)
    requires Clean(a) && Clean(b)
    ensures var m := Merge(a, b);
      Merge(Graft(path, a), Graft(path, b)) == if m.None? then None else Some(Graft(path, m.value))
    decreases |path|
  {
    if path != [] {
      var below, more := Graft(path[1..], a), Graft(path[1..], b);
      GraftMerges(path[1..], a, b);
      GraftIsClean(path[1..], a);
      GraftIsClean(path[1..], b);
      MergeSingletons(path[0], below, more);
    }
  }

  lemma PartMerges(key: string, a: Option<Entry>, b: Option<Entry>)
    requires CleanOption(a) && CleanOption(b) && PathOf(key).Some?
    ensures Part(key, Combine(a, b)) == Combine(Part(key, a), Part(key, b))
  {
    if a.Some? && b.Some? {
      GraftMerges(PathOf(key).value, a.value, b.value);
    }
  }

  /** A slashed key whose outer part is an object already there means one more member of it. */
  lemma SlashIsMembership(rest: map<string, Json>, outer: string, inner: string, m: map<string, Json>, v: Json)
    requires PathOf(outer).Some? && PathOf(inner).Some? && JoinsCleanly(outer, inner)
    requires outer + "/" + inner !in rest && outer !in rest && inner !in m
    ensures ParseValue(Obj(rest[outer := Obj(m)][outer + "/" + inner := v])) ==
            ParseValue(Obj(rest[outer := Obj(m[inner := v])]))
  {
    var slashed := outer + "/" + inner;
    assert |slashed| > |outer|;
    var all, held, member := ParseValue(Obj(rest)), ParseValue(Obj(m)), Part(inner, ParseValue(v));
    OneMoreMember(rest[outer := Obj(m)], slashed, v);
    OneMoreMember(rest, outer, Obj(m));
    OneMoreMember(rest, outer, Obj(m[inner := v]));
    OneMoreMember(m, inner, v);
    SameLastPart(outer, inner, v);
    OneMember(inner, v);
    ParsedIsClean(Obj(rest));
    ParsedIsClean(Obj(m));
    ParsedIsClean(Obj(map[inner := v]));
    PartMerges(outer, held, member);
    PartIsClean(outer, held);
    PartIsClean(outer, member);
    CombineLaws(all, Part(outer, held), Part(outer, member));
  }

  lemma PartIsClean(key: string, e: Option<Entry>)
    requires CleanOption(e)
    ensures CleanOption(Part(key, e))
  {
    if Part(key, e).Some? {
      GraftIsClean(PathOf(key).value, e.value);
    }
  }
}
