/** Which temperature-seed files load. */
module TempLoads {
  import opened TempKeys
  import opened Tempfile
  import opened Wrappers

  // ---- merging ----

  /** The node at a path, seeded or not. */
  function At(e: Entry, path: seq<string>): Option<Entry> {
    if path == [] then Some(e)
    else if path[0] in e.children then At(e.children[path[0]], path[1..])
    else None
  }

  ghost predicate Seeded(e: Entry, path: seq<string>) {
    At(e, path).Some? && At(e, path).value.temp.Some?
  }

  /** The node there holds a seed or has nodes below it. */
  ghost predicate Occupied(e: Entry, path: seq<string>) {
    At(e, path).Some? && At(e, path).value != EMPTY
  }

  ghost predicate ClashAt(a: Entry, b: Entry, path: seq<string>) {
    (Seeded(a, path) && Occupied(b, path)) || (Occupied(a, path) && Seeded(b, path))
  }

  lemma ClashBelow(a: Entry, b: Entry, k: string, path: seq<string>)
    requires k in a.children && k in b.children && ClashAt(a.children[k], b.children[k], path)
    ensures ClashAt(a, b, [k] + path)
  {
    assert ([k] + path)[1..] == path;
  }

  /** Two entries fail to merge exactly when some path is seeded in one and occupied in the other. */
  lemma {:induction false} MergeFailsIff(a: Entry, b: Entry)
    requires Clean(a) && Clean(b)
    ensures Merge(a, b).None? <==> exists path :: ClashAt(a, b, path)
  {
    MergeCases(a, b);
    forall k | k in a.children && k in b.children
      ensures Merge(a.children[k], b.children[k]).None? <==>
              exists path :: ClashAt(a.children[k], b.children[k], path)
    {
      MergeFailsIff(a.children[k], b.children[k]);
    }
    if Merge(a, b).None? {
      if a.temp.Some? || b.temp.Some? {
        assert ClashAt(a, b, []);
      } else {
        var k :| k in a.children && FailsAt(a.children, b.children, k);
        var path :| ClashAt(a.children[k], b.children[k], path);
        ClashBelow(a, b, k, path);
      }
    }
    if path :| ClashAt(a, b, path) {
      if path != [] {
        assert ClashAt(a.children[path[0]], b.children[path[0]], path[1..]);
        assert FailsAt(a.children, b.children, path[0]);
      }
    }
  }

  /** A merge seeds and occupies what either entry does. */
  lemma {:induction false} MergedAt(a: Entry, b: Entry, path: seq<string>)
    requires Clean(a) && Clean(b) && Merge(a, b).Some?
    ensures Seeded(Merge(a, b).value, path) <==> Seeded(a, path) || Seeded(b, path)
    ensures Occupied(Merge(a, b).value, path) <==> Occupied(a, path) || Occupied(b, path)
    decreases |path|
  {
    MergeCases(a, b);
    if path == [] {
      MergeIsEmpty(a, b);
    } else if a.temp.None? && b.temp.None? && path[0] in a.children && path[0] in b.children {
      MergedAt(a.children[path[0]], b.children[path[0]], path[1..]);
    }
  }

  lemma MergeIsEmpty(a: Entry, b: Entry)
    requires Clean(a) && Clean(b)
    ensures Merge(a, b) == Some(EMPTY) <==> a == EMPTY && b == EMPTY
  {
    MergeCases(a, b);
    if a.temp.None? && b.temp.None? && !Clash(a.children, b.children) {
      UnionIsEmpty(a.children, b.children);
    }
  }

  lemma UnionIsEmpty(a: map<string, Entry>, b: map<string, Entry>)
    requires !Clash(a, b)
    ensures Union(a, b) == map[] <==> a == map[] && b == map[]
  {
    var u := Union(a, b);
    assert u.Keys == a.Keys + b.Keys;
    assert u == map[] <==> u.Keys == {};
    assert a == map[] <==> a.Keys == {};
    assert b == map[] <==> b.Keys == {};
  }

  // ---- in terms of the file ----

  /** The file seeds path, by whatever chain of keys. */
  ghost predicate Seeds(j: Json, path: seq<string>) {
    exists t :: Assigns(j, path, t)
  }

  /** The file seeds path or spells something below it. */
  ghost predicate Spells(j: Json, path: seq<string>) {
    match j
    case Num(_) => path == []
    case Obj(m) =>
      exists k | k in m :: PathOf(k).Some? &&
        (path < PathOf(k).value || (PathOf(k).value <= path && Spells(m[k], path[|PathOf(k).value|..])))
    case Other => false
  }

  ghost predicate SpellsVia(m: map<string, Json>, k: string, path: seq<string>)
    requires k in m
  {
    PathOf(k).Some? &&
    (path < PathOf(k).value || (PathOf(k).value <= path && Spells(m[k], path[|PathOf(k).value|..])))
  }

  ghost predicate SeedsVia(m: map<string, Json>, k: string, path: seq<string>)
    requires k in m
  {
    PathOf(k).Some? && PathOf(k).value <= path && Seeds(m[k], path[|PathOf(k).value|..])
  }

  /** No path seeded under one key of an object is spelled under another one too. */
  ghost predicate Apart(m: map<string, Json>) {
    forall k, l, path | k in m && l in m && k != l && SeedsVia(m, k, path) :: !SpellsVia(m, l, path)
  }

  /** Every number is a temperature, every key a path, and no object seeds a path twice or above another. */
  ghost predicate Loads(j: Json) {
    match j
    case Num(t) => 0.0 <= t <= 1.0
    case Obj(m) => (forall k | k in m :: PathOf(k).Some? && Loads(m[k])) && Apart(m)
    case Other => false
  }

  lemma {:induction false} GraftedAt(at: seq<string>, leaf: Entry, path: seq<string>)
    ensures Seeded(Graft(at, leaf), path) <==> at <= path && Seeded(leaf, path[|at|..])
    ensures Occupied(Graft(at, leaf), path) <==> path < at || (at <= path && Occupied(leaf, path[|at|..]))
    decreases |at|
  {
    if at == [] {
      assert path[|at|..] == path;
    } else if path == [] {
      assert at[0] in Graft(at, leaf).children;
    } else {
      GraftedAt(at[1..], leaf, path[1..]);
      if at[0] == path[0] {
        assert at == [at[0]] + at[1..] && path == [path[0]] + path[1..];
        assert at[1..] <= path[1..] ==> path[1..][|at[1..]|..] == path[|at|..];
        assert at <= path <==> at[1..] <= path[1..];
        assert path < at <==> path[1..] < at[1..];
      }
    }
  }

  ghost predicate SeededIn(parts: map<string, Option<Entry>>, k: string, path: seq<string>)
    requires k in parts
  {
    parts[k].Some? && Seeded(parts[k].value, path)
  }

  ghost predicate OccupiedIn(parts: map<string, Option<Entry>>, k: string, path: seq<string>)
    requires k in parts
  {
    parts[k].Some? && Occupied(parts[k].value, path)
  }

  /** What a merge of parts seeds and occupies. */
  lemma {:induction false} MergeAllAt(parts: map<string, Option<Entry>>, path: seq<string>)
    requires CleanParts(parts) && MergeAll(parts).Some?
    ensures Seeded(MergeAll(parts).value, path) <==> exists k | k in parts :: SeededIn(parts, k, path)
    ensures Occupied(MergeAll(parts).value, path) <==> exists k | k in parts :: OccupiedIn(parts, k, path)
  {
    if parts != map[] {
      var k :| k in parts;
      var rest := parts - {k};
      AnyPartLast(parts, k);
      MergeAllIsClean(rest);
      MergeAllAt(rest, path);
      forall j | j in parts && j != k
        ensures j in rest
        ensures (SeededIn(rest, j, path) <==> SeededIn(parts, j, path))
             && (OccupiedIn(rest, j, path) <==> OccupiedIn(parts, j, path))
      {
        assert j in rest && rest[j] == parts[j];
      }
      MergedAt(MergeAll(rest).value, parts[k].value, path);
    }
  }

  /** No part seeds what another one occupies. */
  ghost predicate PartsApart(parts: map<string, Option<Entry>>) {
    forall k, l, path | k in parts && l in parts && k != l && SeededIn(parts, k, path) :: !OccupiedIn(parts, l, path)
  }

  lemma {:induction false} MergeAllIff(parts: map<string, Option<Entry>>)
    requires CleanParts(parts)
    ensures MergeAll(parts).Some? <==> AllSome(parts) && PartsApart(parts)
  {
    if parts != map[] {
      var k :| k in parts;
      var rest := parts - {k};
      AnyPartLast(parts, k);
      MergeAllIsClean(rest);
      MergeAllIff(rest);
      RestApart(parts, k);
      AllSomeSplits(parts, k);
      if MergeAll(rest).Some? && parts[k].Some? {
        MergeOneMore(parts, k);
      }
    }
  }

  ghost predicate AllSome(parts: map<string, Option<Entry>>) {
    forall k | k in parts :: parts[k].Some?
  }

  lemma AllSomeSplits(parts: map<string, Option<Entry>>, k: string)
    requires k in parts
    ensures AllSome(parts) <==> AllSome(parts - {k}) && parts[k].Some?
  {
    assert forall j | j in parts - {k} :: (parts - {k})[j] == parts[j];
    assert forall j | j in parts :: j == k || j in parts - {k};
  }

  lemma MergeOneMore(parts: map<string, Option<Entry>>, k: string)
    requires CleanParts(parts) && k in parts && MergeAll(parts - {k}).Some? && parts[k].Some?
    ensures CleanOption(MergeAll(parts - {k}))
    ensures Merge(MergeAll(parts - {k}).value, parts[k].value).None? <==>
            exists l, path | l in parts && l != k :: PartsClash(parts, k, l, path)
  {
    var rest := parts - {k};
    var all := MergeAll(rest).value;
    MergeAllIsClean(rest);
    MergeFailsIff(all, parts[k].value);
    if path :| ClashAt(all, parts[k].value, path) {
      MergeAllAt(rest, path);
      var l :| l in rest && (if Seeded(all, path) && Occupied(parts[k].value, path) then SeededIn(rest, l, path)
                             else OccupiedIn(rest, l, path));
      assert PartsClash(parts, k, l, path);
    }
    if l, path :| l in parts && l != k && PartsClash(parts, k, l, path) {
      MergeAllAt(rest, path);
      assert l in rest && rest[l] == parts[l];
      assert SeededIn(rest, l, path) <==> SeededIn(parts, l, path);
      assert OccupiedIn(rest, l, path) <==> OccupiedIn(parts, l, path);
      assert ClashAt(all, parts[k].value, path);
    }
  }

  ghost predicate PartsClash(parts: map<string, Option<Entry>>, k: string, l: string, path: seq<string>)
    requires k in parts && l in parts
  {
    (SeededIn(parts, k, path) && OccupiedIn(parts, l, path)) || (SeededIn(parts, l, path) && OccupiedIn(parts, k, path))
  }

  lemma RestApart(parts: map<string, Option<Entry>>, k: string)
    requires k in parts
    ensures PartsApart(parts) <==>
            PartsApart(parts - {k}) && forall l, path | l in parts && l != k :: !PartsClash(parts, k, l, path)
  {
    var rest := parts - {k};
    assert forall l, path | l in rest :: SeededIn(rest, l, path) <==> SeededIn(parts, l, path);
    assert forall l, path | l in rest :: OccupiedIn(rest, l, path) <==> OccupiedIn(parts, l, path);
    if PartsApart(parts) {
      forall i, j, path | i in rest && j in rest && i != j && SeededIn(rest, i, path)
        ensures !OccupiedIn(rest, j, path)
      {
        assert SeededIn(parts, i, path);
      }
    }
    if PartsApart(rest) && forall l, path | l in parts && l != k :: !PartsClash(parts, k, l, path) {
      forall i, j, path | i in parts && j in parts && i != j && SeededIn(parts, i, path)
        ensures !OccupiedIn(parts, j, path)
      {
        assert i != k && j != k ==> SeededIn(rest, i, path);
        assert i == k ==> !PartsClash(parts, k, j, path);
        assert j == k ==> !PartsClash(parts, k, i, path);
      }
    }
  }

  /** What j loads to seeds and occupies path as the file says. */
  ghost predicate ReadsAt(j: Json, path: seq<string>) {
    ParseValue(j).Some? ==>
      && (Seeded(ParseValue(j).value, path) <==> Seeds(j, path))
      && (Occupied(ParseValue(j).value, path) <==> Spells(j, path))
  }

  ghost predicate PartReadsAt(m: map<string, Json>, k: string, path: seq<string>)
    requires k in m
  {
    && (SeededIn(PartsOf(m), k, path) <==> SeedsVia(m, k, path))
    && (OccupiedIn(PartsOf(m), k, path) <==> SpellsVia(m, k, path))
  }

  lemma PartAt(m: map<string, Json>, k: string, path: seq<string>)
    requires k in m && Part(k, ParseValue(m[k])).Some?
    requires PathOf(k).value <= path ==> ReadsAt(m[k], path[|PathOf(k).value|..])
    ensures PartReadsAt(m, k, path)
  {
    GraftedAt(PathOf(k).value, ParseValue(m[k]).value, path);
    assert PartsOf(m)[k] == Part(k, ParseValue(m[k]));
  }

  lemma SeedsByKey(m: map<string, Json>, path: seq<string>)
    ensures Seeds(Obj(m), path) <==> exists k | k in m :: SeedsVia(m, k, path)
  {
    if t :| Assigns(Obj(m), path, t) {
      var k :| k in m && PathOf(k).Some? && PathOf(k).value <= path && Assigns(m[k], path[|PathOf(k).value|..], t);
      assert SeedsVia(m, k, path);
    }
    if k :| k in m && SeedsVia(m, k, path) {
      var t :| Assigns(m[k], path[|PathOf(k).value|..], t);
      assert Assigns(Obj(m), path, t);
    }
  }

  lemma SpellsByKey(m: map<string, Json>, path: seq<string>)
    ensures Spells(Obj(m), path) <==> exists k | k in m :: SpellsVia(m, k, path)
  {
  }

  lemma ObjectReadsAt(m: map<string, Json>, path: seq<string>)
    requires ParseValue(Obj(m)).Some? && forall k | k in m :: PartReadsAt(m, k, path)
    ensures ReadsAt(Obj(m), path)
  {
    PartsAreClean(m);
    MergeAllAt(PartsOf(m), path);
    SeedsByKey(m, path);
    SpellsByKey(m, path);
    assert forall k :: k in PartsOf(m) <==> k in m;
  }

  /** The loaded trie seeds and occupies what the file seeds and spells. */
  lemma {:induction false} LoadedAt(j: Json, path: seq<string>)
    ensures ReadsAt(j, path)
    decreases j
  {
    if ParseValue(j).Some? {
      match j
      case Num(t) =>
        assert Assigns(j, [], t);
      case Obj(m) =>
        PartsAreClean(m);
        MergeAllIff(PartsOf(m));
        forall k | k in m ensures PartReadsAt(m, k, path) {
          assert PartsOf(m)[k].Some?;
          if PathOf(k).value <= path {
            LoadedAt(m[k], path[|PathOf(k).value|..]);
          }
          PartAt(m, k, path);
        }
        ObjectReadsAt(m, path);
    }
  }

  lemma PartsApartIff(m: map<string, Json>)
    requires forall k | k in m :: Part(k, ParseValue(m[k])).Some?
    ensures PartsApart(PartsOf(m)) <==> Apart(m)
  {
    var parts := PartsOf(m);
    forall k, path | k in m ensures PartReadsAt(m, k, path) {
      if PathOf(k).value <= path {
        LoadedAt(m[k], path[|PathOf(k).value|..]);
      }
      PartAt(m, k, path);
    }
    if PartsApart(parts) {
      forall k, l, path | k in m && l in m && k != l && SeedsVia(m, k, path) ensures !SpellsVia(m, l, path) {
        assert PartReadsAt(m, k, path) && PartReadsAt(m, l, path);
      }
    }
    if Apart(m) {
      forall k, l, path | k in parts && l in parts && k != l && SeededIn(parts, k, path)
        ensures !OccupiedIn(parts, l, path)
      {
        assert PartReadsAt(m, k, path) && PartReadsAt(m, l, path);
      }
    }
  }

  /** A file loads exactly when every number in it is a temperature, every key spells a path, and no
      object seeds a path under one key that another key seeds as well or spells something below. */
  lemma {:induction false} LoadsIff(j: Json)
    ensures ParseValue(j).Some? <==> Loads(j)
    decreases j
  {
    if j.Obj? {
      var m := j.members;
      forall k | k in m ensures ParseValue(m[k]).Some? <==> Loads(m[k]) {
        LoadsIff(m[k]);
      }
      ObjectLoadsIff(m);
    }
  }

  lemma ObjectLoadsIff(m: map<string, Json>)
    requires forall k | k in m :: ParseValue(m[k]).Some? <==> Loads(m[k])
    ensures ParseValue(Obj(m)).Some? <==> (forall k | k in m :: PathOf(k).Some? && Loads(m[k])) && Apart(m)
  {
    var parts := PartsOf(m);
    PartsAreClean(m);
    MergeAllIff(parts);
    assert AllSome(parts) <==> forall k | k in m :: PathOf(k).Some? && Loads(m[k]) by {
      assert forall k | k in m :: parts[k].Some? <==> PathOf(k).Some? && Loads(m[k]);
    }
    if AllSome(parts) {
      assert forall k | k in m :: parts[k] == Part(k, ParseValue(m[k]));
      PartsApartIff(m);
    }
  }
}
