/** Resolving a wiki link: which node of the table it names. */
module Resolver {
  import opened Graphs
  import opened Wrappers
  import Order

  /** A link as written: by id, or by label and perhaps file. */
  datatype Ref = Ref(title: string, sourceQual: string, idHint: string, weight: real)

  // ---- resolving ----

  /** SQLite's LOWER: ASCII letters only. */
  function Fold(s: string): string {
    seq(|s|, k requires 0 <= k < |s| => if 'A' <= s[k] <= 'Z' then (s[k] as int + 32) as char else s[k])
  }

  /** SQLite's TRIM: blanks only. */
  function Trim(s: string): string {
    if s != "" && s[0] == ' ' then Trim(s[1..])
    else if s != "" && s[|s| - 1] == ' ' then Trim(s[..|s| - 1])
    else s
  }

  lemma {:induction false} FoldIff(a: string, b: string)
    ensures Fold(a) == Fold(b) <==> |a| == |b| && forall k | 0 <= k < |a| :: SameLetter(a[k], b[k])
  {
    assert |Fold(a)| == |a| && |Fold(b)| == |b|;
    if Fold(a) == Fold(b) {
      forall k | 0 <= k < |a| ensures SameLetter(a[k], b[k]) {
        assert Fold(a)[k] == Fold(b)[k];
      }
    }
  }

  /** The same character, or one ASCII letter in its two cases. */
  predicate SameLetter(a: char, b: char) {
    a == b || ('A' <= a <= 'Z' && b as int == a as int + 32) || ('A' <= b <= 'Z' && a as int == b as int + 32)
  }

  ghost predicate AllBlank(s: string) {
    forall c | c in s :: c == ' '
  }

  /** Trimming takes the blanks off both ends and nothing else. */
  lemma {:induction false} TrimTakesBlanks(s: string) returns (before: string, after: string)
    ensures s == before + Trim(s) + after && AllBlank(before) && AllBlank(after)
    ensures Trim(s) != "" ==> Trim(s)[0] != ' ' && Trim(s)[|Trim(s)| - 1] != ' '
    decreases |s|
  {
    before, after := "", "";
    if s != "" && s[0] == ' ' {
      before, after := TrimTakesBlanks(s[1..]);
      before := " " + before;
      assert s == " " + s[1..];
    } else if s != "" && s[|s| - 1] == ' ' {
      before, after := TrimTakesBlanks(s[..|s| - 1]);
      after := after + " ";
      assert s == s[..|s| - 1] + " ";
    }
  }

  /** The file itself, or one whose path ends in it below some directory. */
  predicate InFile(file: string, qual: string) {
    file == qual || (|qual| < |file| && Fold(file[|file| - |qual| - 1..]) == Fold("/" + qual))
  }

  lemma InFileIff(file: string, qual: string)
    ensures InFile(file, qual) <==>
            file == qual || exists dir: string, name: string :: file == dir + "/" + name && Fold(name) == Fold(qual)
  {
    var at := |file| - |qual| - 1;
    if InFile(file, qual) && file != qual {
      FoldIff(file[at..], "/" + qual);
      var name := file[at + 1..];
      assert file[at..][0] == '/' && file[at..] == "/" + name;
      assert ("/" + qual)[1..] == qual && file[at..][1..] == name;
      FoldTail(file[at..], "/" + qual);
      assert file == file[..at] + "/" + name;
    }
    if dir: string, name: string :| file == dir + "/" + name && Fold(name) == Fold(qual) {
      FoldIff(name, qual);
      assert |dir| == at && file[at..] == "/" + name;
      FoldIff(file[at..], "/" + qual);
    }
  }

  lemma FoldTail(a: string, b: string)
    requires a != "" && b != "" && Fold(a) == Fold(b)
    ensures Fold(a[1..]) == Fold(b[1..])
  {
    assert Fold(a[1..]) == Fold(a)[1..] && Fold(b[1..]) == Fold(b)[1..];
  }

  predicate Matches(g: Graph, ref: Ref, x: string) {
    && x in g && g[x].nodeType == "heading" && Fold(Trim(g[x].title)) == Fold(Trim(ref.title))
    && (ref.sourceQual != "" ==> InFile(g[x].sourceFile, ref.sourceQual))
  }

  /** The order headings are preferred in; the file counts only when the link names none. */
  predicate Precedes(g: Graph, ref: Ref, x: string, y: string)
    requires x in g && y in g
  {
    var a, b := g[x], g[y];
    if ref.sourceQual == "" && a.sourceFile != b.sourceFile then Order.Less(a.sourceFile, b.sourceFile)
    else if a.depth != b.depth then a.depth < b.depth
    else Order.Less(x, y)
  }

  lemma PrecedesIsOrder(g: Graph, ref: Ref, x: string, y: string, z: string)
    requires x in g && y in g && z in g
    ensures !Precedes(g, ref, x, x)
    ensures x == y || Precedes(g, ref, x, y) || Precedes(g, ref, y, x)
    ensures Precedes(g, ref, x, y) && Precedes(g, ref, y, z) ==> Precedes(g, ref, x, z)
  {
    OrderOf(x, y, z);
    OrderOf(g[x].sourceFile, g[y].sourceFile, g[z].sourceFile);
  }

  lemma OrderOf(a: string, b: string, c: string)
    ensures !Order.Less(a, a)
    ensures a == b || Order.Less(a, b) || Order.Less(b, a)
    ensures !(Order.Less(a, b) && Order.Less(b, a))
    ensures Order.Less(a, b) && Order.Less(b, c) ==> Order.Less(a, c)
  {
    Order.LessIsIrreflexive(a);
    Order.LessIsTotal(a, b);
    if Order.Less(a, b) && Order.Less(b, a) {
      Order.LessIsTransitive(a, b, a);
    }
    if Order.Less(a, b) && Order.Less(b, c) {
      Order.LessIsTransitive(a, b, c);
    }
  }

  ghost predicate IsFirst(g: Graph, ref: Ref, x: string) {
    Matches(g, ref, x) && forall y | Matches(g, ref, y) && y != x :: Precedes(g, ref, x, y)
  }

  /** The target of a link, or "". An id that is missing does not fall back to the label. */
  ghost function Target(g: Graph, ref: Ref): string {
    if ref.idHint != "" then if ref.idHint in g then ref.idHint else ""
    else if ref.title == "" then ""
    else if exists x :: IsFirst(g, ref, x) then
      var x :| IsFirst(g, ref, x);
      x
    else ""
  }

  /** One heading at most is first. */
  lemma FirstIsUnique(g: Graph, ref: Ref, x: string, y: string)
    requires IsFirst(g, ref, x) && IsFirst(g, ref, y)
    ensures x == y
  {
    if x != y {
      PrecedesIsOrder(g, ref, x, y, x);
    }
  }

  lemma TargetIsFirst(g: Graph, ref: Ref, x: string)
    requires IsFirst(g, ref, x)
    ensures ref.idHint == "" && ref.title != "" ==> Target(g, ref) == x
  {
    if ref.idHint == "" && ref.title != "" {
      FirstIsUnique(g, ref, Target(g, ref), x);
    }
  }

  /** The first matching heading in that order, if any matches. */
  method FindHeading(g: Graph, ref: Ref) returns (r: Option<string>)
    ensures r.Some? ==> IsFirst(g, ref, r.value)
    ensures r.None? ==> forall x :: !Matches(g, ref, x)
  {
    r := None;
    var todo := g.Keys;
    while todo != {}
      invariant todo <= g.Keys
      invariant r.None? ==> forall x | x in g && x !in todo :: !Matches(g, ref, x)
      invariant r.Some? ==> Matches(g, ref, r.value) && r.value !in todo
      invariant r.Some? ==> forall y | Matches(g, ref, y) && y !in todo && y != r.value :: Precedes(g, ref, r.value, y)
    {
      var x :| x in todo;
      todo := todo - {x};
      if Matches(g, ref, x) && (r.None? || Precedes(g, ref, x, r.value)) {
        FirstChanges(g, ref, r, x);
        r := Some(x);
      } else if Matches(g, ref, x) {
        PrecedesIsOrder(g, ref, x, r.value, x);
      }
    }
  }

  lemma FirstChanges(g: Graph, ref: Ref, was: Option<string>, x: string)
    requires x in g && (was.Some? ==> was.value in g && Precedes(g, ref, x, was.value))
    ensures was.Some? ==> forall y | y in g && Precedes(g, ref, was.value, y) :: Precedes(g, ref, x, y)
  {
    if was.Some? {
      forall y | y in g && Precedes(g, ref, was.value, y) ensures Precedes(g, ref, x, y) {
        PrecedesIsOrder(g, ref, x, was.value, y);
      }
    }
  }

  lemma PrecedesNoLater(g: Graph, ref: Ref, x: string, y: string)
    requires x in g && y in g && (x == y || Precedes(g, ref, x, y))
    ensures NoLater(g, ref, x, y)
  {
    OrderOf(x, y, x);
    OrderOf(g[x].sourceFile, g[y].sourceFile, g[x].sourceFile);
  }

  /** x is a heading with the link's label, in its file if it names one. */
  ghost predicate Names(g: Graph, ref: Ref, x: string) {
    && x in g && g[x].nodeType == "heading" && Fold(Trim(g[x].title)) == Fold(Trim(ref.title))
    && (ref.sourceQual == "" || InFile(g[x].sourceFile, ref.sourceQual))
  }

  /** x comes no later than y by file, when the link names none, then by depth, then by id. */
  ghost predicate NoLater(g: Graph, ref: Ref, x: string, y: string)
    requires x in g && y in g
  {
    var oneFile := ref.sourceQual != "" || g[x].sourceFile == g[y].sourceFile;
    && (ref.sourceQual == "" ==> !Order.Less(g[y].sourceFile, g[x].sourceFile))
    && (oneFile ==> g[x].depth <= g[y].depth)
    && (oneFile && g[x].depth == g[y].depth ==> !Order.Less(y, x))
  }

  method Resolve(g: Graph, ref: Ref) returns (target: string)
    ensures target == Target(g, ref)
    ensures ref.idHint != "" ==> target == if ref.idHint in g then ref.idHint else ""
    ensures ref.idHint == "" && target != "" ==>
      ref.title != "" && Names(g, ref, target) && forall y | Names(g, ref, y) :: NoLater(g, ref, target, y)
    ensures ref.idHint == "" && ref.title != "" && target == "" && "" !in g ==> forall x :: !Names(g, ref, x)
  {
    assert forall x :: Names(g, ref, x) <==> Matches(g, ref, x);
    if ref.idHint != "" {
      return if ref.idHint in g then ref.idHint else "";
    }
    if ref.title == "" {
      return "";
    }
    var first := FindHeading(g, ref);
    if first.Some? {
      forall x | IsFirst(g, ref, x) ensures x == first.value {
        FirstIsUnique(g, ref, x, first.value);
      }
      forall y | Names(g, ref, y) ensures NoLater(g, ref, first.value, y) {
        PrecedesNoLater(g, ref, first.value, y);
      }
      return first.value;
    }
    return "";
  }

  /** A link by label finds a heading exactly when one matches. */
  lemma ResolvesIff(g: Graph, ref: Ref)
    requires "" !in g
    ensures Target(g, ref) != "" <==>
            if ref.idHint != "" then ref.idHint in g else ref.title != "" && exists x :: Matches(g, ref, x)
    ensures Target(g, ref) != "" ==> Target(g, ref) in g
  {
    if ref.idHint == "" && ref.title != "" && exists x :: Matches(g, ref, x) {
      var z :| Matches(g, ref, z);
      var x := FirstExists(g, ref, g.Keys, z);
      assert IsFirst(g, ref, x);
    }
  }

  ghost predicate FirstAmong(g: Graph, ref: Ref, s: set<string>, x: string) {
    Matches(g, ref, x) && forall y | y in s && Matches(g, ref, y) && y != x :: Precedes(g, ref, x, y)
  }

  lemma {:induction false} FirstExists(g: Graph, ref: Ref, s: set<string>, z: string) returns (x: string)
    requires s <= g.Keys && Matches(g, ref, z)
    ensures FirstAmong(g, ref, s, x)
    decreases s
  {
    if s == {} {
      x := z;
    } else {
      var y :| y in s;
      x := FirstExists(g, ref, s - {y}, z);
      PrecedesIsOrder(g, ref, x, y, x);
      if Matches(g, ref, y) && Precedes(g, ref, y, x) {
        FirstChanges(g, ref, Some(x), y);
        x := y;
      }
    }
  }
}
