/** The keys of a temperature-seed file: slashed paths with an optional "./" in front and slash behind. */
module TempKeys {
  import opened Wrappers

  function TrimPrefix(s: string, p: string): string {
    if p <= s then s[|p|..] else s
  }

  function TrimSuffix(s: string, p: string): string {
    if |p| <= |s| && s[|s| - |p|..] == p then s[..|s| - |p|] else s
  }

  function Split(s: string): (r: seq<string>)
    ensures r != []
  {
    if s == "" then [""]
    else if s[0] == '/' then [""] + Split(s[1..])
    else
      var rest := Split(s[1..]);
      [[s[0]] + rest[0]] + rest[1..]
  }

  /** The trie path a key spells, or None when it is empty or has an invalid segment. */
  function PathOf(key: string): (r: Option<seq<string>>)
    ensures r.Some? ==> r.value != []
  {
    var norm := TrimSuffix(TrimPrefix(key, "./"), "/");
    var segments := Split(norm);
    if norm == "" || exists seg | seg in segments :: seg == "" || seg == "." || seg == ".." then None
    else Some(segments)
  }

  /** The segments with a slash between each two. */
  function Joined(segments: seq<string>): string {
    if segments == [] then ""
    else if |segments| == 1 then segments[0]
    else segments[0] + "/" + Joined(segments[1..])
  }

  ghost predicate NoSlash(segments: seq<string>) {
    forall seg | seg in segments :: '/' !in seg
  }

  /** Segments with one more character in front of the first. */
  function Longer(c: char, segments: seq<string>): seq<string>
    requires segments != []
  {
    [[c] + segments[0]] + segments[1..]
  }

  lemma LongerJoins(c: char, segments: seq<string>)
    requires segments != []
    ensures Joined(Longer(c, segments)) == [c] + Joined(segments)
    ensures c != '/' && NoSlash(segments) ==> NoSlash(Longer(c, segments))
  {
    var more := Longer(c, segments);
    assert more[1..] == segments[1..];
    if |segments| > 1 {
      assert [c] + segments[0] + "/" + Joined(segments[1..]) == [c] + (segments[0] + "/" + Joined(segments[1..]));
    }
    forall seg | seg in more && c != '/' && NoSlash(segments) ensures '/' !in seg {
      assert seg == more[0] || seg in segments;
      assert segments[0] in segments;
    }
  }

  lemma EmptyJoins(segments: seq<string>)
    requires segments != []
    ensures Joined([""] + segments) == "/" + Joined(segments)
    ensures NoSlash(segments) ==> NoSlash([""] + segments)
  {
    assert ([""] + segments)[1..] == segments;
  }

  lemma {:induction false} SplitJoins(s: string)
    ensures Joined(Split(s)) == s && NoSlash(Split(s))
    decreases |s|
  {
    if s != "" {
      SplitJoins(s[1..]);
      assert s == [s[0]] + s[1..];
      if s[0] == '/' {
        EmptyJoins(Split(s[1..]));
      } else {
        LongerJoins(s[0], Split(s[1..]));
        assert Split(s) == Longer(s[0], Split(s[1..]));
      }
    }
  }

  lemma LongerAppend(c: char, a: seq<string>, b: seq<string>)
    requires a != []
    ensures Longer(c, a + b) == Longer(c, a) + b
  {
    assert (a + b)[1..] == a[1..] + b;
  }

  lemma AppendEmpty(a: seq<string>, b: seq<string>)
    ensures [""] + (a + b) == [""] + a + b
  {
  }

  lemma {:induction false} SplitAtSlash(a: string, b: string)
    ensures Split(a + "/" + b) == Split(a) + Split(b)
    decreases |a|
  {
    var s := a + "/" + b;
    if a == "" {
      assert s[1..] == b;
    } else {
      SplitAtSlash(a[1..], b);
      assert s[0] == a[0] && s[1..] == a[1..] + "/" + b;
      if a[0] == '/' {
        AppendEmpty(Split(a[1..]), Split(b));
      } else {
        LongerAppend(a[0], Split(a[1..]), Split(b));
        assert Split(a) == Longer(a[0], Split(a[1..])) && Split(s) == Longer(s[0], Split(s[1..]));
      }
    }
  }

  lemma {:induction false} SplitWhole(seg: string)
    requires '/' !in seg
    ensures Split(seg) == [seg]
    decreases |seg|
  {
    if seg != "" {
      assert seg == [seg[0]] + seg[1..];
      SplitWhole(seg[1..]);
    }
  }

  /** Splitting is the only way to cut a key at its slashes. */
  lemma {:induction false} SplitInvertsJoined(segments: seq<string>)
    requires segments != [] && NoSlash(segments)
    ensures Split(Joined(segments)) == segments
    decreases |segments|
  {
    SplitWhole(segments[0]);
    if |segments| > 1 {
      SplitInvertsJoined(segments[1..]);
      SplitAtSlash(segments[0], Joined(segments[1..]));
      assert segments == [segments[0]] + segments[1..];
    }
  }

  /** A key with one leading "./" and then one trailing slash taken off, each if it is there. */
  ghost predicate IsTrimmed(key: string, norm: string) {
    exists unled: string ::
      && (if "./" <= key then key == "./" + unled else key == unled)
      && (if unled != "" && unled[|unled| - 1] == '/' then unled == norm + "/" else unled == norm)
  }

  /** A key is cut at every slash once trimmed, and refused exactly when some part is no name. */
  lemma PathsSpellKeys(key: string, path: seq<string>)
    ensures PathOf(key) == Some(path) <==>
            && path != [] && NoSlash(path) && IsTrimmed(key, Joined(path))
            && forall seg | seg in path :: seg != "" && seg != "." && seg != ".."
  {
    var unled := TrimPrefix(key, "./");
    var norm := TrimSuffix(unled, "/");
    SplitJoins(norm);
    assert "./" <= key ==> key == "./" + unled;
    assert IsTrimmed(key, norm) by {
      assert unled != "" && unled[|unled| - 1] == '/' ==> unled == unled[..|unled| - 1] + "/";
    }
    if path != [] && NoSlash(path) && IsTrimmed(key, Joined(path)) {
      TrimmedOnce(key, norm, Joined(path));
      SplitInvertsJoined(path);
      assert path[0] in path && path[0] <= Joined(path);
    }
  }

  lemma TrimmedOnce(key: string, norm: string, other: string)
    requires IsTrimmed(key, norm) && IsTrimmed(key, other)
    ensures norm == other
  {
    var u: string :|
      && (if "./" <= key then key == "./" + u else key == u)
      && (if u != "" && u[|u| - 1] == '/' then u == norm + "/" else u == norm);
    var v: string :|
      && (if "./" <= key then key == "./" + v else key == v)
      && (if v != "" && v[|v| - 1] == '/' then v == other + "/" else v == other);
    if "./" <= key {
      assert u == key[2..] == v;
    }
    if u != "" && u[|u| - 1] == '/' {
      assert norm == u[..|u| - 1] == other;
    }
  }

  /** outer + "/" + inner reads as the one path after the other. */
  predicate JoinsCleanly(outer: string, inner: string) {
    (outer == "" || outer[|outer| - 1] != '/') && !("./" <= inner)
  }

  lemma PrefixOfJoined(outer: string, inner: string)
    requires outer != "."
    ensures TrimPrefix(outer + "/" + inner, "./") == TrimPrefix(outer, "./") + "/" + inner
  {
    var s := outer + "/" + inner;
    if |outer| >= 2 {
      assert s[..2] == outer[..2] && s[2..] == outer[2..] + "/" + inner;
    } else if outer != "" {
      assert s[0] == outer[0] && outer == [outer[0]];
    } else {
      assert s[0] == '/';
    }
  }

  lemma SuffixOfJoined(outer: string, inner: string)
    requires inner != ""
    ensures TrimSuffix(outer + "/" + inner, "/") == outer + "/" + TrimSuffix(inner, "/")
  {
    var s, k := outer + "/" + inner, |inner| - 1;
    assert inner == inner[..k] + [inner[k]];
    assert s[|s| - 1..] == [inner[k]] && s[..|s| - 1] == outer + "/" + inner[..k];
  }

  lemma DotIsNoPath()
    ensures PathOf(".") == None && PathOf("") == None
  {
    SplitWhole(".");
    assert TrimSuffix(TrimPrefix(".", "./"), "/") == "." && "." in Split(".");
    assert TrimSuffix(TrimPrefix("", "./"), "/") == "";
  }

  ghost predicate AreNames(segments: seq<string>) {
    forall seg | seg in segments :: seg != "" && seg != "." && seg != ".."
  }

  lemma PathIs(key: string, segments: seq<string>)
    requires Split(TrimSuffix(TrimPrefix(key, "./"), "/")) == segments
    ensures PathOf(key) == PathOfParts(segments)
  {
    if TrimSuffix(TrimPrefix(key, "./"), "/") == "" {
      assert segments == [""] && "" in segments;
    }
  }

  lemma NamesOfBoth(a: seq<string>, b: seq<string>)
    ensures AreNames(a + b) <==> AreNames(a) && AreNames(b)
  {
    assert forall seg | seg in a :: seg in a + b;
    assert forall seg | seg in b :: seg in a + b;
  }

  /** What is left of joined keys once trimmed is cut into the parts of both. */
  lemma SegmentsOfJoined(outer: string, inner: string)
    requires outer != "." && inner != ""
    ensures Split(TrimSuffix(TrimPrefix(outer + "/" + inner, "./"), "/")) ==
            Split(TrimPrefix(outer, "./")) + Split(TrimSuffix(inner, "/"))
  {
    PrefixOfJoined(outer, inner);
    SuffixOfJoined(TrimPrefix(outer, "./"), inner);
    SplitAtSlash(TrimPrefix(outer, "./"), TrimSuffix(inner, "/"));
  }

  lemma EndsEmpty(a: string)
    requires a != "" && a[|a| - 1] == '/'
    ensures !AreNames(Split(a))
  {
    assert a == a[..|a| - 1] + "/" + "";
    SplitAtSlash(a[..|a| - 1], "");
    assert Split(a)[|Split(a)| - 1] == "" && "" in Split(a);
  }

  lemma StartsWithDot(b: string)
    requires "./" <= b
    ensures !AreNames(Split(b))
  {
    assert b == "." + "/" + b[2..];
    SplitAtSlash(".", b[2..]);
    SplitWhole(".");
    assert Split(b)[0] == "." && "." in Split(b);
  }

  lemma PathWithoutSuffix(outer: string)
    requires outer == "" || outer[|outer| - 1] != '/'
    ensures PathOf(outer) == PathOfParts(Split(TrimPrefix(outer, "./")))
  {
    var a := TrimPrefix(outer, "./");
    assert TrimSuffix(a, "/") == a;
    PathIs(outer, Split(a));
  }

  lemma PathWithoutPrefix(inner: string)
    requires !("./" <= inner)
    ensures PathOf(inner) == PathOfParts(Split(TrimSuffix(inner, "/")))
  {
    PathIs(inner, Split(TrimSuffix(inner, "/")));
  }

  ghost function PathOfParts(segments: seq<string>): Option<seq<string>> {
    if AreNames(segments) then Some(segments) else None
  }

  lemma PathOfJoined(outer: string, inner: string)
    requires outer != "." && inner != ""
    ensures PathOf(outer + "/" + inner) ==
            PathOfParts(Split(TrimPrefix(outer, "./")) + Split(TrimSuffix(inner, "/")))
  {
    SegmentsOfJoined(outer, inner);
    PathIs(outer + "/" + inner, Split(TrimPrefix(outer, "./")) + Split(TrimSuffix(inner, "/")));
  }

  lemma LedByDot(inner: string)
    requires "./" <= inner && PathOf(inner).Some?
    ensures !AreNames(Split(TrimSuffix(inner, "/")))
  {
    assert TrimSuffix("", "/") == "";
    assert inner != "./";
    StartsWithDot(TrimSuffix(inner, "/"));
  }

  lemma EndsInSlash(outer: string)
    requires outer != "" && outer[|outer| - 1] == '/' && PathOf(outer).Some?
    ensures !AreNames(Split(TrimPrefix(outer, "./")))
  {
    assert TrimSuffix("", "/") == "";
    assert outer != "./";
    EndsEmpty(TrimPrefix(outer, "./"));
  }

  /** Two keys joined by a slash spell the two paths in turn; one that ends in a slash, or is led by "./",
      does not join. */
  lemma SlashedPath(outer: string, inner: string)
    requires PathOf(outer).Some? && PathOf(inner).Some?
    ensures PathOf(outer + "/" + inner) ==
            if JoinsCleanly(outer, inner) then Some(PathOf(outer).value + PathOf(inner).value) else None
  {
    DotIsNoPath();
    PathOfJoined(outer, inner);
    NamesOfBoth(Split(TrimPrefix(outer, "./")), Split(TrimSuffix(inner, "/")));
    if outer != "" && outer[|outer| - 1] == '/' {
      EndsInSlash(outer);
    } else if "./" <= inner {
      LedByDot(inner);
    } else {
      PathWithoutSuffix(outer);
      PathWithoutPrefix(inner);
    }
  }

  lemma {:induction false} SplitOfJoined(path: seq<string>, rel: string)
    requires path != [] && NoSlash(path) && (rel == Joined(path) || Joined(path) + "/" <= rel)
    ensures path <= Split(rel)
  {
    SplitInvertsJoined(path);
    if rel != Joined(path) {
      var more := rel[|Joined(path)| + 1..];
      assert rel == Joined(path) + "/" + more;
      SplitAtSlash(Joined(path), more);
    }
  }
}
