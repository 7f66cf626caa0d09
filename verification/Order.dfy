/** The byte order on node ids, and the sort the diff and rollback lists go through. */
module Order {

  predicate Less(a: string, b: string) {
    b != "" && (a == "" || a[0] < b[0] || (a[0] == b[0] && Less(a[1..], b[1..])))
  }

  /** The two agree up to k, where a ends or has the smaller character. */
  ghost predicate SmallerFrom(a: string, b: string, k: nat) {
    k < |b| && k <= |a| && a[..k] == b[..k] && (k == |a| || a[k] < b[k])
  }

  /** a is a proper prefix of b, or the first place where they differ has the smaller character in a. */
  lemma {:induction false} LessIsLexicographic(a: string, b: string)
    ensures Less(a, b) <==> exists k: nat :: SmallerFrom(a, b, k)
  {
    if a == "" || b == "" || a[0] != b[0] {
      assert Less(a, b) ==> SmallerFrom(a, b, 0);
      forall k: nat | 0 < k && SmallerFrom(a, b, k) ensures Less(a, b) {
        assert a[..k][0] == b[..k][0];
      }
    } else {
      LessIsLexicographic(a[1..], b[1..]);
      if k: nat :| SmallerFrom(a[1..], b[1..], k) {
        assert a[..k + 1] == [a[0]] + a[1..][..k] && b[..k + 1] == [b[0]] + b[1..][..k];
        assert SmallerFrom(a, b, k + 1);
      }
      if k: nat :| SmallerFrom(a, b, k) {
        assert k > 0 && a[1..][..k - 1] == a[..k][1..] && b[1..][..k - 1] == b[..k][1..];
        assert SmallerFrom(a[1..], b[1..], k - 1);
      }
    }
  }

  lemma {:induction false} LessIsTotal(a: string, b: string)
    ensures a == b || Less(a, b) || Less(b, a)
  {
    if a != "" && b != "" && a[0] == b[0] {
      LessIsTotal(a[1..], b[1..]);
      assert a == [a[0]] + a[1..] && b == [b[0]] + b[1..];
    }
  }

  lemma {:induction false} LessIsTransitive(a: string, b: string, c: string)
    requires Less(a, b) && Less(b, c)
    ensures Less(a, c)
  {
    if a != "" && a[0] == b[0] && b[0] == c[0] {
      LessIsTransitive(a[1..], b[1..], c[1..]);
    }
  }

  lemma {:induction false} LessIsIrreflexive(a: string)
    ensures !Less(a, a)
  {
    if a != "" {
      LessIsIrreflexive(a[1..]);
    }
  }

  ghost predicate Ascending<T>(s: seq<T>, key: T -> string) {
    forall i, j | 0 <= i < j < |s| :: Less(key(s[i]), key(s[j]))
  }

  ghost predicate DistinctKeys<T>(s: seq<T>, key: T -> string) {
    forall i, j | 0 <= i < j < |s| :: key(s[i]) != key(s[j])
  }

  lemma AscendingIsDistinct<T>(s: seq<T>, key: T -> string)
    requires Ascending(s, key)
    ensures DistinctKeys(s, key)
  {
    forall i, j | 0 <= i < j < |s| ensures key(s[i]) != key(s[j]) {
      LessIsIrreflexive(key(s[i]));
    }
  }

  /** A strictly ascending list is determined by its members, so whatever order
      the items were collected in leaves no trace in the sorted list. */
  lemma {:induction false} AscendingIsCanonical<T>(s: seq<T>, t: seq<T>, key: T -> string)
    requires Ascending(s, key) && Ascending(t, key)
    requires forall x :: x in s <==> x in t
    ensures s == t
  {
    assert forall i | 0 <= i < |s| :: s[i] in s;
    assert forall i | 0 <= i < |t| :: t[i] in t;
    if s != [] && t != [] {
      assert s[0] in t && t[0] in s;
      if s[0] != t[0] {
        LessIsTransitive(key(s[0]), key(t[0]), key(s[0]));
        LessIsIrreflexive(key(s[0]));
      }
      LessIsIrreflexive(key(s[0]));
      forall x ensures x in s[1..] <==> x in t[1..] {
        assert x in s <==> x == s[0] || x in s[1..];
        assert x in t <==> x == t[0] || x in t[1..];
      }
      AscendingIsCanonical(s[1..], t[1..], key);
      assert s == [s[0]] + s[1..] && t == [t[0]] + t[1..];
    }
  }

  /** Place one item into an ascending list. */
  method Insert<T>(s: seq<T>, x: T, key: T -> string) returns (r: seq<T>)
    requires Ascending(s, key) && forall y | y in s :: key(y) != key(x)
    ensures Ascending(r, key)
    ensures forall y :: y in r <==> y in s || y == x
  {
    var i := 0;
    while i < |s| && Less(key(s[i]), key(x))
      invariant 0 <= i <= |s|
      invariant forall j | 0 <= j < i :: Less(key(s[j]), key(x))
    {
      i := i + 1;
    }
    InsertAscends(s, x, i, key);
    r := s[..i] + [x] + s[i..];
  }

  lemma InsertAscends<T>(s: seq<T>, x: T, i: nat, key: T -> string)
    requires Ascending(s, key) && (forall y | y in s :: key(y) != key(x)) && i <= |s|
    requires (forall j | 0 <= j < i :: Less(key(s[j]), key(x))) && (i < |s| ==> !Less(key(s[i]), key(x)))
    ensures Ascending(s[..i] + [x] + s[i..], key)
    ensures forall y :: y in s[..i] + [x] + s[i..] <==> y in s || y == x
  {
    forall j | i <= j < |s| ensures Less(key(x), key(s[j])) {
      assert s[i] in s;
      LessIsTotal(key(x), key(s[i]));
      if i < j {
        LessIsTransitive(key(x), key(s[i]), key(s[j]));
      }
    }
    assert s == s[..i] + s[i..];
  }

  method Sort<T>(items: seq<T>, key: T -> string) returns (r: seq<T>)
    requires DistinctKeys(items, key)
    ensures Ascending(r, key)
    ensures forall x :: x in r <==> x in items
  {
    r := [];
    for k := 0 to |items|
      invariant Ascending(r, key)
      invariant forall x :: x in r <==> x in items[..k]
    {
      r := Insert(r, items[k], key);
      assert items[..k + 1] == items[..k] + [items[k]];
    }
    assert items[..|items|] == items;
  }
}
