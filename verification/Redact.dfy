/** Redaction: overlapping hits are merged in place, then each merged span becomes one marker. */
module Redaction {
  /** A match of one pattern: the bytes from start up to end. */
  datatype Hit = Hit(kind: string, start: nat, end: nat)

  predicate InRange(hits: seq<Hit>, length: nat) {
    forall k | 0 <= k < |hits| :: hits[k].start <= hits[k].end <= length
  }

  /** Earliest first; the longer one first on ties. */
  predicate Before(a: Hit, b: Hit) {
    a.start < b.start || (a.start == b.start && a.end >= b.end)
  }

  predicate SortedHits(hits: seq<Hit>) {
    forall k, l | 0 <= k < l < |hits| :: Before(hits[k], hits[l])
  }

  ghost predicate Covered(hits: seq<Hit>, i: nat) {
    exists k | 0 <= k < |hits| :: hits[k].start <= i < hits[k].end
  }

  method InsertHit(s: seq<Hit>, h: Hit) returns (r: seq<Hit>)
    requires SortedHits(s)
    ensures SortedHits(r) && multiset(r) == multiset(s) + multiset{h}
  {
    var k := 0;
    while k < |s| && Before(s[k], h)
      invariant k <= |s| && forall j | 0 <= j < k :: Before(s[j], h)
    {
      k := k + 1;
    }
    InsertKeepsSorted(s, h, k);
    r := s[..k] + [h] + s[k..];
  }

  lemma InsertKeepsSorted(s: seq<Hit>, h: Hit, k: nat)
    requires SortedHits(s) && k <= |s| && (forall j | 0 <= j < k :: Before(s[j], h)) && (k < |s| ==> !Before(s[k], h))
    ensures SortedHits(s[..k] + [h] + s[k..])
    ensures multiset(s[..k] + [h] + s[k..]) == multiset(s) + multiset{h}
  {
    forall j | k <= j < |s| ensures Before(h, s[j]) {
      assert k < j ==> Before(s[k], s[j]);
    }
    InsertCounts(s, h, k);
  }

  lemma InsertCounts(s: seq<Hit>, h: Hit, k: nat)
    requires k <= |s|
    ensures multiset(s[..k] + [h] + s[k..]) == multiset(s) + multiset{h}
  {
    assert s == s[..k] + s[k..];
  }

  method SortHits(hits: seq<Hit>) returns (r: seq<Hit>)
    ensures SortedHits(r) && multiset(r) == multiset(hits)
  {
    r := [];
    for n := 0 to |hits|
      invariant SortedHits(r) && multiset(r) == multiset(hits[..n])
    {
      r := InsertHit(r, hits[n]);
      assert hits[..n + 1] == hits[..n] + [hits[n]];
    }
    assert hits[..|hits|] == hits;
  }

  // ---- merging ----

  function Max(a: nat, b: nat): nat {
    if a < b then b else a
  }

  /** A hit that starts inside the last span extends it; any other opens a new one. */
  function Extend(spans: seq<Hit>, h: Hit): seq<Hit> {
    var last := |spans| - 1;
    if spans != [] && h.start < spans[last].end then spans[last := spans[last].(end := Max(spans[last].end, h.end))]
    else spans + [h]
  }

  /** The spans of sorted hits. */
  function Merged(hits: seq<Hit>): seq<Hit> {
    if hits == [] then [] else Extend(Merged(hits[..|hits| - 1]), hits[|hits| - 1])
  }

  lemma MergedStep(hits: seq<Hit>, i: nat)
    requires i < |hits|
    ensures Merged(hits[..i + 1]) == Extend(Merged(hits[..i]), hits[i])
  {
    assert hits[..i + 1][..i] == hits[..i];
  }

  /** Compact the hits over their own array, returning how many spans it now starts with. */
  method MergeInPlace(hits: array<Hit>) returns (n: nat)
    modifies hits
    ensures n <= hits.Length && hits[..n] == Merged(old(hits[..]))
  {
    ghost var was := hits[..];
    n := 0;
    for i := 0 to hits.Length
      invariant n <= i && hits[..n] == Merged(was[..i])
      invariant forall k | i <= k < hits.Length :: hits[k] == was[k]
    {
      MergedStep(was, i);
      ghost var spans := hits[..n];
      var h := hits[i];
      if n > 0 && h.start < hits[n - 1].end {
        hits[n - 1] := hits[n - 1].(end := Max(hits[n - 1].end, h.end));
      } else {
        hits[n] := h;
        n := n + 1;
      }
      assert hits[..n] == Extend(spans, h);
    }
    assert was[..hits.Length] == was;
  }

  ghost predicate Disjoint(spans: seq<Hit>) {
    forall k, l | 0 <= k < l < |spans| :: spans[k].end <= spans[l].start
  }

  ghost predicate Within(h: Hit, span: Hit) {
    span.start <= h.start && h.end <= span.end
  }

  /** Everything the merge promises of the spans of these hits. */
  ghost predicate IsMerge(hits: seq<Hit>, spans: seq<Hit>) {
    && Disjoint(spans)
    && (forall i: nat :: Covered(spans, i) <==> Covered(hits, i))
    && (forall h | h in hits :: Inside(h, spans))
    && forall span | span in spans :: Anchored(hits, span)
  }

  /** A span starts with its earliest hit, the longest of those, and takes its kind; it ends with some hit. */
  ghost predicate Anchored(hits: seq<Hit>, span: Hit) {
    && span.start <= span.end
    && (exists h :: h in hits && h.start == span.start && h.kind == span.kind &&
          forall o | o in hits && o.start == h.start :: o.end <= h.end)
    && exists h :: h in hits && span.start <= h.start && h.end == span.end
  }

  /** The span a hit of the merge falls into. */
  lemma ExtendCovers(spans: seq<Hit>, h: Hit)
    requires spans != [] ==> spans[|spans| - 1].start <= h.start
    ensures forall i: nat :: Covered(Extend(spans, h), i) <==> Covered(spans, i) || h.start <= i < h.end
  {
    var r := Extend(spans, h);
    forall i: nat ensures Covered(r, i) <==> Covered(spans, i) || h.start <= i < h.end {
      if Covered(spans, i) {
        var k :| 0 <= k < |spans| && spans[k].start <= i < spans[k].end;
        assert r[k].start <= i < r[k].end;
      }
      assert h.start <= i < h.end ==> r[|r| - 1].start <= i < r[|r| - 1].end;
      if Covered(r, i) {
        var k :| 0 <= k < |r| && r[k].start <= i < r[k].end;
        assert k < |spans| - 1 ==> spans[k].start <= i < spans[k].end;
        assert k == |spans| - 1 ==> spans[k].start <= i < spans[k].end || h.start <= i < h.end;
      }
    }
  }

  ghost predicate Inside(h: Hit, spans: seq<Hit>) {
    exists k | 0 <= k < |spans| :: Within(h, spans[k])
  }

  lemma ExtendKeepsInside(spans: seq<Hit>, h: Hit, o: Hit)
    requires spans != [] ==> spans[|spans| - 1].start <= h.start
    requires Inside(o, spans) || o == h
    ensures Inside(o, Extend(spans, h))
  {
    var r := Extend(spans, h);
    if Inside(o, spans) {
      var k :| 0 <= k < |spans| && Within(o, spans[k]);
      assert Within(o, r[k]);
    } else {
      assert Within(h, r[|r| - 1]);
    }
  }

  lemma AnchorsStand(front: seq<Hit>, h: Hit, span: Hit)
    requires SortedHits(front + [h]) && Anchored(front, span)
    ensures Anchored(front + [h], span) && span.start <= h.start
    ensures h.start < span.end ==> Anchored(front + [h], span.(end := Max(span.end, h.end)))
  {
    var all := front + [h];
    var a :| a in front && a.start == span.start && a.kind == span.kind &&
      forall o | o in front && o.start == a.start :: o.end <= a.end;
    var k :| 0 <= k < |front| && front[k] == a;
    assert Before(all[k], all[|front|]);
    assert a in all && forall o | o in all && o.start == a.start :: o.end <= a.end;
    var e :| e in front && span.start <= e.start && e.end == span.end;
    assert e in all && h in all;
  }

  /** Merging keeps the spans apart, covers the same bytes, and keeps every hit whole. */
  lemma {:induction false} MergeIsRight(hits: seq<Hit>, length: nat)
    requires SortedHits(hits) && InRange(hits, length)
    ensures IsMerge(hits, Merged(hits)) && InRange(Merged(hits), length)
    ensures |Merged(hits)| <= |hits|
  {
    if hits != [] {
      var front, h := hits[..|hits| - 1], hits[|hits| - 1];
      var spans := Merged(front);
      assert hits == front + [h];
      MergeIsRight(front, length);
      ExtendIsRight(front, h, spans);
    }
  }

  lemma ExtendIsRight(front: seq<Hit>, h: Hit, spans: seq<Hit>)
    requires SortedHits(front + [h]) && IsMerge(front, spans) && h.start <= h.end
    ensures IsMerge(front + [h], Extend(spans, h))
  {
    var all, r := front + [h], Extend(spans, h);
    ExtendIsAnchored(front, h, spans);
    ExtendIsDisjoint(front, h, spans);
    ExtendCovers(spans, h);
    CoveredByMore(front, h);
    forall o | o in all ensures Inside(o, r) {
      ExtendKeepsInside(spans, h, o);
    }
  }

  lemma ExtendIsAnchored(front: seq<Hit>, h: Hit, spans: seq<Hit>)
    requires SortedHits(front + [h]) && IsMerge(front, spans) && h.start <= h.end
    ensures forall span | span in Extend(spans, h) :: Anchored(front + [h], span)
    ensures spans != [] ==> spans[|spans| - 1].start <= h.start
  {
    var r := Extend(spans, h);
    if spans != [] {
      AnchorsStand(front, h, spans[|spans| - 1]);
    }
    if spans == [] || spans[|spans| - 1].end <= h.start {
      NewSpanIsAnchored(front, h, spans);
    }
    assert Anchored(front + [h], r[|r| - 1]);
    forall k | 0 <= k < |r| - 1 ensures Anchored(front + [h], r[k]) {
      AnchorsStand(front, h, spans[k]);
    }
  }

  lemma ExtendIsDisjoint(front: seq<Hit>, h: Hit, spans: seq<Hit>)
    requires Disjoint(spans) && h.start <= h.end && forall span | span in spans :: Anchored(front, span)
    ensures Disjoint(Extend(spans, h))
  {
    if spans != [] {
      assert Anchored(front, spans[|spans| - 1]);
    }
  }

  /** A hit that opens a span is the longest one starting there. */
  lemma NewSpanIsAnchored(front: seq<Hit>, h: Hit, spans: seq<Hit>)
    requires SortedHits(front + [h]) && IsMerge(front, spans) && h.start <= h.end
    requires spans == [] || spans[|spans| - 1].end <= h.start
    ensures Anchored(front + [h], h)
  {
    var all := front + [h];
    forall o | o in all && o.start == h.start ensures o.end <= h.end {
      if o in front {
        assert Inside(o, spans);
        var k :| 0 <= k < |spans| && Within(o, spans[k]);
        assert spans[|spans| - 1] in spans && Anchored(front, spans[|spans| - 1]);
        assert k < |spans| - 1 ==> spans[k].end <= spans[|spans| - 1].start <= spans[|spans| - 1].end;
      }
    }
    assert h in all;
  }

  lemma CoveredByMore(front: seq<Hit>, h: Hit)
    ensures forall i: nat :: Covered(front + [h], i) <==> Covered(front, i) || h.start <= i < h.end
  {
    forall i: nat ensures Covered(front + [h], i) <==> Covered(front, i) || h.start <= i < h.end {
      if Covered(front, i) {
        var k :| 0 <= k < |front| && front[k].start <= i < front[k].end;
        assert (front + [h])[k] == front[k];
      }
      assert (front + [h])[|front|] == h;
    }
  }

  // ---- writing ----

  /** A marker quotes the kind of what it stands for and nothing of the text. */
  function Marker(kind: string): (m: string)
    ensures |m| == |kind| + 11 && m[..10] == "«redacted:" && m[10..|m| - 1] == kind && m[|m| - 1] == '»'
  {
    "«redacted:" + kind + "»"
  }

  /** The text read byte by byte: a flagged byte is dropped, and each span puts its marker where it starts. */
  ghost function Scrubbed(s: string, hits: seq<Hit>, spans: seq<Hit>, i: nat): string
    requires i <= |s|
    decreases |s| - i, |spans|
  {
    if spans != [] && spans[0].start <= i then Marker(spans[0].kind) + Scrubbed(s, hits, spans[1..], i)
    else if i == |s| then ""
    else (if Covered(hits, i) then "" else [s[i]]) + Scrubbed(s, hits, spans, i + 1)
  }

  /** Unflagged bytes before the next span are copied. */
  lemma {:induction false} CopyRun(s: string, hits: seq<Hit>, spans: seq<Hit>, i: nat, stop: nat)
    requires i <= stop <= |s| && (spans != [] ==> stop <= spans[0].start)
    requires forall j | i <= j < stop :: !Covered(hits, j)
    ensures Scrubbed(s, hits, spans, i) == s[i..stop] + Scrubbed(s, hits, spans, stop)
    decreases stop - i
  {
    if i < stop {
      CopyRun(s, hits, spans, i + 1, stop);
      assert s[i..stop] == [s[i]] + s[i + 1..stop];
      assert Scrubbed(s, hits, spans, i) == [s[i]] + Scrubbed(s, hits, spans, i + 1);
    } else {
      assert s[i..stop] == "";
    }
  }

  /** Flagged bytes are dropped. */
  lemma {:induction false} DropRun(s: string, hits: seq<Hit>, spans: seq<Hit>, i: nat, stop: nat)
    requires i <= stop <= |s| && (spans != [] ==> stop <= spans[0].start)
    requires forall j | i <= j < stop :: Covered(hits, j)
    ensures Scrubbed(s, hits, spans, i) == Scrubbed(s, hits, spans, stop)
    decreases stop - i
  {
    if i < stop {
      DropRun(s, hits, spans, i + 1, stop);
      assert Scrubbed(s, hits, spans, i) == Scrubbed(s, hits, spans, i + 1);
    }
  }

  /** Replace every flagged byte, returning the text and the spans replaced. */
  method Scrub(s: string, hits: seq<Hit>) returns (out: string, accepted: seq<Hit>)
    requires InRange(hits, |s|)
    ensures hits == [] ==> out == s && accepted == []
    ensures IsMerge(hits, accepted) && out == Scrubbed(s, hits, accepted, 0)
  {
    if hits == [] {
      NothingToScrub(s, 0);
      return s, [];
    }
    var sorted := SortHits(hits);
    SameElements(sorted, hits);
    var a := new Hit[|sorted|](i requires 0 <= i < |sorted| => sorted[i]);
    assert a[..] == sorted;
    var n := MergeInPlace(a);
    accepted := a[..n];
    MergeIsRight(sorted, |s|);
    SameHits(sorted, hits, accepted);
    assert accepted[0..] == accepted;
    out := WriteMarkers(s, hits, accepted);
  }

  /** What is left to write once the text up to cursor and the first k spans are done. */
  ghost predicate Remaining(s: string, hits: seq<Hit>, spans: seq<Hit>, k: nat, cursor: nat)
    requires k <= |spans|
  {
    && cursor <= |s| && (forall l | k <= l < |spans| :: cursor <= spans[l].start)
    && forall j: nat | cursor <= j :: Covered(hits, j) <==> Covered(spans[k..], j)
  }

  method WriteMarkers(s: string, ghost hits: seq<Hit>, accepted: seq<Hit>) returns (out: string)
    requires Disjoint(accepted) && InRange(accepted, |s|) && Remaining(s, hits, accepted, 0, 0)
    ensures out == Scrubbed(s, hits, accepted, 0)
  {
    ghost var goal := Scrubbed(s, hits, accepted, 0);
    out := "";
    var cursor: nat := 0;
    assert accepted[0..] == accepted;
    for k := 0 to |accepted|
      invariant Remaining(s, hits, accepted, k, cursor)
      invariant out + Scrubbed(s, hits, accepted[k..], cursor) == goal
    {
      var h := accepted[k];
      NextSpan(s, hits, accepted, k, cursor);
      out := out + (s[cursor..h.start] + Marker(h.kind));
      cursor := h.end;
    }
    LastRun(s, hits, accepted, cursor);
    out := out + s[cursor..];
  }

  lemma LastRun(s: string, hits: seq<Hit>, spans: seq<Hit>, cursor: nat)
    requires Remaining(s, hits, spans, |spans|, cursor)
    ensures Scrubbed(s, hits, spans[|spans|..], cursor) == s[cursor..]
  {
    assert spans[|spans|..] == [];
    CopyRun(s, hits, [], cursor, |s|);
  }

  lemma SameElements(sorted: seq<Hit>, hits: seq<Hit>)
    requires multiset(sorted) == multiset(hits)
    ensures forall h :: h in hits <==> h in sorted
    ensures forall length :: InRange(hits, length) ==> InRange(sorted, length)
  {
    assert forall h :: h in hits <==> h in multiset(hits);
    assert forall h :: h in sorted <==> h in multiset(sorted);
    assert forall k | 0 <= k < |sorted| :: sorted[k] in hits;
  }

  lemma {:induction false} NothingToScrub(s: string, i: nat)
    requires i <= |s|
    ensures Scrubbed(s, [], [], i) == s[i..]
  {
    CopyRun(s, [], [], i, |s|);
  }

  /** The same hits in another order cover the same bytes. */
  lemma SameHits(sorted: seq<Hit>, hits: seq<Hit>, spans: seq<Hit>)
    requires (forall h :: h in hits <==> h in sorted) && IsMerge(sorted, spans)
    ensures IsMerge(hits, spans)
  {
    forall i: nat ensures Covered(sorted, i) <==> Covered(hits, i) {
      if Covered(sorted, i) {
        var k :| 0 <= k < |sorted| && sorted[k].start <= i < sorted[k].end;
        assert sorted[k] in hits;
      }
      if Covered(hits, i) {
        var k :| 0 <= k < |hits| && hits[k].start <= i < hits[k].end;
        assert hits[k] in sorted;
      }
    }
    forall span | span in spans ensures Anchored(hits, span) {
      assert Anchored(sorted, span);
    }
  }

  lemma CoveredTail(spans: seq<Hit>, k: nat)
    requires k < |spans| && Disjoint(spans) && forall l | 0 <= l < |spans| :: spans[l].start <= spans[l].end
    ensures forall j: nat | j < spans[k].start :: !Covered(spans[k..], j)
    ensures forall j: nat | spans[k].start <= j < spans[k].end :: Covered(spans[k..], j)
    ensures forall j: nat | spans[k].end <= j :: Covered(spans[k..], j) <==> Covered(spans[k + 1..], j)
  {
    var rest, next := spans[k..], spans[k + 1..];
    assert rest[0] == spans[k];
    forall j: nat | spans[k].end <= j ensures Covered(rest, j) <==> Covered(next, j) {
      if Covered(rest, j) {
        var l :| 0 <= l < |rest| && rest[l].start <= j < rest[l].end;
        assert next[l - 1] == rest[l];
      }
      if Covered(next, j) {
        var l :| 0 <= l < |next| && next[l].start <= j < next[l].end;
        assert rest[l + 1] == next[l];
      }
    }
  }

  /** Up to the next span nothing is covered, then all of it is, and the rest remains. */
  lemma SpanCovers(s: string, hits: seq<Hit>, spans: seq<Hit>, k: nat, cursor: nat)
    requires k < |spans| && InRange(spans, |s|) && Disjoint(spans) && Remaining(s, hits, spans, k, cursor)
    ensures Remaining(s, hits, spans, k + 1, spans[k].end)
    ensures forall j | cursor <= j < spans[k].start :: !Covered(hits, j)
    ensures forall j | spans[k].start <= j < spans[k].end :: Covered(hits, j)
  {
    CoveredTail(spans, k);
  }

  lemma NextSpan(s: string, hits: seq<Hit>, spans: seq<Hit>, k: nat, cursor: nat)
    requires k < |spans| && InRange(spans, |s|) && Disjoint(spans) && Remaining(s, hits, spans, k, cursor)
    ensures Remaining(s, hits, spans, k + 1, spans[k].end)
    ensures Scrubbed(s, hits, spans[k..], cursor) ==
            s[cursor..spans[k].start] + Marker(spans[k].kind) + Scrubbed(s, hits, spans[k + 1..], spans[k].end)
  {
    var h, rest := spans[k], spans[k..];
    assert rest[1..] == spans[k + 1..] && rest[0] == h;
    SpanCovers(s, hits, spans, k, cursor);
    CopyRun(s, hits, rest, cursor, h.start);
    DropRun(s, hits, rest[1..], h.start, h.end);
  }
}
