/** Which client a compacted file is reported for. */
module LedgerOwners {
  import opened Ledgers
  import opened Wrappers

  /** One of the records seen last. */
  ghost predicate IsTop(records: seq<Record>, i: nat) {
    i < |records| && records[i].lastSeen >= -1 && forall r | r in records :: r.lastSeen <= records[i].lastSeen
  }

  /** The last of them in reading order, which is the one reported. */
  ghost predicate LastTop(records: seq<Record>, i: nat) {
    IsTop(records, i) && forall l: nat | i < l < |records| :: !IsTop(records, l)
  }

  lemma {:induction false} NewestIsLastTop(records: seq<Record>, i: nat)
    requires LastTop(records, i)
    ensures Newest(records) == Some(records[i])
    decreases |records|
  {
    var n := |records| - 1;
    var front, last := records[..n], records[n];
    assert records == front + [last];
    if i == n {
      assert Newest(front).Some? ==> Newest(front).value in records;
      assert records[i] == last;
    } else {
      assert records[i] in front && front[i] == records[i];
      assert last.lastSeen < records[i].lastSeen by {
        assert !IsTop(records, n);
      }
      forall l: nat | i < l < |front| ensures !IsTop(front, l) {
        assert !IsTop(records, l) && front[l] == records[l];
      }
      NewestIsLastTop(front, i);
    }
  }

  lemma NoTopNoNewest(records: seq<Record>)
    requires forall i: nat :: !IsTop(records, i)
    ensures Newest(records) == None
  {
    if Newest(records).Some? {
      var n := Newest(records).value;
      var i :| 0 <= i < |records| && records[i] == n;
      assert IsTop(records, i);
    }
  }

  lemma {:induction false} LastTopExists(records: seq<Record>, k: nat) returns (i: nat)
    requires IsTop(records, k)
    ensures LastTop(records, i)
    decreases |records| - k
  {
    if l: nat :| k < l < |records| && IsTop(records, l) {
      i := LastTopExists(records, l);
    } else {
      i := k;
    }
  }

  // ---- where the sessions stand ----

  /** Appending never moves a session; a new one comes last. */
  lemma {:induction false} PlacesStay(a: seq<Record>, more: seq<Record>)
    ensures var was, now := Latest(a), Latest(a + more);
      |was| <= |now| && forall k | 0 <= k < |was| :: now[k].sessionId == was[k].sessionId
  {
    if more == [] {
      assert a + more == a;
    } else {
      var last := |more| - 1;
      PlacesStay(a, more[..last]);
      assert a + more == (a + more[..last]) + [more[last]];
      PutIsLatest(a + more[..last], more[last]);
      PutSessions(Latest(a + more[..last]), more[last]);
    }
  }

  /** New sessions come in the same order whatever order the old ones stand in. */
  lemma {:induction false} NewPlacesAgree(a: seq<Record>, b: seq<Record>, more: seq<Record>)
    requires LatestMap(a) == LatestMap(b)
    ensures SameFrom(Latest(a + more), Latest(b + more), |Latest(a)|) && |Latest(a)| == |Latest(b)|
  {
    if more == [] {
      assert a + more == a && b + more == b;
      SameLength(a, b);
    } else {
      var last := |more| - 1;
      var a1, b1, r := a + more[..last], b + more[..last], more[last];
      NewPlacesAgree(a, b, more[..last]);
      LatestMapAppend(a, b, more[..last]);
      assert a + more == a1 + [r] && b + more == b1 + [r];
      PutIsLatest(a1, r);
      PutIsLatest(b1, r);
      SameSessions(a1, b1, r.sessionId);
      PutKeepsSame(Latest(a1), Latest(b1), |Latest(a)|, r);
    }
  }

  /** The same sessions, in the same places from here on. */
  ghost predicate SameFrom(a: seq<Record>, b: seq<Record>, from: nat) {
    |a| == |b| && forall k | from <= k < |a| :: a[k].sessionId == b[k].sessionId
  }

  lemma PutKeepsSame(a: seq<Record>, b: seq<Record>, from: nat, r: Record)
    requires SameFrom(a, b, from) && (HasSession(a, r.sessionId) <==> HasSession(b, r.sessionId))
    ensures SameFrom(Put(a, r), Put(b, r), from)
  {
    PutSessions(a, r);
    PutSessions(b, r);
  }

  lemma SameLength(a: seq<Record>, b: seq<Record>)
    requires LatestMap(a) == LatestMap(b)
    ensures |Latest(a)| == |Latest(b)|
  {
    LatestListsMap(a);
    LatestListsMap(b);
    SumOfSessions(Latest(a), Latest(b), LatestMap(a), Calls);
  }

  lemma SameSessions(a: seq<Record>, b: seq<Record>, id: string)
    requires LatestMap(a) == LatestMap(b)
    ensures HasSession(Latest(a), id) <==> HasSession(Latest(b), id)
  {
    LatestListsMap(a);
    LatestListsMap(b);
  }

  /** The sessions of a file before compaction and after it, each with what is appended later. */
  ghost predicate Places(was: seq<Record>, sorted: seq<Record>, now: seq<Record>, after: seq<Record>) {
    && |was| == |sorted| <= |now| == |after|
    && (forall k | 0 <= k < |was| :: now[k].sessionId == was[k].sessionId)
    && (forall k | 0 <= k < |was| :: after[k].sessionId == sorted[k].sessionId)
    && (forall k | |was| <= k < |now| :: now[k].sessionId == after[k].sessionId)
    && DistinctSessions(now) && DistinctSessions(after) && Chronological(sorted)
    && (forall x :: x in was <==> x in sorted) && forall x :: x in now <==> x in after
  }

  lemma CompactionPlaces(lines: seq<Line>, r: seq<Line>, more: seq<Line>)
    requires Compacted(lines, r) && Latest(Records(lines)) != []
    ensures Places(Latest(Records(lines)), Records(r), Latest(Records(lines + more)), Latest(Records(r + more)))
  {
    var was, sorted, later := Records(lines), Records(r), Records(more);
    RecordsAppend(lines, more);
    RecordsAppend(r, more);
    CompactedListsMap(lines, r);
    DistinctIsLatest(sorted);
    SameInAnyOrder(Latest(was), sorted);
    PlacesStay(was, later);
    PlacesStay(sorted, later);
    NewPlacesAgree(was, sorted, later);
    CompactionKeepsTotals(lines, r, more);
    LatestListsMap(was + later);
    LatestListsMap(sorted + later);
  }

  /** Where a session of the original file stands in the compacted one. */
  lemma PlaceOf(was: seq<Record>, sorted: seq<Record>, now: seq<Record>, after: seq<Record>, k: nat) returns (p: nat)
    requires Places(was, sorted, now, after) && k < |now|
    ensures p < |after| && after[p] == now[k]
    ensures if k < |was| then p < |was| && sorted[p] == was[k] else p == k
  {
    assert now[k] in after;
    if k < |was| {
      assert was[k] in sorted;
      p :| 0 <= p < |sorted| && sorted[p] == was[k];
    } else {
      p := k;
    }
    var q :| 0 <= q < |after| && after[q] == now[k];
    assert after[q].sessionId == after[p].sessionId;
  }

  // ---- the owner of the compacted file ----

  /** A session new since the compaction comes after every earlier one; the others stand in order of
      the connection times they were compacted with. */
  ghost predicate ComesBefore(was: seq<Record>, l: nat, j: nat) {
    if j >= |was| then l < j else l < |was| && Earlier(was[l], was[j])
  }

  /** Of the records seen last, the one that comes last in a compacted file. */
  ghost predicate ConnectedLast(was: seq<Record>, now: seq<Record>, j: nat) {
    IsTop(now, j) && forall l: nat | l != j && IsTop(now, l) :: ComesBefore(was, l, j)
  }

  /** Coming before in this order is standing before in the compacted file. */
  lemma PlacesOrdered(was: seq<Record>, sorted: seq<Record>, now: seq<Record>, after: seq<Record>,
                      l: nat, j: nat, p: nat, q: nat)
    requires Places(was, sorted, now, after) && l < |now| && j < |now| && p < |after| && q < |after|
    requires after[p] == now[l] && after[q] == now[j]
    ensures p < q <==> l != j && ComesBefore(was, l, j)
  {
    var p' := PlaceOf(was, sorted, now, after, l);
    var q' := PlaceOf(was, sorted, now, after, j);
    assert p == p' && q == q';
    if l < |was| && j < |was| {
      EarlierIsOrder(sorted[p], sorted[q], sorted[p]);
      EarlierIsOrder(sorted[q], sorted[p], sorted[q]);
    }
  }

  lemma SameTops(now: seq<Record>, after: seq<Record>, k: nat, p: nat)
    requires (forall x :: x in now <==> x in after) && k < |now| && p < |after| && now[k] == after[p]
    ensures IsTop(now, k) <==> IsTop(after, p)
  {
  }

  /** In the compacted file the reported record is the one that connected last. */
  lemma OwnerAfter(was: seq<Record>, sorted: seq<Record>, now: seq<Record>, after: seq<Record>, j: nat) returns (p: nat)
    requires Places(was, sorted, now, after) && ConnectedLast(was, now, j)
    ensures LastTop(after, p) && after[p] == now[j]
  {
    p := PlaceOf(was, sorted, now, after, j);
    SameTops(now, after, j, p);
    forall q: nat | p < q < |after| ensures !IsTop(after, q) {
      assert after[q] in now;
      var l :| 0 <= l < |now| && now[l] == after[q];
      SameTops(now, after, l, q);
      PlacesOrdered(was, sorted, now, after, l, j, q, p);
      assert l != j;
    }
  }

  lemma OtherTopComesBefore(was: seq<Record>, sorted: seq<Record>, now: seq<Record>, after: seq<Record>,
                            l: nat, j: nat, p: nat)
    requires Places(was, sorted, now, after) && LastTop(after, p) && j < |now| && now[j] == after[p]
    requires l != j && IsTop(now, l)
    ensures ComesBefore(was, l, j)
  {
    var t := PlaceOf(was, sorted, now, after, l);
    SameTops(now, after, l, t);
    PlacesOrdered(was, sorted, now, after, l, j, t, p);
    assert now[l].sessionId != now[j].sessionId;
  }

  /** And there always is one, when any record was seen at all. */
  lemma ConnectedLastExists(was: seq<Record>, sorted: seq<Record>, now: seq<Record>, after: seq<Record>, k: nat)
    returns (j: nat)
    requires Places(was, sorted, now, after) && IsTop(now, k)
    ensures ConnectedLast(was, now, j)
  {
    var q := PlaceOf(was, sorted, now, after, k);
    SameTops(now, after, k, q);
    var p := LastTopExists(after, q);
    assert after[p] in now;
    j :| 0 <= j < |now| && now[j] == after[p];
    SameTops(now, after, j, p);
    forall l: nat | l != j && IsTop(now, l) ensures ComesBefore(was, l, j) {
      OtherTopComesBefore(was, sorted, now, after, l, j, p);
    }
  }

  /** Whatever is appended later, a compacted file rolls up to the same summary exactly when, of the
      records seen last, the last one read and the last one connected are of one client and transport. */
  lemma CompactionKeepsSummaryIff(lines: seq<Line>, r: seq<Line>, more: seq<Line>, i: nat, j: nat)
    requires Compacted(lines, r)
    requires var was, now := Latest(Records(lines)), Latest(Records(lines + more));
      LastTop(now, i) && ConnectedLast(was, now, j)
    ensures var now := Latest(Records(lines + more));
      RollUp(r + more) == RollUp(lines + more) <==>
          now[i].client == now[j].client && now[i].transport == now[j].transport
  {
    var was, now, after := Latest(Records(lines)), Latest(Records(lines + more)), Latest(Records(r + more));
    CompactionKeepsTotals(lines, r, more);
    NewestIsLastTop(now, i);
    if was == [] {
      assert i == j;
    } else {
      CompactionPlaces(lines, r, more);
      var p := OwnerAfter(was, Records(r), now, after, j);
      NewestIsLastTop(after, p);
    }
  }

  /** The two records exist as soon as any was seen; when none was, the summary always stays. */
  lemma OwnersExist(lines: seq<Line>, r: seq<Line>, more: seq<Line>) returns (i: nat, j: nat)
    requires Compacted(lines, r)
    ensures var was, now := Latest(Records(lines)), Latest(Records(lines + more));
      if exists k: nat :: IsTop(now, k) then LastTop(now, i) && ConnectedLast(was, now, j)
      else RollUp(r + more) == RollUp(lines + more)
  {
    var was, now, after := Latest(Records(lines)), Latest(Records(lines + more)), Latest(Records(r + more));
    i, j := 0, 0;
    if k: nat :| IsTop(now, k) {
      i := LastTopExists(now, k);
      j := i;
      if was != [] {
        CompactionPlaces(lines, r, more);
        j := ConnectedLastExists(was, Records(r), now, after, k);
      } else {
        TopsBefore(now, i);
      }
    } else {
      NoTopNoNewest(now);
      CompactionKeepsTotals(lines, r, more);
    }
  }

  lemma TopsBefore(now: seq<Record>, i: nat)
    requires LastTop(now, i)
    ensures ConnectedLast([], now, i)
  {
    forall l: nat | l != i && IsTop(now, l) ensures ComesBefore([], l, i) {
    }
  }
}
