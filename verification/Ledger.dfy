/** The session ledger: append-only files of checkpoints, summarised and compacted per session. */
module Ledgers {
  import opened LedgerNames
  import opened Wrappers
  import Order

  datatype Record = Record(
    sessionId: string,
    client: Client,
    transport: string,
    connectedAt: int,
    lastSeen: int,
    disconnectedAt: int,
    toolCalls: int)

  /** One line of a file as the reader sees it. */
  datatype Line = Empty | Corrupt | Good(record: Record)

  function Records(lines: seq<Line>): seq<Record> {
    if lines == [] then []
    else
      var front, last := Records(lines[..|lines| - 1]), lines[|lines| - 1];
      if last.Good? then front + [last.record] else front
  }

  // ---- the latest checkpoint of each session ----

  predicate HasSession(records: seq<Record>, id: string) {
    exists k | 0 <= k < |records| :: records[k].sessionId == id
  }

  /** A later checkpoint takes the place of the session's earlier one. */
  function Put(records: seq<Record>, r: Record): seq<Record> {
    if HasSession(records, r.sessionId) then
      seq(|records|, k requires 0 <= k < |records| => if records[k].sessionId == r.sessionId then r else records[k])
    else records + [r]
  }

  function Latest(records: seq<Record>): seq<Record> {
    if records == [] then [] else Put(Latest(records[..|records| - 1]), records[|records| - 1])
  }

  predicate DistinctSessions(records: seq<Record>) {
    forall k, l | 0 <= k < l < |records| :: records[k].sessionId != records[l].sessionId
  }

  /** The reader's map and its order of first sight hold the latest records. */
  ghost predicate Tracks(bySession: map<string, Record>, order: seq<string>, latest: seq<Record>) {
    && |order| == |latest| && DistinctSessions(latest)
    && (forall k | 0 <= k < |order| ::
          order[k] == latest[k].sessionId && order[k] in bySession && bySession[order[k]] == latest[k])
    && forall id | id in bySession :: id in order
  }

  lemma TracksStep(bySession: map<string, Record>, order: seq<string>, latest: seq<Record>, r: Record)
    requires Tracks(bySession, order, latest)
    ensures Tracks(bySession[r.sessionId := r],
                   if r.sessionId in bySession then order else order + [r.sessionId], Put(latest, r))
  {
    if r.sessionId in bySession {
      var k :| 0 <= k < |order| && order[k] == r.sessionId;
      assert latest[k].sessionId == r.sessionId;
    } else {
      assert !HasSession(latest, r.sessionId);
    }
  }

  method LatestPerSession(lines: seq<Line>) returns (records: seq<Record>)
    ensures records == Latest(Records(lines))
  {
    var bySession: map<string, Record>, order: seq<string> := map[], [];
    ghost var latest: seq<Record> := [];
    for i := 0 to |lines|
      invariant latest == Latest(Records(lines[..i])) && Tracks(bySession, order, latest)
    {
      assert lines[..i + 1][..i] == lines[..i];
      if !lines[i].Good? {
        continue;
      }
      var r := lines[i].record;
      PutIsLatest(Records(lines[..i]), r);
      TracksStep(bySession, order, latest, r);
      if r.sessionId !in bySession {
        order := order + [r.sessionId];
      }
      bySession := bySession[r.sessionId := r];
      latest := Put(latest, r);
    }
    assert lines[..|lines|] == lines;
    records := seq(|order|, k requires 0 <= k < |order| && order[k] in bySession => bySession[order[k]]);
  }

  lemma PutIsLatest(records: seq<Record>, r: Record)
    ensures Latest(records + [r]) == Put(Latest(records), r)
  {
    assert (records + [r])[..|records|] == records;
  }

  /** The last record of each session, as a map. */
  ghost function LatestMap(records: seq<Record>): map<string, Record> {
    if records == [] then map[]
    else
      var r := records[|records| - 1];
      LatestMap(records[..|records| - 1])[r.sessionId := r]
  }

  /** The list holds exactly the last record of every session, once. */
  ghost predicate ListsMap(records: seq<Record>, m: map<string, Record>) {
    && DistinctSessions(records)
    && (forall k | 0 <= k < |records| :: records[k].sessionId in m && m[records[k].sessionId] == records[k])
    && forall id | id in m :: HasSession(records, id)
  }

  lemma {:induction false} LatestListsMap(records: seq<Record>)
    ensures ListsMap(Latest(records), LatestMap(records))
  {
    if records != [] {
      var front, r := records[..|records| - 1], records[|records| - 1];
      LatestListsMap(front);
      PutLists(Latest(front), LatestMap(front), r);
    }
  }

  /** A put keeps every place's session; a new session comes last. */
  lemma PutSessions(records: seq<Record>, r: Record)
    ensures var put := Put(records, r);
      && |put| == |records| + (if HasSession(records, r.sessionId) then 0 else 1)
      && (forall k | 0 <= k < |records| :: put[k].sessionId == records[k].sessionId)
      && HasSession(put, r.sessionId)
  {
    var put := Put(records, r);
    if HasSession(records, r.sessionId) {
      var k :| 0 <= k < |records| && records[k].sessionId == r.sessionId;
      assert put[k].sessionId == r.sessionId;
    } else {
      assert put[|records|].sessionId == r.sessionId;
    }
  }

  lemma PutLists(records: seq<Record>, m: map<string, Record>, r: Record)
    requires ListsMap(records, m)
    ensures ListsMap(Put(records, r), m[r.sessionId := r])
  {
    var put := Put(records, r);
    PutSessions(records, r);
    forall id | id in m[r.sessionId := r] ensures HasSession(put, id) {
      if id in m {
        var k :| 0 <= k < |records| && records[k].sessionId == id;
        assert put[k].sessionId == id;
      }
    }
  }

  // ---- the roll-up ----

  datatype Summary = Summary(
    client: Client,
    transport: string,
    sessions: nat,
    lifetimeSeconds: int,
    lastDisconnect: int,
    toolCalls: int)

  const NOBODY: Client := Client("", "", "", "")

  function Lifetime(r: Record): int {
    var end := if r.disconnectedAt == 0 then r.lastSeen else r.disconnectedAt;
    if end > r.connectedAt then end - r.connectedAt else 0
  }

  /** The seconds of a list's sessions, each from its connection up to its disconnect, or up to when it was
      last seen while it has none. */
  ghost function Moments(records: seq<Record>): set<(int, int)> {
    set k: int, t: int | 0 <= k < |records| && records[k].connectedAt <= t <
      (if records[k].disconnectedAt == 0 then records[k].lastSeen else records[k].disconnectedAt) :: (k, t)
  }

  ghost function Stretch(k: int, first: int, stop: int): set<(int, int)> {
    set t: int | first <= t < stop :: (k, t)
  }

  lemma {:induction false} StretchSize(k: int, first: int, stop: int)
    ensures |Stretch(k, first, stop)| == (if first < stop then stop - first else 0)
    decreases stop - first
  {
    if first < stop {
      StretchSize(k, first, stop - 1);
      assert Stretch(k, first, stop) == Stretch(k, first, stop - 1) + {(k, stop - 1)};
    } else {
      assert Stretch(k, first, stop) == {};
    }
  }

  lemma MomentsGrow(records: seq<Record>, last: Record)
    ensures var now := Stretch(|records|, last.connectedAt,
                               if last.disconnectedAt == 0 then last.lastSeen else last.disconnectedAt);
      Moments(records + [last]) == Moments(records) + now && Moments(records) !! now
  {
    var all := records + [last];
    assert forall k | 0 <= k < |records| :: all[k] == records[k];
    assert all[|records|] == last;
  }

  /** The lifetime of a client is the number of seconds its sessions were connected, each on its own. */
  lemma {:induction false} LifetimeIsMoments(records: seq<Record>)
    ensures Sum(records, Lifetime) == |Moments(records)|
  {
    if records == [] {
      assert Moments(records) == {};
    } else {
      var n := |records| - 1;
      var front, last := records[..n], records[n];
      assert records == front + [last];
      LifetimeIsMoments(front);
      MomentsGrow(front, last);
      StretchSize(n, last.connectedAt, if last.disconnectedAt == 0 then last.lastSeen else last.disconnectedAt);
    }
  }

  function Calls(r: Record): int {
    r.toolCalls
  }

  function Sum(records: seq<Record>, f: Record -> int): int {
    if records == [] then 0 else Sum(records[..|records| - 1], f) + f(records[|records| - 1])
  }

  /** The greatest disconnect time, at least 0. */
  function LastDisconnect(records: seq<Record>): (t: int)
    ensures t >= 0 && (t == 0 || exists r | r in records :: r.disconnectedAt == t)
    ensures forall r | r in records :: r.disconnectedAt <= t
  {
    if records == [] then 0
    else
      var t, last := LastDisconnect(records[..|records| - 1]), records[|records| - 1];
      assert records == records[..|records| - 1] + [last];
      if last.disconnectedAt > t then last.disconnectedAt else t
  }

  /** The last of the most recently seen records; one seen before -1 is never it. */
  function Newest(records: seq<Record>): (n: Option<Record>)
    ensures n.Some? ==> n.value in records && n.value.lastSeen >= -1
    ensures forall r | r in records :: r.lastSeen <= if n.Some? then n.value.lastSeen else -2
  {
    if records == [] then None
    else
      var n, last := Newest(records[..|records| - 1]), records[|records| - 1];
      assert records == records[..|records| - 1] + [last];
      if last.lastSeen >= Seen(n) then Some(last) else n
  }

  /** The client and transport a summary takes from the newest record. */
  function Owner(n: Option<Record>): (Client, string) {
    if n.Some? then (n.value.client, n.value.transport) else (NOBODY, "")
  }

  function Summarize(records: seq<Record>): Summary {
    var n := Newest(records);
    Summary(
      Owner(n).0, Owner(n).1, |records|, Sum(records, Lifetime), LastDisconnect(records), Sum(records, Calls))
  }

  function Seen(n: Option<Record>): int {
    if n.Some? then n.value.lastSeen else -1
  }

  /** What one more session adds to the roll-up. */
  ghost predicate Adds(a: Summary, newest: int, r: Record, b: Summary) {
    && b.lifetimeSeconds == a.lifetimeSeconds + Lifetime(r) && b.toolCalls == a.toolCalls + r.toolCalls
    && b.lastDisconnect == (if r.disconnectedAt > a.lastDisconnect then r.disconnectedAt else a.lastDisconnect)
    && b.client == (if r.lastSeen >= newest then r.client else a.client)
    && b.transport == (if r.lastSeen >= newest then r.transport else a.transport)
  }

  lemma SummaryStep(records: seq<Record>, i: nat)
    requires i < |records|
    ensures Adds(Summarize(records[..i]), Seen(Newest(records[..i])), records[i], Summarize(records[..i + 1]))
    ensures Seen(Newest(records[..i + 1])) ==
            if records[i].lastSeen >= Seen(Newest(records[..i])) then records[i].lastSeen
            else Seen(Newest(records[..i]))
  {
    assert records[..i + 1][..i] == records[..i];
  }

  /** A client's figures, under the hash its file is found by. */
  datatype ClientLedger = ClientLedger(hash: string, summary: Summary)

  function LedgerOf(n: Naming, s: Summary): ClientLedger {
    ClientLedger(Hash(n, s.client, s.transport), s)
  }

  /** Fold one client file's sessions into a single ledger, or None when it has no readable record. */
  method SummarizeClient(n: Naming, lines: seq<Line>) returns (r: Option<ClientLedger>)
    ensures var latest := Latest(Records(lines));
      r == if latest == [] then None else Some(LedgerOf(n, Summarize(latest)))
    ensures r.Some? ==> r.value.hash == Hash(n, r.value.summary.client, r.value.summary.transport)
  {
    var records := LatestPerSession(lines);
    if |records| == 0 {
      return None;
    }
    var cl := FoldSessions(records);
    return Some(LedgerOf(n, cl));
  }

  /** The loop's figures after the first i sessions. */
  ghost predicate RolledUp(cl: Summary, newest: int, records: seq<Record>, i: nat)
    requires i <= |records|
  {
    cl == Summarize(records[..i]).(sessions := |records|) && newest == Seen(Newest(records[..i]))
  }

  lemma RolledUpStep(cl: Summary, newest: int, records: seq<Record>, i: nat, next: Summary)
    requires i < |records| && RolledUp(cl, newest, records, i)
    requires Adds(cl, newest, records[i], next) && next.sessions == cl.sessions
    ensures RolledUp(next, if records[i].lastSeen >= newest then records[i].lastSeen else newest, records, i + 1)
  {
    SummaryStep(records, i);
  }

  method FoldSessions(records: seq<Record>) returns (cl: Summary)
    ensures cl == Summarize(records)
  {
    cl := Summary(NOBODY, "", |records|, 0, 0, 0);
    var newest := -1;
    for i := 0 to |records|
      invariant RolledUp(cl, newest, records, i)
    {
      var r := records[i];
      ghost var was, before := cl, newest;
      var end := r.disconnectedAt;
      if end == 0 {
        end := r.lastSeen;
      }
      if end - r.connectedAt > 0 {
        cl := cl.(lifetimeSeconds := cl.lifetimeSeconds + (end - r.connectedAt));
      }
      cl := cl.(toolCalls := cl.toolCalls + r.toolCalls);
      if r.disconnectedAt > cl.lastDisconnect {
        cl := cl.(lastDisconnect := r.disconnectedAt);
      }
      if r.lastSeen >= newest {
        newest := r.lastSeen;
        cl := cl.(client := r.client, transport := r.transport);
      }
      RolledUpStep(was, before, records, i, cl);
    }
    assert records[..|records|] == records;
  }

  // ---- compaction ----

  predicate Earlier(a: Record, b: Record) {
    a.connectedAt < b.connectedAt || (a.connectedAt == b.connectedAt && Order.Less(a.sessionId, b.sessionId))
  }

  predicate Chronological(records: seq<Record>) {
    forall k, l | 0 <= k < l < |records| :: Earlier(records[k], records[l])
  }

  lemma EarlierIsOrder(a: Record, b: Record, c: Record)
    ensures !Earlier(a, a)
    ensures a.sessionId != b.sessionId ==> Earlier(a, b) || Earlier(b, a)
    ensures Earlier(a, b) && Earlier(b, c) ==> Earlier(a, c)
  {
    Order.LessIsIrreflexive(a.sessionId);
    Order.LessIsTotal(a.sessionId, b.sessionId);
    if Order.Less(a.sessionId, b.sessionId) && Order.Less(b.sessionId, c.sessionId) {
      Order.LessIsTransitive(a.sessionId, b.sessionId, c.sessionId);
    }
  }

  method SortByConnection(records: seq<Record>) returns (r: seq<Record>)
    requires DistinctSessions(records)
    ensures Chronological(r) && multiset(r) == multiset(records)
  {
    r := [];
    for n := 0 to |records|
      invariant Chronological(r) && multiset(r) == multiset(records[..n])
    {
      var h := records[n];
      var k := 0;
      while k < |r| && !Earlier(h, r[k])
        invariant k <= |r| && forall j | 0 <= j < k :: !Earlier(h, r[j])
      {
        k := k + 1;
      }
      InsertKeepsOrder(records, n, r, k);
      assert r == r[..k] + r[k..] && records[..n + 1] == records[..n] + [h];
      r := r[..k] + [h] + r[k..];
    }
    assert records[..|records|] == records;
  }

  lemma InsertKeepsOrder(records: seq<Record>, n: nat, r: seq<Record>, k: nat)
    requires n < |records| && DistinctSessions(records) && Chronological(r) && multiset(r) == multiset(records[..n])
    requires k <= |r| && forall j | 0 <= j < k :: !Earlier(records[n], r[j])
    requires k < |r| ==> Earlier(records[n], r[k])
    ensures Chronological(r[..k] + [records[n]] + r[k..])
  {
    var h := records[n];
    forall j | 0 <= j < |r| ensures if j < k then Earlier(r[j], h) else Earlier(h, r[j]) {
      assert r[j] in multiset(r) && r[j] in records[..n];
      EarlierIsOrder(h, r[j], h);
      if k < j {
        EarlierIsOrder(h, r[k], r[j]);
      }
    }
  }

  predicate AllGood(lines: seq<Line>) {
    forall k | 0 <= k < |lines| :: lines[k].Good?
  }

  /** A compacted file: one line a session, in order of connection. A file with nothing readable stays. */
  ghost predicate Compacted(lines: seq<Line>, r: seq<Line>) {
    var latest := Latest(Records(lines));
    if latest == [] then r == lines
    else AllGood(r) && Chronological(Records(r)) && multiset(Records(r)) == multiset(latest)
  }

  method CompactFile(lines: seq<Line>) returns (r: seq<Line>)
    ensures Compacted(lines, r)
  {
    var records := LatestPerSession(lines);
    if |records| == 0 {
      return lines;
    }
    LatestListsMap(Records(lines));
    records := SortByConnection(records);
    r := WriteLines(records);
  }

  method WriteLines(records: seq<Record>) returns (r: seq<Line>)
    ensures AllGood(r) && Records(r) == records
  {
    r := [];
    for i := 0 to |records|
      invariant AllGood(r) && Records(r) == records[..i]
    {
      assert (r + [Good(records[i])])[..|r|] == r;
      r := r + [Good(records[i])];
    }
    assert records[..|records|] == records;
  }

  // ---- what compaction keeps ----

  /** Two lists of the same sessions have the same members. */
  lemma SameMembers(a: seq<Record>, b: seq<Record>, m: map<string, Record>)
    requires ListsMap(a, m) && ListsMap(b, m)
    ensures forall r :: r in a <==> r in b
  {
    MembersOf(a, m);
    MembersOf(b, m);
  }

  lemma SameEmptiness(a: seq<Record>, b: seq<Record>)
    requires forall r :: r in a <==> r in b
    ensures a == [] <==> b == []
  {
    if a != [] {
      assert a[0] in b;
    }
    if b != [] {
      assert b[0] in a;
    }
  }

  lemma MembersOf(a: seq<Record>, m: map<string, Record>)
    requires ListsMap(a, m)
    ensures forall r: Record :: r in a <==> r.sessionId in m && m[r.sessionId] == r
  {
    forall r: Record | r.sessionId in m && m[r.sessionId] == r ensures r in a {
      assert HasSession(a, r.sessionId);
      var k :| 0 <= k < |a| && a[k].sessionId == r.sessionId;
      assert a[k] == r;
    }
  }

  function Drop(records: seq<Record>, k: nat): seq<Record>
    requires k < |records|
  {
    records[..k] + records[k + 1..]
  }

  lemma {:induction false} SumWithout(records: seq<Record>, k: nat, f: Record -> int)
    requires k < |records|
    ensures Sum(records, f) == Sum(Drop(records, k), f) + f(records[k])
  {
    var last := |records| - 1;
    if k < last {
      SumWithout(records[..last], k, f);
      assert Drop(records, k)[..last - 1] == Drop(records[..last], k);
    } else {
      assert Drop(records, k) == records[..last];
    }
  }

  lemma DropLists(records: seq<Record>, m: map<string, Record>, k: nat)
    requires ListsMap(records, m) && k < |records|
    ensures ListsMap(Drop(records, k), m - {records[k].sessionId})
  {
    var rest, id := Drop(records, k), records[k].sessionId;
    forall other | other in m && other != id ensures HasSession(rest, other) {
      assert HasSession(records, other);
      var j :| 0 <= j < |records| && records[j].sessionId == other;
      assert rest[if j < k then j else j - 1] == records[j];
    }
  }

  /** Taking the last session out of one list takes it out of the other. */
  lemma Peel(a: seq<Record>, b: seq<Record>, m: map<string, Record>) returns (k: nat)
    requires ListsMap(a, m) && ListsMap(b, m) && a != []
    ensures k < |b| && b[k] == a[|a| - 1]
    ensures var rest := m - {b[k].sessionId}; ListsMap(a[..|a| - 1], rest) && ListsMap(Drop(b, k), rest)
  {
    SameMembers(a, b, m);
    assert a[|a| - 1] in b;
    k :| 0 <= k < |b| && b[k] == a[|a| - 1];
    DropLists(a, m, |a| - 1);
    DropLists(b, m, k);
    assert Drop(a, |a| - 1) == a[..|a| - 1];
  }

  /** A sum over sessions does not depend on their order. */
  lemma {:induction false} SumOfSessions(a: seq<Record>, b: seq<Record>, m: map<string, Record>, f: Record -> int)
    requires ListsMap(a, m) && ListsMap(b, m)
    ensures |a| == |b| && Sum(a, f) == Sum(b, f)
    decreases |a|
  {
    if a == [] {
      SameMembers(a, b, m);
      SameEmptiness(a, b);
    } else {
      var k := Peel(a, b, m);
      SumOfSessions(a[..|a| - 1], Drop(b, k), m - {b[k].sessionId}, f);
      SumWithout(b, k, f);
    }
  }

  /** Everything but the client's name is a matter of the sessions alone. */
  lemma TotalsOfSessions(a: seq<Record>, b: seq<Record>, m: map<string, Record>)
    requires ListsMap(a, m) && ListsMap(b, m)
    ensures var s, t := Summarize(a), Summarize(b); s == t.(client := s.client, transport := s.transport)
    ensures Seen(Newest(a)) == Seen(Newest(b)) && Newest(a).Some? == Newest(b).Some?
  {
    SameMembers(a, b, m);
    SumOfSessions(a, b, m, Lifetime);
    SumOfSessions(a, b, m, Calls);
  }

  lemma {:induction false} DistinctIsLatest(records: seq<Record>)
    requires DistinctSessions(records)
    ensures Latest(records) == records
  {
    if records != [] {
      var front := records[..|records| - 1];
      DistinctIsLatest(front);
      assert !HasSession(front, records[|records| - 1].sessionId);
    }
  }

  /** A compacted file lists the same last checkpoints. */
  lemma CompactedListsMap(lines: seq<Line>, r: seq<Line>)
    requires Compacted(lines, r)
    ensures LatestMap(Records(r)) == LatestMap(Records(lines))
    ensures Latest(Records(lines)) != [] ==> DistinctSessions(Records(r))
  {
    var latest, m := Latest(Records(lines)), LatestMap(Records(lines));
    LatestListsMap(Records(lines));
    if latest != [] {
      SortedLists(latest, Records(r), m);
      DistinctIsLatest(Records(r));
      LatestListsMap(Records(r));
      SameMap(Records(r), m, LatestMap(Records(r)));
    }
  }

  lemma SameInAnyOrder(a: seq<Record>, b: seq<Record>)
    requires multiset(a) == multiset(b)
    ensures forall x :: x in a <==> x in b
  {
    assert forall x :: x in a <==> x in multiset(a);
    assert forall x :: x in b <==> x in multiset(b);
  }

  lemma SortedLists(latest: seq<Record>, sorted: seq<Record>, m: map<string, Record>)
    requires ListsMap(latest, m) && Chronological(sorted) && multiset(sorted) == multiset(latest)
    ensures ListsMap(sorted, m)
  {
    SameInAnyOrder(sorted, latest);
    MembersOf(latest, m);
    forall k, l | 0 <= k < l < |sorted| ensures sorted[k].sessionId != sorted[l].sessionId {
      assert sorted[k] in sorted && sorted[l] in sorted;
      EarlierIsOrder(sorted[k], sorted[k], sorted[k]);
    }
    forall id | id in m ensures HasSession(sorted, id) {
      assert m[id] in latest && m[id] in sorted;
    }
  }

  lemma SameMap(records: seq<Record>, m: map<string, Record>, n: map<string, Record>)
    requires ListsMap(records, m) && ListsMap(records, n)
    ensures m == n
  {
    MembersOf(records, m);
    MembersOf(records, n);
    forall id ensures (id in m <==> id in n) && (id in m ==> m[id] == n[id]) {
      assert id in m || id in n ==> HasSession(records, id);
    }
  }

  lemma {:induction false} LatestMapAppend(a: seq<Record>, b: seq<Record>, more: seq<Record>)
    requires LatestMap(a) == LatestMap(b)
    ensures LatestMap(a + more) == LatestMap(b + more)
  {
    if more == [] {
      assert a + more == a && b + more == b;
    } else {
      var last := |more| - 1;
      LatestMapAppend(a, b, more[..last]);
      assert (a + more)[..|a + more| - 1] == a + more[..last] && (b + more)[..|b + more| - 1] == b + more[..last];
    }
  }

  lemma {:induction false} RecordsAppend(a: seq<Line>, b: seq<Line>)
    ensures Records(a + b) == Records(a) + Records(b)
  {
    if b == [] {
      assert a + b == a;
    } else {
      RecordsAppend(a, b[..|b| - 1]);
      assert (a + b)[..|a + b| - 1] == a + b[..|b| - 1];
    }
  }

  function RollUp(lines: seq<Line>): Option<Summary> {
    var latest := Latest(Records(lines));
    if latest == [] then None else Some(Summarize(latest))
  }

  /** Whatever is appended later, a compacted file rolls up to the same totals as the original. */
  lemma CompactionKeepsTotals(lines: seq<Line>, r: seq<Line>, more: seq<Line>)
    requires Compacted(lines, r)
    ensures var a, b := Latest(Records(lines + more)), Latest(Records(r + more));
      && Summarize(a) == Summarize(b).(client := Summarize(a).client, transport := Summarize(a).transport)
      && (forall x :: x in a <==> x in b)
      && Newest(a).Some? == Newest(b).Some? && (a == [] <==> b == [])
  {
    CompactedListsMap(lines, r);
    RecordsAppend(lines, more);
    RecordsAppend(r, more);
    LatestMapAppend(Records(lines), Records(r), Records(more));
    LatestListsMap(Records(lines + more));
    LatestListsMap(Records(r + more));
    var a, b, m := Latest(Records(lines + more)), Latest(Records(r + more)), LatestMap(Records(lines + more));
    TotalsOfSessions(a, b, m);
    SameMembers(a, b, m);
    SameEmptiness(a, b);
  }

  ghost predicate OneClient(records: seq<Record>, c: Client, t: string) {
    forall r | r in records :: r.client == c && r.transport == t
  }

  lemma {:induction false} LatestAreRecords(records: seq<Record>)
    ensures forall r | r in Latest(records) :: r in records
  {
    if records != [] {
      var front, r := records[..|records| - 1], records[|records| - 1];
      LatestAreRecords(front);
      assert forall x | x in Put(Latest(front), r) :: x == r || x in Latest(front);
      assert records == front + [r];
    }
  }

  /** For a file of one client, compaction changes no summary, now or after any later appends. */
  lemma CompactionKeepsSummary(lines: seq<Line>, r: seq<Line>, more: seq<Line>, c: Client, t: string)
    requires Compacted(lines, r) && OneClient(Records(lines + more), c, t)
    ensures RollUp(r + more) == RollUp(lines + more)
  {
    CompactionKeepsTotals(lines, r, more);
    LatestAreRecords(Records(lines + more));
  }

  lemma {:induction false} ChronologicalIsCanonical(s: seq<Record>, t: seq<Record>)
    requires Chronological(s) && Chronological(t) && forall x :: x in s <==> x in t
    ensures s == t
  {
    SameEmptiness(s, t);
    if s != [] {
      assert s[0] in t && t[0] in s;
      EarlierIsOrder(s[0], t[0], s[0]);
      EarlierIsOrder(t[0], s[0], t[0]);
      assert s[0] == t[0];
      forall x ensures x in s[1..] <==> x in t[1..] {
        assert x in s <==> x == s[0] || x in s[1..];
        assert x in t <==> x == t[0] || x in t[1..];
        EarlierIsOrder(s[0], s[0], s[0]);
      }
      ChronologicalIsCanonical(s[1..], t[1..]);
      assert s == [s[0]] + s[1..] && t == [t[0]] + t[1..];
    }
  }

  lemma {:induction false} RecordsOfGood(a: seq<Line>)
    requires AllGood(a)
    ensures |Records(a)| == |a| && forall k | 0 <= k < |a| :: a[k] == Good(Records(a)[k])
  {
    if a != [] {
      RecordsOfGood(a[..|a| - 1]);
    }
  }

  /** Compacting a compacted file changes nothing. */
  lemma CompactionIsIdempotent(lines: seq<Line>, r: seq<Line>, again: seq<Line>)
    requires Compacted(lines, r) && Compacted(r, again)
    ensures again == r
  {
    if Latest(Records(lines)) != [] {
      CompactedListsMap(lines, r);
      DistinctIsLatest(Records(r));
      if Records(r) != [] {
        SortedOnce(Records(again), Records(r));
        RecordsOfGood(again);
        RecordsOfGood(r);
      }
    }
  }

  lemma SortedOnce(s: seq<Record>, t: seq<Record>)
    requires Chronological(s) && Chronological(t) && multiset(s) == multiset(t)
    ensures s == t
  {
    SameInAnyOrder(s, t);
    ChronologicalIsCanonical(s, t);
  }

  lemma NewestOfTwo(x: Record, y: Record)
    requires x.lastSeen == y.lastSeen >= -1
    ensures Newest([x, y]) == Some(y)
  {
    assert [x, y][..1] == [x] && [x][..0] == [];
  }

  lemma RecordsOfTwo(one: Record, two: Record)
    requires one.sessionId != two.sessionId
    ensures Latest(Records([Good(one), Good(two)])) == [one, two] && Latest([two, one]) == [two, one]
  {
    var lines := [Good(one), Good(two)];
    RecordsOfGood(lines);
    assert Records(lines) == [one, two];
    DistinctIsLatest([one, two]);
    DistinctIsLatest([two, one]);
  }

  lemma SwappedOrder(one: Record, two: Record, s: seq<Record>)
    requires two.connectedAt < one.connectedAt && Chronological(s) && multiset(s) == multiset([one, two])
    ensures s == [two, one]
  {
    assert multiset([one, two]) == multiset([two, one]);
    SortedOnce(s, [two, one]);
  }

  /** In a file shared by two clients last seen at the same moment, the one that connected first is
      reported before compaction and the other one after it. */
  lemma SharedFileChangesHands(one: Record, two: Record, r: seq<Line>)
    requires one.sessionId != two.sessionId && two.connectedAt < one.connectedAt && one.lastSeen == two.lastSeen >= -1
    requires Compacted([Good(one), Good(two)], r)
    ensures RollUp([Good(one), Good(two)]).Some? && RollUp([Good(one), Good(two)]).value.client == two.client
    ensures RollUp(r).Some? && RollUp(r).value.client == one.client
  {
    RecordsOfTwo(one, two);
    SwappedOrder(one, two, Records(r));
    NewestOfTwo(one, two);
    NewestOfTwo(two, one);
  }

  /** Compaction brings no record in. */
  lemma CompactedRecords(lines: seq<Line>, r: seq<Line>)
    requires Compacted(lines, r)
    ensures forall x | x in Records(r) :: x in Records(lines)
  {
    if Latest(Records(lines)) != [] {
      SameInAnyOrder(Records(r), Latest(Records(lines)));
      LatestAreRecords(Records(lines));
    }
  }
}
