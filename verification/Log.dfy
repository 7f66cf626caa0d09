/** The snapshot log: ids, parents, cursor digests and pruning. */
module Logs {
  import opened Deltas
  import opened Trails
  import opened Query
  import opened Wrappers

  type Byte = b: int | 0 <= b < 256

  datatype Snapshot = Snapshot(cursor: seq<Byte>, parent: Option<nat>, message: string, compileRoot: string)

  datatype Log = Log(snapshots: map<nat, Snapshot>, diffs: seq<DiffRow>, head: nat, nextId: nat)

  /** The largest row id AUTOINCREMENT hands out. */
  const MAX_ROWID: nat := 0x7fff_ffff_ffff_ffff

  // ---- digest inputs ----

  function Pow256(k: nat): nat {
    if k == 0 then 1 else 256 * Pow256(k - 1)
  }

  function BigEndian(n: nat, k: nat): (r: seq<Byte>)
    ensures |r| == k
  {
    if k == 0 then [] else BigEndian(n / 256, k - 1) + [n % 256]
  }

  lemma {:induction false} BigEndianIsInjective(m: nat, n: nat, k: nat)
    requires m < Pow256(k) && n < Pow256(k)
    requires BigEndian(m, k) == BigEndian(n, k)
    ensures m == n
  {
    if k > 0 {
      var a, b := BigEndian(m / 256, k - 1), BigEndian(n / 256, k - 1);
      assert (a + [m % 256])[..k - 1] == a && (b + [n % 256])[..k - 1] == b;
      assert (a + [m % 256])[k - 1] == m % 256 && (b + [n % 256])[k - 1] == n % 256;
      BigEndianIsInjective(m / 256, n / 256, k - 1);
    }
  }

  lemma RowIdsFit(n: nat)
    requires n <= MAX_ROWID
    ensures n < Pow256(8)
  {
    assert Pow256(8) == 256 * (256 * (256 * (256 * (256 * (256 * (256 * (256 * Pow256(0))))))));
  }

  /** The bytes hashed into a compile's or a change's cursor. */
  function CursorInput(prevHead: nat, pairs: seq<Byte>): seq<Byte> {
    BigEndian(prevHead, 8) + pairs
  }

  /** The bytes hashed into a rollback's cursor. */
  function RollbackCursorInput(prevHead: nat, target: nat, pairs: seq<Byte>): seq<Byte> {
    BigEndian(prevHead, 8) + BigEndian(target, 8) + pairs
  }

  /** Both forms tell the states they describe apart: HEAD, the target, and every byte behind them. */
  lemma CursorInputsAreInjective(h: nat, p: seq<Byte>, i: nat, q: seq<Byte>, t: nat, u: nat)
    requires h <= MAX_ROWID && i <= MAX_ROWID && t <= MAX_ROWID && u <= MAX_ROWID
    ensures CursorInput(h, p) == CursorInput(i, q) ==> h == i && p == q
    ensures RollbackCursorInput(h, t, p) == RollbackCursorInput(i, u, q) ==> h == i && t == u && p == q
  {
    RowIdsFit(h);
    RowIdsFit(i);
    RowIdsFit(t);
    RowIdsFit(u);
    if CursorInput(h, p) == CursorInput(i, q) {
      SameHead(BigEndian(h, 8), p, BigEndian(i, 8), q);
      BigEndianIsInjective(h, i, 8);
    }
    if RollbackCursorInput(h, t, p) == RollbackCursorInput(i, u, q) {
      SameHead(BigEndian(h, 8) + BigEndian(t, 8), p, BigEndian(i, 8) + BigEndian(u, 8), q);
      SameHead(BigEndian(h, 8), BigEndian(t, 8), BigEndian(i, 8), BigEndian(u, 8));
      BigEndianIsInjective(h, i, 8);
      BigEndianIsInjective(t, u, 8);
    }
  }

  lemma SameHead(a: seq<Byte>, x: seq<Byte>, b: seq<Byte>, y: seq<Byte>)
    requires a + x == b + y && |a| == |b|
    ensures a == b && x == y
  {
    assert a == (a + x)[..|a|] && b == (b + y)[..|a|];
    assert x == (a + x)[|a|..] && y == (b + y)[|a|..];
  }

  ghost predicate FoldsHead(cursor: seq<Byte>, head: nat) {
    |cursor| >= 8 && cursor[..8] == BigEndian(head, 8)
  }

  // ---- the invariant ----

  /** prior[s] is HEAD as it was when s was created. */
  ghost predicate ValidSnapshots(log: Log, prior: map<nat, nat>) {
    && 1 <= log.nextId <= MAX_ROWID + 1
    && (log.head == 0 <==> log.snapshots == map[])
    && (log.head != 0 ==> log.head in log.snapshots)
    && (forall s | s in log.snapshots :: 1 <= s <= log.head < log.nextId)
    && (forall s | s in log.snapshots && log.snapshots[s].parent.Some? ::
          log.snapshots[s].parent.value in log.snapshots && log.snapshots[s].parent.value < s)
    && prior.Keys == log.snapshots.Keys
    && (forall s | s in prior :: prior[s] < s && FoldsHead(log.snapshots[s].cursor, prior[s]))
    && (forall s, t | s in prior && t in prior && s < t :: s <= prior[t])
  }

  ghost predicate ValidRows(log: Log) {
    Sorted(log.diffs) && forall r | r in log.diffs :: r.snapshot in log.snapshots
  }

  ghost predicate ValidLog(log: Log, prior: map<nat, nat>) {
    ValidSnapshots(log, prior) && ValidRows(log)
  }

  function Append(log: Log, snap: Snapshot, rows: seq<DiffRow>): Log {
    Log(log.snapshots[log.nextId := snap], log.diffs + rows, log.nextId, log.nextId + 1)
  }

  /** DELETE rows and snapshots above target, keeping the excluded one. */
  function Prune(log: Log, target: nat, exclude: nat): Log {
    log.(snapshots := map s | s in log.snapshots && (s <= target || s == exclude) :: log.snapshots[s],
         diffs := Without(log.diffs, target, exclude))
  }

  function KeepPrior(prior: map<nat, nat>, log: Log): map<nat, nat> {
    map s | s in prior && s in log.snapshots :: prior[s]
  }

  function Without(rows: seq<DiffRow>, target: nat, exclude: nat): seq<DiffRow> {
    if rows == [] then []
    else
      Without(Front(rows), target, exclude) +
      if Last(rows).snapshot > target && Last(rows).snapshot != exclude then [] else [Last(rows)]
  }

  /** A cursor folding the present HEAD repeats no live snapshot's cursor, whatever pairs
      follow, so reverting to an earlier state never collides on the UNIQUE column. */
  lemma CursorIsFresh(log: Log, prior: map<nat, nat>, cursor: seq<Byte>, s: nat)
    requires ValidLog(log, prior) && FoldsHead(cursor, log.head) && s in log.snapshots
    ensures log.snapshots[s].cursor != cursor
  {
    if log.snapshots[s].cursor == cursor {
      RowIdsFit(log.head);
      RowIdsFit(prior[s]);
      BigEndianIsInjective(prior[s], log.head, 8);
    }
  }

  lemma CursorFormsFoldHead(head: nat, target: nat, pairs: seq<Byte>)
    ensures FoldsHead(CursorInput(head, pairs), head)
    ensures FoldsHead(RollbackCursorInput(head, target, pairs), head)
  {
    assert RollbackCursorInput(head, target, pairs) == BigEndian(head, 8) + (BigEndian(target, 8) + pairs);
  }

  lemma AppendKeepsLog(log: Log, prior: map<nat, nat>, snap: Snapshot, rows: seq<DiffRow>)
    requires ValidLog(log, prior) && log.nextId <= MAX_ROWID
    requires FoldsHead(snap.cursor, log.head)
    requires snap.parent.Some? ==> snap.parent.value in log.snapshots
    requires forall r | r in rows :: r.snapshot == log.nextId
    ensures ValidLog(Append(log, snap, rows), prior[log.nextId := log.head])
  {
    AppendKeepsSnapshots(log, prior, snap, rows);
    SortedAppend(log.diffs, rows, log.nextId);
    assert ValidRows(Append(log, snap, rows));
  }

  lemma AppendKeepsPrior(log: Log, prior: map<nat, nat>, snap: Snapshot)
    requires ValidSnapshots(log, prior) && FoldsHead(snap.cursor, log.head)
    ensures var p, s := prior[log.nextId := log.head], log.snapshots[log.nextId := snap];
      && p.Keys == s.Keys && (forall i | i in p :: p[i] < i && FoldsHead(s[i].cursor, p[i]))
      && forall i, j | i in p && j in p && i < j :: i <= p[j]
  {
  }

  lemma AppendKeepsSnapshots(log: Log, prior: map<nat, nat>, snap: Snapshot, rows: seq<DiffRow>)
    requires ValidSnapshots(log, prior) && log.nextId <= MAX_ROWID
    requires FoldsHead(snap.cursor, log.head)
    requires snap.parent.Some? ==> snap.parent.value in log.snapshots
    ensures ValidSnapshots(Append(log, snap, rows), prior[log.nextId := log.head])
  {
    AppendKeepsPrior(log, prior, snap);
  }

  lemma SortedAppend(a: seq<DiffRow>, b: seq<DiffRow>, id: nat)
    requires Sorted(a) && forall r | r in a :: r.snapshot <= id
    requires forall r | r in b :: r.snapshot == id
    ensures Sorted(a + b)
  {
    forall i, j | 0 <= i < j < |a + b| ensures (a + b)[i].snapshot <= (a + b)[j].snapshot {
      if i < |a| {
        assert a[i] in a;
      } else {
        assert (a + b)[i] == b[i - |a|] && b[i - |a|] in b;
      }
      if j >= |a| {
        assert (a + b)[j] == b[j - |a|] && b[j - |a|] in b;
      }
    }
  }

  lemma {:induction false} WithoutMembers(rows: seq<DiffRow>, target: nat, exclude: nat)
    ensures forall r :: r in Without(rows, target, exclude) <==>
              r in rows && (r.snapshot <= target || r.snapshot == exclude)
  {
    if rows != [] {
      assert rows == Front(rows) + [Last(rows)];
      WithoutMembers(Front(rows), target, exclude);
    }
  }

  lemma {:induction false} WithoutIsSorted(rows: seq<DiffRow>, target: nat, exclude: nat)
    requires Sorted(rows)
    ensures Sorted(Without(rows, target, exclude))
  {
    if rows != [] {
      var front := Without(Front(rows), target, exclude);
      WithoutIsSorted(Front(rows), target, exclude);
      WithoutMembers(Front(rows), target, exclude);
      forall i | 0 <= i < |front| ensures front[i].snapshot <= Last(rows).snapshot {
        assert front[i] in front;
        var j :| 0 <= j < |rows| - 1 && rows[j] == front[i];
      }
    }
  }

  /** Pruning down to a live target, right after committing a snapshot parented on it,
      keeps every clause: no parent, row or HEAD is left dangling. */
  lemma PruneKeepsLog(log: Log, prior: map<nat, nat>, target: nat)
    requires ValidLog(log, prior) && target in log.snapshots && target < log.head
    requires log.snapshots[log.head].parent == Some(target)
    ensures var pruned := Prune(log, target, log.head);
      ValidLog(pruned, KeepPrior(prior, pruned))
  {
    PruneKeepsSnapshots(log, prior, target);
    WithoutMembers(log.diffs, target, log.head);
    WithoutIsSorted(log.diffs, target, log.head);
    assert ValidRows(Prune(log, target, log.head));
  }

  lemma PruneKeepsSnapshots(log: Log, prior: map<nat, nat>, target: nat)
    requires ValidSnapshots(log, prior) && target in log.snapshots && target < log.head
    requires log.snapshots[log.head].parent == Some(target)
    ensures var pruned := Prune(log, target, log.head);
      ValidSnapshots(pruned, KeepPrior(prior, pruned))
  {
    var pruned := Prune(log, target, log.head);
    assert forall s | s in pruned.snapshots :: s in log.snapshots && pruned.snapshots[s] == log.snapshots[s];
  }

  // ---- parents ----

  /** The parent of s is the newest live snapshot older than s; the oldest one has none. */
  ghost predicate FollowsOn(log: Log, s: nat)
    requires s in log.snapshots
  {
    match log.snapshots[s].parent
    case None => forall t | t in log.snapshots :: s <= t
    case Some(p) => p in log.snapshots && p < s && forall t | t in log.snapshots && t < s :: t <= p
  }

  /** The live snapshots form one line, each on top of the one before. */
  ghost predicate Linear(log: Log) {
    forall s {:trigger FollowsOn(log, s)} | s in log.snapshots :: FollowsOn(log, s)
  }

  lemma AppendIsLinear(log: Log, prior: map<nat, nat>, snap: Snapshot, rows: seq<DiffRow>)
    requires ValidSnapshots(log, prior) && Linear(log)
    requires snap.parent == if log.head == 0 then None else Some(log.head)
    ensures Linear(Append(log, snap, rows))
  {
    var next := Append(log, snap, rows);
    forall s | s in next.snapshots ensures FollowsOn(next, s) {
      if s != log.nextId {
        StillFollowsOn(log, next, s);
      }
    }
  }

  /** Dropping the history above a target leaves one line again, when the snapshot kept is parented on it. */
  lemma PruneIsLinear(log: Log, prior: map<nat, nat>, snap: Snapshot, rows: seq<DiffRow>, target: nat)
    requires ValidSnapshots(log, prior) && Linear(log) && target in log.snapshots && snap.parent == Some(target)
    ensures Linear(Prune(Append(log, snap, rows), target, log.nextId))
  {
    var pruned := Prune(Append(log, snap, rows), target, log.nextId);
    PrunedSnapshots(log, snap, rows, target);
    forall s | s in pruned.snapshots ensures FollowsOn(pruned, s) {
      if s != log.nextId {
        StillFollowsOn(log, pruned, s);
      }
    }
  }

  lemma PrunedSnapshots(log: Log, snap: Snapshot, rows: seq<DiffRow>, target: nat)
    requires (forall s | s in log.snapshots :: s < log.nextId) && target < log.nextId
    ensures var left := Prune(Append(log, snap, rows), target, log.nextId).snapshots;
      && (forall s :: s in left <==> s == log.nextId || (s in log.snapshots && s <= target))
      && left[log.nextId] == snap && forall s | s in left && s != log.nextId :: left[s] == log.snapshots[s]
  {
  }

  /** Losing newer snapshots, or gaining one, leaves a snapshot on top of the same one. */
  lemma StillFollowsOn(log: Log, next: Log, s: nat)
    requires s in log.snapshots && FollowsOn(log, s) && s in next.snapshots && next.snapshots[s] == log.snapshots[s]
    requires forall t | t <= s :: t in log.snapshots <==> t in next.snapshots
    ensures FollowsOn(next, s)
  {
  }

  /** t is s, or is reached from s by following parents. */
  ghost predicate Reached(log: Log, s: nat, t: nat)
    decreases s
  {
    s == t ||
    (s in log.snapshots && log.snapshots[s].parent.Some? && log.snapshots[s].parent.value < s
     && Reached(log, log.snapshots[s].parent.value, t))
  }

  /** Following parents from any snapshot visits every live snapshot older than it. */
  lemma {:induction false} ParentsReachAll(log: Log, s: nat, t: nat)
    requires Linear(log) && s in log.snapshots && t in log.snapshots && t <= s
    ensures Reached(log, s, t)
    decreases s
  {
    assert FollowsOn(log, s);
    if t < s {
      ParentsReachAll(log, log.snapshots[s].parent.value, t);
    }
  }

  /** So from HEAD it visits them all, and no others. */
  lemma ParentsVisitTheLog(log: Log, prior: map<nat, nat>, t: nat)
    requires ValidSnapshots(log, prior) && Linear(log) && log.head != 0
    ensures Reached(log, log.head, t) <==> t in log.snapshots
  {
    if t in log.snapshots {
      ParentsReachAll(log, log.head, t);
    }
    if Reached(log, log.head, t) {
      ReachedIsLive(log, log.head, t);
    }
  }

  lemma {:induction false} ReachedIsLive(log: Log, s: nat, t: nat)
    requires Linear(log) && s in log.snapshots && Reached(log, s, t)
    ensures t in log.snapshots
    decreases s
  {
    assert FollowsOn(log, s);
    if s != t {
      ReachedIsLive(log, log.snapshots[s].parent.value, t);
    }
  }
}
