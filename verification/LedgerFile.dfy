/** The ledger's files: every record in the file its client names, compacted when the ledger opens. */
module LedgerFiles {
  import opened ContentId
  import opened LedgerNames
  import opened Ledgers

  function FileOf(n: Naming, r: Record): string {
    FileName(n, r.client, r.transport)
  }

  /** Every readable record stands in the file its client and transport name. */
  ghost predicate Filed(n: Naming, files: map<string, seq<Line>>) {
    forall f | f in files :: BelongTo(n, Records(files[f]), f)
  }

  ghost predicate BelongTo(n: Naming, records: seq<Record>, f: string) {
    forall r | r in records :: FileOf(n, r) == f
  }

  /** After any number of sessions recorded in turn. */
  function AppendAll(n: Naming, files: map<string, seq<Line>>, more: seq<Record>): map<string, seq<Line>> {
    if more == [] then files
    else AppendOne(n, AppendAll(n, files, more[..|more| - 1]), more[|more| - 1])
  }

  function AppendOne(n: Naming, files: map<string, seq<Line>>, r: Record): map<string, seq<Line>> {
    var f := FileOf(n, r);
    files[f := (if f in files then files[f] else []) + [Good(r)]]
  }

  /** Every file compacted, none added or dropped. */
  ghost predicate AllCompacted(before: map<string, seq<Line>>, after: map<string, seq<Line>>) {
    before.Keys == after.Keys && forall f | f in before :: Compacted(before[f], after[f])
  }

  lemma CompactionKeepsFiling(n: Naming, before: map<string, seq<Line>>, after: map<string, seq<Line>>)
    requires Filed(n, before) && AllCompacted(before, after)
    ensures Filed(n, after)
  {
    forall f | f in after ensures BelongTo(n, Records(after[f]), f) {
      CompactedRecords(before[f], after[f]);
      assert BelongTo(n, Records(before[f]), f);
    }
  }

  lemma OneLineMore(lines: seq<Line>, r: Record)
    ensures Records(lines + [Good(r)]) == Records(lines) + [r]
  {
    assert (lines + [Good(r)])[..|lines|] == lines;
  }

  lemma OneMoreBelongs(n: Naming, lines: seq<Line>, r: Record, f: string)
    requires BelongTo(n, Records(lines), f) && FileOf(n, r) == f
    ensures BelongTo(n, Records(lines + [Good(r)]), f)
  {
    OneLineMore(lines, r);
  }

  lemma AppendKeepsFiling(n: Naming, files: map<string, seq<Line>>, r: Record)
    requires Filed(n, files)
    ensures Filed(n, AppendOne(n, files, r))
  {
    var f := FileOf(n, r);
    var was := if f in files then files[f] else [];
    OneMoreBelongs(n, was, r, f);
    forall g | g in AppendOne(n, files, r) ensures BelongTo(n, Records(AppendOne(n, files, r)[g]), g) {
      assert g != f ==> BelongTo(n, Records(files[g]), g);
    }
  }

  lemma TwoAreFiled(n: Naming, one: Record, two: Record)
    requires FileOf(n, one) == FileOf(n, two)
    ensures Filed(n, map[FileOf(n, one) := [Good(one), Good(two)]])
  {
    OneMoreBelongs(n, [], one, FileOf(n, one));
    OneMoreBelongs(n, [] + [Good(one)], two, FileOf(n, one));
    assert [] + [Good(one)] + [Good(two)] == [Good(one), Good(two)];
  }

  class Ledger {
    const naming: Naming
    var files: map<string, seq<Line>>

    /** Opening the ledger compacts what it finds. */
    constructor (naming: Naming, found: map<string, seq<Line>>)
      ensures this.naming == naming && AllCompacted(found, files)
      ensures Filed(naming, found) ==> Filed(naming, files)
    {
      this.naming, files := naming, found;
      new;
      Compact();
    }

    /** Write one checkpoint. */
    method Append(r: Record)
      modifies this
      ensures files == AppendOne(naming, old(files), r)
      ensures old(Filed(naming, files)) ==> Filed(naming, files)
    {
      var f := FileOf(naming, r);
      var was := if f in files then files[f] else [];
      if Filed(naming, files) {
        AppendKeepsFiling(naming, files, r);
      }
      files := files[f := was + [Good(r)]];
    }

    method Compact()
      modifies this
      ensures AllCompacted(old(files), files)
      ensures old(Filed(naming, files)) ==> Filed(naming, files)
    {
      var todo := files.Keys;
      ghost var before := files;
      while todo != {}
        invariant todo <= files.Keys == before.Keys
        invariant forall f | f in todo :: files[f] == before[f]
        invariant forall f | f in files && f !in todo :: Compacted(before[f], files[f])
      {
        var f :| f in todo;
        var r := CompactFile(files[f]);
        files := files[f := r];
        todo := todo - {f};
      }
      if Filed(naming, before) {
        CompactionKeepsFiling(naming, before, files);
      }
    }
  }

  lemma AppendGrows(n: Naming, files: map<string, seq<Line>>, r: Record, f: string, was: seq<Line>, added: seq<Line>)
    requires f in files && files[f] == was + added
    ensures f in AppendOne(n, files, r)
    ensures AppendOne(n, files, r)[f] == was + if FileOf(n, r) == f then added + [Good(r)] else added
  {
    assert was + added + [Good(r)] == was + (added + [Good(r)]);
  }

  /** How a file grows does not depend on what it held. */
  lemma {:induction false} AppendsAreLocal(n: Naming, a: map<string, seq<Line>>, b: map<string, seq<Line>>,
                                          more: seq<Record>, f: string)
      returns (added: seq<Line>)
    requires f in a && f in b
    ensures f in AppendAll(n, a, more) && AppendAll(n, a, more)[f] == a[f] + added
    ensures f in AppendAll(n, b, more) && AppendAll(n, b, more)[f] == b[f] + added
    ensures forall r | r in Records(added) :: r in more && FileOf(n, r) == f
    decreases |more|
  {
    if more == [] {
      added := [];
    } else {
      var r := more[|more| - 1];
      added := AppendsAreLocal(n, a, b, more[..|more| - 1], f);
      AppendGrows(n, AppendAll(n, a, more[..|more| - 1]), r, f, a[f], added);
      AppendGrows(n, AppendAll(n, b, more[..|more| - 1]), r, f, b[f], added);
      if FileOf(n, r) == f {
        OneLineMore(added, r);
        added := added + [Good(r)];
      }
    }
  }

  /** The digest has no collision among these records' clients, and their joined fields tell them apart. */
  ghost predicate ToldApart(n: Naming, r: Record, s: Record) {
    && (n.digest(HashInput(r.client, r.transport)) == n.digest(HashInput(s.client, s.transport)) ==>
          Join(r.client, r.transport) == Join(s.client, s.transport))
    && (Join(r.client, r.transport) == Join(s.client, s.transport) ==>
        r.client == s.client && r.transport == s.transport)
  }

  /** Records told apart stand in one file only when they are of one client. */
  lemma FileIsOneClient(n: Naming, records: seq<Record>, f: string)
    requires records != [] && forall r | r in records :: FileOf(n, r) == f
    requires forall r, s | r in records && s in records :: ToldApart(n, r, s)
    ensures OneClient(records, records[0].client, records[0].transport)
  {
    forall r | r in records ensures r.client == records[0].client && r.transport == records[0].transport {
      assert records[0] in records && ToldApart(n, r, records[0]);
      SharesFileIff(n, r.client, r.transport, records[0].client, records[0].transport);
    }
  }

  /** Compacting a well-filed ledger changes no client's summary, whatever sessions follow, as long as
      the clients of the file, before and later, are told apart. */
  lemma CompactionIsInvisible(n: Naming, before: map<string, seq<Line>>, after: map<string, seq<Line>>,
                              more: seq<Record>, f: string)
    requires Filed(n, before) && f in before && f in after && Compacted(before[f], after[f])
    requires var all := Records(before[f]) + more; forall r, s | r in all && s in all :: ToldApart(n, r, s)
    ensures f in AppendAll(n, before, more) && f in AppendAll(n, after, more)
    ensures RollUp(AppendAll(n, after, more)[f]) == RollUp(AppendAll(n, before, more)[f])
  {
    var added := AppendsAreLocal(n, before, after, more, f);
    var all := Records(before[f] + added);
    RecordsAppend(before[f], added);
    if all == [] {
      CompactionKeepsSummary(before[f], after[f], added, NOBODY, "");
    } else {
      FileIsOneClient(n, all, f);
      CompactionKeepsSummary(before[f], after[f], added, all[0].client, all[0].transport);
    }
  }

  /** Fields without NUL are enough, when the digest does not collide. */
  lemma NulFreeIsToldApart(n: Naming, r: Record, s: Record)
    requires NulFree(r.client, r.transport) && NulFree(s.client, s.transport)
    requires HashInput(r.client, r.transport) != HashInput(s.client, s.transport) ==>
      n.digest(HashInput(r.client, r.transport)) != n.digest(HashInput(s.client, s.transport))
    ensures ToldApart(n, r, s)
  {
    InputHoldsJoin(r.client, r.transport, s.client, s.transport);
    if Join(r.client, r.transport) == Join(s.client, s.transport) {
      JoinIsInjective(r.client, r.transport, s.client, s.transport);
    }
  }

  /** Without that compaction shows: two clients that differ only in where a NUL stands share a file,
      and the client reported for it changes. */
  lemma CompactionIsVisible(n: Naming, after: map<string, seq<Line>>)
    requires n.lower('a') == 'a' && n.lower(NUL) == NUL
    ensures var c, d := Client("a" + [NUL], "b", "1", "p"), Client("a", [NUL] + "b", "1", "p");
      var one, two := Record("s1", c, "stdio", 2, 5, 0, 1), Record("s2", d, "stdio", 1, 5, 0, 1);
      var f := FileOf(n, one);
      var before := map[f := [Good(one), Good(two)]];
      Filed(n, before) && (AllCompacted(before, after) ==>
        && RollUp(before[f]).Some? && RollUp(before[f]).value.client == d
        && RollUp(after[f]).Some? && RollUp(after[f]).value.client == c)
  {
    var c, d := Client("a" + [NUL], "b", "1", "p"), Client("a", [NUL] + "b", "1", "p");
    var one, two := Record("s1", c, "stdio", 2, 5, 0, 1), Record("s2", d, "stdio", 1, 5, 0, 1);
    NamesCollide(n, "1", "p", "stdio");
    TwoAreFiled(n, one, two);
    var f := FileOf(n, one);
    var before := map[f := [Good(one), Good(two)]];
    if AllCompacted(before, after) {
      SharedFileChangesHands(one, two, after[f]);
    }
  }
}
