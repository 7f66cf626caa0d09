/** The file a client's sessions are kept in: a slug of its name and a hash of all it says of itself. */
module LedgerNames {
  import opened ContentId

  datatype Client = Client(name: string, title: string, version: string, protocol: string)

  /** The 64-bit hash, and the lower-case form of a character. */
  datatype Naming = Naming(digest: string -> UInt64, lower: char -> char)

  // ---- the slug ----

  const SLUG_LENGTH: nat := 40

  predicate IsSlugLetter(c: char) {
    'a' <= c <= 'z' || '0' <= c <= '9'
  }

  function LastOf(s: string): char
    requires s != ""
  {
    s[|s| - 1]
  }

  /** No two dashes stand in a row. */
  ghost predicate SingleDashes(s: string) {
    forall k | 0 < k < |s| :: !(s[k - 1] == '-' && s[k] == '-')
  }

  /** Letters and digits stand, every run of anything else after them becomes one dash. */
  function Dashed(lower: char -> char, name: string): (b: string)
    ensures forall c | c in b :: IsSlugLetter(c) || c == '-'
    ensures b != "" ==> b[0] != '-'
    ensures SingleDashes(b)
  {
    if name == "" then ""
    else
      var b, c := Dashed(lower, name[..|name| - 1]), lower(LastOf(name));
      if IsSlugLetter(c) then b + [c]
      else if b != "" && LastOf(b) != '-' then b + ['-']
      else b
  }

  /** Dashes off both ends. */
  function TrimDashes(s: string): (r: string)
    ensures r != "" ==> r[0] != '-' && LastOf(r) != '-'
    ensures |r| <= |s| && forall c | c in r :: c in s
    ensures SingleDashes(s) ==> SingleDashes(r)
  {
    if s == "" then ""
    else if s[0] == '-' then TrimDashes(s[1..])
    else if LastOf(s) == '-' then TrimDashes(s[..|s| - 1])
    else s
  }

  ghost predicate AllDashes(s: string) {
    forall c | c in s :: c == '-'
  }

  /** Nothing but dashes is taken off. */
  lemma {:induction false} TrimTakesDashes(s: string) returns (before: string, after: string)
    ensures s == before + TrimDashes(s) + after && AllDashes(before) && AllDashes(after)
  {
    before, after := "", "";
    if s != "" && s[0] == '-' {
      before, after := TrimTakesDashes(s[1..]);
      before := "-" + before;
      assert s == "-" + s[1..];
    } else if s != "" && LastOf(s) == '-' {
      before, after := TrimTakesDashes(s[..|s| - 1]);
      after := after + "-";
      assert s == s[..|s| - 1] + "-";
    }
  }

  /** A prefix that is safe in a file name. */
  ghost predicate IsSlug(s: string) {
    && 0 < |s| <= SLUG_LENGTH && s[0] != '-' && LastOf(s) != '-' && SingleDashes(s)
    && forall c | c in s :: IsSlugLetter(c) || c == '-'
  }

  function Slug(lower: char -> char, name: string): (s: string)
    ensures IsSlug(s)
  {
    var s := TrimDashes(Dashed(lower, name));
    var cut := if |s| > SLUG_LENGTH then TrimDashes(s[..SLUG_LENGTH]) else s;
    if cut == "" then "client" else cut
  }

  method SlugOf(lower: char -> char, name: string) returns (s: string)
    ensures s == Slug(lower, name)
  {
    var b, dash := "", false;
    for i := 0 to |name|
      invariant b == Dashed(lower, name[..i])
      invariant dash <==> b != "" && LastOf(b) == '-'
    {
      assert name[..i + 1][..i] == name[..i];
      var r := lower(name[i]);
      if IsSlugLetter(r) {
        b := b + [r];
        dash := false;
      } else if !dash && |b| > 0 {
        b := b + ['-'];
        dash := true;
      }
    }
    assert name[..|name|] == name;
    s := TrimDashes(b);
    if |s| > SLUG_LENGTH {
      s := TrimDashes(s[..SLUG_LENGTH]);
    }
    if s == "" {
      s := "client";
    }
  }

  /** The small letters and digits of a string, in order. */
  function Letters(s: string): string {
    if s == "" then ""
    else
      var c := LastOf(s);
      Letters(s[..|s| - 1]) + if 'a' <= c <= 'z' || '0' <= c <= '9' then [c] else ""
  }

  function Lowered(lower: char -> char, name: string): (s: string)
    ensures |s| == |name| && forall k | 0 <= k < |s| :: s[k] == lower(name[k])
  {
    seq(|name|, k requires 0 <= k < |name| => lower(name[k]))
  }

  lemma LettersOne(s: string, c: char)
    ensures Letters(s + [c]) == Letters(s) + if 'a' <= c <= 'z' || '0' <= c <= '9' then [c] else ""
  {
    assert (s + [c])[..|s|] == s;
  }

  /** One more character of the name. */
  lemma StepKeepsLetters(b: string, c: char)
    ensures var next := if IsSlugLetter(c) then b + [c] else if b != "" && LastOf(b) != '-' then b + ['-'] else b;
      Letters(next) == Letters(b) + if 'a' <= c <= 'z' || '0' <= c <= '9' then [c] else ""
  {
    LettersOne(b, c);
    LettersOne(b, '-');
  }

  lemma DashedOne(lower: char -> char, front: string, x: char)
    ensures var b, c := Dashed(lower, front), lower(x);
      Dashed(lower, front + [x]) ==
      if IsSlugLetter(c) then b + [c] else if b != "" && LastOf(b) != '-' then b + ['-'] else b
  {
    assert (front + [x])[..|front|] == front;
  }

  lemma LoweredOne(lower: char -> char, front: string, x: char)
    ensures Lowered(lower, front + [x]) == Lowered(lower, front) + [lower(x)]
  {
  }

  /** Before it is cut to length, a slug has all letters and digits of the name, in order, and dashes. */
  lemma {:induction false} DashedKeepsLetters(lower: char -> char, name: string)
    ensures Letters(Dashed(lower, name)) == Letters(Lowered(lower, name))
    decreases |name|
  {
    if name != "" {
      var front, x := name[..|name| - 1], LastOf(name);
      assert name == front + [x];
      DashedKeepsLetters(lower, front);
      DashedOne(lower, front, x);
      LoweredOne(lower, front, x);
      StepKeepsLetters(Dashed(lower, front), lower(x));
      LettersOne(Lowered(lower, front), lower(x));
    }
  }

  lemma {:induction false} LettersAppend(a: string, b: string)
    ensures Letters(a + b) == Letters(a) + Letters(b)
    decreases |b|
  {
    if b == "" {
      assert a + b == a;
    } else {
      assert (a + b)[..|a + b| - 1] == a + b[..|b| - 1];
      LettersAppend(a, b[..|b| - 1]);
    }
  }

  lemma {:induction false} DashesHaveNoLetters(s: string)
    requires AllDashes(s)
    ensures Letters(s) == ""
  {
    if s != "" {
      var front := s[..|s| - 1];
      assert s == front + [LastOf(s)] && LastOf(s) in s;
      forall c | c in front ensures c == '-' {
        assert c in s;
      }
      DashesHaveNoLetters(front);
    }
  }

  lemma TrimKeepsLetters(s: string)
    ensures Letters(TrimDashes(s)) == Letters(s)
  {
    var before, after := TrimTakesDashes(s);
    LettersAppend(before + TrimDashes(s), after);
    LettersAppend(before, TrimDashes(s));
    DashesHaveNoLetters(before);
    DashesHaveNoLetters(after);
  }

  /** A slug spells the name: its letters and digits are the name's, lower-cased and in order, up to
      where it is cut; a name with none of them is called "client". */
  lemma SlugSpellsName(lower: char -> char, name: string)
    ensures Letters(Lowered(lower, name)) != "" && |TrimDashes(Dashed(lower, name))| <= 40 ==>
      Letters(Slug(lower, name)) == Letters(Lowered(lower, name))
    ensures Letters(Lowered(lower, name)) == "" ==> Slug(lower, name) == "client"
    ensures Letters(Lowered(lower, name)) != "" ==>
      Letters(Slug(lower, name)) != "" && Letters(Slug(lower, name)) <= Letters(Lowered(lower, name))
  {
    var s := TrimDashes(Dashed(lower, name));
    DashedKeepsLetters(lower, name);
    TrimKeepsLetters(Dashed(lower, name));
    if s != "" {
      assert IsSlugLetter(s[0]);
      FirstLetterStays(s);
    }
    if |s| > SLUG_LENGTH {
      var cut := s[..SLUG_LENGTH];
      assert s == cut + s[SLUG_LENGTH..];
      LettersAppend(cut, s[SLUG_LENGTH..]);
      TrimKeepsLetters(cut);
      FirstLetterStays(cut);
    }
  }

  lemma FirstLetterStays(s: string)
    requires s != "" && IsSlugLetter(s[0])
    ensures Letters(s) != ""
  {
    assert s == [s[0]] + s[1..];
    LettersAppend([s[0]], s[1..]);
    assert [s[0]][..0] == "" && LastOf([s[0]]) == s[0];
  }

  // ---- the hash and the name ----

  /** All a client says of itself and its transport, joined with NUL. */
  function Join(c: Client, transport: string): string {
    c.name + [NUL] + c.title + [NUL] + c.version + [NUL] + c.protocol + [NUL] + transport
  }

  const CLIENT_SPACE: string := "client"

  /** The client's fields and its transport in this order, in the clients' own name space. */
  function HashInput(c: Client, transport: string): (s: string)
    ensures s == "client\0" + (c.name + "\0" + c.title + "\0" + c.version + "\0" + c.protocol + "\0" + transport)
  {
    CLIENT_SPACE + [NUL] + Join(c, transport)
  }

  lemma InputHoldsJoin(c: Client, t: string, d: Client, u: string)
    ensures HashInput(c, t) == HashInput(d, u) <==> Join(c, t) == Join(d, u)
  {
    var front := |CLIENT_SPACE| + 1;
    assert HashInput(c, t)[front..] == Join(c, t) && HashInput(d, u)[front..] == Join(d, u);
  }

  function Hash(n: Naming, c: Client, transport: string): (id: string)
    ensures |id| == ID_LENGTH
  {
    IdentifyPayload(n.digest, CLIENT_SPACE, Join(c, transport))
  }

  function FileName(n: Naming, c: Client, transport: string): (f: string)
    ensures Slug(n.lower, c.name) + "-" <= f && |f| > 6 && f[|f| - 6..] == ".jsonl"
  {
    Slug(n.lower, c.name) + "-" + Hash(n, c, transport) + ".jsonl"
  }

  lemma SameTail(a: string, b: string, x: string, y: string)
    requires a + x == b + y && |x| == |y|
    ensures a == b && x == y
  {
    var s := a + x;
    assert a == s[..|s| - |x|] && x == s[|s| - |x|..];
    assert b == s[..|s| - |y|] && y == s[|s| - |y|..];
  }

  /** Two clients share a file exactly when they share the slug and the digest of the joined fields. */
  lemma SharesFileIff(n: Naming, c: Client, t: string, d: Client, u: string)
    ensures FileName(n, c, t) == FileName(n, d, u) <==>
            Slug(n.lower, c.name) == Slug(n.lower, d.name) && n.digest(HashInput(c, t)) == n.digest(HashInput(d, u))
  {
    IdLosesNothing(n.digest(HashInput(c, t)), n.digest(HashInput(d, u)));
    if FileName(n, c, t) == FileName(n, d, u) {
      SameTail(Slug(n.lower, c.name) + "-" + Hash(n, c, t), Slug(n.lower, d.name) + "-" + Hash(n, d, u),
               ".jsonl", ".jsonl");
      SameTail(Slug(n.lower, c.name) + "-", Slug(n.lower, d.name) + "-", Hash(n, c, t), Hash(n, d, u));
      SameTail(Slug(n.lower, c.name), Slug(n.lower, d.name), "-", "-");
    }
  }

  ghost predicate NulFree(c: Client, transport: string) {
    NUL !in c.title && NUL !in c.version && NUL !in c.protocol && NUL !in transport
  }

  /** The join keeps apart clients whose fields hold no NUL, whatever their names. */
  lemma JoinIsInjective(c: Client, t: string, d: Client, u: string)
    requires NulFree(c, t) && NulFree(d, u) && Join(c, t) == Join(d, u)
    ensures c == d && t == u
  {
    var v, w := c.name + [NUL] + c.title, d.name + [NUL] + d.title;
    LastSeparator(v + [NUL] + c.version + [NUL] + c.protocol, w + [NUL] + d.version + [NUL] + d.protocol, t, u);
    LastSeparator(v + [NUL] + c.version, w + [NUL] + d.version, c.protocol, d.protocol);
    LastSeparator(v, w, c.version, d.version);
    LastSeparator(c.name, d.name, c.title, d.title);
  }

  /** A NUL at the end of a name or at the start of a title goes unseen: these two clients share a
      file whatever the digest. */
  lemma NamesCollide(n: Naming, version: string, protocol: string, t: string)
    requires n.lower('a') == 'a' && n.lower(NUL) == NUL
    ensures var c, d := Client("a" + [NUL], "b", version, protocol), Client("a", [NUL] + "b", version, protocol);
      c != d && Join(c, t) == Join(d, t) && FileName(n, c, t) == FileName(n, d, t)
  {
    var c, d := Client("a" + [NUL], "b", version, protocol), Client("a", [NUL] + "b", version, protocol);
    assert c.name + [NUL] + c.title == d.name + [NUL] + d.title;
    assert "a"[..0] == "" && Dashed(n.lower, "a") == "a";
    assert c.name[..1] == "a" && Dashed(n.lower, c.name) == "a-";
    assert "a-"[..1] == "a" && TrimDashes("a-") == "a";
  }
}
