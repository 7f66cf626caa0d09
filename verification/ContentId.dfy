/** Structural node ids: a 64-bit digest of (file, parent, position) spelled in base 62. */
module ContentId {
  const DIGITS: string := "0123456789"
  const CAPITALS: string := "ABCDEFGHIJKLMNOPQRSTUVWXYZ"
  const SMALL_LETTERS: string := "abcdefghijklmnopqrstuvwxyz"
  const ID_LENGTH: nat := 11
  const NUL: char := '\0'

  type UInt64 = x: int | 0 <= x < 0x1_0000_0000_0000_0000

  // ---- base 62 ----

  function Pow62(n: nat): (r: nat)
    ensures r > 0
  {
    if n == 0 then 1 else 62 * Pow62(n - 1)
  }

  /** The base-62 alphabet: digits, capitals, small letters. */
  function Letter(d: nat): (c: char)
    requires d < 62
    ensures c as int == if d < 10 then 48 + d else if d < 36 then 55 + d else 61 + d
  {
    if d < 10 then DIGITS[d] else if d < 36 then Capital(d - 10) else Small(d - 36)
  }

  function Capital(d: nat): (c: char)
    requires d < 26
    ensures c as int == 65 + d
  {
    CAPITALS[d]
  }

  function Small(d: nat): (c: char)
    requires d < 26
    ensures c as int == 97 + d
  {
    SMALL_LETTERS[d]
  }

  predicate IsLetter(c: char) {
    '0' <= c <= '9' || 'A' <= c <= 'Z' || 'a' <= c <= 'z'
  }

  /** The digit a letter stands for. */
  function Digit(c: char): (d: nat)
    requires IsLetter(c)
    ensures d < 62 && Letter(d) == c
  {
    if c <= '9' then c as int - 48 else if c <= 'Z' then c as int - 55 else c as int - 61
  }

  ghost predicate IsBase62(s: string) {
    forall k | 0 <= k < |s| :: IsLetter(s[k])
  }

  /** The number a base-62 numeral denotes. */
  function Decode(s: string): (v: nat)
    requires IsBase62(s)
  {
    if s == "" then 0 else 62 * Decode(s[..|s| - 1]) + Digit(s[|s| - 1])
  }

  /** The last digits of v, this many of them. */
  function Base62(v: nat, digits: nat): (s: string)
    ensures |s| == digits && IsBase62(s)
    decreases digits
  {
    if digits == 0 then "" else Base62(v / 62, digits - 1) + [Letter(v % 62)]
  }

  method EncodeBase62(v: UInt64) returns (r: string)
    ensures r == Base62(v, ID_LENGTH)
  {
    var buf := new char[11];
    var rest: nat := v;
    for i := 11 downto 0
      invariant Base62(v, ID_LENGTH) == Base62(rest, i) + buf[i..]
    {
      buf[i] := Letter(rest % 62);
      assert buf[i..] == [buf[i]] + buf[i + 1..];
      rest := rest / 62;
    }
    return buf[..];
  }

  /** Decoding gives the number back, when the digits are enough for it. */
  lemma {:induction false} DecodeInvertsEncode(v: nat, digits: nat)
    requires v < Pow62(digits)
    ensures Decode(Base62(v, digits)) == v
    decreases digits
  {
    if digits > 0 {
      var s := Base62(v, digits);
      assert s[..|s| - 1] == Base62(v / 62, digits - 1);
      DecodeInvertsEncode(v / 62, digits - 1);
    }
  }

  lemma ShiftDigit(high: nat, low: nat)
    requires low < 62
    ensures (62 * high + low) / 62 == high && (62 * high + low) % 62 == low
  {
  }

  lemma {:induction false} DecodeBound(s: string)
    requires IsBase62(s)
    ensures Decode(s) < Pow62(|s|)
    decreases |s|
  {
    if s != "" {
      DecodeBound(s[..|s| - 1]);
    }
  }

  lemma LastDigit(s: string)
    requires s != "" && IsBase62(s)
    ensures var front, c := s[..|s| - 1], s[|s| - 1];
      Decode(s) / 62 == Decode(front) && Letter(Decode(s) % 62) == c && s == front + [c]
  {
    ShiftDigit(Decode(s[..|s| - 1]), Digit(s[|s| - 1]));
  }

  /** Encoding gives the numeral back: every numeral is in use. */
  lemma {:induction false} EncodeInvertsDecode(s: string)
    requires IsBase62(s)
    ensures Decode(s) < Pow62(|s|) && Base62(Decode(s), |s|) == s
    decreases |s|
  {
    DecodeBound(s);
    if s != "" {
      EncodeInvertsDecode(s[..|s| - 1]);
      LastDigit(s);
    }
  }

  /** Eleven digits hold every 64-bit value, so the id loses nothing of the digest. */
  lemma IdLosesNothing(v: UInt64, w: UInt64)
    ensures Decode(Base62(v, ID_LENGTH)) == v
    ensures Base62(v, ID_LENGTH)[..ID_LENGTH] == Base62(w, ID_LENGTH)[..ID_LENGTH] ==> v == w
  {
    ElevenDigitsSuffice();
    CutIsNoOp(v, w, ID_LENGTH);
  }

  lemma CutIsNoOp(v: nat, w: nat, digits: nat)
    requires v < Pow62(digits) && w < Pow62(digits)
    ensures Decode(Base62(v, digits)) == v
    ensures Base62(v, digits)[..digits] == Base62(w, digits)[..digits] ==> v == w
  {
    DecodeInvertsEncode(v, digits);
    DecodeInvertsEncode(w, digits);
    assert Base62(v, digits)[..digits] == Base62(v, digits) && Base62(w, digits)[..digits] == Base62(w, digits);
  }

  /** Ten digits would not do. */
  lemma ElevenDigitsSuffice()
    ensures Pow62(10) < 0x1_0000_0000_0000_0000 <= Pow62(ID_LENGTH)
  {
    assert Pow62(5) == 916132832;
    assert Pow62(8) == 218340105584896;
  }

  // ---- the input of the digest ----

  function Itoa(n: nat): (s: string)
    ensures s != "" && forall k | 0 <= k < |s| :: '0' <= s[k] <= '9'
  {
    if n < 10 then [Letter(n)] else Itoa(n / 10) + [Letter(n % 10)]
  }

  lemma {:induction false} ItoaIsInjective(m: nat, n: nat)
    requires Itoa(m) == Itoa(n)
    ensures m == n
    decreases m
  {
    var s := Itoa(m);
    assert s[|s| - 1] == Letter(m % 10) == Letter(n % 10);
    if m >= 10 && n >= 10 {
      assert s[..|s| - 1] == Itoa(m / 10) == Itoa(n / 10);
      ItoaIsInjective(m / 10, n / 10);
    }
  }

  /** The number a decimal numeral denotes. */
  function Number(s: string): int {
    if s == "" then 0 else 10 * Number(s[..|s| - 1]) + (s[|s| - 1] as int - '0' as int)
  }

  /** Numbers are written in decimal, without leading zeros. */
  lemma {:induction false} ItoaIsDecimal(n: nat)
    ensures Number(Itoa(n)) == n && (n > 0 ==> Itoa(n)[0] != '0')
  {
    var s := Itoa(n);
    assert s[|s| - 1] == Letter(n % 10);
    if n >= 10 {
      ItoaIsDecimal(n / 10);
      assert s[..|s| - 1] == Itoa(n / 10);
    } else {
      assert s[..|s| - 1] == "";
    }
  }

  function Input(source: string, parent: string, siblingIndex: nat): string {
    source + [NUL] + parent + [NUL] + Itoa(siblingIndex)
  }

  /** The input is the file, the parent and the position in decimal, with a NUL between each two. */
  lemma InputSpells(source: string, parent: string, siblingIndex: nat) returns (position: string)
    ensures Input(source, parent, siblingIndex) == source + "\0" + parent + "\0" + position
    ensures Number(position) == siblingIndex && (siblingIndex > 0 ==> position[0] != '0')
    ensures position != "" && forall k | 0 <= k < |position| :: '0' <= position[k] <= '9'
  {
    position := Itoa(siblingIndex);
    ItoaIsDecimal(siblingIndex);
  }

  /** The last separator of a string is where a separator-free tail begins. */
  lemma LastSeparator(a: string, b: string, x: string, y: string)
    requires a + [NUL] + x == b + [NUL] + y && NUL !in x && NUL !in y
    ensures a == b && x == y
  {
    var s := a + [NUL] + x;
    assert s[|a|] == NUL && s[|b|] == NUL;
    assert forall k | |a| < k < |s| :: s[k] == x[k - |a| - 1];
    assert forall k | |b| < k < |s| :: s[k] == y[k - |b| - 1];
    assert a == s[..|a|] && b == s[..|b|] && x == s[|a| + 1..] && y == s[|b| + 1..];
  }

  /** Different places give different digest inputs, whatever the file is called. */
  lemma InputIsInjective(s: string, p: string, i: nat, t: string, q: string, j: nat)
    requires NUL !in p && NUL !in q && Input(s, p, i) == Input(t, q, j)
    ensures s == t && p == q && i == j
  {
    LastSeparator(s + [NUL] + p, t + [NUL] + q, Itoa(i), Itoa(j));
    LastSeparator(s, t, p, q);
    ItoaIsInjective(i, j);
  }

  /** The eleven digits of an input's digest. */
  function Spell(digest: string -> UInt64, input: string): (id: string)
    ensures |id| == ID_LENGTH && IsBase62(id) && NUL !in id
  {
    var id := Base62(digest(input), ID_LENGTH)[..ID_LENGTH];
    assert forall k | 0 <= k < |id| :: IsLetter(id[k]);
    id
  }

  /** The id of a place; digest is the 64-bit hash. */
  function Identify(digest: string -> UInt64, source: string, parent: string, siblingIndex: nat): (id: string)
    ensures |id| == ID_LENGTH && NUL !in id
  {
    Spell(digest, Input(source, parent, siblingIndex))
  }

  /** The id of a payload under a namespace. */
  function IdentifyPayload(digest: string -> UInt64, space: string, payload: string): (id: string)
    ensures |id| == ID_LENGTH && NUL !in id
  {
    Spell(digest, space + [NUL] + payload)
  }
}
