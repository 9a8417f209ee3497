/** Exactly which texts are read as an event id or a project id
    (apps/server/src/ingest/storage.rs, with the `uuid` crate's and Rust's own parsers). */
module FileSpellings {
  import opened Wrappers
  import opened FileNames

  // ----- event ids ---------------------------------------------------------------------

  const LOWER := "0123456789abcdef"
  const UPPER := "0123456789ABCDEF"

  /** Hexadecimal digits in either case. */
  predicate Digits(s: string, u: seq<Nibble>) {
    |s| == |u| && forall i | 0 <= i < |u| :: s[i] == LOWER[u[i]] || s[i] == UPPER[u[i]]
  }

  function Hyphens(d: string): string
    requires |d| == 32
  {
    d[..8] + "-" + d[8..12] + "-" + d[12..16] + "-" + d[16..20] + "-" + d[20..]
  }

  /** The four forms of an id. */
  ghost predicate Spells(s: string, u: Uuid, d: string) {
    && Digits(d, u)
    && (s == d || s == Hyphens(d) || s == "{" + Hyphens(d) + "}" || s == "urn:uuid:" + Hyphens(d))
  }

  lemma DigitExactly(c: char, n: Nibble)
    ensures HexValue(c) == Some(n) <==> c == LOWER[n] || c == UPPER[n]
  {
  }

  lemma {:induction false} HexExactly(s: string, u: seq<Nibble>)
    ensures ParseHex(s) == Some(u) <==> Digits(s, u)
    decreases |s|
  {
    hide HexValue;
    if s != "" && u != [] {
      DigitExactly(s[0], u[0]);
      HexExactly(s[1..], u[1..]);
      assert [u[0]] + u[1..] == u;
      DigitsCons(s, u);
      if ParseHex(s) == Some(u) { assert ParseHex(s[1..]) == Some(u[1..]); }
    }
  }

  lemma DigitsCons(s: string, u: seq<Nibble>)
    requires s != "" && u != []
    ensures Digits(s, u) <==> (s[0] == LOWER[u[0]] || s[0] == UPPER[u[0]]) && Digits(s[1..], u[1..])
  {
    if Digits(s[1..], u[1..]) && (s[0] == LOWER[u[0]] || s[0] == UPPER[u[0]]) {
      forall i | 0 <= i < |u| ensures s[i] == LOWER[u[i]] || s[i] == UPPER[u[i]] {
        if i > 0 { assert s[i] == s[1..][i - 1] && u[i] == u[1..][i - 1]; }
      }
    }
    if Digits(s, u) {
      forall i | 0 <= i < |u| - 1 ensures s[1..][i] == LOWER[u[1..][i]] || s[1..][i] == UPPER[u[1..][i]] {
        assert s[1..][i] == s[i + 1] && u[1..][i] == u[i + 1];
      }
    }
  }

  /** The digits of a hyphenated text. */
  function Bare(s: string): (d: string)
    requires |s| == 36
    ensures |d| == 32
  {
    s[..8] + s[9..13] + s[14..18] + s[19..23] + s[24..]
  }

  lemma BareHyphens(d: string)
    requires |d| == 32
    ensures var s := Hyphens(d); |s| == 36 && s[8] == s[13] == s[18] == s[23] == '-' && Bare(s) == d
  {
    HyphensRemoved(d[..8], d[8..12], d[12..16], d[16..20], d[20..]);
    assert d[..8] + d[8..12] + d[12..16] + d[16..20] + d[20..] == d;
  }

  lemma HyphensBare(s: string)
    requires |s| == 36 && s[8] == s[13] == s[18] == s[23] == '-'
    ensures Hyphens(Bare(s)) == s
  {
    var d := Bare(s);
    assert d[..8] == s[..8] && d[8..12] == s[9..13] && d[12..16] == s[14..18];
    assert d[16..20] == s[19..23] && d[20..] == s[24..];
    assert s[8..9] == s[13..14] == s[18..19] == s[23..24] == "-";
    assert s == s[..8] + s[8..9] + s[9..13] + s[13..14] + s[14..18] + s[18..19] + s[19..23] + s[23..24] + s[24..];
  }

  ghost predicate Hyphenates(s: string, u: Uuid, d: string) {
    Digits(d, u) && s == Hyphens(d)
  }

  lemma HyphenatedExactly(s: string, u: Uuid)
    requires |s| == 36
    ensures ParseHyphenated(s) == Some(u) <==> Hyphenates(s, u, Bare(s))
    ensures forall d | Hyphenates(s, u, d) :: d == Bare(s)
  {
    hide ParseHex, Digits;
    HexExactly(Bare(s), u);
    if ParseHyphenated(s) == Some(u) { HyphensBare(s); }
    if Hyphenates(s, u, Bare(s)) { BareHyphens(Bare(s)); }
    forall d | Hyphenates(s, u, d) ensures d == Bare(s) {
      DigitsLength(d, u);
      BareHyphens(d);
    }
  }

  lemma DigitsLength(d: string, u: seq<Nibble>)
    requires Digits(d, u)
    ensures |d| == |u|
  {
  }

  /** An id is read exactly from its thirty-two digits in either case, bare, hyphenated, braced or
      as a URN. */
  lemma UuidExactly(s: string, u: Uuid)
    ensures ParseUuid(s) == Some(u) <==> exists d :: Spells(s, u, d)
  {
    hide ParseHex, ParseHyphenated, Digits, Hyphens;
    if ParseUuid(s) == Some(u) {
      var d := SpellingOf(s, u);
    }
    if exists d :: Spells(s, u, d) {
      var d :| Spells(s, u, d);
      SpelledIsRead(s, u, d);
    }
  }

  lemma SpellingOf(s: string, u: Uuid) returns (d: string)
    requires ParseUuid(s) == Some(u)
    ensures Spells(s, u, d)
  {
    hide ParseHex, ParseHyphenated, Digits, Hyphens;
    if |s| == 32 {
      HexExactly(s, u);
      d := s;
    } else {
      var t := if |s| == 36 then s else if |s| == 38 then s[1..37] else s[9..];
      HyphenatedExactly(t, u);
      d := Bare(t);
      assert |s| == 38 ==> s == "{" + t + "}";
      assert |s| == 45 ==> s == "urn:uuid:" + t;
    }
  }

  lemma SpelledIsRead(s: string, u: Uuid, d: string)
    requires Spells(s, u, d)
    ensures ParseUuid(s) == Some(u)
  {
    hide ParseHex, ParseHyphenated, Digits, Hyphens;
    DigitsLength(d, u);
    var t := Hyphens(d);
    BareHyphens(d);
    if s == d {
      HexExactly(s, u);
    } else {
      HyphenatedExactly(t, u);
      assert s == "{" + t + "}" ==> s[1..37] == t;
      assert s == "urn:uuid:" + t ==> s[9..] == t && s[..9] == "urn:uuid:";
    }
  }

  // ----- project ids -------------------------------------------------------------------

  function Zeros(n: nat): (s: string)
    ensures |s| == n
  {
    seq(n, _ => '0')
  }

  ghost predicate Decimal(s: string, n: nat) {
    exists k: nat :: s == Zeros(k) + FormatNat(n)
  }

  /** Digits are read as a number exactly when they are its decimal form, after any zeros. */
  lemma {:induction false} NatExactly(s: string, n: nat)
    requires s != ""
    ensures ParseNat(s) == Some(n) <==> Decimal(s, n)
    decreases |s|
  {
    hide FormatNat, ParseNat;
    if ParseNat(s) == Some(n) { NatRead(s, n); }
    if Decimal(s, n) {
      var k: nat :| s == Zeros(k) + FormatNat(n);
      ParseNatUndoesFormat(n);
      ZerosIgnored(k, FormatNat(n));
    }
  }

  lemma {:induction false} ZerosIgnored(k: nat, s: string)
    requires ParseNat(s).Some?
    ensures ParseNat(Zeros(k) + s) == ParseNat(s)
    decreases |s|
  {
    if s == "" {
      assert Zeros(k) + s == Zeros(k);
      OnlyZeros(k);
    } else {
      var more := Zeros(k) + s;
      assert more[..|more| - 1] == Zeros(k) + s[..|s| - 1];
      ZerosIgnored(k, s[..|s| - 1]);
    }
  }

  lemma {:induction false} OnlyZeros(k: nat)
    ensures ParseNat(Zeros(k)) == Some(0)
    decreases k
  {
    if k > 0 {
      OnlyZeros(k - 1);
      assert Zeros(k)[..k - 1] == Zeros(k - 1);
    }
  }

  function Digit(c: char): (d: nat)
    requires '0' <= c <= '9'
    ensures d < 10
  {
    c as nat - '0' as nat
  }

  lemma LastDigit(s: string, n: nat)
    requires s != "" && ParseNat(s) == Some(n)
    ensures ParseNat(s[..|s| - 1]).Some? && '0' <= s[|s| - 1] <= '9'
    ensures n == 10 * ParseNat(s[..|s| - 1]).value + Digit(s[|s| - 1])
  {
  }

  lemma FormatDigit(c: char)
    requires '0' <= c <= '9'
    ensures FormatNat(Digit(c)) == [c]
  {
    assert DigitChar(Digit(c)) == c;
  }

  lemma FormatSnoc(m: nat, c: char)
    requires '0' <= c <= '9' && m > 0
    ensures FormatNat(10 * m + Digit(c)) == FormatNat(m) + [c]
  {
    var n := 10 * m + Digit(c);
    assert n / 10 == m && n % 10 == Digit(c);
    assert DigitChar(Digit(c)) == c;
  }

  lemma {:induction false} NatRead(s: string, n: nat)
    requires s != "" && ParseNat(s) == Some(n)
    ensures Decimal(s, n)
    decreases |s|
  {
    hide ParseNat, FormatNat, Digit;
    LastDigit(s, n);
    var front, c := s[..|s| - 1], s[|s| - 1];
    assert s == front + [c];
    if front == "" {
      ParseNatOfNothing(front);
      FormatDigit(c);
      assert s == Zeros(0) + [c];
    } else {
      var m := ParseNat(front).value;
      NatRead(front, m);
      var k: nat :| front == Zeros(k) + FormatNat(m);
      DigitAfter(k, m, c);
    }
  }

  lemma DigitAfter(k: nat, m: nat, c: char)
    requires '0' <= c <= '9'
    ensures Decimal(Zeros(k) + FormatNat(m) + [c], 10 * m + Digit(c))
  {
    hide FormatNat, Digit;
    if m == 0 {
      FormatDigit('0');
      FormatDigit(c);
      assert Digit('0') == 0 by { ZeroIs(); }
      assert Zeros(k) + FormatNat(0) == Zeros(k + 1);
    } else {
      FormatSnoc(m, c);
      Regroup(Zeros(k), FormatNat(m), [c]);
    }
  }

  lemma ZeroIs()
    ensures Digit('0') == 0
  {
  }

  ghost predicate Signed(s: string, n: int, d: string) {
    && Decimal(d, if n < 0 then -n else n)
    && ((n <= 0 && s == "-" + d) || (n >= 0 && (s == "+" + d || s == d)))
  }

  lemma DecimalStarts(d: string, n: nat)
    requires Decimal(d, n)
    ensures d != "" && '0' <= d[0] <= '9'
  {
    var k: nat :| d == Zeros(k) + FormatNat(n);
    if k > 0 { assert d[0] == Zeros(k)[0]; } else { assert d[0] == FormatNat(n)[0]; }
  }

  /** A project id is read exactly from its decimal form, with any zeros before it, and a sign:
      plus or minus, or none for a number that is not negative. */
  lemma Int32Exactly(s: string, n: Int32)
    ensures ParseInt32(s) == Some(n) <==> exists d :: Signed(s, n, d)
  {
    hide ParseNat, FormatNat, Decimal;
    var size: nat := if n < 0 then 0 - n else n;
    if ParseInt32(s) == Some(n) {
      var signed := s[0] == '-' || s[0] == '+';
      var digits := if signed then s[1..] else s;
      NatExactly(digits, size);
      assert signed ==> s == [s[0]] + digits;
      assert Signed(s, n, digits);
    }
    if exists d :: Signed(s, n, d) {
      var d :| Signed(s, n, d);
      DecimalStarts(d, size);
      NatExactly(d, size);
      assert s != d ==> s[1..] == d;
    }
  }

  /** A project's number in a name is the shortest text that is read as it. */
  lemma FormatIsShortest(s: string, n: Int32)
    requires ParseInt32(s) == Some(n)
    ensures |s| >= |FormatInt(n)|
    ensures |s| == |FormatInt(n)| ==> s == FormatInt(n)
  {
    hide ParseInt32, FormatNat;
    Int32Exactly(s, n);
    var d :| Signed(s, n, d);
    var size: nat := if n < 0 then 0 - n else n;
    var k: nat :| d == Zeros(k) + FormatNat(size);
    assert k == 0 ==> d == FormatNat(size);
  }
}
