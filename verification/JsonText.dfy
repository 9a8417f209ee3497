/** The decoding that NUL stripping is measured against, undone: characters by RFC 3629 UTF-8,
    escapes by section 7 of RFC 8259 (apps/server/src/ingest/parser.rs). */
module JsonText {
  import opened Wrappers
  import opened NulEscapes

  /** A code point that is no surrogate. */
  type Scalar = x: int | 0 <= x < 0xd800 || 0xe000 <= x < 0x110000

  function Byte(n: int): byte
    requires 0 <= n < 256
  {
    n as byte
  }

  function Utf8(cp: Scalar): seq<byte> {
    if cp < 0x80 then [Byte(cp)]
    else if cp < 0x800 then [Byte(0xc0 + cp / 64), Byte(0x80 + cp % 64)]
    else if cp < 0x10000 then [Byte(0xe0 + cp / 4096), Byte(0x80 + cp / 64 % 64), Byte(0x80 + cp % 64)]
    else [Byte(0xf0 + cp / 262144), Byte(0x80 + cp / 4096 % 64), Byte(0x80 + cp / 64 % 64), Byte(0x80 + cp % 64)]
  }

  /** The code units of UTF-16: a code point beyond the first plane is a pair of surrogates. */
  predicate Utf16(cp: Scalar, units: seq<nat>) {
    if cp < 0x10000 then units == [cp]
    else
      && |units| == 2 && 0xd800 <= units[0] < 0xdc00 && 0xdc00 <= units[1] < 0xe000
      && cp == 0x10000 + (units[0] - 0xd800) * 0x400 + (units[1] - 0xdc00)
  }

  lemma UnitsAreUtf16(cp: Scalar)
    ensures Utf16(cp, UnitsOf(cp))
  {
  }

  lemma Parts(cp: nat)
    ensures cp == cp / 64 * 64 + cp % 64 && cp % 64 < 64
    ensures cp / 64 == cp / 4096 * 64 + cp / 64 % 64 && cp / 64 % 64 < 64
    ensures cp / 4096 == cp / 262144 * 64 + cp / 4096 % 64 && cp / 4096 % 64 < 64
  {
    assert cp / 64 / 64 == cp / 4096 && cp / 4096 / 64 == cp / 262144;
  }

  lemma TwoBytes(cp: Scalar, s: seq<byte>)
    requires 0x80 <= cp < 0x800 && Utf8(cp) <= s
    ensures s[0] != BACKSLASH && RawToken(s) == Some(Token(UnitsOf(cp), 2))
  {
    hide UnitsOf;
    Parts(cp);
    assert s[0] == Utf8(cp)[0] && s[1] == Utf8(cp)[1];
  }

  lemma ThreeBytes(cp: Scalar, s: seq<byte>)
    requires 0x800 <= cp < 0x10000 && Utf8(cp) <= s
    ensures s[0] != BACKSLASH && RawToken(s) == Some(Token(UnitsOf(cp), 3))
  {
    hide UnitsOf;
    Parts(cp);
    assert s[0] == Utf8(cp)[0] && s[1] == Utf8(cp)[1] && s[2] == Utf8(cp)[2];
  }

  lemma FourBytes(cp: Scalar, s: seq<byte>)
    requires 0x10000 <= cp && Utf8(cp) <= s
    ensures s[0] != BACKSLASH && RawToken(s) == Some(Token(UnitsOf(cp), 4))
  {
    hide UnitsOf;
    Parts(cp);
    assert s[0] == Utf8(cp)[0] && s[1] == Utf8(cp)[1] && s[2] == Utf8(cp)[2] && s[3] == Utf8(cp)[3];
  }

  /** Every character that may stand raw, but the backslash, is read as itself from its bytes. */
  lemma RawUndoesUtf8(cp: Scalar, s: seq<byte>)
    requires cp != 0 && cp != 92 && Utf8(cp) <= s
    ensures s[0] != BACKSLASH && RawToken(s) == Some(Token(UnitsOf(cp), |Utf8(cp)|))
  {
    hide RawToken, UnitsOf;
    if cp < 0x80 {
      OneByte(cp, s);
    } else if cp < 0x800 {
      TwoBytes(cp, s);
    } else if cp < 0x10000 {
      ThreeBytes(cp, s);
    } else {
      FourBytes(cp, s);
    }
  }

  lemma OneByte(cp: Scalar, s: seq<byte>)
    requires 0 < cp < 0x80 && cp != 92 && Utf8(cp) <= s
    ensures s[0] != BACKSLASH && RawToken(s) == Some(Token(UnitsOf(cp), 1))
  {
    assert s[0] == Utf8(cp)[0];
  }

  /** The code point whose bytes these begin with. */
  function CodePoint(s: seq<byte>): int
    requires s != [] && s[0] != BACKSLASH && RawToken(s).Some?
  {
    var b := s[0] as int;
    if b < 0x80 then b
    else if b < 0xe0 then (b - 0xc0) * 64 + (s[1] as int - 0x80)
    else if b < 0xf0 then (b - 0xe0) * 4096 + (s[1] as int - 0x80) * 64 + (s[2] as int - 0x80)
    else (b - 0xf0) * 262144 + (s[1] as int - 0x80) * 4096 + (s[2] as int - 0x80) * 64 + (s[3] as int - 0x80)
  }

  lemma Digits(a: nat, b: nat, c: nat, d: nat)
    requires b < 64 && c < 64 && d < 64
    ensures var n := a * 262144 + b * 4096 + c * 64 + d;
      n / 262144 == a && n / 4096 == a * 64 + b && n / 4096 % 64 == b && n / 64 % 64 == c && n % 64 == d
  {
    var n := a * 262144 + b * 4096 + c * 64 + d;
    assert n == (a * 4096 + b * 64 + c) * 64 + d;
    assert n / 64 == a * 4096 + b * 64 + c == (a * 64 + b) * 64 + c;
    assert n / 64 / 64 == a * 64 + b;
  }

  lemma TwoRead(s: seq<byte>)
    requires s != [] && 0x80 <= s[0] < 0xe0 && RawToken(s).Some?
    ensures var cp := CodePoint(s); 0x80 <= cp < 0x800 && Utf8(cp) <= s
  {
    hide UnitsOf;
    Digits(0, 0, s[0] as int - 0xc0, s[1] as int - 0x80);
  }

  lemma ThreeRead(s: seq<byte>)
    requires s != [] && 0xe0 <= s[0] < 0xf0 && RawToken(s).Some?
    ensures var cp := CodePoint(s); 0x800 <= cp < 0x10000 && !(0xd800 <= cp < 0xe000) && Utf8(cp) <= s
  {
    hide UnitsOf;
    Digits(0, s[0] as int - 0xe0, s[1] as int - 0x80, s[2] as int - 0x80);
  }

  lemma FourRead(s: seq<byte>)
    requires s != [] && 0xf0 <= s[0] && RawToken(s).Some?
    ensures var cp := CodePoint(s); 0x10000 <= cp < 0x110000 && Utf8(cp) <= s
  {
    hide UnitsOf;
    Digits(s[0] as int - 0xf0, s[1] as int - 0x80, s[2] as int - 0x80, s[3] as int - 0x80);
  }

  /** And nothing else is read. */
  lemma RawIsUtf8(s: seq<byte>) returns (cp: Scalar)
    requires s != [] && s[0] != BACKSLASH && RawToken(s).Some?
    ensures cp != 0 && cp != 92 && Utf8(cp) <= s && RawToken(s).value == Token(UnitsOf(cp), |Utf8(cp)|)
  {
    hide RawToken, UnitsOf, CodePoint;
    if s[0] < 0x80 {
      cp := OneRead(s);
    } else if s[0] < 0xe0 {
      TwoRead(s);
      cp := CodePoint(s);
    } else if s[0] < 0xf0 {
      ThreeRead(s);
      cp := CodePoint(s);
    } else {
      FourRead(s);
      cp := CodePoint(s);
    }
    RawUndoesUtf8(cp, s);
  }

  lemma OneRead(s: seq<byte>) returns (cp: Scalar)
    requires s != [] && s[0] != BACKSLASH && s[0] < 0x80 && RawToken(s).Some?
    ensures cp != 0 && cp != 92 && Utf8(cp) <= s
  {
    cp := s[0] as int;
  }

  // ----- escapes -----------------------------------------------------------------------

  const LOWER := "0123456789abcdef"
  const UPPER := "0123456789ABCDEF"

  predicate Spells(b: byte, n: nat)
    requires n < 16
  {
    b as int == LOWER[n] as int || b as int == UPPER[n] as int
  }

  lemma DigitExactly(b: byte, n: nat)
    requires n < 16
    ensures HexValue(b) == Some(n) <==> Spells(b, n)
  {
  }

  lemma Sixteens(a: nat, b: nat, c: nat, d: nat, n: nat)
    requires b < 16 && c < 16 && d < 16
    ensures 4096 * a + 256 * b + 16 * c + d == n
       <==> a == n / 4096 && b == n / 256 % 16 && c == n / 16 % 16 && d == n % 16
  {
    assert n / 16 / 16 == n / 256 && n / 256 / 16 == n / 4096;
    var m := 4096 * a + 256 * b + 16 * c + d;
    assert m == (256 * a + 16 * b + c) * 16 + d;
    assert m / 16 == 256 * a + 16 * b + c == (16 * a + b) * 16 + c;
    assert m / 16 / 16 == 16 * a + b && m / 256 / 16 == a;
  }

  /** Four digits in either case are read as the unit they spell, and only that one. */
  lemma UnicodeEscapeExactly(s: seq<byte>, unit: nat)
    requires |s| >= 6 && s[0] == BACKSLASH && s[1] as int == 'u' as int && unit < 0x10000
    ensures EscapeToken(s) == Some(Token([unit], 6))
       <==> Spells(s[2], unit / 0x1000) && Spells(s[3], unit / 0x100 % 16)
            && Spells(s[4], unit / 0x10 % 16) && Spells(s[5], unit % 16)
  {
    hide HexValue, Spells, Hex4;
    DigitExactly(s[2], unit / 0x1000);
    DigitExactly(s[3], unit / 0x100 % 16);
    DigitExactly(s[4], unit / 0x10 % 16);
    DigitExactly(s[5], unit % 16);
    Hex4Exactly(s[2..6], unit);
  }

  lemma Hex4Exactly(t: seq<byte>, unit: nat)
    requires |t| == 4
    ensures Hex4(t) == Some(unit)
       <==> HexValue(t[0]) == Some(unit / 0x1000) && HexValue(t[1]) == Some(unit / 0x100 % 16)
            && HexValue(t[2]) == Some(unit / 0x10 % 16) && HexValue(t[3]) == Some(unit % 16)
  {
    hide HexValue;
    HexBound(t[1]);
    HexBound(t[2]);
    HexBound(t[3]);
    var (a, b, c, d) := (HexValue(t[0]), HexValue(t[1]), HexValue(t[2]), HexValue(t[3]));
    if a.Some? && b.Some? && c.Some? && d.Some? { Sixteens(a.value, b.value, c.value, d.value, unit); }
  }

  lemma HexBound(b: byte)
    ensures HexValue(b).Some? ==> HexValue(b).value < 16
  {
  }

  /** The two-character escapes. */
  lemma ShortEscapeExactly(c: char, unit: nat)
    requires c < 128 as char
    ensures ShortEscape(c as int as byte) == Some(unit)
       <==> match c
            case '\"' | '\\' | '/' => unit == c as nat
            case 'b' => unit == 8
            case 'f' => unit == 12
            case 'n' => unit == '\n' as nat
            case 'r' => unit == '\r' as nat
            case 't' => unit == '\t' as nat
            case _ => false
  {
  }
}
