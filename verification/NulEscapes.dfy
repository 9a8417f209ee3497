/** Removing NUL escapes from a JSON document (apps/server/src/ingest/parser.rs), against the
    meaning of its text: escapes by section 7 of RFC 8259, raw characters by RFC 3629 UTF-8. */
module NulEscapes {
  import opened Wrappers

  const BACKSLASH: byte := 92

  /** `\u0000`, the only form in which a NUL can stand in valid JSON. */
  const NUL_ESCAPE: seq<byte> := [92, 117, 48, 48, 48, 48]

  predicate StartsWithNul(s: seq<byte>) {
    |s| >= 6 && s[0] == 92 && s[1] == 117 && s[2] == 48 && s[3] == 48 && s[4] == 48 && s[5] == 48
  }

  /** A borrowed or an owned byte string. */
  datatype Cow = Borrowed(bytes: seq<byte>) | Owned(bytes: seq<byte>)

  /** What the rewriting loop leaves of `s`. */
  function Strip(s: seq<byte>): seq<byte>
    decreases |s|
  {
    if s == [] then []
    else if s[0] != BACKSLASH then [s[0]] + Strip(s[1..])
    else if StartsWithNul(s) then Strip(s[6..])
    else if |s| < 2 then s
    else s[..2] + Strip(s[2..])
  }

  /** Some window of `s` spells a NUL escape, wherever it falls. */
  predicate HasWindow(s: seq<byte>) {
    exists i | 0 <= i < |s| :: StartsWithNul(s[i..])
  }

  lemma WindowOfRest(s: seq<byte>, n: nat)
    requires n <= |s| && !HasWindow(s)
    ensures !HasWindow(s[n..])
  {
    forall i | 0 <= i < |s[n..]| ensures !StartsWithNul(s[n..][i..]) {
      assert s[n..][i..] == s[n + i..];
    }
  }

  /** Without such a window there is nothing to do, so borrowing is safe. */
  lemma {:induction false} StripNothing(s: seq<byte>)
    requires !HasWindow(s)
    ensures Strip(s) == s
    decreases |s|
  {
    if s != [] {
      assert s[0..] == s;
      if s[0] != BACKSLASH {
        WindowOfRest(s, 1);
        StripNothing(s[1..]);
      } else if |s| >= 2 {
        WindowOfRest(s, 2);
        StripNothing(s[2..]);
      }
    }
  }

  /** One turn of the loop at index `i`: what it copies, and where it goes on. */
  function Copied(s: seq<byte>, i: nat): seq<byte>
    requires i < |s|
  {
    if s[i] != BACKSLASH then [s[i]]
    else if StartsWithNul(s[i..]) then []
    else s[i..Onward(s, i)]
  }

  function Onward(s: seq<byte>, i: nat): (j: nat)
    requires i < |s|
    ensures i < j <= |s|
  {
    if s[i] != BACKSLASH then i + 1
    else if StartsWithNul(s[i..]) then i + 6
    else if i + 2 <= |s| then i + 2
    else |s|
  }

  lemma StripFrom(s: seq<byte>, i: nat)
    requires i < |s|
    ensures Strip(s[i..]) == Copied(s, i) + Strip(s[Onward(s, i)..])
  {
    var rest := s[i..];
    assert rest[1..] == s[i + 1..];
    if i + 2 <= |s| {
      assert rest[2..] == s[i + 2..] && rest[..2] == s[i..i + 2];
    } else {
      StripEnd(s);
      assert s[i..] == s[i..|s|];
    }
    if i + 6 <= |s| { assert rest[6..] == s[i + 6..]; }
  }

  lemma OneTurn(s: seq<byte>, i: nat, out: seq<byte>)
    requires i < |s| && out + Strip(s[i..]) == Strip(s)
    ensures (out + Copied(s, i)) + Strip(s[Onward(s, i)..]) == Strip(s)
  {
    hide *;
    StripFrom(s, i);
    Regroup(out, Copied(s, i), Strip(s[Onward(s, i)..]));
  }

  method StripNulEscapes(json: seq<byte>) returns (r: Cow)
    ensures r.bytes == Strip(json)
    ensures r.Borrowed? <==> !HasWindow(json)
    ensures r.Borrowed? ==> r.bytes == json
  {
    if !HasWindow(json) {
      StripNothing(json);
      return Borrowed(json);
    }
    hide Strip, HasWindow, StartsWithNul;
    var out: seq<byte>, i := [], 0;
    assert out + Strip(json[0..]) == Strip(json) by { assert json[0..] == json; }
    while i < |json|
      invariant 0 <= i <= |json|
      invariant out + Strip(json[i..]) == Strip(json)
    {
      OneTurn(json, i, out);
      if json[i] != BACKSLASH {
        out := out + [json[i]];
        i := i + 1;
      } else if StartsWithNul(json[i..]) {
        assert out + [] == out;
        i := i + 6;
      } else {
        var end := if i + 2 <= |json| then i + 2 else |json|;
        out := out + json[i..end];
        i := end;
      }
    }
    StripEnd(json);
    assert out + [] == out;
    r := Owned(out);
  }

  lemma StripEnd(s: seq<byte>)
    ensures s[|s|..] == [] && Strip(s[|s|..]) == []
  {
  }

  // ----- what the text means -----------------------------------------------------------

  function HexValue(b: byte): Option<nat> {
    if 48 <= b <= 57 then Some(b as nat - 48)
    else if 65 <= b <= 70 then Some(b as nat - 55)
    else if 97 <= b <= 102 then Some(b as nat - 87)
    else None
  }

  /** The code unit of four hexadecimal digits. */
  function Hex4(s: seq<byte>): Option<nat>
    requires |s| >= 4
  {
    var (a, b, c, d) := (HexValue(s[0]), HexValue(s[1]), HexValue(s[2]), HexValue(s[3]));
    if a.Some? && b.Some? && c.Some? && d.Some?
    then Some(4096 * a.value + 256 * b.value + 16 * c.value + d.value) else None
  }

  /** The code unit of a two-character escape. */
  function ShortEscape(b: byte): Option<nat> {
    if b == 34 || b == 92 || b == 47 then Some(b as nat)
    else if b == 98 then Some(8)
    else if b == 102 then Some(12)
    else if b == 110 then Some(10)
    else if b == 114 then Some(13)
    else if b == 116 then Some(9)
    else None
  }

  /** One decoded element: its UTF-16 code units, and how many bytes spell it. */
  datatype Token = Token(units: seq<nat>, length: nat)

  function EscapeToken(s: seq<byte>): Option<Token>
    requires s != [] && s[0] == BACKSLASH
  {
    if |s| < 2 then None
    else if s[1] == 117 then
      if |s| < 6 then None
      else match Hex4(s[2..6])
        case None => None
        case Some(unit) => Some(Token([unit], 6))
    else match ShortEscape(s[1])
      case None => None
      case Some(unit) => Some(Token([unit], 2))
  }

  predicate Continues(b: byte) {
    128 <= b <= 191
  }

  function UnitsOf(codePoint: nat): seq<nat> {
    if codePoint < 65536 then [codePoint]
    else [55296 + (codePoint - 65536) / 1024, 56320 + (codePoint - 65536) % 1024]
  }

  /** A well-formed UTF-8 sequence at the start of `s` (section 4 of RFC 3629). */
  function RawToken(s: seq<byte>): Option<Token>
    requires s != [] && s[0] != BACKSLASH
  {
    var b := s[0];
    if b == 0 then None
    else if b < 128 then Some(Token([b as nat], 1))
    else if 194 <= b <= 223 && |s| >= 2 && Continues(s[1]) then
      Some(Token(UnitsOf((b as nat - 192) * 64 + (s[1] as nat - 128)), 2))
    else if 224 <= b <= 239 && |s| >= 3 && Continues(s[1]) && Continues(s[2])
         && (b == 224 ==> s[1] >= 160) && (b == 237 ==> s[1] <= 159) then
      Some(Token(UnitsOf((b as nat - 224) * 4096 + (s[1] as nat - 128) * 64 + (s[2] as nat - 128)), 3))
    else if 240 <= b <= 244 && |s| >= 4 && Continues(s[1]) && Continues(s[2]) && Continues(s[3])
         && (b == 240 ==> s[1] >= 144) && (b == 244 ==> s[1] <= 143) then
      Some(Token(UnitsOf((b as nat - 240) * 262144 + (s[1] as nat - 128) * 4096
                         + (s[2] as nat - 128) * 64 + (s[3] as nat - 128)), 4))
    else None
  }

  function NextToken(s: seq<byte>): (t: Option<Token>)
    requires s != []
    ensures t.Some? ==> 1 <= t.value.length <= |s|
  {
    if s[0] == BACKSLASH then EscapeToken(s) else RawToken(s)
  }

  /** The UTF-16 code units of a text, or nothing when an escape or a character is ill-formed. */
  function Decode(s: seq<byte>): Option<seq<nat>>
    decreases |s|
  {
    if s == [] then Some([])
    else match NextToken(s)
      case None => None
      case Some(t) =>
        match Decode(s[t.length..])
        case None => None
        case Some(rest) => Some(t.units + rest)
  }

  predicate NulFree(units: seq<nat>) {
    forall i | 0 <= i < |units| :: units[i] != 0
  }

  function WithoutNul(units: seq<nat>): seq<nat> {
    if units == [] then []
    else if units[0] == 0 then WithoutNul(units[1..])
    else [units[0]] + WithoutNul(units[1..])
  }

  lemma {:induction false} WithoutNulAppend(u: seq<nat>, v: seq<nat>)
    ensures WithoutNul(u + v) == WithoutNul(u) + WithoutNul(v)
    decreases |u|
  {
    if u == [] {
      assert u + v == v;
    } else {
      assert (u + v)[1..] == u[1..] + v;
      WithoutNulAppend(u[1..], v);
    }
  }

  lemma {:induction false} WithoutNulSame(u: seq<nat>)
    requires NulFree(u)
    ensures WithoutNul(u) == u
    decreases |u|
  {
    if u != [] { WithoutNulSame(u[1..]); }
  }

  /** An element is recognised by its own bytes alone. */
  lemma TokenIsLocal(s: seq<byte>, rest: seq<byte>)
    requires s != [] && NextToken(s).Some?
    ensures var n := NextToken(s).value.length;
            s[..n] + rest != [] && NextToken(s[..n] + rest) == NextToken(s)
  {
    var t := NextToken(s).value;
    var other := s[..t.length] + rest;
    assert forall i | 0 <= i < t.length :: other[i] == s[i];
    if s[0] == BACKSLASH && s[1] == 117 {
      assert other[2..6] == s[2..6];
    }
  }

  /** Bytes other than a backslash pass through. */
  lemma {:induction false} StripRun(s: seq<byte>, n: nat)
    requires n <= |s| && forall i | 0 <= i < n :: s[i] != BACKSLASH
    ensures Strip(s) == s[..n] + Strip(s[n..])
    decreases n
  {
    if n == 0 {
      assert s[0..] == s;
    } else {
      StripRun(s[1..], n - 1);
      assert s[1..][..n - 1] == s[1..n] && s[1..][n - 1..] == s[n..];
      assert s[..n] == [s[0]] + s[1..n];
    }
  }

  lemma HexIsNoBackslash(b: byte)
    requires HexValue(b).Some?
    ensures b != BACKSLASH
    ensures HexValue(b) == Some(0) <==> b == 48
  {
  }

  lemma NulToken(s: seq<byte>)
    requires StartsWithNul(s)
    ensures NextToken(s) == Some(Token([0], 6))
  {
    assert s[2..6] == [48, 48, 48, 48];
  }

  lemma {:induction false} StripEscape(s: seq<byte>)
    requires |s| >= 6 && s[0] == BACKSLASH && s[1] == 117 && Hex4(s[2..6]).Some? && !StartsWithNul(s)
    ensures Strip(s) == s[..6] + Strip(s[6..])
    ensures Hex4(s[2..6]).value != 0
  {
    var digits := s[2..6];
    HexIsNoBackslash(digits[0]);
    HexIsNoBackslash(digits[1]);
    HexIsNoBackslash(digits[2]);
    HexIsNoBackslash(digits[3]);
    assert digits[0] == s[2] && digits[1] == s[3] && digits[2] == s[4] && digits[3] == s[5];
    StripRun(s[2..], 4);
    assert s[2..][4..] == s[6..] && s[2..][..4] == s[2..6];
    assert s[..6] == s[..2] + s[2..6];
  }

  /** Every other element passes through, and is no NUL. */
  lemma StripToken(s: seq<byte>)
    requires s != [] && NextToken(s).Some? && !StartsWithNul(s)
    ensures var t := NextToken(s).value;
            Strip(s) == s[..t.length] + Strip(s[t.length..]) && NulFree(t.units)
  {
    var t := NextToken(s).value;
    if s[0] != BACKSLASH {
      StripRun(s, t.length);
    } else if s[1] == 117 {
      StripEscape(s);
    }
  }

  /** Stripping commutes with decoding: the meaning is the original code units with every NUL
      removed and nothing else changed. */
  lemma {:induction false} StripCommutesWithDecoding(s: seq<byte>)
    requires Decode(s).Some?
    ensures Decode(Strip(s)) == Some(WithoutNul(Decode(s).value))
    decreases |s|
  {
    if s != [] {
      var t := NextToken(s).value;
      var rest := s[t.length..];
      StripCommutesWithDecoding(rest);
      WithoutNulAppend(t.units, Decode(rest).value);
      if StartsWithNul(s) {
        NulToken(s);
        assert WithoutNul([0]) == [];
      } else {
        StripToken(s);
        WithoutNulSame(t.units);
        TokenIsLocal(s, Strip(rest));
        assert (s[..t.length] + Strip(rest))[t.length..] == Strip(rest);
      }
    }
  }

  lemma DecodeFirst(s: seq<byte>)
    requires s != [] && Decode(s).Some?
    ensures NextToken(s).Some? && Decode(s[NextToken(s).value.length..]).Some?
    ensures Decode(s).value == NextToken(s).value.units + Decode(s[NextToken(s).value.length..]).value
  {
  }

  lemma {:induction false} NothingToStrip(s: seq<byte>)
    requires Decode(s).Some? && NulFree(Decode(s).value)
    ensures Strip(s) == s
    decreases |s|
  {
    if s != [] {
      hide *;
      DecodeFirst(s);
      var t := NextToken(s).value;
      NoNulInParts(t.units, Decode(s[t.length..]).value);
      if StartsWithNul(s) {
        NulToken(s);
        NulIsNotFree();
        assert false;
      } else {
        StripToken(s);
        NothingToStrip(s[t.length..]);
        SplitAt(s, t.length);
      }
    }
  }

  lemma NulIsNotFree()
    ensures !NulFree([0])
  {
    assert [0][0] == 0;
  }

  lemma NoNulInParts(u: seq<nat>, v: seq<nat>)
    requires NulFree(u + v)
    ensures NulFree(u) && NulFree(v)
  {
    forall i | 0 <= i < |v| ensures v[i] != 0 { assert v[i] == (u + v)[|u| + i]; }
    forall i | 0 <= i < |u| ensures u[i] != 0 { assert u[i] == (u + v)[i]; }
  }

  lemma {:induction false} WithoutNulHasNone(u: seq<nat>)
    ensures NulFree(WithoutNul(u))
    decreases |u|
  {
    if u != [] { WithoutNulHasNone(u[1..]); }
  }

  // ----- stripping twice ---------------------------------------------------------------

  /** The next `n` bytes that stripping keeps are zero digits: only NUL escapes stand between. */
  predicate ZerosAhead(s: seq<byte>, n: nat)
    decreases |s|
  {
    if n == 0 then true
    else if s == [] then false
    else if s[0] == 48 then ZerosAhead(s[1..], n - 1)
    else StartsWithNul(s) && ZerosAhead(s[6..], n)
  }

  /** Somewhere in the scan a copied backslash and `u` come to stand before four zero digits,
      once the NUL escapes between them are gone. */
  predicate Rejoins(s: seq<byte>)
    decreases |s|
  {
    if s == [] then false
    else if s[0] != BACKSLASH then Rejoins(s[1..])
    else if StartsWithNul(s) then Rejoins(s[6..])
    else if |s| < 2 then false
    else (s[1] == 117 && ZerosAhead(s[2..], 4)) || Rejoins(s[2..])
  }

  /** A text starts with `n` zero digits. */
  predicate StartsWithZeros(s: seq<byte>, n: nat) {
    n <= |s| && forall i | 0 <= i < n :: s[i] == 48
  }

  lemma ZerosCons(c: byte, s: seq<byte>, n: nat)
    requires n > 0
    ensures StartsWithZeros([c] + s, n) <==> c == 48 && StartsWithZeros(s, n - 1)
  {
    var t := [c] + s;
    if c == 48 && StartsWithZeros(s, n - 1) {
      forall i | 0 <= i < n ensures t[i] == 48 { if i > 0 { assert t[i] == s[i - 1]; } }
    }
    if StartsWithZeros(t, n) {
      assert t[0] == c;
      forall i | 0 <= i < n - 1 ensures s[i] == 48 { assert s[i] == t[i + 1]; }
    }
  }

  lemma {:induction false} ZerosAheadExactly(s: seq<byte>, n: nat)
    ensures ZerosAhead(s, n) <==> StartsWithZeros(Strip(s), n)
    decreases |s|
  {
    hide StartsWithZeros;
    if n == 0 {
      ZerosNone(Strip(s));
    } else if s == [] {
      NoZerosInNothing(n);
    } else if s[0] != BACKSLASH {
      ZerosCons(s[0], Strip(s[1..]), n);
      if s[0] == 48 { ZerosAheadExactly(s[1..], n - 1); }
    } else if StartsWithNul(s) {
      ZerosAheadExactly(s[6..], n);
    } else {
      assert Strip(s) == [s[0]] + Strip(s)[1..];
      ZerosCons(s[0], Strip(s)[1..], n);
    }
  }

  lemma ZerosNone(s: seq<byte>)
    ensures StartsWithZeros(s, 0)
  {
  }

  lemma NoZerosInNothing(n: nat)
    requires n > 0
    ensures !StartsWithZeros([], n)
  {
  }

  lemma {:induction false} StripShortens(s: seq<byte>)
    ensures |Strip(s)| <= |s|
    decreases |s|
  {
    if s == [] {
    } else if s[0] != BACKSLASH {
      StripShortens(s[1..]);
    } else if StartsWithNul(s) {
      StripShortens(s[6..]);
    } else if |s| >= 2 {
      StripShortens(s[2..]);
    }
  }

  /** A copied pair before stripped text: it is a NUL escape exactly when it is a backslash and
      `u` before four zero digits. */
  lemma PairBecomesNul(s: seq<byte>, rest: seq<byte>)
    requires |s| >= 2 && s[0] == BACKSLASH
    ensures StartsWithNul(s[..2] + rest) <==> s[1] == 117 && StartsWithZeros(rest, 4)
  {
    var t := s[..2] + rest;
    assert forall i | 0 <= i < |rest| :: t[i + 2] == rest[i];
    if StartsWithNul(t) {
      assert rest[0] == t[2] && rest[1] == t[3] && rest[2] == t[4] && rest[3] == t[5];
    }
  }

  /** Stripping twice is stripping once exactly when nothing rejoins, on every byte string. */
  lemma {:induction false} StripTwiceExactly(s: seq<byte>)
    ensures Strip(Strip(s)) == Strip(s) <==> !Rejoins(s)
    decreases |s|
  {
    hide StartsWithNul, ZerosAhead, StartsWithZeros;
    if s == [] {
    } else if s[0] != BACKSLASH {
      StripTwiceExactly(s[1..]);
      assert Strip(s)[1..] == Strip(s[1..]);
      assert Strip(Strip(s)) == [s[0]] + Strip(Strip(s[1..]));
      assert ([s[0]] + Strip(Strip(s[1..])))[1..] == Strip(Strip(s[1..]));
    } else if StartsWithNul(s) {
      NulHasSix(s);
      StripTwiceExactly(s[6..]);
    } else if |s| >= 2 {
      PairStripTwice(s);
    } else {
      assert s[..] == s;
    }
  }

  lemma NulHasSix(s: seq<byte>)
    ensures StartsWithNul(s) ==> |s| >= 6
  {
  }

  lemma {:induction false} PairStripTwice(s: seq<byte>)
    requires |s| >= 2 && s[0] == BACKSLASH && !StartsWithNul(s)
    ensures Strip(Strip(s)) == Strip(s) <==> !Rejoins(s)
    decreases |s|, 0
  {
    hide StartsWithNul, ZerosAhead, StartsWithZeros;
    var rest := Strip(s[2..]);
    var once := s[..2] + rest;
    assert Strip(s) == once && once[0] == BACKSLASH && once[..2] == s[..2] && once[2..] == rest;
    StripTwiceExactly(s[2..]);
    ZerosAheadExactly(s[2..], 4);
    PairBecomesNul(s, rest);
    if StartsWithNul(once) {
      NulHasSix(once);
      StripShortens(once[6..]);
      assert Strip(once) == Strip(once[6..]);
    } else {
      assert Strip(once) == s[..2] + Strip(rest);
      assert (s[..2] + Strip(rest))[2..] == Strip(rest);
    }
  }

  lemma {:induction false} RejoinsRun(s: seq<byte>, n: nat)
    requires n <= |s| && forall i | 0 <= i < n :: s[i] != BACKSLASH
    ensures Rejoins(s) == Rejoins(s[n..])
    decreases n
  {
    if n == 0 {
      assert s[0..] == s;
    } else {
      RejoinsRun(s[1..], n - 1);
      assert s[1..][n - 1..] == s[n..];
    }
  }

  lemma DigitsAreNotZeros(s: seq<byte>)
    requires |s| >= 6 && s[0] == BACKSLASH && s[1] == 117 && Hex4(s[2..6]).Some? && !StartsWithNul(s)
    ensures !ZerosAhead(s[2..], 4)
    ensures forall i | 0 <= i < 4 :: s[2..][i] != BACKSLASH
  {
    hide Strip, ZerosAhead;
    var digits := s[2..6];
    HexIsNoBackslash(digits[0]);
    HexIsNoBackslash(digits[1]);
    HexIsNoBackslash(digits[2]);
    HexIsNoBackslash(digits[3]);
    assert forall i | 0 <= i < 4 :: digits[i] == s[2..][i] == s[i + 2];
    StripRun(s[2..], 4);
    ZerosAheadExactly(s[2..], 4);
    assert forall i | 0 <= i < 4 :: Strip(s[2..])[i] == s[2..][i];
  }

  /** A text that decodes has no escape for a NUL to break. */
  lemma {:induction false} WellFormedNeverRejoins(s: seq<byte>)
    requires Decode(s).Some?
    ensures !Rejoins(s)
    decreases |s|
  {
    if s != [] {
      var t := NextToken(s).value;
      WellFormedNeverRejoins(s[t.length..]);
      if s[0] != BACKSLASH {
        RejoinsRun(s, t.length);
      } else if s[1] == 117 && !StartsWithNul(s) {
        DigitsAreNotZeros(s);
        RejoinsRun(s[2..], 4);
        assert s[2..][4..] == s[6..];
      }
    }
  }

  /** On well-formed text stripping twice is stripping once. */
  lemma StripTwice(s: seq<byte>)
    requires Decode(s).Some?
    ensures Strip(Strip(s)) == Strip(s)
  {
    WellFormedNeverRejoins(s);
    StripTwiceExactly(s);
  }

  /** A document is left alone exactly when its meaning holds no NUL. */
  lemma UnchangedExactly(s: seq<byte>)
    requires Decode(s).Some?
    ensures Strip(s) == s <==> NulFree(Decode(s).value)
  {
    if Strip(s) == s {
      StripCommutesWithDecoding(s);
      WithoutNulHasNone(Decode(s).value);
    } else if NulFree(Decode(s).value) {
      NothingToStrip(s);
    }
  }

  /** `\\u0000` is an escaped backslash and then literal text: it survives. */
  lemma EscapedBackslashSurvives(rest: seq<byte>)
    ensures Strip([92, 92, 117, 48, 48, 48, 48] + rest) == [92, 92, 117, 48, 48, 48, 48] + Strip(rest)
  {
    var s := [92, 92, 117, 48, 48, 48, 48] + rest;
    assert s[2..][..5] == [117, 48, 48, 48, 48] && s[2..][5..] == rest;
    StripRun(s[2..], 5);
    assert s[..2] == [92, 92];
    assert [92, 92] + ([117, 48, 48, 48, 48] + Strip(rest)) == [92, 92, 117, 48, 48, 48, 48] + Strip(rest);
  }

  /** A broken escape that rejoins: removing the NUL from its middle makes another, which a
      second pass removes. Not every ill-formed text does so. */
  lemma BrokenEscapeMakesAnother()
    ensures var half: seq<byte>, digits: seq<byte> := [92, 117, 48, 48], [48, 48];
      && Rejoins(half + NUL_ESCAPE + digits)
      && Strip(half + NUL_ESCAPE + digits) == NUL_ESCAPE && Strip(NUL_ESCAPE) == []
    ensures Decode([92, 113]) == None && !Rejoins([92, 113])
  {
    var half: seq<byte>, digits: seq<byte> := [92, 117, 48, 48], [48, 48];
    var s := half + NUL_ESCAPE + digits;
    assert s[2..] == [48, 48] + (NUL_ESCAPE + digits);
    StripRun(s[2..], 2);
    assert s[2..][2..] == NUL_ESCAPE + digits;
    assert (NUL_ESCAPE + digits)[6..] == digits;
    StripRun(digits, 2);
    assert digits[2..] == [];
    StripTwiceExactly(s);
  }
}
