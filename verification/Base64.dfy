/** Base64 (section 4 of RFC 4648) with canonical padding required, and the encoder's chunked
    form (apps/server/src/ingest/storage.rs). Text is a sequence of ASCII codes. */
module Base64 {
  import opened Wrappers

  const PAD: byte := 61

  type Sextet = x: int | 0 <= x < 64

  function Symbol(v: Sextet): (c: byte)
    ensures c != PAD
  {
    if v < 26 then (65 + v) as byte
    else if v < 52 then (71 + v) as byte
    else if v < 62 then (v - 4) as byte
    else if v == 62 then 43
    else 47
  }

  function ValueOf(c: byte): (r: Option<Sextet>)
    ensures r.Some? ==> Symbol(r.value) == c
  {
    if 65 <= c <= 90 then Some(c as int - 65)
    else if 97 <= c <= 122 then Some(c as int - 71)
    else if 48 <= c <= 57 then Some(c as int + 4)
    else if c == 43 then Some(62)
    else if c == 47 then Some(63)
    else None
  }

  lemma ValueOfSymbol(v: Sextet)
    ensures ValueOf(Symbol(v)) == Some(v)
  {
  }

  function First(a: byte): Sextet { a as int / 4 }

  function Second(a: byte, b: byte): Sextet { a as int % 4 * 16 + b as int / 16 }

  function Third(b: byte, c: byte): Sextet { b as int % 16 * 4 + c as int / 64 }

  function Fourth(c: byte): Sextet { c as int % 64 }

  function High(v: Sextet, w: Sextet): byte { (v * 4 + w / 16) as byte }

  function Middle(v: Sextet, w: Sextet): byte { (v % 16 * 16 + w / 4) as byte }

  function Low(v: Sextet, w: Sextet): byte { (v % 4 * 64 + w) as byte }

  lemma BytesBack(a: byte, b: byte, c: byte)
    ensures High(First(a), Second(a, b)) == a
    ensures Middle(Second(a, b), Third(b, c)) == b
    ensures Low(Third(b, c), Fourth(c)) == c
  {
  }

  lemma SpareBitsZero(a: byte)
    ensures Second(a, 0) % 16 == 0 && Third(a, 0) % 4 == 0
  {
  }

  lemma SextetsBack(u: Sextet, v: Sextet, w: Sextet, x: Sextet)
    ensures First(High(u, v)) == u
    ensures Second(High(u, v), Middle(v, w)) == v
    ensures Third(Middle(v, w), Low(w, x)) == w
    ensures Fourth(Low(w, x)) == x
    ensures v % 16 == 0 ==> Second(High(u, v), 0) == v
    ensures w % 4 == 0 ==> Third(Middle(v, w), 0) == w
  {
  }

  function Group3(a: byte, b: byte, c: byte): (r: seq<byte>)
    ensures |r| == 4
  {
    [Symbol(First(a)), Symbol(Second(a, b)), Symbol(Third(b, c)), Symbol(Fourth(c))]
  }

  function Group2(a: byte, b: byte): (r: seq<byte>)
    ensures |r| == 4
  {
    [Symbol(First(a)), Symbol(Second(a, b)), Symbol(Third(b, 0)), PAD]
  }

  function Group1(a: byte): (r: seq<byte>)
    ensures |r| == 4
  {
    [Symbol(First(a)), Symbol(Second(a, 0)), PAD, PAD]
  }

  function Encode(data: seq<byte>): seq<byte>
    decreases |data|
  {
    if |data| == 0 then []
    else if |data| == 1 then Group1(data[0])
    else if |data| == 2 then Group2(data[0], data[1])
    else Group3(data[0], data[1], data[2]) + Encode(data[3..])
  }

  /** A group of four symbols: only the last may be padded, and the bits that padding leaves
      over must be zero. */
  function DecodeGroup(p: byte, q: byte, r: byte, s: byte, last: bool): Option<seq<byte>> {
    match (ValueOf(p), ValueOf(q))
    case (Some(u), Some(v)) =>
      if last && r == PAD && s == PAD then
        if v % 16 == 0 then Some([High(u, v)]) else None
      else (match ValueOf(r)
            case None => None
            case Some(w) =>
              if last && s == PAD then
                if w % 4 == 0 then Some([High(u, v), Middle(v, w)]) else None
              else match ValueOf(s)
                case None => None
                case Some(x) => Some([High(u, v), Middle(v, w), Low(w, x)]))
    case _ => None
  }

  function Decode(text: seq<byte>): Option<seq<byte>>
    decreases |text|
  {
    if |text| == 0 then Some([])
    else if |text| < 4 then None
    else match (DecodeGroup(text[0], text[1], text[2], text[3], |text| == 4), Decode(text[4..]))
      case (Some(group), Some(rest)) => Some(group + rest)
      case _ => None
  }

  // ----- round trip --------------------------------------------------------------------

  lemma Group3Back(a: byte, b: byte, c: byte, last: bool)
    ensures var g := Group3(a, b, c); DecodeGroup(g[0], g[1], g[2], g[3], last) == Some([a, b, c])
  {
    hide Symbol, ValueOf, First, Second, Third, Fourth, High, Middle, Low;
    ValueOfSymbol(First(a));
    ValueOfSymbol(Second(a, b));
    ValueOfSymbol(Third(b, c));
    ValueOfSymbol(Fourth(c));
    BytesBack(a, b, c);
  }

  lemma Group2Back(a: byte, b: byte)
    ensures var g := Group2(a, b); DecodeGroup(g[0], g[1], g[2], g[3], true) == Some([a, b])
  {
    hide Symbol, ValueOf, First, Second, Third, Fourth, High, Middle, Low;
    SpareBitsZero(b);
    ValueOfSymbol(First(a));
    ValueOfSymbol(Second(a, b));
    ValueOfSymbol(Third(b, 0));
    BytesBack(a, b, 0);
  }

  lemma Group1Back(a: byte)
    ensures var g := Group1(a); DecodeGroup(g[0], g[1], g[2], g[3], true) == Some([a])
  {
    hide Symbol, ValueOf, First, Second, Third, Fourth, High, Middle, Low;
    SpareBitsZero(a);
    ValueOfSymbol(First(a));
    ValueOfSymbol(Second(a, 0));
    BytesBack(a, 0, 0);
  }

  lemma DecodeCons(g: seq<byte>, text: seq<byte>)
    requires |g| == 4
    ensures Decode(g + text) == match (DecodeGroup(g[0], g[1], g[2], g[3], text == []), Decode(text))
      case (Some(group), Some(rest)) => Some(group + rest)
      case _ => None
  {
    hide DecodeGroup;
    assert (g + text)[4..] == text;
  }

  /** Decoding undoes encoding. */
  lemma {:induction false} DecodeUndoesEncode(data: seq<byte>)
    ensures Decode(Encode(data)) == Some(data)
    decreases |data|
  {
    hide DecodeGroup, Decode, Group1, Group2, Group3;
    DecodeEmpty();
    if |data| == 1 {
      Group1Back(data[0]);
      DecodeCons(Group1(data[0]), []);
      assert Group1(data[0]) + [] == Group1(data[0]);
      assert [data[0]] + [] == data;
    } else if |data| == 2 {
      Group2Back(data[0], data[1]);
      DecodeCons(Group2(data[0], data[1]), []);
      assert Group2(data[0], data[1]) + [] == Group2(data[0], data[1]);
      assert [data[0], data[1]] + [] == data;
    } else if |data| > 2 {
      Group3Back(data[0], data[1], data[2], Encode(data[3..]) == []);
      DecodeCons(Group3(data[0], data[1], data[2]), Encode(data[3..]));
      DecodeUndoesEncode(data[3..]);
      assert [data[0], data[1], data[2]] + data[3..] == data;
    }
  }

  lemma DecodeEmpty()
    ensures Decode([]) == Some([])
  {
  }

  lemma GroupDecodes(p: byte, q: byte, r: byte, s: byte, last: bool)
    requires DecodeGroup(p, q, r, s, last).Some?
    ensures var d := DecodeGroup(p, q, r, s, last).value;
      match |d|
      case 1 => last && [p, q, r, s] == Group1(d[0])
      case 2 => last && [p, q, r, s] == Group2(d[0], d[1])
      case 3 => [p, q, r, s] == Group3(d[0], d[1], d[2])
      case _ => false
  {
    hide First, Second, Third, Fourth, High, Middle, Low, Symbol, ValueOf;
    var u, v := ValueOf(p).value, ValueOf(q).value;
    if last && r == PAD && s == PAD {
      SextetsBack(u, v, 0, 0);
    } else if last && s == PAD {
      SextetsBack(u, v, ValueOf(r).value, 0);
    } else {
      SextetsBack(u, v, ValueOf(r).value, ValueOf(s).value);
    }
  }

  /** Text decodes to `data` exactly when it is the encoding of `data`: there is one encoding
      of everything, and nothing else is accepted. */
  lemma DecodesExactlyEncodings(text: seq<byte>, data: seq<byte>)
    ensures Decode(text) == Some(data) <==> text == Encode(data)
  {
    DecodeUndoesEncode(data);
    if Decode(text) == Some(data) { DecodedIsEncoded(text); }
  }

  lemma {:induction false} DecodedIsEncoded(text: seq<byte>)
    requires Decode(text).Some?
    ensures Encode(Decode(text).value) == text
    decreases |text|
  {
    hide DecodeGroup, Group1, Group2, Group3;
    if |text| > 0 {
      var group := DecodeGroup(text[0], text[1], text[2], text[3], |text| == 4).value;
      var rest := Decode(text[4..]).value;
      GroupDecodes(text[0], text[1], text[2], text[3], |text| == 4);
      DecodedIsEncoded(text[4..]);
      assert text == [text[0], text[1], text[2], text[3]] + text[4..];
      assert Decode(text).value == group + rest;
      if |group| == 3 {
        assert (group + rest)[3..] == rest;
      }
    }
  }

  // ----- whole groups ------------------------------------------------------------------

  /** Encoding splits at every multiple of three bytes. */
  lemma {:induction false} EncodeSplits(a: seq<byte>, b: seq<byte>)
    requires |a| % 3 == 0
    ensures Encode(a + b) == Encode(a) + Encode(b)
    decreases |a|
  {
    hide Group1, Group2, Group3;
    if a == [] {
      assert a + b == b;
    } else {
      EncodeSplits(a[3..], b);
      assert (a + b)[3..] == a[3..] + b;
      Regroup(Group3(a[0], a[1], a[2]), Encode(a[3..]), Encode(b));
    }
  }
}
