/** What the symbols of base64 text stand for (section 4 of RFC 4648). */
module Base64Bits {
  import opened Wrappers
  import opened Base64

  const CAPITALS := "ABCDEFGHIJKLMNOPQRSTUVWXYZ"
  const LETTERS := "abcdefghijklmnopqrstuvwxyz"
  const OTHERS := "0123456789+/"
  const ALPHABET := CAPITALS + LETTERS + OTHERS

  lemma Letters(v: nat)
    requires v < 26
    ensures CAPITALS[v] as int == 65 + v && LETTERS[v] as int == 97 + v
  {
  }

  lemma OtherSymbols(v: nat)
    requires v < 12
    ensures OTHERS[v] as int == if v < 10 then 48 + v else if v == 10 then 43 else 47
  {
  }

  lemma Sizes()
    ensures |CAPITALS| == |LETTERS| == 26 && |OTHERS| == 12
  {
  }

  lemma SymbolIs(v: Sextet)
    ensures |ALPHABET| == 64 && Symbol(v) as int == ALPHABET[v] as int
  {
    hide CAPITALS, LETTERS, OTHERS;
    Sizes();
    if v < 52 { Letters(v % 26); } else { OtherSymbols(v - 52); }
  }

  /** `text[i..]` spells this number of 24 bits, six to a symbol and the highest first. */
  ghost predicate SpellsAt(text: seq<byte>, i: nat, number: nat) {
    i + 4 <= |text| && exists u: Sextet, v: Sextet, w: Sextet, x: Sextet ::
      Four(text, i, u, v, w, x) && number == u * 262144 + v * 4096 + w * 64 + x
  }

  predicate Four(text: seq<byte>, i: nat, u: Sextet, v: Sextet, w: Sextet, x: Sextet)
    requires i + 4 <= |text|
  {
    && text[i] as int == ALPHABET[u] as int && text[i + 1] as int == ALPHABET[v] as int
    && text[i + 2] as int == ALPHABET[w] as int && text[i + 3] as int == ALPHABET[x] as int
  }

  lemma SextetsOf(a: byte, b: byte, c: byte)
    ensures First(a) * 262144 + Second(a, b) * 4096 + Third(b, c) * 64 + Fourth(c)
         == a as nat * 65536 + b as nat * 256 + c as nat
  {
  }

  lemma GroupSpells(a: byte, b: byte, c: byte)
    ensures SpellsAt(Group3(a, b, c), 0, a as nat * 65536 + b as nat * 256 + c as nat)
  {
    hide Symbol, First, Second, Third, Fourth;
    SymbolIs(First(a));
    SymbolIs(Second(a, b));
    SymbolIs(Third(b, c));
    SymbolIs(Fourth(c));
    SextetsOf(a, b, c);
    assert Four(Group3(a, b, c), 0, First(a), Second(a, b), Third(b, c), Fourth(c));
  }

  lemma SpellsInside(before: seq<byte>, text: seq<byte>, after: seq<byte>, number: nat)
    requires |text| == 4 && SpellsAt(text, 0, number)
    ensures SpellsAt(before + text + after, |before|, number)
  {
    hide ALPHABET;
    var u: Sextet, v: Sextet, w: Sextet, x: Sextet :|
      Four(text, 0, u, v, w, x) && number == u * 262144 + v * 4096 + w * 64 + x;
    var whole := before + text + after;
    assert forall k | 0 <= k < 4 :: whole[|before| + k] == text[k];
    assert Four(whole, |before|, u, v, w, x);
  }

  lemma {:induction false} EncodedLength(data: seq<byte>)
    ensures |Encode(data)| == (|data| + 2) / 3 * 4
    decreases |data|
  {
    if |data| > 2 { EncodedLength(data[3..]); }
  }

  lemma EncodeFirst(data: seq<byte>)
    requires |data| >= 3
    ensures Encode(data) == Group3(data[0], data[1], data[2]) + Encode(data[3..])
  {
  }

  /** What whole groups before it leave a group of the text. */
  lemma AfterGroups(data: seq<byte>, n: nat)
    requires 3 * n <= |data|
    ensures Encode(data) == Encode(data[..3 * n]) + Encode(data[3 * n..]) && |Encode(data[..3 * n])| == 4 * n
  {
    hide Encode;
    assert data == data[..3 * n] + data[3 * n..];
    assert |data[..3 * n]| % 3 == 0;
    EncodeSplits(data[..3 * n], data[3 * n..]);
    EncodedLength(data[..3 * n]);
  }

  /** Every three bytes are spelled by the four symbols of their 24 bits. */
  lemma ThreeBytesSpelled(data: seq<byte>, i: nat)
    requires 3 * i + 3 <= |data|
    ensures SpellsAt(Encode(data), 4 * i,
                     data[3 * i] as nat * 65536 + data[3 * i + 1] as nat * 256 + data[3 * i + 2] as nat)
  {
    hide *;
    AfterGroups(data, i);
    var before, rest := Encode(data[..3 * i]), data[3 * i..];
    EncodeFirst(rest);
    GroupSpells(rest[0], rest[1], rest[2]);
    GroupIsFour(rest[0], rest[1], rest[2]);
    var group, after := Group3(rest[0], rest[1], rest[2]), Encode(rest[3..]);
    SpellsInside(before, group, after, rest[0] as nat * 65536 + rest[1] as nat * 256 + rest[2] as nat);
    Regroup(before, group, after);
  }

  lemma GroupIsFour(a: byte, b: byte, c: byte)
    ensures |Group3(a, b, c)| == 4
  {
  }

  /** One or two bytes left over are spelled as if zeros followed, with padding in place of the
      symbols that spell nothing else. */
  lemma RestSpelled(data: seq<byte>)
    requires |data| % 3 != 0
    ensures |Encode(data)| == |data| / 3 * 4 + 4
    ensures var rest := data[|data| / 3 * 3..];
      Encode(data)[|data| / 3 * 4..] == if |rest| == 1 then Group3(rest[0], 0, 0)[..2] + [PAD, PAD]
                               else Group3(rest[0], rest[1], 0)[..3] + [PAD]
    ensures PAD as int == '=' as int
  {
    hide Symbol, First, Second, Third, Fourth, Encode;
    var n := |data| / 3;
    EncodedLength(data);
    AfterGroups(data, n);
    EncodeRest(data[3 * n..]);
    assert (Encode(data[..3 * n]) + Encode(data[3 * n..]))[4 * n..] == Encode(data[3 * n..]);
  }

  lemma EncodeRest(rest: seq<byte>)
    requires 1 <= |rest| <= 2
    ensures Encode(rest) == if |rest| == 1 then Group1(rest[0]) else Group2(rest[0], rest[1])
  {
  }
}
