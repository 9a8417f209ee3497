/** The table-driven CRC-32 of packages/test-sentry/src/sourcemaps.ts. JavaScript's 32-bit
    integers are `bv32`; the `>>> 0` conversions only choose the unsigned reading. */
module Crc32 {
  import opened Wrappers

  const POLYNOMIAL: bv32 := 0xedb88320
  const ALL_ONES: bv32 := 0xffffffff

  // JavaScript's operators on 32-bit words.
  function Xor(x: bv32, y: bv32): bv32 { x ^ y }
  function Half(x: bv32): bv32 { x >> 1 }
  predicate Odd(x: bv32) { x & 1 == 1 }

  // ----- reference definition, one message bit at a time ---------------------

  /** Feeds one message bit into the shift register. */
  function BitStep(s: bv32, bit: bool): bv32 {
    if Odd(s) != bit then Xor(POLYNOMIAL, Half(s)) else Half(s)
  }

  /** Feeds the `n` low bits of `w`, least significant first. */
  function AbsorbBits(s: bv32, w: bv32, n: nat): bv32
    decreases n, s
  {
    if n == 0 then s else AbsorbBits(BitStep(s, Odd(w)), Half(w), n - 1)
  }

  function Join(high: bv32, low: bool): bv32 { (high << 1) | (if low then 1 else 0) }

  /** The word whose value is `n`, from its `bits` binary digits. */
  function ToWord(n: nat, bits: nat): bv32
    decreases bits, n
  {
    if bits == 0 then 0 else Join(ToWord(n / 2, bits - 1), n % 2 == 1)
  }

  /** The value of the `bits` lowest binary digits of a word. */
  function ToNat(w: bv32, bits: nat): nat
    decreases bits, w
  {
    if bits == 0 then 0 else 2 * ToNat(Half(w), bits - 1) + if Odd(w) then 1 else 0
  }

  /** A byte as a 32-bit word. */
  function Octet(b: byte): bv32 {
    ToWord(b as nat, 8)
  }

  function BitSerial(s: bv32, data: seq<byte>): bv32
    decreases |data|
  {
    if data == [] then s else BitSerial(AbsorbBits(s, Octet(data[0]), 8), data[1..])
  }

  /** CRC-32 of `data`, by its bit-serial definition. */
  function Checksum(data: seq<byte>): bv32 {
    Xor(BitSerial(ALL_ONES, data), ALL_ONES)
  }

  // ----- the byte-wise form ---------------------------------------------------

  function Shift(c: bv32): bv32 {
    if Odd(c) then Xor(POLYNOMIAL, Half(c)) else Half(c)
  }

  function ShiftBy(c: bv32, n: nat): bv32
    decreases n, c
  {
    if n == 0 then c else ShiftBy(Shift(c), n - 1)
  }

  /** What is left of `w` after its `n` low bits. */
  function Drop(w: bv32, n: nat): bv32
    decreases n
  {
    if n == 0 then w else Drop(Half(w), n - 1)
  }

  /** The `n` low bits of `w` are zero. */
  predicate LowClear(w: bv32, n: nat)
    decreases n, w
  {
    n == 0 || (!Odd(w) && LowClear(Half(w), n - 1))
  }

  lemma StepAbsorbs(s: bv32, w: bv32)
    ensures Shift(Xor(s, w)) == Xor(BitStep(s, Odd(w)), Half(w))
  {
    assert (s ^ w) >> 1 == (s >> 1) ^ (w >> 1);
    assert (s ^ w) & 1 == (s & 1) ^ (w & 1);
    LowBit(s);
    LowBit(w);
    XorAssociates(POLYNOMIAL, s >> 1, w >> 1);
  }

  lemma LowBit(x: bv32)
    ensures x & 1 == 0 || x & 1 == 1
  {
  }

  lemma XorAssociates(x: bv32, y: bv32, z: bv32)
    ensures x ^ (y ^ z) == (x ^ y) ^ z
  {
  }

  lemma XorZero(x: bv32)
    ensures Xor(x, 0) == x
  {
  }

  /** Feeding bits one by one is shifting after mixing them in at once. */
  lemma {:induction false} AbsorbIsShift(s: bv32, w: bv32, n: nat)
    ensures ShiftBy(Xor(s, w), n) == Xor(AbsorbBits(s, w, n), Drop(w, n))
    decreases n
  {
    if n != 0 {
      StepAbsorbs(s, w);
      AbsorbIsShift(BitStep(s, Odd(w)), Half(w), n - 1);
    }
  }

  /** Feeding zero bits is shifting. */
  lemma {:induction false} AbsorbZeros(s: bv32, w: bv32, n: nat)
    requires LowClear(w, n)
    ensures AbsorbBits(s, w, n) == ShiftBy(s, n)
    decreases n
  {
    if n != 0 {
      assert BitStep(s, Odd(w)) == Shift(s);
      AbsorbZeros(Shift(s), Half(w), n - 1);
    }
  }

  function LowByte(c: bv32): bv32 { c & 0xff }
  function Without(c: bv32): bv32 { c >> 8 }
  function HighPart(c: bv32): bv32 { c & 0xffffff00 }

  lemma EightHalves(w: bv32)
    ensures Half(Half(Half(Half(Half(Half(Half(Half(w)))))))) == Without(w)
  {
  }

  lemma DropOctet(w: bv32)
    ensures Drop(w, 8) == Without(w)
  {
    EightHalves(w);
  }

  function Meet(x: bv32, y: bv32): bv32 { x & y }
  function Longer(m: bv32): bv32 { (m << 1) | 1 }

  /** The `n` lowest bits. */
  function LowMask(n: nat): bv32
    decreases n
  {
    if n == 0 then 0 else Longer(LowMask(n - 1))
  }

  lemma OctetMask()
    ensures LowMask(8) == 0xff
  {
    assert LowMask(2) == 0x3;
    assert LowMask(4) == 0xf;
    assert LowMask(6) == 0x3f;
  }

  predicate Small(m: bv32) { m <= 0x7fffffff }

  predicate AtMost(w: bv32, m: bv32) { w <= m }

  lemma JoinAtMost(w: bv32, b: bool, m: bv32)
    requires AtMost(w, m) && AtMost(m, 0xff)
    ensures AtMost(Join(w, b), Longer(m))
  {
  }

  lemma JoinParts(w: bv32, b: bool)
    requires Small(w)
    ensures Half(Join(w, b)) == w && Odd(Join(w, b)) == b
  {
  }

  lemma JoinHalves(w: bv32)
    ensures Join(Half(w), Odd(w)) == w
  {
  }

  lemma HalfAtMost(w: bv32, m: bv32)
    requires AtMost(w, Longer(m)) && Small(m)
    ensures AtMost(Half(w), m)
  {
  }

  lemma MaskSmall(n: nat)
    requires n <= 8
    ensures AtMost(LowMask(n), 0xff) && Small(LowMask(n))
  {
    assert LowMask(0) == 0x0;
    assert LowMask(1) == 0x1;
    assert LowMask(2) == 0x3;
    assert LowMask(3) == 0x7;
    assert LowMask(4) == 0xf;
    assert LowMask(5) == 0x1f;
    assert LowMask(6) == 0x3f;
    assert LowMask(7) == 0x7f;
    assert LowMask(8) == 0xff;
  }

  lemma {:induction false} WordAtMost(n: nat, bits: nat)
    requires bits <= 8
    ensures AtMost(ToWord(n, bits), LowMask(bits))
    decreases bits
  {
    if bits != 0 {
      WordAtMost(n / 2, bits - 1);
      MaskSmall(bits - 1);
      JoinAtMost(ToWord(n / 2, bits - 1), n % 2 == 1, LowMask(bits - 1));
    }
  }

  lemma OctetBound(b: byte)
    ensures Octet(b) <= 0xff && Without(Octet(b)) == 0
  {
    WordAtMost(b as nat, 8);
    OctetMask();
  }

  lemma ByteStep(s: bv32, b: byte)
    ensures AbsorbBits(s, Octet(b), 8) == ShiftBy(Xor(s, Octet(b)), 8)
  {
    OctetBound(b);
    DropOctet(Octet(b));
    AbsorbIsShift(s, Octet(b), 8);
    XorZero(AbsorbBits(s, Octet(b), 8));
  }

  /** The register after `data`, byte by byte. */
  function Update(s: bv32, data: seq<byte>): bv32
    decreases |data|
  {
    if data == [] then s else Update(ShiftBy(Xor(s, Octet(data[0])), 8), data[1..])
  }

  lemma {:induction false} UpdateIsBitSerial(s: bv32, data: seq<byte>)
    ensures Update(s, data) == BitSerial(s, data)
    decreases |data|
  {
    if data != [] {
      ByteStep(s, data[0]);
      UpdateIsBitSerial(AbsorbBits(s, Octet(data[0]), 8), data[1..]);
    }
  }

  lemma {:induction false} UpdateAppend(s: bv32, front: seq<byte>, back: seq<byte>)
    ensures Update(s, front + back) == Update(Update(s, front), back)
    decreases |front|
  {
    if front == [] {
      assert front + back == back;
    } else {
      assert (front + back)[1..] == front[1..] + back;
      UpdateAppend(ShiftBy(Xor(s, Octet(front[0])), 8), front[1..], back);
    }
  }

  // ----- the table -----------------------------------------------------------

  /** Splitting a register into its low byte and the rest. */
  lemma LowByteSplit(c: bv32)
    ensures Xor(LowByte(c), HighPart(c)) == c
    ensures LowByte(c) <= 0xff
  {
  }

  lemma MaskHalves(w: bv32, m: bv32)
    requires Meet(w, Longer(m)) == 0
    ensures !Odd(w) && Meet(Half(w), m) == 0
  {
    assert w & 1 == 0;
  }

  lemma {:induction false} MaskedIsClear(w: bv32, n: nat)
    requires Meet(w, LowMask(n)) == 0
    ensures LowClear(w, n)
    decreases n
  {
    if n != 0 {
      MaskHalves(w, LowMask(n - 1));
      MaskedIsClear(Half(w), n - 1);
    }
  }

  lemma HighMasked(c: bv32)
    ensures Meet(HighPart(c), 0xff) == 0
    ensures Without(HighPart(c)) == Without(c)
  {
  }

  lemma HighClear(c: bv32)
    ensures LowClear(HighPart(c), 8)
    ensures Drop(HighPart(c), 8) == Without(c)
  {
    HighMasked(c);
    OctetMask();
    MaskedIsClear(HighPart(c), 8);
    DropOctet(HighPart(c));
  }

  /** One table look-up replaces eight shifts. */
  lemma TableStep(c: bv32)
    ensures ShiftBy(c, 8) == Xor(ShiftBy(LowByte(c), 8), Without(c))
  {
    LowByteSplit(c);
    HighClear(c);
    AbsorbIsShift(LowByte(c), HighPart(c), 8);
    AbsorbZeros(LowByte(c), HighPart(c), 8);
  }

  /** One octet, shifted out of the register. */
  function Entry(b: byte): bv32 {
    ShiftBy(Octet(b), 8)
  }

  /** The entries of the first `n` octets. */
  ghost function Entries(n: nat): (entries: seq<bv32>)
    requires n <= 256
    ensures |entries| == n
  {
    if n == 0 then [] else Entries(n - 1) + [Entry((n - 1) as byte)]
  }

  /** What the look-up table holds. */
  ghost predicate IsTable(table: seq<bv32>) {
    |table| == 256 && table == Entries(|table|)
  }

  lemma {:induction false} EntryAt(n: nat, k: nat)
    requires k < n <= 256
    ensures Entries(n)[k] == Entry(k as byte)
    decreases n
  {
    if k < n - 1 { EntryAt(n - 1, k); }
  }

  /** The table index of a register: the value of its low byte. */
  function Index(c: bv32): (i: nat)
    ensures i < 256
  {
    ToNatBound(c, 8);
    assert Pow2(8) == 256;
    ToNat(c, 8)
  }

  function Pow2(n: nat): nat {
    if n == 0 then 1 else 2 * Pow2(n - 1)
  }

  lemma {:induction false} ToNatBound(w: bv32, bits: nat)
    ensures ToNat(w, bits) < Pow2(bits)
    decreases bits
  {
    if bits != 0 { ToNatBound(Half(w), bits - 1); }
  }

  lemma {:induction false} WordOfNat(w: bv32, bits: nat)
    requires bits <= 8 && AtMost(w, LowMask(bits))
    ensures ToWord(ToNat(w, bits), bits) == w
    decreases bits
  {
    if bits != 0 {
      MaskSmall(bits - 1);
      HalfAtMost(w, LowMask(bits - 1));
      WordOfNat(Half(w), bits - 1);
      JoinHalves(w);
      AppendDigit(ToNat(Half(w), bits - 1), Odd(w), bits);
    }
  }

  lemma AppendDigit(n: nat, digit: bool, bits: nat)
    requires bits != 0
    ensures ToWord(2 * n + if digit then 1 else 0, bits) == Join(ToWord(n, bits - 1), digit)
  {
    assert (2 * n) / 2 == n && (2 * n + 1) / 2 == n;
  }

  lemma {:induction false} NatOfWord(n: nat, bits: nat)
    requires bits <= 8 && n < Pow2(bits)
    ensures ToNat(ToWord(n, bits), bits) == n
    decreases bits
  {
    if bits != 0 {
      NatOfWord(n / 2, bits - 1);
      WordAtMost(n / 2, bits - 1);
      MaskSmall(bits - 1);
      SmallBelow(ToWord(n / 2, bits - 1), LowMask(bits - 1));
      JoinParts(ToWord(n / 2, bits - 1), n % 2 == 1);
    }
  }

  lemma SmallBelow(w: bv32, m: bv32)
    requires AtMost(w, m) && Small(m)
    ensures Small(w)
  {
  }

  /** Only the low byte counts. */
  lemma {:induction false} ToNatLow(c: bv32, m: bv32, bits: nat)
    requires m == LowMask(bits)
    ensures ToNat(c, bits) == ToNat(Meet(c, m), bits)
    decreases bits
  {
    if bits != 0 {
      MeetHalves(c, LowMask(bits - 1));
      ToNatLow(Half(c), LowMask(bits - 1), bits - 1);
    }
  }

  lemma MeetHalves(c: bv32, m: bv32)
    ensures Odd(Meet(c, Longer(m))) == Odd(c)
    ensures Half(Meet(c, Longer(m))) == Meet(Half(c), Half(Longer(m)))
  {
  }

  lemma IndexRoundTrip(c: bv32)
    ensures Octet(Index(c) as byte) == LowByte(c)
  {
    OctetMask();
    ToNatLow(c, 0xff, 8);
    WordOfNat(LowByte(c), 8);
  }

  lemma {:induction false} ShiftBySnoc(c: bv32, n: nat)
    ensures ShiftBy(c, n + 1) == Shift(ShiftBy(c, n))
    decreases n
  {
    if n != 0 { ShiftBySnoc(Shift(c), n - 1); }
  }

  /** One entry of the table: the inner loop over its eight bits. */
  method TableEntry(i: byte) returns (c: bv32)
    ensures c == Entry(i)
  {
    c := Octet(i);
    for j := 0 to 8
      invariant c == ShiftBy(Octet(i), j)
    {
      ShiftBySnoc(Octet(i), j);
      c := if Odd(c) then Xor(0xedb88320, Half(c)) else Half(c);
    }
  }

  method MakeCrc32Table() returns (table: array<bv32>)
    ensures fresh(table) && IsTable(table[..])
  {
    table := new bv32[256];
    for i := 0 to 256
      invariant table.Length == 256
      invariant table[..i] == Entries(i)
    {
      table[i] := TableEntry(i as byte);
      assert table[..i + 1] == table[..i] + [table[i]];
    }
    assert table[..] == table[..256];
  }

  lemma XorHigh(x: bv32, y: bv32)
    requires y <= 0xff
    ensures Without(Xor(x, y)) == Without(x)
  {
  }

  lemma LookUp(table: seq<bv32>, crc: bv32, octet: bv32)
    requires IsTable(table) && octet <= 0xff
    ensures Index(Xor(crc, octet)) < 256
    ensures Xor(table[Index(Xor(crc, octet))], Without(crc)) == ShiftBy(Xor(crc, octet), 8)
  {
    var c := Xor(crc, octet);
    TableStep(c);
    LowByteSplit(c);
    IndexRoundTrip(c);
    EntryAt(|table|, Index(c));
    XorHigh(crc, octet);
  }

  lemma UpdateOne(s: bv32, b: byte)
    ensures Update(s, [b]) == ShiftBy(Xor(s, Octet(b)), 8)
  {
    assert [b][1..] == [];
  }

  lemma UpdateSnoc(s: bv32, data: seq<byte>, i: nat)
    requires i < |data|
    ensures Update(s, data[..i + 1]) == Update(Update(s, data[..i]), [data[i]])
  {
    UpdateAppend(s, data[..i], [data[i]]);
    assert data[..i + 1] == data[..i] + [data[i]];
  }

  lemma CrcStep(table: seq<bv32>, crc: bv32, data: seq<byte>, i: nat)
    requires IsTable(table) && i < |data| && crc == Update(ALL_ONES, data[..i])
    ensures Index(Xor(crc, Octet(data[i]))) < 256
    ensures Xor(table[Index(Xor(crc, Octet(data[i])))], Without(crc)) == Update(ALL_ONES, data[..i + 1])
  {
    OctetBound(data[i]);
    LookUp(table, crc, Octet(data[i]));
    UpdateSnoc(ALL_ONES, data, i);
    UpdateOne(crc, data[i]);
  }

  /** The table-driven loop computes the bit-serial CRC-32 of every byte sequence. */
  method Crc32(data: seq<byte>) returns (checksum: bv32)
    ensures checksum == Checksum(data)
  {
    var table := MakeCrc32Table();
    var crc: bv32 := 0xffffffff;
    for i := 0 to |data|
      invariant IsTable(table[..])
      invariant crc == Update(ALL_ONES, data[..i])
    {
      CrcStep(table[..], crc, data, i);
      crc := Xor(table[Index(Xor(crc, Octet(data[i])))], Without(crc));
    }
    assert data[..|data|] == data;
    UpdateIsBitSerial(ALL_ONES, data);
    checksum := Xor(crc, 0xffffffff);
  }

  // ----- error detection --------------------------------------------------------

  lemma ShiftInjective(x: bv32, y: bv32)
    requires Shift(x) == Shift(y)
    ensures x == y
  {
  }

  lemma {:induction false} ShiftByInjective(x: bv32, y: bv32, n: nat)
    requires ShiftBy(x, n) == ShiftBy(y, n)
    ensures x == y
    decreases n
  {
    if n != 0 {
      ShiftByInjective(Shift(x), Shift(y), n - 1);
      ShiftInjective(x, y);
    }
  }

  function Raise(high: bv32): bv32 { high << 8 }
  function Above(low: bv32, high: bv32): bv32 { low | (high << 8) }

  /** Up to four bytes as one little-endian word. */
  function WordOf(w: seq<byte>): bv32 {
    if w == [] then 0 else Above(Octet(w[0]), WordOf(w[1..]))
  }

  function Limit(n: nat): bv32
    requires n <= 4
  {
    if n == 0 then 0 else if n == 1 then 0xff else if n == 2 then 0xffff else if n == 3 then 0xffffff else 0xffffffff
  }

  lemma AboveLow(low: bv32, high: bv32)
    requires low <= 0xff
    ensures LowByte(Above(low, high)) == low
  {
  }

  lemma AboveMixes(low: bv32, high: bv32)
    requires low <= 0xff
    ensures Above(low, high) == Xor(low, Raise(high))
  {
  }

  lemma MixAssociates(x: bv32, y: bv32, z: bv32)
    ensures Xor(x, Xor(y, z)) == Xor(Xor(x, y), z)
  {
  }

  lemma AboveHigh(low: bv32, high: bv32)
    requires low <= 0xff && high <= 0xffffff
    ensures Without(Above(low, high)) == high
  {
  }

  lemma AboveBound(low: bv32, high: bv32)
    requires low <= 0xff
    ensures high <= 0xffff ==> Above(low, high) <= 0xffffff
    ensures high <= 0xff ==> Above(low, high) <= 0xffff
    ensures high == 0 ==> Above(low, high) <= 0xff
  {
  }

  lemma {:induction false} WordBound(w: seq<byte>)
    requires |w| <= 4
    ensures WordOf(w) <= Limit(|w|)
    decreases |w|
  {
    if w == [] {
    } else if |w| == 4 {
    } else {
      WordBound(w[1..]);
      OctetBound(w[0]);
      AboveBound(Octet(w[0]), WordOf(w[1..]));
    }
  }

  lemma OctetInjective(b: byte, c: byte)
    requires Octet(b) == Octet(c)
    ensures b == c
  {
    assert Pow2(8) == 256;
    NatOfWord(b as nat, 8);
    NatOfWord(c as nat, 8);
  }

  lemma WordParts(w: seq<byte>)
    requires 1 <= |w| <= 4
    ensures LowByte(WordOf(w)) == Octet(w[0]) && Without(WordOf(w)) == WordOf(w[1..])
  {
    WordBound(w[1..]);
    OctetBound(w[0]);
    AboveLow(Octet(w[0]), WordOf(w[1..]));
    AboveHigh(Octet(w[0]), WordOf(w[1..]));
  }

  lemma {:induction false} WordInjective(v: seq<byte>, w: seq<byte>)
    requires |v| == |w| <= 4 && WordOf(v) == WordOf(w)
    ensures v == w
    decreases |v|
  {
    if v != [] {
      WordParts(v);
      WordParts(w);
      OctetInjective(v[0], w[0]);
      WordInjective(v[1..], w[1..]);
      assert v == [v[0]] + v[1..] && w == [w[0]] + w[1..];
    }
  }

  lemma RaisedClear(high: bv32)
    requires high <= 0xffffff
    ensures Meet(Raise(high), 0xff) == 0 && Without(Raise(high)) == high
  {
  }

  /** High bits pass through eight shifts untouched. */
  lemma ShiftRaised(s: bv32, high: bv32)
    requires high <= 0xffffff
    ensures ShiftBy(Xor(s, Raise(high)), 8) == Xor(ShiftBy(s, 8), high)
  {
    RaisedClear(high);
    OctetMask();
    MaskedIsClear(Raise(high), 8);
    AbsorbIsShift(s, Raise(high), 8);
    AbsorbZeros(s, Raise(high), 8);
    DropOctet(Raise(high));
  }

  lemma MixAbove(s: bv32, low: bv32, high: bv32)
    requires low <= 0xff
    ensures Xor(s, Above(low, high)) == Xor(Xor(s, low), Raise(high))
  {
    AboveMixes(low, high);
    MixAssociates(s, low, Raise(high));
  }

  lemma ShiftOctetIn(s: bv32, low: bv32, high: bv32)
    requires low <= 0xff && high <= 0xffffff
    ensures ShiftBy(Xor(s, Above(low, high)), 8) == Xor(ShiftBy(Xor(s, low), 8), high)
  {
    MixAbove(s, low, high);
    ShiftRaised(Xor(s, low), high);
  }

  lemma {:induction false} ShiftByAdds(c: bv32, m: nat, n: nat)
    ensures ShiftBy(c, m + n) == ShiftBy(ShiftBy(c, m), n)
    decreases m
  {
    if m != 0 { ShiftByAdds(Shift(c), m - 1, n); }
  }

  lemma FirstOctet(s: bv32, w: seq<byte>)
    requires 1 <= |w| <= 4
    ensures ShiftBy(Xor(s, WordOf(w)), 8) == Xor(ShiftBy(Xor(s, Octet(w[0])), 8), WordOf(w[1..]))
  {
    var low, high := Octet(w[0]), WordOf(w[1..]);
    OctetBound(w[0]);
    WordBound(w[1..]);
    assert WordOf(w) == Above(low, high);
    ShiftOctetIn(s, low, high);
  }

  /** Up to four bytes enter the register as one word. */
  lemma {:induction false} UpdateByWord(s: bv32, w: seq<byte>)
    requires |w| <= 4
    ensures Update(s, w) == ShiftBy(Xor(s, WordOf(w)), 8 * |w|)
    decreases |w|
  {
    if w == [] {
      XorZero(s);
    } else {
      FirstOctet(s, w);
      UpdateByWord(ShiftBy(Xor(s, Octet(w[0])), 8), w[1..]);
      ShiftByAdds(Xor(s, WordOf(w)), 8, 8 * |w[1..]|);
    }
  }

  lemma XorCancels(s: bv32, x: bv32, y: bv32)
    requires Xor(s, x) == Xor(s, y)
    ensures x == y
  {
  }

  lemma {:induction false} UpdateInjective(s: bv32, t: bv32, data: seq<byte>)
    requires Update(s, data) == Update(t, data)
    ensures s == t
    decreases |data|
  {
    if data != [] {
      var o := Octet(data[0]);
      UpdateInjective(ShiftBy(Xor(s, o), 8), ShiftBy(Xor(t, o), 8), data[1..]);
      ShiftByInjective(Xor(s, o), Xor(t, o), 8);
      XorCommutes(s, o);
      XorCommutes(t, o);
      XorCancels(o, s, t);
    }
  }

  lemma XorCommutes(x: bv32, y: bv32)
    ensures Xor(x, y) == Xor(y, x)
  {
  }

  lemma WindowDetected(front: seq<byte>, v: seq<byte>, w: seq<byte>, back: seq<byte>)
    requires |v| == |w| <= 4 && Checksum(front + v + back) == Checksum(front + w + back)
    ensures v == w
  {
    var s := Update(ALL_ONES, front);
    forall x | x == v || x == w ensures BitSerial(ALL_ONES, front + x + back) == Update(Update(s, x), back) {
      UpdateIsBitSerial(ALL_ONES, front + x + back);
      UpdateAppend(ALL_ONES, front + x, back);
      UpdateAppend(ALL_ONES, front, x);
    }
    XorCommutes(BitSerial(ALL_ONES, front + v + back), ALL_ONES);
    XorCommutes(BitSerial(ALL_ONES, front + w + back), ALL_ONES);
    XorCancels(ALL_ONES, BitSerial(ALL_ONES, front + v + back), BitSerial(ALL_ONES, front + w + back));
    UpdateInjective(Update(s, v), Update(s, w), back);
    UpdateByWord(s, v);
    UpdateByWord(s, w);
    ShiftByInjective(Xor(s, WordOf(v)), Xor(s, WordOf(w)), 8 * |v|);
    XorCancels(s, WordOf(v), WordOf(w));
    WordInjective(v, w);
  }

  lemma InPieces(a: seq<byte>, from: nat, to: nat)
    requires from <= to <= |a|
    ensures a == a[..from] + a[from..to] + a[to..]
  {
  }

  /** Two inputs of equal length that differ, but only within four consecutive bytes, always
      get different checksums. */
  lemma BurstDetected(a: seq<byte>, b: seq<byte>, at: nat)
    requires |a| == |b| && a != b
    requires forall i | 0 <= i < |a| && !(at <= i < at + 4) :: a[i] == b[i]
    ensures Checksum(a) != Checksum(b)
  {
    var from := if at <= |a| then at else |a|;
    var to := if at + 4 <= |a| then at + 4 else |a|;
    assert a[..from] == b[..from] && a[to..] == b[to..];
    InPieces(a, from, to);
    InPieces(b, from, to);
    if Checksum(a) == Checksum(b) {
      WindowDetected(a[..from], a[from..to], b[from..to], a[to..]);
    }
  }
}
