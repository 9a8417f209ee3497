/** What the CRC-32 of packages/test-sentry/src/sourcemaps.ts detects, bit by bit. */
module CrcBursts {
  import opened Wrappers
  import opened Crc32

  // ----- data as bits ------------------------------------------------------------------

  /** The `k` low bits of `n`, least significant first. */
  function LowBits(n: nat, k: nat): (bits: seq<bool>)
    ensures |bits| == k
    decreases k, n
  {
    if k == 0 then [] else [n % 2 == 1] + LowBits(n / 2, k - 1)
  }

  /** The bits of `data` in the order in which the register takes them. */
  function Bits(data: seq<byte>): (bits: seq<bool>)
    ensures |bits| == 8 * |data|
    decreases |data|
  {
    if data == [] then [] else LowBits(data[0] as nat, 8) + Bits(data[1..])
  }

  function BitRun(s: bv32, bits: seq<bool>): bv32
    decreases |bits|
  {
    if bits == [] then s else BitRun(BitStep(s, bits[0]), bits[1..])
  }

  lemma {:induction false} RunAppend(s: bv32, a: seq<bool>, b: seq<bool>)
    ensures BitRun(s, a + b) == BitRun(BitRun(s, a), b)
    decreases |a|
  {
    if a == [] {
      assert a + b == b;
    } else {
      assert (a + b)[1..] == a[1..] + b;
      RunAppend(BitStep(s, a[0]), a[1..], b);
    }
  }

  lemma {:induction false} AbsorbIsRun(s: bv32, n: nat, k: nat)
    requires k <= 8
    ensures AbsorbBits(s, ToWord(n, k), k) == BitRun(s, LowBits(n, k))
    decreases k
  {
    hide BitStep, Join;
    if k > 0 {
      WordAtMost(n / 2, k - 1);
      MaskSmall(k - 1);
      SmallWord(ToWord(n / 2, k - 1), LowMask(k - 1));
      JoinParts(ToWord(n / 2, k - 1), n % 2 == 1);
      AbsorbIsRun(BitStep(s, n % 2 == 1), n / 2, k - 1);
      assert LowBits(n, k)[1..] == LowBits(n / 2, k - 1);
    }
  }

  lemma SmallWord(w: bv32, m: bv32)
    requires AtMost(w, m) && Small(m)
    ensures Small(w)
  {
  }

  lemma {:induction false} SerialIsRun(s: bv32, data: seq<byte>)
    ensures BitSerial(s, data) == BitRun(s, Bits(data))
    decreases |data|
  {
    hide BitStep;
    if data != [] {
      AbsorbIsRun(s, data[0] as nat, 8);
      SerialIsRun(AbsorbBits(s, Octet(data[0]), 8), data[1..]);
      RunAppend(s, LowBits(data[0] as nat, 8), Bits(data[1..]));
    }
  }

  lemma {:induction false} LowBitsInjective(m: nat, n: nat, k: nat)
    requires LowBits(m, k) == LowBits(n, k) && m < Pow2(k) && n < Pow2(k)
    ensures m == n
    decreases k
  {
    if k > 0 {
      assert LowBits(m, k)[0] == (m % 2 == 1) && LowBits(n, k)[0] == (n % 2 == 1);
      assert LowBits(m, k)[1..] == LowBits(m / 2, k - 1) && LowBits(n, k)[1..] == LowBits(n / 2, k - 1);
      LowBitsInjective(m / 2, n / 2, k - 1);
    }
  }

  lemma {:induction false} BitsInjective(a: seq<byte>, b: seq<byte>)
    requires |a| == |b| && Bits(a) == Bits(b)
    ensures a == b
    decreases |a|
  {
    if a != [] {
      assert Bits(a)[..8] == LowBits(a[0] as nat, 8) && Bits(b)[..8] == LowBits(b[0] as nat, 8);
      assert Bits(a)[8..] == Bits(a[1..]) && Bits(b)[8..] == Bits(b[1..]);
      EightBits();
      LowBitsInjective(a[0] as nat, b[0] as nat, 8);
      BitsInjective(a[1..], b[1..]);
      assert a == [a[0]] + a[1..] && b == [b[0]] + b[1..];
    }
  }

  lemma EightBits()
    ensures Pow2(8) == 256
  {
    assert Pow2(4) == 16;
  }

  // ----- linearity ---------------------------------------------------------------------

  lemma HalfXor(s: bv32, t: bv32)
    ensures Half(Xor(s, t)) == Xor(Half(s), Half(t))
  {
  }

  lemma OddXor(s: bv32, t: bv32)
    ensures Odd(Xor(s, t)) <==> Odd(s) != Odd(t)
  {
    LowBit(s);
    LowBit(t);
    assert (s ^ t) & 1 == (s & 1) ^ (t & 1);
  }

  lemma XorRegroup(x: bv32, y: bv32, z: bv32)
    ensures Xor(Xor(x, y), z) == Xor(x, Xor(y, z))
  {
    XorAssociates(x, y, z);
  }

  lemma XorTwice(p: bv32, x: bv32)
    ensures Xor(Xor(p, x), p) == x
  {
  }

  lemma XorShuffle(p: bv32, x: bv32, y: bv32)
    ensures Xor(Xor(p, x), Xor(p, y)) == Xor(x, y)
    ensures Xor(Xor(p, x), y) == Xor(p, Xor(x, y))
    ensures Xor(x, Xor(p, y)) == Xor(p, Xor(x, y))
  {
    hide Xor;
    XorRegroup(p, x, y);
    XorRegroup(x, p, y);
    XorCommutes(x, p);
    XorRegroup(Xor(p, x), p, y);
    XorTwice(p, x);
  }

  lemma StepLinear(s: bv32, t: bv32, b: bool, c: bool)
    ensures Xor(BitStep(s, b), BitStep(t, c)) == BitStep(Xor(s, t), b != c)
  {
    hide Xor, Half, Odd;
    HalfXor(s, t);
    OddXor(s, t);
    XorShuffle(POLYNOMIAL, Half(s), Half(t));
  }

  /** Where two bit strings differ. */
  function Errors(v: seq<bool>, w: seq<bool>): (e: seq<bool>)
    requires |v| == |w|
    ensures |e| == |v|
  {
    seq(|v|, i requires 0 <= i < |v| => v[i] != w[i])
  }

  /** Two runs differ by a run over the difference. */
  lemma {:induction false} RunLinear(s: bv32, t: bv32, v: seq<bool>, w: seq<bool>)
    requires |v| == |w|
    ensures Xor(BitRun(s, v), BitRun(t, w)) == BitRun(Xor(s, t), Errors(v, w))
    decreases |v|
  {
    hide BitStep, Xor;
    if v != [] {
      StepLinear(s, t, v[0], w[0]);
      RunLinear(BitStep(s, v[0]), BitStep(t, w[0]), v[1..], w[1..]);
      assert Errors(v, w)[1..] == Errors(v[1..], w[1..]);
    }
  }

  lemma XorSame(x: bv32, y: bv32)
    ensures Xor(x, y) == 0 <==> x == y
  {
  }

  // ----- bursts ------------------------------------------------------------------------

  lemma {:induction false} QuietRun(x: bv32, e: seq<bool>)
    requires forall i | 0 <= i < |e| :: !e[i]
    ensures BitRun(x, e) == 0 <==> x == 0
    decreases |e|
  {
    if e != [] {
      assert BitStep(x, false) == Shift(x);
      QuietRun(BitStep(x, e[0]), e[1..]);
      if Shift(x) == Shift(0) { ShiftInjective(x, 0); }
    }
  }

  lemma {:induction false} DropZero(n: nat)
    ensures Drop(0, n) == 0
    decreases n
  {
    if n > 0 { DropZero(n - 1); }
  }

  lemma {:induction false} DropLess(w: bv32, m: nat, n: nat)
    requires Drop(w, n) != 0 && m <= n
    ensures Drop(w, m) != 0
    decreases m
  {
    if m > 0 {
      DropLess(Half(w), m - 1, n - 1);
    } else if w == 0 {
      DropZero(n);
    }
  }

  lemma {:induction false} DropAdds(w: bv32, m: nat, n: nat)
    ensures Drop(w, m + n) == Drop(Drop(w, m), n)
    decreases m
  {
    if m > 0 { DropAdds(Half(w), m - 1, n); }
  }

  /** A word whose top bit is set is not used up by 31 halvings. */
  lemma TopBitStays(w: bv32)
    requires w >= 0x80000000
    ensures Drop(w, 31) != 0
  {
    DropAdds(w, 8, 23);
    DropAdds(Drop(w, 8), 8, 15);
    DropAdds(Drop(Drop(w, 8), 8), 8, 7);
    DropOctet(w);
    DropOctet(w >> 8);
    DropOctet(w >> 16);
    DropSeven(w >> 24);
  }

  lemma DropSeven(w: bv32)
    requires w >= 0x80
    ensures Drop(w, 7) != 0
  {
    assert Drop(w, 7) == Drop(Half(w), 6) == Drop(Half(Half(w)), 5) == Drop(Half(Half(Half(w))), 4);
    var v := Half(Half(Half(w)));
    assert Drop(v, 4) == Drop(Half(v), 3) == Drop(Half(Half(v)), 2) == Half(Half(Half(Half(v))));
  }

  lemma PolynomialTops(x: bv32)
    ensures Xor(POLYNOMIAL, Half(x)) >= 0x80000000
  {
  }

  /** A difference that still has `n` bits to go is not cancelled by errors in the next `n` bits. */
  lemma {:induction false} BurstRun(x: bv32, e: seq<bool>, n: nat)
    requires n <= 31 && Drop(x, n) != 0
    requires forall i | n <= i < |e| :: !e[i]
    ensures BitRun(x, e) != 0
    decreases |e|
  {
    if e == [] || n == 0 {
      DropLess(x, 0, n);
      if n == 0 { QuietRun(x, e); }
    } else {
      if BitStep(x, e[0]) != Half(x) {
        PolynomialTops(x);
        TopBitStays(BitStep(x, e[0]));
        DropLess(BitStep(x, e[0]), n - 1, 31);
      }
      BurstRun(BitStep(x, e[0]), e[1..], n - 1);
    }
  }

  /** Errors confined to 32 consecutive bits leave a difference. */
  lemma {:induction false} ErrorsShow(e: seq<bool>, at: nat)
    requires exists i :: 0 <= i < |e| && e[i]
    requires forall i | 0 <= i < |e| && !(at <= i < at + 32) :: !e[i]
    ensures BitRun(0, e) != 0
    decreases |e|
  {
    var rest := e[1..];
    assert forall i | 0 <= i < |rest| :: rest[i] == e[i + 1];
    if e[0] {
      assert BitStep(0, true) == POLYNOMIAL;
      TopBitStays(POLYNOMIAL);
      BurstRun(POLYNOMIAL, rest, 31);
    } else {
      assert BitStep(0, false) == 0;
      var i :| 0 <= i < |e| && e[i];
      assert rest[i - 1];
      ErrorsShow(rest, if at == 0 then 0 else at - 1);
    }
  }

  /** The `n` low bits of a word, least significant first. */
  function WordBits(w: bv32, n: nat): (bits: seq<bool>)
    ensures |bits| == n
    decreases n, w
  {
    if n == 0 then [] else [Odd(w)] + WordBits(Half(w), n - 1)
  }

  lemma {:induction false} OwnBitsDrop(w: bv32, n: nat)
    ensures BitRun(w, WordBits(w, n)) == Drop(w, n)
    decreases n
  {
    if n > 0 {
      assert WordBits(w, n)[1..] == WordBits(Half(w), n - 1);
      OwnBitsDrop(Half(w), n - 1);
    }
  }

  /** Thirty-two is the limit: these errors in 33 consecutive bits leave no difference. */
  lemma LongerBurstMissed()
    ensures BitRun(0, [true] + WordBits(POLYNOMIAL, 32)) == 0
  {
    hide WordBits, BitRun;
    var own := WordBits(POLYNOMIAL, 32);
    OneBit();
    RunAppend(0, [true], own);
    OwnBitsDrop(POLYNOMIAL, 32);
    AllDropped(POLYNOMIAL);
  }

  lemma OneBit()
    ensures BitRun(0, [true]) == POLYNOMIAL
  {
    assert BitStep(0, true) == POLYNOMIAL;
    assert BitRun(BitStep(0, true), []) == BitStep(0, true);
  }

  lemma AllDropped(w: bv32)
    ensures Drop(w, 32) == 0
  {
    hide Drop;
    DropAdds(w, 8, 24);
    DropAdds(w >> 8, 8, 16);
    DropAdds(w >> 16, 8, 8);
    DropOctet(w);
    DropOctet(w >> 8);
    DropOctet(w >> 16);
    DropOctet(w >> 24);
  }

  /** Two inputs of equal length that differ, but only within 32 consecutive bits, wherever they
      begin, always get different checksums. */
  lemma BitBurstDetected(a: seq<byte>, b: seq<byte>, at: nat)
    requires |a| == |b| && a != b
    requires forall i | 0 <= i < 8 * |a| && !(at <= i < at + 32) :: Bits(a)[i] == Bits(b)[i]
    ensures Checksum(a) != Checksum(b)
  {
    hide Bits, BitRun, Xor;
    var e := Errors(Bits(a), Bits(b));
    if forall i | 0 <= i < |e| :: !e[i] {
      forall i | 0 <= i < |e| ensures Bits(a)[i] == Bits(b)[i] { assert !e[i]; }
      assert Bits(a) == Bits(b);
      BitsInjective(a, b);
    }
    ErrorsShow(e, at);
    SerialIsRun(ALL_ONES, a);
    SerialIsRun(ALL_ONES, b);
    RunLinear(ALL_ONES, ALL_ONES, Bits(a), Bits(b));
    XorSame(ALL_ONES, ALL_ONES);
    XorSame(BitSerial(ALL_ONES, a), BitSerial(ALL_ONES, b));
    if Checksum(a) == Checksum(b) {
      XorCommutes(BitSerial(ALL_ONES, a), ALL_ONES);
      XorCommutes(BitSerial(ALL_ONES, b), ALL_ONES);
      XorCancels(ALL_ONES, BitSerial(ALL_ONES, a), BitSerial(ALL_ONES, b));
    }
  }
}
