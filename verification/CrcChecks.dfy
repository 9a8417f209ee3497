/** Known values of the checksum (packages/test-sentry/src/sourcemaps.ts computes the usual CRC-32). */
module CrcChecks {
  import opened Wrappers
  import opened Crc32

  /** The text 123456789. */
  const DIGITS: seq<byte> := [49, 50, 51, 52, 53, 54, 55, 56, 57]

  lemma {:induction false} AbsorbSplit(s: bv32, w: bv32, m: nat, n: nat)
    ensures AbsorbBits(s, w, m + n) == AbsorbBits(AbsorbBits(s, w, m), Drop(w, m), n)
    decreases m
  {
    if m > 0 { AbsorbSplit(BitStep(s, Odd(w)), Half(w), m - 1, n); }
  }

  /** Feeding one digit: its low four bits lead from `s` to `half`, the rest from there to `t`. */
  predicate Leads(s: bv32, b: byte, w: bv32, half: bv32, t: bv32) {
    Octet(b) == w && Drop(w, 4) == 0x3 && AbsorbBits(s, w, 4) == half && AbsorbBits(half, 0x3, 4) == t
  }

  lemma DigitFed(s: bv32, k: nat, w: bv32, half: bv32, t: bv32)
    requires k < |DIGITS| && Leads(s, DIGITS[k], w, half, t)
    ensures BitSerial(s, DIGITS[k..]) == BitSerial(t, DIGITS[k + 1..])
  {
    hide Octet, AbsorbBits, Drop, DIGITS;
    AbsorbSplit(s, w, 4, 4);
    assert DIGITS[k..][0] == DIGITS[k] && DIGITS[k..][1..] == DIGITS[k + 1..];
  }

  lemma Digit1()
    ensures BitSerial(0xffffffff, DIGITS[0..]) == BitSerial(0x7c231048, DIGITS[1..])
  {
    hide BitSerial;
    assert Octet(49) == 0x31;
    assert AbsorbBits(0xffffffff, 0x31, 4) == 0xaff51d87;
    DigitFed(0xffffffff, 0, 0x31, 0xaff51d87, 0x7c231048);
  }

  lemma Digit2()
    ensures BitSerial(0x7c231048, DIGITS[1..]) == BitSerial(0xb0acbb32, DIGITS[2..])
  {
    hide BitSerial;
    assert Octet(50) == 0x32;
    assert AbsorbBits(0x7c231048, 0x32, 4) == 0xd11492ec;
    DigitFed(0x7c231048, 1, 0x32, 0xd11492ec, 0xb0acbb32);
  }

  lemma Digit3()
    ensures BitSerial(0xb0acbb32, DIGITS[2..]) == BitSerial(0x77b79c2d, DIGITS[3..])
  {
    hide BitSerial;
    assert Octet(51) == 0x33;
    assert AbsorbBits(0xb0acbb32, 0x33, 4) == 0x16bddbd7;
    DigitFed(0xb0acbb32, 2, 0x33, 0x16bddbd7, 0x77b79c2d);
  }

  lemma Digit4()
    ensures BitSerial(0x77b79c2d, DIGITS[3..]) == BitSerial(0x641c1f5c, DIGITS[4..])
  {
    hide BitSerial;
    assert Octet(52) == 0x34;
    assert AbsorbBits(0x77b79c2d, 0x34, 4) == 0xf774ea86;
    DigitFed(0x77b79c2d, 3, 0x34, 0xf774ea86, 0x641c1f5c);
  }

  lemma Digit5()
    ensures BitSerial(0x641c1f5c, DIGITS[4..]) == BitSerial(0x340ac5e3, DIGITS[5..])
  {
    hide BitSerial;
    assert Octet(53) == 0x35;
    assert AbsorbBits(0x641c1f5c, 0x35, 4) == 0xf64e52b1;
    DigitFed(0x641c1f5c, 4, 0x35, 0xf64e52b1, 0x340ac5e3);
  }

  lemma Digit6()
    ensures BitSerial(0x340ac5e3, DIGITS[5..]) == BitSerial(0xf68d2c9e, DIGITS[6..])
  {
    hide BitSerial;
    assert Octet(54) == 0x36;
    assert AbsorbBits(0x340ac5e3, 0x36, 4) == 0x682bfdaa;
    DigitFed(0x340ac5e3, 5, 0x36, 0x682bfdaa, 0xf68d2c9e);
  }

  lemma Digit7()
    ensures BitSerial(0xf68d2c9e, DIGITS[6..]) == BitSerial(0xaffc9660, DIGITS[7..])
  {
    hide BitSerial;
    assert Octet(55) == 0x37;
    assert AbsorbBits(0xf68d2c9e, 0x37, 4) == 0xff67418d;
    DigitFed(0xf68d2c9e, 6, 0x37, 0xff67418d, 0xaffc9660);
  }

  lemma Digit8()
    ensures BitSerial(0xaffc9660, DIGITS[7..]) == BitSerial(0x651f2550, DIGITS[8..])
  {
    hide BitSerial;
    assert Octet(56) == 0x38;
    assert AbsorbBits(0xaffc9660, 0x38, 4) == 0xe7474a46;
    DigitFed(0xaffc9660, 7, 0x38, 0xe7474a46, 0x651f2550);
  }

  lemma Digit9()
    ensures BitSerial(0x651f2550, DIGITS[8..]) == BitSerial(0x340bc6d9, DIGITS[9..])
  {
    hide BitSerial;
    assert Octet(57) == 0x39;
    assert AbsorbBits(0x651f2550, 0x39, 4) == 0xf65e6111;
    DigitFed(0x651f2550, 8, 0x39, 0xf65e6111, 0x340bc6d9);
  }

  lemma Ends(s: bv32)
    ensures BitSerial(s, DIGITS[9..]) == s && DIGITS[0..] == DIGITS
  {
  }

  /** The standard check value, and the checksum of nothing. */
  lemma CheckValue()
    ensures Checksum(DIGITS) == 0xcbf43926
    ensures Checksum([]) == 0
  {
    hide BitSerial, DIGITS;
    Digit1();
    Digit2();
    Digit3();
    Digit4();
    Digit5();
    Digit6();
    Digit7();
    Digit8();
    Digit9();
    Ends(ALL_ONES);
    Ends(0x340bc6d9);
    NothingFed();
  }

  lemma NothingFed()
    ensures BitSerial(ALL_ONES, []) == ALL_ONES
  {
  }
}
