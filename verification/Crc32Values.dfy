/**
 What CRC-32 is, beyond what every shift register does: the check value of the
 standard, the residue of a message followed by its own checksum, and that leading
 zero bytes count.
 */
module Crc32Values {
  import opened Basics
  import opened Crc32

  // ------------------------------------------------------------------
  // Words in four bytes
  // ------------------------------------------------------------------

  lemma Quarters(a: seq<bool>, b: seq<bool>, c: seq<bool>, d: seq<bool>, w: seq<bool>)
    requires |a| == |b| == |c| == |d| == 8 && w == a + (b + (c + d))
    ensures w[..8] == a && w[8..16] == b && w[16..24] == c && w[24..] == d
  {
  }

  lemma ByteBack(bits: seq<bool>)
    requires |bits| == 8
    ensures Bits(ByteOf(bits)) == bits
  {
    NatOfBits(bits);
  }

  lemma ByteIs(b: Byte, bits: seq<bool>)
    requires Bits(b) == bits
    ensures ByteOf(bits) == b
  {
    ByteBack(bits);
    BitsInjective(ByteOf(bits), b);
  }

  /** The four bytes of a word whose bits are those of `a`, `b`, `c` and `d`. */
  lemma WordBytesAre(a: Byte, b: Byte, c: Byte, d: Byte, w: Word)
    requires w == Bits(a) + (Bits(b) + (Bits(c) + Bits(d)))
    ensures WordBytes(w) == [a, b, c, d]
  {
    Quarters(Bits(a), Bits(b), Bits(c), Bits(d), w);
    ByteIs(a, w[..8]);
    ByteIs(b, w[8..16]);
    ByteIs(c, w[16..24]);
    ByteIs(d, w[24..]);
  }

  lemma OneMoreByteBits(p: seq<Byte>, b: Byte)
    ensures BitsOf(p + [b]) == BitsOf(p) + Bits(b)
  {
    assert (p + [b])[..|p|] == p;
  }

  lemma Assoc(a: seq<bool>, b: seq<bool>, c: seq<bool>)
    ensures (a + b) + c == a + (b + c)
  {
  }

  lemma {:induction false} BitsOfConcat(p: seq<Byte>, q: seq<Byte>)
    ensures BitsOf(p + q) == BitsOf(p) + BitsOf(q)
    decreases |q|
  {
    if q == [] {
      assert p + q == p;
    } else {
      var front, b := q[..|q| - 1], q[|q| - 1];
      assert p + q == (p + front) + [b];
      BitsOfConcat(p, front);
      OneMoreByteBits(p + front, b);
      Assoc(BitsOf(p), BitsOf(front), Bits(b));
    }
  }

  lemma TwoBytesBits(a: Byte, b: Byte)
    ensures BitsOf([a]) == Bits(a) && BitsOf([a, b]) == Bits(a) + Bits(b)
  {
    OneMoreByteBits([], a);
    assert [] + [a] == [a];
    OneMoreByteBits([a], b);
    assert [a] + [b] == [a, b];
  }

  lemma FourBytesBits(a: Byte, b: Byte, c: Byte, d: Byte)
    ensures BitsOf([a, b, c, d]) == (Bits(a) + Bits(b)) + (Bits(c) + Bits(d))
  {
    BitsOfConcat([a, b], [c, d]);
    assert [a, b] + [c, d] == [a, b, c, d];
    TwoBytesBits(a, b);
    TwoBytesBits(c, d);
  }

  lemma Halves(w: seq<bool>)
    requires |w| == 32
    ensures w == (w[..8] + w[8..16]) + (w[16..24] + w[24..])
  {
    assert w[..8] + w[8..16] == w[..16];
    assert w[16..24] + w[24..] == w[16..];
    assert w == w[..16] + w[16..];
  }

  lemma WordBytesBits(w: Word, bytes: seq<Byte>)
    requires bytes == WordBytes(w)
    ensures BitsOf(bytes) == w
  {
    FourBytesBits(bytes[0], bytes[1], bytes[2], bytes[3]);
    ByteBack(w[..8]);
    ByteBack(w[8..16]);
    ByteBack(w[16..24]);
    ByteBack(w[24..]);
    Halves(w);
  }

  // ------------------------------------------------------------------
  // Machine words
  // ------------------------------------------------------------------

  lemma ByteAndRest(x: bv32, x1: bv32, n: nat)
    requires x1 == x >> 8
    ensures LowBits(x, 8 + n) == LowBits(x, 8) + LowBits(x1, n)
  {
    LowBitsSplit(x, 8, n);
    ShiftedEight(x);
  }

  lemma TwoParts(x: bv32, x1: bv32)
    requires x1 == x >> 8
    ensures LowBits(x, 16) == LowBits(x, 8) + LowBits(x1, 8)
  {
    ByteAndRest(x, x1, 8);
  }

  lemma ThreeParts(x: bv32, x1: bv32, x2: bv32)
    requires x1 == x >> 8 && x2 == x1 >> 8
    ensures LowBits(x, 24) == LowBits(x, 8) + (LowBits(x1, 8) + LowBits(x2, 8))
  {
    ByteAndRest(x, x1, 16);
    TwoParts(x1, x2);
  }

  lemma FourParts(x: bv32, x1: bv32, x2: bv32, x3: bv32)
    requires x1 == x >> 8 && x2 == x1 >> 8 && x3 == x2 >> 8
    ensures ToWord(x) == LowBits(x, 8) + (LowBits(x1, 8) + (LowBits(x2, 8) + LowBits(x3, 8)))
  {
    ByteAndRest(x, x1, 24);
    ThreeParts(x1, x2, x3);
  }

  function One(b: bool): nat { if b then 1 else 0 }

  lemma NatOfFrom(bits: seq<bool>, k: nat)
    requires k < |bits|
    ensures NatOf(bits[k..]) == One(bits[k]) + 2 * NatOf(bits[k + 1..])
  {
    assert bits[k..][1..] == bits[k + 1..];
  }

  lemma NatOfFour(bits: seq<bool>, k: nat)
    requires k + 4 <= |bits|
    ensures NatOf(bits[k..])
         == One(bits[k]) + 2 * One(bits[k + 1]) + 4 * One(bits[k + 2]) + 8 * One(bits[k + 3])
            + 16 * NatOf(bits[k + 4..])
  {
    NatOfFrom(bits, k);
    NatOfFrom(bits, k + 1);
    NatOfFrom(bits, k + 2);
    NatOfFrom(bits, k + 3);
  }

  /** A byte has the bits that add up to it. */
  lemma BitsAre(b: Byte, bits: seq<bool>)
    requires |bits| == 8
    requires b == One(bits[0]) + 2 * One(bits[1]) + 4 * One(bits[2]) + 8 * One(bits[3])
                  + 16 * One(bits[4]) + 32 * One(bits[5]) + 64 * One(bits[6]) + 128 * One(bits[7])
    ensures Bits(b) == bits
  {
    NatOfFour(bits, 0);
    NatOfFour(bits, 4);
    assert bits[0..] == bits && bits[8..] == [];
    NatOfBits(bits);
  }

  ghost predicate AllTrue(t: seq<bool>) { forall i :: 0 <= i < |t| ==> t[i] }

  lemma OnesByte(x: bv32)
    requires x == 0xFFFF_FFFF || x == 0xFF_FFFF || x == 0xFFFF || x == 0xFF
    ensures AllTrue(LowBits(x, 8))
  {
    EightBits(x);
    FourBits(x);
    FourBits(x >> 4);
  }

  lemma TrueParts(a: seq<bool>, b: seq<bool>, c: seq<bool>, d: seq<bool>)
    requires |a| == |b| == |c| == |d| == 8 && AllTrue(a) && AllTrue(b) && AllTrue(c) && AllTrue(d)
    ensures a + (b + (c + d)) == ONES
  {
    assert AllTrue(c + d);
    assert AllTrue(b + (c + d));
    assert AllTrue(a + (b + (c + d)));
  }

  lemma OnesWord()
    ensures ToWord(0xFFFF_FFFF) == ONES
  {
    FourParts(0xFFFF_FFFF, 0xFF_FFFF, 0xFFFF, 0xFF);
    OnesByte(0xFFFF_FFFF);
    OnesByte(0xFF_FFFF);
    OnesByte(0xFFFF);
    OnesByte(0xFF);
    TrueParts(LowBits(0xFFFF_FFFF, 8), LowBits(0xFF_FFFF, 8), LowBits(0xFFFF, 8), LowBits(0xFF, 8));
  }

  lemma XorOnes(a: Word)
    ensures Xor(a, ONES) == Not(a)
  {
  }

  lemma NotWord(x: bv32, y: bv32)
    requires y == x ^ 0xFFFF_FFFF
    ensures ToWord(y) == Not(ToWord(x))
  {
    XorWord(x, 0xFFFF_FFFF);
    OnesWord();
    XorOnes(ToWord(x));
  }

  // ------------------------------------------------------------------
  // The check value
  // ------------------------------------------------------------------

  /** `c` is the register after `data`. */
  ghost predicate Reaches(data: seq<Byte>, c: bv32) { Serial(ONES, BitsOf(data)) == ToWord(c) }

  /** Taking in a byte is mixing it into the low end and eight bit steps. */
  lemma ByteSerial(c: bv32, b: Byte, i: Index, next: bv32)
    requires IndexBits(i) == Bits(b) && next == Step8(c ^ (i as bv32))
    ensures Serial(ToWord(c), Bits(b)) == ToWord(next)
  {
    IndexWord(i);
    XorWord(c, i as bv32);
    Absorb(ToWord(c), Bits(b));
    Step8Word(c ^ (i as bv32));
  }

  lemma OneByteMore(data: seq<Byte>, c: bv32, b: Byte, i: Index, next: bv32)
    requires Reaches(data, c) && IndexBits(i) == Bits(b) && next == Step8(c ^ (i as bv32))
    ensures Reaches(data + [b], next)
  {
    OneMoreByteBits(data, b);
    SerialConcat(ONES, BitsOf(data), Bits(b));
    ByteSerial(c, b, i, next);
  }

  lemma Nothing()
    ensures Reaches([], 0xFFFF_FFFF)
  {
    OnesWord();
  }

  lemma FirstSteps()
    ensures Step8(0xFFFF_FFFF ^ 0x31) == 0x7C23_1048 && Step8(0x7C23_1048 ^ 0x32) == 0xB0AC_BB32
    ensures Step8(0xB0AC_BB32 ^ 0x33) == 0x77B7_9C2D && Step8(0x77B7_9C2D ^ 0x34) == 0x641C_1F5C
    ensures Step8(0x641C_1F5C ^ 0x35) == 0x340A_C5E3
  {
  }

  lemma LastSteps()
    ensures Step8(0x340A_C5E3 ^ 0x36) == 0xF68D_2C9E && Step8(0xF68D_2C9E ^ 0x37) == 0xAFFC_9660
    ensures Step8(0xAFFC_9660 ^ 0x38) == 0x651F_2550 && Step8(0x651F_2550 ^ 0x39) == 0x340B_C6D9
  {
  }

  /** The first `n` of the digits 1 to 9 in ASCII. */
  function Digits(n: nat): seq<Byte>
    requires n <= 9
  {
    if n == 0 then [] else Digits(n - 1) + [0x30 + n]
  }

  lemma NextDigit(n: nat, c: bv32, i: Index, next: bv32)
    requires n < 9 && Reaches(Digits(n), c) && next == Step8(c ^ (i as bv32))
    requires IndexBits(i) == Bits(0x31 + n)
    ensures Reaches(Digits(n + 1), next)
  {
    OneByteMore(Digits(n), c, 0x31 + n, i, next);
  }

  lemma Reached1()
    ensures Reaches(Digits(1), 0x7C23_1048)
  {
    Nothing();
    FirstSteps();
    BitsAre(0x31, [true, false, false, false, true, true, false, false]);
    NextDigit(0, 0xFFFF_FFFF, 0x31, 0x7C23_1048);
  }

  lemma Reached2()
    ensures Reaches(Digits(2), 0xB0AC_BB32)
  {
    Reached1();
    FirstSteps();
    BitsAre(0x32, [false, true, false, false, true, true, false, false]);
    NextDigit(1, 0x7C23_1048, 0x32, 0xB0AC_BB32);
  }

  lemma Reached3()
    ensures Reaches(Digits(3), 0x77B7_9C2D)
  {
    Reached2();
    FirstSteps();
    BitsAre(0x33, [true, true, false, false, true, true, false, false]);
    NextDigit(2, 0xB0AC_BB32, 0x33, 0x77B7_9C2D);
  }

  lemma Reached4()
    ensures Reaches(Digits(4), 0x641C_1F5C)
  {
    Reached3();
    FirstSteps();
    BitsAre(0x34, [false, false, true, false, true, true, false, false]);
    NextDigit(3, 0x77B7_9C2D, 0x34, 0x641C_1F5C);
  }

  lemma Reached5()
    ensures Reaches(Digits(5), 0x340A_C5E3)
  {
    Reached4();
    FirstSteps();
    BitsAre(0x35, [true, false, true, false, true, true, false, false]);
    NextDigit(4, 0x641C_1F5C, 0x35, 0x340A_C5E3);
  }

  lemma Reached6()
    ensures Reaches(Digits(6), 0xF68D_2C9E)
  {
    Reached5();
    LastSteps();
    BitsAre(0x36, [false, true, true, false, true, true, false, false]);
    NextDigit(5, 0x340A_C5E3, 0x36, 0xF68D_2C9E);
  }

  lemma Reached7()
    ensures Reaches(Digits(7), 0xAFFC_9660)
  {
    Reached6();
    LastSteps();
    BitsAre(0x37, [true, true, true, false, true, true, false, false]);
    NextDigit(6, 0xF68D_2C9E, 0x37, 0xAFFC_9660);
  }

  lemma Reached8()
    ensures Reaches(Digits(8), 0x651F_2550)
  {
    Reached7();
    LastSteps();
    BitsAre(0x38, [false, false, false, true, true, true, false, false]);
    NextDigit(7, 0xAFFC_9660, 0x38, 0x651F_2550);
  }

  lemma Reached9()
    ensures Reaches(Digits(9), 0x340B_C6D9)
  {
    Reached8();
    LastSteps();
    BitsAre(0x39, [true, false, false, true, true, true, false, false]);
    NextDigit(8, 0x651F_2550, 0x39, 0x340B_C6D9);
  }

  lemma AllDigits()
    ensures Digits(9) == [0x31, 0x32, 0x33, 0x34, 0x35, 0x36, 0x37, 0x38, 0x39]
  {
    assert Digits(3) == [0x31, 0x32, 0x33];
    assert Digits(6) == [0x31, 0x32, 0x33, 0x34, 0x35, 0x36];
  }

  lemma CheckBytes(w: Word)
    requires w == ToWord(0xCBF4_3926)
    ensures WordBytes(w) == [0x26, 0x39, 0xF4, 0xCB]
  {
    FourParts(0xCBF4_3926, 0xCB_F439, 0xCBF4, 0xCB);
    EightBits(0xCBF4_3926);
    FourBits(0xCBF4_3926);
    FourBits(0xCBF4392);
    BitsAre(0x26, [false, true, true, false, false, true, false, false]);
    EightBits(0xCB_F439);
    FourBits(0xCB_F439);
    FourBits(0xCBF43);
    BitsAre(0x39, [true, false, false, true, true, true, false, false]);
    EightBits(0xCBF4);
    FourBits(0xCBF4);
    FourBits(0xCBF);
    BitsAre(0xF4, [false, false, true, false, true, true, true, true]);
    EightBits(0xCB);
    FourBits(0xCB);
    FourBits(0xC);
    BitsAre(0xCB, [true, true, false, true, false, false, true, true]);
    WordBytesAre(0x26, 0x39, 0xF4, 0xCB, w);
  }

  /** The check value every implementation of this CRC-32 must give for the digits 1 to 9: 0xCBF43926. */
  lemma CheckValue()
    ensures var crc := Crc([0x31, 0x32, 0x33, 0x34, 0x35, 0x36, 0x37, 0x38, 0x39]);
            crc == ToWord(0xCBF4_3926) && WordBytes(crc) == [0x26, 0x39, 0xF4, 0xCB]
  {
    AllDigits();
    Reached9();
    NotWord(0x340B_C6D9, 0xCBF4_3926);
    CheckBytes(ToWord(0xCBF4_3926));
  }

  // ------------------------------------------------------------------
  // The residue, and leading zeros
  // ------------------------------------------------------------------

  lemma {:induction false} StepsTwice(a: Word, m: nat, n: nat)
    ensures Steps(a, m + n) == Steps(Steps(a, m), n)
    decreases m
  {
    if m != 0 { StepsTwice(RegStep(a), m - 1, n); }
  }

  lemma OnesSteps()
    ensures Step8(0xFFFF_FFFF) == 0x2DFD_1072 && Step8(0x2DFD_1072) == 0xBE26_ED00
    ensures Step8(0xBE26_ED00) == 0x00BE_26ED && Step8(0x00BE_26ED) == 0xDEBB_20E3
  {
  }

  lemma OnesRun()
    ensures Steps(ONES, 8) == ToWord(0x2DFD_1072) && Steps(ONES, 32) == ToWord(0xDEBB_20E3)
  {
    OnesWord();
    OnesSteps();
    Step8Word(0xFFFF_FFFF);
    Step8Word(0x2DFD_1072);
    Step8Word(0xBE26_ED00);
    Step8Word(0x00BE_26ED);
    StepsTwice(ONES, 8, 24);
    StepsTwice(ToWord(0x2DFD_1072), 8, 16);
    StepsTwice(ToWord(0xBE26_ED00), 8, 8);
  }

  lemma OwnComplement(s: Word)
    ensures Serial(s, Not(s)) == Steps(ONES, 32)
  {
    var w := Not(s);
    Absorb(s, w);
    assert Xor(s, Pad(w)) == ONES;
  }

  /** A message followed by its own checksum always has the checksum 0x2144DF1C. */
  lemma Residue(data: seq<Byte>)
    ensures Crc(data + WordBytes(Crc(data))) == ToWord(0x2144_DF1C)
  {
    var s := Serial(ONES, BitsOf(data));
    var own := WordBytes(Crc(data));
    BitsOfConcat(data, own);
    WordBytesBits(Not(s), own);
    SerialConcat(ONES, BitsOf(data), BitsOf(own));
    OwnComplement(s);
    OnesRun();
    NotWord(0xDEBB_20E3, 0x2144_DF1C);
  }

  lemma FirstBit()
    ensures ToWord(0x2DFD_1072)[0] == false
  {
    assert (0x2DFD_1072 as bv32) & 1 == 0;
  }

  lemma ZeroBits()
    ensures Bits(0) == Zeros(8)
  {
    BitsAre(0, Zeros(8));
  }

  lemma PadZeros(n: nat)
    requires n <= 32
    ensures Xor(ONES, Pad(Zeros(n))) == ONES
  {
    assert Pad(Zeros(n)) == Zeros(32);
  }

  lemma ZeroByte()
    ensures Serial(ONES, Bits(0)) != ONES
  {
    ZeroBits();
    Absorb(ONES, Zeros(8));
    PadZeros(8);
    OnesRun();
    FirstBit();
  }

  /** Registers that differ still differ after the same bits. */
  lemma StaysDifferent(a: Word, b: Word, bits: seq<bool>)
    requires a != b
    ensures Serial(a, bits) != Serial(b, bits)
  {
    SerialBijective(a, bits);
    SerialBijective(b, bits);
  }

  /** A zero byte in front of any message changes its checksum. */
  lemma LeadingZeroCounts(data: seq<Byte>)
    ensures Crc([0] + data) != Crc(data)
  {
    var zero, bits := Serial(ONES, Bits(0)), BitsOf(data);
    BitsOfConcat([0], data);
    TwoBytesBits(0, 0);
    SerialConcat(ONES, Bits(0), bits);
    ZeroByte();
    StaysDifferent(zero, ONES, bits);
    if Crc([0] + data) == Crc(data) { NotInjective(Serial(zero, bits), Serial(ONES, bits)); }
  }
}
