/**
 The checksum of the serialized format: CRC-32 with the reflected IEEE 802.3
 polynomial, computed a byte at a time from a table of 256 words.
 */
module Crc32 {
  import opened Arithmetic
  import opened Basics

  type Index = bv8          // an index into the table

  /** A 32-bit register, lowest bit first. */
  type Word = w: seq<bool> | |w| == 32 witness seq(32, _ => false)

  // ------------------------------------------------------------------
  // The definition: a shift register fed one bit at a time, low bit first
  // ------------------------------------------------------------------

  function Zeros(n: nat): seq<bool> { seq(n, _ => false) }

  function Down(a: Word): Word { a[1..] + [false] }

  function Xor(a: Word, b: Word): Word {
    seq(32, i requires 0 <= i < 32 => a[i] != b[i])
  }

  function Not(a: Word): Word {
    seq(32, i requires 0 <= i < 32 => !a[i])
  }

  /** x^32 + x^26 + x^23 + x^22 + x^16 + x^12 + x^11 + x^10 + x^8 + x^7 + x^5 + x^4 + x^2 + x + 1, reflected. */
  const POLY: Word :=
    [false, false, false, false, false, true, false, false] +
    ([true, true, false, false, false, false, false, true] +
     ([false, false, false, true, true, true, false, true] + [true, false, true, true, false, true, true, true]))

  /** The register moves down one place; a one falling out adds the polynomial. */
  function RegStep(a: Word): Word {
    if a[0] then Xor(Down(a), POLY) else Down(a)
  }

  /** The `bits`, then zeros. */
  function Pad(bits: seq<bool>): Word
    requires |bits| <= 32
  {
    bits + Zeros(32 - |bits|)
  }

  /** The register after taking in `bits`. */
  function Serial(a: Word, bits: seq<bool>): Word
    decreases |bits|
  {
    if bits == [] then a else Serial(RegStep(Xor(a, Pad([bits[0]]))), bits[1..])
  }

  /** The `n` lowest bits of a machine word, lowest first. */
  function LowBits(x: bv32, n: nat): (r: seq<bool>)
    ensures |r| == n
    decreases n
  {
    if n == 0 then [] else [x & 1 == 1] + LowBits(x >> 1, n - 1)
  }

  function ToWord(x: bv32): Word { LowBits(x, 32) }

  function NatBits(b: nat, n: nat): (r: seq<bool>)
    ensures |r| == n
    decreases n
  {
    if n == 0 then [] else [b % 2 == 1] + NatBits(b / 2, n - 1)
  }

  /** The bits of a byte, lowest first. */
  function Bits(b: Byte): (r: seq<bool>)
    ensures |r| == 8
  {
    NatBits(b, 8)
  }

  function BitsOf(data: seq<Byte>): (r: seq<bool>)
    ensures |r| == 8 * |data|
  {
    if data == [] then [] else BitsOf(data[..|data| - 1]) + Bits(data[|data| - 1])
  }

  const ONES: Word := Not(Zeros(32))

  /** CRC-32 of `data`, as the shift register defines it. */
  function Crc(data: seq<Byte>): Word {
    Not(Serial(ONES, BitsOf(data)))
  }

  // ------------------------------------------------------------------
  // The table
  // ------------------------------------------------------------------

  function BitStep(c: bv32): bv32 {
    if c & 1 == 1 then (c >> 1) ^ 0xEDB88320 else c >> 1
  }

  function Step8(c: bv32): bv32 {
    BitStep(BitStep(BitStep(BitStep(BitStep(BitStep(BitStep(BitStep(c))))))))
  }

  function Row0(i: Index): bv32 {
    if i == 0 then 0x00000000 else if i == 1 then 0x77073096 else
    if i == 2 then 0xEE0E612C else if i == 3 then 0x990951BA else
    if i == 4 then 0x076DC419 else if i == 5 then 0x706AF48F else
    if i == 6 then 0xE963A535 else if i == 7 then 0x9E6495A3 else
    if i == 8 then 0x0EDB8832 else if i == 9 then 0x79DCB8A4 else
    if i == 10 then 0xE0D5E91E else if i == 11 then 0x97D2D988 else
    if i == 12 then 0x09B64C2B else if i == 13 then 0x7EB17CBD else if i == 14 then 0xE7B82D07 else 0x90BF1D91
  }

  function Row1(i: Index): bv32 {
    if i == 0 then 0x1DB71064 else if i == 1 then 0x6AB020F2 else
    if i == 2 then 0xF3B97148 else if i == 3 then 0x84BE41DE else
    if i == 4 then 0x1ADAD47D else if i == 5 then 0x6DDDE4EB else
    if i == 6 then 0xF4D4B551 else if i == 7 then 0x83D385C7 else
    if i == 8 then 0x136C9856 else if i == 9 then 0x646BA8C0 else
    if i == 10 then 0xFD62F97A else if i == 11 then 0x8A65C9EC else
    if i == 12 then 0x14015C4F else if i == 13 then 0x63066CD9 else if i == 14 then 0xFA0F3D63 else 0x8D080DF5
  }

  function Row2(i: Index): bv32 {
    if i == 0 then 0x3B6E20C8 else if i == 1 then 0x4C69105E else
    if i == 2 then 0xD56041E4 else if i == 3 then 0xA2677172 else
    if i == 4 then 0x3C03E4D1 else if i == 5 then 0x4B04D447 else
    if i == 6 then 0xD20D85FD else if i == 7 then 0xA50AB56B else
    if i == 8 then 0x35B5A8FA else if i == 9 then 0x42B2986C else
    if i == 10 then 0xDBBBC9D6 else if i == 11 then 0xACBCF940 else
    if i == 12 then 0x32D86CE3 else if i == 13 then 0x45DF5C75 else if i == 14 then 0xDCD60DCF else 0xABD13D59
  }

  function Row3(i: Index): bv32 {
    if i == 0 then 0x26D930AC else if i == 1 then 0x51DE003A else
    if i == 2 then 0xC8D75180 else if i == 3 then 0xBFD06116 else
    if i == 4 then 0x21B4F4B5 else if i == 5 then 0x56B3C423 else
    if i == 6 then 0xCFBA9599 else if i == 7 then 0xB8BDA50F else
    if i == 8 then 0x2802B89E else if i == 9 then 0x5F058808 else
    if i == 10 then 0xC60CD9B2 else if i == 11 then 0xB10BE924 else
    if i == 12 then 0x2F6F7C87 else if i == 13 then 0x58684C11 else if i == 14 then 0xC1611DAB else 0xB6662D3D
  }

  function Row4(i: Index): bv32 {
    if i == 0 then 0x76DC4190 else if i == 1 then 0x01DB7106 else
    if i == 2 then 0x98D220BC else if i == 3 then 0xEFD5102A else
    if i == 4 then 0x71B18589 else if i == 5 then 0x06B6B51F else
    if i == 6 then 0x9FBFE4A5 else if i == 7 then 0xE8B8D433 else
    if i == 8 then 0x7807C9A2 else if i == 9 then 0x0F00F934 else
    if i == 10 then 0x9609A88E else if i == 11 then 0xE10E9818 else
    if i == 12 then 0x7F6A0DBB else if i == 13 then 0x086D3D2D else if i == 14 then 0x91646C97 else 0xE6635C01
  }

  function Row5(i: Index): bv32 {
    if i == 0 then 0x6B6B51F4 else if i == 1 then 0x1C6C6162 else
    if i == 2 then 0x856530D8 else if i == 3 then 0xF262004E else
    if i == 4 then 0x6C0695ED else if i == 5 then 0x1B01A57B else
    if i == 6 then 0x8208F4C1 else if i == 7 then 0xF50FC457 else
    if i == 8 then 0x65B0D9C6 else if i == 9 then 0x12B7E950 else
    if i == 10 then 0x8BBEB8EA else if i == 11 then 0xFCB9887C else
    if i == 12 then 0x62DD1DDF else if i == 13 then 0x15DA2D49 else if i == 14 then 0x8CD37CF3 else 0xFBD44C65
  }

  function Row6(i: Index): bv32 {
    if i == 0 then 0x4DB26158 else if i == 1 then 0x3AB551CE else
    if i == 2 then 0xA3BC0074 else if i == 3 then 0xD4BB30E2 else
    if i == 4 then 0x4ADFA541 else if i == 5 then 0x3DD895D7 else
    if i == 6 then 0xA4D1C46D else if i == 7 then 0xD3D6F4FB else
    if i == 8 then 0x4369E96A else if i == 9 then 0x346ED9FC else
    if i == 10 then 0xAD678846 else if i == 11 then 0xDA60B8D0 else
    if i == 12 then 0x44042D73 else if i == 13 then 0x33031DE5 else if i == 14 then 0xAA0A4C5F else 0xDD0D7CC9
  }

  function Row7(i: Index): bv32 {
    if i == 0 then 0x5005713C else if i == 1 then 0x270241AA else
    if i == 2 then 0xBE0B1010 else if i == 3 then 0xC90C2086 else
    if i == 4 then 0x5768B525 else if i == 5 then 0x206F85B3 else
    if i == 6 then 0xB966D409 else if i == 7 then 0xCE61E49F else
    if i == 8 then 0x5EDEF90E else if i == 9 then 0x29D9C998 else
    if i == 10 then 0xB0D09822 else if i == 11 then 0xC7D7A8B4 else
    if i == 12 then 0x59B33D17 else if i == 13 then 0x2EB40D81 else if i == 14 then 0xB7BD5C3B else 0xC0BA6CAD
  }

  function Row8(i: Index): bv32 {
    if i == 0 then 0xEDB88320 else if i == 1 then 0x9ABFB3B6 else
    if i == 2 then 0x03B6E20C else if i == 3 then 0x74B1D29A else
    if i == 4 then 0xEAD54739 else if i == 5 then 0x9DD277AF else
    if i == 6 then 0x04DB2615 else if i == 7 then 0x73DC1683 else
    if i == 8 then 0xE3630B12 else if i == 9 then 0x94643B84 else
    if i == 10 then 0x0D6D6A3E else if i == 11 then 0x7A6A5AA8 else
    if i == 12 then 0xE40ECF0B else if i == 13 then 0x9309FF9D else if i == 14 then 0x0A00AE27 else 0x7D079EB1
  }

  function Row9(i: Index): bv32 {
    if i == 0 then 0xF00F9344 else if i == 1 then 0x8708A3D2 else
    if i == 2 then 0x1E01F268 else if i == 3 then 0x6906C2FE else
    if i == 4 then 0xF762575D else if i == 5 then 0x806567CB else
    if i == 6 then 0x196C3671 else if i == 7 then 0x6E6B06E7 else
    if i == 8 then 0xFED41B76 else if i == 9 then 0x89D32BE0 else
    if i == 10 then 0x10DA7A5A else if i == 11 then 0x67DD4ACC else
    if i == 12 then 0xF9B9DF6F else if i == 13 then 0x8EBEEFF9 else if i == 14 then 0x17B7BE43 else 0x60B08ED5
  }

  function RowA(i: Index): bv32 {
    if i == 0 then 0xD6D6A3E8 else if i == 1 then 0xA1D1937E else
    if i == 2 then 0x38D8C2C4 else if i == 3 then 0x4FDFF252 else
    if i == 4 then 0xD1BB67F1 else if i == 5 then 0xA6BC5767 else
    if i == 6 then 0x3FB506DD else if i == 7 then 0x48B2364B else
    if i == 8 then 0xD80D2BDA else if i == 9 then 0xAF0A1B4C else
    if i == 10 then 0x36034AF6 else if i == 11 then 0x41047A60 else
    if i == 12 then 0xDF60EFC3 else if i == 13 then 0xA867DF55 else if i == 14 then 0x316E8EEF else 0x4669BE79
  }

  function RowB(i: Index): bv32 {
    if i == 0 then 0xCB61B38C else if i == 1 then 0xBC66831A else
    if i == 2 then 0x256FD2A0 else if i == 3 then 0x5268E236 else
    if i == 4 then 0xCC0C7795 else if i == 5 then 0xBB0B4703 else
    if i == 6 then 0x220216B9 else if i == 7 then 0x5505262F else
    if i == 8 then 0xC5BA3BBE else if i == 9 then 0xB2BD0B28 else
    if i == 10 then 0x2BB45A92 else if i == 11 then 0x5CB36A04 else
    if i == 12 then 0xC2D7FFA7 else if i == 13 then 0xB5D0CF31 else if i == 14 then 0x2CD99E8B else 0x5BDEAE1D
  }

  function RowC(i: Index): bv32 {
    if i == 0 then 0x9B64C2B0 else if i == 1 then 0xEC63F226 else
    if i == 2 then 0x756AA39C else if i == 3 then 0x026D930A else
    if i == 4 then 0x9C0906A9 else if i == 5 then 0xEB0E363F else
    if i == 6 then 0x72076785 else if i == 7 then 0x05005713 else
    if i == 8 then 0x95BF4A82 else if i == 9 then 0xE2B87A14 else
    if i == 10 then 0x7BB12BAE else if i == 11 then 0x0CB61B38 else
    if i == 12 then 0x92D28E9B else if i == 13 then 0xE5D5BE0D else if i == 14 then 0x7CDCEFB7 else 0x0BDBDF21
  }

  function RowD(i: Index): bv32 {
    if i == 0 then 0x86D3D2D4 else if i == 1 then 0xF1D4E242 else
    if i == 2 then 0x68DDB3F8 else if i == 3 then 0x1FDA836E else
    if i == 4 then 0x81BE16CD else if i == 5 then 0xF6B9265B else
    if i == 6 then 0x6FB077E1 else if i == 7 then 0x18B74777 else
    if i == 8 then 0x88085AE6 else if i == 9 then 0xFF0F6A70 else
    if i == 10 then 0x66063BCA else if i == 11 then 0x11010B5C else
    if i == 12 then 0x8F659EFF else if i == 13 then 0xF862AE69 else if i == 14 then 0x616BFFD3 else 0x166CCF45
  }

  function RowE(i: Index): bv32 {
    if i == 0 then 0xA00AE278 else if i == 1 then 0xD70DD2EE else
    if i == 2 then 0x4E048354 else if i == 3 then 0x3903B3C2 else
    if i == 4 then 0xA7672661 else if i == 5 then 0xD06016F7 else
    if i == 6 then 0x4969474D else if i == 7 then 0x3E6E77DB else
    if i == 8 then 0xAED16A4A else if i == 9 then 0xD9D65ADC else
    if i == 10 then 0x40DF0B66 else if i == 11 then 0x37D83BF0 else
    if i == 12 then 0xA9BCAE53 else if i == 13 then 0xDEBB9EC5 else if i == 14 then 0x47B2CF7F else 0x30B5FFE9
  }

  function RowF(i: Index): bv32 {
    if i == 0 then 0xBDBDF21C else if i == 1 then 0xCABAC28A else
    if i == 2 then 0x53B39330 else if i == 3 then 0x24B4A3A6 else
    if i == 4 then 0xBAD03605 else if i == 5 then 0xCDD70693 else
    if i == 6 then 0x54DE5729 else if i == 7 then 0x23D967BF else
    if i == 8 then 0xB3667A2E else if i == 9 then 0xC4614AB8 else
    if i == 10 then 0x5D681B02 else if i == 11 then 0x2A6F2B94 else
    if i == 12 then 0xB40BBE37 else if i == 13 then 0xC30C8EA1 else if i == 14 then 0x5A05DF1B else 0x2D02EF8D
  }

  /** The source's table of 256 words, sixteen to a row. */
  function Table(i: Index): bv32 {
    var low := i & 0xF;
    match i >> 4
    case 0 => Row0(low)
    case 1 => Row1(low)
    case 2 => Row2(low)
    case 3 => Row3(low)
    case 4 => Row4(low)
    case 5 => Row5(low)
    case 6 => Row6(low)
    case 7 => Row7(low)
    case 8 => Row8(low)
    case 9 => Row9(low)
    case 10 => RowA(low)
    case 11 => RowB(low)
    case 12 => RowC(low)
    case 13 => RowD(low)
    case 14 => RowE(low)
    case _ => RowF(low)
  }

  lemma Row0Correct(i: Index) requires i >> 4 == 0 ensures Row0(i & 0xF) == Step8(i as bv32) { }

  lemma Row1Correct(i: Index) requires i >> 4 == 1 ensures Row1(i & 0xF) == Step8(i as bv32) { }

  lemma Row2Correct(i: Index) requires i >> 4 == 2 ensures Row2(i & 0xF) == Step8(i as bv32) { }

  lemma Row3Correct(i: Index) requires i >> 4 == 3 ensures Row3(i & 0xF) == Step8(i as bv32) { }

  lemma Row4Correct(i: Index) requires i >> 4 == 4 ensures Row4(i & 0xF) == Step8(i as bv32) { }

  lemma Row5Correct(i: Index) requires i >> 4 == 5 ensures Row5(i & 0xF) == Step8(i as bv32) { }

  lemma Row6Correct(i: Index) requires i >> 4 == 6 ensures Row6(i & 0xF) == Step8(i as bv32) { }

  lemma Row7Correct(i: Index) requires i >> 4 == 7 ensures Row7(i & 0xF) == Step8(i as bv32) { }

  lemma Row8Correct(i: Index) requires i >> 4 == 8 ensures Row8(i & 0xF) == Step8(i as bv32) { }

  lemma Row9Correct(i: Index) requires i >> 4 == 9 ensures Row9(i & 0xF) == Step8(i as bv32) { }

  lemma RowACorrect(i: Index) requires i >> 4 == 10 ensures RowA(i & 0xF) == Step8(i as bv32) { }

  lemma RowBCorrect(i: Index) requires i >> 4 == 11 ensures RowB(i & 0xF) == Step8(i as bv32) { }

  lemma RowCCorrect(i: Index) requires i >> 4 == 12 ensures RowC(i & 0xF) == Step8(i as bv32) { }

  lemma RowDCorrect(i: Index) requires i >> 4 == 13 ensures RowD(i & 0xF) == Step8(i as bv32) { }

  lemma RowECorrect(i: Index) requires i >> 4 == 14 ensures RowE(i & 0xF) == Step8(i as bv32) { }

  lemma RowFCorrect(i: Index) requires i >> 4 == 15 ensures RowF(i & 0xF) == Step8(i as bv32) { }

  /** Every table word is eight bit steps of its index. */
  lemma TableCorrect(i: Index)
    ensures Table(i) == Step8(i as bv32)
  {
    match i >> 4
    case 0 => Row0Correct(i);
    case 1 => Row1Correct(i);
    case 2 => Row2Correct(i);
    case 3 => Row3Correct(i);
    case 4 => Row4Correct(i);
    case 5 => Row5Correct(i);
    case 6 => Row6Correct(i);
    case 7 => Row7Correct(i);
    case 8 => Row8Correct(i);
    case 9 => Row9Correct(i);
    case 10 => RowACorrect(i);
    case 11 => RowBCorrect(i);
    case 12 => RowCCorrect(i);
    case 13 => RowDCorrect(i);
    case 14 => RowECorrect(i);
    case _ => RowFCorrect(i);
  }

  // ------------------------------------------------------------------
  // Machine words and registers
  // ------------------------------------------------------------------

  function Shifted(x: bv32, n: nat): bv32
    decreases n
  {
    if n == 0 then x else Shifted(x >> 1, n - 1)
  }

  lemma {:induction false} LowBitsSplit(x: bv32, m: nat, n: nat)
    ensures LowBits(x, m + n) == LowBits(x, m) + LowBits(Shifted(x, m), n)
    decreases m
  {
    if m != 0 {
      LowBitsSplit(x >> 1, m - 1, n);
      assert LowBits(x, m + n) == [x & 1 == 1] + LowBits(x >> 1, m - 1 + n);
    }
  }

  lemma {:induction false} ShiftedTwice(x: bv32, m: nat, n: nat)
    ensures Shifted(x, m + n) == Shifted(Shifted(x, m), n)
    decreases m
  {
    if m != 0 { ShiftedTwice(x >> 1, m - 1, n); }
  }

  lemma ShiftedEight(x: bv32)
    ensures Shifted(x, 8) == x >> 8
  {
    assert Shifted(x, 8) == Shifted(x >> 1 >> 1, 6) == Shifted(x >> 1 >> 1 >> 1 >> 1, 4);
    assert Shifted(x >> 1 >> 1 >> 1 >> 1, 4) == Shifted(x >> 1 >> 1 >> 1 >> 1 >> 1 >> 1, 2)
        == x >> 1 >> 1 >> 1 >> 1 >> 1 >> 1 >> 1 >> 1;
  }

  lemma ShiftedAll(x: bv32)
    ensures Shifted(x, 32) == 0
  {
    ShiftedTwice(x, 8, 24);
    ShiftedTwice(x >> 8, 8, 16);
    ShiftedTwice(x >> 8 >> 8, 8, 8);
    ShiftedEight(x);
    ShiftedEight(x >> 8);
    ShiftedEight(x >> 8 >> 8);
    ShiftedEight(x >> 8 >> 8 >> 8);
    assert x >> 8 >> 8 >> 8 >> 8 == 0;
  }

  lemma XorShift(z: bv32, x: bv32, y: bv32)
    requires z == x ^ y
    ensures z >> 1 == (x >> 1) ^ (y >> 1)
    ensures (z & 1 == 1) == ((x & 1 == 1) != (y & 1 == 1))
  {
  }

  ghost predicate XorOf(z: bv32, x: bv32, y: bv32, n: nat)
    decreases n
  {
    n == 0 ||
    ((z & 1 == 1) == ((x & 1 == 1) != (y & 1 == 1)) && XorOf(z >> 1, x >> 1, y >> 1, n - 1))
  }

  lemma {:induction false} XorIsXorOf(z: bv32, x: bv32, y: bv32, n: nat)
    requires z == x ^ y
    ensures XorOf(z, x, y, n)
    decreases n
  {
    if n != 0 {
      XorShift(z, x, y);
      XorIsXorOf(z >> 1, x >> 1, y >> 1, n - 1);
    }
  }

  lemma {:induction false} XorLowBits(z: bv32, x: bv32, y: bv32, n: nat)
    requires XorOf(z, x, y, n)
    ensures forall i :: 0 <= i < n ==> LowBits(z, n)[i] == (LowBits(x, n)[i] != LowBits(y, n)[i])
    decreases n
  {
    if n != 0 { XorLowBits(z >> 1, x >> 1, y >> 1, n - 1); }
  }

  lemma XorWord(x: bv32, y: bv32)
    ensures ToWord(x ^ y) == Xor(ToWord(x), ToWord(y))
  {
    XorIsXorOf(x ^ y, x, y, 32);
    XorLowBits(x ^ y, x, y, 32);
  }

  lemma DownWord(x: bv32)
    ensures ToWord(x >> 1) == Down(ToWord(x))
  {
    LowBitsSplit(x >> 1, 31, 1);
    ShiftedAll(x);
    assert Shifted(x, 32) == Shifted(x >> 1, 31);
    assert LowBits(0, 1) == [false];
  }

  lemma FourBits(x: bv32)
    ensures LowBits(x, 4) == [x & 1 == 1, (x >> 1) & 1 == 1, (x >> 2) & 1 == 1, (x >> 3) & 1 == 1]
    ensures Shifted(x, 4) == x >> 4
  {
    assert LowBits(x, 4) == [x & 1 == 1, (x >> 1) & 1 == 1] + LowBits(x >> 1 >> 1, 2);
    assert Shifted(x, 4) == Shifted(x >> 1 >> 1, 2);
  }

  lemma EightBits(x: bv32)
    ensures LowBits(x, 8) == LowBits(x, 4) + LowBits(x >> 4, 4)
  {
    FourBits(x);
    LowBitsSplit(x, 4, 4);
  }

  lemma PolyFrom3()
    ensures LowBits(0xED, 8) == [true, false, true, true, false, true, true, true]
  {
    EightBits(0xED);
    FourBits(0xED);
    FourBits(0xE);
  }

  lemma PolyFrom2()
    ensures LowBits(0xEDB8, 16)
         == [false, false, false, true, true, true, false, true]
            + ([true, false, true, true, false, true, true, true])
  {
    EightBits(0xEDB8);
    FourBits(0xEDB8);
    FourBits(0xEDB);
    LowBitsSplit(0xEDB8, 8, 8);
    ShiftedEight(0xEDB8);
    PolyFrom3();
  }

  lemma PolyFrom1()
    ensures LowBits(0xEDB883, 24)
         == [true, true, false, false, false, false, false, true]
            + ([false, false, false, true, true, true, false, true]
            + ([true, false, true, true, false, true, true, true]))
  {
    EightBits(0xEDB883);
    FourBits(0xEDB883);
    FourBits(0xEDB88);
    LowBitsSplit(0xEDB883, 8, 16);
    ShiftedEight(0xEDB883);
    PolyFrom2();
  }

  lemma PolyFrom0()
    ensures LowBits(0xEDB88320, 32)
         == [false, false, false, false, false, true, false, false]
            + ([true, true, false, false, false, false, false, true]
            + ([false, false, false, true, true, true, false, true]
            + ([true, false, true, true, false, true, true, true])))
  {
    EightBits(0xEDB88320);
    FourBits(0xEDB88320);
    FourBits(0xEDB8832);
    LowBitsSplit(0xEDB88320, 8, 24);
    ShiftedEight(0xEDB88320);
    PolyFrom1();
  }

  lemma PolyWord()
    ensures ToWord(0xEDB88320) == POLY
  {
    PolyFrom0();
  }

  lemma RegStepWord(x: bv32)
    ensures ToWord(BitStep(x)) == RegStep(ToWord(x))
  {
    DownWord(x);
    XorWord(x >> 1, 0xEDB88320);
    PolyWord();
  }

  lemma Step8Word(x: bv32)
    ensures ToWord(Step8(x)) == Steps(ToWord(x), 8)
  {
    var x1 := BitStep(x); var x2 := BitStep(x1); var x3 := BitStep(x2); var x4 := BitStep(x3);
    var x5 := BitStep(x4); var x6 := BitStep(x5); var x7 := BitStep(x6);
    RegStepWord(x); RegStepWord(x1); RegStepWord(x2); RegStepWord(x3);
    RegStepWord(x4); RegStepWord(x5); RegStepWord(x6); RegStepWord(x7);
  }

  // ------------------------------------------------------------------
  // The register is linear and runs backwards
  // ------------------------------------------------------------------

  function Steps(a: Word, n: nat): Word
    decreases n
  {
    if n == 0 then a else Steps(RegStep(a), n - 1)
  }

  lemma RegStepXor(a: Word, b: Word)
    ensures RegStep(Xor(a, b)) == Xor(RegStep(a), RegStep(b))
  {
  }

  lemma {:induction false} StepsXor(a: Word, b: Word, n: nat)
    ensures Steps(Xor(a, b), n) == Xor(Steps(a, n), Steps(b, n))
    decreases n
  {
    if n != 0 {
      RegStepXor(a, b);
      StepsXor(RegStep(a), RegStep(b), n - 1);
    }
  }

  /** Bits above the low end only move down. */
  lemma {:induction false} StepsMove(bits: seq<bool>, n: nat)
    requires |bits| + n <= 32
    ensures Steps(Pad(Zeros(n) + bits), n) == Pad(bits)
    decreases n
  {
    if n != 0 {
      assert RegStep(Pad(Zeros(n) + bits)) == Pad(Zeros(n - 1) + bits);
      StepsMove(bits, n - 1);
    } else {
      assert Zeros(0) + bits == bits;
    }
  }

  /** Up to 32 bits can be put in one at a time, or all at once. */
  lemma {:induction false} Absorb(a: Word, bits: seq<bool>)
    requires |bits| <= 32
    ensures Serial(a, bits) == Steps(Xor(a, Pad(bits)), |bits|)
    decreases |bits|
  {
    if bits == [] {
      assert Xor(a, Pad([])) == a;
    } else {
      var first, rest := Pad([bits[0]]), bits[1..];
      Absorb(RegStep(Xor(a, first)), rest);
      assert Xor(a, Pad(bits)) == Xor(Xor(a, first), Pad([false] + rest));
      RegStepXor(Xor(a, first), Pad([false] + rest));
      assert RegStep(Pad([false] + rest)) == Pad(rest);
    }
  }

  /** The state before a step. */
  function RegBack(a: Word): Word {
    var moved := if a[31] then Xor(a, POLY) else a;
    [a[31]] + moved[..31]
  }

  lemma RegStepBijective(a: Word)
    ensures RegBack(RegStep(a)) == a && RegStep(RegBack(a)) == a
  {
  }

  /** The state before a run of bits. */
  function Unserial(a: Word, bits: seq<bool>): Word
    decreases |bits|
  {
    if bits == [] then a else Xor(RegBack(Unserial(a, bits[1..])), Pad([bits[0]]))
  }

  lemma XorTwice(a: Word, u: Word)
    ensures Xor(Xor(a, u), u) == a
  {
  }

  lemma {:induction false} UnserialSerial(a: Word, bits: seq<bool>)
    ensures Unserial(Serial(a, bits), bits) == a
    decreases |bits|
  {
    if bits != [] {
      var u := Pad([bits[0]]);
      UnserialSerial(RegStep(Xor(a, u)), bits[1..]);
      RegStepBijective(Xor(a, u));
      XorTwice(a, u);
    }
  }

  lemma {:induction false} SerialUnserial(a: Word, bits: seq<bool>)
    ensures Serial(Unserial(a, bits), bits) == a
    decreases |bits|
  {
    if bits != [] {
      var back := Unserial(a, bits[1..]);
      SerialUnserial(a, bits[1..]);
      RegStepBijective(back);
      XorTwice(RegBack(back), Pad([bits[0]]));
    }
  }

  /** Taking in the same bits is a bijection on the state. */
  lemma SerialBijective(a: Word, bits: seq<bool>)
    ensures Unserial(Serial(a, bits), bits) == a && Serial(Unserial(a, bits), bits) == a
  {
    UnserialSerial(a, bits);
    SerialUnserial(a, bits);
  }

  // ------------------------------------------------------------------
  // The table-driven loop computes the definition
  // ------------------------------------------------------------------

  function IndexBits(i: Index): (r: seq<bool>)
    ensures |r| == 8
  {
    [i & 0x01 != 0, i & 0x02 != 0, i & 0x04 != 0, i & 0x08 != 0,
     i & 0x10 != 0, i & 0x20 != 0, i & 0x40 != 0, i & 0x80 != 0]
  }

  /** The table index with these eight bits, lowest first. */
  function FromBits(s: seq<bool>): Index
    requires |s| == 8
  {
    (if s[0] then 0x01 else 0) | (if s[1] then 0x02 else 0) | (if s[2] then 0x04 else 0) | (if s[3] then 0x08 else 0) |
    (if s[4] then 0x10 else 0) | (if s[5] then 0x20 else 0) | (if s[6] then 0x40 else 0) | (if s[7] then 0x80 else 0)
  }

  lemma IndexBitsFromBits(s: seq<bool>)
    requires |s| == 8
    ensures IndexBits(FromBits(s)) == s
  {
  }

  /** One iteration of the source's loop: look up the low byte mixed with `b`, then shift by eight. */
  function TableStep(c: Word, b: Byte): Word {
    Xor(ToWord(Table(FromBits(Xor(c, Pad(Bits(b)))[..8]))), c[8..] + Zeros(8))
  }

  lemma {:induction false} LowBitsZero(n: nat)
    ensures LowBits(0, n) == Zeros(n)
  {
    if n != 0 {
      assert (0 as bv32) >> 1 == 0;
      LowBitsZero(n - 1);
      assert Zeros(n) == [false] + Zeros(n - 1);
    }
  }

  lemma LowFour(i: Index)
    ensures LowBits(i as bv32, 4) == IndexBits(i)[..4]
  {
    FourBits(i as bv32);
  }

  lemma HighFour(i: Index)
    ensures LowBits((i as bv32) >> 4, 4) == IndexBits(i)[4..]
  {
    FourBits((i as bv32) >> 4);
  }

  lemma LowIndexBits(i: Index)
    ensures LowBits(i as bv32, 8) == IndexBits(i)
  {
    EightBits(i as bv32);
    LowFour(i);
    HighFour(i);
  }

  lemma IndexWord(i: Index)
    ensures ToWord(i as bv32) == Pad(IndexBits(i))
  {
    LowIndexBits(i);
    LowBitsSplit(i as bv32, 8, 24);
    ShiftedEight(i as bv32);
    assert (i as bv32) >> 8 == 0;
    LowBitsZero(24);
  }

  /** A table word is eight register steps of its index. */
  lemma LookUp(i: Index)
    ensures ToWord(Table(i)) == Steps(Pad(IndexBits(i)), 8)
  {
    TableCorrect(i);
    Step8Word(i as bv32);
    IndexWord(i);
  }

  lemma StepFromLookUp(c: Word, bits: seq<bool>, looked: Word)
    requires |bits| == 8 && looked == Steps(Pad(Xor(c, Pad(bits))[..8]), 8)
    ensures Xor(looked, c[8..] + Zeros(8)) == Serial(c, bits)
  {
    var w := Xor(c, Pad(bits));
    var low, high := w[..8], w[8..];
    Absorb(c, bits);
    StepsMove(high, 8);
    assert w == Xor(Pad(low), Pad(Zeros(8) + high));
    StepsXor(Pad(low), Pad(Zeros(8) + high), 8);
    assert high == c[8..];
  }

  /** One table look-up takes in the eight bits of a byte. */
  lemma TableStepSerial(c: Word, b: Byte)
    ensures TableStep(c, b) == Serial(c, Bits(b))
  {
    var low := Xor(c, Pad(Bits(b)))[..8];
    IndexBitsFromBits(low);
    LookUp(FromBits(low));
    StepFromLookUp(c, Bits(b), ToWord(Table(FromBits(low))));
  }

  lemma {:induction false} SerialConcat(a: Word, u: seq<bool>, v: seq<bool>)
    ensures Serial(a, u + v) == Serial(Serial(a, u), v)
    decreases |u|
  {
    if u == [] {
      assert u + v == v;
    } else {
      assert (u + v)[1..] == u[1..] + v;
      SerialConcat(RegStep(Xor(a, Pad([u[0]]))), u[1..], v);
    }
  }

  /** crc32(): the table-driven loop computes the shift register's CRC of every input. */
  method ComputeCrc(data: seq<Byte>) returns (r: Word)
    ensures r == Crc(data)
  {
    var crc := ONES;
    for i := 0 to |data|
      invariant crc == Serial(ONES, BitsOf(data[..i]))
    {
      TableStepSerial(crc, data[i]);
      SerialConcat(ONES, BitsOf(data[..i]), Bits(data[i]));
      assert data[..i + 1][..i] == data[..i];
      crc := TableStep(crc, data[i]);
    }
    assert data[..|data|] == data;
    r := Not(crc);
  }

  // ------------------------------------------------------------------
  // Error detection
  // ------------------------------------------------------------------

  lemma {:induction false} StepsInjective(a: Word, b: Word, n: nat)
    requires Steps(a, n) == Steps(b, n)
    ensures a == b
    decreases n
  {
    if n != 0 {
      StepsInjective(RegStep(a), RegStep(b), n - 1);
      RegStepBijective(a);
      RegStepBijective(b);
    }
  }

  /** Two different windows of up to 32 bits lead to different states. */
  lemma WindowDetected(a: Word, u: seq<bool>, v: seq<bool>)
    requires |u| == |v| <= 32 && u != v
    ensures Serial(a, u) != Serial(a, v)
  {
    Absorb(a, u);
    Absorb(a, v);
    if Serial(a, u) == Serial(a, v) {
      StepsInjective(Xor(a, Pad(u)), Xor(a, Pad(v)), |u|);
      forall i | 0 <= i < |u| ensures u[i] == v[i] {
        assert Xor(a, Pad(u))[i] == Xor(a, Pad(v))[i];
      }
    }
  }

  /** `p` and `q` are equal but for at most 32 consecutive bits, and not equal. */
  ghost predicate BurstError(p: seq<Byte>, q: seq<Byte>, at: nat) {
    && |p| == |q| && p != q && at <= 8 * |p|
    && forall i :: 0 <= i < 8 * |p| && !(at <= i < at + 32) ==> BitsOf(p)[i] == BitsOf(q)[i]
  }

  lemma {:induction false} NatBitsInjective(b: nat, c: nat, n: nat)
    requires b < Pow2(n) && c < Pow2(n) && NatBits(b, n) == NatBits(c, n)
    ensures b == c
    decreases n
  {
    if n != 0 {
      assert NatBits(b, n)[0] == NatBits(c, n)[0];
      assert NatBits(b, n)[1..] == NatBits(b / 2, n - 1) && NatBits(c, n)[1..] == NatBits(c / 2, n - 1);
      NatBitsInjective(b / 2, c / 2, n - 1);
    }
  }

  lemma BitsInjective(b: Byte, c: Byte)
    requires Bits(b) == Bits(c)
    ensures b == c
  {
    assert Pow2(8) == 256;
    NatBitsInjective(b, c, 8);
  }

  lemma BitsOfSplit(p: seq<Byte>)
    requires p != []
    ensures var m := |p| - 1; BitsOf(p)[..8 * m] == BitsOf(p[..m]) && BitsOf(p)[8 * m..] == Bits(p[m])
  {
  }

  lemma {:induction false} BitsOfInjective(p: seq<Byte>, q: seq<Byte>)
    requires BitsOf(p) == BitsOf(q)
    ensures p == q
  {
    if p != [] {
      var m := |p| - 1;
      BitsOfSplit(p);
      BitsOfSplit(q);
      BitsOfInjective(p[..m], q[..m]);
      BitsInjective(p[m], q[m]);
      assert p == p[..m] + [p[m]] && q == q[..m] + [q[m]];
    }
  }

  lemma {:induction false} BitsOfAt(p: seq<Byte>, i: nat)
    requires i < 8 * |p|
    ensures BitsOf(p)[i] == Bits(p[i / 8])[i % 8]
  {
    var m := |p| - 1;
    BitsOfSplit(p);
    if i < 8 * m {
      BitsOfAt(p[..m], i);
      assert BitsOf(p)[i] == BitsOf(p)[..8 * m][i];
    } else {
      assert BitsOf(p)[i] == BitsOf(p)[8 * m..][i - 8 * m];
    }
  }

  /** Damage confined to four consecutive bytes is such an error. */
  lemma FourBytesAreABurst(p: seq<Byte>, q: seq<Byte>, at: nat)
    requires |p| == |q| && p != q && at <= |p|
    requires forall i :: 0 <= i < |p| && !(at <= i < at + 4) ==> p[i] == q[i]
    ensures BurstError(p, q, 8 * at)
  {
    forall i | 0 <= i < 8 * |p| && !(8 * at <= i < 8 * at + 32) ensures BitsOf(p)[i] == BitsOf(q)[i] {
      BitsOfAt(p, i);
      BitsOfAt(q, i);
    }
  }

  lemma SerialInThree(a: Word, u: seq<bool>, at: nat, end: nat)
    requires at <= end <= |u|
    ensures Serial(a, u) == Serial(Serial(Serial(a, u[..at]), u[at..end]), u[end..])
  {
    assert u == u[..end] + u[end..] && u[..end] == u[..at] + u[at..end];
    SerialConcat(a, u[..end], u[end..]);
    SerialConcat(a, u[..at], u[at..end]);
  }

  /** Bit strings that differ, and only inside a window of 32 bits, lead to different states. */
  lemma BitBurst(a: Word, u: seq<bool>, v: seq<bool>, at: nat, end: nat)
    requires |u| == |v| && at <= end <= |u| && end - at <= 32
    requires u[..at] == v[..at] && u[end..] == v[end..] && u[at..end] != v[at..end]
    ensures Serial(a, u) != Serial(a, v)
  {
    SerialInThree(a, u, at, end);
    SerialInThree(a, v, at, end);
    var s := Serial(a, u[..at]);
    WindowDetected(s, u[at..end], v[at..end]);
    SerialBijective(Serial(s, u[at..end]), u[end..]);
    SerialBijective(Serial(s, v[at..end]), u[end..]);
  }

  lemma SameEverywhere(u: seq<bool>, v: seq<bool>, at: nat, end: nat)
    requires |u| == |v| && at <= end <= |u|
    requires u[..at] == v[..at] && u[at..end] == v[at..end] && u[end..] == v[end..]
    ensures u == v
  {
    assert u == u[..at] + u[at..end] + u[end..];
    assert v == v[..at] + v[at..end] + v[end..];
  }

  lemma WindowDiffers(u: seq<bool>, v: seq<bool>, at: nat, end: nat)
    requires |u| == |v| && u != v && at <= end <= |u|
    requires forall i :: 0 <= i < |u| && !(at <= i < end) ==> u[i] == v[i]
    ensures u[..at] == v[..at] && u[end..] == v[end..] && u[at..end] != v[at..end]
  {
    if u[at..end] == v[at..end] { SameEverywhere(u, v, at, end); }
  }

  /** Every burst error changes the checksum. */
  lemma BurstDetected(p: seq<Byte>, q: seq<Byte>, at: nat)
    requires BurstError(p, q, at)
    ensures Crc(p) != Crc(q)
  {
    var u, v := BitsOf(p), BitsOf(q);
    var end := if at + 32 <= |u| then at + 32 else |u|;
    if u == v { BitsOfInjective(p, q); }
    WindowDiffers(u, v, at, end);
    BitBurst(ONES, u, v, at, end);
    if Crc(p) == Crc(q) { NotInjective(Serial(ONES, u), Serial(ONES, v)); }
  }

  lemma NotInjective(a: Word, b: Word)
    requires Not(a) == Not(b)
    ensures a == b
  {
    forall i | 0 <= i < 32 ensures a[i] == b[i] { assert Not(a)[i] == Not(b)[i]; }
  }

  // ------------------------------------------------------------------
  // The checksum as four bytes, lowest first
  // ------------------------------------------------------------------

  function NatOf(bits: seq<bool>): nat {
    if bits == [] then 0 else (if bits[0] then 1 else 0) + 2 * NatOf(bits[1..])
  }

  lemma {:induction false} NatOfBits(bits: seq<bool>)
    ensures NatOf(bits) < Pow2(|bits|) && NatBits(NatOf(bits), |bits|) == bits
  {
    if bits != [] {
      NatOfBits(bits[1..]);
      assert bits == [bits[0]] + bits[1..];
    }
  }

  function ByteOf(bits: seq<bool>): Byte
    requires |bits| == 8
  {
    NatOfBits(bits);
    assert Pow2(8) == 256;
    NatOf(bits)
  }

  function WordBytes(a: Word): (r: seq<Byte>)
    ensures |r| == 4
  {
    [ByteOf(a[..8]), ByteOf(a[8..16]), ByteOf(a[16..24]), ByteOf(a[24..])]
  }

  lemma ByteOfInjective(u: seq<bool>, v: seq<bool>)
    requires |u| == |v| == 8 && ByteOf(u) == ByteOf(v)
    ensures u == v
  {
    NatOfBits(u);
    NatOfBits(v);
  }

  lemma WordBytesInjective(a: Word, b: Word)
    requires WordBytes(a) == WordBytes(b)
    ensures a == b
  {
    assert WordBytes(a)[0] == WordBytes(b)[0] && WordBytes(a)[1] == WordBytes(b)[1];
    assert WordBytes(a)[2] == WordBytes(b)[2] && WordBytes(a)[3] == WordBytes(b)[3];
    ByteOfInjective(a[..8], b[..8]);
    ByteOfInjective(a[8..16], b[8..16]);
    ByteOfInjective(a[16..24], b[16..24]);
    ByteOfInjective(a[24..], b[24..]);
    assert a == a[..8] + a[8..16] + a[16..24] + a[24..];
    assert b == b[..8] + b[8..16] + b[16..24] + b[24..];
  }
}
