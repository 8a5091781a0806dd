/** The 16-bit frame check sequence: the table-driven loop, the bit-serial register it computes,
    and what that register detects (section C.2 of RFC 1662). */
module Crc16 {
  type byte = bv8

  const CRC_16_L_SEED: bv16 := 0xFFFF
  const GOOD_FCS: bv16 := 0xF0B8

  /** One step of the LSB-first register with polynomial 0x8408. */
  function Shift(r: bv16): bv16 {
    if r & 1 == 1 then (r >> 1) ^ 0x8408 else r >> 1
  }

  function Shift8(r: bv16): bv16 {
    Shift(Shift(Shift(Shift(Shift(Shift(Shift(Shift(r))))))))
  }

  // ----- crc_16_l_table, sixteen entries a row: entry i is i shifted eight times -----

  function Row0(low: bv8): (r: bv16)
    requires low < 16
    ensures r == Shift8((0x00 | low) as bv16)
  {
    match low
    case 0 => 0x0000 case 1 => 0x1189 case 2 => 0x2312 case 3 => 0x329b
    case 4 => 0x4624 case 5 => 0x57ad case 6 => 0x6536 case 7 => 0x74bf
    case 8 => 0x8c48 case 9 => 0x9dc1 case 10 => 0xaf5a case 11 => 0xbed3
    case 12 => 0xca6c case 13 => 0xdbe5 case 14 => 0xe97e case _ => 0xf8f7
  }

  function Row1(low: bv8): (r: bv16)
    requires low < 16
    ensures r == Shift8((0x10 | low) as bv16)
  {
    match low
    case 0 => 0x1081 case 1 => 0x0108 case 2 => 0x3393 case 3 => 0x221a
    case 4 => 0x56a5 case 5 => 0x472c case 6 => 0x75b7 case 7 => 0x643e
    case 8 => 0x9cc9 case 9 => 0x8d40 case 10 => 0xbfdb case 11 => 0xae52
    case 12 => 0xdaed case 13 => 0xcb64 case 14 => 0xf9ff case _ => 0xe876
  }

  function Row2(low: bv8): (r: bv16)
    requires low < 16
    ensures r == Shift8((0x20 | low) as bv16)
  {
    match low
    case 0 => 0x2102 case 1 => 0x308b case 2 => 0x0210 case 3 => 0x1399
    case 4 => 0x6726 case 5 => 0x76af case 6 => 0x4434 case 7 => 0x55bd
    case 8 => 0xad4a case 9 => 0xbcc3 case 10 => 0x8e58 case 11 => 0x9fd1
    case 12 => 0xeb6e case 13 => 0xfae7 case 14 => 0xc87c case _ => 0xd9f5
  }

  function Row3(low: bv8): (r: bv16)
    requires low < 16
    ensures r == Shift8((0x30 | low) as bv16)
  {
    match low
    case 0 => 0x3183 case 1 => 0x200a case 2 => 0x1291 case 3 => 0x0318
    case 4 => 0x77a7 case 5 => 0x662e case 6 => 0x54b5 case 7 => 0x453c
    case 8 => 0xbdcb case 9 => 0xac42 case 10 => 0x9ed9 case 11 => 0x8f50
    case 12 => 0xfbef case 13 => 0xea66 case 14 => 0xd8fd case _ => 0xc974
  }

  function Row4(low: bv8): (r: bv16)
    requires low < 16
    ensures r == Shift8((0x40 | low) as bv16)
  {
    match low
    case 0 => 0x4204 case 1 => 0x538d case 2 => 0x6116 case 3 => 0x709f
    case 4 => 0x0420 case 5 => 0x15a9 case 6 => 0x2732 case 7 => 0x36bb
    case 8 => 0xce4c case 9 => 0xdfc5 case 10 => 0xed5e case 11 => 0xfcd7
    case 12 => 0x8868 case 13 => 0x99e1 case 14 => 0xab7a case _ => 0xbaf3
  }

  function Row5(low: bv8): (r: bv16)
    requires low < 16
    ensures r == Shift8((0x50 | low) as bv16)
  {
    match low
    case 0 => 0x5285 case 1 => 0x430c case 2 => 0x7197 case 3 => 0x601e
    case 4 => 0x14a1 case 5 => 0x0528 case 6 => 0x37b3 case 7 => 0x263a
    case 8 => 0xdecd case 9 => 0xcf44 case 10 => 0xfddf case 11 => 0xec56
    case 12 => 0x98e9 case 13 => 0x8960 case 14 => 0xbbfb case _ => 0xaa72
  }

  function Row6(low: bv8): (r: bv16)
    requires low < 16
    ensures r == Shift8((0x60 | low) as bv16)
  {
    match low
    case 0 => 0x6306 case 1 => 0x728f case 2 => 0x4014 case 3 => 0x519d
    case 4 => 0x2522 case 5 => 0x34ab case 6 => 0x0630 case 7 => 0x17b9
    case 8 => 0xef4e case 9 => 0xfec7 case 10 => 0xcc5c case 11 => 0xddd5
    case 12 => 0xa96a case 13 => 0xb8e3 case 14 => 0x8a78 case _ => 0x9bf1
  }

  function Row7(low: bv8): (r: bv16)
    requires low < 16
    ensures r == Shift8((0x70 | low) as bv16)
  {
    match low
    case 0 => 0x7387 case 1 => 0x620e case 2 => 0x5095 case 3 => 0x411c
    case 4 => 0x35a3 case 5 => 0x242a case 6 => 0x16b1 case 7 => 0x0738
    case 8 => 0xffcf case 9 => 0xee46 case 10 => 0xdcdd case 11 => 0xcd54
    case 12 => 0xb9eb case 13 => 0xa862 case 14 => 0x9af9 case _ => 0x8b70
  }

  function Row8(low: bv8): (r: bv16)
    requires low < 16
    ensures r == Shift8((0x80 | low) as bv16)
  {
    match low
    case 0 => 0x8408 case 1 => 0x9581 case 2 => 0xa71a case 3 => 0xb693
    case 4 => 0xc22c case 5 => 0xd3a5 case 6 => 0xe13e case 7 => 0xf0b7
    case 8 => 0x0840 case 9 => 0x19c9 case 10 => 0x2b52 case 11 => 0x3adb
    case 12 => 0x4e64 case 13 => 0x5fed case 14 => 0x6d76 case _ => 0x7cff
  }

  function Row9(low: bv8): (r: bv16)
    requires low < 16
    ensures r == Shift8((0x90 | low) as bv16)
  {
    match low
    case 0 => 0x9489 case 1 => 0x8500 case 2 => 0xb79b case 3 => 0xa612
    case 4 => 0xd2ad case 5 => 0xc324 case 6 => 0xf1bf case 7 => 0xe036
    case 8 => 0x18c1 case 9 => 0x0948 case 10 => 0x3bd3 case 11 => 0x2a5a
    case 12 => 0x5ee5 case 13 => 0x4f6c case 14 => 0x7df7 case _ => 0x6c7e
  }

  function RowA(low: bv8): (r: bv16)
    requires low < 16
    ensures r == Shift8((0xA0 | low) as bv16)
  {
    match low
    case 0 => 0xa50a case 1 => 0xb483 case 2 => 0x8618 case 3 => 0x9791
    case 4 => 0xe32e case 5 => 0xf2a7 case 6 => 0xc03c case 7 => 0xd1b5
    case 8 => 0x2942 case 9 => 0x38cb case 10 => 0x0a50 case 11 => 0x1bd9
    case 12 => 0x6f66 case 13 => 0x7eef case 14 => 0x4c74 case _ => 0x5dfd
  }

  function RowB(low: bv8): (r: bv16)
    requires low < 16
    ensures r == Shift8((0xB0 | low) as bv16)
  {
    match low
    case 0 => 0xb58b case 1 => 0xa402 case 2 => 0x9699 case 3 => 0x8710
    case 4 => 0xf3af case 5 => 0xe226 case 6 => 0xd0bd case 7 => 0xc134
    case 8 => 0x39c3 case 9 => 0x284a case 10 => 0x1ad1 case 11 => 0x0b58
    case 12 => 0x7fe7 case 13 => 0x6e6e case 14 => 0x5cf5 case _ => 0x4d7c
  }

  function RowC(low: bv8): (r: bv16)
    requires low < 16
    ensures r == Shift8((0xC0 | low) as bv16)
  {
    match low
    case 0 => 0xc60c case 1 => 0xd785 case 2 => 0xe51e case 3 => 0xf497
    case 4 => 0x8028 case 5 => 0x91a1 case 6 => 0xa33a case 7 => 0xb2b3
    case 8 => 0x4a44 case 9 => 0x5bcd case 10 => 0x6956 case 11 => 0x78df
    case 12 => 0x0c60 case 13 => 0x1de9 case 14 => 0x2f72 case _ => 0x3efb
  }

  function RowD(low: bv8): (r: bv16)
    requires low < 16
    ensures r == Shift8((0xD0 | low) as bv16)
  {
    match low
    case 0 => 0xd68d case 1 => 0xc704 case 2 => 0xf59f case 3 => 0xe416
    case 4 => 0x90a9 case 5 => 0x8120 case 6 => 0xb3bb case 7 => 0xa232
    case 8 => 0x5ac5 case 9 => 0x4b4c case 10 => 0x79d7 case 11 => 0x685e
    case 12 => 0x1ce1 case 13 => 0x0d68 case 14 => 0x3ff3 case _ => 0x2e7a
  }

  function RowE(low: bv8): (r: bv16)
    requires low < 16
    ensures r == Shift8((0xE0 | low) as bv16)
  {
    match low
    case 0 => 0xe70e case 1 => 0xf687 case 2 => 0xc41c case 3 => 0xd595
    case 4 => 0xa12a case 5 => 0xb0a3 case 6 => 0x8238 case 7 => 0x93b1
    case 8 => 0x6b46 case 9 => 0x7acf case 10 => 0x4854 case 11 => 0x59dd
    case 12 => 0x2d62 case 13 => 0x3ceb case 14 => 0x0e70 case _ => 0x1ff9
  }

  function RowF(low: bv8): (r: bv16)
    requires low < 16
    ensures r == Shift8((0xF0 | low) as bv16)
  {
    match low
    case 0 => 0xf78f case 1 => 0xe606 case 2 => 0xd49d case 3 => 0xc514
    case 4 => 0xb1ab case 5 => 0xa022 case 6 => 0x92b9 case 7 => 0x8330
    case 8 => 0x7bc7 case 9 => 0x6a4e case 10 => 0x58d5 case 11 => 0x495c
    case 12 => 0x3de3 case 13 => 0x2c6a case 14 => 0x1ef1 case _ => 0x0f78
  }

  function Table(i: bv8): (r: bv16)
    ensures r == Shift8(i as bv16)
  {
    var low := i & 0xf;
    match i >> 4
    case 0 => Row0(low)
    case 1 => Row1(low)
    case 2 => Row2(low)
    case 3 => Row3(low)
    case 4 => Row4(low)
    case 5 => Row5(low)
    case 6 => Row6(low)
    case 7 => Row7(low)
    case 8 => Row8(low)
    case 9 => Row9(low)
    case 10 => RowA(low)
    case 11 => RowB(low)
    case 12 => RowC(low)
    case 13 => RowD(low)
    case 14 => RowE(low)
    case _ => RowF(low)
  }

  // ----- the bit-serial specification -----

  /** The register takes one message bit. */
  function Feed(r: bv16, bit: bool): bv16 {
    Shift(if bit then r ^ 1 else r)
  }

  function Serial(r: bv16, bits: seq<bool>): bv16
    decreases |bits|
  {
    if bits == [] then r else Serial(Feed(r, bits[0]), bits[1..])
  }

  /** The n low bits of w, least significant first. */
  function LowBits(w: bv16, n: nat): (bits: seq<bool>)
    ensures |bits| == n
    decreases n
  {
    if n == 0 then [] else [w & 1 != 0] + LowBits(w >> 1, n - 1)
  }

  function ByteBits(c: byte): (bits: seq<bool>)
    ensures |bits| == 8
  {
    LowBits(c as bv16, 8)
  }

  function Bits(m: seq<byte>): (bits: seq<bool>)
    ensures |bits| == 8 * |m|
  {
    if m == [] then [] else Bits(m[..|m| - 1]) + ByteBits(m[|m| - 1])
  }

  /** The register after a message, and the check sequence sent with it. */
  function Register(m: seq<byte>): bv16 { Serial(CRC_16_L_SEED, Bits(m)) }

  function Crc(m: seq<byte>): bv16 { Register(m) ^ CRC_16_L_SEED }

  lemma {:induction false} SerialAppend(r: bv16, a: seq<bool>, b: seq<bool>)
    ensures Serial(r, a + b) == Serial(Serial(r, a), b)
    decreases |a|
  {
    if a == [] {
      assert a + b == b;
    } else {
      assert (a + b)[1..] == a[1..] + b;
      SerialAppend(Feed(r, a[0]), a[1..], b);
    }
  }

  /** The register takes a byte. */
  function Mix(r: bv16, c: byte): bv16 { Shift8(r ^ c as bv16) }

  function Low(x: bv16): byte { (x & 0x00ff) as byte }

  function Mixed(r: bv16, c: byte): bv16 { r ^ c as bv16 }

  /** CRC_16_L_STEP */
  function Step(crc: bv16, c: byte): bv16 {
    Xor(crc >> 8, Table(Low(Mixed(crc, c))))
  }

  function Xor(x: bv16, y: bv16): bv16 { x ^ y }

  lemma Swap(a: bv16, b: bv16, c: bv16, d: bv16)
    ensures Xor(Xor(a, b), Xor(c, d)) == Xor(Xor(a, c), Xor(b, d))
  {
    hide Xor;
    XorAssoc(a, b, Xor(c, d));
    XorAssoc(b, c, d);
    XorAssoc(c, b, d);
    XorAssoc(a, c, Xor(b, d));
    XorCommutes(b, c);
  }

  lemma XorAssoc(a: bv16, b: bv16, c: bv16)
    ensures Xor(Xor(a, b), c) == Xor(a, Xor(b, c))
  {
  }

  lemma XorCommutes(a: bv16, b: bv16)
    ensures Xor(a, b) == Xor(b, a)
  {
  }

  /** The register step is linear. */
  lemma ShiftLinear(x: bv16, y: bv16)
    ensures Xor(Shift(x), Shift(y)) == Shift(Xor(x, y))
  {
    hide Shift, Xor;
    if x & 1 == 1 {
      if y & 1 == 1 { ShiftLinearOddOdd(x, y); } else { ShiftLinearOddEven(x, y); }
    } else {
      if y & 1 == 1 { ShiftLinearEvenOdd(x, y); } else { ShiftLinearEvenEven(x, y); }
    }
  }

  lemma ShiftLinearOddOdd(x: bv16, y: bv16)
    requires x & 1 == 1 && y & 1 == 1
    ensures Xor(Shift(x), Shift(y)) == Shift(Xor(x, y))
  {
  }

  lemma ShiftLinearOddEven(x: bv16, y: bv16)
    requires x & 1 == 1 && y & 1 != 1
    ensures Xor(Shift(x), Shift(y)) == Shift(Xor(x, y))
  {
  }

  lemma ShiftLinearEvenOdd(x: bv16, y: bv16)
    requires x & 1 != 1 && y & 1 == 1
    ensures Xor(Shift(x), Shift(y)) == Shift(Xor(x, y))
  {
  }

  lemma ShiftLinearEvenEven(x: bv16, y: bv16)
    requires x & 1 != 1 && y & 1 != 1
    ensures Xor(Shift(x), Shift(y)) == Shift(Xor(x, y))
  {
  }

  lemma {:induction false} ShiftsLinear(x: bv16, y: bv16, n: nat)
    ensures Xor(Shifts(x, n), Shifts(y, n)) == Shifts(Xor(x, y), n)
    decreases n
  {
    hide Shift, Xor;
    if n > 0 {
      ShiftLinear(x, y);
      ShiftsLinear(Shift(x), Shift(y), n - 1);
    }
  }

  lemma Shift8Linear(x: bv16, y: bv16)
    ensures Xor(Shift8(x), Shift8(y)) == Shift8(Xor(x, y))
  {
    hide Shifts, Shift8, Xor;
    ShiftsLinear(x, y, 8);
    EightShifts(x);
    EightShifts(y);
    EightShifts(Xor(x, y));
  }

  /** The upper byte of a register is only moved down. */
  lemma UpperShifts(x: bv16)
    requires x & 0x00ff == 0
    ensures Shift8(x) == x >> 8
  {
  }

  lemma Halves(x: bv16)
    ensures Xor(x & 0xff00, x & 0x00ff) == x
    ensures (x & 0xff00) & 0x00ff == 0 && (x & 0xff00) >> 8 == x >> 8
  {
  }

  lemma ShiftSplits(x: bv16)
    ensures Xor(x >> 8, Shift8(x & 0x00ff)) == Shift8(x)
  {
    hide Shift8, Xor;
    Halves(x);
    UpperShifts(x & 0xff00);
    Shift8Linear(x & 0xff00, x & 0x00ff);
  }

  lemma UpperUnmixed(r: bv16, c: byte)
    ensures Mixed(r, c) >> 8 == r >> 8
  {
  }

  lemma LowByte(x: bv16)
    ensures Low(x) as bv16 == x & 0x00ff
  {
  }

  lemma StepIsShift8(r: bv16, c: byte)
    ensures Step(r, c) == Mix(r, c)
  {
    StepOf(r, c);
    hide Step, Shift8;
  }

  lemma StepOf(r: bv16, c: byte)
    ensures Step(r, c) == Shift8(Mixed(r, c))
  {
    hide Shift8, Table, Xor, Low, Mixed;
    UpperUnmixed(r, c);
    LowByte(Mixed(r, c));
    ShiftSplits(Mixed(r, c));
  }

  /** Feeding the low bit of w now and the rest later is the same as mixing in all of w. */
  lemma FeedLowBit(x: bv16, w: bv16)
    ensures Feed(x, w & 1 != 0) ^ (w >> 1) == Shift(x ^ w)
  {
  }

  /** n shifts. */
  function Shifts(r: bv16, n: nat): bv16
    decreases n
  {
    if n == 0 then r else Shifts(Shift(r), n - 1)
  }

  /** w has no bits from position n on. */
  predicate Within(w: bv16, n: nat)
    decreases n
  {
    if n == 0 then w == 0 else Within(w >> 1, n - 1)
  }

  /** Feeding the bits of a word is mixing the word in and shifting. */
  lemma {:induction false} SerialWord(r: bv16, w: bv16, n: nat)
    requires Within(w, n)
    ensures Serial(r, LowBits(w, n)) == Shifts(r ^ w, n)
    decreases n
  {
    if n == 0 {
      assert r ^ 0 == r;
    } else {
      FeedLowBit(r, w);
      SerialWord(Feed(r, w & 1 != 0), w >> 1, n - 1);
      assert LowBits(w, n)[1..] == LowBits(w >> 1, n - 1);
    }
  }

  lemma ByteIsWithin(c: byte)
    ensures Within(c as bv16, 8)
  {
    var w := c as bv16;
    var w2 := (w >> 1) >> 1;
    var w4 := (w2 >> 1) >> 1;
    var w6 := (w4 >> 1) >> 1;
    assert (w6 >> 1) >> 1 == 0;
    assert Within(w6, 2);
    assert Within(w4, 4);
    assert Within(w2, 6);
  }

  lemma EightShifts(x: bv16)
    ensures Shifts(x, 8) == Shift8(x)
  {
    var x2 := Shift(Shift(x));
    var x4 := Shift(Shift(x2));
    var x6 := Shift(Shift(x4));
    assert Shifts(x6, 2) == Shift(Shift(x6));
    assert Shifts(x4, 4) == Shifts(x6, 2);
    assert Shifts(x2, 6) == Shifts(x4, 4);
  }

  lemma SerialByte(r: bv16, c: byte)
    ensures Serial(r, ByteBits(c)) == Shift8(r ^ c as bv16)
  {
    hide Shift8;
    SerialByteShifts(r, c);
    EightShifts(r ^ c as bv16);
  }

  lemma SerialByteShifts(r: bv16, c: byte)
    ensures Serial(r, ByteBits(c)) == Shifts(r ^ c as bv16, 8)
  {
    var w := c as bv16;
    ByteIsWithin(c);
    hide Within, Serial, Shifts, LowBits;
    SerialWord(r, w, 8);
  }

  lemma RegisterSnoc(m: seq<byte>, c: byte)
    ensures Register(m + [c]) == Mix(Register(m), c)
  {
    hide Shift8;
    assert (m + [c])[..|m|] == m;
    SerialAppend(CRC_16_L_SEED, Bits(m), ByteBits(c));
    SerialByte(Register(m), c);
  }

  lemma RegisterNext(m: seq<byte>, c: byte, mc: seq<byte>)
    requires mc == m + [c]
    ensures Register(mc) == Mix(Register(m), c)
  {
    RegisterSnoc(m, c);
  }

  /** The table-driven loop computes the bit-serial check sequence of the first length bytes. */
  method CalcCRC16(buf: seq<byte>, length: int) returns (crc: bv16)
    requires length <= |buf|
    ensures crc == Crc(if length <= 0 then [] else buf[..length])
  {
    crc := CRC_16_L_SEED;
    var i := 0;
    while i < length
      invariant 0 <= i && (length <= 0 || i <= length)
      invariant crc == Register(if length <= 0 then [] else buf[..i])
    {
      hide *;
      StepIsShift8(crc, buf[i]);
      RegisterNext(buf[..i], buf[i], buf[..i + 1]);
      crc := Step(crc, buf[i]);
      i := i + 1;
    }
    crc := crc ^ CRC_16_L_SEED;
  }

  // ----- what the register detects -----

  lemma ShiftedToZero(d: bv16)
    requires Shift(d) == 0
    ensures d == 0
  {
  }

  lemma XorZeroIff(x: bv16, y: bv16)
    ensures Xor(x, y) == 0 <==> x == y
  {
  }

  lemma SameFlip(x: bv16, y: bv16)
    ensures Xor(Xor(x, 1), Xor(y, 1)) == Xor(x, y)
  {
    Swap(x, 1, y, 1);
    assert Xor(1, 1) == 0 && Xor(Xor(x, y), 0) == Xor(x, y);
    hide Xor;
  }

  lemma FeedInjective(x: bv16, y: bv16, b: bool)
    requires x != y
    ensures Feed(x, b) != Feed(y, b)
  {
    assert x ^ 1 == Xor(x, 1) && y ^ 1 == Xor(y, 1);
    hide Shift, Xor;
    if b {
      SameFlip(x, y);
      ShiftLinear(Xor(x, 1), Xor(y, 1));
    } else {
      ShiftLinear(x, y);
    }
    XorZeroIff(Feed(x, b), Feed(y, b));
    XorZeroIff(x, y);
    if Shift(Xor(x, y)) == 0 { ShiftedToZero(Xor(x, y)); }
  }

  /** Equal bits never hide a difference. */
  lemma {:induction false} SerialInjective(x: bv16, y: bv16, bits: seq<bool>)
    requires x != y
    ensures Serial(x, bits) != Serial(y, bits)
    decreases |bits|
  {
    hide Feed;
    if bits != [] {
      FeedInjective(x, y, bits[0]);
      SerialInjective(Feed(x, bits[0]), Feed(y, bits[0]), bits[1..]);
    }
  }

  /** A bound that survives n halvings. */
  predicate Deep(t: bv16, n: nat)
    decreases n
  {
    t != 0 && (n == 0 || (t & 1 == 0 && Deep(t >> 1, n - 1)))
  }

  lemma TopIsDeep()
    ensures Deep(0x8000, 15)
  {
    assert Deep(0x0010, 4) && Deep(0x0100, 8) && Deep(0x1000, 12);
  }

  /** The registers differ in a position at or above the one bit of t. */
  ghost predicate Apart(x: bv16, y: bv16, t: bv16) {
    Xor(x, y) >= t
  }

  lemma MixedApart(x: bv16, y: bv16, a: bool, b: bool, t: bv16)
    requires Apart(x, y, t) && t & 1 == 0
    ensures Apart(if a then x ^ 1 else x, if b then y ^ 1 else y, t)
  {
  }

  lemma ShiftedApart(x: bv16, y: bv16, t: bv16)
    requires Apart(x, y, t) && t & 1 == 0
    ensures Apart(Shift(x), Shift(y), t >> 1)
  {
    hide Shift, Xor;
    ShiftLinear(x, y);
    ShiftSinks(Xor(x, y), t);
  }

  lemma ShiftSinks(d: bv16, t: bv16)
    requires d >= t && t & 1 == 0
    ensures Shift(d) >= t >> 1
  {
  }

  lemma FedApart(x: bv16, y: bv16, a: bool, b: bool, t: bv16)
    requires Apart(x, y, t) && t & 1 == 0
    ensures Apart(Feed(x, a), Feed(y, b), t >> 1)
  {
    hide Shift, Apart;
    MixedApart(x, y, a, b, t);
    ShiftedApart(if a then x ^ 1 else x, if b then y ^ 1 else y, t);
  }

  lemma ApartDiffer(x: bv16, y: bv16, t: bv16)
    requires Apart(x, y, t) && t != 0
    ensures x != y
  {
  }

  /** After a first difference, bits that differ only within the next n positions cannot undo it:
      it sinks by at most one position a step. */
  lemma {:induction false} DifferenceSurvives(x: bv16, y: bv16, a: seq<bool>, b: seq<bool>, t: bv16, n: nat)
    requires |a| == |b| && Deep(t, n) && Apart(x, y, t)
    requires forall j | n <= j < |a| :: a[j] == b[j]
    ensures Serial(x, a) != Serial(y, b)
    decreases |a|
  {
    hide Feed, Apart;
    ApartDiffer(x, y, t);
    if a == [] {
    } else if n == 0 {
      assert a == b;
      SerialInjective(x, y, a);
    } else {
      FedApart(x, y, a[0], b[0], t);
      DifferenceSurvives(Feed(x, a[0]), Feed(y, b[0]), a[1..], b[1..], t >> 1, n - 1);
    }
  }

  lemma FirstDifference(x: bv16, a: bool, b: bool)
    requires a != b
    ensures Apart(Feed(x, a), Feed(x, b), 0x8000)
  {
  }

  /** Every burst of at most sixteen bits changes the register. */
  lemma {:induction false} BurstDetected(x: bv16, a: seq<bool>, b: seq<bool>, k: nat)
    requires |a| == |b| && a != b
    requires forall j | 0 <= j < |a| && !(k <= j < k + 16) :: a[j] == b[j]
    ensures Serial(x, a) != Serial(x, b)
    decreases |a|
  {
    hide Feed, Apart;
    if a[0] == b[0] {
      var k' := if k == 0 then 0 else k - 1;
      assert a == [a[0]] + a[1..] && b == [b[0]] + b[1..];
      forall j | 0 <= j < |a| - 1 && !(k' <= j < k' + 16) ensures a[1..][j] == b[1..][j] {
        assert a[j + 1] == b[j + 1];
      }
      BurstDetected(Feed(x, a[0]), a[1..], b[1..], k');
    } else {
      TopIsDeep();
      FirstDifference(x, a[0], b[0]);
      assert k == 0;
      DifferenceSurvives(Feed(x, a[0]), Feed(x, b[0]), a[1..], b[1..], 0x8000, 15);
    }
  }

  predicate Odd(x: bv16) { x & 1 == 1 }

  function Half(w: bv16): bv16 { w >> 1 }

  lemma Unfold(w: bv16, n: nat)
    requires n > 0
    ensures LowBits(w, n)[0] == Odd(w) && LowBits(w, n)[1..] == LowBits(Half(w), n - 1)
    ensures Within(w, n) == Within(Half(w), n - 1)
  {
  }

  lemma SameHalves(v: bv16, w: bv16)
    requires Half(v) == Half(w) && Odd(v) == Odd(w)
    ensures v == w
  {
  }

  lemma {:induction false} LowBitsInjective(v: bv16, w: bv16, n: nat)
    requires Within(v, n) && Within(w, n) && LowBits(v, n) == LowBits(w, n)
    ensures v == w
    decreases n
  {
    if n > 0 {
      hide *;
      Unfold(v, n);
      Unfold(w, n);
      LowBitsInjective(Half(v), Half(w), n - 1);
      SameHalves(v, w);
    }
  }

  lemma {:induction false} BitsInjective(m: seq<byte>, p: seq<byte>)
    requires |m| == |p| && Bits(m) == Bits(p)
    ensures m == p
    decreases |m|
  {
    hide ByteBits;
    if m != [] {
      var k := |m| - 1;
      assert Bits(m)[..8 * k] == Bits(m[..k]) && Bits(m)[8 * k..] == ByteBits(m[k]);
      assert Bits(p)[..8 * k] == Bits(p[..k]) && Bits(p)[8 * k..] == ByteBits(p[k]);
      BitsInjective(m[..k], p[..k]);
      ByteBitsInjective(m[k], p[k]);
    }
  }

  lemma ByteBitsInjective(c: byte, d: byte)
    requires ByteBits(c) == ByteBits(d)
    ensures c == d
  {
    ByteIsWithin(c);
    ByteIsWithin(d);
    LowBitsInjective(c as bv16, d as bv16, 8);
  }

  /** Two different messages of one length whose bits differ only inside a window of sixteen
      consecutive bits never have the same check sequence. */
  lemma BurstErrorsDetected(m: seq<byte>, p: seq<byte>, k: nat)
    requires |m| == |p| && m != p
    requires forall j | 0 <= j < |Bits(m)| && !(k <= j < k + 16) :: Bits(m)[j] == Bits(p)[j]
    ensures Crc(m) != Crc(p)
  {
    if Bits(m) == Bits(p) { BitsInjective(m, p); }
    BurstDetected(CRC_16_L_SEED, Bits(m), Bits(p), k);
    XorCancels(Register(m), Register(p), CRC_16_L_SEED);
  }

  lemma XorCancels(x: bv16, y: bv16, z: bv16)
    ensures x ^ z == y ^ z <==> x == y
  {
    assert (x ^ z) ^ z == x && (y ^ z) ^ z == y;
  }

  // ----- parity -----

  /** Whether an odd number of bits is set. */
  function Parity(x: bv16): bool {
    ((((Odd(x) != Odd(x >> 1)) != (Odd(x >> 2) != Odd(x >> 3)))
      != ((Odd(x >> 4) != Odd(x >> 5)) != (Odd(x >> 6) != Odd(x >> 7))))
     != (((Odd(x >> 8) != Odd(x >> 9)) != (Odd(x >> 10) != Odd(x >> 11)))
         != ((Odd(x >> 12) != Odd(x >> 13)) != (Odd(x >> 14) != Odd(x >> 15)))))
  }

  lemma FlipParity(x: bv16)
    ensures Parity(x ^ 1) == !Parity(x)
  {
  }

  lemma ShiftParity(x: bv16)
    ensures Parity(Shift(x)) == Parity(x)
  {
  }

  lemma FeedParity(x: bv16, b: bool)
    ensures Parity(Feed(x, b)) == (Parity(x) != b)
  {
    hide Shift, Parity;
    FlipParity(x);
    ShiftParity(if b then x ^ 1 else x);
  }

  function OddOnes(bits: seq<bool>): bool {
    bits != [] && (bits[0] != OddOnes(bits[1..]))
  }

  /** The register keeps the parity of the message: x + 1 divides the generator. */
  lemma {:induction false} SerialParity(x: bv16, bits: seq<bool>)
    ensures Parity(Serial(x, bits)) == (Parity(x) != OddOnes(bits))
    decreases |bits|
  {
    hide Parity, Feed;
    if bits != [] {
      FeedParity(x, bits[0]);
      SerialParity(Feed(x, bits[0]), bits[1..]);
    }
  }

  /** Any odd number of wrong bits, wherever they are, is detected. */
  lemma OddErrorsDetected(m: seq<byte>, p: seq<byte>)
    requires OddOnes(Bits(m)) != OddOnes(Bits(p))
    ensures Crc(m) != Crc(p)
  {
    hide Parity, Feed, Serial, OddOnes, Bits;
    SerialParity(CRC_16_L_SEED, Bits(m));
    SerialParity(CRC_16_L_SEED, Bits(p));
    XorCancels(Register(m), Register(p), CRC_16_L_SEED);
  }

  // ----- the residue -----

  /** The check sequence as sent: low byte first. */
  function Trailer(crc: bv16): (t: seq<byte>)
    ensures |t| == 2
  {
    [(crc & 0xff) as byte, (crc >> 8) as byte]
  }

  lemma RegisterTwo(m: seq<byte>, low: byte, high: byte)
    ensures Register(m + [low, high]) == Mix(Mix(Register(m), low), high)
  {
    hide Mix, Register;
    RegisterSnoc(m, low);
    RegisterSnoc(m + [low], high);
    assert m + [low] + [high] == m + [low, high];
  }

  function LowOf(r: bv16): byte { ((r ^ 0xFFFF) & 0xff) as byte }

  function HighOf(r: bv16): byte { ((r ^ 0xFFFF) >> 8) as byte }

  /** A byte that shifts to a byte is zero. */
  lemma ByteShiftsToZero(d: byte)
    ensures Shift8(d as bv16) & 0xff00 == 0 <==> d == 0
  {
  }

  lemma {:induction false} ShiftedToZeros(d: bv16, n: nat)
    requires Shifts(d, n) == 0
    ensures d == 0
    decreases n
  {
    hide Shift;
    if n > 0 {
      ShiftedToZeros(Shift(d), n - 1);
      ShiftedToZero(d);
    }
  }

  lemma LowPart(r: bv16)
    ensures Xor(r, LowOf(r) as bv16) & 0x00ff == 0x00ff && Xor(r, LowOf(r) as bv16) >> 8 == r >> 8
  {
  }

  lemma HighPart(r: bv16, k: bv16)
    ensures Xor(Xor(r >> 8, k), HighOf(r) as bv16) == Xor(k, 0x00ff)
  {
  }

  lemma Residue()
    ensures Shift8(Xor(Shift8(0x00ff), 0x00ff)) == GOOD_FCS
  {
  }

  /** The register after two bytes more. */
  function Two(r: bv16, low: byte, high: byte): bv16 {
    Xor(Shift8(Xor(r, low as bv16)), high as bv16)
  }

  /** With its check sequence behind it, the register ends at the residue. */
  lemma ResidueOf(r: bv16)
    ensures Shift8(Two(r, LowOf(r), HighOf(r))) == GOOD_FCS
  {
    hide Shift8, Xor, LowOf, HighOf;
    LowPart(r);
    ShiftSplits(Xor(r, LowOf(r) as bv16));
    HighPart(r, Shift8(0x00ff));
    Residue();
  }

  lemma SameFirst(r: bv16, a: byte, b: byte)
    ensures Xor(Xor(r, a as bv16), Xor(r, b as bv16)) == Xor(a as bv16, b as bv16) == (a ^ b) as bv16
    ensures a ^ b == 0 <==> a == b
  {
  }

  lemma SameUpper(x: bv16, e: byte)
    ensures Xor(x, e as bv16) == 0 ==> x & 0xff00 == 0
    ensures x == 0 ==> (Xor(x, e as bv16) == 0 <==> e == 0)
  {
  }

  lemma Shift8ZeroIff(d: bv16)
    ensures Shift8(d) == 0 <==> d == 0
  {
    if Shift8(d) == 0 {
      EightShifts(d);
      hide Shift8, Shifts;
      ShiftedToZeros(d, 8);
    }
  }

  lemma SameTwoIff(r: bv16, low: byte, high: byte, low1: byte, high1: byte)
    ensures Two(r, low, high) == Two(r, low1, high1) <==> low == low1 && high == high1
  {
    hide Shift8, Xor;
    var x, x1 := Xor(r, low as bv16), Xor(r, low1 as bv16);
    Swap(Shift8(x), high as bv16, Shift8(x1), high1 as bv16);
    Shift8Linear(x, x1);
    SameFirst(r, low, low1);
    SameFirst(0, high, high1);
    XorZeroIff(Two(r, low, high), Two(r, low1, high1));
    SameUpper(Shift8((low ^ low1) as bv16), high ^ high1);
    ByteShiftsToZero(low ^ low1);
    Shift8ZeroIff((low ^ low1) as bv16);
  }

  lemma ResidueIff(r: bv16, low: byte, high: byte)
    ensures Shift8(Two(r, low, high)) == GOOD_FCS <==> low == LowOf(r) && high == HighOf(r)
  {
    hide Shift8, Xor, Two, LowOf, HighOf;
    var v, v1 := Two(r, low, high), Two(r, LowOf(r), HighOf(r));
    ResidueOf(r);
    Shift8Linear(v, v1);
    XorZeroIff(Shift8(v), Shift8(v1));
    Shift8ZeroIff(Xor(v, v1));
    XorZeroIff(v, v1);
    SameTwoIff(r, low, high, LowOf(r), HighOf(r));
  }

  lemma MixTwoIff(r: bv16, low: byte, high: byte)
    ensures Mix(Mix(r, low), high) == GOOD_FCS <==> low == LowOf(r) && high == HighOf(r)
  {
    hide Shift8;
    ResidueIff(r, low, high);
  }

  lemma TrailerOf(m: seq<byte>)
    ensures Trailer(Crc(m)) == [LowOf(Register(m)), HighOf(Register(m))]
  {
    hide Register;
  }

  /** Over a message and two more bytes the register ends at 0xF0B8 exactly when those bytes are the
      message's check sequence, low byte first. */
  lemma GoodFcsIff(m: seq<byte>, low: byte, high: byte)
    ensures Register(m + [low, high]) == GOOD_FCS <==> [low, high] == Trailer(Crc(m))
  {
    hide Mix, Register, Crc, Trailer, LowOf, HighOf;
    RegisterTwo(m, low, high);
    MixTwoIff(Register(m), low, high);
    TrailerOf(m);
    assert [low, high] == [LowOf(Register(m)), HighOf(Register(m))] <==>
           low == LowOf(Register(m)) && high == HighOf(Register(m));
  }
}
