/** The 32-bit checksum of a buffer: the reflected, most-significant-bit-first loop of the source
    equals the least-significant-bit-first register of section C.3 of RFC 1662. */
module Crc32 {
  import Crc16

  type byte = bv8

  // ----- the specification: LSB first, polynomial 0xEDB88320 -----

  function Shift(r: bv32): bv32 {
    if r & 1 == 1 then (r >> 1) ^ 0xEDB8_8320 else r >> 1
  }

  function Feed(r: bv32, bit: bool): bv32 {
    Shift(if bit then r ^ 1 else r)
  }

  function Serial(r: bv32, bits: seq<bool>): bv32
    decreases |bits|
  {
    if bits == [] then r else Serial(Feed(r, bits[0]), bits[1..])
  }

  /** The register after a message, and the check sequence sent with it. */
  function Register(m: seq<byte>): bv32 { Serial(0xFFFF_FFFF, Crc16.Bits(m)) }

  function Crc(m: seq<byte>): bv32 { Register(m) ^ 0xFFFF_FFFF }

  // ----- reflection -----

  /** The bits of x in the opposite order. */
  function Reversed(x: bv32): bv32 {
    var a := ((x & 0x5555_5555) << 1) | ((x >> 1) & 0x5555_5555);
    var b := ((a & 0x3333_3333) << 2) | ((a >> 2) & 0x3333_3333);
    var c := ((b & 0x0F0F_0F0F) << 4) | ((b >> 4) & 0x0F0F_0F0F);
    var d := ((c & 0x00FF_00FF) << 8) | ((c >> 8) & 0x00FF_00FF);
    (d << 16) | (d >> 16)
  }

  lemma ReversedTwice(x: bv32)
    ensures Reversed(Reversed(x)) == x
  {
  }

  function Half(d: bv32): bv32 { d >> 1 }

  function Double(h: bv32): bv32 { h << 1 }

  /** The lowest bit of d joins h at the low end. */
  function Push(h: bv32, d: bv32): bv32 { (h << 1) | (d & 1) }

  /** The n low bits of d joined to h, the lowest first. */
  function Appended(d: bv32, h: bv32, n: nat): bv32
    decreases n
  {
    if n == 0 then h else Appended(Half(d), Push(h, d), n - 1)
  }

  function Drop2(d: bv32): bv32 { d >> 2 }

  function Push2(h: bv32, d: bv32): bv32 { (h << 2) | (Reversed(d) >> 30) }

  lemma TwoSteps(d: bv32, h: bv32)
    ensures Half(Half(d)) == Drop2(d) && Push(Push(h, d), Half(d)) == Push2(h, d)
  {
  }

  lemma TwoBits(d: bv32, h: bv32, n: nat)
    ensures Appended(d, h, n + 2) == Appended(Drop2(d), Push2(h, d), n)
  {
    hide Half, Push, Drop2, Push2;
    TwoSteps(d, h);
    assert Appended(d, h, n + 2) == Appended(Half(d), Push(h, d), n + 1);
  }

  function Drop4(d: bv32): bv32 { d >> 4 }

  function Push4(h: bv32, d: bv32): bv32 { (h << 4) | (Reversed(d) >> 28) }

  lemma FourSteps(d: bv32, h: bv32)
    ensures Drop2(Drop2(d)) == Drop4(d) && Push2(Push2(h, d), Drop2(d)) == Push4(h, d)
  {
  }

  lemma FourBits(d: bv32, h: bv32, n: nat)
    ensures Appended(d, h, n + 4) == Appended(Drop4(d), Push4(h, d), n)
  {
    hide Appended, Drop2, Push2, Drop4, Push4;
    TwoBits(d, h, n + 2);
    TwoBits(Drop2(d), Push2(h, d), n);
    FourSteps(d, h);
  }

  function Drop8(d: bv32): bv32 { d >> 8 }

  function Push8(h: bv32, d: bv32): bv32 { (h << 8) | (Reversed(d) >> 24) }

  lemma EightSteps(d: bv32, h: bv32)
    ensures Drop4(Drop4(d)) == Drop8(d) && Push4(Push4(h, d), Drop4(d)) == Push8(h, d)
  {
  }

  lemma EightBits(d: bv32, h: bv32, n: nat)
    ensures Appended(d, h, n + 8) == Appended(Drop8(d), Push8(h, d), n)
  {
    hide Appended, Drop4, Push4, Drop8, Push8;
    FourBits(d, h, n + 4);
    FourBits(Drop4(d), Push4(h, d), n);
    EightSteps(d, h);
  }

  lemma ThirtyTwoSteps(d: bv32)
    ensures Push8(Push8(Push8(Push8(0, d), Drop8(d)), Drop8(Drop8(d))), Drop8(Drop8(Drop8(d)))) == Reversed(d)
    ensures Push8(0, d) == Reversed(d) >> 24
  {
  }

  /** Joining all bits is reversal; joining eight is the reversed low byte. */
  lemma AppendedIsReversed(d: bv32)
    ensures Appended(d, 0, 32) == Reversed(d)
    ensures Appended(d, 0, 8) == Reversed(d) >> 24
  {
    hide Drop8, Push8, Reversed;
    EightBits(d, 0, 24);
    EightBits(Drop8(d), Push8(0, d), 16);
    EightBits(Drop8(Drop8(d)), Push8(Push8(0, d), Drop8(d)), 8);
    EightBits(Drop8(Drop8(Drop8(d))), Push8(Push8(Push8(0, d), Drop8(d)), Drop8(Drop8(d))), 0);
    EightBits(d, 0, 0);
    ThirtyTwoSteps(d);
  }

  /** 1 << k */
  function Bit(k: nat): bv32 { if k == 0 then 1 else Double(Bit(k - 1)) }

  /** h << k */
  function Left(h: bv32, k: nat): bv32 { if k == 0 then h else Double(Left(h, k - 1)) }

  function Or(a: bv32, b: bv32): bv32 { a | b }

  predicate Low(d: bv32) { d & 1 != 0 }

  lemma DoubleOr(a: bv32, b: bv32)
    ensures Double(Or(a, b)) == Or(Double(a), Double(b))
  {
  }

  lemma PushIs(h: bv32, d: bv32)
    ensures Push(h, d) == if Low(d) then Or(Double(h), 1) else Double(h)
  {
  }

  lemma {:induction false} PutBit(h: bv32, d: bv32, k: nat)
    ensures Left(Push(h, d), k) == if Low(d) then Or(Left(h, k + 1), Bit(k)) else Left(h, k + 1)
  {
    hide Push, Or, Double, Low;
    if k == 0 {
      PushIs(h, d);
    } else {
      PutBit(h, d, k - 1);
      DoubleOr(Left(h, k), Bit(k - 1));
    }
  }

  lemma {:induction false} LeftOfZero(k: nat)
    ensures Left(0, k) == 0
  {
    if k > 0 {
      LeftOfZero(k - 1);
    }
  }

  /** The low len bits of data in the opposite order. */
  method Reflect(data: bv32, len: int) returns (ref: bv32)
    requires 0 <= len <= 32
    ensures ref == Appended(data, 0, len)
  {
    hide Push, Or, Double, Low, Half;
    LeftOfZero(len);
    ref := 0;
    var d := data;
    ghost var h: bv32 := 0;
    for i := 0 to len
      invariant Appended(d, h, len - i) == Appended(data, 0, len)
      invariant ref == Left(h, len - i)
    {
      PutBit(h, d, len - 1 - i);
      if Low(d) {
        ref := Or(ref, Bit((len - 1) - i));
      }
      h := Push(h, d);
      d := Half(d);
    }
  }

  // ----- the source's register: MSB first, polynomial 0x04C11DB7 -----

  function MsbFeed(regs: bv32, bit: bool): bv32 {
    if ((regs >> 31) & 1 == 1) != bit then (regs << 1) ^ 0x04C1_1DB7 else regs << 1
  }

  function MsbSerial(regs: bv32, bits: seq<bool>): bv32
    decreases |bits|
  {
    if bits == [] then regs else MsbSerial(MsbFeed(regs, bits[0]), bits[1..])
  }

  lemma ReversedShift(x: bv32)
    ensures Reversed(x >> 1) == Reversed(x) << 1
  {
  }

  lemma ReversedPolynomial(x: bv32)
    ensures Reversed(x ^ 0xEDB8_8320) == Reversed(x) ^ 0x04C1_1DB7
  {
  }

  lemma ReversedTop(x: bv32)
    ensures (Reversed(x) >> 31) & 1 == x & 1
  {
  }

  lemma FlippedLow(x: bv32)
    ensures (x ^ 1) >> 1 == x >> 1
    ensures (x ^ 1) & 1 == 1 <==> x & 1 != 1
  {
  }

  /** Reflection carries one register step into the other. */
  lemma FeedReversed(r: bv32, bit: bool)
    ensures Reversed(Feed(r, bit)) == MsbFeed(Reversed(r), bit)
  {
    hide Reversed;
    ReversedTop(r);
    FlippedLow(r);
    ReversedShift(r);
    ReversedPolynomial(r >> 1);
  }

  lemma {:induction false} SerialReversed(r: bv32, bits: seq<bool>)
    ensures Reversed(Serial(r, bits)) == MsbSerial(Reversed(r), bits)
    decreases |bits|
  {
    hide Reversed, Feed, MsbFeed;
    if bits != [] {
      FeedReversed(r, bits[0]);
      SerialReversed(Feed(r, bits[0]), bits[1..]);
    }
  }

  // ----- the bytes, taken most significant bit first after reflection -----

  function Top(b: byte): bool { b & 0x80 != 0 }

  function Next(b: byte): byte { b << 1 }

  function MsbBits(b: byte, n: nat): (bits: seq<bool>)
    ensures |bits| == n
    decreases n
  {
    if n == 0 then [] else [Top(b)] + MsbBits(Next(b), n - 1)
  }

  /** (unsigned char)Reflect(c, 8) */
  function Mirror(c: byte): byte { ((Reversed(c as bv32) >> 24) & 0xff) as byte }

  lemma MirrorStep(b: byte, w: bv16)
    requires Mirrors(b, w)
    ensures Top(b) == (w & 1 != 0) && Mirrors(Next(b), w >> 1)
  {
  }

  /** b holds, from its top down, the bits of w from the bottom up. */
  predicate Mirrors(b: byte, w: bv16) {
    && (b & 0x80 != 0 <==> w & 0x01 != 0) && (b & 0x40 != 0 <==> w & 0x02 != 0)
    && (b & 0x20 != 0 <==> w & 0x04 != 0) && (b & 0x10 != 0 <==> w & 0x08 != 0)
    && (b & 0x08 != 0 <==> w & 0x10 != 0) && (b & 0x04 != 0 <==> w & 0x20 != 0)
    && (b & 0x02 != 0 <==> w & 0x40 != 0) && (b & 0x01 != 0 <==> w & 0x80 != 0)
    && w < 0x100
  }

  lemma {:induction false} MirrorBits(b: byte, w: bv16, n: nat)
    requires Mirrors(b, w)
    ensures MsbBits(b, n) == Crc16.LowBits(w, n)
    decreases n
  {
    hide Mirrors, Top, Next;
    if n > 0 {
      MirrorStep(b, w);
      MirrorBits(Next(b), w >> 1, n - 1);
    }
  }

  lemma MirrorIsMirror(c: byte)
    ensures Mirrors(Mirror(c), c as bv16)
  {
  }

  lemma MirroredByte(c: byte)
    ensures MsbBits(Mirror(c), 8) == Crc16.ByteBits(c)
  {
    hide Mirrors, Mirror;
    MirrorIsMirror(c);
    MirrorBits(Mirror(c), c as bv16, 8);
  }

  lemma {:induction false} SerialAppend(r: bv32, a: seq<bool>, b: seq<bool>)
    ensures Serial(r, a + b) == Serial(Serial(r, a), b)
    decreases |a|
  {
    hide Feed;
    if a == [] {
      assert a + b == b;
    } else {
      assert (a + b)[1..] == a[1..] + b;
      SerialAppend(Feed(r, a[0]), a[1..], b);
    }
  }

  /** The inner loop: eight rounds of the MSB-first register over the reflected byte. */
  method FeedByte(r: bv32, c: byte) returns (regs: bv32)
    ensures regs == MsbSerial(r, Crc16.ByteBits(c))
  {
    hide Top, Next, Mirror, MsbFeed, Reversed;
    var reflected := Reflect(c as bv32, 8);
    AppendedIsReversed(c as bv32);
    var DataByte := (reflected & 0xff) as byte;
    MirrorOf(c);
    MirroredByte(c);
    regs := r;
    for j := 0 to 8
      invariant MsbSerial(regs, MsbBits(DataByte, 8 - j)) == MsbSerial(r, Crc16.ByteBits(c))
    {
      regs := MsbFeed(regs, Top(DataByte));
      assert MsbBits(DataByte, 8 - j)[1..] == MsbBits(Next(DataByte), 8 - j - 1);
      DataByte := Next(DataByte);
    }
  }

  lemma MirrorOf(c: byte)
    ensures Mirror(c) == ((Reversed(c as bv32) >> 24) & 0xff) as byte
  {
    hide Reversed;
  }

  /** The reflected loop computes the checksum of section C.3 of RFC 1662 for the first len bytes. */
  method CalcCRC32(buffer: seq<byte>, len: int) returns (crc: bv32)
    requires len <= |buffer|
    ensures crc == Crc(if len <= 0 then [] else buffer[..len])
  {
    AllOnes();
    hide Reversed, Register, Crc16.ByteBits, Crc16.Bits, MsbSerial;
    var regs: bv32 := 0xFFFF_FFFF;
    var i := 0;
    while i < len
      invariant 0 <= i && (len <= 0 || i <= len)
      invariant regs == Reversed(Register(if len <= 0 then [] else buffer[..i]))
    {
      RegisterNext(buffer[..i], buffer[i], buffer[..i + 1]);
      regs := FeedByte(regs, buffer[i]);
      i := i + 1;
    }
    ReversedTwice(Register(if len <= 0 then [] else buffer[..i]));
    AppendedIsReversed(regs);
    var reflected := Reflect(regs, 32);
    crc := reflected ^ 0xFFFF_FFFF;
  }

  lemma RegisterNext(m: seq<byte>, c: byte, mc: seq<byte>)
    requires mc == m + [c]
    ensures Reversed(Register(mc)) == MsbSerial(Reversed(Register(m)), Crc16.ByteBits(c))
  {
    hide Reversed, Crc16.ByteBits, MsbSerial, Serial;
    assert mc[..|m|] == m && Crc16.Bits(mc) == Crc16.Bits(m) + Crc16.ByteBits(c);
    SerialAppend(0xFFFF_FFFF, Crc16.Bits(m), Crc16.ByteBits(c));
    SerialReversed(Register(m), Crc16.ByteBits(c));
  }

  lemma AllOnes()
    ensures Reversed(Register([])) == Register([]) == 0xFFFF_FFFF
  {
  }

  // ----- the residue -----

  function Xor(x: bv32, y: bv32): bv32 { x ^ y }

  /** The complements of the n low bits of x, the lowest first. */
  function NotBits(x: bv32, n: nat): (bits: seq<bool>)
    ensures |bits| == n
    decreases n
  {
    if n == 0 then [] else [!Low(x)] + NotBits(Half(x), n - 1)
  }

  /** A register that takes n ones. */
  function Ones(c: bv32, n: nat): bv32
    decreases n
  {
    if n == 0 then c else Ones(Feed(c, true), n - 1)
  }

  /** n bits of a word taken off. */
  function Gone(x: bv32, n: nat): bv32
    decreases n
  {
    if n == 0 then x else Gone(Half(x), n - 1)
  }

  lemma FeedIs(r: bv32, bit: bool)
    ensures Feed(r, bit) == if Low(r) != bit then Xor(Half(r), 0xEDB8_8320) else Half(r)
  {
    assert (r ^ 1) >> 1 == r >> 1;
    assert (r ^ 1) & 1 == 1 <==> r & 1 != 1;
  }

  lemma LowOfXor(x: bv32, y: bv32)
    ensures Low(Xor(x, y)) <==> Low(x) != Low(y)
  {
  }

  lemma HalfOfXor(x: bv32, y: bv32)
    ensures Half(Xor(x, y)) == Xor(Half(x), Half(y))
  {
  }

  lemma XorAssoc(x: bv32, y: bv32, z: bv32)
    ensures Xor(Xor(x, y), z) == Xor(x, Xor(y, z))
  {
  }

  /** Taking the complement of its own lowest bit, a register does what another does that takes a one. */
  lemma FeedComplement(x: bv32, c: bv32)
    ensures Feed(Xor(x, c), !Low(x)) == Xor(Half(x), Feed(c, true))
  {
    hide Feed, Xor, Half, Low;
    FeedIs(Xor(x, c), !Low(x));
    FeedIs(c, true);
    LowOfXor(x, c);
    HalfOfXor(x, c);
    XorAssoc(Half(x), Half(c), 0xEDB8_8320);
  }

  lemma {:induction false} SerialComplement(x: bv32, c: bv32, n: nat)
    ensures Serial(Xor(x, c), NotBits(x, n)) == Xor(Gone(x, n), Ones(c, n))
    decreases n
  {
    hide Feed, Xor, Half, Low;
    if n > 0 {
      FeedComplement(x, c);
      SerialComplement(Half(x), Feed(c, true), n - 1);
      assert NotBits(x, n)[1..] == NotBits(Half(x), n - 1);
    }
  }

  /** The check sequence as sent: the lowest byte first. */
  function Trailer(crc: bv32): (t: seq<byte>)
    ensures |t| == 4
  {
    [LowByte(crc), LowByte(crc >> 8), LowByte(crc >> 16), LowByte(crc >> 24)]
  }

  function LowByte(x: bv32): byte { (x & 0xff) as byte }

  function Not(x: bv32): bv32 { x ^ 0xFFFF_FFFF }

  /** The eight low bits of w are those of x, complemented. */
  predicate Opposite(w: bv16, x: bv32) {
    && (w & 0x01 != 0 <==> x & 0x01 == 0) && (w & 0x02 != 0 <==> x & 0x02 == 0)
    && (w & 0x04 != 0 <==> x & 0x04 == 0) && (w & 0x08 != 0 <==> x & 0x08 == 0)
    && (w & 0x10 != 0 <==> x & 0x10 == 0) && (w & 0x20 != 0 <==> x & 0x20 == 0)
    && (w & 0x40 != 0 <==> x & 0x40 == 0) && (w & 0x80 != 0 <==> x & 0x80 == 0)
  }

  lemma OppositeBits(w: bv16, x: bv32)
    requires Opposite(w, x)
    ensures Crc16.LowBits(w, 8) == NotBits(x, 8)
  {
  }

  lemma LowByteOpposite(x: bv32)
    ensures Opposite(LowByte(Not(x)) as bv16, x)
  {
  }

  lemma ComplementByte(x: bv32)
    ensures Crc16.ByteBits(LowByte(Not(x))) == NotBits(x, 8)
  {
    hide Opposite, LowByte, Not;
    LowByteOpposite(x);
    OppositeBits(LowByte(Not(x)) as bv16, x);
  }

  lemma Gone2(x: bv32, n: nat)
    ensures Gone(x, n + 2) == Gone(Drop2(x), n)
  {
    TwoSteps(x, 0);
    hide Half, Drop2;
    assert Gone(x, n + 2) == Gone(Half(x), n + 1);
  }

  lemma Gone4(x: bv32, n: nat)
    ensures Gone(x, n + 4) == Gone(Drop4(x), n)
  {
    FourSteps(x, 0);
    hide Gone, Drop2, Drop4;
    Gone2(x, n + 2);
    Gone2(Drop2(x), n);
  }

  lemma Gone8(x: bv32)
    ensures Gone(x, 8) == Drop8(x)
  {
    EightSteps(x, 0);
    hide Drop4;
    Gone4(x, 4);
    Gone4(Drop4(x), 0);
    assert Gone(Drop8(x), 0) == Drop8(x);
    hide Gone;
  }

  /** The bytes of the check sequence, by what is left of the register. */
  lemma TrailerOf(x: bv32)
    ensures var y := Drop8(x); var z := Drop8(y); var u := Drop8(z);
            && Trailer(Not(x)) == [LowByte(Not(x)), LowByte(Not(y)), LowByte(Not(z)), LowByte(Not(u))]
            && Drop8(u) == 0
  {
    NotShifted(x);
    hide LowByte, Not, Drop8;
  }

  lemma NotShifted(x: bv32)
    ensures LowByte(Not(x) >> 8) == LowByte(Not(Drop8(x)))
    ensures LowByte(Not(x) >> 16) == LowByte(Not(Drop8(Drop8(x))))
    ensures LowByte(Not(x) >> 24) == LowByte(Not(Drop8(Drop8(Drop8(x)))))
    ensures Drop8(Drop8(Drop8(Drop8(x)))) == 0
  {
  }

  /** One byte of the check sequence. */
  lemma TakesByte(m: seq<byte>, c: bv32, x: bv32, d: bv32)
    requires Register(m) == Xor(x, c) && d == Ones(c, 8)
    ensures Register(m + [LowByte(Not(x))]) == Xor(Drop8(x), d)
  {
    var b := LowByte(Not(x));
    ComplementByte(x);
    Gone8(x);
    SerialComplement(x, c, 8);
    RegisterByte(m, b);
    hide *;
  }

  lemma RegisterByte(m: seq<byte>, b: byte)
    ensures Register(m + [b]) == Serial(Register(m), Crc16.ByteBits(b))
  {
    var mb := m + [b];
    hide Serial, Crc16.ByteBits;
    assert mb[..|m|] == m && Crc16.Bits(mb) == Crc16.Bits(m) + Crc16.ByteBits(b);
    SerialAppend(0xFFFF_FFFF, Crc16.Bits(m), Crc16.ByteBits(b));
  }

  lemma FourOnes(c: bv32, n: nat)
    ensures Ones(c, n + 4) == Ones(Feed(Feed(Feed(Feed(c, true), true), true), true), n)
  {
    hide Feed;
    assert Ones(c, n + 4) == Ones(Feed(c, true), n + 3);
    assert Ones(Feed(c, true), n + 3) == Ones(Feed(Feed(c, true), true), n + 2);
    assert Ones(Feed(Feed(c, true), true), n + 2) == Ones(Feed(Feed(Feed(c, true), true), true), n + 1);
  }

  lemma EightOnes(c: bv32, d: bv32, e: bv32)
    requires d == Feed(Feed(Feed(Feed(c, true), true), true), true)
    requires e == Feed(Feed(Feed(Feed(d, true), true), true), true)
    ensures Ones(c, 8) == e
  {
    hide Feed;
    FourOnes(c, 4);
    FourOnes(d, 0);
    assert Ones(e, 0) == e;
    hide Ones;
  }

  lemma OnesFromZero()
    ensures Ones(0, 8) == 0x2D02_EF8D && Ones(0x2D02_EF8D, 8) == 0xBE26_12FF
    ensures Ones(0xBE26_12FF, 8) == 0x00BE_2612 && Ones(0x00BE_2612, 8) == 0xDEBB_20E3
  {
    EightOnes(0, 0xBDBD_F21C, 0x2D02_EF8D);
    EightOnes(0x2D02_EF8D, 0x39BE_0E30, 0xBE26_12FF);
    EightOnes(0xBE26_12FF, 0x0BE2_612F, 0x00BE_2612);
    EightOnes(0x00BE_2612, 0x86D8_30B5, 0xDEBB_20E3);
    hide Ones;
  }

  lemma XorZero(x: bv32)
    ensures Xor(x, 0) == x && Xor(0, x) == x
  {
  }

  lemma FourMore(m: seq<byte>, a: byte, b: byte, c: byte, d: byte)
    ensures m + [a, b, c, d] == m + [a] + [b] + [c] + [d]
  {
  }

  /** Over a message and its check sequence the register always ends at 0xDEBB20E3. */
  lemma GoodFcs(m: seq<byte>)
    ensures Register(m + Trailer(Crc(m))) == 0xDEBB_20E3
  {
    TrailerOf(Register(m));
    assert Crc(m) == Not(Register(m));
    hide *;
    var x := Register(m);
    TakesTrailer(m, x, Drop8(x), Drop8(Drop8(x)), Drop8(Drop8(Drop8(x))));
  }

  lemma TakesTrailer(m: seq<byte>, x: bv32, y: bv32, z: bv32, u: bv32)
    requires x == Register(m) && y == Drop8(x) && z == Drop8(y) && u == Drop8(z) && Drop8(u) == 0
    ensures Register(m + [LowByte(Not(x)), LowByte(Not(y)), LowByte(Not(z)), LowByte(Not(u))]) == 0xDEBB_20E3
  {
    var a, b, c, d := LowByte(Not(x)), LowByte(Not(y)), LowByte(Not(z)), LowByte(Not(u));
    OnesFromZero();
    XorZero(x);
    XorZero(0xDEBB_20E3);
    hide *;
    FourMore(m, a, b, c, d);
    TakesByte(m, 0, x, 0x2D02_EF8D);
    TakesByte(m + [a], 0x2D02_EF8D, y, 0xBE26_12FF);
    TakesByte(m + [a] + [b], 0xBE26_12FF, z, 0x00BE_2612);
    TakesByte(m + [a] + [b] + [c], 0x00BE_2612, u, 0xDEBB_20E3);
  }
}
