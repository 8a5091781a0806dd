/** Intel HEX lines as they are read here, and the bytes their records put into memory. */
module HexRecords {

  type byte = x: int | 0 <= x < 256

  /** What HexToByte takes a character for. The arithmetic is that of unsigned chars. */
  function Nibble(c: char): byte {
    var v := (c as int - '0' as int) % 256;
    if v > 9 then (v - 7) % 256 else v
  }

  function HexByte(high: char, low: char): byte {
    (Nibble(high) * 16 + Nibble(low)) % 256
  }

  /** The value of a hexadecimal digit. */
  function Digit(c: char): (d: int)
    ensures -1 <= d < 16
  {
    if '0' <= c <= '9' then c as int - '0' as int
    else if 'A' <= c <= 'F' then c as int - 'A' as int + 10
    else if 'a' <= c <= 'f' then c as int - 'a' as int + 10
    else -1
  }

  lemma DigitIs(c: char)
    ensures 48 <= c as int <= 57 ==> Digit(c) == c as int - 48
    ensures 65 <= c as int <= 70 ==> Digit(c) == c as int - 55
    ensures 97 <= c as int <= 102 ==> Digit(c) == c as int - 87
  {
  }

  /** Two hexadecimal digits are read right exactly if the second is not a small letter. */
  lemma HexByteIff(high: char, low: char)
    requires Digit(high) >= 0 && Digit(low) >= 0
    ensures HexByte(high, low) == 16 * Digit(high) + Digit(low) <==> !('a' <= low <= 'f')
  {
    var h, l := Digit(high), Digit(low);
    assert Nibble(low) == if 'a' <= low <= 'f' then l + 32 else l;
    assert Nibble(high) == if 'a' <= high <= 'f' then h + 32 else h;
  }

  function Hex(d: int): (c: char)
    requires 0 <= d < 16
    ensures Digit(c) == d && !('a' <= c <= 'f')
  {
    if d < 10 then (d + '0' as int) as char else (d - 10 + 'A' as int) as char
  }

  function HexOf(b: byte): (s: string)
    ensures |s| == 2 && HexByte(s[0], s[1]) == b
  {
    HexByteIff(Hex(b / 16), Hex(b % 16));
    [Hex(b / 16), Hex(b % 16)]
  }

  /** n bytes in hexadecimal at a place in a line. */
  function BytesAt(line: string, at: nat, n: nat): (b: seq<byte>)
    requires at + 2 * n <= |line|
    ensures |b| == n
    ensures forall i | 0 <= i < n :: b[i] == HexByte(line[at + 2 * i], line[at + 2 * i + 1])
  {
    seq(n, i requires 0 <= i < n => HexByte(line[at + 2 * i], line[at + 2 * i + 1]))
  }

  /** HexToByte, at a place of the output. */
  method HexToByte(hex: string, at: nat, bin: array<byte>, to: nat, len: nat)
    requires at + 2 * len <= |hex| && to + len <= bin.Length
    modifies bin
    ensures bin[to..to + len] == BytesAt(hex, at, len)
    ensures forall i | 0 <= i < bin.Length && !(to <= i < to + len) :: bin[i] == old(bin[i])
  {
    for i := 0 to len
      invariant forall k | 0 <= k < i :: bin[to + k] == HexByte(hex[at + 2 * k], hex[at + 2 * k + 1])
      invariant forall k | 0 <= k < bin.Length && !(to <= k < to + i) :: bin[k] == old(bin[k])
    {
      var val1 := (hex[at + 2 * i] as int - '0' as int) % 256;
      var val2 := (hex[at + 2 * i + 1] as int - '0' as int) % 256;
      if val1 > 9 { val1 := (val1 - 7) % 256; }
      if val2 > 9 { val2 := (val2 - 7) % 256; }
      bin[to + i] := (val1 * 16 + val2) % 256;
    }
  }

  datatype Record =
    | Data(offset: nat, bytes: seq<byte>)
    | EndOfFile
    | Segment(base: nat)    // the upper half of the addresses that follow
    | GoTo(addr: nat)       // where execution starts
    | Skipped               // other types, and lines too short for a record

  function Field(b: seq<byte>): (n: nat)
  {
    if b == [] then 0 else 256 * Field(b[..|b| - 1]) + b[|b| - 1]
  }

  lemma FieldOf2(b: seq<byte>)
    requires |b| == 2
    ensures Field(b) == 256 * b[0] as int + b[1] as int
  {
    assert b[..1][..0] == [] && Field(b[..1]) == b[0];
  }

  lemma FieldOf4(b: seq<byte>)
    requires |b| == 4
    ensures Field(b) == 256 * (256 * (256 * b[0] as int + b[1] as int) + b[2] as int) + b[3] as int
  {
    FieldOf2(b[..2]);
    assert b[..3][..2] == b[..2];
    assert Field(b[..3]) == 256 * Field(b[..2]) + b[2] as int;
  }

  /** A line whose digits are all there, as long as its length and type say. */
  predicate Complete(line: string) {
    |line| <= 9 ||
    var len, id := HexByte(line[1], line[2]), HexByte(line[7], line[8]);
    match id
    case 0 => 9 + 2 * len <= |line| && len <= 18
    case 4 => 9 + 4 <= |line|
    case 5 => 9 + 8 <= |line|
    case _ => true
  }

  /** What a line says. */
  function Parse(line: string): Record
    requires Complete(line)
  {
    if |line| <= 9 then Skipped
    else
      match HexByte(line[7], line[8])
      case 0 => Data(Field(BytesAt(line, 3, 2)), BytesAt(line, 9, HexByte(line[1], line[2])))
      case 1 => EndOfFile
      case 4 => Segment(Field(BytesAt(line, 9, 2)) * 0x10000)
      case 5 => GoTo(Field(BytesAt(line, 9, 4)))
      case _ => Skipped
  }

  function HexSeq(b: seq<byte>): (s: string)
    ensures |s| == 2 * |b|
    ensures forall i | 0 <= i < |b| :: HexByte(s[2 * i], s[2 * i + 1]) == b[i]
  {
    if b == [] then [] else HexSeq(b[..|b| - 1]) + HexOf(b[|b| - 1])
  }

  /** A line as the Intel HEX format has it, with capital letters: the length, the offset, the type and
      the data in hexadecimal, then whatever follows (checksum and line end). */
  function Line(offset: seq<byte>, id: byte, data: seq<byte>, rest: string): string
    requires |offset| == 2 && |data| < 256
  {
    ":" + HexSeq(AllBytes(offset, id, data)) + rest
  }

  /** The bytes of a line, wherever they stand in it. */
  predicate Written(all: seq<byte>, rest: string, line: string) {
    line == ":" + HexSeq(all) + rest
  }

  lemma LineBytes(all: seq<byte>, rest: string, i: nat, n: nat, line: string, at: nat)
    requires i + n <= |all| && Written(all, rest, line) && at == 1 + 2 * i && at + 2 * n <= |line|
    ensures BytesAt(line, at, n) == all[i..i + n]
  {
    var b := BytesAt(line, at, n);
    hide *;
    forall k | 0 <= k < n ensures b[k] == all[i + k] {
      LineByte(all, rest, i + k, line, at + 2 * k);
    }
    Piece(b, all, i);
  }

  lemma Piece<T>(b: seq<T>, all: seq<T>, i: nat)
    requires i + |b| <= |all| && forall k | 0 <= k < |b| :: b[k] == all[i + k]
    ensures b == all[i..i + |b|]
  {
  }

  lemma LineByte(all: seq<byte>, rest: string, j: nat, line: string, p: nat)
    requires j < |all| && Written(all, rest, line) && p == 1 + 2 * j && p + 1 < |line|
    ensures HexByte(line[p], line[p + 1]) == all[j]
  {
    var hex := HexSeq(all);
    hide HexByte, HexSeq;
    assert line[p] == hex[2 * j] && line[p + 1] == hex[2 * j + 1];
  }

  lemma LineFields(offset: seq<byte>, id: byte, data: seq<byte>, rest: string, line: string)
    requires |offset| == 2 && |data| <= 18 && line == Line(offset, id, data, rest)
    ensures |line| == 9 + 2 * |data| + |rest|
    ensures HexByte(line[1], line[2]) == |data| && HexByte(line[7], line[8]) == id
    ensures BytesAt(line, 3, 2) == offset && BytesAt(line, 9, |data|) == data
  {
    var all := AllBytes(offset, id, data);
    assert Written(all, rest, line);
    hide *;
    AllBytesAre(offset, id, data);
    LineBytes(all, rest, 1, 2, line, 3);
    LineBytes(all, rest, 4, |data|, line, 9);
    LineByte(all, rest, 0, line, 1);
    LineByte(all, rest, 3, line, 7);
  }

  function AllBytes(offset: seq<byte>, id: byte, data: seq<byte>): (all: seq<byte>)
    requires |offset| == 2 && |data| < 256
    ensures |all| == 4 + |data|
  {
    [|data|] + offset + [id] + data
  }

  lemma AllBytesAre(offset: seq<byte>, id: byte, data: seq<byte>)
    requires |offset| == 2 && |data| < 256
    ensures var all := AllBytes(offset, id, data);
            all[0] == |data| && all[1..3] == offset && all[3] == id && all[4..4 + |data|] == data
  {
  }

  /** Such lines are read as what they are. */
  lemma ParseLine(offset: seq<byte>, id: byte, data: seq<byte>, rest: string)
    requires |offset| == 2 && |data| <= 18 && rest != []
    requires (id == 4 ==> |data| == 2) && (id == 5 ==> |data| == 4)
    ensures Complete(Line(offset, id, data, rest))
    ensures Parse(Line(offset, id, data, rest)) ==
            match id
            case 0 => Data(Field(offset), data)
            case 1 => EndOfFile
            case 4 => Segment(Field(data) * 0x10000)
            case 5 => GoTo(Field(data))
            case _ => Skipped
  {
    LineFields(offset, id, data, rest, Line(offset, id, data, rest));
    hide HexByte, BytesAt, Line, Field;
  }

  /** The first byte left in the buffer for answers after a record was read: the upper address byte of
      a record that gives one, else the upper byte of the offset. */
  function FirstByte(line: string): byte
    requires Complete(line) && |line| > 9
  {
    var id := HexByte(line[7], line[8]);
    if id == 4 || id == 5 then HexByte(line[9], line[10]) else HexByte(line[3], line[4])
  }

  /** What that byte is, by record. */
  lemma FirstByteOf(line: string)
    requires Complete(line) && |line| > 9
    ensures Parse(line).Data? ==> FirstByte(line) == Parse(line).offset / 0x100
    ensures Parse(line).Segment? ==> FirstByte(line) == Parse(line).base / 0x100_0000
    ensures Parse(line).EndOfFile? ==> FirstByte(line) == HexByte(line[3], line[4])
  {
    FieldOf2(BytesAt(line, 3, 2));
    if Parse(line).Segment? { FieldOf2(BytesAt(line, 9, 2)); }
    hide HexByte, Field;
  }
}
