/** Downloading a flash programmer: the records of an Intel HEX file, gathered into write commands. */
module FlashProg {
  import opened HexRecords

  const CMD_ACK: byte := 0x02
  const CMD_GO: byte := 0x05
  const CMD_WRITE_32BIT: byte := 0x0F

  /** The single writes of data to memory from an address on. */
  function At(addr: nat, data: seq<byte>): (w: seq<(nat, byte)>)
    ensures |w| == |data|
    ensures forall k | 0 <= k < |w| :: w[k] == (addr + k, data[k])
  {
    seq(|data|, k requires 0 <= k < |data| => (addr + k, data[k]))
  }

  lemma AtBehind(addr: nat, a: seq<byte>, b: seq<byte>)
    ensures At(addr, a + b) == At(addr, a) + At(addr + |a|, b)
  {
  }

  /** The writes that the records from the i-th ask for, one record after the other. */
  function RecordWrites(recs: seq<Record>, i: nat, base: nat): seq<(nat, byte)>
    requires i <= |recs|
    decreases |recs| - i
  {
    if i == |recs| then []
    else
      match recs[i]
      case EndOfFile => []
      case Data(offset, bytes) => At(base + offset, bytes) + RecordWrites(recs, i + 1, base)
      case Segment(b) => RecordWrites(recs, i + 1, b)
      case _ => RecordWrites(recs, i + 1, base)
  }

  /** Where execution starts: at the address of the last record that gives one. */
  function GoAddress(recs: seq<Record>, i: nat, addr: nat): nat
    requires i <= |recs|
    decreases |recs| - i
  {
    if i == |recs| || recs[i] == EndOfFile then addr
    else GoAddress(recs, i + 1, if recs[i].GoTo? then recs[i].addr else addr)
  }

  /** What one write command holds; last is the record that completed it. */
  datatype Packet = Packet(addr: nat, data: seq<byte>, last: nat)

  /** What was gathered since the last command; started once a data record was seen. */
  datatype Batch = Batch(started: bool, target: nat, bytes: seq<byte>)

  function Empty(base: nat): Batch { Batch(false, base, []) }

  /** The upper half of an address, the lower cleared. */
  function High(addr: nat): (h: nat)
    ensures h <= addr
  {
    addr - addr % 0x10000
  }

  function Gather(b: Batch, offset: nat, bytes: seq<byte>): Batch {
    Batch(true, if b.started then b.target else High(b.target) + offset, b.bytes + bytes)
  }

  function Flush(b: Batch, i: nat): seq<Packet> {
    if b.bytes == [] then [] else [Packet(b.target, b.bytes, i)]
  }

  /** The packets made of a batch and the records from the i-th. */
  function Packets(recs: seq<Record>, i: nat, base: nat, b: Batch): seq<Packet>
    requires i <= |recs|
    decreases |recs| - i
  {
    if i == |recs| then Flush(b, i)
    else
      match recs[i]
      case EndOfFile => Flush(b, i)
      case Data(offset, bytes) =>
        var c := Gather(b, offset, bytes);
        if |c.bytes| >= 256 then Flush(c, i) + Packets(recs, i + 1, base, Empty(base))
        else Packets(recs, i + 1, base, c)
      case Segment(next) => Flush(b, i) + Packets(recs, i + 1, next, Empty(next))
      case _ => Packets(recs, i + 1, base, b)
  }

  function Flat(packets: seq<Packet>): seq<(nat, byte)> {
    if packets == [] then [] else At(packets[0].addr, packets[0].data) + Flat(packets[1..])
  }

  lemma FlatBehind(p: seq<Packet>, rest: seq<Packet>)
    requires |p| <= 1
    ensures Flat(p + rest) == Flat(p) + Flat(rest)
  {
    if |p| == 1 {
      assert (p + rest)[1..] == rest;
      assert Flat(p) == At(p[0].addr, p[0].data);
    } else {
      assert p + rest == rest;
    }
  }

  lemma FlatFlush(b: Batch, i: nat)
    ensures Flat(Flush(b, i)) == At(b.target, b.bytes)
  {
    if b.bytes != [] { assert Flush(b, i)[1..] == []; }
  }

  /** Segments start at multiples of 64K, as the records say them. */
  predicate Segmented(recs: seq<Record>) {
    forall i | 0 <= i < |recs| && recs[i].Segment? :: recs[i].base % 0x10000 == 0
  }

  ghost predicate Fits(base: nat, b: Batch) {
    base % 0x10000 == 0 && (!b.started ==> b.target == base && b.bytes == [])
  }

  /** Every data record that is put behind others into a batch has its place right behind them. */
  predicate Aligned(recs: seq<Record>, i: nat, base: nat, b: Batch)
    requires i <= |recs|
    decreases |recs| - i
  {
    i == |recs| ||
    match recs[i]
    case EndOfFile => true
    case Data(offset, bytes) =>
      var c := Gather(b, offset, bytes);
      && (bytes == [] || c.target + |b.bytes| == base + offset)
      && (if |c.bytes| >= 256 then Aligned(recs, i + 1, base, Empty(base)) else Aligned(recs, i + 1, base, c))
    case Segment(next) => Aligned(recs, i + 1, next, Empty(next))
    case _ => Aligned(recs, i + 1, base, b)
  }

  /** What was gathered is written first. */
  lemma {:induction false} GatheredFirst(recs: seq<Record>, i: nat, base: nat, b: Batch)
    requires i <= |recs|
    requires b.started || b.bytes == []
    ensures At(b.target, b.bytes) <= Flat(Packets(recs, i, base, b))
    decreases |recs| - i
  {
    FlatFlush(b, i);
    if i < |recs| {
      match recs[i] {
        case EndOfFile =>
        case Data(offset, bytes) =>
          var c := Gather(b, offset, bytes);
          AtBehind(c.target, b.bytes, bytes);
          FlatFlush(c, i);
          if |c.bytes| >= 256 { FlatBehind(Flush(c, i), Packets(recs, i + 1, base, Empty(base))); }
          else { GatheredFirst(recs, i + 1, base, c); }
        case Segment(next) => FlatBehind(Flush(b, i), Packets(recs, i + 1, next, Empty(next)));
        case _ => GatheredFirst(recs, i + 1, base, b);
      }
    }
  }

  lemma SamePartsIff<T>(a: seq<T>, b: seq<T>, c: seq<T>, d: seq<T>, e: seq<T>)
    requires |b| == |d|
    ensures a + b + c == a + d + e <==> b == d && c == e
  {
    if a + b + c == a + d + e {
      assert b == (a + b + c)[|a|..|a| + |b|] && d == (a + d + e)[|a|..|a| + |b|];
      assert c == (a + b + c)[|a| + |b|..] && e == (a + d + e)[|a| + |b|..];
    }
  }

  lemma SamePlaceIff(x: nat, y: nat, data: seq<byte>)
    ensures At(x, data) == At(y, data) <==> data == [] || x == y
  {
    if data != [] && At(x, data) == At(y, data) { assert At(x, data)[0] == At(y, data)[0]; }
  }

  /** One data record: its bytes are written to their place, and so on, exactly if it is that place that
      is next in the batch, and so on. */
  lemma RecordIff(b: Batch, offset: nat, bytes: seq<byte>, base: nat, rest: seq<(nat, byte)>, writes: seq<(nat, byte)>)
    requires Fits(base, b)
    ensures var c := Gather(b, offset, bytes);
            At(c.target, c.bytes) + rest == At(b.target, b.bytes) + (At(base + offset, bytes) + writes) <==>
              (bytes == [] || c.target + |b.bytes| == base + offset) && rest == writes
  {
    var c := Gather(b, offset, bytes);
    AtBehind(c.target, b.bytes, bytes);
    SamePlaceIff(c.target + |b.bytes|, base + offset, bytes);
    SamePartsIff(At(b.target, b.bytes), At(c.target + |b.bytes|, bytes), rest, At(base + offset, bytes), writes);
    assert At(b.target, b.bytes) == At(c.target, b.bytes);
    assert At(b.target, b.bytes) + (At(base + offset, bytes) + writes) ==
           At(b.target, b.bytes) + At(base + offset, bytes) + writes;
  }

  /** The packets write what the records ask for, in the same order, exactly if the records of every
      batch lie one behind the other. */
  lemma {:induction false} SameWritesIff(recs: seq<Record>, i: nat, base: nat, b: Batch)
    requires i <= |recs| && Segmented(recs) && Fits(base, b)
    ensures Flat(Packets(recs, i, base, b)) == At(b.target, b.bytes) + RecordWrites(recs, i, base) <==>
            Aligned(recs, i, base, b)
    decreases |recs| - i, 1
  {
    FlatFlush(b, i);
    if i < |recs| {
      match recs[i] {
        case EndOfFile =>
        case Data(offset, bytes) => DataIff(recs, i, base, b);
        case Segment(next) =>
          SameWritesIff(recs, i + 1, next, Empty(next));
          FlatBehind(Flush(b, i), Packets(recs, i + 1, next, Empty(next)));
          AfterIff(At(b.target, b.bytes), Flat(Packets(recs, i + 1, next, Empty(next))),
                   RecordWrites(recs, i + 1, next));
        case _ => SameWritesIff(recs, i + 1, base, b);
      }
    }
  }

  lemma AfterIff<T>(a: seq<T>, b: seq<T>, c: seq<T>)
    ensures a + b == a + c <==> b == c
  {
    if a + b == a + c { assert b == (a + b)[|a|..] && c == (a + c)[|a|..]; }
  }

  /** What follows the first part of a sequence. */
  lemma Rest<T>(all: seq<T>, a: seq<T>, c: seq<T>) returns (b: seq<T>)
    requires a <= all
    ensures all == a + b && (all == a + c <==> b == c)
  {
    b := all[|a|..];
    assert all == a + b;
    AfterIff(a, b, c);
  }

  lemma {:induction false} DataIff(recs: seq<Record>, i: nat, base: nat, b: Batch)
    requires i < |recs| && Segmented(recs) && Fits(base, b) && recs[i].Data?
    ensures Flat(Packets(recs, i, base, b)) == At(b.target, b.bytes) + RecordWrites(recs, i, base) <==>
            Aligned(recs, i, base, b)
    decreases |recs| - i, 0
  {
    var c := Gather(b, recs[i].offset, recs[i].bytes);
    if |c.bytes| >= 256 {
      SameWritesIff(recs, i + 1, base, Empty(base));
      FullIff(recs, i, base, b);
    } else {
      SameWritesIff(recs, i + 1, base, c);
      MoreIff(recs, i, base, b);
    }
  }

  lemma DataStep(recs: seq<Record>, i: nat, base: nat, b: Batch)
    requires i < |recs| && recs[i].Data?
    ensures var offset, bytes := recs[i].offset, recs[i].bytes; var c := Gather(b, offset, bytes);
            && c.started && |c.bytes| == |b.bytes| + |bytes|
            && RecordWrites(recs, i, base) == At(base + offset, bytes) + RecordWrites(recs, i + 1, base)
            && Packets(recs, i, base, b) == (if |c.bytes| >= 256
                                             then Flush(c, i) + Packets(recs, i + 1, base, Empty(base))
                                             else Packets(recs, i + 1, base, c))
            && (Aligned(recs, i, base, b) <==>
                  && (bytes == [] || c.target + |b.bytes| == base + offset)
                  && if |c.bytes| >= 256 then Aligned(recs, i + 1, base, Empty(base))
                      else Aligned(recs, i + 1, base, c))
  {
  }

  lemma FullIff(recs: seq<Record>, i: nat, base: nat, b: Batch)
    requires i < |recs| && Segmented(recs) && Fits(base, b) && recs[i].Data?
    requires var c := Gather(b, recs[i].offset, recs[i].bytes);
             && |c.bytes| >= 256
             && (Flat(Packets(recs, i + 1, base, Empty(base))) == At(base, []) + RecordWrites(recs, i + 1, base)
                 <==> Aligned(recs, i + 1, base, Empty(base)))
    ensures Flat(Packets(recs, i, base, b)) == At(b.target, b.bytes) + RecordWrites(recs, i, base) <==>
            Aligned(recs, i, base, b)
  {
    var c := Gather(b, recs[i].offset, recs[i].bytes);
    var writes := RecordWrites(recs, i + 1, base);
    var rest := Packets(recs, i + 1, base, Empty(base));
    DataStep(recs, i, base, b);
    FlatFlush(c, i);
    hide *;
    FlatBehind(Flush(c, i), rest);
    assert At(base, []) == [] && [] + writes == writes;
    RecordIff(b, recs[i].offset, recs[i].bytes, base, Flat(rest), writes);
  }

  lemma MoreIff(recs: seq<Record>, i: nat, base: nat, b: Batch)
    requires i < |recs| && Segmented(recs) && Fits(base, b) && recs[i].Data?
    requires var c := Gather(b, recs[i].offset, recs[i].bytes);
             && |c.bytes| < 256
             && (Flat(Packets(recs, i + 1, base, c)) == At(c.target, c.bytes) + RecordWrites(recs, i + 1, base)
                 <==> Aligned(recs, i + 1, base, c))
    ensures Flat(Packets(recs, i, base, b)) == At(b.target, b.bytes) + RecordWrites(recs, i, base) <==>
            Aligned(recs, i, base, b)
  {
    var c := Gather(b, recs[i].offset, recs[i].bytes);
    var writes := RecordWrites(recs, i + 1, base);
    var all := Flat(Packets(recs, i + 1, base, c));
    DataStep(recs, i, base, b);
    GatheredFirst(recs, i + 1, base, c);
    hide *;
    var rest := Rest(all, At(c.target, c.bytes), writes);
    RecordIff(b, recs[i].offset, recs[i].bytes, base, rest, writes);
  }

  /** What the format's files have: a data record that follows another of its segment lies right behind
      it. end is where the last one ended, if there was one. */
  predicate Contiguous(recs: seq<Record>, i: nat, base: nat, behind: bool, end: nat)
    requires i <= |recs|
    decreases |recs| - i
  {
    i == |recs| ||
    match recs[i]
    case EndOfFile => true
    case Data(offset, bytes) =>
      (behind ==> base + offset == end) && Contiguous(recs, i + 1, base, true, base + offset + |bytes|)
    case Segment(next) => Contiguous(recs, i + 1, next, false, 0)
    case _ => Contiguous(recs, i + 1, base, behind, end)
  }

  lemma {:induction false} ContiguousIsAligned(recs: seq<Record>, i: nat, base: nat, b: Batch, behind: bool, end: nat)
    requires i <= |recs| && Segmented(recs) && Fits(base, b)
    requires Contiguous(recs, i, base, behind, end)
    requires b.started ==> behind && b.target + |b.bytes| == end
    ensures Aligned(recs, i, base, b)
    decreases |recs| - i
  {
    if i < |recs| {
      match recs[i] {
        case EndOfFile =>
        case Data(offset, bytes) =>
          var c := Gather(b, offset, bytes);
          ContiguousIsAligned(recs, i + 1, base, if |c.bytes| >= 256 then Empty(base) else c, true,
                              base + offset + |bytes|);
        case Segment(next) => ContiguousIsAligned(recs, i + 1, next, Empty(next), false, 0);
        case _ => ContiguousIsAligned(recs, i + 1, base, b, behind, end);
      }
    }
  }

  function Bytes32(n: nat): (b: seq<byte>)
    ensures |b| == 4
  {
    Bytes16(n / 0x10000) + Bytes16(n)
  }

  function Bytes16(n: nat): (b: seq<byte>)
    ensures |b| == 2
  {
    [n / 0x100 % 256, n % 256]
  }

  lemma FieldOfBytes16(n: nat)
    ensures Field(Bytes16(n)) == n % 0x10000
  {
    FieldOf2(Bytes16(n));
    TwoDigits(n);
    hide Field;
  }

  lemma TwoDigits(n: nat)
    ensures 256 * (n / 0x100 % 256) + n % 256 == n % 0x10000
  {
  }

  lemma FieldOfBytes32(n: nat)
    requires n < 0x1_0000_0000
    ensures Field(Bytes32(n)) == n
  {
    var b := Bytes32(n);
    FieldOf4(b);
    FieldOf2(Bytes16(n / 0x10000));
    FieldOf2(Bytes16(n));
    FieldOfBytes16(n / 0x10000);
    FieldOfBytes16(n);
    hide Field, Bytes16;
  }

  /** The command that writes a packet, and the one that starts execution. */
  function WriteCommand(p: Packet): seq<byte> {
    [CMD_WRITE_32BIT] + Bytes32(p.addr) + Bytes16(|p.data|) + p.data
  }

  function GoCommand(addr: nat): seq<byte> {
    [CMD_GO] + Bytes32(addr)
  }

  /** A device reads the packet back from the command. */
  lemma CommandSays(p: Packet)
    requires p.addr < 0x1_0000_0000 && |p.data| < 0x10000
    ensures var c := WriteCommand(p);
            |c| >= 7 && c[0] == 0x0F && Field(c[1..5]) == p.addr && Field(c[5..7]) == |p.data| && c[7..] == p.data
  {
    var c := WriteCommand(p);
    FieldOfBytes32(p.addr);
    FieldOfBytes16(|p.data|);
    assert c[1..5] == Bytes32(p.addr) && c[5..7] == Bytes16(|p.data|) && c[7..] == p.data;
  }

  /** It reads the address of a start back from the other. */
  lemma GoSays(addr: nat)
    requires addr < 0x1_0000_0000
    ensures var c := GoCommand(addr); |c| == 5 && c[0] == 0x05 && Field(c[1..5]) == addr
  {
    FieldOfBytes32(addr);
    assert GoCommand(addr)[1..5] == Bytes32(addr);
  }

  /** The address given last counts. */
  lemma {:induction false} GoIsLast(recs: seq<Record>, i: nat, addr: nat, k: nat)
    requires i <= k < |recs| && recs[k].GoTo? && (forall j | i <= j < k :: recs[j] != EndOfFile)
    requires forall j | k < j < |recs| :: !recs[j].GoTo?
    ensures GoAddress(recs, i, addr) == recs[k].addr
    decreases |recs| - i
  {
    if i < k { GoIsLast(recs, i + 1, if recs[i].GoTo? then recs[i].addr else addr, k); }
    else { NoMoreGo(recs, k + 1, recs[k].addr); }
  }

  lemma {:induction false} NoMoreGo(recs: seq<Record>, i: nat, addr: nat)
    requires i <= |recs| && forall j | i <= j < |recs| :: !recs[j].GoTo?
    ensures GoAddress(recs, i, addr) == addr
    decreases |recs| - i
  {
    if i < |recs| { NoMoreGo(recs, i + 1, addr); }
  }
}
