/** Reading the batches of Dload::LoadFlashProg from a file, line by line. */
module HexBatches {
  import opened HexRecords
  import opened FlashProg

  /** Lines as fgets delivers them into 128 characters, of which the last, and no other, is the
      end-of-file record. */
  predicate Proper(lines: seq<string>) {
    && lines != []
    && (forall i | 0 <= i < |lines| :: Complete(lines[i]) && |lines[i]| < 128)
    && (forall i | 0 <= i < |lines| :: Parse(lines[i]) == EndOfFile <==> i == |lines| - 1)
  }

  function Records(lines: seq<string>): (recs: seq<Record>)
    requires Proper(lines)
    ensures |recs| == |lines|
    ensures forall i | 0 <= i < |lines| :: recs[i] == Parse(lines[i])
  {
    seq(|lines|, i requires 0 <= i < |lines| => Parse(lines[i]))
  }

  /** A text file, read with fgets into a line that stays as it was when nothing is left to read. */
  class HexFile {
    const lines: seq<string>
    const lastTerminated: bool
    var pos: nat
    var hexline: string
    var atEnd: bool

    constructor (lines: seq<string>, lastTerminated: bool)
      ensures this.lines == lines && this.lastTerminated == lastTerminated && pos == 0 && !atEnd
    {
      this.lines, this.lastTerminated, pos, hexline, atEnd := lines, lastTerminated, 0, "", false;
    }

    predicate Valid()
      reads this
    {
      && pos <= |lines| && (pos > 0 ==> hexline == lines[pos - 1]) && (atEnd ==> pos == |lines|)
      && (pos > 0 && pos == |lines| && !lastTerminated ==> atEnd)
    }

    method Fgets()
      requires Valid()
      modifies this
      ensures Valid() && (lines != [] ==> pos > 0 && hexline == lines[pos - 1])
      ensures old(pos) < |lines| ==> pos == old(pos) + 1
      ensures old(pos) < |lines| ==> (atEnd <==> pos == |lines| && !lastTerminated)
      ensures old(pos) == |lines| ==> pos == old(pos) && atEnd
    {
      if pos < |lines| {
        hexline := lines[pos];
        pos := pos + 1;
        if pos == |lines| && !lastTerminated { atEnd := true; }
      } else {
        atEnd := true;
      }
    }
  }

  /** One byte. */
  method ReadByte(hexline: string, at: nat) returns (b: byte)
    requires at + 2 <= |hexline|
    ensures b == HexByte(hexline[at], hexline[at + 1])
  {
    var bin := new byte[1](_ => 0);
    HexToByte(hexline, at, bin, 0, 1);
    assert bin[0] == bin[0..1][0] == BytesAt(hexline, at, 1)[0];
    b := bin[0];
  }

  /** A field of two or four bytes, the first the highest, read through rsp. */
  method ReadField(hexline: string, at: nat, n: nat, rsp: array<byte>) returns (value: nat)
    requires at + 2 * n <= |hexline| && rsp.Length == 32 && (n == 2 || n == 4)
    modifies rsp
    ensures value == Field(BytesAt(hexline, at, n)) && (n == 2 ==> value < 0x10000)
    ensures rsp[0] == HexByte(hexline[at], hexline[at + 1])
  {
    HexToByte(hexline, at, rsp, 0, n);
    ghost var b := BytesAt(hexline, at, n);
    assert rsp[0..n] == b && forall k | 0 <= k < n :: rsp[k] == rsp[0..n][k] == b[k];
    hide HexByte;
    if n == 2 {
      FieldOf2(b);
      value := rsp[0] as int * 256 + rsp[1] as int;
    } else {
      FieldOf4(b);
      value := ((rsp[0] as int * 256 + rsp[1] as int) * 256 + rsp[2] as int) * 256 + rsp[3] as int;
    }
  }

  lemma FieldBelow(b: seq<byte>)
    requires |b| == 2 || |b| == 4
    ensures Field(b) < if |b| == 2 then 0x10000 else 0x1_0000_0000
  {
    if |b| == 2 { FieldOf2(b); } else { FieldOf4(b); }
  }

  function Before(i: nat): nat { if i == 0 then 0 else i - 1 }

  /** What is sent from a batch and the records behind it, once the batch may be full. */
  function Rest(recs: seq<Record>, i: nat, base: nat, b: Batch): seq<Packet>
    requires i <= |recs|
  {
    if |b.bytes| >= 256 then Flush(b, Before(i)) + Packets(recs, i, base, Empty(base)) else Packets(recs, i, base, b)
  }

  /** One line: its type, or -1 for a line too short to have one; the data of a data record go to a
      place of the output, and its other fields through rsp. */
  method ReadRecord(line: string, write32: array<byte>, to: nat, rsp: array<byte>)
      returns (id: int, len: nat, offset: nat, value: nat)
    requires Complete(line) && to + 18 <= write32.Length && rsp.Length == 32 && rsp != write32
    modifies write32, rsp
    ensures forall k | 0 <= k < to :: write32[k] == old(write32[k])
    ensures id == 0 <==> Parse(line).Data?
    ensures id == 0 ==> len <= 18 && offset < 0x10000 && Parse(line) == Data(offset, write32[to..to + len])
    ensures id == 1 <==> Parse(line) == EndOfFile
    ensures id == 4 <==> Parse(line).Segment?
    ensures id == 4 ==> Parse(line) == Segment(value * 0x10000) && value < 0x10000
    ensures id == 5 <==> Parse(line).GoTo?
    ensures id == 5 ==> Parse(line) == GoTo(value)
    ensures |line| > 9 ==> rsp[0] == FirstByte(line)
  {
    id, len, offset, value := -1, 0, 0, 0;
    if |line| > 9 {
      len := ReadByte(line, 1);
      offset := ReadField(line, 3, 2, rsp);
      id := ReadByte(line, 7);
      assert rsp[0] == HexByte(line[3], line[4]);
      hide HexByte, Field;
      if id == 0 {
        HexToByte(line, 9, write32, to, len);
      } else if id == 5 {
        value := ReadField(line, 9, 4, rsp);
      } else if id == 4 {
        value := ReadField(line, 9, 2, rsp);
      }
    }
  }

  /** What is gathered: the variables of the loop that reads a batch. */
  datatype Gathering = Gathering(bFirst: bool, targetAddr: nat, bytesRead: nat, newAddr: nat, goAddr: nat)

  function BatchOf(g: Gathering, bytes: seq<byte>): Batch { Batch(!g.bFirst, g.targetAddr, bytes) }

  ghost predicate InBounds(g: Gathering) {
    && g.targetAddr < 0x1_0000_0000 && g.bytesRead <= 273
    && g.newAddr % 0x10000 == 0 && g.newAddr <= 0xFFFF_0000
  }

  datatype Turn = Turn(stop: bool, g: Gathering, bytes: seq<byte>)

  /** What one record does to the loop. */
  function TurnOf(g: Gathering, bytes: seq<byte>, rec: Record): Turn {
    match rec
    case Data(offset, more) =>
      Turn(false,
           g.(bFirst := false,
              targetAddr := if g.bFirst then High(g.targetAddr) + offset else g.targetAddr,
              bytesRead := g.bytesRead + |more|),
           bytes + more)
    case EndOfFile => Turn(true, g, bytes)
    case Segment(base) => Turn(true, g.(newAddr := base), bytes)
    case GoTo(addr) => Turn(false, g.(goAddr := addr), bytes)
    case Skipped => Turn(false, g, bytes)
  }

  /** A turn of the loop does with a record what the packets and the start address need. */
  lemma TurnIsRight(recs: seq<Record>, i: nat, g: Gathering, bytes: seq<byte>)
    requires i < |recs| && |bytes| == g.bytesRead < 256
    requires recs[i] == EndOfFile ==> i + 1 == |recs|
    ensures var t := TurnOf(g, bytes, recs[i]); var c := BatchOf(t.g, t.bytes);
            && Rest(recs, i, g.newAddr, BatchOf(g, bytes)) ==
                 (if t.stop then Flush(c, i) + Packets(recs, i + 1, t.g.newAddr, Empty(t.g.newAddr))
                  else Rest(recs, i + 1, g.newAddr, c))
            && GoAddress(recs, i, g.goAddr) == GoAddress(recs, i + 1, t.g.goAddr)
            && |t.bytes| == t.g.bytesRead && (!t.stop ==> t.g.newAddr == g.newAddr)
  {
  }

  lemma Nothing(recs: seq<Record>, base: nat, b: Batch, go: nat)
    requires b.bytes == []
    ensures Rest(recs, |recs|, base, b) == Flush(b, Before(|recs|)) + Packets(recs, |recs|, base, Empty(base))
    ensures GoAddress(recs, |recs|, go) == go
  {
  }

  lemma SegmentBounds(v: nat)
    requires v < 0x10000
    ensures v * 0x10000 % 0x10000 == 0 && v * 0x10000 <= 0xFFFF_0000
  {
  }

  lemma ParsedInBounds(line: string)
    requires Complete(line)
    ensures var rec := Parse(line);
            && (rec.Data? ==> |rec.bytes| <= 18 && rec.offset < 0x10000)
            && (rec.Segment? ==> rec.base % 0x10000 == 0 && rec.base <= 0xFFFF_0000)
            && (rec.GoTo? ==> rec.addr < 0x1_0000_0000)
  {
    if |line| > 9 {
      FieldBelow(BytesAt(line, 3, 2));
      hide HexByte, Field, BytesAt;
      if HexByte(line[7], line[8]) == 4 {
        FieldBelow(BytesAt(line, 9, 2));
        SegmentBounds(Field(BytesAt(line, 9, 2)));
      }
      if HexByte(line[7], line[8]) == 5 { FieldBelow(BytesAt(line, 9, 4)); }
    }
  }

  lemma TurnInBounds(g: Gathering, bytes: seq<byte>, rec: Record)
    requires InBounds(g) && g.bytesRead < 256
    requires rec.Data? ==> |rec.bytes| <= 18 && rec.offset < 0x10000
    requires rec.Segment? ==> rec.base % 0x10000 == 0 && rec.base <= 0xFFFF_0000
    ensures InBounds(TurnOf(g, bytes, rec).g)
  {
  }

  /** The data in the buffer, behind the room for the header. */
  ghost function Kept(write32: array<byte>, n: nat): seq<byte>
    requires 7 + n <= write32.Length
    reads write32
  {
    write32[7..7 + n]
  }

  /** What one turn does with the fields of a record. */
  method TakeRecord(g: Gathering, id: int, len: nat, offset: nat, value: nat,
                    ghost rec: Record, ghost bytes: seq<byte>, ghost more: seq<byte>)
      returns (stop: bool, h: Gathering)
    requires (id == 0 <==> rec.Data?) && (id == 0 ==> rec == Data(offset, more) && |more| == len)
    requires (id == 1 <==> rec == EndOfFile) && (id != 0 ==> more == [])
    requires (id == 4 <==> rec.Segment?) && (id == 4 ==> rec == Segment(value * 0x10000))
    requires (id == 5 <==> rec.GoTo?) && (id == 5 ==> rec == GoTo(value))
    ensures TurnOf(g, bytes, rec) == Turn(stop, h, bytes + more)
    ensures h.bytesRead == g.bytesRead + |more|
  {
    stop, h := false, g;
    if id == 0 {
      h := h.(bytesRead := g.bytesRead + len, bFirst := false);
      if g.bFirst {
        h := h.(targetAddr := High(g.targetAddr) + offset);
      }
    } else if id == 1 {
      stop := true;
    } else if id == 5 {
      h := h.(goAddr := value);
    } else if id == 4 {
      h := h.(newAddr := value * 0x10000);
      stop := true;
    }
  }

  /** One turn of the loop that reads a batch. */
  method ReadLine(line: string, write32: array<byte>, rsp: array<byte>, g: Gathering) returns (stop: bool, h: Gathering)
    requires Complete(line) && write32.Length == 280 && InBounds(g) && g.bytesRead < 256
    requires rsp.Length == 32 && rsp != write32
    modifies write32, rsp
    ensures |line| > 9 ==> rsp[0] == FirstByte(line)
    ensures InBounds(h) && h.bytesRead <= 273
    ensures write32[0] == old(write32[0])
    ensures Turn(stop, h, Kept(write32, h.bytesRead)) == TurnOf(g, old(Kept(write32, g.bytesRead)), Parse(line))
  {
    ghost var bytes, rec := Kept(write32, g.bytesRead), Parse(line);
    ParsedInBounds(line);
    TurnInBounds(g, bytes, rec);
    hide Complete, Parse, InBounds, High, FirstByte, TurnOf, Kept;
    var id, len, offset, value, more := ReadBehind(line, write32, g.bytesRead, rsp);
    stop, h := TakeRecord(g, id, len, offset, value, rec, bytes, more);
  }

  /** The data of a record are read behind what is kept. */
  method ReadBehind(line: string, write32: array<byte>, n: nat, rsp: array<byte>)
      returns (id: int, len: nat, offset: nat, value: nat, ghost more: seq<byte>)
    requires Complete(line) && write32.Length == 280 && n < 256 && rsp.Length == 32 && rsp != write32
    modifies write32, rsp
    ensures (id == 0 <==> Parse(line).Data?) && (id == 0 ==> Parse(line) == Data(offset, more) && |more| == len <= 18)
    ensures (id == 1 <==> Parse(line) == EndOfFile) && (id != 0 ==> more == [])
    ensures (id == 4 <==> Parse(line).Segment?) && (id == 4 ==> Parse(line) == Segment(value * 0x10000))
    ensures (id == 5 <==> Parse(line).GoTo?) && (id == 5 ==> Parse(line) == GoTo(value))
    ensures |line| > 9 ==> rsp[0] == FirstByte(line)
    ensures write32[0] == old(write32[0]) && Kept(write32, n + |more|) == old(Kept(write32, n)) + more
  {
    ghost var bytes := write32[7..7 + n];
    hide Complete, Parse, FirstByte;
    id, len, offset, value := ReadRecord(line, write32, 7 + n, rsp);
    more := if id == 0 then write32[7 + n..7 + n + len] else [];
    assert write32[7..7 + n] == bytes;
    assert write32[7..7 + n + |more|] == write32[7..7 + n] + more;
  }

  /** After i lines, what was gathered and what the other records give make up the start. */
  ghost predicate Collected(recs: seq<Record>, i: nat, base: nat, g: Gathering, bytes: seq<byte>, start: seq<Packet>,
                            goes: nat) {
    && i <= |recs| && |bytes| == g.bytesRead && (i == |recs| ==> bytes == []) && g.newAddr == base
    && start == Rest(recs, i, base, BatchOf(g, bytes)) && goes == GoAddress(recs, i, g.goAddr)
  }

  /** The same once the batch is complete. */
  ghost predicate Closed(recs: seq<Record>, i: nat, g: Gathering, bytes: seq<byte>, start: seq<Packet>, goes: nat) {
    && i <= |recs| && start == Flush(BatchOf(g, bytes), Before(i)) + Packets(recs, i, g.newAddr, Empty(g.newAddr))
    && goes == GoAddress(recs, i, g.goAddr)
  }

  /** A turn after i lines were read: with the next line, or with the last once more at the end. */
  lemma TurnAt(lines: seq<string>, i: nat, base: nat, g: Gathering, bytes: seq<byte>, start: seq<Packet>, goes: nat)
    requires Proper(lines) && g.bytesRead < 256 && Collected(Records(lines), i, base, g, bytes, start, goes)
    ensures var recs := Records(lines);
            var j := if i < |lines| then i + 1 else i;
            var t := TurnOf(g, bytes, Parse(lines[j - 1]));
            if t.stop then Closed(recs, j, t.g, t.bytes, start, goes)
            else i + 1 < |lines| && Collected(recs, j, base, t.g, t.bytes, start, goes)
    ensures var line := lines[if i < |lines| then i else i - 1]; var t := TurnOf(g, bytes, Parse(line));
            Complete(line) && (t.stop || t.g.bytesRead > g.bytesRead ==> |line| > 9)
  {
    var recs := Records(lines);
    if i < |lines| {
      TurnAtRecord(recs, i, base, g, bytes, start, goes);
    } else {
      assert Parse(lines[i - 1]) == EndOfFile;
      Nothing(recs, g.newAddr, BatchOf(g, bytes), g.goAddr);
    }
    hide Packets, Rest, GoAddress, Flush, Complete, Parse;
  }

  lemma TurnAtRecord(recs: seq<Record>, i: nat, base: nat, g: Gathering, bytes: seq<byte>, start: seq<Packet>,
                     goes: nat)
    requires i < |recs| && (forall k | 0 <= k < |recs| :: recs[k] == EndOfFile <==> k == |recs| - 1)
    requires g.bytesRead < 256 && Collected(recs, i, base, g, bytes, start, goes)
    ensures var t := TurnOf(g, bytes, recs[i]);
            if t.stop then Closed(recs, i + 1, t.g, t.bytes, start, goes)
            else i + 1 < |recs| && Collected(recs, i + 1, base, t.g, t.bytes, start, goes)
  {
    TurnIsRight(recs, i, g, bytes);
    hide Packets, Rest, GoAddress, Flush;
  }

  lemma StartCollecting(recs: seq<Record>, i: nat, base: nat, go: nat)
    requires i <= |recs|
    ensures Collected(recs, i, base, Gathering(true, base, 0, base, go), [], Packets(recs, i, base, Empty(base)),
                      GoAddress(recs, i, go))
  {
  }

  lemma FullIsComplete(recs: seq<Record>, i: nat, base: nat, g: Gathering, bytes: seq<byte>, start: seq<Packet>,
                       goes: nat)
    requires Collected(recs, i, base, g, bytes, start, goes) && g.bytesRead >= 256
    ensures Closed(recs, i, g, bytes, start, goes)
  {
  }

  /** The byte that a line leaves at the front of the buffer for answers. */
  function Stale(lines: seq<string>, i: nat): byte {
    if i < |lines| && Complete(lines[i]) && |lines[i]| > 9 then FirstByte(lines[i]) else 0
  }

  /** One turn of the loop that reads a batch, from the file. */
  method NextLine(file: HexFile, write32: array<byte>, rsp: array<byte>, g: Gathering,
                  ghost base: nat, ghost start: seq<Packet>, ghost goes: nat)
      returns (stop: bool, h: Gathering)
    requires file.Valid() && Proper(file.lines) && write32.Length == 280 && InBounds(g) && g.bytesRead < 256
    requires rsp.Length == 32 && rsp != write32
    requires Collected(Records(file.lines), file.pos, base, g, Kept(write32, g.bytesRead), start, goes)
    modifies file, write32, rsp
    ensures file.Valid() && InBounds(h) && h.bytesRead <= 273 && write32[0] == old(write32[0])
    ensures stop ==> Closed(Records(file.lines), file.pos, h, Kept(write32, h.bytesRead), start, goes)
    ensures !stop ==> Collected(Records(file.lines), file.pos, base, h, Kept(write32, h.bytesRead), start, goes)
    ensures !stop ==> file.pos < |file.lines|
    ensures stop || h.bytesRead >= 256 ==> rsp[0] == Stale(file.lines, Before(file.pos))
    ensures if old(file.pos) < |file.lines| then
              file.pos == old(file.pos) + 1 && (file.atEnd <==> file.pos == |file.lines| && !file.lastTerminated)
            else stop && file.pos == old(file.pos) && file.atEnd
  {
    TurnAt(file.lines, file.pos, base, g, Kept(write32, g.bytesRead), start, goes);
    assert file.lines != [];
    hide Packets, GoAddress, Parse, Complete, FirstByte, TurnOf, InBounds, Proper, Records, Collected, Closed, Kept;
    file.Fgets();
    stop, h := ReadLine(file.hexline, write32, rsp, g);
  }

  /** Reading one batch: 256 bytes or more, or up to the next segment or the end. */
  method CollectBatch(file: HexFile, write32: array<byte>, rsp: array<byte>, base: nat, go: nat) returns (g: Gathering)
    requires file.Valid() && Proper(file.lines) && write32.Length == 280 && rsp.Length == 32 && rsp != write32
    requires base % 0x10000 == 0 && base <= 0xFFFF_0000
    modifies file, write32, rsp
    ensures file.Valid() && InBounds(g) && g.bytesRead <= 273
    ensures write32[0] == old(write32[0]) && rsp[0] == Stale(file.lines, Before(file.pos))
    ensures if old(file.pos) < |file.lines| then
              file.pos > old(file.pos) && (file.atEnd <==> file.pos == |file.lines| && !file.lastTerminated)
            else file.pos == old(file.pos) && file.atEnd
    ensures Closed(Records(file.lines), file.pos, g, Kept(write32, g.bytesRead),
                   Packets(Records(file.lines), old(file.pos), base, Empty(base)),
                   GoAddress(Records(file.lines), old(file.pos), go))
  {
    ghost var recs := Records(file.lines);
    ghost var start, goes := Packets(recs, file.pos, base, Empty(base)), GoAddress(recs, file.pos, go);
    g := Gathering(true, base, 0, base, go);
    StartCollecting(recs, file.pos, base, go);
    assert Kept(write32, 0) == [] && InBounds(g);
    hide *;
    while g.bytesRead < 256
      invariant file.Valid() && InBounds(g) && g.bytesRead <= 273 && write32[0] == old(write32[0])
      invariant old(file.pos) <= file.pos <= |file.lines|
      invariant if file.pos == old(file.pos) then g.bytesRead == 0 else !file.atEnd && file.pos < |file.lines|
      invariant g.bytesRead >= 256 ==> rsp[0] == Stale(file.lines, Before(file.pos))
      invariant Collected(recs, file.pos, base, g, Kept(write32, g.bytesRead), start, goes)
      decreases |file.lines| - file.pos
    {
      var stop;
      stop, g := NextLine(file, write32, rsp, g, base, start, goes);
      if stop { return; }
    }
    FullIsComplete(recs, file.pos, base, g, Kept(write32, g.bytesRead), start, goes);
  }

  // ----- when the reading ends -----

  /** The k-th line that fgets leaves in the buffer: at the end of the file the last one again. */
  function LineFrom(lines: seq<string>, k: nat): string
    requires lines != []
  {
    if k < |lines| then lines[k] else lines[|lines| - 1]
  }

  predicate Readable(lines: seq<string>) {
    lines != [] && forall i | 0 <= i < |lines| :: Complete(lines[i])
  }

  /** The loop that reads a batch ends within n turns from the k-th line on. */
  predicate EndsWithin(lines: seq<string>, k: nat, g: Gathering, bytes: seq<byte>, n: nat)
    requires Readable(lines)
    decreases n
  {
    |bytes| >= 256 ||
    (n > 0 && var t := TurnOf(g, bytes, Parse(LineFrom(lines, k)));
     t.stop || EndsWithin(lines, k + 1, t.g, t.bytes, n - 1))
  }

  predicate Stops(rec: Record) { rec.EndOfFile? || rec.Segment? }

  /** A record that brings the loop nearer to its end. */
  predicate Moves(rec: Record) { Stops(rec) || (rec.Data? && rec.bytes != []) }

  /** How many bytes the records from the k-th on hold. */
  function DataFrom(lines: seq<string>, k: nat): nat
    requires Readable(lines)
    decreases |lines| - k
  {
    if k >= |lines| then 0
    else (if Parse(lines[k]).Data? then |Parse(lines[k]).bytes| else 0) + DataFrom(lines, k + 1)
  }

  /** A record that is no data does not add any. */
  lemma TurnFacts(g: Gathering, bytes: seq<byte>, rec: Record)
    ensures TurnOf(g, bytes, rec).stop <==> Stops(rec)
    ensures TurnOf(g, bytes, rec).bytes == bytes + if rec.Data? then rec.bytes else []
  {
  }

  /** Fed its last line again and again, the loop ends exactly if that moves it. */
  lemma {:induction false} EndsAtEndIff(lines: seq<string>, k: nat, g: Gathering, bytes: seq<byte>, n: nat)
    requires Readable(lines) && k >= |lines| - 1
    ensures |bytes| < 256 && !Moves(Parse(lines[|lines| - 1])) ==> !EndsWithin(lines, k, g, bytes, n)
    ensures Moves(Parse(lines[|lines| - 1])) && n + |bytes| >= 256 ==> EndsWithin(lines, k, g, bytes, n)
    decreases n
  {
    var rec := Parse(lines[|lines| - 1]);
    TurnFacts(g, bytes, rec);
    hide Parse, Complete, TurnOf;
    if n > 0 {
      var t := TurnOf(g, bytes, rec);
      EndsAtEndIff(lines, k + 1, t.g, t.bytes, n - 1);
    }
  }

  /** Whether the loop ends, for every file: it does exactly if the records from here on hold bytes
      enough, or one of them stops it, or the last one moves it, which comes again and again. */
  predicate CanEnd(lines: seq<string>, k: nat, size: nat)
    requires Readable(lines)
  {
    || size + DataFrom(lines, k) >= 256
    || (exists i :: k <= i < |lines| && Stops(Parse(lines[i])))
    || Moves(Parse(lines[|lines| - 1]))
  }

  ghost predicate Ends(lines: seq<string>, k: nat, g: Gathering, bytes: seq<byte>)
    requires Readable(lines)
  {
    exists n: nat :: EndsWithin(lines, k, g, bytes, n)
  }

  lemma EndsNext(lines: seq<string>, k: nat, j: nat, g: Gathering, bytes: seq<byte>)
    requires Readable(lines) && j == k + 1
    ensures var t := TurnOf(g, bytes, Parse(LineFrom(lines, k)));
            Ends(lines, k, g, bytes) <==> |bytes| >= 256 || t.stop || Ends(lines, j, t.g, t.bytes)
  {
    var t := TurnOf(g, bytes, Parse(LineFrom(lines, k)));
    hide Parse, Complete, TurnOf, LineFrom;
    if |bytes| >= 256 {
      assert EndsWithin(lines, k, g, bytes, 0);
    } else if t.stop {
      assert EndsWithin(lines, k, g, bytes, 1);
    } else {
      if Ends(lines, j, t.g, t.bytes) {
        var n: nat :| EndsWithin(lines, j, t.g, t.bytes, n);
        assert EndsWithin(lines, k, g, bytes, n + 1);
      }
      if Ends(lines, k, g, bytes) {
        var n: nat :| EndsWithin(lines, k, g, bytes, n);
        assert EndsWithin(lines, j, t.g, t.bytes, n - 1);
      }
    }
  }

  lemma CanEndNext(lines: seq<string>, k: nat, size: nat, more: nat)
    requires Readable(lines) && k < |lines|
    requires more == if Parse(lines[k]).Data? then |Parse(lines[k]).bytes| else 0
    ensures CanEnd(lines, k, size) <==> Stops(Parse(lines[k])) || CanEnd(lines, k + 1, size + more)
  {
    hide Parse, Complete;
  }

  lemma {:induction false} ReadingEndsIff(lines: seq<string>, k: nat, g: Gathering, bytes: seq<byte>)
    requires Readable(lines)
    ensures Ends(lines, k, g, bytes) <==> CanEnd(lines, k, |bytes|)
    decreases |lines| - k
  {
    if k >= |lines| {
      AtEndIff(lines, k, g, bytes);
    } else {
      var rec := Parse(lines[k]);
      var t := TurnOf(g, bytes, rec);
      TurnFacts(g, bytes, rec);
      EndsNext(lines, k, k + 1, g, bytes);
      CanEndNext(lines, k, |bytes|, if rec.Data? then |rec.bytes| else 0);
      ReadingEndsIff(lines, k + 1, t.g, t.bytes);
      FullCanEnd(lines, k, |bytes|);
      hide *;
    }
  }

  lemma FullCanEnd(lines: seq<string>, k: nat, size: nat)
    requires Readable(lines)
    ensures size >= 256 ==> CanEnd(lines, k, size)
  {
  }

  lemma AtEndIff(lines: seq<string>, k: nat, g: Gathering, bytes: seq<byte>)
    requires Readable(lines) && k >= |lines|
    ensures Ends(lines, k, g, bytes) <==> CanEnd(lines, k, |bytes|)
  {
    hide Parse, Complete;
    if |bytes| >= 256 {
      assert EndsWithin(lines, k, g, bytes, 0);
    } else {
      EndsAtEndIff(lines, k, g, bytes, 256);
      if Ends(lines, k, g, bytes) {
        var n: nat :| EndsWithin(lines, k, g, bytes, n);
        EndsAtEndIff(lines, k, g, bytes, n);
      }
    }
  }

  /** In particular, nothing ends it behind the last line if that is blank, a start address, or a data
      record without data; hence Proper files. */
  lemma LastLineLoops(lines: seq<string>, k: nat, g: Gathering, bytes: seq<byte>, n: nat)
    requires Readable(lines) && k >= |lines| - 1 && |bytes| < 256
    requires var last := Parse(lines[|lines| - 1]); last.Skipped? || last.GoTo? || (last.Data? && last.bytes == [])
    ensures !EndsWithin(lines, k, g, bytes, n)
  {
    EndsAtEndIff(lines, k, g, bytes, n);
  }
}
