/** Programming a sparse image: chunk after chunk, what a chunk does not hold being skipped on the disk. */
module Sparse {
  type byte = x: int | 0 <= x < 256

  const SPARSE_RAW_CHUNK: nat := 0xCAC1
  const SPARSE_FILL_CHUNK: nat := 0xCAC2
  const SPARSE_DONT_CARE: nat := 0xCAC3
  const ERROR_INVALID_DATA: int := -10
  const U32: nat := 0x1_0000_0000

  /** A chunk of so many blocks: with its data, without any, or of a type nobody knows. */
  datatype Chunk = Raw(blocks: nat, data: seq<byte>) | DontCare(blocks: nat) | Unknown(kind: nat, blocks: nat)

  function TypeOf(c: Chunk): nat {
    match c
    case Raw(_, _) => SPARSE_RAW_CHUNK
    case DontCare(_) => SPARSE_DONT_CARE
    case Unknown(t, _) => t
  }

  function DataOf(c: Chunk): seq<byte> {
    if c.Raw? then c.data else []
  }

  /** A chunk fits its image: its size does not overflow, its data are all there, and it is no fill. */
  predicate Fits(c: Chunk, blockSize: nat) {
    && c.blocks * blockSize < U32 && c.blocks < U32
    && (c.Raw? ==> |c.data| == c.blocks * blockSize)
    && (c.Unknown? ==>
          && c.kind < 0x10000 && c.kind != SPARSE_RAW_CHUNK && c.kind != SPARSE_FILL_CHUNK
          && c.kind != SPARSE_DONT_CARE)
  }

  /** The low n bytes of a number, the lowest first, and back. */
  function LittleEndian(x: nat, n: nat): (b: seq<byte>)
    ensures |b| == n
  {
    if n == 0 then [] else [x % 256] + LittleEndian(x / 256, n - 1)
  }

  function FromLittleEndian(b: seq<byte>): nat {
    if b == [] then 0 else b[0] + 256 * FromLittleEndian(b[1..])
  }

  function Pow256(n: nat): nat { if n == 0 then 1 else 256 * Pow256(n - 1) }

  lemma {:induction false} LittleEndianRoundTrip(x: nat, n: nat)
    requires x < Pow256(n)
    ensures FromLittleEndian(LittleEndian(x, n)) == x
  {
    if n > 0 {
      LittleEndianRoundTrip(x / 256, n - 1);
      assert LittleEndian(x, n)[1..] == LittleEndian(x / 256, n - 1);
    }
  }

  /** A chunk in the file: type, a reserved field, its size in blocks and its length, then the data. */
  function Encode(c: Chunk): (b: seq<byte>)
    ensures |b| == 12 + |DataOf(c)|
  {
    LittleEndian(TypeOf(c), 2) + LittleEndian(0, 2) + LittleEndian(c.blocks, 4) + LittleEndian(12 + |DataOf(c)|, 4)
        + DataOf(c)
  }

  lemma HeaderOf(c: Chunk, blockSize: nat, rest: seq<byte>)
    requires Fits(c, blockSize)
    ensures var b := Encode(c) + rest;
            && FromLittleEndian(b[..12][..2]) == TypeOf(c) && FromLittleEndian(b[..12][4..8]) == c.blocks
            && b[12..] == DataOf(c) + rest
  {
    var t, z, n, l := LittleEndian(TypeOf(c), 2), LittleEndian(0, 2), LittleEndian(c.blocks, 4),
        LittleEndian(12 + |DataOf(c)|, 4);
    FieldsOf(t, z, n, l, DataOf(c), rest);
    assert Pow256(2) == 0x10000 && Pow256(4) == 0x1_0000_0000;
    hide LittleEndian, FromLittleEndian, Pow256;
    LittleEndianRoundTrip(TypeOf(c), 2);
    LittleEndianRoundTrip(c.blocks, 4);
  }

  function Sum(a: int, b: int, c: int, d: int): int { a + 0x100 * b + 0x1_0000 * c + 0x100_0000 * d }

  /** The bytes of a header, one by one. */
  lemma HeaderBytes(c: Chunk)
    ensures var b := Encode(c);
            && (c.Raw? ==> b[0] == 0xC1 && b[1] == 0xCA)
            && (c.DontCare? ==> b[0] == 0xC3 && b[1] == 0xCA)
            && (c.Unknown? ==>
                  forall size: nat | Fits(c, size) :: c.kind != 0xCAC1 && c.kind != 0xCAC2 && c.kind != 0xCAC3)
            && (c.Unknown? && c.kind < 0x10000 ==> Sum(b[0], b[1], 0, 0) == c.kind)
            && b[2] == b[3] == 0
            && (c.blocks < U32 ==> Sum(b[4], b[5], b[6], b[7]) == c.blocks)
            && (|DataOf(c)| < U32 - 12 ==> Sum(b[8], b[9], b[10], b[11]) == 12 + |DataOf(c)|)
  {
    TwoBytes(TypeOf(c));
    TwoBytes(0);
    if c.blocks < U32 { FourBytes(c.blocks); }
    if |DataOf(c)| < U32 - 12 { FourBytes(12 + |DataOf(c)|); }
    hide LittleEndian;
  }

  lemma TwoBytes(x: nat)
    ensures var b := LittleEndian(x, 2); b[0] == x % 256 && b[1] == x / 256 % 256
  {
    assert LittleEndian(x, 2) == [x % 256] + LittleEndian(x / 256, 1);
    assert LittleEndian(x / 256, 1) == [x / 256 % 256] + LittleEndian(x / 256 / 256, 0);
  }

  lemma FourBytes(x: nat)
    requires x < U32
    ensures var b := LittleEndian(x, 4); Sum(b[0], b[1], b[2], b[3]) == x
  {
    var y := x / 256;
    var z := y / 256;
    assert LittleEndian(x, 4) == [x % 256] + ([y % 256] + LittleEndian(z, 2));
    TwoBytes(z);
    hide LittleEndian;
  }

  lemma FieldsOf(t: seq<byte>, z: seq<byte>, n: seq<byte>, l: seq<byte>, data: seq<byte>, rest: seq<byte>)
    requires |t| == 2 && |z| == 2 && |n| == 4 && |l| == 4
    ensures var b := (t + z + n + l + data) + rest; b[..12][..2] == t && b[..12][4..8] == n && b[12..] == data + rest
  {
    var head, b := t + z + n + l, (t + z + n + l + data) + rest;
    assert b == head + (data + rest);
    assert b[..12] == head && head[..2] == t && head[4..8] == n;
  }

  function EncodeAll(chunks: seq<Chunk>): seq<byte> {
    if chunks == [] then [] else Encode(chunks[0]) + EncodeAll(chunks[1..])
  }

  // ----- what programming an image comes to -----

  type Contents = map<int, byte>

  function WriteAt(m: Contents, offset: int, data: seq<byte>): Contents
    decreases |data|
  {
    if data == [] then m else WriteAt(m[offset := data[0]], offset + 1, data[1..])
  }

  datatype Write = Write(offset: int, size: nat)

  /** How far the image is programmed: whether the loop broke off, what is returned, the offset, the disk,
      and the writes to it. */
  datatype Outcome = Outcome(stopped: bool, status: int, offset: int, contents: Contents, writes: seq<Write>)

  function Begin(start: int, was: Contents, writes: seq<Write>): Outcome {
    Outcome(false, 0, start, was, writes)
  }

  /** The chunks from the first on, as ProgramImage takes them: a read of no bytes counts as failed, and
      what is returned then is whatever errno holds. */
  function Program(chunks: seq<Chunk>, blockSize: nat, errno: int, so: Outcome): Outcome
    decreases |chunks|
  {
    if chunks == [] || so.stopped then so
    else Program(chunks[1..], blockSize, errno, ProgramChunk(chunks[0], blockSize, errno, so))
  }

  function ProgramChunk(c: Chunk, blockSize: nat, errno: int, so: Outcome): Outcome {
    match c
    case Raw(_, data) =>
      if data == [] then so.(stopped := true, status := errno)
      else so.(offset := so.offset + |data|, contents := WriteAt(so.contents, so.offset, data),
               writes := so.writes + [Write(so.offset, |data|)])
    case DontCare(blocks) => so.(offset := so.offset + blocks * blockSize)
    case Unknown(_, _) => so.(stopped := true, status := ERROR_INVALID_DATA)
  }

  // ----- what the image means -----

  datatype Cell = Kept | Set(value: byte)

  /** The image spread out: for every byte of it, whether it is given. */
  function Layout(chunks: seq<Chunk>, blockSize: nat): seq<Cell> {
    if chunks == [] then []
    else
      (match chunks[0]
       case Raw(_, data) => Given(data)
       case _ => Gap(chunks[0].blocks * blockSize)) + Layout(chunks[1..], blockSize)
  }

  function Given(data: seq<byte>): (cells: seq<Cell>)
    ensures |cells| == |data| && forall i | 0 <= i < |data| :: cells[i] == Set(data[i])
  {
    seq(|data|, i requires 0 <= i < |data| => Set(data[i]))
  }

  function Gap(n: nat): (cells: seq<Cell>)
    ensures |cells| == n && forall i | 0 <= i < n :: cells[i] == Kept
  {
    seq(n, _ => Kept)
  }

  /** now is the old contents with the layout put over it at an offset. */
  ghost predicate Overlaid(now: Contents, was: Contents, offset: int, cells: seq<Cell>) {
    forall a: int ::
      if offset <= a < offset + |cells| && cells[a - offset].Set? then a in now && now[a] == cells[a - offset].value
      else (a in now <==> a in was) && (a in was ==> now[a] == was[a])
  }

  lemma GivenOne(m: Contents, offset: int, first: byte, data: seq<byte>)
    requires data != [] && first == data[0]
    ensures Overlaid(m[offset := first], m, offset, Given([first])) && |Given([first])| == 1
    ensures Given(data) == Given([first]) + Given(data[1..])
  {
  }

  lemma {:induction false} WriteAtOverlays(m: Contents, offset: int, data: seq<byte>)
    ensures Overlaid(WriteAt(m, offset, data), m, offset, Given(data))
    decreases |data|
  {
    if data != [] {
      var mid := m[offset := data[0]];
      WriteAtOverlays(mid, offset + 1, data[1..]);
      assert WriteAt(m, offset, data) == WriteAt(mid, offset + 1, data[1..]);
      GivenOne(m, offset, data[0], data);
      hide *;
      OverlaidTwice(WriteAt(m, offset, data), mid, m, offset, Given([data[0]]), offset + 1, Given(data[1..]));
    }
  }

  lemma OverlaidTwice(now: Contents, mid: Contents, was: Contents, offset: int, a: seq<Cell>, next: int, b: seq<Cell>)
    requires Overlaid(mid, was, offset, a) && next == offset + |a| && Overlaid(now, mid, next, b)
    ensures Overlaid(now, was, offset, a + b)
  {
    forall k: int ensures if offset <= k < offset + |a + b| && (a + b)[k - offset].Set?
        then k in now && now[k] == (a + b)[k - offset].value
        else (k in now <==> k in was) && (k in was ==> now[k] == was[k]) {
      if offset <= k < offset + |a| { assert (a + b)[k - offset] == a[k - offset]; }
      else if offset + |a| <= k < offset + |a + b| { assert (a + b)[k - offset] == b[k - offset - |a|]; }
    }
  }

  function Blocks(chunks: seq<Chunk>): nat {
    if chunks == [] then 0 else chunks[0].blocks + Blocks(chunks[1..])
  }

  /** Chunks that are taken: of known types, and none with data that are empty. */
  predicate Plain(c: Chunk) { !c.Unknown? && (c.Raw? ==> c.data != []) }

  /** How many chunks are taken before the first that is not. */
  function Taken(chunks: seq<Chunk>): (n: nat)
    ensures n <= |chunks| && (forall i | 0 <= i < n :: Plain(chunks[i])) && (n < |chunks| ==> !Plain(chunks[n]))
  {
    if chunks == [] || !Plain(chunks[0]) then 0 else 1 + Taken(chunks[1..])
  }

  lemma {:induction false} LayoutSize(chunks: seq<Chunk>, blockSize: nat)
    requires forall i | 0 <= i < |chunks| :: Fits(chunks[i], blockSize)
    ensures |Layout(chunks, blockSize)| == Blocks(chunks) * blockSize
  {
    if chunks != [] {
      LayoutSize(chunks[1..], blockSize);
      assert (chunks[0].blocks + Blocks(chunks[1..])) * blockSize ==
             chunks[0].blocks * blockSize + Blocks(chunks[1..]) * blockSize;
    }
  }

  lemma ChunkOverlays(c: Chunk, blockSize: nat, errno: int, so: Outcome, rest: seq<Chunk>)
    requires !so.stopped && Fits(c, blockSize) && Plain(c)
    ensures var next := ProgramChunk(c, blockSize, errno, so);
            && !next.stopped && next.status == so.status && next.offset == so.offset + |Layout([c], blockSize)|
            && Overlaid(next.contents, so.contents, so.offset, Layout([c], blockSize))
    ensures Layout([c] + rest, blockSize) == Layout([c], blockSize) + Layout(rest, blockSize)
  {
    if c.Raw? { WriteAtOverlays(so.contents, so.offset, c.data); }
    assert ([c] + rest)[1..] == rest && [c][1..] == [];
  }

  /** What stops the loop, and with what, if anything does. */
  function StatusOf(chunks: seq<Chunk>, errno: int): int {
    var n := Taken(chunks);
    if n == |chunks| then 0 else if chunks[n].Raw? then errno else ERROR_INVALID_DATA
  }

  lemma TakenStep(chunks: seq<Chunk>, errno: int)
    requires chunks != [] && Plain(chunks[0])
    ensures Taken(chunks) == Taken(chunks[1..]) + 1 && StatusOf(chunks, errno) == StatusOf(chunks[1..], errno)
    ensures chunks[..Taken(chunks)] == [chunks[0]] + chunks[1..][..Taken(chunks) - 1]
  {
  }

  /** In every image, the chunks before the first that is empty or of unknown type are put on the disk
      where they belong, and nothing else is changed. */
  lemma {:induction false} ProgramsTaken(chunks: seq<Chunk>, blockSize: nat, errno: int, so: Outcome)
    requires !so.stopped && so.status == 0 && forall i | 0 <= i < |chunks| :: Fits(chunks[i], blockSize)
    ensures var n := Taken(chunks); var out := Program(chunks, blockSize, errno, so);
            && Overlaid(out.contents, so.contents, so.offset, Layout(chunks[..n], blockSize))
            && out.offset == so.offset + |Layout(chunks[..n], blockSize)|
            && (out.stopped <==> n < |chunks|) && out.status == StatusOf(chunks, errno)
    decreases |chunks|
  {
    var n, out := Taken(chunks), Program(chunks, blockSize, errno, so);
    if chunks != [] && Plain(chunks[0]) {
      var next := ProgramChunk(chunks[0], blockSize, errno, so);
      var rest := chunks[1..][..n - 1];
      TakenStep(chunks, errno);
      ChunkOverlays(chunks[0], blockSize, errno, so, rest);
      assert out == Program(chunks[1..], blockSize, errno, next);
      hide *;
      ProgramsTaken(chunks[1..], blockSize, errno, next);
      OverlaidTwice(out.contents, next.contents, so.contents, so.offset, Layout([chunks[0]], blockSize), next.offset,
                    Layout(rest, blockSize));
    }
  }

  /** So no two writes of a run overlap, and none is empty or lies beyond where it stands then. */
  lemma WritesApart(chunks: seq<Chunk>, blockSize: nat, errno: int, was: Contents, start: int, i: nat, j: nat)
    requires i <= j < |Program(chunks, blockSize, errno, Begin(start, was, [])).writes|
    ensures var out := Program(chunks, blockSize, errno, Begin(start, was, []));
            var w, x := out.writes[i], out.writes[j];
            && w.size > 0 && w.offset + w.size <= out.offset
            && (i < j ==> w.offset + w.size <= x.offset)
  {
    WritesIncrease(chunks, blockSize, errno, Begin(start, was, []));
    hide Program;
  }

  predicate Increasing(ws: seq<Write>, end: int) {
    && (forall i | 0 <= i < |ws| :: 0 < ws[i].size && ws[i].offset + ws[i].size <= end)
    && (forall i, j | 0 <= i < j < |ws| :: ws[i].offset + ws[i].size <= ws[j].offset)
  }

  lemma WriteIncreases(c: Chunk, blockSize: nat, errno: int, so: Outcome)
    requires Increasing(so.writes, so.offset)
    ensures var next := ProgramChunk(c, blockSize, errno, so);
            Increasing(next.writes, next.offset) && so.writes <= next.writes
  {
    hide WriteAt;
  }

  /** The writes lie one behind the other, without overlapping, none of them empty. */
  lemma {:induction false} WritesIncrease(chunks: seq<Chunk>, blockSize: nat, errno: int, so: Outcome)
    requires Increasing(so.writes, so.offset)
    ensures var out := Program(chunks, blockSize, errno, so);
            Increasing(out.writes, out.offset) && so.writes <= out.writes
    decreases |chunks|
  {
    if chunks != [] && !so.stopped {
      WriteIncreases(chunks[0], blockSize, errno, so);
      hide ProgramChunk, Increasing;
      WritesIncrease(chunks[1..], blockSize, errno, ProgramChunk(chunks[0], blockSize, errno, so));
    }
  }

  /** An image is programmed as a whole exactly if no chunk is of unknown type or raw and empty; then the
      disk is the old one with the image laid over it, the offset has moved by all its blocks, and what is
      returned is 0. */
  lemma ProgrammedIff(chunks: seq<Chunk>, blockSize: nat, errno: int, was: Contents, start: int)
    requires forall i | 0 <= i < |chunks| :: Fits(chunks[i], blockSize)
    ensures var out := Program(chunks, blockSize, errno, Begin(start, was, []));
            && (!out.stopped <==> forall i | 0 <= i < |chunks| :: Plain(chunks[i]))
            && Increasing(out.writes, out.offset)
            && (!out.stopped ==> && Overlaid(out.contents, was, start, Layout(chunks, blockSize))
                                 && out.offset == start + Blocks(chunks) * blockSize && out.status == 0)
  {
    var so := Begin(start, was, []);
    ProgramsTaken(chunks, blockSize, errno, so);
    WritesIncrease(chunks, blockSize, errno, so);
    LayoutSize(chunks, blockSize);
    assert chunks[..|chunks|] == chunks;
  }

  /** A returned 0 says that the loop took every chunk, exactly if it was not an empty raw chunk that
      stopped it while errno was 0. */
  lemma ZeroMeansAllIff(chunks: seq<Chunk>, blockSize: nat, errno: int, was: Contents, start: int)
    requires forall i | 0 <= i < |chunks| :: Fits(chunks[i], blockSize)
    ensures var out := Program(chunks, blockSize, errno, Begin(start, was, [])); var n := Taken(chunks);
            && ((out.status == 0 ==> !out.stopped) <==> (n == |chunks| || chunks[n].Unknown? || errno != 0))
            && out.status == if n == |chunks| then 0 else if chunks[n].Unknown? then -10 else errno
  {
    ProgramsTaken(chunks, blockSize, errno, Begin(start, was, []));
  }

  /** For one: an image of an empty raw chunk and a byte returns 0 with nothing written. */
  lemma EmptyChunkLosesRest(was: Contents, b: byte)
    ensures var chunks := [Raw(0, []), Raw(1, [b])];
            && (forall i | 0 <= i < |chunks| :: Fits(chunks[i], 1))
            && Program(chunks, 1, 0, Begin(0, was, [])) == Outcome(true, 0, 0, was, [])
  {
    var chunks := [Raw(0, []), Raw(1, [b])];
    assert ProgramChunk(chunks[0], 1, 0, Begin(0, was, [])) == Outcome(true, 0, 0, was, []);
  }

  // ----- the program -----

  class ImageFile {
    const content: seq<byte>
    var pos: nat

    constructor (content: seq<byte>)
      ensures this.content == content && pos == 0
    {
      this.content, pos := content, 0;
    }

    ghost predicate Valid()
      reads this
    {
      pos <= |content|
    }

    /** emmcdl_read: as many bytes as there are, up to what was asked for. */
    method Read(n: nat) returns (data: seq<byte>)
      requires Valid()
      modifies this
      ensures Valid() && pos == old(pos) + |data| && data == content[old(pos)..pos]
      ensures |data| == if n <= |content| - old(pos) then n else |content| - old(pos)
    {
      var k := if n <= |content| - pos then n else |content| - pos;
      data := content[pos..pos + k];
      pos := pos + k;
    }
  }

  class Protocol {
    var contents: Contents
    ghost var writes: seq<Write>

    constructor (contents: Contents)
      ensures this.contents == contents && writes == []
    {
      this.contents, writes := contents, [];
    }

    /** WriteData, on a disk that takes everything. */
    method WriteData(data: seq<byte>, offset: int)
      modifies this
      ensures contents == WriteAt(old(contents), offset, data)
      ensures writes == old(writes) + [Write(offset, |data|)]
    {
      contents := WriteAt(contents, offset, data);
      writes := writes + [Write(offset, |data|)];
    }
  }

  /** Reading on in a file. */
  lemma ReadOn(content: seq<byte>, pos: nat, n: nat)
    requires pos + n <= |content|
    ensures content[pos..pos + n] == content[pos..][..n] && content[pos + n..] == content[pos..][n..]
  {
  }

  /** The header of a chunk is read. */
  method ReadHeader(file: ImageFile, ghost c: Chunk, ghost blockSize: nat, ghost rest: seq<byte>)
      returns (n: nat, chunkType: nat, chunkSize: nat)
    requires file.Valid() && file.content[file.pos..] == Encode(c) + rest && Fits(c, blockSize)
    modifies file
    ensures file.Valid() && file.content[file.pos..] == DataOf(c) + rest
    ensures n == 12 && chunkType == TypeOf(c) && chunkSize == c.blocks
  {
    HeaderOf(c, blockSize, rest);
    hide FromLittleEndian, Encode;
    ReadOn(file.content, file.pos, 12);
    var header := file.Read(12);
    n, chunkType, chunkSize := |header|, FromLittleEndian(header[..2]), FromLittleEndian(header[4..8]);
  }

  /** The data of a chunk are read. */
  method ReadChunkData(file: ImageFile, size: nat, ghost data: seq<byte>, ghost rest: seq<byte>)
      returns (bpDataBuf: seq<byte>)
    requires file.Valid() && file.content[file.pos..] == data + rest && size == |data|
    modifies file
    ensures file.Valid() && file.content[file.pos..] == rest && bpDataBuf == data
  {
    ReadOn(file.content, file.pos, size);
    assert (data + rest)[..size] == data && (data + rest)[size..] == rest;
    bpDataBuf := file.Read(size);
  }

  /** One turn of the loop: a chunk header, and the data of a raw chunk. */
  method ProgramNext(file: ImageFile, pProtocol: Protocol, blockSize: nat, errno: int, dwOffset: int,
                     ghost c: Chunk, ghost rest: seq<byte>)
      returns (stopped: bool, status: int, newOffset: int)
    requires file.Valid() && file.content[file.pos..] == Encode(c) + rest && Fits(c, blockSize)
    modifies file, pProtocol
    ensures file.Valid() && (!stopped ==> file.content[file.pos..] == rest)
    ensures Outcome(stopped, status, newOffset, pProtocol.contents, pProtocol.writes) ==
            ProgramChunk(c, blockSize, errno, Begin(dwOffset, old(pProtocol.contents), old(pProtocol.writes)))
  {
    stopped, status, newOffset := false, 0, dwOffset;
    hide Encode, WriteAt;
    var n, chunkType, chunkSize := ReadHeader(file, c, blockSize, rest);
    if n != 0 {
      var dwChunkSize := Wrapped(chunkSize, blockSize);
      if chunkType == SPARSE_RAW_CHUNK {
        var bpDataBuf := ReadChunkData(file, dwChunkSize, c.data, rest);
        if |bpDataBuf| != 0 {
          pProtocol.WriteData(bpDataBuf, dwOffset);
          newOffset := dwOffset + dwChunkSize;
        } else {
          stopped, status := true, errno;
        }
      } else if chunkType == SPARSE_FILL_CHUNK || chunkType == SPARSE_DONT_CARE {
        assert [] + rest == rest;
        newOffset := dwOffset + dwChunkSize;
      } else {
        stopped, status := true, ERROR_INVALID_DATA;
      }
    } else {
      stopped, status := true, errno;
    }
  }

  /** A product of 32-bit numbers. */
  function Wrapped(a: nat, b: nat): (p: nat)
    ensures a * b < U32 ==> p == a * b
  {
    (a * b) % U32
  }

  /** SparseImage::ProgramImage, the file standing behind the sparse header. */
  method ProgramImage(file: ImageFile, pProtocol: Protocol, dwTotalChunks: nat, blockSize: nat, errno: int, start: int,
                      ghost chunks: seq<Chunk>)
      returns (status: int, ghost stopped: bool, dwOffset: int)
    requires file.Valid() && file.content[file.pos..] == EncodeAll(chunks) && dwTotalChunks == |chunks|
    requires forall i | 0 <= i < |chunks| :: Fits(chunks[i], blockSize)
    modifies file, pProtocol
    ensures Outcome(stopped, status, dwOffset, pProtocol.contents, pProtocol.writes) ==
            Program(chunks, blockSize, errno, Begin(start, old(pProtocol.contents), old(pProtocol.writes)))
  {
    status, dwOffset, stopped := 0, start, false;
    ghost var left := chunks;
    ghost var end := Program(chunks, blockSize, errno, Begin(start, pProtocol.contents, pProtocol.writes));
    hide Encode, ProgramChunk, Fits;
    var i := 0;
    while i < dwTotalChunks
      invariant i <= dwTotalChunks && |left| == dwTotalChunks - i && file.Valid() && !stopped && status == 0
      invariant forall k | 0 <= k < |left| :: Fits(left[k], blockSize)
      invariant file.content[file.pos..] == EncodeAll(left)
      invariant Program(left, blockSize, errno, Begin(dwOffset, pProtocol.contents, pProtocol.writes)) == end
    {
      var stop;
      stop, status, dwOffset := ProgramNext(file, pProtocol, blockSize, errno, dwOffset, left[0], EncodeAll(left[1..]));
      stopped := stop;
      left := left[1..];
      if stop { break; }
      i := i + 1;
    }
  }
}
