/** The same copy on the heap: both threads work on one ring of intrusively linked buffers,
    rnode -> filled -> wnode -> free -> rnode, and every step is a step of CopyProtocol. */
module FastCopy {
  import opened Arith
  import opened IntrusiveList
  import opened CopyProtocol

  datatype Storage = Storage(len: nat, data: seq<byte>)

  type CBuffer = b: Storage | b.len <= |b.data| witness Storage(0, [])

  type Node = ListNode<CBuffer>

  /** dst with src stored at position at. */
  function Store(dst: seq<byte>, at: nat, src: seq<byte>): (r: seq<byte>)
    requires at + |src| <= |dst|
    ensures |r| == |dst| && r[..at + |src|] == dst[..at] + src
  {
    dst[..at] + src + dst[at + |src|..]
  }

  /** What the buffers hold, in order. */
  ghost function Contents(bs: seq<Node>): (cs: seq<seq<byte>>)
    reads bs`item
    ensures |cs| == |bs|
  {
    if bs == [] then [] else [bs[0].item.data[..bs[0].item.len]] + Contents(bs[1..])
  }

  lemma {:induction false} ContentsAppend(bs: seq<Node>, b: Node)
    ensures Contents(bs + [b]) == Contents(bs) + [b.item.data[..b.item.len]]
  {
    if bs != [] {
      assert (bs + [b])[1..] == bs[1..] + [b];
      ContentsAppend(bs[1..], b);
    }
  }

  lemma SliceAfterMove<T>(r: seq<T>, x: T, p: T, k: nat)
    requires 1 < k < |r| && r[1] == p
    ensures r[1..k] == [p] + ([x] + r[2..] + [p])[1..k - 1]
    ensures ([x] + r[2..] + [p])[k - 1] == r[k]
    ensures k + 1 < |r| ==> ([x] + r[2..] + [p])[k] == r[k + 1]
  {
    var s := [x] + r[2..] + [p];
    assert forall j | 0 < j < |r| - 1 :: s[j] == r[j + 1];
    assert |s[1..k - 1]| == k - 2;
    assert s[1..k - 1] == r[2..k];
  }

  class Threads {
    const c: Config
    const rnode: Node
    const wnode: Node
    // FastCopy
    var filler: FillerPc
    var tmp_sectors: nat
    var bytesToRead: nat
    var current: ListNode?<CBuffer>
    var offset: nat
    // WriterThread
    var writer: WriterPc
    var bytesleft: int
    var pbuffer: ListNode?<CBuffer>
    var file: seq<byte>
    // the cycle from rnode on, and where wnode is on it
    ghost var ring: seq<Node>
    ghost var w: nat
    ghost var put: seq<byte>

    ghost predicate Busy()
      reads this`filler
    {
      filler.Filling? || filler.Publishing?
    }

    ghost predicate Shape()
      reads this`ring, this`w, ring
    {
      && IsRing(ring) && 0 < w < |ring| && ring[0] == rnode && ring[w] == wnode
      && (forall n | n in ring && n != rnode && n != wnode :: |n.item.data| == c.maxPacket)
    }

    /** The filler's buffer is the first free one. */
    ghost predicate FillerOk()
      reads this`ring, this`w, this`filler, this`current, this`bytesToRead, this`offset, ring`item
    {
      && 0 <= w < |ring|
      && (Busy() ==>
            && w + 1 < |ring| && current == ring[w + 1] && bytesToRead == ring[w + 1].item.len
            && offset <= bytesToRead && (filler.Publishing? <==> offset == bytesToRead))
    }

    /** The writer's buffer is the first filled one. */
    ghost predicate WriterOk()
      reads this`ring, this`w, this`writer, this`pbuffer
    {
      writer.Writing? || writer.Returning? ==> 1 < w < |ring| && pbuffer == ring[1]
    }

    ghost predicate Valid()
      reads this, ring
    {
      Shape() && FillerOk() && WriterOk()
    }

    ghost function Part(): seq<byte>
      requires Shape() && FillerOk()
      reads this`ring, this`w, this`filler, this`current, this`bytesToRead, this`offset, ring
    {
      if Busy() then ring[w + 1].item.data[..offset] else []
    }

    ghost function Queued(): seq<seq<byte>>
      requires Shape()
      reads this`ring, this`w, ring
    {
      Contents(ring[1..w])
    }

    ghost function Abs(): State
      requires Valid()
      reads this, ring
    {
      State(filler, tmp_sectors, bytesToRead, Part(), |ring| - w - 1, Queued(), writer, bytesleft, put, file)
    }

    constructor (c: Config)
      requires c.Sane()
      ensures this.c == c && Valid() && Abs() == Start(c)
      ensures fresh(ring)
    {
      this.c := c;
      // list_init(&wnode); list_init(&rnode); list_add_tail(&wnode, &rnode)
      var wn := new ListNode<CBuffer>(Storage(0, []));
      var rn := new ListNode<CBuffer>(Storage(0, []));
      assert Linked([wn], 0);
      ListAddTail(wn, rn, [wn], 0);
      assert WithAfter([wn], 0, rn) == [wn, rn];
      RotateRing([wn, rn]);
      assert [wn, rn][1..] + [wn] == [rn, wn];
      rnode, wnode := rn, wn;
      filler, tmp_sectors, bytesToRead, offset := Command, c.sectors, c.Mask(), 0;
      current, pbuffer := null, null;
      writer, bytesleft, file := Head, c.Total(), [];
      ring, w, put := [rn, wn], 1, [];
    }

    /** list_head of the two cursors. */
    lemma Heads()
      requires Shape()
      ensures wnode.next == rnode <==> w + 1 == |ring|
      ensures w + 1 < |ring| ==> wnode.next == ring[w + 1]
      ensures rnode.next == wnode <==> Queued() == []
      ensures w > 1 ==> rnode.next == ring[1]
      ensures |Queued()| == w - 1
    {
      assert Linked(ring, w) && Linked(ring, 0);
      if w + 1 < |ring| { assert Differ(ring, 0, w + 1); }
      if w > 1 { assert Differ(ring, 1, w); }
    }

    /** The first free buffer is no other one. */
    lemma Apart()
      requires Shape() && w + 1 < |ring|
      ensures ring[w + 1] !in ring[1..w]
      ensures |ring[w + 1].item.data| == c.maxPacket
    {
      forall j: nat | j < |ring| && j != w + 1 ensures ring[j] != ring[w + 1] {
        assert Differ(ring, j, w + 1);
      }
    }

    method SendCommand(ok: bool)
      requires Valid() && filler.Command?
      modifies this`filler
      ensures Valid() && Abs() == old(Abs()).(filler := if ok then LoopHead else Joined(true))
    {
      filler := if ok then LoopHead else Joined(true);
    }

    method LeaveLoop()
      requires Valid() && filler.LoopHead? && tmp_sectors == 0
      modifies this`filler
      ensures Valid() && Abs() == old(Abs()).(filler := Joined(false))
    {
      filler := Joined(false);
    }

    /** The writer's loop test, and its look at the ring under the lock. */
    method Test()
      requires Valid() && writer.Head?
      modifies this`writer, this`pbuffer
      ensures Valid() && Abs() == Tested(old(Abs()))
    {
      Heads();
      ghost var q, part := Queued(), Part();
      if bytesleft == 0 {
        writer := Exited(false);
      } else if rnode.next == wnode {
        writer := Waiting(false);
      } else {
        pbuffer := rnode.next;
        writer := Writing;
      }
      assert Shape() && FillerOk();
      assert Queued() == q && Part() == part;
    }

    method Wake()
      requires Valid() && writer.Waiting?
      modifies this`writer
      ensures Valid() && Abs() == old(Abs()).(writer := Head)
    {
      writer := Head;
    }

    /** The first critical section of a round: the first free buffer, or a new one. */
    method Acquire(ok: bool)
      requires Valid() && filler.LoopHead? && c.Sane() && NextChunk(c, Abs()) <= c.maxPacket
      modifies this`filler, this`bytesToRead, this`current, this`offset, this`ring, ring
      ensures Valid()
      ensures Abs() == Acquired(old(Abs()).(chunk := NextChunk(c, old(Abs()))), ok)
      ensures forall i | 0 <= i < |ring| :: ring[i] in old(ring) || fresh(ring[i])
    {
      if tmp_sectors < c.SectorsIn(c.maxPacket) {
        bytesToRead := tmp_sectors * c.sectorSize;
      }
      TakeBuffer(ok);
    }

    method TakeBuffer(ok: bool)
      requires Valid() && filler.LoopHead? && bytesToRead <= c.maxPacket
      modifies this`filler, this`current, this`offset, this`ring, ring
      ensures Valid() && Abs() == Acquired(old(Abs()), ok)
      ensures forall i | 0 <= i < |ring| :: ring[i] in old(ring) || fresh(ring[i])
    {
      Heads();
      if wnode.next == rnode {
        if !ok {
          filler := Joined(true);
          return;
        }
        NewBuffer();
      } else {
        ReuseBuffer();
      }
      Begin();
    }

    /** The buffer is set up; reading into it starts at offset 0. */
    method Begin()
      requires Valid() && filler.LoopHead?
      requires w + 1 < |ring| && current == ring[w + 1] && bytesToRead == ring[w + 1].item.len
      modifies this`filler, this`offset
      ensures Valid() && Abs() == old(Abs()).(part := [], filler := if bytesToRead == 0 then Publishing else Filling)
    {
      offset := 0;
      filler := if bytesToRead == 0 then Publishing else Filling;
    }

    method NewBuffer()
      requires Valid() && filler.LoopHead? && w + 1 == |ring| && bytesToRead <= c.maxPacket
      modifies this`current, this`ring, ring
      ensures Valid() && Abs() == old(Abs()).(spare := 1)
      ensures w + 1 < |ring| && current == ring[w + 1] && bytesToRead == ring[w + 1].item.len
      ensures forall i | 0 <= i < |ring| :: ring[i] in old(ring) || fresh(ring[i])
    {
      var p := new ListNode<CBuffer>(Storage(bytesToRead, seq(c.maxPacket, _ => 0)));
      LinkNew(p);
      current := p;
    }

    method LinkNew(p: Node)
      requires Shape() && w + 1 == |ring| && p !in ring && |p.item.data| == c.maxPacket
      modifies this`ring, ring, p`next, p`prev
      ensures Shape() && ring == old(ring) + [p] && Queued() == old(Queued())
      ensures forall n | n in old(ring) :: n.item == old(n.item)
    {
      ListAddHead(wnode, p, ring, w);
      ghost var r := ring;
      ring := ring + [p];
      assert ring == WithAfter(r, w, p);
      assert ring[1..w] == r[1..w];
    }

    method ReuseBuffer()
      requires Valid() && filler.LoopHead? && w + 1 < |ring| && wnode.next == ring[w + 1] && bytesToRead <= c.maxPacket
      modifies this`current, Nth(ring, w + 1)`item
      ensures Valid() && Abs() == old(Abs())
      ensures current == ring[w + 1] && bytesToRead == ring[w + 1].item.len
    {
      Apart();
      current := wnode.next;
      SetItem(current.item.(len := bytesToRead));
    }

    /** Changing the first free buffer's contents leaves everything else alone. */
    method SetItem(b: CBuffer)
      requires Shape() && w + 1 < |ring| && |b.data| == c.maxPacket
      modifies Nth(ring, w + 1)`item
      ensures Shape() && Queued() == old(Queued()) && ring[w + 1].item == b
    {
      Apart();
      assert Linked(ring, w);
      var n := wnode.next;
      n.item := b;
    }

    /** Bytes go to the filler's buffer, outside the lock. */
    method StoreBytes(bytes: seq<byte>)
      requires Valid() && filler.Filling? && |bytes| <= bytesToRead - offset
      modifies this`offset, this`filler, ring
      ensures Valid() && Abs() == Received(old(Abs()), bytes)
    {
      Apart();
      SetItem(current.item.(data := Store(current.item.data, offset, bytes)));
      offset := offset + |bytes|;
      filler := if offset == bytesToRead then Publishing else Filling;
    }

    /** ReadData failed: memset of the rest to 0xee. */
    method FillFails()
      requires Valid() && filler.Filling?
      modifies this`offset, this`filler, ring
      ensures Valid() && Abs() == Received(old(Abs()), seq(old(bytesToRead - offset), _ => 0xee))
    {
      StoreBytes(seq(bytesToRead - offset, _ => 0xee));
    }

    lemma PartIsWhole()
      requires Valid() && filler.Publishing?
      ensures current == ring[w + 1] && offset == bytesToRead == current.item.len
      ensures Part() == current.item.data[..current.item.len]
    {
    }

    /** The second critical section: wnode moves behind the buffer just filled, and the writer is signalled. */
    method Publish()
      requires Valid() && filler.Publishing? && c.Sane() && c.SectorsIn(bytesToRead) <= tmp_sectors
      modifies this`filler, this`tmp_sectors, this`writer, this`put, this`ring, this`w, ring`next, ring`prev
      ensures Valid() && Abs() == Published(old(Abs()), c.SectorsIn(old(bytesToRead)))
      ensures forall i | 0 <= i < |ring| :: ring[i] in old(ring)
    {
      PublishSectors(c.SectorsIn(bytesToRead));
    }

    method PublishSectors(n: nat)
      requires Valid() && filler.Publishing? && n <= tmp_sectors
      modifies this`filler, this`tmp_sectors, this`writer, this`put, this`ring, this`w, ring`next, ring`prev
      ensures Valid() && Abs() == Published(old(Abs()), n)
      ensures forall i | 0 <= i < |ring| :: ring[i] in old(ring)
    {
      HandOver();
      Signal(n);
    }

    method HandOver()
      requires Valid() && filler.Publishing?
      modifies this`filler, this`put, this`ring, this`w, ring`next, ring`prev
      ensures Valid()
      ensures var a := old(Abs());
              Abs() == a.(filler := LoopHead, part := [], spare := |old(ring)| - old(w) - 2,
                          filled := a.filled + [a.part], put := a.put + a.part)
      ensures forall i | 0 <= i < |ring| :: ring[i] in old(ring)
    {
      PartIsWhole();
      ghost var q, part := Queued(), Part();
      MoveWnode();
      assert Queued() == q + [part];
      filler := LoopHead;
      put := put + part;
    }

    /** pthread_cond_signal, and the loop's count of sectors left. */
    method Signal(n: nat)
      requires Valid() && n <= tmp_sectors
      modifies this`writer, this`tmp_sectors
      ensures Valid()
      ensures Abs() == old(Abs()).(left := old(tmp_sectors) - n,
                                   writer := if old(writer).Waiting? then Waiting(true) else old(writer))
    {
      if writer.Waiting? { writer := Waiting(true); }
      tmp_sectors := tmp_sectors - n;
    }

    method MoveWnode()
      requires Shape() && w + 1 < |ring| && current == ring[w + 1]
      modifies this`ring, this`w, ring`next, ring`prev
      ensures Shape() && |ring| == |old(ring)| && w == old(w) + 1
      ensures Queued() == old(Queued()) + [current.item.data[..current.item.len]]
      ensures ring[1] == if w > 2 then old(ring)[1] else current
      ensures forall i | 0 <= i < |ring| :: ring[i] in old(ring)
    {
      ghost var r, k := ring, w;
      var p := current;
      ContentsAppend(r[1..k], p);
      hide IsRing, Contents;
      MoveBehindNext(wnode, p, r, k);
      ring := r[..k] + [p, wnode] + r[k + 2..];
      w := k + 1;
      assert ring[1..k + 1] == r[1..k] + [p];
    }

    /** write() took the first n bytes of the buffer. */
    method Write(n: nat)
      requires Valid() && writer.Writing? && Queued() != [] && n <= |Queued()[0]|
      modifies this`file, this`bytesleft, this`writer
      ensures Valid() && Abs() == Wrote(old(Abs()), n)
    {
      assert Queued()[0] == pbuffer.item.data[..pbuffer.item.len] by { assert ring[1..w][0] == pbuffer; }
      hide Shape, FillerOk, Contents;
      file := file + pbuffer.item.data[..n];
      if n == pbuffer.item.len {
        bytesleft := bytesleft - n;
        writer := Returning;
      } else {
        writer := Exited(true);
      }
    }

    /** rnode moves behind the buffer just written, which thereby becomes the last free one. */
    method GiveBack()
      requires Valid() && writer.Returning?
      modifies this`writer, this`ring, this`w, ring
      ensures Valid()
      ensures old(Queued()) != []
      ensures Abs() == old(Abs()).(writer := Head, filled := old(Queued())[1..], spare := old(Abs()).spare + 1)
      ensures forall i | 0 <= i < |ring| :: ring[i] in old(ring)
    {
      MoveRnode();
      writer := Head;
    }

    method MoveRnode()
      requires Shape() && w > 1 && pbuffer == ring[1]
      modifies this`ring, this`w, ring`next, ring`prev
      ensures Shape() && |ring| == |old(ring)| && w == old(w) - 1
      ensures old(Queued()) != [] && Queued() == old(Queued())[1..]
      ensures old(w) + 1 < |ring| ==> ring[w + 1] == old(ring)[old(w) + 1]
      ensures forall i | 0 <= i < |ring| :: ring[i] in old(ring)
    {
      ghost var r, k := ring, w;
      var p := pbuffer;
      MoveFirst(rnode, p, r);
      ring := [rnode] + r[2..] + [p];
      w := k - 1;
      SliceAfterMove(r, rnode, p, k);
    }

    /** The buffer being filled is never the one being written. */
    lemma NeverShared()
      requires Valid() && Busy() && (writer.Writing? || writer.Returning?)
      ensures current != pbuffer && current !in ring[..w + 1] && pbuffer !in ring[w..]
    {
      assert Differ(ring, 1, w + 1);
      forall j: nat | j < |ring| ensures (j <= w ==> ring[j] != current) && (j >= w ==> ring[j] != pbuffer) {
        assert Differ(ring, j, w + 1) && Differ(ring, j, 1);
      }
    }

    /** One protocol step, done on the heap. */
    method Perform(step: Step)
      requires Valid() && Working(c) && Inv(c, Abs()) && Enabled(Abs(), step)
      modifies this, ring
      ensures Valid() && Abs() == Apply(c, old(Abs()), step)
      ensures forall i | 0 <= i < |ring| :: ring[i] in old(ring) || fresh(ring[i])
    {
      if FillerStep(step) { PerformFiller(step); } else { PerformWriter(step); }
    }

    method PerformFiller(step: Step)
      requires Valid() && Working(c) && Inv(c, Abs()) && Enabled(Abs(), step) && FillerStep(step)
      modifies this, ring
      ensures Valid() && Abs() == Apply(c, old(Abs()), step)
      ensures forall i | 0 <= i < |ring| :: ring[i] in old(ring) || fresh(ring[i])
    {
      hide Valid, Inv;
      match step
      case SendCommand(ok) => SendCommand(ok);
      case Acquire(ok) =>
        AcquireKeepsInv(c, Abs(), ok);
        Acquire(ok);
      case LeaveLoop => LeaveLoop();
      case Fill(bytes) => PartSize(); StoreBytes(bytes);
      case FillFails => PartSize(); FillFails();
      case Retry =>
      case Publish =>
        PublishKeepsInv(c, Abs());
        Publish();
    }

    method PerformWriter(step: Step)
      requires Valid() && c.Sane() && Enabled(Abs(), step) && !FillerStep(step)
      modifies this, ring
      ensures Valid() && Abs() == Apply(c, old(Abs()), step)
      ensures forall i | 0 <= i < |ring| :: ring[i] in old(ring)
    {
      match step
      case Test => Test();
      case Wake => Wake();
      case SpuriousWake => Wake();
      case Write(n) => Write(n);
      case GiveBack => GiveBack();
    }

    lemma PartSize()
      requires Valid() && filler.Filling?
      ensures |Part()| == offset <= bytesToRead
    {
    }
  }

  /** Every interleaving of the protocol is what happens on the heap: the ring stays one well-formed
      cycle (Valid), and the threads' variables, the buffers and the file are the protocol's state; so the
      file holds what it should. */
  method Replay(c: Config, schedule: seq<Step>) returns (t: Threads)
    requires Working(c) && Fits(c, Start(c), schedule)
    ensures t.Valid() && t.c == c && t.Abs() == Run(c, Start(c), schedule)
    ensures t.file <= Wanted(c, schedule) && (t.writer == Exited(false) ==> t.file == Wanted(c, schedule))
    ensures fresh(t) && fresh(t.ring)
    decreases |schedule|
  {
    FileIsWanted(c, schedule);
    if schedule == [] {
      t := new Threads(c);
    } else {
      var k := |schedule| - 1;
      ghost var s := LastStep(c, schedule);
      t := Replay(c, schedule[..k]);
      t.Perform(schedule[k]);
    }
  }
}
