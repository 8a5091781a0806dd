/** One direction of the emulated socketpair: a circular buffer kept as two regions,
    region A = buff[a_start..a_end] and region B = buff[..b_end]. */
module BipBuffer {
  type byte = bv8

  const BIP_BUFFER_SIZE: nat := 4096

  /** What a call answers: a byte count, -1 with EPIPE, or that it would have to wait on its event. */
  datatype IoResult = Count(n: nat) | Epipe | WouldBlock

  function Min(a: int, b: int): int { if a < b then a else b }

  ghost predicate Regions(size: int, a_start: int, a_end: int, b_end: int) {
    && 0 <= b_end <= a_start <= a_end <= size
    && (b_end > 0 ==> a_end == size)
  }

  /** The queued bytes, oldest first. */
  ghost function Queue(buff: seq<byte>, a_start: int, a_end: int, b_end: int): (q: seq<byte>)
    requires Regions(|buff|, a_start, a_end, b_end)
    ensures |q| == a_end - a_start + b_end
  {
    buff[a_start..a_end] + buff[..b_end]
  }

  /** dst with src stored over positions at, at+1, ... */
  function Overwrite(dst: seq<byte>, at: nat, src: seq<byte>): (r: seq<byte>)
    requires at + |src| <= |dst|
    ensures |r| == |dst|
  {
    dst[..at] + src + dst[at + |src|..]
  }

  method MemCpy(dst: array<byte>, at: nat, src: seq<byte>)
    requires at + |src| <= dst.Length
    modifies dst
    ensures dst[..] == Overwrite(old(dst[..]), at, src)
  {
    forall i | 0 <= i < |src| { dst[at + i] := src[i]; }
  }

  lemma AppendToA(b: seq<byte>, a_start: int, a_end: int, src: seq<byte>)
    requires Regions(|b|, a_start, a_end, 0)
    requires a_end + |src| <= |b|
    ensures Queue(Overwrite(b, a_end, src), a_start, a_end + |src|, 0) == Queue(b, a_start, a_end, 0) + src
  {
  }

  lemma AppendToB(b: seq<byte>, a_start: int, b_end: int, src: seq<byte>)
    requires Regions(|b|, a_start, |b|, b_end)
    requires b_end + |src| <= a_start
    ensures Queue(Overwrite(b, b_end, src), a_start, |b|, b_end + |src|) == Queue(b, a_start, |b|, b_end) + src
  {
  }

  lemma OverwriteTwice(d: seq<byte>, q: seq<byte>, n: nat, m: nat)
    requires n + m <= |q| && n + m <= |d|
    ensures Overwrite(Overwrite(d, 0, q[..n]), n, q[n..][..m]) == Overwrite(d, 0, q[..n + m])
    ensures q[n..][m..] == q[n + m..]
  {
  }

  lemma Join(q: seq<byte>, src: seq<byte>, m: nat, n: nat)
    requires m <= n <= |src|
    ensures q + src[..m] + src[m..n] == q + src[..n]
  {
    assert src[..m] + src[m..n] == src[..n];
  }

  lemma Parted(t: seq<byte>, q: seq<byte>, n: nat)
    requires n <= |q|
    ensures t + q == (t + q[..n]) + q[n..]
  {
  }

  class Bip {
    var a_start: int
    var a_end: int
    var b_end: int
    var closed: bool
    var can_write: bool
    var evt_write: bool
    var can_read: bool
    var evt_read: bool
    const buff: array<byte>
    // Everything ever accepted from writers and ever handed to readers.
    ghost var written: seq<byte>
    ghost var taken: seq<byte>

    ghost predicate Shape()
      reads this
    {
      && buff.Length == BIP_BUFFER_SIZE
      && Regions(BIP_BUFFER_SIZE, a_start, a_end, b_end)
    }

    ghost function Contents(): (q: seq<byte>)
      requires Shape()
      reads this, buff
      ensures |q| == a_end - a_start + b_end
    {
      Queue(buff[..], a_start, a_end, b_end)
    }

    ghost predicate Valid()
      reads this, buff
    {
      && Shape()
      && (a_start == a_end ==> a_start == 0)
      && (can_read <==> Contents() != [])
      && (can_write <==> |Contents()| < BIP_BUFFER_SIZE)
      && (can_read ==> evt_read) && (evt_read && !closed ==> can_read)
      && (can_write ==> evt_write) && (evt_write && !closed ==> can_write)
      && written == taken + Contents()
    }

    constructor Init()
      ensures Valid() && fresh(buff)
      ensures Contents() == [] && written == [] && taken == [] && !closed
    {
      a_start, a_end, b_end := 0, 0, 0;
      can_write, can_read := true, false;
      closed := false;
      evt_write, evt_read := true, false;
      buff := new byte[BIP_BUFFER_SIZE];
      written, taken := [], [];
    }

    method Close()
      requires Valid()
      modifies this
      ensures Valid() && closed && Contents() == old(Contents())
      ensures evt_read && evt_write
      ensures can_read == old(can_read) && can_write == old(can_write)
      ensures written == old(written) && taken == old(taken)
    {
      closed := true;
      if !can_read { evt_read := true; }
      if !can_write { evt_write := true; }
    }

    /** memcpy to the end of region A. */
    method AppendA(src: seq<byte>)
      requires Shape() && b_end == 0 && a_end + |src| <= BIP_BUFFER_SIZE
      modifies this`a_end, buff
      ensures Shape() && Contents() == old(Contents()) + src
      ensures a_end == old(a_end) + |src|
    {
      AppendToA(buff[..], a_start, a_end, src);
      MemCpy(buff, a_end, src);
      a_end := a_end + |src|;
    }

    /** memcpy to the end of region B. */
    method AppendB(src: seq<byte>)
      requires Shape() && a_end == BIP_BUFFER_SIZE && b_end + |src| <= a_start
      modifies this`b_end, buff
      ensures Shape() && Contents() == old(Contents()) + src
      ensures b_end == old(b_end) + |src|
    {
      AppendToB(buff[..], a_start, b_end, src);
      MemCpy(buff, b_end, src);
      b_end := b_end + |src|;
    }

    /** memcpy from the start of region A to dst[at..]. */
    method TakeA(dst: array<byte>, at: nat, n: nat)
      requires Shape() && dst != buff && at + n <= dst.Length && n <= a_end - a_start
      modifies this`a_start, dst
      ensures Shape() && a_start == old(a_start) + n
      ensures dst[..] == Overwrite(old(dst[..]), at, old(Contents())[..n])
      ensures Contents() == old(Contents())[n..]
    {
      assert buff[a_start..a_start + n] == Contents()[..n];
      MemCpy(dst, at, buff[a_start..a_start + n]);
      a_start := a_start + n;
    }

    /** Region A is used up: region B becomes region A. */
    method SwapRegions()
      requires Shape() && a_start == a_end
      modifies this`a_start, this`a_end, this`b_end
      ensures Shape() && Contents() == old(Contents())
      ensures a_start == 0 && a_end == old(b_end) && b_end == 0
    {
      a_start := 0;
      a_end := b_end;
      b_end := 0;
    }

    /** What the writer does between taking the lock and setting the read flag. */
    method Fill(src: seq<byte>, len: int) returns (count: nat)
      requires Shape() && 0 < len <= |src|
      requires |Contents()| < BIP_BUFFER_SIZE && can_write && evt_write
      requires a_start == a_end ==> a_start == 0
      modifies this`a_end, this`b_end, this`can_write, this`evt_write, buff
      ensures Shape() && a_start < a_end
      ensures 0 < count == Min(len, BIP_BUFFER_SIZE - |old(Contents())|)
      ensures Contents() == old(Contents()) + src[..count]
      ensures can_write == evt_write == (|Contents()| < BIP_BUFFER_SIZE)
    {
      hide Queue, Overwrite;
      ghost var q := Contents();
      var rest := len;
      count := 0;
      var avail := BIP_BUFFER_SIZE - a_end;
      if avail > 0 {
        // we can append to region A
        if avail > rest { avail := rest; }
        AppendA(src[..avail]);
        count := count + avail;
        rest := rest - avail;
        if a_end == BIP_BUFFER_SIZE && a_start == 0 {
          can_write := false;
          evt_write := false;
          return;
        }
      }
      if rest == 0 { return; }
      count := FillB(src, count, rest, q);
    }

    /** What does not fit into region A goes to region B. */
    method FillB(src: seq<byte>, done: nat, rest: nat, ghost q: seq<byte>) returns (count: nat)
      requires Shape() && a_end == BIP_BUFFER_SIZE && 0 < rest && done + rest <= |src|
      requires |Contents()| < BIP_BUFFER_SIZE && can_write && evt_write && Contents() == q + src[..done]
      modifies this`b_end, this`can_write, this`evt_write, buff
      ensures Shape() && count == done + Min(rest, BIP_BUFFER_SIZE - |old(Contents())|)
      ensures Contents() == q + src[..count] && can_write == evt_write == (|Contents()| < BIP_BUFFER_SIZE)
    {
      hide Queue, Overwrite;
      var avail := a_start - b_end;
      assert avail > 0;  // asserted by the source: can_write is true
      if avail > rest { avail := rest; }
      AppendB(src[done..done + avail]);
      Join(q, src, done, done + avail);
      count := done + avail;
      if b_end == a_start {
        can_write := false;
        evt_write := false;
      }
    }

    /** Appends as much of src[..len] as fits. */
    method Write(src: seq<byte>, len: int) returns (r: IoResult)
      requires Valid() && len <= |src|
      modifies this, buff
      ensures Valid() && closed == old(closed) && taken == old(taken)
      ensures len <= 0 ==> r == Count(0)
      ensures len > 0 && |old(Contents())| == BIP_BUFFER_SIZE ==> r == if closed then Epipe else WouldBlock
      ensures len > 0 && |old(Contents())| < BIP_BUFFER_SIZE ==>
                r == Count(Min(len, BIP_BUFFER_SIZE - |old(Contents())|)) && r.n > 0
      ensures r.Count? ==> 0 <= r.n <= |src| && Contents() == old(Contents()) + src[..r.n]
      ensures !r.Count? ==> Contents() == old(Contents())
    {
      if len <= 0 { return Count(0); }
      if !can_write {
        return if closed then Epipe else WouldBlock;
      }
      hide Queue;
      ghost var q := Contents();
      var count := Fill(src, len);
      assert count > 0;  // asserted by the source
      if !can_read {
        can_read := true;
        evt_read := true;
      }
      written := written + src[..count];
      r := Count(count);
    }

    /** What the reader does between taking the lock and setting the write flag. */
    method Drain(dst: array<byte>, len: int) returns (count: nat)
      requires Shape() && 0 < len <= dst.Length && dst != buff
      requires a_start < a_end && can_read && evt_read
      modifies this`a_start, this`a_end, this`b_end, this`can_read, this`evt_read, dst
      ensures Shape() && (a_start == a_end ==> a_start == 0)
      ensures 0 < count == Min(len, |old(Contents())|)
      ensures dst[..] == Overwrite(old(dst[..]), 0, old(Contents())[..count])
      ensures Contents() == old(Contents())[count..]
      ensures can_read == evt_read == (Contents() != [])
    {
      hide Queue, Overwrite;
      ghost var q, d := Contents(), dst[..];
      var rest := len;
      var avail := a_end - a_start;
      assert avail > 0;  // asserted by the source: can_read is true
      if avail > rest { avail := rest; }
      TakeA(dst, 0, avail);
      count := avail;
      rest := rest - avail;
      if a_start < a_end { return; }
      SwapRegions();
      avail := a_end;
      if avail > 0 {
        if avail > rest { avail := rest; }
        TakeA(dst, count, avail);
        OverwriteTwice(d, q, count, avail);
        count := count + avail;
        if a_start < a_end { return; }
        a_start, a_end := 0, 0;
      }
      can_read := false;
      evt_read := false;
    }

    /** Moves the oldest bytes to dst. */
    method Read(dst: array<byte>, len: int) returns (r: IoResult)
      requires Valid() && len <= dst.Length && dst != buff
      modifies this, dst
      ensures Valid() && closed == old(closed) && written == old(written)
      ensures len <= 0 ==> r == Count(0)
      ensures len > 0 && old(Contents()) == [] ==> r == if closed then Epipe else WouldBlock
      ensures len > 0 && old(Contents()) != [] ==> r == Count(Min(len, |old(Contents())|)) && r.n > 0
      ensures r.Count? ==>
                && 0 <= r.n <= |old(Contents())|
                && dst[..] == Overwrite(old(dst[..]), 0, old(Contents())[..r.n])
                && Contents() == old(Contents())[r.n..]
      ensures !r.Count? ==> Contents() == old(Contents()) && dst[..] == old(dst[..])
    {
      if len <= 0 { return Count(0); }
      if !can_read {
        return if closed then Epipe else WouldBlock;
      }
      hide Queue, Overwrite;
      ghost var q := Contents();
      var count := Drain(dst, len);
      assert count > 0;  // asserted by the source
      if !can_write {
        can_write := true;
        evt_write := true;
      }
      Parted(taken, q, count);
      taken := taken + q[..count];
      r := Count(count);
    }
  }

  // ----- the buffer as a bounded first-in first-out queue -----

  datatype Op = Put(src: seq<byte>) | Get(len: nat) | Shut

  datatype Fifo = Fifo(q: seq<byte>, closed: bool)

  /** What one operation answers: its result, and the bytes it hands over. */
  datatype Answer = Answer(r: IoResult, data: seq<byte>)

  /** The specification: a queue of capacity BIP_BUFFER_SIZE that takes what fits and gives the oldest bytes. */
  function FifoStep(f: Fifo, op: Op): (Fifo, Answer)
    requires |f.q| <= BIP_BUFFER_SIZE
  {
    match op
    case Put(src) =>
      if src == [] then (f, Answer(Count(0), []))
      else if |f.q| == BIP_BUFFER_SIZE then (f, Answer(if f.closed then Epipe else WouldBlock, []))
      else
        var n := Min(|src|, BIP_BUFFER_SIZE - |f.q|);
        (f.(q := f.q + src[..n]), Answer(Count(n), []))
    case Get(len) =>
      if len == 0 then (f, Answer(Count(0), []))
      else if f.q == [] then (f, Answer(if f.closed then Epipe else WouldBlock, []))
      else
        var n := Min(len, |f.q|);
        (f.(q := f.q[n..]), Answer(Count(n), f.q[..n]))
    case Shut => (f.(closed := true), Answer(Count(0), []))
  }

  ghost function FifoRun(f: Fifo, ops: seq<Op>): (r: (Fifo, seq<Answer>))
    requires |f.q| <= BIP_BUFFER_SIZE
    ensures |r.0.q| <= BIP_BUFFER_SIZE && |r.1| == |ops|
  {
    if ops == [] then (f, [])
    else
      var (g, answers) := FifoRun(f, ops[..|ops| - 1]);
      var (h, answer) := FifoStep(g, ops[|ops| - 1]);
      (h, answers + [answer])
  }

  /** The bytes the writes of a run were told had been accepted. */
  ghost function Accepted(ops: seq<Op>, answers: seq<Answer>): seq<byte>
    requires |ops| == |answers|
  {
    if ops == [] then []
    else
      var k := |ops| - 1;
      Accepted(ops[..k], answers[..k]) +
      (if ops[k].Put? && answers[k].r.Count? && answers[k].r.n <= |ops[k].src| then ops[k].src[..answers[k].r.n]
       else [])
  }

  ghost function Delivered(answers: seq<Answer>): seq<byte> {
    if answers == [] then []
    else Delivered(answers[..|answers| - 1]) + answers[|answers| - 1].data
  }

  /** Over a whole run nothing is lost, duplicated or reordered, and at most BIP_BUFFER_SIZE bytes are in flight. */
  lemma {:induction false} FifoConserves(f: Fifo, ops: seq<Op>)
    requires |f.q| <= BIP_BUFFER_SIZE
    ensures var (g, answers) := FifoRun(f, ops);
            f.q + Accepted(ops, answers) == Delivered(answers) + g.q
  {
    if ops != [] {
      var k := |ops| - 1;
      FifoConserves(f, ops[..k]);
      var (g, answers) := FifoRun(f, ops[..k]);
      var (h, answer) := FifoStep(g, ops[k]);
      assert (answers + [answer])[..k] == answers;
      FifoStepConserves(g, ops[k]);
      Regroup(f.q, Accepted(ops[..k], answers), StepAccepts(g, ops[k]), Delivered(answers), g.q, answer.data, h.q);
    }
  }

  /** The bytes one write is told were accepted. */
  ghost function StepAccepts(f: Fifo, op: Op): seq<byte>
    requires |f.q| <= BIP_BUFFER_SIZE
  {
    var r := FifoStep(f, op).1.r;
    if op.Put? && r.Count? && r.n <= |op.src| then op.src[..r.n] else []
  }

  lemma FifoStepConserves(f: Fifo, op: Op)
    requires |f.q| <= BIP_BUFFER_SIZE
    ensures var (g, answer) := FifoStep(f, op);
            f.q + StepAccepts(f, op) == answer.data + g.q
  {
    var (g, answer) := FifoStep(f, op);
    if op.Get? && answer.r.Count? {
      assert f.q == f.q[..answer.r.n] + f.q[answer.r.n..];
    }
  }

  lemma Regroup(q0: seq<byte>, acc: seq<byte>, a: seq<byte>, del: seq<byte>, q1: seq<byte>, d: seq<byte>, q2: seq<byte>)
    requires q0 + acc == del + q1 && q1 + a == d + q2
    ensures q0 + (acc + a) == (del + d) + q2
  {
    assert q0 + (acc + a) == (q0 + acc) + a;
    assert (del + q1) + a == del + (q1 + a);
    assert (del + d) + q2 == del + (d + q2);
  }

  /** Any sequence of operations on the circular buffer answers exactly as the queue does. */
  method Replay(bip: Bip, ops: seq<Op>) returns (answers: seq<Answer>)
    requires bip.Valid()
    modifies bip, bip.buff
    ensures bip.Valid()
    ensures FifoRun(Fifo(old(bip.Contents()), old(bip.closed)), ops) == (Fifo(bip.Contents(), bip.closed), answers)
  {
    answers := [];
    ghost var f := Fifo(bip.Contents(), bip.closed);
    assert ops[..0] == [];
    for i := 0 to |ops|
      invariant bip.Valid()
      invariant FifoRun(f, ops[..i]) == (Fifo(bip.Contents(), bip.closed), answers)
    {
      assert ops[..i + 1][..i] == ops[..i];
      var answer := Perform(bip, ops[i]);
      answers := answers + [answer];
    }
    assert ops[..|ops|] == ops;
  }

  method Perform(bip: Bip, op: Op) returns (answer: Answer)
    requires bip.Valid()
    modifies bip, bip.buff
    ensures bip.Valid()
    ensures FifoStep(Fifo(old(bip.Contents()), old(bip.closed)), op) == (Fifo(bip.Contents(), bip.closed), answer)
  {
    hide Queue;
    ghost var q := bip.Contents();
    match op
    case Put(src) =>
      var r := bip.Write(src, |src|);
      assert q + src[..0] == q;
      answer := Answer(r, []);
    case Get(len) =>
      answer := PerformGet(bip, len);
    case Shut =>
      bip.Close();
      answer := Answer(Count(0), []);
  }

  method PerformGet(bip: Bip, len: nat) returns (answer: Answer)
    requires bip.Valid()
    modifies bip
    ensures bip.Valid()
    ensures FifoStep(Fifo(old(bip.Contents()), old(bip.closed)), Get(len)) == (Fifo(bip.Contents(), bip.closed), answer)
  {
    hide Queue;
    ghost var q := bip.Contents();
    var dst := new byte[len];
    var r := bip.Read(dst, len);
    assert q[0..] == q;
    assert r.Count? ==> dst[..r.n] == q[..r.n];
    answer := Answer(r, if r.Count? then dst[..r.n] else []);
  }
}
