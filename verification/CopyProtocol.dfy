/** The device-to-file copy as a protocol: the thread that fills buffers from the device and the
    thread that writes them to the file, one atomic step per critical section or data transfer. */
module CopyProtocol {
  import opened Arith

  type byte = bv8

  /** What a copy is asked to do: sector size, packet size and number of sectors. */
  datatype Config = Config(sectorSize: nat, maxPacket: nat, sectors: nat) {
    /** A sector size is a power of two; the packet size is an unsigned 32-bit number. */
    ghost predicate Proper() {
      && maxPacket < 0x1_0000_0000
      && exists k: nat | k < 32 :: sectorSize == Pow2(k)
    }

    predicate Sane() { 0 < sectorSize < 0x1_0000_0000 }

    function Total(): nat { sectors * sectorSize }

    function SectorsIn(bytes: nat): nat
      requires Sane()
    {
      bytes / sectorSize
    }

    /** maxPacket & ~(sectorSize - 1) */
    function Mask(): nat
      requires Sane()
    {
      And(maxPacket, 0x1_0000_0000 - sectorSize)
    }

    /** The size of the next chunk when left sectors are still to be read. */
    function Chunk(left: nat): nat
      requires Sane()
    {
      if left < SectorsIn(maxPacket) then left * sectorSize else Mask()
    }
  }

  datatype FillerPc =
    | Command                   // about to send the read command
    | LoopHead
    | Filling                   // outside the lock, reading from the device into its buffer
    | Publishing                // about to take the lock and hand the buffer over
    | Joined(aborted: bool)     // left the loop, in pthread_join

  datatype WriterPc =
    | Head
    | Waiting(woken: bool)      // in pthread_cond_wait
    | Writing                   // outside the lock, writing the first filled buffer
    | Returning                 // about to take the lock and give the buffer back
    | Exited(failed: bool)

  /** left, chunk: the loop's sectors left and bytesToRead; filled: contents of the buffers between
      rnode and wnode, oldest first; spare: the number of buffers behind wnode; part: what the
      filler's buffer holds so far; put: every byte ever handed over; file: every byte ever written. */
  datatype State = State(
    filler: FillerPc, left: nat, chunk: nat, part: seq<byte>, spare: nat,
    filled: seq<seq<byte>>, writer: WriterPc, bytesleft: int,
    put: seq<byte>, file: seq<byte>)

  function Start(c: Config): State
    requires c.Sane()
  {
    State(Command, c.sectors, c.Mask(), [], 0, [], Head, c.Total(), [], [])
  }

  datatype Step =
    | SendCommand(ok: bool)
    | Acquire(ok: bool)           // ok: malloc succeeds if it is needed
    | LeaveLoop
    | Fill(bytes: seq<byte>)      // ReadData delivered bytes
    | FillFails                   // ReadData gave up: the rest becomes 0xee
    | Retry                       // ReadData failed, but errno was EAGAIN, left over or not
    | Publish
    | Test                        // the writer's loop test and its look at the ring
    | Wake                        // the signal arrived
    | SpuriousWake
    | Write(n: nat)               // the file took the first n bytes; anything short ends the thread
    | GiveBack

  predicate Enabled(s: State, step: Step) {
    match step
    case SendCommand(_) => s.filler.Command?
    case Acquire(_) => s.filler.LoopHead? && s.left > 0
    case LeaveLoop => s.filler.LoopHead? && s.left == 0
    case Fill(bytes) => s.filler.Filling? && 0 < |bytes| <= s.chunk - |s.part|
    case FillFails => s.filler.Filling?
    case Retry => s.filler.Filling?
    case Publish => s.filler.Publishing?
    case Test => s.writer.Head?
    case Wake => s.writer.Waiting? && s.writer.woken
    case SpuriousWake => s.writer.Waiting? && !s.writer.woken
    case Write(n) => s.writer.Writing? && s.filled != [] && n <= |s.filled[0]|
    case GiveBack => s.writer.Returning? && s.filled != []
  }

  function Apply(c: Config, s: State, step: Step): State
    requires c.Sane() && Enabled(s, step)
  {
    match step
    case SendCommand(ok) => s.(filler := if ok then LoopHead else Joined(true))
    case Acquire(ok) => Acquired(s.(chunk := NextChunk(c, s)), ok)
    case LeaveLoop => s.(filler := Joined(false))
    case Fill(bytes) => Received(s, bytes)
    case FillFails => Received(s, seq(if |s.part| <= s.chunk then s.chunk - |s.part| else 0, _ => 0xee))
    case Retry => s
    case Publish => Published(s, c.SectorsIn(s.chunk))
    case Test => Tested(s)
    case Wake => s.(writer := Head)
    case SpuriousWake => s.(writer := Head)
    case Write(n) => Wrote(s, n)
    case GiveBack => s.(writer := Head, filled := s.filled[1..], spare := s.spare + 1)
  }

  function NextChunk(c: Config, s: State): nat
    requires c.Sane()
  {
    if s.left < c.SectorsIn(c.maxPacket) then s.left * c.sectorSize else s.chunk
  }

  /** The filler takes the first spare buffer, or a new one if there is none. */
  function Acquired(s: State, ok: bool): State {
    if s.spare == 0 && !ok then s.(filler := Joined(true))
    else s.(filler := if s.chunk == 0 then Publishing else Filling, part := [],
            spare := if s.spare == 0 then 1 else s.spare)
  }

  function Received(s: State, bytes: seq<byte>): State {
    s.(part := s.part + bytes, filler := if |s.part| + |bytes| == s.chunk then Publishing else Filling)
  }

  /** The filler hands over its buffer, which holds n sectors, and signals. */
  function Published(s: State, n: nat): State {
    s.(filler := LoopHead,
       left := if n <= s.left then s.left - n else 0,
       part := [],
       spare := if s.spare > 0 then s.spare - 1 else 0,
       filled := s.filled + [s.part],
       put := s.put + s.part,
       writer := if s.writer.Waiting? then Waiting(true) else s.writer)
  }

  function Tested(s: State): State {
    s.(writer := if s.bytesleft == 0 then Exited(false) else if s.filled == [] then Waiting(false) else Writing)
  }

  function Wrote(s: State, n: nat): State
    requires s.filled != [] && n <= |s.filled[0]|
  {
    var f := s.(file := s.file + s.filled[0][..n]);
    if n == |s.filled[0]| then f.(writer := Returning, bytesleft := s.bytesleft - n) else f.(writer := Exited(true))
  }

  ghost predicate Fits(c: Config, s: State, steps: seq<Step>)
    requires c.Sane()
    decreases |steps|
  {
    steps == [] || (Enabled(s, steps[0]) && Fits(c, Apply(c, s, steps[0]), steps[1..]))
  }

  ghost function Run(c: Config, s: State, steps: seq<Step>): State
    requires c.Sane() && Fits(c, s, steps)
    decreases |steps|
  {
    if steps == [] then s else Run(c, Apply(c, s, steps[0]), steps[1..])
  }

  /** A run and one step more. */
  lemma {:induction false} RunSplit(c: Config, s: State, steps: seq<Step>)
    requires c.Sane() && steps != [] && Fits(c, s, steps)
    ensures var k := |steps| - 1;
            && Fits(c, s, steps[..k]) && Enabled(Run(c, s, steps[..k]), steps[k])
            && Run(c, s, steps) == Apply(c, Run(c, s, steps[..k]), steps[k])
    decreases |steps|
  {
    var k := |steps| - 1;
    if k > 0 {
      RunSplit(c, Apply(c, s, steps[0]), steps[1..]);
      assert steps[1..][..k - 1] == steps[..k][1..];
    } else {
      assert steps[..0] == [];
      assert steps[1..] == [];
    }
  }

  /** What one more step of a run starts from. */
  lemma LastStep(c: Config, steps: seq<Step>) returns (s: State)
    requires Working(c) && steps != [] && Fits(c, Start(c), steps)
    ensures var k := |steps| - 1;
            && Fits(c, Start(c), steps[..k]) && s == Run(c, Start(c), steps[..k])
            && Inv(c, s) && Enabled(s, steps[k]) && Apply(c, s, steps[k]) == Run(c, Start(c), steps)
  {
    var k := |steps| - 1;
    RunSplit(c, Start(c), steps);
    StartInv(c);
    s := Run(c, Start(c), steps[..k]);
    RunKeepsInv(c, Start(c), steps[..k]);
  }

  // ----- the invariant -----

  function Concat(bs: seq<seq<byte>>): seq<byte> {
    if bs == [] then [] else bs[0] + Concat(bs[1..])
  }

  lemma {:induction false} ConcatAppend(bs: seq<seq<byte>>, b: seq<byte>)
    ensures Concat(bs + [b]) == Concat(bs) + b
  {
    if bs == [] {
      assert bs + [b] == [b];
      assert Concat([b]) == b + Concat([]);
    } else {
      assert (bs + [b])[1..] == bs[1..] + [b];
      ConcatAppend(bs[1..], b);
    }
  }

  /** Handed over but not written yet. */
  function Pending(s: State): seq<byte> {
    Concat(if s.writer.Returning? && s.filled != [] then s.filled[1..] else s.filled)
  }

  ghost predicate FillerInv(c: Config, s: State)
    requires c.Sane()
  {
    && |s.put| + s.left * c.sectorSize == c.Total() >= |s.put|
    && (s.filler.Command? ==> s.put == [] && s.left == c.sectors)
    && (s.filler == Joined(true) ==> s.left > 0 || c.sectors == 0)
    && (s.filler.Filling? || s.filler.Publishing? ==> s.left > 0 && s.spare > 0)
    && (s.filler.Filling? || s.filler.Publishing? ==> s.chunk == c.Chunk(s.left))
    && (s.left >= c.SectorsIn(c.maxPacket) ==> s.chunk == c.Mask())
    && (s.filler.Filling? ==> |s.part| < s.chunk)
    && (s.filler.Publishing? ==> |s.part| == s.chunk)
    && (s.filler.Joined? && !s.filler.aborted ==> s.left == 0)
  }

  ghost predicate WriterInv(c: Config, s: State) {
    && s.bytesleft >= 0
    && (s.writer.Exited? && s.writer.failed ==> s.file <= s.put)
    && (!(s.writer.Exited? && s.writer.failed) ==> s.put == s.file + Pending(s) && s.bytesleft == c.Total() - |s.file|)
    && (s.writer.Writing? || s.writer.Returning? ==> s.filled != [])
    && (s.writer.Waiting? ==> s.bytesleft != 0)
    && (s.writer.Waiting? && !s.writer.woken ==> s.filled == [])
    && (s.writer.Exited? && !s.writer.failed ==> s.bytesleft == 0)
    && (forall i | 0 <= i < |s.filled| :: s.filled[i] != [])
  }

  ghost predicate Inv(c: Config, s: State)
    requires c.Sane()
  {
    FillerInv(c, s) && WriterInv(c, s)
  }

  /** The mask rounds the packet size down to whole sectors. */
  lemma MaskRoundsDown(c: Config)
    requires c.Proper()
    ensures c.Sane()
    ensures c.Mask() == (c.SectorsIn(c.maxPacket)) * c.sectorSize
  {
    var k: nat :| k < 32 && c.sectorSize == Pow2(k);
    Pow2Monotone(k, 31);
    assert Pow2(31) == 0x8000_0000 && Pow2(32) == 0x1_0000_0000 by { Pow2At32(); }
    AndClearsLowBits(c.maxPacket, k, 32);
    ClearLowIsRoundDown(c.maxPacket, k);
    Quotient(c.maxPacket, c.sectorSize);
  }

  lemma Pow2At32()
    ensures Pow2(31) == 0x8000_0000 && Pow2(32) == 0x1_0000_0000
  {
    assert Pow2(8) == 256;
    assert Pow2(16) == 65536;
    assert Pow2(24) == 0x100_0000;
    assert Pow2(31) == 0x8000_0000;
  }

  /** Every chunk is whole sectors, within the packet and within what is left. */
  lemma ChunkFits(c: Config, left: nat) returns (q: nat)
    requires c.Proper() && left > 0
    ensures c.Sane() && c.Chunk(left) == q * c.sectorSize
    ensures c.SectorsIn(c.Chunk(left)) == q <= left && c.Chunk(left) % c.sectorSize == 0
    ensures c.Chunk(left) <= c.maxPacket
    ensures q > 0 <==> c.maxPacket >= c.sectorSize
    ensures q > 0 ==> c.Chunk(left) > 0
  {
    MaskRoundsDown(c);
    var m := c.SectorsIn(c.maxPacket);
    q := if left < m then left else m;
    Quotient(c.maxPacket, c.sectorSize);
    Multiples(q, c.sectorSize);
    MulMonotone(q, m, c.sectorSize);
    MulMonotone(if q > 0 then 1 else 0, q, c.sectorSize);
  }

  /** With a packet smaller than a sector the loop never gets anywhere; otherwise every chunk is data. */
  lemma ChunksProgressIff(c: Config, left: nat)
    requires c.Proper() && left > 0
    ensures c.Sane() && (c.Chunk(left) > 0 <==> c.maxPacket >= c.sectorSize)
    ensures c.maxPacket < c.sectorSize ==>
              forall s: State | s.filler.Publishing? && s.left == left && s.chunk == c.Chunk(left) ::
                  Apply(c, s, Publish).left == left
  {
    var q := ChunkFits(c, left);
  }

  lemma StartInv(c: Config)
    requires c.Sane()
    ensures Inv(c, Start(c))
  {
  }

  predicate FillerStep(step: Step) {
    step.SendCommand? || step.Acquire? || step.LeaveLoop? || step.Fill? || step.FillFails?
    || step.Retry? || step.Publish?
  }

  ghost predicate Working(c: Config) {
    c.Proper() && c.Sane() && c.maxPacket >= c.sectorSize
  }

  lemma AcquireKeepsInv(c: Config, s: State, ok: bool)
    requires Working(c) && Inv(c, s) && Enabled(s, Acquire(ok))
    ensures Inv(c, Apply(c, s, Acquire(ok)))
    ensures 0 < NextChunk(c, s) <= c.maxPacket
  {
    var q := ChunkFits(c, s.left);
    assert NextChunk(c, s) == c.Chunk(s.left);
  }

  lemma FillerStepKeepsInv(c: Config, s: State, step: Step)
    requires Working(c) && Inv(c, s) && Enabled(s, step)
    requires step.SendCommand? || step.LeaveLoop? || step.Fill? || step.FillFails? || step.Retry?
    ensures Inv(c, Apply(c, s, step))
  {
  }

  lemma PublishKeepsInv(c: Config, s: State)
    requires Working(c) && Inv(c, s) && Enabled(s, Publish)
    ensures Inv(c, Apply(c, s, Publish))
    ensures Apply(c, s, Publish).left < s.left && c.SectorsIn(s.chunk) <= s.left
  {
    var q := ChunkFits(c, s.left);
    PublishKeepsFiller(c, s, q);
    PublishKeepsWriter(c, s, q);
  }

  lemma PublishKeepsFiller(c: Config, s: State, n: nat)
    requires c.Sane() && FillerInv(c, s) && s.filler.Publishing?
    requires 0 < n <= s.left && s.chunk == n * c.sectorSize
    requires s.left - n >= c.SectorsIn(c.maxPacket) ==> s.chunk == c.Mask()
    ensures FillerInv(c, Published(s, n))
  {
    WithoutSome(s.left, n, c.sectorSize);
    hide Config.Mask, Config.SectorsIn, Config.Total;
  }

  lemma WithoutSome(left: nat, n: nat, size: nat)
    requires n <= left
    ensures left * size - n * size == (left - n) * size >= 0
  {
    MulMonotone(0, left - n, size);
  }

  lemma PublishKeepsWriter(c: Config, s: State, n: nat)
    requires c.Sane() && WriterInv(c, s) && s.part != []
    ensures WriterInv(c, Published(s, n))
  {
    PublishKeepsPending(s, n);
    if s.file <= s.put {
      assert s.file <= s.put + s.part;
    }
    assert (s.file + Pending(s)) + s.part == s.file + (Pending(s) + s.part);
  }

  lemma PublishKeepsPending(s: State, n: nat)
    requires s.writer.Returning? ==> s.filled != []
    ensures Pending(Published(s, n)) == Pending(s) + s.part
  {
    if s.writer.Returning? && s.filled != [] {
      assert (s.filled + [s.part])[1..] == s.filled[1..] + [s.part];
      ConcatAppend(s.filled[1..], s.part);
    } else {
      ConcatAppend(s.filled, s.part);
    }
  }

  lemma WriterStepKeepsInv(c: Config, s: State, step: Step)
    requires c.Sane() && Inv(c, s) && Enabled(s, step) && !FillerStep(step)
    ensures Inv(c, Apply(c, s, step))
  {
    if step.Write? {
      SplitWrite(s.file, s.filled[0], Concat(s.filled[1..]), step.n);
    }
  }

  lemma SplitWrite(file: seq<byte>, b: seq<byte>, rest: seq<byte>, n: nat)
    requires n <= |b|
    ensures file + (b + rest) == (file + b[..n]) + (b[n..] + rest)
    ensures n == |b| ==> b[n..] + rest == rest && file + (b + rest) == (file + b[..n]) + rest
  {
  }

  lemma StepKeepsInv(c: Config, s: State, step: Step)
    requires Working(c) && Inv(c, s) && Enabled(s, step)
    ensures Inv(c, Apply(c, s, step))
  {
    if step.Publish? { PublishKeepsInv(c, s); }
    else if step.Acquire? { AcquireKeepsInv(c, s, step.ok); }
    else if FillerStep(step) { FillerStepKeepsInv(c, s, step); }
    else { WriterStepKeepsInv(c, s, step); }
  }

  lemma {:induction false} RunKeepsInv(c: Config, s: State, steps: seq<Step>)
    requires Working(c) && Inv(c, s) && Fits(c, s, steps)
    ensures Inv(c, Run(c, s, steps))
    decreases |steps|
  {
    if steps != [] {
      StepKeepsInv(c, s, steps[0]);
      RunKeepsInv(c, Apply(c, s, steps[0]), steps[1..]);
    }
  }

  /** In every interleaving the file is an in-order prefix of what was put into buffers, which is
      never more than what was asked for. */
  lemma FileIsPrefix(c: Config, steps: seq<Step>)
    requires Working(c) && Fits(c, Start(c), steps)
    ensures var s := Run(c, Start(c), steps); s.file <= s.put && |s.put| <= c.Total()
  {
    StartInv(c);
    RunKeepsInv(c, Start(c), steps);
    var s := Run(c, Start(c), steps);
    assert s.put[..|s.file|] == s.file;
  }

  /** When both threads are through and neither gave up, the file is exactly everything that was put
      into buffers, exactly the requested size, and bytesleft reached exactly 0. */
  lemma FinishedCopyIsComplete(c: Config, steps: seq<Step>)
    requires Working(c) && Fits(c, Start(c), steps)
    requires Run(c, Start(c), steps).writer == Exited(false)
    ensures var s := Run(c, Start(c), steps);
            && s.file == s.put && |s.file| == c.Total() && s.bytesleft == 0
            && s.left == 0
  {
    StartInv(c);
    RunKeepsInv(c, Start(c), steps);
    var s := Run(c, Start(c), steps);
    assert |s.put| == |s.file| + |Pending(s)|;
    assert s.put == s.file + [];
    if s.left > 0 { MulMonotone(1, s.left, c.sectorSize); }
  }

  /** A step that gets nowhere: the writer wakes for nothing, or the filler asks for the same again. */
  predicate Vain(step: Step) { step.SpuriousWake? || step.Retry? }

  /** No step is possible but a spurious wakeup. */
  ghost predicate Stuck(c: Config, s: State)
    requires c.Sane()
  {
    forall step | Enabled(s, step) :: step.SpuriousWake?
  }

  /** No deadlock and no lost wakeup: a run that can go no further is either over, or the filler gave
      up early (no memory, or the read command could not be written) and the writer waits for the rest. */
  lemma StuckIff(c: Config, steps: seq<Step>)
    requires Working(c) && Fits(c, Start(c), steps)
    ensures var s := Run(c, Start(c), steps);
            Stuck(c, s) <==>
              && s.filler.Joined?
              && (s.writer.Exited? || (s.writer == Waiting(false) && s.filler.aborted))
    ensures var s := Run(c, Start(c), steps);
            s.writer == Waiting(false) && s.filler == Joined(true) ==> |s.file| < c.Total() && s.file == s.put
  {
    StartInv(c);
    RunKeepsInv(c, Start(c), steps);
    StuckIffHere(c, Run(c, Start(c), steps));
  }

  lemma StuckIffHere(c: Config, s: State)
    requires Working(c) && Inv(c, s)
    ensures Stuck(c, s) <==>
              && s.filler.Joined?
              && (s.writer.Exited? || (s.writer == Waiting(false) && s.filler.aborted))
    ensures s.writer == Waiting(false) && s.filler == Joined(true) ==> |s.file| < c.Total() && s.file == s.put
  {
    if Stuck(c, s) {
      assert !Enabled(s, SendCommand(true)) && !Enabled(s, LeaveLoop) && !Enabled(s, Acquire(true));
      assert !Enabled(s, FillFails) && !Enabled(s, Publish) && !Enabled(s, Test) && !Enabled(s, Wake);
      assert !Enabled(s, Write(0)) && !Enabled(s, GiveBack);
    }
    if s.writer == Waiting(false) {
      assert s.put == s.file + [];
    }
  }

  /** A read command that cannot be written to the port is enough to leave the copy hanging in pthread_join. */
  lemma UnsentCommandHangs(c: Config)
    requires Working(c) && c.Total() > 0
    ensures var steps := [SendCommand(false), Test];
            && Fits(c, Start(c), steps) && Stuck(c, Run(c, Start(c), steps))
            && Run(c, Start(c), steps).writer == Waiting(false)
  {
    var steps := [SendCommand(false), Test];
    var s1 := Apply(c, Start(c), SendCommand(false));
    var s2 := Apply(c, s1, Test);
    assert steps[1..] == [Test] && [Test][1..] == [];
    assert Fits(c, s2, []) && Fits(c, s1, [Test]);
    assert Run(c, s1, [Test]) == Run(c, s2, []) == s2;
    StartInv(c);
    StuckIff(c, steps);
  }

  /** As long as the port fails with EAGAIN, which may be left over from an earlier timeout, the filler
      asks again, and the writer waits. */
  lemma {:induction false} PortAtEndSpins(c: Config, s: State, n: nat)
    requires c.Sane() && s.filler.Filling?
    ensures var steps := seq(n, _ => Retry); Fits(c, s, steps) && Run(c, s, steps) == s
  {
    var steps := seq(n, _ => Retry);
    if n > 0 {
      assert steps[1..] == seq(n - 1, _ => Retry);
      PortAtEndSpins(c, s, n - 1);
    }
  }

  // ----- what a copy without trouble comes to -----

  /** The command cannot be written, there is no memory for a buffer that is needed, or the file takes
      less than a buffer. */
  predicate Trouble(s: State, step: Step) {
    || step == SendCommand(false)
    || (step == Acquire(false) && s.spare == 0)
    || (step.Write? && s.filled != [] && step.n < |s.filled[0]|)
  }

  ghost predicate Smooth(c: Config, s: State, steps: seq<Step>)
    requires c.Sane() && Fits(c, s, steps)
    decreases |steps|
  {
    steps == [] || (!Trouble(s, steps[0]) && Smooth(c, Apply(c, s, steps[0]), steps[1..]))
  }

  predicate GaveUp(s: State) { s.filler == Joined(true) || s.writer == Exited(true) }

  lemma StepGivesUpIff(c: Config, s: State, step: Step)
    requires c.Sane() && Enabled(s, step)
    ensures GaveUp(Apply(c, s, step)) <==> GaveUp(s) || Trouble(s, step)
  {
  }

  /** A thread gives up exactly if there was trouble. */
  lemma {:induction false} GaveUpIff(c: Config, s: State, steps: seq<Step>)
    requires c.Sane() && Fits(c, s, steps)
    ensures GaveUp(Run(c, s, steps)) <==> GaveUp(s) || !Smooth(c, s, steps)
    decreases |steps|
  {
    if steps != [] {
      StepGivesUpIff(c, s, steps[0]);
      hide Trouble, GaveUp, Enabled, Apply;
      GaveUpIff(c, Apply(c, s, steps[0]), steps[1..]);
    }
  }

  /** A copy that can go no further wrote the whole file exactly if there was no trouble: then both
      threads are through, bytesleft is 0, and the file is what was put into buffers, all of it. */
  lemma CopyCompletesIff(c: Config, steps: seq<Step>)
    requires Working(c) && Fits(c, Start(c), steps) && Stuck(c, Run(c, Start(c), steps))
    ensures var s := Run(c, Start(c), steps);
            Smooth(c, Start(c), steps) ==>
              && s.filler == Joined(false) && s.writer == Exited(false)
              && s.bytesleft == 0 && s.file == s.put && |s.file| == c.Total()
    ensures !Smooth(c, Start(c), steps) && c.sectors > 0 ==> Run(c, Start(c), steps).writer != Exited(false)
  {
    var s := Run(c, Start(c), steps);
    GaveUpIff(c, Start(c), steps);
    StuckIff(c, steps);
    StartInv(c);
    RunKeepsInv(c, Start(c), steps);
    if s.writer == Exited(false) { FinishedCopyIsComplete(c, steps); }
  }

  // ----- what the file holds -----

  /** What the device gave: the bytes of each read, in order. */
  function Given(steps: seq<Step>): seq<byte> {
    if steps == [] then []
    else
      var k := |steps| - 1;
      Given(steps[..k]) + if steps[k].Fill? then steps[k].bytes else []
  }

  /** Where the chunk ends in which the byte behind the first n lies: chunks are as long as the packet
      size holds whole sectors, but for the last. */
  function ChunkEnd(c: Config, n: nat): nat
    requires 0 < c.sectorSize <= c.maxPacket
  {
    var m := c.maxPacket - c.maxPacket % c.sectorSize;
    if n - n % m + m < c.Total() then n - n % m + m else c.Total()
  }

  /** What a file should hold after a schedule: what was given, and for each read that failed 0xee up
      to the end of its chunk. */
  function Wanted(c: Config, steps: seq<Step>): seq<byte>
    requires 0 < c.sectorSize <= c.maxPacket
  {
    if steps == [] then [] else WantedAfter(c, Wanted(c, steps[..|steps| - 1]), steps[|steps| - 1])
  }

  function WantedAfter(c: Config, d: seq<byte>, step: Step): seq<byte>
    requires 0 < c.sectorSize <= c.maxPacket
  {
    match step
    case Fill(bytes) => d + bytes
    case FillFails => d + seq(if |d| <= ChunkEnd(c, |d|) then ChunkEnd(c, |d|) - |d| else 0, _ => 0xee)
    case _ => d
  }

  /** What was put into buffers and into the filler's is wanted; whole chunks were put as long as
      sectors are left. */
  ghost predicate Holds(c: Config, s: State, d: seq<byte>)
    requires c.Sane()
  {
    && s.put + s.part == d
    && (s.part != [] ==> s.filler.Filling? || s.filler.Publishing?)
    && (s.left > 0 ==> c.Mask() > 0 && |s.put| % c.Mask() == 0)
  }

  lemma ChunkEndIs(c: Config, put: nat, left: nat, part: nat)
    requires Working(c) && left > 0 && put + left * c.sectorSize == c.Total() && part < c.Chunk(left)
    requires c.Mask() > 0 && put % c.Mask() == 0
    ensures ChunkEnd(c, put + part) == put + c.Chunk(left)
  {
    var m, most := c.Mask(), c.SectorsIn(c.maxPacket);
    MaskRoundsDown(c);
    Quotient(c.maxPacket, c.sectorSize);
    if left < most { MulMonotone(left + 1, most, c.sectorSize); } else { MulMonotone(most, left, c.sectorSize); }
    InLastPart(put, part, m);
  }

  lemma InLastPart(put: nat, part: nat, m: nat)
    requires m > 0 && put % m == 0 && part < m
    ensures (put + part) % m == part
  {
    DivModUnique(put + part, m, put / m, part);
  }

  lemma AddsPart(put: nat, m: nat)
    requires m > 0 && put % m == 0
    ensures (put + m) % m == 0
  {
    DivModUnique(put + m, m, put / m + 1, 0);
  }

  lemma ReceivedHolds(c: Config, s: State, bytes: seq<byte>, d: seq<byte>)
    requires c.Sane() && Holds(c, s, d) && s.filler.Filling? && |s.part| + |bytes| <= s.chunk
    ensures Holds(c, Received(s, bytes), d + bytes)
  {
    assert (s.put + s.part) + bytes == s.put + (s.part + bytes);
    hide Config.Mask;
  }

  /** Only the last chunk is shorter than the packet size allows. */
  lemma WholeUnlessLast(c: Config, left: nat)
    requires Working(c) && left > 0
    ensures c.SectorsIn(c.Chunk(left)) < left ==> c.Chunk(left) == c.Mask()
    ensures c.Mask() > 0
  {
    if left < c.SectorsIn(c.maxPacket) { Multiples(left, c.sectorSize); }
    MaskRoundsDown(c);
    Quotient(c.maxPacket, c.sectorSize);
    hide Config.Mask;
  }

  lemma PublishHolds(c: Config, s: State, n: nat, d: seq<byte>)
    requires c.Sane() && c.Mask() > 0 && Holds(c, s, d) && s.left > 0 && n <= s.left
    requires n < s.left ==> |s.part| == c.Mask()
    ensures Holds(c, Published(s, n), d)
  {
    AddsPart(|s.put|, c.Mask());
    hide Config.Mask;
    assert (s.put + s.part) + [] == d;
  }

  lemma OtherHolds(c: Config, s: State, step: Step, d: seq<byte>)
    requires c.Sane() && Enabled(s, step) && Holds(c, s, d) && !step.Fill? && !step.FillFails? && !step.Publish?
    ensures Holds(c, Apply(c, s, step), d)
  {
    assert s.part == [] ==> s.put + [] == d;
    hide Config.Mask, NextChunk;
  }

  lemma StepHolds(c: Config, s: State, step: Step, d: seq<byte>)
    requires Working(c) && Inv(c, s) && Enabled(s, step) && Holds(c, s, d)
    ensures Holds(c, Apply(c, s, step), WantedAfter(c, d, step))
  {
    hide Holds, WriterInv, Config.Mask, Config.Chunk, Received, Published;
    if step.Publish? { PublishKeepsInv(c, s); }
    match step
    case Fill(bytes) => ReceivedHolds(c, s, bytes, d);
    case FillFails =>
      PadIs(c, s, d);
      ReceivedHolds(c, s, seq(s.chunk - |s.part|, _ => 0xee), d);
    case Publish =>
      WholeUnlessLast(c, s.left);
      PublishHolds(c, s, c.SectorsIn(s.chunk), d);
    case _ => OtherHolds(c, s, step, d);
  }

  lemma PadIs(c: Config, s: State, d: seq<byte>)
    requires Working(c) && FillerInv(c, s) && Holds(c, s, d) && s.filler.Filling?
    ensures ChunkEnd(c, |d|) - |d| == s.chunk - |s.part| >= 0
  {
    ChunkEndIs(c, |s.put|, s.left, |s.part|);
    hide ChunkEnd, Config.Mask, Config.Chunk;
  }

  lemma {:induction false} RunHolds(c: Config, steps: seq<Step>)
    requires Working(c) && Fits(c, Start(c), steps)
    ensures Holds(c, Run(c, Start(c), steps), Wanted(c, steps))
    decreases |steps|
  {
    if steps == [] {
      MaskRoundsDown(c);
    } else {
      var s := LastStep(c, steps);
      RunHolds(c, steps[..|steps| - 1]);
      StepHolds(c, s, steps[|steps| - 1], Wanted(c, steps[..|steps| - 1]));
    }
  }

  /** In every interleaving the file is a prefix of what it should hold, and all of it once the writer
      is through. */
  lemma FileIsWanted(c: Config, steps: seq<Step>)
    requires Working(c) && Fits(c, Start(c), steps)
    ensures var s := Run(c, Start(c), steps);
            && s.file <= Wanted(c, steps)
            && (s.writer == Exited(false) ==> s.file == Wanted(c, steps))
  {
    RunHolds(c, steps);
    FileIsPrefix(c, steps);
    var s := Run(c, Start(c), steps);
    if s.writer == Exited(false) {
      FinishedCopyIsComplete(c, steps);
      StartInv(c);
      RunKeepsInv(c, Start(c), steps);
    }
  }

  /** Without a failed read that is what was given; with one it is more. */
  lemma {:induction false} WantedIsGivenIff(c: Config, steps: seq<Step>)
    requires Working(c) && Fits(c, Start(c), steps)
    ensures FillFails !in steps ==> Wanted(c, steps) == Given(steps)
    ensures FillFails in steps ==> |Wanted(c, steps)| > |Given(steps)|
    decreases |steps|
  {
    if steps != [] {
      var k := |steps| - 1;
      var s := LastStep(c, steps);
      var d := Wanted(c, steps[..k]);
      RunHolds(c, steps[..k]);
      WantedIsGivenIff(c, steps[..k]);
      InLastOr(steps, FillFails);
      hide *;
      if steps[k].FillFails? { FailsAdd(c, s, d); }
      OneMore(c, steps, d, Given(steps[..k]));
    }
  }

  lemma InLastOr<T>(s: seq<T>, x: T)
    requires s != []
    ensures x in s <==> x in s[..|s| - 1] || s[|s| - 1] == x
  {
    assert s == s[..|s| - 1] + [s[|s| - 1]];
  }

  lemma OneMore(c: Config, steps: seq<Step>, d: seq<byte>, g: seq<byte>)
    requires 0 < c.sectorSize <= c.maxPacket
    requires steps != [] && d == Wanted(c, steps[..|steps| - 1]) && g == Given(steps[..|steps| - 1])
    requires steps[|steps| - 1].FillFails? ==> |WantedAfter(c, d, FillFails)| > |d| >= |g|
    ensures d == g && !steps[|steps| - 1].FillFails? ==> Wanted(c, steps) == Given(steps)
    ensures |d| > |g| || steps[|steps| - 1].FillFails? ==> |Wanted(c, steps)| > |Given(steps)|
  {
    hide ChunkEnd;
    var step := steps[|steps| - 1];
    assert Wanted(c, steps) == WantedAfter(c, d, step);
  }

  lemma FailsAdd(c: Config, s: State, d: seq<byte>)
    requires Working(c) && Inv(c, s) && Enabled(s, FillFails) && Holds(c, s, d)
    ensures |WantedAfter(c, d, FillFails)| > |d|
  {
    PadIs(c, s, d);
    hide ChunkEnd;
  }

  /** So a copy that came to its end holds what the device gave, all of it and in order, exactly if no
      read failed. */
  lemma FileIsGivenIff(c: Config, steps: seq<Step>)
    requires Working(c) && Fits(c, Start(c), steps) && Run(c, Start(c), steps).writer == Exited(false)
    ensures Run(c, Start(c), steps).file == Given(steps) <==> FillFails !in steps
  {
    FileIsWanted(c, steps);
    WantedIsGivenIff(c, steps);
  }

  // ----- any file can be copied -----

  lemma First(c: Config, s: State, step: Step, rest: seq<Step>) returns (steps: seq<Step>)
    requires c.Sane() && Enabled(s, step) && Fits(c, Apply(c, s, step), rest)
    ensures steps == [step] + rest && Fits(c, s, steps) && Run(c, s, steps) == Run(c, Apply(c, s, step), rest)
  {
    steps := [step] + rest;
    assert steps[1..] == rest;
    hide Enabled, Apply;
  }

  /** Both threads are between two chunks, and every buffer is written. */
  ghost predicate Idle(s: State) { s.filler.LoopHead? && s.writer.Head? && s.filled == [] && s.part == [] }

  /** What one chunk does to an idle copy that all goes well with. */
  function Chunked(s: State, chunk: nat, n: nat, b: seq<byte>): State {
    s.(left := if n <= s.left then s.left - n else 0, chunk := chunk, spare := if s.spare == 0 then 1 else s.spare,
       put := s.put + b, file := s.file + b, bytesleft := s.bytesleft - |b|)
  }

  /** The chunk is read and handed over. */
  lemma ChunkRead(c: Config, s: State, b: seq<byte>) returns (s1: State, s2: State, s3: State)
    requires c.Sane() && Idle(s) && s.left > 0 && |b| == NextChunk(c, s) > 0
    ensures Enabled(s, Acquire(true)) && s1 == Apply(c, s, Acquire(true))
    ensures Enabled(s1, Fill(b)) && s2 == Apply(c, s1, Fill(b))
    ensures Enabled(s2, Publish) && s3 == Apply(c, s2, Publish)
    ensures s3 == Chunked(s, |b|, c.SectorsIn(|b|), b).(spare := if s.spare == 0 then 0 else s.spare - 1, filled := [b],
                                                         file := s.file, bytesleft := s.bytesleft)
  {
    s1 := Apply(c, s, Acquire(true));
    s2 := Apply(c, s1, Fill(b));
    assert s1.part + b == b && s2.filled + [b] == [b];
    s3 := Apply(c, s2, Publish);
  }

  /** It is written, and its buffer given back. */
  lemma ChunkWritten(c: Config, s: State, b: seq<byte>) returns (s1: State, s2: State, s3: State)
    requires c.Sane() && s.writer.Head? && s.filled == [b] && s.bytesleft > 0
    ensures Enabled(s, Test) && s1 == Apply(c, s, Test)
    ensures Enabled(s1, Write(|b|)) && s2 == Apply(c, s1, Write(|b|))
    ensures Enabled(s2, GiveBack) && s3 == Apply(c, s2, GiveBack)
    ensures s3 == s.(filled := [], spare := s.spare + 1, file := s.file + b, bytesleft := s.bytesleft - |b|)
  {
    s1 := Apply(c, s, Test);
    assert s1.filled[0][..|b|] == b;
    s2 := Apply(c, s1, Write(|b|));
    s3 := Apply(c, s2, GiveBack);
  }

  /** The six steps that take a chunk to the file. */
  lemma OneChunk(c: Config, s: State, b: seq<byte>, rest: seq<Step>) returns (steps: seq<Step>)
    requires c.Sane() && Idle(s) && s.left > 0 && s.bytesleft > 0
    requires |b| == NextChunk(c, s) > 0
    requires Fits(c, Chunked(s, |b|, c.SectorsIn(|b|), b), rest)
    ensures Fits(c, s, steps) && Run(c, s, steps) == Run(c, Chunked(s, |b|, c.SectorsIn(|b|), b), rest)
    ensures steps == [Acquire(true), Fill(b), Publish, Test, Write(|b|), GiveBack] + rest
  {
    var s1, s2, s3 := ChunkRead(c, s, b);
    var s4, s5, s6 := ChunkWritten(c, s3, b);
    assert s6 == Chunked(s, |b|, c.SectorsIn(|b|), b);
    hide *;
    steps := First(c, s5, GiveBack, rest);
    steps := First(c, s4, Write(|b|), steps);
    steps := First(c, s3, Test, steps);
    steps := First(c, s2, Publish, steps);
    steps := First(c, s1, Fill(b), steps);
    steps := First(c, s, Acquire(true), steps);
  }

  /** A copy that stands between two chunks, so many sectors from its end. */
  ghost predicate Resting(c: Config, s: State)
    requires c.Sane()
  {
    && Idle(s) && s.bytesleft == s.left * c.sectorSize
    && (s.left >= c.SectorsIn(c.maxPacket) ==> s.chunk == c.Mask())
  }

  lemma ChunkedRests(c: Config, s: State, b: seq<byte>)
    requires Working(c) && Resting(c, s) && s.left > 0 && |b| == NextChunk(c, s)
    ensures s.bytesleft > 0 && 0 < |b| <= s.left * c.sectorSize
    ensures var t := Chunked(s, |b|, c.SectorsIn(|b|), b); Resting(c, t) && t.left < s.left
  {
    var q := ChunkFits(c, s.left);
    assert NextChunk(c, s) == c.Chunk(s.left);
    WholeUnlessLast(c, s.left);
    MulMonotone(1, s.left, c.sectorSize);
    MulMonotone(q, s.left, c.sectorSize);
    WithoutSome(s.left, q, c.sectorSize);
    LeftBelow(c, s.left, q);
    hide Config.Mask, Config.SectorsIn, NextChunk, Config.Chunk;
  }

  lemma LeftBelow(c: Config, left: nat, q: nat)
    requires Working(c) && left > 0 && q == c.SectorsIn(c.Chunk(left)) <= left
    ensures left - q >= c.SectorsIn(c.maxPacket) ==> c.Chunk(left) == c.Mask()
  {
    WholeUnlessLast(c, left);
    Quotient(c.maxPacket, c.sectorSize);
  }

  lemma {:induction false} RestIsCopied(c: Config, s: State, d: seq<byte>) returns (steps: seq<Step>)
    requires Working(c) && Resting(c, s) && |d| == s.left * c.sectorSize
    ensures Fits(c, s, steps) && FillFails !in steps
    ensures var t := Run(c, s, steps); t.writer == Exited(false) && t.filler == Joined(false) && t.file == s.file + d
    decreases s.left
  {
    if s.left == 0 {
      var s1 := Apply(c, s, LeaveLoop);
      var s2 := Apply(c, s1, Test);
      steps := First(c, s1, Test, []);
      steps := First(c, s, LeaveLoop, steps);
      assert s2.file == s.file + d;
    } else {
      var n := NextChunk(c, s);
      ChunkedRests(c, s, seq(n, _ => 0));
      var b, r := d[..n], d[n..];
      ChunkedRests(c, s, b);
      var t := Chunked(s, n, c.SectorsIn(n), b);
      assert d == b + r;
      var rest := RestIsCopied(c, t, r);
      steps := OneChunk(c, s, b, rest);
      assert (s.file + b) + r == s.file + (b + r);
    }
  }

  /** Whatever the disk holds, there is a run that copies it: of all that can go wrong nothing has to. */
  lemma AnythingCanBeCopied(c: Config, d: seq<byte>) returns (steps: seq<Step>)
    requires Working(c) && |d| == c.Total()
    ensures Fits(c, Start(c), steps) && FillFails !in steps
    ensures var s := Run(c, Start(c), steps); s.writer == Exited(false) && s.filler == Joined(false) && s.file == d
  {
    var s := Apply(c, Start(c), SendCommand(true));
    steps := RestIsCopied(c, s, d);
    steps := First(c, Start(c), SendCommand(true), steps);
    assert [] + d == d;
  }

  // ----- every run is bounded -----

  function FillerRank(pc: FillerPc): nat {
    match pc
    case Command => 2
    case LoopHead => 1
    case Filling => 0
    case Publishing => 5
    case Joined(_) => 0
  }

  function WriterRank(pc: WriterPc): nat {
    match pc
    case Head => 2
    case Waiting(woken) => if woken then 3 else 1
    case Writing => 1
    case Returning => 3
    case Exited(_) => 0
  }

  /** Bytes still to put into buffers and to write, and how far each thread is in its round. */
  function Rank(c: Config, s: State): int {
    6 * (c.Total() - |s.put| - (if s.filler.Filling? || s.filler.Publishing? then |s.part| else 0))
        + FillerRank(s.filler)
    + 3 * s.bytesleft + WriterRank(s.writer)
  }

  lemma FillerStepLowersRank(c: Config, s: State, step: Step)
    requires Working(c) && Inv(c, s) && Enabled(s, step) && FillerStep(step)
    ensures Rank(c, Apply(c, s, step)) <= Rank(c, s) - if step.Retry? then 0 else 1
  {
    if step.Acquire? {
      AcquireKeepsInv(c, s, step.ok);
    }
  }

  lemma WriterStepLowersRank(c: Config, s: State, step: Step)
    requires c.Sane() && Inv(c, s) && Enabled(s, step) && !FillerStep(step)
    ensures if step.SpuriousWake? then Rank(c, Apply(c, s, step)) == Rank(c, s) + 1
            else Rank(c, Apply(c, s, step)) < Rank(c, s)
  {
  }

  /** Every step but the vain ones brings the copy nearer to its end. */
  lemma StepLowersRank(c: Config, s: State, step: Step)
    requires Working(c) && Inv(c, s) && Enabled(s, step)
    ensures Rank(c, Apply(c, s, step)) <= Rank(c, s) + if step.SpuriousWake? then 1 else if step.Retry? then 0 else -1
  {
    if FillerStep(step) { FillerStepLowersRank(c, s, step); } else { WriterStepLowersRank(c, s, step); }
  }

  /** How many steps get nowhere. */
  ghost function VainSteps(steps: seq<Step>): nat {
    if steps == [] then 0 else (if Vain(steps[0]) then 1 else 0) + VainSteps(steps[1..])
  }

  /** Apart from vain steps no run is longer than a constant times the number of bytes. */
  lemma {:induction false} RunsAreBounded(c: Config, s: State, steps: seq<Step>)
    requires Working(c) && Inv(c, s) && Fits(c, s, steps)
    ensures |steps| <= Rank(c, s) + 2 * VainSteps(steps)
    decreases |steps|
  {
    if steps == [] {
      RankIsNatural(c, s);
    } else {
      StepKeepsInv(c, s, steps[0]);
      StepLowersRank(c, s, steps[0]);
      RunsAreBounded(c, Apply(c, s, steps[0]), steps[1..]);
    }
  }

  lemma RankIsNatural(c: Config, s: State)
    requires Working(c) && Inv(c, s)
    ensures Rank(c, s) >= 0
  {
    if s.left > 0 {
      var q := ChunkFits(c, s.left);
      MulMonotone(q, s.left, c.sectorSize);
    }
  }

  lemma {:induction false} VainStepsCounted(steps: seq<Step>)
    ensures VainSteps(steps) == multiset(steps)[SpuriousWake] + multiset(steps)[Retry]
  {
    if steps != [] {
      assert steps == [steps[0]] + steps[1..];
      VainStepsCounted(steps[1..]);
    }
  }

  /** From the start: nine steps for each byte and four more, and two for each spurious wakeup and each
      retry. */
  lemma RunsEnd(c: Config, steps: seq<Step>)
    requires Working(c) && Fits(c, Start(c), steps)
    ensures |steps| <= 9 * c.Total() + 4 + 2 * (multiset(steps)[SpuriousWake] + multiset(steps)[Retry])
  {
    StartInv(c);
    RunsAreBounded(c, Start(c), steps);
    VainStepsCounted(steps);
    assert Rank(c, Start(c)) == 9 * c.Total() + 4;
  }
}
