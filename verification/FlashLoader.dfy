/** Dload::LoadFlashProg: the commands of a file sent one after the other, and what is taken for their
    acknowledgement. */
module FlashLoader {
  import opened HexRecords
  import opened FlashProg
  import opened HexBatches

  datatype Status = Success | WriteFault

  /** What comes back for a packet: nothing that could be used (the port failed, or the answer did not
      fit), or an answer. */
  datatype Answer = Silence | Reply(bytes: seq<byte>)

  function AnswerTo(answers: seq<Answer>, i: nat): Answer {
    if i < |answers| && answers[i].Reply? && |answers[i].bytes| <= 32 then answers[i] else Silence
  }

  predicate Acked(a: Answer) { a.Reply? && a.bytes != [] && a.bytes[0] == CMD_ACK }

  /** What is taken for an acknowledgement: an answer that is one, or no answer at all while the buffer
      happens to start with the code of one. */
  predicate Taken(a: Answer, stale: byte) { Acked(a) || (a.Silence? && stale == CMD_ACK) }

  /** A device that answers the i-th packet it gets with the i-th of its answers. */
  class SerialPort {
    const answers: seq<Answer>
    var sent: seq<seq<byte>>

    constructor (answers: seq<Answer>)
      ensures this.answers == answers && sent == []
    {
      this.answers, sent := answers, [];
    }

    /** SendSync with a buffer of 32 bytes; without an answer, it leaves both buffer and size as they are. */
    method SendSync(out_buf: seq<byte>, rsp: array<byte>, rspSize: nat) returns (newSize: nat)
      requires rsp.Length == 32
      modifies this, rsp
      ensures sent == old(sent) + [out_buf]
      ensures match AnswerTo(answers, |old(sent)|)
              case Silence => newSize == rspSize && rsp[..] == old(rsp[..])
              case Reply(b) => newSize == |b| <= 32 && rsp[..|b|] == b && rsp[|b|..] == old(rsp[|b|..])
    {
      var a := AnswerTo(answers, |sent|);
      newSize := rspSize;
      if a.Reply? {
        newSize := |a.bytes|;
        forall k | 0 <= k < |a.bytes| { rsp[k] := a.bytes[k]; }
      }
      sent := sent + [out_buf];
    }
  }

  /** A command is sent, and its acknowledgement looked for in the buffer. */
  method Send(port: SerialPort, command: seq<byte>, rsp: array<byte>) returns (ok: bool)
    requires rsp.Length == 32
    modifies port, rsp
    ensures port.sent == old(port.sent) + [command]
    ensures ok <==> Taken(AnswerTo(port.answers, |old(port.sent)|), old(rsp[0]))
    ensures ok ==> rsp[0] == CMD_ACK
  {
    ghost var a := AnswerTo(port.answers, |port.sent|);
    ghost var stale := rsp[..][0];
    var rspSize := 32;
    rspSize := port.SendSync(command, rsp, rspSize);
    assert a.Silence? ==> rsp[..][0] == stale;
    assert a.Reply? && a.bytes != [] ==> rsp[0] == rsp[..|a.bytes|][0];
    ok := rspSize != 0 && rsp[0] == CMD_ACK;
  }

  function WriteCommands(packets: seq<Packet>): (c: seq<seq<byte>>)
    ensures |c| == |packets|
    ensures forall i | 0 <= i < |c| :: c[i] == WriteCommand(packets[i])
  {
    seq(|packets|, i requires 0 <= i < |packets| => WriteCommand(packets[i]))
  }

  /** All that is to be sent for a file. */
  function Commands(recs: seq<Record>): seq<seq<byte>> {
    WriteCommands(Packets(recs, 0, 0, Empty(0))) + [GoCommand(GoAddress(recs, 0, 0))]
  }

  /** What the buffer for answers starts with when the GO command is sent: the acknowledgement before it,
      if that was the last thing to come into the buffer, or what the last line left there. */
  function GoStale(lines: seq<string>, lastTerminated: bool, packets: seq<Packet>): byte {
    if !lastTerminated && packets != [] && packets[|packets| - 1].last + 1 == |lines| then CMD_ACK
    else Stale(lines, Before(|lines|))
  }

  /** What it starts with when write commands are sent, and when all commands are. */
  function StalesFor(lines: seq<string>, packets: seq<Packet>): (s: seq<byte>)
    ensures |s| == |packets|
    ensures forall i | 0 <= i < |s| :: s[i] == Stale(lines, packets[i].last)
  {
    seq(|packets|, i requires 0 <= i < |packets| => Stale(lines, packets[i].last))
  }

  function Stales(lines: seq<string>, lastTerminated: bool): (s: seq<byte>)
    requires Proper(lines)
    ensures |s| == |Commands(Records(lines))|
  {
    var packets := Packets(Records(lines), 0, 0, Empty(0));
    StalesFor(lines, packets) + [GoStale(lines, lastTerminated, packets)]
  }

  /** The answers from the k-th on are taken for acknowledgements of commands sent over these bytes. */
  predicate AllTaken(answers: seq<Answer>, k: nat, stales: seq<byte>) {
    forall i: nat | i < |stales| :: Taken(AnswerTo(answers, k + i), stales[i])
  }

  /** The header of a write command, put before the data. */
  method PutHeader(write32: array<byte>, targetAddr: nat, bytesRead: nat, ghost last: nat)
    requires write32.Length == 280 && bytesRead <= 273 && write32[0] == CMD_WRITE_32BIT
    modifies write32
    ensures write32[..7 + bytesRead] == WriteCommand(Packet(targetAddr, old(write32[7..7 + bytesRead]), last))
    ensures write32[0] == CMD_WRITE_32BIT
  {
    ghost var data := write32[7..7 + bytesRead];
    var addr, len := Bytes32(targetAddr), Bytes16(bytesRead);
    hide Bytes32, Bytes16;
    write32[1], write32[2], write32[3], write32[4] := addr[0], addr[1], addr[2], addr[3];
    write32[5], write32[6] := len[0], len[1];
    assert write32[..7 + bytesRead] == [CMD_WRITE_32BIT] + addr + len + data;
  }

  /** A batch is sent, if it is not empty. */
  method SendBatch(write32: array<byte>, g: Gathering, port: SerialPort, rsp: array<byte>, ghost last: nat)
      returns (ok: bool, ghost packets: seq<Packet>)
    requires write32.Length == 280 && write32[0] == CMD_WRITE_32BIT && g.bytesRead <= 273
    requires rsp.Length == 32 && rsp != write32
    modifies write32, port, rsp
    ensures write32[0] == CMD_WRITE_32BIT && packets == Flush(BatchOf(g, old(Kept(write32, g.bytesRead))), last)
    ensures port.sent == old(port.sent) + WriteCommands(packets)
    ensures packets == [] ==> ok && rsp[0] == old(rsp[0])
    ensures packets != [] ==> (ok <==> Taken(AnswerTo(port.answers, |old(port.sent)|), old(rsp[0])))
    ensures packets != [] && ok ==> rsp[0] == CMD_ACK
  {
    packets := Flush(BatchOf(g, Kept(write32, g.bytesRead)), last);
    hide WriteCommand, Taken, Acked, AnswerTo;
    ok := true;
    if g.bytesRead > 0 {
      PutHeader(write32, g.targetAddr, g.bytesRead, last);
      ok := Send(port, write32[..7 + g.bytesRead], rsp);
    }
  }

  /** The packets done, and the records that are left, make up all packets. */
  ghost predicate Progress(done: seq<Packet>, recs: seq<Record>, i: nat, base: nat, go: nat, all: seq<Packet>,
                           goes: nat) {
    && base % 0x10000 == 0 && base <= 0xFFFF_0000 && i <= |recs|
    && done + Packets(recs, i, base, Empty(base)) == all
    && GoAddress(recs, i, go) == goes
    && forall p | p in done :: p.last < i
  }

  lemma ProgressNext(done: seq<Packet>, recs: seq<Record>, i: nat, base: nat, go: nat, all: seq<Packet>, goes: nat,
                     j: nat, g: Gathering, bytes: seq<byte>)
    requires Progress(done, recs, i, base, go, all, goes) && InBounds(g) && i <= j && (i == j ==> j == |recs|) && 0 < j
    requires Closed(recs, j, g, bytes, Packets(recs, i, base, Empty(base)), GoAddress(recs, i, go))
    ensures Progress(done + Flush(BatchOf(g, bytes), Before(j)), recs, j, g.newAddr, g.goAddr, all, goes)
    ensures i == |recs| ==> Flush(BatchOf(g, bytes), Before(j)) == []
    ensures forall p | p in done :: p.last < i
  {
    var f, rest := Flush(BatchOf(g, bytes), Before(j)), Packets(recs, j, g.newAddr, Empty(g.newAddr));
    assert (done + f) + rest == done + (f + rest);
    hide Packets, GoAddress;
  }

  /** What the buffer for answers starts with between two batches. */
  ghost predicate Left(rsp0: byte, file: HexFile, done: seq<Packet>)
    reads file
  {
    if file.pos == 0 then done == []
    else if file.atEnd && file.lastTerminated then rsp0 == Stale(file.lines, Before(file.pos))
    else rsp0 == if done != [] && done[|done| - 1].last == Before(file.pos) then CMD_ACK
        else Stale(file.lines, Before(file.pos))
  }

  /** One round of the outer loop. */
  method DoBatch(file: HexFile, write32: array<byte>, rsp: array<byte>, port: SerialPort, targetAddr: nat, goAddr: nat,
                 ghost done: seq<Packet>, ghost all: seq<Packet>, ghost goes: nat)
      returns (ok: bool, newAddr: nat, newGo: nat, ghost f: seq<Packet>)
    requires file.Valid() && Proper(file.lines) && !file.atEnd && write32.Length == 280 && write32[0] == CMD_WRITE_32BIT
    requires rsp.Length == 32 && rsp != write32
    requires Progress(done, Records(file.lines), file.pos, targetAddr, goAddr, all, goes)
    modifies file, write32, port, rsp
    ensures file.Valid() && write32[0] == CMD_WRITE_32BIT
    ensures file.pos > old(file.pos) || (file.pos == old(file.pos) == |file.lines| && file.atEnd)
    ensures Progress(done + f, Records(file.lines), file.pos, newAddr, newGo, all, goes)
    ensures |f| <= 1 && port.sent == old(port.sent) + WriteCommands(f)
    ensures f == [] ==> ok
    ensures f != [] ==>
              (ok <==> Taken(AnswerTo(port.answers, |old(port.sent)|), Stale(file.lines, f[0].last)))
    ensures ok ==> Left(rsp[0], file, done + f)
  {
    ghost var recs, i := Records(file.lines), file.pos;
    var g := CollectBatch(file, write32, rsp, targetAddr, goAddr);
    ghost var bytes := Kept(write32, g.bytesRead);
    ProgressNext(done, recs, i, targetAddr, goAddr, all, goes, file.pos, g, bytes);
    hide Records, Packets, GoAddress, Proper, Taken, AnswerTo, WriteCommands, Kept, Stale, Progress, Closed, InBounds;
    ok, f := SendBatch(write32, g, port, rsp, Before(file.pos));
    newAddr, newGo := g.newAddr, g.goAddr;
    if ok { LeftAfter(file, done, f, i, rsp[0]); }
  }

  lemma LeftAfter(file: HexFile, done: seq<Packet>, f: seq<Packet>, i: nat, rsp0: byte)
    requires 0 < file.pos <= |file.lines| && (forall p | p in done :: p.last < i)
    requires |f| <= 1 && (f != [] ==> f[0].last == Before(file.pos))
    requires if f == [] then rsp0 == Stale(file.lines, Before(file.pos)) else rsp0 == CMD_ACK
    requires if i < |file.lines| then i < file.pos && (file.atEnd ==> !file.lastTerminated)
             else f == [] && file.atEnd && file.lastTerminated
    ensures Left(rsp0, file, done + f)
  {
    hide Stale;
    if f == [] && done != [] { assert done[|done| - 1] in done; }
  }

  /** How a download went: n commands were sent, all but the last taken for acknowledged; it succeeded
      if they were all commands, and the last one was, too. */
  ghost predicate Downloaded(answers: seq<Answer>, before: seq<seq<byte>>, sent: seq<seq<byte>>, status: Status,
                             cmds: seq<seq<byte>>, stales: seq<byte>)
    requires |cmds| == |stales|
  {
    var k, n := |before|, |sent| - |before|;
    && 0 < n <= |cmds| && sent == before + cmds[..n]
    && AllTaken(answers, k, stales[..n - 1])
    && if status == Success then n == |cmds| && AllTaken(answers, k, stales)
       else !Taken(AnswerTo(answers, k + n - 1), stales[n - 1])
  }

  /** Dload::LoadFlashProg: the commands are sent one after the other until one is not taken for
      acknowledged; it succeeds if all are. */
  method LoadFlashProg(file: HexFile, port: SerialPort) returns (status: Status)
    requires file.Valid() && Proper(file.lines) && file.pos == 0 && !file.atEnd
    modifies file, port
    ensures Downloaded(port.answers, old(port.sent), port.sent, status,
                       Commands(Records(file.lines)), Stales(file.lines, file.lastTerminated))
  {
    ghost var before := port.sent;
    var rsp := new byte[32](_ => 0);
    hide *;
    var ok, goAddr := SendBatches(file, port, rsp);
    if ok {
      ok := Send(port, GoCommand(goAddr), rsp);
      Finished(port.answers, before, port.sent, file, ok);
    }
    status := if ok then Success else WriteFault;
  }

  /** The outer loop. */
  method SendBatches(file: HexFile, port: SerialPort, rsp: array<byte>) returns (ok: bool, goAddr: nat)
    requires file.Valid() && Proper(file.lines) && file.pos == 0 && !file.atEnd && rsp.Length == 32
    modifies file, port, rsp
    ensures ok ==>
              && goAddr == Goes(file.lines) && port.sent == old(port.sent) + WriteCommands(AllPackets(file.lines))
              && AllTaken(port.answers, |old(port.sent)|, StalesFor(file.lines, AllPackets(file.lines)))
              && rsp[0] == GoStale(file.lines, file.lastTerminated, AllPackets(file.lines))
    ensures !ok ==> Downloaded(port.answers, old(port.sent), port.sent, WriteFault,
                               Commands(Records(file.lines)), Stales(file.lines, file.lastTerminated))
  {
    ghost var before := port.sent;
    var write32 := new byte[280](_ => 0);
    write32[0] := CMD_WRITE_32BIT;
    var targetAddr := 0;
    goAddr, ok := 0, true;
    ghost var done: seq<Packet> := [];
    Begin(file, port.answers, before, rsp[0]);
    hide *;
    while !file.atEnd
      invariant file.Valid() && write32[0] == CMD_WRITE_32BIT && ok
      invariant Going(file, port.answers, before, port.sent, targetAddr, goAddr, rsp[0], done)
      decreases |file.lines| - file.pos, !file.atEnd
    {
      ok, targetAddr, goAddr, done := Round(file, write32, rsp, port, targetAddr, goAddr, before, done);
      if !ok { return; }
    }
    AllDone(file, port.answers, before, port.sent, done, targetAddr, goAddr, rsp[0]);
  }

  ghost function AllPackets(lines: seq<string>): seq<Packet>
    requires Proper(lines)
  {
    Packets(Records(lines), 0, 0, Empty(0))
  }

  ghost function Goes(lines: seq<string>): nat
    requires Proper(lines)
  {
    GoAddress(Records(lines), 0, 0)
  }

  /** Where a download stands between two batches: the packets done were sent and taken for acknowledged. */
  ghost predicate Going(file: HexFile, answers: seq<Answer>, before: seq<seq<byte>>, sent: seq<seq<byte>>, base: nat,
                        go: nat, rsp0: byte, done: seq<Packet>)
    requires Proper(file.lines)
    reads file
  {
    && Progress(done, Records(file.lines), file.pos, base, go, AllPackets(file.lines), Goes(file.lines))
    && Left(rsp0, file, done) && sent == before + WriteCommands(done) && DoneTaken(answers, |before|, file.lines, done)
  }

  lemma Begin(file: HexFile, answers: seq<Answer>, before: seq<seq<byte>>, rsp0: byte)
    requires Proper(file.lines) && file.pos == 0
    ensures Going(file, answers, before, before, 0, 0, rsp0, [])
  {
    assert [] + AllPackets(file.lines) == AllPackets(file.lines);
    hide Packets, GoAddress, Records, Proper;
  }

  /** One round of the outer loop, with what it means for the download. */
  method Round(file: HexFile, write32: array<byte>, rsp: array<byte>, port: SerialPort, targetAddr: nat, goAddr: nat,
               ghost before: seq<seq<byte>>, ghost done: seq<Packet>)
      returns (ok: bool, newAddr: nat, newGo: nat, ghost now: seq<Packet>)
    requires file.Valid() && Proper(file.lines) && !file.atEnd && write32.Length == 280 && write32[0] == CMD_WRITE_32BIT
    requires rsp.Length == 32 && rsp != write32
    requires Going(file, port.answers, before, port.sent, targetAddr, goAddr, rsp[0], done)
    modifies file, write32, port, rsp
    ensures file.Valid() && write32[0] == CMD_WRITE_32BIT
    ensures file.pos > old(file.pos) || (file.pos == old(file.pos) && file.atEnd)
    ensures file.pos <= |file.lines|
    ensures ok ==> Going(file, port.answers, before, port.sent, newAddr, newGo, rsp[0], now)
    ensures !ok ==> Downloaded(port.answers, before, port.sent, WriteFault,
                               Commands(Records(file.lines)), Stales(file.lines, file.lastTerminated))
  {
    ghost var sent, all, goes := port.sent, AllPackets(file.lines), Goes(file.lines);
    assert Progress(done, Records(file.lines), file.pos, targetAddr, goAddr, all, goes);
    assert sent == before + WriteCommands(done) && DoneTaken(port.answers, |before|, file.lines, done);
    hide *;
    ghost var f;
    ok, newAddr, newGo, f := DoBatch(file, write32, rsp, port, targetAddr, goAddr, done, all, goes);
    now := done + f;
    RoundEnds(file, port.answers, before, sent, port.sent, done, f, newAddr, newGo, rsp[0], ok);
  }

  lemma RoundEnds(file: HexFile, answers: seq<Answer>, before: seq<seq<byte>>, sent: seq<seq<byte>>,
                  now: seq<seq<byte>>, done: seq<Packet>, f: seq<Packet>, base: nat, go: nat, rsp0: byte, ok: bool)
    requires file.Valid() && Proper(file.lines) && |f| <= 1 && (f == [] ==> ok)
    requires sent == before + WriteCommands(done) && DoneTaken(answers, |before|, file.lines, done)
    requires Progress(done + f, Records(file.lines), file.pos, base, go, AllPackets(file.lines), Goes(file.lines))
    requires now == sent + WriteCommands(f)
    requires f != [] ==> (ok <==> Taken(AnswerTo(answers, |sent|), Stale(file.lines, f[0].last)))
    requires ok ==> Left(rsp0, file, done + f)
    ensures ok ==> Going(file, answers, before, now, base, go, rsp0, done + f)
    ensures !ok ==> Downloaded(answers, before, now, WriteFault, Commands(Records(file.lines)),
                               Stales(file.lines, file.lastTerminated))
  {
    SentNext(before, done, f, sent, now);
    hide Records, Packets, GoAddress, Proper, Taken, AnswerTo, WriteCommands, Stale, Progress, Left, DoneTaken,
         Downloaded, Commands, Stales;
    if ok { TakenNext(answers, |before|, file.lines, done, f); }
    else { Faulted(answers, before, now, file, done, f, base, go); }
  }

  lemma SentNext(before: seq<seq<byte>>, done: seq<Packet>, f: seq<Packet>, sent: seq<seq<byte>>, now: seq<seq<byte>>)
    requires sent == before + WriteCommands(done) && now == sent + WriteCommands(f)
    ensures now == before + WriteCommands(done + f) && |sent| == |before| + |done|
  {
    hide WriteCommand;
    assert WriteCommands(done) + WriteCommands(f) == WriteCommands(done + f);
    assert (before + WriteCommands(done)) + WriteCommands(f) == before + (WriteCommands(done) + WriteCommands(f));
  }

  lemma TakenSnoc(answers: seq<Answer>, k: nat, s: seq<byte>, stale: byte)
    requires AllTaken(answers, k, s)
    ensures AllTaken(answers, k, s + [stale]) <==> Taken(AnswerTo(answers, k + |s|), stale)
  {
    hide Taken, AnswerTo;
    assert (s + [stale])[|s|] == stale;
  }

  lemma TakenNext(answers: seq<Answer>, k: nat, lines: seq<string>, done: seq<Packet>, f: seq<Packet>)
    requires DoneTaken(answers, k, lines, done) && |f| <= 1
    requires f != [] ==> Taken(AnswerTo(answers, k + |done|), Stale(lines, f[0].last))
    ensures DoneTaken(answers, k, lines, done + f)
  {
    hide Taken, AnswerTo, Stale, AllTaken;
    if f == [] {
      assert done + f == done;
    } else {
      TakenSnoc(answers, k, StalesFor(lines, done), Stale(lines, f[0].last));
      assert StalesFor(lines, done + f) == StalesFor(lines, done) + [Stale(lines, f[0].last)];
    }
  }

  /** The packets done are the first of all packets. */
  lemma FirstOf(lines: seq<string>, lastTerminated: bool, done: seq<Packet>, rest: seq<Packet>)
    requires Proper(lines) && done + rest == AllPackets(lines)
    ensures |Stales(lines, lastTerminated)| == |done| + |rest| + 1
    ensures StalesFor(lines, done) == Stales(lines, lastTerminated)[..|done|]
    ensures WriteCommands(done) == Commands(Records(lines))[..|done|]
  {
    hide Packets, Records, Stale, WriteCommand, GoCommand, GoStale, GoAddress;
  }

  lemma Faulted(answers: seq<Answer>, before: seq<seq<byte>>, sent: seq<seq<byte>>, file: HexFile, done: seq<Packet>,
                f: seq<Packet>, base: nat, go: nat)
    requires file.Valid() && Proper(file.lines) && |f| == 1
    requires Progress(done + f, Records(file.lines), file.pos, base, go, AllPackets(file.lines), Goes(file.lines))
    requires sent == before + WriteCommands(done + f) && DoneTaken(answers, |before|, file.lines, done)
    requires !Taken(AnswerTo(answers, |before| + |done|), Stale(file.lines, f[0].last))
    ensures Downloaded(answers, before, sent, WriteFault, Commands(Records(file.lines)),
                       Stales(file.lines, file.lastTerminated))
  {
    var lines, term, stales := file.lines, file.lastTerminated, Stales(file.lines, file.lastTerminated);
    var rest := Packets(Records(lines), file.pos, base, Empty(base));
    Assoc(done, f, rest);
    hide Packets, Records, Stale, Stales, Commands, WriteCommands, StalesFor, AllTaken, Taken, AnswerTo, Proper,
         GoAddress, Downloaded;
    FirstOf(lines, term, done, f + rest);
    FirstOf(lines, term, done + f, rest);
    LastStale(lines, stales, done, f);
    FaultedAt(answers, before, sent, Commands(Records(lines)), stales, |done|);
  }

  lemma Assoc<T>(a: seq<T>, b: seq<T>, c: seq<T>)
    ensures (a + b) + c == a + (b + c)
  {
  }

  lemma LastStale(lines: seq<string>, stales: seq<byte>, done: seq<Packet>, f: seq<Packet>)
    requires |f| == 1 && |done| < |stales| && StalesFor(lines, done + f) == stales[..|done + f|]
    ensures stales[|done|] == Stale(lines, f[0].last)
  {
    hide Stale;
    assert (done + f)[|done|] == f[0] && stales[|done|] == stales[..|done + f|][|done|];
  }

  lemma FaultedAt(answers: seq<Answer>, before: seq<seq<byte>>, sent: seq<seq<byte>>, cmds: seq<seq<byte>>,
                  stales: seq<byte>, d: nat)
    requires |cmds| == |stales| && d < |cmds| && sent == before + cmds[..d + 1]
    requires AllTaken(answers, |before|, stales[..d]) && !Taken(AnswerTo(answers, |before| + d), stales[d])
    ensures Downloaded(answers, before, sent, WriteFault, cmds, stales)
  {
    hide AllTaken, Taken, AnswerTo;
  }

  lemma AllDone(file: HexFile, answers: seq<Answer>, before: seq<seq<byte>>, sent: seq<seq<byte>>, done: seq<Packet>,
                base: nat, go: nat, rsp0: byte)
    requires file.Valid() && Proper(file.lines) && file.atEnd
    requires Going(file, answers, before, sent, base, go, rsp0, done)
    ensures go == Goes(file.lines) && sent == before + WriteCommands(AllPackets(file.lines))
    ensures AllTaken(answers, |before|, StalesFor(file.lines, AllPackets(file.lines)))
    ensures rsp0 == GoStale(file.lines, file.lastTerminated, AllPackets(file.lines))
  {
    assert done + [] == done;
    hide Stale, Records, AllTaken, WriteCommands;
  }

  lemma Finished(answers: seq<Answer>, before: seq<seq<byte>>, sent: seq<seq<byte>>, file: HexFile, ok: bool)
    requires Proper(file.lines)
    requires var all := AllPackets(file.lines);
             && sent == before + WriteCommands(all) + [GoCommand(Goes(file.lines))]
             && AllTaken(answers, |before|, StalesFor(file.lines, all))
             && (ok <==> Taken(AnswerTo(answers, |before| + |all|), GoStale(file.lines, file.lastTerminated, all)))
    ensures Downloaded(answers, before, sent, if ok then Success else WriteFault,
                       Commands(Records(file.lines)), Stales(file.lines, file.lastTerminated))
  {
    var all, stale := AllPackets(file.lines), GoStale(file.lines, file.lastTerminated, AllPackets(file.lines));
    var cmds, stales := Commands(Records(file.lines)), Stales(file.lines, file.lastTerminated);
    assert cmds == WriteCommands(all) + [GoCommand(Goes(file.lines))];
    assert stales == StalesFor(file.lines, all) + [stale];
    hide *;
    FinishedWith(answers, before, WriteCommands(all), GoCommand(Goes(file.lines)), StalesFor(file.lines, all), stale,
                 ok);
  }

  lemma FinishedWith(answers: seq<Answer>, before: seq<seq<byte>>, writes: seq<seq<byte>>, go: seq<byte>,
                     stales: seq<byte>, stale: byte, ok: bool)
    requires |writes| == |stales| && AllTaken(answers, |before|, stales)
    requires ok <==> Taken(AnswerTo(answers, |before| + |stales|), stale)
    ensures Downloaded(answers, before, before + writes + [go], if ok then Success else WriteFault,
                       writes + [go], stales + [stale])
  {
    TakenSnoc(answers, |before|, stales, stale);
    hide AllTaken, Taken, AnswerTo;
    assert (before + writes) + [go] == before + (writes + [go]);
    assert (writes + [go])[..|writes| + 1] == writes + [go] && (stales + [stale])[..|writes|] == stales;
  }

  /** The commands done were taken for acknowledged. */
  ghost predicate DoneTaken(answers: seq<Answer>, k: nat, lines: seq<string>, done: seq<Packet>) {
    AllTaken(answers, k, StalesFor(lines, done))
  }

  /** What a device writes that executes the write commands among the commands it gets. */
  function Executed(cmds: seq<seq<byte>>): seq<(nat, byte)> {
    if cmds == [] then []
    else
      (if |cmds[0]| >= 7 && cmds[0][0] == CMD_WRITE_32BIT then At(Field(cmds[0][1..5]), cmds[0][7..]) else [])
      + Executed(cmds[1..])
  }

  ghost predicate Small(packets: seq<Packet>) {
    forall i | 0 <= i < |packets| :: packets[i].addr < 0x1_0000_0000 && |packets[i].data| < 0x10000
  }

  lemma {:induction false} ExecutedFlat(packets: seq<Packet>, go: nat)
    requires Small(packets)
    ensures Executed(WriteCommands(packets) + [GoCommand(go)]) == Flat(packets)
  {
    var cmds := WriteCommands(packets) + [GoCommand(go)];
    if packets == [] {
      assert cmds == [GoCommand(go)] && Executed(cmds[1..]) == [];
    } else {
      assert cmds[1..] == WriteCommands(packets[1..]) + [GoCommand(go)];
      ExecutedFlat(packets[1..], go);
      CommandSays(packets[0]);
    }
  }

  predicate InRange(recs: seq<Record>) {
    forall i | 0 <= i < |recs| ::
      && (recs[i].Data? ==> |recs[i].bytes| <= 18 && recs[i].offset < 0x10000)
      && (recs[i].Segment? ==> recs[i].base % 0x10000 == 0 && recs[i].base <= 0xFFFF_0000)
  }

  lemma {:induction false} PacketsAreSmall(recs: seq<Record>, i: nat, base: nat, b: Batch)
    requires i <= |recs| && InRange(recs) && base % 0x10000 == 0 && base <= 0xFFFF_0000
    requires b.target < 0x1_0000_0000 && |b.bytes| < 256
    ensures Small(Packets(recs, i, base, b))
    decreases |recs| - i
  {
    if i < |recs| {
      match recs[i] {
        case EndOfFile =>
        case Data(offset, bytes) =>
          var c := Gather(b, offset, bytes);
          PacketsAreSmall(recs, i + 1, base, if |c.bytes| >= 256 then Empty(base) else c);
        case Segment(next) => PacketsAreSmall(recs, i + 1, next, Empty(next));
        case _ => PacketsAreSmall(recs, i + 1, base, b);
      }
    }
  }

  /** For every file: a device that executes all commands writes what the records ask for, one after the
      other, exactly if the records of every batch lie one behind the other. */
  lemma DownloadIff(lines: seq<string>)
    requires Proper(lines)
    ensures var recs := Records(lines);
            Executed(Commands(recs)) == RecordWrites(recs, 0, 0) <==> Aligned(recs, 0, 0, Empty(0))
  {
    var recs := Records(lines);
    AllInRange(lines);
    PacketsAreSmall(recs, 0, 0, Empty(0));
    ExecutedFlat(Packets(recs, 0, 0, Empty(0)), GoAddress(recs, 0, 0));
    SameWritesIff(recs, 0, 0, Empty(0));
    assert At(0, []) + RecordWrites(recs, 0, 0) == RecordWrites(recs, 0, 0);
  }

  /** So it is for every file whose data records are contiguous within each segment. */
  lemma DownloadOfContiguous(lines: seq<string>)
    requires Proper(lines) && Contiguous(Records(lines), 0, 0, false, 0)
    ensures Executed(Commands(Records(lines))) == RecordWrites(Records(lines), 0, 0)
  {
    var recs := Records(lines);
    DownloadIff(lines);
    forall i | 0 <= i < |recs| && recs[i].Segment? ensures recs[i].base % 0x10000 == 0 {
      ParsedInBounds(lines[i]);
    }
    ContiguousIsAligned(recs, 0, 0, Empty(0), false, 0);
  }

  /** Where a device starts execution that gets these commands, and how often. */
  function Started(cmds: seq<seq<byte>>): seq<nat> {
    if cmds == [] then []
    else (if |cmds[0]| == 5 && cmds[0][0] == 0x05 then [Field(cmds[0][1..5])] else []) + Started(cmds[1..])
  }

  lemma {:induction false} StartedByLast(packets: seq<Packet>, go: nat)
    requires Small(packets) && go < 0x1_0000_0000
    ensures Started(WriteCommands(packets) + [GoCommand(go)]) == [go]
  {
    var cmds := WriteCommands(packets) + [GoCommand(go)];
    if packets == [] {
      assert cmds == [GoCommand(go)] && Started(cmds[1..]) == [];
      GoSays(go);
    } else {
      assert cmds[1..] == WriteCommands(packets[1..]) + [GoCommand(go)];
      StartedByLast(packets[1..], go);
      CommandSays(packets[0]);
    }
  }

  lemma {:induction false} GoBelow(recs: seq<Record>, i: nat, addr: nat)
    requires i <= |recs| && addr < 0x1_0000_0000
    requires forall k | 0 <= k < |recs| && recs[k].GoTo? :: recs[k].addr < 0x1_0000_0000
    ensures GoAddress(recs, i, addr) < 0x1_0000_0000
    decreases |recs| - i
  {
    if i < |recs| { GoBelow(recs, i + 1, if recs[i].GoTo? then recs[i].addr else addr); }
  }

  lemma AllInRange(lines: seq<string>)
    requires Proper(lines)
    ensures InRange(Records(lines))
    ensures forall k | 0 <= k < |lines| && Records(lines)[k].GoTo? :: Records(lines)[k].addr < 0x1_0000_0000
  {
    var recs := Records(lines);
    forall i | 0 <= i < |recs| ensures (recs[i].Data? ==> |recs[i].bytes| <= 18 && recs[i].offset < 0x10000)
        && (recs[i].Segment? ==> recs[i].base % 0x10000 == 0 && recs[i].base <= 0xFFFF_0000)
        && (recs[i].GoTo? ==> recs[i].addr < 0x1_0000_0000) {
      ParsedInBounds(lines[i]);
    }
  }

  /** For every file: the commands start a device once, where the records say. */
  lemma StartsOnce(lines: seq<string>)
    requires Proper(lines)
    ensures Started(Commands(Records(lines))) == [GoAddress(Records(lines), 0, 0)]
  {
    var recs := Records(lines);
    AllInRange(lines);
    PacketsAreSmall(recs, 0, 0, Empty(0));
    GoBelow(recs, 0, 0);
    hide Packets, Records, Started, GoAddress, Small, InRange, Proper;
    StartedByLast(Packets(recs, 0, 0, Empty(0)), GoAddress(recs, 0, 0));
  }

  /** That is at the address of the last record that gives one, or at 0. */
  lemma StartsAtLast(lines: seq<string>, k: nat)
    requires Proper(lines) && k < |lines| && forall j | k < j < |lines| :: !Parse(lines[j]).GoTo?
    ensures Parse(lines[k]).GoTo? ==> Started(Commands(Records(lines))) == [Parse(lines[k]).addr]
    ensures k == 0 && !Parse(lines[k]).GoTo? ==> Started(Commands(Records(lines))) == [0]
  {
    var recs := Records(lines);
    StartsOnce(lines);
    if recs[k].GoTo? {
      GoIsLast(recs, 0, 0, k);
    } else if k == 0 {
      NoMoreGo(recs, 0, 0);
    }
  }

  // ----- what success means -----

  predicate AllAcked(answers: seq<Answer>, k: nat, n: nat) {
    forall i | k <= i < k + n :: Acked(AnswerTo(answers, i))
  }

  /** A download succeeds exactly if all commands were sent and all taken for acknowledged; if not, the
      last one sent was not. */
  lemma SucceedsIff(answers: seq<Answer>, before: seq<seq<byte>>, sent: seq<seq<byte>>, status: Status,
                    cmds: seq<seq<byte>>, stales: seq<byte>)
    requires |cmds| == |stales| && Downloaded(answers, before, sent, status, cmds, stales)
    ensures status == Success <==> sent == before + cmds && AllTaken(answers, |before|, stales)
    ensures var n := |sent| - |before|; status != Success ==>
              0 < n <= |cmds| && sent == before + cmds[..n] && !Taken(AnswerTo(answers, |sent| - 1), stales[n - 1])
  {
    hide Taken, AnswerTo;
    assert cmds[..|cmds|] == cmds;
  }

  /** Success means that the device acknowledged every command, whatever it answers, exactly if none is
      sent while the buffer for answers starts with the code of an acknowledgement. */
  lemma HonestIff(stales: seq<byte>, k: nat)
    ensures (forall answers :: AllTaken(answers, k, stales) ==> AllAcked(answers, k, |stales|)) <==> CMD_ACK !in stales
  {
    if CMD_ACK in stales {
      var j :| 0 <= j < |stales| && stales[j] == CMD_ACK;
      var answers := seq(k + |stales|, i => if i == k + j then Silence else Reply([CMD_ACK]));
      assert AllTaken(answers, k, stales);
      assert !Acked(AnswerTo(answers, k + j));
    } else {
      forall answers | AllTaken(answers, k, stales) ensures AllAcked(answers, k, |stales|) {
        AckedUnlessStale(answers, k, stales);
      }
    }
  }

  lemma AckedUnlessStale(answers: seq<Answer>, k: nat, stales: seq<byte>)
    requires AllTaken(answers, k, stales) && CMD_ACK !in stales
    ensures AllAcked(answers, k, |stales|)
  {
    forall i | k <= i < k + |stales| ensures Acked(AnswerTo(answers, i)) {
      var j: nat := i - k;
      assert stales[j] in stales && Taken(AnswerTo(answers, k + j), stales[j]);
    }
  }

  /** A batch that a data record completes is sent over the code of an acknowledgement exactly if the
      record's offset is in 0x0200 to 0x02FF; a segment does so if it starts at 0x02000000 to 0x02FF0000. */
  lemma StaleIsAckIff(lines: seq<string>, i: nat)
    requires Proper(lines) && i < |lines| && |lines[i]| > 9
    ensures Parse(lines[i]).Data? ==> (Stale(lines, i) == CMD_ACK <==> 0x200 <= Parse(lines[i]).offset < 0x300)
    ensures Parse(lines[i]).Segment? ==>
              (Stale(lines, i) == CMD_ACK <==> 0x0200_0000 <= Parse(lines[i]).base < 0x0300_0000)
  {
    FirstByteOf(lines[i]);
    hide Parse, FirstByte, Complete;
  }

  function DataLine(offset: byte, b: byte): string { Line([0, offset], 0, [b], "00\n") }

  function EndLine(rest: string): string { Line([0, 0], 1, [], rest) }

  lemma DataLineSays(offset: byte, b: byte)
    ensures var line := DataLine(offset, b); Complete(line) && 9 < |line| < 128 && Parse(line) == Data(offset, [b])
  {
    ParseLine([0, offset], 0, [b], "00\n");
    LineFields([0, offset], 0, [b], "00\n", DataLine(offset, b));
    FieldOf2([0, offset]);
    hide Field, Line, HexByte;
  }

  lemma EndLineSays(rest: string)
    requires 0 < |rest| < 100
    ensures var line := EndLine(rest); Complete(line) && 9 < |line| < 128 && Parse(line) == EndOfFile
  {
    ParseLine([0, 0], 1, [], rest);
    LineFields([0, 0], 1, [], rest, EndLine(rest));
    hide Field, Line, HexByte;
  }

  /** If no line end stands behind the last line, and the last batch ends there, the GO command need not
      be answered. */
  lemma SilentGo(lines: seq<string>, answers: seq<Answer>)
    requires Proper(lines)
    requires var packets := Packets(Records(lines), 0, 0, Empty(0));
             && packets != [] && packets[|packets| - 1].last + 1 == |lines|
             && AllTaken(answers, 0, StalesFor(lines, packets)) && AnswerTo(answers, |packets|).Silence?
    ensures AllTaken(answers, 0, Stales(lines, false)) && !AllAcked(answers, 0, |Stales(lines, false)|)
  {
    hide Stale, Packets, Records, Proper, Stales, StalesFor, AllTaken, AllAcked, AnswerTo, GoAddress;
    var packets := Packets(Records(lines), 0, 0, Empty(0));
    StalesAre(lines, packets, CMD_ACK);
    TakenUnacked(answers, StalesFor(lines, packets));
  }

  lemma StalesAre(lines: seq<string>, packets: seq<Packet>, stale: byte)
    requires Proper(lines) && packets == Packets(Records(lines), 0, 0, Empty(0))
    requires stale == GoStale(lines, false, packets)
    ensures Stales(lines, false) == StalesFor(lines, packets) + [stale]
  {
    hide StalesFor, Packets, Records, Proper, GoStale;
  }

  lemma TakenUnacked(answers: seq<Answer>, stales: seq<byte>)
    requires AllTaken(answers, 0, stales) && AnswerTo(answers, |stales|).Silence?
    ensures AllTaken(answers, 0, stales + [CMD_ACK]) && !AllAcked(answers, 0, |stales + [CMD_ACK]|)
  {
    TakenSnoc(answers, 0, stales, CMD_ACK);
    assert !Acked(AnswerTo(answers, |stales|));
    hide AllTaken, Acked, AnswerTo;
  }

  /** For one: a file of one byte whose end record has no line end behind it, whose write command alone is
      answered. */
  lemma SilentGoSucceeds()
    ensures var lines := [DataLine(0, 7), EndLine("FF")]; var answers := [Reply([CMD_ACK])];
            Proper(lines) && AllTaken(answers, 0, Stales(lines, false)) && !AllAcked(answers, 0, |Stales(lines, false)|)
  {
    var lines := [DataLine(0, 7), EndLine("FF")];
    DataLineSays(0, 7);
    EndLineSays("FF");
    hide DataLine, EndLine, Parse, Complete, FirstByte, Stale, Packets, Stales, AllAcked, AllTaken, GoAddress;
    RecordsAre(lines, [Data(0, [7]), EndOfFile]);
    hide Records, Proper;
    SilentOneByte(lines, [Reply([CMD_ACK])]);
  }

  lemma SilentOneByte(lines: seq<string>, answers: seq<Answer>)
    requires Proper(lines) && Records(lines) == [Data(0, [7]), EndOfFile] && answers == [Reply([CMD_ACK])]
    ensures AllTaken(answers, 0, Stales(lines, false)) && !AllAcked(answers, 0, |Stales(lines, false)|)
  {
    OneBatch(Records(lines));
    hide Records, Proper, Packets, Stales, AllAcked, GoAddress, Stale;
    SilentGo(lines, answers);
  }

  lemma RecordsAre(lines: seq<string>, recs: seq<Record>)
    requires |lines| == |recs| > 0 && (forall i | 0 <= i < |recs| :: recs[i] == EndOfFile <==> i == |recs| - 1)
    requires forall i | 0 <= i < |lines| :: Complete(lines[i]) && 9 < |lines[i]| < 128 && Parse(lines[i]) == recs[i]
    ensures Proper(lines) && Records(lines) == recs
  {
    hide Parse, Complete;
  }

  lemma OneBatch(recs: seq<Record>)
    requires recs == [Data(0, [7]), EndOfFile]
    ensures Packets(recs, 0, 0, Empty(0)) == [Packet(0, [7], 1)]
  {
    var b := Gather(Empty(0), 0, [7]);
    assert b.bytes == [7];
    assert Packets(recs, 1, 0, b) == Flush(b, 1);
  }

  /** For one: two records with a gap of a byte between them are written without it. */
  lemma GapIsLost()
    ensures var lines := [DataLine(0, 7), DataLine(2, 8), EndLine("FF\n")];
            && Proper(lines) && RecordWrites(Records(lines), 0, 0) == [(0, 7), (2, 8)]
            && Executed(Commands(Records(lines))) == [(0, 7), (1, 8)]
  {
    var lines := [DataLine(0, 7), DataLine(2, 8), EndLine("FF\n")];
    DataLineSays(0, 7);
    DataLineSays(2, 8);
    EndLineSays("FF\n");
    hide DataLine, EndLine, Parse, Complete, FirstByte, RecordWrites, Executed, Commands;
    RecordsAre(lines, [Data(0, [7]), Data(2, [8]), EndOfFile]);
    hide Records, Proper;
    GapWrites(Records(lines));
  }

  lemma GapWrites(recs: seq<Record>)
    requires recs == [Data(0, [7]), Data(2, [8]), EndOfFile]
    ensures RecordWrites(recs, 0, 0) == [(0, 7), (2, 8)] && Executed(Commands(recs)) == [(0, 7), (1, 8)]
  {
    GapPacket(recs);
    var p := Packet(0, [7, 8], 2);
    assert Flat([p]) == [(0, 7), (1, 8)] by {
      assert Flat([p]) == At(0, [7, 8]) + Flat([]);
      hide Flat;
    }
    assert RecordWrites(recs, 0, 0) == [(0, 7), (2, 8)] by {
      assert RecordWrites(recs, 2, 0) == [] && RecordWrites(recs, 1, 0) == At(2, [8]);
      hide RecordWrites;
    }
    hide RecordWrites, Packets, Executed, Flat, WriteCommands, GoCommand, GoAddress;
    ExecutedFlat([p], GoAddress(recs, 0, 0));
  }

  lemma GapPacket(recs: seq<Record>)
    requires recs == [Data(0, [7]), Data(2, [8]), EndOfFile]
    ensures Packets(recs, 0, 0, Empty(0)) == [Packet(0, [7, 8], 2)]
  {
    var b := Gather(Empty(0), 0, [7]);
    var c := Gather(b, 2, [8]);
    assert b.bytes == [7] && c == Batch(true, 0, [7, 8]);
    assert Packets(recs, 2, 0, c) == Flush(c, 2);
    assert Packets(recs, 1, 0, b) == Packets(recs, 2, 0, c);
  }
}
