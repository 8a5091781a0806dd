/** One direction of a socketpair as a protocol: a writer, a reader and any number of closers take
    small steps in any order. Flags and events are read and written one at a time, because
    bip_buffer_close looks at them without taking the lock. */
module SocketPair {
  import opened BipBuffer

  datatype Side = Writer | Reader {
    function Other(): Side { if Writer? then Reader else Writer }
  }

  /** Where a call of bip_buffer_write or bip_buffer_read stands. */
  datatype Pc =
    | Idle
    | Enter         // about to take the lock
    | Check         // has the lock, about to look at its flag
    | TestClosed    // gave the lock back, about to look at closed
    | Wait          // in WaitForSingleObject on its event
    | Retest        // woken, about to look at closed again
    | Copy          // has the lock and its flag is set
    | ClearFlag     // nothing left on its side, about to clear its flag
    | ClearEvent    // about to reset its event
    | CheckOther    // about to look at the other side's flag
    | SetFlag       // about to set the other side's flag
    | SetEvent      // about to set the other side's event
    | Leave         // about to give the lock back

  /** Where a call of bip_buffer_close stands. */
  datatype CloserPc = Ready | TestRead | SignalRead | TestWrite | SignalWrite | Done

  /** One side: its call, its flag and its event. entered records whether its half of the buffer
      was usable when the call began. */
  datatype Party = Party(pc: Pc, flag: bool, evt: bool, src: seq<byte>, len: nat, last: IoResult, entered: bool)

  datatype Holder = Free | By(side: Side)

  datatype State = State(
    q: seq<byte>, closed: bool, holder: Holder,
    writer: Party, reader: Party, closers: seq<CloserPc>,
    written: seq<byte>, taken: seq<byte>)
  {
    function Of(side: Side): Party { if side.Writer? then writer else reader }

    /** A writer needs room, a reader needs bytes. */
    predicate Usable(side: Side) {
      if side.Writer? then |q| < BIP_BUFFER_SIZE else q != []
    }

    function ViewOf(side: Side): View {
      View(Of(side), Of(side.Other()), holder == By(side), holder == By(side.Other()),
           closed, Usable(side), Usable(side.Other()))
    }

    /** The control state of both sides, taken from a view. */
    function Adopt(side: Side, v: View): State {
      this.(writer := if side.Writer? then v.me else v.them,
            reader := if side.Writer? then v.them else v.me,
            holder := if v.mine then By(side) else if v.theirs then By(side.Other()) else Free)
    }

    /** memcpy and the region arithmetic, whose effect on the queue BipBuffer.Bip proves. */
    function Transfer(side: Side): State {
      if side.Writer? then
        var n := Min(|writer.src|, BIP_BUFFER_SIZE - |q|);
        if n < 0 then this
        else this.(q := q + writer.src[..n], written := written + writer.src[..n], writer := writer.(last := Count(n)))
      else
        var n := Min(reader.len, |q|);
        this.(q := q[n..], taken := taken + q[..n], reader := reader.(last := Count(n)))
    }
  }

  /** What one side sees: itself, the other side, who has the lock, and who could use the buffer. */
  datatype View = View(me: Party, them: Party, mine: bool, theirs: bool, closed: bool, usable: bool,
                       theirsUsable: bool) {
    function Flip(): View { View(them, me, theirs, mine, closed, theirsUsable, usable) }
  }

  ghost predicate Initial(s: State) {
    && s.q == [] && s.written == [] && s.taken == [] && !s.closed && s.holder == Free
    && s.writer.pc == Idle && s.writer.flag && s.writer.evt && s.writer.last == Count(1)
    && s.reader.pc == Idle && !s.reader.flag && !s.reader.evt && s.reader.last == Count(1)
    && forall i | 0 <= i < |s.closers| :: s.closers[i] == Ready
  }

  datatype Step =
    | Call(side: Side, src: seq<byte>, len: nat)
    | Go(side: Side)
    | Close(i: nat)

  ghost predicate Enabled(s: State, step: Step) {
    match step
    case Call(side, src, len) => s.Of(side).pc == Idle && (if side.Writer? then src != [] else len > 0)
    case Go(side) => CanGo(s.ViewOf(side))
    case Close(i) => i < |s.closers| && s.closers[i] != Done
  }

  ghost predicate CanGo(v: View) {
    && v.me.pc != Idle
    && (v.me.pc == Enter ==> !v.mine && !v.theirs)
    && (v.me.pc == Wait ==> v.me.evt)
  }

  ghost function Apply(s: State, step: Step): State
    requires Enabled(s, step)
  {
    match step
    case Call(side, src, len) =>
      var v := s.ViewOf(side);
      s.Adopt(side, v.(me := v.me.(pc := Enter, src := src, len := len, last := WouldBlock, entered := v.usable)))
    case Go(side) => Advance(s, side)
    case Close(i) => CloserStep(s, i)
  }

  ghost function Advance(s: State, side: Side): State {
    if s.Of(side).pc == Copy then
      var t := s.Transfer(side);
      var v := t.ViewOf(side);
      t.Adopt(side, v.(me := v.me.(pc := if v.usable then CheckOther else ClearFlag)))
    else s.Adopt(side, Control(s.ViewOf(side)))
  }

  /** The next statement of bip_buffer_write or bip_buffer_read, other than the copying. */
  ghost function Control(v: View): View {
    var me, them := v.me, v.them;
    match me.pc
    case Idle => v
    case Copy => v
    case Enter => v.(me := me.(pc := Check), mine := true)
    case Check => if me.flag then v.(me := me.(pc := Copy)) else v.(me := me.(pc := TestClosed), mine := false)
    case TestClosed => v.(me := if v.closed then me.(pc := Idle, last := Epipe) else me.(pc := Wait))
    case Wait => v.(me := me.(pc := Retest))
    case Retest => v.(me := if v.closed then me.(pc := Idle, last := Epipe) else me.(pc := Enter))
    case ClearFlag => v.(me := me.(pc := ClearEvent, flag := false))
    case ClearEvent => v.(me := me.(pc := CheckOther, evt := false))
    case CheckOther => v.(me := me.(pc := if them.flag then Leave else SetFlag))
    case SetFlag => v.(me := me.(pc := SetEvent), them := them.(flag := true))
    case SetEvent => v.(me := me.(pc := Leave), them := them.(evt := true))
    case Leave => v.(me := me.(pc := Idle), mine := false)
  }

  /** The next statement of bip_buffer_close. */
  ghost function CloserStep(s: State, i: nat): State
    requires i < |s.closers|
  {
    match s.closers[i]
    case Ready => s.(closed := true, closers := s.closers[i := TestRead])
    case TestRead => s.(closers := s.closers[i := if s.reader.flag then TestWrite else SignalRead])
    case SignalRead => s.(reader := s.reader.(evt := true), closers := s.closers[i := TestWrite])
    case TestWrite => s.(closers := s.closers[i := if s.writer.flag then Done else SignalWrite])
    case SignalWrite => s.(writer := s.writer.(evt := true), closers := s.closers[i := Done])
    case Done => s
  }

  ghost predicate Fits(s: State, steps: seq<Step>)
    decreases |steps|
  {
    steps == [] || (Enabled(s, steps[0]) && Fits(Apply(s, steps[0]), steps[1..]))
  }

  ghost function Run(s: State, steps: seq<Step>): State
    requires Fits(s, steps)
    decreases |steps|
  {
    if steps == [] then s else Run(Apply(s, steps[0]), steps[1..])
  }

  // ----- the invariant -----

  predicate Holding(pc: Pc) {
    pc.Check? || pc.Copy? || pc.ClearFlag? || pc.ClearEvent? || pc.CheckOther? || pc.SetFlag? || pc.SetEvent?
        || pc.Leave?
  }

  /** The copy is done and the other side's flag may still be stale. */
  predicate AfterCopy(pc: Pc) {
    pc.ClearFlag? || pc.ClearEvent? || pc.CheckOther? || pc.SetFlag?
  }

  /** The lock is held exactly inside the critical section, and the flag tells the truth except
      inside the critical section that is about to correct it. */
  ghost predicate FlagInv(v: View) {
    var p, o := v.me, v.them;
    && (Holding(p.pc) <==> v.mine) && !(v.mine && v.theirs)
    && (p.flag && !v.usable ==> p.pc == ClearFlag)
    && (!p.flag && v.usable ==> AfterCopy(o.pc))
    && (AfterCopy(o.pc) || o.pc.SetEvent? || o.pc.Leave? ==> v.usable)
    && (o.pc.SetFlag? ==> !p.flag)
    && (o.pc.SetEvent? ==> p.flag)
    && (p.pc.ClearFlag? ==> p.flag && !v.usable)
    && (p.pc.ClearEvent? ==> !p.flag && !v.usable)
    && (p.pc.Copy? ==> p.flag)
  }

  /** The event follows the flag; only a close sets it on its own. */
  ghost predicate EventInv(v: View) {
    && (v.me.flag && !v.me.evt ==> v.them.pc == SetEvent)
    && (v.me.evt && !v.me.flag ==> v.closed || v.me.pc == ClearEvent)
  }

  /** A call that found the buffer usable never looks at closed, and what calls answer. */
  ghost predicate CallInv(v: View) {
    var p := v.me;
    && (p.entered ==> !p.pc.TestClosed? && !p.pc.Wait? && !p.pc.Retest?)
    && (p.entered && (p.pc.Enter? || p.pc.Check? || p.pc.Copy?) ==> v.usable)
    && (p.last == Epipe ==> v.closed && !p.entered)
    && (p.pc.Idle? ==> !p.last.WouldBlock?)
    && (p.pc.Idle? && p.last.Count? ==> p.last.n > 0)
    && (AfterCopy(p.pc) || p.pc.SetEvent? || p.pc.Leave? ==> p.last.Count? && p.last.n > 0)
  }

  ghost predicate SideInv(v: View) {
    FlagInv(v) && EventInv(v) && CallInv(v)
  }

  ghost predicate Requests(s: State) {
    (s.writer.pc.Idle? || s.writer.src != []) && (s.reader.pc.Idle? || s.reader.len > 0)
  }

  /** A closer that is past its look at this side's flag and event. */
  predicate Passed(side: Side, pc: CloserPc) {
    if side.Reader? then pc.TestWrite? || pc.SignalWrite? || pc.Done? else pc.Done?
  }

  ghost predicate SomePassed(s: State, side: Side) {
    exists i :: 0 <= i < |s.closers| && Passed(side, s.closers[i])
  }

  /** Waiting with the event down, and nobody on the way to raise it. */
  ghost predicate Asleep(v: View) {
    v.me.pc == Wait && !v.me.evt && v.them.pc != SetEvent
  }

  ghost predicate CloserInv(s: State) {
    && (s.closed <==> exists i :: 0 <= i < |s.closers| && s.closers[i] != Ready)
    && (SomePassed(s, Writer) ==> !Asleep(s.ViewOf(Writer)))
    && (SomePassed(s, Reader) ==> !Asleep(s.ViewOf(Reader)))
  }

  ghost predicate Inv(s: State) {
    && |s.q| <= BIP_BUFFER_SIZE
    && s.written == s.taken + s.q
    && Requests(s)
    && SideInv(s.ViewOf(Writer)) && SideInv(s.ViewOf(Reader))
    && CloserInv(s)
  }

  lemma InitialInv(s: State)
    requires Initial(s)
    ensures Inv(s)
  {
  }

  lemma CallKeepsInv(s: State, step: Step)
    requires Inv(s) && step.Call? && Enabled(s, step)
    ensures Inv(Apply(s, step))
  {
  }

  lemma ControlKeepsSides(v: View)
    requires SideInv(v) && SideInv(v.Flip()) && CanGo(v) && v.me.pc != Copy
    ensures SideInv(Control(v)) && SideInv(Control(v).Flip())
  {
    ControlKeepsFlag(v);
    ControlKeepsTheirFlag(v);
    ControlKeepsEvents(v);
    ControlKeepsCalls(v);
    ControlKeepsTheirCalls(v);
    hide FlagInv, EventInv, CallInv, Control;
  }

  lemma ControlKeepsFlag(v: View)
    requires SideInv(v) && SideInv(v.Flip()) && CanGo(v) && v.me.pc != Copy
    ensures FlagInv(Control(v))
  {
  }

  lemma ControlKeepsTheirFlag(v: View)
    requires SideInv(v) && SideInv(v.Flip()) && CanGo(v) && v.me.pc != Copy
    ensures FlagInv(Control(v).Flip())
  {
  }

  lemma ControlKeepsEvents(v: View)
    requires SideInv(v) && SideInv(v.Flip()) && CanGo(v) && v.me.pc != Copy
    ensures EventInv(Control(v)) && EventInv(Control(v).Flip())
  {
  }

  lemma ControlKeepsCalls(v: View)
    requires FlagInv(v) && FlagInv(v.Flip()) && CallInv(v) && v.me.pc != Copy
    ensures CallInv(Control(v))
  {
  }

  lemma ControlKeepsTheirCalls(v: View)
    requires CallInv(v.Flip()) && SideInv(v) && CanGo(v) && v.me.pc != Copy
    ensures CallInv(Control(v).Flip())
  {
    ControlFrame(v);
    ControlThem(v);
    hide Control;
  }

  lemma ControlWakes(v: View)
    requires SideInv(v) && SideInv(v.Flip()) && CanGo(v) && v.me.pc != Copy
    ensures Asleep(Control(v)) ==> v.me.pc == TestClosed && !v.closed
    ensures Asleep(Control(v).Flip()) ==> Asleep(v.Flip())
  {
  }

  /** Control touches neither the queue nor closed. */
  lemma ControlFrame(v: View)
    requires SideInv(v) && CanGo(v) && v.me.pc != Copy
    ensures var w := Control(v);
            w.closed == v.closed && w.usable == v.usable && w.theirsUsable == v.theirsUsable
    ensures Control(v).them.pc == v.them.pc
    ensures var me := Control(v).me; me.src == v.me.src && me.len == v.me.len
    ensures var them := Control(v).them; them.src == v.them.src && them.len == v.them.len
  {
  }

  lemma ControlThem(v: View)
    requires SideInv(v) && CanGo(v) && v.me.pc != Copy
    ensures var o := Control(v).them; o == v.them || o == v.them.(flag := true) || o == v.them.(evt := true)
  {
  }

  lemma AdoptViews(s: State, side: Side, v: View)
    requires !(v.mine && v.theirs)
    requires v.closed == s.closed && v.usable == s.Usable(side) && v.theirsUsable == s.Usable(side.Other())
    ensures s.Adopt(side, v).ViewOf(side) == v && s.Adopt(side, v).ViewOf(side.Other()) == v.Flip()
  {
  }

  lemma AdvanceKeepsInv(s: State, side: Side)
    requires Inv(s) && Enabled(s, Go(side))
    ensures Inv(Advance(s, side))
  {
    if s.Of(side).pc.Copy? {
      CopyKeepsInv(s, side);
    } else {
      ControlKeepsInv(s, side, s.ViewOf(side));
    }
  }

  lemma ControlKeepsInv(s: State, side: Side, v: View)
    requires Inv(s) && v == s.ViewOf(side) && CanGo(v) && v.me.pc != Copy
    ensures Inv(s.Adopt(side, Control(v)))
  {
    assert SideInv(v) && SideInv(v.Flip());
    ControlKeepsSides(v);
    ControlWakes(v);
    ControlFrame(v);
    AdoptViews(s, side, Control(v));
    AdoptKeepsRest(s, side, Control(v));
  }

  lemma AdoptKeepsRest(s: State, side: Side, w: View)
    requires |s.q| <= BIP_BUFFER_SIZE && s.written == s.taken + s.q
    requires (w.me.pc.Idle? || if side.Writer? then w.me.src != [] else w.me.len > 0)
    requires (w.them.pc.Idle? || if side.Writer? then w.them.len > 0 else w.them.src != [])
    requires SideInv(w) && SideInv(w.Flip())
    requires s.Adopt(side, w).ViewOf(side) == w && s.Adopt(side, w).ViewOf(side.Other()) == w.Flip()
    requires s.closed <==> exists i :: 0 <= i < |s.closers| && s.closers[i] != Ready
    requires SomePassed(s, side) ==> !Asleep(w)
    requires SomePassed(s, side.Other()) ==> !Asleep(w.Flip())
    ensures Inv(s.Adopt(side, w))
  {
  }

  lemma CopyKeepsInv(s: State, side: Side)
    requires Inv(s) && s.Of(side).pc.Copy?
    ensures Inv(Advance(s, side))
  {
    var v, t := s.ViewOf(side), s.Transfer(side);
    var w := t.ViewOf(side).(me := t.Of(side).(pc := if t.Usable(side) then CheckOther else ClearFlag));
    TransferConserves(s, side);
    TransferFrame(s, side);
    CopiedKeepsSides(v, w);
    AdoptViews(t, side, w);
    hide SideInv, State.Transfer;
    AdoptKeepsRest(t, side, w);
  }

  lemma TransferFrame(s: State, side: Side)
    ensures var t := s.Transfer(side);
            && t.Of(side) == s.Of(side).(last := t.Of(side).last) && t.Of(side.Other()) == s.Of(side.Other())
            && t.closers == s.closers && t.closed == s.closed && t.holder == s.holder
  {
  }

  lemma CopiedKeepsSides(v: View, w: View)
    requires SideInv(v) && SideInv(v.Flip()) && v.me.pc.Copy?
    requires w.theirsUsable && w.me.last.Count? && w.me.last.n > 0
    requires w == v.(me := v.me.(pc := if w.usable then CheckOther else ClearFlag, last := w.me.last),
                     usable := w.usable, theirsUsable := w.theirsUsable)
    ensures SideInv(w) && SideInv(w.Flip())
  {
  }

  lemma TransferConserves(s: State, side: Side)
    requires |s.q| <= BIP_BUFFER_SIZE && s.written == s.taken + s.q
    requires s.Usable(side) && (if side.Writer? then s.writer.src != [] else s.reader.len > 0)
    ensures var t := s.Transfer(side);
            && |t.q| <= BIP_BUFFER_SIZE && t.written == t.taken + t.q
            && t.Usable(side.Other())
            && t.Of(side).last.Count? && t.Of(side).last.n > 0
  {
    if side.Reader? {
      var n := Min(s.reader.len, |s.q|);
      assert s.q == s.q[..n] + s.q[n..];
    }
  }

  lemma CloserKeepsInv(s: State, i: nat)
    requires Inv(s) && Enabled(s, Close(i))
    ensures Inv(CloserStep(s, i))
  {
    CloserKeepsSide(s, i, Writer);
    CloserKeepsSide(s, i, Reader);
    CloserKeepsClosers(s, i);
  }

  lemma CloserKeepsSide(s: State, i: nat, side: Side)
    requires SideInv(s.ViewOf(side)) && CloserInv(s) && Enabled(s, Close(i))
    ensures SideInv(CloserStep(s, i).ViewOf(side))
  {
    CloserRaises(s, i, side);
    hide CloserStep, CloserInv, State.ViewOf;
    RaisedKeepsSide(s.ViewOf(side), CloserStep(s, i).ViewOf(side));
  }

  /** A closer raises events, and closed before. */
  ghost predicate Raised(v: View, w: View) {
    var me, them := v.me, v.them;
    && (w.me == me || (w.me == me.(evt := true) && w.closed))
    && (w.them == them || (w.them == them.(evt := true) && w.closed))
    && w == v.(me := w.me, them := w.them, closed := w.closed) && (v.closed ==> w.closed)
  }

  lemma CloserRaises(s: State, i: nat, side: Side)
    requires CloserInv(s) && Enabled(s, Close(i))
    ensures Raised(s.ViewOf(side), CloserStep(s, i).ViewOf(side))
  {
  }

  lemma RaisedKeepsSide(v: View, w: View)
    requires SideInv(v) && Raised(v, w)
    ensures SideInv(w)
  {
  }

  lemma CloserKeepsClosers(s: State, i: nat)
    requires EventInv(s.ViewOf(Writer)) && EventInv(s.ViewOf(Reader)) && CloserInv(s) && Enabled(s, Close(i))
    ensures CloserInv(CloserStep(s, i))
  {
    var t := CloserStep(s, i);
    assert t.closers[i] != Ready;
    assert forall j | 0 <= j < |s.closers| && j != i :: t.closers[j] == s.closers[j];
  }

  // ----- what every run keeps -----

  lemma StepKeepsInv(s: State, step: Step)
    requires Inv(s) && Enabled(s, step)
    ensures Inv(Apply(s, step))
  {
    match step
    case Call(_, _, _) => CallKeepsInv(s, step);
    case Go(side) => AdvanceKeepsInv(s, side);
    case Close(i) => CloserKeepsInv(s, i);
  }

  lemma {:induction false} RunKeepsInv(s: State, steps: seq<Step>)
    requires Inv(s) && Fits(s, steps)
    ensures Inv(Run(s, steps))
    decreases |steps|
  {
    if steps != [] {
      StepKeepsInv(s, steps[0]);
      RunKeepsInv(Apply(s, steps[0]), steps[1..]);
    }
  }

  /** What the reader got is a prefix of what the writer put in, at most a buffer behind. */
  lemma DeliveredInOrder(s0: State, steps: seq<Step>)
    requires Initial(s0) && Fits(s0, steps)
    ensures var s := Run(s0, steps);
            s.taken <= s.written && |s.written| - |s.taken| <= 4096
  {
    InitialInv(s0);
    RunKeepsInv(s0, steps);
  }

  // ----- what is moved -----

  /** What a call asks of the queue. */
  function OpOf(side: Side, p: Party): Op { if side.Writer? then Put(p.src) else Get(p.len) }

  /** The copying step of a call does to the queue, and answers, just what the bounded queue does that
      the circular buffer was proved to be. */
  lemma CopyIsFifo(s: State, side: Side)
    requires Inv(s) && s.Of(side).pc.Copy?
    ensures var t := Advance(s, side); var (f, a) := FifoStep(Fifo(s.q, s.closed), OpOf(side, s.Of(side)));
            && f == Fifo(t.q, t.closed) && a.r == t.Of(side).last && a.r.Count?
            && t.taken == s.taken + a.data
            && (if side.Reader? then t.written == s.written
                else a.r.n <= |s.writer.src| && t.written == s.written + s.writer.src[..a.r.n])
  {
    hide CloserInv;
  }

  /** The bytes were moved, but the call has not returned. */
  predicate Moved(pc: Pc) { AfterCopy(pc) || pc.SetEvent? || pc.Leave? }

  /** The source of the last write called. */
  function SourceAfter(src: seq<byte>, step: Step): seq<byte> {
    if step.Call? && step.side.Writer? then step.src else src
  }

  /** What the writes that return in a run were told they wrote, in order: the first bytes of their
      sources. src is the source of the write that is under way when the run begins. */
  ghost function WritesTold(s: State, src: seq<byte>, steps: seq<Step>): seq<byte>
    requires Fits(s, steps)
    decreases |steps|
  {
    if steps == [] then []
    else
      var t := Apply(s, steps[0]);
      ToldBy(steps[0], t, src) + WritesTold(t, SourceAfter(src, steps[0]), steps[1..])
  }

  /** What a write is told if this step made it return. */
  function ToldBy(step: Step, t: State, src: seq<byte>): seq<byte> {
    var p := t.writer;
    if step == Go(Writer) && p.pc.Idle? && p.last.Count? && p.last.n <= |src| then src[..p.last.n] else []
  }

  /** How many bytes the reads that return in a run were told they read. */
  ghost function ReadsTold(s: State, steps: seq<Step>): nat
    requires Fits(s, steps)
    decreases |steps|
  {
    if steps == [] then 0
    else var t := Apply(s, steps[0]); CountBy(steps[0], t) + ReadsTold(t, steps[1..])
  }

  function CountBy(step: Step, t: State): nat {
    if step == Go(Reader) && t.reader.pc.Idle? && t.reader.last.Count? then t.reader.last.n else 0
  }

  /** The books: what was written is what was told and what a write under way has moved. */
  ghost predicate WriterBooks(p: Party, written: seq<byte>, src: seq<byte>, told: seq<byte>) {
    && (!p.pc.Idle? ==> p.src == src)
    && if Moved(p.pc) then p.last.Count? && p.last.n <= |src| && written == told + src[..p.last.n]
       else written == told
  }

  ghost predicate ReaderBooks(p: Party, taken: seq<byte>, read: nat) {
    if Moved(p.pc) then p.last.Count? && |taken| == read + p.last.n else |taken| == read
  }

  ghost predicate Books(s: State, src: seq<byte>, told: seq<byte>, read: nat) {
    WriterBooks(s.writer, s.written, src, told) && ReaderBooks(s.reader, s.taken, read)
  }

  /** What a step other than the copying does to the call that takes it. */
  predicate Proceeds(p: Party, q: Party) {
    && !p.pc.Idle? && q.src == p.src
    && (if Moved(p.pc) then q.last == p.last && (Moved(q.pc) || q.pc.Idle?)
        else !Moved(q.pc) && (q.pc.Idle? ==> q.last == Epipe))
  }

  predicate SameCall(p: Party, q: Party) { q.pc == p.pc && q.src == p.src && q.last == p.last }

  lemma ControlProceeds(v: View)
    requires SideInv(v) && CanGo(v) && v.me.pc != Copy
    ensures Proceeds(v.me, Control(v).me)
  {
  }

  lemma AdvanceProceeds(s: State, side: Side)
    requires Inv(s) && Enabled(s, Go(side)) && !s.Of(side).pc.Copy?
    ensures var t := Advance(s, side);
            && Proceeds(s.Of(side), t.Of(side)) && SameCall(s.Of(side.Other()), t.Of(side.Other()))
            && t.written == s.written && t.taken == s.taken
  {
    ControlProceeds(s.ViewOf(side));
    ControlFrame(s.ViewOf(side));
    ControlThem(s.ViewOf(side));
    hide Inv, Control, SideInv, Proceeds;
  }

  lemma ProceedsKeepsBooks(s: State, t: State, side: Side, src: seq<byte>, told: seq<byte>, read: nat)
    requires Books(s, src, told, read) && Proceeds(s.Of(side), t.Of(side))
    requires SameCall(s.Of(side.Other()), t.Of(side.Other())) && t.written == s.written && t.taken == s.taken
    ensures Books(t, src, told + ToldBy(Go(side), t, src), read + CountBy(Go(side), t))
  {
    assert told + [] == told;
    hide Moved;
  }

  lemma CopyKeepsBooks(s: State, side: Side, src: seq<byte>, told: seq<byte>, read: nat)
    requires Inv(s) && s.Of(side).pc.Copy? && Books(s, src, told, read)
    ensures var t := Advance(s, side); Books(t, src, told + ToldBy(Go(side), t, src), read + CountBy(Go(side), t))
  {
    CopyIsFifo(s, side);
    assert told + [] == told;
    hide Inv;
  }

  lemma StepKeepsBooks(s: State, step: Step, src: seq<byte>, told: seq<byte>, read: nat)
    requires Inv(s) && Enabled(s, step) && Books(s, src, told, read)
    ensures var t := Apply(s, step);
            Books(t, SourceAfter(src, step), told + ToldBy(step, t, src), read + CountBy(step, t))
  {
    if step.Go? {
      GoAdvances(s, step.side);
      hide Inv, Advance, Books, ToldBy, CountBy;
      if s.Of(step.side).pc.Copy? {
        CopyKeepsBooks(s, step.side, src, told, read);
      } else {
        AdvanceProceeds(s, step.side);
        ProceedsKeepsBooks(s, Advance(s, step.side), step.side, src, told, read);
      }
    } else {
      CallKeepsBooks(s, step, src, told, read);
    }
  }

  lemma CallKeepsBooks(s: State, step: Step, src: seq<byte>, told: seq<byte>, read: nat)
    requires Enabled(s, step) && !step.Go? && Books(s, src, told, read)
    ensures var t := Apply(s, step);
            Books(t, SourceAfter(src, step), told + ToldBy(step, t, src), read + CountBy(step, t))
  {
    assert told + [] == told;
  }

  lemma {:induction false} RunKeepsBooks(s: State, steps: seq<Step>, src: seq<byte>, told: seq<byte>, read: nat)
      returns (now: seq<byte>)
    requires Inv(s) && Fits(s, steps) && Books(s, src, told, read)
    ensures Books(Run(s, steps), now, told + WritesTold(s, src, steps), read + ReadsTold(s, steps))
    decreases |steps|
  {
    now := src;
    if steps == [] {
      assert told + [] == told;
    } else {
      var t := Apply(s, steps[0]);
      StepKeepsInv(s, steps[0]);
      StepKeepsBooks(s, steps[0], src, told, read);
      hide Inv, Apply, Books, ToldBy, CountBy, SourceAfter;
      now := RunKeepsBooks(t, steps[1..], SourceAfter(src, steps[0]), told + ToldBy(steps[0], t, src),
                           read + CountBy(steps[0], t));
      Assoc(told, ToldBy(steps[0], t, src), WritesTold(t, SourceAfter(src, steps[0]), steps[1..]));
    }
  }

  lemma Assoc<T>(a: seq<T>, b: seq<T>, c: seq<T>)
    ensures (a + b) + c == a + (b + c)
  {
  }

  /** Over every run, between calls: what was written is, in order, the first bytes of the sources of the
      writes, as many of each as it was told; and as many of these bytes as the reads were told they
      got are what they got. */
  lemma MovedAsTold(s0: State, steps: seq<Step>)
    requires Initial(s0) && Fits(s0, steps)
    ensures var s := Run(s0, steps);
            && (s.writer.pc.Idle? ==> s.written == WritesTold(s0, [], steps))
            && (s.reader.pc.Idle? ==>
                  ReadsTold(s0, steps) <= |s.written| && s.taken == s.written[..ReadsTold(s0, steps)])
  {
    InitialInv(s0);
    var src := RunKeepsBooks(s0, steps, [], [], 0);
    DeliveredInOrder(s0, steps);
    assert [] + WritesTold(s0, [], steps) == WritesTold(s0, [], steps);
  }

  /** EPIPE answers only a call that found nothing to do when it began, and only after a close;
      every other finished call moved at least one byte. */
  lemma AnswersAreHonest(s0: State, steps: seq<Step>, side: Side)
    requires Initial(s0) && Fits(s0, steps) && Run(s0, steps).Of(side).pc == Idle
    ensures var s := Run(s0, steps);
            var p := s.Of(side);
            || (p.last == Epipe && s.closed && !p.entered)
            || (p.last.Count? && p.last.n > 0)
  {
    InitialInv(s0);
    RunKeepsInv(s0, steps);
    assert SideInv(Run(s0, steps).ViewOf(side));
  }

  /** n steps of one side in a row. */
  ghost function GoTimes(s: State, side: Side, n: nat): State
    decreases n
  {
    if n == 0 then s else GoTimes(Advance(s, side), side, n - 1)
  }

  /** Each of those steps is enabled when its turn comes. */
  ghost predicate CanGoTimes(s: State, side: Side, n: nat)
    decreases n
  {
    n == 0 || (Enabled(s, Go(side)) && CanGoTimes(Advance(s, side), side, n - 1))
  }

  /** How many steps a side inside its critical section is away from having raised the other's event. */
  function WakeRank(pc: Pc): nat {
    match pc
    case ClearFlag => 5
    case ClearEvent => 4
    case CheckOther => 3
    case SetFlag => 2
    case SetEvent => 1
    case _ => 0
  }

  /** A sleeper that could work: the other side is in its critical section, on its way to the event. */
  lemma WakerAdvances(s: State, side: Side)
    requires Inv(s) && s.Of(side).pc == Wait && s.Usable(side) && !s.Of(side).evt
    ensures Enabled(s, Go(side.Other()))
    ensures var t := Advance(s, side.Other());
            && t.Of(side).pc == Wait && t.Usable(side)
            && WakeRank(t.Of(side.Other()).pc) < WakeRank(s.Of(side.Other()).pc)
            && (s.Of(side.Other()).pc == SetEvent ==> t.Of(side).evt)
  {
    assert SideInv(s.ViewOf(side)) && SideInv(s.ViewOf(side.Other()));
  }

  /** No lost wakeup: a side that sleeps although it could work is woken by at most five further
      steps of the other side, none of which can block. */
  lemma {:induction false} SleeperIsWoken(s: State, side: Side) returns (n: nat)
    requires Inv(s) && s.Of(side).pc == Wait && s.Usable(side)
    ensures n <= WakeRank(s.Of(side.Other()).pc) <= 5
    ensures CanGoTimes(s, side.Other(), n)
    ensures GoTimes(s, side.Other(), n).Of(side).pc == Wait && GoTimes(s, side.Other(), n).Of(side).evt
    decreases WakeRank(s.Of(side.Other()).pc)
  {
    if s.Of(side).evt {
      n := 0;
    } else {
      WakerAdvances(s, side);
      AdvanceKeepsInv(s, side.Other());
      var m := SleeperIsWoken(Advance(s, side.Other()), side);
      n := m + 1;
    }
  }

  /** Once one bip_buffer_close is past a side's event, that side's call cannot stay blocked: its
      event is up, or the other side's very next step raises it. */
  lemma CloseReleases(s0: State, steps: seq<Step>, side: Side)
    requires Initial(s0) && Fits(s0, steps) && SomePassed(Run(s0, steps), side)
    ensures var s := Run(s0, steps);
            s.Of(side).pc == Wait && !s.Of(side).evt ==>
              Enabled(s, Go(side.Other())) && Advance(s, side.Other()).Of(side).evt
  {
    InitialInv(s0);
    RunKeepsInv(s0, steps);
    var s := Run(s0, steps);
    assert SideInv(s.ViewOf(side)) && SideInv(s.ViewOf(side.Other()));
  }

  /** After a close no call goes to sleep. */
  lemma ClosedCallsStayAwake(s: State, side: Side)
    requires Inv(s) && s.closed && Enabled(s, Go(side))
    ensures Advance(s, side).Of(side).pc != Wait
    ensures s.Of(side).pc == TestClosed || s.Of(side).pc == Retest ==>
              Advance(s, side).Of(side).pc == Idle && Advance(s, side).Of(side).last == Epipe
  {
    hide Inv;
  }

  /** After a close a call that was asleep answers EPIPE two of its own steps after its event is up. */
  lemma ClosedSleeperReturns(s: State, side: Side)
    requires Inv(s) && s.closed && s.Of(side).pc == Wait && s.Of(side).evt
    ensures CanGoTimes(s, side, 2)
    ensures GoTimes(s, side, 2).Of(side).pc == Idle && GoTimes(s, side, 2).Of(side).last == Epipe
  {
    var t := Advance(s, side);
    AdvanceKeepsInv(s, side);
    assert t.closed && t.Of(side).pc == Retest && Enabled(t, Go(side));
    ClosedCallsStayAwake(t, side);
    assert GoTimes(s, side, 2) == GoTimes(t, side, 1) == GoTimes(Advance(t, side), side, 0) == Advance(t, side);
    assert CanGoTimes(t, side, 1);
  }

  lemma {:induction false} Then(s: State, steps: seq<Step>, step: Step) returns (more: seq<Step>)
    requires Fits(s, steps) && Enabled(Run(s, steps), step)
    ensures more == steps + [step] && Fits(s, more) && Run(s, more) == Apply(Run(s, steps), step)
    decreases |steps|
  {
    more := steps + [step];
    hide Enabled, Apply;
    if steps == [] {
      assert more[1..] == [];
    } else {
      var tail := Then(Apply(s, steps[0]), steps[1..], step);
      assert more[1..] == tail;
    }
  }

  lemma GoAdvances(s: State, side: Side)
    requires Enabled(s, Go(side))
    ensures Apply(s, Go(side)) == Advance(s, side)
  {
  }

  /** A side's next k steps. */
  lemma {:induction false} ThenGo(s: State, steps: seq<Step>, side: Side, k: nat) returns (more: seq<Step>)
    requires Fits(s, steps) && CanGoTimes(Run(s, steps), side, k)
    ensures Fits(s, more) && Run(s, more) == GoTimes(Run(s, steps), side, k)
    decreases k
  {
    more := steps;
    hide Enabled, Apply, Advance;
    if k > 0 {
      GoAdvances(Run(s, steps), side);
      more := Then(s, steps, Go(side));
      more := ThenGo(s, more, side, k - 1);
    }
  }

  /** Where a reader that found nothing is asleep and the pair still open. */
  ghost predicate ReaderSleeps(s: State) {
    && s.reader.pc == Wait && !s.reader.evt && !s.reader.flag && s.holder == Free && s.writer.pc == Idle
        && s.writer.flag
    && s.q == [] && !s.closed && s.closers == [Ready]
  }

  lemma ReaderGoesToSleep(s0: State)
    requires Initial(s0) && s0.closers == [Ready]
    ensures var s := Apply(s0, Call(Reader, [], 1)); CanGoTimes(s, Reader, 3) && ReaderSleeps(GoTimes(s, Reader, 3))
  {
    var s := Apply(s0, Call(Reader, [], 1));
    var s1 := Advance(s, Reader);
    var s2 := Advance(s1, Reader);
    assert CanGoTimes(s2, Reader, 1);
    assert CanGoTimes(s1, Reader, 2);
    assert GoTimes(s1, Reader, 2) == GoTimes(s2, Reader, 1);
  }

  /** A byte was written meanwhile. */
  ghost predicate ByteThere(s: State) {
    s.reader.pc == Wait && !s.reader.flag && s.q == [7] && !s.closed && s.closers == [Ready]
  }

  lemma WriterWrites(s0: State)
    requires ReaderSleeps(s0)
    ensures var s := Apply(s0, Call(Writer, [7], 0)); CanGoTimes(s, Writer, 3) && ByteThere(GoTimes(s, Writer, 3))
  {
    var s := Apply(s0, Call(Writer, [7], 0));
    var s1 := Advance(s, Writer);
    var s2 := Advance(s1, Writer);
    assert CanGoTimes(s2, Writer, 1) && GoTimes(s2, Writer, 1) == Advance(s2, Writer);
    assert CanGoTimes(s1, Writer, 2) && GoTimes(s1, Writer, 2) == GoTimes(s2, Writer, 1);
    assert GoTimes(s, Writer, 3) == GoTimes(s1, Writer, 2);
  }

  lemma CloserWakes(s: State)
    requires ByteThere(s)
    ensures Enabled(s, Close(0)) && Enabled(Apply(s, Close(0)), Close(0))
    ensures var t := Apply(Apply(s, Close(0)), Close(0)); Enabled(t, Close(0)) && Woken(Apply(t, Close(0)))
  {
  }

  ghost predicate Woken(s: State) { s.closed && s.reader.pc == Wait && s.reader.evt && s.q == [7] }

  lemma WokenAnswers(s: State)
    requires Inv(s) && Woken(s)
    ensures CanGoTimes(s, Reader, 2)
    ensures var t := GoTimes(s, Reader, 2); t.closed && t.q == [7] && t.reader.pc == Idle && t.reader.last == Epipe
  {
    ClosedSleeperReturns(s, Reader);
    hide Inv;
    assert GoTimes(s, Reader, 2) == GoTimes(Advance(s, Reader), Reader, 1) == Advance(Advance(s, Reader), Reader);
  }

  /** For one: a reader went to sleep, a byte was written and the pair closed before it ran again. It
      answers EPIPE although the byte is there. */
  lemma EpipeLeavesBytes(s0: State) returns (steps: seq<Step>)
    requires Initial(s0) && s0.closers == [Ready]
    ensures Fits(s0, steps)
    ensures var s := Run(s0, steps); s.closed && s.q == [7] && s.reader.pc == Idle && s.reader.last == Epipe
  {
    ReaderGoesToSleep(s0);
    InitialInv(s0);
    steps := [];
    assert Fits(s0, steps) && Run(s0, steps) == s0 && Enabled(s0, Call(Reader, [], 1));
    hide *;
    steps := Then(s0, steps, Call(Reader, [], 1));
    steps := ThenGo(s0, steps, Reader, 3);
    SleepIsCalm(Run(s0, steps));
    WriterWrites(Run(s0, steps));
    steps := Then(s0, steps, Call(Writer, [7], 0));
    steps := ThenGo(s0, steps, Writer, 3);
    CloserWakes(Run(s0, steps));
    steps := Then(s0, steps, Close(0));
    steps := Then(s0, steps, Close(0));
    steps := Then(s0, steps, Close(0));
    RunKeepsInv(s0, steps);
    WokenAnswers(Run(s0, steps));
    steps := ThenGo(s0, steps, Reader, 2);
  }

  lemma SleepIsCalm(s: State)
    requires ReaderSleeps(s)
    ensures Enabled(s, Call(Writer, [7], 0))
  {
  }

  /** A call entered with its half of the buffer usable copies, closed or not, once it has the lock. */
  lemma EnteredCallsCopy(s: State, side: Side)
    requires Inv(s) && s.Of(side).entered && s.Of(side).pc == Check
    ensures CanGoTimes(s, side, 1) && GoTimes(s, side, 1).Of(side).pc == Copy
    ensures GoTimes(s, side, 1).q == s.q && s.Usable(side)
  {
    assert SideInv(s.ViewOf(side)) && SideInv(s.ViewOf(side.Other()));
  }

  ghost predicate Quiet(s: State) {
    && !CanGo(s.ViewOf(Writer)) && !CanGo(s.ViewOf(Reader))
    && forall i | 0 <= i < |s.closers| :: s.closers[i] == Ready || s.closers[i] == Done
  }

  /** The only state in which a call hangs is the intended one: the pair is open and the caller
      waits for the peer, a reader on an empty buffer or a writer on a full one, never both. */
  lemma OnlyHonestWaits(s0: State, steps: seq<Step>, side: Side)
    requires Initial(s0) && Fits(s0, steps)
    requires Quiet(Run(s0, steps)) && Run(s0, steps).Of(side).pc != Idle
    ensures var s := Run(s0, steps);
            && s.Of(side).pc == Wait && !s.Usable(side) && !s.closed
            && s.Of(side.Other()).pc == Idle
  {
    InitialInv(s0);
    RunKeepsInv(s0, steps);
    var s := Run(s0, steps);
    assert SideInv(s.ViewOf(side)) && SideInv(s.ViewOf(side.Other()));
    HolderMoves(s, side);
    HolderMoves(s, side.Other());
  }

  /** When nobody else is under way, a call that waits can go on exactly if it has something to do or the
      pair is closed. */
  lemma WaitsIff(s0: State, steps: seq<Step>, side: Side)
    requires Initial(s0) && Fits(s0, steps)
    requires Run(s0, steps).Of(side).pc == Wait && Run(s0, steps).Of(side.Other()).pc == Idle
    requires forall i | 0 <= i < |Run(s0, steps).closers| ::
               Run(s0, steps).closers[i] == Ready || Run(s0, steps).closers[i] == Done
    ensures var s := Run(s0, steps); Enabled(s, Go(side)) <==> s.Usable(side) || s.closed
  {
    InitialInv(s0);
    RunKeepsInv(s0, steps);
    WaitsIffHere(Run(s0, steps), side);
  }

  lemma WaitsIffHere(s: State, side: Side)
    requires Inv(s) && s.Of(side).pc == Wait && s.Of(side.Other()).pc == Idle
    requires forall i | 0 <= i < |s.closers| :: s.closers[i] == Ready || s.closers[i] == Done
    ensures Enabled(s, Go(side)) <==> s.Usable(side) || s.closed
  {
    assert SideInv(s.ViewOf(side));
    if s.closed {
      var i :| 0 <= i < |s.closers| && s.closers[i] != Ready;
      assert Passed(side, s.closers[i]);
      assert SomePassed(s, side);
    }
  }

  lemma HolderMoves(s: State, side: Side)
    requires Inv(s) && !CanGo(s.ViewOf(side)) && !CanGo(s.ViewOf(side.Other()))
    ensures s.holder == Free
    ensures s.Of(side).pc == Idle || (s.Of(side).pc == Wait && !s.Of(side).evt)
  {
    assert SideInv(s.ViewOf(side)) && SideInv(s.ViewOf(side.Other()));
  }
}
