/** Waiting for any of more handles than one wait can take: _wait_for_all and its waiting threads. */
module WaitForAll {

  const WAIT_ALL_CHUNK_SIZE: nat := 63
  const WAIT_FAILED: int := -1

  /** The handles one thread waits on: count of them, from the one with index first. */
  datatype Chunk = Chunk(first: nat, count: nat)

  predicate Covers(c: Chunk, handle: nat) {
    c.first <= handle < c.first + c.count
  }

  function Chunks(handles: nat): (chunks: seq<Chunk>)
    ensures |chunks| == (handles + 62) / 63
    ensures forall i | 0 <= i < |chunks| ::
            chunks[i] == Chunk(63 * i, if 63 * i + 63 <= handles then 63 else handles % 63)
    ensures forall i | 0 <= i < |chunks| :: chunks[i].first + chunks[i].count <= handles
  {
    seq((handles + 62) / 63, i requires 0 <= i < (handles + 62) / 63 =>
        Chunk(63 * i, if 63 * i + 63 <= handles then 63 else handles % 63))
  }

  /** The loops that fill in the parameters of the threads. */
  method DivideHandles(handles_count: nat) returns (threads: array<Chunk>)
    ensures threads[..] == Chunks(handles_count)
  {
    var chunks := handles_count / WAIT_ALL_CHUNK_SIZE;
    var remains := handles_count % WAIT_ALL_CHUNK_SIZE;
    threads := new Chunk[chunks + (if remains != 0 then 1 else 0)](_ => Chunk(0, 0));
    var chunk := 0;
    while chunk < chunks
      invariant chunk <= chunks
      invariant forall i | 0 <= i < chunk :: threads[i] == Chunk(63 * i, 63)
    {
      threads[chunk] := Chunk(WAIT_ALL_CHUNK_SIZE * chunk, WAIT_ALL_CHUNK_SIZE);
      chunk := chunk + 1;
    }
    if remains != 0 {
      threads[chunk] := Chunk(WAIT_ALL_CHUNK_SIZE * chunk, remains);
    }
  }

  /** How many of the chunks cover a handle. */
  function Times(chunks: seq<Chunk>, handle: nat): nat {
    if chunks == [] then 0 else (if Covers(chunks[0], handle) then 1 else 0) + Times(chunks[1..], handle)
  }

  lemma {:induction false} TimesFrom(handles: nat, i: nat, handle: nat)
    requires i <= |Chunks(handles)|
    ensures Times(Chunks(handles)[i..], handle) == if 63 * i <= handle < handles then 1 else 0
    decreases |Chunks(handles)| - i
  {
    var c := Chunks(handles);
    if i < |c| {
      assert c[i..][0] == c[i] && c[i..][1..] == c[i + 1..];
      TimesFrom(handles, i + 1, handle);
    }
  }

  /** Every handle is waited on by exactly one thread, and no other handle by any; a thread waits on no
      more handles than fit beside the main event. */
  lemma Partition(handles: nat, handle: nat)
    ensures Times(Chunks(handles), handle) == if handle < handles then 1 else 0
    ensures forall i | 0 <= i < |Chunks(handles)| :: 0 < Chunks(handles)[i].count <= WAIT_ALL_CHUNK_SIZE
  {
    TimesFrom(handles, 0, handle);
    assert Chunks(handles)[0..] == Chunks(handles);
  }

  // What a waiting thread is about to do.
  datatype Waiter = NotStarted | Waiting | Woken(res: int) | Signalling | Exited

  // What _wait_for_all is about to do.
  datatype Phase = Starting(next: nat) | WaitingForMain | Joining(next: nat) | Finished(ret: int)

  /** The threads' shared state. seen holds the handles that a wait reported; trouble tells that a thread did not start
      or a wait failed. */
  datatype State = State(
    chunks: seq<Chunk>,
    waiters: seq<Waiter>,
    phase: Phase,
    started: nat,
    mainEvent: bool,
    sigIndex: int,
    signalled: set<nat>,
    seen: set<nat>,
    trouble: bool)

  datatype Step =
    | Signal(handle: nat)              // somebody signals a handle
    | Reset(handle: nat)               // or takes the signal away
    | Start                            // _beginthreadex
    | StartFails
    | MainWakes                        // the wait on the main event returns
    | Join                             // the wait on a thread's end returns
    | Finish
    | WakeByMain(w: nat)               // WaitForMultipleObjects returns in a waiting thread
    | WakeByHandle(w: nat, k: nat)
    | WaitFails(w: nat)
    | Record(w: nat)                   // InterlockedCompareExchange
    | Tell(w: nat)                     // SetEvent

  function Init(handles: nat, signalled: set<nat>): State {
    var c := Chunks(handles);
    State(c, seq(|c|, _ => NotStarted), Starts(0, |c|), 0, false, -1, signalled, {}, false)
  }

  predicate Is(s: State, w: nat, p: Waiter) {
    w < |s.waiters| && s.waiters[w] == p
  }

  predicate Enabled(s: State, step: Step) {
    match step
    case Signal(_) => true
    case Reset(_) => true
    case Start => s.phase.Starting? && s.phase.next < |s.chunks|
    case StartFails => s.phase.Starting? && s.phase.next < |s.chunks|
    case MainWakes => s.phase == WaitingForMain && s.mainEvent
    case Join => s.phase.Joining? && s.phase.next < s.started && Is(s, s.phase.next, Exited)
    case Finish => s.phase.Joining? && s.phase.next == s.started
    case WakeByMain(w) => Is(s, w, Waiting) && s.mainEvent
    case WakeByHandle(w, k) =>
      Is(s, w, Waiting) && w < |s.chunks| && k < s.chunks[w].count && s.chunks[w].first + k in s.signalled
    case WaitFails(w) => Is(s, w, Waiting)
    case Record(w) => w < |s.waiters| && s.waiters[w].Woken?
    case Tell(w) => Is(s, w, Signalling)
  }

  function To(s: State, w: nat, p: Waiter): State
    requires w < |s.waiters|
  {
    s.(waiters := s.waiters[w := p])
  }

  /** The phase with one more thread started, or the last. */
  function Starts(next: nat, chunks: nat): Phase {
    if next < chunks then Starting(next) else WaitingForMain
  }

  function Apply(s: State, step: Step): State
    requires Enabled(s, step) && |s.waiters| == |s.chunks|
  {
    match step
    case Signal(h) => s.(signalled := s.signalled + {h})
    case Reset(h) => s.(signalled := s.signalled - {h})
    case Start =>
      var w := s.phase.next;
      To(s, w, Waiting).(phase := Starts(w + 1, |s.chunks|), started := w + 1)
    case StartFails => s.(phase := WaitingForMain, mainEvent := true, trouble := true)
    case MainWakes => s.(phase := Joining(0))
    case Join => s.(phase := Joining(s.phase.next + 1))
    case Finish => s.(phase := Finished(if s.sigIndex >= 0 then s.sigIndex else WAIT_FAILED))
    case WakeByMain(w) => To(s, w, Woken(0))
    case WakeByHandle(w, k) => To(s, w, Woken(k + 1)).(seen := s.seen + {s.chunks[w].first + k})
    case WaitFails(w) => To(s, w, Woken(WAIT_FAILED)).(trouble := true)
    case Record(w) =>
      var res := s.waiters[w].res;
      var t := To(s, w, Signalling);
      if 0 < res < s.chunks[w].count + 1 && s.sigIndex == -1 then t.(sigIndex := res - 1 + s.chunks[w].first) else t
    case Tell(w) => To(s, w, Exited).(mainEvent := true)
  }

  /** Signals come and go at any time, and nothing else with them. */
  lemma SignalsAreFree(s: State, handle: nat, other: nat)
    requires |s.waiters| == |s.chunks|
    ensures Enabled(s, Signal(handle)) && Enabled(s, Reset(handle))
    ensures var t := Apply(s, Signal(handle));
            t == s.(signalled := t.signalled) && (other in t.signalled <==> other == handle || other in s.signalled)
    ensures var t := Apply(s, Reset(handle));
            t == s.(signalled := t.signalled) && (other in t.signalled <==> other != handle && other in s.signalled)
  {
  }

  /** A thread that woke was woken by the main event, by one of its handles, or in trouble. */
  ghost predicate Explained(s: State, w: nat)
    requires |s.waiters| == |s.chunks| && w < |s.waiters|
  {
    match s.waiters[w]
    case Woken(res) =>
      if res == 0 then s.mainEvent
      else if 0 < res then res <= s.chunks[w].count && s.chunks[w].first + res - 1 in s.seen
      else s.trouble
    case Signalling => s.sigIndex >= 0 || s.trouble
    case Exited => s.mainEvent
    case _ => true
  }

  ghost predicate WaitersInv(s: State)
    requires |s.waiters| == |s.chunks|
  {
    && s.started <= |s.chunks|
    && (forall w: nat | w < |s.waiters| :: s.waiters[w] == NotStarted <==> s.started <= w)
    && (forall w: nat | w < |s.waiters| :: Explained(s, w))
  }

  ghost predicate ResultInv(s: State, handles: nat) {
    && (s.sigIndex == -1 || (0 <= s.sigIndex < handles && s.sigIndex in s.seen))
    && (s.mainEvent ==> s.sigIndex >= 0 || s.trouble)
  }

  predicate Ended(s: State, n: nat) {
    forall w: nat | w < n :: Is(s, w, Exited)
  }

  ghost predicate MainInv(s: State) {
    match s.phase
    case Starting(next) => next == s.started < |s.chunks|
    case WaitingForMain => s.started < |s.chunks| ==> s.trouble && s.mainEvent
    case Joining(next) => s.mainEvent && next <= s.started && Ended(s, next)
    case Finished(ret) =>
      s.mainEvent && Ended(s, s.started) && ret == if s.sigIndex >= 0 then s.sigIndex else WAIT_FAILED
  }

  ghost predicate Inv(s: State, handles: nat) {
    && s.chunks == Chunks(handles) && |s.waiters| == |s.chunks|
    && WaitersInv(s) && ResultInv(s, handles) && MainInv(s)
  }

  predicate Enables(s: State, steps: seq<Step>)
    requires |s.waiters| == |s.chunks|
    decreases |steps|
  {
    steps == [] || (Enabled(s, steps[0]) && Enables(Apply(s, steps[0]), steps[1..]))
  }

  function Run(s: State, steps: seq<Step>): State
    requires |s.waiters| == |s.chunks| && Enables(s, steps)
    decreases |steps|
  {
    if steps == [] then s else Run(Apply(s, steps[0]), steps[1..])
  }

  lemma StepKeepsWaiters(s: State, step: Step, handles: nat)
    requires Inv(s, handles) && Enabled(s, step)
    ensures WaitersInv(Apply(s, step))
  {
    hide Chunks, Ended, Covers;
    var t := Apply(s, step);
    forall w: nat | w < |s.waiters| ensures Explained(t, w) {
      assert Explained(s, w);
    }
  }

  lemma StepKeepsResult(s: State, step: Step, handles: nat)
    requires Inv(s, handles) && Enabled(s, step)
    ensures ResultInv(Apply(s, step), handles)
    ensures s.sigIndex >= 0 ==> Apply(s, step).sigIndex == s.sigIndex
  {
    hide Ended;
    if step.Record? || step.Tell? { assert Explained(s, step.w); }
  }

  lemma StepKeepsMain(s: State, step: Step, handles: nat)
    requires Inv(s, handles) && Enabled(s, step)
    ensures MainInv(Apply(s, step))
  {
    hide Chunks, Covers, Explained;
    var t := Apply(s, step);
    forall w: nat | Is(s, w, Exited) ensures Is(t, w, Exited) {
    }
    assert step.Record? && step.w < s.started && Ended(s, s.started) ==> Is(s, step.w, Exited);
  }

  lemma StepKeepsInv(s: State, step: Step, handles: nat)
    requires Inv(s, handles) && Enabled(s, step)
    ensures Inv(Apply(s, step), handles)
    ensures s.sigIndex >= 0 ==> Apply(s, step).sigIndex == s.sigIndex
  {
    StepKeepsWaiters(s, step, handles);
    StepKeepsResult(s, step, handles);
    StepKeepsMain(s, step, handles);
    hide WaitersInv, ResultInv, MainInv;
  }

  lemma InitKeepsInv(handles: nat, signalled: set<nat>)
    ensures Inv(Init(handles, signalled), handles)
  {
    hide Chunks;
    var s := Init(handles, signalled);
    assert forall w: nat | w < |s.waiters| :: Explained(s, w);
  }

  lemma {:induction false} RunKeepsInv(s: State, steps: seq<Step>, handles: nat)
    requires Inv(s, handles) && Enables(s, steps)
    ensures Inv(Run(s, steps), handles)
    ensures s.sigIndex >= 0 ==> Run(s, steps).sigIndex == s.sigIndex
    decreases |steps|
  {
    hide Chunks, WaitersInv, ResultInv, MainInv, Enabled, Apply;
    if steps != [] {
      StepKeepsInv(s, steps[0], handles);
      RunKeepsInv(Apply(s, steps[0]), steps[1..], handles);
    }
  }

  /** The i-th step is a return of a wait that reports the handle, which is signalled then. */
  ghost predicate Reports(s: State, steps: seq<Step>, i: nat, handle: nat)
    requires |s.waiters| == |s.chunks|
  {
    && i < |steps| && Enables(s, steps[..i])
    && var t := Run(s, steps[..i]);
      && steps[i].WakeByHandle? && steps[i].w < |t.chunks| && t.chunks[steps[i].w].first + steps[i].k == handle
      && handle in t.signalled
  }

  lemma NewlySeen(s: State, step: Step, handle: nat)
    requires |s.waiters| == |s.chunks| && Enabled(s, step)
    requires handle !in s.seen && handle in Apply(s, step).seen
    ensures step.WakeByHandle? && step.w < |s.chunks| && s.chunks[step.w].first + step.k == handle
    ensures handle in s.signalled
  {
  }

  lemma ReportsLater(s: State, steps: seq<Step>, i: nat, handle: nat)
    requires |s.waiters| == |s.chunks| && steps != [] && Enabled(s, steps[0])
    requires Reports(Apply(s, steps[0]), steps[1..], i, handle)
    ensures Reports(s, steps, i + 1, handle)
  {
    assert steps[..i + 1][0] == steps[0] && steps[..i + 1][1..] == steps[1..][..i];
    hide Apply, Enabled;
  }

  lemma {:induction false} SeenWasReported(s: State, steps: seq<Step>, handle: nat)
    requires |s.waiters| == |s.chunks| && Enables(s, steps)
    requires handle !in s.seen && handle in Run(s, steps).seen
    ensures exists i: nat :: Reports(s, steps, i, handle)
    decreases |steps|
  {
    if steps != [] {
      hide Apply, Enabled;
      var t := Apply(s, steps[0]);
      if handle in t.seen {
        NewlySeen(s, steps[0], handle);
        assert steps[..0] == [];
        assert Reports(s, steps, 0, handle);
      } else {
        SeenWasReported(t, steps[1..], handle);
        var i: nat :| Reports(t, steps[1..], i, handle);
        ReportsLater(s, steps, i, handle);
      }
    }
  }

  predicate Fails(step: Step) { step.StartFails? || step.WaitFails? }

  /** Trouble is a thread that does not start or a wait that fails. */
  lemma {:induction false} TroubleIff(s: State, steps: seq<Step>)
    requires |s.waiters| == |s.chunks| && Enables(s, steps)
    ensures Run(s, steps).trouble <==> s.trouble || exists i :: 0 <= i < |steps| && Fails(steps[i])
    decreases |steps|
  {
    if steps != [] {
      TroubleIff(Apply(s, steps[0]), steps[1..]);
      assert forall i | 1 <= i < |steps| :: steps[i] == steps[1..][i - 1];
    }
  }

  /** In every run, the answer is the index of a handle that a wait reported, or failure; the failure
      only if some thread did not start or some wait failed; and no thread is left when it is given. */
  lemma AnswerIsRight(handles: nat, signalled: set<nat>, steps: seq<Step>)
    requires Enables(Init(handles, signalled), steps)
    ensures var s := Init(handles, signalled); var t := Run(s, steps);
            t.phase.Finished? ==>
              var ret := t.phase.ret;
              && (ret != -1 ==> 0 <= ret < handles && exists i: nat :: Reports(s, steps, i, ret))
              && (ret == -1 ==> exists i :: 0 <= i < |steps| && Fails(steps[i]))
              && forall w: nat | w < |t.waiters| :: t.waiters[w] == NotStarted || t.waiters[w] == Exited
  {
    var s := Init(handles, signalled);
    InitKeepsInv(handles, signalled);
    RunKeepsInv(s, steps, handles);
    TroubleIff(s, steps);
    var t := Run(s, steps);
    if t.phase.Finished? && t.sigIndex >= 0 { SeenWasReported(s, steps, t.sigIndex); }
    hide Chunks, Run, Reports, Enables, Apply;
    forall w: nat | w < |t.waiters| && t.waiters[w] != NotStarted && t.phase.Finished? ensures t.waiters[w] == Exited {
      assert Is(t, w, Exited);
    }
  }

  /** So an answer is a handle that was signalled when some wait on it returned. */
  lemma AnswerWasSignalled(handles: nat, signalled: set<nat>, steps: seq<Step>, ret: nat) returns (i: nat)
    requires Enables(Init(handles, signalled), steps) && Run(Init(handles, signalled), steps).phase == Finished(ret)
    ensures i < |steps| && Enables(Init(handles, signalled), steps[..i])
    ensures var t, step := Run(Init(handles, signalled), steps[..i]), steps[i];
            && ret in t.signalled && step.WakeByHandle? && step.w < |t.chunks|
            && t.chunks[step.w].first + step.k == ret
  {
    var s := Init(handles, signalled);
    AnswerIsRight(handles, signalled, steps);
    hide Run, Init, Enables;
    i :| Reports(s, steps, i, ret);
  }

  /** Whether somebody outside does the step. */
  predicate Outside(step: Step) { step.Signal? || step.Reset? }

  /** A thread's own next step without trouble, if it has one. */
  predicate Moves(s: State, step: Step) {
    Enabled(s, step) && !Outside(step) && !Fails(step)
  }

  /** The answer is given, or all wait and no handle is signalled. */
  ghost predicate AtRest(s: State, handles: nat) {
    || s.phase.Finished?
    || (s.phase == WaitingForMain && !s.mainEvent && (forall w: nat | w < |s.waiters| :: s.waiters[w] == Waiting)
       && forall h: nat | h < handles :: h !in s.signalled)
  }

  /** What a started thread can do next once the main event is set. */
  function Push(s: State, w: nat): Step
    requires w < |s.waiters|
  {
    match s.waiters[w]
    case Woken(_) => Record(w)
    case Signalling => Tell(w)
    case _ => WakeByMain(w)
  }

  lemma ThreadMoves(s: State, handles: nat, w: nat) returns (step: Step)
    requires Inv(s, handles) && !s.mainEvent && s.phase == WaitingForMain && w < |s.waiters|
    requires s.waiters[w] != Waiting
    ensures Moves(s, step)
  {
    assert Explained(s, w);
    step := Push(s, w);
  }

  lemma HandleWakes(s: State, handles: nat, h: nat) returns (step: Step)
    requires Inv(s, handles) && h < handles && h in s.signalled && h / 63 < |s.waiters| && s.waiters[h / 63] == Waiting
    ensures Moves(s, step)
  {
    step := WakeByHandle(h / 63, h % 63);
  }

  lemma SomethingMoves(s: State, handles: nat) returns (step: Step)
    requires Inv(s, handles) && !AtRest(s, handles)
    ensures Moves(s, step)
  {
    hide Chunks, Covers, Ended;
    match s.phase {
      case Starting(_) => step := Start;
      case WaitingForMain =>
        if s.mainEvent { step := MainWakes; }
        else if w: nat :| w < |s.waiters| && s.waiters[w] != Waiting { step := ThreadMoves(s, handles, w); }
        else {
          var h: nat :| h < handles && h in s.signalled;
          step := HandleWakes(s, handles, h);
        }
      case Joining(next) =>
        if next == s.started { step := Finish; }
        else if s.waiters[next] == Exited { step := Join; }
        else { step := Push(s, next); }
    }
  }

  /** The threads come to rest only with the answer given, or with all of them waiting for a signal. */
  lemma RestIff(s: State, handles: nat)
    requires Inv(s, handles)
    ensures (forall step :: !Moves(s, step)) <==> AtRest(s, handles)
  {
    if !AtRest(s, handles) {
      var step := SomethingMoves(s, handles);
      assert Moves(s, step);
    } else {
      assert s.phase.Finished? ==> forall w: nat | w < s.started :: Is(s, w, Exited) && s.waiters[w] == Exited;
    }
  }

  function Weight(w: Waiter): nat {
    match w
    case NotStarted => 4
    case Waiting => 3
    case Woken(_) => 2
    case Signalling => 1
    case Exited => 0
  }

  function Weights(ws: seq<Waiter>): (n: nat)
    ensures n <= 4 * |ws|
  {
    if ws == [] then 0 else Weight(ws[0]) + Weights(ws[1..])
  }

  lemma {:induction false} Lighter(ws: seq<Waiter>, w: nat, p: Waiter)
    requires w < |ws|
    ensures Weights(ws[w := p]) == Weights(ws) - Weight(ws[w]) + Weight(p)
  {
    if w > 0 {
      assert ws[w := p][1..] == ws[1..][w - 1 := p];
      Lighter(ws[1..], w - 1, p);
    } else {
      assert ws[0 := p][1..] == ws[1..];
    }
  }

  /** How many steps the threads can still take at most. */
  function Rank(s: State): int {
    Weights(s.waiters) +
    match s.phase
    case Starting(_) => s.started + 2 * (|s.chunks| - s.started) + 3
    case WaitingForMain => s.started + 2
    case Joining(next) => s.started - next + 1
    case Finished(_) => 0
  }

  lemma StepLowersRank(s: State, step: Step, handles: nat)
    requires Inv(s, handles) && Enabled(s, step)
    ensures 0 <= Rank(Apply(s, step)) <= Rank(s) - if Outside(step) then 0 else 1
  {
    hide Chunks, Explained, Ended, Weights;
    StepKeepsInv(s, step, handles);
    match step
    case Start => Lighter(s.waiters, s.phase.next, Waiting);
    case WakeByMain(w) => Lighter(s.waiters, w, Woken(0));
    case WakeByHandle(w, k) => Lighter(s.waiters, w, Woken(k + 1));
    case WaitFails(w) => Lighter(s.waiters, w, Woken(WAIT_FAILED));
    case Record(w) => Lighter(s.waiters, w, Signalling);
    case Tell(w) => Lighter(s.waiters, w, Exited);
    case _ =>
  }

  function Own(steps: seq<Step>): nat {
    if steps == [] then 0 else (if Outside(steps[0]) then 0 else 1) + Own(steps[1..])
  }

  /** However the handles are signalled and reset, the threads take boundedly many steps; with RestIff,
      a wait for handles one of which stays signalled ends. */
  lemma {:induction false} RunsAreBounded(s: State, steps: seq<Step>, handles: nat)
    requires Inv(s, handles) && Enables(s, steps)
    ensures Own(steps) <= Rank(s)
    decreases |steps|
  {
    if steps != [] {
      StepKeepsInv(s, steps[0], handles);
      StepLowersRank(s, steps[0], handles);
      hide Rank, Apply, Enabled, Inv;
      RunsAreBounded(Apply(s, steps[0]), steps[1..], handles);
    } else {
      RankIsNatural(s, handles);
    }
  }

  lemma RankIsNatural(s: State, handles: nat)
    requires Inv(s, handles)
    ensures Rank(s) >= 0
  {
  }

  /** From the start, that is six steps for every thread and three more. */
  lemma StepsFromStart(handles: nat, signalled: set<nat>, steps: seq<Step>)
    requires Enables(Init(handles, signalled), steps)
    ensures Own(steps) <= 6 * ((handles + 62) / 63) + 3
  {
    InitKeepsInv(handles, signalled);
    RunsAreBounded(Init(handles, signalled), steps, handles);
  }
}
