module Heartbeat {

  /** Heartbeat frames of a remote reply, and the handoff of the connection to the terminal
      reply.  Three parties interleave: the timer that starts the heartbeat coroutine, the
      coroutine, and the caller of StopAndHandoff.  The output lock is the coroutine mutex,
      of which only mutual exclusion is used here. */

  datatype Party = Nobody | Beat | Caller

  /** What reached the output buffer, in order. */
  datatype Item = FrameOpen | FrameClose | Terminal

  datatype TimerPc = Armed | Fired

  datatype BeatPc =
    | NotStarted
    | Test            // loop condition
    | WantLock
    | TestLocked      // second look at the stop flag, under the lock
    | OpenFrame | CloseFrame | Flush
    | MarkFailed | MarkStop
    | Unlock(leave: bool)
    | TestAgain | Sleeping
    | Done

  datatype CallerPc =
    | Working
    | SetStop
    | WaitLock
    | ReadFailed
    | DropLock
    | Handed          // StopAndHandoff has returned
    | Replied

  datatype State = State(
    started: bool,
    stop: bool,
    failed: bool,
    lock: Party,
    timer: TimerPc,
    beat: BeatPc,
    caller: CallerPc,
    canSerialize: bool,
    out: seq<Item>,
    flushFailures: nat)

  datatype Action =
    | StartStream
    | TimerFires
    | BeatStep(flushOk: bool)   // next step of the heartbeat coroutine
    | CallStop
    | CallerStep
    | SendTerminal

  function Fresh(): State
  {
    State(false, false, false, Nobody, Armed, NotStarted, Working, true, [], 0)
  }

  predicate Enabled(s: State, a: Action)
  {
    match a
    case StartStream => !s.started && s.caller.Working?
    case TimerFires => s.started && s.timer.Armed?
    case BeatStep(_) =>
      !s.beat.NotStarted? && !s.beat.Done? && (s.beat.WantLock? ==> s.lock.Nobody?)
    case CallStop => s.caller.Working?
    case CallerStep =>
      s.caller.SetStop? || (s.caller.WaitLock? && s.lock.Nobody?) || s.caller.ReadFailed? || s.caller.DropLock?
    case SendTerminal => s.caller.Handed? && s.canSerialize
  }

  function StepBeat(s: State, flushOk: bool): State
  {
    match s.beat
    case NotStarted => s
    case Test => s.(beat := if s.stop then Done else WantLock)
    case WantLock => s.(lock := Beat, beat := TestLocked)
    case TestLocked => s.(beat := if s.stop then Unlock(true) else OpenFrame)
    case OpenFrame => s.(out := s.out + [FrameOpen], beat := CloseFrame)
    case CloseFrame => s.(out := s.out + [FrameClose], beat := Flush)
    case Flush =>
      if flushOk then s.(beat := Unlock(false)) else s.(beat := MarkFailed, flushFailures := s.flushFailures + 1)
    case MarkFailed => s.(failed := true, beat := MarkStop)
    case MarkStop => s.(stop := true, beat := Unlock(true))
    case Unlock(leave) => s.(lock := Nobody, beat := if leave then Done else TestAgain)
    case TestAgain => s.(beat := if s.stop then Done else Sleeping)
    case Sleeping => s.(beat := Test)
    case Done => s
  }

  function StepCaller(s: State): State
  {
    match s.caller
    case SetStop => s.(stop := true, caller := WaitLock)
    case WaitLock => s.(lock := Caller, caller := ReadFailed)
    case ReadFailed => s.(canSerialize := !s.failed, caller := DropLock)
    case DropLock => s.(lock := Nobody, caller := Handed)
    case _ => s
  }

  function Apply(s: State, a: Action): State
    requires Enabled(s, a)
  {
    match a
    case StartStream => s.(started := true)
    case TimerFires => s.(timer := Fired, beat := if s.stop then s.beat else Test)
    case BeatStep(ok) => StepBeat(s, ok)
    case CallStop => s.(caller := if s.started then SetStop else Handed)
    case CallerStep => StepCaller(s)
    case SendTerminal => s.(out := s.out + [Terminal], caller := Replied)
  }

  predicate BeatHolds(pc: BeatPc)
  {
    pc.TestLocked? || pc.OpenFrame? || pc.CloseFrame? || pc.Flush? || pc.MarkFailed? || pc.MarkStop? || pc.Unlock?
  }

  predicate CallerHolds(pc: CallerPc) { pc.ReadFailed? || pc.DropLock? }

  predicate HandedOff(s: State) { s.caller.Handed? || s.caller.Replied? }

  /** Points at which the coroutine still touches the output. */
  predicate Busy(pc: BeatPc) { pc.OpenFrame? || pc.CloseFrame? || pc.Flush? || pc.MarkFailed? || pc.MarkStop? }

  /** Whole heartbeat frames, the last one possibly still open. */
  predicate Frames(out: seq<Item>, open: bool)
  {
    && |out| % 2 == (if open then 1 else 0)
    && forall i | 0 <= i < |out| :: out[i] == if i % 2 == 0 then FrameOpen else FrameClose
  }

  /** Lock, flags and program points agree. */
  predicate Control(s: State)
  {
    && (s.lock == Beat <==> BeatHolds(s.beat)) && (s.lock == Caller <==> CallerHolds(s.caller))
    && (s.timer.Armed? ==> s.beat.NotStarted?)
    && (!s.started ==> s.timer.Armed? && !s.caller.SetStop? && !s.caller.WaitLock? && !CallerHolds(s.caller))
    && (s.started && (s.caller.WaitLock? || CallerHolds(s.caller) || HandedOff(s)) ==> s.stop)
    // once the caller had the lock, the coroutine can only run towards its exit
    && (HandedOff(s) || CallerHolds(s.caller) ==> !Busy(s.beat))
  }

  /** A flush failure is recorded before the lock is released. */
  predicate Failures(s: State)
  {
    && (s.failed || s.beat.MarkFailed? <==> s.flushFailures > 0)
    && (s.beat.NotStarted? ==> s.flushFailures == 0)
    && (s.canSerialize <==> !(s.caller.DropLock? || HandedOff(s)) || s.flushFailures == 0)
  }

  /** Whole frames, and the terminal reply behind them once it was sent. */
  predicate Written(out: seq<Item>, open: bool, replied: bool)
  {
    if replied then |out| > 0 && out[|out| - 1].Terminal? && Frames(out[..|out| - 1], false)
    else Frames(out, open)
  }

  predicate Output(s: State)
  {
    Written(s.out, s.beat.CloseFrame?, s.caller.Replied?)
  }

  predicate Inv(s: State)
  {
    Control(s) && Failures(s) && Output(s)
  }

  lemma AppendItem(out: seq<Item>, x: Item)
    ensures (out + [x])[..|out + [x]| - 1] == out && (out + [x])[|out + [x]| - 1] == x
  {
  }

  lemma StepKeepsControl(s: State, a: Action)
    requires Control(s) && Enabled(s, a)
    ensures Control(Apply(s, a))
  {
  }

  lemma StepKeepsFailures(s: State, a: Action)
    requires Control(s) && Failures(s) && Enabled(s, a)
    ensures Failures(Apply(s, a))
  {
  }

  lemma StepKeepsOutput(s: State, a: Action)
    requires Control(s) && Output(s) && Enabled(s, a)
    ensures Output(Apply(s, a))
  {
    match a
    case BeatStep(ok) => BeatKeepsOutput(s, ok);
    case SendTerminal => AppendItem(s.out, Terminal);
    case _ =>
  }

  lemma BeatKeepsOutput(s: State, ok: bool)
    requires Control(s) && Output(s) && Enabled(s, BeatStep(ok))
    ensures Output(StepBeat(s, ok))
  {
    match s.beat
    case OpenFrame => OpenedFrame(s.out);
    case CloseFrame => ClosedFrame(s.out);
    case _ =>
  }

  lemma OpenedFrame(out: seq<Item>)
    requires Frames(out, false)
    ensures Frames(out + [FrameOpen], true)
  {
    AppendItem(out, FrameOpen);
  }

  lemma ClosedFrame(out: seq<Item>)
    requires Frames(out, true)
    ensures Frames(out + [FrameClose], false)
  {
    AppendItem(out, FrameClose);
  }

  lemma StepKeepsInv(s: State, a: Action)
    requires Inv(s) && Enabled(s, a)
    ensures Inv(Apply(s, a))
  {
    StepKeepsControl(s, a);
    StepKeepsFailures(s, a);
    StepKeepsOutput(s, a);
  }

  predicate Legal(s: State, run: seq<Action>)
    decreases |run|
  {
    run == [] || (Enabled(s, run[0]) && Legal(Apply(s, run[0]), run[1..]))
  }

  function After(s: State, run: seq<Action>): State
    requires Legal(s, run)
    decreases |run|
  {
    if run == [] then s else After(Apply(s, run[0]), run[1..])
  }

  lemma {:induction false} RunKeepsInv(s: State, run: seq<Action>)
    requires Inv(s) && Legal(s, run)
    ensures Inv(After(s, run))
    decreases |run|
  {
    if run != [] {
      StepKeepsInv(s, run[0]);
      RunKeepsInv(Apply(s, run[0]), run[1..]);
    }
  }

  lemma QuietStep(s: State, a: Action)
    requires Control(s) && HandedOff(s) && Enabled(s, a)
    ensures var s' := Apply(s, a);
            && HandedOff(s') && s'.canSerialize == s.canSerialize && s'.flushFailures == s.flushFailures
            && (s'.out == s.out || (s.caller.Handed? && s'.caller.Replied? && s'.out == s.out + [Terminal]))
            && (s.caller.Replied? ==> s'.caller.Replied? && s'.out == s.out)
  {
  }

  /** After the handoff nothing but one terminal reply is written, and the verdict of
      StopAndHandoff does not change any more. */
  lemma {:induction false} QuietAfterHandoff(s: State, run: seq<Action>)
    requires Control(s) && HandedOff(s) && Legal(s, run)
    ensures var s' := After(s, run);
            && HandedOff(s') && s'.canSerialize == s.canSerialize && s'.flushFailures == s.flushFailures
            && (s'.out == s.out || (s.caller.Handed? && s'.out == s.out + [Terminal]))
    decreases |run|
  {
    if run != [] {
      StepKeepsControl(s, run[0]);
      QuietStep(s, run[0]);
      QuietAfterHandoff(Apply(s, run[0]), run[1..]);
    }
  }

  lemma {:induction false} RepliedWasAllowed(s: State, run: seq<Action>)
    requires Legal(s, run) && Inv(s) && (s.caller.Replied? ==> s.canSerialize)
    ensures After(s, run).caller.Replied? ==> After(s, run).canSerialize
    decreases |run|
  {
    if run != [] {
      StepKeepsInv(s, run[0]);
      RepliedWasAllowed(Apply(s, run[0]), run[1..]);
    }
  }

  /** In every interleaving: the output is whole heartbeat frames followed by at most one
      terminal reply, StopAndHandoff returns true exactly when no flush has failed, and the
      reply is sent only then. */
  lemma HandoffSafety(run: seq<Action>)
    requires Legal(Fresh(), run)
    ensures After(Fresh(), run).caller.Replied? ==> After(Fresh(), run).flushFailures == 0
    ensures Output(After(Fresh(), run))
    ensures HandedOff(After(Fresh(), run)) ==>
              After(Fresh(), run).canSerialize == (After(Fresh(), run).flushFailures == 0)
  {
    RunKeepsInv(Fresh(), run);
    RepliedWasAllowed(Fresh(), run);
  }

  /** Once StopAndHandoff has returned, no heartbeat byte follows, however the run goes on. */
  lemma NoHeartbeatAfterHandoff(run: seq<Action>, later: seq<Action>)
    requires Legal(Fresh(), run) && Legal(After(Fresh(), run), later) && HandedOff(After(Fresh(), run))
    ensures var s := After(Fresh(), run);
            var s' := After(s, later);
            s'.out == s.out || s'.out == s.out + [Terminal]
  {
    RunKeepsInv(Fresh(), run);
    QuietAfterHandoff(After(Fresh(), run), later);
  }

  // ---------------------------------------------------------------------
  // What an undisturbed party gets done
  // ---------------------------------------------------------------------

  function Steps(a: Action, n: nat): seq<Action>
  {
    if n == 0 then [] else [a] + Steps(a, n - 1)
  }

  lemma Next(s: State, a: Action, n: nat)
    requires n > 0 && Enabled(s, a) && Legal(Apply(s, a), Steps(a, n - 1))
    ensures Legal(s, Steps(a, n)) && After(s, Steps(a, n)) == After(Apply(s, a), Steps(a, n - 1))
  {
    assert Steps(a, n)[1..] == Steps(a, n - 1);
  }

  /** From the loop condition into the frame. */
  lemma RoundStarts(s: State, ok: bool, n: nat)
    requires s.beat.Test? && !s.stop && s.lock.Nobody? && n >= 3
    requires Legal(s.(lock := Beat, beat := OpenFrame), Steps(BeatStep(ok), n - 3))
    ensures Legal(s, Steps(BeatStep(ok), n))
    ensures After(s, Steps(BeatStep(ok), n)) == After(s.(lock := Beat, beat := OpenFrame), Steps(BeatStep(ok), n - 3))
  {
    var a := BeatStep(ok);
    var s1 := Apply(s, a);
    var s2 := Apply(s1, a);
    assert Apply(s2, a) == s.(lock := Beat, beat := OpenFrame);
    Next(s2, a, n - 2);
    Next(s1, a, n - 1);
    Next(s, a, n);
  }

  /** Both halves of the frame. */
  lemma FrameWritten(s: State, ok: bool, n: nat)
    requires s.beat.OpenFrame? && n >= 2
    requires Legal(s.(out := s.out + [FrameOpen] + [FrameClose], beat := Flush), Steps(BeatStep(ok), n - 2))
    ensures Legal(s, Steps(BeatStep(ok), n))
    ensures After(s, Steps(BeatStep(ok), n)) == After(s.(out := s.out + [FrameOpen] + [FrameClose], beat := Flush), Steps(BeatStep(ok), n - 2))
  {
    var a := BeatStep(ok);
    Next(Apply(s, a), a, n - 1);
    Next(s, a, n);
  }

  /** A round of the coroutine that finds no stop flag writes exactly one whole frame, and
      goes back to its loop condition with the lock free. */
  lemma RoundWritesFrame(s: State)
    requires s.beat.Test? && !s.stop && s.lock.Nobody?
    ensures var run := Steps(BeatStep(true), 9);
            Legal(s, run) && After(s, run) == s.(out := s.out + [FrameOpen] + [FrameClose])
  {
    var open := s.(lock := Beat, beat := OpenFrame);
    FlushedRound(open.(out := s.out + [FrameOpen] + [FrameClose], beat := Flush));
    FrameWritten(open, true, 6);
    RoundStarts(s, true, 9);
  }

  lemma FlushedRound(s: State)
    requires s.beat.Flush? && !s.stop
    ensures Legal(s, Steps(BeatStep(true), 4)) && After(s, Steps(BeatStep(true), 4)) == s.(lock := Nobody, beat := Test)
  {
    var a := BeatStep(true);
    var s1 := Apply(s, a);
    var s2 := Apply(s1, a);
    var s3 := Apply(s2, a);
    Next(s3, a, 1);
    Next(s2, a, 2);
    Next(s1, a, 3);
    Next(s, a, 4);
  }

  /** If the flush fails, the round still writes its frame, records the failure, sets the stop
      flag and ends the coroutine. */
  lemma FailedRoundEnds(s: State)
    requires s.beat.Test? && !s.stop && s.lock.Nobody?
    ensures var run := Steps(BeatStep(false), 9);
            && Legal(s, run)
            && After(s, run) == s.(out := s.out + [FrameOpen] + [FrameClose], failed := true, stop := true, beat := Done, flushFailures := s.flushFailures + 1)
  {
    var open := s.(lock := Beat, beat := OpenFrame);
    BrokenRound(open.(out := s.out + [FrameOpen] + [FrameClose], beat := Flush));
    FrameWritten(open, false, 6);
    RoundStarts(s, false, 9);
  }

  lemma BrokenRound(s: State)
    requires s.beat.Flush?
    ensures var run := Steps(BeatStep(false), 4);
            Legal(s, run) && After(s, run) == s.(lock := Nobody, beat := Done, failed := true, stop := true, flushFailures := s.flushFailures + 1)
  {
    var a := BeatStep(false);
    var s1 := Apply(s, a);
    var s2 := Apply(s1, a);
    var s3 := Apply(s2, a);
    Next(s3, a, 1);
    Next(s2, a, 2);
    Next(s1, a, 3);
    Next(s, a, 4);
  }

  /** The timer of a started stream starts the coroutine unless it is already to stop; a
      caller may stop at any time, and after a clean handoff may reply. */
  lemma PartiesStart(s: State)
    ensures s.started && s.timer.Armed? && !s.stop ==> Apply(s, TimerFires).beat.Test?
    ensures s.caller.Working? && s.started ==> Apply(s, CallStop).caller.SetStop?
    ensures s.caller.Working? && !s.started ==> Apply(s, CallStop).caller.Handed? && Apply(s, StartStream).started
    ensures s.caller.Handed? && s.canSerialize ==> Apply(s, SendTerminal) == s.(out := s.out + [Terminal], caller := Replied)
  {
  }

  /** A caller that finds the lock free gets through StopAndHandoff, leaves the output alone
      and learns whether a flush has failed. */
  lemma HandoffReturns(s: State)
    requires s.caller.SetStop? && s.lock.Nobody?
    ensures Legal(s, Steps(CallerStep, 4))
    ensures After(s, Steps(CallerStep, 4)) == s.(stop := true, canSerialize := !s.failed, caller := Handed)
  {
    var a := CallerStep;
    var s1 := Apply(s, a);
    var s2 := Apply(s1, a);
    var s3 := Apply(s2, a);
    Next(s3, a, 1);
    Next(s2, a, 2);
    Next(s1, a, 3);
    Next(s, a, 4);
  }
}
