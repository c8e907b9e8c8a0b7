module TableLock {

  /** The four-mode table lock: shared readers, writers, an exclusive
      "write, allow readers" mode and freeze transitions.

      A reader registers itself first and then waits for writes in flight to finish.
      The wait loop re-reads the write count after it was resumed WITHOUT the internal
      spinlock; suspending a second time would queue and unlock without owning it.  The
      model therefore turns a second suspension into the explicit state `broken`. */

  import opened Wakers

  datatype Table = Table(
    readCount: nat,
    writeCount: nat,
    writeAllowReaders: bool,
    freezeTransition: bool,
    waitR: seq<Waker>,
    epochs: Epochs)

  /** `granted` counts reads that returned true and were not unlocked, `woken` are
      readers resumed but not yet re-checking, `dml` counts the DML share of the
      writes in flight. */
  datatype System = System(t: Table, granted: nat, woken: set<Worker>, dml: nat, broken: bool)

  datatype Action =
    | WaitRead(w: Worker)
    | Recheck(w: Worker)
    | UnlockRead              // by a caller that was granted a read
    | StrayUnlockRead         // by a caller that was not
    | TryWrite
    | TryDmlWrite
    | FinishWrite
    | FinishDmlWrite
    | TryWriteAllowReaders
    | FinishWriteAllowReaders
    | TryFreezeTransition
    | FinishFreezeTransition
    | Elsewhere(w: Worker, epoch: nat)

  function Fresh(): System
  {
    System(Table(0, 0, false, false, [], map[]), 0, {}, 0, false)
  }

  /** Registration half of WaitRead: refused, granted at once, or queued. */
  function Register(t: Table, w: Worker): Table
  {
    if t.writeAllowReaders then t
    else if t.writeCount == 0 then t.(readCount := t.readCount + 1)
    else
      var e := Advance(t.epochs, w);
      t.(readCount := t.readCount + 1, waitR := t.waitR + [Waker(w, EpochOf(e, w))], epochs := e)
  }

  predicate CanWrite(t: Table) { t.readCount == 0 }
  predicate CanDmlWrite(t: Table) { t.readCount == 0 && !t.writeAllowReaders }
  predicate CanWriteAllowReaders(t: Table)
  {
    t.readCount == 0 && t.writeCount == 0 && !t.writeAllowReaders && !t.freezeTransition
  }
  predicate CanFreeze(t: Table) { !t.writeAllowReaders && !t.freezeTransition }

  function WriteDone(t: Table): (Table, seq<Worker>)
    requires t.writeCount >= 1
  {
    if t.writeCount > 1 then (t.(writeCount := t.writeCount - 1), [])
    else
      var n := AfterNotifyAll(t.waitR, t.epochs);
      (t.(writeCount := 0, waitR := n.rest, epochs := n.epochs), n.resumed)
  }

  function ReadDone(t: Table): Table
  {
    if t.readCount == 0 then t else t.(readCount := t.readCount - 1)
  }

  predicate Idle(s: System, w: Worker)
  {
    w !in Queued(s.t.waitR) && w !in s.woken
  }

  predicate Enabled(s: System, a: Action)
  {
    match a
    case WaitRead(w) => Idle(s, w)
    case Recheck(w) => w in s.woken
    case UnlockRead => s.granted > 0
    case StrayUnlockRead => true
    case TryWrite => true
    case TryDmlWrite => true
    case FinishWrite => s.t.writeCount > s.dml
    case FinishDmlWrite => s.dml > 0 && s.t.writeCount >= 1
    case TryWriteAllowReaders => true
    case FinishWriteAllowReaders => s.t.writeAllowReaders
    case TryFreezeTransition => true
    case FinishFreezeTransition => s.t.freezeTransition
    case Elsewhere(w, n) => Idle(s, w) && n >= EpochOf(s.t.epochs, w)
  }

  function EndWrite(s: System): System
    requires s.t.writeCount >= 1
  {
    var (t, resumed) := WriteDone(s.t);
    s.(t := t, woken := s.woken + (set w | w in resumed))
  }

  function Apply(s: System, a: Action): System
    requires Enabled(s, a)
  {
    match a
    case WaitRead(w) =>
      s.(t := Register(s.t, w),
         granted := if !s.t.writeAllowReaders && s.t.writeCount == 0 then s.granted + 1 else s.granted)
    case Recheck(w) =>
      if s.t.writeCount == 0 then s.(woken := s.woken - {w}, granted := s.granted + 1)
      else s.(woken := s.woken - {w}, broken := true)
    case UnlockRead => s.(t := ReadDone(s.t), granted := s.granted - 1)
    case StrayUnlockRead => s.(t := ReadDone(s.t))
    case TryWrite => if CanWrite(s.t) then s.(t := s.t.(writeCount := s.t.writeCount + 1)) else s
    case TryDmlWrite =>
      if CanDmlWrite(s.t) then s.(t := s.t.(writeCount := s.t.writeCount + 1), dml := s.dml + 1) else s
    case FinishWrite => EndWrite(s)
    case FinishDmlWrite => EndWrite(s).(dml := s.dml - 1)
    case TryWriteAllowReaders =>
      if CanWriteAllowReaders(s.t) then s.(t := s.t.(writeAllowReaders := true)) else s
    case FinishWriteAllowReaders => s.(t := s.t.(writeAllowReaders := false))
    case TryFreezeTransition =>
      if CanFreeze(s.t) then s.(t := s.t.(freezeTransition := true)) else s
    case FinishFreezeTransition => s.(t := s.t.(freezeTransition := false))
    case Elsewhere(w, n) => s.(t := s.t.(epochs := s.t.epochs[w := n]))
  }

  // ---------------------------------------------------------------------
  // Safety for balanced unlocking
  // ---------------------------------------------------------------------

  function Readers(s: System): nat { s.granted + |s.t.waitR| + |s.woken| }

  predicate QueueOk(s: System)
  {
    && AllLive(s.t.waitR, s.t.epochs) && DistinctWorkers(s.t.waitR)
    && Queued(s.t.waitR) !! s.woken
  }

  /** Mutual exclusion of the four modes, and readers that never suspend twice. */
  predicate Exclusion(s: System)
  {
    && (s.granted > 0 ==> s.t.writeCount == 0)
    && (s.t.writeAllowReaders ==> s.granted == 0 && s.dml == 0 && !s.t.freezeTransition)
    && (s.t.waitR != [] ==> s.t.writeCount > 0)
    && (s.woken != {} ==> s.t.writeCount == 0)
    && !s.broken
  }

  predicate Counted(s: System)
  {
    s.t.readCount == Readers(s) && s.dml <= s.t.writeCount && (s.t.writeAllowReaders ==> s.t.readCount == 0)
  }

  predicate Inv(s: System)
  {
    QueueOk(s) && Exclusion(s) && Counted(s)
  }

  lemma {:induction false} QueuedCount(q: seq<Waker>)
    requires DistinctWorkers(q)
    ensures |Queued(q)| == |q|
  {
    if q != [] {
      QueuedPop(q);
      QueuedCount(q[1..]);
    }
  }

  /** The last write in flight resumes exactly the queued readers. */
  lemma LastWriteResumes(s: System)
    requires QueueOk(s) && s.t.writeCount == 1
    ensures exists e ::
              EndWrite(s) == s.(t := s.t.(writeCount := 0, waitR := [], epochs := e), woken := s.woken + Queued(s.t.waitR))
  {
    NotifyAllResumesAll(s.t.waitR, s.t.epochs);
    var e := AfterNotifyAll(s.t.waitR, s.t.epochs).epochs;
    assert EndWrite(s) == s.(t := s.t.(writeCount := 0, waitR := [], epochs := e), woken := s.woken + Queued(s.t.waitR));
  }

  lemma EndWriteShape(s: System)
    requires QueueOk(s) && s.t.writeCount >= 1
    ensures var s' := EndWrite(s);
            && s'.t.writeCount == s.t.writeCount - 1 && QueueOk(s') && Readers(s') == Readers(s)
            && s'.granted == s.granted && s'.dml == s.dml && s'.broken == s.broken
            && s'.t.readCount == s.t.readCount && s'.t.writeAllowReaders == s.t.writeAllowReaders
            && s'.t.freezeTransition == s.t.freezeTransition
            && (s'.t.writeCount == 0 ==> s'.t.waitR == [] && s'.woken == s.woken + Queued(s.t.waitR))
            && (s'.t.writeCount > 0 ==> s'.t.waitR == s.t.waitR && s'.woken == s.woken)
  {
    if s.t.writeCount == 1 {
      LastWriteResumes(s);
      QueuedCount(s.t.waitR);
    }
  }

  lemma RegisterKeepsQueue(s: System, w: Worker)
    requires QueueOk(s) && Idle(s, w)
    ensures var s' := Apply(s, WaitRead(w));
            QueueOk(s') && Readers(s') == Readers(s) + (if s.t.writeAllowReaders then 0 else 1)
  {
    if !s.t.writeAllowReaders && s.t.writeCount > 0 {
      QueuedAppend(s.t.waitR, Apply(s, WaitRead(w)).t.waitR[|s.t.waitR|]);
      assert forall k | k in s.t.waitR :: k.ctx in Queued(s.t.waitR);
    }
  }

  lemma StepKeepsInv(s: System, a: Action)
    requires Inv(s) && Enabled(s, a) && a != StrayUnlockRead
    ensures Inv(Apply(s, a))
  {
    match a
    case WaitRead(w) => RegisterKeepsQueue(s, w);
    case Recheck(w) => assert |s.woken - {w}| == |s.woken| - 1;
    case FinishWrite => EndWriteShape(s);
    case FinishDmlWrite => EndWriteShape(s);
    case Elsewhere(w, n) => assert forall k | k in s.t.waitR :: k.ctx in Queued(s.t.waitR);
    case _ =>
  }

  /** While a read is registered no write can start. */
  lemma WritesCannotRise(s: System, a: Action)
    requires Inv(s) && Enabled(s, a) && s.t.readCount > 0
    ensures Apply(s, a).t.writeCount <= s.t.writeCount
  {
    if a.FinishWrite? || a.FinishDmlWrite? {
      EndWriteShape(s);
    }
  }

  // ---------------------------------------------------------------------
  // Who is let in
  // ---------------------------------------------------------------------

  /** Everything may be tried at any time, and whatever was started may be finished. */
  lemma AlwaysOpen(s: System, w: Worker)
    requires Inv(s)
    ensures Enabled(s, TryWrite) && Enabled(s, TryDmlWrite) && Enabled(s, TryWriteAllowReaders) && Enabled(s, TryFreezeTransition)
    ensures (Idle(s, w) ==> Enabled(s, WaitRead(w))) && (w in s.woken ==> Enabled(s, Recheck(w)))
    ensures (s.granted > 0 ==> Enabled(s, UnlockRead)) && (s.t.writeCount > s.dml ==> Enabled(s, FinishWrite)) && (s.dml > 0 ==> Enabled(s, FinishDmlWrite))
    ensures s.t.writeAllowReaders ==> Apply(s, FinishWriteAllowReaders) == s.(t := s.t.(writeAllowReaders := false))
    ensures s.t.freezeTransition ==> Apply(s, FinishFreezeTransition) == s.(t := s.t.(freezeTransition := false))
  {
  }

  /** A write starts exactly if no reader is in, queued or on its way back. */
  lemma WriteAdmission(s: System)
    requires Inv(s)
    ensures Apply(s, TryWrite) == if Readers(s) == 0 then s.(t := s.t.(writeCount := s.t.writeCount + 1)) else s
    ensures Apply(s, TryDmlWrite) ==
            if Readers(s) == 0 && !s.t.writeAllowReaders then s.(t := s.t.(writeCount := s.t.writeCount + 1), dml := s.dml + 1) else s
  {
  }

  /** Write-allow-readers starts exactly in a table without readers, writes, another such
      write and a freeze transition; a freeze transition starts exactly without those two. */
  lemma ExclusiveAdmission(s: System)
    requires Inv(s)
    ensures Apply(s, TryWriteAllowReaders) ==
            if Readers(s) == 0 && s.t.writeCount == 0 && !s.t.writeAllowReaders && !s.t.freezeTransition
            then s.(t := s.t.(writeAllowReaders := true)) else s
    ensures Apply(s, TryFreezeTransition) ==
            if s.t.writeAllowReaders || s.t.freezeTransition then s else s.(t := s.t.(freezeTransition := true))
  {
  }

  /** A reader is refused exactly during write-allow-readers, is granted at once exactly if no
      write is in flight, and otherwise waits at the end of the queue for the last of them. */
  lemma ReadAdmission(s: System, w: Worker)
    requires Inv(s) && Enabled(s, WaitRead(w))
    ensures var s' := Apply(s, WaitRead(w));
            if s.t.writeAllowReaders then s' == s
            else if s.t.writeCount == 0 then s'.granted == s.granted + 1 && s'.t == s.t.(readCount := s.t.readCount + 1)
            else
              && s'.granted == s.granted && s'.t.readCount == s.t.readCount + 1 && s'.t.writeCount == s.t.writeCount
              && |s'.t.waitR| == |s.t.waitR| + 1 && s'.t.waitR[..|s.t.waitR|] == s.t.waitR && s'.t.waitR[|s.t.waitR|].ctx == w
  {
  }

  /** A resumed reader is granted; an unlock gives exactly one grant back. */
  lemma ReadReturns(s: System, w: Worker)
    requires Inv(s)
    ensures w in s.woken ==> Apply(s, Recheck(w)) == s.(woken := s.woken - {w}, granted := s.granted + 1)
    ensures s.granted > 0 ==> Apply(s, UnlockRead) == s.(granted := s.granted - 1, t := s.t.(readCount := Readers(s) - 1))
  {
  }

  predicate Legal(s: System, run: seq<Action>)
    decreases |run|
  {
    run == [] || (Enabled(s, run[0]) && Legal(Apply(s, run[0]), run[1..]))
  }

  function After(s: System, run: seq<Action>): System
    requires Legal(s, run)
    decreases |run|
  {
    if run == [] then s else After(Apply(s, run[0]), run[1..])
  }

  predicate Balanced(run: seq<Action>)
  {
    StrayUnlockRead !in run
  }

  lemma {:induction false} RunKeepsInv(s: System, run: seq<Action>)
    requires Inv(s) && Legal(s, run) && Balanced(run)
    ensures Inv(After(s, run))
    decreases |run|
  {
    if run != [] {
      assert run[0] in run;
      StepKeepsInv(s, run[0]);
      RunKeepsInv(Apply(s, run[0]), run[1..]);
    }
  }

  /** Every reachable state of balanced use excludes the modes from each other, and no
      reader's wait loop ever suspends a second time. */
  lemma TableLockSafety(run: seq<Action>)
    requires Legal(Fresh(), run) && Balanced(run)
    ensures Exclusion(After(Fresh(), run))
  {
    RunKeepsInv(Fresh(), run);
  }

  // ---------------------------------------------------------------------
  // Unbalanced unlocking: exactly when it is harmless
  // ---------------------------------------------------------------------

  /** A granted reader next to a write in flight, or a second suspension. */
  predicate Violated(s: System)
  {
    (s.granted > 0 && s.t.writeCount > 0) || s.broken
  }

  ghost predicate CanViolate(s: System)
  {
    exists run :: Legal(s, run) && Balanced(run) && Violated(After(s, run))
  }

  lemma ViolateLater(s: System, a: Action)
    requires Enabled(s, a) && a != StrayUnlockRead && CanViolate(Apply(s, a))
    ensures CanViolate(s)
  {
    var run :| Legal(Apply(s, a), run) && Balanced(run) && Violated(After(Apply(s, a), run));
    assert ([a] + run)[1..] == run;
    assert Legal(s, [a] + run) && After(s, [a] + run) == After(Apply(s, a), run);
  }

  lemma ViolatedNow(s: System)
    requires Violated(s)
    ensures CanViolate(s)
  {
    assert Legal(s, []) && After(s, []) == s;
  }

  /** With more readers than the counter knows of, balanced calls alone lead to a write
      in flight next to a granted reader: let the writes finish, let the readers in,
      unlock until the counter is zero, and start a write. */
  lemma DeficitCanViolate(s: System)
    requires QueueOk(s) && s.t.readCount < Readers(s) && s.dml <= s.t.writeCount
    requires s.t.waitR != [] ==> s.t.writeCount > 0
    ensures CanViolate(s)
    decreases s.t.writeCount, |s.woken|, s.t.readCount
  {
    if Violated(s) {
      ViolatedNow(s);
    } else if s.t.writeCount > 0 {
      EndWriteShape(s);
      var a := if s.t.writeCount > s.dml then FinishWrite else FinishDmlWrite;
      DeficitCanViolate(Apply(s, a));
      ViolateLater(s, a);
    } else if w :| w in s.woken {
      assert |s.woken - {w}| == |s.woken| - 1;
      DeficitCanViolate(Apply(s, Recheck(w)));
      ViolateLater(s, Recheck(w));
    } else if s.t.readCount > 0 {
      DeficitCanViolate(Apply(s, UnlockRead));
      ViolateLater(s, UnlockRead);
    } else {
      ViolatedNow(Apply(s, TryWrite));
      ViolateLater(s, TryWrite);
    }
  }

  lemma SafeStaysSafe(s: System)
    requires Inv(s)
    ensures !CanViolate(s)
  {
    forall run | Legal(s, run) && Balanced(run) ensures !Violated(After(s, run))
    {
      RunKeepsInv(s, run);
    }
  }

  /** UnlockRead by a caller without a grant (the unfreeze command does this) is harmless
      for the rest of the run if and only if no read is registered at that moment. */
  lemma StrayUnlockIff(s: System)
    requires Inv(s)
    ensures CanViolate(Apply(s, StrayUnlockRead)) <==> s.t.readCount > 0
  {
    if s.t.readCount > 0 {
      DeficitCanViolate(Apply(s, StrayUnlockRead));
    } else {
      SafeStaysSafe(s);
    }
  }

  // ---------------------------------------------------------------------
  // The lock object
  // ---------------------------------------------------------------------

  class ReadTableLock {
    var readCount: nat
    var writeCount: nat
    var writeAllowReaders: bool
    var freezeTransition: bool
    const waitR: WaitQueue
    const pool: Pool

    ghost function View(): Table
      reads this, waitR, pool
    {
      Table(readCount, writeCount, writeAllowReaders, freezeTransition, waitR.slist, pool.epochs)
    }

    constructor (pool: Pool)
      ensures this.pool == pool && fresh(waitR) && View() == Fresh().t.(epochs := pool.epochs)
    {
      readCount, writeCount, writeAllowReaders, freezeTransition := 0, 0, false, false;
      waitR := new WaitQueue();
      this.pool := pool;
    }

    /** WaitRead up to its first suspension: refused, granted, or queued. */
    method RegisterRead(w: Worker) returns (refused: bool, queued: bool)
      modifies this, waitR, pool
      ensures View() == Register(old(View()), w)
      ensures refused == old(writeAllowReaders) && queued == (!refused && old(writeCount) > 0)
    {
      if writeAllowReaders {
        return true, false;
      }
      readCount := readCount + 1;
      if writeCount != 0 {
        waitR.Enqueue(pool, w);
        return false, true;
      }
      return false, false;
    }

    method TryWrite() returns (ok: bool)
      modifies this
      ensures ok == CanWrite(old(View())) && (ok <==> old(readCount) == 0)
      ensures View() == if ok then old(View()).(writeCount := old(writeCount) + 1) else old(View())
    {
      if readCount != 0 {
        return false;
      }
      writeCount := writeCount + 1;
      return true;
    }

    method TryDmlWrite() returns (ok: bool)
      modifies this
      ensures ok == CanDmlWrite(old(View())) && (ok <==> old(readCount) == 0 && !old(writeAllowReaders))
      ensures View() == if ok then old(View()).(writeCount := old(writeCount) + 1) else old(View())
    {
      if readCount != 0 || writeAllowReaders {
        return false;
      }
      writeCount := writeCount + 1;
      return true;
    }

    method TryWriteAllowReaders() returns (ok: bool)
      modifies this
      ensures ok == CanWriteAllowReaders(old(View()))
      ensures ok <==> old(readCount) == 0 && old(writeCount) == 0 && !old(writeAllowReaders) && !old(freezeTransition)
      ensures View() == if ok then old(View()).(writeAllowReaders := true) else old(View())
    {
      if readCount != 0 || writeCount != 0 || writeAllowReaders || freezeTransition {
        return false;
      }
      writeAllowReaders := true;
      return true;
    }

    method TryFreezeTransition() returns (ok: bool)
      modifies this
      ensures ok == CanFreeze(old(View())) && (ok <==> !old(writeAllowReaders) && !old(freezeTransition))
      ensures View() == if ok then old(View()).(freezeTransition := true) else old(View())
    {
      if writeAllowReaders || freezeTransition {
        return false;
      }
      freezeTransition := true;
      return true;
    }

    method FinishWrite()
      requires writeCount >= 1
      modifies this, waitR, pool
      ensures View() == WriteDone(old(View())).0
      ensures pool.restarted == old(pool.restarted) + WriteDone(old(View())).1
    {
      writeCount := writeCount - 1;
      if writeCount == 0 {
        waitR.NotifyAll(pool);
      }
    }

    method UnlockRead() returns (ok: bool)
      modifies this
      ensures ok == (old(readCount) > 0) && View() == ReadDone(old(View()))
    {
      if readCount == 0 {
        return false;
      }
      readCount := readCount - 1;
      return true;
    }
  }
}
