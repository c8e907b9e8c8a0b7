module ReadWriteLock {

  /** The coroutine shared mutex: one lock word, a queue of readers, a queue of writers.

      Every loop pass of ReadLock and WriteLock and the whole of Unlock run under the
      internal spinlock, so each is one step.  A pass that does not get the lock queues
      a waker and suspends; the spinlock is released only after the worker is parked. */

  import opened Wakers

  const DWORD_SPAN: nat := 0x1_0000_0000
  const MAX_READERS: nat := 0x7FFF_FFFF

  /** The fields of the lock, together with the epoch counters its wakers refer to. */
  datatype Lock = Lock(word: nat, waitR: seq<Waker>, waitW: seq<Waker>, epochs: Epochs)

  function QueueReader(l: Lock, w: Worker): Lock
  {
    var e := Advance(l.epochs, w);
    l.(waitR := l.waitR + [Waker(w, EpochOf(e, w))], epochs := e)
  }

  function QueueWriter(l: Lock, w: Worker): Lock
  {
    var e := Advance(l.epochs, w);
    l.(waitW := l.waitW + [Waker(w, EpochOf(e, w))], epochs := e)
  }

  predicate ReadGranted(l: Lock)
  {
    l.word % 2 == 0 && l.waitW == []
  }

  predicate WriteGranted(l: Lock)
  {
    l.word == 0
  }

  /** One pass of the ReadLock loop. */
  function ReadPass(l: Lock, w: Worker): Lock
  {
    if ReadGranted(l) then l.(word := (l.word + 2) % DWORD_SPAN) else QueueReader(l, w)
  }

  /** One pass of the WriteLock loop. */
  function WritePass(l: Lock, w: Worker): Lock
  {
    if WriteGranted(l) then l.(word := 1) else QueueWriter(l, w)
  }

  function WordAfterUnlock(word: nat): nat
    requires word >= 1
  {
    if word == 1 then 0 else word - 2
  }

  /** Unlock, with the workers it resumes. */
  function UnlockPass(l: Lock): (Lock, seq<Worker>)
    requires l.word >= 1
  {
    var word := WordAfterUnlock(l.word);
    if word != 0 then (l.(word := word), [])
    else if l.waitW != [] then
      var n := AfterNotifyOne(l.waitW, l.epochs);
      (l.(word := 0, waitW := n.rest, epochs := n.epochs), n.resumed)
    else
      var n := AfterNotifyAll(l.waitR, l.epochs);
      (l.(word := 0, waitR := n.rest, epochs := n.epochs), n.resumed)
  }

  // ---------------------------------------------------------------------
  // The lock and all of its clients
  // ---------------------------------------------------------------------

  /** Who holds the lock how often, and who was resumed but has not tried again yet. */
  datatype System = System(
    lock: Lock,
    readers: multiset<Worker>,
    writers: multiset<Worker>,
    wokenR: set<Worker>,
    wokenW: set<Worker>)

  datatype Action =
    | CallRead(w: Worker)
    | CallWrite(w: Worker)
    | RetryRead(w: Worker)
    | RetryWrite(w: Worker)
    | UnlockRead(w: Worker)
    | UnlockWrite(w: Worker)
    | Elsewhere(w: Worker, epoch: nat)   // a worker not waiting here uses wakers of other objects

  function Fresh(): System
  {
    System(Lock(0, [], [], map[]), multiset{}, multiset{}, {}, {})
  }

  predicate Parked(s: System, w: Worker)
  {
    w in Queued(s.lock.waitR) || w in Queued(s.lock.waitW)
  }

  predicate Idle(s: System, w: Worker)
  {
    !Parked(s, w) && w !in s.wokenR && w !in s.wokenW
  }

  /** The code asserts that the reader count never reaches the all-ones pattern. */
  predicate CountFits(l: Lock)
  {
    ReadGranted(l) ==> (l.word + 2) / 2 != MAX_READERS
  }

  predicate Enabled(s: System, a: Action)
  {
    match a
    case CallRead(w) => Idle(s, w) && CountFits(s.lock)
    case CallWrite(w) => Idle(s, w)
    case RetryRead(w) => w in s.wokenR && CountFits(s.lock)
    case RetryWrite(w) => w in s.wokenW
    case UnlockRead(w) => Idle(s, w) && w in s.readers && s.lock.word >= 1
    case UnlockWrite(w) => Idle(s, w) && w in s.writers && s.lock.word >= 1
    case Elsewhere(w, n) => Idle(s, w) && n >= EpochOf(s.lock.epochs, w)
  }

  function TryRead(s: System, w: Worker): System
  {
    var s' := s.(lock := ReadPass(s.lock, w), wokenR := s.wokenR - {w});
    if ReadGranted(s.lock) then s'.(readers := s.readers + multiset{w}) else s'
  }

  function TryWrite(s: System, w: Worker): System
  {
    var s' := s.(lock := WritePass(s.lock, w), wokenW := s.wokenW - {w});
    if WriteGranted(s.lock) then s'.(writers := s.writers + multiset{w}) else s'
  }

  function Release(s: System): System
    requires s.lock.word >= 1
  {
    var (l, resumed) := UnlockPass(s.lock);
    var back := set w | w in resumed;
    if WordAfterUnlock(s.lock.word) != 0 then s.(lock := l)
    else if s.lock.waitW != [] then s.(lock := l, wokenW := s.wokenW + back)
    else s.(lock := l, wokenR := s.wokenR + back)
  }

  function Apply(s: System, a: Action): System
    requires Enabled(s, a)
  {
    match a
    case CallRead(w) => TryRead(s, w)
    case CallWrite(w) => TryWrite(s, w)
    case RetryRead(w) => TryRead(s, w)
    case RetryWrite(w) => TryWrite(s, w)
    case UnlockRead(w) => Release(s.(readers := s.readers - multiset{w}))
    case UnlockWrite(w) => Release(s.(writers := s.writers - multiset{w}))
    case Elsewhere(w, n) => s.(lock := s.lock.(epochs := s.lock.epochs[w := n]))
  }

  /** The word tells exactly who holds the lock. */
  predicate WordExact(s: System)
  {
    && (s.lock.word == 1 <==> |s.writers| == 1 && |s.readers| == 0)
    && (s.lock.word % 2 == 0 <==> |s.writers| == 0)
    && (|s.writers| == 0 ==> s.lock.word == 2 * |s.readers|)
    && |s.writers| <= 1 && |s.readers| < MAX_READERS
  }

  predicate WordOk(s: System)
  {
    && |s.readers| < MAX_READERS
    && if |s.writers| == 0 then s.lock.word == 2 * |s.readers|
       else |s.writers| == 1 && |s.readers| == 0 && s.lock.word == 1
  }

  predicate QueuesOk(s: System)
  {
    && AllLive(s.lock.waitR, s.lock.epochs) && AllLive(s.lock.waitW, s.lock.epochs)
    && DistinctWorkers(s.lock.waitR) && DistinctWorkers(s.lock.waitW)
    && Queued(s.lock.waitR) !! Queued(s.lock.waitW)
    && (forall w <- s.wokenR :: !Parked(s, w) && w !in s.wokenW)
    && (forall w <- s.wokenW :: !Parked(s, w))
  }

  /** A free lock somebody waits for has a resumed writer that will come back. */
  predicate NobodyStranded(s: System)
  {
    s.lock.word == 0 && (s.lock.waitR != [] || s.lock.waitW != []) ==> s.wokenW != {}
  }

  predicate Inv(s: System)
  {
    WordOk(s) && QueuesOk(s) && NobodyStranded(s)
  }

  lemma TryReadKeepsInv(s: System, w: Worker)
    requires Inv(s) && CountFits(s.lock) && !Parked(s, w) && w !in s.wokenW
    ensures Inv(TryRead(s, w))
  {
    var s' := TryRead(s, w);
    if !ReadGranted(s.lock) {
      QueuedAppend(s.lock.waitR, s'.lock.waitR[|s.lock.waitR|]);
    }
  }

  lemma TryWriteKeepsInv(s: System, w: Worker)
    requires Inv(s) && !Parked(s, w) && w !in s.wokenR
    ensures Inv(TryWrite(s, w))
  {
    var s' := TryWrite(s, w);
    if !WriteGranted(s.lock) {
      QueuedAppend(s.lock.waitW, s'.lock.waitW[|s.lock.waitW|]);
    }
  }

  /** What Unlock does to queues of live wakers: hand over to the oldest writer, or
      else to every reader. */
  lemma ReleaseShape(s: System)
    requires QueuesOk(s) && s.lock.word >= 1 && WordAfterUnlock(s.lock.word) == 0
    ensures var s' := Release(s);
            if s.lock.waitW != [] then
              && s'.lock.waitW == s.lock.waitW[1..] && s'.lock.waitR == s.lock.waitR
              && s'.lock.epochs == Advance(s.lock.epochs, s.lock.waitW[0].ctx)
              && s'.wokenW == s.wokenW + {s.lock.waitW[0].ctx} && s'.wokenR == s.wokenR
            else
              && s'.lock.waitW == [] && s'.lock.waitR == []
              && s'.wokenR == s.wokenR + Queued(s.lock.waitR) && s'.wokenW == s.wokenW
  {
    if s.lock.waitW == [] {
      NotifyAllResumesAll(s.lock.waitR, s.lock.epochs);
    }
  }

  lemma ReleaseKeepsQueues(s: System)
    requires QueuesOk(s) && s.lock.word >= 1
    ensures QueuesOk(Release(s))
  {
    if WordAfterUnlock(s.lock.word) == 0 {
      ReleaseShape(s);
      if s.lock.waitW != [] {
        QueuedPop(s.lock.waitW);
        var top := s.lock.waitW[0].ctx;
        assert forall k | k in s.lock.waitR :: k.ctx in Queued(s.lock.waitR);
      }
    }
  }

  lemma ReleaseKeepsInv(s: System)
    requires QueuesOk(s) && s.lock.word >= 1 && |s.readers| < MAX_READERS
    requires WordOk(s.(lock := s.lock.(word := WordAfterUnlock(s.lock.word))))
    ensures Inv(Release(s))
  {
    ReleaseKeepsQueues(s);
    if WordAfterUnlock(s.lock.word) == 0 {
      ReleaseShape(s);
      if s.lock.waitW != [] {
        assert s.lock.waitW[0].ctx in Release(s).wokenW;
      }
    }
  }

  lemma ElsewhereKeepsInv(s: System, w: Worker, n: nat)
    requires Inv(s) && Idle(s, w)
    ensures Inv(s.(lock := s.lock.(epochs := s.lock.epochs[w := n])))
  {
    assert forall k | k in s.lock.waitR :: k.ctx in Queued(s.lock.waitR);
    assert forall k | k in s.lock.waitW :: k.ctx in Queued(s.lock.waitW);
  }

  lemma StepKeepsInv(s: System, a: Action)
    requires Inv(s) && Enabled(s, a)
    ensures Inv(Apply(s, a))
  {
    match a
    case CallRead(w) => TryReadKeepsInv(s, w);
    case CallWrite(w) => TryWriteKeepsInv(s, w);
    case RetryRead(w) => TryReadKeepsInv(s, w);
    case RetryWrite(w) => TryWriteKeepsInv(s, w);
    case UnlockRead(w) =>
      var t := s.(readers := s.readers - multiset{w});
      assert |t.readers| == |s.readers| - 1;
      ReleaseKeepsInv(t);
    case UnlockWrite(w) =>
      var t := s.(writers := s.writers - multiset{w});
      assert |t.writers| == |s.writers| - 1;
      ReleaseKeepsInv(t);
    case Elsewhere(w, n) =>
      ElsewhereKeepsInv(s, w, n);
  }

  predicate Legal(s: System, run: seq<Action>)
    decreases |run|
  {
    run == [] || (Enabled(s, run[0]) && Legal(Apply(s, run[0]), run[1..]))
  }

  function After(s: System, run: seq<Action>): System
    requires Legal(s, run)
    decreases |run|
  {
    if run == [] then s else After(Apply(s, run[0]), run[1..])
  }

  lemma {:induction false} RunKeepsInv(s: System, run: seq<Action>)
    requires Inv(s) && Legal(s, run)
    ensures Inv(After(s, run))
    decreases |run|
  {
    if run != [] {
      StepKeepsInv(s, run[0]);
      RunKeepsInv(Apply(s, run[0]), run[1..]);
    }
  }

  /** Safety over every interleaving of balanced calls: the word is 1 exactly when one
      writer and no reader holds the lock, it is 2n exactly when n readers and no writer
      do, and a free lock with waiters has a resumed writer about to retry. */
  lemma LockSafety(run: seq<Action>)
    requires Legal(Fresh(), run)
    ensures WordExact(After(Fresh(), run)) && NobodyStranded(After(Fresh(), run))
  {
    RunKeepsInv(Fresh(), run);
  }

  // ---------------------------------------------------------------------
  // Who is let in
  // ---------------------------------------------------------------------

  /** Everything but one worker's own place is as before. */
  predicate LastInLine(q: seq<Waker>, q': seq<Waker>, w: Worker)
  {
    |q'| == |q| + 1 && q' == q + [q'[|q|]] && q'[|q|].ctx == w
  }

  /** A reader is let in exactly if no writer holds the lock or waits for it, next to any
      number of readers; otherwise it is queued behind the other readers. */
  lemma ReadAdmission(s: System, w: Worker)
    requires Inv(s)
    ensures var s' := TryRead(s, w);
            && s'.writers == s.writers && s'.lock.waitW == s.lock.waitW && s'.wokenW == s.wokenW && s'.wokenR == s.wokenR - {w}
            && if |s.writers| == 0 && s.lock.waitW == [] then
                 s'.readers == s.readers + multiset{w} && s'.lock.waitR == s.lock.waitR && s'.lock.epochs == s.lock.epochs
               else
                 s'.readers == s.readers && LastInLine(s.lock.waitR, s'.lock.waitR, w)
  {
  }

  /** A writer is let in exactly if nobody holds the lock; otherwise it is queued behind the
      other writers. */
  lemma WriteAdmission(s: System, w: Worker)
    requires Inv(s)
    ensures var s' := TryWrite(s, w);
            && s'.readers == s.readers && s'.lock.waitR == s.lock.waitR && s'.wokenR == s.wokenR && s'.wokenW == s.wokenW - {w}
            && if s.readers == multiset{} && s.writers == multiset{} then
                 s'.writers == multiset{w} && s'.lock.waitW == s.lock.waitW && s'.lock.epochs == s.lock.epochs
               else
                 s'.writers == s.writers && LastInLine(s.lock.waitW, s'.lock.waitW, w)
  {
    assert |s.readers| == 0 <==> s.readers == multiset{};
    assert |s.writers| == 0 <==> s.writers == multiset{};
  }

  lemma OneLess(holders: multiset<Worker>, w: Worker)
    requires w in holders
    ensures (holders - multiset{w}) + multiset{w} == holders && |holders - multiset{w}| == |holders| - 1
    ensures |holders - multiset{w}| == 0 <==> holders - multiset{w} == multiset{}
  {
  }

  /** A read unlock takes exactly one hold away; while holds are left nobody is resumed. */
  lemma UnlockTakesOne(s: System, w: Worker)
    requires Inv(s) && Enabled(s, UnlockRead(w))
    ensures var s' := Apply(s, UnlockRead(w));
            && s'.readers + multiset{w} == s.readers && s'.writers == s.writers
            && (s'.readers != multiset{} ==> s'.wokenR == s.wokenR && s'.wokenW == s.wokenW && s'.lock == s.lock.(word := 2 * |s'.readers|))
  {
    OneLess(s.readers, w);
  }

  /** A write unlock takes the only hold away. */
  lemma WriterLeaves(s: System, w: Worker)
    requires Inv(s) && Enabled(s, UnlockWrite(w))
    ensures var s' := Apply(s, UnlockWrite(w)); s'.readers == s.readers == multiset{} && s.writers == multiset{w} && s'.writers == multiset{}
  {
    OneLess(s.writers, w);
    assert |s.readers| == 0 ==> s.readers == multiset{};
  }

  /** Calls and retries are these two passes; a use of wakers elsewhere moves nobody. */
  lemma PassesAreCalls(s: System, w: Worker, n: nat)
    requires Inv(s)
    ensures (Enabled(s, CallRead(w)) ==> Apply(s, CallRead(w)) == TryRead(s, w)) && (Enabled(s, RetryRead(w)) ==> Apply(s, RetryRead(w)) == TryRead(s, w))
    ensures (Enabled(s, CallWrite(w)) ==> Apply(s, CallWrite(w)) == TryWrite(s, w)) && (Enabled(s, RetryWrite(w)) ==> Apply(s, RetryWrite(w)) == TryWrite(s, w))
    ensures Enabled(s, Elsewhere(w, n)) ==> Apply(s, Elsewhere(w, n)) == s.(lock := s.lock.(epochs := s.lock.epochs[w := n]))
  {
  }

  /** Every worker that is not waiting here may call, every holder may unlock, and every
      resumed worker may retry. */
  lemma AlwaysOpen(s: System, w: Worker)
    requires Inv(s)
    ensures Idle(s, w) ==> Enabled(s, CallWrite(w)) && (|s.readers| + 1 < MAX_READERS ==> Enabled(s, CallRead(w)))
    ensures Idle(s, w) && w in s.readers ==> Enabled(s, UnlockRead(w))
    ensures Idle(s, w) && w in s.writers ==> Enabled(s, UnlockWrite(w))
    ensures w in s.wokenW ==> Enabled(s, RetryWrite(w))
    ensures w in s.wokenR && |s.readers| + 1 < MAX_READERS ==> Enabled(s, RetryRead(w))
  {
    if w in s.readers {
      assert s.readers == (s.readers - multiset{w}) + multiset{w};
    }
    if w in s.writers {
      assert s.writers == (s.writers - multiset{w}) + multiset{w};
    }
  }

  function ReadCalls(ws: seq<Worker>): seq<Action>
  {
    if ws == [] then [] else [CallRead(ws[0])] + ReadCalls(ws[1..])
  }

  /** Readers share: as long as no writer holds or waits, every reader that calls is let in,
      however many there are. */
  lemma {:induction false} ReadersShare(s: System, ws: seq<Worker>)
    requires Inv(s) && s.writers == multiset{} && s.lock.waitW == [] && |s.readers| + |ws| + 1 < MAX_READERS
    requires forall w <- ws :: Idle(s, w)
    ensures Legal(s, ReadCalls(ws)) && After(s, ReadCalls(ws)).readers == s.readers + multiset(ws)
    ensures After(s, ReadCalls(ws)).lock.waitR == s.lock.waitR
    decreases |ws|
  {
    if ws != [] {
      var a, rest := CallRead(ws[0]), ReadCalls(ws[1..]);
      assert ReadCalls(ws)[1..] == rest;
      ReadAdmission(s, ws[0]);
      StepKeepsInv(s, a);
      assert forall w <- ws[1..] :: w in ws;
      ReadersShare(Apply(s, a), ws[1..]);
      assert ws == [ws[0]] + ws[1..];
    }
  }

  // ---------------------------------------------------------------------
  // Progress: without new calls every schedule serves all waiters
  // ---------------------------------------------------------------------

  predicate Draining(a: Action)
  {
    a.RetryRead? || a.RetryWrite? || a.UnlockRead? || a.UnlockWrite?
  }

  function Woken(s: System): nat { |s.wokenR| + |s.wokenW| }

  function Waiting(s: System): nat { |s.lock.waitR| + |s.lock.waitW| + Woken(s) }

  /** Work still owed: an acquisition and a release for every waiter, a release for
      every holder. */
  function Owed(s: System): nat { 2 * Waiting(s) + |s.readers| + |s.writers| }

  lemma {:induction false} QueuedSize(q: seq<Waker>)
    ensures |Queued(q)| <= |q|
  {
    if q != [] {
      QueuedSize(q[1..]);
      assert q == [q[0]] + q[1..];
      assert Queued(q) == {q[0].ctx} + Queued(q[1..]);
    }
  }

  lemma ReleaseWaiting(s: System)
    requires QueuesOk(s) && s.lock.word >= 1
    ensures Waiting(Release(s)) <= Waiting(s)
  {
    if WordAfterUnlock(s.lock.word) == 0 {
      ReleaseShape(s);
      QueuedSize(s.lock.waitR);
    }
  }

  predicate Pays(s: System, s': System)
  {
    && Waiting(s') <= Waiting(s)
    && (Owed(s') < Owed(s) || (Owed(s') == Owed(s) && Woken(s') < Woken(s)))
  }

  lemma RetryPays(s: System, w: Worker)
    ensures w in s.wokenR ==> Pays(s, TryRead(s, w))
    ensures w in s.wokenW ==> Pays(s, TryWrite(s, w))
  {
    assert w in s.wokenR ==> |s.wokenR - {w}| == |s.wokenR| - 1;
    assert w in s.wokenW ==> |s.wokenW - {w}| == |s.wokenW| - 1;
    assert |s.readers + multiset{w}| == |s.readers| + 1;
    assert |s.writers + multiset{w}| == |s.writers| + 1;
  }

  lemma UnlockPays(s: System, t: System)
    requires QueuesOk(t) && t.lock.word >= 1
    requires t.lock == s.lock && t.wokenR == s.wokenR && t.wokenW == s.wokenW
    requires |t.readers| + |t.writers| < |s.readers| + |s.writers|
    ensures Pays(s, Release(t))
  {
    ReleaseWaiting(t);
  }

  /** Each draining step either pays off owed work or parks one resumed worker. */
  lemma DrainStep(s: System, a: Action)
    requires Inv(s) && Enabled(s, a) && Draining(a)
    ensures Pays(s, Apply(s, a))
  {
    match a
    case RetryRead(w) => RetryPays(s, w);
    case RetryWrite(w) => RetryPays(s, w);
    case UnlockRead(w) =>
      assert |s.readers - multiset{w}| == |s.readers| - 1;
      UnlockPays(s, s.(readers := s.readers - multiset{w}));
    case UnlockWrite(w) =>
      assert |s.writers - multiset{w}| == |s.writers| - 1;
      UnlockPays(s, s.(writers := s.writers - multiset{w}));
  }

  function Potential(s: System, cap: nat): nat { Owed(s) * (cap + 1) + Woken(s) }

  lemma PotentialDrops(s: System, a: Action, cap: nat)
    requires Inv(s) && Enabled(s, a) && Draining(a) && Waiting(s) <= cap
    ensures Potential(Apply(s, a), cap) < Potential(s, cap)
  {
    DrainStep(s, a);
    var s' := Apply(s, a);
    if Owed(s') < Owed(s) {
      Weighted(Owed(s'), Owed(s), cap);
    }
  }

  /** No schedule of retries and unlocks can go on forever. */
  lemma {:induction false} DrainIsBounded(s: System, run: seq<Action>, cap: nat)
    requires Inv(s) && Legal(s, run) && (forall a <- run :: Draining(a)) && Waiting(s) <= cap
    ensures |run| + Potential(After(s, run), cap) <= Potential(s, cap)
    decreases |run|
  {
    if run != [] {
      assert run[0] in run;
      PotentialDrops(s, run[0], cap);
      DrainStep(s, run[0]);
      StepKeepsInv(s, run[0]);
      DrainIsBounded(Apply(s, run[0]), run[1..], cap);
    }
  }

  /** Nothing can be lost on the way: a state in which no resumed worker can retry and
      no holder can unlock is one in which nobody waits and nobody holds the lock,
      provided no worker waits for a lock it already holds. */
  lemma DrainedMeansServed(s: System)
    requires Inv(s) && CountFits(s.lock)
    requires forall w | w in s.readers || w in s.writers :: !Parked(s, w)
    requires forall a | Draining(a) :: !Enabled(s, a)
    ensures s.lock.word == 0 && s.lock.waitR == [] && s.lock.waitW == []
    ensures s.readers == multiset{} && s.writers == multiset{}
  {
    if w :| w in s.wokenR { assert Enabled(s, RetryRead(w)); assert Draining(RetryRead(w)); }
    if w :| w in s.wokenW { assert Enabled(s, RetryWrite(w)); assert Draining(RetryWrite(w)); }
    assert s.wokenR == {} && s.wokenW == {};
    if w :| w in s.readers {
      assert s.readers == s.readers - multiset{w} + multiset{w};
      assert Enabled(s, UnlockRead(w)); assert Draining(UnlockRead(w));
    }
    if w :| w in s.writers {
      assert s.writers == s.writers - multiset{w} + multiset{w};
      assert Enabled(s, UnlockWrite(w)); assert Draining(UnlockWrite(w));
    }
  }

  // ---------------------------------------------------------------------
  // The lock object
  // ---------------------------------------------------------------------

  class RWLock {
    var word: nat
    const waitR: WaitQueue
    const waitW: WaitQueue
    const pool: Pool

    ghost predicate Valid()
      reads this
    {
      waitR != waitW && word < DWORD_SPAN
    }

    ghost function View(): Lock
      reads this, waitR, waitW, pool
    {
      Lock(word, waitR.slist, waitW.slist, pool.epochs)
    }

    constructor (pool: Pool)
      ensures Valid() && this.pool == pool && fresh(waitR) && fresh(waitW)
      ensures View() == Lock(0, [], [], pool.epochs)
    {
      word := 0;
      waitR := new WaitQueue();
      waitW := new WaitQueue();
      this.pool := pool;
    }

    /** One pass of ReadLock's loop; `false` means the caller is now queued. */
    method ReadLockPass(w: Worker) returns (acquired: bool)
      requires Valid()
      modifies this, waitR, pool
      ensures Valid() && View() == ReadPass(old(View()), w) && acquired == ReadGranted(old(View()))
      ensures acquired <==> old(word) % 2 == 0 && old(waitW.slist) == []
    {
      if word % 2 == 0 && waitW.slist == [] {
        word := (word + 2) % DWORD_SPAN;
        return true;
      }
      waitR.Enqueue(pool, w);
      return false;
    }

    /** One pass of WriteLock's loop; `false` means the caller is now queued. */
    method WriteLockPass(w: Worker) returns (acquired: bool)
      requires Valid()
      modifies this, waitW, pool
      ensures Valid() && View() == WritePass(old(View()), w) && acquired == WriteGranted(old(View()))
      ensures acquired <==> old(word) == 0
    {
      if word == 0 {
        word := 1;
        return true;
      }
      waitW.Enqueue(pool, w);
      return false;
    }

    method Unlock()
      requires Valid() && word >= 1
      modifies this, waitR, waitW, pool
      ensures Valid() && View() == UnlockPass(old(View())).0
      ensures pool.restarted == old(pool.restarted) + UnlockPass(old(View())).1
    {
      word := if word == 1 then 0 else word - 2;
      if word != 0 {
        return;
      }
      if waitW.slist != [] {
        waitW.NotifyOne(pool);
      } else {
        waitR.NotifyAll(pool);
      }
    }
  }
}
