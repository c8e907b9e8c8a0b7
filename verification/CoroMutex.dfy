module CoroMutex {

  /** The coroutine mutex: an owner pointer and a queue of wakers.

      Unlock clears the owner and resumes one waiter, but does not hand the mutex over:
      the resumed worker has to come back and compete for it. */

  import opened Wakers

  datatype Owner = NoOwner | OwnedBy(w: Worker)

  datatype Mutex = Mutex(owner: Owner, queue: seq<Waker>, epochs: Epochs)

  function QueueUp(m: Mutex, w: Worker): Mutex
  {
    var e := Advance(m.epochs, w);
    m.(queue := m.queue + [Waker(w, EpochOf(e, w))], epochs := e)
  }

  /** One pass of the Lock loop. */
  function LockPass(m: Mutex, w: Worker): Mutex
  {
    if m.owner.NoOwner? then m.(owner := OwnedBy(w)) else QueueUp(m, w)
  }

  function UnlockPass(m: Mutex): (Mutex, seq<Worker>)
  {
    var n := AfterNotifyOne(m.queue, m.epochs);
    (Mutex(NoOwner, n.rest, n.epochs), n.resumed)
  }

  /** `inside` are the workers between a returned Lock and their Unlock, `woken` those
      resumed by an Unlock that have not tried again yet. */
  datatype System = System(m: Mutex, inside: multiset<Worker>, woken: set<Worker>)

  datatype Action =
    | Call(w: Worker)
    | Retry(w: Worker)
    | Unlock(w: Worker)
    | Elsewhere(w: Worker, epoch: nat)

  function Fresh(): System
  {
    System(Mutex(NoOwner, [], map[]), multiset{}, {})
  }

  predicate Idle(s: System, w: Worker)
  {
    w !in Queued(s.m.queue) && w !in s.woken
  }

  predicate Enabled(s: System, a: Action)
  {
    match a
    case Call(w) => Idle(s, w) && s.m.owner != OwnedBy(w)
    case Retry(w) => w in s.woken
    case Unlock(w) => Idle(s, w) && w in s.inside
    case Elsewhere(w, n) => Idle(s, w) && n >= EpochOf(s.m.epochs, w)
  }

  function Try(s: System, w: Worker): System
  {
    var s' := s.(m := LockPass(s.m, w), woken := s.woken - {w});
    if s.m.owner.NoOwner? then s'.(inside := s.inside + multiset{w}) else s'
  }

  function Apply(s: System, a: Action): System
    requires Enabled(s, a)
  {
    match a
    case Call(w) => Try(s, w)
    case Retry(w) => Try(s, w)
    case Unlock(w) =>
      var (m, resumed) := UnlockPass(s.m);
      System(m, s.inside - multiset{w}, s.woken + (set r | r in resumed))
    case Elsewhere(w, n) => s.(m := s.m.(epochs := s.m.epochs[w := n]))
  }

  /** At most one worker is inside, and the owner field names it. */
  predicate Exclusive(s: System)
  {
    s.inside == if s.m.owner.NoOwner? then multiset{} else multiset{s.m.owner.w}
  }

  predicate QueueOk(s: System)
  {
    && AllLive(s.m.queue, s.m.epochs) && DistinctWorkers(s.m.queue)
    && Queued(s.m.queue) !! s.woken
  }

  /** An unowned mutex with waiters has a resumed worker about to retry. */
  predicate NobodyStranded(s: System)
  {
    s.m.owner.NoOwner? && s.m.queue != [] ==> s.woken != {}
  }

  predicate Inv(s: System)
  {
    Exclusive(s) && QueueOk(s) && NobodyStranded(s)
  }

  lemma TryKeepsInv(s: System, w: Worker)
    requires Inv(s) && w !in Queued(s.m.queue)
    ensures Inv(Try(s, w))
  {
    if s.m.owner.OwnedBy? {
      QueuedAppend(s.m.queue, Try(s, w).m.queue[|s.m.queue|]);
      assert forall k | k in s.m.queue :: k.ctx in Queued(s.m.queue);
    }
  }

  lemma UnlockShape(s: System, w: Worker)
    requires QueueOk(s) && Enabled(s, Unlock(w))
    ensures var s' := Apply(s, Unlock(w));
            && s'.m.owner == NoOwner && s'.inside == s.inside - multiset{w}
            && (s.m.queue == [] ==> s'.m.queue == [] && s'.woken == s.woken)
            && (s.m.queue != [] ==>
                  && s'.m.queue == s.m.queue[1..] && s'.woken == s.woken + {s.m.queue[0].ctx}
                  && s'.m.epochs == Advance(s.m.epochs, s.m.queue[0].ctx))
  {
  }

  lemma UnlockKeepsInv(s: System, w: Worker)
    requires Inv(s) && Enabled(s, Unlock(w))
    ensures Inv(Apply(s, Unlock(w)))
  {
    UnlockShape(s, w);
    if s.m.queue != [] {
      QueuedPop(s.m.queue);
      assert s.m.queue[0].ctx in Apply(s, Unlock(w)).woken;
    }
  }

  lemma StepKeepsInv(s: System, a: Action)
    requires Inv(s) && Enabled(s, a)
    ensures Inv(Apply(s, a))
  {
    match a
    case Call(w) => TryKeepsInv(s, w);
    case Retry(w) => TryKeepsInv(s, w);
    case Unlock(w) => UnlockKeepsInv(s, w);
    case Elsewhere(w, n) => assert forall k | k in s.m.queue :: k.ctx in Queued(s.m.queue);
  }

  /** Every other worker that is not waiting may call, the owner may unlock, and every resumed
      worker may retry. */
  lemma AlwaysOpen(s: System, w: Worker)
    requires Inv(s)
    ensures Idle(s, w) && w !in s.inside ==> Enabled(s, Call(w))
    ensures Idle(s, w) && w in s.inside ==> Enabled(s, Unlock(w))
    ensures w in s.woken ==> Enabled(s, Retry(w))
  {
  }

  /** A worker gets in exactly if nobody is inside; otherwise it goes to the end of the queue
      and nothing else changes. */
  lemma Admission(s: System, w: Worker)
    requires Inv(s)
    ensures var s' := Try(s, w);
            && s'.woken == s.woken - {w}
            && if s.inside == multiset{} then s'.inside == multiset{w} && s'.m.owner == OwnedBy(w) && s'.m.queue == s.m.queue
               else
                 && s'.inside == s.inside && s'.m.owner == s.m.owner
                 && |s'.m.queue| == |s.m.queue| + 1 && s'.m.queue[..|s.m.queue|] == s.m.queue && s'.m.queue[|s.m.queue|].ctx == w
  {
  }

  predicate Legal(s: System, run: seq<Action>)
    decreases |run|
  {
    run == [] || (Enabled(s, run[0]) && Legal(Apply(s, run[0]), run[1..]))
  }

  function After(s: System, run: seq<Action>): System
    requires Legal(s, run)
    decreases |run|
  {
    if run == [] then s else After(Apply(s, run[0]), run[1..])
  }

  lemma {:induction false} RunKeepsInv(s: System, run: seq<Action>)
    requires Inv(s) && Legal(s, run)
    ensures Inv(After(s, run))
    decreases |run|
  {
    if run != [] {
      StepKeepsInv(s, run[0]);
      RunKeepsInv(Apply(s, run[0]), run[1..]);
    }
  }

  /** Over every interleaving: at most one worker inside, an unowned mutex that is
      waited for always has a worker about to retry, and no queued waker is stale (so
      the wake of an Unlock cannot be wasted). */
  lemma MutexSafety(run: seq<Action>)
    requires Legal(Fresh(), run)
    ensures var s := After(Fresh(), run);
            |s.inside| <= 1 && Exclusive(s) && NobodyStranded(s) && AllLive(s.m.queue, s.m.epochs)
  {
    RunKeepsInv(Fresh(), run);
  }

  // ---------------------------------------------------------------------
  // Progress
  // ---------------------------------------------------------------------

  predicate Draining(a: Action) { a.Retry? || a.Unlock? }

  /** Twice the pending acquisitions plus the pending release; parking a loser costs
      nothing here but uses up one resumed worker. */
  function Owed(s: System): nat { 2 * Waiting(s) + |s.inside| }

  function Waiting(s: System): nat { |s.m.queue| + |s.woken| }

  lemma DrainStep(s: System, a: Action)
    requires Inv(s) && Enabled(s, a) && Draining(a)
    ensures var s' := Apply(s, a);
            Owed(s') < Owed(s) || (Owed(s') == Owed(s) && |s'.woken| < |s.woken|)
    ensures Waiting(Apply(s, a)) <= Waiting(s)
  {
    match a
    case Retry(w) => assert |s.woken - {w}| == |s.woken| - 1;
    case Unlock(w) =>
      UnlockShape(s, w);
      assert |s.inside - multiset{w}| == |s.inside| - 1;
  }

  function Potential(s: System, cap: nat): nat { Owed(s) * (cap + 1) + |s.woken| }

  lemma PotentialDrops(s: System, a: Action, cap: nat)
    requires Inv(s) && Enabled(s, a) && Draining(a) && Waiting(s) <= cap
    ensures Potential(Apply(s, a), cap) < Potential(s, cap)
  {
    DrainStep(s, a);
    var s' := Apply(s, a);
    if Owed(s') < Owed(s) {
      Weighted(Owed(s'), Owed(s), cap);
    }
  }

  /** No schedule of retries and unlocks can go on forever. */
  lemma {:induction false} DrainIsBounded(s: System, run: seq<Action>, cap: nat)
    requires Inv(s) && Legal(s, run) && (forall a <- run :: Draining(a)) && Waiting(s) <= cap
    ensures |run| + Potential(After(s, run), cap) <= Potential(s, cap)
    decreases |run|
  {
    if run != [] {
      assert run[0] in run;
      PotentialDrops(s, run[0], cap);
      DrainStep(s, run[0]);
      StepKeepsInv(s, run[0]);
      DrainIsBounded(Apply(s, run[0]), run[1..], cap);
    }
  }

  /** When no resumed worker is left to retry and nobody is inside, nobody waits. */
  lemma DrainedMeansServed(s: System)
    requires Inv(s) && (forall a | Draining(a) :: !Enabled(s, a))
    requires s.m.owner.OwnedBy? ==> s.m.owner.w !in Queued(s.m.queue)
    ensures s.m == Mutex(NoOwner, [], s.m.epochs) && s.inside == multiset{}
  {
    if w :| w in s.woken { assert Draining(Retry(w)) && Enabled(s, Retry(w)); }
    assert s.woken == {};
    if s.m.owner.OwnedBy? { assert Draining(Unlock(s.m.owner.w)) && Enabled(s, Unlock(s.m.owner.w)); }
  }

  // ---------------------------------------------------------------------
  // The mutex object
  // ---------------------------------------------------------------------

  class CoroMutex {
    var owner: Owner
    const waitQueue: WaitQueue
    const pool: Pool

    ghost function View(): Mutex
      reads this, waitQueue, pool
    {
      Mutex(owner, waitQueue.slist, pool.epochs)
    }

    constructor (pool: Pool)
      ensures this.pool == pool && fresh(waitQueue) && View() == Mutex(NoOwner, [], pool.epochs)
    {
      owner := NoOwner;
      waitQueue := new WaitQueue();
      this.pool := pool;
    }

    /** One pass of Lock's loop; `false` means the caller is now queued. */
    method TryLockPass(w: Worker) returns (acquired: bool)
      requires owner != OwnedBy(w)
      modifies this, waitQueue, pool
      ensures View() == LockPass(old(View()), w) && acquired == old(owner).NoOwner?
    {
      if owner.NoOwner? {
        owner := OwnedBy(w);
        return true;
      }
      waitQueue.Enqueue(pool, w);
      return false;
    }

    method Release()
      modifies this, waitQueue, pool
      ensures View() == UnlockPass(old(View())).0
      ensures pool.restarted == old(pool.restarted) + UnlockPass(old(View())).1
    {
      owner := NoOwner;
      waitQueue.NotifyOne(pool);
    }
  }
}
