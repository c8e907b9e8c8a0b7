module TimedWait {

  /** One timed wait of one worker (SuspendAndWaitUntil): the waiter, the thread that still
      runs its yield handler, notifiers, and the timer thread, all interleaved.

      Three locks are involved: the queue lock (held by the waiter until its handler
      releases it), the guard of the timed waker, and the epoch compare-exchange. */

  /** Time stamps closer than this to the deadline already count as reached. */
  const GRANULARITY: int := 1000

  predicate Exceeded(deadline: int, stamp: int)
  {
    deadline - GRANULARITY < stamp
  }

  datatype Arming = Before | Engaged | QueueReleased | Armed
  datatype Callback = NoCallback | Copied | Guarded | Ran
  datatype Waiter = Suspended | Resumed | Cancelled | Checked(expired: bool) | Returned(signalled: bool)
  datatype Resumer = Nobody | Notifier | Timer

  datatype State = State(
    arming: Arming,        // the yield handler
    callback: Callback,    // a due callback the timer thread has copied out
    engaged: bool,         // the timer sits in the timeout queue
    cancelled: bool,
    linked: bool,          // the waker is in the wait queue
    live: bool,            // the waker's epoch is current
    waiter: Waiter,
    resumer: Resumer,
    stamp: int,            // last time stamp that was stored
    interrupted: bool,
    deadline: int)

  datatype Action =
    | Engage | ReleaseQueue | FinishArming
    | Notify
    | PopTimer | TakeGuard | RunCallback | DropGuard
    | Cancel | Check | Remove | ReturnSignalled
    | Tick(now: int) | Interrupt

  function Start(deadline: int, stamp: int): State
  {
    State(Before, NoCallback, false, false, true, true, Suspended, Nobody, stamp, false, deadline)
  }

  predicate GuardFree(s: State)
  {
    !s.arming.Engaged? && !s.arming.QueueReleased? && !s.callback.Guarded? && !s.callback.Ran?
  }

  predicate QueueFree(s: State)
  {
    s.arming.QueueReleased? || s.arming.Armed?
  }

  predicate Enabled(s: State, a: Action)
  {
    match a
    case Engage => s.arming.Before? && GuardFree(s)
    case ReleaseQueue => s.arming.Engaged?
    case FinishArming => s.arming.QueueReleased?
    case Notify => QueueFree(s) && s.linked
    case PopTimer => s.engaged && s.callback.NoCallback? && (Exceeded(s.deadline, s.stamp) || s.interrupted)
    case TakeGuard => s.callback.Copied? && GuardFree(s)
    case RunCallback => s.callback.Guarded?
    case DropGuard => s.callback.Ran?
    case Cancel => s.waiter.Resumed? && GuardFree(s)
    case Check => s.waiter.Cancelled?
    case Remove => s.waiter == Checked(true) && QueueFree(s)
    case ReturnSignalled => s.waiter == Checked(false)
    case Tick(_) => true
    case Interrupt => true
  }

  function Apply(s: State, a: Action): State
    requires Enabled(s, a)
  {
    match a
    case Engage => s.(arming := Engaged, engaged := true)
    case ReleaseQueue => s.(arming := QueueReleased)
    case FinishArming => s.(arming := Armed)
    case Notify =>
      if s.live then s.(linked := false, live := false, waiter := Resumed, resumer := Notifier)
      else s.(linked := false)
    case PopTimer => s.(engaged := false, callback := Copied)
    case TakeGuard => s.(callback := Guarded)
    case RunCallback =>
      if !s.cancelled && s.live then s.(callback := Ran, live := false, waiter := Resumed, resumer := Timer)
      else s.(callback := Ran)
    case DropGuard => s.(callback := NoCallback)
    case Cancel => s.(cancelled := true, waiter := Cancelled)
    case Check => s.(waiter := Checked(Exceeded(s.deadline, s.stamp) || s.interrupted))
    case Remove => s.(linked := false, waiter := Returned(false), engaged := false)
    case ReturnSignalled => s.(waiter := Returned(true), engaged := false)
    case Tick(now) => s.(stamp := now)
    case Interrupt => s.(interrupted := true)
  }

  /** A stamp at or past the deadline is not followed by one before it. */
  predicate Steady(s: State, a: Action)
  {
    a.Tick? && Exceeded(s.deadline, s.stamp) ==> Exceeded(s.deadline, a.now)
  }

  /** What holds whatever the clock does. */
  predicate Protocol(s: State)
  {
    && (s.live <==> s.waiter.Suspended?) && (s.live <==> s.resumer.Nobody?)
    && (s.live ==> s.linked)
    && (s.resumer.Notifier? ==> !s.linked)
    && (s.cancelled <==> !s.waiter.Suspended? && !s.waiter.Resumed?)
    && (s.arming.Before? ==> !s.engaged && s.callback.NoCallback?)
    && (s.arming.Before? || s.arming.Engaged? ==> s.waiter.Suspended?)
    && !((s.arming.Engaged? || s.arming.QueueReleased?) && (s.callback.Guarded? || s.callback.Ran?))
    && (s.waiter.Returned? ==> !s.engaged)
    && (s.waiter == Returned(false) ==> !s.linked)
  }

  /** A timer that fired is still seen as expired by the waiter. */
  predicate Expiry(s: State)
  {
    && (s.resumer.Timer? || s.callback.Copied? || s.callback.Guarded? ==> Exceeded(s.deadline, s.stamp) || s.interrupted)
    && (s.resumer.Timer? ==> s.waiter != Checked(false) && s.waiter != Returned(true))
  }

  lemma StepKeepsProtocol(s: State, a: Action)
    requires Protocol(s) && Enabled(s, a)
    ensures Protocol(Apply(s, a))
    ensures s.waiter.Returned? ==> Apply(s, a).waiter == s.waiter
  {
  }

  lemma StepKeepsExpiry(s: State, a: Action)
    requires Protocol(s) && Expiry(s) && Enabled(s, a) && Steady(s, a)
    ensures Expiry(Apply(s, a))
  {
  }

  predicate Legal(s: State, run: seq<Action>)
    decreases |run|
  {
    run == [] || (Enabled(s, run[0]) && Legal(Apply(s, run[0]), run[1..]))
  }

  function After(s: State, run: seq<Action>): State
    requires Legal(s, run)
    decreases |run|
  {
    if run == [] then s else After(Apply(s, run[0]), run[1..])
  }

  lemma {:induction false} RunKeepsProtocol(s: State, run: seq<Action>)
    requires Protocol(s) && Legal(s, run)
    ensures Protocol(After(s, run))
    ensures s.waiter.Returned? ==> After(s, run).waiter == s.waiter
    decreases |run|
  {
    if run != [] {
      StepKeepsProtocol(s, run[0]);
      RunKeepsProtocol(Apply(s, run[0]), run[1..]);
    }
  }

  // ---------------------------------------------------------------------
  // Time stamps
  // ---------------------------------------------------------------------

  /** The time stamps stored during a run, in the order in which they were stored. */
  function Stamps(run: seq<Action>): seq<int>
  {
    if run == [] then [] else (if run[0].Tick? then [run[0].now] else []) + Stamps(run[1..])
  }

  /** A stamp at or past the deadline is followed later by one before it. */
  predicate FallsBack(deadline: int, h: seq<int>)
  {
    exists i, j | 0 <= i < j < |h| :: Exceeded(deadline, h[i]) && !Exceeded(deadline, h[j])
  }

  lemma FallsBackEarlier(deadline: int, first: int, h: seq<int>)
    requires FallsBack(deadline, h)
    ensures FallsBack(deadline, [first] + h)
  {
    var i, j :| 0 <= i < j < |h| && Exceeded(deadline, h[i]) && !Exceeded(deadline, h[j]);
    assert ([first] + h)[i + 1] == h[i] && ([first] + h)[j + 1] == h[j];
  }

  lemma FallsBackAtOnce(deadline: int, first: int, second: int, h: seq<int>)
    requires Exceeded(deadline, first) && !Exceeded(deadline, second)
    ensures FallsBack(deadline, [first] + ([second] + h))
  {
    var all := [first] + ([second] + h);
    assert all[0] == first && all[1] == second;
  }

  /** If no stamp of a run falls back, the first step does not, and neither does the rest. */
  lemma StepIsSteady(s: State, run: seq<Action>)
    requires run != [] && Enabled(s, run[0]) && !FallsBack(s.deadline, [s.stamp] + Stamps(run))
    ensures var s1 := Apply(s, run[0]);
            Steady(s, run[0]) && s1.deadline == s.deadline && !FallsBack(s1.deadline, [s1.stamp] + Stamps(run[1..]))
  {
    var a := run[0];
    if a.Tick? {
      if FallsBack(s.deadline, [a.now] + Stamps(run[1..])) {
        FallsBackEarlier(s.deadline, s.stamp, [a.now] + Stamps(run[1..]));
      }
      if !Steady(s, a) {
        FallsBackAtOnce(s.deadline, s.stamp, a.now, Stamps(run[1..]));
      }
    } else {
      assert [] + Stamps(run[1..]) == Stamps(run[1..]);
    }
  }

  lemma {:induction false} RunKeepsExpiry(s: State, run: seq<Action>)
    requires Protocol(s) && Expiry(s) && Legal(s, run) && !FallsBack(s.deadline, [s.stamp] + Stamps(run))
    ensures Expiry(After(s, run))
    decreases |run|
  {
    if run != [] {
      StepKeepsProtocol(s, run[0]);
      StepIsSteady(s, run);
      StepKeepsExpiry(s, run[0]);
      RunKeepsExpiry(Apply(s, run[0]), run[1..]);
    }
  }

  /** A timed wait that has returned is disarmed for good: the timer is out of the timeout
      queue, a callback already copied out finds it cancelled, and nothing that happens
      later resumes the waiter through this wait again. */
  lemma ReturnedIsDisarmed(deadline: int, stamp: int, run: seq<Action>, later: seq<Action>)
    requires Legal(Start(deadline, stamp), run)
    requires Legal(After(Start(deadline, stamp), run), later)
    ensures var s := After(Start(deadline, stamp), run);
            var s' := After(s, later);
            s.waiter.Returned? ==> !s.engaged && s.cancelled && !s.live && s'.waiter == s.waiter
  {
    RunKeepsProtocol(Start(deadline, stamp), run);
    RunKeepsProtocol(After(Start(deadline, stamp), run), later);
  }

  /** Unless the stamps fall back behind the deadline, the wait returns with its waker
      unlinked, and it reports a signal only when a notifier resumed it. */
  lemma ReturnedIsUnlinked(deadline: int, stamp: int, run: seq<Action>)
    requires Legal(Start(deadline, stamp), run) && !FallsBack(deadline, [stamp] + Stamps(run))
    ensures var s := After(Start(deadline, stamp), run);
            && (s.waiter.Returned? ==> !s.linked)
            && (s.waiter == Returned(true) ==> s.resumer == Notifier)
  {
    RunKeepsProtocol(Start(deadline, stamp), run);
    RunKeepsExpiry(Start(deadline, stamp), run);
  }

  // ---------------------------------------------------------------------
  // The exact condition
  // ---------------------------------------------------------------------

  /** A legal run from one state to another with the given time stamps. */
  predicate Leads(s: State, run: seq<Action>, t: State, h: seq<int>)
  {
    Legal(s, run) && After(s, run) == t && Stamps(run) == h
  }

  lemma Stay(s: State)
    ensures Leads(s, [], s, [])
  {
  }

  lemma Step(s: State, a: Action, run: seq<Action>, t: State, h: seq<int>)
    requires Enabled(s, a) && Leads(Apply(s, a), run, t, h)
    ensures Leads(s, [a] + run, t, if a.Tick? then [a.now] + h else h)
  {
    assert ([a] + run)[1..] == run;
  }

  lemma HeadOut<T>(a: seq<T>, b: seq<T>)
    requires a != []
    ensures a + b == [a[0]] + (a[1..] + b)
  {
  }

  lemma {:induction false} Then(s: State, a: seq<Action>, t: State, g: seq<int>, b: seq<Action>, u: State, h: seq<int>)
    requires Leads(s, a, t, g) && Leads(t, b, u, h)
    ensures Leads(s, a + b, u, g + h)
    decreases |a|
  {
    if a == [] {
      assert a + b == b && g + h == h;
    } else {
      var first, rest := a[0], a[1..];
      var g1 := FirstStep(s, a, t, g);
      Then(Apply(s, first), rest, t, g1, b, u, h);
      Step(s, first, rest + b, u, g1 + h);
      HeadOut(a, b);
      if first.Tick? {
        HeadOut([first.now] + g1, h);
        assert ([first.now] + g1)[1..] == g1;
      }
    }
  }

  lemma FirstStep(s: State, run: seq<Action>, t: State, h: seq<int>) returns (h': seq<int>)
    requires Leads(s, run, t, h) && run != []
    ensures Enabled(s, run[0]) && Leads(Apply(s, run[0]), run[1..], t, h')
    ensures h == if run[0].Tick? then [run[0].now] + h' else h'
  {
    h' := Stamps(run[1..]);
    assert [] + h' == h';
  }

  /** Only time passes. */
  function Ticks(h: seq<int>): seq<Action>
  {
    if h == [] then [] else [Tick(h[0])] + Ticks(h[1..])
  }

  lemma {:induction false} TicksRun(s: State, h: seq<int>)
    ensures Leads(s, Ticks(h), s.(stamp := if h == [] then s.stamp else h[|h| - 1]), h)
    decreases |h|
  {
    if h == [] {
      Stay(s);
    } else {
      var t := s.(stamp := h[|h| - 1]);
      TicksRun(s.(stamp := h[0]), h[1..]);
      Step(s, Tick(h[0]), Ticks(h[1..]), t, h[1..]);
      assert [h[0]] + h[1..] == h;
    }
  }

  /** The waker goes into the queue and the timer is armed. */
  lemma ArmRun(s: State) returns (run: seq<Action>)
    requires s.arming.Before? && s.callback.NoCallback?
    ensures Leads(s, run, s.(arming := Armed, engaged := true), [])
  {
    var s1 := Apply(s, Engage);
    var s2 := Apply(s1, ReleaseQueue);
    var t := Apply(s2, FinishArming);
    Stay(t);
    Step(s2, FinishArming, [], t, []);
    Step(s1, ReleaseQueue, [FinishArming] + [], t, []);
    Step(s, Engage, [ReleaseQueue] + ([FinishArming] + []), t, []);
    run := [Engage] + ([ReleaseQueue] + ([FinishArming] + []));
  }

  /** The timer is due, resumes the waiter, and the waiter cancels it. */
  lemma FireRun(s: State) returns (run: seq<Action>)
    requires s.arming.Armed? && s.engaged && s.callback.NoCallback? && Exceeded(s.deadline, s.stamp)
    requires !s.cancelled && s.live
    ensures Leads(s, run, s.(engaged := false, live := false, cancelled := true, waiter := Cancelled, resumer := Timer), [])
  {
    var s1 := Apply(s, PopTimer);
    var s2 := Apply(s1, TakeGuard);
    var s3 := Apply(s2, RunCallback);
    var s4 := Apply(s3, DropGuard);
    var t := Apply(s4, Cancel);
    Stay(t);
    Step(s4, Cancel, [], t, []);
    Step(s3, DropGuard, [Cancel] + [], t, []);
    Step(s2, RunCallback, [DropGuard] + ([Cancel] + []), t, []);
    Step(s1, TakeGuard, [RunCallback] + ([DropGuard] + ([Cancel] + [])), t, []);
    Step(s, PopTimer, [TakeGuard] + ([RunCallback] + ([DropGuard] + ([Cancel] + []))), t, []);
    run := [PopTimer] + ([TakeGuard] + ([RunCallback] + ([DropGuard] + ([Cancel] + []))));
  }

  /** The waiter finds its deadline not reached and returns. */
  lemma ReturnRun(s: State) returns (run: seq<Action>)
    requires s.waiter.Cancelled? && !Exceeded(s.deadline, s.stamp) && !s.interrupted
    ensures Leads(s, run, s.(waiter := Returned(true), engaged := false), [])
  {
    var s1 := Apply(s, Check);
    var t := Apply(s1, ReturnSignalled);
    Stay(t);
    Step(s1, ReturnSignalled, [], t, []);
    Step(s, Check, [ReturnSignalled] + [], t, []);
    run := [Check] + ([ReturnSignalled] + []);
  }

  /** Up to the waiter that was resumed by its timer and has cancelled it. */
  lemma UpToCancel(deadline: int, first: int, h: seq<int>) returns (run: seq<Action>, t: State)
    requires Exceeded(deadline, if h == [] then first else h[|h| - 1])
    ensures Leads(Start(deadline, first), run, t, h)
    ensures t.waiter.Cancelled? && t.linked && !t.interrupted && t.deadline == deadline
  {
    var s := Start(deadline, first);
    var arm := ArmRun(s);
    var s1 := s.(arming := Armed, engaged := true);
    var s2 := s1.(stamp := if h == [] then first else h[|h| - 1]);
    TicksRun(s1, h);
    Then(s, arm, s1, [], Ticks(h), s2, h);
    var fire := FireRun(s2);
    t := s2.(engaged := false, live := false, cancelled := true, waiter := Cancelled, resumer := Timer);
    assert [] + h == h && h + [] == h;
    Then(s, arm + Ticks(h), s2, h, fire, t, []);
    run := arm + Ticks(h) + fire;
  }

  /** From there the waiter returns after stamps that end before the deadline. */
  lemma ReturnEarly(s: State, h: seq<int>, later: seq<int>) returns (run: seq<Action>, t: State)
    requires s.waiter.Cancelled? && s.linked && !s.interrupted && h != [] && !Exceeded(s.deadline, h[|h| - 1])
    ensures Leads(s, run, t, h + later) && t.waiter == Returned(true) && t.linked
  {
    var s1 := s.(stamp := h[|h| - 1]);
    TicksRun(s, h);
    var back := ReturnRun(s1);
    var s2 := s1.(waiter := Returned(true), engaged := false);
    Then(s, Ticks(h), s1, h, back, s2, []);
    assert h + [] == h;
    t := s2.(stamp := if later == [] then s2.stamp else later[|later| - 1]);
    TicksRun(s2, later);
    Then(s, Ticks(h) + back, s2, h, Ticks(later), t, later);
    run := Ticks(h) + back + Ticks(later);
  }

  /** The run in which the deadline is reached at stamp `i` of the history and the waiter
      looks at stamp `j`. */
  lemma FallingBackRun(deadline: int, h: seq<int>, i: nat, j: nat) returns (run: seq<Action>)
    requires i < j < |h| && Exceeded(deadline, h[i]) && !Exceeded(deadline, h[j])
    ensures Legal(Start(deadline, h[0]), run) && Stamps(run) == h[1..]
    ensures var s := After(Start(deadline, h[0]), run); s.waiter == Returned(true) && s.linked
  {
    var a, b, c := h[1..i + 1], h[i + 1..j + 1], h[j + 1..];
    var run1, t := UpToCancel(deadline, h[0], a);
    var run2, u := ReturnEarly(t, b, c);
    Then(Start(deadline, h[0]), run1, t, a, run2, u, b + c);
    assert h[1..] == a + (b + c);
    run := run1 + run2;
  }

  /** Some interleaving with these stamps, the first one being there at the start, lets the
      wait return with its waker still queued. */
  ghost predicate CanStayLinked(deadline: int, h: seq<int>)
    requires h != []
  {
    exists run ::
      && Legal(Start(deadline, h[0]), run) && Stamps(run) == h[1..]
      && After(Start(deadline, h[0]), run).waiter.Returned? && After(Start(deadline, h[0]), run).linked
  }

  /** Whether a wait can return with its waker still queued depends on the stored time
      stamps alone: it can if and only if one at or past the deadline is followed by one
      before it. */
  lemma StaysLinkedIff(deadline: int, h: seq<int>)
    requires h != []
    ensures CanStayLinked(deadline, h) <==> FallsBack(deadline, h)
  {
    if FallsBack(deadline, h) {
      var i, j :| 0 <= i < j < |h| && Exceeded(deadline, h[i]) && !Exceeded(deadline, h[j]);
      var run := FallingBackRun(deadline, h, i, j);
    }
    if CanStayLinked(deadline, h) && !FallsBack(deadline, h) {
      var run :| Legal(Start(deadline, h[0]), run) && Stamps(run) == h[1..]
        && After(Start(deadline, h[0]), run).waiter.Returned? && After(Start(deadline, h[0]), run).linked;
      assert [h[0]] + Stamps(run) == h;
      ReturnedIsUnlinked(deadline, h[0], run);
    }
  }

  /** Stamps that only grow never do that. */
  lemma GrowingStampsNeverFallBack(deadline: int, h: seq<int>)
    requires forall i, j | 0 <= i < j < |h| :: h[i] <= h[j]
    ensures !FallsBack(deadline, h)
  {
  }

  /** Two threads storing their stamps in the wrong order are enough for that. */
  lemma ReorderedStampsLeaveItLinked()
    ensures CanStayLinked(5000, [1000, 5000, 3999])
  {
    var h := [1000, 5000, 3999];
    assert Exceeded(5000, h[1]) && !Exceeded(5000, h[2]);
    StaysLinkedIff(5000, h);
  }

  // ---------------------------------------------------------------------
  // What a wait reports
  // ---------------------------------------------------------------------

  /** As long as no stamp reaches the deadline and nobody interrupts, only notifiers matter. */
  predicate InTime(s: State)
  {
    && !s.interrupted && !Exceeded(s.deadline, s.stamp) && s.callback.NoCallback? && !s.resumer.Timer?
    && s.waiter != Checked(true) && s.waiter != Returned(false)
  }

  lemma StepInTime(s: State, a: Action)
    requires InTime(s) && Enabled(s, a) && !a.Interrupt? && (a.Tick? ==> !Exceeded(s.deadline, a.now))
    ensures InTime(Apply(s, a)) && Apply(s, a).deadline == s.deadline
  {
  }

  lemma {:induction false} RunInTime(s: State, run: seq<Action>)
    requires InTime(s) && Legal(s, run) && Interrupt !in run && forall t <- Stamps(run) :: !Exceeded(s.deadline, t)
    ensures InTime(After(s, run)) && After(s, run).deadline == s.deadline
    decreases |run|
  {
    if run != [] {
      var a := run[0];
      assert a in run && forall b <- run[1..] :: b in run;
      assert a.Tick? ==> a.now in Stamps(run);
      assert forall t <- Stamps(run[1..]) :: t in Stamps(run);
      StepInTime(s, a);
      RunInTime(Apply(s, a), run[1..]);
    }
  }

  /** A wait that ends before its deadline reports a signal, and a notifier resumed it. */
  lemma SignalledInTime(deadline: int, stamp: int, run: seq<Action>)
    requires Legal(Start(deadline, stamp), run) && Interrupt !in run
    requires forall t <- [stamp] + Stamps(run) :: !Exceeded(deadline, t)
    ensures var s := After(Start(deadline, stamp), run);
            s.waiter.Returned? ==> s.waiter == Returned(true) && s.resumer == Notifier && !s.linked
  {
    var s := Start(deadline, stamp);
    assert stamp in [stamp] + Stamps(run) && forall t <- Stamps(run) :: t in [stamp] + Stamps(run);
    RunInTime(s, run);
    RunKeepsProtocol(s, run);
  }

  predicate TooLate(s: State)
  {
    Exceeded(s.deadline, s.stamp) && s.waiter != Checked(false) && s.waiter != Returned(true)
  }

  lemma StepTooLate(s: State, a: Action)
    requires TooLate(s) && Enabled(s, a) && (a.Tick? ==> Exceeded(s.deadline, a.now))
    ensures TooLate(Apply(s, a)) && Apply(s, a).deadline == s.deadline
  {
  }

  lemma {:induction false} RunTooLate(s: State, run: seq<Action>)
    requires TooLate(s) && Legal(s, run) && forall t <- Stamps(run) :: Exceeded(s.deadline, t)
    ensures TooLate(After(s, run)) && After(s, run).deadline == s.deadline
    decreases |run|
  {
    if run != [] {
      var a := run[0];
      assert a.Tick? ==> a.now in Stamps(run);
      assert forall t <- Stamps(run[1..]) :: t in Stamps(run);
      StepTooLate(s, a);
      RunTooLate(Apply(s, a), run[1..]);
    }
  }

  /** A wait that starts at or behind its deadline reports a timeout and takes its waker out. */
  lemma TimedOutTooLate(deadline: int, stamp: int, run: seq<Action>)
    requires Legal(Start(deadline, stamp), run)
    requires forall t <- [stamp] + Stamps(run) :: Exceeded(deadline, t)
    ensures var s := After(Start(deadline, stamp), run);
            s.waiter.Returned? ==> s.waiter == Returned(false) && !s.linked
  {
    var s := Start(deadline, stamp);
    assert stamp in [stamp] + Stamps(run) && forall t <- Stamps(run) :: t in [stamp] + Stamps(run);
    RunTooLate(s, run);
    RunKeepsProtocol(s, run);
  }

  /** The deadline counts as reached one millisecond early, not more. */
  lemma ReachedEarly(deadline: int, stamp: int)
    ensures Exceeded(deadline, stamp) <==> stamp - deadline > -1000
  {
  }

  /** A waiter that was resumed is never stuck: it, the yield handler or the timer callback can
      go on without any further event. */
  lemma GoesOn(s: State) returns (a: Action)
    requires Protocol(s) && !s.waiter.Suspended? && !s.waiter.Returned?
    ensures Enabled(s, a) && !a.Tick? && !a.Interrupt? && !a.Notify? && !a.PopTimer?
  {
    a := if s.arming.Engaged? then ReleaseQueue
         else if s.arming.QueueReleased? then FinishArming
         else if s.callback.Guarded? then RunCallback
         else if s.callback.Ran? then DropGuard
         else match s.waiter
           case Resumed => Cancel
           case Cancelled => Check
           case Checked(expired) => if expired then Remove else ReturnSignalled
           case _ => Tick(0);
  }

  /** A suspended waiter gets its timer armed, can then be notified at any time, and its timer
      can be taken as soon as it is due. */
  lemma Waits(s: State)
    requires Protocol(s) && s.waiter.Suspended?
    ensures s.arming.Before? && GuardFree(s) ==> Apply(s, Engage) == s.(arming := Engaged, engaged := true)
    ensures s.arming.Armed? ==> Enabled(s, Notify)
    ensures s.engaged && s.callback.NoCallback? && (Exceeded(s.deadline, s.stamp) || s.interrupted) ==>
              Apply(s, PopTimer) == s.(engaged := false, callback := Copied)
  {
  }

  /** A notification resumes a suspended waiter, and a due timer does. */
  lemma Wakes(s: State)
    requires Protocol(s) && s.waiter.Suspended?
    ensures Enabled(s, Notify) ==> Apply(s, Notify) == s.(linked := false, live := false, waiter := Resumed, resumer := Notifier)
    ensures s.callback.Guarded? ==> Apply(s, RunCallback) == s.(callback := Ran, live := false, waiter := Resumed, resumer := Timer)
  {
  }
}
