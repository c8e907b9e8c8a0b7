module Scheduler {

  /** Scheduling of one coroutine worker: the Running and Paused flags, the run queue,
      and every thread that currently executes a piece of the worker's life.

      Each atomic operation of the source is one step here, and any number of threads may
      be at any of the program points below: that at most one of them can be there at a
      time is what is proved, not assumed.  Whoever resumes the worker must have been given
      the right to do so; the question is when that right may be given away. */

  /** Where a thread stands that is busy with this worker. */
  datatype Pc =
    | Body                                // executing the coroutine's own code
    | Yielded                             // switched back, before ResetRunningAndReschedule
    | Loaded(running: bool, paused: bool) // holds the flags it read, before the compare-exchange
    | Tail                                // Running was cleared, the yield handler is still to run
    | MustSchedule                        // Restart set Running, the worker is still to be queued

  /** Where the coroutine's code stands with respect to Reschedule. */
  datatype Point = Plain | PauseSet | Rescheduled

  datatype State = State(
    running: bool,
    paused: bool,
    handler: bool,           // a yield handler is installed
    queued: nat,             // how often the worker sits in run queues
    threads: multiset<Pc>,
    point: Point,
    rights: nat,             // rights to resume the worker that were given away
    finished: bool,
    lost: nat)               // Restart calls that found Running set and did nothing

  datatype Action =
    | Dequeue
    | YieldWith              // install a handler that gives away the right, then yield
    | SetPause               // first half of Reschedule
    | YieldPaused
    | ClearPause             // last half of Reschedule, after the resumption
    | Load
    | Reload(r: bool, p: bool)          // compare-exchange failed, possibly spuriously
    | ScheduleAgain
    | CompareExchange
    | RunHandler
    | Restart                // by somebody who was given the right
    | Schedule
    | Finish
    | PublishEarly           // give the right away before yielding
    | YieldBare              // yield without a handler

  function Fresh(): State
  {
    State(true, false, false, 1, multiset{}, Plain, 0, false, 0)
  }

  predicate Enabled(s: State, a: Action)
  {
    match a
    case Dequeue => s.queued > 0
    case YieldWith => Body in s.threads && s.point.Plain?
    case SetPause => Body in s.threads && s.point.Plain?
    case YieldPaused => Body in s.threads && s.point.PauseSet?
    case ClearPause => Body in s.threads && s.point.Rescheduled?
    case Load => Yielded in s.threads
    case Reload(r, p) => Loaded(r, p) in s.threads && !p
    case ScheduleAgain => exists r :: Loaded(r, true) in s.threads
    case CompareExchange => Loaded(s.running, s.paused) in s.threads && !s.paused
    case RunHandler => Tail in s.threads
    case Restart => s.rights > 0
    case Schedule => MustSchedule in s.threads
    case Finish => Body in s.threads && s.point.Plain?
    case PublishEarly => Body in s.threads && s.point.Plain?
    case YieldBare => Body in s.threads && s.point.Plain?
  }

  function Move(t: multiset<Pc>, from: Pc, to: Pc): multiset<Pc>
  {
    t - multiset{from} + multiset{to}
  }

  function Apply(s: State, a: Action): State
    requires Enabled(s, a)
  {
    match a
    case Dequeue => s.(queued := s.queued - 1, threads := s.threads + multiset{Body})
    case YieldWith => s.(handler := true, threads := Move(s.threads, Body, Yielded))
    case SetPause =>
      s.(running := true, paused := true, point := PauseSet,
         queued := if s.running then s.queued else s.queued + 1)
    case YieldPaused => s.(threads := Move(s.threads, Body, Yielded), point := Rescheduled)
    case ClearPause => s.(paused := false, point := Plain)
    case Load => s.(threads := Move(s.threads, Yielded, Loaded(s.running, s.paused)))
    case Reload(r, p) => s.(threads := Move(s.threads, Loaded(r, p), Loaded(s.running, s.paused)))
    case ScheduleAgain =>
      var r := Loaded(true, true) in s.threads;
      s.(queued := s.queued + 1, threads := s.threads - multiset{Loaded(r, true)})
    case CompareExchange =>
      s.(running := false, threads := Move(s.threads, Loaded(s.running, s.paused), Tail))
    case RunHandler =>
      s.(handler := false, threads := s.threads - multiset{Tail},
         rights := if s.handler then s.rights + 1 else s.rights)
    case Restart =>
      if s.running then s.(rights := s.rights - 1, lost := s.lost + 1)
      else s.(rights := s.rights - 1, running := true, threads := s.threads + multiset{MustSchedule})
    case Schedule => s.(queued := s.queued + 1, threads := s.threads - multiset{MustSchedule})
    case Finish => s.(threads := s.threads - multiset{Body}, finished := true)
    case PublishEarly => s.(rights := s.rights + 1)
    case YieldBare => s.(threads := Move(s.threads, Body, Yielded))
  }

  /** The right to resume is given away in the yield handler only. */
  predicate Disciplined(a: Action)
  {
    !a.PublishEarly? && !a.YieldBare?
  }

  // ---------------------------------------------------------------------
  // Custody: exactly one party is responsible for the worker
  // ---------------------------------------------------------------------

  /** The one thread that is responsible while the worker is neither queued nor parked. */
  predicate ThreadOk(s: State, pc: Pc)
  {
    match pc
    case Body => s.running && !s.handler && (s.paused <==> !s.point.Plain?)
    case Yielded => s.running && (s.handler <==> !s.paused) && (s.paused <==> s.point.Rescheduled?) && !s.point.PauseSet?
    case Loaded(r, p) => s.running && r && p == s.paused && (s.handler <==> !s.paused)
                         && (s.paused <==> s.point.Rescheduled?) && !s.point.PauseSet?
    case Tail => !s.running && s.handler && !s.paused && s.point.Plain?
    case MustSchedule => s.running && !s.handler && !s.paused && s.point.Plain?
  }

  ghost predicate Custody(s: State)
  {
    && s.lost == 0
    && if s.finished then s.queued == 0 && s.threads == multiset{} && s.rights == 0
       else if s.rights > 0 then
         s.rights == 1 && s.queued == 0 && s.threads == multiset{} && !s.running && !s.handler && !s.paused && s.point.Plain?
       else if s.queued > 0 then
         s.queued == 1 && s.threads == multiset{} && s.running && !s.handler && !s.point.PauseSet?
         && (s.paused <==> s.point.Rescheduled?)
       else exists pc :: s.threads == multiset{pc} && ThreadOk(s, pc)
  }

  /** A thread that carries the worker is the only party responsible for it. */
  lemma Sole(s: State, pc: Pc)
    requires Custody(s) && pc in s.threads
    ensures s.threads == multiset{pc} && ThreadOk(s, pc)
    ensures s.queued == 0 && s.rights == 0 && !s.finished
  {
  }

  lemma Carried(s: State, pc: Pc)
    requires s.threads == multiset{pc} && ThreadOk(s, pc)
    requires s.queued == 0 && s.rights == 0 && !s.finished && s.lost == 0
    ensures Custody(s)
  {
  }

  lemma MoveSole(from: Pc, to: Pc)
    ensures Move(multiset{from}, from, to) == multiset{to}
  {
  }

  lemma BodyStep(s: State, a: Action)
    requires Custody(s) && Enabled(s, a) && Body in s.threads
    requires a.YieldWith? || a.SetPause? || a.YieldPaused? || a.ClearPause? || a.Finish?
    ensures Custody(Apply(s, a))
  {
    Sole(s, Body);
    MoveSole(Body, Yielded);
    if a.YieldWith? || a.YieldPaused? {
      Carried(Apply(s, a), Yielded);
    } else if !a.Finish? {
      Carried(Apply(s, a), Body);
    }
  }

  lemma FlagStep(s: State, a: Action)
    requires Custody(s) && Enabled(s, a)
    requires a.Load? || a.Reload? || a.ScheduleAgain? || a.CompareExchange?
    ensures Custody(Apply(s, a))
  {
    var now := Loaded(s.running, s.paused);
    match a
    case Load =>
      Sole(s, Yielded);
      MoveSole(Yielded, now);
      Carried(Apply(s, a), now);
    case Reload(r, p) =>
      Sole(s, Loaded(r, p));
      MoveSole(Loaded(r, p), now);
      Carried(Apply(s, a), now);
    case ScheduleAgain =>
      var r :| Loaded(r, true) in s.threads;
      Sole(s, Loaded(r, true));
    case CompareExchange =>
      Sole(s, now);
      MoveSole(now, Tail);
      Carried(Apply(s, a), Tail);
  }

  lemma StepKeepsCustody(s: State, a: Action)
    requires Custody(s) && Enabled(s, a) && Disciplined(a)
    ensures Custody(Apply(s, a))
  {
    match a
    case Dequeue => Carried(Apply(s, a), Body);
    case RunHandler => Sole(s, Tail);
    case Restart => Carried(Apply(s, a), MustSchedule);
    case Schedule => Sole(s, MustSchedule);
    case Load => FlagStep(s, a);
    case Reload(r, p) => FlagStep(s, a);
    case ScheduleAgain => FlagStep(s, a);
    case CompareExchange => FlagStep(s, a);
    case _ => BodyStep(s, a);
  }

  ghost predicate Legal(s: State, run: seq<Action>)
    decreases |run|
  {
    run == [] || (Enabled(s, run[0]) && Legal(Apply(s, run[0]), run[1..]))
  }

  ghost function After(s: State, run: seq<Action>): State
    requires Legal(s, run)
    decreases |run|
  {
    if run == [] then s else After(Apply(s, run[0]), run[1..])
  }

  lemma {:induction false} RunKeepsCustody(s: State, run: seq<Action>)
    requires Custody(s) && Legal(s, run) && (forall a <- run :: Disciplined(a))
    ensures Custody(After(s, run))
    decreases |run|
  {
    if run != [] {
      assert run[0] in run;
      StepKeepsCustody(s, run[0]);
      RunKeepsCustody(Apply(s, run[0]), run[1..]);
    }
  }

  /** Threads that are executing the worker or carrying it to or from the run queue. */
  function Carriers(s: State): nat
  {
    |s.threads| - s.threads[Tail]
  }

  /** In every disciplined run, including Reschedule with its Paused flag: the worker is
      queued or carried at most once, exactly while Running is set; no Restart is ever
      ignored; and a live worker is never left without somebody who can go on. */
  lemma ScheduledExactlyOnce(run: seq<Action>)
    requires Legal(Fresh(), run) && (forall a <- run :: Disciplined(a))
    ensures var s := After(Fresh(), run);
            && s.queued + Carriers(s) <= 1
            && (!s.finished ==> (s.running <==> s.queued + Carriers(s) == 1))
            && s.lost == 0 && s.rights <= 1
            && (s.rights > 0 ==> !s.running)
            && (!s.finished ==> exists a :: Disciplined(a) && Enabled(s, a))
  {
    RunKeepsCustody(Fresh(), run);
    var s := After(Fresh(), run);
    if !s.finished {
      if s.rights > 0 { assert Disciplined(Restart) && Enabled(s, Restart); }
      else if s.queued > 0 { assert Disciplined(Dequeue) && Enabled(s, Dequeue); }
      else {
        var pc :| s.threads == multiset{pc} && ThreadOk(s, pc);
        assert pc in s.threads;
        var a := match pc
          case Body => (match s.point case Plain => YieldWith case PauseSet => YieldPaused case Rescheduled => ClearPause)
          case Yielded => Load
          case Loaded(_, p) => if p then ScheduleAgain else CompareExchange
          case Tail => RunHandler
          case MustSchedule => Schedule;
        assert Disciplined(a) && Enabled(s, a);
      }
    }
  }

  // ---------------------------------------------------------------------
  // Every resumption was asked for, and every request is honoured
  // ---------------------------------------------------------------------

  /** The running code may yield, reschedule itself or finish, a queued worker may be taken, and
      whoever has the right may restart it. */
  lemma AlwaysOpen(s: State)
    requires Custody(s) && !s.finished
    ensures Body in s.threads && s.point.Plain? ==> Enabled(s, YieldWith) && Enabled(s, SetPause) && Enabled(s, Finish)
    ensures Body in s.threads && s.point.PauseSet? ==> Enabled(s, YieldPaused)
    ensures Body in s.threads && s.point.Rescheduled? ==> Enabled(s, ClearPause)
    ensures (s.queued > 0 ==> Enabled(s, Dequeue)) && (s.rights > 0 ==> Enabled(s, Restart))
  {
  }

  /** How often the worker was taken from the run queue. */
  function Resumptions(run: seq<Action>): nat
  {
    if run == [] then 0 else (if run[0].Dequeue? then 1 else 0) + Resumptions(run[1..])
  }

  /** How often it was restarted, or asked itself to be rescheduled. */
  function Requests(run: seq<Action>): nat
  {
    if run == [] then 0 else (if run[0].Restart? || run[0].YieldPaused? then 1 else 0) + Requests(run[1..])
  }

  function Restarts(run: seq<Action>): nat
  {
    if run == [] then 0 else (if run[0].Restart? then 1 else 0) + Restarts(run[1..])
  }

  function Yields(run: seq<Action>): nat
  {
    if run == [] then 0 else (if run[0].YieldWith? then 1 else 0) + Yields(run[1..])
  }

  /** Requests on their way to the run queue, or in it. */
  function Due(s: State): nat
  {
    s.queued + s.threads[MustSchedule] +
    if s.point.Rescheduled? then s.threads[Yielded] + s.threads[Loaded(true, true)] else 0
  }

  /** Rights to resume that exist or that an installed handler will give away. */
  function Rights(s: State): nat
  {
    s.rights + if s.handler then 1 else 0
  }

  /** What a single thread is due for. */
  function DueOf(pc: Pc, point: Point): nat
  {
    if pc == MustSchedule || (point.Rescheduled? && (pc == Yielded || pc == Loaded(true, true))) then 1 else 0
  }

  lemma DueOfSole(s: State, pc: Pc)
    requires s.threads == multiset{pc}
    ensures Due(s) == s.queued + DueOf(pc, s.point)
  {
  }

  lemma DueOfNone(s: State)
    requires s.threads == multiset{}
    ensures Due(s) == s.queued
  {
  }

  lemma CarriedPays(s: State, a: Action, pc: Pc, to: Pc)
    requires Custody(s) && Enabled(s, a) && Disciplined(a) && pc in s.threads && Apply(s, a).threads == multiset{to}
    ensures Due(Apply(s, a)) == Apply(s, a).queued + DueOf(to, Apply(s, a).point) && Due(s) == DueOf(pc, s.point)
  {
    Sole(s, pc);
    DueOfSole(s, pc);
    DueOfSole(Apply(s, a), to);
  }

  lemma BodyPays(s: State, a: Action)
    requires Custody(s) && Enabled(s, a) && (a.YieldWith? || a.SetPause? || a.YieldPaused? || a.ClearPause? || a.Finish?)
    ensures Due(Apply(s, a)) == Due(s) + if a.YieldPaused? then 1 else 0
  {
    Sole(s, Body);
    MoveSole(Body, Yielded);
    if a.Finish? {
      DueOfSole(s, Body);
      DueOfNone(Apply(s, a));
    } else {
      CarriedPays(s, a, Body, if a.YieldWith? || a.YieldPaused? then Yielded else Body);
    }
  }

  lemma LoadPays(s: State, pc: Pc, t: State)
    requires Custody(s) && pc in s.threads && (pc.Yielded? || pc.Loaded?)
    requires t == s.(threads := Move(s.threads, pc, Loaded(s.running, s.paused)))
    ensures Due(t) == Due(s)
  {
    Sole(s, pc);
    MoveSole(pc, Loaded(s.running, s.paused));
    DueOfSole(s, pc);
    DueOfSole(t, Loaded(s.running, s.paused));
  }

  lemma AgainPays(s: State)
    requires Custody(s) && Enabled(s, ScheduleAgain)
    ensures Due(Apply(s, ScheduleAgain)) == Due(s)
  {
    var r :| Loaded(r, true) in s.threads;
    Sole(s, Loaded(r, true));
    DueOfSole(s, Loaded(r, true));
    DueOfNone(Apply(s, ScheduleAgain));
  }

  lemma ExchangePays(s: State)
    requires Custody(s) && Enabled(s, CompareExchange)
    ensures Due(Apply(s, CompareExchange)) == Due(s)
  {
    var now := Loaded(s.running, s.paused);
    Sole(s, now);
    MoveSole(now, Tail);
    CarriedPays(s, CompareExchange, now, Tail);
  }

  lemma StepPays(s: State, a: Action)
    requires Custody(s) && Enabled(s, a) && Disciplined(a)
    ensures Due(Apply(s, a)) + (if a.Dequeue? then 1 else 0) == Due(s) + (if a.Restart? || a.YieldPaused? then 1 else 0)
  {
    match a
    case Dequeue =>
      DueOfNone(s);
      DueOfSole(Apply(s, a), Body);
    case RunHandler =>
      Sole(s, Tail);
      DueOfSole(s, Tail);
      DueOfNone(Apply(s, a));
    case Restart =>
      DueOfNone(s);
      DueOfSole(Apply(s, a), MustSchedule);
    case Schedule =>
      Sole(s, MustSchedule);
      DueOfSole(s, MustSchedule);
      DueOfNone(Apply(s, a));
    case Load => LoadPays(s, Yielded, Apply(s, a));
    case Reload(r, p) => LoadPays(s, Loaded(r, p), Apply(s, a));
    case ScheduleAgain => AgainPays(s);
    case CompareExchange => ExchangePays(s);
    case _ => BodyPays(s, a);
  }

  lemma RightsPay(s: State, a: Action)
    requires Custody(s) && Enabled(s, a) && Disciplined(a)
    ensures Rights(Apply(s, a)) + (if a.Restart? then 1 else 0) == Rights(s) + (if a.YieldWith? then 1 else 0)
  {
    if pc :| pc in s.threads {
      Sole(s, pc);
    }
  }

  lemma {:induction false} RunPays(s: State, run: seq<Action>)
    requires Custody(s) && Legal(s, run) && (forall a <- run :: Disciplined(a))
    ensures Due(After(s, run)) + Resumptions(run) == Due(s) + Requests(run)
    ensures Rights(After(s, run)) + Restarts(run) == Rights(s) + Yields(run)
    decreases |run|
  {
    if run != [] {
      assert run[0] in run;
      StepPays(s, run[0]);
      RightsPay(s, run[0]);
      StepKeepsCustody(s, run[0]);
      RunPays(Apply(s, run[0]), run[1..]);
    }
  }

  /** Over every disciplined run: the worker is resumed once for its start, once for every
      Restart and once for every Reschedule, except for what is still due; and every yield
      gives away one right, which is used by one Restart or still open. */
  lemma ResumedAsAsked(run: seq<Action>)
    requires Legal(Fresh(), run) && forall a <- run :: Disciplined(a)
    ensures Resumptions(run) + Due(After(Fresh(), run)) == 1 + Requests(run)
    ensures Yields(run) == Restarts(run) + Rights(After(Fresh(), run))
  {
    RunPays(Fresh(), run);
  }

  // ---------------------------------------------------------------------
  // Why the discipline is needed
  // ---------------------------------------------------------------------

  ghost predicate Stuck(s: State)
  {
    !s.finished && forall a :: !Enabled(s, a)
  }

  lemma Prepend(s: State, a: Action, run: seq<Action>)
    requires Enabled(s, a) && Legal(Apply(s, a), run)
    ensures Legal(s, [a] + run) && After(s, [a] + run) == After(Apply(s, a), run)
  {
    assert ([a] + run)[1..] == run;
  }

  function Race(): seq<Action>
  {
    [PublishEarly] + ([Restart] + ([YieldBare] + ([Load] + ([CompareExchange] + ([RunHandler] + [])))))
  }

  /** A right given away before the yield can be used while Running is still set.  The
      Restart is then ignored and the worker parks with nobody left to resume it. */
  lemma EarlyPublicationCanStrand(s: State)
    requires Custody(s) && Body in s.threads && s.point.Plain?
    ensures Legal(s, Race()) && Stuck(After(s, Race())) && After(s, Race()).lost == 1
  {
    Sole(s, Body);
    MoveSole(Body, Yielded);
    MoveSole(Yielded, Loaded(true, false));
    MoveSole(Loaded(true, false), Tail);
    var s2 := Apply(Apply(s, PublishEarly), Restart);
    var s3 := Apply(s2, YieldBare);
    var s4 := Apply(s3, Load);
    var s5 := Apply(s4, CompareExchange);
    Prepend(s5, RunHandler, []);
    Prepend(s4, CompareExchange, [RunHandler] + []);
    Prepend(s3, Load, [CompareExchange] + ([RunHandler] + []));
    Prepend(s2, YieldBare, [Load] + ([CompareExchange] + ([RunHandler] + [])));
    Prepend(Apply(s, PublishEarly), Restart, [YieldBare] + ([Load] + ([CompareExchange] + ([RunHandler] + []))));
    Prepend(s, PublishEarly, [Restart] + ([YieldBare] + ([Load] + ([CompareExchange] + ([RunHandler] + [])))));
  }
}
