module Wakers {

  /** Epoch-stamped wakers and the queues that hold them.

      A worker carries an epoch counter.  Issuing a waker advances the counter and
      stamps the waker with it; waking compares the stamp with the counter and
      advances the counter again on success.  Everything the locks rely on (one
      successful wake per waker, stale wakers are inert) follows from this. */

  type Worker = nat

  datatype Waker = Waker(ctx: Worker, epoch: nat)

  /** Epoch counter of every worker; a worker not mentioned is still at 0. */
  type Epochs = map<Worker, nat>

  function EpochOf(e: Epochs, w: Worker): nat
  {
    if w in e then e[w] else 0
  }

  function Advance(e: Epochs, w: Worker): Epochs
  {
    e[w := EpochOf(e, w) + 1]
  }

  /** The stamp still matches, so a wake through `k` would succeed. */
  predicate Live(e: Epochs, k: Waker)
  {
    EpochOf(e, k.ctx) == k.epoch
  }

  // ---------------------------------------------------------------------
  // Life of a waker over an arbitrary run
  // ---------------------------------------------------------------------

  datatype Event = Issue(w: Worker) | TryWake(k: Waker)

  /** All counters, plus every waker handed out so far. */
  datatype Registry = Registry(epochs: Epochs, issued: set<Waker>)

  predicate Issued(r: Registry)
  {
    forall k <- r.issued :: 1 <= k.epoch <= EpochOf(r.epochs, k.ctx)
  }

  function Step(r: Registry, ev: Event): Registry
  {
    match ev
    case Issue(w) =>
      var e := Advance(r.epochs, w);
      Registry(e, r.issued + {Waker(w, EpochOf(e, w))})
    case TryWake(k) =>
      if Live(r.epochs, k) then r.(epochs := Advance(r.epochs, k.ctx)) else r
  }

  function Run(r: Registry, evs: seq<Event>): Registry
    decreases |evs|
  {
    if evs == [] then r else Run(Step(r, evs[0]), evs[1..])
  }

  /** Only wakers that were handed out can be used. */
  predicate Legal(r: Registry, evs: seq<Event>)
    decreases |evs|
  {
    evs == [] ||
    ((evs[0].TryWake? ==> evs[0].k in r.issued) && Legal(Step(r, evs[0]), evs[1..]))
  }

  /** How often a wake through `k` succeeds during the run. */
  function Successes(r: Registry, evs: seq<Event>, k: Waker): nat
    decreases |evs|
  {
    if evs == [] then 0
    else (if evs[0] == TryWake(k) && Live(r.epochs, k) then 1 else 0) + Successes(Step(r, evs[0]), evs[1..], k)
  }

  lemma {:induction false} RunKeepsIssued(r: Registry, evs: seq<Event>)
    requires Issued(r) && Legal(r, evs)
    ensures Issued(Run(r, evs)) && r.issued <= Run(r, evs).issued
    decreases |evs|
  {
    if evs != [] {
      RunKeepsIssued(Step(r, evs[0]), evs[1..]);
    }
  }

  /** A stale waker never becomes usable again. */
  lemma {:induction false} StaleForever(r: Registry, evs: seq<Event>, k: Waker)
    requires Issued(r) && Legal(r, evs) && k in r.issued && !Live(r.epochs, k)
    ensures !Live(Run(r, evs).epochs, k) && Successes(r, evs, k) == 0
    decreases |evs|
  {
    if evs != [] {
      StaleForever(Step(r, evs[0]), evs[1..], k);
    }
  }

  /** Exactly when a usable waker is still usable after a run: no later waker was
      issued for the same worker and this one was not used.  Uses of older wakers
      of the same worker do not matter. */
  lemma {:induction false} UsableIff(r: Registry, evs: seq<Event>, k: Waker)
    requires Issued(r) && Legal(r, evs) && k in r.issued && Live(r.epochs, k)
    ensures Live(Run(r, evs).epochs, k) <==> Issue(k.ctx) !in evs && TryWake(k) !in evs
    decreases |evs|
  {
    if evs != [] {
      var r' := Step(r, evs[0]);
      assert evs == [evs[0]] + evs[1..];
      if Live(r'.epochs, k) {
        UsableIff(r', evs[1..], k);
      } else {
        StaleForever(r', evs[1..], k);
      }
    }
  }

  /** Each waker succeeds at most once, whoever holds copies of it. */
  lemma {:induction false} AtMostOneSuccess(r: Registry, evs: seq<Event>, k: Waker)
    requires Issued(r) && Legal(r, evs) && k in r.issued
    ensures Successes(r, evs, k) <= 1
    decreases |evs|
  {
    if evs != [] {
      var r' := Step(r, evs[0]);
      if evs[0] == TryWake(k) && Live(r.epochs, k) {
        StaleForever(r', evs[1..], k);
      } else {
        AtMostOneSuccess(r', evs[1..], k);
      }
    }
  }

  /** Only the newest waker of a worker can succeed. */
  lemma OnlyNewest(r: Registry, evs: seq<Event>, k: Waker, other: Waker)
    requires Issued(r) && Legal(r, evs)
    requires k in Run(r, evs).issued && other in Run(r, evs).issued
    requires k.ctx == other.ctx && Live(Run(r, evs).epochs, k)
    ensures other.epoch <= k.epoch && (Live(Run(r, evs).epochs, other) <==> other == k)
  {
    RunKeepsIssued(r, evs);
  }

  // ---------------------------------------------------------------------
  // Wait queues
  // ---------------------------------------------------------------------

  /** Outcome of a notification: what is left queued, the counters, who was resumed. */
  datatype Notified = Notified(rest: seq<Waker>, epochs: Epochs, resumed: seq<Worker>)

  /** Pop wakers until one of them succeeds. */
  function AfterNotifyOne(q: seq<Waker>, e: Epochs): Notified
  {
    if q == [] then Notified([], e, [])
    else if Live(e, q[0]) then Notified(q[1..], Advance(e, q[0].ctx), [q[0].ctx])
    else AfterNotifyOne(q[1..], e)
  }

  /** Pop and wake everything. */
  function AfterNotifyAll(q: seq<Waker>, e: Epochs): Notified
  {
    if q == [] then Notified([], e, [])
    else if Live(e, q[0]) then
      var n := AfterNotifyAll(q[1..], Advance(e, q[0].ctx));
      n.(resumed := [q[0].ctx] + n.resumed)
    else AfterNotifyAll(q[1..], e)
  }

  /** NotifyOne skips exactly the timed-out prefix: it resumes the first live waiter
      and keeps everything behind it, or empties a queue that holds no live waiter. */
  lemma {:induction false} NotifyOneSkipsStale(q: seq<Waker>, e: Epochs, i: nat)
    requires i <= |q| && (forall j | 0 <= j < i :: !Live(e, q[j])) && (i < |q| ==> Live(e, q[i]))
    ensures AfterNotifyOne(q, e) ==
            if i < |q| then Notified(q[i + 1..], Advance(e, q[i].ctx), [q[i].ctx]) else Notified([], e, [])
  {
    if i > 0 {
      NotifyOneSkipsStale(q[1..], e, i - 1);
    }
  }

  /** Queues of untimed waiters: every entry usable, no worker queued twice. */
  predicate AllLive(q: seq<Waker>, e: Epochs)
  {
    forall i | 0 <= i < |q| :: Live(e, q[i])
  }

  predicate DistinctWorkers(q: seq<Waker>)
  {
    forall i, j | 0 <= i < j < |q| :: q[i].ctx != q[j].ctx
  }

  /** The workers waiting in a queue. */
  function Queued(q: seq<Waker>): set<Worker>
  {
    set k | k in q :: k.ctx
  }

  lemma QueuedAppend(q: seq<Waker>, k: Waker)
    ensures Queued(q + [k]) == Queued(q) + {k.ctx}
  {
    assert forall x :: x in q + [k] <==> x in q || x == k;
    assert k in q + [k];
  }

  lemma QueuedPop(q: seq<Waker>)
    requires q != [] && DistinctWorkers(q)
    ensures Queued(q[1..]) == Queued(q) - {q[0].ctx} && q[0].ctx in Queued(q)
  {
    assert q[0] in q;
    assert forall x :: x in q <==> x in q[1..] || x == q[0];
    forall x | x in q[1..] ensures x.ctx != q[0].ctx
    {
      var i :| 0 <= i < |q[1..]| && q[1..][i] == x;
      assert q[i + 1] == x;
    }
  }

  /** NotifyAll resumes every waiter of an untimed queue, in queue order, and touches
      nobody else's counter. */
  lemma {:induction false} NotifyAllResumesAll(q: seq<Waker>, e: Epochs)
    requires AllLive(q, e) && DistinctWorkers(q)
    ensures var n := AfterNotifyAll(q, e);
            && n.rest == [] && |n.resumed| == |q|
            && (forall i | 0 <= i < |q| :: n.resumed[i] == q[i].ctx)
            && (set w | w in n.resumed) == Queued(q)
            && forall w: Worker | w !in Queued(q) :: EpochOf(n.epochs, w) == EpochOf(e, w)
  {
    if q != [] {
      NotifyAllResumesAll(q[1..], Advance(e, q[0].ctx));
      QueuedPop(q);
      var rest := AfterNotifyAll(q[1..], Advance(e, q[0].ctx)).resumed;
      assert forall w :: w in [q[0].ctx] + rest <==> w == q[0].ctx || w in rest;
    }
  }

  /** The workers whose waker in the queue is live, in queue order. */
  function LiveOf(q: seq<Waker>, e: Epochs): seq<Worker>
  {
    if q == [] then [] else (if Live(e, q[0]) then [q[0].ctx] else []) + LiveOf(q[1..], e)
  }

  lemma {:induction false} LiveOfOthers(q: seq<Waker>, e: Epochs, w: Worker)
    requires w !in Queued(q)
    ensures LiveOf(q, Advance(e, w)) == LiveOf(q, e) && w !in LiveOf(q, e)
  {
    if q != [] {
      assert q[0] in q && forall k <- q[1..] :: k in q;
      LiveOfOthers(q[1..], e, w);
    }
  }

  /** With timed-out wakers among them: exactly the workers with a live waker are resumed, in
      queue order, and only their counters move. */
  lemma {:induction false} NotifyAllSkipsStale(q: seq<Waker>, e: Epochs)
    requires DistinctWorkers(q)
    ensures var n := AfterNotifyAll(q, e);
            && n.rest == [] && n.resumed == LiveOf(q, e)
            && forall w: Worker :: EpochOf(n.epochs, w) == EpochOf(e, w) + if w in n.resumed then 1 else 0
  {
    if q != [] {
      QueuedPop(q);
      LiveOfOthers(q[1..], e, q[0].ctx);
      NotifyAllSkipsStale(q[1..], if Live(e, q[0]) then Advance(e, q[0].ctx) else e);
    }
  }

  /** The workers as the wakers see them: counters, and the restarts issued so far. */
  class Pool {
    var epochs: Epochs
    var restarted: seq<Worker>

    constructor ()
      ensures epochs == map[] && restarted == []
    {
      epochs := map[];
      restarted := [];
    }

    method CreateWaker(w: Worker) returns (k: Waker)
      modifies this
      ensures epochs == Advance(old(epochs), w) && k == Waker(w, EpochOf(epochs, w))
      ensures Live(epochs, k) && restarted == old(restarted)
    {
      epochs := Advance(epochs, w);
      k := Waker(w, EpochOf(epochs, w));
    }

    method Wake(k: Waker) returns (ok: bool)
      modifies this
      ensures ok == Live(old(epochs), k)
      ensures ok ==> epochs == Advance(old(epochs), k.ctx) && restarted == old(restarted) + [k.ctx]
      ensures !ok ==> epochs == old(epochs) && restarted == old(restarted)
    {
      ok := EpochOf(epochs, k.ctx) == k.epoch;
      if ok {
        epochs := Advance(epochs, k.ctx);
        restarted := restarted + [k.ctx];
      }
    }
  }

  class WaitQueue {
    var slist: seq<Waker>

    constructor ()
      ensures slist == []
    {
      slist := [];
    }

    /** The queueing half of SuspendAndWait; the suspension itself is a step of the
        systems built on top. */
    method Enqueue(pool: Pool, w: Worker)
      modifies this, pool
      ensures pool.epochs == Advance(old(pool.epochs), w) && pool.restarted == old(pool.restarted)
      ensures slist == old(slist) + [Waker(w, EpochOf(pool.epochs, w))]
    {
      var k := pool.CreateWaker(w);
      slist := slist + [k];
    }

    method NotifyOne(pool: Pool)
      modifies this, pool
      ensures var n := AfterNotifyOne(old(slist), old(pool.epochs));
              && slist == n.rest && pool.epochs == n.epochs
              && pool.restarted == old(pool.restarted) + n.resumed
    {
      var woken := false;
      while slist != [] && !woken
        invariant !woken ==> pool.epochs == old(pool.epochs) && pool.restarted == old(pool.restarted)
                             && AfterNotifyOne(slist, pool.epochs) == AfterNotifyOne(old(slist), old(pool.epochs))
        invariant woken ==> var n := AfterNotifyOne(old(slist), old(pool.epochs));
                            && slist == n.rest && pool.epochs == n.epochs
                            && pool.restarted == old(pool.restarted) + n.resumed
        decreases |slist|
      {
        var k := slist[0];
        slist := slist[1..];
        woken := pool.Wake(k);
      }
    }

    method NotifyAll(pool: Pool)
      modifies this, pool
      ensures var n := AfterNotifyAll(old(slist), old(pool.epochs));
              && slist == n.rest && pool.epochs == n.epochs
              && pool.restarted == old(pool.restarted) + n.resumed
    {
      ghost var all := AfterNotifyAll(slist, pool.epochs);
      while slist != []
        invariant var n := AfterNotifyAll(slist, pool.epochs);
                  && n.rest == all.rest && n.epochs == all.epochs
                  && pool.restarted + n.resumed == old(pool.restarted) + all.resumed
        decreases |slist|
      {
        ghost var n := AfterNotifyAll(slist, pool.epochs);
        ghost var before := pool.restarted;
        var k := slist[0];
        slist := slist[1..];
        var ok := pool.Wake(k);
        assert ok ==> before + ([k.ctx] + AfterNotifyAll(slist, pool.epochs).resumed)
                      == (before + [k.ctx]) + AfterNotifyAll(slist, pool.epochs).resumed;
      }
    }
  }

  // ---------------------------------------------------------------------
  // Counting steps
  // ---------------------------------------------------------------------

  /** One unit of the first component outweighs everything up to `cap` in the second. */
  lemma {:induction false} Weighted(a: nat, b: nat, cap: nat)
    requires a < b
    ensures a * (cap + 1) + cap < b * (cap + 1)
  {
    if a + 1 < b {
      Weighted(a, b - 1, cap);
    }
    assert b * (cap + 1) == (b - 1) * (cap + 1) + (cap + 1);
  }
}
