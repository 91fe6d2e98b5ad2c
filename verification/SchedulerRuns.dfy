/** What the scheduler's steps add up to: every event has one outcome, and only a thread that was ready
    is ever dispatched. */
module SchedulerRuns {
  import opened RunQueues
  import opened Scheduling

  // ----- one outcome -----

  /** The queues say where every thread is. */
  lemma PlaceUnique(qs: Queues, place: Places, place': Places, x: int)
    requires Placed(qs, place, x) && Placed(qs, place', x)
    ensures place == place'
  {
    PlaceWithin(qs, place, place', x);
    PlaceWithin(qs, place', place, x);
    assert place.Keys == place'.Keys;
  }

  lemma PlaceWithin(qs: Queues, place: Places, place': Places, x: int)
    requires Placed(qs, place, x) && Placed(qs, place', x)
    ensures forall t :: t in place ==> t in place' && place'[t] == place[t]
  {
    forall t | t in place ensures t in place' && place'[t] == place[t]
    {
      var w := place[t];
      if w.Running? {
        assert RunningAgrees(qs, place', w.cpu);
      } else {
        assert ListAgrees(qs, place, w) && ListAgrees(qs, place', w);
        assert t in ListOf(qs, w);
      }
    }
  }

  lemma StealUnique(idles: seq<Tid>, s: Snapshot, a: Snapshot, b: Snapshot, c: nat, turn: nat, now: nat)
    requires StealStep(s, a, c, turn, now) && StealStep(s, b, c, turn, now) && SnapOk(idles, a, -1)
    requires SnapOk(idles, b, -1)
    ensures a == b
  {
    hide Raided, Imbalance, SameLengths, Balanced, Accounted, Placed, Elapsed;
    assert a.queues == b.queues;
    PlaceUnique(a.queues, a.place, b.place, -1);
    assert a.threads.Keys == b.threads.Keys;
    forall t | t in a.threads ensures a.threads[t] == b.threads[t]
    {
      if t in s.place {
        assert StolenThread(s.threads, s.place, a.threads, a.place, c, t) &&
          StolenThread(s.threads, s.place, b.threads, b.place, c, t);
      } else {
        assert t in s.threads.Keys;
      }
    }
  }

  lemma PruneUnique(idles: seq<Tid>, s: Snapshot, a: Snapshot, b: Snapshot, c: nat, now: nat)
    requires PruneStep(s, a, c, now) && PruneStep(s, b, c, now) && SnapOk(idles, a, c) && SnapOk(idles, b, c)
    ensures a == b
  {
    hide PrunedQueue, Accounted, Placed, Woken;
    PlaceUnique(a.queues, a.place, b.place, c);
    assert a.threads.Keys == b.threads.Keys == s.threads.Keys;
    forall t | t in a.threads ensures a.threads[t] == b.threads[t]
    {
      if t !in s.queues[c].blocked { assert t in s.threads.Keys; }
    }
  }

  lemma PromoteUnique(idles: seq<Tid>, s: Snapshot, a: Snapshot, b: Snapshot, c: nat, now: nat)
    requires PromoteStep(s, a, c, now) && PromoteStep(s, b, c, now) && SnapOk(idles, a, c) && SnapOk(idles, b, c)
    ensures a == b
  {
    hide PromotedLists, FirstsPromoted, Accounted, Placed, Stale, Quantum, Elapsed;
    PlaceUnique(a.queues, a.place, b.place, c);
    assert a.threads.Keys == b.threads.Keys;
    forall t | t in a.threads ensures a.threads[t] == b.threads[t]
    {
      if Elapsed(now, s.queues[c].lastPromotion) > PROMOTE_FREQUENCY {
        assert t in s.threads.Keys;
        if t in s.place {
          assert MaybePromoted(s.threads, s.place, a.threads, a.place, c, now, NUM_PRIORITIES, t);
          assert MaybePromoted(s.threads, s.place, b.threads, b.place, c, now, NUM_PRIORITIES, t);
        }
      }
    }
  }

  lemma DispatchUnique(s: Snapshot, a: Snapshot, b: Snapshot, c: nat, now: nat)
    requires DispatchStep(s, a, c, now) && DispatchStep(s, b, c, now)
    ensures a == b
  {
    var p: nat :| Foremost(s.queues[c].ready, p) && SwitchStep(s, a, c, p, now);
    var r: nat :| Foremost(s.queues[c].ready, r) && SwitchStep(s, b, c, r, now);
    assert p == r;
  }

  /** The scheduler's run on a CPU has one outcome. */
  lemma TimerUnique(idles: seq<Tid>, s: Stage, c: nat, remaining: nat, now: nat,
                    a1: Snapshot, a2: Snapshot, a3: Snapshot, a4: Snapshot, a: Stage,
                    b1: Snapshot, b2: Snapshot, b3: Snapshot, b4: Snapshot, b: Stage)
    requires TimerStep(idles, s, c, remaining, now, a1, a2, a3, a4, a)
    requires TimerStep(idles, s, c, remaining, now, b1, b2, b3, b4, b)
    ensures a == b
  {
    hide StealStep, PruneStep, PromoteStep, DispatchStep, SnapOk, Departures, Releases, MostUrgent;
    StealUnique(idles, s.now, a1, b1, c, s.turn, now);
    RequeueUnique(a1, a2, b2, c, remaining);
    PruneUnique(idles, a2, a3, b3, c, now);
    PromoteUnique(idles, a3, a4, b4, c, now);
    DispatchUnique(a4, a.now, b.now, c, now);
  }

  lemma RequeueUnique(s: Snapshot, a: Snapshot, b: Snapshot, c: nat, remaining: nat)
    requires RequeueStep(s, a, c, remaining) && RequeueStep(s, b, c, remaining)
    ensures a == b
  {
    hide WithList;
  }

  /** Every event has one outcome. */
  lemma EventUnique(idles: seq<Tid>, s: Stage, e: Event, a: Stage, b: Stage)
    requires EventStep(idles, s, e, a) && EventStep(idles, s, e, b)
    ensures a == b
  {
    hide TimerStep, WithList, Quantum;
    if Accepted(idles, s, e) && e.Timer? {
      var a1: Snapshot, a2: Snapshot, a3: Snapshot, a4: Snapshot :|
        TimerStep(idles, s, e.c, e.remaining, e.now, a1, a2, a3, a4, a);
      var b1: Snapshot, b2: Snapshot, b3: Snapshot, b4: Snapshot :|
        TimerStep(idles, s, e.c, e.remaining, e.now, b1, b2, b3, b4, b);
      TimerUnique(idles, s, e.c, e.remaining, e.now, a1, a2, a3, a4, a, b1, b2, b3, b4, b);
    }
  }

  /** Runs of the same events from the same state go through the same states. */
  lemma {:induction false} RunUnique(idles: seq<Tid>, events: seq<Event>, s: seq<Stage>, t: seq<Stage>, n: nat)
    requires |s| == |t| == |events| + 1 && s[0] == t[0] && n <= |events|
    requires forall i :: 0 <= i < |events| ==> EventStep(idles, s[i], events[i], s[i + 1])
    requires forall i :: 0 <= i < |events| ==> EventStep(idles, t[i], events[i], t[i + 1])
    ensures s[n] == t[n]
  {
    hide EventStep;
    if n > 0 {
      RunUnique(idles, events, s, t, n - 1);
      assert EventStep(idles, s[n - 1], events[n - 1], s[n - 1 + 1]) &&
        EventStep(idles, t[n - 1], events[n - 1], t[n - 1 + 1]);
      EventUnique(idles, s[n - 1], events[n - 1], s[n], t[n]);
    }
  }

  // ----- only ready threads are dispatched -----

  /** The thread waits on a ready list, or is or becomes ready where it is. */
  ghost predicate Runnable(s: Snapshot, c: nat, now: nat, t: Tid)
  {
    && t in s.place && t in s.threads
    && (|| s.place[t].Ready?
        || (s.place[t] == Running(c) && s.threads[t].ready)
        || ((s.place[t] == Running(c) || s.place[t].Blocked?)
            && Woken(s.threads[t], now).ready && !s.threads[t].exited))
  }

  lemma BeforePromotion(s: Snapshot, s': Snapshot, c: nat, now: nat, t: Tid)
    requires PromoteStep(s, s', c, now) && t in s'.place && s'.place[t].Ready?
    ensures t in s.place && s.place[t].Ready?
  {
    hide PromotedLists, FirstsPromoted, Stale, Quantum, Elapsed;
    if s' != s {
      assert t in s.place.Keys;
      assert MaybePromoted(s.threads, s.place, s'.threads, s'.place, c, now, NUM_PRIORITIES, t);
    }
  }

  lemma BeforePruning(s: Snapshot, s': Snapshot, c: nat, now: nat, t: Tid)
    requires PruneStep(s, s', c, now) && Placed(s.queues, s.place, c) && t in s'.place && s'.place[t].Ready?
    ensures t in s.place
    ensures s.place[t].Ready? ||
      (s.place[t] == Blocked(c) && t in s.threads && Woken(s.threads[t], now).ready && !s.threads[t].exited)
  {
    hide PrunedQueue;
    if s.place[t] == Blocked(c) {
      assert ListAgrees(s.queues, s.place, Blocked(c)) && t in ListOf(s.queues, Blocked(c));
    }
  }

  lemma BeforeRequeue(s: Snapshot, s': Snapshot, c: nat, remaining: nat, now: nat, t: Tid)
    requires RequeueStep(s, s', c, remaining) && Placed(s.queues, s.place, -1) && t in s'.place && t in s'.threads
    requires s'.place[t].Ready? ||
      (s'.place[t] == Blocked(c) && Woken(s'.threads[t], now).ready && !s'.threads[t].exited)
    ensures Runnable(s, c, now, t)
  {
    assert RunningAgrees(s.queues, s.place, c);
  }

  lemma BeforeStealing(s: Snapshot, s': Snapshot, c: nat, turn: nat, now: nat, t: Tid)
    requires StealStep(s, s', c, turn, now) && Runnable(s', c, now, t)
    ensures Runnable(s, c, now, t)
  {
    hide Raided, Imbalance, SameLengths, Balanced, Elapsed;
    if s' != s {
      assert t in s.place.Keys;
      assert StolenThread(s.threads, s.place, s'.threads, s'.place, c, t);
    }
  }

  /** The thread that a run of the scheduler makes current was ready, or was woken by its timeout. */
  lemma DispatchedWasReady(idles: seq<Tid>, s: Stage, c: nat, remaining: nat, now: nat, s': Stage)
    requires c < |s.now.queues| && EventStep(idles, s, Timer(c, remaining, now), s')
    ensures c < |s'.now.queues| && Runnable(s.now, c, now, s'.now.queues[c].current)
  {
    hide TimerStep;
    var s1: Snapshot, s2: Snapshot, s3: Snapshot, s4: Snapshot :|
      TimerStep(idles, s, c, remaining, now, s1, s2, s3, s4, s');
    Backwards(idles, s, c, remaining, now, s1, s2, s3, s4, s');
  }

  lemma Backwards(idles: seq<Tid>, s: Stage, c: nat, remaining: nat, now: nat,
                  s1: Snapshot, s2: Snapshot, s3: Snapshot, s4: Snapshot, s': Stage)
    requires TimerStep(idles, s, c, remaining, now, s1, s2, s3, s4, s')
    ensures c < |s'.now.queues| && Runnable(s.now, c, now, s'.now.queues[c].current)
  {
    hide StealStep, RequeueStep, PruneStep, PromoteStep, Departures, Releases, MostUrgent, Accounted, Runnable, Placed;
    var p: nat :| Foremost(s4.queues[c].ready, p) && SwitchStep(s4, s'.now, c, p, now);
    var t := s4.queues[c].ready[p][0];
    BeforePromotion(s3, s4, c, now, t);
    BeforePruning(s2, s3, c, now, t);
    Known(idles, s2, c, t);
    BeforeRequeue(s1, s2, c, remaining, now, t);
    BeforeStealing(s.now, s1, c, s.turn, now, t);
  }

  lemma Known(idles: seq<Tid>, s: Snapshot, x: int, t: Tid)
    requires SnapOk(idles, s, x) && t in s.place
    ensures t in s.threads
  {
    assert ThreadOk(s.threads, s.place, idles, t);
  }
}
