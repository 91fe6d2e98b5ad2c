/** What the scheduler does for a thread, in numbers: who wakes and who sleeps on, how long a slice is, who is
    promoted, and whose turn it is to steal. */
module SchedulerPolicy {
  import opened Bits
  import opened Common
  import opened RunQueues
  import opened Scheduling

  // ----- waking -----

  ghost predicate Asleep(s: Snapshot, c: nat, t: Tid)
  {
    t in s.place && s.place[t] == Blocked(c) && t in s.threads && !s.threads[t].exited
  }

  /** A blocked thread is not touched until its CPU prunes. */
  lemma BeforePrune(idles: seq<Tid>, s: Snapshot, s1: Snapshot, s2: Snapshot, c: nat, turn: nat, remaining: nat,
                    now: nat, t: Tid)
    requires StealStep(s, s1, c, turn, now) && RequeueStep(s1, s2, c, remaining) && SnapOk(idles, s1, -1)
    requires SnapOk(idles, s2, c) && Asleep(s, c, t)
    ensures t in s2.threads && s2.threads[t] == s.threads[t] && t in s2.place && s2.place[t] == Blocked(c)
    ensures t in s2.queues[c].blocked && t != s1.queues[c].current
  {
    hide Raided, Imbalance, SameLengths, Balanced, Elapsed, Accounted, Scheduler.Charged;
    if s1 != s {
      assert StolenThread(s.threads, s.place, s1.threads, s1.place, c, t);
    }
    assert RunningAgrees(s1.queues, s1.place, c);
    assert ListAgrees(s2.queues, s2.place, Blocked(c));
  }

  /** A thread that sits on its list or has just become ready, over promotion and dispatch. */
  lemma AfterPrune(s3: Snapshot, s4: Snapshot, s': Snapshot, c: nat, now: nat, t: Tid)
    requires PromoteStep(s3, s4, c, now) && DispatchStep(s4, s', c, now) && t in s3.place && t in s3.threads
    requires Placed(s4.queues, s4.place, c)
    ensures s3.place[t] == Blocked(c) && s4.queues[c].current != t ==>
      t in s'.place && s'.place[t] == Blocked(c) && t in s'.threads && s'.threads[t] == s3.threads[t]
    ensures s3.place[t].Ready? && s3.place[t].cpu == c && s3.threads[t].priority == s3.place[t].priority ==>
      && t in s'.place && t in s'.threads
      && (s'.place[t] == Running(c) || s'.place[t] == Ready(c, s'.threads[t].priority))
      && s3.threads[t].priority - 1 <= s'.threads[t].priority <= s3.threads[t].priority
      && s'.threads[t].ready == s3.threads[t].ready && s'.threads[t].wakeTimeout == s3.threads[t].wakeTimeout
  {
    hide PromotedLists, FirstsPromoted, Stale, Quantum, Elapsed, Placed;
    if s4 != s3 {
      assert MaybePromoted(s3.threads, s3.place, s4.threads, s4.place, c, now, NUM_PRIORITIES, t);
    }
    var p: nat :| Foremost(s4.queues[c].ready, p) && SwitchStep(s4, s', c, p, now);
  }

  /** A run of the scheduler makes every blocked thread of its CPU run or wait to that is ready or whose timeout
      has passed; the timeout is then zero. */
  lemma TimerWakes(idles: seq<Tid>, s: Stage, c: nat, remaining: nat, now: nat, s': Stage, t: Tid)
    requires c < |s.now.queues| && EventStep(idles, s, Timer(c, remaining, now), s') && Asleep(s.now, c, t)
    requires s.now.threads[t].ready || 0 < s.now.threads[t].wakeTimeout <= now
    ensures t in s'.now.threads && s'.now.threads[t].ready && t in s'.now.place
    ensures s.now.threads[t].wakeTimeout <= now ==> s'.now.threads[t].wakeTimeout == 0
    ensures s'.now.place[t] == Running(c) || s'.now.place[t] == Ready(c, s'.now.threads[t].priority)
    ensures s.now.threads[t].priority - 1 <= s'.now.threads[t].priority <= s.now.threads[t].priority
  {
    hide StealStep, RequeueStep, PruneStep, PromoteStep, DispatchStep, Departures, Releases, MostUrgent, SnapOk;
    var s1: Snapshot, s2: Snapshot, s3: Snapshot, s4: Snapshot :|
      TimerStep(idles, s, c, remaining, now, s1, s2, s3, s4, s');
    BeforePrune(idles, s.now, s1, s2, c, s.turn, remaining, now, t);
    PruneFrame(s2, s3, c, now);
    assert Decided(s2, s3, c, now, t);
    PlacedOf(idles, s4, c);
    AfterPrune(s3, s4, s'.now, c, now, t);
  }

  /** A blocked thread that is not ready sleeps on as it is while its timeout is zero or ahead. */
  lemma TimerSleeps(idles: seq<Tid>, s: Stage, c: nat, remaining: nat, now: nat, s': Stage, t: Tid)
    requires c < |s.now.queues| && EventStep(idles, s, Timer(c, remaining, now), s') && Asleep(s.now, c, t)
    requires !s.now.threads[t].ready && (s.now.threads[t].wakeTimeout == 0 || s.now.threads[t].wakeTimeout > now)
    ensures t in s'.now.place && s'.now.place[t] == Blocked(c)
    ensures t in s'.now.threads && s'.now.threads[t] == s.now.threads[t]
  {
    hide StealStep, RequeueStep, PruneStep, PromoteStep, DispatchStep, Departures, Releases, MostUrgent, SnapOk;
    var s1: Snapshot, s2: Snapshot, s3: Snapshot, s4: Snapshot :|
      TimerStep(idles, s, c, remaining, now, s1, s2, s3, s4, s');
    BeforePrune(idles, s.now, s1, s2, c, s.turn, remaining, now, t);
    PruneFrame(s2, s3, c, now);
    assert Decided(s2, s3, c, now, t);
    PlacedOf(idles, s4, c);
    NotCurrent(s.now, s1, s2, s3, s4, c, s.turn, remaining, now);
    AfterPrune(s3, s4, s'.now, c, now, t);
  }

  lemma PruneFrame(s: Snapshot, s': Snapshot, c: nat, now: nat)
    requires PruneStep(s, s', c, now)
    ensures c < |s.queues| && forall t :: t in s.queues[c].blocked ==> Decided(s, s', c, now, t)
  {
    hide PruneStep;
    assert c < |s.queues| by { PruneCpu(s, s', c, now); }
    PruneDecides(s, s', c, now);
  }

  lemma PruneCpu(s: Snapshot, s': Snapshot, c: nat, now: nat)
    requires PruneStep(s, s', c, now)
    ensures c < |s.queues| == |s'.queues| && s'.queues[c].current == s.queues[c].current
  {
    hide PrunedQueue, Pruned;
  }

  lemma PlacedOf(idles: seq<Tid>, s: Snapshot, x: int)
    requires SnapOk(idles, s, x)
    ensures Placed(s.queues, s.place, x)
  {
  }

  lemma NotCurrent(s: Snapshot, s1: Snapshot, s2: Snapshot, s3: Snapshot, s4: Snapshot, c: nat, turn: nat,
                   remaining: nat, now: nat)
    requires StealStep(s, s1, c, turn, now) && RequeueStep(s1, s2, c, remaining) && PruneStep(s2, s3, c, now)
    requires PromoteStep(s3, s4, c, now)
    ensures c < |s.queues| == |s1.queues| == |s4.queues| && s4.queues[c].current == s1.queues[c].current
  {
    hide Raided, Imbalance, SameLengths, Balanced, Elapsed, Scheduler.Charged, PruneStep, PromotedLists, FirstsPromoted,
         Promotions, Stolen;
    PruneCpu(s2, s3, c, now);
    RaidedLength(s.queues, c, |s.queues|);
  }

  // ----- slices -----

  /** The time slice of each priority in microseconds. */
  const SLICES: seq<nat> := [500, 1000, 2000, 4000, 8000, 16000, 32000, 64000]

  lemma Slices(p: nat)
    requires p < NUM_PRIORITIES
    ensures |SLICES| == NUM_PRIORITIES && Quantum(p) == SLICES[p]
    ensures p > 0 ==> SLICES[p] == 2 * SLICES[p - 1]
  {
    assert Pow2(0) == 1 && Pow2(1) == 2 && Pow2(2) == 4 && Pow2(3) == 8;
    assert Pow2(4) == 16 && Pow2(5) == 32 && Pow2(6) == 64 && Pow2(7) == 128;
  }

  /** A thread that used up its slice goes down one level, unless it is constant or at the last level above idle,
      and gets the whole slice of its level.  One that gave up the CPU keeps what is left and a sixteenth of its
      slice. */
  lemma ChargedExactly(th: Thread, remaining: nat)
    requires th.priority < NUM_PRIORITIES
    ensures var r := Scheduler.Charged(th, remaining);
      && (remaining == 0 && !th.constant && th.priority <= 5 ==>
            r == th.(priority := th.priority + 1, timeLeft := SLICES[th.priority + 1]))
      && (remaining == 0 && (th.constant || th.priority >= 6) ==> r == th.(timeLeft := SLICES[th.priority]))
      && (remaining > 0 ==> r == th.(timeLeft := remaining + SLICES[th.priority] / 16))
  {
    Slices(th.priority);
    if th.priority < 7 { Slices(th.priority + 1); }
  }

  /** The age of a thread: clock microseconds since it ran last, modulo the clock's 64 bits. */
  function Age(th: Thread, now: nat): int
  {
    if now >= th.lastRan then now - th.lastRan else now - th.lastRan + TWO_64
  }

  /** A thread is promoted when it has waited for more than two slices of its level, is not constant, and is at
      level 2 or below. */
  lemma StaleExactly(th: Thread, now: nat)
    requires th.priority < NUM_PRIORITIES && now < TWO_64 && th.lastRan < TWO_64
    ensures Stale(th, now) <==> !th.constant && th.priority >= 2 && Age(th, now) > 2 * SLICES[th.priority]
  {
    Slices(th.priority);
    assert Elapsed(now, th.lastRan) == Age(th, now);
  }

  /** Thread `k` of ready list `p` has waited for more than two slices of its level and may be promoted. */
  ghost predicate Overdue(s: Snapshot, c: nat, now: nat, p: nat, k: nat)
  {
    && c < |s.queues| && p < |s.queues[c].ready| && p < |SLICES| && k < |s.queues[c].ready[p]|
    && var t := s.queues[c].ready[p][k];
      t in s.threads && !s.threads[t].constant && p >= 2 && Age(s.threads[t], now) > 2 * SLICES[p]
  }

  ghost predicate FirstOverdue(s: Snapshot, c: nat, now: nat, p: nat, k: nat)
  {
    Overdue(s, c, now, p, k) && forall j: nat :: j < k ==> !Overdue(s, c, now, p, j)
  }

  ghost predicate ClocksOk(s: Snapshot, now: nat)
  {
    now < TWO_64 && forall t :: t in s.threads ==> s.threads[t].lastRan < TWO_64
  }

  lemma {:induction false} FirstStaleIs(l: seq<Tid>, threads: Threads, now: nat)
    ensures var k := FirstStale(l, threads, now);
      && (k < |l| ==> l[k] in threads && Stale(threads[l[k]], now))
      && forall j :: 0 <= j < k ==> !(l[j] in threads && Stale(threads[l[j]], now))
  {
    hide Stale;
    if l != [] {
      FirstStaleIs(l[1..], threads, now);
      assert forall j :: 1 <= j < |l| ==> l[j] == l[1..][j - 1];
    }
  }

  lemma ReadyHere(idles: seq<Tid>, s: Snapshot, c: nat, p: nat, k: nat)
    requires SnapOk(idles, s, c) && c < |s.queues| && p < |s.queues[c].ready| && k < |s.queues[c].ready[p]|
    ensures var t := s.queues[c].ready[p][k];
      t in s.place && s.place[t] == Ready(c, p) && t in s.threads && s.threads[t].priority == p
    ensures Distinct(s.queues[c].ready[p]) && |s.queues[c].ready| == NUM_PRIORITIES
  {
    var t := s.queues[c].ready[p][k];
    assert IsList(s.queues, Ready(c, p)) && ListAgrees(s.queues, s.place, Ready(c, p));
    assert t in ListOf(s.queues, Ready(c, p));
    assert ThreadOk(s.threads, s.place, idles, t);
  }

  lemma OverdueIsStale(idles: seq<Tid>, s: Snapshot, c: nat, now: nat, p: nat, k: nat)
    requires SnapOk(idles, s, c) && ClocksOk(s, now) && c < |s.queues| && p < |s.queues[c].ready|
    requires k < |s.queues[c].ready[p]|
    ensures var t := s.queues[c].ready[p][k]; t in s.threads && (Overdue(s, c, now, p, k) <==> Stale(s.threads[t], now))
  {
    hide SnapOk, Stale;
    ReadyHere(idles, s, c, p, k);
    StaleExactly(s.threads[s.queues[c].ready[p][k]], now);
  }

  lemma FirstOverdueIs(idles: seq<Tid>, s: Snapshot, c: nat, now: nat, p: nat, k: nat)
    requires SnapOk(idles, s, c) && ClocksOk(s, now) && c < |s.queues| && p < |s.queues[c].ready|
    requires k < |s.queues[c].ready[p]|
    ensures FirstOverdue(s, c, now, p, k) <==> k == FirstStale(s.queues[c].ready[p], s.threads, now)
  {
    hide SnapOk, Stale, Overdue, FirstStale, ClocksOk;
    var l := s.queues[c].ready[p];
    FirstStaleIs(l, s.threads, now);
    forall j: nat | j < |l| ensures l[j] in s.threads && (Overdue(s, c, now, p, j) <==> Stale(s.threads[l[j]], now))
    {
      OverdueIsStale(idles, s, c, now, p, j);
    }
  }

  predicate LastOf(qs: Queues, c: nat, p: nat, t: Tid)
  {
    && c < |qs| && p < |qs[c].ready| && qs[c].ready[p] != []
    && qs[c].ready[p][|qs[c].ready[p]| - 1] == t
  }

  /** When promotion is due, the first overdue thread of each list goes to the back of the list above, with that
      level's slice, and every other ready thread of the CPU stays as it is. */
  lemma PromotesFirst(idles: seq<Tid>, s: Snapshot, s': Snapshot, c: nat, now: nat, p: nat, k: nat)
    requires PromoteStep(s, s', c, now) && SnapOk(idles, s, c) && SnapOk(idles, s', c) && ClocksOk(s, now)
    requires p < |s.queues[c].ready| && k < |s.queues[c].ready[p]|
    requires (now - s.queues[c].lastPromotion) % TWO_64 > 100
    ensures var t := s.queues[c].ready[p][k];
      && t in s.threads && t in s'.threads && t in s'.place
      && (FirstOverdue(s, c, now, p, k) ==>
            && p >= 2 && s'.place[t] == Ready(c, p - 1)
            && s'.threads[t] == s.threads[t].(priority := p - 1, timeLeft := SLICES[p - 1])
            && LastOf(s'.queues, c, p - 1, t))
      && (!FirstOverdue(s, c, now, p, k) ==> s'.place[t] == Ready(c, p) && s'.threads[t] == s.threads[t])
  {
    hide SnapOk, Stale, FirstStale, FirstOverdue, Quantum, ClocksOk, PromoteStep, PromotedList;
    PromoteCpu(s, s', c, now);
    var t := s.queues[c].ready[p][k];
    ReadyHere(idles, s, c, p, k);
    FirstOverdueIs(idles, s, c, now, p, k);
    FirstStaleIs(s.queues[c].ready[p], s.threads, now);
    Promoted(s, s', c, now, t);
    Slices(p);
    if k == FirstStale(s.queues[c].ready[p], s.threads, now) {
      OverdueLevel(s.threads[t], now);
      Slices(p - 1);
      MovedUp(s.queues[c].ready, s.threads, now, p);
      OnList(idles, s', c, p - 1, t);
    } else {
      StaysOn(s.queues[c].ready, s.threads, now, p, k);
      OnList(idles, s', c, p, t);
    }
  }

  lemma Promoted(s: Snapshot, s': Snapshot, c: nat, now: nat, t: Tid)
    requires PromoteStep(s, s', c, now) && t in s.place && (now - s.queues[c].lastPromotion) % TWO_64 > 100
    ensures MaybePromoted(s.threads, s.place, s'.threads, s'.place, c, now, NUM_PRIORITIES, t)
    ensures |s'.queues| == |s.queues| && |s'.queues[c].ready| == |s.queues[c].ready|
    ensures forall i :: 0 <= i < |s.queues[c].ready| ==>
      s'.queues[c].ready[i] == PromotedList(s.queues[c].ready, s.threads, now, NUM_PRIORITIES, i)
  {
    hide MaybePromoted, FirstsPromoted, PromotedList;
  }

  lemma PromoteCpu(s: Snapshot, s': Snapshot, c: nat, now: nat)
    requires PromoteStep(s, s', c, now)
    ensures c < |s.queues|
  {
  }

  lemma MovedUp(ready: seq<seq<Tid>>, threads: Threads, now: nat, p: nat)
    requires |ready| == NUM_PRIORITIES && 0 < p < |ready| && FirstStale(ready[p], threads, now) < |ready[p]|
    ensures var l := PromotedList(ready, threads, now, NUM_PRIORITIES, p - 1);
      var t := ready[p][FirstStale(ready[p], threads, now)];
      l != [] && l[|l| - 1] == t && t in l
  {
    hide FirstStale;
  }

  lemma StaysOn(ready: seq<seq<Tid>>, threads: Threads, now: nat, p: nat, k: nat)
    requires |ready| == NUM_PRIORITIES && p < |ready| && k < |ready[p]| && k != FirstStale(ready[p], threads, now)
    ensures ready[p][k] in PromotedList(ready, threads, now, NUM_PRIORITIES, p)
  {
    hide FirstStale;
    KeptOn(ready[p], threads, now, k);
  }

  lemma OverdueLevel(th: Thread, now: nat)
    requires Stale(th, now)
    ensures th.priority >= 2
  {
  }

  lemma KeptOn(l: seq<Tid>, threads: Threads, now: nat, k: nat)
    requires k < |l| && k != FirstStale(l, threads, now)
    ensures l[k] in WithoutStale(l, threads, now)
  {
    hide FirstStale;
    var f, r := FirstStale(l, threads, now), WithoutStale(l, threads, now);
    if f < |l| { assert l[k] == if k < f then r[k] else r[k - 1]; }
  }

  lemma OnList(idles: seq<Tid>, s: Snapshot, c: nat, p: nat, t: Tid)
    requires SnapOk(idles, s, c) && c < |s.queues| && p < |s.queues[c].ready| && t in s.queues[c].ready[p]
    ensures t in s.place && s.place[t] == Ready(c, p)
  {
    hide SnapOk;
    var k :| 0 <= k < |s.queues[c].ready[p]| && s.queues[c].ready[p][k] == t;
    ReadyHere(idles, s, c, p, k);
  }

  // ----- what is stolen -----

  ghost predicate AllLists(qs: Queues)
  {
    forall d :: 0 <= d < |qs| ==> |qs[d].ready| == NUM_PRIORITIES
  }

  /** One of the lists that can be stolen from: ready lists 0 to 6 and the blocked list. */
  function KindOf(q: RunQueue, kind: nat): seq<Tid>
  {
    if kind < 7 && kind < |q.ready| then q.ready[kind] else q.blocked
  }

  /** Half of what a list of length `a` has more than one of length `b`. */
  function HalfMore(a: nat, b: nat): (r: nat)
    ensures r <= a
  {
    if a > b then (a - b) / 2 else 0
  }

  /** How long CPU `c`'s list of a kind is when it has stolen from the CPUs below `i`, in their order. */
  ghost function LengthBefore(qs: Queues, c: nat, kind: nat, i: nat): nat
    requires c < |qs| && i <= |qs|
  {
    if i == 0 then |KindOf(qs[c], kind)|
    else
      var l := LengthBefore(qs, c, kind, i - 1);
      if i - 1 == c then l else l + HalfMore(|KindOf(qs[i - 1], kind)|, l)
  }

  lemma KindIsList(qs: Queues, d: nat, kind: nat)
    requires AllLists(qs) && d < |qs| && kind < 8
    ensures IsList(qs, Stealable(kind, d)) && ListOf(qs, Stealable(kind, d)) == KindOf(qs[d], kind)
  {
  }

  /** The stolen threads are in front, the last one taken first. */
  lemma {:induction false} OntoReversed(from: seq<Tid>, n: nat, to: seq<Tid>)
    requires n <= |from|
    ensures |Onto(from, n, to)| == |to| + n
    ensures forall j :: 0 <= j < n ==> Onto(from, n, to)[j] == from[n - 1 - j]
    ensures Onto(from, n, to)[n..] == to
  {
    if n > 0 { OntoReversed(from, n - 1, to); }
  }

  lemma EvenedKinds(qs: Queues, kind: nat, c: nat, i: nat)
    requires AllLists(qs) && c < |qs| && i < |qs| && c != i && kind < 8
    ensures var r := Evened(qs, kind, c, i);
      && |r| == |qs| && AllLists(r) && (forall d :: 0 <= d < |qs| && d != c && d != i ==> r[d] == qs[d])
      && (forall k: nat :: k < 8 && k != kind ==>
            KindOf(r[c], k) == KindOf(qs[c], k) && KindOf(r[i], k) == KindOf(qs[i], k))
      && var n := HalfMore(|KindOf(qs[i], kind)|, |KindOf(qs[c], kind)|);
        KindOf(r[i], kind) == KindOf(qs[i], kind)[n..] && |KindOf(r[c], kind)| == |KindOf(qs[c], kind)| + n
  {
    hide WithList, ListOf, Stealable, KindOf, IsList, Onto, AllLists;
    KindIsList(qs, c, kind);
    KindIsList(qs, i, kind);
    var from, to := KindOf(qs[i], kind), KindOf(qs[c], kind);
    var n := HalfMore(|from|, |to|);
    OntoReversed(from, n, to);
    var qs1 := WithList(qs, Stealable(kind, i), from[n..]);
    WithKind(qs, i, kind, from[n..]);
    WithKind(qs1, c, kind, Onto(from, n, to));
  }

  lemma WithKind(qs: Queues, d: nat, kind: nat, l: seq<Tid>)
    requires AllLists(qs) && d < |qs| && kind < 8
    ensures IsList(qs, Stealable(kind, d))
    ensures var r := WithList(qs, Stealable(kind, d), l);
      && |r| == |qs| && AllLists(r) && (forall e :: 0 <= e < |qs| && e != d ==> r[e] == qs[e])
      && KindOf(r[d], kind) == l && forall k: nat :: k < 8 && k != kind ==> KindOf(r[d], k) == KindOf(qs[d], k)
  {
  }

  lemma {:induction false} PlunderedKinds(qs: Queues, c: nat, i: nat, n: nat)
    requires AllLists(qs) && c < |qs| && i < |qs| && c != i && n <= 8
    ensures var r := Plundered(qs, c, i, n);
      && |r| == |qs| && AllLists(r) && (forall d :: 0 <= d < |qs| && d != c && d != i ==> r[d] == qs[d])
      && forall k: nat :: k < 8 ==>
        var m := if k < n then HalfMore(|KindOf(qs[i], k)|, |KindOf(qs[c], k)|) else 0;
        KindOf(r[i], k) == KindOf(qs[i], k)[m..] && |KindOf(r[c], k)| == |KindOf(qs[c], k)| + m
  {
    hide Evened, KindOf;
    if n > 0 {
      PlunderedKinds(qs, c, i, n - 1);
      EvenedKinds(Plundered(qs, c, i, n - 1), n - 1, c, i);
    }
  }

  lemma PlunderedKind(qs: Queues, c: nat, i: nat, kind: nat, d: nat)
    requires AllLists(qs) && c < |qs| && i < |qs| && c != i && kind < 8 && d < |qs|
    ensures var r, m := Plundered(qs, c, i, STEAL_KINDS), HalfMore(|KindOf(qs[i], kind)|, |KindOf(qs[c], kind)|);
      && |r| == |qs| && AllLists(r) && (d != c && d != i ==> r[d] == qs[d])
      && KindOf(r[i], kind) == KindOf(qs[i], kind)[m..] && |KindOf(r[c], kind)| == |KindOf(qs[c], kind)| + m
  {
    hide Plundered, KindOf, HalfMore;
    PlunderedKinds(qs, c, i, STEAL_KINDS);
  }

  /** CPU `i` has lost half of what its list had more than the thief's, if `i` is below `n`, and nothing else. */
  ghost predicate Robbed(qs: Queues, r: Queues, c: nat, n: nat, kind: nat, i: nat)
    requires c < |qs| && i < |qs|
  {
    && |r| == |qs| && AllLists(r)
    && (i < n && i != c ==>
          KindOf(r[i], kind) == KindOf(qs[i], kind)[HalfMore(|KindOf(qs[i], kind)|, LengthBefore(qs, c, kind, i))..])
    && (n <= i && i != c ==> r[i] == qs[i])
  }

  ghost predicate HasLength(q: RunQueue, kind: nat, n: nat)
  {
    |KindOf(q, kind)| == n
  }

  lemma RaidedStep(qs: Queues, c: nat, n: nat)
    requires n > 0
    ensures Raided(qs, c, n) ==
      if n - 1 == c then Raided(qs, c, n - 1) else Plundered(Raided(qs, c, n - 1), c, n - 1, STEAL_KINDS)
  {
    hide Plundered;
  }

  lemma RobbedNext(qs: Queues, r: Queues, r': Queues, c: nat, n: nat, kind: nat, i: nat)
    requires AllLists(qs) && c < |qs| && n < |qs| && n != c && kind < 8 && i < |qs|
    requires Robbed(qs, r, c, n, kind, i) && Robbed(qs, r, c, n, kind, n)
    requires r' == Plundered(r, c, n, STEAL_KINDS) && HasLength(r[c], kind, LengthBefore(qs, c, kind, n))
    ensures Robbed(qs, r', c, n + 1, kind, i) && HasLength(r'[c], kind, LengthBefore(qs, c, kind, n + 1))
  {
    hide Plundered, KindOf, HalfMore, AllLists;
    PlunderedKind(r, c, n, kind, i);
  }

  /** Stealing goes through the other CPUs in the order of their numbers, and from each list takes half of what it
      has more than the thief's list has by then. */
  lemma {:induction false} RaidedKinds(qs: Queues, c: nat, n: nat, kind: nat, i: nat)
    requires AllLists(qs) && c < |qs| && n <= |qs| && kind < 8 && i < |qs|
    ensures Robbed(qs, Raided(qs, c, n), c, n, kind, i)
    ensures HasLength(Raided(qs, c, n)[c], kind, LengthBefore(qs, c, kind, n))
  {
    hide Plundered, KindOf, HalfMore, AllLists, Raided, LengthBefore;
    if n == 0 {
      RaidedNone(qs, c, kind);
    } else {
      RaidedStep(qs, c, n);
      RaidedKinds(qs, c, n - 1, kind, i);
      if n - 1 == c {
        LengthSame(qs, c, kind);
      } else {
        RaidedKinds(qs, c, n - 1, kind, n - 1);
        RobbedNext(qs, Raided(qs, c, n - 1), Raided(qs, c, n), c, n - 1, kind, i);
      }
    }
  }

  lemma RaidedNone(qs: Queues, c: nat, kind: nat)
    requires c < |qs|
    ensures Raided(qs, c, 0) == qs && HasLength(qs[c], kind, LengthBefore(qs, c, kind, 0))
  {
  }

  lemma LengthSame(qs: Queues, c: nat, kind: nat)
    requires c < |qs|
    ensures LengthBefore(qs, c, kind, c + 1) == LengthBefore(qs, c, kind, c)
  {
  }

  /** What a run of the scheduler on CPU `c` leaves on the lists of CPU `i` when it steals. */
  lemma StealsHalfTheExcess(s: Snapshot, s': Snapshot, c: nat, now: nat, kind: nat, i: nat)
    requires StealStep(s, s', c, c, now) && AllLists(s.queues) && kind < 8 && i < |s.queues| && i != c
    requires (now - s.queues[c].lastSteal) % TWO_64 > 10
    ensures |s'.queues| == |s.queues|
    ensures KindOf(s'.queues[i], kind) ==
      KindOf(s.queues[i], kind)[HalfMore(|KindOf(s.queues[i], kind)|, LengthBefore(s.queues, c, kind, i))..]
    ensures |KindOf(s'.queues[c], kind)| == LengthBefore(s.queues, c, kind, |s.queues|)
  {
    hide StealStep, Raided, LengthBefore, HalfMore, AllLists, KindOf;
    StealQueues(s, s', c, now);
    var r := Raided(s.queues, c, |s.queues|);
    RaidedKinds(s.queues, c, |s.queues|, kind, i);
    StampedKinds(r, c, now, kind);
  }

  lemma StealQueues(s: Snapshot, s': Snapshot, c: nat, now: nat)
    requires StealStep(s, s', c, c, now)
    ensures c < |s.queues|
    ensures (now - s.queues[c].lastSteal) % TWO_64 > 10 ==>
      s'.queues == Stamped(Raided(s.queues, c, |s.queues|), c, now)
  {
    hide Raided, Stolen, Imbalance, Balanced, SameLengths, Stamped;
  }

  lemma StampedKinds(qs: Queues, c: nat, now: nat, kind: nat)
    requires c < |qs|
    ensures var r := Stamped(qs, c, now);
      && |r| == |qs| && KindOf(r[c], kind) == KindOf(qs[c], kind)
      && forall d :: 0 <= d < |qs| && d != c ==> r[d] == qs[d]
  {
  }

  // ----- turns to steal -----

  /** The event is a run of the scheduler on the CPU whose turn it is, more than 10 microseconds after it last
      stole. */
  ghost predicate Steals(s: Stage, e: Event)
  {
    && e.Timer? && e.c < |s.now.queues| && e.c == s.turn
    && (e.now - s.now.queues[e.c].lastSteal) % TWO_64 > 10
  }

  ghost function StealsIn(trace: seq<Stage>, events: seq<Event>, n: nat): nat
    requires n <= |events| && |trace| > |events|
  {
    if n == 0 then 0 else StealsIn(trace, events, n - 1) + (if Steals(trace[n - 1], events[n - 1]) then 1 else 0)
  }

  lemma TurnStep(idles: seq<Tid>, s: Stage, e: Event, s': Stage)
    requires EventStep(idles, s, e, s') && |s.now.queues| > 0 && s.turn < |s.now.queues|
    ensures |s'.now.queues| == |s.now.queues|
    ensures s'.turn == if Steals(s, e) then (s.turn + 1) % |s.now.queues| else s.turn
    ensures s'.turn < |s.now.queues|
  {
    hide StealStep, RequeueStep, PruneStep, PromoteStep, Departures, Releases, MostUrgent, SnapOk, SwitchStep;
    if Accepted(idles, s, e) && e.Timer? {
      var s1: Snapshot, s2: Snapshot, s3: Snapshot, s4: Snapshot :|
        TimerStep(idles, s, e.c, e.remaining, e.now, s1, s2, s3, s4, s');
      NotCurrent(s.now, s1, s2, s3, s4, e.c, s.turn, e.remaining, e.now);
    }
  }

  lemma {:induction false} RaidedLength(qs: Queues, c: nat, n: nat)
    ensures |Raided(qs, c, n)| == |qs|
  {
    hide Plundered;
    if n > 0 {
      RaidedLength(qs, c, n - 1);
      if n - 1 != c { PlunderedLength(Raided(qs, c, n - 1), c, n - 1, STEAL_KINDS); }
    }
  }

  lemma {:induction false} PlunderedLength(qs: Queues, c: nat, i: nat, n: nat)
    ensures |Plundered(qs, c, i, n)| == |qs|
  {
    if n > 0 { PlunderedLength(qs, c, i, n - 1); }
  }

  /** CPUs steal in turn: steal number k of a run, from zero, is by the CPU k after the one whose turn it was at
      the start, around the CPUs. */
  lemma {:induction false} StealsTakeTurns(idles: seq<Tid>, trace: seq<Stage>, events: seq<Event>, n: nat)
    requires |trace| == |events| + 1 && n <= |events|
    requires forall i :: 0 <= i < |events| ==> EventStep(idles, trace[i], events[i], trace[i + 1])
    requires |trace[0].now.queues| > 0 && trace[0].turn < |trace[0].now.queues|
    ensures |trace[n].now.queues| == |trace[0].now.queues|
    ensures trace[n].turn == (trace[0].turn + StealsIn(trace, events, n)) % |trace[0].now.queues|
    ensures n < |events| && Steals(trace[n], events[n]) ==>
      events[n].c == (trace[0].turn + StealsIn(trace, events, n)) % |trace[0].now.queues|
  {
    hide EventStep;
    var m := |trace[0].now.queues|;
    if n == 0 {
      DivModUnique(trace[0].turn, m, 0, trace[0].turn);
    } else {
      StealsTakeTurns(idles, trace, events, n - 1);
      assert EventStep(idles, trace[n - 1], events[n - 1], trace[n - 1 + 1]);
      NextMod(trace[0].turn + StealsIn(trace, events, n - 1), m);
      TurnStep(idles, trace[n - 1], events[n - 1], trace[n]);
    }
  }

  lemma NextMod(k: nat, m: nat)
    requires m > 0
    ensures (k % m + 1) % m == (k + 1) % m && k % m < m
  {
    var q, r := k / m, k % m;
    assert k == m * q + r;
    if r + 1 == m {
      assert k + 1 == m * (q + 1) + 0;
      DivModUnique(k + 1, m, q + 1, 0);
      DivModUnique(m, m, 1, 0);
    } else {
      DivModUnique(k + 1, m, q, r + 1);
      DivModUnique(r + 1, m, 0, r + 1);
    }
  }

  lemma {:induction false} StealNumber(trace: seq<Stage>, events: seq<Event>, n: nat, k: nat) returns (i: nat)
    requires |trace| == |events| + 1 && n <= |events| && k < StealsIn(trace, events, n)
    ensures i < n && Steals(trace[i], events[i]) && StealsIn(trace, events, i) == k
  {
    hide Steals;
    if k < StealsIn(trace, events, n - 1) {
      i := StealNumber(trace, events, n - 1, k);
    } else {
      i := n - 1;
    }
  }

  /** Every CPU gets its turn: in a run with as many steals as there are CPUs each CPU has stolen. */
  lemma EveryCpuSteals(idles: seq<Tid>, trace: seq<Stage>, events: seq<Event>, d: nat) returns (i: nat)
    requires |trace| == |events| + 1
    requires forall i :: 0 <= i < |events| ==> EventStep(idles, trace[i], events[i], trace[i + 1])
    requires trace[0].turn < |trace[0].now.queues| <= StealsIn(trace, events, |events|) && d < |trace[0].now.queues|
    ensures i < |events| && Steals(trace[i], events[i]) && events[i].c == d
  {
    hide EventStep, Steals, StealsIn;
    var m, t := |trace[0].now.queues|, trace[0].turn;
    var k := if d >= t then d - t else d + m - t;
    i := StealNumber(trace, events, |events|, k);
    StealsTakeTurns(idles, trace, events, i);
    DivModUnique(t + k, m, if d >= t then 0 else 1, d);
  }
}
