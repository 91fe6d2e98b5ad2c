/** The scheduler: per-CPU run queues with promotion, demotion, pruning and stealing.
Each method is one atomic step under the queue locks. */
module Scheduling {
  import opened Bits
  import opened Common
  import opened RunQueues

  const QUANTUM_MICROS := 500
  const PROMOTE_FREQUENCY := 100
  const STEAL_FREQUENCY := 10

  function Quantum(priority: nat): nat { QUANTUM_MICROS * Pow2(priority) }

  /** Unsigned 64-bit subtraction. */
  function Elapsed(now: nat, since: nat): nat { (now - since) % TWO_64 }

  class Scheduler {
    const idles: seq<Tid>
    var queues: Queues
    var threads: Threads
    var stealTurn: nat
    var addIndex: nat
    ghost var place: Places

    ghost predicate Inv(x: int)
      reads this
    {
      && 0 < |queues| == |idles| && Distinct(idles) && stealTurn < |queues|
      && Placed(queues, place, x) && Accounted(threads, place, idles)
    }

    ghost predicate Valid()
      reads this
    {
      Inv(-1)
    }

    /** The state once every CPU has started: each runs its own idle thread and all lists are empty. */
    constructor (idleThreads: seq<Tid>, quanta: nat)
      requires 0 < |idleThreads| && Distinct(idleThreads)
      ensures Valid() && fresh(this) && idles == idleThreads && |queues| == |idleThreads| && stealTurn == 0
      ensures forall c :: 0 <= c < |queues| ==> queues[c].current == idleThreads[c]
    {
      hide Placed, Accounted, IndexIn;
      idles := idleThreads;
      queues := seq(|idleThreads|, c requires 0 <= c < |idleThreads| => Started(idleThreads[c]));
      threads := map t | t in idleThreads :: Thread(IDLE_PRIORITY, None, quanta, 0, true, false, true, 0, 0);
      stealTurn, addIndex := 0, 0;
      place := map t | t in idleThreads :: Running(IndexIn(idleThreads, t));
      new;
      StartedPlaced(idleThreads, queues, place);
      StartedAccounted(idleThreads, threads, place);
    }

    /** Move thread `k` of list `w` to an end of list `v`, with new fields `th`. */
    method Move(w: Place, k: nat, v: Place, front: bool, th: Thread, ghost x: int)
      requires Inv(x) && IsList(queues, w) && k < |ListOf(queues, w)| && IsList(queues, v) && v != w
      requires ListOf(queues, w)[k] !in idles
      requires th.priority < NUM_PRIORITIES && th.cpu == Some(v.cpu) && th.held == 1
      requires v.Ready? ==> th.priority == v.priority
      modifies `queues, `threads, `place
      ensures Inv(x) && queues == Moved(old(queues), w, k, v, front)
      ensures place == old(place)[old(ListOf(queues, w)[k]) := v]
      ensures threads == old(threads)[old(ListOf(queues, w)[k]) := th]
    {
      hide Placed, Accounted;
      var t := ListOf(queues, w)[k];
      MoveKeeps(queues, place, x, w, k, v, front);
      MoveAccounted(threads, place, idles, t, v, th);
      queues := Moved(queues, w, k, v, front);
      threads := threads[t := th];
      place := place[t := v];
    }

    method AddThread(t: Tid, th: Thread)
      requires Valid() && t !in threads && th.priority < NUM_PRIORITIES
      modifies this
      ensures Valid()
      ensures var c := old(addIndex) % |queues|;
        && place == old(place)[t := Blocked(c)] && t in threads && threads[t].held == 1
        && threads == old(threads)[t := th.(cpu := Some(c), timeLeft := Quantum(th.priority), held := 1)]
        && queues == WithList(old(queues), Blocked(c), Put(old(queues[c].blocked), t, false))
      ensures addIndex == (old(addIndex) + 1) % TWO_32 && stealTurn == old(stealTurn)
    {
      hide Placed, Accounted;
      var c := addIndex % |queues|;
      addIndex := (addIndex + 1) % TWO_32;
      Fresh(t);
      PutKeeps(queues, place, -1, Blocked(c), t, false);
      MoveAccounted(threads, place, idles, t, Blocked(c),
                    th.(cpu := Some(c), timeLeft := Quantum(th.priority), held := 1));
      threads := threads[t := th.(cpu := Some(c), timeLeft := Quantum(th.priority), held := 1)];
      queues := WithList(queues, Blocked(c), Put(queues[c].blocked, t, false));
      place := place[t := Blocked(c)];
    }

    /** A thread the scheduler does not know is in no place and is no idle thread. */
    lemma Fresh(t: Tid)
      requires Inv(-1) && t !in threads
      ensures t !in place && t !in idles
    {
      assert t in place ==> ThreadOk(threads, place, idles, t);
      forall c | 0 <= c < |idles| ensures idles[c] in threads
      {
        assert IdleOk(threads, place, idles, c);
      }
    }

    /** Other parts of the kernel change a thread's readiness at any time. */
    method Environment(t: Tid, ready: bool, exited: bool, wakeTimeout: nat)
      requires Valid() && t in threads && t !in idles
      modifies `threads
      ensures Valid()
      ensures threads ==
        old(threads)[t := old(threads[t]).(ready := ready, exited := exited, wakeTimeout := wakeTimeout)]
    {
      hide Placed, Accounted;
      FieldsAccounted(threads, place, idles, t,
                      threads[t].(ready := ready, exited := exited, wakeTimeout := wakeTimeout));
      threads := threads[t := threads[t].(ready := ready, exited := exited, wakeTimeout := wakeTimeout)];
    }

    /** A thread in a blocked list is in place, with fields that agree, and not idle. */
    lemma BlockedThread(x: int, c: nat, i: nat)
      requires Inv(x) && c < |queues| && i < |queues[c].blocked|
      ensures var t := queues[c].blocked[i];
        && t in place && place[t] == Blocked(c) && t !in idles
        && t in threads && threads[t].priority < NUM_PRIORITIES && threads[t].held == 1 && threads[t].cpu == Some(c)
    {
      var t := queues[c].blocked[i];
      assert ListAgrees(queues, place, Blocked(c)) && t in ListOf(queues, Blocked(c));
      assert ThreadOk(threads, place, idles, t);
      forall d | 0 <= d < |idles| ensures idles[d] != t
      {
        assert IdleOk(threads, place, idles, d);
      }
    }

    lemma QueueShape(x: int)
      requires Inv(x)
      ensures forall c :: 0 <= c < |queues| ==> |queues[c].ready| == NUM_PRIORITIES
    {
    }

    lemma BlockedKnown(x: int, c: nat)
      requires Inv(x) && c < |queues|
      ensures Distinct(queues[c].blocked)
      ensures forall k :: 0 <= k < |queues[c].blocked| ==>
        queues[c].blocked[k] in threads && queues[c].blocked[k] in place && place[queues[c].blocked[k]] == Blocked(c)
    {
      assert ListAgrees(queues, place, Blocked(c));
      forall k | 0 <= k < |queues[c].blocked|
        ensures queues[c].blocked[k] in threads && queues[c].blocked[k] in place
        ensures place[queues[c].blocked[k]] == Blocked(c)
      {
        BlockedThread(x, c, k);
      }
    }

    /** A blocked thread is current on no other CPU. */
    lemma NotCurrentBlocked(c: nat, i: nat)
      requires Inv(c) && c < |queues| && i < |queues[c].blocked|
      ensures forall d :: 0 <= d < |queues| && d != c ==> queues[d].current != queues[c].blocked[i]
    {
      BlockedThread(c, c, i);
      forall d | 0 <= d < |queues| && d != c ensures queues[d].current != queues[c].blocked[i]
      {
        assert RunningAgrees(queues, place, d);
      }
    }

    /** handle_release of a thread that is on no CPU. */
    method Release(c: nat, i: nat)
      requires c < |queues| && Inv(c) && i < |queues[c].blocked|
      modifies `queues, `threads, `place
      ensures Inv(c)
      ensures var t := old(queues[c].blocked[i]);
        && queues == WithList(old(queues), Blocked(c), Without(old(queues[c].blocked), i))
        && t in old(threads) && threads == old(threads)[t := old(threads[t]).(held := 0)] && place == old(place) - {t}
    {
      hide Placed, Accounted;
      BlockedThread(c, c, i);
      var t := queues[c].blocked[i];
      TakeKeeps(queues, place, c, Blocked(c), i);
      DropAccounted(threads, place, idles, t);
      queues := WithList(queues, Blocked(c), Without(queues[c].blocked, i));
      threads := threads[t := threads[t].(held := 0)];
      place := place - {t};
    }

    /** A wake timeout that has passed makes the thread ready. */
    method WakeOnly(t: Tid, now: nat, ghost x: int)
      requires Inv(x) && t in threads && t !in idles
      modifies `threads
      ensures Inv(x) && threads == old(threads)[t := Woken(old(threads[t]), now)]
    {
      hide Placed, Accounted;
      if threads[t].wakeTimeout != 0 && threads[t].wakeTimeout <= now {
        FieldsAccounted(threads, place, idles, t, threads[t].(wakeTimeout := 0, ready := true));
        threads := threads[t := threads[t].(wakeTimeout := 0, ready := true)];
      }
    }

    /** One round of prune's loop. */
    method PruneOne(c: nat, now: nat, i: nat) returns (removed: bool)
      requires c < |queues| && Inv(c) && i < |queues[c].blocked|
      modifies `queues, `threads, `place
      ensures Inv(c) && SameCurrents(old(queues), queues)
      ensures queues[c].blocked == if removed then Without(old(queues[c].blocked), i) else old(queues[c].blocked)
      ensures var t := old(queues[c].blocked[i]);
        && t in old(threads) && Pruned(old(threads[t]), now, t == queues[c].current, c, t, place, threads)
        && OnlyThread(old(threads), old(place), threads, place, t)
        && (t !in place ==> t != queues[c].current)
        && Decided(old(Now()), Now(), c, now, t)
      ensures var q, t := old(queues)[c], old(queues[c].blocked[i]);
        var fate := FateOf(old(threads)[t], now, t == q.current);
        && (removed <==> !fate.Stays?) && (fate.Readies? ==> fate.priority < |q.ready|)
        && queues == old(queues)[c := PrunedOnce(q, i, fate)]
    {
      hide Placed, Accounted;
      BlockedThread(c, c, i);
      QueueShape(c);
      var t := queues[c].blocked[i];
      WakeOnly(t, now, c);
      removed := false;
      if !threads[t].exited && !threads[t].ready {
        return;
      }
      if threads[t].exited {
        if t == queues[c].current {
          return;
        }
        Release(c, i);
      } else {
        Move(Blocked(c), i, Ready(c, threads[t].priority), false, threads[t], c);
      }
      removed := true;
    }

    /** Readies or releases what can leave the blocked list of CPU `c`. */
    method Prune(c: nat, now: nat)
      requires c < |queues| && Inv(c)
      modifies `queues, `threads, `place
      ensures Inv(c) && SameCurrents(old(queues), queues)
      ensures PruneStep(old(Now()), Now(), c, now)
      ensures forall t :: t in old(queues[c].blocked) ==> Decided(old(Now()), Now(), c, now, t)
      ensures PruneOrder(old(Now()), Now(), c, now)
      ensures Releases(old(threads), old(place), threads, place)
      ensures NoCurrentLost(old(queues), old(place), place)
    {
      hide Placed, Accounted, Releases, NoCurrentLost, PruneStep, PrunedUpTo, Pruned, OnlyThread, PrunedOnce,
           PrunedQueue, FateOf, Staying, Decided, PruneOrder;
      var i := 0;
      ReleasesNone(threads, place);
      ghost var j, l := 0, queues[c].blocked;
      BlockedKnown(c, c);
      PrunedNone(Now(), c, now);
      PrunedQueueNone(queues, c, threads, now);
      while i < |queues[c].blocked|
        invariant Inv(c) && c < |queues| && SameCurrents(old(queues), queues)
        invariant 0 <= i <= |queues[c].blocked| && 0 <= j <= |l| && queues[c].blocked[i..] == l[j..]
        invariant PrunedUpTo(old(Now()), l, j, c, now, threads, place)
        invariant queues == old(queues)[c := PrunedQueue(old(queues)[c], old(threads), now, j)]
        invariant i == |Staying(l[..j], old(threads), now, old(queues)[c].current)|
        invariant Releases(old(threads), old(place), threads, place)
        decreases |l| - j
      {
        ghost var b := queues[c].blocked;
        assert b[i] == b[i..][0] == l[j] && b[i + 1..] == b[i..][1..] == l[j + 1..];
        NotCurrentBlocked(c, i);
        ghost var ths, pl := threads, place;
        PrunedAhead(old(Now()), l, j, c, now, threads, place);
        var removed := PruneOne(c, now, i);
        PrunedQueueMore(old(queues)[c], old(threads), now, j, i);
        OnlyThreadReleases(ths, pl, threads, place, b[i]);
        PrunedMore(old(Now()), l, j, c, now, ths, pl, threads, place);
        ReleasesChain(old(threads), old(place), ths, pl, threads, place);
        if removed {
          assert Without(b, i)[i..] == b[i + 1..];
        } else {
          i := i + 1;
        }
        j := j + 1;
      }
      PrunedAll(old(Now()), Now(), c, now);
      PruneDecides(old(Now()), Now(), c, now);
      PruneOrdered(old(Now()), Now(), c, now);
    }

    lemma ReadyThread(x: int, c: nat, p: nat, j: nat)
      requires Inv(x) && c < |queues| && p < NUM_PRIORITIES && p < |queues[c].ready| && j < |queues[c].ready[p]|
      ensures var t := queues[c].ready[p][j];
        && t in place && place[t] == Ready(c, p) && t in threads && threads[t].priority == p
        && (!threads[t].constant ==> t !in idles)
        && (t !in idles ==> threads[t].held == 1 && threads[t].cpu == Some(c))
        && (p < IDLE_PRIORITY ==> t !in idles)
    {
      var t := queues[c].ready[p][j];
      assert IsList(queues, Ready(c, p)) && ListAgrees(queues, place, Ready(c, p)) && t in ListOf(queues, Ready(c, p));
      assert ThreadOk(threads, place, idles, t);
      forall d | 0 <= d < |idles| ensures idles[d] == t ==> threads[t].constant && p == IDLE_PRIORITY
      {
        assert IdleOk(threads, place, idles, d);
      }
    }

    /** Promotes the first stale thread of each list.  The list iterator follows the moved
        node, which is now the last of its new list, so a pass over one list ends there. */
    method CheckPromotions(c: nat, now: nat)
      requires c < |queues| && Inv(c)
      modifies `queues, `threads, `place
      ensures Inv(c) && SameCurrents(old(queues), queues)
      ensures Promotions(old(threads), old(place), threads, place, c, now, NUM_PRIORITIES)
      ensures FirstsPromoted(old(queues), old(threads), place, c, NUM_PRIORITIES, now)
      ensures var q := old(queues)[c];
        queues ==
          old(queues)[c := q.(ready := PromotedLists(q.ready, old(threads), now, NUM_PRIORITIES), lastPromotion := now)]
    {
      hide Placed, Accounted, Stale, FirstStale, Promotions, FirstsPromoted, Untouched, OnlyMoved, PromotedOnce,
           PromotedLists, PromotedFirst;
      ReadyKnown(c, c);
      NothingPromoted(c, now);
      PromotedListsNone(queues, c, threads, now);
      var p := 0;
      while p < NUM_PRIORITIES
        invariant 0 <= p <= NUM_PRIORITIES && Inv(c)
        invariant Promotions(old(threads), old(place), threads, place, c, now, p)
        invariant Untouched(old(queues), old(threads), queues, threads, c, p)
        invariant FirstsPromoted(old(queues), old(threads), place, c, p, now)
        invariant queues ==
          old(queues)[c := old(queues)[c].(ready := PromotedLists(old(queues)[c].ready, old(threads), now, p))]
      {
        ReadyKnown(c, c);
        ghost var qs, ths, pl := queues, threads, place;
        PromoteOne(c, now, p, old(threads), old(place));
        PromotedMore(old(queues), old(threads), qs, ths, pl, queues, threads, place, c, p, now);
        PromotedListsMore(old(queues)[c].ready, old(threads), ths, now, p);
        p := p + 1;
      }
      StampKeeps(queues, place, c, c, queues[c].(lastPromotion := now));
      queues := queues[c := queues[c].(lastPromotion := now)];
    }

    lemma ReadyKnown(x: int, c: nat)
      requires Inv(x) && c < |queues|
      ensures |queues[c].ready| == NUM_PRIORITIES
      ensures forall q, t :: 0 <= q < NUM_PRIORITIES && t in queues[c].ready[q] ==>
        t in place && place[t] == Ready(c, q) && t in threads
    {
      forall q, t | 0 <= q < NUM_PRIORITIES && t in queues[c].ready[q]
        ensures t in place && place[t] == Ready(c, q) && t in threads
      {
        assert ListAgrees(queues, place, Ready(c, q)) && t in ListOf(queues, Ready(c, q));
        assert ThreadOk(threads, place, idles, t);
      }
    }

    lemma AllKnown(x: int)
      requires Inv(x)
      ensures forall t :: t in place ==> t in threads
    {
      forall t | t in place ensures t in threads
      {
        assert ThreadOk(threads, place, idles, t);
      }
    }

    lemma NothingPromoted(c: nat, now: nat)
      requires Inv(c) && c < |queues|
      ensures Promotions(threads, place, threads, place, c, now, 0)
      ensures Untouched(queues, threads, queues, threads, c, 0)
      ensures FirstsPromoted(queues, threads, place, c, 0, now)
    {
      ReadyKnown(c, c);
      forall t | t in place ensures MaybePromoted(threads, place, threads, place, c, now, 0, t)
      {
        assert ThreadOk(threads, place, idles, t);
      }
    }

    /** The pass over the ready list of one priority. */
    method PromoteOne(c: nat, now: nat, p: nat, ghost threads0: Threads, ghost place0: Places)
      requires c < |queues| && Inv(c) && p < NUM_PRIORITIES
      requires Promotions(threads0, place0, threads, place, c, now, p)
      modifies `queues, `threads, `place
      ensures Inv(c) && SameCurrents(old(queues), queues)
      ensures Promotions(threads0, place0, threads, place, c, now, p + 1)
      ensures p < |old(queues[c].ready)|
      ensures PromotedFirst(old(queues), old(threads), old(place), queues, threads, place, c, p, now)
    {
      hide Placed, Accounted, Stale, FirstStale, Promotions, PromotedFirst;
      QueueShape(c);
      var j := 0;
      FirstStaleStep(queues[c].ready[p], 0, threads, now);
      while j < |queues[c].ready[p]|
        invariant unchanged(this) && 0 <= j <= |queues[c].ready[p]|
        invariant FirstStale(queues[c].ready[p], threads, now) == j + FirstStale(queues[c].ready[p][j..], threads, now)
      {
        FirstStaleStep(queues[c].ready[p], j, threads, now);
        var t := queues[c].ready[p][j];
        ReadyThread(c, c, p, j);
        if Stale(threads[t], now) {
          StaleFacts(threads[t], now);
          Move(Ready(c, p), j, Ready(c, p - 1), false, threads[t].(priority := p - 1, timeLeft := Quantum(p - 1)), c);
          PromotedOne(threads0, place0, old(threads), old(place), c, now, p, t);
          PromotedHere(old(queues), old(threads), old(place), c, p, j, now, threads[t]);
          return;
        }
        j := j + 1;
      }
      PromotedNone(threads0, place0, threads, place, c, now, p);
      NoneStale(queues, threads, place, c, p, now);
    }

    lemma StealableThread(kind: nat, from: nat)
      requires Inv(-1) && kind < STEAL_KINDS && from < |queues|
      ensures IsList(queues, Stealable(kind, from))
      ensures |ListOf(queues, Stealable(kind, from))| > 0 ==>
        var t := ListOf(queues, Stealable(kind, from))[0];
        && t !in idles && t in place && place[t] == Stealable(kind, from) && t in threads && threads[t].held == 1
        && threads[t].priority < NUM_PRIORITIES && (kind < IDLE_PRIORITY ==> threads[t].priority == kind)
    {
      QueueShape(-1);
      if |ListOf(queues, Stealable(kind, from))| > 0 {
        if kind < IDLE_PRIORITY { ReadyThread(-1, from, kind, 0); } else { BlockedThread(-1, from, 0); }
      }
    }

    /** balance_lists: take half the difference from the front of the longer list. */
    method BalanceLists(kind: nat, to: nat, from: nat) returns (steal: nat)
      requires Inv(-1) && kind < STEAL_KINDS && to < |queues| && from < |queues| && to != from
      modifies `queues, `threads, `place
      ensures Inv(-1) && SameCurrents(old(queues), queues)
      ensures IsList(old(queues), Stealable(kind, from)) && IsList(old(queues), Stealable(kind, to))
      ensures IsList(queues, Stealable(kind, from)) && IsList(queues, Stealable(kind, to))
      ensures steal == Share(|ListOf(old(queues), Stealable(kind, from))|, |ListOf(old(queues), Stealable(kind, to))|)
      ensures ListOf(queues, Stealable(kind, from)) == ListOf(old(queues), Stealable(kind, from))[steal..]
      ensures ListOf(queues, Stealable(kind, to)) ==
              Onto(ListOf(old(queues), Stealable(kind, from)), steal, ListOf(old(queues), Stealable(kind, to)))
      ensures AllRebalanced(old(queues), queues, kind, to, from, steal)
      ensures Stolen(old(threads), old(place), threads, place, to)
      ensures queues == Evened(old(queues), kind, to, from)
    {
      hide Placed, Accounted, Stolen, Lengths, AllRebalanced, Onto, Moved, SameCurrents, Handed;
      StealableThread(kind, from);
      StealableThread(kind, to);
      SameCurrentsNone(queues);
      BalanceNone(queues, kind, from, to);
      AllKnown(-1);
      StolenNone(threads, place, to);
      ghost var giver, taker := ListOf(queues, Stealable(kind, from)), ListOf(queues, Stealable(kind, to));
      var toLen, fromLen := |ListOf(queues, Stealable(kind, to))|, |ListOf(queues, Stealable(kind, from))|;
      RebalancedNone(queues, kind, to, from);
      QueueShape(-1);
      LengthAt(queues, kind, from);
      HandedNone(queues, kind, to, from);
      if fromLen <= toLen {
        return 0;
      }
      steal := (fromLen - toLen) / 2;
      for i := 0 to steal
        invariant Inv(-1) && SameCurrents(old(queues), queues)
        invariant IsList(queues, Stealable(kind, from)) && IsList(queues, Stealable(kind, to))
        invariant ListOf(queues, Stealable(kind, from)) == giver[i..]
        invariant ListOf(queues, Stealable(kind, to)) == Onto(giver, i, taker)
        invariant AllRebalanced(old(queues), queues, kind, to, from, i)
        invariant Stolen(old(threads), old(place), threads, place, to)
        invariant queues == Handed(old(queues), kind, to, from, i)
      {
        StealableThread(kind, from);
        QueueShape(-1);
        var t := ListOf(queues, Stealable(kind, from))[0];
        BalanceStep(queues, kind, from, to, giver, i, taker);
        StolenMore(old(threads), old(place), threads, place, to, t, kind, from);
        RebalancedMore(old(queues), queues, kind, to, from, i);
        HandedMore(old(queues), kind, to, from, i);
        MovedCurrents(old(queues), queues, Stealable(kind, from), Stealable(kind, to));
        Move(Stealable(kind, from), 0, Stealable(kind, to), true, threads[t].(cpu := Some(to)), -1);
      }
    }

    /** Steal from every other CPU in turn.  What is stolen lowers the imbalance; when nothing
        is stolen no stealable list is more than one longer than this CPU's. */
    method StealWork(c: nat) returns (stolen: nat)
      requires Inv(-1) && c < |queues|
      modifies `queues, `threads, `place
      ensures Inv(-1) && SameCurrents(old(queues), queues)
      ensures Stolen(old(threads), old(place), threads, place, c)
      ensures Imbalance(queues, STEAL_KINDS) + 2 * stolen <= Imbalance(old(queues), STEAL_KINDS)
      ensures stolen == 0 ==> SameLengths(old(queues), queues) && Balanced(queues, c, |queues|)
      ensures queues == Raided(old(queues), c, |old(queues)|)
    {
      hide Placed, Accounted, Stolen, Lengths, Imbalance, SameLengths, BalancedWith, Plundered;
      AllKnown(-1);
      StolenNone(threads, place, c);
      SameLengthsNone(queues);
      stolen := 0;
      var i := 0;
      while i < |queues|
        invariant 0 <= i <= |queues| == |old(queues)| && Inv(-1) && SameCurrents(old(queues), queues)
        invariant Stolen(old(threads), old(place), threads, place, c)
        invariant Imbalance(queues, STEAL_KINDS) + 2 * stolen <= Imbalance(old(queues), STEAL_KINDS)
        invariant stolen == 0 ==> SameLengths(old(queues), queues) && Balanced(old(queues), c, i)
        invariant queues == Raided(old(queues), c, i)
      {
        if i != c {
          ghost var qs, ths, pl := queues, threads, place;
          var more := StealFrom(c, i);
          StolenChain(old(threads), old(place), ths, pl, threads, place, c);
          if stolen + more == 0 {
            SameLengthsChain(old(queues), qs, queues);
            SameBalance(old(queues), qs, c, i);
          }
          stolen := stolen + more;
        }
        i := i + 1;
      }
      if stolen == 0 {
        BalanceCarries(old(queues), queues, c);
      }
    }

    /** The pass over one other CPU's lists, most urgent first, then its blocked list. */
    method StealFrom(c: nat, i: nat) returns (stolen: nat)
      requires Inv(-1) && c < |queues| && i < |queues| && i != c
      modifies `queues, `threads, `place
      ensures Inv(-1) && SameCurrents(old(queues), queues)
      ensures Stolen(old(threads), old(place), threads, place, c)
      ensures Imbalance(queues, STEAL_KINDS) + 2 * stolen <= Imbalance(old(queues), STEAL_KINDS)
      ensures stolen == 0 ==> SameLengths(old(queues), queues) && BalancedWith(old(queues), c, i, STEAL_KINDS)
      ensures queues == Plundered(old(queues), c, i, STEAL_KINDS)
    {
      hide Placed, Accounted, Stolen, Lengths, Imbalance, SameLengths, BalancedWith, AllRebalanced, Evened;
      AllKnown(-1);
      StolenNone(threads, place, c);
      SameLengthsNone(queues);
      BalancedNone(queues, c, i);
      stolen := 0;
      var kind := 0;
      while kind < STEAL_KINDS
        invariant 0 <= kind <= STEAL_KINDS && |queues| == |old(queues)| && Inv(-1) && SameCurrents(old(queues), queues)
        invariant Stolen(old(threads), old(place), threads, place, c)
        invariant Imbalance(queues, STEAL_KINDS) + 2 * stolen <= Imbalance(old(queues), STEAL_KINDS)
        invariant stolen == 0 ==> SameLengths(old(queues), queues) && BalancedWith(old(queues), c, i, kind)
        invariant queues == Plundered(old(queues), c, i, kind)
      {
        ghost var qs, ths, pl := queues, threads, place;
        StealableThread(kind, i);
        StealableThread(kind, c);
        LengthAt(queues, kind, i);
        LengthAt(queues, kind, c);
        var more := BalanceLists(kind, c, i);
        StolenChain(old(threads), old(place), ths, pl, threads, place, c);
        ImbalanceDrops(qs, queues, kind, c, i, more);
        if stolen + more == 0 {
          BalancedMore(old(queues), qs, queues, kind, c, i);
        }
        stolen := stolen + more;
        kind := kind + 1;
      }
    }

    lemma CurrentThread(c: nat)
      requires Inv(-1) && c < |queues|
      ensures var t := queues[c].current;
        && t in place && place[t] == Running(c) && t in threads && threads[t].priority < NUM_PRIORITIES
        && (t in idles ==>
             t == idles[c] && threads[t].constant && threads[t].ready && threads[t].priority == IDLE_PRIORITY)
        && (t !in idles ==> threads[t].held == 1 && threads[t].cpu == Some(c))
    {
      var t := queues[c].current;
      assert RunningAgrees(queues, place, c);
      assert ThreadOk(threads, place, idles, t);
      forall d | 0 <= d < |idles| ensures idles[d] == t ==> d == c
      {
        assert IdleOk(threads, place, idles, d);
      }
      assert IdleOk(threads, place, idles, c);
    }

    /** The yielding thread's new priority and time slice. */
    static function Charged(th: Thread, remaining: nat): Thread
    {
      if remaining == 0 then
        var p := if th.priority < MAX_PRIORITY && !th.constant then th.priority + 1 else th.priority;
        th.(priority := p, timeLeft := Quantum(p))
      else th.(timeLeft := remaining + Quantum(th.priority) / 16)
    }

    /** Put the current thread of CPU `c` back on a list. */
    method Requeue(c: nat, remaining: nat)
      requires Inv(-1) && c < |queues|
      modifies `queues, `threads, `place
      ensures Inv(c) && SameCurrents(old(queues), queues)
      ensures queues[c].current in old(threads)
      ensures RequeueStep(old(Now()), Now(), c, remaining) && queues[c].current in threads
      ensures Releases(old(threads), old(place), threads, place) && place.Keys == old(place.Keys)
    {
      hide Placed, Accounted, Releases, RequeueStep, Charged;
      CurrentThread(c);
      QueueShape(-1);
      var t := queues[c].current;
      var th := Charged(threads[t], remaining);
      ChargedFacts(threads[t], remaining);
      var w := if th.ready then Ready(c, th.priority) else Blocked(c);
      YieldKeeps(queues, place, c);
      PutKeeps(queues, place - {t}, c, w, t, false);
      RequeueAccounted(c, t, w, th);
      assert (place - {t})[t := w] == place[t := w];
      RequeueFacts(queues, threads, place, c, remaining, th, w);
      threads := threads[t := th];
      queues := WithList(queues, w, Put(ListOf(queues, w), t, false));
      place := place[t := w];
    }

    lemma RequeueAccounted(c: nat, t: Tid, w: Place, th: Thread)
      requires Inv(-1) && c < |queues| && t == queues[c].current && t in threads && w.cpu == c
      requires th.priority < NUM_PRIORITIES
      requires th == threads[t].(priority := th.priority, timeLeft := th.timeLeft)
      requires threads[t].constant ==> th.priority == threads[t].priority
      requires if th.ready then w == Ready(c, th.priority) else w == Blocked(c)
      ensures Accounted(threads[t := th], place[t := w], idles)
    {
      hide Placed, Accounted;
      CurrentThread(c);
      if t in idles {
        FieldsAccounted(threads, place, idles, t, th);
        IdleAccounted(threads[t := th], place, idles, c, w);
      } else {
        MoveAccounted(threads, place, idles, t, w, th);
      }
    }

    /** While CPU `c` schedules, its idle thread waits on its idle list. */
    lemma IdleWaits(c: nat)
      requires Inv(c) && c < |queues|
      ensures IsList(queues, Ready(c, IDLE_PRIORITY)) && queues[c].ready[IDLE_PRIORITY] != []
    {
      assert IdleOk(threads, place, idles, c);
      assert ListAgrees(queues, place, Ready(c, IDLE_PRIORITY));
      assert idles[c] in ListOf(queues, Ready(c, IDLE_PRIORITY));
    }

    /** Make the first thread of ready list `p` the current one. */
    method Switch(c: nat, p: nat, now: nat)
      requires Inv(c) && c < |queues| && queues[c].current in threads && p < NUM_PRIORITIES
      requires |queues[c].ready| == NUM_PRIORITIES && queues[c].ready[p] != []
      modifies `queues, `threads, `place
      ensures Inv(-1) && |queues| == |old(queues)|
      ensures queues[c].current in old(place) && queues[c].current in threads
      ensures threads[queues[c].current].priority == p
      ensures SwitchStep(old(Now()), Now(), c, p, now)
    {
      hide Placed, Accounted, SwitchStep;
      ReadyThread(c, c, p, 0);
      ghost var before := Now();
      var cur := queues[c].current;
      FieldsAccounted(threads, place, idles, cur, threads[cur].(lastRan := now));
      threads := threads[cur := threads[cur].(lastRan := now)];
      var next := queues[c].ready[p][0];
      FieldsAccounted(threads, place, idles, next, threads[next].(lastRan := now));
      threads := threads[next := threads[next].(lastRan := now)];
      SwitchAccounted(c, p, next);
      var q := queues[c].(ready := queues[c].ready[p := queues[c].ready[p][1..]]);
      if next != cur {
        q := q.(prev := cur, current := next);
      }
      SwitchPlaced(queues, place, c, p, q);
      queues := queues[c := q];
      place := place[next := Running(c)];
      SwitchFacts(before, Now(), c, p, now, q);
    }

    lemma SwitchAccounted(c: nat, p: nat, next: Tid)
      requires Inv(c) && c < |queues| && p < NUM_PRIORITIES && next in place && place[next] == Ready(c, p)
      ensures Accounted(threads, place[next := Running(c)], idles)
    {
      assert ThreadOk(threads, place, idles, next);
      if next in idles {
        var d :| 0 <= d < |idles| && idles[d] == next;
        assert IdleOk(threads, place, idles, d);
        IdleAccounted(threads, place, idles, c, Running(c));
      } else {
        MoveAccounted(threads, place, idles, next, Running(c), threads[next]);
        assert threads[next := threads[next]] == threads;
      }
    }

    /** Pick the first thread of the most urgent list that is not empty. */
    method Dispatch(c: nat, now: nat)
      requires Inv(c) && c < |queues| && queues[c].current in threads
      modifies `queues, `threads, `place
      ensures Inv(-1) && |queues| == |old(queues)|
      ensures forall d :: 0 <= d < |queues| && d != c ==> queues[d] == old(queues[d])
      ensures place.Keys == old(place.Keys) && Releases(old(threads), old(place), threads, place)
      ensures DispatchStep(old(Now()), Now(), c, now) && MostUrgent(queues, threads, c)
    {
      hide Placed, Accounted;
      QueueShape(c);
      IdleWaits(c);
      var priority := 0;
      while queues[c].ready[priority] == []
        invariant 0 <= priority < NUM_PRIORITIES && unchanged(this)
        invariant forall p :: 0 <= p < priority ==> queues[c].ready[p] == []
        decreases NUM_PRIORITIES - priority
      {
        priority := priority + 1;
        // the assertion "All runlists are empty"
        assert priority < NUM_PRIORITIES;
      }
      Switch(c, priority, now);
    }

    ghost function Now(): Snapshot
      reads this
    {
      Snapshot(queues, threads, place)
    }

    /** Steal when it is this CPU's turn and the last steal was long enough ago. */
    method MaybeSteal(c: nat, now: nat)
      requires Valid() && c < |queues|
      modifies this
      ensures Valid() && SameCurrents(old(queues), queues) && StealStep(old(Now()), Now(), c, old(stealTurn), now)
      ensures Stolen(old(threads), old(place), threads, place, c)
      ensures stealTurn == NextTurn(old(queues), c, old(stealTurn), now) && addIndex == old(addIndex)
    {
      hide Placed, Accounted, Stolen, Imbalance, SameLengths, Balanced, Elapsed;
      AllKnown(-1);
      StolenNone(threads, place, c);
      if stealTurn == c && Elapsed(now, queues[c].lastSteal) > STEAL_FREQUENCY {
        var stolen := StealWork(c);
        ghost var qs := queues;
        StampKeeps(queues, place, -1, c, queues[c].(lastSteal := now));
        queues := queues[c := queues[c].(lastSteal := now)];
        StampLengths(qs, queues, c);
        stealTurn := (stealTurn + 1) % |queues|;
      }
    }

    method MaybePromote(c: nat, now: nat)
      requires c < |queues| && Inv(c)
      modifies `queues, `threads, `place
      ensures Inv(c) && SameCurrents(old(queues), queues) && PromoteStep(old(Now()), Now(), c, now)
      ensures Releases(old(threads), old(place), threads, place) && place.Keys == old(place.Keys)
    {
      hide Placed, Accounted, Promotions, FirstsPromoted, Releases, Elapsed;
      ReleasesNone(threads, place);
      if Elapsed(now, queues[c].lastPromotion) > PROMOTE_FREQUENCY {
        CheckPromotions(c, now);
        PromotionsRelease(old(threads), old(place), threads, place, c, now, NUM_PRIORITIES);
      }
    }

    /** One run of the scheduler on CPU `c`: steal, requeue the current thread, prune, promote
        and dispatch, in this order. */
    method Schedule(c: nat, remaining: nat, now: nat)
        returns (ghost stolen: Snapshot, ghost requeued: Snapshot, ghost pruned: Snapshot, ghost promoted: Snapshot)
      requires Valid() && c < |queues|
      modifies this
      ensures Valid() && |queues| == |old(queues)|
      ensures forall d :: 0 <= d < |queues| && d != c ==> queues[d].current == old(queues[d].current)
      ensures StealStep(old(Now()), stolen, c, old(stealTurn), now) && RequeueStep(stolen, requeued, c, remaining)
      ensures PruneStep(requeued, pruned, c, now) && PromoteStep(pruned, promoted, c, now)
      ensures DispatchStep(promoted, Now(), c, now)
      ensures SnapOk(idles, stolen, -1) && SnapOk(idles, requeued, c) && SnapOk(idles, pruned, c)
      ensures SnapOk(idles, promoted, c)
      ensures MostUrgent(queues, threads, c)
      ensures Departures(old(queues), old(threads), old(place), threads, place)
      ensures Releases(old(threads), old(place), threads, place)
      ensures stealTurn == NextTurn(old(queues), c, old(stealTurn), now) && addIndex == old(addIndex)
    {
      hide Placed, Accounted, Stolen, MostUrgent, Departures, Releases, NoCurrentLost, StealStep, RequeueStep,
           PruneStep, PromoteStep, DispatchStep;
      MaybeSteal(c, now);
      stolen := Now();
      StolenReleases(old(threads), old(place), threads, place, c);
      Requeue(c, remaining);
      requeued := Now();
      ReleasesChain(old(threads), old(place), stolen.threads, stolen.place, threads, place);
      Prune(c, now);
      pruned := Now();
      ReleasesChain(old(threads), old(place), requeued.threads, requeued.place, threads, place);
      ReleasesKnown(requeued.threads, requeued.place, threads, place, queues[c].current);
      MaybePromote(c, now);
      promoted := Now();
      ReleasesKnown(pruned.threads, pruned.place, threads, place, queues[c].current);
      ReleasesChain(old(threads), old(place), pruned.threads, pruned.place, threads, place);
      Dispatch(c, now);
      ReleasesChain(old(threads), old(place), promoted.threads, promoted.place, threads, place);
      CurrentsOf(old(queues), requeued.queues, requeued.place, pruned.place);
      CurrentsKept(old(queues), old(place), requeued.place, pruned.place, place);
      DeparturesFollow(old(queues), old(threads), old(place));
    }

    /** Every CPU steals once, in turn. */
    method StealRound(ghost start: Snapshot, ghost earlier: seq<Snapshot>, ghost who: seq<nat>)
        returns (stolen: nat, ghost steps: seq<Snapshot>, ghost who': seq<nat>)
      requires Valid() && Thefts(start, earlier, who, Now())
      modifies `queues, `threads, `place
      ensures Valid() && SameCurrents(old(queues), queues)
      ensures Thefts(start, steps, who', Now()) && |who'| == |who| + |queues|
      ensures Imbalance(queues, STEAL_KINDS) + 2 * stolen <= Imbalance(old(queues), STEAL_KINDS)
      ensures stolen == 0 ==> Settled(queues)
    {
      hide Placed, Accounted, Stolen, Imbalance, SameLengths, Balanced, Settled, Thefts, Raided, SameCurrents;
      stolen, steps, who' := 0, earlier, who;
      SameLengthsNone(queues);
      SameCurrentsNone(queues);
      var c := 0;
      while c < |queues|
        invariant 0 <= c <= |queues| && Valid() && SameCurrents(old(queues), queues)
        invariant Thefts(start, steps, who', Now()) && |who'| == |who| + c
        invariant Imbalance(queues, STEAL_KINDS) + 2 * stolen <= Imbalance(old(queues), STEAL_KINDS)
        invariant stolen == 0 ==> SameLengths(old(queues), queues)
        invariant stolen == 0 ==> forall d :: 0 <= d < c ==> Balanced(queues, d, |queues|)
      {
        ghost var s := Now();
        var more := StealWork(c);
        SameCurrentsChain(old(queues), s.queues, queues);
        OneMoreTheft(start, steps, who', s, Now(), c);
        steps, who' := steps + [Now()], who' + [c];
        stolen := stolen + more;
        if stolen == 0 {
          SameLengthsChain(old(queues), s.queues, queues);
          forall d | 0 <= d < c ensures Balanced(queues, d, |queues|)
          {
            BalanceCarries(s.queues, queues, d);
          }
        }
        c := c + 1;
      }
      if stolen == 0 { SettledBy(queues); }
    }

    /** When nothing else happens, stealing stops: after finitely many rounds, bounded by the
        imbalance at the start, all lists of a kind are within one of each other.  Threads have only
        been moved by stealing, and each is still on a list of its kind. */
    method StealUntilSettled() returns (rounds: nat, ghost steps: seq<Snapshot>, ghost who: seq<nat>)
      requires Valid()
      modifies `queues, `threads, `place
      ensures Valid() && SameCurrents(old(queues), queues) && Thefts(old(Now()), steps, who, Now())
      ensures |who| == rounds * |queues|
      ensures Rehomed(old(threads), old(place), threads, place)
      ensures Settled(queues) && 2 * rounds <= Imbalance(old(queues), STEAL_KINDS) + 2
    {
      hide Placed, Accounted, Imbalance, Settled, SameLengths, Thefts, Rehomed;
      AllKnown(-1);
      NoTheft(Now());
      ghost var start, n := Now(), |queues|;
      var stolen;
      stolen, steps, who := StealRound(start, [start], []);
      rounds := 1;
      while stolen > 0
        invariant Valid() && SameCurrents(old(queues), queues) && Thefts(start, steps, who, Now())
        invariant |queues| == n && |who| == rounds * n
        invariant stolen == 0 ==> Settled(queues)
        invariant Imbalance(queues, STEAL_KINDS) + 2 * rounds + (if stolen > 0 then 0 else -2) <=
          Imbalance(old(queues), STEAL_KINDS)
        decreases Imbalance(queues, STEAL_KINDS), stolen
      {
        stolen, steps, who := StealRound(start, steps, who);
        NextRound(rounds, n);
        rounds := rounds + 1;
      }
      TheftsRehome(start, steps, who, Now());
    }

    /** The scheduler's whole state. */
    ghost function Here(): Stage
      reads this
    {
      Stage(Now(), stealTurn, addIndex)
    }

    /** One event, if it can happen in this state. */
    method Handle(e: Event)
      requires Valid()
      modifies this
      ensures Valid() && |queues| == |old(queues)| && EventStep(idles, old(Here()), e, Here())
    {
      hide Placed, Accounted, MostUrgent, StealStep, RequeueStep, PruneStep, PromoteStep, DispatchStep, NextTurn,
           Departures, Releases, SnapOk;
      match e
      case Add(t, th) =>
        if t !in threads && th.priority < NUM_PRIORITIES {
          AddThread(t, th);
        }
      case Change(t, ready, exited, wakeTimeout) =>
        if t in threads && t !in idles {
          Environment(t, ready, exited, wakeTimeout);
        }
      case Timer(c, remaining, now) =>
        if c < |queues| {
          ghost var s := Here();
          ghost var s1, s2, s3, s4 := Schedule(c, remaining, now);
          assert TimerStep(idles, s, c, remaining, now, s1, s2, s3, s4, Here());
        }
    }

    /** Any run: threads are added, change state and are scheduled in any order.  In every state of
        it each thread is in exactly one place, and every thread that was ever in the scheduler is
        still in one place or has been released, never both. */
    method Run(events: seq<Event>) returns (ghost trace: seq<Stage>)
      requires Valid()
      modifies this
      ensures Valid() && |trace| == |events| + 1 && trace[0] == old(Here()) && trace[|events|] == Here()
      ensures forall i :: 0 <= i < |events| ==> EventStep(idles, trace[i], events[i], trace[i + 1])
      ensures forall i :: 0 <= i <= |events| ==> StageOk(idles, trace[i]) && |trace[i].now.queues| == |idles|
      ensures forall i :: 0 <= i <= |events| ==>
        Conserved(trace[0].now, trace[i].now, AddedBy(idles, trace, events, i), ReleasedBy(trace, i))
    {
      hide StageOk, EventStep, Placed, Accounted, Conserved;
      trace := [Here()];
      StageIsOk();
      for n := 0 to |events|
        invariant Valid() && |trace| == n + 1 && trace[0] == old(Here()) && trace[n] == Here()
        invariant |queues| == |old(queues)|
        invariant forall i :: 0 <= i < n ==> EventStep(idles, trace[i], events[i], trace[i + 1])
        invariant forall i :: 0 <= i <= n ==> StageOk(idles, trace[i]) && |trace[i].now.queues| == |idles|
      {
        Handle(events[n]);
        StageIsOk();
        trace := trace + [Here()];
      }
      forall i | 0 <= i <= |events|
        ensures Conserved(trace[0].now, trace[i].now, AddedBy(idles, trace, events, i), ReleasedBy(trace, i))
      {
        RunConserves(idles, trace, events, i);
      }
    }

    lemma StageIsOk()
      requires Valid()
      ensures StageOk(idles, Here())
    {
    }

    lemma DeparturesFollow(qs: Queues, threads0: Threads, place0: Places)
      requires Inv(-1) && Accounted(threads0, place0, idles) && Releases(threads0, place0, threads, place)
      requires NoCurrentLost(qs, place0, place)
      ensures Departures(qs, threads0, place0, threads, place)
    {
      forall t | t in place0 && t !in place
        ensures t in threads0 && threads0[t].held == 1
      {
        assert ThreadOk(threads0, place0, idles, t);
        forall d | 0 <= d < |idles| ensures idles[d] in place
        {
          assert IdleOk(threads, place, idles, d);
        }
      }
    }
  }

  datatype Event =
    | Add(t: Tid, th: Thread)
    | Change(t: Tid, ready: bool, exited: bool, wakeTimeout: nat)
    | Timer(c: nat, remaining: nat, now: nat)

  /** A state of a run: the threads and their places, whose turn it is to steal, and where the next
      thread is added. */
  datatype Stage = Stage(now: Snapshot, turn: nat, next: nat)

  ghost predicate StageOk(idles: seq<Tid>, s: Stage)
  {
    SnapOk(idles, s.now, -1)
  }

  /** The event can happen in this state; otherwise it is ignored. */
  ghost predicate Accepted(idles: seq<Tid>, s: Stage, e: Event)
  {
    match e
    case Add(t, th) => t !in s.now.threads && th.priority < NUM_PRIORITIES
    case Change(t, _, _, _) => t in s.now.threads && t !in idles
    case Timer(c, _, _) => c < |s.now.queues|
  }

  ghost predicate AddStep(s: Stage, t: Tid, th: Thread, s': Stage)
  {
    && |s.now.queues| > 0
    && var c := s.next % |s.now.queues|;
      && s'.now.place == s.now.place[t := Blocked(c)] && s'.turn == s.turn && s'.next == (s.next + 1) % TWO_32
      && s'.now.threads == s.now.threads[t := th.(cpu := Some(c), timeLeft := Quantum(th.priority), held := 1)]
      && s'.now.queues == WithList(s.now.queues, Blocked(c), Put(s.now.queues[c].blocked, t, false))
  }

  /** One run of the scheduler: steal, requeue, prune, promote, dispatch.  What leaves was held once,
      is released, and was current nowhere. */
  ghost predicate TimerStep(idles: seq<Tid>, s: Stage, c: nat, remaining: nat, now: nat, stolen: Snapshot,
                            requeued: Snapshot, pruned: Snapshot, promoted: Snapshot, s': Stage)
  {
    && c < |s.now.queues| && StealStep(s.now, stolen, c, s.turn, now) && RequeueStep(stolen, requeued, c, remaining)
    && PruneStep(requeued, pruned, c, now) && PromoteStep(pruned, promoted, c, now)
    && DispatchStep(promoted, s'.now, c, now)
    && SnapOk(idles, stolen, -1) && SnapOk(idles, requeued, c) && SnapOk(idles, pruned, c) && SnapOk(idles, promoted, c)
    && MostUrgent(s'.now.queues, s'.now.threads, c)
    && Departures(s.now.queues, s.now.threads, s.now.place, s'.now.threads, s'.now.place)
    && Releases(s.now.threads, s.now.place, s'.now.threads, s'.now.place)
    && s'.turn == NextTurn(s.now.queues, c, s.turn, now) && s'.next == s.next
  }

  ghost predicate EventStep(idles: seq<Tid>, s: Stage, e: Event, s': Stage)
  {
    if !Accepted(idles, s, e) then s' == s
    else match e
      case Add(t, th) => AddStep(s, t, th, s')
      case Change(t, ready, exited, wakeTimeout) =>
        s' == s.(now := s.now.(threads :=
          s.now.threads[t := s.now.threads[t].(ready := ready, exited := exited, wakeTimeout := wakeTimeout)]))
      case Timer(c, remaining, now) =>
        exists stolen: Snapshot, requeued: Snapshot, pruned: Snapshot, promoted: Snapshot ::
          TimerStep(idles, s, c, remaining, now, stolen, requeued, pruned, promoted, s')
  }

  /** The threads with an accepted Add among the first `n` events. */
  ghost function AddedBy(idles: seq<Tid>, trace: seq<Stage>, events: seq<Event>, n: nat): set<Tid>
    requires n <= |events| && n <= |trace|
  {
    if n == 0 then {}
    else AddedBy(idles, trace, events, n - 1)
         + (if events[n - 1].Add? && Accepted(idles, trace[n - 1], events[n - 1]) then {events[n - 1].t} else {})
  }

  /** The threads that have left their place by state `n`. */
  ghost function ReleasedBy(trace: seq<Stage>, n: nat): set<Tid>
    requires n < |trace|
  {
    if n == 0 then {} else ReleasedBy(trace, n - 1) + (trace[n - 1].now.place.Keys - trace[n].now.place.Keys)
  }

  /** Every thread that was ever in is in one place or released, never both; what is released is not
      held and does not come back. */
  ghost predicate Conserved(s0: Snapshot, s: Snapshot, added: set<Tid>, released: set<Tid>)
  {
    && added !! s0.threads.Keys && released !! s.place.Keys && s0.place.Keys + added == s.place.Keys + released
    && s0.threads.Keys + added == s.threads.Keys
    && forall t :: t in released ==> t in s.threads && s.threads[t].held == 0
  }

  lemma ConservedAdd(s0: Snapshot, s: Snapshot, s': Snapshot, added: set<Tid>, released: set<Tid>, t: Tid)
    requires Conserved(s0, s, added, released) && t !in s.threads && t !in s.place
    requires t in s'.threads && s'.threads == s.threads[t := s'.threads[t]] && s'.place.Keys == s.place.Keys + {t}
    ensures Conserved(s0, s', added + {t}, released + (s.place.Keys - s'.place.Keys))
  {
  }

  lemma ConservedChange(s0: Snapshot, s: Snapshot, s': Snapshot, added: set<Tid>, released: set<Tid>, t: Tid)
    requires Conserved(s0, s, added, released) && t in s.threads && s'.place == s.place
    requires t in s'.threads && s'.threads == s.threads[t := s'.threads[t]] && s'.threads[t].held == s.threads[t].held
    ensures Conserved(s0, s', added + {}, released + (s.place.Keys - s'.place.Keys))
  {
  }

  lemma ConservedRun(s0: Snapshot, s: Snapshot, s': Snapshot, added: set<Tid>, released: set<Tid>)
    requires Conserved(s0, s, added, released) && (forall t :: t in s.place ==> t in s.threads)
    requires Releases(s.threads, s.place, s'.threads, s'.place)
    ensures Conserved(s0, s', added + {}, released + (s.place.Keys - s'.place.Keys))
  {
    assert forall t :: t in s'.place ==> t in s.place.Keys;
  }

  lemma ConservedSame(s0: Snapshot, s: Snapshot, added: set<Tid>, released: set<Tid>)
    requires Conserved(s0, s, added, released)
    ensures Conserved(s0, s, added + {}, released + (s.place.Keys - s.place.Keys))
  {
  }

  lemma OkKnown(idles: seq<Tid>, s: Stage)
    requires StageOk(idles, s)
    ensures forall t :: t in s.now.place ==> t in s.now.threads
  {
    forall t | t in s.now.place ensures t in s.now.threads
    {
      assert ThreadOk(s.now.threads, s.now.place, idles, t);
    }
  }

  /** Threads are conserved over any run. */
  lemma {:induction false} RunConserves(idles: seq<Tid>, trace: seq<Stage>, events: seq<Event>, n: nat)
    requires n <= |events| && |trace| == |events| + 1 && forall i :: 0 <= i <= |events| ==> StageOk(idles, trace[i])
    requires forall i :: 0 <= i < |events| ==> EventStep(idles, trace[i], events[i], trace[i + 1])
    ensures Conserved(trace[0].now, trace[n].now, AddedBy(idles, trace, events, n), ReleasedBy(trace, n))
  {
    hide StageOk, Conserved, TimerStep;
    if n == 0 {
      ConservedNone(trace[0].now);
    } else {
      RunConserves(idles, trace, events, n - 1);
      var s0, s, e, s' := trace[0].now, trace[n - 1], events[n - 1], trace[n];
      var added, released := AddedBy(idles, trace, events, n - 1), ReleasedBy(trace, n - 1);
      OkKnown(idles, s);
      assert EventStep(idles, trace[n - 1], events[n - 1], trace[n - 1 + 1]);
      if !Accepted(idles, s, e) {
        ConservedSame(s0, s.now, added, released);
      } else {
        match e
        case Add(t, th) =>
          ConservedAdd(s0, s.now, s'.now, added, released, t);
        case Change(t, ready, exited, wakeTimeout) =>
          ConservedChange(s0, s.now, s'.now, added, released, t);
        case Timer(c, remaining, now) =>
          var a: Snapshot, b: Snapshot, x: Snapshot, y: Snapshot :|
            TimerStep(idles, s, c, remaining, now, a, b, x, y, s');
          TimerReleases(idles, s, c, remaining, now, a, b, x, y, s');
          ConservedRun(s0, s.now, s'.now, added, released);
      }
    }
  }

  lemma TimerReleases(idles: seq<Tid>, s: Stage, c: nat, remaining: nat, now: nat, a: Snapshot, b: Snapshot,
                      x: Snapshot, y: Snapshot, s': Stage)
    requires TimerStep(idles, s, c, remaining, now, a, b, x, y, s')
    ensures Releases(s.now.threads, s.now.place, s'.now.threads, s'.now.place)
  {
    hide Releases, StealStep, RequeueStep, PruneStep, PromoteStep, DispatchStep, MostUrgent, Departures;
  }

  lemma ConservedNone(s: Snapshot)
    ensures Conserved(s, s, {}, {})
  {
  }

  // ----- stealing only -----

  /** A sequence of steals, CPU `who[i]` stealing in step `i`. */
  ghost predicate Thefts(start: Snapshot, steps: seq<Snapshot>, who: seq<nat>, end: Snapshot)
  {
    && |steps| == |who| + 1 && steps[0] == start && steps[|who|] == end
    && forall i :: 0 <= i < |who| ==>
      Stolen(steps[i].threads, steps[i].place, steps[i + 1].threads, steps[i + 1].place, who[i])
  }

  lemma NoTheft(s: Snapshot)
    ensures Thefts(s, [s], [], s)
  {
  }

  lemma OneMoreTheft(start: Snapshot, steps: seq<Snapshot>, who: seq<nat>, s: Snapshot, s': Snapshot, c: nat)
    requires Thefts(start, steps, who, s) && Stolen(s.threads, s.place, s'.threads, s'.place, c)
    ensures Thefts(start, steps + [s'], who + [c], s')
  {
    hide Stolen;
  }

  lemma TheftsRehome(start: Snapshot, steps: seq<Snapshot>, who: seq<nat>, end: Snapshot)
    requires Thefts(start, steps, who, end) && forall t :: t in start.place ==> t in start.threads
    ensures Rehomed(start.threads, start.place, end.threads, end.place)
  {
    hide Stolen, Rehomed;
    RehomedNone(start.threads, start.place);
    for i := 0 to |who|
      invariant Rehomed(start.threads, start.place, steps[i].threads, steps[i].place)
    {
      RehomedMore(start.threads, start.place, steps[i].threads, steps[i].place,
                  steps[i + 1].threads, steps[i + 1].place, who[i]);
    }
  }

  lemma NextRound(rounds: nat, n: nat)
    ensures rounds * n + n == (rounds + 1) * n
  {
  }

  function Started(t: Tid): RunQueue
  {
    RunQueue(t, 0, seq(NUM_PRIORITIES, _ => []), [], 0, 0)
  }

  ghost function IndexIn(l: seq<Tid>, t: Tid): (i: nat)
    requires t in l
    ensures i < |l| && l[i] == t
  {
    if l[0] == t then 0 else 1 + IndexIn(l[1..], t)
  }

  lemma StartedPlaced(idles: seq<Tid>, qs: Queues, place: Places)
    requires Distinct(idles) && |qs| == |idles| && (forall c :: 0 <= c < |qs| ==> qs[c] == Started(idles[c]))
    requires place == map t | t in idles :: Running(IndexIn(idles, t))
    ensures Placed(qs, place, -1)
  {
    hide IndexIn;
    forall w | IsList(qs, w) ensures ListAgrees(qs, place, w)
    {
      assert qs[w.cpu] == Started(idles[w.cpu]);
      assert ListOf(qs, w) == [];
    }
    forall c | 0 <= c < |qs| ensures RunningAgrees(qs, place, c)
    {
      assert idles[c] in idles && idles[IndexIn(idles, idles[c])] == idles[c];
    }
  }

  lemma StartedAccounted(idles: seq<Tid>, threads: Threads, place: Places)
    requires Distinct(idles) && place == map t | t in idles :: Running(IndexIn(idles, t))
    requires threads.Keys == place.Keys
    requires forall t :: t in threads ==>
      threads[t] == Thread(IDLE_PRIORITY, None, threads[t].timeLeft, 0, true, false, true, 0, 0)
    ensures Accounted(threads, place, idles)
  {
    forall t | t in place ensures ThreadOk(threads, place, idles, t)
    {
      assert t in threads.Keys;
    }
    forall c | 0 <= c < |idles| ensures IdleOk(threads, place, idles, c)
    {
      assert idles[c] in idles && idles[c] in place.Keys;
      assert idles[IndexIn(idles, idles[c])] == idles[c];
    }
  }

  /** All lists of a kind are within one of each other. */
  ghost predicate Settled(qs: Queues)
  {
    forall c, i, n :: 0 <= c < |qs| && 0 <= i < |qs| && 0 <= n < STEAL_KINDS ==>
      Lengths(qs, n)[i] <= Lengths(qs, n)[c] + 1
  }

  lemma SettledBy(qs: Queues)
    requires forall c :: 0 <= c < |qs| ==> Balanced(qs, c, |qs|)
    ensures Settled(qs)
  {
    forall c, i, n | 0 <= c < |qs| && 0 <= i < |qs| && 0 <= n < STEAL_KINDS
      ensures Lengths(qs, n)[i] <= Lengths(qs, n)[c] + 1
    {
      if i != c {
        assert Balanced(qs, c, |qs|) && BalancedWith(qs, c, i, STEAL_KINDS);
      }
    }
  }

  ghost predicate SnapOk(idles: seq<Tid>, s: Snapshot, x: int)
  {
    Placed(s.queues, s.place, x) && Accounted(s.threads, s.place, idles)
  }

  /** The turn passes on after a steal. */
  function NextTurn(qs: Queues, c: nat, turn: nat, now: nat): nat
    requires c < |qs|
  {
    if turn == c && Elapsed(now, qs[c].lastSteal) > STEAL_FREQUENCY then (c + 1) % |qs| else turn
  }

  /** The first `n` threads of one CPU's list are on the front of another's, last first. */
  function Handed(qs: Queues, kind: nat, to: nat, from: nat, n: nat): (r: Queues)
  {
    var w, v := Stealable(kind, from), Stealable(kind, to);
    if to != from && IsList(qs, w) && IsList(qs, v) && n <= |ListOf(qs, w)| then
      WithList(WithList(qs, w, ListOf(qs, w)[n..]), v, Onto(ListOf(qs, w), n, ListOf(qs, v)))
    else qs
  }

  /** One balancing hands over half of what the other list is longer by. */
  function Evened(qs: Queues, kind: nat, to: nat, from: nat): (r: Queues)
  {
    var w, v := Stealable(kind, from), Stealable(kind, to);
    if IsList(qs, w) && IsList(qs, v) then Handed(qs, kind, to, from, Share(|ListOf(qs, w)|, |ListOf(qs, v)|)) else qs
  }

  /** CPU `c` has balanced the first `n` kinds of list with CPU `i`. */
  function Plundered(qs: Queues, c: nat, i: nat, n: nat): Queues
  {
    if n == 0 then qs else Evened(Plundered(qs, c, i, n - 1), n - 1, c, i)
  }

  /** CPU `c` has balanced with the first `n` CPUs, in turn. */
  function Raided(qs: Queues, c: nat, n: nat): Queues
  {
    if n == 0 then qs
    else if n - 1 == c then Raided(qs, c, n - 1)
    else Plundered(Raided(qs, c, n - 1), c, n - 1, STEAL_KINDS)
  }

  function Stamped(qs: Queues, c: nat, now: nat): Queues
  {
    if c < |qs| then qs[c := qs[c].(lastSteal := now)] else qs
  }

  lemma HandedNone(qs: Queues, kind: nat, to: nat, from: nat)
    requires IsList(qs, Stealable(kind, from)) && IsList(qs, Stealable(kind, to))
    ensures Handed(qs, kind, to, from, 0) == qs
  {
    var w, v := Stealable(kind, from), Stealable(kind, to);
    assert ListOf(qs, w)[0..] == ListOf(qs, w) && Onto(ListOf(qs, w), 0, ListOf(qs, v)) == ListOf(qs, v);
    SameListBack(qs, w);
    SameListBack(qs, v);
  }

  lemma SameListBack(qs: Queues, w: Place)
    requires IsList(qs, w)
    ensures WithList(qs, w, ListOf(qs, w)) == qs
  {
    var q := qs[w.cpu];
    if w.Ready? { assert q.ready[w.priority := q.ready[w.priority]] == q.ready; }
  }

  lemma HandedMore(qs: Queues, kind: nat, to: nat, from: nat, n: nat)
    requires to != from && IsList(qs, Stealable(kind, from)) && IsList(qs, Stealable(kind, to))
    requires n < |ListOf(qs, Stealable(kind, from))|
    ensures var qs1 := Handed(qs, kind, to, from, n);
      && IsList(qs1, Stealable(kind, from)) && IsList(qs1, Stealable(kind, to))
      && |ListOf(qs1, Stealable(kind, from))| > 0
      && Handed(qs, kind, to, from, n + 1) == Moved(qs1, Stealable(kind, from), 0, Stealable(kind, to), true)
  {
    var w, v := Stealable(kind, from), Stealable(kind, to);
    var l := ListOf(qs, w);
    assert l[n..][1..] == l[n + 1..] && Without(l[n..], 0) == l[n..][1..];
    assert Onto(l, n + 1, ListOf(qs, v)) == [l[n]] + Onto(l, n, ListOf(qs, v));
    ListsTwice(qs, w, v, l[n..], Onto(l, n, ListOf(qs, v)), l[n + 1..], Onto(l, n + 1, ListOf(qs, v)));
  }

  lemma ListsTwice(qs: Queues, w: Place, v: Place, a: seq<Tid>, b: seq<Tid>, a': seq<Tid>, b': seq<Tid>)
    requires IsList(qs, w) && IsList(qs, v) && w != v
    ensures WithList(WithList(WithList(WithList(qs, w, a), v, b), w, a'), v, b') == WithList(WithList(qs, w, a'), v, b')
  {
    var qs1 := WithList(WithList(WithList(WithList(qs, w, a), v, b), w, a'), v, b');
    var qs2 := WithList(WithList(qs, w, a'), v, b');
    forall c | 0 <= c < |qs| ensures qs1[c] == qs2[c]
    {
      assert qs1[c].ready == qs2[c].ready;
    }
  }

  datatype Snapshot = Snapshot(queues: Queues, threads: Threads, place: Places)

  /** A steal lowers the imbalance or finds no other CPU with a stealable list more than one longer. */
  ghost predicate StealStep(s: Snapshot, s': Snapshot, c: nat, turn: nat, now: nat)
  {
    && c < |s.queues|
    && if turn == c && Elapsed(now, s.queues[c].lastSteal) > STEAL_FREQUENCY then
        && Stolen(s.threads, s.place, s'.threads, s'.place, c)
        && s'.queues == Stamped(Raided(s.queues, c, |s.queues|), c, now)
        && (Imbalance(s'.queues, STEAL_KINDS) < Imbalance(s.queues, STEAL_KINDS)
            || (SameLengths(s.queues, s'.queues) && Balanced(s'.queues, c, |s'.queues|)))
      else s' == s
  }

  /** The current thread is charged and put on the list of its state. */
  ghost predicate RequeueStep(s: Snapshot, s': Snapshot, c: nat, remaining: nat)
  {
    && c < |s.queues| && s.queues[c].current in s.threads
    && var t := s.queues[c].current; var th := Scheduler.Charged(s.threads[t], remaining);
      var w := if th.ready then Ready(c, th.priority) else Blocked(c);
      && s'.threads == s.threads[t := th] && s'.place == s.place[t := w]
      && IsList(s.queues, w) && s'.queues == WithList(s.queues, w, ListOf(s.queues, w) + [t])
  }

  /** A used-up slice costs one level, down to the lowest below idle; what is left earns a bonus.
      Constant threads keep their level, and a charged thread always has time to run. */
  lemma ChargedFacts(th: Thread, remaining: nat)
    requires th.priority < NUM_PRIORITIES
    ensures var r := Scheduler.Charged(th, remaining);
      && r == th.(priority := r.priority, timeLeft := r.timeLeft) && r.priority < NUM_PRIORITIES
      && th.priority <= r.priority <= th.priority + 1
      && (r.priority > th.priority <==> remaining == 0 && !th.constant && th.priority < MAX_PRIORITY)
      && (th.constant ==> r.priority == th.priority) && (r.priority == IDLE_PRIORITY ==> th.priority == IDLE_PRIORITY)
      && r.timeLeft > remaining && r.timeLeft > 0
  {
    QuantumPositive(th.priority);
    QuantumPositive(th.priority + 1);
  }

  lemma QuantumPositive(p: nat)
    ensures Quantum(p) >= QUANTUM_MICROS
  {
  }

  lemma RequeueFacts(qs: Queues, threads: Threads, place: Places, c: nat, remaining: nat, th: Thread, w: Place)
    requires c < |qs| && qs[c].current in threads && qs[c].current in place && IsList(qs, w)
    requires th == Scheduler.Charged(threads[qs[c].current], remaining)
    requires w == if th.ready then Ready(c, th.priority) else Blocked(c)
    ensures var t := qs[c].current; var threads', place' := threads[t := th], place[t := w];
      && RequeueStep(Snapshot(qs, threads, place),
                     Snapshot(WithList(qs, w, Put(ListOf(qs, w), t, false)), threads', place'), c, remaining)
      && Releases(threads, place, threads', place') && place'.Keys == place.Keys
  {
    hide Quantum;
  }

  lemma BalanceNone(qs: Queues, kind: nat, from: nat, to: nat)
    requires IsList(qs, Stealable(kind, from)) && IsList(qs, Stealable(kind, to))
    ensures var giver, taker := ListOf(qs, Stealable(kind, from)), ListOf(qs, Stealable(kind, to));
      giver[0..] == giver && Onto(giver, 0, taker) == taker
  {
  }

  /** One thread moves from the front of the giver to the front of the taker. */
  lemma BalanceStep(qs: Queues, kind: nat, from: nat, to: nat, giver: seq<Tid>, i: nat, taker: seq<Tid>)
    requires from != to && i < |giver|
    requires IsList(qs, Stealable(kind, from)) && IsList(qs, Stealable(kind, to))
    requires ListOf(qs, Stealable(kind, from)) == giver[i..] && ListOf(qs, Stealable(kind, to)) == Onto(giver, i, taker)
    ensures var qs' := Moved(qs, Stealable(kind, from), 0, Stealable(kind, to), true);
      && IsList(qs', Stealable(kind, from)) && IsList(qs', Stealable(kind, to))
      && ListOf(qs', Stealable(kind, from)) == giver[i + 1..]
      && ListOf(qs', Stealable(kind, to)) == Onto(giver, i + 1, taker)
  {
    assert giver[i..][1..] == giver[i + 1..] && Without(giver[i..], 0) == giver[i..][1..];
  }

  lemma SameCurrentsNone(qs: Queues)
    ensures SameCurrents(qs, qs)
  {
  }

  lemma MovedCurrents(qs0: Queues, qs: Queues, w: Place, v: Place)
    requires SameCurrents(qs0, qs) && IsList(qs, w) && ListOf(qs, w) != [] && IsList(qs, v) && v != w
    ensures SameCurrents(qs0, Moved(qs, w, 0, v, true))
  {
  }

  /** Every blocked thread of CPU `c` is where its state says; nothing else moves. */
  ghost predicate PruneStep(s: Snapshot, s': Snapshot, c: nat, now: nat)
  {
    && c < |s.queues| && SameCurrents(s.queues, s'.queues)
    && s'.queues == s.queues[c := PrunedQueue(s.queues[c], s.threads, now, |s.queues[c].blocked|)]
    && (forall t :: t in s.queues[c].blocked ==>
          t in s.threads && Pruned(s.threads[t], now, t == s.queues[c].current, c, t, s'.place, s'.threads))
    && Elsewhere(s.place, s'.place, Blocked(c)) && OthersSame(s.threads, s'.threads, s.queues[c].blocked)
  }

  /** Threads outside a list are as they were. */
  ghost predicate OthersSame(threads: Threads, threads': Threads, l: seq<Tid>)
  {
    threads'.Keys == threads.Keys && forall t :: t in threads && t !in l ==> threads'[t] == threads[t]
  }

  ghost predicate PrunedUpTo(s: Snapshot, l: seq<Tid>, j: nat, c: nat, now: nat, threads: Threads, place: Places)
  {
    && j <= |l| && c < |s.queues| && l == s.queues[c].blocked && Distinct(l)
    && (forall k :: 0 <= k < |l| ==> l[k] in s.threads && l[k] in s.place && s.place[l[k]] == Blocked(c))
    && (forall k :: 0 <= k < j ==> Pruned(s.threads[l[k]], now, l[k] == s.queues[c].current, c, l[k], place, threads))
    && (forall k :: j <= k < |l| ==> l[k] in threads && threads[l[k]] == s.threads[l[k]])
    && Elsewhere(s.place, place, Blocked(c)) && OthersSame(s.threads, threads, l)
    && NoCurrentLost(s.queues, s.place, place)
  }

  lemma PrunedNone(s: Snapshot, c: nat, now: nat)
    requires c < |s.queues| && Distinct(s.queues[c].blocked)
    requires forall k :: 0 <= k < |s.queues[c].blocked| ==>
      var t := s.queues[c].blocked[k]; t in s.threads && t in s.place && s.place[t] == Blocked(c)
    ensures PrunedUpTo(s, s.queues[c].blocked, 0, c, now, s.threads, s.place)
  {
  }

  lemma PrunedMore(s: Snapshot, l: seq<Tid>, j: nat, c: nat, now: nat, threads: Threads, place: Places,
                   threads': Threads, place': Places)
    requires PrunedUpTo(s, l, j, c, now, threads, place) && j < |l| && l[j] in threads
    requires OnlyThread(threads, place, threads', place', l[j])
    requires Pruned(threads[l[j]], now, l[j] == s.queues[c].current, c, l[j], place', threads')
    requires l[j] !in place' ==> forall d :: 0 <= d < |s.queues| ==> s.queues[d].current != l[j]
    ensures PrunedUpTo(s, l, j + 1, c, now, threads', place')
  {
    hide Woken, OthersSame, Elsewhere, NoCurrentLost;
    OthersStill(s.threads, threads, place, threads', place', l, j);
    ElsewhereStill(s.place, threads, place, threads', place', Blocked(c), l[j]);
    NoneLostStill(s.queues, s.place, threads, place, threads', place', l[j]);
  }

  lemma OthersStill(ths: Threads, threads: Threads, place: Places, threads': Threads, place': Places, l: seq<Tid>,
                    j: nat)
    requires j < |l| && OthersSame(ths, threads, l) && l[j] in threads
    requires OnlyThread(threads, place, threads', place', l[j])
    ensures OthersSame(ths, threads', l)
  {
    forall t | t in ths && t !in l ensures t in threads' && threads'[t] == ths[t]
    {
      assert t != l[j] && t in threads.Keys;
    }
    forall t ensures t in threads'.Keys <==> t in threads.Keys {}
  }

  lemma ElsewhereStill(pl: Places, threads: Threads, place: Places, threads': Threads, place': Places, w: Place, t: Tid)
    requires Elsewhere(pl, place, w) && OnlyThread(threads, place, threads', place', t)
    requires t in pl && pl[t] == w
    ensures Elsewhere(pl, place', w)
  {
  }

  lemma NoneLostStill(qs: Queues, pl: Places, threads: Threads, place: Places, threads': Threads, place': Places,
                      t: Tid)
    requires NoCurrentLost(qs, pl, place) && OnlyThread(threads, place, threads', place', t)
    requires t !in place' ==> forall d :: 0 <= d < |qs| ==> qs[d].current != t
    ensures NoCurrentLost(qs, pl, place')
  {
  }

  lemma PrunedAll(s: Snapshot, s': Snapshot, c: nat, now: nat)
    requires c < |s.queues| && PrunedUpTo(s, s.queues[c].blocked, |s.queues[c].blocked|, c, now, s'.threads, s'.place)
    requires SameCurrents(s.queues, s'.queues)
    requires s'.queues == s.queues[c := PrunedQueue(s.queues[c], s.threads, now, |s.queues[c].blocked|)]
    ensures PruneStep(s, s', c, now) && NoCurrentLost(s.queues, s.place, s'.place)
  {
    hide PrunedQueue;
  }

  lemma PrunedAhead(s: Snapshot, l: seq<Tid>, j: nat, c: nat, now: nat, threads: Threads, place: Places)
    requires PrunedUpTo(s, l, j, c, now, threads, place) && j < |l|
    ensures l[j] in threads && l[j] in s.threads && threads[l[j]] == s.threads[l[j]]
  {
  }

  /** What pruning does with a blocked thread. */
  datatype Fate = Leaves | Readies(priority: nat) | Stays

  function FateOf(th: Thread, now: nat, current: bool): Fate
  {
    var w := Woken(th, now);
    if w.exited then (if current then Stays else Leaves) else if w.ready then Readies(w.priority) else Stays
  }

  /** One round of pruning, at place `i` of the blocked list. */
  function PrunedOnce(q: RunQueue, i: nat, fate: Fate): RunQueue
    requires i < |q.blocked| && (fate.Readies? ==> fate.priority < |q.ready|)
  {
    match fate
    case Stays => q
    case Leaves => q.(blocked := Without(q.blocked, i))
    case Readies(p) => q.(blocked := Without(q.blocked, i), ready := q.ready[p := q.ready[p] + [q.blocked[i]]])
  }

  /** The threads of a blocked list that stay on it, in order. */
  function Staying(l: seq<Tid>, threads: Threads, now: nat, current: Tid): seq<Tid>
  {
    if l == [] then []
    else
      var t := l[|l| - 1];
      Staying(l[..|l| - 1], threads, now, current)
      + (if t in threads && FateOf(threads[t], now, t == current) == Stays then [t] else [])
  }

  /** The threads of a blocked list that become ready at priority `p`, in order. */
  function Readied(l: seq<Tid>, threads: Threads, now: nat, current: Tid, p: nat): seq<Tid>
  {
    if l == [] then []
    else
      var t := l[|l| - 1];
      Readied(l[..|l| - 1], threads, now, current, p)
      + (if t in threads && FateOf(threads[t], now, t == current) == Readies(p) then [t] else [])
  }

  /** The ready lists once the threads of `l` that are ready have joined the backs of theirs. */
  function WithReadied(ready: seq<seq<Tid>>, l: seq<Tid>, threads: Threads, now: nat, current: Tid): (r: seq<seq<Tid>>)
    ensures |r| == |ready|
    ensures forall p :: 0 <= p < |ready| ==> r[p] == ready[p] + Readied(l, threads, now, current, p)
  {
    seq(|ready|, p requires 0 <= p < |ready| => ready[p] + Readied(l, threads, now, current, p))
  }

  /** A run queue once the first `j` blocked threads have been pruned: those that stay keep their
      order, and those that are ready join the back of the list of their priority. */
  function PrunedQueue(q: RunQueue, threads: Threads, now: nat, j: nat): (r: RunQueue)
    requires j <= |q.blocked|
    ensures |r.ready| == |q.ready|
  {
    var l := q.blocked[..j];
    q.(blocked := Staying(l, threads, now, q.current) + q.blocked[j..],
       ready := WithReadied(q.ready, l, threads, now, q.current))
  }

  lemma PrunedQueueNone(qs: Queues, c: nat, threads: Threads, now: nat)
    requires c < |qs|
    ensures qs == qs[c := PrunedQueue(qs[c], threads, now, 0)]
    ensures Staying(qs[c].blocked[..0], threads, now, qs[c].current) == []
  {
    hide WithReadied;
    var q := qs[c];
    var r := WithReadied(q.ready, [], threads, now, q.current);
    forall p | 0 <= p < |r| ensures r[p] == q.ready[p] {}
    assert r == q.ready && q.blocked[..0] == [] && [] + q.blocked[0..] == q.blocked;
  }

  lemma FilterNext(l: seq<Tid>, j: nat, threads: Threads, now: nat, current: Tid)
    requires j < |l| && l[j] in threads
    ensures var f := FateOf(threads[l[j]], now, l[j] == current);
      && Staying(l[..j + 1], threads, now, current) ==
         Staying(l[..j], threads, now, current) + (if f == Stays then [l[j]] else [])
      && (forall p :: Readied(l[..j + 1], threads, now, current, p)
            == Readied(l[..j], threads, now, current, p) + (if f == Readies(p) then [l[j]] else []))
  {
    hide FateOf;
    assert l[..j + 1][..j] == l[..j] && l[..j + 1][j] == l[j];
  }

  lemma ReadiedMore(ready: seq<seq<Tid>>, l: seq<Tid>, j: nat, threads: Threads, now: nat, current: Tid)
    requires j < |l| && l[j] in threads
    ensures var r, r', f := WithReadied(ready, l[..j], threads, now, current),
          WithReadied(ready, l[..j + 1], threads, now, current),
        FateOf(threads[l[j]], now, l[j] == current);
      if f.Readies? && f.priority < |ready| then r' == r[f.priority := r[f.priority] + [l[j]]] else r' == r
  {
    hide FateOf, Readied, WithReadied;
    FilterNext(l, j, threads, now, current);
    var r, r', f := WithReadied(ready, l[..j], threads, now, current),
          WithReadied(ready, l[..j + 1], threads, now, current),
      FateOf(threads[l[j]], now, l[j] == current);
    var x := if f.Readies? && f.priority < |ready| then r[f.priority := r[f.priority] + [l[j]]] else r;
    forall p | 0 <= p < |ready| ensures r'[p] == x[p] {}
  }

  lemma PrunedQueueMore(q: RunQueue, threads: Threads, now: nat, j: nat, i: nat)
    requires j < |q.blocked| && q.blocked[j] in threads && i == |Staying(q.blocked[..j], threads, now, q.current)|
    requires var f := FateOf(threads[q.blocked[j]], now, q.blocked[j] == q.current);
      f.Readies? ==> f.priority < |q.ready|
    ensures var q1, f := PrunedQueue(q, threads, now, j), FateOf(threads[q.blocked[j]], now, q.blocked[j] == q.current);
      && i < |q1.blocked| && q1.blocked[i] == q.blocked[j]
      && PrunedOnce(q1, i, f) == PrunedQueue(q, threads, now, j + 1)
      && |Staying(q.blocked[..j + 1], threads, now, q.current)| == if f.Stays? then i + 1 else i
  {
    hide FateOf, Staying, Readied, WithReadied;
    FilterNext(q.blocked, j, threads, now, q.current);
    ReadiedMore(q.ready, q.blocked, j, threads, now, q.current);
    var stay, rest := Staying(q.blocked[..j], threads, now, q.current), q.blocked[j..];
    assert rest == [q.blocked[j]] + q.blocked[j + 1..];
    assert Without(stay + rest, i) == stay + q.blocked[j + 1..];
    assert stay + rest == stay + [q.blocked[j]] + q.blocked[j + 1..];
  }

  /** The first stale thread of each list moves up one list, and no thread moves otherwise. */
  ghost predicate PromoteStep(s: Snapshot, s': Snapshot, c: nat, now: nat)
  {
    && c < |s.queues|
    && if Elapsed(now, s.queues[c].lastPromotion) > PROMOTE_FREQUENCY then
        && Promotions(s.threads, s.place, s'.threads, s'.place, c, now, NUM_PRIORITIES)
        && FirstsPromoted(s.queues, s.threads, s'.place, c, NUM_PRIORITIES, now)
        && var q := s.queues[c];
          s'.queues ==
            s.queues[c := q.(ready := PromotedLists(q.ready, s.threads, now, NUM_PRIORITIES), lastPromotion := now)]
      else s' == s
  }

  /** What the pass over list `p` does to the ready lists. */
  ghost function PromotedOnce(ready: seq<seq<Tid>>, threads: Threads, now: nat, p: nat): (r: seq<seq<Tid>>)
    requires p < |ready|
    ensures |r| == |ready|
  {
    var l, k := ready[p], FirstStale(ready[p], threads, now);
    if k == |l| || p == 0 then ready else ready[p := Without(l, k)][p - 1 := ready[p - 1] + [l[k]]]
  }

  ghost function WithoutStale(l: seq<Tid>, threads: Threads, now: nat): seq<Tid>
  {
    if FirstStale(l, threads, now) < |l| then Without(l, FirstStale(l, threads, now)) else l
  }

  ghost function StaleOf(l: seq<Tid>, threads: Threads, now: nat): seq<Tid>
  {
    if FirstStale(l, threads, now) < |l| then [l[FirstStale(l, threads, now)]] else []
  }

  /** List `i` after the passes over the first `p` lists: it has lost its first stale thread, and then
      got that of the list below at its back. */
  ghost function PromotedList(ready: seq<seq<Tid>>, threads: Threads, now: nat, p: nat, i: nat): seq<Tid>
    requires i < |ready|
  {
    if i >= p then ready[i]
    else if i + 1 >= p || i + 1 >= |ready| then WithoutStale(ready[i], threads, now)
    else WithoutStale(ready[i], threads, now) + StaleOf(ready[i + 1], threads, now)
  }

  ghost function PromotedLists(ready: seq<seq<Tid>>, threads: Threads, now: nat, p: nat): (r: seq<seq<Tid>>)
    ensures |r| == |ready| && forall i :: 0 <= i < |ready| ==> r[i] == PromotedList(ready, threads, now, p, i)
  {
    seq(|ready|, i requires 0 <= i < |ready| => PromotedList(ready, threads, now, p, i))
  }

  lemma PromotedListsNone(qs: Queues, c: nat, threads: Threads, now: nat)
    requires c < |qs|
    ensures qs == qs[c := qs[c].(ready := PromotedLists(qs[c].ready, threads, now, 0))]
  {
    hide PromotedLists;
    var r := PromotedLists(qs[c].ready, threads, now, 0);
    forall i | 0 <= i < |r| ensures r[i] == qs[c].ready[i] {}
    assert r == qs[c].ready;
  }

  lemma PromotedListsMore(ready: seq<seq<Tid>>, threads: Threads, threads': Threads, now: nat, p: nat)
    requires p < |ready| && FirstStale(ready[p], threads', now) == FirstStale(ready[p], threads, now)
    requires p == 0 ==> FirstStale(ready[p], threads, now) == |ready[p]|
    ensures PromotedOnce(PromotedLists(ready, threads, now, p), threads', now, p) ==
      PromotedLists(ready, threads, now, p + 1)
  {
    hide PromotedLists, PromotedList, FirstStale, PromotedOnce;
    var r, r' := PromotedLists(ready, threads, now, p), PromotedLists(ready, threads, now, p + 1);
    var x := PromotedOnce(r, threads', now, p);
    forall i | 0 <= i < |ready| ensures x[i] == r'[i]
    {
      PromotedListMore(ready, r, threads, threads', now, p, i);
    }
  }

  lemma PromotedListMore(ready: seq<seq<Tid>>, r: seq<seq<Tid>>, threads: Threads, threads': Threads, now: nat, p: nat,
                         i: nat)
    requires p < |ready| == |r| && i < |ready|
    requires FirstStale(ready[p], threads', now) == FirstStale(ready[p], threads, now)
    requires p == 0 ==> FirstStale(ready[p], threads, now) == |ready[p]|
    requires forall j :: 0 <= j < |ready| ==> r[j] == PromotedList(ready, threads, now, p, j)
    ensures PromotedOnce(r, threads', now, p)[i] == PromotedList(ready, threads, now, p + 1, i)
  {
    hide FirstStale, Without;
    assert r[p] == ready[p] && r[i] == PromotedList(ready, threads, now, p, i);
    if i + 1 == p {
      NothingAdded(WithoutStale(ready[i], threads, now));
    }
  }

  lemma NothingAdded(l: seq<Tid>)
    ensures l + [] == l
  {
  }

  /** The first thread of the most urgent list that is not empty becomes current. */
  ghost predicate DispatchStep(s: Snapshot, s': Snapshot, c: nat, now: nat)
  {
    && c < |s.queues| && |s'.queues| == |s.queues|
    && exists p :: Foremost(s.queues[c].ready, p) && SwitchStep(s, s', c, p, now)
  }

  /** The first thread of list `p` becomes current. */
  ghost predicate SwitchStep(s: Snapshot, s': Snapshot, c: nat, p: nat, now: nat)
  {
    && c < |s.queues| && |s'.queues| == |s.queues| && p < |s.queues[c].ready| && s.queues[c].ready[p] != []
    && var q, cur, next := s.queues[c], s.queues[c].current, s.queues[c].ready[p][0];
      && s'.queues ==
         s.queues[c := q.(ready := q.ready[p := q.ready[p][1..]], current := next,
                          prev := if next != cur then cur else q.prev)]
      && next in s.place && s.place[next] == Ready(c, p) && s'.place == s.place[next := Running(c)]
      && cur in s.threads && next in s.threads
      && var ths := s.threads[cur := s.threads[cur].(lastRan := now)];
        s'.threads == ths[next := ths[next].(lastRan := now)]
  }

  /** The first thread of a list leaves it for the current slot. */
  lemma SwitchPlaced(qs: Queues, place: Places, c: nat, p: nat, q: RunQueue)
    requires Placed(qs, place, c) && c < |qs| && p < |qs[c].ready| && qs[c].ready[p] != []
    requires q.current == qs[c].ready[p][0] && q.ready == qs[c].ready[p := qs[c].ready[p][1..]]
    requires q.blocked == qs[c].blocked
    ensures Placed(qs[c := q], place[q.current := Running(c)], -1)
  {
    hide Placed;
    var next, w := q.current, Ready(c, p);
    TakeKeeps(qs, place, c, w, 0);
    var qs1 := WithList(qs, w, Without(ListOf(qs, w), 0));
    assert Without(ListOf(qs, w), 0) == qs[c].ready[p][1..];
    DispatchKeeps(qs1, place - {next}, c, next, q);
    assert qs1[c := q] == qs[c := q];
    assert (place - {next})[next := Running(c)] == place[next := Running(c)];
  }

  lemma SwitchFacts(s: Snapshot, s': Snapshot, c: nat, p: nat, now: nat, q: RunQueue)
    requires c < |s.queues| && p < |s.queues[c].ready| && s.queues[c].ready[p] != []
    requires var cur, next := s.queues[c].current, s.queues[c].ready[p][0];
      && cur in s.threads && next in s.threads && s'.place == s.place[next := Running(c)]
      && next in s.place && s.place[next] == Ready(c, p)
      && q == s.queues[c].(ready := s.queues[c].ready[p := s.queues[c].ready[p][1..]], current := next,
                           prev := if next != cur then cur else s.queues[c].prev)
      && (var ran := s.threads[cur := s.threads[cur].(lastRan := now)];
          s'.threads == ran[next := ran[next].(lastRan := now)])
    requires s'.queues == s.queues[c := q]
    ensures SwitchStep(s, s', c, p, now)
  {
  }

  predicate Foremost(ready: seq<seq<Tid>>, p: nat)
  {
    p < |ready| && ready[p] != [] && forall q :: 0 <= q < p ==> ready[q] == []
  }

  /** Bookkeeping fields do not change the lengths of lists. */
  lemma StampLengths(qs: Queues, qs': Queues, c: nat)
    requires c < |qs| && |qs'| == |qs| && qs' == qs[c := qs[c].(lastSteal := qs'[c].lastSteal)]
    ensures SameLengths(qs, qs')
    ensures Imbalance(qs', STEAL_KINDS) == Imbalance(qs, STEAL_KINDS)
    ensures Balanced(qs, c, |qs|) ==> Balanced(qs', c, |qs'|)
    ensures forall q :: SameLengths(q, qs) ==> SameLengths(q, qs')
  {
    forall n | 0 <= n < STEAL_KINDS ensures Lengths(qs', n) == Lengths(qs, n)
    {
    }
    SameImbalance(qs, qs', STEAL_KINDS);
    if Balanced(qs, c, |qs|) { BalanceCarries(qs, qs', c); }
  }

  lemma {:induction false} SameImbalance(qs: Queues, qs': Queues, n: nat)
    requires SameLengths(qs, qs') && n <= STEAL_KINDS
    ensures Imbalance(qs', n) == Imbalance(qs, n)
  {
    if n > 0 { SameImbalance(qs, qs', n - 1); }
  }

  /** Threads only leave by release, exactly once each, and never one that is current. */
  ghost predicate Departures(qs: Queues, threads: Threads, place: Places, threads': Threads, place': Places)
  {
    && (forall t :: t in place' ==> t in place)
    && (forall t :: t in place && t !in place' ==>
          && t in threads && threads[t].held == 1 && t in threads' && threads'[t].held == 0
          && forall d :: 0 <= d < |qs| ==> qs[d].current != t)
  }

  /** No thread left ready on CPU `c` is more urgent than its current one. */
  ghost predicate MostUrgent(qs: Queues, threads: Threads, c: nat)
  {
    && c < |qs| && |qs[c].ready| == NUM_PRIORITIES
    && qs[c].current in threads && threads[qs[c].current].priority < NUM_PRIORITIES
    && forall p :: 0 <= p < threads[qs[c].current].priority ==> qs[c].ready[p] == []
  }

  ghost predicate SameLengths(qs: Queues, qs': Queues)
  {
    |qs| == |qs'| && forall n :: 0 <= n < STEAL_KINDS ==> Lengths(qs', n) == Lengths(qs, n)
  }

  /** No list of CPU `i`, of the first `kinds` kinds, is more than one longer than CPU `c`'s. */
  ghost predicate BalancedWith(qs: Queues, c: nat, i: nat, kinds: nat)
  {
    c < |qs| && i < |qs| && forall n :: 0 <= n < kinds ==> Lengths(qs, n)[i] <= Lengths(qs, n)[c] + 1
  }

  ghost predicate Balanced(qs: Queues, c: nat, count: nat)
  {
    forall i :: 0 <= i < count && i != c ==> BalancedWith(qs, c, i, STEAL_KINDS)
  }

  lemma SameLengthsNone(qs: Queues)
    ensures SameLengths(qs, qs)
  {
  }

  lemma SameLengthsChain(qs: Queues, qs1: Queues, qs2: Queues)
    requires SameLengths(qs, qs1) && SameLengths(qs1, qs2)
    ensures SameLengths(qs, qs2)
  {
  }

  lemma SameBalance(qs: Queues, qs1: Queues, c: nat, i: nat)
    requires SameLengths(qs, qs1) && BalancedWith(qs1, c, i, STEAL_KINDS)
    ensures BalancedWith(qs, c, i, STEAL_KINDS)
  {
  }

  lemma BalanceCarries(qs: Queues, qs': Queues, c: nat)
    requires SameLengths(qs, qs') && Balanced(qs, c, |qs|)
    ensures Balanced(qs', c, |qs'|)
  {
    forall i | 0 <= i < |qs'| && i != c ensures BalancedWith(qs', c, i, STEAL_KINDS)
    {
      assert BalancedWith(qs, c, i, STEAL_KINDS);
    }
  }

  lemma BalancedNone(qs: Queues, c: nat, i: nat)
    requires c < |qs| && i < |qs|
    ensures BalancedWith(qs, c, i, 0)
  {
  }

  lemma BalancedMore(qs: Queues, qs1: Queues, qs2: Queues, kind: nat, c: nat, i: nat)
    requires SameLengths(qs, qs1) && BalancedWith(qs, c, i, kind) && kind < STEAL_KINDS
    requires AllRebalanced(qs1, qs2, kind, c, i, 0) && Share(Lengths(qs1, kind)[i], Lengths(qs1, kind)[c]) == 0
    ensures SameLengths(qs, qs2) && BalancedWith(qs, c, i, kind + 1)
  {
    forall n | 0 <= n < STEAL_KINDS ensures Lengths(qs2, n) == Lengths(qs1, n)
    {
      assert Rebalanced(qs1, qs2, kind, c, i, 0, n);
      var l := Lengths(qs1, n);
      assert l[i := l[i] - 0][c := l[c] + 0] == l;
    }
  }

  lemma ImbalanceDrops(qs: Queues, qs': Queues, kind: nat, to: nat, from: nat, s: nat)
    requires kind < STEAL_KINDS && to < |qs| && from < |qs| && to != from
    requires AllRebalanced(qs, qs', kind, to, from, s) && s == Share(Lengths(qs, kind)[from], Lengths(qs, kind)[to])
    ensures Imbalance(qs', STEAL_KINDS) + 2 * s <= Imbalance(qs, STEAL_KINDS)
  {
    ImbalanceUpTo(qs, qs', kind, to, from, s, STEAL_KINDS);
  }

  lemma RebalancedAt(qs: Queues, qs': Queues, kind: nat, to: nat, from: nat, s: nat, n: nat)
    requires AllRebalanced(qs, qs', kind, to, from, s) && n < STEAL_KINDS
    ensures Rebalanced(qs, qs', kind, to, from, s, n)
  {
  }

  lemma {:induction false} ImbalanceUpTo(qs: Queues, qs': Queues, kind: nat, to: nat, from: nat, s: nat, n: nat)
    requires kind < STEAL_KINDS && to < |qs| && from < |qs| && to != from && n <= STEAL_KINDS
    requires AllRebalanced(qs, qs', kind, to, from, s) && s == Share(Lengths(qs, kind)[from], Lengths(qs, kind)[to])
    ensures Imbalance(qs', n) + (if kind < n then 2 * s else 0) <= Imbalance(qs, n)
  {
    hide Lengths, SumSquares, Share, AllRebalanced;
    if n > 0 {
      ImbalanceUpTo(qs, qs', kind, to, from, s, n - 1);
      RebalancedAt(qs, qs', kind, to, from, s, n - 1);
      assert Rebalanced(qs, qs', kind, to, from, s, n - 1);
      if n - 1 == kind { ShareFacts(Lengths(qs, kind), to, from); }
    }
  }

  /** One kind of list lost `s` threads on CPU `from` and gained them on CPU `to`. */
  ghost predicate Rebalanced(qs: Queues, qs': Queues, kind: nat, to: nat, from: nat, s: nat, n: nat)
  {
    && |qs'| == |qs| && to < |qs| && from < |qs|
    && if n == kind then
        s <= Lengths(qs, n)[from] &&
        Lengths(qs', n) == Lengths(qs, n)[from := Lengths(qs, n)[from] - s][to := Lengths(qs, n)[to] + s]
      else Lengths(qs', n) == Lengths(qs, n)
  }

  ghost predicate AllRebalanced(qs: Queues, qs': Queues, kind: nat, to: nat, from: nat, s: nat)
  {
    forall n :: 0 <= n < STEAL_KINDS ==> Rebalanced(qs, qs', kind, to, from, s, n)
  }

  lemma RebalancedNone(qs: Queues, kind: nat, to: nat, from: nat)
    requires to < |qs| && from < |qs| && to != from
    ensures AllRebalanced(qs, qs, kind, to, from, 0)
  {
    forall n | 0 <= n < STEAL_KINDS ensures Rebalanced(qs, qs, kind, to, from, 0, n)
    {
      var l := Lengths(qs, n);
      assert l[from := l[from] - 0][to := l[to] + 0] == l;
    }
  }

  lemma RebalancedMore(qs: Queues, qs1: Queues, kind: nat, to: nat, from: nat, i: nat)
    requires kind < STEAL_KINDS && from != to && from < |qs1| && to < |qs1|
    requires forall c :: 0 <= c < |qs1| ==> |qs1[c].ready| == NUM_PRIORITIES
    requires |ListOf(qs1, Stealable(kind, from))| > 0
    requires AllRebalanced(qs, qs1, kind, to, from, i)
    ensures AllRebalanced(qs, Moved(qs1, Stealable(kind, from), 0, Stealable(kind, to), true), kind, to, from, i + 1)
  {
    hide Lengths;
    var qs2 := Moved(qs1, Stealable(kind, from), 0, Stealable(kind, to), true);
    var k := i + 1;
    forall n | 0 <= n < STEAL_KINDS ensures Rebalanced(qs, qs2, kind, to, from, k, n)
    {
      assert Rebalanced(qs, qs1, kind, to, from, i, n);
      MovedLengths(qs1, kind, from, to, n);
      if n == kind {
        var l := Lengths(qs, n);
        assert Lengths(qs2, n) == l[from := l[from] - k][to := l[to] + k];
      }
    }
  }

  /** Long enough off the CPU to be promoted. */
  predicate Stale(th: Thread, now: nat)
  {
    !th.constant && Elapsed(now, th.lastRan) > Quantum(th.priority) * 2 && th.priority > PROMOTE_LIMIT
  }

  /** A promotion pass leaves a thread alone or, if it is stale and ready on CPU `c` at a
      priority below `p`, moves it up one level with a fresh time slice. */
  ghost predicate MaybePromoted(threads: Threads, place: Places, threads': Threads, place': Places, c: nat, now: nat,
                                p: nat, t: Tid)
  {
    && t in threads' && t in place' && t in threads && t in place
    && (|| (threads'[t] == threads[t] && place'[t] == place[t])
        || (&& place[t].Ready? && place[t].cpu == c && place[t].priority < p && Stale(threads[t], now)
            && threads[t].priority == place[t].priority
            && place'[t] == Ready(c, place[t].priority - 1)
            && threads'[t] ==
               threads[t].(priority := place[t].priority - 1, timeLeft := Quantum(place[t].priority - 1))))
  }

  ghost predicate Promotions(threads: Threads, place: Places, threads': Threads, place': Places, c: nat, now: nat,
                             p: nat)
  {
    && place'.Keys == place.Keys && threads'.Keys == threads.Keys
    && (forall t :: t in place ==> MaybePromoted(threads, place, threads', place', c, now, p, t))
    && (forall t :: t in threads && t !in place ==> threads'[t] == threads[t])
  }

  /** Only thread `t` may have changed or moved. */
  ghost predicate OnlyThread(threads: Threads, place: Places, threads': Threads, place': Places, t: Tid)
  {
    && (forall u :: u != t ==> (u in threads' <==> u in threads) && (u in threads ==> threads'[u] == threads[u]))
    && (forall u :: u != t ==> (u in place' <==> u in place) && (u in place ==> place'[u] == place[u]))
    && (t in threads ==> t in threads' && threads'[t].priority == threads[t].priority)
    && (t in place' ==> t in place) && (t in threads' ==> t in threads)
    && (t in threads && t in threads' ==> threads'[t].held == if t in place && t !in place' then 0 else threads[t].held)
  }

  /** References are dropped exactly for the threads that leave, and no thread enters. */
  ghost predicate Releases(threads: Threads, place: Places, threads': Threads, place': Places)
  {
    && (forall t :: t in place' ==> t in place) && (forall t :: t in threads' ==> t in threads)
    && (forall t :: t in threads ==>
            t in threads' && threads'[t].held == if t in place && t !in place' then 0 else threads[t].held)
  }

  /** Nothing that left was current. */
  ghost predicate NoCurrentLost(qs: Queues, place: Places, place': Places)
  {
    forall t, d :: t in place && t !in place' && 0 <= d < |qs| ==> qs[d].current != t
  }

  lemma CurrentsKept(qs: Queues, place: Places, place1: Places, place2: Places, place3: Places)
    requires place1.Keys == place.Keys && place3.Keys == place2.Keys && NoCurrentLost(qs, place1, place2)
    ensures NoCurrentLost(qs, place, place3)
  {
    assert forall t :: t in place1.Keys <==> t in place.Keys;
    assert forall t :: t in place3.Keys <==> t in place2.Keys;
  }

  lemma CurrentsOf(qs: Queues, qs': Queues, place: Places, place': Places)
    requires SameCurrents(qs, qs') && NoCurrentLost(qs', place, place')
    ensures NoCurrentLost(qs, place, place')
  {
    forall t, d | t in place && t !in place' && 0 <= d < |qs| ensures qs[d].current != t
    {
      assert qs'[d].current == qs[d].current;
    }
  }

  lemma ReleasesKnown(threads: Threads, place: Places, threads': Threads, place': Places, t: Tid)
    requires Releases(threads, place, threads', place') && t in threads
    ensures t in threads'
  {
  }

  lemma ReleasesNone(threads: Threads, place: Places)
    ensures Releases(threads, place, threads, place)
  {
  }

  lemma ReleasesChain(threads: Threads, place: Places, threads1: Threads, place1: Places, threads2: Threads,
                      place2: Places)
    requires Releases(threads, place, threads1, place1) && Releases(threads1, place1, threads2, place2)
    ensures Releases(threads, place, threads2, place2)
  {
  }

  lemma OnlyThreadReleases(threads: Threads, place: Places, threads': Threads, place': Places, t: Tid)
    requires OnlyThread(threads, place, threads', place', t)
    ensures Releases(threads, place, threads', place')
  {
  }

  lemma StolenReleases(threads: Threads, place: Places, threads': Threads, place': Places, to: nat)
    requires Stolen(threads, place, threads', place', to)
    ensures Releases(threads, place, threads', place') && place'.Keys == place.Keys
  {
    assert forall t :: t in place'.Keys <==> t in place.Keys;
    assert forall t :: t in threads'.Keys <==> t in threads.Keys;
    forall t | t in place ensures threads'[t].held == threads[t].held
    {
      assert StolenThread(threads, place, threads', place', to, t);
    }
  }

  lemma PromotionsRelease(threads: Threads, place: Places, threads': Threads, place': Places, c: nat, now: nat, p: nat)
    requires Promotions(threads, place, threads', place', c, now, p)
    ensures Releases(threads, place, threads', place') && place'.Keys == place.Keys
  {
    assert forall t :: t in place'.Keys <==> t in place.Keys;
    assert forall t :: t in threads'.Keys <==> t in threads.Keys;
    forall t | t in place ensures threads'[t].held == threads[t].held
    {
      assert MaybePromoted(threads, place, threads', place', c, now, p, t);
    }
  }

  ghost predicate SameCurrents(qs: Queues, qs': Queues)
  {
    |qs| == |qs'| && forall c :: 0 <= c < |qs| ==> qs'[c].current == qs[c].current
  }

  lemma SameCurrentsChain(qs: Queues, qs1: Queues, qs2: Queues)
    requires SameCurrents(qs, qs1) && SameCurrents(qs1, qs2)
    ensures SameCurrents(qs, qs2) && |qs| == |qs1| == |qs2|
  {
  }

  /** Threads outside the list `w` stay where they are. */
  ghost predicate Elsewhere(place: Places, place': Places, w: Place)
  {
    && (forall t :: t in place && place[t] != w ==> t in place' && place'[t] == place[t])
    && (forall t :: t in place' ==> t in place)
  }

  /** A wake timeout that has passed makes the thread ready. */
  function Woken(th: Thread, now: nat): Thread
  {
    if th.wakeTimeout != 0 && th.wakeTimeout <= now then th.(wakeTimeout := 0, ready := true) else th
  }

  /** The thread's wake timeout has passed. */
  predicate Due(th: Thread, now: nat)
  {
    0 < th.wakeTimeout <= now
  }

  /** What pruning makes of a blocked thread.  One that has exited is released, unless it is the thread being
      switched away from; one that is ready, or whose timeout has passed, is ready and on the list of its priority;
      any other is as it was. */
  ghost predicate Decided(s: Snapshot, s': Snapshot, c: nat, now: nat, t: Tid)
    requires c < |s.queues|
  {
    && t in s.threads && t in s'.threads
    && var th, th' := s.threads[t], s'.threads[t];
      var timeout := if Due(th, now) then 0 else th.wakeTimeout;
      && (th.exited && t != s.queues[c].current ==>
            t !in s'.place && th' == th.(held := 0, ready := th.ready || Due(th, now), wakeTimeout := timeout))
      && (th.exited && t == s.queues[c].current ==>
            && t in s'.place && s'.place[t] == Blocked(c)
            && th' == th.(ready := th.ready || Due(th, now), wakeTimeout := timeout))
      && (!th.exited && (th.ready || Due(th, now)) ==>
            && t in s'.place && s'.place[t] == Ready(c, th.priority) && th'.ready
            && th' == th.(ready := true, wakeTimeout := timeout))
      && (!th.exited && !th.ready && !Due(th, now) ==> t in s'.place && s'.place[t] == Blocked(c) && th' == th)
  }

  lemma PruneDecides(s: Snapshot, s': Snapshot, c: nat, now: nat)
    requires PruneStep(s, s', c, now)
    ensures forall t :: t in s.queues[c].blocked ==> Decided(s, s', c, now, t)
  {
    hide PrunedQueue;
  }

  /** The threads of the blocked list that stay on it. */
  ghost function Sleepers(s: Snapshot, c: nat, now: nat): set<Tid>
    requires c < |s.queues|
  {
    set t | t in s.queues[c].blocked && t in s.threads &&
      (if s.threads[t].exited then t == s.queues[c].current else !s.threads[t].ready && !Due(s.threads[t], now))
  }

  /** The threads of the blocked list that become ready at a priority. */
  ghost function Risers(s: Snapshot, c: nat, now: nat, p: nat): set<Tid>
    requires c < |s.queues|
  {
    set t | t in s.queues[c].blocked && t in s.threads && s.threads[t].priority == p &&
      !s.threads[t].exited && (s.threads[t].ready || Due(s.threads[t], now))
  }

  /** Those that stay keep their order, and the others join the backs of the ready lists in theirs. */
  ghost predicate PruneOrder(s: Snapshot, s': Snapshot, c: nat, now: nat)
  {
    && c < |s.queues| == |s'.queues| && |s'.queues[c].ready| == |s.queues[c].ready|
    && s'.queues[c].blocked == Only(s.queues[c].blocked, Sleepers(s, c, now))
    && (forall p :: 0 <= p < |s.queues[c].ready| ==>
          s'.queues[c].ready[p] == s.queues[c].ready[p] + Only(s.queues[c].blocked, Risers(s, c, now, p)))
    && forall d :: 0 <= d < |s.queues| && d != c ==> s'.queues[d] == s.queues[d]
  }

  lemma {:induction false} StayingOnly(l: seq<Tid>, threads: Threads, now: nat, current: Tid, keep: set<Tid>)
    requires forall t :: t in l ==> (t in keep <==> t in threads && FateOf(threads[t], now, t == current) == Stays)
    ensures Staying(l, threads, now, current) == Only(l, keep)
  {
    hide FateOf;
    if l != [] { StayingOnly(l[..|l| - 1], threads, now, current, keep); }
  }

  lemma {:induction false} ReadiedOnly(l: seq<Tid>, threads: Threads, now: nat, current: Tid, p: nat, keep: set<Tid>)
    requires forall t :: t in l ==> (t in keep <==> t in threads && FateOf(threads[t], now, t == current) == Readies(p))
    ensures Readied(l, threads, now, current, p) == Only(l, keep)
  {
    hide FateOf;
    if l != [] { ReadiedOnly(l[..|l| - 1], threads, now, current, p, keep); }
  }

  lemma PruneOrdered(s: Snapshot, s': Snapshot, c: nat, now: nat)
    requires PruneStep(s, s', c, now)
    ensures PruneOrder(s, s', c, now)
  {
    hide Staying, Readied, WithReadied, Pruned, Elsewhere, OthersSame, SameCurrents, Only;
    var q := s.queues[c];
    assert q.blocked[..|q.blocked|] == q.blocked && q.blocked[|q.blocked|..] == [];
    StayingOnly(q.blocked, s.threads, now, q.current, Sleepers(s, c, now));
    NothingAdded(Staying(q.blocked, s.threads, now, q.current));
    forall p | 0 <= p < |q.ready|
      ensures s'.queues[c].ready[p] == q.ready[p] + Only(q.blocked, Risers(s, c, now, p))
    {
      ReadiedOnly(q.blocked, s.threads, now, q.current, p, Risers(s, c, now, p));
    }
  }

  /** Where a blocked thread is after pruning: released if exited (unless it is the thread being
      switched away from), on the ready list of its priority if ready, else still blocked. */
  ghost predicate Pruned(th: Thread, now: nat, current: bool, c: nat, t: Tid, place: Places, threads: Threads)
  {
    var w := Woken(th, now);
    && t in threads
    && if w.exited && !current then t !in place && threads[t] == w.(held := 0)
      else t in place && threads[t] == w
           && place[t] == if w.ready && !w.exited then Ready(c, w.priority) else Blocked(c)
  }

  /** Index of the first stale thread of a list, or its length. */
  ghost function FirstStale(l: seq<Tid>, threads: Threads, now: nat): (k: nat)
    ensures k <= |l|
  {
    if l == [] then 0
    else if l[0] in threads && Stale(threads[l[0]], now) then 0
    else 1 + FirstStale(l[1..], threads, now)
  }

  lemma FirstStaleStep(l: seq<Tid>, j: nat, threads: Threads, now: nat)
    requires j <= |l|
    ensures j < |l| && l[j] in threads && Stale(threads[l[j]], now) ==> FirstStale(l[j..], threads, now) == 0
    ensures j < |l| && !(l[j] in threads && Stale(threads[l[j]], now)) ==>
      FirstStale(l[j..], threads, now) == 1 + FirstStale(l[j + 1..], threads, now)
    ensures j == 0 ==> l[j..] == l
    ensures j == |l| ==> FirstStale(l[j..], threads, now) == 0
  {
    if j < |l| { assert l[j..][1..] == l[j + 1..]; }
  }

  ghost predicate SameList(qs: Queues, threads: Threads, qs': Queues, threads': Threads, c: nat, q: nat)
  {
    && c < |qs| && c < |qs'| && q < |qs[c].ready| && q < |qs'[c].ready| && qs'[c].ready[q] == qs[c].ready[q]
    && forall t :: t in qs[c].ready[q] ==> t in threads && t in threads' && threads'[t] == threads[t]
  }

  lemma {:induction false} SameFirst(l: seq<Tid>, threads: Threads, threads': Threads, now: nat)
    requires forall t :: t in l ==> t in threads && t in threads' && threads'[t] == threads[t]
    ensures FirstStale(l, threads', now) == FirstStale(l, threads, now)
  {
    if l != [] { SameFirst(l[1..], threads, threads', now); }
  }

  /** The first stale thread of list `q`, if there is one, has moved up. */
  ghost predicate FirstPromoted(qs: Queues, threads: Threads, place': Places, c: nat, q: nat, now: nat)
  {
    && c < |qs| && q < |qs[c].ready|
    && var l := qs[c].ready[q]; var k := FirstStale(l, threads, now);
      k < |l| ==> q > 0 && l[k] in place' && place'[l[k]] == Ready(c, q - 1)
  }

  /** Exactly thread `t` moved, from list `w` to the back of list `v`. */
  ghost predicate OnlyMoved(qs: Queues, threads: Threads, place: Places, qs': Queues, threads': Threads, place': Places,
                            t: Tid, w: Place, v: Place)
  {
    && t in place && place[t] == w && place' == place[t := v] && t in threads' && threads' == threads[t := threads'[t]]
    && IsList(qs, w) && IsList(qs, v) && |qs'| == |qs| && (forall u :: IsList(qs', u) <==> IsList(qs, u))
    && (forall u :: IsList(qs, u) && u != w && u != v ==> ListOf(qs', u) == ListOf(qs, u))
  }

  /** Lists from priority `p` up are as they were. */
  ghost predicate Untouched(qs: Queues, threads: Threads, qs': Queues, threads': Threads, c: nat, p: nat)
  {
    forall q :: p <= q < NUM_PRIORITIES ==> SameList(qs, threads, qs', threads', c, q)
  }

  ghost predicate FirstsPromoted(qs: Queues, threads: Threads, place': Places, c: nat, p: nat, now: nat)
  {
    forall q :: 0 <= q < p ==> FirstPromoted(qs, threads, place', c, q, now)
  }

  /** The pass over list `p` moves its first stale thread, or changes nothing. */
  ghost predicate PromotedFirst(qs: Queues, threads: Threads, place: Places, qs': Queues, threads': Threads,
                                place': Places, c: nat, p: nat, now: nat)
  {
    && c < |qs| && p < |qs[c].ready|
    && var l := qs[c].ready[p]; var k := FirstStale(l, threads, now);
      && qs' == qs[c := qs[c].(ready := PromotedOnce(qs[c].ready, threads, now, p))]
      && if k == |l| then qs' == qs && threads' == threads && place' == place
        else k < |l| && 0 < p
             && OnlyMoved(qs, threads, place, qs', threads', place', l[k], Ready(c, p), Ready(c, p - 1))
  }

  lemma PromotedHere(qs: Queues, threads: Threads, place: Places, c: nat, p: nat, j: nat, now: nat, th: Thread)
    requires c < |qs| && 0 < p < |qs[c].ready| && j < |qs[c].ready[p]| && j == FirstStale(qs[c].ready[p], threads, now)
    requires qs[c].ready[p][j] in place && place[qs[c].ready[p][j]] == Ready(c, p)
    ensures var t := qs[c].ready[p][j];
      PromotedFirst(qs, threads, place, Moved(qs, Ready(c, p), j, Ready(c, p - 1), false),
                    threads[t := th], place[t := Ready(c, p - 1)], c, p, now)
  {
    hide FirstStale;
  }

  lemma NoneStale(qs: Queues, threads: Threads, place: Places, c: nat, p: nat, now: nat)
    requires c < |qs| && p < |qs[c].ready| && FirstStale(qs[c].ready[p], threads, now) == |qs[c].ready[p]|
    ensures PromotedFirst(qs, threads, place, qs, threads, place, c, p, now)
  {
    hide FirstStale;
  }

  lemma PromotedMore(qs0: Queues, threads0: Threads, qs: Queues, threads: Threads, place: Places,
                    qs': Queues, threads': Threads, place': Places, c: nat, p: nat, now: nat)
    requires c < |qs| && p < NUM_PRIORITIES == |qs[c].ready|
    requires Untouched(qs0, threads0, qs, threads, c, p) && FirstsPromoted(qs0, threads0, place, c, p, now)
    requires forall q, u :: 0 <= q < NUM_PRIORITIES && u in qs[c].ready[q] ==>
      u in place && place[u] == Ready(c, q) && u in threads
    requires PromotedFirst(qs, threads, place, qs', threads', place', c, p, now)
    ensures Untouched(qs0, threads0, qs', threads', c, p + 1) && FirstsPromoted(qs0, threads0, place', c, p + 1, now)
    ensures |qs0| > c && |qs0[c].ready| > p
    ensures FirstStale(qs0[c].ready[p], threads, now) == FirstStale(qs0[c].ready[p], threads0, now)
    ensures qs' == qs[c := qs[c].(ready := PromotedOnce(qs[c].ready, threads, now, p))]
    ensures p == 0 ==> FirstStale(qs0[c].ready[p], threads0, now) == |qs0[c].ready[p]|
  {
    hide FirstStale, PromotedOnce;
    assert SameList(qs0, threads0, qs, threads, c, p);
    SameFirst(qs[c].ready[p], threads0, threads, now);
    forall q | p + 1 <= q < NUM_PRIORITIES ensures SameList(qs0, threads0, qs', threads', c, q)
    {
      assert SameList(qs0, threads0, qs, threads, c, q);
      assert IsList(qs, Ready(c, q)) && IsList(qs', Ready(c, q));
      assert ListOf(qs', Ready(c, q)) == ListOf(qs, Ready(c, q));
    }
    forall q | 0 <= q < p + 1 ensures FirstPromoted(qs0, threads0, place', c, q, now)
    {
      if q < p { assert FirstPromoted(qs0, threads0, place, c, q, now); }
    }
  }

  lemma StaleFacts(th: Thread, now: nat)
    requires Stale(th, now)
    ensures !th.constant && th.priority > PROMOTE_LIMIT
  {
  }

  lemma PromotedNone(threads: Threads, place: Places, threads': Threads, place': Places, c: nat, now: nat, p: nat)
    requires Promotions(threads, place, threads', place', c, now, p)
    ensures Promotions(threads, place, threads', place', c, now, p + 1)
  {
    forall t | t in place ensures MaybePromoted(threads, place, threads', place', c, now, p + 1, t)
    {
      assert MaybePromoted(threads, place, threads', place', c, now, p, t);
    }
  }

  lemma PromotedOne(threads: Threads, place: Places, threads1: Threads, place1: Places, c: nat, now: nat, p: nat,
                    t: Tid)
    requires Promotions(threads, place, threads1, place1, c, now, p)
    requires t in place1 && place1[t] == Ready(c, p) && t in threads1 && threads1[t].priority == p
    requires Stale(threads1[t], now) && p > 0
    ensures Promotions(threads, place, threads1[t := threads1[t].(priority := p - 1, timeLeft := Quantum(p - 1))],
                       place1[t := Ready(c, p - 1)], c, now, p + 1)
  {
    hide Stale, Quantum;
    var threads', place' := threads1[t := threads1[t].(priority := p - 1, timeLeft := Quantum(p - 1))],
      place1[t := Ready(c, p - 1)];
    assert place'.Keys == place.Keys && threads'.Keys == threads.Keys;
    forall u | u in place ensures MaybePromoted(threads, place, threads', place', c, now, p + 1, u)
    {
      assert MaybePromoted(threads, place, threads1, place1, c, now, p, u);
    }
  }
}
