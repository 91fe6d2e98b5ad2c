/** The scheduler's run queues and where each thread is. */
module RunQueues {
  import opened Common

  const NUM_PRIORITIES := 8
  const IDLE_PRIORITY := 7
  const MAX_PRIORITY := 6
  const PROMOTE_LIMIT := 1

  /** Threads are named by numbers. */
  type Tid = nat

  datatype RunQueue = RunQueue(
    current: Tid,
    prev: Tid,
    ready: seq<seq<Tid>>,
    blocked: seq<Tid>,
    lastPromotion: nat,
    lastSteal: nat)

  /** TCB and thread state.  `held` counts the references the scheduler owns. */
  datatype Thread = Thread(
    priority: nat,
    cpu: Option<nat>,
    timeLeft: nat,
    lastRan: nat,
    ready: bool,
    exited: bool,
    constant: bool,
    wakeTimeout: nat,
    held: nat)

  datatype Place = Running(cpu: nat) | Ready(cpu: nat, priority: nat) | Blocked(cpu: nat)

  type Queues = seq<RunQueue>
  type Places = map<Tid, Place>

  predicate IsList(qs: Queues, w: Place)
  {
    w.cpu < |qs| && (w.Blocked? || (w.Ready? && w.priority < |qs[w.cpu].ready|))
  }

  function ListOf(qs: Queues, w: Place): seq<Tid>
    requires IsList(qs, w)
  {
    if w.Blocked? then qs[w.cpu].blocked else qs[w.cpu].ready[w.priority]
  }

  function WithList(qs: Queues, w: Place, l: seq<Tid>): (r: Queues)
    requires IsList(qs, w)
    ensures |r| == |qs|
    ensures forall v :: IsList(r, v) <==> IsList(qs, v)
    ensures forall v :: IsList(qs, v) ==> ListOf(r, v) == if v == w then l else ListOf(qs, v)
    ensures forall c :: 0 <= c < |qs| ==> r[c].current == qs[c].current && |r[c].ready| == |qs[c].ready|
    ensures forall c :: 0 <= c < |qs| ==>
      r[c].lastPromotion == qs[c].lastPromotion && r[c].lastSteal == qs[c].lastSteal && r[c].prev == qs[c].prev
  {
    var q := qs[w.cpu];
    qs[w.cpu := if w.Blocked? then q.(blocked := l) else q.(ready := q.ready[w.priority := l])]
  }

  ghost predicate ListAgrees(qs: Queues, place: Places, w: Place)
    requires IsList(qs, w)
  {
    Distinct(ListOf(qs, w)) && forall t :: t in ListOf(qs, w) <==> t in place && place[t] == w
  }

  ghost predicate RunningAgrees(qs: Queues, place: Places, c: nat)
    requires c < |qs|
  {
    qs[c].current in place && place[qs[c].current] == Running(c)
  }

  /** Every thread is in exactly one place: the current slot of one CPU or one list, once.
      CPU `x` is in the middle of scheduling and its current slot does not count. */
  ghost predicate Placed(qs: Queues, place: Places, x: int)
  {
    && (forall c :: 0 <= c < |qs| ==> |qs[c].ready| == NUM_PRIORITIES)
    && (forall w :: IsList(qs, w) ==> ListAgrees(qs, place, w))
    && (forall c :: 0 <= c < |qs| && c != x ==> RunningAgrees(qs, place, c))
    && (forall t :: t in place ==>
          if place[t].Running? then place[t].cpu < |qs| && place[t].cpu != x && qs[place[t].cpu].current == t
          else IsList(qs, place[t]))
  }

  /** Taking a thread out of a list leaves everything else in place. */
  lemma TakeKeeps(qs: Queues, place: Places, x: int, w: Place, k: nat)
    requires Placed(qs, place, x) && IsList(qs, w) && k < |ListOf(qs, w)|
    ensures ListOf(qs, w)[k] in place && place[ListOf(qs, w)[k]] == w
    ensures Placed(WithList(qs, w, Without(ListOf(qs, w), k)), place - {ListOf(qs, w)[k]}, x)
  {
    var l := ListOf(qs, w);
    var t := l[k];
    assert ListAgrees(qs, place, w);
    assert t in l;
    var qs', place' := WithList(qs, w, Without(l, k)), place - {t};
    WithoutMembers(l, k);
    forall v | IsList(qs', v) ensures ListAgrees(qs', place', v)
    {
      assert ListAgrees(qs, place, v);
    }
    forall c | 0 <= c < |qs'| && c != x ensures RunningAgrees(qs', place', c)
    {
      assert RunningAgrees(qs, place, c);
    }
  }

  function Without(l: seq<Tid>, k: nat): (r: seq<Tid>)
    requires k < |l|
    ensures |r| == |l| - 1
    ensures forall i :: 0 <= i < |r| ==> r[i] == if i < k then l[i] else l[i + 1]
  {
    l[..k] + l[k + 1..]
  }

  lemma WithoutMembers(l: seq<Tid>, k: nat)
    requires Distinct(l) && k < |l|
    ensures Distinct(Without(l, k))
    ensures forall t :: t in Without(l, k) <==> t in l && t != l[k]
  {
    var r := Without(l, k);
    forall t | t in l && t != l[k] ensures t in r
    {
      var i :| 0 <= i < |l| && l[i] == t;
      assert r[if i < k then i else i - 1] == t;
    }
  }

  lemma PutMembers(l: seq<Tid>, t: Tid, front: bool)
    requires Distinct(l) && t !in l
    ensures Distinct(Put(l, t, front))
    ensures forall u :: u in Put(l, t, front) <==> u in l || u == t
  {
  }

  function Put(l: seq<Tid>, t: Tid, front: bool): seq<Tid>
  {
    if front then [t] + l else l + [t]
  }

  /** Putting an unplaced thread at either end of a list gives it that place. */
  lemma PutKeeps(qs: Queues, place: Places, x: int, w: Place, t: Tid, front: bool)
    requires Placed(qs, place, x) && IsList(qs, w) && t !in place
    ensures Placed(WithList(qs, w, Put(ListOf(qs, w), t, front)), place[t := w], x)
  {
    var l := ListOf(qs, w);
    assert ListAgrees(qs, place, w);
    PutMembers(l, t, front);
    var qs', place' := WithList(qs, w, Put(l, t, front)), place[t := w];
    forall v | IsList(qs', v) ensures ListAgrees(qs', place', v)
    {
      assert ListAgrees(qs, place, v);
    }
    forall c | 0 <= c < |qs'| && c != x ensures RunningAgrees(qs', place', c)
    {
      assert RunningAgrees(qs, place, c);
    }
  }

  /** The current thread of CPU `c` leaves its slot to be requeued. */
  lemma YieldKeeps(qs: Queues, place: Places, c: nat)
    requires Placed(qs, place, -1) && c < |qs|
    ensures qs[c].current in place && place[qs[c].current] == Running(c)
    ensures Placed(qs, place - {qs[c].current}, c)
  {
    assert RunningAgrees(qs, place, c);
    var place' := place - {qs[c].current};
    forall w | IsList(qs, w) ensures ListAgrees(qs, place', w)
    {
      assert ListAgrees(qs, place, w);
    }
    forall d | 0 <= d < |qs| && d != c ensures RunningAgrees(qs, place', d)
    {
      assert RunningAgrees(qs, place, d);
    }
  }

  /** An unplaced thread becomes the current thread of CPU `c`. */
  lemma DispatchKeeps(qs: Queues, place: Places, c: nat, t: Tid, q: RunQueue)
    requires Placed(qs, place, c) && c < |qs| && t !in place
    requires q.current == t && q.ready == qs[c].ready && q.blocked == qs[c].blocked
    ensures Placed(qs[c := q], place[t := Running(c)], -1)
  {
    var qs', place' := qs[c := q], place[t := Running(c)];
    forall w | IsList(qs', w) ensures ListAgrees(qs', place', w)
    {
      assert IsList(qs, w) && ListOf(qs', w) == ListOf(qs, w);
      assert ListAgrees(qs, place, w);
    }
    forall d | 0 <= d < |qs'| ensures RunningAgrees(qs', place', d)
    {
      if d != c { assert RunningAgrees(qs, place, d); }
    }
  }

  /** Bookkeeping fields of a queue do not matter to the placement. */
  lemma StampKeeps(qs: Queues, place: Places, x: int, c: nat, q: RunQueue)
    requires Placed(qs, place, x) && c < |qs|
    requires q.current == qs[c].current && q.ready == qs[c].ready && q.blocked == qs[c].blocked
    ensures Placed(qs[c := q], place, x)
  {
    var qs' := qs[c := q];
    forall w | IsList(qs', w) ensures ListAgrees(qs', place, w)
    {
      assert IsList(qs, w) && ListOf(qs', w) == ListOf(qs, w);
      assert ListAgrees(qs, place, w);
    }
    forall d | 0 <= d < |qs'| && d != x ensures RunningAgrees(qs', place, d)
    {
      assert RunningAgrees(qs, place, d);
    }
  }

  type Threads = map<Tid, Thread>

  /** A placed thread's own fields agree with its place; idle threads belong to no queue's
      accounting and carry no reference. */
  ghost predicate ThreadOk(threads: Threads, place: Places, idles: seq<Tid>, t: Tid)
  {
    && t in threads && t in place && threads[t].priority < NUM_PRIORITIES
    && (place[t].Ready? ==> threads[t].priority == place[t].priority)
    && (t !in idles ==> threads[t].cpu == Some(place[t].cpu) && threads[t].held == 1)
    && (t in idles ==> threads[t].held == 0)
  }

  /** A CPU's idle thread is runnable, fixed at idle priority, and on its own CPU. */
  ghost predicate IdleOk(threads: Threads, place: Places, idles: seq<Tid>, c: nat)
    requires c < |idles|
  {
    var t := idles[c];
    && t in threads && t in place && threads[t].constant && threads[t].ready && !threads[t].exited
    && threads[t].priority == IDLE_PRIORITY && threads[t].wakeTimeout == 0
    && (place[t] == Running(c) || place[t] == Ready(c, IDLE_PRIORITY))
  }

  ghost predicate Accounted(threads: Threads, place: Places, idles: seq<Tid>)
  {
    && (forall t :: t in place ==> ThreadOk(threads, place, idles, t))
    && (forall t :: t in threads && t !in place ==> threads[t].held == 0)
    && (forall c :: 0 <= c < |idles| ==> IdleOk(threads, place, idles, c))
  }

  /** A non-idle thread moves to a new place with fields that agree with it. */
  lemma MoveAccounted(threads: Threads, place: Places, idles: seq<Tid>, t: Tid, w: Place, th: Thread)
    requires Accounted(threads, place, idles) && t !in idles
    requires th.priority < NUM_PRIORITIES && th.cpu == Some(w.cpu) && th.held == 1
    requires w.Ready? ==> th.priority == w.priority
    ensures Accounted(threads[t := th], place[t := w], idles)
  {
    var threads', place' := threads[t := th], place[t := w];
    forall u | u in place' ensures ThreadOk(threads', place', idles, u)
    {
      if u != t { assert ThreadOk(threads, place, idles, u); }
    }
    forall c | 0 <= c < |idles| ensures IdleOk(threads', place', idles, c)
    {
      assert IdleOk(threads, place, idles, c);
    }
  }

  /** A thread leaves the scheduler when its reference is dropped. */
  lemma DropAccounted(threads: Threads, place: Places, idles: seq<Tid>, t: Tid)
    requires Accounted(threads, place, idles) && t !in idles && t in threads
    ensures Accounted(threads[t := threads[t].(held := 0)], place - {t}, idles)
  {
    var threads', place' := threads[t := threads[t].(held := 0)], place - {t};
    forall u | u in place' ensures ThreadOk(threads', place', idles, u)
    {
      assert ThreadOk(threads, place, idles, u);
    }
    forall c | 0 <= c < |idles| ensures IdleOk(threads', place', idles, c)
    {
      assert IdleOk(threads, place, idles, c);
    }
  }

  /** Fields that the placement does not depend on may change freely. */
  lemma FieldsAccounted(threads: Threads, place: Places, idles: seq<Tid>, t: Tid, th: Thread)
    requires Accounted(threads, place, idles) && t in threads
    requires th.priority == threads[t].priority && th.cpu == threads[t].cpu && th.held == threads[t].held
    requires t in idles ==>
      th.constant == threads[t].constant && th.ready == threads[t].ready
      && th.exited == threads[t].exited && th.wakeTimeout == threads[t].wakeTimeout
    ensures Accounted(threads[t := th], place, idles)
  {
    var threads' := threads[t := th];
    forall u | u in place ensures ThreadOk(threads', place, idles, u)
    {
      assert ThreadOk(threads, place, idles, u);
    }
    forall c | 0 <= c < |idles| ensures IdleOk(threads', place, idles, c)
    {
      assert IdleOk(threads, place, idles, c);
    }
  }

  /** An idle thread moves between its CPU's slot and its CPU's idle list. */
  lemma IdleAccounted(threads: Threads, place: Places, idles: seq<Tid>, c: nat, w: Place)
    requires Accounted(threads, place, idles) && c < |idles| && Distinct(idles)
    requires w == Running(c) || w == Ready(c, IDLE_PRIORITY)
    ensures Accounted(threads, place[idles[c] := w], idles)
  {
    var place' := place[idles[c] := w];
    assert IdleOk(threads, place, idles, c);
    assert ThreadOk(threads, place, idles, idles[c]);
    assert idles[c] in idles;
    forall u | u in place' ensures ThreadOk(threads, place', idles, u)
    {
      if u != idles[c] { assert ThreadOk(threads, place, idles, u); }
    }
    forall d | 0 <= d < |idles| ensures IdleOk(threads, place', idles, d)
    {
      assert IdleOk(threads, place, idles, d);
    }
  }

  /** A thread moves from one list to an end of another. */
  lemma MoveKeeps(qs: Queues, place: Places, x: int, w: Place, k: nat, v: Place, front: bool)
    requires Placed(qs, place, x) && IsList(qs, w) && k < |ListOf(qs, w)| && IsList(qs, v) && v != w
    ensures ListOf(qs, w)[k] in place && place[ListOf(qs, w)[k]] == w
    ensures Placed(Moved(qs, w, k, v, front), place[ListOf(qs, w)[k] := v], x)
  {
    hide Placed;
    var t := ListOf(qs, w)[k];
    TakeKeeps(qs, place, x, w, k);
    PutKeeps(WithList(qs, w, Without(ListOf(qs, w), k)), place - {t}, x, v, t, front);
    assert (place - {t})[t := v] == place[t := v];
  }

  function Moved(qs: Queues, w: Place, k: nat, v: Place, front: bool): (r: Queues)
    requires IsList(qs, w) && k < |ListOf(qs, w)| && IsList(qs, v) && v != w
    ensures |r| == |qs| && forall u :: IsList(r, u) <==> IsList(qs, u)
    ensures ListOf(r, w) == Without(ListOf(qs, w), k)
    ensures ListOf(r, v) == Put(ListOf(qs, v), ListOf(qs, w)[k], front)
    ensures forall u :: IsList(qs, u) && u != w && u != v ==> ListOf(r, u) == ListOf(qs, u)
    ensures forall c :: 0 <= c < |qs| ==> r[c].current == qs[c].current && |r[c].ready| == |qs[c].ready|
    ensures forall c :: 0 <= c < |qs| ==>
      r[c].lastPromotion == qs[c].lastPromotion && r[c].lastSteal == qs[c].lastSteal && r[c].prev == qs[c].prev
  {
    var qs1 := WithList(qs, w, Without(ListOf(qs, w), k));
    WithList(qs1, v, Put(ListOf(qs1, v), ListOf(qs, w)[k], front))
  }

  // ----- work stealing -----

  /** The lists that take part in stealing: every priority but the idle one, and the blocked list. */
  const STEAL_KINDS := 8

  function Stealable(kind: nat, c: nat): Place
  {
    if kind < IDLE_PRIORITY then Ready(c, kind) else Blocked(c)
  }

  /** Lengths of one kind of list, CPU by CPU. */
  function Lengths(qs: Queues, kind: nat): (r: seq<nat>)
    ensures |r| == |qs|
  {
    seq(|qs|, c requires 0 <= c < |qs| =>
      if IsList(qs, Stealable(kind, c)) then |ListOf(qs, Stealable(kind, c))| else 0)
  }

  function SumSquares(l: seq<nat>): nat
  {
    if l == [] then 0 else l[0] * l[0] + SumSquares(l[1..])
  }

  lemma {:induction false} SumSquaresUpdate(l: seq<nat>, i: nat, x: nat)
    requires i < |l|
    ensures SumSquares(l[i := x]) + l[i] * l[i] == SumSquares(l) + x * x
  {
    if i == 0 {
      assert l[i := x][1..] == l[1..];
    } else {
      SumSquaresUpdate(l[1..], i - 1, x);
      assert l[i := x][1..] == l[1..][i - 1 := x];
    }
  }

  /** Sum of the squared lengths of the first `n` kinds of list. */
  function Imbalance(qs: Queues, n: nat): nat
  {
    if n == 0 then 0 else Imbalance(qs, n - 1) + SumSquares(Lengths(qs, n - 1))
  }

  /** Half the difference, rounded down; nothing from a list that is no longer. */
  function Share(from: nat, to: nat): nat
  {
    if from <= to then 0 else (from - to) / 2
  }

  /** Balancing two lists brings them within one and, unless it moves nothing, lowers the
      sum of squares by at least twice the number of threads moved. */
  lemma ShareFacts(l: seq<nat>, to: nat, from: nat)
    requires to < |l| && from < |l| && to != from
    ensures var s := Share(l[from], l[to]);
      && s <= l[from]
      && (l[from] > l[to] ==> 0 <= (l[from] - s) - (l[to] + s) <= 1)
      && SumSquares(l[from := l[from] - s][to := l[to] + s]) + 2 * s <= SumSquares(l)
  {
    var a, b, s := l[from], l[to], Share(l[from], l[to]);
    SumSquaresUpdate(l, from, a - s);
    SumSquaresUpdate(l[from := a - s], to, b + s);
    Squares(a, b, s);
  }

  lemma Squares(a: nat, b: nat, s: nat)
    requires s == Share(a, b)
    ensures s <= a && (a - s) * (a - s) + (b + s) * (b + s) + 2 * s <= a * a + b * b
  {
    if s > 0 {
      var d := a - b - s;
      assert d >= s >= 1;
      assert (a - s) * (a - s) == a * a - 2 * (a * s) + s * s;
      assert (b + s) * (b + s) == b * b + 2 * (b * s) + s * s;
      assert a * s - b * s - s * s == s * d;
      assert s * d == s + s * (d - 1);
      assert s * (d - 1) >= 0;
    }
  }

  /** Moving the front of one stealable list to another changes two lengths. */
  lemma MovedLengths(qs: Queues, kind: nat, from: nat, to: nat, n: nat)
    requires kind < STEAL_KINDS && n < STEAL_KINDS && from != to && from < |qs| && to < |qs|
    requires forall c :: 0 <= c < |qs| ==> |qs[c].ready| == NUM_PRIORITIES
    requires |ListOf(qs, Stealable(kind, from))| > 0
    ensures Lengths(qs, n)[from] == |ListOf(qs, Stealable(n, from))|
    ensures Lengths(qs, n)[to] == |ListOf(qs, Stealable(n, to))|
    ensures var qs' := Moved(qs, Stealable(kind, from), 0, Stealable(kind, to), true);
      Lengths(qs', n) == if n == kind
        then Lengths(qs, n)[from := Lengths(qs, n)[from] - 1][to := Lengths(qs, n)[to] + 1] else Lengths(qs, n)
  {
    hide Lengths, Moved, ListOf;
    var qs' := Moved(qs, Stealable(kind, from), 0, Stealable(kind, to), true);
    LengthAt(qs, n, from);
    LengthAt(qs, n, to);
    forall c | 0 <= c < |qs|
      ensures Lengths(qs', n)[c] == if n == kind
        then Lengths(qs, n)[from := Lengths(qs, n)[from] - 1][to := Lengths(qs, n)[to] + 1][c] else Lengths(qs, n)[c]
    {
      MovedLength(qs, kind, from, to, n, c);
    }
  }

  lemma MovedLength(qs: Queues, kind: nat, from: nat, to: nat, n: nat, c: nat)
    requires kind < STEAL_KINDS && n < STEAL_KINDS && from != to && from < |qs| && to < |qs| && c < |qs|
    requires forall d :: 0 <= d < |qs| ==> |qs[d].ready| == NUM_PRIORITIES
    requires |ListOf(qs, Stealable(kind, from))| > 0
    ensures var qs' := Moved(qs, Stealable(kind, from), 0, Stealable(kind, to), true);
      Lengths(qs', n)[c] ==
        Lengths(qs, n)[c] + (if n != kind then 0 else if c == from then -1 else if c == to then 1 else 0)
  {
    hide Lengths, Moved;
    var qs' := Moved(qs, Stealable(kind, from), 0, Stealable(kind, to), true);
    assert IsList(qs, Stealable(n, c)) && IsList(qs', Stealable(n, c));
    LengthAt(qs, n, c);
    LengthAt(qs', n, c);
    assert Stealable(n, c) == Stealable(kind, from) ==> n == kind && c == from;
    assert Stealable(n, c) == Stealable(kind, to) ==> n == kind && c == to;
  }

  lemma LengthAt(qs: Queues, kind: nat, c: nat)
    requires c < |qs| && IsList(qs, Stealable(kind, c))
    ensures Lengths(qs, kind)[c] == |ListOf(qs, Stealable(kind, c))|
  {
  }

  /** The first `s` elements of `from` in front of `to`, last moved first. */
  function Onto(from: seq<Tid>, s: nat, to: seq<Tid>): (r: seq<Tid>)
    requires s <= |from|
  {
    if s == 0 then to else [from[s - 1]] + Onto(from, s - 1, to)
  }

  /** CPU `to` may have taken threads from stealable lists of other CPUs; nothing else changed. */
  ghost predicate StolenThread(threads: Threads, place: Places, threads': Threads, place': Places, to: nat, t: Tid)
  {
    && t in threads && t in threads' && t in place && t in place'
    && (|| (threads'[t] == threads[t] && place'[t] == place[t])
        || (&& threads'[t] == threads[t].(cpu := Some(to)) && place[t].cpu != to
            && ((place[t].Ready? && place[t].priority < IDLE_PRIORITY && place'[t] == Ready(to, place[t].priority))
                || (place[t].Blocked? && place'[t] == Blocked(to)))))
  }

  ghost predicate Stolen(threads: Threads, place: Places, threads': Threads, place': Places, to: nat)
  {
    && threads'.Keys == threads.Keys && place'.Keys == place.Keys
    && (forall t :: t in place ==> StolenThread(threads, place, threads', place', to, t))
    && (forall t :: t in threads && t !in place ==> threads'[t] == threads[t])
  }

  lemma StolenNone(threads: Threads, place: Places, to: nat)
    requires forall t :: t in place ==> t in threads
    ensures Stolen(threads, place, threads, place, to)
  {
  }

  lemma StolenMore(threads: Threads, place: Places, threads1: Threads, place1: Places, to: nat, t: Tid, kind: nat,
                   from: nat)
    requires Stolen(threads, place, threads1, place1, to) && from != to
    requires t in place1 && place1[t] == Stealable(kind, from)
    ensures t in threads1
    ensures Stolen(threads, place, threads1[t := threads1[t].(cpu := Some(to))], place1[t := Stealable(kind, to)], to)
  {
    assert t in place1.Keys;
    assert StolenThread(threads, place, threads1, place1, to, t);
    var threads', place' := threads1[t := threads1[t].(cpu := Some(to))], place1[t := Stealable(kind, to)];
    assert threads'.Keys == threads.Keys && place'.Keys == place.Keys;
    forall u | u in place ensures StolenThread(threads, place, threads', place', to, u)
    {
      assert StolenThread(threads, place, threads1, place1, to, u);
    }
  }

  lemma StolenChain(threads: Threads, place: Places, threads1: Threads, place1: Places, threads2: Threads,
                    place2: Places, to: nat)
    requires Stolen(threads, place, threads1, place1, to) && Stolen(threads1, place1, threads2, place2, to)
    ensures Stolen(threads, place, threads2, place2, to)
  {
    forall u | u in place ensures StolenThread(threads, place, threads2, place2, to, u)
    {
      assert StolenThread(threads, place, threads1, place1, to, u);
      assert u in place1.Keys;
      assert StolenThread(threads1, place1, threads2, place2, to, u);
    }
    forall u | u in threads && u !in place ensures threads2[u] == threads[u]
    {
      assert u in threads1.Keys && u !in place1.Keys;
    }
  }

  /** A thread is where it was, or on the list of the same kind of another CPU. */
  ghost predicate RehomedThread(threads: Threads, place: Places, threads': Threads, place': Places, t: Tid)
  {
    && t in threads && t in threads' && t in place && t in place' && threads'[t] == threads[t].(cpu := threads'[t].cpu)
    && (|| place'[t] == place[t]
        || (place[t].Ready? && place[t].priority < IDLE_PRIORITY
            && place'[t] == Ready(place'[t].cpu, place[t].priority))
        || (place[t].Blocked? && place'[t] == Blocked(place'[t].cpu)))
  }

  ghost predicate Rehomed(threads: Threads, place: Places, threads': Threads, place': Places)
  {
    && threads'.Keys == threads.Keys && place'.Keys == place.Keys
    && (forall t :: t in place ==> RehomedThread(threads, place, threads', place', t))
    && (forall t :: t in threads && t !in place ==> threads'[t] == threads[t])
  }

  lemma RehomedNone(threads: Threads, place: Places)
    requires forall t :: t in place ==> t in threads
    ensures Rehomed(threads, place, threads, place)
  {
    forall t | t in place ensures RehomedThread(threads, place, threads, place, t) {}
  }

  lemma RehomedMore(threads: Threads, place: Places, threads1: Threads, place1: Places, threads2: Threads,
                    place2: Places, to: nat)
    requires Rehomed(threads, place, threads1, place1) && Stolen(threads1, place1, threads2, place2, to)
    ensures Rehomed(threads, place, threads2, place2)
  {
    forall t | t in place ensures RehomedThread(threads, place, threads2, place2, t)
    {
      assert RehomedThread(threads, place, threads1, place1, t);
      assert t in place1.Keys;
      assert StolenThread(threads1, place1, threads2, place2, to, t);
    }
    forall t | t in threads && t !in place ensures threads2[t] == threads[t]
    {
      assert t in threads1.Keys && t !in place1.Keys;
    }
  }
}
