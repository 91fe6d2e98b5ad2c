/** The queue spinlock: CPUs line up through waiter records that live on their stacks.  Every
    access to shared memory is one step, and any CPU may take the next step. */
module SpinLock {
  import opened Common

  /** Where a CPU is in acquire, try_acquire or release. */
  datatype Pc =
    | Outside
    | SetBlocked(try: bool)
    | Cas
    | Swap
    | Clear
    | Link(prev: nat)
    | Spin
    | Critical
    | Await
    | Unblock

  /** A waiter is named by its CPU.  `queue`, `arrivals` and `entered` are history: who is in
      line, who ever got in line, and who ever got the lock, in order. */
  datatype State = State(
    lock: Option<nat>,
    next: seq<Option<nat>>,
    blocked: seq<bool>,
    pc: seq<Pc>,
    queue: seq<nat>,
    arrivals: seq<nat>,
    entered: seq<nat>)

  function Init(cpus: nat): State
  {
    State(None, seq(cpus, _ => None), seq(cpus, _ => false), seq(cpus, _ => Outside), [], [], [])
  }

  predicate Shaped(s: State)
  {
    && |s.next| == |s.pc| && |s.blocked| == |s.pc| && (s.lock.Some? ==> s.lock.value < |s.pc|)
    && forall c :: 0 <= c < |s.pc| ==>
      && (s.next[c].Some? ==> s.next[c].value < |s.pc|)
      && (s.pc[c].Link? ==> s.pc[c].prev < |s.pc|)
      && (s.pc[c].Unblock? ==> s.next[c].Some?)
  }

  /** The next memory access of CPU `c`; one outside starts an attempt, trying only once if `try`. */
  function Step(s: State, c: nat, try: bool): State
    requires Shaped(s) && c < |s.pc|
  {
    match s.pc[c]
    case Outside => s.(next := s.next[c := None], pc := s.pc[c := SetBlocked(try)])
    case SetBlocked(once) => s.(blocked := s.blocked[c := !once], pc := s.pc[c := if once then Cas else Swap])
    case Cas =>
      if s.lock.None? then
        Enter(s.(lock := Some(c), queue := s.queue + [c], arrivals := s.arrivals + [c]), c)
      else s.(pc := s.pc[c := Outside])
    case Swap =>
      s.(lock := Some(c), queue := s.queue + [c], arrivals := s.arrivals + [c],
         pc := s.pc[c := if s.lock.None? then Clear else Link(s.lock.value)])
    case Clear => Enter(s.(blocked := s.blocked[c := false]), c)
    case Link(prev) => s.(next := s.next[prev := Some(c)], pc := s.pc[c := Spin])
    case Spin => if s.blocked[c] then s else Enter(s, c)
    case Critical =>
      if s.lock == Some(c) then s.(lock := None, pc := s.pc[c := Outside], queue := Rest(s.queue))
      else s.(pc := s.pc[c := Await])
    case Await =>
      if s.next[c].Some? then s.(pc := s.pc[c := Unblock]) else s
    case Unblock => s.(blocked := s.blocked[s.next[c].value := false], pc := s.pc[c := Outside], queue := Rest(s.queue))
  }

  function Rest(q: seq<nat>): seq<nat>
  {
    if q == [] then [] else q[1..]
  }

  function Enter(s: State, c: nat): State
    requires c < |s.pc|
  {
    s.(pc := s.pc[c := Critical], entered := s.entered + [c])
  }

  predicate InLine(p: Pc)
  {
    p.Clear? || p.Link? || p.Spin? || p.Critical? || p.Await? || p.Unblock?
  }

  predicate Past(p: Pc)
  {
    p.Critical? || p.Await? || p.Unblock?
  }

  /** The `k`-th in line is blocked and has told the one before it, or is about to. */
  predicate Follows(s: State, k: nat)
    requires Shaped(s)
  {
    && 0 < k < |s.queue| && s.queue[k] < |s.pc| && s.queue[k - 1] < |s.pc| && s.blocked[s.queue[k]]
    && if s.pc[s.queue[k]].Spin? then s.next[s.queue[k - 1]] == Some(s.queue[k])
      else s.pc[s.queue[k]] == Link(s.queue[k - 1]) && s.next[s.queue[k - 1]] == None
  }

  /** The first in line holds the lock, is about to, or is handing it on. */
  predicate Leads(s: State)
    requires Shaped(s)
  {
    s.queue != [] ==>
      var h := s.queue[0];
      && h < |s.pc| && InLine(s.pc[h]) && !s.pc[h].Link? && (s.pc[h].Spin? ==> !s.blocked[h])
      && (s.pc[h].Await? || s.pc[h].Unblock? ==> |s.queue| > 1)
      && (s.pc[h].Unblock? ==> s.next[h] == Some(s.queue[1]))
  }

  /** A CPU is in line exactly while its waiter may be written by others; one that is not has a
      fresh waiter by the time it joins. */
  predicate Known(s: State, c: nat)
    requires Shaped(s) && c < |s.pc|
  {
    && (InLine(s.pc[c]) <==> c in s.queue)
    && (s.pc[c].SetBlocked? || s.pc[c].Cas? || s.pc[c].Swap? ==> s.next[c] == None)
    && (s.pc[c].Swap? ==> s.blocked[c])
  }

  predicate TailOk(s: State)
    requires Shaped(s)
  {
    if s.queue == [] then s.lock == None
    else var t := s.queue[|s.queue| - 1]; s.lock == Some(t) && t < |s.pc| && s.next[t] == None
  }

  /** Those who entered are the first to have arrived. */
  predicate HistoryOk(s: State)
    requires Shaped(s)
  {
    && |s.queue| <= |s.arrivals| && s.queue == s.arrivals[|s.arrivals| - |s.queue|..]
    && |s.entered| == |s.arrivals| - |s.queue| + (if HeadPast(s) then 1 else 0)
    && s.entered == s.arrivals[..|s.entered|]
  }

  predicate HeadPast(s: State)
    requires Shaped(s)
  {
    s.queue != [] && s.queue[0] < |s.pc| && Past(s.pc[s.queue[0]])
  }

  ghost predicate Inv(s: State)
  {
    && Shaped(s) && Distinct(s.queue) && TailOk(s) && Leads(s) && HistoryOk(s)
    && (forall k :: 0 <= k < |s.queue| ==> s.queue[k] < |s.pc|)
    && (forall k :: 0 < k < |s.queue| ==> Follows(s, k))
    && (forall c :: 0 <= c < |s.pc| ==> Known(s, c))
  }

  /** A CPU that is not in line changes only its own waiter. */
  lemma OffLineKeeps(s: State, c: nat, next: Option<nat>, blocked: bool, pc: Pc)
    requires Inv(s) && c < |s.pc| && !InLine(s.pc[c]) && !InLine(pc)
    requires (pc.SetBlocked? || pc.Cas? || pc.Swap? ==> next == None) && (pc.Swap? ==> blocked)
    requires next == None || next == s.next[c]
    ensures Inv(s.(next := s.next[c := next], blocked := s.blocked[c := blocked], pc := s.pc[c := pc]))
  {
    hide HistoryOk;
    var s' := s.(next := s.next[c := next], blocked := s.blocked[c := blocked], pc := s.pc[c := pc]);
    assert Known(s, c) && c !in s.queue;
    forall k | 0 <= k < |s.queue| ensures s.queue[k] != c
    {
      assert s.queue[k] in s.queue;
    }
    forall k | 0 < k < |s'.queue| ensures Follows(s', k)
    {
      assert Follows(s, k);
    }
    forall d | 0 <= d < |s'.pc| ensures Known(s', d)
    {
      assert Known(s, d);
    }
    SameHistory(s, s');
  }

  lemma SameHistory(s: State, s': State)
    requires Shaped(s) && Shaped(s') && HistoryOk(s) && s'.queue == s.queue && s'.arrivals == s.arrivals
    requires s'.entered == s.entered
    requires HeadPast(s') == HeadPast(s)
    ensures HistoryOk(s')
  {
  }

  /** Steps of a CPU that is not in line and does not join it. */
  lemma OutsideKeeps(s: State, c: nat, try: bool)
    requires Inv(s) && c < |s.pc| && (s.pc[c].Outside? || s.pc[c].SetBlocked? || (s.pc[c].Cas? && s.lock.Some?))
    ensures Inv(Step(s, c, try))
  {
    hide HistoryOk, Leads, TailOk, Follows, Distinct;
    var s' := Step(s, c, try);
    assert Known(s, c);
    OffLineKeeps(s, c, s'.next[c], s'.blocked[c], s'.pc[c]);
    assert s' ==
      s.(next := s.next[c := s'.next[c]], blocked := s.blocked[c := s'.blocked[c]], pc := s.pc[c := s'.pc[c]]);
  }

  /** The exchange, or a compare-and-exchange that succeeds, puts a CPU at the end of the line. */
  lemma JoinKeeps(s: State, c: nat, try: bool)
    requires Inv(s) && c < |s.pc| && (s.pc[c].Swap? || (s.pc[c].Cas? && s.lock.None?))
    ensures Inv(Step(s, c, try))
  {
    hide HistoryOk;
    var s' := Step(s, c, try);
    JoinLine(s, c, s');
    assert s.queue != [] ==> s.queue[0] in s.queue && Known(s, c) && s'.queue[0] == s.queue[0];
    JoinHistory(s, s', c);
  }

  lemma JoinLine(s: State, c: nat, s': State)
    requires Inv(s) && c < |s.pc| && (s.pc[c].Swap? || (s.pc[c].Cas? && s.lock.None?))
    requires s'.next == s.next && s'.blocked == s.blocked && s'.queue == s.queue + [c] && s'.lock == Some(c)
    requires s'.pc == s.pc[c := if s.pc[c].Cas? then Critical else if s.lock.None? then Clear else Link(s.lock.value)]
    ensures Shaped(s') && Distinct(s'.queue) && TailOk(s') && Leads(s')
    ensures forall k :: 0 <= k < |s'.queue| ==> s'.queue[k] < |s'.pc|
    ensures forall k :: 0 < k < |s'.queue| ==> Follows(s', k)
    ensures forall d :: 0 <= d < |s'.pc| ==> Known(s', d)
  {
    hide HistoryOk;
    assert Known(s, c) && c !in s.queue;
    forall k | 0 <= k < |s.queue| ensures s.queue[k] != c && s'.queue[k] == s.queue[k]
    {
      assert s.queue[k] in s.queue;
    }
    forall k | 0 < k < |s'.queue| ensures Follows(s', k)
    {
      if k < |s.queue| { assert Follows(s, k); }
    }
    forall d | 0 <= d < |s'.pc| ensures Known(s', d)
    {
      assert Known(s, d);
    }
  }

  lemma JoinHistory(s: State, s': State, c: nat)
    requires Shaped(s) && Shaped(s') && HistoryOk(s) && s'.queue == s.queue + [c] && s'.arrivals == s.arrivals + [c]
    requires s.queue != [] ==> s'.entered == s.entered && HeadPast(s') == HeadPast(s)
    requires s.queue == [] ==> s'.entered == s.entered + (if HeadPast(s') then [c] else [])
    ensures HistoryOk(s')
  {
    assert s'.arrivals[|s'.arrivals| - |s'.queue|..] == s.arrivals[|s.arrivals| - |s.queue|..] + [c];
    if s.queue == [] {
      assert s.arrivals[..|s.arrivals|] == s.arrivals && s'.arrivals[..|s.arrivals|] == s.arrivals;
      assert s'.arrivals[..|s.arrivals| + 1] == s'.arrivals;
    } else {
      assert s'.arrivals[..|s.entered|] == s.arrivals[..|s.entered|];
    }
  }

  /** A CPU in line but not first is linking or spinning. */
  lemma Position(s: State, c: nat) returns (k: nat)
    requires Inv(s) && c < |s.pc| && InLine(s.pc[c])
    ensures k < |s.queue| && s.queue[k] == c
    ensures k > 0 ==> Follows(s, k)
    ensures k == 0 <==> c == s.queue[0]
  {
    assert Known(s, c);
    k :| 0 <= k < |s.queue| && s.queue[k] == c;
  }

  lemma LinkKeeps(s: State, c: nat, try: bool)
    requires Inv(s) && c < |s.pc| && s.pc[c].Link?
    ensures Inv(Step(s, c, try))
  {
    var s' := Step(s, c, try);
    var j := Position(s, c);
    forall k | 0 < k < |s'.queue| ensures Follows(s', k)
    {
      assert Follows(s, k);
    }
    forall d | 0 <= d < |s'.pc| ensures Known(s', d)
    {
      assert Known(s, d);
    }
  }

  /** The first in line gets the lock. */
  lemma EnterKeeps(s: State, c: nat, try: bool)
    requires Inv(s) && c < |s.pc| && (s.pc[c].Clear? || s.pc[c].Spin?)
    ensures Inv(Step(s, c, try))
  {
    hide HistoryOk, Follows;
    var s' := Step(s, c, try);
    var j := Position(s, c);
    if s' != s {
      assert j == 0;
      EnterFollows(s, c, try);
      forall d | 0 <= d < |s'.pc| ensures Known(s', d)
      {
        assert Known(s, d);
      }
      EnterHistory(s, s', c);
    }
  }

  lemma EnterFollows(s: State, c: nat, try: bool)
    requires Inv(s) && c < |s.pc| && (s.pc[c].Clear? || s.pc[c].Spin?) && Step(s, c, try) != s && s.queue != []
    requires s.queue[0] == c
    ensures var s' := Step(s, c, try); forall k :: 0 < k < |s'.queue| ==> Follows(s', k)
  {
    hide HistoryOk, Known;
    var s' := Step(s, c, try);
    forall k | 0 < k < |s'.queue| ensures Follows(s', k)
    {
      assert Follows(s, k) && s.queue[k] != s.queue[0];
    }
  }

  lemma EnterHistory(s: State, s': State, c: nat)
    requires Shaped(s) && Shaped(s') && HistoryOk(s) && !HeadPast(s) && HeadPast(s') && s.queue != [] && s.queue[0] == c
    requires s'.queue == s.queue && s'.arrivals == s.arrivals && s'.entered == s.entered + [c]
    ensures HistoryOk(s')
  {
    assert s.arrivals[|s.arrivals| - |s.queue|..][0] == c;
    assert s.arrivals[..|s.entered| + 1] == s.arrivals[..|s.entered|] + [c];
  }

  /** A release that finds another in line stays in line until its follower is known. */
  lemma StayKeeps(s: State, c: nat, try: bool)
    requires Inv(s) && c < |s.pc| && ((s.pc[c].Critical? && s.lock != Some(c)) || s.pc[c].Await?)
    ensures Inv(Step(s, c, try))
  {
    hide HistoryOk;
    var s' := Step(s, c, try);
    var j := Position(s, c);
    assert j == 0;
    assert |s.queue| > 1 ==> Follows(s, 1);
    forall k | 0 < k < |s'.queue| ensures Follows(s', k)
    {
      assert Follows(s, k);
    }
    forall d | 0 <= d < |s'.pc| ensures Known(s', d)
    {
      assert Known(s, d);
    }
    SameHistory(s, s');
  }

  /** A release that is last in line empties the lock. */
  lemma ReleaseKeeps(s: State, c: nat, try: bool)
    requires Inv(s) && c < |s.pc| && s.pc[c].Critical? && s.lock == Some(c)
    ensures Inv(Step(s, c, try))
  {
    hide HistoryOk;
    var s' := Step(s, c, try);
    var j := Position(s, c);
    assert j == 0;
    assert |s.queue| == 1;
    forall d | 0 <= d < |s'.pc| ensures Known(s', d)
    {
      assert Known(s, d);
      assert d in s.queue <==> d == s.queue[0] || d in s.queue[1..];
    }
    LeaveHistory(s, s', c);
  }

  lemma UnblockKeeps(s: State, c: nat, try: bool)
    requires Inv(s) && c < |s.pc| && s.pc[c].Unblock?
    ensures Inv(Step(s, c, try))
  {
    hide HistoryOk;
    var s' := Step(s, c, try);
    var j := Position(s, c);
    assert j == 0 && Follows(s, 1);
    forall k | 0 <= k < |s'.queue| ensures s'.queue[k] == s.queue[k + 1] && s'.queue[k] != c
    {
      assert s'.queue[k] == s.queue[k + 1];
    }
    forall k | 0 < k < |s'.queue| ensures Follows(s', k)
    {
      var m := k + 1;
      assert Follows(s, m);
    }
    forall d | 0 <= d < |s'.pc| ensures Known(s', d)
    {
      assert Known(s, d);
      assert d in s.queue <==> d == s.queue[0] || d in s.queue[1..];
    }
    LeaveHistory(s, s', c);
  }

  lemma LeaveHistory(s: State, s': State, c: nat)
    requires Shaped(s) && Shaped(s') && HistoryOk(s) && HeadPast(s) && s'.queue == s.queue[1..]
    requires s'.arrivals == s.arrivals && s'.entered == s.entered && !HeadPast(s')
    ensures HistoryOk(s')
  {
    assert s.arrivals[|s.arrivals| - |s.queue|..][1..] == s.arrivals[|s.arrivals| - |s'.queue|..];
  }

  /** Every step of every CPU keeps the invariant. */
  lemma StepKeeps(s: State, c: nat, try: bool)
    requires Inv(s) && c < |s.pc|
    ensures Inv(Step(s, c, try)) && |Step(s, c, try).pc| == |s.pc|
  {
    hide Inv;
    match s.pc[c]
    case Outside => OutsideKeeps(s, c, try);
    case SetBlocked(_) => OutsideKeeps(s, c, try);
    case Cas => if s.lock.Some? { OutsideKeeps(s, c, try); } else { JoinKeeps(s, c, try); }
    case Swap => JoinKeeps(s, c, try);
    case Clear => EnterKeeps(s, c, try);
    case Link(_) => LinkKeeps(s, c, try);
    case Spin => EnterKeeps(s, c, try);
    case Critical => if s.lock == Some(c) { ReleaseKeeps(s, c, try); } else { StayKeeps(s, c, try); }
    case Await => StayKeeps(s, c, try);
    case Unblock => UnblockKeeps(s, c, try);
  }

  /** A schedule: which CPU moves, and whether an attempt it starts is a single try. */
  type Moves = seq<(nat, bool)>

  function Run(s: State, moves: Moves): (s': State)
    requires Inv(s) && forall m :: m in moves ==> m.0 < |s.pc|
    ensures Inv(s') && |s'.pc| == |s.pc|
    decreases |moves|
  {
    if moves == [] then s
    else Run(Move(s, moves[0].0, moves[0].1), moves[1..])
  }

  function Move(s: State, c: nat, try: bool): (s': State)
    requires Inv(s) && c < |s.pc|
    ensures Inv(s') && |s'.pc| == |s.pc|
  {
    StepKeeps(s, c, try);
    Step(s, c, try)
  }

  /** The state after any schedule of any number of CPUs. */
  function Execute(cpus: nat, moves: Moves): (s: State)
    requires forall m :: m in moves ==> m.0 < cpus
    ensures Inv(s) && |s.pc| == cpus
  {
    InitOk(cpus);
    Run(Init(cpus), moves)
  }

  lemma InitOk(cpus: nat)
    ensures Inv(Init(cpus))
  {
    hide HistoryOk;
    var s := Init(cpus);
    forall c | 0 <= c < cpus ensures Known(s, c)
    {
    }
    EmptyHistory(s);
  }

  lemma EmptyHistory(s: State)
    requires Shaped(s) && s.queue == [] && s.arrivals == [] && s.entered == []
    ensures HistoryOk(s)
  {
    var none: seq<nat> := [];
    assert none[0..] == [] && none[..0] == [];
  }

  /** Mutual exclusion, in every reachable state. */
  lemma OneHolder(cpus: nat, moves: Moves, c: nat, d: nat)
    requires (forall m :: m in moves ==> m.0 < cpus) && c < cpus && d < cpus
    requires Execute(cpus, moves).pc[c].Critical? && Execute(cpus, moves).pc[d].Critical?
    ensures c == d
  {
    hide HistoryOk, Run, Move, Execute;
    var s := Execute(cpus, moves);
    var i := Position(s, c);
    var j := Position(s, d);
  }

  /** First come, first served: the lock is granted in the order of the exchanges, and the
      ones still waiting are the last that came. */
  lemma FirstComeFirstServed(cpus: nat, moves: Moves)
    requires forall m :: m in moves ==> m.0 < cpus
    ensures var s := Execute(cpus, moves);
      var waiting := if HeadPast(s) then s.queue[1..] else s.queue;
      s.arrivals == s.entered + waiting
  {
    hide Run, Move, Execute;
    Order(Execute(cpus, moves));
  }

  lemma Order(s: State)
    requires Inv(s)
    ensures s.arrivals == s.entered + (if HeadPast(s) then s.queue[1..] else s.queue)
  {
    hide Follows, Known, TailOk, Leads, Distinct;
    var a := |s.arrivals| - |s.queue|;
    assert s.arrivals == s.arrivals[..a] + s.arrivals[a..];
    if HeadPast(s) {
      assert s.arrivals[a..][1..] == s.arrivals[a + 1..];
      assert s.arrivals == s.arrivals[..a + 1] + s.arrivals[a + 1..];
    }
  }

  /** Waiters live on the stack of a CPU inside acquire or release, and every write to another
      CPU's waiter finds that CPU still there. */
  lemma WritesReachLiveWaiters(cpus: nat, moves: Moves, c: nat)
    requires (forall m :: m in moves ==> m.0 < cpus) && c < cpus
    ensures var s := Execute(cpus, moves);
      && (s.pc[c].Link? ==> s.pc[c].prev != c && InLine(s.pc[s.pc[c].prev]))
      && (s.pc[c].Unblock? ==> s.next[c].value != c && s.pc[s.next[c].value].Spin? && s.blocked[s.next[c].value])
  {
    hide HistoryOk, Run, Move, Execute;
    var s := Execute(cpus, moves);
    if s.pc[c].Link? {
      var k := Position(s, c);
      assert Follows(s, k) && Known(s, s.queue[k - 1]);
    } else if s.pc[c].Unblock? {
      var k := Position(s, c);
      assert k == 0 && Follows(s, 1);
    }
  }

  /** Steps a CPU has yet to take before it leaves the line. */
  function Weight(p: Pc): nat
  {
    match p
    case Link(_) => 5
    case Spin => 4
    case Clear => 4
    case Critical => 3
    case Await => 2
    case Unblock => 1
    case _ => 0
  }

  function Remaining(pcs: seq<Pc>): nat
  {
    if pcs == [] then 0 else Weight(pcs[0]) + Remaining(pcs[1..])
  }

  lemma {:induction false} RemainingUpdate(pcs: seq<Pc>, c: nat, p: Pc)
    requires c < |pcs|
    ensures Remaining(pcs[c := p]) + Weight(pcs[c]) == Remaining(pcs) + Weight(p)
  {
    if c > 0 {
      RemainingUpdate(pcs[1..], c - 1, p);
      assert pcs[c := p][1..] == pcs[1..][c - 1 := p];
    } else {
      assert pcs[c := p][1..] == pcs[1..];
    }
  }

  /** No lost wake-up: while anyone is in line, someone in line can take a step. */
  lemma SomeoneMoves(s: State) returns (c: nat)
    requires Inv(s) && s.queue != []
    ensures c < |s.pc| && InLine(s.pc[c]) && Move(s, c, false) != s
  {
    hide HistoryOk;
    c := s.queue[0];
    if s.pc[c].Await? && s.next[c].None? {
      assert Follows(s, 1);
      c := s.queue[1];
      assert s.pc[c] == Link(s.queue[0]);
    }
  }

  /** Each step of a CPU in line brings the line closer to empty and lets nobody in. */
  lemma StepsRunOut(s: State, c: nat)
    requires Inv(s) && c < |s.pc| && InLine(s.pc[c]) && Move(s, c, false) != s
    ensures Remaining(Move(s, c, false).pc) < Remaining(s.pc) && Move(s, c, false).arrivals == s.arrivals
  {
    hide Remaining;
    RemainingUpdate(s.pc, c, Step(s, c, false).pc[c]);
    assert Step(s, c, false).pc == s.pc[c := Step(s, c, false).pc[c]];
  }

  lemma AllServed(s: State)
    requires Inv(s) && s.queue == []
    ensures s.entered == s.arrivals
  {
    assert s.arrivals[..|s.arrivals|] == s.arrivals;
  }

  /** Every wait ends: from any state that keeps the invariant, finitely many steps of the CPUs
      in line, with no new arrivals, serve everyone who came. */
  lemma EveryoneIsServed(s: State) returns (more: Moves)
    requires Inv(s)
    ensures |more| <= Remaining(s.pc) && forall m :: m in more ==> m.0 < |s.pc|
    ensures var s' := Run(s, more); s'.queue == [] && s'.arrivals == s.arrivals && s'.entered == s.arrivals
    decreases Remaining(s.pc)
  {
    hide Remaining, Inv, Move;
    if s.queue == [] {
      more := [];
      AllServed(s);
    } else {
      var c := SomeoneMoves(s);
      StepsRunOut(s, c);
      var rest := EveryoneIsServed(Move(s, c, false));
      more := [(c, false)] + rest;
      assert more[1..] == rest;
    }
  }
}
