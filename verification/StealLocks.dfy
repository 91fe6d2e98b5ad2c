/** The run-queue locks while CPUs schedule, steal work and add threads.  Every lock operation
    is one step, and any CPU may take the next step. */
module StealLocks {
  import opened Common

  /** Where a CPU is in schedule or add_thread. */
  datatype Pc =
    | Idle
    | WantOwn
    | Check
    | Between(i: nat)
    | WantOther(i: nat)
    | HoldOther(i: nat)
    | Bump
    | Work
    | AddWant(i: nat)
    | AddHold(i: nat)

  /** `owner` names the CPU that holds each queue's lock. */
  datatype State = State(owner: seq<Option<nat>>, pc: seq<Pc>, turn: nat)

  /** What an idle CPU starts, and whether its last steal was long enough ago. */
  datatype Choice = Schedule(due: bool) | Add(queue: nat)

  function Init(cpus: nat): State
  {
    State(seq(cpus, _ => None), seq(cpus, _ => Idle), 0)
  }

  predicate InRange(p: Pc, n: nat, c: nat)
  {
    && (p.Between? ==> p.i <= n)
    && (p.WantOther? || p.HoldOther? ==> p.i < n && p.i != c)
    && (p.AddWant? || p.AddHold? ==> p.i < n)
  }

  predicate Shaped(s: State)
  {
    && |s.owner| == |s.pc| && s.turn <= |s.pc|
    && forall c :: 0 <= c < |s.pc| ==> InRange(s.pc[c], |s.pc|, c)
  }

  function Go(s: State, c: nat, p: Pc): State
    requires c < |s.pc|
  {
    s.(pc := s.pc[c := p])
  }

  /** Acquire: wait while the lock is held. */
  function Take(s: State, c: nat, i: nat, p: Pc): State
    requires c < |s.pc| && i < |s.owner|
  {
    if s.owner[i].Some? then s else Go(s.(owner := s.owner[i := Some(c)]), c, p)
  }

  function Drop(s: State, c: nat, i: nat, p: Pc): State
    requires c < |s.pc| && i < |s.owner|
  {
    Go(s.(owner := s.owner[i := None]), c, p)
  }

  function Step(s: State, c: nat, choice: Choice): State
    requires Shaped(s) && c < |s.pc|
  {
    var n := |s.pc|;
    match s.pc[c]
    case Idle => if choice.Schedule? then Go(s, c, WantOwn) else Go(s, c, AddWant(choice.queue % n))
    case WantOwn => Take(s, c, c, Check)
    case Check => Go(s, c, if s.turn == c && choice.Schedule? && choice.due then Between(0) else Work)
    case Between(i) => Go(s, c, if i == n then Bump else if i == c then Between(i + 1) else WantOther(i))
    case WantOther(i) => Take(s, c, i, HoldOther(i))
    case HoldOther(i) => Drop(s, c, i, Between(i + 1))
    case Bump => Go(s.(turn := (s.turn + 1) % n), c, Work)
    case Work => Drop(s, c, c, Idle)
    case AddWant(i) => Take(s, c, i, AddHold(i))
    case AddHold(i) => Drop(s, c, i, Idle)
  }

  predicate Stealing(p: Pc)
  {
    p.Between? || p.WantOther? || p.HoldOther? || p.Bump?
  }

  /** The locks a CPU should hold, by where it is. */
  predicate Holds(p: Pc, c: nat, i: nat)
  {
    || (i == c && (Stealing(p) || p.Check? || p.Work?))
    || p == HoldOther(i) || p == AddHold(i)
  }

  predicate OwnerOk(s: State, c: nat, i: nat)
    requires c < |s.pc| && i < |s.owner|
  {
    s.owner[i] == Some(c) <==> Holds(s.pc[c], c, i)
  }

  ghost predicate Inv(s: State)
  {
    && Shaped(s)
    && (forall c, i :: 0 <= c < |s.pc| && 0 <= i < |s.pc| ==> OwnerOk(s, c, i))
    && (forall i :: 0 <= i < |s.owner| && s.owner[i].Some? ==> s.owner[i].value < |s.pc|)
    && (forall c :: 0 <= c < |s.pc| && Stealing(s.pc[c]) ==> s.turn == c)
  }

  /** A CPU moves on and holds what `p` says: lock `i` taken or dropped, if any. */
  lemma LocksKeep(s: State, c: nat, p: Pc, owner: seq<Option<nat>>, i: nat)
    requires Inv(s) && c < |s.pc| && InRange(p, |s.pc|, c) && (Stealing(p) ==> s.turn == c) && i < |s.pc|
    requires owner == s.owner
      || (s.owner[i].None? && owner == s.owner[i := Some(c)]) || (s.owner[i] == Some(c) && owner == s.owner[i := None])
    requires forall j :: 0 <= j < |s.pc| && j != i ==> Holds(p, c, j) == Holds(s.pc[c], c, j)
    requires Holds(p, c, i) <==> owner[i] == Some(c)
    ensures Inv(s.(owner := owner, pc := s.pc[c := p]))
  {
    hide Holds;
    var s' := s.(owner := owner, pc := s.pc[c := p]);
    forall d, j | 0 <= d < |s'.pc| && 0 <= j < |s'.pc| ensures OwnerOk(s', d, j)
    {
      assert OwnerOk(s, d, j) && OwnerOk(s, c, j);
    }
  }

  /** The turn passes on when nobody is stealing. */
  lemma TurnKeeps(s: State, turn: nat)
    requires Inv(s) && turn <= |s.pc| && forall c :: 0 <= c < |s.pc| ==> !Stealing(s.pc[c])
    ensures Inv(s.(turn := turn))
  {
    hide Holds;
    forall d, j | 0 <= d < |s.pc| && 0 <= j < |s.pc| ensures OwnerOk(s.(turn := turn), d, j)
    {
      assert OwnerOk(s, d, j);
    }
  }

  /** Every step of every CPU keeps the invariant. */
  lemma StepKeeps(s: State, c: nat, choice: Choice)
    requires Inv(s) && c < |s.pc|
    ensures Inv(Step(s, c, choice)) && |Step(s, c, choice).pc| == |s.pc|
  {
    hide OwnerOk, Inv;
    var n, p := |s.pc|, s.pc[c];
    TurnTaken(s, c);
    HoldsOwned(s, c, c);
    if p.Idle? || p.Check? || p.Between? {
      LocksKeep(s, c, Step(s, c, choice).pc[c], s.owner, c);
    } else if p.Bump? {
      LocksKeep(s, c, Work, s.owner, c);
      TurnKeeps(Go(s, c, Work), (s.turn + 1) % n);
    } else {
      var i := if p.WantOwn? || p.Work? then c else p.i;
      HoldsOwned(s, c, i);
      if Step(s, c, choice) != s {
        LocksKeep(s, c, Step(s, c, choice).pc[c], Step(s, c, choice).owner, i);
      }
    }
  }

  lemma TurnTaken(s: State, c: nat)
    requires Inv(s) && c < |s.pc|
    ensures Shaped(s) && InRange(s.pc[c], |s.pc|, c)
    ensures Stealing(s.pc[c]) ==> s.turn == c && forall d :: 0 <= d < |s.pc| && d != c ==> !Stealing(s.pc[d])
  {
  }

  lemma HoldsOwned(s: State, c: nat, i: nat)
    requires Inv(s) && c < |s.pc| && i < |s.pc|
    ensures s.owner[i] == Some(c) <==> Holds(s.pc[c], c, i)
  {
    assert OwnerOk(s, c, i);
  }

  type Moves = seq<(nat, Choice)>

  function Move(s: State, c: nat, choice: Choice): (s': State)
    requires Inv(s) && c < |s.pc|
    ensures Inv(s') && |s'.pc| == |s.pc|
  {
    StepKeeps(s, c, choice);
    Step(s, c, choice)
  }

  function Run(s: State, moves: Moves): (s': State)
    requires Inv(s) && forall m :: m in moves ==> m.0 < |s.pc|
    ensures Inv(s') && |s'.pc| == |s.pc|
    decreases |moves|
  {
    if moves == [] then s else Run(Move(s, moves[0].0, moves[0].1), moves[1..])
  }

  lemma InitOk(cpus: nat)
    ensures Inv(Init(cpus))
  {
  }

  /** The state after any schedule of any number of CPUs. */
  function Execute(cpus: nat, moves: Moves): (s: State)
    requires forall m :: m in moves ==> m.0 < cpus
    ensures Inv(s) && |s.pc| == cpus
  {
    InitOk(cpus);
    Run(Init(cpus), moves)
  }

  /** In every reachable state at most one CPU is inside steal_work, and it is the one whose turn it is. */
  lemma OneStealer(cpus: nat, moves: Moves, c: nat, d: nat)
    requires (forall m :: m in moves ==> m.0 < cpus) && c < cpus && d < cpus
    requires Stealing(Execute(cpus, moves).pc[c]) && Stealing(Execute(cpus, moves).pc[d])
    ensures c == d == Execute(cpus, moves).turn
  {
  }

  /** In every reachable state each queue is used by at most one CPU. */
  lemma OneUser(cpus: nat, moves: Moves, c: nat, d: nat, i: nat)
    requires (forall m :: m in moves ==> m.0 < cpus) && c < cpus && d < cpus && i < cpus
    requires Holds(Execute(cpus, moves).pc[c], c, i) && Holds(Execute(cpus, moves).pc[d], d, i)
    ensures c == d
  {
    hide Run, Execute;
    var s := Execute(cpus, moves);
    assert OwnerOk(s, c, i) && OwnerOk(s, d, i);
  }

  predicate Wants(p: Pc, c: nat, i: nat)
  {
    (p.WantOwn? && i == c) || p == WantOther(i) || p == AddWant(i)
  }

  /** CPU `c` wants a lock that CPU `d` holds. */
  ghost predicate WaitsFor(s: State, c: nat, d: nat)
  {
    c < |s.pc| && exists i :: 0 <= i < |s.owner| && Wants(s.pc[c], c, i) && s.owner[i] == Some(d)
  }

  function Following(cycle: seq<nat>, k: nat): nat
    requires k < |cycle|
  {
    if k + 1 < |cycle| then cycle[k + 1] else cycle[0]
  }

  /** Only the stealer waits while others wait for it. */
  lemma WaitingHolder(s: State, b: nat, c: nat, d: nat)
    requires Inv(s) && WaitsFor(s, b, c) && WaitsFor(s, c, d)
    ensures c == s.turn && s.pc[c].WantOther? && d != c
  {
    var i :| 0 <= i < |s.owner| && Wants(s.pc[b], b, i) && s.owner[i] == Some(c);
    assert OwnerOk(s, c, i);
    var j :| 0 <= j < |s.owner| && Wants(s.pc[c], c, j) && s.owner[j] == Some(d);
    assert OwnerOk(s, d, j);
  }

  /** No cycle of waiting CPUs, of any length, in any reachable state. */
  lemma NoWaitCycle(cpus: nat, moves: Moves, cycle: seq<nat>)
    requires (forall m :: m in moves ==> m.0 < cpus) && cycle != []
    ensures exists k :: 0 <= k < |cycle| && !WaitsFor(Execute(cpus, moves), cycle[k], Following(cycle, k))
  {
    hide Run, Execute, Inv, WaitsFor;
    var s := Execute(cpus, moves);
    if forall k :: 0 <= k < |cycle| ==> WaitsFor(s, cycle[k], Following(cycle, k)) {
      var last := |cycle| - 1;
      assert WaitsFor(s, cycle[last], Following(cycle, last)) && WaitsFor(s, cycle[0], Following(cycle, 0));
      WaitingHolder(s, cycle[last], cycle[0], Following(cycle, 0));
      if |cycle| > 1 {
        assert WaitsFor(s, cycle[1], Following(cycle, 1));
        WaitingHolder(s, cycle[0], cycle[1], Following(cycle, 1));
      }
      assert false;
    }
  }

  /** Steps a CPU has yet to take before it is idle. */
  function Weight(p: Pc, n: nat): int
  {
    match p
    case Idle => 0
    case WantOwn => 3 * n + 5
    case Check => 3 * n + 4
    case Between(i) => 3 * (n - i) + 3
    case WantOther(i) => 3 * (n - i) + 2
    case HoldOther(i) => 3 * (n - i) + 1
    case Bump => 2
    case Work => 1
    case AddWant(_) => 2
    case AddHold(_) => 1
  }

  function Remaining(pcs: seq<Pc>, n: nat): int
  {
    if pcs == [] then 0 else Weight(pcs[0], n) + Remaining(pcs[1..], n)
  }

  lemma {:induction false} RemainingUpdate(pcs: seq<Pc>, n: nat, c: nat, p: Pc)
    requires c < |pcs|
    ensures Remaining(pcs[c := p], n) + Weight(pcs[c], n) == Remaining(pcs, n) + Weight(p, n)
  {
    if c > 0 {
      RemainingUpdate(pcs[1..], n, c - 1, p);
      assert pcs[c := p][1..] == pcs[1..][c - 1 := p];
    } else {
      assert pcs[c := p][1..] == pcs[1..];
    }
  }

  lemma {:induction false} RemainingBounds(pcs: seq<Pc>, n: nat)
    requires forall c :: 0 <= c < |pcs| ==> Weight(pcs[c], n) >= 0
    ensures Remaining(pcs, n) >= 0
  {
    if pcs != [] { RemainingBounds(pcs[1..], n); }
  }

  lemma RemainingNat(s: State)
    requires Inv(s)
    ensures Remaining(s.pc, |s.pc|) >= 0
  {
    forall c | 0 <= c < |s.pc| ensures Weight(s.pc[c], |s.pc|) >= 0
    {
      assert InRange(s.pc[c], |s.pc|, c);
    }
    RemainingBounds(s.pc, |s.pc|);
  }

  /** A CPU that cannot step waits for another. */
  lemma StuckWaits(s: State, c: nat, choice: Choice) returns (i: nat)
    requires Inv(s) && c < |s.pc| && !s.pc[c].Idle? && Move(s, c, choice) == s
    ensures i < |s.pc| && Wants(s.pc[c], c, i) && s.owner[i].Some? && s.owner[i].value < |s.pc| && s.owner[i].value != c
    ensures Holds(s.pc[s.owner[i].value], s.owner[i].value, i)
  {
    i := if s.pc[c].WantOwn? then c else if s.pc[c].WantOther? || s.pc[c].AddWant? then s.pc[c].i else c;
    assert InRange(s.pc[c], |s.pc|, c);
    assert s.owner[i].Some?;
    assert OwnerOk(s, s.owner[i].value, i);
  }

  /** A CPU that holds a lock can step unless it is the stealer waiting for a third CPU, which can. */
  lemma SomeoneMoves(s: State, c: nat, choice: Choice) returns (d: nat)
    requires Inv(s) && c < |s.pc| && !s.pc[c].Idle?
    ensures d < |s.pc| && !s.pc[d].Idle? && Move(s, d, choice) != s
  {
    hide Move, OwnerOk;
    d := c;
    if Move(s, d, choice) == s {
      var i := StuckWaits(s, d, choice);
      d := s.owner[i].value;
      if Move(s, d, choice) == s {
        var j := StuckWaits(s, d, choice);
        var e := s.owner[j].value;
        if Move(s, e, choice) == s {
          var k := StuckWaits(s, e, choice);
          assert false;
        }
        d := e;
      }
    }
  }

  lemma StepsRunOut(s: State, c: nat, choice: Choice)
    requires Inv(s) && c < |s.pc| && !s.pc[c].Idle? && Move(s, c, choice) != s
    ensures Remaining(Move(s, c, choice).pc, |s.pc|) < Remaining(s.pc, |s.pc|)
  {
    hide Remaining;
    RemainingUpdate(s.pc, |s.pc|, c, Move(s, c, choice).pc[c]);
    assert Move(s, c, choice).pc == s.pc[c := Move(s, c, choice).pc[c]];
  }

  /** Freedom from deadlock: from any state that keeps the invariant, finitely many steps of the
      CPUs that are not idle bring every call to its end. */
  lemma EveryoneFinishes(s: State) returns (more: Moves)
    requires Inv(s)
    ensures |more| <= Remaining(s.pc, |s.pc|) && forall m :: m in more ==> m.0 < |s.pc|
    ensures forall c :: 0 <= c < |s.pc| ==> Run(s, more).pc[c] == Idle
    decreases Remaining(s.pc, |s.pc|)
  {
    hide Remaining, Inv, Move;
    RemainingNat(s);
    if forall c :: 0 <= c < |s.pc| ==> s.pc[c].Idle? {
      more := [];
    } else {
      var c :| 0 <= c < |s.pc| && !s.pc[c].Idle?;
      var d := SomeoneMoves(s, c, Schedule(true));
      StepsRunOut(s, d, Schedule(true));
      RemainingNat(Move(s, d, Schedule(true)));
      var rest := EveryoneFinishes(Move(s, d, Schedule(true)));
      more := [(d, Schedule(true))] + rest;
      assert more[1..] == rest;
    }
  }
}
