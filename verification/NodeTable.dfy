/** The kernel's hash table as a value: open addressing, Robin Hood insertion, backward-shift
    deletion. */
module NodeTable {
  datatype Node<V> = Open | Full(key: nat, value: V)

  type Table<V> = seq<Node<V>>

  function Home(hash: nat -> nat, key: nat, n: nat): (r: nat)
    requires n > 0
    ensures r < n
  {
    hash(key) % n
  }

  function Next(s: nat, n: nat): nat
    requires s < n
  {
    if s + 1 == n then 0 else s + 1
  }

  function Previous(s: nat, n: nat): nat
    requires s < n
  {
    if s == 0 then n - 1 else s - 1
  }

  /** Steps forward from `a` to `b` around the table. */
  function Distance(a: nat, b: nat, n: nat): (d: nat)
    requires a < n && b < n
    ensures d < n
  {
    if b >= a then b - a else b + n - a
  }

  /** Probe sequence length: how far the node in slot `s` is from its home. */
  function Psl<V>(hash: nat -> nat, t: Table<V>, s: nat): nat
    requires s < |t| && t[s].Full?
  {
    Distance(Home(hash, t[s].key, |t|), s, |t|)
  }

  /** A displaced node follows one that is displaced at least as far, less one. */
  predicate Robin<V>(hash: nat -> nat, t: Table<V>, s: nat)
    requires s < |t|
  {
    t[s].Full? && Psl(hash, t, s) > 0 ==>
      t[Previous(s, |t|)].Full? && Psl(hash, t, Previous(s, |t|)) >= Psl(hash, t, s) - 1
  }

  /** `slots` says where each key is. */
  ghost predicate Indexed<V>(t: Table<V>, slots: map<nat, nat>)
  {
    && (forall k :: k in slots ==> slots[k] < |t| && t[slots[k]].Full? && t[slots[k]].key == k)
    && (forall s :: 0 <= s < |t| && t[s].Full? ==> t[s].key in slots && slots[t[s].key] == s)
  }

  ghost predicate AllRobin<V>(hash: nat -> nat, t: Table<V>)
  {
    forall s :: 0 <= s < |t| ==> Robin(hash, t, s)
  }

  /** Every slot from a key's home to its place is full, each displaced at least as far as it is
      from that home. */
  lemma {:induction false} Chain<V>(hash: nat -> nat, t: Table<V>, p: nat, s: nat)
    requires AllRobin(hash, t) && p < |t| && t[p].Full? && s < |t|
    requires Distance(Home(hash, t[p].key, |t|), s, |t|) <= Psl(hash, t, p)
    ensures t[s].Full? && Psl(hash, t, s) >= Distance(Home(hash, t[p].key, |t|), s, |t|)
    decreases Psl(hash, t, p) - Distance(Home(hash, t[p].key, |t|), s, |t|)
  {
    hide Home;
    if s != p {
      Chain(hash, t, p, Next(s, |t|));
      assert Robin(hash, t, Next(s, |t|));
    }
  }

  /** With an open slot somewhere, no node is displaced all the way around. */
  lemma PslBound<V>(hash: nat -> nat, t: Table<V>, p: nat, o: nat)
    requires AllRobin(hash, t) && p < |t| && t[p].Full? && o < |t| && t[o].Open?
    ensures Psl(hash, t, p) < Distance(Home(hash, t[p].key, |t|), o, |t|) && Psl(hash, t, p) + 1 < |t|
  {
    hide Home, AllRobin, Psl;
    if Distance(Home(hash, t[p].key, |t|), o, |t|) <= Psl(hash, t, p) {
      Chain(hash, t, p, o);
    }
  }

  /** A node may be put in slot `s` at distance `dist` from its home. */
  predicate Reached<V>(hash: nat -> nat, t: Table<V>, key: nat, s: nat, dist: nat)
    requires s < |t|
  {
    && dist < |t| && Distance(Home(hash, key, |t|), s, |t|) == dist
    && (dist > 0 ==> t[Previous(s, |t|)].Full? && Psl(hash, t, Previous(s, |t|)) >= dist - 1)
  }

  /** Putting a node into a slot that is open, or taking the place of one less displaced. */
  lemma PutKeeps<V>(hash: nat -> nat, t: Table<V>, node: Node<V>, s: nat, dist: nat)
    requires AllRobin(hash, t) && s < |t| && node.Full? && Reached(hash, t, node.key, s, dist)
    requires t[s].Full? ==> dist > Psl(hash, t, s)
    ensures AllRobin(hash, t[s := node])
  {
    hide Home;
    var t' := t[s := node];
    forall r | 0 <= r < |t'| ensures Robin(hash, t', r)
    {
      assert Robin(hash, t, r);
    }
  }

  ghost function ContentsOf<V>(t: Table<V>, slots: map<nat, nat>): map<nat, V>
    requires Indexed(t, slots)
  {
    map k | k in slots :: t[slots[k]].value
  }

  lemma PlaceIndexed<V>(t: Table<V>, slots: map<nat, nat>, node: Node<V>, s: nat)
    requires Indexed(t, slots) && s < |t| && t[s].Open? && node.Full? && node.key !in slots
    ensures Indexed(t[s := node], slots[node.key := s])
    ensures ContentsOf(t[s := node], slots[node.key := s]) == ContentsOf(t, slots)[node.key := node.value]
  {
  }

  /** Exchanging the carried node with the one in a slot keeps all that is stored or carried. */
  lemma SwapIndexed<V>(t: Table<V>, slots: map<nat, nat>, node: Node<V>, s: nat)
    requires Indexed(t, slots) && s < |t| && t[s].Full? && node.Full? && node.key !in slots
    ensures var slots' := (slots - {t[s].key})[node.key := s];
      && Indexed(t[s := node], slots') && t[s].key !in slots' && |slots'| == |slots|
      && ContentsOf(t[s := node], slots')[t[s].key := t[s].value] == ContentsOf(t, slots)[node.key := node.value]
  {
    assert t[s].key in slots;
    RemoveOne(slots, t[s].key);
  }

  lemma RemoveOne(slots: map<nat, nat>, k: nat)
    requires k in slots
    ensures |slots - {k}| == |slots| - 1
  {
    assert (slots - {k})[k := slots[k]] == slots;
  }

  lemma RemoveIndexed<V>(t: Table<V>, slots: map<nat, nat>, s: nat)
    requires Indexed(t, slots) && s < |t| && t[s].Full?
    ensures Indexed(t[s := Open], slots - {t[s].key})
    ensures ContentsOf(t[s := Open], slots - {t[s].key}) == ContentsOf(t, slots) - {t[s].key}
  {
  }

  lemma ShiftIndexed<V>(t: Table<V>, slots: map<nat, nat>, s: nat, r: nat)
    requires Indexed(t, slots) && s < |t| && r < |t| && t[s].Open? && t[r].Full?
    ensures var slots' := slots[t[r].key := s];
      && Indexed(t[s := t[r]][r := Open], slots') && |slots'| == |slots|
      && ContentsOf(t[s := t[r]][r := Open], slots') == ContentsOf(t, slots)
  {
    assert t[r].key in slots;
    RemoveOne(slots, t[r].key);
    assert (slots - {t[r].key})[t[r].key := s] == slots[t[r].key := s];
  }

  /** A table with fewer keys than slots has an open slot. */
  lemma OpenSlot<V>(t: Table<V>, slots: map<nat, nat>) returns (o: nat)
    requires Indexed(t, slots) && |slots| < |t|
    ensures o < |t| && t[o].Open?
  {
    if forall s :: 0 <= s < |t| ==> t[s].Full? {
      KeysOf(t, slots, |t|);
      assert false;
    }
    o :| 0 <= o < |t| && t[o].Open?;
  }

  function KeysBelow(slots: map<nat, nat>, j: nat): set<nat>
  {
    set k | k in slots && slots[k] < j
  }

  lemma {:induction false} KeysOf<V>(t: Table<V>, slots: map<nat, nat>, j: nat)
    requires Indexed(t, slots) && j <= |t| && forall s :: 0 <= s < j ==> t[s].Full?
    ensures j <= |KeysBelow(slots, j)| <= |slots|
  {
    SubsetSize(KeysBelow(slots, j), slots.Keys);
    if j > 0 {
      KeysOf(t, slots, j - 1);
      var k := t[j - 1].key;
      assert slots[k] == j - 1;
      assert KeysBelow(slots, j) == KeysBelow(slots, j - 1) + {k};
    }
  }

  lemma {:induction false} SubsetSize(a: set<nat>, b: set<nat>)
    requires a <= b
    ensures |a| <= |b|
  {
    if a != {} {
      var x :| x in a;
      SubsetSize(a - {x}, b - {x});
    }
  }

  predicate Displaced<V>(hash: nat -> nat, t: Table<V>, s: nat)
    requires s < |t|
  {
    t[s].Full? && Psl(hash, t, s) > 0
  }

  /** The run of displaced nodes after slot `s` goes on past the end of the table for at least two. */
  predicate Overruns<V>(hash: nat -> nat, t: Table<V>, s: nat)
    requires s < |t|
  {
    && (forall r :: s < r < |t| ==> Displaced(hash, t, r))
    && Displaced(hash, t, 0) && |t| > 1 && Displaced(hash, t, 1)
  }

  /** Slot `h` was emptied of a node with probe length `p`; only its follower may be out of order. */
  ghost predicate Gap<V>(hash: nat -> nat, t: Table<V>, h: nat, p: nat)
  {
    && h < |t| && t[h].Open? && (forall s :: 0 <= s < |t| && s != Next(h, |t|) ==> Robin(hash, t, s))
    && (p > 0 ==> t[Previous(h, |t|)].Full? && Psl(hash, t, Previous(h, |t|)) >= p - 1)
    && (t[Next(h, |t|)].Full? ==> Psl(hash, t, Next(h, |t|)) <= p + 1)
  }

  lemma GapOpens<V>(hash: nat -> nat, t: Table<V>, s: nat)
    requires AllRobin(hash, t) && s < |t| && t[s].Full?
    ensures Gap(hash, t[s := Open], s, Psl(hash, t, s))
  {
    hide Home;
    var t' := t[s := Open];
    assert Robin(hash, t, s) && Robin(hash, t, Next(s, |t|));
    forall r | 0 <= r < |t'| && r != Next(s, |t'|) ensures Robin(hash, t', r)
    {
      assert Robin(hash, t, r);
    }
  }

  lemma GapShifts<V>(hash: nat -> nat, t: Table<V>, h: nat, p: nat)
    requires Gap(hash, t, h, p) && Displaced(hash, t, Next(h, |t|))
    ensures var r := Next(h, |t|); Gap(hash, t[h := t[r]][r := Open], r, Psl(hash, t, r))
  {
    hide Home;
    var r := Next(h, |t|);
    var t' := t[h := t[r]][r := Open];
    assert |t| > 1 && r != h;
    assert Psl(hash, t', h) == Psl(hash, t, r) - 1;
    forall q | 0 <= q < |t'| && q != Next(r, |t'|) ensures Robin(hash, t', q)
    {
      if q != r { assert q != h ==> Robin(hash, t, q); }
    }
    assert Next(r, |t|) != h ==> Robin(hash, t, Next(r, |t|));
  }

  lemma GapCloses<V>(hash: nat -> nat, t: Table<V>, h: nat, p: nat)
    requires Gap(hash, t, h, p) && !Displaced(hash, t, Next(h, |t|))
    ensures AllRobin(hash, t)
  {
  }

  /** Slots after the start, up to `slot`, were displaced and have moved back by one; those ahead
      are as they were. */
  ghost predicate Shifting<V>(hash: nat -> nat, t0: Table<V>, t: Table<V>, start: nat, slot: nat)
  {
    && |t| == |t0| && start < |t| && start <= slot <= |t|
    && (forall r :: start < r <= slot && r < |t| ==> Displaced(hash, t0, r))
    && (slot == |t| ==> Displaced(hash, t0, 0))
    && (forall r :: slot < r < |t| ==> t[r] == t0[r])
    && (forall r :: (if slot == |t| then 1 else 0) <= r < start ==> t[r] == t0[r])
  }

  lemma ShiftNone<V>(hash: nat -> nat, t: Table<V>, start: nat)
    requires start < |t|
    ensures Shifting(hash, t, t, start, start)
  {
  }

  /** A shift that has run past the end started beyond slot 1, as slot `o` is open. */
  lemma ShiftRoom<V>(hash: nat -> nat, t0: Table<V>, t: Table<V>, start: nat, slot: nat, o: nat)
    requires Shifting(hash, t0, t, start, slot) && o < |t| && t0[o].Open? && o != start
    ensures slot == |t| ==> 1 < start < |t|
    ensures slot + 1 == |t| ==> 0 < start
  {
    assert !Displaced(hash, t0, o);
  }

  lemma ShiftMore<V>(hash: nat -> nat, t0: Table<V>, t: Table<V>, start: nat, slot: nat, o: nat)
    requires Shifting(hash, t0, t, start, slot) && o < |t| && t0[o].Open? && o != start && slot < |t|
    requires Displaced(hash, t, Next(slot, |t|))
    ensures var next := Next(slot, |t|); Shifting(hash, t0, t[slot := t[next]][next := Open], start, slot + 1)
  {
    hide Home;
    ShiftRoom(hash, t0, t, start, slot, o);
    assert t[Next(slot, |t|)] == t0[Next(slot, |t|)];
  }

  lemma ShiftEnds<V>(hash: nat -> nat, t0: Table<V>, t: Table<V>, start: nat, slot: nat, o: nat)
    requires Shifting(hash, t0, t, start, slot) && o < |t| && t0[o].Open? && o != start
    requires var next := if slot == |t| then 1 else Next(slot, |t|); next < |t| && !Displaced(hash, t, next)
    ensures !Overruns(hash, t0, start)
  {
    hide Home;
    ShiftRoom(hash, t0, t, start, slot, o);
    var next := if slot == |t| then 1 else Next(slot, |t|);
    assert t[next] == t0[next] && !Displaced(hash, t0, next);
  }

  lemma ShiftOverruns<V>(hash: nat -> nat, t0: Table<V>, t: Table<V>, start: nat, o: nat)
    requires Shifting(hash, t0, t, start, |t|) && o < |t| && t0[o].Open? && o != start
    requires |t| > 1 && Displaced(hash, t, 1)
    ensures Overruns(hash, t0, start)
  {
    hide Home;
    ShiftRoom(hash, t0, t, start, |t|, o);
    assert t[1] == t0[1];
  }

  lemma NothingToErase<V>(m: map<nat, V>, key: nat)
    requires key !in m
    ensures m - {key} == m
  {
  }

  lemma ContentsKeys<V>(t: Table<V>, slots: map<nat, nat>)
    requires Indexed(t, slots)
    ensures ContentsOf(t, slots).Keys == slots.Keys
  {
  }

  /** One key leaves slot `s` and another comes in. */
  ghost function Exchanged(slots: map<nat, nat>, out: nat, key: nat, s: nat): map<nat, nat>
  {
    (slots - {out})[key := s]
  }

  /** A node on its way: the table and the node together hold `goal`, and the node may be put in
      slot `s`, or pass on towards the open slot `o`. */
  ghost predicate Carrying<V>(hash: nat -> nat, t: Table<V>, slots: map<nat, nat>, node: Node<V>, s: nat, dist: nat,
                              o: nat, goal: map<nat, V>)
  {
    && Indexed(t, slots) && AllRobin(hash, t) && s < |t| && o < |t| && t[o].Open?
    && node.Full? && node.key !in slots && Reached(hash, t, node.key, s, dist)
    && ContentsOf(t, slots)[node.key := node.value] == goal
  }

  lemma CarryStart<V>(hash: nat -> nat, t: Table<V>, slots: map<nat, nat>, node: Node<V>, o: nat)
    requires Indexed(t, slots) && AllRobin(hash, t) && o < |t| && t[o].Open? && node.Full? && node.key !in slots
    ensures Carrying(hash, t, slots, node, Home(hash, node.key, |t|), 0, o,
                     ContentsOf(t, slots)[node.key := node.value])
  {
    hide Home, AllRobin, Indexed, Reached;
    AtHome(hash, t, node.key);
  }

  lemma CarryFacts<V>(hash: nat -> nat, t: Table<V>, slots: map<nat, nat>, node: Node<V>, s: nat, dist: nat, o: nat,
                      goal: map<nat, V>)
    requires Carrying(hash, t, slots, node, s, dist, o, goal)
    ensures s < |t| && o < |t| && node.Full? && node.key !in slots && t[o].Open?
    ensures t[s].Full? ==> s != o && t[s].key in slots && slots[t[s].key] == s
  {
    hide Home, AllRobin, Reached;
  }

  lemma CarryDone<V>(hash: nat -> nat, t: Table<V>, slots: map<nat, nat>, node: Node<V>, s: nat, dist: nat, o: nat,
                     goal: map<nat, V>)
    requires Carrying(hash, t, slots, node, s, dist, o, goal) && t[s].Open?
    ensures Indexed(t[s := node], slots[node.key := s]) && AllRobin(hash, t[s := node])
    ensures ContentsOf(t[s := node], slots[node.key := s]) == goal
  {
    hide Home, AllRobin, Indexed, Reached, ContentsOf, Psl;
    PutKeeps(hash, t, node, s, dist);
    PlaceIndexed(t, slots, node, s);
  }

  lemma CarrySwap<V>(hash: nat -> nat, t: Table<V>, slots: map<nat, nat>, node: Node<V>, s: nat, dist: nat, o: nat,
                     goal: map<nat, V>)
    requires Carrying(hash, t, slots, node, s, dist, o, goal) && t[s].Full? && dist > Psl(hash, t, s)
    ensures var slots' := Exchanged(slots, t[s].key, node.key, s);
      && Carrying(hash, t[s := node], slots', t[s], Next(s, |t|), Psl(hash, t, s) + 1, o, goal) && |slots'| == |slots|
  {
    hide Home, AllRobin, Indexed, Reached, ContentsOf, Psl;
    PslBound(hash, t, s, o);
    PutKeeps(hash, t, node, s, dist);
    SwapIndexed(t, slots, node, s);
    SwapReached(hash, t, node, s, dist);
    Onward(hash, t[s := node], t[s].key, s, Psl(hash, t, s));
  }

  lemma CarryPass<V>(hash: nat -> nat, t: Table<V>, slots: map<nat, nat>, node: Node<V>, s: nat, dist: nat, o: nat,
                     goal: map<nat, V>)
    requires Carrying(hash, t, slots, node, s, dist, o, goal) && t[s].Full? && dist <= Psl(hash, t, s)
    ensures Carrying(hash, t, slots, node, Next(s, |t|), dist + 1, o, goal)
  {
    hide Home, AllRobin, Indexed, ContentsOf, Psl;
    PslBound(hash, t, s, o);
    Onward(hash, t, node.key, s, dist);
  }

  lemma Closer(s: nat, o: nat, n: nat)
    requires s < n && o < n && s != o
    ensures Next(s, n) < n && Distance(Next(s, n), o, n) == Distance(s, o, n) - 1
  {
  }

  lemma PslLess<V>(hash: nat -> nat, t: Table<V>, s: nat)
    requires s < |t| && t[s].Full?
    ensures Psl(hash, t, s) < |t|
  {
  }

  /** A probe that meets an open or less displaced slot has passed every place the key could be. */
  lemma NotBeyond<V>(hash: nat -> nat, t: Table<V>, slots: map<nat, nat>, key: nat, s: nat, dist: nat)
    requires Indexed(t, slots) && AllRobin(hash, t) && s < |t| && dist <= |t|
    requires dist < |t| ==> Distance(Home(hash, key, |t|), s, |t|) == dist
    requires t[s].Open? || dist > Psl(hash, t, s)
    requires key in slots ==> Distance(Home(hash, key, |t|), slots[key], |t|) >= dist
    ensures key !in slots
  {
    hide Home, AllRobin;
    if key in slots {
      Chain(hash, t, slots[key], s);
    }
  }

  lemma AtHome<V>(hash: nat -> nat, t: Table<V>, key: nat)
    requires |t| > 0
    ensures Reached(hash, t, key, Home(hash, key, |t|), 0)
  {
    hide Home;
  }

  lemma SwapReached<V>(hash: nat -> nat, t: Table<V>, node: Node<V>, s: nat, dist: nat)
    requires s < |t| && t[s].Full? && node.Full? && Reached(hash, t, node.key, s, dist) && dist > Psl(hash, t, s)
    ensures Psl(hash, t[s := node], s) >= Psl(hash, t, s)
    ensures Psl(hash, t, s) == Distance(Home(hash, t[s].key, |t|), s, |t|)
  {
    hide Home;
  }

  lemma Onward<V>(hash: nat -> nat, t: Table<V>, key: nat, s: nat, dist: nat)
    requires s < |t| && t[s].Full? && Psl(hash, t, s) >= dist && Distance(Home(hash, key, |t|), s, |t|) == dist
    requires dist + 1 < |t|
    ensures Reached(hash, t, key, Next(s, |t|), dist + 1)
  {
    hide Home;
  }

  lemma GapHole<V>(hash: nat -> nat, t: Table<V>, h: nat, p: nat)
    requires Gap(hash, t, h, p)
    ensures h < |t| && t[h].Open?
  {
  }

  // ----- the table as a map -----

  predicate Unique<V>(t: Table<V>)
  {
    forall s, r :: 0 <= s < r < |t| && t[s].Full? && t[r].Full? ==> t[s].key != t[r].key
  }

  /** Where each key is. */
  ghost function Where<V>(t: Table<V>): (slots: map<nat, nat>)
    requires Unique(t)
    ensures Indexed(t, slots)
  {
    map s: nat | s < |t| && t[s].Full? :: t[s].key := s
  }

  /** What the table means: a finite map. */
  ghost function Contents<V>(t: Table<V>): map<nat, V>
    requires Unique(t)
  {
    ContentsOf(t, Where(t))
  }

  lemma IndexedWhere<V>(t: Table<V>, slots: map<nat, nat>)
    requires Indexed(t, slots)
    ensures Unique(t) && Where(t) == slots && Contents(t) == ContentsOf(t, slots)
  {
    assert forall k :: k in slots ==> k in Where(t) && Where(t)[k] == slots[k];
    assert forall k :: k in Where(t) ==> k in slots;
  }

  ghost predicate Good<V>(hash: nat -> nat, t: Table<V>)
  {
    Unique(t) && AllRobin(hash, t)
  }

  // ----- insertion -----

  /** The insertion loop from slot `s` on, with `gas` slots left to visit. */
  function Carry<V>(hash: nat -> nat, t: Table<V>, node: Node<V>, s: nat, dist: nat, gas: nat): (r: Table<V>)
    requires s < |t| && node.Full?
    ensures |r| == |t|
    decreases gas
  {
    if gas == 0 then t
    else if t[s].Open? then t[s := node]
    else if dist > Psl(hash, t, s) then Carry(hash, t[s := node], t[s], Next(s, |t|), Psl(hash, t, s) + 1, gas - 1)
    else Carry(hash, t, node, Next(s, |t|), dist + 1, gas - 1)
  }

  /** The table after inserting a node. */
  function Place<V>(hash: nat -> nat, t: Table<V>, node: Node<V>): (r: Table<V>)
    requires node.Full? && |t| > 0
    ensures |r| == |t|
  {
    Carry(hash, t, node, Home(hash, node.key, |t|), 0, |t|)
  }

  /** A node whose home is open goes there. */
  lemma PlaceOpen<V>(hash: nat -> nat, t: Table<V>, node: Node<V>)
    requires |t| > 0 && node.Full? && t[Home(hash, node.key, |t|)].Open?
    ensures Place(hash, t, node) == t[Home(hash, node.key, |t|) := node]
  {
  }

  lemma {:induction false} CarryKeeps<V>(hash: nat -> nat, t: Table<V>, slots: map<nat, nat>, node: Node<V>, s: nat,
                                         dist: nat, o: nat, goal: map<nat, V>, gas: nat)
      returns (slots': map<nat, nat>)
    requires Carrying(hash, t, slots, node, s, dist, o, goal) && gas > Distance(s, o, |t|)
    ensures var t' := Carry(hash, t, node, s, dist, gas);
      && Indexed(t', slots') && AllRobin(hash, t') && ContentsOf(t', slots') == goal && |slots'| == |slots| + 1
    decreases gas
  {
    hide Home, AllRobin, Psl, Indexed, Reached, Carrying, ContentsOf, Distance, Next, Exchanged;
    CarryFacts(hash, t, slots, node, s, dist, o, goal);
    if t[s].Open? {
      CarryDone(hash, t, slots, node, s, dist, o, goal);
      slots' := slots[node.key := s];
    } else {
      Closer(s, o, |t|);
      if dist > Psl(hash, t, s) {
        CarrySwap(hash, t, slots, node, s, dist, o, goal);
        slots' := CarryKeeps(hash, t[s := node], Exchanged(slots, t[s].key, node.key, s), t[s],
                             Next(s, |t|), Psl(hash, t, s) + 1, o, goal, gas - 1);
      } else {
        CarryPass(hash, t, slots, node, s, dist, o, goal);
        slots' := CarryKeeps(hash, t, slots, node, Next(s, |t|), dist + 1, o, goal, gas - 1);
      }
    }
  }

  /** Inserting a key adds exactly it and keeps the displacement order. */
  lemma PlaceFacts<V>(hash: nat -> nat, t: Table<V>, node: Node<V>)
    requires Good(hash, t) && node.Full? && node.key !in Where(t) && |Where(t)| < |t|
    ensures var t' := Place(hash, t, node);
      && Good(hash, t') && Contents(t') == Contents(t)[node.key := node.value] && |Where(t')| == |Where(t)| + 1
  {
    hide Home, AllRobin, Indexed, ContentsOf, Carry, Where, Unique;
    var slots := Where(t);
    var o := OpenSlot(t, slots);
    CarryStart(hash, t, slots, node, o);
    var slots' := CarryKeeps(hash, t, slots, node, Home(hash, node.key, |t|), 0, o,
                             ContentsOf(t, slots)[node.key := node.value], |t|);
    IndexedWhere(Place(hash, t, node), slots');
  }

  // ----- deletion -----

  /** The loop that moves displaced nodes back into a gap.  The slot counter does not wrap around:
      past the end of the table a node is moved to memory outside it. */
  function Shift<V>(hash: nat -> nat, t: Table<V>, slot: nat): (r: Table<V>)
    requires |t| > 0
    ensures |r| == |t|
    decreases 2 * |t| - slot
  {
    var n := |t|;
    if slot + 1 >= 2 * n then t
    else
      var next := if slot + 1 < n then slot + 1 else slot + 1 - n;
      if !Displaced(hash, t, next) then t
      else if slot < n then Shift(hash, t[slot := t[next]][next := Open], slot + 1)
      else Shift(hash, t[next := Open], slot + 1)
  }

  /** The table after erasing the node in a slot. */
  function Erased<V>(hash: nat -> nat, t: Table<V>, s: nat): (r: Table<V>)
    requires s < |t|
    ensures |r| == |t|
  {
    Shift(hash, t[s := Open], s)
  }

  /** A gap at `h`: only its follower may be out of order. */
  ghost predicate Torn<V>(hash: nat -> nat, t: Table<V>, h: nat)
  {
    h < |t| && t[h].Open? && forall s :: 0 <= s < |t| && s != Next(h, |t|) ==> Robin(hash, t, s)
  }

  lemma GapIsTorn<V>(hash: nat -> nat, t: Table<V>, h: nat, p: nat)
    requires Gap(hash, t, h, p)
    ensures Torn(hash, t, h)
  {
  }

  lemma TornGrows<V>(hash: nat -> nat, t: Table<V>, h: nat)
    requires Torn(hash, t, h)
    ensures Torn(hash, t[Next(h, |t|) := Open], Next(h, |t|))
  {
    hide Home;
    var r := Next(h, |t|);
    var t' := t[r := Open];
    forall q | 0 <= q < |t'| && q != Next(r, |t'|) ensures Robin(hash, t', q)
    {
      if q != r { assert Robin(hash, t, q); }
    }
  }

  lemma TornCloses<V>(hash: nat -> nat, t: Table<V>, h: nat)
    requires Torn(hash, t, h) && !Displaced(hash, t, Next(h, |t|))
    ensures AllRobin(hash, t)
  {
  }

  /** Past the end, nodes are lost until the run of displaced nodes ends. */
  lemma {:induction false} LoseKeeps<V>(hash: nat -> nat, t: Table<V>, slots: map<nat, nat>, slot: nat)
      returns (slots': map<nat, nat>)
    requires Indexed(t, slots) && |t| <= slot < 2 * |t| && Torn(hash, t, slot - |t|)
    requires forall r :: 0 <= r <= slot - |t| ==> t[r].Open?
    ensures var t' := Shift(hash, t, slot);
      && Indexed(t', slots') && AllRobin(hash, t') && slots'.Keys <= slots.Keys
      && (forall k :: k in slots' ==> slots'[k] == slots[k] && t'[slots[k]] == t[slots[k]])
      && (slot + 1 < 2 * |t| && Displaced(hash, t, slot + 1 - |t|) ==> t[slot + 1 - |t|].key !in slots')
    decreases 2 * |t| - slot
  {
    hide Home, AllRobin, Psl, Torn, Indexed;
    var n := |t|;
    TornFacts(hash, t, slot - n);
    if slot + 1 == 2 * n {
      // every slot is open
      slots' := slots;
      TornCloses(hash, t, slot - n);
      IndexedFacts(t, slots);
    } else {
      var next := slot + 1 - n;
      if !Displaced(hash, t, next) {
        slots' := slots;
        TornCloses(hash, t, slot - n);
        IndexedFacts(t, slots);
      } else {
        RemoveIndexed(t, slots, next);
        TornGrows(hash, t, slot - n);
        IndexedFacts(t, slots);
        slots' := LoseKeeps(hash, t[next := Open], slots - {t[next].key}, slot + 1);
      }
    }
  }

  lemma TornFacts<V>(hash: nat -> nat, t: Table<V>, h: nat)
    requires Torn(hash, t, h)
    ensures h < |t| && t[h].Open?
  {
  }

  lemma IndexedFacts<V>(t: Table<V>, slots: map<nat, nat>)
    requires Indexed(t, slots)
    ensures forall k :: k in slots ==> slots[k] < |t| && t[slots[k]].Full? && t[slots[k]].key == k
    ensures forall s :: 0 <= s < |t| && t[s].Full? ==> t[s].key in slots && slots[t[s].key] == s
  {
  }

  /** Up to the end of the table nodes only move; what is lost is lost past it. */
  lemma {:induction false} ShiftKeeps<V>(hash: nat -> nat, t0: Table<V>, t: Table<V>, slots: map<nat, nat>, start: nat,
                                         slot: nat, q: nat, o: nat)
      returns (slots': map<nat, nat>)
    requires Indexed(t, slots) && slot <= |t| && Shifting(hash, t0, t, start, slot)
    requires Gap(hash, t, if slot == |t| then 0 else slot, q)
    requires o < |t0| && t0[o].Open? && o != start
    ensures var t' := Shift(hash, t, slot);
      && Indexed(t', slots') && AllRobin(hash, t') && slots'.Keys <= slots.Keys
      && (forall k :: k in slots' ==> t'[slots'[k]] == t[slots[k]])
      && (slots'.Keys == slots.Keys <==> !Overruns(hash, t0, start))
    decreases |t| - slot
  {
    hide Home, AllRobin, Psl, Gap, Indexed, Shifting, Overruns;
    var n := |t|;
    ShiftingFacts(hash, t0, t, start, slot);
    ShiftRoom(hash, t0, t, start, slot, o);
    GapHole(hash, t, if slot == n then 0 else slot, q);
    IndexedFacts(t, slots);
    if slot == n {
      GapIsTorn(hash, t, 0, q);
      slots' := LoseKeeps(hash, t, slots, n);
      if Displaced(hash, t, 1) {
        ShiftOverruns(hash, t0, t, start, o);
        assert t[1].key in slots.Keys && t[1].key !in slots'.Keys;
      } else {
        ShiftEnds(hash, t0, t, start, n, o);
        assert Shift(hash, t, n) == t;
        LostNothing(t, slots, slots');
      }
    } else {
      var next := Next(slot, n);
      if !Displaced(hash, t, next) {
        slots' := slots;
        GapCloses(hash, t, slot, q);
        ShiftEnds(hash, t0, t, start, slot, o);
      } else {
        ShiftIndexed(t, slots, slot, next);
        GapShifts(hash, t, slot, q);
        ShiftMore(hash, t0, t, start, slot, o);
        var t1, slots1 := t[slot := t[next]][next := Open], slots[t[next].key := slot];
        slots' := ShiftKeeps(hash, t0, t1, slots1, start, slot + 1, Psl(hash, t, next), o);
        assert slots1.Keys == slots.Keys;
        MovedValues(t, slots, slot, next);
      }
    }
  }

  lemma ShiftingFacts<V>(hash: nat -> nat, t0: Table<V>, t: Table<V>, start: nat, slot: nat)
    requires Shifting(hash, t0, t, start, slot)
    ensures |t| == |t0| && start < |t| && start <= slot <= |t|
  {
  }

  lemma LostNothing<V>(t: Table<V>, slots: map<nat, nat>, slots': map<nat, nat>)
    requires Indexed(t, slots) && Indexed(t, slots')
    ensures slots' == slots
  {
    IndexedWhere(t, slots);
    IndexedWhere(t, slots');
  }

  lemma MovedValues<V>(t: Table<V>, slots: map<nat, nat>, s: nat, r: nat)
    requires Indexed(t, slots) && s < |t| && r < |t| && t[s].Open? && t[r].Full?
    ensures forall k :: k in slots ==> t[s := t[r]][r := Open][slots[t[r].key := s][k]] == t[slots[k]]
  {
  }

  /** Erasing removes its key and never adds; it removes nothing else exactly when the run of
      displaced nodes after the slot does not overrun the table. */
  lemma ErasedFacts<V>(hash: nat -> nat, t: Table<V>, s: nat)
    requires Good(hash, t) && s < |t| && t[s].Full? && |Where(t)| < |t|
    ensures var t' := Erased(hash, t, s);
      && Good(hash, t') && |Where(t')| < |Where(t)|
      && (forall k :: k in Contents(t') ==> k != t[s].key && k in Contents(t) && Contents(t')[k] == Contents(t)[k])
      && (Contents(t') == Contents(t) - {t[s].key} <==> !Overruns(hash, t[s := Open], s))
  {
    hide Home, AllRobin, Psl, Gap, Shifting, Overruns, Shift, Where, ContentsOf;
    var slots := Where(t);
    var o := OpenSlot(t, slots);
    IndexedFacts(t, slots);
    var key, t1, slots1 := t[s].key, t[s := Open], slots - {t[s].key};
    RemoveIndexed(t, slots, s);
    RemoveOne(slots, key);
    GapOpens(hash, t, s);
    ShiftNone(hash, t1, s);
    var slots' := ShiftKeeps(hash, t1, t1, slots1, s, s, Psl(hash, t, s), o);
    var t' := Erased(hash, t, s);
    IndexedWhere(t', slots');
    Remains(t, slots, key, t', slots');
  }

  /** What is left of the contents when some slots besides `key`'s are gone. */
  lemma Remains<V>(t: Table<V>, slots: map<nat, nat>, key: nat, t': Table<V>, slots': map<nat, nat>)
    requires Indexed(t, slots) && Indexed(t', slots') && key in slots && slots'.Keys <= (slots - {key}).Keys
    requires forall k :: k in slots' ==> t'[slots'[k]] == t[slots[k]]
    ensures |slots'| < |slots|
    ensures forall k :: k in ContentsOf(t', slots') ==>
      k != key && k in ContentsOf(t, slots) && ContentsOf(t', slots')[k] == ContentsOf(t, slots)[k]
    ensures ContentsOf(t', slots') == ContentsOf(t, slots) - {key} <==> slots'.Keys == (slots - {key}).Keys
  {
    RemoveOne(slots, key);
    SubsetSize(slots'.Keys, (slots - {key}).Keys);
    assert |slots'| == |slots'.Keys| && |slots - {key}| == |(slots - {key}).Keys|;
    assert ContentsOf(t', slots').Keys == slots'.Keys && (ContentsOf(t, slots) - {key}).Keys == (slots - {key}).Keys;
  }
}
