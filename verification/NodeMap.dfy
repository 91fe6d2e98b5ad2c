/** The kernel's hash table: a set of nodes by key, with Robin Hood insertion, growth in place and
    backward-shift deletion. */
module NodeMap {
  import opened Bits
  import opened Hash
  import opened NodeGrow
  import opened NodeTable

  /** How many nodes a table may hold before it grows. */
  function Limit(n: nat): (r: nat)
    ensures n > 0 ==> r < n
  {
    n * 90 / 100
  }

  /** The capacity after an insertion: at nine nodes to ten slots the table doubles, to sixteen slots at least. */
  function CapacityFor(n: nat, count: nat): nat
  {
    if 10 * count <= 9 * n then n else if n <= 8 then 16 else 2 * n
  }

  lemma GrowsAtNineTenths<V>(hash: nat -> nat, t: Table<V>, count: nat, node: Node<V>)
    requires node.Full?
    ensures |Inserted(hash, t, count, node)| == CapacityFor(|t|, count + 1)
  {
    hide Place, Grown;
    var n := |t|;
    assert n * 90 / 100 == n * 9 / 10;
  }

  ghost predicate PowerOfTwo(n: nat)
  {
    exists k: nat :: n == Pow2(k)
  }

  /** The table has room, is in order, and counts at least the nodes it holds. */
  ghost predicate Sound<V>(hash: nat -> nat, t: Table<V>, count: nat)
  {
    && (|t| > 0 ==> PowerOfTwo(|t|))
    && Good(hash, t) && |Where(t)| <= count <= Limit(|t|)
  }

  /** The table that takes one more node. */
  function Roomy<V>(hash: nat -> nat, t: Table<V>, count: nat): (r: Table<V>)
    ensures |r| >= |t|
  {
    if count + 1 > Limit(|t|) then Grown(hash, t) else t
  }

  function Inserted<V>(hash: nat -> nat, t: Table<V>, count: nat, node: Node<V>): (r: Table<V>)
    requires node.Full?
    ensures |r| >= |t|
  {
    Place(hash, Roomy(hash, t, count), node)
  }

  ghost function Removed<V>(hash: nat -> nat, t: Table<V>, key: nat): Table<V>
    requires Unique(t)
  {
    if key in Where(t) then Erased(hash, t, Where(t)[key]) else t
  }

  /** Removing a key moves a node out of the table. */
  ghost predicate Tears<V>(hash: nat -> nat, t: Table<V>, key: nat)
    requires Unique(t)
  {
    key in Where(t) && Overruns(hash, t[Where(t)[key] := Open], Where(t)[key])
  }

  /** The keys of a table, without their values. */
  function Skeleton<V>(t: Table<V>): (k: Table<()>)
    ensures |k| == |t|
  {
    seq(|t|, i requires 0 <= i < |t| => if t[i].Open? then Open else Full(t[i].key, ()))
  }

  /** Removing some keys, one after the other, moves a node out of the table. */
  ghost predicate TearsAny(hash: nat -> nat, t: Table<()>, keys: seq<nat>)
    decreases |keys|
  {
    keys != [] && Unique(t) && (Tears(hash, t, keys[0]) || TearsAny(hash, Removed(hash, t, keys[0]), keys[1..]))
  }

  lemma SkeletonPsl<V>(hash: nat -> nat, t: Table<V>, s: nat)
    requires s < |t|
    ensures Displaced(hash, Skeleton(t), s) == Displaced(hash, t, s)
  {
  }

  lemma {:induction false} SkeletonShift<V>(hash: nat -> nat, t: Table<V>, slot: nat)
    requires |t| > 0
    ensures Skeleton(Shift(hash, t, slot)) == Shift(hash, Skeleton(t), slot)
    decreases 2 * |t| - slot
  {
    hide Home, Displaced;
    var n, k := |t|, Skeleton(t);
    if slot + 1 < 2 * n {
      var next := if slot + 1 < n then slot + 1 else slot + 1 - n;
      SkeletonPsl(hash, t, next);
      if Displaced(hash, t, next) {
        var t' := if slot < n then t[slot := t[next]][next := Open] else t[next := Open];
        assert Skeleton(t') == if slot < n then k[slot := k[next]][next := Open] else k[next := Open];
        SkeletonShift(hash, t', slot + 1);
      }
    }
  }

  lemma SkeletonWhere<V>(t: Table<V>)
    requires Unique(t)
    ensures Unique(Skeleton(t)) && Where(Skeleton(t)) == Where(t)
  {
    hide Where;
    IndexedFacts(t, Where(t));
    IndexedWhere(Skeleton(t), Where(t));
  }

  /** Removal, and whether it tears, depend on the keys alone. */
  lemma SkeletonRemoved<V>(hash: nat -> nat, t: Table<V>, key: nat)
    requires Unique(t)
    ensures Unique(Skeleton(t)) && Skeleton(Removed(hash, t, key)) == Removed(hash, Skeleton(t), key)
    ensures Tears(hash, Skeleton(t), key) == Tears(hash, t, key)
  {
    hide Where, Shift, Displaced, Unique;
    SkeletonWhere(t);
    if key in Where(t) {
      var s := Where(t)[key];
      IndexedFacts(t, Where(t));
      var t' := t[s := Open];
      assert Skeleton(t') == Skeleton(t)[s := Open];
      SkeletonShift(hash, t', s);
      forall r | 0 <= r < |t|
        ensures Displaced(hash, Skeleton(t'), r) == Displaced(hash, t', r) { SkeletonPsl(hash, t', r); }
    }
  }

  /** Changing a node's value in place. */
  lemma SetValue<V>(hash: nat -> nat, t: Table<V>, count: nat, s: nat, value: V)
    requires Sound(hash, t, count) && s < |t| && t[s].Full?
    ensures var t' := t[s := Full(t[s].key, value)];
      && Sound(hash, t', count) && Where(t') == Where(t) && Contents(t') == Contents(t)[t[s].key := value]
      && Skeleton(t') == Skeleton(t)
    ensures t[s].key in Contents(t) && Contents(t)[t[s].key] == t[s].value
  {
    hide Where, Home, Limit, PowerOfTwo;
    var slots, t' := Where(t), t[s := Full(t[s].key, value)];
    IndexedFacts(t, slots);
    IndexedWhere(t', slots);
    forall p | 0 <= p < |t'| ensures Robin(hash, t', p)
    {
      assert Robin(hash, t, p);
    }
  }

  lemma Doubled(n: nat)
    requires PowerOfTwo(n)
    ensures NewCapacity(n) % n == 0 && PowerOfTwo(NewCapacity(n))
  {
    var k: nat :| n == Pow2(k);
    if n < 8 {
      if k >= 3 { Pow2Mono(3, k); }
      assert 16 == Pow2(4);
    } else {
      assert 2 * n == Pow2(k + 1);
      DivModUnique(2 * n, n, 2, 0);
    }
  }

  lemma EmptyGrown<V>(hash: nat -> nat)
    ensures Good(hash, Grown<V>(hash, [])) && Contents(Grown<V>(hash, [])) == map[]
    ensures Where(Grown<V>(hash, [])) == map[]
  {
    var t := Grown<V>(hash, []);
    assert forall s :: 0 <= s < |t| ==> t[s].Open?;
    IndexedWhere(t, map[]);
  }

  lemma RoomyFacts<V>(hash: nat -> nat, t: Table<V>, count: nat)
    requires Sound(hash, t, count)
    ensures var t' := Roomy(hash, t, count);
      Sound(hash, t', count) && count + 1 <= Limit(|t'|)
      && Contents(t') == Contents(t) && Where(t').Keys == Where(t).Keys
  {
    hide Grown, Where, Unique, AllRobin, ContentsOf;
    if count + 1 > Limit(|t|) {
      if |t| == 0 {
        EmptyTable(t);
        EmptyGrown<V>(hash);
        assert 16 == Pow2(4);
      } else {
        Doubled(|t|);
        GrownFacts(hash, t);
        SameSize(Where(Grown(hash, t)), Where(t));
      }
    }
  }

  lemma EmptyTable<V>(t: Table<V>)
    requires forall s :: 0 <= s < |t| ==> t[s].Open?
    ensures Unique(t) && Where(t) == map[] && Contents(t) == map[]
  {
    IndexedWhere(t, map[]);
  }

  /** Inserting a key adds exactly it, whether or not the table grows. */
  lemma InsertedFacts<V>(hash: nat -> nat, t: Table<V>, count: nat, node: Node<V>)
    requires Sound(hash, t, count) && node.Full? && node.key !in Contents(t)
    ensures var t' := Inserted(hash, t, count, node);
      Sound(hash, t', count + 1) && Contents(t') == Contents(t)[node.key := node.value]
  {
    hide Place, Roomy, Where, Unique, AllRobin, ContentsOf;
    RoomyFacts(hash, t, count);
    var r := Roomy(hash, t, count);
    ContentsKeys(r, Where(r));
    PlaceFacts(hash, r, node);
  }

  /** Removing a key takes away it and nothing else, unless the removal tears the table. */
  lemma RemovedFacts<V>(hash: nat -> nat, t: Table<V>, count: nat, key: nat)
    requires Sound(hash, t, count) && key in Contents(t)
    ensures var t' := Removed(hash, t, key);
      && count > 0 && Sound(hash, t', count - 1)
      && (forall k :: k in Contents(t') ==> k != key && k in Contents(t) && Contents(t')[k] == Contents(t)[k])
      && (Contents(t') == Contents(t) - {key} <==> !Tears(hash, t, key))
  {
    hide Erased, Overruns, AllRobin, ContentsOf, Where, Unique;
    ContentsKeys(t, Where(t));
    IndexedFacts(t, Where(t));
    ErasedFacts(hash, t, Where(t)[key]);
  }

  class NodeMap<V> {
    const hash: nat -> nat
    var nodes: Table<V>
    var count: nat

    ghost predicate Valid()
      reads this
    {
      Sound(hash, nodes, count)
    }

    /** What the table means: a finite map. */
    ghost function Contents(): map<nat, V>
      requires Valid()
      reads this
    {
      NodeTable.Contents(nodes)
    }

    constructor (h: nat -> nat, capacity: nat)
      requires capacity > 0 ==> PowerOfTwo(capacity)
      ensures Valid() && Contents() == map[] && nodes == seq(capacity, _ => Open) && count == 0 && hash == h
    {
      hash := h;
      nodes := seq(capacity, _ => Open);
      count := 0;
      new;
      EmptyTable(nodes);
    }

    /** Probe for a key; a slot that is open or less displaced than the probe ends the search. */
    method Lookup(key: nat) returns (found: bool, slot: nat)
      requires Valid()
      ensures found <==> key in Contents()
      ensures found ==>
        slot < |nodes| && key in Where(nodes) && slot == Where(nodes)[key]
        && nodes[slot].Full? && nodes[slot].key == key
    {
      hide Home, AllRobin, Psl, Where, ContentsOf, Indexed, Unique;
      ghost var slots := Where(nodes);
      IndexedFacts(nodes, slots);
      ContentsKeys(nodes, slots);
      found, slot := false, 0;
      if count == 0 {
        return;
      }
      var dist := 0;
      slot := Home(hash, key, |nodes|);
      ghost var home := slot;
      while true
        invariant slot < |nodes| && 0 <= dist <= |nodes|
        invariant if dist < |nodes| then Distance(home, slot, |nodes|) == dist else slot == home
        invariant key in slots ==> Distance(home, slots[key], |nodes|) >= dist
        decreases |nodes| - dist
      {
        if nodes[slot].Full? && nodes[slot].key == key {
          return true, slot;
        }
        if nodes[slot].Open? || dist > Psl(hash, nodes, slot) {
          NotBeyond(hash, nodes, slots, key, slot, dist);
          return false, slot;
        }
        PslLess(hash, nodes, slot);
        slot, dist := Next(slot, |nodes|), dist + 1;
      }
    }

    /** Robin Hood insertion of a key that is not there yet. */
    method Insert(key: nat, value: V) returns (insertedAt: nat)
      requires Valid() && key !in Contents()
      modifies `nodes, `count
      ensures Valid() && Contents() == old(Contents())[key := value] && count == old(count) + 1
      ensures nodes == Inserted(hash, old(nodes), old(count), Full(key, value))
      ensures insertedAt < |nodes| && nodes[insertedAt] == Full(key, value)
    {
      hide Place, Sound, Growable, Grown, Limit, Where, ContentsOf, Unique;
      SoundUnique(hash, nodes, count);
      SoundGrowable(hash, nodes, count);
      InsertedFacts(hash, nodes, count, Full(key, value));
      RoomyFacts(hash, nodes, count);
      count := count + 1;
      if count > Limit(|nodes|) {
        Grow();
      }
      ghost var o := RoomFor(hash, nodes, count - 1);
      insertedAt := Settle(key, value, o);
    }

    /** The insertion loop. */
    method Settle(key: nat, value: V, ghost o: nat) returns (insertedAt: nat)
      requires o < |nodes| && nodes[o].Open?
      modifies `nodes
      ensures nodes == Place(hash, old(nodes), Full(key, value))
      ensures insertedAt < |nodes| && nodes[insertedAt] == Full(key, value)
    {
      hide Home, Psl, Distance, Next;
      var node := Full(key, value);
      var slot: nat := Home(hash, key, |nodes|);
      var dist: nat := 0;
      insertedAt := 0;
      var found := false;
      ghost var gas: nat := |nodes|;
      while true
        invariant |nodes| == |old(nodes)| && slot < |nodes| && nodes[o].Open? && insertedAt < |nodes| && node.Full?
        invariant Distance(slot, o, |nodes|) < gas
        invariant Carry(hash, nodes, node, slot, dist, gas) == Place(hash, old(nodes), Full(key, value))
        invariant found ==>
          nodes[insertedAt] == Full(key, value) && Distance(slot, o, |nodes|) < Distance(insertedAt, o, |nodes|)
        invariant !found ==> node == Full(key, value)
        decreases gas
      {
        if nodes[slot].Open? {
          nodes := nodes[slot := node];
          if !found {
            insertedAt := slot;
          }
          return;
        }
        Closer(slot, o, |nodes|);
        var psl := Psl(hash, nodes, slot);
        if dist > psl {
          node, nodes := nodes[slot], nodes[slot := node];
          if !found {
            found, insertedAt := true, slot;
          }
          dist := psl;
        }
        slot, dist, gas := Next(slot, |nodes|), dist + 1, gas - 1;
      }
    }

    /** Double the table in place: nodes whose new home lies ahead are inserted again, and the gaps
        they leave are closed. */
    method Grow()
      requires |nodes| > 0 ==> Growable(hash, nodes)
      modifies `nodes
      ensures nodes == Grown(hash, old(nodes))
    {
      hide Home, MoveUp, CloseGaps, Growable, Moving, CarryFrom, Shift;
      var n := |nodes|;
      ghost var t0, slots: map<nat, nat> := nodes, map[];
      if n > 0 {
        slots := GrowStarts(hash, nodes);
      }
      ghost var slots0 := slots;
      nodes := Extended(nodes);
      for slot := 0 to n
        invariant |nodes| == NewCapacity(n) && (n > 0 ==> Moving(hash, t0, slots0, nodes, slots, slot))
        invariant MoveUp(hash, nodes, slot, n) == MoveUp(hash, Extended(t0), 0, n)
      {
        MoveUpStep(hash, nodes, slot, n);
        if nodes[slot].Open? || Home(hash, nodes[slot].key, |nodes|) <= slot {
          MovingStays(hash, t0, slots0, nodes, slots, slot);
        } else {
          ghost var o := MovingRoom(hash, t0, slots0, nodes, slots, slot);
          slots := MovingMoves(hash, t0, slots0, nodes, slots, slot);
          Reinsert(slot, o);
        }
      }
      MoveUpEnd(hash, nodes, n);
      for slot := n downto 0
        invariant |nodes| == NewCapacity(n) && CloseGaps(hash, nodes, slot) == Grown(hash, t0)
      {
        CloseGapsStep(hash, nodes, slot);
        if nodes[slot].Open? {
          Fixup(slot);
        }
      }
      CloseGapsEnd(hash, nodes);
    }

    /** Insert the node of a slot again, from that slot: while it is carried the slot holds
        whatever node is on its way. */
    method Reinsert(own: nat, ghost o: nat)
      requires own < |nodes| && nodes[own].Full? && o < |nodes| && nodes[o].Open?
      modifies `nodes
      ensures |nodes| == |old(nodes)|
      ensures nodes == CarryFrom(hash, old(nodes), own, Home(hash, old(nodes)[own].key, |nodes|), 0, |nodes|)
    {
      hide Home, Psl, Distance, Next;
      var slot: nat := Home(hash, nodes[own].key, |nodes|);
      var dist: nat := 0;
      ghost var gas: nat := |nodes|;
      ghost var goal := CarryFrom(hash, nodes, own, slot, 0, gas);
      while true
        invariant |nodes| == |old(nodes)| && slot < |nodes| && nodes[o].Open? && nodes[own].Full?
        invariant Distance(slot, o, |nodes|) < gas && CarryFrom(hash, nodes, own, slot, dist, gas) == goal
        decreases gas
      {
        if nodes[slot].Open? {
          nodes := nodes[slot := nodes[own]];
          nodes := nodes[own := Open];
          return;
        }
        Closer(slot, o, |nodes|);
        var psl := Psl(hash, nodes, slot);
        if dist > psl {
          nodes := nodes[slot := nodes[own]][own := nodes[slot]];
          dist := psl;
        }
        slot, dist, gas := Next(slot, |nodes|), dist + 1, gas - 1;
      }
    }

    /** operator[]: the slot of a key, after inserting a fresh node for it if there is none. */
    method Slot(key: nat, blank: V) returns (slot: nat)
      requires Valid()
      modifies `nodes, `count
      ensures Valid() && slot < |nodes| && nodes[slot].Full? && nodes[slot].key == key
      ensures Contents() == if key in old(Contents()) then old(Contents()) else old(Contents())[key := blank]
      ensures key in old(Contents()) ==> unchanged(this)
      ensures key !in old(Contents()) ==>
        nodes == Inserted(hash, old(nodes), old(count), Full(key, blank))
        && nodes[slot] == Full(key, blank) && count == old(count) + 1
    {
      hide Sound, Inserted;
      var found;
      found, slot := Lookup(key);
      if !found {
        slot := Insert(key, blank);
      }
    }

    /** Close a gap by moving displaced nodes back.  The slot counter does not wrap around: once it
        has run past the end, each further node is moved out of the table. */
    method Fixup(start: nat)
      requires start < |nodes|
      modifies `nodes
      ensures nodes == Shift(hash, old(nodes), start) && |nodes| == |old(nodes)|
    {
      hide Home, Psl;
      var n := |nodes|;
      var slot := start;
      while true
        invariant |nodes| == n && start <= slot < 2 * n && Shift(hash, nodes, slot) == Shift(hash, old(nodes), start)
        invariant forall r :: 0 <= r <= slot - n ==> nodes[r].Open?
        decreases 2 * n - slot
      {
        var next := if slot + 1 < n then slot + 1 else if slot + 1 < 2 * n then slot + 1 - n else 0;
        if nodes[next].Open? || Psl(hash, nodes, next) == 0 {
          return;
        }
        if slot < n {
          nodes := nodes[slot := nodes[next]];
        }
        nodes := nodes[next := Open];
        slot := slot + 1;
      }
    }

    /** Remove a key.  Nothing else is removed exactly when the run of displaced nodes after its slot
        does not go on past the end of the table for two or more; `torn` reports that it does. */
    method Erase(key: nat) returns (found: bool, torn: bool)
      requires Valid()
      modifies `nodes, `count
      ensures Valid() && (found <==> key in old(Contents()))
      ensures nodes == Removed(hash, old(nodes), key) && count == if found then old(count) - 1 else old(count)
      ensures key !in Contents() && forall k :: k in Contents() ==>
        k in old(Contents()) && Contents()[k] == old(Contents())[k]
      ensures torn <==> Tears(hash, old(nodes), key)
      ensures Contents() == old(Contents()) - {key} <==> !torn
    {
      hide Home, Sound, Shift, Overruns, Where, ContentsOf, Unique;
      SoundUnique(hash, nodes, count);
      ContentsKeys(nodes, Where(nodes));
      var slot;
      found, slot := Lookup(key);
      torn := false;
      if !found {
        NothingToErase(Contents(), key);
        return;
      }
      RemovedFacts(hash, nodes, count, key);
      torn := Overruns(hash, nodes[slot := Open], slot);
      nodes, count := nodes[slot := Open], count - 1;
      Fixup(slot);
    }
  }

  lemma SoundUnique<V>(hash: nat -> nat, t: Table<V>, count: nat)
    requires Sound(hash, t, count)
    ensures Unique(t)
  {
  }

  ghost predicate Growable<V>(hash: nat -> nat, t: Table<V>)
  {
    |t| > 0 && PowerOfTwo(|t|) && Good(hash, t) && |Where(t)| < |t|
  }

  lemma SoundGrowable<V>(hash: nat -> nat, t: Table<V>, count: nat)
    requires Sound(hash, t, count)
    ensures |t| > 0 ==> Growable(hash, t)
  {
  }

  lemma GrowStarts<V>(hash: nat -> nat, t: Table<V>) returns (slots: map<nat, nat>)
    requires Growable(hash, t)
    ensures Moving(hash, t, slots, Extended(t), slots, 0)
  {
    hide Home, AllRobin, Where, Moving, Unique;
    Doubled(|t|);
    slots := Where(t);
    OldTableOk(hash, t);
    MovingStarts(hash, t, slots);
  }

  lemma RoomFor<V>(hash: nat -> nat, t: Table<V>, count: nat) returns (o: nat)
    requires Sound(hash, t, count) && |t| > 0
    ensures o < |t| && t[o].Open?
  {
    hide Where, AllRobin, Indexed;
    o := OpenSlot(t, Where(t));
  }

  lemma MovingRoom<V>(hash: nat -> nat, t0: Table<V>, slots0: map<nat, nat>, t: Table<V>, slots: map<nat, nat>, s: nat)
      returns (o: nat)
    requires Moving(hash, t0, slots0, t, slots, s)
    ensures |t0| <= o < |t| && t[o].Open?
  {
    hide Home, AllRobin, Indexed, Region, AllBelong, WrapEnd, ContentsOf;
    SameSize(slots, slots0);
    o := OpenAmongNew(t, slots, |t0|);
  }

  lemma MoveUpStep<V>(hash: nat -> nat, t: Table<V>, slot: nat, n: nat)
    requires slot < n <= |t|
    ensures MoveUp(hash, t, slot, n) ==
      if t[slot].Open? || Home(hash, t[slot].key, |t|) <= slot then MoveUp(hash, t, slot + 1, n)
      else MoveUp(hash, CarryFrom(hash, t, slot, Home(hash, t[slot].key, |t|), 0, |t|), slot + 1, n)
  {
  }

  lemma MoveUpEnd<V>(hash: nat -> nat, t: Table<V>, n: nat)
    requires n <= |t|
    ensures MoveUp(hash, t, n, n) == t
  {
  }

  lemma CloseGapsStep<V>(hash: nat -> nat, t: Table<V>, slot: nat)
    requires slot < |t|
    ensures CloseGaps(hash, t, slot + 1) == CloseGaps(hash, if t[slot].Open? then Shift(hash, t, slot) else t, slot)
  {
  }

  lemma CloseGapsEnd<V>(hash: nat -> nat, t: Table<V>)
    ensures CloseGaps(hash, t, 0) == t
  {
  }

  function Four(a: Node<bool>, b: Node<bool>, c: Node<bool>): Table<bool> { [a, b, Open, c] }

  const NODE_9: Node<bool> := Full(9, true)
  const NODE_19: Node<bool> := Full(19, true)
  const NODE_22: Node<bool> := Full(22, true)

  lemma SameHome()
    ensures forall k :: k in {9, 19, 22} ==> Home(SplitMix64, k, 4) == 3
  {
    hide SplitMix64;
    assert Pow2(2) == 4;
    HomeOf(9, 2);
    HomeOf(19, 2);
    HomeOf(22, 2);
  }

  /** Where three insertions put them. */
  lemma ThreeInserted()
    ensures Inserted(SplitMix64, seq(4, _ => Open), 0, NODE_9) == Four(Open, Open, NODE_9)
    ensures Inserted(SplitMix64, Four(Open, Open, NODE_9), 1, NODE_19) == Four(NODE_19, Open, NODE_9)
    ensures Inserted(SplitMix64, Four(NODE_19, Open, NODE_9), 2, NODE_22) == Four(NODE_19, NODE_22, NODE_9)
  {
    hide Home;
    SameHome();
  }

  lemma FirstRemoved()
    ensures Unique(Four(NODE_19, NODE_22, NODE_9))
    ensures Removed(SplitMix64, Four(NODE_19, NODE_22, NODE_9), 9) == Four(Open, Open, NODE_19)
  {
    hide Home, Where;
    SameHome();
    var t := Four(NODE_19, NODE_22, NODE_9);
    IndexedWhere(t, map[9 := 3, 19 := 0, 22 := 1]);
    var t1, t2 := Four(NODE_19, NODE_22, Open), Four(Open, NODE_22, NODE_19);
    assert t[3 := Open] == t1 && t1[3 := t1[0]][0 := Open] == t2 && t2[1 := Open] == Four(Open, Open, NODE_19);
    assert Shift(SplitMix64, t1, 3) == Shift(SplitMix64, t2, 4) == Shift(SplitMix64, Four(Open, Open, NODE_19), 5);
  }

  lemma FourSlots()
    ensures PowerOfTwo(4)
  {
    assert Pow2(2) == 4;
  }

  lemma OneLeft()
    ensures Unique(Four(Open, Open, NODE_19)) && 22 !in Contents(Four(Open, Open, NODE_19))
  {
    IndexedWhere(Four(Open, Open, NODE_19), map[19 := 3]);
  }

  /** Three keys whose home is the last of four slots: erasing the first to come loses the last. */
  method EraseExample() returns (found: bool)
    ensures !found
  {
    hide PowerOfTwo, Sound, Inserted, Removed, Tears, Four, SplitMix64, NodeTable.Contents, Where, Unique;
    FourSlots();
    var m := new NodeMap<bool>(SplitMix64, 4);
    ThreeInserted();
    var at := m.Insert(9, true);
    at := m.Insert(19, true);
    at := m.Insert(22, true);
    FirstRemoved();
    var torn;
    found, torn := m.Erase(9);
    OneLeft();
    found, at := m.Lookup(22);
  }
}
