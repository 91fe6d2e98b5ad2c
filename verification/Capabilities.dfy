/** The capability table: handles, derivation, holders and object references. */
module Capabilities {
  import opened Bits
  import opened Hash
  import opened NodeMap
  import opened NodePlace
  import opened NodeTable

  const INVALID := 0

  /** Kernel objects are named by numbers. */
  datatype Cap = Cap(parent: nat, holders: nat, rights: nat, target: nat)

  /** Rights `a` are among rights `b`. */
  predicate Among(a: nat, b: nat) { And(a, b) == a }

  lemma {:induction false} AndAmong(a: nat, b: nat)
    ensures Among(And(a, b), b) && Among(And(a, b), a)
  {
    if a > 0 && b > 0 {
      AndAmong(a / 2, b / 2);
    }
  }

  lemma {:induction false} AmongTransitive(a: nat, b: nat, c: nat)
    requires Among(a, b) && Among(b, c)
    ensures Among(a, c)
  {
    if a > 0 && b > 0 && c > 0 {
      AmongTransitive(a / 2, b / 2, c / 2);
    }
  }

  lemma AmongReflexive(a: nat)
    ensures Among(a, a)
  {
    AndSelf(a);
  }

  /** Right number `i` is among some rights. */
  predicate HasRight(rights: nat, i: nat)
  {
    (rights / Pow2(i)) % 2 == 1
  }

  /** A right is in the intersection exactly when it is in both. */
  lemma {:induction false} AndRights(a: nat, b: nat, i: nat)
    ensures HasRight(And(a, b), i) <==> HasRight(a, i) && HasRight(b, i)
  {
    if i == 0 {
      assert Pow2(0) == 1;
    } else {
      AndRights(a / 2, b / 2, i - 1);
      DivModProduct(a, 2, Pow2(i - 1));
      DivModProduct(b, 2, Pow2(i - 1));
      DivModProduct(And(a, b), 2, Pow2(i - 1));
      assert And(a, b) / 2 == And(a / 2, b / 2);
    }
  }

  type Caps = map<nat, Cap>

  /** The live capabilities that name an object. */
  function Naming(caps: Caps, target: nat): set<nat>
  {
    set h | h in caps && caps[h].target == target
  }

  /** A capability made by derivation names its parent's object with some of its rights. */
  predicate DerivedOk(born: Caps, h: nat)
    requires h in born
  {
    born[h].parent != INVALID ==>
      && born[h].parent in born && born[h].parent < h
      && Among(born[h].rights, born[born[h].parent].rights) && born[h].target == born[born[h].parent].target
  }

  /** `a` is reached from `h` by following parents. */
  predicate Ancestor(born: Caps, a: nat, h: nat)
    requires forall k :: k in born ==> DerivedOk(born, k)
    decreases h
  {
    h in born && (a == h || (born[h].parent != INVALID && Ancestor(born, a, born[h].parent)))
  }

  /** A capability never has a right that one of its ancestors lacks, and names the same object. */
  lemma {:induction false} RightsShrink(born: Caps, a: nat, h: nat)
    requires (forall k :: k in born ==> DerivedOk(born, k)) && Ancestor(born, a, h)
    ensures a in born && Among(born[h].rights, born[a].rights) && born[h].target == born[a].target
    ensures forall i: nat :: HasRight(born[h].rights, i) ==> HasRight(born[a].rights, i)
    decreases h
  {
    hide HasRight;
    if a == h {
      AmongReflexive(born[h].rights);
    } else {
      assert DerivedOk(born, h);
      RightsShrink(born, a, born[h].parent);
      AmongTransitive(born[h].rights, born[born[h].parent].rights, born[a].rights);
    }
    forall i: nat ensures HasRight(born[h].rights, i) ==> HasRight(born[a].rights, i)
    {
      AndRights(born[h].rights, born[a].rights, i);
    }
  }

  predicate BornOk(born: Caps, count: nat)
  {
    forall h :: h in born ==> 0 < h <= count && DerivedOk(born, h)
  }

  predicate LiveOk(caps: Caps, born: Caps)
  {
    forall h :: h in caps ==> h in born && caps[h] == born[h].(holders := caps[h].holders)
  }

  /** The table holds as many references on an object as live capabilities name it. */
  ghost predicate ReferencesOk(caps: Caps, references: map<nat, nat>)
  {
    forall o :: |Naming(caps, o)| == if o in references then references[o] else 0
  }

  lemma BornMore(born: Caps, h: nat, cap: Cap)
    requires h > 0 && BornOk(born, h - 1)
    requires cap.parent != INVALID ==>
      cap.parent in born && Among(cap.rights, born[cap.parent].rights) && cap.target == born[cap.parent].target
    ensures h !in born && BornOk(born[h := cap], h)
  {
    hide Among;
    var born' := born[h := cap];
    forall k | k in born' ensures 0 < k <= h && DerivedOk(born', k)
    {
      assert k != h ==> DerivedOk(born, k);
    }
  }

  // ----- the table and its operations -----

  /** The capability table: its nodes and their count, the last handle given out, the references
      held on each object, and every capability ever made, as it was made. */
  datatype State = State(nodes: Table<Cap>, size: nat, count: nat, references: map<nat, nat>, born: Caps)

  /** `residue` is the object that the memory of an emptied slot still names. */
  datatype Op = Create(target: nat, rights: nat) | Derive(base: nat, rights: nat, residue: nat)
    | Retain(id: nat) | Release(id: nat)

  ghost predicate Ok(s: State)
  {
    Sound(SplitMix64, s.nodes, s.size) && BornOk(s.born, s.count) && LiveOk(Contents(s.nodes), s.born)
  }

  /** The live capabilities. */
  ghost function Live(s: State): Caps
    requires Ok(s)
  {
    Contents(s.nodes)
  }

  function Added(s: State, cap: Cap, retained: nat): State
  {
    State(Inserted(SplitMix64, s.nodes, s.size, Full(s.count + 1, cap)), s.size + 1, s.count + 1,
          Retained(s.references, retained), s.born[s.count + 1 := cap])
  }

  ghost function Derived(s: State, base: nat, rights: nat): Cap
    requires Ok(s) && base in Live(s)
  {
    Cap(base, 0, And(rights, Live(s)[base].rights), Live(s)[base].target)
  }

  /** The object named in the slot that `base` had before its derivative was inserted. */
  ghost function LeftInSlot(s: State, base: nat, rights: nat, residue: nat): nat
    requires Ok(s) && base in Live(s)
  {
    var left := Inserted(SplitMix64, s.nodes, s.size, Full(s.count + 1, Derived(s, base, rights)))[SlotOf(s, base)];
    if left.Full? then left.value.target else residue
  }

  ghost function SlotOf(s: State, h: nat): (slot: nat)
    requires Ok(s) && h in Live(s)
    ensures slot < |s.nodes| && s.nodes[slot] == Full(h, Live(s)[h])
  {
    Where(s.nodes)[h]
  }

  ghost function Held(s: State, id: nat, holders: nat): State
    requires Ok(s) && id in Live(s)
  {
    s.(nodes := s.nodes[SlotOf(s, id) := Full(id, Live(s)[id].(holders := holders))])
  }

  ghost function After(s: State, op: Op): State
    requires Ok(s)
  {
    match op
    case Create(target, rights) => Added(s, Cap(INVALID, 0, rights, target), target)
    case Derive(base, rights, residue) =>
      if base in Live(s) then Added(s, Derived(s, base, rights), LeftInSlot(s, base, rights, residue)) else s
    case Retain(id) =>
      if id in Live(s) then Held(s, id, (Live(s)[id].holders + 1) % TWO_32) else s
    case Release(id) =>
      if id !in Live(s) then s
      else
        var s' := Held(s, id, (Live(s)[id].holders + TWO_32 - 1) % TWO_32);
        if Live(s)[id].holders % TWO_32 != 1 then s'
        else s'.(nodes := Removed(SplitMix64, s'.nodes, id), size := s.size - 1,
                 references := Released(s.references, Live(s)[id].target))
  }

  // ----- what an operation does to the live capabilities -----

  /** The handle an operation gives out. */
  ghost function Made(s: State, op: Op): nat
    requires Ok(s)
  {
    if op.Create? || (op.Derive? && op.base in Live(s)) then s.count + 1 else INVALID
  }

  /** The effect of an operation, told by the live capabilities. */
  ghost predicate Effect(s: State, op: Op, s': State)
    requires Ok(s) && Ok(s')
  {
    match op
    case Create(target, rights) =>
      var cap := Cap(INVALID, 0, rights, target);
      && Live(s') == Live(s)[s.count + 1 := cap] && s'.born == s.born[s.count + 1 := cap] && s'.count == s.count + 1
      && s'.references == Retained(s.references, target)
    case Derive(base, rights, residue) =>
      if base in Live(s) then
        var cap := Derived(s, base, rights);
        && Live(s') == Live(s)[s.count + 1 := cap] && s'.born == s.born[s.count + 1 := cap] && s'.count == s.count + 1
        && s'.references == Retained(s.references, LeftInSlot(s, base, rights, residue))
      else s' == s
    case Retain(id) =>
      && s'.born == s.born && s'.count == s.count && s'.references == s.references
      && Live(s') ==
         if id in Live(s) then Live(s)[id := Live(s)[id].(holders := (Live(s)[id].holders + 1) % TWO_32)] else Live(s)
    case Release(id) =>
      && s'.born == s.born && s'.count == s.count
      && if id in Live(s) && Live(s)[id].holders % TWO_32 == 1 then
           && s'.references == Released(s.references, Live(s)[id].target) && id !in Live(s')
           && (forall h :: h in Live(s') ==> h in Live(s) && Live(s')[h] == Live(s)[h])
           && (Live(s') == Live(s) - {id} <==> !Tears(SplitMix64, s.nodes, id))
         else
           && s'.references == s.references
           && Live(s') ==
              if id in Live(s) then
                Live(s)[id := Live(s)[id].(holders := (Live(s)[id].holders + TWO_32 - 1) % TWO_32)] else Live(s)
  }

  /** After a derivative of `base` is inserted, the slot that `base` had still names its object.  In a table that
      need not grow: the slot does not change, or the derivative lands in it, or the node that moves in, the first
      of the home before, names the same object.  A table that grows first may have moved `base` away. */
  ghost predicate StillNamed(s: State, base: nat, residue: nat)
    requires Ok(s) && base in Live(s)
  {
    var t, p, target := Roomy(SplitMix64, s.nodes, s.size), SlotOf(s, base), Live(s)[base].target;
    var home, before := Home(SplitMix64, s.count + 1, |t|), Previous(p, |t|);
    if Moves(SplitMix64, t, home, p) then
      Lands(SplitMix64, t, home, p) || (t[before].Full? && t[FirstOf(SplitMix64, t, before)].value.target == target)
    else target == if t[p].Full? then t[p].value.target else residue
  }

  lemma RoomyGood(s: State)
    requires Ok(s)
    ensures var t := Roomy(SplitMix64, s.nodes, s.size); Good(SplitMix64, t) && |Where(t)| < |t|
  {
    hide Roomy, Where, Contents, BornOk, LiveOk, Good;
    RoomyFacts(SplitMix64, s.nodes, s.size);
  }

  /** What derivation finds in its base's slot names the base's object exactly when the table before says so. */
  lemma NamedExactly(s: State, base: nat, rights: nat, residue: nat)
    requires Ok(s) && base in Live(s)
    ensures LeftInSlot(s, base, rights, residue) == Live(s)[base].target <==> StillNamed(s, base, residue)
  {
    hide Ok, Live, SlotOf, Roomy, Home, Moves, Good, Where, Place, And, Lands, FirstOf;
    RoomyGood(s);
    var t, p, node := Roomy(SplitMix64, s.nodes, s.size), SlotOf(s, base), Full(s.count + 1, Derived(s, base, rights));
    var home := Home(SplitMix64, s.count + 1, |t|);
    PlaceExactly(SplitMix64, t, node, p);
    if Moves(SplitMix64, t, home, p) { MovesOver(SplitMix64, t, home, p); }
  }

  /** In a table that need not grow the slot of `base` is left to it unless it changes. */
  lemma NamedInPlace(s: State, base: nat, residue: nat)
    requires Ok(s) && base in Live(s) && s.size + 1 <= Limit(|s.nodes|)
    ensures var t, p, home := s.nodes, SlotOf(s, base), Home(SplitMix64, s.count + 1, |s.nodes|);
      StillNamed(s, base, residue) <==>
        (Moves(SplitMix64, t, home, p) && !Lands(SplitMix64, t, home, p) ==>
          && t[Previous(p, |t|)].Full?
          && t[FirstOf(SplitMix64, t, Previous(p, |t|))].value.target == Live(s)[base].target)
  {
    hide Ok, Live, SlotOf, Home, Moves, Lands, FirstOf, Limit;
  }

  /** The table does what the operation means: the node that derivation finds in its base's slot
      names the base's object, and removal does not tear the table. */
  ghost predicate Undisturbed(s: State, op: Op)
    requires Ok(s)
  {
    match op
    case Create(_, _) => true
    case Derive(base, _, residue) => base in Live(s) ==> StillNamed(s, base, residue)
    case Retain(_) => true
    case Release(id) => id in Live(s) && Live(s)[id].holders % TWO_32 == 1 ==> !Tears(SplitMix64, s.nodes, id)
  }

  lemma AddedEffect(s: State, cap: Cap, retained: nat)
    requires Ok(s)
    requires cap.parent != INVALID ==>
      cap.parent in s.born && Among(cap.rights, s.born[cap.parent].rights) && cap.target == s.born[cap.parent].target
    ensures s.count + 1 !in Live(s) && Ok(Added(s, cap, retained))
    ensures Live(Added(s, cap, retained)) == Live(s)[s.count + 1 := cap]
  {
    hide Sound, Inserted, Contents, Among, DerivedOk, Unique;
    SoundUnique(SplitMix64, s.nodes, s.size);
    BornMore(s.born, s.count + 1, cap);
    InsertedFacts(SplitMix64, s.nodes, s.size, Full(s.count + 1, cap));
    SoundUnique(SplitMix64, Added(s, cap, retained).nodes, s.size + 1);
  }

  /** Changing a value in place. */
  lemma ValueChanged(s: State, id: nat, holders: nat)
    requires Ok(s) && id in Live(s)
    ensures Ok(Held(s, id, holders)) && Live(Held(s, id, holders)) == Live(s)[id := Live(s)[id].(holders := holders)]
    ensures Tears(SplitMix64, Held(s, id, holders).nodes, id) == Tears(SplitMix64, s.nodes, id)
  {
    hide Where, Sound, BornOk, Overruns, Contents, Skeleton, Unique;
    var slot := SlotOf(s, id);
    SoundUnique(SplitMix64, s.nodes, s.size);
    SetValue(SplitMix64, s.nodes, s.size, slot, Live(s)[id].(holders := holders));
    var t' := Held(s, id, holders).nodes;
    SoundUnique(SplitMix64, t', s.size);
    assert t'[slot := Open] == s.nodes[slot := Open];
  }

  /** What every operation does. */
  lemma StepFacts(s: State, op: Op)
    requires Ok(s)
    ensures Ok(After(s, op)) && Effect(s, op, After(s, op))
  {
    hide Inserted, LeftInSlot, Removed, Among, Sound, Contents, BornOk, Where, Unique, Tears;
    SoundUnique(SplitMix64, s.nodes, s.size);
    match op
    case Create(target, rights) =>
      AddedEffect(s, Cap(INVALID, 0, rights, target), target);
    case Derive(base, rights, residue) =>
      if base in Live(s) {
        AndAmong(rights, Live(s)[base].rights);
        AddedEffect(s, Derived(s, base, rights), LeftInSlot(s, base, rights, residue));
      }
    case Retain(id) =>
      if id in Live(s) {
        ValueChanged(s, id, (Live(s)[id].holders + 1) % TWO_32);
      }
    case Release(id) =>
      if id in Live(s) {
        var holders := (Live(s)[id].holders + TWO_32 - 1) % TWO_32;
        ValueChanged(s, id, holders);
        var s' := Held(s, id, holders);
        SoundUnique(SplitMix64, s'.nodes, s'.size);
        RemovedFacts(SplitMix64, s'.nodes, s'.size, id);
        var t' := Removed(SplitMix64, s'.nodes, id);
        SoundUnique(SplitMix64, t', s.size - 1);
        assert Live(s') - {id} == Live(s) - {id};
      }
  }

  // ----- references -----

  /** One more capability keeps the references right exactly when its own object is retained. */
  lemma ReferencesMore(caps: Caps, references: map<nat, nat>, h: nat, cap: Cap, retained: nat)
    requires ReferencesOk(caps, references) && h !in caps
    ensures ReferencesOk(caps[h := cap], Retained(references, retained)) <==> retained == cap.target
  {
    hide Naming;
    NamingMore(caps, h, cap);
    assert retained != cap.target ==>
      var o := cap.target;
      |Naming(caps[h := cap], o)| !=
        if o in Retained(references, retained) then Retained(references, retained)[o] else 0;
  }

  /** After a release the references are right exactly when no other capability is gone. */
  lemma ReferencesLess(caps: Caps, references: map<nat, nat>, id: nat, left: Caps)
    requires ReferencesOk(caps, references) && id in caps && id !in left
    requires forall h :: h in left ==> h in caps && left[h] == caps[h]
    ensures ReferencesOk(left, Released(references, caps[id].target)) <==> left == caps - {id}
  {
    hide Naming;
    NamingLess(caps, id);
    NamingHas(caps, id);
    if left != caps - {id} {
      var h :| h in caps && h != id && h !in left;
      var o := caps[h].target;
      NamingLost(caps - {id}, left, h);
      assert |Naming(left, o)| < |Naming(caps - {id}, o)|;
      assert |Naming(left, o)| !=
        if o in Released(references, caps[id].target) then Released(references, caps[id].target)[o] else 0;
    }
  }

  lemma NamingHas(caps: Caps, h: nat)
    requires h in caps
    ensures |Naming(caps, caps[h].target)| > 0
  {
    assert h in Naming(caps, caps[h].target);
  }

  lemma NamingLost(caps: Caps, left: Caps, h: nat)
    requires h in caps && h !in left && forall k :: k in left ==> k in caps && left[k] == caps[k]
    ensures |Naming(left, caps[h].target)| < |Naming(caps, caps[h].target)|
  {
    var o := caps[h].target;
    var a, b := Naming(left, o), Naming(caps, o);
    assert a <= b - {h};
    SubsetSize(a, b - {h});
  }

  lemma ReferencesHeld(caps: Caps, references: map<nat, nat>, id: nat, holders: nat)
    requires ReferencesOk(caps, references) && id in caps
    ensures ReferencesOk(caps[id := caps[id].(holders := holders)], references)
  {
    NamingSame(caps, caps[id := caps[id].(holders := holders)]);
  }

  /** The references follow the live capabilities over an operation exactly when the table does
      what the operation means. */
  lemma KeepsReferences(s: State, op: Op)
    requires Ok(s) && ReferencesOk(Live(s), s.references)
    ensures Ok(After(s, op))
    ensures ReferencesOk(Live(After(s, op)), After(s, op).references) <==> Undisturbed(s, op)
  {
    hide After, LeftInSlot, StillNamed, Among, Sound, Live, BornOk, LiveOk, Unique, Tears, ReferencesOk, Retained,
         Released;
    StepFacts(s, op);
    OkFacts(s);
    match op
    case Create(target, rights) =>
      ReferencesMore(Live(s), s.references, s.count + 1, Cap(INVALID, 0, rights, target), target);
    case Derive(base, rights, residue) =>
      if base in Live(s) {
        ReferencesMore(Live(s), s.references, s.count + 1, Derived(s, base, rights),
                       LeftInSlot(s, base, rights, residue));
        NamedExactly(s, base, rights, residue);
      }
    case Retain(id) =>
      if id in Live(s) {
        ReferencesHeld(Live(s), s.references, id, (Live(s)[id].holders + 1) % TWO_32);
      }
    case Release(id) =>
      if id in Live(s) {
        if Live(s)[id].holders % TWO_32 == 1 {
          OkFacts(After(s, op));
          ReferencesLess(Live(s), s.references, id, Live(After(s, op)));
        } else {
          ReferencesHeld(Live(s), s.references, id, (Live(s)[id].holders + TWO_32 - 1) % TWO_32);
        }
      }
  }

  lemma LiveContents(s: State)
    requires Ok(s)
    ensures Live(s) == Contents(s.nodes)
  {
  }

  /** What a release does, told by the slot of its handle. */
  lemma ReleaseAt(s: State, id: nat, slot: nat)
    requires Ok(s) && (id in Live(s) ==> slot < |s.nodes| && id in Where(s.nodes) && Where(s.nodes)[id] == slot)
    ensures id !in Live(s) ==> After(s, Release(id)) == s
    ensures id in Live(s) ==>
      && s.nodes[slot].Full?
      && var cap := s.nodes[slot].value;
        var holders := (cap.holders + TWO_32 - 1) % TWO_32;
        var nodes := s.nodes[slot := Full(id, cap.(holders := holders))];
        && Sound(SplitMix64, nodes, s.size) && Unique(nodes) && id in Contents(nodes)
        && After(s, Release(id)) ==
          if holders != 0 then s.(nodes := nodes)
          else s.(nodes := Removed(SplitMix64, nodes, id), size := s.size - 1,
                  references := Released(s.references, cap.target))
  {
    hide Sound, BornOk, LiveOk, Where, Removed, Released, Contents, Unique;
    if id in Live(s) {
      var cap := s.nodes[slot].value;
      assert SlotOf(s, id) == slot && cap == Live(s)[id];
      var holders := (cap.holders + TWO_32 - 1) % TWO_32;
      ValueChanged(s, id, holders);
      SoundUnique(SplitMix64, Held(s, id, holders).nodes, s.size);
    }
  }

  lemma OkFacts(s: State)
    requires Ok(s)
    ensures Unique(s.nodes) && s.count + 1 !in Live(s)
  {
  }

  // ----- runs -----

  /** States that follow one another by the operations. */
  ghost predicate Trace(trace: seq<State>, ops: seq<Op>)
  {
    && |trace| == |ops| + 1 && (forall i :: 0 <= i <= |ops| ==> Ok(trace[i]))
    && (forall i :: 0 <= i < |ops| ==> trace[i + 1] == After(trace[i], ops[i]))
  }

  /** Over a run the references are right throughout exactly when every operation is undisturbed. */
  lemma {:induction false} RunKeepsReferences(trace: seq<State>, ops: seq<Op>, n: nat)
    requires Trace(trace, ops) && n <= |ops| && ReferencesOk(Live(trace[0]), trace[0].references)
    ensures (forall i :: 0 <= i <= n ==> ReferencesOk(Live(trace[i]), trace[i].references))
      <==> (forall i :: 0 <= i < n ==> Undisturbed(trace[i], ops[i]))
  {
    hide Ok, After, Live, ReferencesOk, Undisturbed, Unique;
    if n > 0 {
      RunKeepsReferences(trace, ops, n - 1);
      if ReferencesOk(Live(trace[n - 1]), trace[n - 1].references) {
        KeepsReferences(trace[n - 1], ops[n - 1]);
        assert trace[n - 1 + 1] == trace[n];
      }
    }
  }

  /** Handles given out over a run are fresh, each once, and nothing ever made is forgotten. */
  lemma {:induction false} RunHandles(trace: seq<State>, ops: seq<Op>, i: nat, j: nat)
    requires Trace(trace, ops) && i <= j <= |ops|
    ensures trace[i].count <= trace[j].count
    ensures forall h :: h in trace[i].born ==> h in trace[j].born && trace[j].born[h] == trace[i].born[h]
    ensures forall k :: i <= k < j && Made(trace[k], ops[k]) != INVALID ==>
      Made(trace[k], ops[k]) !in trace[i].born && Made(trace[k], ops[k]) in trace[j].born
      && Made(trace[k], ops[k]) <= trace[j].count
    decreases j - i
  {
    hide Ok, After, Live;
    if i < j {
      var m := j - 1;
      RunHandles(trace, ops, i, m);
      StepHandle(trace[m], ops[m]);
      assert trace[m + 1] == After(trace[m], ops[m]);
    }
  }

  /** An operation makes at most one handle, the next one, and remembers it. */
  lemma StepHandle(s: State, op: Op)
    requires Ok(s)
    ensures var s', h := After(s, op), Made(s, op);
      && s.count <= s'.count && (forall k :: k in s.born ==> k <= s.count && k in s'.born && s'.born[k] == s.born[k])
      && (h != INVALID ==> h == s.count + 1 == s'.count && h in s'.born && h !in s.born)
  {
    hide After, Live, LeftInSlot, Among, DerivedOk, Sound, Tears, Retained, Released;
    StepFacts(s, op);
  }

  class CapTable {
    const caps: NodeMap<Cap>
    /** The last handle given out. */
    var count: nat
    /** References that the table holds on each object. */
    var references: map<nat, nat>
    /** Every capability ever made, as it was made. */
    ghost var born: Caps

    ghost function Now(): State
      reads this, caps
    {
      State(caps.nodes, caps.count, count, references, born)
    }

    ghost predicate Valid()
      reads this, caps
    {
      caps.hash == SplitMix64 && Ok(Now())
    }

    constructor ()
      ensures Valid() && fresh(caps) && Now() == State(seq(SLOTS, _ => Open), 0, 0, map[], map[])
      ensures Live(Now()) == map[] && ReferencesOk(Live(Now()), references)
    {
      SlotsPower();
      caps := new NodeMap<Cap>(SplitMix64, SLOTS);
      count, references, born := 0, map[], map[];
      new;
      EmptyTable(caps.nodes);
      forall o ensures Naming(map[], o) == {} {}
    }

    method Create(target: nat, rights: nat) returns (handle: nat)
      requires Valid()
      modifies this, caps
      ensures Valid() && Now() == After(old(Now()), Op.Create(target, rights))
      ensures handle == Made(old(Now()), Op.Create(target, rights))
      ensures Effect(old(Now()), Op.Create(target, rights), Now())
      ensures handle in Live(Now()) && Live(Now())[handle] == Cap(INVALID, 0, rights, target)
    {
      hide Sound, Inserted, Contents, BornOk, LiveOk, Unique;
      ghost var s := Now();
      OkFacts(s);
      StepFacts(s, Op.Create(target, rights));
      count := count + 1;
      handle := count;
      var at := caps.Insert(handle, Cap(INVALID, 0, rights, target));
      born := born[handle := Cap(INVALID, 0, rights, target)];
      references := Retained(references, target);
    }

    /** A weaker capability for the same object; the invalid handle when `base` is not live.  The
        slot of `base` is found before the insertion, and the object it names afterwards is the one
        retained. */
    method Derive(base: nat, rights: nat, residue: nat) returns (handle: nat)
      requires Valid()
      modifies this, caps
      ensures Valid() && Now() == After(old(Now()), Op.Derive(base, rights, residue))
      ensures handle == Made(old(Now()), Op.Derive(base, rights, residue))
      ensures Effect(old(Now()), Op.Derive(base, rights, residue), Now())
      ensures base in old(Live(Now())) ==>
        handle in Live(Now()) && Among(Live(Now())[handle].rights, rights)
        && Among(Live(Now())[handle].rights, old(Live(Now())[base].rights))
      ensures base in old(Live(Now())) ==>
        var cap, from := Live(Now())[handle], old(Live(Now()))[base];
        && cap.parent == base && cap.holders == 0 && cap.target == from.target
        && forall i: nat :: HasRight(cap.rights, i) <==> HasRight(rights, i) && HasRight(from.rights, i)
      ensures old(ReferencesOk(Live(Now()), references)) ==>
        (ReferencesOk(Live(Now()), references) <==> Undisturbed(old(Now()), Op.Derive(base, rights, residue)))
    {
      hide Sound, Inserted, Contents, BornOk, LiveOk, Unique, Among, Retained, ReferencesOk, And, Undisturbed, HasRight;
      ghost var s, op := Now(), Op.Derive(base, rights, residue);
      OkFacts(s);
      StepFacts(s, op);
      if ReferencesOk(Live(s), s.references) { KeepsReferences(s, op); }
      var found, slot := caps.Lookup(base);
      if !found {
        return INVALID;
      }
      ghost var was := SlotOf(s, base);
      var existing := caps.nodes[slot].value;
      var cap := Cap(base, 0, And(rights, existing.rights), existing.target);
      AndAmong(rights, existing.rights);
      forall i: nat ensures HasRight(cap.rights, i) <==> HasRight(rights, i) && HasRight(existing.rights, i)
      {
        AndRights(rights, existing.rights, i);
      }
      count := count + 1;
      handle := count;
      var at := caps.Insert(handle, cap);
      born := born[handle := cap];
      var left := caps.nodes[slot];
      references := Retained(references, if left.Full? then left.value.target else residue);
    }

    method Retain(id: nat) returns (found: bool)
      requires Valid()
      modifies this, caps
      ensures Valid() && Now() == After(old(Now()), Op.Retain(id)) && (found <==> id in old(Live(Now())))
      ensures Effect(old(Now()), Op.Retain(id), Now())
    {
      hide Sound, Contents, BornOk, LiveOk, Unique, Effect;
      ghost var s := Now();
      OkFacts(s);
      StepFacts(s, Op.Retain(id));
      var slot;
      found, slot := caps.Lookup(id);
      if found {
        ghost var was := SlotOf(s, id);
        var cap := caps.nodes[slot].value;
        caps.nodes := caps.nodes[slot := Full(id, cap.(holders := (cap.holders + 1) % TWO_32))];
      }
    }

    /** Drop one holder; the last one out takes the capability with it. */
    method Release(id: nat)
      requires Valid()
      modifies this, caps
      ensures Valid() && Now() == After(old(Now()), Op.Release(id))
      ensures Effect(old(Now()), Op.Release(id), Now())
      ensures old(ReferencesOk(Live(Now()), references)) ==>
        (ReferencesOk(Live(Now()), references) <==> Undisturbed(old(Now()), Op.Release(id)))
    {
      hide Sound, Contents, BornOk, LiveOk, Unique, ReferencesOk, Removed, Tears, Released, Effect, Undisturbed, After,
           Held, Live, SlotOf, Where;
      ghost var s, op := Now(), Op.Release(id);
      OkFacts(s);
      StepFacts(s, op);
      if ReferencesOk(Live(s), s.references) { KeepsReferences(s, op); }
      LiveContents(s);
      var found, slot := caps.Lookup(id);
      ReleaseAt(s, id, slot);
      if !found {
        return;
      }
      var cap := caps.nodes[slot].value;
      var holders := (cap.holders + TWO_32 - 1) % TWO_32;
      caps.nodes := caps.nodes[slot := Full(id, cap.(holders := holders))];
      if holders == 0 {
        references := Released(references, cap.target);
        var torn;
        found, torn := caps.Erase(id);
      }
    }

    method Execute(op: Op) returns (handle: nat)
      requires Valid()
      modifies this, caps
      ensures Valid() && Now() == After(old(Now()), op) && handle == Made(old(Now()), op)
    {
      hide Ok, After, Effect, ReferencesOk, Undisturbed, Live;
      OkFacts(Now());
      handle := INVALID;
      match op
      case Create(target, rights) => handle := Create(target, rights);
      case Derive(base, rights, residue) => handle := Derive(base, rights, residue);
      case Retain(id) => var found := Retain(id);
      case Release(id) => Release(id);
    }

    /** Any run: every operation does what it means, handles are never reused, and the references
        are right throughout exactly when no operation is disturbed. */
    method Run(ops: seq<Op>) returns (handles: seq<nat>, ghost trace: seq<State>)
      requires Valid()
      modifies this, caps
      ensures Valid() && Trace(trace, ops) && trace[0] == old(Now()) && trace[|ops|] == Now()
      ensures |handles| == |ops| && forall i :: 0 <= i < |ops| ==>
        handles[i] == Made(trace[i], ops[i]) && Effect(trace[i], ops[i], trace[i + 1])
      ensures forall i, j :: 0 <= i < j < |ops| && handles[i] == handles[j] ==> handles[i] == INVALID
      ensures ReferencesOk(Live(trace[0]), trace[0].references) ==>
        ((forall i :: 0 <= i <= |ops| ==> ReferencesOk(Live(trace[i]), trace[i].references))
          <==> (forall i :: 0 <= i < |ops| ==> Undisturbed(trace[i], ops[i])))
    {
      hide Ok, After, Effect, ReferencesOk, Undisturbed, Live, Unique;
      handles, trace := [], [Now()];
      for n := 0 to |ops|
        invariant Valid() && |handles| == n && Trace(trace, ops[..n]) && trace[0] == old(Now()) && trace[n] == Now()
        invariant forall i :: 0 <= i < n ==> handles[i] == Made(trace[i], ops[i])
      {
        var handle := Execute(ops[n]);
        handles, trace := handles + [handle], trace + [Now()];
        assert forall i :: 0 <= i < n ==> ops[..n][i] == ops[i] && ops[..n + 1][i] == ops[i];
      }
      assert ops[..|ops|] == ops;
      RunEffects(trace, ops);
      if ReferencesOk(Live(trace[0]), trace[0].references) { RunKeepsReferences(trace, ops, |ops|); }
    }
  }

  lemma RunEffects(trace: seq<State>, ops: seq<Op>)
    requires Trace(trace, ops)
    ensures forall i :: 0 <= i < |ops| ==> Effect(trace[i], ops[i], trace[i + 1])
    ensures forall i, j :: 0 <= i < j < |ops| && Made(trace[i], ops[i]) == Made(trace[j], ops[j]) ==>
      Made(trace[i], ops[i]) == INVALID
  {
    hide Ok, After, Effect, Live;
    forall i | 0 <= i < |ops| ensures Effect(trace[i], ops[i], trace[i + 1])
    {
      StepFacts(trace[i], ops[i]);
    }
    forall i, j | 0 <= i < j < |ops| && Made(trace[i], ops[i]) == Made(trace[j], ops[j])
      ensures Made(trace[i], ops[i]) == INVALID
    {
      RunHandles(trace, ops, i, j);
    }
  }

  /** A page of 32-byte entries. */
  const SLOTS := 128

  lemma SlotsPower()
    ensures PowerOfTwo(SLOTS)
  {
    assert Pow2(7) == 128;
  }

  function Retained(references: map<nat, nat>, o: nat): map<nat, nat>
  {
    references[o := if o in references then references[o] + 1 else 1]
  }

  function Released(references: map<nat, nat>, o: nat): map<nat, nat>
  {
    if o in references && references[o] > 0 then references[o := references[o] - 1] else references
  }

  lemma NamingMore(caps: Caps, h: nat, cap: Cap)
    requires h !in caps
    ensures forall o :: |Naming(caps[h := cap], o)| == |Naming(caps, o)| + if o == cap.target then 1 else 0
  {
    forall o ensures |Naming(caps[h := cap], o)| == |Naming(caps, o)| + if o == cap.target then 1 else 0
    {
      assert Naming(caps[h := cap], o) == if o == cap.target then Naming(caps, o) + {h} else Naming(caps, o);
    }
  }

  lemma NamingLess(caps: Caps, h: nat)
    requires h in caps
    ensures forall o :: |Naming(caps - {h}, o)| == |Naming(caps, o)| - if o == caps[h].target then 1 else 0
  {
    forall o ensures |Naming(caps - {h}, o)| == |Naming(caps, o)| - if o == caps[h].target then 1 else 0
    {
      assert Naming(caps - {h}, o) == if o == caps[h].target then Naming(caps, o) - {h} else Naming(caps, o);
    }
  }

  lemma NamingSame(caps: Caps, caps': Caps)
    requires caps'.Keys == caps.Keys && forall h :: h in caps ==> caps'[h].target == caps[h].target
    ensures forall o :: Naming(caps', o) == Naming(caps, o)
  {
    assert forall h :: h in caps' <==> h in caps.Keys;
  }
}
