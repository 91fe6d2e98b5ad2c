/** A run of the capability table in which deriving a capability retains the wrong object. */
module CapExample {
  import opened Bits
  import opened Capabilities
  import opened Hash
  import opened NodeMap
  import opened NodeTable

  /** The handle kept in a slot, after `k` handles have been made; 0 is none. */
  function Kept(slot: int, k: nat): nat
  {
    if slot == 60 && k >= 12 then 12 else if slot == 61 && k >= 16 then 16 else if slot == 62 && k >= 17 then 17 else 0
  }

  function Own(h: nat): Node<Cap> { Full(h, Cap(INVALID, 0, 1, h)) }

  function KeptTable(k: nat): (t: Table<Cap>)
    ensures |t| == SLOTS
  {
    seq(SLOTS, i => if Kept(i, k) != 0 then Own(Kept(i, k)) else Open)
  }

  lemma HomesA()
    ensures forall h :: h in {1, 2, 3, 4, 5, 6, 7, 8, 9, 10} ==> Home(SplitMix64, h, SLOTS) !in {60, 61, 62}
  {
    hide SplitMix64;
    assert Pow2(7) == SLOTS;
    HomeOf(1, 7); HomeOf(2, 7); HomeOf(3, 7); HomeOf(4, 7); HomeOf(5, 7);
    HomeOf(6, 7); HomeOf(7, 7); HomeOf(8, 7); HomeOf(9, 7); HomeOf(10, 7);
  }

  lemma HomesB()
    ensures forall h :: h in {11, 13, 14, 15, 18, 19, 20, 21, 22} ==> Home(SplitMix64, h, SLOTS) !in {60, 61, 62}
  {
    hide SplitMix64;
    assert Pow2(7) == SLOTS;
    HomeOf(11, 7); HomeOf(13, 7); HomeOf(14, 7); HomeOf(15, 7); HomeOf(18, 7);
    HomeOf(19, 7); HomeOf(20, 7); HomeOf(21, 7); HomeOf(22, 7);
  }

  lemma HomesC()
    ensures forall h :: h in {23, 24, 25, 26, 27, 28} ==> Home(SplitMix64, h, SLOTS) !in {60, 61, 62}
  {
    hide SplitMix64;
    assert Pow2(7) == SLOTS;
    HomeOf(23, 7); HomeOf(24, 7); HomeOf(25, 7); HomeOf(26, 7); HomeOf(27, 7); HomeOf(28, 7);
  }

  lemma HomesE()
    ensures forall h :: h in {29, 30, 31, 32, 33} ==> Home(SplitMix64, h, SLOTS) !in {60, 61, 62}
  {
    hide SplitMix64;
    assert Pow2(7) == SLOTS;
    HomeOf(29, 7); HomeOf(30, 7); HomeOf(31, 7); HomeOf(32, 7); HomeOf(33, 7);
  }

  lemma HomesD()
    ensures Home(SplitMix64, 12, SLOTS) == 60 && Home(SplitMix64, 16, SLOTS) == 61
    ensures Home(SplitMix64, 17, SLOTS) == 62 && Home(SplitMix64, 34, SLOTS) == 60
  {
    hide SplitMix64;
    assert Pow2(7) == SLOTS;
    HomeOf(12, 7); HomeOf(16, 7); HomeOf(17, 7); HomeOf(34, 7);
  }

  /** Handles other than the three kept hash elsewhere. */
  lemma OtherHomes(h: nat)
    requires 0 < h < 34 && h !in {12, 16, 17}
    ensures Home(SplitMix64, h, SLOTS) !in {60, 61, 62}
  {
    HomesA();
    HomesB();
    HomesC();
    HomesE();
  }

  ghost predicate AllHome<V>(hash: nat -> nat, t: Table<V>)
  {
    forall s :: 0 <= s < |t| && t[s].Full? ==> Home(hash, t[s].key, |t|) == s
  }

  /** Among nodes that are all at home, removing one opens its slot and no more. */
  lemma RemoveHome<V>(hash: nat -> nat, t: Table<V>, s: nat)
    requires AllHome(hash, t) && s < |t| && t[s].Full? && |t| > 1
    ensures Unique(t) && Removed(hash, t, t[s].key) == t[s := Open] && !Tears(hash, t, t[s].key)
  {
    hide Home, Where;
    assert Unique(t);
    IndexedFacts(t, Where(t));
    var t' := t[s := Open];
    forall r | 0 <= r < |t| ensures !Displaced(hash, t', r) {}
  }

  lemma KeptHome(k: nat)
    ensures AllHome(SplitMix64, KeptTable(k))
  {
    hide SplitMix64;
    HomesD();
  }

  function KeptCount(k: nat): nat
  {
    (if k >= 12 then 1 else 0) + (if k >= 16 then 1 else 0) + (if k >= 17 then 1 else 0)
  }

  /** After `k` handles, with those not kept dropped again. */
  ghost predicate KeptState(s: State, k: nat)
  {
    && Ok(s) && s.nodes == KeptTable(k) && s.count == k && s.size == KeptCount(k)
    && ReferencesOk(Live(s), s.references)
  }

  lemma NoGrowth(k: nat, node: Node<Cap>)
    requires node.Full?
    ensures Inserted(SplitMix64, KeptTable(k), KeptCount(k), node) == Place(SplitMix64, KeptTable(k), node)
  {
  }

  /** One more handle is put in its home slot. */
  lemma CreateKept(s: State, k: nat)
    requires KeptState(s, k) && k < 33
    ensures var h, s' := k + 1, After(s, Create(k + 1, 1));
      && Ok(s') && s'.nodes == s.nodes[Home(SplitMix64, h, SLOTS) := Own(h)] && s'.count == h && s'.size == s.size + 1
      && ReferencesOk(Live(s'), s'.references) && h in Live(s') && Live(s')[h] == Cap(INVALID, 0, 1, h)
      && AllHome(SplitMix64, s'.nodes)
      && (h in {12, 16, 17} ==> KeptState(s', h))
  {
    hide Ok, ReferencesOk, Home, Place, Inserted, SplitMix64, Live;
    var h, op := k + 1, Create(k + 1, 1);
    StepFacts(s, op);
    KeepsReferences(s, op);
    NoGrowth(k, Own(h));
    HomesD();
    if h !in {12, 16, 17} { OtherHomes(h); }
    PlaceOpen(SplitMix64, s.nodes, Own(h));
    KeptHome(k);
    if h in {12, 16, 17} {
      assert s.nodes[Home(SplitMix64, h, SLOTS) := Own(h)] == KeptTable(h);
    }
  }

  lemma OpenElsewhere(k: nat, p: nat)
    requires p < SLOTS && p !in {60, 61, 62}
    ensures KeptTable(k)[p].Open?
  {
  }

  lemma SameKept(k: nat)
    requires k + 1 !in {12, 16, 17}
    ensures KeptTable(k + 1) == KeptTable(k) && KeptCount(k + 1) == KeptCount(k)
  {
  }

  /** The slot of a handle is where its node is. */
  lemma SlotIs(s: State, h: nat, p: nat)
    requires Ok(s) && h in Live(s) && p < |s.nodes| && s.nodes[p].Full? && s.nodes[p].key == h
    ensures SlotOf(s, h) == p && Live(s)[h] == s.nodes[p].value && Where(s.nodes)[h] == p
  {
    hide Where, BornOk, LiveOk, AllRobin;
    IndexedFacts(s.nodes, Where(s.nodes));
  }

  lemma RetainedAt(s: State, h: nat, p: nat)
    requires Ok(s) && ReferencesOk(Live(s), s.references) && h in Live(s) && p < |s.nodes|
    requires s.nodes[p] == Full(h, Cap(INVALID, 0, 1, h))
    ensures var s' := After(s, Retain(h));
      && Ok(s') && ReferencesOk(Live(s'), s'.references) && h in Live(s')
      && s' == s.(nodes := s.nodes[p := Full(h, Cap(INVALID, 1, 1, h))])
  {
    hide Ok, ReferencesOk, Live, SlotOf, Where;
    SlotIs(s, h, p);
    StepFacts(s, Retain(h));
    KeepsReferences(s, Retain(h));
  }

  lemma ReleasedAt(s: State, h: nat, p: nat)
    requires Ok(s) && ReferencesOk(Live(s), s.references) && h in Live(s) && p < |s.nodes|
    requires s.nodes[p] == Full(h, Cap(INVALID, 1, 1, h))
    requires AllHome(SplitMix64, s.nodes) && |s.nodes| == SLOTS
    ensures var s' := After(s, Release(h));
      && Ok(s') && ReferencesOk(Live(s'), s'.references) && s.size > 0
      && s'.nodes == s.nodes[p := Open] && s'.count == s.count && s'.size == s.size - 1
  {
    hide Ok, ReferencesOk, Live, SlotOf, Where, Removed, Tears, Home;
    SlotIs(s, h, p);
    StepFacts(s, Release(h));
    KeepsReferences(s, Release(h));
    RemoveHome(SplitMix64, s.nodes, p);
    var t := s.nodes[p := Full(h, Cap(INVALID, 0, 1, h))];
    RemoveHome(SplitMix64, t, p);
    assert t[p := Open] == s.nodes[p := Open];
    SizePositive(s, h);
  }

  lemma SizePositive(s: State, h: nat)
    requires Ok(s) && h in Live(s)
    ensures s.size > 0
  {
    RemovedFacts(SplitMix64, s.nodes, s.size, h);
  }

  /** A handle made, retained and released leaves the table as it was. */
  lemma DropKept(s: State, k: nat)
    requires KeptState(s, k) && k < 33 && k + 1 !in {12, 16, 17}
    ensures var s1 := After(s, Create(k + 1, 1)); Ok(s1) && var s2 := After(s1, Retain(k + 1));
      Ok(s2) && KeptState(After(s2, Release(k + 1)), k + 1)
  {
    hide Ok, ReferencesOk, Home, SplitMix64, Live, KeptTable, After, KeptCount;
    var h := k + 1;
    CreateKept(s, k);
    OtherHomes(h);
    var p := Home(SplitMix64, h, SLOTS);
    OpenElsewhere(k, p);
    var s1 := After(s, Create(h, 1));
    RetainedAt(s1, h, p);
    var s2 := After(s1, Retain(h));
    ReleasedAt(s2, h, p);
    SameKept(k);
    assert s2.nodes[p := Open] == s.nodes;
  }

  // ----- the derivation -----

  /** Inserting handle 34 pushes 16 into the slot of 17. */
  lemma Pushed(node: Node<Cap>)
    requires node.Full? && node.key == 34
    ensures Place(SplitMix64, KeptTable(33), node)[62] == Own(16)
  {
    hide SplitMix64, Home, KeptTable;
    HomesD();
    var t := KeptTable(33);
    KeptSlots();
    var t1 := t[61 := node];
    var t2 := t1[62 := Own(16)];
    assert Carry(SplitMix64, t, node, 60, 0, 128) == Carry(SplitMix64, t, node, 61, 1, 127);
    assert Carry(SplitMix64, t, node, 61, 1, 127) == Carry(SplitMix64, t1, Own(16), 62, 1, 126);
    assert Carry(SplitMix64, t1, Own(16), 62, 1, 126) == Carry(SplitMix64, t2, Own(17), 63, 1, 125);
  }

  lemma KeptSlots()
    ensures var t := KeptTable(33); t[60] == Own(12) && t[61] == Own(16) && t[62] == Own(17) && t[63].Open?
  {
  }

  lemma WrongObject(s: State)
    requires KeptState(s, 33)
    ensures 17 in Live(s) && forall residue :: !Undisturbed(s, Derive(17, 1, residue))
  {
    hide Home, SplitMix64, Place, KeptTable, Inserted, Where, BornOk, LiveOk, AllRobin, StillNamed;
    KeptSlots();
    IndexedFacts(s.nodes, Where(s.nodes));
    ContentsKeys(s.nodes, Where(s.nodes));
    SlotIs(s, 17, 62);
    NoGrowth(33, Full(34, Derived(s, 17, 1)));
    Pushed(Full(34, Derived(s, 17, 1)));
    forall residue ensures !Undisturbed(s, Derive(17, 1, residue))
    {
      NamedExactly(s, 17, 1, residue);
    }
  }

  /** Thirty-three handles, each on its own object, all but three dropped; deriving from the last
      of these retains another's object. */
  method DeriveExample() returns (t: CapTable)
    ensures t.Valid() && !ReferencesOk(Live(t.Now()), t.references)
  {
    hide Ok, ReferencesOk, Home, Live, After, KeptCount, KeptTable, Undisturbed, Effect, Made;
    t := new CapTable();
    EmptyKept(t.Now());
    for k := 0 to 33
      invariant fresh(t) && fresh(t.caps) && t.Valid() && KeptState(t.Now(), k)
    {
      ghost var s := t.Now();
      CreateKept(s, k);
      var h := t.Create(k + 1, 1);
      if k + 1 != 12 && k + 1 != 16 && k + 1 != 17 {
        DropKept(s, k);
        var found := t.Retain(k + 1);
        t.Release(k + 1);
      }
    }
    WrongObject(t.Now());
    var h := t.Derive(17, 1, 0);
  }

  lemma EmptyKept(s: State)
    requires Ok(s) && s.nodes == seq(SLOTS, _ => Open) && s.count == 0 && s.size == 0
    requires ReferencesOk(Live(s), s.references)
    ensures KeptState(s, 0)
  {
    assert s.nodes == KeptTable(0);
  }
}
