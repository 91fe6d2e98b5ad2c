/** Robin Hood tables are nearly determined by their keys: in every slot the home is, but which of the
    keys with that home is there depends on the order in which they came. */
module NodeCanon {
  import opened Hash
  import opened NodeGrow
  import opened NodeMap
  import opened NodeTable

  /** The slot `i` steps on from `b`. */
  function Ahead(b: nat, i: nat, n: nat): (s: nat)
    requires b < n && i < n
    ensures s < n && Distance(b, s, n) == i
  {
    if b + i < n then b + i else b + i - n
  }

  /** One more than the displacement in a slot; 0 for an open slot. */
  function Level<V>(hash: nat -> nat, t: Table<V>, p: nat): nat
    requires p < |t|
  {
    if t[p].Open? then 0 else Psl(hash, t, p) + 1
  }

  lemma Between(a: nat, h: nat, s: nat, n: nat)
    requires a < n && h < n && s < n && Distance(h, s, n) <= Distance(a, s, n)
    ensures Distance(a, h, n) == Distance(a, s, n) - Distance(h, s, n)
  {
  }

  lemma Onwards(a: nat, h: nat, y: nat, n: nat)
    requires a < n && h < n && y < n && Distance(a, h, n) + Distance(h, y, n) < n
    ensures Distance(a, y, n) == Distance(a, h, n) + Distance(h, y, n)
  {
  }

  /** The run of full slots that ends in `p` begins `m` slots before it. */
  ghost predicate RunFrom<V>(t: Table<V>, b: nat, m: nat, p: nat)
  {
    && b < |t| && m < |t| && p == Ahead(b, m, |t|) && t[Previous(b, |t|)].Open?
    && forall i :: 0 <= i <= m ==> t[Ahead(b, i, |t|)].Full?
  }

  lemma RunTo<V>(t: Table<V>, p: nat, o: nat) returns (b: nat, m: nat)
    requires p < |t| && t[p].Full? && o < |t| && t[o].Open?
    ensures RunFrom(t, b, m, p)
  {
    b, m := p, 0;
    while t[Previous(b, |t|)].Full?
      invariant b < |t| && m < |t| && p == Ahead(b, m, |t|) && Distance(o, b, |t|) + m == Distance(o, p, |t|) && b != o
      invariant forall i :: 0 <= i <= m ==> t[Ahead(b, i, |t|)].Full?
      decreases Distance(o, b, |t|)
    {
      var c := Previous(b, |t|);
      forall i | 0 <= i <= m + 1 ensures t[Ahead(c, i, |t|)].Full?
      {
        if i > 0 { assert Ahead(c, i, |t|) == Ahead(b, i - 1, |t|); }
      }
      b, m := c, m + 1;
    }
  }

  /** Along a run homes do not decrease, and none lies before it. */
  lemma {:induction false} RunSorted<V>(hash: nat -> nat, t: Table<V>, b: nat, m: nat, p: nat, i: nat)
    requires AllRobin(hash, t) && RunFrom(t, b, m, p) && i <= m
    ensures Psl(hash, t, Ahead(b, i, |t|)) <= i && i - Psl(hash, t, Ahead(b, i, |t|)) <= m - Psl(hash, t, p)
    decreases m - i
  {
    hide Home;
    RunStarts(hash, t, b, m, p, i);
    if i < m {
      RunSorted(hash, t, b, m, p, i + 1);
      assert Previous(Ahead(b, i + 1, |t|), |t|) == Ahead(b, i, |t|);
      assert Robin(hash, t, Ahead(b, i + 1, |t|));
    }
  }

  lemma {:induction false} RunStarts<V>(hash: nat -> nat, t: Table<V>, b: nat, m: nat, p: nat, i: nat)
    requires AllRobin(hash, t) && RunFrom(t, b, m, p) && i <= m
    ensures Psl(hash, t, Ahead(b, i, |t|)) <= i
  {
    hide Home;
    assert Robin(hash, t, Ahead(b, i, |t|));
    if i > 0 {
      RunStarts(hash, t, b, m, p, i - 1);
      assert Previous(Ahead(b, i, |t|), |t|) == Ahead(b, i - 1, |t|);
    }
  }

  /** Where another table with the same keys has the key that is `i` slots into the run. */
  ghost function PlaceOf<V, W>(t: Table<V>, t': Table<W>, b: nat, i: nat): nat
    requires Unique(t) && b < |t'| && i < |t'| && t'[Ahead(b, i, |t'|)].Full? && t'[Ahead(b, i, |t'|)].key in Where(t)
  {
    Where(t)[t'[Ahead(b, i, |t'|)].key]
  }

  /** A key of the run up to `p` in one table is before `p` in any table whose level there is lower. */
  lemma PlacedBefore<V, W>(hash: nat -> nat, t: Table<V>, t': Table<W>, b: nat, m: nat, p: nat, i: nat)
    requires Good(hash, t) && Good(hash, t') && |t| == |t'| && RunFrom(t', b, m, p) && i <= m
    requires t'[Ahead(b, i, |t'|)].key in Where(t) && Level(hash, t, p) < Level(hash, t', p)
    ensures PlaceOf(t, t', b, i) < |t| && Distance(b, PlaceOf(t, t', b, i), |t|) < m
  {
    hide Home, Where, AllRobin, Unique;
    var n, s := |t|, Ahead(b, i, |t'|);
    var key := t'[s].key;
    IndexedFacts(t, Where(t));
    RunSorted(hash, t', b, m, p, i);
    var h, y := Home(hash, key, n), Where(t)[key];
    Between(b, h, s, n);
    assert Distance(b, p, n) == m;
    OffsetTo(b, h, p, n);
    if Distance(h, p, n) <= Psl(hash, t, y) {
      Chain(hash, t, y, p);
      assert false;
    }
    Onwards(b, h, y, n);
  }

  lemma OffsetTo(b: nat, h: nat, p: nat, n: nat)
    requires b < n && h < n && p < n && Distance(b, h, n) <= Distance(b, p, n)
    ensures Distance(h, p, n) == Distance(b, p, n) - Distance(b, h, n)
  {
  }

  /** A level cannot be higher than in another table with the same keys: the run up to the slot would not
      fit before it. */
  lemma RunFits<V, W>(hash: nat -> nat, t: Table<V>, t': Table<W>, b: nat, m: nat, p: nat)
    requires Good(hash, t) && Good(hash, t') && |t| == |t'| && RunFrom(t', b, m, p)
    requires Where(t).Keys == Where(t').Keys
    ensures Level(hash, t', p) <= Level(hash, t, p)
  {
    hide Home, Where, AllRobin, Psl, Level;
    var n := |t|;
    IndexedFacts(t, Where(t));
    IndexedFacts(t', Where(t'));
    forall i | 0 <= i <= m ensures t'[Ahead(b, i, n)].key in Where(t)
    {
      assert t'[Ahead(b, i, n)].key in Where(t').Keys;
    }
    if Level(hash, t, p) < Level(hash, t', p) {
      var codes := seq(m + 1, i requires 0 <= i <= m => Distance(b, PlaceOf(t, t', b, i), n));
      forall i | 0 <= i <= m ensures codes[i] < m && PlaceOf(t, t', b, i) < n
      {
        PlacedBefore(hash, t, t', b, m, p, i);
      }
      forall i, j | 0 <= i < j <= m ensures codes[i] != codes[j]
      {
        assert Distance(b, Ahead(b, i, n), n) == i && Distance(b, Ahead(b, j, n), n) == j;
        assert t'[Ahead(b, i, n)].key != t'[Ahead(b, j, n)].key;
        assert PlaceOf(t, t', b, i) != PlaceOf(t, t', b, j);
      }
      DistinctBound(codes, m);
    }
  }

  lemma NotHigher<V, W>(hash: nat -> nat, t: Table<V>, t': Table<W>, p: nat)
    requires Good(hash, t) && Good(hash, t') && |t| == |t'| && p < |t|
    requires Where(t).Keys == Where(t').Keys && |Where(t')| < |t'|
    ensures Level(hash, t', p) <= Level(hash, t, p)
  {
    hide Home, Where, AllRobin, Unique, Psl;
    if t'[p].Full? {
      var o := OpenSlot(t', Where(t'));
      var b, m := RunTo(t', p, o);
      RunFits(hash, t, t', b, m, p);
    }
  }

  /** Tables with the same keys and capacity have the same slots open and the same home in every other,
      whatever the order in which the keys came and went. */
  lemma SameHomes<V, W>(hash: nat -> nat, t: Table<V>, t': Table<W>, p: nat)
    requires Good(hash, t) && Good(hash, t') && |t| == |t'| && p < |t|
    requires Where(t).Keys == Where(t').Keys && |Where(t)| < |t|
    ensures (t[p].Open? <==> t'[p].Open?) && (t[p].Full? ==> Home(hash, t[p].key, |t|) == Home(hash, t'[p].key, |t|))
  {
    hide Home, Where, AllRobin, Unique;
    SameSize(Where(t), Where(t'));
    NotHigher(hash, t, t', p);
    NotHigher(hash, t', t, p);
  }

  /** Every slot after `home` to the end of the table, and the first two, hold displaced nodes. */
  ghost predicate Packed<V>(hash: nat -> nat, t: Table<V>, home: nat)
  {
    && |t| > 1 && Displaced(hash, t, 0) && Displaced(hash, t, 1)
    && forall r :: home < r < |t| ==> Displaced(hash, t, r)
  }

  /** Removing a key tears the table exactly when its home is packed and the key has not itself been
      displaced past the end. */
  lemma TearsExactly<V>(hash: nat -> nat, t: Table<V>, key: nat)
    requires Good(hash, t) && |Where(t)| < |t| && key in Where(t)
    ensures Tears(hash, t, key) <==>
      Packed(hash, t, Home(hash, key, |t|)) && Home(hash, key, |t|) <= Where(t)[key]
  {
    hide Home, Where, AllRobin, Unique, Psl;
    var n := |t|;
    IndexedFacts(t, Where(t));
    var h, p := Home(hash, key, n), Where(t)[key];
    forall r | 0 <= r < n && Distance(h, r, n) <= Psl(hash, t, p)
      ensures t[r].Full? && (r != h ==> Displaced(hash, t, r))
    {
      Chain(hash, t, p, r);
      DisplacedFar(hash, t, r, h);
    }
    assert Psl(hash, t, p) == Distance(h, p, n) by { PslIs(hash, t, p); }
    var o := OpenSlot(t, Where(t));
    var t1 := t[p := Open];
    forall r | 0 <= r < n && r != p ensures Displaced(hash, t1, r) == Displaced(hash, t, r)
    {
      DisplacedSame(hash, t, t1, r);
    }
    assert !Displaced(hash, t, o) && !Displaced(hash, t1, o) && Distance(h, o, n) > Psl(hash, t, p);
    assert h <= p < 2 ==> !Packed(hash, t, h);
    assert p < h ==> !Overruns(hash, t1, p);
  }

  lemma PslIs<V>(hash: nat -> nat, t: Table<V>, p: nat)
    requires p < |t| && t[p].Full?
    ensures Psl(hash, t, p) == Distance(Home(hash, t[p].key, |t|), p, |t|)
  {
  }

  lemma DisplacedFar<V>(hash: nat -> nat, t: Table<V>, r: nat, h: nat)
    requires r < |t| && h < |t| && t[r].Full? && Psl(hash, t, r) >= Distance(h, r, |t|)
    ensures r != h ==> Displaced(hash, t, r)
  {
  }

  lemma DisplacedSame<V>(hash: nat -> nat, t: Table<V>, t': Table<V>, r: nat)
    requires r < |t| == |t'| && t[r] == t'[r]
    ensures Displaced(hash, t', r) == Displaced(hash, t, r)
  {
  }

  /** Which homes are packed depends on the keys and the capacity alone, so removing a key tears both of two
      such tables or neither, if it has been displaced past the end in both or neither. */
  lemma TearsByKeys<V, W>(hash: nat -> nat, t: Table<V>, t': Table<W>, key: nat)
    requires Good(hash, t) && Good(hash, t') && |t| == |t'|
    requires Where(t).Keys == Where(t').Keys && |Where(t)| < |t| && key in Where(t)
    ensures var home := Home(hash, key, |t|);
      && (Packed(hash, t, home) <==> Packed(hash, t', home))
      && ((home <= Where(t)[key] <==> home <= Where(t')[key]) ==> (Tears(hash, t, key) <==> Tears(hash, t', key)))
  {
    hide Home, Where, AllRobin, Unique, Tears;
    SameSize(Where(t), Where(t'));
    assert key in Where(t').Keys;
    forall r | 0 <= r < |t| ensures Displaced(hash, t, r) == Displaced(hash, t', r)
    {
      SameHomes(hash, t, t', r);
    }
    TearsExactly(hash, t, key);
    TearsExactly(hash, t', key);
  }

  /** The same three keys in another order of arrival. */
  lemma OtherOrder()
    ensures Inserted(SplitMix64, seq(4, _ => Open), 0, NODE_19) == Four(Open, Open, NODE_19)
    ensures Inserted(SplitMix64, Four(Open, Open, NODE_19), 1, NODE_9) == Four(NODE_9, Open, NODE_19)
    ensures Inserted(SplitMix64, Four(NODE_9, Open, NODE_19), 2, NODE_22) == Four(NODE_9, NODE_22, NODE_19)
  {
    hide Home;
    SameHome();
  }

  /** A node in the last slot and two more of its home after it. */
  lemma ThreeGood(a: nat, b: nat, c: nat)
    requires a != b && b != c && a != c
    requires Home(SplitMix64, a, 4) == 3 && Home(SplitMix64, b, 4) == 3 && Home(SplitMix64, c, 4) == 3
    ensures var t := Four(Full(b, true), Full(c, true), Full(a, true));
      Good(SplitMix64, t) && Where(t) == map[a := 3, b := 0, c := 1]
  {
    hide Home, Where;
    IndexedWhere(Four(Full(b, true), Full(c, true), Full(a, true)), map[a := 3, b := 0, c := 1]);
  }

  /** The key that came first in the one order is displaced past the end in the other, where removing it
      tears nothing. */
  lemma OrderMatters()
    ensures var t, t' := Four(NODE_19, NODE_22, NODE_9), Four(NODE_9, NODE_22, NODE_19);
      && Good(SplitMix64, t) && Good(SplitMix64, t') && Where(t).Keys == Where(t').Keys
      && Tears(SplitMix64, t, 9) && !Tears(SplitMix64, t', 9)
  {
    hide Home, Where, AllRobin, Unique;
    SameHome();
    var t, t' := Four(NODE_19, NODE_22, NODE_9), Four(NODE_9, NODE_22, NODE_19);
    ThreeGood(9, 19, 22);
    ThreeGood(19, 9, 22);
    assert Where(t)[9] == 3 && Where(t')[9] == 0;
    assert t[3 := Open] == Four(NODE_19, NODE_22, Open);
  }
}
