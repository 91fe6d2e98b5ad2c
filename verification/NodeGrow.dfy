/** Growing the hash table in place: nodes whose new home lies ahead are taken out and inserted
    again, then the gaps they left are closed. */
module NodeGrow {
  import opened Bits
  import opened Common
  import opened NodeTable

  const MIN_CAPACITY := 16

  function NewCapacity(n: nat): nat
  {
    if 2 * n < MIN_CAPACITY then MIN_CAPACITY else 2 * n
  }

  function Extended<V>(t: Table<V>): (r: Table<V>)
    ensures |r| == NewCapacity(|t|)
  {
    t + seq(NewCapacity(|t|) - |t|, _ => Open)
  }

  /** The insertion loop when the node carried is the one in slot `own`, which it stays in until
      it is placed. */
  function CarryFrom<V>(hash: nat -> nat, t: Table<V>, own: nat, s: nat, dist: nat, gas: nat): (r: Table<V>)
    requires s < |t| && own < |t|
    ensures |r| == |t|
    decreases gas
  {
    if gas == 0 then t
    else if t[s].Open? then t[s := t[own]][own := Open]
    else if dist > Psl(hash, t, s) then
      CarryFrom(hash, t[s := t[own]][own := t[s]], own, Next(s, |t|), Psl(hash, t, s) + 1, gas - 1)
    else CarryFrom(hash, t, own, Next(s, |t|), dist + 1, gas - 1)
  }

  /** The pass over the old slots, from `slot` on. */
  function MoveUp<V>(hash: nat -> nat, t: Table<V>, slot: nat, n: nat): (r: Table<V>)
    requires slot <= n <= |t|
    ensures |r| == |t|
    decreases n - slot
  {
    if slot == n then t
    else if t[slot].Open? || Home(hash, t[slot].key, |t|) <= slot then MoveUp(hash, t, slot + 1, n)
    else MoveUp(hash, CarryFrom(hash, t, slot, Home(hash, t[slot].key, |t|), 0, |t|), slot + 1, n)
  }

  /** The pass that closes gaps, from slot `slot - 1` down. */
  function CloseGaps<V>(hash: nat -> nat, t: Table<V>, slot: nat): (r: Table<V>)
    requires slot <= |t|
    ensures |r| == |t|
    decreases slot
  {
    if slot == 0 then t
    else if t[slot - 1].Open? then CloseGaps(hash, Shift(hash, t, slot - 1), slot - 1)
    else CloseGaps(hash, t, slot - 1)
  }

  function Grown<V>(hash: nat -> nat, t: Table<V>): (r: Table<V>)
    ensures |r| == NewCapacity(|t|)
  {
    CloseGaps(hash, MoveUp(hash, Extended(t), 0, |t|), |t|)
  }

  // ----- the old table -----

  /** A node before its home, reached around the end of the table. */
  predicate Wrapped<V>(hash: nat -> nat, t: Table<V>, p: nat)
    requires p < |t|
  {
    t[p].Full? && Home(hash, t[p].key, |t|) > p
  }

  /** How many slots at the front hold wrapped nodes, from `p` on. */
  function WrapEnd<V>(hash: nat -> nat, t: Table<V>, p: nat): (w: nat)
    requires p <= |t|
    ensures p <= w <= |t|
    ensures forall q :: p <= q < w ==> Wrapped(hash, t, q)
    ensures w < |t| ==> !Wrapped(hash, t, w)
    decreases |t| - p
  {
    if p < |t| && Wrapped(hash, t, p) then WrapEnd(hash, t, p + 1) else p
  }

  /** Wrapped nodes are exactly those in front, and their homes do not decrease. */
  lemma {:induction false} WrappedInFront<V>(hash: nat -> nat, t: Table<V>, p: nat)
    requires AllRobin(hash, t) && p < |t| && Wrapped(hash, t, p)
    ensures p < WrapEnd(hash, t, 0) && Wrapped(hash, t, 0)
    ensures Home(hash, t[0].key, |t|) <= Home(hash, t[p].key, |t|)
  {
    hide Home, WrapEnd;
    assert Robin(hash, t, p);
    if p == 0 {
      var w := WrapEnd(hash, t, 0);
      assert w > 0;
    } else {
      WrappedInFront(hash, t, p - 1);
      var w := WrapEnd(hash, t, 0);
      assert w != p;
    }
  }

  /** Nodes that are not wrapped are in the order of their homes. */
  lemma {:induction false} OldSorted<V>(hash: nat -> nat, t: Table<V>, p: nat, q: nat)
    requires AllRobin(hash, t) && p <= q < |t| && t[p].Full? && t[q].Full? && !Wrapped(hash, t, p)
    requires !Wrapped(hash, t, q)
    ensures Home(hash, t[p].key, |t|) <= Home(hash, t[q].key, |t|)
  {
    hide Home;
    if p < q {
      assert Robin(hash, t, q);
      if t[q - 1].Full? {
        if Wrapped(hash, t, q - 1) {
          WrappedInFront(hash, t, q - 1);
        } else {
          OldSorted(hash, t, p, q - 1);
        }
      }
    }
  }

  /** A wrapped node's home is no less than any other's, and every slot from it to the end is full. */
  lemma OldWrapped<V>(hash: nat -> nat, t: Table<V>, p: nat, q: nat, o: nat)
    requires AllRobin(hash, t) && p < |t| && Wrapped(hash, t, p) && q < |t| && t[q].Full? && !Wrapped(hash, t, q)
    requires o < |t| && t[o].Open?
    ensures Home(hash, t[q].key, |t|) <= Home(hash, t[p].key, |t|)
  {
    hide Home, WrapEnd;
    WrappedInFront(hash, t, p);
    assert Robin(hash, t, 0);
    var n := |t|;
    var last := n - 1;
    if Wrapped(hash, t, last) {
      WrappedInFront(hash, t, last);
    }
    OldSorted(hash, t, q, last);
  }

  /** Every slot from a wrapped node's home to the end is full, with a home no later. */
  lemma OldChain<V>(hash: nat -> nat, t: Table<V>, p: nat, s: nat)
    requires AllRobin(hash, t) && p < |t| && Wrapped(hash, t, p) && Home(hash, t[p].key, |t|) <= s < |t|
    ensures t[s].Full? && s - Home(hash, t[p].key, |t|) <= Psl(hash, t, s)
  {
    hide Home, AllRobin;
    Chain(hash, t, p, s);
  }

  // ----- homes before and after -----

  /** The old home is the new one modulo the old capacity. */
  lemma HomesAgree(hash: nat -> nat, key: nat, n: nat, N: nat)
    requires 0 < n <= N && N % n == 0
    ensures var h, H := Home(hash, key, n), Home(hash, key, N);
      && h <= H && (H < n ==> h == H) && (H >= N - n ==> h == H - (N - n))
  {
    var x, k := hash(key), N / n;
    var H := x % N;
    assert N == n * k;
    ModOfMod(x, n, k);
    ModLess(H, n);
    if H >= N - n {
      var r := H - (N - n);
      LastCopy(n, k);
      DivModUnique(H, n, k - 1, r);
    }
  }

  lemma ModOfMod(x: nat, n: nat, k: nat)
    requires n > 0 && k > 0 && n * k > 0
    ensures (x % (n * k)) % n == x % n
  {
    var N := n * k;
    var q, r := x / N, x % N;
    assert x == N * q + r;
    MulAssoc(n, k, q);
    MulDistributes(n, k * q, r / n);
    assert r == n * (r / n) + r % n;
    DivModUnique(x, n, k * q + r / n, r % n);
  }

  lemma ModLess(x: nat, n: nat)
    requires n > 0
    ensures x % n <= x && (x < n ==> x % n == x)
  {
    assert x == n * (x / n) + x % n;
    if x < n { DivModUnique(x, n, 0, x); }
  }

  lemma LastCopy(n: nat, k: nat)
    requires k > 0
    ensures n * k - n == n * (k - 1)
  {
  }

  // ----- the new order -----

  function At<V>(t: Table<V>, l: nat): Node<V>
    requires l < 2 * |t|
  {
    t[Slot(l, |t|)]
  }

  /** The slot at a position counted on past the end. */
  function Slot(l: nat, N: nat): nat
    requires l < 2 * N
  {
    if l < N then l else l - N
  }

  function NewHome<V>(hash: nat -> nat, t: Table<V>, l: nat): nat
    requires l < 2 * |t| && At(t, l).Full?
  {
    Home(hash, At(t, l).key, |t|)
  }

  /** A node at position `l` is at or past its home; if past, it follows one with no later home. */
  predicate Tight<V>(hash: nat -> nat, t: Table<V>, n: nat, l: nat)
    requires n <= l < 2 * |t|
  {
    At(t, l).Full? ==>
      && NewHome(hash, t, l) <= l && l - NewHome(hash, t, l) < |t|
      && (l > n && NewHome(hash, t, l) < l ==> At(t, l - 1).Full? && NewHome(hash, t, l - 1) <= NewHome(hash, t, l))
  }

  /** Positions from `n` up to `e` are in order. */
  ghost predicate Region<V>(hash: nat -> nat, t: Table<V>, n: nat, e: nat)
  {
    n <= e <= 2 * |t| && forall l :: n <= l < e ==> Tight(hash, t, n, l)
  }

  /** From a node back to its home every position is full, with a home no later. */
  lemma {:induction false} RegionChain<V>(hash: nat -> nat, t: Table<V>, n: nat, e: nat, l: nat, k: nat)
    requires Region(hash, t, n, e) && n <= k <= l < e && At(t, l).Full? && NewHome(hash, t, l) <= k
    ensures At(t, k).Full? && NewHome(hash, t, k) <= NewHome(hash, t, l)
  {
    hide Home;
    assert Tight(hash, t, n, l);
    if k < l { RegionChain(hash, t, n, e, l - 1, k); }
  }

  /** The displacement of a node in the region. */
  lemma RegionPsl<V>(hash: nat -> nat, t: Table<V>, n: nat, e: nat, l: nat)
    requires Region(hash, t, n, e) && n <= l < e && At(t, l).Full?
    ensures Psl(hash, t, Slot(l, |t|)) == l - NewHome(hash, t, l)
  {
    hide Home;
    assert Tight(hash, t, n, l);
  }

  /** The node in slot `own`, outside the region, may be put at position `l`. */
  predicate Arrived<V>(hash: nat -> nat, t: Table<V>, n: nat, e: nat, own: nat, l: nat)
  {
    && own < |t| && t[own].Full? && n <= l < e <= 2 * |t| && Outside(own, |t|, n, e)
    && var H := Home(hash, t[own].key, |t|);
      && H <= l && l - H < |t| && (l > n && H < l ==> At(t, l - 1).Full? && NewHome(hash, t, l - 1) <= H)
  }

  predicate Outside(p: nat, N: nat, n: nat, e: nat)
  {
    p < n && (e <= N || e - N <= p)
  }

  /** Placing at an open position. */
  lemma PutInRegion<V>(hash: nat -> nat, t: Table<V>, n: nat, e: nat, own: nat, l: nat)
    requires Region(hash, t, n, e) && Arrived(hash, t, n, e, own, l) && At(t, l).Open?
    ensures Region(hash, t[Slot(l, |t|) := t[own]][own := Open], n, e)
  {
    hide Home;
    var t' := t[Slot(l, |t|) := t[own]][own := Open];
    forall k | n <= k < e ensures Tight(hash, t', n, k)
    {
      assert Tight(hash, t, n, k);
      assert k != l ==> At(t', k) == At(t, k);
      assert k > n && k - 1 != l ==> At(t', k - 1) == At(t, k - 1);
    }
  }

  /** Changing places with a node whose home is later. */
  lemma SwapInRegion<V>(hash: nat -> nat, t: Table<V>, n: nat, e: nat, own: nat, l: nat)
    requires Region(hash, t, n, e) && Arrived(hash, t, n, e, own, l) && At(t, l).Full?
    requires NewHome(hash, t, l) > Home(hash, t[own].key, |t|)
    ensures var t' := t[Slot(l, |t|) := t[own]][own := At(t, l)];
      Region(hash, t', n, e) && (l + 1 < e && l + 1 - NewHome(hash, t, l) < |t| ==> Arrived(hash, t', n, e, own, l + 1))
  {
    hide Home;
    var t' := t[Slot(l, |t|) := t[own]][own := At(t, l)];
    forall k | n <= k < e ensures Tight(hash, t', n, k)
    {
      assert Tight(hash, t, n, k);
      assert k != l ==> At(t', k) == At(t, k);
      assert k > n && k - 1 != l ==> At(t', k - 1) == At(t, k - 1);
    }
    assert Tight(hash, t, n, l) && At(t', l) == t[own] && t'[own] == At(t, l);
    assert NewHome(hash, t', l) == Home(hash, t[own].key, |t|);
  }

  /** Passing a node whose home is no later. */
  lemma PassInRegion<V>(hash: nat -> nat, t: Table<V>, n: nat, e: nat, own: nat, l: nat)
    requires Region(hash, t, n, e) && Arrived(hash, t, n, e, own, l) && At(t, l).Full?
    requires NewHome(hash, t, l) <= Home(hash, t[own].key, |t|)
    requires l + 1 < e && l + 1 - Home(hash, t[own].key, |t|) < |t|
    ensures Arrived(hash, t, n, e, own, l + 1)
  {
    hide Home;
  }

  /** With an open position in [n, N), no node of the region is a whole table away from its home. */
  lemma NotAround<V>(hash: nat -> nat, t: Table<V>, n: nat, e: nat, o: nat, own: nat, l: nat)
    requires Region(hash, t, n, e) && Arrived(hash, t, n, e, own, l) && n <= o < |t| && t[o].Open?
    ensures At(t, l).Full? ==> l + 1 - Home(hash, t[own].key, |t|) < |t| && l + 1 - NewHome(hash, t, l) < |t|
  {
    hide Home;
    var H := Home(hash, t[own].key, |t|);
    if l > o && H < l {
      assert At(t, l - 1).Full?;
      if NewHome(hash, t, l - 1) <= o { RegionChain(hash, t, n, e, l - 1, o); }
    }
    if At(t, l).Full? && l >= o && NewHome(hash, t, l) <= o {
      RegionChain(hash, t, n, e, l, o);
    }
  }

  /** What a step of the loop does to where keys are: two full slots change places. */
  lemma SwapSlots<V>(t: Table<V>, slots: map<nat, nat>, s: nat, r: nat)
    requires Indexed(t, slots) && s < |t| && r < |t| && s != r && t[s].Full? && t[r].Full?
    ensures var slots' := slots[t[r].key := s][t[s].key := r];
      && Indexed(t[s := t[r]][r := t[s]], slots') && slots'.Keys == slots.Keys
      && ContentsOf(t[s := t[r]][r := t[s]], slots') == ContentsOf(t, slots)
  {
    assert t[s].key in slots && t[r].key in slots;
  }

  /** Keys that belong: each came from a slot no later than `s`, and one whose new home is among the
      old slots had wrapped around. */
  ghost predicate Belongs(hash: nat -> nat, slots0: map<nat, nat>, key: nat, n: nat, N: nat, w: nat, s: nat)
    requires N > 0
  {
    key in slots0 && slots0[key] <= s && (Home(hash, key, N) < n ==> slots0[key] < w)
  }

  ghost predicate AllBelong<V>(hash: nat -> nat, slots0: map<nat, nat>, t: Table<V>, n: nat, e: nat, w: nat, s: nat)
  {
    e <= 2 * |t| && forall l :: n <= l < e && At(t, l).Full? ==> Belongs(hash, slots0, At(t, l).key, n, |t|, w, s)
  }

  /** Outside the region and slot `own` nothing changes. */
  ghost predicate Elsewhere<V>(t: Table<V>, t': Table<V>, n: nat, e: nat, own: nat)
  {
    |t'| == |t| && forall p :: 0 <= p < |t| && p != own && Outside(p, |t|, n, e) ==> t'[p] == t[p]
  }

  /** The node in slot `own` is on its way at position `l`, and position `o` is open. */
  ghost predicate Going<V>(hash: nat -> nat, t: Table<V>, slots: map<nat, nat>, slots0: map<nat, nat>, n: nat, e: nat,
                           w: nat, s: nat, own: nat, l: nat, o: nat)
  {
    && Indexed(t, slots) && Region(hash, t, n, e) && Arrived(hash, t, n, e, own, l) && n <= o < |t| && t[o].Open?
    && AllBelong(hash, slots0, t, n, e, w, s) && Belongs(hash, slots0, t[own].key, n, |t|, w, s)
  }

  /** The same nodes, with nothing moved but in the region and slot `own`. */
  ghost predicate SameNodes<V>(t: Table<V>, slots: map<nat, nat>, t': Table<V>, slots': map<nat, nat>, n: nat, e: nat,
                               own: nat)
  {
    && Indexed(t, slots) && Indexed(t', slots') && slots'.Keys == slots.Keys
    && ContentsOf(t', slots') == ContentsOf(t, slots)
    && Elsewhere(t, t', n, e, own)
  }

  lemma GoPut<V>(hash: nat -> nat, t: Table<V>, slots: map<nat, nat>, slots0: map<nat, nat>, n: nat, e: nat, w: nat,
                 s: nat, own: nat, l: nat, o: nat)
    requires Going(hash, t, slots, slots0, n, e, w, s, own, l, o) && At(t, l).Open?
    ensures var p := Slot(l, |t|);
      var t' := t[p := t[own]][own := Open];
      && Region(hash, t', n, e) && AllBelong(hash, slots0, t', n, e, w, s)
      && SameNodes(t, slots, t', slots[t[own].key := p], n, e, own)
  {
    hide Home, Region, Psl, Indexed, ContentsOf, AllBelong, Belongs;
    PutInRegion(hash, t, n, e, own, l);
    ShiftIndexed(t, slots, Slot(l, |t|), own);
    PutBelongs(hash, slots0, t, n, e, w, s, own, l);
    KeysKept(t, slots, own, Slot(l, |t|));
  }

  lemma GoSwap<V>(hash: nat -> nat, t: Table<V>, slots: map<nat, nat>, slots0: map<nat, nat>, n: nat, e: nat, w: nat,
                  s: nat, own: nat, l: nat, o: nat)
    requires Going(hash, t, slots, slots0, n, e, w, s, own, l, o) && At(t, l).Full? && l + 1 < e
    requires NewHome(hash, t, l) > Home(hash, t[own].key, |t|)
    ensures var p := Slot(l, |t|);
      var t', slots' := t[p := t[own]][own := t[p]], slots[t[own].key := p][t[p].key := own];
      && Going(hash, t', slots', slots0, n, e, w, s, own, l + 1, o)
      && SameNodes(t, slots, t', slots', n, e, own)
  {
    hide Home, Region, Psl, Indexed, ContentsOf, AllBelong, Belongs;
    NotAround(hash, t, n, e, o, own, l);
    SwapInRegion(hash, t, n, e, own, l);
    SwapSlots(t, slots, Slot(l, |t|), own);
    SwapBelongs(hash, slots0, t, n, e, w, s, own, l);
  }

  lemma GoPass<V>(hash: nat -> nat, t: Table<V>, slots: map<nat, nat>, slots0: map<nat, nat>, n: nat, e: nat, w: nat,
                  s: nat, own: nat, l: nat, o: nat)
    requires Going(hash, t, slots, slots0, n, e, w, s, own, l, o) && At(t, l).Full? && l + 1 < e
    requires NewHome(hash, t, l) <= Home(hash, t[own].key, |t|)
    ensures Going(hash, t, slots, slots0, n, e, w, s, own, l + 1, o)
  {
    hide Home, Region, Psl, Indexed, AllBelong, Belongs;
    NotAround(hash, t, n, e, o, own, l);
    PassInRegion(hash, t, n, e, own, l);
  }

  lemma GoFacts<V>(hash: nat -> nat, t: Table<V>, slots: map<nat, nat>, slots0: map<nat, nat>, n: nat, e: nat, w: nat,
                   s: nat, own: nat, l: nat, o: nat)
    requires Going(hash, t, slots, slots0, n, e, w, s, own, l, o)
    ensures own < |t| && t[own].Full? && n <= l < e <= 2 * |t| && Home(hash, t[own].key, |t|) <= l
    ensures At(t, l).Full? ==>
      && Psl(hash, t, Slot(l, |t|)) == l - NewHome(hash, t, l)
      && l + 1 < 2 * |t| && Next(Slot(l, |t|), |t|) == Slot(l + 1, |t|)
      && Slot(l, |t|) != own
  {
    hide Home, Indexed, AllBelong, Belongs;
    if At(t, l).Full? { RegionPsl(hash, t, n, e, l); }
  }

  lemma SameChain<V>(t: Table<V>, slots: map<nat, nat>, t1: Table<V>, slots1: map<nat, nat>, t2: Table<V>,
                     slots2: map<nat, nat>, n: nat, e: nat, own: nat)
    requires SameNodes(t, slots, t1, slots1, n, e, own) && SameNodes(t1, slots1, t2, slots2, n, e, own)
    ensures SameNodes(t, slots, t2, slots2, n, e, own)
  {
    hide Indexed, ContentsOf;
  }

  /** The insertion loop in the region, up to the first open position. */
  lemma {:induction false} CarryInRegion<V>(hash: nat -> nat, t: Table<V>, slots: map<nat, nat>, slots0: map<nat, nat>,
                                            n: nat, e: nat, w: nat, s: nat,
                                            own: nat, l: nat, o: nat, last: nat, gas: nat)
      returns (slots': map<nat, nat>)
    requires Going(hash, t, slots, slots0, n, e, w, s, own, l, o) && l <= last < e <= 2 * |t| && At(t, last).Open?
    requires gas > last - l
    ensures own < |t| && t[own].Full? && Home(hash, t[own].key, |t|) <= l
    ensures var t' := CarryFrom(hash, t, own, Slot(l, |t|), l - Home(hash, t[own].key, |t|), gas);
      && Region(hash, t', n, e) && AllBelong(hash, slots0, t', n, e, w, s) && t'[own].Open?
      && SameNodes(t, slots, t', slots', n, e, own)
    decreases last - l
  {
    hide Home, Going, Region, AllBelong, SameNodes, Psl;
    var p := Slot(l, |t|);
    GoFacts(hash, t, slots, slots0, n, e, w, s, own, l, o);
    if t[p].Open? {
      GoPut(hash, t, slots, slots0, n, e, w, s, own, l, o);
      slots' := slots[t[own].key := p];
    } else if NewHome(hash, t, l) > Home(hash, t[own].key, |t|) {
      GoSwap(hash, t, slots, slots0, n, e, w, s, own, l, o);
      var t1, slots1 := t[p := t[own]][own := t[p]], slots[t[own].key := p][t[p].key := own];
      assert At(t1, last) == At(t, last);
      slots' := CarryInRegion(hash, t1, slots1, slots0, n, e, w, s, own, l + 1, o, last, gas - 1);
      SameChain(t, slots, t1, slots1,
                CarryFrom(hash, t, own, p, l - Home(hash, t[own].key, |t|), gas), slots', n, e, own);
    } else {
      GoPass(hash, t, slots, slots0, n, e, w, s, own, l, o);
      slots' := CarryInRegion(hash, t, slots, slots0, n, e, w, s, own, l + 1, o, last, gas - 1);
    }
  }

  lemma KeysKept<V>(t: Table<V>, slots: map<nat, nat>, own: nat, p: nat)
    requires Indexed(t, slots) && own < |t| && t[own].Full?
    ensures slots[t[own].key := p].Keys == slots.Keys
  {
  }

  lemma PutBelongs<V>(hash: nat -> nat, slots0: map<nat, nat>, t: Table<V>, n: nat, e: nat, w: nat, s: nat, own: nat,
                      l: nat)
    requires AllBelong(hash, slots0, t, n, e, w, s) && Arrived(hash, t, n, e, own, l)
    requires Belongs(hash, slots0, t[own].key, n, |t|, w, s)
    ensures AllBelong(hash, slots0, t[Slot(l, |t|) := t[own]][own := Open], n, e, w, s)
  {
    hide Home, Belongs;
    var t' := t[Slot(l, |t|) := t[own]][own := Open];
    forall k | n <= k < e && At(t', k).Full? ensures Belongs(hash, slots0, At(t', k).key, n, |t|, w, s)
    {
      assert k != l ==> At(t', k) == At(t, k);
    }
  }

  lemma SwapBelongs<V>(hash: nat -> nat, slots0: map<nat, nat>, t: Table<V>, n: nat, e: nat, w: nat, s: nat, own: nat,
                       l: nat)
    requires AllBelong(hash, slots0, t, n, e, w, s) && Arrived(hash, t, n, e, own, l) && At(t, l).Full?
    requires Belongs(hash, slots0, t[own].key, n, |t|, w, s)
    ensures AllBelong(hash, slots0, t[Slot(l, |t|) := t[own]][own := At(t, l)], n, e, w, s)
    ensures Belongs(hash, slots0, At(t, l).key, n, |t|, w, s)
  {
    hide Home, Belongs;
    var t' := t[Slot(l, |t|) := t[own]][own := At(t, l)];
    forall k | n <= k < e && At(t', k).Full? ensures Belongs(hash, slots0, At(t', k).key, n, |t|, w, s)
    {
      assert k != l ==> At(t', k) == At(t, k);
    }
  }

  // ----- there is always room -----

  /** Distinct numbers below `m` are at most `m` many. */
  lemma {:induction false} DistinctBound(s: seq<nat>, m: nat)
    requires Distinct(s) && forall i :: 0 <= i < |s| ==> s[i] < m
    ensures |s| <= m
    decreases m
  {
    if s != [] {
      assert s[0] < m;
      if i :| 0 <= i < |s| && s[i] == m - 1 {
        var r := s[..i] + s[i + 1..];
        assert forall j :: 0 <= j < |r| ==> r[j] == if j < i then s[j] else s[j + 1];
        DistinctBound(r, m - 1);
      } else {
        DistinctBound(s, m - 1);
      }
    }
  }

  /** The start of the run of full positions that ends at `l`, after the open position `o`. */
  lemma BlockStart<V>(t: Table<V>, o: nat, l: nat) returns (b: nat)
    requires o < l < 2 * |t| && At(t, o).Open?
    ensures o < b <= l && At(t, b - 1).Open? && forall k :: b <= k < l ==> At(t, k).Full?
  {
    b := l;
    while At(t, b - 1).Full?
      invariant o < b <= l && forall k :: b <= k < l ==> At(t, k).Full?
      decreases b
    {
      b := b - 1;
    }
  }

  /** Nodes in a run after an open position have their homes in it. */
  lemma HomesInBlock<V>(hash: nat -> nat, t: Table<V>, n: nat, e: nat, b: nat, k: nat)
    requires Region(hash, t, n, e) && n < b <= k < e && At(t, b - 1).Open? && At(t, k).Full?
    ensures NewHome(hash, t, k) >= b
  {
    hide Home;
    if NewHome(hash, t, k) <= b - 1 { RegionChain(hash, t, n, e, k, b - 1); }
  }

  /** The keys of a run of positions and of slot `own`. */
  function Crowd<V>(t: Table<V>, b: nat, e: nat, own: nat): (r: seq<nat>)
    requires b <= e <= 2 * |t| && own < |t| && t[own].Full? && forall k :: b <= k < e ==> At(t, k).Full?
    ensures |r| == e - b + 1
  {
    seq(e - b + 1, i requires 0 <= i <= e - b => Member(t, b, e, own, i))
  }

  function Member<V>(t: Table<V>, b: nat, e: nat, own: nat, i: nat): nat
    requires b <= e <= 2 * |t| && own < |t| && t[own].Full? && (forall k :: b <= k < e ==> At(t, k).Full?) && i <= e - b
  {
    if i < e - b then At(t, b + i).key else t[own].key
  }

  lemma CrowdDistinct<V>(t: Table<V>, slots: map<nat, nat>, n: nat, b: nat, e: nat, own: nat)
    requires Indexed(t, slots) && n <= b <= e <= 2 * |t| && own < |t| && t[own].Full? && Outside(own, |t|, n, e)
    requires forall k :: b <= k < e ==> At(t, k).Full?
    ensures Distinct(Crowd(t, b, e, own)) && forall i :: 0 <= i < e - b + 1 ==> Crowd(t, b, e, own)[i] in slots
  {
    var r := Crowd(t, b, e, own);
    forall i | 0 <= i < |r| ensures r[i] in slots && slots[r[i]] == if i < e - b then Slot(b + i, |t|) else own
    {
      assert i < e - b ==> At(t, b + i).Full?;
    }
  }

  /** Where a key that belongs, with its new home from `b` on, was: in front of `w` or from
      `b - (N - n)` on. */
  lemma OldPlace<V>(hash: nat -> nat, t0: Table<V>, slots0: map<nat, nat>, key: nat, N: nat, b: nat)
    requires AllRobin(hash, t0) && Indexed(t0, slots0) && key in slots0 && 0 < |t0| <= N && N % |t0| == 0
    requires N - |t0| <= b <= Home(hash, key, N)
    ensures slots0[key] < WrapEnd(hash, t0, 0) || slots0[key] >= b - (N - |t0|)
  {
    hide Home, AllRobin, WrapEnd;
    var p := slots0[key];
    HomesAgree(hash, key, |t0|, N);
    if Wrapped(hash, t0, p) { WrappedInFront(hash, t0, p); }
  }

  /** Slots in front of `w` and from `c` on, numbered without a gap. */
  function Code(p: nat, w: nat, c: nat): nat
    requires p < w || p >= c
  {
    if p < w then p else w + p - c
  }

  predicate Spread(places: seq<nat>, w: nat, c: nat, s: nat)
  {
    Distinct(places) && forall i :: 0 <= i < |places| ==> places[i] <= s && (places[i] < w || places[i] >= c)
  }

  lemma SpreadBound(places: seq<nat>, w: nat, c: nat, s: nat)
    requires Spread(places, w, c, s)
    ensures |places| <= s + 1 && (c <= s + 1 ==> |places| <= w + s + 1 - c) && (c > s ==> |places| <= w)
  {
    DistinctBound(places, s + 1);
    var codes := seq(|places|, i requires 0 <= i < |places| => Code(places[i], w, c));
    assert Distinct(codes);
    DistinctBound(codes, if c <= s + 1 then w + s + 1 - c else w);
  }

  /** A run that fills the region would hold more nodes than the slots they came from. */
  lemma NoCrowd(N: nat, n: nat, w: nat, s: nat, b: nat, places: nat)
    requires w < n && s < n && N >= 2 * n && n < b < N && places == N + (if s < w then s else w) - b + 1
    requires places < n
    ensures b >= N - n
    ensures places <= s + 1 ==>
      var c := b - (N - n); !((c <= s + 1 ==> places <= w + s + 1 - c) && (c > s ==> places <= w))
  {
  }

  /** There is an open position ahead of the node in slot `s`. */
  lemma OpenAhead<V>(hash: nat -> nat, t: Table<V>, slots: map<nat, nat>, t0: Table<V>, slots0: map<nat, nat>, s: nat,
                     l: nat, o: nat)
      returns (last: nat)
    requires AllRobin(hash, t0) && Indexed(t0, slots0) && 0 < |t0| && |t| >= 2 * |t0| && |t| % |t0| == 0
    requires WrapEnd(hash, t0, 0) < |t0| && s < |t0| && |slots| < |t0|
    requires var w := WrapEnd(hash, t0, 0);
      Going(hash, t, slots, slots0, |t0|, |t| + (if s < w then s else w), w, s, s, l, o)
    ensures l <= last < |t| + (if s < WrapEnd(hash, t0, 0) then s else WrapEnd(hash, t0, 0)) && At(t, last).Open?
  {
    hide Home, AllRobin, WrapEnd, Tight, Region, AllBelong, Belongs, Indexed;
    if o >= l {
      last := o;
    } else {
      var b := BlockStart(t, o, l);
      Crowded(hash, t, slots, t0, slots0, s, l, o, b);
      last :| b <= last < |t| + (if s < WrapEnd(hash, t0, 0) then s else WrapEnd(hash, t0, 0)) && At(t, last).Open?;
    }
  }

  lemma CarriedHome<V>(hash: nat -> nat, t: Table<V>, n: nat, e: nat, own: nat, l: nat, b: nat)
    requires Region(hash, t, n, e) && Arrived(hash, t, n, e, own, l) && n < b <= l && At(t, b - 1).Open?
    ensures Home(hash, t[own].key, |t|) >= b
  {
    hide Home;
    if Home(hash, t[own].key, |t|) < l && b < l { HomesInBlock(hash, t, n, e, b, l - 1); }
  }

  lemma {:induction false} InSlots(r: seq<nat>, slots: map<nat, nat>)
    requires Distinct(r) && forall i :: 0 <= i < |r| ==> r[i] in slots
    ensures |r| <= |slots|
  {
    if r != [] {
      var last := |r| - 1;
      var k := r[last];
      InSlots(r[..last], slots - {k});
      RemoveOne(slots, k);
    }
  }

  function Places(r: seq<nat>, slots0: map<nat, nat>): (p: seq<nat>)
    requires forall i :: 0 <= i < |r| ==> r[i] in slots0
    ensures |p| == |r| && forall i :: 0 <= i < |r| ==> p[i] == slots0[r[i]]
  {
    seq(|r|, i requires 0 <= i < |r| => slots0[r[i]])
  }

  lemma PlacesDistinct<V>(r: seq<nat>, t0: Table<V>, slots0: map<nat, nat>)
    requires Indexed(t0, slots0) && Distinct(r) && forall i :: 0 <= i < |r| ==> r[i] in slots0
    ensures Distinct(Places(r, slots0))
  {
  }

  /** Every key of the run came from a slot up to `s`, in front of `w` or from `b - (N - n)` on. */
  lemma CrowdSpread<V>(hash: nat -> nat, t: Table<V>, t0: Table<V>, slots0: map<nat, nat>, s: nat, l: nat, b: nat,
                       e: nat, w: nat)
    requires AllRobin(hash, t0) && Indexed(t0, slots0) && 0 < |t0| && |t| >= 2 * |t0| && |t| % |t0| == 0
    requires w == WrapEnd(hash, t0, 0)
    requires Region(hash, t, |t0|, e) && Arrived(hash, t, |t0|, e, s, l) && |t0| < b <= l && At(t, b - 1).Open?
    requires b >= |t| - |t0|
    requires AllBelong(hash, slots0, t, |t0|, e, w, s) && Belongs(hash, slots0, t[s].key, |t0|, |t|, w, s)
    requires forall k :: b <= k < e ==> At(t, k).Full?
    ensures forall i :: 0 <= i <= e - b ==> Crowd(t, b, e, s)[i] in slots0
    ensures forall i :: 0 <= i <= e - b ==>
      var p := slots0[Crowd(t, b, e, s)[i]]; p <= s && (p < w || p >= b - (|t| - |t0|))
  {
    hide Home, AllRobin, WrapEnd, Tight, Region, Indexed;
    var r := Crowd(t, b, e, s);
    forall i | 0 <= i <= e - b
      ensures r[i] in slots0 && slots0[r[i]] <= s && (slots0[r[i]] < w || slots0[r[i]] >= b - (|t| - |t0|))
    {
      if i < e - b {
        assert At(t, b + i).Full?;
        HomesInBlock(hash, t, |t0|, e, b, b + i);
      } else {
        CarriedHome(hash, t, |t0|, e, s, l, b);
      }
      OldPlace(hash, t0, slots0, r[i], |t|, b);
    }
  }

  lemma Crowded<V>(hash: nat -> nat, t: Table<V>, slots: map<nat, nat>, t0: Table<V>, slots0: map<nat, nat>, s: nat,
                   l: nat, o: nat, b: nat)
    requires AllRobin(hash, t0) && Indexed(t0, slots0) && 0 < |t0| && |t| >= 2 * |t0| && |t| % |t0| == 0
    requires WrapEnd(hash, t0, 0) < |t0| && s < |t0| && |slots| < |t0|
    requires var w := WrapEnd(hash, t0, 0);
      Going(hash, t, slots, slots0, |t0|, |t| + (if s < w then s else w), w, s, s, l, o)
    requires |t0| < b <= l && At(t, b - 1).Open?
    ensures exists k :: b <= k < |t| + (if s < WrapEnd(hash, t0, 0) then s else WrapEnd(hash, t0, 0)) && At(t, k).Open?
  {
    hide Home, AllRobin, WrapEnd, Tight, Region, Indexed;
    var n, N, w := |t0|, |t|, WrapEnd(hash, t0, 0);
    var e := N + (if s < w then s else w);
    if forall k :: b <= k < e ==> At(t, k).Full? {
      HomesInBlock(hash, t, n, e, b, l);
      CrowdDistinct(t, slots, n, b, e, s);
      var r := Crowd(t, b, e, s);
      InSlots(r, slots);
      NoCrowd(N, n, w, s, b, |r|);
      CrowdSpread(hash, t, t0, slots0, s, l, b, e, w);
      PlacesDistinct(r, t0, slots0);
      SpreadBound(Places(r, slots0), w, b - (N - n), s);
      assert false;
    }
  }

  // ----- the first pass -----

  /** What is left in an old slot that has been visited: a node whose new home is not ahead. */
  function Stayer<V>(hash: nat -> nat, t0: Table<V>, p: nat, N: nat): Node<V>
    requires p < |t0| && N > 0
  {
    if t0[p].Full? && Home(hash, t0[p].key, N) <= p then t0[p] else Open
  }

  ghost predicate OldOk<V>(hash: nat -> nat, t0: Table<V>, slots0: map<nat, nat>, N: nat)
  {
    && AllRobin(hash, t0) && Indexed(t0, slots0) && 0 < |t0| && N >= 2 * |t0| && N % |t0| == 0 && |slots0| < |t0|
    && WrapEnd(hash, t0, 0) < |t0|
  }

  function Front<V>(hash: nat -> nat, t0: Table<V>, s: nat): nat
  {
    var w := WrapEnd(hash, t0, 0); if s < w then s else w
  }

  /** The first `s` old slots have been visited. */
  ghost predicate Moving<V>(hash: nat -> nat, t0: Table<V>, slots0: map<nat, nat>, t: Table<V>, slots: map<nat, nat>,
                            s: nat)
  {
    var n, N, w := |t0|, |t|, WrapEnd(hash, t0, 0);
    && OldOk(hash, t0, slots0, N) && s <= n
    && Indexed(t, slots) && slots.Keys == slots0.Keys && ContentsOf(t, slots) == ContentsOf(t0, slots0)
    && Region(hash, t, n, N + Front(hash, t0, s)) && AllBelong(hash, slots0, t, n, N + Front(hash, t0, s), w, s)
    && (forall p :: s <= p < n ==> t[p] == t0[p])
    && (forall p :: w <= p < s ==> t[p] == Stayer(hash, t0, p, N))
  }

  lemma MovingStarts<V>(hash: nat -> nat, t0: Table<V>, slots0: map<nat, nat>)
    requires OldOk(hash, t0, slots0, NewCapacity(|t0|))
    ensures Moving(hash, t0, slots0, Extended(t0), slots0, 0)
  {
    hide Home, AllRobin, WrapEnd;
    var t := Extended(t0);
    forall l | |t0| <= l < |t| ensures At(t, l).Open? {}
    assert ContentsOf(t, slots0) == ContentsOf(t0, slots0);
  }

  /** A visited slot that is open, or whose node's home is not ahead, stays as it is. */
  lemma MovingStays<V>(hash: nat -> nat, t0: Table<V>, slots0: map<nat, nat>, t: Table<V>, slots: map<nat, nat>, s: nat)
    requires Moving(hash, t0, slots0, t, slots, s) && s < |t0| && (t[s].Open? || Home(hash, t[s].key, |t|) <= s)
    ensures Moving(hash, t0, slots0, t, slots, s + 1)
  {
    hide Home, AllRobin, WrapEnd, Region, Indexed, ContentsOf;
    assert t[s] == t0[s];
    if t[s].Full? { HomesAgree(hash, t[s].key, |t0|, |t|); }
    assert !Wrapped(hash, t0, s);
    assert s >= WrapEnd(hash, t0, 0);
    BelongMore(hash, slots0, t, |t0|, |t| + Front(hash, t0, s), WrapEnd(hash, t0, 0), s);
  }

  lemma BelongMore<V>(hash: nat -> nat, slots0: map<nat, nat>, t: Table<V>, n: nat, e: nat, w: nat, s: nat)
    requires AllBelong(hash, slots0, t, n, e, w, s)
    ensures AllBelong(hash, slots0, t, n, e, w, s + 1)
  {
    hide Home;
    forall l | n <= l < e && At(t, l).Full? ensures Belongs(hash, slots0, At(t, l).key, n, |t|, w, s + 1)
    {
      assert Belongs(hash, slots0, At(t, l).key, n, |t|, w, s);
    }
  }

  /** There is an open slot among the new ones. */
  lemma OpenAmongNew<V>(t: Table<V>, slots: map<nat, nat>, n: nat) returns (o: nat)
    requires Indexed(t, slots) && n <= |t| && |slots| < |t| - n
    ensures n <= o < |t| && t[o].Open?
  {
    if forall p :: n <= p < |t| ==> t[p].Full? {
      var r := seq(|t| - n, i requires 0 <= i < |t| - n => t[n + i].key);
      forall i | 0 <= i < |r| ensures r[i] in slots && slots[r[i]] == n + i
      {
        assert t[n + i].Full?;
      }
      InSlots(r, slots);
      assert false;
    }
    o :| n <= o < |t| && t[o].Open?;
  }

  /** A wrapped node whose home is among the old slots passes the rest of them. */
  lemma {:induction false} PassOld<V>(hash: nat -> nat, t0: Table<V>, slots0: map<nat, nat>, t: Table<V>,
                                      slots: map<nat, nat>, s: nat, q: nat, gas: nat)
    requires Moving(hash, t0, slots0, t, slots, s) && s < |t0| && t[s].Full?
    requires s < Home(hash, t[s].key, |t|) <= q <= |t0|
    requires gas >= |t0| - q
    ensures CarryFrom(hash, t, s, q, q - Home(hash, t[s].key, |t|), gas)
      == CarryFrom(hash, t, s, |t0|, |t0| - Home(hash, t[s].key, |t|), gas - (|t0| - q))
    decreases |t0| - q
  {
    hide Home, AllRobin, WrapEnd, Region, Indexed, ContentsOf, AllBelong;
    if q < |t0| {
      var H := Home(hash, t[s].key, |t|);
      assert t[s] == t0[s] && t[q] == t0[q];
      HomesAgree(hash, t[s].key, |t0|, |t|);
      assert Wrapped(hash, t0, s);
      OldChain(hash, t0, s, q);
      HomesAgree(hash, t[q].key, |t0|, |t|);
      assert q - H <= Psl(hash, t, q);
      PassOld(hash, t0, slots0, t, slots, s, q + 1, gas - 1);
    }
  }

  /** The position at which a node that moves enters the region. */
  function Entry(H: nat, n: nat): nat { if H < n then n else H }

  lemma EntersRegion<V>(hash: nat -> nat, t0: Table<V>, slots0: map<nat, nat>, t: Table<V>, slots: map<nat, nat>,
                        s: nat, o: nat)
    requires Moving(hash, t0, slots0, t, slots, s) && s < |t0| && t[s].Full? && Home(hash, t[s].key, |t|) > s
    requires |t0| <= o < |t| && t[o].Open?
    ensures var n, w, H := |t0|, WrapEnd(hash, t0, 0), Home(hash, t[s].key, |t|);
      && Going(hash, t, slots, slots0, n, |t| + Front(hash, t0, s), w, s, s, Entry(H, n), o) && (H < n ==> s < w)
  {
    hide Home, AllRobin, WrapEnd, Region, Indexed, ContentsOf, AllBelong;
    var key := t[s].key;
    assert t[s] == t0[s];
    HomesAgree(hash, key, |t0|, |t|);
    if Home(hash, key, |t|) < |t0| {
      assert Wrapped(hash, t0, s);
      WrappedInFront(hash, t0, s);
    }
    IndexedFacts(t0, slots0);
    assert Belongs(hash, slots0, key, |t0|, |t|, WrapEnd(hash, t0, 0), s);
  }

  /** A visited slot whose node's home is ahead gives its node to the region. */
  lemma MovingMoves<V>(hash: nat -> nat, t0: Table<V>, slots0: map<nat, nat>, t: Table<V>, slots: map<nat, nat>, s: nat)
      returns (slots': map<nat, nat>)
    requires Moving(hash, t0, slots0, t, slots, s) && s < |t0| && t[s].Full? && Home(hash, t[s].key, |t|) > s
    ensures Moving(hash, t0, slots0, CarryFrom(hash, t, s, Home(hash, t[s].key, |t|), 0, |t|), slots', s + 1)
  {
    hide Home, AllRobin, WrapEnd, Region, Indexed, ContentsOf, AllBelong, Going, CarryFrom, SameNodes;
    var n, N, w, H := |t0|, |t|, WrapEnd(hash, t0, 0), Home(hash, t[s].key, |t|);
    var e, l := N + Front(hash, t0, s), Entry(H, n);
    SameSize(slots, slots0);
    var o := OpenAmongNew(t, slots, n);
    EntersRegion(hash, t0, slots0, t, slots, s, o);
    var last := OpenAhead(hash, t, slots, t0, slots0, s, l, o);
    var gas := N - (l - H);
    if H < n { PassOld(hash, t0, slots0, t, slots, s, H, N); }
    slots' := CarryInRegion(hash, t, slots, slots0, n, e, w, s, s, l, o, last, gas);
    MovedOn(hash, t0, slots0, t, slots, s, CarryFrom(hash, t, s, H, 0, N), slots');
  }

  lemma SameSize(a: map<nat, nat>, b: map<nat, nat>)
    requires a.Keys == b.Keys
    ensures |a| == |b|
  {
    assert |a| == |a.Keys| && |b| == |b.Keys|;
  }

  lemma MovedOn<V>(hash: nat -> nat, t0: Table<V>, slots0: map<nat, nat>, t: Table<V>, slots: map<nat, nat>, s: nat,
                   t': Table<V>, slots': map<nat, nat>)
    requires Moving(hash, t0, slots0, t, slots, s) && s < |t0| && t[s].Full? && Home(hash, t[s].key, |t|) > s
    requires |t'| == |t|
    requires var n, w := |t0|, WrapEnd(hash, t0, 0);
      var e := |t| + Front(hash, t0, s);
      && Region(hash, t', n, e) && AllBelong(hash, slots0, t', n, e, w, s) && t'[s].Open?
      && SameNodes(t, slots, t', slots', n, e, s)
    ensures Moving(hash, t0, slots0, t', slots', s + 1)
  {
    hide Home, AllRobin, WrapEnd, Indexed, ContentsOf, Tight;
    var n, N, w := |t0|, |t|, WrapEnd(hash, t0, 0);
    var e, e' := N + Front(hash, t0, s), N + Front(hash, t0, s + 1);
    assert e' == e || (e' == e + 1 && At(t', e) == t'[s]);
    assert t[s] == t0[s];
    forall l | n <= l < e' ensures Tight(hash, t', n, l)
    {
      if l == e { OpenTight(hash, t', n, l); }
    }
    BelongMore(hash, slots0, t', n, e, w, s);
    forall p | s + 1 <= p < n ensures t'[p] == t0[p] {}
    forall p | w <= p < s + 1 ensures t'[p] == Stayer(hash, t0, p, N) {}
  }

  lemma OpenTight<V>(hash: nat -> nat, t: Table<V>, n: nat, l: nat)
    requires n <= l < 2 * |t| && At(t, l).Open?
    ensures Tight(hash, t, n, l)
  {
  }

  lemma {:induction false} MoveUpKeeps<V>(hash: nat -> nat, t0: Table<V>, slots0: map<nat, nat>, t: Table<V>,
                                          slots: map<nat, nat>, s: nat)
      returns (slots': map<nat, nat>)
    requires Moving(hash, t0, slots0, t, slots, s) && s <= |t0| <= |t|
    ensures Moving(hash, t0, slots0, MoveUp(hash, t, s, |t0|), slots', |t0|)
    decreases |t0| - s
  {
    hide Home, Moving, CarryFrom;
    if s == |t0| {
      slots' := slots;
    } else if t[s].Open? || Home(hash, t[s].key, |t|) <= s {
      MovingStays(hash, t0, slots0, t, slots, s);
      slots' := MoveUpKeeps(hash, t0, slots0, t, slots, s + 1);
    } else {
      var slots1 := MovingMoves(hash, t0, slots0, t, slots, s);
      slots' := MoveUpKeeps(hash, t0, slots0, CarryFrom(hash, t, s, Home(hash, t[s].key, |t|), 0, |t|), slots1, s + 1);
    }
  }

  // ----- the second pass -----

  /** Counted from slot `u` on, every node is at or past its home, and homes do not decrease. */
  ghost predicate Lined<V>(hash: nat -> nat, t: Table<V>, u: nat)
  {
    && u <= |t|
    && (forall l :: u <= l < |t| + u && At(t, l).Full? ==> NewHome(hash, t, l) <= l && l - NewHome(hash, t, l) < |t|)
    && (forall l, k :: u <= l <= k < |t| + u && At(t, l).Full? && At(t, k).Full? ==>
            NewHome(hash, t, l) <= NewHome(hash, t, k))
  }

  /** A node past its home at position `l` follows a node. */
  predicate NoGap<V>(hash: nat -> nat, t: Table<V>, l: nat)
    requires 0 < l < 2 * |t|
  {
    At(t, l).Full? && NewHome(hash, t, l) < l ==> At(t, l - 1).Full?
  }

  /** No gap is left after position `g`, except perhaps at `x`. */
  ghost predicate Closed<V>(hash: nat -> nat, t: Table<V>, u: nat, g: nat, x: nat)
  {
    u <= |t| && forall l :: u < l < |t| + u && g < l && l != x ==> NoGap(hash, t, l)
  }

  lemma LinedPsl<V>(hash: nat -> nat, t: Table<V>, u: nat, l: nat)
    requires Lined(hash, t, u) && u <= l < |t| + u && At(t, l).Full?
    ensures Psl(hash, t, Slot(l, |t|)) == l - NewHome(hash, t, l)
  {
    hide Home;
  }

  /** Moving a displaced node back into the gap before it. */
  lemma ShiftLined<V>(hash: nat -> nat, t: Table<V>, u: nat, g0: nat, g: nat)
    requires Lined(hash, t, u) && u <= g0 <= g && g + 1 < |t| && t[g].Open? && t[g + 1].Full?
    requires NewHome(hash, t, g + 1) < g + 1
    requires Closed(hash, t, u, g0, g + 1) && (g > g0 ==> t[g - 1].Full?)
    ensures var t' := t[g := t[g + 1]][g + 1 := Open];
      Lined(hash, t', u) && Closed(hash, t', u, g0, g + 2)
  {
    hide Home;
    var t' := t[g := t[g + 1]][g + 1 := Open];
    forall l | u <= l < |t| + u && l != g && l != g + 1 ensures At(t', l) == At(t, l) {}
    assert At(t', g) == At(t, g + 1) && At(t', g + 1).Open?;
    forall l | u <= l < |t'| + u && At(t', l).Full? ensures NewHome(hash, t', l) <= l && l - NewHome(hash, t', l) < |t'|
    {
    }
    forall l, k | u <= l <= k < |t'| + u && At(t', l).Full? && At(t', k).Full?
      ensures NewHome(hash, t', l) <= NewHome(hash, t', k)
    {
      var i, j := if l == g then g + 1 else l, if k == g then g + 1 else k;
      assert At(t', l) == At(t, i) && At(t', k) == At(t, j);
    }
    forall l | u < l < |t'| + u && g0 < l && l != g + 2 ensures NoGap(hash, t', l)
    {
      if l != g && l != g + 1 { assert NoGap(hash, t, l); }
    }
  }

  /** Closing the gap at `g0` leaves none from there on. */
  lemma {:induction false} ShiftCloses<V>(hash: nat -> nat, t: Table<V>, slots: map<nat, nat>, u: nat, g0: nat, g: nat,
                                          o: nat)
      returns (slots': map<nat, nat>)
    requires Indexed(t, slots) && Lined(hash, t, u) && u <= g0 <= g < o < |t| && t[g].Open? && t[o].Open?
    requires Closed(hash, t, u, g0, g + 1) && (g > g0 ==> t[g - 1].Full?)
    ensures var t' := Shift(hash, t, g);
      && Lined(hash, t', u) && Closed(hash, t', u, g0, 0) && (forall p :: 0 <= p < g0 ==> t'[p] == t[p]) && t'[o].Open?
      && Indexed(t', slots') && slots'.Keys == slots.Keys && ContentsOf(t', slots') == ContentsOf(t, slots)
    decreases |t| - g
  {
    hide Home, Lined, Closed, Indexed, ContentsOf, Psl;
    var next := g + 1;
    if t[next].Full? { LinedPsl(hash, t, u, next); }
    if !Displaced(hash, t, next) {
      slots' := slots;
      GapGone(hash, t, u, g0, next);
    } else {
      ShiftLined(hash, t, u, g0, g);
      ShiftIndexed(t, slots, g, next);
      KeysKept(t, slots, next, g);
      slots' := ShiftCloses(hash, t[g := t[next]][next := Open], slots[t[next].key := g], u, g0, next, o);
    }
  }

  lemma GapGone<V>(hash: nat -> nat, t: Table<V>, u: nat, g: nat, x: nat)
    requires Closed(hash, t, u, g, x) && 0 < x < 2 * |t| && NoGap(hash, t, x)
    ensures Closed(hash, t, u, g, 0)
  {
    hide NoGap;
  }

  /** All of the second pass. */
  lemma {:induction false} CloseGapsKeeps<V>(hash: nat -> nat, t: Table<V>, slots: map<nat, nat>, u: nat, slot: nat,
                                             o: nat)
      returns (slots': map<nat, nat>)
    requires Indexed(t, slots) && Lined(hash, t, u) && u <= |t| && slot <= o < |t| && t[o].Open?
    requires Closed(hash, t, u, slot, 0) && forall p :: 0 <= p < u && p < |t| ==> t[p].Full?
    ensures var t' := CloseGaps(hash, t, slot);
      && Lined(hash, t', u) && Closed(hash, t', u, 0, 0) && (forall p :: 0 <= p < u && p < |t'| ==> t'[p].Full?)
      && Indexed(t', slots') && slots'.Keys == slots.Keys && ContentsOf(t', slots') == ContentsOf(t, slots)
    decreases slot
  {
    hide Home, Lined, Closed, Indexed, ContentsOf, Shift;
    if slot == 0 {
      slots' := slots;
    } else {
      var g := slot - 1;
      if t[g].Open? {
        GapHere(hash, t, u, g);
        slots' := ShiftCloses(hash, t, slots, u, g, g, o);
        slots' := CloseGapsKeeps(hash, Shift(hash, t, g), slots', u, g, o);
      } else {
        FullCloses(hash, t, u, g);
        slots' := CloseGapsKeeps(hash, t, slots, u, g, o);
      }
    }
  }

  lemma GapHere<V>(hash: nat -> nat, t: Table<V>, u: nat, g: nat)
    requires Closed(hash, t, u, g + 1, 0)
    ensures Closed(hash, t, u, g, g + 1)
  {
    hide NoGap;
  }

  lemma FullCloses<V>(hash: nat -> nat, t: Table<V>, u: nat, g: nat)
    requires Closed(hash, t, u, g + 1, 0) && g < |t| && t[g].Full?
    ensures Closed(hash, t, u, g, 0)
  {
    hide Home;
    forall l | u < l < |t| + u && g < l ensures NoGap(hash, t, l)
    {
      if l == g + 1 { assert At(t, l - 1) == t[g]; }
    }
  }

  /** In line and without gaps is the displacement order. */
  lemma LinedRobin<V>(hash: nat -> nat, t: Table<V>, u: nat)
    requires Lined(hash, t, u) && Closed(hash, t, u, 0, 0) && u < |t| && forall p :: 0 <= p < u ==> t[p].Full?
    ensures AllRobin(hash, t)
  {
    hide Home;
    forall p | 0 <= p < |t| ensures Robin(hash, t, p)
    {
      var l := if p < u then |t| + p else p;
      if t[p].Full? {
        assert At(t, l) == t[p];
        LinedPsl(hash, t, u, l);
        if l > u {
          assert NoGap(hash, t, l);
          assert At(t, l - 1) == t[Previous(p, |t|)];
          if At(t, l - 1).Full? { LinedPsl(hash, t, u, l - 1); }
        } else if u > 0 {
          assert At(t, |t| + u - 1) == t[u - 1] && Previous(p, |t|) == u - 1;
          LinedPsl(hash, t, u, |t| + u - 1);
        }
      }
    }
  }

  // ----- from the first pass to the second -----

  /** The first open slot among the first `w`, or `w`. */
  function FirstOpen<V>(t: Table<V>, w: nat): (u: nat)
    requires w <= |t|
    ensures u <= w && (u < w ==> t[u].Open?) && forall p :: 0 <= p < u ==> t[p].Full?
  {
    if w == 0 then 0
    else
      var u := FirstOpen(t, w - 1);
      if u < w - 1 || t[w - 1].Open? then u else w
  }

  /** After the first pass the slots in front are filled from the start. */
  lemma FrontFilled<V>(hash: nat -> nat, t: Table<V>, n: nat, w: nat, p: nat)
    requires Region(hash, t, n, |t| + w) && n <= |t| && w <= |t| && FirstOpen(t, w) <= p < w
    ensures t[p].Open?
  {
    hide Home, Region;
    var u := FirstOpen(t, w);
    if t[p].Full? {
      assert At(t, |t| + p) == t[p] && At(t, |t| + u) == t[u];
      RegionChain(hash, t, n, |t| + w, |t| + p, |t| + u);
    }
  }

  lemma RegionSorted<V>(hash: nat -> nat, t: Table<V>, n: nat, e: nat, l: nat, k: nat)
    requires Region(hash, t, n, e) && n <= l <= k < e && At(t, l).Full? && At(t, k).Full?
    ensures NewHome(hash, t, l) <= NewHome(hash, t, k)
  {
    hide Home;
    assert Tight(hash, t, n, l);
    if NewHome(hash, t, k) <= l { RegionChain(hash, t, n, e, k, l); }
  }

  /** A node left in an old slot had the same home there. */
  lemma StayerHome<V>(hash: nat -> nat, t0: Table<V>, p: nat, N: nat)
    requires 0 < |t0| <= N && N % |t0| == 0 && p < |t0| && Stayer(hash, t0, p, N).Full?
    ensures !Wrapped(hash, t0, p) && t0[p].Full? && Home(hash, t0[p].key, |t0|) == Home(hash, t0[p].key, N) <= p
  {
    hide Home;
    HomesAgree(hash, t0[p].key, |t0|, N);
  }

  lemma StayersSorted<V>(hash: nat -> nat, t0: Table<V>, slots0: map<nat, nat>, N: nat, p: nat, q: nat)
    requires OldOk(hash, t0, slots0, N) && p <= q < |t0| && Stayer(hash, t0, p, N).Full? && Stayer(hash, t0, q, N).Full?
    ensures Home(hash, t0[p].key, N) <= Home(hash, t0[q].key, N)
  {
    hide Home, AllRobin, WrapEnd, Indexed;
    StayerHome(hash, t0, p, N);
    StayerHome(hash, t0, q, N);
    OldSorted(hash, t0, p, q);
  }

  /** Homes in the region are no earlier than those of the nodes left behind. */
  lemma StayerFirst<V>(hash: nat -> nat, t0: Table<V>, slots0: map<nat, nat>, N: nat, p: nat, key: nat)
    requires OldOk(hash, t0, slots0, N) && p < |t0| && Stayer(hash, t0, p, N).Full?
    requires Belongs(hash, slots0, key, |t0|, N, WrapEnd(hash, t0, 0), |t0|)
    ensures Home(hash, t0[p].key, N) <= Home(hash, key, N)
  {
    hide Home, AllRobin, WrapEnd;
    StayerHome(hash, t0, p, N);
    if Home(hash, key, N) < |t0| {
      var q := slots0[key];
      assert Wrapped(hash, t0, q) && t0[q].key == key;
      HomesAgree(hash, key, |t0|, N);
      var o := OpenSlot(t0, slots0);
      OldWrapped(hash, t0, q, p, o);
    }
  }

  /** After the first pass nodes are in line, with gaps only among the old slots. */
  lemma MovedLined<V>(hash: nat -> nat, t0: Table<V>, slots0: map<nat, nat>, t: Table<V>, slots: map<nat, nat>)
    requires Moving(hash, t0, slots0, t, slots, |t0|)
    ensures var u := FirstOpen(t, WrapEnd(hash, t0, 0));
      Lined(hash, t, u) && Closed(hash, t, u, |t0|, 0)
  {
    hide Home, AllRobin, WrapEnd, Indexed, ContentsOf, FirstOpen, Belongs;
    var n, N, w := |t0|, |t|, WrapEnd(hash, t0, 0);
    var u := FirstOpen(t, w);
    forall l | u <= l < n && At(t, l).Full?
      ensures w <= l && At(t, l) == t[l] == Stayer(hash, t0, l, N) && t[l] == t0[l]
    {
      if l < w {
        FrontFilled(hash, t, n, w, l);
      }
    }
    forall l | u <= l < N + u && At(t, l).Full? ensures NewHome(hash, t, l) <= l && l - NewHome(hash, t, l) < N
    {
      if l < n { StayerHome(hash, t0, l, N); } else { assert Tight(hash, t, n, l); }
    }
    forall l, k | u <= l <= k < N + u && At(t, l).Full? && At(t, k).Full?
      ensures NewHome(hash, t, l) <= NewHome(hash, t, k)
    {
      if l >= n {
        RegionSorted(hash, t, n, N + w, l, k);
      } else if k < n {
        StayersSorted(hash, t0, slots0, N, l, k);
      } else {
        StayerFirst(hash, t0, slots0, N, l, At(t, k).key);
      }
    }
    forall l | u < l < N + u && n < l ensures NoGap(hash, t, l)
    {
      assert Tight(hash, t, n, l);
    }
  }

  lemma OldTableOk<V>(hash: nat -> nat, t: Table<V>)
    requires Good(hash, t) && |Where(t)| < |t| && NewCapacity(|t|) % |t| == 0
    ensures OldOk(hash, t, Where(t), NewCapacity(|t|))
  {
    hide Home, AllRobin, WrapEnd, Indexed, Where;
    var o := OpenSlot(t, Where(t));
    assert !Wrapped(hash, t, o);
  }

  /** Growing in place keeps every key with its value and restores the displacement order. */
  lemma GrownFacts<V>(hash: nat -> nat, t: Table<V>)
    requires Good(hash, t) && |Where(t)| < |t| && NewCapacity(|t|) % |t| == 0
    ensures Good(hash, Grown(hash, t)) && Contents(Grown(hash, t)) == Contents(t)
    ensures Where(Grown(hash, t)).Keys == Where(t).Keys
  {
    hide Home, AllRobin, WrapEnd, Indexed, ContentsOf, MoveUp, CloseGaps, Where, Lined, Closed, FirstOpen;
    var n, slots0 := |t|, Where(t);
    OldTableOk(hash, t);
    MovingStarts(hash, t, slots0);
    var slots1 := MoveUpKeeps(hash, t, slots0, Extended(t), slots0, 0);
    var t1 := MoveUp(hash, Extended(t), 0, n);
    MovedLined(hash, t, slots0, t1, slots1);
    SameSize(slots1, slots0);
    var o := OpenAmongNew(t1, slots1, n);
    var u := FirstOpen(t1, WrapEnd(hash, t, 0));
    var slots2 := CloseGapsKeeps(hash, t1, slots1, u, n, o);
    LinedRobin(hash, Grown(hash, t), u);
    IndexedWhere(Grown(hash, t), slots2);
  }
}
