/** Which block a request takes and what becomes of a block that is given back, told by the free lists, the
    blocks and the end of the heap before. */
module HeapPolicy {
  import opened Bits
  import opened FreeList
  import opened HeapBook
  import opened HeapModel

  type Lists = map<nat, seq<nat>>

  function On(lists: Lists, k: nat): seq<nat>
  {
    if k in lists then lists[k] else []
  }

  predicate SameAt(bs: Blocks, bs': Blocks, a: nat)
  {
    (a in bs' <==> a in bs) && (a in bs ==> bs'[a] == bs[a])
  }

  /** The least order above `order` with a free block. */
  predicate Least(lists: Lists, order: nat, o: nat)
  {
    order < o <= MAX_ORDER && On(lists, o) != [] && forall k: nat :: order < k < o ==> On(lists, k) == []
  }

  /** The list of the order is not empty: its first block is taken, and no other list or block changes. */
  ghost predicate TakesFirst(b: Book, b': Book, order: nat, p: nat)
  {
    && On(b.lists, order) != [] && p == On(b.lists, order)[0] && b'.end == b.end
    && (forall k: nat :: On(b'.lists, k) == if k == order then On(b.lists, k)[1..] else On(b.lists, k))
    && p in b'.blocks && b'.blocks[p] == BlockInfo(order, false)
    && forall a: nat :: a != p ==> SameAt(b.blocks, b'.blocks, a)
  }

  function CutList(lists: Lists, order: nat, o: nat, p: nat, k: nat): seq<nat>
    requires On(lists, o) != []
  {
    if k == o then On(lists, k)[1..] else if order <= k < o then [p + Size(k)] + On(lists, k) else On(lists, k)
  }

  /** The first block of the least larger order with one is cut down to the order: every order on the way gets
      the upper half in front. */
  ghost predicate CutsLeast(b: Book, b': Book, order: nat, o: nat, p: nat)
  {
    && On(b.lists, order) == [] && Least(b.lists, order, o) && p == On(b.lists, o)[0] && b'.end == b.end
    && (forall k: nat :: On(b'.lists, k) == CutList(b.lists, order, o, p, k))
    && p in b'.blocks && b'.blocks[p] == BlockInfo(order, false) && HalvesOf(b.blocks, b'.blocks, order, o, p)
  }

  ghost predicate IsHalf(order: nat, o: nat, p: nat, a: nat)
  {
    exists k: nat :: order <= k < o && a == p + Size(k)
  }

  /** The upper halves are free blocks, and nothing else but `p` has changed. */
  ghost predicate HalvesOf(bs: Blocks, bs': Blocks, order: nat, o: nat, p: nat)
  {
    && (forall k: nat :: order <= k < o ==> p + Size(k) in bs' && bs'[p + Size(k)] == BlockInfo(k, true))
    && forall a: nat :: a != p && !IsHalf(order, o, p, a) ==> SameAt(bs, bs', a)
  }

  /** No list from the order on has a block: the heap grows by free blocks up to the next multiple of the order's
      size, one for each order in which rounding up makes a difference, and then by the block. */
  ghost predicate Extends(b: Book, b': Book, order: nat, p: nat)
  {
    && (forall k: nat :: order <= k <= MAX_ORDER ==> On(b.lists, k) == []) && p == RoundUp(b.end, order)
    && b'.end == p + Size(order)
    && (forall k: nat :: On(b'.lists, k) == FillList(b.lists, b.end, order, k))
    && p in b'.blocks && b'.blocks[p] == BlockInfo(order, false) && FillersOf(b.blocks, b'.blocks, b.end, order, p)
  }

  predicate Fills(end: nat, order: nat, k: nat)
  {
    k < order && RoundUp(end, k) != RoundUp(end, k + 1)
  }

  function FillList(lists: Lists, end: nat, order: nat, k: nat): seq<nat>
  {
    if Fills(end, order, k) then [RoundUp(end, k)] + On(lists, k) else On(lists, k)
  }

  ghost predicate IsFiller(end: nat, order: nat, a: nat)
  {
    exists k: nat :: Fills(end, order, k) && a == RoundUp(end, k)
  }

  ghost predicate FillersOf(bs: Blocks, bs': Blocks, end: nat, order: nat, p: nat)
  {
    && (forall k: nat :: Fills(end, order, k) ==> RoundUp(end, k) in bs' && bs'[RoundUp(end, k)] == BlockInfo(k, true))
    && forall a: nat :: a != p && !IsFiller(end, order, a) ==> SameAt(bs, bs', a)
  }

  /** What a request of an order takes. */
  ghost predicate Chosen(b: Book, b': Book, order: nat, p: nat)
  {
    TakesFirst(b, b', order, p) || (exists o :: CutsLeast(b, b', order, o, p)) || Extends(b, b', order, p)
  }

  lemma SizeGrows(j: nat, k: nat)
    requires j < k
    ensures Size(j) < Size(k)
    decreases k
  {
    if j + 1 < k { SizeGrows(j, k - 1); }
    SizeDoubles(k - 1);
  }

  /** Splitting cuts the first block of the least larger order. */
  lemma {:induction false} SplitCuts(start: nat, b: Book, order: nat, o: nat)
    requires Least(b.lists, order, o) && On(b.lists, o)[0] != 0
    ensures var p, b' := On(b.lists, o)[0], Split(start, b, order).1;
      && Split(start, b, order).0 == p && b'.end == b.end
      && (forall k: nat :: On(b'.lists, k) == CutList(b.lists, order, o, p, k))
      && p in b'.blocks && b'.blocks[p] == BlockInfo(order, true) && HalvesOf(b.blocks, b'.blocks, order, o, p)
    decreases o - order
  {
    hide Size, Cut, HalvesOf, CutList;
    var p := On(b.lists, o)[0];
    if o == order + 1 {
      var b1 := Popped(b, o);
      CutParts(start, b1, p, order);
      FirstCut(b.lists, Cut(start, b1, p, order).lists, order, p);
      FirstHalf(b.blocks, Cut(start, b1, p, order).blocks, order, p);
    } else {
      SplitCuts(start, b, order + 1, o);
      assert On(b.lists, order + 1) == [];
      var b1 := Split(start, b, order + 1).1;
      CutParts(start, b1, p, order);
      NextCut(b.lists, b1.lists, Cut(start, b1, p, order).lists, order, o, p);
      NextHalf(b.blocks, b1.blocks, Cut(start, b1, p, order).blocks, order, o, p);
    }
  }

  lemma FirstCut(lists: Lists, lists': Lists, order: nat, p: nat)
    requires On(lists, order + 1) != []
    requires lists' == lists[order + 1 := On(lists, order + 1)[1..]][order := [p + Size(order)] + On(lists, order)]
    ensures forall k: nat :: On(lists', k) == CutList(lists, order, order + 1, p, k)
  {
    hide Size;
  }

  lemma NextCut(lists: Lists, lists1: Lists, lists': Lists, order: nat, o: nat, p: nat)
    requires order + 1 < o && On(lists, o) != []
    requires forall k: nat :: On(lists1, k) == CutList(lists, order + 1, o, p, k)
    requires lists' == lists1[order := [p + Size(order)] + On(lists1, order)]
    ensures forall k: nat :: On(lists', k) == CutList(lists, order, o, p, k)
  {
    hide Size;
    forall k: nat ensures On(lists', k) == CutList(lists, order, o, p, k)
    {
      assert On(lists1, k) == CutList(lists, order + 1, o, p, k);
    }
  }

  lemma FirstHalf(bs: Blocks, bs': Blocks, order: nat, p: nat)
    requires bs' == bs[p + Size(order) := BlockInfo(order, true)][p := BlockInfo(order, true)]
    ensures HalvesOf(bs, bs', order, order + 1, p)
  {
    hide Size;
    assert IsHalf(order, order + 1, p, p + Size(order));
  }

  lemma NextHalf(bs: Blocks, bs1: Blocks, bs': Blocks, order: nat, o: nat, p: nat)
    requires order + 1 < o && HalvesOf(bs, bs1, order + 1, o, p)
    requires bs' == bs1[p + Size(order) := BlockInfo(order, true)][p := BlockInfo(order, true)]
    ensures HalvesOf(bs, bs', order, o, p)
  {
    hide Size;
    SizeGrowsAll(order, o);
    assert IsHalf(order, o, p, p + Size(order));
    forall a: nat | a != p && !IsHalf(order, o, p, a) ensures SameAt(bs, bs', a)
    {
      assert !IsHalf(order + 1, o, p, a);
    }
  }

  lemma SizeGrowsAll(order: nat, o: nat)
    ensures forall j: nat, k: nat :: order <= j < k < o ==> Size(j) < Size(k)
  {
    forall j: nat, k: nat | order <= j < k < o ensures Size(j) < Size(k) { SizeGrows(j, k); }
  }

  lemma CutParts(start: nat, b: Book, p: nat, order: nat)
    ensures var b' := Cut(start, b, p, order);
      && b'.end == b.end && b'.lists == b.lists[order := [p + Size(order)] + On(b.lists, order)]
      && b'.blocks == b.blocks[p + Size(order) := BlockInfo(order, true)][p := BlockInfo(order, true)]
  {
    hide Entry, KeyOf, Size;
  }

  lemma {:induction false} SplitFails(start: nat, b: Book, order: nat)
    requires forall k: nat :: order < k <= MAX_ORDER ==> On(b.lists, k) == []
    ensures Split(start, b, order).0 == 0
    decreases MAX_ORDER - order
  {
    hide Cut;
    if order < MAX_ORDER {
      assert On(b.lists, order + 1) == [];
      SplitFails(start, b, order + 1);
    }
  }

  /** Where the heap's end goes while it is filled up. */
  lemma {:induction false} FilledParts(start: nat, b: Book, order: nat)
    requires b.end > 0 && order <= MAX_ORDER
    ensures var b' := Filled(start, b, order);
      && b'.end == RoundUp(b.end, order) && (forall k: nat :: On(b'.lists, k) == FillList(b.lists, b.end, order, k))
      && FillersOf(b.blocks, b'.blocks, b.end, order, b'.end)
    decreases if AddressOrder(b.end) < order then order - AddressOrder(b.end) else 0
  {
    hide Size, RoundUp, AddressOrder, FillList, FillersOf, Filler;
    var e, a := b.end, AddressOrder(b.end);
    AddressOrderFacts(e, order);
    if a >= order {
      FilledEnd(start, b, order);
      NothingFilled(b.lists, b.blocks, e, order);
    } else {
      FilledStep(start, b, order);
      FillerParts(start, b, a);
      var b1 := Filler(start, b, a);
      FilledParts(start, b1, order);
      var b' := Filled(start, b, order);
      ListFilled(b.lists, b1.lists, b'.lists, e, order);
      BlocksFilled(b.blocks, b1.blocks, b'.blocks, e, order, b'.end);
    }
  }

  lemma NothingFilled(lists: Lists, bs: Blocks, e: nat, order: nat)
    requires e > 0 && order <= AddressOrder(e) && order <= MAX_ORDER
    ensures (forall k: nat :: On(lists, k) == FillList(lists, e, order, k)) && FillersOf(bs, bs, e, order, e)
  {
    hide RoundUp, AddressOrder;
    forall k: nat ensures !Fills(e, order, k) { if k < order { NoFill(e, order, k); } }
  }

  lemma ListFilled(lists: Lists, lists1: Lists, lists': Lists, e: nat, order: nat)
    requires e > 0 && order <= MAX_ORDER && AddressOrder(e) < order
    requires lists1 == lists[AddressOrder(e) := [e] + On(lists, AddressOrder(e))]
    requires forall k: nat :: On(lists', k) == FillList(lists1, e + Size(AddressOrder(e)), order, k)
    ensures forall k: nat :: On(lists', k) == FillList(lists, e, order, k)
  {
    hide RoundUp, AddressOrder, Size, Fills;
    FillFirst(e);
    forall k: nat ensures On(lists', k) == FillList(lists, e, order, k) { FillStep(e, order, k); }
  }

  lemma BlocksFilled(bs: Blocks, bs1: Blocks, bs': Blocks, e: nat, order: nat, end: nat)
    requires e > 0 && order <= MAX_ORDER && AddressOrder(e) < order && e < end
    requires bs1 == bs[e := BlockInfo(AddressOrder(e), true)]
    requires FillersOf(bs1, bs', e + Size(AddressOrder(e)), order, end)
    ensures FillersOf(bs, bs', e, order, end)
  {
    hide RoundUp, AddressOrder, Size, Fills;
    FillFirst(e);
    var a := AddressOrder(e);
    var e1 := e + Size(a);
    forall k: nat ensures Fills(e, order, k) <==> k == a || Fills(e1, order, k)
      ensures Fills(e1, order, k) ==> RoundUp(e1, k) == RoundUp(e, k) > e
    {
      FillStep(e, order, k);
    }
    assert !IsFiller(e1, order, e);
    assert IsFiller(e, order, e);
    forall x: nat | x != end && !IsFiller(e, order, x) ensures SameAt(bs, bs', x)
    {
      assert !IsFiller(e1, order, x);
    }
  }

  lemma FillFirst(e: nat)
    requires e > 0
    ensures RoundUp(e, AddressOrder(e)) == e
  {
    AddressOrderFacts(e, AddressOrder(e));
    AddressOrderFacts(e, MAX_ORDER);
  }

  lemma NoFill(e: nat, order: nat, k: nat)
    requires e > 0 && k < order <= AddressOrder(e) && order <= MAX_ORDER
    ensures !Fills(e, order, k)
  {
    AddressOrderFacts(e, k);
    AddressOrderFacts(e, k + 1);
  }

  lemma FillStep(e: nat, order: nat, k: nat)
    requires e > 0 && order <= MAX_ORDER && AddressOrder(e) < order
    ensures var a := AddressOrder(e);
      && (Fills(e, order, k) <==> k == a || Fills(e + Size(a), order, k))
      && (Fills(e + Size(a), order, k) ==> k > a && RoundUp(e + Size(a), k) == RoundUp(e, k) > e)
  {
    hide RoundUp, AddressOrder, Size;
    var a := AddressOrder(e);
    AddressOrderFacts(e, order);
    if k < order {
      AddressOrderFacts(e, k);
      AddressOrderFacts(e, k + 1);
      AddressOrderFacts(e + Size(a), k);
      AddressOrderFacts(e + Size(a), k + 1);
    }
  }

  lemma FillerParts(start: nat, b: Book, a: nat)
    ensures var b' := Filler(start, b, a);
      && b'.lists == b.lists[a := [b.end] + On(b.lists, a)] && b'.blocks == b.blocks[b.end := BlockInfo(a, true)]
  {
    hide Entry, KeyOf, Size;
  }

  lemma EnteredParts(start: nat, b: Book, a: nat, info: BlockInfo)
    ensures var b' := Entered(start, b, a, info);
      b'.end == b.end && b'.lists == b.lists && b'.blocks == b.blocks[a := info]
  {
    hide Entry, KeyOf;
  }

  /** An allocation takes the first block of its order's list, else cuts the first block of the least larger
      order that has one, else grows the heap. */
  lemma ObtainedChosen(start: nat, b: Book, order: nat)
    requires b.end > 0 && order <= MAX_ORDER
    requires forall o: nat :: order < o <= MAX_ORDER && On(b.lists, o) != [] ==> On(b.lists, o)[0] != 0
    ensures Chosen(b, Obtained(start, b, order).1, order, Obtained(start, b, order).0)
  {
    hide Size, Entered, RoundUp, Split, Filled, HalvesOf, FillersOf, CutList, FillList;
    var l := On(b.lists, order);
    var info := BlockInfo(order, false);
    if l != [] {
      EnteredParts(start, Popped(b, order), l[0], info);
    } else if exists k: nat :: order < k <= MAX_ORDER && On(b.lists, k) != [] {
      var o := LeastAbove(b.lists, order);
      SplitCuts(start, b, order, o);
      var s := Split(start, b, order);
      EnteredParts(start, s.1, s.0, info);
      HalvesGranted(b.blocks, s.1.blocks, order, o, s.0, info);
      assert CutsLeast(b, Obtained(start, b, order).1, order, o, s.0);
    } else {
      SplitFails(start, b, order);
      FilledParts(start, b, order);
      var f := Filled(start, b, order);
      EnteredParts(start, f, f.end, info);
      FillersGranted(b.blocks, f.blocks, b.end, order, info);
    }
  }

  lemma HalvesGranted(bs: Blocks, bs': Blocks, order: nat, o: nat, p: nat, info: BlockInfo)
    requires HalvesOf(bs, bs', order, o, p)
    ensures HalvesOf(bs, bs'[p := info], order, o, p)
  {
    hide Size;
  }

  lemma FillersGranted(bs: Blocks, bs': Blocks, end: nat, order: nat, info: BlockInfo)
    requires end > 0 && order <= MAX_ORDER && FillersOf(bs, bs', end, order, RoundUp(end, order))
    ensures FillersOf(bs, bs'[RoundUp(end, order) := info], end, order, RoundUp(end, order))
  {
    hide RoundUp;
    FillsBelow(end, order);
  }

  lemma FillsBelow(end: nat, order: nat)
    requires end > 0 && order <= MAX_ORDER
    ensures forall k: nat :: Fills(end, order, k) ==> RoundUp(end, k) != RoundUp(end, order)
  {
    hide RoundUp;
    forall k: nat | Fills(end, order, k) ensures RoundUp(end, k) != RoundUp(end, order)
    {
      RoundUpRises(end, k, order);
    }
  }

  lemma {:induction false} RoundUpRises(end: nat, k: nat, order: nat)
    requires k < order && RoundUp(end, k) != RoundUp(end, k + 1)
    ensures RoundUp(end, k) < RoundUp(end, order)
    decreases order
  {
    RoundUpNext(end, order - 1);
    if k + 1 < order { RoundUpRises(end, k, order - 1); }
  }

  lemma {:induction false} RoundUpNext(x: nat, n: nat)
    ensures RoundUp(x, n) <= RoundUp(x, n + 1)
  {
    if n > 0 { RoundUpNext((x + 1) / 2, n - 1); }
  }

  lemma LeastAbove(lists: Lists, order: nat) returns (o: nat)
    requires exists k: nat :: order < k <= MAX_ORDER && On(lists, k) != []
    ensures Least(lists, order, o)
  {
    o := order + 1;
    while On(lists, o) == []
      invariant order < o <= MAX_ORDER && forall k: nat :: order < k < o ==> On(lists, k) == []
      decreases MAX_ORDER - o
    {
      o := o + 1;
    }
  }

  // ----- giving a block back -----

  /** The block of order `k` that an address is in: its low `k` digits are cleared. */
  function Base(p: nat, k: nat): nat
  {
    if k == 0 then p else 2 * Base(p / 2, k - 1)
  }

  /** The other half of the block of the next order that it is in. */
  function Buddy(p: nat, k: nat): nat
  {
    if Base(p, k + 1) == Base(p, k) then Base(p, k) + Size(k) else Base(p, k + 1)
  }

  predicate FreeBuddy(bs: Blocks, p: nat, k: nat)
  {
    Buddy(p, k) in bs && bs[Buddy(p, k)] == BlockInfo(k, true)
  }

  /** `r` is `l` without the first `x`. */
  ghost predicate Drops(l: seq<nat>, x: nat, r: seq<nat>)
  {
    exists i :: 0 <= i < |l| && l[i] == x && x !in l[..i] && r == l[..i] + l[i + 1..]
  }

  /** An address that is a block of its own no longer. */
  ghost predicate GivenUp(p: nat, from: nat, o: nat, a: nat)
  {
    a == p || exists k: nat :: from <= k < o && a == Buddy(p, k)
  }

  ghost predicate BuddyList(l: seq<nat>, l': seq<nat>, p: nat, from: nat, o: nat, k: nat)
  {
    if from <= k < o then Drops(l, Buddy(p, k), l') else l' == l
  }

  /** The block at `p`, of order `from`, and its buddies up to order `o` are one block. */
  ghost predicate OneBlock(bs: Blocks, bs': Blocks, p: nat, from: nat, o: nat)
  {
    && Base(p, o) in bs' && bs'[Base(p, o)].order == o
    && forall a: nat :: a != Base(p, o) ==> if GivenUp(p, from, o, a) then a !in bs' else SameAt(bs, bs', a)
  }

  ghost predicate JoinedTo(b: Book, b': Book, p: nat, from: nat, o: nat)
  {
    && b'.end == b.end && OneBlock(b.blocks, b'.blocks, p, from, o)
    && forall k: nat :: BuddyList(On(b.lists, k), On(b'.lists, k), p, from, o, k)
  }

  /** A block that is given back is joined with its buddy for as long as that is free and of the same order; its
      buddies leave their lists, and what results is free and the first of its own list. */
  ghost predicate ReclaimsTo(b: Book, b': Book, p: nat, o: nat)
  {
    && p in b.blocks && b.blocks[p].order <= o <= MAX_ORDER && b'.end == b.end
    && (forall k: nat :: b.blocks[p].order <= k < o ==> FreeBuddy(b.blocks, p, k))
    && (o == MAX_ORDER || !FreeBuddy(b.blocks, p, o))
    && OneBlock(b.blocks, b'.blocks, p, b.blocks[p].order, o) && b'.blocks[Base(p, o)].free
    && On(b'.lists, o) == [Base(p, o)] + On(b.lists, o)
    && forall k: nat :: k != o ==> BuddyList(On(b.lists, k), On(b'.lists, k), p, b.blocks[p].order, o, k)
  }

  ghost predicate Reclaims(b: Book, b': Book, p: nat)
  {
    exists o: nat :: ReclaimsTo(b, b', p, o)
  }

  lemma {:induction false} BaseNext(p: nat, k: nat)
    ensures Aligned(Base(p, k), k) && FlipBit(Base(p, k), k) == Buddy(p, k) != Base(p, k)
    ensures Lower(Base(p, k), Buddy(p, k)) == Base(p, k + 1)
    ensures Base(p, k + 1) <= Base(p, k) && Base(p, k) + Size(k) <= Base(p, k + 1) + Size(k + 1)
    ensures Base(p, k) <= p < Base(p, k) + Size(k)
    ensures Buddy(p, k) + Size(k) <= Base(p, k) || Base(p, k) + Size(k) <= Buddy(p, k)
    ensures Base(p, k + 1) <= Buddy(p, k) < Base(p, k + 1) + Size(k + 1)
  {
    SizeDoubles(k);
    if k == 0 {
      assert Base(p, 1) == 2 * (p / 2) && Size(0) == 1;
    } else {
      BaseNext(p / 2, k - 1);
      SizeDoubles(k - 1);
      var y := Base(p / 2, k - 1);
      assert Base(p, k) == 2 * y && (2 * y) / 2 == y && Base(p, k + 1) == 2 * Base(p / 2, k);
      assert FlipBit(2 * y, k) == 2 * FlipBit(y, k - 1);
    }
  }

  /** Whatever was given up lies in the block that results. */
  lemma {:induction false} GivenUpInside(p: nat, from: nat, o: nat, a: nat)
    requires from <= o && GivenUp(p, from, o, a)
    ensures Base(p, o) <= a < Base(p, o) + Size(o)
    decreases o
  {
    hide Base, Buddy, Size;
    if from == o {
      BaseNext(p, o);
    } else {
      BaseNext(p, o - 1);
      if a != Buddy(p, o - 1) {
        GivenUpInside(p, from, o - 1, a);
      }
    }
  }

  lemma GivenUpNext(p: nat, from: nat, o: nat, a: nat)
    requires from <= o
    ensures GivenUp(p, from, o + 1, a) <==> GivenUp(p, from, o, a) || a == Buddy(p, o)
  {
    hide Buddy;
  }

  lemma MergedParts(start: nat, b: Book, a: nat, order: nat)
    requires Mergeable(b.blocks, start, a, order)
    ensures var b', buddy := MergedOnce(start, b, a, order), FlipBit(a, order);
      var keep, gone := Lower(a, buddy), Upper(a, buddy);
      && b'.end == b.end && b'.lists == b.lists[order := Without(On(b.lists, order), buddy)]
      && b'.blocks == (b.blocks - {gone})[keep := BlockInfo(order + 1, b.blocks[keep].free)]
  {
    hide Entry, KeyOf, Key, FlipBit, Without;
  }

  lemma FirstAt(l: seq<nat>, x: nat) returns (i: nat)
    requires x in l
    ensures i < |l| && l[i] == x && x !in l[..i]
  {
    i := 0;
    while l[i] != x
      invariant i < |l| && x !in l[..i]
      decreases |l| - i
    {
      i := i + 1;
    }
  }

  lemma WithoutDrops(l: seq<nat>, x: nat)
    requires x in l
    ensures Drops(l, x, Without(l, x))
  {
    var i := FirstAt(l, x);
    WithoutAt(l, i);
  }

  /** Every free block but the one given back is on its list. */
  ghost predicate AllListed(b: Book, start: nat, p: nat)
  {
    && (forall a: nat :: a in b.blocks ==> start <= a)
    && forall a: nat :: a in b.blocks && a != p && b.blocks[a].free ==> a in On(b.lists, b.blocks[a].order)
  }

  /** Whether the next buddy can be joined is told by the blocks at the start. */
  lemma JoinsNext(start: nat, b0: Book, b: Book, p: nat, from: nat, j: nat)
    requires JoinedTo(b0, b, p, from, j) && from <= j && AllListed(b0, start, p) && start <= Base(p, j)
    ensures Mergeable(b.blocks, start, Base(p, j), j) <==> j < MAX_ORDER && FreeBuddy(b0.blocks, p, j)
  {
    hide Base, Buddy, Size, FlipBit;
    BaseNext(p, j);
    var buddy := Buddy(p, j);
    if GivenUp(p, from, j, buddy) { GivenUpInside(p, from, j, buddy); }
    assert SameAt(b0.blocks, b.blocks, buddy);
  }

  lemma JoinStep(start: nat, b0: Book, b: Book, p: nat, from: nat, j: nat)
    requires JoinedTo(b0, b, p, from, j) && from <= j && p == Base(p, from) && AllListed(b0, start, p)
    requires Mergeable(b.blocks, start, Base(p, j), j)
    ensures JoinedTo(b0, MergedOnce(start, b, Base(p, j), j), p, from, j + 1)
  {
    hide Base, Buddy, Size, FlipBit, MergedOnce, GivenUp;
    BaseNext(p, j);
    var a, buddy, b' := Base(p, j), Buddy(p, j), MergedOnce(start, b, Base(p, j), j);
    MergedParts(start, b, a, j);
    JoinsNext(start, b0, b, p, from, j);
    forall k: nat ensures BuddyList(On(b0.lists, k), On(b'.lists, k), p, from, j + 1, k)
    {
      assert BuddyList(On(b0.lists, k), On(b.lists, k), p, from, j, k);
      if k == j {
        NotItself(p, from, j);
        WithoutDrops(On(b.lists, j), buddy);
      }
    }
    forall x: nat | x != Base(p, j + 1)
      ensures if GivenUp(p, from, j + 1, x) then x !in b'.blocks else SameAt(b0.blocks, b'.blocks, x)
    {
      GivenUpNext(p, from, j, x);
      BaseGivenUp(p, from, j);
    }
  }

  lemma NotItself(p: nat, from: nat, j: nat)
    ensures Buddy(p, j) != p
  {
    hide Base, Buddy, Size;
    BaseNext(p, j);
  }

  /** The block so far is the one given back or one of its buddies. */
  lemma {:induction false} BaseGivenUp(p: nat, from: nat, j: nat)
    requires from <= j && p == Base(p, from)
    ensures GivenUp(p, from, j, Base(p, j))
    decreases j
  {
    hide Base, Size, Buddy;
    if from < j {
      BaseNext(p, j - 1);
      BaseGivenUp(p, from, j - 1);
      GivenUpNext(p, from, j - 1, Base(p, j));
      GivenUpNext(p, from, j - 1, Base(p, j - 1));
    }
  }

  /** Merging goes on exactly as long as the buddy was free. */
  lemma {:induction false} MergesTo(start: nat, b0: Book, b: Book, p: nat, from: nat, j: nat) returns (o: nat)
    requires JoinedTo(b0, b, p, from, j) && from <= j <= MAX_ORDER && AllListed(b0, start, p) && start <= Base(p, j)
    requires p == Base(p, from)
    ensures j <= o <= MAX_ORDER && (forall k: nat :: j <= k < o ==> FreeBuddy(b0.blocks, p, k))
    ensures o == MAX_ORDER || !FreeBuddy(b0.blocks, p, o)
    ensures var m := MergedAll(start, b, Base(p, j), j); m.0 == Base(p, o) && JoinedTo(b0, m.1, p, from, o)
    decreases MAX_ORDER - j
  {
    hide Base, Buddy, Size, FlipBit, MergedOnce, JoinedTo, AllListed, Mergeable;
    JoinsNext(start, b0, b, p, from, j);
    if Mergeable(b.blocks, start, Base(p, j), j) {
      JoinStep(start, b0, b, p, from, j);
      BaseNext(p, j);
      MergeableStart(b.blocks, start, Base(p, j), j);
      o := MergesTo(start, b0, MergedOnce(start, b, Base(p, j), j), p, from, j + 1);
    } else {
      o := j;
    }
  }

  lemma MergeableStart(bs: Blocks, start: nat, a: nat, order: nat)
    requires Mergeable(bs, start, a, order)
    ensures start <= Lower(a, FlipBit(a, order)) && order < MAX_ORDER
  {
    hide FlipBit;
  }

  lemma RegisteredParts(start: nat, b: Book, a: nat, order: nat)
    ensures var b' := Registered(start, b, a, order);
      && b'.end == b.end && b'.lists == b.lists[order := [a] + On(b.lists, order)]
      && b'.blocks == b.blocks[a := BlockInfo(order, true)]
  {
    hide Entry, KeyOf;
  }

  /** Freeing joins a block with its free buddies and puts the result on its list. */
  lemma FreedReclaims(start: nat, b: Book, p: nat)
    requires p in b.blocks && b.blocks[p].order <= MAX_ORDER && Aligned(p, b.blocks[p].order) && AllListed(b, start, p)
    ensures Reclaims(b, Freed(start, b, p), p)
  {
    hide Base, Buddy, Size, MergedAll, Registered, GivenUp, AllListed, Aligned, OneBlock, BuddyList;
    var from := b.blocks[p].order;
    AtBase(p, from);
    AllListedStart(b, start, p);
    JoinedNothing(b, p);
    var o := MergesTo(start, b, b, p, from, from);
    var m := MergedAll(start, b, p, from);
    RegisteredParts(start, m.1, m.0, o);
    var b' := Freed(start, b, p);
    assert m.1.blocks[m.0].order == o by { ResultOrder(b, m.1, p, from, o); }
    RegisteredJoined(b, m.1, b', p, from, o);
    assert ReclaimsTo(b, b', p, o);
  }

  lemma ResultOrder(b: Book, b': Book, p: nat, from: nat, o: nat)
    requires JoinedTo(b, b', p, from, o)
    ensures Base(p, o) in b'.blocks && b'.blocks[Base(p, o)].order == o
  {
    hide Base, GivenUp;
  }

  lemma AllListedStart(b: Book, start: nat, p: nat)
    requires AllListed(b, start, p) && p in b.blocks
    ensures start <= p
  {
  }

  lemma {:induction false} AtBase(p: nat, k: nat)
    requires Aligned(p, k)
    ensures Base(p, k) == p
  {
    if k > 0 { AtBase(p / 2, k - 1); }
  }

  lemma JoinedNothing(b: Book, p: nat)
    requires p in b.blocks && Base(p, b.blocks[p].order) == p
    ensures JoinedTo(b, b, p, b.blocks[p].order, b.blocks[p].order)
  {
    hide Base, Buddy;
  }

  lemma RegisteredJoined(b0: Book, b: Book, b': Book, p: nat, from: nat, o: nat)
    requires JoinedTo(b0, b, p, from, o) && b'.end == b.end
    requires b'.lists == b.lists[o := [Base(p, o)] + On(b.lists, o)]
    requires b'.blocks == b.blocks[Base(p, o) := BlockInfo(o, true)]
    ensures OneBlock(b0.blocks, b'.blocks, p, from, o) && On(b'.lists, o) == [Base(p, o)] + On(b0.lists, o)
    ensures forall k: nat :: k != o ==> BuddyList(On(b0.lists, k), On(b'.lists, k), p, from, o, k)
  {
    hide Base, Buddy, GivenUp, Drops;
    assert BuddyList(On(b0.lists, o), On(b.lists, o), p, from, o, o);
    forall k: nat | k != o ensures BuddyList(On(b0.lists, k), On(b'.lists, k), p, from, o, k)
    {
      assert On(b'.lists, k) == On(b.lists, k);
    }
  }
}
