/** A run of the heap in which a free moves another block's entry out of the block map: eight
    allocations, then two buddies among them freed. */
module HeapExample {
  import opened Bits
  import opened FreeList
  import opened Hash
  import opened Heap
  import opened HeapBook
  import opened HeapModel
  import opened NodeMap
  import opened NodeTable

  const START := 0x40_0000
  const ORDERS: seq<nat> := [21, 17, 15, 15, 15, 11, 10, 5]
  const SIZES: seq<nat> := [0x20_0000, 0x2_0000, 0x8000, 0x8000, 0x8000, 0x800, 0x400, 0x20]
  /** The keys of the blocks, in the order of their allocation, and the slots they hash to. */
  const KEYS: seq<nat> := [0, 65536, 69632, 70656, 71680, 72704, 72768, 72800]
  const HOMES: seq<nat> := [0, 245, 417, 511, 248, 75, 409, 511]

  lemma Home0()
    ensures Home(SplitMix64, 0, 512) == 0
  {
    hide SplitMix64;
    assert Pow2(9) == 512;
    HomeOf(0, 9);
  }

  lemma Home1()
    ensures Home(SplitMix64, 65536, 512) == 245
  {
    hide SplitMix64;
    assert Pow2(9) == 512;
    WordByte(1, 0);
    WordByte(256, 0);
    HomeOf(65536, 9);
  }

  lemma Home2()
    ensures Home(SplitMix64, 69632, 512) == 417
  {
    hide SplitMix64;
    assert Pow2(9) == 512;
    WordByte(1, 16);
    WordByte(272, 0);
    HomeOf(69632, 9);
  }

  lemma Home3()
    ensures Home(SplitMix64, 70656, 512) == 511
  {
    hide SplitMix64;
    assert Pow2(9) == 512;
    WordByte(1, 20);
    WordByte(276, 0);
    HomeOf(70656, 9);
  }

  lemma Home4()
    ensures Home(SplitMix64, 71680, 512) == 248
  {
    hide SplitMix64;
    assert Pow2(9) == 512;
    WordByte(1, 24);
    WordByte(280, 0);
    HomeOf(71680, 9);
  }

  lemma Home5()
    ensures Home(SplitMix64, 72704, 512) == 75
  {
    hide SplitMix64;
    assert Pow2(9) == 512;
    WordByte(1, 28);
    WordByte(284, 0);
    HomeOf(72704, 9);
  }

  lemma Home6()
    ensures Home(SplitMix64, 72768, 512) == 409
  {
    hide SplitMix64;
    assert Pow2(9) == 512;
    WordByte(1, 28);
    WordByte(284, 64);
    HomeOf(72768, 9);
  }

  lemma Home7()
    ensures Home(SplitMix64, 72800, 512) == 511
  {
    hide SplitMix64;
    assert Pow2(9) == 512;
    WordByte(1, 28);
    WordByte(284, 96);
    HomeOf(72800, 9);
  }

  lemma Homes()
    ensures forall i :: 0 <= i < 8 ==> Home(SplitMix64, KEYS[i], 512) == HOMES[i]
  {
    hide Home;
    Home0(); Home1(); Home2(); Home3(); Home4(); Home5(); Home6(); Home7();
    forall i | 0 <= i < 8 ensures Home(SplitMix64, KEYS[i], 512) == HOMES[i]
    {
      assert i == 0 || i == 1 || i == 2 || i == 3 || i == 4 || i == 5 || i == 6 || i == 7;
    }
  }

  lemma Sizes(i: nat)
    requires i < 8
    ensures Size(ORDERS[i]) == SIZES[i]
  {
    Pow2Add(5, 5);
    Pow2Add(10, 5);
    Pow2Add(15, 2);
    Pow2Add(11, 10);
    assert i == 0 || i == 1 || i == 2 || i == 3 || i == 4 || i == 5 || i == 6 || i == 7;
  }

  function Address(i: nat): nat
    requires i < 8
  {
    START + 32 * KEYS[i]
  }

  function EndAfter(n: nat): nat
    requires n <= 8
  {
    if n < 8 then Address(n) else Address(7) + 32
  }

  lemma Placed(n: nat)
    requires n < 8
    ensures OrderFor(SIZES[n]) == ORDERS[n] && Aligned(Address(n), ORDERS[n])
    ensures EndAfter(n + 1) == Address(n) + SIZES[n] <= 2 * START
    ensures Key(START, Address(n)) == KEYS[n] && RoundUp(Address(n), ORDERS[n]) == Address(n)
  {
    hide RoundUp, Pow2, OrderFor, Aligned, Size;
    Sizes(n);
    OrderForSize(ORDERS[n]);
    PlacedAligned(n);
    AddressOrderFacts(Address(n), ORDERS[n]);
    assert n == 0 || n == 1 || n == 2 || n == 3 || n == 4 || n == 5 || n == 6 || n == 7;
  }

  lemma PlacedAligned(n: nat)
    requires n < 8
    ensures Aligned(Address(n), ORDERS[n])
  {
    hide Pow2, Aligned, Size;
    Sizes(n);
    SizeIsPower(ORDERS[n]);
    AlignedIsMultiple(Address(n), ORDERS[n]);
    assert n == 0 || n == 1 || n == 2 || n == 3 || n == 4 || n == 5 || n == 6 || n == 7;
  }

  lemma SizeIsPower(order: nat)
    ensures Size(order) == Pow2(order)
  {
  }

  lemma OrderForSize(order: nat)
    requires MIN_ORDER <= order
    ensures OrderFor(Size(order)) == order
  {
    Log2IsCeiling(Size(order), order);
    Log2IsCeiling(Size(order), order - 1);
  }

  // ----- the table -----

  function Index(s: int): nat
  {
    if s == 0 then 0 else if s == 245 then 1 else if s == 417 then 2 else if s == 511 then 3
    else if s == 248 then 4 else if s == 75 then 5 else if s == 409 then 6 else 8
  }

  function Slotted(i: nat): Node<BlockInfo>
    requires i < 8
  {
    Full(KEYS[i], BlockInfo(ORDERS[i], false))
  }

  /** The table after the first `n` allocations, up to seven. */
  function TableAfter(n: nat): (t: Table<BlockInfo>)
    ensures |t| == 512
  {
    seq(512, s => if Index(s) < n && Index(s) < 7 then Slotted(Index(s)) else Open)
  }

  lemma SevenInserted(n: nat)
    requires n < 7
    ensures Inserted(SplitMix64, TableAfter(n), n, Slotted(n)) == TableAfter(n + 1)
  {
    hide SplitMix64, Home;
    Homes();
    assert Home(SplitMix64, KEYS[n], 512) == HOMES[n];
    assert Index(HOMES[n]) == n;
    PlaceOpen(SplitMix64, TableAfter(n), Slotted(n));
  }

  /** The eighth key shares the last slot as its home and pushes key 0 on. */
  lemma EighthInserted()
    ensures var t := Inserted(SplitMix64, TableAfter(7), 7, Slotted(7));
      |t| == 512 && t[511] == Slotted(3) && t[0] == Slotted(7) && t[1] == Slotted(0) && t[417] == Slotted(2)
  {
    hide SplitMix64, Home, TableAfter;
    Homes();
    var t := TableAfter(7);
    SlotsAfter7();
    var t1 := t[0 := Slotted(7)];
    assert Home(SplitMix64, KEYS[7], 512) == 511 && Home(SplitMix64, KEYS[3], 512) == 511 &&
      Home(SplitMix64, KEYS[0], 512) == 0;
    assert Carry(SplitMix64, t, Slotted(7), 511, 0, 512) == Carry(SplitMix64, t, Slotted(7), 0, 1, 511);
    assert Carry(SplitMix64, t, Slotted(7), 0, 1, 511) == Carry(SplitMix64, t1, Slotted(0), 1, 1, 510);
  }

  lemma SlotsAfter7()
    ensures var t := TableAfter(7); t[511] == Slotted(3) && t[0] == Slotted(0) && t[1].Open? && t[417] == Slotted(2)
  {
  }

  /** Removing the fourth key then moves key 0 out of the table. */
  lemma FourthTears(t: Table<()>)
    requires |t| == 512 && Unique(t) && t[511] == Full(KEYS[3], ()) && t[0] == Full(KEYS[7], ())
    requires t[1] == Full(KEYS[0], ())
    ensures Tears(SplitMix64, t, KEYS[3])
  {
    hide SplitMix64, Home, Where;
    Homes();
    IndexedFacts(t, Where(t));
    assert Home(SplitMix64, KEYS[7], 512) == 511 && Home(SplitMix64, KEYS[0], 512) == 0;
    var t' := t[511 := Open];
    assert Displaced(SplitMix64, t', 0) && Displaced(SplitMix64, t', 1);
  }

  // ----- the blocks -----

  ghost function BlocksAfter(n: nat): Blocks
    requires n <= 8
  {
    if n == 0 then map[] else BlocksAfter(n - 1)[Address(n - 1) := BlockInfo(ORDERS[n - 1], false)]
  }

  lemma SomeBlocks()
    ensures forall i :: 0 <= i < 8 ==>
      Address(i) in BlocksAfter(8) && BlocksAfter(8)[Address(i)] == BlockInfo(ORDERS[i], false)
    ensures forall a :: a in LiveOf(BlocksAfter(8), {}) <==> a in BlocksAfter(8)
  {
    BlocksUpTo(8);
  }

  lemma {:induction false} BlocksUpTo(n: nat)
    requires n <= 8
    ensures forall i :: 0 <= i < n ==>
      Address(i) in BlocksAfter(n) && BlocksAfter(n)[Address(i)] == BlockInfo(ORDERS[i], false)
    ensures forall a :: a in BlocksAfter(n) ==> !BlocksAfter(n)[a].free
  {
    if n > 0 {
      BlocksUpTo(n - 1);
      forall i | 0 <= i < n - 1 ensures Address(i) != Address(n - 1) { assert KEYS[i] < KEYS[n - 1]; }
    }
  }

  /** The third and fourth blocks are buddies. */
  lemma Buddies()
    ensures FlipBit(Address(2), 15) == Address(3) && FlipBit(Address(3), 15) == Address(2)
  {
    hide FlipBit, Aligned, Pow2;
    ThirdAligned();
    FlipAligned(Address(2), 15);
  }

  lemma ThirdAligned()
    ensures Pow2(15) == 0x8000 && Aligned(Address(2), 15) && Aligned(Address(2), 16)
  {
    hide Aligned, Pow2;
    Sizes(2);
    SizeIsPower(15);
    DoubleSize();
    AlignedIsMultiple(Address(2), 15);
    AlignedIsMultiple(Address(2), 16);
  }

  lemma DoubleSize()
    ensures Pow2(16) == 2 * Pow2(15)
  {
  }

  /** The books after the first `n` allocations. */
  ghost function BookAfter(n: nat): Book
    requires n <= 8
  {
    var t := if n < 8 then TableAfter(n) else Inserted(SplitMix64, TableAfter(7), 7, Slotted(7));
    Book(EndAfter(n), NoLists(MAX_ORDER), BlocksAfter(n), t, n)
  }

  /** With no free block and an aligned end, an allocation adds its block there. */
  lemma {:induction false} NothingToSplit(b: Book, order: nat)
    requires b.lists == NoLists(MAX_ORDER)
    ensures Split(START, b, order).0 == 0 && ListIn(b, order) == []
    decreases MAX_ORDER - order
  {
    hide Cut, NoLists;
    if order < MAX_ORDER { NothingToSplit(b, order + 1); }
  }

  lemma NewKey(n: nat)
    requires n < 8
    ensures Unique(BookAfter(n).nodes) && KEYS[n] !in Where(BookAfter(n).nodes)
  {
    hide Where, Home, SplitMix64, Inserted;
    var t := TableAfter(n);
    forall s | 0 <= s < 512 && t[s].Full? ensures Index(s) < n && t[s].key == KEYS[Index(s)] {}
    forall s, r | 0 <= s < r < 512 && t[s].Full? && t[r].Full? ensures t[s].key != t[r].key
    {
      KeysRise(Index(s), Index(r));
    }
    IndexedFacts(t, Where(t));
    if KEYS[n] in Where(t) {
      KeysRise(Index(Where(t)[KEYS[n]]), n);
    }
  }

  lemma KeysRise(i: nat, j: nat)
    requires i < 8 && j < 8 && i != j
    ensures KEYS[i] != KEYS[j]
  {
  }

  lemma AllocatedNext(n: nat)
    requires n < 8
    ensures Obtained(START, BookAfter(n), ORDERS[n]) == (Address(n), BookAfter(n + 1))
  {
    hide Where, Unique, Inserted, TableAfter, BlocksAfter, Aligned, RoundUp, Key, Size, Split, AddressOrder;
    var b := BookAfter(n);
    NothingToSplit(b, ORDERS[n]);
    Placed(n);
    Sizes(n);
    AddressOrderFacts(b.end, ORDERS[n]);
    FilledEnd(START, b, ORDERS[n]);
    NewKey(n);
    if n < 7 { SevenInserted(n); }
    BlocksNext(n);
    var info := BlockInfo(ORDERS[n], false);
    assert b.end == Address(n) && Slotted(n) == Full(KEYS[n], info);
    assert Entry(b.nodes, b.count, KEYS[n], info) == (BookAfter(n + 1).nodes, n + 1);
    EnteredIs(START, b, b.end, info, BookAfter(n + 1).(end := b.end));
    assert Grown(START, b, ORDERS[n]) == (b.end, Entered(START, b, b.end, info).(end := b.end + Size(ORDERS[n])));
  }

  lemma FitsNext(n: nat)
    requires n < 8
    ensures MIN_ORDER <= ORDERS[n] && Serves(BookAfter(n), 2 * START, ORDERS[n])
  {
    hide Aligned, RoundUp, Size, OrderFor, TableAfter, BlocksAfter, Inserted;
    Placed(n);
    Sizes(n);
  }

  method AllocateNext(h: HeapAllocator, n: nat)
    requires h.Valid() && h.start == START && h.maxSize == START && n < 8 && h.Books() == BookAfter(n)
    modifies h, h.table
    ensures h.Valid() && h.Books() == BookAfter(n + 1)
  {
    hide HeapAllocator.Valid, HeapAllocator.Fits, Size, OrderFor, RoundUp, Aligned, HasFree, SomeFree, Serves,
         BookAfter, LiveOf, Spares, Obtained;
    Placed(n);
    Sizes(n);
    FitsNext(n);
    h.ValidInv();
    h.FitsBooks(ORDERS[n]);
    AllocatedNext(n);
    var p := h.Allocate(SIZES[n]);
  }

  /** Freeing two buddies among the eight blocks tears the block map. */
  method FreeExample() returns (torn: bool)
    ensures torn
  {
    hide HeapAllocator.Valid, BookAfter, Aligned, LiveOf;
    StartAligned();
    var h := new HeapAllocator(START, START, seq(2 * START, _ => 0));
    Beginning();
    for n := 0 to 8
      invariant fresh(h) && fresh(h.table) && h.Valid() && h.start == START && h.maxSize == START
      invariant h.Books() == BookAfter(n)
    {
      AllocateNext(h, n);
    }
    torn := FreeTwo(h);
  }

  method FreeTwo(h: HeapAllocator) returns (torn: bool)
    requires h.Valid() && h.start == START && h.Books() == BookAfter(8)
    modifies h, h.table
    ensures torn
  {
    hide HeapAllocator.Valid, FreeTears, BookAfter, BlocksAfter, LiveOf, FlipBit, Spares, Freed, Address;
    h.ValidUnique();
    LiveFirst();
    FirstFree();
    torn := h.Free(Address(2));
    h.ValidUnique();
    TornNext(h.Books());
    torn := h.Free(Address(3));
  }

  lemma LiveFirst()
    ensures Address(2) in LiveOf(BookAfter(8).blocks, {}) && Address(2) != 0
  {
    hide BlocksAfter, TableAfter, Inserted;
    SomeBlocks();
  }

  /** The first of the two buddies has nothing to merge with. */
  lemma FirstFree()
    requires Unique(BookAfter(8).nodes)
    ensures !FreeTears(START, BookAfter(8), Address(2))
    ensures var b := Freed(START, BookAfter(8), Address(2));
      b.blocks == BlocksAfter(8)[Address(2) := BlockInfo(15, true)] && Skeleton(b.nodes) == Skeleton(BookAfter(8).nodes)
  {
    hide BlocksAfter, TableAfter, FlipBit, Skeleton, Entry, Inserted, Key;
    SomeBlocks();
    Buddies();
    Placed(2);
    ThirdKnown(BookAfter(8).nodes);
  }

  lemma ThirdKnown(t: Table<BlockInfo>)
    requires t == Inserted(SplitMix64, TableAfter(7), 7, Slotted(7)) && Unique(t)
    ensures Skeleton(Entry(t, 8, KEYS[2], BlockInfo(15, true)).0) == Skeleton(t)
  {
    hide Where, Inserted, TableAfter;
    EighthInserted();
    IndexedFacts(t, Where(t));
  }

  lemma TornNext(b: Book)
    requires Unique(BookAfter(8).nodes) && b == Freed(START, BookAfter(8), Address(2)) && Unique(b.nodes)
    ensures FreeTears(START, b, Address(3)) && Address(3) in LiveOf(b.blocks, {}) && Address(3) != 0
  {
    hide BlocksAfter, Inserted, TableAfter, FlipBit, Unique, Where, Tears, Removed, Key, LiveOf;
    FirstFree();
    LiveStill(BlocksAfter(8), b.blocks);
    Buddies();
    EighthInserted();
    SkeletonWhere(b.nodes);
    Placed(3);
    FourthTears(Skeleton(b.nodes));
    TearsFirst(START, b, Address(3), 15);
  }

  lemma LiveStill(bs: Blocks, bs': Blocks)
    requires bs == BlocksAfter(8) && bs' == bs[Address(2) := BlockInfo(15, true)]
    ensures Address(3) in bs' && bs'[Address(3)] == BlockInfo(15, false) && Address(3) in LiveOf(bs', {})
    ensures Address(2) in bs' && bs'[Address(2)] == BlockInfo(15, true)
  {
    hide BlocksAfter;
    SomeBlocks();
  }

  lemma Beginning()
    ensures BookAfter(0) == Book(START, NoLists(MAX_ORDER), map[], seq(512, _ => Open), 0)
  {
  }

  lemma BlocksNext(n: nat)
    requires n < 8
    ensures BlocksAfter(n + 1) == BlocksAfter(n)[Address(n) := BlockInfo(ORDERS[n], false)]
  {
  }

  lemma StartAligned()
    ensures Aligned(START, MAX_ORDER)
  {
    Pow2Values();
    AlignedIsMultiple(START, MAX_ORDER);
  }
}
