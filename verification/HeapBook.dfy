/** The heap's books: where it ends, its free lists, its blocks and the table of its block map, and
    what each operation makes of them. */
module HeapBook {
  import opened Bits
  import opened FreeList
  import opened Hash
  import opened HeapModel
  import opened NodeMap
  import opened NodeTable

  datatype Book = Book(end: nat, lists: map<nat, seq<nat>>, blocks: Blocks, nodes: Table<BlockInfo>, count: nat)

  /** An assignment through the map: in place, or after inserting the key. */
  ghost function Entry(t: Table<BlockInfo>, count: nat, key: nat, info: BlockInfo): (Table<BlockInfo>, nat)
  {
    if Unique(t) && key in Where(t) then (t[Where(t)[key] := Full(key, info)], count)
    else (Inserted(SplitMix64, t, count, Full(key, info)), count + 1)
  }

  ghost function KeyOf(start: nat, a: nat): nat
  {
    if start <= a then Key(start, a) else 0
  }

  /** The map learns of a block. */
  ghost function Entered(start: nat, b: Book, a: nat, info: BlockInfo): Book
  {
    var e := Entry(b.nodes, b.count, KeyOf(start, a), info);
    b.(blocks := b.blocks[a := info], nodes := e.0, count := e.1)
  }

  ghost function ListIn(b: Book, order: nat): seq<nat>
  {
    if order in b.lists then b.lists[order] else []
  }

  /** A free block becomes the first of its list. */
  ghost function Registered(start: nat, b: Book, a: nat, order: nat): Book
  {
    Entered(start, b, a, BlockInfo(order, true)).(lists := b.lists[order := [a] + ListIn(b, order)])
  }

  ghost function Popped(b: Book, order: nat): Book
    requires ListIn(b, order) != []
  {
    b.(lists := b.lists[order := ListIn(b, order)[1..]])
  }

  /** A detached block becomes its lower half, and its upper half is registered. */
  ghost function Cut(start: nat, b: Book, a: nat, order: nat): Book
  {
    Entered(start, Registered(start, b, a + Size(order), order), a, BlockInfo(order, true))
  }

  /** A block of the order, cut from the least larger free block; 0 when there is none. */
  ghost function Split(start: nat, b: Book, order: nat): (nat, Book)
    decreases MAX_ORDER - order
  {
    if order >= MAX_ORDER then (0, b)
    else if ListIn(b, order + 1) != [] then
      (ListIn(b, order + 1)[0], Cut(start, Popped(b, order + 1), ListIn(b, order + 1)[0], order))
    else
      var s := Split(start, b, order + 1);
      if s.0 == 0 then (0, b) else (s.0, Cut(start, s.1, s.0, order))
  }

  /** Free blocks up to the next multiple of the order. */
  ghost function Filled(start: nat, b: Book, order: nat): Book
    decreases if b.end > 0 && AddressOrder(b.end) < order then order - AddressOrder(b.end) else 0
  {
    if b.end == 0 || order > MAX_ORDER || AddressOrder(b.end) >= order then b
    else
      AddressOrderFacts(b.end, order);
      Filled(start, Filler(start, b, AddressOrder(b.end)), order)
  }

  /** One free block at the end of the heap. */
  ghost function Filler(start: nat, b: Book, order: nat): (r: Book)
    ensures r.end == b.end + Size(order)
  {
    Registered(start, b, b.end, order).(end := b.end + Size(order))
  }

  ghost function Grown(start: nat, b: Book, order: nat): (nat, Book)
  {
    var f := Filled(start, b, order);
    (f.end, Entered(start, f, f.end, BlockInfo(order, false)).(end := f.end + Size(order)))
  }

  /** Pop a block, else split one off, else grow. */
  ghost function Obtained(start: nat, b: Book, order: nat): (nat, Book)
  {
    var l, s := ListIn(b, order), Split(start, b, order);
    if l != [] then (l[0], Entered(start, Popped(b, order), l[0], BlockInfo(order, false)))
    else if s.0 != 0 then (s.0, Entered(start, s.1, s.0, BlockInfo(order, false)))
    else Grown(start, b, order)
  }

  ghost function Without(l: seq<nat>, a: nat): seq<nat>
  {
    if l == [] then [] else if l[0] == a then l[1..] else [l[0]] + Without(l[1..], a)
  }

  /** A block and its free buddy become one block of the next order. */
  ghost function MergedOnce(start: nat, b: Book, a: nat, order: nat): Book
    requires Mergeable(b.blocks, start, a, order)
  {
    var buddy := FlipBit(a, order);
    var keep, gone := Lower(a, buddy), Upper(a, buddy);
    var t := if Unique(b.nodes) then Removed(SplitMix64, b.nodes, Key(start, gone)) else b.nodes;
    var b1 := b.(lists := b.lists[order := Without(ListIn(b, order), buddy)], blocks := b.blocks - {gone},
                 nodes := t, count := if b.count > 0 then b.count - 1 else 0);
    Entered(start, b1, keep, BlockInfo(order + 1, b.blocks[keep].free))
  }

  ghost function MergedAll(start: nat, b: Book, a: nat, order: nat): (nat, Book)
    decreases MAX_ORDER - order
  {
    if !Mergeable(b.blocks, start, a, order) then (a, b)
    else MergedAll(start, MergedOnce(start, b, a, order), Lower(a, FlipBit(a, order)), order + 1)
  }

  /** Merge a block with its free buddies and put the result on its list. */
  ghost function Freed(start: nat, b: Book, p: nat): Book
  {
    if p !in b.blocks then b
    else
      var m := MergedAll(start, b, p, b.blocks[p].order);
      Registered(start, m.1, m.0, if m.0 in m.1.blocks then m.1.blocks[m.0].order else 0)
  }

  /** Freeing the block at `p` would move another entry out of the table of the block map. */
  ghost predicate FreeTears(start: nat, b: Book, p: nat)
  {
    p in b.blocks && TearsAny(SplitMix64, Skeleton(b.nodes), MergeKeys(b.blocks, start, p, b.blocks[p].order))
  }

  ghost predicate SomeFree(b: Book, order: nat)
  {
    exists o :: order <= o <= MAX_ORDER && ListIn(b, o) != []
  }

  /** A free block, or the room up to `limit`, serves a request of this order. */
  ghost predicate Serves(b: Book, limit: nat, order: nat)
  {
    SomeFree(b, order) || RoundUp(b.end, order) + Size(order) <= limit
  }

  lemma {:induction false} WithoutAt(l: seq<nat>, k: nat)
    requires k < |l| && l[k] !in l[..k]
    ensures Without(l, l[k]) == l[..k] + l[k + 1..]
  {
    if k == 0 {
      assert l[..0] + l[1..] == l[1..];
    } else {
      var r := l[1..];
      assert r[..k - 1] == l[1..k] && r[k..] == l[k + 1..];
      assert l[0] in l[..k] && r[k - 1] !in r[..k - 1];
      WithoutAt(r, k - 1);
      assert [l[0]] + l[1..k] == l[..k];
    }
  }

  // ----- how the parts of the books make up the whole -----

  lemma EntryIs(t: Table<BlockInfo>, count: nat, t': Table<BlockInfo>, slot: nat, key: nat, info: BlockInfo)
    requires Sound(SplitMix64, t, count) && slot < |t'| && t'[slot].Full? && t'[slot].key == key
    requires key in Contents(t) ==> t' == t
    requires key !in Contents(t) ==>
      t' == Inserted(SplitMix64, t, count, Full(key, info)) && t'[slot] == Full(key, info)
    ensures Entry(t, count, key, info) ==
      (t'[slot := Full(key, info)], if key in Contents(t) then count else count + 1)
  {
    hide Where, AllRobin, Inserted, Limit;
    ContentsKeys(t, Where(t));
    IndexedFacts(t, Where(t));
    assert key in Contents(t).Keys <==> key in Where(t).Keys;
    if key !in Contents(t) {
      assert t'[slot := Full(key, info)] == t';
    }
  }

  lemma RegisteredIs(start: nat, b: Book, a: nat, order: nat, b': Book)
    requires start <= a && order in b.lists
    requires (b'.nodes, b'.count) == Entry(b.nodes, b.count, Key(start, a), BlockInfo(order, true))
    requires b'.lists == b.lists[order := [a] + b.lists[order]] && b'.blocks == b.blocks[a := BlockInfo(order, true)]
    requires b'.end == b.end
    ensures b' == Registered(start, b, a, order)
  {
    hide Entry, Key;
  }

  lemma PoppedIs(b: Book, order: nat, b': Book)
    requires order in b.lists && b.lists[order] != []
    requires b' == b.(lists := b.lists[order := RemoveAt(b.lists[order], 0)])
    ensures ListIn(b, order) == b.lists[order] && b' == Popped(b, order)
  {
    assert RemoveAt(b.lists[order], 0) == b.lists[order][1..];
  }

  /** `e` is the table between the two entries. */
  lemma CutIs(start: nat, b: Book, a: nat, order: nat, e: (Table<BlockInfo>, nat), b': Book)
    requires start <= a && order in b.lists && a in b.blocks && b.blocks[a].free
    requires e == Entry(b.nodes, b.count, Key(start, a + Size(order)), BlockInfo(order, true))
    requires (b'.nodes, b'.count) == Entry(e.0, e.1, Key(start, a), BlockInfo(order, true))
    requires b'.lists == b.lists[order := [a + Size(order)] + b.lists[order]] && b'.end == b.end
    requires b'.blocks == Halved(b.blocks, a, order)
    ensures b' == Cut(start, b, a, order)
  {
    hide Entry, Key, Size;
  }

  /** `b1` is what the removal of the buddy from its list leaves. */
  lemma MergedOnceIs(start: nat, b: Book, a: nat, order: nat, b': Book)
    requires Mergeable(b.blocks, start, a, order) && order in b.lists && Unique(b.nodes) && b.count > 0
    requires var buddy := FlipBit(a, order);
      var keep, gone := Lower(a, buddy), Upper(a, buddy);
      && (b'.nodes, b'.count) == Entry(Removed(SplitMix64, b.nodes, Key(start, gone)), b.count - 1, Key(start, keep),
                                       BlockInfo(order + 1, b.blocks[keep].free))
      && b'.lists == b.lists[order := Without(b.lists[order], buddy)] && b'.end == b.end
      && b'.blocks == Merged(b.blocks, keep, gone, order + 1)
    ensures b' == MergedOnce(start, b, a, order)
  {
    hide Entry, Key, Removed, Without, FlipBit, Unique;
  }

  lemma WithoutNode(hs: Headers, heads: seq<nat>, lists: map<nat, seq<nat>>, order: nat, k: nat)
    requires ListsOk(hs, heads, lists) && order in lists && k < |lists[order]|
    ensures Without(lists[order], lists[order][k]) == RemoveAt(lists[order], k)
  {
    var l := lists[order];
    assert Linked(hs, l, order);
    WithoutAt(l, k);
  }

  lemma MergedAllStep(start: nat, b: Book, a: nat, order: nat)
    requires Mergeable(b.blocks, start, a, order)
    ensures MergedAll(start, b, a, order) ==
      MergedAll(start, MergedOnce(start, b, a, order), Lower(a, FlipBit(a, order)), order + 1)
  {
  }

  lemma FilledStep(start: nat, b: Book, order: nat)
    requires 0 < b.end && order <= MAX_ORDER && AddressOrder(b.end) < order
    ensures Filled(start, b, order) == Filled(start, Filler(start, b, AddressOrder(b.end)), order)
  {
  }

  lemma FilledEnd(start: nat, b: Book, order: nat)
    requires 0 < b.end && order <= MAX_ORDER && AddressOrder(b.end) >= order
    ensures Filled(start, b, order) == b
  {
  }

  lemma EnteredIs(start: nat, b: Book, a: nat, info: BlockInfo, b': Book)
    requires start <= a && (b'.nodes, b'.count) == Entry(b.nodes, b.count, Key(start, a), info)
    requires b'.lists == b.lists && b'.end == b.end && b'.blocks == b.blocks[a := info]
    ensures b' == Entered(start, b, a, info)
  {
    hide Entry, Key;
  }

  lemma TearsStep(start: nat, b: Book, block: nat, order: nat)
    requires Mergeable(b.blocks, start, block, order) && b.blocks[block].order == order && Unique(Skeleton(b.nodes))
    ensures var keep, gone := Lower(block, FlipBit(block, order)), Upper(block, FlipBit(block, order));
      FreeTears(start, b, block) <==>
        || Tears(SplitMix64, Skeleton(b.nodes), Key(start, gone))
        || TearsAny(SplitMix64, Removed(SplitMix64, Skeleton(b.nodes), Key(start, gone)),
                    MergeKeys(Merged(b.blocks, keep, gone, order + 1), start, keep, order + 1))
  {
    hide Tears, Removed, Skeleton, Key, FlipBit, Unique;
    var keep, gone := Lower(block, FlipBit(block, order)), Upper(block, FlipBit(block, order));
    var k, rest := Key(start, gone), MergeKeys(Merged(b.blocks, keep, gone, order + 1), start, keep, order + 1);
    assert MergeKeys(b.blocks, start, block, order) == [k] + rest;
    assert ([k] + rest)[1..] == rest;
  }

  lemma TearsFirst(start: nat, b: Book, block: nat, order: nat)
    requires Mergeable(b.blocks, start, block, order) && b.blocks[block].order == order && Unique(Skeleton(b.nodes))
    requires Tears(SplitMix64, Skeleton(b.nodes), Key(start, Upper(block, FlipBit(block, order))))
    ensures FreeTears(start, b, block)
  {
    hide Tears, Removed, Skeleton, Key, FlipBit, Unique, FreeTears, TearsAny;
    TearsStep(start, b, block, order);
  }
}
