/** The block structure of the kernel heap: which blocks exist, that they tile the heap,
and how splitting, merging and growing change them. */
module HeapModel {
  import opened Bits
  import opened Memory
  import opened FreeList

  const MIN_ORDER := 5

  datatype BlockInfo = BlockInfo(order: nat, free: bool)

  /** Blocks by start address. */
  type Blocks = map<nat, BlockInfo>

  function Size(order: nat): (r: nat)
    ensures r > 0
    ensures MIN_ORDER <= order ==> r >= 32
  {
    if MIN_ORDER <= order then Pow2Mono(5, order); Pow2(order) else Pow2(order)
  }

  ghost predicate GoodBlock(bs: Blocks, a: nat, start: nat, end: nat)
  {
    a in bs && start <= a && MIN_ORDER <= bs[a].order <= MAX_ORDER &&
    Aligned(a, bs[a].order) && a + Size(bs[a].order) <= end
  }

  /** The block after `a` starts exactly where `a` ends. */
  ghost predicate Followed(bs: Blocks, a: nat, end: nat)
  {
    a in bs && (a + Size(bs[a].order) == end || a + Size(bs[a].order) in bs)
  }

  ghost predicate Before(bs: Blocks, a: nat, b: nat)
  {
    a in bs && a + Size(bs[a].order) <= b
  }

  /** The blocks tile [start, end): aligned, in range, in sequence without gap or overlap. */
  ghost predicate Tiled(bs: Blocks, start: nat, end: nat)
  {
    && start <= end
    && (start < end ==> start in bs)
    && (forall a {:trigger GoodBlock(bs, a, start, end)} :: a in bs ==> GoodBlock(bs, a, start, end))
    && (forall a {:trigger Followed(bs, a, end)} :: a in bs ==> Followed(bs, a, end))
    && (forall a, b {:trigger Before(bs, a, b)} :: a in bs && b in bs && a < b ==> Before(bs, a, b))
  }

  lemma BlockGood(bs: Blocks, start: nat, end: nat, a: nat)
    requires Tiled(bs, start, end) && a in bs
    ensures GoodBlock(bs, a, start, end)
  {
  }

  /** Every address of the heap lies in a block (and by `Before`, in only one). */
  lemma {:induction false} TiledCovers(bs: Blocks, start: nat, end: nat, x: nat)
    requires Tiled(bs, start, end) && start <= x < end
    ensures exists a :: a in bs && a <= x < a + Size(bs[a].order)
  {
    var a := start;
    while !(a <= x < a + Size(bs[a].order))
      invariant a in bs && a <= x
      decreases end - a
    {
      assert Followed(bs, a, end);
      a := a + Size(bs[a].order);
    }
  }

  ghost function Merged(bs: Blocks, keep: nat, gone: nat, order: nat): (r: Blocks)
    requires keep in bs && keep != gone
  {
    (bs - {gone})[keep := BlockInfo(order, bs[keep].free)]
  }

  lemma SizeDoubles(order: nat)
    ensures Size(order + 1) == 2 * Size(order)
  {
  }

  lemma BlockFollowed(bs: Blocks, start: nat, end: nat, a: nat)
    requires Tiled(bs, start, end) && a in bs
    ensures Followed(bs, a, end)
  {
  }

  lemma BlockBefore(bs: Blocks, start: nat, end: nat, a: nat, b: nat)
    requires Tiled(bs, start, end) && a in bs && b in bs && a < b
    ensures Before(bs, a, b)
  {
  }

  /** Two buddies of one order, the lower one aligned for the next order. */
  ghost predicate Buddies(bs: Blocks, lo: nat, order: nat)
  {
    && order < MAX_ORDER && lo in bs && bs[lo].order == order && Aligned(lo, order + 1)
    && lo + Size(order) in bs && bs[lo + Size(order)].order == order
  }

  lemma MergeGood(bs: Blocks, start: nat, end: nat, lo: nat, order: nat, a: nat)
    requires Tiled(bs, start, end) && Buddies(bs, lo, order) && a in Merged(bs, lo, lo + Size(order), order + 1)
    ensures GoodBlock(Merged(bs, lo, lo + Size(order), order + 1), a, start, end)
  {
    hide Tiled, Size, Aligned;
    SizeDoubles(order);
    BlockGood(bs, start, end, a);
    BlockGood(bs, start, end, lo + Size(order));
  }

  lemma MergeFollowed(bs: Blocks, start: nat, end: nat, lo: nat, order: nat, a: nat)
    requires Tiled(bs, start, end) && Buddies(bs, lo, order) && a in Merged(bs, lo, lo + Size(order), order + 1)
    ensures Followed(Merged(bs, lo, lo + Size(order), order + 1), a, end)
  {
    hide Tiled, Size, Aligned;
    var hi := lo + Size(order);
    SizeDoubles(order);
    BlockFollowed(bs, start, end, hi);
    BlockFollowed(bs, start, end, a);
    if a < lo { BlockBefore(bs, start, end, a, lo); }
    if a > lo { BlockBefore(bs, start, end, lo, a); }
    if a > hi { BlockBefore(bs, start, end, hi, a); }
  }

  lemma MergeBefore(bs: Blocks, start: nat, end: nat, lo: nat, order: nat, a: nat, b: nat)
    requires Tiled(bs, start, end) && Buddies(bs, lo, order) && a < b
    requires a in Merged(bs, lo, lo + Size(order), order + 1) && b in Merged(bs, lo, lo + Size(order), order + 1)
    ensures Before(Merged(bs, lo, lo + Size(order), order + 1), a, b)
  {
    hide Tiled, Size, Aligned;
    var hi := lo + Size(order);
    SizeDoubles(order);
    BlockBefore(bs, start, end, a, b);
    if a == lo { BlockBefore(bs, start, end, hi, b); }
  }

  /** Replacing two buddies by one block of the next order keeps the tiling. */
  lemma MergeTiles(bs: Blocks, start: nat, end: nat, lo: nat, order: nat)
    requires Tiled(bs, start, end) && order < MAX_ORDER
    requires lo in bs && bs[lo].order == order && Aligned(lo, order + 1)
    requires lo + Size(order) in bs && bs[lo + Size(order)].order == order
    ensures Tiled(Merged(bs, lo, lo + Size(order), order + 1), start, end)
  {
    hide Size, Aligned, GoodBlock, Followed, Before;
    var hi := lo + Size(order);
    var r := Merged(bs, lo, hi, order + 1);
    assert Buddies(bs, lo, order);
    StartStays(bs, start, end, lo, hi);
    forall a | a in r ensures GoodBlock(r, a, start, end)
    {
      MergeGood(bs, start, end, lo, order, a);
    }
    forall a | a in r ensures Followed(r, a, end)
    {
      MergeFollowed(bs, start, end, lo, order, a);
    }
    forall a, b | a in r && b in r && a < b ensures Before(r, a, b)
    {
      MergeBefore(bs, start, end, lo, order, a, b);
    }
  }

  lemma StartStays(bs: Blocks, start: nat, end: nat, lo: nat, hi: nat)
    requires Tiled(bs, start, end) && lo in bs && lo < hi
    ensures start <= lo && start != hi
  {
    BlockGood(bs, start, end, lo);
  }

  ghost function Halved(bs: Blocks, a: nat, order: nat): (r: Blocks)
    requires a in bs
  {
    bs[a + Size(order) := BlockInfo(order, true)][a := BlockInfo(order, bs[a].free)]
  }

  lemma HalfAligned(x: nat, order: nat)
    requires Aligned(x, order + 1)
    ensures Aligned(x, order) && Aligned(x + Size(order), order)
  {
    HalfBuddy(x, order);
  }

  /** Splitting a block into two halves keeps the tiling. */
  lemma SplitTiles(bs: Blocks, start: nat, end: nat, x: nat, order: nat)
    requires Tiled(bs, start, end) && MIN_ORDER <= order
    requires x in bs && bs[x].order == order + 1
    ensures x + Size(order) !in bs
    ensures Tiled(Halved(bs, x, order), start, end)
  {
    hide Size;
    var hi := x + Size(order);
    var r := Halved(bs, x, order);
    SizeDoubles(order);
    assert GoodBlock(bs, x, start, end) && Followed(bs, x, end);
    assert hi in bs ==> Before(bs, x, hi);
    HalfAligned(x, order);
    forall a | a in r ensures GoodBlock(r, a, start, end)
    {
      assert a in bs ==> GoodBlock(bs, a, start, end);
    }
    forall a | a in r ensures Followed(r, a, end)
    {
      assert a in bs ==> Followed(bs, a, end);
    }
    SplitOrdered(bs, start, end, x, order);
  }

  lemma SplitOrdered(bs: Blocks, start: nat, end: nat, x: nat, order: nat)
    requires Tiled(bs, start, end) && x in bs && bs[x].order == order + 1 && x + Size(order) !in bs
    ensures forall a, b {:trigger Before(Halved(bs, x, order), a, b)} ::
      a in Halved(bs, x, order) && b in Halved(bs, x, order) && a < b ==> Before(Halved(bs, x, order), a, b)
  {
    var hi := x + Size(order);
    var r := Halved(bs, x, order);
    assert Size(order + 1) == 2 * Size(order);
    forall a, b | a in r && b in r && a < b ensures Before(r, a, b)
    {
      assert a in bs && a > x ==> Before(bs, x, a);
      if a in bs && b in bs { assert Before(bs, a, b); }
      else if a == hi { assert Before(bs, x, b); }
      else if a < x { assert Before(bs, a, x); }
    }
  }

  /** Adding an aligned block at the end keeps the tiling. */
  lemma ExtendTiles(bs: Blocks, start: nat, end: nat, info: BlockInfo)
    requires Tiled(bs, start, end) && MIN_ORDER <= info.order <= MAX_ORDER && Aligned(end, info.order)
    ensures end !in bs
    ensures Tiled(bs[end := info], start, end + Size(info.order))
  {
    var r := bs[end := info];
    var end' := end + Size(info.order);
    assert end in bs ==> GoodBlock(bs, end, start, end);
    forall a | a in r ensures GoodBlock(r, a, start, end')
    {
      assert a in bs ==> GoodBlock(bs, a, start, end);
    }
    forall a | a in r ensures Followed(r, a, end')
    {
      assert a in bs ==> Followed(bs, a, end);
    }
    forall a, b | a in r && b in r && a < b ensures Before(r, a, b)
    {
      assert b in bs ==> GoodBlock(bs, b, start, end);
      assert a in bs ==> GoodBlock(bs, a, start, end);
      if b in bs { assert Before(bs, a, b); }
    }
  }

  /** Marking a block free or used keeps the tiling. */
  lemma MarkTiles(bs: Blocks, start: nat, end: nat, x: nat, free: bool)
    requires Tiled(bs, start, end) && x in bs
    ensures Tiled(bs[x := bs[x].(free := free)], start, end)
  {
    var r := bs[x := bs[x].(free := free)];
    forall a | a in r
      ensures GoodBlock(r, a, start, end) && Followed(r, a, end)
    {
      assert GoodBlock(bs, a, start, end) && Followed(bs, a, end);
    }
    forall a, b | a in r && b in r && a < b
      ensures Before(r, a, b)
    {
      assert Before(bs, a, b);
    }
  }

  /** The live allocations: address to order.  `x` holds the blocks being worked on,
      which belong to neither the clients nor the free lists. */
  ghost function LiveOf(bs: Blocks, x: set<nat>): (r: map<nat, nat>)
  {
    map a | a in bs && !bs[a].free && a !in x :: bs[a].order
  }

  /** The blocks whose memory the allocator may write to. */
  ghost function IdleOf(bs: Blocks, x: set<nat>): (r: set<nat>)
  {
    set a | a in bs && (bs[a].free || a in x)
  }

  lemma DetachIdle(bs: Blocks, x: set<nat>, a: nat)
    requires a in bs && bs[a].free
    ensures IdleOf(bs, x + {a}) == IdleOf(bs, x)
    ensures LiveOf(bs, x + {a}) == LiveOf(bs, x)
  {
  }

  lemma IdleDetached(bs: Blocks, x: set<nat>, a: nat)
    requires a in bs && a in x
    ensures a in IdleOf(bs, x)
  {
  }

  lemma UnknownNotLive(bs: Blocks, x: set<nat>, a: nat)
    requires a !in bs
    ensures a !in LiveOf(bs, x)
  {
  }

  /** Some live allocation contains byte `i`. */
  ghost predicate InLive(i: nat, live: map<nat, nat>)
  {
    exists a :: a in live && a <= i < a + Size(live[a])
  }

  /** `m'` differs from `m` only inside [lo, hi) and outside every live allocation. */
  ghost predicate Spares(m: seq<byte>, m': seq<byte>, live: map<nat, nat>, lo: nat, hi: nat)
  {
    |m| == |m'| && forall i :: 0 <= i < |m| && m[i] != m'[i] ==> lo <= i < hi && !InLive(i, live)
  }

  /** Allocation `p` has moved to `r`, its first `k` bytes with it, and no other has changed. */
  ghost predicate MovedTo(live: map<nat, nat>, m: seq<byte>, p: nat, k: nat, r: nat, n: nat, live': map<nat, nat>,
                          m': seq<byte>, lo: nat, hi: nat)
  {
    && n <= Size(OrderFor(n)) && live' == (live - {p})[r := OrderFor(n)] && Spares(m, m', live - {p}, lo, hi)
    && r + k <= |m'| == |m| && p + k <= |m| && m'[r..r + k] == m[p..p + k]
  }

  /** Writes confined to idle headers spare the live allocations. */
  lemma HeadersSpare(m: seq<byte>, m': seq<byte>, s: set<nat>, bs: Blocks, x: set<nat>, start: nat, end: nat)
    requires Tiled(bs, start, end) && OnlyHeaders(m, m', s) && s <= IdleOf(bs, x)
    ensures Spares(m, m', LiveOf(bs, x), start, end)
  {
    var live := LiveOf(bs, x);
    forall i | 0 <= i < |m| && m[i] != m'[i]
      ensures start <= i < end && !InLive(i, live)
    {
      assert InHeader(i, s);
      var a :| a in s && a <= i < a + HEADER_BYTES;
      assert GoodBlock(bs, a, start, end);
      forall b | b in live
        ensures !(b <= i < b + Size(live[b]))
      {
        assert b in bs && b != a;
        if a < b { assert Before(bs, a, b); } else { assert Before(bs, b, a); }
      }
    }
  }

  /** Distinct idle blocks have disjoint headers. */
  lemma BlocksApart(bs: Blocks, start: nat, end: nat, a: nat, b: nat)
    requires Tiled(bs, start, end) && a in bs && b in bs && a != b
    ensures Apart(a, b)
  {
    assert GoodBlock(bs, a, start, end) && GoodBlock(bs, b, start, end);
    if a < b { assert Before(bs, a, b); } else { assert Before(bs, b, a); }
  }

  /** Free-list membership is exactly the block map's free flag, except for the blocks `x`. */
  ghost predicate Members(lists: map<nat, seq<nat>>, bs: Blocks, x: set<nat>)
  {
    forall order, a :: order in lists ==>
      (a in lists[order] <==> a !in x && a in bs && bs[a] == BlockInfo(order, true))
  }

  ghost predicate ListsOk(hs: Headers, heads: seq<nat>, lists: map<nat, seq<nat>>)
  {
    && |heads| == MAX_ORDER - MIN_ORDER + 1
    && (forall order :: order in lists <==> MIN_ORDER <= order <= MAX_ORDER)
    && (forall order :: order in lists ==>
          heads[order - MIN_ORDER] == Head(lists[order]) && Linked(hs, lists[order], order))
  }

  ghost function NoLists(order: nat): (r: map<nat, seq<nat>>)
    ensures forall o :: o in r <==> MIN_ORDER <= o <= order
    ensures forall o :: o in r ==> r[o] == []
  {
    if order < MIN_ORDER then map[] else NoLists(order - 1)[order := []]
  }

  lemma ListsDomain(hs: Headers, heads: seq<nat>, lists: map<nat, seq<nat>>)
    requires ListsOk(hs, heads, lists)
    ensures forall o :: o in lists <==> MIN_ORDER <= o <= MAX_ORDER
  {
  }

  /** Reading the head of a free list: null exactly when the list is empty, else a node
      without predecessor. */
  lemma HeadOfList(m: seq<byte>, hs: Headers, heads: seq<nat>, lists: map<nat, seq<nat>>, order: nat)
    requires Stored(m, hs) && ListsOk(hs, heads, lists) && MIN_ORDER <= order <= MAX_ORDER
    ensures |heads| == MAX_ORDER - MIN_ORDER + 1 && order in lists
    ensures heads[order - MIN_ORDER] == 0 <==> lists[order] == []
    ensures lists[order] != [] ==>
      var a := lists[order][0];
      && a == heads[order - MIN_ORDER] && a in hs && a + HEADER_BYTES <= |m|
      && HeaderAt(m, a) == hs[a] && hs[a].prev == 0 && hs[a].next == Head(lists[order][1..])
      && (hs[a].next != 0 ==> hs[a].next in hs)
  {
    var l := lists[order];
    if l != [] {
      assert LinkedAt(hs, l, 0, order);
      assert |l| > 1 ==> LinkedAt(hs, l, 1, order);
    }
  }

  lemma PushKeepsLists(hs: Headers, heads: seq<nat>, lists: map<nat, seq<nat>>, order: nat, a: nat)
    requires ListsOk(hs, heads, lists) && order in lists && 0 < a && a in hs
    requires Unlisted(lists, a)
    ensures heads[order - MIN_ORDER] != 0 ==> heads[order - MIN_ORDER] in hs
    ensures ListsOk(PushFront(hs, heads[order - MIN_ORDER], a, order),
                    heads[order - MIN_ORDER := a], lists[order := [a] + lists[order]])
    ensures forall b :: b in hs && b != a && Unlisted(lists, b) ==>
      PushFront(hs, heads[order - MIN_ORDER], a, order)[b] == hs[b]
  {
    var l := lists[order];
    PushKeepsList(hs, l, a, order);
    var hs' := PushFront(hs, Head(l), a, order);
    forall o | o in lists && o != order ensures Linked(hs', lists[o], o)
    {
      ListsDisjoint(hs, l, order, lists[o], o);
      LinkedFrame(hs, hs', lists[o], o);
    }
  }

  /** A node carries its list's order, so lists of different orders share no node. */
  lemma ListsDisjoint(hs: Headers, l: seq<nat>, order: nat, l': seq<nat>, order': nat)
    requires Linked(hs, l, order) && Linked(hs, l', order') && order != order'
    ensures forall a :: a in l ==> a in hs
    ensures forall a :: a in l' ==> a in hs && a !in l
  {
    forall a | a in l ensures a in hs && hs[a].order == order
    {
      var i :| 0 <= i < |l| && l[i] == a;
      assert LinkedAt(hs, l, i, order);
    }
    forall a | a in l' ensures a in hs && hs[a].order == order'
    {
      var i :| 0 <= i < |l'| && l'[i] == a;
      assert LinkedAt(hs, l', i, order');
    }
  }

  lemma UnlinkKeepsLists(hs: Headers, heads: seq<nat>, lists: map<nat, seq<nat>>, order: nat, k: nat)
    requires ListsOk(hs, heads, lists) && order in lists && k < |lists[order]|
    ensures LinkedNear(hs, lists[order], k, order)
    ensures forall i, j :: 0 <= i < j < |lists[order]| ==> lists[order][i] != lists[order][j]
    ensures ListsOk(Unlink(hs, lists[order][k]),
                    heads[order - MIN_ORDER := Head(RemoveAt(lists[order], k))],
                    lists[order := RemoveAt(lists[order], k)])
    ensures Unlink(hs, lists[order][k])[lists[order][k]] == Header(0, 0, order)
    ensures forall b :: b in hs && b !in lists[order] ==> Unlink(hs, lists[order][k])[b] == hs[b]
  {
    var l := lists[order];
    UnlinkKeepsList(hs, l, k, order);
    UnlinkElsewhere(hs, l, k, order);
    var hs' := Unlink(hs, l[k]);
    forall o | o in lists && o != order ensures Linked(hs', lists[o], o)
    {
      ListsDisjoint(hs, l, order, lists[o], o);
      LinkedFrame(hs, hs', lists[o], o);
    }
  }

  ghost predicate Unlisted(lists: map<nat, seq<nat>>, a: nat)
  {
    forall o :: o in lists ==> a !in lists[o]
  }

  lemma DetachedUnlisted(lists: map<nat, seq<nat>>, bs: Blocks, x: set<nat>, a: nat)
    requires Members(lists, bs, x) && (a in x || a !in bs)
    ensures Unlisted(lists, a)
  {
  }

  /** Headers outside the lists can change, appear or vanish freely. */
  lemma ListsFrame(hs: Headers, heads: seq<nat>, lists: map<nat, seq<nat>>, a: nat, h: Header)
    requires ListsOk(hs, heads, lists) && Unlisted(lists, a)
    ensures ListsOk(hs[a := h], heads, lists)
    ensures ListsOk(hs - {a}, heads, lists)
  {
    forall o | o in lists
      ensures Linked(hs[a := h], lists[o], o) && Linked(hs - {a}, lists[o], o)
    {
      forall b | b in lists[o] ensures b in hs && b != a
      {
        var i :| 0 <= i < |lists[o]| && lists[o][i] == b;
        assert LinkedAt(hs, lists[o], i, o);
      }
      LinkedFrame(hs, hs[a := h], lists[o], o);
      LinkedFrame(hs, hs - {a}, lists[o], o);
    }
  }

  lemma MembersRemove(lists: map<nat, seq<nat>>, bs: Blocks, x: set<nat>, order: nat, k: nat)
    requires Members(lists, bs, x) && order in lists && k < |lists[order]|
    requires forall i, j :: 0 <= i < j < |lists[order]| ==> lists[order][i] != lists[order][j]
    ensures lists[order][k] in bs && bs[lists[order][k]] == BlockInfo(order, true) && lists[order][k] !in x
    ensures forall a :: a in x ==> a !in lists[order]
    ensures Members(lists[order := RemoveAt(lists[order], k)], bs, x + {lists[order][k]})
  {
    var l := lists[order];
    var r := RemoveAt(l, k);
    assert l[k] in l;
    forall a ensures a in r <==> a in l && a != l[k]
    {
      if a in l && a != l[k] {
        var i :| 0 <= i < |l| && l[i] == a;
        assert r[if i < k then i else i - 1] == a;
      }
    }
  }

  /** Taking node `k` out of a free list, seen by lists, map and headers at once. */
  lemma Detach(hs: Headers, heads: seq<nat>, lists: map<nat, seq<nat>>, bs: Blocks, x: set<nat>, order: nat, k: nat,
               a: nat)
    requires ListsOk(hs, heads, lists) && Members(lists, bs, x)
    requires order in lists && k < |lists[order]| && a == lists[order][k]
    ensures LinkedNear(hs, lists[order], k, order)
    ensures ListsOk(Unlink(hs, a), heads[order - MIN_ORDER := Head(RemoveAt(lists[order], k))],
                    lists[order := RemoveAt(lists[order], k)])
    ensures Members(lists[order := RemoveAt(lists[order], k)], bs, x + {a})
    ensures a in bs && bs[a] == BlockInfo(order, true) && a !in x
    ensures IdleOf(bs, x + {a}) == IdleOf(bs, x)
    ensures Unlink(hs, a)[a].order == order
    ensures forall b :: b in x && b in hs ==> Unlink(hs, a)[b] == hs[b]
  {
    UnlinkKeepsLists(hs, heads, lists, order, k);
    MembersRemove(lists, bs, x, order, k);
    DetachIdle(bs, x, a);
  }

  /** A block marked free is a node of its list. */
  lemma FindNode(hs: Headers, heads: seq<nat>, lists: map<nat, seq<nat>>, bs: Blocks, x: set<nat>, order: nat, a: nat)
    returns (k: nat)
    requires ListsOk(hs, heads, lists) && Members(lists, bs, x)
    requires order in lists && a in bs && bs[a] == BlockInfo(order, true) && a !in x
    ensures k < |lists[order]| && lists[order][k] == a
    ensures heads[order - MIN_ORDER] == lists[order][0]
  {
    assert a in lists[order];
    k :| 0 <= k < |lists[order]| && lists[order][k] == a;
  }

  lemma HeadKept(heads: seq<nat>, l: seq<nat>, k: nat, order: nat)
    requires 0 < k < |l| && MIN_ORDER <= order && order - MIN_ORDER < |heads| && heads[order - MIN_ORDER] == l[0]
    ensures heads[order - MIN_ORDER := Head(RemoveAt(l, k))] == heads
  {
  }

  lemma MembersPush(lists: map<nat, seq<nat>>, bs: Blocks, x: set<nat>, order: nat, a: nat)
    requires Members(lists, bs, x) && order in lists
    requires a in x && a in bs && bs[a] == BlockInfo(order, true)
    ensures Members(lists[order := [a] + lists[order]], bs, x - {a})
  {
  }

  /** map_key: the offset in minimum blocks, truncated to 32 bits. */
  function Key(start: nat, a: nat): (r: nat)
    requires start <= a
  {
    ((a - start) / 32) % 0x1_0000_0000
  }

  ghost predicate KeyHolds(bm: map<nat, BlockInfo>, bs: Blocks, start: nat, a: nat)
  {
    a in bs && start <= a && Key(start, a) in bm && bm[Key(start, a)] == bs[a]
  }

  ghost predicate KeyBacked(bs: Blocks, start: nat, k: nat)
  {
    start + 32 * k in bs
  }

  /** The in-place map holds exactly the blocks, under their 32-bit keys. */
  ghost predicate MapAgrees(bm: map<nat, BlockInfo>, bs: Blocks, start: nat)
  {
    && (forall a {:trigger KeyHolds(bm, bs, start, a)} :: a in bs ==> KeyHolds(bm, bs, start, a))
    && (forall k {:trigger KeyBacked(bs, start, k)} :: k in bm ==> KeyBacked(bs, start, k))
  }

  /** Addresses that have a key of their own. */
  ghost predicate Keyed(start: nat, a: nat)
  {
    start <= a && (a - start) % 32 == 0 && a - start < 0x20_0000_0000
  }

  lemma KeyInverse(start: nat, a: nat)
    requires Keyed(start, a)
    ensures start + 32 * Key(start, a) == a
  {
  }

  /** Within the key range the key finds a block exactly when it exists. */
  lemma KeyFinds(bm: map<nat, BlockInfo>, bs: Blocks, start: nat, a: nat)
    requires MapAgrees(bm, bs, start) && Keyed(start, a)
    ensures Key(start, a) in bm <==> a in bs
    ensures a in bs ==> bm[Key(start, a)] == bs[a]
  {
    KeyInverse(start, a);
    if a in bs { assert KeyHolds(bm, bs, start, a); }
    if Key(start, a) in bm { assert KeyBacked(bs, start, Key(start, a)); }
  }

  lemma KeyUpdate(bm: map<nat, BlockInfo>, bs: Blocks, start: nat, a: nat, info: BlockInfo)
    requires MapAgrees(bm, bs, start) && Keyed(start, a) && forall b :: b in bs ==> Keyed(start, b)
    ensures MapAgrees(bm[Key(start, a) := info], bs[a := info], start)
  {
    KeyInverse(start, a);
    var bm', bs' := bm[Key(start, a) := info], bs[a := info];
    forall b | b in bs' ensures KeyHolds(bm', bs', start, b)
    {
      if b != a {
        assert KeyHolds(bm, bs, start, b);
        KeyInverse(start, b);
      }
    }
    forall k | k in bm' ensures KeyBacked(bs', start, k)
    {
      assert k in bm ==> KeyBacked(bs, start, k);
    }
  }

  lemma KeyErase(bm: map<nat, BlockInfo>, bs: Blocks, start: nat, a: nat)
    requires MapAgrees(bm, bs, start) && Keyed(start, a) && forall b :: b in bs ==> Keyed(start, b)
    ensures MapAgrees(bm - {Key(start, a)}, bs - {a}, start)
  {
    KeyInverse(start, a);
    var bm', bs' := bm - {Key(start, a)}, bs - {a};
    forall b | b in bs' ensures KeyHolds(bm', bs', start, b)
    {
      assert KeyHolds(bm, bs, start, b);
      KeyInverse(start, b);
    }
    forall k | k in bm' ensures KeyBacked(bs', start, k)
    {
      assert KeyBacked(bs, start, k);
    }
  }

  /** With the heap start aligned to the largest block, every block address below the
      key limit has its own key. */
  lemma MultipleOf32(x: nat)
    requires Aligned(x, MIN_ORDER)
    ensures x % 32 == 0
  {
    hide Aligned;
    var n := SmallestOrder();
    AlignedIsMultiple(x, n);
  }

  lemma SmallestOrder() returns (n: nat)
    ensures n == MIN_ORDER && Pow2(n) == 32
  {
    n := MIN_ORDER;
    Pow2Values();
  }

  lemma AlignedKeyed(start: nat, a: nat, order: nat)
    requires Aligned(start, MAX_ORDER) && Aligned(a, order) && MIN_ORDER <= order
    requires start <= a < start + 0x20_0000_0000
    ensures Keyed(start, a)
  {
    hide Pow2, Aligned;
    AlignedWeaken(start, MIN_ORDER, MAX_ORDER);
    AlignedWeaken(a, MIN_ORDER, order);
    MultipleOf32(start);
    MultipleOf32(a);
  }

  /** The buddy of a block never lies below the heap start. */
  lemma BuddyInHeap(start: nat, a: nat, order: nat)
    requires Aligned(start, MAX_ORDER) && Aligned(a, order) && order < MAX_ORDER && start <= a
    ensures start <= FlipBit(a, order) < a + 0x40_0000
    ensures Aligned(FlipBit(a, order), order)
  {
    FlipAligned(a, order);
    Pow2Mono(order + 1, MAX_ORDER);
    Pow2Values();
    if !Aligned(a, order + 1) {
      AlignedWeaken(start, order, MAX_ORDER);
      AlignedWeaken(start, order + 1, MAX_ORDER);
      AlignedGap(start, a, order);
    }
  }

  /** Splitting a detached free block: the upper half becomes a new detached block. */
  lemma SplitFacts(bs: Blocks, start: nat, end: nat, lists: map<nat, seq<nat>>, a: nat, order: nat, buddy: nat)
    requires Tiled(bs, start, end) && Members(lists, bs, {a}) && MIN_ORDER <= order
    requires a in bs && bs[a] == BlockInfo(order + 1, true) && buddy == FlipBit(a, order)
    ensures buddy == a + Size(order) && buddy !in bs && start <= buddy && buddy + HEADER_BYTES <= end
    ensures Aligned(buddy, order) && Aligned(a, order)
    ensures Tiled(Halved(bs, a, order), start, end)
    ensures Members(lists, Halved(bs, a, order), {a, buddy})
    ensures IdleOf(bs, {a}) + {buddy} == IdleOf(Halved(bs, a, order), {a})
    ensures LiveOf(Halved(bs, a, order), {a}) == LiveOf(bs, {a})
    ensures forall b :: b in IdleOf(bs, {a}) ==> Apart(buddy, b)
  {
    hide Tiled, Aligned, Size, FlipBit;
    UpperHalf(bs, start, end, a, order);
    SplitTiles(bs, start, end, a, order);
    forall b | b in bs ensures Apart(buddy, b)
    {
      BlocksApart(Halved(bs, a, order), start, end, buddy, b);
    }
  }

  lemma UpperHalf(bs: Blocks, start: nat, end: nat, a: nat, order: nat)
    requires Tiled(bs, start, end) && MIN_ORDER <= order && a in bs && bs[a].order == order + 1
    ensures FlipBit(a, order) == a + Size(order) && start <= a && a + Size(order) + HEADER_BYTES <= end
    ensures Aligned(a + Size(order), order) && Aligned(a, order) && Size(order) > 0
  {
    assert GoodBlock(bs, a, start, end);
    HalfBuddy(a, order);
    assert Size(order + 1) == 2 * Size(order);
  }

  lemma BuddyFacts(a: nat, order: nat, buddy: nat)
    requires Aligned(a, order) && buddy == FlipBit(a, order)
    ensures FlipBit(buddy, order) == a && Aligned(buddy, order)
    ensures a < buddy ==> buddy == a + Size(order) && Aligned(a, order + 1)
    ensures a >= buddy ==> a == buddy + Size(order) && Aligned(buddy, order + 1)
    ensures Size(order + 1) == 2 * Size(order)
  {
    FlipAligned(a, order);
  }

  /** Merging two detached buddies into one detached block. */
  lemma MergeFacts(bs: Blocks, start: nat, end: nat, lists: map<nat, seq<nat>>, lo: nat, hi: nat, order: nat)
    requires Tiled(bs, start, end) && Members(lists, bs, {lo, hi}) && order < MAX_ORDER
    requires lo in bs && hi in bs && bs[lo].order == order && bs[hi].order == order
    requires hi == lo + Size(order) && Aligned(lo, order + 1)
    ensures Tiled(Merged(bs, lo, hi, order + 1), start, end)
    ensures Members(lists, Merged(bs, lo, hi, order + 1), {lo})
    ensures IdleOf(bs, {lo, hi}) - {hi} == IdleOf(Merged(bs, lo, hi, order + 1), {lo})
    ensures LiveOf(Merged(bs, lo, hi, order + 1), {lo}) == LiveOf(bs, {lo, hi})
  {
    MergeTiles(bs, start, end, lo, order);
  }

  /** Growing the heap by one block. */
  lemma ExtendFacts(bs: Blocks, start: nat, end: nat, lists: map<nat, seq<nat>>, info: BlockInfo)
    requires Tiled(bs, start, end) && Members(lists, bs, {})
    requires MIN_ORDER <= info.order <= MAX_ORDER && Aligned(end, info.order)
    ensures end !in bs
    ensures Tiled(bs[end := info], start, end + Size(info.order))
    ensures info.free ==>
      Members(lists, bs[end := info], {end}) && IdleOf(bs[end := info], {}) == IdleOf(bs, {}) + {end}
    ensures info.free ==> LiveOf(bs[end := info], {}) == LiveOf(bs, {})
    ensures !info.free ==> Members(lists, bs[end := info], {}) && IdleOf(bs[end := info], {}) == IdleOf(bs, {})
    ensures !info.free ==> LiveOf(bs[end := info], {}) == LiveOf(bs, {})[end := info.order]
    ensures forall b :: b in IdleOf(bs, {}) ==> Apart(end, b)
  {
    hide Tiled, Aligned, Size;
    ExtendTiles(bs, start, end, info);
    forall b | b in IdleOf(bs, {}) ensures Apart(end, b)
    {
      BlocksApart(bs[end := info], start, end + Size(info.order), end, b);
    }
  }

  /** The heap end is aligned to the minimum block. */
  lemma EndAligned(bs: Blocks, start: nat, end: nat)
    requires Tiled(bs, start, end) && Aligned(start, MAX_ORDER)
    ensures Aligned(end, MIN_ORDER)
  {
    if start == end {
      AlignedWeaken(start, MIN_ORDER, MAX_ORDER);
    } else {
      TiledCovers(bs, start, end, end - 1);
      var a :| a in bs && a <= end - 1 < a + Size(bs[a].order);
      assert GoodBlock(bs, a, start, end);
      AlignedStep(a, bs[a].order);
      AlignedWeaken(end, MIN_ORDER, bs[a].order);
    }
  }

  /** A live block given back by its client becomes a detached block. */
  lemma ReclaimFacts(bs: Blocks, start: nat, end: nat, lists: map<nat, seq<nat>>, a: nat)
    requires Tiled(bs, start, end) && Members(lists, bs, {}) && a in LiveOf(bs, {})
    ensures a in bs && !bs[a].free && bs[a].order == LiveOf(bs, {})[a]
    ensures Members(lists, bs, {a})
    ensures IdleOf(bs, {a}) == IdleOf(bs, {}) + {a}
    ensures LiveOf(bs, {a}) == LiveOf(bs, {}) - {a}
    ensures forall b :: b in IdleOf(bs, {}) ==> Apart(a, b)
    ensures GoodBlock(bs, a, start, end)
  {
    hide Tiled;
    BlockGood(bs, start, end, a);
    forall b | b in IdleOf(bs, {}) ensures Apart(a, b)
    {
      BlocksApart(bs, start, end, a, b);
    }
  }

  /** `m'` differs from `m` only inside the range [a, a + n). */
  ghost predicate OnlyRange(m: seq<byte>, m': seq<byte>, a: nat, n: nat)
  {
    |m| == |m'| && forall i :: 0 <= i < |m| && !(a <= i < a + n) ==> m'[i] == m[i]
  }

  /** A client writing inside its own block disturbs no header and no other live block. */
  lemma ClientWrite(m: seq<byte>, m': seq<byte>, hs: Headers, bs: Blocks, start: nat, end: nat, p: nat, a: nat, n: nat)
    requires Tiled(bs, start, end) && Stored(m, hs) && hs.Keys == IdleOf(bs, {})
    requires p in LiveOf(bs, {}) && p <= a && a + n <= p + Size(LiveOf(bs, {})[p]) && OnlyRange(m, m', a, n)
    ensures Stored(m', hs)
    ensures Spares(m, m', LiveOf(bs, {}) - {p}, start, end)
  {
    hide Tiled, Size, InLive, HeaderAt;
    BlockGood(bs, start, end, p);
    forall b | b in hs ensures HeaderAt(m', b) == HeaderAt(m, b)
    {
      Disjoint(bs, start, end, p, b);
      BlockGood(bs, start, end, b);
      HeaderKept(m, m', b);
    }
    forall i | 0 <= i < |m| && m[i] != m'[i] ensures start <= i < end && !InLive(i, LiveOf(bs, {}) - {p})
    {
      NotElsewhere(bs, start, end, p, i);
    }
  }

  lemma HeaderKept(m: seq<byte>, m': seq<byte>, b: nat)
    requires |m| == |m'| && b + HEADER_BYTES <= |m|
    requires forall i :: b <= i < b + HEADER_BYTES ==> m'[i] == m[i]
    ensures HeaderAt(m', b) == HeaderAt(m, b)
  {
    ReadFrame(m, m', b, 8);
    ReadFrame(m, m', b + 8, 8);
    ReadFrame(m, m', b + 16, 4);
  }

  lemma Disjoint(bs: Blocks, start: nat, end: nat, a: nat, b: nat)
    requires Tiled(bs, start, end) && a in bs && b in bs && a != b
    ensures a + Size(bs[a].order) <= b || b + Size(bs[b].order) <= a
  {
    if a < b { assert Before(bs, a, b); } else { assert Before(bs, b, a); }
  }

  lemma NotElsewhere(bs: Blocks, start: nat, end: nat, p: nat, i: nat)
    requires Tiled(bs, start, end) && p in LiveOf(bs, {}) && p <= i < p + Size(bs[p].order)
    ensures !InLive(i, LiveOf(bs, {}) - {p})
  {
    hide Tiled, Size;
    var live := LiveOf(bs, {}) - {p};
    forall b | b in live ensures !(b <= i < b + Size(live[b]))
    {
      Disjoint(bs, start, end, p, b);
    }
  }

  /** memcpy between disjoint ranges. */
  function Copy(m: seq<byte>, to: nat, from: nat, n: nat): (r: seq<byte>)
    requires to + n <= |m| && from + n <= |m|
    ensures OnlyRange(m, r, to, n)
    ensures r[to..to + n] == m[from..from + n]
  {
    m[..to] + m[from..from + n] + m[to + n..]
  }

  /** Bytes of a spared live block are unchanged. */
  lemma SparedBytes(m: seq<byte>, m': seq<byte>, live: map<nat, nat>, lo: nat, hi: nat, p: nat, n: nat)
    requires Spares(m, m', live, lo, hi) && p in live && n <= Size(live[p]) && p + n <= |m|
    ensures m'[p..p + n] == m[p..p + n]
  {
    forall i | p <= i < p + n ensures m'[i] == m[i]
    {
      assert InLive(i, live);
    }
  }

  /** No free buddy of the same order is left to merge with. */
  ghost predicate Irreducible(bs: Blocks, a: nat)
  {
    a in bs && (bs[a].order == MAX_ORDER ||
      (var buddy := FlipBit(a, bs[a].order); !(buddy in bs && bs[buddy] == BlockInfo(bs[a].order, true))))
  }

  function Lower(a: nat, b: nat): nat { if a < b then a else b }

  function Upper(a: nat, b: nat): nat { if a < b then b else a }

  /** The buddy of a block is free and of the same order. */
  ghost predicate Mergeable(bs: Blocks, start: nat, a: nat, order: nat)
  {
    var buddy := FlipBit(a, order);
    && order < MAX_ORDER && a in bs && start <= a && start <= buddy != a
    && buddy in bs && bs[buddy] == BlockInfo(order, true)
  }

  /** The map keys erased while a block that is being freed merges with its free buddies. */
  ghost function MergeKeys(bs: Blocks, start: nat, a: nat, order: nat): seq<nat>
    decreases MAX_ORDER - order
  {
    if !Mergeable(bs, start, a, order) then []
    else
      var keep, gone := Lower(a, FlipBit(a, order)), Upper(a, FlipBit(a, order));
      [Key(start, gone)] + MergeKeys(Merged(bs, keep, gone, order + 1), start, keep, order + 1)
  }

  /** A detached block returns to the free lists. */
  lemma ReleaseFacts(bs: Blocks, start: nat, end: nat, lists: map<nat, seq<nat>>, a: nat)
    requires Tiled(bs, start, end) && Members(lists, bs, {a}) && a in bs
    ensures Tiled(bs[a := bs[a].(free := true)], start, end)
    ensures Members(lists, bs[a := bs[a].(free := true)], {a})
    ensures IdleOf(bs[a := bs[a].(free := true)], {}) == IdleOf(bs, {a})
    ensures LiveOf(bs[a := bs[a].(free := true)], {}) == LiveOf(bs, {a})
  {
    MarkTiles(bs, start, end, a, true);
  }

  /** A detached free block is handed to a client. */
  lemma GrantFacts(bs: Blocks, start: nat, end: nat, lists: map<nat, seq<nat>>, a: nat)
    requires Tiled(bs, start, end) && Members(lists, bs, {a}) && a in bs && bs[a].free
    ensures Tiled(bs[a := bs[a].(free := false)], start, end)
    ensures Members(lists, bs[a := bs[a].(free := false)], {})
    ensures IdleOf(bs[a := bs[a].(free := false)], {}) == IdleOf(bs, {a}) - {a}
    ensures LiveOf(bs[a := bs[a].(free := false)], {}) == LiveOf(bs, {a})[a := bs[a].order]
    ensures a !in LiveOf(bs, {a})
  {
    MarkTiles(bs, start, end, a, false);
  }

  lemma SparesNone(m: seq<byte>, live: map<nat, nat>, lo: nat, hi: nat)
    ensures Spares(m, m, live, lo, hi)
  {
  }

  /** Sparing more allocations implies sparing fewer. */
  lemma SparesFewer(m: seq<byte>, m': seq<byte>, live: map<nat, nat>, live': map<nat, nat>, lo: nat, hi: nat)
    requires Spares(m, m', live, lo, hi)
    requires forall a :: a in live' ==> a in live && live[a] == live'[a]
    ensures Spares(m, m', live', lo, hi)
  {
    forall i | 0 <= i < |m| && m[i] != m'[i] ensures !InLive(i, live')
    {
      assert InLive(i, live') ==> InLive(i, live);
    }
  }

  lemma SparesChain(m: seq<byte>, m1: seq<byte>, m2: seq<byte>, live: map<nat, nat>, lo: nat, hi1: nat, hi2: nat)
    requires Spares(m, m1, live, lo, hi1) && Spares(m1, m2, live, lo, hi2) && hi1 <= hi2
    ensures Spares(m, m2, live, lo, hi2)
  {
    forall i | 0 <= i < |m| && m[i] != m2[i] ensures lo <= i < hi2 && !InLive(i, live)
    {
      assert m[i] != m1[i] || m1[i] != m2[i];
    }
  }

  /** Total size of the live allocations. */
  ghost function TotalSize(live: map<nat, nat>): (r: nat)
  {
    if live.Keys == {} then 0
    else
      var a :| a in live.Keys;
      Size(live[a]) + TotalSize(live - {a})
  }

  lemma {:induction false} TotalSizeRemove(live: map<nat, nat>, a: nat)
    requires a in live
    ensures TotalSize(live) == Size(live[a]) + TotalSize(live - {a})
    decreases live.Keys
  {
    var b :| b in live.Keys && TotalSize(live) == Size(live[b]) + TotalSize(live - {b});
    if a != b {
      TotalSizeRemove(live - {b}, a);
      TotalSizeRemove(live - {a}, b);
      assert live - {b} - {a} == live - {a} - {b};
    }
  }

  lemma TotalSizeAdd(live: map<nat, nat>, a: nat, order: nat)
    requires a !in live
    ensures TotalSize(live[a := order]) == TotalSize(live) + Size(order)
  {
    TotalSizeRemove(live[a := order], a);
    assert live[a := order] - {a} == live;
  }

  /** address_order: the largest order that aligns with an address. */
  function AddressOrder(a: nat): (r: nat)
    requires a > 0
  {
    if Ctz(a) > MAX_ORDER then MAX_ORDER else Ctz(a)
  }

  lemma AddressOrderFacts(a: nat, order: nat)
    requires a > 0 && order <= MAX_ORDER
    ensures Aligned(a, AddressOrder(a)) && AddressOrder(a) <= MAX_ORDER
    ensures Aligned(a, order) <==> order <= AddressOrder(a)
    ensures AddressOrder(a) < order ==>
      && RoundUp(a + Size(AddressOrder(a)), order) == RoundUp(a, order)
      && AddressOrder(a + Size(AddressOrder(a))) > AddressOrder(a)
      && a + Size(AddressOrder(a)) <= RoundUp(a, order)
    ensures AddressOrder(a) >= order ==> RoundUp(a, order) == a
    ensures a <= RoundUp(a, order) < a + Size(order)
  {
    CtzAligned(a, AddressOrder(a));
    CtzAligned(a, order);
    RoundUpBounds(a, order);
    if AddressOrder(a) < order {
      CtzRises(a);
      RoundUpStep(a, order);
      RoundUpBounds(a + Size(AddressOrder(a)), order);
    } else {
      RoundUpAligned(a, order);
    }
  }

  /** The order of the block that serves a request. */
  function OrderFor(length: nat): (r: nat)
  {
    if Log2(length) < MIN_ORDER then MIN_ORDER else Log2(length)
  }

  /** The block is large enough, and the next smaller order would not be. */
  lemma OrderForFits(length: nat)
    requires length > 0
    ensures MIN_ORDER <= OrderFor(length) && length <= Size(OrderFor(length))
    ensures OrderFor(length) > MIN_ORDER ==> Size(OrderFor(length) - 1) < length
    ensures OrderFor(length) <= MAX_ORDER <==> length <= 0x40_0000
  {
    var o := OrderFor(length);
    Log2IsCeiling(length, o);
    Log2IsCeiling(length, MAX_ORDER);
    if o > MIN_ORDER { Log2IsCeiling(length, o - 1); }
    Pow2Values();
  }
}
