/** The kernel heap: a buddy allocator over byte-addressed memory. */
module Heap {
  import opened Bits
  import opened Memory
  import opened FreeList
  import opened Hash
  import opened HeapBook
  import opened HeapModel
  import opened HeapPolicy
  import opened NodeMap
  import opened NodeTable

  /** get_free: the head of the list of one order. */
  function GetFree(heads: seq<nat>, order: nat): nat
  {
    if MIN_ORDER <= order && order - MIN_ORDER < |heads| then heads[order - MIN_ORDER] else 0
  }

  /** Some free block could serve a request of this order. */
  predicate HasFree(heads: seq<nat>, order: nat)
  {
    exists o :: order <= o <= MAX_ORDER && GetFree(heads, o) != 0
  }

  /** A free block, or the room up to `limit`, could serve a request of this order. */
  predicate FitsIn(heads: seq<nat>, end: nat, limit: nat, order: nat)
  {
    HasFree(heads, order) || RoundUp(end, order) + Size(order) <= limit
  }

  class HeapAllocator {
    const start: nat
    const maxSize: nat
    var end: nat
    var heads: seq<nat>
    var allocatedSize: nat
    /** The block map: what is known of each block, by the key of its address. */
    const table: NodeMap<BlockInfo>
    /** The memory the heap lives in, indexed by address. */
    var mem: seq<byte>

    ghost var blockMap: map<nat, BlockInfo>
    ghost var headers: Headers
    ghost var lists: map<nat, seq<nat>>
    ghost var blocks: Blocks

    ghost predicate Region()
      reads this
    {
      && 0 < start && Aligned(start, MAX_ORDER)
      && start <= end <= start + maxSize <= |mem| <= TWO_64
      && maxSize + 0x40_0000 <= 0x20_0000_0000
    }

    /** The hash table holds the block map. */
    ghost predicate TableOk()
      reads `blockMap, table
    {
      table.hash == SplitMix64 && table.Valid() && table.Contents() == blockMap
    }

    /** The heap invariant while the blocks `x` are detached from the free lists. */
    ghost predicate Inv(x: set<nat>)
      reads this, table
    {
      && Region()
      && Tiled(blocks, start, end)
      && x <= blocks.Keys
      && headers.Keys == IdleOf(blocks, x)
      && Stored(mem, headers)
      && ListsOk(headers, heads, lists)
      && Members(lists, blocks, x)
      && MapAgrees(blockMap, blocks, start)
      && TableOk()
    }

    ghost function Live(): (r: map<nat, nat>)
      reads this
    {
      LiveOf(blocks, {})
    }

    ghost function Books(): Book
      reads this, table
    {
      Book(end, lists, blocks, table.nodes, table.count)
    }

    ghost predicate Valid()
      reads this, table
    {
      Inv({}) && allocatedSize == TotalSize(Live())
    }

    lemma ValidInv()
      requires Valid()
      ensures Inv({})
    {
    }

    lemma ValidUnique()
      requires Valid()
      ensures Unique(table.nodes)
    {
    }

    lemma AllKeyed(x: set<nat>)
      requires Inv(x)
      ensures forall a :: a in blocks ==> Keyed(start, a)
    {
      forall a | a in blocks ensures Keyed(start, a)
      {
        assert GoodBlock(blocks, a, start, end);
        AlignedKeyed(start, a, blocks[a].order);
      }
    }

    method SetPrev(a: nat, v: nat)
      requires Stored(mem, headers) && a in headers && v < TWO_64
      modifies `mem, `headers
      ensures headers == old(headers)[a := old(headers)[a].(prev := v)]
      ensures Stored(mem, headers) && |mem| == old(|mem|)
      ensures headers.Keys == old(headers.Keys) && OnlyHeaders(old(mem), mem, old(headers.Keys))
    {
      hide Stored, OnlyHeaders, Write;
      StoredHeader(mem, headers, a);
      WritePrev(mem, headers, a, v);
      mem := Write(mem, a, 8, v);
      headers := headers[a := headers[a].(prev := v)];
      assert headers.Keys == old(headers).Keys;
    }

    method SetNext(a: nat, v: nat)
      requires Stored(mem, headers) && a in headers && v < TWO_64
      modifies `mem, `headers
      ensures headers == old(headers)[a := old(headers)[a].(next := v)]
      ensures Stored(mem, headers) && |mem| == old(|mem|)
      ensures headers.Keys == old(headers.Keys) && OnlyHeaders(old(mem), mem, old(headers.Keys))
    {
      hide Stored, OnlyHeaders, Write;
      StoredHeader(mem, headers, a);
      WriteNext(mem, headers, a, v);
      mem := Write(mem, a + 8, 8, v);
      headers := headers[a := headers[a].(next := v)];
      assert headers.Keys == old(headers).Keys;
    }

    method SetOrder(a: nat, v: nat)
      requires Stored(mem, headers) && a in headers && v <= MAX_ORDER
      modifies `mem, `headers
      ensures headers == old(headers)[a := old(headers)[a].(order := v)]
      ensures Stored(mem, headers) && |mem| == old(|mem|)
      ensures headers.Keys == old(headers.Keys) && OnlyHeaders(old(mem), mem, old(headers.Keys))
    {
      hide Stored, OnlyHeaders, Write;
      StoredHeader(mem, headers, a);
      WriteOrder(mem, headers, a, v);
      mem := Write(mem, a + 16, 4, v);
      headers := headers[a := headers[a].(order := v)];
      assert headers.Keys == old(headers).Keys;
    }

    /** free_header::clear. */
    method Clear(a: nat, order: nat, next: nat)
      requires Stored(mem, headers) && a in headers && order <= MAX_ORDER && next < TWO_64
      modifies `mem, `headers
      ensures headers == old(headers)[a := Header(0, next, order)]
      ensures Stored(mem, headers) && |mem| == old(|mem|)
      ensures headers.Keys == old(headers.Keys) && OnlyHeaders(old(mem), mem, old(headers.Keys))
      ensures a + 20 <= |mem| && Read(mem, a, 8) == 0 && Read(mem, a + 8, 8) == next && Read(mem, a + 16, 4) == order
    {
      hide Stored, OnlyHeaders, Read;
      ghost var s, m0 := headers.Keys, mem;
      SetPrev(a, 0);
      assert headers[a].prev == 0;
      ghost var m1 := mem;
      SetNext(a, next);
      OnlyHeadersChain(m0, m1, mem, s);
      m1 := mem;
      SetOrder(a, order);
      OnlyHeadersChain(m0, m1, mem, s);
      assert headers == old(headers)[a := Header(0, next, order)];
      StoredHeader(mem, headers, a);
    }

    /** free_header::remove. */
    method Remove(a: nat)
      requires Stored(mem, headers) && a in headers && |mem| <= TWO_64
      requires headers[a].next != 0 ==> headers[a].next in headers
      requires headers[a].prev != 0 ==> headers[a].prev in headers
      modifies `mem, `headers
      ensures headers == Unlink(old(headers), a)
      ensures Stored(mem, headers) && |mem| == old(|mem|)
      ensures headers.Keys == old(headers.Keys) && OnlyHeaders(old(mem), mem, old(headers.Keys))
    {
      hide Stored, OnlyHeaders, HeaderAt;
      StoredHeader(mem, headers, a);
      OnlyHeadersNone(mem, headers.Keys);
      var next, prev := HeaderAt(mem, a).next, HeaderAt(mem, a).prev;
      if next != 0 { StoredHeader(mem, headers, next); }
      if prev != 0 { StoredHeader(mem, headers, prev); }
      ghost var s, m0 := headers.Keys, mem;
      if next != 0 { SetPrev(next, prev); }
      ghost var m1 := mem;
      if prev != 0 {
        SetNext(prev, next);
        OnlyHeadersChain(m0, m1, mem, s);
        m1 := mem;
      }
      ghost var h2 := headers;
      SetPrev(a, 0);
      OnlyHeadersChain(m0, m1, mem, s);
      m1 := mem;
      SetNext(a, 0);
      OnlyHeadersChain(m0, m1, mem, s);
      Overwrite(h2, a, h2[a].(prev := 0), h2[a].(prev := 0, next := 0));
    }

    method PopFree(order: nat, ghost x: set<nat>) returns (block: nat)
      requires Inv(x) && MIN_ORDER <= order <= MAX_ORDER
      modifies `heads, `mem, `headers, `lists
      ensures block == 0 <==> old(lists[order]) == []
      ensures block == 0 ==> unchanged(this)
      ensures block != 0 ==>
        && block == old(lists[order])[0] && block !in x
        && block in blocks && blocks[block] == BlockInfo(order, true)
        && Inv(x + {block}) && headers[block].order == order
        && lists == old(lists)[order := RemoveAt(old(lists[order]), 0)]
      ensures forall a :: a in x && a in headers ==> a in old(headers) && headers[a].order == old(headers[a]).order
      ensures headers.Keys == old(headers.Keys) && OnlyHeaders(old(mem), mem, old(headers.Keys))
    {
      hide TableOk, Stored, OnlyHeaders, HeaderAt, ListsOk, Members, MapAgrees, Tiled, Unlink, IdleOf, RemoveAt,
           Aligned;
      OnlyHeadersNone(mem, headers.Keys);
      HeadOfList(mem, headers, heads, lists, order);
      block := heads[order - MIN_ORDER];
      if block != 0 {
        // the assertion "freelist head had non-null prev"
        assert HeaderAt(mem, block).prev == 0;
        Detach(headers, heads, lists, blocks, x, order, 0, block);
        heads := heads[order - MIN_ORDER := HeaderAt(mem, block).next];
        Remove(block);
        lists := lists[order := RemoveAt(lists[order], 0)];
      }
    }

    /** m_map.find. */
    method Find(key: nat) returns (found: bool, info: BlockInfo)
      requires TableOk()
      ensures found <==> key in blockMap
      ensures found ==> info == blockMap[key]
    {
      hide Sound, Where, NodeTable.Contents, Unique;
      var slot;
      found, slot := table.Lookup(key);
      info := BlockInfo(0, false);
      if found {
        info := table.nodes[slot].value;
        SetValue(SplitMix64, table.nodes, table.count, slot, info);
      }
    }

    /** An assignment through m_map's operator[]. */
    method Record(key: nat, info: BlockInfo)
      requires TableOk()
      modifies table, `blockMap
      ensures TableOk() && blockMap == old(blockMap)[key := info]
      ensures key in old(blockMap) ==>
        Skeleton(table.nodes) == Skeleton(old(table.nodes)) && table.count == old(table.count)
      ensures (table.nodes, table.count) == Entry(old(table.nodes), old(table.count), key, info)
    {
      hide Sound, Where, NodeTable.Contents, Unique, Skeleton, Inserted, Entry;
      var slot := table.Slot(key, info);
      EntryIs(old(table.nodes), old(table.count), table.nodes, slot, key, info);
      SetValue(SplitMix64, table.nodes, table.count, slot, info);
      table.nodes := table.nodes[slot := Full(key, info)];
      blockMap := blockMap[key := info];
    }

    /** m_map.erase; `torn` reports that it has moved another entry out of the table. */
    method Forget(key: nat) returns (torn: bool)
      requires TableOk() && key in blockMap
      modifies table, `blockMap
      ensures Unique(old(table.nodes)) && Unique(Skeleton(old(table.nodes)))
      ensures torn <==> Tears(SplitMix64, Skeleton(old(table.nodes)), key)
      ensures Skeleton(table.nodes) == Removed(SplitMix64, Skeleton(old(table.nodes)), key)
      ensures blockMap == old(blockMap) - {key} && (!torn ==> TableOk())
      ensures table.nodes == Removed(SplitMix64, old(table.nodes), key) && table.count + 1 == old(table.count)
    {
      hide Sound, Where, NodeTable.Contents, Unique, Skeleton, Removed, Tears;
      SoundUnique(SplitMix64, table.nodes, table.count);
      SkeletonRemoved(SplitMix64, table.nodes, key);
      var found;
      found, torn := table.Erase(key);
      blockMap := blockMap - {key};
    }

    method RegisterFreeBlock(block: nat, order: nat)
      requires TableOk()
      requires Stored(mem, headers) && ListsOk(headers, heads, lists) && |mem| <= TWO_64
      requires block in headers && start <= block && MIN_ORDER <= order <= MAX_ORDER
      requires Unlisted(lists, block)
      modifies table, `blockMap, `heads, `mem, `headers, `lists
      ensures order in old(lists) && TableOk()
      ensures Key(start, block) in old(blockMap) ==> Skeleton(table.nodes) == Skeleton(old(table.nodes))
      ensures (table.nodes, table.count) ==
        Entry(old(table.nodes), old(table.count), Key(start, block), BlockInfo(order, true))
      ensures blockMap == old(blockMap)[Key(start, block) := BlockInfo(order, true)]
      ensures lists == old(lists)[order := [block] + old(lists)[order]]
      ensures ListsOk(headers, heads, lists)
      ensures forall b :: b in old(headers) && b != block && Unlisted(old(lists), b) ==>
        b in headers && headers[b] == old(headers)[b]
      ensures Stored(mem, headers) && |mem| == old(|mem|)
      ensures headers.Keys == old(headers.Keys) && OnlyHeaders(old(mem), mem, old(headers.Keys))
    {
      hide TableOk, Stored, OnlyHeaders, HeaderAt, ListsOk, Unlisted, Entry;
      OnlyHeadersNone(mem, headers.Keys);
      HeadOfList(mem, headers, heads, lists, order);
      StoredHeader(mem, headers, block);
      PushKeepsLists(headers, heads, lists, order, block);
      Record(Key(start, block), BlockInfo(order, true));
      var head := heads[order - MIN_ORDER];
      ghost var m0, s := mem, headers.Keys;
      if head != 0 {
        SetPrev(head, block);
      }
      ghost var m1 := mem;
      Clear(block, order, head);
      OnlyHeadersChain(m0, m1, mem, s);
      heads := heads[order - MIN_ORDER := block];
      lists := lists[order := [block] + lists[order]];
    }

    /** The tail of split_off: the block is cut in two and its upper half registered as free. */
    method Halve(block: nat, order: nat)
      requires Inv({block}) && MIN_ORDER <= order < MAX_ORDER
      requires block in blocks && blocks[block] == BlockInfo(order + 1, true)
      modifies table, `blockMap, `heads, `mem, `headers, `lists, `blocks
      ensures Inv({block}) && block in blocks && blocks[block] == BlockInfo(order, true)
      ensures headers[block].order == order
      ensures LiveOf(blocks, {block}) == old(LiveOf(blocks, {block}))
      ensures Spares(old(mem), mem, old(LiveOf(blocks, {block})), start, end)
      ensures Books() == Cut(start, old(Books()), block, order)
    {
      hide TableOk, Stored, OnlyHeaders, HeaderAt, ListsOk, Members, MapAgrees, Tiled, IdleOf, LiveOf, RemoveAt,
           Aligned, Spares, FlipBit, Key, Unlisted, Entry, Cut, Entered, Registered;
      ghost var x, live, m0, bs := {block}, LiveOf(blocks, {block}), mem, blocks;
      IdleDetached(blocks, x, block);
      AllKeyed(x);
      SetOrder(block, order);
      HeadersSpare(m0, mem, headers.Keys, bs, x, start, end);
      StoredHeader(mem, headers, block);
      var buddy := FlipBit(block, HeaderAt(mem, block).order);
      SplitFacts(bs, start, end, lists, block, order, buddy);
      AlignedKeyed(start, buddy, order);
      DetachedUnlisted(lists, bs, x, block);
      DetachedUnlisted(lists, bs, x, buddy);
      ListsFrame(old(headers), heads, lists, block, headers[block]);
      ListsFrame(headers, heads, lists, buddy, HeaderAt(mem, buddy));
      StoredAdd(mem, headers, buddy);
      headers := headers[buddy := HeaderAt(mem, buddy)];
      ghost var m1 := mem;
      KeyUpdate(blockMap, bs, start, buddy, BlockInfo(order, true));
      RegisterFreeBlock(buddy, order);
      ghost var e := (table.nodes, table.count);
      LowerHalf(block, buddy, order);
      CutIs(start, old(Books()), block, order, e, Books());
      MembersPush(old(lists), blocks, {block, buddy}, order, buddy);
      assert {block, buddy} - {buddy} == {block};
      HeadersSpare(m1, mem, headers.Keys, blocks, x, start, end);
      SparesChain(m0, m1, mem, live, start, end, end);
    }

    /** The last step of split_off: the map learns that the lower half has the smaller order. */
    method LowerHalf(block: nat, ghost buddy: nat, order: nat)
      requires TableOk() && block in blocks && blocks[block].free && buddy == block + Size(order) && start <= block
      requires (forall a :: a in blocks ==> Keyed(start, a)) && Keyed(start, buddy)
      requires MapAgrees(blockMap, blocks[buddy := BlockInfo(order, true)], start)
      modifies table, `blockMap, `blocks
      ensures TableOk() && blocks == Halved(old(blocks), block, order) && MapAgrees(blockMap, blocks, start)
      ensures (table.nodes, table.count) ==
        Entry(old(table.nodes), old(table.count), Key(start, block), BlockInfo(order, true))
    {
      hide TableOk, MapAgrees, Key, Keyed, Size;
      ghost var bs := blocks[buddy := BlockInfo(order, true)];
      KeyFinds(blockMap, bs, start, block);
      KeyUpdate(blockMap, bs, start, block, BlockInfo(order, true));
      var found, info := Find(Key(start, block));
      SizePositive(order);
      Record(Key(start, block), info.(order := order));
      blocks := Halved(blocks, block, order);
    }

    method SplitOff(order: nat) returns (found: bool, split: nat)
      requires Inv({}) && MIN_ORDER <= order <= MAX_ORDER
      modifies table, `blockMap, `heads, `mem, `headers, `lists, `blocks
      ensures found <==> exists o :: order < o <= MAX_ORDER && old(lists[o]) != []
      ensures !found ==> unchanged(this) && unchanged(table)
      ensures found ==>
        && Inv({split}) && split in blocks && blocks[split] == BlockInfo(order, true)
        && headers[split].order == order && LiveOf(blocks, {split}) == old(Live())
        && Spares(old(mem), mem, old(Live()), start, end)
      ensures if found then split != 0 && (split, Books()) == Split(start, old(Books()), order)
        else Split(start, old(Books()), order).0 == 0
      decreases MAX_ORDER - order
    {
      hide TableOk, Stored, OnlyHeaders, HeaderAt, ListsOk, Members, MapAgrees, Tiled, IdleOf, LiveOf, RemoveAt,
           Aligned, Spares, FlipBit, Key, Unlisted, Entry, Cut, Entered, Registered;
      var next := order + 1;
      if next > MAX_ORDER {
        return false, 0;
      }
      ghost var live, m0, b := Live(), mem, Books();
      ListsDomain(headers, heads, lists);
      var block := PopFree(next, {});
      if block == 0 {
        found, block := SplitOff(next);
        if !found {
          return false, 0;
        }
      } else {
        PoppedIs(b, next, Books());
        HeadersSpare(m0, mem, headers.Keys, blocks, {}, start, end);
        DetachIdle(blocks, {}, block);
        assert {} + {block} == {block};
      }
      ghost var m1 := mem;
      Halve(block, order);
      SparesChain(m0, m1, mem, live, start, end, end);
      found, split := true, block;
    }

    /** One round of merge_block's loop: the free buddy leaves its list and the two become
        one block of the next order. */
    method Absorb(block: nat, buddy: nat, order: nat) returns (r: nat, ghost gone: nat, torn: bool)
      requires Inv({block}) && block in blocks && MIN_ORDER <= order < MAX_ORDER
      requires blocks[block].order == order && headers[block].order == order
      requires buddy == FlipBit(block, order) && buddy in blocks && blocks[buddy] == BlockInfo(order, true)
      modifies table, `blockMap, `heads, `mem, `headers, `lists, `blocks
      ensures start <= block && start <= buddy && buddy != block
      ensures Joined(old(Books()), block, buddy, order, r, gone, torn)
      ensures Mergeable(old(blocks), start, block, order)
      ensures !torn ==> Books() == MergedOnce(start, old(Books()), block, order)
      ensures !torn ==>
        && Inv({r}) && r in blocks && blocks[r].order == order + 1 && headers[r].order == order + 1
        && r <= block && block + Size(order) <= r + Size(order + 1)
        && LiveOf(blocks, {r}) == old(LiveOf(blocks, {block}))
        && Spares(old(mem), mem, old(LiveOf(blocks, {block})), start, end)
    {
      hide TableOk, Stored, OnlyHeaders, HeaderAt, ListsOk, Members, MapAgrees, Tiled, IdleOf, LiveOf, RemoveAt,
           Aligned, Spares, FlipBit, Key, Unlisted, Entry, Cut, Entered, Registered, Joined;
      ghost var m0, live := mem, LiveOf(blocks, {block});
      BlockGood(blocks, start, end, block);
      BlockGood(blocks, start, end, buddy);
      BuddyFacts(block, order, buddy);
      IdleDetached(blocks, {block}, block);
      DetachIdle(blocks, {block}, buddy);
      assert {block} + {buddy} == {block, buddy};
      Take(block, buddy, order);
      HeadersSpare(m0, mem, headers.Keys, blocks, {block, buddy}, start, end);
      ghost var m1, b1 := mem, Books();
      r, gone, torn := Join(block, buddy, order);
      JoinedLists(b1, old(lists), block, buddy, order, r, gone, torn);
      JoinedFacts(old(Books()), block, buddy, order, r, gone, torn);
      if !torn {
        MergedOnceIs(start, old(Books()), block, order, Books());
        SparesChain(m0, m1, mem, live, start, end, end);
      }
    }

    /** Of two buddies the lower is kept; the key of the other is erased, and `torn` reports that
        this has moved another entry out of the table. */
    ghost predicate Joined(b: Book, block: nat, buddy: nat, order: nat, keep: nat, gone: nat, torn: bool)
      reads table, `blocks
      requires start <= block && start <= buddy && buddy != block
    {
      && keep == Lower(block, buddy) && gone == Upper(block, buddy) && b.count > 0
      && Unique(b.nodes) && Unique(Skeleton(b.nodes)) && keep in b.blocks
      && blocks == Merged(b.blocks, keep, gone, order + 1)
      && (torn <==> Tears(SplitMix64, Skeleton(b.nodes), Key(start, gone)))
      && (!torn ==>
        && Skeleton(table.nodes) == Removed(SplitMix64, Skeleton(b.nodes), Key(start, gone))
        && (table.nodes, table.count) ==
           Entry(Removed(SplitMix64, b.nodes, Key(start, gone)), b.count - 1, Key(start, keep),
                                               BlockInfo(order + 1, b.blocks[keep].free)))
    }

    /** The free lists have no part in it. */
    lemma JoinedLists(b: Book, l: map<nat, seq<nat>>, block: nat, buddy: nat, order: nat, keep: nat, gone: nat,
                      torn: bool)
      requires start <= block && start <= buddy && buddy != block && Joined(b, block, buddy, order, keep, gone, torn)
      ensures Joined(b.(lists := l), block, buddy, order, keep, gone, torn)
    {
      hide Entry, Removed, Skeleton, Unique, Tears, Key;
    }

    lemma JoinedFacts(b: Book, block: nat, buddy: nat, order: nat, keep: nat, gone: nat, torn: bool)
      requires start <= block && start <= buddy && buddy != block && Joined(b, block, buddy, order, keep, gone, torn)
      ensures keep == Lower(block, buddy) && gone == Upper(block, buddy) && b.count > 0 && Unique(b.nodes)
      ensures keep in b.blocks
      ensures Unique(Skeleton(b.nodes)) && (torn <==> Tears(SplitMix64, Skeleton(b.nodes), Key(start, gone)))
      ensures blocks == Merged(b.blocks, keep, gone, order + 1)
      ensures !torn ==>
        && Skeleton(table.nodes) == Removed(SplitMix64, Skeleton(b.nodes), Key(start, gone))
        && (table.nodes, table.count) ==
           Entry(Removed(SplitMix64, b.nodes, Key(start, gone)), b.count - 1, Key(start, keep),
                                               BlockInfo(order + 1, b.blocks[keep].free))
    {
      hide Entry, Removed, Skeleton, Unique, Tears, Key;
    }

    /** Two detached buddies become one detached block. */
    method Join(block: nat, buddy: nat, order: nat) returns (r: nat, ghost gone: nat, torn: bool)
      requires Inv({block, buddy}) && MIN_ORDER <= order < MAX_ORDER && block in blocks && buddy in blocks
      requires blocks[block].order == order && headers[block].order == order
      requires blocks[buddy].order == order && headers[buddy].order == order
      requires Aligned(block, order) && buddy == FlipBit(block, order) && start <= block && start <= buddy
      requires buddy != block
      modifies table, `blockMap, `mem, `headers, `blocks
      ensures Joined(old(Books()), block, buddy, order, r, gone, torn)
      ensures !torn ==>
        && Inv({r}) && r in blocks && blocks[r].order == order + 1 && headers[r].order == order + 1
        && r <= block && block + Size(order) <= r + Size(order + 1)
        && LiveOf(blocks, {r}) == old(LiveOf(blocks, {block, buddy}))
        && Spares(old(mem), mem, old(LiveOf(blocks, {block, buddy})), start, end)
    {
      hide TableOk, Stored, OnlyHeaders, HeaderAt, ListsOk, Members, MapAgrees, Tiled, IdleOf, LiveOf, RemoveAt,
           Aligned, Spares, FlipBit, Key, Unlisted, Entry, Cut, Entered, Registered, Tears, Removed, Skeleton, Unique;
      BuddyFacts(block, order, buddy);
      AllKeyed({block, buddy});
      IdleDetached(blocks, {block, buddy}, block);
      IdleDetached(blocks, {block, buddy}, buddy);
      StoredHeader(mem, headers, block);
      StoredHeader(mem, headers, buddy);
      ghost var m0 := mem;
      r := if block < FlipBit(block, HeaderAt(mem, block).order) then block else buddy;
      var other := FlipBit(r, HeaderAt(mem, r).order);
      gone := other;
      assert {block, buddy} == {r, gone};
      MergeFacts(blocks, start, end, lists, r, gone, order);
      KeyErase(blockMap, blocks, start, gone);
      KeyFinds(blockMap, blocks, start, gone);
      torn := Forget(Key(start, other));
      if torn {
        blocks := Merged(blocks, r, gone, order + 1);
        return;
      }
      Raise(r, gone, order);
      HeadersSpare(m0, mem, headers.Keys + {gone}, old(blocks), {block, buddy}, start, end);
    }

    /** The heap invariant with blocks `lo` and `hi` detached and the map entry of `hi` gone. */
    ghost predicate Half(lo: nat, hi: nat)
      reads this, table
    {
      && Region() && Tiled(blocks, start, end) && lo in blocks && hi in blocks
      && headers.Keys == IdleOf(blocks, {lo, hi}) && lo in headers && hi in headers && hi != lo && Keyed(start, lo)
      && Stored(mem, headers) && ListsOk(headers, heads, lists) && Members(lists, blocks, {lo, hi})
      && MapAgrees(blockMap, blocks - {hi}, start) && TableOk()
    }

    /** The lower of two buddies, whose other half is gone from the map, becomes one block of the
        next order. */
    method Raise(r: nat, ghost gone: nat, order: nat)
      requires Half(r, gone) && MIN_ORDER <= order < MAX_ORDER && blocks[r].order == order
      requires blocks[gone].order == order
      requires gone == r + Size(order) && Aligned(r, order + 1)
      requires forall a :: a in blocks ==> Keyed(start, a)
      modifies table, `blockMap, `mem, `headers, `blocks
      ensures Inv({r}) && blocks == Merged(old(blocks), r, gone, order + 1) && r in headers
      ensures headers[r].order == order + 1
      ensures LiveOf(blocks, {r}) == old(LiveOf(blocks, {r, gone}))
      ensures Skeleton(table.nodes) == Skeleton(old(table.nodes))
      ensures start <= r && (table.nodes, table.count) ==
        Entry(old(table.nodes), old(table.count), Key(start, r), BlockInfo(order + 1, old(blocks)[r].free))
      ensures OnlyHeaders(old(mem), mem, old(headers.Keys)) && headers.Keys + {gone} == old(headers.Keys)
    {
      hide TableOk, Stored, OnlyHeaders, HeaderAt, ListsOk, Members, MapAgrees, Tiled, IdleOf, LiveOf, RemoveAt,
           Aligned, Spares, FlipBit, Key, Keyed, Unlisted, Skeleton, Entry;
      MergeFacts(blocks, start, end, lists, r, gone, order);
      KeyFinds(blockMap, blocks - {gone}, start, r);
      KeyUpdate(blockMap, blocks - {gone}, start, r, blocks[r].(order := order + 1));
      KeyedStart(start, r);
      var found, info := Find(Key(start, r));
      Record(Key(start, r), info.(order := order + 1));
      DetachedUnlisted(lists, blocks, {r, gone}, r);
      DetachedUnlisted(lists, blocks, {r, gone}, gone);
      ListsFrame(headers, heads, lists, r, headers[r].(order := order + 1));
      SetOrder(r, order + 1);
      ListsFrame(headers, heads, lists, gone, headers[gone]);
      StoredDrop(mem, headers, gone);
      headers := headers - {gone};
      blocks := Merged(blocks, r, gone, order + 1);
    }

    lemma KeyedStart(start: nat, a: nat)
      requires Keyed(start, a)
      ensures start <= a
    {
    }

    /** Remove a free buddy from its list, wherever it is in it. */
    method Take(ghost block: nat, buddy: nat, order: nat)
      requires Inv({block}) && 0 < buddy != block && MIN_ORDER <= order < MAX_ORDER
      requires buddy in blocks && blocks[buddy] == BlockInfo(order, true) && block in headers
      modifies `heads, `mem, `headers, `lists
      ensures Inv({block, buddy}) && headers[buddy].order == order && headers[block].order == old(headers[block].order)
      ensures order in old(lists) && lists == old(lists)[order := Without(old(lists[order]), buddy)]
      ensures headers.Keys == old(headers.Keys) && OnlyHeaders(old(mem), mem, old(headers.Keys))
    {
      hide TableOk, Stored, OnlyHeaders, HeaderAt, ListsOk, Members, MapAgrees, Tiled, IdleOf, RemoveAt, Aligned,
           Unlink, Without;
      HeadOfList(mem, headers, heads, lists, order);
      ListsDomain(headers, heads, lists);
      if heads[order - MIN_ORDER] == buddy {
        WithoutNode(headers, heads, lists, order, 0);
        var b := PopFree(order, {block});
        assert {block} + {buddy} == {block, buddy};
      } else {
        ghost var k := FindNode(headers, heads, lists, blocks, {block}, order, buddy);
        WithoutNode(headers, heads, lists, order, k);
        Detach(headers, heads, lists, blocks, {block}, order, k, buddy);
        HeadKept(heads, lists[order], k, order);
        Remove(buddy);
        lists := lists[order := RemoveAt(lists[order], k)];
        assert {block} + {buddy} == {block, buddy};
      }
    }

    lemma MergeEnd(b: Book, block: nat, order: nat)
      requires block in b.blocks && b.blocks[block].order == order && !Mergeable(b.blocks, start, block, order)
      ensures !FreeTears(start, b, block) && MergedAll(start, b, block, order) == (block, b)
    {
    }

    method MergeBlock(first: nat) returns (block: nat, torn: bool)
      requires Inv({first}) && first in blocks && headers[first].order == blocks[first].order
      modifies table, `blockMap, `heads, `mem, `headers, `lists, `blocks
      ensures torn <==> FreeTears(start, old(Books()), first)
      ensures !torn ==>
        && Inv({block}) && block in blocks && headers[block].order == blocks[block].order
        && Irreducible(blocks, block)
        && LiveOf(blocks, {block}) == old(LiveOf(blocks, {first}))
        && Spares(old(mem), mem, old(LiveOf(blocks, {first})), start, end)
        && (block, Books()) == MergedAll(start, old(Books()), first, old(blocks)[first].order)
    {
      hide TableOk, Stored, OnlyHeaders, HeaderAt, ListsOk, Members, MapAgrees, Tiled, IdleOf, LiveOf, RemoveAt,
           Aligned, Spares, FlipBit, Key, Unlisted, Entry, FreeTears, Tears, Removed, Skeleton, Unique, TearsAny,
           Mergeable, MergedOnce, MergedAll, Joined;
      BlockGood(blocks, start, end, first);
      IdleDetached(blocks, {first}, first);
      StoredHeader(mem, headers, first);
      ghost var live, m0, b0 := LiveOf(blocks, {first}), mem, Books();
      SparesNone(mem, live, start, end);
      block, torn := first, false;
      var order := HeaderAt(mem, block).order;
      while order < MAX_ORDER
        invariant MIN_ORDER <= order <= MAX_ORDER
        invariant Inv({block}) && block in blocks && blocks[block].order == order
        invariant block in headers && headers[block].order == order
        invariant LiveOf(blocks, {block}) == live
        invariant Spares(m0, mem, live, start, end)
        invariant FreeTears(start, Books(), block) <==> FreeTears(start, b0, first)
        invariant MergedAll(start, Books(), block, order) == MergedAll(start, b0, first, b0.blocks[first].order)
      {
        BlockGood(blocks, start, end, block);
        var buddy := FlipBit(block, order);
        BuddyInHeap(start, block, order);
        AlignedKeyed(start, buddy, order);
        KeyFinds(blockMap, blocks, start, buddy);
        var found, info := Find(Key(start, buddy));
        if !found || !info.free || info.order != order {
          break;
        }
        ghost var m1, b1, was := mem, Books(), block;
        ghost var gone: nat;
        block, gone, torn := Absorb(block, buddy, order);
        JoinedFacts(b1, was, buddy, order, block, gone, torn);
        TearsStep(start, b1, was, order);
        if torn {
          return;
        }
        MergedAllStep(start, b1, was, order);
        MergedTears(Books(), block);
        IdleDetached(blocks, {block}, block);
        SparesChain(m0, m1, mem, live, start, end, end);
        order := order + 1;
      }
      Unmergeable(blocks, block, order);
      MergeEnd(Books(), block, order);
    }

    lemma MergedTears(b: Book, block: nat)
      requires block in b.blocks
      ensures FreeTears(start, b, block) <==>
        TearsAny(SplitMix64, Skeleton(b.nodes), MergeKeys(b.blocks, start, block, b.blocks[block].order))
    {
    }

    lemma Unmergeable(bs: Blocks, block: nat, order: nat)
      requires order >= MAX_ORDER ||
        (FlipBit(block, order) in bs ==> bs[FlipBit(block, order)] != BlockInfo(order, true))
      ensures !Mergeable(bs, start, block, order)
    {
      hide FlipBit;
    }

    /** One filler block of new_block's loop. */
    method GrowFree(order: nat)
      requires Inv({}) && MIN_ORDER <= order <= MAX_ORDER && Aligned(end, order)
      requires end + Size(order) <= start + maxSize
      modifies table, `end, `blockMap, `heads, `mem, `headers, `lists, `blocks
      ensures Inv({}) && end == old(end) + Size(order)
      ensures Live() == old(Live()) && Spares(old(mem), mem, old(Live()), start, end)
      ensures Books() == Filler(start, old(Books()), order)
    {
      hide TableOk, Stored, OnlyHeaders, HeaderAt, ListsOk, Members, MapAgrees, Tiled, IdleOf, LiveOf, RemoveAt,
           Aligned, Spares, FlipBit, Key, Unlisted, Entry, Cut, Entered, Registered;
      ghost var m0 := mem;
      ExtendFacts(blocks, start, end, lists, BlockInfo(order, true));
      AllKeyed({});
      AlignedKeyed(start, end, order);
      DetachedUnlisted(lists, blocks, {}, end);
      ListsFrame(headers, heads, lists, end, HeaderAt(mem, end));
      StoredAdd(mem, headers, end);
      headers := headers[end := HeaderAt(mem, end)];
      KeyUpdate(blockMap, blocks, start, end, BlockInfo(order, true));
      blocks := blocks[end := BlockInfo(order, true)];
      MembersPush(lists, blocks, {end}, order, end);
      assert {end} - {end} == {};
      ListsDomain(headers, heads, lists);
      RegisterFreeBlock(end, order);
      RegisteredIs(start, old(Books()), end, order, Books());
      end := end + Size(order);
      HeadersSpare(m0, mem, headers.Keys, blocks, {}, start, end);
    }

    method NewBlock(order: nat) returns (block: nat)
      requires Inv({}) && MIN_ORDER <= order <= MAX_ORDER
      requires RoundUp(end, order) + Size(order) <= start + maxSize
      modifies table, `end, `blockMap, `heads, `mem, `headers, `lists, `blocks
      ensures Inv({}) && block > 0 && block == RoundUp(old(end), order) && end == block + Size(order)
      ensures block !in old(Live()) && Live() == old(Live())[block := order]
      ensures Spares(old(mem), mem, old(Live()), start, end)
      ensures (block, Books()) == Grown(start, old(Books()), order)
    {
      hide TableOk, Stored, OnlyHeaders, HeaderAt, ListsOk, Members, MapAgrees, Tiled, IdleOf, LiveOf, RemoveAt,
           Aligned, Spares, FlipBit, Key, Unlisted, Entry, Cut, Entered, Registered, Size, RoundUp, AddressOrder,
           Filled, Filler;
      ghost var live, m0 := Live(), mem;
      SparesNone(mem, live, start, end);
      EndAligned(blocks, start, end);
      AddressOrderFacts(end, MIN_ORDER);
      var current := AddressOrder(end);
      while current < order
        invariant Inv({}) && Live() == live && Spares(m0, mem, live, start, end)
        invariant RoundUp(end, order) == RoundUp(old(end), order)
        invariant current == AddressOrder(end) >= MIN_ORDER
        invariant Filled(start, Books(), order) == Filled(start, old(Books()), order)
        decreases order - current
      {
        ghost var m1, e1 := mem, end;
        AddressOrderFacts(end, order);
        FilledStep(start, Books(), order);
        GrowFree(current);
        SparesChain(m0, m1, mem, live, start, e1, end);
        current := AddressOrder(end);
      }
      AddressOrderFacts(end, order);
      FilledEnd(start, Books(), order);
      block := end;
      ghost var m1 := mem;
      GrowUsed(order);
      SparesChain(m0, m1, mem, live, start, block, end);
    }

    /** The end of new_block: the block at the heap end is added as used. */
    method GrowUsed(order: nat)
      requires Inv({}) && MIN_ORDER <= order <= MAX_ORDER && Aligned(end, order)
      requires end + Size(order) <= start + maxSize
      modifies table, `end, `blockMap, `blocks
      ensures Inv({}) && end == old(end) + Size(order)
      ensures old(end) !in old(Live()) && Live() == old(Live())[old(end) := order]
      ensures Spares(mem, mem, old(Live()), start, end)
      ensures Books() == Entered(start, old(Books()), old(end), BlockInfo(order, false)).(end := old(end) + Size(order))
    {
      hide TableOk, Stored, OnlyHeaders, HeaderAt, ListsOk, Members, MapAgrees, Tiled, IdleOf, LiveOf, RemoveAt,
           Aligned, Spares, FlipBit, Key, Unlisted, Entry, Cut, Entered, Registered, Skeleton, Size;
      ExtendFacts(blocks, start, end, lists, BlockInfo(order, false));
      AllKeyed({});
      AlignedKeyed(start, end, order);
      KeyUpdate(blockMap, blocks, start, end, BlockInfo(order, false));
      KeyFinds(blockMap, blocks, start, end);
      UnknownNotLive(blocks, {}, end);
      Record(Key(start, end), BlockInfo(order, false));
      blocks := blocks[end := BlockInfo(order, false)];
      EnteredIs(start, old(Books()), end, BlockInfo(order, false), Books());
      end := end + Size(order);
      SparesNone(mem, old(Live()), start, end);
    }

    /** The heap can serve a request of this order inside its region. */
    predicate Fits(order: nat)
      reads `heads, `end
    {
      FitsIn(heads, end, start + maxSize, order)
    }

    lemma FitsBooks(order: nat)
      requires Inv({}) && MIN_ORDER <= order
      ensures Fits(order) <==> Serves(Books(), start + maxSize, order)
      ensures HasFree(heads, order) <==> SomeFree(Books(), order)
    {
      hide TableOk, Stored, HeaderAt, ListsOk, Members, MapAgrees, Tiled, IdleOf, Aligned, Size, RoundUp, GetFree;
      FreeHeads();
      forall o | order <= o <= MAX_ORDER ensures GetFree(heads, o) != 0 <==> ListIn(Books(), o) != [] {}
    }

    lemma FreeHeads()
      requires Inv({})
      ensures forall o :: o in lists <==> MIN_ORDER <= o <= MAX_ORDER
      ensures forall o :: o in lists ==> (GetFree(heads, o) != 0 <==> lists[o] != [])
    {
      forall o | o in lists ensures GetFree(heads, o) != 0 <==> lists[o] != []
      {
        HeadOfList(mem, headers, heads, lists, o);
      }
    }

    constructor (start: nat, size: nat, mem: seq<byte>)
      requires 0 < start && Aligned(start, MAX_ORDER)
      requires start + size <= |mem| <= TWO_64 && size + 0x40_0000 <= 0x20_0000_0000
      ensures Valid() && Live() == map[] && fresh(table)
      ensures Books() == Book(start, NoLists(MAX_ORDER), map[], seq(512, _ => Open), 0)
      ensures heads == seq(MAX_ORDER - MIN_ORDER + 1, _ => 0)
      ensures this.start == start && this.maxSize == size && end == start && this.mem == mem
    {
      hide Aligned, Sound, NodeTable.Contents, Unique, Tiled, Stored, ListsOk, Members, MapAgrees, IdleOf, LiveOf,
           TotalSize;
      this.start, this.maxSize, this.end := start, size, start;
      this.mem := mem;
      heads := seq(MAX_ORDER - MIN_ORDER + 1, _ => 0);
      allocatedSize := 0;
      TableSlots();
      table := new NodeMap<BlockInfo>(SplitMix64, 512);
      blockMap := map[];
      headers := map[];
      lists := NoLists(MAX_ORDER);
      blocks := map[];
      EmptyHeap(mem, start);
    }

    method Allocate(length: nat) returns (p: nat)
      requires Valid()
      requires 0 < length <= 0x40_0000 ==> Fits(OrderFor(length))
      modifies this, table
      ensures Valid()
      ensures p == 0 <==> length == 0 || length > 0x40_0000
      ensures p == 0 ==> unchanged(this) && unchanged(table)
      ensures p != 0 ==>
        && p !in old(Live()) && Live() == old(Live())[p := OrderFor(length)]
        && length <= Size(OrderFor(length))
        && Spares(old(mem), mem, old(Live()), start, end)
      ensures p != 0 && HasFree(old(heads), OrderFor(length)) ==> end == old(end)
      ensures p != 0 && !HasFree(old(heads), OrderFor(length)) ==>
        p == RoundUp(old(end), OrderFor(length)) && end == p + Size(OrderFor(length))
      ensures p != 0 ==> (p, Books()) == Obtained(start, old(Books()), OrderFor(length))
      ensures p != 0 ==> Chosen(old(Books()), Books(), OrderFor(length), p)
    {
      hide TableOk, Stored, OnlyHeaders, HeaderAt, ListsOk, Members, MapAgrees, Tiled, IdleOf, LiveOf, RemoveAt,
           Aligned, Spares, FlipBit, Key, Unlisted, Entry, Cut, Entered, Registered, TotalSize, Size, OrderFor, RoundUp,
           Obtained, Chosen;
      if length == 0 {
        return 0;
      }
      OrderForFits(length);
      var order := OrderFor(length);
      if order > MAX_ORDER {
        return 0;
      }
      ghost var live := Live();
      allocatedSize := allocatedSize + Size(order);
      p := Obtain(order);
      TotalSizeAdd(live, p, order);
    }

    /** The body of allocate once the order is known: pop, else split, else grow. */
    method Obtain(order: nat) returns (p: nat)
      requires Inv({}) && MIN_ORDER <= order <= MAX_ORDER && Fits(order)
      modifies table, `end, `blockMap, `heads, `mem, `headers, `lists, `blocks
      ensures Inv({}) && p != 0 && p !in old(Live()) && Live() == old(Live())[p := order]
      ensures Spares(old(mem), mem, old(Live()), start, end)
      ensures HasFree(old(heads), order) ==> end == old(end)
      ensures !HasFree(old(heads), order) ==> p == RoundUp(old(end), order) && end == p + Size(order)
      ensures (p, Books()) == Obtained(start, old(Books()), order)
      ensures Chosen(old(Books()), Books(), order, p)
    {
      hide TableOk, Stored, OnlyHeaders, HeaderAt, ListsOk, Members, MapAgrees, Tiled, IdleOf, LiveOf, RemoveAt,
           Aligned, Spares, FlipBit, Key, Unlisted, Entry, Cut, Entered, Registered, Size, RoundUp, Split, Grown,
           Chosen;
      ghost var m0, live, b := mem, Live(), Books();
      FreeHeads();
      Choice(order);
      var block := PopFree(order, {});
      if block == 0 {
        var found, split := SplitOff(order);
        if !found {
          p := NewBlock(order);
          return;
        }
        block := split;
      } else {
        assert {} + {block} == {block};
        PoppedIs(b, order, Books());
        HeadersSpare(m0, mem, headers.Keys, blocks, {}, start, end);
        DetachIdle(blocks, {}, block);
      }
      Grant(block);
      p := block;
    }

    lemma Choice(order: nat)
      requires Inv({}) && order <= MAX_ORDER
      ensures var o := Obtained(start, Books(), order); Chosen(Books(), o.1, order, o.0)
    {
      hide TableOk, Stored, HeaderAt, ListsOk, Members, MapAgrees, IdleOf, Aligned, Size, RoundUp, Obtained, Chosen;
      EndAligned(blocks, start, end);
      forall o: nat | On(lists, o) != [] ensures On(lists, o)[0] != 0
      {
        ListsDomain(headers, heads, lists);
        HeadOfList(mem, headers, heads, lists, o);
      }
      ObtainedChosen(start, Books(), order);
    }

    /** allocate's last step: the block is marked used and leaves the allocator's hands. */
    method Grant(block: nat)
      requires Inv({block}) && block in blocks && blocks[block].free
      modifies table, `blockMap, `headers, `blocks
      ensures Inv({}) && block != 0 && block !in old(LiveOf(blocks, {block}))
      ensures Live() == old(LiveOf(blocks, {block}))[block := old(blocks[block].order)]
      ensures Books() == Entered(start, old(Books()), block, BlockInfo(old(blocks[block].order), false))
    {
      hide TableOk, Stored, OnlyHeaders, HeaderAt, ListsOk, Members, MapAgrees, Tiled, IdleOf, LiveOf, RemoveAt,
           Aligned, Spares, FlipBit, Key, Unlisted, Entry, Cut, Entered, Registered;
      GrantFacts(blocks, start, end, lists, block);
      BlockGood(blocks, start, end, block);
      AllKeyed({block});
      KeyFinds(blockMap, blocks, start, block);
      KeyUpdate(blockMap, blocks, start, block, blocks[block].(free := false));
      DetachedUnlisted(lists, blocks, {block}, block);
      ListsFrame(headers, heads, lists, block, Header(0, 0, 0));
      StoredDrop(mem, headers, block);
      var found, info := Find(Key(start, block));
      Record(Key(start, block), info.(free := false));
      headers := headers - {block};
      blocks := blocks[block := blocks[block].(free := false)];
      EnteredIs(start, old(Books()), block, blocks[block], Books());
    }

    /** Free a live block.  When merging moves another entry out of the block map's table, `torn` is
        reported and nothing is said of the heap any more. */
    method Free(p: nat) returns (torn: bool)
      requires Valid() && (p == 0 || p in Live())
      modifies this, table
      ensures p == 0 ==> !torn && unchanged(this) && unchanged(table)
      ensures p != 0 ==> p in old(blocks) && (torn <==> FreeTears(start, old(Books()), p))
      ensures !torn ==> Valid() && end == old(end)
      ensures p != 0 && !torn ==> Live() == old(Live()) - {p} && Spares(old(mem), mem, Live(), start, end)
      ensures p != 0 && !torn ==> Books() == Freed(start, old(Books()), p) && Reclaims(old(Books()), Books(), p)
    {
      hide TableOk, Stored, OnlyHeaders, HeaderAt, ListsOk, Members, MapAgrees, Tiled, IdleOf, LiveOf, RemoveAt,
           Aligned, Spares, FlipBit, Key, Unlisted, Entry, Cut, Entered, Registered, TotalSize, Size, FreeTears, Freed,
           Reclaims;
      if p == 0 {
        return false;
      }
      ReclaimFacts(blocks, start, end, lists, p);
      Reclaimed(p);
      // the assertion "Attempt to free non-heap pointer"
      assert start <= p < end;
      AllKeyed({});
      KeyFinds(blockMap, blocks, start, p);
      var found, info := Find(Key(start, p));
      // the assertion "Attempt to free pointer not known to the heap"
      assert found;
      TotalSizeRemove(Live(), p);
      allocatedSize := allocatedSize - Size(info.order);
      torn := GiveBack(p, info.order);
    }

    lemma Reclaimed(p: nat)
      requires Inv({}) && p in blocks
      ensures Reclaims(Books(), Freed(start, Books(), p), p)
    {
      hide TableOk, Stored, HeaderAt, ListsOk, MapAgrees, IdleOf, Aligned, Size, Freed, Reclaims, Tiled;
      ListsDomain(headers, heads, lists);
      forall a: nat | a in blocks
        ensures start <= a && blocks[a].order <= MAX_ORDER && Aligned(a, blocks[a].order)
        ensures blocks[a].free ==> a in On(lists, blocks[a].order)
      {
        BlockGood(blocks, start, end, a);
      }
      FreedReclaims(start, Books(), p);
    }

    /** The body of free: clear the header, merge, register. */
    method GiveBack(p: nat, order: nat) returns (torn: bool)
      requires Inv({}) && p in Live() && p in blocks && blocks[p].order == order
      modifies table, `blockMap, `heads, `mem, `headers, `lists, `blocks
      ensures torn <==> FreeTears(start, old(Books()), p)
      ensures !torn ==> Inv({}) && Live() == old(Live()) - {p} && Spares(old(mem), mem, Live(), start, end)
      ensures !torn ==> Books() == Freed(start, old(Books()), p)
    {
      hide TableOk, Stored, OnlyHeaders, HeaderAt, ListsOk, Members, MapAgrees, Tiled, IdleOf, LiveOf, RemoveAt,
           Aligned, Spares, FlipBit, Key, Unlisted, Entry, Cut, Entered, Registered, FreeTears, MergedAll;
      ghost var m0 := mem;
      ReclaimFacts(blocks, start, end, lists, p);
      ghost var live := LiveOf(blocks, {p});
      DetachedUnlisted(lists, blocks, {p}, p);
      ListsFrame(headers, heads, lists, p, HeaderAt(mem, p));
      StoredAdd(mem, headers, p);
      headers := headers[p := HeaderAt(mem, p)];
      ListsFrame(headers, heads, lists, p, Header(0, 0, order));
      Clear(p, order, 0);
      HeadersSpare(m0, mem, headers.Keys, blocks, {p}, start, end);
      ghost var m1 := mem;
      var block;
      block, torn := MergeBlock(p);
      if torn {
        return;
      }
      SparesChain(m0, m1, mem, live, start, end, end);
      m1 := mem;
      StoreFree(block);
      SparesChain(m0, m1, mem, live, start, end, end);
    }

    /** The end of free: the merged block goes on the list of its order. */
    method StoreFree(block: nat)
      requires Inv({block}) && block in blocks && headers[block].order == blocks[block].order
      modifies table, `blockMap, `heads, `mem, `headers, `lists, `blocks
      ensures Inv({}) && Live() == old(LiveOf(blocks, {block}))
      ensures Spares(old(mem), mem, old(LiveOf(blocks, {block})), start, end)
      ensures Books() == Registered(start, old(Books()), block, old(blocks)[block].order)
    {
      hide TableOk, Stored, OnlyHeaders, HeaderAt, ListsOk, Members, MapAgrees, Tiled, IdleOf, LiveOf, RemoveAt,
           Aligned, Spares, FlipBit, Key, Unlisted, Entry, Cut, Entered, Registered;
      ghost var m0 := mem;
      BlockGood(blocks, start, end, block);
      IdleDetached(blocks, {block}, block);
      AllKeyed({block});
      StoredHeader(mem, headers, block);
      DetachedUnlisted(lists, blocks, {block}, block);
      ReleaseFacts(blocks, start, end, lists, block);
      var order := HeaderAt(mem, block).order;
      KeyFinds(blockMap, blocks, start, block);
      KeyUpdate(blockMap, blocks, start, block, BlockInfo(order, true));
      blocks := blocks[block := BlockInfo(order, true)];
      ListsDomain(headers, heads, lists);
      MembersPush(lists, blocks, {block}, order, block);
      assert {block} - {block} == {};
      RegisterFreeBlock(block, order);
      RegisteredIs(start, old(Books()), block, order, Books());
      HeadersSpare(m0, mem, headers.Keys, blocks, {}, start, end);
    }

    /** Live allocations are aligned, inside the heap and pairwise disjoint. */
    lemma NoOverlap(a: nat, b: nat)
      requires Valid() && a in Live() && b in Live() && a != b
      ensures start <= a && a + Size(Live()[a]) <= end && Aligned(a, Live()[a])
      ensures a + Size(Live()[a]) <= b || b + Size(Live()[b]) <= a
    {
      Disjoint(blocks, start, end, a, b);
      BlockGood(blocks, start, end, a);
    }

    lemma LiveInRange(p: nat)
      requires Inv({}) && p in Live()
      ensures start <= p && p + Size(Live()[p]) <= end <= |mem|
      ensures p in blocks && blocks[p] == BlockInfo(Live()[p], false)
    {
      BlockGood(blocks, start, end, p);
    }

    lemma NullNotLive()
      requires Inv({})
      ensures 0 !in Live() && Live() - {0} == Live()
    {
      if 0 in Live() { BlockGood(blocks, start, end, 0); }
    }

    /** A client writes `data` into its allocation. */
    method Store(p: nat, offset: nat, data: seq<byte>)
      requires Valid() && p in Live() && offset + |data| <= Size(Live()[p])
      modifies `mem
      ensures Valid() && |mem| == old(|mem|) && p + offset + |data| <= |mem|
      ensures mem == old(mem)[..p + offset] + data + old(mem)[p + offset + |data|..]
      ensures Spares(old(mem), mem, Live() - {p}, start, end)
    {
      hide TableOk, Stored, OnlyHeaders, HeaderAt, ListsOk, Members, MapAgrees, Tiled, IdleOf, LiveOf, RemoveAt,
           Aligned, Spares, FlipBit, Key, Unlisted, Entry, Cut, Entered, Registered, TotalSize, Size;
      LiveInRange(p);
      ghost var m0 := mem;
      mem := mem[..p + offset] + data + mem[p + offset + |data|..];
      ClientWrite(m0, mem, headers, blocks, start, end, p, p + offset, |data|);
    }

    /** Grow an allocation.  When the block has to move, the old one is freed in the books that the new
        allocation has made.  A length above the largest block makes the source copy to address zero
        and free the block all the same. */
    method Reallocate(p: nat, oldLength: nat, newLength: nat) returns (r: nat, torn: bool)
      requires Valid()
      requires if p == 0 then oldLength == 0 else p in Live() && oldLength <= Size(Live()[p])
      requires 0 < newLength <= 0x40_0000 && (p == 0 || Size(Live()[p]) < newLength) ==> Fits(OrderFor(newLength))
      modifies this, table
      ensures !torn ==> Valid()
      ensures p == 0 ==> !torn
      ensures p == 0 && (newLength == 0 || newLength > 0x40_0000) ==> r == 0 && unchanged(this) && unchanged(table)
      ensures p != 0 && newLength <= Size(old(Live())[p]) ==> r == p && !torn && unchanged(this) && unchanged(table)
      ensures p == 0 && 0 < newLength <= 0x40_0000 ==>
        && r != 0 && r !in old(Live()) && newLength <= Size(OrderFor(newLength))
        && Live() == old(Live())[r := OrderFor(newLength)]
        && Spares(old(mem), mem, old(Live()), start, end)
        && (r, Books()) == Obtained(start, old(Books()), OrderFor(newLength))
        && Chosen(old(Books()), Books(), OrderFor(newLength), r)
      ensures p != 0 && Size(old(Live())[p]) < newLength <= 0x40_0000 ==>
        && r != 0 && r !in old(Live())
        && var o := Obtained(start, old(Books()), OrderFor(newLength));
          && r == o.0 && Chosen(old(Books()), o.1, OrderFor(newLength), r) && (torn <==> FreeTears(start, o.1, p))
          && (!torn ==>
               Books() == Freed(start, o.1, p) && Reclaims(o.1, Books(), p)
               && MovedTo(old(Live()), old(mem), p, oldLength, r, newLength, Live(), mem, start, end))
      ensures p != 0 && newLength > Size(old(Live())[p]) && newLength > 0x40_0000 ==>
        && r == 0 && p + oldLength <= old(|mem|) && (torn <==> FreeTears(start, old(Books()), p))
        && (!torn ==>
          && Books() == Freed(start, old(Books()), p) && Reclaims(old(Books()), Books(), p)
          && Live() == old(Live()) - {p} && Spares(Copy(old(mem), 0, p, oldLength), mem, Live(), start, end))
    {
      hide TableOk, Stored, OnlyHeaders, HeaderAt, ListsOk, Members, MapAgrees, Tiled, IdleOf, LiveOf, RemoveAt,
           Aligned, Spares, FlipBit, Key, Unlisted, Entry, Cut, Entered, Registered, TotalSize, Size, OrderFor, RoundUp,
           InLive, FreeTears, Copy, Obtained, Freed, Chosen, Reclaims;
      ghost var live, m0 := Live(), mem;
      torn := false;
      if p == 0 {
        NullNotLive();
        r := Allocate(newLength);
        return;
      }
      LiveInRange(p);
      AllKeyed({});
      KeyFinds(blockMap, blocks, start, p);
      var found, info := Find(Key(start, p));
      // the assertion "Attempt to reallocate unknown block"
      assert found;
      if newLength <= Size(info.order) {
        return p, false;
      }
      SizePositive(info.order);
      r := Allocate(newLength);
      if r == 0 {
        torn := Lose(p, oldLength);
        return;
      }
      SparedBytes(m0, mem, live, start, end, p, oldLength);
      SparesFewer(m0, mem, live, live - {p}, start, end);
      ghost var m1, e1 := mem, end;
      torn := Move(r, p, oldLength);
      if torn {
        return;
      }
      assert live[r := OrderFor(newLength)] - {r} - {p} == live - {p};
      SparesChain(m0, m1, mem, live - {p}, start, e1, end);
      assert live[r := OrderFor(newLength)] - {p} == (live - {p})[r := OrderFor(newLength)];
    }

    /** The end of reallocate: copy into the new block, then free the old one. */
    method Move(to: nat, from: nat, length: nat) returns (torn: bool)
      requires Valid() && to in Live() && from in Live() && to != from
      requires length <= Size(Live()[to]) && length <= Size(Live()[from])
      modifies this, table
      ensures torn <==> FreeTears(start, old(Books()), from)
      ensures !torn ==>
        && Valid() && end == old(end) && Live() == old(Live()) - {from} && Books() == Freed(start, old(Books()), from)
        && Reclaims(old(Books()), Books(), from)
        && to + length <= |mem| == old(|mem|) && from + length <= |mem|
        && mem[to..to + length] == old(mem)[from..from + length]
        && Spares(old(mem), mem, old(Live()) - {to} - {from}, start, end)
    {
      hide TableOk, Stored, OnlyHeaders, HeaderAt, ListsOk, Members, MapAgrees, Tiled, IdleOf, LiveOf, RemoveAt,
           Aligned, Spares, FlipBit, Key, Unlisted, Entry, Cut, Entered, Registered, TotalSize, Size, InLive, Copy,
           FreeTears, Freed, Reclaims;
      ghost var live, m0 := Live(), mem;
      LiveInRange(to);
      LiveInRange(from);
      mem := Copy(mem, to, from, length);
      ghost var m1 := mem;
      ClientWrite(m0, m1, headers, blocks, start, end, to, to, length);
      SparesFewer(m0, m1, live - {to}, live - {to} - {from}, start, end);
      NullNotLive();
      torn := Free(from);
      if torn {
        return;
      }
      SparedBytes(m1, mem, Live(), start, end, to, length);
      SparesFewer(m1, mem, Live(), live - {to} - {from}, start, end);
      SparesChain(m0, m1, mem, live - {to} - {from}, start, end, end);
    }

    /** The end of reallocate when there is no new block: the copy goes to address zero. */
    method Lose(from: nat, length: nat) returns (torn: bool)
      requires Valid() && from in Live() && length <= Size(Live()[from])
      modifies this, table
      ensures torn <==> FreeTears(start, old(Books()), from)
      ensures from + length <= old(|mem|)
      ensures !torn ==>
        && Valid() && end == old(end) && Live() == old(Live()) - {from} && Books() == Freed(start, old(Books()), from)
        && Reclaims(old(Books()), Books(), from)
        && Spares(Copy(old(mem), 0, from, length), mem, Live(), start, end)
    {
      hide TableOk, Stored, OnlyHeaders, HeaderAt, ListsOk, Members, MapAgrees, Tiled, IdleOf, LiveOf, RemoveAt,
           Aligned, Spares, FlipBit, Key, Unlisted, Entry, Cut, Entered, Registered, TotalSize, Size, InLive, Copy,
           FreeTears, Freed, Reclaims;
      LiveInRange(from);
      BelowHeap(from, length);
      LowWrite(mem, headers, blocks, start, end, from, length);
      mem := Copy(mem, 0, from, length);
      NullNotLive();
      torn := Free(from);
    }

    lemma SizeBound(p: nat)
      requires Inv({}) && p in Live()
      ensures p in blocks && Size(blocks[p].order) <= 0x40_0000
    {
      hide TableOk, Stored, ListsOk, Members, MapAgrees, Tiled, Aligned, Pow2;
      BlockGood(blocks, start, end, p);
      Pow2Values();
      Pow2Mono(blocks[p].order, MAX_ORDER);
    }

    lemma LiveAbove()
      requires Inv({})
      ensures forall q :: q in Live() ==> start <= q
    {
      hide TableOk, Stored, ListsOk, Members, MapAgrees, Tiled, Aligned, Pow2;
      forall q | q in Live() ensures start <= q { BlockGood(blocks, start, end, q); }
    }

    /** What the block map says of a live block. */
    method BlockSize(p: nat) returns (size: nat)
      requires Valid() && p in Live()
      ensures p in blocks && size == Size(blocks[p].order)
    {
      hide TableOk, Stored, ListsOk, Members, MapAgrees, Tiled, Aligned, Key, Size, TotalSize;
      LiveInRange(p);
      AllKeyed({});
      KeyFinds(blockMap, blocks, start, p);
      var found, info := Find(Key(start, p));
      size := Size(info.order);
    }

    /** No allocation is longer than the memory below the heap. */
    lemma BelowHeap(p: nat, length: nat)
      requires Inv({}) && p in Live() && length <= Size(Live()[p])
      ensures length <= start
    {
      hide TableOk, Stored, ListsOk, Members, MapAgrees, Tiled, Aligned, Pow2;
      BlockGood(blocks, start, end, p);
      SmallBlock(start, blocks[p].order, MAX_ORDER);
    }
  }

  lemma SmallBlock(start: nat, order: nat, n: nat)
    requires 0 < start && Aligned(start, n) && order <= n
    ensures Size(order) <= start
  {
    Pow2Mono(order, n);
    AlignedIsMultiple(start, n);
    var q := start / Pow2(n);
    if q > 0 { MulMonotone(Pow2(n), 1, q); }
  }

  lemma SizePositive(order: nat)
    ensures Size(order) > 0
  {
  }

  lemma EmptyHeap(m: seq<byte>, start: nat)
    ensures Tiled(map[], start, start) && Stored(m, map[]) && IdleOf(map[], {}) == {} && LiveOf(map[], {}) == map[]
    ensures TotalSize(map[]) == 0
    ensures ListsOk(map[], seq(MAX_ORDER - MIN_ORDER + 1, _ => 0), NoLists(MAX_ORDER))
    ensures Members(NoLists(MAX_ORDER), map[], {})
    ensures MapAgrees(map[], map[], start)
  {
  }

  lemma TableSlots()
    ensures PowerOfTwo(512)
  {
    assert Pow2(9) == 512;
  }

  /** Writes below the heap leave its headers alone. */
  lemma LowWrite(m: seq<byte>, hs: Headers, bs: Blocks, start: nat, end: nat, from: nat, n: nat)
    requires Tiled(bs, start, end) && Stored(m, hs) && hs.Keys == IdleOf(bs, {}) && n <= start && n <= |m|
    requires from + n <= |m|
    ensures Stored(Copy(m, 0, from, n), hs) && |Copy(m, 0, from, n)| == |m|
  {
    hide Tiled, Size, HeaderAt;
    var m' := Copy(m, 0, from, n);
    forall b | b in hs ensures HeaderAt(m', b) == HeaderAt(m, b)
    {
      BlockGood(bs, start, end, b);
      StoredHeader(m, hs, b);
      HeaderKept(m, m', b);
    }
  }
}
