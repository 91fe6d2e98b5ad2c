/** The boot loader's construction of the frame blocks from the kernel's memory map. */
module FrameBlocks {
  import opened Bits
  import opened Common
  import opened Words
  import opened Frames
  import opened MemoryMap

  const FULL := TWO_64 - 1

  /** A frame block under construction; `at` is the index of its first bitmap word. */
  datatype RawBlock = RawBlock(flags: nat, base: nat, count: nat, map1: nat, map2: seq<nat>, at: nat)

  function BitmapSize(frames: nat): nat { (frames + 63) / 64 }

  function NumBlocks(frames: nat): nat { (frames + (FRAMES_PER_BLOCK - 1)) / FRAMES_PER_BLOCK }

  /** What the loops compute for the first pass. */
  function TotalBlocks(kmap: seq<Entry>): nat
  {
    if kmap == [] then 0
    else
      var e := kmap[|kmap| - 1];
      TotalBlocks(kmap[..|kmap| - 1]) + if e.kind == Available then NumBlocks(e.pages) else 0
  }

  function TotalWords(kmap: seq<Entry>): nat
  {
    if kmap == [] then 0
    else
      var e := kmap[|kmap| - 1];
      TotalWords(kmap[..|kmap| - 1]) + if e.kind == Available then BitmapSize(e.pages) else 0
  }

  /** The low `k` bytes of a word, all ones. */
  function LowBytes(k: nat): nat
    requires k <= 8
  {
    if k == 8 then FULL else Pow2(8 * k) - 1
  }

  /** Filling the first `bytes` bytes of 64 zero words with ones. */
  function FillBytes(bytes: nat): (r: seq<nat>)
    ensures |r| == 64
  {
    seq(64, i requires 0 <= i => LowBytes(if bytes >= 8 * i + 8 then 8 else if bytes > 8 * i then bytes - 8 * i else 0))
  }

  function FullBlock(flags: nat, base: nat): RawBlock
  {
    RawBlock(flags, base, FRAMES_PER_BLOCK, FULL, FillBytes(512), 0)
  }

  /** The last, partial block of a range.  Shift counts are taken modulo 64; the second-level fill
      is given words where bytes are meant; an index of 64 lands in the bitmap pointer, which is
      set afterwards. */
  function TailBlock(flags: nat, base: nat, count: nat): RawBlock
    requires 0 < count < FRAMES_PER_BLOCK
  {
    var b1 := (count + 4095) / 4096;
    var b2 := (count + 63) / 64;
    var q, r := b2 / 64, b2 % 64;
    var map2 := FillBytes(q);
    RawBlock(flags, base, count, Pow2(b1 % 64) - 1, if q < 64 then map2[q := Pow2(r) - 1] else map2, 0)
  }

  /** The blocks of one range of free memory. */
  function EntryBlocks(flags: nat, base: nat, pages: nat): seq<RawBlock>
    decreases pages
  {
    if pages == 0 then []
    else if pages < FRAMES_PER_BLOCK then [TailBlock(flags, base, pages)]
    else [FullBlock(flags, base)] + EntryBlocks(flags, PageAddress(base, FRAMES_PER_BLOCK), pages - FRAMES_PER_BLOCK)
  }

  function AllBlocks(kmap: seq<Entry>): seq<RawBlock>
  {
    if kmap == [] then []
    else
      var e := kmap[|kmap| - 1];
      AllBlocks(kmap[..|kmap| - 1]) + if e.kind == Available then EntryBlocks(e.attr, e.start, e.pages) else []
  }

  lemma {:induction false} EntryFlags(flags: nat, base: nat, pages: nat)
    ensures forall b :: b in EntryBlocks(flags, base, pages) ==> b.flags == flags
    decreases pages
  {
    hide FullBlock, TailBlock, PageAddress;
    FlagsOnly(flags, base, pages);
    if pages >= FRAMES_PER_BLOCK {
      EntryFlags(flags, PageAddress(base, FRAMES_PER_BLOCK), pages - FRAMES_PER_BLOCK);
    }
  }

  lemma FlagsOnly(flags: nat, base: nat, pages: nat)
    ensures FullBlock(flags, base).flags == flags
    ensures 0 < pages < FRAMES_PER_BLOCK ==> TailBlock(flags, base, pages).flags == flags
  {
  }

  /** The block is one of a free entry's, and has its attributes. */
  predicate BlockOf(e: Entry, b: RawBlock)
  {
    e.kind == Available && b.flags == e.attr && b in EntryBlocks(e.attr, e.start, e.pages)
  }

  /** Every block has the attributes of the free entry it is made of. */
  lemma {:induction false} BlockFlags(kmap: seq<Entry>, b: RawBlock)
    requires b in AllBlocks(kmap)
    ensures exists i :: 0 <= i < |kmap| && BlockOf(kmap[i], b)
  {
    hide EntryBlocks;
    var last := |kmap| - 1;
    if b in AllBlocks(kmap[..last]) {
      BlockFlags(kmap[..last], b);
      var i :| 0 <= i < last && BlockOf(kmap[..last][i], b);
      assert kmap[..last][i] == kmap[i];
    } else {
      EntryFlags(kmap[last].attr, kmap[last].start, kmap[last].pages);
      assert BlockOf(kmap[last], b);
    }
  }

  /** The second pass makes as many blocks of a range as the first pass counted. */
  lemma {:induction false} EntryBlockCount(flags: nat, base: nat, pages: nat)
    ensures |EntryBlocks(flags, base, pages)| == NumBlocks(pages)
    decreases pages
  {
    hide TailBlock, FullBlock, PageAddress;
    if pages >= FRAMES_PER_BLOCK {
      EntryBlockCount(flags, PageAddress(base, FRAMES_PER_BLOCK), pages - FRAMES_PER_BLOCK);
    }
  }

  lemma {:induction false} AllBlockCount(kmap: seq<Entry>)
    ensures |AllBlocks(kmap)| == TotalBlocks(kmap)
  {
    hide NumBlocks;
    if kmap != [] {
      var e := kmap[|kmap| - 1];
      AllBlockCount(kmap[..|kmap| - 1]);
      EntryBlockCount(e.attr, e.start, e.pages);
    }
  }

  function WordsOf(blocks: seq<RawBlock>): nat
  {
    if blocks == [] then 0 else WordsOf(blocks[..|blocks| - 1]) + BitmapSize(blocks[|blocks| - 1].count)
  }

  lemma {:induction false} WordsAppend(a: seq<RawBlock>, b: seq<RawBlock>)
    ensures WordsOf(a + b) == WordsOf(a) + WordsOf(b)
  {
    hide BitmapSize;
    if b == [] {
      assert a + b == a;
    } else {
      assert (a + b)[..|a + b| - 1] == a + b[..|b| - 1];
      WordsAppend(a, b[..|b| - 1]);
    }
  }

  /** The bitmaps of a range's blocks take as many words as the first pass counted. */
  lemma {:induction false} EntryWordCount(flags: nat, base: nat, pages: nat)
    ensures WordsOf(EntryBlocks(flags, base, pages)) == BitmapSize(pages)
    decreases pages
  {
    hide TailBlock, FullBlock, PageAddress;
    if pages >= FRAMES_PER_BLOCK {
      var first, rest := FullBlock(flags, base),
        EntryBlocks(flags, PageAddress(base, FRAMES_PER_BLOCK), pages - FRAMES_PER_BLOCK);
      EntryWordCount(flags, PageAddress(base, FRAMES_PER_BLOCK), pages - FRAMES_PER_BLOCK);
      WordsAppend([first], rest);
      OneBlock(first);
      FullCount(flags, base);
    } else if pages > 0 {
      OneBlock(TailBlock(flags, base, pages));
      TailCount(flags, base, pages);
    }
  }

  lemma OneBlock(b: RawBlock)
    ensures WordsOf([b]) == BitmapSize(b.count)
  {
    assert [b][..0] == [];
  }

  lemma FullCount(flags: nat, base: nat)
    ensures FullBlock(flags, base).count == FRAMES_PER_BLOCK && FullBlock(flags, base).base == base
  {
    hide FillBytes;
  }

  lemma TailCount(flags: nat, base: nat, count: nat)
    requires 0 < count < FRAMES_PER_BLOCK
    ensures TailBlock(flags, base, count).count == count && TailBlock(flags, base, count).base == base
  {
    hide FillBytes;
  }

  lemma {:induction false} AllWordCount(kmap: seq<Entry>)
    ensures WordsOf(AllBlocks(kmap)) == TotalWords(kmap)
  {
    hide BitmapSize, EntryBlocks;
    if kmap != [] {
      var e := kmap[|kmap| - 1];
      var init := AllBlocks(kmap[..|kmap| - 1]);
      AllWordCount(kmap[..|kmap| - 1]);
      EntryWordCount(e.attr, e.start, e.pages);
      WordsAppend(init, EntryBlocks(e.attr, e.start, e.pages));
      assert init + [] == init;
    }
  }

  /** Addresses of the frames of a run of blocks, in order. */
  function BlockFrames(blocks: seq<RawBlock>): seq<nat>
  {
    if blocks == [] then [] else Addresses(blocks[0].base, blocks[0].count) + BlockFrames(blocks[1..])
  }

  function Addresses(base: nat, count: nat): (r: seq<nat>)
    ensures |r| == count
  {
    seq(count, k requires 0 <= k => PageAddress(base, k))
  }

  /** Addresses of the free pages of a kernel map, in order. */
  function FreePages(kmap: seq<Entry>): seq<nat>
  {
    if kmap == [] then []
    else
      var e := kmap[|kmap| - 1];
      FreePages(kmap[..|kmap| - 1]) + if e.kind == Available then Addresses(e.start, e.pages) else []
  }

  lemma {:induction false} FramesAppend(a: seq<RawBlock>, b: seq<RawBlock>)
    ensures BlockFrames(a + b) == BlockFrames(a) + BlockFrames(b)
  {
    hide Addresses;
    if a == [] {
      assert a + b == b;
    } else {
      assert (a + b)[1..] == a[1..] + b;
      FramesAppend(a[1..], b);
      assert BlockFrames(a + b) == Addresses(a[0].base, a[0].count) + (BlockFrames(a[1..]) + BlockFrames(b));
    }
  }

  lemma AddressesJoin(base: nat, count: nat, more: nat)
    ensures Addresses(base, count) + Addresses(PageAddress(base, count), more) == Addresses(base, count + more)
  {
    var l, r := Addresses(base, count) + Addresses(PageAddress(base, count), more), Addresses(base, count + more);
    forall k | 0 <= k < |r| ensures l[k] == r[k]
    {
      if k >= count { Continues(base, count, k - count); }
    }
  }

  lemma {:induction false} EntryFrames(flags: nat, base: nat, pages: nat)
    ensures BlockFrames(EntryBlocks(flags, base, pages)) == Addresses(base, pages)
    decreases pages
  {
    hide TailBlock, FullBlock, PageAddress, Addresses;
    if pages == 0 {
      assert Addresses(base, pages) == [];
    } else if pages >= FRAMES_PER_BLOCK {
      var next := PageAddress(base, FRAMES_PER_BLOCK);
      var first, rest := FullBlock(flags, base), EntryBlocks(flags, next, pages - FRAMES_PER_BLOCK);
      EntryFrames(flags, next, pages - FRAMES_PER_BLOCK);
      FullCount(flags, base);
      AddressesJoin(base, FRAMES_PER_BLOCK, pages - FRAMES_PER_BLOCK);
      assert ([first] + rest)[1..] == rest;
    } else {
      var tail := TailBlock(flags, base, pages);
      TailCount(flags, base, pages);
      assert [tail][1..] == [];
      assert BlockFrames([tail]) == Addresses(base, pages) + [];
    }
  }

  /** The blocks hold exactly the free pages of the map, each once and in order. */
  lemma {:induction false} BlocksCoverFreePages(kmap: seq<Entry>)
    ensures BlockFrames(AllBlocks(kmap)) == FreePages(kmap)
  {
    hide EntryBlocks, Addresses;
    if kmap != [] {
      var e := kmap[|kmap| - 1];
      var init := AllBlocks(kmap[..|kmap| - 1]);
      BlocksCoverFreePages(kmap[..|kmap| - 1]);
      if e.kind == Available {
        EntryFrames(e.attr, e.start, e.pages);
        FramesAppend(init, EntryBlocks(e.attr, e.start, e.pages));
      } else {
        assert init + [] == init && FreePages(kmap[..|kmap| - 1]) + [] == FreePages(kmap[..|kmap| - 1]);
      }
    }
  }

  method CountPass(kmap: seq<Entry>) returns (blocks: nat, bytes: nat)
    ensures blocks == TotalBlocks(kmap) && bytes == TotalWords(kmap) * 8
  {
    hide NumBlocks, BitmapSize;
    blocks, bytes := 0, 0;
    for i := 0 to |kmap|
      invariant blocks == TotalBlocks(kmap[..i]) && bytes == TotalWords(kmap[..i]) * 8
    {
      assert kmap[..i + 1][..i] == kmap[..i];
      if kmap[i].kind != Available {
        continue;
      }
      blocks := blocks + NumBlocks(kmap[i].pages);
      bytes := bytes + BitmapSize(kmap[i].pages) * 8;
    }
    assert kmap[..|kmap|] == kmap;
  }

  /** Fill in the blocks of one range. */
  method FillEntry(blocks: array<RawBlock>, start: nat, e: Entry) returns (next: nat)
    requires start + NumBlocks(e.pages) <= blocks.Length
    modifies blocks
    ensures next == start + NumBlocks(e.pages)
    ensures blocks[..next] == old(blocks[..start]) + EntryBlocks(e.attr, e.start, e.pages)
  {
    hide TailBlock, FullBlock, PageAddress;
    next := start;
    var pages: nat := e.pages;
    var base := e.start;
    ghost var made: seq<RawBlock> := [];
    while pages > 0
      invariant start <= next && next + NumBlocks(pages) == start + NumBlocks(e.pages)
      invariant blocks[..next] == old(blocks[..start]) + made
      invariant made + EntryBlocks(e.attr, base, pages) == EntryBlocks(e.attr, e.start, e.pages)
      decreases pages
    {
      ghost var was, kept := blocks[..next], made;
      if pages >= FRAMES_PER_BLOCK {
        blocks[next] := FullBlock(e.attr, base);
        made := made + [blocks[next]];
        base, pages := PageAddress(base, FRAMES_PER_BLOCK), pages - FRAMES_PER_BLOCK;
      } else {
        blocks[next] := TailBlock(e.attr, base, pages);
        made := made + [blocks[next]];
        pages := 0;
      }
      assert made + EntryBlocks(e.attr, base, pages) == kept + ([blocks[next]] + EntryBlocks(e.attr, base, pages));
      next := next + 1;
      assert blocks[..next] == was + [blocks[next - 1]];
    }
    assert EntryBlocks(e.attr, base, 0) == [] && made + [] == made;
  }

  method FillPass(kmap: seq<Entry>, blocks: array<RawBlock>) returns (next: nat)
    requires blocks.Length == TotalBlocks(kmap)
    modifies blocks
    ensures next == blocks.Length && blocks[..] == AllBlocks(kmap)
  {
    hide NumBlocks, EntryBlocks;
    next := 0;
    for i := 0 to |kmap|
      invariant next == TotalBlocks(kmap[..i]) && next <= blocks.Length && blocks[..next] == AllBlocks(kmap[..i])
    {
      assert kmap[..i + 1][..i] == kmap[..i];
      BlocksMonotone(kmap, i + 1);
      if kmap[i].kind != Available {
        continue;
      }
      next := FillEntry(blocks, next, kmap[i]);
    }
    assert kmap[..|kmap|] == kmap;
  }

  lemma {:induction false} BlocksMonotone(kmap: seq<Entry>, i: nat)
    requires i <= |kmap|
    ensures TotalBlocks(kmap[..i]) <= TotalBlocks(kmap)
  {
    hide NumBlocks;
    if i < |kmap| {
      var init := kmap[..|kmap| - 1];
      BlocksMonotone(init, i);
      assert init[..i] == kmap[..i];
    } else {
      assert kmap[..i] == kmap;
    }
  }

  /** The bitmap of a block with `count` frames, all free. */
  function BitmapWords(count: nat): (r: seq<nat>)
    ensures |r| == BitmapSize(count)
  {
    seq(BitmapSize(count), j requires 0 <= j => BitmapWord(count, j))
  }

  function BitmapWord(count: nat, j: nat): nat
  {
    if j < count / 64 then FULL else Pow2(count % 64) - 1
  }

  function Bitmaps(blocks: seq<RawBlock>): (r: seq<nat>)
    ensures |r| == WordsOf(blocks)
  {
    if blocks == [] then [] else Bitmaps(blocks[..|blocks| - 1]) + BitmapWords(blocks[|blocks| - 1].count)
  }

  /** Where each block's bitmap starts. */
  function Located(blocks: seq<RawBlock>): (r: seq<RawBlock>)
    ensures |r| == |blocks|
  {
    seq(|blocks|, i requires 0 <= i < |blocks| => blocks[i].(at := WordsOf(blocks[..i])))
  }

  /** Write one bitmap: whole words of ones, then the word with the rest.  When nothing is left over
      that word is the one after the bitmap. */
  method FillBitmap(words: array<nat>, at: nat, count: nat)
    requires at + BitmapSize(count) < words.Length
    modifies words
    ensures words[..at] == old(words[..at]) && words[at..at + BitmapSize(count)] == BitmapWords(count)
    ensures words[at + BitmapSize(count)] == if count % 64 == 0 then 0 else old(words[at + BitmapSize(count)])
    ensures words[at + BitmapSize(count) + 1..] == old(words[at + BitmapSize(count) + 1..])
  {
    hide Pow2;
    var b, r := count / 64, count % 64;
    for j := 0 to b
      invariant words[..at] == old(words[..at]) && words[at + b..] == old(words[at + b..])
      invariant forall k :: at <= k < at + j ==> words[k] == FULL
    {
      words[at + j] := FULL;
    }
    words[at + b] := PowerLess(r);
    var w := words[at..at + BitmapSize(count)];
    forall j | 0 <= j < |w| ensures w[j] == BitmapWords(count)[j]
    {
      assert w[j] == words[at + j];
    }
    ghost var s := at + BitmapSize(count);
    assert forall k :: s + 1 <= k < words.Length ==> words[k] == old(words[at + b..])[k - at - b];
    assert count % 64 != 0 ==> words[s] == old(words[at + b..])[s - at - b];
    assert words[s + 1..] == old(words[s + 1..]);
  }

  function PowerLess(r: nat): (v: nat)
    ensures v == Pow2(r) - 1 && (r == 0 ==> v == 0)
  {
    Pow2(r) - 1
  }

  /** Lay out and write all bitmaps.  The word after the last one is cleared when the last block's
      frames fill whole words. */
  method BitmapPass(blocks: array<RawBlock>, words: array<nat>)
    requires words.Length == WordsOf(blocks[..]) + 1 && forall i :: 0 <= i < blocks.Length ==> blocks[i].count > 0
    modifies blocks, words
    ensures blocks[..] == Located(old(blocks[..]))
    ensures words[..words.Length - 1] == Bitmaps(old(blocks[..]))
    ensures words[words.Length - 1] ==
      if blocks.Length > 0 && old(blocks[blocks.Length - 1]).count % 64 == 0 then 0 else old(words[words.Length - 1])
  {
    hide WordsOf, BitmapSize, Bitmaps, BitmapWords;
    ghost var made, last := blocks[..], words.Length - 1;
    var bitmap := 0;
    NoWords(made);
    for i := 0 to blocks.Length
      invariant bitmap == WordsOf(made[..i]) && bitmap <= last && words.Length == WordsOf(made) + 1
      invariant forall k :: 0 <= k < blocks.Length ==> blocks[k] == if k < i then Located(made)[k] else made[k]
      invariant words[..bitmap] == Bitmaps(made[..i])
      invariant words[last] == if 0 < i == blocks.Length && made[i - 1].count % 64 == 0 then 0
        else old(words[words.Length - 1])
    {
      WordsStep(made, i);
      blocks[i] := blocks[i].(at := bitmap);
      ghost var was, next := words[..], bitmap + BitmapSize(made[i].count);
      FillBitmap(words, bitmap, blocks[i].count);
      assert words[..next] == words[..bitmap] + words[bitmap..next];
      assert next < last ==> words[last] == words[next + 1..][last - next - 1];
      assert next < last ==> was[last] == was[next + 1..][last - next - 1];
      bitmap := bitmap + BitmapSize(blocks[i].count);
    }
    assert made[..blocks.Length] == made;
    assert blocks[..] == Located(made);
  }

  lemma NoWords(blocks: seq<RawBlock>)
    ensures WordsOf(blocks[..0]) == 0 && Bitmaps(blocks[..0]) == []
  {
  }

  lemma WordsStep(blocks: seq<RawBlock>, i: nat)
    requires i < |blocks| && forall k :: 0 <= k < |blocks| ==> blocks[k].count > 0
    ensures WordsOf(blocks[..i + 1]) == WordsOf(blocks[..i]) + BitmapSize(blocks[i].count)
    ensures Bitmaps(blocks[..i + 1]) == Bitmaps(blocks[..i]) + BitmapWords(blocks[i].count)
    ensures WordsOf(blocks[..i + 1]) <= WordsOf(blocks)
    ensures i + 1 < |blocks| <==> WordsOf(blocks[..i + 1]) < WordsOf(blocks)
  {
    hide WordsOf, Bitmaps, BitmapWords, BitmapSize;
    LastWords(blocks[..i + 1]);
    assert blocks[..i + 1][..i] == blocks[..i];
    assert blocks == blocks[..i + 1] + blocks[i + 1..];
    WordsAppend(blocks[..i + 1], blocks[i + 1..]);
    SomeWords(blocks[i + 1..]);
  }

  lemma LastWords(blocks: seq<RawBlock>)
    requires blocks != []
    ensures var last := |blocks| - 1;
      && WordsOf(blocks) == WordsOf(blocks[..last]) + BitmapSize(blocks[last].count)
      && Bitmaps(blocks) == Bitmaps(blocks[..last]) + BitmapWords(blocks[last].count)
  {
    hide BitmapWords, BitmapSize;
  }

  lemma SomeWords(blocks: seq<RawBlock>)
    requires forall k :: 0 <= k < |blocks| ==> blocks[k].count > 0
    ensures WordsOf(blocks) > 0 <==> blocks != []
  {
  }

  /** A block as the kernel receives it. */
  function Finish(raw: RawBlock, words: seq<nat>): Block
    requires raw.at + BitmapSize(raw.count) <= |words|
  {
    Block(raw.base, raw.count, raw.map1, raw.map2, words[raw.at..raw.at + BitmapSize(raw.count)])
  }

  /** Every block's bitmap ends up with exactly its first `count` bits set. */
  lemma BitmapIsExact(b: Block, f: nat)
    requires b.bitmap == BitmapWords(b.count)
    ensures IsFree(b, f) <==> f < b.count
  {
    hide Bit, Pow2;
    if f / 64 < |b.bitmap| {
      if f / 64 < b.count / 64 {
        FullWord(FULL);
      } else {
        MaskBit(b.count % 64, f % 64);
      }
    }
  }

  lemma BitmapPresent(count: nat, j: nat)
    requires count > 0
    ensures Present(BitmapWords(count), j) <==> j < BitmapSize(count)
  {
    hide Pow2;
    if j < BitmapSize(count) && j >= count / 64 {
      Pow2Mono(1, count % 64);
      assert Pow2(1) == 2 by { TwoToOne(); }
    }
  }

  lemma TwoToOne()
    ensures Pow2(1) == 2
  {
    assert Pow2(0) == 1;
  }

  /** The summary words of a block, with the bitmap that the last pass gives it. */
  function Complete(raw: RawBlock): Block
  {
    Block(raw.base, raw.count, raw.map1, raw.map2, BitmapWords(raw.count))
  }

  lemma LowBytesBit(k: nat, i: nat)
    requires k <= 8 && i < 64
    ensures Bit(LowBytes(k), i) <==> i < 8 * k
  {
    hide Bit, Pow2;
    if k == 8 { FullWord(FULL); } else { MaskBit(8 * k, i); }
  }

  /** What the frame allocator relies on: the summaries are right exactly for full blocks and for
      partial blocks of at most 4032 frames. */
  lemma TailSummary(flags: nat, base: nat, count: nat)
    requires 0 < count < FRAMES_PER_BLOCK
    ensures Summary(Complete(TailBlock(flags, base, count))) <==> count <= 4032
  {
    if count <= 4032 {
      SmallTail(flags, base, count);
    } else {
      LargeTail(flags, base, count);
    }
  }

  lemma SmallTail(flags: nat, base: nat, count: nat)
    requires 0 < count <= 4032
    ensures Summary(Complete(TailBlock(flags, base, count)))
  {
    hide Bit, Pow2, BitmapWords, BitmapWord, LowBytes, Present;
    var b := Complete(TailBlock(flags, base, count));
    var n := BitmapSize(count);
    assert (count + 4095) / 4096 == 1 && n <= 63;
    TailShape(flags, base, count);
    TwoToOne();
    Pow2Mono(1, n);
    assert b.map1 == Pow2(1) - 1 && b.map2[0] == Pow2(n) - 1;
    forall i | 0 < i < 64 ensures b.map2[i] == 0
    {
      assert b.map2[i] == LowBytes(0);
      NoBytes();
    }
    forall i | 0 <= i < 64 ensures TopAt(b, i)
    {
      MaskBit(1, i);
    }
    forall o1, o2 | 0 <= o1 < 64 && 0 <= o2 < 64 ensures MiddleAt(b, o1, o2)
    {
      BitmapPresent(count, 64 * o1 + o2);
      MaskBit(n, o2);
      ZeroBits(o2);
    }
  }

  lemma NoBytes()
    ensures LowBytes(0) == 0
  {
  }

  lemma LargeTail(flags: nat, base: nat, count: nat)
    requires 4032 < count < FRAMES_PER_BLOCK
    ensures !Summary(Complete(TailBlock(flags, base, count)))
  {
    hide Bit, Pow2, BitmapWords, BitmapWord, LowBytes, Present;
    var b := Complete(TailBlock(flags, base, count));
    var q := BitmapSize(count) / 64;
    TailShape(flags, base, count);
    assert 1 <= q <= 64;
    var k := if q == 1 then 1 else 0;
    assert b.map2[q - 1] == LowBytes(k);
    LowBytesBit(k, 63);
    BitmapPresent(count, 64 * (q - 1) + 63);
    assert !MiddleAt(b, q - 1, 63);
  }

  /** All words of a block under construction fit 64 bits. */
  lemma TailShape(flags: nat, base: nat, count: nat)
    requires 0 < count < FRAMES_PER_BLOCK
    ensures Shaped(Complete(TailBlock(flags, base, count)))
  {
    hide Pow2;
    var raw := TailBlock(flags, base, count);
    var n := Width();
    Pow2Mono((count + 4095) / 4096 % 64, n);
    Pow2Mono((count + 63) / 64 % 64, n);
    FillIsWords((count + 63) / 64 / 64);
    BitmapIsWords(count);
  }

  lemma FillIsWords(bytes: nat)
    ensures forall i :: 0 <= i < 64 ==> IsWord(FillBytes(bytes)[i])
  {
    hide Pow2;
    var n := Width();
    forall i | 0 <= i < 64 ensures IsWord(FillBytes(bytes)[i])
    {
      var k := if bytes >= 8 * i + 8 then 8 else if bytes > 8 * i then bytes - 8 * i else 0;
      Pow2Mono(8 * k, n);
    }
  }

  lemma BitmapIsWords(count: nat)
    ensures forall j :: 0 <= j < |BitmapWords(count)| ==> IsWord(BitmapWords(count)[j])
  {
    hide Pow2;
    var n := Width();
    Pow2Mono(count % 64, n);
  }

  lemma FullSummary(flags: nat, base: nat)
    ensures Summary(Complete(FullBlock(flags, base)))
  {
    hide Bit, Pow2, BitmapWords, BitmapWord, Present;
    var b := Complete(FullBlock(flags, base));
    FillIsWords(512);
    BitmapIsWords(FRAMES_PER_BLOCK);
    FullWord(FULL);
    forall i | 0 <= i < 64 ensures b.map2[i] == FULL && TopAt(b, i)
    {
    }
    forall o1, o2 | 0 <= o1 < 64 && 0 <= o2 < 64 ensures MiddleAt(b, o1, o2)
    {
      BitmapPresent(FRAMES_PER_BLOCK, 64 * o1 + o2);
    }
  }

  lemma {:induction false} BitmapOf(blocks: seq<RawBlock>, i: nat)
    requires i < |blocks|
    ensures WordsOf(blocks[..i]) + BitmapSize(blocks[i].count) <= WordsOf(blocks)
    ensures Bitmaps(blocks)[WordsOf(blocks[..i])..WordsOf(blocks[..i]) + BitmapSize(blocks[i].count)] ==
      BitmapWords(blocks[i].count)
  {
    hide BitmapSize, BitmapWords, WordsOf, Bitmaps;
    var last := |blocks| - 1;
    LastWords(blocks);
    if i < last {
      BitmapOf(blocks[..last], i);
      assert blocks[..last][..i] == blocks[..i];
    }
  }

  /** Frames per block, each block one of the two kinds. */
  predicate Kinds(raw: RawBlock)
  {
    || raw == FullBlock(raw.flags, raw.base)
    || (0 < raw.count < FRAMES_PER_BLOCK && raw == TailBlock(raw.flags, raw.base, raw.count))
  }

  lemma {:induction false} EntryKinds(flags: nat, base: nat, pages: nat)
    ensures forall i :: 0 <= i < |EntryBlocks(flags, base, pages)| ==> Kinds(EntryBlocks(flags, base, pages)[i])
    decreases pages
  {
    hide FillBytes, PageAddress;
    if pages >= FRAMES_PER_BLOCK {
      EntryKinds(flags, PageAddress(base, FRAMES_PER_BLOCK), pages - FRAMES_PER_BLOCK);
    }
  }

  lemma {:induction false} AllKinds(kmap: seq<Entry>)
    ensures forall i :: 0 <= i < |AllBlocks(kmap)| ==> Kinds(AllBlocks(kmap)[i])
  {
    hide Kinds, EntryBlocks;
    if kmap != [] {
      var e := kmap[|kmap| - 1];
      AllKinds(kmap[..|kmap| - 1]);
      EntryKinds(e.attr, e.start, e.pages);
    }
  }

  lemma KindCount(raw: RawBlock)
    requires Kinds(raw)
    ensures 0 < raw.count <= FRAMES_PER_BLOCK && Complete(raw).count == raw.count && Complete(raw).base == raw.base
    ensures Summary(Complete(raw)) <==> raw.count == FRAMES_PER_BLOCK || raw.count <= 4032
  {
    hide FillBytes, Summary;
    if raw == FullBlock(raw.flags, raw.base) {
      FullSummary(raw.flags, raw.base);
    } else {
      TailSummary(raw.flags, raw.base, raw.count);
    }
  }

  function Completed(raws: seq<RawBlock>): (r: seq<Block>)
    ensures |r| == |raws|
  {
    seq(|raws|, i requires 0 <= i < |raws| => Complete(raws[i]))
  }

  /** A block as it reaches the kernel: all its frames free, and the summaries right exactly when
      it is full or small. */
  ghost predicate Handed(b: Block)
  {
    && 0 < b.count <= FRAMES_PER_BLOCK && |b.bitmap| == BitmapSize(b.count)
    && (forall f: nat :: IsFree(b, f) <==> f < b.count)
    && (Summary(b) <==> b.count == FRAMES_PER_BLOCK || b.count <= 4032)
  }

  lemma CompleteHanded(raw: RawBlock)
    requires Kinds(raw)
    ensures Handed(Complete(raw))
  {
    hide Summary, IsFree, Kinds;
    KindCount(raw);
    forall f: nat ensures IsFree(Complete(raw), f) <==> f < raw.count
    {
      BitmapIsExact(Complete(raw), f);
    }
  }

  /** Addresses of the frames of finished blocks, in order. */
  function Coverage(blocks: seq<Block>): seq<nat>
  {
    if blocks == [] then [] else Addresses(blocks[0].base, blocks[0].count) + Coverage(blocks[1..])
  }

  lemma {:induction false} CoverageSame(raws: seq<RawBlock>)
    ensures Coverage(Completed(raws)) == BlockFrames(raws)
  {
    hide Addresses, BitmapWords;
    if raws != [] {
      CoverageSame(raws[1..]);
      assert Completed(raws)[1..] == Completed(raws[1..]);
    }
  }

  /** The three passes: count, fill in, lay out.  The counts of the first pass are exactly what
      the others use, but for one word after the last bitmap, which is written exactly when the last
      block's frames fill whole words. */
  method BuildFrameBlocks(kmap: seq<Entry>) returns (blocks: seq<Block>, overrun: bool)
    ensures blocks == Completed(AllBlocks(kmap)) && |blocks| == TotalBlocks(kmap)
    ensures forall i :: 0 <= i < |blocks| ==> Handed(blocks[i])
    ensures Coverage(blocks) == FreePages(kmap)
    ensures overrun <==> blocks != [] && blocks[|blocks| - 1].count % 64 == 0
  {
    hide AllBlocks, TotalBlocks, TotalWords, WordsOf, Bitmaps, BitmapWords, BitmapSize, Kinds, Handed, BlockFrames,
         FreePages, Summary, Finish, Complete, Located, FinishAll, Fits, Coverage;
    var blockCount, bitmapBytes := CountPass(kmap);
    var raws := new RawBlock[blockCount](_ => RawBlock(0, 0, 0, 0, [], 0));
    var next := FillPass(kmap, raws);
    ghost var made := raws[..];
    AllBlockCount(kmap);
    AllWordCount(kmap);
    AllKinds(kmap);
    BlocksCoverFreePages(kmap);
    CoverageSame(made);
    forall i | 0 <= i < |made|
      ensures made[i].count > 0 && Handed(Complete(made[i])) && Complete(made[i]).count == made[i].count
    {
      KindCount(made[i]);
      CompleteHanded(made[i]);
    }
    // one word more, with a mark that shows whether it is written
    var words := new nat[bitmapBytes / 8 + 1](_ => 1);
    BitmapPass(raws, words);
    overrun := words[bitmapBytes / 8] == 0;
    FinishAllIs(made, words[..]);
    blocks := FinishAll(raws[..], words[..]);
  }

  predicate Fits(raws: seq<RawBlock>, words: seq<nat>)
  {
    forall i :: 0 <= i < |raws| ==> raws[i].at + BitmapSize(raws[i].count) <= |words|
  }

  function FinishAll(raws: seq<RawBlock>, words: seq<nat>): seq<Block>
    requires Fits(raws, words)
  {
    seq(|raws|, i requires 0 <= i < |raws| => Finish(raws[i], words))
  }

  lemma FinishAllIs(made: seq<RawBlock>, words: seq<nat>)
    requires |words| == WordsOf(made) + 1 && words[..WordsOf(made)] == Bitmaps(made)
    ensures Fits(Located(made), words) && FinishAll(Located(made), words) == Completed(made)
  {
    hide WordsOf, Bitmaps, BitmapWords, BitmapSize, Finish, Complete;
    var raws := Located(made);
    forall i | 0 <= i < |made|
      ensures raws[i].at + BitmapSize(raws[i].count) <= |words| && Finish(raws[i], words) == Complete(made[i])
    {
      BitmapOf(made, i);
      FinishIs(made[i], raws[i], Bitmaps(made), words);
    }
  }

  lemma FinishIs(made: RawBlock, raw: RawBlock, bitmaps: seq<nat>, words: seq<nat>)
    requires raw == made.(at := raw.at) && |words| == |bitmaps| + 1 && words[..|bitmaps|] == bitmaps
    requires raw.at + BitmapSize(raw.count) <= |bitmaps|
    requires bitmaps[raw.at..raw.at + BitmapSize(raw.count)] == BitmapWords(raw.count)
    ensures Finish(raw, words) == Complete(made)
  {
    hide BitmapSize, BitmapWords;
    var at, size := raw.at, BitmapSize(raw.count);
    var mine, same := words[at..at + size], bitmaps[at..at + size];
    forall j | 0 <= j < size ensures mine[j] == same[j]
    {
      assert words[at + j] == words[..|bitmaps|][at + j];
    }
  }

  /** The free ranges are plain and do not overlap. */
  ghost predicate PlainMap(kmap: seq<Entry>)
  {
    && (forall i :: 0 <= i < |kmap| && kmap[i].kind == Available ==> Plain(kmap[i]))
    && (forall i, j :: 0 <= i < j < |kmap| && kmap[i].kind == Available && kmap[j].kind == Available ==>
            EntriesApart(kmap[i], kmap[j]))
  }

  predicate Within(b: RawBlock, base: nat, pages: nat)
  {
    base <= b.base && b.base + b.count * PAGE_SIZE <= base + pages * PAGE_SIZE && b.base % PAGE_SIZE == 0
  }

  predicate RawApart(b: RawBlock, c: RawBlock)
  {
    b.base + b.count * PAGE_SIZE <= c.base || c.base + c.count * PAGE_SIZE <= b.base
  }

  predicate AllWithin(bs: seq<RawBlock>, base: nat, pages: nat)
  {
    forall i :: 0 <= i < |bs| ==> Within(bs[i], base, pages)
  }

  predicate AllRawApart(bs: seq<RawBlock>)
  {
    forall i, j :: 0 <= i < j < |bs| ==> RawApart(bs[i], bs[j])
  }

  /** The blocks of a plain range lie inside it, one after the other. */
  lemma {:induction false} EntryRanges(flags: nat, base: nat, pages: nat)
    requires base % PAGE_SIZE == 0 && base + pages * PAGE_SIZE <= TWO_64
    ensures AllWithin(EntryBlocks(flags, base, pages), base, pages) && AllRawApart(EntryBlocks(flags, base, pages))
    decreases pages
  {
    hide TailBlock, FullBlock, PageAddress;
    var bs := EntryBlocks(flags, base, pages);
    if pages >= FRAMES_PER_BLOCK {
      var next, rest := PageAddress(base, FRAMES_PER_BLOCK), pages - FRAMES_PER_BLOCK;
      FullCount(flags, base);
      if rest > 0 {
        NextBase(base);
        EntryRanges(flags, next, rest);
        var more := EntryBlocks(flags, next, rest);
        assert AllWithin(more, next, rest) && AllRawApart(more);
        assert forall i :: 0 < i < |bs| ==> bs[i] == more[i - 1];
        forall i | 0 <= i < |bs| ensures Within(bs[i], base, pages)
        {
          assert i > 0 ==> Within(more[i - 1], next, rest);
        }
        forall i, j | 0 <= i < j < |bs| ensures RawApart(bs[i], bs[j])
        {
          assert Within(more[j - 1], next, rest);
          assert i > 0 ==> RawApart(more[i - 1], more[j - 1]);
        }
      } else {
        assert EntryBlocks(flags, next, rest) == [];
      }
    } else if pages > 0 {
      TailCount(flags, base, pages);
    }
  }

  lemma NextBase(base: nat)
    requires base % PAGE_SIZE == 0 && base + FRAMES_PER_BLOCK * PAGE_SIZE < TWO_64
    ensures PageAddress(base, FRAMES_PER_BLOCK) == base + FRAMES_PER_BLOCK * PAGE_SIZE
    ensures PageAddress(base, FRAMES_PER_BLOCK) % PAGE_SIZE == 0
  {
  }

  predicate InSome(b: RawBlock, kmap: seq<Entry>, k: nat)
  {
    k < |kmap| && kmap[k].kind == Available && Within(b, kmap[k].start, kmap[k].pages)
  }

  ghost predicate AllInSome(bs: seq<RawBlock>, kmap: seq<Entry>)
  {
    forall i :: 0 <= i < |bs| ==> Homed(bs[i], kmap)
  }

  ghost predicate Homed(b: RawBlock, kmap: seq<Entry>)
  {
    exists k: nat :: InSome(b, kmap, k)
  }

  lemma {:induction false} MapRanges(kmap: seq<Entry>)
    requires PlainMap(kmap)
    ensures AllInSome(AllBlocks(kmap), kmap) && AllRawApart(AllBlocks(kmap))
  {
    hide EntryBlocks;
    if kmap != [] {
      var n := |kmap| - 1;
      var init, e := kmap[..n], kmap[n];
      MapRanges(init);
      var early, bs := AllBlocks(init), AllBlocks(kmap);
      if e.kind == Available {
        assert Plain(e);
        EntryRanges(e.attr, e.start, e.pages);
      }
      forall i | 0 <= i < |bs| ensures Homed(bs[i], kmap)
      {
        if i < |early| {
          assert Homed(early[i], init);
          var k: nat :| InSome(early[i], init, k);
          assert InSome(bs[i], kmap, k);
        } else {
          var more := EntryBlocks(e.attr, e.start, e.pages);
          assert AllWithin(more, e.start, e.pages) && bs[i] == more[i - |early|];
          assert InSome(bs[i], kmap, n);
        }
      }
      forall i, j | 0 <= i < j < |bs| ensures RawApart(bs[i], bs[j])
      {
        if j < |early| {
          assert RawApart(early[i], early[j]);
        } else if i < |early| {
          assert Homed(early[i], init);
          var k: nat :| InSome(early[i], init, k);
          assert EntriesApart(kmap[k], kmap[n]);
          var more := EntryBlocks(e.attr, e.start, e.pages);
          assert AllWithin(more, e.start, e.pages) && bs[j] == more[j - |early|];
        } else {
          var a, b := i - |early|, j - |early|;
          var more := EntryBlocks(e.attr, e.start, e.pages);
          assert AllRawApart(more) && RawApart(more[a], more[b]);
        }
      }
    }
  }

  /** No free range ends in a partial block whose summaries come out wrong. */
  predicate GoodTails(kmap: seq<Entry>)
  {
    forall i :: 0 <= i < |kmap| && kmap[i].kind == Available ==> kmap[i].pages % FRAMES_PER_BLOCK <= 4032
  }

  predicate GoodCount(raw: RawBlock)
  {
    raw.count == FRAMES_PER_BLOCK || raw.count <= 4032
  }

  predicate AllGood(bs: seq<RawBlock>)
  {
    forall i :: 0 <= i < |bs| ==> GoodCount(bs[i])
  }

  lemma {:induction false} EntryTails(flags: nat, base: nat, pages: nat)
    ensures AllGood(EntryBlocks(flags, base, pages)) <==> pages % FRAMES_PER_BLOCK <= 4032
    decreases pages
  {
    hide TailBlock, FullBlock, PageAddress;
    var bs := EntryBlocks(flags, base, pages);
    if pages >= FRAMES_PER_BLOCK {
      var next, rest := PageAddress(base, FRAMES_PER_BLOCK), pages - FRAMES_PER_BLOCK;
      EntryTails(flags, next, rest);
      FullCount(flags, base);
      var more := EntryBlocks(flags, next, rest);
      assert forall i :: 0 <= i < |more| ==> more[i] == bs[i + 1];
      assert forall i :: 0 < i < |bs| ==> bs[i] == more[i - 1];
      assert pages % FRAMES_PER_BLOCK == rest % FRAMES_PER_BLOCK;
    } else if pages > 0 {
      TailCount(flags, base, pages);
      assert bs == [TailBlock(flags, base, pages)] && (AllGood(bs) <==> GoodCount(bs[0]));
    }
  }

  lemma {:induction false} MapTails(kmap: seq<Entry>)
    ensures AllGood(AllBlocks(kmap)) <==> GoodTails(kmap)
  {
    hide EntryBlocks, GoodCount;
    if kmap != [] {
      var n := |kmap| - 1;
      var init, e := kmap[..n], kmap[n];
      MapTails(init);
      EntryTails(e.attr, e.start, e.pages);
      var early, bs, more := AllBlocks(init), AllBlocks(kmap), EntryBlocks(e.attr, e.start, e.pages);
      assert forall i :: 0 <= i < |early| ==> early[i] == bs[i];
      if e.kind == Available {
        assert forall i :: 0 <= i < |more| ==> more[i] == bs[i + |early|];
        assert forall i :: |early| <= i < |bs| ==> bs[i] == more[i - |early|];
      }
      assert GoodTails(kmap) <==> GoodTails(init) && (e.kind == Available ==> e.pages % FRAMES_PER_BLOCK <= 4032) by {
        assert forall i :: 0 <= i < n ==> kmap[i] == init[i];
      }
    }
  }

  /** The blocks that the boot loader hands over are sound for the frame allocator exactly when no
      free range leaves a partial block of more than 4032 frames. */
  lemma HandoverSound(kmap: seq<Entry>)
    requires PlainMap(kmap)
    ensures Sound(Completed(AllBlocks(kmap))) <==> GoodTails(kmap)
  {
    hide AllBlocks, PlainMap, GoodTails, Kinds, Summary, IsFree, Complete;
    var raws, blocks := AllBlocks(kmap), Completed(AllBlocks(kmap));
    MapRanges(kmap);
    MapTails(kmap);
    AllKinds(kmap);
    forall i | 0 <= i < |raws| ensures BlockOk(blocks[i]) <==> GoodCount(raws[i])
    {
      assert Homed(raws[i], kmap);
      var k: nat :| InSome(raws[i], kmap, k);
      KindCount(raws[i]);
      CompleteHanded(raws[i]);
    }
    forall i, j | 0 <= i < j < |blocks| ensures Apart(blocks[i], blocks[j])
    {
      assert RawApart(raws[i], raws[j]);
      KindCount(raws[i]);
      KindCount(raws[j]);
    }
  }

  /** From the firmware's map to the frame allocator: when the firmware gives separate ranges, the
      allocator starts in a valid state exactly when no free range of the kernel map leaves a partial
      block of more than 4032 frames. */
  method Boot(uefi: seq<Descriptor>) returns (r: Result, blocks: seq<Block>)
    requires Sane(uefi)
    ensures r.Built? <==> AllExpected(uefi)
    ensures r.Built? ==> Expand(r.entries) == Meaning(uefi) && Coverage(blocks) == FreePages(r.entries)
    ensures r.Built? ==> (Sound(blocks) <==> GoodTails(r.entries))
    ensures r.Built? ==> forall a :: a in Coverage(blocks) <==> FrameOfUsable(uefi, a)
  {
    hide Sane, Separate, AllExpected, Expand, Meaning, Coverage, FreePages, Sound, GoodTails, AllBlocks, Completed,
         PlainMap, TotalBlocks, Handed, Described, Named, FrameOfUsable;
    r := BuildKernelMap(uefi);
    blocks := [];
    if r.Built? {
      SeparatePlain(r.entries);
      HandoverSound(r.entries);
      var overrun;
      blocks, overrun := BuildFrameBlocks(r.entries);
      FreeFromUsable(uefi, r.entries);
    }
  }

  /** The address is a page of a descriptor whose memory is the loader's, the boot services' or conventional. */
  ghost predicate FrameOfUsable(uefi: seq<Descriptor>, a: nat)
  {
    exists i :: 0 <= i < |uefi| && UsablePage(uefi[i], a)
  }

  ghost predicate UsablePage(d: Descriptor, a: nat)
  {
    exists t: EfiType, k: nat :: UsableAt(d, t, k, a)
  }

  predicate UsableAt(d: Descriptor, t: EfiType, k: nat, a: nat)
  {
    d.kind == Number(t) && Usable(t) && k < d.pages && a == PageAddress(d.start, k)
  }

  /** The free pages are the addresses of the pages of type free. */
  lemma {:induction false} FreePagesExpand(kmap: seq<Entry>, a: nat)
    ensures a in FreePages(kmap) <==> exists attr: nat :: Page(a, Available, attr) in Expand(kmap)
  {
    hide PageAddress;
    if kmap != [] {
      var last := |kmap| - 1;
      var e := kmap[last];
      FreePagesExpand(kmap[..last], a);
      FreeEntry(e, a);
      if a in FreePages(kmap[..last]) {
        var attr: nat :| Page(a, Available, attr) in Expand(kmap[..last]);
        assert Page(a, Available, attr) in Expand(kmap);
      } else if a in FreePages(kmap) {
        assert Page(a, Available, e.attr) in Expand(kmap);
      }
    }
  }

  lemma FreeEntry(e: Entry, a: nat)
    ensures forall attr: nat :: Page(a, Available, attr) in Pages(e.start, e.pages, e.kind, e.attr) <==>
      e.kind == Available && attr == e.attr && a in Addresses(e.start, e.pages)
  {
    hide PageAddress;
    var l, addresses := Pages(e.start, e.pages, e.kind, e.attr), Addresses(e.start, e.pages);
    forall attr: nat
      ensures Page(a, Available, attr) in l <==> e.kind == Available && attr == e.attr && a in addresses
    {
      if Page(a, Available, attr) in l {
        var k :| 0 <= k < e.pages && l[k] == Page(a, Available, attr);
        assert addresses[k] == a;
      }
      if e.kind == Available && attr == e.attr && a in addresses {
        var k :| 0 <= k < e.pages && addresses[k] == a;
        assert l[k] == Page(a, Available, attr);
      }
    }
  }

  lemma FreeFromUsable(uefi: seq<Descriptor>, kmap: seq<Entry>)
    requires forall p :: p in Expand(kmap) <==> Described(uefi, p)
    ensures forall a :: a in FreePages(kmap) <==> FrameOfUsable(uefi, a)
  {
    hide Expand, FreePages, PageAddress, Number, Usable;
    forall a ensures a in FreePages(kmap) <==> FrameOfUsable(uefi, a)
    {
      if a >= 0 {
        FreePagesExpand(kmap, a);
        UsableDescribed(uefi, a);
      }
    }
  }

  lemma UsableDescribed(uefi: seq<Descriptor>, a: nat)
    ensures FrameOfUsable(uefi, a) <==> exists attr: nat :: Described(uefi, Page(a, Available, attr))
  {
    hide PageAddress, Number, Usable;
    if FrameOfUsable(uefi, a) {
      var i :| 0 <= i < |uefi| && UsablePage(uefi[i], a);
      var t: EfiType, k: nat :| UsableAt(uefi[i], t, k, a);
      assert PageOf(uefi[i], t, k, Page(a, Available, uefi[i].attribute % TWO_32));
      assert HasPage(uefi[i], Page(a, Available, uefi[i].attribute % TWO_32));
    }
    if exists attr: nat :: Described(uefi, Page(a, Available, attr)) {
      var attr: nat :| Described(uefi, Page(a, Available, attr));
      var i :| 0 <= i < |uefi| && HasPage(uefi[i], Page(a, Available, attr));
      var t: EfiType, k: nat :| PageOf(uefi[i], t, k, Page(a, Available, attr));
      assert UsableAt(uefi[i], t, k, a);
    }
  }

  lemma SeparatePlain(kmap: seq<Entry>)
    requires Separate(kmap)
    ensures PlainMap(kmap)
  {
  }
}
