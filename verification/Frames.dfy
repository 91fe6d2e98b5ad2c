/** The physical frame allocator: a three-level bitmap of free frames per block. */
module Frames {
  import opened Bits
  import opened Words

  const FRAME_SIZE := 4096
  const GROUP := 4096
  const FRAMES_PER_BLOCK := 262144

  /** `map1` summarizes `map2`, and `map2` summarizes `bitmap`, whose bits are the free frames. */
  datatype Block = Block(base: nat, count: nat, map1: nat, map2: seq<nat>, bitmap: seq<nat>)

  predicate Shaped(b: Block)
  {
    && IsWord(b.map1) && |b.map2| == 64 && |b.bitmap| <= 4096
    && (forall i :: 0 <= i < 64 ==> IsWord(b.map2[i]))
    && (forall j :: 0 <= j < |b.bitmap| ==> IsWord(b.bitmap[j]))
  }

  predicate Present(words: seq<nat>, j: nat)
  {
    j < |words| && words[j] != 0
  }

  predicate TopAt(b: Block, i: nat)
    requires Shaped(b) && i < 64
  {
    Bit(b.map1, i) <==> b.map2[i] != 0
  }

  predicate MiddleAt(b: Block, o1: nat, o2: nat)
    requires Shaped(b) && o1 < 64 && o2 < 64
  {
    Bit(b.map2[o1], o2) <==> Present(b.bitmap, 64 * o1 + o2)
  }

  /** A summary bit is set exactly when the word below it is not zero. */
  ghost predicate Summary(b: Block)
  {
    && Shaped(b)
    && (forall i :: 0 <= i < 64 ==> TopAt(b, i))
    && (forall o1, o2 :: 0 <= o1 < 64 && 0 <= o2 < 64 ==> MiddleAt(b, o1, o2))
  }

  predicate IsFree(b: Block, f: nat)
  {
    f / 64 < |b.bitmap| && Bit(b.bitmap[f / 64], f % 64)
  }

  /** A block whose bitmap covers its frames and no more. */
  ghost predicate BlockOk(b: Block)
  {
    && Summary(b) && b.base % FRAME_SIZE == 0 && b.count <= FRAMES_PER_BLOCK && |b.bitmap| == (b.count + 63) / 64
    && forall f: nat :: IsFree(b, f) ==> f < b.count
  }

  predicate Contains(b: Block, address: nat)
  {
    b.base <= address < b.base + b.count * FRAME_SIZE
  }

  predicate Apart(b: Block, c: Block)
  {
    b.base + b.count * FRAME_SIZE <= c.base || c.base + c.count * FRAME_SIZE <= b.base
  }

  ghost predicate AllApart(blocks: seq<Block>)
  {
    forall i, j :: 0 <= i < j < |blocks| ==> Apart(blocks[i], blocks[j])
  }

  lemma FreeMeansPresent(b: Block, f: nat)
    requires Shaped(b) && IsFree(b, f)
    ensures Present(b.bitmap, f / 64)
  {
    BitNonzero(b.bitmap[f / 64], f % 64);
  }

  /** An empty top word means no free frame. */
  lemma EmptyTop(b: Block)
    requires Summary(b) && b.map1 == 0
    ensures forall f: nat :: !IsFree(b, f)
  {
    hide Bit;
    forall f: nat ensures !IsFree(b, f)
    {
      ZeroBits(f / 64 / 64);
      if IsFree(b, f) {
        FreeMeansPresent(b, f);
        Summarized(b, f / 64);
      }
    }
  }

  /** Both summary bits above a nonzero word are set. */
  lemma Summarized(b: Block, j: nat)
    requires Summary(b) && Present(b.bitmap, j)
    ensures j / 64 < 64 && Bit(b.map2[j / 64], j % 64) && Bit(b.map1, j / 64)
  {
    hide Bit;
    assert j == 64 * (j / 64) + j % 64;
    assert MiddleAt(b, j / 64, j % 64) && TopAt(b, j / 64);
    BitNonzero(b.map2[j / 64], j % 64);
  }

  /** The tree walk: first set bit of each level in turn. */
  function First(b: Block): (r: (nat, nat, nat))
    requires Summary(b) && b.map1 != 0
    ensures r.0 < 64 && r.1 < 64 && r.2 < 64 && 64 * r.0 + r.1 < |b.bitmap|
  {
    FirstFacts(b);
    var o1 := Tzcnt(b.map1);
    var o2 := Tzcnt(b.map2[o1]);
    (o1, o2, Tzcnt(b.bitmap[64 * o1 + o2]))
  }

  lemma FirstFacts(b: Block)
    requires Summary(b) && b.map1 != 0
    ensures var o1 := Tzcnt(b.map1);
      && o1 < 64 && Tzcnt(b.map2[o1]) < 64 && Present(b.bitmap, 64 * o1 + Tzcnt(b.map2[o1]))
      && Tzcnt(b.bitmap[64 * o1 + Tzcnt(b.map2[o1])]) < 64
  {
    hide Bit, Tzcnt;
    var o1 := Tzcnt(b.map1);
    TzcntBits(b.map1);
    assert TopAt(b, o1);
    var o2 := Tzcnt(b.map2[o1]);
    TzcntBits(b.map2[o1]);
    assert MiddleAt(b, o1, o2);
    TzcntBits(b.bitmap[64 * o1 + o2]);
  }

  function FrameOf(r: (nat, nat, nat)): nat
  {
    4096 * r.0 + 64 * r.1 + r.2
  }

  ghost predicate Lowest(b: Block, f: nat)
  {
    IsFree(b, f) && forall g: nat :: IsFree(b, g) ==> f <= g
  }

  /** The walk refines a flat scan: it finds the lowest free frame. */
  lemma FirstIsLowest(b: Block)
    requires Summary(b) && b.map1 != 0
    ensures Lowest(b, FrameOf(First(b)))
  {
    hide Bit, Tzcnt, Summary;
    var r := First(b);
    var (o1, o2, o3) := r;
    WalkBits(b);
    assert FrameOf(r) / 64 == 64 * o1 + o2 && FrameOf(r) % 64 == o3;
    BlockShape(b);
    forall f: nat | IsFree(b, f) ensures f >= FrameOf(r)
    {
      FreeMeansPresent(b, f);
      var j := f / 64;
      Summarized(b, j);
      assert j / 64 >= o1;
      assert j / 64 == o1 ==> j % 64 >= o2;
      assert j == 64 * o1 + o2 ==> f % 64 >= o3;
    }
  }

  lemma BlockShape(b: Block)
    requires Summary(b)
    ensures Shaped(b)
  {
  }

  lemma WalkBits(b: Block)
    requires Summary(b) && b.map1 != 0
    ensures var (o1, o2, o3) := First(b);
      && Shaped(b) && Bit(b.bitmap[64 * o1 + o2], o3)
      && (forall i :: 0 <= i < o1 ==> !Bit(b.map1, i))
      && (forall i :: 0 <= i < o2 ==> !Bit(b.map2[o1], i))
      && var w := b.bitmap[64 * o1 + o2]; forall i :: 0 <= i < o3 ==> !Bit(w, i)
  {
    hide Bit, Tzcnt;
    FirstFacts(b);
    var (o1, o2, o3) := First(b);
    TzcntBits(b.map1);
    TzcntBits(b.map2[o1]);
    TzcntBits(b.bitmap[64 * o1 + o2]);
  }

  /** Store `m3` in word `k` and clear the summary bits (o1, o2) above it that no longer hold. */
  function ClearWord(b: Block, o1: nat, o2: nat, k: nat, m3: nat): Block
    requires Shaped(b) && o1 < 64 && o2 < 64 && k < |b.bitmap|
  {
    var b1 := b.(bitmap := b.bitmap[k := m3]);
    if m3 != 0 then b1
    else
      var b2 := b1.(map2 := b1.map2[o1 := ClearRun(b1.map2[o1], o2, 1)]);
      if b2.map2[o1] != 0 then b2 else b2.(map1 := ClearRun(b2.map1, o1, 1))
  }

  /** Mark one frame free: set its bit in word `k` and the summary bits (o1, o2). */
  function SetFrame(b: Block, o1: nat, o2: nat, k: nat, o3: nat): Block
    requires Shaped(b) && o1 < 64 && o2 < 64 && o3 < 64 && k < |b.bitmap|
  {
    b.(map1 := SetBit(b.map1, o1), map2 := b.map2[o1 := SetBit(b.map2[o1], o2)],
       bitmap := b.bitmap[k := SetBit(b.bitmap[k], o3)])
  }

  /** One word and the summary bits above it change together. */
  lemma WordKeeps(b: Block, b': Block, o1: nat, o2: nat, w: nat)
    requires Summary(b) && o1 < 64 && o2 < 64 && 64 * o1 + o2 < |b.bitmap| && IsWord(w)
    requires Shaped(b') && b'.bitmap == b.bitmap[64 * o1 + o2 := w]
    requires b'.map2 == b.map2[o1 := b'.map2[o1]]
    requires forall i :: 0 <= i < 64 ==> (Bit(b'.map2[o1], i) <==> if i == o2 then w != 0 else Bit(b.map2[o1], i))
    requires forall i :: 0 <= i < 64 ==> (Bit(b'.map1, i) <==> if i == o1 then b'.map2[o1] != 0 else Bit(b.map1, i))
    ensures Summary(b')
  {
    hide Bit;
    forall i | 0 <= i < 64 ensures TopAt(b', i)
    {
      assert TopAt(b, i);
    }
    forall p1, p2 | 0 <= p1 < 64 && 0 <= p2 < 64 ensures MiddleAt(b', p1, p2)
    {
      assert MiddleAt(b, p1, p2);
    }
  }

  lemma ClearWordKeeps(b: Block, o1: nat, o2: nat, m3: nat)
    requires Summary(b) && o1 < 64 && o2 < 64 && 64 * o1 + o2 < |b.bitmap| && IsWord(m3)
    requires m3 != 0 ==> b.bitmap[64 * o1 + o2] != 0
    ensures Summary(ClearWord(b, o1, o2, 64 * o1 + o2, m3))
    ensures ClearWord(b, o1, o2, 64 * o1 + o2, m3).bitmap == b.bitmap[64 * o1 + o2 := m3]
  {
    hide Bit, ClearRun;
    var b' := ClearWord(b, o1, o2, 64 * o1 + o2, m3);
    assert MiddleAt(b, o1, o2) && TopAt(b, o1);
    ClearRunBits(b.map2[o1], o2, 1);
    ClearRunBits(b.map1, o1, 1);
    if m3 == 0 {
      NonzeroStays(b.map2[o1], ClearRun(b.map2[o1], o2, 1));
    }
    WordKeeps(b, b', o1, o2, m3);
  }

  /** If some bit is left, some bit was there. */
  lemma NonzeroStays(w: nat, v: nat)
    requires IsWord(w) && IsWord(v) && forall i :: 0 <= i < 64 ==> (Bit(v, i) ==> Bit(w, i))
    ensures v != 0 ==> w != 0
  {
    hide Bit, Tzcnt;
    if v != 0 {
      TzcntBits(v);
      BitNonzero(w, Tzcnt(v));
    }
  }

  lemma SetFrameKeeps(b: Block, o1: nat, o2: nat, o3: nat)
    requires Summary(b) && o1 < 64 && o2 < 64 && o3 < 64 && 64 * o1 + o2 < |b.bitmap|
    ensures Summary(SetFrame(b, o1, o2, 64 * o1 + o2, o3))
  {
    hide Bit, SetBit;
    var j := 64 * o1 + o2;
    SetBitBits(b.map1, o1);
    SetBitBits(b.map2[o1], o2);
    SetBitBits(b.bitmap[j], o3);
    WordKeeps(b, SetFrame(b, o1, o2, j, o3), o1, o2, SetBit(b.bitmap[j], o3));
  }

  /** Exactly the frames from `f` up to `f + n` stop being free. */
  ghost predicate Took(b: Block, b': Block, f: nat, n: nat)
  {
    && b'.base == b.base && b'.count == b.count && |b'.bitmap| == |b.bitmap| && Summary(b')
    && forall g: nat :: IsFree(b', g) <==> IsFree(b, g) && !(f <= g < f + n)
  }

  /** Exactly the frames from `f` up to `f + n` become free. */
  ghost predicate Gave(b: Block, b': Block, f: nat, n: nat)
  {
    && b'.base == b.base && b'.count == b.count && |b'.bitmap| == |b.bitmap| && Summary(b')
    && forall g: nat :: IsFree(b', g) <==> IsFree(b, g) || f <= g < f + n
  }

  /** `n` frames from `f` are free and in one word; no longer such run, up to `count`, is. */
  ghost predicate LongestRun(b: Block, f: nat, n: nat, count: nat)
  {
    && n <= count && f % 64 + n <= 64 && (forall g: nat :: f <= g < f + n ==> IsFree(b, g))
    && (n == count || f % 64 + n == 64 || !IsFree(b, f + n))
  }

  function Min(a: nat, b: nat): nat { if a <= b then a else b }

  /** What taking a run from the first free word does. */
  lemma TakeFirst(b: Block, count: nat)
    requires Summary(b) && b.map1 != 0
    ensures var (o1, o2, o3) := First(b);
      var j, f := 64 * o1 + o2, FrameOf(First(b));
      var w := b.bitmap[j];
      && IsWord(w) && o3 + RunLength(w, o3) <= 64
      && var n := Min(RunLength(w, o3), count);
        var b' := ClearWord(b, o1, o2, j, ClearRun(w, o3, n));
        && IsFree(b, f) && Lowest(b, f) && LongestRun(b, f, n, count) && (count > 0 ==> n > 0)
        && (n < 64 ==> Took(b, b', f, n)) && (n == 64 ==> b' == b)
  {
    hide Bit, ClearRun, RunLength, ClearWord, First, Summary;
    BlockShape(b);
    FirstIsLowest(b);
    WalkBits(b);
    var (o1, o2, o3) := First(b);
    var j, f := 64 * o1 + o2, FrameOf(First(b));
    var w := b.bitmap[j];
    RunLengthBits(w, o3);
    var n := Min(RunLength(w, o3), count);
    RunIsFree(b, j, o3, n, count);
    BitNonzero(w, o3);
    if n < 64 {
      ClearRunBits(w, o3, n);
      ClearWordKeeps(b, o1, o2, ClearRun(w, o3, n));
      ClearWordSame(b, o1, o2, j, ClearRun(w, o3, n));
      TookRun(b, ClearWord(b, o1, o2, j, ClearRun(w, o3, n)), j, o3, n);
    } else {
      ClearWhole(w);
      ClearWordSame(b, o1, o2, j, w);
    }
  }

  lemma ClearWordSame(b: Block, o1: nat, o2: nat, k: nat, m3: nat)
    requires Shaped(b) && o1 < 64 && o2 < 64 && k < |b.bitmap|
    ensures var b' := ClearWord(b, o1, o2, k, m3);
      && b'.base == b.base && b'.count == b.count && b'.bitmap == b.bitmap[k := m3]
      && (m3 != 0 && m3 == b.bitmap[k] ==> b' == b)
  {
    hide ClearRun;
  }

  lemma RunIsFree(b: Block, j: nat, o3: nat, n: nat, count: nat)
    requires Shaped(b) && j < |b.bitmap| && o3 < 64 && Bit(b.bitmap[j], o3)
    requires n == Min(RunLength(b.bitmap[j], o3), count)
    ensures LongestRun(b, 64 * j + o3, n, count) && (count > 0 ==> n > 0)
  {
    hide Bit, RunLength;
    RunLengthBits(b.bitmap[j], o3);
    var f := 64 * j + o3;
    forall g: nat | f <= g < f + n ensures IsFree(b, g)
    {
      assert g / 64 == j && g % 64 == g - 64 * j;
    }
    if n < count && o3 + n < 64 {
      assert (f + n) / 64 == j && (f + n) % 64 == o3 + n;
    }
  }

  lemma TookRun(b: Block, b': Block, j: nat, o3: nat, n: nat)
    requires Shaped(b) && Summary(b') && j < |b.bitmap| && o3 < 64 && o3 + n <= 64 && n < 64
    requires b'.base == b.base && b'.count == b.count && b'.bitmap == b.bitmap[j := ClearRun(b.bitmap[j], o3, n)]
    ensures Took(b, b', 64 * j + o3, n)
  {
    hide Bit, ClearRun, Summary;
    var w, f := ClearRun(b.bitmap[j], o3, n), 64 * j + o3;
    ClearRunBits(b.bitmap[j], o3, n);
    forall g: nat ensures IsFree(b', g) <==> IsFree(b, g) && !(f <= g < f + n)
    {
      if g / 64 == j {
        var i := g % 64;
        assert g == 64 * j + i;
        assert Bit(w, i) <==> Bit(b.bitmap[j], i) && !(o3 <= i < o3 + n);
      } else {
        assert !(f <= g < f + n);
      }
    }
  }

  class FrameAllocator {
    var blocks: seq<Block>

    ghost predicate Valid()
      reads this
    {
      Sound(blocks)
    }

    constructor (frames: seq<Block>)
      requires Sound(frames)
      ensures Valid() && blocks == frames
    {
      blocks := frames;
    }

    /** Returns `n` frames at `address`; `i` is the block they come from, or -1 when none is free. */
    method Allocate(count: nat) returns (n: nat, address: nat, ghost i: int, ghost f: nat)
      requires Valid()
      modifies this
      ensures Valid() && -1 <= i < |blocks| == |old(blocks)|
      ensures forall k, g: nat :: i < k < |blocks| ==> !IsFree(old(blocks[k]), g)
      ensures n <= count && (i == -1 ==> n == 0 && blocks == old(blocks))
      ensures i >= 0 ==> Lowest(old(blocks)[i], f) && LongestRun(old(blocks)[i], f, n, count) && (count > 0 ==> n > 0)
      ensures i >= 0 ==> address == old(blocks)[i].base + f * FRAME_SIZE && blocks == old(blocks)[i := blocks[i]]
      ensures i >= 0 ==> (n < 64 <==> Took(old(blocks)[i], blocks[i], f, n))
      ensures n <= 64 && (n == 64 ==> blocks == old(blocks))
    {
      hide BlockOk, Took, Lowest, LongestRun, AllApart, ClearRun, RunLength, ClearWord, First, IsFree;
      n, address, f := 0, 0, 0;
      i := -1;
      var k := |blocks|;
      while k > 0
        invariant 0 <= k <= |blocks| && blocks == old(blocks)
        invariant forall m, g: nat :: k <= m < |blocks| ==> !IsFree(blocks[m], g)
      {
        k := k - 1;
        var block := blocks[k];
        OkSummary(block);
        if block.map1 == 0 {
          EmptyTop(block);
          continue;
        }
        i := k;
        TakeFirst(block, count);
        FirstIs(block);
        var o1 := Tzcnt(block.map1);
        var o2 := Tzcnt(block.map2[o1]);
        var m3 := block.bitmap[64 * o1 + o2];
        var o3 := Tzcnt(m3);
        f := FrameOf((o1, o2, o3));
        n := Min(RunLength(m3, o3), count);
        address := block.base + (4096 * o1 + 64 * o2 + o3) * FRAME_SIZE;
        blocks := blocks[k := ClearWord(block, o1, o2, 64 * o1 + o2, ClearRun(m3, o3, n))];
        TakenOk(old(blocks), k, f, n, blocks[k]);
        return;
      }
    }

    /** Free inside block `k`, one frame at a time.  The last frame of a full block trips the
        assertion that guards the next one. */
    method FreeIn(k: nat, frame: nat, count: nat) returns (ok: bool)
      requires Valid() && k < |blocks| && count > 0 && frame + count <= blocks[k].count
      modifies this
      ensures blocks == old(blocks)[k := Freed(old(blocks)[k], frame, count)]
      ensures ok <==> frame + count < FRAMES_PER_BLOCK
    {
      hide AllApart, SetFrame, Summary, BlockOk, Freed, Reaches;
      OkShape(blocks[k]);
      RunReaches(blocks[k], frame, count);
      FreedNone(blocks[k], frame);
      var o1, o2, o3 := frame / 4096 % 64, frame / 64 % 64, frame % 64;
      var left := count;
      while left > 0
        invariant 0 <= left <= count && |blocks| == |old(blocks)|
        invariant blocks == old(blocks)[k := Freed(old(blocks)[k], frame, count - left)]
        invariant var g := frame + count - left;
          g < FRAMES_PER_BLOCK && o1 == g / 4096 && o2 == g / 64 % 64 && o3 == g % 64
      {
        ghost var g := frame + count - left;
        left := left - 1;
        FreedStep(old(blocks)[k], frame, g + 1 - frame);
        blocks := blocks[k := SetFrame(blocks[k], o1, o2, o2, o3)];
        o1, o2, o3 := NextFrame(g, o1, o2, o3);
        if o1 == 64 {
          LastFrame(g);
          return false;
        }
      }
      return true;
    }

    /** Mark used inside block `k`, one frame at a time. */
    method UseIn(k: nat, frame: nat, count: nat) returns (ok: bool)
      requires Valid() && k < |blocks| && count > 0 && frame + count <= blocks[k].count
      modifies this
      ensures blocks == old(blocks)[k := Used(old(blocks)[k], frame, count)]
      ensures ok <==> frame + count < FRAMES_PER_BLOCK
    {
      hide AllApart, ClearWord, ClearRun, Summary, BlockOk, Used, Reaches;
      OkShape(blocks[k]);
      RunReaches(blocks[k], frame, count);
      UsedNone(blocks[k], frame);
      var o1, o2, o3 := frame / 4096 % 64, frame / 64 % 64, frame % 64;
      var left := count;
      while left > 0
        invariant 0 <= left <= count && |blocks| == |old(blocks)|
        invariant blocks == old(blocks)[k := Used(old(blocks)[k], frame, count - left)]
        invariant var g := frame + count - left;
          g < FRAMES_PER_BLOCK && o1 == g / 4096 && o2 == g / 64 % 64 && o3 == g % 64
      {
        ghost var g := frame + count - left;
        left := left - 1;
        UsedStep(old(blocks)[k], frame, g + 1 - frame);
        blocks := blocks[k := ClearWord(blocks[k], o1, o2, o2, ClearRun(blocks[k].bitmap[o2], o3, 1))];
        o1, o2, o3 := NextFrame(g, o1, o2, o3);
        if o1 == 64 {
          LastFrame(g);
          return false;
        }
      }
      return true;
    }

    /** Free `count` frames at `address`.  `ok` is false when an assertion of the kernel fails. */
    method Free(address: nat, count: nat) returns (ok: bool)
      requires Valid() && RunInBlock(blocks, address, count)
      modifies this
      ensures |blocks| == |old(blocks)|
      ensures forall k :: 0 <= k < |blocks| && !Contains(old(blocks)[k], address) ==> blocks[k] == old(blocks)[k]
      ensures address % FRAME_SIZE != 0 || count == 0 ==> blocks == old(blocks)
      ensures forall k ::
        0 <= k < |blocks| && Contains(old(blocks)[k], address) && address % FRAME_SIZE == 0 && count > 0 ==>
        Returned(old(blocks)[k], blocks[k], FrameIn(old(blocks)[k], address), count, ok)
      ensures (forall k :: 0 <= k < |blocks| && Contains(old(blocks)[k], address) ==>
          FrameIn(old(blocks)[k], address) + count <= GROUP) ==> Valid()
    {
      hide BlockOk, Freed, Returned, AllApart, Apart, FrameIn;
      ok := true;
      if address % FRAME_SIZE != 0 {
        return false;
      }
      if count == 0 {
        return;
      }
      var left := count;
      ghost var done := -1;
      var i := 0;
      while i < |blocks|
        invariant 0 <= i <= |blocks| == |old(blocks)| && -1 <= done < i
        invariant if done >= 0 then
          Contains(old(blocks)[done], address) && blocks == old(blocks)[done := blocks[done]]
        else left == count && blocks == old(blocks) && ok
        invariant done >= 0 ==>
          Returned(old(blocks)[done], blocks[done], FrameIn(old(blocks)[done], address), count, ok)
        invariant done == -1 ==> forall k :: 0 <= k < i ==> !Contains(old(blocks)[k], address)
      {
        if done >= 0 { NotBoth(old(blocks), address, done, i); }
        if Contains(blocks[i], address) {
          ok := FreeIn(i, FrameIn(blocks[i], address), left);
          ReturnedBy(old(blocks)[i], address, count);
          done := i;
          // the counter runs one below zero
          left := TWO_64 - 1;
          if !ok { break; }
        }
        i := i + 1;
      }
      Isolated(old(blocks), address, done);
      ReturnedValid(old(blocks), blocks, address, count, done, ok);
    }

    /** Mark `count` frames at `address` used. */
    method Use(address: nat, count: nat) returns (ok: bool)
      requires Valid() && RunInBlock(blocks, address, count)
      modifies this
      ensures |blocks| == |old(blocks)|
      ensures forall k :: 0 <= k < |blocks| && !Contains(old(blocks)[k], address) ==> blocks[k] == old(blocks)[k]
      ensures address % FRAME_SIZE != 0 || count == 0 ==> blocks == old(blocks)
      ensures forall k ::
        0 <= k < |blocks| && Contains(old(blocks)[k], address) && address % FRAME_SIZE == 0 && count > 0 ==>
        Marked(old(blocks)[k], blocks[k], FrameIn(old(blocks)[k], address), count, ok)
      ensures (forall k :: 0 <= k < |blocks| && Contains(old(blocks)[k], address) ==>
          FrameIn(old(blocks)[k], address) + count <= GROUP) ==> Valid()
    {
      hide BlockOk, Used, Marked, AllApart, Apart, FrameIn;
      ok := true;
      if address % FRAME_SIZE != 0 {
        return false;
      }
      if count == 0 {
        return;
      }
      var left := count;
      ghost var done := -1;
      var i := 0;
      while i < |blocks|
        invariant 0 <= i <= |blocks| == |old(blocks)| && -1 <= done < i
        invariant if done >= 0 then
          Contains(old(blocks)[done], address) && blocks == old(blocks)[done := blocks[done]]
        else left == count && blocks == old(blocks) && ok
        invariant done >= 0 ==> Marked(old(blocks)[done], blocks[done], FrameIn(old(blocks)[done], address), count, ok)
        invariant done == -1 ==> forall k :: 0 <= k < i ==> !Contains(old(blocks)[k], address)
      {
        if done >= 0 { NotBoth(old(blocks), address, done, i); }
        if Contains(blocks[i], address) {
          ok := UseIn(i, FrameIn(blocks[i], address), left);
          MarkedBy(old(blocks)[i], address, count);
          done := i;
          left := TWO_64 - 1;
          if !ok { break; }
        }
        i := i + 1;
      }
      Isolated(old(blocks), address, done);
      MarkedValid(old(blocks), blocks, address, count, done, ok);
    }

    /** Giving back what was just allocated restores every word of every block, unless the run ends past the
        first 4096 frames. */
    method AllocateAndFree(count: nat) returns (n: nat, ghost i: int, ghost f: nat)
      requires Valid()
      modifies this
      ensures |blocks| == |old(blocks)| && -1 <= i < |blocks|
      ensures blocks == old(blocks) <==> i == -1 || n == 0 || f + n <= GROUP
    {
      hide Sound, BlockOk, Took, Gave, Lowest, LongestRun, Returned, Contains, IsFree;
      var address;
      n, address, i, f := Allocate(count);
      if n == 0 {
        if i >= 0 {
          SoundBlock(old(blocks), i);
          TookNothing(old(blocks), blocks, i, f);
        }
        return;
      }
      SoundBlock(old(blocks), i);
      ghost var taken := blocks[i];
      if n < 64 { TakenRun(old(blocks)[i], taken, f, n, count); }
      RunInside(taken, old(blocks)[i], f, n, count);
      AddressIn(taken, f, n, address);
      SoundApart(blocks, address, i);
      SoundBlock(old(blocks), i);
      SoundBlock(blocks, i);
      var ok := Free(address, n);
      assert Returned(taken, blocks[i], f, n, ok);
      if f + n <= GROUP {
        if n < 64 {
          Restored(old(blocks)[i], taken, blocks[i], f, n, ok);
        } else {
          AlreadyFree(taken, blocks[i], f, n, count, ok);
        }
        assert blocks == old(blocks);
      } else if n < 64 {
        NotRestored(old(blocks)[i], taken, blocks[i], f, n, ok);
      } else {
        LandsLow(taken, blocks[i], f, n, count, ok);
      }
    }

    /** Any run of requests and returns, up to and including the first return of a run that ends past the first
        4096 frames of its block: every frame that was free is free or held exactly once throughout, and no other
        is either, if and only if no request was served with a whole word and no return was late. */
    method Serve(ops: seq<Op>) returns (runs: seq<(nat, nat)>, done: nat, ghost trace: seq<Stage>)
      requires Valid()
      modifies this
      ensures done <= |ops| && |trace| == done + 1 && trace[0] == Stage(old(blocks), []) && trace[done].blocks == blocks
      ensures forall i :: 0 <= i < done ==> Step(trace[i], ops[i], trace[i + 1])
      ensures forall i :: 0 <= i < done - 1 ==> !Late(trace[i], ops[i])
      ensures done < |ops| ==> done > 0 && Late(trace[done - 1], ops[done - 1])
      ensures (forall i :: 0 <= i <= done ==> Conserved(old(blocks), trace[i].blocks, trace[i].held)) <==>
        forall i :: 0 <= i < done ==> Fine(trace[i], ops[i])
      ensures Listed(runs, trace[done].held)
    {
      hide Sound, Conserved, Step, HeldOk, Fine;
      runs, done, trace := [], 0, [Stage(blocks, [])];
      NothingHeld(blocks);
      var late := false;
      while done < |ops| && !late
        invariant done <= |ops| && |trace| == done + 1 && trace[0] == Stage(old(blocks), [])
        invariant trace[done].blocks == blocks
        invariant forall i :: 0 <= i < done ==> Step(trace[i], ops[i], trace[i + 1])
        invariant forall i :: 0 <= i < done - 1 ==> !Late(trace[i], ops[i])
        invariant late <==> done > 0 && Late(trace[done - 1], ops[done - 1])
        invariant !late ==> Valid() && HeldOk(blocks, trace[done].held)
        invariant Listed(runs, trace[done].held)
      {
        ghost var s': Stage;
        match ops[done] {
          case Take(count) => runs, s' := ServeTake(count, runs, trace[done]);
          case GiveBack(m) => runs, late, s' := ServeGiveBack(m, runs, trace[done]);
        }
        trace := trace + [s'];
        done := done + 1;
      }
      RunConserves(ops[..done], trace);
    }

    method ServeTake(count: nat, runs: seq<(nat, nat)>, ghost s: Stage)
        returns (runs': seq<(nat, nat)>, ghost s': Stage)
      requires Valid() && s.blocks == blocks && HeldOk(blocks, s.held) && Listed(runs, s.held)
      modifies this
      ensures Valid() && s'.blocks == blocks && HeldOk(blocks, s'.held) && Listed(runs', s'.held)
      ensures Step(s, Op.Take(count), s')
    {
      hide Sound, BlockOk, Took, Gave, Lowest, LongestRun, Returned, Contains, IsFree, WholeNext;
      runs', s' := runs, s;
      var n, address, i, f := Allocate(count);
      if n > 0 {
        SoundBlock(s.blocks, i);
        if n < 64 { TookShape(s.blocks[i], blocks[i], f, n); }
        RunInside(blocks[i], s.blocks[i], f, n, count);
        runs', s' := runs + [(address, n)], Stage(blocks, s.held + [Run(i, address, n, f)]);
      } else if i >= 0 {
        SoundBlock(s.blocks, i);
        TookNothing(s.blocks, blocks, i, f);
      }
      assert TakeAt(s, count, s', i, n, f);
    }

    method ServeGiveBack(m: nat, runs: seq<(nat, nat)>, ghost s: Stage)
        returns (runs': seq<(nat, nat)>, late: bool, ghost s': Stage)
      requires Valid() && s.blocks == blocks && HeldOk(blocks, s.held) && Listed(runs, s.held)
      modifies this
      ensures s'.blocks == blocks && Listed(runs', s'.held)
      ensures (late <==> Late(s, GiveBack(m))) && (!late ==> Valid() && HeldOk(blocks, s'.held))
      ensures Step(s, GiveBack(m), s')
    {
      hide Sound, BlockOk, Took, Gave, Lowest, LongestRun, Contains, IsFree, FrameIn, Lands;
      runs', late, s' := runs, false, s;
      if m >= |runs| {
        return;
      }
      ghost var r := s.held[m];
      HeldRun(blocks, s.held, m);
      SoundApart(blocks, r.address, r.block);
      late := !EndsEarly(blocks, runs[m].0, runs[m].1);
      var ok := Free(runs[m].0, runs[m].1);
      runs', s' := runs[..m] + runs[m + 1..], Stage(blocks, s.held[..m] + s.held[m + 1..]);
      assert blocks == s.blocks[r.block := blocks[r.block]];
      forall q | q in s'.held ensures RunOk(blocks, q)
      {
        assert q in s.held && RunOk(s.blocks, q);
      }
    }
  }

  /** The allocator and the runs its clients hold. */
  datatype Stage = Stage(blocks: seq<Block>, held: seq<Run>)

  /** The address and length of each held run. */
  predicate Listed(runs: seq<(nat, nat)>, held: seq<Run>)
  {
    |runs| == |held| && forall m :: 0 <= m < |runs| ==> runs[m] == (held[m].address, held[m].n)
  }

  /** The run ends within the first 4096 frames of its block. */
  predicate EndsEarly(blocks: seq<Block>, address: nat, n: nat)
  {
    exists k :: 0 <= k < |blocks| && Contains(blocks[k], address) && FrameIn(blocks[k], address) + n <= GROUP
  }

  /** A request takes frames from the highest block with a free one: from its lowest free frame, as
      many as are free in a row in that frame's word, up to `count`.  A whole word is given out and left free. */
  ghost predicate TakeAt(s: Stage, count: nat, s': Stage, i: int, n: nat, f: nat)
  {
    && -1 <= i < |s.blocks| && (forall k, g: nat :: i < k < |s.blocks| ==> !IsFree(s.blocks[k], g))
    && (i == -1 ==> s' == s)
    && (i >= 0 ==>
      && Lowest(s.blocks[i], f) && LongestRun(s.blocks[i], f, n, count) && (count > 0 ==> n > 0) && n <= 64
      && |s'.blocks| == |s.blocks| && s'.blocks == s.blocks[i := s'.blocks[i]]
      && (if n < 64 then Took(s.blocks[i], s'.blocks[i], f, n) else s'.blocks == s.blocks)
      && s'.held == if n > 0 then s.held + [Run(i, s.blocks[i].base + f * FRAME_SIZE, n, f)] else s.held)
  }

  /** A return frees in its block what free makes of its run. */
  ghost predicate GiveAt(s: Stage, m: nat, s': Stage)
    requires m < |s.held|
  {
    var r := s.held[m];
    && r.block < |s.blocks| == |s'.blocks| && s'.blocks == s.blocks[r.block := s'.blocks[r.block]]
    && Returned(s.blocks[r.block], s'.blocks[r.block], r.frame, r.n, r.frame + r.n < FRAMES_PER_BLOCK)
    && s'.held == s.held[..m] + s.held[m + 1..]
  }

  /** The next request for 64 frames or more is served with a whole word: frame `f`, the lowest free
      frame of the highest block `i` that has one, begins a word that is all free. */
  ghost predicate WholeAt(blocks: seq<Block>, i: nat, f: nat)
  {
    && i < |blocks| && (forall k, g: nat :: i < k < |blocks| ==> !IsFree(blocks[k], g)) && Lowest(blocks[i], f)
    && f % 64 == 0 && forall g: nat :: f <= g < f + 64 ==> IsFree(blocks[i], g)
  }

  ghost predicate WholeNext(blocks: seq<Block>)
  {
    exists i: nat, f: nat :: WholeAt(blocks, i, f)
  }

  lemma NoneWhole(blocks: seq<Block>)
    requires forall k, g: nat :: 0 <= k < |blocks| ==> !IsFree(blocks[k], g)
    ensures !WholeNext(blocks)
  {
    hide IsFree;
  }

  /** A request returns 64 frames exactly when it asks for as many and meets a whole word. */
  lemma WholeExactly(blocks: seq<Block>, i: nat, f: nat, n: nat, count: nat)
    requires i < |blocks| && (forall k, g: nat :: i < k < |blocks| ==> !IsFree(blocks[k], g))
    requires Lowest(blocks[i], f) && LongestRun(blocks[i], f, n, count)
    ensures n == 64 <==> count >= 64 && WholeNext(blocks)
  {
    hide IsFree;
    if n == 64 {
      assert WholeAt(blocks, i, f);
    }
    if count >= 64 && WholeNext(blocks) {
      var j: nat, h: nat :| WholeAt(blocks, j, h);
      assert IsFree(blocks[j], h) && IsFree(blocks[i], f);
      assert j == i && h == f;
      var g := if n < 64 then f + n else f;
      assert IsFree(blocks[i], g);
    }
  }

  ghost predicate Step(s: Stage, op: Op, s': Stage)
  {
    match op
    case Take(count) => exists i: int, n: nat, f: nat :: TakeAt(s, count, s', i, n, f)
    case GiveBack(m) => if m < |s.held| then GiveAt(s, m, s') else s' == s
  }

  /** The return of a run that ends past the first 4096 frames of its block. */
  predicate Late(s: Stage, op: Op)
  {
    op.GiveBack? && op.m < |s.held| && s.held[op.m].frame + s.held[op.m].n > GROUP
  }

  /** The operation is not a request that is served with a whole word, nor a late return. */
  ghost predicate Fine(s: Stage, op: Op)
  {
    match op
    case Take(count) => count < 64 || !WholeNext(s.blocks)
    case GiveBack(_) => !Late(s, op)
  }

  ghost predicate HeldOk(blocks: seq<Block>, held: seq<Run>)
  {
    forall r :: r in held ==> RunOk(blocks, r)
  }

  datatype Op = Take(count: nat) | GiveBack(m: nat)

  /** A run of frames held by a client; `block` and `frame` say where its address lies. */
  datatype Run = Run(block: nat, address: nat, n: nat, frame: nat)

  predicate Covers(r: Run, k: nat, g: nat)
  {
    r.block == k && r.frame <= g < r.frame + r.n
  }

  /** How many held runs cover frame `g` of block `k`. */
  function Holders(held: seq<Run>, k: nat, g: nat): nat
  {
    if held == [] then 0 else Holders(held[..|held| - 1], k, g) + (if Covers(held[|held| - 1], k, g) then 1 else 0)
  }

  lemma {:induction false} HoldersWithout(held: seq<Run>, m: nat, k: nat, g: nat)
    requires m < |held|
    ensures Holders(held, k, g) == Holders(held[..m] + held[m + 1..], k, g) + (if Covers(held[m], k, g) then 1 else 0)
  {
    var last := |held| - 1;
    if m == last {
      assert held[..m] + held[m + 1..] == held[..last];
    } else {
      HoldersWithout(held[..last], m, k, g);
      var rest := held[..m] + held[m + 1..];
      assert held[..last][..m] == held[..m] && held[..last][m + 1..] == held[m + 1..last];
      assert rest[..|rest| - 1] == held[..m] + held[m + 1..last] && rest[|rest| - 1] == held[last];
    }
  }

  predicate Counted(blocks0: seq<Block>, blocks: seq<Block>, held: seq<Run>, k: nat, g: nat)
    requires k < |blocks0| && k < |blocks|
  {
    Holders(held, k, g) + (if IsFree(blocks[k], g) then 1 else 0) == if IsFree(blocks0[k], g) then 1 else 0
  }

  predicate RunOk(blocks: seq<Block>, r: Run)
  {
    && r.block < |blocks| && r.n > 0 && r.frame + r.n <= blocks[r.block].count
    && r.address == blocks[r.block].base + r.frame * FRAME_SIZE
  }

  ghost predicate Conserved(blocks0: seq<Block>, blocks: seq<Block>, held: seq<Run>)
  {
    && |blocks| == |blocks0|
    && HeldOk(blocks, held)
    && (forall k, g: nat :: 0 <= k < |blocks| ==> Counted(blocks0, blocks, held, k, g))
  }

  lemma NothingHeld(blocks: seq<Block>)
    ensures HeldOk(blocks, []) && Conserved(blocks, blocks, [])
  {
    hide IsFree;
  }

  lemma SoundBlock(blocks: seq<Block>, i: nat)
    requires Sound(blocks) && i < |blocks|
    ensures BlockOk(blocks[i])
  {
  }

  lemma SoundApart(blocks: seq<Block>, address: nat, i: nat)
    requires Sound(blocks) && i < |blocks| && Contains(blocks[i], address)
    ensures forall k :: 0 <= k < |blocks| && k != i ==> !Contains(blocks[k], address)
  {
    hide BlockOk, Contains, AllApart;
    forall k | 0 <= k < |blocks| && k != i ensures !Contains(blocks[k], address)
    {
      NotBoth(blocks, address, i, k);
    }
  }

  lemma AddressIn(b: Block, f: nat, n: nat, address: nat)
    requires n > 0 && f + n <= b.count && address == b.base + f * FRAME_SIZE && b.base % FRAME_SIZE == 0
    ensures Contains(b, address) && FrameIn(b, address) == f && address % FRAME_SIZE == 0
  {
  }

  /** Allocated frames lie inside their block. */
  lemma TakenRun(b: Block, b': Block, f: nat, n: nat, count: nat)
    requires BlockOk(b) && LongestRun(b, f, n, count) && n > 0 && Took(b, b', f, n)
    ensures f + n <= b'.count && b'.base == b.base && b'.count == b.count && b'.base % FRAME_SIZE == 0 && n <= 64
    ensures forall g: nat :: f <= g < f + n ==> IsFree(b, g) && !IsFree(b', g)
  {
    hide IsFree, Summary;
    var g := f + n - 1;
    assert IsFree(b, g);
  }

  lemma RunInside(b': Block, b: Block, f: nat, n: nat, count: nat)
    requires BlockOk(b) && LongestRun(b, f, n, count) && n > 0 && b'.base == b.base && b'.count == b.count
    ensures f + n <= b'.count && b'.base % FRAME_SIZE == 0
  {
    hide IsFree, Summary;
    assert IsFree(b, f + n - 1);
  }

  /** Giving back frames that are free changes nothing. */
  lemma AlreadyFree(b: Block, b': Block, f: nat, n: nat, count: nat, ok: bool)
    requires BlockOk(b) && LongestRun(b, f, n, count) && Returned(b, b', f, n, ok) && f + n <= GROUP
    ensures b' == b
  {
    hide IsFree, Summary;
    SameBlock(b, b');
  }

  /** A block is determined by its free frames. */
  lemma SameBlock(b: Block, b': Block)
    requires Summary(b) && Summary(b') && b'.base == b.base && b'.count == b.count && |b'.bitmap| == |b.bitmap|
    requires forall g: nat :: IsFree(b', g) <==> IsFree(b, g)
    ensures b' == b
  {
    hide Bit, Summary;
    BlockShape(b);
    BlockShape(b');
    forall j | 0 <= j < |b.bitmap| ensures b'.bitmap[j] == b.bitmap[j]
    {
      forall i | 0 <= i < 64 ensures Bit(b'.bitmap[j], i) == Bit(b.bitmap[j], i)
      {
        var g := 64 * j + i;
        assert g / 64 == j && g % 64 == i;
        assert IsFree(b', g) <==> IsFree(b, g);
      }
      SameWord(b'.bitmap[j], b.bitmap[j]);
    }
    SameSummary(b, b');
  }

  lemma SameWord(v: nat, w: nat)
    requires IsWord(v) && IsWord(w) && forall i :: 0 <= i < 64 ==> Bit(v, i) == Bit(w, i)
    ensures v == w
  {
    hide Bit, Pow2;
    var n := Width();
    SameBits(v, w, n);
  }

  lemma SameSummary(b: Block, b': Block)
    requires Summary(b) && Summary(b') && b'.bitmap == b.bitmap
    ensures b'.map2 == b.map2 && b'.map1 == b.map1
  {
    hide Bit;
    forall o1 | 0 <= o1 < 64 ensures b'.map2[o1] == b.map2[o1]
    {
      forall o2 | 0 <= o2 < 64 ensures Bit(b'.map2[o1], o2) == Bit(b.map2[o1], o2)
      {
        assert MiddleAt(b, o1, o2) && MiddleAt(b', o1, o2);
      }
      SameWord(b'.map2[o1], b.map2[o1]);
    }
    forall i | 0 <= i < 64 ensures Bit(b'.map1, i) == Bit(b.map1, i)
    {
      assert TopAt(b, i) && TopAt(b', i);
    }
    SameWord(b'.map1, b.map1);
  }

  lemma Restored(b: Block, b1: Block, b2: Block, f: nat, n: nat, ok: bool)
    requires BlockOk(b) && Took(b, b1, f, n) && Returned(b1, b2, f, n, ok) && f + n <= GROUP
    requires forall g: nat :: f <= g < f + n ==> IsFree(b, g)
    ensures b2 == b
  {
    hide IsFree, Summary;
    SameBlock(b, b2);
  }

  lemma NotRestored(b: Block, b1: Block, b2: Block, f: nat, n: nat, ok: bool)
    requires BlockOk(b) && Took(b, b1, f, n) && Returned(b1, b2, f, n, ok) && f + n > GROUP && n > 0
    requires forall g: nat :: f <= g < f + n ==> IsFree(b, g) && !IsFree(b1, g)
    ensures b2 != b
  {
    hide IsFree, Summary, Lands;
    assert b2 == b ==> Gave(b1, b2, f, n);
  }

  /** A whole word given back past the first 4096 frames frees another word, which was not free. */
  lemma LandsLow(b: Block, b': Block, f: nat, n: nat, count: nat, ok: bool)
    requires Lowest(b, f) && LongestRun(b, f, n, count) && n == 64 && f + n > GROUP && Returned(b, b', f, n, ok)
    ensures b' != b
  {
    hide IsFree, Summary;
    assert f % 64 == 0 && f >= GROUP && f % GROUP < f;
    assert Lands(f, n, f % GROUP);
  }

  lemma TookNothing(was: seq<Block>, blocks: seq<Block>, i: nat, f: nat)
    requires i < |was| && BlockOk(was[i]) && |blocks| == |was| && blocks == was[i := blocks[i]]
    requires Took(was[i], blocks[i], f, 0)
    ensures blocks == was
  {
    hide IsFree, Summary;
    SameBlock(was[i], blocks[i]);
  }

  lemma HeldMore(blocks0: seq<Block>, was: seq<Block>, blocks: seq<Block>, held: seq<Run>, i: nat, f: nat, n: nat,
                 count: nat)
    requires Conserved(blocks0, was, held) && i < |was| == |blocks| && BlockOk(was[i]) && blocks == was[i := blocks[i]]
    requires LongestRun(was[i], f, n, count) && n > 0 && Took(was[i], blocks[i], f, n)
    ensures Conserved(blocks0, blocks, held + [Run(i, was[i].base + f * FRAME_SIZE, n, f)])
  {
    hide IsFree, BlockOk;
    TakenRun(was[i], blocks[i], f, n, count);
    var r := Run(i, was[i].base + f * FRAME_SIZE, n, f);
    var held' := held + [r];
    forall q | q in held' ensures RunOk(blocks, q)
    {
      if q in held { assert RunOk(was, q); }
    }
    forall k, g: nat | 0 <= k < |blocks| ensures Counted(blocks0, blocks, held', k, g)
    {
      assert Counted(blocks0, was, held, k, g);
      assert held'[..|held'| - 1] == held;
    }
  }

  lemma HeldRun(blocks: seq<Block>, held: seq<Run>, m: nat)
    requires HeldOk(blocks, held) && Sound(blocks) && m < |held|
    ensures var r := held[m];
      && r.block < |blocks| && r.n > 0 && Contains(blocks[r.block], r.address)
      && FrameIn(blocks[r.block], r.address) == r.frame
      && r.address % FRAME_SIZE == 0 && r.frame + r.n <= blocks[r.block].count
  {
    var r := held[m];
    assert r in held && RunOk(blocks, r);
    SoundBlock(blocks, r.block);
    AddressIn(blocks[r.block], r.frame, r.n, r.address);
  }

  lemma HeldLess(blocks0: seq<Block>, was: seq<Block>, blocks: seq<Block>, held: seq<Run>, m: nat, ok: bool)
    requires Conserved(blocks0, was, held) && m < |held| && |blocks| == |was| && held[m].block < |was|
    requires forall k :: 0 <= k < |was| && k != held[m].block ==> blocks[k] == was[k]
    requires held[m].frame + held[m].n <= GROUP
    requires Returned(was[held[m].block], blocks[held[m].block], held[m].frame, held[m].n, ok)
    ensures Conserved(blocks0, blocks, held[..m] + held[m + 1..])
  {
    hide IsFree, Summary;
    var r := held[m];
    var held' := held[..m] + held[m + 1..];
    assert RunOk(was, r);
    forall q | q in held' ensures RunOk(blocks, q)
    {
      assert q in held && RunOk(was, q);
    }
    forall k, g: nat | 0 <= k < |blocks| ensures Counted(blocks0, blocks, held', k, g)
    {
      assert Counted(blocks0, was, held, k, g);
      HoldersWithout(held, m, k, g);
    }
  }

  /** Giving back a run that ends past the first 4096 frames of its block loses frames. */
  lemma LateReturnLoses(blocks0: seq<Block>, was: seq<Block>, blocks: seq<Block>, held: seq<Run>, m: nat, ok: bool)
    requires Conserved(blocks0, was, held) && m < |held| && |blocks| == |was| && held[m].block < |was|
    requires held[m].frame + held[m].n > GROUP
    requires Returned(was[held[m].block], blocks[held[m].block], held[m].frame, held[m].n, ok)
    ensures !Conserved(blocks0, blocks, held[..m] + held[m + 1..])
  {
    hide IsFree, Gave;
    var r := held[m];
    var k, g := r.block, r.frame + r.n - 1;
    assert r in held && RunOk(was, r);
    assert Counted(blocks0, was, held, k, g);
    HoldersWithout(held, m, k, g);
    assert Covers(r, k, g);
    assert !Counted(blocks0, blocks, held[..m] + held[m + 1..], k, g);
  }

  /** A run of 64 frames, which is not marked used, is held and free at once. */
  lemma WholeWordHeldTwice(blocks0: seq<Block>, blocks: seq<Block>, held: seq<Run>, i: nat, f: nat, n: nat, count: nat)
    requires Conserved(blocks0, blocks, held) && i < |blocks| && LongestRun(blocks[i], f, n, count) && n > 0
    ensures !Conserved(blocks0, blocks, held + [Run(i, blocks[i].base + f * FRAME_SIZE, n, f)])
  {
    hide IsFree;
    var r := Run(i, blocks[i].base + f * FRAME_SIZE, n, f);
    var held' := held + [r];
    assert Counted(blocks0, blocks, held, i, f) && IsFree(blocks[i], f);
    assert held'[..|held'| - 1] == held && Covers(r, i, f);
    assert !Counted(blocks0, blocks, held', i, f);
  }

  /** One operation keeps the frames conserved exactly when it is fine. */
  lemma StepConserves(blocks0: seq<Block>, s: Stage, op: Op, s': Stage)
    requires Sound(s.blocks) && Conserved(blocks0, s.blocks, s.held) && Step(s, op, s')
    ensures Conserved(blocks0, s'.blocks, s'.held) <==> Fine(s, op)
    ensures Fine(s, op) ==> Sound(s'.blocks)
  {
    hide Sound, BlockOk, Took, Gave, Lowest, LongestRun, IsFree, Conserved, WholeNext, Returned, Lands;
    match op
    case Take(count) =>
      var i: int, n: nat, f: nat :| TakeAt(s, count, s', i, n, f);
      TakeConserves(blocks0, s, count, s', i, n, f);
    case GiveBack(m) =>
      if m < |s.held| {
        GiveConserves(blocks0, s, m, s');
      }
  }

  lemma TakeConserves(blocks0: seq<Block>, s: Stage, count: nat, s': Stage, i: int, n: nat, f: nat)
    requires Sound(s.blocks) && Conserved(blocks0, s.blocks, s.held) && TakeAt(s, count, s', i, n, f)
    ensures Conserved(blocks0, s'.blocks, s'.held) <==> count < 64 || !WholeNext(s.blocks)
    ensures count < 64 || !WholeNext(s.blocks) ==> Sound(s'.blocks)
  {
    hide Sound, BlockOk, Took, Gave, Lowest, LongestRun, IsFree, Conserved, WholeNext;
    if i == -1 {
      NoneWhole(s.blocks);
      return;
    }
    SoundBlock(s.blocks, i);
    WholeExactly(s.blocks, i, f, n, count);
    if n == 64 {
      WholeWordHeldTwice(blocks0, s.blocks, s.held, i, f, n, count);
    } else {
      TookOk(s.blocks[i], s'.blocks[i], f, n);
      TookShape(s.blocks[i], s'.blocks[i], f, n);
      SameShapeSound(s.blocks, i, s'.blocks[i]);
      if n > 0 {
        HeldMore(blocks0, s.blocks, s'.blocks, s.held, i, f, n, count);
      } else {
        TookNothing(s.blocks, s'.blocks, i, f);
      }
    }
  }

  lemma GiveConserves(blocks0: seq<Block>, s: Stage, m: nat, s': Stage)
    requires Sound(s.blocks) && Conserved(blocks0, s.blocks, s.held) && m < |s.held| && GiveAt(s, m, s')
    ensures Conserved(blocks0, s'.blocks, s'.held) <==> s.held[m].frame + s.held[m].n <= GROUP
    ensures s.held[m].frame + s.held[m].n <= GROUP ==> Sound(s'.blocks)
  {
    hide Sound, BlockOk, Gave, IsFree, Conserved, Returned;
    var r := s.held[m];
    if r.frame + r.n <= GROUP {
      HeldLess(blocks0, s.blocks, s'.blocks, s.held, m, r.frame + r.n < FRAMES_PER_BLOCK);
      GivenSound(blocks0, s, m, s');
    } else {
      LateReturnLoses(blocks0, s.blocks, s'.blocks, s.held, m, r.frame + r.n < FRAMES_PER_BLOCK);
    }
  }

  lemma GivenSound(blocks0: seq<Block>, s: Stage, m: nat, s': Stage)
    requires Sound(s.blocks) && Conserved(blocks0, s.blocks, s.held) && m < |s.held| && GiveAt(s, m, s')
    requires s.held[m].frame + s.held[m].n <= GROUP
    ensures Sound(s'.blocks)
  {
    hide Sound, BlockOk, Gave, IsFree, Counted;
    var r := s.held[m];
    assert r in s.held && RunOk(s.blocks, r);
    SoundBlock(s.blocks, r.block);
    GaveOk(s.blocks[r.block], s'.blocks[r.block], r.frame, r.n);
    SameShapeSound(s.blocks, r.block, s'.blocks[r.block]);
  }

  /** Over any run of requests and returns, every frame that was free at the start is free or held exactly once
      in every state, and no other is either, if and only if every operation is fine. */
  lemma {:induction false} RunConserves(ops: seq<Op>, trace: seq<Stage>)
    requires |trace| == |ops| + 1 && Sound(trace[0].blocks) && trace[0].held == []
    requires forall i :: 0 <= i < |ops| ==> Step(trace[i], ops[i], trace[i + 1])
    ensures (forall i :: 0 <= i <= |ops| ==> Conserved(trace[0].blocks, trace[i].blocks, trace[i].held)) <==>
      forall i :: 0 <= i < |ops| ==> Fine(trace[i], ops[i])
    ensures (forall i :: 0 <= i < |ops| ==> Fine(trace[i], ops[i])) ==> Sound(trace[|ops|].blocks)
  {
    hide Sound, Conserved, Step, Fine;
    if |ops| == 0 {
      NothingHeld(trace[0].blocks);
    } else {
      var last := |ops| - 1;
      RunConserves(ops[..last], trace[..|ops|]);
      if forall i :: 0 <= i < last ==> Fine(trace[i], ops[i]) {
        StepConserves(trace[0].blocks, trace[last], ops[last], trace[|ops|]);
      }
    }
  }

  /** The frame of a block at an address. */
  function FrameIn(b: Block, address: nat): nat
    requires Contains(b, address)
  {
    (address - b.base) / FRAME_SIZE
  }

  predicate RunInBlock(blocks: seq<Block>, address: nat, count: nat)
  {
    forall k :: 0 <= k < |blocks| && Contains(blocks[k], address) ==>
      FrameIn(blocks[k], address) + count <= blocks[k].count
  }

  /** A frame of the run has index `h` within its group of 4096. */
  ghost predicate Lands(f: nat, n: nat, h: nat)
  {
    exists g: nat :: f <= g < f + n && g % GROUP == h
  }

  /** What free does to the block that holds the run: whatever group a frame is in, it is the frame with its
      index in the first group that becomes free.  That is right for a run that ends in the first group, and
      wrong beyond it for frames that were in use. */
  ghost predicate Returned(b: Block, b': Block, f: nat, n: nat, ok: bool)
  {
    && (ok <==> f + n < FRAMES_PER_BLOCK) && b'.base == b.base && b'.count == b.count && |b'.bitmap| == |b.bitmap|
    && (forall h: nat :: IsFree(b', h) <==> IsFree(b, h) || Lands(f, n, h))
    && (f + n <= GROUP ==> Gave(b, b', f, n))
    && ((forall g: nat :: f <= g < f + n ==> !IsFree(b, g)) ==> (Gave(b, b', f, n) <==> f + n <= GROUP))
  }

  ghost predicate Marked(b: Block, b': Block, f: nat, n: nat, ok: bool)
  {
    && (ok <==> f + n < FRAMES_PER_BLOCK) && b'.base == b.base && b'.count == b.count && |b'.bitmap| == |b.bitmap|
    && (forall h: nat :: IsFree(b', h) <==> IsFree(b, h) && !Lands(f, n, h))
    && (f + n <= GROUP ==> Took(b, b', f, n))
    && ((forall g: nat :: f <= g < f + n ==> IsFree(b, g)) ==> (Took(b, b', f, n) <==> f + n <= GROUP))
  }

  lemma ReturnedBy(b: Block, address: nat, n: nat)
    requires BlockOk(b) && Contains(b, address) && n > 0 && FrameIn(b, address) + n <= b.count
    ensures var f := FrameIn(b, address);
      Shaped(b) && Reaches(b, f, n) && Returned(b, Freed(b, f, n), f, n, f + n < FRAMES_PER_BLOCK)
  {
    hide Freed, Gave, IsFree, FrameIn, Lands;
    var f := FrameIn(b, address);
    OkShape(b);
    RunReaches(b, f, n);
    OkSummary(b);
    FreedBeyond(b, f, n);
    FreedLands(b, f, n);
    if f + n <= GROUP { FreedInside(b, f, n); }
    if forall g: nat :: f <= g < f + n ==> !IsFree(b, g) { FreeExactlyWhen(b, f, n); }
  }

  lemma MarkedBy(b: Block, address: nat, n: nat)
    requires BlockOk(b) && Contains(b, address) && n > 0 && FrameIn(b, address) + n <= b.count
    ensures var f := FrameIn(b, address);
      Shaped(b) && Reaches(b, f, n) && Marked(b, Used(b, f, n), f, n, f + n < FRAMES_PER_BLOCK)
  {
    hide Used, Took, IsFree, FrameIn, Lands;
    var f := FrameIn(b, address);
    OkShape(b);
    RunReaches(b, f, n);
    OkSummary(b);
    UsedBeyond(b, f, n);
    UsedLands(b, f, n);
    if f + n <= GROUP { UsedInside(b, f, n); }
    if forall g: nat :: f <= g < f + n ==> IsFree(b, g) { UseExactlyWhen(b, f, n); }
  }

  /** Blocks that are apart share no address. */
  lemma NotBoth(blocks: seq<Block>, address: nat, i: nat, j: nat)
    requires AllApart(blocks) && i < |blocks| && j < |blocks| && i != j && Contains(blocks[i], address)
    ensures !Contains(blocks[j], address)
  {
    if i < j { assert Apart(blocks[i], blocks[j]); } else { assert Apart(blocks[j], blocks[i]); }
  }

  lemma Isolated(blocks: seq<Block>, address: nat, i: int)
    requires AllApart(blocks) && -1 <= i < |blocks| && (i >= 0 ==> Contains(blocks[i], address))
    requires i == -1 ==> forall k :: 0 <= k < |blocks| ==> !Contains(blocks[k], address)
    ensures forall k :: 0 <= k < |blocks| && Contains(blocks[k], address) ==> k == i
  {
    hide AllApart;
    forall k | 0 <= k < |blocks| && k != i ensures !Contains(blocks[k], address)
    {
      if i >= 0 { NotBoth(blocks, address, i, k); }
    }
  }

  ghost predicate Sound(blocks: seq<Block>)
  {
    AllApart(blocks) && forall i :: 0 <= i < |blocks| ==> BlockOk(blocks[i])
  }

  lemma SameShapeSound(blocks: seq<Block>, i: nat, b': Block)
    requires Sound(blocks) && i < |blocks| && BlockOk(b') && b'.base == blocks[i].base && b'.count == blocks[i].count
    ensures Sound(blocks[i := b'])
  {
    hide BlockOk;
    var blocks' := blocks[i := b'];
    forall k, m | 0 <= k < m < |blocks'| ensures Apart(blocks'[k], blocks'[m])
    {
      assert Apart(blocks[k], blocks[m]);
    }
  }

  lemma GaveOk(b: Block, b': Block, f: nat, n: nat)
    requires BlockOk(b) && Gave(b, b', f, n) && f + n <= b.count
    ensures BlockOk(b')
  {
    hide IsFree, Summary;
  }

  lemma TookOk(b: Block, b': Block, f: nat, n: nat)
    requires BlockOk(b) && Took(b, b', f, n)
    ensures BlockOk(b')
  {
    hide IsFree, Summary;
  }

  lemma ReturnedValid(blocks: seq<Block>, blocks': seq<Block>, address: nat, count: nat, i: int, ok: bool)
    requires Sound(blocks) && |blocks'| == |blocks| && -1 <= i < |blocks| && RunInBlock(blocks, address, count)
    requires if i >= 0 then Contains(blocks[i], address) && blocks' == blocks[i := blocks'[i]] else blocks' == blocks
    requires i >= 0 ==> Returned(blocks[i], blocks'[i], FrameIn(blocks[i], address), count, ok)
    ensures (i >= 0 ==> FrameIn(blocks[i], address) + count <= GROUP) ==> Sound(blocks')
  {
    hide BlockOk, AllApart, Gave, FrameIn;
    if i >= 0 && FrameIn(blocks[i], address) + count <= GROUP {
      var f := FrameIn(blocks[i], address);
      GaveOk(blocks[i], blocks'[i], f, count);
      GaveShape(blocks[i], blocks'[i], f, count);
      SameShapeSound(blocks, i, blocks'[i]);
    }
  }

  lemma MarkedValid(blocks: seq<Block>, blocks': seq<Block>, address: nat, count: nat, i: int, ok: bool)
    requires Sound(blocks) && |blocks'| == |blocks| && -1 <= i < |blocks| && RunInBlock(blocks, address, count)
    requires if i >= 0 then Contains(blocks[i], address) && blocks' == blocks[i := blocks'[i]] else blocks' == blocks
    requires i >= 0 ==> Marked(blocks[i], blocks'[i], FrameIn(blocks[i], address), count, ok)
    ensures (i >= 0 ==> FrameIn(blocks[i], address) + count <= GROUP) ==> Sound(blocks')
  {
    hide BlockOk, AllApart, Took, FrameIn;
    if i >= 0 && FrameIn(blocks[i], address) + count <= GROUP {
      var f := FrameIn(blocks[i], address);
      TookOk(blocks[i], blocks'[i], f, count);
      TookShape(blocks[i], blocks'[i], f, count);
      SameShapeSound(blocks, i, blocks'[i]);
    }
  }

  lemma GaveShape(b: Block, b': Block, f: nat, n: nat)
    requires Gave(b, b', f, n)
    ensures b'.base == b.base && b'.count == b.count
  {
  }

  lemma TookShape(b: Block, b': Block, f: nat, n: nat)
    requires Took(b, b', f, n)
    ensures b'.base == b.base && b'.count == b.count
  {
  }

  /** The counters of the next frame. */
  method NextFrame(ghost g: nat, o1: nat, o2: nat, o3: nat) returns (p1: nat, p2: nat, p3: nat)
    requires o1 == g / 4096 && o2 == g / 64 % 64 && o3 == g % 64
    ensures var h := g + 1; p1 == h / 4096 && p2 == h / 64 % 64 && p3 == h % 64
  {
    p1, p2, p3 := o1, o2, o3 + 1;
    if p3 == 64 {
      p2, p3 := p2 + 1, 0;
      if p2 == 64 {
        p1, p2 := p1 + 1, 0;
      }
    }
    Counters(g, o1, o2, o3);
    Unsplit(g + 1, p1, p2, p3);
  }

  lemma Counters(g: nat, o1: nat, o2: nat, o3: nat)
    requires o1 == g / 4096 && o2 == g / 64 % 64 && o3 == g % 64
    ensures g == 4096 * o1 + 64 * o2 + o3 && o2 < 64 && o3 < 64
  {
    assert g == 64 * (g / 64) + o3 && g / 64 == 64 * (g / 64 / 64) + o2;
    assert g / 64 / 64 == g / 4096;
  }

  lemma Unsplit(h: nat, p1: nat, p2: nat, p3: nat)
    requires h == 4096 * p1 + 64 * p2 + p3 && p2 < 64 && p3 < 64
    ensures p1 == h / 4096 && p2 == h / 64 % 64 && p3 == h % 64
  {
    assert h / 64 == 64 * p1 + p2;
  }

  lemma LastFrame(g: nat)
    requires g < FRAMES_PER_BLOCK && (g + 1) / 4096 == 64
    ensures g + 1 == FRAMES_PER_BLOCK
  {
  }

  lemma OkShape(b: Block)
    requires BlockOk(b)
    ensures Shaped(b) && b.count <= FRAMES_PER_BLOCK && forall g: nat {:trigger WordOf(g)} :: g < b.count ==>
      WordOf(g) < |b.bitmap|
  {
    hide IsFree;
  }

  /** The bitmap word that free and used write for frame `g`: its index within its group alone. */
  function WordOf(g: nat): nat { g / 64 % 64 }

  /** Every frame of the run has its word in the bitmap. */
  predicate Reaches(b: Block, f: nat, n: nat)
  {
    f + n <= FRAMES_PER_BLOCK && forall g: nat {:trigger WordOf(g)} :: f <= g < f + n ==> WordOf(g) < |b.bitmap|
  }

  function Freed(b: Block, f: nat, n: nat): (b': Block)
    requires Shaped(b) && Reaches(b, f, n)
    ensures Shaped(b') && |b'.bitmap| == |b.bitmap|
  {
    if n == 0 then b
    else
      var b1 := Freed(b, f, n - 1);
      var g := f + n - 1;
      SetShape(b1, g / 4096, WordOf(g), WordOf(g), g % 64);
      SetFrame(b1, g / 4096, WordOf(g), WordOf(g), g % 64)
  }

  function Used(b: Block, f: nat, n: nat): (b': Block)
    requires Shaped(b) && Reaches(b, f, n)
    ensures Shaped(b') && |b'.bitmap| == |b.bitmap|
  {
    if n == 0 then b
    else
      var b1 := Used(b, f, n - 1);
      var g := f + n - 1;
      ClearShape(b1, g / 4096, WordOf(g), WordOf(g), g % 64);
      ClearWord(b1, g / 4096, WordOf(g), WordOf(g), ClearRun(b1.bitmap[WordOf(g)], g % 64, 1))
  }

  lemma SetShape(b: Block, o1: nat, o2: nat, k: nat, o3: nat)
    requires Shaped(b) && o1 < 64 && o2 < 64 && o3 < 64 && k < |b.bitmap|
    ensures var b' := SetFrame(b, o1, o2, k, o3);
      Shaped(b') && b'.base == b.base && b'.count == b.count && b'.bitmap == b.bitmap[k := SetBit(b.bitmap[k], o3)]
  {
    hide SetBit;
    SetBitBits(b.map1, o1);
    SetBitBits(b.map2[o1], o2);
    SetBitBits(b.bitmap[k], o3);
  }

  lemma ClearShape(b: Block, o1: nat, o2: nat, k: nat, o3: nat)
    requires Shaped(b) && o1 < 64 && o2 < 64 && o3 < 64 && k < |b.bitmap|
    ensures var b' := ClearWord(b, o1, o2, k, ClearRun(b.bitmap[k], o3, 1));
      Shaped(b') && b'.base == b.base && b'.count == b.count && b'.bitmap == b.bitmap[k := ClearRun(b.bitmap[k], o3, 1)]
  {
    hide ClearRun;
    ClearRunBits(b.bitmap[k], o3, 1);
    ClearRunBits(b.map2[o1], o2, 1);
    ClearRunBits(b.map1, o1, 1);
  }

  /** Words past the first 64 are never written. */
  lemma {:induction false} FreedBeyond(b: Block, f: nat, n: nat)
    requires Shaped(b) && Reaches(b, f, n)
    ensures var b' := Freed(b, f, n);
      b'.base == b.base && b'.count == b.count && forall j :: 64 <= j < |b.bitmap| ==> b'.bitmap[j] == b.bitmap[j]
  {
    hide SetFrame, SetBit;
    if n > 0 {
      FreedBeyond(b, f, n - 1);
      var g := f + n - 1;
      SetShape(Freed(b, f, n - 1), g / 4096, WordOf(g), WordOf(g), g % 64);
    }
  }

  lemma {:induction false} UsedBeyond(b: Block, f: nat, n: nat)
    requires Shaped(b) && Reaches(b, f, n)
    ensures var b' := Used(b, f, n);
      b'.base == b.base && b'.count == b.count && forall j :: 64 <= j < |b.bitmap| ==> b'.bitmap[j] == b.bitmap[j]
  {
    hide ClearWord, ClearRun;
    if n > 0 {
      UsedBeyond(b, f, n - 1);
      var g := f + n - 1;
      ClearShape(Used(b, f, n - 1), g / 4096, WordOf(g), WordOf(g), g % 64);
    }
  }

  lemma LandsMore(f: nat, n: nat, h: nat)
    requires n > 0
    ensures Lands(f, n, h) <==> Lands(f, n - 1, h) || h == (f + n - 1) % GROUP
  {
    var last := f + n - 1;
    if h == last % GROUP { assert f <= last < f + n; }
  }

  lemma IndexInGroup(g: nat)
    ensures g % GROUP / 64 == WordOf(g) && g % GROUP % 64 == g % 64
  {
  }

  /** The frames that free makes free. */
  lemma {:induction false} FreedLands(b: Block, f: nat, n: nat)
    requires Shaped(b) && Reaches(b, f, n)
    ensures forall h: nat :: IsFree(Freed(b, f, n), h) <==> IsFree(b, h) || Lands(f, n, h)
  {
    hide SetFrame, SetBit, Bit, Freed, IsFree, Reaches;
    ReachesLess(b, f, n);
    if n == 0 {
      FreedNone(b, f);
    } else {
      hide Lands;
      FreedLands(b, f, n - 1);
      var g := f + n - 1;
      var b1 := Freed(b, f, n - 1);
      FreedStep(b, f, n);
      SetShape(b1, g / 4096, WordOf(g), WordOf(g), g % 64);
      IndexInGroup(g);
      GaveOne(b1, Freed(b, f, n), g % GROUP);
      forall h: nat ensures Lands(f, n, h) <==> Lands(f, n - 1, h) || h == g % GROUP { LandsMore(f, n, h); }
    }
  }

  /** The frames that used takes. */
  lemma {:induction false} UsedLands(b: Block, f: nat, n: nat)
    requires Shaped(b) && Reaches(b, f, n)
    ensures forall h: nat :: IsFree(Used(b, f, n), h) <==> IsFree(b, h) && !Lands(f, n, h)
  {
    hide ClearWord, ClearRun, Bit, Used, IsFree, Reaches;
    ReachesLess(b, f, n);
    if n == 0 {
      UsedNone(b, f);
    } else {
      hide Lands;
      UsedLands(b, f, n - 1);
      var g := f + n - 1;
      var b1 := Used(b, f, n - 1);
      UsedStep(b, f, n);
      ClearShape(b1, g / 4096, WordOf(g), WordOf(g), g % 64);
      IndexInGroup(g);
      TookOne(b1, Used(b, f, n), g % GROUP);
      forall h: nat ensures Lands(f, n, h) <==> Lands(f, n - 1, h) || h == g % GROUP { LandsMore(f, n, h); }
    }
  }

  /** Inside the first 4096 frames, free frees exactly the run and keeps the summaries. */
  lemma {:induction false} FreedInside(b: Block, f: nat, n: nat)
    requires Summary(b) && Reaches(b, f, n) && f + n <= GROUP
    ensures Gave(b, Freed(b, f, n), f, n)
  {
    hide SetFrame, SetBit, Summary, Bit, Freed, IsFree, Reaches;
    BlockShape(b);
    ReachesLess(b, f, n);
    if n == 0 {
      FreedNone(b, f);
    } else {
      FreedInside(b, f, n - 1);
      var g := f + n - 1;
      var b1 := Freed(b, f, n - 1);
      FreedStep(b, f, n);
      InGroup(g);
      SetFrameKeeps(b1, 0, WordOf(g), g % 64);
      SetShape(b1, 0, WordOf(g), WordOf(g), g % 64);
      GaveOne(b1, Freed(b, f, n), g);
    }
  }

  lemma RunReaches(b: Block, f: nat, n: nat)
    requires BlockOk(b) && f + n <= b.count
    ensures forall m: nat :: m <= n ==> Reaches(b, f, m)
  {
    OkShape(b);
  }

  lemma InGroup(g: nat)
    requires g < GROUP
    ensures g / 4096 == 0 && WordOf(g) == g / 64
  {
  }

  lemma ReachesLess(b: Block, f: nat, n: nat)
    requires Reaches(b, f, n)
    ensures n > 0 ==> Reaches(b, f, n - 1) && WordOf(f + n - 1) < |b.bitmap| && (f + n - 1) / 4096 < 64
  {
  }

  lemma FreedNone(b: Block, f: nat)
    requires Shaped(b) && Reaches(b, f, 0)
    ensures Freed(b, f, 0) == b
  {
  }

  lemma FreedStep(b: Block, f: nat, n: nat)
    requires Shaped(b) && Reaches(b, f, n) && n > 0
    ensures var g := f + n - 1;
      && Reaches(b, f, n - 1) && WordOf(g) < |b.bitmap|
      && Freed(b, f, n) == SetFrame(Freed(b, f, n - 1), g / 4096, WordOf(g), WordOf(g), g % 64)
  {
    hide SetFrame;
  }

  lemma UsedNone(b: Block, f: nat)
    requires Shaped(b) && Reaches(b, f, 0)
    ensures Used(b, f, 0) == b
  {
  }

  lemma UsedStep(b: Block, f: nat, n: nat)
    requires Shaped(b) && Reaches(b, f, n) && n > 0
    ensures var g := f + n - 1;
      && Reaches(b, f, n - 1) && WordOf(g) < |b.bitmap|
      && var b1 := Used(b, f, n - 1);
        Used(b, f, n) == ClearWord(b1, g / 4096, WordOf(g), WordOf(g), ClearRun(b1.bitmap[WordOf(g)], g % 64, 1))
  {
    hide ClearWord, ClearRun;
  }

  lemma GaveOne(b: Block, b': Block, g: nat)
    requires Shaped(b) && g / 64 < |b.bitmap| && b'.bitmap == b.bitmap[g / 64 := SetBit(b.bitmap[g / 64], g % 64)]
    ensures forall h: nat :: IsFree(b', h) <==> IsFree(b, h) || h == g
  {
    hide Bit, SetBit;
    SetBitBits(b.bitmap[g / 64], g % 64);
    forall h: nat ensures IsFree(b', h) <==> IsFree(b, h) || h == g
    {
      assert h == g <==> h / 64 == g / 64 && h % 64 == g % 64;
    }
  }

  /** Inside the first 4096 frames, used takes exactly the run and keeps the summaries. */
  lemma {:induction false} UsedInside(b: Block, f: nat, n: nat)
    requires Summary(b) && Reaches(b, f, n) && f + n <= GROUP
    ensures Took(b, Used(b, f, n), f, n)
  {
    hide ClearWord, ClearRun, Summary, Bit, Used, IsFree, Reaches;
    BlockShape(b);
    ReachesLess(b, f, n);
    if n == 0 {
      UsedNone(b, f);
    } else {
      UsedInside(b, f, n - 1);
      var g := f + n - 1;
      var b1 := Used(b, f, n - 1);
      UsedStep(b, f, n);
      InGroup(g);
      var w := b1.bitmap[WordOf(g)];
      ClearRunBits(w, g % 64, 1);
      NonzeroStays(w, ClearRun(w, g % 64, 1));
      ClearWordKeeps(b1, 0, WordOf(g), ClearRun(w, g % 64, 1));
      ClearShape(b1, 0, WordOf(g), WordOf(g), g % 64);
      TookOne(b1, Used(b, f, n), g);
    }
  }

  lemma TookOne(b: Block, b': Block, g: nat)
    requires Shaped(b) && g / 64 < |b.bitmap| && b'.bitmap == b.bitmap[g / 64 := ClearRun(b.bitmap[g / 64], g % 64, 1)]
    ensures forall h: nat :: IsFree(b', h) <==> IsFree(b, h) && h != g
  {
    hide Bit, ClearRun;
    ClearRunBits(b.bitmap[g / 64], g % 64, 1);
    forall h: nat ensures IsFree(b', h) <==> IsFree(b, h) && h != g
    {
      assert h == g <==> h / 64 == g / 64 && h % 64 == g % 64;
    }
  }

  /** A frame in use beyond the first 4096 is not freed: the run must end there. */
  lemma FreeExactlyWhen(b: Block, f: nat, n: nat)
    requires BlockOk(b) && n > 0 && f + n <= b.count && forall g: nat :: f <= g < f + n ==> !IsFree(b, g)
    ensures Reaches(b, f, n) && (Gave(b, Freed(b, f, n), f, n) <==> f + n <= GROUP)
  {
    hide SetFrame, Summary, Bit, Freed;
    OkShape(b);
    OkSummary(b);
    if f + n <= GROUP {
      FreedInside(b, f, n);
    } else {
      var g := f + n - 1;
      FreedBeyond(b, f, n);
      assert g / 64 >= 64 && !IsFree(b, g);
      assert !IsFree(Freed(b, f, n), g);
    }
  }

  /** A free frame beyond the first 4096 is not taken. */
  lemma UseExactlyWhen(b: Block, f: nat, n: nat)
    requires BlockOk(b) && n > 0 && f + n <= b.count && forall g: nat :: f <= g < f + n ==> IsFree(b, g)
    ensures Reaches(b, f, n) && (Took(b, Used(b, f, n), f, n) <==> f + n <= GROUP)
  {
    hide ClearWord, Summary, Bit, Used;
    OkShape(b);
    OkSummary(b);
    if f + n <= GROUP {
      UsedInside(b, f, n);
    } else {
      var g := f + n - 1;
      UsedBeyond(b, f, n);
      assert g / 64 >= 64 && IsFree(b, g);
      assert IsFree(Used(b, f, n), g);
    }
  }

  lemma OkSummary(b: Block)
    requires BlockOk(b)
    ensures Summary(b)
  {
  }

  lemma FirstIs(b: Block)
    requires Summary(b) && b.map1 != 0
    ensures var o1 := Tzcnt(b.map1); o1 < 64 && Tzcnt(b.map2[o1]) < 64 && 64 * o1 + Tzcnt(b.map2[o1]) < |b.bitmap|
    ensures var o1 := Tzcnt(b.map1); var o2 := Tzcnt(b.map2[o1]); First(b) == (o1, o2, Tzcnt(b.bitmap[64 * o1 + o2]))
  {
    FirstFacts(b);
  }

  /** A taken run leaves the block sound, apart from the others, and never still free. */
  lemma TakenOk(blocks: seq<Block>, k: nat, f: nat, n: nat, b': Block)
    requires AllApart(blocks) && (forall i :: 0 <= i < |blocks| ==> BlockOk(blocks[i])) && k < |blocks|
    requires IsFree(blocks[k], f) && n <= 64 && (n < 64 ==> Took(blocks[k], b', f, n)) && (n == 64 ==> b' == blocks[k])
    ensures AllApart(blocks[k := b']) && BlockOk(b')
    ensures n < 64 <==> Took(blocks[k], b', f, n)
  {
    hide IsFree, Summary;
    assert BlockOk(blocks[k]);
    var blocks' := blocks[k := b'];
    forall i, j | 0 <= i < j < |blocks'| ensures Apart(blocks'[i], blocks'[j])
    {
      assert Apart(blocks[i], blocks[j]);
    }
  }

  function EmptyBlock(count: nat): Block
  {
    Block(0, count, 0, seq(64, _ => 0), seq((count + 63) / 64, _ => 0))
  }

  lemma EmptyBlockOk(count: nat)
    requires count <= FRAMES_PER_BLOCK
    ensures BlockOk(EmptyBlock(count)) && forall f: nat :: !IsFree(EmptyBlock(count), f)
  {
    hide Bit;
    var b := EmptyBlock(count);
    forall f: nat ensures !IsFree(b, f) { ZeroBits(f % 64); }
    forall i | 0 <= i < 64 ensures TopAt(b, i) { ZeroBits(i); }
    forall o1, o2 | 0 <= o1 < 64 && 0 <= o2 < 64 ensures MiddleAt(b, o1, o2) { ZeroBits(o2); }
  }

  /** Freeing frame 4096 of a block frees frame 0 instead. */
  lemma FreeGoesAstray()
    ensures var b := EmptyBlock(4160);
      && BlockOk(b) && Reaches(b, 4096, 1)
      && var b' := Freed(b, 4096, 1); IsFree(b', 0) && !IsFree(b', 4096) && !Summary(b')
  {
    hide Bit, SetBit, ClearRun;
    var b := EmptyBlock(4160);
    EmptyBlockOk(4160);
    OkShape(b);
    RunReaches(b, 4096, 1);
    FreedStep(b, 4096, 1);
    FreedNone(b, 4096);
    FreedBeyond(b, 4096, 1);
    var b' := Freed(b, 4096, 1);
    assert WordOf(4096) == 0;
    SetShape(b, 1, 0, 0, 0);
    SetBitBits(0, 0);
    SetBitBits(0, 1);
    assert !IsFree(b, 4096);
    assert b'.map2[1] == SetBit(0, 0) && b'.bitmap[64] == 0;
    assert !MiddleAt(b', 1, 0);
  }

  /** A request takes a whole word, and leaves it marked free, exactly when it asks for 64 frames
      or more and the first word with a free frame is all free. */
  lemma WholeWord(b: Block, count: nat)
    requires Summary(b) && b.map1 != 0
    ensures var (o1, o2, o3) := First(b);
      var w := b.bitmap[64 * o1 + o2];
      && IsWord(w)
      && (Min(RunLength(w, o3), count) == 64 <==> count >= 64 && w == TWO_64 - 1)
  {
    hide Bit, Tzcnt, ShiftRight, First, Summary;
    BlockShape(b);
    WalkBits(b);
    var (o1, o2, o3) := First(b);
    var w := b.bitmap[64 * o1 + o2];
    RunLengthBits(w, o3);
    FullWord(TWO_64 - 1);
    if RunLength(w, o3) == 64 {
      SameWord(w, TWO_64 - 1);
    }
    assert w == TWO_64 - 1 ==> Bit(w, 0);
  }

  lemma FullWord(w: nat)
    requires w == TWO_64 - 1
    ensures forall i :: 0 <= i < 64 ==> Bit(w, i)
  {
    hide Bit, Pow2;
    var n := Width();
    forall i | 0 <= i < 64 ensures Bit(w, i)
    {
      MaskBit(n, i);
    }
  }
}
