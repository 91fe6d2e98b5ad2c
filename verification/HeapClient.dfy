/** What the heap means to its clients: every run of the allocator behaves like a set of
private buffers, one per live pointer. */
module HeapClient {
  import opened Bits
  import opened Memory
  import opened HeapModel
  import opened Heap
  import opened HeapBook

  datatype Op =
    | Alloc(length: nat)
    | Write(p: nat, offset: nat, data: seq<byte>)
    | Resize(p: nat, newLength: nat)
    | Release(p: nat)

  /** A buffer's contents by pointer. */
  type Buffers = map<nat, seq<byte>>

  /** What a run shows of the heap: the clients' buffers and the allocator's books. */
  datatype Snap = Snap(buffers: Buffers, book: Book)

  ghost function Shot(h: HeapAllocator, b: Buffers): Snap
    reads h, h.table
  {
    Snap(b, h.Books())
  }

  ghost predicate Room(h: HeapAllocator, s: Snap, n: nat)
  {
    Serves(s.book, h.start + h.maxSize, OrderFor(n))
  }

  /** The block of a live pointer is too small for `n` bytes. */
  ghost predicate Outgrown(s: Snap, p: nat, n: nat)
  {
    p in s.book.blocks && n > Size(s.book.blocks[p].order)
  }

  /** The operations that are served: those that fit the buffers, and for which there is room. */
  ghost predicate Legal(h: HeapAllocator, s: Snap, op: Op)
  {
    match op
    case Alloc(n) => 0 < n <= 0x40_0000 && Room(h, s, n)
    case Write(p, offset, data) => p in s.buffers && offset + |data| <= |s.buffers[p]|
    case Resize(p, n) => p in s.buffers && 0 < n && (Outgrown(s, p, n) && n <= 0x40_0000 ==> Room(h, s, n))
    case Release(p) => p in s.buffers
  }

  /** The books in which an operation frees its block: those before it, or for a buffer that moves
      those with its new block. */
  ghost function FreedIn(h: HeapAllocator, s: Snap, op: Op): Book
  {
    if op.Resize? && op.newLength <= 0x40_0000 then Obtained(h.start, s.book, OrderFor(op.newLength)).1 else s.book
  }

  /** The operation frees a block, and this moves another entry out of the block map's table. */
  ghost predicate Tears(h: HeapAllocator, s: Snap, op: Op)
  {
    && (op.Release? || (op.Resize? && Outgrown(s, op.p, op.newLength)))
    && FreeTears(h.start, FreedIn(h, s, op), op.p)
  }

  /** One step: what it does to the private buffers, and the books it leaves. */
  ghost predicate Step(h: HeapAllocator, s: Snap, op: Op, served: bool, s': Snap)
  {
    var b, b' := s.buffers, s'.buffers;
    if !served then s' == s
    else match op
      case Alloc(n) =>
        var o := Obtained(h.start, s.book, OrderFor(n));
        NewBuffer(b, n, o.0, b') && s'.book == o.1
      case Write(p, offset, data) =>
        p in b && offset + |data| <= |b[p]| && s' == s.(buffers := b[p := Spliced(b[p], offset, data)])
      case Resize(p, n) =>
        var o := Obtained(h.start, s.book, OrderFor(n));
        p in b &&
        if !Outgrown(s, p, n) then ResizedTo(b, p, n, p, b') && s'.book == s.book
        else if n > 0x40_0000 then b' == b - {p} && s'.book == Freed(h.start, s.book, p)
        else o.0 != p && ResizedTo(b, p, n, o.0, b') && s'.book == Freed(h.start, o.1, p)
      case Release(p) =>
        p in b && b' == b - {p} && s'.book == Freed(h.start, s.book, p)
  }

  /** A new buffer of `n` bytes, of any contents. */
  ghost predicate NewBuffer(b: Buffers, n: nat, p: nat, b': Buffers)
  {
    p != 0 && p !in b && p in b' && |b'[p]| == n && b' == b[p := b'[p]]
  }

  function Spliced(c: seq<byte>, offset: nat, data: seq<byte>): (r: seq<byte>)
    requires offset + |data| <= |c|
  {
    c[..offset] + data + c[offset + |data|..]
  }

  function WithBuffer(b: Buffers, p: nat, c: seq<byte>): Buffers { b[p := c] }

  /** Buffer `p` gives way to buffer `r`. */
  function Replaced(b: Buffers, p: nat, r: nat, c: seq<byte>): Buffers
  {
    (b - {p})[r := c]
  }

  ghost predicate ResizedTo(b: Buffers, p: nat, n: nat, r: nat, b': Buffers)
    requires p in b
  {
    && (r == p || r !in b) && r in b' && |b'[r]| == n
    && Resized(b[p], b'[r]) && b' == Replaced(b, p, r, b'[r])
  }

  /** The first bytes survive a resize. */
  ghost predicate Resized(c: seq<byte>, c': seq<byte>)
  {
    forall i :: 0 <= i < |c| && i < |c'| ==> c'[i] == c[i]
  }

  /** The live blocks hold exactly the buffers' bytes. */
  ghost predicate Holds(live: map<nat, nat>, m: seq<byte>, b: Buffers)
  {
    b.Keys == live.Keys && forall p :: p in b ==> Held(live, m, b, p)
  }

  ghost predicate Held(live: map<nat, nat>, m: seq<byte>, b: Buffers, p: nat)
  {
    p in b && p in live && |b[p]| <= Size(live[p]) && p + |b[p]| <= |m| && m[p..p + |b[p]|] == b[p]
  }

  /** Buffers of spared blocks are still held. */
  lemma HoldsOn(live: map<nat, nat>, m: seq<byte>, live': map<nat, nat>, m': seq<byte>, b: Buffers, p: nat,
                spared: map<nat, nat>, lo: nat, hi: nat)
    requires Held(live, m, b, p) && Spares(m, m', spared, lo, hi)
    requires p in live' && live'[p] == live[p] && p in spared && spared[p] == live[p]
    ensures Held(live', m', b, p)
  {
    SparedBytes(m, m', spared, lo, hi, p, |b[p]|);
  }

  lemma AllocHolds(live: map<nat, nat>, m: seq<byte>, m': seq<byte>, b: Buffers, p: nat, order: nat, n: nat, lo: nat,
                   hi: nat)
    requires Holds(live, m, b) && Spares(m, m', live, lo, hi) && p !in live && n <= Size(order) && p + n <= |m'|
    ensures Holds(live[p := order], m', WithBuffer(b, p, m'[p..p + n]))
  {
    var b' := WithBuffer(b, p, m'[p..p + n]);
    forall q | q in b' ensures Held(live[p := order], m', b', q)
    {
      if q != p {
        assert Held(live, m, b, q);
        HoldsOn(live, m, live[p := order], m', b, q, live, lo, hi);
      }
    }
  }

  lemma FreeHolds(live: map<nat, nat>, m: seq<byte>, m': seq<byte>, b: Buffers, p: nat, lo: nat, hi: nat)
    requires Holds(live, m, b) && Spares(m, m', live - {p}, lo, hi)
    ensures Holds(live - {p}, m', b - {p})
  {
    forall q | q in b - {p} ensures Held(live - {p}, m', b - {p}, q)
    {
      assert Held(live, m, b, q);
      HoldsOn(live, m, live - {p}, m', b, q, live - {p}, lo, hi);
    }
  }

  lemma WriteHolds(live: map<nat, nat>, m: seq<byte>, m': seq<byte>, b: Buffers, p: nat, offset: nat, data: seq<byte>,
                   lo: nat, hi: nat)
    requires Holds(live, m, b) && p in b && offset + |data| <= |b[p]| && |m'| == |m|
    requires p + |b[p]| <= |m| && m' == m[..p + offset] + data + m[p + offset + |data|..]
    requires Spares(m, m', live - {p}, lo, hi)
    ensures Holds(live, m', b[p := Spliced(b[p], offset, data)])
  {
    var c := Spliced(b[p], offset, data);
    var b' := b[p := c];
    assert Held(live, m, b, p);
    forall q | q in b' ensures Held(live, m', b', q)
    {
      if q != p {
        assert Held(live, m, b, q);
        HoldsOn(live, m, live, m', b, q, live - {p}, lo, hi);
      } else {
        SplicedBytes(m, m', p, offset, data, b[p]);
      }
    }
  }

  lemma SplicedBytes(m: seq<byte>, m': seq<byte>, p: nat, offset: nat, data: seq<byte>, c: seq<byte>)
    requires p + |c| <= |m| && m[p..p + |c|] == c && offset + |data| <= |c|
    requires m' == m[..p + offset] + data + m[p + offset + |data|..]
    ensures m'[p..p + |c|] == Spliced(c, offset, data)
  {
    var d := Spliced(c, offset, data);
    forall i | 0 <= i < |c| ensures m'[p..p + |c|][i] == d[i]
    {
      assert m[p + i] == m[p..p + |c|][i];
    }
  }

  lemma ResizeHolds(live: map<nat, nat>, m: seq<byte>, live': map<nat, nat>, m': seq<byte>, b: Buffers, p: nat, r: nat,
                    n: nat, lo: nat, hi: nat)
    requires Holds(live, m, b) && p in b && (r == p || r !in live)
    requires r in live' && live' == (live - {p})[r := live'[r]] && n <= Size(live'[r]) && r + n <= |m'|
    requires Spares(m, m', live - {p}, lo, hi)
    ensures Holds(live', m', Replaced(b, p, r, m'[r..r + n]))
  {
    var b' := Replaced(b, p, r, m'[r..r + n]);
    forall q | q in b' ensures Held(live', m', b', q)
    {
      if q != r {
        assert Held(live, m, b, q);
        HoldsOn(live, m, live', m', b, q, live - {p}, lo, hi);
      }
    }
  }

  /** A write below the heap leaves every buffer alone. */
  lemma LowCopyHolds(live: map<nat, nat>, m: seq<byte>, b: Buffers, from: nat, n: nat, start: nat)
    requires Holds(live, m, b) && n <= |m| && from + n <= |m| && n <= start && forall q :: q in live ==> start <= q
    ensures Holds(live, Copy(m, 0, from, n), b)
  {
    var m' := Copy(m, 0, from, n);
    forall q | q in b ensures Held(live, m', b, q)
    {
      assert Held(live, m, b, q);
      assert m'[q..q + |b[q]|] == m[q..q + |b[q]|];
    }
  }

  /** A resize within the block. */
  method ExecuteInPlace(h: HeapAllocator, p: nat, n: nat, b: Buffers) returns (b': Buffers)
    requires h.Valid() && Holds(h.Live(), h.mem, b) && p in b && 0 < n && !Outgrown(Shot(h, b), p, n)
    modifies h, h.table
    ensures h.Valid() && Holds(h.Live(), h.mem, b') && Step(h, old(Shot(h, b)), Resize(p, n), true, Shot(h, b'))
  {
    hide HeapAllocator.Valid, FreeTears, Holds, Size, OrderFor, Spares, LiveOf, ResizedTo, Step, Replaced, MovedTo,
         Obtained, Freed;
    ghost var live: map<nat, nat> := h.Live();
    HoldsAt(live, h.mem, b, p);
    h.ValidInv();
    h.NullNotLive();
    h.LiveInRange(p);
    SparesNone(h.mem, live - {p}, h.start, h.end);
    var r, torn := h.Reallocate(p, |b[p]|, n);
    b' := Replaced(b, p, p, h.mem[p..p + n]);
    SameAgain(live, p);
    ResizeHolds(live, h.mem, live, h.mem, b, p, p, n, h.start, h.end);
    ResizeResult(b, h.mem, p, p, n);
    StepInPlace(h, old(Shot(h, b)), p, n, b');
  }

  lemma SameAgain(live: map<nat, nat>, p: nat)
    requires p in live
    ensures live == (live - {p})[p := live[p]]
  {
  }

  lemma StepInPlace(h: HeapAllocator, s: Snap, p: nat, n: nat, b': Buffers)
    requires p in s.buffers && !Outgrown(s, p, n) && ResizedTo(s.buffers, p, n, p, b')
    ensures Step(h, s, Resize(p, n), true, s.(buffers := b'))
  {
    hide ResizedTo, Outgrown, Obtained, OrderFor;
  }

  lemma MovedLive(live: map<nat, nat>, m: seq<byte>, p: nat, k: nat, r: nat, n: nat, live': map<nat, nat>,
                  m': seq<byte>, lo: nat, hi: nat)
    requires MovedTo(live, m, p, k, r, n, live', m', lo, hi)
    ensures r in live' && n <= Size(live'[r])
  {
  }

  lemma MoveHolds(live: map<nat, nat>, m: seq<byte>, b: Buffers, p: nat, r: nat, n: nat, live': map<nat, nat>,
                  m': seq<byte>, lo: nat, hi: nat)
    requires Holds(live, m, b) && p in b && r != p && r !in live
    requires MovedTo(live, m, p, |b[p]|, r, n, live', m', lo, hi) && r + n <= |m'|
    ensures Holds(live', m', Replaced(b, p, r, m'[r..r + n])) && ResizedTo(b, p, n, r, Replaced(b, p, r, m'[r..r + n]))
  {
    hide Holds, Spares, Size, OrderFor, ResizedTo, Replaced;
    HoldsAt(live, m, b, p);
    HeldKey(live, m, b, r);
    ResizeHolds(live, m, live', m', b, p, r, n, lo, hi);
    ResizeResult(b, m', p, r, n);
  }

  lemma StepMoved(h: HeapAllocator, s: Snap, p: nat, n: nat, r: nat, s': Snap)
    requires p in s.buffers && Outgrown(s, p, n) && n <= 0x40_0000 && r != p
    requires ResizedTo(s.buffers, p, n, r, s'.buffers)
    requires var o := Obtained(h.start, s.book, OrderFor(n)); r == o.0 && s'.book == Freed(h.start, o.1, p)
    ensures Step(h, s, Resize(p, n), true, s')
  {
    hide ResizedTo, Outgrown, Obtained, Freed, OrderFor;
  }

  lemma ResizeResult(b: Buffers, m: seq<byte>, p: nat, r: nat, n: nat)
    requires p in b && (r == p || r !in b) && r + |b[p]| <= |m| && r + n <= |m| && m[r..r + |b[p]|] == b[p]
    ensures ResizedTo(b, p, n, r, Replaced(b, p, r, m[r..r + n]))
  {
    FirstBytes(m, r, |b[p]|, n);
  }

  /** A resize that moves the buffer to another block. */
  method ExecuteMove(h: HeapAllocator, p: nat, n: nat, b: Buffers) returns (torn: bool, b': Buffers)
    requires h.Valid() && Holds(h.Live(), h.mem, b) && p in b && 0 < n <= 0x40_0000 && Outgrown(Shot(h, b), p, n)
    requires Room(h, Shot(h, b), n)
    modifies h, h.table
    ensures torn <==> FreeTears(h.start, FreedIn(h, old(Shot(h, b)), Resize(p, n)), p)
    ensures !torn ==>
      h.Valid() && Holds(h.Live(), h.mem, b') && Step(h, old(Shot(h, b)), Resize(p, n), true, Shot(h, b'))
  {
    hide HeapAllocator.Valid, FreeTears, Holds, Size, OrderFor, Spares, LiveOf, ResizedTo, Step, Replaced, MovedTo,
         Obtained, Freed, Serves;
    ghost var live: map<nat, nat> := h.Live();
    ghost var m, s := h.mem, Shot(h, b);
    HoldsAt(live, m, b, p);
    h.ValidInv();
    h.NullNotLive();
    h.LiveInRange(p);
    OrderLeast(n);
    h.FitsBooks(OrderFor(n));
    var r;
    r, torn := h.Reallocate(p, |b[p]|, n);
    HeldKey(live, m, b, r);
    b' := b;
    if torn {
      return;
    }
    h.ValidInv();
    MovedLive(live, m, p, |b[p]|, r, n, h.Live(), h.mem, h.start, h.end);
    h.LiveInRange(r);
    MoveHolds(live, m, b, p, r, n, h.Live(), h.mem, h.start, h.end);
    b' := Replaced(b, p, r, h.mem[r..r + n]);
    StepMoved(h, s, p, n, r, Shot(h, b'));
  }

  lemma OrderLeast(n: nat)
    ensures MIN_ORDER <= OrderFor(n)
  {
  }

  /** A resize beyond the largest block loses the buffer. */
  method ExecuteLoss(h: HeapAllocator, p: nat, n: nat, b: Buffers) returns (torn: bool, b': Buffers)
    requires h.Valid() && Holds(h.Live(), h.mem, b) && p in b && n > 0x40_0000
    modifies h, h.table
    ensures Outgrown(old(Shot(h, b)), p, n) && (torn <==> FreeTears(h.start, old(h.Books()), p))
    ensures !torn ==>
      h.Valid() && Holds(h.Live(), h.mem, b') && Step(h, old(Shot(h, b)), Resize(p, n), true, Shot(h, b'))
  {
    hide HeapAllocator.Valid, FreeTears, Holds, Size, OrderFor, Spares, LiveOf, Copy, Obtained, Freed, ResizedTo;
    ghost var live: map<nat, nat> := h.Live();
    ghost var m := h.mem;
    HoldsAt(live, m, b, p);
    h.ValidInv();
    h.NullNotLive();
    h.LiveInRange(p);
    h.SizeBound(p);
    h.BelowHeap(p, |b[p]|);
    h.LiveAbove();
    var r;
    r, torn := h.Reallocate(p, |b[p]|, n);
    b' := b - {p};
    if !torn {
      LowCopyHolds(live, m, b, p, |b[p]|, h.start);
      FreeHolds(live, Copy(m, 0, p, |b[p]|), h.mem, b, p, h.start, h.end);
    }
  }

  lemma FirstBytes(m: seq<byte>, r: nat, k: nat, n: nat)
    requires r + k <= |m| && r + n <= |m|
    ensures Resized(m[r..r + k], m[r..r + n])
  {
  }

  method ExecuteAlloc(h: HeapAllocator, n: nat, b: Buffers) returns (b': Buffers)
    requires h.Valid() && Holds(h.Live(), h.mem, b) && Legal(h, Shot(h, b), Alloc(n))
    modifies h, h.table
    ensures h.Valid() && Holds(h.Live(), h.mem, b') && Step(h, old(Shot(h, b)), Alloc(n), true, Shot(h, b'))
  {
    hide HeapAllocator.Valid, HeapAllocator.Fits, Holds, Size, OrderFor, Spares, LiveOf, HasFree, SomeFree, RoundUp,
         Step, Obtained, Serves, WithBuffer;
    ghost var live, m := h.Live(), h.mem;
    h.ValidInv();
    OrderLeast(n);
    h.FitsBooks(OrderFor(n));
    var p := h.Allocate(n);
    HeldKey(live, m, b, p);
    h.ValidInv();
    h.LiveInRange(p);
    AllocHolds(live, m, h.mem, b, p, OrderFor(n), n, h.start, h.end);
    b' := WithBuffer(b, p, h.mem[p..p + n]);
    StepAlloc(h, old(Shot(h, b)), n, p, h.mem[p..p + n], Shot(h, b'));
  }

  lemma StepAlloc(h: HeapAllocator, s: Snap, n: nat, p: nat, c: seq<byte>, s': Snap)
    requires p != 0 && p !in s.buffers && |c| == n && s'.buffers == WithBuffer(s.buffers, p, c)
    requires (p, s'.book) == Obtained(h.start, s.book, OrderFor(n))
    ensures Step(h, s, Alloc(n), true, s')
  {
    hide OrderFor, Obtained;
  }

  method ExecuteWrite(h: HeapAllocator, p: nat, offset: nat, data: seq<byte>, b: Buffers) returns (b': Buffers)
    requires h.Valid() && Holds(h.Live(), h.mem, b) && p in b && offset + |data| <= |b[p]|
    modifies h, h.table
    ensures h.Valid() && Holds(h.Live(), h.mem, b')
    ensures Step(h, old(Shot(h, b)), Write(p, offset, data), true, Shot(h, b'))
  {
    hide HeapAllocator.Valid, Holds, Size, Spares, LiveOf;
    ghost var live, m := h.Live(), h.mem;
    HoldsAt(live, m, b, p);
    h.Store(p, offset, data);
    WriteHolds(live, m, h.mem, b, p, offset, data, h.start, h.end);
    b' := b[p := Spliced(b[p], offset, data)];
  }

  method ExecuteRelease(h: HeapAllocator, p: nat, b: Buffers) returns (torn: bool, b': Buffers)
    requires h.Valid() && Holds(h.Live(), h.mem, b) && p in b
    modifies h, h.table
    ensures torn <==> FreeTears(h.start, old(h.Books()), p)
    ensures !torn ==> h.Valid() && Holds(h.Live(), h.mem, b') && Step(h, old(Shot(h, b)), Release(p), true, Shot(h, b'))
  {
    hide HeapAllocator.Valid, FreeTears, Holds, Size, Spares, LiveOf, Freed;
    ghost var live, m := h.Live(), h.mem;
    HoldsAt(live, m, b, p);
    h.ValidInv();
    h.NullNotLive();
    torn := h.Free(p);
    b' := b - {p};
    if !torn {
      FreeHolds(live, m, h.mem, b, p, h.start, h.end);
    }
  }

  /** Run one operation if it is to be served. */
  method Execute(h: HeapAllocator, op: Op, b: Buffers) returns (served: bool, torn: bool, b': Buffers)
    requires h.Valid() && Holds(h.Live(), h.mem, b)
    modifies h, h.table
    ensures served == Legal(h, old(Shot(h, b)), op)
    ensures torn <==> served && Tears(h, old(Shot(h, b)), op)
    ensures !torn ==> h.Valid() && Holds(h.Live(), h.mem, b') && Step(h, old(Shot(h, b)), op, served, Shot(h, b'))
  {
    hide HeapAllocator.Valid, FreeTears, HeapAllocator.Live, Holds, Step, Room, Outgrown, Obtained;
    served := IsLegal(h, op, b);
    torn, b' := false, b;
    if !served {
      Unserved(h, Shot(h, b), op);
      return;
    }
    match op {
      case Alloc(n) =>
        b' := ExecuteAlloc(h, n, b);
      case Write(p, offset, data) =>
        b' := ExecuteWrite(h, p, offset, data, b);
      case Resize(p, n) =>
        var grows := IsOutgrown(h, p, n, b);
        if !grows {
          b' := ExecuteInPlace(h, p, n, b);
        } else if n <= 0x40_0000 {
          torn, b' := ExecuteMove(h, p, n, b);
        } else {
          torn, b' := ExecuteLoss(h, p, n, b);
        }
      case Release(p) =>
        torn, b' := ExecuteRelease(h, p, b);
    }
  }

  lemma Unserved(h: HeapAllocator, s: Snap, op: Op)
    ensures Step(h, s, op, false, s)
  {
  }

  method IsOutgrown(h: HeapAllocator, p: nat, n: nat, b: Buffers) returns (grows: bool)
    requires h.Valid() && Holds(h.Live(), h.mem, b) && p in b
    ensures grows == Outgrown(Shot(h, b), p, n)
  {
    hide HeapAllocator.Valid, Holds, Size;
    HoldsAt(h.Live(), h.mem, b, p);
    var size := h.BlockSize(p);
    grows := n > size;
  }

  /** Decide whether an operation is to be served. */
  method IsLegal(h: HeapAllocator, op: Op, b: Buffers) returns (legal: bool)
    requires h.Valid() && Holds(h.Live(), h.mem, b)
    ensures legal == Legal(h, Shot(h, b), op)
  {
    hide HeapAllocator.Valid, Holds, Size, OrderFor, HeapAllocator.Fits, Serves;
    h.ValidInv();
    match op {
      case Alloc(n) =>
        OrderLeast(n);
        h.FitsBooks(OrderFor(n));
        legal := 0 < n <= 0x40_0000 && h.Fits(OrderFor(n));
      case Write(p, offset, data) => legal := p in b && offset + |data| <= |b[p]|;
      case Resize(p, n) =>
        legal := p in b && 0 < n;
        if legal {
          OrderLeast(n);
          h.FitsBooks(OrderFor(n));
          var grows := IsOutgrown(h, p, n, b);
          legal := !grows || n > 0x40_0000 || h.Fits(OrderFor(n));
        }
      case Release(p) => legal := p in b;
    }
  }

  lemma HoldsKeys(live: map<nat, nat>, m: seq<byte>, b: Buffers)
    requires Holds(live, m, b)
    ensures forall p :: p in b <==> p in live
  {
    assert forall p :: p in b.Keys <==> p in live.Keys;
  }

  lemma HeldKey(live: map<nat, nat>, m: seq<byte>, b: Buffers, p: nat)
    requires Holds(live, m, b)
    ensures p in b <==> p in live
  {
    assert p in b.Keys <==> p in live.Keys;
  }

  lemma HoldsAt(live: map<nat, nat>, m: seq<byte>, b: Buffers, p: nat)
    requires Holds(live, m, b) && p in b
    ensures Held(live, m, b, p)
  {
  }

  /** A run: each operation is served exactly when it is legal in the state it meets, and then does what
      it means; none of them tears the block map. */
  ghost predicate Traced(h: HeapAllocator, ops: seq<Op>, trace: seq<Snap>, served: seq<bool>)
  {
    && |trace| == |served| + 1 && |served| <= |ops|
    && (forall i :: 0 <= i < |served| ==> StepOk(h, ops[i], trace[i], served[i], trace[i + 1]))
  }

  ghost predicate StepOk(h: HeapAllocator, op: Op, s: Snap, served: bool, s': Snap)
  {
    && (served <==> Legal(h, s, op)) && Step(h, s, op, served, s') && !(served && Tears(h, s, op))
    && s'.buffers.Keys == LiveOf(s'.book.blocks, {}).Keys
  }

  /** Every run of the heap from its creation refines the private-buffer machine, up to the first
      free that moves an entry out of the block map's table; `torn` says that there is one. */
  method Run(h: HeapAllocator, ops: seq<Op>) returns (ghost trace: seq<Snap>, served: seq<bool>, torn: bool)
    requires h.Valid() && h.Live() == map[]
    modifies h, h.table
    ensures Traced(h, ops, trace, served) && trace[0] == old(Shot(h, map[]))
    ensures !torn ==>
      && |served| == |ops| && h.Valid() && trace[|ops|] == Shot(h, trace[|ops|].buffers)
      && Holds(h.Live(), h.mem, trace[|ops|].buffers)
    ensures torn ==>
      var k := |served|; k < |ops| && Legal(h, trace[k], ops[k]) && Tears(h, trace[k], ops[k])
  {
    hide HeapAllocator.Valid, Step, Legal, Tears, Holds, LiveOf;
    var b: Buffers := map[];
    trace, served, torn := [Shot(h, b)], [], false;
    NothingHeld(h.Live(), h.mem);
    for k := 0 to |ops|
      invariant h.Valid() && |served| == k && Traced(h, ops, trace, served) && trace[0] == old(Shot(h, map[]))
      invariant trace[k] == Shot(h, b) && Holds(h.Live(), h.mem, b)
    {
      var ok;
      ok, torn, b := Execute(h, ops[k], b);
      if torn {
        return;
      }
      HoldsKeys(h.Live(), h.mem, b);
      assert b.Keys == LiveOf(h.blocks, {}).Keys;
      trace, served := trace + [Shot(h, b)], served + [ok];
    }
  }

  lemma NothingHeld(live: map<nat, nat>, m: seq<byte>)
    requires live == map[]
    ensures Holds(live, m, map[])
  {
  }

  /** The same pointers, with buffers of the same lengths. */
  ghost predicate SameShape(b: Buffers, c: Buffers)
  {
    b.Keys == c.Keys && forall p :: p in b ==> |b[p]| == |c[p]|
  }

  /** What is served, what tears and what the books say does not depend on the bytes. */
  lemma StepsAgree(h: HeapAllocator, op: Op, s: Snap, ok: bool, s': Snap, t: Snap, ok': bool, t': Snap)
    requires s.book == t.book && SameShape(s.buffers, t.buffers)
    requires StepOk(h, op, s, ok, s') && StepOk(h, op, t, ok', t')
    ensures ok == ok' && s'.book == t'.book && SameShape(s'.buffers, t'.buffers)
  {
    hide Obtained, Freed, FreeTears, Serves, OrderFor, Size, LiveOf;
    assert forall p :: p in s.buffers.Keys <==> p in t.buffers.Keys;
  }

  /** Any two runs of the same operations go through the same books and stop at the same place. */
  lemma {:induction false} RunsAgree(h: HeapAllocator, ops: seq<Op>, s: seq<Snap>, ok: seq<bool>, t: seq<Snap>,
                                     ok': seq<bool>, n: nat)
    requires Traced(h, ops, s, ok) && Traced(h, ops, t, ok') && s[0] == t[0] && n <= |ok| && n <= |ok'|
    ensures s[n].book == t[n].book && SameShape(s[n].buffers, t[n].buffers) && ok[..n] == ok'[..n]
    ensures n < |ops| ==>
      (Legal(h, s[n], ops[n]) <==> Legal(h, t[n], ops[n])) && (Tears(h, s[n], ops[n]) <==> Tears(h, t[n], ops[n]))
  {
    hide StepOk, FreeTears, Serves, Obtained, OrderFor, Size;
    if n > 0 {
      RunsAgree(h, ops, s, ok, t, ok', n - 1);
      assert StepOk(h, ops[n - 1], s[n - 1], ok[n - 1], s[n - 1 + 1]) &&
        StepOk(h, ops[n - 1], t[n - 1], ok'[n - 1], t[n - 1 + 1]);
      StepsAgree(h, ops[n - 1], s[n - 1], ok[n - 1], s[n], t[n - 1], ok'[n - 1], t[n]);
      assert ok[..n] == ok[..n - 1] + [ok[n - 1]] && ok'[..n] == ok'[..n - 1] + [ok'[n - 1]];
    }
    assert forall p :: p in s[n].buffers.Keys <==> p in t[n].buffers.Keys;
  }
}
