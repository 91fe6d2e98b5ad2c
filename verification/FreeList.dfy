/** The free-block headers of the kernel heap, stored in the free memory itself.

A free block starts with a 24-byte header: prev and next (8 bytes each) and order
(4 bytes).  `Stored` relates a ghost view of the headers to the bytes that hold them;
the list lemmas then speak about that view only. */
module FreeList {
  import opened Bits
  import opened Memory

  const HEADER_BYTES := 24
  const MAX_ORDER := 22

  datatype Header = Header(prev: nat, next: nat, order: nat)

  type Headers = map<nat, Header>

  function HeaderAt(m: seq<byte>, a: nat): (h: Header)
    requires a + HEADER_BYTES <= |m|
  {
    Header(Read(m, a, 8), Read(m, a + 8, 8), Read(m, a + 16, 4))
  }

  ghost predicate Apart(a: nat, b: nat)
  {
    a + HEADER_BYTES <= b || b + HEADER_BYTES <= a
  }

  /** Every header of `hs` is in memory at its own address, and no two overlap. */
  ghost predicate Stored(m: seq<byte>, hs: Headers)
  {
    && (forall a :: a in hs ==> 0 < a && a + HEADER_BYTES <= |m| && HeaderAt(m, a) == hs[a])
    && (forall a, b :: a in hs && b in hs && a != b ==> Apart(a, b))
  }

  ghost predicate InHeader(i: nat, s: set<nat>)
  {
    exists a :: a in s && a <= i < a + HEADER_BYTES
  }

  /** `m'` differs from `m` only inside the headers at the addresses `s`. */
  ghost predicate OnlyHeaders(m: seq<byte>, m': seq<byte>, s: set<nat>)
  {
    |m| == |m'| && forall i :: 0 <= i < |m| && m[i] != m'[i] ==> InHeader(i, s)
  }

  /** `m'` differs from `m` only inside the header at `a`. */
  ghost predicate OnlyAt(m: seq<byte>, m': seq<byte>, a: nat)
  {
    |m| == |m'| && forall i :: 0 <= i < |m| && !(a <= i < a + HEADER_BYTES) ==> m'[i] == m[i]
  }

  lemma HeaderFrame(m: seq<byte>, m': seq<byte>, a: nat, b: nat)
    requires OnlyAt(m, m', a) && b + HEADER_BYTES <= |m| && Apart(a, b)
    ensures HeaderAt(m', b) == HeaderAt(m, b)
  {
    ReadFrame(m, m', b, 8);
    ReadFrame(m, m', b + 8, 8);
    ReadFrame(m, m', b + 16, 4);
  }

  /** One field write updates one header and leaves every other header alone. */
  lemma StoredUpdate(m: seq<byte>, m': seq<byte>, hs: Headers, a: nat, h: Header)
    requires Stored(m, hs) && a in hs && OnlyAt(m, m', a) && HeaderAt(m', a) == h
    ensures Stored(m', hs[a := h])
    ensures OnlyHeaders(m, m', hs.Keys)
  {
    forall b | b in hs && b != a
      ensures HeaderAt(m', b) == HeaderAt(m, b)
    {
      HeaderFrame(m, m', a, b);
    }
  }

  lemma Overwrite(hs: Headers, a: nat, x: Header, y: Header)
    ensures hs[a := x][a := y] == hs[a := y]
  {
  }

  lemma WritePrev(m: seq<byte>, hs: Headers, a: nat, v: nat)
    requires Stored(m, hs) && a in hs && v < TWO_64
    ensures Stored(Write(m, a, 8, v), hs[a := hs[a].(prev := v)])
    ensures OnlyHeaders(m, Write(m, a, 8, v), hs.Keys)
  {
    var r := Write(m, a, 8, v);
    Pow2Values();
    ReadBack(m, a, 8, v);
    ReadFrame(m, r, a + 8, 8);
    ReadFrame(m, r, a + 16, 4);
    StoredUpdate(m, r, hs, a, hs[a].(prev := v));
  }

  lemma WriteNext(m: seq<byte>, hs: Headers, a: nat, v: nat)
    requires Stored(m, hs) && a in hs && v < TWO_64
    ensures Stored(Write(m, a + 8, 8, v), hs[a := hs[a].(next := v)])
    ensures OnlyHeaders(m, Write(m, a + 8, 8, v), hs.Keys)
  {
    var r := Write(m, a + 8, 8, v);
    Pow2Values();
    ReadBack(m, a + 8, 8, v);
    ReadFrame(m, r, a, 8);
    ReadFrame(m, r, a + 16, 4);
    StoredUpdate(m, r, hs, a, hs[a].(next := v));
  }

  lemma WriteOrder(m: seq<byte>, hs: Headers, a: nat, v: nat)
    requires Stored(m, hs) && a in hs && v <= MAX_ORDER
    ensures Stored(Write(m, a + 16, 4, v), hs[a := hs[a].(order := v)])
    ensures OnlyHeaders(m, Write(m, a + 16, 4, v), hs.Keys)
  {
    var r := Write(m, a + 16, 4, v);
    Pow2Values();
    ReadBack(m, a + 16, 4, v);
    ReadFrame(m, r, a, 8);
    ReadFrame(m, r, a + 8, 8);
    StoredUpdate(m, r, hs, a, hs[a].(order := v));
  }

  /** Memory apart from every known header can be taken as a header too. */
  lemma StoredAdd(m: seq<byte>, hs: Headers, a: nat)
    requires Stored(m, hs) && 0 < a && a + HEADER_BYTES <= |m|
    requires forall b :: b in hs ==> Apart(a, b)
    ensures Stored(m, hs[a := HeaderAt(m, a)])
  {
  }

  lemma StoredDrop(m: seq<byte>, hs: Headers, a: nat)
    requires Stored(m, hs)
    ensures Stored(m, hs - {a})
    ensures (hs - {a}).Keys == hs.Keys - {a}
  {
  }

  lemma OnlyHeadersNone(m: seq<byte>, s: set<nat>)
    ensures OnlyHeaders(m, m, s)
  {
  }

  lemma StoredHeader(m: seq<byte>, hs: Headers, a: nat)
    requires Stored(m, hs) && a in hs
    ensures 0 < a && a + HEADER_BYTES <= |m| && HeaderAt(m, a) == hs[a]
  {
  }

  lemma OnlyHeadersChain(m: seq<byte>, m1: seq<byte>, m2: seq<byte>, s: set<nat>)
    requires OnlyHeaders(m, m1, s) && OnlyHeaders(m1, m2, s)
    ensures OnlyHeaders(m, m2, s)
  {
    forall i | 0 <= i < |m| && m[i] != m2[i] ensures InHeader(i, s)
    {
      assert m[i] != m1[i] || m1[i] != m2[i];
    }
  }

  function Head(l: seq<nat>): nat { if l == [] then 0 else l[0] }

  ghost function LinksOf(l: seq<nat>, i: nat, order: nat): Header
    requires i < |l|
  {
    Header(if i == 0 then 0 else l[i - 1], if i + 1 < |l| then l[i + 1] else 0, order)
  }

  ghost predicate LinkedAt(hs: Headers, l: seq<nat>, i: nat, order: nat)
  {
    i < |l| && 0 < l[i] && l[i] in hs && hs[l[i]] == LinksOf(l, i, order)
  }

  ghost predicate LinkedNear(hs: Headers, l: seq<nat>, k: nat, order: nat)
  {
    && LinkedAt(hs, l, k, order)
    && (k > 0 ==> LinkedAt(hs, l, k - 1, order))
    && (k + 1 < |l| ==> LinkedAt(hs, l, k + 1, order))
  }

  /** The headers at the addresses `l` form a null-terminated doubly linked list of one order. */
  ghost predicate Linked(hs: Headers, l: seq<nat>, order: nat)
  {
    && (forall i :: 0 <= i < |l| ==> LinkedAt(hs, l, i, order))
    && (forall i, j :: 0 <= i < j < |l| ==> l[i] != l[j])
  }

  function RemoveAt(l: seq<nat>, k: nat): (r: seq<nat>)
    requires k < |l|
    ensures |r| == |l| - 1
    ensures forall i :: 0 <= i < |r| ==> r[i] == (if i < k then l[i] else l[i + 1])
  {
    l[..k] + l[k + 1..]
  }

  /** free_header::remove: both neighbours are joined and this node's links are cleared. */
  function Unlink(hs: Headers, a: nat): (r: Headers)
    requires a in hs
    requires hs[a].next != 0 ==> hs[a].next in hs
    requires hs[a].prev != 0 ==> hs[a].prev in hs
    ensures r.Keys == hs.Keys
  {
    var h := hs[a];
    var h1 := if h.next != 0 then hs[h.next := hs[h.next].(prev := h.prev)] else hs;
    var h2 := if h.prev != 0 then h1[h.prev := h1[h.prev].(next := h.next)] else h1;
    h2[a := h2[a].(prev := 0, next := 0)]
  }

  /** Unlinking node `k` keeps every other node `j` of the list linked. */
  lemma UnlinkAt(hs: Headers, l: seq<nat>, k: nat, j: nat, order: nat)
    requires Linked(hs, l, order) && k < |l| && j < |l| && j != k && LinkedNear(hs, l, k, order)
    ensures LinkedAt(Unlink(hs, l[k]), RemoveAt(l, k), if j < k then j else j - 1, order)
  {
    assert LinkedAt(hs, l, j, order);
  }

  lemma UnlinkKeepsList(hs: Headers, l: seq<nat>, k: nat, order: nat)
    requires Linked(hs, l, order) && k < |l|
    ensures LinkedNear(hs, l, k, order)
    ensures Linked(Unlink(hs, l[k]), RemoveAt(l, k), order)
  {
    assert LinkedNear(hs, l, k, order);
    forall i | 0 <= i < |l| - 1
      ensures LinkedAt(Unlink(hs, l[k]), RemoveAt(l, k), i, order)
    {
      UnlinkAt(hs, l, k, if i < k then i else i + 1, order);
    }
  }

  /** Unlinking clears the node's own links and touches no header outside the list. */
  lemma UnlinkElsewhere(hs: Headers, l: seq<nat>, k: nat, order: nat)
    requires Linked(hs, l, order) && k < |l|
    ensures LinkedNear(hs, l, k, order)
    ensures Unlink(hs, l[k])[l[k]] == Header(0, 0, order)
    ensures forall b :: b in hs && b !in l ==> Unlink(hs, l[k])[b] == hs[b]
  {
    assert LinkedNear(hs, l, k, order);
    if k > 0 { assert l[k - 1] != l[k]; }
    if k + 1 < |l| { assert l[k + 1] != l[k]; }
  }

  /** register_free_block's list part: the old head's prev is set, then the block is
      cleared to point at the old head. */
  function PushFront(hs: Headers, head: nat, a: nat, order: nat): (r: Headers)
    requires a in hs && (head != 0 ==> head in hs)
    ensures r.Keys == hs.Keys
  {
    var h1 := if head != 0 then hs[head := hs[head].(prev := a)] else hs;
    h1[a := Header(0, head, order)]
  }

  lemma PushKeepsList(hs: Headers, l: seq<nat>, a: nat, order: nat)
    requires Linked(hs, l, order) && 0 < a && a in hs && a !in l
    ensures l != [] ==> LinkedAt(hs, l, 0, order)
    ensures Linked(PushFront(hs, Head(l), a, order), [a] + l, order)
    ensures forall b :: b in hs && b !in l && b != a ==> PushFront(hs, Head(l), a, order)[b] == hs[b]
  {
    assert l != [] ==> LinkedAt(hs, l, 0, order);
    var r := [a] + l;
    var hs' := PushFront(hs, Head(l), a, order);
    forall i | 0 <= i < |r|
      ensures LinkedAt(hs', r, i, order)
    {
      if i > 0 { assert LinkedAt(hs, l, i - 1, order) && r[i] == l[i - 1]; }
    }
  }

  /** Changing headers outside a list does not change the list. */
  lemma LinkedFrame(hs: Headers, hs': Headers, l: seq<nat>, order: nat)
    requires Linked(hs, l, order)
    requires forall b :: b in l ==> b in hs && b in hs' && hs'[b] == hs[b]
    ensures Linked(hs', l, order)
  {
    forall i | 0 <= i < |l|
      ensures LinkedAt(hs', l, i, order)
    {
      assert LinkedAt(hs, l, i, order);
    }
  }
}
