/** The zstd bit stream: bits are written forward through a 64-bit register and read
backward, last in first out (section 4.2.2 of RFC 8878). */
module BitStream {
  import opened Bits
  import opened Memory

  const WORD := 8
  const REGISTER_BITS := 64
  const MASK_SIZE := 32

  // ----- arithmetic of the register -----

  function ShiftLeft(x: nat, n: nat): nat { x * Pow2(n) }

  function LowBits(x: nat, n: nat): (r: nat)
    ensures r < Pow2(n)
  {
    x % Pow2(n)
  }

  /** The new bits go above the ones already in the register. */
  lemma AddToRegister(c: nat, pos: nat, x: nat, nb: nat)
    requires c < Pow2(pos) && x < Pow2(nb)
    ensures Or(c, ShiftLeft(x, pos)) == c + ShiftLeft(x, pos) < Pow2(pos + nb)
  {
    hide Pow2, Or;
    Pow2Add(pos, nb);
    AlignedIsMultiple(x * Pow2(pos), pos);
    DivModUnique(x * Pow2(pos), Pow2(pos), x, 0);
    OrAdds(x * Pow2(pos), c, pos);
    MulLess(Pow2(pos), Pow2(nb), x, c);
  }

  lemma {:induction false} BytesOf(v: nat, n: nat, k: nat)
    requires k <= n
    ensures FromBytes(ToBytes(v, n)[..k]) == v % Pow2(8 * k)
  {
    if k == 0 {
      assert ToBytes(v, n)[..k] == [];
    } else {
      BytesOf(v / 256, n - 1, k - 1);
      Pow2Byte(k - 1);
      DivModProduct(v, 256, Pow2(8 * (k - 1)));
      assert ToBytes(v, n)[..k] == [v % 256] + ToBytes(v / 256, n - 1)[..k - 1];
      assert ToBytes(v, n)[..k][1..] == ToBytes(v / 256, n - 1)[..k - 1];
    }
  }

  /** Storing the register at byte `ptr` appends its low `k` bytes to the flushed ones. */
  lemma FlushedBytes(buf: seq<byte>, ptr: nat, c: nat, k: nat)
    requires ptr + WORD <= |buf| && k <= WORD
    ensures FromBytes(Write(buf, ptr, WORD, c)[..ptr + k]) == FromBytes(buf[..ptr]) + Pow2(8 * ptr) * (c % Pow2(8 * k))
  {
    var b := ToBytes(c, WORD);
    assert Write(buf, ptr, WORD, c)[..ptr + k] == buf[..ptr] + b[..k];
    FromBytesAppend(buf[..ptr], b[..k]);
    BytesOf(c, WORD, k);
  }

  /** Moving whole bytes from the register to the buffer keeps the value. */
  lemma FlushValue(low: nat, ptr: nat, c: nat, k: nat)
    ensures low + Pow2(8 * ptr) * c ==
      (low + Pow2(8 * ptr) * (c % Pow2(8 * k))) + Pow2(8 * (ptr + k)) * (c / Pow2(8 * k))
  {
    hide Pow2;
    var a, b := Pow2(8 * ptr), Pow2(8 * k);
    Pow2Add(8 * ptr, 8 * k);
    assert c == b * (c / b) + c % b;
    MulAssoc(a, b, c / b);
    MulDistributes(a, b * (c / b), c % b);
  }

  lemma FlushRegister(c: nat, pos: nat)
    requires c < Pow2(pos)
    ensures ShiftRight(c, 8 * (pos / 8)) < Pow2(pos % 8)
    ensures c % Pow2(8 * (pos / 8 + 1)) == c
  {
    var b, r := Pow2(8 * (pos / 8)), Pow2(pos % 8);
    Pow2Add(8 * (pos / 8), pos % 8);
    Pow2Mono(pos, 8 * (pos / 8 + 1));
    DivModUnique(c, Pow2(8 * (pos / 8 + 1)), 0, c);
    QuotientBound(c, b, r);
  }

  lemma QuotientBound(c: nat, b: nat, r: nat)
    requires b > 0 && c < b * r
    ensures c / b < r
  {
    var q := c / b;
    assert c == b * q + c % b;
    if q >= r { MulMonotone(b, r, q); }
  }

  /** The number held by `ptr` flushed bytes and the register above them. */
  ghost function Joined(flushed: seq<byte>, c: nat): nat
  {
    FromBytes(flushed) + Pow2(8 * |flushed|) * c
  }

  /** What one flush leaves in the buffer and in the register. */
  lemma FlushFacts(buf: seq<byte>, ptr: nat, c: nat, pos: nat, value: nat)
    requires ptr + WORD <= |buf| && pos < REGISTER_BITS && c < Pow2(pos)
    requires value == Joined(buf[..ptr], c)
    ensures var k := pos / 8; var buf' := Write(buf, ptr, WORD, c);
      && value == Joined(buf'[..ptr + k], ShiftRight(c, 8 * k))
      && value == FromBytes(buf'[..ptr + k + 1])
      && (pos % 8 == 0 ==> value == FromBytes(buf'[..ptr + k]))
  {
    hide Pow2, FromBytes, Write, ShiftRight, Joined;
    FlushRegister(c, pos);
    FlushMoved(buf, ptr, c, pos / 8);
    FlushWhole(buf, ptr, c, pos / 8 + 1);
    if pos % 8 == 0 {
      Pow2Zero();
      JoinedNothing(Write(buf, ptr, WORD, c)[..ptr + pos / 8]);
    }
  }

  /** New bits at position `pos` of the register are at their place in the whole number. */
  lemma JoinedAdd(s: seq<byte>, c: nat, x: nat, pos: nat)
    ensures Joined(s, c + ShiftLeft(x, pos)) == Joined(s, c) + ShiftLeft(x, 8 * |s| + pos)
  {
    hide Pow2, FromBytes;
    Pow2Add(8 * |s|, pos);
    var a, b := Pow2(8 * |s|), Pow2(pos);
    MulDistributes(a, c, x * b);
    MulAssoc(x, a, b);
    MulAssoc(a, x, b);
  }

  lemma JoinedNothing(s: seq<byte>)
    ensures Joined(s, 0) == FromBytes(s)
  {
  }

  lemma FlushMoved(buf: seq<byte>, ptr: nat, c: nat, k: nat)
    requires ptr + WORD <= |buf| && k < WORD
    ensures Joined(buf[..ptr], c) == Joined(Write(buf, ptr, WORD, c)[..ptr + k], ShiftRight(c, 8 * k))
  {
    hide Pow2, FromBytes, Write;
    FlushedBytes(buf, ptr, c, k);
    FlushValue(FromBytes(buf[..ptr]), ptr, c, k);
  }

  lemma FlushWhole(buf: seq<byte>, ptr: nat, c: nat, k: nat)
    requires ptr + WORD <= |buf| && k <= WORD && c % Pow2(8 * k) == c
    ensures Joined(buf[..ptr], c) == FromBytes(Write(buf, ptr, WORD, c)[..ptr + k])
  {
    hide Pow2, FromBytes, Write;
    FlushedBytes(buf, ptr, c, k);
  }

  lemma EndMark(total: nat)
    ensures ShiftLeft(LowBits(1, 1), total) == Pow2(total)
  {
    assert Pow2(1) == 2;
  }

  // ----- encoder -----

  class CStream {
    const buffer: array<byte>
    const endPtr: nat
    var container: nat
    var bitPos: nat
    var ptr: nat

    /** All the bits added so far, the first added lowest, and how many they are. */
    ghost var value: nat
    ghost var total: nat
    /** Some flush ran past the end of the buffer. */
    ghost var lost: bool

    ghost predicate Valid()
      reads this, buffer
    {
      && buffer.Length == endPtr + WORD && 0 < endPtr && ptr <= endPtr
      && bitPos < REGISTER_BITS && container < Pow2(bitPos) && value < Pow2(total)
      && (lost ==> ptr == endPtr && total >= 8 * endPtr)
      && (!lost ==> total == 8 * ptr + bitPos && value == Joined(buffer[..ptr], container))
    }

    /** BIT_initCStream on a buffer that is large enough. */
    constructor (buffer: array<byte>)
      requires buffer.Length > WORD
      ensures Valid() && this.buffer == buffer && value == 0 && total == 0 && bitPos == 0
    {
      this.buffer := buffer;
      endPtr := buffer.Length - WORD;
      container, bitPos, ptr := 0, 0, 0;
      value, total, lost := 0, 0, false;
      new;
      assert buffer[..0] == [];
    }

    method AddBits(v: nat, nb: nat)
      requires Valid() && nb < MASK_SIZE && nb + bitPos < REGISTER_BITS
      modifies this
      ensures Valid() && bitPos == old(bitPos) + nb && ptr == old(ptr)
      ensures total == old(total) + nb && value == old(value) + ShiftLeft(LowBits(v, nb), old(total))
    {
      hide Pow2, FromBytes, ShiftLeft, LowBits, Joined, Or;
      var x := LowBits(v, nb);
      AddToRegister(container, bitPos, x, nb);
      AddToRegister(value, total, x, nb);
      JoinedAdd(buffer[..ptr], container, x, bitPos);
      container := Or(container, ShiftLeft(x, bitPos));
      bitPos := bitPos + nb;
      value := value + ShiftLeft(x, total);
      total := total + nb;
    }

    /** MEM_writeLEST. */
    method WriteWord(at: nat, v: nat)
      requires at + WORD <= buffer.Length
      modifies buffer
      ensures buffer[..] == Write(old(buffer[..]), at, WORD, v)
    {
      var bytes := ToBytes(v, WORD);
      forall i | 0 <= i < WORD {
        buffer[at + i] := bytes[i];
      }
    }

    method FlushBits()
      requires Valid()
      modifies this, buffer
      ensures Valid() && value == old(value) && total == old(total) && bitPos == old(bitPos) % 8
      ensures !lost ==> ptr < buffer.Length && FromBytes(buffer[..if bitPos > 0 then ptr + 1 else ptr]) == value
    {
      hide Pow2, FromBytes, Write, Joined, ShiftRight;
      var nbBytes := bitPos / 8;
      FlushRegister(container, bitPos);
      if !lost {
        assert buffer[..ptr] == buffer[..][..ptr];
        FlushFacts(buffer[..], ptr, container, bitPos, value);
      }
      WriteWord(ptr, container);
      assert buffer[..ptr + nbBytes] == buffer[..][..ptr + nbBytes];
      assert buffer[..ptr + nbBytes + 1] == buffer[..][..ptr + nbBytes + 1];
      ptr := ptr + nbBytes;
      if ptr > endPtr {
        ptr := endPtr;
        lost := true;
      }
      bitPos := bitPos % 8;
      container := ShiftRight(container, 8 * nbBytes);
    }

    /** Closing returns the size of the stream, which holds the added bits below one end mark;
        zero exactly when the marked stream does not end before the last word of the buffer. */
    method Close() returns (size: nat)
      requires Valid() && bitPos + 1 < REGISTER_BITS
      modifies this, buffer
      ensures size == 0 <==> (old(total) + 1) / 8 >= endPtr
      ensures size > 0 ==>
        && size == old(total) / 8 + 1 && size <= buffer.Length
        && FromBytes(buffer[..size]) == old(value) + Pow2(old(total))
    {
      hide FromBytes, ShiftLeft, LowBits;
      EndMark(total);
      AddBits(1, 1);
      FlushBits();
      if ptr >= endPtr {
        return 0;
      }
      size := ptr + (if bitPos > 0 then 1 else 0);
    }
  }

  // ----- decoder -----

  /** Number of payload bits below the end mark of a stream. */
  ghost function PayloadBits(src: seq<byte>): nat
    requires src != [] && src[|src| - 1] != 0
  {
    8 * (|src| - 1) + BitLength(src[|src| - 1]) - 1
  }

  /** The end mark is the highest set bit of the whole stream. */
  lemma MarkIsHighest(src: seq<byte>)
    requires src != [] && src[|src| - 1] != 0
    ensures BitLength(src[|src| - 1]) <= 8
    ensures Pow2(PayloadBits(src)) <= FromBytes(src) < 2 * Pow2(PayloadBits(src))
  {
    hide Pow2, FromBytes;
    var n, last := |src| - 1, src[|src| - 1];
    assert src == src[..n] + [last];
    FromBytesAppend(src[..n], [last]);
    FromBytesBound(src[..n]);
    OneByte(last);
    MarkBounds(FromBytes(src[..n]), 8 * n, last, BitLength(last) - 1);
  }

  lemma OneByte(b: byte)
    requires b != 0
    ensures FromBytes([b]) == b && 0 < BitLength(b) <= 8
    ensures Pow2(BitLength(b) - 1) <= b < 2 * Pow2(BitLength(b) - 1)
  {
    BitLengthBounds(b);
    assert Pow2(8) == 256;
    if BitLength(b) > 8 { Pow2Mono(8, BitLength(b) - 1); }
  }

  lemma MarkBounds(low: nat, n: nat, last: nat, h: nat)
    requires low < Pow2(n) && Pow2(h) <= last < 2 * Pow2(h)
    ensures Pow2(n + h) <= low + Pow2(n) * last < 2 * Pow2(n + h)
  {
    hide Pow2;
    Pow2Add(n, h);
    var a := Pow2(n);
    MulMonotone(a, Pow2(h), last);
    MulLess(a, 2 * Pow2(h), last, low);
    MulAssoc(a, 2, Pow2(h));
  }

  datatype Status = Unfinished | EndOfBuffer | Completed | Overflow

  /** The 64 bits of the stream from byte `ptr` up. */
  ghost function Window(src: seq<byte>, ptr: nat): nat
  {
    LowBits(ShiftRight(FromBytes(src), 8 * ptr), REGISTER_BITS)
  }

  lemma WindowIsRead(src: seq<byte>, ptr: nat)
    requires ptr + WORD <= |src|
    ensures Read(src, ptr, WORD) == Window(src, ptr)
  {
    ReadWindow(src, ptr, WORD);
  }

  lemma LowOfLow(z: nat, m: nat, n: nat)
    requires n <= m
    ensures LowBits(LowBits(z, m), n) == LowBits(z, n)
  {
    hide Pow2;
    Pow2Add(n, m - n);
    var a, b := Pow2(n), Pow2(m - n);
    DivModProduct(z, a, b);
    DivModUnique(z % Pow2(m), a, (z / a) % b, z % a);
  }

  lemma ShiftOfLow(y: nat, m: nat, s: nat)
    requires s <= m
    ensures ShiftRight(LowBits(y, m), s) == LowBits(ShiftRight(y, s), m - s)
  {
    hide Pow2;
    Pow2Add(s, m - s);
    var a, b := Pow2(s), Pow2(m - s);
    DivModProduct(y, a, b);
    DivModUnique(y % Pow2(m), a, (y / a) % b, y % a);
  }

  lemma ShiftTwice(x: nat, a: nat, b: nat)
    ensures ShiftRight(ShiftRight(x, a), b) == ShiftRight(x, a + b)
  {
    hide Pow2;
    Pow2Add(a, b);
    DivModProduct(x, Pow2(a), Pow2(b));
  }

  /** Bits picked from the register are bits of the stream. */
  lemma WindowBits(src: seq<byte>, ptr: nat, s: nat, nb: nat)
    requires s + nb <= REGISTER_BITS
    ensures LowBits(ShiftRight(Window(src, ptr), s % REGISTER_BITS), nb) ==
            LowBits(ShiftRight(FromBytes(src), 8 * ptr + s), nb)
  {
    hide ShiftRight, LowBits, Pow2, FromBytes;
    if s == REGISTER_BITS {
      LowNone(ShiftRight(Window(src, ptr), 0));
      LowNone(ShiftRight(FromBytes(src), 8 * ptr + s));
    } else {
      var y := ShiftRight(FromBytes(src), 8 * ptr);
      ShiftOfLow(y, REGISTER_BITS, s);
      LowOfLow(ShiftRight(y, s), REGISTER_BITS - s, nb);
      ShiftTwice(FromBytes(src), 8 * ptr, s);
    }
  }

  lemma LowNone(x: nat)
    ensures LowBits(x, 0) == 0
  {
    Pow2Zero();
  }

  /** The bytes from `k` up, at their place in the register. */
  ghost function TailValue(src: seq<byte>, k: nat): nat
    requires k <= |src|
  {
    Pow2(8 * k) * FromBytes(src[k..])
  }

  lemma TailNothing(src: seq<byte>)
    ensures TailValue(src, |src|) == 0
  {
    assert src[|src|..] == [];
  }

  lemma TailStep(src: seq<byte>, k: nat)
    requires k < |src|
    ensures TailValue(src, k) == TailValue(src, k + 1) + src[k] * Pow2(8 * k)
  {
    hide Pow2;
    Pow2Byte(k);
    var p, x := Pow2(8 * k), FromBytes(src[k + 1..]);
    assert src[k..][1..] == src[k + 1..];
    MulDistributes(p, src[k], 256 * x);
    MulAssoc(p, 256, x);
  }

  lemma TailAll(src: seq<byte>)
    requires 0 < |src| < WORD
    ensures src[0] + TailValue(src, 1) == Window(src, 0)
  {
    assert Pow2(8) == 256;
    FromBytesBound(src);
    Pow2Mono(8 * |src|, REGISTER_BITS);
    Pow2Zero();
    DivModUnique(FromBytes(src), Pow2(REGISTER_BITS), 0, FromBytes(src));
  }

  class DStream {
    const src: seq<byte>
    var container: nat
    var bitsConsumed: nat
    var ptr: nat

    /** Bits of the stream not yet read. */
    function Remaining(): int
      reads this
    {
      8 * ptr + REGISTER_BITS - bitsConsumed
    }

    ghost predicate Valid()
      reads this
    {
      && src != [] && src[|src| - 1] != 0
      && (if |src| >= WORD then ptr + WORD <= |src| else ptr == 0)
      && bitsConsumed <= REGISTER_BITS && container == Window(src, ptr)
      && 0 <= Remaining() <= PayloadBits(src)
    }

    /** BIT_initDStream on a stream with an end mark. */
    constructor (src: seq<byte>)
      requires src != [] && src[|src| - 1] != 0
      ensures Valid() && this.src == src && Remaining() == PayloadBits(src)
    {
      hide Pow2, FromBytes, Read, Window, TailValue;
      this.src := src;
      MarkIsHighest(src);
      BitLengthBounds(src[|src| - 1]);
      if |src| >= WORD {
        WindowIsRead(src, |src| - WORD);
        ptr := |src| - WORD;
        container := Read(src, |src| - WORD, WORD);
        bitsConsumed := 8 - (BitLength(src[|src| - 1]) - 1);
      } else {
        ptr := 0;
        var c, k := 0, |src|;
        TailNothing(src);
        while k > 1
          invariant 1 <= k <= |src|
          invariant c == TailValue(src, k)
        {
          k := k - 1;
          TailStep(src, k);
          c := c + src[k] * Pow2(8 * k);
        }
        TailAll(src);
        container := src[0] + c;
        bitsConsumed := 8 - (BitLength(src[|src| - 1]) - 1) + (WORD - |src|) * 8;
      }
    }

    /** The next `nb` bits below the read position. */
    method ReadBits(nb: nat) returns (v: nat)
      requires Valid() && nb < MASK_SIZE && bitsConsumed + nb <= REGISTER_BITS
      modifies `bitsConsumed
      ensures Valid() && Remaining() == old(Remaining()) - nb
      ensures v == LowBits(ShiftRight(FromBytes(src), Remaining()), nb)
    {
      hide Pow2, FromBytes, Window, LowBits, ShiftRight, PayloadBits;
      WindowBits(src, ptr, REGISTER_BITS - bitsConsumed - nb, nb);
      v := LowBits(ShiftRight(container, (REGISTER_BITS - bitsConsumed - nb) % REGISTER_BITS), nb);
      bitsConsumed := bitsConsumed + nb;
    }

    /** MEM_readLEST at the current pointer. */
    method Refill()
      requires src != [] && |src| >= WORD && ptr + WORD <= |src|
      modifies `container
      ensures container == Window(src, ptr)
    {
      WindowIsRead(src, ptr);
      container := Read(src, ptr, WORD);
    }

    /** Reloading keeps the read position; afterwards the register holds at least 57 unread
        bits or every unread bit. */
    method Reload() returns (status: Status)
      requires Valid()
      modifies this
      ensures Valid() && Remaining() == old(Remaining())
      ensures status == Unfinished ==> bitsConsumed <= 7
      ensures status != Unfinished ==> ptr == 0 && status != Overflow
      ensures status == Completed <==> old(ptr) == 0 && Remaining() == 0
      ensures status == Unfinished <==> old(ptr) > 0 && old(bitsConsumed) / 8 <= old(ptr)
      ensures ptr == old(ptr) - if old(bitsConsumed) / 8 <= old(ptr) then old(bitsConsumed) / 8 else old(ptr)
    {
      hide Pow2, FromBytes, Window, PayloadBits;
      if bitsConsumed > REGISTER_BITS {
        return Overflow;
      }
      if ptr >= WORD {
        ptr := ptr - bitsConsumed / 8;
        bitsConsumed := bitsConsumed % 8;
        Refill();
        return Unfinished;
      }
      if ptr == 0 {
        if bitsConsumed < REGISTER_BITS {
          return EndOfBuffer;
        }
        return Completed;
      }
      var nbBytes := bitsConsumed / 8;
      status := Unfinished;
      if ptr < nbBytes {
        nbBytes := ptr;
        status := EndOfBuffer;
      }
      ptr := ptr - nbBytes;
      bitsConsumed := bitsConsumed - nbBytes * 8;
      Refill();
    }

    /** BIT_endOfDStream is true exactly when every bit has been read. */
    function EndOfStream(): (r: bool)
      requires Valid()
      reads this
      ensures r <==> Remaining() == 0
    {
      ptr == 0 && bitsConsumed == REGISTER_BITS
    }
  }

  datatype InitResult = Opened(stream: DStream) | SrcSizeWrong | MarkMissing | CorruptionDetected

  /** BIT_initDStream: an empty source or a zero last byte is an error, everything else opens
      with all its payload bits unread. */
  method InitDStream(src: seq<byte>) returns (r: InitResult)
    ensures r.Opened? <==> src != [] && src[|src| - 1] != 0
    ensures r.Opened? ==> r.stream.Valid() && r.stream.src == src && r.stream.Remaining() == PayloadBits(src)
    ensures r.SrcSizeWrong? <==> src == []
    ensures r.MarkMissing? ==> |src| >= WORD
    ensures r.CorruptionDetected? ==> |src| < WORD
  {
    if src == [] {
      return SrcSizeWrong;
    }
    if src[|src| - 1] == 0 {
      return if |src| >= WORD then MarkMissing else CorruptionDetected;
    }
    var d := new DStream(src);
    r := Opened(d);
  }

  // ----- round trip -----

  datatype Field = Field(value: nat, width: nat)

  predicate Fields(fs: seq<Field>)
  {
    forall i :: 0 <= i < |fs| ==> fs[i].width < MASK_SIZE
  }

  ghost function TotalBits(fs: seq<Field>): nat
  {
    if fs == [] then 0 else TotalBits(fs[..|fs| - 1]) + fs[|fs| - 1].width
  }

  /** The fields as one number, the first field lowest. */
  ghost function Packed(fs: seq<Field>): nat
  {
    if fs == [] then 0
    else
      var f := fs[|fs| - 1];
      Packed(fs[..|fs| - 1]) + ShiftLeft(LowBits(f.value, f.width), TotalBits(fs[..|fs| - 1]))
  }

  lemma {:induction false} PackedBound(fs: seq<Field>)
    ensures Packed(fs) < Pow2(TotalBits(fs))
  {
    hide Pow2, LowBits, ShiftLeft;
    if fs == [] {
      Pow2Zero();
    } else {
      var f := fs[|fs| - 1];
      PackedBound(fs[..|fs| - 1]);
      AddToRegister(Packed(fs[..|fs| - 1]), TotalBits(fs[..|fs| - 1]), LowBits(f.value, f.width), f.width);
    }
  }

  lemma PackedNext(fs: seq<Field>, k: nat)
    requires k < |fs|
    ensures TotalBits(fs[..k + 1]) == TotalBits(fs[..k]) + fs[k].width
    ensures Packed(fs[..k + 1]) == Packed(fs[..k]) + ShiftLeft(LowBits(fs[k].value, fs[k].width), TotalBits(fs[..k]))
  {
    assert fs[..k + 1][..k] == fs[..k];
  }

  /** Fields from `k` up and the end mark, as one number. */
  ghost function Above(fs: seq<Field>, k: nat): nat
    requires k <= |fs|
    decreases |fs| - k
  {
    if k == |fs| then 1 else LowBits(fs[k].value, fs[k].width) + ShiftLeft(Above(fs, k + 1), fs[k].width)
  }

  lemma {:induction false} PackedSplits(fs: seq<Field>, k: nat)
    requires k <= |fs|
    ensures Packed(fs) + Pow2(TotalBits(fs)) == Packed(fs[..k]) + ShiftLeft(Above(fs, k), TotalBits(fs[..k]))
    decreases |fs| - k
  {
    hide Pow2, LowBits, Packed, TotalBits;
    if k == |fs| {
      assert fs[..k] == fs;
    } else {
      PackedSplits(fs, k + 1);
      PackedNext(fs, k);
      Nested(LowBits(fs[k].value, fs[k].width), Above(fs, k + 1), fs[k].width, TotalBits(fs[..k]));
    }
  }

  lemma Nested(v: nat, r: nat, w: nat, t: nat)
    ensures ShiftLeft(v, t) + ShiftLeft(r, t + w) == ShiftLeft(v + ShiftLeft(r, w), t)
  {
    hide Pow2;
    Pow2Add(w, t);
    var a, b := Pow2(w), Pow2(t);
    MulAssoc(r, a, b);
    assert (v + r * a) * b == v * b + (r * a) * b;
  }

  /** Field `k` sits in the packed number right above the fields before it. */
  lemma Unpack(fs: seq<Field>, k: nat)
    requires k < |fs|
    ensures LowBits(ShiftRight(Packed(fs) + Pow2(TotalBits(fs)), TotalBits(fs[..k])), fs[k].width)
         == LowBits(fs[k].value, fs[k].width)
  {
    hide Pow2, Packed, TotalBits, FromBytes;
    var t, w, v, r := TotalBits(fs[..k]), fs[k].width, LowBits(fs[k].value, fs[k].width), Above(fs, k + 1);
    PackedSplits(fs, k);
    PackedBound(fs[..k]);
    assert Above(fs, k) == v + r * Pow2(w);
    DivModUnique(Packed(fs) + Pow2(TotalBits(fs)), Pow2(t), Above(fs, k), Packed(fs[..k]));
    DivModUnique(Above(fs, k), Pow2(w), r, v);
  }

  /** Encode the fields, flushing where `flushes` says and wherever the register would overflow. */
  method Encode(fs: seq<Field>, buffer: array<byte>, flushes: seq<bool>) returns (size: nat)
    requires Fields(fs) && buffer.Length > WORD && |flushes| == |fs|
    modifies buffer
    ensures size == 0 <==> (TotalBits(fs) + 1) / 8 >= buffer.Length - WORD
    ensures size > 0 ==> size == TotalBits(fs) / 8 + 1 && size <= buffer.Length
    ensures size > 0 ==> FromBytes(buffer[..size]) == Packed(fs) + Pow2(TotalBits(fs))
  {
    hide Pow2, Packed, TotalBits, FromBytes, LowBits, ShiftLeft, Joined;
    var c := new CStream(buffer);
    var i := 0;
    PackedNothing(fs);
    while i < |fs|
      invariant 0 <= i <= |fs| && c.Valid() && c.buffer == buffer && fresh(c)
      invariant c.value == Packed(fs[..i]) && c.total == TotalBits(fs[..i])
    {
      if flushes[i] || c.bitPos + fs[i].width >= REGISTER_BITS {
        c.FlushBits();
      }
      PackedNext(fs, i);
      c.AddBits(fs[i].value, fs[i].width);
      i := i + 1;
    }
    assert fs[..|fs|] == fs;
    if c.bitPos + 1 >= REGISTER_BITS {
      c.FlushBits();
    }
    size := c.Close();
  }

  lemma PackedNothing(fs: seq<Field>)
    ensures Packed(fs[..0]) == 0 && TotalBits(fs[..0]) == 0
  {
  }

  /** Decode fields of the given widths from the top of the stream down, reloading where
      `reloads` says and wherever the register would run out. */
  method Decode(src: seq<byte>, ghost fs: seq<Field>, widths: seq<nat>, reloads: seq<bool>)
      returns (values: seq<nat>, ends: seq<bool>)
    requires Fields(fs) && |widths| == |fs| == |reloads| && forall i :: 0 <= i < |fs| ==> widths[i] == fs[i].width
    requires src != [] && src[|src| - 1] != 0 && PayloadBits(src) == TotalBits(fs)
    requires FromBytes(src) == Packed(fs) + Pow2(TotalBits(fs))
    ensures |values| == |fs| && forall i :: 0 <= i < |fs| ==> values[i] == LowBits(fs[i].value, fs[i].width)
    ensures |ends| == |fs| + 1 && ends[0] && forall i :: 0 <= i <= |fs| ==> (ends[i] <==> TotalBits(fs[..i]) == 0)
  {
    hide Pow2, Packed, TotalBits, FromBytes, LowBits, ShiftRight, Window, PayloadBits;
    var d := new DStream(src);
    values, ends := [], [d.EndOfStream()];
    var i := |widths|;
    assert fs[..|fs|] == fs;
    while i > 0
      invariant 0 <= i <= |fs| && d.Valid() && d.src == src && fresh(d)
      invariant d.Remaining() == TotalBits(fs[..i]) && |values| == |fs| - i
      invariant forall j :: i <= j < |fs| ==> values[j - i] == LowBits(fs[j].value, fs[j].width)
      invariant |ends| == |fs| - i + 1 && forall j :: i <= j <= |fs| ==> (ends[j - i] <==> TotalBits(fs[..j]) == 0)
    {
      i := i - 1;
      PackedNext(fs, i);
      if reloads[i] || d.bitsConsumed + widths[i] > REGISTER_BITS {
        var status := d.Reload();
      }
      Unpack(fs, i);
      var v := d.ReadBits(widths[i]);
      values, ends := [v] + values, [d.EndOfStream()] + ends;
    }
    PackedNothing(fs);
  }

  /** A marked number in exactly enough bytes ends in a nonzero byte at its top bit. */
  lemma MarkedStream(src: seq<byte>, value: nat, total: nat)
    requires |src| == total / 8 + 1 && FromBytes(src) == value + Pow2(total) && value < Pow2(total)
    ensures src[|src| - 1] != 0 && PayloadBits(src) == total
  {
    hide FromBytes, PayloadBits, Pow2;
    var n := |src| - 1;
    assert src == src[..n] + [src[n]];
    FromBytesAppend(src[..n], [src[n]]);
    FromBytesBound(src[..n]);
    ByteValue(src[n]);
    Pow2Mono(8 * n, total);
    if src[n] == 0 {
      assert false;
    }
    MarkIsHighest(src);
    SameExponent(FromBytes(src), total, PayloadBits(src));
  }

  lemma ByteValue(b: byte)
    ensures FromBytes([b]) == b
  {
    assert FromBytes([b][1..]) == 0;
  }

  lemma SameExponent(w: nat, a: nat, b: nat)
    requires Pow2(a) <= w < 2 * Pow2(a) && Pow2(b) <= w < 2 * Pow2(b)
    ensures a == b
  {
    if a < b { Pow2Mono(a, b); } else if b < a { Pow2Mono(b, a); }
  }

  lemma LowRemainder(v: nat, w: nat)
    ensures LowBits(v, w) == v % Pow2(w)
  {
  }

  /** Whatever the flush and reload schedules, a stream that is stored decodes to the encoded
      fields; the test for its end, made with `i` fields still to read, holds exactly when they have
      no bits.  It is stored exactly when it ends before the buffer's
      last word. */
  method RoundTrip(fs: seq<Field>, capacity: nat, flushes: seq<bool>, reloads: seq<bool>)
    returns (stored: bool, values: seq<nat>, ends: seq<bool>)
    requires Fields(fs) && |flushes| == |fs| == |reloads|
    ensures stored <==> capacity > WORD && (TotalBits(fs) + 1) / 8 < capacity - WORD
    ensures stored ==>
      |values| == |fs| && forall i :: 0 <= i < |fs| ==> values[i] == fs[i].value % Pow2(fs[i].width)
    ensures stored ==>
      |ends| == |fs| + 1 && ends[0] && forall i :: 0 <= i <= |fs| ==> (ends[i] <==> TotalBits(fs[..i]) == 0)
  {
    hide Pow2, Packed, TotalBits, FromBytes, LowBits, PayloadBits;
    values, ends := [], [];
    if capacity <= WORD {
      return false, [], [];
    }
    var buffer := new byte[capacity];
    var size := Encode(fs, buffer, flushes);
    stored := size > 0;
    if stored {
      PackedBound(fs);
      MarkedStream(buffer[..size], Packed(fs), TotalBits(fs));
      values, ends := Decode(buffer[..size], fs, seq(|fs|, i requires 0 <= i < |fs| => fs[i].width), reloads);
      forall i | 0 <= i < |fs| ensures values[i] == fs[i].value % Pow2(fs[i].width)
      {
        LowRemainder(fs[i].value, fs[i].width);
      }
    }
  }
}
