/** The kernel log: variable-length records in a power-of-two ring buffer. */
module LogRing {
  import opened Bits
  import opened Memory

  const HEADER := 8
  const BUFFER_LEN := 256
  /** vformat stores at most 247 characters of the 248 it is given. */
  const MESSAGE_MAX := 247
  const ID_LIMIT := 0x400_0000_0000

  datatype Entry = Entry(id: nat, severity: nat, area: nat, message: seq<byte>)

  ghost predicate WellFormed(e: Entry)
  {
    e.severity < 16 && e.area < 128 && |e.message| <= MESSAGE_MAX
  }

  function EntryBytes(e: Entry): nat { HEADER + |e.message| }

  /** The bit fields of j6_log_entry: id 42, bytes 11, severity 4, area 7. */
  function HeaderWord(e: Entry): nat
  {
    e.id % ID_LIMIT + ID_LIMIT * (EntryBytes(e) % 2048 + 2048 * (e.severity % 16 + 16 * (e.area % 128)))
  }

  function WordId(w: nat): nat { w % ID_LIMIT }
  function WordBytes(w: nat): nat { (w / ID_LIMIT) % 2048 }

  /** Bits 53 to 56 and 57 to 63. */
  function WordSeverity(w: nat): nat { (w / 0x20_0000_0000_0000) % 16 }
  function WordArea(w: nat): nat { (w / 0x200_0000_0000_0000) % 128 }

  /** The four fields of a header word: 42, 11, 4 and 7 bits. */
  lemma HeaderFields(e: Entry)
    requires WellFormed(e)
    ensures HeaderWord(e) < TWO_64
    ensures WordId(HeaderWord(e)) == e.id % ID_LIMIT && WordBytes(HeaderWord(e)) == EntryBytes(e)
    ensures WordSeverity(HeaderWord(e)) == e.severity && WordArea(HeaderWord(e)) == e.area
  {
    FieldsOf(e.id % ID_LIMIT, EntryBytes(e), e.severity, e.area);
    assert HeaderWord(e) == e.id % ID_LIMIT + ID_LIMIT * (EntryBytes(e) + 2048 * (e.severity + 16 * e.area));
  }

  lemma FieldsOf(id: nat, n: nat, severity: nat, area: nat)
    requires id < 0x400_0000_0000 && n < 2048 && severity < 16 && area < 128
    ensures var w := id + 0x400_0000_0000 * (n + 2048 * (severity + 16 * area));
      && w < TWO_64 && w % 0x400_0000_0000 == id && (w / 0x400_0000_0000) % 2048 == n
      && (w / 0x20_0000_0000_0000) % 16 == severity && (w / 0x200_0000_0000_0000) % 128 == area
  {
    var top := n + 2048 * (severity + 16 * area);
    var w := id + 0x400_0000_0000 * top;
    DivModUnique(w, 0x400_0000_0000, top, id);
    DivModUnique(w, 0x20_0000_0000_0000, severity + 16 * area, id + 0x400_0000_0000 * n);
    DivModUnique(w, 0x200_0000_0000_0000, area, id + 0x400_0000_0000 * (n + 2048 * severity));
  }

  /** A record as it is stored. */
  function Encode(e: Entry): (r: seq<byte>)
    ensures |r| == EntryBytes(e)
  {
    ToBytes(HeaderWord(e), HEADER) + e.message
  }

  /** A record as its reader sees it. */
  datatype Record = Record(id: nat, bytes: nat, severity: nat, area: nat, message: seq<byte>)

  /** The record in some bytes: bits 0 to 41, 42 to 52, 53 to 56 and 57 to 63 of the first eight, then the rest. */
  function Decode(b: seq<byte>): Record
    requires |b| >= 8
  {
    var w := LittleWord(b[..8]);
    Record(w % 0x400_0000_0000, (w / 0x400_0000_0000) % 2048, (w / 0x20_0000_0000_0000) % 16,
           (w / 0x200_0000_0000_0000) % 128, b[8..])
  }

  /** What is stored of a record is read back as it was, with its id modulo 2^42. */
  lemma DecodeEncode(e: Entry)
    requires WellFormed(e)
    ensures |Encode(e)| == 8 + |e.message|
    ensures Decode(Encode(e)) == Record(e.id % 0x400_0000_0000, 8 + |e.message|, e.severity, e.area, e.message)
  {
    hide FromBytes, HeaderWord, LittleWord, ToBytes;
    EncodedHeader(e);
    HeaderFields(e);
    FromEightBytes(Encode(e)[..8]);
    assert Encode(e)[8..] == e.message;
  }

  function EncodeAll(es: seq<Entry>): (r: seq<byte>)
  {
    if es == [] then [] else Encode(es[0]) + EncodeAll(es[1..])
  }

  lemma Associative<T>(a: seq<T>, b: seq<T>, c: seq<T>)
    ensures (a + b) + c == a + (b + c)
  {
  }

  lemma SplitAt<T>(s: seq<T>, k: nat)
    requires k < |s|
    ensures s == s[..k] + ([s[k]] + s[k + 1..]) && s[..k + 1] == s[..k] + [s[k]]
  {
  }

  lemma {:induction false} EncodeAllAppend(es: seq<Entry>, fs: seq<Entry>)
    ensures EncodeAll(es + fs) == EncodeAll(es) + EncodeAll(fs)
  {
    hide Encode;
    if es == [] {
      assert es + fs == fs;
    } else {
      EncodeAllAppend(es[1..], fs);
      assert (es + fs)[1..] == es[1..] + fs && (es + fs)[0] == es[0];
      Associative(Encode(es[0]), EncodeAll(es[1..]), EncodeAll(fs));
    }
  }

  function RingIndex(off: nat, i: nat, n: nat): (r: nat)
    requires n > 0
    ensures r < n
  {
    (off + i) % n
  }

  /** `n` bytes of the ring from absolute position `off`. */
  function RingBytes(buf: seq<byte>, off: nat, n: nat): (r: seq<byte>)
    requires |buf| > 0
    ensures |r| == n
  {
    seq(n, i requires 0 <= i < n => buf[RingIndex(off, i, |buf|)])
  }

  lemma RingSlice(buf: seq<byte>, off: nat, n: nat, a: nat, b: nat)
    requires |buf| > 0 && a <= b <= n
    ensures RingBytes(buf, off, n)[a..b] == RingBytes(buf, off + a, b - a)
  {
    var s, t := RingBytes(buf, off, n)[a..b], RingBytes(buf, off + a, b - a);
    forall i | 0 <= i < b - a ensures s[i] == t[i]
    {
      assert RingIndex(off, a + i, |buf|) == RingIndex(off + a, i, |buf|);
    }
  }

  lemma RingDistinct(x: nat, y: nat, n: nat)
    requires x < y < x + n
    ensures x % n != y % n
  {
    var q, r, d := x / n, x % n, y - x;
    assert x == n * q + r;
    if r + d < n {
      DivModUnique(y, n, q, r + d);
    } else {
      assert n * (q + 1) == n * q + n;
      DivModUnique(y, n, q + 1, r + d - n);
    }
  }

  /** Storing one byte just past `n` bytes of the ring appends it and disturbs none of them. */
  lemma RingAppend(buf: seq<byte>, off: nat, n: nat, b: byte)
    requires n < |buf|
    ensures RingBytes(buf[RingIndex(off, n, |buf|) := b], off, n + 1) == RingBytes(buf, off, n) + [b]
  {
    var buf' := buf[RingIndex(off, n, |buf|) := b];
    var s, t := RingBytes(buf', off, n + 1), RingBytes(buf, off, n) + [b];
    forall i | 0 <= i < n + 1 ensures s[i] == t[i]
    {
      if i < n { RingDistinct(off + i, off + n, |buf|); }
    }
  }

  lemma SameIndex(start: nat, end: nat, i: nat, n: nat)
    requires start <= end && n > 0
    ensures RingIndex(end, i, n) == RingIndex(start, end - start + i, n)
  {
  }

  lemma RingStep(buf: seq<byte>, off: nat, n: nat, before: seq<byte>, bytes: seq<byte>, i: nat)
    requires n < |buf| && i < |bytes| && RingBytes(buf, off, n) == before + bytes[..i]
    ensures RingBytes(buf[RingIndex(off, n, |buf|) := bytes[i]], off, n + 1) == before + bytes[..i + 1]
  {
    hide RingBytes;
    RingAppend(buf, off, n, bytes[i]);
    assert before + bytes[..i] + [bytes[i]] == before + bytes[..i + 1];
  }

  /** Bytes of the records before record `k`. */
  function Before(es: seq<Entry>, k: nat): nat
    requires k <= |es|
  {
    |EncodeAll(es[..k])|
  }

  lemma EncodeSplit(es: seq<Entry>, k: nat)
    requires k < |es|
    ensures EncodeAll(es) == EncodeAll(es[..k]) + (Encode(es[k]) + EncodeAll(es[k + 1..]))
  {
    hide Encode, EncodeAll;
    SplitAt(es, k);
    EncodeAllAppend(es[..k], [es[k]] + es[k + 1..]);
    EncodeAllAppend([es[k]], es[k + 1..]);
    EncodeOne(es[k]);
  }

  lemma BeforeNext(es: seq<Entry>, k: nat)
    requires k < |es|
    ensures Before(es, k + 1) == Before(es, k) + EntryBytes(es[k])
  {
    hide Encode, EncodeAll;
    SplitAt(es, k);
    EncodeAllAppend(es[..k], [es[k]]);
    EncodeOne(es[k]);
  }

  /** Record `k` is found at its place in the ring. */
  lemma EntryAt(buf: seq<byte>, off: nat, es: seq<Entry>, k: nat)
    requires |buf| > 0 && k < |es| && RingBytes(buf, off, |EncodeAll(es)|) == EncodeAll(es)
    ensures Before(es, k + 1) == Before(es, k) + EntryBytes(es[k]) <= |EncodeAll(es)|
    ensures RingBytes(buf, off + Before(es, k), EntryBytes(es[k])) == Encode(es[k])
  {
    hide EncodeAll, Encode, RingBytes;
    EncodeSplit(es, k);
    BeforeNext(es, k);
    var lo, hi := Before(es, k), Before(es, k) + EntryBytes(es[k]);
    RingSlice(buf, off, |EncodeAll(es)|, lo, hi);
    assert EncodeAll(es)[lo..hi] == Encode(es[k]);
  }

  lemma EncodedHeader(e: Entry)
    requires WellFormed(e)
    ensures FromBytes(Encode(e)[..HEADER]) == HeaderWord(e)
  {
    hide FromBytes, HeaderWord;
    HeaderFields(e);
    Pow2Values();
    BytesRoundTrip(HeaderWord(e), HEADER);
    assert Encode(e)[..HEADER] == ToBytes(HeaderWord(e), HEADER);
  }

  /** The header of record `k`, read from the ring. */
  lemma HeaderAt(buf: seq<byte>, off: nat, es: seq<Entry>, k: nat)
    requires |buf| > 0 && k < |es| && RingBytes(buf, off, |EncodeAll(es)|) == EncodeAll(es) && WellFormed(es[k])
    ensures var w := FromBytes(RingBytes(buf, off + Before(es, k), HEADER));
      WordId(w) == es[k].id % ID_LIMIT && WordBytes(w) == EntryBytes(es[k])
  {
    hide EncodeAll, Encode, RingBytes, FromBytes, HeaderWord;
    EntryAt(buf, off, es, k);
    RingSlice(buf, off + Before(es, k), EntryBytes(es[k]), 0, HEADER);
    EncodedHeader(es[k]);
    HeaderFields(es[k]);
  }

  /** Dropping the oldest record moves the start by its size. */
  lemma DropFirst(buf: seq<byte>, off: nat, es: seq<Entry>)
    requires |buf| > 0 && es != [] && RingBytes(buf, off, |EncodeAll(es)|) == EncodeAll(es)
    ensures |EncodeAll(es)| == EntryBytes(es[0]) + |EncodeAll(es[1..])|
    ensures RingBytes(buf, off + EntryBytes(es[0]), |EncodeAll(es[1..])|) == EncodeAll(es[1..])
  {
    hide Encode, RingBytes;
    var n := EntryBytes(es[0]);
    RingSlice(buf, off, |EncodeAll(es)|, n, |EncodeAll(es)|);
    assert EncodeAll(es)[n..|EncodeAll(es)|] == EncodeAll(es[1..]);
  }

  /** The longest run of newest records that fits in `room` bytes. */
  ghost function Kept(es: seq<Entry>, room: nat): (r: seq<Entry>)
  {
    if |EncodeAll(es)| <= room then es else Kept(es[1..], room)
  }

  /** Eviction drops oldest records only, and no more of them than needed. */
  lemma {:induction false} KeptIsLongest(es: seq<Entry>, room: nat)
    ensures |Kept(es, room)| <= |es| && Kept(es, room) == es[|es| - |Kept(es, room)|..]
    ensures |EncodeAll(Kept(es, room))| <= room
    ensures forall k :: 0 <= k < |es| - |Kept(es, room)| ==> |EncodeAll(es[k..])| > room
  {
    if |EncodeAll(es)| > room {
      KeptIsLongest(es[1..], room);
      var n := |Kept(es, room)|;
      assert es[1..][|es| - 1 - n..] == es[|es| - n..];
      forall k | 0 <= k < |es| - n ensures |EncodeAll(es[k..])| > room
      {
        if k > 0 { assert es[k..] == es[1..][k - 1..]; }
        else { assert es[0..] == es; }
      }
    } else {
      assert es[0..] == es;
    }
  }

  /** Records carry consecutive ids ending at `count`. */
  ghost predicate Numbered(es: seq<Entry>, count: nat)
  {
    |es| <= count && forall i :: 0 <= i < |es| ==> es[i].id == count - |es| + 1 + i && WellFormed(es[i])
  }

  datatype Lookup =
    | Wait
    | Found(bytes: nat, copied: seq<byte>)
    | PastEnd  // the assertion "Got to the end while looking for new log entry"

  /** The first record whose stored id is above `seen`. */
  ghost function FirstAbove(es: seq<Entry>, seen: nat): (k: nat)
    ensures k <= |es|
  {
    if es == [] then 0
    else if seen < es[0].id % ID_LIMIT then 0
    else 1 + FirstAbove(es[1..], seen)
  }

  /** The answer from a log without records: whatever the bytes at its start say. */
  ghost function Stray(buffer: seq<byte>, start: nat, seen: nat, size: nat): Lookup
    requires buffer != []
  {
    var w := FromBytes(RingBytes(buffer, start, HEADER));
    if seen >= WordId(w) then PastEnd
    else Found(WordBytes(w), if size >= WordBytes(w) then RingBytes(buffer, start, WordBytes(w)) else [])
  }

  ghost function Answer(es: seq<Entry>, k: nat, size: nat): Lookup
  {
    if k < |es| then Found(EntryBytes(es[k]), if size >= EntryBytes(es[k]) then Encode(es[k]) else []) else PastEnd
  }

  /** The answer is the first record whose id, modulo 2^42, is above the one seen: its size, and if that fits the
      reader's buffer, its id, severity, area and message. */
  ghost predicate Returns(es: seq<Entry>, seen: nat, r: Lookup, size: nat)
    requires r.Found?
  {
    exists k :: 0 <= k < |es| && seen < es[k].id % 0x400_0000_0000
      && (forall j :: 0 <= j < k ==> es[j].id % 0x400_0000_0000 <= seen) && Shows(r, es[k], size)
  }

  predicate Shows(r: Lookup, e: Entry, size: nat)
    requires r.Found?
  {
    && r.bytes == 8 + |e.message|
    && (r.bytes > size ==> r.copied == [])
    && (r.bytes <= size ==>
          && |r.copied| >= 8
          && Decode(r.copied) == Record(e.id % 0x400_0000_0000, r.bytes, e.severity, e.area, e.message))
  }

  lemma {:induction false} FirstAboveIs(es: seq<Entry>, seen: nat)
    ensures var k := FirstAbove(es, seen);
      && (forall j :: 0 <= j < k ==> es[j].id % ID_LIMIT <= seen) && (k < |es| ==> seen < es[k].id % ID_LIMIT)
  {
    if es != [] {
      FirstAboveIs(es[1..], seen);
      var k := FirstAbove(es, seen);
      assert forall j :: 1 <= j < |es| ==> es[j] == es[1..][j - 1];
    }
  }

  lemma AnswerReturns(es: seq<Entry>, count: nat, seen: nat, size: nat)
    requires Numbered(es, count) && FirstAbove(es, seen) < |es|
    ensures Returns(es, seen, Answer(es, FirstAbove(es, seen), size), size)
  {
    hide Encode, Decode, FirstAbove;
    FirstAboveIs(es, seen);
    var k := FirstAbove(es, seen);
    DecodeEncode(es[k]);
  }

  lemma FirstAboveFrom(es: seq<Entry>, k: nat, seen: nat)
    requires k == 0
    ensures FirstAbove(es, seen) == k + FirstAbove(es[k..], seen)
  {
    assert es[0..] == es;
  }

  lemma AboveStep(es: seq<Entry>, k: nat, seen: nat)
    requires k < |es|
    ensures FirstAbove(es[k..], seen) ==
      if seen < es[k].id % ID_LIMIT then 0 else 1 + FirstAbove(es[k + 1..], seen)
  {
    assert es[k..][1..] == es[k + 1..];
  }

  /** A scan that runs out of bytes has run out of records, and the other way round. */
  lemma AtEnd(es: seq<Entry>, k: nat)
    requires k < |es| && Before(es, k + 1) >= |EncodeAll(es)|
    ensures k + 1 == |es|
  {
    if k + 1 < |es| {
      BeforeNext(es, k + 1);
      BeforeMost(es, k + 2);
    }
  }

  lemma BeforeMost(es: seq<Entry>, k: nat)
    requires k <= |es|
    ensures Before(es, k) <= |EncodeAll(es)|
  {
    assert es == es[..k] + es[k..];
    EncodeAllAppend(es[..k], es[k..]);
  }

  lemma AllBefore(es: seq<Entry>, k: nat)
    requires k <= |es| && Before(es, k) < |EncodeAll(es)|
    ensures k < |es|
  {
    assert es[..|es|] == es;
  }

  /** While ids fit their 42 bits, a reader gets the live record with the least id above the
      last one it saw; a reader ahead of the log runs past the end. */
  lemma {:induction false} NextIsLeast(es: seq<Entry>, count: nat, seen: nat)
    requires Numbered(es, count) && es != [] && count < ID_LIMIT
    ensures FirstAbove(es, seen) < |es| <==> seen < count
    ensures seen < count ==>
      es[FirstAbove(es, seen)].id == if seen < es[0].id then es[0].id else seen + 1
  {
    assert es[0].id == count - |es| + 1;
    assert es[0].id % ID_LIMIT == es[0].id;
    if seen >= es[0].id {
      if |es| > 1 {
        var t := es[1..];
        assert forall i :: 0 <= i < |t| ==> t[i] == es[i + 1];
        NextIsLeast(t, count, seen);
        assert t[0] == es[1];
      } else {
        assert es[1..] == [];
      }
    }
  }

  /** After 2^42 records the stored ids wrap: a reader that only misses the newest record
      finds it exactly when the record count still fits 42 bits. */
  lemma NewestFound(es: seq<Entry>, count: nat)
    requires Numbered(es, count) && es != []
    ensures FirstAbove(es, count - 1) < |es| <==> count < ID_LIMIT
  {
    if count < ID_LIMIT {
      NextIsLeast(es, count, count - 1);
    } else {
      NoneAbove(es, count - 1);
    }
  }

  lemma NewestReturned(es: seq<Entry>, count: nat)
    requires Numbered(es, count) && es != []
    ensures var r, e := Answer(es, FirstAbove(es, count - 1), BUFFER_LEN), es[|es| - 1];
      if count < 0x400_0000_0000
      then
        && r.Found? && |r.copied| >= 8
        && Decode(r.copied) == Record(count, 8 + |e.message|, e.severity, e.area, e.message)
      else r == PastEnd
  {
    hide Encode, Decode, FirstAbove;
    NewestFound(es, count);
    if count < ID_LIMIT {
      NextIsLeast(es, count, count - 1);
      DecodeEncode(es[|es| - 1]);
    }
  }

  lemma {:induction false} NoneAbove(es: seq<Entry>, seen: nat)
    requires seen >= ID_LIMIT - 1
    ensures FirstAbove(es, seen) == |es|
  {
    if es != [] { NoneAbove(es[1..], seen); }
  }

  class Logger {
    const buffer: array<byte>
    var start: nat
    var end: nat
    var count: nat

    ghost var entries: seq<Entry>

    /** The bytes from start to end are exactly the live records. */
    ghost predicate Ring()
      reads this, buffer
    {
      && buffer.Length >= BUFFER_LEN && And(buffer.Length, buffer.Length - 1) == 0
      && start <= end <= start + buffer.Length && end - start == |EncodeAll(entries)|
      && RingBytes(buffer[..], start, end - start) == EncodeAll(entries)
      && Numbered(entries, count)
    }

    /** Once something was logged, the newest record is still there. */
    ghost predicate Valid()
      reads this, buffer
    {
      Ring() && (count > 0 ==> entries != [])
    }

    constructor (data: array<byte>)
      requires data.Length >= BUFFER_LEN && And(data.Length, data.Length - 1) == 0
      ensures Valid() && entries == [] && count == 0 && buffer == data
    {
      buffer := data;
      start, end, count := 0, 0, 0;
      entries := [];
    }

    /** The ring index of an absolute position. */
    function Offset(i: nat): (r: nat)
      requires buffer.Length > 0
    {
      And(i, buffer.Length - 1)
    }

    lemma OffsetIsRemainder(i: nat)
      requires buffer.Length > 0 && And(buffer.Length, buffer.Length - 1) == 0
      ensures Offset(i) == i % buffer.Length
    {
      var k := PowerOfTwoTest(buffer.Length);
      AndMask(i, k);
    }

    function Room(): int
      reads this
    {
      buffer.Length - (end - start)
    }

    /** Copy `n` bytes out; the ring mapping wraps the copy at the buffer's end. */
    method CopyOut(off: nat, n: nat) returns (s: seq<byte>)
      requires buffer.Length > 0 && And(buffer.Length, buffer.Length - 1) == 0
      ensures s == RingBytes(buffer[..], off, n)
    {
      OffsetIsRemainder(off);
      s := [];
      for i := 0 to n
        invariant s == RingBytes(buffer[..], off, i)
      {
        Wrap(off, i, buffer.Length);
        s := s + [buffer[RingIndex(Offset(off), i, buffer.Length)]];
      }
    }

    method Output(severity: nat, area: nat, message: seq<byte>)
      requires Valid() && severity < 16 && area < 128 && |message| <= MESSAGE_MAX
      modifies this, buffer
      ensures Valid() && count == old(count) + 1
      ensures entries ==
        Kept(old(entries), buffer.Length - HEADER - |message|) + [Entry(count, severity, area, message)]
    {
      hide EncodeAll, Encode, RingBytes, FromBytes, HeaderWord, And;
      var size := HEADER + |message|;
      ghost var room := buffer.Length - size;
      while Room() < size
        invariant Ring() && count == old(count) && Kept(entries, room) == Kept(old(entries), room)
        decreases |entries|
      {
        EmptyEncodes();
        HeaderAt(buffer[..], start, entries, 0);
        DropFirst(buffer[..], start, entries);
        BeforeFirst(entries);
        var first := CopyOut(start, HEADER);
        start := start + WordBytes(FromBytes(first));
        entries := entries[1..];
      }
      count := count + 1;
      ghost var e := Entry(count, severity, area, message);
      Append(Encode(Entry(count, severity, area, message)));
      EncodeAllAppend(entries, [e]);
      EncodeOne(e);
      entries := entries + [e];
    }

    /** The next record for a reader that has seen ids up to `seen`. */
    method GetEntry(seen: nat, size: nat) returns (r: Lookup)
      requires Valid()
      ensures seen == count ==> r == Wait
      ensures seen != count && count > 0 ==> r == Answer(entries, FirstAbove(entries, seen), size)
      ensures seen != count && count > 0 && r.Found? ==> Returns(entries, seen, r, size)
      ensures seen != count && count == 0 ==> r == Stray(buffer[..], start, seen, size)
    {
      hide EncodeAll, Encode, RingBytes, FromBytes, HeaderWord, And, Returns, FirstAbove, WordId, WordBytes;
      if seen == count {
        return Wait;
      }
      if count == 0 {
        r := SearchEmpty(seen, size);
        return;
      }
      var off := start;
      ghost var k := 0;
      BeforeFirst(entries);
      HeaderAt(buffer[..], start, entries, 0);
      var header := CopyOut(off, HEADER);
      FirstAboveFrom(entries, 0, seen);
      while seen >= WordId(FromBytes(header))
        invariant 0 <= k < |entries| && off == start + Before(entries, k)
        invariant WordId(FromBytes(header)) == entries[k].id % ID_LIMIT
        invariant WordBytes(FromBytes(header)) == EntryBytes(entries[k])
        invariant FirstAbove(entries, seen) == k + FirstAbove(entries[k..], seen)
        decreases |entries| - k
      {
        EntryAt(buffer[..], start, entries, k);
        off := off + WordBytes(FromBytes(header));
        AboveStep(entries, k, seen);
        if off >= end {
          AtEnd(entries, k);
          return PastEnd;
        }
        AllBefore(entries, k + 1);
        k := k + 1;
        HeaderAt(buffer[..], start, entries, k);
        header := CopyOut(off, HEADER);
      }
      AboveStep(entries, k, seen);
      EntryAt(buffer[..], start, entries, k);
      var bytes := WordBytes(FromBytes(header));
      var copied: seq<byte> := [];
      if size >= bytes {
        copied := CopyOut(off, bytes);
      }
      r := Found(bytes, copied);
      AnswerReturns(entries, count, seen, size);
    }

    /** A reader that has seen everything before gets what is logged next, exactly while ids fit 42 bits. */
    method OutputAndGet(severity: nat, area: nat, message: seq<byte>) returns (r: Lookup)
      requires Valid() && severity < 16 && area < 128 && |message| <= MESSAGE_MAX
      modifies this, buffer
      ensures Valid() && count == old(count) + 1
      ensures if count < 0x400_0000_0000
        then r.Found? && |r.copied| >= 8 && Decode(r.copied) == Record(count, 8 + |message|, severity, area, message)
        else r == PastEnd
    {
      hide EncodeAll, Encode, RingBytes, FromBytes, HeaderWord, And, Decode, Kept, Numbered, FirstAbove, Answer,
           Returns;
      Output(severity, area, message);
      r := GetEntry(count - 1, BUFFER_LEN);
      NewestReturned(entries, count);
    }

    /** An empty log is searched all the same: the bytes at its start are taken for a record. */
    method SearchEmpty(seen: nat, size: nat) returns (r: Lookup)
      requires Valid() && count == 0
      ensures r == Stray(buffer[..], start, seen, size)
    {
      hide RingBytes, FromBytes, And, EncodeAll;
      var header := CopyOut(start, HEADER);
      if seen >= WordId(FromBytes(header)) {
        return PastEnd;
      }
      var bytes := WordBytes(FromBytes(header));
      var copied: seq<byte> := [];
      if size >= bytes {
        copied := CopyOut(start, bytes);
      }
      r := Found(bytes, copied);
    }

    /** memcpy of one record to the end of the ring. */
    method Append(bytes: seq<byte>)
      requires buffer.Length > 0 && And(buffer.Length, buffer.Length - 1) == 0
      requires start <= end && end - start + |bytes| <= buffer.Length
      modifies `end, buffer
      ensures end == old(end) + |bytes|
      ensures RingBytes(buffer[..], start, end - start) == RingBytes(old(buffer[..]), start, old(end) - start) + bytes
    {
      hide RingBytes, RingIndex, And;
      OffsetIsRemainder(end);
      ghost var old_ := RingBytes(buffer[..], start, end - start);
      for i := 0 to |bytes|
        invariant end == old(end)
        invariant RingBytes(buffer[..], start, end - start + i) == old_ + bytes[..i]
      {
        Wrap(end, i, buffer.Length);
        SameIndex(start, end, i, buffer.Length);
        RingStep(buffer[..], start, end - start + i, old_, bytes, i);
        var at := RingIndex(Offset(end), i, buffer.Length);
        ghost var b := buffer[..];
        buffer[at] := bytes[i];
        assert buffer[..] == b[at := bytes[i]];
      }
      end := end + |bytes|;
    }
  }

  lemma EmptyEncodes()
    ensures EncodeAll([]) == []
  {
  }

  lemma BeforeFirst(es: seq<Entry>)
    ensures Before(es, 0) == 0
  {
  }

  lemma EncodeOne(e: Entry)
    ensures EncodeAll([e]) == Encode(e)
  {
    assert [e][1..] == [];
  }

  /** Wrapping the base first and the index after is the same as wrapping once. */
  lemma Wrap(off: nat, i: nat, n: nat)
    requires n > 0
    ensures RingIndex(off % n, i, n) == RingIndex(off, i, n)
  {
    var q, r := (off % n + i) / n, (off % n + i) % n;
    assert off == n * (off / n) + off % n;
    MulDistributes(n, off / n, q);
    DivModUnique(off + i, n, off / n + q, r);
  }
}
