/** A reader of the kernel log that passes back the id of the last record it got, and its runs beside the
    threads that write to the log. */
module LogReader {
  import opened LogRing
  import opened Memory

  datatype Op = Write(severity: nat, area: nat, message: seq<byte>) | Ask

  /** The log as it is, the last id the reader saw, and the size of its buffer. */
  datatype View = View(entries: seq<Entry>, count: nat, seen: nat, size: nat)

  predicate Writable(op: Op)
  {
    op.Write? ==> op.severity < 16 && op.area < 128 && |op.message| <= MESSAGE_MAX
  }

  /** The log is in order and the reader is not ahead of it. */
  ghost predicate ViewOk(v: View)
  {
    Numbered(v.entries, v.count) && (v.count > 0 ==> v.entries != []) && v.seen <= v.count
  }

  /** The call of a reader that is up to date blocks until something is logged. */
  predicate Waits(v: View)
  {
    v.seen == v.count
  }

  /** What the reader does with record `k` as its answer: grow its buffer, or take the record and its id. */
  function Taken(v: View, k: nat): View
  {
    if k >= |v.entries| then v
    else if EntryBytes(v.entries[k]) > v.size then v.(size := 2 * EntryBytes(v.entries[k]))
    else v.(seen := v.entries[k].id % ID_LIMIT)
  }

  ghost function After(length: nat, v: View, op: Op): View
    requires length >= BUFFER_LEN && Writable(op)
  {
    match op
    case Write(severity, area, message) =>
      var kept := Kept(v.entries, length - HEADER - |message|);
      v.(entries := kept + [Entry(v.count + 1, severity, area, message)], count := v.count + 1)
    case Ask => if Waits(v) then v else Taken(v, FirstAbove(v.entries, v.seen))
  }

  /** The search runs past the last record, which the kernel asserts it does not. */
  ghost predicate Fails(v: View, op: Op)
  {
    op.Ask? && !Waits(v) && FirstAbove(v.entries, v.seen) == |v.entries|
  }

  /** The least id of a live record above the last one seen. */
  function Next(v: View): nat
  {
    if v.entries != [] && v.seen < v.entries[0].id then v.entries[0].id else v.seen + 1
  }

  /** The search finds the live record with the least id above the last one seen, stored under that id. */
  ghost predicate Right(v: View, op: Op)
  {
    op.Ask? && !Waits(v) ==>
      var k := FirstAbove(v.entries, v.seen);
      k < |v.entries| && v.entries[k].id == Next(v) && v.entries[k].id % ID_LIMIT == Next(v)
  }

  /** The next record's id fits the 42 bits that a record has for it. */
  predicate Fits(v: View, op: Op)
  {
    op.Ask? && !Waits(v) ==> Next(v) < ID_LIMIT
  }

  lemma {:induction false} NextAbove(es: seq<Entry>, count: nat, seen: nat)
    requires Numbered(es, count) && es != [] && seen < count
    requires (if seen < es[0].id then es[0].id else seen + 1) < ID_LIMIT
    ensures FirstAbove(es, seen) < |es|
    ensures es[FirstAbove(es, seen)].id == if seen < es[0].id then es[0].id else seen + 1
  {
    assert es[0].id == count - |es| + 1;
    if seen >= es[0].id {
      var t := es[1..];
      assert forall i :: 0 <= i < |t| ==> t[i] == es[i + 1];
      assert t[0] == es[1];
      NextAbove(t, count, seen);
    }
  }

  /** A call is answered rightly exactly when the next id fits. */
  lemma AskExactly(v: View, op: Op)
    requires ViewOk(v)
    ensures Right(v, op) <==> Fits(v, op)
  {
    if op.Ask? && !Waits(v) && Next(v) < ID_LIMIT {
      NextAbove(v.entries, v.count, v.seen);
    }
  }

  lemma NumberedMore(es: seq<Entry>, kept: seq<Entry>, count: nat, e: Entry)
    requires Numbered(es, count) && |kept| <= |es| && kept == es[|es| - |kept|..]
    requires e.id == count + 1 && WellFormed(e)
    ensures Numbered(kept + [e], count + 1)
  {
  }

  lemma StepKeeps(length: nat, v: View, op: Op)
    requires ViewOk(v) && length >= BUFFER_LEN && Writable(op)
    ensures ViewOk(After(length, v, op))
  {
    hide FirstAbove, Kept;
    match op
    case Write(severity, area, message) =>
      hide Numbered;
      var room := length - HEADER - |message|;
      KeptIsLongest(v.entries, room);
      NumberedMore(v.entries, Kept(v.entries, room), v.count, Entry(v.count + 1, severity, area, message));
    case Ask =>
      assert forall k :: 0 <= k < |v.entries| ==> v.entries[k].id % ID_LIMIT <= v.entries[k].id <= v.count;
  }

  /** The reader takes the record with this id. */
  predicate Gets(v: View, v': View, id: nat)
  {
    v.seen < id == v'.seen && exists k :: 0 <= k < |v.entries| && v.entries[k].id == id
  }

  /** The reader passes over this id, whose record had been evicted when it asked. */
  predicate Misses(v: View, v': View, id: nat)
  {
    v.seen < id < v'.seen && v.entries != [] && id < v.entries[0].id
  }

  ghost predicate Traced(length: nat, ops: seq<Op>, trace: seq<View>)
  {
    && length >= BUFFER_LEN && |trace| == |ops| + 1 && ViewOk(trace[0])
    && forall i :: 0 <= i < |ops| ==> Writable(ops[i]) && trace[i + 1] == After(length, trace[i], ops[i])
  }

  lemma {:induction false} TracedOk(length: nat, ops: seq<Op>, trace: seq<View>, i: nat)
    requires Traced(length, ops, trace) && i <= |ops|
    ensures ViewOk(trace[i])
  {
    hide ViewOk, After;
    if i > 0 {
      TracedOk(length, ops, trace, i - 1);
      StepKeeps(length, trace[i - 1], ops[i - 1]);
    }
  }

  /** The answers of a run are all right if and only if every next id fits. */
  lemma RunRight(length: nat, ops: seq<Op>, trace: seq<View>)
    requires Traced(length, ops, trace)
    ensures (forall i :: 0 <= i < |ops| ==> Right(trace[i], ops[i])) <==>
      forall i :: 0 <= i < |ops| ==> Fits(trace[i], ops[i])
  {
    hide Right, Fits, After, ViewOk;
    forall i | 0 <= i < |ops| ensures Right(trace[i], ops[i]) <==> Fits(trace[i], ops[i])
    {
      TracedOk(length, ops, trace, i);
      AskExactly(trace[i], ops[i]);
    }
  }

  /** The reader's call came back with a record. */
  predicate Answered(v: View, op: Op, v': View)
  {
    op.Ask? && !Waits(v) && v'.size == v.size
  }

  /** A buffer that is too small is doubled from the size of the record, and the next call then takes it. */
  lemma AskGrows(length: nat, v: View)
    requires ViewOk(v) && length >= BUFFER_LEN && !Waits(v) && FirstAbove(v.entries, v.seen) < |v.entries|
    requires 8 + |v.entries[FirstAbove(v.entries, v.seen)].message| > v.size
    ensures var e := v.entries[FirstAbove(v.entries, v.seen)];
      && After(length, v, Ask) == v.(size := 2 * (8 + |e.message|))
      && After(length, After(length, v, Ask), Ask).seen == e.id % 0x400_0000_0000
  {
    hide FirstAbove;
  }

  lemma StepReads(length: nat, v: View, op: Op)
    requires ViewOk(v) && length >= BUFFER_LEN && Writable(op) && Fits(v, op)
    ensures var v' := After(length, v, op);
      && v.seen <= v'.seen && (Answered(v, op, v') ==> v.seen < v'.seen)
      && forall id :: v.seen < id <= v'.seen ==> Gets(v, v', id) || Misses(v, v', id)
  {
    AskExactly(v, op);
  }

  /** Some call of the run gets the id or passes over it. */
  ghost predicate Passed(trace: seq<View>, id: nat)
  {
    exists i :: 0 <= i < |trace| - 1 && (Gets(trace[i], trace[i + 1], id) || Misses(trace[i], trace[i + 1], id))
  }

  lemma PassedBefore(trace: seq<View>, id: nat)
    requires trace != [] && Passed(trace[..|trace| - 1], id)
    ensures Passed(trace, id)
  {
    hide Gets, Misses;
    var before := trace[..|trace| - 1];
    var i :| 0 <= i < |before| - 1 && (Gets(before[i], before[i + 1], id) || Misses(before[i], before[i + 1], id));
    assert before[i] == trace[i] && before[i + 1] == trace[i + 1];
  }

  /** Over a run the ids that the reader sees only rise, and each record it gets has a new one. */
  lemma {:induction false} RunRises(length: nat, ops: seq<Op>, trace: seq<View>, i: nat, j: nat)
    requires Traced(length, ops, trace) && (forall k :: 0 <= k < |ops| ==> Fits(trace[k], ops[k])) && i <= j <= |ops|
    ensures trace[i].seen <= trace[j].seen
    ensures i < j && Answered(trace[i], ops[i], trace[i + 1]) ==> trace[i].seen < trace[j].seen
  {
    hide ViewOk, After, Fits, Gets, Misses, Answered;
    if i < j {
      RunRises(length, ops, trace, i, j - 1);
      TracedOk(length, ops, trace, j - 1);
      StepReads(length, trace[j - 1], ops[j - 1]);
    }
  }

  lemma TracedLess(length: nat, ops: seq<Op>, trace: seq<View>)
    requires Traced(length, ops, trace) && ops != []
    ensures Traced(length, ops[..|ops| - 1], trace[..|ops|])
  {
    hide ViewOk, After;
  }

  /** Each id that the reader leaves behind it either got, or missed because the record had been evicted when
      it asked. */
  lemma {:induction false} RunReads(length: nat, ops: seq<Op>, trace: seq<View>, id: nat)
    requires Traced(length, ops, trace) && (forall i :: 0 <= i < |ops| ==> Fits(trace[i], ops[i]))
    requires trace[0].seen < id <= trace[|ops|].seen
    ensures Passed(trace, id)
  {
    hide ViewOk, After, Fits, Gets, Misses, Passed;
    if |ops| > 0 {
      var last := |ops| - 1;
      if id <= trace[last].seen {
        TracedLess(length, ops, trace);
        RunReads(length, ops[..last], trace[..|ops|], id);
        PassedBefore(trace, id);
      } else {
        TracedOk(length, ops, trace, last);
        StepReads(length, trace[last], ops[last]);
        PassedLast(trace, id);
      }
    }
  }

  lemma PassedLast(trace: seq<View>, id: nat)
    requires |trace| > 1
    requires var i := |trace| - 2; Gets(trace[i], trace[i + 1], id) || Misses(trace[i], trace[i + 1], id)
    ensures Passed(trace, id)
  {
    hide Gets, Misses;
  }

  lemma ValidView(log: Logger, seen: nat, size: nat)
    requires log.Valid() && seen <= log.count
    ensures ViewOk(View(log.entries, log.count, seen, size)) && log.buffer.Length >= BUFFER_LEN
  {
    hide Numbered, EncodeAll, RingBytes;
  }

  lemma StoredId(e: Entry)
    requires WellFormed(e)
    ensures |Encode(e)| >= HEADER && WordId(FromBytes(Encode(e)[..HEADER])) == e.id % ID_LIMIT
  {
    hide Encode, FromBytes, HeaderWord;
    EncodedHeader(e);
    HeaderFields(e);
  }

  /** One round of the reader's loop.  `past` tells that the kernel's assertion fails. */
  method AskOnce(log: Logger, seen: nat, size: nat) returns (seen': nat, size': nat, past: bool)
    requires log.Valid() && seen <= log.count
    ensures var v := View(log.entries, log.count, seen, size);
      && View(log.entries, log.count, seen', size') == After(BUFFER_LEN, v, Ask)
      && (past <==> Fails(v, Ask)) && (past ==> seen' == seen)
  {
    hide Encode, FromBytes, EncodeAll, RingBytes, FirstAbove, HeaderWord;
    ghost var v := View(log.entries, log.count, seen, size);
    ValidView(log, seen, size);
    seen', size', past := seen, size, false;
    var r := log.GetEntry(seen, size);
    match r {
      case Wait =>
      case PastEnd => past := true;
      case Found(bytes, copied) =>
        ghost var k := FirstAbove(log.entries, seen);
        if bytes > size {
          size' := 2 * bytes;
        } else {
          StoredId(log.entries[k]);
          seen' := WordId(FromBytes(copied[..HEADER]));
        }
    }
  }

  lemma TracedMore(length: nat, ops: seq<Op>, trace: seq<View>, done: nat)
    requires done < |ops| && Traced(length, ops[..done], trace) && Writable(ops[done])
    ensures Traced(length, ops[..done + 1], trace + [After(length, trace[done], ops[done])])
  {
    hide ViewOk, After;
  }

  lemma FailsUnfit(v: View, op: Op)
    requires ViewOk(v) && Fails(v, op)
    ensures !Fits(v, op)
  {
    AskExactly(v, op);
  }

  /** The run of the log server's loop: it starts without a buffer and asks again and again, while any records
      are written in between.  It stops where the kernel's assertion fails, which no id that fits can bring about. */
  method Follow(log: Logger, ops: seq<Op>) returns (seen: nat, done: nat, ghost trace: seq<View>)
    requires log.Valid() && forall i :: 0 <= i < |ops| ==> Writable(ops[i])
    modifies log, log.buffer
    ensures log.Valid() && done <= |ops| && |trace| == done + 1
    ensures trace[0] == View(old(log.entries), old(log.count), 0, 0)
    ensures trace[done].entries == log.entries && trace[done].count == log.count && trace[done].seen == seen
    ensures Traced(log.buffer.Length, ops[..done], trace)
    ensures forall i :: 0 <= i < done ==> !Fails(trace[i], ops[i])
    ensures done < |ops| ==> Fails(trace[done], ops[done]) && !Fits(trace[done], ops[done])
    ensures (forall i :: 0 <= i < done ==> Fits(trace[i], ops[i])) ==> forall id :: 0 < id <= seen ==> Passed(trace, id)
  {
    hide ViewOk, After, Fits, Fails, Passed, log.Valid;
    seen, done := 0, 0;
    var size: nat := 0;
    trace := [View(log.entries, log.count, 0, 0)];
    ValidView(log, 0, 0);
    while done < |ops|
      invariant log.Valid() && done <= |ops| && |trace| == done + 1
      invariant trace[0] == View(old(log.entries), old(log.count), 0, 0)
      invariant trace[done] == View(log.entries, log.count, seen, size)
      invariant Traced(log.buffer.Length, ops[..done], trace)
      invariant forall i :: 0 <= i < done ==> !Fails(trace[i], ops[i])
      invariant (forall i :: 0 <= i < done ==> Fits(trace[i], ops[i])) ==>
        forall id :: 0 < id <= seen ==> Passed(trace, id)
    {
      ghost var v, n := trace[done], log.buffer.Length;
      TracedOk(n, ops[..done], trace, done);
      TracedMore(n, ops, trace, done);
      match ops[done] {
        case Write(severity, area, message) =>
          log.Output(severity, area, message);
          Written(n, v, ops[done]);
        case Ask =>
          var past;
          NotAhead(v);
          seen, size, past := AskOnce(log, seen, size);
          if past {
            FailsUnfit(v, ops[done]);
            return;
          }
          AskAnywhere(n, v);
      }
      trace := trace + [View(log.entries, log.count, seen, size)];
      done := done + 1;
      RunPasses(n, ops, trace, done);
    }
  }

  lemma RunPasses(length: nat, ops: seq<Op>, trace: seq<View>, done: nat)
    requires done <= |ops| && Traced(length, ops[..done], trace)
    ensures (forall i :: 0 <= i < done ==> Fits(trace[i], ops[i])) ==>
      forall id :: trace[0].seen < id <= trace[done].seen ==> Passed(trace, id)
  {
    hide ViewOk, After, Fits, Passed;
    if forall i :: 0 <= i < done ==> Fits(trace[i], ops[i]) {
      forall id | trace[0].seen < id <= trace[done].seen ensures Passed(trace, id)
      {
        RunReads(length, ops[..done], trace, id);
      }
    }
  }

  lemma NotAhead(v: View)
    requires ViewOk(v)
    ensures v.seen <= v.count
  {
  }

  lemma AskAnywhere(length: nat, v: View)
    requires length >= BUFFER_LEN
    ensures After(length, v, Ask) == After(BUFFER_LEN, v, Ask)
  {
  }

  lemma Written(length: nat, v: View, op: Op)
    requires length >= BUFFER_LEN && op.Write? && Writable(op)
    ensures After(length, v, op) ==
      v.(entries := Kept(v.entries, length - HEADER - |op.message|)
           + [Entry(v.count + 1, op.severity, op.area, op.message)],
         count := v.count + 1)
    ensures !Fails(v, op)
  {
  }
}
