/** The boot loader's translation of the UEFI memory map into the kernel's memory map. */
module MemoryMap {
  import opened Bits
  import opened Common

  datatype MemType = Available | Pending | Acpi | UefiRuntime | Mmio | Persistent

  /** An EFI_MEMORY_DESCRIPTOR; `kind` is the EFI_MEMORY_TYPE. */
  datatype Descriptor = Descriptor(kind: nat, start: nat, pages: nat, attribute: nat)

  datatype Entry = Entry(start: nat, pages: nat, kind: MemType, attr: nat)

  datatype Translation = Skip | Keep(kind: MemType) | Unexpected

  /** The kernel's type for each UEFI memory type. */
  function Translate(kind: nat): Translation
  {
    if kind in {0, 8, 10, 13} then Skip
    else if kind in {1, 2, 3, 4, 7} then Keep(Available)
    else if kind in {5, 6} then Keep(UefiRuntime)
    else if kind == 9 then Keep(Acpi)
    else if kind in {11, 12} then Keep(Mmio)
    else if kind == 14 then Keep(Persistent)
    else Unexpected
  }

  /** The memory types of the UEFI Specification, section 7.2. */
  datatype EfiType =
    | ReservedMemory
    | LoaderCode
    | LoaderData
    | BootServicesCode
    | BootServicesData
    | RuntimeServicesCode
    | RuntimeServicesData
    | ConventionalMemory
    | UnusableMemory
    | AcpiReclaimMemory
    | AcpiMemoryNvs
    | MemoryMappedIo
    | MemoryMappedIoPortSpace
    | PalCode
    | PersistentMemory

  function Number(t: EfiType): nat
  {
    match t
    case ReservedMemory => 0
    case LoaderCode => 1
    case LoaderData => 2
    case BootServicesCode => 3
    case BootServicesData => 4
    case RuntimeServicesCode => 5
    case RuntimeServicesData => 6
    case ConventionalMemory => 7
    case UnusableMemory => 8
    case AcpiReclaimMemory => 9
    case AcpiMemoryNvs => 10
    case MemoryMappedIo => 11
    case MemoryMappedIoPortSpace => 12
    case PalCode => 13
    case PersistentMemory => 14
  }

  /** Memory that is free once the boot loader has left: its own, that of the boot services, and what was never in
      use. */
  predicate Usable(t: EfiType)
  {
    t == LoaderCode || t == LoaderData || t == BootServicesCode || t == BootServicesData || t == ConventionalMemory
  }

  /** What the kernel is to know of memory of a type; of memory of the other types it is told nothing. */
  predicate Becomes(t: EfiType, kind: MemType)
  {
    match kind
    case Available => Usable(t)
    case UefiRuntime => t == RuntimeServicesCode || t == RuntimeServicesData
    case Acpi => t == AcpiReclaimMemory
    case Mmio => t == MemoryMappedIo || t == MemoryMappedIoPortSpace
    case Persistent => t == PersistentMemory
    case Pending => false
  }

  /** The memory types that the kernel is told nothing of. */
  predicate Dropped(t: EfiType)
  {
    t == ReservedMemory || t == UnusableMemory || t == AcpiMemoryNvs || t == PalCode
  }

  /** One page of physical memory with what the kernel knows about it. */
  datatype Page = Page(address: nat, kind: MemType, attr: nat)

  /** The address of the `k`-th page, in 64 bits. */
  function PageAddress(start: nat, k: nat): nat
  {
    (start + PAGE_SIZE * k) % TWO_64
  }

  function Pages(start: nat, pages: nat, kind: MemType, attr: nat): (r: seq<Page>)
    ensures |r| == pages
  {
    seq(pages, k requires 0 <= k => Page(PageAddress(start, k), kind, attr))
  }

  /** A kernel map, page by page. */
  function Expand(entries: seq<Entry>): seq<Page>
  {
    if entries == [] then []
    else
      var e := entries[|entries| - 1];
      Expand(entries[..|entries| - 1]) + Pages(e.start, e.pages, e.kind, e.attr)
  }

  /** The kept part of a UEFI map, page by page. */
  function Meaning(uefi: seq<Descriptor>): seq<Page>
  {
    if uefi == [] then []
    else
      var d := uefi[|uefi| - 1];
      Meaning(uefi[..|uefi| - 1]) +
      if Translate(d.kind).Keep? then Pages(d.start, d.pages, Translate(d.kind).kind, d.attribute % TWO_32) else []
  }

  ghost predicate Named(kind: nat)
  {
    exists t: EfiType :: Number(t) == kind
  }

  /** Page `p` is page `k` of a descriptor with memory type `t`. */
  predicate PageOf(d: Descriptor, t: EfiType, k: nat, p: Page)
  {
    && d.kind == Number(t) && Becomes(t, p.kind)
    && k < d.pages && p.address == PageAddress(d.start, k) && p.attr == d.attribute % TWO_32
  }

  ghost predicate HasPage(d: Descriptor, p: Page)
  {
    exists t: EfiType, k: nat :: PageOf(d, t, k, p)
  }

  /** Some descriptor of a type that is kept has the page. */
  ghost predicate Described(uefi: seq<Descriptor>, p: Page)
  {
    exists i :: 0 <= i < |uefi| && HasPage(uefi[i], p)
  }

  /** How a memory type is translated. */
  lemma TranslateIs(t: EfiType, kind: MemType)
    ensures Translate(Number(t)) == Keep(kind) <==> Becomes(t, kind)
    ensures Translate(Number(t)) == Skip <==> Dropped(t)
    ensures !Translate(Number(t)).Unexpected?
  {
  }

  lemma Unnamed(kind: nat)
    ensures Translate(kind).Unexpected? <==> !Named(kind)
  {
    if !Translate(kind).Unexpected? {
      var types := [ReservedMemory, LoaderCode, LoaderData, BootServicesCode, BootServicesData, RuntimeServicesCode,
                    RuntimeServicesData, ConventionalMemory, UnusableMemory, AcpiReclaimMemory, AcpiMemoryNvs,
                    MemoryMappedIo, MemoryMappedIoPortSpace, PalCode, PersistentMemory];
      assert Number(types[kind]) == kind;
    } else {
      forall t: EfiType ensures Number(t) != kind { TranslateIs(t, Available); }
    }
  }

  /** The kernel map has the pages of the descriptors of the types it keeps, with their kernel types, and no others. */
  lemma {:induction false} MeaningDescribed(uefi: seq<Descriptor>, p: Page)
    ensures p in Meaning(uefi) <==> Described(uefi, p)
  {
    hide Translate, HasPage, Pages, Described;
    if uefi == [] {
      NothingDescribed(p);
    } else {
      var last := |uefi| - 1;
      var d, init := uefi[last], uefi[..last];
      MeaningDescribed(init, p);
      DescribedMore(uefi, p);
      PagesOf(d, p);
    }
  }

  lemma NothingDescribed(p: Page)
    ensures !Described([], p)
  {
  }

  lemma DescribedMore(uefi: seq<Descriptor>, p: Page)
    requires uefi != []
    ensures Described(uefi, p) <==> Described(uefi[..|uefi| - 1], p) || HasPage(uefi[|uefi| - 1], p)
  {
    hide HasPage;
    var init := uefi[..|uefi| - 1];
    assert forall i :: 0 <= i < |init| ==> init[i] == uefi[i];
  }

  lemma PagesOf(d: Descriptor, p: Page)
    ensures HasPage(d, p) <==>
      var tr := Translate(d.kind); tr.Keep? && p in Pages(d.start, d.pages, tr.kind, d.attribute % TWO_32)
  {
    hide Translate, Becomes, Number, PageAddress;
    var tr := Translate(d.kind);
    if HasPage(d, p) {
      var t: EfiType, k: nat :| PageOf(d, t, k, p);
      TranslateIs(t, p.kind);
      assert Pages(d.start, d.pages, tr.kind, d.attribute % TWO_32)[k] == p;
    }
    if tr.Keep? && p in Pages(d.start, d.pages, tr.kind, d.attribute % TWO_32) {
      Unnamed(d.kind);
      var t: EfiType :| Number(t) == d.kind;
      TranslateIs(t, tr.kind);
      var k: nat :| k < d.pages && Pages(d.start, d.pages, tr.kind, d.attribute % TWO_32)[k] == p;
      assert PageOf(d, t, k, p);
    }
  }

  /** can_merge: the next range continues the previous one with the same type and attributes. */
  predicate CanMerge(prev: Entry, start: nat, kind: MemType, attr: nat)
  {
    prev.kind == kind && PageAddress(prev.start, prev.pages) == start && prev.attr == attr
  }

  /** Two ranges side by side with the same type and attributes. */
  predicate Adjoin(d: Entry, e: Entry)
  {
    e.start == PageAddress(d.start, d.pages) && e.kind == d.kind && e.attr == d.attr
  }

  predicate NoNeighboursMerge(entries: seq<Entry>)
  {
    forall i :: 0 < i < |entries| ==> var prev := entries[i - 1]; !Adjoin(prev, entries[i])
  }

  /** Pages that continue a range are the rest of the longer range. */
  lemma PagesJoin(start: nat, pages: nat, next: nat, more: nat, kind: MemType, attr: nat)
    requires PageAddress(start, pages) == next
    ensures Pages(start, pages, kind, attr) + Pages(next, more, kind, attr) == Pages(start, pages + more, kind, attr)
  {
    var l, r := Pages(start, pages, kind, attr) + Pages(next, more, kind, attr), Pages(start, pages + more, kind, attr);
    forall k | 0 <= k < |r| ensures l[k] == r[k]
    {
      if k >= pages { Continues(start, pages, k - pages); }
    }
  }

  lemma Continues(start: nat, pages: nat, k: nat)
    ensures PageAddress(PageAddress(start, pages), k) == PageAddress(start, pages + k)
  {
    var a := start + PAGE_SIZE * pages;
    assert a == TWO_64 * (a / TWO_64) + a % TWO_64;
    AddMultiple(a % TWO_64 + PAGE_SIZE * k, a / TWO_64);
  }

  lemma AddMultiple(x: nat, q: nat)
    ensures (x + TWO_64 * q) % TWO_64 == x % TWO_64
  {
    DivModUnique(x + TWO_64 * q, TWO_64, q + x / TWO_64, x % TWO_64);
  }

  datatype Result = Built(entries: seq<Entry>) | Failed

  predicate AllExpected(uefi: seq<Descriptor>)
  {
    forall i :: 0 <= i < |uefi| ==> !Translate(uefi[i].kind).Unexpected?
  }

  lemma MapDescribed(uefi: seq<Descriptor>)
    ensures AllExpected(uefi) <==> forall i :: 0 <= i < |uefi| ==> Named(uefi[i].kind)
    ensures forall p :: p in Meaning(uefi) <==> Described(uefi, p)
  {
    hide Meaning, Described, Named, Translate;
    forall i | 0 <= i < |uefi| ensures !Translate(uefi[i].kind).Unexpected? <==> Named(uefi[i].kind)
    {
      Unnamed(uefi[i].kind);
    }
    forall p ensures p in Meaning(uefi) <==> Described(uefi, p) { MeaningDescribed(uefi, p); }
  }

  method BuildKernelMap(uefi: seq<Descriptor>) returns (r: Result)
    ensures r.Built? <==> AllExpected(uefi)
    ensures r.Built? ==> Expand(r.entries) == Meaning(uefi) && NoNeighboursMerge(r.entries) && |r.entries| <= |uefi|
    ensures r.Built? && Sane(uefi) ==> Separate(r.entries)
    ensures r.Built? <==> forall i :: 0 <= i < |uefi| ==> Named(uefi[i].kind)
    ensures r.Built? ==> forall p :: p in Expand(r.entries) <==> Described(uefi, p)
  {
    hide CanMerge, Pages, Expand, Meaning, Sane, Separate, Clear, Described, Named, Translate;
    MapDescribed(uefi);
    NothingYet(uefi);
    var kernelMap := new Entry[|uefi|](_ => Entry(0, 0, Available, 0));
    var nent := 0;
    ExpandNone();
    for i := 0 to |uefi|
      invariant 0 <= nent <= i && AllExpected(uefi[..i])
      invariant Expand(kernelMap[..nent]) == Meaning(uefi[..i]) && NoNeighboursMerge(kernelMap[..nent])
      invariant Sane(uefi) ==> Separate(kernelMap[..nent]) && Clear(kernelMap[..nent], uefi, i)
    {
      var d := uefi[i];
      var t := Translate(d.kind);
      MeaningStep(uefi, i);
      assert uefi[..i + 1] == uefi[..i] + [d];
      if t.Skip? {
        ClearSkips(kernelMap[..nent], uefi, i);
        continue;
      }
      if t.Unexpected? {
        return Failed;
      }
      ghost var was := kernelMap[..nent];
      if nent > 0 && CanMerge(kernelMap[nent - 1], d.start, t.kind, d.attribute % TWO_32) {
        MergedStep(was, d.start, d.pages, t.kind, d.attribute % TWO_32);
        if Sane(uefi) { MergedSeparate(was, uefi, i); }
        kernelMap[nent - 1] := kernelMap[nent - 1].(pages := kernelMap[nent - 1].pages + d.pages);
        assert kernelMap[..nent] == was[nent - 1 := kernelMap[nent - 1]];
      } else {
        AppendedStep(was, Entry(d.start, d.pages, t.kind, d.attribute % TWO_32));
        if Sane(uefi) { AppendedSeparate(was, uefi, i); }
        kernelMap[nent] := Entry(d.start, d.pages, t.kind, d.attribute % TWO_32);
        nent := nent + 1;
        assert kernelMap[..nent] == was + [kernelMap[nent - 1]];
      }
    }
    assert uefi[..|uefi|] == uefi;
    return Built(kernelMap[..nent]);
  }

  /** Page-aligned and short of the top of the address space. */
  predicate Plain(e: Entry)
  {
    e.start % PAGE_SIZE == 0 && e.start + e.pages * PAGE_SIZE < TWO_64
  }

  predicate EntriesApart(d: Entry, e: Entry)
  {
    d.start + d.pages * PAGE_SIZE <= e.start || e.start + e.pages * PAGE_SIZE <= d.start
  }

  ghost predicate Separate(entries: seq<Entry>)
  {
    && (forall i :: 0 <= i < |entries| ==> Plain(entries[i]) && entries[i].pages > 0)
    && (forall i, j :: 0 <= i < j < |entries| ==> EntriesApart(entries[i], entries[j]))
  }

  predicate Kept(d: Descriptor) { Translate(d.kind).Keep? }

  function AsEntry(d: Descriptor): Entry
    requires Kept(d)
  {
    Entry(d.start, d.pages, Translate(d.kind).kind, d.attribute % TWO_32)
  }

  /** Firmware gives page-aligned ranges that are not empty and do not overlap. */
  ghost predicate Sane(uefi: seq<Descriptor>)
  {
    && (forall i :: 0 <= i < |uefi| && Kept(uefi[i]) ==> Plain(AsEntry(uefi[i])) && uefi[i].pages > 0)
    && (forall i, j :: 0 <= i < j < |uefi| && Kept(uefi[i]) && Kept(uefi[j]) ==>
            EntriesApart(AsEntry(uefi[i]), AsEntry(uefi[j])))
  }

  /** The entries are clear of the descriptors still to come. */
  ghost predicate Clear(entries: seq<Entry>, uefi: seq<Descriptor>, i: nat)
  {
    forall k, j :: 0 <= k < |entries| && i <= j < |uefi| && Kept(uefi[j]) ==> EntriesApart(entries[k], AsEntry(uefi[j]))
  }

  lemma NothingYet(uefi: seq<Descriptor>)
    ensures Separate([]) && Clear([], uefi, 0)
  {
  }

  lemma ClearSkips(entries: seq<Entry>, uefi: seq<Descriptor>, i: nat)
    ensures Clear(entries, uefi, i) ==> Clear(entries, uefi, i + 1)
  {
  }

  lemma AppendedSeparate(entries: seq<Entry>, uefi: seq<Descriptor>, i: nat)
    requires Sane(uefi) && Separate(entries) && Clear(entries, uefi, i) && i < |uefi| && Kept(uefi[i])
    ensures Separate(entries + [AsEntry(uefi[i])]) && Clear(entries + [AsEntry(uefi[i])], uefi, i + 1)
  {
    hide EntriesApart;
  }

  /** A merged entry covers its old range and the descriptor's, and nothing else. */
  lemma MergedSeparate(entries: seq<Entry>, uefi: seq<Descriptor>, i: nat)
    requires Sane(uefi) && Separate(entries) && Clear(entries, uefi, i) && i < |uefi| && Kept(uefi[i]) && entries != []
    requires var e := AsEntry(uefi[i]); CanMerge(entries[|entries| - 1], e.start, e.kind, e.attr)
    ensures var last := |entries| - 1;
      var merged := entries[last := entries[last].(pages := entries[last].pages + uefi[i].pages)];
      Separate(merged) && Clear(merged, uefi, i + 1)
  {
    var last := |entries| - 1;
    var e, d := entries[last], AsEntry(uefi[i]);
    var m := e.(pages := e.pages + d.pages);
    var merged := entries[last := m];
    assert Plain(e) && Plain(d) && EntriesApart(e, d);
    assert d.start == e.start + e.pages * PAGE_SIZE;
    forall k | 0 <= k < last ensures EntriesApart(entries[k], m)
    {
      assert EntriesApart(entries[k], e) && EntriesApart(entries[k], d);
      JoinedApart(entries[k], e, d);
    }
    forall k, j | 0 <= k < |merged| && i + 1 <= j < |uefi| && Kept(uefi[j])
      ensures EntriesApart(merged[k], AsEntry(uefi[j]))
    {
      assert EntriesApart(entries[k], AsEntry(uefi[j])) && EntriesApart(d, AsEntry(uefi[j]));
      if k == last { JoinedApart(AsEntry(uefi[j]), e, d); }
    }
  }

  /** Ranges apart from both of two adjoining ranges are apart from their union. */
  lemma JoinedApart(c: Entry, e: Entry, d: Entry)
    requires (EntriesApart(c, e) || EntriesApart(e, c)) && (EntriesApart(c, d) || EntriesApart(d, c))
    requires d.start == e.start + e.pages * PAGE_SIZE && c.pages > 0
    ensures var m := e.(pages := e.pages + d.pages); EntriesApart(c, m) && EntriesApart(m, c)
  {
  }

  lemma ExpandNone()
    ensures Expand([]) == [] && Meaning([]) == []
  {
  }

  lemma MeaningStep(uefi: seq<Descriptor>, i: nat)
    requires i < |uefi|
    ensures var t := Translate(uefi[i].kind);
      Meaning(uefi[..i + 1]) == Meaning(uefi[..i]) +
        if t.Keep? then Pages(uefi[i].start, uefi[i].pages, t.kind, uefi[i].attribute % TWO_32) else []
  {
    assert uefi[..i + 1][..i] == uefi[..i];
  }

  lemma AppendedStep(entries: seq<Entry>, e: Entry)
    requires NoNeighboursMerge(entries)
    requires entries != [] ==> !CanMerge(entries[|entries| - 1], e.start, e.kind, e.attr)
    ensures NoNeighboursMerge(entries + [e])
    ensures Expand(entries + [e]) == Expand(entries) + Pages(e.start, e.pages, e.kind, e.attr)
  {
    hide PageAddress, Pages;
    var more := entries + [e];
    assert more[..|entries|] == entries;
    forall i | 0 < i < |more|
      ensures var prev := more[i - 1]; !Adjoin(prev, more[i])
    {
      if i < |entries| {
        assert more[i] == entries[i] && more[i - 1] == entries[i - 1];
      }
    }
  }

  lemma MergedStep(entries: seq<Entry>, start: nat, pages: nat, kind: MemType, attr: nat)
    requires NoNeighboursMerge(entries) && entries != [] && CanMerge(entries[|entries| - 1], start, kind, attr)
    ensures var last := |entries| - 1;
      var merged := entries[last := entries[last].(pages := entries[last].pages + pages)];
      NoNeighboursMerge(merged) && Expand(merged) == Expand(entries) + Pages(start, pages, kind, attr)
  {
    hide Pages;
    var last := |entries| - 1;
    var e := entries[last];
    var merged := entries[last := e.(pages := e.pages + pages)];
    assert merged[..last] == entries[..last];
    PagesJoin(e.start, e.pages, start, pages, kind, attr);
    var init, mid, more := Expand(entries[..last]),
      Pages(e.start, e.pages, e.kind, e.attr), Pages(start, pages, kind, attr);
    assert init + (mid + more) == (init + mid) + more;
  }
}
