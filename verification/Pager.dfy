/** The boot pager: a base-512 odometer that walks page table entries and builds missing
tables from a cache of zeroed pages. */
module Paging {
  import opened Bits
  import opened Common
  import opened PageTables

  const PD_TABLES := 256
  const EXTRA_TABLES := 64
  const KERNEL_ROOT_INDEX := 256
  const PHYS_LIMIT := 0x10_0000_0000_0000
  const PAGE_LIMIT := 0x10_0000_0000

  const TABLES_NEEDED := PD_TABLES + EXTRA_TABLES + 1
  const HUGE_PAGE_FLAGS := 0x18b
  const GIB := 0x4000_0000
  const LINEAR_OFFSET := 0xffff_c000_0000_0000
  const LINEAR_PAGES := 64 * 1024
  const LINEAR_FIRST := 384 * 512

  function Power512(k: nat): (r: nat)
    ensures r > 0
  {
    if k == 0 then 1 else 512 * Power512(k - 1)
  }

  /** The low `k` base-512 digits of a page number, most significant first. */
  function Digits(n: nat, k: nat): (r: seq<nat>)
    ensures |r| == k
    ensures forall i :: 0 <= i < k ==> r[i] < ENTRIES
  {
    if k == 0 then [] else Digits(n / 512, k - 1) + [n % 512]
  }

  lemma {:induction false} DigitsInjective(a: nat, b: nat, k: nat)
    requires a < Power512(k) && b < Power512(k) && Digits(a, k) == Digits(b, k)
    ensures a == b
  {
    if k > 0 {
      var x, y := Digits(a / 512, k - 1), Digits(b / 512, k - 1);
      assert (x + [a % 512])[..k - 1] == x && (y + [b % 512])[..k - 1] == y;
      assert (x + [a % 512])[k - 1] == a % 512 && (y + [b % 512])[k - 1] == b % 512;
      DigitsInjective(a / 512, b / 512, k - 1);
    }
  }

  /** Page number of a virtual address: bits 47:12. */
  function PageNumber(virt: nat): nat
  {
    (virt / 4096) % PAGE_LIMIT
  }

  lemma {:induction false} DigitsLow(x: nat, k: nat)
    ensures Digits(x % Power512(k), k) == Digits(x, k)
  {
    if k > 0 {
      DivModProduct(x, 512, Power512(k - 1));
      DigitsLow(x / 512, k - 1);
    }
  }

  lemma {:induction false} DigitAt(n: nat, k: nat, i: nat)
    requires i < k
    ensures Digits(n, k)[i] == (n / Power512(k - 1 - i)) % 512
  {
    if i < k - 1 {
      DigitAt(n / 512, k - 1, i);
      DivModProduct(n, 512, Power512(k - 2 - i));
    }
  }

  /** The iterator constructor's index expression picks the digits of the page number. */
  lemma IndexAt(virt: nat, i: nat)
    requires i < 4
    ensures (virt / (4096 * Power512(3 - i))) % 512 == Digits(PageNumber(virt), 4)[i]
  {
    assert Power512(4) == PAGE_LIMIT;
    DigitsLow(virt / 4096, 4);
    DigitAt(virt / 4096, 4, i);
    DivModProduct(virt, 4096, Power512(3 - i));
  }

  lemma {:induction false} ShiftIsPower(j: nat)
    ensures Pow2(12 + 9 * j) == 4096 * Power512(j)
  {
    if j == 0 {
      assert Pow2(12) == 4096;
    } else {
      ShiftIsPower(j - 1);
      Pow2Add(9, 12 + 9 * (j - 1));
      assert Pow2(9) == 512;
    }
  }

  function Zeros(k: nat): (r: seq<nat>)
    ensures |r| == k && forall i :: 0 <= i < k ==> r[i] == 0
  {
    seq(k, _ => 0)
  }

  /** How many low digits roll over when the odometer steps from n to n + 1. */
  function Carries(n: nat, k: nat): (r: nat)
  {
    if k == 0 || n % 512 != 511 then 0 else 1 + Carries(n / 512, k - 1)
  }

  /** How many table boundaries lie below page n. */
  function Boundaries(n: nat, k: nat): (r: nat)
  {
    if k <= 1 then 0 else n / 512 + Boundaries(n / 512, k - 1)
  }

  lemma {:induction false} BoundariesStep(n: nat, k: nat)
    requires n + 1 < Power512(k)
    ensures Boundaries(n + 1, k) == Boundaries(n, k) + Carries(n, k)
  {
    if n % 512 == 511 {
      assert (n + 1) / 512 == n / 512 + 1;
      BoundariesStep(n / 512, k - 1);
    } else {
      assert (n + 1) / 512 == n / 512;
    }
  }

  lemma {:induction false} BoundariesMono(a: nat, b: nat, k: nat)
    requires a <= b
    ensures Boundaries(a, k) <= Boundaries(b, k)
  {
    if k > 1 { BoundariesMono(a / 512, b / 512, k - 1); }
  }

  /** Rolling over digit `i` moves the carry to digit i - 1. */
  lemma CarryStep(n: nat, depth: nat, hi: nat, i: nat)
    requires i < depth && hi + 1 < Power512(i + 1) && hi % 512 == 511
    requires Digits(n + 1, depth) == Digits(hi + 1, i + 1) + Zeros(depth - 1 - i)
    ensures i > 0 && hi / 512 + 1 < Power512(i)
    ensures Digits(n + 1, depth) == Digits(hi / 512 + 1, i) + Zeros(depth - i)
    ensures Carries(hi, i + 1) == 1 + Carries(hi / 512, i)
    ensures Digits(hi, i + 1)[..i] == Digits(hi / 512, i)
  {
    assert Power512(i + 1) == 512 * Power512(i);
    assert (hi + 1) / 512 == hi / 512 + 1 && (hi + 1) % 512 == 0;
    assert Digits(hi + 1, i + 1) == Digits(hi / 512 + 1, i) + [0];
    assert [0] + Zeros(depth - 1 - i) == Zeros(depth - i);
    assert Digits(hi / 512 + 1, i) + [0] + Zeros(depth - 1 - i) == Digits(hi / 512 + 1, i) + Zeros(depth - i);
  }

  /** A digit below 511 absorbs the carry. */
  lemma CarryStops(hi: nat, i: nat)
    requires hi % 512 != 511
    ensures Digits(hi + 1, i + 1) == Digits(hi, i + 1)[i := Digits(hi, i + 1)[i] + 1]
    ensures Carries(hi, i + 1) == 0
  {
    assert (hi + 1) / 512 == hi / 512 && (hi + 1) % 512 == hi % 512 + 1;
  }

  function PoolPage(ptr: nat, k: nat): nat { ptr + PAGE_SIZE * k }

  /** The cache holds `count` zeroed pages that no table uses. */
  ghost predicate PoolOk(m: Tables, tr: Tree, ptr: nat, count: nat)
  {
    && ptr % PAGE_SIZE == 0 && ptr + PAGE_SIZE * count <= PHYS_LIMIT
    && (forall k :: 0 <= k < count ==> Zeroed(m, PoolPage(ptr, k)))
    && (forall q :: q in tr ==> !(ptr <= tr[q] < ptr + PAGE_SIZE * count))
  }

  lemma PoolTake(m: Tables, tr: Tree, ptr: nat, count: nat, q: seq<nat>, i: nat)
    requires PoolOk(m, tr, ptr, count) && count > 0 && q in tr && tr[q] in m && |m[tr[q]]| == ENTRIES && i < ENTRIES
    ensures Zeroed(m, ptr) && ptr % 4096 == 0 && ptr < PHYS_LIMIT && forall r :: r in tr ==> tr[r] != ptr
    ensures PoolOk(Put(m, tr[q], i, ptr + TABLE_FLAGS), tr[q + [i] := ptr], ptr + PAGE_SIZE, count - 1)
  {
    assert PoolPage(ptr, 0) == ptr;
    var m' := Put(m, tr[q], i, ptr + TABLE_FLAGS);
    var ptr' := ptr + PAGE_SIZE;
    forall k | 0 <= k < count - 1 ensures Zeroed(m', PoolPage(ptr', k))
    {
      assert PoolPage(ptr', k) == PoolPage(ptr, k + 1);
    }
  }

  lemma PoolKept(m: Tables, tr: Tree, ptr: nat, count: nat, q: seq<nat>, i: nat, e: nat)
    requires PoolOk(m, tr, ptr, count) && q in tr && tr[q] in m && |m[tr[q]]| == ENTRIES && i < ENTRIES
    ensures PoolOk(Put(m, tr[q], i, e), tr, ptr, count)
  {
    var m' := Put(m, tr[q], i, e);
    forall k | 0 <= k < count ensures Zeroed(m', PoolPage(ptr, k))
    {
      assert Zeroed(m, PoolPage(ptr, k));
    }
  }

  ghost predicate SameWalks(m: Tables, m': Tables, root: nat)
  {
    forall d :: Indices(d) ==> Walk(m', root, d, 0) == Walk(m, root, d, 0)
  }

  lemma SameWalksChain(m: Tables, m1: Tables, m2: Tables, root: nat)
    requires SameWalks(m, m1, root) && SameWalks(m1, m2, root)
    ensures SameWalks(m, m2, root)
  {
  }

  /** All tables on the way to the page are there already. */
  ghost predicate Known(tr: Tree, d: seq<nat>, depth: nat)
    requires depth <= |d|
  {
    forall j :: 0 <= j < depth ==> d[..j] in tr
  }

  class Pager {
    var mem: Tables
    var tablePtr: nat
    var tableCount: nat
    var pml4: nat
    /** Set once error::raise has stopped the boot loader. */
    var raised: bool
    ghost var tree: Tree

    ghost predicate Valid()
      reads this
    {
      TreeOk(mem, tree, pml4) && PoolOk(mem, tree, tablePtr, tableCount)
    }

    /** Cache pages that suffice to map the range: three tables for the first page and one per
        table boundary crossed. */
    static function TablesNeeded(first: nat, count: nat): int
      requires count > 0
    {
      3 + Boundaries(first + count - 1, 4) - Boundaries(first, 4)
    }

    method MapPages(phys: nat, virt: nat, count: nat, write: bool, exe: bool) returns (ghost done: nat)
      requires Valid() && !raised
      requires phys % PAGE_SIZE == 0 && phys + PAGE_SIZE * count <= PHYS_LIMIT
      requires PageNumber(virt) + count <= PAGE_LIMIT
      requires forall k :: PageNumber(virt) <= k < PageNumber(virt) + count ==> Open(Walk(mem, pml4, Digits(k, 4), 0))
      modifies this
      ensures Valid() && pml4 == old(pml4)
      ensures Maps(old(mem), mem, pml4, PageNumber(virt), done, phys, PageFlags(write, exe))
      ensures Opens(old(mem), mem, pml4, PageNumber(virt), done, phys, write, exe)
      ensures if raised then done < count && tableCount == 0 else done == count
      ensures count > 0 && old(tableCount) >= TablesNeeded(PageNumber(virt), count) ==> !raised
    {
      hide TreeOk, PoolOk, Walk, Digits, Boundaries, Carries, PageNumber, PageFlags, Or, Maps, Opens;
      done := MapRange(phys, virt, count, write, exe);
      MapsOpens(old(mem), old(tree), mem, tree, pml4, PageNumber(virt), done, phys, write, exe);
    }

    /** map_pages: one entry after the other, until the range is mapped or the cache of tables is empty. */
    method MapRange(phys: nat, virt: nat, count: nat, write: bool, exe: bool) returns (ghost done: nat)
      requires Valid() && !raised
      requires phys % PAGE_SIZE == 0 && phys + PAGE_SIZE * count <= PHYS_LIMIT
      requires PageNumber(virt) + count <= PAGE_LIMIT
      requires forall k :: PageNumber(virt) <= k < PageNumber(virt) + count ==> Open(Walk(mem, pml4, Digits(k, 4), 0))
      modifies this
      ensures Valid() && pml4 == old(pml4)
      ensures Maps(old(mem), mem, pml4, PageNumber(virt), done, phys, PageFlags(write, exe))
      ensures if raised then done < count && tableCount == 0 else done == count
      ensures count > 0 && old(tableCount) >= TablesNeeded(PageNumber(virt), count) ==> !raised
    {
      hide TreeOk, PoolOk, Walk, Digits, Boundaries, Carries, PageNumber, PageFlags, Or, Maps;
      done := 0;
      ghost var first, flags' := PageNumber(virt), PageFlags(write, exe);
      MapsNone(mem, pml4, first, phys, flags');
      if count == 0 {
        return;
      }
      var it := new PageEntryIterator(virt, this, 4);
      MapsSame(old(mem), old(mem), mem, pml4, first, 0, phys, flags');
      BoundariesMono(first, first + count - 1, 4);
      if raised {
        return;
      }
      var flags := PageFlags(write, exe);
      var left, p := count, phys;
      assert it.index == Digits(first, 4)[..4] == Digits(first, 4);
      while true
        invariant Valid() && !raised && pml4 == old(pml4)
        invariant done < count && left == count - done && p == phys + PAGE_SIZE * done
        invariant it.pager == this && it.depth == 4 && it.Chained(4) && it.index == Digits(first + done, 4)
        invariant Maps(old(mem), mem, pml4, first, done, phys, flags)
        invariant old(tableCount) <= tableCount + 3 + Boundaries(first + done, 4) - Boundaries(first, 4)
        decreases left
      {
        EntryDecodes(p, write, exe);
        MapHere(it, Or(p, flags), old(mem), first, done, phys, flags);
        done := done + 1;
        left := left - 1;
        if left == 0 {
          break;
        }
        MapsAt(old(mem), mem, pml4, first, done, phys, flags, first + done);
        BoundariesMono(first + done, first + count - 1, 4);
        Advance(it, old(mem), first, done, phys, flags);
        if raised {
          return;
        }
        p := p + PAGE_SIZE;
      }
    }

    /** map_pages' write of one entry. */
    method MapHere(it: PageEntryIterator, e: nat, ghost m: Tables, ghost first: nat, ghost done: nat, ghost phys: nat,
                   ghost flags: nat)
      requires Valid() && it.pager == this && it.depth == 4 && it.Chained(4) && it.index == Digits(first + done, 4)
      requires first + done < PAGE_LIMIT && Present(e) && e == Or(phys + PAGE_SIZE * done, flags)
      requires Maps(m, mem, pml4, first, done, phys, flags)
      modifies `mem
      ensures Valid() && it.Chained(4) && Maps(m, mem, pml4, first, done + 1, phys, flags)
    {
      hide TreeOk, PoolOk, Walk, Digits, Or, Maps;
      LongPath(mem, tree, pml4, it.index);
      ghost var m1 := mem;
      it.Assign(e);
      MapsStep(m, m1, mem, pml4, first, done, phys, flags);
    }

    /** map_pages' step to the next entry. */
    method Advance(it: PageEntryIterator, ghost m: Tables, ghost first: nat, ghost done: nat, ghost phys: nat,
                   ghost flags: nat)
      requires Valid() && !raised && it.pager == this && it.depth == 4 && it.Chained(4)
      requires done > 0 && first + done < PAGE_LIMIT && it.index == Digits(first + done - 1, 4)
      requires Open(Walk(mem, pml4, Digits(first + done, 4), 0)) && Maps(m, mem, pml4, first, done, phys, flags)
      modifies `mem, `tablePtr, `tableCount, `raised, `tree, it
      ensures Valid() && Maps(m, mem, pml4, first, done, phys, flags)
      ensures raised ==> tableCount == 0
      ensures raised ==> old(tableCount) < Boundaries(first + done, 4) - Boundaries(first + done - 1, 4)
      ensures !raised ==> it.Chained(4) && it.index == Digits(first + done, 4)
      ensures old(tableCount) <= tableCount + Boundaries(first + done, 4) - Boundaries(first + done - 1, 4)
    {
      hide TreeOk, PoolOk, Walk, Digits, Boundaries, Carries, Or, Maps, Open;
      BoundariesStep(first + done - 1, 4);
      assert Power512(4) == PAGE_LIMIT;
      ghost var d := Digits(first + done, 4);
      assert d[..4] == d;
      ghost var m1 := mem;
      it.Increment(first + done - 1, d);
      MapsSame(m, m1, mem, pml4, first, done, phys, flags);
    }

    /** The pager takes over a zeroed run of table pages and builds the kernel tables. */
    constructor (addr: nat, mem: Tables)
      requires addr % PAGE_SIZE == 0 && addr + PAGE_SIZE * TABLES_NEEDED <= PHYS_LIMIT
      requires forall k :: 0 <= k < TABLES_NEEDED ==> Zeroed(mem, PoolPage(addr, k))
      ensures Valid() && !raised && tableCount == EXTRA_TABLES
      ensures LinearUpTo(this.mem, pml4, LINEAR_PAGES) && LinearAccess(this.mem, pml4)
    {
      this.mem := mem;
      tablePtr, tableCount, raised := addr, TABLES_NEEDED, false;
      pml4 := 0;
      tree := map[];
      new;
      CreateKernelTables();
    }

    method CreateKernelTables()
      requires PoolOk(mem, map[], tablePtr, tableCount) && !raised && tableCount > PD_TABLES
      modifies this
      ensures Valid() && !raised && tableCount == old(tableCount) - PD_TABLES - 1
      ensures LinearUpTo(mem, pml4, LINEAR_PAGES) && LinearAccess(mem, pml4)
    {
      hide TreeOk, PoolOk, Walk, Digits, Or, LinearUpTo, LinearAccess, PageNumber;
      RootFromPool(mem, tablePtr, tableCount);
      pml4 := PopPages(1);
      tree := map[[] := pml4];
      var pds := PopPages(PD_TABLES);
      AddDirectories(pds);
      LinearBegins(tree);
      var it := new PageEntryIterator(LINEAR_OFFSET, this, 2);
      FillLinear(it);
      LinearOpens(mem, tree, pml4);
    }

    /** Hang the page directories of high memory into the root table. */
    method AddDirectories(pds: nat)
      requires TreeOk(mem, tree, pml4) && tree == map[[] := pml4] && tablePtr == PoolPage(pds, PD_TABLES)
      requires PoolOk(mem, tree, pds, tableCount + PD_TABLES) && Empty(mem, pml4)
      modifies `mem, `tree
      ensures Valid() && Empty(mem, pml4)
      ensures forall q :: q in tree ==> |q| <= 1
      ensures [] in tree && forall j :: KERNEL_ROOT_INDEX <= j < ENTRIES ==> [j] in tree
    {
      hide TreeOk, PoolOk, Walk, Or;
      var i := KERNEL_ROOT_INDEX;
      while i < ENTRIES
        invariant KERNEL_ROOT_INDEX <= i <= ENTRIES
        invariant TreeOk(mem, tree, pml4)
        invariant PoolOk(mem, tree, PoolPage(pds, i - KERNEL_ROOT_INDEX), tableCount + ENTRIES - i)
        invariant Empty(mem, pml4)
        invariant forall q :: q in tree <==> q == [] || exists j :: KERNEL_ROOT_INDEX <= j < i && q == [j]
      {
        ghost var p, n := PoolPage(pds, i - KERNEL_ROOT_INDEX), tableCount + ENTRIES - i;
        TreeRoot(mem, tree, pml4);
        assert [i] !in tree;
        assert [] + [i] == [i];
        AbsentEntry(mem, tree, pml4, [], i);
        PoolTake(mem, tree, p, n, [], i);
        LinkEffect(mem, tree, pml4, [], i, p);
        TableEntry(p);
        mem := Put(mem, pml4, i, Or(pds + PAGE_SIZE * (i - KERNEL_ROOT_INDEX), TABLE_FLAGS));
        tree := tree[[i] := p];
        i := i + 1;
      }
      assert PoolPage(pds, ENTRIES - KERNEL_ROOT_INDEX) == tablePtr;
    }

    /** Map all physical memory below 64 TiB with 1 GiB pages. */
    method FillLinear(it: PageEntryIterator)
      requires Valid() && !raised && Empty(mem, pml4)
      requires it.pager == this && it.depth == 2 && it.Chained(2)
      requires it.index == Digits(PageNumber(LINEAR_OFFSET), 4)[..2]
      requires forall q :: q in tree ==> |q| <= 1
      requires [] in tree && forall j :: KERNEL_ROOT_INDEX <= j < ENTRIES ==> [j] in tree
      modifies `mem, `tree, `tablePtr, `tableCount, `raised, it
      ensures Valid() && !raised && tableCount == old(tableCount)
      ensures LinearUpTo(mem, pml4, LINEAR_PAGES)
    {
      hide TreeOk, PoolOk, Walk, Digits, Or, LinearUpTo, PageNumber;
      LinearStart();
      LinearNone(mem, pml4);
      var phys, left := 0, LINEAR_PAGES;
      ghost var k := 0;
      while true
        invariant 0 <= k < LINEAR_PAGES && left == LINEAR_PAGES - k && phys == GIB * k
        invariant Valid() && !raised && tree == old(tree) && tableCount == old(tableCount)
        invariant it.pager == this && it.depth == 2 && it.Chained(2) && it.index == Digits(LINEAR_FIRST + k, 2)
        invariant LinearUpTo(mem, pml4, k)
        decreases left
      {
        LinearEntry(k);
        ghost var m1 := mem;
        it.Assign(Or(phys, HUGE_PAGE_FLAGS));
        LinearStep(m1, mem, pml4, k);
        k := k + 1;
        left := left - 1;
        if left == 0 {
          break;
        }
        ghost var d := Digits(LINEAR_FIRST + k, 2) + [0, 0];
        LinearKnown(tree, k, d);
        it.Increment(LINEAR_FIRST + k - 1, d);
        phys := phys + GIB;
      }
    }

    method PopPages(count: nat) returns (next: nat)
      modifies `tablePtr, `tableCount, `raised
      ensures raised == (old(raised) || count > old(tableCount))
      ensures count > old(tableCount) ==> tableCount == old(tableCount) && tablePtr == old(tablePtr)
      ensures count <= old(tableCount) ==>
        next == old(tablePtr) && tablePtr == old(tablePtr) + PAGE_SIZE * count && tableCount == old(tableCount) - count
    {
      if count > tableCount {
        raised := true;
        return 0;
      }
      next := tablePtr;
      tablePtr := tablePtr + count * PAGE_SIZE;
      tableCount := tableCount - count;
    }
  }

  class PageEntryIterator {
    const pager: Pager
    const depth: nat
    var index: seq<nat>
    var table: seq<nat>

    /** The first `k` tables are the ones on the index path. */
    ghost predicate Chained(k: nat)
      reads this, pager
    {
      && |index| == |table| == depth && k <= depth <= LEVELS
      && (forall i :: 0 <= i < depth ==> index[i] < ENTRIES)
      && (forall j :: 0 <= j < k ==> index[..j] in pager.tree && table[j] == pager.tree[index[..j]])
    }

    /** The entry at this level is not a large page. */
    ghost predicate NotLargeAt(level: nat)
      reads this, pager
    {
      && level < |index| && level < |table| && table[level] in pager.mem && index[level] < |pager.mem[table[level]]|
      && var e := pager.mem[table[level]][index[level]]; !(Present(e) && Large(e, level))
    }

    /** Tables on the way to an open page can be followed or created. */
    lemma OpenWay(d: seq<nat>, level: nat)
      requires pager.Valid() && 0 < level < depth && Chained(level) && Indices(d) && index[..level] == d[..level]
      requires depth == LEVELS ==> Open(Walk(pager.mem, pager.pml4, d, 0))
      requires depth == 2 || depth == LEVELS
      ensures NotLargeAt(level - 1)
    {
      hide TreeOk, PoolOk, Walk;
      assert index[..level - 1] == d[..level - 1] && index[level - 1] == d[level - 1];
      TableInTree(pager.mem, pager.tree, pager.pml4, d[..level - 1]);
      if depth == LEVELS {
        OpenEntry(pager.mem, pager.tree, pager.pml4, d, level - 1);
      }
    }

    constructor (virt: nat, pgr: Pager, depth: nat)
      requires pgr.Valid() && !pgr.raised && (depth == 2 || depth == LEVELS)
      requires depth == LEVELS ==> Open(Walk(pgr.mem, pgr.pml4, Digits(PageNumber(virt), 4), 0))
      modifies pgr`mem, pgr`tablePtr, pgr`tableCount, pgr`raised, pgr`tree
      ensures pager == pgr && this.depth == depth
      ensures pgr.Valid() && SameWalks(old(pgr.mem), pgr.mem, pgr.pml4)
      ensures if pgr.raised then pgr.tableCount == 0
              else Chained(depth) && index == Digits(PageNumber(virt), 4)[..depth]
      ensures old(pgr.tableCount) <= pgr.tableCount + depth - 1
      ensures pgr.raised ==> old(pgr.tableCount) < depth - 1
      ensures Known(old(pgr.tree), Digits(PageNumber(virt), 4), depth) ==> unchanged(pgr)
    {
      hide TreeOk, PoolOk, Walk, Digits, Power512;
      pager := pgr;
      this.depth := depth;
      index := seq(depth, _ => 0);
      var root := pgr.pml4;
      table := seq(depth, _ => root);
      new;
      TreeRoot(pgr.mem, pgr.tree, pgr.pml4);
      ghost var d := Digits(PageNumber(virt), 4);
      assert index[..0] == [];
      var i := 0;
      while i < depth
        invariant 0 <= i <= depth && !pgr.raised
        invariant pgr.Valid() && SameWalks(old(pgr.mem), pgr.mem, pgr.pml4)
        invariant Chained(if i == 0 then 1 else i) && index[..i] == d[..i]
        invariant old(pgr.tableCount) <= pgr.tableCount + (if i == 0 then 0 else i - 1)
        invariant Known(old(pgr.tree), d, depth) ==> unchanged(pgr)
      {
        IndexAt(virt, i);
        ShiftIsPower(3 - i);
        ghost var m := pgr.mem;
        SetIndex(i, (virt / Pow2(12 + 9 * (3 - i))) % 512, d);
        SameWalksChain(old(pgr.mem), m, pgr.mem, pgr.pml4);
        if pgr.raised {
          return;
        }
        i := i + 1;
      }
    }

    /** One round of the constructor's loop. */
    method SetIndex(i: nat, value: nat, ghost d: seq<nat>)
      requires pager.Valid() && !pager.raised && (depth == 2 || depth == LEVELS) && i < depth
      requires Indices(d) && value == d[i] && Chained(if i == 0 then 1 else i) && index[..i] == d[..i]
      requires depth == LEVELS ==> Open(Walk(pager.mem, pager.pml4, d, 0))
      modifies this`index, this`table, pager`mem, pager`tablePtr, pager`tableCount, pager`raised, pager`tree
      ensures pager.Valid() && SameWalks(old(pager.mem), pager.mem, pager.pml4)
      ensures if pager.raised then pager.tableCount == 0 == old(pager.tableCount) && i > 0
              else Chained(i + 1) && index[..i + 1] == d[..i + 1]
      ensures old(pager.tableCount) <= pager.tableCount + (if i == 0 then 0 else 1)
      ensures d[..i] in old(pager.tree) ==> unchanged(pager)
    {
      hide TreeOk, PoolOk, Walk;
      index := index[i := value];
      assert index[..i] == d[..i] && forall j :: 0 <= j <= i ==> index[..j] == old(index)[..j];
      if i > 0 { OpenWay(d, i); }
      EnsureTable(i);
      assert index[..i + 1] == d[..i + 1];
    }

    method EnsureTable(level: nat)
      requires pager.Valid() && !pager.raised && 0 < depth && level < depth && Chained(if level == 0 then 1 else level)
      requires level > 0 ==> NotLargeAt(level - 1)
      modifies this`table, pager`mem, pager`tablePtr, pager`tableCount, pager`raised, pager`tree
      ensures pager.Valid() && SameWalks(old(pager.mem), pager.mem, pager.pml4)
      ensures if pager.raised then pager.tableCount == 0 == old(pager.tableCount) && level > 0 else Chained(level + 1)
      ensures old(pager.tableCount) <= pager.tableCount + (if level == 0 then 0 else 1)
      ensures index[..level] in old(pager.tree) ==> unchanged(pager)
      ensures level > 0 && !pager.raised ==> Links(pager.mem, table[level - 1], index[level - 1], table[level])
    {
      hide TreeOk, PoolOk, Walk, Links;
      if level < 1 || level >= depth {
        return;
      }
      ghost var q := index[..level - 1];
      assert index[..level] == q + [index[level - 1]];
      AbsentEntry(pager.mem, pager.tree, pager.pml4, q, index[level - 1]);
      var parent := pager.mem[table[level - 1]][index[level - 1]];
      if !Present(parent) {
        ghost var m, tr, ptr, count := pager.mem, pager.tree, pager.tablePtr, pager.tableCount;
        var t := pager.PopPages(1);
        if pager.raised {
          return;
        }
        PoolTake(m, tr, ptr, count, q, index[level - 1]);
        LinkEffect(m, tr, pager.pml4, q, index[level - 1], t);
        TableEntry(t);
        pager.mem := Put(pager.mem, table[level - 1], index[level - 1], Or(t - t % 4096, TABLE_FLAGS));
        pager.tree := pager.tree[q + [index[level - 1]] := t];
        table := table[level := t];
      } else {
        TableInTree(pager.mem, pager.tree, pager.pml4, q + [index[level - 1]]);
        FrameOfTable(pager.tree[q + [index[level - 1]]]);
        table := table[level := parent - parent % 4096];
      }
      LinkOpen(pager.mem, pager.tree, pager.pml4, q, index[level - 1]);
    }

    /** Write the entry the iterator points at. */
    method Assign(e: nat)
      requires pager.Valid() && 0 < depth && Chained(depth) && index !in pager.tree
      requires depth == LEVELS || !Present(e) || Large(e, depth - 1)
      modifies pager`mem
      ensures pager.Valid() && Chained(depth)
      ensures forall d :: Indices(d) ==>
        Walk(pager.mem, pager.pml4, d, 0) ==
          if d[..depth] == index then Ends(e, depth - 1) else Walk(old(pager.mem), pager.pml4, d, 0)
    {
      hide TreeOk, PoolOk, Walk;
      ghost var q := index[..depth - 1];
      assert index == q + [index[depth - 1]];
      EntryEffect(pager.mem, pager.tree, pager.pml4, q, index[depth - 1], e);
      PoolKept(pager.mem, pager.tree, pager.tablePtr, pager.tableCount, q, index[depth - 1], e);
      pager.mem := Put(pager.mem, table[depth - 1], index[depth - 1], e);
    }

    /** Re-establish the tables below level `i` after index i changed. */
    method EnsureBelow(i: nat, ghost d: seq<nat>)
      requires pager.Valid() && !pager.raised && (depth == 2 || depth == LEVELS) && i < depth
      requires Indices(d) && Chained(i + 1) && index == d[..depth]
      requires depth == LEVELS ==> Open(Walk(pager.mem, pager.pml4, d, 0))
      modifies this`table, pager`mem, pager`tablePtr, pager`tableCount, pager`raised, pager`tree
      ensures pager.Valid() && SameWalks(old(pager.mem), pager.mem, pager.pml4)
      ensures if pager.raised then pager.tableCount == 0 && old(pager.tableCount) < depth - 1 - i else Chained(depth)
      ensures old(pager.tableCount) <= pager.tableCount + depth - 1 - i
      ensures Known(old(pager.tree), d, depth) ==> unchanged(pager)
    {
      hide TreeOk, PoolOk, Walk;
      var j := i + 1;
      while j < depth
        invariant i < j <= depth && !pager.raised && index == old(index)
        invariant pager.Valid() && SameWalks(old(pager.mem), pager.mem, pager.pml4)
        invariant Chained(j)
        invariant old(pager.tableCount) <= pager.tableCount + j - 1 - i
        invariant Known(old(pager.tree), d, depth) ==> unchanged(pager)
      {
        assert index[..j] == d[..j];
        OpenWay(d, j);
        ghost var m := pager.mem;
        EnsureTable(j);
        SameWalksChain(old(pager.mem), m, pager.mem, pager.pml4);
        if pager.raised {
          return;
        }
        j := j + 1;
      }
    }

    /** Step to the next entry.  The odometer must not be at its last position. */
    method Increment(ghost n: nat, ghost d: seq<nat>)
      requires pager.Valid() && !pager.raised && (depth == 2 || depth == LEVELS)
      requires Chained(depth) && index == Digits(n, depth) && n + 1 < Power512(depth)
      requires Indices(d) && d[..depth] == Digits(n + 1, depth)
      requires depth == LEVELS ==> Open(Walk(pager.mem, pager.pml4, d, 0))
      modifies this`index, this`table, pager`mem, pager`tablePtr, pager`tableCount, pager`raised, pager`tree
      ensures pager.Valid() && SameWalks(old(pager.mem), pager.mem, pager.pml4)
      ensures if pager.raised then pager.tableCount == 0 && old(pager.tableCount) < Carries(n, depth)
              else Chained(depth) && index == Digits(n + 1, depth)
      ensures old(pager.tableCount) <= pager.tableCount + Carries(n, depth)
      ensures Known(old(pager.tree), d, depth) ==> unchanged(pager)
    {
      hide TreeOk, PoolOk, Walk, Digits, Power512, Carries;
      ghost var hi: nat := n;
      var i := depth - 1;
      assert index[..depth] == index;
      assert Digits(n + 1, depth) == Digits(n + 1, depth) + Zeros(0);
      while true
        invariant 0 <= i < depth && Chained(i + 1) && unchanged(pager)
        invariant index == Digits(hi, i + 1) + Zeros(depth - 1 - i)
        invariant hi + 1 < Power512(i + 1)
        invariant Digits(n + 1, depth) == Digits(hi + 1, i + 1) + Zeros(depth - 1 - i)
        invariant Carries(n, depth) == depth - 1 - i + Carries(hi, i + 1)
        decreases i
      {
        ghost var s := index;
        index := index[i := index[i] + 1];
        DigitLast(hi, i + 1);
        if index[i] <= 511 {
          CarryStops(hi, i);
          assert index == d[..depth];
          assert forall j :: 0 <= j <= i ==> index[..j] == s[..j];
          EnsureBelow(i, d);
          return;
        }
        index := index[i := 0];
        CarryStep(n, depth, hi, i);
        assert forall j :: 0 <= j <= i ==> index[..j] == s[..j];
        i := i - 1;
        hi := hi / 512;
      }
    }
  }

  /** Page flags: present and global, plus the requested access. */
  function PageFlags(write: bool, exe: bool): nat
  {
    0x101 + (if exe then 0 else 0x8000_0000_0000_0000) + (if write then 2 else 0)
  }

  /** The entry built by or-ing decodes to the frame and the requested access. */
  lemma EntryDecodes(phys: nat, write: bool, exe: bool)
    requires phys % PAGE_SIZE == 0 && phys < PHYS_LIMIT
    ensures var e := Or(phys, PageFlags(write, exe));
      && Present(e) && Frame(e) == phys && e < TWO_64
      && (Writable(e) <==> write) && (NoExecute(e) <==> !exe) && !UserMode(e) && Global(e) && !WriteThrough(e)
  {
    hide Or, Pow2, Aligned;
    var low := if write then 0x103 else 0x101;
    var high := if exe then 0 else 0x8000_0000_0000_0000;
    var n, m := Exponents();
    AlignedIsMultiple(phys, n);
    AlignedIsMultiple(high, m);
    OrBetween(phys, low, high, n, m);
    assert phys == 4096 * (phys / 4096);
    FrameArithmetic(phys / 4096, low, high);
    NotThrough(phys / 4096, low, high);
    IsGlobal(phys / 4096, low, high);
  }

  lemma FrameArithmetic(f: nat, low: nat, high: nat)
    requires f < 0x100_0000_0000 && (low == 0x101 || low == 0x103) && (high == 0 || high == 0x8000_0000_0000_0000)
    ensures var e := 4096 * f + low + high;
      && e % 2 == 1 && (e / 4096) % 0x100_0000_0000 == f && e < TWO_64
      && ((e / 2) % 2 == 1 <==> low == 0x103) && (e / 4) % 2 == 0
      && ((e / 0x8000_0000_0000_0000) % 2 == 1 <==> high > 0)
  {
  }

  lemma NotThrough(f: nat, low: nat, high: nat)
    requires (low == 0x101 || low == 0x103) && (high == 0 || high == 0x8000_0000_0000_0000)
    ensures !WriteThrough(4096 * f + low + high)
  {
    var h := if high == 0 then 0 else 0x800_0000_0000_0000;
    BitAt(4096 * f + low + high, 8, 256 * f + 16 + h, 0, low - 256);
  }

  lemma IsGlobal(f: nat, low: nat, high: nat)
    requires (low == 0x101 || low == 0x103) && (high == 0 || high == 0x8000_0000_0000_0000)
    ensures Global(4096 * f + low + high)
  {
    var h := if high == 0 then 0 else 0x40_0000_0000_0000;
    BitAt(4096 * f + low + high, 256, 8 * f + h, 1, low - 256);
  }

  lemma Exponents() returns (n: nat, m: nat)
    ensures n == 12 && m == 52 && Pow2(n) == 4096 && Pow2(m) == 0x10_0000_0000_0000
  {
    n, m := 12, 52;
    PowersForPaging();
  }

  lemma PowersForPaging()
    ensures Pow2(12) == 4096 && Pow2(52) == 0x10_0000_0000_0000
  {
    assert Pow2(12) == 4096;
    Pow2Add(12, 12);
    Pow2Add(24, 24);
    Pow2Add(4, 48);
    assert Pow2(4) == 16;
  }

  /** `m'` maps pages [first, first + done) to consecutive frames from `phys`, and translates
      every other page as `m` does. */
  ghost predicate Maps(m: Tables, m': Tables, root: nat, first: nat, done: nat, phys: nat, flags: nat)
  {
    forall n :: 0 <= n < PAGE_LIMIT ==>
      Walk(m', root, Digits(n, 4), 0) ==
        if first <= n < first + done then Page(Or(phys + PAGE_SIZE * (n - first), flags), LEVELS - 1)
        else Walk(m, root, Digits(n, 4), 0)
  }

  lemma MapsNone(m: Tables, root: nat, first: nat, phys: nat, flags: nat)
    ensures Maps(m, m, root, first, 0, phys, flags)
  {
  }

  /** The access to pages [first, first + done) is what was asked for, never from user mode, and the access to
      every other page is as before. */
  ghost predicate Opens(m: Tables, m': Tables, root: nat, first: nat, done: nat, phys: nat, write: bool, exe: bool)
  {
    forall n :: 0 <= n < PAGE_LIMIT ==>
      Follow(m', root, Digits(n, 4), 0) ==
        if first <= n < first + done
        then Granted(phys + PAGE_SIZE * (n - first), PAGE_SIZE, write, false, exe, true, false)
        else Follow(m, root, Digits(n, 4), 0)
  }

  lemma FollowPage(m: Tables, tr: Tree, root: nat, d: seq<nat>)
    requires TreeOk(m, tr, root) && Indices(d)
    ensures Follow(m, root, d, 0) == Supervised(Walk(m, root, d, 0), 0)
  {
    hide Walk, Follow;
    assert d[..0] == [];
    TreeRoot(m, tr, root);
    FollowWalk(m, tr, root, d, 0);
  }

  lemma PageGrants(phys: nat, write: bool, exe: bool)
    requires phys % PAGE_SIZE == 0 && phys < PHYS_LIMIT
    ensures Grants(Or(phys, PageFlags(write, exe)), 3) == Granted(phys, PAGE_SIZE, write, false, exe, true, false)
  {
    hide Or, PageFlags, Frame, Writable, NoExecute, UserMode, Global, WriteThrough;
    EntryDecodes(phys, write, exe);
  }

  lemma MapsOpens(m: Tables, tr: Tree, m': Tables, tr': Tree, root: nat, first: nat, done: nat, phys: nat, write: bool,
                  exe: bool)
    requires TreeOk(m, tr, root) && TreeOk(m', tr', root)
    requires Maps(m, m', root, first, done, phys, PageFlags(write, exe))
    requires phys % PAGE_SIZE == 0 && phys + PAGE_SIZE * done <= PHYS_LIMIT
    ensures Opens(m, m', root, first, done, phys, write, exe)
  {
    hide TreeOk, Walk, Follow, Digits, Or, PageFlags, Grants;
    forall n | 0 <= n < PAGE_LIMIT
      ensures Follow(m', root, Digits(n, 4), 0) ==
        if first <= n < first + done
        then Granted(phys + PAGE_SIZE * (n - first), PAGE_SIZE, write, false, exe, true, false)
        else Follow(m, root, Digits(n, 4), 0)
    {
      var d := Digits(n, 4);
      FollowPage(m, tr, root, d);
      FollowPage(m', tr', root, d);
      if first <= n < first + done { PageGrants(phys + PAGE_SIZE * (n - first), write, exe); }
    }
  }

  /** At an address: page k of the range lies at phys + k * 4096, whatever the offset in the page, and can be
      written exactly if that was asked for, executed exactly if that was, and not used from user mode. */
  lemma MappedAddress(m: Tables, m': Tables, root: nat, phys: nat, virt: nat, count: nat, write: bool, exe: bool,
                      k: nat)
    requires Opens(m, m', root, PageNumber(virt), count, phys, write, exe) && k < count
    requires PageNumber(virt) + count <= PAGE_LIMIT
    ensures var a := Follow(m', root, Digits(PageNumber(virt + PAGE_SIZE * k), 4), 0);
      && a.Granted? && a.base == phys + PAGE_SIZE * k && a.bytes == PAGE_SIZE
      && (a.write <==> write) && (a.execute <==> exe) && !a.user
  {
    hide Follow, Digits, PageNumber;
    PageOffset(virt, k);
    var n := PageNumber(virt) + k;
    assert Follow(m', root, Digits(n, 4), 0) ==
      Granted(phys + PAGE_SIZE * (n - PageNumber(virt)), PAGE_SIZE, write, false, exe, true, false);
  }

  lemma PageOffset(virt: nat, k: nat)
    requires PageNumber(virt) + k < PAGE_LIMIT
    ensures PageNumber(virt + PAGE_SIZE * k) == PageNumber(virt) + k
  {
    assert (virt + 4096 * k) / 4096 == virt / 4096 + k;
    var x := virt / 4096;
    assert x == PAGE_LIMIT * (x / PAGE_LIMIT) + x % PAGE_LIMIT;
    DivModUnique(x + k, PAGE_LIMIT, x / PAGE_LIMIT, x % PAGE_LIMIT + k);
  }

  lemma MapsAt(m: Tables, m': Tables, root: nat, first: nat, done: nat, phys: nat, flags: nat, n: nat)
    requires Maps(m, m', root, first, done, phys, flags) && n < PAGE_LIMIT && !(first <= n < first + done)
    ensures Walk(m', root, Digits(n, 4), 0) == Walk(m, root, Digits(n, 4), 0)
  {
  }

  lemma MapsStep(m: Tables, m1: Tables, m2: Tables, root: nat, first: nat, done: nat, phys: nat, flags: nat)
    requires Maps(m, m1, root, first, done, phys, flags) && first + done < PAGE_LIMIT
    requires Present(Or(phys + PAGE_SIZE * done, flags))
    requires forall d :: Indices(d) ==>
      Walk(m2, root, d, 0) ==
        if d[..4] == Digits(first + done, 4) then Ends(Or(phys + PAGE_SIZE * done, flags), 3) else Walk(m1, root, d, 0)
    ensures Maps(m, m2, root, first, done + 1, phys, flags)
  {
    hide Walk, Or, Digits;
    forall n | 0 <= n < PAGE_LIMIT
      ensures Walk(m2, root, Digits(n, 4), 0) ==
        if first <= n < first + done + 1 then Page(Or(phys + PAGE_SIZE * (n - first), flags), LEVELS - 1)
        else Walk(m, root, Digits(n, 4), 0)
    {
      var d := Digits(n, 4);
      assert Indices(d) && d[..4] == d;
      SamePage(n, first + done);
    }
  }

  lemma SamePage(n: nat, k: nat)
    requires n < PAGE_LIMIT && k < PAGE_LIMIT
    ensures Digits(n, 4) == Digits(k, 4) <==> n == k
  {
    assert Power512(4) == PAGE_LIMIT;
    if Digits(n, 4) == Digits(k, 4) { DigitsInjective(n, k, 4); }
  }

  lemma MapsSame(m: Tables, m1: Tables, m2: Tables, root: nat, first: nat, done: nat, phys: nat, flags: nat)
    requires Maps(m, m1, root, first, done, phys, flags) && SameWalks(m1, m2, root)
    ensures Maps(m, m2, root, first, done, phys, flags)
  {
    hide Walk, Or, Digits;
    forall n | 0 <= n < PAGE_LIMIT
      ensures Walk(m2, root, Digits(n, 4), 0) == Walk(m1, root, Digits(n, 4), 0)
    {
      assert Indices(Digits(n, 4));
    }
  }

  lemma LongPath(m: Tables, tr: Tree, root: nat, q: seq<nat>)
    requires TreeOk(m, tr, root) && |q| == LEVELS
    ensures q !in tr
  {
    assert q in tr ==> TableOk(m, tr, q);
  }

  /** No page is mapped. */
  ghost predicate Empty(m: Tables, root: nat)
  {
    forall d :: Indices(d) ==> Walk(m, root, d, 0) == Fault
  }

  /** The first `k` GiB of physical memory are mapped at the linear offset with large pages,
      and nothing else is mapped. */
  ghost predicate LinearUpTo(m: Tables, root: nat, k: nat)
  {
    forall d :: Indices(d) ==>
      var n := d[0] * 512 + d[1];
      Walk(m, root, d, 0) == if LINEAR_FIRST <= n < LINEAR_FIRST + k
        then Page(GIB * (n - LINEAR_FIRST) + HUGE_PAGE_FLAGS, 1) else Fault
  }

  /** The linear region is physical memory from zero in pages of 1 GiB that the kernel can write and execute and
      user mode cannot use, write-through and global; nothing else is accessible. */
  ghost predicate LinearAccess(m: Tables, root: nat)
  {
    forall d :: Indices(d) ==>
      var n := d[0] * 512 + d[1];
      Follow(m, root, d, 0) == if LINEAR_FIRST <= n < LINEAR_FIRST + LINEAR_PAGES
        then Granted(GIB * (n - LINEAR_FIRST), GIB, true, false, true, true, true) else Denied
  }

  lemma HugeFrame(k: nat)
    requires k < LINEAR_PAGES
    ensures Frame(GIB * k + HUGE_PAGE_FLAGS) == GIB * k && (GIB * k) % GIB == 0
  {
    assert (GIB * k + HUGE_PAGE_FLAGS) / 4096 == 0x4_0000 * k;
  }

  lemma HugeRights(k: nat)
    requires k < LINEAR_PAGES
    ensures var e := GIB * k + HUGE_PAGE_FLAGS; Writable(e) && !UserMode(e)
  {
    BitAt(GIB * k + HUGE_PAGE_FLAGS, 2, 0x1000_0000 * k + 0x62, 1, 1);
    BitAt(GIB * k + HUGE_PAGE_FLAGS, 4, 0x800_0000 * k + 0x31, 0, 3);
  }

  lemma HugeCaching(k: nat)
    requires k < LINEAR_PAGES
    ensures var e := GIB * k + HUGE_PAGE_FLAGS; WriteThrough(e) && Global(e)
  {
    BitAt(GIB * k + HUGE_PAGE_FLAGS, 8, 0x400_0000 * k + 0x18, 1, 3);
    BitAt(GIB * k + HUGE_PAGE_FLAGS, 256, 0x20_0000 * k, 1, 0x8b);
  }

  lemma HugeRuns(k: nat)
    requires k < LINEAR_PAGES
    ensures !NoExecute(GIB * k + HUGE_PAGE_FLAGS)
  {
    BitAt(GIB * k + HUGE_PAGE_FLAGS, 0x8000_0000_0000_0000, 0, 0, GIB * k + HUGE_PAGE_FLAGS);
  }

  lemma HugeGrants(k: nat)
    requires k < LINEAR_PAGES
    ensures Grants(GIB * k + HUGE_PAGE_FLAGS, 1) == Granted(GIB * k, GIB, true, false, true, true, true)
  {
    hide Frame, Present, Writable, UserMode, NoExecute, Global, WriteThrough, Or, Large;
    HugeFrame(k);
    LinearEntry(k);
    HugeRights(k);
    HugeCaching(k);
    HugeRuns(k);
  }

  lemma LinearOpens(m: Tables, tr: Tree, root: nat)
    requires TreeOk(m, tr, root) && LinearUpTo(m, root, LINEAR_PAGES)
    ensures LinearAccess(m, root)
  {
    hide TreeOk, Walk, Follow, Grants;
    forall d | Indices(d)
      ensures var n := d[0] * 512 + d[1];
        Follow(m, root, d, 0) == if LINEAR_FIRST <= n < LINEAR_FIRST + LINEAR_PAGES
          then Granted(GIB * (n - LINEAR_FIRST), GIB, true, false, true, true, true) else Denied
    {
      FollowPage(m, tr, root, d);
      var n := d[0] * 512 + d[1];
      if LINEAR_FIRST <= n < LINEAR_FIRST + LINEAR_PAGES { HugeGrants(n - LINEAR_FIRST); }
    }
  }

  lemma LinearNone(m: Tables, root: nat)
    requires Empty(m, root)
    ensures LinearUpTo(m, root, 0)
  {
    hide Walk;
  }

  lemma LinearStep(m1: Tables, m2: Tables, root: nat, k: nat)
    requires LinearUpTo(m1, root, k) && k < LINEAR_PAGES
    requires forall d :: Indices(d) ==>
      Walk(m2, root, d, 0) ==
        if d[..2] == Digits(LINEAR_FIRST + k, 2) then Ends(Or(GIB * k, HUGE_PAGE_FLAGS), 1) else Walk(m1, root, d, 0)
    ensures LinearUpTo(m2, root, k + 1)
  {
    hide Walk, Digits, Or;
    LinearEntry(k);
    forall d | Indices(d)
      ensures d[..2] == Digits(LINEAR_FIRST + k, 2) <==> d[0] * 512 + d[1] == LINEAR_FIRST + k
    {
      TwoDigits(LINEAR_FIRST + k, d);
    }
  }

  lemma TwoDigits(n: nat, d: seq<nat>)
    requires n < 512 * 512 && |d| >= 2 && d[0] < 512 && d[1] < 512
    ensures d[..2] == Digits(n, 2) <==> d[0] * 512 + d[1] == n
  {
    assert Digits(n / 512, 1) == [n / 512 % 512];
    assert Digits(n, 2) == [n / 512 % 512, n % 512];
    assert d[..2] == [d[0], d[1]];
  }

  lemma LinearEntry(k: nat)
    ensures Or(GIB * k, HUGE_PAGE_FLAGS) == GIB * k + HUGE_PAGE_FLAGS
    ensures Present(GIB * k + HUGE_PAGE_FLAGS) && Large(GIB * k + HUGE_PAGE_FLAGS, 1)
  {
    HugeFlags(262144 * k);
    AlignedIsMultiple(GIB * k, 12);
    assert Pow2(12) == 4096;
    OrAdds(GIB * k, HUGE_PAGE_FLAGS, 12);
  }

  lemma HugeFlags(f: nat)
    ensures (4096 * f) % 4096 == 0
    ensures Present(4096 * f + HUGE_PAGE_FLAGS) && Large(4096 * f + HUGE_PAGE_FLAGS, 1)
  {
    DivModUnique(4096 * f, 4096, f, 0);
    DivModUnique(4096 * f + HUGE_PAGE_FLAGS, 2, 2048 * f + 197, 1);
    DivModUnique(4096 * f + HUGE_PAGE_FLAGS, 128, 32 * f + 3, 11);
    DivModUnique(32 * f + 3, 2, 16 * f + 1, 1);
  }

  lemma LinearStart()
    ensures Digits(PageNumber(LINEAR_OFFSET), 4)[..2] == Digits(LINEAR_FIRST, 2)
  {
    var n := PageNumber(LINEAR_OFFSET);
    assert n == LINEAR_FIRST * 262144;
    assert n / 512 / 512 == LINEAR_FIRST;
    assert Digits(n, 4)[..3] == Digits(n / 512, 3);
    assert Digits(n / 512, 3)[..2] == Digits(n / 512 / 512, 2);
    assert Digits(n, 4)[..2] == Digits(n, 4)[..3][..2];
  }

  lemma LinearBegins(tr: Tree)
    requires [] in tr && [384] in tr
    ensures Known(tr, Digits(PageNumber(LINEAR_OFFSET), 4), 2)
  {
    hide PageNumber;
    var d := Digits(PageNumber(LINEAR_OFFSET), 4);
    LinearStart();
    TwoDigits(LINEAR_FIRST, d);
    LinearPath(tr, d, 384);
  }

  lemma LinearKnown(tr: Tree, k: nat, d: seq<nat>)
    requires 0 < k < LINEAR_PAGES && d == Digits(LINEAR_FIRST + k, 2) + [0, 0]
    requires [] in tr && forall j :: KERNEL_ROOT_INDEX <= j < ENTRIES ==> [j] in tr
    ensures Indices(d) && d[..2] == Digits(LINEAR_FIRST + k, 2)
    ensures Known(tr, d, 2) && LINEAR_FIRST + k < Power512(2)
  {
    hide Power512, Known;
    var n := LINEAR_FIRST + k;
    PowerTwo();
    assert 384 <= n / 512 < 512;
    assert Digits(n / 512, 1) == [n / 512];
    assert Digits(n, 2) == [n / 512, n % 512];
    LinearPath(tr, d, n / 512);
  }

  lemma PowerTwo()
    ensures Power512(2) == 262144
  {
  }

  lemma LinearPath(tr: Tree, d: seq<nat>, j: nat)
    requires |d| == 4 && d[0] == j && [] in tr && [j] in tr
    ensures Known(tr, d, 2)
  {
    assert d[..0] == [] && d[..1] == [j];
  }

  /** A zeroed page is a tree of one table that maps nothing. */
  lemma RootFromPool(m: Tables, ptr: nat, count: nat)
    requires PoolOk(m, map[], ptr, count) && count > 0
    ensures TreeOk(m, map[[] := ptr], ptr) && Empty(m, ptr)
    ensures PoolOk(m, map[[] := ptr], PoolPage(ptr, 1), count - 1)
  {
    assert PoolPage(ptr, 0) == ptr;
    var ptr' := PoolPage(ptr, 1);
    forall k | 0 <= k < count - 1 ensures Zeroed(m, PoolPage(ptr', k))
    {
      assert PoolPage(ptr', k) == PoolPage(ptr, k + 1);
    }
    var tr: Tree := map[[] := ptr];
    forall q, i | q in tr && |q| + 1 < LEVELS && 0 <= i < ENTRIES ensures LinkOk(m, tr, q, i)
    {
      assert [] + [i] != [];
    }
    assert TableOk(m, tr, []) && Rooted(tr, []);
  }

  lemma DigitLast(n: nat, k: nat)
    requires k > 0
    ensures Digits(n, k)[k - 1] == n % 512
  {
  }

  lemma TableEntry(t: nat)
    requires t % 4096 == 0
    ensures Or(t - t % 4096, TABLE_FLAGS) == t + TABLE_FLAGS
  {
    AlignedIsMultiple(t, 12);
    assert Pow2(12) == 4096;
    OrAdds(t, TABLE_FLAGS, 12);
  }
}
