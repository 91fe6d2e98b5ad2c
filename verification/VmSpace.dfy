/** The areas of an address space: sorted, disjoint, and placed at the first gap that fits. */
module AddressSpace {
  import opened Bits

  const MIN_AUTO_ADDRESS := 16 * 1024 * 1024

  /** An area object mapped at `base`; its size is fixed. */
  datatype Area = Area(base: nat, size: nat, id: nat)

  function End(a: Area): nat { a.base + a.size }

  predicate Nonempty(a: Area) { 0 < a.size && End(a) < TWO_64 }

  /** Ordered, disjoint, and below the top of the address space. */
  ghost predicate Ordered(areas: seq<Area>)
  {
    && (forall i :: 0 <= i < |areas| ==> Nonempty(areas[i]))
    && (forall i, j :: 0 <= i < j < |areas| ==> End(areas[i]) <= areas[j].base)
  }

  predicate Overlaps(a: Area, base: nat, size: nat)
  {
    base < End(a) && a.base < base + size
  }

  /** Some area is in the way of `size` bytes at `base`. */
  predicate Taken(areas: seq<Area>, base: nat, size: nat)
  {
    exists i :: 0 <= i < |areas| && Overlaps(areas[i], base, size)
  }

  /** An area ends past `base` and starts before the end of the request, which is taken in 64 bits. */
  predicate Blocked(areas: seq<Area>, base: nat, size: nat)
  {
    exists i :: 0 <= i < |areas| && base < End(areas[i]) && areas[i].base < (base + size) % TWO_64
  }

  /** The least base, from `from` on, where `size` bytes are free. */
  ghost predicate LeastFree(areas: seq<Area>, from: nat, size: nat, base: nat)
  {
    from <= base && !Taken(areas, base, size) && forall b: nat :: from <= b < base ==> Taken(areas, b, size)
  }

  /** The search has not gone past the least base that fits below the top. */
  ghost predicate NotPast(areas: seq<Area>, from: nat, size: nat, base: nat)
  {
    forall b: nat :: LeastFree(areas, from, size, b) && b + size < TWO_64 ==> base <= b
  }

  lemma NotPastStart(areas: seq<Area>, from: nat, size: nat)
    ensures NotPast(areas, from, size, from)
  {
  }

  function Start(base: nat): nat { if base == 0 then MIN_AUTO_ADDRESS else base }

  /** The vector's insertion point: after every area with a base no greater. */
  method SortedIndex(areas: seq<Area>, item: Area) returns (start: nat)
    requires forall i, j :: 0 <= i < j < |areas| ==> areas[i].base <= areas[j].base
    ensures start <= |areas|
    ensures forall i :: 0 <= i < start ==> areas[i].base <= item.base
    ensures forall i :: start <= i < |areas| ==> item.base < areas[i].base
  {
    start := 0;
    var end := |areas|;
    while end > start
      invariant 0 <= start <= end <= |areas|
      invariant forall i :: 0 <= i < start ==> areas[i].base <= item.base
      invariant forall i :: end <= i < |areas| ==> item.base < areas[i].base
    {
      var m := start + (end - start) / 2;
      if item.base < areas[m].base {
        end := m;
      } else {
        start := m + 1;
      }
    }
  }

  function Inserted(areas: seq<Area>, i: nat, item: Area): seq<Area>
    requires i <= |areas|
  {
    areas[..i] + [item] + areas[i..]
  }

  /** Inserting an area that is in nobody's way keeps the order. */
  lemma InsertKeeps(areas: seq<Area>, i: nat, item: Area)
    requires Ordered(areas) && i <= |areas| && Nonempty(item) && !Taken(areas, item.base, item.size)
    requires forall k :: 0 <= k < i ==> areas[k].base <= item.base
    requires forall k :: i <= k < |areas| ==> item.base < areas[k].base
    ensures Ordered(Inserted(areas, i, item))
  {
    var r := Inserted(areas, i, item);
    forall k | 0 <= k < |areas| ensures !Overlaps(areas[k], item.base, item.size) {}
    forall k, m | 0 <= k < m < |r| ensures End(r[k]) <= r[m].base
    {
      if m < i {
        assert r[k] == areas[k] && r[m] == areas[m];
      } else if k < i < m {
        assert r[k] == areas[k] && r[m] == areas[m - 1];
      } else if i < k {
        assert r[k] == areas[k - 1] && r[m] == areas[m - 1];
      } else if m == i {
        assert r[k] == areas[k] && r[m] == item && Nonempty(areas[k]);
      } else {
        assert r[k] == item && r[m] == areas[m - 1];
      }
    }
    forall k | 0 <= k < |r| ensures Nonempty(r[k])
    {
      if k < i {
        assert r[k] == areas[k];
      } else if k > i {
        assert r[k] == areas[k - 1];
      }
    }
  }

  /** Inserting an area that is in the way, or that reaches the top, breaks it. */
  lemma InsertBreaks(areas: seq<Area>, i: nat, item: Area)
    requires i <= |areas| && (Taken(areas, item.base, item.size) || End(item) >= TWO_64)
    ensures !Ordered(Inserted(areas, i, item))
  {
    var r := Inserted(areas, i, item);
    assert r[i] == item;
    if End(item) < TWO_64 {
      var k :| 0 <= k < |areas| && Overlaps(areas[k], item.base, item.size);
      var m := if k < i then k else k + 1;
      assert r[m] == areas[k];
      assert !(End(r[m]) <= r[i].base) && !(End(r[i]) <= r[m].base);
    }
  }

  lemma BlockedAt(areas: seq<Area>, base: nat, size: nat, i: nat)
    requires i < |areas| && base < End(areas[i]) && areas[i].base < (base + size) % TWO_64
    ensures Blocked(areas, base, size)
  {
  }

  class VmSpace {
    var areas: seq<Area>

    ghost predicate Valid()
      reads this
    {
      Ordered(areas)
    }

    constructor ()
      ensures Valid() && areas == []
    {
      areas := [];
    }

    /** Place an area of `size` bytes.  Sums are taken in 64 bits; returns 0 when an exact
        request is refused. */
    method Add(request: nat, size: nat, id: nat, exact: bool) returns (base: nat, ghost index: nat)
      requires Valid() && 0 < size < TWO_64 && request < TWO_64
      modifies this
      ensures index <= |old(areas)|
      ensures areas == old(areas) || areas == Inserted(old(areas), index, Area(base, size, id))
      ensures exact ==>
        if Blocked(old(areas), Start(request), size) then base == 0 && areas == old(areas)
        else base == Start(request) && areas == Inserted(old(areas), index, Area(base, size, id))
      ensures exact ==> (Valid() <==> Start(request) + size < TWO_64 || Blocked(old(areas), Start(request), size))
      ensures exact && Start(request) + size < TWO_64 ==>
        (Blocked(old(areas), Start(request), size) <==> Taken(old(areas), Start(request), size))
      ensures !exact ==> areas == Inserted(old(areas), index, Area(base, size, id))
      ensures !exact ==>
        (Valid() <==> exists b: nat :: LeastFree(old(areas), Start(request), size, b) && b + size < TWO_64)
      ensures !exact ==>
        forall b: nat :: LeastFree(old(areas), Start(request), size, b) && b + size < TWO_64 ==> base == b
      ensures var from := if request == 0 then 0x100_0000 else request;
        && (exact ==> base == 0 || base == from)
        && (!exact && Valid() ==> LeastFree(old(areas), from, size, base))
    {
      hide Ordered, LeastFree, NotPast, Taken, Blocked, Inserted;
      base := Start(request);
      index := 0;
      var i := 0;
      NotPastStart(areas, Start(request), size);
      while i < |areas|
        invariant 0 <= i <= |areas| && areas == old(areas)
        invariant Start(request) <= base && (exact ==> base == Start(request)) && base < TWO_64
        invariant forall k :: 0 <= k < i ==> End(areas[k]) <= base
        invariant base + size < TWO_64 ==> forall b: nat :: Start(request) <= b < base ==> Taken(areas, b, size)
        invariant NotPast(areas, Start(request), size, base)
      {
        OrderedAt(areas, i);
        var curEnd := End(areas[i]) % TWO_64;
        if base >= curEnd {
          i := i + 1;
          continue;
        }
        var end := (base + size) % TWO_64;
        if end <= areas[i].base {
          break;
        } else if exact {
          BlockedAt(areas, base, size, i);
          if base + size < TWO_64 { BlockedTaken(areas, base, size); }
          return 0, 0;
        } else {
          GapTooSmall(areas, Start(request), base, size, i);
          base := curEnd;
        }
        i := i + 1;
      }
      Outcome(areas, Start(request), base, size, i);
      if exact {
        NotBlocked(areas, base, size, i);
        if base + size < TWO_64 { BlockedTaken(areas, base, size); }
      }
      SortedBases(areas);
      var j := SortedIndex(areas, Area(base, size, id));
      index := j;
      if !Taken(areas, base, size) && base + size < TWO_64 {
        InsertKeeps(areas, j, Area(base, size, id));
      } else {
        InsertBreaks(areas, j, Area(base, size, id));
      }
      areas := Inserted(areas, j, Area(base, size, id));
    }

    /** The area that holds an address. */
    method Get(address: nat) returns (found: bool, area: Area)
      requires Valid()
      ensures found ==> area in areas && area.base <= address < End(area)
      ensures found ==> forall a :: a in areas && a.base <= address < End(a) ==> a == area
      ensures !found ==> forall a :: a in areas ==> !(a.base <= address < End(a))
    {
      found, area := false, Area(0, 0, 0);
      for i := 0 to |areas|
        invariant forall k :: 0 <= k < i ==> !(areas[k].base <= address < End(areas[k]))
      {
        if areas[i].base <= address < End(areas[i]) {
          return true, areas[i];
        }
      }
    }

    /** Take out the first area with this object. */
    method Remove(id: nat) returns (found: bool)
      requires Valid()
      modifies this
      ensures Valid()
      ensures found <==> exists a :: a in old(areas) && a.id == id
      ensures !found ==> areas == old(areas)
      ensures found ==>
        exists i :: 0 <= i < |old(areas)| && old(areas)[i].id == id && areas == old(areas)[..i] + old(areas)[i + 1..]
    {
      for i := 0 to |areas|
        invariant areas == old(areas) && forall k :: 0 <= k < i ==> areas[k].id != id
      {
        if areas[i].id == id {
          assert areas[i] in old(areas);
          areas := areas[..i] + areas[i + 1..];
          return true;
        }
      }
      return false;
    }
  }

  /** A request whose end wraps around is placed on top of an area that is already there. */
  method WrapExample() returns (space: VmSpace)
    ensures fresh(space) && !space.Valid()
  {
    space := new VmSpace();
    var first, i := space.Add(TWO_64 - 8192, 4096, 1, true);
    var second, j := space.Add(TWO_64 - 8192, 8192, 2, false);
  }

  /** An exact request whose end wraps around is placed past the top of the address space. */
  method ExactExample() returns (space: VmSpace, base: nat)
    ensures fresh(space) && base == TWO_64 - 4096 && !space.Valid()
  {
    space := new VmSpace();
    ghost var i;
    base, i := space.Add(TWO_64 - 4096, 8192, 1, true);
  }

  lemma OrderedAt(areas: seq<Area>, i: nat)
    requires Ordered(areas) && i < |areas|
    ensures Nonempty(areas[i])
  {
  }

  lemma SortedBases(areas: seq<Area>)
    requires Ordered(areas)
    ensures forall i, j :: 0 <= i < j < |areas| ==> areas[i].base <= areas[j].base
  {
    forall i, j | 0 <= i < j < |areas| ensures areas[i].base <= areas[j].base
    {
      assert Nonempty(areas[i]) && End(areas[i]) <= areas[j].base;
    }
  }

  /** Without wrap-around, blocked and taken are the same. */
  lemma BlockedTaken(areas: seq<Area>, base: nat, size: nat)
    requires base + size < TWO_64
    ensures Blocked(areas, base, size) <==> Taken(areas, base, size)
  {
    assert (base + size) % TWO_64 == base + size;
    if Blocked(areas, base, size) {
      var i :| 0 <= i < |areas| && base < End(areas[i]) && areas[i].base < (base + size) % TWO_64;
      assert Overlaps(areas[i], base, size);
    }
    if Taken(areas, base, size) {
      var i :| 0 <= i < |areas| && Overlaps(areas[i], base, size);
      assert base < End(areas[i]) && areas[i].base < (base + size) % TWO_64;
    }
  }

  /** Where an exact search stops nothing blocks the request. */
  lemma NotBlocked(areas: seq<Area>, base: nat, size: nat, i: nat)
    requires Ordered(areas) && i <= |areas|
    requires forall k :: 0 <= k < i ==> End(areas[k]) <= base
    requires i < |areas| ==> (base + size) % TWO_64 <= areas[i].base
    ensures !Blocked(areas, base, size)
  {
    SortedBases(areas);
    forall k | 0 <= k < |areas| ensures !(base < End(areas[k]) && areas[k].base < (base + size) % TWO_64)
    {
      if k > i { assert areas[i].base <= areas[k].base; }
    }
  }

  /** An area that ends past `base` and starts before its end is in the way of every base up to its end. */
  lemma GapTooSmall(areas: seq<Area>, from: nat, base: nat, size: nat, i: nat)
    requires Ordered(areas) && i < |areas| && base < End(areas[i]) && End(areas[i]) < TWO_64 && 0 < size < TWO_64
    requires areas[i].base < (base + size) % TWO_64
    requires base + size < TWO_64 ==> forall b: nat :: from <= b < base ==> Taken(areas, b, size)
    requires NotPast(areas, from, size, base)
    ensures NotPast(areas, from, size, End(areas[i]))
    ensures End(areas[i]) + size < TWO_64 ==> forall b: nat :: from <= b < End(areas[i]) ==> Taken(areas, b, size)
    ensures forall k :: 0 <= k <= i ==> End(areas[k]) <= End(areas[i])
  {
    forall b: nat | LeastFree(areas, from, size, b) && b + size < TWO_64 ensures End(areas[i]) <= b
    {
      assert base <= b;
      assert !Overlaps(areas[i], b, size);
    }
    if End(areas[i]) + size < TWO_64 {
      forall b: nat | from <= b < End(areas[i]) ensures Taken(areas, b, size)
      {
        if b >= base { assert Overlaps(areas[i], b, size); }
      }
    }
    forall k | 0 <= k <= i ensures End(areas[k]) <= End(areas[i])
    {
      assert Nonempty(areas[i]);
    }
  }

  /** Where the search stops, the gap fits unless the end of the new area wraps around. */
  lemma Outcome(areas: seq<Area>, from: nat, base: nat, size: nat, i: nat)
    requires Ordered(areas) && i <= |areas| && from <= base < TWO_64 && 0 < size < TWO_64
    requires forall k :: 0 <= k < i ==> End(areas[k]) <= base
    requires i < |areas| ==> (base + size) % TWO_64 <= areas[i].base && base < End(areas[i])
    requires base + size < TWO_64 ==> forall b: nat :: from <= b < base ==> Taken(areas, b, size)
    requires NotPast(areas, from, size, base)
    ensures base + size < TWO_64 ==> LeastFree(areas, from, size, base)
    ensures forall b: nat :: LeastFree(areas, from, size, b) && b + size < TWO_64 ==> base == b
  {
  }
}
