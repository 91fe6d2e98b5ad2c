/** Four-level page tables as the processor reads them (Intel SDM volume 3A, section 4.5),
and the effect of single entry writes on the translation. */
module PageTables {
  import opened Bits

  const ENTRIES := 512
  const LEVELS := 4
  const TABLE_FLAGS := 3

  /** Physical pages used as tables: page address to 512 entries. */
  type Tables = map<nat, seq<nat>>

  predicate Present(e: nat) { e % 2 == 1 }

  /** Bits 51:12 of an entry. */
  function Frame(e: nat): nat { ((e / 4096) % 0x100_0000_0000) * 4096 }

  /** The page-size flag, which ends the walk one or two levels early. */
  predicate Large(e: nat, level: nat) { (level == 1 || level == 2) && (e / 128) % 2 == 1 }

  datatype Translation = Fault | Page(entry: nat, level: nat)

  function Ends(e: nat, level: nat): Translation
  {
    if Present(e) then Page(e, level) else Fault
  }

  /** The hardware walk from table `t` for the page with the 9-bit indices `d`. */
  function Walk(m: Tables, t: nat, d: seq<nat>, level: nat): Translation
    requires |d| == LEVELS && level < LEVELS
    decreases LEVELS - level
  {
    if t !in m || |m[t]| != ENTRIES || d[level] >= ENTRIES then Fault else
    var e := m[t][d[level]];
    if !Present(e) || level + 1 == LEVELS || Large(e, level) then Ends(e, level)
    else Walk(m, Frame(e), d, level + 1)
  }

  predicate Writable(e: nat) { (e / 2) % 2 == 1 }
  predicate UserMode(e: nat) { (e / 4) % 2 == 1 }
  predicate WriteThrough(e: nat) { (e / 8) % 2 == 1 }
  predicate Global(e: nat) { (e / 256) % 2 == 1 }
  predicate NoExecute(e: nat) { (e / 0x8000_0000_0000_0000) % 2 == 1 }

  /** Bytes of a page that an entry of this level maps. */
  function PageBytes(level: nat): nat
  {
    if level == 1 then 0x4000_0000 else if level == 2 then 0x20_0000 else 4096
  }

  /** Where a page is in physical memory, and what the processor lets be done with it. */
  datatype Access =
    | Denied
    | Granted(base: nat, bytes: nat, write: bool, user: bool, execute: bool, global: bool, through: bool)

  /** What a final entry grants by itself. */
  function Grants(e: nat, level: nat): Access
  {
    if !Present(e) then Denied
    else Granted(Frame(e) - Frame(e) % PageBytes(level), PageBytes(level), Writable(e), UserMode(e), !NoExecute(e),
                 Global(e), WriteThrough(e))
  }

  /** Through a table entry a page can be written or used from user mode only if the entry allows it, and
      executed only if it does not forbid it. */
  function Through(e: nat, a: Access): Access
  {
    if a.Denied? then Denied
    else a.(write := a.write && Writable(e), user := a.user && UserMode(e), execute := a.execute && !NoExecute(e))
  }

  /** The access rights of a page, from the entries of every level (Intel SDM volume 3A, section 4.6). */
  function Follow(m: Tables, t: nat, d: seq<nat>, level: nat): Access
    requires |d| == LEVELS && level < LEVELS
    decreases LEVELS - level
  {
    if t !in m || |m[t]| != ENTRIES || d[level] >= ENTRIES then Denied else
    var e := m[t][d[level]];
    if !Present(e) then Denied
    else if level + 1 == LEVELS || Large(e, level) then Grants(e, level)
    else Through(e, Follow(m, Frame(e), d, level + 1))
  }

  /** The tables of the tree by the index path that leads to them. */
  type Tree = map<seq<nat>, nat>

  ghost predicate TableOk(m: Tables, tr: Tree, q: seq<nat>)
  {
    q in tr && |q| < LEVELS && tr[q] in m && |m[tr[q]]| == ENTRIES && tr[q] % 4096 == 0 && tr[q] < 0x10_0000_0000_0000
  }

  /** The parent of a table is a table, and holds it under an index in range. */
  ghost predicate Rooted(tr: Tree, q: seq<nat>)
  {
    q == [] || (q[..|q| - 1] in tr && q[|q| - 1] < ENTRIES)
  }

  /** Entry `i` of table `q` leads to a table exactly when the path q + [i] is in the tree. */
  ghost predicate LinkOk(m: Tables, tr: Tree, q: seq<nat>, i: nat)
  {
    q in tr && tr[q] in m && |m[tr[q]]| == ENTRIES && i < ENTRIES &&
    var e := m[tr[q]][i];
    && (q + [i] in tr <==> Present(e) && !Large(e, |q|))
    && (q + [i] in tr ==> e == tr[q + [i]] + TABLE_FLAGS)
  }

  /** A tree of tables: every table is reached by one path only. */
  ghost predicate TreeOk(m: Tables, tr: Tree, root: nat)
  {
    && [] in tr && tr[[]] == root
    && (forall q {:trigger TableOk(m, tr, q)} :: q in tr ==> TableOk(m, tr, q))
    && (forall q {:trigger Rooted(tr, q)} :: q in tr ==> Rooted(tr, q))
    && (forall q, i {:trigger LinkOk(m, tr, q, i)} :: q in tr && |q| + 1 < LEVELS && 0 <= i < ENTRIES ==>
            LinkOk(m, tr, q, i))
    && (forall q, r {:trigger tr[q], tr[r]} :: q in tr && r in tr && tr[q] == tr[r] ==> q == r)
  }

  function WithEntry(t: seq<nat>, i: nat, e: nat): seq<nat>
    requires i < |t|
  {
    t[i := e]
  }

  function Put(m: Tables, t: nat, i: nat, e: nat): Tables
    requires t in m && i < |m[t]|
  {
    m[t := WithEntry(m[t], i, e)]
  }

  ghost predicate Indices(d: seq<nat>)
  {
    |d| == LEVELS && forall i :: 0 <= i < LEVELS ==> d[i] < ENTRIES
  }

  lemma FrameOfTable(a: nat)
    requires a % 4096 == 0 && a < 0x10_0000_0000_0000
    ensures Frame(a + TABLE_FLAGS) == a && Present(a + TABLE_FLAGS) && (a + TABLE_FLAGS) / 128 % 2 == 0
  {
    assert a == 4096 * (a / 4096);
    assert (a + 3) / 4096 == a / 4096;
  }

  /** One step of the walk inside the tree. */
  lemma WalkStep(m: Tables, tr: Tree, root: nat, d: seq<nat>, level: nat)
    requires TreeOk(m, tr, root) && Indices(d) && level < LEVELS && d[..level] in tr
    ensures tr[d[..level]] in m && |m[tr[d[..level]]]| == ENTRIES
    ensures Walk(m, tr[d[..level]], d, level) ==
      if level + 1 < LEVELS && d[..level + 1] in tr then Walk(m, tr[d[..level + 1]], d, level + 1)
      else Ends(m[tr[d[..level]]][d[level]], level)
  {
    var q := d[..level];
    assert TableOk(m, tr, q);
    if level + 1 < LEVELS {
      assert LinkOk(m, tr, q, d[level]);
      assert d[..level + 1] == q + [d[level]];
      if d[..level + 1] in tr {
        assert TableOk(m, tr, d[..level + 1]);
        FrameOfTable(tr[d[..level + 1]]);
      }
    } else {
      assert d[..level + 1] in tr ==> TableOk(m, tr, d[..level + 1]);
    }
  }

  lemma TableGrants(a: nat)
    requires a % 4096 == 0 && a < 0x10_0000_0000_0000
    ensures Writable(a + TABLE_FLAGS) && !UserMode(a + TABLE_FLAGS) && !NoExecute(a + TABLE_FLAGS)
  {
    hide Writable, UserMode, NoExecute;
    var f := a / 4096;
    TableWritable(f);
    TableSupervisor(f);
    TableRuns(a);
  }

  lemma TableWritable(f: nat)
    ensures Writable(4096 * f + TABLE_FLAGS)
  {
    BitAt(4096 * f + TABLE_FLAGS, 2, 1024 * f, 1, 1);
  }

  lemma TableSupervisor(f: nat)
    ensures !UserMode(4096 * f + TABLE_FLAGS)
  {
    BitAt(4096 * f + TABLE_FLAGS, 4, 512 * f, 0, 3);
  }

  lemma TableRuns(a: nat)
    requires a < 0x10_0000_0000_0000
    ensures !NoExecute(a + TABLE_FLAGS)
  {
    BitAt(a + TABLE_FLAGS, 0x8000_0000_0000_0000, 0, 0, a + TABLE_FLAGS);
  }

  /** Entry `i` of table `t` leads to table `c` and takes nothing away but user mode. */
  predicate Links(m: Tables, t: nat, i: nat, c: nat)
  {
    && t in m && i < |m[t]|
    && var e := m[t][i]; Present(e) && Frame(e) == c && Writable(e) && !UserMode(e) && !NoExecute(e)
  }

  lemma LinkOpen(m: Tables, tr: Tree, root: nat, q: seq<nat>, i: nat)
    requires TreeOk(m, tr, root) && q in tr && i < ENTRIES && q + [i] in tr
    ensures Links(m, tr[q], i, tr[q + [i]])
  {
    hide Frame, Writable, UserMode, NoExecute;
    assert TableOk(m, tr, q) && TableOk(m, tr, q + [i]) && LinkOk(m, tr, q, i);
    FrameOfTable(tr[q + [i]]);
    TableGrants(tr[q + [i]]);
  }

  /** The access that the last entry grants, when tables above it allow writing and not user mode. */
  function Supervised(t: Translation, level: nat): Access
  {
    if t.Fault? then Denied
    else
      var a := Grants(t.entry, t.level);
      if a.Granted? && t.level > level then a.(user := false) else a
  }

  /** In the tree, tables restrict a page in nothing but user mode. */
  lemma {:induction false} FollowWalk(m: Tables, tr: Tree, root: nat, d: seq<nat>, level: nat)
    requires TreeOk(m, tr, root) && Indices(d) && level < LEVELS && d[..level] in tr
    ensures Follow(m, tr[d[..level]], d, level) == Supervised(Walk(m, tr[d[..level]], d, level), level)
    decreases LEVELS - level
  {
    hide Grants, Large, Frame, Writable, UserMode, NoExecute;
    var q := d[..level];
    assert TableOk(m, tr, q);
    WalkStep(m, tr, root, d, level);
    if level + 1 < LEVELS {
      assert LinkOk(m, tr, q, d[level]);
      assert d[..level + 1] == q + [d[level]];
      if d[..level + 1] in tr {
        assert TableOk(m, tr, d[..level + 1]);
        FrameOfTable(tr[d[..level + 1]]);
        TableGrants(tr[d[..level + 1]]);
        FollowWalk(m, tr, root, d, level + 1);
        WalkLevel(m, tr[d[..level + 1]], d, level + 1);
      }
    }
  }

  lemma {:induction false} WalkLevel(m: Tables, t: nat, d: seq<nat>, level: nat)
    requires |d| == LEVELS && level < LEVELS
    ensures var r := Walk(m, t, d, level); r.Page? ==> level <= r.level < LEVELS && Present(r.entry)
    decreases LEVELS - level
  {
    hide Large, Frame;
    if t in m && |m[t]| == ENTRIES && d[level] < ENTRIES && level + 1 < LEVELS {
      WalkLevel(m, Frame(m[t][d[level]]), d, level + 1);
    }
  }

  /** Writing a final entry (a page, a large page or nothing) where no table hangs keeps the
      tree and changes the translation of exactly the pages below that entry. */
  lemma {:induction false} EntryWalk(m: Tables, tr: Tree, root: nat, q: seq<nat>, i: nat, e: nat, d: seq<nat>,
                                     level: nat)
    requires TreeOk(m, tr, root) && q in tr && i < ENTRIES && q + [i] !in tr
    requires tr[q] in m && |m[tr[q]]| == ENTRIES && TreeOk(Put(m, tr[q], i, e), tr, root)
    requires Indices(d) && level < LEVELS && d[..level] in tr && |q| < LEVELS
    ensures Walk(Put(m, tr[q], i, e), tr[d[..level]], d, level) ==
      if level <= |q| && d[..|q| + 1] == q + [i] then Ends(e, |q|) else Walk(m, tr[d[..level]], d, level)
    decreases LEVELS - level
  {
    var m' := Put(m, tr[q], i, e);
    WalkStep(m, tr, root, d, level);
    WalkStep(m', tr, root, d, level);
    assert d[..level + 1] == d[..level] + [d[level]];
    if level + 1 < LEVELS && d[..level + 1] in tr {
      EntryWalk(m, tr, root, q, i, e, d, level + 1);
      if level <= |q| && d[..|q| + 1] == q + [i] {
        assert level < |q|;
      }
    } else if d[..level] == q {
    } else {
      assert tr[d[..level]] != tr[q];
      if level <= |q| && d[..|q| + 1] == q + [i] {
        assert d[..|q|] == q;
        assert q[..level + 1] == d[..level + 1];
        PrefixInTree(m, tr, root, q, level + 1);
      }
    }
  }

  lemma {:induction false} PrefixInTree(m: Tables, tr: Tree, root: nat, q: seq<nat>, k: nat)
    requires TreeOk(m, tr, root) && q in tr && k <= |q|
    ensures q[..k] in tr
    decreases |q|
  {
    if k < |q| {
      assert Rooted(tr, q);
      PrefixInTree(m, tr, root, q[..|q| - 1], k);
      assert q[..|q| - 1][..k] == q[..k];
    } else {
      assert q[..k] == q;
    }
  }

  lemma EntryKeepsTree(m: Tables, tr: Tree, root: nat, q: seq<nat>, i: nat, e: nat)
    requires TreeOk(m, tr, root) && q in tr && i < ENTRIES && q + [i] !in tr
    requires |q| + 1 == LEVELS || !Present(e) || Large(e, |q|)
    ensures tr[q] in m && |m[tr[q]]| == ENTRIES && |q| < LEVELS
    ensures TreeOk(Put(m, tr[q], i, e), tr, root)
  {
    assert TableOk(m, tr, q);
    var m' := Put(m, tr[q], i, e);
    forall r | r in tr ensures TableOk(m', tr, r)
    {
      assert TableOk(m, tr, r);
    }
    forall r, j | r in tr && |r| + 1 < LEVELS && 0 <= j < ENTRIES ensures LinkOk(m', tr, r, j)
    {
      assert LinkOk(m, tr, r, j) && TableOk(m, tr, r);
      if tr[r] == tr[q] { assert r == q; }
    }
  }

  ghost predicate Zeroed(m: Tables, t: nat)
  {
    t in m && |m[t]| == ENTRIES && forall i :: 0 <= i < ENTRIES ==> m[t][i] == 0
  }

  /** Hanging a fresh zeroed table into an absent entry keeps the tree. */
  lemma LinkKeepsTree(m: Tables, tr: Tree, root: nat, q: seq<nat>, i: nat, c: nat)
    requires TreeOk(m, tr, root) && q in tr && |q| + 1 < LEVELS && i < ENTRIES
    requires Zeroed(m, c) && c % 4096 == 0 && c < 0x10_0000_0000_0000 && forall r :: r in tr ==> tr[r] != c
    requires tr[q] in m && |m[tr[q]]| == ENTRIES && !Present(m[tr[q]][i])
    ensures TreeOk(Put(m, tr[q], i, c + TABLE_FLAGS), tr[q + [i] := c], root)
  {
    var m', tr' := Put(m, tr[q], i, c + TABLE_FLAGS), tr[q + [i] := c];
    assert LinkOk(m, tr, q, i);
    assert q + [i] !in tr;
    FrameOfTable(c);
    forall r | r in tr' ensures TableOk(m', tr', r)
    {
      if r != q + [i] { assert TableOk(m, tr, r); }
    }
    forall r | r in tr' ensures Rooted(tr', r)
    {
      if r != q + [i] { assert Rooted(tr, r); }
      else { assert r[..|r| - 1] == q; }
    }
    forall r, j | r in tr' && |r| + 1 < LEVELS && 0 <= j < ENTRIES ensures LinkOk(m', tr', r, j)
    {
      LinkStays(m, tr, root, q, i, c, r, j);
    }
  }

  lemma LinkStays(m: Tables, tr: Tree, root: nat, q: seq<nat>, i: nat, c: nat, r: seq<nat>, j: nat)
    requires TreeOk(m, tr, root) && q in tr && |q| + 1 < LEVELS && i < ENTRIES && q + [i] !in tr
    requires Zeroed(m, c) && Present(c + TABLE_FLAGS) && (c + TABLE_FLAGS) / 128 % 2 == 0
    requires forall r :: r in tr ==> tr[r] != c
    requires tr[q] in m && |m[tr[q]]| == ENTRIES
    requires r in tr || r == q + [i]
    requires |r| + 1 < LEVELS && j < ENTRIES
    ensures LinkOk(Put(m, tr[q], i, c + TABLE_FLAGS), tr[q + [i] := c], r, j)
  {
    var tr' := tr[q + [i] := c];
    if r == q + [i] {
      assert (r + [j])[..|r + [j]| - 1] == r;
      assert r + [j] in tr ==> Rooted(tr, r + [j]);
      assert r + [j] != q + [i];
    } else {
      assert LinkOk(m, tr, r, j);
      if r + [j] == q + [i] {
        assert r == (r + [j])[..|r|] && q == (q + [i])[..|q|];
        assert j == (r + [j])[|r|] && i == (q + [i])[|q|];
      } else if tr[r] == tr[q] {
        assert r == q;
      }
    }
  }

  /** Hanging a zeroed table into an absent entry changes no translation. */
  lemma {:induction false} LinkWalk(m: Tables, tr: Tree, root: nat, q: seq<nat>, i: nat, c: nat, d: seq<nat>,
                                    level: nat)
    requires TreeOk(m, tr, root) && q in tr && |q| + 1 < LEVELS && i < ENTRIES && q + [i] !in tr
    requires Zeroed(m, c) && forall r :: r in tr ==> tr[r] != c
    requires tr[q] in m && |m[tr[q]]| == ENTRIES && !Present(m[tr[q]][i])
    requires TreeOk(Put(m, tr[q], i, c + TABLE_FLAGS), tr[q + [i] := c], root)
    requires Indices(d) && level < LEVELS && d[..level] in tr
    ensures Walk(Put(m, tr[q], i, c + TABLE_FLAGS), tr[d[..level]], d, level) == Walk(m, tr[d[..level]], d, level)
    decreases LEVELS - level
  {
    var m', tr' := Put(m, tr[q], i, c + TABLE_FLAGS), tr[q + [i] := c];
    assert d[..level + 1] == d[..level] + [d[level]];
    assert d[..level] != q + [i];
    WalkStep(m, tr, root, d, level);
    WalkStep(m', tr', root, d, level);
    if level + 1 < LEVELS && d[..level + 1] in tr {
      assert d[..level + 1] != q + [i];
      LinkWalk(m, tr, root, q, i, c, d, level + 1);
    } else if d[..level + 1] == q + [i] {
      assert d[..level] == q by {
        assert (q + [i])[..|q|] == q;
        assert (d[..level] + [d[level]])[..level] == d[..level];
      }
      assert d[level] == i by { assert (q + [i])[|q|] == i; assert (d[..level] + [d[level]])[level] == d[level]; }
      WalkStep(m', tr', root, d, level + 1);
      NoTableBelow(m, tr, root, q, i, d, level);
    } else if d[..level] != q {
      assert tr[d[..level]] != tr[q];
    }
  }

  lemma NoTableBelow(m: Tables, tr: Tree, root: nat, q: seq<nat>, i: nat, d: seq<nat>, level: nat)
    requires TreeOk(m, tr, root) && q + [i] !in tr && Indices(d) && level + 1 < LEVELS && d[..level + 1] == q + [i]
    ensures level + 2 < LEVELS ==> d[..level + 2] !in tr
  {
    if level + 2 < LEVELS {
      assert d[..level + 2][..level + 1] == d[..level + 1];
      assert d[..level + 2] in tr ==> Rooted(tr, d[..level + 2]);
    }
  }

  /** The walk from the root passes through every table of the tree on its path. */
  lemma {:induction false} WalkThrough(m: Tables, tr: Tree, root: nat, d: seq<nat>, level: nat)
    requires TreeOk(m, tr, root) && Indices(d) && level < LEVELS && d[..level] in tr
    ensures Walk(m, root, d, 0) == Walk(m, tr[d[..level]], d, level)
  {
    if level > 0 {
      assert Rooted(tr, d[..level]);
      assert d[..level][..level - 1] == d[..level - 1];
      WalkThrough(m, tr, root, d, level - 1);
      WalkStep(m, tr, root, d, level - 1);
    } else {
      assert d[..0] == [];
    }
  }

  /** Entry writes, seen from the root. */
  lemma EntryEffect(m: Tables, tr: Tree, root: nat, q: seq<nat>, i: nat, e: nat)
    requires TreeOk(m, tr, root) && q in tr && i < ENTRIES && q + [i] !in tr
    requires |q| + 1 == LEVELS || !Present(e) || Large(e, |q|)
    ensures tr[q] in m && |m[tr[q]]| == ENTRIES && |q| < LEVELS
    ensures TreeOk(Put(m, tr[q], i, e), tr, root)
    ensures forall d :: Indices(d) ==>
      Walk(Put(m, tr[q], i, e), root, d, 0) == if d[..|q| + 1] == q + [i] then Ends(e, |q|) else Walk(m, root, d, 0)
  {
    hide TreeOk, Walk;
    EntryKeepsTree(m, tr, root, q, i, e);
    TreeRoot(m, tr, root);
    forall d | Indices(d)
      ensures Walk(Put(m, tr[q], i, e), root, d, 0) == if d[..|q| + 1] == q + [i] then Ends(e, |q|)
        else Walk(m, root, d, 0)
    {
      assert d[..0] == [];
      EntryWalk(m, tr, root, q, i, e, d, 0);
    }
  }

  lemma TreeRoot(m: Tables, tr: Tree, root: nat)
    requires TreeOk(m, tr, root)
    ensures [] in tr && tr[[]] == root
  {
  }

  /** Linking a zeroed table, seen from the root. */
  lemma LinkEffect(m: Tables, tr: Tree, root: nat, q: seq<nat>, i: nat, c: nat)
    requires TreeOk(m, tr, root) && q in tr && |q| + 1 < LEVELS && i < ENTRIES
    requires Zeroed(m, c) && c % 4096 == 0 && c < 0x10_0000_0000_0000 && forall r :: r in tr ==> tr[r] != c
    requires tr[q] in m && |m[tr[q]]| == ENTRIES && !Present(m[tr[q]][i])
    ensures TreeOk(Put(m, tr[q], i, c + TABLE_FLAGS), tr[q + [i] := c], root)
    ensures forall d :: Indices(d) ==> Walk(Put(m, tr[q], i, c + TABLE_FLAGS), root, d, 0) == Walk(m, root, d, 0)
  {
    hide TreeOk, Walk;
    LinkKeepsTree(m, tr, root, q, i, c);
    AbsentEntry(m, tr, root, q, i);
    TreeRoot(m, tr, root);
    forall d | Indices(d)
      ensures Walk(Put(m, tr[q], i, c + TABLE_FLAGS), root, d, 0) == Walk(m, root, d, 0)
    {
      assert d[..0] == [];
      LinkWalk(m, tr, root, q, i, c, d, 0);
    }
  }

  lemma AbsentEntry(m: Tables, tr: Tree, root: nat, q: seq<nat>, i: nat)
    requires TreeOk(m, tr, root) && q in tr && |q| + 1 < LEVELS && i < ENTRIES
    ensures tr[q] in m && |m[tr[q]]| == ENTRIES
    ensures q + [i] in tr <==> Present(m[tr[q]][i]) && !Large(m[tr[q]][i], |q|)
    ensures q + [i] in tr ==> m[tr[q]][i] == tr[q + [i]] + TABLE_FLAGS
  {
    assert LinkOk(m, tr, q, i);
  }

  lemma TableInTree(m: Tables, tr: Tree, root: nat, q: seq<nat>)
    requires TreeOk(m, tr, root) && q in tr
    ensures |q| < LEVELS && tr[q] in m && |m[tr[q]]| == ENTRIES && tr[q] % 4096 == 0 && tr[q] < 0x10_0000_0000_0000
  {
    assert TableOk(m, tr, q);
  }

  /** A page is open when its walk does not end at a large page. */
  predicate Open(t: Translation)
  {
    t.Page? ==> t.level + 1 == LEVELS
  }

  /** On an open page's path no table entry is a large page. */
  lemma OpenEntry(m: Tables, tr: Tree, root: nat, d: seq<nat>, level: nat)
    requires TreeOk(m, tr, root) && Indices(d) && level + 1 < LEVELS && d[..level] in tr && Open(Walk(m, root, d, 0))
    ensures tr[d[..level]] in m && |m[tr[d[..level]]]| == ENTRIES
    ensures !(Present(m[tr[d[..level]]][d[level]]) && Large(m[tr[d[..level]]][d[level]], level))
  {
    WalkThrough(m, tr, root, d, level);
    WalkStep(m, tr, root, d, level);
    assert LinkOk(m, tr, d[..level], d[level]);
    assert d[..level + 1] == d[..level] + [d[level]];
  }
}
