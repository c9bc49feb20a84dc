/** Physical frames and the 4-level page tables of kernel/mm/vmm.c as a pure state machine,
    for the lower half of the address space. Frames come from alloc_page: the lowest free
    frame, zeroed. Address spaces are named by virtual page number (address / 4096). */
module PagingModel {
  import opened Common

  const FRAMES: nat := 0x10_0000            // PMM_MAX_PAGES
  const LOW_PAGES: nat := 0x8_0000_0000     // 2^35 pages in the lower half
  const TWO40: nat := 0x100_0000_0000
  const NX: nat := 0x8000_0000_0000_0000

  /** 512 eight-byte entries. */
  type Table = t: seq<nat> | |t| == 512 witness seq(512, _ => 0)

  function ZeroTable(): Table { seq(512, _ => 0) }

  type Index = i: int | 0 <= i < 512

  /** The indices that lead from one table down to another. */
  type Trail = seq<Index>

  datatype Mem = Mem(free: set<nat>, ram: seq<Table>)

  // ----------------------------------------------------------------- entries

  predicate Present(e: nat) { e % 2 == 1 }

  /** entry & PHYS_MASK, as a frame number. */
  function FrameOf(e: nat): nat { e / PAGE % TWO40 }

  predicate FlagSet(flags: nat, bit: nat)
    requires bit > 0
  {
    flags / bit % 2 == 1
  }

  /** The entry that makes `frame` the next-level table. */
  function TableEntry(frame: nat, flags: nat): nat {
    frame * PAGE + 3 + (if FlagSet(flags, 4) then 4 else 0)
  }

  /** The leaf entry for a physical address. VM_EXEC and PF_USER are the same bit. */
  function LeafEntry(phys: nat, flags: nat): nat {
    FrameOf(phys) * PAGE + 1
    + (if FlagSet(flags, 2) then 2 else 0)
    + (if FlagSet(flags, 4) then 4 else NX)
  }

  lemma FlagsBelowPage(frame: nat, low: nat)
    requires low < PAGE
    ensures (frame * PAGE + low) / PAGE == frame
  {
  }

  lemma TableEntryDecodes(frame: nat, flags: nat)
    requires frame < TWO40
    ensures Present(TableEntry(frame, flags)) && FrameOf(TableEntry(frame, flags)) == frame
  {
    FlagsBelowPage(frame, if FlagSet(flags, 4) then 7 else 3);
  }

  lemma LeafEntryDecodes(phys: nat, flags: nat)
    ensures Present(LeafEntry(phys, flags)) && FrameOf(LeafEntry(phys, flags)) == FrameOf(phys)
  {
    var f := FrameOf(phys);
    var low := 1 + (if FlagSet(flags, 2) then 2 else 0) + (if FlagSet(flags, 4) then 4 else 0);
    var top := if FlagSet(flags, 4) then 0 else NX / PAGE;
    Decoded(f, low, top);
    assert LeafEntry(phys, flags) == (f + top) * PAGE + low;
  }

  lemma Decoded(f: nat, low: nat, top: nat)
    requires f < TWO40 && low < PAGE && (top == 0 || top == NX / PAGE)
    ensures FrameOf((f + top) * PAGE + low) == f
    ensures low % 2 == 1 ==> ((f + top) * PAGE + low) % 2 == 1
  {
    FlagsBelowPage(f + top, low);
    assert NX / PAGE == 2048 * TWO40;
    assert (f + top) % TWO40 == f;
    assert (f + top) * PAGE == 2 * (2048 * (f + top));
  }

  // -------------------------------------------------------------------- walk

  /** The lowest k base-512 digits of v, highest first. */
  function Digits(v: nat, k: nat): (p: Trail)
    ensures |p| == k
    decreases v, k
  {
    if k == 0 then [] else Digits(v / 512, k - 1) + [v % 512]
  }

  /** The four table indices of page v, root first. */
  function Path(v: nat): Trail { Digits(v, 4) }

  /** They are the PML4, PDPT, PD and PT indices the C macros cut out of the address. */
  lemma PathIs(v: nat)
    ensures Path(v) == [v / 0x800_0000 % 512, v / 0x4_0000 % 512, v / 512 % 512, v % 512]
  {
    assert Digits(v / 512, 3) == Digits(v / 512 / 512, 2) + [v / 512 % 512];
    assert Digits(v / 512 / 512, 2) == Digits(v / 512 / 512 / 512, 1) + [v / 512 / 512 % 512];
    assert Digits(v / 512 / 512 / 512, 1) == [v / 512 / 512 / 512 % 512];
    assert v / 512 / 512 == v / 0x4_0000 && v / 512 / 512 / 512 == v / 0x800_0000;
  }

  lemma {:induction false} DigitsDetermine(v: nat, w: nat, k: nat)
    requires Digits(v, k) == Digits(w, k) && High(v, k) == High(w, k)
    ensures v == w
    decreases k
  {
    if k > 0 {
      assert Digits(v, k)[k - 1] == Digits(w, k)[k - 1];
      assert Digits(v, k)[..k - 1] == Digits(v / 512, k - 1) && Digits(w, k)[..k - 1] == Digits(w / 512, k - 1);
      DigitsDetermine(v / 512, w / 512, k - 1);
    }
  }

  function High(v: nat, k: nat): nat
    decreases k
  {
    if k == 0 then v else High(v / 512, k - 1)
  }

  lemma PathDetermines(v: nat, w: nat)
    requires v < LOW_PAGES && w < LOW_PAGES && Path(v) == Path(w)
    ensures v == w
  {
    DigitsDetermine(v, w, 4);
  }

  /** Follow one entry; None when it is not present (or its table lies outside memory). */
  function Child(m: Mem, table: nat, i: Index): Option<nat>
  {
    if table < |m.ram| && Present(m.ram[table][i]) then Some(FrameOf(m.ram[table][i])) else None
  }

  /** Follow the indices p from `table`. */
  function Walk(m: Mem, table: nat, p: Trail): Option<nat>
    decreases |p|
  {
    if p == [] then Some(table)
    else
      var c := Child(m, table, p[0]);
      if c.None? then None else Walk(m, c.value, p[1..])
  }

  /** The frame page v is mapped to. */
  function Translate(m: Mem, root: nat, v: nat): Option<nat> { Walk(m, root, Path(v)) }

  /** The tables as one flat map from lower-half pages to frames. */
  ghost function Flat(m: Mem, root: nat): map<nat, nat> {
    map v | 0 <= v < LOW_PAGES && Translate(m, root, v).Some? :: Translate(m, root, v).value
  }

  // -------------------------------------------------------------- operations

  ghost predicate IsLowest(free: set<nat>, f: nat) { f in free && forall g :: g in free ==> f <= g }

  ghost function Lowest(free: set<nat>): (f: nat)
    requires free != {}
    ensures IsLowest(free, f)
  {
    LowestExists(free);
    var f :| IsLowest(free, f);
    f
  }

  lemma {:induction false} LowestExists(free: set<nat>)
    requires free != {}
    ensures exists f :: IsLowest(free, f)
    decreases |free|
  {
    var x :| x in free;
    if free == {x} {
      assert IsLowest(free, x);
    } else {
      LowestExists(free - {x});
      var y :| IsLowest(free - {x}, y);
      assert forall g :: g in free ==> g == x || g in free - {x};
      assert IsLowest(free, if x < y then x else y);
    }
  }

  ghost predicate Sane(m: Mem) {
    |m.ram| == FRAMES && forall f :: f in m.free ==> f < FRAMES
  }

  /** alloc_page: the lowest free frame, taken and zeroed. */
  ghost function Taken(m: Mem): (r: (Mem, nat))
    requires Sane(m) && m.free != {}
    ensures Sane(r.0) && r.1 in m.free
  {
    var f := Lowest(m.free);
    (Mem(m.free - {f}, m.ram[f := ZeroTable()]), f)
  }

  function Written(m: Mem, table: nat, i: Index, e: nat): Mem
    requires table < |m.ram|
  {
    m.(ram := m.ram[table := m.ram[table][i := e]])
  }

  /** get_or_alloc_table; None is the out-of-memory panic. */
  ghost function GetOrAlloc(m: Mem, table: nat, i: Index, flags: nat): (r: Option<(Mem, nat)>)
    requires Sane(m) && table < FRAMES
    ensures r.Some? ==> Sane(r.value.0)
  {
    if Present(m.ram[table][i]) then Some((m, FrameOf(m.ram[table][i])))
    else if m.free == {} then None
    else
      var (m1, f) := Taken(m);
      Some((Written(m1, table, i, TableEntry(f, flags)), f))
  }

  /** A tree of tables below the root: `paths` gives every table its indices from the root,
      following them leads to that table, and every present entry leads to a table. */
  ghost predicate Tree(m: Mem, root: nat, paths: map<nat, Trail>) {
    && Sane(m)
    && root in paths && paths[root] == []
    && (forall f :: f in paths ==> f < FRAMES && f !in m.free && Low([], paths[f]) && |paths[f]| <= 3)
    && (forall f {:trigger Walk(m, root, paths[f])} :: f in paths ==> Walk(m, root, paths[f]) == Some(f))
    && (forall f, i: Index :: f in paths && |paths[f]| < 3 && Low(paths[f], [i]) && Child(m, f, i).Some? ==>
          Child(m, f, i).value in paths && paths[Child(m, f, i).value] == paths[f] + [i])
  }

  /** Going on from a table at trail q along p stays in the lower half: the root index is below 256. */
  ghost predicate Low(q: Trail, p: Trail) { q == [] && p != [] ==> p[0] < 256 }

  lemma LowPath(v: nat)
    requires v < LOW_PAGES
    ensures Low([], Path(v))
  {
    PathIs(v);
  }

  /** m' is m with one more empty table t, taken from the free frames and hung at entry i. */
  ghost predicate Hung(m: Mem, m': Mem, table: nat, i: Index, t: nat)
  {
    && Sane(m') && t in m.free && m'.free == m.free - {t}
    && Child(m, table, i).None? && Child(m', table, i) == Some(t)
    && (forall j: Index :: Child(m', t, j).None?)
    && (forall f, j: Index :: f != t && !(f == table && j == i) ==> Child(m', f, j) == Child(m, f, j))
  }

  lemma GetOrAllocHangs(m: Mem, table: nat, i: Index, flags: nat)
    requires Sane(m) && table < FRAMES && table !in m.free
    requires Child(m, table, i).None? && m.free != {}
    ensures var r := GetOrAlloc(m, table, i, flags);
            r.Some? && Hung(m, r.value.0, table, i, r.value.1)
  {
    var (m', t) := GetOrAlloc(m, table, i, flags).value;
    TableEntryDecodes(t, flags);
    assert m'.ram[t] == ZeroTable();
  }

  lemma HungTree(m: Mem, m': Mem, root: nat, paths: map<nat, Trail>, table: nat, i: Index, t: nat)
    requires Tree(m, root, paths) && table in paths && |paths[table]| < 3 && Low(paths[table], [i])
    requires Hung(m, m', table, i, t)
    ensures Tree(m', root, paths[t := paths[table] + [i]])
  {
    var p := paths[t := paths[table] + [i]];
    assert t !in paths;
    forall f, j: Index | f in p && |p[f]| < 3 && Low(p[f], [j]) && Child(m', f, j).Some?
      ensures Child(m', f, j).value in p && p[Child(m', f, j).value] == p[f] + [j]
    {
      if f == table && j == i {
      } else {
        assert f != t;
        assert Child(m, f, j) == Child(m', f, j);
      }
    }
    forall f | f in paths
      ensures Walk(m', root, paths[f]) == Some(f)
    {
      HungReaches(m, m', root, paths, table, i, t, root, paths[f]);
    }
    WalkOn(m', root, paths[table], i);
  }

  lemma {:induction false} WalkOn(m: Mem, f: nat, p: Trail, i: Index)
    ensures Walk(m, f, p + [i]) == var x := Walk(m, f, p); if x.None? then None else Child(m, x.value, i)
    decreases |p|
  {
    if p != [] {
      assert (p + [i])[1..] == p[1..] + [i];
      var c := Child(m, f, p[0]);
      if c.Some? { WalkOn(m, c.value, p[1..], i); }
    } else {
      assert [] + [i] == [i];
      assert [i][1..] == [];
    }
  }

  /** Tables already reached stay reached. */
  lemma {:induction false} HungReaches(m: Mem, m': Mem, root: nat, paths: map<nat, Trail>, table: nat, i: Index, t: nat,
                                       f: nat, p: Trail)
    requires Tree(m, root, paths) && Hung(m, m', table, i, t)
    requires f in paths && |paths[f]| + |p| <= 3 && Low(paths[f], p)
    requires Walk(m, f, p).Some?
    ensures Walk(m', f, p) == Walk(m, f, p)
    decreases |p|
  {
    if p != [] {
      assert f != t;
      Extends(paths[f], p);
      HungReaches(m, m', root, paths, table, i, t, Child(m, f, p[0]).value, p[1..]);
    }
  }

  /** Hanging an empty table changes no walk through all four levels. */
  lemma {:induction false} HungWalk(m: Mem, m': Mem, root: nat, paths: map<nat, Trail>, table: nat, i: Index, t: nat,
                                    f: nat, p: Trail)
    requires Tree(m, root, paths) && table in paths && |paths[table]| < 3
    requires Hung(m, m', table, i, t)
    requires f in paths && |paths[f]| + |p| == 4 && Low(paths[f], p)
    ensures Walk(m', f, p) == Walk(m, f, p)
    decreases |p|
  {
    if f == table && p[0] == i {
      assert |p| >= 2 && p[1..][0] == p[1];
      assert Child(m', t, p[1]).None?;
    } else {
      assert f != t;
      var c := Child(m, f, p[0]);
      if c.Some? && |p| > 1 {
        Extends(paths[f], p);
        HungWalk(m, m', root, paths, table, i, t, c.value, p[1..]);
      }
    }
  }

  lemma Extends(q: Trail, p: Trail)
    requires p != []
    ensures q + p == (q + [p[0]]) + p[1..]
  {
  }

  /** What get_or_alloc_table does: the tree gains at most one table, walks that succeed stay,
      and the flat map does not change. */
  lemma GetOrAllocTree(m: Mem, root: nat, paths: map<nat, Trail>, table: nat, i: Index, flags: nat)
      returns (paths': map<nat, Trail>)
    requires Tree(m, root, paths) && table in paths && |paths[table]| < 3 && Low(paths[table], [i])
    requires GetOrAlloc(m, table, i, flags).Some?
    ensures var (m', t) := GetOrAlloc(m, table, i, flags).value;
            && Tree(m', root, paths')
            && t in paths' && paths'[t] == paths[table] + [i]
            && (forall f :: f in paths ==> f in paths' && paths'[f] == paths[f])
            && (forall f :: f in paths' ==> f in paths || f in m.free)
            && m'.free <= m.free
            && Flat(m', root) == Flat(m, root)
  {
    var (m', t) := GetOrAlloc(m, table, i, flags).value;
    if Child(m, table, i).Some? {
      paths' := paths;
    } else {
      GetOrAllocHangs(m, table, i, flags);
      HungTree(m, m', root, paths, table, i, t);
      paths' := paths[t := paths[table] + [i]];
      assert t !in paths;
      forall v | 0 <= v < LOW_PAGES
        ensures Translate(m', root, v) == Translate(m, root, v)
      {
        LowPath(v);
        assert [] + Path(v) == Path(v);
        HungWalk(m, m', root, paths, table, i, t, root, Path(v));
      }
    }
  }

  // ---------------------------------------------------------- map and unmap

  /** The get_or_alloc_table calls of map_page, from `table` along the indices p. */
  ghost function EnsureTables(m: Mem, table: nat, p: Trail, flags: nat): (r: Option<(Mem, nat)>)
    requires Sane(m)
    ensures r.Some? ==> Sane(r.value.0) && r.value.1 < FRAMES
    decreases |p|
  {
    if table >= FRAMES then None
    else if p == [] then Some((m, table))
    else
      var a := GetOrAlloc(m, table, p[0], flags);
      if a.None? then None else EnsureTables(a.value.0, a.value.1, p[1..], flags)
  }

  /** map_page; None is the out-of-memory panic. */
  ghost function MapPage(m: Mem, root: nat, phys: nat, v: nat, flags: nat): (r: Option<Mem>)
    requires Sane(m)
    ensures r.Some? ==> Sane(r.value)
  {
    var t := EnsureTables(m, root, Path(v)[..3], flags);
    if t.None? then None else Some(Written(t.value.0, t.value.1, v % 512, LeafEntry(phys, flags)))
  }

  /** unmap_page: returns early at the first absent table. */
  function UnmapPage(m: Mem, root: nat, v: nat): Mem {
    var t := Walk(m, root, Path(v)[..3]);
    if t.Some? && t.value < |m.ram| then Written(m, t.value, v % 512, 0) else m
  }

  /** Inside the tree, a walk of at most three levels ends at the table with that path. */
  lemma {:induction false} WalkStays(m: Mem, root: nat, paths: map<nat, Trail>, f: nat, p: Trail)
    requires Tree(m, root, paths) && f in paths && |paths[f]| + |p| <= 3 && Low(paths[f], p)
    requires Walk(m, f, p).Some?
    ensures Walk(m, f, p).value in paths && paths[Walk(m, f, p).value] == paths[f] + p
    decreases |p|
  {
    if p != [] {
      Extends(paths[f], p);
      WalkStays(m, root, paths, Child(m, f, p[0]).value, p[1..]);
    } else {
      assert paths[f] + [] == paths[f];
    }
  }

  /** A store into a last-level table does not touch the three levels above it. */
  lemma {:induction false} UpperWalk(m: Mem, root: nat, paths: map<nat, Trail>, table: nat, i: Index, e: nat,
                                     f: nat, p: Trail)
    requires Tree(m, root, paths) && table in paths && |paths[table]| == 3
    requires f in paths && |paths[f]| + |p| <= 3 && Low(paths[f], p)
    ensures Walk(Written(m, table, i, e), f, p) == Walk(m, f, p)
    decreases |p|
  {
    if p != [] {
      var m' := Written(m, table, i, e);
      assert f != table;
      assert Child(m', f, p[0]) == Child(m, f, p[0]);
      if Child(m, f, p[0]).Some? {
        Extends(paths[f], p);
        UpperWalk(m, root, paths, table, i, e, Child(m, f, p[0]).value, p[1..]);
      }
    }
  }

  lemma LowPrefix(p: Trail)
    requires Low([], p) && |p| == 4
    ensures Low([], p[..3]) && p == p[..3] + [p[3]] && [] + p[..3] == p[..3]
  {
  }

  lemma LeafWriteKeepsTree(m: Mem, root: nat, paths: map<nat, Trail>, table: nat, i: Index, e: nat)
    requires Tree(m, root, paths) && table in paths && |paths[table]| == 3
    ensures Tree(Written(m, table, i, e), root, paths)
  {
    var m' := Written(m, table, i, e);
    forall f | f in paths
      ensures Walk(m', root, paths[f]) == Some(f)
    {
      assert [] + paths[f] == paths[f];
      UpperWalk(m, root, paths, table, i, e, root, paths[f]);
    }
    assert forall f, j: Index :: f in paths && |paths[f]| < 3 ==> Child(m', f, j) == Child(m, f, j);
  }

  /** A store into a last-level table changes the translation of exactly one page. */
  lemma LeafWrite(m: Mem, root: nat, paths: map<nat, Trail>, table: nat, v: nat, e: nat, w: nat)
    requires Tree(m, root, paths) && table in paths && v < LOW_PAGES && w < LOW_PAGES && paths[table] == Path(v)[..3]
    ensures var m' := Written(m, table, v % 512, e);
            Translate(m', root, w) ==
              if w != v then Translate(m, root, w) else if Present(e) then Some(FrameOf(e)) else None
  {
    var m', i := Written(m, table, v % 512, e), v % 512;
    LowPath(w);
    LowPrefix(Path(w));
    var q := Path(w)[..3];
    UpperWalk(m, root, paths, table, i, e, root, q);
    WalkOn(m, root, q, Path(w)[3]);
    WalkOn(m', root, q, Path(w)[3]);
    var x := Walk(m, root, q);
    if x.Some? {
      WalkStays(m, root, paths, root, q);
      if x.value == table && Path(w)[3] == i { PathDetermines(v, w); }
    }
  }

  /** Walking down with allocation keeps the tree and the flat map, and ends at the table with
      the path asked for. */
  lemma {:induction false} EnsureTablesTree(m: Mem, root: nat, paths: map<nat, Trail>, table: nat, p: Trail, flags: nat)
      returns (paths': map<nat, Trail>)
    requires Tree(m, root, paths) && table in paths && |paths[table]| + |p| <= 3 && Low(paths[table], p)
    requires EnsureTables(m, table, p, flags).Some?
    ensures var (m', t) := EnsureTables(m, table, p, flags).value;
            && Tree(m', root, paths')
            && t in paths' && paths'[t] == paths[table] + p
            && (forall f :: f in paths' ==> f in paths || f in m.free)
            && m'.free <= m.free
            && Flat(m', root) == Flat(m, root)
    decreases |p|
  {
    if p == [] {
      assert paths[table] + p == paths[table];
      paths' := paths;
    } else {
      Extends(paths[table], p);
      var (m1, t1) := GetOrAlloc(m, table, p[0], flags).value;
      var q := GetOrAllocTree(m, root, paths, table, p[0], flags);
      paths' := EnsureTablesTree(m1, root, q, t1, p[1..], flags);
    }
  }

  /** map_page refines an update of the flat map, and keeps the tables a tree. */
  lemma MapPageRefines(m: Mem, root: nat, paths: map<nat, Trail>, phys: nat, v: nat, flags: nat)
      returns (paths': map<nat, Trail>)
    requires Tree(m, root, paths) && v < LOW_PAGES && MapPage(m, root, phys, v, flags).Some?
    ensures var m' := MapPage(m, root, phys, v, flags).value;
            && Tree(m', root, paths')
            && Flat(m', root) == Flat(m, root)[v := FrameOf(phys)]
            && m'.free <= m.free
            && (forall f :: f in paths' ==> f in paths || f in m.free)
  {
    LowPath(v);
    LowPrefix(Path(v));
    var (m1, t) := EnsureTables(m, root, Path(v)[..3], flags).value;
    paths' := EnsureTablesTree(m, root, paths, root, Path(v)[..3], flags);
    var e := LeafEntry(phys, flags);
    LeafEntryDecodes(phys, flags);
    LeafWriteKeepsTree(m1, root, paths', t, v % 512, e);
    var m' := MapPage(m, root, phys, v, flags).value;
    forall w | 0 <= w < LOW_PAGES
      ensures Translate(m', root, w) == if w == v then Some(FrameOf(phys)) else Translate(m1, root, w)
    {
      LeafWrite(m1, root, paths', t, v, e, w);
    }
    assert Flat(m', root) == Flat(m1, root)[v := FrameOf(phys)];
  }

  /** unmap_page refines a deletion from the flat map. */
  lemma UnmapPageRefines(m: Mem, root: nat, paths: map<nat, Trail>, v: nat)
    requires Tree(m, root, paths) && v < LOW_PAGES
    ensures var m' := UnmapPage(m, root, v);
            Tree(m', root, paths) && Flat(m', root) == Flat(m, root) - {v} && m'.free == m.free
  {
    LowPath(v);
    LowPrefix(Path(v));
    var q, m' := Path(v)[..3], UnmapPage(m, root, v);
    var t := Walk(m, root, q);
    WalkOn(m, root, q, Path(v)[3]);
    if t.Some? {
      WalkStays(m, root, paths, root, q);
      LeafWriteKeepsTree(m, root, paths, t.value, v % 512, 0);
      forall w | 0 <= w < LOW_PAGES
        ensures Translate(m', root, w) == if w == v then None else Translate(m, root, w)
      {
        LeafWrite(m, root, paths, t.value, v, 0, w);
      }
    }
    assert Flat(m', root) == Flat(m, root) - {v};
  }

  /** How many tables are missing from `table` along p. */
  function Missing(m: Mem, table: nat, p: Trail): (n: nat)
    ensures n <= |p|
    decreases |p|
  {
    if p == [] then 0
    else
      var c := Child(m, table, p[0]);
      if c.None? then |p| else Missing(m, c.value, p[1..])
  }

  lemma {:induction false} EnsureTablesCost(m: Mem, root: nat, paths: map<nat, Trail>, table: nat, p: Trail, flags: nat)
    requires Tree(m, root, paths) && table in paths && |paths[table]| + |p| <= 3 && Low(paths[table], p)
    ensures EnsureTables(m, table, p, flags).None? <==> |m.free| < Missing(m, table, p)
    ensures EnsureTables(m, table, p, flags).Some? ==> |EnsureTables(m, table, p, flags).value.0.free| == |m.free| - Missing(m, table, p)
    decreases |p|
  {
    assert m.free == {} <==> |m.free| == 0;
    if p != [] && GetOrAlloc(m, table, p[0], flags).Some? {
      Extends(paths[table], p);
      var (m1, t1) := GetOrAlloc(m, table, p[0], flags).value;
      if Child(m, table, p[0]).None? {
        GetOrAllocHangs(m, table, p[0], flags);
        assert |m1.free| == |m.free| - 1 && Missing(m1, t1, p[1..]) == |p| - 1;
      }
      var q := GetOrAllocTree(m, root, paths, table, p[0], flags);
      EnsureTablesCost(m1, root, q, t1, p[1..], flags);
    }
  }

  /** map_page panics exactly when fewer frames are free than tables are missing, and uses up as many. */
  lemma MapPagePanics(m: Mem, root: nat, paths: map<nat, Trail>, phys: nat, v: nat, flags: nat)
    requires Tree(m, root, paths) && v < LOW_PAGES
    ensures MapPage(m, root, phys, v, flags).None? <==> |m.free| < Missing(m, root, Path(v)[..3])
    ensures MapPage(m, root, phys, v, flags).Some? ==> |MapPage(m, root, phys, v, flags).value.free| == |m.free| - Missing(m, root, Path(v)[..3])
  {
    LowPath(v);
    LowPrefix(Path(v));
    EnsureTablesCost(m, root, paths, root, Path(v)[..3], flags);
  }

  // -------------------------------------------------------------------- runs

  datatype Op = Map(phys: nat, page: nat, flags: nat) | Unmap(page: nat)

  /** The memory after a run of calls; None as soon as one panics. */
  ghost function Run(m: Mem, root: nat, ops: seq<Op>): Option<Mem>
    requires Sane(m)
  {
    if ops == [] then Some(m)
    else
      var last := ops[|ops| - 1];
      var before := Run(m, root, ops[..|ops| - 1]);
      if before.None? || !Sane(before.value) then None
      else match last
           case Map(phys, v, flags) => MapPage(before.value, root, phys, v, flags)
           case Unmap(v) => Some(UnmapPage(before.value, root, v))
  }

  /** The same run on a plain map. */
  function RunFlat(flat: map<nat, nat>, ops: seq<Op>): map<nat, nat> {
    if ops == [] then flat
    else
      var before := RunFlat(flat, ops[..|ops| - 1]);
      match ops[|ops| - 1]
      case Map(phys, v, _) => before[v := FrameOf(phys)]
      case Unmap(v) => before - {v}
  }

  /** Every run of map_page and unmap_page on the lower half is the same run on a flat map. */
  lemma {:induction false} RunRefines(m: Mem, root: nat, paths: map<nat, Trail>, ops: seq<Op>)
      returns (paths': map<nat, Trail>)
    requires Tree(m, root, paths) && Run(m, root, ops).Some?
    requires forall k :: 0 <= k < |ops| ==> ops[k].page < LOW_PAGES
    ensures Tree(Run(m, root, ops).value, root, paths')
    ensures Flat(Run(m, root, ops).value, root) == RunFlat(Flat(m, root), ops)
    decreases |ops|
  {
    if ops == [] {
      paths' := paths;
    } else {
      var init, last := ops[..|ops| - 1], ops[|ops| - 1];
      var q := RunRefines(m, root, paths, init);
      var before := Run(m, root, init).value;
      match last
      case Map(phys, v, flags) => paths' := MapPageRefines(before, root, q, phys, v, flags);
      case Unmap(v) =>
        UnmapPageRefines(before, root, q, v);
        paths' := q;
    }
  }
}
