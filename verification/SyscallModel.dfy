/** sys_brk and sys_mmap of kernel/syscall/syscall.c over the page tables: both map fresh
    frames page by page and share one break. */
module SyscallModel {
  import opened Common
  import opened PagingModel

  const USER_BASE: nat := 0x4_0000_0000        // 16 GB mark, the initial break
  const BRK_STEP: nat := 64 * 1024 * 1024
  const LOW_BYTES: nat := 0x8000_0000_0000     // 2^47
  const USER_FLAGS: nat := 6                   // PF_WRITE | PF_USER | VM_EXEC

  datatype User = User(mem: Mem, brk: nat)

  /** ALIGN_UP(x, PAGE_SIZE) / PAGE_SIZE; no argument below wraps. */
  function PageUp(x: nat): nat { (x + PAGE - 1) / PAGE }

  /** Map page v to a fresh frame; None is a panic. */
  ghost function FreshPage(m: Mem, root: nat, v: nat): (r: Option<Mem>)
    requires Sane(m)
    ensures r.Some? ==> Sane(r.value)
  {
    if m.free == {} then None
    else var (m1, f) := Taken(m); MapPage(m1, root, f * PAGE, v, USER_FLAGS)
  }

  /** Map n pages from page v on, each to its own fresh frame. */
  ghost function MapFresh(m: Mem, root: nat, v: nat, n: nat): (r: Option<Mem>)
    requires Sane(m)
    ensures r.Some? ==> Sane(r.value)
    decreases n
  {
    if n == 0 then Some(m)
    else
      var m1 := FreshPage(m, root, v);
      if m1.None? then None else MapFresh(m1.value, root, v + 1, n - 1)
  }

  datatype Call = Brk(to: nat) | Mmap(addr: nat, length: nat)

  /** How a mapping loop ends. Frame 0 looks like "no page" to both calls; being the lowest frame, it
      is what the first allocation returns if it is free at all. */
  datatype Loop = Panic | NoPage(mem: Mem) | Mapped(mem: Mem)

  ghost function MapLoop(m: Mem, root: nat, v: nat, n: nat): (r: Loop)
    requires Sane(m)
    ensures !r.Panic? ==> Sane(r.mem)
  {
    if n > 0 && 0 in m.free then NoPage(Taken(m).0)
    else var r := MapFresh(m, root, v, n); if r.None? then Panic else Mapped(r.value)
  }

  /** Failed is an error code with the state it leaves. */
  datatype Reply = Halted | Failed(user: User) | Returned(user: User, value: nat)

  ghost function SysBrk(u: User, root: nat, to: nat): Reply
    requires Sane(u.mem)
  {
    if to == 0 || to < u.brk || to > u.brk + BRK_STEP then Returned(u, u.brk)
    else
      var first, end := PageUp(u.brk), PageUp(to);
      match MapLoop(u.mem, root, first, if end > first then end - first else 0)
      case Panic => Halted
      case NoPage(m) => Returned(User(m, u.brk), u.brk)
      case Mapped(m) => Returned(User(m, to), to)
  }

  ghost function SysMmap(u: User, root: nat, addr: nat, length: nat): Reply
    requires Sane(u.mem)
  {
    if length == 0 then Failed(u)
    else
      var pages := PageUp(length);
      var first := PageUp(if addr != 0 then addr else u.brk);
      match MapLoop(u.mem, root, first, pages)
      case Panic => Halted
      case NoPage(m) => Failed(User(m, u.brk))
      case Mapped(m) => Returned(User(m, if addr == 0 then (first + pages) * PAGE else u.brk), first * PAGE)
  }

  /** Arguments that stay inside the lower half. */
  predicate LowHalf(u: User, c: Call) {
    match c
    case Brk(to) => to <= LOW_BYTES
    case Mmap(addr, length) => (PageUp(if addr != 0 then addr else u.brk) + PageUp(length)) * PAGE <= LOW_BYTES
  }

  // ---------------------------------------------------------------- invariant

  /** The tables by path, the flat map they represent, and for each data frame the page it
      was taken for. */
  datatype Layout = Layout(paths: map<nat, Trail>, flat: map<nat, nat>, owner: map<nat, nat>)

  /** Every mapped page lies on a frame of its own; data frames are in use and not tables. */
  ghost predicate Backed(l: Layout, free: set<nat>) {
    && (forall v :: v in l.flat ==> l.flat[v] in l.owner && l.owner[l.flat[v]] == v)
    && (forall f :: f in l.owner ==> f < FRAMES && f !in free && f !in l.paths)
  }

  ghost predicate MappedUpTo(flat: map<nat, nat>, first: nat, end: nat) {
    forall v :: first <= v < end ==> v in flat
  }

  ghost predicate SpaceInv(m: Mem, root: nat, l: Layout) {
    Tree(m, root, l.paths) && Backed(l, m.free)
  }

  ghost predicate UserInv(u: User, root: nat, l: Layout) {
    && SpaceInv(u.mem, root, l) && l.flat == Flat(u.mem, root)
    && USER_BASE <= u.brk <= LOW_BYTES
    && MappedUpTo(l.flat, USER_BASE / PAGE, PageUp(u.brk))
  }

  /** flat' is flat with the n pages from v on put on frames that were free, nothing else changed. */
  ghost predicate Extended(flat: map<nat, nat>, flat': map<nat, nat>, v: nat, n: nat, free: set<nat>) {
    && (forall w :: w in flat' <==> w in flat || v <= w < v + n)
    && (forall w :: w in flat && !(v <= w < v + n) ==> flat'[w] == flat[w])
    && (forall w :: v <= w < v + n ==> flat'[w] in free)
  }

  // ------------------------------------------------------------------ lemmas

  /** Changing frames that are no tables, and using up free frames, changes no walk. */
  lemma {:induction false} SameTablesWalk(m: Mem, m': Mem, root: nat, paths: map<nat, Trail>, f: nat, p: Trail)
    requires Tree(m, root, paths) && |m'.ram| == FRAMES && forall g :: g in paths ==> m'.ram[g] == m.ram[g]
    requires f in paths && |paths[f]| + |p| <= 4 && Low(paths[f], p)
    ensures Walk(m', f, p) == Walk(m, f, p)
    decreases |p|
  {
    if p != [] {
      assert Child(m', f, p[0]) == Child(m, f, p[0]);
      var c := Child(m, f, p[0]);
      if c.Some? && |p| > 1 {
        Extends(paths[f], p);
        SameTablesWalk(m, m', root, paths, c.value, p[1..]);
      }
    }
  }

  lemma TakenKeeps(m: Mem, root: nat, paths: map<nat, Trail>)
    requires Tree(m, root, paths) && m.free != {}
    ensures var (m1, f) := Taken(m); Tree(m1, root, paths) && Flat(m1, root) == Flat(m, root) && f !in m1.free
  {
    var (m1, f) := Taken(m);
    assert forall g :: g in paths ==> m1.ram[g] == m.ram[g];
    forall g | g in paths
      ensures Walk(m1, root, paths[g]) == Some(g)
    {
      assert [] + paths[g] == paths[g];
      SameTablesWalk(m, m1, root, paths, root, paths[g]);
    }
    assert forall g, j: Index :: g in paths ==> Child(m1, g, j) == Child(m, g, j);
    forall v | 0 <= v < LOW_PAGES
      ensures Translate(m1, root, v) == Translate(m, root, v)
    {
      LowPath(v);
      assert [] + Path(v) == Path(v);
      SameTablesWalk(m, m1, root, paths, root, Path(v));
    }
  }

  lemma BackedUpdate(l: Layout, free: set<nat>, free': set<nat>, paths': map<nat, Trail>, v: nat, f: nat)
    requires Backed(l, free) && f in free && f < FRAMES && free' <= free - {f} && f !in l.paths
    requires forall g :: g in paths' ==> g in l.paths || g in free - {f}
    ensures Backed(Layout(paths', l.flat[v := f], l.owner[f := v]), free')
  {
  }

  lemma FrameOfAddress(f: nat)
    requires f < FRAMES
    ensures FrameOf(f * PAGE) == f
  {
  }

  /** One page: a fresh frame is mapped at v, and v stays the only page on that frame. */
  lemma FreshPageIs(m: Mem, root: nat, l: Layout, v: nat) returns (l': Layout)
    requires SpaceInv(m, root, l) && v < LOW_PAGES && FreshPage(m, root, v).Some?
    ensures var m2 := FreshPage(m, root, v).value;
            && SpaceInv(m2, root, l') && m2.free <= m.free && m.free != {} && l'.flat == l.flat[v := Taken(m).1]
  {
    var (m1, f) := Taken(m);
    TakenKeeps(m, root, l.paths);
    var paths' := MapPageRefines(m1, root, l.paths, f * PAGE, v, USER_FLAGS);
    FrameOfAddress(f);
    BackedUpdate(l, m.free, FreshPage(m, root, v).value.free, paths', v, f);
    l' := Layout(paths', l.flat[v := f], l.owner[f := v]);
  }

  lemma ExtendedFurther(flat: map<nat, nat>, flat1: map<nat, nat>, flat': map<nat, nat>, v: nat, n: nat, f: nat,
                        free: set<nat>, free1: set<nat>)
    requires n > 0 && flat1 == flat[v := f] && Extended(flat1, flat', v + 1, n - 1, free1) && f in free && free1 <= free
    ensures Extended(flat, flat', v, n, free)
  {
  }

  /** The pages and frames MapFresh adds, entered into a plain map. */
  ghost function FreshFlat(flat: map<nat, nat>, m: Mem, root: nat, v: nat, n: nat): map<nat, nat>
    requires Sane(m) && MapFresh(m, root, v, n).Some?
    decreases n
  {
    if n == 0 then flat
    else FreshFlat(flat[v := Taken(m).1], FreshPage(m, root, v).value, root, v + 1, n - 1)
  }

  /** Mapping fresh pages extends the plain map by exactly those pages, on frames that were free. */
  lemma {:induction false} MapFreshKeeps(m: Mem, root: nat, l: Layout, v: nat, n: nat) returns (l': Layout)
    requires SpaceInv(m, root, l) && v + n <= LOW_PAGES && MapFresh(m, root, v, n).Some?
    ensures SpaceInv(MapFresh(m, root, v, n).value, root, l') && Extended(l.flat, l'.flat, v, n, m.free)
    ensures l'.flat == FreshFlat(l.flat, m, root, v, n)
    decreases n
  {
    if n == 0 {
      l' := l;
    } else {
      var m1 := FreshPage(m, root, v).value;
      var l1 := FreshPageIs(m, root, l, v);
      l' := MapFreshKeeps(m1, root, l1, v + 1, n - 1);
      ExtendedFurther(l.flat, l1.flat, l'.flat, v, n, Taken(m).1, m.free, m1.free);
    }
  }

  function Lookup(flat: map<nat, nat>, w: nat): Option<nat> { if w in flat then Some(flat[w]) else None }

  lemma FreshPageTranslates(m: Mem, root: nat, paths: map<nat, Trail>, v: nat, w: nat, flat: map<nat, nat>)
      returns (paths': map<nat, Trail>)
    requires Tree(m, root, paths) && v < LOW_PAGES && w < LOW_PAGES && FreshPage(m, root, v).Some?
    requires Lookup(flat, w) == Translate(m, root, w)
    ensures Tree(FreshPage(m, root, v).value, root, paths')
    ensures m.free != {} && Lookup(flat[v := Taken(m).1], w) == Translate(FreshPage(m, root, v).value, root, w)
  {
    var (m1, f) := Taken(m);
    TakenKeeps(m, root, paths);
    paths' := MapPageRefines(m1, root, paths, f * PAGE, v, USER_FLAGS);
    FrameOfAddress(f);
    var m2 := FreshPage(m, root, v).value;
    assert Lookup(Flat(m1, root), w) == Translate(m1, root, w);
    assert Lookup(Flat(m, root), w) == Translate(m, root, w);
    assert Lookup(Flat(m2, root), w) == Translate(m2, root, w);
  }

  /** The first page of MapFresh, as it looks from page w. */
  lemma FirstFresh(m: Mem, root: nat, paths: map<nat, Trail>, v: nat, n: nat, flat: map<nat, nat>, w: nat)
      returns (m1: Mem, flat1: map<nat, nat>, paths1: map<nat, Trail>)
    requires n > 0 && Tree(m, root, paths) && v + n <= LOW_PAGES && w < LOW_PAGES && MapFresh(m, root, v, n).Some?
    requires Lookup(flat, w) == Translate(m, root, w)
    ensures Tree(m1, root, paths1) && Lookup(flat1, w) == Translate(m1, root, w)
    ensures MapFresh(m1, root, v + 1, n - 1) == MapFresh(m, root, v, n)
    ensures FreshFlat(flat1, m1, root, v + 1, n - 1) == FreshFlat(flat, m, root, v, n)
  {
    paths1 := FreshPageTranslates(m, root, paths, v, w, flat);
    m1, flat1 := FreshPage(m, root, v).value, flat[v := Taken(m).1];
  }

  /** ... and the page tables translate every page as that plain map does. */
  lemma {:induction false} MapFreshTranslates(m: Mem, root: nat, paths: map<nat, Trail>, v: nat, n: nat,
                                              flat: map<nat, nat>, w: nat)
    requires Tree(m, root, paths) && v + n <= LOW_PAGES && w < LOW_PAGES && MapFresh(m, root, v, n).Some?
    requires Lookup(flat, w) == Translate(m, root, w)
    ensures Lookup(FreshFlat(flat, m, root, v, n), w) == Translate(MapFresh(m, root, v, n).value, root, w)
    decreases n
  {
    if n > 0 {
      var m1, flat1, paths1 := FirstFresh(m, root, paths, v, n, flat, w);
      MapFreshTranslates(m1, root, paths1, v + 1, n - 1, flat1, w);
    }
  }

  /** Mapping n fresh pages: the layout follows, and exactly those pages are added. */
  lemma MapFreshIs(m: Mem, root: nat, l: Layout, v: nat, n: nat) returns (l': Layout)
    requires SpaceInv(m, root, l) && l.flat == Flat(m, root) && v + n <= LOW_PAGES && MapFresh(m, root, v, n).Some?
    ensures var m' := MapFresh(m, root, v, n).value;
            SpaceInv(m', root, l') && l'.flat == Flat(m', root) && Extended(l.flat, l'.flat, v, n, m.free)
  {
    l' := MapFreshKeeps(m, root, l, v, n);
    assert l'.flat == Flat(MapFresh(m, root, v, n).value, root) by {
      assert forall w :: w in l'.flat ==> 0 <= w < LOW_PAGES;
      FlatIs(MapFresh(m, root, v, n).value, root, l'.flat, m, l, v, n);
    }
  }

  lemma FlatIs(m': Mem, root: nat, flat': map<nat, nat>, m: Mem, l: Layout, v: nat, n: nat)
    requires Tree(m, root, l.paths) && l.flat == Flat(m, root) && v + n <= LOW_PAGES && MapFresh(m, root, v, n) == Some(m')
    requires flat' == FreshFlat(l.flat, m, root, v, n) && forall w :: w in flat' ==> 0 <= w < LOW_PAGES
    ensures flat' == Flat(m', root)
  {
    forall w | 0 <= w < LOW_PAGES
      ensures Lookup(flat', w) == Translate(m', root, w)
    {
      MapFreshTranslates(m, root, l.paths, v, n, l.flat, w);
    }
  }

  /** The state vmm_init leaves: nothing mapped in the lower half, the break at its mark. */
  ghost predicate Booted(u: User, root: nat) {
    u.brk == USER_BASE && (exists paths :: Tree(u.mem, root, paths)) && Flat(u.mem, root) == map[]
  }

  lemma BootedInv(u: User, root: nat, paths: map<nat, Trail>)
    requires u.brk == USER_BASE && Tree(u.mem, root, paths) && Flat(u.mem, root) == map[]
    ensures UserInv(u, root, Layout(paths, map[], map[]))
  {
  }

  /** No frame backs two pages, and none that backs a page is also a table. */
  ghost predicate Exclusive(u: User, root: nat) {
    && (forall v, w :: v in Flat(u.mem, root) && w in Flat(u.mem, root) && Flat(u.mem, root)[v] == Flat(u.mem, root)[w] ==> v == w)
    && (forall v, p: Trail :: v in Flat(u.mem, root) && |p| <= 3 && Low([], p) ==> Walk(u.mem, root, p) != Some(Flat(u.mem, root)[v]))
  }

  lemma InvExclusive(u: User, root: nat, l: Layout)
    requires UserInv(u, root, l)
    ensures Exclusive(u, root)
  {
    forall v, w | v in Flat(u.mem, root) && w in Flat(u.mem, root) && Flat(u.mem, root)[v] == Flat(u.mem, root)[w] ensures v == w {
      FramesExclusive(u, root, l, v, w, []);
    }
    forall v, p: Trail | v in Flat(u.mem, root) && |p| <= 3 && Low([], p) ensures Walk(u.mem, root, p) != Some(Flat(u.mem, root)[v]) {
      FramesExclusive(u, root, l, v, v, p);
    }
  }

  /** What a caller sees of the layout: no frame backs two pages, and none is also a table. */
  lemma FramesExclusive(u: User, root: nat, l: Layout, v: nat, w: nat, p: Trail)
    requires UserInv(u, root, l) && v in Flat(u.mem, root) && w in Flat(u.mem, root)
    ensures Flat(u.mem, root)[v] == Flat(u.mem, root)[w] ==> v == w
    ensures |p| <= 3 && Low([], p) ==> Walk(u.mem, root, p) != Some(Flat(u.mem, root)[v])
  {
    if |p| <= 3 && Low([], p) && Walk(u.mem, root, p).Some? {
      WalkStays(u.mem, root, l.paths, root, p);
    }
  }

  // -------------------------------------------------------------------- runs

  ghost function Step(u: User, root: nat, c: Call): Reply
    requires Sane(u.mem)
  {
    match c
    case Brk(to) => SysBrk(u, root, to)
    case Mmap(addr, length) => SysMmap(u, root, addr, length)
  }

  /** The pages a call maps, as first page and number; none if it is refused or stopped by frame 0. */
  ghost function Target(u: User, c: Call): (nat, nat) {
    var (first, n) :=
      match c
      case Brk(to) =>
        if to == 0 || to < u.brk || to > u.brk + BRK_STEP then (0, 0)
        else (PageUp(u.brk), if PageUp(to) > PageUp(u.brk) then PageUp(to) - PageUp(u.brk) else 0)
      case Mmap(addr, length) => (PageUp(if addr != 0 then addr else u.brk), PageUp(length));
    if 0 in u.mem.free then (0, 0) else (first, n)
  }

  lemma PagesBelow(x: nat)
    requires x <= LOW_BYTES
    ensures x <= PageUp(x) * PAGE < x + PAGE && PageUp(x) <= LOW_PAGES
  {
  }

  lemma StepRaisesBreak(u: User, root: nat, c: Call)
    requires Sane(u.mem) && !Step(u, root, c).Halted?
    ensures u.brk <= Step(u, root, c).user.brk
  {
  }

  /** A loop that stops at frame 0 has used up that frame and mapped nothing. */
  lemma NoPageKeeps(u: User, root: nat, l: Layout)
    requires UserInv(u, root, l) && u.mem.free != {}
    ensures UserInv(User(Taken(u.mem).0, u.brk), root, l)
  {
    TakenKeeps(u.mem, root, l.paths);
  }

  /** What a call does to the flat map: its target goes on frames that were free, the rest stays. */
  ghost predicate Remaps(u: User, c: Call, flat: map<nat, nat>, flat': map<nat, nat>) {
    Extended(flat, flat', Target(u, c).0, Target(u, c).1, u.mem.free)
  }

  lemma NothingRemapped(flat: map<nat, nat>, v: nat, free: set<nat>)
    ensures Extended(flat, flat, v, 0, free)
  {
  }

  lemma NowhereElse(flat: map<nat, nat>, flat': map<nat, nat>, v: nat, free: set<nat>)
    requires Extended(flat, flat', v, 0, free)
    ensures Extended(flat, flat', 0, 0, free)
  {
  }

  lemma BrkKeeps(u: User, root: nat, l: Layout, to: nat) returns (l': Layout)
    requires UserInv(u, root, l) && to <= LOW_BYTES && SysBrk(u, root, to).Returned?
    ensures UserInv(SysBrk(u, root, to).user, root, l') && Remaps(u, Brk(to), l.flat, l'.flat)
  {
    hide Tree, Flat, Backed, Extended, MapFresh, Taken;
    l' := l;
    var first, end := PageUp(u.brk), PageUp(to);
    NothingRemapped(l.flat, 0, u.mem.free);
    NothingRemapped(l.flat, first, u.mem.free);
    if to == 0 || to < u.brk || to > u.brk + BRK_STEP { return; }
    assert first <= end <= LOW_PAGES by { PagesBelow(to); }
    if end > first && 0 in u.mem.free {
      NoPageKeeps(u, root, l);
    } else {
      l' := MapFreshIs(u.mem, root, l, first, end - first);
      MappedFurther(l.flat, l'.flat, USER_BASE / PAGE, first, end - first, u.mem.free);
      if end == first { NowhereElse(l.flat, l'.flat, first, u.mem.free); }
    }
  }

  lemma MappedFurther(flat: map<nat, nat>, flat': map<nat, nat>, base: nat, v: nat, n: nat, free: set<nat>)
    requires MappedUpTo(flat, base, v) && Extended(flat, flat', v, n, free)
    ensures MappedUpTo(flat', base, v + n) && flat.Keys <= flat'.Keys
  {
  }

  lemma MmapKeeps(u: User, root: nat, l: Layout, addr: nat, length: nat) returns (l': Layout)
    requires UserInv(u, root, l) && LowHalf(u, Mmap(addr, length)) && !SysMmap(u, root, addr, length).Halted?
    ensures UserInv(SysMmap(u, root, addr, length).user, root, l') && Remaps(u, Mmap(addr, length), l.flat, l'.flat)
  {
    hide Tree, Flat, Backed, MapFresh, Taken;
    l' := l;
    var first := PageUp(if addr != 0 then addr else u.brk);
    NothingRemapped(l.flat, 0, u.mem.free);
    NothingRemapped(l.flat, first, u.mem.free);
    if length == 0 { return; }
    if 0 in u.mem.free {
      NoPageKeeps(u, root, l);
    } else {
      l' := MapFreshIs(u.mem, root, l, first, PageUp(length));
      if addr == 0 { WholePages(first + PageUp(length)); }
    }
  }

  /** brk and mmap, failures included, keep the invariant, unmap nothing and remap nothing but their
      target. */
  lemma StepKeeps(u: User, root: nat, l: Layout, c: Call) returns (l': Layout)
    requires UserInv(u, root, l) && LowHalf(u, c) && !Step(u, root, c).Halted?
    ensures UserInv(Step(u, root, c).user, root, l') && Remaps(u, c, l.flat, l'.flat)
  {
    hide Remaps, Tree, Flat, Backed, MapFresh, Taken;
    match c
    case Brk(to) => l' := BrkKeeps(u, root, l, to);
    case Mmap(addr, length) => l' := MmapKeeps(u, root, l, addr, length);
  }

  /** A call keeps every earlier translation exactly when no page of its target was mapped: a page put
      there earlier by an explicit address silently gets another frame. */
  lemma KeepsTranslations(u: User, root: nat, l: Layout, c: Call)
    requires UserInv(u, root, l) && LowHalf(u, c) && !Step(u, root, c).Halted?
    ensures var before, after := Flat(u.mem, root), Flat(Step(u, root, c).user.mem, root);
            && before.Keys <= after.Keys
            && ((forall v :: v in before ==> after[v] == before[v]) <==>
                (forall v :: Target(u, c).0 <= v < Target(u, c).0 + Target(u, c).1 ==> v !in before))
  {
    hide Target;
    var l' := StepKeeps(u, root, l, c);
    assert l.flat == Flat(u.mem, root) && l'.flat == Flat(Step(u, root, c).user.mem, root);
    assert forall v :: v in l.flat ==> l.flat[v] in l.owner && l.flat[v] !in u.mem.free;
    assert forall v :: Target(u, c).0 <= v < Target(u, c).0 + Target(u, c).1 && v in l.flat ==> l'.flat[v] != l.flat[v];
  }

  /** Four free frames are enough for one page: its own and at most three tables. */
  lemma FreshPageFits(m: Mem, root: nat, l: Layout, v: nat)
    requires SpaceInv(m, root, l) && v < LOW_PAGES && |m.free| >= 4
    ensures Sane(m) && FreshPage(m, root, v).Some? && |FreshPage(m, root, v).value.free| >= |m.free| - 4
  {
    TakenKeeps(m, root, l.paths);
    var (m1, f) := Taken(m);
    MapPagePanics(m1, root, l.paths, f * PAGE, v, USER_FLAGS);
  }

  /** It happens: two calls of mmap with the same address, of a page or less, both return that address,
      and the second puts its page on another frame. */
  lemma SecondMmapRemaps(u: User, root: nat, l: Layout, addr: nat, length: nat)
    requires UserInv(u, root, l) && addr != 0 && 0 < length <= PAGE && LowHalf(u, Mmap(addr, length))
    requires 0 !in u.mem.free && |u.mem.free| >= 8
    ensures var c, v := Mmap(addr, length), PageUp(addr); var once := Step(u, root, c);
            && once.Returned? && once.value == v * PAGE
            && Step(once.user, root, c).Returned? && Step(once.user, root, c).value == v * PAGE
            && var one, two := Flat(once.user.mem, root), Flat(Step(once.user, root, c).user.mem, root);
               v in one && v in two && one[v] != two[v]
  {
    hide Tree, Flat, Backed, FreshPage, Remaps;
    var c, v := Mmap(addr, length), PageUp(addr);
    FreshPageFits(u.mem, root, l, v);
    OnePage(u, root, addr, length);
    var l1 := StepKeeps(u, root, l, c);
    var u1 := Step(u, root, c).user;
    FreshPageFits(u1.mem, root, l1, v);
    assert u1.mem.free <= u.mem.free by { var q := FreshPageIs(u.mem, root, l, v); }
    OnePage(u1, root, addr, length);
    KeepsTarget(u, root, l, c, v);
    KeepsTarget(u1, root, l1, c, v);
    Elsewhere(u1, root, l1, v, Flat(Step(u1, root, c).user.mem, root)[v]);
  }

  lemma OnePage(u: User, root: nat, addr: nat, length: nat)
    requires Sane(u.mem) && addr != 0 && 0 < length <= PAGE && 0 !in u.mem.free && FreshPage(u.mem, root, PageUp(addr)).Some?
    ensures Step(u, root, Mmap(addr, length)) == Returned(User(FreshPage(u.mem, root, PageUp(addr)).value, u.brk), PageUp(addr) * PAGE)
  {
    hide FreshPage;
    assert PageUp(length) == 1;
    var m1 := FreshPage(u.mem, root, PageUp(addr)).value;
    assert MapFresh(m1, root, PageUp(addr) + 1, 0) == Some(m1);
  }

  lemma KeepsTarget(u: User, root: nat, l: Layout, c: Call, v: nat)
    requires UserInv(u, root, l) && LowHalf(u, c) && !Step(u, root, c).Halted?
    requires Target(u, c).0 <= v < Target(u, c).0 + Target(u, c).1
    ensures v in Flat(Step(u, root, c).user.mem, root) && Flat(Step(u, root, c).user.mem, root)[v] in u.mem.free
  {
    hide Tree, Flat, Backed, Target;
    var l' := StepKeeps(u, root, l, c);
  }

  lemma Elsewhere(u: User, root: nat, l: Layout, v: nat, f: nat)
    requires UserInv(u, root, l) && f in u.mem.free && v in Flat(u.mem, root)
    ensures Flat(u.mem, root)[v] != f
  {
  }

  lemma WholePages(n: nat)
    ensures PageUp(n * PAGE) == n
  {
  }

  // ------------------------------------------------------ what callers are told

  /** Every byte of [a, b) lies on a mapped page, on a frame that was free. */
  ghost predicate BytesMapped(flat: map<nat, nat>, a: nat, b: nat, free: set<nat>) {
    forall x: nat :: a <= x < b ==> x / 4096 in flat && flat[x / 4096] in free
  }

  lemma BytesOfPages(flat: map<nat, nat>, first: nat, n: nat, length: nat, free: set<nat>)
    requires forall v :: first <= v < first + n ==> v in flat && flat[v] in free
    requires length <= n * PAGE
    ensures BytesMapped(flat, first * PAGE, first * PAGE + length, free)
  {
    forall x: nat | first * PAGE <= x < first * PAGE + length ensures first <= x / 4096 < first + n {
      assert x < (first + n) * PAGE;
    }
  }

  lemma RoundsUp(x: nat)
    ensures PageUp(x) * PAGE % 4096 == 0 && x <= PageUp(x) * PAGE < x + 4096
  {
  }

  /** Each page costs its own frame and at most three tables. */
  lemma {:induction false} LoopFits(m: Mem, root: nat, l: Layout, v: nat, n: nat)
    requires SpaceInv(m, root, l) && v + n <= LOW_PAGES
    ensures |m.free| >= 4 * n ==> MapFresh(m, root, v, n).Some?
    ensures |m.free| < n ==> MapFresh(m, root, v, n).None?
    decreases n
  {
    hide SpaceInv, FreshPage;
    assert Sane(m) by { SpaceSane(m, root, l); }
    if n > 0 && FreshPage(m, root, v).Some? {
      var l1 := FreshPageIs(m, root, l, v);
      FreshPageCosts(m, root, l, v);
      LoopFits(FreshPage(m, root, v).value, root, l1, v + 1, n - 1);
    }
    if n > 0 && |m.free| >= 4 { FreshPageFits(m, root, l, v); }
  }

  lemma SpaceSane(m: Mem, root: nat, l: Layout)
    requires SpaceInv(m, root, l)
    ensures Sane(m)
  {
  }

  lemma FreshPageCosts(m: Mem, root: nat, l: Layout, v: nat)
    requires SpaceInv(m, root, l) && v < LOW_PAGES && FreshPage(m, root, v).Some?
    ensures |m.free| - 4 <= |FreshPage(m, root, v).value.free| < |m.free|
  {
    TakenKeeps(m, root, l.paths);
    var (m1, f) := Taken(m);
    MapPagePanics(m1, root, l.paths, f * PAGE, v, USER_FLAGS);
  }

  /** When mmap fails and when it panics: four frames a page are enough, fewer than one are not. */
  lemma MmapOutcome(u: User, root: nat, l: Layout, addr: nat, length: nat)
    requires UserInv(u, root, l) && LowHalf(u, Mmap(addr, length))
    ensures var r := Step(u, root, Mmap(addr, length)); var n := (length + 4095) / 4096;
            && (r.Failed? <==> length == 0 || 0 in u.mem.free)
            && (length == 0 ==> r == Failed(u))
            && (r.Failed? ==> r.user.brk == u.brk && Flat(r.user.mem, root) == Flat(u.mem, root))
            && (length > 0 && 0 !in u.mem.free ==>
                  && (|u.mem.free| >= 4 * n ==> r.Returned?)
                  && (|u.mem.free| < n ==> r.Halted?))
  {
    hide Flat, Tree, MapFresh, Taken;
    InvSpace(u, root, l);
    LoopFits(u.mem, root, l, PageUp(if addr != 0 then addr else u.brk), PageUp(length));
    var r := Step(u, root, Mmap(addr, length));
    if r.Failed? && length > 0 { NoPageFlat(u, root, l); }
  }

  lemma InvSpace(u: User, root: nat, l: Layout)
    requires UserInv(u, root, l)
    ensures SpaceInv(u.mem, root, l) && Sane(u.mem) && l.flat == Flat(u.mem, root)
  {
  }

  lemma NoPageFlat(u: User, root: nat, l: Layout)
    requires UserInv(u, root, l) && u.mem.free != {}
    ensures Flat(Taken(u.mem).0, root) == Flat(u.mem, root)
  {
    TakenKeeps(u.mem, root, l.paths);
  }

  /** What mmap returns: the address asked for, or the break, rounded up to a page; from there on every
      byte of the length is mapped afresh. Without an address the break moves behind the region. */
  lemma MmapReply(u: User, root: nat, l: Layout, addr: nat, length: nat)
    requires UserInv(u, root, l) && LowHalf(u, Mmap(addr, length)) && Step(u, root, Mmap(addr, length)).Returned?
    ensures var r := Step(u, root, Mmap(addr, length)); var from := if addr != 0 then addr else u.brk;
            && r.value % 4096 == 0 && from <= r.value < from + 4096
            && BytesMapped(Flat(r.user.mem, root), r.value, r.value + length, u.mem.free)
            && (if addr != 0 then r.user.brk == u.brk
                else r.user.brk % 4096 == 0 && r.value + length <= r.user.brk < r.value + length + 4096)
  {
    hide Flat, Tree, Backed, MapFresh, Taken;
    InvSpace(u, root, l);
    var from := if addr != 0 then addr else u.brk;
    var l' := MmapKeeps(u, root, l, addr, length);
    var r := Step(u, root, Mmap(addr, length));
    InvSpace(r.user, root, l');
    RoundsUp(from);
    RoundsUp(length);
    BytesOfPages(l'.flat, PageUp(from), PageUp(length), length, u.mem.free);
  }

  /** What brk returns is the break it leaves. A call is accepted when it asks for an address from the old
      break up to 64 MB above and no page in between meets frame 0; then the new break is what it asked
      for, and otherwise nothing is mapped and the break stays. */
  lemma BrkReply(u: User, root: nat, l: Layout, to: nat)
    requires UserInv(u, root, l) && to <= LOW_BYTES
    ensures var r := Step(u, root, Brk(to)); var pages := (to + 4095) / 4096 - (u.brk + 4095) / 4096;
            var accepted := u.brk <= to <= u.brk + 67108864 && (pages > 0 ==> 0 !in u.mem.free);
            && !r.Failed?
            && (r.Returned? ==> r.value == r.user.brk == if accepted then to else u.brk)
            && (r.Returned? && accepted ==> BytesMapped(Flat(r.user.mem, root), (u.brk + 4095) / 4096 * 4096, to, u.mem.free))
            && (!accepted ==> r.Returned? && Flat(r.user.mem, root) == Flat(u.mem, root))
            && (accepted && |u.mem.free| >= 4 * pages ==> r.Returned?)
            && (accepted && |u.mem.free| < pages ==> r.Halted?)
  {
    hide Flat, Tree, Backed, MapFresh, Taken;
    InvSpace(u, root, l);
    var r, first, end := Step(u, root, Brk(to)), PageUp(u.brk), PageUp(to);
    assert USER_BASE <= u.brk by { InvBrk(u, root, l); }
    if u.brk <= to <= u.brk + 67108864 {
      PagesBelow(to);
      assert first <= end;
      LoopFits(u.mem, root, l, first, end - first);
      if end > first && 0 in u.mem.free {
        NoPageFlat(u, root, l);
      } else if r.Returned? {
        var l' := MapFreshIs(u.mem, root, l, first, end - first);
        RoundsUp(to);
        RoundsUp(u.brk);
        if first * PAGE <= to { BytesOfPages(l'.flat, first, end - first, to - first * PAGE, u.mem.free); }
      }
    }
  }

  lemma InvBrk(u: User, root: nat, l: Layout)
    requires UserInv(u, root, l)
    ensures USER_BASE <= u.brk
  {
  }

  /** us[k + 1] is the state after call k, none of which halts. */
  ghost predicate IsRun(us: seq<User>, root: nat, cs: seq<Call>) {
    && |us| == |cs| + 1
    && (forall k :: 0 <= k < |us| ==> Sane(us[k].mem))
    && (forall k :: 0 <= k < |cs| ==>
          LowHalf(us[k], cs[k]) && !Step(us[k], root, cs[k]).Halted? && Step(us[k], root, cs[k]).user == us[k + 1])
  }

  /** Call k returned a region for address 0. */
  ghost predicate Grants(us: seq<User>, root: nat, cs: seq<Call>, k: nat)
    requires k < |cs| < |us| && Sane(us[k].mem)
  {
    cs[k].Mmap? && cs[k].addr == 0 && Step(us[k], root, cs[k]).Returned?
  }

  lemma {:induction false} RunKeeps(us: seq<User>, root: nat, cs: seq<Call>, l: Layout, k: nat) returns (l': Layout)
    requires IsRun(us, root, cs) && UserInv(us[0], root, l) && k < |us|
    ensures UserInv(us[k], root, l')
    decreases k
  {
    if k == 0 {
      l' := l;
    } else {
      var q := RunKeeps(us, root, cs, l, k - 1);
      l' := StepKeeps(us[k - 1], root, q, cs[k - 1]);
    }
  }

  lemma {:induction false} BreakGrows(us: seq<User>, root: nat, cs: seq<Call>, i: nat, j: nat)
    requires IsRun(us, root, cs) && i <= j < |us|
    ensures us[i].brk <= us[j].brk
    decreases j - i
  {
    if i < j {
      BreakGrows(us, root, cs, i, j - 1);
      StepRaisesBreak(us[j - 1], root, cs[j - 1]);
    }
  }

  /** Over every run from the state vmm_init leaves: all pages from the 16 GB mark up to the break stay
      mapped, each frame serves one purpose, the break never moves down, and regions handed out for
      address 0 never overlap. */
  lemma RunsAreSafe(us: seq<User>, root: nat, cs: seq<Call>)
    requires IsRun(us, root, cs) && Booted(us[0], root)
    ensures forall k :: 0 <= k < |us| ==> MappedUpTo(Flat(us[k].mem, root), USER_BASE / PAGE, PageUp(us[k].brk)) && Exclusive(us[k], root)
    ensures forall i, j :: 0 <= i <= j < |us| ==> us[i].brk <= us[j].brk
    ensures forall i, j :: 0 <= i < j < |cs| && Grants(us, root, cs, i) && Grants(us, root, cs, j) ==>
              Step(us[i], root, cs[i]).value + cs[i].length <= Step(us[j], root, cs[j]).value
  {
    hide UserInv, Exclusive, Step;
    var paths :| Tree(us[0].mem, root, paths);
    BootedInv(us[0], root, paths);
    forall k | 0 <= k < |us|
      ensures MappedUpTo(Flat(us[k].mem, root), USER_BASE / PAGE, PageUp(us[k].brk)) && Exclusive(us[k], root)
    {
      var l := RunKeeps(us, root, cs, Layout(paths, map[], map[]), k);
      InvExclusive(us[k], root, l);
      InvMapped(us[k], root, l);
    }
    forall i, j | 0 <= i <= j < |us|
      ensures us[i].brk <= us[j].brk
    {
      BreakGrows(us, root, cs, i, j);
    }
    forall i, j | 0 <= i < j < |cs| && Grants(us, root, cs, i) && Grants(us, root, cs, j)
      ensures Step(us[i], root, cs[i]).value + cs[i].length <= Step(us[j], root, cs[j]).value
    {
      var a := RunKeeps(us, root, cs, Layout(paths, map[], map[]), i);
      var b := RunKeeps(us, root, cs, Layout(paths, map[], map[]), j);
      MmapReply(us[i], root, a, 0, cs[i].length);
      MmapReply(us[j], root, b, 0, cs[j].length);
      assert cs[i] == Mmap(0, cs[i].length) && cs[j] == Mmap(0, cs[j].length);
      BreakGrows(us, root, cs, i + 1, j);
    }
  }

  lemma InvMapped(u: User, root: nat, l: Layout)
    requires UserInv(u, root, l)
    ensures MappedUpTo(Flat(u.mem, root), USER_BASE / PAGE, PageUp(u.brk))
  {
  }

  /** After boot, with eight frames free above frame 0, two calls of mmap(NULL, 4096) return the 16 GB mark
      and the page behind it. */
  lemma FirstMmaps(u: User, root: nat)
    requires Booted(u, root) && 0 !in u.mem.free && |u.mem.free| >= 8
    ensures Sane(u.mem)
    ensures var one := Step(u, root, Mmap(0, 4096));
            && one.Returned? && one.value == 0x4_0000_0000
            && var two := Step(one.user, root, Mmap(0, 4096));
               two.Returned? && two.value == 0x4_0000_1000
  {
    hide Flat, Tree, UserInv, BytesMapped, MapFresh;
    var paths :| Tree(u.mem, root, paths);
    var l := Layout(paths, map[], map[]);
    BootedInv(u, root, paths);
    InvSpace(u, root, l);
    MmapOutcome(u, root, l, 0, 4096);
    MmapReply(u, root, l, 0, 4096);
    var u1 := Step(u, root, Mmap(0, 4096)).user;
    var l1 := MmapKeeps(u, root, l, 0, 4096);
    InvSpace(u1, root, l1);
    OnePageLeft(u, root, l);
    MmapOutcome(u1, root, l1, 0, 4096);
    MmapReply(u1, root, l1, 0, 4096);
  }

  lemma OnePageLeft(u: User, root: nat, l: Layout)
    requires UserInv(u, root, l) && u.brk == USER_BASE && Step(u, root, Mmap(0, 4096)).Returned?
    ensures var u1 := Step(u, root, Mmap(0, 4096)).user; |u1.mem.free| >= |u.mem.free| - 4 && u1.mem.free <= u.mem.free
  {
    hide Flat, Tree, FreshPage;
    InvSpace(u, root, l);
    var v := PageUp(USER_BASE);
    var m1 := FreshPage(u.mem, root, v);
    assert MapFresh(u.mem, root, v, 1) == if m1.None? then None else MapFresh(m1.value, root, v + 1, 0);
    FreshPageCosts(u.mem, root, l, v);
    var l1 := FreshPageIs(u.mem, root, l, v);
  }
}
