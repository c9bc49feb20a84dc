/** map_page and unmap_page of kernel/mm/vmm.c on physical memory, and the two system calls
    that map user pages, proved against PagingModel and SyscallModel. */
module Paging {
  import opened Common
  import opened PagingModel
  import opened SyscallModel
  import opened Pmm

  /** The index macros on a lower-half address agree with the path of its page. */
  lemma MacrosAgree(virt: nat)
    ensures Path(virt / PAGE) ==
              [virt / 0x80_0000_0000 % 512, virt / 0x4000_0000 % 512, virt / 0x20_0000 % 512, virt / 0x1000 % 512]
  {
    PathIs(virt / PAGE);
    DivTwice(virt);
  }

  lemma DivTwice(virt: nat)
    ensures virt / PAGE / 0x800_0000 == virt / 0x80_0000_0000
    ensures virt / PAGE / 0x4_0000 == virt / 0x4000_0000
    ensures virt / PAGE / 512 == virt / 0x20_0000
  {
  }

  /** The three calls of map_page in sequence are EnsureTables along three indices. */
  lemma ThreeCalls(m: Mem, root: nat, a: Index, b: Index, c: Index, flags: nat)
    requires Sane(m) && root < FRAMES
    ensures EnsureTables(m, root, [a, b, c], flags) ==
              var x := GetOrAlloc(m, root, a, flags);
              if x.None? || x.value.1 >= FRAMES then None else
              var y := GetOrAlloc(x.value.0, x.value.1, b, flags);
              if y.None? || y.value.1 >= FRAMES then None else
              var z := GetOrAlloc(y.value.0, y.value.1, c, flags);
              if z.None? || z.value.1 >= FRAMES then None else z
  {
    assert [a, b, c][1..] == [b, c] && [b, c][1..] == [c] && [c][1..] == [];
    var x := GetOrAlloc(m, root, a, flags);
    if x.Some? && x.value.1 < FRAMES {
      var y := GetOrAlloc(x.value.0, x.value.1, b, flags);
      if y.Some? && y.value.1 < FRAMES {
        var z := GetOrAlloc(y.value.0, y.value.1, c, flags);
        if z.Some? { assert EnsureTables(z.value.0, z.value.1, [], flags).Some? <==> z.value.1 < FRAMES; }
        assert EnsureTables(y.value.0, y.value.1, [c], flags) == if z.None? || z.value.1 >= FRAMES then None else z;
      }
      assert EnsureTables(x.value.0, x.value.1, [b, c], flags) ==
             if y.None? then None else EnsureTables(y.value.0, y.value.1, [c], flags);
    }
  }

  class PageTables {
    const pmm: FrameAllocator
    const root: nat
    /** The trail of every table frame. */
    ghost var paths: map<nat, Trail>

    ghost predicate Valid()
      reads this, pmm, pmm.bitmap
    {
      pmm.Valid() && Tree(pmm.Model(), root, paths)
    }

    constructor (p: FrameAllocator, pml4: nat)
      requires p.Valid() && Tree(p.Model(), pml4, map[pml4 := []])
      ensures Valid() && pmm == p && root == pml4
    {
      pmm, root, paths := p, pml4, map[pml4 := []];
    }

    method GetOrAllocTable(table: nat, i: Index, flags: nat) returns (r: Option<nat>)
      requires pmm.Valid() && table < FRAMES && Sane(pmm.Model())
      modifies pmm`freePages, pmm`free, pmm`ram, pmm.bitmap
      ensures pmm.Valid() && Sane(pmm.Model())
      ensures r.None? <==> GetOrAlloc(old(pmm.Model()), table, i, flags).None?
      ensures r.Some? ==> GetOrAlloc(old(pmm.Model()), table, i, flags) == Some((pmm.Model(), r.value))
    {
      if !Present(pmm.ram[table][i]) {
        var page := pmm.AllocPage();
        if page.None? { return None; }
        var f := page.value / PAGE;
        pmm.ram := pmm.ram[table := pmm.ram[table][i := TableEntry(f, flags)]];
        TableEntryDecodes(f, flags);
      }
      r := Some(FrameOf(pmm.ram[table][i]));
    }

    /** get_or_alloc_table below a table of the tree. */
    method Descend(table: nat, i: Index, flags: nat) returns (r: Option<nat>)
      requires Valid() && table in paths && |paths[table]| < 3 && Low(paths[table], [i])
      modifies this`paths, pmm`freePages, pmm`free, pmm`ram, pmm.bitmap
      ensures pmm.Valid() && (r.Some? ==> Valid())
      ensures r.None? <==> GetOrAlloc(old(pmm.Model()), table, i, flags).None?
      ensures r.Some? ==> GetOrAlloc(old(pmm.Model()), table, i, flags) == Some((pmm.Model(), r.value))
      ensures r.Some? ==> r.value in paths && paths[r.value] == old(paths)[table] + [i] && r.value < FRAMES
    {
      ghost var m := pmm.Model();
      r := GetOrAllocTable(table, i, flags);
      if r.Some? { paths := GetOrAllocTree(m, root, paths, table, i, flags); }
    }

    /** The three calls of map_page: from the root to the last-level table. */
    method DescendAll(i4: Index, i3: Index, i2: Index, flags: nat) returns (r: Option<nat>)
      requires Valid() && i4 < 256
      modifies this`paths, pmm`freePages, pmm`free, pmm`ram, pmm.bitmap
      ensures pmm.Valid()
      ensures r.None? <==> EnsureTables(old(pmm.Model()), root, [i4, i3, i2], flags).None?
      ensures r.Some? ==> EnsureTables(old(pmm.Model()), root, [i4, i3, i2], flags) == Some((pmm.Model(), r.value))
      ensures r.Some? ==> r.value < FRAMES
    {
      ThreeCalls(pmm.Model(), root, i4, i3, i2, flags);
      var pdpt := Descend(root, i4, flags);
      if pdpt.None? { return None; }
      var pd := Descend(pdpt.value, i3, flags);
      if pd.None? { return None; }
      r := Descend(pd.value, i2, flags);
    }

    /** map_page; false is the out-of-memory panic. */
    method MapPage(phys: nat, virt: nat, flags: nat) returns (ok: bool)
      requires Valid() && virt / PAGE < LOW_PAGES
      modifies this`paths, pmm`freePages, pmm`free, pmm`ram, pmm.bitmap
      ensures pmm.Valid()
      ensures !ok <==> PagingModel.MapPage(old(pmm.Model()), root, phys, virt / PAGE, flags).None?
      ensures ok ==> Valid() && PagingModel.MapPage(old(pmm.Model()), root, phys, virt / PAGE, flags) == Some(pmm.Model())
      ensures ok ==> Flat(pmm.Model(), root) == old(Flat(pmm.Model(), root))[virt / PAGE := FrameOf(phys)]
      ensures ok ==> pmm.free <= old(pmm.free)
    {
      ghost var m, v, q := pmm.Model(), virt / PAGE, paths;
      var i4, i3, i2, i1: Index := virt / 0x80_0000_0000 % 512, virt / 0x4000_0000 % 512, virt / 0x20_0000 % 512, virt / 0x1000 % 512;
      assert Path(v)[..3] == [i4, i3, i2] && i4 < 256 by {
        MacrosAgree(virt);
        LowPath(v);
      }
      var pt := DescendAll(i4, i3, i2, flags);
      if pt.None? { return false; }
      pmm.ram := pmm.ram[pt.value := pmm.ram[pt.value][i1 := LeafEntry(phys, flags)]];
      ok := true;
      paths := MapPageRefines(m, root, q, phys, v, flags);
    }

    /** unmap_page: three early returns, then the entry is cleared. */
    method UnmapPage(virt: nat)
      requires Valid() && virt / PAGE < LOW_PAGES
      modifies pmm`ram
      ensures Valid() && pmm.Model() == PagingModel.UnmapPage(old(pmm.Model()), root, virt / PAGE)
      ensures Flat(pmm.Model(), root) == old(Flat(pmm.Model(), root)) - {virt / PAGE}
    {
      ghost var m, v := pmm.Model(), virt / PAGE;
      UnmapPageRefines(m, root, paths, v);
      MacrosAgree(virt);
      LowPath(v);
      var i4, i3, i2, i1: Index := virt / 0x80_0000_0000 % 512, virt / 0x4000_0000 % 512, virt / 0x20_0000 % 512, virt / 0x1000 % 512;
      assert Path(v)[..3] == [i4, i3, i2];
      ThreeSteps(m, root, i4, i3, i2);
      var pml4e := pmm.ram[root][i4];
      if !Present(pml4e) { return; }
      var pdpt := FrameOf(pml4e);
      assert pdpt in paths && |paths[pdpt]| == 1;
      var pdpte := pmm.ram[pdpt][i3];
      if !Present(pdpte) { return; }
      var pd := FrameOf(pdpte);
      assert pd in paths && |paths[pd]| == 2;
      var pde := pmm.ram[pd][i2];
      if !Present(pde) { return; }
      var pt := FrameOf(pde);
      assert pt in paths;
      pmm.ram := pmm.ram[pt := pmm.ram[pt][i1 := 0]];
    }
  }

  method CopyUpperHalf(pmm: FrameAllocator, pml4: nat, boot: Table)
    requires pmm.Valid() && pml4 < FRAMES
    modifies pmm`ram
    ensures pmm.Valid()
    ensures pmm.ram[pml4][..256] == old(pmm.ram)[pml4][..256] && pmm.ram[pml4][256..] == boot[256..]
  {
    var i := 256;
    while i < 512
      invariant 256 <= i <= 512 && |pmm.ram| == FRAMES
      invariant forall j :: 0 <= j < 256 ==> pmm.ram[pml4][j] == old(pmm.ram)[pml4][j]
      invariant forall j :: 256 <= j < i ==> pmm.ram[pml4][j] == boot[j]
    {
      pmm.ram := pmm.ram[pml4 := pmm.ram[pml4][i := boot[i]]];
      i := i + 1;
    }
  }

  /** vmm_init: a fresh root whose lower half is empty and whose upper half is copied. */
  method VmmInit(pmm: FrameAllocator, boot: Table) returns (r: Option<PageTables>)
    requires pmm.Valid()
    modifies pmm`freePages, pmm`free, pmm`ram, pmm.bitmap
    ensures r.None? <==> old(pmm.free) == {}
    ensures r.Some? ==> fresh(r.value) && r.value.pmm == pmm && r.value.Valid() && Flat(pmm.Model(), r.value.root) == map[]
    ensures r.Some? ==> pmm.ram[r.value.root][256..] == boot[256..]
  {
    var page := pmm.AllocPage();
    if page.None? { return None; }
    var pml4 := page.value / PAGE;
    CopyUpperHalf(pmm, pml4, boot);
    assert forall j :: 0 <= j < 256 ==> pmm.ram[pml4][..256][j] == 0;
    EmptyLowerHalf(pmm.Model(), pml4);
    var t := new PageTables(pmm, pml4);
    r := Some(t);
  }

  lemma EmptyLowerHalf(m: Mem, root: nat)
    requires Sane(m) && root < FRAMES && root !in m.free && forall j :: 0 <= j < 256 ==> m.ram[root][j] == 0
    ensures Tree(m, root, map[root := []]) && Flat(m, root) == map[]
  {
    assert Walk(m, root, []) == Some(root);
    forall v | 0 <= v < LOW_PAGES
      ensures Translate(m, root, v).None?
    {
      LowPath(v);
    }
  }

  datatype SysResult = Panicked | Einval | Enomem | Value(v: nat)

  datatype LoopEnd = OutOfMemory | ZeroPage | Finished

  /** The user address space behind sys_brk and sys_mmap, with their shared break. */
  class UserMemory {
    const tables: PageTables
    var brk: nat
    /** Which frame is a table, and which page each data frame backs. */
    ghost var layout: Layout

    ghost function Model(): User
      reads this, tables, tables.pmm
    {
      User(tables.pmm.Model(), brk)
    }

    ghost predicate Valid()
      reads this, tables, tables.pmm, tables.pmm.bitmap
    {
      tables.Valid() && UserInv(Model(), tables.root, layout)
    }

    /** On the tables vmm_init leaves. */
    constructor (t: PageTables)
      requires t.Valid() && Flat(t.pmm.Model(), t.root) == map[]
      ensures Valid() && tables == t && brk == USER_BASE && Booted(Model(), t.root)
    {
      tables, brk, layout := t, USER_BASE, Layout(t.paths, map[], map[]);
      new;
      BootedInv(Model(), tables.root, tables.paths);
    }

    /** One pass of the mapping loops: a fresh frame for page v, unless it is frame 0. */
    method MapOne(v: nat, ghost whole: Option<Mem>, ghost n: nat) returns (r: LoopEnd)
      requires tables.Valid() && v < LOW_PAGES && n > 0 && Continues(whole, tables.pmm.Model(), tables.root, v, n)
      modifies tables`paths, tables.pmm`freePages, tables.pmm`free, tables.pmm`ram, tables.pmm.bitmap
      ensures r.ZeroPage? <==> 0 in old(tables.pmm.free)
      ensures r.ZeroPage? ==> tables.Valid() && tables.pmm.Model() == Taken(old(tables.pmm.Model())).0
      ensures r.OutOfMemory? ==> whole.None?
      ensures r.Finished? ==> tables.Valid() && Continues(whole, tables.pmm.Model(), tables.root, v + 1, n - 1)
      ensures r.Finished? ==> 0 !in tables.pmm.free
    {
      ghost var m := tables.pmm.Model();
      ContinuesOn(whole, m, tables.root, v, n);
      var pa := tables.pmm.AllocPage();
      if pa.None? { return OutOfMemory; }
      TakenKeeps(m, tables.root, tables.paths);
      WholeFrame(pa.value);
      if pa.value == 0 { return ZeroPage; }
      assert v * PAGE / PAGE == v;
      var ok := tables.MapPage(pa.value, v * PAGE, USER_FLAGS);
      r := if ok then Finished else OutOfMemory;
    }

    /** The loop both calls share: n pages from page v on. */
    method MapPages(v: nat, n: nat) returns (r: LoopEnd)
      requires tables.Valid() && v + n <= LOW_PAGES
      modifies tables`paths, tables.pmm`freePages, tables.pmm`free, tables.pmm`ram, tables.pmm.bitmap
      ensures r.OutOfMemory? <==> MapLoop(old(tables.pmm.Model()), tables.root, v, n).Panic?
      ensures r.ZeroPage? ==> tables.Valid() && MapLoop(old(tables.pmm.Model()), tables.root, v, n) == NoPage(tables.pmm.Model())
      ensures r.Finished? ==> tables.Valid() && MapLoop(old(tables.pmm.Model()), tables.root, v, n) == Mapped(tables.pmm.Model())
    {
      hide Tree, MapFresh, FreshPage, Taken;
      ghost var whole := MapFresh(tables.pmm.Model(), tables.root, v, n);
      var page, left := v, n;
      while left > 0
        invariant page + left == v + n && tables.Valid()
        invariant Continues(whole, tables.pmm.Model(), tables.root, page, left)
        invariant if left == n then tables.pmm.Model() == old(tables.pmm.Model()) else 0 !in old(tables.pmm.free) && 0 !in tables.pmm.free
      {
        r := MapOne(page, whole, left);
        if !r.Finished? { return; }
        page, left := page + 1, left - 1;
      }
      ContinuesOn(whole, tables.pmm.Model(), tables.root, page, 0);
      r := Finished;
    }

    /** sys_brk: the model's call, and the invariant kept. */
    method SysBrk(to: nat) returns (r: SysResult)
      requires Valid() && to <= LOW_BYTES
      modifies this`brk, this`layout, tables`paths, tables.pmm`freePages, tables.pmm`free, tables.pmm`ram, tables.pmm.bitmap
      ensures r.Panicked? <==> SyscallModel.SysBrk(old(Model()), tables.root, to).Halted?
      ensures !r.Panicked? ==> Valid() && r.Value? && SyscallModel.SysBrk(old(Model()), tables.root, to) == Returned(Model(), r.v)
    {
      hide Tree, UserInv, MapLoop;
      ghost var u := Model();
      InvShape(u, tables.root, layout);
      if to == 0 { return Value(brk); }
      if to < brk { return Value(brk); }
      if to > brk + BRK_STEP { return Value(brk); }
      var first, end := PageUp(brk), PageUp(to);
      PagesBelow(to);
      var loop := MapPages(first, end - first);
      if loop.OutOfMemory? { return Panicked; }
      if loop.Finished? { brk := to; }
      r := Value(brk);
      assert SyscallModel.SysBrk(u, tables.root, to) == Returned(Model(), brk);
      layout := BrkKeeps(u, tables.root, layout, to);
    }

    /** sys_mmap: the model's call, and the invariant kept. */
    method SysMmap(addr: nat, length: nat) returns (r: SysResult)
      requires Valid() && LowHalf(Model(), Mmap(addr, length))
      modifies this`brk, this`layout, tables`paths, tables.pmm`freePages, tables.pmm`free, tables.pmm`ram, tables.pmm.bitmap
      ensures r.Panicked? <==> SyscallModel.SysMmap(old(Model()), tables.root, addr, length).Halted?
      ensures r.Einval? <==> length == 0
      ensures r.Einval? || r.Enomem? ==> Valid() && SyscallModel.SysMmap(old(Model()), tables.root, addr, length) == Failed(Model())
      ensures r.Value? ==> Valid() && SyscallModel.SysMmap(old(Model()), tables.root, addr, length) == Returned(Model(), r.v)
    {
      hide Tree, UserInv, MapLoop, Remaps, Flat;
      ghost var u := Model();
      InvShape(u, tables.root, layout);
      if length == 0 { return Einval; }
      var pages := PageUp(length);
      var first := PageUp(if addr != 0 then addr else brk);
      var loop := MapPages(first, pages);
      if loop.OutOfMemory? { return Panicked; }
      if loop.ZeroPage? {
        r := Enomem;
      } else {
        if addr == 0 { brk := (first + pages) * PAGE; }
        r := Value(first * PAGE);
      }
      layout := MmapKeeps(u, tables.root, layout, addr, length);
    }
  }

  lemma InvShape(u: User, root: nat, l: Layout)
    requires UserInv(u, root, l)
    ensures Sane(u.mem) && u.brk <= LOW_BYTES
  {
  }

  /** Mapping n more pages from page v on leads to the outcome of the whole loop. */
  ghost predicate Continues(whole: Option<Mem>, m: Mem, root: nat, v: nat, n: nat) {
    Sane(m) && whole == MapFresh(m, root, v, n)
  }

  lemma ContinuesOn(whole: Option<Mem>, m: Mem, root: nat, v: nat, n: nat)
    requires Continues(whole, m, root, v, n)
    ensures n == 0 ==> whole == Some(m)
    ensures n > 0 && FreshPage(m, root, v).None? ==> whole.None?
    ensures n > 0 && FreshPage(m, root, v).Some? ==> Continues(whole, FreshPage(m, root, v).value, root, v + 1, n - 1)
  {
  }

  lemma WholeFrame(addr: nat)
    requires addr % PAGE == 0
    ensures addr / PAGE * PAGE == addr
  {
  }

  lemma ThreeSteps(m: Mem, root: nat, a: Index, b: Index, c: Index)
    ensures Walk(m, root, [a, b, c]) ==
              var x := Child(m, root, a); if x.None? then None else
              var y := Child(m, x.value, b); if y.None? then None else Child(m, y.value, c)
  {
    WalkOn(m, root, [a, b], c);
    WalkOn(m, root, [a], b);
    WalkOn(m, root, [], a);
    assert [a, b] + [c] == [a, b, c] && [a] + [b] == [a, b] && [] + [a] == [a];
  }
}
