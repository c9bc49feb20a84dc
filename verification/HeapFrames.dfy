/** Where the heap's pages come from: heap_expand of kernel/mm/vmm.c on the frame allocator and the page
    tables. HeapModel takes the number of pages that they can provide as an input; here it is what they
    leave. */
module HeapFrames {
  import opened Common
  import PagingModel
  import opened HeapModel

  const HEAP_FLAGS: nat := 6                   // PF_WRITE | VM_EXEC

  /** One round: a frame from alloc_page, mapped by map_page; None is a panic. */
  ghost function HeapPage(m: PagingModel.Mem, root: nat, v: nat): (r: Option<(PagingModel.Mem, nat)>)
    requires PagingModel.Sane(m)
    ensures r.Some? ==> PagingModel.Sane(r.value.0)
  {
    if m.free == {} then None
    else
      var (m1, f) := PagingModel.Taken(m);
      match PagingModel.MapPage(m1, root, f * PAGE, v, HEAP_FLAGS)
      case None => None
      case Some(m2) => Some((m2, f))
  }

  lemma {:induction false} TablesUseUp(m: PagingModel.Mem, table: nat, p: PagingModel.Trail, flags: nat)
    requires PagingModel.Sane(m) && PagingModel.EnsureTables(m, table, p, flags).Some?
    ensures PagingModel.EnsureTables(m, table, p, flags).value.0.free <= m.free
    decreases |p|
  {
    if p != [] {
      var (m1, t) := PagingModel.GetOrAlloc(m, table, p[0], flags).value;
      TablesUseUp(m1, t, p[1..], flags);
    }
  }

  /** A page uses up its own frame and whatever tables it needs. */
  lemma PageUsesUp(m: PagingModel.Mem, root: nat, v: nat)
    requires PagingModel.Sane(m) && HeapPage(m, root, v).Some?
    ensures var (m2, f) := HeapPage(m, root, v).value; f in m.free && f !in m2.free && m2.free < m.free
    ensures |HeapPage(m, root, v).value.0.free| < |m.free|
  {
    var (m1, f) := PagingModel.Taken(m);
    TablesUseUp(m1, root, PagingModel.Path(v)[..3], HEAP_FLAGS);
    var m2 := HeapPage(m, root, v).value.0;
    Fewer(m2.free, m1.free);
  }

  lemma {:induction false} Fewer(a: set<nat>, b: set<nat>)
    requires a <= b
    ensures |a| <= |b|
  {
    assert b == a + (b - a);
  }

  /** The memory and the data frames after n pages from page v on; None is a panic. */
  ghost function HeapPages(m: PagingModel.Mem, root: nat, v: nat, n: nat): (r: Option<(PagingModel.Mem, seq<nat>)>)
    requires PagingModel.Sane(m)
    ensures r.Some? ==> PagingModel.Sane(r.value.0)
    decreases n
  {
    if n == 0 then Some((m, []))
    else
      match HeapPage(m, root, v)
      case None => None
      case Some((m1, f)) =>
        match HeapPages(m1, root, v + 1, n - 1)
        case None => None
        case Some((m2, fs)) => Some((m2, [f] + fs))
  }

  /** The data pages of the heap lie on distinct frames, all free before and none free after. */
  lemma {:induction false} FramesDistinct(m: PagingModel.Mem, root: nat, v: nat, n: nat)
    requires PagingModel.Sane(m) && HeapPages(m, root, v, n).Some?
    ensures var (m', fs) := HeapPages(m, root, v, n).value;
            && |fs| == n && Distinct(fs) && m'.free <= m.free
            && forall i :: 0 <= i < n ==> fs[i] in m.free && fs[i] !in m'.free
    decreases n
  {
    hide HeapPage;
    if n > 0 {
      var (m1, f) := HeapPage(m, root, v).value;
      PageUsesUp(m, root, v);
      FramesDistinct(m1, root, v + 1, n - 1);
      var (m2, fs) := HeapPages(m1, root, v + 1, n - 1).value;
      assert HeapPages(m, root, v, n).value == (m2, [f] + fs);
      assert f !in fs;
    }
  }

  /** How many pages from v on the frames and tables provide before a panic. */
  ghost function Supply(m: PagingModel.Mem, root: nat, v: nat): nat
    requires PagingModel.Sane(m)
    decreases |m.free|
  {
    var r := HeapPage(m, root, v);
    if r.None? then 0
    else
      PageUsesUp(m, root, v);
      1 + Supply(r.value.0, root, v + 1)
  }

  /** heap_expand over the page tables: page by page, the limit tested after each. */
  ghost function HeapExpand(m: PagingModel.Mem, root: nat, brk: nat, n: nat): (r: Option<(PagingModel.Mem, nat)>)
    requires PagingModel.Sane(m)
    ensures r.Some? ==> PagingModel.Sane(r.value.0)
    decreases n
  {
    if n == 0 then Some((m, brk))
    else
      match HeapPage(m, root, brk / PAGE)
      case None => None
      case Some((m1, _)) => if brk + PAGE > HEAP_START + HEAP_MAX then None else HeapExpand(m1, root, brk + PAGE, n - 1)
  }

  /** Growth over the page tables is growth over the number of pages they supply: it panics in the same
      cases, ends at the same break and leaves as many fewer. */
  lemma {:induction false} ExpandIsGrow(m: PagingModel.Mem, root: nat, brk: nat, n: nat)
    requires PagingModel.Sane(m) && brk >= HEAP_START && brk % PAGE == 0
    ensures HeapExpand(m, root, brk, n).Some? <==> Grow(brk, n, Supply(m, root, brk / PAGE)).Grown?
    ensures HeapExpand(m, root, brk, n).Some? ==>
              var (m', brk') := HeapExpand(m, root, brk, n).value;
              && brk' == Grow(brk, n, Supply(m, root, brk / PAGE)).brk == brk + n * PAGE
              && Supply(m', root, brk' / PAGE) == Supply(m, root, brk / PAGE) - n
    decreases n
  {
    hide HeapPage;
    var r := HeapPage(m, root, brk / PAGE);
    if n > 0 && r.Some? {
      PageUsesUp(m, root, brk / PAGE);
      assert (brk + PAGE) / PAGE == brk / PAGE + 1;
      ExpandIsGrow(r.value.0, root, brk + PAGE, n - 1);
    }
  }

  /** The frames and tables that remain are those of HeapPages. */
  lemma {:induction false} ExpandIsPages(m: PagingModel.Mem, root: nat, brk: nat, n: nat)
    requires PagingModel.Sane(m) && brk % PAGE == 0 && HeapExpand(m, root, brk, n).Some?
    ensures HeapPages(m, root, brk / PAGE, n).Some?
    ensures HeapPages(m, root, brk / PAGE, n).value.0 == HeapExpand(m, root, brk, n).value.0
    decreases n
  {
    hide HeapPage;
    if n > 0 {
      assert (brk + PAGE) / PAGE == brk / PAGE + 1;
      ExpandIsPages(HeapPage(m, root, brk / PAGE).value.0, root, brk + PAGE, n - 1);
    }
  }

  /** The pages a first call sets the heap up with. */
  function SetUp(h: Heap): nat { if h.blocks == [] then 1 else 0 }

  /** kmalloc over the page tables panics exactly when heap_expand does: for the page that sets the heap
      up, or, no block being large enough, for the pages the request needs. */
  lemma MallocPanics(m: PagingModel.Mem, root: nat, h: Heap, request: nat)
    requires PagingModel.Sane(m) && Inv(h) && 0 < request <= MAX_REQUEST
    ensures var frames := Supply(m, root, h.brk / PAGE);
            Malloc(h, request, frames).Panic? <==>
              var first := HeapExpand(m, root, h.brk, SetUp(h));
              || first.None?
              || (&& Initialised(h, frames).Done?
                  && var h0 := Initialised(h, frames).heap;
                     && FirstFit(h0.blocks, AlignUp(request, 16)) == |h0.blocks|
                     && HeapExpand(first.value.0, root, h0.brk, ExpandBytes(request) / PAGE).None?)
  {
    hide HeapExpand, HeapPage, Supply, Grow;
    var frames := Supply(m, root, h.brk / PAGE);
    var first := HeapExpand(m, root, h.brk, SetUp(h));
    if h.blocks != [] { BreakAboveStart(h); }
    ExpandIsGrow(m, root, h.brk, SetUp(h));
    GrowthIs(h.brk, SetUp(h), frames);
    MallocCorrect(h, request, frames);
    ExpandCovers(request);
    if first.Some? {
      InitialisedIs(h, frames);
      var h0 := Initialised(h, frames).heap;
      ExpandIsGrow(first.value.0, root, h0.brk, ExpandBytes(request) / PAGE);
      BreakAboveStart(h0);
      GrowthIs(h0.brk, ExpandBytes(request) / PAGE, Supply(first.value.0, root, h0.brk / PAGE));
    }
  }
}
