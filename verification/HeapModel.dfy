/** The kernel heap of kernel/mm/vmm.c as a pure state machine: the block list in
    address order, first fit with splitting, growth by whole pages, and release with
    coalescing. Panics (heap exhausted, no physical frame) are an outcome.

    Widths are explicit: request arithmetic is modulo 2^64 (usize) and the size field of
    a block header is modulo 2^32. */
module HeapModel {
  import opened Common

  const HEADER: nat := 32
  const HEAP_START: nat := 0xFFFF_FFFF_9000_0000
  const HEAP_MAX: nat := 0x400_0000
  /** The largest request whose page-rounded growth does not wrap around 2^64. */
  const MAX_REQUEST: nat := TWO64 - 4128

  datatype Block = Block(addr: nat, size: nat, free: bool)
  {
    function Payload(): nat { addr + HEADER }
    function End(): nat { addr + HEADER + size }
  }

  datatype Heap = Heap(blocks: seq<Block>, brk: nat)

  datatype Outcome = Panic | Done(heap: Heap, ptr: nat)

  datatype Growth = Exhausted | Grown(brk: nat)

  /** The number of bytes kmalloc asks heap_expand for. */
  function ExpandBytes(size: nat): nat { AlignUp((AlignUp(size, 16) + HEADER) % TWO64, PAGE) }

  // ---------------------------------------------------------------- invariant

  ghost predicate Contiguous(bs: seq<Block>) {
    forall i, j :: 0 <= i && j == i + 1 && j < |bs| ==> bs[i].End() == bs[j].addr
  }

  ghost predicate Coalesced(bs: seq<Block>) {
    forall i, j :: 0 <= i && j == i + 1 && j < |bs| ==> !(bs[i].free && bs[j].free)
  }

  /** Like Coalesced, but says nothing about the pair (k - 1, k). */
  ghost predicate CoalescedBut(bs: seq<Block>, k: nat) {
    forall i, j :: 0 <= i && j == i + 1 && j < |bs| && j != k ==> !(bs[i].free && bs[j].free)
  }

  ghost predicate Shaped(bs: seq<Block>) {
    forall i :: 0 <= i < |bs| ==> bs[i].addr % 16 == 0 && bs[i].size % 16 == 0 && bs[i].size >= 16
  }

  /** The list tiles [HEAP_START, brk) exactly with 16-aligned blocks. */
  ghost predicate Tiled(h: Heap) {
    && |h.blocks| > 0
    && h.blocks[0].addr == HEAP_START
    && h.blocks[|h.blocks| - 1].End() == h.brk
    && h.brk <= HEAP_START + HEAP_MAX
    && h.brk % PAGE == 0
    && Contiguous(h.blocks)
    && Shaped(h.blocks)
  }

  /** Either never used, or tiled with no two adjacent free blocks. */
  ghost predicate Inv(h: Heap) {
    (h.blocks == [] && h.brk == HEAP_START) || (Tiled(h) && Coalesced(h.blocks))
  }

  ghost predicate Live(h: Heap, ptr: nat) {
    exists i :: 0 <= i < |h.blocks| && h.blocks[i].Payload() == ptr && !h.blocks[i].free
  }

  // --------------------------------------------------------------- operations

  predicate Fits(b: Block, size: nat) { b.free && b.size >= size }

  /** The index of the first fitting block, or |bs|. */
  function FirstFit(bs: seq<Block>, size: nat): (k: nat)
    ensures k <= |bs|
    ensures k < |bs| ==> Fits(bs[k], size)
    ensures forall j :: 0 <= j < k ==> !Fits(bs[j], size)
  {
    if bs == [] then 0
    else if Fits(bs[0], size) then 0
    else
      var k := FirstFit(bs[1..], size);
      assert forall j :: 0 < j < k + 1 ==> bs[j] == bs[1..][j - 1];
      k + 1
  }

  /** Cut block k in two free blocks, the first of `size` bytes. */
  function Split(bs: seq<Block>, k: nat, size: nat): seq<Block>
    requires k < |bs| && bs[k].size >= size + HEADER
  {
    var b := bs[k];
    bs[..k] + [b.(size := size), Block(b.addr + HEADER + size, b.size - size - HEADER, true)] + bs[k + 1..]
  }

  /** Block k, cut when the remainder can hold a header and 32 bytes. */
  function Fitted(bs: seq<Block>, k: nat, size: nat): (r: seq<Block>)
    requires k < |bs|
    ensures k < |r|
  {
    if bs[k].size >= size + HEADER + 32 then Split(bs, k, size) else bs
  }

  /** Allocate from block k. */
  function Carve(bs: seq<Block>, k: nat, size: nat): seq<Block>
    requires k < |bs| && Fits(bs[k], size)
  {
    var r := Fitted(bs, k, size);
    r[k := r[k].(free := false)]
  }

  /** heap_expand, page by page: each page needs a frame, and the limit is tested after each. */
  function Grow(brk: nat, pages: nat, frames: nat): Growth
    decreases pages
  {
    if pages == 0 then Grown(brk)
    else if frames == 0 then Exhausted
    else if brk + PAGE - HEAP_START > HEAP_MAX then Exhausted
    else Grow(brk + PAGE, pages - 1, frames - 1)
  }

  /** The heap once the first call has set it up. */
  function Initialised(h: Heap, frames: nat): Outcome {
    if h.blocks != [] then Done(h, 0)
    else
      match Grow(h.brk, 1, frames)
      case Exhausted => Panic
      case Grown(brk) => Done(Heap([Block(HEAP_START, PAGE - HEADER, true)], brk), 0)
  }

  /** Append one free block covering `bytes` fresh bytes. */
  function Extended(h: Heap, bytes: nat, frames: nat): Outcome {
    match Grow(h.brk, bytes / PAGE, frames)
    case Exhausted => Panic
    case Grown(brk) => Done(Heap(h.blocks + [Block(h.brk, (bytes + TWO32 - HEADER) % TWO32, true)], brk), 0)
  }

  /** First fit without growing; None when no block fits. */
  function Attempt(h: Heap, size: nat): Outcome {
    var k := FirstFit(h.blocks, size);
    if k < |h.blocks| then Done(Heap(Carve(h.blocks, k, size), h.brk), h.blocks[k].Payload()) else Panic
  }

  /** kmalloc. `frames` is how many more heap pages alloc_page and map_page can provide between them
      before one of them panics (HeapFrames.Supply). The retry after growth is a second attempt; MallocCorrect shows that
      it never fails, and RetriesOnce that this is what the source's recursion comes to. */
  function Malloc(h: Heap, request: nat, frames: nat): Outcome {
    if request == 0 then Done(h, 0)
    else
      var size := AlignUp(request, 16);
      match Initialised(h, frames)
      case Panic => Panic
      case Done(h0, _) =>
        var left := if h.blocks == [] then frames - 1 else frames;
        if FirstFit(h0.blocks, size) < |h0.blocks| then Attempt(h0, size)
        else
          match Extended(h0, ExpandBytes(request), left)
          case Panic => Panic
          case Done(h1, _) => Attempt(h1, size)
  }

  /** Merge blocks k and k + 1 into the former. */
  function Merge(bs: seq<Block>, k: nat): seq<Block>
    requires k + 1 < |bs|
  {
    bs[..k] + [bs[k].(size := (bs[k].size + HEADER + bs[k + 1].size) % TWO32)] + bs[k + 2..]
  }

  /** kfree of block k: mark, coalesce with the next block, then with the previous one. */
  function Release(bs: seq<Block>, k: nat): seq<Block>
    requires k < |bs|
  {
    JoinPrevious(JoinNext(bs[k := bs[k].(free := true)], k), k)
  }

  function JoinNext(bs: seq<Block>, k: nat): (r: seq<Block>)
    requires k < |bs|
    ensures k < |r|
  {
    if k + 1 < |bs| && bs[k + 1].free then Merge(bs, k) else bs
  }

  function JoinPrevious(bs: seq<Block>, k: nat): seq<Block>
    requires k < |bs|
  {
    if k > 0 && bs[k - 1].free then Merge(bs, k - 1) else bs
  }

  function IndexOf(bs: seq<Block>, ptr: nat): (k: nat)
    ensures k <= |bs|
    ensures k < |bs| ==> bs[k].Payload() == ptr
    ensures forall j :: 0 <= j < k ==> bs[j].Payload() != ptr
  {
    if bs == [] then 0
    else if bs[0].Payload() == ptr then 0
    else
      var k := IndexOf(bs[1..], ptr);
      assert forall j :: 0 < j < k + 1 ==> bs[j] == bs[1..][j - 1];
      k + 1
  }

  function Free(h: Heap, ptr: nat): Heap
    requires Live(h, ptr)
  {
    Heap(Release(h.blocks, IndexOf(h.blocks, ptr)), h.brk)
  }

  // ------------------------------------------------------------------ lemmas

  /** For a nonzero request, the growth covers the aligned request and a header exactly
      when the request is at most MAX_REQUEST; above it the arithmetic wraps. */
  lemma ExpandCovers(request: nat)
    requires 0 < request < TWO64
    ensures request <= MAX_REQUEST <==> ExpandBytes(request) >= request + HEADER
    ensures request <= MAX_REQUEST ==>
              && ExpandBytes(request) >= AlignUp(request, 16) + HEADER >= request + HEADER
              && AlignUp(request, 16) % 16 == 0
              && AlignUp(request, 16) < request + 16
              && ExpandBytes(request) % PAGE == 0
              && ExpandBytes(request) <= TWO64 - PAGE
  {
    var y := request + 15;
    if y < TWO64 {
      assert AlignUp(request, 16) == y - y % 16;
      var z := y - y % 16 + HEADER;
    } else {
      assert y % TWO64 == y - TWO64 < 16;
      assert AlignUp(request, 16) == 0;
    }
  }

  lemma {:induction false} GrowthIs(brk: nat, pages: nat, frames: nat)
    requires brk >= HEAP_START
    ensures Grow(brk, pages, frames).Grown? <==>
              pages <= frames && (pages == 0 || brk + pages * PAGE <= HEAP_START + HEAP_MAX)
    ensures Grow(brk, pages, frames).Grown? ==> Grow(brk, pages, frames).brk == brk + pages * PAGE
    decreases pages
  {
    if pages > 0 && frames > 0 && brk + PAGE - HEAP_START <= HEAP_MAX {
      GrowthIs(brk + PAGE, pages - 1, frames - 1);
    }
  }

  /** Address order is list order, and blocks never overlap. */
  lemma {:induction false} Ordered(bs: seq<Block>, i: nat, j: nat)
    requires Contiguous(bs) && i < j < |bs|
    ensures bs[i].End() <= bs[j].addr
    decreases j - i
  {
    if i + 1 < j {
      Ordered(bs, i + 1, j);
      assert bs[i].End() == bs[i + 1].addr;
    }
  }

  lemma AddressesDiffer(bs: seq<Block>, i: nat, j: nat)
    requires Contiguous(bs) && i < |bs| && j < |bs| && bs[i].addr == bs[j].addr
    ensures i == j
  {
    if i < j { Ordered(bs, i, j); } else if j < i { Ordered(bs, j, i); }
  }

  lemma BreakAboveStart(h: Heap)
    requires Tiled(h)
    ensures h.brk >= HEAP_START + HEADER
  {
    if |h.blocks| > 1 { Ordered(h.blocks, 0, |h.blocks| - 1); }
  }

  /** Index by index, what Split leaves where. */
  lemma SplitAt(bs: seq<Block>, k: nat, size: nat)
    requires k < |bs| && bs[k].size >= size + HEADER
    ensures var c := Split(bs, k, size);
            && |c| == |bs| + 1
            && (forall i :: 0 <= i < k ==> c[i] == bs[i])
            && (forall i :: k + 1 < i < |c| ==> c[i] == bs[i - 1])
            && c[k] == bs[k].(size := size)
            && c[k + 1] == Block(c[k].End(), bs[k].size - size - HEADER, true)
  {
  }

  lemma Multiples16(a: nat, b: nat)
    requires a % 16 == 0 && b % 16 == 0
    ensures (a + b) % 16 == 0 && (a >= b ==> (a - b) % 16 == 0)
  {
  }

  lemma SplitKeeps(h: Heap, k: nat, size: nat)
    requires Tiled(h) && k < |h.blocks| && size % 16 == 0 && size >= 16
    requires h.blocks[k].size >= size + HEADER + 32
    ensures Tiled(Heap(Split(h.blocks, k, size), h.brk))
  {
    var bs, c := h.blocks, Split(h.blocks, k, size);
    SplitAt(bs, k, size);
    forall i, j | 0 <= i && j == i + 1 && j < |c|
      ensures c[i].End() == c[j].addr
    {
      assert j <= k ==> bs[i].End() == bs[j].addr;
      assert i > k ==> bs[i - 1].End() == bs[j - 1].addr;
    }
    assert Shaped(c) by {
      Multiples16(HEADER, size);
      Multiples16(bs[k].addr, HEADER + size);
      Multiples16(bs[k].size, size + HEADER);
      forall i | 0 <= i < |c|
        ensures c[i].addr % 16 == 0 && c[i].size % 16 == 0 && c[i].size >= 16
      {
        if i > k + 1 { assert c[i] == bs[i - 1]; }
      }
    }
    assert c[|c| - 1].End() == bs[|bs| - 1].End();
  }

  /** The block taken for the caller separates any two free blocks around it. */
  lemma TakeKeeps(h: Heap, k: nat)
    requires Tiled(h) && k < |h.blocks|
    requires forall i, j :: 0 <= i && j == i + 1 && j < |h.blocks| && j != k && i != k ==>
                !(h.blocks[i].free && h.blocks[j].free)
    ensures Inv(Heap(h.blocks[k := h.blocks[k].(free := false)], h.brk))
  {
  }

  lemma CarveKeeps(h: Heap, k: nat, size: nat)
    requires Tiled(h) && k < |h.blocks| && Fits(h.blocks[k], size) && size % 16 == 0 && size >= 16
    requires CoalescedBut(h.blocks, k)
    ensures Inv(Heap(Carve(h.blocks, k, size), h.brk))
  {
    var bs, c := h.blocks, Fitted(h.blocks, k, size);
    if bs[k].size >= size + HEADER + 32 {
      SplitAt(bs, k, size);
      SplitKeeps(h, k, size);
      forall i, j | 0 <= i && j == i + 1 && j < |c| && j != k && i != k
        ensures !(c[i].free && c[j].free)
      {
        assert i > k ==> !(bs[i - 1].free && bs[j - 1].free);
        assert j < k ==> !(bs[i].free && bs[j].free);
      }
    }
    TakeKeeps(Heap(c, h.brk), k);
  }

  /** The allocated blocks, each with its address and granted size. */
  ghost function LiveBlocks(h: Heap): set<Block> {
    set b | b in h.blocks && !b.free
  }

  lemma SplitLive(h: Heap, k: nat, size: nat)
    requires Tiled(h) && k < |h.blocks| && h.blocks[k].size >= size + HEADER && h.blocks[k].free
    ensures LiveBlocks(Heap(Split(h.blocks, k, size), h.brk)) == LiveBlocks(h)
  {
    var bs, c := h.blocks, Split(h.blocks, k, size);
    SplitAt(bs, k, size);
    forall b | b in bs && !b.free
      ensures b in c
    {
      var i :| 0 <= i < |bs| && bs[i] == b;
      assert c[if i < k then i else i + 1] == b;
    }
    forall b | b in c && !b.free
      ensures b in bs
    {
      var i :| 0 <= i < |c| && c[i] == b;
      assert bs[if i < k then i else i - 1] == b;
    }
  }

  lemma TakeLive(h: Heap, k: nat)
    requires Tiled(h) && k < |h.blocks| && h.blocks[k].free
    ensures var g := h.blocks[k].(free := false);
            && LiveBlocks(Heap(h.blocks[k := g], h.brk)) == LiveBlocks(h) + {g}
            && g !in LiveBlocks(h)
  {
    var bs, g := h.blocks, h.blocks[k].(free := false);
    var c := bs[k := g];
    forall b | b in bs && !b.free
      ensures b in c
    {
      var i :| 0 <= i < |bs| && bs[i] == b;
      assert c[i] == b;
    }
    assert c[k] == g;
    if g in LiveBlocks(h) {
      var i :| 0 <= i < |bs| && bs[i] == g;
      AddressesDiffer(bs, i, k);
    }
  }

  /** Carving block k makes exactly one more block live: the one it hands out. */
  lemma CarveLive(h: Heap, k: nat, size: nat)
    requires Tiled(h) && k < |h.blocks| && Fits(h.blocks[k], size) && size % 16 == 0 && size >= 16
    ensures var c := Carve(h.blocks, k, size);
            && k < |c|
            && LiveBlocks(Heap(c, h.brk)) == LiveBlocks(h) + {c[k]}
            && c[k] !in LiveBlocks(h)
            && c[k].addr == h.blocks[k].addr && size <= c[k].size <= size + 48 && !c[k].free
  {
    var bs := h.blocks;
    if bs[k].size >= size + HEADER + 32 {
      SplitAt(bs, k, size);
      SplitLive(h, k, size);
      SplitKeeps(h, k, size);
    }
    TakeLive(Heap(Fitted(bs, k, size), h.brk), k);
  }

  lemma InitialisedIs(h: Heap, frames: nat)
    requires Inv(h)
    ensures var o := Initialised(h, frames);
            && (o.Panic? <==> h.blocks == [] && frames == 0)
            && (o.Done? ==> Tiled(o.heap) && Coalesced(o.heap.blocks) && LiveBlocks(o.heap) == LiveBlocks(h))
  {
    GrowthIs(HEAP_START, 1, frames);
  }

  lemma AppendKeeps(h: Heap, bytes: nat)
    requires Tiled(h) && bytes % PAGE == 0 && bytes > 0 && h.brk + bytes <= HEAP_START + HEAP_MAX
    ensures var h1 := Heap(h.blocks + [Block(h.brk, bytes - HEADER, true)], h.brk + bytes);
            Tiled(h1) && LiveBlocks(h1) == LiveBlocks(h)
  {
    hide LiveBlocks;
    var n, bs := |h.blocks|, h.blocks + [Block(h.brk, bytes - HEADER, true)];
    assert forall i :: 0 <= i < n ==> bs[i] == h.blocks[i];
    PageMultiples(h.brk);
    PageMultiples(bytes);
    assert bs[n].End() == h.brk + bytes;
    AppendLive(h, bs[n]);
  }

  lemma AppendLive(h: Heap, b: Block)
    requires b.free
    ensures LiveBlocks(Heap(h.blocks + [b], b.End())) == LiveBlocks(h)
  {
    var h1 := Heap(h.blocks + [b], b.End());
    forall g ensures g in LiveBlocks(h1) <==> g in LiveBlocks(h) {
      assert g in h1.blocks <==> g in h.blocks || g == b;
    }
  }

  lemma PageMultiples(x: nat)
    requires x % PAGE == 0
    ensures x % 16 == 0 && (x >= HEADER ==> (x - HEADER) % 16 == 0)
  {
    assert x == 16 * (256 * (x / PAGE));
  }

  /** Growing appends one free block large enough for the request it was made for. */
  lemma ExtendedIs(h: Heap, request: nat, frames: nat)
    requires Tiled(h) && 0 < request <= MAX_REQUEST
    ensures var o := Extended(h, ExpandBytes(request), frames);
            o.Done? ==>
              && o.heap == Heap(h.blocks + [Block(h.brk, ExpandBytes(request) - HEADER, true)], h.brk + ExpandBytes(request))
              && Tiled(o.heap)
              && Fits(o.heap.blocks[|h.blocks|], AlignUp(request, 16))
              && LiveBlocks(o.heap) == LiveBlocks(h)
  {
    var bytes := ExpandBytes(request);
    ExpandCovers(request);
    BreakAboveStart(h);
    GrowthIs(h.brk, bytes / PAGE, frames);
    if Extended(h, bytes, frames).Done? {
      assert bytes / PAGE * PAGE == bytes;
      AppendKeeps(h, bytes);
    }
  }

  /** The first block that fits is the one behind the returned pointer. */
  lemma AttemptIs(h: Heap, size: nat)
    requires Tiled(h) && size % 16 == 0 && size >= 16
    requires FirstFit(h.blocks, size) < |h.blocks|
    requires CoalescedBut(h.blocks, FirstFit(h.blocks, size))
    ensures var o := Attempt(h, size);
            o.Done? && Inv(o.heap) && Granted(h, o, size)
  {
    var k := FirstFit(h.blocks, size);
    CarveKeeps(h, k, size);
    CarveLive(h, k, size);
    var c := Carve(h.blocks, k, size);
    assert IsGrant(h, Attempt(h, size), size, c[k]);
  }

  /** `o` extends the live blocks of `h` by one new block: the one behind o.ptr, holding at
      least `size` bytes and at most 48 more. */
  ghost predicate Granted(h: Heap, o: Outcome, size: nat) {
    o.Done? &&
    exists g :: IsGrant(h, o, size, g)
  }

  ghost predicate IsGrant(h: Heap, o: Outcome, size: nat, g: Block)
    requires o.Done?
  {
    && g.Payload() == o.ptr
    && size <= g.size <= size + 48
    && g !in LiveBlocks(h)
    && LiveBlocks(o.heap) == LiveBlocks(h) + {g}
  }

  /** kmalloc keeps the invariant, adds exactly one live block of the promised size, and needs
      at most one growth: after growing, the retry always finds a block. */
  lemma MallocCorrect(h: Heap, request: nat, frames: nat)
    requires Inv(h) && 0 < request <= MAX_REQUEST
    ensures var o := Malloc(h, request, frames);
            o.Done? ==> Inv(o.heap) && Granted(h, o, AlignUp(request, 16)) && request <= AlignUp(request, 16) < request + 16
    ensures Malloc(h, request, frames).Panic? <==>
              || (h.blocks == [] && frames == 0)
              || (Initialised(h, frames).Done? &&
                  var h0 := Initialised(h, frames).heap;
                  var left := if h.blocks == [] then frames - 1 else frames;
                  && FirstFit(h0.blocks, AlignUp(request, 16)) == |h0.blocks|
                  && (ExpandBytes(request) > left * PAGE || h0.brk + ExpandBytes(request) > HEAP_START + HEAP_MAX))
  {
    var size := AlignUp(request, 16);
    ExpandCovers(request);
    InitialisedIs(h, frames);
    if Initialised(h, frames).Done? {
      var h0 := Initialised(h, frames).heap;
      var left := if h.blocks == [] then frames - 1 else frames;
      if FirstFit(h0.blocks, size) < |h0.blocks| {
        AttemptIs(h0, size);
        GrantCarries(h, h0, Malloc(h, request, frames), size);
      } else {
        ExtendedIs(h0, request, left);
        BreakAboveStart(h0);
        GrowthIs(h0.brk, ExpandBytes(request) / PAGE, left);
        if Extended(h0, ExpandBytes(request), left).Done? {
          var h1 := Extended(h0, ExpandBytes(request), left).heap;
          RetryFits(h0, h1, size);
          AttemptIs(h1, size);
          GrantCarries(h, h1, Malloc(h, request, frames), size);
        }
      }
    }
  }

  /** Where the granted block sits in the new list. */
  lemma FindGrant(h: Heap, request: nat, frames: nat) returns (k: nat)
    requires Inv(h) && 0 < request <= MAX_REQUEST && Malloc(h, request, frames).Done?
    ensures var o := Malloc(h, request, frames);
            && k < |o.heap.blocks| && !o.heap.blocks[k].free && o.heap.blocks[k].Payload() == o.ptr
            && request <= o.heap.blocks[k].size <= AlignUp(request, 16) + 48
            && o.heap.blocks[k] !in LiveBlocks(h)
  {
    MallocCorrect(h, request, frames);
    var o := Malloc(h, request, frames);
    var g :| IsGrant(h, o, AlignUp(request, 16), g);
    assert g in LiveBlocks(o.heap);
    k :| 0 <= k < |o.heap.blocks| && o.heap.blocks[k] == g;
  }

  /** The retry after growth: it fits, in the appended block, so it is a plain attempt. */
  lemma RetryAttempts(h: Heap, request: nat, frames: nat, left: nat)
    requires Tiled(h) && Coalesced(h.blocks) && 0 < request <= MAX_REQUEST
    requires FirstFit(h.blocks, AlignUp(request, 16)) == |h.blocks|
    ensures var size := AlignUp(request, 16);
            var o := Extended(h, ExpandBytes(request), frames);
            && AlignUp(size, 16) == size
            && (o.Done? ==>
                  && Tiled(o.heap)
                  && FirstFit(o.heap.blocks, size) == |o.heap.blocks| - 1
                  && CoalescedBut(o.heap.blocks, |o.heap.blocks| - 1)
                  && Malloc(o.heap, size, left) == Attempt(o.heap, size))
  {
    var size := AlignUp(request, 16);
    ExpandCovers(request);
    assert (size + 15) % 16 == 15;
    ExtendedIs(h, request, frames);
    var o := Extended(h, ExpandBytes(request), frames);
    if o.Done? { RetryFits(h, o.heap, size); }
  }

  /** kmalloc as the source has it, for every usize request: the retry is a call of itself. A growth
      that wraps to nothing leaves the new header in unmapped memory, which halts like a panic. */
  function Recursive(h: Heap, request: nat, frames: nat): Outcome
    decreases frames
  {
    if request == 0 then Done(h, 0)
    else
      var size, expand := AlignUp(request, 16), ExpandBytes(request);
      match Initialised(h, frames)
      case Panic => Panic
      case Done(h0, _) =>
        var left := if h.blocks == [] then frames - 1 else frames;
        if FirstFit(h0.blocks, size) < |h0.blocks| then Attempt(h0, size)
        else if expand < PAGE || expand / PAGE > left then Panic
        else
          match Extended(h0, expand, left)
          case Panic => Panic
          case Done(h1, _) => Recursive(h1, size, left - expand / PAGE)
  }

  /** Up to MAX_REQUEST the recursion is one attempt, or one growth and one more attempt. */
  lemma RetriesOnce(h: Heap, request: nat, frames: nat)
    requires Inv(h) && request <= MAX_REQUEST
    ensures Recursive(h, request, frames) == Malloc(h, request, frames)
  {
    if request > 0 && Initialised(h, frames).Done? {
      var size, expand := AlignUp(request, 16), ExpandBytes(request);
      InitialisedIs(h, frames);
      var h0 := Initialised(h, frames).heap;
      var left := if h.blocks == [] then frames - 1 else frames;
      if FirstFit(h0.blocks, size) == |h0.blocks| {
        ExpandCovers(request);
        BreakAboveStart(h0);
        GrowthIs(h0.brk, expand / PAGE, left);
        RetryAttempts(h0, request, left, 0);
      }
    }
  }

  /** Every size fits the 32-bit header field. */
  ghost predicate Narrow(bs: seq<Block>) { forall i :: 0 <= i < |bs| ==> bs[i].size < TWO32 }

  lemma {:induction false} StaysNarrow(h: Heap, request: nat, frames: nat)
    requires Narrow(h.blocks) && Recursive(h, request, frames).Done?
    ensures Narrow(Recursive(h, request, frames).heap.blocks)
    decreases frames
  {
    if request > 0 {
      var size, expand := AlignUp(request, 16), ExpandBytes(request);
      var h0 := Initialised(h, frames).heap;
      assert Narrow(h0.blocks);
      var left := if h.blocks == [] then frames - 1 else frames;
      var k := FirstFit(h0.blocks, size);
      if k < |h0.blocks| {
        CarveNarrow(h0.blocks, k, size);
      } else {
        var h1 := Extended(h0, expand, left).heap;
        assert Narrow(h1.blocks);
        StaysNarrow(h1, size, left - expand / PAGE);
      }
    }
  }

  lemma CarveNarrow(bs: seq<Block>, k: nat, size: nat)
    requires Narrow(bs) && k < |bs| && Fits(bs[k], size)
    ensures Narrow(Carve(bs, k, size))
  {
    if bs[k].size >= size + HEADER + 32 { SplitAt(bs, k, size); }
  }

  lemma TiledNarrow(h: Heap)
    requires Tiled(h)
    ensures Narrow(h.blocks)
  {
    forall i | 0 <= i < |h.blocks| ensures h.blocks[i].size < TWO32 {
      if i > 0 { Ordered(h.blocks, 0, i); }
      if i < |h.blocks| - 1 { Ordered(h.blocks, i, |h.blocks| - 1); }
    }
  }

  /** The pointer returned has a live block of the requested size behind it. */
  ghost predicate Serves(o: Outcome, request: nat) {
    o.Done? && exists g :: g in LiveBlocks(o.heap) && g.Payload() == o.ptr && request <= g.size
  }

  /** Over all requests: a call that returns serves its caller exactly up to MAX_REQUEST; above, the
      size rounds to nothing or the growth wraps, and whatever is handed out is too small. */
  lemma ServesIff(h: Heap, request: nat, frames: nat)
    requires Inv(h) && 0 < request < TWO64 && Recursive(h, request, frames).Done?
    ensures Serves(Recursive(h, request, frames), request) <==> request <= MAX_REQUEST
  {
    if request <= MAX_REQUEST {
      RetriesOnce(h, request, frames);
      var k := FindGrant(h, request, frames);
      assert Malloc(h, request, frames).heap.blocks[k] in LiveBlocks(Malloc(h, request, frames).heap);
    } else {
      if h.blocks != [] { TiledNarrow(h); }
      StaysNarrow(h, request, frames);
    }
  }

  /** Such calls do return: the size of the largest request rounds to 0, and the untouched heap hands
      out a block of 0 bytes. */
  lemma LargestRequest()
    ensures Inv(EMPTY)
    ensures var o := Recursive(EMPTY, TWO64 - 1, 1); o.Done? && o.heap.blocks[0].size == 0 && !Serves(o, TWO64 - 1)
  {
    var o := Recursive(EMPTY, TWO64 - 1, 1);
    assert AlignUp(TWO64 - 1, 16) == 0;
    InitialisedIs(EMPTY, 1);
    if Serves(o, TWO64 - 1) { ServesIff(EMPTY, TWO64 - 1, 1); }
  }

  /** After growth the first fit is the appended block, and it is the only place where two free
      blocks may touch. */
  lemma RetryFits(h0: Heap, h1: Heap, size: nat)
    requires |h1.blocks| == |h0.blocks| + 1 && h1.blocks[..|h0.blocks|] == h0.blocks
    requires Coalesced(h0.blocks)
    requires Fits(h1.blocks[|h0.blocks|], size)
    requires FirstFit(h0.blocks, size) == |h0.blocks|
    ensures FirstFit(h1.blocks, size) == |h0.blocks|
    ensures CoalescedBut(h1.blocks, |h0.blocks|)
  {
    assert forall i :: 0 <= i < |h0.blocks| ==> h1.blocks[i] == h0.blocks[i];
  }

  lemma GrantCarries(h: Heap, h0: Heap, o: Outcome, size: nat)
    requires LiveBlocks(h) == LiveBlocks(h0) && Granted(h0, o, size)
    ensures Granted(h, o, size)
  {
    var g :| IsGrant(h0, o, size, g);
    assert IsGrant(h, o, size, g);
  }

  /** Index by index, what Merge leaves where; the 32-bit sum of sizes does not wrap. */
  lemma MergeAt(h: Heap, k: nat)
    requires Tiled(h) && k + 1 < |h.blocks|
    ensures var bs, m := h.blocks, Merge(h.blocks, k);
            && |m| == |bs| - 1
            && m[k] == Block(bs[k].addr, bs[k].size + HEADER + bs[k + 1].size, bs[k].free)
            && (forall i :: 0 <= i < k ==> m[i] == bs[i])
            && (forall i :: k < i < |m| ==> m[i] == bs[i + 1])
  {
    var bs := h.blocks;
    if k > 0 { Ordered(bs, 0, k); }
    if k + 1 < |bs| - 1 { Ordered(bs, k + 1, |bs| - 1); }
    assert bs[k].End() == bs[k + 1].addr;
    assert bs[k].size + HEADER + bs[k + 1].size < TWO32;
  }

  lemma MergeKeeps(h: Heap, k: nat)
    requires Tiled(h) && k + 1 < |h.blocks|
    ensures Tiled(Heap(Merge(h.blocks, k), h.brk))
  {
    var bs, m := h.blocks, Merge(h.blocks, k);
    MergeAt(h, k);
    hide Merge;
    MergedContiguous(bs, m, k);
    MergedShaped(bs, m, k);
    assert bs[k].End() == bs[k + 1].addr;
  }

  lemma MergedContiguous(bs: seq<Block>, m: seq<Block>, k: nat)
    requires Contiguous(bs) && k + 1 < |bs| && |m| == |bs| - 1
    requires m[k].addr == bs[k].addr && m[k].size == bs[k].size + HEADER + bs[k + 1].size
    requires (forall i :: 0 <= i < k ==> m[i] == bs[i]) && forall i :: k < i < |m| ==> m[i] == bs[i + 1]
    ensures Contiguous(m)
  {
    assert bs[k].End() == bs[k + 1].addr;
    forall i, j | 0 <= i && j == i + 1 && j < |m|
      ensures m[i].End() == m[j].addr
    {
      assert j <= k ==> bs[i].End() == bs[j].addr;
      assert j > k ==> bs[i + 1].End() == bs[j + 1].addr;
    }
  }

  lemma MergedShaped(bs: seq<Block>, m: seq<Block>, k: nat)
    requires Shaped(bs) && k + 1 < |bs| && |m| == |bs| - 1
    requires m[k].addr == bs[k].addr && m[k].size == bs[k].size + HEADER + bs[k + 1].size
    requires (forall i :: 0 <= i < k ==> m[i] == bs[i]) && forall i :: k < i < |m| ==> m[i] == bs[i + 1]
    ensures Shaped(m)
  {
  }

  lemma MarkKeeps(h: Heap, k: nat)
    requires Tiled(h) && k < |h.blocks|
    ensures Tiled(Heap(h.blocks[k := h.blocks[k].(free := true)], h.brk))
  {
  }

  lemma JoinNextKeeps(h: Heap, k: nat)
    requires Tiled(h) && Coalesced(h.blocks) && k < |h.blocks| && !h.blocks[k].free
    ensures var b1 := JoinNext(h.blocks[k := h.blocks[k].(free := true)], k);
            Tiled(Heap(b1, h.brk)) && CoalescedBut(b1, k)
  {
    var bs := h.blocks;
    var b0 := bs[k := bs[k].(free := true)];
    MarkKeeps(h, k);
    var b1 := JoinNext(b0, k);
    if k + 1 < |b0| && b0[k + 1].free {
      MergeAt(Heap(b0, h.brk), k);
      MergeKeeps(Heap(b0, h.brk), k);
      forall i, j | 0 <= i && j == i + 1 && j < |b1| && j != k
        ensures !(b1[i].free && b1[j].free)
      {
        assert j < k ==> !(bs[i].free && bs[j].free);
        assert i >= k ==> !(bs[i + 1].free && bs[j + 1].free);
      }
    }
  }

  lemma JoinPreviousKeeps(h: Heap, k: nat)
    requires Tiled(h) && CoalescedBut(h.blocks, k) && k < |h.blocks| && h.blocks[k].free
    ensures Inv(Heap(JoinPrevious(h.blocks, k), h.brk))
  {
    var bs, m := h.blocks, JoinPrevious(h.blocks, k);
    if k > 0 && bs[k - 1].free {
      MergeAt(h, k - 1);
      MergeKeeps(h, k - 1);
      forall i, j | 0 <= i && j == i + 1 && j < |m|
        ensures !(m[i].free && m[j].free)
      {
        assert j < k ==> !(bs[i].free && bs[j].free);
        assert j >= k ==> !(bs[i + 1].free && bs[j + 1].free);
      }
    }
  }

  /** kfree keeps the invariant: the freed block absorbs its free neighbours. */
  lemma ReleaseKeeps(h: Heap, k: nat)
    requires Tiled(h) && Coalesced(h.blocks) && k < |h.blocks| && !h.blocks[k].free
    ensures Inv(Heap(Release(h.blocks, k), h.brk))
  {
    var b0 := h.blocks[k := h.blocks[k].(free := true)];
    JoinNextKeeps(h, k);
    MarkKeeps(h, k);
    if k + 1 < |b0| { MergeAt(Heap(b0, h.brk), k); }
    JoinPreviousKeeps(Heap(JoinNext(b0, k), h.brk), k);
  }

  lemma JoinNextLive(h: Heap, k: nat)
    requires Tiled(h) && k < |h.blocks| && h.blocks[k].free
    ensures LiveBlocks(Heap(JoinNext(h.blocks, k), h.brk)) == LiveBlocks(h)
  {
    if k + 1 < |h.blocks| && h.blocks[k + 1].free { MergeLive(h, k); }
  }

  lemma MergeLive(h: Heap, k: nat)
    requires Tiled(h) && k + 1 < |h.blocks| && h.blocks[k].free && h.blocks[k + 1].free
    ensures LiveBlocks(Heap(Merge(h.blocks, k), h.brk)) == LiveBlocks(h)
  {
    var bs, m := h.blocks, Merge(h.blocks, k);
    MergeAt(h, k);
    forall b | b in LiveBlocks(h)
      ensures b in m
    {
      var i :| 0 <= i < |bs| && bs[i] == b;
      assert m[if i < k then i else i - 1] == b;
    }
    forall b | b in m && !b.free
      ensures b in bs
    {
      var i :| 0 <= i < |m| && m[i] == b;
      assert bs[if i < k then i else i + 1] == b;
    }
  }

  /** kfree removes exactly the freed block from the live ones. */
  lemma FreeCorrect(h: Heap, ptr: nat)
    requires Inv(h) && Live(h, ptr)
    ensures var k := IndexOf(h.blocks, ptr);
            && k < |h.blocks|
            && h.blocks[k] in LiveBlocks(h) && h.blocks[k].Payload() == ptr
            && LiveBlocks(Free(h, ptr)) == LiveBlocks(h) - {h.blocks[k]}
            && Inv(Free(h, ptr))
  {
    var bs, k := h.blocks, IndexOf(h.blocks, ptr);
    var i :| 0 <= i < |bs| && bs[i].Payload() == ptr && !bs[i].free;
    AddressesDiffer(bs, i, k);
    ReleaseKeeps(h, k);
    var b0 := bs[k := bs[k].(free := true)];
    MarkKeeps(h, k);
    MarkLive(h, k);
    JoinNextLive(Heap(b0, h.brk), k);
    JoinNextKeeps(h, k);
    var h1 := Heap(JoinNext(b0, k), h.brk);
    assert h1.blocks[k].free by {
      if k + 1 < |b0| { MergeAt(Heap(b0, h.brk), k); }
    }
    if k > 0 && h1.blocks[k - 1].free { MergeLive(h1, k - 1); }
  }

  lemma MarkLive(h: Heap, k: nat)
    requires Tiled(h) && k < |h.blocks| && !h.blocks[k].free
    ensures LiveBlocks(Heap(h.blocks[k := h.blocks[k].(free := true)], h.brk)) == LiveBlocks(h) - {h.blocks[k]}
  {
    var bs := h.blocks;
    var b0 := bs[k := bs[k].(free := true)];
    forall b | b in LiveBlocks(h) && b != bs[k]
      ensures b in b0
    {
      var i :| 0 <= i < |bs| && bs[i] == b;
      assert b0[i] == b;
    }
    forall b | b in b0 && !b.free
      ensures b in bs && b != bs[k]
    {
      var i :| 0 <= i < |b0| && b0[i] == b;
      if bs[i] == bs[k] { AddressesDiffer(bs, i, k); }
    }
  }

  lemma MergeUndoesSplit(h: Heap, k: nat, size: nat)
    requires Tiled(h) && k < |h.blocks| && size % 16 == 0 && size >= 16
    requires h.blocks[k].size >= size + HEADER + 32
    ensures Merge(Split(h.blocks, k, size), k) == h.blocks
  {
    SplitAt(h.blocks, k, size);
    SplitKeeps(h, k, size);
    MergeAt(Heap(Split(h.blocks, k, size), h.brk), k);
  }

  lemma ReleaseUndoesCarve(h: Heap, k: nat, size: nat)
    requires Tiled(h) && Coalesced(h.blocks) && k < |h.blocks| && Fits(h.blocks[k], size)
    requires size % 16 == 0 && size >= 16
    ensures Release(Carve(h.blocks, k, size), k) == h.blocks
  {
    var bs, c := h.blocks, Fitted(h.blocks, k, size);
    assert k + 1 < |bs| ==> !bs[k + 1].free;
    assert k > 0 ==> !bs[k - 1].free;
    if bs[k].size >= size + HEADER + 32 {
      SplitAt(bs, k, size);
      MergeUndoesSplit(h, k, size);
    }
    assert c[k := c[k].(free := false)][k := c[k]] == c;
    assert JoinNext(c, k) == bs;
  }

  /** When kmalloc needs no growth, freeing its result at once restores the very same list. */
  lemma FreeUndoesMalloc(h: Heap, request: nat, frames: nat)
    requires Inv(h) && h.blocks != [] && 0 < request <= MAX_REQUEST
    requires FirstFit(h.blocks, AlignUp(request, 16)) < |h.blocks|
    ensures var o := Malloc(h, request, frames);
            o.Done? && Live(o.heap, o.ptr) && Free(o.heap, o.ptr) == h
  {
    var size := AlignUp(request, 16);
    var k := FirstFit(h.blocks, size);
    ExpandCovers(request);
    AttemptIs(h, size);
    var o := Malloc(h, request, frames);
    CarveLive(h, k, size);
    var c := Carve(h.blocks, k, size);
    assert o == Done(Heap(c, h.brk), c[k].Payload());
    assert Contiguous(c);
    AddressesDiffer(c, IndexOf(c, c[k].Payload()), k);
    ReleaseUndoesCarve(h, k, size);
  }

  /** Any two live payloads are 16-aligned, lie inside the heap and do not overlap. */
  lemma LivePayloadsDisjoint(h: Heap, b: Block, c: Block)
    requires Inv(h) && b in LiveBlocks(h) && c in LiveBlocks(h) && b != c
    ensures b.Payload() % 16 == 0 && HEAP_START <= b.addr && b.End() <= h.brk
    ensures b.End() <= c.addr || c.End() <= b.addr
  {
    var i :| 0 <= i < |h.blocks| && h.blocks[i] == b;
    var j :| 0 <= j < |h.blocks| && h.blocks[j] == c;
    if i < j { Ordered(h.blocks, i, j); } else { Ordered(h.blocks, j, i); }
    if i > 0 { Ordered(h.blocks, 0, i); }
    if i < |h.blocks| - 1 { Ordered(h.blocks, i, |h.blocks| - 1); }
  }

  // -------------------------------------------------------------------- runs

  /** krealloc: in place when the block is large enough, otherwise allocate, copy, free. */
  function Realloc(h: Heap, ptr: nat, request: nat, frames: nat): Outcome
    requires Inv(h) && request <= MAX_REQUEST && (ptr == 0 || Live(h, ptr))
  {
    if ptr == 0 then Malloc(h, request, frames)
    else if request == 0 then Done(Free(h, ptr), 0)
    else if h.blocks[IndexOf(h.blocks, ptr)].size >= request then Done(h, ptr)
    else
      match Malloc(h, request, frames)
      case Panic => Panic
      case Done(h1, p1) => StillLive(h, ptr, request, frames); Done(Free(h1, ptr), p1)
  }

  lemma StillLive(h: Heap, ptr: nat, request: nat, frames: nat)
    requires Inv(h) && Live(h, ptr) && 0 < request <= MAX_REQUEST && Malloc(h, request, frames).Done?
    ensures Live(Malloc(h, request, frames).heap, ptr)
  {
    MallocCorrect(h, request, frames);
    hide Malloc, Inv;
    var i :| 0 <= i < |h.blocks| && h.blocks[i].Payload() == ptr && !h.blocks[i].free;
    assert h.blocks[i] in LiveBlocks(h);
    var h1 := Malloc(h, request, frames).heap;
    assert h.blocks[i] in LiveBlocks(h1);
    var j :| 0 <= j < |h1.blocks| && h1.blocks[j] == h.blocks[i];
  }

  datatype Op = OpAlloc(request: nat, frames: nat) | OpFree(ptr: nat) | OpResize(ptr: nat, request: nat, frames: nat)

  /** What the kernel demands of callers: requests below the wrap-around, frees of live pointers. */
  ghost predicate Legal(h: Heap, op: Op) {
    match op
    case OpAlloc(request, _) => request <= MAX_REQUEST
    case OpFree(ptr) => ptr == 0 || Live(h, ptr)
    case OpResize(ptr, request, _) => request <= MAX_REQUEST && (ptr == 0 || Live(h, ptr))
  }

  ghost function Step(h: Heap, op: Op): (o: Outcome)
    requires Inv(h) && Legal(h, op)
    ensures o.Done? ==> Inv(o.heap)
  {
    match op
    case OpAlloc(request, frames) =>
      ReallocKeeps(h, 0, request, frames); Malloc(h, request, frames)
    case OpFree(ptr) =>
      if ptr == 0 then Done(h, 0) else FreeCorrect(h, ptr); Done(Free(h, ptr), 0)
    case OpResize(ptr, request, frames) =>
      ReallocKeeps(h, ptr, request, frames); Realloc(h, ptr, request, frames)
  }

  lemma ReallocKeeps(h: Heap, ptr: nat, request: nat, frames: nat)
    requires Inv(h) && request <= MAX_REQUEST && (ptr == 0 || Live(h, ptr))
    ensures var o := Realloc(h, ptr, request, frames); o.Done? ==> Inv(o.heap)
  {
    if request == 0 {
      if ptr != 0 { FreeCorrect(h, ptr); }
    } else {
      MallocCorrect(h, request, frames);
      var o := Malloc(h, request, frames);
      if ptr != 0 && o.Done? {
        StillLive(h, ptr, request, frames);
        FreeCorrect(o.heap, ptr);
      }
    }
  }

  /** `last` is reached from `h` by the legal operations `ops`, none of which panics. */
  ghost predicate Run(h: Heap, ops: seq<Op>, last: Heap)
    requires Inv(h)
    decreases |ops|
  {
    if ops == [] then last == h
    else Legal(h, ops[0]) && Step(h, ops[0]).Done? && Run(Step(h, ops[0]).heap, ops[1..], last)
  }

  const EMPTY: Heap := Heap([], HEAP_START)

  /** After every run from the untouched heap: the list is in address order, tiles the heap,
      holds no two adjacent free blocks, and live payloads are pairwise disjoint and aligned. */
  lemma RunsAreSafe(ops: seq<Op>, last: Heap)
    requires Run(EMPTY, ops, last)
    ensures Inv(last)
    ensures forall b, c :: b in LiveBlocks(last) && c in LiveBlocks(last) && b != c ==>
              b.Payload() % 16 == 0 && (b.End() <= c.addr || c.End() <= b.addr)
  {
    hide LiveBlocks, Tiled, Step;
    RunKeeps(EMPTY, ops, last);
    forall b, c | b in LiveBlocks(last) && c in LiveBlocks(last) && b != c
      ensures b.Payload() % 16 == 0 && (b.End() <= c.addr || c.End() <= b.addr)
    {
      LivePayloadsDisjoint(last, b, c);
    }
  }

  lemma {:induction false} RunKeeps(h: Heap, ops: seq<Op>, last: Heap)
    requires Inv(h) && Run(h, ops, last)
    ensures Inv(last)
    decreases |ops|
  {
    if ops != [] { RunKeeps(Step(h, ops[0]).heap, ops[1..], last); }
  }
}
