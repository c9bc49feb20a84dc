/** What kmalloc, kfree and krealloc do to the block list, said of addresses and sizes alone. */
module HeapLaws {
  import opened Common
  import opened HeapModel

  /** r is bs with block k handed out: cut behind size bytes if 64 more are there, whole otherwise. */
  ghost predicate Carved(bs: seq<Block>, r: seq<Block>, k: nat, size: nat) {
    k < |bs| && var b := bs[k];
    r == if b.size >= size + 64 then
           bs[..k] + [Block(b.addr, size, false), Block(b.addr + 32 + size, b.size - size - 32, true)] + bs[k + 1..]
         else bs[..k] + [Block(b.addr, b.size, false)] + bs[k + 1..]
  }

  /** Block k is the first free one with room for size bytes. */
  ghost predicate IsFirst(bs: seq<Block>, k: nat, size: nat) {
    k < |bs| && bs[k].free && size <= bs[k].size && forall j :: 0 <= j < k ==> !(bs[j].free && size <= bs[j].size)
  }

  lemma CarveLaw(bs: seq<Block>, k: nat, size: nat)
    requires k < |bs| && Fits(bs[k], size)
    ensures Carved(bs, Carve(bs, k, size), k, size)
  {
    var r := Carve(bs, k, size);
    if bs[k].size >= size + 64 {
      assert r == bs[..k] + [Block(bs[k].addr, size, false), Block(bs[k].addr + 32 + size, bs[k].size - size - 32, true)] + bs[k + 1..];
    } else {
      assert r == bs[..k] + [Block(bs[k].addr, bs[k].size, false)] + bs[k + 1..];
    }
  }

  /** The request in whole units of 16 bytes. */
  function Rounded(request: nat): nat { (request + 15) / 16 * 16 }

  /** The pages a growth for size bytes takes. */
  function PagesFor(size: nat): nat { (size + 32 + 4095) / 4096 }

  lemma RoundedIs(request: nat)
    requires 0 < request <= MAX_REQUEST
    ensures AlignUp(request, 16) == Rounded(request) && ExpandBytes(request) == PagesFor(Rounded(request)) * 4096
  {
    var size := Rounded(request);
    assert request + 15 < TWO64;
    assert AlignUp(request, 16) == size;
    var y := size + 32 + 4095;
    assert size + 32 < TWO64 && y < TWO64;
    assert AlignUp(size + 32, 4096) == y - y % 4096;
  }

  /** A heap in use: the first block that is large enough, or else one made of fresh pages. */
  lemma MallocLaw(h: Heap, request: nat, frames: nat)
    requires Inv(h) && h.blocks != [] && 0 < request <= MAX_REQUEST
    ensures forall k: nat :: IsFirst(h.blocks, k, Rounded(request)) ==>
              var o := Malloc(h, request, frames);
              o.Done? && o.ptr == h.blocks[k].addr + 32 && o.heap.brk == h.brk && Carved(h.blocks, o.heap.blocks, k, Rounded(request))
    ensures (forall k: nat :: !IsFirst(h.blocks, k, Rounded(request))) ==>
              var o, pages := Malloc(h, request, frames), PagesFor(Rounded(request));
              if pages <= frames && h.brk + pages * 4096 <= 0xFFFF_FFFF_9000_0000 + 64 * 1024 * 1024 then
                var grown := h.blocks + [Block(h.brk, pages * 4096 - 32, true)];
                && o.Done? && o.ptr == h.brk + 32 && o.heap.brk == h.brk + pages * 4096
                && Carved(grown, o.heap.blocks, |h.blocks|, Rounded(request))
              else o == Panic
  {
    hide Malloc, Carved, Inv;
    var k := FirstFit(h.blocks, Rounded(request));
    if k < |h.blocks| {
      FirstIs(h.blocks, k, Rounded(request));
      FromList(h, request, frames, k);
    } else {
      NoneFirst(h.blocks, Rounded(request));
      Grows(h, request, frames);
    }
  }

  lemma FirstIs(bs: seq<Block>, k: nat, size: nat)
    requires k == FirstFit(bs, size) < |bs|
    ensures IsFirst(bs, k, size) && forall j: nat :: IsFirst(bs, j, size) ==> j == k
  {
  }

  lemma FromList(h: Heap, request: nat, frames: nat, k: nat)
    requires Inv(h) && h.blocks != [] && 0 < request <= MAX_REQUEST && k == FirstFit(h.blocks, Rounded(request)) < |h.blocks|
    ensures var o := Malloc(h, request, frames);
            o.Done? && o.ptr == h.blocks[k].addr + 32 && o.heap.brk == h.brk && Carved(h.blocks, o.heap.blocks, k, Rounded(request))
  {
    RoundedIs(request);
    hide Carve, Carved, AlignUp, Rounded, Extended;
    CarveLaw(h.blocks, k, Rounded(request));
  }

  lemma NoneFirst(bs: seq<Block>, size: nat)
    requires FirstFit(bs, size) == |bs|
    ensures forall k: nat :: !IsFirst(bs, k, size)
  {
  }

  lemma Grows(h: Heap, request: nat, frames: nat)
    requires Inv(h) && h.blocks != [] && 0 < request <= MAX_REQUEST && FirstFit(h.blocks, Rounded(request)) == |h.blocks|
    ensures var o, pages := Malloc(h, request, frames), PagesFor(Rounded(request));
            if pages <= frames && h.brk + pages * 4096 <= 0xFFFF_FFFF_9000_0000 + 64 * 1024 * 1024 then
              var grown := h.blocks + [Block(h.brk, pages * 4096 - 32, true)];
              && o.Done? && o.ptr == h.brk + 32 && o.heap.brk == h.brk + pages * 4096
              && Carved(grown, o.heap.blocks, |h.blocks|, Rounded(request))
            else o == Panic
  {
    hide Carve, FirstFit, Carved;
    var size, pages := Rounded(request), PagesFor(Rounded(request));
    RoundedIs(request);
    ExpandCovers(request);
    BreakAboveStart(h);
    GrowthIs(h.brk, pages, frames);
    assert ExpandBytes(request) / PAGE == pages;
    if pages <= frames && h.brk + pages * 4096 <= HEAP_START + HEAP_MAX {
      ExtendedIs(h, request, frames);
      var h1 := Extended(h, ExpandBytes(request), frames).heap;
      RetryFits(h, h1, size);
      CarveLaw(h1.blocks, |h.blocks|, size);
    }
  }

  /** The first call takes one page and makes it one free block; a request for nothing does nothing. */
  lemma FirstMalloc(request: nat, frames: nat)
    requires 0 < request <= MAX_REQUEST
    ensures Malloc(EMPTY, request, 0) == Panic
    ensures frames > 0 ==>
              (Malloc(EMPTY, request, frames) ==
               Malloc(Heap([Block(0xFFFF_FFFF_9000_0000, 4064, true)], 0xFFFF_FFFF_9000_1000), request, frames - 1))
    ensures forall h: Heap :: Malloc(h, 0, frames) == Done(h, 0)
  {
    GrowthIs(HEAP_START, 1, frames);
  }

  /** The freed block takes in the free blocks on either side, headers and all. */
  ghost predicate Released(bs: seq<Block>, r: seq<Block>, k: nat) {
    k < |bs| &&
    var from := if k > 0 && bs[k - 1].free then k - 1 else k;
    var last := if k + 1 < |bs| && bs[k + 1].free then k + 1 else k;
    && |r| == |bs| - (last - from) && r[..from] == bs[..from] && r[from + 1..] == bs[last + 1..]
    && r[from].free && r[from].addr == bs[from].addr && r[from].addr + r[from].size == bs[last].addr + bs[last].size
  }

  /** Joining with the next block. */
  lemma NextLaw(h: Heap, k: nat)
    requires Tiled(h) && k < |h.blocks|
    ensures var bs, r := h.blocks, JoinNext(h.blocks, k);
            var last := if k + 1 < |bs| && bs[k + 1].free then k + 1 else k;
            && |r| == |bs| - (last - k) && r[..k] == bs[..k] && r[k + 1..] == bs[last + 1..]
            && r[k].free == bs[k].free && r[k].addr == bs[k].addr && r[k].addr + r[k].size == bs[last].addr + bs[last].size
  {
    var bs := h.blocks;
    if k + 1 < |bs| && bs[k + 1].free {
      assert bs[k].End() == bs[k + 1].addr;
      MergeAt(h, k);
    }
  }

  lemma ReleaseLaw(h: Heap, k: nat)
    requires Tiled(h) && Coalesced(h.blocks) && k < |h.blocks| && !h.blocks[k].free
    ensures Released(h.blocks, Release(h.blocks, k), k)
  {
    hide Merge, Tiled, Coalesced, CoalescedBut;
    var bs := h.blocks;
    var b0 := bs[k := bs[k].(free := true)];
    MarkKeeps(h, k);
    JoinNextKeeps(h, k);
    NextLaw(Heap(b0, h.brk), k);
    var b1 := JoinNext(b0, k);
    assert b1[..k] == bs[..k];
    if k > 0 {
      assert b1[k - 1] == b1[..k][k - 1] == bs[k - 1];
      NextLaw(Heap(b1, h.brk), k - 1);
      BackwardLaw(bs, b1, JoinPrevious(b1, k), k);
    }
  }

  /** Joining with the previous block is joining the previous block with this one. */
  lemma BackwardLaw(bs: seq<Block>, b1: seq<Block>, r: seq<Block>, k: nat)
    requires 0 < k < |bs| && k < |b1| && r == JoinPrevious(b1, k) && b1[k].free
    requires b1[..k] == bs[..k] && b1[k - 1] == bs[k - 1]
    requires var last := if k + 1 < |bs| && bs[k + 1].free then k + 1 else k;
             && |b1| == |bs| - (last - k) && b1[k + 1..] == bs[last + 1..]
             && b1[k].addr == bs[k].addr && b1[k].addr + b1[k].size == bs[last].addr + bs[last].size
    requires var t := JoinNext(b1, k - 1);
             && t[..k - 1] == b1[..k - 1] && t[k..] == b1[k + 1..] && |t| == |b1| - 1
             && t[k - 1].free == b1[k - 1].free && t[k - 1].addr == b1[k - 1].addr
             && t[k - 1].addr + t[k - 1].size == b1[k].addr + b1[k].size
    ensures Released(bs, r, k)
  {
    assert bs[..k - 1] == bs[..k][..k - 1] && b1[..k - 1] == b1[..k][..k - 1];
  }

  /** kfree of a live pointer releases the one block whose payload it is. */
  lemma FreeLaw(h: Heap, ptr: nat) returns (k: nat)
    requires Inv(h) && Live(h, ptr)
    ensures k < |h.blocks| && h.blocks[k].addr + 32 == ptr && !h.blocks[k].free
    ensures Free(h, ptr).brk == h.brk && Released(h.blocks, Free(h, ptr).blocks, k)
  {
    k := IndexOf(h.blocks, ptr);
    FreeCorrect(h, ptr);
    ReleaseLaw(h, k);
  }

  /** krealloc: NULL is kmalloc; a size of 0 frees the block and returns NULL; a block that is large
      enough stays; otherwise the new block comes from kmalloc and the old one is freed. */
  lemma ReallocLaw(h: Heap, ptr: nat, request: nat, frames: nat, b: Block)
    requires Inv(h) && request <= MAX_REQUEST && b in LiveBlocks(h) && b.addr + 32 == ptr
    ensures Live(h, ptr)
    ensures Realloc(h, 0, request, frames) == Malloc(h, request, frames)
    ensures request == 0 ==> var o := Realloc(h, ptr, request, frames);
              o.Done? && o.ptr == 0 && o.heap == Free(h, ptr) && LiveBlocks(o.heap) == LiveBlocks(h) - {b}
    ensures 0 < request <= b.size ==> Realloc(h, ptr, request, frames) == Done(h, ptr)
    ensures request > b.size ==>
              var o, m := Realloc(h, ptr, request, frames), Malloc(h, request, frames);
              && (o.Panic? <==> m.Panic?)
              && (o.Done? ==> Live(m.heap, ptr) && o == Done(Free(m.heap, ptr), m.ptr) && LiveBlocks(o.heap) == LiveBlocks(m.heap) - {b})
  {
    hide Malloc, Free, Inv;
    OneAt(h, b, ptr);
    if request == 0 {
      FreeCorrect(h, ptr);
    } else if request > b.size {
      var m := Malloc(h, request, frames);
      if m.Done? {
        StillLive(h, ptr, request, frames);
        MallocCorrect(h, request, frames);
        assert b in LiveBlocks(m.heap);
        OneAt(m.heap, b, ptr);
        FreeCorrect(m.heap, ptr);
      }
    }
  }

  lemma OneAt(h: Heap, b: Block, ptr: nat)
    requires Inv(h) && b in LiveBlocks(h) && b.addr + 32 == ptr
    ensures ptr > 0 && Live(h, ptr) && IndexOf(h.blocks, ptr) < |h.blocks| && h.blocks[IndexOf(h.blocks, ptr)] == b
  {
    var i :| 0 <= i < |h.blocks| && h.blocks[i] == b;
    var k := IndexOf(h.blocks, ptr);
    AddressesDiffer(h.blocks, i, k);
  }

  /** What each operation of a run does. */
  lemma StepLaw(h: Heap, ptr: nat, request: nat, frames: nat)
    requires Inv(h) && Legal(h, OpAlloc(request, frames)) && Legal(h, OpFree(ptr)) && Legal(h, OpResize(ptr, request, frames))
    ensures Step(h, OpAlloc(request, frames)) == Malloc(h, request, frames)
    ensures Step(h, OpResize(ptr, request, frames)) == Realloc(h, ptr, request, frames)
    ensures Step(h, OpFree(0)) == Done(h, 0) && (ptr != 0 ==> Step(h, OpFree(ptr)) == Done(Free(h, ptr), 0))
  {
  }
}
