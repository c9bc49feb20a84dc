/** kmalloc, kzmalloc, kfree and krealloc on headers in memory, following the pointers as
    kernel/mm/vmm.c does, proved against HeapModel. */
module KernelHeap {
  import opened Common
  import opened HeapModel
  import opened HeapMemory

  datatype Reply = Halted | Pointer(p: nat)

  class Allocator {
    var mem: Memory
    var head: nat
    var brk: nat
    /** The block list that the headers in memory represent. */
    ghost var blocks: seq<Block>

    ghost function Model(): Heap
      reads this
    {
      Heap(blocks, brk)
    }

    /** The headers represent `blocks`, which tile the region. */
    ghost predicate Consistent()
      reads this
    {
      && (Tiled(Model()) || (blocks == [] && brk == HEAP_START))
      && head == HeadOf(blocks)
      && brk >= HEAP_START
      && |mem.bytes| == brk - HEAP_START
      && Linked(mem, blocks)
      && Faithful(mem)
    }

    ghost predicate Valid()
      reads this
    {
      Consistent() && Inv(Model())
    }

    /** Every live block with the bytes of its payload. */
    ghost function Contents(): map<Block, seq<Byte>>
      reads this
    {
      ContentsOf(mem, Model())
    }

    constructor ()
      ensures Valid() && Model() == EMPTY
    {
      mem := Memory(map[], []);
      head, brk, blocks := 0, HEAP_START, [];
    }

    /** heap_expand: one frame and one page at a time; false is the panic. */
    method Expand(bytes: nat, frames: nat) returns (ok: bool, left: nat)
      requires bytes % PAGE == 0 && bytes <= TWO64 - PAGE && brk >= HEAP_START && |mem.bytes| == brk - HEAP_START && Faithful(mem)
      modifies this`mem, this`brk
      ensures ok <==> Grow(old(brk), bytes / PAGE, frames).Grown?
      ensures ok ==>
                && brk == Grow(old(brk), bytes / PAGE, frames).brk == old(brk) + bytes
                && left == frames - bytes / PAGE
                && |mem.bytes| == brk - HEAP_START
                && mem.headers == old(mem.headers)
                && old(mem.bytes) <= mem.bytes
                && Faithful(mem)
    {
      var pages := AlignUp(bytes, PAGE) / PAGE;
      assert pages == bytes / PAGE;
      left := frames;
      var i := 0;
      GrowthIs(brk, pages, frames);
      while i < pages
        invariant 0 <= i <= pages
        invariant brk == old(brk) + i * PAGE && left == frames - i
        invariant |mem.bytes| == brk - HEAP_START && mem.headers == old(mem.headers)
        invariant old(mem.bytes) <= mem.bytes && Faithful(mem)
        invariant i > 0 ==> brk <= HEAP_START + HEAP_MAX
      {
        if left == 0 { return false, 0; }
        left := left - 1;
        PageFaithful(mem);
        mem := AddPage(mem);
        brk := brk + PAGE;
        if brk - HEAP_START > HEAP_MAX { return false, 0; }
        i := i + 1;
      }
      ok := true;
    }

    /** Walk the list from the head for the first block that fits; 0 when there is none. */
    method Scan(size: nat) returns (blk: nat, ghost k: nat)
      requires Consistent()
      ensures k == FirstFit(blocks, size)
      ensures blk == if k < |blocks| then blocks[k].addr else 0
    {
      blk, k := head, 0;
      while blk != 0
        invariant k <= |blocks|
        invariant blk == if k < |blocks| then blocks[k].addr else 0
        invariant forall j :: 0 <= j < k ==> !Fits(blocks[j], size)
        decreases |blocks| - k
      {
        assert LinkedAt(mem, blocks, k);
        var h := mem.headers[blk];
        if h.free && h.size >= size {
          FirstFitIs(blocks, size, k);
          return;
        }
        blk, k := h.next, k + 1;
      }
      assert k == |blocks| by {
        if k < |blocks| { AddressPositive(Model(), k); }
      }
      FirstFitIs(blocks, size, k);
    }

    /** Split block k in memory; both halves are left free. */
    method SplitBlock(blk: nat, size: nat, ghost k: nat)
      requires Consistent() && k < |blocks| && blk == blocks[k].addr && blocks[k].free
      requires size % 16 == 0 && size >= 16 && blocks[k].size >= size + HEADER + 32
      modifies this`mem, this`blocks
      ensures Consistent() && blocks == Split(old(blocks), k, size)
      ensures Contents() == old(Contents())
    {
      hide Split, StoreHeader, LiveBlocks, ContentsOf, Coalesced, Faithful, Contiguous, Shaped;
      ghost var bs, c := blocks, Split(blocks, k, size);
      ghost var hc := Heap(c, brk);
      SplitAt(bs, k, size);
      SplitKeeps(Model(), k, size);
      SplitLive(Model(), k, size);
      SameContents(mem, Model(), hc);
      SplitPending(mem, bs, k, size);
      AddressPositive(Model(), k);
      assert LinkedAt(mem, bs, k);
      if k + 1 < |bs| { AddressPositive(Model(), k + 1); assert LinkedAt(mem, bs, k + 1); }

      var h := mem.headers[blk];
      var newBlk := blk + HEADER + size;
      var stored := Header(MAGIC, (h.size - size - HEADER) % TWO32, true, h.next, blk);
      assert stored == HeaderOf(c, k + 1);
      Store(newBlk, stored, k + 1, hc, {k, k + 1, k + 2});
      assert LinkedExcept(mem, c, {k, k + 2}) by { assert {k, k + 1, k + 2} - {k + 1} == {k, k + 2}; }
      if h.next != 0 {
        assert h.next == c[k + 2].addr;
        assert mem.headers[h.next].(prev := newBlk) == HeaderOf(c, k + 2);
        Store(h.next, mem.headers[h.next].(prev := newBlk), k + 2, hc, {k, k + 2});
        assert {k, k + 2} - {k + 2} == {k};
      }
      assert LinkedExcept(mem, c, {k});
      assert mem.headers[blk] == h;
      Store(blk, mem.headers[blk].(next := newBlk), k, hc, {k});
      assert {k} + {k} == {k};
      assert mem.headers[blk].(size := size) == HeaderOf(c, k);
      Store(blk, mem.headers[blk].(size := size), k, hc, {k});
      assert LinkedExcept(mem, c, {}) by { assert {k} - {k} == {}; }
      blocks := c;
    }

    /** Set the free flag of block k. */
    method SetFree(blk: nat, free: bool, ghost k: nat)
      requires Consistent() && k < |blocks| && blk == blocks[k].addr
      modifies this`mem, this`blocks
      ensures Consistent() && blocks == old(blocks)[k := old(blocks)[k].(free := free)]
      ensures forall b :: b in old(Contents()) && b != old(blocks)[k] ==> b in Contents() && Contents()[b] == old(Contents())[b]
    {
      hide Faithful, StoreHeader;
      ghost var c := blocks[k := blocks[k].(free := free)];
      ghost var m0 := mem;
      assert LinkedAt(mem, blocks, k);
      FlagPending(mem, blocks, k, free);
      Store(blk, mem.headers[blk].(free := free), k, Heap(c, brk), {k});
      assert LinkedExcept(mem, c, {}) by { assert {k} - {k} == {}; }
      forall b | b in LiveBlocks(Model()) && b != blocks[k]
        ensures b in c && PayloadOf(mem, b) == PayloadOf(m0, b)
      {
        var i :| 0 <= i < |blocks| && blocks[i] == b;
        assert c[i] == b;
        assert b in ContentsOf(m0, Heap(c, brk));
      }
      blocks := c;
    }

    /** Follow the next pointers to the last block. */
    method Last(ghost end: nat) returns (last: nat)
      requires Tiled(Heap(blocks, end)) && Linked(mem, blocks) && head == HeadOf(blocks)
      ensures last == blocks[|blocks| - 1].addr
    {
      last := head;
      ghost var k := 0;
      assert LinkedAt(mem, blocks, 0);
      while mem.headers[last].next != 0
        invariant k < |blocks| && last == blocks[k].addr && LinkedAt(mem, blocks, k)
        decreases |blocks| - k
      {
        k, last := k + 1, mem.headers[last].next;
      }
    }

    /** Make the fresh pages one free block and hang it behind the last block of the list. */
    method Append(oldBrk: nat, expand: nat)
      requires Tiled(Heap(blocks, oldBrk)) && Linked(mem, blocks) && head == HeadOf(blocks)
      requires brk == oldBrk + expand <= HEAP_START + HEAP_MAX && expand % PAGE == 0 && expand > 0
      requires |mem.bytes| == brk - HEAP_START && Faithful(mem)
      requires Tiled(Heap(blocks + [Block(oldBrk, expand - HEADER, true)], brk))
      modifies this`mem, this`blocks
      ensures Consistent() && blocks == old(blocks) + [Block(oldBrk, expand - HEADER, true)]
      ensures Contents() == old(Contents())
    {
      hide Faithful, StoreHeader, ContentsOf;
      ghost var n, c := |blocks|, blocks + [Block(oldBrk, expand - HEADER, true)];
      ghost var hc := Heap(c, brk);
      AppendPending(mem, blocks, c[n]);
      BreakAboveStart(Heap(blocks, oldBrk));
      var newBlk := oldBrk;
      Store(newBlk, Header(MAGIC, (expand - HEADER) % TWO32, true, 0, 0), n, hc, {n - 1, n});
      assert LinkedExcept(mem, c, {n - 1, n}) by { assert {n - 1, n} + {n} == {n - 1, n}; }

      assert Linked(mem, blocks) by {
        forall i | 0 <= i < n
          ensures LinkedAt(mem, blocks, i)
        {
          assert LinkedAt(old(mem), blocks, i) && c[i] == blocks[i];
        }
      }
      var last := Last(oldBrk);
      assert LinkedAt(mem, blocks, n - 1) && c[n - 1] == blocks[n - 1];
      assert mem.headers[last].(next := newBlk) == HeaderOf(c, n - 1);
      assert mem.headers[newBlk] == Header(MAGIC, expand - HEADER, true, 0, 0);
      Store(last, mem.headers[last].(next := newBlk), n - 1, hc, {n - 1, n});
      assert LinkedExcept(mem, c, {n}) by { assert {n - 1, n} - {n - 1} == {n}; }
      assert mem.headers[newBlk].(prev := last) == HeaderOf(c, n);
      Store(newBlk, mem.headers[newBlk].(prev := last), n, hc, {n});
      assert LinkedExcept(mem, c, {}) by { assert {n} - {n} == {}; }
      assert LiveBlocks(hc) == LiveBlocks(Heap(blocks, brk)) by { AppendLive(Heap(blocks, brk), c[n]); }
      SameContents(old(mem), Heap(blocks, brk), hc);
      blocks := c;
    }

    /** The heap as kmalloc may find it: on entry, or on the retry right after growing. */
    ghost predicate Ready(request: nat)
      reads this
    {
      && Consistent()
      && (Inv(Model()) ||
          (Tiled(Model()) && FirstFit(blocks, AlignUp(request, 16)) == |blocks| - 1 && CoalescedBut(blocks, |blocks| - 1)))
    }

    /** The first call maps one page and makes it one free block. */
    method Initialise(frames: nat) returns (ok: bool, left: nat)
      requires Consistent()
      modifies this
      ensures ok <==> Initialised(old(Model()), frames).Done?
      ensures ok ==> Consistent() && blocks != [] && Model() == Initialised(old(Model()), frames).heap
      ensures ok ==> Contents() == old(Contents()) && left == if old(blocks) == [] then frames - 1 else frames
      ensures old(blocks) != [] ==> Model() == old(Model())
    {
      hide Faithful, Grow, Overlap;
      if head == 0 {
        ok, left := Expand(PAGE, frames);
        if ok {
          head := HEAP_START;
          StoreFaithful(mem, head, Header(MAGIC, PAGE - HEADER, true, 0, 0));
          mem := StoreHeader(mem, head, Header(MAGIC, PAGE - HEADER, true, 0, 0));
          blocks := [Block(HEAP_START, PAGE - HEADER, true)];
          assert LinkedAt(mem, blocks, 0);
        }
      } else {
        ok, left := true, frames;
      }
    }

    /** Hand out block k: split when large enough, then mark it used. */
    method CarveBlock(blk: nat, size: nat, ghost k: nat) returns (p: nat)
      requires Consistent() && k < |blocks| && blk == blocks[k].addr
      requires Fits(blocks[k], size) && size % 16 == 0 && size >= 16
      modifies this`mem, this`blocks
      ensures Consistent() && blocks == Carve(old(blocks), k, size) && p == old(blocks)[k].Payload()
      ensures Kept(old(Contents()), Contents())
    {
      assert LinkedAt(mem, blocks, k);
      ghost var before := Contents();
      if mem.headers[blk].size >= size + HEADER + 32 {
        SplitBlock(blk, size, k);
        SplitAt(old(blocks), k, size);
      }
      ghost var taken := blocks[k];
      SetFree(blk, false, k);
      p := blk + HEADER;
    }

    /** Grow for a request that fits nowhere. */
    method GrowFor(size: nat, ghost request: nat, frames: nat) returns (ok: bool, left: nat)
      requires Consistent() && Tiled(Model()) && 0 < request <= MAX_REQUEST && size == AlignUp(request, 16)
      requires Coalesced(blocks) && FirstFit(blocks, size) == |blocks|
      modifies this
      ensures ok <==> Extended(old(Model()), ExpandBytes(request), frames).Done?
      ensures ok ==> Consistent() && Model() == Extended(old(Model()), ExpandBytes(request), frames).heap
      ensures ok ==> Contents() == old(Contents())
      ensures ok ==> Ready(size) && FirstFit(blocks, size) < |blocks| && AlignUp(size, 16) == size
      ensures ok ==> Malloc(Model(), size, left) == Attempt(Model(), size)
    {
      ghost var h0, m0 := Model(), mem;
      var expand := AlignUp((size + HEADER) % TWO64, PAGE);
      assert expand == ExpandBytes(request) && expand % PAGE == 0 && PAGE <= expand <= TWO64 - PAGE by {
        ExpandCovers(request);
      }
      var oldBrk := brk;
      ok, left := Expand(expand, frames);
      if ok {
        ghost var o := Extended(h0, expand, frames);
        assert o.heap == Heap(blocks + [Block(oldBrk, expand - HEADER, true)], brk) && Tiled(o.heap) by {
          ExtendedIs(h0, request, frames);
        }
        PayloadsInside(m0, mem, h0);
        forall i | 0 <= i < |blocks|
          ensures LinkedAt(mem, blocks, i)
        {
          assert LinkedAt(m0, blocks, i);
        }
        Append(oldBrk, expand);
        RetryAttempts(h0, request, frames, left);
      }
    }

    /** kmalloc: refines Malloc and leaves the bytes of every live payload unchanged. */
    method Kmalloc(request: nat, frames: nat) returns (r: Reply)
      requires Ready(request) && request <= MAX_REQUEST
      modifies this
      ensures r.Halted? <==> Malloc(old(Model()), request, frames).Panic?
      ensures r.Pointer? ==> Valid() && Malloc(old(Model()), request, frames) == Done(Model(), r.p)
      ensures r.Pointer? ==> Kept(old(Contents()), Contents())
      decreases if FirstFit(blocks, AlignUp(request, 16)) < |blocks| then 0 else 1
    {
      hide Faithful, Linked, LiveBlocks, ContentsOf, Contiguous, Shaped;
      if request == 0 { return Pointer(0); }
      var size := AlignUp(request, 16);
      ExpandCovers(request);
      var ok, left := Initialise(frames);
      if !ok { return Halted; }
      ghost var h0 := Model();
      var blk, k := Scan(size);
      if blk != 0 {
        CarveKeeps(h0, k, size);
        var p := CarveBlock(blk, size, k);
        return Pointer(p);
      }
      if k < |blocks| { AddressPositive(h0, k); }
      ok, left := GrowFor(size, request, left);
      if !ok { return Halted; }
      r := Kmalloc(size, left);
    }

    /** Let the free block `lower` absorb its free successor `upper`. */
    method Absorb(lower: nat, upper: nat, ghost k: nat)
      requires Consistent() && k + 1 < |blocks| && lower == blocks[k].addr && upper == blocks[k + 1].addr
      requires blocks[k].free && blocks[k + 1].free
      modifies this`mem, this`blocks
      ensures Consistent() && blocks == Merge(old(blocks), k)
      ensures Contents() == old(Contents())
    {
      hide StoreHeader, LiveBlocks, ContentsOf, Coalesced, Faithful;
      ghost var bs, c := blocks, Merge(blocks, k);
      ghost var hc := Heap(c, brk);
      MergeAt(Model(), k);
      MergeKeeps(Model(), k);
      MergeLive(Model(), k);
      SameContents(mem, Model(), hc);
      MergePending(mem, Model(), k);
      assert LinkedAt(mem, bs, k) && LinkedAt(mem, bs, k + 1);
      if k + 2 < |bs| { assert LinkedAt(mem, bs, k + 2) && bs[k + 1].End() == bs[k + 2].addr; }

      var l, u := mem.headers[lower], mem.headers[upper];
      Store(lower, l.(size := (l.size + HEADER + u.size) % TWO32), k, hc, {k, k + 1});
      assert LinkedExcept(mem, c, {k, k + 1}) by { assert {k, k + 1} + {k} == {k, k + 1}; }
      var merged := mem.headers[lower].(next := u.next);
      assert merged == HeaderOf(c, k);
      Store(lower, merged, k, hc, {k, k + 1});
      assert LinkedExcept(mem, c, {k + 1}) by { assert {k, k + 1} - {k} == {k + 1}; }
      if u.next != 0 {
        assert u.next == c[k + 1].addr;
        assert mem.headers[u.next].(prev := lower) == HeaderOf(c, k + 1);
        Store(u.next, mem.headers[u.next].(prev := lower), k + 1, hc, {k + 1});
        assert {k + 1} - {k + 1} == {};
      }
      assert LinkedExcept(mem, c, {});
      blocks := c;
    }

    /** The word kfree tests: the first four of the 32 bytes before ptr. */
    ghost predicate Corrupt(ptr: nat)
      reads this
    {
      HEAP_START + HEADER <= ptr <= HEAP_START + |mem.bytes| && Value(mem.bytes, ptr - HEADER - HEAP_START, 4) != MAGIC
    }

    /** The branch of kfree past its tests. */
    method ReleaseBlock(ptr: nat)
      requires Valid() && Live(Model(), ptr)
      modifies this`mem, this`blocks
      ensures Valid() && Model() == Free(old(Model()), ptr)
      ensures forall b :: b in old(Contents()) && b.Payload() != ptr ==> b in Contents() && Contents()[b] == old(Contents())[b]
    {
      hide Faithful, Linked, ContentsOf;
      ghost var k := IndexOf(blocks, ptr);
      FreeCorrect(Model(), ptr);
      JoinNextKeeps(Model(), k);
      var blk := ptr - HEADER;
      SetFree(blk, true, k);
      CoalesceNext(blk, k);
      CoalescePrevious(blk, k);
    }

    /** kfree: refines Free and leaves the bytes of every other live payload unchanged. A pointer with
        no magic number before it changes nothing; a live one always has it. */
    method Kfree(ptr: nat)
      requires Valid() && (ptr == 0 || Live(Model(), ptr) || Corrupt(ptr))
      modifies this`mem, this`blocks
      ensures Valid()
      ensures Model() == if Live(old(Model()), ptr) then Free(old(Model()), ptr) else old(Model())
      ensures forall b :: b in old(Contents()) && b.Payload() != ptr ==> b in Contents() && Contents()[b] == old(Contents())[b]
      ensures !old(Live(Model(), ptr)) ==> mem == old(mem)
    {
      if ptr == 0 {
        NullNotLive(Model());
        return;
      }
      if Live(Model(), ptr) { LiveMagic(ptr); }
      if Value(mem.bytes, ptr - HEADER - HEAP_START, 4) != MAGIC { return; }
      ReleaseBlock(ptr);
    }

    /** What kfree tests of a live pointer holds. */
    lemma LiveMagic(ptr: nat)
      requires Valid() && Live(Model(), ptr)
      ensures HEAP_START + HEADER <= ptr <= HEAP_START + |mem.bytes| && Value(mem.bytes, ptr - HEADER - HEAP_START, 4) == MAGIC
    {
      var k :| 0 <= k < |blocks| && blocks[k].Payload() == ptr;
      BytesSpellList(mem, Model(), k);
    }

    method CoalesceNext(blk: nat, ghost k: nat)
      requires Consistent() && k < |blocks| && blk == blocks[k].addr && blocks[k].free
      modifies this`mem, this`blocks
      ensures Consistent() && blocks == JoinNext(old(blocks), k) && Contents() == old(Contents())
      ensures k < |blocks| && blk == blocks[k].addr && blocks[k].free
    {
      assert LinkedAt(mem, blocks, k);
      if k + 1 < |blocks| {
        MergeAt(Model(), k);
        assert LinkedAt(mem, blocks, k + 1);
      }
      var next := mem.headers[blk].next;
      if next != 0 && mem.headers[next].free {
        Absorb(blk, next, k);
      }
    }

    method CoalescePrevious(blk: nat, ghost k: nat)
      requires Consistent() && k < |blocks| && blk == blocks[k].addr && blocks[k].free
      modifies this`mem, this`blocks
      ensures Consistent() && blocks == JoinPrevious(old(blocks), k) && Contents() == old(Contents())
    {
      assert LinkedAt(mem, blocks, k);
      if k > 0 {
        assert LinkedAt(mem, blocks, k - 1);
        AddressPositive(Model(), k - 1);
      }
      var prev := mem.headers[blk].prev;
      if prev != 0 && mem.headers[prev].free {
        Absorb(prev, blk, k - 1);
      }
    }

    /** A store into a live payload, by a client or by the loops below. */
    method WriteByte(ptr: nat, off: nat, v: Byte, ghost k: nat)
      requires Valid() && k < |blocks| && !blocks[k].free && blocks[k].Payload() == ptr && off < blocks[k].size
      modifies this`mem
      ensures Valid()
      ensures blocks[k] in old(Contents()) && |old(Contents())[blocks[k]]| == blocks[k].size
      ensures Contents() == old(Contents())[blocks[k] := WithByte(old(Contents())[blocks[k]], off, v)]
    {
      hide Faithful, ContentsOf, LiveBlocks, Coalesced, Linked;
      ghost var h, m0 := Model(), mem;
      AddressPositive(h, k);
      ByteKeepsLinks(mem, blocks, k, ptr + off, v);
      ByteFaithful(mem, ptr + off, v);
      mem := StoreByte(mem, ptr + off, v);
      ByteChangesPayload(m0, h, k, off, v);
      assert Contents() == ContentsOf(mem, h) && old(Contents()) == ContentsOf(m0, h);
    }

    method ReadByte(ptr: nat, off: nat, ghost k: nat) returns (v: Byte)
      requires Valid() && k < |blocks| && !blocks[k].free && blocks[k].Payload() == ptr && off < blocks[k].size
      ensures blocks[k] in Contents() && |Contents()[blocks[k]]| == blocks[k].size && v == Contents()[blocks[k]][off]
    {
      AddressPositive(Model(), k);
      PayloadLength(mem, Model(), k);
      v := mem.bytes[ptr + off - HEAP_START];
    }

    /** Zero the first n bytes of live block k. */
    method ZeroBytes(ptr: nat, n: nat, ghost k: nat)
      requires Valid() && k < |blocks| && !blocks[k].free && blocks[k].Payload() == ptr && n <= blocks[k].size
      modifies this`mem
      ensures Valid() && OnlyChanged(old(Contents()), Contents(), blocks[k])
      ensures blocks[k] in Contents() && |Contents()[blocks[k]]| == blocks[k].size
      ensures forall i :: 0 <= i < n ==> Contents()[blocks[k]][i] == 0
    {
      PayloadLength(mem, Model(), k);
      var i := 0;
      while i < n
        invariant 0 <= i <= n && Valid() && OnlyChanged(old(Contents()), Contents(), blocks[k])
        invariant blocks[k] in Contents() && |Contents()[blocks[k]]| == blocks[k].size
        invariant forall j :: 0 <= j < i ==> Contents()[blocks[k]][j] == 0
      {
        WriteByte(ptr, i, 0, k);
        i := i + 1;
      }
    }

    /** Copy the first n bytes of live block s to live block d. */
    method CopyBytes(src: nat, dst: nat, n: nat, ghost s: nat, ghost d: nat)
      requires Valid() && s < |blocks| && d < |blocks| && s != d && !blocks[s].free && !blocks[d].free
      requires blocks[s].Payload() == src && blocks[d].Payload() == dst && n <= blocks[s].size && n <= blocks[d].size
      modifies this`mem
      ensures Valid() && OnlyChanged(old(Contents()), Contents(), blocks[d])
      ensures blocks[s] in Contents() && |Contents()[blocks[s]]| == blocks[s].size
      ensures blocks[d] in Contents() && |Contents()[blocks[d]]| == blocks[d].size
      ensures Contents()[blocks[d]][..n] == old(Contents())[blocks[s]][..n]
    {
      PayloadLength(mem, Model(), s);
      PayloadLength(mem, Model(), d);
      if blocks[s] == blocks[d] { AddressesDiffer(blocks, s, d); }
      var i := 0;
      while i < n
        invariant 0 <= i <= n && Valid() && OnlyChanged(old(Contents()), Contents(), blocks[d])
        invariant blocks[d] in Contents() && |Contents()[blocks[d]]| == blocks[d].size
        invariant forall j :: 0 <= j < i ==> Contents()[blocks[d]][j] == old(Contents())[blocks[s]][j]
      {
        var v := ReadByte(src, i, s);
        WriteByte(dst, i, v, d);
        i := i + 1;
      }
    }

    /** kzmalloc: kmalloc, then zero the requested bytes. */
    method Kzmalloc(request: nat, frames: nat) returns (r: Reply)
      requires Valid() && request <= MAX_REQUEST
      modifies this
      ensures r.Halted? <==> Malloc(old(Model()), request, frames).Panic?
      ensures r.Pointer? ==> Valid() && Malloc(old(Model()), request, frames) == Done(Model(), r.p)
      ensures r.Pointer? ==> Kept(old(Contents()), Contents())
      ensures r.Pointer? && request > 0 ==>
                exists g :: g in Contents() && g.Payload() == r.p && request <= |Contents()[g]|
                            && forall i :: 0 <= i < request ==> Contents()[g][i] == 0
    {
      r := Kmalloc(request, frames);
      if r.Pointer? && request > 0 {
        ghost var k := FindGrant(old(Model()), request, frames);
        AddressPositive(Model(), k);
        ZeroBytes(r.p, request, k);
      }
    }

    /** The moving branch of krealloc: allocate, copy the old payload, free it. */
    method Move(ptr: nat, size: nat, request: nat, frames: nat, ghost b: Block) returns (r: Reply)
      requires Valid() && 0 < request <= MAX_REQUEST && size < request
      requires b in Contents() && b.Payload() == ptr && b.size == size
      modifies this
      ensures r.Halted? <==> Malloc(old(Model()), request, frames).Panic?
      ensures r.Pointer? ==> Valid() && Live(Malloc(old(Model()), request, frames).heap, ptr)
      ensures r.Pointer? ==>
                Done(Model(), r.p) == Done(Free(Malloc(old(Model()), request, frames).heap, ptr), Malloc(old(Model()), request, frames).ptr)
      ensures r.Pointer? ==> forall c :: c in old(Contents()) && c.Payload() != ptr ==>
                c in Contents() && Contents()[c] == old(Contents())[c]
      ensures r.Pointer? ==> exists g :: g in Contents() && g.Payload() == r.p && Carried(old(Contents())[b], Contents()[g], request)
    {
      hide Malloc, Free, Coalesced, Contiguous, LinkedExcept;
      ghost var h0, c0 := Model(), Contents();
      r := Kmalloc(request, frames);
      if r.Halted? { return; }
      ghost var d := FindGrant(h0, request, frames);
      assert LiveBlocks(h0) <= LiveBlocks(Model()) by { MallocCorrect(h0, request, frames); }
      ghost var s := MoveTargets(h0, Model(), b, d);
      ghost var g := blocks[d];
      CopyBytes(ptr, r.p, size, s, d);
      ghost var c1 := Contents();
      assert Carried(c0[b], c1[g], request);
      Kfree(ptr);
      assert g in Contents() && Contents()[g] == c1[g];
    }

    /** krealloc: refines Realloc, moves the old bytes along and leaves every other payload alone. */
    method Krealloc(ptr: nat, request: nat, frames: nat) returns (r: Reply)
      requires Valid() && request <= MAX_REQUEST && (ptr == 0 || Live(Model(), ptr))
      modifies this
      ensures r.Halted? <==> Realloc(old(Model()), ptr, request, frames).Panic?
      ensures r.Pointer? ==> Valid() && Realloc(old(Model()), ptr, request, frames) == Done(Model(), r.p)
      ensures r.Pointer? ==> forall c :: c in old(Contents()) && c.Payload() != ptr ==>
                c in Contents() && Contents()[c] == old(Contents())[c]
      ensures r.Pointer? && ptr != 0 && request > 0 ==>
                exists b, g :: b in old(Contents()) && b.Payload() == ptr && g in Contents() && g.Payload() == r.p
                  && Carried(old(Contents())[b], Contents()[g], request)
    {
      hide Faithful, Malloc, Free, Coalesced, Contiguous, Shaped;
      if ptr == 0 { r := Kmalloc(request, frames); return; }
      if request == 0 { Kfree(ptr); return Pointer(0); }
      ghost var k := IndexOf(blocks, ptr);
      ghost var b := blocks[k];
      assert b in LiveBlocks(Model()) && b.Payload() == ptr by { FreeCorrect(Model(), ptr); }
      assert LinkedAt(mem, blocks, k);
      PayloadLength(mem, Model(), k);
      var blk := ptr - HEADER;
      var size := mem.headers[blk].size;
      if size >= request {
        assert Carried(old(Contents())[b], Contents()[b], request);
        return Pointer(ptr);
      }
      r := Move(ptr, size, request, frames, b);
    }

    /** One header store of the C code, at block k of the list `to` being built. */
    method Store(a: nat, stored: Header, ghost k: nat, ghost to: Heap, ghost pending: set<nat>)
      requires Tiled(to) && k < |to.blocks| && a == to.blocks[k].addr && to.brk == HEAP_START + |mem.bytes|
      requires LinkedExcept(mem, to.blocks, pending) && Faithful(mem)
      modifies this`mem
      ensures mem == StoreHeader(old(mem), a, stored)
      ensures stored == HeaderOf(to.blocks, k) ==> LinkedExcept(mem, to.blocks, pending - {k})
      ensures LinkedExcept(mem, to.blocks, pending + {k})
      ensures ContentsOf(mem, to) == ContentsOf(old(mem), to)
      ensures |mem.bytes| == |old(mem.bytes)| && Faithful(mem)
      ensures a in mem.headers && mem.headers[a] == stored
      ensures forall i :: 0 <= i < |to.blocks| && i != k && to.blocks[i].addr in old(mem.headers) ==>
                to.blocks[i].addr in mem.headers && mem.headers[to.blocks[i].addr] == old(mem.headers)[to.blocks[i].addr]
    {
      StoreLinks(mem, to.blocks, k, stored, pending);
      StoreKeepsContents(mem, to, k, stored);
      AddressPositive(to, k);
      StoreFaithful(mem, a, stored);
      mem := StoreHeader(mem, a, stored);
    }
  }

  lemma NullNotLive(h: Heap)
    requires Inv(h)
    ensures !Live(h, 0)
  {
  }

  /** The new bytes hold the request and begin with the old ones. */
  ghost predicate Carried(before: seq<Byte>, after: seq<Byte>, request: nat) {
    var n := if |before| < request then |before| else request;
    request <= |after| && after[..n] == before[..n]
  }

  /** A live block stays where it is while another block is granted at a different address. */
  lemma MoveTargets(h: Heap, h1: Heap, b: Block, d: nat) returns (s: nat)
    requires Inv(h) && Inv(h1) && b in LiveBlocks(h) && LiveBlocks(h) <= LiveBlocks(h1)
    requires d < |h1.blocks| && !h1.blocks[d].free && h1.blocks[d] !in LiveBlocks(h)
    ensures s < |h1.blocks| && h1.blocks[s] == b && s != d && h1.blocks[d].addr != b.addr
    ensures Live(h1, b.Payload())
  {
    var bs := h1.blocks;
    assert b in LiveBlocks(h1);
    s :| 0 <= s < |bs| && bs[s] == b;
    if bs[d].addr == b.addr { AddressesDiffer(bs, s, d); }
  }

  lemma PayloadLength(m: Memory, h: Heap, k: nat)
    requires Tiled(h) && h.brk == HEAP_START + |m.bytes| && k < |h.blocks| && !h.blocks[k].free
    ensures h.blocks[k] in ContentsOf(m, h) && |ContentsOf(m, h)[h.blocks[k]]| == h.blocks[k].size
  {
    AddressPositive(h, k);
    assert h.blocks[k] in LiveBlocks(h);
  }

  lemma FirstFitIs(bs: seq<Block>, size: nat, k: nat)
    requires k <= |bs| && (k < |bs| ==> Fits(bs[k], size))
    requires forall j :: 0 <= j < k ==> !Fits(bs[j], size)
    ensures k == FirstFit(bs, size)
  {
  }

  /** Adding bytes at the end changes no payload. */
  lemma PayloadsInside(m0: Memory, m1: Memory, h: Heap)
    requires Tiled(h) && m0.bytes <= m1.bytes && h.brk == HEAP_START + |m0.bytes|
    ensures ContentsOf(m1, h) == ContentsOf(m0, h)
  {
    forall b | b in LiveBlocks(h)
      ensures PayloadOf(m1, b) == PayloadOf(m0, b)
    {
      var i :| 0 <= i < |h.blocks| && h.blocks[i] == b;
      AddressPositive(h, i);
    }
  }

  lemma AddressPositive(h: Heap, k: nat)
    requires Tiled(h) && k < |h.blocks|
    ensures HEAP_START <= h.blocks[k].addr && h.blocks[k].End() <= h.brk
  {
    if k > 0 { Ordered(h.blocks, 0, k); }
    if k + 1 < |h.blocks| { Ordered(h.blocks, k, |h.blocks| - 1); }
  }
}
