/** The bytes of the heap region and the block headers stored in them.

    Memory is an overlay: a header store changes the 32 bytes it occupies, and a byte store
    destroys every header it touches. So that headers survive and payloads keep their bytes
    is something to prove, not something the model grants. */
module HeapMemory {
  import opened Common
  import opened HeapModel

  const MAGIC: nat := 0xDEAD_BEEF

  /** struct heap_block; 0 stands for NULL. */
  datatype Header = Header(magic: nat, size: nat, free: bool, next: nat, prev: nat)

  datatype Memory = Memory(headers: map<nat, Header>, bytes: seq<Byte>)

  function ByteOf(x: nat, k: nat): Byte {
    if k == 0 then x % 256 else ByteOf(x / 256, k - 1)
  }

  /** Byte k of the stored header; 9 to 15 are padding and keep their value. */
  function HeaderByte(h: Header, k: nat, before: Byte): Byte {
    if k < 4 then ByteOf(h.magic, k)
    else if k < 8 then ByteOf(h.size, k - 4)
    else if k == 8 then if h.free then 1 else 0
    else if k < 16 then before
    else if k < 24 then ByteOf(h.next, k - 16)
    else ByteOf(h.prev, k - 24)
  }

  predicate Overlap(a: nat, b: nat) { a < b + HEADER && b < a + HEADER }

  function StoreHeader(m: Memory, a: nat, h: Header): Memory {
    Memory(
      (map x | x in m.headers && !Overlap(x, a) :: m.headers[x])[a := h],
      seq(|m.bytes|, i requires 0 <= i < |m.bytes| =>
        if a <= HEAP_START + i < a + HEADER then HeaderByte(h, HEAP_START + i - a, m.bytes[i]) else m.bytes[i]))
  }

  function StoreByte(m: Memory, p: nat, v: Byte): Memory
    requires HEAP_START <= p < HEAP_START + |m.bytes|
  {
    Memory(map x | x in m.headers && !(x <= p < x + HEADER) :: m.headers[x], m.bytes[p - HEAP_START := v])
  }

  /** A fresh zeroed page behind the end of the region. */
  function AddPage(m: Memory): Memory {
    Memory(m.headers, m.bytes + seq(PAGE, _ => 0))
  }

  // --------------------------------------------------------- headers in bytes

  function Limit(n: nat): nat { if n == 0 then 1 else 256 * Limit(n - 1) }

  /** The little-endian number in the n bytes from off on. */
  function Value(bytes: seq<Byte>, off: nat, n: nat): nat
    requires off + n <= |bytes|
    decreases n
  {
    if n == 0 then 0 else bytes[off] as int + 256 * Value(bytes, off + 1, n - 1)
  }

  lemma {:induction false} ValueIs(bytes: seq<Byte>, off: nat, n: nat, x: nat)
    requires off + n <= |bytes| && x < Limit(n) && forall k :: 0 <= k < n ==> bytes[off + k] == ByteOf(x, k)
    ensures Value(bytes, off, n) == x
    decreases n
  {
    if n > 0 {
      assert bytes[off + 0] == ByteOf(x, 0);
      forall k | 0 <= k < n - 1 ensures bytes[off + 1 + k] == ByteOf(x / 256, k) { assert bytes[off + (k + 1)] == ByteOf(x, k + 1); }
      ValueIs(bytes, off + 1, n - 1, x / 256);
    }
  }

  lemma {:induction false} SameValue(a: seq<Byte>, b: seq<Byte>, off: nat, n: nat)
    requires off + n <= |a| && off + n <= |b| && forall i :: off <= i < off + n ==> a[i] == b[i]
    ensures Value(a, off, n) == Value(b, off, n)
    decreases n
  {
    if n > 0 { SameValue(a, b, off + 1, n - 1); }
  }

  /** The header the 32 bytes from off on spell. */
  function Decode(bytes: seq<Byte>, off: nat): Header
    requires off + HEADER <= |bytes|
  {
    Header(Value(bytes, off, 4), Value(bytes, off + 4, 4), bytes[off + 8] != 0, Value(bytes, off + 16, 8), Value(bytes, off + 24, 8))
  }

  /** Every field fits its C type. */
  predicate Wide(h: Header) { h.magic < Limit(4) && h.size < Limit(4) && h.next < Limit(8) && h.prev < Limit(8) }

  predicate Inside(m: Memory, a: nat) { HEAP_START <= a && a + HEADER <= HEAP_START + |m.bytes| }

  /** Headers on record lie inside the region and are what their bytes spell. */
  ghost predicate Faithful(m: Memory) {
    forall a :: a in m.headers ==> Inside(m, a) && (Wide(m.headers[a]) ==> Decode(m.bytes, a - HEAP_START) == m.headers[a])
  }

  lemma StoredByte(m: Memory, a: nat, h: Header, k: nat)
    requires Inside(m, a) && k < HEADER
    ensures StoreHeader(m, a, h).bytes[a - HEAP_START + k] == HeaderByte(h, k, m.bytes[a - HEAP_START + k])
  {
  }

  /** The bytes of a stored header spell it. */
  lemma StoreDecodes(m: Memory, a: nat, h: Header)
    requires Inside(m, a) && Wide(h)
    ensures Decode(StoreHeader(m, a, h).bytes, a - HEAP_START) == h
  {
    hide StoreHeader, Limit;
    var b, off := StoreHeader(m, a, h).bytes, a - HEAP_START;
    assert |b| == |m.bytes| by { StoreLength(m, a, h); }
    forall k | 0 <= k < 4 ensures b[off + k] == ByteOf(h.magic, k) { StoredByte(m, a, h, k); }
    ValueIs(b, off, 4, h.magic);
    forall k | 0 <= k < 4 ensures b[off + 4 + k] == ByteOf(h.size, k) { StoredByte(m, a, h, 4 + k); }
    ValueIs(b, off + 4, 4, h.size);
    forall k | 0 <= k < 8 ensures b[off + 16 + k] == ByteOf(h.next, k) { StoredByte(m, a, h, 16 + k); }
    ValueIs(b, off + 16, 8, h.next);
    forall k | 0 <= k < 8 ensures b[off + 24 + k] == ByteOf(h.prev, k) { StoredByte(m, a, h, 24 + k); }
    ValueIs(b, off + 24, 8, h.prev);
    StoredByte(m, a, h, 8);
  }

  lemma StoreLength(m: Memory, a: nat, h: Header)
    ensures |StoreHeader(m, a, h).bytes| == |m.bytes|
  {
  }

  lemma SameBytesDecode(a: seq<Byte>, b: seq<Byte>, off: nat)
    requires off + HEADER <= |a| && off + HEADER <= |b| && forall i :: off <= i < off + HEADER ==> a[i] == b[i]
    ensures Decode(a, off) == Decode(b, off)
  {
    SameValue(a, b, off, 4);
    SameValue(a, b, off + 4, 4);
    SameValue(a, b, off + 16, 8);
    SameValue(a, b, off + 24, 8);
  }

  /** Storing a header, storing a byte and adding a page keep the record true. */
  lemma StoreFaithful(m: Memory, a: nat, h: Header)
    requires Faithful(m) && Inside(m, a)
    ensures Faithful(StoreHeader(m, a, h))
  {
    hide Decode, Wide;
    var r := StoreHeader(m, a, h);
    forall x | x in r.headers ensures Inside(r, x) && (Wide(r.headers[x]) ==> Decode(r.bytes, x - HEAP_START) == r.headers[x]) {
      if x == a {
        if Wide(h) { StoreDecodes(m, a, h); }
      } else {
        SameBytesDecode(m.bytes, r.bytes, x - HEAP_START);
      }
    }
  }

  lemma ByteFaithful(m: Memory, p: nat, v: Byte)
    requires Faithful(m) && HEAP_START <= p < HEAP_START + |m.bytes|
    ensures Faithful(StoreByte(m, p, v))
  {
    hide Decode, Wide;
    var r := StoreByte(m, p, v);
    forall x | x in r.headers ensures Inside(r, x) && (Wide(r.headers[x]) ==> Decode(r.bytes, x - HEAP_START) == r.headers[x]) {
      SameBytesDecode(m.bytes, r.bytes, x - HEAP_START);
    }
  }

  lemma PageFaithful(m: Memory)
    requires Faithful(m)
    ensures Faithful(AddPage(m))
  {
    hide Decode, Wide;
    var r := AddPage(m);
    forall x | x in r.headers ensures Inside(r, x) && (Wide(r.headers[x]) ==> Decode(r.bytes, x - HEAP_START) == r.headers[x]) {
      SameBytesDecode(m.bytes, r.bytes, x - HEAP_START);
    }
  }

  lemma Limits()
    ensures Limit(4) == TWO32 && Limit(8) == TWO64
  {
    assert Limit(4) == 0x1_0000_0000;
    assert Limit(6) == 0x1_0000_0000_0000;
  }

  // ------------------------------------------------------- the list in memory

  function NextOf(bs: seq<Block>, i: nat): nat
    requires i < |bs|
  {
    if i + 1 < |bs| then bs[i + 1].addr else 0
  }

  function PrevOf(bs: seq<Block>, i: nat): nat
    requires i < |bs|
  {
    if i > 0 then bs[i - 1].addr else 0
  }

  /** The header that block i of the list must have in memory. */
  function HeaderOf(bs: seq<Block>, i: nat): Header
    requires i < |bs|
  {
    Header(MAGIC, bs[i].size, bs[i].free, NextOf(bs, i), PrevOf(bs, i))
  }

  ghost predicate LinkedAt(m: Memory, bs: seq<Block>, i: nat)
    requires i < |bs|
  {
    bs[i].addr in m.headers && m.headers[bs[i].addr] == HeaderOf(bs, i)
  }

  /** Every block of the list is stored as a header, doubly linked in list order... */
  ghost predicate Linked(m: Memory, bs: seq<Block>) {
    forall i :: 0 <= i < |bs| ==> LinkedAt(m, bs, i)
  }

  /** ... or every block except those in `pending`, whose headers are still to be written. */
  ghost predicate LinkedExcept(m: Memory, bs: seq<Block>, pending: set<nat>) {
    forall i :: 0 <= i < |bs| && i !in pending ==> LinkedAt(m, bs, i)
  }

  /** The bytes of the region spell the block list, doubly linked in address order. */
  lemma BytesSpellList(m: Memory, h: Heap, i: nat)
    requires Tiled(h) && h.brk == HEAP_START + |m.bytes| && Linked(m, h.blocks) && Faithful(m) && i < |h.blocks|
    ensures Inside(m, h.blocks[i].addr) && Decode(m.bytes, h.blocks[i].addr - HEAP_START) == HeaderOf(h.blocks, i)
  {
    hide Decode, Limit;
    assert LinkedAt(m, h.blocks, i);
    TiledNarrow(h);
    Limits();
    if i + 1 < |h.blocks| { assert LinkedAt(m, h.blocks, i + 1); }
    if i > 0 { assert LinkedAt(m, h.blocks, i - 1); }
  }

  function HeadOf(bs: seq<Block>): nat { if bs == [] then 0 else bs[0].addr }

  /** Block i's header: the magic number, its size and flag, and the addresses of its neighbours, 0 at
      either end of the list. */
  lemma HeaderFields(bs: seq<Block>, i: nat)
    requires i < |bs|
    ensures var h := HeaderOf(bs, i);
            && h.magic == 0xDEAD_BEEF && h.size == bs[i].size && h.free == bs[i].free
            && (i + 1 < |bs| ==> h.next == bs[i + 1].addr) && (i + 1 == |bs| ==> h.next == 0)
            && (i > 0 ==> h.prev == bs[i - 1].addr) && (i == 0 ==> h.prev == 0)
    ensures HeadOf(bs) == bs[0].addr && HeadOf([]) == 0
  {
  }

  /** The layout of a header in memory, little-endian, with a gap behind the flag at byte 8; every other
      byte of the region stays. A fresh page is 4096 zeros. */
  lemma HeaderLayout(m: Memory, a: nat, h: Header, i: nat)
    requires i < |m.bytes| && Inside(m, a)
    ensures var b, k := StoreHeader(m, a, h).bytes, HEAP_START + i - a;
            && |b| == |m.bytes|
            && (0 <= k < 4 ==> b[i] == ByteOf(h.magic, k)) && (4 <= k < 8 ==> b[i] == ByteOf(h.size, k - 4))
            && (k == 8 ==> b[i] == if h.free then 1 else 0)
            && (16 <= k < 24 ==> b[i] == ByteOf(h.next, k - 16)) && (24 <= k < 32 ==> b[i] == ByteOf(h.prev, k - 24))
            && (k < 0 || 9 <= k < 16 || 32 <= k ==> b[i] == m.bytes[i])
    ensures forall x: nat :: ByteOf(x, 0) == x % 256 && ByteOf(x, 1) == x / 256 % 256
    ensures AddPage(m).headers == m.headers && |AddPage(m).bytes| == |m.bytes| + 4096 && AddPage(m).bytes[..|m.bytes|] == m.bytes
    ensures forall j :: |m.bytes| <= j < |m.bytes| + 4096 ==> AddPage(m).bytes[j] == 0
  {
  }

  /** The bytes of a block's payload. */
  ghost function PayloadOf(m: Memory, b: Block): seq<Byte> {
    if HEAP_START <= b.Payload() && b.End() <= HEAP_START + |m.bytes| then
      m.bytes[b.Payload() - HEAP_START..b.End() - HEAP_START]
    else []
  }

  ghost function WithByte(s: seq<Byte>, off: nat, v: Byte): seq<Byte>
    requires off < |s|
  {
    s[off := v]
  }

  /** Nothing but the bytes of block g may differ. */
  ghost predicate OnlyChanged(before: map<Block, seq<Byte>>, after: map<Block, seq<Byte>>, g: Block) {
    before.Keys == after.Keys && forall b :: b in before && b != g ==> after[b] == before[b]
  }

  /** Every live block of `before` is still live in `after`, with the same bytes. */
  ghost predicate Kept(before: map<Block, seq<Byte>>, after: map<Block, seq<Byte>>) {
    forall b :: b in before ==> b in after && after[b] == before[b]
  }

  ghost function ContentsOf(m: Memory, h: Heap): map<Block, seq<Byte>> {
    map b | b in LiveBlocks(h) :: PayloadOf(m, b)
  }

  lemma SameContents(m: Memory, h: Heap, g: Heap)
    requires LiveBlocks(g) == LiveBlocks(h)
    ensures ContentsOf(m, g) == ContentsOf(m, h)
  {
  }

  lemma StoreKeepsPayload(m: Memory, a: nat, h: Header, b: Block)
    requires a + HEADER <= b.Payload() || b.End() <= a
    ensures PayloadOf(StoreHeader(m, a, h), b) == PayloadOf(m, b)
  {
  }

  lemma StoreKeepsContents(m: Memory, h: Heap, k: nat, stored: Header)
    requires Contiguous(h.blocks) && k < |h.blocks|
    ensures ContentsOf(StoreHeader(m, h.blocks[k].addr, stored), h) == ContentsOf(m, h)
  {
    forall b | b in LiveBlocks(h)
      ensures PayloadOf(StoreHeader(m, h.blocks[k].addr, stored), b) == PayloadOf(m, b)
    {
      var i :| 0 <= i < |h.blocks| && h.blocks[i] == b;
      if i < k { Ordered(h.blocks, i, k); } else if k < i { Ordered(h.blocks, k, i); }
      StoreKeepsPayload(m, h.blocks[k].addr, stored, b);
    }
  }

  /** Storing the header that block k needs settles k and disturbs no other block. */
  lemma StoreLinks(m: Memory, bs: seq<Block>, k: nat, stored: Header, pending: set<nat>)
    requires Contiguous(bs) && k < |bs| && LinkedExcept(m, bs, pending)
    ensures var m' := StoreHeader(m, bs[k].addr, stored);
            && (stored == HeaderOf(bs, k) ==> LinkedExcept(m', bs, pending - {k}))
            && LinkedExcept(m', bs, pending + {k})
            && bs[k].addr in m'.headers && m'.headers[bs[k].addr] == stored
            && (forall i :: 0 <= i < |bs| && i != k && bs[i].addr in m.headers ==>
                  bs[i].addr in m'.headers && m'.headers[bs[i].addr] == m.headers[bs[i].addr])
  {
    forall i | 0 <= i < |bs| && i != k
      ensures !Overlap(bs[i].addr, bs[k].addr)
    {
      if i < k { Ordered(bs, i, k); } else { Ordered(bs, k, i); }
    }
    var m' := StoreHeader(m, bs[k].addr, stored);
    forall i | 0 <= i < |bs| && i != k && i !in pending
      ensures LinkedAt(m', bs, i)
    {
      assert LinkedAt(m, bs, i);
    }
  }

  /** Before any store, splitting block k leaves three headers to write. */
  lemma SplitPending(m: Memory, bs: seq<Block>, k: nat, size: nat)
    requires Linked(m, bs) && k < |bs| && bs[k].size >= size + HEADER
    ensures LinkedExcept(m, Split(bs, k, size), {k, k + 1, k + 2})
  {
    var c := Split(bs, k, size);
    SplitAt(bs, k, size);
    forall i | 0 <= i < |c| && i !in {k, k + 1, k + 2}
      ensures LinkedAt(m, c, i)
    {
      assert LinkedAt(m, bs, if i < k then i else i - 1);
    }
  }

  /** Appending a block leaves its own header and its predecessor's to write. */
  lemma AppendPending(m: Memory, bs: seq<Block>, b: Block)
    requires Linked(m, bs) && bs != []
    ensures LinkedExcept(m, bs + [b], {|bs| - 1, |bs|})
  {
    var c := bs + [b];
    forall i | 0 <= i < |c| && i !in {|bs| - 1, |bs|}
      ensures LinkedAt(m, c, i)
    {
      assert LinkedAt(m, bs, i);
    }
  }

  /** Changing only the free flag of block k leaves only its header to write. */
  lemma FlagPending(m: Memory, bs: seq<Block>, k: nat, free: bool)
    requires Linked(m, bs) && k < |bs|
    ensures LinkedExcept(m, bs[k := bs[k].(free := free)], {k})
  {
    var c := bs[k := bs[k].(free := free)];
    forall i | 0 <= i < |c| && i != k
      ensures LinkedAt(m, c, i)
    {
      assert LinkedAt(m, bs, i);
    }
  }

  /** Merging blocks k and k + 1 leaves the merged header and its successor's to write. */
  lemma MergePending(m: Memory, h: Heap, k: nat)
    requires Tiled(h) && Linked(m, h.blocks) && k + 1 < |h.blocks|
    ensures LinkedExcept(m, Merge(h.blocks, k), {k, k + 1})
  {
    var bs, c := h.blocks, Merge(h.blocks, k);
    MergeAt(h, k);
    forall i | 0 <= i < |c| && i !in {k, k + 1}
      ensures LinkedAt(m, c, i)
    {
      assert LinkedAt(m, bs, if i < k then i else i + 1);
    }
  }

  /** A byte stored inside the payload of block k destroys no header of the list... */
  lemma ByteKeepsLinks(m: Memory, bs: seq<Block>, k: nat, p: nat, v: Byte)
    requires Contiguous(bs) && Linked(m, bs) && k < |bs| && bs[k].Payload() <= p < bs[k].End()
    requires HEAP_START <= p < HEAP_START + |m.bytes|
    ensures Linked(StoreByte(m, p, v), bs)
  {
    forall i | 0 <= i < |bs|
      ensures LinkedAt(StoreByte(m, p, v), bs, i)
    {
      assert LinkedAt(m, bs, i);
      if i < k { Ordered(bs, i, k); } else if k < i { Ordered(bs, k, i); }
    }
  }

  lemma ByteInPayload(m: Memory, b: Block, off: nat, v: Byte)
    requires off < b.size && HEAP_START <= b.Payload() && b.End() <= HEAP_START + |m.bytes|
    ensures |PayloadOf(m, b)| == b.size
    ensures PayloadOf(StoreByte(m, b.Payload() + off, v), b) == WithByte(PayloadOf(m, b), off, v)
  {
  }

  lemma ByteElsewhere(m: Memory, p: nat, v: Byte, b: Block)
    requires HEAP_START <= p < HEAP_START + |m.bytes| && (p < b.Payload() || b.End() <= p)
    ensures PayloadOf(StoreByte(m, p, v), b) == PayloadOf(m, b)
  {
  }

  /** ... and, when k is live, changes that one byte of that one payload. */
  lemma ByteChangesPayload(m: Memory, h: Heap, k: nat, off: nat, v: Byte)
    requires Contiguous(h.blocks) && k < |h.blocks| && !h.blocks[k].free && off < h.blocks[k].size
    requires HEAP_START <= h.blocks[k].Payload() && h.blocks[k].End() <= HEAP_START + |m.bytes|
    ensures h.blocks[k] in ContentsOf(m, h) && |ContentsOf(m, h)[h.blocks[k]]| == h.blocks[k].size
    ensures ContentsOf(StoreByte(m, h.blocks[k].Payload() + off, v), h)
         == ContentsOf(m, h)[h.blocks[k] := WithByte(ContentsOf(m, h)[h.blocks[k]], off, v)]
  {
    hide PayloadOf, StoreByte, Contiguous;
    var bs, b, p := h.blocks, h.blocks[k], h.blocks[k].Payload() + off;
    ByteInPayload(m, b, off, v);
    assert b in LiveBlocks(h);
    forall c | c in LiveBlocks(h) && c != b
      ensures PayloadOf(StoreByte(m, p, v), c) == PayloadOf(m, c)
    {
      var i :| 0 <= i < |bs| && bs[i] == c;
      if i < k { Ordered(bs, i, k); } else { Ordered(bs, k, i); }
      ByteElsewhere(m, p, v, c);
    }
  }
}
