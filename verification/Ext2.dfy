/** Reading file data in kernel/fs/ext2.c: the block-mapped copy loop against the flat file. */
module Ext2 {
  import opened Common

  /** The disk image as memory behind a raw pointer: every address holds a byte. */
  type Disk = nat -> Byte

  const DIRECT: nat := 12

  /** The part of struct ext2_inode the reads use. */
  datatype Inode = Inode(size: nat, block: seq<nat>)

  datatype File = File(disk: Disk, bs: nat, inode: Inode)

  predicate IsFile(f: File) {
    f.bs > 0 && f.bs % 4 == 0 && |f.inode.block| == 15
  }

  /** A little-endian 32-bit word. */
  function Word(disk: Disk, at: nat): nat {
    disk(at) + 0x100 * disk(at + 1) + 0x1_0000 * disk(at + 2) + 0x100_0000 * disk(at + 3)
  }

  /** Entry i of the table of block numbers in block no. */
  function TableEntry(f: File, no: nat, i: nat): nat { Word(f.disk, no * f.bs + 4 * i) }

  /** The block that holds block idx of the file, as the driver finds it; 0 if unallocated. */
  function BlockNo(f: File, idx: nat): nat
    requires IsFile(f)
  {
    if idx < DIRECT then f.inode.block[idx] else TableEntry(f, f.inode.block[DIRECT], idx - DIRECT)
  }

  /** Block numbers per table. */
  function PerTable(bs: nat): (n: nat)
    requires bs > 0 && bs % 4 == 0
    ensures n > 0 && 4 * n == bs
  {
    bs / 4
  }

  /** Entry i of a table as ext2 reads it: table number 0 is no table, and all of it a hole. */
  function Sparse(f: File, no: nat, i: nat): nat { if no == 0 then 0 else TableEntry(f, no, i) }

  /** Entry i of a tree of tables of the given depth. */
  function TreeEntry(f: File, no: nat, depth: nat, per: nat, i: nat): nat
    requires per > 0
    decreases depth
  {
    if depth == 0 then Sparse(f, no, i) else Sparse(f, TreeEntry(f, no, depth - 1, per, i / per), i % per)
  }

  /** The block ext2 itself assigns: direct, single, double and triple indirect; 0 is a hole. */
  function Assigned(f: File, idx: nat): nat
    requires IsFile(f)
  {
    var per := PerTable(f.bs);
    if idx < 12 then f.inode.block[idx]
    else if idx - 12 < per then TreeEntry(f, f.inode.block[12], 0, per, idx - 12)
    else if idx - 12 - per < per * per then TreeEntry(f, f.inode.block[13], 1, per, idx - 12 - per)
    else TreeEntry(f, f.inode.block[14], 2, per, idx - 12 - per - per * per)
  }

  // ------------------------------------------------------------ the flat file

  /** The block of the file that offset o lies in. */
  function Index(o: nat, bs: nat): nat
    requires bs > 0
  {
    o / bs
  }

  /** The disk address of the byte at offset o. */
  function Address(f: File, o: nat): nat
    requires IsFile(f)
  {
    BlockNo(f, Index(o, f.bs)) * f.bs + o % f.bs
  }

  /** The byte at offset o of the flat file. */
  function At(f: File, o: nat): Byte
    requires IsFile(f)
  {
    f.disk(Address(f, o))
  }

  /** Where reading must stop: the end of the file or an unallocated block. */
  predicate Stop(f: File, o: nat)
    requires IsFile(f)
  {
    o >= f.inode.size || BlockNo(f, Index(o, f.bs)) == 0
  }

  /** The first stop from o on. */
  function Extent(f: File, o: nat): (e: nat)
    requires IsFile(f)
    ensures o <= e && Stop(f, e) && (forall k :: o <= k < e ==> !Stop(f, k))
    decreases f.inode.size - o
  {
    if Stop(f, o) then o else Extent(f, o + 1)
  }

  /** Bytes [a, b) of the flat file. */
  function Slice(f: File, a: nat, b: nat): (s: seq<Byte>)
    requires IsFile(f) && a <= b
    ensures |s| == b - a && forall k :: 0 <= k < b - a ==> s[k] == At(f, a + k)
    decreases b - a
  {
    if a == b then [] else [At(f, a)] + Slice(f, a + 1, b)
  }

  /** How many bytes a read of len at o returns. */
  function Count(f: File, o: nat, len: nat): nat
    requires IsFile(f)
  {
    Min(len, Extent(f, o) - o)
  }

  function Read(f: File, o: nat, len: nat): seq<Byte>
    requires IsFile(f)
  {
    Slice(f, o, o + Count(f, o, len))
  }

  /** A run of reads from o: what they return, one after another. */
  function Reads(f: File, o: nat, lens: seq<nat>): seq<Byte>
    requires IsFile(f)
    decreases |lens|
  {
    if lens == [] then [] else Read(f, o, lens[0]) + Reads(f, o + Count(f, o, lens[0]), lens[1..])
  }

  function Total(lens: seq<nat>): nat { if lens == [] then 0 else lens[0] + Total(lens[1..]) }

  // ------------------------------------------------------------------ lemmas

  lemma {:induction false} ExtentFrom(f: File, o: nat, k: nat)
    requires IsFile(f) && o <= k <= Extent(f, o)
    ensures Extent(f, k) == Extent(f, o)
    decreases k - o
  {
    if o < k { ExtentFrom(f, o + 1, k); }
  }

  lemma SliceJoin(f: File, a: nat, b: nat, c: nat)
    requires IsFile(f) && a <= b <= c
    ensures Slice(f, a, b) + Slice(f, b, c) == Slice(f, a, c)
  {
  }

  /** Two reads in a row are one read of both lengths. */
  lemma ReadSplit(f: File, o: nat, a: nat, b: nat)
    requires IsFile(f)
    ensures Read(f, o, a) + Read(f, o + Count(f, o, a), b) == Read(f, o, a + b)
  {
    var n := Count(f, o, a);
    ExtentFrom(f, o, o + n);
    SliceJoin(f, o, o + n, o + n + Count(f, o + n, b));
  }

  /** Any run of reads returns the contiguous slice one read of the total length would. */
  lemma {:induction false} ReadsJoin(f: File, o: nat, lens: seq<nat>)
    requires IsFile(f)
    ensures Reads(f, o, lens) == Read(f, o, Total(lens))
    decreases |lens|
  {
    if lens != [] {
      ReadSplit(f, o, lens[0], Total(lens[1..]));
      ReadsJoin(f, o + Count(f, o, lens[0]), lens[1..]);
    }
  }

  /** Offsets in one block share its number, and the offset within it moves along. */
  lemma SameBlock(bs: nat, o: nat, k: nat)
    requires bs > 0 && o % bs + k < bs
    ensures (o + k) / bs == o / bs && (o + k) % bs == o % bs + k
  {
    var q, r := o / bs, o % bs;
    assert o + k == bs * q + (r + k);
    DivModIs(bs, q, r + k);
  }

  lemma MulMono(a: nat, b: nat, c: nat)
    requires a <= b
    ensures a * c <= b * c
  {
  }

  lemma QuotientIs(bs: nat, q: nat, r: nat, p: nat, t: nat)
    requires r < bs && t < bs && bs * q + r == bs * p + t
    ensures q == p
  {
    if q < p { MulMono(q + 1, p, bs); }
    if p < q { MulMono(p + 1, q, bs); }
  }

  lemma DivModIs(bs: nat, q: nat, r: nat)
    requires r < bs
    ensures (bs * q + r) / bs == q && (bs * q + r) % bs == r
  {
    var x := bs * q + r;
    assert x == bs * (x / bs) + x % bs;
    QuotientIs(bs, q, r, x / bs, x % bs);
  }

  lemma InBlock(f: File, o: nat, j: nat)
    requires IsFile(f) && o <= j < f.inode.size && o % f.bs + (j - o) < f.bs && !Stop(f, o)
    ensures !Stop(f, j) && At(f, j) == f.disk(Address(f, o) + (j - o))
  {
    SameBlock(f.bs, o, j - o);
  }

  /** Within an allocated block nothing stops a read before the file ends. */
  lemma BlockRuns(f: File, o: nat, n: nat)
    requires IsFile(f) && !Stop(f, o) && o % f.bs + n <= f.bs && o + n <= f.inode.size
    ensures o + n <= Extent(f, o)
  {
    var e := Extent(f, o);
    if o <= e < o + n { InBlock(f, o, e); }
  }

  lemma IndexBelow(bs: nat, o: nat, n: nat)
    requires bs > 0 && o < n * bs
    ensures o / bs < n
  {
    assert o == bs * (o / bs) + o % bs;
    if n <= o / bs { MulMono(n, o / bs, bs); }
  }

  /** Without an indirect block the driver reads its table from disk block 0; with one, or where that
      word happens to be 0, it finds what ext2 assigns. */
  lemma BlockAgrees(f: File, idx: nat)
    requires IsFile(f) && idx < 12 + PerTable(f.bs)
    ensures BlockNo(f, idx) == Assigned(f, idx) <==> idx < 12 || f.inode.block[12] != 0 || Word(f.disk, 4 * (idx - 12)) == 0
    ensures BlockNo(f, idx) != Assigned(f, idx) ==> Assigned(f, idx) == 0
  {
    assert 0 * f.bs + 4 * (idx - 12) == 4 * (idx - 12);
  }

  lemma {:induction false} ZeroTree(f: File, depth: nat, per: nat, i: nat)
    requires per > 0
    ensures TreeEntry(f, 0, depth, per, i) == 0
    decreases depth
  {
    hide TableEntry;
    if depth > 0 { ZeroTree(f, depth - 1, per, i / per); }
  }

  /** The entry of a table, or a hole where there is no table. */
  function Hop(f: File, no: nat, i: nat): nat { if no == 0 then 0 else Word(f.disk, no * f.bs + 4 * i) }

  /** The blocks ext2 assigns, n numbers to a table: twelve direct ones, n through one table, n * n through
      two, and through three from there on. Entry c of table b of table a is number (a * n + b) * n + c. */
  lemma AssignedLaw(f: File, n: nat, a: nat, b: nat, c: nat, pair: nat, triple: nat, square: nat)
    requires IsFile(f) && 4 * n == f.bs && b < n && c < n && pair == n * b + c && triple == n * (n * a + b) + c && square == n * n
    ensures c < 12 ==> Assigned(f, c) == f.inode.block[c]
    ensures Assigned(f, 12 + c) == Hop(f, f.inode.block[12], c)
    ensures pair < square && Assigned(f, 12 + n + pair) == Hop(f, Hop(f, f.inode.block[13], b), c)
    ensures Assigned(f, 12 + n + square + triple) == Hop(f, Hop(f, Hop(f, f.inode.block[14], a), b), c)
  {
    hide Word, TreeEntry, Hop;
    assert n == PerTable(f.bs);
    TreeOne(f, f.inode.block[12], n, c);
    DivModIs(n, b, c);
    DivModIs(n, n * a + b, c);
    DivModIs(n, a, b);
    TreeTwo(f, f.inode.block[13], n, pair);
    TreeThree(f, f.inode.block[14], n, triple);
    assert pair < square by { MulMono(b + 1, n, n); }
  }

  lemma TreeOne(f: File, no: nat, n: nat, i: nat)
    requires n > 0
    ensures TreeEntry(f, no, 0, n, i) == Hop(f, no, i)
  {
  }

  lemma TreeTwo(f: File, no: nat, n: nat, i: nat)
    requires n > 0
    ensures TreeEntry(f, no, 1, n, i) == Hop(f, Hop(f, no, i / n), i % n)
  {
    TreeOne(f, no, n, i / n);
  }

  lemma TreeThree(f: File, no: nat, n: nat, i: nat)
    requires n > 0
    ensures TreeEntry(f, no, 2, n, i) == Hop(f, Hop(f, Hop(f, no, i / n / n), i / n % n), i % n)
  {
    TreeTwo(f, no, n, i / n);
  }

  /** A file with an indirect table and no double or triple indirect one. */
  function Beyond(bs: nat): File {
    File((a: nat) => 1, bs, Inode(0, [0, 0, 0, 0, 0, 0, 0, 0, 0, 0, 0, 0, 1, 0, 0]))
  }

  lemma BeyondDiffers(bs: nat, idx: nat)
    requires bs > 0 && bs % 4 == 0 && 12 + PerTable(bs) <= idx
    ensures IsFile(Beyond(bs)) && BlockNo(Beyond(bs), idx) != 0 && Assigned(Beyond(bs), idx) == 0
  {
    var f, per := Beyond(bs), PerTable(bs);
    if idx - 12 - per < per * per {
      ZeroTree(f, 1, per, idx - 12 - per);
    } else {
      ZeroTree(f, 2, per, idx - 12 - per - per * per);
    }
  }

  /** Thirteen blocks, none of them allocated: ext2 has a hole, the driver a block. */
  const SPARSE: File := File((a: nat) => 1, 1024, Inode(13 * 1024, [0, 0, 0, 0, 0, 0, 0, 0, 0, 0, 0, 0, 0, 0, 0]))

  lemma SparseFile()
    ensures IsFile(SPARSE) && Assigned(SPARSE, 12) == 0 && BlockNo(SPARSE, 12) != 0
    ensures Read(SPARSE, 12 * 1024, 1) == [1]
  {
    var f, o := SPARSE, 12 * 1024;
    assert Index(o, 1024) == 12 && !Stop(f, o);
    assert Extent(f, o) > o;
    assert Slice(f, o, o + 1) == [At(f, o)] + Slice(f, o + 1, o + 1);
  }

  /** The driver finds block idx of every file with this block size exactly when it is a direct block,
      and of every file that has an indirect block exactly when the indirect block reaches it. */
  lemma DriverReaches(bs: nat, idx: nat)
    requires bs > 0 && bs % 4 == 0
    ensures (forall f | IsFile(f) && f.bs == bs :: BlockNo(f, idx) == Assigned(f, idx)) <==> idx < 12
    ensures (forall f | IsFile(f) && f.bs == bs && f.inode.block[12] != 0 :: BlockNo(f, idx) == Assigned(f, idx))
            <==> idx < 12 + PerTable(bs)
  {
    if idx < 12 + PerTable(bs) {
      forall f | IsFile(f) && f.bs == bs && (idx < 12 || f.inode.block[12] != 0)
        ensures BlockNo(f, idx) == Assigned(f, idx)
      {
        BlockAgrees(f, idx);
      }
      BlockAgrees(SPARSE.(bs := bs), idx);
    } else {
      BeyondDiffers(bs, idx);
    }
  }

  /** The byte ext2's own block assignment puts at offset o. */
  function Ext2At(f: File, o: nat): Byte
    requires IsFile(f)
  {
    f.disk(Assigned(f, Index(o, f.bs)) * f.bs + o % f.bs)
  }

  /** ext2 has a byte at offset o: the file reaches it and its block is allocated. */
  predicate Stored(f: File, o: nat)
    requires IsFile(f)
  {
    o < f.inode.size && Assigned(f, Index(o, f.bs)) != 0
  }

  /** The run of reads returns, joined, the bytes ext2 stores from o on, and fewer than asked for only
      where ext2 stores none. */
  ghost predicate ReadsRight(f: File, o: nat, lens: seq<nat>)
    requires IsFile(f)
  {
    var got := Reads(f, o, lens);
    && |got| <= Total(lens)
    && (forall j :: o <= j < o + |got| ==> Stored(f, j) && got[j - o] == Ext2At(f, j))
    && (|got| < Total(lens) ==> !Stored(f, o + |got|))
  }

  /** Block idx begins before the end of the file. */
  predicate HasBlock(f: File, idx: nat) { idx * f.bs < f.inode.size }

  /** What the driver takes for the file's indirect table is one, or says 0 wherever it is asked. */
  ghost predicate Tabled(f: File) {
    |f.inode.block| == 15 && (f.inode.block[12] != 0 || forall idx :: 12 <= idx && HasBlock(f, idx) ==> Word(f.disk, 4 * (idx - 12)) == 0)
  }

  /** The size limit the driver is written for. */
  predicate Small(f: File)
    requires IsFile(f)
  {
    f.inode.size <= (12 + PerTable(f.bs)) * f.bs
  }

  lemma BlockBelow(f: File, o: nat)
    requires IsFile(f) && Small(f) && o < f.inode.size
    ensures Index(o, f.bs) < 12 + PerTable(f.bs) && HasBlock(f, Index(o, f.bs))
  {
    IndexBelow(f.bs, o, 12 + PerTable(f.bs));
    IndexStarts(f.bs, o);
  }

  lemma IndexStarts(bs: nat, o: nat)
    requires bs > 0
    ensures Index(o, bs) * bs <= o
  {
  }

  /** Within such a file the driver's mapping, byte and stop are ext2's. */
  lemma MappingAgrees(f: File, o: nat)
    requires IsFile(f) && Small(f) && Tabled(f) && o < f.inode.size
    ensures BlockNo(f, Index(o, f.bs)) == Assigned(f, Index(o, f.bs))
    ensures At(f, o) == Ext2At(f, o) && (Stop(f, o) <==> !Stored(f, o))
  {
    hide Assigned, BlockNo, Word;
    BlockBelow(f, o);
    BlockAgrees(f, Index(o, f.bs));
  }

  lemma TabledReads(f: File, o: nat, lens: seq<nat>)
    requires IsFile(f) && Small(f) && Tabled(f)
    ensures ReadsRight(f, o, lens)
  {
    hide Assigned, BlockNo, Tabled, Small, Stored, Ext2At, Stop;
    ReadsJoin(f, o, lens);
    var got := Reads(f, o, lens);
    forall j | o <= j < o + |got| ensures Stored(f, j) && got[j - o] == Ext2At(f, j) {
      StoredByte(f, o, j);
    }
    assert |got| == Count(f, o, Total(lens));
    if |got| < Total(lens) {
      NotStored(f, o);
      assert o + |got| == Extent(f, o);
    }
  }

  lemma StoredByte(f: File, o: nat, j: nat)
    requires IsFile(f) && Small(f) && Tabled(f) && o <= j < Extent(f, o)
    ensures Stored(f, j) && At(f, j) == Ext2At(f, j)
  {
    assert !Stop(f, j);
    MappingAgrees(f, j);
  }

  lemma NotStored(f: File, o: nat)
    requires IsFile(f) && Small(f) && Tabled(f)
    ensures !Stored(f, Extent(f, o))
  {
    var e := Extent(f, o);
    assert Stop(f, e);
    if e < f.inode.size { MappingAgrees(f, e); }
  }

  lemma OneByte(f: File, o: nat)
    requires IsFile(f) && !Stop(f, o)
    ensures |Reads(f, o, [1])| == 1
  {
    assert Total([1]) == 1 by { assert [1][1..] == []; }
    ReadsJoin(f, o, [1]);
    assert Extent(f, o) > o;
  }

  /** A block the driver makes up is read although ext2 stores nothing there. */
  lemma MadeUpBlock(f: File, idx: nat)
    requires IsFile(f) && Small(f) && 12 <= idx && HasBlock(f, idx) && f.inode.block[12] == 0 && Word(f.disk, 4 * (idx - 12)) != 0
    ensures !ReadsRight(f, idx * f.bs, [1])
  {
    hide Assigned, Word, Ext2At;
    var o := idx * f.bs;
    assert Index(o, f.bs) == idx by { DivModIs(f.bs, idx, 0); }
    BlockBelow(f, o);
    BlockAgrees(f, idx);
    assert !Stop(f, o) && !Stored(f, o);
    OneByte(f, o);
  }

  /** On a file of at most 12 + block_size / 4 blocks all runs of reads are ext2's exactly when its
      indirect table is there, or nothing is found in its place. */
  lemma ReadsAreExt2(f: File)
    requires IsFile(f) && Small(f)
    ensures (forall o, lens :: ReadsRight(f, o, lens)) <==> Tabled(f)
  {
    hide ReadsRight, Word, Small;
    if Tabled(f) {
      forall o, lens ensures ReadsRight(f, o, lens) { TabledReads(f, o, lens); }
    } else {
      var idx :| 12 <= idx && HasBlock(f, idx) && Word(f.disk, 4 * (idx - 12)) != 0;
      MadeUpBlock(f, idx);
    }
  }

  // ------------------------------------------------------------- the program

  /** The length of one pass: to the end of the block, the buffer or the file. */
  function Chunk(f: File, o: nat, left: nat): (n: nat)
    requires IsFile(f) && o < f.inode.size && left > 0
    ensures 0 < n <= left && o + n <= f.inode.size && o % f.bs + n <= f.bs
  {
    Min(Min(f.bs - o % f.bs, left), f.inode.size - o)
  }

  lemma ChunkRuns(f: File, o: nat, left: nat)
    requires IsFile(f) && !Stop(f, o) && left > 0
    ensures var n := Chunk(f, o, left);
            && o + n <= Extent(f, o) && Extent(f, o + n) == Extent(f, o)
            && Count(f, o, left) == n + Count(f, o + n, left - n)
            && forall j :: o <= j < o + n ==> At(f, j) == f.disk(Address(f, o) + (j - o))
  {
    var n := Chunk(f, o, left);
    BlockRuns(f, o, n);
    ExtentFrom(f, o, o + n);
    forall j | o <= j < o + n ensures At(f, j) == f.disk(Address(f, o) + (j - o)) { InBlock(f, o, j); }
  }

  /** ext2_read_inode_data: fills buf with the file's bytes from offset on and returns how many. */
  method ReadInodeData(f: File, offset: nat, buf: array<Byte>, len: nat) returns (read: nat)
    requires IsFile(f) && len <= buf.Length
    modifies buf
    ensures read == Count(f, offset, len) && buf[..read] == Read(f, offset, len)
    ensures forall k :: read <= k < buf.Length ==> buf[k] == old(buf[k])
  {
    read := 0;
    var o := offset;
    while read < len && o < f.inode.size
      invariant read <= len && o == offset + read <= Extent(f, offset)
      invariant Extent(f, o) == Extent(f, offset)
      invariant forall k :: 0 <= k < read ==> buf[k] == At(f, offset + k)
      invariant forall k :: read <= k < buf.Length ==> buf[k] == old(buf[k])
    {
      if BlockNo(f, Index(o, f.bs)) == 0 { break; }
      var n := Chunk(f, o, len - read);
      ChunkRuns(f, o, len - read);
      CopyFrom(f, Address(f, o), buf, read, n);
      assert forall k :: read <= k < read + n ==> buf[k] == At(f, offset + k);
      read, o := read + n, o + n;
    }
  }

  /** The inner copy: n bytes of the disk to buf[to..]. */
  method CopyFrom(f: File, from: nat, buf: array<Byte>, to: nat, n: nat)
    requires to + n <= buf.Length
    modifies buf
    ensures forall k :: 0 <= k < buf.Length ==>
              buf[k] == if to <= k < to + n then f.disk(from + (k - to)) else old(buf[k])
  {
    var i := 0;
    while i < n
      invariant 0 <= i <= n
      invariant forall k :: 0 <= k < buf.Length ==>
                  buf[k] == if to <= k < to + i then f.disk(from + (k - to)) else old(buf[k])
    {
      buf[to + i] := f.disk(from + i);
      i := i + 1;
    }
  }

  /** struct file, as far as ext2_file_read uses it. */
  class OpenFile {
    const f: File
    var offset: nat

    constructor (f: File)
      ensures this.f == f && offset == 0
    {
      this.f := f;
      offset := 0;
    }

    /** ext2_file_read: one step of a run of reads. */
    method FileRead(buf: array<Byte>, len: nat) returns (n: nat)
      requires IsFile(f) && len <= buf.Length
      modifies this, buf
      ensures n == Count(f, old(offset), len) && offset == old(offset) + n
      ensures buf[..n] == Read(f, old(offset), len)
      ensures forall lens :: Reads(f, old(offset), [len] + lens) == buf[..n] + Reads(f, offset, lens)
      ensures forall k :: n <= k < buf.Length ==> buf[k] == old(buf[k])
    {
      n := ReadInodeData(f, offset, buf, len);
      offset := offset + n;
      assert forall lens: seq<nat> :: ([len] + lens)[1..] == lens;
    }
  }
}
