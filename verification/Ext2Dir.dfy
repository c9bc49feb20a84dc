/** Looking a name up in an ext2 directory: kernel/fs/ext2.c walks the records of each block. A
    directory is given as the entries its blocks encode. */
module Ext2Dir {
  import opened Common
  import opened Ext2

  /** A record: its inode (0 if deleted), its name, its file type and the bytes that fill it up. */
  datatype Entry = Entry(ino: nat, name: seq<Byte>, kind: Byte, pad: seq<Byte>)

  predicate IsEntry(e: Entry) {
    e.ino < 0x1_0000_0000 && |e.name| < 256 && 0 !in e.name && RecLen(e) < 0x1_0000
  }

  function RecLen(e: Entry): nat { 8 + |e.name| + |e.pad| }

  function Encode(e: Entry): (r: seq<Byte>)
    requires IsEntry(e)
    ensures |r| == RecLen(e)
  {
    [e.ino % 256, e.ino / 0x100 % 256, e.ino / 0x1_0000 % 256, e.ino / 0x100_0000 % 256]
    + [RecLen(e) % 256, RecLen(e) / 0x100, |e.name|, e.kind] + e.name + e.pad
  }

  predicate AreEntries(es: seq<Entry>) { forall k :: 0 <= k < |es| ==> IsEntry(es[k]) }

  function EncodeAll(es: seq<Entry>): seq<Byte>
    requires AreEntries(es)
  {
    if es == [] then [] else Encode(es[0]) + EncodeAll(es[1..])
  }

  /** The inode of the first entry that is in use and has this name. */
  function First(es: seq<Entry>, name: seq<Byte>): Option<nat> {
    if es == [] then None
    else if es[0].ino != 0 && es[0].name != [] && es[0].name == name then Some(es[0].ino)
    else First(es[1..], name)
  }

  function FirstIn(blocks: seq<seq<Entry>>, name: seq<Byte>): Option<nat> {
    if blocks == [] then None
    else if First(blocks[0], name).Some? then First(blocks[0], name)
    else FirstIn(blocks[1..], name)
  }

  function Flatten(blocks: seq<seq<Entry>>): seq<Entry> {
    if blocks == [] then [] else blocks[0] + Flatten(blocks[1..])
  }

  /** Block by block is entry by entry. */
  lemma {:induction false} FirstInFlat(blocks: seq<seq<Entry>>, name: seq<Byte>)
    ensures FirstIn(blocks, name) == First(Flatten(blocks), name)
  {
    if blocks != [] {
      FirstInFlat(blocks[1..], name);
      FirstAppend(blocks[0], Flatten(blocks[1..]), name);
    }
  }

  lemma {:induction false} FirstAppend(a: seq<Entry>, b: seq<Entry>, name: seq<Byte>)
    ensures First(a + b, name) == if First(a, name).Some? then First(a, name) else First(b, name)
  {
    if a == [] {
      assert a + b == b;
    } else {
      FirstAppend(a[1..], b, name);
      assert (a + b)[1..] == a[1..] + b;
    }
  }

  // -------------------------------------------------------------- the records

  /** What the loop reads of a record at p. */
  function InoAt(buf: seq<Byte>, p: nat): nat
    requires p + 8 <= |buf|
  {
    buf[p] as int + 0x100 * buf[p + 1] as int + 0x1_0000 * buf[p + 2] as int + 0x100_0000 * buf[p + 3] as int
  }

  function RecLenAt(buf: seq<Byte>, p: nat): nat
    requires p + 8 <= |buf|
  {
    buf[p + 4] as int + 0x100 * buf[p + 5] as int
  }

  lemma WordSplits(x: nat)
    requires x < 0x1_0000_0000
    ensures x % 256 + 0x100 * (x / 0x100 % 256) + 0x1_0000 * (x / 0x1_0000 % 256) + 0x100_0000 * (x / 0x100_0000 % 256) == x
  {
  }

  /** The header fields decode to the entry they encode. */
  lemma Decodes(buf: seq<Byte>, p: nat, e: Entry)
    requires IsEntry(e) && p + RecLen(e) <= |buf| && buf[p..p + RecLen(e)] == Encode(e)
    ensures InoAt(buf, p) == e.ino && RecLenAt(buf, p) == RecLen(e) && buf[p + 6] == |e.name|
    ensures buf[p + 8..p + 8 + |e.name|] == e.name
  {
    var r := Encode(e);
    assert forall i :: 0 <= i < RecLen(e) ==> buf[p..p + RecLen(e)][i] == r[i];
    forall i | 0 <= i < |e.name| ensures buf[p + 8..p + 8 + |e.name|][i] == e.name[i] {
      assert buf[p..p + RecLen(e)][8 + i] == r[8 + i];
    }
    WordSplits(e.ino);
  }

  /** The records from entry k on lie in buf from p on. */
  ghost predicate RecordsAt(buf: seq<Byte>, p: nat, es: seq<Entry>, k: nat) {
    && k <= |es| && p <= |buf| && AreEntries(es)
    && buf[p..] == EncodeAll(es[k..])
  }

  lemma NextRecord(buf: seq<Byte>, p: nat, es: seq<Entry>, k: nat)
    requires RecordsAt(buf, p, es, k) && k < |es|
    ensures p + RecLen(es[k]) <= |buf| && buf[p..p + RecLen(es[k])] == Encode(es[k])
    ensures RecordsAt(buf, p + RecLen(es[k]), es, k + 1)
  {
    var e, rest := Encode(es[k]), EncodeAll(es[k + 1..]);
    assert es[k..][1..] == es[k + 1..];
    assert buf[p..] == e + rest;
    assert buf[p + |e|..] == buf[p..][|e|..] && buf[p..p + |e|] == buf[p..][..|e|];
  }

  /** The block ends exactly where its entries do. */
  lemma EntriesLeft(buf: seq<Byte>, p: nat, es: seq<Entry>, k: nat)
    requires RecordsAt(buf, p, es, k)
    ensures p < |buf| <==> k < |es|
  {
    assert |buf[p..]| == |buf| - p;
    if k < |es| { NextRecord(buf, p, es, k); }
  }

  // -------------------------------------------------------------- the program

  /** The comparison loop: a name of the record against the C string. */
  method SameName(buf: seq<Byte>, at: nat, len: nat, name: seq<Byte>) returns (same: bool)
    requires at + len <= |buf| && 0 !in name && 0 !in buf[at..at + len]
    ensures same <==> buf[at..at + len] == name
  {
    var i := 0;
    while i < len
      invariant 0 <= i <= len && i <= |name| && buf[at..at + i] == name[..i]
    {
      assert buf[at..at + len][i] == buf[at + i];
      if i == |name| || buf[at + i] != name[i] { return false; }
      assert buf[at..at + i + 1] == buf[at..at + i] + [buf[at + i]] && name[..i + 1] == name[..i] + [name[i]];
      i := i + 1;
    }
    assert name[..|name|] == name;
    same := |name| == len;
  }

  /** The walk over one block. */
  method WalkBlock(buf: seq<Byte>, name: seq<Byte>, ghost es: seq<Entry>) returns (r: Option<nat>)
    requires RecordsAt(buf, 0, es, 0) && 0 !in name
    ensures r == First(es, name)
  {
    var p: nat := 0;
    ghost var k := 0;
    assert es[0..] == es;
    while p < |buf|
      invariant RecordsAt(buf, p, es, k) && First(es, name) == First(es[k..], name)
      decreases |buf| - p
    {
      EntriesLeft(buf, p, es, k);
      ghost var e := es[k];
      NextRecord(buf, p, es, k);
      Decodes(buf, p, e);
      assert es[k..][1..] == es[k + 1..];
      var recLen := RecLenAt(buf, p);
      if recLen == 0 { break; }
      if InoAt(buf, p) != 0 && buf[p + 6] > 0 {
        var same := SameName(buf, p + 8, buf[p + 6], name);
        if same { return Some(InoAt(buf, p)); }
      }
      p, k := p + recLen, k + 1;
    }
    EntriesLeft(buf, p, es, k);
    r := None;
  }

  // ---------------------------------------------------------- the filesystem

  /** The mounted image, as struct ext2_fs keeps it. */
  datatype Fs = Fs(disk: Disk, bs: nat, perGroup: nat, inodeSize: nat)

  predicate IsFs(fs: Fs) { fs.bs > 0 && fs.bs % 4 == 0 && fs.perGroup > 0 }

  const IFDIR: nat := 0x4000

  function Half(disk: Disk, at: nat): nat { disk(at) as int + 0x100 * disk(at + 1) as int }

  function Within(o: nat, n: nat): nat
    requires n > 0
  {
    o % n
  }

  function Times(a: nat, b: nat): nat { a * b }

  /** ext2_get_inode: where inode ino lies, from its group's descriptor. */
  function InodeAddress(fs: Fs, ino: nat): nat
    requires IsFs(fs) && ino > 0
  {
    var group, index := Index(ino - 1, fs.perGroup), Within(ino - 1, fs.perGroup);
    var descriptor := (if fs.bs == 1024 then 2 * 1024 else fs.bs) + 32 * group;
    Times(Word(fs.disk, descriptor + 8), fs.bs) + Times(index, fs.inodeSize) % 0x1_0000_0000
  }

  function FileOf(fs: Fs, ino: nat): (f: File)
    requires IsFs(fs) && ino > 0
    ensures IsFile(f)
  {
    var a := InodeAddress(fs, ino);
    File(fs.disk, fs.bs, Inode(Word(fs.disk, a + 4), seq(15, i requires 0 <= i < 15 => Word(fs.disk, a + 40 + 4 * i))))
  }

  /** Slot i of the inode table of group g: the table begins at the block named at byte 8 of the group's
      32-byte descriptor, and the descriptors behind the superblock's block. */
  function SlotAddress(fs: Fs, g: nat, i: nat): nat {
    Word(fs.disk, (if fs.bs == 1024 then 2048 else fs.bs) + 32 * g + 8) * fs.bs + i * fs.inodeSize
  }

  /** Inode g * perGroup + i + 1 is slot i of group g, as long as the offset of the slot fits 32 bits, in
      which it is computed: mode, size and the fifteen block numbers stand at bytes 0, 4 and 40 on. */
  lemma InodeInGroup(fs: Fs, g: nat, i: nat, a: nat)
    requires IsFs(fs) && i < fs.perGroup && a == SlotAddress(fs, g, 0) + i * fs.inodeSize % 4294967296
    ensures i * fs.inodeSize < 4294967296 ==> a == SlotAddress(fs, g, i)
    ensures var ino := g * fs.perGroup + i + 1; var f := FileOf(fs, ino);
            && f.disk == fs.disk && f.bs == fs.bs && f.inode.size == Word(fs.disk, a + 4)
            && |f.inode.block| == 15 && (forall j :: 0 <= j < 15 ==> f.inode.block[j] == Word(fs.disk, a + 40 + 4 * j))
            && (HasDirBit(fs, ino) <==> (fs.disk(a) + 256 * fs.disk(a + 1)) / 0x4000 % 2 == 1)
  {
    hide Word;
    var n := g * fs.perGroup + i;
    assert n == fs.perGroup * g + i;
    DivModIs(fs.perGroup, g, i);
    assert Times(i, fs.inodeSize) == i * fs.inodeSize;
    assert InodeAddress(fs, n + 1) == a;
  }

  /** Groups g and h keep their inodes apart. */
  predicate TablesApart(fs: Fs, g: nat, h: nat) {
    || SlotAddress(fs, g, fs.perGroup) <= SlotAddress(fs, h, 0)
    || SlotAddress(fs, h, fs.perGroup) <= SlotAddress(fs, g, 0)
  }

  /** Two inodes of one table, or of two tables that lie apart, do not overlap. */
  lemma InodesApart(fs: Fs, g: nat, i: nat, h: nat, j: nat)
    requires i < fs.perGroup && j < fs.perGroup && (g, i) != (h, j) && (g != h ==> TablesApart(fs, g, h))
    ensures || SlotAddress(fs, g, i) + fs.inodeSize <= SlotAddress(fs, h, j)
            || SlotAddress(fs, h, j) + fs.inodeSize <= SlotAddress(fs, g, i)
  {
    hide SlotAddress;
    SlotBefore(fs, g, 0, i);
    SlotBefore(fs, h, 0, j);
    SlotBefore(fs, g, i, fs.perGroup);
    SlotBefore(fs, h, j, fs.perGroup);
    SlotBefore(fs, g, i, j);
    SlotBefore(fs, g, j, i);
  }

  lemma SlotBefore(fs: Fs, g: nat, i: nat, j: nat)
    ensures i < j ==> SlotAddress(fs, g, i) + fs.inodeSize <= SlotAddress(fs, g, j)
    ensures i <= j ==> SlotAddress(fs, g, i) <= SlotAddress(fs, g, j)
  {
    hide Word;
    if i < j { MulMono(i + 1, j, fs.inodeSize); }
  }

  /** What ext2_lookup tests of i_mode: one bit, which directories have, and block devices and sockets. */
  predicate HasDirBit(fs: Fs, ino: nat)
    requires IsFs(fs) && ino > 0
  {
    Half(fs.disk, InodeAddress(fs, ino)) / IFDIR % 2 == 1
  }

  /** The driver walks f as these blocks: the ones before the first it takes for unallocated, each filled
      by the records of its entries. */
  ghost predicate Shows(f: File, seen: seq<seq<Entry>>)
    requires IsFile(f)
  {
    && f.bs <= 4096 && Extent(f, 0) == |seen| * f.bs
    && forall i :: 0 <= i < |seen| ==> ShowsAt(f, seen[i], i)
  }

  ghost predicate ShowsAt(f: File, es: seq<Entry>, i: nat)
    requires IsFile(f)
  {
    AreEntries(es) && Slice(f, i * f.bs, i * f.bs + f.bs) == EncodeAll(es)
  }

  /** The record walk stays within the blocks it reads. */
  ghost predicate Readable(fs: Fs, ino: nat)
    requires IsFs(fs) && ino > 0
  {
    HasDirBit(fs, ino) ==> exists seen :: Shows(FileOf(fs, ino), seen)
  }

  /** The entries ext2_lookup goes through, in order. */
  ghost function Seen(fs: Fs, ino: nat): seq<Entry>
    requires IsFs(fs) && ino > 0 && Readable(fs, ino)
  {
    if HasDirBit(fs, ino) then var seen :| Shows(FileOf(fs, ino), seen); Flatten(seen) else []
  }

  lemma Below(i: nat, n: nat, bs: nat)
    requires bs > 0
    ensures i * bs < n * bs <==> i < n
  {
    if i < n { MulMono(i + 1, n, bs); } else { MulMono(n, i, bs); }
  }

  lemma WholeBlock(f: File, seen: seq<seq<Entry>>, i: nat)
    requires IsFile(f) && Shows(f, seen) && i < |seen|
    ensures i * f.bs + f.bs <= f.inode.size && Count(f, i * f.bs, f.bs) == f.bs
    ensures Read(f, i * f.bs, f.bs) == EncodeAll(seen[i])
  {
    assert ShowsAt(f, seen[i], i);
    var e := i * f.bs + f.bs;
    assert e <= |seen| * f.bs by { MulMono(i + 1, |seen|, f.bs); }
    ExtentFrom(f, 0, i * f.bs);
    assert !Stop(f, e - 1);
  }

  /** ext2_lookup: the inode of the first of the entries it goes through that has the name, or nothing. */
  method Lookup(fs: Fs, dir: nat, name: seq<Byte>) returns (r: Option<nat>)
    requires IsFs(fs) && dir > 0 && 0 !in name && Readable(fs, dir)
    ensures r == First(Seen(fs, dir), name)
  {
    if !HasDirBit(fs, dir) { return None; }
    var f := FileOf(fs, dir);
    ghost var seen :| Shows(f, seen) && Seen(fs, dir) == Flatten(seen);
    var buf := new Byte[4096](_ => 0);
    var off: nat := 0;
    ghost var i: nat := 0;
    FirstInFlat(seen, name);
    assert seen[0..] == seen;
    while off < f.inode.size
      invariant i <= |seen| && off == i * f.bs && FirstIn(seen, name) == FirstIn(seen[i..], name)
      decreases f.inode.size - off
    {
      if i == |seen| { NothingThere(f, off); } else { WholeBlock(f, seen, i); }
      var n := ReadInodeData(f, off, buf, if f.bs < 4096 then f.bs else 4096);
      if n == 0 { break; }
      assert seen[i..][1..] == seen[i + 1..] && seen[i][0..] == seen[i];
      assert ShowsAt(f, seen[i], i);
      assert buf[..n][0..] == buf[..n];
      var found := WalkBlock(buf[..n], name, seen[i]);
      if found.Some? { return found; }
      off, i := off + n, i + 1;
    }
    if i < |seen| { WholeBlock(f, seen, i); }
    r := None;
  }

  lemma NothingThere(f: File, o: nat)
    requires IsFile(f) && o == Extent(f, 0)
    ensures Count(f, o, f.bs) == 0
  {
    assert Stop(f, o);
  }
}
