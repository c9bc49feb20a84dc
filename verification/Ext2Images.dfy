/** Disk images on which ext2_lookup and ext2 part: a directory with a hole and no indirect block, an
    inode that is no directory, a directory beyond the indirect block. */
module Ext2Images {
  import opened Common
  import opened Ext2
  import opened Ext2Dir
  import opened Ext2Paths
  import DentryModel

  // ------------------------------------------------------------- disks of words

  type U32 = w: nat | w < TWO32

  /** The disk that holds these words, little-endian. */
  function FromWords(words: nat -> U32): Disk {
    (a: nat) => ByteIn(words(a / 4), a % 4)
  }

  function ByteIn(w: U32, k: nat): Byte {
    if k == 0 then w % 0x100
    else if k == 1 then w / 0x100 % 0x100
    else if k == 2 then w / 0x1_0000 % 0x100
    else w / 0x100_0000 % 0x100
  }

  lemma WordIs(words: nat -> U32, i: nat)
    ensures Word(FromWords(words), 4 * i) == words(i)
  {
    WordSplits(words(i));
  }

  // -------------------------------------------------------------- what they hold

  /** An inode table has 32 words an inode; inode 2 is a directory with a hole, inode 3 a socket, inode 4 a
      directory of one block. */
  function InodeWord(bs: nat, i: nat): U32
    requires bs <= 4096
  {
    if i == 32 then 0x4000
    else if i == 33 then 13 * bs
    else if 42 <= i < 54 then 1
    else if i == 64 then 0xC000
    else if i == 65 then bs
    else if i == 74 then 7
    else if i == 96 then 0x4000
    else if i == 97 then bs
    else if i == 106 then 7
    else 0
  }

  /** The table of the second group: its third inode is a directory of one block. */
  function SecondWord(bs: nat, i: nat): U32
    requires bs <= 4096
  {
    if i == 64 then 0x4000 else if i == 65 then bs else if i == 74 then 7 else 0
  }

  /** Word i of block b. Block 1 holds one deleted record, block 7 one that names inode 11 "a"; the
      others hold one word over and over, but for the descriptors in block 2 and the inode tables: 3 is an indirect table of blocks 1 and 4, behind it, is empty,
      6 and 9 are the two levels of a double indirect table of blocks 7, and block 0 says 7, too. */
  function Cell(bs: nat, b: nat, i: nat): U32
    requires bs <= 4096
  {
    if b == 0 then 7
    else if b == 1 then (if i == 1 then bs else 0)
    else if b == 2 then (if i == 10 then 10 else 8)
    else if b == 3 then 1
    else if b == 6 then 9
    else if b == 7 then (if i == 0 then 11 else if i == 1 then bs + 0x1_0000 else if i == 2 then 97 else 0)
    else if b == 8 then InodeWord(bs, i)
    else if b == 9 then 7
    else if b == 10 then SecondWord(bs, i)
    else 0
  }

  function Image(bs: nat): Disk
    requires 12 <= bs <= 4096 && bs % 4 == 0
  {
    FromWords((j: nat) => Cell(bs, j / PerTable(bs), j % PerTable(bs)))
  }

  lemma CellIs(bs: nat, b: nat, i: nat)
    requires 12 <= bs <= 4096 && bs % 4 == 0 && i < PerTable(bs)
    ensures Word(Image(bs), b * bs + 4 * i) == Cell(bs, b, i)
  {
    var per := PerTable(bs);
    var words := (j: nat) => Cell(bs, j / PerTable(bs), j % PerTable(bs));
    assert b * bs == 4 * (per * b);
    WordIs(words, per * b + i);
    DivModIs(per, b, i);
  }

  lemma ByteIs(bs: nat, b: nat, j: nat)
    requires 12 <= bs <= 4096 && bs % 4 == 0 && j < bs
    ensures j / 4 < PerTable(bs) && Image(bs)(b * bs + j) == ByteIn(Cell(bs, b, j / 4), j % 4)
  {
    var per := PerTable(bs);
    assert b * bs == 4 * (per * b);
    DivModIs(4, per * b + j / 4, j % 4);
    DivModIs(per, b, j / 4);
  }

  function Zeros(n: nat): seq<Byte> { seq<Byte>(n, _ => 0) }

  function Deleted(bs: nat): Entry
    requires 12 <= bs
  {
    Entry(0, [], 0, Zeros(bs - 8))
  }

  function Named(bs: nat): Entry
    requires 12 <= bs
  {
    Entry(11, [97], 0, Zeros(bs - 9))
  }

  /** What blocks 1 and 7 of the image hold. */
  function Record(bs: nat, b: nat): Entry
    requires 12 <= bs <= 4096 && (b == 1 || b == 7)
  {
    if b == 1 then Deleted(bs) else Named(bs)
  }

  lemma LengthBytes(bs: nat)
    requires bs <= 4096
    ensures ByteIn(bs, 0) == ByteIn(bs + 0x1_0000, 0) == bs % 256 && ByteIn(bs, 1) == ByteIn(bs + 0x1_0000, 1) == bs / 256
    ensures ByteIn(bs, 2) == ByteIn(bs, 3) == 0 && ByteIn(bs + 0x1_0000, 2) == 1 && ByteIn(bs + 0x1_0000, 3) == 0
  {
  }

  lemma DeletedIs(bs: nat, j: nat)
    requires 12 <= bs <= 4096 && j < bs
    ensures IsEntry(Deleted(bs)) && RecLen(Deleted(bs)) == bs && Encode(Deleted(bs))[j] == ByteIn(Cell(bs, 1, j / 4), j % 4)
  {
    LengthBytes(bs);
    var e := Encode(Deleted(bs));
    assert e[0] == e[1] == e[2] == e[3] == 0 && e[4] == bs % 256 && e[5] == bs / 256 && e[6] == e[7] == 0;
    assert j >= 8 ==> e[j] == 0;
    assert j < 4 ==> j / 4 == 0;
    assert 4 <= j < 8 ==> j / 4 == 1 && j % 4 == j - 4;
  }

  lemma NamedIs(bs: nat, j: nat)
    requires 12 <= bs <= 4096 && j < bs
    ensures IsEntry(Named(bs)) && RecLen(Named(bs)) == bs && Encode(Named(bs))[j] == ByteIn(Cell(bs, 7, j / 4), j % 4)
  {
    LengthBytes(bs);
    var e := Encode(Named(bs));
    assert e[0] == 11 && e[1] == e[2] == e[3] == 0 && e[4] == bs % 256 && e[5] == bs / 256 && e[6] == 1 && e[7] == 0 && e[8] == 97;
    assert j >= 9 ==> e[j] == 0;
    assert j < 4 ==> j / 4 == 0 && j % 4 == j;
    assert 4 <= j < 8 ==> j / 4 == 1 && j % 4 == j - 4;
    assert 8 <= j < 12 ==> j / 4 == 2 && j % 4 == j - 8;
  }

  lemma RecordIs(bs: nat, b: nat, j: nat)
    requires 12 <= bs <= 4096 && bs % 4 == 0 && j < bs && (b == 1 || b == 7)
    ensures IsEntry(Record(bs, b)) && RecLen(Record(bs, b)) == bs && Encode(Record(bs, b))[j] == Image(bs)(b * bs + j)
  {
    hide Image, Encode, ByteIn, Cell, IsEntry, RecLen;
    ByteIs(bs, b, j);
    if b == 1 { DeletedIs(bs, j); } else { NamedIs(bs, j); }
  }

  /** A block the driver, or ext2, finds at 1 or 7 holds just that record. */
  lemma BlockIs(bs: nat, b: nat, s: seq<Byte>)
    requires 12 <= bs <= 4096 && bs % 4 == 0 && (b == 1 || b == 7)
    requires |s| == bs && forall j :: 0 <= j < bs ==> s[j] == Image(bs)(b * bs + j)
    ensures AreEntries([Record(bs, b)]) && s == EncodeAll([Record(bs, b)])
  {
    hide Image, Encode;
    RecordIs(bs, b, 0);
    var e := Encode(Record(bs, b));
    forall j | 0 <= j < bs ensures s[j] == e[j] { RecordIs(bs, b, j); }
    assert EncodeAll([Record(bs, b)]) == e + EncodeAll([]);
  }

  lemma ShownAs(f: File, i: nat, b: nat)
    requires IsFile(f) && 12 <= f.bs <= 4096 && f.disk == Image(f.bs) && (b == 1 || b == 7) && BlockNo(f, i) == b
    ensures ShowsAt(f, [Record(f.bs, b)], i)
  {
    hide Image, BlockNo;
    var s := Slice(f, i * f.bs, i * f.bs + f.bs);
    forall j | 0 <= j < f.bs ensures s[j] == Image(f.bs)(b * f.bs + j) { DivModIs(f.bs, i, j); }
    BlockIs(f.bs, b, s);
  }

  lemma HeldAs(f: File, i: nat, b: nat)
    requires IsFile(f) && 12 <= f.bs <= 4096 && f.disk == Image(f.bs) && (b == 1 || b == 7) && Assigned(f, i) == b
    ensures HoldsAt(f, [Record(f.bs, b)], i)
  {
    hide Image, Assigned;
    var s := Ext2Block(f, i);
    forall j | 0 <= j < f.bs ensures s[j] == Image(f.bs)(b * f.bs + j) { DivModIs(f.bs, i, j); }
    BlockIs(f.bs, b, s);
  }

  /** n blocks, block i a deleted record below m, the named one above. */
  function Listing(bs: nat, n: nat, m: nat): (r: seq<seq<Entry>>)
    requires 12 <= bs && m <= n
    ensures |r| == n && forall i :: 0 <= i < n ==> r[i] == [if i < m then Deleted(bs) else Named(bs)]
  {
    seq(n, i requires 0 <= i < n => [if i < m then Deleted(bs) else Named(bs)])
  }

  lemma {:induction false} FirstInListing(bs: nat, n: nat, m: nat, name: seq<Byte>)
    requires 12 <= bs && m <= n
    ensures First(Flatten(Listing(bs, n, m)), name) == if m < n && name == [97] then Some(11) else None
  {
    var s := Listing(bs, n, m);
    if n > 0 {
      var k: nat := if m > 0 then m - 1 else 0;
      FirstInListing(bs, n - 1, k, name);
      assert s[1..] == Listing(bs, n - 1, k);
      FirstAppend(s[0], Flatten(s[1..]), name);
      assert First(s[0], name) == if m == 0 && name == [97] then Some(11) else None;
    }
  }

  // --------------------------------------------------- beyond the indirect block

  /** A directory of 13 + block_size / 4 blocks, the last one assigned by the double indirect table. */
  function Long(bs: nat): (f: File)
    requires 12 <= bs <= 4096 && bs % 4 == 0
    ensures IsFile(f)
  {
    File(Image(bs), bs, Inode((13 + PerTable(bs)) * bs, [1, 1, 1, 1, 1, 1, 1, 1, 1, 1, 1, 1, 3, 6, 0]))
  }

  lemma LongAssigned(bs: nat, i: nat)
    requires 12 <= bs <= 4096 && bs % 4 == 0 && i <= 12 + PerTable(bs)
    ensures Assigned(Long(bs), i) == if i < 12 + PerTable(bs) then 1 else 7
    ensures BlockNo(Long(bs), i) == if i < 12 + PerTable(bs) then 1 else 0
  {
    hide Image, Word;
    var f, per := Long(bs), PerTable(bs);
    if 12 <= i < 12 + per {
      CellIs(bs, 3, i - 12);
    } else if i == 12 + per {
      CellIs(bs, 6, 0);
      CellIs(bs, 9, 0);
      CellIs(bs, 4, 0);
      assert 3 * bs + 4 * per == 4 * bs + 4 * 0;
      assert per * per > 0;
      assert 0 / per == 0 && 0 % per == 0;
      assert TreeEntry(f, 6, 0, per, 0) == 9;
      assert TreeEntry(f, 6, 1, per, 0) == 7;
    }
  }

  /** The driver takes the directory to end where its indirect block does, and misses a name. */
  lemma LongDirectory(bs: nat)
    requires 12 <= bs <= 4096 && bs % 4 == 0
    ensures var f, n := Long(bs), 13 + PerTable(bs); var blocks, seen := Listing(bs, n, n - 1), Listing(bs, n - 1, n - 1);
            && Holds(f, blocks) && Whole(f, n) && Shows(f, seen)
            && First(Flatten(blocks), [97]) == Some(11) && First(Flatten(seen), [97]) == None
  {
    hide Image, Assigned, BlockNo;
    var f, n := Long(bs), 13 + PerTable(bs);
    var blocks, seen := Listing(bs, n, n - 1), Listing(bs, n - 1, n - 1);
    forall i | 0 <= i < n ensures HoldsAt(f, blocks[i], i) && Assigned(f, i) != 0 {
      LongAssigned(bs, i);
      HeldAs(f, i, if i < n - 1 then 1 else 7);
    }
    forall i | 0 <= i < n - 1 ensures ShowsAt(f, seen[i], i) && BlockNo(f, i) != 0 {
      LongAssigned(bs, i);
      ShownAs(f, i, 1);
    }
    LongAssigned(bs, n - 1);
    WalkEnds(f, n, n - 1);
    FirstInListing(bs, n, n - 1, [97]);
    FirstInListing(bs, n - 1, n - 1, [97]);
  }

  /** All directories without holes and of at most n blocks are walked as they are stored exactly when n
      is at most 12 + block_size / 4. */
  lemma DirectoryReaches(bs: nat, n: nat)
    requires 12 <= bs <= 4096 && bs % 4 == 0
    ensures (forall f, blocks | IsFile(f) && f.bs == bs && |blocks| <= n && Holds(f, blocks) && Whole(f, |blocks|) :: Shows(f, blocks))
            <==> n <= 12 + PerTable(bs)
  {
    hide Holds, Shows, Whole, Image;
    if n <= 12 + PerTable(bs) {
      forall f, blocks | IsFile(f) && f.bs == bs && |blocks| <= n && Holds(f, blocks) && Whole(f, |blocks|)
        ensures Shows(f, blocks)
      {
        SmallSize(f, blocks);
        WholeShown(f, blocks);
      }
    } else {
      LongDirectory(bs);
      var f, m := Long(bs), 13 + PerTable(bs);
      var blocks, seen := Listing(bs, m, m - 1), Listing(bs, m - 1, m - 1);
      if Shows(f, blocks) { OneView(f, blocks, seen); }
    }
  }

  lemma SmallSize(f: File, blocks: seq<seq<Entry>>)
    requires IsFile(f) && Holds(f, blocks) && |blocks| <= 12 + PerTable(f.bs)
    ensures Small(f)
  {
    MulMono(|blocks|, 12 + PerTable(f.bs), f.bs);
  }

  // ------------------------------------------------------- two inodes of an image

  const BS: nat := 1024
  const FS: Fs := Fs(Image(BS), BS, 32, 128)

  /** The inode table lies in block 8. */
  lemma InodesAt(ino: nat)
    requires 1 <= ino <= 8
    ensures IsFs(FS) && InodeAddress(FS, ino) == 8 * BS + 4 * (32 * (ino - 1))
  {
    hide Image, Word;
    CellIs(BS, 2, 2);
    assert Index(ino - 1, 32) == 0 && Within(ino - 1, 32) == ino - 1;
  }

  lemma HalfIs(disk: Disk, at: nat)
    ensures Half(disk, at) == Word(disk, at) % 0x1_0000
  {
  }

  /** Its words decode as mode, size and block numbers. */
  lemma InodeIs(ino: nat)
    requires 1 <= ino <= 8
    ensures IsFs(FS)
    ensures Half(FS.disk, InodeAddress(FS, ino)) == InodeWord(BS, 32 * (ino - 1)) % 0x1_0000
    ensures var f := FileOf(FS, ino);
            && f.disk == Image(BS) && f.bs == BS && f.inode.size == InodeWord(BS, 32 * (ino - 1) + 1)
            && forall i :: 0 <= i < 15 ==> f.inode.block[i] == InodeWord(BS, 32 * (ino - 1) + 10 + i)
  {
    hide Image, Word, InodeWord, InodeAddress, Half;
    InodesAt(ino);
    var k := 32 * (ino - 1);
    CellIs(BS, 8, k);
    HalfIs(FS.disk, 8 * BS + 4 * k);
    CellIs(BS, 8, k + 1);
    forall i | 0 <= i < 15 ensures FileOf(FS, ino).inode.block[i] == InodeWord(BS, k + 10 + i) { CellIs(BS, 8, k + 10 + i); }
  }

  lemma SparseAssigned(i: nat)
    requires i <= 12
    ensures IsFs(FS) && IsDirectory(FS, 2)
    ensures var f := FileOf(FS, 2);
            && f.disk == Image(BS) && f.bs == BS && f.inode.size == 13 * BS
            && Assigned(f, i) == (if i < 12 then 1 else 0) && BlockNo(f, i) == if i < 12 then 1 else 7
  {
    hide Image, Word, Half, InodeAddress, FileOf;
    InodeIs(2);
    CellIs(BS, 0, 0);
  }

  /** Inode 2: a directory of thirteen blocks whose last is a hole; the first word of the disk is 7. */
  lemma SparseDirectory()
    ensures IsFs(FS) && IsDirectory(FS, 2)
    ensures var f := FileOf(FS, 2); var blocks, seen := Listing(BS, 12, 12) + [[]], Listing(BS, 13, 12);
            && Small(f) && Holds(f, blocks) && Shows(f, seen) && !Stored(f, 12 * BS)
    ensures Readable(FS, 2) && Entries(FS, 2) == Flatten(Listing(BS, 12, 12) + [[]]) && Seen(FS, 2) == Flatten(Listing(BS, 13, 12))
  {
    hide Image, IsDirectory, HasDirBit, FileOf, Assigned, BlockNo, ShowsAt;
    SparseAssigned(12);
    var f := FileOf(FS, 2);
    var blocks, seen := Listing(BS, 12, 12) + [[]], Listing(BS, 13, 12);
    forall i | 0 <= i < 13 ensures HoldsAt(f, blocks[i], i) {
      SparseAssigned(i);
      if i < 12 { HeldAs(f, i, 1); }
    }
    forall i | 0 <= i < 13 ensures BlockNo(f, i) != 0 && ShowsAt(f, seen[i], i) {
      SparseAssigned(i);
      ShownAs(f, i, if i < 12 then 1 else 7);
    }
    WalkEnds(f, 13, 13);
    EntriesAre(FS, 2, blocks);
    DirectoryHasBit(FS, 2);
    SeenAre(FS, 2, seen);
  }

  /** The driver finds "a" behind the hole, from any cache; no chain of links leads there. */
  lemma SparseMistaken(lookup: DentryModel.Lookup, history: seq<seq<string>>)
    requires IsFs(FS) && Implements(FS, lookup)
    ensures Answers(lookup, 2, history, ["a"], 11) && !Leads(FS, 2, ["a"], 11)
  {
    hide Image, Word, Half, InodeAddress, FileOf, Readable, Seen, Entries, IsDirectory;
    SparseDirectory();
    assert IsText("a") && Bytes("a") == [97];
    FirstInListing(BS, 13, 12, [97]);
    FirstInListing(BS, 12, 12, [97]);
    FlattenAppend(Listing(BS, 12, 12), [[]]);
    FirstAppend(Flatten(Listing(BS, 12, 12)), Flatten([[]]), [97]);
    LinkIs(FS, 2, "a", 11);
    Here(FS, 2);
    LeadsSnoc(FS, 2, [], "a", 11);
    assert [] + ["a"] == ["a"];
    assert lookup(2, "a") == Some(11);
    assert DentryModel.Resolve(lookup, 2, ["a"]) == DentryModel.Resolve(lookup, 11, []);
    AnswersIs(lookup, 2, history, ["a"], 11);
  }

  lemma SocketFile()
    ensures IsFs(FS) && !IsDirectory(FS, 3) && HasDirBit(FS, 3)
    ensures var f := FileOf(FS, 3); f.disk == Image(BS) && f.bs == BS && f.inode.size == BS && BlockNo(f, 0) == 7
  {
    hide Image, Word, Half, InodeAddress, FileOf;
    InodeIs(3);
  }

  /** Inode 3: a socket has the bit that is tested, and what its block holds is searched. */
  lemma SocketMistaken()
    ensures IsFs(FS) && !IsDirectory(FS, 3) && HasDirBit(FS, 3) && Readable(FS, 3)
    ensures Entries(FS, 3) == [] && First(Seen(FS, 3), [97]) == Some(11) && !Agree(FS, 3)
  {
    hide Image, IsDirectory, HasDirBit, FileOf, BlockNo, ShowsAt, Seen;
    SocketFile();
    var f := FileOf(FS, 3);
    var seen := Listing(BS, 1, 0);
    ShownAs(f, 0, 7);
    WalkEnds(f, 1, 1);
    SeenAre(FS, 3, seen);
    FirstInListing(BS, 1, 0, [97]);
    assert IsText("a") && Bytes("a") == [97];
    assert First(Entries(FS, 3), Bytes("a")) == None;
  }

  // ---------------------------------------------------------------- two groups

  /** The same image with eight inodes a group: the "a" of inode 4 is inode 11, in the second group. */
  const TWO: Fs := Fs(Image(BS), BS, 8, 128)

  lemma TwoTables()
    ensures SlotAddress(TWO, 0, 3) == 8 * BS + 4 * 96 && SlotAddress(TWO, 1, 2) == 10 * BS + 4 * 64
    ensures IsFs(TWO) && InodeAddress(TWO, 4) == SlotAddress(TWO, 0, 3) && InodeAddress(TWO, 11) == SlotAddress(TWO, 1, 2)
  {
    hide Image, Word;
    CellIs(BS, 2, 2);
    CellIs(BS, 2, 10);
    assert Index(3, 8) == 0 && Within(3, 8) == 3 && Index(10, 8) == 1 && Within(10, 8) == 2;
  }

  /** Both inodes are directories of one block that names inode 11 "a". */
  lemma TwoDirectories(ino: nat)
    requires ino == 4 || ino == 11
    ensures IsFs(TWO) && IsDirectory(TWO, ino)
    ensures var f := FileOf(TWO, ino); f.disk == Image(BS) && f.bs == BS && f.inode.size == BS && f.inode.block[0] == 7
  {
    hide Image, Word, SlotAddress, InodeAddress, Half;
    TwoTables();
    var b, k := if ino == 4 then 8 else 10, if ino == 4 then 96 else 64;
    CellIs(BS, b, k);
    HalfIs(TWO.disk, b * BS + 4 * k);
    CellIs(BS, b, k + 1);
    CellIs(BS, b, k + 10);
  }

  lemma TwoEntries(ino: nat)
    requires ino == 4 || ino == 11
    ensures IsFs(TWO) && Proper(TWO, ino) && Link(TWO, ino, "a", 11)
    ensures forall name, i: nat :: Link(TWO, ino, name, i) ==> name == "a" && i == 11
  {
    hide Image, IsDirectory, HasDirBit, FileOf, Assigned, BlockNo;
    TwoDirectories(ino);
    var f, blocks := FileOf(TWO, ino), Listing(BS, 1, 0);
    assert Assigned(f, 0) == 7 by { AssignedFirst(f); }
    HeldAs(f, 0, 7);
    assert Holds(f, blocks) && Whole(f, 1) && Small(f);
    EntriesAre(TWO, ino, blocks);
    assert IsText("a") && Bytes("a") == [97];
    FirstInListing(BS, 1, 0, [97]);
    LinkIs(TWO, ino, "a", 11);
    forall name, i: nat | Link(TWO, ino, name, i) ensures name == "a" && i == 11 {
      LinkIs(TWO, ino, name, i);
      FirstInListing(BS, 1, 0, Bytes(name));
      assert |name| == 1 && Bytes(name)[0] == 97 && name[0] == 'a';
    }
  }

  lemma AssignedFirst(f: File)
    requires IsFile(f)
    ensures Assigned(f, 0) == f.inode.block[0]
  {
  }

  /** The path a/a goes through an inode of the second group, and every cache answers it right. */
  lemma SecondGroup(lookup: DentryModel.Lookup, history: seq<seq<string>>)
    requires IsFs(TWO) && Implements(TWO, lookup)
    ensures Leads(TWO, 4, ["a", "a"], 11) && Right(TWO, lookup, 4) && Answers(lookup, 4, history, ["a", "a"], 11)
  {
    hide Image, Proper, Link, Answers, Implements;
    forall names, d: nat | Leads(TWO, 4, names, d) ensures d > 0 && Proper(TWO, d) {
      var inodes :| Chain(TWO, inodes, names) && inodes[0] == 4 && inodes[|names|] == d;
      OnlyTwo(inodes, names, |names|);
      TwoEntries(d);
    }
    TwoEntries(4);
    TwoEntries(11);
    assert Chain(TWO, [4, 11, 11], ["a", "a"]);
    ProperImage(TWO, lookup, 4);
  }

  lemma {:induction false} OnlyTwo(inodes: seq<nat>, names: seq<string>, k: nat)
    requires IsFs(TWO) && Chain(TWO, inodes, names) && inodes[0] == 4 && k <= |names|
    ensures inodes[k] == 4 || inodes[k] == 11
  {
    hide Image, Link;
    if k > 0 {
      OnlyTwo(inodes, names, k - 1);
      TwoEntries(inodes[k - 1]);
    }
  }
}
