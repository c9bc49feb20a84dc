/** Paths over an ext2 image, end to end: what the dentry cache answers when the filesystem behind it
    is ext2, said in terms of the directory entries on the disk alone. */
module Ext2Paths {
  import opened Common
  import opened Ext2
  import opened Ext2Dir
  import DentryModel

  // --------------------------------------------- the disk determines the entries

  /** The bytes of a record list have one reading. */
  lemma {:induction false} OneReading(a: seq<Entry>, b: seq<Entry>)
    requires AreEntries(a) && AreEntries(b) && EncodeAll(a) == EncodeAll(b)
    ensures a == b
  {
    var buf := EncodeAll(a);
    assert buf[0..] == buf && a[0..] == a && b[0..] == b;
    EntriesLeft(buf, 0, a, 0);
    EntriesLeft(buf, 0, b, 0);
    if a != [] {
      NextRecord(buf, 0, a, 0);
      NextRecord(buf, 0, b, 0);
      OneRecord(buf, a[0], b[0]);
      OneReading(a[1..], b[1..]);
      assert a == [a[0]] + a[1..] && b == [b[0]] + b[1..];
    }
  }

  lemma OneRecord(buf: seq<Byte>, a: Entry, b: Entry)
    requires IsEntry(a) && IsEntry(b) && RecLen(a) <= |buf| && RecLen(b) <= |buf|
    requires buf[0..RecLen(a)] == Encode(a) && buf[0..RecLen(b)] == Encode(b)
    ensures a == b
  {
    Decodes(buf, 0, a);
    Decodes(buf, 0, b);
    assert a.kind == Encode(a)[7] && b.kind == Encode(b)[7];
    assert a.pad == Encode(a)[8 + |a.name|..] && b.pad == Encode(b)[8 + |b.name|..];
  }

  // ------------------------------------------------ the directory ext2 stores

  /** The directory type in the upper four bits of i_mode. */
  predicate IsDirectory(fs: Fs, ino: nat)
    requires IsFs(fs) && ino > 0
  {
    Half(fs.disk, InodeAddress(fs, ino)) / 0x1000 == 4
  }

  /** Block i of the file, read where ext2 itself assigns it. */
  function Ext2Block(f: File, i: nat): (s: seq<Byte>)
    requires IsFile(f)
    ensures |s| == f.bs
  {
    seq<Byte>(f.bs, j requires 0 <= j < f.bs => Ext2At(f, i * f.bs + j))
  }

  /** ext2 stores these entries as block i: a hole stores none. */
  ghost predicate HoldsAt(f: File, es: seq<Entry>, i: nat)
    requires IsFile(f)
  {
    if Assigned(f, i) == 0 then es == [] else AreEntries(es) && Ext2Block(f, i) == EncodeAll(es)
  }

  /** ext2 stores f as a directory of these blocks. */
  ghost predicate Holds(f: File, blocks: seq<seq<Entry>>)
    requires IsFile(f)
  {
    && f.inode.size == |blocks| * f.bs
    && forall i :: 0 <= i < |blocks| ==> HoldsAt(f, blocks[i], i)
  }

  /** The first hole of the file's first n blocks from i on, or n. */
  function FirstHole(f: File, n: nat, i: nat): (h: nat)
    requires IsFile(f) && i <= n
    ensures i <= h <= n && (forall k :: i <= k < h ==> Assigned(f, k) != 0) && (h < n ==> Assigned(f, h) == 0)
    decreases n - i
  {
    if i == n || Assigned(f, i) == 0 then i else FirstHole(f, n, i + 1)
  }

  ghost predicate Whole(f: File, n: nat)
    requires IsFile(f)
  {
    FirstHole(f, n, 0) == n
  }

  lemma OneContents(f: File, a: seq<seq<Entry>>, b: seq<seq<Entry>>)
    requires IsFile(f) && Holds(f, a) && Holds(f, b)
    ensures a == b
  {
    Below(|a|, |b|, f.bs);
    Below(|b|, |a|, f.bs);
    forall i | 0 <= i < |a| ensures a[i] == b[i] {
      assert HoldsAt(f, a[i], i) && HoldsAt(f, b[i], i);
      if Assigned(f, i) != 0 { OneReading(a[i], b[i]); }
    }
  }

  /** What the driver walks has one reading, too. */
  lemma OneView(f: File, a: seq<seq<Entry>>, b: seq<seq<Entry>>)
    requires IsFile(f) && Shows(f, a) && Shows(f, b)
    ensures a == b
  {
    Below(|a|, |b|, f.bs);
    Below(|b|, |a|, f.bs);
    forall i | 0 <= i < |a| ensures a[i] == b[i] {
      assert ShowsAt(f, a[i], i) && ShowsAt(f, b[i], i);
      OneReading(a[i], b[i]);
    }
  }

  // ------------------------------------------------------ driver against ext2

  /** Block i lies within the driver's reach and ext2 assigns it: the driver finds its bytes. */
  lemma BlockSeen(f: File, i: nat)
    requires IsFile(f) && i < 12 + PerTable(f.bs) && Assigned(f, i) != 0
    ensures BlockNo(f, i) == Assigned(f, i) && Slice(f, i * f.bs, i * f.bs + f.bs) == Ext2Block(f, i)
  {
    hide BlockNo, Assigned, Ext2At, At;
    BlockAgrees(f, i);
    var s := Slice(f, i * f.bs, i * f.bs + f.bs);
    forall j | 0 <= j < f.bs ensures s[j] == Ext2Block(f, i)[j] { ByteSeen(f, i, j); }
  }

  lemma ByteSeen(f: File, i: nat, j: nat)
    requires IsFile(f) && BlockNo(f, i) == Assigned(f, i) && j < f.bs
    ensures At(f, i * f.bs + j) == Ext2At(f, i * f.bs + j)
  {
    hide BlockNo, Assigned;
    assert Index(i * f.bs + j, f.bs) == i by { DivModIs(f.bs, i, j); }
  }

  lemma SmallBelow(f: File, n: nat)
    requires IsFile(f) && Small(f) && f.inode.size == n * f.bs
    ensures n <= 12 + PerTable(f.bs)
  {
    Below(12 + PerTable(f.bs), n, f.bs);
  }

  /** Where the driver's walk ends: at the first of the n blocks it takes for unallocated. */
  lemma WalkEnds(f: File, n: nat, h: nat)
    requires IsFile(f) && f.inode.size == n * f.bs && h <= n && (forall i :: 0 <= i < h ==> BlockNo(f, i) != 0)
    requires h < n ==> BlockNo(f, h) == 0
    ensures Extent(f, 0) == h * f.bs
  {
    hide BlockNo;
    MulMono(h, n, f.bs);
    forall o | 0 <= o < h * f.bs ensures !Stop(f, o) { GoesOn(f, n, h, o); }
    assert Index(h * f.bs, f.bs) == h by { DivModIs(f.bs, h, 0); }
    assert Stop(f, h * f.bs);
  }

  lemma GoesOn(f: File, n: nat, h: nat, o: nat)
    requires IsFile(f) && f.inode.size == n * f.bs && h <= n && (forall i :: 0 <= i < h ==> BlockNo(f, i) != 0)
    requires o < h * f.bs
    ensures !Stop(f, o)
  {
    hide BlockNo;
    MulMono(h, n, f.bs);
    IndexBelow(f.bs, o, h);
  }

  /** A directory without holes that the driver's mapping reaches is walked as it is stored. */
  lemma WholeShown(f: File, blocks: seq<seq<Entry>>)
    requires IsFile(f) && f.bs <= 4096 && Small(f) && Holds(f, blocks) && Whole(f, |blocks|)
    ensures Shows(f, blocks) && Tabled(f)
  {
    SmallBelow(f, |blocks|);
    forall i | 0 <= i < |blocks| ensures BlockNo(f, i) != 0 && ShowsAt(f, blocks[i], i) {
      assert HoldsAt(f, blocks[i], i);
      BlockSeen(f, i);
    }
    WalkEnds(f, |blocks|, |blocks|);
    forall idx | 12 <= idx && HasBlock(f, idx) ensures f.inode.block[12] != 0 {
      Below(idx, |blocks|, f.bs);
      assert Assigned(f, idx) != 0;
    }
  }

  /** Against ext2 the driver's walk of a small file either stops at the first hole or, there being no
      indirect block, goes on in what the first word of the disk points to; ext2 stores nothing from
      there on. */
  lemma SmallShown(f: File, blocks: seq<seq<Entry>>, seen: seq<seq<Entry>>)
    requires IsFile(f) && Small(f) && Holds(f, blocks) && Shows(f, seen)
    ensures var h := FirstHole(f, |blocks|, 0);
            && h <= |seen| && seen[..h] == blocks[..h]
            && (|seen| > h <==> h == 12 < |blocks| && f.inode.block[12] == 0 && Word(f.disk, 0) != 0)
            && (|seen| > h ==> forall i :: h <= i < |blocks| ==> blocks[i] == [])
  {
    hide Word, HoldsAt, ShowsAt;
    var n, h := |blocks|, FirstHole(f, |blocks|, 0);
    SmallBelow(f, n);
    forall i | 0 <= i < h ensures BlockNo(f, i) != 0 { BlockSeen(f, i); }
    ReachesHole(f, n, h, |seen|);
    forall i | 0 <= i < h ensures seen[i] == blocks[i] { SameBlockSeen(f, blocks, seen, i); }
    if h < n {
      BlockAgrees(f, h);
      if h >= 12 && f.inode.block[12] == 0 {
        assert Assigned(f, 12) == 0;
        forall i | h <= i < n ensures blocks[i] == [] { NoTable(f, blocks, i); }
      }
    }
  }

  lemma NoTable(f: File, blocks: seq<seq<Entry>>, i: nat)
    requires IsFile(f) && Small(f) && Holds(f, blocks) && 12 <= i < |blocks| && f.inode.block[12] == 0
    ensures blocks[i] == []
  {
    SmallBelow(f, |blocks|);
    assert HoldsAt(f, blocks[i], i) && Assigned(f, i) == 0;
  }

  lemma SameBlockSeen(f: File, blocks: seq<seq<Entry>>, seen: seq<seq<Entry>>, i: nat)
    requires IsFile(f) && Small(f) && Holds(f, blocks) && Shows(f, seen) && i < |blocks| && i < |seen| && Assigned(f, i) != 0
    ensures seen[i] == blocks[i]
  {
    SmallBelow(f, |blocks|);
    assert HoldsAt(f, blocks[i], i) && ShowsAt(f, seen[i], i);
    BlockSeen(f, i);
    OneReading(seen[i], blocks[i]);
  }

  /** The driver's walk of m blocks reaches h, and goes on there exactly when it finds a block. */
  lemma ReachesHole(f: File, n: nat, h: nat, m: nat)
    requires IsFile(f) && f.inode.size == n * f.bs && h <= n && (forall i :: 0 <= i < h ==> BlockNo(f, i) != 0)
    requires Extent(f, 0) == m * f.bs
    ensures h <= m <= n && (m > h <==> h < n && BlockNo(f, h) != 0)
  {
    WalkStops(f, n, m);
    Below(n, m, f.bs);
    Below(m, n, f.bs);
    if m > h {
      WalkPasses(f, m, h);
    }
  }

  /** The walk of m blocks ends with the file or at a block the driver does not find. */
  lemma WalkStops(f: File, n: nat, m: nat)
    requires IsFile(f) && f.inode.size == n * f.bs && Extent(f, 0) == m * f.bs
    ensures m * f.bs <= n * f.bs && (m * f.bs < n * f.bs ==> BlockNo(f, m) == 0)
  {
    hide BlockNo;
    var e := Extent(f, 0);
    assert Index(e, f.bs) == m by { DivModIs(f.bs, m, 0); }
    assert e > 0 ==> !Stop(f, e - 1);
  }

  lemma WalkPasses(f: File, m: nat, h: nat)
    requires IsFile(f) && Extent(f, 0) == m * f.bs && h < m
    ensures BlockNo(f, h) != 0
  {
    hide BlockNo;
    assert Index(h * f.bs, f.bs) == h by { DivModIs(f.bs, h, 0); }
    Below(h, m, f.bs);
    assert !Stop(f, h * f.bs);
  }

  // ------------------------------------------------------------------- names

  /** A component made of bytes, as the characters of a C string are. */
  predicate IsText(name: string) { forall k :: 0 <= k < |name| ==> 0 < name[k] as int < 256 }

  function Bytes(name: string): (b: seq<Byte>)
    requires IsText(name)
    ensures |b| == |name| && 0 !in b
  {
    seq(|name|, k requires 0 <= k < |name| => name[k] as int)
  }

  /** The byte string as a component. */
  function Text(b: seq<Byte>): (name: string)
    requires 0 !in b
    ensures IsText(name) && Bytes(name) == b
  {
    seq(|b|, k requires 0 <= k < |b| => b[k] as char)
  }

  predicate InUse(e: Entry) { e.ino != 0 && e.name != [] }

  /** The names of the entries in use. */
  function Names(es: seq<Entry>): set<seq<Byte>> { set e | e in es && InUse(e) :: e.name }

  lemma {:induction false} FirstKnown(es: seq<Entry>, name: seq<Byte>)
    ensures First(es, name).Some? <==> name in Names(es)
  {
    if es != [] {
      FirstKnown(es[1..], name);
      assert es == [es[0]] + es[1..];
      assert forall e :: e in es <==> e == es[0] || e in es[1..];
    }
  }

  /** Same answer for every name. */
  ghost predicate Alike(a: seq<Entry>, b: seq<Entry>) {
    forall name: string :: IsText(name) ==> First(a, Bytes(name)) == First(b, Bytes(name))
  }

  /** Cutting a directory off changes no answer exactly when no name is lost. */
  lemma CutAlike(a: seq<Entry>, x: seq<Entry>)
    requires AreEntries(x)
    ensures Alike(a, a + x) <==> Names(x) <= Names(a)
  {
    forall name: seq<Byte> ensures First(a + x, name) == if First(a, name).Some? then First(a, name) else First(x, name) {
      FirstAppend(a, x, name);
    }
    forall name: seq<Byte> ensures (First(x, name).Some? <==> name in Names(x)) && (First(a, name).Some? <==> name in Names(a)) {
      FirstKnown(x, name);
      FirstKnown(a, name);
    }
    if Alike(a, a + x) {
      forall name | name in Names(x) ensures name in Names(a) {
        assert IsText(Text(name)) && Bytes(Text(name)) == name;
      }
    }
  }

  lemma {:induction false} FlattenAppend(a: seq<seq<Entry>>, b: seq<seq<Entry>>)
    ensures Flatten(a + b) == Flatten(a) + Flatten(b)
  {
    if a == [] {
      assert a + b == b;
    } else {
      FlattenAppend(a[1..], b);
      assert (a + b)[1..] == a[1..] + b;
    }
  }

  lemma {:induction false} FlattenEntries(blocks: seq<seq<Entry>>)
    requires forall i :: 0 <= i < |blocks| ==> AreEntries(blocks[i])
    ensures AreEntries(Flatten(blocks))
  {
    if blocks != [] { FlattenEntries(blocks[1..]); }
  }

  lemma {:induction false} FlattenNothing(blocks: seq<seq<Entry>>)
    requires forall i :: 0 <= i < |blocks| ==> blocks[i] == []
    ensures Flatten(blocks) == []
  {
    if blocks != [] { FlattenNothing(blocks[1..]); }
  }

  // ------------------------------------------------------------ when they agree

  /** The entries ext2 stores in directory ino, in order; none if it is no well-formed directory. */
  ghost function Entries(fs: Fs, ino: nat): seq<Entry>
    requires IsFs(fs) && ino > 0
  {
    if IsDirectory(fs, ino) && exists blocks :: Holds(FileOf(fs, ino), blocks) then
      var blocks :| Holds(FileOf(fs, ino), blocks);
      Flatten(blocks)
    else []
  }

  /** Whatever entries a directory was written with are the ones that are there. */
  lemma EntriesAre(fs: Fs, ino: nat, blocks: seq<seq<Entry>>)
    requires IsFs(fs) && ino > 0 && IsDirectory(fs, ino) && Holds(FileOf(fs, ino), blocks)
    ensures Entries(fs, ino) == Flatten(blocks)
  {
    var chosen :| Holds(FileOf(fs, ino), chosen) && Entries(fs, ino) == Flatten(chosen);
    OneContents(FileOf(fs, ino), chosen, blocks);
  }

  lemma SeenAre(fs: Fs, ino: nat, seen: seq<seq<Entry>>)
    requires IsFs(fs) && ino > 0 && HasDirBit(fs, ino) && Shows(FileOf(fs, ino), seen)
    ensures Readable(fs, ino) && Seen(fs, ino) == Flatten(seen)
  {
    var chosen :| Shows(FileOf(fs, ino), chosen) && Seen(fs, ino) == Flatten(chosen);
    OneView(FileOf(fs, ino), chosen, seen);
  }

  /** The driver's search of inode ino and a search of what ext2 stores there agree on every name. */
  ghost predicate Agree(fs: Fs, ino: nat)
    requires IsFs(fs) && ino > 0 && Readable(fs, ino)
  {
    Alike(Seen(fs, ino), Entries(fs, ino))
  }

  lemma DirectoryHasBit(fs: Fs, ino: nat)
    requires IsFs(fs) && ino > 0 && IsDirectory(fs, ino)
    ensures HasDirBit(fs, ino)
  {
  }

  /** A directory of at most 12 + block_size / 4 blocks is searched right exactly when no name comes up
      for the first time behind its first hole: neither in the blocks ext2 stores there, nor in those
      the driver makes up for want of an indirect block. */
  lemma DirectoryAgrees(fs: Fs, ino: nat, blocks: seq<seq<Entry>>, seen: seq<seq<Entry>>)
    requires IsFs(fs) && ino > 0 && IsDirectory(fs, ino)
    requires Small(FileOf(fs, ino)) && Holds(FileOf(fs, ino), blocks) && Shows(FileOf(fs, ino), seen)
    ensures var h := FirstHole(FileOf(fs, ino), |blocks|, 0);
            && h <= |seen| && Readable(fs, ino)
            && (Agree(fs, ino) <==> Names(Flatten(blocks[h..])) + Names(Flatten(seen[h..])) <= Names(Flatten(blocks[..h])))
  {
    hide IsDirectory, HasDirBit, FileOf, Holds, Shows, Small;
    var f := FileOf(fs, ino);
    var h := FirstHole(f, |blocks|, 0);
    DirectoryHasBit(fs, ino);
    EntriesAre(fs, ino, blocks);
    SeenAre(fs, ino, seen);
    SmallShown(f, blocks, seen);
    var a, x, y := Flatten(blocks[..h]), Flatten(blocks[h..]), Flatten(seen[h..]);
    assert blocks == blocks[..h] + blocks[h..] && seen == seen[..h] + seen[h..];
    FlattenAppend(blocks[..h], blocks[h..]);
    FlattenAppend(seen[..h], seen[h..]);
    if |seen| > h {
      FlattenNothing(blocks[h..]);
      assert a + x == a;
      AreShown(f, seen, h);
      CutAlike(a, y);
    } else {
      assert a + y == a;
      AreHeld(f, blocks, h);
      CutAlike(a, x);
    }
  }

  lemma AreShown(f: File, seen: seq<seq<Entry>>, h: nat)
    requires IsFile(f) && Shows(f, seen) && h <= |seen|
    ensures AreEntries(Flatten(seen[h..]))
  {
    forall i | h <= i < |seen| ensures AreEntries(seen[i]) { assert ShowsAt(f, seen[i], i); }
    FlattenEntries(seen[h..]);
  }

  lemma AreHeld(f: File, blocks: seq<seq<Entry>>, h: nat)
    requires IsFile(f) && Holds(f, blocks) && h <= |blocks|
    ensures AreEntries(Flatten(blocks[h..]))
  {
    forall i | h <= i < |blocks| ensures AreEntries(blocks[i]) { assert HoldsAt(f, blocks[i], i); }
    FlattenEntries(blocks[h..]);
  }

  /** An inode that is no directory is searched right, that is in vain, exactly when the tested bit is
      clear or no entry is in use in what is taken for its records. */
  lemma OtherAgrees(fs: Fs, ino: nat)
    requires IsFs(fs) && ino > 0 && !IsDirectory(fs, ino) && Readable(fs, ino)
    ensures Agree(fs, ino) <==> !HasDirBit(fs, ino) || Names(Seen(fs, ino)) == {}
  {
    hide IsDirectory, HasDirBit, FileOf, Shows;
    if HasDirBit(fs, ino) {
      var seen :| Shows(FileOf(fs, ino), seen) && Seen(fs, ino) == Flatten(seen);
      AreShown(FileOf(fs, ino), seen, 0);
      assert seen[0..] == seen && [] + Flatten(seen) == Flatten(seen);
      CutAlike([], Flatten(seen));
      assert Alike(Seen(fs, ino), []) <==> Alike([], Seen(fs, ino));
    }
  }

  /** What the driver is written for: only directories have the bit, and they are small and without
      holes, so that they have the indirect block they need. */
  ghost predicate Proper(fs: Fs, ino: nat)
    requires IsFs(fs) && ino > 0
  {
    && (HasDirBit(fs, ino) ==> IsDirectory(fs, ino))
    && (IsDirectory(fs, ino) ==>
        && fs.bs <= 4096 && Small(FileOf(fs, ino))
        && exists blocks :: Holds(FileOf(fs, ino), blocks) && Whole(FileOf(fs, ino), |blocks|))
  }

  lemma ProperAgrees(fs: Fs, ino: nat)
    requires IsFs(fs) && ino > 0 && Proper(fs, ino)
    ensures Readable(fs, ino) && Seen(fs, ino) == Entries(fs, ino) && Agree(fs, ino)
  {
    hide IsDirectory, HasDirBit, Holds, Shows, Small;
    if HasDirBit(fs, ino) {
      var blocks :| Holds(FileOf(fs, ino), blocks) && Whole(FileOf(fs, ino), |blocks|);
      WholeShown(FileOf(fs, ino), blocks);
      SeenAre(fs, ino, blocks);
      EntriesAre(fs, ino, blocks);
    } else if IsDirectory(fs, ino) {
      DirectoryHasBit(fs, ino);
      assert false;
    }
  }

  // --------------------------------------------------------- links on the disk

  predicate Bears(e: Entry, name: string) { e.ino != 0 && name != "" && IsText(name) && e.name == Bytes(name) }

  /** In ext2, name in directory dir is a link to inode ino: its first entry in use says so. */
  ghost predicate Link(fs: Fs, dir: nat, name: string, ino: nat)
    requires IsFs(fs)
  {
    dir > 0 && exists k ::
      && 0 <= k < |Entries(fs, dir)| && Bears(Entries(fs, dir)[k], name) && Entries(fs, dir)[k].ino == ino
      && forall j :: 0 <= j < k ==> !Bears(Entries(fs, dir)[j], name)
  }

  /** inodes is a chain of links along names. */
  ghost predicate Chain(fs: Fs, inodes: seq<nat>, names: seq<string>)
    requires IsFs(fs)
  {
    && |inodes| == |names| + 1
    && forall k :: 0 <= k < |names| ==> Link(fs, inodes[k], names[k], inodes[k + 1])
  }

  lemma {:induction false} FirstIs(es: seq<Entry>, name: string, ino: nat)
    requires IsText(name)
    ensures First(es, Bytes(name)) == Some(ino) <==>
            exists k :: 0 <= k < |es| && Bears(es[k], name) && es[k].ino == ino && forall j :: 0 <= j < k ==> !Bears(es[j], name)
  {
    if es != [] && !Bears(es[0], name) {
      var rest := es[1..];
      FirstIs(rest, name, ino);
      assert forall k :: 0 <= k < |rest| ==> rest[k] == es[k + 1];
      if k :| 0 <= k < |es| && Bears(es[k], name) && es[k].ino == ino && forall j :: 0 <= j < k ==> !Bears(es[j], name) {
        assert Bears(rest[k - 1], name) && forall j :: 0 <= j < k - 1 ==> !Bears(rest[j], name);
      }
      if k :| 0 <= k < |rest| && Bears(rest[k], name) && rest[k].ino == ino && forall j :: 0 <= j < k ==> !Bears(rest[j], name) {
        assert forall j :: 0 <= j < k + 1 ==> !Bears(es[j], name);
        assert Bears(es[k + 1], name);
      }
    }
  }

  lemma LinkIs(fs: Fs, dir: nat, name: string, ino: nat)
    requires IsFs(fs) && dir > 0
    ensures Link(fs, dir, name, ino) <==> IsText(name) && First(Entries(fs, dir), Bytes(name)) == Some(ino)
    ensures Link(fs, dir, name, ino) ==> ino > 0
  {
    if IsText(name) { FirstIs(Entries(fs, dir), name, ino); }
  }

  // ---------------------------------------------------------------- the paths

  /** A chain of links along names leads from one inode to another. */
  ghost predicate Leads(fs: Fs, root: nat, names: seq<string>, ino: nat)
    requires IsFs(fs)
  {
    exists inodes :: Chain(fs, inodes, names) && inodes[0] == root && inodes[|names|] == ino
  }

  /** A chain is a link and a chain. */
  lemma LeadsCons(fs: Fs, root: nat, names: seq<string>, ino: nat)
    requires IsFs(fs) && names != []
    ensures Leads(fs, root, names, ino) <==> exists next :: Link(fs, root, names[0], next) && Leads(fs, next, names[1..], ino)
  {
    hide Link;
    if inodes :| Chain(fs, inodes, names) && inodes[0] == root && inodes[|names|] == ino {
      assert Chain(fs, inodes[1..], names[1..]);
      assert Link(fs, root, names[0], inodes[1]) && Leads(fs, inodes[1], names[1..], ino);
    }
    if next :| Link(fs, root, names[0], next) && Leads(fs, next, names[1..], ino) {
      var inodes :| Chain(fs, inodes, names[1..]) && inodes[0] == next && inodes[|names| - 1] == ino;
      assert Chain(fs, [root] + inodes, names);
    }
  }

  /** A chain is a chain and a link. */
  lemma LeadsSnoc(fs: Fs, root: nat, names: seq<string>, last: string, ino: nat)
    requires IsFs(fs)
    ensures Leads(fs, root, names + [last], ino) <==> exists d :: Leads(fs, root, names, d) && Link(fs, d, last, ino)
  {
    hide Link;
    var n, all := |names|, names + [last];
    if inodes :| Chain(fs, inodes, all) && inodes[0] == root && inodes[n + 1] == ino {
      forall k | 0 <= k < n ensures Link(fs, inodes[..n + 1][k], names[k], inodes[..n + 1][k + 1]) {
        assert Link(fs, inodes[k], all[k], inodes[k + 1]);
      }
      assert Chain(fs, inodes[..n + 1], names);
      assert Link(fs, inodes[n], all[n], inodes[n + 1]);
      assert Leads(fs, root, names, inodes[n]) && Link(fs, inodes[n], last, ino);
    }
    if d :| Leads(fs, root, names, d) && Link(fs, d, last, ino) {
      var inodes :| Chain(fs, inodes, names) && inodes[0] == root && inodes[n] == d;
      assert Chain(fs, inodes + [ino], all);
    }
  }

  /** lookup is ext2_lookup on this image: on inodes whose record walk stays within its blocks it
      searches what the driver goes through; elsewhere nothing is known of it. */
  ghost predicate Implements(fs: Fs, lookup: DentryModel.Lookup)
    requires IsFs(fs)
  {
    forall dir: nat, name: string :: dir > 0 && Readable(fs, dir) ==>
      lookup(dir, name) == if IsText(name) then First(Seen(fs, dir), Bytes(name)) else None
  }

  /** Every inode that links lead to from the root can be walked. */
  ghost predicate AllReadable(fs: Fs, root: nat)
    requires IsFs(fs)
  {
    forall names, d: nat :: Leads(fs, root, names, d) ==> d > 0 && Readable(fs, d)
  }

  /** The driver's search agrees with ext2 on every one of them. */
  ghost predicate AllAgree(fs: Fs, root: nat)
    requires IsFs(fs) && AllReadable(fs, root)
  {
    forall names, d: nat :: Leads(fs, root, names, d) ==> Agree(fs, d)
  }

  lemma OnePath(fs: Fs, lookup: DentryModel.Lookup, d: nat, name: string, ino: nat)
    requires IsFs(fs) && Implements(fs, lookup) && d > 0 && Readable(fs, d) && Agree(fs, d)
    ensures lookup(d, name) == Some(ino) <==> Link(fs, d, name, ino)
  {
    LinkIs(fs, d, name, ino);
  }

  lemma Further(fs: Fs, root: nat, name: string, next: nat)
    requires IsFs(fs) && AllReadable(fs, root) && AllAgree(fs, root) && Link(fs, root, name, next)
    ensures AllReadable(fs, next) && AllAgree(fs, next)
  {
    hide Link, Leads, Readable, Agree;
    forall names, d: nat | Leads(fs, next, names, d) ensures d > 0 && Readable(fs, d) && Agree(fs, d) {
      assert ([name] + names)[1..] == names;
      LeadsCons(fs, root, [name] + names, d);
      assert Leads(fs, root, [name] + names, d);
    }
  }

  lemma Here(fs: Fs, root: nat)
    requires IsFs(fs)
    ensures forall ino :: Leads(fs, root, [], ino) <==> ino == root
  {
    assert Chain(fs, [root], []);
  }

  /** Where the searches agree, uncached resolution finds exactly what a chain of links leads to. */
  lemma {:induction false} ResolveIsChain(fs: Fs, lookup: DentryModel.Lookup, root: nat, names: seq<string>, ino: nat)
    requires IsFs(fs) && Implements(fs, lookup) && AllReadable(fs, root) && AllAgree(fs, root)
    ensures DentryModel.Resolve(lookup, root, names) == Some(ino) <==> Leads(fs, root, names, ino)
    decreases |names|
  {
    hide Link, Leads, Implements, Readable, Agree;
    Here(fs, root);
    if names != [] {
      assert Leads(fs, root, [], root);
      LeadsCons(fs, root, names, ino);
      var next := lookup(root, names[0]);
      forall i: nat ensures next == Some(i) <==> Link(fs, root, names[0], i) { OnePath(fs, lookup, root, names[0], i); }
      if next.Some? {
        Further(fs, root, names[0], next.value);
        ResolveIsChain(fs, lookup, next.value, names[1..], ino);
      }
    }
  }

  /** The cache, after a history of lookups on the mounted image, answers a path with inode ino. */
  ghost predicate Answers(lookup: DentryModel.Lookup, root: nat, history: seq<seq<string>>, names: seq<string>, ino: nat) {
    var ds := DentryModel.Run(lookup, root, history);
    var (later, d) := DentryModel.Walk(ds, lookup, 0, names);
    d.Some? && later[d.value].ino == ino
  }

  lemma AnswersIs(lookup: DentryModel.Lookup, root: nat, history: seq<seq<string>>, names: seq<string>, ino: nat)
    ensures Answers(lookup, root, history, names, ino) <==> DentryModel.Resolve(lookup, root, names) == Some(ino)
  {
    DentryModel.RunsAgree(lookup, root, history, names);
  }

  /** Whatever the history, every path is answered by the inode ext2's links lead to. */
  ghost predicate Right(fs: Fs, lookup: DentryModel.Lookup, root: nat)
    requires IsFs(fs)
  {
    forall history, names, ino: nat :: Answers(lookup, root, history, names, ino) <==> Leads(fs, root, names, ino)
  }

  /** A name on which the searches differ at the end of a chain is a path that is answered wrong. */
  lemma WrongAt(fs: Fs, lookup: DentryModel.Lookup, root: nat, names: seq<string>, d: nat, name: string, ino: nat)
    requires IsFs(fs) && Implements(fs, lookup) && Leads(fs, root, names, d) && d > 0 && Readable(fs, d) && IsText(name)
    requires (First(Seen(fs, d), Bytes(name)) == Some(ino)) != (First(Entries(fs, d), Bytes(name)) == Some(ino))
    ensures !Right(fs, lookup, root)
  {
    if Right(fs, lookup, root) {
      hide Link, Leads, Answers;
      forall ns, i: nat ensures Leads(fs, root, ns, i) <==> DentryModel.Resolve(lookup, root, ns) == Some(i) {
        AnswersIs(lookup, root, [], ns, i);
        assert Answers(lookup, root, [], ns, i) <==> Leads(fs, root, ns, i);
      }
      LeadsSnoc(fs, root, names, name, ino);
      DentryModel.ResolveSnoc(lookup, root, names, name);
      LinkIs(fs, d, name, ino);
    }
  }

  /** Over a mounted image all cached answers are right exactly when the driver's search agrees with
      ext2 on every inode the links lead to. */
  lemma CacheIsDisk(fs: Fs, lookup: DentryModel.Lookup, root: nat)
    requires IsFs(fs) && Implements(fs, lookup) && AllReadable(fs, root)
    ensures Right(fs, lookup, root) <==> AllAgree(fs, root)
  {
    hide Leads, Answers, Implements, Readable, Agree;
    if AllAgree(fs, root) {
      forall history, names, ino: nat ensures Answers(lookup, root, history, names, ino) <==> Leads(fs, root, names, ino) {
        AnswersIs(lookup, root, history, names, ino);
        ResolveIsChain(fs, lookup, root, names, ino);
      }
    } else {
      var names, d: nat :| Leads(fs, root, names, d) && !Agree(fs, d);
      Differs(fs, lookup, root, names, d);
    }
  }

  lemma Differs(fs: Fs, lookup: DentryModel.Lookup, root: nat, names: seq<string>, d: nat)
    requires IsFs(fs) && Implements(fs, lookup) && Leads(fs, root, names, d) && d > 0 && Readable(fs, d) && !Agree(fs, d)
    ensures !Right(fs, lookup, root)
  {
    hide Leads, Implements, Readable, Right;
    var name: string :| IsText(name) && First(Seen(fs, d), Bytes(name)) != First(Entries(fs, d), Bytes(name));
    var a, b := First(Seen(fs, d), Bytes(name)), First(Entries(fs, d), Bytes(name));
    WrongAt(fs, lookup, root, names, d, name, if a.Some? then a.value else b.value);
  }

  /** On an image of small directories without holes, and no other inode with their bit, every answer is right. */
  lemma ProperImage(fs: Fs, lookup: DentryModel.Lookup, root: nat)
    requires IsFs(fs) && Implements(fs, lookup)
    requires forall names, d: nat :: Leads(fs, root, names, d) ==> d > 0 && Proper(fs, d)
    ensures AllReadable(fs, root) && Right(fs, lookup, root)
  {
    hide Leads, Implements, Right, Agree, Readable, Proper;
    forall names, d: nat | Leads(fs, root, names, d) ensures d > 0 && Readable(fs, d) && Agree(fs, d) { ProperAgrees(fs, d); }
    CacheIsDisk(fs, lookup, root);
  }

  // -------------------------------------------------------------- the program

  /** ops->lookup as the cache calls it. */
  method LookupName(fs: Fs, dir: nat, name: string) returns (r: Option<nat>)
    requires IsFs(fs) && dir > 0 && IsText(name) && Readable(fs, dir)
    ensures r == First(Seen(fs, dir), Bytes(name))
    ensures Agree(fs, dir) ==> forall ino: nat :: r == Some(ino) <==> Link(fs, dir, name, ino)
  {
    r := Ext2Dir.Lookup(fs, dir, Bytes(name));
    forall ino: nat ensures Link(fs, dir, name, ino) <==> First(Entries(fs, dir), Bytes(name)) == Some(ino) {
      LinkIs(fs, dir, name, ino);
    }
  }
}
