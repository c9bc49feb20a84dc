/** The bits of the page table entries, and the entry behind a mapped page. */
module PagingLaws {
  import opened Common
  import opened PagingModel
  import SyscallModel

  /** A table entry: present, writable, for user code if the flags say so, and the frame from bit 12 on. */
  lemma TableBits(frame: nat, flags: nat)
    ensures var e := TableEntry(frame, flags);
            e % 2 == 1 && e / 2 % 2 == 1 && e / 4 % 2 == flags / 4 % 2 && e / 8 % 512 == 0 && e / 4096 == frame
  {
    var low := if FlagSet(flags, 4) then 7 else 3;
    BitsOf(frame, low);
  }

  lemma BitsOf(top: nat, low: nat)
    requires low < 8
    ensures var e := top * 4096 + low;
            e % 2 == low % 2 && e / 2 % 2 == low / 2 % 2 && e / 4 % 2 == low / 4 && e / 8 % 512 == 0 && e / 4096 == top
  {
    assert (top * 4096 + low) / 8 == 512 * top;
    assert (top * 4096 + low) / 4 == 1024 * top + low / 4;
    assert (top * 4096 + low) / 2 == 2048 * top + low / 2;
  }

  /** A leaf entry: present, writable and for user code as the flags say, no-execute (bit 63) exactly
      without the flag that is also the user bit, and the frame of the address in bits 12 to 51. */
  lemma LeafBits(phys: nat, flags: nat)
    ensures var e := LeafEntry(phys, flags);
            && e % 2 == 1 && e / 2 % 2 == flags / 2 % 2 && e / 4 % 2 == flags / 4 % 2 && e / 8 % 512 == 0
            && e / 4096 % 0x100_0000_0000 == phys / 4096 % 0x100_0000_0000
            && e / 0x8000_0000_0000_0000 == 1 - flags / 4 % 2
  {
    var f := FrameOf(phys);
    var low := 1 + (if FlagSet(flags, 2) then 2 else 0) + (if FlagSet(flags, 4) then 4 else 0);
    var top := if FlagSet(flags, 4) then 0 else 0x8_0000_0000_0000;
    var e := LeafEntry(phys, flags);
    assert e == (f + top) * 4096 + low;
    BitsOf(f + top, low);
    LeafEntryDecodes(phys, flags);
    assert f < 0x100_0000_0000;
  }

  /** map_page leaves exactly that entry in the last table on the page's path. */
  lemma StoredEntry(m: Mem, root: nat, paths: map<nat, Trail>, phys: nat, v: nat, flags: nat) returns (t: nat)
    requires Tree(m, root, paths) && v < LOW_PAGES && MapPage(m, root, phys, v, flags).Some?
    ensures var m' := MapPage(m, root, phys, v, flags).value;
            && t < |m'.ram| && Walk(m', root, Path(v)[..3]) == Some(t) && m'.ram[t][v % 512] == LeafEntry(phys, flags)
  {
    hide LeafEntry;
    LowPath(v);
    LowPrefix(Path(v));
    var (m1, table) := EnsureTables(m, root, Path(v)[..3], flags).value;
    t := table;
    var paths' := EnsureTablesTree(m, root, paths, root, Path(v)[..3], flags);
    assert paths'[t] == Path(v)[..3] by { assert [] + Path(v)[..3] == Path(v)[..3]; }
    LeafWriteKeepsTree(m1, root, paths', t, v % 512, LeafEntry(phys, flags));
    Arrives(MapPage(m, root, phys, v, flags).value, root, paths', t);
  }

  lemma Arrives(m: Mem, root: nat, paths: map<nat, Trail>, t: nat)
    requires Tree(m, root, paths) && t in paths
    ensures t < |m.ram| && Walk(m, root, paths[t]) == Some(t)
  {
  }

  /** What the leaf entries of brk and mmap say. */
  predicate UserBits(e: nat, frame: nat) {
    e % 2 == 1 && e / 2 % 2 == 1 && e / 4 % 2 == 1 && e / 0x8000_0000_0000_0000 == 0 && e / 4096 % 0x100_0000_0000 == frame
  }

  lemma UserLeaf(f: nat)
    requires f < FRAMES
    ensures UserBits(LeafEntry(f * PAGE, SyscallModel.USER_FLAGS), f)
  {
    LeafBits(f * PAGE, SyscallModel.USER_FLAGS);
    assert f * PAGE / 4096 == f;
  }

  /** The pages of brk and mmap are present, writable, for user code and executable, each on its frame. */
  lemma UserEntry(m: Mem, root: nat, l: SyscallModel.Layout, v: nat) returns (t: nat)
    requires SyscallModel.SpaceInv(m, root, l) && v < LOW_PAGES && SyscallModel.FreshPage(m, root, v).Some?
    ensures m.free != {}
    ensures var m' := SyscallModel.FreshPage(m, root, v).value;
            t < |m'.ram| && Walk(m', root, Path(v)[..3]) == Some(t) && UserBits(m'.ram[t][v % 512], Taken(m).1)
  {
    var (m1, f) := Taken(m);
    assert f < FRAMES;
    SyscallModel.TakenKeeps(m, root, l.paths);
    UserLeaf(f);
    hide LeafEntry, MapPage, UserBits, Tree, Taken, Walk, Path;
    t := StoredEntry(m1, root, l.paths, f * PAGE, v, SyscallModel.USER_FLAGS);
  }
}
