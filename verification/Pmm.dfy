/** The bitmap frame allocator of kernel/mm/pmm.c. A 64-bit word is its sequence of bits,
    lowest first; a set bit marks a free frame. Physical memory itself is part of the object,
    because alloc_page zeroes the frame it hands out. */
module Pmm {
  import opened Common
  import opened PagingModel

  const WORDS: nat := FRAMES / 64
  const BITMAP_BYTES: nat := 8 * WORDS

  type Word = w: seq<bool> | |w| == 64 witness seq(64, _ => false)

  function ZeroWord(): Word { seq(64, _ => false) }

  predicate BitSet(b: seq<Word>, pfn: nat)
    requires |b| == WORDS && pfn < FRAMES
  {
    b[pfn / 64][pfn % 64]
  }

  /** The frames below n whose bit is set. */
  ghost function FreeBelow(b: seq<Word>, n: nat): set<nat>
    requires |b| == WORDS && n <= FRAMES
    decreases |b|, n
  {
    if n == 0 then {} else FreeBelow(b, n - 1) + if BitSet(b, n - 1) then {n - 1} else {}
  }

  ghost function FreeIn(b: seq<Word>): set<nat>
    requires |b| == WORDS
  {
    FreeBelow(b, 64 * |b|)
  }

  lemma {:induction false} FreeBelowIs(b: seq<Word>, n: nat, p: nat)
    requires |b| == WORDS && n <= FRAMES
    ensures p in FreeBelow(b, n) <==> p < n && BitSet(b, p)
    decreases n
  {
    if n > 0 { FreeBelowIs(b, n - 1, p); }
  }

  /** A frame is free exactly when its bit is set. */
  lemma FreeInIs(b: seq<Word>, p: nat)
    requires |b| == WORDS
    ensures p in FreeIn(b) <==> p < FRAMES && BitSet(b, p)
  {
    FreeBelowIs(b, 64 * |b|, p);
  }

  function WithBit(b: seq<Word>, pfn: nat, on: bool): seq<Word>
    requires |b| == WORDS && pfn < FRAMES
  {
    b[pfn / 64 := b[pfn / 64][pfn % 64 := on]]
  }

  lemma WithBitAt(b: seq<Word>, pfn: nat, on: bool, p: nat)
    requires |b| == WORDS && pfn < FRAMES && p < FRAMES
    ensures BitSet(WithBit(b, pfn, on), p) == if p == pfn then on else BitSet(b, p)
  {
    assert p / 64 == pfn / 64 && p % 64 == pfn % 64 ==> p == pfn;
  }

  /** Changing one bit changes the membership of one frame. */
  lemma WithBitIs(b: seq<Word>, pfn: nat, on: bool)
    requires |b| == WORDS && pfn < FRAMES
    ensures FreeIn(WithBit(b, pfn, on)) == if on then FreeIn(b) + {pfn} else FreeIn(b) - {pfn}
  {
    forall p: nat
      ensures p in FreeIn(WithBit(b, pfn, on)) <==> if p == pfn then on else p in FreeIn(b)
    {
      FreeInIs(b, p);
      FreeInIs(WithBit(b, pfn, on), p);
      if p < FRAMES { WithBitAt(b, pfn, on, p); }
    }
  }

  // ------------------------------------------------------------- boot memory

  datatype Entry = Entry(base: nat, length: nat, kind: nat)

  /** Frame p lies wholly inside the available entry e. */
  predicate Inside(e: Entry, p: nat) {
    e.kind == 1 && e.base <= p * PAGE && (p + 1) * PAGE <= e.base + e.length
  }

  /** The frames inside e below the page limit. */
  ghost function FramesOf(e: Entry): set<nat> {
    set p | 0 <= p < FRAMES && Inside(e, p)
  }

  ghost function Available(es: seq<Entry>): set<nat> {
    if es == [] then {} else Available(es[..|es| - 1]) + FramesOf(es[|es| - 1])
  }

  /** How often frames are counted again because entries overlap. */
  ghost function Surplus(es: seq<Entry>): nat {
    if es == [] then 0
    else Surplus(es[..|es| - 1]) + |Available(es[..|es| - 1]) * FramesOf(es[|es| - 1])|
  }

  ghost predicate Disjoint(es: seq<Entry>) {
    forall i, j :: 0 <= i < j < |es| ==> FramesOf(es[i]) !! FramesOf(es[j])
  }

  lemma {:induction false} AvailableIs(es: seq<Entry>, p: nat)
    ensures p in Available(es) <==> exists i :: 0 <= i < |es| && p in FramesOf(es[i])
  {
    if es != [] {
      AvailableIs(es[..|es| - 1], p);
      assert forall i :: 0 <= i < |es| - 1 ==> es[..|es| - 1][i] == es[i];
      assert es[|es| - 1] == es[|es| - 1];
    }
  }

  lemma AvailableGrows(es: seq<Entry>, i: nat)
    requires i < |es|
    ensures Available(es[..i + 1]) == Available(es[..i]) + FramesOf(es[i])
    ensures Surplus(es[..i + 1]) == Surplus(es[..i]) + |Available(es[..i]) * FramesOf(es[i])|
  {
    assert es[..i + 1][..i] == es[..i];
  }

  /** Nothing is counted twice exactly when the available entries share no frame. */
  lemma {:induction false} SurplusZero(es: seq<Entry>)
    ensures Surplus(es) == 0 <==> Disjoint(es)
  {
    if es != [] {
      var init, last := es[..|es| - 1], es[|es| - 1];
      SurplusZero(init);
      assert forall i :: 0 <= i < |init| ==> init[i] == es[i];
      if Available(init) * FramesOf(last) == {} {
        forall i | 0 <= i < |init|
          ensures FramesOf(es[i]) !! FramesOf(last)
        {
          forall p | p in FramesOf(init[i])
            ensures p !in FramesOf(last)
          {
            AvailableIs(init, p);
            assert p !in Available(init) * FramesOf(last);
          }
        }
      } else {
        var p :| p in Available(init) * FramesOf(last);
        AvailableIs(init, p);
        var i :| 0 <= i < |init| && p in FramesOf(init[i]);
        assert p in FramesOf(es[i]) && p in FramesOf(es[|es| - 1]);
      }
    }
  }

  function AlignDown(x: nat): nat { x - x % PAGE }

  /** The kernel's own pages: the first megabyte, the image from 1 MB to its end, the bitmap. */
  predicate Reserved(pfn: nat, kernelEnd: nat, bitmapAt: nat) {
    || pfn < 256
    || 256 <= pfn < AlignUp(kernelEnd, PAGE) / PAGE
    || bitmapAt / PAGE <= pfn < AlignUp(bitmapAt + BITMAP_BYTES, PAGE) / PAGE
  }

  lemma EntryRange(e: Entry, pfn: nat)
    requires e.kind == 1 && e.base + e.length + PAGE < TWO64
    ensures pfn in FramesOf(e) <==> AlignUp(e.base, PAGE) / PAGE <= pfn < AlignDown(e.base + e.length) / PAGE && pfn < FRAMES
  {
  }

  /** __builtin_ctzll of a nonzero word. */
  method CountTrailingZeros(w: Word) returns (k: nat)
    requires true in w
    ensures k < 64 && w[k] && forall j :: 0 <= j < k ==> !w[j]
  {
    k := 0;
    while !w[k]
      invariant k < 64 && forall j :: 0 <= j < k ==> !w[j]
      decreases 64 - k
    {
      k := k + 1;
    }
  }

  class FrameAllocator {
    const bitmap: array<Word>
    var totalPages: nat
    var freePages: nat
    var ram: seq<Table>
    /** The frames whose bit is set. */
    ghost var free: set<nat>
    /** By how much freePages exceeds the number of set bits; overlapping entries cause it. */
    ghost var surplus: nat

    ghost predicate Consistent()
      reads this, bitmap
    {
      && bitmap.Length == WORDS && |ram| == FRAMES && free == FreeIn(bitmap[..])
      && forall p :: p in free ==> p < FRAMES
    }

    ghost predicate Valid()
      reads this, bitmap
    {
      Consistent() && freePages == |free| + surplus
    }

    ghost function Model(): Mem
      reads this
    {
      Mem(free, ram)
    }

    constructor (memory: seq<Table>)
      requires |memory| == FRAMES
      ensures Valid() && fresh(bitmap) && ram == memory && free == {} && surplus == 0 && freePages == totalPages == 0
    {
      bitmap := new Word[WORDS](_ => ZeroWord());
      totalPages, freePages, ram, free, surplus := 0, 0, memory, {}, 0;
      new;
      forall p: nat
        ensures p !in FreeIn(bitmap[..])
      {
        FreeInIs(bitmap[..], p);
      }
    }

    method SetBit(pfn: nat, on: bool)
      requires Consistent() && pfn < FRAMES
      modifies this`free, bitmap
      ensures Consistent() && free == if on then old(free) + {pfn} else old(free) - {pfn}
    {
      WithBitIs(bitmap[..], pfn, on);
      ghost var b := bitmap[..];
      bitmap[pfn / 64] := bitmap[pfn / 64][pfn % 64 := on];
      assert bitmap[..] == WithBit(b, pfn, on);
      free := if on then free + {pfn} else free - {pfn};
    }

    method TestBit(pfn: nat) returns (on: bool)
      requires Consistent() && pfn < FRAMES
      ensures on <==> pfn in free
    {
      on := bitmap[pfn / 64][pfn % 64];
      FreeInIs(bitmap[..], pfn);
    }

    /** One entry of the memory map: every whole page is marked free and counted. */
    method AddEntry(e: Entry)
      requires Valid() && (e.kind == 1 ==> e.base + e.length + PAGE < TWO64)
      modifies this`totalPages, this`freePages, this`free, this`surplus, bitmap
      ensures Valid() && free == old(free) + FramesOf(e)
      ensures surplus == old(surplus) + |old(free) * FramesOf(e)|
    {
      if e.kind != 1 {
        assert FramesOf(e) == {};
        return;
      }
      var base, end := AlignUp(e.base, PAGE), AlignDown(e.base + e.length);
      if end <= base {
        assert FramesOf(e) == {} by {
          forall p | p in FramesOf(e)
            ensures false
          {
            EntryRange(e, p);
          }
        }
        return;
      }
      ghost var done := AddRange(base / PAGE, end / PAGE);
      assert done == FramesOf(e) by {
        forall p: nat
          ensures p in done <==> p in FramesOf(e)
        {
          EntryRange(e, p);
        }
      }
      UnionSize(old(free), done);
      surplus := surplus + |old(free) * done|;
    }

    method AddRange(first: nat, last: nat) returns (ghost done: set<nat>)
      requires Consistent()
      modifies this`totalPages, this`freePages, this`free, bitmap
      ensures Consistent()
      ensures forall p :: p in done <==> first <= p < last && p < FRAMES
      ensures free == old(free) + done && freePages == old(freePages) + |done|
    {
      hide FreeIn;
      done := {};
      var pfn := first;
      while pfn < last && pfn < FRAMES
        invariant first <= pfn && Consistent()
        invariant forall p :: p in done <==> first <= p < pfn && p < last && p < FRAMES
        invariant free == old(free) + done && freePages == old(freePages) + |done|
      {
        SetBit(pfn, true);
        totalPages, freePages := totalPages + 1, freePages + 1;
        assert pfn !in done && old(free) + done + {pfn} == old(free) + (done + {pfn});
        done := done + {pfn};
        pfn := pfn + 1;
      }
    }

    method AddEntries(es: seq<Entry>)
      requires Valid() && free == {} && surplus == 0 && NoOverflow(es)
      modifies this`totalPages, this`freePages, this`free, this`surplus, bitmap
      ensures Valid() && free == Available(es) && surplus == Surplus(es)
    {
      hide FreeIn, FramesOf;
      var i := 0;
      while i < |es|
        invariant 0 <= i <= |es| && Valid()
        invariant free == Available(es[..i]) && surplus == Surplus(es[..i])
      {
        AddEntry(es[i]);
        AvailableGrows(es, i);
        i := i + 1;
      }
      assert es[..|es|] == es;
    }

    /** pmm_init: frames wholly inside an available entry, minus what the kernel occupies; the
        counter is exact if and only if no two available entries share a frame. */
    method Init(es: seq<Entry>, kernelEnd: nat, bitmapAt: nat)
      requires Valid() && free == {} && surplus == 0 && NoOverflow(es)
      modifies this`totalPages, this`freePages, this`free, this`surplus, bitmap
      ensures Valid()
      ensures free == set p | p in Available(es) && !Reserved(p, kernelEnd, bitmapAt)
      ensures freePages == |free| + Surplus(es)
      ensures freePages == |free| <==> Disjoint(es)
    {
      AddEntries(es);
      ReserveAll(kernelEnd, bitmapAt);
      SurplusZero(es);
    }

    method ReserveAll(kernelEnd: nat, bitmapAt: nat)
      requires Valid()
      modifies this`freePages, this`free, bitmap
      ensures Valid() && free == set p | p in old(free) && !Reserved(p, kernelEnd, bitmapAt)
    {
      Reserve(0, 256);
      ghost var f1 := free;
      Reserve(256, AlignUp(kernelEnd, PAGE) / PAGE);
      ghost var f2 := free;
      Reserve(bitmapAt / PAGE, AlignUp(bitmapAt + BITMAP_BYTES, PAGE) / PAGE);
      forall p: nat
        ensures p in free <==> p in old(free) && !Reserved(p, kernelEnd, bitmapAt)
      {
        assert p in f1 <==> p in old(free) && !(p < 256);
        assert p in f2 <==> p in f1 && !(256 <= p < AlignUp(kernelEnd, PAGE) / PAGE);
      }
    }

    /** Take the frames of a range out of the free ones. */
    method Reserve(from: nat, to: nat)
      requires Valid()
      modifies this`freePages, this`free, bitmap
      ensures Valid() && forall p :: p in free <==> p in old(free) && !(from <= p < to)
    {
      var pfn := from;
      while pfn < to && pfn < FRAMES
        invariant from <= pfn && Valid()
        invariant forall p :: p in free <==> p in old(free) && !(from <= p < pfn && p < to)
      {
        var on := TestBit(pfn);
        if on {
          SetBit(pfn, false);
          freePages := freePages - 1;
        }
        pfn := pfn + 1;
      }
    }

    /** alloc_page: take the lowest free frame and zero it. None is the panic. */
    method AllocPage() returns (r: Option<nat>)
      requires Valid()
      modifies this`freePages, this`free, this`ram, bitmap
      ensures Valid()
      ensures r.None? <==> old(free) == {}
      ensures r.None? ==> Model() == old(Model())
      ensures r.Some? ==> (Model(), r.value / PAGE) == Taken(old(Model())) && r.value % PAGE == 0 && r.value / PAGE < FRAMES
    {
      var found := FindLowest();
      if found.None? { return None; }
      var pfn := found.value;
      LowestUnique(free, pfn);
      assert Taken(Model()) == (Mem(free - {pfn}, ram[pfn := ZeroTable()]), pfn);
      SetBit(pfn, false);
      freePages := freePages - 1;
      ZeroFrame(pfn);
      r := Some(pfn * PAGE);
    }

    /** Skip zero words, then take the lowest set bit. */
    method FindLowest() returns (r: Option<nat>)
      requires Consistent()
      ensures r.None? <==> free == {}
      ensures r.Some? ==> IsLowest(free, r.value) && r.value < FRAMES
    {
      var word := 0;
      while word < WORDS
        invariant 0 <= word <= WORDS
        invariant forall p :: 0 <= p < 64 * word ==> p !in free
      {
        if true in bitmap[word] {
          var bit := CountTrailingZeros(bitmap[word]);
          LowestInWord(bitmap[..], word, bit);
          return Some(word * 64 + bit);
        }
        EmptyWord(bitmap[..], word);
        word := word + 1;
      }
      assert free == {};
      r := None;
    }

    method ZeroFrame(pfn: nat)
      requires |ram| == FRAMES && pfn < FRAMES
      modifies this`ram
      ensures ram == old(ram)[pfn := ZeroTable()]
    {
      var i := 0;
      while i < 512
        invariant 0 <= i <= 512 && |ram| == FRAMES
        invariant forall f :: 0 <= f < FRAMES && f != pfn ==> ram[f] == old(ram)[f]
        invariant forall j :: 0 <= j < i ==> ram[pfn][j] == 0
      {
        ram := ram[pfn := ram[pfn][i := 0]];
        i := i + 1;
      }
      assert ram[pfn] == ZeroTable();
    }

    /** free_page: misaligned, out-of-range and double frees are refused. */
    method FreePage(addr: nat) returns (ok: bool)
      requires Valid()
      modifies this`freePages, this`free, bitmap
      ensures Valid()
      ensures ok <==> addr % PAGE == 0 && addr / PAGE < FRAMES && addr / PAGE !in old(free)
      ensures free == if ok then old(free) + {addr / PAGE} else old(free)
    {
      if addr % PAGE != 0 { return false; }
      var pfn := addr / PAGE;
      if pfn >= FRAMES { return false; }
      var on := TestBit(pfn);
      if on { return false; }
      SetBit(pfn, true);
      freePages := freePages + 1;
      ok := true;
    }
  }

  lemma EmptyWord(b: seq<Word>, word: nat)
    requires |b| == WORDS && word < WORDS && true !in b[word]
    requires forall p :: 0 <= p < 64 * word ==> p !in FreeIn(b)
    ensures forall p :: 0 <= p < 64 * (word + 1) ==> p !in FreeIn(b)
  {
    forall p | 64 * word <= p < 64 * (word + 1)
      ensures p !in FreeIn(b)
    {
      FreeInIs(b, p);
      assert p / 64 == word;
      assert b[word][p % 64] in b[word];
    }
  }

  lemma LowestInWord(b: seq<Word>, word: nat, bit: nat)
    requires |b| == WORDS && word < WORDS && bit < 64 && b[word][bit] && forall j :: 0 <= j < bit ==> !b[word][j]
    requires forall p :: 0 <= p < 64 * word ==> p !in FreeIn(b)
    ensures IsLowest(FreeIn(b), word * 64 + bit)
  {
    var pfn := word * 64 + bit;
    assert pfn / 64 == word && pfn % 64 == bit;
    FreeInIs(b, pfn);
    forall p | p in FreeIn(b)
      ensures pfn <= p
    {
      FreeInIs(b, p);
      assert p / 64 == word ==> p == word * 64 + p % 64;
    }
  }

  lemma LowestUnique(free: set<nat>, f: nat)
    requires IsLowest(free, f)
    ensures Lowest(free) == f
  {
  }

  /** In a memory map without wrap-around every available entry ends below 2^64. */
  predicate NoOverflow(es: seq<Entry>) {
    forall i :: 0 <= i < |es| && es[i].kind == 1 ==> es[i].base + es[i].length + PAGE < TWO64
  }

  lemma UnionSize(a: set<nat>, b: set<nat>)
    ensures |a + b| + |a * b| == |a| + |b|
  {
    assert a + b == a + (b - a);
    assert b == (b - a) + a * b;
    assert (b - a) !! a * b;
  }
}
