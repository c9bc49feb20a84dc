/** Which frames are free at boot, said of addresses. */
module PmmLaws {
  import opened Common
  import opened PagingModel
  import opened Pmm

  /** Frame p is available: its 4096 bytes lie in one entry of kind 1. */
  ghost predicate Usable(es: seq<Entry>, p: nat) {
    exists i :: 0 <= i < |es| && es[i].kind == 1 && es[i].base <= p * 4096 && p * 4096 + 4096 <= es[i].base + es[i].length
  }

  lemma AvailableLaw(es: seq<Entry>, p: nat)
    ensures p in Available(es) <==> p < 1048576 && Usable(es, p)
  {
    AvailableIs(es, p);
    forall i | 0 <= i < |es| ensures p in FramesOf(es[i]) <==>
      p < 1048576 && es[i].kind == 1 && es[i].base <= p * 4096 && p * 4096 + 4096 <= es[i].base + es[i].length { }
  }

  /** Frame p shares a byte with [a, b). */
  predicate Meets(p: nat, a: nat, b: nat) { a < b && p * 4096 < b && a < p * 4096 + 4096 }

  /** Not handed out: the first megabyte, the kernel image behind it, and the bitmap of a bit a frame. */
  lemma ReservedLaw(p: nat, kernelEnd: nat, bitmapAt: nat)
    requires kernelEnd + 4096 < TWO64 && bitmapAt + 131072 + 4096 < TWO64
    ensures Reserved(p, kernelEnd, bitmapAt) <==>
              Meets(p, 0, 0x10_0000) || Meets(p, 0x10_0000, kernelEnd) || Meets(p, bitmapAt, bitmapAt + 131072)
  {
    RoundsUp(kernelEnd);
    RoundsUp(bitmapAt + 131072);
  }

  lemma RoundsUp(x: nat)
    requires x + 4096 < TWO64
    ensures AlignUp(x, PAGE) % 4096 == 0 && x <= AlignUp(x, PAGE) < x + 4096
  {
  }

  /** The frames pmm_init leaves free. */
  lemma BootLaw(es: seq<Entry>, kernelEnd: nat, bitmapAt: nat, p: nat)
    requires kernelEnd + 4096 < TWO64 && bitmapAt + 131072 + 4096 < TWO64
    ensures p in (set q | q in Available(es) && !Reserved(q, kernelEnd, bitmapAt)) <==>
              && p < 1048576 && Usable(es, p) && p * 4096 >= 0x10_0000
              && !Meets(p, 0x10_0000, kernelEnd) && !Meets(p, bitmapAt, bitmapAt + 131072)
  {
    AvailableLaw(es, p);
    ReservedLaw(p, kernelEnd, bitmapAt);
  }
}
