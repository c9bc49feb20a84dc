/** Types, machine widths and small functions that several parts share. */
module Common {

  datatype Option<T> = None | Some(value: T)

  type Byte = b: int | 0 <= b < 256

  const TWO32: nat := 0x1_0000_0000
  const TWO64: nat := 0x1_0000_0000_0000_0000
  const PAGE: nat := 4096

  function Min(a: nat, b: nat): nat { if a < b then a else b }

  /** ALIGN_UP on 64-bit operands, a power of two. */
  function AlignUp(x: nat, a: nat): nat
    requires a > 0
  {
    var y := (x + a - 1) % TWO64;
    y - y % a
  }

  ghost predicate Distinct(s: seq<nat>) {
    forall i, j :: 0 <= i < j < |s| ==> s[i] != s[j]
  }
}
