/** Small definitions that several models share. */
module Basics {

  datatype Option<T> = None | Some(value: T)

  function Min(a: int, b: int): int {
    if a < b then a else b
  }

  predicate IsInt32(v: int) {
    -0x8000_0000 <= v <= 0x7fff_ffff
  }

  /** Sorted, duplicates allowed. */
  ghost predicate NonDescending(a: seq<int>) {
    forall i, j :: 0 <= i < j < |a| ==> a[i] <= a[j]
  }
}
