/**
  Flash memory cells: erasing sets all bits, programming only clears them.
 */
module FlashCells {
  /** A byte of flash after another was programmed over it: no bit is ever set. */
  function Cleared(x: bv8, y: bv8): bv8 {
    x & y
  }

  lemma ClearedByOnes(x: bv8)
    ensures Cleared(x, 0xff) == x && Cleared(0xff, x) == x
  {
  }

  /** n bytes erased from offset at on. */
  function Erased(mem: seq<bv8>, at: nat, n: nat): (r: seq<bv8>)
    ensures |r| == |mem|
  {
    seq(|mem|, a requires 0 <= a < |mem| => if at <= a < at + n then 0xff else mem[a])
  }

  /** mem' is mem outside [from, to). */
  predicate SameOutside(mem: seq<bv8>, mem': seq<bv8>, from: int, to: int) {
    |mem'| == |mem| && forall a :: 0 <= a < |mem| && !(from <= a < to) ==> mem'[a] == mem[a]
  }
}
