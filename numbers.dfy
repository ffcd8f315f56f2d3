/**
  * Small facts about numbers shared by several panels: powers of two (the
  * number of Hanoi moves, the widths of heap levels) and whole numbers (the
  * values a number input may or may not hold).
  */
module Numbers {

  function Pow2(k: nat): (p: nat)
    ensures p >= 1
  {
    if k == 0 then 1 else 2 * Pow2(k - 1)
  }

  /** A number with no fractional part. */
  predicate Whole(x: real) {
    x == x.Floor as real
  }
}
