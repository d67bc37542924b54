/** Arithmetic that several components share. */
module Arith {
  function Min(a: int, b: int): int { if a < b then a else b }
  function Max(a: int, b: int): int { if a < b then b else a }

  /** `1 << n` */
  function Pow2(n: nat): (r: nat)
    ensures 0 < r
  { if n == 0 then 1 else 2 * Pow2(n - 1) }
}
