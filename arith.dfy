/**
 * Integer helpers shared by the reader, the text utilities and the icon
 * encoder: the `Math.min`/`Math.max` of the sources and the monotonicity
 * of multiplication that their index arithmetic relies on.
 */
module Arith {

  /** `Math.min` on integers. */
  function Min(a: int, b: int): int { if a <= b then a else b }

  /** `Math.max` on integers. */
  function Max(a: int, b: int): int { if a >= b then a else b }

  /** Multiplying by a non-negative factor keeps the order. */
  lemma MulMonotone(a: int, b: int, c: int)
    ensures 0 <= c && a <= b ==> a * c <= b * c
  {
  }
}
