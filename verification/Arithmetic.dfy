/** Products of non-negative reals, kept apart from the proofs that need them. */
module Arithmetic {

  lemma ProductNonNegative(x: real, y: real)
    requires x >= 0.0 && y >= 0.0
    ensures x * y >= 0.0
  {
  }

  lemma ProductMonotone(x: real, y: real, z: real)
    requires x <= y && z >= 0.0
    ensures x * z <= y * z
  {
    ProductNonNegative(y - x, z);
  }
}
