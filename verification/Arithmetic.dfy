/** A fact about products that offsets and chunk counts need. */
module Arithmetic {

  lemma ProductMonotone(a: nat, b: nat, c: nat)
    requires a <= b
    ensures a * c <= b * c
  {}
}
