/** Multiplication by variables. */
module Arith {

  lemma TimesMono(a: nat, b: nat, c: nat)
    requires a <= b
    ensures a * c <= b * c
  {
    assert (b - a) * c >= 0;
  }
}
