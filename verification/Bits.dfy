/** Single bits of a byte, as the bitmap code tests and changes them. */
module Bits {

  function Mask(k: nat): bv8
    requires k < 8
  {
    (1 as bv8) << k
  }

  predicate Bit(b: bv8, k: nat)
    requires k < 8
  {
    b & Mask(k) != 0
  }

  lemma OrMask(b: bv8, k: nat, j: nat)
    requires k < 8 && j < 8
    ensures Bit(b | Mask(k), j) <==> Bit(b, j) || j == k
  {
  }

  lemma AndNot(a: bv8, b: bv8, j: nat)
    requires j < 8
    ensures Bit(a & !b, j) <==> Bit(a, j) && !Bit(b, j)
  {
  }

  lemma ConstantBits(j: nat)
    requires j < 8
    ensures Bit(0xff, j) && !Bit(0, j)
  {
  }
}
