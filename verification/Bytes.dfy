/** Single bits of a byte. */
module Bytes {

  function Power(k: nat): bv8
    requires k < 8
  {
    if k == 0 then 1 else if k == 1 then 2 else if k == 2 then 4 else if k == 3 then 8
    else if k == 4 then 16 else if k == 5 then 32 else if k == 6 then 64 else 128
  }

  predicate HasBit(b: bv8, k: nat)
    requires k < 8
  {
    b & Power(k) != 0
  }

  /** Setting or clearing bit k touches no other bit. */
  lemma SetBits(b: bv8, k: nat, j: nat)
    requires k < 8 && j < 8
    ensures HasBit(b | Power(k), j) <==> (j == k || HasBit(b, j))
    ensures HasBit(b & !Power(k), j) <==> (j != k && HasBit(b, j))
  {
  }

  lemma OneBit(a: bv8, p: bv8)
    requires p == 1 || p == 2 || p == 4 || p == 8 || p == 16 || p == 32 || p == 64 || p == 128
    ensures a & p == 0 || a & p == p
  {
  }
}
