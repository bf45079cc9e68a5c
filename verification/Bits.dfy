/** Bit masks made of single-bit values. */
module Bits {
  /** mask & bit != 0, for a single bit. */
  predicate Has(mask: nat, bit: nat)
    requires bit > 0
  {
    (mask / bit) % 2 == 1
  }

  /** 1 for true, to count conditions. */
  function OneIf(b: bool): nat {
    if b then 1 else 0
  }

  function If(b: bool, bit: nat): nat {
    if b then bit else 0
  }
}
