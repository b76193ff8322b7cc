/** Single bits of a byte, as `|= _BV(k)`, `&= ~_BV(k)` and `& _BV(k)` handle them. */
module Bits {

  function Mask(bit: nat): bv8
    requires bit < 8
  {
    if bit == 0 then 0x01 else if bit == 1 then 0x02 else if bit == 2 then 0x04 else if bit == 3 then 0x08
    else if bit == 4 then 0x10 else if bit == 5 then 0x20 else if bit == 6 then 0x40 else 0x80
  }

  predicate IsSet(b: bv8, bit: nat)
    requires bit < 8
  {
    b & Mask(bit) != 0
  }

  function WithBit(b: bv8, bit: nat, value: bool): bv8
    requires bit < 8
  {
    if value then b | Mask(bit) else b & !Mask(bit)
  }

  lemma WithBitSelects(b: bv8, bit: nat, value: bool, other: nat)
    requires bit < 8 && other < 8
    ensures IsSet(WithBit(b, bit, value), other) == if other == bit then value else IsSet(b, other)
  {
  }
}
