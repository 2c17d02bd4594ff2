/** Unsigned integers of the widths the program uses. */
module Words {
  const TWO_32: nat := 0x1_0000_0000
  const TWO_64: nat := 0x1_0000_0000_0000_0000
  const TWO_256: nat := 0x1_0000000000000000_0000000000000000_0000000000000000_0000000000000000

  type U64 = n: nat | n < TWO_64
  type U256 = n: nat | n < TWO_256
}
