/** The limits of the machine integers the sources compute with. */
module FixedWidth {
  const TWO_31: int := 0x8000_0000
  const TWO_32: int := 0x1_0000_0000
  const TWO_64: int := 0x1_0000_0000_0000_0000
}
