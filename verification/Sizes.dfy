/** The limits of the C types that the sources use. */
module Sizes {
  const SIZE_MAX: nat := 0xFFFF_FFFF_FFFF_FFFF
  const INT64_MAX: int := 0x7FFF_FFFF_FFFF_FFFF
  const INT64_MIN: int := -0x8000_0000_0000_0000
}
