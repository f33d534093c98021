/** The machine's sizes: the largest values of its unsigned integers, and the page. */
module Sizes {
  const U16_MAX: nat := 0xFFFF
  const U32_MAX: nat := 0xFFFF_FFFF
  const U64_MAX: nat := 0xFFFF_FFFF_FFFF_FFFF
  const PAGE: nat := 4096
}
