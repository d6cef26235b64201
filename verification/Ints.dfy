/** The range of the source's 32-bit int. */
module Ints {
  const MIN_INT := -0x8000_0000
  const MAX_INT := 0x7FFF_FFFF
}
