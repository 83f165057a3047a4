/** Unsigned 64-bit words, which wrap around, and the signed reading a Lua integer gives them. */
module Uint64 {

  const TWO_TO_63: nat := 0x8000_0000_0000_0000
  const TWO_TO_64: nat := 0x1_0000_0000_0000_0000

  function Wrap64(n: int): nat { n % TWO_TO_64 }

  /** A Lua integer compares as signed. */
  function Signed(n: nat): int {
    if n < TWO_TO_63 then n else n - TWO_TO_64
  }
}
