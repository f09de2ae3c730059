/** Machine integers of the 32-bit kernel: `long`, `size_t` and `word_t` are 32 bits wide. */
module Words {
  const TWO_32: int := 0x1_0000_0000

  type word = x: int | 0 <= x < 0x1_0000_0000

  type byte = x: int | 0 <= x < 256

  /** The value a 32-bit variable holds after x is stored in it. */
  function Wrap(x: int): word {
    x % 0x1_0000_0000
  }

  /** The word the kernel stores for the C constant -1. */
  const MINUS_ONE: word := 0xFFFF_FFFF

  /** The number of ttys. */
  const TTYS := 4
}
