/** The 32-bit unsigned arithmetic of the target: `unsigned int` and
    `unsigned long` both have 32 bits on the Cortex-M4. */
module Word32 {
  const MOD: int := 0x1_0000_0000

  type Word = x: int | 0 <= x < 0x1_0000_0000

  /** The C operator `~`. */
  function Complement(x: Word): Word {
    MOD - 1 - x
  }

  /** The C operator `+`, which wraps. */
  function Add(x: Word, y: Word): Word {
    (x + y) % MOD
  }
}
