/**
 * Fixed-width integer types of the boot stage (stage3/def.h) and the
 * character type of the console: a C `char` is one byte.
 */
module Machine {
  type u8 = x: int | 0 <= x < 0x100
  type u16 = x: int | 0 <= x < 0x1_0000
  type u32 = x: int | 0 <= x < 0x1_0000_0000
  type u64 = x: int | 0 <= x < 0x1_0000_0000_0000_0000

  /** A byte-sized character, as stored in a C `char`. */
  type Char8 = c: char | c as int < 0x100 witness ' '

  /** Truncation of an integer to 16 bits, as an assignment to a `u16` does. */
  function ToU16(x: int): (r: u16)
    ensures 0 <= x < 0x1_0000 ==> r == x
    ensures (r - x) % 0x1_0000 == 0
  {
    x % 0x1_0000
  }

  /** Counting up in 16 bits: one more after a truncation is one more, truncated. */
  lemma ToU16Succ(a: int)
    ensures ToU16(ToU16(a) + 1) == ToU16(a + 1)
  {
  }

  /** Conversion of an integer to 64 bits, as the cast `(usize)` does: a negative value wraps. */
  function ToU64(x: int): (r: u64)
    ensures 0 <= x < 0x1_0000_0000_0000_0000 ==> r == x
    ensures -0x1_0000_0000_0000_0000 <= x < 0 ==> r == x + 0x1_0000_0000_0000_0000
  {
    x % 0x1_0000_0000_0000_0000
  }

  /** 2 to the power k. */
  function Pow2(k: nat): (r: nat)
    ensures r >= 1
  {
    if k == 0 then 1 else 2 * Pow2(k - 1)
  }

  /** b to the power k. */
  function Pow(b: nat, k: nat): (r: nat)
    ensures b > 0 ==> r > 0
  {
    if k == 0 then 1 else b * Pow(b, k - 1)
  }
}
