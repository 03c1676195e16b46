/** Machine integers of the emulator and the bit idioms its sources use on them. */
module Bytes {
  type byte = x: int | 0 <= x < 0x100
  type word = x: int | 0 <= x < 0x1_0000

  /** A value converted to `uint8_t`. */
  function Byte(x: int): byte { x % 0x100 }

  /** A value converted to `uint16_t`. */
  function Word(x: int): word { x % 0x1_0000 }

  /** A 16-bit register k further up or down, wrapped. */
  function Up(w: word, k: nat): word
    requires k < 0x1_0000
  {
    if w + k < 0x1_0000 then w + k else w + k - 0x1_0000
  }

  function Down(w: word, k: nat): word
    requires k < 0x1_0000
  {
    if w >= k then w - k else w - k + 0x1_0000
  }

  /** A value converted to `int16_t`. */
  function Int16(x: int): int { (x + 0x8000) % 0x1_0000 - 0x8000 }

  /** The difference of two `uint32_t` values. */
  function Minus32(x: int, y: int): nat { (x - y) % 0x1_0000_0000 }

  /** The mask of bit n. */
  function Power2(n: nat): (p: nat)
    requires n < 8
    ensures p > 0
  {
    if n == 0 then 1 else if n == 1 then 2 else if n == 2 then 4 else if n == 3 then 8
    else if n == 4 then 16 else if n == 5 then 32 else if n == 6 then 64 else 128
  }

  /** `x & mask` is non-zero, for a mask of one bit. */
  predicate Has(x: nat, mask: nat)
    requires mask > 0
  {
    x / mask % 2 == 1
  }

  /** `x | mask`, for a mask of one bit. */
  function With(x: nat, mask: nat): nat
    requires mask > 0
  {
    if Has(x, mask) then x else x + mask
  }

  /** `x & ~mask`, for a mask of one bit. */
  function Clear(x: nat, mask: nat): nat
    requires mask > 0
  {
    if Has(x, mask) then x - mask else x
  }

  function MakeWord(hi: byte, lo: byte): word { hi * 0x100 + lo }
}
