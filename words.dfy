/** Machine words of the 32-bit target (ARMv7), where `sizeof(void *)` is 4. */
module Words {

  const WordBytes: nat := 4
  const Modulus: nat := 0x1_0000_0000

  /** A `uint32_t` value: an address or the contents of one memory word. */
  type Word = x: int | 0 <= x < Modulus

  /** The value a `uint32_t` expression takes: its mathematical value modulo 2^32. */
  function Wrap(x: int): (w: Word)
    ensures 0 <= x < Modulus ==> w == x
    ensures Modulus <= x < 2 * Modulus ==> w == x - Modulus
    ensures x < 0 <= x + Modulus ==> w == x + Modulus
  {
    x % Modulus
  }
}
