/** Machine words and the small datatypes shared by every component. */
module Words {

  /** A 32-bit unsigned value. */
  type word = x: int | 0 <= x < 0x1_0000_0000

  /** Unsigned 32-bit arithmetic keeps the low 32 bits. */
  function Wrap(x: int): word {
    x % 0x1_0000_0000
  }

  datatype Option<+T> = None | Some(value: T)
}
