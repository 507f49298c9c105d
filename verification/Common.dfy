/** Octets, 16-bit words and the one optional type the models share. */
module Common {
  type Byte = x: int | 0 <= x < 256
  type U16 = x: int | 0 <= x < 0x1_0000
  type Octets = seq<Byte>

  datatype Option<+T> = None | Some(value: T)

  /** The 16-bit word of a low and a high octet. */
  function Word16(lo: Byte, hi: Byte): U16 {
    lo as int + 256 * (hi as int)
  }

  /** The low and high octets of a 16-bit word. */
  function Lo(v: U16): Byte { v % 256 }

  function Hi(v: U16): Byte { v / 256 }
}
