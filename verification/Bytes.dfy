/** Machine integers, buffers and error results shared by every component. */
module Bytes {

  type byte = x: int | 0 <= x < 0x100
  type uint16 = x: int | 0 <= x < 0x1_0000
  type uint32 = x: int | 0 <= x < 0x1_0000_0000

  datatype Option<+T> = None | Some(value: T)

  datatype Result<+T, +E> = Ok(value: T) | Err(error: E)

  function Min(a: nat, b: nat): nat {
    if a <= b then a else b
  }

  /** Low and high byte of a 16-bit value. */
  function Low(x: uint16): byte { x % 0x100 }

  function High(x: uint16): byte { x / 0x100 }

  /** The 16-bit value of two bytes, most significant first. */
  function BigEndian(high: byte, low: byte): uint16 { high * 0x100 + low }
}
