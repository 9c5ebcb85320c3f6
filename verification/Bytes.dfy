/** Machine integers of the widths the protocols use, as ranges of `int`. */
module Bytes {
  type byte = b: int | 0 <= b < 0x100
  type u16 = w: int | 0 <= w < 0x1_0000

  function LowByte(w: u16): byte { w % 0x100 }
  function HighByte(w: u16): byte { w / 0x100 }

  function FromBytes(low: byte, high: byte): (w: u16)
    ensures LowByte(w) == low && HighByte(w) == high
  {
    low + 0x100 * high
  }

  function LeBytes(w: u16): (bytes: seq<byte>) { [LowByte(w), HighByte(w)] }
  function BeBytes(w: u16): (bytes: seq<byte>) { [HighByte(w), LowByte(w)] }
}

/** Optional values and results. */
module Wrappers {
  datatype Option<+T> = None | Some(value: T)

  datatype Result<+T, +E> = Ok(value: T) | Err(error: E)
}
