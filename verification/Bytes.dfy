/** Bytes, and the small vocabulary the other modules share. */
module Bytes {

  newtype byte = x: int | 0 <= x < 256

  /** The descriptor type of an interface, and how many interfaces and endpoints the tables have room for. */
  const INTERFACE: byte := 4
  const MAX_INTERFACES := 32
  const MAX_ENDPOINTS := 32

  datatype Option<+T> = None | Some(value: T)

  function Min(a: int, b: int): int {
    if a <= b then a else b
  }

  /** The byte at `i` of a buffer that is followed by zeros. The descriptor code peeks at a two-byte header
      before it has checked that two bytes are left, so reads are total. */
  function At(b: seq<byte>, i: int): byte {
    if 0 <= i < |b| then b[i] else 0
  }

  /** A little-endian 16-bit field, as in the wTotalLength and wMaxPacketSize fields. */
  function Word(b: seq<byte>, i: int): (w: int)
    ensures 0 <= w < 0x1_0000
  {
    At(b, i) as int + 256 * At(b, i + 1) as int
  }

  function WordBytes(w: int): seq<byte>
    requires 0 <= w < 0x1_0000
  {
    [(w % 256) as byte, (w / 256) as byte]
  }
}
