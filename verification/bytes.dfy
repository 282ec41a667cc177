/**
  Byte-level vocabulary of the converter: unsigned 8- and 16-bit values and the
  little-endian 16-bit field encoding used by the TGA header.
 */
module Bytes {

  /** An unsigned 8-bit value: Go's `byte`, C's `uint8_t`. */
  newtype byte = x: int | 0 <= x < 0x100

  /** An unsigned 16-bit value: Go's `uint16`, C's `uint16_t`. */
  newtype u16 = x: int | 0 <= x < 0x1_0000

  /**
    The two bytes `writeLE16` / `write_le16` emit for `value`: the low byte
    (`byte(value)`, `value & 0xFF`) and then `value >> 8`.
   */
  function Le16(value: u16): (r: seq<byte>)
    ensures |r| == 2
    ensures r[0] as int + 0x100 * r[1] as int == value as int
  {
    [(value % 0x100) as byte, (value / 0x100) as byte]
  }

  /** A reader's view of a little-endian 16-bit field. */
  function ReadLe16(lo: byte, hi: byte): (v: u16)
    ensures v as int == lo as int + 0x100 * hi as int
  {
    (lo as int + 0x100 * hi as int) as u16
  }

  /** Reading back what `Le16` wrote yields the value written. */
  lemma Le16RoundTrip(value: u16)
    ensures ReadLe16(Le16(value)[0], Le16(value)[1]) == value
  {
  }

  /** Writing what `ReadLe16` read reproduces the two bytes: the encoding is a bijection. */
  lemma ReadLe16RoundTrip(lo: byte, hi: byte)
    ensures Le16(ReadLe16(lo, hi)) == [lo, hi]
  {
    var v := ReadLe16(lo, hi);
    assert (v % 0x100) as int == lo as int;
    assert (v / 0x100) as int == hi as int;
  }
}
