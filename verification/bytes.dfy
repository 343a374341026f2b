/** Bytes and the big-endian unsigned 16-bit fields of a BMS response. */
module Bytes {

  /** One octet of a BLE response or command. */
  type byte = x: int | 0 <= x < 256

  /** One more than the largest unsigned 16-bit value. */
  const U16Limit: nat := 0x1_0000

  /** The value of the two bytes `hi lo` read as an unsigned big-endian 16-bit integer
      (Python's `struct.unpack('>H', ...)`): `hi` is its high byte and `lo` its low byte. */
  function U16BE(hi: byte, lo: byte): (v: nat)
    ensures v < U16Limit
    ensures v / 256 == hi && v % 256 == lo
  {
    hi * 256 + lo
  }

  /** The high byte of a 16-bit value. */
  function HighByte(v: nat): (b: byte)
    requires v < U16Limit
    ensures b * 256 <= v < b * 256 + 256
  {
    v / 256
  }

  /** The low byte of a 16-bit value. */
  function LowByte(v: nat): (b: byte)
    ensures (v - b) % 256 == 0
  {
    v % 256
  }

  /** Splitting a 16-bit value into its two bytes and reading them back is the identity. */
  lemma SplitJoin(v: nat)
    requires v < U16Limit
    ensures U16BE(HighByte(v), LowByte(v)) == v
  {
  }

  /** Reading two bytes and splitting the value again gives back the same two bytes. */
  lemma JoinSplit(hi: byte, lo: byte)
    ensures HighByte(U16BE(hi, lo)) == hi && LowByte(U16BE(hi, lo)) == lo
  {
  }
}
