/**
 * The values a scan record is made of: its bytes, and the advertising-data
 * record (AD structure) that the decoder builds from each length/type/payload
 * triple it reads.
 */
module AdRecords {

  /** One byte of a scan record, as its eight bits read unsigned (what `b & 0xFF` yields). */
  newtype Byte = x: int | 0 <= x < 256

  /** The value a Java `byte` with these bits holds: two's complement, so 0x80..0xFF are negative. */
  function Signed(b: Byte): (v: int)
    ensures -128 <= v <= 127
    ensures (v + 256) % 256 == b as int
    ensures v < 0 <==> b >= 0x80
    ensures v == 0 <==> b == 0
  {
    if b < 0x80 then b as int else b as int - 256
  }

  /** AD type of the complete local name (Bluetooth Core Specification Supplement, Part A, section 1.2). */
  const CompleteLocalNameType: int := 0x09

  /** AD type of the shortened local name (same section). */
  const ShortLocalNameType: int := 0x08

  /**
   * One decoded record: the length byte as read (it counts the type byte and
   * the payload), the type code, and the payload bytes.
   */
  datatype AdRecord = AdRecord(length: int, adType: int, data: seq<Byte>)
}
