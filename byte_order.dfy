/**
  Little-endian packing of the integers a CAN payload carries.

  The server copies payload bytes into and out of `uint32_t` and `uint16_t`
  variables with memcpy, so the byte order is that of its little-endian
  target, the order the Python `struct` formats "<L" and "<H" produce.
*/
module ByteOrder {

  /** The four bytes of a 32-bit word, least significant first; they read back as the word. */
  function Le32(x: bv32): (b: seq<bv8>)
    ensures |b| == 4
    ensures FromLe32(b) == x
  {
    [(x & 0xFF) as bv8, ((x >> 8) & 0xFF) as bv8, ((x >> 16) & 0xFF) as bv8, (x >> 24) as bv8]
  }

  /**
    The 32-bit word whose little-endian bytes are `b`: byte k is the word's
    bits 8k to 8k+7, so the first byte on the wire is the least significant.
  */
  function FromLe32(b: seq<bv8>): (x: bv32)
    requires |b| == 4
    ensures x & 0xFF == b[0] as bv32
    ensures (x >> 8) & 0xFF == b[1] as bv32
    ensures (x >> 16) & 0xFF == b[2] as bv32
    ensures x >> 24 == b[3] as bv32
  {
    (b[0] as bv32) | ((b[1] as bv32) << 8) | ((b[2] as bv32) << 16) | ((b[3] as bv32) << 24)
  }

  /** The two bytes of a 16-bit word, least significant first; they read back as the word. */
  function Le16(x: bv16): (b: seq<bv8>)
    ensures |b| == 2
    ensures FromLe16(b) == x
  {
    [(x & 0xFF) as bv8, (x >> 8) as bv8]
  }

  /** The 16-bit word whose little-endian bytes are `b`, the first the least significant. */
  function FromLe16(b: seq<bv8>): (x: bv16)
    requires |b| == 2
    ensures x & 0xFF == b[0] as bv16
    ensures x >> 8 == b[1] as bv16
  {
    (b[0] as bv16) | ((b[1] as bv16) << 8)
  }

  /** Every four bytes are the encoding of the word they decode to. */
  lemma Le32FromLe32(b: seq<bv8>)
    requires |b| == 4
    ensures Le32(FromLe32(b)) == b
  {
  }

  /** Every two bytes are the encoding of the word they decode to. */
  lemma Le16FromLe16(b: seq<bv8>)
    requires |b| == 2
    ensures Le16(FromLe16(b)) == b
  {
  }
}
