/** Bytes on the wire and the 16-bit block numbers carried in network byte order. */
module Bytes {

  newtype byte = x: int | 0 <= x < 256

  type Bytes = seq<byte>

  /** Largest value plus one of an unsigned 16-bit integer. */
  const U16Limit: nat := 0x1_0000

  /** The first two bytes read as an unsigned 16-bit integer in network (big-endian) byte order. */
  function DecodeU16(b: Bytes): (n: nat)
    requires |b| >= 2
    ensures n < U16Limit
    ensures n / 256 == b[0] as int && n % 256 == b[1] as int
  {
    b[0] as int * 256 + b[1] as int
  }

  /** A number below 65536 packed as two bytes in network byte order, most significant first. */
  function EncodeU16(n: nat): (b: Bytes)
    requires n < U16Limit
    ensures |b| == 2
    ensures b[0] as int * 256 + b[1] as int == n
  {
    [(n / 256) as byte, (n % 256) as byte]
  }

  /** A complaint the splitter decodes names the slot that was encoded. */
  lemma DecodeEncode(n: nat)
    requires n < U16Limit
    ensures DecodeU16(EncodeU16(n)) == n
  {
  }

  /** Every two-byte header is the encoding of the number it decodes to. */
  lemma EncodeDecode(b: Bytes)
    requires |b| == 2
    ensures EncodeU16(DecodeU16(b)) == b
  {
    var n := DecodeU16(b);
    assert EncodeU16(n)[0] == b[0] && EncodeU16(n)[1] == b[1];
  }
}
