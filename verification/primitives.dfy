/** The primitive value types a stream carries and their fixed-width encodings
    (src/serializer/serializer.cs:67-142 and 158-176). Floating-point values are
    kept as their raw IEEE-754 bit patterns: the stream copies bits and never
    interprets them, so equality of patterns is the round-trip notion. */
module Primitives {
  import opened LittleEndian
  import Utf8

  type int16 = x: int | -0x8000 <= x < 0x8000
  type int32 = x: int | -0x8000_0000 <= x < 0x8000_0000
  type int64 = x: int | -0x8000_0000_0000_0000 <= x < 0x8000_0000_0000_0000

  /** IEEE-754 single precision, as its 32-bit pattern. */
  type float32 = bits: int | 0 <= bits < 0x1_0000_0000
  /** IEEE-754 double precision, as its 64-bit pattern. */
  type float64 = bits: int | 0 <= bits < 0x1_0000_0000_0000_0000

  /** Three single-precision components, written and read in X, Y, Z order. */
  datatype Vector3 = Vector3(x: float32, y: float32, z: float32)

  // Encoded widths: sizeof(T) of the original's element types.
  const BOOL_SIZE: nat := 1
  const BYTE_SIZE: nat := 1
  const SHORT_SIZE: nat := 2
  const INT_SIZE: nat := 4
  const LONG_SIZE: nat := 8
  const FLOAT_SIZE: nat := 4
  const DOUBLE_SIZE: nat := 8
  const VECTOR3_SIZE: nat := 3 * FLOAT_SIZE

  /** A boolean is one byte: 1 for true, 0 for false. */
  function EncodeBool(v: bool): (r: seq<uint8>)
    ensures |r| == BOOL_SIZE && DecodeBool(r) == v
  {
    [if v then 1 else 0]
  }

  /** Any non-zero byte reads back as true, as the host's converter does. */
  function DecodeBool(bytes: seq<uint8>): (b: bool)
    requires |bytes| == BOOL_SIZE
    ensures b <==> bytes != [0]
  {
    bytes[0] != 0
  }

  function EncodeByte(v: uint8): (r: seq<uint8>)
    ensures |r| == BYTE_SIZE && DecodeByte(r) == v
  {
    [v]
  }

  function DecodeByte(bytes: seq<uint8>): (v: uint8)
    requires |bytes| == BYTE_SIZE
    ensures [v] == bytes
  {
    bytes[0]
  }

  function EncodeShort(v: int16): (r: seq<uint8>)
    ensures |r| == SHORT_SIZE && DecodeShort(r) == v
  {
    ToBytes(ToUnsigned(v, SHORT_SIZE), SHORT_SIZE)
  }

  /** The signed value whose little-endian two's-complement pattern the bytes are, as
      the host's converter reads it; the int and long decoders are alike. */
  function DecodeShort(bytes: seq<uint8>): (v: int16)
    requires |bytes| == SHORT_SIZE
    ensures ToBytes(ToUnsigned(v, SHORT_SIZE), SHORT_SIZE) == bytes
  {
    ToBytesFromBytes(bytes);
    ToSigned(FromBytes(bytes), SHORT_SIZE)
  }

  function EncodeInt(v: int32): (r: seq<uint8>)
    ensures |r| == INT_SIZE && DecodeInt(r) == v
  {
    ToBytes(ToUnsigned(v, INT_SIZE), INT_SIZE)
  }

  function DecodeInt(bytes: seq<uint8>): (v: int32)
    requires |bytes| == INT_SIZE
    ensures ToBytes(ToUnsigned(v, INT_SIZE), INT_SIZE) == bytes
  {
    ToBytesFromBytes(bytes);
    ToSigned(FromBytes(bytes), INT_SIZE)
  }

  function EncodeLong(v: int64): (r: seq<uint8>)
    ensures |r| == LONG_SIZE && DecodeLong(r) == v
  {
    ToBytes(ToUnsigned(v, LONG_SIZE), LONG_SIZE)
  }

  function DecodeLong(bytes: seq<uint8>): (v: int64)
    requires |bytes| == LONG_SIZE
    ensures ToBytes(ToUnsigned(v, LONG_SIZE), LONG_SIZE) == bytes
  {
    ToBytesFromBytes(bytes);
    ToSigned(FromBytes(bytes), LONG_SIZE)
  }

  function EncodeFloat(v: float32): (r: seq<uint8>)
    ensures |r| == FLOAT_SIZE && DecodeFloat(r) == v
  {
    ToBytes(v, FLOAT_SIZE)
  }

  /** The bit pattern the bytes spell, least significant byte first. */
  function DecodeFloat(bytes: seq<uint8>): (v: float32)
    requires |bytes| == FLOAT_SIZE
    ensures ToBytes(v, FLOAT_SIZE) == bytes
  {
    ToBytesFromBytes(bytes);
    FromBytes(bytes)
  }

  function EncodeDouble(v: float64): (r: seq<uint8>)
    ensures |r| == DOUBLE_SIZE && DecodeDouble(r) == v
  {
    ToBytes(v, DOUBLE_SIZE)
  }

  function DecodeDouble(bytes: seq<uint8>): (v: float64)
    requires |bytes| == DOUBLE_SIZE
    ensures ToBytes(v, DOUBLE_SIZE) == bytes
  {
    ToBytesFromBytes(bytes);
    FromBytes(bytes)
  }

  /** X, then Y, then Z, each a four-byte float, with no prefix or separator. */
  function EncodeVector3(v: Vector3): (r: seq<uint8>)
    ensures |r| == VECTOR3_SIZE
    ensures r[..FLOAT_SIZE] == EncodeFloat(v.x)
    ensures r[FLOAT_SIZE..2 * FLOAT_SIZE] == EncodeFloat(v.y)
    ensures r[2 * FLOAT_SIZE..] == EncodeFloat(v.z)
  {
    EncodeFloat(v.x) + EncodeFloat(v.y) + EncodeFloat(v.z)
  }

  /** The largest string payload a four-byte signed length prefix can announce. */
  const INT32_MAX: nat := 0x7FFF_FFFF

  /** A string whose UTF-8 form fits the length prefix. For a longer one the original
      has already appended the four-byte prefix when the encoder throws, leaving that
      prefix behind in the buffer; the model does not represent that state. */
  predicate EncodableString(v: string) {
    |Utf8.Encode(v)| <= INT32_MAX
  }

  /** A four-byte prefix holding the number of UTF-8 bytes (not characters), then those bytes. */
  function EncodeString(v: string): (r: seq<uint8>)
    requires EncodableString(v)
    ensures |r| == INT_SIZE + |Utf8.Encode(v)|
    ensures DecodeInt(r[..INT_SIZE]) == |Utf8.Encode(v)|
    ensures r[INT_SIZE..] == Utf8.Encode(v)
  {
    EncodeInt(|Utf8.Encode(v)|) + Utf8.Encode(v)
  }

  /** The boolean exception in full: the byte 2 reads as true, which is written back as 1. */
  lemma NonCanonicalBool()
    ensures DecodeBool([2]) && EncodeBool(DecodeBool([2])) == [1]
  {
  }

  /** For shorts, ints, longs, floats and doubles, every byte pattern of the type's width
      is the encoding of the value it decodes to, so such a read never sees bytes that no
      write produces. Booleans are the exception: a byte other than 0 or 1 reads as true
      and is written back as 1. */
  lemma DecodeThenEncode(bytes: seq<uint8>)
    ensures |bytes| == SHORT_SIZE ==> EncodeShort(DecodeShort(bytes)) == bytes
    ensures |bytes| == INT_SIZE ==> EncodeInt(DecodeInt(bytes)) == bytes
    ensures |bytes| == LONG_SIZE ==> EncodeLong(DecodeLong(bytes)) == bytes
    ensures |bytes| == FLOAT_SIZE ==> EncodeFloat(DecodeFloat(bytes)) == bytes
    ensures |bytes| == DOUBLE_SIZE ==> EncodeDouble(DecodeDouble(bytes)) == bytes
  {
    ToBytesFromBytes(bytes);
  }
}
