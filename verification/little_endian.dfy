/** Fixed-width little-endian encoding of unsigned and two's-complement integers.
    The original delegates this to the host's bit converter, whose byte order is the
    machine's; the model fixes it to little-endian, the order of every common host. */
module LittleEndian {

  /** One octet of the buffer. */
  type uint8 = b: int | 0 <= b < 0x100

  /** 256 raised to `n`: the number of distinct values `n` bytes can hold. */
  function Pow256(n: nat): (r: nat)
    ensures r >= 1
  {
    if n == 0 then 1 else 0x100 * Pow256(n - 1)
  }

  /** Half the range of a `width`-byte integer: the bound of its signed interpretation. */
  function HalfRange(width: nat): (r: int)
    requires width >= 1
    ensures 2 * r == Pow256(width)
  {
    0x80 * Pow256(width - 1)
  }

  /** The value of a little-endian byte sequence: the first byte is the least significant. */
  function FromBytes(bytes: seq<uint8>): (n: nat)
    ensures n < Pow256(|bytes|)
  {
    if |bytes| == 0 then 0 else bytes[0] + 0x100 * FromBytes(bytes[1..])
  }

  /** The `width` little-endian bytes of `n`; the inverse of `FromBytes`. */
  function ToBytes(n: nat, width: nat): (bytes: seq<uint8>)
    requires n < Pow256(width)
    ensures |bytes| == width
    ensures FromBytes(bytes) == n
  {
    if width == 0 then [] else [n % 0x100] + ToBytes(n / 0x100, width - 1)
  }

  /** Every byte sequence is the encoding of its own value: the decoder loses nothing. */
  lemma {:induction false} ToBytesFromBytes(bytes: seq<uint8>)
    ensures ToBytes(FromBytes(bytes), |bytes|) == bytes
  {
    if |bytes| > 0 {
      var n, rest := FromBytes(bytes), FromBytes(bytes[1..]);
      assert n % 0x100 == bytes[0] && n / 0x100 == rest;
      ToBytesFromBytes(bytes[1..]);
      assert ToBytes(n, |bytes|) == [bytes[0]] + ToBytes(rest, |bytes| - 1);
      assert [bytes[0]] + bytes[1..] == bytes;
    }
  }

  /** Two byte sequences of the same width are equal exactly when their values are. */
  lemma FromBytesInjective(a: seq<uint8>, b: seq<uint8>)
    requires |a| == |b|
    ensures FromBytes(a) == FromBytes(b) <==> a == b
  {
    if FromBytes(a) == FromBytes(b) {
      ToBytesFromBytes(a);
      ToBytesFromBytes(b);
    }
  }

  /** The two's-complement bit pattern, as an unsigned number, of a signed `width`-byte integer. */
  function ToUnsigned(x: int, width: nat): (u: nat)
    requires width >= 1 && -HalfRange(width) <= x < HalfRange(width)
    ensures u < Pow256(width)
    ensures x >= 0 <==> u < HalfRange(width)
    ensures u == x || u == x + Pow256(width)
  {
    if x < 0 then x + Pow256(width) else x
  }

  /** The signed integer whose two's-complement pattern is `u`; the inverse of `ToUnsigned`. */
  function ToSigned(u: nat, width: nat): (x: int)
    requires width >= 1 && u < Pow256(width)
    ensures -HalfRange(width) <= x < HalfRange(width)
    ensures ToUnsigned(x, width) == u
  {
    if u < HalfRange(width) then u else u - Pow256(width)
  }

  lemma SignedRoundTrip(x: int, width: nat)
    requires width >= 1 && -HalfRange(width) <= x < HalfRange(width)
    ensures ToSigned(ToUnsigned(x, width), width) == x
  {
  }
}
