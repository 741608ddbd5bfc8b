/** The binary stream: a growable byte buffer with a read cursor
    (`BinarySerializeStream`, src/serializer/serializer.cs:34-177).
    The mutable object becomes an immutable state; every setter returns the extended
    state and every getter returns the advanced state with the value read, or
    `Err(OutOfRange)` when too few bytes remain. A failed read returns no state, so a
    caller keeps the stream it had before the read. */
module BinaryStream {
  import opened Wrappers
  import opened LittleEndian
  import opened Primitives
  import Utf8

  /** The buffer (`Bytes`) and the read cursor (`Offset`). */
  datatype Stream = Stream(bytes: seq<uint8>, offset: nat) {
    /** The cursor never points past the end of the buffer. */
    predicate Valid() {
      offset <= |bytes|
    }
  }

  /** `r` is `s` with `enc` appended: earlier bytes and the cursor are untouched. */
  predicate Appended(s: Stream, r: Stream, enc: seq<uint8>) {
    r.bytes == s.bytes + enc && r.offset == s.offset
  }

  /** `r` is `s` with the cursor moved `width` bytes forward and the buffer untouched. */
  predicate Advanced(s: Stream, r: Stream, width: nat) {
    r.bytes == s.bytes && r.offset == s.offset + width && r.Valid()
  }

  /** The bytes between the cursor and the end of the buffer. */
  function Unread(s: Stream): seq<uint8>
    requires s.Valid()
  {
    s.bytes[s.offset..]
  }

  /** A fresh, empty stream for writing. */
  function New(): (s: Stream)
    ensures s.Valid() && |s.bytes| == 0 && s.offset == 0
  {
    Stream([], 0)
  }

  /** A stream over existing data, ready to be read from its start. */
  function FromData(data: seq<uint8>): (s: Stream)
    ensures s.Valid() && s.bytes == data && s.offset == 0 && Unread(s) == data
  {
    Stream(data, 0)
  }

  /** Empties the buffer and rewinds the cursor. */
  function Clear(s: Stream): (r: Stream)
    ensures r.Valid() && |r.bytes| == 0 && r.offset == 0
  {
    New()
  }

  /** Rewinds the cursor to the start without touching the buffer. */
  function Reset(s: Stream): (r: Stream)
    ensures r.Valid() && r.bytes == s.bytes && r.offset == 0
    ensures Unread(r) == s.bytes
  {
    s.(offset := 0)
  }

  /** A snapshot of the buffer's contents; values share nothing, so the copy is the value. */
  function ByteData(s: Stream): (data: seq<uint8>)
    ensures data == s.bytes
  {
    s.bytes
  }

  /** Rewinding twice is rewinding once, and rewinding a rewound stream changes nothing. */
  lemma ResetIdempotent(s: Stream)
    ensures Reset(Reset(s)) == Reset(s)
    ensures s.offset == 0 ==> Reset(s) == s
  {
  }

  lemma ConcatAssoc<T>(a: seq<T>, b: seq<T>, c: seq<T>)
    ensures (a + b) + c == a + (b + c)
  {
  }

  function Append(s: Stream, enc: seq<uint8>): (r: Stream)
    ensures Appended(s, r, enc)
    ensures s.Valid() ==> r.Valid()
  {
    s.(bytes := s.bytes + enc)
  }

  /** The `width` bytes at the cursor and the stream advanced past them. */
  function Take(s: Stream, width: nat): (r: Result<(Stream, seq<uint8>)>)
    ensures r.Ok? <==> s.offset + width <= |s.bytes|
    ensures r.Ok? ==> Advanced(s, r.value.0, width)
    ensures r.Ok? ==> r.value.1 == s.bytes[s.offset..s.offset + width]
  {
    if s.offset + width > |s.bytes| then Err(OutOfRange)
    else Ok((s.(offset := s.offset + width), s.bytes[s.offset..s.offset + width]))
  }

  // ----- Setters: each appends the value's encoding and never fails.

  function SetBool(s: Stream, v: bool): (r: Stream)
    ensures Appended(s, r, EncodeBool(v)) && |r.bytes| == |s.bytes| + BOOL_SIZE
  {
    Append(s, EncodeBool(v))
  }

  function SetByte(s: Stream, v: uint8): (r: Stream)
    ensures Appended(s, r, EncodeByte(v)) && |r.bytes| == |s.bytes| + BYTE_SIZE
  {
    Append(s, EncodeByte(v))
  }

  function SetShort(s: Stream, v: int16): (r: Stream)
    ensures Appended(s, r, EncodeShort(v)) && |r.bytes| == |s.bytes| + SHORT_SIZE
  {
    Append(s, EncodeShort(v))
  }

  function SetInt(s: Stream, v: int32): (r: Stream)
    ensures Appended(s, r, EncodeInt(v)) && |r.bytes| == |s.bytes| + INT_SIZE
  {
    Append(s, EncodeInt(v))
  }

  function SetLong(s: Stream, v: int64): (r: Stream)
    ensures Appended(s, r, EncodeLong(v)) && |r.bytes| == |s.bytes| + LONG_SIZE
  {
    Append(s, EncodeLong(v))
  }

  function SetFloat(s: Stream, v: float32): (r: Stream)
    ensures Appended(s, r, EncodeFloat(v)) && |r.bytes| == |s.bytes| + FLOAT_SIZE
  {
    Append(s, EncodeFloat(v))
  }

  function SetDouble(s: Stream, v: float64): (r: Stream)
    ensures Appended(s, r, EncodeDouble(v)) && |r.bytes| == |s.bytes| + DOUBLE_SIZE
  {
    Append(s, EncodeDouble(v))
  }

  function SetString(s: Stream, v: string): (r: Stream)
    requires EncodableString(v)
    ensures Appended(s, r, EncodeString(v))
    ensures |r.bytes| == |s.bytes| + INT_SIZE + |Utf8.Encode(v)|
  {
    Append(s, EncodeString(v))
  }

  function SetVector3(s: Stream, v: Vector3): (r: Stream)
    ensures Appended(s, r, EncodeVector3(v)) && |r.bytes| == |s.bytes| + VECTOR3_SIZE
    ensures r == SetFloat(SetFloat(SetFloat(s, v.x), v.y), v.z)
  {
    ConcatAssoc(s.bytes, EncodeFloat(v.x), EncodeFloat(v.y));
    ConcatAssoc(s.bytes + EncodeFloat(v.x), EncodeFloat(v.y), EncodeFloat(v.z));
    ConcatAssoc(s.bytes, EncodeFloat(v.x) + EncodeFloat(v.y), EncodeFloat(v.z));
    Append(s, EncodeVector3(v))
  }

  // ----- Getters: each fails exactly when fewer than its width remain, and otherwise
  // advances past those bytes and returns the value they decode to. Except for
  // booleans, whose non-zero bytes all read as true, that value's encoding is exactly
  // the bytes read.

  function GetBool(s: Stream): (r: Result<(Stream, bool)>)
    ensures r.Err? <==> s.offset + BOOL_SIZE > |s.bytes|
    ensures r.Ok? ==> Advanced(s, r.value.0, BOOL_SIZE)
    ensures r.Ok? ==> (r.value.1 <==> s.bytes[s.offset] != 0)
  {
    var (t, b) :- Take(s, BOOL_SIZE);
    Ok((t, DecodeBool(b)))
  }

  function GetByte(s: Stream): (r: Result<(Stream, uint8)>)
    ensures r.Err? <==> s.offset + BYTE_SIZE > |s.bytes|
    ensures r.Ok? ==> Advanced(s, r.value.0, BYTE_SIZE)
    ensures r.Ok? ==> r.value.1 == s.bytes[s.offset]
  {
    var (t, b) :- Take(s, BYTE_SIZE);
    Ok((t, DecodeByte(b)))
  }

  function GetShort(s: Stream): (r: Result<(Stream, int16)>)
    ensures r.Err? <==> s.offset + SHORT_SIZE > |s.bytes|
    ensures r.Ok? ==> Advanced(s, r.value.0, SHORT_SIZE)
    ensures r.Ok? ==> EncodeShort(r.value.1) == s.bytes[s.offset..s.offset + SHORT_SIZE]
  {
    var (t, b) :- Take(s, SHORT_SIZE);
    DecodeThenEncode(b);
    Ok((t, DecodeShort(b)))
  }

  function GetInt(s: Stream): (r: Result<(Stream, int32)>)
    ensures r.Err? <==> s.offset + INT_SIZE > |s.bytes|
    ensures r.Ok? ==> Advanced(s, r.value.0, INT_SIZE)
    ensures r.Ok? ==> EncodeInt(r.value.1) == s.bytes[s.offset..s.offset + INT_SIZE]
  {
    var (t, b) :- Take(s, INT_SIZE);
    DecodeThenEncode(b);
    Ok((t, DecodeInt(b)))
  }

  function GetLong(s: Stream): (r: Result<(Stream, int64)>)
    ensures r.Err? <==> s.offset + LONG_SIZE > |s.bytes|
    ensures r.Ok? ==> Advanced(s, r.value.0, LONG_SIZE)
    ensures r.Ok? ==> EncodeLong(r.value.1) == s.bytes[s.offset..s.offset + LONG_SIZE]
  {
    var (t, b) :- Take(s, LONG_SIZE);
    DecodeThenEncode(b);
    Ok((t, DecodeLong(b)))
  }

  function GetFloat(s: Stream): (r: Result<(Stream, float32)>)
    ensures r.Err? <==> s.offset + FLOAT_SIZE > |s.bytes|
    ensures r.Ok? ==> Advanced(s, r.value.0, FLOAT_SIZE)
    ensures r.Ok? ==> EncodeFloat(r.value.1) == s.bytes[s.offset..s.offset + FLOAT_SIZE]
  {
    var (t, b) :- Take(s, FLOAT_SIZE);
    DecodeThenEncode(b);
    Ok((t, DecodeFloat(b)))
  }

  function GetDouble(s: Stream): (r: Result<(Stream, float64)>)
    ensures r.Err? <==> s.offset + DOUBLE_SIZE > |s.bytes|
    ensures r.Ok? ==> Advanced(s, r.value.0, DOUBLE_SIZE)
    ensures r.Ok? ==> EncodeDouble(r.value.1) == s.bytes[s.offset..s.offset + DOUBLE_SIZE]
  {
    var (t, b) :- Take(s, DOUBLE_SIZE);
    DecodeThenEncode(b);
    Ok((t, DecodeDouble(b)))
  }

  /** The signed length prefix stored at the cursor. */
  function PrefixAt(s: Stream): (n: int32)
    requires s.offset + INT_SIZE <= |s.bytes|
    ensures EncodeInt(n) == s.bytes[s.offset..s.offset + INT_SIZE]
  {
    DecodeInt(s.bytes[s.offset..s.offset + INT_SIZE])
  }

  /** Reads the prefix, then exactly that many bytes, decoded as UTF-8. A negative
      prefix, or one that claims more bytes than remain, is out of range. */
  function GetString(s: Stream): (r: Result<(Stream, string)>)
    ensures r.Err? <==>
      || s.offset + INT_SIZE > |s.bytes|
      || PrefixAt(s) < 0
      || s.offset + INT_SIZE + PrefixAt(s) > |s.bytes|
    ensures r.Ok? ==> PrefixAt(s) >= 0 && Advanced(s, r.value.0, INT_SIZE + PrefixAt(s))
    ensures r.Ok? ==>
      r.value.1 == Utf8.Decode(s.bytes[s.offset + INT_SIZE..s.offset + INT_SIZE + PrefixAt(s)])
  {
    if s.offset + INT_SIZE > |s.bytes| then Err(OutOfRange)
    else
      var length := PrefixAt(s);
      if length < 0 then Err(OutOfRange)
      else
        var (u, payload) :- Take(Stream(s.bytes, s.offset + INT_SIZE), length);
        Ok((u, Utf8.Decode(payload)))
  }

  /** Reads X, then Y, then Z. */
  function GetVector3(s: Stream): (r: Result<(Stream, Vector3)>)
    ensures r.Err? <==> s.offset + VECTOR3_SIZE > |s.bytes|
    ensures r.Ok? ==> Advanced(s, r.value.0, VECTOR3_SIZE)
    ensures r.Ok? ==> EncodeVector3(r.value.1) == s.bytes[s.offset..s.offset + VECTOR3_SIZE]
  {
    var (t1, x) :- GetFloat(s);
    var (t2, y) :- GetFloat(t1);
    var (t3, z) :- GetFloat(t2);
    Ok((t3, Vector3(x, y, z)))
  }

  // ----- Round trips: a getter applied to the encoding of a value returns that value
  // and advances the cursor by exactly the encoding's width.

  /** The bytes at the cursor are `enc`. */
  predicate EncodedAt(s: Stream, enc: seq<uint8>) {
    s.offset + |enc| <= |s.bytes| && s.bytes[s.offset..s.offset + |enc|] == enc
  }

  /** The stream after the cursor has moved past `enc`. */
  function Skip(s: Stream, enc: seq<uint8>): Stream {
    Stream(s.bytes, s.offset + |enc|)
  }

  lemma GetBoolEncoded(s: Stream, v: bool)
    requires EncodedAt(s, EncodeBool(v))
    ensures GetBool(s) == Ok((Skip(s, EncodeBool(v)), v))
  {
    assert s.bytes[s.offset] == EncodeBool(v)[0];
  }

  lemma GetByteEncoded(s: Stream, v: uint8)
    requires EncodedAt(s, EncodeByte(v))
    ensures GetByte(s) == Ok((Skip(s, EncodeByte(v)), v))
  {
    assert s.bytes[s.offset] == EncodeByte(v)[0];
  }

  lemma GetShortEncoded(s: Stream, v: int16)
    requires EncodedAt(s, EncodeShort(v))
    ensures GetShort(s) == Ok((Skip(s, EncodeShort(v)), v))
  {
    assert DecodeShort(EncodeShort(GetShort(s).value.1)) == DecodeShort(EncodeShort(v));
  }

  lemma GetIntEncoded(s: Stream, v: int32)
    requires EncodedAt(s, EncodeInt(v))
    ensures GetInt(s) == Ok((Skip(s, EncodeInt(v)), v))
  {
    assert DecodeInt(EncodeInt(GetInt(s).value.1)) == DecodeInt(EncodeInt(v));
  }

  lemma GetLongEncoded(s: Stream, v: int64)
    requires EncodedAt(s, EncodeLong(v))
    ensures GetLong(s) == Ok((Skip(s, EncodeLong(v)), v))
  {
    assert DecodeLong(EncodeLong(GetLong(s).value.1)) == DecodeLong(EncodeLong(v));
  }

  lemma GetFloatEncoded(s: Stream, v: float32)
    requires EncodedAt(s, EncodeFloat(v))
    ensures GetFloat(s) == Ok((Skip(s, EncodeFloat(v)), v))
  {
    assert DecodeFloat(EncodeFloat(GetFloat(s).value.1)) == DecodeFloat(EncodeFloat(v));
  }

  lemma GetDoubleEncoded(s: Stream, v: float64)
    requires EncodedAt(s, EncodeDouble(v))
    ensures GetDouble(s) == Ok((Skip(s, EncodeDouble(v)), v))
  {
    assert DecodeDouble(EncodeDouble(GetDouble(s).value.1)) == DecodeDouble(EncodeDouble(v));
  }

  lemma GetVector3Encoded(s: Stream, v: Vector3)
    requires EncodedAt(s, EncodeVector3(v))
    ensures GetVector3(s) == Ok((Skip(s, EncodeVector3(v)), v))
  {
    var w := GetVector3(s).value.1;
    assert EncodeVector3(w) == EncodeVector3(v);
    assert DecodeFloat(EncodeFloat(w.x)) == DecodeFloat(EncodeFloat(v.x));
    assert DecodeFloat(EncodeFloat(w.y)) == DecodeFloat(EncodeFloat(v.y));
    assert DecodeFloat(EncodeFloat(w.z)) == DecodeFloat(EncodeFloat(v.z));
  }

  /** The string round trip holds for every encodable text, including text outside
      ASCII, because the prefix counts UTF-8 bytes. */
  lemma GetStringEncoded(s: Stream, v: string)
    requires EncodableString(v) && EncodedAt(s, EncodeString(v))
    ensures GetString(s) == Ok((Skip(s, EncodeString(v)), v))
  {
    // Solver economy only: hides definitions this proof does not unfold.
    hide Utf8.Decode, Utf8.Encode;
    var payload := Utf8.Encode(v);
    var prefix := EncodeInt(|payload|);
    assert EncodeString(v) == prefix + payload;
    EncodedAtConcat(s, prefix, payload);
    GetIntEncoded(s, |payload|);
    Utf8.DecodeEncode(v);
  }

  /** A rewound stream holds its whole buffer at the cursor, and skipping it reaches the end. */
  lemma ResetEncoded(s: Stream)
    ensures EncodedAt(Reset(s), s.bytes)
    ensures Skip(Reset(s), s.bytes) == Stream(s.bytes, |s.bytes|)
  {
    assert s.bytes[0..|s.bytes|] == s.bytes;
  }

  /** When `a + b` sits at the cursor, `a` sits at the cursor and `b` right after it. */
  lemma EncodedAtConcat(s: Stream, a: seq<uint8>, b: seq<uint8>)
    requires EncodedAt(s, a + b)
    ensures EncodedAt(s, a) && EncodedAt(Skip(s, a), b)
  {
    assert s.bytes[s.offset..s.offset + |a|] == (a + b)[..|a|];
    assert s.bytes[s.offset + |a|..s.offset + |a| + |b|] == (a + b)[|a|..];
  }
}
