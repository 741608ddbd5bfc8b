/** Heterogeneous sequences of writes and reads: the law the self-describing object
    contract rests on (src/serializer/serializer.cs:28-32). The wire carries no type
    tags, so a reader names the type of each value it expects; reading the same types
    in the order they were written gives back the values written. */
module Sequencing {
  import opened Wrappers
  import opened LittleEndian
  import opened Primitives
  import opened BinaryStream
  import Utf8

  /** One value of any type the stream supports. */
  datatype Value =
    | BoolValue(b: bool)
    | ByteValue(u: uint8)
    | ShortValue(h: int16)
    | IntValue(i: int32)
    | LongValue(l: int64)
    | FloatValue(f: float32)
    | DoubleValue(d: float64)
    | StringValue(s: string)
    | Vector3Value(v: Vector3)

  /** The type a reader asks for: the only schema the wire format has. */
  datatype Kind = BoolKind | ByteKind | ShortKind | IntKind | LongKind
                | FloatKind | DoubleKind | StringKind | Vector3Kind

  function KindOf(v: Value): Kind {
    match v
    case BoolValue(_) => BoolKind
    case ByteValue(_) => ByteKind
    case ShortValue(_) => ShortKind
    case IntValue(_) => IntKind
    case LongValue(_) => LongKind
    case FloatValue(_) => FloatKind
    case DoubleValue(_) => DoubleKind
    case StringValue(_) => StringKind
    case Vector3Value(_) => Vector3Kind
  }

  function KindsOf(vs: seq<Value>): (ks: seq<Kind>)
    ensures |ks| == |vs|
    ensures forall i :: 0 <= i < |vs| ==> ks[i] == KindOf(vs[i])
  {
    if |vs| == 0 then [] else [KindOf(vs[0])] + KindsOf(vs[1..])
  }

  /** Every value can be written except a string too long for its prefix. */
  predicate Writable(v: Value) {
    v.StringValue? ==> EncodableString(v.s)
  }

  predicate AllWritable(vs: seq<Value>) {
    forall i :: 0 <= i < |vs| ==> Writable(vs[i])
  }

  /** The bytes one value occupies on the wire. */
  function Encode(v: Value): seq<uint8>
    requires Writable(v)
  {
    match v
    case BoolValue(b) => EncodeBool(b)
    case ByteValue(u) => EncodeByte(u)
    case ShortValue(h) => EncodeShort(h)
    case IntValue(i) => EncodeInt(i)
    case LongValue(l) => EncodeLong(l)
    case FloatValue(f) => EncodeFloat(f)
    case DoubleValue(d) => EncodeDouble(d)
    case StringValue(s) => EncodeString(s)
    case Vector3Value(x) => EncodeVector3(x)
  }

  /** The bytes of a sequence of values: their encodings, back to back. */
  function EncodeAll(vs: seq<Value>): seq<uint8>
    requires AllWritable(vs)
  {
    if |vs| == 0 then [] else Encode(vs[0]) + EncodeAll(vs[1..])
  }

  /** The setter for the value's own type. */
  function Write(s: Stream, v: Value): (r: Stream)
    requires Writable(v)
    ensures Appended(s, r, Encode(v))
  {
    match v
    case BoolValue(b) => SetBool(s, b)
    case ByteValue(u) => SetByte(s, u)
    case ShortValue(h) => SetShort(s, h)
    case IntValue(i) => SetInt(s, i)
    case LongValue(l) => SetLong(s, l)
    case FloatValue(f) => SetFloat(s, f)
    case DoubleValue(d) => SetDouble(s, d)
    case StringValue(t) => SetString(s, t)
    case Vector3Value(x) => SetVector3(s, x)
  }

  /** The getter for the requested type. */
  function Read(s: Stream, k: Kind): Result<(Stream, Value)>
  {
    match k
    case BoolKind => var (t, b) :- GetBool(s); Ok((t, BoolValue(b)))
    case ByteKind => var (t, u) :- GetByte(s); Ok((t, ByteValue(u)))
    case ShortKind => var (t, h) :- GetShort(s); Ok((t, ShortValue(h)))
    case IntKind => var (t, i) :- GetInt(s); Ok((t, IntValue(i)))
    case LongKind => var (t, l) :- GetLong(s); Ok((t, LongValue(l)))
    case FloatKind => var (t, f) :- GetFloat(s); Ok((t, FloatValue(f)))
    case DoubleKind => var (t, d) :- GetDouble(s); Ok((t, DoubleValue(d)))
    case StringKind => var (t, x) :- GetString(s); Ok((t, StringValue(x)))
    case Vector3Kind => var (t, x) :- GetVector3(s); Ok((t, Vector3Value(x)))
  }

  /** Writes the values in order. */
  function WriteAll(s: Stream, vs: seq<Value>): (r: Stream)
    requires AllWritable(vs)
    ensures Appended(s, r, EncodeAll(vs))
    decreases |vs|
  {
    if |vs| == 0 then s
    else
      var t := Write(s, vs[0]);
      var r := WriteAll(t, vs[1..]);
      ConcatAssoc(s.bytes, Encode(vs[0]), EncodeAll(vs[1..]));
      r
  }

  /** Reads values of the given types in order, stopping at the first failure. */
  function ReadAll(s: Stream, ks: seq<Kind>): Result<(Stream, seq<Value>)>
    decreases |ks|
  {
    if |ks| == 0 then Ok((s, []))
    else
      var (t, v) :- Read(s, ks[0]);
      var (r, vs) :- ReadAll(t, ks[1..]);
      Ok((r, [v] + vs))
  }

  /** Whatever bytes it meets, a successful read yields a value of the requested type
      and moves the cursor forward, staying within the buffer. */
  lemma ReadYieldsKind(s: Stream, k: Kind)
    ensures Read(s, k).Ok? ==>
      && KindOf(Read(s, k).value.1) == k
      && Read(s, k).value.0.bytes == s.bytes
      && s.offset < Read(s, k).value.0.offset <= |s.bytes|
  {
    // Solver economy only: hides definitions this proof does not unfold.
    hide Utf8.Encode, Utf8.Decode, LittleEndian.ToBytes, LittleEndian.FromBytes;
    hide GetBool, GetByte, GetShort, GetInt, GetLong, GetFloat, GetDouble, GetString, GetVector3;
    hide EncodeBool, EncodeByte, EncodeShort, EncodeInt, EncodeLong;
    hide EncodeFloat, EncodeDouble, EncodeString, EncodeVector3, EncodableString;
    hide DecodeBool, DecodeByte, DecodeShort, DecodeInt, DecodeLong, DecodeFloat, DecodeDouble;
    hide LittleEndian.ToSigned, LittleEndian.ToUnsigned, LittleEndian.Pow256, LittleEndian.HalfRange;
    hide Take, PrefixAt, Utf8.DecodeScalar, Utf8.EncodeScalar;
  }

  /** Whatever bytes it meets, a successful run of reads yields one value of each
      requested type, in order, and moves the cursor at least one byte per value. */
  lemma {:induction false} ReadAllYieldsKinds(s: Stream, ks: seq<Kind>)
    ensures ReadAll(s, ks).Ok? ==>
      && KindsOf(ReadAll(s, ks).value.1) == ks
      && ReadAll(s, ks).value.0.bytes == s.bytes
      && s.offset + |ks| <= ReadAll(s, ks).value.0.offset
    decreases |ks|
  {
    if |ks| > 0 && ReadAll(s, ks).Ok? {
      var (t, v) := Read(s, ks[0]).value;
      ReadYieldsKind(s, ks[0]);
      ReadAllYieldsKinds(t, ks[1..]);
      var (last, vs) := ReadAll(t, ks[1..]).value;
      assert ReadAll(s, ks) == Ok((last, [v] + vs));
      assert KindsOf([v] + vs) == ks;
    }
  }

  /** A getter applied to the encoding of a value of its type returns that value and
      advances the cursor by exactly the encoding's width. */
  lemma ReadEncoded(s: Stream, v: Value)
    requires Writable(v) && EncodedAt(s, Encode(v))
    ensures Read(s, KindOf(v)) == Ok((Skip(s, Encode(v)), v))
  {
    // Solver economy only: hides definitions this proof does not unfold.
    hide Utf8.Encode, Utf8.Decode, LittleEndian.ToBytes, LittleEndian.FromBytes;
    hide GetBool, GetByte, GetShort, GetInt, GetLong, GetFloat, GetDouble, GetString, GetVector3;
    hide EncodedAt, Skip, EncodeBool, EncodeByte, EncodeShort, EncodeInt, EncodeLong;
    hide EncodeFloat, EncodeDouble, EncodeString, EncodeVector3, EncodableString;
    hide DecodeBool, DecodeByte, DecodeShort, DecodeInt, DecodeLong, DecodeFloat, DecodeDouble;
    hide LittleEndian.ToSigned, LittleEndian.ToUnsigned, LittleEndian.Pow256, LittleEndian.HalfRange;
    hide Take, Advanced, PrefixAt, Stream.Valid, Utf8.DecodeScalar, Utf8.EncodeScalar;
    match v
    case BoolValue(b) => GetBoolEncoded(s, b);
    case ByteValue(u) => GetByteEncoded(s, u);
    case ShortValue(h) => GetShortEncoded(s, h);
    case IntValue(i) => GetIntEncoded(s, i);
    case LongValue(l) => GetLongEncoded(s, l);
    case FloatValue(f) => GetFloatEncoded(s, f);
    case DoubleValue(d) => GetDoubleEncoded(s, d);
    case StringValue(x) => GetStringEncoded(s, x);
    case Vector3Value(x) => GetVector3Encoded(s, x);
  }

  /** Sequencing: reading the written types in the written order gives back the values,
      and the cursor ends just past their encodings. */
  lemma {:induction false} ReadAllEncoded(s: Stream, vs: seq<Value>)
    requires AllWritable(vs) && EncodedAt(s, EncodeAll(vs))
    ensures ReadAll(s, KindsOf(vs)) == Ok((Skip(s, EncodeAll(vs)), vs))
    decreases |vs|
  {
    // Solver economy only: hides definitions this proof does not unfold.
    hide *;
    if |vs| == 0 {
      ReadAllNone(s, vs);
    } else {
      var t := ReadHead(s, vs);
      ReadAllEncoded(t, vs[1..]);
      ReadAllCons(s, vs, t, Skip(t, EncodeAll(vs[1..])));
    }
  }

  lemma ReadAllNone(s: Stream, vs: seq<Value>)
    requires |vs| == 0
    ensures ReadAll(s, KindsOf(vs)) == Ok((Skip(s, EncodeAll(vs)), vs))
  {
  }

  /** The first read of a sequence of encodings, and where it leaves the cursor. */
  lemma ReadHead(s: Stream, vs: seq<Value>) returns (t: Stream)
    requires AllWritable(vs) && EncodedAt(s, EncodeAll(vs)) && |vs| > 0
    ensures Read(s, KindOf(vs[0])) == Ok((t, vs[0]))
    ensures AllWritable(vs[1..]) && EncodedAt(t, EncodeAll(vs[1..]))
    ensures Skip(t, EncodeAll(vs[1..])) == Skip(s, EncodeAll(vs))
  {
    var head, tail := Encode(vs[0]), EncodeAll(vs[1..]);
    assert EncodeAll(vs) == head + tail;
    EncodedAtConcat(s, head, tail);
    ReadEncoded(s, vs[0]);
    t := Skip(s, head);
  }

  /** One read followed by the rest of the reads. */
  lemma ReadAllCons(s: Stream, vs: seq<Value>, t: Stream, last: Stream)
    requires |vs| > 0
    requires Read(s, KindOf(vs[0])) == Ok((t, vs[0]))
    requires ReadAll(t, KindsOf(vs[1..])) == Ok((last, vs[1..]))
    ensures ReadAll(s, KindsOf(vs)) == Ok((last, vs))
  {
    var ks := KindsOf(vs);
    assert ks[0] == KindOf(vs[0]) && ks[1..] == KindsOf(vs[1..]);
    assert [vs[0]] + vs[1..] == vs;
  }

  /** The law the object contract relies on: write `vs` into a fresh stream, rewind,
      read the same types in the same order; the reads reproduce `vs` and the cursor
      ends at the end of the buffer, which holds exactly the encodings written. */
  lemma SequencingLaw(vs: seq<Value>)
    requires AllWritable(vs)
    ensures ByteData(WriteAll(New(), vs)) == EncodeAll(vs)
    ensures var w := WriteAll(New(), vs);
            ReadAll(Reset(w), KindsOf(vs)) == Ok((Stream(w.bytes, |w.bytes|), vs))
  {
    var w := WriteAll(New(), vs);
    assert w.bytes == EncodeAll(vs);
    assert EncodedAt(Reset(w), EncodeAll(vs)) by {
      assert w.bytes[0..|w.bytes|] == w.bytes;
    }
    ReadAllEncoded(Reset(w), vs);
  }

  /** Reading any type from an empty buffer is out of range. */
  lemma EmptyReadFails(s: Stream, k: Kind)
    requires |s.bytes| == 0
    ensures Read(s, k) == Err(OutOfRange)
  {
  }
}
