# Binary serialize stream, modelled in Dafny

This project models the binary serializer in `src/serializer/serializer.cs`. The
serializer is a growable byte buffer with a read cursor (`BinarySerializeStream`).
Setters append the fixed-width, little-endian encoding of a value to the buffer.
Getters decode the value at the cursor and move the cursor past it. A string is written
as a signed 32-bit length prefix followed by its UTF-8 bytes. A `Vector3` is written as
three single-precision floats. `Reset` rewinds the cursor and `Clear` empties the
buffer. An object that implements the `ISerializable` contract writes its fields in one
order and reads them back in the same order. A `Formatter` wraps a stream and hands it
to such objects.

The mutable stream becomes an immutable value `Stream(bytes, offset)`:
- every setter returns the extended stream;
- every getter returns `Ok((advanced stream, value))`, or `Err(OutOfRange)` where the
  original throws because too few bytes remain.

The wire carries no type tags, so the central property is the sequencing law.
Write any sequence of values into a fresh stream and reset it. Reading the same
types in the same order then gives back exactly those values, and leaves the cursor at
the end of the data (`Sequencing.SequencingLaw`, `Formatting.FormatterRoundTrip`).

Modules:
- `Wrappers`: the result type.
- `LittleEndian`: byte codec and two's complement.
- `Primitives`: per-type encodings and widths.
- `Utf8`: UTF-8 per section 3 of RFC 3629, with the replacement behaviour of the
  .NET Core 3.0 and later default decoder.
- `BinaryStream`: the stream and its operations.
- `Sequencing`: heterogeneous write/read sequences.
- `Formatting`: the object contract, the formatter and sample records.
- `AsWritten`: two defects of the source, modelled as written.

Strings are decoded with replacement, not rejected. A decoder that rejects
ill-formed UTF-8 with an error is a common alternative. The code, however, calls the
host's default UTF-8 decoder, which never fails; on .NET Core 3.0 and later it
substitutes U+FFFD for each maximal ill-formed subpart. The model follows that runtime, so
`Wrappers.Error` has the single case `OutOfRange`.

## Model

| member | source | states |
|---|---|---|
| LittleEndian.ToBytes | src/serializer/serializer.cs:105-109 | a number below 256^w becomes exactly w bytes, least significant first, and `FromBytes` gives the number back |
| LittleEndian.ToBytesFromBytes | src/serializer/serializer.cs:99-104 | every byte sequence is the encoding of the number it spells, so decoding loses no byte pattern |
| LittleEndian.FromBytesInjective | src/serializer/serializer.cs:99-104 | two byte sequences of one width decode to the same number exactly when they are equal |
| LittleEndian.FromBytes | src/serializer/serializer.cs:99-104 | the value a byte sequence spells, least significant byte first, fits in as many bytes as there are |
| LittleEndian.ToUnsigned | src/serializer/serializer.cs:105-109 | two's complement: a signed value in range maps below 256^w, negatives exactly to the upper half, by adding 256^w |
| LittleEndian.ToSigned | src/serializer/serializer.cs:99-104 | an unsigned pattern maps into the signed range and `ToUnsigned` maps it back |
| Primitives.EncodeBool | src/serializer/serializer.cs:73-77 | a boolean occupies one byte and decodes back to itself |
| Primitives.EncodeByte | src/serializer/serializer.cs:83-87 | a byte occupies one byte and decodes back to itself |
| Primitives.EncodeShort | src/serializer/serializer.cs:88-98 | a 16-bit signed value occupies two bytes and decodes back to itself |
| Primitives.EncodeInt | src/serializer/serializer.cs:99-109 | a 32-bit signed value occupies four bytes and decodes back to itself |
| Primitives.EncodeLong | src/serializer/serializer.cs:110-120 | a 64-bit signed value occupies eight bytes and decodes back to itself |
| Primitives.EncodeFloat | src/serializer/serializer.cs:121-131 | a single-precision bit pattern occupies four bytes and decodes back to itself |
| Primitives.EncodeDouble | src/serializer/serializer.cs:132-142 | a double-precision bit pattern occupies eight bytes and decodes back to itself |
| Primitives.DecodeBool | src/serializer/serializer.cs:67-72 | a one-byte boolean is false only for the zero byte; any other byte reads as true |
| Primitives.DecodeByte | src/serializer/serializer.cs:78-82 | a byte reads back as itself |
| Primitives.DecodeShort | src/serializer/serializer.cs:88-93 | the two bytes read are the little-endian two's-complement pattern of the short returned |
| Primitives.DecodeInt | src/serializer/serializer.cs:99-104 | the four bytes read are the little-endian two's-complement pattern of the int returned |
| Primitives.DecodeLong | src/serializer/serializer.cs:110-115 | the eight bytes read are the little-endian two's-complement pattern of the long returned |
| Primitives.DecodeFloat | src/serializer/serializer.cs:121-126 | the four bytes read are the little-endian bit pattern of the float returned |
| Primitives.DecodeDouble | src/serializer/serializer.cs:132-137 | the eight bytes read are the little-endian bit pattern of the double returned |
| Primitives.EncodeVector3 | src/serializer/serializer.cs:170-176 | a vector occupies twelve bytes: the encodings of X, Y and Z in that order |
| Primitives.EncodeString | src/serializer/serializer.cs:152-157 | a string is a four-byte prefix that decodes to its UTF-8 byte count, followed by those UTF-8 bytes |
| Primitives.NonCanonicalBool | src/serializer/serializer.cs:67-77 | a boolean byte no setter writes, such as 2, still reads as true, and writing that back gives 1, not 2 |
| Primitives.DecodeThenEncode | src/serializer/serializer.cs:88-142 | for shorts, ints, longs, floats and doubles, every byte pattern of the type's width is the encoding of the value it decodes to (booleans are the exception: a byte other than 0 or 1 reads as true and is rewritten as 1) |
| Utf8.EncodeScalar | src/serializer/serializer.cs:155 | one scalar takes one to four bytes, and its lead byte announces that count |
| Utf8.Encode | src/serializer/serializer.cs:155 | a text takes at least one byte per scalar |
| Utf8.DecodeScalar | src/serializer/serializer.cs:147-148 | decoding always consumes between one and four bytes, never more than are present |
| Utf8.Decode | src/serializer/serializer.cs:147-148 | decoding never yields more scalars than there are bytes |
| Utf8.DecodeEncodeScalar | src/serializer/serializer.cs:147-148 | a scalar's encoding decodes to that scalar and consumes exactly its bytes, whatever follows |
| Utf8.DecodeTwoBytes | src/serializer/serializer.cs:147-148 | as above for scalars U+0080 to U+07FF |
| Utf8.DecodeThreeBytes | src/serializer/serializer.cs:147-148 | as above for scalars U+0800 to U+FFFF |
| Utf8.DecodeFourBytes | src/serializer/serializer.cs:147-148 | as above for scalars U+10000 to U+10FFFF |
| Utf8.DecodeScalarSound | src/serializer/serializer.cs:147-148 | a scalar read to the full length its lead byte announces was exactly that scalar's encoding; a read cut short, or a byte that cannot start a sequence, yields U+FFFD |
| Utf8.OverlongAndTruncated | src/serializer/serializer.cs:147-148 | one U+FFFD per maximal ill-formed subpart: E0 80 gives two, the truncated F0 90 80 gives one |
| Utf8.SurrogateAndByteOrderMark | src/serializer/serializer.cs:147-148 | the surrogate form ED A0 80 gives three U+FFFD, and EF BB BF decodes to U+FEFF |
| Utf8.DecodeEncode | src/serializer/serializer.cs:147-148 | decoding the UTF-8 encoding of any text gives the text back |
| Utf8.Utf16Length | src/serializer/serializer.cs:154 | a string's UTF-16 length lies between its scalar count and twice that, and never exceeds its UTF-8 byte count |
| BinaryStream.New | src/serializer/serializer.cs:45-49 | a new stream is empty with the cursor at 0 |
| BinaryStream.FromData | src/serializer/serializer.cs:50-54 | a stream over data holds exactly that data, all of it unread |
| BinaryStream.Clear | src/serializer/serializer.cs:56-60 | after clearing, the buffer is empty and the cursor is at 0 |
| BinaryStream.Reset | src/serializer/serializer.cs:62-65 | resetting keeps the buffer and makes all of it unread again |
| BinaryStream.ResetIdempotent | src/serializer/serializer.cs:62-65 | resetting twice is resetting once; resetting a rewound stream changes nothing |
| BinaryStream.ResetEncoded | src/serializer/serializer.cs:62-65 | after a reset, the whole buffer sits at the cursor, and skipping it reaches the end |
| BinaryStream.ByteData | src/serializer/serializer.cs:38-44 | the snapshot equals the buffer's bytes |
| BinaryStream.Take | src/serializer/serializer.cs:69 | a range read succeeds exactly when that many bytes remain after the cursor, returns those bytes and advances by their count |
| BinaryStream.SetBool | src/serializer/serializer.cs:73-77 | appends the boolean's byte; earlier bytes and the cursor are untouched |
| BinaryStream.SetByte | src/serializer/serializer.cs:83-87 | appends the byte; earlier bytes and the cursor are untouched |
| BinaryStream.SetShort | src/serializer/serializer.cs:94-98 | appends the short's two bytes; earlier bytes and the cursor are untouched |
| BinaryStream.SetInt | src/serializer/serializer.cs:105-109 | appends the int's four bytes; earlier bytes and the cursor are untouched |
| BinaryStream.SetLong | src/serializer/serializer.cs:116-120 | appends the long's eight bytes; earlier bytes and the cursor are untouched |
| BinaryStream.SetFloat | src/serializer/serializer.cs:127-131 | appends the float's four bytes; earlier bytes and the cursor are untouched |
| BinaryStream.SetDouble | src/serializer/serializer.cs:138-142 | appends the double's eight bytes; earlier bytes and the cursor are untouched |
| BinaryStream.SetString | src/serializer/serializer.cs:152-157 | appends the prefix and the UTF-8 payload; earlier bytes and the cursor are untouched |
| BinaryStream.SetVector3 | src/serializer/serializer.cs:170-176 | appends twelve bytes; this is the same as setting X, then Y, then Z as floats |
| BinaryStream.GetBool | src/serializer/serializer.cs:67-72 | fails exactly when no byte remains; otherwise advances one byte and yields true exactly when that byte is non-zero |
| BinaryStream.GetByte | src/serializer/serializer.cs:78-82 | fails exactly when no byte remains; otherwise advances one byte and yields the byte at the cursor |
| BinaryStream.GetShort | src/serializer/serializer.cs:88-93 | fails exactly when fewer than two bytes remain; otherwise advances two bytes and yields the short whose encoding they are |
| BinaryStream.GetInt | src/serializer/serializer.cs:99-104 | fails exactly when fewer than four bytes remain; otherwise advances four bytes and yields the int whose encoding they are |
| BinaryStream.GetLong | src/serializer/serializer.cs:110-115 | fails exactly when fewer than eight bytes remain; otherwise advances eight bytes and yields the long whose encoding they are |
| BinaryStream.GetFloat | src/serializer/serializer.cs:121-126 | fails exactly when fewer than four bytes remain; otherwise advances four bytes and yields the float whose encoding they are |
| BinaryStream.GetDouble | src/serializer/serializer.cs:132-137 | fails exactly when fewer than eight bytes remain; otherwise advances eight bytes and yields the double whose encoding they are |
| BinaryStream.PrefixAt | src/serializer/serializer.cs:145-146 | the length prefix is the int whose four-byte encoding sits at the cursor |
| BinaryStream.GetString | src/serializer/serializer.cs:143-151 | fails exactly when the prefix is missing, negative, or larger than the bytes that remain; otherwise advances past the prefix and payload and yields the payload's UTF-8 decoding |
| BinaryStream.GetVector3 | src/serializer/serializer.cs:158-169 | fails exactly when fewer than twelve bytes remain; otherwise advances twelve bytes and yields the vector whose encoding they are |
| BinaryStream.GetBoolEncoded | src/serializer/serializer.cs:67-77 | reading a boolean where one was written yields it and moves past it |
| BinaryStream.GetByteEncoded | src/serializer/serializer.cs:78-87 | reading a byte where one was written yields it and moves past it |
| BinaryStream.GetShortEncoded | src/serializer/serializer.cs:88-98 | reading a short where one was written yields it and moves past all of its bytes |
| BinaryStream.GetIntEncoded | src/serializer/serializer.cs:99-109 | reading an int where one was written yields it and moves past it |
| BinaryStream.GetLongEncoded | src/serializer/serializer.cs:110-120 | reading a long where one was written yields it and moves past it |
| BinaryStream.GetFloatEncoded | src/serializer/serializer.cs:121-131 | reading a float where one was written yields the same bit pattern and moves past it |
| BinaryStream.GetDoubleEncoded | src/serializer/serializer.cs:132-142 | reading a double where one was written yields the same bit pattern and moves past it |
| BinaryStream.GetVector3Encoded | src/serializer/serializer.cs:158-176 | reading a vector where one was written yields it and moves past its twelve bytes |
| BinaryStream.GetStringEncoded | src/serializer/serializer.cs:143-157 | reading a string where one was written yields the same text and moves past its prefix and payload |
| Sequencing.KindsOf | src/serializer/serializer.cs:28-32 | the reader's schema lists the type of each written value, position by position |
| Sequencing.Write | src/serializer/serializer.cs:8-25 | writing a value appends its encoding and nothing else |
| Sequencing.WriteAll | src/serializer/serializer.cs:28-32 | writing a sequence appends the encodings back to back, in order |
| Sequencing.ReadYieldsKind | src/serializer/serializer.cs:67-169 | on any bytes, a successful read by `Sequencing.Read` yields a value of the requested type and moves the cursor forward, within the buffer, leaving the bytes alone |
| Sequencing.ReadAllYieldsKinds | src/serializer/serializer.cs:28-32 | on any bytes, a successful run of `Sequencing.ReadAll` yields one value per requested type, in order, and moves the cursor at least one byte per value |
| Sequencing.ReadEncoded | src/serializer/serializer.cs:8-25 | reading with a value's own type where it was written yields the value and moves past it |
| Sequencing.ReadAllEncoded | src/serializer/serializer.cs:28-32 | reading the written types in order yields the written values, and the cursor ends past all their bytes |
| Sequencing.SequencingLaw | src/serializer/serializer.cs:28-44 | written into a fresh stream, any sequence of values leaves a snapshot that is exactly their encodings back to back; after a reset it reads back completely, with the cursor at the end of the data |
| Sequencing.EmptyReadFails | src/serializer/serializer.cs:67-169 | every getter fails on an empty buffer |
| Formatting.SerializePlayer | src/serializer/serializer.cs:30 | an object's serialization appends its fields' encodings in declaration order |
| Formatting.DeserializePlayer | src/serializer/serializer.cs:31 | a successful deserialization moves the cursor forward by at least the smallest object size, and stays within the buffer |
| Formatting.SerializeTeam | src/serializer/serializer.cs:30 | a nested object's serialization is its parts' serializations back to back |
| Formatting.DeserializeTeam | src/serializer/serializer.cs:31 | a successful nested read moves forward by at least twice the smallest part, and stays within the buffer |
| Formatting.ResetFormatter | src/serializer/serializer.cs:190-193 | resetting the formatter rewinds its stream and keeps the bytes |
| Formatting.Serialize | src/serializer/serializer.cs:195-198 | the formatter appends the object's own serialization to its stream |
| Formatting.Deserialize | src/serializer/serializer.cs:200-203 | the formatter yields an object of the requested class, and leaves the bytes untouched |
| Formatting.PlayerIsSequence | src/serializer/serializer.cs:28-32 | a player's wire image is exactly the encoding of its three fields as a sequence of stream values, so the sequencing law covers the record |
| Formatting.DeserializePlayerEncoded | src/serializer/serializer.cs:28-32 | an object reads back from its own serialization, and the cursor ends just past it |
| Formatting.DeserializeTeamEncoded | src/serializer/serializer.cs:28-32 | a nested object reads back from its serialization, and the cursor ends just past it |
| Formatting.DeserializeEncoded | src/serializer/serializer.cs:195-203 | deserializing with an object's own class reads back the object serialized there |
| Formatting.FormatterRoundTrip | src/serializer/serializer.cs:179-204 | two objects serialized into a fresh stream and reset read back in order, with the cursor ending at the end of the data |
| Formatting.ExampleLayout | src/serializer/serializer.cs:105-176 | player 42 named "ok" at (1, 2, 3), written by `SetInt` (lines 105-109), `SetString` (152-157) and `SetVector3` (170-176), occupies exactly these 22 little-endian bytes |
| Formatting.ExampleRoundTrip | src/serializer/serializer.cs:143-169 | that player reads back from the reset stream, with the cursor at 22 |
| AsWritten.SetShortAsWritten | src/serializer/serializer.cs:94-98 | as written: the setter takes a byte and appends it followed by a zero byte |
| AsWritten.GetShortAsWritten | src/serializer/serializer.cs:88-93 | as written: the getter needs two bytes and decodes both, but advances the cursor by one |
| AsWritten.ShortCursorLags | src/serializer/serializer.cs:88-93 | wherever it succeeds, the as-written getter yields the corrected getter's value and stops one byte earlier |
| AsWritten.ShortThenByteAsWritten | src/serializer/serializer.cs:88-98 | short 5 then byte 7, read back as written, yields 5 and then 0 instead of 7 |
| AsWritten.ShortThenByte | src/serializer/serializer.cs:88-98 | with the corrected pair, any short then any byte reads back as written, ending at the end of the data |
| AsWritten.SetStringAsWritten | src/serializer/serializer.cs:152-157 | as written: the prefix is the UTF-16 length, followed by the UTF-8 payload |
| AsWritten.AsciiLengthsAgree | src/serializer/serializer.cs:154-155 | on ASCII text the UTF-16 length equals the UTF-8 byte count |
| AsWritten.AsciiStringAgrees | src/serializer/serializer.cs:152-157 | on ASCII text the as-written setter writes exactly what the corrected one writes |
| AsWritten.AccentedStringAsWritten | src/serializer/serializer.cs:143-157 | U+00E9 written as written reads back as U+FFFD, with the cursor stopped one byte short of the end |

## Left out

- Floating point: floats and doubles are kept as raw IEEE-754 bit patterns. The stream copies bits and never does arithmetic, so NaN payloads and signed zeros round-trip as patterns.
- Byte order: the host converter uses the machine's byte order. The model fixes little-endian, the order of every common host.
- Exceptions: reads past the end become `Err(OutOfRange)` instead of an exception.
- Null arguments: a null string (src/serializer/serializer.cs:154) or null data (src/serializer/serializer.cs:52) throws in the original. Dafny values are never null, so these paths are not represented.
- Older runtimes' replacement counts: .NET Framework and .NET Core 2.x replace some ill-formed sequences, the `ED A0 ..` surrogate forms among them, with a different number of U+FFFD. The model follows the .NET Core 3.0 and later decoder, and `Utf8.OverlongAndTruncated` and `Utf8.SurrogateAndByteOrderMark` pin that newer behaviour.
- BinaryStream.GetString: on failure the original may already have moved the cursor past the four-byte prefix. The model returns no stream on failure, so a caller keeps its previous stream.
- BinaryStream.GetVector3: on failure the original may already have moved the cursor past one or two components. As for strings, the model returns no stream on failure.
- BinaryStream.SetString: requires the UTF-8 payload to fit a signed 32-bit length. For a longer text the original appends the four-byte prefix (line 154) and then throws from the encoder (line 155), leaving a stray prefix in the buffer. That partial write and the exception are not represented.
- AsWritten.SetStringAsWritten: carries the same requirement, for the same reason; the as-written prefix is appended before the encoder throws, exactly as above.
- Lone surrogates: Dafny `char` values are Unicode scalars. A .NET string can hold an unpaired surrogate, which the host encoder replaces with U+FFFD. Such strings are not modelled.
- Buffer capacity: a `List<byte>` holds at most 0x7FFFFFC7 bytes, and a setter that would grow it further throws (src/serializer/serializer.cs:75, 85, 96, 107, 118, 129, 140, 154-155, 172-174). The model's buffer and cursor are unbounded naturals, so its setters never fail. The cursor itself cannot overflow in the original, because every advance follows a bounds check against the list's length.
- Fluent chaining: every operation of the original returns the stream itself for chaining. Returning the new value plays that role.
- The abstract `SerializeStream` base class (src/serializer/serializer.cs:3-26) and dynamic dispatch: there is one concrete stream, modelled directly. The base class declares `SetFloat(double)`, while the binary stream defines `SetDouble(double)` with `override` (src/serializer/serializer.cs:21, 138). As written this does not compile. The model gives doubles their own setter, `BinaryStream.SetDouble`.
- Arbitrary `ISerializable` implementations: the object contract is shown on the sample records `Player` and `Team`, and in general by `Sequencing.SequencingLaw` over any sequence of values. User-defined `Serialize` and `Deserialize` bodies are code outside this model.
- Aliasing and thread safety: values share nothing. `ByteData`'s defensive copy and concurrent use of one stream have no counterpart.

## Findings

| source | as written | input that shows it | evidently intended | confidence | as-written member | corrected member |
|---|---|---|---|---|---|---|
| src/serializer/serializer.cs:88-98 | `GetShort` decodes two bytes but advances the cursor by `sizeof(byte)`; `SetShort` takes a `byte` | `SetShort(5)`, `SetByte(7)`, `Reset`, `GetShort`, `GetByte`: the short reads as 5, then the byte reads as 0 (the short's high byte), not 7 | advance by `sizeof(short)` and accept a `short` | high (not executed) | AsWritten.ShortThenByteAsWritten | AsWritten.ShortThenByte |
| src/serializer/serializer.cs:152-157 | the prefix is `inValue.Length`, the count of UTF-16 code units, while the payload is UTF-8 | the one-character string U+00E9 is written as `01 00 00 00 C3 A9`; `GetString` takes a one-byte payload, yields U+FFFD and leaves the cursor at 5 of 6 | prefix with the UTF-8 byte count | high (not executed) | AsWritten.AccentedStringAsWritten | BinaryStream.GetStringEncoded |
