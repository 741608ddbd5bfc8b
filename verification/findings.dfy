/** Two methods of the stream as they are written, next to the stream model that the
    rest of the project uses, with the inputs that tell them apart.
    - The short pair (src/serializer/serializer.cs:88-98): the setter takes a byte,
      widens it and writes two bytes; the getter reads two bytes but moves the cursor
      by one, so the next read starts inside the short.
    - The string setter (src/serializer/serializer.cs:152-157): the prefix is the
      text's length in UTF-16 code units, while the payload is UTF-8; the two agree
      only while every character is ASCII. */
module AsWritten {
  import opened Wrappers
  import opened LittleEndian
  import opened Primitives
  import opened BinaryStream
  import Utf8

  // ----- Shorts.

  /** The setter as written: a byte, widened to a short, written as two bytes. */
  function SetShortAsWritten(s: Stream, v: uint8): (r: Stream)
    ensures r.bytes == s.bytes + [v, 0] && r.offset == s.offset
  {
    Append(s, EncodeShort(v))
  }

  /** The getter as written: decodes two bytes, then advances by the size of a byte. */
  function GetShortAsWritten(s: Stream): (r: Result<(Stream, int16)>)
    ensures r.Err? <==> s.offset + SHORT_SIZE > |s.bytes|
    ensures r.Ok? ==> r.value.0.bytes == s.bytes && r.value.0.offset == s.offset + BYTE_SIZE
    ensures r.Ok? ==> EncodeShort(r.value.1) == s.bytes[s.offset..s.offset + SHORT_SIZE]
  {
    var (t, b) :- Take(s, SHORT_SIZE);
    DecodeThenEncode(b);
    Ok((Stream(s.bytes, s.offset + BYTE_SIZE), DecodeShort(b)))
  }

  /** Wherever the as-written getter succeeds it stops one byte short of where the
      corrected getter stops, having read the same value. */
  lemma ShortCursorLags(s: Stream)
    requires s.offset + SHORT_SIZE <= |s.bytes|
    ensures GetShortAsWritten(s).Ok? && GetShort(s).Ok?
    ensures GetShortAsWritten(s).value.1 == GetShort(s).value.1
    ensures GetShortAsWritten(s).value.0.offset + 1 == GetShort(s).value.0.offset
  {
    var x, y := GetShortAsWritten(s).value.1, GetShort(s).value.1;
    EncodeShortInjective(x, y);
  }

  lemma EncodeShortInjective(x: int16, y: int16)
    requires EncodeShort(x) == EncodeShort(y)
    ensures x == y
  {
    calc {
      x;
      DecodeShort(EncodeShort(x));
      DecodeShort(EncodeShort(y));
      y;
    }
  }

  /** Short 5, then byte 7: the as-written pair reads the short back as 5, but the
      byte read that follows lands on the short's high byte and yields 0, not 7. */
  lemma ShortThenByteAsWritten()
    ensures
      var w := SetByte(SetShortAsWritten(New(), 5), 7);
      var r := GetShortAsWritten(Reset(w));
      && w.bytes == [5, 0, 7]
      && r == Ok((Stream(w.bytes, 1), 5))
      && GetByte(r.value.0) == Ok((Stream(w.bytes, 2), 0))
  {
    var w := SetByte(SetShortAsWritten(New(), 5), 7);
    assert w.bytes == [5, 0, 7];
    assert EncodeShort(5) == [5, 0];
    EncodeShortInjective(GetShortAsWritten(Reset(w)).value.1, 5);
  }

  /** The same writes through the corrected pair read back 5 and then 7, with the
      cursor at the end. */
  lemma ShortThenByte(h: int16, u: uint8)
    ensures
      var w := SetByte(SetShort(New(), h), u);
      var r := GetShort(Reset(w));
      && r == Ok((Stream(w.bytes, SHORT_SIZE), h))
      && GetByte(r.value.0) == Ok((Stream(w.bytes, |w.bytes|), u))
  {
    var w := SetByte(SetShort(New(), h), u);
    assert w.bytes == EncodeShort(h) + EncodeByte(u);
    ResetEncoded(w);
    EncodedAtConcat(Reset(w), EncodeShort(h), EncodeByte(u));
    GetShortEncoded(Reset(w), h);
    GetByteEncoded(Skip(Reset(w), EncodeShort(h)), u);
  }

  // ----- Strings.

  /** The setter as written: the prefix counts UTF-16 code units, the payload is UTF-8. */
  function SetStringAsWritten(s: Stream, v: string): (r: Stream)
    requires EncodableString(v)
    ensures Appended(s, r, EncodeInt(Utf8.Utf16Length(v)) + Utf8.Encode(v))
  {
    Append(s, EncodeInt(Utf8.Utf16Length(v)) + Utf8.Encode(v))
  }

  predicate IsAscii(v: string) {
    forall i :: 0 <= i < |v| ==> v[i] as int < 0x80
  }

  /** On ASCII text the two lengths coincide, which is why the as-written setter only
      goes wrong once a character outside ASCII appears. */
  lemma {:induction false} AsciiLengthsAgree(v: string)
    requires IsAscii(v)
    ensures Utf8.Utf16Length(v) == |Utf8.Encode(v)|
    decreases |v|
  {
    if |v| > 0 {
      assert IsAscii(v[1..]) by {
        forall i | 0 <= i < |v[1..]| ensures v[1..][i] as int < 0x80 {
          assert v[1..][i] == v[i + 1];
        }
      }
      AsciiLengthsAgree(v[1..]);
      assert Utf8.Encode(v) == Utf8.EncodeScalar(v[0]) + Utf8.Encode(v[1..]);
    }
  }

  /** On ASCII text the as-written setter writes exactly what the corrected one does. */
  lemma AsciiStringAgrees(s: Stream, v: string)
    requires EncodableString(v) && IsAscii(v)
    ensures SetStringAsWritten(s, v) == SetString(s, v)
  {
    AsciiLengthsAgree(v);
  }

  /** U+00E9 (e with acute accent) is one UTF-16 code unit but two UTF-8 bytes. Written as-is, the
      getter takes a one-byte payload, decodes the lone lead byte as U+FFFD and leaves
      the cursor on the second payload byte. */
  lemma AccentedStringAsWritten()
    ensures EncodableString("\U{00E9}")
    ensures
      var w := SetStringAsWritten(New(), "\U{00E9}");
      && w.bytes == [1, 0, 0, 0, 0xC3, 0xA9]
      && GetString(Reset(w)) == Ok((Stream(w.bytes, 5), [Utf8.REPLACEMENT]))
  {
    var v := "\U{00E9}";
    assert Utf8.Encode(v) == [0xC3, 0xA9] by {
      assert Utf8.EncodeScalar(v[0]) == [0xC3, 0xA9];
    }
    assert Utf8.Utf16Length(v) == 1;
    var w := SetStringAsWritten(New(), v);
    assert EncodeInt(1) == [1, 0, 0, 0];
    assert w.bytes == [1, 0, 0, 0, 0xC3, 0xA9];
    assert w.bytes[0..4] == [1, 0, 0, 0];
    assert Utf8.Decode([0xC3]) == [Utf8.REPLACEMENT];
  }
}
