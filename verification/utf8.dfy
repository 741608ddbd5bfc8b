/** UTF-8 as defined in section 3 of RFC 3629, for the string payloads of the stream
    (src/serializer/serializer.cs:147-148, 155). Text is a sequence of Unicode scalar
    values (`char`). Decoding never fails: like the default UTF-8 decoder of .NET Core
    3.0 and later, every maximal prefix of a well-formed sequence that cannot be
    completed, and every byte that cannot start one, becomes a single U+FFFD
    REPLACEMENT CHARACTER. */
module Utf8 {
  import opened LittleEndian

  const REPLACEMENT: char := '\U{FFFD}'

  predicate IsContinuation(b: uint8) {
    0x80 <= b < 0xC0
  }

  /** The number of bytes of the well-formed sequence that `lead` starts,
      or 0 when `lead` cannot start one (0x80-0xC1 and 0xF5-0xFF). */
  function SequenceLength(lead: uint8): nat {
    if lead < 0x80 then 1
    else if 0xC2 <= lead <= 0xDF then 2
    else if 0xE0 <= lead <= 0xEF then 3
    else if 0xF0 <= lead <= 0xF4 then 4
    else 0
  }

  /** The range the second byte must fall in after `lead`: narrower than a plain
      continuation byte for the leads that would otherwise allow overlong forms
      (0xE0, 0xF0), surrogates (0xED) or values past U+10FFFF (0xF4). */
  function SecondLow(lead: uint8): uint8 {
    if lead == 0xE0 then 0xA0 else if lead == 0xF0 then 0x90 else 0x80
  }

  function SecondHigh(lead: uint8): uint8 {
    if lead == 0xED then 0x9F else if lead == 0xF4 then 0x8F else 0xBF
  }

  /** The one to four bytes of a single scalar value. */
  function EncodeScalar(c: char): (r: seq<uint8>)
    ensures 1 <= |r| <= 4
    ensures SequenceLength(r[0]) == |r|
  {
    var n := c as int;
    if n < 0x80 then [n]
    else if n < 0x800 then [0xC0 + n / 0x40, 0x80 + n % 0x40]
    else if n < 0x1_0000 then [0xE0 + n / 0x1000, 0x80 + n / 0x40 % 0x40, 0x80 + n % 0x40]
    else [0xF0 + n / 0x4_0000, 0x80 + n / 0x1000 % 0x40, 0x80 + n / 0x40 % 0x40, 0x80 + n % 0x40]
  }

  /** The UTF-8 bytes of a whole text, scalar by scalar. */
  function Encode(s: string): (r: seq<uint8>)
    ensures |r| >= |s|
  {
    if |s| == 0 then [] else EncodeScalar(s[0]) + Encode(s[1..])
  }

  /** Decodes the scalar at the front of `bytes`; returns it with the number of bytes consumed. */
  function DecodeScalar(bytes: seq<uint8>): (r: (char, nat))
    requires |bytes| > 0
    ensures 1 <= r.1 <= |bytes| && r.1 <= 4
  {
    var lead: int := bytes[0];
    var n := SequenceLength(lead);
    if n == 0 then (REPLACEMENT, 1)
    else if n == 1 then (lead as char, 1)
    else if |bytes| < 2 || !(SecondLow(lead) <= bytes[1] <= SecondHigh(lead)) then (REPLACEMENT, 1)
    else if n == 2 then
      var b1: int := bytes[1];
      (((lead - 0xC0) * 0x40 + (b1 - 0x80)) as char, 2)
    else if |bytes| < 3 || !IsContinuation(bytes[2]) then (REPLACEMENT, 2)
    else if n == 3 then
      var b1: int, b2: int := bytes[1], bytes[2];
      (((lead - 0xE0) * 0x1000 + (b1 - 0x80) * 0x40 + (b2 - 0x80)) as char, 3)
    else if |bytes| < 4 || !IsContinuation(bytes[3]) then (REPLACEMENT, 3)
    else
      var b1: int, b2: int, b3: int := bytes[1], bytes[2], bytes[3];
      (((lead - 0xF0) * 0x4_0000 + (b1 - 0x80) * 0x1000 + (b2 - 0x80) * 0x40 + (b3 - 0x80)) as char, 4)
  }

  /** Decodes a whole byte sequence, replacing ill-formed parts. */
  function Decode(bytes: seq<uint8>): (s: string)
    ensures |s| <= |bytes|
    decreases |bytes|
  {
    if |bytes| == 0 then []
    else
      var (c, k) := DecodeScalar(bytes);
      [c] + Decode(bytes[k..])
  }

  /** The encoding of a scalar decodes back to it, whatever bytes follow. */
  lemma DecodeEncodeScalar(c: char, rest: seq<uint8>)
    ensures DecodeScalar(EncodeScalar(c) + rest) == (c, |EncodeScalar(c)|)
  {
    var n := c as int;
    if n < 0x80 {
    } else if n < 0x800 {
      DecodeTwoBytes(c, rest);
    } else if n < 0x1_0000 {
      DecodeThreeBytes(c, rest);
    } else {
      DecodeFourBytes(c, rest);
    }
  }

  lemma DecodeTwoBytes(c: char, rest: seq<uint8>)
    requires 0x80 <= c as int < 0x800
    ensures DecodeScalar(EncodeScalar(c) + rest) == (c, 2)
  {
    var n := c as int;
    var bytes := EncodeScalar(c) + rest;
    var b0, b1 := n / 0x40, n % 0x40;
    assert bytes[0] == 0xC0 + b0 && bytes[1] == 0x80 + b1;
    assert 2 <= b0 < 0x20;
    assert b0 * 0x40 + b1 == n;
  }

  lemma DecodeThreeBytes(c: char, rest: seq<uint8>)
    requires 0x800 <= c as int < 0x1_0000
    ensures DecodeScalar(EncodeScalar(c) + rest) == (c, 3)
  {
    var n := c as int;
    var bytes := EncodeScalar(c) + rest;
    var b0, b1, b2 := n / 0x1000, n / 0x40 % 0x40, n % 0x40;
    assert bytes[0] == 0xE0 + b0 && bytes[1] == 0x80 + b1 && bytes[2] == 0x80 + b2;
    assert n / 0x40 == b0 * 0x40 + b1;
    assert b0 * 0x1000 + b1 * 0x40 + b2 == n;
    assert b0 == 0 ==> b1 >= 0x20;
    assert b0 == 0xD ==> b1 < 0x20;
  }

  lemma DecodeFourBytes(c: char, rest: seq<uint8>)
    requires 0x1_0000 <= c as int
    ensures DecodeScalar(EncodeScalar(c) + rest) == (c, 4)
  {
    var n := c as int;
    var bytes := EncodeScalar(c) + rest;
    var b0, b1, b2, b3 := n / 0x4_0000, n / 0x1000 % 0x40, n / 0x40 % 0x40, n % 0x40;
    assert bytes[0] == 0xF0 + b0 && bytes[1] == 0x80 + b1;
    assert bytes[2] == 0x80 + b2 && bytes[3] == 0x80 + b3;
    assert n / 0x40 == (n / 0x1000) * 0x40 + b2;
    assert n / 0x1000 == b0 * 0x40 + b1;
    assert b0 * 0x4_0000 + b1 * 0x1000 + b2 * 0x40 + b3 == n;
    assert b0 == 0 ==> b1 >= 0x10;
    assert b0 == 4 ==> b1 < 0x10;
  }

  /** Round trip: decoding the UTF-8 encoding of any text gives the text back. */
  lemma {:induction false} DecodeEncode(s: string)
    ensures Decode(Encode(s)) == s
  {
    if |s| > 0 {
      var head := EncodeScalar(s[0]);
      DecodeEncodeScalar(s[0], Encode(s[1..]));
      assert (head + Encode(s[1..]))[|head|..] == Encode(s[1..]);
      DecodeEncode(s[1..]);
      assert [s[0]] + s[1..] == s;
    }
  }

  /** The converse of `DecodeEncodeScalar`: a scalar read to the full length its lead
      byte announces was exactly that scalar's encoding; a read cut short, or a byte that
      cannot start a sequence, yields U+FFFD. */
  lemma DecodeScalarSound(bytes: seq<uint8>)
    requires |bytes| > 0
    ensures var (c, k) := DecodeScalar(bytes);
      if k == SequenceLength(bytes[0]) then bytes[..k] == EncodeScalar(c) else c == REPLACEMENT
  {
    var (c, k) := DecodeScalar(bytes);
    var n := SequenceLength(bytes[0]);
    if k == n && n == 2 {
      EncodeTwoBytes(bytes, c);
    } else if k == n && n == 3 {
      EncodeThreeBytes(bytes, c);
    } else if k == n && n == 4 {
      EncodeFourBytes(bytes, c);
    }
  }

  lemma EncodeTwoBytes(bytes: seq<uint8>, c: char)
    requires |bytes| >= 2 && SequenceLength(bytes[0]) == 2
    requires DecodeScalar(bytes) == (c, 2)
    ensures bytes[..2] == EncodeScalar(c)
  {
    var x: int, y: int := bytes[0] - 0xC0, bytes[1] - 0x80;
    var n := c as int;
    assert n == x * 0x40 + y && 2 <= x < 0x20 && 0 <= y < 0x40;
    assert n / 0x40 == x && n % 0x40 == y;
  }

  lemma EncodeThreeBytes(bytes: seq<uint8>, c: char)
    requires |bytes| >= 3 && SequenceLength(bytes[0]) == 3
    requires DecodeScalar(bytes) == (c, 3)
    ensures bytes[..3] == EncodeScalar(c)
  {
    var x: int, y: int, z: int := bytes[0] - 0xE0, bytes[1] - 0x80, bytes[2] - 0x80;
    var n := c as int;
    assert n == x * 0x1000 + y * 0x40 + z;
    assert 0 <= x < 0x10 && 0 <= y < 0x40 && 0 <= z < 0x40 && (x == 0 ==> y >= 0x20);
    assert n / 0x40 == x * 0x40 + y && n % 0x40 == z;
    assert n / 0x1000 == x && n / 0x40 % 0x40 == y;
  }

  lemma EncodeFourBytes(bytes: seq<uint8>, c: char)
    requires |bytes| >= 4 && SequenceLength(bytes[0]) == 4
    requires DecodeScalar(bytes) == (c, 4)
    ensures bytes[..4] == EncodeScalar(c)
  {
    var x: int, y: int, z: int, w: int := bytes[0] - 0xF0, bytes[1] - 0x80, bytes[2] - 0x80, bytes[3] - 0x80;
    var n := c as int;
    assert n == x * 0x4_0000 + y * 0x1000 + z * 0x40 + w;
    assert 0 <= x <= 4 && 0 <= y < 0x40 && 0 <= z < 0x40 && 0 <= w < 0x40 && (x == 0 ==> y >= 0x10);
    assert n / 0x40 == (x * 0x40 + y) * 0x40 + z && n % 0x40 == w;
    assert n / 0x1000 == x * 0x40 + y && n / 0x40 % 0x40 == z;
    assert n / 0x4_0000 == x && n / 0x1000 % 0x40 == y;
  }

  /** Replacement per maximal ill-formed subpart, as the .NET Core 3.0 and later decoder
      does it, on inputs that tell it apart from replacing sequence by sequence: E0 80
      cannot continue past E0 (it would be an overlong form), so each byte is replaced;
      F0 90 80 is a well-begun sequence cut short, replaced once. */
  lemma OverlongAndTruncated()
    ensures Decode([0xE0, 0x80]) == [REPLACEMENT, REPLACEMENT]
    ensures Decode([0xF0, 0x90, 0x80]) == [REPLACEMENT]
  {
    var a: seq<uint8> := [0xE0, 0x80];
    assert a[1..] == [0x80];
    assert Decode(a) == [REPLACEMENT] + Decode([0x80]);
    var b: seq<uint8> := [0xF0, 0x90, 0x80];
    assert b[3..] == [];
  }

  /** On the .NET Core 3.0 and later decoder, ED A0 80 would encode a surrogate, so none
      of its bytes continues a sequence and all three are replaced; EF BB BF is the
      well-formed U+FEFF and decodes to it. */
  lemma SurrogateAndByteOrderMark()
    ensures Decode([0xED, 0xA0, 0x80]) == [REPLACEMENT, REPLACEMENT, REPLACEMENT]
    ensures Decode([0xEF, 0xBB, 0xBF]) == ['\U{FEFF}']
  {
    var d: seq<uint8> := [0xED, 0xA0, 0x80];
    assert d[1..] == [0xA0, 0x80] && d[1..][1..] == [0x80];
    assert Decode(d) == [REPLACEMENT] + Decode([0xA0, 0x80]);
    assert Decode([0xA0, 0x80]) == [REPLACEMENT] + Decode([0x80]);
    var e: seq<uint8> := [0xEF, 0xBB, 0xBF];
    assert e[3..] == [];
  }

  /** The number of UTF-16 code units of a text: what a .NET string's Length counts.
      Scalars above U+FFFF take a surrogate pair. */
  function Utf16Length(s: string): (n: nat)
    ensures |s| <= n <= 2 * |s|
    ensures n <= |Encode(s)|
  {
    if |s| == 0 then 0
    else (if s[0] as int < 0x1_0000 then 1 else 2) + Utf16Length(s[1..])
  }
}
