/** The self-describing object contract and the formatter that drives it
    (`ISerializable` and `Formatter`, src/serializer/serializer.cs:28-32 and 179-204).
    An object writes its fields to a stream and reads them back in the same order.
    Objects here are the sample records below; dispatch on the object's class
    becomes a match on `Object`. */
module Formatting {
  import opened Wrappers
  import opened LittleEndian
  import opened Primitives
  import opened BinaryStream
  import Utf8
  import Sequencing

  /** A sample serializable record: an id, a name and a position. */
  datatype Player = Player(id: int32, name: string, position: Vector3)

  /** A record holding two records: nested objects serialize one after the other. */
  datatype Team = Team(captain: Player, member: Player)

  datatype Object = PlayerObject(player: Player) | TeamObject(team: Team)

  /** What a caller hands to `Deserialize`: the class of the object to fill. */
  datatype ObjectKind = PlayerKind | TeamKind

  /** The fewest bytes a player occupies: an int, an empty string's prefix, a vector. */
  const MIN_PLAYER_SIZE: nat := INT_SIZE + INT_SIZE + VECTOR3_SIZE

  predicate PlayerWritable(p: Player) {
    EncodableString(p.name)
  }

  predicate Writable(o: Object) {
    match o
    case PlayerObject(p) => PlayerWritable(p)
    case TeamObject(t) => PlayerWritable(t.captain) && PlayerWritable(t.member)
  }

  function KindOf(o: Object): ObjectKind {
    match o
    case PlayerObject(_) => PlayerKind
    case TeamObject(_) => TeamKind
  }

  /** The wire image of a player: its fields' encodings in declaration order. */
  function PlayerBytes(p: Player): (b: seq<uint8>)
    requires PlayerWritable(p)
    ensures |b| >= MIN_PLAYER_SIZE
  {
    EncodeInt(p.id) + EncodeString(p.name) + EncodeVector3(p.position)
  }

  function ObjectBytes(o: Object): seq<uint8>
    requires Writable(o)
  {
    match o
    case PlayerObject(p) => PlayerBytes(p)
    case TeamObject(t) => PlayerBytes(t.captain) + PlayerBytes(t.member)
  }

  // ----- The sample objects' own Serialize and Deserialize.

  /** Writes id, then name, then position. */
  function SerializePlayer(s: Stream, p: Player): (r: Stream)
    requires PlayerWritable(p)
    ensures Appended(s, r, PlayerBytes(p))
  {
    var r := SetVector3(SetString(SetInt(s, p.id), p.name), p.position);
    ConcatAssoc(s.bytes, EncodeInt(p.id), EncodeString(p.name));
    ConcatAssoc(s.bytes + EncodeInt(p.id), EncodeString(p.name), EncodeVector3(p.position));
    ConcatAssoc(s.bytes, EncodeInt(p.id) + EncodeString(p.name), EncodeVector3(p.position));
    r
  }

  /** Reads id, then name, then position; fails if any field is out of range. */
  function DeserializePlayer(s: Stream): (r: Result<(Stream, Player)>)
    ensures r.Ok? ==>
      && r.value.0.bytes == s.bytes
      && s.offset + MIN_PLAYER_SIZE <= r.value.0.offset <= |s.bytes|
  {
    var (t1, id) :- GetInt(s);
    var (t2, name) :- GetString(t1);
    var (t3, position) :- GetVector3(t2);
    Ok((t3, Player(id, name, position)))
  }

  /** Captain first, then member. */
  function SerializeTeam(s: Stream, t: Team): (r: Stream)
    requires PlayerWritable(t.captain) && PlayerWritable(t.member)
    ensures Appended(s, r, PlayerBytes(t.captain) + PlayerBytes(t.member))
  {
    var r := SerializePlayer(SerializePlayer(s, t.captain), t.member);
    ConcatAssoc(s.bytes, PlayerBytes(t.captain), PlayerBytes(t.member));
    r
  }

  function DeserializeTeam(s: Stream): (r: Result<(Stream, Team)>)
    ensures r.Ok? ==>
      && r.value.0.bytes == s.bytes
      && s.offset + 2 * MIN_PLAYER_SIZE <= r.value.0.offset <= |s.bytes|
  {
    var (t1, captain) :- DeserializePlayer(s);
    var (t2, member) :- DeserializePlayer(t1);
    Ok((t2, Team(captain, member)))
  }

  // ----- The formatter: a stream plus delegation.

  datatype Formatter = Formatter(stream: Stream)

  /** Rewinds the formatter's stream; the bytes written so far stay. */
  function ResetFormatter(f: Formatter): (r: Formatter)
    ensures r.stream.bytes == f.stream.bytes && r.stream.offset == 0
  {
    Formatter(Reset(f.stream))
  }

  /** Lets the object write itself to the formatter's stream. */
  function Serialize(f: Formatter, o: Object): (r: Formatter)
    requires Writable(o)
    ensures Appended(f.stream, r.stream, ObjectBytes(o))
  {
    match o
    case PlayerObject(p) => Formatter(SerializePlayer(f.stream, p))
    case TeamObject(t) => Formatter(SerializeTeam(f.stream, t))
  }

  /** Lets an object of the requested class read itself from the formatter's stream. */
  function Deserialize(f: Formatter, k: ObjectKind): (r: Result<(Formatter, Object)>)
    ensures r.Ok? ==> KindOf(r.value.1) == k && r.value.0.stream.bytes == f.stream.bytes
  {
    match k
    case PlayerKind =>
      var (s, p) :- DeserializePlayer(f.stream);
      Ok((Formatter(s), PlayerObject(p)))
    case TeamKind =>
      var (s, t) :- DeserializeTeam(f.stream);
      Ok((Formatter(s), TeamObject(t)))
  }

  // ----- Round trips.

  /** A player's fields as values of the stream, in declaration order. */
  function Fields(p: Player): seq<Sequencing.Value> {
    [Sequencing.IntValue(p.id), Sequencing.StringValue(p.name), Sequencing.Vector3Value(p.position)]
  }

  /** A player's wire image is the sequencing law's encoding of its fields: the record's
      contract is that law applied to three values. */
  lemma PlayerIsSequence(p: Player)
    requires PlayerWritable(p)
    ensures Sequencing.AllWritable(Fields(p))
    ensures PlayerBytes(p) == Sequencing.EncodeAll(Fields(p))
  {
    // Solver economy only: hides definitions this proof does not unfold.
    hide Utf8.Encode, Utf8.Decode, Utf8.EncodeScalar, Utf8.DecodeScalar;
    hide LittleEndian.ToBytes, LittleEndian.FromBytes, LittleEndian.ToSigned, LittleEndian.ToUnsigned;
    hide EncodeInt, EncodeString, EncodeVector3, EncodableString;
    var fs := Fields(p);
    var a, b, c := EncodeInt(p.id), EncodeString(p.name), EncodeVector3(p.position);
    assert Sequencing.AllWritable(fs);
    assert fs[1..] == [fs[1], fs[2]] && fs[1..][1..] == [fs[2]] && fs[1..][1..][1..] == [];
    assert Sequencing.EncodeAll(fs[1..][1..]) == c by {
      assert Sequencing.EncodeAll(fs[1..][1..]) == Sequencing.Encode(fs[2]) + [];
    }
    assert Sequencing.EncodeAll(fs[1..]) == b + c;
    assert Sequencing.EncodeAll(fs) == a + (b + c);
    ConcatAssoc(a, b, c);
  }

  /** A player reads back from its own wire image, leaving the cursor just past it. */
  lemma DeserializePlayerEncoded(s: Stream, p: Player)
    requires PlayerWritable(p) && EncodedAt(s, PlayerBytes(p))
    ensures DeserializePlayer(s) == Ok((Skip(s, PlayerBytes(p)), p))
  {
    // Solver economy only: hides definitions this proof does not unfold.
    hide Utf8.Encode, Utf8.Decode, Utf8.EncodeScalar, Utf8.DecodeScalar;
    hide LittleEndian.ToBytes, LittleEndian.FromBytes, LittleEndian.ToSigned, LittleEndian.ToUnsigned;
    hide GetInt, GetString, GetVector3, EncodedAt, EncodeInt, EncodeString, EncodeVector3;
    var a, b, c := EncodeInt(p.id), EncodeString(p.name), EncodeVector3(p.position);
    ConcatAssoc(a, b, c);
    EncodedAtConcat(s, a, b + c);
    GetIntEncoded(s, p.id);
    var t1 := Skip(s, a);
    EncodedAtConcat(t1, b, c);
    GetStringEncoded(t1, p.name);
    var t2 := Skip(t1, b);
    GetVector3Encoded(t2, p.position);
  }

  lemma DeserializeTeamEncoded(s: Stream, t: Team)
    requires PlayerWritable(t.captain) && PlayerWritable(t.member)
    requires EncodedAt(s, PlayerBytes(t.captain) + PlayerBytes(t.member))
    ensures DeserializeTeam(s) == Ok((Skip(s, PlayerBytes(t.captain) + PlayerBytes(t.member)), t))
  {
    // Solver economy only: hides definitions this proof does not unfold.
    hide Utf8.Encode, Utf8.Decode, Utf8.EncodeScalar, Utf8.DecodeScalar;
    hide LittleEndian.ToBytes, LittleEndian.FromBytes, LittleEndian.ToSigned, LittleEndian.ToUnsigned;
    hide DeserializePlayer, PlayerBytes, EncodedAt;
    var a, b := PlayerBytes(t.captain), PlayerBytes(t.member);
    EncodedAtConcat(s, a, b);
    DeserializePlayerEncoded(s, t.captain);
    DeserializePlayerEncoded(Skip(s, a), t.member);
  }

  /** Deserializing with the object's own class reads back the object written. */
  lemma DeserializeEncoded(f: Formatter, o: Object)
    requires Writable(o) && EncodedAt(f.stream, ObjectBytes(o))
    ensures Deserialize(f, KindOf(o)) == Ok((Formatter(Skip(f.stream, ObjectBytes(o))), o))
  {
    match o
    case PlayerObject(p) => DeserializePlayerEncoded(f.stream, p);
    case TeamObject(t) => DeserializeTeamEncoded(f.stream, t);
  }

  /** The formatter's promise: serialize two objects into a fresh stream, reset, and
      deserializing with their classes in the same order gives both back, the cursor
      ending exactly at the end of the data. */
  lemma FormatterRoundTrip(a: Object, b: Object)
    requires Writable(a) && Writable(b)
    ensures
      var w := ResetFormatter(Serialize(Serialize(Formatter(New()), a), b));
      var end := Formatter(Stream(w.stream.bytes, |w.stream.bytes|));
      && w.stream.bytes == ObjectBytes(a) + ObjectBytes(b)
      && Deserialize(w, KindOf(a)).Ok?
      && Deserialize(w, KindOf(a)).value.1 == a
      && Deserialize(Deserialize(w, KindOf(a)).value.0, KindOf(b)) == Ok((end, b))
  {
    var f1 := Serialize(Formatter(New()), a);
    var f := Serialize(f1, b);
    var w := ResetFormatter(f);
    var ea, eb := ObjectBytes(a), ObjectBytes(b);
    var mid := Formatter(Stream(f.stream.bytes, |ea|));
    var end := Formatter(Stream(f.stream.bytes, |f.stream.bytes|));
    // Solver economy only: hides definitions this proof does not unfold.
    hide Utf8.Encode, Utf8.Decode, Utf8.EncodeScalar, Utf8.DecodeScalar;
    hide LittleEndian.ToBytes, LittleEndian.FromBytes, LittleEndian.ToSigned, LittleEndian.ToUnsigned;
    hide Serialize, Deserialize, ObjectBytes, Writable, EncodedAt;
    hide SerializePlayer, SerializeTeam, DeserializePlayer, DeserializeTeam, PlayerBytes;
    assert f1.stream.bytes == ea by {
      assert [] + ea == ea;
    }
    assert f.stream.bytes == ea + eb;
    assert EncodedAt(w.stream, ea) && EncodedAt(mid.stream, eb) by {
      ResetEncoded(f.stream);
      EncodedAtConcat(w.stream, ea, eb);
    }
    assert Deserialize(w, KindOf(a)) == Ok((mid, a)) by {
      DeserializeEncoded(w, a);
    }
    assert |f.stream.bytes| == |ea| + |eb|;
    assert Skip(mid.stream, eb) == end.stream;
    assert Deserialize(mid, KindOf(b)) == Ok((end, b)) by {
      DeserializeEncoded(mid, b);
    }
  }

  /** A worked example: player 42 named "ok" at (1, 2, 3). */
  const EXAMPLE: Player := Player(42, "ok", Vector3(0x3F80_0000, 0x4000_0000, 0x4040_0000))

  /** The example occupies 22 bytes: the id, the name's prefix and UTF-8 bytes, and the
      three coordinates, each little-endian. */
  lemma ExampleLayout()
    ensures PlayerWritable(EXAMPLE)
    ensures SerializePlayer(New(), EXAMPLE).bytes
         == [42, 0, 0, 0] + ([2, 0, 0, 0] + [0x6F, 0x6B])
          + ([0, 0, 0x80, 0x3F] + [0, 0, 0, 0x40] + [0, 0, 0x40, 0x40])
  {
    ExampleFields();
    // Solver economy only: hides definitions this proof does not unfold.
    hide Utf8.Encode, Utf8.Decode, Utf8.EncodeScalar, Utf8.DecodeScalar;
    hide LittleEndian.ToBytes, LittleEndian.FromBytes, LittleEndian.ToSigned, LittleEndian.ToUnsigned;
    hide SerializePlayer, EncodeInt, EncodeVector3;
  }

  /** The example reads back from a reset stream, leaving the cursor at 22, the end. */
  lemma ExampleRoundTrip()
    ensures PlayerWritable(EXAMPLE)
    ensures
      var w := SerializePlayer(New(), EXAMPLE);
      DeserializePlayer(Reset(w)) == Ok((Stream(w.bytes, 22), EXAMPLE))
  {
    var w := SerializePlayer(New(), EXAMPLE);
    ExampleLayout();
    // Solver economy only: hides definitions this proof does not unfold.
    hide Utf8.Encode, Utf8.Decode, Utf8.EncodeScalar, Utf8.DecodeScalar;
    hide LittleEndian.ToBytes, LittleEndian.FromBytes, LittleEndian.ToSigned, LittleEndian.ToUnsigned;
    hide SerializePlayer, DeserializePlayer, EncodedAt, PlayerBytes;
    ResetEncoded(w);
    DeserializePlayerEncoded(Reset(w), EXAMPLE);
  }

  /** The field encodings the example is built from. */
  lemma ExampleFields()
    ensures EncodeInt(42) == [42, 0, 0, 0] && EncodeInt(2) == [2, 0, 0, 0]
    ensures Utf8.Encode("ok") == [0x6F, 0x6B]
    ensures EncodeVector3(Vector3(0x3F80_0000, 0x4000_0000, 0x4040_0000))
         == [0, 0, 0x80, 0x3F] + [0, 0, 0, 0x40] + [0, 0, 0x40, 0x40]
  {
    IntBytes(42, [42, 0, 0, 0]);
    IntBytes(2, [2, 0, 0, 0]);
    assert Utf8.Encode("ok") == [0x6F, 0x6B];
    var x, y, z := [0, 0, 0x80, 0x3F], [0, 0, 0, 0x40], [0, 0, 0x40, 0x40];
    FloatBytes(0x3F80_0000, x);
    FloatBytes(0x4000_0000, y);
    FloatBytes(0x4040_0000, z);
  }

  /** Four bytes spelling a non-negative int are that int's encoding. */
  lemma IntBytes(n: int32, b: seq<uint8>)
    requires |b| == INT_SIZE && 0 <= n == b[0] + 0x100 * (b[1] as int) + 0x1_0000 * (b[2] as int) + 0x100_0000 * (b[3] as int)
    ensures EncodeInt(n) == b
  {
    FromFourBytes(b);
    DecodeThenEncode(b);
  }

  /** Four bytes spelling a float bit pattern are that pattern's encoding. */
  lemma FloatBytes(n: float32, b: seq<uint8>)
    requires |b| == FLOAT_SIZE && n == b[0] + 0x100 * (b[1] as int) + 0x1_0000 * (b[2] as int) + 0x100_0000 * (b[3] as int)
    ensures EncodeFloat(n) == b
  {
    FromFourBytes(b);
    DecodeThenEncode(b);
  }

  lemma FromFourBytes(b: seq<uint8>)
    requires |b| == 4
    ensures FromBytes(b) == b[0] + 0x100 * (b[1] as int) + 0x1_0000 * (b[2] as int) + 0x100_0000 * (b[3] as int)
  {
    assert FromBytes(b[3..]) == b[3] by { assert b[3..][1..] == []; }
    assert FromBytes(b[2..]) == b[2] + 0x100 * FromBytes(b[3..]) by { assert b[2..][1..] == b[3..]; }
    assert FromBytes(b[1..]) == b[1] + 0x100 * FromBytes(b[2..]) by { assert b[1..][1..] == b[2..]; }
  }
}
