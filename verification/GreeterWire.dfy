/**
 The byte format of the messages between the display manager and its greeter:
 big-endian 32-bit integers and length-prefixed strings behind an 8-byte header.
 */
module GreeterWire {
  import opened ByteTypes

  /** A C string's bytes; its length is a 32-bit size. */
  type Chars = s: seq<Byte> | |s| < 0x1_0000_0000

  const HEADER_SIZE: nat := 8
  const MAX_MESSAGE_LENGTH: nat := 1024
  const API_VERSION: UInt32 := 1

  /** One argument of a message. */
  datatype Field = Num(value: UInt32) | Text(bytes: Chars)

  // ----- What a message should look like -----

  /** The `n` low bytes of `v`, most significant first. */
  function BigEndian(v: nat, n: nat): (b: Bytes)
    ensures |b| == n
  {
    if n == 0 then [] else BigEndian(v / 0x100, n - 1) + [v % 0x100]
  }

  function FromBigEndian(b: Bytes): nat {
    if b == [] then 0 else FromBigEndian(b[..|b| - 1]) * 0x100 + b[|b| - 1]
  }

  lemma {:induction false} BigEndianRoundTrip(v: nat, n: nat)
    requires v < Power256(n)
    ensures FromBigEndian(BigEndian(v, n)) == v
  {
    if n > 0 {
      BigEndianRoundTrip(v / 0x100, n - 1);
      assert BigEndian(v, n)[..n - 1] == BigEndian(v / 0x100, n - 1);
    }
  }

  lemma {:induction false} FromBigEndianBound(b: Bytes)
    ensures FromBigEndian(b) < Power256(|b|)
  {
    if b != [] {
      FromBigEndianBound(b[..|b| - 1]);
    }
  }

  function IntBytes(v: UInt32): (b: Bytes)
    ensures |b| == 4
  {
    BigEndian(v, 4)
  }

  function IntOf(b: Bytes): UInt32
    requires |b| == 4
  {
    FromBigEndianBound(b);
    Power256Of4();
    FromBigEndian(b)
  }

  lemma IntRoundTrip(v: UInt32)
    ensures IntOf(IntBytes(v)) == v
  {
    Power256Of4();
    BigEndianRoundTrip(v, 4);
  }

  lemma IntBytesAre(v: UInt32)
    ensures IntBytes(v) == [v / 0x100_0000, v / 0x1_0000 % 0x100, v / 0x100 % 0x100, v % 0x100]
  {
    var v1, v2, v3 := v / 0x100, v / 0x100 / 0x100, v / 0x100 / 0x100 / 0x100;
    assert v2 == v / 0x1_0000 && v3 == v / 0x100_0000;
    assert BigEndian(v3, 1) == [v3 % 0x100];
    assert BigEndian(v2, 2) == [v3 % 0x100, v2 % 0x100];
    assert BigEndian(v1, 3) == [v3 % 0x100, v2 % 0x100, v1 % 0x100];
  }

  lemma IntIs(b: Bytes)
    requires |b| == 4
    ensures IntOf(b) == 0x100_0000 * (b[0] as int) + 0x1_0000 * (b[1] as int) + 0x100 * (b[2] as int) + b[3] as int
  {
    var b1, b2, b3 := b[..3], b[..2], b[..1];
    assert b1[..2] == b2 && b2[..1] == b3 && FromBigEndian(b3) == b[0];
    assert FromBigEndian(b2) == 0x100 * FromBigEndian(b3) + b[1];
    assert FromBigEndian(b1) == 0x100 * FromBigEndian(b2) + b[2];
  }

  function FieldSize(f: Field): nat {
    match f
    case Num(_) => 4
    case Text(s) => 4 + |s|
  }

  function Size(fields: seq<Field>): nat {
    if fields == [] then 0 else FieldSize(fields[0]) + Size(fields[1..])
  }

  function EncodeField(f: Field): (b: Bytes)
    ensures |b| == FieldSize(f)
  {
    match f
    case Num(v) => IntBytes(v)
    case Text(s) => IntBytes(|s|) + s
  }

  function Encode(fields: seq<Field>): (b: Bytes)
    ensures |b| == Size(fields)
  {
    if fields == [] then [] else EncodeField(fields[0]) + Encode(fields[1..])
  }

  // ----- What the bounded writer produces -----

  /** What has been written after one more integer: nothing more if it would reach the limit. */
  function PutInt(limit: nat, out: Bytes, v: UInt32): Bytes {
    if |out| + 4 >= limit then out else out + IntBytes(v)
  }

  function PutText(limit: nat, out: Bytes, s: Chars): Bytes {
    var out1 := PutInt(limit, out, |s|);
    if |out1| + |s| >= limit then out1 else out1 + s
  }

  function PutField(limit: nat, out: Bytes, f: Field): Bytes {
    match f
    case Num(v) => PutInt(limit, out, v)
    case Text(s) => PutText(limit, out, s)
  }

  function PutAll(limit: nat, out: Bytes, fields: seq<Field>): Bytes
    decreases |fields|
  {
    if fields == [] then out else PutAll(limit, PutField(limit, out, fields[0]), fields[1..])
  }

  lemma PutFieldExact(limit: nat, out: Bytes, f: Field)
    requires |out| < limit
    ensures |PutField(limit, out, f)| < limit
    ensures |out| + FieldSize(f) < limit ==> PutField(limit, out, f) == out + EncodeField(f)
  {
    if f.Text? && |out| + FieldSize(f) < limit {
      assert out + IntBytes(|f.bytes|) + f.bytes == out + (IntBytes(|f.bytes|) + f.bytes);
    }
  }

  /** The bounded writer writes the whole encoding exactly when that stays below the limit. */
  lemma {:induction false} PutAllExact(limit: nat, out: Bytes, fields: seq<Field>)
    requires |out| < limit
    ensures |PutAll(limit, out, fields)| < limit
    ensures PutAll(limit, out, fields) == out + Encode(fields) <==> |out| + Size(fields) < limit
    decreases |fields|
  {
    if fields == [] {
      assert out + [] == out;
    } else {
      var out1 := PutField(limit, out, fields[0]);
      PutFieldExact(limit, out, fields[0]);
      PutAllExact(limit, out1, fields[1..]);
      if |out| + Size(fields) < limit {
        assert out + Encode(fields) == out1 + Encode(fields[1..]);
      } else {
        assert |out + Encode(fields)| >= limit;
      }
    }
  }

  method WriteInt(buffer: array<Byte>, value: UInt32, offset: nat) returns (offset': nat)
    requires offset <= buffer.Length
    modifies buffer
    ensures offset <= offset' <= buffer.Length
    ensures buffer[..offset'] == PutInt(buffer.Length, old(buffer[..offset]), value)
  {
    if offset + 4 >= buffer.Length {
      return offset;
    }
    IntBytesAre(value);
    buffer[offset] := value / 0x100_0000;
    buffer[offset + 1] := value / 0x1_0000 % 0x100;
    buffer[offset + 2] := value / 0x100 % 0x100;
    buffer[offset + 3] := value % 0x100;
    offset' := offset + 4;
  }

  method WriteString(buffer: array<Byte>, value: Chars, offset: nat) returns (offset': nat)
    requires offset <= buffer.Length
    modifies buffer
    ensures offset <= offset' <= buffer.Length
    ensures buffer[..offset'] == PutText(buffer.Length, old(buffer[..offset]), value)
  {
    offset' := WriteInt(buffer, |value|, offset);
    if offset' + |value| >= buffer.Length {
      return;
    }
    var start := offset';
    var i := 0;
    ghost var head := buffer[..start];
    while i < |value|
      invariant i <= |value|
      invariant buffer[..start + i] == head + value[..i]
    {
      buffer[start + i] := value[i];
      i := i + 1;
    }
    offset' := start + |value|;
  }

  method WriteHeader(buffer: array<Byte>, id: UInt32, length: UInt32) returns (offset: nat)
    requires HEADER_SIZE < buffer.Length
    modifies buffer
    ensures offset == HEADER_SIZE && buffer[..offset] == IntBytes(id) + IntBytes(length)
  {
    offset := WriteInt(buffer, id, 0);
    assert buffer[..offset] == IntBytes(id);
    offset := WriteInt(buffer, length, offset);
  }

  method WriteFields(buffer: array<Byte>, fields: seq<Field>, offset: nat) returns (offset': nat)
    requires offset <= buffer.Length
    modifies buffer
    ensures offset <= offset' <= buffer.Length
    ensures buffer[..offset'] == PutAll(buffer.Length, old(buffer[..offset]), fields)
  {
    offset' := offset;
    var i := 0;
    while i < |fields|
      invariant i <= |fields| && offset <= offset' <= buffer.Length
      invariant PutAll(buffer.Length, buffer[..offset'], fields[i..])
                == PutAll(buffer.Length, old(buffer[..offset]), fields)
    {
      assert fields[i..][1..] == fields[i + 1..];
      match fields[i] {
        case Num(v) => offset' := WriteInt(buffer, v, offset');
        case Text(s) => offset' := WriteString(buffer, s, offset');
      }
      i := i + 1;
    }
  }

  // ----- The messages the server sends -----

  datatype ServerMessage =
    | Connected(version: Chars, hints: seq<(Chars, Chars)>)
    | ConnectedV2(apiVersion: UInt32, version: Chars, hints: seq<(Chars, Chars)>)
    | PromptAuthentication(sequence: UInt32, username: Chars, prompts: seq<(UInt32, Chars)>)
    | EndAuthentication(sequence: UInt32, username: Chars, result: UInt32)
    | SessionResult(started: bool)
    | SharedDirResult(dir: Chars)
    | Idle
    | Reset(hints: seq<(Chars, Chars)>)
  {
    function Id(): UInt32 {
      match this
      case Connected(_, _) => 0
      case PromptAuthentication(_, _, _) => 1
      case EndAuthentication(_, _, _) => 2
      case SessionResult(_) => 3
      case SharedDirResult(_) => 4
      case Idle => 5
      case Reset(_) => 6
      case ConnectedV2(_, _, _) => 7
    }

    /** The fields in the order they are written. */
    function Fields(): seq<Field> {
      match this
      case Connected(version, hints) => [Text(version)] + HintFields(hints)
      case ConnectedV2(api, version, hints) =>
        [Num(if api <= API_VERSION then api else API_VERSION), Text(version), Num(|hints| % 0x1_0000_0000)]
        + HintFields(hints)
      case PromptAuthentication(sequence, username, prompts) =>
        [Num(sequence), Text(username), Num(|prompts| % 0x1_0000_0000)] + PromptFields(prompts)
      case EndAuthentication(sequence, username, result) => [Num(sequence), Text(username), Num(result)]
      case SessionResult(started) => [Num(if started then 0 else 1)]
      case SharedDirResult(dir) => [Text(dir)]
      case Idle => []
      case Reset(hints) => HintFields(hints)
    }

    /** The length the sender computes for the header before it writes any field. */
    function HeaderLength(): nat {
      match this
      case Connected(version, hints) => StringLength(version) + HintLength(hints)
      case ConnectedV2(_, version, hints) => StringLength(version) + 4 * 2 + HintLength(hints)
      case PromptAuthentication(_, username, prompts) => 4 + StringLength(username) + 4 + PromptLength(prompts)
      case EndAuthentication(_, username, _) => 4 + StringLength(username) + 4
      case SessionResult(_) => 4
      case SharedDirResult(dir) => StringLength(dir)
      case Idle => 0
      case Reset(hints) => HintLength(hints)
    }
  }

  function StringLength(s: Chars): nat {
    4 + |s|
  }

  function HintFields(hints: seq<(Chars, Chars)>): seq<Field> {
    if hints == [] then [] else [Text(hints[0].0), Text(hints[0].1)] + HintFields(hints[1..])
  }

  function HintLength(hints: seq<(Chars, Chars)>): nat {
    if hints == [] then 0 else StringLength(hints[0].0) + StringLength(hints[0].1) + HintLength(hints[1..])
  }

  function PromptFields(prompts: seq<(UInt32, Chars)>): seq<Field> {
    if prompts == [] then [] else [Num(prompts[0].0), Text(prompts[0].1)] + PromptFields(prompts[1..])
  }

  function PromptLength(prompts: seq<(UInt32, Chars)>): nat {
    if prompts == [] then 0 else 4 + StringLength(prompts[0].1) + PromptLength(prompts[1..])
  }

  lemma {:induction false} SizeConcat(f: seq<Field>, g: seq<Field>)
    ensures Size(f + g) == Size(f) + Size(g)
  {
    if f == [] {
      assert f + g == g;
    } else {
      assert (f + g)[1..] == f[1..] + g;
      SizeConcat(f[1..], g);
    }
  }

  lemma {:induction false} HintSize(hints: seq<(Chars, Chars)>)
    ensures Size(HintFields(hints)) == HintLength(hints)
  {
    if hints != [] {
      var f := [Text(hints[0].0), Text(hints[0].1)];
      SizeConcat(f, HintFields(hints[1..]));
      HintSize(hints[1..]);
      assert Size(f[1..]) == FieldSize(f[1]);
    }
  }

  lemma {:induction false} PromptSize(prompts: seq<(UInt32, Chars)>)
    ensures Size(PromptFields(prompts)) == PromptLength(prompts)
  {
    if prompts != [] {
      var f := [Num(prompts[0].0), Text(prompts[0].1)];
      SizeConcat(f, PromptFields(prompts[1..]));
      PromptSize(prompts[1..]);
      assert Size(f[1..]) == FieldSize(f[1]);
    }
  }

  lemma SizeOf3(f: seq<Field>)
    requires |f| == 3
    ensures Size(f) == FieldSize(f[0]) + FieldSize(f[1]) + FieldSize(f[2])
  {
    assert f[1..][1..] == [f[2]];
    assert Size(f[1..]) == FieldSize(f[1]) + Size([f[2]]);
  }

  /** The length written in the header is the number of payload bytes that follow. */
  lemma HeaderLengthExact(msg: ServerMessage)
    ensures msg.HeaderLength() == Size(msg.Fields())
  {
    match msg
    case Connected(version, hints) =>
      SizeConcat([Text(version)], HintFields(hints));
      HintSize(hints);
    case ConnectedV2(api, version, hints) =>
      var f := [Num(if api <= API_VERSION then api else API_VERSION), Text(version), Num(|hints| % 0x1_0000_0000)];
      SizeConcat(f, HintFields(hints));
      HintSize(hints);
      SizeOf3(f);
    case PromptAuthentication(sequence, username, prompts) =>
      var f := [Num(sequence), Text(username), Num(|prompts| % 0x1_0000_0000)];
      SizeConcat(f, PromptFields(prompts));
      PromptSize(prompts);
      SizeOf3(f);
    case EndAuthentication(sequence, username, result) =>
      var f := [Num(sequence), Text(username), Num(result)];
      SizeOf3(f);
    case Reset(hints) => HintSize(hints);
    case _ =>
  }

  method BuildFrame(buffer: array<Byte>, id: UInt32, length: UInt32, fields: seq<Field>) returns (offset: nat)
    requires HEADER_SIZE < buffer.Length
    modifies buffer
    ensures offset < buffer.Length
    ensures HEADER_SIZE + Size(fields) < buffer.Length ==>
      buffer[..offset] == IntBytes(id) + IntBytes(length) + Encode(fields)
  {
    offset := WriteHeader(buffer, id, length);
    PutAllExact(buffer.Length, buffer[..offset], fields);
    offset := WriteFields(buffer, fields, offset);
  }

  /** Builds a message as every sender does: header first, then the fields, into a 1024-byte buffer. */
  method BuildMessage(buffer: array<Byte>, msg: ServerMessage) returns (offset: nat)
    requires buffer.Length == MAX_MESSAGE_LENGTH
    modifies buffer
    ensures offset < MAX_MESSAGE_LENGTH
    ensures offset == HEADER_SIZE + msg.HeaderLength() <==> HEADER_SIZE + msg.HeaderLength() < MAX_MESSAGE_LENGTH
    ensures HEADER_SIZE + msg.HeaderLength() < MAX_MESSAGE_LENGTH ==>
      buffer[..offset] == IntBytes(msg.Id()) + IntBytes(msg.HeaderLength()) + Encode(msg.Fields())
  {
    hide IntBytes, Encode, Size, ServerMessage.Fields, ServerMessage.HeaderLength;
    HeaderLengthExact(msg);
    var length := msg.HeaderLength() % 0x1_0000_0000;
    offset := BuildFrame(buffer, msg.Id(), length, msg.Fields());
    if HEADER_SIZE + msg.HeaderLength() < MAX_MESSAGE_LENGTH {
      assert |buffer[..offset]| == HEADER_SIZE + Size(msg.Fields());
    }
  }

  // ----- The reader -----

  /** The integer at `offset` and the offset behind it; 0 and no advance if the data ends first. */
  function ReadInt(d: Bytes, offset: nat): (UInt32, nat)
    requires offset <= |d|
  {
    if |d| - offset < 4 then (0, offset) else (IntOf(d[offset..offset + 4]), offset + 4)
  }

  function ReadString(d: Bytes, offset: nat): (r: (Chars, nat))
    requires offset <= |d|
    ensures offset <= r.1 <= |d|
  {
    var (length, start) := ReadInt(d, offset);
    if |d| - start < length then ([], start) else (d[start..start + length], start + length)
  }

  /** A read advances exactly if the data is there; otherwise it gives 0 or the empty string. */
  lemma ReadShort(d: Bytes, offset: nat)
    requires offset <= |d|
    ensures var (v, next) := ReadInt(d, offset);
      next == (if offset + 4 <= |d| then offset + 4 else offset) && (next == offset ==> v == 0)
    ensures var (s, end) := ReadString(d, offset);
      var (length, start) := ReadInt(d, offset);
      && (start + length <= |d| ==> end == start + length && s == d[start..end])
      && (start + length > |d| ==> end == start && s == [])
  {
  }

  /** Calling the reader once per field, in order from `offset` on, returns exactly `fields` and ends at `end`. */
  predicate ReadsBack(d: Bytes, offset: nat, fields: seq<Field>, end: nat)
    requires offset <= |d|
    decreases |fields|
  {
    if fields == [] then offset == end
    else if fields[0].Num? then
      var (v, next) := ReadInt(d, offset);
      v == fields[0].value && ReadsBack(d, next, fields[1..], end)
    else
      var (s, next) := ReadString(d, offset);
      s == fields[0].bytes && ReadsBack(d, next, fields[1..], end)
  }

  lemma ReadOne(d: Bytes, offset: nat, f: Field)
    requires offset + FieldSize(f) <= |d| && d[offset..offset + FieldSize(f)] == EncodeField(f)
    ensures f.Num? ==> ReadInt(d, offset) == (f.value, offset + FieldSize(f))
    ensures f.Text? ==> ReadString(d, offset) == (f.bytes, offset + FieldSize(f))
  {
    var e := EncodeField(f);
    assert d[offset..offset + 4] == e[..4];
    match f
    case Num(v) => IntRoundTrip(v);
    case Text(s) =>
      IntRoundTrip(|s|);
      assert d[offset + 4..offset + 4 + |s|] == e[4..];
  }

  lemma SliceParts(d: Bytes, offset: nat, a: Bytes, b: Bytes)
    requires offset + |a| + |b| <= |d| && d[offset..offset + |a| + |b|] == a + b
    ensures d[offset..offset + |a|] == a && d[offset + |a|..offset + |a| + |b|] == b
  {
    var e := d[offset..offset + |a| + |b|];
    assert d[offset..offset + |a|] == e[..|a|];
    assert d[offset + |a|..offset + |a| + |b|] == e[|a|..];
  }

  /** Reading in field order recovers every integer and string, wherever the fields stand. */
  lemma {:induction false} ReadRecovers(d: Bytes, offset: nat, fields: seq<Field>)
    requires offset + Size(fields) <= |d| && d[offset..offset + Size(fields)] == Encode(fields)
    ensures ReadsBack(d, offset, fields, offset + Size(fields))
    decreases |fields|
  {
    hide ReadInt, ReadString, IntBytes;
    if fields != [] {
      var f, rest := fields[0], fields[1..];
      SliceParts(d, offset, EncodeField(f), Encode(rest));
      ReadOne(d, offset, f);
      ReadRecovers(d, offset + FieldSize(f), rest);
    }
  }

  lemma FrameRecovered(id: UInt32, length: UInt32, fields: seq<Field>)
    ensures var d := IntBytes(id) + IntBytes(length) + Encode(fields);
      && ReadInt(d, 0) == (id, 4)
      && ReadInt(d, 4) == (length, HEADER_SIZE)
      && ReadsBack(d, HEADER_SIZE, fields, |d|)
  {
    var a, b, c := IntBytes(id), IntBytes(length), Encode(fields);
    var d := a + b + c;
    assert d[0..4] == a && d[4..8] == b && d[8..8 + |c|] == c;
    IntRoundTrip(id);
    IntRoundTrip(length);
    ReadRecovers(d, 8, fields);
  }

  /** A message that fits is read back whole: its id, its length and all its fields. */
  lemma MessageRecovered(msg: ServerMessage)
    requires HEADER_SIZE + msg.HeaderLength() < MAX_MESSAGE_LENGTH
    ensures var d := IntBytes(msg.Id()) + IntBytes(msg.HeaderLength()) + Encode(msg.Fields());
      && ReadInt(d, 0) == (msg.Id(), 4)
      && ReadInt(d, 4) == (|d| - HEADER_SIZE, HEADER_SIZE)
      && ReadsBack(d, HEADER_SIZE, msg.Fields(), |d|)
  {
    HeaderLengthExact(msg);
    FrameRecovered(msg.Id(), msg.HeaderLength(), msg.Fields());
  }
}
