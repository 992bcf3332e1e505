/**
 The other end of the wire: how the greeter's library takes the server's messages apart. It knows
 the identifiers and the order of the fields by itself, and so says what the server must send.
 */
module GreeterClient {
  import opened ByteTypes
  import opened Options
  import opened GreeterWire

  /** Pairs of strings up to the end of the message; stops where reading no longer advances. */
  function ReadPairsToEnd(d: Bytes, offset: nat): seq<(Chars, Chars)>
    requires offset <= |d|
    decreases |d| - offset
  {
    if offset == |d| then [] else
    var (name, afterName) := ReadString(d, offset);
    var (value, next) := ReadString(d, afterName);
    if next == offset then [] else [(name, value)] + ReadPairsToEnd(d, next)
  }

  function ReadPairs(d: Bytes, offset: nat, n: nat): seq<(Chars, Chars)>
    requires offset <= |d|
    decreases n
  {
    if n == 0 then [] else
    var (name, afterName) := ReadString(d, offset);
    var (value, next) := ReadString(d, afterName);
    [(name, value)] + ReadPairs(d, next, n - 1)
  }

  function ReadPrompts(d: Bytes, offset: nat, n: nat): seq<(UInt32, Chars)>
    requires offset <= |d|
    decreases n
  {
    if n == 0 then [] else
    var (style, afterStyle) := ReadInt(d, offset);
    var (text, next) := ReadString(d, afterStyle);
    [(style, text)] + ReadPrompts(d, next, n - 1)
  }

  /** handle_message: what the client takes a whole message to say; none if it does not know the identifier. */
  function Understand(d: Bytes): Option<ServerMessage>
    requires HEADER_SIZE <= |d|
  {
    var (n, afterInt) := ReadInt(d, 8);
    match ReadInt(d, 0).0
    case 0 =>
      var (version, next) := ReadString(d, 8);
      Some(Connected(version, ReadPairsToEnd(d, next)))
    case 1 =>
      var (username, afterName) := ReadString(d, afterInt);
      var (count, next) := ReadInt(d, afterName);
      Some(PromptAuthentication(n, username, ReadPrompts(d, next, count)))
    case 2 =>
      var (username, afterName) := ReadString(d, afterInt);
      Some(EndAuthentication(n, username, ReadInt(d, afterName).0))
    case 3 => Some(SessionResult(n == 0))
    case 4 => Some(SharedDirResult(ReadString(d, 8).0))
    case 5 => Some(Idle)
    case 6 => Some(Reset(ReadPairsToEnd(d, 8)))
    case 7 =>
      var (version, afterVersion) := ReadString(d, afterInt);
      var (count, next) := ReadInt(d, afterVersion);
      Some(ConnectedV2(n, version, ReadPairs(d, next, count)))
    case _ => None
  }

  /** The message a client should see: the server speaks no newer protocol than version 1. */
  function Seen(msg: ServerMessage): ServerMessage {
    if msg.ConnectedV2? && msg.apiVersion > 1 then msg.(apiVersion := 1) else msg
  }

  /** The fields stand at `offset` and end with the message. */
  predicate Tail(d: Bytes, offset: nat, fields: seq<Field>) {
    offset + Size(fields) == |d| && d[offset..] == Encode(fields)
  }

  /** Reading the first field leaves the rest. */
  lemma TailStep(d: Bytes, offset: nat, f: Field, rest: seq<Field>)
    requires Tail(d, offset, [f] + rest)
    ensures offset + FieldSize(f) <= |d| && Tail(d, offset + FieldSize(f), rest)
    ensures f.Num? ==> ReadInt(d, offset) == (f.value, offset + FieldSize(f))
    ensures f.Text? ==> ReadString(d, offset) == (f.bytes, offset + FieldSize(f))
  {
    hide ReadInt, ReadString, IntBytes;
    assert ([f] + rest)[1..] == rest;
    assert d[offset..] == d[offset..offset + FieldSize(f) + Size(rest)];
    SliceParts(d, offset, EncodeField(f), Encode(rest));
    assert d[offset + FieldSize(f)..] == d[offset + FieldSize(f)..offset + FieldSize(f) + Size(rest)];
    ReadOne(d, offset, f);
  }

  lemma {:induction false} PairsRecovered(d: Bytes, offset: nat, hints: seq<(Chars, Chars)>)
    requires Tail(d, offset, HintFields(hints))
    ensures offset <= |d| && ReadPairs(d, offset, |hints|) == hints == ReadPairsToEnd(d, offset)
    decreases |hints|
  {
    hide ReadString, Encode;
    if hints != [] {
      var (name, value) := hints[0];
      var rest := HintFields(hints[1..]);
      assert HintFields(hints) == [Text(name)] + ([Text(value)] + rest);
      TailStep(d, offset, Text(name), [Text(value)] + rest);
      TailStep(d, offset + FieldSize(Text(name)), Text(value), rest);
      PairsRecovered(d, offset + FieldSize(Text(name)) + FieldSize(Text(value)), hints[1..]);
    }
  }

  lemma {:induction false} PromptsRecovered(d: Bytes, offset: nat, prompts: seq<(UInt32, Chars)>)
    requires Tail(d, offset, PromptFields(prompts))
    ensures offset <= |d| && ReadPrompts(d, offset, |prompts|) == prompts
    decreases |prompts|
  {
    hide ReadInt, ReadString, Encode;
    if prompts != [] {
      var (style, text) := prompts[0];
      var rest := PromptFields(prompts[1..]);
      assert PromptFields(prompts) == [Num(style)] + ([Text(text)] + rest);
      TailStep(d, offset, Num(style), [Text(text)] + rest);
      TailStep(d, offset + 4, Text(text), rest);
      PromptsRecovered(d, offset + 4 + FieldSize(Text(text)), prompts[1..]);
    }
  }

  lemma {:induction false} FewHints(hints: seq<(Chars, Chars)>)
    ensures |hints| <= HintLength(hints)
  {
    if hints != [] {
      FewHints(hints[1..]);
    }
  }

  lemma {:induction false} FewPrompts(prompts: seq<(UInt32, Chars)>)
    ensures |prompts| <= PromptLength(prompts)
  {
    if prompts != [] {
      FewPrompts(prompts[1..]);
    }
  }

  lemma UnderstoodHints(d: Bytes, msg: ServerMessage)
    requires HEADER_SIZE <= |d| && (msg.Connected? || msg.Reset?)
    requires ReadInt(d, 0).0 == msg.Id() && Tail(d, HEADER_SIZE, msg.Fields())
    ensures Understand(d) == Some(msg)
  {
    hide ReadInt, ReadString, Encode, Tail, HintFields, ReadPairsToEnd, ReadPairs;
    match msg
    case Connected(version, hints) =>
      TailStep(d, HEADER_SIZE, Text(version), HintFields(hints));
      PairsRecovered(d, HEADER_SIZE + FieldSize(Text(version)), hints);
    case Reset(hints) => PairsRecovered(d, HEADER_SIZE, hints);
  }

  lemma UnderstoodConnectedV2(d: Bytes, msg: ServerMessage)
    requires HEADER_SIZE <= |d| && msg.ConnectedV2? && |msg.hints| < 0x1_0000_0000
    requires ReadInt(d, 0).0 == msg.Id() && Tail(d, HEADER_SIZE, msg.Fields())
    ensures Understand(d) == Some(Seen(msg))
  {
    hide ReadInt, ReadString, Encode, Tail, HintFields, ReadPairsToEnd, ReadPairs;
    var api, version, hints := Seen(msg).apiVersion, msg.version, msg.hints;
    var h := HintFields(hints);
    assert msg.Fields() == [Num(api)] + ([Text(version)] + ([Num(|hints|)] + h));
    TailStep(d, HEADER_SIZE, Num(api), [Text(version)] + ([Num(|hints|)] + h));
    TailStep(d, HEADER_SIZE + 4, Text(version), [Num(|hints|)] + h);
    TailStep(d, HEADER_SIZE + 4 + FieldSize(Text(version)), Num(|hints|), h);
    PairsRecovered(d, HEADER_SIZE + 8 + FieldSize(Text(version)), hints);
  }

  lemma UnderstoodPrompt(d: Bytes, msg: ServerMessage)
    requires HEADER_SIZE <= |d| && msg.PromptAuthentication? && |msg.prompts| < 0x1_0000_0000
    requires ReadInt(d, 0).0 == msg.Id() && Tail(d, HEADER_SIZE, msg.Fields())
    ensures Understand(d) == Some(msg)
  {
    hide ReadInt, ReadString, Encode, Tail, PromptFields, ReadPrompts;
    var sequence, username, prompts := msg.sequence, msg.username, msg.prompts;
    var p := PromptFields(prompts);
    assert msg.Fields() == [Num(sequence)] + ([Text(username)] + ([Num(|prompts|)] + p));
    TailStep(d, HEADER_SIZE, Num(sequence), [Text(username)] + ([Num(|prompts|)] + p));
    TailStep(d, HEADER_SIZE + 4, Text(username), [Num(|prompts|)] + p);
    TailStep(d, HEADER_SIZE + 4 + FieldSize(Text(username)), Num(|prompts|), p);
    PromptsRecovered(d, HEADER_SIZE + 8 + FieldSize(Text(username)), prompts);
  }

  lemma UnderstoodOther(d: Bytes, msg: ServerMessage)
    requires HEADER_SIZE <= |d| && (msg.EndAuthentication? || msg.SessionResult? || msg.SharedDirResult? || msg.Idle?)
    requires ReadInt(d, 0).0 == msg.Id() && Tail(d, HEADER_SIZE, msg.Fields())
    ensures Understand(d) == Some(msg)
  {
    hide ReadInt, ReadString, Encode, Tail;
    match msg
    case EndAuthentication(sequence, username, result) =>
      assert msg.Fields() == [Num(sequence)] + ([Text(username)] + ([Num(result)] + []));
      TailStep(d, HEADER_SIZE, Num(sequence), [Text(username)] + ([Num(result)] + []));
      TailStep(d, HEADER_SIZE + 4, Text(username), [Num(result)] + []);
      TailStep(d, HEADER_SIZE + 4 + FieldSize(Text(username)), Num(result), []);
    case SessionResult(started) =>
      assert msg.Fields() == [Num(if started then 0 else 1)] + [];
      TailStep(d, HEADER_SIZE, Num(if started then 0 else 1), []);
    case SharedDirResult(dir) =>
      assert msg.Fields() == [Text(dir)] + [];
      TailStep(d, HEADER_SIZE, Text(dir), []);
    case Idle =>
  }

  /** The client understands every message below the limit as the server meant it. */
  lemma Understood(msg: ServerMessage)
    requires HEADER_SIZE + msg.HeaderLength() < MAX_MESSAGE_LENGTH
    ensures var d := IntBytes(msg.Id()) + IntBytes(msg.HeaderLength()) + Encode(msg.Fields());
      Understand(d) == Some(Seen(msg))
  {
    hide Encode, IntBytes, ReadInt, ReadString, HintFields, PromptFields, Understand, ReadsBack;
    HeaderLengthExact(msg);
    MessageRecovered(msg);
    var d := IntBytes(msg.Id()) + IntBytes(msg.HeaderLength()) + Encode(msg.Fields());
    assert d[HEADER_SIZE..] == Encode(msg.Fields());
    match msg
    case Connected(_, _) => UnderstoodHints(d, msg);
    case Reset(_) => UnderstoodHints(d, msg);
    case ConnectedV2(_, _, hints) =>
      FewHints(hints);
      UnderstoodConnectedV2(d, msg);
    case PromptAuthentication(_, _, prompts) =>
      FewPrompts(prompts);
      UnderstoodPrompt(d, msg);
    case _ => UnderstoodOther(d, msg);
  }

  /** A message sent below the limit is the message received. */
  method Exchange(msg: ServerMessage) returns (received: Option<ServerMessage>)
    requires HEADER_SIZE + msg.HeaderLength() < MAX_MESSAGE_LENGTH
    ensures received == Some(if msg.ConnectedV2? && msg.apiVersion > 1 then msg.(apiVersion := 1) else msg)
  {
    hide Understand, Encode, IntBytes;
    var buffer := new Byte[MAX_MESSAGE_LENGTH];
    var offset := BuildMessage(buffer, msg);
    Understood(msg);
    received := Understand(buffer[..offset]);
  }
}
