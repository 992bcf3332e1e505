/**
 The messages a greeter sends, and how read_cb takes one apart.
 */
module GreeterRequest {
  import opened ByteTypes
  import opened GreeterWire
  import opened GreeterReader

  datatype Request =
    | Connect(version: Chars, resettable: bool, apiVersion: UInt32)
    | Authenticate(sequence: UInt32, username: Chars)
    | AuthenticateAsGuest(sequence: UInt32)
    | ContinueAuthentication(secrets: seq<Chars>)
    | StartSession(session: Chars)
    | CancelAuthentication
    | SetLanguage(language: Chars)
    | AuthenticateRemote(sequence: UInt32, session: Chars, username: Chars)
    | EnsureSharedDir(username: Chars)
    | TooManySecrets
    | Unknown(id: UInt32)

  /** The switch of read_cb: which handler a complete message reaches, with which arguments. */
  function Decode(d: Bytes): Request
    requires HEADER_SIZE <= |d|
  {
    var id := ReadInt(d, 0).0;
    var length := (HEADER_SIZE + ReadInt(d, 4).0) % 0x1_0000_0000;
    var (n, afterInt) := ReadInt(d, HEADER_SIZE);
    var (s, afterString) := ReadString(d, HEADER_SIZE);
    match id
    case 0 =>
      var (r, afterReset) := if afterString < length then ReadInt(d, afterString) else (0, afterString);
      var api := if afterReset < length then ReadInt(d, afterReset).0 else 0;
      Connect(s, r != 0, api)
    case 1 => Authenticate(n, ReadString(d, afterInt).0)
    case 2 => AuthenticateAsGuest(n)
    case 3 => if n > MAX_SECRETS then TooManySecrets else ContinueAuthentication(ReadSecrets(d, afterInt, n))
    case 4 => StartSession(s)
    case 5 => CancelAuthentication
    case 6 => SetLanguage(s)
    case 7 =>
      var (session, next) := ReadString(d, afterInt);
      AuthenticateRemote(n, session, ReadString(d, next).0)
    case 8 => EnsureSharedDir(s)
    case _ => Unknown(id)
  }

  function ReadSecrets(d: Bytes, offset: nat, n: nat): seq<Chars>
    requires offset <= |d|
    decreases n
  {
    if n == 0 then [] else
    var (secret, next) := ReadString(d, offset);
    [secret] + ReadSecrets(d, next, n - 1)
  }

  // ----- The protocol's field order -----

  function RequestId(r: Request): UInt32 {
    match r
    case Connect(_, _, _) => 0
    case Authenticate(_, _) => 1
    case AuthenticateAsGuest(_) => 2
    case ContinueAuthentication(_) => 3
    case TooManySecrets => 3
    case StartSession(_) => 4
    case CancelAuthentication => 5
    case SetLanguage(_) => 6
    case AuthenticateRemote(_, _, _) => 7
    case EnsureSharedDir(_) => 8
    case Unknown(id) => id
  }

  function RequestFields(r: Request): seq<Field> {
    match r
    case Connect(version, resettable, api) => [Text(version), Num(if resettable then 1 else 0), Num(api)]
    case Authenticate(sequence, username) => [Num(sequence), Text(username)]
    case AuthenticateAsGuest(sequence) => [Num(sequence)]
    case ContinueAuthentication(secrets) => [Num(|secrets| % 0x1_0000_0000)] + SecretFields(secrets)
    case StartSession(session) => [Text(session)]
    case SetLanguage(language) => [Text(language)]
    case AuthenticateRemote(sequence, session, username) => [Num(sequence), Text(session), Text(username)]
    case EnsureSharedDir(username) => [Text(username)]
    case _ => []
  }

  function SecretFields(secrets: seq<Chars>): seq<Field> {
    if secrets == [] then [] else [Text(secrets[0])] + SecretFields(secrets[1..])
  }

  function RequestFrame(r: Request): Bytes
    requires HEADER_SIZE + Size(RequestFields(r)) < 0x1_0000_0000
  {
    IntBytes(RequestId(r)) + IntBytes(Size(RequestFields(r))) + Encode(RequestFields(r))
  }

  /** The requests a greeter can express: a count the reader accepts, and an id it knows. */
  predicate Expressible(r: Request) {
    && HEADER_SIZE + Size(RequestFields(r)) < 0x1_0000_0000
    && (r.ContinueAuthentication? ==> |r.secrets| <= MAX_SECRETS)
    && !r.TooManySecrets?
    && (r.Unknown? ==> r.id > 8)
  }

  lemma ReadsBackStep(d: Bytes, offset: nat, f: Field, rest: seq<Field>, end: nat)
    requires offset <= |d| && ReadsBack(d, offset, [f] + rest, end)
    ensures f.Num? ==> ReadInt(d, offset).0 == f.value && ReadsBack(d, ReadInt(d, offset).1, rest, end)
    ensures f.Text? ==> ReadString(d, offset).0 == f.bytes && ReadsBack(d, ReadString(d, offset).1, rest, end)
  {
    hide ReadInt, ReadString;
    assert ([f] + rest)[1..] == rest;
  }

  lemma {:induction false} SecretsRecovered(d: Bytes, offset: nat, secrets: seq<Chars>, end: nat)
    requires offset <= |d| && ReadsBack(d, offset, SecretFields(secrets), end)
    ensures ReadSecrets(d, offset, |secrets|) == secrets
    decreases |secrets|
  {
    hide ReadInt, ReadString;
    if secrets != [] {
      ReadsBackStep(d, offset, Text(secrets[0]), SecretFields(secrets[1..]), end);
      SecretsRecovered(d, ReadString(d, offset).1, secrets[1..], end);
      assert [secrets[0]] + secrets[1..] == secrets;
    }
  }

  lemma FrameFacts(r: Request)
    requires HEADER_SIZE + Size(RequestFields(r)) < 0x1_0000_0000
    ensures var d := RequestFrame(r);
      && |d| == HEADER_SIZE + Size(RequestFields(r))
      && ReadInt(d, 0).0 == RequestId(r)
      && (HEADER_SIZE + ReadInt(d, 4).0) % 0x1_0000_0000 == |d|
      && MessageLength(d) == |d|
      && ReadsBack(d, HEADER_SIZE, RequestFields(r), |d|)
  {
    hide ReadInt, ReadString, IntBytes, Encode, ReadsBack, RequestFields, RequestId;
    FrameRecovered(RequestId(r), Size(RequestFields(r)), RequestFields(r));
  }

  lemma ConnectRecovered(d: Bytes, r: Request)
    requires r.Connect? && HEADER_SIZE <= |d| && ReadInt(d, 0).0 == 0
    requires (HEADER_SIZE + ReadInt(d, 4).0) % 0x1_0000_0000 == |d|
    requires ReadsBack(d, HEADER_SIZE, RequestFields(r), |d|)
    ensures Decode(d) == r
  {
    hide ReadString;
    var f := RequestFields(r);
    var flag, api := Num(if r.resettable then 1 else 0), Num(r.apiVersion);
    assert f == [Text(r.version)] + ([flag] + ([api] + []));
    ReadsBackStep(d, HEADER_SIZE, Text(r.version), [flag] + ([api] + []), |d|);
    var o1 := ReadString(d, HEADER_SIZE).1;
    ReadsBackStep(d, o1, flag, [api] + [], |d|);
    ReadsBackStep(d, ReadInt(d, o1).1, api, [], |d|);
  }

  /** A frame of CONNECT with the given fields. */
  function ConnectFrame(fields: seq<Field>): Bytes
    requires HEADER_SIZE + Size(fields) < 0x1_0000_0000
  {
    IntBytes(0) + IntBytes(Size(fields)) + Encode(fields)
  }

  /** The oldest greeters send their version only: they count as not resettable and of version 0. */
  lemma OldestConnectDecoded(version: Chars)
    requires HEADER_SIZE + Size([Text(version)]) < 0x1_0000_0000
    ensures HEADER_SIZE <= |ConnectFrame([Text(version)])|
    ensures Decode(ConnectFrame([Text(version)])) == Connect(version, false, 0)
  {
    var f := [Text(version)];
    var d := ConnectFrame(f);
    hide ReadString, ReadInt, IntBytes, Encode, Size;
    FrameRecovered(0, Size(f), f);
    assert f == [Text(version)] + [];
    ReadsBackStep(d, HEADER_SIZE, Text(version), [], |d|);
  }

  /** Older greeters send no protocol version: it counts as 0. */
  lemma OldConnectDecoded(version: Chars, flag: UInt32)
    requires HEADER_SIZE + Size([Text(version), Num(flag)]) < 0x1_0000_0000
    ensures HEADER_SIZE <= |ConnectFrame([Text(version), Num(flag)])|
    ensures Decode(ConnectFrame([Text(version), Num(flag)])) == Connect(version, flag != 0, 0)
  {
    var f := [Text(version), Num(flag)];
    var d := ConnectFrame(f);
    ConnectFlagThere(d, version, flag);
    hide ReadString, ReadInt, IntBytes, Encode, Size;
    FrameRecovered(0, Size(f), f);
    assert f == [Text(version)] + ([Num(flag)] + []);
    ReadsBackStep(d, HEADER_SIZE, Text(version), [Num(flag)] + [], |d|);
    ReadsBackStep(d, ReadString(d, HEADER_SIZE).1, Num(flag), [], |d|);
  }

  lemma ConnectFlagThere(d: Bytes, version: Chars, flag: UInt32)
    requires HEADER_SIZE + Size([Text(version), Num(flag)]) < 0x1_0000_0000
    requires d == ConnectFrame([Text(version), Num(flag)])
    ensures HEADER_SIZE <= |d| && ReadString(d, HEADER_SIZE).1 < |d|
  {
    var f := [Text(version), Num(flag)];
    assert f[1..] == [Num(flag)];
    assert Encode(f) == EncodeField(f[0]) + Encode(f[1..]);
    assert d[HEADER_SIZE..HEADER_SIZE + FieldSize(f[0])] == EncodeField(f[0]);
    hide IntBytes, Encode, ReadString;
    ReadOne(d, HEADER_SIZE, f[0]);
  }

  lemma RemoteRecovered(d: Bytes, r: Request)
    requires r.AuthenticateRemote? && HEADER_SIZE <= |d| && ReadInt(d, 0).0 == 7
    requires ReadsBack(d, HEADER_SIZE, RequestFields(r), |d|)
    ensures Decode(d) == r
  {
    hide ReadInt, ReadString;
    var f := RequestFields(r);
    assert f == [Num(r.sequence)] + ([Text(r.session)] + ([Text(r.username)] + []));
    ReadsBackStep(d, HEADER_SIZE, Num(r.sequence), [Text(r.session)] + ([Text(r.username)] + []), |d|);
    var o1 := ReadInt(d, HEADER_SIZE).1;
    ReadsBackStep(d, o1, Text(r.session), [Text(r.username)] + [], |d|);
    ReadsBackStep(d, ReadString(d, o1).1, Text(r.username), [], |d|);
  }

  /** Every request a greeter can express reaches the handler it names, with its own arguments. */
  lemma RequestRecovered(r: Request)
    requires Expressible(r)
    ensures |RequestFrame(r)| >= HEADER_SIZE && Decode(RequestFrame(r)) == r
    ensures MessageLength(RequestFrame(r)) == |RequestFrame(r)|
  {
    hide ReadInt, ReadString, RequestFrame, MessageLength;
    FrameFacts(r);
    var d, f := RequestFrame(r), RequestFields(r);
    match r
    case Connect(_, _, _) => ConnectRecovered(d, r);
    case AuthenticateRemote(_, _, _) => RemoteRecovered(d, r);
    case Authenticate(sequence, username) =>
      assert f == [Num(sequence)] + ([Text(username)] + []);
      ReadsBackStep(d, HEADER_SIZE, f[0], [Text(username)] + [], |d|);
      ReadsBackStep(d, ReadInt(d, HEADER_SIZE).1, Text(username), [], |d|);
    case AuthenticateAsGuest(sequence) =>
      assert f == [Num(sequence)] + [];
      ReadsBackStep(d, HEADER_SIZE, f[0], [], |d|);
    case ContinueAuthentication(secrets) =>
      ReadsBackStep(d, HEADER_SIZE, Num(|secrets|), SecretFields(secrets), |d|);
      SecretsRecovered(d, ReadInt(d, HEADER_SIZE).1, secrets, |d|);
    case StartSession(s) =>
      assert f == [Text(s)] + [];
      ReadsBackStep(d, HEADER_SIZE, f[0], [], |d|);
    case SetLanguage(s) =>
      assert f == [Text(s)] + [];
      ReadsBackStep(d, HEADER_SIZE, f[0], [], |d|);
    case EnsureSharedDir(s) =>
      assert f == [Text(s)] + [];
      ReadsBackStep(d, HEADER_SIZE, f[0], [], |d|);
    case CancelAuthentication =>
    case Unknown(_) =>
  }

  function Frames(requests: seq<Request>): seq<Bytes>
    requires forall i :: 0 <= i < |requests| ==> Expressible(requests[i])
  {
    seq(|requests|, i requires 0 <= i < |requests| && Expressible(requests[i]) => RequestFrame(requests[i]))
  }

  /**
   However the stream of a greeter's requests was cut into reads: once it has been consumed,
   the handlers have been called with exactly those requests, in order.
   */
  lemma StreamRecovered(reader: Reader, requests: seq<Request>)
    requires forall i :: 0 <= i < |requests| ==> Expressible(requests[i])
    requires reader.Valid() && reader.consumed == Flatten(Frames(requests))
    ensures |reader.dispatched| == |requests|
    ensures forall i :: 0 <= i < |requests| ==>
      HEADER_SIZE <= |reader.dispatched[i]| && Decode(reader.dispatched[i]) == requests[i]
  {
    hide ReadInt, ReadString, RequestFrame, MessageLength, Flatten, Batch;
    var frames := Frames(requests);
    forall i | 0 <= i < |frames|
      ensures IsFrame(frames[i]) && Decode(frames[i]) == requests[i]
    {
      RequestRecovered(requests[i]);
      assert frames[i] == RequestFrame(requests[i]);
    }
    BatchOfFlatten(frames, []);
    assert Flatten(frames) + [] == Flatten(frames);
    reader.DispatchedIsBatch();
  }
}
