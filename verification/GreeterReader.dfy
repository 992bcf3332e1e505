/**
 The incremental reader of greeter messages: read_cb assembles length-prefixed frames
 from whatever pieces the channel delivers and dispatches each when it is complete.
 */
module GreeterReader {
  import opened ByteTypes
  import opened GreeterWire

  const CONTINUE_AUTHENTICATION: UInt32 := 3

  /** (G_MAXUINT32 - 1) / sizeof (gchar *) */
  const MAX_SECRETS: UInt32 := 0x3FFF_FFFF

  /** The length of the message whose first bytes are `d`, in 32-bit arithmetic; a length that wraps counts as none. */
  function MessageLength(d: Bytes): (n: UInt32)
    requires HEADER_SIZE <= |d|
    ensures HEADER_SIZE <= n
  {
    var payload := ReadInt(d, 4).0;
    if HEADER_SIZE + payload >= 0x1_0000_0000 then HEADER_SIZE else HEADER_SIZE + payload
  }

  /** The length in the header is big-endian and counts the payload only. */
  lemma LengthIs(d: Bytes)
    requires HEADER_SIZE <= |d|
    ensures var payload: int :=
        0x100_0000 * (d[4] as int) + 0x1_0000 * (d[5] as int) + 0x100 * (d[6] as int) + d[7] as int;
      MessageLength(d) == if payload <= 0xFFFF_FFF7 then 8 + payload else 8
  {
    IntIs(d[4..8]);
  }

  /** A frame whose secret count would overflow the allocation; the reader gives up on it. */
  predicate Oversized(frame: Bytes)
    requires HEADER_SIZE <= |frame|
  {
    ReadInt(frame, 0).0 == CONTINUE_AUTHENTICATION && ReadInt(frame, HEADER_SIZE).0 > MAX_SECRETS
  }

  lemma OversizedHasPayload(frame: Bytes)
    requires HEADER_SIZE <= |frame|
    ensures Oversized(frame) ==> HEADER_SIZE + 4 <= |frame|
  {
  }

  // ----- The batch parser the reader is compared with -----

  predicate HasFrame(s: Bytes) {
    HEADER_SIZE <= |s| && MessageLength(s) <= |s| && !Oversized(s[..MessageLength(s)])
  }

  /** All frames of a byte string known in full, up to the first oversized one. */
  function Batch(s: Bytes): seq<Bytes>
    decreases |s|
  {
    if HasFrame(s) then [s[..MessageLength(s)]] + Batch(s[MessageLength(s)..]) else []
  }

  predicate IsFrame(f: Bytes) {
    HEADER_SIZE <= |f| == MessageLength(f) && !Oversized(f)
  }

  function Flatten(frames: seq<Bytes>): Bytes {
    if frames == [] then [] else frames[0] + Flatten(frames[1..])
  }

  /** The batch parser splits a concatenation of frames, followed by no frame, into just those frames. */
  lemma {:induction false} BatchOfFlatten(frames: seq<Bytes>, rest: Bytes)
    requires (forall i :: 0 <= i < |frames| ==> IsFrame(frames[i])) && !HasFrame(rest)
    ensures Batch(Flatten(frames) + rest) == frames
    decreases |frames|
  {
    hide MessageLength, Oversized;
    if frames == [] {
      assert Flatten(frames) + rest == rest;
    } else {
      var f, s := frames[0], Flatten(frames) + rest;
      var tail := Flatten(frames[1..]) + rest;
      assert s == f + tail;
      LengthOfPrefix(f, tail);
      assert s[..|f|] == f && s[|f|..] == tail;
      BatchOfFlatten(frames[1..], rest);
    }
  }

  lemma LengthOfPrefix(f: Bytes, tail: Bytes)
    requires HEADER_SIZE <= |f|
    ensures MessageLength(f + tail) == MessageLength(f)
  {
    assert (f + tail)[4..8] == f[4..8];
  }

  lemma {:induction false} FlattenAppend(frames: seq<Bytes>, f: Bytes)
    ensures Flatten(frames + [f]) == Flatten(frames) + f
    decreases |frames|
  {
    if frames == [] {
      assert [f][1..] == [];
      assert f + [] == f;
    } else {
      assert (frames + [f])[1..] == frames[1..] + [f];
      FlattenAppend(frames[1..], f);
      assert frames[0] + (Flatten(frames[1..]) + f) == frames[0] + Flatten(frames[1..]) + f;
    }
  }

  /** `s` is a concatenation of frames followed by one complete oversized frame. */
  ghost predicate EndsOversized(s: Bytes, frames: seq<Bytes>, f: Bytes) {
    && (forall i :: 0 <= i < |frames| ==> IsFrame(frames[i]))
    && HEADER_SIZE <= |f| == MessageLength(f) && Oversized(f)
    && s == Flatten(frames) + f
  }

  // ----- The reader -----

  lemma LengthStable(d: Bytes, e: Bytes)
    requires d <= e && HEADER_SIZE <= |d|
    ensures MessageLength(e) == MessageLength(d)
  {
    assert e[4..8] == d[4..8];
  }

  /** What one read of the channel does: deliver at most `n` bytes, report no data yet, or report the end. */
  datatype ReadOutcome = Deliver(n: nat) | Again | Eof

  predicate EndsSecond(outcomes: seq<ReadOutcome>) {
    |outcomes| >= 2 && outcomes[1].Eof?
  }

  class Reader {
    var readBuffer: array<Byte>
    var nRead: nat
    var watching: bool
    var disconnects: nat
    var dispatched: seq<Bytes>
    /** What the greeter has written and the reader has not taken yet. */
    var incoming: Bytes
    ghost var consumed: Bytes

    /** The partial message is short of its length, except that an oversized one stays in the buffer. */
    ghost predicate Partial(d: Bytes, room: nat) {
      && HEADER_SIZE <= room
      && (HEADER_SIZE <= |d| ==>
            && HEADER_SIZE < MessageLength(d) <= room
            && (|d| < MessageLength(d) || (|d| == MessageLength(d) && Oversized(d))))
    }

    ghost predicate Valid()
      reads this, readBuffer
    {
      && nRead <= readBuffer.Length
      && Partial(readBuffer[..nRead], readBuffer.Length)
      && (forall i :: 0 <= i < |dispatched| ==> IsFrame(dispatched[i]))
      && consumed == Flatten(dispatched) + readBuffer[..nRead]
    }

    ghost predicate Jammed()
      requires nRead <= readBuffer.Length
      reads this, readBuffer
    {
      HEADER_SIZE <= nRead && nRead == MessageLength(readBuffer[..nRead])
    }

    constructor (stream: Bytes)
      ensures Valid() && fresh(readBuffer) && incoming == stream && consumed == [] && dispatched == [] && watching
      ensures disconnects == 0
    {
      readBuffer := new Byte[HEADER_SIZE];
      nRead, watching, disconnects, dispatched := 0, true, 0, [];
      incoming, consumed := stream, [];
      new;
      assert consumed == Flatten(dispatched) + readBuffer[..nRead];
    }

    /** At every moment the frames dispatched are those the batch parser finds in what was consumed. */
    lemma DispatchedIsBatch()
      requires Valid()
      ensures dispatched == Batch(consumed)
    {
      hide MessageLength, Oversized;
      var d := readBuffer[..nRead];
      assert d[..|d|] == d;
      BatchOfFlatten(dispatched, d);
    }

    /** A reader is stuck exactly when what it has consumed ends in an oversized frame. */
    lemma JammedExactly()
      requires Valid()
      ensures Jammed() <==> exists frames, f :: EndsOversized(consumed, frames, f)
    {
      hide MessageLength, Oversized, Flatten, Batch;
      if Jammed() {
        assert EndsOversized(consumed, dispatched, readBuffer[..nRead]);
      }
      forall frames, f | EndsOversized(consumed, frames, f)
        ensures Jammed()
      {
        assert f[..|f|] == f;
        BatchOfFlatten(frames, f);
        DispatchedIsBatch();
        assert readBuffer[..nRead] == consumed[|Flatten(frames)|..] == f;
      }
    }

    /** g_io_channel_read_chars into the buffer behind what has been read. */
    method Receive(n: nat, want: nat)
      requires nRead + want <= readBuffer.Length
      modifies this`nRead, this`incoming, this`consumed, readBuffer
      ensures nRead == old(nRead) + Least(n, want, |old(incoming)|)
      ensures incoming == old(incoming)[nRead - old(nRead)..]
      ensures readBuffer[..nRead] == old(readBuffer[..nRead]) + old(incoming)[..nRead - old(nRead)]
      ensures consumed == old(consumed) + old(incoming)[..nRead - old(nRead)]
      ensures consumed + incoming == old(consumed + incoming) && old(consumed) <= consumed
    {
      var k := Least(n, want, |incoming|);
      var i := 0;
      while i < k
        invariant i <= k && nRead == old(nRead) && readBuffer == old(readBuffer) && incoming == old(incoming)
        invariant consumed == old(consumed)
        invariant readBuffer[..nRead + i] == old(readBuffer[..nRead]) + incoming[..i]
      {
        readBuffer[nRead + i] := incoming[i];
        i := i + 1;
      }
      consumed := consumed + incoming[..k];
      nRead, incoming := nRead + k, incoming[k..];
      assert old(incoming) == old(incoming)[..k] + incoming;
    }

    /** Hands the complete message in the buffer to its handler. */
    method Dispatch() returns (keep: bool)
      requires HEADER_SIZE <= nRead <= readBuffer.Length && MessageLength(readBuffer[..nRead]) == nRead
      requires forall i :: 0 <= i < |dispatched| ==> IsFrame(dispatched[i])
      requires consumed == Flatten(dispatched) + readBuffer[..nRead]
      modifies this`nRead, this`watching, this`dispatched
      ensures Valid() && keep == !Oversized(old(readBuffer[..nRead]))
      ensures keep ==> dispatched == old(dispatched) + [old(readBuffer[..nRead])] && nRead == 0
      ensures keep ==> watching == old(watching)
      ensures !keep ==> dispatched == old(dispatched) && nRead == old(nRead) && !watching
    {
      hide MessageLength, Oversized, Flatten;
      var frame := readBuffer[..nRead];
      OversizedHasPayload(frame);
      if Oversized(frame) {
        watching := false;
        return false;
      }
      FlattenAppend(dispatched, frame);
      dispatched := dispatched + [frame];
      nRead := 0;
      assert Flatten(dispatched) + readBuffer[..0] == Flatten(dispatched);
      return true;
    }

    /** Enlarges the buffer, keeping what it holds. */
    method Resize(n: nat)
      requires nRead <= readBuffer.Length && nRead <= n
      modifies this`readBuffer
      ensures fresh(readBuffer) && readBuffer.Length == n && readBuffer[..nRead] == old(readBuffer[..nRead])
    {
      var b := new Byte[n];
      var i := 0;
      while i < nRead
        invariant i <= nRead && b[..i] == readBuffer[..i]
        modifies b
      {
        b[i] := readBuffer[i];
        i := i + 1;
      }
      readBuffer := b;
    }

    /**
     One callback of the channel watch. `outcomes` are the results of the reads it makes: the
     first for its own, the second for the nested call that fetches the payload behind a header.
     */
    method ReadCb(hup: bool, outcomes: seq<ReadOutcome>) returns (keep: bool)
      requires Valid()
      modifies this, readBuffer
      ensures Valid() && (readBuffer == old(readBuffer) || fresh(readBuffer))
      ensures consumed + incoming == old(consumed + incoming)
      ensures old(consumed) <= consumed && old(dispatched) <= dispatched
      ensures !hup && outcomes != [] && outcomes[0].Deliver? && outcomes[0].n > 0 && old(incoming) != [] ==>
        (|consumed| > |old(consumed)| <==> !old(Jammed()))
      ensures old(Jammed()) ==> Jammed() && consumed == old(consumed) && dispatched == old(dispatched)
      // the end of the channel drops the watch; waiting for more, in or between messages, keeps it
      ensures hup || (outcomes != [] && outcomes[0].Eof?) ==>
        !keep && !watching && disconnects == old(disconnects) + 1
      ensures !hup && (outcomes == [] || outcomes[0].Again?) ==>
        keep && watching == old(watching) && disconnects == old(disconnects)
      ensures !hup && outcomes != [] && outcomes[0].Deliver? ==>
        && (keep <==> !(HEADER_SIZE <= old(nRead) && Jammed())) && (!keep ==> !watching)
        && (old(nRead) >= HEADER_SIZE || !EndsSecond(outcomes) ==>
              disconnects == old(disconnects) && (!Jammed() ==> watching == old(watching)))
      decreases if nRead < HEADER_SIZE then 1 else 0
    {
      hide MessageLength, Oversized, Flatten, IsFrame;
      if hup {
        watching, disconnects := false, disconnects + 1;
        return false;
      }
      var nToRead := HEADER_SIZE;
      if nRead >= HEADER_SIZE {
        nToRead := MessageLength(readBuffer[..nRead]);
        // No bare header is ever left here to give up on: it was dispatched as soon as it was complete.
        assert nToRead > HEADER_SIZE;
      }
      var outcome := if outcomes == [] then Again else outcomes[0];
      match outcome {
        case Eof =>
          watching, disconnects := false, disconnects + 1;
          return false;
        case Again =>
          return true;
        case Deliver(n) =>
          ghost var d := readBuffer[..nRead];
          Receive(n, nToRead - nRead);
          assert nRead == old(nRead) ==> readBuffer[..nRead] == d;
          if HEADER_SIZE <= |d| {
            LengthStable(d, readBuffer[..nRead]);
          }
      }
      if nRead != nToRead {
        return true;
      }
      if nRead == HEADER_SIZE {
        nToRead := MessageLength(readBuffer[..nRead]);
        if nToRead > HEADER_SIZE {
          Resize(nToRead);
          var _ := ReadCb(hup, outcomes[1..]);
          return true;
        }
      }
      keep := Dispatch();
    }

    /**
     Any number of callbacks, however they cut the stream: nothing is lost or reordered, and a
     reader stuck on an oversized frame stays stuck.
     */
    method ReadMany(callbacks: seq<(bool, seq<ReadOutcome>)>)
      requires Valid()
      modifies this, readBuffer
      ensures Valid() && consumed + incoming == old(consumed + incoming)
      ensures old(consumed) <= consumed && old(dispatched) <= dispatched
      ensures old(Jammed()) ==> Jammed() && consumed == old(consumed) && dispatched == old(dispatched)
    {
      hide MessageLength, Oversized, Flatten;
      for i := 0 to |callbacks|
        invariant Valid() && (readBuffer == old(readBuffer) || fresh(readBuffer))
        invariant consumed + incoming == old(consumed + incoming)
        invariant old(consumed) <= consumed && old(dispatched) <= dispatched
        invariant old(Jammed()) ==> Jammed() && consumed == old(consumed) && dispatched == old(dispatched)
      {
        var _ := ReadCb(callbacks[i].0, callbacks[i].1);
      }
    }
  }

  /** A continue message that announces 0x40000000 secrets. */
  function TooManySecretsFrame(): (f: Bytes)
    ensures |f| == 12
  {
    IntBytes(CONTINUE_AUTHENTICATION) + IntBytes(4) + IntBytes(0x4000_0000)
  }

  lemma OversizedExample()
    ensures MessageLength(TooManySecretsFrame()) == |TooManySecretsFrame()| && Oversized(TooManySecretsFrame())
  {
    hide IntBytes;
    var f := TooManySecretsFrame();
    assert f[0..4] == IntBytes(CONTINUE_AUTHENTICATION) && f[4..8] == IntBytes(4) && f[8..12] == IntBytes(0x4000_0000);
    ReadOne(f, 0, Num(CONTINUE_AUTHENTICATION));
    ReadOne(f, 4, Num(4));
    ReadOne(f, 8, Num(0x4000_0000));
  }

  function Least(a: nat, b: nat, c: nat): nat {
    if a <= b && a <= c then a else if b <= c then b else c
  }
}
