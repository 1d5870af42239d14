/**
 * Message frames on a byte stream (protocol/protocol.go:18-195). The CRC-32 of
 * the header and payload is a function `crc` about which nothing is assumed.
 */
module Framing {
  import opened Prelude
  import opened Bytes

  const Magic: U32 := 0x54584c01
  const HeaderSize := 40
  const Version: Byte := 3
  const MaxPayloadLen: U32 := 16 * 1024 * 1024

  datatype Header = Header(version: Byte, kind: Byte, flags: Byte, reserved: Byte, sessionID: Id, sequence: U64,
                           payloadLen: U32, checksum: U32)
  datatype Message = Message(header: Header, payload: seq<Byte>)

  /** FlagChecksum, the lowest bit. */
  predicate Checksummed(h: Header) {
    h.flags % 2 == 1
  }

  // ----------------------------------------------------------------- writing

  /** The header between the magic number and the checksum: what the checksum covers. */
  function Body(h: Header): (b: seq<Byte>)
    ensures |b| == 32
  {
    [h.version, h.kind, h.flags, h.reserved] + h.sessionID + Put64(h.sequence) + Put32(h.payloadLen)
  }

  /** The header as it is sent: length filled in, and the checksum when it is asked for. */
  function Filled(crc: seq<Byte> -> U32, m: Message): Header {
    var h := m.header.(payloadLen := |m.payload| % 0x1_0000_0000);
    if Checksummed(h) then h.(checksum := crc(Body(h) + m.payload)) else h
  }

  /** The bytes of a frame with the header as given. */
  function RawFrame(h: Header, payload: seq<Byte>): seq<Byte> {
    Put32(Magic) + Body(h) + Put32(h.checksum) + payload
  }

  function Frame(crc: seq<Byte> -> U32, m: Message): seq<Byte> {
    RawFrame(Filled(crc, m), m.payload)
  }

  function Frames(crc: seq<Byte> -> U32, ms: seq<Message>): seq<Byte> {
    if ms == [] then [] else Frame(crc, ms[0]) + Frames(crc, ms[1..])
  }

  /** What the receiver gets for a message that was sent. */
  function Received(crc: seq<Byte> -> U32, m: Message): Message {
    Message(Filled(crc, m), m.payload)
  }

  /** The messages the receiver takes. */
  predicate Sendable(m: Message) {
    m.header.version == Version && |m.payload| <= MaxPayloadLen
  }

  // ----------------------------------------------------------------- reading

  function HeaderAt(b: seq<Byte>): Header
    requires |b| >= 40
  {
    Header(b[4], b[5], b[6], b[7], b[8..24], Get64(b, 24), Get32(b, 32), Get32(b, 36))
  }

  datatype Reading = Reading(result: Result<Message>, rest: seq<Byte>)

  /** One message off the front of a stream that ends where `data` ends, and what is left unread. */
  function ReadFrame(crc: seq<Byte> -> U32, data: seq<Byte>): Reading {
    if |data| == 0 then Reading(Err(EndOfStream), [])
    else if |data| < 40 then Reading(Err(UnexpectedEndOfStream), [])
    else if Get32(data, 0) != Magic then Reading(Err(InvalidMagic), data[40..])
    else
      var h := HeaderAt(data);
      if h.version != Version then Reading(Err(UnsupportedVersion), data[40..])
      else if h.payloadLen > MaxPayloadLen then Reading(Err(PayloadTooLarge), data[40..])
      else if |data| - 40 < h.payloadLen then
        Reading(Err(if |data| == 40 then EndOfStream else ShortPayload), [])
      else
        var payload, rest := data[40..40 + h.payloadLen], data[40 + h.payloadLen..];
        if Checksummed(h) && crc(data[4..36] + payload) != h.checksum then Reading(Err(ChecksumMismatch), rest)
        else Reading(Ok(Message(h, payload)), rest)
  }

  datatype Transcript = Transcript(messages: seq<Message>, stop: Error)

  /** Read messages until one cannot be read. */
  function ReadAll(crc: seq<Byte> -> U32, data: seq<Byte>): Transcript
    decreases |data|
  {
    var r := ReadFrame(crc, data);
    match r.result
    case Err(e) => Transcript([], e)
    case Ok(m) =>
      var t := ReadAll(crc, r.rest);
      Transcript([m] + t.messages, t.stop)
  }

  // -------------------------------------------------------------------- frames

  lemma {:induction false} RawFrameReads(h: Header, payload: seq<Byte>, rest: seq<Byte>)
    ensures var b := RawFrame(h, payload) + rest;
      && |b| == 40 + |payload| + |rest| && Get32(b, 0) == Magic && HeaderAt(b) == h
      && b[4..36] == Body(h) && b[40..] == payload + rest
  {
    hide Put32, Get32, Put64, Get64;
    var b, p0, p4 := RawFrame(h, payload) + rest, Put32(Magic), Put32(h.checksum);
    var head := [h.version, h.kind, h.flags, h.reserved] + h.sessionID;
    var seq8, len := Put64(h.sequence), Put32(h.payloadLen);
    Len32(Magic);
    Len64(h.sequence);
    Len32(h.payloadLen);
    Len32(h.checksum);
    assert b == [] + p0 + (Body(h) + p4 + payload + rest);
    Read32(Magic, [], Body(h) + p4 + payload + rest);
    assert b == (p0 + head) + seq8 + (len + p4 + payload + rest);
    Read64(h.sequence, p0 + head, len + p4 + payload + rest);
    assert b == (p0 + head + seq8) + len + (p4 + payload + rest);
    Read32(h.payloadLen, p0 + head + seq8, p4 + payload + rest);
    assert b == (p0 + Body(h)) + p4 + (payload + rest);
    Read32(h.checksum, p0 + Body(h), payload + rest);
    assert b[8..24] == h.sessionID;
  }

  lemma {:induction false} RawFrameWrites(b: seq<Byte>)
    requires |b| >= 40 && Get32(b, 0) == Magic
    ensures RawFrame(HeaderAt(b), b[40..]) == b && Body(HeaderAt(b)) == b[4..36]
  {
    hide Put32, Get32, Put64, Get64;
    var h := HeaderAt(b);
    Write32(b, 0);
    Write64(b, 24);
    Write32(b, 32);
    Write32(b, 36);
    assert [h.version, h.kind, h.flags, h.reserved] == b[4..8];
    Join(b, 4, 8, 24);
    Join(b, 4, 24, 32);
    Join(b, 4, 32, 36);
    Join(b, 0, 4, 36);
    Join(b, 0, 36, 40);
    assert b == b[0..40] + b[40..];
  }

  /** A message comes back, with its length and checksum filled in, exactly when it is sendable. */
  lemma {:induction false} ReadWrite(crc: seq<Byte> -> U32, m: Message, rest: seq<Byte>)
    ensures ReadFrame(crc, Frame(crc, m) + rest) == Reading(Ok(Received(crc, m)), rest) <==> Sendable(m)
  {
    hide Body, RawFrame, Get32, HeaderAt, Checksummed;
    var h, p := Filled(crc, m), m.payload;
    RawFrameReads(h, p, rest);
    if Sendable(m) {
      var b := Frame(crc, m) + rest;
      assert b[40..40 + |p|] == (p + rest)[..|p|] == p;
      assert b[40 + |p|..] == (p + rest)[|p|..] == rest;
      BodyIgnoresChecksum(h, m.header.(payloadLen := |p|));
    }
  }

  lemma {:induction false} BodyIgnoresChecksum(h: Header, g: Header)
    requires h.(checksum := 0) == g.(checksum := 0)
    ensures Body(h) == Body(g) && Checksummed(h) == Checksummed(g)
  {
    assert h.version == h.(checksum := 0).version == g.(checksum := 0).version;
    assert h.kind == h.(checksum := 0).kind == g.(checksum := 0).kind;
    assert h.flags == h.(checksum := 0).flags == g.(checksum := 0).flags;
    assert h.reserved == h.(checksum := 0).reserved == g.(checksum := 0).reserved;
    assert h.sessionID == h.(checksum := 0).sessionID == g.(checksum := 0).sessionID;
    assert h.sequence == h.(checksum := 0).sequence == g.(checksum := 0).sequence;
    assert h.payloadLen == h.(checksum := 0).payloadLen == g.(checksum := 0).payloadLen;
  }

  /** Whatever is returned was on the stream as the frame of that very message. */
  lemma {:induction false} ReadIsFaithful(crc: seq<Byte> -> U32, data: seq<Byte>)
    requires ReadFrame(crc, data).result.Ok?
    ensures var r := ReadFrame(crc, data);
      && Sendable(r.result.value) && Received(crc, r.result.value) == r.result.value
      && data == Frame(crc, r.result.value) + r.rest
  {
    hide Body, RawFrame, Get32, Checksummed;
    var r := ReadFrame(crc, data);
    var m := r.result.value;
    RawFrameWrites(data);
    assert data[40..] == m.payload + r.rest;
    RawFrameTail(m.header, m.payload, r.rest);
    var h := m.header.(payloadLen := |m.payload|);
    assert h == m.header;
    BodyIgnoresChecksum(h, m.header);
  }

  lemma {:induction false} RawFrameTail(h: Header, p: seq<Byte>, rest: seq<Byte>)
    ensures RawFrame(h, p + rest) == RawFrame(h, p) + rest
  {
    hide Put32, Body;
  }

  /** A checksummed frame is returned when it carries its checksum and refused for that reason otherwise. */
  lemma {:induction false} ChecksumGuards(crc: seq<Byte> -> U32, h: Header, p: seq<Byte>, rest: seq<Byte>)
    requires Checksummed(h) && h.version == Version && |p| == h.payloadLen <= MaxPayloadLen
    ensures ReadFrame(crc, RawFrame(h, p) + rest) ==
            Reading(if h.checksum == crc(Body(h) + p) then Ok(Message(h, p)) else Err(ChecksumMismatch), rest)
  {
    hide Body, RawFrame, Get32, HeaderAt, Checksummed;
    RawFrameReads(h, p, rest);
    var b := RawFrame(h, p) + rest;
    assert b[40..40 + |p|] == (p + rest)[..|p|] == p;
    assert b[40 + |p|..] == (p + rest)[|p|..] == rest;
  }

  // ------------------------------------------------------------------- streams

  /** Reading back a list of written messages gives that list, then whatever the rest of the stream holds. */
  lemma {:induction false} ReadAllWritten(crc: seq<Byte> -> U32, ms: seq<Message>, tail: seq<Byte>)
    requires forall i :: 0 <= i < |ms| ==> Sendable(ms[i])
    ensures var t := ReadAll(crc, Frames(crc, ms) + tail);
      && |t.messages| >= |ms|
      && (forall i :: 0 <= i < |ms| ==> t.messages[i] == Received(crc, ms[i]))
      && Transcript(t.messages[|ms|..], t.stop) == ReadAll(crc, tail)
    decreases |ms|
  {
    hide ReadFrame, Frame, Sendable, Received;
    if ms == [] {
      assert Frames(crc, ms) + tail == tail;
    } else {
      var r := Frames(crc, ms[1..]) + tail;
      assert Frames(crc, ms) + tail == Frame(crc, ms[0]) + r;
      ReadWrite(crc, ms[0], r);
      ReadAllWritten(crc, ms[1..], tail);
      var t, u := ReadAll(crc, Frames(crc, ms) + tail), ReadAll(crc, r);
      assert t.messages == [Received(crc, ms[0])] + u.messages;
      forall i | 1 <= i < |ms| ensures t.messages[i] == Received(crc, ms[i]) {
        assert u.messages[i - 1] == Received(crc, ms[1..][i - 1]);
      }
      assert t.messages[|ms|..] == u.messages[|ms| - 1..];
    }
  }

  /** With nothing behind them, reading ends at the end of the stream. */
  lemma {:induction false} ReadAllEnds(crc: seq<Byte> -> U32, ms: seq<Message>)
    requires forall i :: 0 <= i < |ms| ==> Sendable(ms[i])
    ensures var t := ReadAll(crc, Frames(crc, ms));
      && |t.messages| == |ms| && t.stop == EndOfStream
      && forall i :: 0 <= i < |ms| ==> t.messages[i] == Received(crc, ms[i])
  {
    hide Frame, Frames, Sendable, Received;
    ReadAllWritten(crc, ms, []);
    assert Frames(crc, ms) + [] == Frames(crc, ms);
  }

  /** A message read from a stream that breaks off is read the same when it goes on. */
  lemma {:induction false} ReadLonger(crc: seq<Byte> -> U32, data: seq<Byte>, more: seq<Byte>)
    requires ReadFrame(crc, data).result.Ok?
    ensures ReadFrame(crc, data + more) ==
            Reading(ReadFrame(crc, data).result, ReadFrame(crc, data).rest + more)
  {
    hide ReadFrame, Frame, Sendable, Received;
    ReadIsFaithful(crc, data);
    var r := ReadFrame(crc, data);
    assert data + more == Frame(crc, r.result.value) + (r.rest + more);
    ReadWrite(crc, r.result.value, r.rest + more);
  }

  /** Cutting a stream anywhere loses messages from its end only. */
  lemma {:induction false} CutKeepsPrefix(crc: seq<Byte> -> U32, data: seq<Byte>, more: seq<Byte>)
    ensures ReadAll(crc, data).messages <= ReadAll(crc, data + more).messages
    decreases |data|
  {
    hide ReadFrame;
    var r := ReadFrame(crc, data);
    if r.result.Ok? {
      ReadShrinks(crc, data);
      ReadLonger(crc, data, more);
      CutKeepsPrefix(crc, r.rest, more);
    }
  }

  lemma {:induction false} ReadShrinks(crc: seq<Byte> -> U32, data: seq<Byte>)
    requires ReadFrame(crc, data).result.Ok?
    ensures |ReadFrame(crc, data).rest| < |data|
  {
  }

  /** Cutting a written stream inside its last message delivers the others and reports the cut. */
  lemma {:induction false} CutReported(crc: seq<Byte> -> U32, ms: seq<Message>, last: Message, k: nat)
    requires Sendable(last) && (forall i :: 0 <= i < |ms| ==> Sendable(ms[i])) && 0 < k < |Frame(crc, last)|
    ensures var t := ReadAll(crc, Frames(crc, ms) + Frame(crc, last)[..k]);
      && |t.messages| == |ms| && (forall i :: 0 <= i < |ms| ==> t.messages[i] == Received(crc, ms[i]))
      && t.stop == if k < 40 then UnexpectedEndOfStream else if k == 40 then EndOfStream else ShortPayload
  {
    hide ReadFrame, Frame, Frames, Sendable, Received;
    ReadAllWritten(crc, ms, Frame(crc, last)[..k]);
    CutFrame(crc, last, k);
  }

  lemma {:induction false} CutFrame(crc: seq<Byte> -> U32, m: Message, k: nat)
    requires Sendable(m) && 0 < k < |Frame(crc, m)|
    ensures ReadFrame(crc, Frame(crc, m)[..k]) ==
            Reading(Err(if k < 40 then UnexpectedEndOfStream else if k == 40 then EndOfStream else ShortPayload), [])
  {
    hide Body, RawFrame, Get32, Checksummed;
    var h, cut := Filled(crc, m), Frame(crc, m)[..k];
    RawFrameReads(h, m.payload, []);
    assert RawFrame(h, m.payload) + [] == RawFrame(h, m.payload);
    if k >= 40 {
      CutHeader(RawFrame(h, m.payload), k);
    }
  }

  lemma {:induction false} CutHeader(b: seq<Byte>, k: nat)
    requires 40 <= k <= |b|
    ensures Get32(b[..k], 0) == Get32(b, 0) && HeaderAt(b[..k]) == HeaderAt(b)
  {
    assert b[..k][8..24] == b[8..24];
  }

  // ------------------------------------------------------------------- methods

  /** An in-memory stream: writers append to `data`, readers take from its front. */
  class Stream {
    var data: seq<Byte>

    constructor ()
      ensures data == []
    {
      data := [];
    }

    method Write(bytes: seq<Byte>)
      modifies this
      ensures data == old(data) + bytes
    {
      data := data + bytes;
    }

    /** io.ReadFull: all of buf, or an error that tells an empty stream from a short one. */
    method ReadFull(buf: array<Byte>) returns (err: Option<Error>)
      modifies this, buf
      ensures |old(data)| >= buf.Length ==>
                err == None && buf[..] == old(data)[..buf.Length] && data == old(data)[buf.Length..]
      ensures |old(data)| < buf.Length ==>
                data == [] && err == Some(if |old(data)| == 0 then EndOfStream else UnexpectedEndOfStream)
    {
      var n := 0;
      while n < buf.Length && n < |data|
        invariant 0 <= n <= buf.Length && n <= |data|
        invariant data == old(data) && buf[..n] == data[..n]
        modifies buf
      {
        buf[n] := data[n];
        n := n + 1;
      }
      if n == buf.Length {
        err := None;
      } else {
        err := Some(if n == 0 then EndOfStream else UnexpectedEndOfStream);
      }
      data := data[n..];
    }
  }

  /** Store bytes at an offset of the header buffer. */
  method Store(buf: array<Byte>, k: nat, v: seq<Byte>)
    requires k + |v| <= buf.Length
    modifies buf
    ensures buf[..k + |v|] == old(buf[..k]) + v
  {
    for i := 0 to |v|
      invariant buf[..k + i] == old(buf[..k]) + v[..i]
    {
      buf[k + i] := v[i];
    }
  }

  /** The header but its checksum, field by field. */
  method FillHeader(buf: array<Byte>, h: Header)
    requires buf.Length == 40
    modifies buf
    ensures buf[..36] == Put32(Magic) + Body(h)
  {
    hide Put32, Put64, Body;
    Len32(Magic);
    Len64(h.sequence);
    Len32(h.payloadLen);
    Store(buf, 0, Put32(Magic));
    assert buf[..0] + Put32(Magic) == Put32(Magic);
    Store(buf, 4, [h.version]);
    Store(buf, 5, [h.kind]);
    Store(buf, 6, [h.flags]);
    Store(buf, 7, [h.reserved]);
    Store(buf, 8, h.sessionID);
    Store(buf, 24, Put64(h.sequence));
    Store(buf, 32, Put32(h.payloadLen));
    BodyInOrder(Put32(Magic), h);
  }

  lemma {:induction false} BodyInOrder(a: seq<Byte>, h: Header)
    ensures a + Body(h) ==
            a + [h.version] + [h.kind] + [h.flags] + [h.reserved] + h.sessionID + Put64(h.sequence)
            + Put32(h.payloadLen)
  {
    hide Put32, Put64;
  }

  /** Write a frame (protocol/protocol.go:108-140). */
  method WriteMessage(w: Stream, crc: seq<Byte> -> U32, hdr: Header, payload: seq<Byte>)
    modifies w
    ensures w.data == old(w.data) + Frame(crc, Message(hdr, payload))
  {
    hide Put32, Put64, Checksummed, Body;
    var h := hdr.(payloadLen := |payload| % 0x1_0000_0000);
    var buf := new Byte[HeaderSize];
    FillHeader(buf, h);
    Len32(Magic);
    var checksum := h.checksum;
    if Checksummed(h) {
      var covered := buf[4..36];
      assert covered == buf[..36][4..] == Body(h);
      if |payload| > 0 { covered := covered + payload; }
      assert covered == Body(h) + payload;
      checksum := crc(covered);
    }
    Len32(checksum);
    Store(buf, 36, Put32(checksum));
    SameBody(h, checksum);
    w.Write(buf[..]);
    if |payload| > 0 { w.Write(payload); }
    assert w.data == old(w.data) + RawFrame(h.(checksum := checksum), payload);
  }

  lemma {:induction false} SameBody(h: Header, checksum: U32)
    ensures Body(h.(checksum := checksum)) == Body(h)
  {
  }

  /** Read a frame (protocol/protocol.go:144-195). */
  method ReadMessage(r: Stream, crc: seq<Byte> -> U32) returns (result: Result<Message>)
    modifies r
    ensures Reading(result, r.data) == ReadFrame(crc, old(r.data))
  {
    hide Get32, Get64, Checksummed, Body;
    ghost var all := r.data;
    var buf := new Byte[HeaderSize];
    var err := r.ReadFull(buf);
    if err.Some? { return Err(err.value); }
    var b := buf[..];
    CutHeader(all, 40);
    if Get32(b, 0) != Magic { return Err(InvalidMagic); }
    var h := HeaderAt(b);
    if h.version != Version { return Err(UnsupportedVersion); }
    if h.payloadLen > MaxPayloadLen { return Err(PayloadTooLarge); }
    var payload := new Byte[h.payloadLen];
    if h.payloadLen > 0 {
      err := r.ReadFull(payload);
      if err.Some? {
        return Err(if err.value == UnexpectedEndOfStream then ShortPayload else err.value);
      }
    }
    assert payload[..] == all[40..40 + h.payloadLen as int];
    assert r.data == all[40 + h.payloadLen as int..];
    if Checksummed(h) {
      var covered := b[4..36];
      if payload.Length > 0 { covered := covered + payload[..]; }
      assert covered == all[4..36] + payload[..];
      if crc(covered) != h.checksum { return Err(ChecksumMismatch); }
    }
    return Ok(Message(h, payload[..]));
  }
}
