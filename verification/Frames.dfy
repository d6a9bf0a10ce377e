/** Frames on the wire: the byte-at-a-time parser, whole captures, the encoder and the bridge's stream. */
module Frames {
  import opened Bytes

  const MAGIC: byte := 0xa5
  const HEADER_LEN := 5
  const MAX_PAYLOAD := 16
  const MAX_FRAME := 21

  const ZEROS: seq<byte> := [0, 0, 0, 0, 0, 0, 0, 0, 0, 0, 0, 0, 0, 0, 0, 0]

  type PayloadBuffer = s: seq<byte> | |s| == MAX_PAYLOAD witness ZEROS

  datatype Request = Request(command: byte, sequence: byte, flags: byte, payload: PayloadBuffer, payloadLen: byte)

  datatype ParseError = BadMagic | FrameTooLong | BadLength

  datatype Pushed = More | Complete(request: Request) | Refused(error: ParseError)

  function Padded(payload: seq<byte>): PayloadBuffer
    requires |payload| <= MAX_PAYLOAD
  {
    payload + ZEROS[|payload|..]
  }

  // ---- What a frame is ----

  predicate ValidFrame(frame: seq<byte>) {
    && HEADER_LEN <= |frame|
    && frame[0] == MAGIC
    && frame[2] <= MAX_PAYLOAD
    && |frame| == HEADER_LEN + frame[2]
  }

  function RequestOf(frame: seq<byte>): Request
    requires HEADER_LEN <= |frame| <= MAX_FRAME && |frame| == HEADER_LEN + frame[2]
  {
    Request(frame[1], frame[3], frame[4], Padded(frame[HEADER_LEN..]), frame[2])
  }

  predicate AllFrames(frames: seq<seq<byte>>) { forall i :: 0 <= i < |frames| ==> ValidFrame(frames[i]) }

  lemma NoFrames(frames: seq<seq<byte>>)
    requires AllFrames(frames)
    ensures Concat(frames) == [] <==> frames == []
  {}

  /** The only way to cut a byte string into frames. */
  lemma {:induction false} FramingUnique(frames: seq<seq<byte>>, others: seq<seq<byte>>)
    requires AllFrames(frames) && AllFrames(others) && Concat(frames) == Concat(others)
    ensures frames == others
    decreases |frames|
  {
    NoFrames(frames);
    NoFrames(others);
    if frames != [] {
      var all, f, g := Concat(frames), frames[0], others[0];
      assert all == f + Concat(frames[1..]) == g + Concat(others[1..]);
      assert all[2] == f[2] == g[2];
      assert f == all[..|f|] == g;
      assert Concat(frames[1..]) == all[|f|..] == Concat(others[1..]);
      FramingUnique(frames[1..], others[1..]);
    }
  }

  // ---- One byte at a time ----

  /** The parser on the bytes it holds. */
  function Push(held: seq<byte>, b: byte): (seq<byte>, Pushed)
    requires |held| <= MAX_FRAME
  {
    if held == [] && b != MAGIC then (held, Refused(BadMagic))
    else if |held| == MAX_FRAME then ([], Refused(FrameTooLong))
    else
      var now := held + [b];
      if |now| == HEADER_LEN && now[2] > MAX_PAYLOAD then ([], Refused(BadLength))
      else if |now| >= HEADER_LEN && |now| == HEADER_LEN + now[2] then ([], Complete(RequestOf(now)))
      else (now, More)
  }

  /** What the parser may hold between two bytes: a frame not yet complete. */
  predicate Unfinished(held: seq<byte>) {
    && (held != [] ==> held[0] == MAGIC)
    && (|held| < HEADER_LEN || (held[2] <= MAX_PAYLOAD && |held| < HEADER_LEN + held[2]))
  }

  /** The parser never holds more than an unfinished frame, so its buffer never overflows and the
      overflow error never occurs; what it yields is a valid frame's request. */
  lemma PushInvariant(held: seq<byte>, b: byte)
    requires Unfinished(held)
    ensures |held| < MAX_FRAME
    ensures Unfinished(Push(held, b).0)
    ensures Push(held, b).1 != Refused(FrameTooLong)
    ensures Push(held, b).1.Complete? <==> ValidFrame(held + [b])
    ensures Push(held, b).1.Complete? ==>
              && Push(held, b) == ([], Complete(RequestOf(held + [b])))
              && Push(held, b).1.request.payloadLen <= MAX_PAYLOAD
    ensures Push(held, b).1.More? ==> Push(held, b).0 == held + [b]
    ensures Push(held, b).1.Refused? ==> Push(held, b).0 == []
  {}

  /** A frame in numbers: 0xa5, command, payload length up to 16, sequence, flags, payload. */
  lemma FrameRaw(frame: seq<byte>)
    ensures ValidFrame(frame)
       <==> |frame| >= 5 && frame[0] == 0xa5 && frame[2] <= 16 && |frame| == 5 + frame[2]
    ensures ValidFrame(frame) ==>
              && RequestOf(frame).command == frame[1] && RequestOf(frame).sequence == frame[3]
              && RequestOf(frame).flags == frame[4] && RequestOf(frame).payloadLen == frame[2]
              && RequestOf(frame).payload[..frame[2]] == frame[5..]
  {}

  /** One byte in numbers: a first byte other than 0xa5 is bad magic, a length byte above 16 is refused
      with the fifth byte, and a frame is complete exactly with its last byte. */
  lemma PushRaw(held: seq<byte>, b: byte)
    requires Unfinished(held)
    ensures |held| <= 20
    ensures var now := held + [b];
      Push(held, b) ==
      if now[0] != 0xa5 then ([], Refused(BadMagic))
      else if |now| == 5 && now[2] > 16 then ([], Refused(BadLength))
      else if |now| >= 5 && |now| == 5 + now[2] then ([], Complete(RequestOf(now)))
      else (now, More)
  {}

  class Parser {
    const frame: array<byte>
    var length: nat

    ghost predicate Valid() reads this { frame.Length == MAX_FRAME && length <= MAX_FRAME }

    ghost function Held(): seq<byte> reads this, frame requires Valid() { frame[..length] }

    constructor ()
      ensures Valid() && fresh(frame) && Held() == []
    {
      frame := new byte[MAX_FRAME](_ => 0);
      length := 0;
    }

    method Reset()
      requires Valid()
      modifies this`length
      ensures Valid() && Held() == []
    {
      length := 0;
    }

    method PushByte(b: byte) returns (r: Pushed)
      requires Valid()
      modifies this`length, frame
      ensures Valid() && (Held(), r) == Push(old(Held()), b)
    {
      if length == 0 && b != MAGIC {
        return Refused(BadMagic);
      }
      if length == MAX_FRAME {
        Reset();
        return Refused(FrameTooLong);
      }
      frame[length] := b;
      length := length + 1;
      ghost var now := old(Held()) + [b];
      assert frame[..length] == now;
      if length == HEADER_LEN {
        var payloadLen := frame[2];
        if payloadLen > MAX_PAYLOAD {
          Reset();
          return Refused(BadLength);
        }
      }
      if length >= HEADER_LEN && length == HEADER_LEN + frame[2] {
        var payload := Padded(frame[HEADER_LEN..length]);
        assert frame[HEADER_LEN..length] == now[HEADER_LEN..];
        var request := Request(frame[1], frame[3], frame[4], payload, frame[2]);
        Reset();
        return Complete(request);
      }
      return More;
    }
  }

  // ---- Whole captures ----

  function ParseFrom(held: seq<byte>, request: Option<Request>, bytes: seq<byte>): Option<Request>
    requires Unfinished(held)
    decreases |bytes|
  {
    PushInvariant(held, 0);
    if bytes == [] then if held == [] then request else None
    else
      PushInvariant(held, bytes[0]);
      var (held', pushed) := Push(held, bytes[0]);
      match pushed
      case More => ParseFrom(held', request, bytes[1..])
      case Complete(next) => ParseFrom(held', Some(next), bytes[1..])
      case Refused(_) => None
  }

  function Parsed(packet: seq<byte>, truncated: bool): Option<Request> {
    if truncated then None else ParseFrom([], None, packet)
  }

  method ParsePacket(packet: seq<byte>, truncated: bool) returns (request: Option<Request>)
    ensures request == Parsed(packet, truncated)
  {
    if truncated {
      return None;
    }
    var parser := new Parser();
    request := None;
    for i := 0 to |packet|
      invariant parser.Valid() && fresh(parser) && fresh(parser.frame)
      invariant Unfinished(parser.Held())
      invariant ParseFrom(parser.Held(), request, packet[i..]) == Parsed(packet, truncated)
    {
      PushInvariant(parser.Held(), packet[i]);
      assert packet[i..][1..] == packet[i + 1..];
      var pushed := parser.PushByte(packet[i]);
      match pushed
      case Complete(value) => request := Some(value);
      case More =>
      case Refused(_) => return None;
    }
    if parser.length != 0 {
      request := None;
    }
  }

  function LastRequest(frames: seq<seq<byte>>, otherwise: Option<Request>): Option<Request>
    requires AllFrames(frames)
  {
    if frames == [] then otherwise else Some(RequestOf(frames[|frames| - 1]))
  }

  lemma {:induction false} FrameConsumed(frame: seq<byte>, k: nat, request: Option<Request>, rest: seq<byte>)
    requires ValidFrame(frame) && k < |frame|
    ensures Unfinished(frame[..k])
    ensures ParseFrom(frame[..k], request, frame[k..] + rest) == ParseFrom([], Some(RequestOf(frame)), rest)
    decreases |frame| - k
  {
    PushInvariant(frame[..k], frame[k]);
    assert frame[..k] + [frame[k]] == frame[..k + 1];
    assert (frame[k..] + rest)[1..] == frame[k + 1..] + rest;
    if k + 1 < |frame| {
      FrameConsumed(frame, k + 1, request, rest);
    } else {
      assert frame[..k + 1] == frame && frame[k + 1..] + rest == rest;
    }
  }

  lemma {:induction false} FramesParsed(frames: seq<seq<byte>>, request: Option<Request>)
    requires AllFrames(frames)
    ensures ParseFrom([], request, Concat(frames)) == LastRequest(frames, request)
    decreases |frames|
  {
    hide Push, RequestOf;
    if frames != [] {
      var frame := frames[0];
      FrameConsumed(frame, 0, request, Concat(frames[1..]));
      assert frame[..0] == [] && frame[0..] == frame;
      FramesParsed(frames[1..], Some(RequestOf(frame)));
    }
  }

  lemma {:induction false} ParsedFrames(held: seq<byte>, request: Option<Request>, bytes: seq<byte>)
    returns (frames: seq<seq<byte>>)
    requires Unfinished(held) && ParseFrom(held, request, bytes) != None
    ensures AllFrames(frames) && Concat(frames) == held + bytes
    ensures ParseFrom(held, request, bytes) == LastRequest(frames, request)
    decreases |bytes|
  {
    hide Push, RequestOf;
    if bytes == [] {
      frames := [];
    } else {
      var b := bytes[0];
      PushInvariant(held, b);
      assert held + bytes == held + [b] + bytes[1..];
      if Push(held, b).1.More? {
        frames := ParsedFrames(held + [b], request, bytes[1..]);
      } else {
        var frame := held + [b];
        var later := ParsedFrames([], Some(RequestOf(frame)), bytes[1..]);
        frames := [frame] + later;
        assert frames[1..] == later;
      }
    }
  }

  /** A capture yields a request exactly if it is complete and is one or more valid frames end to
      end; the request is then the last frame's. */
  lemma ParsePacketExact(packet: seq<byte>, truncated: bool, request: Request)
    ensures Parsed(packet, truncated) == Some(request)
       <==> !truncated && exists frames :: Framed(packet, frames) && LastRequest(frames, None) == Some(request)
  {
    if !truncated && Parsed(packet, truncated) == Some(request) {
      var frames := ParsedFrames([], None, packet);
      assert Framed(packet, frames);
    }
    forall frames | Framed(packet, frames)
      ensures Parsed(packet, false) == LastRequest(frames, None)
    {
      FramesParsed(frames, None);
    }
  }

  ghost predicate Framed(packet: seq<byte>, frames: seq<seq<byte>>) {
    frames != [] && AllFrames(frames) && Concat(frames) == packet
  }

  /** So every request that reaches the dispatcher has a payload within its buffer, zeros after it. */
  lemma ParsedWellFormed(packet: seq<byte>, truncated: bool)
    requires Parsed(packet, truncated).Some?
    ensures WellFormed(Parsed(packet, truncated).value)
  {
    var frames := ParsedFrames([], None, packet);
    assert ValidFrame(frames[|frames| - 1]);
  }

  predicate WellFormed(request: Request) {
    && request.payloadLen <= MAX_PAYLOAD
    && request.payload[request.payloadLen..] == ZEROS[request.payloadLen..]
  }

  function Payload(request: Request): seq<byte>
    requires request.payloadLen <= MAX_PAYLOAD
  {
    request.payload[..request.payloadLen]
  }

  // ---- Encoding ----

  function Encoded(status: byte, sequence: byte, flags: byte, payload: seq<byte>): seq<byte>
    requires |payload| <= MAX_PAYLOAD
  {
    [MAGIC, status, |payload|, sequence, flags] + payload
  }

  method EncodeResponse(status: byte, sequence: byte, flags: byte, payload: seq<byte>, output: array<byte>)
    returns (length: Option<nat>)
    requires output.Length == MAX_FRAME
    modifies output
    ensures |payload| > MAX_PAYLOAD ==> length == None && output[..] == old(output[..])
    ensures |payload| <= MAX_PAYLOAD ==>
              && length == Some(|Encoded(status, sequence, flags, payload)|)
              && output[..] == Splice(old(output[..]), 0, Encoded(status, sequence, flags, payload))
  {
    if |payload| > MAX_PAYLOAD {
      return None;
    }
    output[0], output[1], output[2], output[3], output[4] := MAGIC, status, |payload|, sequence, flags;
    forall i | 0 <= i < |payload| {
      output[HEADER_LEN + i] := payload[i];
    }
    return Some(HEADER_LEN + |payload|);
  }

  /** Pushing bytes one after the other: what is held at the end and every answer on the way. */
  function PushAll(held: seq<byte>, bytes: seq<byte>): (r: (seq<byte>, seq<Pushed>))
    requires Unfinished(held)
    ensures Unfinished(r.0) && |r.1| == |bytes|
  {
    if bytes == [] then (held, [])
    else
      var (before, answers) := PushAll(held, bytes[..|bytes| - 1]);
      PushInvariant(before, bytes[|bytes| - 1]);
      var (after, answer) := Push(before, bytes[|bytes| - 1]);
      (after, answers + [answer])
  }

  lemma {:induction false} PrefixPushed(frame: seq<byte>, k: nat)
    requires ValidFrame(frame) && k < |frame|
    ensures PushAll([], frame[..k]).0 == frame[..k]
    ensures forall i :: 0 <= i < k ==> PushAll([], frame[..k]).1[i] == More
  {
    hide Push, RequestOf;
    if k > 0 {
      PrefixPushed(frame, k - 1);
      assert frame[..k][..k - 1] == frame[..k - 1];
      assert frame[..k - 1] + [frame[k - 1]] == frame[..k];
      PrefixIncomplete(frame, k);
    }
  }

  lemma PrefixIncomplete(frame: seq<byte>, k: nat)
    requires ValidFrame(frame) && 0 < k < |frame|
    ensures Unfinished(frame[..k - 1]) && Push(frame[..k - 1], frame[k - 1]) == (frame[..k], More)
  {
    hide RequestOf;
    assert frame[..k - 1] + [frame[k - 1]] == frame[..k];
  }

  /** Pushing an encoded frame answers only at its very last byte, and then gives back its fields
      and its payload padded with zeros. */
  lemma EncodeRoundTrip(status: byte, sequence: byte, flags: byte, payload: seq<byte>)
    requires |payload| <= MAX_PAYLOAD
    ensures var frame := Encoded(status, sequence, flags, payload);
      var (held, answers) := PushAll([], frame);
      && ValidFrame(frame) && |frame| <= MAX_FRAME
      && held == [] && |answers| == |frame|
      && (forall i :: 0 <= i < |frame| - 1 ==> answers[i] == More)
      && answers[|frame| - 1] == Complete(Request(status, sequence, flags, Padded(payload), |payload|))
  {
    hide Push, Padded;
    var frame := Encoded(status, sequence, flags, payload);
    var last := |frame| - 1;
    PrefixPushed(frame, last);
    PushInvariant(frame[..last], frame[last]);
    assert frame[..last] + [frame[last]] == frame;
    assert frame[HEADER_LEN..] == payload;
  }

  /** A response is one frame that its receiver parses back. */
  lemma EncodedParses(status: byte, sequence: byte, flags: byte, payload: seq<byte>)
    requires |payload| <= MAX_PAYLOAD
    ensures Parsed(Encoded(status, sequence, flags, payload), false)
         == Some(Request(status, sequence, flags, Padded(payload), |payload|))
  {
    var frame := Encoded(status, sequence, flags, payload);
    assert frame[HEADER_LEN..] == payload;
    var frames: seq<seq<byte>> := [frame];
    assert frames[1..] == [] && Concat(frames) == frame;
    FramesParsed(frames, None);
  }

  // ---- The bridge's stream ----

  /** The bridge keeps one parser for its whole stream and resets it on every error. */
  function Stream(held: seq<byte>, bytes: seq<byte>): (r: (seq<byte>, seq<Request>))
    requires Unfinished(held)
    ensures Unfinished(r.0)
    decreases |bytes|
  {
    if bytes == [] then (held, [])
    else
      PushInvariant(held, bytes[0]);
      match Push(held, bytes[0])
      case (next, More) => Stream(next, bytes[1..])
      case (next, Complete(request)) =>
        var (after, requests) := Stream(next, bytes[1..]);
        (after, [request] + requests)
      case (_, Refused(_)) => Stream([], bytes[1..])
  }

  method DecodeStream(parser: Parser, input: seq<byte>) returns (requests: seq<Request>)
    requires parser.Valid() && Unfinished(parser.Held())
    modifies parser, parser.frame
    ensures parser.Valid() && (parser.Held(), requests) == Stream(old(parser.Held()), input)
  {
    hide Push;
    requests := [];
    assert input[0..] == input;
    assert requests + Stream(parser.Held(), input).1 == Stream(parser.Held(), input).1;
    for i := 0 to |input|
      invariant parser.Valid() && Unfinished(parser.Held())
      invariant Stream(old(parser.Held()), input)
             == (Stream(parser.Held(), input[i..]).0, requests + Stream(parser.Held(), input[i..]).1)
    {
      PushInvariant(parser.Held(), input[i]);
      assert input[i..][1..] == input[i + 1..];
      ghost var later := Stream(parser.Held(), input[i..]).1;
      ghost var before := requests;
      var pushed := parser.PushByte(input[i]);
      match pushed
      case Complete(request) =>
        requests := requests + [request];
        assert before + later == requests + later[1..];
      case More =>
      case Refused(_) => parser.Reset();
    }
    assert requests + [] == requests;
  }

  function RequestsOf(frames: seq<seq<byte>>): seq<Request>
    requires AllFrames(frames)
  {
    if frames == [] then [] else [RequestOf(frames[0])] + RequestsOf(frames[1..])
  }

  lemma {:induction false} FrameStreamed(frame: seq<byte>, k: nat, rest: seq<byte>)
    requires ValidFrame(frame) && k < |frame|
    ensures Unfinished(frame[..k])
    ensures Stream(frame[..k], frame[k..] + rest)
         == (Stream([], rest).0, [RequestOf(frame)] + Stream([], rest).1)
    decreases |frame| - k
  {
    PushInvariant(frame[..k], frame[k]);
    assert frame[..k] + [frame[k]] == frame[..k + 1];
    assert (frame[k..] + rest)[1..] == frame[k + 1..] + rest;
    if k + 1 < |frame| {
      FrameStreamed(frame, k + 1, rest);
    } else {
      assert frame[..k + 1] == frame && frame[k + 1..] + rest == rest;
    }
  }

  /** From an idle parser the stream decodes any frames in order and ends idle again. */
  lemma {:induction false} FramesStreamed(frames: seq<seq<byte>>)
    requires AllFrames(frames)
    ensures Stream([], Concat(frames)) == ([], RequestsOf(frames))
    decreases |frames|
  {
    if frames != [] {
      FrameStreamed(frames[0], 0, Concat(frames[1..]));
      assert frames[0][..0] == [] && frames[0][0..] == frames[0];
      FramesStreamed(frames[1..]);
    }
  }

  lemma {:induction false} StreamConcat(held: seq<byte>, s: seq<byte>, t: seq<byte>)
    requires Unfinished(held)
    ensures Stream(held, s + t)
         == (Stream(Stream(held, s).0, t).0, Stream(held, s).1 + Stream(Stream(held, s).0, t).1)
    decreases |s|
  {
    if s == [] {
      assert s + t == t;
      assert [] + Stream(held, t).1 == Stream(held, t).1;
    } else {
      PushInvariant(held, s[0]);
      assert (s + t)[1..] == s[1..] + t;
      var next := Push(held, s[0]).0;
      StreamConcat(next, s[1..], t);
      var (a, b) := (Stream(next, s[1..]).1, Stream(Stream(next, s[1..]).0, t).1);
      if Push(held, s[0]).1.Complete? {
        var request := Push(held, s[0]).1.request;
        assert [request] + (a + b) == [request] + a + b;
      }
    }
  }

  predicate Noise(bytes: seq<byte>) { MAGIC !in bytes }

  /** How many bytes an unfinished frame can still swallow. */
  function Missing(held: seq<byte>): nat
    requires Unfinished(held)
  {
    if held == [] then 0
    else if |held| < HEADER_LEN then MAX_FRAME - |held|
    else HEADER_LEN + held[2] - |held|
  }

  lemma {:induction false} NoiseDrains(held: seq<byte>, noise: seq<byte>)
    requires Unfinished(held) && Noise(noise) && Missing(held) <= |noise|
    ensures Stream(held, noise).0 == []
    decreases |noise|
  {
    if noise != [] {
      PushInvariant(held, noise[0]);
      NoiseDrains(Push(held, noise[0]).0, noise[1..]);
    }
  }

  /** Resynchronisation: from any state the parser can be in, twenty bytes that are not the magic
      leave it idle, and from there on every frame is decoded, in order. */
  lemma Resynchronises(held: seq<byte>, noise: seq<byte>, frames: seq<seq<byte>>)
    requires Unfinished(held) && Noise(noise) && |noise| >= 20 && AllFrames(frames)
    ensures Stream(held, noise).0 == []
    ensures Stream(held, noise + Concat(frames)) == ([], Stream(held, noise).1 + RequestsOf(frames))
  {
    NoiseDrains(held, noise);
    StreamConcat(held, noise, Concat(frames));
    FramesStreamed(frames);
  }
}
