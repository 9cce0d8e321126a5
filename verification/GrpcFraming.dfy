/**
 * gRPC length-prefixed message framing (crates/eggreplay-http/src/grpc.rs): each frame is one flag octet, a
 * 32-bit big-endian length and that many payload octets ("Length-Prefixed-Message" of gRPC over HTTP/2).
 */
module GrpcFraming {
  import opened Prelude

  const GRPC_MAX_BODY_BYTES: nat := 16 * 1024 * 1024
  const GRPC_MAX_FRAMES: nat := 4096

  type Octets = seq<Octet>

  datatype GrpcError = TooLarge | TooManyFrames | Truncated | Overrun | TrailingBytes

  datatype GrpcFrame = GrpcFrame(index: nat, compressed: bool, length: nat, payload: Octets)

  type Frames = Result<seq<GrpcFrame>, GrpcError>

  // ---- Big-endian lengths ----

  /** `u32::from_be_bytes`. */
  function BigEndian(b0: Octet, b1: Octet, b2: Octet, b3: Octet): (n: nat)
    ensures n < 0x1_0000_0000
  {
    ((b0 * 256 + b1) * 256 + b2) * 256 + b3
  }

  /** `u32::to_be_bytes`. */
  function ToBigEndian(n: nat): (bytes: Octets)
    requires n < 0x1_0000_0000
    ensures |bytes| == 4 && BigEndian(bytes[0], bytes[1], bytes[2], bytes[3]) == n
  {
    var high := n / 256;
    var higher := high / 256;
    var highest: Octet := higher / 256;
    [highest, higher % 256, high % 256, n % 256]
  }

  /** Most significant octet first: numbers order as their octets do, from the left. */
  lemma BigEndianOrder(a0: Octet, a1: Octet, a2: Octet, a3: Octet, b0: Octet, b1: Octet, b2: Octet, b3: Octet)
    ensures BigEndian(a0, a1, a2, a3) < BigEndian(b0, b1, b2, b3) <==>
      || a0 < b0
      || (a0 == b0 && a1 < b1)
      || (a0 == b0 && a1 == b1 && a2 < b2)
      || (a0 == b0 && a1 == b1 && a2 == b2 && a3 < b3)
  {
  }

  // ---- What parsing means ----

  /** The body's declared length of the frame it starts with. */
  function DeclaredLength(body: Octets): nat
    requires |body| >= 5
  {
    BigEndian(body[1], body[2], body[3], body[4])
  }

  lemma DeclaredLengthIs(body: Octets)
    requires |body| >= 5
    ensures DeclaredLength(body) == BigEndian(body[1], body[2], body[3], body[4])
  {
  }

  /** Why a nonempty body starts with no frame, when `count` frames came before it. */
  function FrameError(body: Octets, count: nat): Option<GrpcError>
  {
    if count >= GRPC_MAX_FRAMES then Some(TooManyFrames)
    else if |body| < 5 then Some(Truncated)
    else if 5 + DeclaredLength(body) > |body| then Some(Overrun)
    else None
  }

  function FirstFrame(body: Octets, count: nat): GrpcFrame
    requires |body| >= 5 && 5 + DeclaredLength(body) <= |body|
  {
    GrpcFrame(count, body[0] % 2 == 1, DeclaredLength(body), body[5..5 + DeclaredLength(body)])
  }

  lemma FirstFrameIs(body: Octets, count: nat)
    requires |body| >= 5 && 5 + DeclaredLength(body) <= |body|
    ensures FirstFrame(body, count)
         == GrpcFrame(count, body[0] % 2 == 1, DeclaredLength(body), body[5..5 + DeclaredLength(body)])
  {
  }

  /** `frames` in front of what parsing the rest gave. */
  function Prepend(frames: seq<GrpcFrame>, rest: Frames): Frames
  {
    if rest.Ok? then Ok(frames + rest.value) else rest
  }

  /** Parsing what remains of a body after `count` frames. */
  function Parsed(body: Octets, count: nat): Frames
  {
    if body == [] then Ok([])
    else
      match FrameError(body, count)
      case Some(error) => Err(error)
      case None =>
        Prepend([FirstFrame(body, count)], Parsed(body[5 + DeclaredLength(body)..], count + 1))
  }

  function ParsedBody(body: Octets): Frames
  {
    if |body| > GRPC_MAX_BODY_BYTES then Err(TooLarge) else Parsed(body, 0)
  }

  lemma PrependPrepend(a: seq<GrpcFrame>, b: seq<GrpcFrame>, rest: Frames)
    ensures Prepend(a, Prepend(b, rest)) == Prepend(a + b, rest)
  {
    if rest.Ok? {
      assert a + (b + rest.value) == a + b + rest.value;
    }
  }

  lemma PrependNothing(rest: Frames)
    ensures Prepend([], rest) == rest
  {
    if rest.Ok? {
      assert [] + rest.value == rest.value;
    }
  }

  /** Parsing a nonempty body, one frame at a time. */
  lemma ParsedStep(body: Octets, frames: seq<GrpcFrame>)
    requires body != []
    ensures Prepend(frames, Parsed(body, |frames|)) ==
            match FrameError(body, |frames|)
            case Some(error) => Err(error)
            case None =>
              Prepend(frames + [FirstFrame(body, |frames|)],
                      Parsed(body[5 + DeclaredLength(body)..], |frames| + 1))
  {
    if FrameError(body, |frames|).None? {
      PrependPrepend(frames, [FirstFrame(body, |frames|)],
                     Parsed(body[5 + DeclaredLength(body)..], |frames| + 1));
    }
  }

  lemma ParsedEnd(frames: seq<GrpcFrame>)
    ensures Prepend(frames, Parsed([], |frames|)) == Ok(frames)
  {
    assert frames + [] == frames;
  }

  lemma SliceOfRest(body: Octets, offset: nat, end: nat)
    requires offset <= end <= |body|
    ensures forall start :: offset <= start <= end ==> body[start..end] == body[offset..][start - offset..end - offset]
  {
  }

  lemma RestOfRest(body: Octets, offset: nat, end: nat)
    requires offset <= end <= |body|
    ensures body[end..] == body[offset..][end - offset..]
  {
  }

  /** What the loop keeps: the frames read so far and the rest still to read make up the whole. */
  predicate Invariant(body: Octets, offset: nat, frames: seq<GrpcFrame>)
  {
    offset <= |body| && Parsed(body, 0) == Prepend(frames, Parsed(body[offset..], |frames|))
  }

  lemma InvariantStarts(body: Octets)
    ensures Invariant(body, 0, [])
  {
    PrependNothing(Parsed(body, 0));
    assert body[0..] == body;
  }

  /** One more frame read in place, or the error that ends the loop. */
  lemma InvariantStep(body: Octets, offset: nat, frames: seq<GrpcFrame>)
    requires offset < |body| && Invariant(body, offset, frames)
    ensures var rest := body[offset..];
            match FrameError(rest, |frames|)
            case Some(error) => Parsed(body, 0) == Err(error)
            case None =>
              var end := offset + 5 + DeclaredLength(rest);
              Invariant(body, end, frames + [FirstFrame(rest, |frames|)])
  {
    hide Parsed, Prepend, DeclaredLength, FirstFrame;
    var rest := body[offset..];
    ParsedStep(rest, frames);
    if FrameError(rest, |frames|).None? {
      RestOfRest(body, offset, offset + 5 + DeclaredLength(rest));
    }
  }

  lemma InvariantEnds(body: Octets, frames: seq<GrpcFrame>)
    requires Invariant(body, |body|, frames)
    ensures Parsed(body, 0) == Ok(frames)
  {
    assert body[|body|..] == [];
    ParsedEnd(frames);
  }

  /** `parse_grpc_frames`. */
  method ParseGrpcFrames(body: Octets) returns (result: Frames)
    ensures result == ParsedBody(body)
    ensures result != Err(TrailingBytes)
  {
    if |body| > GRPC_MAX_BODY_BYTES {
      return Err(TooLarge);
    }
    var frames: seq<GrpcFrame> := [];
    var offset := 0;
    InvariantStarts(body);
    hide Invariant, Parsed, DeclaredLength, FirstFrame;
    while offset < |body|
      invariant Invariant(body, offset, frames)
      invariant offset <= |body|
    {
      var rest := body[offset..];
      InvariantStep(body, offset, frames);
      if |frames| >= GRPC_MAX_FRAMES {
        return Err(TooManyFrames);
      }
      if |rest| < 5 {
        return Err(Truncated);
      }
      var compressed := rest[0] % 2 == 1;
      var length := BigEndian(rest[1], rest[2], rest[3], rest[4]);
      var payloadStart := offset + 5;
      var payloadEnd := payloadStart + length;
      DeclaredLengthIs(rest);
      if payloadEnd > |body| {
        return Err(Overrun);
      }
      SliceOfRest(body, offset, payloadEnd);
      FirstFrameIs(rest, |frames|);
      frames := frames + [GrpcFrame(|frames|, compressed, length, body[payloadStart..payloadEnd])];
      offset := payloadEnd;
    }
    if offset != |body| {
      return Err(TrailingBytes);
    }
    InvariantEnds(body, frames);
    return Ok(frames);
  }

  // ---- Encoding ----

  /** One frame written with the flag octet `flag`. */
  function Framed(flag: Octet, payload: Octets): Octets
    requires |payload| < 0x1_0000_0000
  {
    [flag] + ToBigEndian(|payload|) + payload
  }

  datatype Message = Message(flag: Octet, payload: Octets)

  predicate Short(messages: seq<Message>)
  {
    forall m :: m in messages ==> |m.payload| < 0x1_0000_0000
  }

  /** The messages one after another. Flag 0 or 1 is what the encoder of the source's tests writes. */
  function Encode(messages: seq<Message>): Octets
    requires Short(messages)
  {
    if messages == [] then []
    else Framed(messages[0].flag, messages[0].payload) + Encode(messages[1..])
  }

  /** The frame a message is read as when `index` frames came before it. */
  function FrameOf(m: Message, index: nat): GrpcFrame
  {
    GrpcFrame(index, m.flag % 2 == 1, |m.payload|, m.payload)
  }

  /** The frames these messages are read as, numbered from `count`. */
  function FramesOf(messages: seq<Message>, count: nat): (frames: seq<GrpcFrame>)
    ensures |frames| == |messages|
  {
    seq(|messages|, i requires 0 <= i < |messages| => FrameOf(messages[i], count + i))
  }

  /** The octets the frames take up. */
  function TotalLength(frames: seq<GrpcFrame>): nat
  {
    if frames == [] then 0 else 5 + frames[0].length + TotalLength(frames[1..])
  }

  lemma EncodeStep(messages: seq<Message>, rest: Octets)
    requires messages != [] && Short(messages)
    ensures |messages[0].payload| < 0x1_0000_0000 && Short(messages[1..])
    ensures Encode(messages) + rest
         == Framed(messages[0].flag, messages[0].payload) + (Encode(messages[1..]) + rest)
  {
  }

  lemma FramesStep(messages: seq<Message>, count: nat)
    requires messages != []
    ensures FramesOf(messages, count) == [FrameOf(messages[0], count)] + FramesOf(messages[1..], count + 1)
  {
  }

  lemma ParsedFramed(m: Message, rest: Octets, count: nat)
    requires |m.payload| < 0x1_0000_0000
    requires count < GRPC_MAX_FRAMES
    ensures Parsed(Framed(m.flag, m.payload) + rest, count) ==
            Prepend([FrameOf(m, count)], Parsed(rest, count + 1))
  {
  }

  lemma ParsedNoMessages(rest: Octets, count: nat)
    ensures Parsed(Encode([]) + rest, count) == Prepend(FramesOf([], count), Parsed(rest, count))
  {
    assert Encode([]) + rest == rest;
    assert FramesOf([], count) == [];
    PrependNothing(Parsed(rest, count));
  }

  /** Reading messages followed by anything: their frames, then whatever the rest reads as. */
  lemma {:induction false} ParsedEncode(messages: seq<Message>, rest: Octets, count: nat)
    requires Short(messages)
    requires count + |messages| <= GRPC_MAX_FRAMES
    ensures Parsed(Encode(messages) + rest, count) ==
            Prepend(FramesOf(messages, count), Parsed(rest, count + |messages|))
  {
    hide *;
    if messages == [] {
      ParsedNoMessages(rest, count);
    } else {
      EncodeStep(messages, rest);
      var m := messages[0];
      ParsedFramed(m, Encode(messages[1..]) + rest, count);
      ParsedEncode(messages[1..], rest, count + 1);
      FramesStep(messages, count);
      PrependPrepend([FrameOf(m, count)], FramesOf(messages[1..], count + 1), Parsed(rest, count + |messages|));
    }
  }
}
