/** gRPC framing is a bijection up to the unused bits of the flag octets. */
module GrpcTheorems {
  import opened Prelude
  import opened GrpcFraming

  // ---- Encoding, then parsing ----

  /** What an encoder writes within the bounds is read back frame by frame. */
  lemma EncodedFramesParse(messages: seq<Message>)
    requires Short(messages) && |messages| <= GRPC_MAX_FRAMES && |Encode(messages)| <= GRPC_MAX_BODY_BYTES
    ensures ParsedBody(Encode(messages)) == Ok(FramesOf(messages, 0))
  {
    ParsedEncode(messages, [], 0);
    assert Encode(messages) + [] == Encode(messages);
    ParsedEnd(FramesOf(messages, 0));
  }

  // ---- Parsing, then encoding ----

  /** `messages` is a way to have written the body that reads as `frames`, numbered from `count`. */
  ghost predicate Writes(messages: seq<Message>, body: Octets, frames: seq<GrpcFrame>, count: nat)
  {
    && Short(messages)
    && Encode(messages) == body
    && FramesOf(messages, count) == frames
  }

  lemma WritesOneMore(m: Message, messages: seq<Message>, rest: Octets, frames: seq<GrpcFrame>, count: nat)
    requires |m.payload| < 0x1_0000_0000
    requires Writes(messages, rest, frames, count + 1)
    ensures Writes([m] + messages, Framed(m.flag, m.payload) + rest, [FrameOf(m, count)] + frames, count)
  {
    hide Framed, Encode, FramesOf, FrameOf;
    EncodePrepend(m, messages);
    FramesStep([m] + messages, count);
    assert ([m] + messages)[1..] == messages;
  }

  /** The frame a body starts with, written again, and the rest give the body back. */
  lemma FirstFrameWritten(body: Octets, count: nat)
    requires |body| >= 5 && 5 + DeclaredLength(body) <= |body|
    ensures var payload := body[5..5 + DeclaredLength(body)];
            && |payload| == DeclaredLength(body) < 0x1_0000_0000
            && Framed(body[0], payload) + body[5 + DeclaredLength(body)..] == body
            && FirstFrame(body, count) == FrameOf(Message(body[0], payload), count)
  {
  }

  lemma {:induction false} ParsedIsWritten(body: Octets, count: nat) returns (messages: seq<Message>)
    requires count <= GRPC_MAX_FRAMES
    requires Parsed(body, count).Ok?
    ensures Writes(messages, body, Parsed(body, count).value, count)
    ensures count + |messages| <= GRPC_MAX_FRAMES
    decreases |body|
  {
    if body == [] {
      messages := [];
      assert FramesOf(messages, count) == [];
    } else {
      var length := DeclaredLength(body);
      var rest := body[5 + length..];
      var m := Message(body[0], body[5..5 + length]);
      var tail := ParsedIsWritten(rest, count + 1);
      FirstFrameWritten(body, count);
      assert Parsed(body, count).value == [FrameOf(m, count)] + Parsed(rest, count + 1).value;
      hide Parsed, FramesOf, FirstFrame, DeclaredLength, Framed, Writes;
      WritesOneMore(m, tail, rest, Parsed(rest, count + 1).value, count);
      messages := [m] + tail;
    }
  }

  /** A body parses to `frames` exactly when it is within bounds and some messages write it and read as them. */
  lemma ParsesIffWritten(body: Octets, frames: seq<GrpcFrame>)
    ensures ParsedBody(body) == Ok(frames) <==>
            && |body| <= GRPC_MAX_BODY_BYTES
            && |frames| <= GRPC_MAX_FRAMES
            && exists messages :: Writes(messages, body, frames, 0)
  {
    if ParsedBody(body) == Ok(frames) {
      var messages := ParsedIsWritten(body, 0);
    }
    if |body| <= GRPC_MAX_BODY_BYTES && |frames| <= GRPC_MAX_FRAMES
       && exists messages :: Writes(messages, body, frames, 0) {
      var messages :| Writes(messages, body, frames, 0);
      EncodedFramesParse(messages);
    }
  }

  lemma {:induction false} EncodedLength(messages: seq<Message>, count: nat)
    requires Short(messages)
    ensures |Encode(messages)| == TotalLength(FramesOf(messages, count))
  {
    if messages != [] {
      EncodedLength(messages[1..], count + 1);
      FramesStep(messages, count);
      var frames := FramesOf(messages, count);
      assert frames[1..] == FramesOf(messages[1..], count + 1);
      hide FramesOf;
    }
  }

  /** A frame written as an encoder would: flag 1 for compressed, 0 for not. */
  function Rewritten(frames: seq<GrpcFrame>): (messages: seq<Message>)
    ensures |messages| == |frames|
  {
    seq(|frames|, i requires 0 <= i < |frames| =>
      Message(if frames[i].compressed then 1 else 0, frames[i].payload))
  }

  /** The same messages with the unused flag bits cleared. */
  function Cleared(messages: seq<Message>): (cleared: seq<Message>)
    ensures |cleared| == |messages|
  {
    seq(|messages|, i requires 0 <= i < |messages| => Message(messages[i].flag % 2, messages[i].payload))
  }

  /** No flag octet has an unused bit set. */
  predicate PlainFlags(messages: seq<Message>)
  {
    forall i :: 0 <= i < |messages| ==> messages[i].flag < 2
  }

  lemma RewrittenIsCleared(messages: seq<Message>, count: nat)
    ensures Rewritten(FramesOf(messages, count)) == Cleared(messages)
  {
  }

  /**
   * A parsed body's frames account for every one of its octets, and encoding them again gives the body with the
   * unused bits of its flag octets cleared: the body itself when it has none set.
   */
  lemma ParsedReEncodes(body: Octets)
    requires ParsedBody(body).Ok?
    ensures TotalLength(ParsedBody(body).value) == |body|
    ensures exists messages :: Writes(messages, body, ParsedBody(body).value, 0)
                               && Rewritten(ParsedBody(body).value) == Cleared(messages)
                               && (PlainFlags(messages) ==> Rewritten(ParsedBody(body).value) == messages)
  {
    var messages := ParsedIsWritten(body, 0);
    EncodedLength(messages, 0);
    RewrittenIsCleared(messages, 0);
    if PlainFlags(messages) {
      assert Cleared(messages) == messages;
    }
  }

  // ---- Concatenation ----

  lemma EncodePrepend(m: Message, messages: seq<Message>)
    requires |m.payload| < 0x1_0000_0000 && Short(messages)
    ensures Short([m] + messages)
    ensures Encode([m] + messages) == Framed(m.flag, m.payload) + Encode(messages)
  {
    assert ([m] + messages)[1..] == messages;
  }

  lemma EncodeNothing(b: Octets)
    ensures Encode([]) + b == b
  {
  }

  lemma {:induction false} EncodeConcat(a: seq<Message>, b: seq<Message>)
    requires Short(a) && Short(b)
    ensures Short(a + b)
    ensures Encode(a + b) == Encode(a) + Encode(b)
  {
    hide *;
    if a == [] {
      assert a + b == b;
      EncodeNothing(Encode(b));
    } else {
      var m, rest := a[0], a[1..];
      assert a + b == [m] + (rest + b);
      EncodeStep(a, Encode(b));
      EncodeConcat(rest, b);
      EncodePrepend(m, rest + b);
    }
  }

  /** Too many messages are refused, wherever the counting starts. */
  lemma TooManyRefused(messages: seq<Message>, count: nat)
    requires Short(messages) && count <= GRPC_MAX_FRAMES < count + |messages|
    ensures Parsed(Encode(messages), count) == Err(TooManyFrames)
  {
  }

  /** The frames of a body that comes after `count` other frames. */
  function Renumbered(frames: seq<GrpcFrame>, count: nat): seq<GrpcFrame>
  {
    seq(|frames|, i requires 0 <= i < |frames| => frames[i].(index := count + frames[i].index))
  }

  lemma FramesConcat(a: seq<Message>, b: seq<Message>)
    ensures FramesOf(a + b, 0) == FramesOf(a, 0) + Renumbered(FramesOf(b, 0), |a|)
  {
  }

  /**
   * Parsing distributes over concatenation: two parsed bodies within the byte bound together parse to the
   * frames of the first and then those of the second, numbered on, unless the frames are too many.
   */
  lemma ConcatenationParses(a: Octets, b: Octets)
    requires ParsedBody(a).Ok? && ParsedBody(b).Ok?
    requires |a + b| <= GRPC_MAX_BODY_BYTES
    ensures var fa, fb := ParsedBody(a).value, ParsedBody(b).value;
            ParsedBody(a + b) ==
            if |fa| + |fb| <= GRPC_MAX_FRAMES then Ok(fa + Renumbered(fb, |fa|)) else Err(TooManyFrames)
  {
    var ma := ParsedIsWritten(a, 0);
    var mb := ParsedIsWritten(b, 0);
    hide Parsed, Encode, FramesOf, Renumbered, Short;
    EncodeConcat(ma, mb);
    if |ma| + |mb| <= GRPC_MAX_FRAMES {
      EncodedFramesParse(ma + mb);
      FramesConcat(ma, mb);
    } else {
      TooManyRefused(ma + mb, 0);
    }
  }

  // ---- Errors ----

  /** Reading stops with `error` after `messages`: what follows them is not empty and starts with no frame. */
  ghost predicate Stops(body: Octets, messages: seq<Message>, rest: Octets, count: nat, error: GrpcError)
  {
    && Short(messages)
    && body == Encode(messages) + rest
    && rest != []
    && count + |messages| <= GRPC_MAX_FRAMES
    && FrameError(rest, count + |messages|) == Some(error)
  }

  lemma {:induction false} ErrorStops(body: Octets, count: nat) returns (messages: seq<Message>, rest: Octets)
    requires count <= GRPC_MAX_FRAMES
    requires Parsed(body, count).Err?
    ensures Stops(body, messages, rest, count, Parsed(body, count).error)
    decreases |body|
  {
    if FrameError(body, count).Some? {
      messages, rest := [], body;
      assert Encode(messages) + rest == body;
    } else {
      var length := DeclaredLength(body);
      var m := Message(body[0], body[5..5 + length]);
      var tail;
      tail, rest := ErrorStops(body[5 + length..], count + 1);
      FirstFrameWritten(body, count);
      messages := [m] + tail;
      assert messages[1..] == tail;
      hide Parsed, FirstFrame, DeclaredLength, Framed, FrameError;
      EncodeStep(messages, rest);
    }
  }

  /**
   * A body is refused with an error other than its size exactly when whole messages are followed by something
   * that starts with no frame, for that reason. In particular no body has trailing bytes.
   */
  lemma RefusedIff(body: Octets, error: GrpcError)
    requires |body| <= GRPC_MAX_BODY_BYTES
    ensures ParsedBody(body) == Err(error) <==> exists messages, rest :: Stops(body, messages, rest, 0, error)
    ensures ParsedBody(body) != Err(TrailingBytes)
  {
    if ParsedBody(body).Err? {
      var messages, rest := ErrorStops(body, 0);
    }
    if exists messages, rest :: Stops(body, messages, rest, 0, error) {
      var messages, rest :| Stops(body, messages, rest, 0, error);
      ParsedEncode(messages, rest, 0);
    }
  }

  /**
   * A body cut off inside a frame is refused wherever the cut is: as truncated when not even the prefix is there, and
   * as an overrun of the declared length otherwise.
   */
  lemma CutBodyRefused(messages: seq<Message>, last: Message, k: nat)
    requires Short(messages) && |last.payload| < 0x1_0000_0000 && 0 < k < 5 + |last.payload|
    requires |messages| < GRPC_MAX_FRAMES && |Encode(messages)| + k <= GRPC_MAX_BODY_BYTES
    ensures ParsedBody(Encode(messages) + Framed(last.flag, last.payload)[..k]) == Err(if k < 5 then Truncated else Overrun)
  {
    var cut := Framed(last.flag, last.payload)[..k];
    ParsedEncode(messages, cut, 0);
    assert cut != [];
    assert k >= 5 ==> DeclaredLength(cut) == |last.payload|;
    hide Encode, FramesOf, ToBigEndian;
  }

  /** Whatever follows the greatest number of frames is refused for that. */
  lemma OneFrameTooMany(messages: seq<Message>, rest: Octets)
    requires Short(messages) && |messages| == GRPC_MAX_FRAMES && rest != []
    requires |Encode(messages)| + |rest| <= GRPC_MAX_BODY_BYTES
    ensures ParsedBody(Encode(messages) + rest) == Err(TooManyFrames)
  {
    ParsedEncode(messages, rest, 0);
    hide Encode, FramesOf;
  }
}
