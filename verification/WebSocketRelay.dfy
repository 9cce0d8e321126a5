/**
 * The WebSocket relay loop (crates/eggreplay-http/src/recording.rs).
 *
 * Everything the loop cannot decide for itself is a `Delivery`: which `select!` branch fired, what the codec
 * produced, the clock reading, and whether the blob store or the outgoing socket failed. The functions on delivery
 * histories say, without the loop's variables, what a relay must have recorded, forwarded and answered.
 */
module WebSocketRelay {
  import opened Prelude
  import opened WebSocketTranscript

  datatype CloseFrame = CloseFrame(code: nat, reason: Bytes)

  datatype Incoming =
    | TextData(data: Bytes)
    | BinaryData(data: Bytes)
    | PingData(data: Bytes)
    | PongData(data: Bytes)
    | CloseData(frame: Option<CloseFrame>)
    | RawFrame

  datatype CodecError = ResetWithoutClosingHandshake | UnexpectedEof | ConnectionReset | OtherCodecError

  datatype Delivery =
    | DeadlineExpired
    | Cancelled
    | Received(side: Direction, message: Incoming, now: nat, storeFails: bool, sendFails: bool)
    | Failed(side: Direction, error: CodecError)
    | Finished(side: Direction)

  /** Recording options; `redactJson` is JSON redaction of `jsonPaths`, `None` on malformed JSON. */
  datatype Policy = Policy(redactText: bool, redactBinary: bool, jsonPaths: seq<string>, redactJson: Bytes -> Option<Bytes>)

  const REDACTED: Bytes := "[REDACTED]"

  function ErrorCause(e: CodecError): string
  {
    match e
    case ResetWithoutClosingHandshake => "reset"
    case UnexpectedEof => "eof"
    case ConnectionReset => "reset"
    case OtherCodecError => "protocol-error"
  }

  // ---------- What one message becomes in the transcript ----------

  function KindOf(m: Incoming): Kind
    requires !m.RawFrame?
  {
    match m
    case TextData(_) => Text
    case BinaryData(_) => Binary
    case PingData(_) => Ping
    case PongData(_) => Pong
    case CloseData(_) => Close
  }

  function StoredBytes(p: Policy, m: Incoming): Bytes
  {
    match m
    case TextData(data) =>
      if p.redactText then REDACTED
      else if p.jsonPaths != [] && p.redactJson(data).Some? then p.redactJson(data).value
      else data
    case BinaryData(data) => if p.redactBinary then REDACTED else data
    case PingData(data) => data
    case PongData(data) => data
    case _ => ""
  }

  function CloseCodeOf(m: Incoming): Option<nat>
  {
    if m.CloseData? && m.frame.Some? then Some(m.frame.value.code) else None
  }

  function StoredReason(p: Policy, m: Incoming): Option<Bytes>
  {
    if m.CloseData? && m.frame.Some? && m.frame.value.reason != "" then
      Some(if p.redactText then REDACTED else m.frame.value.reason)
    else None
  }

  function Markers(p: Policy, m: Incoming): seq<Redaction>
  {
    match m
    case TextData(data) =>
      if p.redactText then [WholeMessage]
      else if p.jsonPaths != [] && p.redactJson(data).Some? then [JsonPointers(p.jsonPaths)]
      else []
    case BinaryData(_) => if p.redactBinary then [WholeMessage] else []
    case CloseData(_) => if p.redactText && StoredReason(p, m).Some? then [CloseReason] else []
    case _ => []
  }

  function Transcribe(p: Policy, d: Delivery, sequence: nat): Message
    requires d.Received? && !d.message.RawFrame?
  {
    var bytes := StoredBytes(p, d.message);
    Message(sequence, d.side, d.now, KindOf(d.message), if bytes == "" then None else Some(Stored(bytes)),
            CloseCodeOf(d.message), StoredReason(p, d.message), Markers(p, d.message))
  }

  // ---------- What a history of deliveries means ----------

  predicate Observed(d: Delivery)
  {
    d.Received? && !d.message.RawFrame?
  }

  predicate IsCloseFrom(d: Delivery, side: Direction)
  {
    Observed(d) && d.message.CloseData? && d.side == side
  }

  ghost predicate SawClose(h: seq<Delivery>, side: Direction)
  {
    exists i :: 0 <= i < |h| && IsCloseFrom(h[i], side)
  }

  ghost predicate SawEnd(h: seq<Delivery>, side: Direction)
  {
    Finished(side) in h
  }

  /** Pings from `side` that the other peer has not answered yet. */
  ghost function Outstanding(h: seq<Delivery>, side: Direction): multiset<Bytes>
  {
    if h == [] then multiset{}
    else
      var rest, d := Outstanding(h[..|h| - 1], side), h[|h| - 1];
      if Observed(d) && d.message.PingData? && d.side == side then rest + multiset{d.message.data}
      else if Observed(d) && d.message.PongData? && d.side != side then rest - multiset{d.message.data}
      else rest
  }

  /** A pong that answers an outstanding ping of the peer it would be forwarded to. */
  ghost predicate Suppressed(h: seq<Delivery>, d: Delivery)
  {
    Observed(d) && d.message.PongData? && d.message.data in Outstanding(h, Other(d.side))
  }

  ghost predicate Dropped(h: seq<Delivery>, d: Delivery)
  {
    || !Observed(d)
    || Suppressed(h, d)
    || (d.message.CloseData? && (SawClose(h, ClientToServer) || SawClose(h, ServerToClient)))
  }

  /** What the peer opposite `side` has been sent. */
  ghost function Forwarded(h: seq<Delivery>, side: Direction): seq<Incoming>
  {
    if h == [] then []
    else
      var rest, d := Forwarded(h[..|h| - 1], side), h[|h| - 1];
      if d.Received? && d.side == side && !Dropped(h[..|h| - 1], d) then rest + [d.message] else rest
  }

  function Recorded(p: Policy, h: seq<Delivery>): (ms: seq<Message>)
  {
    if h == [] then []
    else
      var rest, d := Recorded(p, h[..|h| - 1]), h[|h| - 1];
      if Observed(d) then rest + [Transcribe(p, d, |rest|)] else rest
  }

  ghost predicate OverLimit(p: Policy, h: seq<Delivery>, d: Delivery)
    requires Observed(d)
  {
    || |Recorded(p, h)| >= MAX_MESSAGES
    || PayloadTotal(Recorded(p, h)) + |StoredBytes(p, d.message)| > MAX_TOTAL_PAYLOAD_BYTES
    || d.now > MAX_DURATION_NS
  }

  /** The terminal with which delivery `d` ends a relay that has processed `h`, if it ends it. */
  ghost function Exit(p: Policy, h: seq<Delivery>, d: Delivery): Option<Terminal>
  {
    match d
    case DeadlineExpired => Some(Abnormal("duration-limit"))
    case Cancelled => Some(Abnormal("shutdown"))
    case Failed(_, error) => Some(Abnormal(ErrorCause(error)))
    case Finished(side) =>
      if SawClose(h, ClientToServer) && SawClose(h, ServerToClient) then Some(CleanClose(None, None))
      else if !SawClose(h, ClientToServer) && !SawClose(h, ServerToClient) then Some(Abnormal("eof"))
      else if SawEnd(h, Other(side)) then Some(Abnormal("eof"))
      else None
    case Received(side, message, _, storeFails, sendFails) =>
      if !Observed(d) then None
      else if StoredBytes(p, message) != "" && storeFails then Some(Abnormal("storage-error"))
      else if OverLimit(p, h, d) then Some(Abnormal("capture-limit"))
      else if !Dropped(h, d) && sendFails then Some(Abnormal("write-error"))
      else if message.CloseData? && SawClose(h, Other(side)) then
        Some(CleanClose(CloseCodeOf(message), StoredReason(p, message)))
      else None
  }

  /** No delivery of `h` ends the relay: `h` leads back to the loop head. */
  ghost predicate Continues(p: Policy, h: seq<Delivery>)
  {
    forall i :: 0 <= i < |h| ==> Exit(p, h[..i], h[i]).None?
  }

  /** The transcript after delivery `d` ended the relay. */
  ghost function FinalMessages(p: Policy, h: seq<Delivery>, d: Delivery): seq<Message>
  {
    if Exit(p, h, d) in {Some(Abnormal("storage-error")), Some(Abnormal("capture-limit"))} then Recorded(p, h)
    else Recorded(p, h + [d])
  }

  /** `select!` polls a side only while it is open, so nothing follows the end of a side's stream. */
  predicate PolledWhileOpen(ds: seq<Delivery>)
  {
    forall i, j :: 0 <= i < j < |ds| && ds[i].Finished? && (ds[j].Received? || ds[j].Failed? || ds[j].Finished?) ==>
      ds[j].side != ds[i].side
  }

  // ---------- Unfolding a history by one delivery ----------

  lemma ExtendClose(h: seq<Delivery>, d: Delivery, side: Direction)
    ensures SawClose(h + [d], side) <==> SawClose(h, side) || IsCloseFrom(d, side)
  {
    if SawClose(h, side) {
      var i :| 0 <= i < |h| && IsCloseFrom(h[i], side);
      assert (h + [d])[i] == h[i];
    }
    if IsCloseFrom(d, side) {
      assert (h + [d])[|h|] == d;
    }
  }

  lemma ExtendContinues(p: Policy, h: seq<Delivery>, d: Delivery)
    ensures Continues(p, h + [d]) <==> Continues(p, h) && Exit(p, h, d).None?
  {
    var g := h + [d];
    assert g[..|h|] == h && g[|h|] == d;
    if Continues(p, h) && Exit(p, h, d).None? {
      forall i | 0 <= i < |g|
        ensures Exit(p, g[..i], g[i]).None?
      {
        assert i < |h| ==> g[..i] == h[..i];
      }
    }
    if Continues(p, g) {
      forall i | 0 <= i < |h|
        ensures Exit(p, h[..i], h[i]).None?
      {
        assert g[..i] == h[..i] && g[i] == h[i];
      }
    }
  }

  lemma ExtendRecorded(p: Policy, h: seq<Delivery>, d: Delivery)
    ensures Recorded(p, h + [d]) ==
            if Observed(d) then Recorded(p, h) + [Transcribe(p, d, |Recorded(p, h)|)] else Recorded(p, h)
    ensures Observed(d) ==>
      PayloadTotal(Recorded(p, h + [d])) == PayloadTotal(Recorded(p, h)) + |StoredBytes(p, d.message)|
  {
  }

  lemma ExtendForwarded(h: seq<Delivery>, d: Delivery, side: Direction)
    ensures Forwarded(h + [d], side) ==
            if d.Received? && d.side == side && !Dropped(h, d) then Forwarded(h, side) + [d.message] else Forwarded(h, side)
  {
  }

  lemma ExtendOutstanding(h: seq<Delivery>, d: Delivery, side: Direction)
    ensures Outstanding(h + [d], side) ==
            if Observed(d) && d.message.PingData? && d.side == side then Outstanding(h, side) + multiset{d.message.data}
            else if Observed(d) && d.message.PongData? && d.side != side then Outstanding(h, side) - multiset{d.message.data}
            else Outstanding(h, side)
  {
  }

  // ---------- The loop ----------

  function Position(s: seq<Bytes>, x: Bytes): (r: Option<nat>)
    ensures r.Some? ==> r.value < |s| && s[r.value] == x
    ensures r.None? ==> x !in s
  {
    if s == [] then None
    else if s[0] == x then Some(0)
    else
      match Position(s[1..], x)
      case None => None
      case Some(i) => Some(i + 1)
  }

  /** Take the first ping with this payload off a list, if there is one. */
  method AnswerPing(pings: seq<Bytes>, payload: Bytes) returns (rest: seq<Bytes>, answered: bool)
    ensures answered <==> payload in multiset(pings)
    ensures multiset(rest) == multiset(pings) - multiset{payload}
  {
    match Position(pings, payload) {
      case None =>
        return pings, false;
      case Some(index) =>
        assert pings == pings[..index] + [payload] + pings[index + 1..];
        return pings[..index] + pings[index + 1..], true;
    }
  }

  /** The loop's variables, and the history of deliveries that brought control back to the loop head. */
  class Relay {
    const policy: Policy
    var messages: seq<Message>
    var totalPayload: nat
    var clientClosed: bool
    var serverClosed: bool
    var downstreamOpen: bool
    var upstreamOpen: bool
    var clientPings: seq<Bytes>
    var serverPings: seq<Bytes>
    var toServer: seq<Incoming>
    var toClient: seq<Incoming>
    ghost var history: seq<Delivery>

    ghost predicate TranscriptOf(h: seq<Delivery>)
      reads `messages, `totalPayload
    {
      messages == Recorded(policy, h) && totalPayload == PayloadTotal(messages) <= MAX_TOTAL_PAYLOAD_BYTES
    }

    ghost predicate PingsOf(h: seq<Delivery>)
      reads `clientPings, `serverPings
    {
      multiset(clientPings) == Outstanding(h, ClientToServer) && multiset(serverPings) == Outstanding(h, ServerToClient)
    }

    ghost predicate ForwardedAs(h: seq<Delivery>)
      reads `toServer, `toClient
    {
      toServer == Forwarded(h, ClientToServer) && toClient == Forwarded(h, ServerToClient)
    }

    ghost predicate FlagsOf(h: seq<Delivery>)
      reads `clientClosed, `serverClosed, `downstreamOpen, `upstreamOpen
    {
      && clientClosed == SawClose(h, ClientToServer)
      && serverClosed == SawClose(h, ServerToClient)
      && downstreamOpen == !SawEnd(h, ClientToServer)
      && upstreamOpen == !SawEnd(h, ServerToClient)
    }

    /** The invariant of the loop head. */
    ghost predicate Valid()
      reads this
    {
      && Continues(policy, history)
      && TranscriptOf(history)
      && PingsOf(history)
      && ForwardedAs(history)
      && FlagsOf(history)
      && !(clientClosed && serverClosed)
    }

    constructor (p: Policy)
      ensures Valid() && history == [] && policy == p
    {
      policy := p;
      messages, totalPayload := [], 0;
      clientClosed, serverClosed, downstreamOpen, upstreamOpen := false, false, true, true;
      clientPings, serverPings, toServer, toClient := [], [], [], [];
      history := [];
    }

    /** Control is back at the loop head. */
    ghost method Advance(d: Delivery)
      requires Continues(policy, history) && Exit(policy, history, d).None?
      requires TranscriptOf(history + [d]) && PingsOf(history + [d]) && ForwardedAs(history + [d]) && FlagsOf(history + [d])
      requires !(clientClosed && serverClosed)
      modifies `history
      ensures Valid() && history == old(history) + [d]
    {
      ExtendContinues(policy, history, d);
      history := history + [d];
    }

    /** Remember a ping, or answer one; an answering pong is not forwarded. */
    method Screen(d: Delivery) returns (suppress: bool)
      requires Observed(d) && PingsOf(history)
      modifies `clientPings, `serverPings
      ensures suppress <==> Suppressed(history, d)
      ensures PingsOf(history + [d])
    {
      ExtendOutstanding(history, d, ClientToServer);
      ExtendOutstanding(history, d, ServerToClient);
      suppress := false;
      match (d.message, d.side) {
        case (PingData(data), ClientToServer) => clientPings := clientPings + [data];
        case (PingData(data), ServerToClient) => serverPings := serverPings + [data];
        case (PongData(data), ServerToClient) => clientPings, suppress := AnswerPing(clientPings, data);
        case (PongData(data), ClientToServer) => serverPings, suppress := AnswerPing(serverPings, data);
        case _ =>
      }
    }

    /** Store the payload and append the transcript entry, within the capture limits. */
    method Record(d: Delivery) returns (exit: Option<Terminal>)
      requires Observed(d) && TranscriptOf(history)
      modifies `messages, `totalPayload
      ensures exit.Some? ==> messages == old(messages)
      ensures exit == if StoredBytes(policy, d.message) != "" && d.storeFails then Some(Abnormal("storage-error"))
                      else if OverLimit(policy, history, d) then Some(Abnormal("capture-limit"))
                      else None
      ensures exit.None? ==> TranscriptOf(history + [d])
    {
      ExtendRecorded(policy, history, d);
      var bytes := StoredBytes(policy, d.message);
      if bytes != "" && d.storeFails {
        return Some(Abnormal("storage-error"));
      }
      var total := SatAdd(totalPayload, |bytes|);
      if |messages| >= MAX_MESSAGES || total > MAX_TOTAL_PAYLOAD_BYTES || d.now > MAX_DURATION_NS {
        return Some(Abnormal("capture-limit"));
      }
      totalPayload := total;
      messages := messages + [Transcribe(policy, d, |messages|)];
      return None;
    }

    /** Send the message on to the other peer. */
    method Send(d: Delivery) returns (sent: bool)
      requires Observed(d) && !Dropped(history, d) && ForwardedAs(history)
      modifies `toServer, `toClient
      ensures sent == !d.sendFails
      ensures ForwardedAs(if sent then history + [d] else history)
    {
      ExtendForwarded(history, d, ClientToServer);
      ExtendForwarded(history, d, ServerToClient);
      if d.sendFails {
        return false;
      }
      if d.side.ClientToServer? {
        toServer := toServer + [d.message];
      } else {
        toClient := toClient + [d.message];
      }
      return true;
    }

    /** Forward the first close, and end the relay once both sides have closed. */
    method HandleClose(d: Delivery) returns (exit: Option<Terminal>)
      requires Observed(d) && d.message.CloseData?
      requires ForwardedAs(history) && FlagsOf(history) && !(clientClosed && serverClosed)
      modifies `clientClosed, `serverClosed, `toServer, `toClient
      ensures exit == if !Dropped(history, d) && d.sendFails then Some(Abnormal("write-error"))
                      else if SawClose(history, Other(d.side)) then
                        Some(CleanClose(CloseCodeOf(d.message), StoredReason(policy, d.message)))
                      else None
      ensures exit.Some? ==> ForwardedAs(history)
      ensures exit.None? ==> ForwardedAs(history + [d]) && FlagsOf(history + [d]) && !(clientClosed && serverClosed)
    {
      ExtendForwarded(history, d, ClientToServer);
      ExtendForwarded(history, d, ServerToClient);
      ExtendClose(history, d, ClientToServer);
      ExtendClose(history, d, ServerToClient);
      var duplicate := clientClosed || serverClosed;
      if d.side.ClientToServer? {
        clientClosed := true;
      } else {
        serverClosed := true;
      }
      if !duplicate {
        var sent := Send(d);
        if !sent {
          return Some(Abnormal("write-error"));
        }
      }
      if clientClosed && serverClosed {
        return Some(CleanClose(CloseCodeOf(d.message), StoredReason(policy, d.message)));
      }
      return None;
    }

    /** Forward a message that is not a close, unless it answered a ping. */
    method HandleOther(d: Delivery, suppress: bool) returns (exit: Option<Terminal>)
      requires Observed(d) && !d.message.CloseData? && suppress == Suppressed(history, d)
      requires ForwardedAs(history) && FlagsOf(history)
      modifies `toServer, `toClient
      ensures exit == if !Dropped(history, d) && d.sendFails then Some(Abnormal("write-error")) else None
      ensures ForwardedAs(if exit.Some? then history else history + [d])
      ensures FlagsOf(history + [d])
    {
      ExtendForwarded(history, d, ClientToServer);
      ExtendForwarded(history, d, ServerToClient);
      ExtendClose(history, d, ClientToServer);
      ExtendClose(history, d, ServerToClient);
      if !suppress {
        var sent := Send(d);
        if !sent {
          return Some(Abnormal("write-error"));
        }
      }
      return None;
    }

    method HandleMessage(d: Delivery) returns (exit: Option<Terminal>)
      requires Valid() && Observed(d)
      modifies this
      ensures exit == Exit(policy, old(history), d)
      ensures exit.None? ==> Valid() && history == old(history) + [d]
      ensures exit.Some? ==>
        && history == old(history)
        && messages == FinalMessages(policy, history, d)
        && ForwardedAs(history)
    {
      hide Recorded, Forwarded, Outstanding, SawClose, SawEnd, PayloadTotal, Suppressed, Continues, Dropped, OverLimit,
           StoredBytes, CloseCodeOf, StoredReason;
      var suppress := Screen(d);
      exit := Record(d);
      if exit.Some? {
        return;
      }
      if d.message.CloseData? {
        exit := HandleClose(d);
        if exit.Some? {
          return;
        }
      } else {
        exit := HandleOther(d, suppress);
        if exit.Some? {
          return;
        }
      }
      Advance(d);
    }

    /** One side's stream ended. */
    method HandleEnd(d: Delivery) returns (exit: Option<Terminal>)
      requires Valid() && d.Finished? && !SawEnd(history, d.side)
      modifies this
      ensures exit == Exit(policy, old(history), d)
      ensures exit.None? ==> Valid() && history == old(history) + [d]
      ensures exit.Some? ==> history == old(history) && messages == old(messages) && ForwardedAs(history)
    {
      hide Recorded, Forwarded, Outstanding;
      Skip(d);
      if d.side.ClientToServer? {
        downstreamOpen := false;
      } else {
        upstreamOpen := false;
      }
      if clientClosed && serverClosed {
        return Some(CleanClose(None, None));
      }
      if !clientClosed && !serverClosed {
        return Some(Abnormal("eof"));
      }
      if !downstreamOpen && !upstreamOpen {
        return Some(Abnormal("eof"));
      }
      Advance(d);
      return None;
    }

    /** A delivery that is not a message leaves the transcript, the pings and the forwarded messages alone. */
    lemma Skip(d: Delivery)
      requires Valid() && !Observed(d)
      ensures TranscriptOf(history + [d]) && PingsOf(history + [d]) && ForwardedAs(history + [d])
      ensures Exit(policy, history, d).None? ==> Continues(policy, history + [d])
      ensures forall side :: SawClose(history + [d], side) <==> SawClose(history, side)
    {
      ExtendContinues(policy, history, d);
      ExtendRecorded(policy, history, d);
      forall side: Direction
        ensures SawClose(history + [d], side) <==> SawClose(history, side)
      {
        ExtendClose(history, d, side);
      }
      ExtendOutstanding(history, d, ClientToServer);
      ExtendOutstanding(history, d, ServerToClient);
      ExtendForwarded(history, d, ClientToServer);
      ExtendForwarded(history, d, ServerToClient);
    }

    /** One turn of the loop. */
    method Step(d: Delivery) returns (exit: Option<Terminal>)
      requires Valid() && (d.Finished? ==> !SawEnd(history, d.side))
      modifies this
      ensures exit == Exit(policy, old(history), d)
      ensures exit.None? ==> Valid() && history == old(history) + [d]
      ensures exit.Some? ==>
        && history == old(history)
        && messages == FinalMessages(policy, history, d)
        && ForwardedAs(history)
    {
      ExtendRecorded(policy, history, d);
      match d {
        case DeadlineExpired =>
          return Some(Abnormal("duration-limit"));
        case Cancelled =>
          return Some(Abnormal("shutdown"));
        case Failed(_, error) =>
          return Some(Abnormal(ErrorCause(error)));
        case Finished(_) =>
          exit := HandleEnd(d);
        case Received(_, RawFrame, _, _, _) =>
          Skip(d);
          Advance(d);
          return None;
        case Received(_, _, _, _, _) =>
          exit := HandleMessage(d);
      }
    }
  }

  /**
   * The relay loop. `head` counts the deliveries after which control was back at the loop head; when `terminal` is
   * set, `ds[head]` is the delivery that ended the run.
   */
  method RelayWebSocket(p: Policy, ds: seq<Delivery>)
    returns (head: nat, terminal: Option<Terminal>, relay: Relay)
    requires PolledWhileOpen(ds)
    ensures fresh(relay) && relay.policy == p
    ensures head <= |ds| && relay.history == ds[..head] && Continues(p, ds[..head])
    ensures relay.ForwardedAs(ds[..head])
    ensures terminal.None? ==> head == |ds| && relay.Valid()
    ensures terminal.Some? ==>
      && head < |ds|
      && terminal == Exit(p, ds[..head], ds[head])
      && relay.messages == FinalMessages(p, ds[..head], ds[head])
  {
    hide Recorded, Forwarded, Outstanding, SawClose, Exit, FinalMessages, PayloadTotal;
    relay := new Relay(p);
    head, terminal := 0, None;
    while head < |ds| && terminal.None?
      invariant head <= |ds| && fresh(relay) && relay.policy == p
      invariant relay.history == ds[..head]
      invariant terminal.None? ==> relay.Valid()
      invariant terminal.Some? ==>
        && head < |ds|
        && Continues(p, ds[..head])
        && relay.ForwardedAs(ds[..head])
        && terminal == Exit(p, ds[..head], ds[head])
        && relay.messages == FinalMessages(p, ds[..head], ds[head])
      decreases |ds| - head, terminal.None?
    {
      terminal := relay.Step(ds[head]);
      if terminal.None? {
        head := head + 1;
      }
    }
  }
}
