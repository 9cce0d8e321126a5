/** Conversation transcripts and their validator (crates/eggreplay-core/src/websocket.rs). */
module WebSocketTranscript {
  import opened Prelude

  datatype Direction = ClientToServer | ServerToClient

  datatype Kind = Text | Binary | Ping | Pong | Close

  datatype Redaction = JsonPointers(pointers: seq<string>) | WholeMessage | CloseReason

  /** A reference to a message payload; a stored one stands for the bytes its digest addresses. */
  datatype PayloadRef = AbsentPayload | EmptyPayload | Stored(content: Bytes)

  datatype Terminal = CleanClose(code: Option<nat>, reason: Option<Bytes>) | Abnormal(cause: string)

  datatype Message = Message(
    sequence: nat,
    direction: Direction,
    deltaNs: nat,
    kind: Kind,
    payload: Option<PayloadRef>,
    closeCode: Option<nat>,
    closeReason: Option<Bytes>,
    redactions: seq<Redaction>)

  /** One conversation with its handshake metadata. */
  datatype Conversation = Conversation(
    id: Bytes,
    flowId: Bytes,
    offered: seq<Bytes>,
    selected: Option<Bytes>,
    messages: seq<Message>,
    terminal: Terminal)

  // The default limits, which every caller passes.
  const SCHEMA_VERSION: nat := 1
  const MAX_CONVERSATIONS: nat := 1024
  const MAX_SESSION_MESSAGES: nat := 1_000_000
  const MAX_SUBPROTOCOLS: nat := 32
  const MAX_SUBPROTOCOL_BYTES: nat := 128
  const MAX_ID_BYTES: nat := 128
  const MAX_MESSAGES: nat := 100_000
  const MAX_MESSAGE_BYTES: nat := 16 * 1024 * 1024
  const MAX_TOTAL_PAYLOAD_BYTES: nat := 1024 * 1024 * 1024
  const MAX_DURATION_NS: nat := 24 * 60 * 60 * 1_000_000_000
  const MAX_CONTROL_BYTES: nat := 125
  const MAX_REASON_BYTES: nat := 123

  const BOTH: set<Direction> := {ClientToServer, ServerToClient}

  const ABNORMAL_CAUSES: set<string> :=
    {"eof", "reset", "shutdown", "duration-limit", "protocol-error", "read-error", "write-error", "timeout",
     "cancelled", "upstream-error", "downstream-error", "other"}

  function Other(d: Direction): Direction
  {
    if d.ClientToServer? then ServerToClient else ClientToServer
  }

  predicate ValidCloseCode(code: nat)
  {
    (1000 <= code <= 1014 && !(1004 <= code <= 1006)) || 3000 <= code <= 4999
  }

  predicate ValidPointer(p: string)
  {
    |p| <= 1024 && |p| > 0 && p[0] == '/'
  }

  predicate ValidRedaction(r: Redaction, kind: Kind)
  {
    match r
    case JsonPointers(ps) => kind.Text? && |ps| <= 256 && forall p :: p in ps ==> ValidPointer(p)
    case WholeMessage => true
    case CloseReason => kind.Close?
  }

  function PayloadLength(m: Message): nat
  {
    match m.payload
    case Some(Stored(content)) => |content|
    case _ => 0
  }

  /** What the validator asks of one message on its own. */
  predicate WellFormed(m: Message)
  {
    && m.deltaNs <= MAX_DURATION_NS
    && m.payload != Some(AbsentPayload)
    && PayloadLength(m) <= MAX_MESSAGE_BYTES
    && (m.kind in {Ping, Pong, Close} ==> PayloadLength(m) <= MAX_CONTROL_BYTES)
    && (if m.kind.Close? then
          && m.payload.None?
          && (m.closeCode.Some? ==> ValidCloseCode(m.closeCode.value))
          && (m.closeReason.Some? ==> |m.closeReason.value| <= MAX_REASON_BYTES && m.closeCode.Some?)
        else
          m.closeCode.None? && m.closeReason.None?)
    && forall r :: r in m.redactions ==> ValidRedaction(r, m.kind)
  }

  function PayloadTotal(ms: seq<Message>): nat
  {
    if ms == [] then 0 else PayloadTotal(ms[..|ms| - 1]) + PayloadLength(ms[|ms| - 1])
  }

  predicate ClosedBy(ms: seq<Message>, d: Direction)
  {
    exists i :: 0 <= i < |ms| && ms[i].kind.Close? && ms[i].direction == d
  }

  /** Message `i` continues the messages before it. */
  predicate Follows(ms: seq<Message>, i: nat)
    requires i < |ms|
  {
    && ms[i].sequence == i
    && (i > 0 ==> ms[i - 1].deltaNs <= ms[i].deltaNs)
    && !ClosedBy(ms[..i], ms[i].direction)
  }

  predicate Admitted(ms: seq<Message>, i: nat)
    requires i < |ms|
  {
    WellFormed(ms[i]) && Follows(ms, i)
  }

  predicate MessagesAccepted(ms: seq<Message>)
  {
    && |ms| <= MAX_MESSAGES
    && PayloadTotal(ms) <= MAX_TOTAL_PAYLOAD_BYTES
    && forall i :: 0 <= i < |ms| ==> Admitted(ms, i)
  }

  predicate TerminalAccepted(ms: seq<Message>, terminal: Terminal)
  {
    match terminal
    case CleanClose(code, reason) =>
      && ClosedBy(ms, ClientToServer)
      && ClosedBy(ms, ServerToClient)
      && |ms| > 0
      && ms[|ms| - 1].kind.Close?
      && ms[|ms| - 1].closeCode == code
      && ms[|ms| - 1].closeReason == reason
    case Abnormal(cause) => cause in ABNORMAL_CAUSES
  }

  /** A conversation the validator accepts, as one declarative condition. */
  predicate Accepted(ms: seq<Message>, terminal: Terminal)
  {
    MessagesAccepted(ms) && TerminalAccepted(ms, terminal)
  }

  lemma {:induction false} PayloadTotalMonotone(ms: seq<Message>, n: nat)
    requires n <= |ms|
    ensures PayloadTotal(ms[..n]) <= PayloadTotal(ms)
  {
    if n == |ms| {
      assert ms[..n] == ms;
    } else {
      PayloadTotalMonotone(ms[..|ms| - 1], n);
      assert ms[..|ms| - 1][..n] == ms[..n];
    }
  }

  // ---------- Whole transcripts ----------

  predicate ValidId(id: Bytes)
  {
    0 < |id| <= MAX_ID_BYTES
  }

  predicate ValidSubprotocol(name: Bytes)
  {
    0 < |name| <= MAX_SUBPROTOCOL_BYTES && forall i :: 0 <= i < |name| ==> TokenByte(name[i])
  }

  predicate ValidHandshake(c: Conversation)
  {
    && ValidId(c.id)
    && ValidId(c.flowId)
    && |c.offered| <= MAX_SUBPROTOCOLS
    && (forall i :: 0 <= i < |c.offered| ==> ValidSubprotocol(c.offered[i]))
    && (c.selected.Some? ==> c.selected.value in c.offered)
  }

  /** What is asked of one conversation on its own. */
  predicate ConversationAccepted(c: Conversation)
  {
    ValidHandshake(c) && Accepted(c.messages, c.terminal)
  }

  function Ids(cs: seq<Conversation>): set<Bytes>
  {
    set c | c in cs :: c.id
  }

  function FlowIds(cs: seq<Conversation>): set<Bytes>
  {
    set c | c in cs :: c.flowId
  }

  /** Conversation `n` is accepted, and neither it nor its initiating flow is named like an earlier one. */
  predicate AcceptedAt(cs: seq<Conversation>, n: nat)
    requires n < |cs|
  {
    ConversationAccepted(cs[n]) && cs[n].id !in Ids(cs[..n]) && cs[n].flowId !in FlowIds(cs[..n])
  }

  function MessageCount(cs: seq<Conversation>): nat
  {
    if cs == [] then 0 else MessageCount(cs[..|cs| - 1]) + |cs[|cs| - 1].messages|
  }

  function SessionPayload(cs: seq<Conversation>): nat
  {
    if cs == [] then 0 else SessionPayload(cs[..|cs| - 1]) + PayloadTotal(cs[|cs| - 1].messages)
  }

  /** A transcript the validator accepts, as one declarative condition. */
  predicate TranscriptAccepted(schemaVersion: nat, cs: seq<Conversation>)
  {
    && schemaVersion == SCHEMA_VERSION
    && |cs| <= MAX_CONVERSATIONS
    && (forall n :: 0 <= n < |cs| ==> AcceptedAt(cs, n))
    && MessageCount(cs) <= MAX_SESSION_MESSAGES
    && SessionPayload(cs) <= MAX_TOTAL_PAYLOAD_BYTES
  }

  lemma TotalsStep(cs: seq<Conversation>, n: nat)
    requires n < |cs|
    ensures MessageCount(cs[..n + 1]) == MessageCount(cs[..n]) + |cs[n].messages|
    ensures SessionPayload(cs[..n + 1]) == SessionPayload(cs[..n]) + PayloadTotal(cs[n].messages)
    ensures Ids(cs[..n + 1]) == Ids(cs[..n]) + {cs[n].id}
    ensures FlowIds(cs[..n + 1]) == FlowIds(cs[..n]) + {cs[n].flowId}
  {
    hide PayloadTotal;
    assert cs[..n + 1][..n] == cs[..n];
    assert cs[..n + 1] == cs[..n] + [cs[n]];
  }

  lemma {:induction false} TotalsMonotone(cs: seq<Conversation>, n: nat)
    requires n <= |cs|
    ensures MessageCount(cs[..n]) <= MessageCount(cs)
    ensures SessionPayload(cs[..n]) <= SessionPayload(cs)
  {
    if n == |cs| {
      assert cs[..n] == cs;
    } else {
      TotalsMonotone(cs[..|cs| - 1], n);
      assert cs[..|cs| - 1][..n] == cs[..n];
    }
  }

  /** `WebSocketTranscript::validate`: decides `TranscriptAccepted`. */
  method ValidateTranscript(schemaVersion: nat, cs: seq<Conversation>) returns (ok: bool)
    ensures ok <==> TranscriptAccepted(schemaVersion, cs)
  {
    if schemaVersion != SCHEMA_VERSION || |cs| > MAX_CONVERSATIONS {
      return false;
    }
    var ids: set<Bytes>, flowIds: set<Bytes> := {}, {};
    var messages: nat, payload: nat := 0, 0;
    for n := 0 to |cs|
      invariant forall i :: 0 <= i < n ==> AcceptedAt(cs, i)
      invariant ids == Ids(cs[..n]) && flowIds == FlowIds(cs[..n])
      invariant messages == MessageCount(cs[..n]) <= MAX_SESSION_MESSAGES
      invariant payload == SessionPayload(cs[..n]) <= MAX_TOTAL_PAYLOAD_BYTES
    {
      var c := cs[n];
      TotalsStep(cs, n);
      TotalsMonotone(cs, n + 1);
      hide ConversationAccepted, MessageCount, SessionPayload, PayloadTotal, Ids, FlowIds;
      if c.id in ids || c.flowId in flowIds {
        assert !AcceptedAt(cs, n);
        return false;
      }
      ids, flowIds := ids + {c.id}, flowIds + {c.flowId};
      messages := messages + |c.messages|;
      if messages > MAX_SESSION_MESSAGES {
        return false;
      }
      ok, payload := ValidateConversation(c, payload);
      if !ok {
        assert TranscriptAccepted(schemaVersion, cs) ==> AcceptedAt(cs, n);
        return false;
      }
    }
    assert cs[..|cs|] == cs;
    return true;
  }

  /** The checks over one conversation, within what earlier ones left of the session's payload budget. */
  method ValidateConversation(c: Conversation, spent: nat) returns (ok: bool, payload: nat)
    requires spent <= MAX_TOTAL_PAYLOAD_BYTES
    ensures ok <==> ConversationAccepted(c) && spent + PayloadTotal(c.messages) <= MAX_TOTAL_PAYLOAD_BYTES
    ensures ok ==> payload == spent + PayloadTotal(c.messages)
  {
    payload := spent;
    if !ValidId(c.id) || !ValidId(c.flowId) || |c.offered| > MAX_SUBPROTOCOLS {
      return false, payload;
    }
    for i := 0 to |c.offered|
      invariant forall k :: 0 <= k < i ==> ValidSubprotocol(c.offered[k])
    {
      if !ValidSubprotocol(c.offered[i]) {
        return false, payload;
      }
    }
    if c.selected.Some? && (c.selected.value !in c.offered || |c.selected.value| > MAX_SUBPROTOCOL_BYTES) {
      return false, payload;
    }
    hide ValidSubprotocol, PayloadTotal, MessagesAccepted, TerminalAccepted;
    ok, payload := Validate(c.messages, c.terminal, spent);
  }

  /** The checks over messages and terminal of one conversation decide `Accepted`. */
  method Validate(ms: seq<Message>, terminal: Terminal, spent: nat) returns (ok: bool, payload: nat)
    requires spent <= MAX_TOTAL_PAYLOAD_BYTES
    ensures ok <==> Accepted(ms, terminal) && spent + PayloadTotal(ms) <= MAX_TOTAL_PAYLOAD_BYTES
    ensures ok ==> payload == spent + PayloadTotal(ms)
  {
    var closed;
    ok, payload, closed := ValidateMessages(ms, spent);
    if ok {
      ok := ValidateTerminal(ms, terminal, closed);
    }
  }

  method ValidateMessages(ms: seq<Message>, spent: nat) returns (ok: bool, total: nat, closed: set<Direction>)
    requires spent <= MAX_TOTAL_PAYLOAD_BYTES
    ensures ok <==> MessagesAccepted(ms) && spent + PayloadTotal(ms) <= MAX_TOTAL_PAYLOAD_BYTES
    ensures ok ==> total == spent + PayloadTotal(ms) && forall d :: d in closed <==> ClosedBy(ms, d)
  {
    total, closed := spent, {};
    if |ms| > MAX_MESSAGES {
      return false, total, closed;
    }
    var priorDelta := 0;
    for index := 0 to |ms|
      invariant index > 0 ==> priorDelta == ms[index - 1].deltaNs
      invariant total == spent + PayloadTotal(ms[..index]) <= MAX_TOTAL_PAYLOAD_BYTES
      invariant forall d :: d in closed <==> ClosedBy(ms[..index], d)
      invariant forall i :: 0 <= i < index ==> Admitted(ms, i)
    {
      hide Admitted, ClosedBy, PayloadTotal, MessagesAccepted;
      ok, total, closed := Admit(ms, index, priorDelta, spent, total, closed);
      if !ok {
        return;
      }
      priorDelta := ms[index].deltaNs;
    }
    assert ms[..|ms|] == ms;
    ok := true;
  }

  /** What the next message must satisfy, in terms of the loop's variables. */
  predicate FitsNext(m: Message, index: nat, priorDelta: nat, closed: set<Direction>)
  {
    && m.sequence == index
    && (index > 0 ==> priorDelta <= m.deltaNs)
    && m.direction !in closed
  }

  /** The body of the message loop: check message `index` and update the running totals. */
  method Admit(ms: seq<Message>, index: nat, priorDelta: nat, spent: nat, total: nat, closed: set<Direction>)
    returns (ok: bool, newTotal: nat, nowClosed: set<Direction>)
    requires index < |ms|
    requires index > 0 ==> priorDelta == ms[index - 1].deltaNs
    requires total == spent + PayloadTotal(ms[..index]) <= MAX_TOTAL_PAYLOAD_BYTES
    requires forall d :: d in closed <==> ClosedBy(ms[..index], d)
    ensures ok <==> Admitted(ms, index) && spent + PayloadTotal(ms[..index + 1]) <= MAX_TOTAL_PAYLOAD_BYTES
    ensures !ok ==> !(MessagesAccepted(ms) && spent + PayloadTotal(ms) <= MAX_TOTAL_PAYLOAD_BYTES)
    ensures ok ==> newTotal == spent + PayloadTotal(ms[..index + 1])
    ensures ok ==> forall d :: d in nowClosed <==> ClosedBy(ms[..index + 1], d)
  {
    var m := ms[index];
    TotalStep(ms, index);
    ClosedByStep(ms, index);
    AdmittedIs(ms, index, priorDelta, closed);
    hide PayloadTotal, WellFormed, ClosedBy, Admitted, FitsNext;
    ok, newTotal, nowClosed := AdmitMessage(m, index, priorDelta, total, closed);
  }

  lemma AdmittedIs(ms: seq<Message>, index: nat, priorDelta: nat, closed: set<Direction>)
    requires index < |ms|
    requires index > 0 ==> priorDelta == ms[index - 1].deltaNs
    requires forall d :: d in closed <==> ClosedBy(ms[..index], d)
    ensures Admitted(ms, index) <==> WellFormed(ms[index]) && FitsNext(ms[index], index, priorDelta, closed)
    ensures MessagesAccepted(ms) ==> Admitted(ms, index)
  {
    hide WellFormed, ClosedBy, PayloadTotal;
  }

  method AdmitMessage(m: Message, index: nat, priorDelta: nat, total: nat, closed: set<Direction>)
    returns (ok: bool, newTotal: nat, nowClosed: set<Direction>)
    requires total <= MAX_TOTAL_PAYLOAD_BYTES
    ensures ok <==>
      && WellFormed(m)
      && FitsNext(m, index, priorDelta, closed)
      && total + PayloadLength(m) <= MAX_TOTAL_PAYLOAD_BYTES
    ensures ok ==> newTotal == total + PayloadLength(m)
    ensures ok ==> nowClosed == closed + if m.kind.Close? then {m.direction} else {}
  {
    hide WellFormed;
    newTotal, nowClosed := total, closed;
    BothClosed(closed);
    var terminated := |closed| == 2;
    assert m.direction.ClientToServer? || m.direction.ServerToClient?;
    if m.sequence != index || (index > 0 && m.deltaNs < priorDelta) || terminated
       || (m.direction in closed && !m.kind.Close?) {
      return false, newTotal, nowClosed;
    }
    var length := PayloadLength(m);
    if total + length > U64_MAX || total + length > MAX_TOTAL_PAYLOAD_BYTES {
      return false, newTotal, nowClosed;
    }
    newTotal := total + length;
    ok := ValidateShape(m);
    if m.kind.Close? {
      if m.direction in closed {
        ok := false;
      }
      nowClosed := closed + {m.direction};
    }
  }

  method ValidateTerminal(ms: seq<Message>, terminal: Terminal, closed: set<Direction>) returns (ok: bool)
    requires MessagesAccepted(ms)
    requires forall d :: d in closed <==> ClosedBy(ms, d)
    ensures ok <==> TerminalAccepted(ms, terminal)
  {
    BothClosed(closed);
    match terminal {
      case CleanClose(code, reason) =>
        if |closed| != 2 || |ms| == 0 {
          return false;
        }
        var last := ms[|ms| - 1];
        assert Admitted(ms, |ms| - 1);
        if !last.kind.Close? || last.closeCode != code || last.closeReason != reason {
          return false;
        }
        ok := !((code.Some? && !ValidCloseCode(code.value))
                || (reason.Some? && (|reason.value| > MAX_REASON_BYTES || code.None?)));
      case Abnormal(cause) =>
        ok := cause in ABNORMAL_CAUSES;
    }
  }

  /** The checks that look at one message only. */
  method ValidateShape(m: Message) returns (ok: bool)
    ensures ok <==> WellFormed(m)
  {
    if m.deltaNs > MAX_DURATION_NS || m.payload == Some(AbsentPayload) {
      return false;
    }
    var length := PayloadLength(m);
    if length > MAX_MESSAGE_BYTES || (m.kind in {Ping, Pong, Close} && length > MAX_CONTROL_BYTES) {
      return false;
    }
    if m.kind.Close? {
      if m.payload.Some? || (m.closeCode.Some? && !ValidCloseCode(m.closeCode.value)) {
        return false;
      }
      if m.closeReason.Some? && (|m.closeReason.value| > MAX_REASON_BYTES || m.closeCode.None?) {
        return false;
      }
    } else if m.closeCode.Some? || m.closeReason.Some? {
      return false;
    }
    ok := ValidateRedactions(m.redactions, m.kind);
  }

  method ValidateRedactions(redactions: seq<Redaction>, kind: Kind) returns (ok: bool)
    ensures ok <==> forall r :: r in redactions ==> ValidRedaction(r, kind)
  {
    for index := 0 to |redactions|
      invariant forall i :: 0 <= i < index ==> ValidRedaction(redactions[i], kind)
    {
      if !ValidRedaction(redactions[index], kind) {
        return false;
      }
    }
    return true;
  }

  lemma TotalStep(ms: seq<Message>, n: nat)
    requires n < |ms|
    ensures PayloadTotal(ms[..n + 1]) == PayloadTotal(ms[..n]) + PayloadLength(ms[n])
    ensures PayloadTotal(ms[..n + 1]) <= PayloadTotal(ms)
  {
    assert ms[..n + 1][..n] == ms[..n];
    PayloadTotalMonotone(ms, n + 1);
  }

  lemma ClosedByStep(ms: seq<Message>, n: nat)
    requires n < |ms|
    ensures forall d :: ClosedBy(ms[..n + 1], d) <==> ClosedBy(ms[..n], d) || (ms[n].kind.Close? && ms[n].direction == d)
  {
    forall d | ClosedBy(ms[..n], d) || (ms[n].kind.Close? && ms[n].direction == d)
      ensures ClosedBy(ms[..n + 1], d)
    {
      var i :| 0 <= i <= n && ms[i].kind.Close? && ms[i].direction == d;
      assert ms[..n + 1][i] == ms[i];
    }
    forall d | ClosedBy(ms[..n + 1], d)
      ensures ClosedBy(ms[..n], d) || (ms[n].kind.Close? && ms[n].direction == d)
    {
      var i :| 0 <= i <= n && ms[..n + 1][i].kind.Close? && ms[..n + 1][i].direction == d;
      assert i < n ==> ms[..n][i] == ms[i];
    }
  }

  lemma BothClosed(closed: set<Direction>)
    ensures |closed| == 2 <==> closed == BOTH
    ensures closed == BOTH <==> ClientToServer in closed && ServerToClient in closed
  {
    assert closed <= BOTH by {
      forall d | d in closed
        ensures d in BOTH
      {
        assert d.ClientToServer? || d.ServerToClient?;
      }
    }
    if closed != BOTH {
      var missing :| missing in BOTH - closed;
      assert closed <= {Other(missing)};
      assert closed == {} || closed == {Other(missing)};
    }
  }
}
