/** What a relay's transcript says about the messages it heard, and exactly what redaction keeps out of it. */
module TranscriptTheorems {
  import opened Prelude
  import opened Listing
  import opened WebSocketTranscript
  import opened WebSocketRelay
  import opened RelayTheorems

  // ---------- Entries and messages ----------

  predicate SameKind(m: Incoming, kind: Kind)
  {
    && (kind.Text? <==> m.TextData?)
    && (kind.Binary? <==> m.BinaryData?)
    && (kind.Ping? <==> m.PingData?)
    && (kind.Pong? <==> m.PongData?)
    && (kind.Close? <==> m.CloseData?)
  }

  /** The policy leaves this message alone. */
  predicate Exposed(p: Policy, m: Incoming)
  {
    match m
    case TextData(data) => !p.redactText && (p.jsonPaths == [] || p.redactJson(data).None?)
    case BinaryData(_) => !p.redactBinary
    case CloseData(Some(frame)) => !p.redactText || frame.reason == ""
    case _ => true
  }

  /** The payload is these bytes; a payload is absent exactly when there are none. */
  predicate Carries(e: Message, data: Bytes)
  {
    && (e.payload.None? <==> data == "")
    && (e.payload.Some? ==> e.payload.value == Stored(data))
  }

  predicate NoClose(e: Message)
  {
    e.closeCode.None? && e.closeReason.None?
  }

  /** The entry holds the message as it was received, and claims no redaction. */
  predicate Verbatim(m: Incoming, e: Message)
  {
    && e.redactions == []
    && match m
       case CloseData(None) => e.payload.None? && NoClose(e)
       case CloseData(Some(frame)) =>
         && e.payload.None?
         && e.closeCode == Some(frame.code)
         && (e.closeReason.None? <==> frame.reason == "")
         && (e.closeReason.Some? ==> e.closeReason.value == frame.reason)
       case RawFrame => false
       case _ => Carries(e, m.data) && NoClose(e)
  }

  /** The entry holds the mask instead, and says which. */
  predicate Masked(p: Policy, m: Incoming, e: Message)
  {
    match m
    case TextData(data) =>
      && NoClose(e)
      && (p.redactText ==> Carries(e, "[REDACTED]") && e.redactions == [WholeMessage])
      && (!p.redactText ==>
            && p.redactJson(data).Some?
            && Carries(e, p.redactJson(data).value)
            && e.redactions == [JsonPointers(p.jsonPaths)])
    case BinaryData(_) => NoClose(e) && Carries(e, "[REDACTED]") && e.redactions == [WholeMessage]
    case CloseData(Some(frame)) =>
      && e.payload.None?
      && e.closeCode == Some(frame.code)
      && e.closeReason == Some("[REDACTED]")
      && e.redactions == [CloseReason]
    case _ => false
  }

  /** Entry `k` of a transcript reports delivery `d`. */
  predicate Reports(p: Policy, d: Delivery, e: Message, k: nat)
  {
    && Observed(d)
    && e.sequence == k
    && e.direction == d.side
    && e.deltaNs == d.now
    && SameKind(d.message, e.kind)
    && if Exposed(p, d.message) then Verbatim(d.message, e) else Masked(p, d.message, e)
  }

  lemma TranscribedReports(p: Policy, d: Delivery, k: nat)
    requires Observed(d)
    ensures Reports(p, d, Transcribe(p, d, k), k)
  {
  }

  function ObservedAt(h: seq<Delivery>): set<nat>
  {
    set i: nat | i < |h| && Observed(h[i])
  }

  /** Transcript `ms` has one entry for each of the places `at`, which are those of the observed messages, in order. */
  ghost predicate Reported(p: Policy, h: seq<Delivery>, ms: seq<Message>, at: seq<nat>)
  {
    && Lists(at, ObservedAt(h))
    && |at| == |ms|
    && forall k :: 0 <= k < |at| ==> at[k] < |h| && Reports(p, h[at[k]], ms[k], k)
  }

  /**
   * The transcript's entries are the observed messages, one for each and in their order: side, time and kind, and
   * the very bytes received unless the policy masks them - then the mask and the marker that says so.
   */
  lemma {:induction false} EntriesAreMessages(p: Policy, h: seq<Delivery>) returns (at: seq<nat>)
    ensures Reported(p, h, Recorded(p, h), at)
  {
    if h == [] {
      return [];
    }
    var n := |h| - 1;
    var g, d := h[..n], h[n];
    assert h == g + [d];
    at := EntriesAreMessages(p, g);
    ExtendRecorded(p, g, d);
    if Observed(d) {
      TranscribedReports(p, d, |at|);
    }
    hide Recorded, PayloadTotal, Reports, Transcribe, Observed;
    at := OneMoreEntry(p, g, d, Recorded(p, g), Recorded(p, h), at);
  }

  lemma OneMoreEntry(p: Policy, g: seq<Delivery>, d: Delivery, before: seq<Message>, after: seq<Message>, at: seq<nat>)
    returns (more: seq<nat>)
    requires Reported(p, g, before, at)
    requires if Observed(d) then |after| == |before| + 1 && after[..|before|] == before && Reports(p, d, after[|before|], |at|)
             else after == before
    ensures Reported(p, g + [d], after, more)
  {
    var h := g + [d];
    hide Reports, Observed;
    more := at;
    if Observed(d) {
      ListsMore(at, ObservedAt(g), |g|, ObservedAt(h));
      more := at + [|g|];
    } else {
      assert ObservedAt(h) == ObservedAt(g);
    }
  }

  // ---------- Non-interference ----------

  /** Messages that the policy masks in the same way. */
  predicate MaskedAlike(p: Policy, m: Incoming, n: Incoming)
  {
    match (m, n)
    case (TextData(x), TextData(y)) =>
      p.redactText || (p.jsonPaths != [] && p.redactJson(x).Some? && p.redactJson(x) == p.redactJson(y))
    case (BinaryData(_), BinaryData(_)) => p.redactBinary
    case (CloseData(Some(f)), CloseData(Some(g))) =>
      p.redactText && f.code == g.code && f.reason != "" && g.reason != ""
    case _ => false
  }

  /** Deliveries that differ at most in what the policy masks. */
  predicate Alike(p: Policy, d: Delivery, e: Delivery)
  {
    || d == e
    || (&& d.Received? && e.Received?
        && d == e.(message := d.message)
        && MaskedAlike(p, d.message, e.message))
  }

  predicate AllAlike(p: Policy, h: seq<Delivery>, g: seq<Delivery>)
  {
    |h| == |g| && forall i :: 0 <= i < |h| ==> Alike(p, h[i], g[i])
  }

  /** One entry tells a message from another exactly when the policy does not mask their difference. */
  lemma TranscribedEqualIff(p: Policy, d: Delivery, e: Delivery, k: nat)
    requires Observed(d) && Observed(e)
    ensures Transcribe(p, d, k) == Transcribe(p, e, k)
       <==> d.side == e.side && d.now == e.now && (d.message == e.message || MaskedAlike(p, d.message, e.message))
  {
    TranscribedReports(p, d, k);
    TranscribedReports(p, e, k);
    hide StoredBytes, KindOf, Markers, CloseCodeOf, StoredReason;
    var x, y := Transcribe(p, d, k), Transcribe(p, e, k);
    if x == y {
      SameEntrySameMessage(p, d, e, x, k);
    } else if d.side == e.side && d.now == e.now && (d.message == e.message || MaskedAlike(p, d.message, e.message)) {
      SameMessageSameEntry(p, d, e, k);
    }
  }

  lemma SameEntrySameMessage(p: Policy, d: Delivery, e: Delivery, x: Message, k: nat)
    requires Reports(p, d, x, k) && Reports(p, e, x, k)
    ensures d.side == e.side && d.now == e.now && (d.message == e.message || MaskedAlike(p, d.message, e.message))
  {
  }

  lemma SameMessageSameEntry(p: Policy, d: Delivery, e: Delivery, k: nat)
    requires Observed(d) && Observed(e) && d.side == e.side && d.now == e.now
    requires d.message == e.message || MaskedAlike(p, d.message, e.message)
    ensures Transcribe(p, d, k) == Transcribe(p, e, k)
    ensures StoredBytes(p, d.message) == StoredBytes(p, e.message)
    ensures CloseCodeOf(d.message) == CloseCodeOf(e.message) && StoredReason(p, d.message) == StoredReason(p, e.message)
  {
  }

  lemma AlikeFront(p: Policy, h: seq<Delivery>, g: seq<Delivery>, n: nat)
    requires AllAlike(p, h, g) && n <= |h|
    ensures AllAlike(p, h[..n], g[..n])
  {
  }

  /** Histories that differ only in masked contents leave the same transcript. */
  lemma {:induction false} SameTranscript(p: Policy, h: seq<Delivery>, g: seq<Delivery>)
    requires AllAlike(p, h, g)
    ensures Recorded(p, h) == Recorded(p, g)
  {
    if h != [] {
      var n := |h| - 1;
      assert h == h[..n] + [h[n]] && g == g[..n] + [g[n]];
      AlikeFront(p, h, g, n);
      SameTranscript(p, h[..n], g[..n]);
      ExtendRecorded(p, h[..n], h[n]);
      ExtendRecorded(p, g[..n], g[n]);
      assert Alike(p, h[n], g[n]);
      hide Recorded, PayloadTotal, Transcribe, StoredBytes;
      if Observed(h[n]) {
        SameMessageSameEntry(p, h[n], g[n], |Recorded(p, h[..n])|);
      }
    }
  }

  /** They have seen the same closes and ends, and the same pings are outstanding. */
  lemma {:induction false} SameOutstanding(p: Policy, h: seq<Delivery>, g: seq<Delivery>, side: Direction)
    requires AllAlike(p, h, g)
    ensures Outstanding(h, side) == Outstanding(g, side)
  {
    if h == [] {
      assert g == [];
    } else {
      hide Outstanding;
      var n := |h| - 1;
      AlikeFront(p, h, g, n);
      SameOutstanding(p, h[..n], g[..n], side);
      assert h == h[..n] + [h[n]] && g == g[..n] + [g[n]];
      OneMoreOutstanding(p, h[..n], g[..n], h[n], g[n], side);
    }
  }

  lemma OneMoreOutstanding(p: Policy, h: seq<Delivery>, g: seq<Delivery>, d: Delivery, e: Delivery, side: Direction)
    requires Outstanding(h, side) == Outstanding(g, side) && Alike(p, d, e)
    ensures Outstanding(h + [d], side) == Outstanding(g + [e], side)
  {
    hide Outstanding;
    ExtendOutstanding(h, d, side);
    ExtendOutstanding(g, e, side);
  }

  lemma SameCloses(p: Policy, h: seq<Delivery>, g: seq<Delivery>, side: Direction)
    requires AllAlike(p, h, g)
    ensures SawClose(h, side) == SawClose(g, side)
    ensures SawEnd(h, side) == SawEnd(g, side)
  {
    forall i | 0 <= i < |h|
      ensures IsCloseFrom(h[i], side) <==> IsCloseFrom(g[i], side)
      ensures h[i] == Finished(side) <==> g[i] == Finished(side)
    {
      assert Alike(p, h[i], g[i]);
    }
  }

  lemma SameDropped(p: Policy, h: seq<Delivery>, g: seq<Delivery>, d: Delivery, e: Delivery)
    requires AllAlike(p, h, g) && Alike(p, d, e)
    ensures Dropped(h, d) <==> Dropped(g, e)
  {
    SameCloses(p, h, g, ClientToServer);
    SameCloses(p, h, g, ServerToClient);
    if Observed(d) {
      SameOutstanding(p, h, g, Other(d.side));
    }
    hide Outstanding, SawClose;
  }

  lemma SameExit(p: Policy, h: seq<Delivery>, g: seq<Delivery>, d: Delivery, e: Delivery)
    requires AllAlike(p, h, g) && Alike(p, d, e)
    ensures Exit(p, h, d) == Exit(p, g, e)
  {
    SameCloses(p, h, g, ClientToServer);
    SameCloses(p, h, g, ServerToClient);
    SameDropped(p, h, g, d, e);
    SameTranscript(p, h, g);
    hide Outstanding, SawClose, SawEnd, Dropped, Recorded, PayloadTotal, StoredBytes, StoredReason, CloseCodeOf;
    if Observed(d) {
      SameMessageSameEntry(p, d, e, 0);
    }
  }

  /**
   * Redaction hides: two runs of the relay that differ only in contents the policy masks stop at the same delivery with
   * the same terminal and leave the same transcript, so neither tells anything about what was masked.
   */
  lemma MaskedContentInvisible(p: Policy, ds: seq<Delivery>, es: seq<Delivery>, head: nat)
    requires AllAlike(p, ds, es) && head < |ds|
    ensures Continues(p, ds[..head]) <==> Continues(p, es[..head])
    ensures Exit(p, ds[..head], ds[head]) == Exit(p, es[..head], es[head])
    ensures FinalMessages(p, ds[..head], ds[head]) == FinalMessages(p, es[..head], es[head])
  {
    AlikeFront(p, ds, es, head);
    AlikeFront(p, ds, es, head + 1);
    SameExit(p, ds[..head], es[..head], ds[head], es[head]);
    SameTranscript(p, ds[..head], es[..head]);
    assert ds[..head + 1] == ds[..head] + [ds[head]] && es[..head + 1] == es[..head] + [es[head]];
    SameTranscript(p, ds[..head] + [ds[head]], es[..head] + [es[head]]);
    hide Exit, Recorded, AllAlike;
    forall i | 0 <= i < head
      ensures Exit(p, ds[..head][..i], ds[..head][i]) == Exit(p, es[..head][..i], es[..head][i])
    {
      assert ds[..head][..i] == ds[..i] && es[..head][..i] == es[..i];
      StepAlike(p, ds, es, i);
    }
  }

  lemma StepAlike(p: Policy, ds: seq<Delivery>, es: seq<Delivery>, i: nat)
    requires AllAlike(p, ds, es) && i < |ds|
    ensures Exit(p, ds[..i], ds[i]) == Exit(p, es[..i], es[i])
  {
    AlikeFront(p, ds, es, i);
    SameExit(p, ds[..i], es[..i], ds[i], es[i]);
  }

  // ---------- Why a relay ended ----------

  /** Each cause of an abnormal end names what happened: read from the terminal back to the delivery. */
  lemma CauseTellsWhy(p: Policy, h: seq<Delivery>, d: Delivery, cause: string)
    requires Exit(p, h, d) == Some(Abnormal(cause))
    ensures cause == "duration-limit" <==> d.DeadlineExpired?
    ensures cause == "shutdown" <==> d.Cancelled?
    ensures cause == "reset" <==> d.Failed? && d.error in {ResetWithoutClosingHandshake, ConnectionReset}
    ensures cause == "protocol-error" <==> d.Failed? && d.error.OtherCodecError?
    ensures cause == "eof" <==> d.Finished? || (d.Failed? && d.error.UnexpectedEof?)
    ensures cause == "storage-error" ==> Observed(d) && d.storeFails
    ensures cause == "write-error" ==> Observed(d) && d.sendFails && !Dropped(h, d)
    ensures cause == "capture-limit" ==> Observed(d) && OverLimit(p, h, d)
  {
    hide Dropped, OverLimit, StoredBytes, SawClose, SawEnd, StoredReason;
  }

  /** The payload the transcript has to store for a message is empty. */
  predicate NothingToStore(p: Policy, d: Delivery)
    requires Observed(d)
  {
    Transcribe(p, d, 0).payload.None?
  }

  /**
   * The relay goes on after a message exactly when it is recorded within the limits, sent where it is to be sent, and
   * is not the close that answers the other side's; after the end of one stream exactly when one side has closed and
   * the other stream is still open. Nothing else lets it go on.
   */
  lemma GoesOnIff(p: Policy, h: seq<Delivery>, d: Delivery)
    ensures Exit(p, h, d).None? <==>
      || (d.Received? && d.message.RawFrame?)
      || (&& Observed(d)
          && (NothingToStore(p, d) || !d.storeFails)
          && !OverLimit(p, h, d)
          && (Dropped(h, d) || !d.sendFails)
          && !(d.message.CloseData? && SawClose(h, Other(d.side))))
      || (&& d.Finished?
          && SawClose(h, ClientToServer) != SawClose(h, ServerToClient)
          && !SawEnd(h, Other(d.side)))
  {
    hide Dropped, OverLimit, StoredBytes, SawClose, SawEnd, StoredReason;
  }

  /** The capture limit is hit exactly by the first message with which the transcript would exceed the validator's bounds. */
  lemma OverLimitIff(p: Policy, h: seq<Delivery>, d: Delivery)
    requires Observed(d)
    ensures OverLimit(p, h, d) <==>
      || |Recorded(p, h + [d])| > MAX_MESSAGES
      || PayloadTotal(Recorded(p, h + [d])) > MAX_TOTAL_PAYLOAD_BYTES
      || d.now > MAX_DURATION_NS
  {
    ExtendRecorded(p, h, d);
    hide Recorded, PayloadTotal;
  }

  // ---------- What the validator accepts, seen as a whole ----------

  /** What each kind of message may hold, with the close codes of section 7.4 of RFC 6455. */
  predicate HoldsAllowed(m: Message)
  {
    match m.kind
    case Text => PayloadLength(m) <= 16_777_216 && NoClose(m) && CloseReason !in m.redactions
    case Binary => PayloadLength(m) <= 16_777_216 && NoClose(m) && forall r :: r in m.redactions ==> r == WholeMessage
    case Ping => PayloadLength(m) <= 125 && NoClose(m) && forall r :: r in m.redactions ==> r == WholeMessage
    case Pong => PayloadLength(m) <= 125 && NoClose(m) && forall r :: r in m.redactions ==> r == WholeMessage
    case Close =>
      && m.payload.None?
      && (m.closeCode.Some? ==> SendableCode(m.closeCode.value))
      && (m.closeReason.Some? ==> |m.closeReason.value| <= 123 && m.closeCode.Some?)
      && forall r :: r in m.redactions ==> !r.JsonPointers?
  }

  predicate PointersFit(r: Redaction)
  {
    r.JsonPointers? ==> |r.pointers| <= 256 && forall p :: p in r.pointers ==> 0 < |p| <= 1024 && p[0] == '/'
  }

  /** The validator's checks of one message, kind by kind. */
  lemma WellFormedIff(m: Message)
    ensures WellFormed(m) <==>
      && m.deltaNs <= 86_400_000_000_000
      && m.payload != Some(AbsentPayload)
      && HoldsAllowed(m)
      && forall r :: r in m.redactions ==> PointersFit(r)
  {
    if m.closeCode.Some? {
      SendableCodesValid(m.closeCode.value);
    }
    forall r | r in m.redactions
      ensures ValidRedaction(r, m.kind) <==>
        && PointersFit(r)
        && (r.JsonPointers? ==> m.kind.Text?)
        && (r.CloseReason? ==> m.kind.Close?)
    {
    }
    hide ValidRedaction, PointersFit, SendableCode, ValidCloseCode;
  }

  /** Two messages of an accepted transcript, the earlier first: time goes on, and a close is the last of its direction. */
  predicate InSequence(ms: seq<Message>, i: nat, j: nat)
    requires i < j < |ms|
  {
    && ms[i].deltaNs <= ms[j].deltaNs
    && !(ms[i].kind.Close? && ms[i].direction == ms[j].direction)
  }

  lemma {:induction false} TimesGoOn(ms: seq<Message>, i: nat, j: nat)
    requires i <= j < |ms| && forall k :: 0 <= k < |ms| ==> Follows(ms, k)
    ensures ms[i].deltaNs <= ms[j].deltaNs
  {
    if i < j {
      TimesGoOn(ms, i, j - 1);
      assert Follows(ms, j);
    }
  }

  /** The validator's message by message conditions are conditions on all pairs of messages. */
  lemma MessagesAcceptedIff(ms: seq<Message>)
    ensures MessagesAccepted(ms) <==>
      && |ms| <= MAX_MESSAGES
      && PayloadTotal(ms) <= MAX_TOTAL_PAYLOAD_BYTES
      && (forall i :: 0 <= i < |ms| ==> WellFormed(ms[i]) && ms[i].sequence == i)
      && (forall i, j :: 0 <= i < j < |ms| ==> InSequence(ms, i, j))
  {
    hide PayloadTotal, WellFormed;
    if MessagesAccepted(ms) {
      forall k | 0 <= k < |ms|
        ensures Follows(ms, k) && WellFormed(ms[k]) && ms[k].sequence == k
      {
        assert Admitted(ms, k);
      }
      forall i, j | 0 <= i < j < |ms|
        ensures InSequence(ms, i, j)
      {
        TimesGoOn(ms, i, j);
        assert Follows(ms, j) && ms[..j][i] == ms[i];
      }
    }
    if forall i, j :: 0 <= i < j < |ms| ==> InSequence(ms, i, j) {
      forall i | 0 <= i < |ms|
        ensures Follows(ms, i) <==> ms[i].sequence == i
      {
        assert i > 0 ==> InSequence(ms, i - 1, i);
        forall k | 0 <= k < i
          ensures !(ms[..i][k].kind.Close? && ms[..i][k].direction == ms[i].direction)
        {
          assert InSequence(ms, k, i);
        }
      }
    }
  }

  predicate OnlyClosesAt(ms: seq<Message>, i: nat, j: nat)
  {
    i < j < |ms| && forall k :: 0 <= k < |ms| ==> (ms[k].kind.Close? <==> k == i || k == j)
  }

  /**
   * A clean end is a whole closing handshake: two closes, one from each side, the second the last message of all; and
   * the terminal repeats the code and the reason of that last one, so the messages determine it.
   */
  lemma CleanIsHandshake(ms: seq<Message>, code: Option<nat>, reason: Option<Bytes>) returns (i: nat)
    requires Accepted(ms, CleanClose(code, reason))
    ensures OnlyClosesAt(ms, i, |ms| - 1) && ms[i].direction == Other(ms[|ms| - 1].direction)
    ensures ms[|ms| - 1].closeCode == code && ms[|ms| - 1].closeReason == reason
  {
    var last := |ms| - 1;
    var side := Other(ms[last].direction);
    assert ClosedBy(ms, side);
    i :| 0 <= i < |ms| && ms[i].kind.Close? && ms[i].direction == side;
    hide MessagesAccepted, ClosedBy;
    forall k | 0 <= k < |ms| && ms[k].kind.Close?
      ensures k == i || k == last
    {
      CloseIsLast(ms, k, i);
      CloseIsLast(ms, i, k);
      CloseIsLast(ms, k, last);
    }
  }

  lemma CloseIsLast(ms: seq<Message>, k: nat, l: nat)
    requires MessagesAccepted(ms) && k < |ms| && l < |ms| && ms[k].kind.Close?
    ensures k < l ==> ms[k].direction != ms[l].direction
  {
    MessagesAcceptedIff(ms);
    hide MessagesAccepted, WellFormed, PayloadTotal;
    if k < l {
      assert InSequence(ms, k, l);
    }
  }

  /** The handshake metadata of a conversation, with its numbers spelled out. */
  predicate MetadataFits(c: Conversation)
  {
    && 1 <= |c.id| <= 128
    && 1 <= |c.flowId| <= 128
    && |c.offered| <= 32
    && (forall i :: 0 <= i < |c.offered| ==> 1 <= |c.offered[i]| <= 128 && forall x :: x in c.offered[i] ==> TokenByte(x))
    && (c.selected.Some? ==> exists i :: 0 <= i < |c.offered| && c.offered[i] == c.selected.value)
  }

  predicate NamedApart(c: Conversation, d: Conversation)
  {
    c.id != d.id && c.flowId != d.flowId
  }

  /** A transcript is accepted exactly when each conversation is, no two share a name, and the totals are in bounds. */
  lemma TranscriptAcceptedIff(schemaVersion: nat, cs: seq<Conversation>)
    ensures TranscriptAccepted(schemaVersion, cs) <==>
      && schemaVersion == 1
      && |cs| <= 1024
      && (forall n :: 0 <= n < |cs| ==> MetadataFits(cs[n]) && Accepted(cs[n].messages, cs[n].terminal))
      && (forall m, n :: 0 <= m < n < |cs| ==> NamedApart(cs[m], cs[n]))
      && MessageCount(cs) <= 1_000_000
      && SessionPayload(cs) <= 1_073_741_824
  {
    forall n | 0 <= n < |cs|
      ensures AcceptedAt(cs, n) <==>
        && MetadataFits(cs[n])
        && Accepted(cs[n].messages, cs[n].terminal)
        && forall m :: 0 <= m < n ==> NamedApart(cs[m], cs[n])
    {
      AcceptedAtIff(cs, n);
    }
    hide AcceptedAt, MetadataFits, Accepted, NamedApart, MessageCount, SessionPayload;
  }

  lemma AcceptedAtIff(cs: seq<Conversation>, n: nat)
    requires n < |cs|
    ensures AcceptedAt(cs, n) <==>
      && MetadataFits(cs[n])
      && Accepted(cs[n].messages, cs[n].terminal)
      && forall m :: 0 <= m < n ==> NamedApart(cs[m], cs[n])
  {
    HandshakeIff(cs[n]);
    hide Accepted, ValidHandshake, MetadataFits;
    assert forall m :: 0 <= m < n ==> cs[..n][m] == cs[m] && cs[m] in cs[..n];
    assert cs[n].id in Ids(cs[..n]) <==> exists m :: 0 <= m < n && cs[m].id == cs[n].id;
    assert cs[n].flowId in FlowIds(cs[..n]) <==> exists m :: 0 <= m < n && cs[m].flowId == cs[n].flowId;
  }

  lemma HandshakeIff(c: Conversation)
    ensures ValidHandshake(c) <==> MetadataFits(c)
  {
    forall i | 0 <= i < |c.offered|
      ensures ValidSubprotocol(c.offered[i]) <==>
        1 <= |c.offered[i]| <= 128 && forall x :: x in c.offered[i] ==> TokenByte(x)
    {
      assert forall k :: 0 <= k < |c.offered[i]| ==> c.offered[i][k] in c.offered[i];
    }
    hide TokenByte;
  }

  /** An ordinary run: a message, a close and its answer. It is legal, ends cleanly and is accepted. */
  lemma OrdinaryRunAccepted()
    ensures var p := Policy(true, true, [], (data: Bytes) => None);
            var run := [Received(ClientToServer, TextData("hi"), 1, false, false),
                        Received(ClientToServer, CloseData(Some(CloseFrame(1000, ""))), 2, false, false),
                        Received(ServerToClient, CloseData(Some(CloseFrame(1000, ""))), 3, false, false)];
            && CodecLegal(run)
            && Continues(p, run[..2])
            && Exit(p, run[..2], run[2]) == Some(CleanClose(Some(1000), None))
            && Accepted(FinalMessages(p, run[..2], run[2]), CleanClose(Some(1000), None))
  {
    var p := Policy(true, true, [], (data: Bytes) => None);
    var a := Received(ClientToServer, TextData("hi"), 1, false, false);
    var b := Received(ClientToServer, CloseData(Some(CloseFrame(1000, ""))), 2, false, false);
    var c := Received(ServerToClient, CloseData(Some(CloseFrame(1000, ""))), 3, false, false);
    hide *;
    OrdinaryLegal(a, b, c);
    OrdinaryExits(p, a, b, c);
    OrdinaryFits(p, a, b, c);
    ThreeDeliveries(p, a, b, c, CleanClose(Some(1000), None));
  }

  lemma ThreeDeliveries(p: Policy, a: Delivery, b: Delivery, c: Delivery, terminal: Terminal)
    requires CodecLegal([a, b, c]) && AllFit(p, [a, b, c]) && !Unrecorded(terminal)
    requires Exit(p, [], a).None? && Exit(p, [a], b).None? && Exit(p, [a] + [b], c) == Some(terminal)
    ensures var run := [a, b, c];
            && CodecLegal(run)
            && Continues(p, run[..2])
            && Exit(p, run[..2], run[2]) == Some(terminal)
            && Accepted(FinalMessages(p, run[..2], run[2]), terminal)
  {
    var run := [a, b, c];
    hide Exit, CodecLegal, Continues, Accepted, FinalMessages, AllFit, Unrecorded;
    assert run[..2] == [a] + [b] && [a] == [] + [a] && run[2] == c && run[..3] == run;
    NothingEnds(p);
    ExtendContinues(p, [], a);
    ExtendContinues(p, [a], b);
    RelayRunAccepted(p, run, 2, terminal);
  }

  lemma OrdinaryLegal(a: Delivery, b: Delivery, c: Delivery)
    requires a == Received(ClientToServer, TextData("hi"), 1, false, false)
    requires b == Received(ClientToServer, CloseData(Some(CloseFrame(1000, ""))), 2, false, false)
    requires c == Received(ServerToClient, CloseData(Some(CloseFrame(1000, ""))), 3, false, false)
    ensures CodecLegal([a, b, c])
  {
    var run := [a, b, c];
    assert MayFollow(a, b) && MayFollow(a, c) && MayFollow(b, c);
    hide MayFollow;
    assert forall i, j :: 0 <= i < j < |run| ==> MayFollow(run[i], run[j]);
  }

  lemma OrdinaryFits(p: Policy, a: Delivery, b: Delivery, c: Delivery)
    requires p.redactText
    ensures AllFit(p, [a, b, c]) && !Unrecorded(CleanClose(Some(1000), None))
  {
  }

  lemma NothingEnds(p: Policy)
    ensures Continues(p, [])
  {
  }

  lemma OrdinaryExits(p: Policy, a: Delivery, b: Delivery, c: Delivery)
    requires p.redactText && p.jsonPaths == []
    requires a == Received(ClientToServer, TextData("hi"), 1, false, false)
    requires b == Received(ClientToServer, CloseData(Some(CloseFrame(1000, ""))), 2, false, false)
    requires c == Received(ServerToClient, CloseData(Some(CloseFrame(1000, ""))), 3, false, false)
    ensures Exit(p, [], a).None? && Exit(p, [a], b).None?
    ensures Exit(p, [a] + [b], c) == Some(CleanClose(Some(1000), None))
  {
    ExtendRecorded(p, [], a);
    ExtendRecorded(p, [a], b);
    assert [a] == [] + [a];
    assert Recorded(p, []) == [] && PayloadTotal([]) == 0;
    assert |Recorded(p, [a])| == 1 && |Recorded(p, [a] + [b])| == 2;
    ExtendClose([a], b, ClientToServer);
    assert IsCloseFrom(b, ClientToServer) && !SawClose([a], ServerToClient) && !SawClose([a], ClientToServer);
    hide Recorded, PayloadTotal, SawClose, Dropped;
  }
}
