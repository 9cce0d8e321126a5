/**
 * What every relay run keeps, and when the transcript validator accepts it.
 *
 * The codec is an adversary bounded by RFC 6455: sections 5.5 and 5.5.1 (control payloads of at most 125 bytes,
 * nothing after a close in the same direction) and section 7.4 (close codes an endpoint may send).
 */
module RelayTheorems {
  import opened Prelude
  import opened WebSocketTranscript
  import opened WebSocketRelay

  // ---------- Closes ----------

  /** At the loop head the two close flags are never set together, so the clean exit without close data is dead. */
  lemma NeverBothClosedAtLoopHead(p: Policy, h: seq<Delivery>, side: Direction)
    requires Continues(p, h)
    ensures !(SawClose(h, ClientToServer) && SawClose(h, ServerToClient))
    ensures Exit(p, h, Finished(side)) != Some(CleanClose(None, None))
  {
  }

  ghost function Closes(ms: seq<Incoming>): nat
  {
    if ms == [] then 0 else Closes(ms[..|ms| - 1]) + (if ms[|ms| - 1].CloseData? then 1 else 0)
  }

  lemma ClosesStep(ms: seq<Incoming>, m: Incoming)
    ensures Closes(ms + [m]) == Closes(ms) + (if m.CloseData? then 1 else 0)
  {
    assert (ms + [m])[..|ms|] == ms;
  }

  /** One close is forwarded, in one direction, exactly when a close has been seen. */
  lemma {:induction false} ClosesForwarded(h: seq<Delivery>)
    ensures Closes(Forwarded(h, ClientToServer)) + Closes(Forwarded(h, ServerToClient))
         == if SawClose(h, ClientToServer) || SawClose(h, ServerToClient) then 1 else 0
  {
    if h != [] {
      var n := |h| - 1;
      var g, d := h[..n], h[n];
      assert h == g + [d];
      ClosesForwarded(g);
      ExtendClose(g, d, ClientToServer);
      ExtendClose(g, d, ServerToClient);
      ExtendForwarded(g, d, ClientToServer);
      ExtendForwarded(g, d, ServerToClient);
      hide SawClose, Forwarded, Closes, Outstanding;
      if Observed(d) {
        ClosesStep(Forwarded(g, d.side), d.message);
      }
    }
  }

  // ---------- Forwarding ----------

  /** What `side` sent, in order. */
  ghost function Sent(h: seq<Delivery>, side: Direction): seq<Incoming>
  {
    if h == [] then []
    else
      var rest, d := Sent(h[..|h| - 1], side), h[|h| - 1];
      if Observed(d) && d.side == side then rest + [d.message] else rest
  }

  ghost function WithoutPongsAndCloses(ms: seq<Incoming>): seq<Incoming>
  {
    if ms == [] then []
    else
      var rest, m := WithoutPongsAndCloses(ms[..|ms| - 1]), ms[|ms| - 1];
      if m.PongData? || m.CloseData? then rest else rest + [m]
  }

  /** Text, binary and ping messages all reach the other peer, unredacted and in order. */
  lemma {:induction false} DataForwardedInOrder(h: seq<Delivery>, side: Direction)
    ensures WithoutPongsAndCloses(Forwarded(h, side)) == WithoutPongsAndCloses(Sent(h, side))
  {
    if h != [] {
      var n := |h| - 1;
      var g, d := h[..n], h[n];
      assert h == g + [d];
      DataForwardedInOrder(g, side);
      ExtendForwarded(g, d, side);
      if Observed(d) && d.side == side {
        var f, s := Forwarded(g, side), Sent(g, side);
        assert (f + [d.message])[..|f|] == f;
        assert (s + [d.message])[..|s|] == s;
      }
    }
  }

  // ---------- Pings and pongs ----------

  ghost function Pings(h: seq<Delivery>, side: Direction): multiset<Bytes>
  {
    if h == [] then multiset{}
    else
      var rest, d := Pings(h[..|h| - 1], side), h[|h| - 1];
      if Observed(d) && d.message.PingData? && d.side == side then rest + multiset{d.message.data} else rest
  }

  ghost function SuppressedPongs(h: seq<Delivery>, side: Direction): multiset<Bytes>
  {
    if h == [] then multiset{}
    else
      var rest, d := SuppressedPongs(h[..|h| - 1], side), h[|h| - 1];
      if d.Received? && d.side == side && Suppressed(h[..|h| - 1], d) then rest + multiset{d.message.data} else rest
  }

  ghost function PongsIn(ms: seq<Incoming>): multiset<Bytes>
  {
    if ms == [] then multiset{}
    else
      var rest, m := PongsIn(ms[..|ms| - 1]), ms[|ms| - 1];
      if m.PongData? then rest + multiset{m.data} else rest
  }

  /** Conservation: each ping of `side` is outstanding or was answered by one suppressed pong of the other side. */
  lemma {:induction false} PingConservation(h: seq<Delivery>, side: Direction)
    ensures Outstanding(h, side) + SuppressedPongs(h, Other(side)) == Pings(h, side)
  {
    if h != [] {
      var n := |h| - 1;
      assert h == h[..n] + [h[n]];
      PingConservation(h[..n], side);
      ExtendOutstanding(h[..n], h[n], side);
    }
  }

  lemma PongsStep(ms: seq<Incoming>, m: Incoming)
    ensures PongsIn(ms + [m]) == if m.PongData? then PongsIn(ms) + multiset{m.data} else PongsIn(ms)
  {
    assert (ms + [m])[..|ms|] == ms;
  }

  lemma SuppressedStep(h: seq<Delivery>, d: Delivery, side: Direction)
    ensures SuppressedPongs(h + [d], side) ==
            if d.Received? && d.side == side && Suppressed(h, d) then SuppressedPongs(h, side) + multiset{d.message.data}
            else SuppressedPongs(h, side)
    ensures Sent(h + [d], side) ==
            if Observed(d) && d.side == side then Sent(h, side) + [d.message] else Sent(h, side)
  {
    assert (h + [d])[..|h|] == h;
  }

  /** Conservation: each pong of `side` was suppressed or forwarded. */
  lemma {:induction false} PongConservation(h: seq<Delivery>, side: Direction)
    ensures PongsIn(Sent(h, side)) == PongsIn(Forwarded(h, side)) + SuppressedPongs(h, side)
  {
    if h != [] {
      var n := |h| - 1;
      var g, d := h[..n], h[n];
      assert h == g + [d];
      PongConservation(g, side);
      ExtendForwarded(g, d, side);
      SuppressedStep(g, d, side);
      hide Outstanding, Forwarded, SawClose, SuppressedPongs, Sent, PongsIn;
      if Observed(d) && d.side == side {
        PongsStep(Forwarded(g, side), d.message);
        PongsStep(Sent(g, side), d.message);
      }
    }
  }

  // ---------- Acceptance ----------

  /** RFC 6455 section 7.4: the codes an endpoint may put in a close frame. */
  predicate SendableCode(code: nat)
  {
    code in {1000, 1001, 1002, 1003, 1007, 1008, 1009, 1010, 1011, 1012, 1013, 1014} || 3000 <= code <= 4999
  }

  /** The transcript validator knows exactly these codes. */
  lemma SendableCodesValid(code: nat)
    ensures ValidCloseCode(code) <==> SendableCode(code)
  {
  }

  predicate LegalMessage(m: Incoming)
  {
    match m
    case TextData(data) => |data| <= MAX_MESSAGE_BYTES
    case BinaryData(data) => |data| <= MAX_MESSAGE_BYTES
    case PingData(data) => |data| <= 125
    case PongData(data) => |data| <= 125
    case CloseData(Some(frame)) => SendableCode(frame.code) && 2 + |frame.reason| <= 125
    case _ => true
  }

  /** Delivery `j` may come after delivery `i`. */
  predicate MayFollow(earlier: Delivery, later: Delivery)
  {
    && (earlier.Received? && later.Received? ==> earlier.now <= later.now)
    && (later.Received? ==> !IsCloseFrom(earlier, later.side))
  }

  predicate CodecLegal(ds: seq<Delivery>)
  {
    && PolledWhileOpen(ds)
    && (forall d :: d in ds && d.Received? ==> LegalMessage(d.message))
    && forall i, j :: 0 <= i < j < |ds| ==> MayFollow(ds[i], ds[j])
  }

  /** The marker and the re-encoded body of a JSON-redacted text message are within the validator's bounds. */
  predicate RedactionFits(p: Policy, d: Delivery)
  {
    d.Received? && d.message.TextData? && !p.redactText && p.jsonPaths != [] && p.redactJson(d.message.data).Some? ==>
      && |p.redactJson(d.message.data).value| <= MAX_MESSAGE_BYTES
      && |p.jsonPaths| <= 256
      && forall path :: path in p.jsonPaths ==> ValidPointer(path)
  }

  predicate AllFit(p: Policy, h: seq<Delivery>)
  {
    forall d :: d in h ==> RedactionFits(p, d)
  }

  /** One recorded message is well formed exactly when its redaction fits. */
  lemma TranscribedWellFormed(p: Policy, d: Delivery, sequence: nat)
    requires Observed(d) && LegalMessage(d.message) && d.now <= MAX_DURATION_NS
    ensures WellFormed(Transcribe(p, d, sequence)) <==> RedactionFits(p, d)
  {
    var m := Transcribe(p, d, sequence);
    var redacted := d.message.TextData? && !p.redactText && p.jsonPaths != [] && p.redactJson(d.message.data).Some?;
    if redacted {
      assert m.redactions == [JsonPointers(p.jsonPaths)];
      assert (forall r :: r in m.redactions ==> ValidRedaction(r, m.kind)) <==> ValidRedaction(m.redactions[0], m.kind);
    } else {
      forall r | r in m.redactions
        ensures ValidRedaction(r, m.kind)
      {
      }
    }
  }

  ghost predicate FromHistory(p: Policy, h: seq<Delivery>, m: Message, i: nat)
  {
    exists k :: 0 <= k < |h| && Observed(h[k]) && m == Transcribe(p, h[k], i)
  }

  /** The transcript shows the closes that were delivered. */
  lemma {:induction false} RecordedCloses(p: Policy, h: seq<Delivery>, side: Direction)
    ensures ClosedBy(Recorded(p, h), side) <==> SawClose(h, side)
  {
    if h != [] {
      var n := |h| - 1;
      var g, d := h[..n], h[n];
      assert h == g + [d];
      RecordedCloses(p, g, side);
      ExtendClose(g, d, side);
      ExtendRecorded(p, g, d);
      var before, after := Recorded(p, g), Recorded(p, h);
      hide Recorded, PayloadTotal, SawClose;
      if Observed(d) {
        ClosedByStep(after, |before|);
        assert after[..|before| + 1] == after && after[..|before|] == before;
      }
    } else {
      assert Recorded(p, h) == [];
    }
  }

  /** Every transcript entry is one delivery. */
  lemma {:induction false} RecordedFromHistory(p: Policy, h: seq<Delivery>, i: nat)
    requires i < |Recorded(p, h)|
    ensures FromHistory(p, h, Recorded(p, h)[i], i)
  {
    var n := |h| - 1;
    var g, d := h[..n], h[n];
    assert h == g + [d];
    ExtendRecorded(p, g, d);
    if i < |Recorded(p, g)| {
      RecordedFromHistory(p, g, i);
      var k :| 0 <= k < |g| && Observed(g[k]) && Recorded(p, g)[i] == Transcribe(p, g[k], i);
      assert h[k] == g[k];
    } else {
      assert h[n] == d;
    }
  }

  /** A delivery the relay records: within the limits, and stored. */
  ghost predicate Records(p: Policy, h: seq<Delivery>, d: Delivery)
  {
    !Observed(d) || Exit(p, h, d) !in {Some(Abnormal("storage-error")), Some(Abnormal("capture-limit"))}
  }

  ghost predicate AllRecord(p: Policy, h: seq<Delivery>)
  {
    forall i :: 0 <= i < |h| ==> Records(p, h[..i], h[i])
  }

  lemma LegalPrefix(ds: seq<Delivery>, n: nat)
    requires CodecLegal(ds) && n <= |ds|
    ensures CodecLegal(ds[..n])
  {
  }

  /** The transcript of a legal history passes the message checks exactly when every JSON redaction fits. */
  lemma {:induction false} MessagesAcceptedIffFit(p: Policy, h: seq<Delivery>)
    requires CodecLegal(h) && AllRecord(p, h)
    ensures MessagesAccepted(Recorded(p, h)) <==> AllFit(p, h)
    ensures |Recorded(p, h)| <= MAX_MESSAGES && PayloadTotal(Recorded(p, h)) <= MAX_TOTAL_PAYLOAD_BYTES
  {
    if h != [] {
      var n := |h| - 1;
      var g, d := h[..n], h[n];
      assert h == g + [d];
      LegalPrefix(h, n);
      assert AllRecord(p, g) by {
        forall i | 0 <= i < n
          ensures Records(p, g[..i], g[i])
        {
          assert g[..i] == h[..i] && Records(p, h[..i], h[i]);
        }
      }
      MessagesAcceptedIffFit(p, g);
      ExtendRecorded(p, g, d);
      assert AllFit(p, h) <==> AllFit(p, g) && RedactionFits(p, d);
      if Observed(d) {
        assert Records(p, h[..n], h[n]);
        LastMessageAccepted(p, g, d);
      }
    }
  }

  lemma NoCloseBefore(g: seq<Delivery>, d: Delivery)
    requires CodecLegal(g + [d]) && d.Received?
    ensures !SawClose(g, d.side)
  {
    var h := g + [d];
    forall k | 0 <= k < |g|
      ensures !IsCloseFrom(g[k], d.side)
    {
      assert h[k] == g[k] && h[|g|] == d && MayFollow(h[k], h[|g|]);
    }
  }

  /** A message recorded after `g` continues the transcript of `g`. */
  lemma LastMessageFollows(p: Policy, g: seq<Delivery>, d: Delivery)
    requires CodecLegal(g + [d]) && Observed(d)
    ensures |Recorded(p, g + [d])| == |Recorded(p, g)| + 1 && Follows(Recorded(p, g + [d]), |Recorded(p, g)|)
  {
    var h, ms := g + [d], Recorded(p, g);
    var ns := Recorded(p, h);
    ExtendRecorded(p, g, d);
    RecordedCloses(p, g, d.side);
    NoCloseBefore(g, d);
    hide Recorded, SawClose;
    assert h[|g|] == d && ns[..|ms|] == ms;
    if |ms| > 0 {
      RecordedFromHistory(p, g, |ms| - 1);
      var k :| 0 <= k < |g| && Observed(g[k]) && ms[|ms| - 1] == Transcribe(p, g[k], |ms| - 1);
      assert h[k] == g[k] && MayFollow(h[k], h[|g|]);
    }
  }

  lemma LastMessageAccepted(p: Policy, g: seq<Delivery>, d: Delivery)
    requires CodecLegal(g + [d]) && Observed(d) && Records(p, g, d)
    ensures |Recorded(p, g + [d])| <= MAX_MESSAGES && PayloadTotal(Recorded(p, g + [d])) <= MAX_TOTAL_PAYLOAD_BYTES
    ensures MessagesAccepted(Recorded(p, g + [d])) <==> MessagesAccepted(Recorded(p, g)) && RedactionFits(p, d)
  {
    var h, ms := g + [d], Recorded(p, g);
    var ns := Recorded(p, h);
    ExtendRecorded(p, g, d);
    LastMessageFollows(p, g, d);
    assert !OverLimit(p, g, d);
    hide Recorded, WellFormed, Follows, RedactionFits;
    assert h[|g|] == d;
    TranscribedWellFormed(p, d, |ms|);
    assert ns[..|ms|] == ms;
    assert Admitted(ns, |ms|) <==> RedactionFits(p, d);
    forall i | 0 <= i < |ms|
      ensures Admitted(ns, i) <==> Admitted(ms, i)
    {
      FollowsPrefix(ns, |ms|, i);
    }
    PayloadTotalMonotone(ns, |ms|);
  }

  lemma FollowsPrefix(ms: seq<Message>, n: nat, i: nat)
    requires i < n <= |ms|
    ensures Follows(ms[..n], i) <==> Follows(ms, i)
  {
  }

  /** The store failed, or the transcript outgrew its capture limits: neither cause is in the validator's vocabulary. */
  predicate Unrecorded(terminal: Terminal)
  {
    terminal in {Abnormal("storage-error"), Abnormal("capture-limit")}
  }

  /**
   * Every run of the relay against a legal codec, whatever the store and the sockets do, leaves a conversation the
   * validator accepts - if and only if it did not end in `storage-error` or `capture-limit` and every JSON-redacted
   * text message fits the validator's pointer and payload bounds.
   */
  lemma RelayRunAccepted(p: Policy, ds: seq<Delivery>, head: nat, terminal: Terminal)
    requires CodecLegal(ds) && head < |ds| && Continues(p, ds[..head])
    requires Exit(p, ds[..head], ds[head]) == Some(terminal)
    ensures Accepted(FinalMessages(p, ds[..head], ds[head]), terminal)
       <==> !Unrecorded(terminal) && AllFit(p, ds[..head + 1])
  {
    var h, d := ds[..head], ds[head];
    if Unrecorded(terminal) {
      assert terminal.cause !in ABNORMAL_CAUSES;
      return;
    }
    assert ds[..head + 1] == h + [d];
    LegalPrefix(ds, head + 1);
    assert AllRecord(p, h + [d]) by {
      forall i | 0 <= i < head + 1
        ensures Records(p, (h + [d])[..i], (h + [d])[i])
      {
        if i < head {
          assert (h + [d])[..i] == h[..i] && Exit(p, h[..i], h[i]).None?;
        } else {
          assert (h + [d])[..i] == h;
        }
      }
    }
    MessagesAcceptedIffFit(p, h + [d]);
    TerminalMatches(p, h, d, terminal);
  }

  lemma TerminalMatches(p: Policy, h: seq<Delivery>, d: Delivery, terminal: Terminal)
    requires Continues(p, h) && Exit(p, h, d) == Some(terminal) && !Unrecorded(terminal)
    ensures TerminalAccepted(Recorded(p, h + [d]), terminal)
  {
    hide Recorded, SawClose, Outstanding, Continues;
    if terminal.CleanClose? {
      CleanTerminal(p, h, d);
      hide Exit;
    } else {
      AbnormalCauses(p, h, d);
      hide Exit;
    }
  }

  /** A clean terminal names the close that completed the handshake, recorded last. */
  lemma CleanTerminal(p: Policy, h: seq<Delivery>, d: Delivery)
    requires Continues(p, h) && Exit(p, h, d).Some? && Exit(p, h, d).value.CleanClose?
    ensures TerminalAccepted(Recorded(p, h + [d]), Exit(p, h, d).value)
  {
    CleanExitIsClose(p, h, d);
    hide Exit, Outstanding, Continues;
    BothCloses(p, h, d);
  }

  lemma CleanExitIsClose(p: Policy, h: seq<Delivery>, d: Delivery)
    requires Continues(p, h) && Exit(p, h, d).Some? && Exit(p, h, d).value.CleanClose?
    ensures Observed(d) && d.message.CloseData? && SawClose(h, Other(d.side))
    ensures Exit(p, h, d) == Some(CleanClose(CloseCodeOf(d.message), StoredReason(p, d.message)))
  {
  }

  lemma BothCloses(p: Policy, h: seq<Delivery>, d: Delivery)
    requires Observed(d) && d.message.CloseData? && SawClose(h, Other(d.side))
    ensures TerminalAccepted(Recorded(p, h + [d]), CleanClose(CloseCodeOf(d.message), StoredReason(p, d.message)))
  {
    RecordedCloses(p, h + [d], ClientToServer);
    RecordedCloses(p, h + [d], ServerToClient);
    ExtendRecorded(p, h, d);
    hide Recorded, SawClose, ClosedBy;
    ExtendClose(h, d, ClientToServer);
    ExtendClose(h, d, ServerToClient);
  }

  lemma AbnormalCauses(p: Policy, h: seq<Delivery>, d: Delivery)
    ensures Exit(p, h, d).Some? && Exit(p, h, d).value.Abnormal? && !Unrecorded(Exit(p, h, d).value) ==>
      Exit(p, h, d).value.cause in {"eof", "reset", "shutdown", "duration-limit", "protocol-error", "write-error"}
  {
  }

  /** Nothing stops a policy from redacting the root pointer, and the validator refuses that marker. */
  lemma RootPointerRefused()
    ensures var p := Policy(false, false, [""], (data: Bytes) => Some("\"<redacted>\""));
            var run := [Received(ClientToServer, TextData("1"), 0, false, false), Cancelled];
            && CodecLegal(run)
            && Continues(p, run[..1])
            && Exit(p, run[..1], run[1]) == Some(Abnormal("shutdown"))
            && !Accepted(FinalMessages(p, run[..1], run[1]), Abnormal("shutdown"))
  {
    var p := Policy(false, false, [""], (data: Bytes) => Some("\"<redacted>\""));
    var d := Received(ClientToServer, TextData("1"), 0, false, false);
    var run := [d, Cancelled];
    assert run[..1] == [] + [d];
    ExtendContinues(p, [], d);
    assert Recorded(p, []) == [];
    assert !ValidPointer("");
    assert !RedactionFits(p, d) && run[..2][0] == d;
    hide Recorded, Exit, Continues;
    RelayRunAccepted(p, run, 1, Abnormal("shutdown"));
  }
}
