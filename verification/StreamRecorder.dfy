/**
 * The frame loops that turn a body into a timeline: the response recorder and the request tee
 * (crates/eggreplay-http/src/recording.rs), and the candidate observer (crates/eggreplay-http/src/regression.rs).
 */
module StreamRecorder {
  import opened Prelude
  import opened Listing
  import opened StreamTimeline

  datatype Frame = DataFrame(size: nat) | TrailersFrame(fields: seq<HeaderEntry>) | OtherFrame

  /** A frame and the clock reading, in nanoseconds since the body started, when it arrived. */
  datatype Timed = Timed(now: nat, frame: Frame)

  datatype Ending = Finished(now: nat) | Broken(now: nat, category: string, phase: string)

  datatype Body = Body(frames: seq<Timed>, ending: Ending)

  // ---------- What a body is ----------

  function BytesOf(fs: seq<Timed>): nat
  {
    if fs == [] then 0
    else
      var rest, f := BytesOf(fs[..|fs| - 1]), fs[|fs| - 1].frame;
      if f.DataFrame? then rest + f.size else rest
  }

  /** The event one frame contributes at a body offset. */
  function FrameEvent(f: Timed, offset: nat): seq<StreamEvent>
  {
    match f.frame
    case DataFrame(size) => if size == 0 then [] else [StreamEvent(f.now, Data(offset, size))]
    case TrailersFrame(fields) => [StreamEvent(f.now, Trailers(fields))]
    case OtherFrame => []
  }

  function EventsOfFrames(fs: seq<Timed>): seq<StreamEvent>
  {
    if fs == [] then []
    else EventsOfFrames(fs[..|fs| - 1]) + FrameEvent(fs[|fs| - 1], BytesOf(fs[..|fs| - 1]))
  }

  function EndingEvent(body: Body): StreamEvent
  {
    match body.ending
    case Finished(now) => StreamEvent(now, End)
    case Broken(now, category, phase) => StreamEvent(now, Error(BytesOf(body.frames), category, phase))
  }

  /** The timeline of a body, event for event: what a recorder without a cap would list. */
  function EventsOf(body: Body): seq<StreamEvent>
  {
    EventsOfFrames(body.frames) + [EndingEvent(body)]
  }

  predicate HasTrailers(fs: seq<Timed>)
  {
    exists f :: f in fs && f.frame.TrailersFrame?
  }

  function LastNow(fs: seq<Timed>): nat
  {
    if fs == [] then 0 else fs[|fs| - 1].now
  }

  /** Frame `f` may follow `fs`: the clock is monotone, and HTTP sends no data or second trailers after trailers. */
  predicate MayFollow(fs: seq<Timed>, f: Timed)
  {
    LastNow(fs) <= f.now && (HasTrailers(fs) ==> f.frame.OtherFrame?)
  }

  predicate HttpFrames(fs: seq<Timed>)
  {
    forall i :: 0 <= i < |fs| ==> MayFollow(fs[..i], fs[i])
  }

  predicate HttpBody(body: Body)
  {
    HttpFrames(body.frames) && LastNow(body.frames) <= body.ending.now
  }

  // ---------- The body's events are in order ----------

  predicate Quiet(es: seq<StreamEvent>, now: nat)
  {
    es == [] || (es[|es| - 1].deltaNs <= now && !Terminal(es[|es| - 1]))
  }

  /** What the next frame of a body depends on. */
  predicate Laid(es: seq<StreamEvent>, fs: seq<Timed>)
  {
    && InOrder(es)
    && DataEnd(es) == BytesOf(fs)
    && (SawTrailers(es) ==> HasTrailers(fs))
    && Quiet(es, LastNow(fs))
  }

  lemma FramesStep(fs: seq<Timed>, n: nat)
    requires n < |fs|
    ensures BytesOf(fs[..n + 1]) == BytesOf(fs[..n]) + (if fs[n].frame.DataFrame? then fs[n].frame.size else 0)
    ensures EventsOfFrames(fs[..n + 1]) == EventsOfFrames(fs[..n]) + FrameEvent(fs[n], BytesOf(fs[..n]))
    ensures HasTrailers(fs[..n + 1]) <==> HasTrailers(fs[..n]) || fs[n].frame.TrailersFrame?
    ensures LastNow(fs[..n + 1]) == fs[n].now
  {
    assert fs[..n + 1][..n] == fs[..n];
    assert fs[..n + 1] == fs[..n] + [fs[n]];
  }

  lemma {:induction false} BytesMonotone(fs: seq<Timed>, n: nat)
    requires n <= |fs|
    ensures BytesOf(fs[..n]) <= BytesOf(fs)
  {
    if n < |fs| {
      BytesMonotone(fs[..|fs| - 1], n);
      assert fs[..|fs| - 1][..n] == fs[..n];
    } else {
      assert fs[..n] == fs;
    }
  }

  lemma {:induction false} EventsMonotone(fs: seq<Timed>, n: nat)
    requires n <= |fs|
    ensures EventsOfFrames(fs[..n]) <= EventsOfFrames(fs)
  {
    if n < |fs| {
      EventsMonotone(fs[..|fs| - 1], n);
      assert fs[..|fs| - 1][..n] == fs[..n];
    } else {
      assert fs[..n] == fs;
    }
  }

  function CountNonEmpty(fs: seq<Timed>): nat
  {
    if fs == [] then 0
    else
      var rest, f := CountNonEmpty(fs[..|fs| - 1]), fs[|fs| - 1].frame;
      if f.TrailersFrame? || (f.DataFrame? && f.size > 0) then rest + 1 else rest
  }

  /** A body has one event for each non-empty data frame and trailers frame, and one for its end. */
  lemma {:induction false} EventCount(body: Body)
    ensures |EventsOf(body)| == CountNonEmpty(body.frames) + 1
    decreases |body.frames|
  {
    var fs := body.frames;
    if fs != [] {
      EventCount(Body(fs[..|fs| - 1], body.ending));
    }
  }

  function EventfulAt(fs: seq<Timed>): set<nat>
  {
    set i: nat | i < |fs| && (fs[i].frame.TrailersFrame? || (fs[i].frame.DataFrame? && fs[i].frame.size > 0))
  }

  /** The event reports the frame: when it came, and what it carried after `offset` bytes. */
  predicate Mirrors(f: Timed, offset: nat, e: StreamEvent)
  {
    && e.deltaNs == f.now
    && (f.frame.DataFrame? ==> f.frame.size > 0 && e.event == Data(offset, f.frame.size))
    && (f.frame.TrailersFrame? ==> e.event == Trailers(f.frame.fields))
    && !f.frame.OtherFrame?
  }

  /** The events `es` mirror the frames at the places `at`. */
  predicate AllMirror(fs: seq<Timed>, at: seq<nat>, es: seq<StreamEvent>)
  {
    |at| == |es| && forall k :: 0 <= k < |at| ==> at[k] < |fs| && Mirrors(fs[at[k]], BytesOf(fs[..at[k]]), es[k])
  }

  /** The events are those of the data and trailers frames, one for each and in their order. */
  lemma {:induction false} EventsMirrorFrames(fs: seq<Timed>) returns (at: seq<nat>)
    ensures Lists(at, EventfulAt(fs)) && AllMirror(fs, at, EventsOfFrames(fs))
  {
    if fs == [] {
      return [];
    }
    var n := |fs| - 1;
    assert EventsOfFrames(fs) == EventsOfFrames(fs[..n]) + FrameEvent(fs[n], BytesOf(fs[..n]));
    hide BytesOf, EventsOfFrames;
    at := EventsMirrorFrames(fs[..n]);
    MirrorStep(fs, n, at, EventsOfFrames(fs[..n]));
    if FrameEvent(fs[n], BytesOf(fs[..n])) != [] {
      at := at + [n];
    }
  }

  lemma MirrorStep(fs: seq<Timed>, n: nat, at: seq<nat>, es: seq<StreamEvent>)
    requires n == |fs| - 1 && Lists(at, EventfulAt(fs[..n])) && AllMirror(fs[..n], at, es)
    ensures var more := FrameEvent(fs[n], BytesOf(fs[..n]));
            if more == [] then Lists(at, EventfulAt(fs)) && AllMirror(fs, at, es + more)
            else Lists(at + [n], EventfulAt(fs)) && AllMirror(fs, at + [n], es + more)
  {
    hide BytesOf;
    var front := fs[..n];
    forall k | 0 <= k < |at|
      ensures fs[..at[k]] == front[..at[k]] && fs[at[k]] == front[at[k]]
    {
    }
    var more := FrameEvent(fs[n], BytesOf(front));
    if more == [] {
      assert EventfulAt(fs) == EventfulAt(front) && es + more == es;
    } else {
      assert |more| == 1 && Mirrors(fs[n], BytesOf(front), more[0]);
      ListsMore(at, EventfulAt(front), n, EventfulAt(fs));
      hide Mirrors, FrameEvent, Lists;
    }
  }

  /** The last event reports how and when the body ended, an error at the byte it had got to. */
  lemma EndingMirrored(body: Body)
    ensures
      var last := EventsOf(body)[|EventsOf(body)| - 1];
      && EventsOf(body) == EventsOfFrames(body.frames) + [last]
      && last.deltaNs == body.ending.now
      && (last.event.End? <==> body.ending.Finished?)
      && (body.ending.Broken? ==>
            last.event == Error(BytesOf(body.frames), body.ending.category, body.ending.phase))
  {
    hide EventsOfFrames, BytesOf;
  }

  /** The event of a frame that may follow continues any list laid out for the frames before it. */
  lemma FrameContinues(es: seq<StreamEvent>, fs: seq<Timed>, f: Timed, e: StreamEvent)
    requires Laid(es, fs) && MayFollow(fs, f) && FrameEvent(f, BytesOf(fs)) == [e]
    ensures StreamTimeline.Continues(es, e) && !Terminal(e) && e.deltaNs == f.now
  {
  }

  lemma EndingContinues(es: seq<StreamEvent>, body: Body)
    requires Laid(es, body.frames) && HttpBody(body)
    ensures StreamTimeline.Continues(es, EndingEvent(body))
  {
  }

  lemma {:induction false} FramesLaid(fs: seq<Timed>, n: nat)
    requires n <= |fs| && HttpFrames(fs) && BytesOf(fs) <= U64_MAX
    ensures Laid(EventsOfFrames(fs[..n]), fs[..n])
  {
    if n > 0 {
      FramesLaid(fs, n - 1);
      FramesStep(fs, n - 1);
      BytesMonotone(fs, n);
      assert MayFollow(fs[..n - 1], fs[n - 1]);
      LaidStep(EventsOfFrames(fs[..n - 1]), fs, n - 1);
    }
  }

  lemma LaidStep(es: seq<StreamEvent>, fs: seq<Timed>, n: nat)
    requires n < |fs| && Laid(es, fs[..n]) && MayFollow(fs[..n], fs[n]) && BytesOf(fs[..n + 1]) <= U64_MAX
    ensures Laid(es + FrameEvent(fs[n], BytesOf(fs[..n])), fs[..n + 1])
  {
    FramesStep(fs, n);
    var added := FrameEvent(fs[n], BytesOf(fs[..n]));
    if added == [] {
      assert es + added == es;
    } else {
      FrameContinues(es, fs[..n], fs[n], added[0]);
      InOrderStep(es, added[0]);
      DataEndStep(es, added[0]);
      TrailersStep(es, added[0]);
    }
    hide InOrder, DataEnd, SawTrailers, BytesOf, EventsOfFrames, HasTrailers, LastNow;
  }

  /** Every timing and size bound the validator puts on the body's own events. */
  predicate BodyBounded(body: Body)
  {
    AllBounded(EventsOf(body))
  }

  /** A body's events are always in order, so they are valid exactly when each is within the validator's bounds. */
  lemma EventsValidIff(body: Body)
    requires HttpBody(body) && BytesOf(body.frames) <= U64_MAX
    ensures InOrder(EventsOf(body)) && DataEnd(EventsOf(body)) == BytesOf(body.frames)
    ensures ValidDirection(EventsOf(body)) <==> BodyBounded(body)
  {
    var fs := body.frames;
    assert fs[..|fs|] == fs;
    FramesLaid(fs, |fs|);
    EndingContinues(EventsOfFrames(fs), body);
    InOrderStep(EventsOfFrames(fs), EndingEvent(body));
    DataEndStep(EventsOfFrames(fs), EndingEvent(body));
  }

  // ---------- Recording a response ----------

  /** The list in the recorder after `n` frames: the body's events while they fit, and a full list after that. */
  predicate Tracks(events: seq<StreamEvent>, fs: seq<Timed>, n: nat)
    requires n <= |fs|
  {
    && Laid(events, fs[..n])
    && |events| <= MAX_EVENTS_PER_DIRECTION
    && if |EventsOfFrames(fs[..n])| <= MAX_EVENTS_PER_DIRECTION then events == EventsOfFrames(fs[..n])
       else |events| == MAX_EVENTS_PER_DIRECTION
  }

  /** One push keeps the list tracking the body; only trailers can be refused, on a full list. */
  lemma PushTracks(events: seq<StreamEvent>, fs: seq<Timed>, n: nat, e: StreamEvent)
    requires n < |fs| && Tracks(events, fs, n) && MayFollow(fs[..n], fs[n]) && BytesOf(fs[..n + 1]) <= U64_MAX
    requires FrameEvent(fs[n], BytesOf(fs[..n])) == [e]
    ensures Pushed(events, e).Some? ==> Tracks(Pushed(events, e).value, fs, n + 1)
    ensures Pushed(events, e).None? ==> e.event.Trailers? && |EventsOfFrames(fs[..n + 1])| > MAX_EVENTS_PER_DIRECTION
  {
    hide InOrder, DataEnd, SawTrailers, BytesOf, EventsOfFrames, HasTrailers, LastNow, StreamTimeline.Continues, Quiet;
    FramesStep(fs, n);
    FrameContinues(events, fs[..n], fs[n], e);
    PushKeepsOrder(events, e);
    PushQuiet(events, e);
  }

  lemma PushQuiet(es: seq<StreamEvent>, e: StreamEvent)
    requires Quiet(es, e.deltaNs) && !Terminal(e)
    ensures Pushed(es, e).Some? ==> Quiet(Pushed(es, e).value, e.deltaNs)
  {
  }

  /** The list after a push whose refusal leaves it alone. */
  function AfterPush(es: seq<StreamEvent>, e: StreamEvent): seq<StreamEvent>
  {
    if Pushed(es, e).Some? then Pushed(es, e).value else es
  }

  function AfterFrame(es: seq<StreamEvent>, f: Timed, offset: nat): seq<StreamEvent>
  {
    if FrameEvent(f, offset) == [] then es else AfterPush(es, FrameEvent(f, offset)[0])
  }

  /** What recording one more frame promises: it fails only on a full blob, or for trailers on a full list. */
  ghost predicate FrameRecorded(before: seq<StreamEvent>, ok: bool, events: seq<StreamEvent>, written: nat,
                                fs: seq<Timed>, n: nat, maxBlobBytes: nat)
    requires n < |fs|
  {
    && (ok <==> BytesOf(fs[..n + 1]) <= maxBlobBytes
                && !(fs[n].frame.TrailersFrame? && |before| == MAX_EVENTS_PER_DIRECTION))
    && (BytesOf(fs[..n + 1]) <= maxBlobBytes ==> events == AfterFrame(before, fs[n], BytesOf(fs[..n])))
    && if ok then
         Tracks(events, fs, n + 1) && written == BytesOf(fs[..n + 1])
       else
         && events == before
         && written == BytesOf(fs[..n])
         && (BytesOf(fs[..n + 1]) > maxBlobBytes || |EventsOfFrames(fs[..n + 1])| > MAX_EVENTS_PER_DIRECTION)
  }

  /** Before frame `n`: the list tracks the frames, and the bytes written so far are their total. */
  predicate ReadyFor(before: seq<StreamEvent>, offset: nat, fs: seq<Timed>, n: nat, maxBlobBytes: nat)
  {
    && n < |fs|
    && Tracks(before, fs, n)
    && MayFollow(fs[..n], fs[n])
    && offset == BytesOf(fs[..n]) <= maxBlobBytes <= U64_MAX
  }

  lemma OversizedFrame(before: seq<StreamEvent>, offset: nat, fs: seq<Timed>, n: nat, maxBlobBytes: nat)
    requires ReadyFor(before, offset, fs, n, maxBlobBytes)
    requires fs[n].frame.DataFrame? && offset + fs[n].frame.size > maxBlobBytes
    ensures FrameRecorded(before, false, before, offset, fs, n, maxBlobBytes)
  {
    hide Tracks, EventsOfFrames, AfterFrame, MayFollow;
    FramesStep(fs, n);
  }

  /** A frame without an event changes nothing. */
  lemma EmptyFrame(before: seq<StreamEvent>, offset: nat, fs: seq<Timed>, n: nat, maxBlobBytes: nat)
    requires ReadyFor(before, offset, fs, n, maxBlobBytes)
    requires FrameEvent(fs[n], offset) == []
    ensures FrameRecorded(before, true, before, offset, fs, n, maxBlobBytes)
  {
    hide Laid, BytesOf, EventsOfFrames, MayFollow;
    FramesStep(fs, n);
    LaidStep(before, fs, n);
    assert before + [] == before;
    assert EventsOfFrames(fs[..n]) + [] == EventsOfFrames(fs[..n]);
  }

  lemma FullFrame(before: seq<StreamEvent>, offset: nat, fs: seq<Timed>, n: nat, maxBlobBytes: nat, e: StreamEvent)
    requires ReadyFor(before, offset, fs, n, maxBlobBytes)
    requires BytesOf(fs[..n + 1]) <= maxBlobBytes && FrameEvent(fs[n], offset) == [e]
    ensures FrameRecorded(before, Pushed(before, e).Some?, AfterPush(before, e),
                          if Pushed(before, e).Some? then BytesOf(fs[..n + 1]) else offset, fs, n, maxBlobBytes)
  {
    hide Laid, BytesOf, EventsOfFrames, MayFollow;
    PushTracks(before, fs, n, e);
    RefusedOnlyTrailers(before, fs, n, e);
    hide Tracks, Pushed;
  }

  lemma RefusedOnlyTrailers(before: seq<StreamEvent>, fs: seq<Timed>, n: nat, e: StreamEvent)
    requires n < |fs| && Tracks(before, fs, n) && MayFollow(fs[..n], fs[n]) && BytesOf(fs[..n + 1]) <= U64_MAX
    requires FrameEvent(fs[n], BytesOf(fs[..n])) == [e]
    ensures Pushed(before, e).None? <==> fs[n].frame.TrailersFrame? && |before| == MAX_EVENTS_PER_DIRECTION
    ensures fs[n].frame.DataFrame? || BytesOf(fs[..n + 1]) == BytesOf(fs[..n])
  {
    FramesStep(fs, n);
    hide Laid, BytesOf, EventsOfFrames, MayFollow;
    PushTracks(before, fs, n, e);
  }

  /** The loop body: stage the bytes, then push the frame's event. `written` is also the offset of the next data. */
  method RecordFrame(before: seq<StreamEvent>, offset: nat, f: Timed, ghost fs: seq<Timed>, ghost n: nat, maxBlobBytes: nat)
    returns (ok: bool, events: seq<StreamEvent>, written: nat)
    requires ReadyFor(before, offset, fs, n, maxBlobBytes) && f == fs[n]
    ensures FrameRecorded(before, ok, events, written, fs, n, maxBlobBytes)
  {
    FramesStep(fs, n);
    assert offset == BytesOf(fs[..n]) <= maxBlobBytes <= U64_MAX && Tracks(before, fs, n) && MayFollow(fs[..n], fs[n]);
    hide ReadyFor, FrameRecorded, BytesOf, EventsOfFrames, Tracks, MayFollow;
    events, written := before, offset;
    match f.frame {
      case DataFrame(size) =>
        if written + size > maxBlobBytes {
          OversizedFrame(before, offset, fs, n, maxBlobBytes);
          return false, events, written;
        }
        if size == 0 {
          EmptyFrame(before, offset, fs, n, maxBlobBytes);
          assert Pushed(before, StreamEvent(f.now, Data(offset, 0))) == Some(before);
        } else {
          FullFrame(before, offset, fs, n, maxBlobBytes, StreamEvent(f.now, Data(offset, size)));
          RefusedOnlyTrailers(before, fs, n, StreamEvent(f.now, Data(offset, size)));
        }
        ok, events := Push(events, StreamEvent(f.now, Data(offset, size)));
        written := SatAdd(offset, size);
      case TrailersFrame(fields) =>
        FullFrame(before, offset, fs, n, maxBlobBytes, StreamEvent(f.now, Trailers(fields)));
        ok, events := Push(events, StreamEvent(f.now, Trailers(fields)));
      case OtherFrame =>
        EmptyFrame(before, offset, fs, n, maxBlobBytes);
        ok := true;
    }
  }

  /** The terminal event fits exactly when the whole timeline does, and completes it. */
  lemma EndingTracked(events: seq<StreamEvent>, body: Body)
    requires HttpBody(body) && Tracks(events, body.frames, |body.frames|)
    ensures Pushed(events, EndingEvent(body)).Some? <==> |EventsOf(body)| <= MAX_EVENTS_PER_DIRECTION
    ensures Pushed(events, EndingEvent(body)).Some? ==> Pushed(events, EndingEvent(body)).value == EventsOf(body)
    ensures var after := AfterPush(events, EndingEvent(body));
            InOrder(after) && DataEnd(after) == BytesOf(body.frames)
  {
    assert body.frames[..|body.frames|] == body.frames;
    EndingContinues(events, body);
    PushKeepsOrder(events, EndingEvent(body));
    hide InOrder, DataEnd, SawTrailers, HttpFrames, BytesOf, EventsOfFrames, HasTrailers, Quiet, StreamTimeline.Continues;
  }

  /**
   * The response frame loop. It succeeds exactly when the body's events fit the per-direction cap and its bytes fit
   * the staged blob, and then it has recorded the body's timeline verbatim; failing or not, the list always tiles the
   * bytes that were written.
   */
  method RecordResponse(body: Body, maxBlobBytes: nat) returns (ok: bool, events: seq<StreamEvent>, written: nat)
    requires HttpBody(body) && maxBlobBytes <= U64_MAX
    ensures ok <==> |EventsOf(body)| <= MAX_EVENTS_PER_DIRECTION && BytesOf(body.frames) <= maxBlobBytes
    ensures ok ==> events == EventsOf(body) && written == BytesOf(body.frames)
    ensures InOrder(events) && DataEnd(events) == written
  {
    var fs := body.frames;
    events, written := [], 0;
    for n := 0 to |fs|
      invariant Tracks(events, fs, n)
      invariant written == BytesOf(fs[..n]) <= maxBlobBytes
    {
      BytesMonotone(fs, n + 1);
      EventsMonotone(fs, n + 1);
      hide InOrder, DataEnd, BytesOf, EventsOfFrames, HasTrailers, LastNow, MayFollow;
      ok, events, written := RecordFrame(events, written, fs[n], fs, n, maxBlobBytes);
      if !ok {
        return;
      }
    }
    assert fs[..|fs|] == fs;
    hide HttpFrames, BytesOf, EventsOfFrames, Tracks, InOrder, DataEnd, Pushed;
    var last := match body.ending
      case Finished(now) => StreamEvent(now, End)
      case Broken(now, category, phase) => StreamEvent(now, Error(written, category, phase));
    EndingTracked(events, body);
    ok, events := Push(events, last);
  }

  /** A body of `n` one-byte frames that arrive at once. */
  function Bytewise(n: nat): Body
  {
    Body(seq(n, _ => Timed(0, DataFrame(1))), Finished(0))
  }

  lemma {:induction false} BytewiseCounts(n: nat)
    ensures CountNonEmpty(Bytewise(n).frames) == n && BytesOf(Bytewise(n).frames) == n
  {
    if n > 0 {
      assert Bytewise(n).frames[..n - 1] == Bytewise(n - 1).frames;
      BytewiseCounts(n - 1);
    }
  }

  /** The shortest such body that does not record: 2048 frames and the end are one event too many. */
  lemma LongBodyNotRecorded()
    ensures HttpBody(Bytewise(2048)) && BytesOf(Bytewise(2048).frames) == 2048
    ensures |EventsOf(Bytewise(2048))| == MAX_EVENTS_PER_DIRECTION + 1
    ensures |EventsOf(Bytewise(2047))| == MAX_EVENTS_PER_DIRECTION
  {
    BytewiseCounts(2047);
    BytewiseCounts(2048);
    EventCount(Bytewise(2047));
    EventCount(Bytewise(2048));
    hide BytesOf, CountNonEmpty, EventsOfFrames;
    var fs := Bytewise(2048).frames;
    forall i | 0 <= i < |fs|
      ensures MayFollow(fs[..i], fs[i])
    {
    }
  }

  // ---------- Observing a candidate ----------

  predicate Timely(es: seq<StreamEvent>)
  {
    forall e :: e in es ==> e.deltaNs <= MAX_DELAY_NS
  }

  /** `push_candidate_event`: a push that also refuses late events. */
  method PushCandidate(events: seq<StreamEvent>, e: StreamEvent) returns (ok: bool, after: seq<StreamEvent>)
    ensures ok <==>
      (e.event.Data? && e.event.length == 0) || (e.deltaNs <= MAX_DELAY_NS && Pushed(events, e).Some?)
    ensures after == if ok then Pushed(events, e).value else events
  {
    if e.event.Data? && e.event.length == 0 {
      return true, events;
    }
    if e.deltaNs > MAX_DELAY_NS {
      return false, events;
    }
    ok, after := Push(events, e);
  }

  /** Appending the last event, the timeline is timely exactly when it was and the event is. */
  lemma TimelyStep(es: seq<StreamEvent>, e: StreamEvent)
    ensures Timely(es + [e]) <==> Timely(es) && e.deltaNs <= MAX_DELAY_NS
  {
    assert (es + [e])[|es|] == e;
  }

  /**
   * The candidate frame loop succeeds exactly when the events fit the cap, every one is timely and the bytes fit the
   * body limit; it then lists the same timeline the recorder would.
   */
  method ObserveCandidate(body: Body, maxBodyBytes: nat) returns (ok: bool, events: seq<StreamEvent>)
    requires HttpBody(body) && maxBodyBytes <= U64_MAX
    ensures ok <==>
      |EventsOf(body)| <= MAX_EVENTS_PER_DIRECTION && Timely(EventsOf(body)) && BytesOf(body.frames) <= maxBodyBytes
    ensures ok ==> events == EventsOf(body)
  {
    var fs := body.frames;
    events := [];
    var offset := 0;
    for n := 0 to |fs|
      invariant Tracks(events, fs, n) && Timely(EventsOfFrames(fs[..n]))
      invariant offset == BytesOf(fs[..n]) <= maxBodyBytes
    {
      BytesMonotone(fs, n + 1);
      EventsMonotone(fs, n + 1);
      hide InOrder, DataEnd, BytesOf, EventsOfFrames, HasTrailers, LastNow, MayFollow, Laid, Tracks;
      ok, events, offset := ObserveFrame(events, offset, fs, n, maxBodyBytes);
      if !ok {
        return;
      }
    }
    assert fs[..|fs|] == fs;
    hide HttpFrames, BytesOf, EventsOfFrames, Tracks, Timely, Pushed;
    var last := match body.ending
      case Finished(now) => StreamEvent(now, End)
      case Broken(now, category, phase) => StreamEvent(now, Error(offset, category, phase));
    EndingTracked(events, body);
    TimelyStep(EventsOfFrames(fs), last);
    ok, events := PushCandidate(events, last);
  }

  method ObserveFrame(before: seq<StreamEvent>, start: nat, fs: seq<Timed>, n: nat, maxBodyBytes: nat)
    returns (ok: bool, events: seq<StreamEvent>, offset: nat)
    requires n < |fs| && Tracks(before, fs, n) && MayFollow(fs[..n], fs[n]) && Timely(EventsOfFrames(fs[..n]))
    requires start == BytesOf(fs[..n]) <= maxBodyBytes <= U64_MAX
    ensures ok ==>
      && Tracks(events, fs, n + 1)
      && Timely(EventsOfFrames(fs[..n + 1]))
      && offset == BytesOf(fs[..n + 1]) <= maxBodyBytes
    ensures !ok ==>
      || BytesOf(fs[..n + 1]) > maxBodyBytes
      || |EventsOfFrames(fs[..n + 1])| > MAX_EVENTS_PER_DIRECTION
      || !Timely(EventsOfFrames(fs[..n + 1]))
  {
    var f := fs[n];
    FramesStep(fs, n);
    events, offset, ok := before, start, true;
    hide InOrder, DataEnd, BytesOf, EventsOfFrames, HasTrailers, LastNow, MayFollow, Quiet;
    match f.frame {
      case DataFrame(size) =>
        if size == 0 {
          LaidStep(events, fs, n);
          assert events + [] == events;
        } else {
          if offset + size > maxBodyBytes {
            return false, events, offset;
          }
          var e := StreamEvent(f.now, Data(offset, size));
          PushTracks(events, fs, n, e);
          assert EventsOfFrames(fs[..n + 1])[|EventsOfFrames(fs[..n])|] == e;
          ok, events := PushCandidate(events, e);
          offset := SatAdd(offset, size);
        }
      case TrailersFrame(fields) =>
        var e := StreamEvent(f.now, Trailers(fields));
        PushTracks(events, fs, n, e);
        assert EventsOfFrames(fs[..n + 1])[|EventsOfFrames(fs[..n])|] == e;
        ok, events := PushCandidate(events, e);
      case OtherFrame =>
        LaidStep(events, fs, n);
        assert events + [] == events;
    }
  }
}
