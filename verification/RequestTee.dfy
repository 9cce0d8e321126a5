/**
 * The request tee: a stream adapter that passes a request body on while it stages the bytes and lists the frames
 * (crates/eggreplay-http/src/recording.rs), and the recording of a whole flow around it.
 */
module RequestTee {
  import opened Prelude
  import opened StreamTimeline
  import opened StreamRecorder
  import opened Reconciliation

  /** One answer of the inner body to a poll. */
  datatype Polled = Pending | Exhausted(now: nat) | Errored(now: nat) | Ready(frame: Timed, sinkFails: bool)

  datatype Item = NotReady | NoMore | Failed | Forwarded(frame: Frame)

  /** What the inner body may answer next: HTTP frames in order, on a monotone clock, of a total that fits `u64`. */
  predicate MayAnswer(staged: seq<Timed>, p: Polled)
  {
    match p
    case Pending => true
    case Exhausted(now) => LastNow(staged) <= now
    case Errored(now) => LastNow(staged) <= now
    case Ready(f, _) => MayFollow(staged, f) && BytesOf(staged + [f]) <= U64_MAX
  }

  /** The frame a poll stages: any it answers, except data that the sink refuses. */
  function StagedBy(p: Polled): seq<Timed>
  {
    if p.Ready? && !(p.frame.frame.DataFrame? && p.sinkFails) then [p.frame] else []
  }

  /** The list after a poll: terminal events and frames that it refuses are dropped. */
  function AfterPoll(es: seq<StreamEvent>, offset: nat, p: Polled): seq<StreamEvent>
  {
    match p
    case Pending => es
    case Exhausted(now) => AfterPush(es, StreamEvent(now, End))
    case Errored(now) => AfterPush(es, StreamEvent(now, Error(offset, "other", "body")))
    case Ready(f, _) => if StagedBy(p) == [] then es else AfterFrame(es, f, offset)
  }

  /** The stream is over: at its end, at an error, and at trailers that find the list full. */
  predicate Ends(es: seq<StreamEvent>, p: Polled)
  {
    match p
    case Pending => false
    case Ready(f, _) => f.frame.TrailersFrame? && |es| == MAX_EVENTS_PER_DIRECTION
    case _ => true
  }

  function Answer(es: seq<StreamEvent>, p: Polled): Item
  {
    match p
    case Pending => NotReady
    case Exhausted(_) => NoMore
    case Errored(_) => Failed
    case Ready(f, _) => if StagedBy(p) == [] || Ends(es, p) then Failed else Forwarded(f.frame)
  }

  /** The list is in order and tiles the staged bytes; until the stream is done it can still be continued. */
  ghost predicate Consistent(events: seq<StreamEvent>, offset: nat, done: bool, frames: seq<Timed>)
  {
    && HttpFrames(frames)
    && offset == BytesOf(frames) <= U64_MAX
    && InOrder(events)
    && DataEnd(events) == offset
    && |events| <= MAX_EVENTS_PER_DIRECTION
    && (!done ==> Tracks(events, frames, |frames|))
  }

  /** The fields of the trailers frames, one frame after the other. */
  function TrailerFields(fs: seq<Timed>): seq<HeaderEntry>
  {
    if fs == [] then []
    else
      match fs[|fs| - 1].frame
      case TrailersFrame(fields) => TrailerFields(fs[..|fs| - 1]) + fields
      case _ => TrailerFields(fs[..|fs| - 1])
  }

  lemma TrailerFieldsStep(fs: seq<Timed>, f: Timed)
    ensures TrailerFields(fs + [f]) ==
            TrailerFields(fs) + if f.frame.TrailersFrame? then f.frame.fields else []
  {
    assert (fs + [f])[..|fs|] == fs;
  }

  /** HTTP sends at most one trailers frame, so the fields are those of that frame, refused by a full list or not. */
  lemma {:induction false} TrailersOfHttp(fs: seq<Timed>)
    requires HttpFrames(fs)
    ensures !HasTrailers(fs) ==> TrailerFields(fs) == []
    ensures forall f :: f in fs && f.frame.TrailersFrame? ==> TrailerFields(fs) == f.frame.fields
  {
    if fs != [] {
      var front, last := fs[..|fs| - 1], fs[|fs| - 1];
      assert fs == front + [last];
      assert MayFollow(front, last);
      HttpFront(fs);
      TrailersOfHttp(front);
      hide HttpFrames, LastNow;
    }
  }

  lemma HttpFront(fs: seq<Timed>)
    requires HttpFrames(fs) && fs != []
    ensures HttpFrames(fs[..|fs| - 1])
  {
    hide MayFollow;
    var front := fs[..|fs| - 1];
    forall i | 0 <= i < |front|
      ensures MayFollow(front[..i], front[i])
    {
      assert front[..i] == fs[..i];
    }
  }

  class TeeStream {
    var events: seq<StreamEvent>
    var trailers: seq<HeaderEntry>
    var offset: nat
    var done: bool
    /** The frames staged so far. */
    ghost var frames: seq<Timed>

    ghost predicate Valid()
      reads this
    {
      Consistent(events, offset, done, frames) && trailers == TrailerFields(frames)
    }

    constructor ()
      ensures Valid() && events == [] && !done && frames == []
    {
      events, trailers, offset, done, frames := [], [], 0, false, [];
    }

    /** `poll_next`. Terminal events are pushed on a best-effort basis: on a full list they are dropped silently. */
    method PollNext(p: Polled) returns (item: Item)
      requires Valid() && (!done ==> MayAnswer(frames, p))
      modifies this
      ensures Valid()
      ensures old(done) ==> item == NoMore && done && frames == old(frames) && events == old(events)
      ensures !old(done) ==>
        && item == Answer(old(events), p)
        && done == Ends(old(events), p)
        && frames == old(frames) + StagedBy(p)
        && events == AfterPoll(old(events), old(offset), p)
    {
      if done {
        return NoMore;
      }
      assert frames + [] == frames;
      hide Consistent, TrailerFields, AfterPush, AfterFrame, MayFollow, BytesOf, LastNow, EventsOfFrames;
      match p {
        case Pending =>
          return NotReady;
        case Exhausted(now) =>
          PushTerminal(StreamEvent(now, End));
          return NoMore;
        case Errored(now) =>
          PushTerminal(StreamEvent(now, Error(offset, "other", "body")));
          return Failed;
        case Ready(f, sinkFails) =>
          item := Take(f, sinkFails);
      }
    }

    method PushTerminal(e: StreamEvent)
      requires Valid() && !done && Terminal(e) && LastNow(frames) <= e.deltaNs
      requires e.event.Error? ==> e.event.at == offset
      modifies this
      ensures Valid() && done && frames == old(frames) && events == AfterPush(old(events), e)
    {
      TerminalConsistent(events, offset, frames, e);
      done := true;
      var ok;
      ok, events := Push(events, e);
    }

    method Take(f: Timed, sinkFails: bool) returns (item: Item)
      requires Valid() && !done && MayAnswer(frames, Ready(f, sinkFails))
      modifies this
      ensures Valid()
      ensures f.frame.DataFrame? && sinkFails ==>
        item == Failed && !done && frames == old(frames) && events == old(events)
      ensures !(f.frame.DataFrame? && sinkFails) ==>
        && frames == old(frames) + [f]
        && events == AfterFrame(old(events), f, old(offset))
        && (done <==> f.frame.TrailersFrame? && |old(events)| == MAX_EVENTS_PER_DIRECTION)
        && item == if done then Failed else Forwarded(f.frame)
    {
      if f.frame.DataFrame? && sinkFails {
        return Failed;
      }
      ghost var fs := frames + [f];
      TakeReady(events, offset, frames, f);
      TrailerFieldsStep(frames, f);
      if f.frame.TrailersFrame? {
        trailers := trailers + f.frame.fields;
      }
      var recorded, after, end := RecordFrame(events, offset, f, fs, |frames|, U64_MAX);
      TakeConsistent(events, offset, frames, f, recorded, after, end);
      hide Consistent, TrailerFields;
      events, offset, done := after, end, !recorded;
      frames := fs;
      item := if done then Failed else Forwarded(f.frame);
    }
  }

  lemma TerminalConsistent(events: seq<StreamEvent>, offset: nat, frames: seq<Timed>, e: StreamEvent)
    requires Consistent(events, offset, false, frames) && Terminal(e) && LastNow(frames) <= e.deltaNs
    requires e.event.Error? ==> e.event.at == offset
    ensures Consistent(AfterPush(events, e), offset, true, frames)
  {
    assert frames[..|frames|] == frames;
    PushKeepsOrder(events, e);
    hide InOrder, DataEnd, BytesOf, EventsOfFrames, LastNow, HttpFrames;
  }

  lemma TakeReady(events: seq<StreamEvent>, offset: nat, frames: seq<Timed>, f: Timed)
    requires Consistent(events, offset, false, frames) && MayFollow(frames, f)
    ensures var fs := frames + [f];
            && fs[..|frames|] == frames
            && fs[..|frames| + 1] == fs
            && Tracks(events, fs, |frames|)
            && HttpFrames(fs)
  {
    var fs := frames + [f];
    assert fs[..|frames|] == frames == frames[..|frames|] && fs[..|frames| + 1] == fs;
    HttpStep(frames, f);
    hide InOrder, DataEnd, BytesOf, EventsOfFrames, LastNow, HttpFrames;
  }

  lemma TakeConsistent(events: seq<StreamEvent>, offset: nat, frames: seq<Timed>, f: Timed,
                       recorded: bool, after: seq<StreamEvent>, end: nat)
    requires Consistent(events, offset, false, frames) && MayFollow(frames, f) && BytesOf(frames + [f]) <= U64_MAX
    requires FrameRecorded(events, recorded, after, end, frames + [f], |frames|, U64_MAX)
    ensures Consistent(after, end, !recorded, frames + [f])
    ensures recorded <==> !(f.frame.TrailersFrame? && |events| == MAX_EVENTS_PER_DIRECTION)
    ensures after == AfterFrame(events, f, offset)
  {
    TakeReady(events, offset, frames, f);
    FramesStep(frames + [f], |frames|);
    hide InOrder, DataEnd, BytesOf, EventsOfFrames, HasTrailers, LastNow, MayFollow, HttpFrames;
  }

  lemma HttpStep(fs: seq<Timed>, f: Timed)
    requires HttpFrames(fs) && MayFollow(fs, f)
    ensures HttpFrames(fs + [f])
  {
  }

  // ---------- Whole requests and flows ----------

  lemma FrameKeepsBounds(es: seq<StreamEvent>, fs: seq<Timed>, n: nat)
    requires n < |fs| && AllBounded(es) && AllBounded(EventsOfFrames(fs))
    ensures AllBounded(AfterFrame(es, fs[n], BytesOf(fs[..n])))
  {
    FramesStep(fs, n);
    EventsMonotone(fs, n + 1);
    var added := FrameEvent(fs[n], BytesOf(fs[..n]));
    if added != [] {
      var all := EventsOfFrames(fs[..n + 1]);
      assert all[|all| - 1] == added[0] && all[|all| - 1] == EventsOfFrames(fs)[|all| - 1];
      PushKeepsBounds(es, added[0]);
    }
  }

  /** What draining the first frames of a body through the tee has established. */
  predicate Progress(body: Body, events: seq<StreamEvent>, done: bool)
  {
    && (done ==> |EventsOf(body)| > MAX_EVENTS_PER_DIRECTION)
    && (BodyBounded(body) ==> AllBounded(events))
  }

  lemma ProgressStep(body: Body, n: nat, events: seq<StreamEvent>)
    requires n < |body.frames| && HttpBody(body) && BytesOf(body.frames) <= U64_MAX
    requires Consistent(events, BytesOf(body.frames[..n]), false, body.frames[..n]) && Progress(body, events, false)
    ensures var f := body.frames[n];
            && body.frames[..n + 1] == body.frames[..n] + [f]
            && MayFollow(body.frames[..n], f)
            && BytesOf(body.frames[..n + 1]) <= U64_MAX
            && Progress(body, AfterFrame(events, f, BytesOf(body.frames[..n])),
                        f.frame.TrailersFrame? && |events| == MAX_EVENTS_PER_DIRECTION)
  {
    hide InOrder, DataEnd, BytesOf, EventsOfFrames, LastNow, MayFollow, AllBounded, Tracks, AfterFrame, EventsOf;
    var fs := body.frames;
    BytesMonotone(fs, n + 1);
    FullBeforeTrailers(events, fs, n);
    BoundsStep(body, n, events);
    EventsExceed(body);
    assert fs[..n + 1] == fs[..n] + [fs[n]];
  }

  lemma EventsExceed(body: Body)
    ensures |EventsOf(body)| == |EventsOfFrames(body.frames)| + 1
  {
  }

  /** The first `n` frames have been drained. */
  predicate Drained(body: Body, n: nat, events: seq<StreamEvent>, done: bool, frames: seq<Timed>)
  {
    n <= |body.frames| && frames == body.frames[..n] && Progress(body, events, done)
  }

  lemma DrainedStep(body: Body, n: nat, events: seq<StreamEvent>, offset: nat, frames: seq<Timed>)
    requires n < |body.frames| && HttpBody(body) && BytesOf(body.frames) <= U64_MAX
    requires Consistent(events, offset, false, frames) && Drained(body, n, events, false, frames)
    ensures var p := Ready(body.frames[n], false);
            && MayAnswer(frames, p)
            && Drained(body, n + 1, AfterPoll(events, offset, p), Ends(events, p), frames + StagedBy(p))
  {
    assert offset == BytesOf(frames);
    ProgressStep(body, n, events);
    hide Consistent, Progress, BytesOf, HttpFrames, MayFollow, AfterFrame;
  }

  lemma BoundsStep(body: Body, n: nat, events: seq<StreamEvent>)
    requires n < |body.frames|
    ensures BodyBounded(body) && AllBounded(events) ==>
      AllBounded(AfterFrame(events, body.frames[n], BytesOf(body.frames[..n])))
  {
    if BodyBounded(body) && AllBounded(events) {
      EventsOfFramesBounded(body);
      FrameKeepsBounds(events, body.frames, n);
    }
  }

  lemma EventsOfFramesBounded(body: Body)
    requires BodyBounded(body)
    ensures AllBounded(EventsOfFrames(body.frames))
  {
  }

  /** A refused trailers frame means that the body has more events than fit. */
  lemma FullBeforeTrailers(es: seq<StreamEvent>, fs: seq<Timed>, n: nat)
    requires n < |fs| && Tracks(es, fs[..n], n)
    ensures |es| == MAX_EVENTS_PER_DIRECTION && fs[n].frame.TrailersFrame? ==>
      |EventsOfFrames(fs)| > MAX_EVENTS_PER_DIRECTION
  {
    assert fs[..n][..n] == fs[..n];
    FramesStep(fs, n);
    EventsMonotone(fs, n);
    EventsMonotone(fs, n + 1);
    hide Laid, EventsOfFrames;
  }

  /**
   * A request drained through the tee. Its list is always in order and within the cap; it is the body's own timeline
   * when that fits, and its events are within the validator's bounds whenever the body's are.
   */
  method TeeRequest(body: Body) returns (events: seq<StreamEvent>)
    requires HttpBody(body) && BytesOf(body.frames) <= U64_MAX
    requires body.ending.Broken? ==> body.ending.category == "other" && body.ending.phase == "body"
    ensures InOrder(events) && |events| <= MAX_EVENTS_PER_DIRECTION
    ensures |EventsOf(body)| <= MAX_EVENTS_PER_DIRECTION ==> events == EventsOf(body)
    ensures BodyBounded(body) ==> AllBounded(events)
  {
    hide TrailerFields;
    var fs := body.frames;
    var tee := new TeeStream();
    var n := 0;
    while n < |fs| && !tee.done
      invariant fresh(tee) && tee.Valid()
      invariant Drained(body, n, tee.events, tee.done, tee.frames)
      decreases |fs| - n
    {
      assert Consistent(tee.events, tee.offset, false, tee.frames);
      hide *;
      DrainedStep(body, n, tee.events, tee.offset, tee.frames);
      var _ := tee.PollNext(Ready(fs[n], false));
      n := n + 1;
    }
    assert fs[..|fs|] == fs;
    hide Consistent, Progress, BytesOf, EventsOf, HttpFrames, InOrder, AllBounded;
    events := PollEnding(tee, body);
  }

  /** The poll that finds the end of the body. */
  method PollEnding(tee: TeeStream, body: Body) returns (events: seq<StreamEvent>)
    requires tee.Valid() && Progress(body, tee.events, tee.done) && (!tee.done ==> tee.frames == body.frames)
    requires HttpBody(body)
    requires body.ending.Broken? ==> body.ending.category == "other" && body.ending.phase == "body"
    modifies tee
    ensures InOrder(events) && |events| <= MAX_EVENTS_PER_DIRECTION
    ensures |EventsOf(body)| <= MAX_EVENTS_PER_DIRECTION ==> events == EventsOf(body)
    ensures BodyBounded(body) ==> AllBounded(events)
  {
    ghost var before, done := tee.events, tee.done;
    var poll := match body.ending case Finished(now) => Exhausted(now) case Broken(now, _, _) => Errored(now);
    hide BytesOf, EventsOfFrames, HttpFrames, InOrder, DataEnd, LastNow, Tracks, AllBounded;
    var _ := tee.PollNext(poll);
    events := tee.events;
    if !done {
      FinalEvent(body, before);
    }
  }

  /** The terminal event completes the body's timeline if there is room, and is dropped otherwise. */
  lemma FinalEvent(body: Body, before: seq<StreamEvent>)
    requires Tracks(before, body.frames, |body.frames|) && Progress(body, before, false)
    ensures |EventsOf(body)| <= MAX_EVENTS_PER_DIRECTION ==> AfterPush(before, EndingEvent(body)) == EventsOf(body)
    ensures BodyBounded(body) ==> AllBounded(AfterPush(before, EndingEvent(body)))
  {
    assert body.frames[..|body.frames|] == body.frames;
    if BodyBounded(body) {
      assert EventsOf(body)[|EventsOf(body)| - 1] == EndingEvent(body);
      PushKeepsBounds(before, EndingEvent(body));
    }
    hide Laid, EventsOfFrames;
  }

  // ---------- Any history of polls ----------

  function Staged(polls: seq<Polled>): seq<Timed>
  {
    if polls == [] then [] else Staged(polls[..|polls| - 1]) + StagedBy(polls[|polls| - 1])
  }

  predicate LegalPolls(polls: seq<Polled>)
  {
    forall i :: 0 <= i < |polls| ==> MayAnswer(Staged(polls[..i]), polls[i])
  }

  /** What the poll contributes to the list is within the validator's bounds. */
  predicate PollBounded(p: Polled)
  {
    match p
    case Pending => true
    case Exhausted(now) => now <= MAX_DELAY_NS
    case Errored(now) => now <= MAX_DELAY_NS
    case Ready(f, _) => AllBounded(FrameEvent(f, 0))
  }

  predicate PollsBounded(polls: seq<Polled>)
  {
    forall p :: p in polls ==> PollBounded(p)
  }

  lemma PollKeepsBounds(es: seq<StreamEvent>, p: Polled, offset: nat)
    requires AllBounded(es) && PollBounded(p)
    ensures AllBounded(AfterPoll(es, offset, p))
  {
    match p
    case Pending =>
    case Exhausted(now) => PushKeepsBounds(es, StreamEvent(now, End));
    case Errored(now) => PushKeepsBounds(es, StreamEvent(now, Error(offset, "other", "body")));
    case Ready(f, _) =>
      if FrameEvent(f, offset) != [] {
        assert FrameEvent(f, 0)[0] in FrameEvent(f, 0);
        PushKeepsBounds(es, FrameEvent(f, offset)[0]);
      }
  }

  /** What the first `n` polls have established. */
  predicate Polls(polls: seq<Polled>, n: nat, events: seq<StreamEvent>, done: bool, frames: seq<Timed>)
  {
    && n <= |polls|
    && (!done ==> frames == Staged(polls[..n]))
    && (PollsBounded(polls) ==> AllBounded(events))
  }

  lemma PollStep(polls: seq<Polled>, n: nat, events: seq<StreamEvent>, offset: nat, frames: seq<Timed>)
    requires n < |polls| && LegalPolls(polls) && Polls(polls, n, events, false, frames)
    ensures MayAnswer(frames, polls[n])
    ensures Polls(polls, n + 1, AfterPoll(events, offset, polls[n]), Ends(events, polls[n]),
                  frames + StagedBy(polls[n]))
  {
    assert MayAnswer(Staged(polls[..n]), polls[n]);
    assert polls[..n + 1][..n] == polls[..n];
    hide AllBounded, AfterPoll, MayAnswer, StagedBy, LegalPolls;
    if PollsBounded(polls) {
      PollKeepsBounds(events, polls[n], offset);
    }
  }

  /** What the consumer of the request sees of one answer of the inner body. */
  predicate Relays(p: Polled, item: Item)
  {
    match item
    case NotReady => p.Pending?
    case NoMore => p.Exhausted?
    case Forwarded(frame) => p.Ready? && p.frame.frame == frame && !(frame.DataFrame? && p.sinkFails)
    case Failed => p.Errored? || (p.Ready? && (p.frame.frame.TrailersFrame? || (p.frame.frame.DataFrame? && p.sinkFails)))
  }

  lemma AnswerRelays(es: seq<StreamEvent>, p: Polled)
    ensures Relays(p, Answer(es, p))
    ensures Answer(es, p).Failed? && p.Ready? && !p.sinkFails ==> |es| == MAX_EVENTS_PER_DIRECTION
    ensures if Ends(es, p) then Answer(es, p).NoMore? || Answer(es, p).Failed?
            else !Answer(es, p).NoMore? && (Answer(es, p).Failed? ==> RefusedBySink(p))
  {
  }

  /** A data frame that the sink refuses. */
  predicate RefusedBySink(p: Polled)
  {
    p.Ready? && p.frame.frame.DataFrame? && p.sinkFails
  }

  /**
   * The items answer the first polls, one by one; all of them unless the stream is over. Until it is over nothing
   * fails but data that the sink refuses.
   */
  predicate Relayed(polls: seq<Polled>, items: seq<Item>, over: bool)
  {
    && |items| <= |polls|
    && (forall i :: 0 <= i < |items| ==> Relays(polls[i], items[i]))
    && (over ==> items != [] && (items[|items| - 1].NoMore? || items[|items| - 1].Failed?))
    && (forall i :: 0 <= i < (if over then |items| - 1 else |items|) ==>
          !items[i].NoMore? && (items[i].Failed? ==> RefusedBySink(polls[i])))
  }

  lemma NothingRelayed(polls: seq<Polled>)
    ensures Relayed(polls, [], false)
  {
  }

  lemma RelayStep(polls: seq<Polled>, items: seq<Item>, es: seq<StreamEvent>)
    requires Relayed(polls, items, false) && |items| < |polls|
    ensures var p := polls[|items|]; Relayed(polls, items + [Answer(es, p)], Ends(es, p))
  {
    AnswerRelays(es, polls[|items|]);
    hide Answer, Ends, Relays;
  }

  /**
   * A request polled in any way: its sink may refuse data, and it may be given up before its end. The list is always
   * in order and within the cap, and valid whenever what was polled is within the validator's bounds. Up to the end of
   * the stream the consumer sees every answer of the inner body, unchanged and in order: a frame fails only when the
   * sink refuses its data or, with that very failure ending the stream, when trailers find the list full.
   */
  method TeePolls(polls: seq<Polled>) returns (events: seq<StreamEvent>, items: seq<Item>)
    requires LegalPolls(polls)
    ensures InOrder(events) && |events| <= MAX_EVENTS_PER_DIRECTION
    ensures PollsBounded(polls) ==> ValidDirection(events)
    ensures Relayed(polls, items, |items| < |polls|) || Relayed(polls, items, true)
  {
    hide TrailerFields, Relayed;
    var tee := new TeeStream();
    var n := 0;
    items := [];
    NothingRelayed(polls);
    while n < |polls| && !tee.done
      invariant fresh(tee) && tee.Valid()
      invariant Polls(polls, n, tee.events, tee.done, tee.frames)
      invariant |items| == n && Relayed(polls, items, tee.done)
      decreases |polls| - n
    {
      hide *;
      PollStep(polls, n, tee.events, tee.offset, tee.frames);
      RelayStep(polls, items, tee.events);
      var item := tee.PollNext(polls[n]);
      items := items + [item];
      n := n + 1;
    }
    events := tee.events;
    hide PollsBounded, LegalPolls, BytesOf, EventsOfFrames, HttpFrames, AllBounded, DataEnd, Tracks, Staged;
  }

  /**
   * Recording one flow: the request through the tee, however it was polled, the response through the frame loop, and
   * the rewrite to the length of the stored response body. `storedLength` is that length, after redaction; an empty
   * body is stored empty, so the rewrite always has data to replace.
   * Whatever the number and size of frames, a flow that records passes the validator, and its response data lengths
   * sum to the stored length.
   */
  method RecordFlow(request: seq<Polled>, response: Body, maxBlobBytes: nat, storedLength: nat)
    returns (ok: bool, requestEvents: seq<StreamEvent>, responseEvents: seq<StreamEvent>)
    requires LegalPolls(request)
    requires HttpBody(response) && maxBlobBytes <= U64_MAX && storedLength <= U64_MAX
    requires BytesOf(response.frames) == 0 ==> storedLength == 0
    ensures ok <==> |EventsOf(response)| <= MAX_EVENTS_PER_DIRECTION && BytesOf(response.frames) <= maxBlobBytes
    ensures ok && PollsBounded(request) && BodyBounded(response) ==> ValidFlow(requestEvents, responseEvents)
    ensures ok ==> DataTotal(responseEvents) == storedLength
  {
    var items;
    requestEvents, items := TeePolls(request);
    hide LegalPolls, PollsBounded;
    var recorded, written;
    ok, recorded, written := RecordResponse(response, maxBlobBytes);
    responseEvents := recorded;
    if ok {
      responseEvents := Reconcile(recorded, Response(Some(storedLength)));
      if BytesOf(response.frames) > 0 {
        BytesNeedData(recorded);
      }
      ReconciledTotal(recorded, storedLength);
      ReconciledNotLonger(recorded, storedLength);
      if BodyBounded(response) {
        ReconciledValidIff(recorded, storedLength);
      }
    }
    hide BytesOf, EventsOf, InOrder, AllBounded, DataTotal, DataEnd, HasData, Reconciled;
  }
}
