/**
 * Stream timelines: the validator of one flow's events (crates/eggreplay-core/src/stream.rs) and the capped list they
 * are pushed into (crates/eggreplay-http/src/recording.rs).
 */
module StreamTimeline {
  import opened Prelude

  datatype EventKind =
    | Data(offset: nat, length: nat)
    | Trailers(fields: seq<HeaderEntry>)
    | End
    | Error(at: nat, category: string, phase: string)

  datatype StreamEvent = StreamEvent(deltaNs: nat, event: EventKind)

  const MAX_EVENTS_PER_FLOW: nat := 4096
  const MAX_EVENTS_PER_DIRECTION: nat := MAX_EVENTS_PER_FLOW / 2
  const MAX_DELAY_NS: nat := 60_000_000_000

  // ---------- What a valid direction is ----------

  predicate Terminal(e: StreamEvent)
  {
    e.event.End? || e.event.Error?
  }

  predicate SawTrailers(es: seq<StreamEvent>)
  {
    exists i :: 0 <= i < |es| && es[i].event.Trailers?
  }

  /** The body offset after the last Data event. */
  function DataEnd(es: seq<StreamEvent>): nat
  {
    if es == [] then 0
    else
      match es[|es| - 1].event
      case Data(offset, length) => SatAdd(offset, length)
      case _ => DataEnd(es[..|es| - 1])
  }

  predicate FieldsFit(fields: seq<HeaderEntry>)
  {
    |fields| <= 256 && forall f :: f in fields ==> |f.name| <= 256 && |f.value| <= 8192
  }

  /** The event's own bounds: what does not depend on its place in the list. */
  predicate Bounded(e: StreamEvent)
  {
    && e.deltaNs <= MAX_DELAY_NS
    && match e.event
       case Data(_, length) => length > 0
       case Trailers(fields) => FieldsFit(fields)
       case End => true
       case Error(_, category, phase) => |category| <= 64 && |phase| <= 64
  }

  /** Event `e` continues the events `es`: order, contiguous offsets, trailers after data, nothing after the terminal. */
  predicate Continues(es: seq<StreamEvent>, e: StreamEvent)
  {
    && (es == [] || es[|es| - 1].deltaNs <= e.deltaNs)
    && (es == [] || !Terminal(es[|es| - 1]))
    && match e.event
       case Data(offset, _) => !SawTrailers(es) && offset == DataEnd(es)
       case Trailers(_) => !SawTrailers(es)
       case End => true
       case Error(at, _, _) => at == DataEnd(es)
  }

  predicate InOrder(es: seq<StreamEvent>)
  {
    forall i :: 0 <= i < |es| ==> Continues(es[..i], es[i])
  }

  predicate AllBounded(es: seq<StreamEvent>)
  {
    forall e :: e in es ==> Bounded(e)
  }

  predicate ValidDirection(es: seq<StreamEvent>)
  {
    InOrder(es) && AllBounded(es)
  }

  predicate ValidFlow(request: seq<StreamEvent>, response: seq<StreamEvent>)
  {
    |request| + |response| <= MAX_EVENTS_PER_FLOW && ValidDirection(request) && ValidDirection(response)
  }

  // ---------- Extending a list by one event ----------

  lemma TrailersStep(es: seq<StreamEvent>, e: StreamEvent)
    ensures SawTrailers(es + [e]) <==> SawTrailers(es) || e.event.Trailers?
  {
    if SawTrailers(es) {
      var i :| 0 <= i < |es| && es[i].event.Trailers?;
      assert (es + [e])[i] == es[i];
    }
    assert (es + [e])[|es|] == e;
  }

  lemma DataEndStep(es: seq<StreamEvent>, e: StreamEvent)
    ensures DataEnd(es + [e]) == if e.event.Data? then SatAdd(e.event.offset, e.event.length) else DataEnd(es)
  {
  }

  lemma InOrderStep(es: seq<StreamEvent>, e: StreamEvent)
    ensures InOrder(es + [e]) <==> InOrder(es) && Continues(es, e)
  {
    var g := es + [e];
    assert g[..|es|] == es && g[|es|] == e;
    assert forall i :: 0 <= i < |es| ==> g[..i] == es[..i] && g[i] == es[i];
    if InOrder(g) {
      assert Continues(g[..|es|], g[|es|]);
      forall i | 0 <= i < |es|
        ensures Continues(es[..i], es[i])
      {
        assert Continues(g[..i], g[i]);
      }
    }
  }

  // ---------- The validator ----------

  /** The validator's loop over one direction. */
  method ValidateDirection(es: seq<StreamEvent>) returns (ok: bool)
    ensures ok <==> ValidDirection(es)
  {
    var lastDelta, lastOffset, terminal, trailersSeen := 0, 0, false, false;
    for i := 0 to |es|
      invariant lastDelta == if i == 0 then 0 else es[i - 1].deltaNs
      invariant terminal == (i > 0 && Terminal(es[i - 1]))
      invariant lastOffset == DataEnd(es[..i])
      invariant trailersSeen == SawTrailers(es[..i])
      invariant ValidDirection(es[..i])
    {
      var e := es[i];
      assert es[..i + 1] == es[..i] + [e];
      InOrderStep(es[..i], e);
      TrailersStep(es[..i], e);
      DataEndStep(es[..i], e);
      hide InOrder, SawTrailers, DataEnd, FieldsFit;
      var fits := !terminal && e.deltaNs >= lastDelta && e.deltaNs <= MAX_DELAY_NS;
      lastDelta := e.deltaNs;
      match e.event {
        case Data(offset, length) =>
          fits := fits && !trailersSeen && offset == lastOffset && length != 0;
          lastOffset := SatAdd(offset, length);
        case Error(at, category, phase) =>
          fits := fits && at == lastOffset && |category| <= 64 && |phase| <= 64;
          terminal := true;
        case Trailers(fields) =>
          fits := fits && !trailersSeen && FieldsFit(fields);
          trailersSeen := true;
        case End =>
          terminal := true;
      }
      if !fits {
        InvalidPrefix(es, i);
        return false;
      }
    }
    assert es[..|es|] == es;
    return true;
  }

  lemma InvalidPrefix(es: seq<StreamEvent>, i: nat)
    requires i < |es| && !(Continues(es[..i], es[i]) && Bounded(es[i]))
    ensures !ValidDirection(es)
  {
  }

  method ValidateFlow(request: seq<StreamEvent>, response: seq<StreamEvent>) returns (ok: bool)
    ensures ok <==> ValidFlow(request, response)
  {
    if |request| + |response| > MAX_EVENTS_PER_FLOW {
      return false;
    }
    ok := ValidateDirection(request);
    if ok {
      ok := ValidateDirection(response);
    }
  }

  /** A flow the validator accepts is bounded, in numbers. */
  lemma ValidFlowLimits(request: seq<StreamEvent>, response: seq<StreamEvent>, e: StreamEvent)
    requires ValidFlow(request, response) && (e in request || e in response)
    ensures |request| + |response| <= 4096
    ensures e.deltaNs <= 60_000_000_000
    ensures e.event.Data? ==> e.event.length > 0
    ensures e.event.Trailers? ==>
      |e.event.fields| <= 256 && forall f :: f in e.event.fields ==> |f.name| <= 256 && |f.value| <= 8192
    ensures e.event.Error? ==> |e.event.category| <= 64 && |e.event.phase| <= 64
  {
    hide InOrder;
    assert Bounded(e);
  }

  // ---------- The capped list ----------

  /** The list after a push, or `None` when the push is refused. */
  function Pushed(es: seq<StreamEvent>, e: StreamEvent): Option<seq<StreamEvent>>
  {
    if e.event.Data? && e.event.length == 0 then Some(es)
    else if |es| < MAX_EVENTS_PER_DIRECTION then Some(es + [e])
    else if Absorbs(es, e) then
      var last := es[|es| - 1];
      Some(es[..|es| - 1] + [Merged(last, e)])
    else None
  }

  predicate Absorbs(es: seq<StreamEvent>, e: StreamEvent)
  {
    && es != []
    && es[|es| - 1].event.Data?
    && e.event.Data?
    && SatAdd(es[|es| - 1].event.offset, es[|es| - 1].event.length) == e.event.offset
  }

  /** `push_stream_event_inner`: append, coalesce contiguous data at the cap, or refuse. */
  method Push(events: seq<StreamEvent>, e: StreamEvent) returns (ok: bool, after: seq<StreamEvent>)
    ensures ok <==> Pushed(events, e).Some?
    ensures after == if ok then Pushed(events, e).value else events
  {
    after := events;
    if e.event.Data? && e.event.length == 0 {
      return true, after;
    }
    if |after| < MAX_EVENTS_PER_DIRECTION {
      after := after + [e];
      return true, after;
    }
    if |after| > 0 && after[|after| - 1].event.Data? && e.event.Data? {
      var last := after[|after| - 1];
      if SatAdd(last.event.offset, last.event.length) == e.event.offset {
        after := after[|after| - 1 := last.(event := Data(last.event.offset, SatAdd(last.event.length, e.event.length)))];
        return true, after;
      }
    }
    return false, after;
  }

  /** A push of an event that continues the list keeps the list in order and moves its end by the event's length. */
  lemma PushKeepsOrder(es: seq<StreamEvent>, e: StreamEvent)
    requires InOrder(es) && |es| <= MAX_EVENTS_PER_DIRECTION && Continues(es, e)
    requires e.event.Data? ==> DataEnd(es) + e.event.length <= U64_MAX
    ensures e.event.Data? ==> Pushed(es, e).Some?
    ensures Pushed(es, e).Some? ==>
      var after := Pushed(es, e).value;
      && InOrder(after)
      && |after| <= MAX_EVENTS_PER_DIRECTION
      && DataEnd(after) == DataEnd(es) + (if e.event.Data? then e.event.length else 0)
      && (SawTrailers(after) <==> SawTrailers(es) || e.event.Trailers?)
  {
    if e.event.Data? && e.event.length == 0 {
    } else if |es| < MAX_EVENTS_PER_DIRECTION {
      InOrderStep(es, e);
      DataEndStep(es, e);
      TrailersStep(es, e);
    } else if e.event.Data? {
      AbsorbAtCap(es, e);
      hide InOrder, SawTrailers, DataEnd, Continues;
    }
  }

  lemma AbsorbAtCap(es: seq<StreamEvent>, e: StreamEvent)
    requires InOrder(es) && |es| == MAX_EVENTS_PER_DIRECTION && Continues(es, e) && e.event.Data? && e.event.length > 0
    requires DataEnd(es) + e.event.length <= U64_MAX
    ensures Pushed(es, e).Some?
    ensures var after := Pushed(es, e).value;
            InOrder(after) && |after| == |es| && DataEnd(after) == DataEnd(es) + e.event.length && !SawTrailers(after)
  {
    hide InOrder, SawTrailers, DataEnd, Continues;
    var front, last := es[..|es| - 1], es[|es| - 1];
    assert es == front + [last];
    AbsorbKeepsOrder(front, last, e);
  }

  /** The last event when contiguous data has been added to it. */
  function Merged(last: StreamEvent, e: StreamEvent): StreamEvent
    requires last.event.Data? && e.event.Data?
  {
    StreamEvent(last.deltaNs, Data(last.event.offset, SatAdd(last.event.length, e.event.length)))
  }

  /** Lengthening the last Data event by contiguous data keeps the order. */
  lemma AbsorbKeepsOrder(front: seq<StreamEvent>, last: StreamEvent, e: StreamEvent)
    requires InOrder(front + [last]) && Continues(front + [last], e) && e.event.Data?
    requires DataEnd(front + [last]) + e.event.length <= U64_MAX
    ensures last.event.Data? && SatAdd(last.event.offset, last.event.length) == e.event.offset
    ensures var after := front + [Merged(last, e)];
            && InOrder(after)
            && DataEnd(after) == DataEnd(front + [last]) + e.event.length
            && !SawTrailers(after)
  {
    LastIsData(front, last, e);
    hide InOrder, SawTrailers, DataEnd;
    InOrderStep(front, last);
    DataEndStep(front, last);
    TrailersStep(front, last);
    InOrderStep(front, Merged(last, e));
    DataEndStep(front, Merged(last, e));
    TrailersStep(front, Merged(last, e));
  }

  /** Data can only continue a list that ends in data: it follows neither trailers nor a terminal. */
  lemma LastIsData(front: seq<StreamEvent>, last: StreamEvent, e: StreamEvent)
    requires Continues(front + [last], e) && e.event.Data?
    ensures last.event.Data?
  {
    hide DataEnd, SawTrailers;
    TrailersStep(front, last);
    assert (front + [last])[|front|] == last;
  }

  /**
   * A push keeps all events but the last as they are. On a full list the last keeps its time and its first byte, and
   * reaches to the end of the new data.
   */
  lemma PushKeepsEvents(es: seq<StreamEvent>, e: StreamEvent)
    requires Pushed(es, e).Some? && !(e.event.Data? && e.event.length == 0)
    ensures
      var after, n := Pushed(es, e).value, |es|;
      if n < MAX_EVENTS_PER_DIRECTION then after == es + [e]
      else
        && |after| == n
        && after[..n - 1] == es[..n - 1]
        && after[n - 1].deltaNs == es[n - 1].deltaNs
        && after[n - 1].event.Data? && es[n - 1].event.Data? && e.event.Data?
        && after[n - 1].event.offset == es[n - 1].event.offset
        && (e.event.offset + e.event.length <= U64_MAX ==>
              after[n - 1].event.offset + after[n - 1].event.length == e.event.offset + e.event.length)
  {
  }

  lemma PushKeepsBounds(es: seq<StreamEvent>, e: StreamEvent)
    requires AllBounded(es) && Bounded(e)
    ensures Pushed(es, e).Some? ==> AllBounded(Pushed(es, e).value)
  {
    if Pushed(es, e).Some? && Absorbs(es, e) {
      assert Bounded(es[|es| - 1]);
    }
  }
}
