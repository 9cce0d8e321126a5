/**
 * The rewrite of a recorded timeline to the length of the stored, possibly redacted, response body
 * (crates/eggreplay-http/src/recording.rs).
 */
module Reconciliation {
  import opened Prelude
  import opened Listing
  import opened StreamTimeline

  function DataTotal(es: seq<StreamEvent>): nat
  {
    if es == [] then 0
    else
      var rest, e := DataTotal(es[..|es| - 1]), es[|es| - 1];
      if e.event.Data? then SatAdd(rest, e.event.length) else rest
  }

  predicate HasData(es: seq<StreamEvent>)
  {
    exists i :: 0 <= i < |es| && es[i].event.Data?
  }

  function FirstData(es: seq<StreamEvent>): (r: Option<nat>)
    ensures r.Some? ==> r.value < |es| && es[r.value].event.Data? && forall i :: 0 <= i < r.value ==> !es[i].event.Data?
    ensures r.None? ==> !HasData(es)
  {
    if es == [] then None
    else
      match FirstData(es[..|es| - 1])
      case Some(i) => Some(i)
      case None => if es[|es| - 1].event.Data? then Some(|es| - 1) else None
  }

  /** `retain` of everything but Data. */
  function WithoutData(es: seq<StreamEvent>): (r: seq<StreamEvent>)
    ensures !HasData(r)
  {
    if es == [] then []
    else if es[|es| - 1].event.Data? then WithoutData(es[..|es| - 1])
    else WithoutData(es[..|es| - 1]) + [es[|es| - 1]]
  }

  function WithErrorAt(e: StreamEvent, at: nat): StreamEvent
  {
    if e.event.Error? then e.(event := e.event.(at := at)) else e
  }

  /** Every terminal error moved to the new end of the body. */
  function MoveErrors(es: seq<StreamEvent>, at: nat): (r: seq<StreamEvent>)
    ensures |r| == |es| && forall i :: 0 <= i < |es| ==> r[i] == WithErrorAt(es[i], at)
  {
    seq(|es|, i requires 0 <= i < |es| => WithErrorAt(es[i], at))
  }

  /** All Data replaced by one event of the stored length, in the place of the first. */
  function Replaced(es: seq<StreamEvent>, expected: nat): seq<StreamEvent>
  {
    var rest := WithoutData(es);
    if expected == 0 then rest
    else
      var delta := if FirstData(es).Some? then es[FirstData(es).value].deltaNs else 0;
      var at := if FirstData(es).Some? && FirstData(es).value < |rest| then FirstData(es).value else |rest|;
      rest[..at] + [StreamEvent(delta, Data(0, expected))] + rest[at..]
  }

  /** What the rewrite makes of a list when the stored response body has `expected` bytes. */
  function Reconciled(es: seq<StreamEvent>, expected: nat): (r: seq<StreamEvent>)
  {
    if DataTotal(es) == expected then es else MoveErrors(Replaced(es, expected), expected)
  }

  /** The flow's outcome as the rewrite sees it: a response with a body of some length (absent counts 0), or an error. */
  datatype Outcome = Response(storedLength: Option<nat>) | Failure

  method Reconcile(events: seq<StreamEvent>, outcome: Outcome) returns (after: seq<StreamEvent>)
    ensures after == match outcome
                     case Response(length) => Reconciled(events, if length.Some? then length.value else 0)
                     case Failure => events
  {
    after := events;
    if outcome.Failure? {
      return;
    }
    var expected := if outcome.storedLength.Some? then outcome.storedLength.value else 0;
    if DataTotal(after) == expected {
      return;
    }
    var firstData := FirstData(after);
    var firstDelta := if firstData.Some? then after[firstData.value].deltaNs else 0;
    after := WithoutData(after);
    if expected > 0 {
      var insertAt := if firstData.Some? && firstData.value < |after| then firstData.value else |after|;
      after := after[..insertAt] + [StreamEvent(firstDelta, Data(0, expected))] + after[insertAt..];
    }
    ghost var replaced := after;
    for i := 0 to |after|
      invariant |after| == |replaced|
      invariant forall k :: 0 <= k < i ==> after[k] == WithErrorAt(replaced[k], expected)
      invariant forall k :: i <= k < |after| ==> after[k] == replaced[k]
    {
      if after[i].event.Error? {
        after := after[i := after[i].(event := after[i].event.(at := expected))];
      }
    }
    assert after == MoveErrors(replaced, expected);
  }

  // ---------- The shape of a list in order: data, then trailers, then a terminal ----------

  lemma {:induction false} Shape(es: seq<StreamEvent>) returns (k: nat)
    requires InOrder(es)
    ensures k <= |es| <= k + 2
    ensures forall i :: 0 <= i < |es| ==> (es[i].event.Data? <==> i < k)
    ensures |es| == k + 2 ==> es[k].event.Trailers? && Terminal(es[k + 1])
  {
    if es == [] {
      return 0;
    }
    var front, last := es[..|es| - 1], es[|es| - 1];
    assert es == front + [last];
    InOrderStep(front, last);
    k := Shape(front);
    if k < |front| {
      assert front[k].event.Trailers?;
      assert !last.event.Data?;
    } else if last.event.Data? {
      k := |es|;
    }
  }

  lemma {:induction false} WithoutDataIsSuffix(es: seq<StreamEvent>, k: nat)
    requires k <= |es| && forall i :: 0 <= i < |es| ==> (es[i].event.Data? <==> i < k)
    ensures WithoutData(es) == es[k..]
    ensures FirstData(es) == if k > 0 then Some(0) else None
  {
    if |es| > k {
      WithoutDataIsSuffix(es[..|es| - 1], k);
      assert es[k..] == es[..|es| - 1][k..] + [es[|es| - 1]];
    } else if k > 0 {
      WithoutDataIsSuffix(es[..|es| - 1], k - 1);
    }
  }

  lemma {:induction false} DataTotalOfOne(before: seq<StreamEvent>, d: StreamEvent, after: seq<StreamEvent>)
    requires !HasData(before) && !HasData(after) && d.event.Data? && d.event.length <= U64_MAX
    ensures DataTotal(before + [d] + after) == d.event.length
  {
    var all := before + [d] + after;
    if after != [] {
      assert all[..|all| - 1] == before + [d] + after[..|after| - 1];
      assert !after[|after| - 1].event.Data?;
      DataTotalOfOne(before, d, after[..|after| - 1]);
    } else {
      assert all[..|all| - 1] == before;
      NoDataTotal(before);
    }
  }

  lemma {:induction false} NoDataTotal(es: seq<StreamEvent>)
    requires !HasData(es)
    ensures DataTotal(es) == 0
  {
    if es != [] {
      assert !es[|es| - 1].event.Data?;
      NoDataTotal(es[..|es| - 1]);
    }
  }

  lemma {:induction false} MoveErrorsKeepsData(es: seq<StreamEvent>, at: nat)
    ensures DataTotal(MoveErrors(es, at)) == DataTotal(es)
  {
    if es != [] {
      MoveErrorsKeepsData(es[..|es| - 1], at);
      assert MoveErrors(es, at)[..|es| - 1] == MoveErrors(es[..|es| - 1], at);
    }
  }

  // ---------- What the rewrite guarantees ----------

  /** The data lengths always sum to the stored length afterwards, as opening a fixture demands. */
  lemma ReconciledTotal(es: seq<StreamEvent>, expected: nat)
    requires expected <= U64_MAX
    ensures DataTotal(Reconciled(es, expected)) == expected
  {
    if DataTotal(es) != expected {
      var rest, replaced := WithoutData(es), Replaced(es, expected);
      if expected == 0 {
        NoDataTotal(rest);
      } else {
        var at := if FirstData(es).Some? && FirstData(es).value < |rest| then FirstData(es).value else |rest|;
        DataTotalOfOne(rest[..at], replaced[at], rest[at..]);
      }
      MoveErrorsKeepsData(replaced, expected);
    }
  }

  /** Rewriting twice is rewriting once. */
  lemma ReconciledIdempotent(es: seq<StreamEvent>, expected: nat)
    requires expected <= U64_MAX
    ensures Reconciled(Reconciled(es, expected), expected) == Reconciled(es, expected)
  {
    ReconciledTotal(es, expected);
  }

  /** When the length changed, a terminal error reports the new length. */
  lemma ReconciledErrorOffset(es: seq<StreamEvent>, expected: nat, i: nat)
    requires DataTotal(es) != expected && i < |Reconciled(es, expected)|
    ensures Reconciled(es, expected)[i].event.Error? ==> Reconciled(es, expected)[i].event.at == expected
  {
  }

  /** The events that are not data, in order. */
  function OthersAt(es: seq<StreamEvent>): set<nat>
  {
    set i: nat | i < |es| && !es[i].event.Data?
  }

  lemma {:induction false} OthersKept(es: seq<StreamEvent>) returns (at: seq<nat>)
    ensures Lists(at, OthersAt(es)) && |at| == |WithoutData(es)|
    ensures forall k :: 0 <= k < |at| ==> at[k] < |es| && WithoutData(es)[k] == es[at[k]]
  {
    if es == [] {
      return [];
    }
    var n := |es| - 1;
    at := OthersKept(es[..n]);
    if es[n].event.Data? {
      assert OthersAt(es) == OthersAt(es[..n]);
    } else {
      ListsMore(at, OthersAt(es[..n]), n, OthersAt(es));
      at := at + [n];
    }
  }

  /** Equal but for the offset of an error, which is the new length. */
  predicate MovedTo(before: StreamEvent, after: StreamEvent, expected: nat)
  {
    && after.deltaNs == before.deltaNs
    && match before.event
       case Error(_, category, phase) => after.event == Error(expected, category, phase)
       case _ => after.event == before.event
  }

  /** Event `k` is the only data: all of the new length, at the time of the first data before, if there was any. */
  predicate OnlyData(es: seq<StreamEvent>, after: seq<StreamEvent>, expected: nat, k: nat)
  {
    && k < |after|
    && after[k].event == Data(0, expected)
    && (HasData(es) ==> exists i :: 0 <= i < |es| && es[i].event.Data? && after[k].deltaNs == es[i].deltaNs
                                    && forall j :: 0 <= j < i ==> !es[j].event.Data?)
    && (!HasData(es) ==> after[k].deltaNs == 0)
  }

  /**
   * What a rewrite does, event by event: `at` lists the events that are not data. They keep their order, time and
   * contents, except that errors report the new length; one data event stands for all data before, if any is left.
   */
  lemma RewriteKeepsOthers(es: seq<StreamEvent>, expected: nat) returns (at: seq<nat>, k: nat)
    requires DataTotal(es) != expected
    ensures Lists(at, OthersAt(es)) && k <= |at|
    ensures
      var after := Reconciled(es, expected);
      && |after| == |at| + (if expected == 0 then 0 else 1)
      && (forall i :: 0 <= i < k ==> at[i] < |es| && MovedTo(es[at[i]], after[i], expected))
      && (forall i :: k <= i < |at| ==>
            at[i] < |es| && MovedTo(es[at[i]], after[i + if expected == 0 then 0 else 1], expected))
      && (expected > 0 ==> OnlyData(es, after, expected, k))
  {
    at := OthersKept(es);
    k := Place(es);
    var replaced := Replaced(es, expected);
    ReplacedAround(es, expected);
    hide WithoutData, DataTotal, Replaced, HasData, FirstData, Lists, Place;
    forall i | 0 <= i < |replaced|
      ensures MovedTo(replaced[i], Reconciled(es, expected)[i], expected)
    {
    }
    if expected > 0 {
      InsertedData(es, expected);
    }
  }

  /** Where the new data goes. */
  function Place(es: seq<StreamEvent>): (k: nat)
    ensures k <= |WithoutData(es)|
  {
    if FirstData(es).Some? && FirstData(es).value < |WithoutData(es)| then FirstData(es).value else |WithoutData(es)|
  }

  lemma ReplacedAround(es: seq<StreamEvent>, expected: nat)
    ensures
      var rest, replaced, shift := WithoutData(es), Replaced(es, expected), if expected == 0 then 0 else 1;
      && |replaced| == |rest| + shift
      && (forall i :: 0 <= i < Place(es) ==> replaced[i] == rest[i])
      && forall i :: Place(es) <= i < |rest| ==> replaced[i + shift] == rest[i]
  {
    hide WithoutData, FirstData;
  }

  lemma InsertedData(es: seq<StreamEvent>, expected: nat)
    requires DataTotal(es) != expected && expected > 0
    ensures OnlyData(es, Reconciled(es, expected), expected, Place(es))
  {
    var k := Place(es);
    ReplacedAround(es, expected);
    var first := FirstData(es);
    assert Replaced(es, expected)[k].event == Data(0, expected);
    assert Replaced(es, expected)[k].deltaNs == if first.Some? then es[first.value].deltaNs else 0;
    assert first.Some? ==> es[first.value].event.Data?;
    hide WithoutData, FirstData, DataTotal, Replaced, Place;
  }

  /** In a list in order the data lengths add up to the end of the data. */
  lemma {:induction false} DataTotalIsEnd(es: seq<StreamEvent>)
    requires InOrder(es)
    ensures DataTotal(es) == DataEnd(es)
  {
    if es != [] {
      var front, last := es[..|es| - 1], es[|es| - 1];
      assert es == front + [last];
      InOrderStep(front, last);
      DataTotalIsEnd(front);
    }
  }

  lemma NotLastNotTerminal(es: seq<StreamEvent>, i: nat)
    requires InOrder(es) && i + 1 < |es|
    ensures !Terminal(es[i])
  {
    assert Continues(es[..i + 1], es[i + 1]);
    assert es[..i + 1][i] == es[i];
  }

  /** A list in order ends in its only terminal event, and an error there reports all the data there was. */
  lemma TerminalIsLast(es: seq<StreamEvent>, i: nat)
    requires InOrder(es) && i < |es| && Terminal(es[i])
    ensures i == |es| - 1
    ensures es[i].event.Error? ==> es[i].event.at == DataTotal(es)
  {
    hide DataEnd;
    if i + 1 < |es| {
      NotLastNotTerminal(es, i);
      assert false;
    }
    DataTotalIsEnd(es);
    assert es == es[..i] + [es[i]];
    InOrderStep(es[..i], es[i]);
    DataEndStep(es[..i], es[i]);
  }

  /** The rewrite has a place to put the data: it keeps the list valid exactly then. */
  predicate Rewritable(es: seq<StreamEvent>, expected: nat)
  {
    DataTotal(es) == expected || expected == 0 || HasData(es) || es == []
  }

  /**
   * A valid timeline stays valid under the rewrite if and only if the length is unchanged, the new length is 0, there
   * was a Data event to replace, or the list is empty: otherwise the new Data event lands after the trailers or the
   * terminal event.
   */
  lemma ReconciledValidIff(es: seq<StreamEvent>, expected: nat)
    requires ValidDirection(es) && expected <= U64_MAX
    ensures ValidDirection(Reconciled(es, expected)) <==> Rewritable(es, expected)
  {
    hide ValidDirection, DataTotal, HasData, Replaced, WithoutData, FirstData;
    if DataTotal(es) != expected {
      if es == [] {
        RewrittenEmpty(expected);
      } else if Rewritable(es, expected) {
        RewrittenFull(es, expected);
      } else {
        MisplacedData(es, expected);
      }
    }
  }

  lemma RewrittenEmpty(expected: nat)
    requires expected <= U64_MAX
    ensures ValidDirection(Reconciled([], expected))
  {
    var d := StreamEvent(0, Data(0, expected));
    assert DataTotal([]) == 0 && WithoutData([]) == [] && FirstData([]) == None;
    hide DataTotal, WithoutData, FirstData, InOrder, DataEnd, SawTrailers;
    assert Replaced([], expected) == if expected == 0 then [] else [d];
    if expected > 0 {
      assert MoveErrors([d], expected) == [] + [d];
      OneDataValid(d);
    } else {
      assert Reconciled([], expected) == [];
    }
  }

  lemma OneDataValid(d: StreamEvent)
    requires d.event.Data? && d.event.offset == 0 && d.event.length > 0 && d.deltaNs <= MAX_DELAY_NS
    ensures ValidDirection([] + [d])
  {
    assert InOrder([]) && DataEnd([]) == 0 && !SawTrailers([]);
    hide InOrder, DataEnd, SawTrailers;
    InOrderStep([], d);
    assert Bounded(d);
  }

  lemma RewrittenFull(es: seq<StreamEvent>, expected: nat)
    requires ValidDirection(es) && expected <= U64_MAX && DataTotal(es) != expected
    requires expected == 0 || HasData(es)
    ensures ValidDirection(Reconciled(es, expected))
  {
    var k := Shape(es);
    hide ValidDirection, WithoutData, FirstData, DataTotal, Replaced, HasData;
    var head := ReplacedHead(es, k, expected);
    RewrittenValid(es, k, head, expected);
  }

  lemma ReplacedHead(es: seq<StreamEvent>, k: nat, expected: nat) returns (head: seq<StreamEvent>)
    requires k <= |es| && forall i :: 0 <= i < |es| ==> (es[i].event.Data? <==> i < k)
    requires expected == 0 || HasData(es)
    ensures expected > 0 ==> k > 0
    ensures head == if expected == 0 then [] else [StreamEvent(es[0].deltaNs, Data(0, expected))]
    ensures Replaced(es, expected) == head + es[k..]
  {
    assert HasData(es) ==> k > 0;
    WithoutDataIsSuffix(es, k);
    hide WithoutData, FirstData, HasData;
    head := if expected == 0 then [] else [StreamEvent(es[0].deltaNs, Data(0, expected))];
  }

  /** One Data event (or none) of the new length, followed by the moved trailers and terminal, is valid. */
  lemma RewrittenValid(es: seq<StreamEvent>, k: nat, head: seq<StreamEvent>, expected: nat)
    requires ValidDirection(es) && k <= |es| <= k + 2 && expected <= U64_MAX
    requires forall i :: 0 <= i < |es| ==> (es[i].event.Data? <==> i < k)
    requires |es| == k + 2 ==> es[k].event.Trailers? && Terminal(es[k + 1])
    requires expected == 0 ==> head == []
    requires expected > 0 ==> k > 0 && head == [StreamEvent(es[0].deltaNs, Data(0, expected))]
    ensures ValidDirection(MoveErrors(head + es[k..], expected))
  {
    hide AllBounded, InOrder, DataEnd, SawTrailers, FieldsFit;
    RewrittenBounded(es, k, head, expected);
    var after := MoveErrors(head + es[k..], expected);
    Monotone(es);
    TailContinues(es, k);
    HeadInOrder(head, expected);
    if k < |es| {
      var first := WithErrorAt(es[k], expected);
      InOrderStep(head, first);
      DataEndStep(head, first);
      TrailersStep(head, first);
      if k + 1 < |es| {
        var second := WithErrorAt(es[k + 1], expected);
        InOrderStep(head + [first], second);
        assert after == head + [first] + [second];
      } else {
        assert after == head + [first];
      }
    } else {
      assert after == head;
    }
  }

  lemma RewrittenBounded(es: seq<StreamEvent>, k: nat, head: seq<StreamEvent>, expected: nat)
    requires AllBounded(es) && k <= |es|
    requires head == [] || (|es| > 0 && expected > 0 && head == [StreamEvent(es[0].deltaNs, Data(0, expected))])
    ensures AllBounded(MoveErrors(head + es[k..], expected))
  {
    var after := MoveErrors(head + es[k..], expected);
    forall e | e in after
      ensures Bounded(e)
    {
      var i :| 0 <= i < |after| && after[i] == e;
      assert Bounded(if i < |head| then es[0] else es[k + i - |head|]);
    }
  }

  lemma HeadInOrder(head: seq<StreamEvent>, expected: nat)
    requires expected == 0 ==> head == []
    requires expected > 0 ==> |head| == 1 && head[0].event == Data(0, expected) && expected <= U64_MAX
    ensures InOrder(head) && DataEnd(head) == expected && !SawTrailers(head)
  {
  }

  /** What follows the data is trailers, a terminal, or trailers and a terminal. */
  lemma TailContinues(es: seq<StreamEvent>, k: nat)
    requires InOrder(es) && k <= |es|
    requires forall i :: 0 <= i < |es| ==> (es[i].event.Data? <==> i < k)
    ensures k < |es| ==> es[k].event.Trailers? || Terminal(es[k])
    ensures k + 1 < |es| ==> !Terminal(es[k]) && !(es[k].event.Trailers? && es[k + 1].event.Trailers?)
  {
    if k + 1 < |es| {
      assert Continues(es[..k + 1], es[k + 1]);
      assert es[..k + 1][k] == es[k];
    }
  }

  lemma {:induction false} Monotone(es: seq<StreamEvent>)
    requires InOrder(es)
    ensures forall i, j :: 0 <= i <= j < |es| ==> es[i].deltaNs <= es[j].deltaNs
  {
    if es != [] {
      var front, last := es[..|es| - 1], es[|es| - 1];
      assert es == front + [last];
      InOrderStep(front, last);
      Monotone(front);
    }
  }

  /** Without a Data event to replace, new data goes after the trailers or the terminal and breaks the order. */
  lemma MisplacedData(es: seq<StreamEvent>, expected: nat)
    requires es != [] && !HasData(es) && expected > 0 && DataTotal(es) != expected
    ensures !ValidDirection(Reconciled(es, expected))
  {
  }

  /** A valid timeline that the rewrite makes invalid: no data, only an end, and one byte to place. */
  lemma EndOnlyMisplaced()
    ensures var es := [StreamEvent(0, End)];
            ValidDirection(es) && !ValidDirection(Reconciled(es, 1))
  {
    var es := [StreamEvent(0, End)];
    NoDataTotal(es);
    assert es == [] + es;
    InOrderStep([], es[0]);
    MisplacedData(es, 1);
  }

  /** The rewrite never lengthens a timeline that has somewhere to put the data. */
  lemma ReconciledNotLonger(es: seq<StreamEvent>, expected: nat)
    requires HasData(es) || expected == 0
    ensures |Reconciled(es, expected)| <= |es|
  {
    WithoutDataShorter(es);
    hide WithoutData;
  }

  lemma {:induction false} WithoutDataShorter(es: seq<StreamEvent>)
    ensures |WithoutData(es)| + (if HasData(es) then 1 else 0) <= |es|
  {
    if es != [] {
      var front := es[..|es| - 1];
      WithoutDataShorter(front);
      if HasData(es) && !es[|es| - 1].event.Data? {
        var i :| 0 <= i < |es| && es[i].event.Data?;
        assert front[i].event.Data?;
      }
    }
  }

  lemma {:induction false} BytesNeedData(es: seq<StreamEvent>)
    requires DataEnd(es) > 0
    ensures HasData(es)
  {
    if !es[|es| - 1].event.Data? {
      BytesNeedData(es[..|es| - 1]);
      var i :| 0 <= i < |es| - 1 && es[..|es| - 1][i].event.Data?;
      assert es[i].event.Data?;
    }
  }
}
