/** Comparing a candidate's response timeline with the recorded one (crates/eggreplay-core/src/report.rs). */
module Cadence {
  import opened Prelude
  import opened StreamTimeline
  import opened TextParsing
  import opened Ordering

  datatype Finding =
    | EventsDiffer(baselineCount: nat, candidateCount: nat)
    | CadenceDiffers(index: nat, baselineGap: nat, candidateGap: nat)

  predicate SameNames(left: seq<HeaderEntry>, right: seq<HeaderEntry>)
  {
    |left| == |right| && forall i :: 0 <= i < |left| ==> Lower(left[i].name) == Lower(right[i].name)
  }

  /** Equal shape: trailer values are not compared, trailer names only up to ASCII case. */
  predicate SameEvent(left: EventKind, right: EventKind)
  {
    match (left, right)
    case (Data(lo, ll), Data(ro, rl)) => lo == ro && ll == rl
    case (Trailers(lf), Trailers(rf)) => SameNames(lf, rf)
    case (End, End) => true
    case (Error(la, lc, lp), Error(ra, rc, rp)) => la == ra && lc == rc && lp == rp
    case _ => false
  }

  predicate SameTimeline(left: seq<StreamEvent>, right: seq<StreamEvent>)
  {
    |left| == |right| && forall i :: 0 <= i < |left| ==> SameEvent(left[i].event, right[i].event)
  }

  /** The delay of event `i` after the one before it; the first is measured from the start of the body. */
  function Gap(es: seq<StreamEvent>, i: nat): nat
    requires i < |es|
  {
    SatSub(es[i].deltaNs, if i == 0 then 0 else es[i - 1].deltaNs)
  }

  predicate OffCadence(left: seq<StreamEvent>, right: seq<StreamEvent>, tolerance: nat, i: nat)
    requires i < |left| && i < |right|
  {
    AbsDiff(Gap(left, i), Gap(right, i)) > tolerance
  }

  /** What it means to find nothing. */
  predicate NoFindings(left: seq<StreamEvent>, right: seq<StreamEvent>, tolerance: Option<nat>)
  {
    && SameTimeline(left, right)
    && (tolerance.Some? ==> forall i :: 0 <= i < |left| ==> !OffCadence(left, right, tolerance.value, i))
  }

  predicate IsFinding(f: Finding, left: seq<StreamEvent>, right: seq<StreamEvent>, tolerance: Option<nat>)
  {
    match f
    case EventsDiffer(l, r) => l == |left| && r == |right| && !SameTimeline(left, right)
    case CadenceDiffers(i, l, r) =>
      && tolerance.Some?
      && i < |left|
      && i < |right|
      && OffCadence(left, right, tolerance.value, i)
      && l == Gap(left, i)
      && r == Gap(right, i)
  }

  // ---- Report order ----

  /** The report field of a finding, by which findings are sorted. */
  function FieldOf(f: Finding): string
  {
    match f
    case EventsDiffer(_, _) => "stream.response.events"
    case CadenceDiffers(index, _, _) => "stream.response.cadence[" + Decimal(index) + "]"
  }

  lemma FieldNamesFinding(f: Finding, g: Finding, left: seq<StreamEvent>, right: seq<StreamEvent>, tolerance: Option<nat>)
    requires IsFinding(f, left, right, tolerance) && IsFinding(g, left, right, tolerance) && FieldOf(f) == FieldOf(g)
    ensures f == g
  {
    var head := "stream.response.cadence[";
    if f.CadenceDiffers? && g.CadenceDiffers? {
      assert FieldOf(f)[|head|..|FieldOf(f)| - 1] == Decimal(f.index);
      assert FieldOf(g)[|head|..|FieldOf(g)| - 1] == Decimal(g.index);
    }
  }

  predicate DistinctFields(fs: seq<Finding>)
  {
    forall i, j :: 0 <= i < j < |fs| ==> FieldOf(fs[i]) != FieldOf(fs[j])
  }

  predicate FieldsAscend(fs: seq<Finding>)
  {
    forall i, j :: 0 <= i < j < |fs| ==> Less(FieldOf(fs[i]), FieldOf(fs[j]))
  }

  function InsertByField(x: Finding, fs: seq<Finding>): seq<Finding>
  {
    if fs == [] || Less(FieldOf(x), FieldOf(fs[0])) then [x] + fs else [fs[0]] + InsertByField(x, fs[1..])
  }

  /** `sort_by` on the field. */
  function SortByField(fs: seq<Finding>): seq<Finding>
  {
    if fs == [] then [] else InsertByField(fs[0], SortByField(fs[1..]))
  }

  lemma {:induction false} InsertByFieldAscends(x: Finding, fs: seq<Finding>)
    requires FieldsAscend(fs) && forall f :: f in fs ==> FieldOf(f) != FieldOf(x)
    ensures FieldsAscend(InsertByField(x, fs))
    ensures forall f :: f in InsertByField(x, fs) <==> f == x || f in fs
  {
    hide FieldOf, Less;
    if fs != [] {
      if Less(FieldOf(x), FieldOf(fs[0])) {
        forall i | 0 < i < |fs|
          ensures Less(FieldOf(x), FieldOf(fs[i]))
        {
          LessTransitive(FieldOf(x), FieldOf(fs[0]), FieldOf(fs[i]));
        }
      } else {
        var rest := fs[1..];
        assert fs == [fs[0]] + rest;
        InsertByFieldAscends(x, rest);
        LessTotal(FieldOf(x), FieldOf(fs[0]));
        assert fs[0] in fs;
        FirstStaysLeast(fs[0], x, rest, InsertByField(x, rest));
      }
    }
  }

  lemma FirstStaysLeast(first: Finding, x: Finding, rest: seq<Finding>, after: seq<Finding>)
    requires Less(FieldOf(first), FieldOf(x)) && FieldsAscend([first] + rest) && FieldsAscend(after)
    requires forall f :: f in after <==> f == x || f in rest
    ensures FieldsAscend([first] + after)
  {
    hide FieldOf, Less;
    forall j | 0 <= j < |after|
      ensures Less(FieldOf(first), FieldOf(after[j]))
    {
      assert after[j] in after;
      if after[j] != x {
        var k :| 0 <= k < |rest| && rest[k] == after[j];
        var all := [first] + rest;
        assert all[0] == first && all[k + 1] == after[j];
      }
    }
  }

  lemma {:induction false} SortByFieldAscends(fs: seq<Finding>)
    requires DistinctFields(fs)
    ensures FieldsAscend(SortByField(fs))
    ensures forall f :: f in SortByField(fs) <==> f in fs
  {
    hide FieldOf, Less;
    if fs != [] {
      var rest := fs[1..];
      assert fs == [fs[0]] + rest;
      SortByFieldAscends(rest);
      InsertByFieldAscends(fs[0], SortByField(rest));
    }
  }

  // ---- The comparison ----

  /**
   * `compare_stream_events`: reports exactly the differences there are, one finding for each, in the order of their
   * field names.
   */
  method CompareStreamEvents(left: seq<StreamEvent>, right: seq<StreamEvent>, tolerance: Option<nat>)
    returns (findings: seq<Finding>)
    ensures forall f :: f in findings <==> IsFinding(f, left, right, tolerance)
    ensures FieldsAscend(findings)
    ensures findings == [] <==> NoFindings(left, right, tolerance)
  {
    findings := [];
    if !SameTimeline(left, right) {
      findings := [EventsDiffer(|left|, |right|)];
    }
    if tolerance.Some? {
      var n := if |left| < |right| then |left| else |right|;
      for index := 0 to n
        invariant forall f :: f in findings <==>
          IsFinding(f, left, right, tolerance) && (f.CadenceDiffers? ==> f.index < index)
        invariant forall i, j :: 0 <= i < j < |findings| ==> findings[i] != findings[j]
      {
        var l := SatSub(left[index].deltaNs, if index == 0 then 0 else left[index - 1].deltaNs);
        var r := SatSub(right[index].deltaNs, if index == 0 then 0 else right[index - 1].deltaNs);
        if AbsDiff(l, r) > tolerance.value {
          findings := findings + [CadenceDiffers(index, l, r)];
        }
      }
    }
    hide IsFinding, FieldOf;
    forall i, j | 0 <= i < j < |findings|
      ensures FieldOf(findings[i]) != FieldOf(findings[j])
    {
      assert findings[i] in findings && findings[j] in findings;
      if FieldOf(findings[i]) == FieldOf(findings[j]) {
        FieldNamesFinding(findings[i], findings[j], left, right, tolerance);
      }
    }
    SortByFieldAscends(findings);
    findings := SortByField(findings);
    EmptyMeansNone(findings, left, right, tolerance);
  }

  lemma EmptyMeansNone(findings: seq<Finding>, left: seq<StreamEvent>, right: seq<StreamEvent>, tolerance: Option<nat>)
    requires forall f :: f in findings <==> IsFinding(f, left, right, tolerance)
    ensures findings == [] <==> NoFindings(left, right, tolerance)
  {
    if findings == [] {
      assert !IsFinding(EventsDiffer(|left|, |right|), left, right, tolerance);
      if tolerance.Some? {
        forall i | 0 <= i < |left|
          ensures !OffCadence(left, right, tolerance.value, i)
        {
          assert !IsFinding(CadenceDiffers(i, Gap(left, i), Gap(right, i)), left, right, tolerance);
        }
      }
    } else {
      assert IsFinding(findings[0], left, right, tolerance);
    }
  }

  // ---------- What a clean comparison guarantees ----------

  predicate Monotone(es: seq<StreamEvent>)
  {
    forall i :: 0 < i < |es| ==> es[i - 1].deltaNs <= es[i].deltaNs
  }

  /** Tolerated gaps accumulate: event `i` may have drifted by at most `i + 1` tolerances. */
  lemma {:induction false} DriftBound(left: seq<StreamEvent>, right: seq<StreamEvent>, t: nat, i: nat)
    requires NoFindings(left, right, Some(t)) && Monotone(left) && Monotone(right) && i < |left|
    ensures AbsDiff(left[i].deltaNs, right[i].deltaNs) <= (i + 1) * t
  {
    assert !OffCadence(left, right, t, i);
    if i > 0 {
      DriftBound(left, right, t, i - 1);
      assert (i + 1) * t == i * t + t;
    }
  }

  /** One byte of data at every tick. */
  function Ticks(n: nat, period: nat): (es: seq<StreamEvent>)
    ensures |es| == n && forall i :: 0 <= i < n ==> es[i] == StreamEvent((i + 1) * period, Data(i, 1))
  {
    seq(n, i requires 0 <= i < n => StreamEvent((i + 1) * period, Data(i, 1)))
  }

  lemma {:induction false} TicksInOrder(n: nat, period: nat)
    requires n <= MAX_EVENTS_PER_DIRECTION
    ensures InOrder(Ticks(n, period)) && DataEnd(Ticks(n, period)) == n && !SawTrailers(Ticks(n, period))
  {
    if n > 0 {
      var front, last := Ticks(n - 1, period), StreamEvent(n * period, Data(n - 1, 1));
      assert Ticks(n, period) == front + [last];
      TicksInOrder(n - 1, period);
      assert n * period == (n - 1) * period + period;
      InOrderStep(front, last);
      DataEndStep(front, last);
      TrailersStep(front, last);
      hide InOrder, DataEnd, SawTrailers, Ticks;
    }
  }

  lemma Scaled(a: nat, b: nat, period: nat)
    requires a <= b
    ensures a * period <= b * period
  {
    assert b * period == a * period + (b - a) * period;
  }

  lemma TicksBounded(n: nat, period: nat)
    requires n * period <= MAX_DELAY_NS
    ensures AllBounded(Ticks(n, period))
  {
    var es := Ticks(n, period);
    forall e | e in es
      ensures Bounded(e)
    {
      var i :| 0 <= i < n && es[i] == e;
      Scaled(i + 1, n, period);
    }
  }

  lemma TicksValid(n: nat, period: nat)
    requires n <= MAX_EVENTS_PER_DIRECTION && n * period <= MAX_DELAY_NS
    ensures ValidDirection(Ticks(n, period))
  {
    TicksInOrder(n, period);
    TicksBounded(n, period);
  }

  /**
   * The bound is sharp, on timelines the validator accepts as long as they are short enough: a steady candidate that
   * is late by the tolerance at each event reaches it and is not reported.
   */
  lemma DriftBoundSharp(n: nat, period: nat, t: nat, i: nat)
    requires i < n
    ensures NoFindings(Ticks(n, period), Ticks(n, period + t), Some(t))
    ensures AbsDiff(Ticks(n, period)[i].deltaNs, Ticks(n, period + t)[i].deltaNs) == (i + 1) * t
    ensures n <= MAX_EVENTS_PER_DIRECTION && n * (period + t) <= MAX_DELAY_NS ==>
      ValidDirection(Ticks(n, period)) && ValidDirection(Ticks(n, period + t))
  {
    hide ValidDirection, NoFindings;
    TicksOnCadence(n, period, t);
    Distributes(i + 1, period, t);
    Distributes(n, period, t);
    if n <= MAX_EVENTS_PER_DIRECTION && n * (period + t) <= MAX_DELAY_NS {
      TicksValid(n, period);
      TicksValid(n, period + t);
    }
  }

  lemma Distributes(n: nat, period: nat, t: nat)
    ensures n * (period + t) == n * period + n * t
    ensures n * period <= n * (period + t)
  {
  }

  lemma TicksOnCadence(n: nat, period: nat, t: nat)
    ensures NoFindings(Ticks(n, period), Ticks(n, period + t), Some(t))
  {
    var steady, late := Ticks(n, period), Ticks(n, period + t);
    forall k | 0 <= k < n
      ensures !OffCadence(steady, late, t, k)
    {
      TickGap(n, period, k);
      TickGap(n, period + t, k);
    }
  }

  lemma TickGap(n: nat, period: nat, k: nat)
    requires k < n
    ensures Gap(Ticks(n, period), k) == period
  {
    assert (k + 1) * period == k * period + period;
  }

  /** Clean comparisons compose, and their tolerances add. */
  lemma CleanComposes(a: seq<StreamEvent>, b: seq<StreamEvent>, c: seq<StreamEvent>, t: nat, u: nat)
    requires NoFindings(a, b, Some(t)) && NoFindings(b, c, Some(u))
    ensures NoFindings(a, c, Some(t + u))
  {
    SameTimelineTransitive(a, b, c);
    var sum := t + u;
    forall i | 0 <= i < |a|
      ensures !OffCadence(a, c, sum, i)
    {
      assert !OffCadence(a, b, t, i) && !OffCadence(b, c, u, i);
    }
  }

  lemma SameTimelineTransitive(a: seq<StreamEvent>, b: seq<StreamEvent>, c: seq<StreamEvent>)
    requires SameTimeline(a, b) && SameTimeline(b, c)
    ensures SameTimeline(a, c)
  {
  }

  /** A relabelling that forgets exactly what the comparison forgets: equal shapes are equal relabelled events. */
  function ShapeOf(e: EventKind): EventKind
  {
    match e
    case Trailers(fields) =>
      Trailers(seq(|fields|, i requires 0 <= i < |fields| => HeaderEntry(Lower(fields[i].name), "")))
    case _ => e
  }

  /** Shape equality is the kernel of that relabelling, hence an equivalence relation. */
  lemma SameEventIsKernel(left: EventKind, right: EventKind)
    ensures SameEvent(left, right) <==> ShapeOf(left) == ShapeOf(right)
  {
    if left.Trailers? && right.Trailers? {
      var l, r := ShapeOf(left).fields, ShapeOf(right).fields;
      if l == r {
        forall i | 0 <= i < |left.fields|
          ensures Lower(left.fields[i].name) == Lower(right.fields[i].name)
        {
          assert l[i] == r[i];
        }
      }
    }
  }
}
