/**
 * The timeline scheduler of a regression run (crates/eggreplay-cli/src/main.rs) and its start order
 * (crates/eggreplay-core/src/stream.rs), next to the sequential scheduler.
 */
module Scheduler {
  import opened Prelude

  const MAX_CONCURRENCY: nat := 1024
  const MAX_OFFSET_NS: nat := 300_000_000_000

  // ---------- The start order ----------

  /** Order of the sort key (offset, index). */
  predicate Earlier(offsets: seq<nat>, i: nat, j: nat)
    requires i < |offsets| && j < |offsets|
  {
    offsets[i] < offsets[j] || (offsets[i] == offsets[j] && i < j)
  }

  predicate InRange(order: seq<nat>, n: nat)
  {
    forall k :: 0 <= k < |order| ==> order[k] < n
  }

  predicate Sorted(offsets: seq<nat>, order: seq<nat>)
  {
    InRange(order, |offsets|) && forall i, j :: 0 <= i < j < |order| ==> Earlier(offsets, order[i], order[j])
  }

  /** Every flow once, by offset, ties in fixture order. */
  ghost predicate IsStartOrder(offsets: seq<nat>, order: seq<nat>)
  {
    Sorted(offsets, order) && forall i: nat :: i in order <==> i < |offsets|
  }

  function Insert(offsets: seq<nat>, x: nat, order: seq<nat>): seq<nat>
    requires x < |offsets| && InRange(order, |offsets|)
  {
    if order == [] || Earlier(offsets, x, order[0]) then [x] + order
    else [order[0]] + Insert(offsets, x, order[1..])
  }

  lemma {:induction false} InsertSorted(offsets: seq<nat>, x: nat, order: seq<nat>)
    requires x < |offsets| && Sorted(offsets, order) && x !in order
    ensures Sorted(offsets, Insert(offsets, x, order))
    ensures forall i :: i in Insert(offsets, x, order) <==> i == x || i in order
  {
    if order != [] && !Earlier(offsets, x, order[0]) {
      var rest := order[1..];
      InsertSorted(offsets, x, rest);
      var after := Insert(offsets, x, rest);
      forall j | 0 <= j < |after|
        ensures Earlier(offsets, order[0], after[j])
      {
        assert after[j] in after;
        if after[j] != x {
          var k :| 0 <= k < |rest| && rest[k] == after[j];
          assert order[k + 1] == after[j];
        }
      }
    }
  }

  /** `sort_by_key` of the indices below `n`. */
  function SortedIndices(offsets: seq<nat>, n: nat): (order: seq<nat>)
    requires n <= |offsets|
    ensures InRange(order, |offsets|)
    ensures Sorted(offsets, order) && forall i: nat :: i in order <==> i < n
  {
    if n == 0 then []
    else
      var rest := SortedIndices(offsets, n - 1);
      InsertSorted(offsets, n - 1, rest);
      Insert(offsets, n - 1, rest)
  }

  method TimelineOrder(offsets: seq<nat>, maxConcurrency: nat) returns (r: Option<seq<nat>>)
    ensures r.Some? <==>
      0 < maxConcurrency <= MAX_CONCURRENCY && forall i :: 0 <= i < |offsets| ==> offsets[i] <= MAX_OFFSET_NS
    ensures r.Some? ==> IsStartOrder(offsets, r.value)
  {
    if maxConcurrency == 0 || maxConcurrency > MAX_CONCURRENCY {
      return None;
    }
    if exists i :: 0 <= i < |offsets| && offsets[i] > MAX_OFFSET_NS {
      return None;
    }
    return Some(SortedIndices(offsets, |offsets|));
  }

  /** There is only one start order. */
  lemma {:induction false} StartOrderUnique(offsets: seq<nat>, a: seq<nat>, b: seq<nat>)
    requires Sorted(offsets, a) && Sorted(offsets, b) && forall i :: i in a <==> i in b
    ensures a == b
  {
    if a == [] {
      HasMember(b);
    } else {
      HasMember(a);
      assert a[0] in b && b[0] in a;
      var i :| 0 <= i < |a| && a[i] == b[0];
      var j :| 0 <= j < |b| && b[j] == a[0];
      assert a[0] == b[0];
      var x, y := a[1..], b[1..];
      forall k
        ensures k in x <==> k in y
      {
        TailMembers(offsets, a, k);
        TailMembers(offsets, b, k);
      }
      StartOrderUnique(offsets, x, y);
      assert a == [a[0]] + x && b == [b[0]] + y;
    }
  }

  /** Flows recorded at the same moment start in fixture order. */
  lemma SimultaneousInFixtureOrder(offsets: seq<nat>, order: seq<nat>)
    requires IsStartOrder(offsets, order) && forall i, j :: 0 <= i < j < |offsets| ==> offsets[i] == offsets[j]
    ensures order == seq(|offsets|, i => i)
  {
    var identity := seq(|offsets|, i => i);
    forall i: nat
      ensures i in identity <==> i < |offsets|
    {
      assert i < |offsets| ==> identity[i] == i;
    }
    StartOrderUnique(offsets, order, identity);
  }

  /** No flow starts before one that was recorded earlier. */
  lemma {:induction false} StartsInTime(offsets: seq<nat>, order: seq<nat>, i: nat, j: nat)
    requires IsStartOrder(offsets, order) && i < |offsets| && j < |offsets| && offsets[i] < offsets[j]
    ensures exists k, l :: 0 <= k < l < |order| && order[k] == i && order[l] == j
  {
    assert i in order && j in order;
    var k :| 0 <= k < |order| && order[k] == i;
    var l :| 0 <= l < |order| && order[l] == j;
    if k > l {
      assert false;
    }
  }

  lemma HasMember(a: seq<nat>)
    ensures a != [] ==> exists k :: k in a
  {
    if a != [] {
      assert a[0] in a;
    }
  }

  lemma TailMembers(offsets: seq<nat>, a: seq<nat>, k: nat)
    requires Sorted(offsets, a) && a != []
    ensures k in a[1..] <==> k in a && k != a[0]
  {
  }

  // ---------- Running the comparisons ----------

  datatype Tag = Sequential | Timeline

  datatype Report = Report(scheduler: Tag, findings: seq<Bytes>)

  /** Comparing flow `i` with the candidate: its findings, or a runtime error. */
  type Compare = nat -> Result<seq<Bytes>, string>

  predicate AllSucceed(compare: Compare, n: nat)
  {
    forall i: nat :: i < n ==> compare(i).Ok?
  }

  /** The report vector of a run in which every comparison succeeded. */
  function Reports(tag: Tag, compare: Compare, n: nat): (r: seq<Report>)
    requires AllSucceed(compare, n)
    ensures |r| == n && forall i :: 0 <= i < n ==> r[i] == Report(tag, compare(i).value)
  {
    seq(n, i requires 0 <= i < n => Report(tag, compare(i).value))
  }

  method RunSequential(n: nat, compare: Compare) returns (r: Result<seq<Report>, string>)
    ensures r.Ok? <==> AllSucceed(compare, n)
    ensures r.Ok? ==> r.value == Reports(Sequential, compare, n)
    ensures r.Err? ==> exists i: nat :: i < n && compare(i) == Err(r.error) && AllSucceed(compare, i)
  {
    var reports := [];
    for i := 0 to n
      invariant AllSucceed(compare, i) && reports == Reports(Sequential, compare, i)
    {
      match compare(i) {
        case Err(error) =>
          return Err(error);
        case Ok(findings) =>
          reports := reports + [Report(Sequential, findings)];
      }
    }
    return Ok(reports);
  }

  /** What the loop has done: `order[..next]` started, `running` of those not finished, the others reported. */
  ghost predicate Progress(order: seq<nat>, compare: Compare, next: nat, running: set<nat>, reports: seq<Option<Report>>)
  {
    && next <= |order|
    && (forall i :: i in running ==> i in order[..next])
    && forall i: nat :: i < |reports| ==>
      reports[i] == if i in order[..next] && i !in running && compare(i).Ok?
                    then Some(Report(Timeline, compare(i).value)) else None
  }

  /** No finished flow has failed. */
  ghost predicate NoFailure(order: seq<nat>, compare: Compare, next: nat, running: set<nat>)
    requires next <= |order|
  {
    forall i :: i in order[..next] && i !in running ==> compare(i).Ok?
  }

  /**
   * The timeline scheduler. `started` lists the flows in the order their tasks are spawned, `peak` is the greatest
   * number in flight; which running task finishes next is arbitrary. Whatever it is, the run terminates, starts flows
   * in the start order without repetition and never has more than `maxConcurrency` in flight; it succeeds exactly when
   * every comparison does, and then its reports are those of the sequential scheduler up to the tag.
   */
  method RunTimeline(order: seq<nat>, n: nat, maxConcurrency: nat, compare: Compare)
    returns (r: Result<seq<Report>, string>, started: seq<nat>, peak: nat)
    requires 0 < maxConcurrency
    requires (forall i: nat :: i in order <==> i < n) && forall i, j :: 0 <= i < j < |order| ==> order[i] != order[j]
    ensures started <= order && peak <= maxConcurrency
    ensures r.Ok? <==> AllSucceed(compare, n)
    ensures r.Ok? ==> started == order && r.value == Reports(Timeline, compare, n)
    ensures r.Err? ==> exists i :: i in started && compare(i) == Err(r.error)
  {
    var reports: seq<Option<Report>> := seq(n, _ => None);
    var next := 0;
    var running: set<nat> := {};
    started, peak := [], 0;
    while next < |order| || running != {}
      invariant Progress(order, compare, next, running, reports) && NoFailure(order, compare, next, running)
      invariant |reports| == n && started == order[..next]
      invariant |running| <= maxConcurrency && peak <= maxConcurrency
      decreases 2 * (|order| - next) + |running|
    {
      var spawned;
      next, running, peak, spawned := Fill(order, compare, next, running, reports, maxConcurrency, peak);
      SliceJoin(order, |started|, next);
      started := started + spawned;
      var index :| index in running;
      hide Progress, NoFailure, AllSucceed;
      match compare(index) {
        case Err(error) =>
          FailureMeansError(order, compare, next, running, reports, n, index);
          return Err(error), started, peak;
        case Ok(findings) =>
          Finish(order, compare, next, running, reports, n, index);
          running := running - {index};
          reports := reports[index := Some(Report(Timeline, findings))];
      }
    }
    assert order[..next] == order;
    var complete := Collect(order, n, compare, reports);
    return Ok(complete), started, peak;
  }

  /** Spawn tasks in the start order until the slots or the flows run out. */
  method Fill(order: seq<nat>, compare: Compare, start: nat, tasks: set<nat>, ghost reports: seq<Option<Report>>,
              maxConcurrency: nat, before: nat)
    returns (next: nat, running: set<nat>, peak: nat, spawned: seq<nat>)
    requires Progress(order, compare, start, tasks, reports) && NoFailure(order, compare, start, tasks)
    requires forall i, j :: 0 <= i < j < |order| ==> order[i] != order[j]
    requires 0 < maxConcurrency && |tasks| <= maxConcurrency && before <= maxConcurrency
    requires start < |order| || tasks != {}
    ensures start <= next <= |order| && spawned == order[start..next]
    ensures Progress(order, compare, next, running, reports) && NoFailure(order, compare, next, running)
    ensures running != {} && |running| <= maxConcurrency && peak <= maxConcurrency
    ensures next == |order| || |running| == maxConcurrency
    ensures 2 * (|order| - next) + |running| <= 2 * (|order| - start) + |tasks|
  {
    next, running, peak, spawned := start, tasks, before, [];
    while next < |order| && |running| < maxConcurrency
      invariant start <= next <= |order| && spawned == order[start..next]
      invariant Progress(order, compare, next, running, reports) && NoFailure(order, compare, next, running)
      invariant |running| <= maxConcurrency && peak <= maxConcurrency
      invariant next < |order| || running != {}
      invariant 2 * (|order| - next) + |running| <= 2 * (|order| - start) + |tasks|
    {
      hide Progress, NoFailure;
      Spawn(order, compare, next, running, reports);
      SliceStep(order, start, next);
      running, spawned := running + {order[next]}, spawned + [order[next]];
      next := next + 1;
      peak := if |running| > peak then |running| else peak;
    }
  }

  /** `into_iter().collect::<Option<Vec<_>>>()` over the filled report vector. */
  method Collect(order: seq<nat>, n: nat, compare: Compare, reports: seq<Option<Report>>) returns (complete: seq<Report>)
    requires Progress(order, compare, |order|, {}, reports) && NoFailure(order, compare, |order|, {})
    requires |reports| == n && forall i: nat :: i in order <==> i < n
    ensures AllSucceed(compare, n) && complete == Reports(Timeline, compare, n)
  {
    assert order[..|order|] == order;
    complete := [];
    for i := 0 to n
      invariant AllSucceed(compare, i) && complete == Reports(Timeline, compare, i)
    {
      assert i in order;
      complete := complete + [reports[i].value];
    }
  }

  lemma FailureMeansError(order: seq<nat>, compare: Compare, next: nat, running: set<nat>, reports: seq<Option<Report>>,
                          n: nat, index: nat)
    requires Progress(order, compare, next, running, reports) && index in running && compare(index).Err?
    requires forall i: nat :: i in order <==> i < n
    ensures index in order[..next] && !AllSucceed(compare, n)
  {
    assert index in order;
  }

  lemma SliceStep(order: seq<nat>, start: nat, next: nat)
    requires start <= next < |order|
    ensures order[start..next + 1] == order[start..next] + [order[next]]
  {
  }

  lemma SliceJoin(order: seq<nat>, start: nat, next: nat)
    requires start <= next <= |order|
    ensures order[..start] + order[start..next] == order[..next]
  {
  }

  lemma Spawn(order: seq<nat>, compare: Compare, next: nat, running: set<nat>, reports: seq<Option<Report>>)
    requires Progress(order, compare, next, running, reports) && next < |order|
    requires forall i, j :: 0 <= i < j < |order| ==> order[i] != order[j]
    requires NoFailure(order, compare, next, running)
    ensures order[next] !in running
    ensures Progress(order, compare, next + 1, running + {order[next]}, reports)
    ensures NoFailure(order, compare, next + 1, running + {order[next]})
    ensures order[..next + 1] == order[..next] + [order[next]]
  {
  }

  lemma Finish(order: seq<nat>, compare: Compare, next: nat, running: set<nat>, reports: seq<Option<Report>>, n: nat, index: nat)
    requires Progress(order, compare, next, running, reports) && NoFailure(order, compare, next, running)
    requires index in running && compare(index).Ok? && |reports| == n && forall i: nat :: i in order <==> i < n
    ensures index < n && index in order[..next]
    ensures Progress(order, compare, next, running - {index}, reports[index := Some(Report(Timeline, compare(index).value))])
    ensures NoFailure(order, compare, next, running - {index})
  {
    assert index in order;
  }

  /** The same findings flow by flow; only the tag names another scheduler. */
  predicate SameButTag(timeline: seq<Report>, sequential: seq<Report>)
  {
    && |timeline| == |sequential|
    && forall i :: 0 <= i < |timeline| ==>
         timeline[i] == Report(Timeline, sequential[i].findings) && sequential[i].scheduler.Sequential?
  }

  /** The timeline branch of `regression`, from the recorded offsets, against the sequential branch. */
  method CompareSchedulers(offsets: seq<nat>, maxConcurrency: nat, compare: Compare)
    returns (timeline: Option<Result<seq<Report>, string>>, sequential: Result<seq<Report>, string>, started: seq<nat>, peak: nat)
    ensures timeline.Some? <==>
      0 < maxConcurrency <= MAX_CONCURRENCY && forall i :: 0 <= i < |offsets| ==> offsets[i] <= MAX_OFFSET_NS
    ensures timeline.Some? ==>
      && peak <= maxConcurrency
      && (timeline.value.Ok? <==> sequential.Ok?)
      && (timeline.value.Ok? ==>
            SameButTag(timeline.value.value, sequential.value) && IsStartOrder(offsets, started))
  {
    sequential := RunSequential(|offsets|, compare);
    var order := TimelineOrder(offsets, maxConcurrency);
    if order.None? {
      return None, sequential, [], 0;
    }
    var result;
    result, started, peak := RunTimeline(order.value, |offsets|, maxConcurrency, compare);
    timeline := Some(result);
  }
}
