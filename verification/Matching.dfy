/** Request matching, consumption and near misses (crates/eggreplay-core/src/matching.rs). */
module Matching {
  import opened Prelude
  import opened Json
  import opened Listing
  import opened Ordering
  import opened Redaction

  datatype BodyMode = ExactBytes | ExactText | SemanticJson

  datatype Consumption = Once | RepeatLast | Unlimited

  datatype CandidateBody = NoBody | EmptyBody | Digest(sha256: string, length: nat) | Inline(bytes: Bytes)

  /** `requestBody` is the legacy copy of inline bytes; it is empty for lazy descriptors. */
  datatype Candidate = Candidate(flow: Flow, body: CandidateBody, requestBody: Bytes)

  datatype Dimension = OnMethod | OnAuthority | OnPath | OnQuery | OnHeaders | OnBody

  datatype NearMiss = NearMiss(index: nat, cost: nat, dimensions: seq<Dimension>)

  datatype MatchResult = Matched(index: nat) | NoMatch(near: seq<NearMiss>) | Exhausted(near: seq<NearMiss>)

  datatype Matcher = Matcher(bodyMode: BodyMode, ignoredHeaders: set<string>, ignoredJsonPaths: set<string>, maxNearMisses: nat)

  /** What the matcher calls into: SHA-256, JSON decoding, UTF-8 validation and the form-body heuristic. */
  datatype Env = Env(
    digest: Bytes -> string,
    decode: Bytes -> Option<Json>,
    isUtf8: Bytes -> bool,
    formWildcard: (Bytes, Bytes, set<string>) -> Option<bool>)

  // ---------- Normalization ----------

  /** Header values grouped by lower-case name, in order, without the ignored names. */
  function GroupHeaders(hs: seq<HeaderEntry>, ignored: set<string>): map<string, seq<Bytes>>
  {
    if hs == [] then map[]
    else
      var rest, h := GroupHeaders(hs[..|hs| - 1], ignored), hs[|hs| - 1];
      var name := Lower(h.name);
      if name in ignored then rest
      else rest[name := (if name in rest then rest[name] else []) + [h.value]]
  }

  /** The values of the headers with one lower-case name. */
  function ValuesOf(hs: seq<HeaderEntry>, name: string): seq<Bytes>
  {
    if hs == [] then []
    else ValuesOf(hs[..|hs| - 1], name) + if Lower(hs[|hs| - 1].name) == name then [hs[|hs| - 1].value] else []
  }

  function NamedAt(hs: seq<HeaderEntry>, name: string): set<nat>
  {
    set i: nat | i < |hs| && Lower(hs[i].name) == name
  }

  /** They are the values of exactly the headers with that name, in the order of the headers. */
  lemma {:induction false} ValuesInOrder(hs: seq<HeaderEntry>, name: string) returns (at: seq<nat>)
    ensures Lists(at, NamedAt(hs, name)) && |at| == |ValuesOf(hs, name)|
    ensures forall k :: 0 <= k < |at| ==> at[k] < |hs| && ValuesOf(hs, name)[k] == hs[at[k]].value
  {
    if hs == [] {
      return [];
    }
    var n := |hs| - 1;
    at := ValuesInOrder(hs[..n], name);
    if Lower(hs[n].name) == name {
      ListsMore(at, NamedAt(hs[..n], name), n, NamedAt(hs, name));
      at := at + [n];
    } else {
      assert NamedAt(hs, name) == NamedAt(hs[..n], name);
    }
  }

  predicate Occurs(hs: seq<HeaderEntry>, name: string)
  {
    exists i :: 0 <= i < |hs| && Lower(hs[i].name) == name
  }

  /** Groups hold, for each header name that occurs and is not ignored, all its values in order. */
  ghost predicate GroupsHold(groups: map<string, seq<Bytes>>, hs: seq<HeaderEntry>, ignored: set<string>)
  {
    && (forall name :: name in groups <==> name !in ignored && Occurs(hs, name))
    && (forall name :: name in groups ==> groups[name] == ValuesOf(hs, name))
  }

  lemma OccursStep(hs: seq<HeaderEntry>, n: nat, name: string)
    requires n == |hs| - 1
    ensures Occurs(hs, name) <==> Occurs(hs[..n], name) || Lower(hs[n].name) == name
    ensures ValuesOf(hs, name) == ValuesOf(hs[..n], name) + if Lower(hs[n].name) == name then [hs[n].value] else []
  {
    hide Lower;
    assert forall i :: 0 <= i < n ==> hs[i] == hs[..n][i];
  }

  lemma {:induction false} GroupsAreValues(hs: seq<HeaderEntry>, ignored: set<string>)
    ensures GroupsHold(GroupHeaders(hs, ignored), hs, ignored)
    ensures forall name :: ValuesOf(hs, name) == [] <==> !Occurs(hs, name)
  {
    if hs != [] {
      var n := |hs| - 1;
      GroupsAreValues(hs[..n], ignored);
      forall name
        ensures Occurs(hs, name) <==> Occurs(hs[..n], name) || Lower(hs[n].name) == name
        ensures ValuesOf(hs, name) == ValuesOf(hs[..n], name) + if Lower(hs[n].name) == name then [hs[n].value] else []
      {
        OccursStep(hs, n, name);
      }
      hide Lower, Occurs, ValuesOf;
    }
  }

  /** Every header that is not ignored has the same values in both, in the same order. */
  ghost predicate SameHeaders(a: seq<HeaderEntry>, b: seq<HeaderEntry>, ignored: set<string>)
  {
    forall name :: name !in ignored ==> ValuesOf(a, name) == ValuesOf(b, name)
  }

  lemma GroupsEqualIff(a: seq<HeaderEntry>, b: seq<HeaderEntry>, ignored: set<string>)
    ensures GroupHeaders(a, ignored) == GroupHeaders(b, ignored) <==> SameHeaders(a, b, ignored)
  {
    GroupsAreValues(a, ignored);
    GroupsAreValues(b, ignored);
    hide GroupHeaders, ValuesOf, Occurs;
    if GroupHeaders(a, ignored) == GroupHeaders(b, ignored) {
      forall name | name !in ignored
        ensures ValuesOf(a, name) == ValuesOf(b, name)
      {
        assert name in GroupHeaders(a, ignored) <==> name in GroupHeaders(b, ignored);
      }
    }
  }

  method NormalizeHeaders(hs: seq<HeaderEntry>, ignored: set<string>) returns (groups: map<string, seq<Bytes>>)
    ensures groups == GroupHeaders(hs, ignored)
    ensures GroupsHold(groups, hs, ignored)
  {
    GroupsAreValues(hs, ignored);
    hide GroupsHold;
    groups := map[];
    for i := 0 to |hs|
      invariant groups == GroupHeaders(hs[..i], ignored)
    {
      assert hs[..i + 1][..i] == hs[..i];
      var name := Lower(hs[i].name);
      if name !in ignored {
        if name !in groups {
          groups := groups[name := []];
        }
        groups := groups[name := groups[name] + [hs[i].value]];
      }
    }
    assert hs[..|hs|] == hs;
  }

  function FilterQuery(ps: seq<QueryPair>, redacted: set<string>): seq<QueryPair>
  {
    if redacted == {} then ps else WithoutKeys(ps, redacted)
  }

  function WithoutKeys(ps: seq<QueryPair>, keys: set<string>): seq<QueryPair>
  {
    if ps == [] then []
    else if ps[|ps| - 1].key in keys then WithoutKeys(ps[..|ps| - 1], keys)
    else WithoutKeys(ps[..|ps| - 1], keys) + [ps[|ps| - 1]]
  }

  lemma {:induction false} FilterIsWithout(ps: seq<QueryPair>, keys: set<string>)
    ensures FilterQuery(ps, keys) == WithoutKeys(ps, keys)
  {
    if keys == {} && ps != [] {
      FilterIsWithout(ps[..|ps| - 1], keys);
      assert ps == ps[..|ps| - 1] + [ps[|ps| - 1]];
    }
  }

  function KeptAt(ps: seq<QueryPair>, keys: set<string>): set<nat>
  {
    set i: nat | i < |ps| && ps[i].key !in keys
  }

  /** The pairs left are exactly those with other keys, in order. */
  lemma {:induction false} PairsKept(ps: seq<QueryPair>, keys: set<string>) returns (at: seq<nat>)
    ensures Lists(at, KeptAt(ps, keys)) && |at| == |WithoutKeys(ps, keys)|
    ensures forall k :: 0 <= k < |at| ==> at[k] < |ps| && WithoutKeys(ps, keys)[k] == ps[at[k]]
  {
    if ps == [] {
      return [];
    }
    var n := |ps| - 1;
    at := PairsKept(ps[..n], keys);
    if ps[n].key !in keys {
      ListsMore(at, KeptAt(ps[..n], keys), n, KeptAt(ps, keys));
      at := at + [n];
    } else {
      assert KeptAt(ps, keys) == KeptAt(ps[..n], keys);
    }
  }

  function CanonicalPath(path: Bytes): Bytes
  {
    if path == "" then "/" else path
  }

  function When(differs: bool, d: Dimension): seq<Dimension>
  {
    if differs then [d] else []
  }

  /** The non-body dimensions in which an actual request differs from a recorded one. */
  function Differences(m: Matcher, actual: Request, flow: Flow): seq<Dimension>
  {
    var expected := flow.request;
    var ignored := m.ignoredHeaders + RedactedHeaderNames(flow.redactions);
    var keys := RedactedQueryKeys(flow.redactions);
    When(Lower(actual.scheme) != Lower(expected.scheme) || Lower(actual.authority) != Lower(expected.authority), OnAuthority)
    + When(CanonicalPath(actual.path) != CanonicalPath(expected.path), OnPath)
    + When(FilterQuery(actual.query, keys) != FilterQuery(expected.query, keys), OnQuery)
    + When(GroupHeaders(actual.headers, ignored) != GroupHeaders(expected.headers, ignored), OnHeaders)
    + When(actual.method_ != expected.method_, OnMethod)
  }

  /** Two paths name the same resource: the empty one is the root. */
  predicate SamePath(a: Bytes, b: Bytes)
  {
    a == b || (a in {"", "/"} && b in {"", "/"})
  }

  function Count(b: bool): nat
  {
    if b then 1 else 0
  }

  /** What a list of dimensions says, given which of them differ. */
  predicate Tells(ds: seq<Dimension>, method_: bool, authority: bool, path: bool, query: bool, headers: bool)
  {
    && (OnMethod in ds <==> method_)
    && (OnAuthority in ds <==> authority)
    && (OnPath in ds <==> path)
    && (OnQuery in ds <==> query)
    && (OnHeaders in ds <==> headers)
    && OnBody !in ds
    && |ds| == Count(method_) + Count(authority) + Count(path) + Count(query) + Count(headers)
  }

  lemma WhenTells(method_: bool, authority: bool, path: bool, query: bool, headers: bool)
    ensures Tells(When(authority, OnAuthority) + When(path, OnPath) + When(query, OnQuery) + When(headers, OnHeaders)
                  + When(method_, OnMethod), method_, authority, path, query, headers)
  {
    var a := When(authority, OnAuthority);
    var b := a + When(path, OnPath);
    var c := b + When(query, OnQuery);
    var d := c + When(headers, OnHeaders);
    AddsOne(a, path, OnPath);
    AddsOne(b, query, OnQuery);
    AddsOne(c, headers, OnHeaders);
    AddsOne(d, method_, OnMethod);
    assert OnAuthority in a <==> authority;
    hide When;
  }

  lemma AddsOne(ds: seq<Dimension>, differs: bool, d: Dimension)
    ensures forall e :: e in ds + When(differs, d) <==> e in ds || (differs && e == d)
    ensures |ds + When(differs, d)| == |ds| + Count(differs)
  {
  }

  /** Each dimension is reported exactly when the two differ in it, and once: the length counts the differences. */
  lemma DifferencesTell(m: Matcher, actual: Request, flow: Flow)
    ensures
      var expected := flow.request;
      var ignored, keys := m.ignoredHeaders + RedactedHeaderNames(flow.redactions), RedactedQueryKeys(flow.redactions);
      Tells(Differences(m, actual, flow),
            actual.method_ != expected.method_,
            !(SameLetters(actual.scheme, expected.scheme) && SameLetters(actual.authority, expected.authority)),
            !SamePath(actual.path, expected.path),
            WithoutKeys(actual.query, keys) != WithoutKeys(expected.query, keys),
            exists name :: name !in ignored && ValuesOf(actual.headers, name) != ValuesOf(expected.headers, name))
  {
    var expected := flow.request;
    var ignored, keys := m.ignoredHeaders + RedactedHeaderNames(flow.redactions), RedactedQueryKeys(flow.redactions);
    var a, b := actual.headers, expected.headers;
    LowerEqualIff(actual.scheme, expected.scheme);
    LowerEqualIff(actual.authority, expected.authority);
    FilterIsWithout(actual.query, keys);
    FilterIsWithout(expected.query, keys);
    assert CanonicalPath(actual.path) == CanonicalPath(expected.path) <==> SamePath(actual.path, expected.path);
    GroupsEqualIff(a, b, ignored);
    WhenTells(actual.method_ != expected.method_,
              Lower(actual.scheme) != Lower(expected.scheme) || Lower(actual.authority) != Lower(expected.authority),
              CanonicalPath(actual.path) != CanonicalPath(expected.path),
              FilterQuery(actual.query, keys) != FilterQuery(expected.query, keys),
              GroupHeaders(a, ignored) != GroupHeaders(b, ignored));
    hide Lower, SameLetters, GroupHeaders, ValuesOf, WithoutKeys, FilterQuery, RedactedHeaderNames, RedactedQueryKeys,
         Tells, When, SamePath, CanonicalPath;
  }

  // ---------- Bodies ----------

  function JsonEqualWithout(env: Env, actual: Bytes, expected: Bytes, paths: set<string>): bool
  {
    env.decode(actual).Some? && env.decode(expected).Some?
    && RemoveAll(env.decode(actual).value, Ascending(paths)) == RemoveAll(env.decode(expected).value, Ascending(paths))
  }

  function BodyMatch(env: Env, mode: BodyMode, actual: Bytes, expected: Bytes, ignored: set<string>): bool
  {
    match mode
    case ExactBytes => actual == expected
    case ExactText => actual == expected && env.isUtf8(actual)
    case SemanticJson => JsonEqualWithout(env, actual, expected, ignored)
  }

  predicate HasBodyRedaction(c: Candidate)
  {
    RedactedJsonPaths(c.flow.redactions) != {} || RedactedFormKeys(c.flow.redactions) != {}
  }

  /** Inline bytes, falling back on the legacy copy. */
  function InlineBytes(c: Candidate): Bytes
    requires c.body.Inline?
  {
    if c.body.bytes != "" then c.body.bytes else c.requestBody
  }

  /** The loader runs for a narrowed candidate whose bytes are needed but not at hand. */
  predicate NeedsLoad(m: Matcher, c: Candidate, narrowed: bool)
  {
    && narrowed
    && if HasBodyRedaction(c) then c.body.Digest? || (c.body.Inline? && InlineBytes(c) == "")
       else c.body.Digest? && m.bodyMode.SemanticJson?
  }

  /** `body_matches_lazy`; `loaded` is what the loader answers for this candidate. */
  function BodyMatches(env: Env, m: Matcher, actual: Bytes, c: Candidate, narrowed: bool, loaded: Option<Bytes>): bool
  {
    if HasBodyRedaction(c) then
      narrowed &&
      var expected :=
        if NeedsLoad(m, c, narrowed) then loaded
        else if c.body.Inline? then Some(InlineBytes(c))
        else Some("");
      expected.Some? && RedactedBodyMatch(env, m, actual, expected.value, c.flow.redactions)
    else
      match c.body
      case NoBody => actual == ""
      case EmptyBody => actual == ""
      case Digest(sha256, length) =>
        (match m.bodyMode
         case ExactBytes => |actual| == length && env.digest(actual) == sha256
         case ExactText => |actual| == length && env.digest(actual) == sha256 && env.isUtf8(actual)
         case SemanticJson =>
           narrowed && loaded.Some? && BodyMatch(env, m.bodyMode, actual, loaded.value, m.ignoredJsonPaths))
      case Inline(_) => BodyMatch(env, m.bodyMode, actual, InlineBytes(c), m.ignoredJsonPaths)
  }

  /** A redacted body is compared as a form if it looks like one, and as JSON without the redacted paths otherwise. */
  function RedactedBodyMatch(env: Env, m: Matcher, actual: Bytes, expected: Bytes, markers: seq<Marker>): bool
  {
    var form := RedactedFormKeys(markers);
    if form != {} && env.formWildcard(actual, expected, form).Some? then env.formWildcard(actual, expected, form).value
    else JsonEqualWithout(env, actual, expected, m.ignoredJsonPaths + RedactedJsonPaths(markers))
  }

  /** Everything in which candidate and request differ; none means that the candidate matches. */
  function Mismatch(env: Env, m: Matcher, actual: Request, body: Bytes, c: Candidate, loaded: Option<Bytes>): seq<Dimension>
  {
    var differences := Differences(m, actual, c.flow);
    differences + (if BodyMatches(env, m, body, c, differences == [], loaded) then [] else [OnBody])
  }

  // ---------- Sessions ----------

  datatype SessionState = SessionState(consumed: set<nat>, last: Option<nat>)

  predicate Available(s: SessionState, index: nat, mode: Consumption)
  {
    match mode
    case Once => index !in s.consumed
    case RepeatLast => if s.last.Some? then s.last.value == index else index !in s.consumed
    case Unlimited => true
  }

  function Consumed(s: SessionState, index: nat, mode: Consumption): SessionState
  {
    SessionState(if mode.Unlimited? then s.consumed else s.consumed + {index},
                 if mode.RepeatLast? then Some(index) else s.last)
  }

  class MatcherSession {
    var consumed: set<nat>
    var last: Option<nat>

    function State(): SessionState
      reads this
    {
      SessionState(consumed, last)
    }

    constructor ()
      ensures State() == SessionState({}, None)
    {
      consumed, last := {}, None;
    }

    predicate IsAvailable(index: nat, mode: Consumption)
      reads this
    {
      Available(State(), index, mode)
    }

    method Consume(index: nat, mode: Consumption)
      modifies this
      ensures State() == Consumed(old(State()), index, mode)
    {
      if !mode.Unlimited? {
        consumed := consumed + {index};
      }
      if mode.RepeatLast? {
        last := Some(index);
      }
    }
  }

  // ---------- Near misses ----------

  /** Order of the sort key (cost, index). */
  predicate Nearer(a: NearMiss, b: NearMiss)
  {
    a.cost < b.cost || (a.cost == b.cost && a.index <= b.index)
  }

  predicate NearestFirst(near: seq<NearMiss>)
  {
    forall i, j :: 0 <= i < j < |near| ==> Nearer(near[i], near[j])
  }

  function InsertNear(x: NearMiss, near: seq<NearMiss>): seq<NearMiss>
  {
    if near == [] || Nearer(x, near[0]) then [x] + near else [near[0]] + InsertNear(x, near[1..])
  }

  /** A stable sort by (cost, index). */
  function SortNear(near: seq<NearMiss>): seq<NearMiss>
  {
    if near == [] then [] else InsertNear(near[0], SortNear(near[1..]))
  }

  lemma {:induction false} InsertNearSorted(x: NearMiss, near: seq<NearMiss>)
    requires NearestFirst(near)
    ensures NearestFirst(InsertNear(x, near)) && multiset(InsertNear(x, near)) == multiset(near) + multiset{x}
  {
    if near != [] {
      var first, rest := near[0], near[1..];
      assert near == [first] + rest;
      if Nearer(x, first) {
        BeforeSorted(x, near);
      } else {
        InsertNearSorted(x, rest);
        PrependSorted(first, x, rest, InsertNear(x, rest));
      }
      hide NearestFirst, Nearer;
    }
  }

  lemma BeforeSorted(x: NearMiss, near: seq<NearMiss>)
    requires NearestFirst(near) && near != [] && Nearer(x, near[0])
    ensures NearestFirst([x] + near)
  {
    forall j | 0 <= j < |near|
      ensures Nearer(x, near[j])
    {
    }
  }

  lemma PrependSorted(first: NearMiss, x: NearMiss, rest: seq<NearMiss>, after: seq<NearMiss>)
    requires NearestFirst(after) && multiset(after) == multiset(rest) + multiset{x}
    requires Nearer(first, x) && forall i :: 0 <= i < |rest| ==> Nearer(first, rest[i])
    ensures NearestFirst([first] + after)
  {
    forall j | 0 <= j < |after|
      ensures Nearer(first, after[j])
    {
      assert after[j] in multiset(after);
      assert after[j] == x || after[j] in rest;
    }
  }

  lemma {:induction false} SortNearSorted(near: seq<NearMiss>)
    ensures NearestFirst(SortNear(near)) && multiset(SortNear(near)) == multiset(near)
  {
    if near != [] {
      assert near == [near[0]] + near[1..];
      SortNearSorted(near[1..]);
      InsertNearSorted(near[0], SortNear(near[1..]));
    }
  }

  /** The first `max` mismatches among the first `n` candidates, in fixture order. */
  function FirstMisses(mismatches: seq<seq<Dimension>>, n: nat, max: nat): (r: seq<NearMiss>)
    requires n <= |mismatches|
    ensures |r| <= max
  {
    if n == 0 then []
    else
      var rest, last := FirstMisses(mismatches, n - 1, max), mismatches[n - 1];
      if last != [] && |rest| < max then rest + [NearMiss(n - 1, |last|, last)] else rest
  }

  // ---------- Selection ----------

  /** The mismatch of every candidate, for one request. */
  function Mismatches(env: Env, m: Matcher, actual: Request, body: Bytes, cs: seq<Candidate>, loader: nat -> Option<Bytes>):
    (r: seq<seq<Dimension>>)
    ensures |r| == |cs| && forall i :: 0 <= i < |cs| ==> r[i] == Mismatch(env, m, actual, body, cs[i], loader(i))
  {
    seq(|cs|, i requires 0 <= i < |cs| => Mismatch(env, m, actual, body, cs[i], loader(i)))
  }

  predicate Matches(mismatches: seq<seq<Dimension>>, i: nat)
    requires i < |mismatches|
  {
    mismatches[i] == []
  }

  predicate Selectable(mismatches: seq<seq<Dimension>>, s: SessionState, mode: Consumption, i: nat)
    requires i < |mismatches|
  {
    Matches(mismatches, i) && Available(s, i, mode)
  }

  /** Candidate `k` is the first that matches and is available. */
  predicate Selected(mismatches: seq<seq<Dimension>>, s: SessionState, mode: Consumption, k: nat)
    requires k < |mismatches|
  {
    Selectable(mismatches, s, mode, k) && forall i :: 0 <= i < k ==> !Selectable(mismatches, s, mode, i)
  }

  /** The result of one selection, said without the scan that computes it. */
  ghost predicate IsResult(r: MatchResult, mismatches: seq<seq<Dimension>>, s: SessionState, mode: Consumption, max: nat)
  {
    match r
    case Matched(k) => k < |mismatches| && Selected(mismatches, s, mode, k)
    case Exhausted(near) =>
      && (forall i :: 0 <= i < |mismatches| ==> !Selectable(mismatches, s, mode, i))
      && (exists i :: 0 <= i < |mismatches| && Matches(mismatches, i))
      && near == SortNear(FirstMisses(mismatches, |mismatches|, max))
    case NoMatch(near) =>
      && (forall i :: 0 <= i < |mismatches| ==> !Matches(mismatches, i))
      && near == SortNear(FirstMisses(mismatches, |mismatches|, max))
  }

  function AfterResult(r: MatchResult, s: SessionState, mode: Consumption): SessionState
  {
    if r.Matched? then Consumed(s, r.index, mode) else s
  }

  /** The candidates scanned by a selection: all of them, or those up to the match. */
  function Scanned(r: MatchResult, count: nat): nat
  {
    if r.Matched? then r.index + 1 else count
  }

  /** The loader is called for candidate `i`. */
  predicate Loads(m: Matcher, actual: Request, cs: seq<Candidate>, i: nat)
    requires i < |cs|
  {
    NeedsLoad(m, cs[i], Differences(m, actual, cs[i].flow) == [])
  }

  /** The loader calls made while scanning the first `n` candidates. */
  function LoadList(m: Matcher, actual: Request, cs: seq<Candidate>, n: nat): seq<nat>
    requires n <= |cs|
  {
    if n == 0 then []
    else if Loads(m, actual, cs, n - 1) then LoadList(m, actual, cs, n - 1) + [n - 1]
    else LoadList(m, actual, cs, n - 1)
  }

  /** Every call is for a scanned candidate that needs it. */
  lemma {:induction false} LoadListSound(m: Matcher, actual: Request, cs: seq<Candidate>, n: nat, k: nat)
    requires n <= |cs| && k < |LoadList(m, actual, cs, n)|
    ensures var i := LoadList(m, actual, cs, n)[k]; i < n && Loads(m, actual, cs, i)
  {
    hide Loads;
    if k < |LoadList(m, actual, cs, n - 1)| {
      LoadListSound(m, actual, cs, n - 1, k);
    }
  }

  /** Every scanned candidate that needs it is loaded. */
  lemma {:induction false} LoadListComplete(m: Matcher, actual: Request, cs: seq<Candidate>, n: nat, i: nat) returns (k: nat)
    requires i < n <= |cs| && Loads(m, actual, cs, i)
    ensures k < |LoadList(m, actual, cs, n)| && LoadList(m, actual, cs, n)[k] == i
  {
    hide Loads;
    if i == n - 1 {
      k := |LoadList(m, actual, cs, n - 1)|;
    } else {
      k := LoadListComplete(m, actual, cs, n - 1, i);
    }
  }

  /** The calls are in strictly increasing order, so no candidate is loaded twice. */
  lemma {:induction false} LoadListIncreasing(m: Matcher, actual: Request, cs: seq<Candidate>, n: nat, i: nat, j: nat)
    requires n <= |cs| && i < j < |LoadList(m, actual, cs, n)|
    ensures LoadList(m, actual, cs, n)[i] < LoadList(m, actual, cs, n)[j]
  {
    hide Loads;
    var before := LoadList(m, actual, cs, n - 1);
    if j < |before| {
      LoadListIncreasing(m, actual, cs, n - 1, i, j);
    } else {
      LoadListSound(m, actual, cs, n - 1, i);
    }
  }

  /** Compare one candidate, calling the loader if its bytes are needed. */
  method Evaluate(env: Env, m: Matcher, actual: Request, body: Bytes, cs: seq<Candidate>, index: nat,
                  loader: nat -> Option<Bytes>)
    returns (mismatch: seq<Dimension>, called: bool)
    requires index < |cs|
    ensures mismatch == Mismatch(env, m, actual, body, cs[index], loader(index))
    ensures called <==> Loads(m, actual, cs, index)
  {
    var c := cs[index];
    mismatch := Differences(m, actual, c.flow);
    var narrowed := mismatch == [];
    called := NeedsLoad(m, c, narrowed);
    var loaded := None;
    if called {
      loaded := loader(index);
    }
    LoadedOnlyWhenNeeded(env, m, body, c, narrowed, loaded, loader(index));
    hide NeedsLoad, BodyMatches, Differences;
    if !BodyMatches(env, m, body, c, narrowed, loaded) {
      mismatch := mismatch + [OnBody];
    }
  }

  /** The scan has passed the first `n` candidates without selecting one. */
  ghost predicate Passed(all: seq<seq<Dimension>>, s: SessionState, mode: Consumption, max: nat, n: nat,
                         near: seq<NearMiss>, found: bool)
  {
    && n <= |all|
    && near == FirstMisses(all, n, max)
    && (found <==> exists i :: 0 <= i < n && Matches(all, i))
    && forall i :: 0 <= i < n ==> !Selectable(all, s, mode, i)
  }

  lemma PassedStep(all: seq<seq<Dimension>>, s: SessionState, mode: Consumption, max: nat, n: nat,
                   near: seq<NearMiss>, found: bool)
    requires Passed(all, s, mode, max, n, near, found) && n < |all|
    ensures all[n] == [] && Available(s, n, mode) ==> Selected(all, s, mode, n)
    ensures all[n] == [] && !Available(s, n, mode) ==> Passed(all, s, mode, max, n + 1, near, true)
    ensures all[n] != [] ==>
      var more := if |near| < max then near + [NearMiss(n, |all[n]|, all[n])] else near;
      Passed(all, s, mode, max, n + 1, more, found)
  {
    hide Available;
    assert Matches(all, n) <==> all[n] == [];
    assert (exists i :: 0 <= i < n + 1 && Matches(all, i)) <==> (exists i :: 0 <= i < n && Matches(all, i)) || Matches(all, n);
  }

  lemma PassedAll(all: seq<seq<Dimension>>, s: SessionState, mode: Consumption, max: nat, near: seq<NearMiss>, found: bool)
    requires Passed(all, s, mode, max, |all|, near, found)
    ensures IsResult(if found then Exhausted(SortNear(near)) else NoMatch(SortNear(near)), all, s, mode, max)
  {
  }

  /** `select_with_loader`; `loads` lists the candidates for which the loader was called, in order. */
  method SelectWithLoader(env: Env, m: Matcher, actual: Request, body: Bytes, cs: seq<Candidate>, mode: Consumption,
                          session: MatcherSession, loader: nat -> Option<Bytes>)
    returns (r: MatchResult, loads: seq<nat>)
    modifies session
    ensures IsResult(r, Mismatches(env, m, actual, body, cs, loader), old(session.State()), mode, m.maxNearMisses)
    ensures session.State() == AfterResult(r, old(session.State()), mode)
    ensures loads == LoadList(m, actual, cs, Scanned(r, |cs|))
  {
    hide Mismatch, Mismatches, Loads, Available, Consumed, Passed, Selected;
    ghost var all, start := Mismatches(env, m, actual, body, cs, loader), session.State();
    var near: seq<NearMiss> := [];
    var matchingConsumed := false;
    loads := [];
    assert Passed(all, start, mode, m.maxNearMisses, 0, near, matchingConsumed) by {
      PassedNone(all, start, mode, m.maxNearMisses);
    }
    for index := 0 to |cs|
      invariant session.State() == start
      invariant Passed(all, start, mode, m.maxNearMisses, index, near, matchingConsumed)
      invariant loads == LoadList(m, actual, cs, index)
    {
      var mismatch, called := Evaluate(env, m, actual, body, cs, index, loader);
      if called {
        loads := loads + [index];
      }
      PassedStep(all, start, mode, m.maxNearMisses, index, near, matchingConsumed);
      if mismatch == [] {
        if session.IsAvailable(index, mode) {
          session.Consume(index, mode);
          return Matched(index), loads;
        }
        matchingConsumed := true;
      } else if |near| < m.maxNearMisses {
        near := near + [NearMiss(index, |mismatch|, mismatch)];
      }
    }
    PassedAll(all, start, mode, m.maxNearMisses, near, matchingConsumed);
    near := SortNear(near);
    r := if matchingConsumed then Exhausted(near) else NoMatch(near);
  }

  lemma PassedNone(all: seq<seq<Dimension>>, s: SessionState, mode: Consumption, max: nat)
    ensures Passed(all, s, mode, max, 0, [], false)
  {
  }

  /** The loader's answer is only looked at when the loader is called. */
  lemma LoadedOnlyWhenNeeded(env: Env, m: Matcher, body: Bytes, c: Candidate, narrowed: bool,
                             loaded: Option<Bytes>, answer: Option<Bytes>)
    requires NeedsLoad(m, c, narrowed) ==> loaded == answer
    ensures BodyMatches(env, m, body, c, narrowed, loaded) == BodyMatches(env, m, body, c, narrowed, answer)
  {
  }
}
