/** What the variables of a scenario are after its extractions: one assignment after the other, each from its source. */
module ExtractionTheorems {
  import opened Prelude
  import opened TextParsing
  import opened Listing
  import opened Json
  import opened Redaction
  import opened RedactionTheorems
  import opened Template
  import opened Scenario

  // ---------- Sources ----------

  function NonEmptyAt(parts: seq<string>): set<nat>
  {
    set i: nat | i < |parts| && parts[i] != ""
  }

  /** The parts kept are exactly the non-empty ones, in order. */
  lemma {:induction false} PartsKept(parts: seq<string>) returns (at: seq<nat>)
    ensures Lists(at, NonEmptyAt(parts)) && |at| == |NonEmptyParts(parts)|
    ensures forall k :: 0 <= k < |at| ==> at[k] < |parts| && NonEmptyParts(parts)[k] == parts[at[k]]
  {
    if parts == [] {
      return [];
    }
    var n := |parts| - 1;
    at := PartsKept(parts[..n]);
    if parts[n] != "" {
      ListsMore(at, NonEmptyAt(parts[..n]), n, NonEmptyAt(parts));
      at := at + [n];
    } else {
      assert NonEmptyAt(parts) == NonEmptyAt(parts[..n]);
    }
  }

  /** Entry `i` is the first of its key. */
  predicate FirstPairAt(ps: seq<QueryPair>, key: Bytes, i: nat)
  {
    i < |ps| && ps[i].key == key && forall k :: 0 <= k < i ==> ps[k].key != key
  }

  lemma {:induction false} FirstQueryIff(ps: seq<QueryPair>, key: Bytes, value: Bytes)
    ensures FirstQuery(ps, key) == Some(value) <==> exists i: nat :: FirstPairAt(ps, key, i) && ps[i].value == value
  {
    if ps != [] {
      var tail := ps[1..];
      FirstQueryIff(tail, key, value);
      assert FirstPairAt(ps, key, 0) <==> ps[0].key == key;
      assert forall i: nat :: ps[0].key != key && FirstPairAt(tail, key, i) ==>
        FirstPairAt(ps, key, i + 1) && ps[i + 1] == tail[i];
      assert forall i: nat :: ps[0].key != key && FirstPairAt(ps, key, i) ==>
        i > 0 && FirstPairAt(tail, key, i - 1) && ps[i] == tail[i - 1];
    }
  }

  /** Header `i` is the first of its name, whatever the case. */
  predicate FirstHeaderAt(hs: seq<HeaderEntry>, name: Bytes, i: nat)
  {
    i < |hs| && SameLetters(hs[i].name, name) && forall k :: 0 <= k < i ==> !SameLetters(hs[k].name, name)
  }

  lemma {:induction false} FirstHeaderIff(hs: seq<HeaderEntry>, name: Bytes, value: Bytes)
    ensures FirstHeader(hs, name) == Some(value) <==> exists i: nat :: FirstHeaderAt(hs, name, i) && hs[i].value == value
  {
    if hs != [] {
      var tail := hs[1..];
      FirstHeaderIff(tail, name, value);
      LowerEqualIff(hs[0].name, name);
      hide Lower, SameLetters;
      assert FirstHeaderAt(hs, name, 0) <==> SameLetters(hs[0].name, name);
      assert forall i: nat :: !SameLetters(hs[0].name, name) && FirstHeaderAt(tail, name, i) ==>
        FirstHeaderAt(hs, name, i + 1) && hs[i + 1] == tail[i];
      assert forall i: nat :: !SameLetters(hs[0].name, name) && FirstHeaderAt(hs, name, i) ==>
        i > 0 && FirstHeaderAt(tail, name, i - 1) && hs[i] == tail[i - 1];
    }
  }

  /** What a source stands for: the relation between it and its value. */
  ghost predicate Yields(codec: Codec, s: VariableSource, r: Request, body: Option<Json>, variables: Variables, v: Bytes)
  {
    match s
    case PathSegment(index) => NthSegment(r.path, index, v)
    case QueryKey(key) => exists i: nat :: FirstPairAt(r.query, key, i) && r.query[i].value == v
    case HeaderName(name) => exists i: nat :: FirstHeaderAt(r.headers, name, i) && r.headers[i].value == v
    case JsonPointer(pointer) =>
      && body.Some?
      && WellFormed(pointer)
      && Get(body.value, Target(pointer)).Some?
      && var target := Get(body.value, Target(pointer)).value;
         if target.Text? then v == target.text else v == codec.encode(target)
    case PriorVariable(name) => name in variables && variables[name] == v
  }

  /** Counting from 0, the non-empty part number `index` between the slashes of a path. */
  ghost predicate NthSegment(path: Bytes, index: nat, v: Bytes)
  {
    var parts := Split(path, '/');
    exists at :: Lists(at, NonEmptyAt(parts)) && index < |at| && at[index] < |parts| && parts[at[index]] == v
  }

  lemma NthSegmentIs(path: Bytes, index: nat, v: Bytes)
    ensures NthSegment(path, index, v) <==>
      var parts := NonEmptyParts(Split(path, '/')); index < |parts| && parts[index] == v
  {
    var parts := Split(path, '/');
    var at := PartsKept(parts);
    if NthSegment(path, index, v) {
      var other :| Lists(other, NonEmptyAt(parts)) && index < |other| && other[index] < |parts|
                   && parts[other[index]] == v;
      ListingUnique(at, other, NonEmptyAt(parts));
    }
  }

  /** A source has a value exactly when the policy does not redact it and it stands for that value. */
  lemma ExtractValueIff(codec: Codec, s: VariableSource, r: Request, body: Option<Json>, variables: Variables, c: Config,
                        v: Bytes)
    ensures ExtractValue(codec, s, r, body, variables, c) == Some(v)
       <==> !SourceRedacted(s, c) && Yields(codec, s, r, body, variables, v)
  {
    match s
    case PathSegment(index) =>
      NthSegmentIs(r.path, index, v);
      hide NonEmptyParts, NthSegment, Split;
    case QueryKey(key) =>
      FirstQueryIff(r.query, key, v);
      hide FirstQuery, FirstPairAt;
    case HeaderName(name) =>
      FirstHeaderIff(r.headers, name, v);
      hide FirstHeader, FirstHeaderAt;
    case JsonPointer(_) =>
    case PriorVariable(_) =>
  }

  /** A redacted source has no value, whatever the request holds; the policy covers neither paths nor variables. */
  lemma RedactedSourcesRefused(codec: Codec, r: Request, body: Option<Json>, variables: Variables, c: Config, d: Config)
    ensures forall key :: key in c.queryKeys ==> ExtractValue(codec, QueryKey(key), r, body, variables, c).None?
    ensures forall name :: Lower(name) in c.headers ==>
      ExtractValue(codec, HeaderName(name), r, body, variables, c).None?
    ensures forall p :: p in c.jsonPaths ==> ExtractValue(codec, JsonPointer(p), r, body, variables, c).None?
    ensures forall s: VariableSource :: s.PathSegment? || s.PriorVariable? ==>
      ExtractValue(codec, s, r, body, variables, c) == ExtractValue(codec, s, r, body, variables, d)
  {
    hide Split, NonEmptyParts;
  }

  // ---------- One extraction after the other ----------

  /** One extraction: its name is bound to the value of its source under the variables before, and nothing else changes. */
  predicate Extracts(codec: Codec, e: Extraction, r: Request, body: Option<Json>, c: Config, before: Variables,
                     after: Variables)
  {
    var value := ExtractValue(codec, e.source, r, body, before, c);
    && value.Some?
    && |value.value| <= MAX_VALUE_BYTES
    && after.Keys == before.Keys + {e.name}
    && after[e.name] == value.value
    && forall name :: name in before && name != e.name ==> after[name] == before[name]
  }

  /** `vs` are the variables before, between and after the extractions. */
  ghost predicate Trace(codec: Codec, es: seq<Extraction>, r: Request, body: Option<Json>, c: Config, vs: seq<Variables>)
  {
    |vs| == |es| + 1 && forall i :: 0 <= i < |es| ==> Extracts(codec, es[i], r, body, c, vs[i], vs[i + 1])
  }

  /** Extraction from `variables` goes through `vs` and ends with `result`. */
  ghost predicate Ends(codec: Codec, es: seq<Extraction>, r: Request, body: Option<Json>, variables: Variables, c: Config,
                       vs: seq<Variables>, result: Extracted)
  {
    && 0 < |vs| <= |es| + 1
    && vs[0] == variables
    && var n := |vs| - 1;
       && Trace(codec, es[..n], r, body, c, vs)
       && match result
          case Values(after) => n == |es| && after == vs[n]
          case Missing => n < |es| && ExtractValue(codec, es[n].source, r, body, vs[n], c).None?
          case TooLong =>
            && n < |es|
            && var value := ExtractValue(codec, es[n].source, r, body, vs[n], c);
               value.Some? && |value.value| > MAX_VALUE_BYTES
  }

  lemma ExtractedSame(codec: Codec, e: Extraction, r: Request, body: Option<Json>, c: Config, before: Variables,
                      after: Variables)
    ensures Extracts(codec, e, r, body, c, before, after) <==>
      var value := ExtractValue(codec, e.source, r, body, before, c);
      value.Some? && |value.value| <= MAX_VALUE_BYTES && after == before[e.name := value.value]
  {
    hide ExtractValue;
    var value := ExtractValue(codec, e.source, r, body, before, c);
    if Extracts(codec, e, r, body, c, before, after) {
      assert after == before[e.name := value.value];
    }
  }

  lemma FrontTrace(codec: Codec, es: seq<Extraction>, r: Request, body: Option<Json>, c: Config, vs: seq<Variables>)
    requires Trace(codec, es, r, body, c, vs) && es != []
    ensures Trace(codec, es[..|es| - 1], r, body, c, vs[..|es|])
  {
    hide Extracts;
  }

  lemma MoreTrace(codec: Codec, es: seq<Extraction>, r: Request, body: Option<Json>, c: Config, vs: seq<Variables>,
                  n: nat, after: Variables)
    requires n < |es| && Trace(codec, es[..n], r, body, c, vs) && Extracts(codec, es[n], r, body, c, vs[n], after)
    ensures Trace(codec, es[..n + 1], r, body, c, vs + [after])
  {
    hide Extracts;
  }

  /** Going through `vs` is what extraction does. */
  lemma {:induction false} TraceExtracts(codec: Codec, es: seq<Extraction>, r: Request, body: Option<Json>, c: Config,
                                         vs: seq<Variables>)
    requires Trace(codec, es, r, body, c, vs)
    ensures ExtractAll(codec, es, r, body, vs[0], c) == Values(vs[|es|])
  {
    if es != [] {
      var n := |es| - 1;
      assert Extracts(codec, es[n], r, body, c, vs[n], vs[n + 1]);
      ExtractedSame(codec, es[n], r, body, c, vs[n], vs[n + 1]);
      FrontTrace(codec, es, r, body, c, vs);
      TraceExtracts(codec, es[..n], r, body, c, vs[..n + 1]);
      hide ExtractValue;
    }
  }

  lemma EndsExtracts(codec: Codec, es: seq<Extraction>, r: Request, body: Option<Json>, variables: Variables, c: Config,
                     vs: seq<Variables>, result: Extracted)
    requires Ends(codec, es, r, body, variables, c, vs, result)
    ensures ExtractAll(codec, es, r, body, variables, c) == result
  {
    var n := |vs| - 1;
    TraceExtracts(codec, es[..n], r, body, c, vs);
    hide ExtractValue, Trace;
    if result.Values? {
      assert es[..n] == es;
    } else {
      assert es[..n + 1][..n] == es[..n];
      FailureIsFinal(codec, es, n + 1, r, body, variables, c);
    }
  }

  lemma {:induction false} ExtractionEnds(codec: Codec, es: seq<Extraction>, r: Request, body: Option<Json>,
                                          variables: Variables, c: Config) returns (vs: seq<Variables>)
    ensures Ends(codec, es, r, body, variables, c, vs, ExtractAll(codec, es, r, body, variables, c))
  {
    if es == [] {
      return [variables];
    }
    var n := |es| - 1;
    vs := ExtractionEnds(codec, es[..n], r, body, variables, c);
    var before := ExtractAll(codec, es[..n], r, body, variables, c);
    hide ExtractValue, Extracts, Trace;
    assert es[..n][..|vs| - 1] == es[..|vs| - 1];
    if before.Values? {
      var value := ExtractValue(codec, es[n].source, r, body, vs[n], c);
      if value.Some? && |value.value| <= MAX_VALUE_BYTES {
        var after := vs[n][es[n].name := value.value];
        ExtractedSame(codec, es[n], r, body, c, vs[n], after);
        MoreTrace(codec, es, r, body, c, vs, n, after);
        vs := vs + [after];
        assert es[..n + 1] == es;
      }
    }
  }

  /**
   * Extraction ends with a result exactly when some sequence of variables leads there: each extraction binds its name to
   * its source's value under what the earlier ones left, up to the end, to the first source without a value, or to the
   * first value that is too long.
   */
  lemma ExtractedIff(codec: Codec, es: seq<Extraction>, r: Request, body: Option<Json>, variables: Variables, c: Config,
                     result: Extracted)
    ensures ExtractAll(codec, es, r, body, variables, c) == result
       <==> exists vs :: Ends(codec, es, r, body, variables, c, vs, result)
  {
    if ExtractAll(codec, es, r, body, variables, c) == result {
      var vs := ExtractionEnds(codec, es, r, body, variables, c);
    }
    if exists vs :: Ends(codec, es, r, body, variables, c, vs, result) {
      var vs :| Ends(codec, es, r, body, variables, c, vs, result);
      EndsExtracts(codec, es, r, body, variables, c, vs, result);
    }
  }

  // ---------- What the variables are afterwards ----------

  function Names(es: seq<Extraction>): set<Bytes>
  {
    set e | e in es :: e.name
  }

  /** The last extraction of its name. */
  predicate LastOfName(es: seq<Extraction>, i: nat)
  {
    i < |es| && forall k :: i < k < |es| ==> es[k].name != es[i].name
  }

  lemma {:induction false} TraceVariables(codec: Codec, es: seq<Extraction>, r: Request, body: Option<Json>, c: Config,
                                          vs: seq<Variables>)
    requires Trace(codec, es, r, body, c, vs)
    ensures vs[|es|].Keys == vs[0].Keys + Names(es)
    ensures forall name :: name in vs[0] && name !in Names(es) ==> vs[|es|][name] == vs[0][name]
    ensures forall i: nat :: LastOfName(es, i) ==>
      ExtractValue(codec, es[i].source, r, body, vs[i], c) == Some(vs[|es|][es[i].name])
  {
    if es != [] {
      var n := |es| - 1;
      var front := es[..n];
      assert es == front + [es[n]];
      assert Extracts(codec, es[n], r, body, c, vs[n], vs[n + 1]);
      hide ExtractValue;
      FrontTrace(codec, es, r, body, c, vs);
      TraceVariables(codec, front, r, body, c, vs[..n + 1]);
      hide Trace;
      assert Names(es) == Names(front) + {es[n].name};
      hide Names;
      forall i: nat | LastOfName(es, i)
        ensures ExtractValue(codec, es[i].source, r, body, vs[i], c) == Some(vs[|es|][es[i].name])
      {
        if i < n {
          LastOfFront(es, i);
        }
      }
    }
  }

  lemma LastOfFront(es: seq<Extraction>, i: nat)
    requires LastOfName(es, i) && i < |es| - 1
    ensures var front := es[..|es| - 1];
            LastOfName(front, i) && front[i] == es[i] && es[i].name != es[|es| - 1].name && es[i].name in Names(front)
  {
    assert es[i] == es[..|es| - 1][i] && es[i] in es[..|es| - 1];
  }

  /**
   * A step binds exactly the names its transition extracts, each to the value of its source under the variables of the
   * step so far, and leaves every other variable as it was.
   */
  lemma StepBindsExtractions(codec: Codec, s: ScenarioDef, c: Config, rs: RuntimeState, r: Request, body: Bytes)
    returns (t: Transition, vs: seq<Variables>)
    requires Advanced(codec, s, c, rs, r, body).0.Stepped?
    ensures t in s.transitions && Enabled(t, rs.state, r)
    ensures
      var after := Advanced(codec, s, c, rs, r, body).1.variables;
      var json := if NeedsJson(t) then codec.decode(body) else None;
      && Trace(codec, t.extract, r, json, c, vs)
      && vs[0] == rs.variables
      && vs[|t.extract|] == after
      && after.Keys == rs.variables.Keys + Names(t.extract)
      && (forall name :: name in rs.variables && name !in Names(t.extract) ==> after[name] == rs.variables[name])
      && (forall i: nat :: LastOfName(t.extract, i) ==>
            ExtractValue(codec, t.extract[i].source, r, json, vs[i], c) == Some(after[t.extract[i].name]))
  {
    var k := FirstEnabled(s.transitions, rs.state, r);
    t := s.transitions[k.value];
    var json := if NeedsJson(t) then codec.decode(body) else None;
    vs := ExtractionEnds(codec, t.extract, r, json, rs.variables, c);
    hide RenderedResponse, FirstEnabled, NeedsJson, Trace, ExtractAll, Extracts;
    assert t.extract[..|t.extract|] == t.extract;
    TraceVariables(codec, t.extract, r, json, c, vs);
    hide ExtractValue, LastOfName, Names;
  }

  // ---------- Redacted fields never become variables ----------

  lemma {:induction false} SameFirstQuery(a: seq<QueryPair>, b: seq<QueryPair>, keys: set<string>, key: Bytes)
    requires QueriesAgree(a, b, keys) && key !in keys
    ensures FirstQuery(a, key) == FirstQuery(b, key)
  {
    if a != [] {
      SameFirstQuery(a[1..], b[1..], keys, key);
    }
  }

  lemma {:induction false} SameFirstHeader(a: seq<HeaderEntry>, b: seq<HeaderEntry>, names: set<string>, name: Bytes)
    requires HeadersAgree(a, b, names) && Lower(name) !in names
    ensures FirstHeader(a, name) == FirstHeader(b, name)
  {
    if a != [] {
      SameFirstHeader(a[1..], b[1..], names, name);
    }
  }

  /** Requests that differ only in redacted header and query values extract the same variables. */
  lemma {:induction false} RedactedNeverExtracted(codec: Codec, es: seq<Extraction>, r: Request, q: Request,
                                                  body: Option<Json>, variables: Variables, c: Config)
    requires HeadersAgree(r.headers, q.headers, c.headers) && QueriesAgree(r.query, q.query, c.queryKeys)
    requires r.path == q.path
    ensures ExtractAll(codec, es, r, body, variables, c) == ExtractAll(codec, es, q, body, variables, c)
  {
    if es != [] {
      RedactedNeverExtracted(codec, es[..|es| - 1], r, q, body, variables, c);
      var before := ExtractAll(codec, es[..|es| - 1], r, body, variables, c);
      if before.Values? {
        SameValue(codec, es[|es| - 1].source, r, q, body, before.variables, c);
      }
      hide ExtractValue, HeadersAgree, QueriesAgree;
    }
  }

  lemma SameValue(codec: Codec, s: VariableSource, r: Request, q: Request, body: Option<Json>, variables: Variables,
                  c: Config)
    requires HeadersAgree(r.headers, q.headers, c.headers) && QueriesAgree(r.query, q.query, c.queryKeys)
    requires r.path == q.path
    ensures ExtractValue(codec, s, r, body, variables, c) == ExtractValue(codec, s, q, body, variables, c)
  {
    if !SourceRedacted(s, c) {
      match s
      case QueryKey(key) => SameFirstQuery(r.query, q.query, c.queryKeys, key);
      case HeaderName(name) => SameFirstHeader(r.headers, q.headers, c.headers, name);
      case _ =>
    }
    hide FirstQuery, FirstHeader, HeadersAgree, QueriesAgree, NonEmptyParts, Split;
  }
}
