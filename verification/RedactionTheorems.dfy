/** What redaction of a flow says and hides: its markers, one by one, and its non-interference. */
module RedactionTheorems {
  import opened Prelude
  import opened Listing
  import opened Redaction

  // ---------- One marker for each value replaced ----------

  function ConfiguredAt(hs: seq<HeaderEntry>, names: set<string>): set<nat>
  {
    set i: nat | i < |hs| && Lower(hs[i].name) in names
  }

  /** The markers of a header list are those of exactly its configured entries, in order, under the given profile. */
  lemma {:induction false} HeaderMarkersInOrder(hs: seq<HeaderEntry>, names: set<string>, prefix: string, profile: string)
    returns (at: seq<nat>)
    ensures Lists(at, ConfiguredAt(hs, names)) && |at| == |HeaderMarkers(hs, names, prefix, profile)|
    ensures forall k :: 0 <= k < |at| ==>
      at[k] < |hs| && HeaderMarkers(hs, names, prefix, profile)[k] == Marker(prefix + "." + hs[at[k]].name, profile)
  {
    if hs == [] {
      return [];
    }
    var n := |hs| - 1;
    at := HeaderMarkersInOrder(hs[..n], names, prefix, profile);
    if Lower(hs[n].name) in names {
      ListsMore(at, ConfiguredAt(hs[..n], names), n, ConfiguredAt(hs, names));
      at := at + [n];
    } else {
      assert ConfiguredAt(hs, names) == ConfiguredAt(hs[..n], names);
    }
  }

  function ConfiguredPairsAt(ps: seq<QueryPair>, keys: set<string>): set<nat>
  {
    set i: nat | i < |ps| && ps[i].key in keys
  }

  lemma {:induction false} QueryMarkersInOrder(ps: seq<QueryPair>, keys: set<string>, profile: string)
    returns (at: seq<nat>)
    ensures Lists(at, ConfiguredPairsAt(ps, keys)) && |at| == |QueryMarkers(ps, keys, profile)|
    ensures forall k :: 0 <= k < |at| ==>
      at[k] < |ps| && QueryMarkers(ps, keys, profile)[k] == Marker("request.query." + ps[at[k]].key, profile)
  {
    if ps == [] {
      return [];
    }
    var n := |ps| - 1;
    at := QueryMarkersInOrder(ps[..n], keys, profile);
    if ps[n].key in keys {
      ListsMore(at, ConfiguredPairsAt(ps[..n], keys), n, ConfiguredPairsAt(ps, keys));
      at := at + [n];
    } else {
      assert ConfiguredPairsAt(ps, keys) == ConfiguredPairsAt(ps[..n], keys);
    }
  }

  // ---------- Non-interference ----------

  /** The lists differ at most in values under configured names. */
  predicate HeadersAgree(a: seq<HeaderEntry>, b: seq<HeaderEntry>, names: set<string>)
  {
    && |a| == |b|
    && forall i :: 0 <= i < |a| ==> a[i].name == b[i].name && (a[i].value == b[i].value || Lower(a[i].name) in names)
  }

  predicate QueriesAgree(a: seq<QueryPair>, b: seq<QueryPair>, keys: set<string>)
  {
    |a| == |b| && forall i :: 0 <= i < |a| ==> a[i].key == b[i].key && (a[i].value == b[i].value || a[i].key in keys)
  }

  /** The flows differ at most in header values under configured names and in query values under configured keys. */
  predicate FlowsAgree(f: Flow, g: Flow, c: Config)
  {
    && f.request == g.request.(headers := f.request.headers, trailers := f.request.trailers, query := f.request.query)
    && HeadersAgree(f.request.headers, g.request.headers, c.headers)
    && HeadersAgree(f.request.trailers, g.request.trailers, c.headers)
    && QueriesAgree(f.request.query, g.request.query, c.queryKeys)
    && (f.response.Some? <==> g.response.Some?)
    && (f.response.Some? ==>
          && HeadersAgree(f.response.value.headers, g.response.value.headers, c.headers)
          && HeadersAgree(f.response.value.trailers, g.response.value.trailers, c.headers))
    && f.redactions == g.redactions
  }

  lemma HeadersHiddenIff(a: seq<HeaderEntry>, b: seq<HeaderEntry>, names: set<string>)
    ensures RedactedHeaders(a, names) == RedactedHeaders(b, names) <==> HeadersAgree(a, b, names)
  {
    var x, y := RedactedHeaders(a, names), RedactedHeaders(b, names);
    RedactedHeadersMasked(a, names);
    RedactedHeadersMasked(b, names);
    hide RedactedHeaders;
    if x == y {
      forall i | 0 <= i < |a|
        ensures a[i].name == b[i].name && (a[i].value == b[i].value || Lower(a[i].name) in names)
      {
        assert x[i] == y[i];
      }
    }
    if HeadersAgree(a, b, names) {
      assert forall i :: 0 <= i < |a| ==> x[i] == y[i];
    }
  }

  lemma QueriesHiddenIff(a: seq<QueryPair>, b: seq<QueryPair>, keys: set<string>)
    ensures RedactedQuery(a, keys) == RedactedQuery(b, keys) <==> QueriesAgree(a, b, keys)
  {
    var x, y := RedactedQuery(a, keys), RedactedQuery(b, keys);
    assert QueryMasked(a, x, keys) && QueryMasked(b, y, keys);
    hide RedactedQuery;
    if x == y {
      forall i | 0 <= i < |a|
        ensures a[i].key == b[i].key && (a[i].value == b[i].value || a[i].key in keys)
      {
        assert x[i] == y[i];
      }
    }
    if QueriesAgree(a, b, keys) {
      assert forall i :: 0 <= i < |a| ==> x[i] == y[i];
    }
  }

  /** Markers tell names, never values. */
  lemma {:induction false} SameHeaderMarkers(a: seq<HeaderEntry>, b: seq<HeaderEntry>, names: set<string>, prefix: string,
                                             profile: string)
    requires HeadersAgree(a, b, names)
    ensures HeaderMarkers(a, names, prefix, profile) == HeaderMarkers(b, names, prefix, profile)
  {
    if a != [] {
      SameHeaderMarkers(a[..|a| - 1], b[..|b| - 1], names, prefix, profile);
    }
  }

  lemma {:induction false} SameQueryMarkers(a: seq<QueryPair>, b: seq<QueryPair>, keys: set<string>, profile: string)
    requires QueriesAgree(a, b, keys)
    ensures QueryMarkers(a, keys, profile) == QueryMarkers(b, keys, profile)
  {
    if a != [] {
      SameQueryMarkers(a[..|a| - 1], b[..|b| - 1], keys, profile);
    }
  }

  lemma SameMarkers(f: Flow, g: Flow, c: Config, profile: string)
    requires HeadersAgree(f.request.headers, g.request.headers, c.headers)
    requires HeadersAgree(f.request.trailers, g.request.trailers, c.headers)
    requires QueriesAgree(f.request.query, g.request.query, c.queryKeys)
    requires f.response.Some? <==> g.response.Some?
    requires f.response.Some? ==>
      && HeadersAgree(f.response.value.headers, g.response.value.headers, c.headers)
      && HeadersAgree(f.response.value.trailers, g.response.value.trailers, c.headers)
    ensures FlowMarkers(f, c, profile) == FlowMarkers(g, c, profile)
  {
    SameHeaderMarkers(f.request.headers, g.request.headers, c.headers, "request.headers", profile);
    SameHeaderMarkers(f.request.trailers, g.request.trailers, c.headers, "request.trailers", profile);
    SameQueryMarkers(f.request.query, g.request.query, c.queryKeys, profile);
    if f.response.Some? {
      var r, s := f.response.value, g.response.value;
      SameHeaderMarkers(r.headers, s.headers, c.headers, "response.headers", profile);
      SameHeaderMarkers(r.trailers, s.trailers, c.headers, "response.trailers", profile);
    }
    hide HeaderMarkers, QueryMarkers, HeadersAgree, QueriesAgree;
  }

  /**
   * A published flow tells two flows apart exactly when they differ in something the policy does not cover: values
   * under configured names never show, and nothing else is lost.
   */
  lemma RedactionHidesExactly(f: Flow, g: Flow, c: Config, profile: string)
    ensures RedactedFlow(f, c, profile) == RedactedFlow(g, c, profile) <==> FlowsAgree(f, g, c)
  {
    HeadersHiddenIff(f.request.headers, g.request.headers, c.headers);
    HeadersHiddenIff(f.request.trailers, g.request.trailers, c.headers);
    QueriesHiddenIff(f.request.query, g.request.query, c.queryKeys);
    if f.response.Some? && g.response.Some? {
      HeadersHiddenIff(f.response.value.headers, g.response.value.headers, c.headers);
      HeadersHiddenIff(f.response.value.trailers, g.response.value.trailers, c.headers);
    }
    hide RedactedHeaders, RedactedQuery, HeadersAgree, QueriesAgree, FlowMarkers;
    var x, y := RedactedFlow(f, c, profile), RedactedFlow(g, c, profile);
    if x == y || FlowsAgree(f, g, c) {
      SameMarkers(f, g, c, profile);
      SuffixCancels(f.redactions, g.redactions, FlowMarkers(f, c, profile));
    }
  }

  lemma SuffixCancels(a: seq<Marker>, b: seq<Marker>, c: seq<Marker>)
    ensures a + c == b + c <==> a == b
  {
    if a + c == b + c {
      assert a == (a + c)[..|a|] && b == (b + c)[..|b|];
    }
  }
}
