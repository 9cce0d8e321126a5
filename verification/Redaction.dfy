/** Redaction of a flow before publication (crates/eggreplay-core/src/security.rs). */
module Redaction {
  import opened Prelude
  import opened Json
  import opened Ordering

  datatype QueryPair = QueryPair(key: Bytes, value: Bytes)

  datatype Marker = Marker(field: string, profile: string)

  /** A stored body, described by metadata. */
  datatype BodyRef = Absent | Empty | Blob(sha256: string, length: nat)

  datatype Request = Request(
    method_: Bytes,
    scheme: Bytes,
    authority: Bytes,
    path: Bytes,
    query: seq<QueryPair>,
    headers: seq<HeaderEntry>,
    trailers: seq<HeaderEntry>,
    body: BodyRef)

  datatype Response = Response(headers: seq<HeaderEntry>, trailers: seq<HeaderEntry>)

  datatype Flow = Flow(request: Request, response: Option<Response>, redactions: seq<Marker>)

  datatype Config = Config(headers: set<string>, queryKeys: set<string>, jsonPaths: set<string>)

  /** JSON decoding and encoding of body bytes. */
  datatype Codec = Codec(decode: Bytes -> Option<Json>, encode: Json -> Bytes)

  ghost predicate Faithful(codec: Codec)
  {
    forall j :: codec.decode(codec.encode(j)) == Some(j)
  }

  const MARKER: Bytes := "<redacted>"
  const BODY_JSON_PREFIX: string := "request.body.json:"
  const RESPONSE_BODY_JSON_PREFIX: string := "response.body.json:"

  // ---------- Headers ----------

  function RedactedHeader(h: HeaderEntry, names: set<string>): HeaderEntry
  {
    if Lower(h.name) in names then h.(value := MARKER) else h
  }

  function RedactedHeaders(hs: seq<HeaderEntry>, names: set<string>): (r: seq<HeaderEntry>)
    ensures |r| == |hs| && forall i :: 0 <= i < |hs| ==> r[i] == RedactedHeader(hs[i], names)
  {
    seq(|hs|, i requires 0 <= i < |hs| => RedactedHeader(hs[i], names))
  }

  function HeaderMarkers(hs: seq<HeaderEntry>, names: set<string>, prefix: string, profile: string): seq<Marker>
  {
    if hs == [] then []
    else
      var rest, h := HeaderMarkers(hs[..|hs| - 1], names, prefix, profile), hs[|hs| - 1];
      if Lower(h.name) in names then rest + [Marker(prefix + "." + h.name, profile)] else rest
  }

  method RedactHeaders(hs: seq<HeaderEntry>, names: set<string>, markers: seq<Marker>, prefix: string, profile: string)
    returns (redacted: seq<HeaderEntry>, pushed: seq<Marker>)
    ensures redacted == RedactedHeaders(hs, names)
    ensures pushed == markers + HeaderMarkers(hs, names, prefix, profile)
  {
    redacted, pushed := hs, markers;
    for i := 0 to |hs|
      invariant |redacted| == |hs|
      invariant forall k :: 0 <= k < i ==> redacted[k] == RedactedHeader(hs[k], names)
      invariant forall k :: i <= k < |hs| ==> redacted[k] == hs[k]
      invariant pushed == markers + HeaderMarkers(hs[..i], names, prefix, profile)
    {
      assert hs[..i + 1][..i] == hs[..i];
      if Lower(redacted[i].name) in names {
        redacted := redacted[i := redacted[i].(value := MARKER)];
        pushed := pushed + [Marker(prefix + "." + hs[i].name, profile)];
      }
    }
    assert hs[..|hs|] == hs;
    assert redacted == RedactedHeaders(hs, names);
  }

  // ---------- Query ----------

  function RedactedQuery(ps: seq<QueryPair>, keys: set<string>): (r: seq<QueryPair>)
    ensures |r| == |ps|
    ensures forall i :: 0 <= i < |ps| ==> r[i] == if ps[i].key in keys then ps[i].(value := MARKER) else ps[i]
  {
    seq(|ps|, i requires 0 <= i < |ps| => if ps[i].key in keys then ps[i].(value := MARKER) else ps[i])
  }

  function QueryMarkers(ps: seq<QueryPair>, keys: set<string>, profile: string): seq<Marker>
  {
    if ps == [] then []
    else
      var rest, p := QueryMarkers(ps[..|ps| - 1], keys, profile), ps[|ps| - 1];
      if p.key in keys then rest + [Marker("request.query." + p.key, profile)] else rest
  }

  method RedactQuery(ps: seq<QueryPair>, keys: set<string>, markers: seq<Marker>, profile: string)
    returns (redacted: seq<QueryPair>, pushed: seq<Marker>)
    ensures redacted == RedactedQuery(ps, keys)
    ensures pushed == markers + QueryMarkers(ps, keys, profile)
  {
    redacted, pushed := ps, markers;
    for i := 0 to |ps|
      invariant |redacted| == |ps|
      invariant forall k :: 0 <= k < i ==> redacted[k] == RedactedQuery(ps, keys)[k]
      invariant forall k :: i <= k < |ps| ==> redacted[k] == ps[k]
      invariant pushed == markers + QueryMarkers(ps[..i], keys, profile)
    {
      assert ps[..i + 1][..i] == ps[..i];
      if redacted[i].key in keys {
        redacted := redacted[i := redacted[i].(value := MARKER)];
        pushed := pushed + [Marker("request.query." + ps[i].key, profile)];
      }
    }
    assert ps[..|ps|] == ps;
    assert redacted == RedactedQuery(ps, keys);
  }

  // ---------- The whole flow ----------

  function FlowMarkers(f: Flow, c: Config, profile: string): seq<Marker>
  {
    HeaderMarkers(f.request.headers, c.headers, "request.headers", profile)
    + HeaderMarkers(f.request.trailers, c.headers, "request.trailers", profile)
    + (match f.response
       case None => []
       case Some(r) => HeaderMarkers(r.headers, c.headers, "response.headers", profile)
                       + HeaderMarkers(r.trailers, c.headers, "response.trailers", profile))
    + QueryMarkers(f.request.query, c.queryKeys, profile)
  }

  /** The redacted flow: marked values replaced, markers appended, everything else as it was. */
  function RedactedFlow(f: Flow, c: Config, profile: string): Flow
  {
    Flow(f.request.(headers := RedactedHeaders(f.request.headers, c.headers),
                    trailers := RedactedHeaders(f.request.trailers, c.headers),
                    query := RedactedQuery(f.request.query, c.queryKeys)),
         match f.response
         case None => None
         case Some(r) => Some(Response(RedactedHeaders(r.headers, c.headers), RedactedHeaders(r.trailers, c.headers))),
         f.redactions + FlowMarkers(f, c, profile))
  }

  /** Every value under a configured name is the marker; every other value, every name and the order are as before. */
  predicate HeadersMasked(before: seq<HeaderEntry>, after: seq<HeaderEntry>, names: set<string>)
  {
    && |after| == |before|
    && forall i :: 0 <= i < |before| ==>
         && after[i].name == before[i].name
         && after[i].value == if Lower(before[i].name) in names then "<redacted>" else before[i].value
  }

  predicate QueryMasked(before: seq<QueryPair>, after: seq<QueryPair>, keys: set<string>)
  {
    && |after| == |before|
    && forall i :: 0 <= i < |before| ==>
         && after[i].key == before[i].key
         && after[i].value == if before[i].key in keys then "<redacted>" else before[i].value
  }

  /** All four header lists and the query are masked, and nothing else has changed but the markers. */
  predicate FlowMasked(before: Flow, after: Flow, c: Config)
  {
    && HeadersMasked(before.request.headers, after.request.headers, c.headers)
    && HeadersMasked(before.request.trailers, after.request.trailers, c.headers)
    && QueryMasked(before.request.query, after.request.query, c.queryKeys)
    && after.request == before.request.(headers := after.request.headers, trailers := after.request.trailers,
                                        query := after.request.query)
    && (after.response.Some? <==> before.response.Some?)
    && (after.response.Some? ==>
          && HeadersMasked(before.response.value.headers, after.response.value.headers, c.headers)
          && HeadersMasked(before.response.value.trailers, after.response.value.trailers, c.headers))
  }

  lemma RedactedFlowMasked(f: Flow, c: Config, profile: string)
    ensures FlowMasked(f, RedactedFlow(f, c, profile), c)
  {
    RedactedHeadersMasked(f.request.headers, c.headers);
    RedactedHeadersMasked(f.request.trailers, c.headers);
    if f.response.Some? {
      RedactedHeadersMasked(f.response.value.headers, c.headers);
      RedactedHeadersMasked(f.response.value.trailers, c.headers);
    }
    assert QueryMasked(f.request.query, RedactedQuery(f.request.query, c.queryKeys), c.queryKeys);
    hide HeadersMasked, QueryMasked, RedactedHeaders, RedactedQuery, HeaderMarkers, QueryMarkers;
  }

  lemma RedactedHeadersMasked(hs: seq<HeaderEntry>, names: set<string>)
    ensures HeadersMasked(hs, RedactedHeaders(hs, names), names)
  {
  }

  method RedactFlow(flow: Flow, c: Config, profile: string) returns (f: Flow)
    ensures f == RedactedFlow(flow, c, profile)
    ensures FlowMasked(flow, f, c)
  {
    RedactedFlowMasked(flow, c, profile);
    hide FlowMasked;
    hide RedactedHeaders, HeaderMarkers, RedactedQuery, QueryMarkers;
    f := flow;
    var headers, trailers, query, markers;
    headers, markers := RedactHeaders(f.request.headers, c.headers, f.redactions, "request.headers", profile);
    trailers, markers := RedactHeaders(f.request.trailers, c.headers, markers, "request.trailers", profile);
    f := f.(request := f.request.(headers := headers, trailers := trailers));
    if f.response.Some? {
      headers, markers := RedactHeaders(f.response.value.headers, c.headers, markers, "response.headers", profile);
      trailers, markers := RedactHeaders(f.response.value.trailers, c.headers, markers, "response.trailers", profile);
      f := f.(response := Some(Response(headers, trailers)));
    }
    query, markers := RedactQuery(f.request.query, c.queryKeys, markers, profile);
    f := f.(request := f.request.(query := query), redactions := markers);
    MarkersAppended(flow, c, profile);
  }

  /** The markers pushed one group after the other are the markers appended. */
  lemma MarkersAppended(f: Flow, c: Config, profile: string)
    ensures f.redactions + FlowMarkers(f, c, profile) ==
            f.redactions
            + HeaderMarkers(f.request.headers, c.headers, "request.headers", profile)
            + HeaderMarkers(f.request.trailers, c.headers, "request.trailers", profile)
            + (match f.response
               case None => []
               case Some(r) => HeaderMarkers(r.headers, c.headers, "response.headers", profile)
                               + HeaderMarkers(r.trailers, c.headers, "response.trailers", profile))
            + QueryMarkers(f.request.query, c.queryKeys, profile)
  {
    hide HeaderMarkers, QueryMarkers;
  }

  // ---------- Structured bodies ----------

  /** `apply_json_redaction`: fails closed on malformed JSON. */
  method ApplyJsonRedaction(codec: Codec, body: Bytes, paths: set<string>) returns (r: Option<Bytes>)
    ensures r == match codec.decode(body)
                 case None => None
                 case Some(j) => Some(codec.encode(RedactAll(j, Ascending(paths))))
  {
    if codec.decode(body).None? {
      return None;
    }
    var ordered := Ascending(paths);
    var value := codec.decode(body).value;
    for i := 0 to |ordered|
      invariant value == RedactAll(codec.decode(body).value, ordered[..i])
    {
      assert ordered[..i + 1][..i] == ordered[..i];
      value := RedactPointer(value, ordered[i]);
    }
    assert ordered[..|ordered|] == ordered;
    return Some(codec.encode(value));
  }

  function BodyMarkers(paths: seq<string>, profile: string, isResponse: bool): seq<Marker>
  {
    seq(|paths|, i requires 0 <= i < |paths| =>
      Marker((if isResponse then RESPONSE_BODY_JSON_PREFIX else BODY_JSON_PREFIX) + paths[i], profile))
  }

  /** Marker `i` names path `i`, under the prefix of the body it stands in and the given profile. */
  predicate OnePerPath(markers: seq<Marker>, paths: seq<string>, profile: string, isResponse: bool)
  {
    && |markers| == |paths|
    && forall i :: 0 <= i < |paths| ==>
         && markers[i].profile == profile
         && (isResponse ==> markers[i].field == "response.body.json:" + paths[i])
         && (!isResponse ==> markers[i].field == "request.body.json:" + paths[i])
  }

  lemma BodyMarkersOnePerPath(paths: seq<string>, profile: string, isResponse: bool)
    ensures OnePerPath(BodyMarkers(paths, profile, isResponse), paths, profile, isResponse)
  {
  }

  method PushBodyMarkers(markers: seq<Marker>, paths: set<string>, profile: string, isResponse: bool)
    returns (pushed: seq<Marker>)
    ensures pushed == markers + BodyMarkers(Ascending(paths), profile, isResponse)
    ensures OnePerPath(pushed[|markers|..], Ascending(paths), profile, isResponse)
  {
    BodyMarkersOnePerPath(Ascending(paths), profile, isResponse);
    pushed := markers;
    var ordered := Ascending(paths);
    for i := 0 to |ordered|
      invariant pushed == markers + BodyMarkers(ordered[..i], profile, isResponse)
    {
      var prefix := if isResponse then RESPONSE_BODY_JSON_PREFIX else BODY_JSON_PREFIX;
      pushed := pushed + [Marker(prefix + ordered[i], profile)];
      assert BodyMarkers(ordered[..i + 1], profile, isResponse)
          == BodyMarkers(ordered[..i], profile, isResponse) + [Marker(prefix + ordered[i], profile)];
    }
    assert ordered[..|ordered|] == ordered;
  }

  // ---------- Reading markers back ----------

  /** The suffixes of the marker fields that start with a prefix: `filter_map` over `strip_prefix`. */
  function Marked(markers: seq<Marker>, prefix: string): set<string>
  {
    set m | m in markers && prefix <= m.field :: m.field[|prefix|..]
  }

  function RedactedHeaderNames(markers: seq<Marker>): set<string>
  {
    set name | name in Marked(markers, "request.headers.") :: Lower(name)
  }

  function RedactedQueryKeys(markers: seq<Marker>): set<string>
  {
    Marked(markers, "request.query.")
  }

  function RedactedJsonPaths(markers: seq<Marker>): set<string>
  {
    Marked(markers, BODY_JSON_PREFIX)
  }

  function RedactedFormKeys(markers: seq<Marker>): set<string>
  {
    Marked(markers, "request.body.form:")
  }
}
