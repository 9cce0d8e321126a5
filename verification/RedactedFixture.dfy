/** A redacted recording acts as a wildcard: markers, headers, query and JSON body together. */
module RedactedFixture {
  import opened Prelude
  import opened Json
  import opened Ordering
  import opened Redaction
  import opened Matching
  import opened Wildcard
  import opened Absorption
  import opened Tracking

  // ---------- Markers read back exactly the redacted fields ----------

  predicate AllUnder(markers: seq<Marker>, prefix: string)
  {
    forall m :: m in markers ==> prefix <= m.field
  }

  predicate Diverge(p: string, q: string, i: nat)
  {
    i < |p| && i < |q| && p[i] != q[i]
  }

  lemma NothingMarked(markers: seq<Marker>, q: string, p: string, i: nat)
    requires AllUnder(markers, q) && Diverge(p, q, i)
    ensures Marked(markers, p) == {}
  {
  }

  lemma MarkedUnion(a: seq<Marker>, b: seq<Marker>, p: string)
    ensures Marked(a + b, p) == Marked(a, p) + Marked(b, p)
  {
  }

  lemma {:induction false} HeaderMarkersUnder(hs: seq<HeaderEntry>, names: set<string>, prefix: string, profile: string)
    ensures AllUnder(HeaderMarkers(hs, names, prefix, profile), prefix + ".")
    ensures Marked(HeaderMarkers(hs, names, prefix, profile), prefix + ".")
         == set h | h in hs && Lower(h.name) in names :: h.name
  {
    var p := prefix + ".";
    if hs != [] {
      var n := |hs| - 1;
      var rest, h := HeaderMarkers(hs[..n], names, prefix, profile), hs[n];
      HeaderMarkersUnder(hs[..n], names, prefix, profile);
      assert hs == hs[..n] + [h];
      if Lower(h.name) in names {
        var mark := Marker(p + h.name, profile);
        MarkedUnion(rest, [mark], p);
        assert mark.field[|p|..] == h.name;
        assert Marked([mark], p) == {h.name};
      }
    }
  }

  lemma {:induction false} QueryMarkersUnder(ps: seq<QueryPair>, keys: set<string>, profile: string)
    ensures AllUnder(QueryMarkers(ps, keys, profile), "request.query.")
    ensures Marked(QueryMarkers(ps, keys, profile), "request.query.") == set p | p in ps && p.key in keys :: p.key
  {
    if ps != [] {
      var n := |ps| - 1;
      var rest, p := QueryMarkers(ps[..n], keys, profile), ps[n];
      QueryMarkersUnder(ps[..n], keys, profile);
      assert ps == ps[..n] + [p];
      if p.key in keys {
        var mark := Marker("request.query." + p.key, profile);
        MarkedUnion(rest, [mark], "request.query.");
        assert mark.field[|"request.query."|..] == p.key;
        assert Marked([mark], "request.query.") == {p.key};
      }
    }
  }

  lemma BodyMarkersUnder(paths: seq<string>, profile: string)
    ensures AllUnder(BodyMarkers(paths, profile, false), BODY_JSON_PREFIX)
    ensures Marked(BodyMarkers(paths, profile, false), BODY_JSON_PREFIX) == set p | p in paths
  {
    var markers := BodyMarkers(paths, profile, false);
    forall i | 0 <= i < |paths|
      ensures BODY_JSON_PREFIX <= markers[i].field && markers[i].field[|BODY_JSON_PREFIX|..] == paths[i]
    {
    }
    forall p | p in paths
      ensures p in Marked(markers, BODY_JSON_PREFIX)
    {
      var i :| 0 <= i < |paths| && paths[i] == p;
      assert markers[i] in markers;
    }
  }

  /** The flow as recorded: redacted, with the body's markers appended. */
  function Recorded(f: Flow, c: Config, profile: string): Flow
  {
    var g := RedactedFlow(f, c, profile);
    g.(redactions := g.redactions + BodyMarkers(Ascending(c.jsonPaths), profile, false))
  }

  function RedactedNames(f: Flow, c: Config): set<string>
  {
    set h | h in f.request.headers && Lower(h.name) in c.headers :: Lower(h.name)
  }

  function RedactedKeys(f: Flow, c: Config): set<string>
  {
    set p | p in f.request.query && p.key in c.queryKeys :: p.key
  }

  // The five groups of markers of a recorded flow, each under its own prefix.

  function RequestMarks(f: Flow, c: Config, profile: string): seq<Marker>
  {
    HeaderMarkers(f.request.headers, c.headers, "request.headers", profile)
  }

  function TrailerMarks(f: Flow, c: Config, profile: string): seq<Marker>
  {
    HeaderMarkers(f.request.trailers, c.headers, "request.trailers", profile)
  }

  function ResponseMarks(f: Flow, c: Config, profile: string): seq<Marker>
  {
    match f.response
    case None => []
    case Some(r) => HeaderMarkers(r.headers, c.headers, "response.headers", profile)
                    + HeaderMarkers(r.trailers, c.headers, "response.trailers", profile)
  }

  function QueryMarks(f: Flow, c: Config, profile: string): seq<Marker>
  {
    QueryMarkers(f.request.query, c.queryKeys, profile)
  }

  function BodyMarks(c: Config, profile: string): seq<Marker>
  {
    BodyMarkers(Ascending(c.jsonPaths), profile, false)
  }

  lemma MarkedByGroup(f: Flow, c: Config, profile: string, p: string)
    requires f.redactions == []
    ensures Marked(Recorded(f, c, profile).redactions, p)
         == Marked(RequestMarks(f, c, profile), p) + Marked(TrailerMarks(f, c, profile), p)
          + Marked(ResponseMarks(f, c, profile), p) + Marked(QueryMarks(f, c, profile), p)
          + Marked(BodyMarks(c, profile), p)
  {
  }

  lemma GroupsUnder(f: Flow, c: Config, profile: string)
    ensures AllUnder(RequestMarks(f, c, profile), "request.headers.")
    ensures AllUnder(TrailerMarks(f, c, profile), "request.trailers.")
    ensures AllUnder(ResponseMarks(f, c, profile), "response.")
    ensures AllUnder(QueryMarks(f, c, profile), "request.query.")
    ensures AllUnder(BodyMarks(c, profile), BODY_JSON_PREFIX)
  {
    HeaderMarkersUnder(f.request.headers, c.headers, "request.headers", profile);
    HeaderMarkersUnder(f.request.trailers, c.headers, "request.trailers", profile);
    QueryMarkersUnder(f.request.query, c.queryKeys, profile);
    BodyMarkersUnder(Ascending(c.jsonPaths), profile);
    assert "request.headers" + "." == "request.headers.";
    assert "request.trailers" + "." == "request.trailers.";
    ResponseMarksUnder(f, c, profile);
    hide HeaderMarkers, QueryMarkers, BodyMarkers, Ascending, AllUnder, ResponseMarks, Marked;
  }

  lemma ResponseMarksUnder(f: Flow, c: Config, profile: string)
    ensures AllUnder(ResponseMarks(f, c, profile), "response.")
  {
    if f.response.Some? {
      HeaderMarkersUnder(f.response.value.headers, c.headers, "response.headers", profile);
      HeaderMarkersUnder(f.response.value.trailers, c.headers, "response.trailers", profile);
      hide Marked;
    }
  }

  /** No marker prefix is a prefix of another: they differ in these places. */
  lemma PrefixesDiverge()
    ensures Diverge("request.headers.", "request.trailers.", 8) && Diverge("request.headers.", "response.", 2)
    ensures Diverge("request.headers.", "request.query.", 8) && Diverge("request.headers.", BODY_JSON_PREFIX, 8)
    ensures Diverge("request.query.", "request.headers.", 8) && Diverge("request.query.", "request.trailers.", 8)
    ensures Diverge("request.query.", "response.", 2) && Diverge("request.query.", BODY_JSON_PREFIX, 8)
    ensures Diverge(BODY_JSON_PREFIX, "request.headers.", 8) && Diverge(BODY_JSON_PREFIX, "request.trailers.", 8)
    ensures Diverge(BODY_JSON_PREFIX, "response.", 2) && Diverge(BODY_JSON_PREFIX, "request.query.", 8)
    ensures Diverge("request.body.form:", "request.headers.", 8) && Diverge("request.body.form:", "request.trailers.", 8)
    ensures Diverge("request.body.form:", "response.", 2) && Diverge("request.body.form:", "request.query.", 8)
    ensures Diverge("request.body.form:", BODY_JSON_PREFIX, 13)
  {
  }

  lemma MarkedNames(f: Flow, c: Config, profile: string)
    requires f.redactions == []
    ensures Marked(Recorded(f, c, profile).redactions, "request.headers.")
         == set h | h in f.request.headers && Lower(h.name) in c.headers :: h.name
  {
    var p := "request.headers.";
    GroupsUnder(f, c, profile);
    MarkedByGroup(f, c, profile, p);
    HeaderMarkersUnder(f.request.headers, c.headers, "request.headers", profile);
    assert "request.headers" + "." == p;
    PrefixesDiverge();
    hide Diverge, Marked, AllUnder, Recorded, TrailerMarks, ResponseMarks, QueryMarks, BodyMarks, HeaderMarkers;
    NothingMarked(TrailerMarks(f, c, profile), "request.trailers.", p, 8);
    NothingMarked(ResponseMarks(f, c, profile), "response.", p, 2);
    NothingMarked(QueryMarks(f, c, profile), "request.query.", p, 8);
    NothingMarked(BodyMarks(c, profile), BODY_JSON_PREFIX, p, 8);
  }

  lemma MarkedKeys(f: Flow, c: Config, profile: string)
    requires f.redactions == []
    ensures Marked(Recorded(f, c, profile).redactions, "request.query.") == RedactedKeys(f, c)
  {
    var p := "request.query.";
    GroupsUnder(f, c, profile);
    MarkedByGroup(f, c, profile, p);
    QueryMarkersUnder(f.request.query, c.queryKeys, profile);
    PrefixesDiverge();
    hide Diverge, Marked, AllUnder, Recorded, RequestMarks, TrailerMarks, ResponseMarks, BodyMarks, QueryMarkers;
    NothingMarked(RequestMarks(f, c, profile), "request.headers.", p, 8);
    NothingMarked(TrailerMarks(f, c, profile), "request.trailers.", p, 8);
    NothingMarked(ResponseMarks(f, c, profile), "response.", p, 2);
    NothingMarked(BodyMarks(c, profile), BODY_JSON_PREFIX, p, 8);
  }

  lemma MarkedBody(f: Flow, c: Config, profile: string, p: string)
    requires f.redactions == [] && (p == BODY_JSON_PREFIX || p == "request.body.form:")
    ensures Marked(Recorded(f, c, profile).redactions, p) == if p == BODY_JSON_PREFIX then c.jsonPaths else {}
  {
    GroupsUnder(f, c, profile);
    MarkedByGroup(f, c, profile, p);
    BodyMarkersUnder(Ascending(c.jsonPaths), profile);
    assert (set x | x in Ascending(c.jsonPaths)) == c.jsonPaths;
    PrefixesDiverge();
    hide Diverge, Marked, AllUnder, Recorded, RequestMarks, TrailerMarks, ResponseMarks, QueryMarks, BodyMarkers, Ascending;
    NothingMarked(RequestMarks(f, c, profile), "request.headers.", p, 8);
    NothingMarked(TrailerMarks(f, c, profile), "request.trailers.", p, 8);
    NothingMarked(ResponseMarks(f, c, profile), "response.", p, 2);
    NothingMarked(QueryMarks(f, c, profile), "request.query.", p, 8);
    if p == "request.body.form:" {
      NothingMarked(BodyMarks(c, profile), BODY_JSON_PREFIX, p, 13);
    }
  }

  /** The wildcards of a recorded flow are exactly its redacted fields. */
  lemma WildcardsAreRedactedFields(f: Flow, c: Config, profile: string)
    requires f.redactions == []
    ensures
      var markers := Recorded(f, c, profile).redactions;
      && RedactedHeaderNames(markers) == RedactedNames(f, c)
      && RedactedQueryKeys(markers) == RedactedKeys(f, c)
      && RedactedJsonPaths(markers) == c.jsonPaths
      && RedactedFormKeys(markers) == {}
  {
    MarkedNames(f, c, profile);
    MarkedKeys(f, c, profile);
    MarkedBody(f, c, profile, BODY_JSON_PREFIX);
    MarkedBody(f, c, profile, "request.body.form:");
    hide Marked, Recorded, RedactedKeys;
    var names := set h | h in f.request.headers && Lower(h.name) in c.headers :: h.name;
    assert (set name | name in names :: Lower(name)) == RedactedNames(f, c);
  }

  // ---------- Ignoring a field hides its redaction ----------

  lemma {:induction false} IgnoredValueHidden(hs: seq<HeaderEntry>, names: set<string>, name: string)
    requires name in names ==> !Occurs(hs, name)
    ensures ValuesOf(RedactedHeaders(hs, names), name) == ValuesOf(hs, name)
  {
    if hs != [] {
      var n := |hs| - 1;
      assert Lower(hs[n].name) == name ==> Occurs(hs, name);
      assert Occurs(hs[..n], name) ==> Occurs(hs, name) by {
        assert forall i :: 0 <= i < n ==> hs[i] == hs[..n][i];
      }
      IgnoredValueHidden(hs[..n], names, name);
      assert RedactedHeaders(hs, names)[..n] == RedactedHeaders(hs[..n], names);
    }
  }

  lemma IgnoredHeadersHidden(hs: seq<HeaderEntry>, names: set<string>, ignored: set<string>)
    requires forall h :: h in hs && Lower(h.name) in names ==> Lower(h.name) in ignored
    ensures SameHeaders(RedactedHeaders(hs, names), hs, ignored)
  {
    forall name | name !in ignored
      ensures ValuesOf(RedactedHeaders(hs, names), name) == ValuesOf(hs, name)
    {
      assert name in names ==> !Occurs(hs, name) by {
        assert forall i :: 0 <= i < |hs| ==> hs[i] in hs;
      }
      IgnoredValueHidden(hs, names, name);
    }
  }

  lemma {:induction false} IgnoredQueryHidden(ps: seq<QueryPair>, keys: set<string>, ignored: set<string>)
    requires forall p :: p in ps && p.key in keys ==> p.key in ignored
    ensures WithoutKeys(RedactedQuery(ps, keys), ignored) == WithoutKeys(ps, ignored)
  {
    if ps != [] {
      var n := |ps| - 1;
      assert ps[n] in ps;
      IgnoredQueryHidden(ps[..n], keys, ignored);
      assert RedactedQuery(ps, keys)[..n] == RedactedQuery(ps[..n], keys);
    }
  }

  /** The request agrees with the original, unredacted recording outside the redacted headers and query keys. */
  ghost predicate HeadAgrees(m: Matcher, c: Config, f: Flow, actual: Request)
  {
    var ignored, keys := m.ignoredHeaders + RedactedNames(f, c), RedactedKeys(f, c);
    && SameLetters(actual.scheme, f.request.scheme)
    && SameLetters(actual.authority, f.request.authority)
    && SamePath(actual.path, f.request.path)
    && actual.method_ == f.request.method_
    && WithoutKeys(actual.query, keys) == WithoutKeys(f.request.query, keys)
    && SameHeaders(actual.headers, f.request.headers, ignored)
  }

  lemma HeadMatchesIffAgrees(m: Matcher, c: Config, profile: string, f: Flow, actual: Request)
    requires f.redactions == []
    ensures Differences(m, actual, Recorded(f, c, profile)) == [] <==> HeadAgrees(m, c, f, actual)
  {
    var ignored, keys := m.ignoredHeaders + RedactedNames(f, c), RedactedKeys(f, c);
    var g := Recorded(f, c, profile);
    WildcardsAreRedactedFields(f, c, profile);
    DifferencesTell(m, actual, g);
    IgnoredHeadersHidden(f.request.headers, c.headers, ignored);
    IgnoredQueryHidden(f.request.query, c.queryKeys, keys);
    hide ValuesOf, WithoutKeys, SameLetters, SamePath, Differences, RedactedHeaderNames, RedactedQueryKeys,
      RedactedNames, RedactedKeys, FlowMarkers, BodyMarkers;
  }

  /**
   * A flow recorded under a redaction policy matches an actual request, in every body mode and for digest and inline
   * candidates alike, exactly when the original flow and the request agree outside the redacted and ignored fields. It
   * asks of the policy that its redaction cannot be seen once the redacted and ignored paths are removed, and of the two
   * documents that no such path ends at an array element.
   */
  lemma RedactedFixtureIsWildcard(env: Env, codec: Codec, m: Matcher, c: Config, profile: string, f: Flow, doc: Json,
                                  stored: Bytes, actual: Request, body: Bytes, actualDoc: Json, candidate: Candidate,
                                  loaded: Option<Bytes>)
    requires Faithful(codec) && forall x :: env.decode(x) == codec.decode(x)
    requires f.redactions == [] && c.jsonPaths != {} && stored != ""
    requires stored == codec.encode(RedactAll(doc, Ascending(c.jsonPaths))) && env.decode(body) == Some(actualDoc)
    requires candidate.flow == Recorded(f, c, profile)
    requires candidate.body == Inline(stored) || (candidate.body.Digest? && loaded == Some(stored))
    requires
      var removed := Ascending(m.ignoredJsonPaths + c.jsonPaths);
      && Invisible(doc, Ascending(c.jsonPaths), DeletedSet(removed))
      && AllSettled(doc, DeletedSet(removed))
      && AllSettled(actualDoc, DeletedSet(removed))
    ensures
      var removed := Ascending(m.ignoredJsonPaths + c.jsonPaths);
      Mismatch(env, m, actual, body, candidate, loaded) == []
      <==> HeadAgrees(m, c, f, actual) && AgreeOutside(doc, actualDoc, DeletedSet(removed))
  {
    var removed := Ascending(m.ignoredJsonPaths + c.jsonPaths);
    HeadMatchesIffAgrees(m, c, profile, f, actual);
    WildcardsAreRedactedFields(f, c, profile);
    assert env.decode(stored) == Some(RedactAll(doc, Ascending(c.jsonPaths)));
    BodyAgreesIff(doc, actualDoc, m.ignoredJsonPaths, c.jsonPaths);
    hide Differences, HeadAgrees, AgreeOutside, Recorded, RedactedJsonPaths, RedactedFormKeys, RedactAll, RemoveAll,
      Ascending, DeletedSet, AllSettled, Invisible, NeedsLoad, RedactedNames, RedactedKeys;
    NarrowedBody(env, m, body, candidate, stored, loaded);
  }

  /**
   * For every document, arrays included: a redacted recording matches the very request it was recorded from exactly
   * when its redaction is hidden by removing the redacted and ignored paths.
   */
  lemma RecordedRequestMatchesIff(env: Env, codec: Codec, m: Matcher, c: Config, profile: string, f: Flow, doc: Json,
                                  stored: Bytes, body: Bytes, candidate: Candidate, loaded: Option<Bytes>)
    requires Faithful(codec) && forall x :: env.decode(x) == codec.decode(x)
    requires f.redactions == [] && c.jsonPaths != {} && stored != ""
    requires stored == codec.encode(RedactAll(doc, Ascending(c.jsonPaths))) && env.decode(body) == Some(doc)
    requires candidate.flow == Recorded(f, c, profile)
    requires candidate.body == Inline(stored) || (candidate.body.Digest? && loaded == Some(stored))
    ensures Mismatch(env, m, f.request, body, candidate, loaded) == []
       <==> Hidden(doc, Ascending(c.jsonPaths), Ascending(m.ignoredJsonPaths + c.jsonPaths))
  {
    HeadMatchesIffAgrees(m, c, profile, f, f.request);
    WildcardsAreRedactedFields(f, c, profile);
    assert env.decode(stored) == Some(RedactAll(doc, Ascending(c.jsonPaths)));
    RemovalHidesRedactionIff(doc, Ascending(c.jsonPaths), Ascending(m.ignoredJsonPaths + c.jsonPaths));
    hide Differences, Hidden, Recorded, RedactedJsonPaths, RedactedFormKeys, RedactAll, RemoveAll, Ascending, NeedsLoad,
         RedactedNames, RedactedKeys;
    NarrowedBody(env, m, body, candidate, stored, loaded);
  }

  lemma BodyAgreesIff(doc: Json, actualDoc: Json, ignored: set<string>, redactedPaths: set<string>)
    requires
      var removed := Ascending(ignored + redactedPaths);
      && Invisible(doc, Ascending(redactedPaths), DeletedSet(removed))
      && AllSettled(doc, DeletedSet(removed))
      && AllSettled(actualDoc, DeletedSet(removed))
    ensures
      var removed := Ascending(ignored + redactedPaths);
      RemoveAll(actualDoc, removed) == RemoveAll(RedactAll(doc, Ascending(redactedPaths)), removed)
      <==> AgreeOutside(doc, actualDoc, DeletedSet(removed))
  {
    var removed, redacted := Ascending(ignored + redactedPaths), Ascending(redactedPaths);
    RedactedMatchesIffAgree(doc, actualDoc, redacted, removed);
  }

  /** A narrowed candidate with JSON markers only is compared as JSON without the ignored and the marked paths. */
  lemma NarrowedBody(env: Env, m: Matcher, body: Bytes, candidate: Candidate, stored: Bytes, loaded: Option<Bytes>)
    requires RedactedJsonPaths(candidate.flow.redactions) != {} && RedactedFormKeys(candidate.flow.redactions) == {}
    requires stored != ""
    requires candidate.body == Inline(stored) || (candidate.body.Digest? && loaded == Some(stored))
    ensures BodyMatches(env, m, body, candidate, true, loaded)
         == JsonEqualWithout(env, body, stored, m.ignoredJsonPaths + RedactedJsonPaths(candidate.flow.redactions))
    ensures !BodyMatches(env, m, body, candidate, false, loaded)
  {
  }

  // ---------- Bodies without redaction ----------

  /** The candidate's recorded body is `bytes`: inline, or by a digest the loader answers truthfully. */
  predicate Holds(env: Env, c: Candidate, loaded: Option<Bytes>, bytes: Bytes)
  {
    match c.body
    case NoBody => bytes == ""
    case EmptyBody => bytes == ""
    case Inline(inline) => bytes == if inline == "" then c.requestBody else inline
    case Digest(sha256, length) => sha256 == env.digest(bytes) && length == |bytes| && loaded == Some(bytes)
  }

  /** The two bodies are JSON documents that agree outside the paths to remove, or are not comparable. */
  ghost predicate SameDocument(env: Env, actual: Bytes, expected: Bytes, removed: seq<string>)
  {
    && env.decode(actual).Some?
    && env.decode(expected).Some?
    && AgreeOutside(env.decode(expected).value, env.decode(actual).value, DeletedSet(removed))
  }

  predicate Removable(env: Env, body: Bytes, removed: seq<string>)
  {
    env.decode(body).Some? ==> AllSettled(env.decode(body).value, DeletedSet(removed))
  }

  lemma JsonEqualIffSame(env: Env, actual: Bytes, expected: Bytes, paths: set<string>)
    requires Removable(env, actual, Ascending(paths)) && Removable(env, expected, Ascending(paths))
    ensures JsonEqualWithout(env, actual, expected, paths) <==> SameDocument(env, actual, expected, Ascending(paths))
  {
    if env.decode(actual).Some? && env.decode(expected).Some? {
      var removed := Ascending(paths);
      hide AgreeOutside, AllSettled, DeletedSet;
      RedactedMatchesIffAgree(env.decode(expected).value, env.decode(actual).value, [], removed);
    }
  }

  /**
   * What it takes to match a recorded body that is not redacted: nothing if nothing was recorded, the very bytes in the
   * exact modes - as text only if they are UTF-8 - and the same document outside the ignored paths in JSON mode, where a
   * digest candidate must have matched in everything else first.
   */
  lemma PlainBodyMatchesIff(env: Env, m: Matcher, actual: Bytes, c: Candidate, narrowed: bool, loaded: Option<Bytes>,
                            bytes: Bytes)
    requires !HasBodyRedaction(c) && Holds(env, c, loaded, bytes)
    requires forall a, b :: env.digest(a) == env.digest(b) ==> a == b
    requires var removed := Ascending(m.ignoredJsonPaths); Removable(env, actual, removed) && Removable(env, bytes, removed)
    ensures BodyMatches(env, m, actual, c, narrowed, loaded) <==>
      if c.body.NoBody? || c.body.EmptyBody? then actual == ""
      else if m.bodyMode.ExactBytes? then actual == bytes
      else if m.bodyMode.ExactText? then actual == bytes && env.isUtf8(actual)
      else (c.body.Digest? ==> narrowed) && SameDocument(env, actual, bytes, Ascending(m.ignoredJsonPaths))
  {
    JsonEqualIffSame(env, actual, bytes, m.ignoredJsonPaths);
    hide HasBodyRedaction, JsonEqualWithout, SameDocument, Removable;
    assert env.digest(actual) == env.digest(bytes) ==> actual == bytes;
  }
}
