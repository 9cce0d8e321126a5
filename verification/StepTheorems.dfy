/** The whole step of a scenario as one relation between request, state and step. */
module StepTheorems {
  import opened Prelude
  import opened Json
  import opened Redaction
  import opened Template
  import opened Scenario
  import opened ExtractionTheorems
  import opened RenderingTheorems

  // ---------- Which transition ----------

  predicate Meets(p: RequestPredicate, r: Request)
  {
    match p
    case MethodIs(value) => r.method_ == value
    case PathIs(value) => r.path == value
    case QueryHas(key, value) => QueryPair(key, value) in r.query
    case HeaderHas(name, value) =>
      exists i :: 0 <= i < |r.headers| && SameLetters(r.headers[i].name, name) && r.headers[i].value == value
  }

  lemma HoldsIff(p: RequestPredicate, r: Request)
    ensures Holds(p, r) <==> Meets(p, r)
  {
    match p
    case HeaderHas(name, value) =>
      forall h | h in r.headers
        ensures Lower(h.name) == Lower(name) <==> SameLetters(h.name, name)
      {
        LowerEqualIff(h.name, name);
      }
      hide Lower, SameLetters;
      assert forall i :: 0 <= i < |r.headers| ==> r.headers[i] in r.headers;
    case QueryHas(key, value) =>
      assert forall q :: q in r.query && q.key == key && q.value == value ==> q == QueryPair(key, value);
    case _ =>
  }

  predicate MeetsAll(t: Transition, state: Bytes, r: Request)
  {
    t.from == state && forall i :: 0 <= i < |t.when| ==> Meets(t.when[i], r)
  }

  lemma EnabledIff(t: Transition, state: Bytes, r: Request)
    ensures Enabled(t, state, r) <==> MeetsAll(t, state, r)
  {
    forall i | 0 <= i < |t.when|
      ensures Holds(t.when[i], r) <==> Meets(t.when[i], r)
    {
      HoldsIff(t.when[i], r);
    }
    hide Holds, Meets;
    assert forall i :: 0 <= i < |t.when| ==> t.when[i] in t.when;
  }

  /** Transition `k` is the first whose state and conditions are met. */
  predicate FirstMet(ts: seq<Transition>, state: Bytes, r: Request, k: nat)
  {
    k < |ts| && MeetsAll(ts[k], state, r) && forall i :: 0 <= i < k ==> !MeetsAll(ts[i], state, r)
  }

  lemma FirstEnabledIff(ts: seq<Transition>, state: Bytes, r: Request, k: nat)
    ensures FirstEnabled(ts, state, r) == Some(k) <==> FirstMet(ts, state, r, k)
  {
    forall i | 0 <= i < |ts|
      ensures Enabled(ts[i], state, r) <==> MeetsAll(ts[i], state, r)
    {
      EnabledIff(ts[i], state, r);
    }
    hide Enabled, MeetsAll;
    var found := FirstEnabled(ts, state, r);
    hide FirstEnabled;
    if FirstMet(ts, state, r, k) {
      assert found.Some?;
    }
  }

  // ---------- What it does ----------

  predicate ReadsJson(t: Transition)
  {
    exists i :: 0 <= i < |t.extract| && t.extract[i].source.JsonPointer?
  }

  /** The transition's demands are within bounds, and a body it reads as JSON is. */
  predicate Affordable(codec: Codec, t: Transition, rs: RuntimeState, body: Bytes)
  {
    && |t.extract| + |rs.variables| <= MAX_VARIABLES
    && (ReadsJson(t) ==> |body| <= MAX_JSON_BYTES && codec.decode(body).Some?)
  }

  function Document(codec: Codec, t: Transition, body: Bytes): Option<Json>
  {
    if ReadsJson(t) then codec.decode(body) else None
  }

  /** The extractions of transition `t` go through `vs` and end with `result`. */
  ghost predicate Extracting(codec: Codec, t: Transition, c: Config, rs: RuntimeState, r: Request, body: Bytes,
                             vs: seq<Variables>, result: Extracted)
  {
    Affordable(codec, t, rs, body) && Ends(codec, t.extract, r, Document(codec, t, body), rs.variables, c, vs, result)
  }

  /** The step taken by transition `t`: its state, the variables extracted, and the response rendered with them. */
  ghost predicate TakesStep(codec: Codec, s: ScenarioDef, c: Config, rs: RuntimeState, r: Request, body: Bytes,
                            t: Transition, step: Step, after: RuntimeState)
  {
    && (exists vs :: Extracting(codec, t, c, rs, r, body, vs, Values(after.variables)))
    && after.state == t.nextState
    && step.scenarioId == s.id
    && step.previousState == rs.state
    && step.nextState == t.nextState
    && ResponseIs(codec, t.response, after.variables, step.response)
  }

  lemma ReadsJsonIff(t: Transition)
    ensures NeedsJson(t) <==> ReadsJson(t)
  {
    if NeedsJson(t) {
      var e :| e in t.extract && e.source.JsonPointer?;
      var i :| 0 <= i < |t.extract| && t.extract[i] == e;
    }
    assert forall i :: 0 <= i < |t.extract| ==> t.extract[i] in t.extract;
  }

  lemma ExtractingIff(codec: Codec, t: Transition, c: Config, rs: RuntimeState, r: Request, body: Bytes,
                      result: Extracted)
    ensures (exists vs :: Extracting(codec, t, c, rs, r, body, vs, result)) <==>
      && Affordable(codec, t, rs, body)
      && ExtractAll(codec, t.extract, r, if NeedsJson(t) then codec.decode(body) else None, rs.variables, c) == result
  {
    var json := Document(codec, t, body);
    ReadsJsonIff(t);
    ExtractedIff(codec, t.extract, r, json, rs.variables, c, result);
    hide Affordable, ExtractAll, Ends, ReadsJson, NeedsJson;
    if Affordable(codec, t, rs, body) && ExtractAll(codec, t.extract, r, json, rs.variables, c) == result {
      var vs :| Ends(codec, t.extract, r, json, rs.variables, c, vs, result);
      assert Extracting(codec, t, c, rs, r, body, vs, result);
    }
  }

  lemma TakenIff(codec: Codec, s: ScenarioDef, c: Config, rs: RuntimeState, t: Transition, r: Request, body: Bytes,
                 step: Step, after: RuntimeState)
    ensures Taken(codec, s, c, rs, t, r, body) == (Stepped(step), after)
       <==> TakesStep(codec, s, c, rs, r, body, t, step, after)
    ensures Taken(codec, s, c, rs, t, r, body).0.NoStep? <==>
      t.failure.Skip? && exists vs :: Extracting(codec, t, c, rs, r, body, vs, Missing)
  {
    ExtractingIff(codec, t, c, rs, r, body, Values(after.variables));
    ExtractingIff(codec, t, c, rs, r, body, Missing);
    ReadsJsonIff(t);
    ResponseIff(codec, t.response, after.variables, step.response);
    hide ExtractAll, Extracting, RenderedResponse, ResponseIs, ReadsJson, NeedsJson;
  }

  /**
   * The state machine steps exactly when the first transition whose state and conditions the request meets can be
   * afforded, extracts its variables and renders its response; the step, the state and the variables are then those.
   */
  lemma StepIff(codec: Codec, s: ScenarioDef, c: Config, rs: RuntimeState, r: Request, body: Bytes, step: Step,
                after: RuntimeState)
    ensures Advanced(codec, s, c, rs, r, body) == (Stepped(step), after) <==>
      exists k: nat :: FirstMet(s.transitions, rs.state, r, k)
                       && TakesStep(codec, s, c, rs, r, body, s.transitions[k], step, after)
  {
    var found := FirstEnabled(s.transitions, rs.state, r);
    forall k: nat
      ensures found == Some(k) <==> FirstMet(s.transitions, rs.state, r, k)
    {
      FirstEnabledIff(s.transitions, rs.state, r, k);
    }
    if found.Some? {
      TakenIff(codec, s, c, rs, s.transitions[found.value], r, body, step, after);
    }
    hide FirstEnabled, FirstMet, Taken, TakesStep;
  }

  /** It makes no step exactly when no transition is met, or the first one met asks to be skipped at a missing source. */
  lemma NoStepIff(codec: Codec, s: ScenarioDef, c: Config, rs: RuntimeState, r: Request, body: Bytes)
    ensures Advanced(codec, s, c, rs, r, body).0.NoStep? <==>
      || (forall k: nat :: !FirstMet(s.transitions, rs.state, r, k))
      || exists k: nat, vs :: FirstMet(s.transitions, rs.state, r, k) && s.transitions[k].failure.Skip?
                              && Extracting(codec, s.transitions[k], c, rs, r, body, vs, Missing)
  {
    var found := FirstEnabled(s.transitions, rs.state, r);
    forall k: nat
      ensures found == Some(k) <==> FirstMet(s.transitions, rs.state, r, k)
    {
      FirstEnabledIff(s.transitions, rs.state, r, k);
    }
    if found.Some? {
      var t := s.transitions[found.value];
      TakenIff(codec, s, c, rs, t, r, body, Step("", "", "", Rendering(0, [], "", None)), rs);
      assert FirstMet(s.transitions, rs.state, r, found.value);
    }
    hide FirstEnabled, FirstMet, Taken, TakesStep, Extracting;
  }

  /** In a validated scenario no extraction of a step overwrites another: each name ends up with its own source's value. */
  lemma ValidStepBindsAll(codec: Codec, s: ScenarioDef, c: Config, rs: RuntimeState, r: Request, body: Bytes)
    returns (t: Transition, vs: seq<Variables>)
    requires ValidScenario(s) && Advanced(codec, s, c, rs, r, body).0.Stepped?
    ensures t in s.transitions && MeetsAll(t, rs.state, r)
    ensures
      var after := Advanced(codec, s, c, rs, r, body).1.variables;
      && Trace(codec, t.extract, r, Document(codec, t, body), c, vs)
      && vs[0] == rs.variables
      && vs[|t.extract|] == after
      && forall i :: 0 <= i < |t.extract| ==>
           && t.extract[i].name in after
           && ExtractValue(codec, t.extract[i].source, r, Document(codec, t, body), vs[i], c)
              == Some(after[t.extract[i].name])
  {
    t, vs := StepBindsExtractions(codec, s, c, rs, r, body);
    EnabledIff(t, rs.state, r);
    ReadsJsonIff(t);
    assert ValidIn(t, s.states);
    hide Advanced, ExtractValue, Trace, ReadsJson, NeedsJson, ValidScenario;
    forall i: nat | i < |t.extract|
      ensures LastOfName(t.extract, i) && t.extract[i].name in Names(t.extract)
    {
      assert t.extract[i] in t.extract;
    }
  }
}
