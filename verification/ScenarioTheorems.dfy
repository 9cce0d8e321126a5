/** What every run of a validated scenario keeps. */
module ScenarioTheorems {
  import opened Prelude
  import opened Json
  import opened Redaction
  import opened Template
  import opened Scenario

  // ---------- Bounds ----------

  /** The state is declared, and there are at most 64 variables of at most 4096 bytes. */
  predicate InBounds(s: ScenarioDef, rs: RuntimeState)
  {
    && rs.state in s.states
    && |rs.variables| <= MAX_VARIABLES
    && forall name :: name in rs.variables ==> |rs.variables[name]| <= MAX_VALUE_BYTES
  }

  predicate OutcomeInBounds(outcome: Outcome)
  {
    outcome.Stepped? ==>
      100 <= outcome.step.response.status <= 599 && |outcome.step.response.body| <= MAX_TEMPLATE_BYTES
  }

  lemma {:induction false} ExtractedInBounds(codec: Codec, es: seq<Extraction>, r: Request, body: Option<Json>,
                                             variables: Variables, c: Config)
    requires forall name :: name in variables ==> |variables[name]| <= MAX_VALUE_BYTES
    ensures
      var result := ExtractAll(codec, es, r, body, variables, c);
      result.Values? ==>
        && |result.variables| <= |variables| + |es|
        && forall name :: name in result.variables ==> |result.variables[name]| <= MAX_VALUE_BYTES
  {
    if es != [] {
      ExtractedInBounds(codec, es[..|es| - 1], r, body, variables, c);
      hide ExtractValue;
      var before := ExtractAll(codec, es[..|es| - 1], r, body, variables, c);
      if before.Values? {
        var value := ExtractValue(codec, es[|es| - 1].source, r, body, before.variables, c);
        if value.Some? {
          UpdateSize(before.variables, es[|es| - 1].name, value.value);
        }
      }
    }
  }

  lemma UpdateSize(variables: Variables, name: Bytes, value: Bytes)
    ensures |variables[name := value]| <= |variables| + 1
  {
  }

  /** One request, from a validated scenario in bounds, stays in bounds. */
  lemma AdvanceKeepsBounds(codec: Codec, s: ScenarioDef, c: Config, rs: RuntimeState, r: Request, body: Bytes)
    requires ValidScenario(s) && InBounds(s, rs)
    ensures var (outcome, after) := Advanced(codec, s, c, rs, r, body);
            InBounds(s, after) && OutcomeInBounds(outcome)
  {
    var k := FirstEnabled(s.transitions, rs.state, r);
    if k.Some? {
      var t := s.transitions[k.value];
      assert ValidIn(t, s.states);
      ExtractedInBounds(codec, t.extract, r, if NeedsJson(t) then codec.decode(body) else None, rs.variables, c);
      hide ExtractAll, RenderedBody, RenderedHeaders, ValidTransition, ValidScenario, FirstEnabled;
    }
  }

  /** Scenarios are told apart by their ids, states by their names, and a transition's variables by theirs. */
  lemma NamesTellApart(rules: Rules, i: nat, j: nat)
    requires ValidRules(rules) && i < j < |rules.scenarios|
    ensures rules.scenarios[i].id != rules.scenarios[j].id
    ensures var states := rules.scenarios[i].states; forall k, l :: 0 <= k < l < |states| ==> states[k] != states[l]
  {
    assert ValidScenario(rules.scenarios[i]);
  }

  /** What a rule file can ask for at most, in numbers. */
  lemma ValidRulesLimits(rules: Rules, s: ScenarioDef, t: Transition)
    requires ValidRules(rules) && s in rules.scenarios && t in s.transitions
    ensures |rules.scenarios| <= 128 && 1 <= |s.states| <= 128 && |s.transitions| <= 1024
    ensures |t.extract| <= 64 && |t.response.bodyTemplate| <= 16_384 && |t.response.replacements| <= 32
    ensures forall h :: h in t.response.headers ==> PlainHeader(h)
    ensures t.response.fault.Some? ==>
      && (t.response.fault.value.ResponseHeadDelay? ==> t.response.fault.value.delayMs <= 30_000)
      && (t.response.fault.value.BodyChunkDelay? ==>
            && t.response.fault.value.delayMs <= 30_000
            && 1 <= t.response.fault.value.chunkBytes <= 16_777_216)
  {
    assert ValidScenario(s) && ValidIn(t, s.states);
    hide ValidScenario, ValidName, ValidSource, ValidPredicate, ValidReplacement, DistinctNames, Distinct, ValidHeader;
    forall h | h in t.response.headers
      ensures PlainHeader(h)
    {
      HeaderIsPlain(h);
    }
  }

  /** A header that can be written on one line. */
  predicate PlainHeader(h: HeaderEntry)
  {
    && 1 <= |h.name| <= 256
    && |h.value| <= 4096
    && ':' !in h.name && ' ' !in h.name
    && '\r' !in h.value && '\n' !in h.value && '\0' !in h.value
  }

  lemma HeaderIsPlain(h: HeaderEntry)
    requires ValidHeader(h)
    ensures PlainHeader(h)
  {
  }

  // ---------- Runs ----------

  /** The runtime after a list of requests. */
  function After(codec: Codec, s: ScenarioDef, c: Config, requests: seq<(Request, Bytes)>): RuntimeState
  {
    if requests == [] then RuntimeState(s.initialState, map[])
    else
      var last := requests[|requests| - 1];
      Advanced(codec, s, c, After(codec, s, c, requests[..|requests| - 1]), last.0, last.1).1
  }

  /** Every runtime reachable from validated rules is in bounds, and so is every response it emits. */
  lemma {:induction false} ReachableInBounds(codec: Codec, rules: Rules, s: ScenarioDef, c: Config,
                                             requests: seq<(Request, Bytes)>, r: Request, body: Bytes)
    requires ValidRules(rules) && s in rules.scenarios
    ensures InBounds(s, After(codec, s, c, requests))
    ensures OutcomeInBounds(Advanced(codec, s, c, After(codec, s, c, requests), r, body).0)
  {
    if requests != [] {
      var front, last := requests[..|requests| - 1], requests[|requests| - 1];
      ReachableInBounds(codec, rules, s, c, front, last.0, last.1);
      AdvanceKeepsBounds(codec, s, c, After(codec, s, c, front), last.0, last.1);
    }
    AdvanceKeepsBounds(codec, s, c, After(codec, s, c, requests), r, body);
    hide Advanced;
  }

  // ---------- Steps ----------

  /** An error or no step leaves state and variables unchanged; a step is taken by the first enabled transition. */
  lemma StepsAreTransactional(codec: Codec, s: ScenarioDef, c: Config, rs: RuntimeState, r: Request, body: Bytes)
    ensures var (outcome, after) := Advanced(codec, s, c, rs, r, body);
            && (!outcome.Stepped? ==> after == rs)
            && (outcome.Stepped? ==>
                  exists k :: 0 <= k < |s.transitions|
                    && Enabled(s.transitions[k], rs.state, r)
                    && (forall i :: 0 <= i < k ==> !Enabled(s.transitions[i], rs.state, r))
                    && outcome.step.scenarioId == s.id
                    && outcome.step.previousState == rs.state
                    && outcome.step.nextState == after.state == s.transitions[k].nextState
                    && Some(outcome.step.response) == RenderedResponse(codec, s.transitions[k].response, after.variables))
  {
  }

  // ---------- Skipped transitions ----------

  /** An enabled transition that meets its limits stops at a source without a value, and asks to be skipped. */
  predicate Skipped(codec: Codec, c: Config, rs: RuntimeState, t: Transition, r: Request, body: Bytes)
  {
    && t.failure.Skip?
    && |t.extract| + |rs.variables| <= MAX_VARIABLES
    && (NeedsJson(t) ==> |body| <= MAX_JSON_BYTES && codec.decode(body).Some?)
    && ExtractAll(codec, t.extract, r, if NeedsJson(t) then codec.decode(body) else None, rs.variables, c).Missing?
  }

  /**
   * The search the comment on `Skip` describes: a skipped transition counts as not matching, so the search goes on with
   * the transitions after it.
   */
  function PassingOver(codec: Codec, s: ScenarioDef, ts: seq<Transition>, c: Config, rs: RuntimeState, r: Request,
                       body: Bytes): (Outcome, RuntimeState)
  {
    if ts == [] then (NoStep, rs)
    else if Enabled(ts[0], rs.state, r) && !Skipped(codec, c, rs, ts[0], r, body) then
      Taken(codec, s, c, rs, ts[0], r, body)
    else PassingOver(codec, s, ts[1..], c, rs, r, body)
  }

  /** A transition taken yields no step exactly when it is skipped. */
  lemma TakenStopsIff(codec: Codec, s: ScenarioDef, c: Config, rs: RuntimeState, t: Transition, r: Request, body: Bytes)
    ensures Taken(codec, s, c, rs, t, r, body).0.NoStep? <==> Skipped(codec, c, rs, t, r, body)
    ensures Skipped(codec, c, rs, t, r, body) ==> Taken(codec, s, c, rs, t, r, body) == (NoStep, rs)
  {
    hide ExtractAll, RenderedResponse;
  }

  /** Every transition from `k` on that is enabled is skipped. */
  predicate OnlySkippedFrom(codec: Codec, ts: seq<Transition>, c: Config, rs: RuntimeState, r: Request, body: Bytes,
                            k: nat)
  {
    forall i :: k <= i < |ts| && Enabled(ts[i], rs.state, r) ==> Skipped(codec, c, rs, ts[i], r, body)
  }

  lemma {:induction false} PassingOverStopsIff(codec: Codec, s: ScenarioDef, ts: seq<Transition>, c: Config,
                                               rs: RuntimeState, r: Request, body: Bytes)
    ensures PassingOver(codec, s, ts, c, rs, r, body).0.NoStep? <==> OnlySkippedFrom(codec, ts, c, rs, r, body, 0)
    ensures OnlySkippedFrom(codec, ts, c, rs, r, body, 0) ==>
              PassingOver(codec, s, ts, c, rs, r, body) == (NoStep, rs)
  {
    if ts != [] {
      var rest := ts[1..];
      TakenStopsIff(codec, s, c, rs, ts[0], r, body);
      PassingOverStopsIff(codec, s, rest, c, rs, r, body);
      assert ts == [ts[0]] + rest;
      hide Skipped, Taken, Enabled;
      assert OnlySkippedFrom(codec, ts, c, rs, r, body, 1) <==> OnlySkippedFrom(codec, rest, c, rs, r, body, 0) by {
        assert forall i :: 0 < i < |ts| ==> ts[i] == rest[i - 1];
        assert forall i :: 0 <= i < |rest| ==> rest[i] == ts[i + 1];
      }
    }
  }

  /** Passing over reaches the first enabled transition. */
  lemma {:induction false} PassingOverReaches(codec: Codec, s: ScenarioDef, ts: seq<Transition>, c: Config,
                                              rs: RuntimeState, r: Request, body: Bytes, k: nat)
    requires k <= |ts| && forall i :: 0 <= i < k ==> !Enabled(ts[i], rs.state, r)
    ensures PassingOver(codec, s, ts, c, rs, r, body) == PassingOver(codec, s, ts[k..], c, rs, r, body)
  {
    hide Skipped, Taken, Enabled;
    if k == 0 {
      assert ts[0..] == ts;
    } else {
      PassingOverReaches(codec, s, ts[1..], c, rs, r, body, k - 1);
      assert ts[1..][k - 1..] == ts[k..];
    }
  }

  /**
   * The code agrees with its comment exactly when the first enabled transition is not skipped, or every later enabled
   * one is skipped as well: otherwise a later transition would have made a step or an error, and is never tried.
   */
  lemma SkipAsDocumentedIff(codec: Codec, s: ScenarioDef, c: Config, rs: RuntimeState, r: Request, body: Bytes)
    ensures Advanced(codec, s, c, rs, r, body) == PassingOver(codec, s, s.transitions, c, rs, r, body)
       <==> match FirstEnabled(s.transitions, rs.state, r)
            case None => true
            case Some(k) =>
              || !Skipped(codec, c, rs, s.transitions[k], r, body)
              || OnlySkippedFrom(codec, s.transitions, c, rs, r, body, k + 1)
  {
    var ts := s.transitions;
    match FirstEnabled(ts, rs.state, r)
    case None =>
      PassingOverReaches(codec, s, ts, c, rs, r, body, |ts|);
    case Some(k) =>
      PassingOverReaches(codec, s, ts, c, rs, r, body, k);
      TakenStopsIff(codec, s, c, rs, ts[k], r, body);
      PassingOverStopsIff(codec, s, ts[k + 1..], c, rs, r, body);
      assert ts[k..][1..] == ts[k + 1..];
      SameTail(codec, ts, c, rs, r, body, k + 1);
      hide Skipped, Taken, Enabled, OnlySkippedFrom;
  }

  lemma SameTail(codec: Codec, ts: seq<Transition>, c: Config, rs: RuntimeState, r: Request, body: Bytes, k: nat)
    requires k <= |ts|
    ensures OnlySkippedFrom(codec, ts[k..], c, rs, r, body, 0) <==> OnlySkippedFrom(codec, ts, c, rs, r, body, k)
  {
    hide Skipped, Enabled;
    assert forall i :: k <= i < |ts| ==> ts[i] == ts[k..][i - k];
    assert forall i :: 0 <= i < |ts[k..]| ==> ts[k..][i] == ts[i + k];
  }

  function PlainResponse(): ScenarioResponse
  {
    ScenarioResponse(200, [], "", [], None)
  }

  /** A rule file in which they differ: a skipped transition, and a later one that would step and is never tried. */
  lemma SkipStopsTheSearch(codec: Codec, c: Config, r: Request)
    requires r.query == []
    ensures
      var skipping := Transition("a", [], [Extraction("x", QueryKey("q"))], Skip, PlainResponse(), "a");
      var stepping := Transition("a", [], [], Abort, PlainResponse(), "a");
      var start := RuntimeState("a", map[]);
      && Advanced(codec, ScenarioDef("s", "a", ["a"], [skipping, stepping]), c, start, r, "") == (NoStep, start)
      && Advanced(codec, ScenarioDef("s", "a", ["a"], [stepping]), c, start, r, "").0.Stepped?
  {
    var skipping := Transition("a", [], [Extraction("x", QueryKey("q"))], Skip, PlainResponse(), "a");
    var stepping := Transition("a", [], [], Abort, PlainResponse(), "a");
    var start := RuntimeState("a", map[]);
    assert Enabled(skipping, "a", r) && Enabled(stepping, "a", r);
    assert !NeedsJson(skipping) && !NeedsJson(stepping);
    assert FirstEnabled([skipping, stepping], "a", r) == Some(0) && FirstEnabled([stepping], "a", r) == Some(0);
    assert [Extraction("x", QueryKey("q"))][..0] == [];
    assert ExtractAll(codec, skipping.extract, r, None, map[], c).Missing?;
    assert ExtractAll(codec, [], r, None, map[], c) == Values(map[]);
    assert Parse("") == Some(Last(""));
    assert Rendered("", map[]) == Some("");
    assert RenderedResponse(codec, PlainResponse(), map[]) == Some(Rendering(200, [], "", None));
  }
}
