/** Authored replay scenarios: validation and the bounded state machine (crates/eggreplay-core/src/scenario.rs). */
module Scenario {
  import opened Prelude
  import opened TextParsing
  import opened Json
  import opened Redaction
  import opened Template

  const RULES_SCHEMA_VERSION: nat := 1
  const MAX_SCENARIOS: nat := 128
  const MAX_STATES: nat := 128
  const MAX_TRANSITIONS: nat := 1024
  const MAX_VARIABLES: nat := 64
  const MAX_VALUE_BYTES: nat := 4096
  const MAX_JSON_BYTES: nat := 1024 * 1024
  const MAX_FAULT_DELAY_MS: nat := 30_000
  const MAX_FAULT_CHUNK_BYTES: nat := 16 * 1024 * 1024

  datatype RequestPredicate =
    | MethodIs(value: Bytes)
    | PathIs(value: Bytes)
    | QueryHas(key: Bytes, value: Bytes)
    | HeaderHas(key: Bytes, value: Bytes)

  datatype VariableSource =
    | PathSegment(index: nat)
    | QueryKey(key: Bytes)
    | HeaderName(key: Bytes)
    | JsonPointer(pointer: string)
    | PriorVariable(key: Bytes)

  datatype Extraction = Extraction(name: Bytes, source: VariableSource)

  datatype FailureBehavior = Abort | Skip

  datatype Replacement = Replacement(pointer: string, valueTemplate: Bytes)

  datatype Fault =
    | ResponseHeadDelay(delayMs: nat)
    | BodyChunkDelay(delayMs: nat, chunkBytes: nat)
    | CloseBeforeResponse
    | CloseAfterBytes(bytes: nat)
    | TransportError(category: string, phase: string)

  datatype ScenarioResponse = ScenarioResponse(
    status: nat,
    headers: seq<HeaderEntry>,
    bodyTemplate: Bytes,
    replacements: seq<Replacement>,
    fault: Option<Fault>)

  datatype Transition = Transition(
    from: Bytes,
    when: seq<RequestPredicate>,
    extract: seq<Extraction>,
    failure: FailureBehavior,
    response: ScenarioResponse,
    nextState: Bytes)

  datatype ScenarioDef = ScenarioDef(id: Bytes, initialState: Bytes, states: seq<Bytes>, transitions: seq<Transition>)

  datatype Rules = Rules(schemaVersion: nat, scenarios: seq<ScenarioDef>)

  datatype Rendering = Rendering(status: nat, headers: seq<HeaderEntry>, body: Bytes, fault: Option<Fault>)

  datatype Step = Step(scenarioId: Bytes, previousState: Bytes, nextState: Bytes, response: Rendering)

  /** The three results of `advance`: an error, no step, or a step. */
  datatype Outcome = Failed | NoStep | Stepped(step: Step)

  // ---------- Validation ----------

  predicate ValidFault(f: Fault)
  {
    match f
    case ResponseHeadDelay(delay) => delay <= MAX_FAULT_DELAY_MS
    case BodyChunkDelay(delay, chunk) => delay <= MAX_FAULT_DELAY_MS && 0 < chunk <= MAX_FAULT_CHUNK_BYTES
    case _ => true
  }

  predicate ValidHeader(h: HeaderEntry)
  {
    && 0 < |h.name| <= 256
    && |h.value| <= MAX_VALUE_BYTES
    && (forall c :: c in h.name ==> TokenByte(c))
    && (forall c :: c in h.value ==> c >= ' ' || c == '\t')
  }

  predicate ValidPointer(pointer: string)
  {
    |pointer| <= MAX_NAME_BYTES && (pointer == "" || pointer[0] == '/')
  }

  predicate ValidSource(s: VariableSource)
  {
    match s
    case PathSegment(index) => index <= 1024
    case QueryKey(key) => ValidName(key)
    case HeaderName(key) => ValidName(key)
    case JsonPointer(pointer) => ValidPointer(pointer)
    case PriorVariable(key) => ValidName(key)
  }

  predicate ValidPredicate(p: RequestPredicate)
  {
    |p.value| <= MAX_VALUE_BYTES && ((p.QueryHas? || p.HeaderHas?) ==> |p.key| <= MAX_VALUE_BYTES)
  }

  predicate ValidReplacement(r: Replacement)
  {
    ValidPointer(r.pointer) && |r.valueTemplate| <= MAX_TEMPLATE_BYTES
  }

  predicate DistinctNames(es: seq<Extraction>)
  {
    forall i, j :: 0 <= i < j < |es| ==> es[i].name != es[j].name
  }

  predicate ValidTransition(t: Transition)
  {
    && |t.extract| <= MAX_VARIABLES
    && |t.response.bodyTemplate| <= MAX_TEMPLATE_BYTES
    && |t.response.replacements| <= 32
    && (forall r :: r in t.response.replacements ==> ValidReplacement(r))
    && 100 <= t.response.status <= 599
    && (t.response.fault.Some? ==> ValidFault(t.response.fault.value))
    && (forall h :: h in t.response.headers ==> ValidHeader(h))
    && (forall e :: e in t.extract ==> ValidName(e.name) && ValidSource(e.source))
    && DistinctNames(t.extract)
    && (forall p :: p in t.when ==> ValidPredicate(p))
  }

  predicate ValidIn(t: Transition, states: seq<Bytes>)
  {
    t.from in states && t.nextState in states && ValidTransition(t)
  }

  predicate Distinct(names: seq<Bytes>)
  {
    forall i, j :: 0 <= i < j < |names| ==> names[i] != names[j]
  }

  predicate ValidScenario(s: ScenarioDef)
  {
    && ValidName(s.id)
    && 0 < |s.states| <= MAX_STATES
    && (forall name :: name in s.states ==> ValidName(name))
    && Distinct(s.states)
    && s.initialState in s.states
    && |s.transitions| <= MAX_TRANSITIONS
    && forall t :: t in s.transitions ==> ValidIn(t, s.states)
  }

  predicate ValidRules(r: Rules)
  {
    && r.schemaVersion == RULES_SCHEMA_VERSION
    && |r.scenarios| <= MAX_SCENARIOS
    && (forall s :: s in r.scenarios ==> ValidScenario(s))
    && forall i, j :: 0 <= i < j < |r.scenarios| ==> r.scenarios[i].id != r.scenarios[j].id
  }

  /** Insert names one by one into a set, refusing a repeated or malformed one. */
  method CollectStates(names: seq<Bytes>) returns (ok: bool, states: set<Bytes>)
    ensures ok <==> Distinct(names) && forall name :: name in names ==> ValidName(name)
    ensures ok ==> forall name :: name in states <==> name in names
  {
    states := {};
    for i := 0 to |names|
      invariant Distinct(names[..i]) && forall k :: 0 <= k < i ==> ValidName(names[k])
      invariant forall name :: name in states <==> name in names[..i]
    {
      assert names[..i + 1] == names[..i] + [names[i]];
      hide ValidName;
      if !ValidName(names[i]) {
        return false, states;
      }
      if names[i] in states {
        assert names[i] in names[..i];
        return false, states;
      }
      states := states + {names[i]};
    }
    assert names[..|names|] == names;
    return true, states;
  }

  method ValidateScenario(s: ScenarioDef) returns (ok: bool)
    ensures ok <==> ValidScenario(s)
  {
    if !ValidName(s.id) || |s.states| == 0 || |s.states| > MAX_STATES {
      return false;
    }
    var states;
    ok, states := CollectStates(s.states);
    if !ok || s.initialState !in states || |s.transitions| > MAX_TRANSITIONS {
      return false;
    }
    for i := 0 to |s.transitions|
      invariant forall k :: 0 <= k < i ==> ValidIn(s.transitions[k], s.states)
    {
      var t := s.transitions[i];
      hide ValidTransition, ValidName, Distinct;
      if t.from !in states || t.nextState !in states || !ValidTransition(t) {
        assert !ValidIn(t, s.states);
        return false;
      }
    }
    return true;
  }

  method ValidateRules(r: Rules) returns (ok: bool)
    ensures ok <==> ValidRules(r)
  {
    if r.schemaVersion != RULES_SCHEMA_VERSION || |r.scenarios| > MAX_SCENARIOS {
      return false;
    }
    var ids: set<Bytes> := {};
    for i := 0 to |r.scenarios|
      invariant forall k :: 0 <= k < i ==> ValidScenario(r.scenarios[k])
      invariant forall id :: id in ids <==> exists k :: 0 <= k < i && r.scenarios[k].id == id
      invariant forall j, k :: 0 <= j < k < i ==> r.scenarios[j].id != r.scenarios[k].id
    {
      ok := ValidateScenario(r.scenarios[i]);
      hide ValidScenario;
      if !ok || r.scenarios[i].id in ids {
        return false;
      }
      ids := ids + {r.scenarios[i].id};
    }
    return true;
  }

  // ---------- Matching a request ----------

  function Holds(p: RequestPredicate, r: Request): bool
  {
    match p
    case MethodIs(value) => r.method_ == value
    case PathIs(value) => r.path == value
    case QueryHas(key, value) => exists q :: q in r.query && q.key == key && q.value == value
    case HeaderHas(name, value) => exists h :: h in r.headers && Lower(h.name) == Lower(name) && h.value == value
  }

  predicate Enabled(t: Transition, state: Bytes, r: Request)
  {
    t.from == state && forall p :: p in t.when ==> Holds(p, r)
  }

  /** The first enabled transition. */
  function FirstEnabled(ts: seq<Transition>, state: Bytes, r: Request): (k: Option<nat>)
    ensures k.Some? ==>
      k.value < |ts| && Enabled(ts[k.value], state, r) && forall i :: 0 <= i < k.value ==> !Enabled(ts[i], state, r)
    ensures k.None? ==> forall i :: 0 <= i < |ts| ==> !Enabled(ts[i], state, r)
  {
    if ts == [] then None
    else if Enabled(ts[0], state, r) then Some(0)
    else
      match FirstEnabled(ts[1..], state, r)
      case None =>
        assert forall i :: 0 < i < |ts| ==> ts[i] == ts[1..][i - 1];
        None
      case Some(k) =>
        assert forall i :: 0 < i < |ts| ==> ts[i] == ts[1..][i - 1];
        Some(k + 1)
  }

  // ---------- Extraction ----------

  function NonEmptyParts(parts: seq<string>): seq<string>
  {
    if parts == [] then []
    else if parts[|parts| - 1] == "" then NonEmptyParts(parts[..|parts| - 1])
    else NonEmptyParts(parts[..|parts| - 1]) + [parts[|parts| - 1]]
  }

  function FirstQuery(ps: seq<QueryPair>, key: Bytes): Option<Bytes>
  {
    if ps == [] then None else if ps[0].key == key then Some(ps[0].value) else FirstQuery(ps[1..], key)
  }

  function FirstHeader(hs: seq<HeaderEntry>, name: Bytes): Option<Bytes>
  {
    if hs == [] then None
    else if Lower(hs[0].name) == Lower(name) then Some(hs[0].value)
    else FirstHeader(hs[1..], name)
  }

  function JsonText(codec: Codec, j: Json): Bytes
  {
    if j.Text? then j.text else codec.encode(j)
  }

  predicate SourceRedacted(s: VariableSource, c: Config)
  {
    match s
    case QueryKey(key) => key in c.queryKeys
    case HeaderName(name) => Lower(name) in c.headers
    case JsonPointer(pointer) => pointer in c.jsonPaths
    case _ => false
  }

  /** The value of one source; `None` is an extraction error. */
  function ExtractValue(codec: Codec, s: VariableSource, r: Request, body: Option<Json>, variables: Variables, c: Config):
    Option<Bytes>
  {
    if SourceRedacted(s, c) then None
    else
      match s
      case PathSegment(index) =>
        var parts := NonEmptyParts(Split(r.path, '/'));
        if index < |parts| then Some(parts[index]) else None
      case QueryKey(key) => FirstQuery(r.query, key)
      case HeaderName(name) => FirstHeader(r.headers, name)
      case JsonPointer(pointer) =>
        (match (body, RawTokens(pointer))
         case (Some(j), Some(tokens)) =>
           var target := Get(j, UnescapeAll(tokens));
           if target.Some? then Some(JsonText(codec, target.value)) else None
         case _ => None)
      case PriorVariable(name) => if name in variables then Some(variables[name]) else None
  }

  datatype Extracted = Missing | TooLong | Values(variables: Variables)

  /** The variables after the extractions, or why there are none: a source without a value, or a value too long. */
  function ExtractAll(codec: Codec, es: seq<Extraction>, r: Request, body: Option<Json>, variables: Variables, c: Config): Extracted
  {
    if es == [] then Values(variables)
    else
      match ExtractAll(codec, es[..|es| - 1], r, body, variables, c)
      case Values(before) =>
        var value := ExtractValue(codec, es[|es| - 1].source, r, body, before, c);
        if value.None? then Missing
        else if |value.value| > MAX_VALUE_BYTES then TooLong
        else Values(before[es[|es| - 1].name := value.value])
      case failure => failure
  }

  method ExtractVariables(codec: Codec, es: seq<Extraction>, r: Request, body: Option<Json>, variables: Variables, c: Config)
    returns (result: Extracted)
    ensures result == ExtractAll(codec, es, r, body, variables, c)
  {
    var next := variables;
    for i := 0 to |es|
      invariant ExtractAll(codec, es[..i], r, body, variables, c) == Values(next)
    {
      assert es[..i + 1][..i] == es[..i];
      var value := ExtractValue(codec, es[i].source, r, body, next, c);
      hide ExtractValue;
      if value.None? || |value.value| > MAX_VALUE_BYTES {
        FailureIsFinal(codec, es, i + 1, r, body, variables, c);
        return if value.None? then Missing else TooLong;
      }
      next := next[es[i].name := value.value];
    }
    assert es[..|es|] == es;
    return Values(next);
  }

  lemma {:induction false} FailureIsFinal(codec: Codec, es: seq<Extraction>, n: nat, r: Request, body: Option<Json>,
                                          variables: Variables, c: Config)
    requires n <= |es| && !ExtractAll(codec, es[..n], r, body, variables, c).Values?
    ensures ExtractAll(codec, es, r, body, variables, c) == ExtractAll(codec, es[..n], r, body, variables, c)
  {
    if n == |es| {
      assert es[..n] == es;
    } else {
      assert es[..|es| - 1][..n] == es[..n];
      FailureIsFinal(codec, es[..|es| - 1], n, r, body, variables, c);
    }
  }

  // ---------- The response ----------

  function ReplaceAll(j: Json, rs: seq<Replacement>, variables: Variables): Option<Json>
  {
    if rs == [] then Some(j)
    else
      match ReplaceAll(j, rs[..|rs| - 1], variables)
      case None => None
      case Some(before) => ReplaceOne(before, rs[|rs| - 1], variables)
  }

  function ReplaceOne(j: Json, r: Replacement, variables: Variables): Option<Json>
  {
    match RawTokens(r.pointer)
    case None => None
    case Some(tokens) =>
      if Get(j, UnescapeAll(tokens)).None? || Rendered(r.valueTemplate, variables).None? then None
      else Some(SetAt(j, UnescapeAll(tokens), Text(Rendered(r.valueTemplate, variables).value)))
  }

  /** The response body: the rendered template, with the JSON replacements applied if there are any. */
  function RenderedBody(codec: Codec, response: ScenarioResponse, variables: Variables): (r: Option<Bytes>)
    ensures r.Some? ==> |r.value| <= MAX_TEMPLATE_BYTES
  {
    match Rendered(response.bodyTemplate, variables)
    case None => None
    case Some(text) =>
      if response.replacements == [] then Some(text)
      else
        match codec.decode(text)
        case None => None
        case Some(j) =>
          match ReplaceAll(j, response.replacements, variables)
          case None => None
          case Some(replaced) =>
            if |codec.encode(replaced)| <= MAX_TEMPLATE_BYTES then Some(codec.encode(replaced)) else None
  }

  function RenderedHeaders(hs: seq<HeaderEntry>, variables: Variables): Option<seq<HeaderEntry>>
  {
    if hs == [] then Some([])
    else
      match (RenderedHeaders(hs[..|hs| - 1], variables), Rendered(hs[|hs| - 1].value, variables))
      case (Some(before), Some(value)) => Some(before + [HeaderEntry(hs[|hs| - 1].name, value)])
      case _ => None
  }

  function RenderedResponse(codec: Codec, response: ScenarioResponse, variables: Variables): Option<Rendering>
  {
    match (RenderedBody(codec, response, variables), RenderedHeaders(response.headers, variables))
    case (Some(body), Some(headers)) =>
      if 100 <= response.status <= 599 then Some(Rendering(response.status, headers, body, response.fault)) else None
    case _ => None
  }

  method RenderBody(codec: Codec, response: ScenarioResponse, variables: Variables) returns (r: Option<Bytes>)
    ensures r == RenderedBody(codec, response, variables)
  {
    r := Render(response.bodyTemplate, variables);
    if r.None? || response.replacements == [] {
      return;
    }
    var decoded := codec.decode(r.value);
    if decoded.None? {
      return None;
    }
    var replaced := ApplyReplacements(decoded.value, response.replacements, variables);
    if replaced.None? {
      return None;
    }
    r := if |codec.encode(replaced.value)| <= MAX_TEMPLATE_BYTES then Some(codec.encode(replaced.value)) else None;
  }

  method ApplyReplacements(j: Json, rs: seq<Replacement>, variables: Variables) returns (r: Option<Json>)
    ensures r == ReplaceAll(j, rs, variables)
  {
    var value := j;
    for i := 0 to |rs|
      invariant ReplaceAll(j, rs[..i], variables) == Some(value)
    {
      assert rs[..i + 1][..i] == rs[..i];
      hide RawTokens, UnescapeAll, Get, SetAt, Rendered;
      var tokens := RawTokens(rs[i].pointer);
      if tokens.None? || Get(value, UnescapeAll(tokens.value)).None? {
        ReplaceFailureIsFinal(j, rs, i + 1, variables);
        return None;
      }
      var text := Render(rs[i].valueTemplate, variables);
      if text.None? {
        ReplaceFailureIsFinal(j, rs, i + 1, variables);
        return None;
      }
      value := SetAt(value, UnescapeAll(tokens.value), Text(text.value));
    }
    assert rs[..|rs|] == rs;
    return Some(value);
  }

  lemma {:induction false} ReplaceFailureIsFinal(j: Json, rs: seq<Replacement>, n: nat, variables: Variables)
    requires n <= |rs| && ReplaceAll(j, rs[..n], variables).None?
    ensures ReplaceAll(j, rs, variables).None?
  {
    if n == |rs| {
      assert rs[..n] == rs;
    } else {
      assert rs[..|rs| - 1][..n] == rs[..n];
      ReplaceFailureIsFinal(j, rs[..|rs| - 1], n, variables);
    }
  }

  method RenderHeaders(hs: seq<HeaderEntry>, variables: Variables) returns (r: Option<seq<HeaderEntry>>)
    ensures r == RenderedHeaders(hs, variables)
  {
    var headers := [];
    for i := 0 to |hs|
      invariant RenderedHeaders(hs[..i], variables) == Some(headers)
    {
      assert hs[..i + 1][..i] == hs[..i];
      var value := Render(hs[i].value, variables);
      if value.None? {
        HeaderFailureIsFinal(hs, i + 1, variables);
        return None;
      }
      headers := headers + [HeaderEntry(hs[i].name, value.value)];
    }
    assert hs[..|hs|] == hs;
    return Some(headers);
  }

  lemma {:induction false} HeaderFailureIsFinal(hs: seq<HeaderEntry>, n: nat, variables: Variables)
    requires n <= |hs| && RenderedHeaders(hs[..n], variables).None?
    ensures RenderedHeaders(hs, variables).None?
  {
    if n == |hs| {
      assert hs[..n] == hs;
    } else {
      assert hs[..|hs| - 1][..n] == hs[..n];
      HeaderFailureIsFinal(hs[..|hs| - 1], n, variables);
    }
  }

  // ---------- One step ----------

  datatype RuntimeState = RuntimeState(state: Bytes, variables: Variables)

  predicate NeedsJson(t: Transition)
  {
    exists e :: e in t.extract && e.source.JsonPointer?
  }

  /** What happens once transition `t` has been selected: the outcome, and the state and variables after it. */
  function Taken(codec: Codec, s: ScenarioDef, c: Config, rs: RuntimeState, t: Transition, r: Request, body: Bytes):
    (Outcome, RuntimeState)
  {
    if |t.extract| + |rs.variables| > MAX_VARIABLES then (Failed, rs)
    else if NeedsJson(t) && (|body| > MAX_JSON_BYTES || codec.decode(body).None?) then (Failed, rs)
    else
      match ExtractAll(codec, t.extract, r, if NeedsJson(t) then codec.decode(body) else None, rs.variables, c)
      case Missing => (if t.failure.Skip? then NoStep else Failed, rs)
      case TooLong => (Failed, rs)
      case Values(variables) =>
        match RenderedResponse(codec, t.response, variables)
        case None => (Failed, rs)
        case Some(rendering) =>
          (Stepped(Step(s.id, rs.state, t.nextState, rendering)), RuntimeState(t.nextState, variables))
  }

  function Advanced(codec: Codec, s: ScenarioDef, c: Config, rs: RuntimeState, r: Request, body: Bytes): (Outcome, RuntimeState)
  {
    match FirstEnabled(s.transitions, rs.state, r)
    case None => (NoStep, rs)
    case Some(k) => Taken(codec, s, c, rs, s.transitions[k], r, body)
  }

  class ScenarioRuntime {
    const scenario: ScenarioDef
    const redaction: Config
    var state: Bytes
    var variables: Variables

    function Current(): RuntimeState
      reads this
    {
      RuntimeState(state, variables)
    }

    constructor (scenario: ScenarioDef, redaction: Config)
      ensures this.scenario == scenario && this.redaction == redaction
      ensures Current() == RuntimeState(scenario.initialState, map[])
    {
      this.scenario, this.redaction := scenario, redaction;
      state, variables := scenario.initialState, map[];
    }

    /** `advance`: either the whole step happens, or state and variables stay as they were. */
    method Advance(codec: Codec, r: Request, body: Bytes) returns (outcome: Outcome)
      modifies this
      ensures (outcome, Current()) == Advanced(codec, scenario, redaction, old(Current()), r, body)
    {
      hide ExtractAll, RenderedBody, RenderedHeaders;
      var k := FirstEnabled(scenario.transitions, state, r);
      if k.None? {
        return NoStep;
      }
      var t := scenario.transitions[k.value];
      if |t.extract| + |variables| > MAX_VARIABLES {
        return Failed;
      }
      var json := None;
      if NeedsJson(t) {
        if |body| > MAX_JSON_BYTES || codec.decode(body).None? {
          return Failed;
        }
        json := codec.decode(body);
      }
      var extracted := ExtractVariables(codec, t.extract, r, json, variables, redaction);
      if extracted.Missing? {
        return if t.failure.Skip? then NoStep else Failed;
      }
      if extracted.TooLong? {
        return Failed;
      }
      var rendered := RenderBody(codec, t.response, extracted.variables);
      if rendered.None? || !(100 <= t.response.status <= 599) {
        return Failed;
      }
      var headers := RenderHeaders(t.response.headers, extracted.variables);
      if headers.None? {
        return Failed;
      }
      var previous := state;
      state, variables := t.nextState, extracted.variables;
      return Stepped(Step(scenario.id, previous, state,
                          Rendering(t.response.status, headers.value, rendered.value, t.response.fault)));
    }
  }
}
