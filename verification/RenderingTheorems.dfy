/** What a scenario's response is made of, read off the response itself and not off the loops that build it. */
module RenderingTheorems {
  import opened Prelude
  import opened Json
  import opened JsonTheorems
  import opened Redaction
  import opened Template
  import opened Scenario

  /** Names and order are kept, and each value is rendered. */
  predicate HeadersRender(hs: seq<HeaderEntry>, variables: Variables, out: seq<HeaderEntry>)
  {
    && |out| == |hs|
    && forall i :: 0 <= i < |hs| ==> out[i].name == hs[i].name && Rendered(hs[i].value, variables) == Some(out[i].value)
  }

  lemma HeadersRenderStep(hs: seq<HeaderEntry>, n: nat, variables: Variables, out: seq<HeaderEntry>)
    requires n == |hs| - 1 && |out| == |hs|
    ensures HeadersRender(hs, variables, out) <==>
      HeadersRender(hs[..n], variables, out[..n])
      && out[n].name == hs[n].name && Rendered(hs[n].value, variables) == Some(out[n].value)
  {
    hide Rendered;
  }

  /** Rendering succeeds with exactly those headers, and fails if any header does. */
  lemma {:induction false} HeadersRenderIff(hs: seq<HeaderEntry>, variables: Variables, out: seq<HeaderEntry>)
    ensures RenderedHeaders(hs, variables) == Some(out) <==> HeadersRender(hs, variables, out)
  {
    if hs != [] {
      var n := |hs| - 1;
      if RenderedHeaders(hs[..n], variables).Some? {
        HeadersRenderIff(hs[..n], variables, RenderedHeaders(hs[..n], variables).value);
      }
      if |out| == |hs| {
        HeadersRenderIff(hs[..n], variables, out[..n]);
        HeadersRenderStep(hs, n, variables, out);
        assert out == out[..n] + [out[n]];
      }
      hide Rendered;
      if RenderedHeaders(hs, variables) == Some(out) {
        assert out[..n] == RenderedHeaders(hs[..n], variables).value;
      }
    }
  }

  /** One replacement: its target exists and holds the rendered text afterwards. */
  predicate Replaces(r: Replacement, before: Json, after: Json, variables: Variables)
  {
    && WellFormed(r.pointer)
    && Get(before, Target(r.pointer)).Some?
    && Rendered(r.valueTemplate, variables).Some?
    && after == SetAt(before, Target(r.pointer), Text(Rendered(r.valueTemplate, variables).value))
  }

  /** The text stands at the pointer's target, and what stands apart from it is as it was. */
  lemma ReplacedThere(r: Replacement, before: Json, after: Json, variables: Variables, other: Path)
    requires Replaces(r, before, after, variables)
    ensures Get(after, Target(r.pointer)) == Some(Text(Rendered(r.valueTemplate, variables).value))
    ensures Apart(Target(r.pointer), other) ==> Get(after, other) == Get(before, other)
  {
    var target, text := Target(r.pointer), Text(Rendered(r.valueTemplate, variables).value);
    hide Rendered, Target;
    GetOfSet(before, target, text, []);
    assert target + [] == target;
    if Apart(target, other) {
      GetElsewhere(before, target, text, other);
    }
  }

  /** `js` are the documents before, between and after the replacements. */
  ghost predicate Replacing(rs: seq<Replacement>, js: seq<Json>, variables: Variables)
  {
    |js| == |rs| + 1 && forall i :: 0 <= i < |rs| ==> Replaces(rs[i], js[i], js[i + 1], variables)
  }

  lemma ReplaceOneIs(before: Json, r: Replacement, variables: Variables, after: Json)
    ensures ReplaceOne(before, r, variables) == Some(after) <==> Replaces(r, before, after, variables)
  {
    hide Rendered, Get, SetAt;
  }

  lemma {:induction false} ReplacingIs(j: Json, rs: seq<Replacement>, variables: Variables, js: seq<Json>)
    requires Replacing(rs, js, variables) && js[0] == j
    ensures ReplaceAll(j, rs, variables) == Some(js[|rs|])
  {
    if rs != [] {
      var n := |rs| - 1;
      assert Replaces(rs[n], js[n], js[n + 1], variables);
      ReplaceOneIs(js[n], rs[n], variables, js[n + 1]);
      hide Replaces;
      ReplacingIs(j, rs[..n], variables, js[..n + 1]);
    }
  }

  lemma MoreReplaced(rs: seq<Replacement>, js: seq<Json>, variables: Variables, n: nat, after: Json)
    returns (more: seq<Json>)
    requires n == |rs| - 1 && Replacing(rs[..n], js, variables) && Replaces(rs[n], js[n], after, variables)
    ensures Replacing(rs, more, variables) && more == js + [after]
  {
    more := js + [after];
    hide Replaces;
  }

  lemma {:induction false} ReplacedThrough(j: Json, rs: seq<Replacement>, variables: Variables) returns (js: seq<Json>)
    requires ReplaceAll(j, rs, variables).Some?
    ensures Replacing(rs, js, variables) && js[0] == j && js[|rs|] == ReplaceAll(j, rs, variables).value
  {
    if rs == [] {
      return [j];
    }
    var n := |rs| - 1;
    js := ReplacedThrough(j, rs[..n], variables);
    var after := ReplaceAll(j, rs, variables).value;
    ReplaceOneIs(js[n], rs[n], variables, after);
    hide Replaces, ReplaceOne, ReplaceAll;
    js := MoreReplaced(rs, js, variables, n, after);
  }

  /** The body is the rendered template, or what its document is after all replacements, within the bound. */
  ghost predicate BodyIs(codec: Codec, response: ScenarioResponse, variables: Variables, body: Bytes)
  {
    var text := Rendered(response.bodyTemplate, variables);
    && text.Some?
    && if response.replacements == [] then body == text.value
       else
         && |body| <= MAX_TEMPLATE_BYTES
         && exists js :: && Replacing(response.replacements, js, variables)
                         && codec.decode(text.value) == Some(js[0])
                         && body == codec.encode(js[|response.replacements|])
  }

  lemma BodyIff(codec: Codec, response: ScenarioResponse, variables: Variables, body: Bytes)
    ensures RenderedBody(codec, response, variables) == Some(body) <==> BodyIs(codec, response, variables, body)
  {
    var text := Rendered(response.bodyTemplate, variables);
    hide Rendered, ReplaceAll, Replaces;
    var rs := response.replacements;
    if text.Some? && rs != [] && codec.decode(text.value).Some? {
      var j := codec.decode(text.value).value;
      if RenderedBody(codec, response, variables) == Some(body) {
        var js := ReplacedThrough(j, rs, variables);
      }
      if BodyIs(codec, response, variables, body) {
        var js :| Replacing(rs, js, variables) && codec.decode(text.value) == Some(js[0])
                  && body == codec.encode(js[|rs|]);
        ReplacingIs(j, rs, variables, js);
      }
    }
  }

  /** The whole response: its status in range, its headers and body rendered, its fault passed on. */
  ghost predicate ResponseIs(codec: Codec, response: ScenarioResponse, variables: Variables, out: Rendering)
  {
    && 100 <= response.status <= 599
    && out.status == response.status
    && out.fault == response.fault
    && BodyIs(codec, response, variables, out.body)
    && HeadersRender(response.headers, variables, out.headers)
  }

  lemma ResponseIff(codec: Codec, response: ScenarioResponse, variables: Variables, out: Rendering)
    ensures RenderedResponse(codec, response, variables) == Some(out) <==> ResponseIs(codec, response, variables, out)
  {
    BodyIff(codec, response, variables, out.body);
    HeadersRenderIff(response.headers, variables, out.headers);
    hide Rendered, RenderedBody, RenderedHeaders, BodyIs, HeadersRender;
  }
}
