/** The single-pass template language of scenario responses (crates/eggreplay-core/src/scenario.rs). */
module Template {
  import opened Prelude

  const MAX_NAME_BYTES: nat := 128
  const MAX_TEMPLATE_BYTES: nat := 16 * 1024

  type Variables = map<Bytes, Bytes>

  predicate NameByte(c: char)
  {
    'a' <= c <= 'z' || 'A' <= c <= 'Z' || '0' <= c <= '9' || c == '_' || c == '-' || c == '.'
  }

  predicate ValidName(name: Bytes)
  {
    0 < |name| <= MAX_NAME_BYTES && forall c :: c in name ==> NameByte(c)
  }

  // ---------- Finding a doubled character ----------

  predicate PairAt(s: Bytes, c: char, i: nat)
  {
    i + 1 < |s| && s[i] == c && s[i + 1] == c
  }

  /** `str::find` of a doubled character: the first place. */
  function FindPair(s: Bytes, c: char): (r: Option<nat>)
    ensures r.Some? ==> PairAt(s, c, r.value) && forall i :: 0 <= i < r.value ==> !PairAt(s, c, i)
    ensures r.None? ==> forall i: nat :: !PairAt(s, c, i)
  {
    if |s| < 2 then None
    else if s[0] == c && s[1] == c then Some(0)
    else
      match FindPair(s[1..], c)
      case None =>
        assert forall i: nat :: i > 0 && PairAt(s, c, i) ==> PairAt(s[1..], c, i - 1);
        None
      case Some(k) =>
        assert forall i: nat :: i > 0 && PairAt(s, c, i) ==> PairAt(s[1..], c, i - 1);
        Some(k + 1)
  }

  /** Text that ends where the next doubled character begins. */
  predicate Delimited(s: Bytes, c: char)
  {
    FindPair(s, c).None? && (s == "" || s[|s| - 1] != c)
  }

  lemma FindAfter(s: Bytes, c: char, rest: Bytes)
    requires Delimited(s, c)
    ensures FindPair(s + [c, c] + rest, c) == Some(|s|)
  {
    var whole := s + [c, c] + rest;
    assert PairAt(whole, c, |s|);
    forall i: nat | i < |s|
      ensures !PairAt(whole, c, i)
    {
      assert i + 1 < |s| ==> !PairAt(s, c, i);
    }
  }

  lemma FoundIsDelimited(s: Bytes, c: char)
    requires FindPair(s, c).Some?
    ensures Delimited(s[..FindPair(s, c).value], c)
  {
    var n := FindPair(s, c).value;
    var front := s[..n];
    forall i: nat
      ensures !PairAt(front, c, i)
    {
      assert PairAt(front, c, i) ==> PairAt(s, c, i);
    }
    if n > 0 {
      assert !PairAt(s, c, n - 1);
    }
  }

  lemma SplitAtPair(s: Bytes, c: char)
    requires FindPair(s, c).Some?
    ensures var n := FindPair(s, c).value;
            n + 2 <= |s| && Delimited(s[..n], c) && s == s[..n] + [c, c] + s[n + 2..]
  {
    FoundIsDelimited(s, c);
  }

  // ---------- Segmentation ----------

  /** A template is a list of literals each followed by a variable, and a last literal. */
  datatype Segments = Last(text: Bytes) | Then(literal: Bytes, name: Bytes, rest: Segments)

  function Show(segments: Segments): Bytes
  {
    match segments
    case Last(text) => text
    case Then(literal, name, rest) => literal + ['{', '{'] + name + ['}', '}'] + Show(rest)
  }

  predicate Canonical(segments: Segments)
  {
    match segments
    case Last(text) => FindPair(text, '{').None?
    case Then(literal, name, rest) => Delimited(literal, '{') && Delimited(name, '}') && Canonical(rest)
  }

  /** The first variable of a template, with what is before and after it. */
  datatype Cut = NoVariable | Unterminated | Variable(literal: Bytes, name: Bytes, tail: Bytes)

  lemma CutShows(template: Bytes, rest: Bytes)
    requires FindPair(template, '{').Some? && rest == template[FindPair(template, '{').value + 2..]
    requires FindPair(rest, '}').Some?
    ensures
      var literal, name := template[..FindPair(template, '{').value], rest[..FindPair(rest, '}').value];
      && template == literal + ['{', '{'] + name + ['}', '}'] + rest[FindPair(rest, '}').value + 2..]
      && Delimited(literal, '{')
      && Delimited(name, '}')
  {
    SplitAtPair(template, '{');
    SplitAtPair(rest, '}');
    hide FindPair, Delimited, PairAt;
    var literal, name := template[..FindPair(template, '{').value], rest[..FindPair(rest, '}').value];
    var tail := rest[FindPair(rest, '}').value + 2..];
    Reassociate(literal, ['{', '{'], name, ['}', '}'], tail);
  }

  lemma Reassociate(a: Bytes, b: Bytes, c: Bytes, d: Bytes, e: Bytes)
    ensures a + b + (c + d + e) == a + b + c + d + e
  {
  }

  function FirstVariable(template: Bytes): (cut: Cut)
    ensures cut.NoVariable? <==> FindPair(template, '{').None?
    ensures cut.Variable? ==>
      && template == cut.literal + ['{', '{'] + cut.name + ['}', '}'] + cut.tail
      && Delimited(cut.literal, '{')
      && Delimited(cut.name, '}')
  {
    match FindPair(template, '{')
    case None => NoVariable
    case Some(start) =>
      var rest := template[start + 2..];
      match FindPair(rest, '}')
      case None => Unterminated
      case Some(end) =>
        CutShows(template, rest);
        Variable(template[..start], rest[..end], rest[end + 2..])
  }

  /** `None` on an unterminated variable. */
  function Parse(template: Bytes): Option<Segments>
    decreases |template|
  {
    match FirstVariable(template)
    case NoVariable => Some(Last(template))
    case Unterminated => None
    case Variable(literal, name, tail) =>
      match Parse(tail)
      case None => None
      case Some(segments) => Some(Then(literal, name, segments))
  }

  /** Parsing finds the one canonical segmentation that prints back to the template. */
  lemma {:induction false} ParseIsUniqueSegmentation(template: Bytes, segments: Segments)
    ensures Parse(template) == Some(segments) <==> Canonical(segments) && Show(segments) == template
    decreases |template|
  {
    if Parse(template) == Some(segments) {
      ParsedShows(template);
    }
    if Canonical(segments) && Show(segments) == template {
      ShownParses(segments);
    }
  }

  lemma {:induction false} ParsedShows(template: Bytes)
    requires Parse(template).Some?
    ensures Canonical(Parse(template).value) && Show(Parse(template).value) == template
    decreases |template|
  {
    var cut := FirstVariable(template);
    hide FirstVariable, FindPair, Delimited;
    if cut.Variable? {
      ParsedShows(cut.tail);
    }
  }

  lemma {:induction false} ShownParses(segments: Segments)
    requires Canonical(segments)
    ensures Parse(Show(segments)) == Some(segments)
  {
    match segments
    case Last(_) =>
    case Then(literal, name, tail) =>
      var shown := Show(segments);
      var rest := name + ['}', '}'] + Show(tail);
      assert shown == literal + ['{', '{'] + rest;
      FindAfter(literal, '{', rest);
      FindAfter(name, '}', Show(tail));
      assert shown[|literal| + 2..] == rest && rest[|name| + 2..] == Show(tail);
      assert shown[..|literal|] == literal && rest[..|name|] == name;
      ShownParses(tail);
  }

  // ---------- Rendering ----------

  /** All names valid and bound. */
  predicate Bound(segments: Segments, variables: Variables)
  {
    match segments
    case Last(_) => true
    case Then(_, name, rest) => ValidName(name) && name in variables && Bound(rest, variables)
  }

  function NamesIn(segments: Segments): set<Bytes>
  {
    match segments
    case Last(_) => {}
    case Then(_, name, rest) => {name} + NamesIn(rest)
  }

  lemma {:induction false} BoundIff(segments: Segments, variables: Variables)
    ensures Bound(segments, variables) <==> forall name :: name in NamesIn(segments) ==> ValidName(name) && name in variables
  {
    if segments.Then? {
      BoundIff(segments.rest, variables);
      hide ValidName;
    }
  }

  /** The value of a segmentation: inserted values are never looked at again. */
  function Eval(segments: Segments, variables: Variables): Bytes
    requires Bound(segments, variables)
  {
    match segments
    case Last(text) => text
    case Then(literal, name, rest) => literal + variables[name] + Eval(rest, variables)
  }

  /** The output of a template with all its variables bound, whatever its length. */
  function Substituted(template: Bytes, variables: Variables): Option<Bytes>
  {
    match Parse(template)
    case None => None
    case Some(segments) => if Bound(segments, variables) then Some(Eval(segments, variables)) else None
  }

  function Rendered(template: Bytes, variables: Variables): (r: Option<Bytes>)
    ensures r.Some? ==> |r.value| <= MAX_TEMPLATE_BYTES
  {
    var output := Substituted(template, variables);
    if |template| <= MAX_TEMPLATE_BYTES && output.Some? && |output.value| <= MAX_TEMPLATE_BYTES then output else None
  }

  /**
   * Rendering succeeds with an output exactly when template and output are within bound and the template is printed
   * from a segmentation whose names are valid and bound, and which evaluates to the output.
   */
  lemma RendersIff(template: Bytes, variables: Variables, output: Bytes)
    ensures Rendered(template, variables) == Some(output) <==>
      && |template| <= MAX_TEMPLATE_BYTES
      && |output| <= MAX_TEMPLATE_BYTES
      && exists segments :: Renders(segments, template, variables, output)
  {
    if Parse(template).Some? {
      ParseIsUniqueSegmentation(template, Parse(template).value);
      BoundIff(Parse(template).value, variables);
    }
    hide Parse, Canonical, Show, Bound, Eval, NamesIn, ValidName;
    if Rendered(template, variables) == Some(output) {
      assert Renders(Parse(template).value, template, variables, output);
    }
    if exists segments :: Renders(segments, template, variables, output) {
      var segments :| Renders(segments, template, variables, output);
      ParseIsUniqueSegmentation(template, segments);
    }
  }

  /** The template prints back from these segments, whose names are valid and bound, and which evaluate to the output. */
  predicate Renders(segments: Segments, template: Bytes, variables: Variables, output: Bytes)
  {
    && Canonical(segments)
    && Show(segments) == template
    && (forall name :: name in NamesIn(segments) ==> ValidName(name) && name in variables)
    && Bound(segments, variables)
    && Eval(segments, variables) == output
  }

  /** What one variable contributes. */
  lemma SubstituteStep(template: Bytes, variables: Variables)
    ensures
      Substituted(template, variables) ==
        match FirstVariable(template)
        case NoVariable => Some(template)
        case Unterminated => None
        case Variable(literal, name, tail) =>
          if ValidName(name) && name in variables && Substituted(tail, variables).Some? then
            Some(literal + variables[name] + Substituted(tail, variables).value)
          else None
  {
  }

  /**
   * `render`. It succeeds exactly when the template is within bound, no variable is unterminated, all names are valid
   * and bound and the final output is within bound, so the size check inside the loop never changes the verdict.
   */
  method Render(template: Bytes, variables: Variables) returns (r: Option<Bytes>)
    ensures r == Rendered(template, variables)
  {
    if |template| > MAX_TEMPLATE_BYTES {
      return None;
    }
    var output, rest := "", template;
    NothingRendered(template, variables);
    while FindPair(rest, '{').Some?
      invariant |output| <= MAX_TEMPLATE_BYTES && Pending(template, variables, output, rest)
      decreases |rest|
    {
      var start := FindPair(rest, '{').value;
      var found := FindPair(rest[start + 2..], '}');
      ghost var cut := FirstVariable(rest);
      PendingStep(template, variables, output, rest);
      if found.None? {
        return None;
      }
      var name, tail := rest[start + 2..][..found.value], rest[start + 2..][found.value + 2..];
      assert cut == Variable(rest[..start], name, tail);
      hide Pending, Substituted, ValidName, FirstVariable, FindPair;
      if !ValidName(name) || name !in variables {
        return None;
      }
      output := output + rest[..start] + variables[name];
      rest := tail;
      if |output| > MAX_TEMPLATE_BYTES {
        PendingTooLong(template, variables, output, rest);
        return None;
      }
    }
    SubstituteStep(rest, variables);
    hide Substituted;
    output := output + rest;
    if |output| > MAX_TEMPLATE_BYTES {
      return None;
    }
    return Some(output);
  }

  /** `output` has been rendered and `rest` is still to come. */
  predicate Pending(template: Bytes, variables: Variables, output: Bytes, rest: Bytes)
  {
    Substituted(template, variables) ==
      match Substituted(rest, variables)
      case None => None
      case Some(more) => Some(output + more)
  }

  lemma NothingRendered(template: Bytes, variables: Variables)
    ensures Pending(template, variables, "", template)
  {
    hide Substituted;
    if Substituted(template, variables).Some? {
      assert "" + Substituted(template, variables).value == Substituted(template, variables).value;
    }
  }

  lemma PendingStep(template: Bytes, variables: Variables, output: Bytes, rest: Bytes)
    requires Pending(template, variables, output, rest)
    ensures
      match FirstVariable(rest)
      case NoVariable => true
      case Unterminated => Substituted(template, variables).None?
      case Variable(literal, name, tail) =>
        if ValidName(name) && name in variables then
          Pending(template, variables, output + literal + variables[name], tail)
        else Substituted(template, variables).None?
  {
    SubstituteStep(rest, variables);
    var cut := FirstVariable(rest);
    hide Substituted, ValidName, FirstVariable;
    if cut.Variable? && ValidName(cut.name) && cut.name in variables && Substituted(cut.tail, variables).Some? {
      var more := Substituted(cut.tail, variables).value;
      assert output + (cut.literal + variables[cut.name] + more) == output + cut.literal + variables[cut.name] + more;
    }
  }

  lemma PendingTooLong(template: Bytes, variables: Variables, output: Bytes, rest: Bytes)
    requires Pending(template, variables, output, rest) && |output| > MAX_TEMPLATE_BYTES
    ensures Rendered(template, variables).None?
  {
  }

  /** A template cut at one of its variables: `before` ends in the literal in front of it. */
  function Around(before: Segments, name: Bytes, after: Segments): Segments
  {
    match before
    case Last(text) => Then(text, name, after)
    case Then(literal, other, rest) => Then(literal, other, Around(rest, name, after))
  }

  lemma {:induction false} EvalAround(before: Segments, name: Bytes, after: Segments, variables: Variables)
    requires Bound(Around(before, name, after), variables)
    ensures Bound(before, variables) && name in variables && Bound(after, variables)
    ensures Eval(Around(before, name, after), variables)
         == Eval(before, variables) + variables[name] + Eval(after, variables)
  {
    match before
    case Last(_) =>
    case Then(literal, other, rest) =>
      EvalAround(rest, name, after, variables);
      var head, x, y, z := literal + variables[other], Eval(rest, variables), variables[name], Eval(after, variables);
      assert head + (x + y + z) == head + x + y + z;
  }

  /**
   * At any variable of any template the value is inserted as it is, even when it looks like a template: the output is
   * what the part before it renders to, the value, and what the part after it renders to.
   */
  lemma InsertedVerbatim(before: Segments, name: Bytes, after: Segments, variables: Variables)
    requires Canonical(Around(before, name, after)) && Bound(Around(before, name, after), variables)
    ensures Bound(before, variables) && name in variables && Bound(after, variables)
    ensures Substituted(Show(Around(before, name, after)), variables)
         == Some(Eval(before, variables) + variables[name] + Eval(after, variables))
  {
    ShownParses(Around(before, name, after));
    EvalAround(before, name, after, variables);
  }
}
