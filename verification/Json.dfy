/**
 * JSON values, JSON Pointers as the value library resolves them, and the two operations on a pointer's target:
 * overwriting it (crates/eggreplay-core/src/security.rs) and removing it (crates/eggreplay-core/src/matching.rs).
 */
module Json {
  import opened Prelude
  import opened TextParsing

  /** `Scalar` covers null, booleans and numbers by their canonical text. */
  datatype Json = Scalar(repr: string) | Text(text: Bytes) | Arr(items: seq<Json>) | Obj(fields: map<Bytes, Json>)

  const REDACTED: Json := Text("<redacted>")

  // ---------- Pointers ----------

  /** `str::replace` of the two-character escape `~tag`. */
  function ReplaceEscape(s: string, tag: char, with: char): string
  {
    if |s| >= 2 && s[0] == '~' && s[1] == tag then [with] + ReplaceEscape(s[2..], tag, with)
    else if s == "" then ""
    else [s[0]] + ReplaceEscape(s[1..], tag, with)
  }

  function Unescape(token: string): string
  {
    ReplaceEscape(ReplaceEscape(token, '1', '/'), '0', '~')
  }

  /** The raw tokens of a pointer; `None` for a non-empty pointer that does not start with a slash. */
  function RawTokens(pointer: string): Option<seq<string>>
  {
    if pointer == "" then Some([])
    else if pointer[0] != '/' then None
    else Some(Split(pointer[1..], '/'))
  }

  function UnescapeAll(tokens: seq<string>): (r: seq<string>)
    ensures |r| == |tokens| && forall i :: 0 <= i < |r| ==> r[i] == Unescape(tokens[i])
  {
    seq(|tokens|, i requires 0 <= i < |tokens| => Unescape(tokens[i]))
  }

  /** Array index of a pointer token: no sign, no leading zero. */
  function PointerIndex(token: string): Option<nat>
  {
    if Canonical(token) then Some(DecimalValue(token)) else None
  }

  /** `str::parse::<usize>`: an optional plus sign and digits. */
  function ParseUsize(token: string): Option<nat>
  {
    if AllDigits(token) then Some(DecimalValue(token))
    else if |token| > 1 && token[0] == '+' && AllDigits(token[1..]) then Some(DecimalValue(token[1..]))
    else None
  }

  function LastSlash(pointer: string): (r: Option<nat>)
    ensures r.Some? ==> r.value < |pointer| && pointer[r.value] == '/' && '/' !in pointer[r.value + 1..]
    ensures r.None? ==> '/' !in pointer
  {
    if pointer == "" then None
    else if pointer[|pointer| - 1] == '/' then Some(|pointer| - 1)
    else LastSlash(pointer[..|pointer| - 1])
  }

  // ---------- Operations on a pointer's target ----------

  /** The child a pointer token selects. */
  function Child(j: Json, token: string): Option<Json>
  {
    match j
    case Obj(fields) => if token in fields then Some(fields[token]) else None
    case Arr(items) =>
      var i := PointerIndex(token);
      if i.Some? && i.value < |items| then Some(items[i.value]) else None
    case _ => None
  }

  function WithChild(j: Json, token: string, child: Json): Json
    requires Child(j, token).Some?
  {
    match j
    case Obj(fields) => Obj(fields[token := child])
    case Arr(items) => Arr(items[PointerIndex(token).value := child])
  }

  function Get(j: Json, tokens: seq<string>): Option<Json>
  {
    if tokens == [] then Some(j)
    else if Child(j, tokens[0]).None? then None
    else Get(Child(j, tokens[0]).value, tokens[1..])
  }

  /** Overwrite the target of a token path; no target, no change. */
  function SetAt(j: Json, tokens: seq<string>, value: Json): Json
  {
    if tokens == [] then value
    else if Child(j, tokens[0]).None? then j
    else WithChild(j, tokens[0], SetAt(Child(j, tokens[0]).value, tokens[1..], value))
  }

  function RemoveKey(j: Json, token: string): Json
  {
    match j
    case Obj(fields) => Obj(fields - {token})
    case Arr(items) =>
      var i := ParseUsize(token);
      if i.Some? && i.value < |items| then Arr(items[..i.value] + items[i.value + 1..]) else j
    case _ => j
  }

  /** Remove the entry `token` of the value that `parent` leads to. */
  function RemoveAt(j: Json, parent: seq<string>, token: string): Json
  {
    if parent == [] then RemoveKey(j, token)
    else if Child(j, parent[0]).None? then j
    else WithChild(j, parent[0], RemoveAt(Child(j, parent[0]).value, parent[1..], token))
  }

  /** Replace the target of one pointer by the redaction marker. */
  function RedactPointer(j: Json, pointer: string): Json
  {
    match RawTokens(pointer)
    case None => j
    case Some(tokens) => SetAt(j, UnescapeAll(tokens), REDACTED)
  }

  /** `remove_json_pointer`: the parent's tokens are unescaped, the last token is used as it is written. */
  function RemovePointer(j: Json, pointer: string): Json
  {
    if pointer == "" || LastSlash(pointer).None? then j
    else
      var at := LastSlash(pointer).value;
      match RawTokens(pointer[..at])
      case None => j
      case Some(tokens) => RemoveAt(j, UnescapeAll(tokens), pointer[at + 1..])
  }

  function RedactAll(j: Json, pointers: seq<string>): Json
  {
    if pointers == [] then j else RedactPointer(RedactAll(j, pointers[..|pointers| - 1]), pointers[|pointers| - 1])
  }

  function RemoveAll(j: Json, pointers: seq<string>): Json
  {
    if pointers == [] then j else RemovePointer(RemoveAll(j, pointers[..|pointers| - 1]), pointers[|pointers| - 1])
  }

  // ---------- The two token paths of a pointer ----------

  type Path = seq<string>

  predicate WellFormed(pointer: string)
  {
    pointer == "" || pointer[0] == '/'
  }

  /** What redaction overwrites: all tokens unescaped. */
  function Target(pointer: string): Path
    requires WellFormed(pointer)
  {
    UnescapeAll(RawTokens(pointer).value)
  }

  function LastToken(pointer: string): (token: string)
    requires pointer != "" && WellFormed(pointer)
  {
    pointer[LastSlash(pointer).value + 1..]
  }

  /** What removal deletes: the parent's tokens unescaped, the last token as it is written. */
  function Deleted(pointer: string): (path: Path)
    requires pointer != "" && WellFormed(pointer)
    ensures path != []
  {
    UnescapeAll(RawTokens(pointer[..LastSlash(pointer).value]).value) + [LastToken(pointer)]
  }

  /** The two paths differ in the escapes of the last token only. */
  lemma TargetOfDeleted(pointer: string)
    requires pointer != "" && WellFormed(pointer)
    ensures var d := Deleted(pointer); Target(pointer) == d[..|d| - 1] + [Unescape(LastToken(pointer))]
  {
    var at := LastSlash(pointer).value;
    var parent, token := pointer[..at], pointer[at + 1..];
    SplitOne(token, '/');
    hide Unescape;
    if at == 0 {
      assert Target(pointer) == UnescapeAll([token]);
      assert UnescapeAll([]) == [];
    } else {
      assert pointer[1..] == parent[1..] + ['/'] + token;
      SplitJoin(parent[1..], token, '/');
      var front := Split(parent[1..], '/');
      assert UnescapeAll(front + [token]) == UnescapeAll(front) + [Unescape(token)];
    }
  }

  lemma RedactIsSet(j: Json, pointer: string)
    ensures RedactPointer(j, pointer) == if WellFormed(pointer) then SetAt(j, Target(pointer), REDACTED) else j
  {
  }

  /** Removal follows `Deleted`; the root and malformed pointers remove nothing. */
  lemma RemoveIsDelete(j: Json, pointer: string)
    ensures RemovePointer(j, pointer) ==
            if pointer == "" || !WellFormed(pointer) then j
            else var d := Deleted(pointer); RemoveAt(j, d[..|d| - 1], d[|d| - 1])
  {
    if pointer != "" && WellFormed(pointer) {
      var d := Deleted(pointer);
      assert d[..|d| - 1] == UnescapeAll(RawTokens(pointer[..LastSlash(pointer).value]).value);
    }
  }
}
