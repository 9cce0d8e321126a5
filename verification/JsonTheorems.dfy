/** Pointers and overwriting: every path has a pointer that reads back to it, and a write is seen there and nowhere else. */
module JsonTheorems {
  import opened Prelude
  import opened TextParsing
  import opened Json

  // ---------- Pointers ----------

  /** Section 3 of RFC 6901: a token as a pointer holds it. */
  function Escape(token: string): string
  {
    if token == "" then ""
    else (if token[0] == '~' then "~0" else if token[0] == '/' then "~1" else [token[0]]) + Escape(token[1..])
  }

  /** A token with its tildes still escaped. */
  function HalfEscaped(token: string): string
  {
    if token == "" then "" else (if token[0] == '~' then "~0" else [token[0]]) + HalfEscaped(token[1..])
  }

  lemma EscapePair(x: char, y: char, rest: string, tag: char, with: char)
    ensures ReplaceEscape([x, y] + rest, tag, with) ==
            if x == '~' && y == tag then [with] + ReplaceEscape(rest, tag, with)
            else [x] + ReplaceEscape([y] + rest, tag, with)
  {
    assert ([x, y] + rest)[2..] == rest && ([x, y] + rest)[1..] == [y] + rest;
  }

  lemma EscapePlain(x: char, rest: string, tag: char, with: char)
    requires x != '~'
    ensures ReplaceEscape([x] + rest, tag, with) == [x] + ReplaceEscape(rest, tag, with)
  {
    assert ([x] + rest)[1..] == rest;
  }

  lemma {:induction false} SlashesFirst(token: string)
    ensures ReplaceEscape(Escape(token), '1', '/') == HalfEscaped(token)
  {
    if token != "" {
      var rest := Escape(token[1..]);
      SlashesFirst(token[1..]);
      EscapePair('~', '0', rest, '1', '/');
      EscapePair('~', '1', rest, '1', '/');
      EscapePlain('0', rest, '1', '/');
      if token[0] != '~' {
        EscapePlain(token[0], rest, '1', '/');
      }
      hide ReplaceEscape;
    }
  }

  lemma {:induction false} TildesThen(token: string)
    ensures ReplaceEscape(HalfEscaped(token), '0', '~') == token
  {
    if token != "" {
      var rest := HalfEscaped(token[1..]);
      TildesThen(token[1..]);
      EscapePair('~', '0', rest, '0', '~');
      if token[0] != '~' {
        EscapePlain(token[0], rest, '0', '~');
      }
      hide ReplaceEscape;
      assert [token[0]] + token[1..] == token;
    }
  }

  /** Unescaping, slashes before tildes, gives back every token. */
  lemma UnescapeUndoesEscape(token: string)
    ensures Unescape(Escape(token)) == token
  {
    SlashesFirst(token);
    TildesThen(token);
  }

  lemma {:induction false} EscapeHasNoSlash(token: string)
    ensures '/' !in Escape(token)
  {
    if token != "" {
      EscapeHasNoSlash(token[1..]);
    }
  }

  /** The pointer of a path. */
  function PointerOf(path: Path): string
  {
    if path == [] then "" else PointerOf(path[..|path| - 1]) + "/" + Escape(path[|path| - 1])
  }

  function EscapedAll(path: Path): (tokens: seq<string>)
    ensures |tokens| == |path| && forall i :: 0 <= i < |path| ==> tokens[i] == Escape(path[i])
  {
    seq(|path|, i requires 0 <= i < |path| => Escape(path[i]))
  }

  lemma {:induction false} PointerTokens(path: Path)
    requires path != []
    ensures PointerOf(path) != "" && PointerOf(path)[0] == '/'
    ensures Split(PointerOf(path)[1..], '/') == EscapedAll(path)
  {
    var n := |path| - 1;
    var front, last := path[..n], Escape(path[n]);
    EscapeHasNoSlash(path[n]);
    SplitOne(last, '/');
    hide Split, Escape;
    assert EscapedAll(path) == EscapedAll(front) + [last];
    if n == 0 {
      assert PointerOf(path)[1..] == last;
    } else {
      PointerTokens(front);
      SplitJoin(PointerOf(front)[1..], last, '/');
      assert PointerOf(path)[1..] == PointerOf(front)[1..] + ['/'] + last;
    }
  }

  /** Every path is the target of its pointer. */
  lemma TargetOfPointer(path: Path)
    ensures WellFormed(PointerOf(path)) && Target(PointerOf(path)) == path
  {
    if path != [] {
      PointerTokens(path);
      hide Unescape, Split, Escape;
      forall i | 0 <= i < |path|
        ensures Unescape(Escape(path[i])) == path[i]
      {
        UnescapeUndoesEscape(path[i]);
      }
    }
  }

  /** The elements of an array are selected by their decimal indices, and by nothing else. */
  lemma ElementToken(items: seq<Json>, token: string, value: Json)
    ensures Child(Arr(items), token) == Some(value)
       <==> exists i :: 0 <= i < |items| && token == Decimal(i) && items[i] == value
  {
    if Canonical(token) {
      CanonicalInjective(token, Decimal(DecimalValue(token)));
    }
  }

  /** Removal reads an index more freely: leading zeros and one plus sign do not matter. */
  lemma FreeIndex(n: nat)
    ensures ParseUsize(Decimal(n)) == Some(n)
    ensures ParseUsize("+" + Decimal(n)) == Some(n)
    ensures ParseUsize("0" + Decimal(n)) == Some(n)
  {
    var s := Decimal(n);
    assert ("+" + s)[1..] == s;
    LeadingZero(s);
  }

  lemma {:induction false} LeadingZero(s: string)
    requires s == "" || AllDigits(s)
    ensures DecimalValue("0" + s) == DecimalValue(s) && AllDigits("0" + s)
  {
    if s != "" {
      var front := s[..|s| - 1];
      LeadingZero(front);
      assert ("0" + s)[..|s|] == "0" + front;
    } else {
      assert ("0" + s)[..0] == "";
    }
  }

  // ---------- Overwriting ----------

  /** Two paths that part ways somewhere: neither continues the other. */
  predicate Apart(p: Path, q: Path)
  {
    p != [] && q != [] && (p[0] != q[0] || Apart(p[1..], q[1..]))
  }

  lemma ChildKept(j: Json, a: string, b: string, x: Json)
    requires Child(j, a).Some?
    ensures Child(WithChild(j, a, x), a) == Some(x)
    ensures a != b ==> Child(WithChild(j, a, x), b) == Child(j, b)
  {
    if a != b && j.Arr? && PointerIndex(a) == PointerIndex(b) {
      CanonicalInjective(a, b);
    }
  }

  /** A value written is what is found there, and below it what is in the value. */
  lemma {:induction false} GetOfSet(j: Json, path: Path, value: Json, inside: Path)
    requires Get(j, path).Some?
    ensures Get(SetAt(j, path, value), path + inside) == Get(value, inside)
  {
    if path == [] {
      assert path + inside == inside;
    } else {
      var child := Child(j, path[0]).value;
      var changed := SetAt(child, path[1..], value);
      ChildKept(j, path[0], path[0], changed);
      GetOfSet(child, path[1..], value, inside);
      assert (path + inside)[1..] == path[1..] + inside;
      hide Child, WithChild;
    }
  }

  /** Nothing apart from the path is touched. */
  lemma {:induction false} GetElsewhere(j: Json, path: Path, value: Json, other: Path)
    requires Apart(path, other)
    ensures Get(SetAt(j, path, value), other) == Get(j, other)
  {
    if Child(j, path[0]).Some? {
      var child := Child(j, path[0]).value;
      var changed := SetAt(child, path[1..], value);
      ChildKept(j, path[0], other[0], changed);
      if path[0] == other[0] {
        GetElsewhere(child, path[1..], value, other[1..]);
      }
      hide Child, WithChild;
    }
  }

  /** Without a target nothing is written. */
  lemma {:induction false} SetNothing(j: Json, path: Path, value: Json)
    requires Get(j, path).None?
    ensures SetAt(j, path, value) == j
  {
    if Child(j, path[0]).Some? {
      SetNothing(Child(j, path[0]).value, path[1..], value);
      assert WithChild(j, path[0], Child(j, path[0]).value) == j;
    }
  }
}
