/**
 * Exactly when removing pointers (crates/eggreplay-core/src/matching.rs) hides that pointers were redacted
 * (crates/eggreplay-core/src/security.rs).
 */
module Absorption {
  import opened Prelude
  import opened TextParsing
  import opened Json
  import opened Wildcard

  // ---------- Lists of pointers ----------

  /** The paths that removing the pointers deletes; the root and malformed pointers delete nothing. */
  function DeletedSet(pointers: seq<string>): set<Path>
  {
    set p | p in pointers && WellFormed(p) && p != "" :: Deleted(p)
  }

  lemma DeletedSetStep(front: seq<string>, last: string)
    ensures DeletedSet(front + [last])
         == DeletedSet(front) + if WellFormed(last) && last != "" then {Deleted(last)} else {}
  {
    hide WellFormed, Deleted;
    var all := front + [last];
    assert last in all && forall p :: p in front ==> p in all;
  }

  /** Whatever the order, removing pointers one by one is pruning their paths at once. */
  lemma {:induction false} RemoveAllIsPrune(j: Json, pointers: seq<string>)
    requires AllSettled(j, DeletedSet(pointers))
    ensures RemoveAll(j, pointers) == Prune(j, DeletedSet(pointers))
  {
    if pointers == [] {
      assert DeletedSet(pointers) == {};
      PruneNothing(j);
    } else {
      var front, last := pointers[..|pointers| - 1], pointers[|pointers| - 1];
      assert pointers == front + [last];
      DeletedSetStep(front, last);
      RemoveAllIsPrune(j, front);
      RemoveOneMore(j, DeletedSet(front), last);
    }
  }

  lemma RemoveOneMore(j: Json, paths: set<Path>, pointer: string)
    requires WellFormed(pointer) && pointer != "" ==> Settled(j, Deleted(pointer))
    ensures RemovePointer(Prune(j, paths), pointer)
         == Prune(j, paths + if WellFormed(pointer) && pointer != "" then {Deleted(pointer)} else {})
  {
    var before := Prune(j, paths);
    RemoveIsDelete(before, pointer);
    if WellFormed(pointer) && pointer != "" {
      var path := Deleted(pointer);
      PruneKeepsSettled(j, paths, path);
      DeleteIsPrune(before, path);
      PruneTwice(j, paths, {path});
    } else {
      assert paths + {} == paths;
    }
  }

  /** Some removed path is a prefix of what the pointer redacts. */
  ghost predicate Covered(pointer: string, paths: set<Path>)
    requires WellFormed(pointer)
  {
    exists d :: d in paths && d <= Target(pointer)
  }

  /** Redacting the pointers cannot be seen once the paths are removed: it overwrites nothing that stays. */
  ghost predicate Invisible(j: Json, redacted: seq<string>, paths: set<Path>)
  {
    forall p :: p in redacted && WellFormed(p) ==> Covered(p, paths) || Inert(Get(j, Target(p)))
  }

  lemma {:induction false} PruneAbsorbsSet(j: Json, target: Path, d: Path, paths: set<Path>)
    requires d in paths && d != [] && d <= target && Settled(j, d)
    ensures Prune(SetAt(j, target, REDACTED), paths) == Prune(j, paths)
  {
    var token := target[0];
    if Child(j, token).Some? {
      if |d| == 1 {
        assert d == [token];
      } else {
        assert d[1..] <= target[1..];
        assert d[1..] in Below(paths, token);
        if j.Arr? {
          BelowToken(paths, token, PointerIndex(token).value);
        }
        PruneAbsorbsSet(Child(j, token).value, target[1..], d[1..], Below(paths, token));
      }
      PruneOneChild(j, token, SetAt(Child(j, token).value, target[1..], REDACTED), paths);
    }
  }

  /** A changed child that is pruned, or pruned alike, cannot be seen. */
  lemma PruneOneChild(j: Json, token: string, child: Json, paths: set<Path>)
    requires Child(j, token).Some?
    requires
      || (j.Obj? && [token] in paths)
      || Prune(child, Below(paths, token)) == Prune(Child(j, token).value, Below(paths, token))
    ensures Prune(WithChild(j, token, child), paths) == Prune(j, paths)
  {
    match j
    case Obj(fields) =>
      assert Prune(WithChild(j, token, child), paths).fields == Prune(j, paths).fields;
    case Arr(items) =>
      var i := PointerIndex(token).value;
      BelowToken(paths, token, i);
      hide Below, BelowIndex, PointerIndex;
      assert PruneItems(items[i := child], paths) == PruneItems(items, paths);
  }

  lemma {:induction false} RedactAllInert(j: Json, pointers: seq<string>, path: Path)
    requires Inert(Get(j, path)) || exists p :: p in pointers && WellFormed(p) && Target(p) == path
    ensures Inert(Get(RedactAll(j, pointers), path))
  {
    if pointers != [] {
      var front, last := pointers[..|pointers| - 1], pointers[|pointers| - 1];
      assert pointers == front + [last];
      if !(WellFormed(last) && Target(last) == path) {
        RedactAllInert(j, front, path);
      }
      RedactIsSet(RedactAll(j, front), last);
      if WellFormed(last) {
        SetMakesInert(RedactAll(j, front), Target(last), path);
      }
    }
  }

  lemma {:induction false} RedactAllSettled(j: Json, pointers: seq<string>, path: Path)
    requires Settled(j, path)
    ensures Settled(RedactAll(j, pointers), path)
  {
    if pointers != [] {
      var front, last := pointers[..|pointers| - 1], pointers[|pointers| - 1];
      RedactAllSettled(j, front, path);
      RedactIsSet(RedactAll(j, front), last);
      if WellFormed(last) {
        SetKeepsSettled(RedactAll(j, front), Target(last), path);
      }
    }
  }

  lemma {:induction false} RedactAllAbsorbed(j: Json, pointers: seq<string>, paths: set<Path>)
    requires AllSettled(j, paths) && Invisible(j, pointers, paths)
    ensures Prune(RedactAll(j, pointers), paths) == Prune(j, paths)
  {
    if pointers != [] {
      var front, last := pointers[..|pointers| - 1], pointers[|pointers| - 1];
      assert pointers == front + [last];
      RedactAllAbsorbed(j, front, paths);
      var before := RedactAll(j, front);
      RedactIsSet(before, last);
      if WellFormed(last) {
        if Covered(last, paths) {
          var d :| d in paths && d <= Target(last);
          RedactAllSettled(j, front, d);
          PruneAbsorbsSet(before, Target(last), d, paths);
        } else {
          RedactAllInert(j, front, Target(last));
          SetInert(before, Target(last));
        }
      }
    }
  }

  // ---------- When removal absorbs redaction ----------

  /**
   * For documents in which no deleted path ends at an array element, removing paths absorbs redacting pointers if and
   * only if every redacted target is covered by a removed path, is absent, or holds the marker already.
   */
  lemma RemovalAbsorbsRedactionIff(j: Json, redacted: seq<string>, removed: seq<string>)
    requires AllSettled(j, DeletedSet(removed))
    ensures RemoveAll(RedactAll(j, redacted), removed) == RemoveAll(j, removed)
       <==> Invisible(j, redacted, DeletedSet(removed))
  {
    var paths := DeletedSet(removed);
    var after := RedactAll(j, redacted);
    forall p | p in paths
      ensures p != [] && Settled(after, p)
    {
      RedactAllSettled(j, redacted, p);
    }
    RemoveAllIsPrune(j, removed);
    RemoveAllIsPrune(after, removed);
    if Invisible(j, redacted, paths) {
      RedactAllAbsorbed(j, redacted, paths);
    } else {
      var p :| p in redacted && WellFormed(p) && !Covered(p, paths) && !Inert(Get(j, Target(p)));
      VisibleRedaction(j, redacted, p, paths);
    }
  }

  /** A redacted value that stays is seen. */
  lemma VisibleRedaction(j: Json, redacted: seq<string>, p: string, paths: set<Path>)
    requires AllSettled(j, paths) && AllSettled(RedactAll(j, redacted), paths)
    requires p in redacted && WellFormed(p) && !Covered(p, paths) && !Inert(Get(j, Target(p)))
    ensures Prune(RedactAll(j, redacted), paths) != Prune(j, paths)
  {
    var path := Target(p);
    forall n | 0 < n <= |path|
      ensures path[..n] !in paths
    {
      assert path[..n] <= path;
    }
    RedactAllInert(j, redacted, path);
    ViewOfPruned(j, paths, path);
    ViewOfPruned(RedactAll(j, redacted), paths, path);
  }

  /** One-field objects all the way down the path. */
  function Chain(path: Path): Json
  {
    if path == [] then Scalar("0") else Obj(map[path[0] := Chain(path[1..])])
  }

  lemma {:induction false} ChainHolds(path: Path)
    ensures Get(Chain(path), path) == Some(Scalar("0"))
  {
    if path != [] {
      ChainHolds(path[1..]);
    }
  }

  lemma {:induction false} ChainSettled(path: Path, other: Path)
    ensures Settled(Chain(path), other)
  {
    if path != [] && |other| > 1 {
      ChainSettled(path[1..], other[1..]);
    }
  }

  /**
   * A redaction policy is absorbed in all such documents if and only if each of its well-formed pointers redacts
   * something at or below a removed path.
   */
  lemma PolicyAbsorbedIff(redacted: seq<string>, removed: seq<string>)
    ensures (forall j :: AllSettled(j, DeletedSet(removed)) ==>
               RemoveAll(RedactAll(j, redacted), removed) == RemoveAll(j, removed))
       <==> (forall p :: p in redacted && WellFormed(p) ==> Covered(p, DeletedSet(removed)))
  {
    var paths := DeletedSet(removed);
    forall j | AllSettled(j, paths)
      ensures RemoveAll(RedactAll(j, redacted), removed) == RemoveAll(j, removed)
         <==> Invisible(j, redacted, paths)
    {
      RemovalAbsorbsRedactionIff(j, redacted, removed);
    }
    forall p | p in redacted && WellFormed(p)
      ensures AllSettled(Chain(Target(p)), paths)
      ensures Invisible(Chain(Target(p)), redacted, paths) ==> Covered(p, paths)
    {
      ChainHolds(Target(p));
      forall d | d in paths
        ensures d != [] && Settled(Chain(Target(p)), d)
      {
        ChainSettled(Target(p), d);
      }
    }
  }

  /**
   * On its own, a pointer is absorbed in every document, arrays included, if and only if it is not the root and its
   * last token is unescaped to itself.
   */
  lemma PointerAbsorbedIff(pointer: string)
    requires WellFormed(pointer)
    ensures (forall j :: RemovePointer(RedactPointer(j, pointer), pointer) == RemovePointer(j, pointer))
       <==> pointer != "" && Unescape(LastToken(pointer)) == LastToken(pointer)
  {
    if pointer != "" {
      TargetOfDeleted(pointer);
    }
    if pointer != "" && Unescape(LastToken(pointer)) == LastToken(pointer) {
      var d := Deleted(pointer);
      assert Target(pointer) == d;
      forall j
        ensures RemovePointer(RedactPointer(j, pointer), pointer) == RemovePointer(j, pointer)
      {
        RedactIsSet(j, pointer);
        RemoveIsDelete(j, pointer);
        RemoveIsDelete(SetAt(j, d, REDACTED), pointer);
        DeleteAbsorbsSet(j, d);
      }
    } else {
      PointerNotAbsorbed(pointer);
    }
  }

  lemma {:induction false} DeleteAbsorbsSet(j: Json, path: Path)
    requires path != []
    ensures Delete(SetAt(j, path, REDACTED), path) == Delete(j, path)
  {
    if |path| > 1 {
      DeleteStep(j, path);
      DeleteStep(SetAt(j, path, REDACTED), path);
      if Child(j, path[0]).Some? {
        DeleteAbsorbsSet(Child(j, path[0]).value, path[1..]);
      }
    } else if j.Obj? {
      assert path == [path[0]];
      assert Delete(SetAt(j, path, REDACTED), path).fields == Delete(j, path).fields;
    }
  }

  lemma NotCovered(pointer: string, d: Path)
    requires WellFormed(pointer) && d in DeletedSet([pointer])
    requires pointer != "" ==> Unescape(LastToken(pointer)) != LastToken(pointer)
    ensures d != [] && !(d <= Target(pointer))
  {
    TargetOfDeleted(pointer);
    var target := Target(pointer);
    assert d[|d| - 1] != target[|d| - 1];
  }

  /** The chain of objects that leads to the pointer's target shows the redaction. */
  lemma PointerNotAbsorbed(pointer: string)
    requires WellFormed(pointer)
    requires pointer != "" ==> Unescape(LastToken(pointer)) != LastToken(pointer)
    ensures var j := Chain(Target(pointer));
            RemovePointer(RedactPointer(j, pointer), pointer) != RemovePointer(j, pointer)
  {
    var j, one := Chain(Target(pointer)), [pointer];
    ChainHolds(Target(pointer));
    forall d | d in DeletedSet(one)
      ensures d != [] && Settled(j, d) && !(d <= Target(pointer))
    {
      ChainSettled(Target(pointer), d);
      NotCovered(pointer, d);
    }
    RemovalAbsorbsRedactionIff(j, one, one);
    assert pointer in one && !Covered(pointer, DeletedSet(one));
    SinglePointer(j, pointer);
    SinglePointer(RedactPointer(j, pointer), pointer);
  }

  lemma SinglePointer(j: Json, pointer: string)
    ensures RemoveAll(j, [pointer]) == RemovePointer(j, pointer)
    ensures RedactAll(j, [pointer]) == RedactPointer(j, pointer)
  {
    assert [pointer][..0] == [];
  }

  /** Removing what is redacted, and more, hides it in every document when the last tokens hold no escapes. */
  lemma RemovedPolicyInvisible(j: Json, redacted: seq<string>, removed: seq<string>)
    requires forall p :: p in redacted && WellFormed(p) ==>
               p in removed && p != "" && Unescape(LastToken(p)) == LastToken(p)
    ensures Invisible(j, redacted, DeletedSet(removed))
  {
    forall p | p in redacted && WellFormed(p)
      ensures Covered(p, DeletedSet(removed))
    {
      TargetOfDeleted(p);
      assert Deleted(p) in DeletedSet(removed) && Deleted(p) == Target(p);
    }
  }

  /**
   * The wildcard theorem: a redacted recording equals an actual document after the removal exactly when the original
   * recording and the actual document agree outside the removed paths.
   */
  lemma RedactedMatchesIffAgree(original: Json, actual: Json, redacted: seq<string>, removed: seq<string>)
    requires Invisible(original, redacted, DeletedSet(removed))
    requires AllSettled(original, DeletedSet(removed)) && AllSettled(actual, DeletedSet(removed))
    ensures RemoveAll(actual, removed) == RemoveAll(RedactAll(original, redacted), removed)
       <==> AgreeOutside(original, actual, DeletedSet(removed))
  {
    RemovalAbsorbsRedactionIff(original, redacted, removed);
    RemoveAllIsPrune(original, removed);
    RemoveAllIsPrune(actual, removed);
    PrunedEqualIffAgree(original, actual, DeletedSet(removed));
  }

  // ---------- Where absorption fails ----------

  lemma {:induction false} ReplaceNothing(s: string, tag: char, with: char)
    requires '~' !in s
    ensures ReplaceEscape(s, tag, with) == s
  {
    if s != "" {
      ReplaceNothing(s[1..], tag, with);
    }
  }

  lemma {:induction false} LastSlashBefore(parent: string, token: string)
    requires '/' !in token
    ensures LastSlash(parent + "/" + token) == Some(|parent|)
  {
    var pointer := parent + "/" + token;
    if token != "" {
      var front := token[..|token| - 1];
      assert pointer[..|pointer| - 1] == parent + "/" + front;
      assert pointer[|pointer| - 1] == token[|token| - 1];
      LastSlashBefore(parent, front);
    }
  }

  lemma ElementPointer(pointer: string, token: string)
    requires pointer == "/a" + "/" + token && '/' !in token && '~' !in token
    ensures pointer != "" && WellFormed(pointer) && Target(pointer) == ["a", token] && Deleted(pointer) == ["a", token]
  {
    LastSlashBefore("/a", token);
    assert pointer[..2] == "/a" && pointer[3..] == token && "/a"[1..] == "a";
    ReplaceNothing("a", '1', '/');
    ReplaceNothing("a", '0', '~');
    ReplaceNothing(token, '1', '/');
    ReplaceNothing(token, '0', '~');
    SplitOne("a", '/');
    assert UnescapeAll(["a"]) == ["a"];
    TargetOfDeleted(pointer);
  }

  /** A document with one array, and what the two operations do inside it. */
  function ArrayDoc(items: seq<Json>): Json
  {
    Obj(map["a" := Arr(items)])
  }

  lemma InArray(items: seq<Json>, pointer: string, token: string, i: nat)
    requires pointer == "/a" + "/" + token && '/' !in token && '~' !in token
    requires i < |items| && PointerIndex(token) == Some(i) && ParseUsize(token) == Some(i)
    ensures RedactPointer(ArrayDoc(items), pointer) == ArrayDoc(items[i := REDACTED])
    ensures RemovePointer(ArrayDoc(items), pointer) == ArrayDoc(items[..i] + items[i + 1..])
  {
    ElementPointer(pointer, token);
    hide Target, Deleted, WellFormed, PointerIndex, ParseUsize, RedactPointer, RemovePointer;
    var doc := ArrayDoc(items);
    RedactIsSet(doc, pointer);
    RemoveIsDelete(doc, pointer);
    assert SetAt(Arr(items), [token], REDACTED) == Arr(items[i := REDACTED]);
    assert ["a", token][1..] == [token] && ["a", token][..1] == ["a"] && ["a"][1..] == [];
    assert RemoveAt(Arr(items), [], token) == Arr(items[..i] + items[i + 1..]);
  }

  lemma RemovePair(j: Json, first: string, second: string)
    ensures RemoveAll(j, [first, second]) == RemovePointer(RemovePointer(j, first), second)
    ensures RedactAll(j, [first, second]) == RedactPointer(RedactPointer(j, first), second)
  {
    var two := [first, second];
    var one := two[..1];
    assert one == [first] && one[..0] == [];
    assert RemoveAll(j, one) == RemovePointer(j, first) && RedactAll(j, one) == RedactPointer(j, first);
  }

  /** Removing an array element shifts the later ones, so a redacted neighbour becomes visible. */
  lemma ArraysBreakAbsorption()
    ensures
      var doc := ArrayDoc([Scalar("1"), Scalar("2"), Scalar("3")]);
      var pointers := ["/a/0", "/a/1"];
      && RemoveAll(RedactAll(doc, pointers), pointers) == ArrayDoc([REDACTED])
      && RemoveAll(doc, pointers) == ArrayDoc([Scalar("2")])
  {
    var x, y, z := Scalar("1"), Scalar("2"), Scalar("3");
    hide RemoveAll, RedactAll, RemovePointer, RedactPointer, ArrayDoc;
    assert [x, y, z][0 := REDACTED] == [REDACTED, y, z] && [REDACTED, y, z][1 := REDACTED] == [REDACTED, REDACTED, z];
    assert [REDACTED, REDACTED, z][..0] + [REDACTED, REDACTED, z][1..] == [REDACTED, z];
    assert [REDACTED, z][..1] + [REDACTED, z][2..] == [REDACTED];
    assert [x, y, z][..0] + [x, y, z][1..] == [y, z] && [y, z][..1] + [y, z][2..] == [y];
    RemovePair(ArrayDoc([x, y, z]), "/a/0", "/a/1");
    RemovePair(ArrayDoc([REDACTED, REDACTED, z]), "/a/0", "/a/1");
    InArray([x, y, z], "/a/0", "0", 0);
    InArray([REDACTED, y, z], "/a/1", "1", 1);
    InArray([REDACTED, REDACTED, z], "/a/0", "0", 0);
    InArray([REDACTED, z], "/a/1", "1", 1);
    InArray([y, z], "/a/1", "1", 1);
  }

  /** An escaped pointer is redacted but not removed, so the marker is compared literally. */
  lemma EscapesBreakAbsorption()
    ensures
      var doc := Obj(map["a/b" := Scalar("1")]);
      && RemovePointer(RedactPointer(doc, "/a~1b"), "/a~1b") == Obj(map["a/b" := REDACTED])
      && RemovePointer(doc, "/a~1b") == doc
  {
    EscapedRedacts(Scalar("1"));
    EscapedStays(Scalar("1"));
    EscapedStays(REDACTED);
    hide RedactPointer, RemovePointer;
  }

  lemma EscapedRedacts(value: Json)
    ensures RedactPointer(Obj(map["a/b" := value]), "/a~1b") == Obj(map["a/b" := REDACTED])
  {
    var pointer: string := "/a~1b";
    assert pointer[1..] == "a~1b";
    SplitOne("a~1b", '/');
    EscapedToken();
    hide Unescape, Split;
    assert UnescapeAll(["a~1b"]) == ["a/b"];
    assert RawTokens(pointer) == Some(["a~1b"]);
    var doc, child := Obj(map["a/b" := value]), ["a/b"][1..];
    assert child == [] && SetAt(value, child, REDACTED) == REDACTED;
    assert SetAt(doc, ["a/b"], REDACTED) == WithChild(doc, "a/b", REDACTED);
    assert map["a/b" := value]["a/b" := REDACTED] == map["a/b" := REDACTED];
  }

  lemma EscapedStays(value: Json)
    ensures RemovePointer(Obj(map["a/b" := value]), "/a~1b") == Obj(map["a/b" := value])
  {
    var doc := Obj(map["a/b" := value]);
    var pointer: string := "/a~1b";
    assert LastSlash(pointer) == Some(0);
    assert UnescapeAll([]) == [];
    assert RemovePointer(doc, pointer).fields == doc.fields;
  }

  lemma EscapedToken()
    ensures Unescape("a~1b") == "a/b"
  {
    assert "a~1b"[1..] == "~1b" && "~1b"[2..] == "b" && "b"[1..] == "";
    assert ReplaceEscape("b", '1', '/') == "b";
    assert ReplaceEscape("~1b", '1', '/') == "/b";
    ReplaceNothing("a/b", '0', '~');
  }

  /** The root pointer is redacted but never removed. */
  lemma RootBreaksAbsorption(j: Json)
    ensures RemovePointer(RedactPointer(j, ""), "") == REDACTED && RemovePointer(j, "") == j
  {
    assert UnescapeAll([]) == [];
  }
}
