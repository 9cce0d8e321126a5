/**
 * Removal of JSON paths as one operation on a set of paths, and what equality of two documents after the removal means:
 * the removed paths are wildcards.
 */
module Wildcard {
  import opened Prelude
  import opened TextParsing
  import opened Json

  // ---------- Removal as one operation on a set of paths ----------

  /** The paths of `paths` below the child that `token` selects. */
  function Below(paths: set<Path>, token: string): set<Path>
  {
    set p | p in paths && |p| > 1 && p[0] == token :: p[1..]
  }

  function BelowIndex(paths: set<Path>, i: nat): set<Path>
  {
    set p | p in paths && |p| > 1 && PointerIndex(p[0]) == Some(i) :: p[1..]
  }

  /** The document without any object member at the end of a path. */
  function Prune(j: Json, paths: set<Path>): Json
  {
    match j
    case Obj(fields) => Obj(map k | k in fields && [k] !in paths :: Prune(fields[k], Below(paths, k)))
    case Arr(items) => Arr(PruneItems(items, paths))
    case _ => j
  }

  function PruneItems(items: seq<Json>, paths: set<Path>): (r: seq<Json>)
    ensures |r| == |items|
    ensures forall i :: 0 <= i < |items| ==> r[i] == Prune(items[i], BelowIndex(paths, i))
  {
    seq(|items|, i requires 0 <= i < |items| => Prune(items[i], BelowIndex(paths, i)))
  }

  /** The path does not end at an element of an array: deleting there would shift the elements after it. */
  predicate Settled(j: Json, path: Path)
  {
    if path == [] then true
    else if |path| == 1 then j.Arr? && ParseUsize(path[0]).Some? ==> ParseUsize(path[0]).value >= |j.items|
    else Child(j, path[0]).Some? ==> Settled(Child(j, path[0]).value, path[1..])
  }

  predicate AllSettled(j: Json, paths: set<Path>)
  {
    forall p :: p in paths ==> p != [] && Settled(j, p)
  }

  lemma BelowUnion(p: set<Path>, q: set<Path>, token: string, i: nat)
    ensures Below(p + q, token) == Below(p, token) + Below(q, token)
    ensures BelowIndex(p + q, i) == BelowIndex(p, i) + BelowIndex(q, i)
  {
  }

  lemma {:induction false} PruneNothing(j: Json)
    ensures Prune(j, {}) == j
  {
    match j
    case Obj(fields) =>
      forall k | k in fields
        ensures Prune(fields[k], Below({}, k)) == fields[k]
      {
        assert Below({}, k) == {};
        PruneNothing(fields[k]);
      }
      assert Prune(j, {}).fields == fields;
    case Arr(items) =>
      forall i | 0 <= i < |items|
        ensures Prune(items[i], BelowIndex({}, i)) == items[i]
      {
        assert BelowIndex({}, i) == {};
        PruneNothing(items[i]);
      }
    case _ =>
  }

  lemma {:induction false} PruneTwice(j: Json, p: set<Path>, q: set<Path>)
    ensures Prune(Prune(j, p), q) == Prune(j, p + q)
  {
    match j
    case Obj(fields) =>
      var once, twice, both := Prune(j, p), Prune(Prune(j, p), q), Prune(j, p + q);
      assert twice.fields.Keys == both.fields.Keys;
      forall k | k in both.fields
        ensures twice.fields[k] == both.fields[k]
      {
        BelowUnion(p, q, k, 0);
        PruneTwice(fields[k], Below(p, k), Below(q, k));
      }
      assert twice.fields == both.fields;
    case Arr(items) =>
      forall i | 0 <= i < |items|
        ensures Prune(Prune(items[i], BelowIndex(p, i)), BelowIndex(q, i)) == Prune(items[i], BelowIndex(p + q, i))
      {
        BelowUnion(p, q, "", i);
        PruneTwice(items[i], BelowIndex(p, i), BelowIndex(q, i));
      }
      assert PruneItems(PruneItems(items, p), q) == PruneItems(items, p + q);
    case _ =>
  }

  // ---------- Deleting one path is pruning it ----------

  /** Deleting what the path leads to. */
  function Delete(j: Json, path: Path): Json
    requires path != []
  {
    RemoveAt(j, path[..|path| - 1], path[|path| - 1])
  }

  lemma DeleteStep(j: Json, path: Path)
    requires |path| > 1
    ensures Delete(j, path) ==
            if Child(j, path[0]).None? then j
            else WithChild(j, path[0], Delete(Child(j, path[0]).value, path[1..]))
  {
    var rest := path[1..];
    assert path[..|path| - 1][1..] == rest[..|rest| - 1];
  }

  lemma {:induction false} DeleteIsPrune(j: Json, path: Path)
    requires path != [] && Settled(j, path)
    ensures Delete(j, path) == Prune(j, {path})
  {
    if |path| > 1 {
      DeleteStep(j, path);
      if Child(j, path[0]).Some? {
        DeleteIsPrune(Child(j, path[0]).value, path[1..]);
      }
    } else {
      assert path == [path[0]];
    }
    hide Delete, Settled;
    match j
    case Obj(fields) => PruneOneField(fields, path);
    case Arr(items) => PruneOneItem(items, path);
    case _ =>
  }

  lemma PruneOneField(fields: map<Bytes, Json>, path: Path)
    requires path != []
    ensures var k := path[0];
            Prune(Obj(fields), {path}) ==
            if k !in fields then Obj(fields)
            else if |path| == 1 then Obj(fields - {k})
            else Obj(fields[k := Prune(fields[k], {path[1..]})])
  {
    var after := Prune(Obj(fields), {path}).fields;
    forall k | k in fields && k != path[0]
      ensures k in after && after[k] == fields[k]
    {
      assert Below({path}, k) == {};
      PruneNothing(fields[k]);
    }
    var k := path[0];
    if |path| == 1 {
      assert path == [k];
      assert after == fields - {k};
    } else if k in fields {
      assert Below({path}, k) == {path[1..]};
      assert after == fields[k := Prune(fields[k], {path[1..]})];
    } else {
      assert after == fields;
    }
  }

  lemma BelowOne(path: Path, i: nat)
    requires path != []
    ensures BelowIndex({path}, i) == if |path| > 1 && PointerIndex(path[0]) == Some(i) then {path[1..]} else {}
  {
  }

  lemma PruneOneItem(items: seq<Json>, path: Path)
    requires path != []
    ensures var at := PointerIndex(path[0]);
            PruneItems(items, {path}) ==
            if |path| == 1 || at.None? || at.value >= |items| then items
            else items[at.value := Prune(items[at.value], {path[1..]})]
  {
    hide Prune, PruneItems, BelowIndex, PointerIndex;
    var at := PointerIndex(path[0]);
    forall i | 0 <= i < |items|
      ensures Prune(items[i], BelowIndex({path}, i)) ==
              if |path| > 1 && at == Some(i) then Prune(items[i], {path[1..]}) else items[i]
    {
      BelowOne(path, i);
      PruneNothing(items[i]);
    }
  }

  lemma {:induction false} PruneKeepsSettled(j: Json, paths: set<Path>, path: Path)
    requires Settled(j, path)
    ensures Settled(Prune(j, paths), path)
  {
    if |path| > 1 && Child(Prune(j, paths), path[0]).Some? {
      match j
      case Obj(fields) => PruneKeepsSettled(fields[path[0]], Below(paths, path[0]), path[1..]);
      case Arr(items) =>
        var i := PointerIndex(path[0]).value;
        PruneKeepsSettled(items[i], BelowIndex(paths, i), path[1..]);
      case _ =>
    }
  }

  lemma {:induction false} SetKeepsSettled(j: Json, target: Path, path: Path)
    requires Settled(j, path)
    ensures Settled(SetAt(j, target, REDACTED), path)
  {
    if target != [] && |path| > 1 && Child(j, path[0]).Some? && Child(j, target[0]).Some? {
      SetKeepsSettled(Child(j, path[0]).value, target[1..], path[1..]);
    }
  }

  // ---------- Redaction and what it does to the value at a path ----------

  /** Nothing there, or the marker already. */
  predicate Inert(v: Option<Json>)
  {
    v.None? || v == Some(REDACTED)
  }

  lemma {:induction false} SetInert(j: Json, target: Path)
    requires Inert(Get(j, target))
    ensures SetAt(j, target, REDACTED) == j
  {
    if target != [] && Child(j, target[0]).Some? {
      SetInert(Child(j, target[0]).value, target[1..]);
    }
  }

  /** Overwriting a target makes it inert, and nothing that was inert otherwise. */
  lemma {:induction false} SetMakesInert(j: Json, target: Path, path: Path)
    requires Inert(Get(j, path)) || path == target
    ensures Inert(Get(SetAt(j, target, REDACTED), path))
  {
    if target != [] && path != [] && Child(j, path[0]).Some? && Child(j, target[0]).Some? {
      SetMakesInert(Child(j, path[0]).value, target[1..], path[1..]);
    }
  }

  // ---------- What is visible in a document ----------

  datatype View = Missing | AnObject | AnArray(length: nat) | AValue(value: Json)

  /** What is visible at a path: nothing, an object, an array of some length, or a plain value. */
  function ViewAt(j: Json, path: Path): View
  {
    match Get(j, path)
    case None => Missing
    case Some(Obj(_)) => AnObject
    case Some(Arr(items)) => AnArray(|items|)
    case Some(value) => AValue(value)
  }

  predicate Outside(path: Path, paths: set<Path>)
  {
    forall n :: 0 < n <= |path| ==> path[..n] !in paths
  }

  ghost predicate AgreeOutside(a: Json, b: Json, paths: set<Path>)
  {
    forall path :: Outside(path, paths) ==> ViewAt(a, path) == ViewAt(b, path)
  }

  lemma BelowPrefix(path: Path, paths: set<Path>, n: nat)
    requires 0 < n < |path|
    ensures path[1..][..n] in Below(paths, path[0]) <==> path[..n + 1] in paths
  {
    var longer := path[..n + 1];
    assert longer[1..] == path[1..][..n];
    forall p | p in paths && |p| > 1 && p[0] == path[0] && p[1..] == longer[1..]
      ensures p == longer
    {
      assert p == [p[0]] + p[1..] && longer == [longer[0]] + longer[1..];
    }
  }

  lemma OutsideStep(path: Path, paths: set<Path>)
    requires path != []
    ensures Outside(path, paths) <==> [path[0]] !in paths && Outside(path[1..], Below(paths, path[0]))
  {
    assert path[..1] == [path[0]];
    forall n | 0 < n < |path|
      ensures path[1..][..n] in Below(paths, path[0]) <==> path[..n + 1] in paths
    {
      BelowPrefix(path, paths, n);
    }
    if [path[0]] !in paths && Outside(path[1..], Below(paths, path[0])) {
      forall n | 0 < n <= |path|
        ensures path[..n] !in paths
      {
        assert n == 1 || path[1..][..n - 1] !in Below(paths, path[0]);
      }
    }
  }

  /** A token that selects an element is the only one that does. */
  lemma BelowToken(paths: set<Path>, token: string, i: nat)
    requires PointerIndex(token) == Some(i)
    ensures BelowIndex(paths, i) == Below(paths, token)
  {
    forall p | p in paths && |p| > 1 && PointerIndex(p[0]) == Some(i)
      ensures p[0] == token
    {
      CanonicalInjective(p[0], token);
    }
  }

  lemma SettledBelow(j: Json, paths: set<Path>, token: string)
    requires AllSettled(j, paths) && Child(j, token).Some?
    ensures AllSettled(Child(j, token).value, Below(paths, token))
    ensures j.Arr? ==> [token] !in paths
  {
    hide Child;
    forall p | p in Below(paths, token)
      ensures p != [] && Settled(Child(j, token).value, p)
    {
      var longer :| longer in paths && |longer| > 1 && longer[0] == token && longer[1..] == p;
      assert Settled(j, longer);
    }
    if j.Arr? {
      ElementNotDeleted(j.items, paths, token);
    }
  }

  lemma ElementNotDeleted(items: seq<Json>, paths: set<Path>, token: string)
    requires AllSettled(Arr(items), paths) && Child(Arr(items), token).Some?
    ensures [token] !in paths
  {
    assert [token] in paths ==> Settled(Arr(items), [token]);
  }

  /** What pruning makes of a child. */
  lemma PrunedChild(j: Json, paths: set<Path>, token: string)
    requires AllSettled(j, paths)
    ensures Child(Prune(j, paths), token) ==
            if Child(j, token).None? || [token] in paths then None
            else Some(Prune(Child(j, token).value, Below(paths, token)))
  {
    if Child(j, token).Some? {
      SettledBelow(j, paths, token);
      if j.Arr? {
        BelowToken(paths, token, PointerIndex(token).value);
      }
    }
    hide AllSettled, Below, BelowIndex, PointerIndex;
  }

  lemma ViewStep(j: Json, path: Path)
    requires path != []
    ensures ViewAt(j, path) ==
            if Child(j, path[0]).None? then Missing else ViewAt(Child(j, path[0]).value, path[1..])
  {
    hide Child;
  }

  /** Pruning hides exactly what is not outside the paths. */
  lemma {:induction false} ViewOfPruned(j: Json, paths: set<Path>, path: Path)
    requires AllSettled(j, paths)
    ensures ViewAt(Prune(j, paths), path) == if Outside(path, paths) then ViewAt(j, path) else Missing
    decreases path
  {
    if path != [] {
      hide *;
      OutsideStep(path, paths);
      PrunedChild(j, paths, path[0]);
      ViewStep(j, path);
      ViewStep(Prune(j, paths), path);
      if Child(j, path[0]).Some? {
        SettledBelow(j, paths, path[0]);
        ViewOfPruned(Child(j, path[0]).value, Below(paths, path[0]), path[1..]);
      }
    }
  }

  /** A document is what is visible in it. */
  lemma {:induction false} EqualByViews(a: Json, b: Json)
    requires forall path :: ViewAt(a, path) == ViewAt(b, path)
    ensures a == b
  {
    assert ViewAt(a, []) == ViewAt(b, []);
    match a
    case Obj(fields) =>
      forall k | k in fields || k in b.fields
        ensures k in fields && k in b.fields && fields[k] == b.fields[k]
      {
        assert ViewAt(a, [k]) == ViewAt(b, [k]);
        ViewBelow(a, k, []);
        ViewBelow(b, k, []);
        ChildrenAlike(a, b, k);
        EqualByViews(fields[k], b.fields[k]);
      }
      assert fields == b.fields;
    case Arr(items) =>
      forall i | 0 <= i < |items|
        ensures items[i] == b.items[i]
      {
        ChildrenAlike(a, b, Decimal(i));
        EqualByViews(items[i], b.items[i]);
      }
      assert items == b.items;
    case _ =>
  }

  lemma ViewBelow(j: Json, token: string, path: Path)
    ensures ViewAt(j, [token] + path) ==
            if Child(j, token).None? then Missing else ViewAt(Child(j, token).value, path)
    ensures [token] + [] == [token]
  {
    assert ([token] + path)[1..] == path;
  }

  lemma ChildrenAlike(a: Json, b: Json, token: string)
    requires forall path :: ViewAt(a, path) == ViewAt(b, path)
    requires Child(a, token).Some? && Child(b, token).Some?
    ensures forall path :: ViewAt(Child(a, token).value, path) == ViewAt(Child(b, token).value, path)
  {
    forall path
      ensures ViewAt(Child(a, token).value, path) == ViewAt(Child(b, token).value, path)
    {
      assert ViewAt(a, [token] + path) == ViewAt(b, [token] + path);
      ViewBelow(a, token, path);
      ViewBelow(b, token, path);
    }
  }

  /** Documents are equal after pruning exactly when they look the same at every path outside the pruned ones. */
  lemma PrunedEqualIffAgree(a: Json, b: Json, paths: set<Path>)
    requires AllSettled(a, paths) && AllSettled(b, paths)
    ensures Prune(a, paths) == Prune(b, paths) <==> AgreeOutside(a, b, paths)
  {
    var p, q := Prune(a, paths), Prune(b, paths);
    if p == q {
      forall path | Outside(path, paths)
        ensures ViewAt(a, path) == ViewAt(b, path)
      {
        ViewOfPruned(a, paths, path);
        ViewOfPruned(b, paths, path);
      }
    }
    if AgreeOutside(a, b, paths) {
      forall path
        ensures ViewAt(p, path) == ViewAt(q, path)
      {
        ViewOfPruned(a, paths, path);
        ViewOfPruned(b, paths, path);
      }
      EqualByViews(p, q);
    }
  }
}
