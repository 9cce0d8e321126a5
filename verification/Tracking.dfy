/**
 * Redacted values followed through a removal: where each one stands after every step, array elements included, and so
 * exactly when a removal hides a redaction, for every document and all pointers.
 */
module Tracking {
  import opened Prelude
  import opened TextParsing
  import opened Json
  import opened Wildcard
  import opened Absorption

  // ---------- One deletion ----------

  /** Both tokens select the same child. */
  predicate SameChild(j: Json, a: string, b: string)
  {
    Child(j, a).Some? && Child(j, b).Some? && if j.Arr? then PointerIndex(a) == PointerIndex(b) else a == b
  }

  /** The token that selects the child `token` after the entry `deleted` has been removed beside it, if it is left. */
  function Beside(j: Json, token: string, deleted: string): Option<string>
    requires Child(j, token).Some?
  {
    if j.Arr? then
      var i, k := PointerIndex(token).value, ParseUsize(deleted);
      if k.None? || k.value > i then Some(token)
      else if k.value == i then None
      else Some(Decimal(i - 1))
    else if deleted == token then None
    else Some(token)
  }

  /** Where the value at `path` stands after deleting `d`, if it is left. */
  function Moved(j: Json, path: Path, d: Path): Option<Path>
    requires d != [] && Get(j, path).Some?
    decreases path
  {
    if path == [] then Some([])
    else if |d| == 1 then
      match Beside(j, path[0], d[0])
      case None => None
      case Some(token) => Some([token] + path[1..])
    else if SameChild(j, path[0], d[0]) then
      match Moved(Child(j, path[0]).value, path[1..], d[1..])
      case None => None
      case Some(rest) => Some([path[0]] + rest)
    else Some(path)
  }

  lemma GetStep(j: Json, path: Path)
    requires path != []
    ensures Get(j, path) == if Child(j, path[0]).None? then None else Get(Child(j, path[0]).value, path[1..])
  {
  }

  lemma ConsGet(j: Json, token: string, rest: Path)
    ensures Get(j, [token] + rest) == if Child(j, token).None? then None else Get(Child(j, token).value, rest)
    ensures SetAt(j, [token] + rest, REDACTED) ==
            if Child(j, token).None? then j
            else WithChild(j, token, SetAt(Child(j, token).value, rest, REDACTED))
  {
    assert ([token] + rest)[1..] == rest;
  }

  /** A child beside the removed entry keeps its value, under its new token. */
  lemma BesideHolds(j: Json, token: string, deleted: string)
    requires Child(j, token).Some? && Beside(j, token, deleted).Some?
    ensures Child(RemoveKey(j, deleted), Beside(j, token, deleted).value) == Child(j, token)
  {
    if j.Arr? && Beside(j, token, deleted) != Some(token) {
      var i := PointerIndex(token).value;
      assert PointerIndex(Decimal(i - 1)) == Some(i - 1);
    }
  }

  lemma BesideSet(j: Json, token: string, deleted: string, child: Json)
    requires Child(j, token).Some?
    ensures Beside(j, token, deleted).None? ==> RemoveKey(WithChild(j, token, child), deleted) == RemoveKey(j, deleted)
    ensures Beside(j, token, deleted).Some? ==>
      var moved := Beside(j, token, deleted).value;
      && Child(RemoveKey(j, deleted), moved).Some?
      && RemoveKey(WithChild(j, token, child), deleted) == WithChild(RemoveKey(j, deleted), moved, child)
  {
    if Beside(j, token, deleted).Some? {
      BesideHolds(j, token, deleted);
    }
    match j
    case Obj(fields) =>
      if deleted == token {
        assert fields[token := child] - {deleted} == fields - {deleted};
      } else {
        assert fields[token := child] - {deleted} == (fields - {deleted})[token := child];
      }
    case Arr(items) => BesideItems(items, token, deleted, child);
    case _ =>
  }

  lemma BesideItems(items: seq<Json>, token: string, deleted: string, child: Json)
    requires Child(Arr(items), token).Some?
    ensures var j, i := Arr(items), PointerIndex(token).value;
            RemoveKey(Arr(items[i := child]), deleted) ==
            if Beside(j, token, deleted).None? then RemoveKey(j, deleted)
            else if i < |RemoveKey(j, deleted).items| && Beside(j, token, deleted) == Some(token) then
              Arr(RemoveKey(j, deleted).items[i := child])
            else Arr(RemoveKey(j, deleted).items[i - 1 := child])
  {
    var i, k := PointerIndex(token).value, ParseUsize(deleted);
    if k.Some? && k.value < |items| {
      hide PointerIndex, ParseUsize, Decimal;
      RemoveAround(items, k.value, i, child);
    }
  }

  lemma RemoveAround(items: seq<Json>, k: nat, i: nat, child: Json)
    requires k < |items| && i < |items|
    ensures var x := items[i := child];
            var a, b := items[..k] + items[k + 1..], x[..k] + x[k + 1..];
            b == if k == i then a else if k < i then a[i - 1 := child] else a[i := child]
  {
  }

  lemma WithSame(j: Json, a: string, b: string, x: Json, y: Json)
    requires SameChild(j, a, b)
    ensures Child(WithChild(j, a, x), b) == Some(x)
    ensures WithChild(WithChild(j, a, x), b, y) == WithChild(j, a, y)
    ensures Child(j, a) == Child(j, b) && WithChild(j, a, y) == WithChild(j, b, y)
  {
  }

  lemma WithOther(j: Json, a: string, b: string, x: Json, y: Json)
    requires Child(j, a).Some? && !SameChild(j, a, b)
    ensures Child(WithChild(j, a, x), b) == Child(j, b)
    ensures Child(j, b).Some? ==>
      && Child(WithChild(j, b, y), a) == Child(j, a)
      && WithChild(WithChild(j, a, x), b, y) == WithChild(WithChild(j, b, y), a, x)
  {
    if j.Obj? && Child(j, b).Some? {
      assert j.fields[a := x][b := y] == j.fields[b := y][a := x];
    }
  }

  /** Deleting moves a value, or takes it away, together with the marker it may have been overwritten by. */
  lemma {:induction false} DeleteMovesSet(j: Json, path: Path, d: Path)
    requires d != [] && Get(j, path).Some?
    ensures Moved(j, path, d).None? ==> Delete(SetAt(j, path, REDACTED), d) == Delete(j, d)
    ensures Moved(j, path, d).Some? ==>
      var p := Moved(j, path, d).value;
      Get(Delete(j, d), p).Some? && Delete(SetAt(j, path, REDACTED), d) == SetAt(Delete(j, d), p, REDACTED)
    decreases path
  {
    if path == [] {
      RemoveFromMarker(d);
    } else if |d| == 1 {
      DeleteEntryMovesSet(j, path, d);
    } else {
      var child := Child(j, path[0]).value;
      var changed := SetAt(child, path[1..], REDACTED);
      var after := SetAt(j, path, REDACTED);
      assert after == WithChild(j, path[0], changed);
      DeleteStep(j, d);
      DeleteStep(after, d);
      if SameChild(j, path[0], d[0]) {
        DeleteMovesSet(child, path[1..], d[1..]);
        MovedInside(j, path, d, changed);
      } else {
        MovedElsewhere(j, path, d, changed);
      }
    }
  }

  lemma {:induction false} RemoveFromMarker(d: Path)
    requires d != []
    ensures Delete(REDACTED, d) == REDACTED
  {
    if |d| > 1 {
      DeleteStep(REDACTED, d);
    }
  }

  lemma DeleteEntryMovesSet(j: Json, path: Path, d: Path)
    requires |d| == 1 && path != [] && Get(j, path).Some?
    ensures Moved(j, path, d).None? ==> Delete(SetAt(j, path, REDACTED), d) == Delete(j, d)
    ensures Moved(j, path, d).Some? ==>
      var p := Moved(j, path, d).value;
      Get(Delete(j, d), p).Some? && Delete(SetAt(j, path, REDACTED), d) == SetAt(Delete(j, d), p, REDACTED)
  {
    var child := Child(j, path[0]).value;
    var changed := SetAt(child, path[1..], REDACTED);
    assert forall x :: Delete(x, d) == RemoveKey(x, d[0]);
    hide RemoveKey, Beside, WithChild, Child;
    BesideSet(j, path[0], d[0], changed);
    if Beside(j, path[0], d[0]).Some? {
      var token := Beside(j, path[0], d[0]).value;
      BesideHolds(j, path[0], d[0]);
      ConsGet(RemoveKey(j, d[0]), token, path[1..]);
    }
  }

  /** The deletion is inside the child that holds the value. */
  lemma MovedInside(j: Json, path: Path, d: Path, changed: Json)
    requires |d| > 1 && path != [] && Get(j, path).Some? && SameChild(j, path[0], d[0])
    requires changed == SetAt(Child(j, path[0]).value, path[1..], REDACTED)
    requires var child, moved := Child(j, path[0]).value, Moved(Child(j, path[0]).value, path[1..], d[1..]);
             && (moved.None? ==> Delete(changed, d[1..]) == Delete(child, d[1..]))
             && (moved.Some? ==>
                   && Get(Delete(child, d[1..]), moved.value).Some?
                   && Delete(changed, d[1..]) == SetAt(Delete(child, d[1..]), moved.value, REDACTED))
    ensures var before, after := Delete(j, d), Delete(WithChild(j, path[0], changed), d);
            && (Moved(j, path, d).None? ==> after == before)
            && (Moved(j, path, d).Some? ==>
                  Get(before, Moved(j, path, d).value).Some? && after == SetAt(before, Moved(j, path, d).value, REDACTED))
  {
    var token, child := path[0], Child(j, path[0]).value;
    var moved := Moved(child, path[1..], d[1..]);
    DeleteStep(j, d);
    DeleteStep(WithChild(j, token, changed), d);
    WithSame(j, token, d[0], changed, Delete(changed, d[1..]));
    WithSame(j, token, d[0], changed, Delete(child, d[1..]));
    SameChildSelf(j, token);
    WithSame(j, token, token, Delete(child, d[1..]), changed);
    hide WithChild, Child, SameChild, Delete;
    if moved.Some? {
      var before := Delete(j, d);
      ConsGet(before, token, moved.value);
      WithSame(j, token, token, Delete(child, d[1..]), Delete(changed, d[1..]));
    }
  }

  lemma SameChildSelf(j: Json, token: string)
    requires Child(j, token).Some?
    ensures SameChild(j, token, token)
  {
  }

  /** The deletion is in another child, or finds nothing. */
  lemma MovedElsewhere(j: Json, path: Path, d: Path, changed: Json)
    requires |d| > 1 && path != [] && Get(j, path).Some? && !SameChild(j, path[0], d[0])
    requires changed == SetAt(Child(j, path[0]).value, path[1..], REDACTED)
    ensures var before, after := Delete(j, d), Delete(WithChild(j, path[0], changed), d);
            Get(before, path).Some? && after == SetAt(before, path, REDACTED)
  {
    var token, other := path[0], d[0];
    DeleteStep(j, d);
    DeleteStep(WithChild(j, token, changed), d);
    assert path == [token] + path[1..];
    if Child(j, other).Some? {
      var deleted := Delete(Child(j, other).value, d[1..]);
      WithOther(j, token, other, changed, deleted);
      ConsGet(Delete(j, d), token, path[1..]);
    } else {
      WithOther(j, token, other, changed, changed);
      ConsGet(j, token, path[1..]);
    }
    hide WithChild, Child, SameChild, Delete;
  }

  /** A value that is left is the marker afterwards only if it was the marker before. */
  lemma {:induction false} DeleteKeepsUnmarked(j: Json, path: Path, d: Path)
    requires d != [] && Get(j, path).Some? && Moved(j, path, d).Some?
    requires Get(j, path) != Some(REDACTED)
    ensures var after := Get(Delete(j, d), Moved(j, path, d).value); after.Some? && after != Some(REDACTED)
    decreases path
  {
    DeleteMovesSet(j, path, d);
    if path == [] {
      DeleteMakesNoMarker(j, d);
    } else if |d| == 1 {
      var token := Beside(j, path[0], d[0]).value;
      BesideHolds(j, path[0], d[0]);
      assert Delete(j, d) == RemoveKey(j, d[0]);
      ConsGet(RemoveKey(j, d[0]), token, path[1..]);
    } else if SameChild(j, path[0], d[0]) {
      var child := Child(j, path[0]).value;
      DeleteKeepsUnmarked(child, path[1..], d[1..]);
      DeleteStep(j, d);
      WithSame(j, path[0], d[0], Delete(child, d[1..]), child);
      SameChildSelf(j, path[0]);
      WithSame(j, path[0], path[0], Delete(child, d[1..]), child);
      ConsGet(Delete(j, d), path[0], Moved(child, path[1..], d[1..]).value);
    } else {
      DeleteStep(j, d);
      if Child(j, d[0]).Some? {
        WithOther(j, path[0], d[0], Child(j, path[0]).value, Delete(Child(j, d[0]).value, d[1..]));
      }
      GetStep(Delete(j, d), path);
      GetStep(j, path);
    }
    hide Delete, Beside, SameChild, Child, WithChild;
  }

  lemma DeleteMakesNoMarker(j: Json, d: Path)
    requires d != [] && j != REDACTED
    ensures Delete(j, d) != REDACTED
  {
    if |d| > 1 {
      DeleteStep(j, d);
    }
  }

  /** Overwriting a value elsewhere does not change where this one moves. */
  lemma {:induction false} SetKeepsMove(j: Json, target: Path, path: Path, d: Path)
    requires d != [] && !Inert(Get(SetAt(j, target, REDACTED), path))
    ensures Get(j, path).Some?
    ensures Moved(SetAt(j, target, REDACTED), path, d) == Moved(j, path, d)
    decreases path
  {
    if target != [] && path != [] && Child(j, target[0]).Some? {
      var changed := SetAt(Child(j, target[0]).value, target[1..], REDACTED);
      SameSelection(j, target[0], changed, path[0], d[0]);
      if SameChild(j, target[0], path[0]) {
        WithSame(j, target[0], path[0], changed, changed);
        if |d| > 1 {
          SetKeepsMove(Child(j, path[0]).value, target[1..], path[1..], d[1..]);
        } else {
          SetKeepsMove(Child(j, path[0]).value, target[1..], path[1..], d);
        }
      } else {
        WithOther(j, target[0], path[0], changed, changed);
      }
    }
  }

  /** Changing a child changes neither what tokens select nor what stands beside it. */
  lemma SameSelection(j: Json, token: string, child: Json, a: string, b: string)
    requires Child(j, token).Some?
    ensures var after := WithChild(j, token, child);
            && (Child(after, a).Some? <==> Child(j, a).Some?)
            && (SameChild(after, a, b) <==> SameChild(j, a, b))
            && (Child(j, a).Some? ==> Beside(after, a, b) == Beside(j, a, b))
  {
  }

  /** A value above another one that is left is left too, above it. */
  lemma {:induction false} MovesWithParent(j: Json, a: Path, path: Path, d: Path)
    requires d != [] && a <= path && Get(j, path).Some? && Moved(j, path, d).Some?
    ensures Get(j, a).Some?
    ensures Moved(j, a, d).Some? && Moved(j, a, d).value <= Moved(j, path, d).value
    decreases path
  {
    hide Beside, SameChild, Child;
    if a != [] {
      assert a[0] == path[0] && a[1..] <= path[1..];
      GetAbove(Child(j, path[0]).value, a[1..], path[1..]);
      if |d| > 1 && SameChild(j, path[0], d[0]) {
        MovesWithParent(Child(j, path[0]).value, a[1..], path[1..], d[1..]);
      }
    }
  }

  lemma {:induction false} GetAbove(j: Json, a: Path, path: Path)
    requires a <= path && Get(j, path).Some?
    ensures Get(j, a).Some?
  {
    if a != [] {
      assert a[1..] <= path[1..];
      GetAbove(Child(j, path[0]).value, a[1..], path[1..]);
    }
  }

  // ---------- Lists of pointers ----------

  /** Where a value stands after removing one pointer; the root and malformed pointers remove nothing. */
  function StepMoved(j: Json, path: Path, pointer: string): Option<Path>
    requires Get(j, path).Some?
  {
    if pointer == "" || !WellFormed(pointer) then Some(path) else Moved(j, path, Deleted(pointer))
  }

  lemma StepSet(j: Json, path: Path, pointer: string)
    requires Get(j, path).Some?
    ensures var moved, after := StepMoved(j, path, pointer), RemovePointer(j, pointer);
            && (moved.None? ==> RemovePointer(SetAt(j, path, REDACTED), pointer) == after)
            && (moved.Some? ==>
                  && Get(after, moved.value).Some?
                  && RemovePointer(SetAt(j, path, REDACTED), pointer) == SetAt(after, moved.value, REDACTED))
  {
    RemoveIsDelete(j, pointer);
    RemoveIsDelete(SetAt(j, path, REDACTED), pointer);
    if pointer != "" && WellFormed(pointer) {
      DeleteMovesSet(j, path, Deleted(pointer));
    }
    hide RemovePointer, Deleted, WellFormed, Moved;
  }

  /** Where the value at `path` stands after removing all pointers, one after the other, if it is left. */
  function Track(j: Json, path: Path, removed: seq<string>): (r: Option<Path>)
    requires Get(j, path).Some?
    ensures r.Some? ==> Get(RemoveAll(j, removed), r.value).Some?
  {
    if removed == [] then Some(path)
    else
      var front, last := removed[..|removed| - 1], removed[|removed| - 1];
      match Track(j, path, front)
      case None => None
      case Some(p) =>
        StepSet(RemoveAll(j, front), p, last);
        StepMoved(RemoveAll(j, front), p, last)
  }

  /** The marker goes where the value would have gone. */
  lemma {:induction false} TrackSet(j: Json, path: Path, removed: seq<string>)
    requires Get(j, path).Some?
    ensures RemoveAll(SetAt(j, path, REDACTED), removed) ==
            match Track(j, path, removed)
            case None => RemoveAll(j, removed)
            case Some(p) => SetAt(RemoveAll(j, removed), p, REDACTED)
  {
    if removed != [] {
      var front, last := removed[..|removed| - 1], removed[|removed| - 1];
      TrackSet(j, path, front);
      if Track(j, path, front).Some? {
        StepSet(RemoveAll(j, front), Track(j, path, front).value, last);
      }
      hide StepMoved, RemovePointer, SetAt;
    }
  }

  lemma {:induction false} TrackKeepsUnmarked(j: Json, path: Path, removed: seq<string>)
    requires !Inert(Get(j, path)) && Track(j, path, removed).Some?
    ensures !Inert(Get(RemoveAll(j, removed), Track(j, path, removed).value))
  {
    if removed != [] {
      var front, last := removed[..|removed| - 1], removed[|removed| - 1];
      TrackKeepsUnmarked(j, path, front);
      var before, p := RemoveAll(j, front), Track(j, path, front).value;
      RemoveIsDelete(before, last);
      if last != "" && WellFormed(last) {
        DeleteKeepsUnmarked(before, p, Deleted(last));
      }
      hide RemovePointer, Moved, Deleted, WellFormed, Get;
    }
  }

  /** Overwriting a value elsewhere does not change where this one ends up. */
  lemma {:induction false} SetKeepsTrack(j: Json, target: Path, path: Path, removed: seq<string>)
    requires Get(j, target).Some? && !Inert(Get(SetAt(j, target, REDACTED), path))
    ensures Get(j, path).Some?
    ensures Track(SetAt(j, target, REDACTED), path, removed) == Track(j, path, removed)
  {
    SetKeepsMove(j, target, path, [""]);
    if removed != [] {
      var front, last := removed[..|removed| - 1], removed[|removed| - 1];
      var changed := SetAt(j, target, REDACTED);
      SetKeepsTrack(j, target, path, front);
      TrackSet(j, target, front);
      if Track(j, path, front).Some? {
        var p := Track(j, path, front).value;
        TrackKeepsUnmarked(changed, path, front);
        SameStep(RemoveAll(j, front), RemoveAll(changed, front), Track(j, target, front), p, last);
      }
      hide SetAt, Get, RemoveAll, StepMoved;
    }
  }

  lemma SameStep(before: Json, changed: Json, target: Option<Path>, path: Path, pointer: string)
    requires Get(before, path).Some? && !Inert(Get(changed, path))
    requires target.None? ==> changed == before
    requires target.Some? ==> changed == SetAt(before, target.value, REDACTED)
    ensures StepMoved(changed, path, pointer) == StepMoved(before, path, pointer)
  {
    if target.Some? && pointer != "" && WellFormed(pointer) {
      SetKeepsMove(before, target.value, path, Deleted(pointer));
    }
  }

  lemma {:induction false} TrackWithParent(j: Json, a: Path, path: Path, removed: seq<string>)
    requires a <= path && Get(j, path).Some? && Track(j, path, removed).Some?
    ensures Get(j, a).Some?
    ensures Track(j, a, removed).Some? && Track(j, a, removed).value <= Track(j, path, removed).value
  {
    GetAbove(j, a, path);
    if removed != [] {
      var front, last := removed[..|removed| - 1], removed[|removed| - 1];
      TrackWithParent(j, a, path, front);
      var before, b, p := RemoveAll(j, front), Track(j, a, front).value, Track(j, path, front).value;
      if last != "" && WellFormed(last) {
        MovesWithParent(before, b, p, Deleted(last));
      }
      hide RemoveAll, Moved, Deleted, WellFormed, Get;
    }
  }

  // ---------- When a removal hides a redaction ----------

  /** A value that survived the redactions is tracked as in the document as it was. */
  lemma {:induction false} RedactionsKeepTrack(j: Json, redacted: seq<string>, path: Path, removed: seq<string>)
    requires !Inert(Get(RedactAll(j, redacted), path))
    ensures !Inert(Get(j, path))
    ensures Track(RedactAll(j, redacted), path, removed) == Track(j, path, removed)
  {
    if redacted != [] {
      var front, last := redacted[..|redacted| - 1], redacted[|redacted| - 1];
      var before := RedactAll(j, front);
      RedactIsSet(before, last);
      if WellFormed(last) && Get(before, Target(last)).Some? {
        if Inert(Get(before, path)) {
          SetMakesInert(before, Target(last), path);
        }
        SetKeepsTrack(before, Target(last), path, removed);
      } else if WellFormed(last) {
        SetInert(before, Target(last));
      }
      hide RedactPointer, WellFormed, Target, Get, SetAt, Track;
      RedactionsKeepTrack(j, front, path, removed);
    }
  }

  /** One more redaction, seen through the removal: nothing, or one more marker. */
  lemma OneMoreRedaction(j: Json, front: seq<string>, last: string, removed: seq<string>)
    ensures var before, after := RedactAll(j, front), RedactAll(j, front + [last]);
            || RemoveAll(after, removed) == RemoveAll(before, removed)
            || (WellFormed(last)
                && Get(before, Target(last)).Some?
                && Track(before, Target(last), removed).Some?
                && RemoveAll(after, removed)
                   == SetAt(RemoveAll(before, removed), Track(before, Target(last), removed).value, REDACTED))
    ensures RedactAll(j, front + [last]) ==
            if WellFormed(last) then SetAt(RedactAll(j, front), Target(last), REDACTED) else RedactAll(j, front)
  {
    var before, all := RedactAll(j, front), front + [last];
    assert all[..|all| - 1] == front;
    RedactIsSet(before, last);
    if WellFormed(last) {
      if Get(before, Target(last)).Some? {
        TrackSet(before, Target(last), removed);
      } else {
        SetInert(before, Target(last));
      }
    }
  }

  /** What overwriting takes away or marks lies at or below the target. */
  lemma {:induction false} OnlyBelowTarget(j: Json, target: Path, path: Path)
    requires Get(j, target).Some? && !Inert(Get(j, path)) && Inert(Get(SetAt(j, target, REDACTED), path))
    ensures target <= path
  {
    if target != [] {
      var child := Child(j, target[0]).value;
      var changed := SetAt(child, target[1..], REDACTED);
      if path == [] {
      } else if SameChild(j, target[0], path[0]) {
        WithSame(j, target[0], path[0], changed, changed);
        OnlyBelowTarget(child, target[1..], path[1..]);
        SameToken(j, target[0], path[0]);
        assert target == [target[0]] + target[1..] && path == [path[0]] + path[1..];
      } else {
        WithOther(j, target[0], path[0], changed, changed);
      }
    }
  }

  lemma SameToken(j: Json, a: string, b: string)
    requires SameChild(j, a, b)
    ensures a == b
  {
    if j.Arr? {
      CanonicalInjective(a, b);
    }
  }

  lemma {:induction false} NothingBelowMarker(j: Json, target: Path, path: Path)
    requires Get(j, target).Some? && target <= path
    ensures Inert(Get(SetAt(j, target, REDACTED), path))
  {
    if target != [] {
      var child := Child(j, target[0]).value;
      SameChildSelf(j, target[0]);
      WithSame(j, target[0], target[0], SetAt(child, target[1..], REDACTED), REDACTED);
      assert target[1..] <= path[1..];
      NothingBelowMarker(child, target[1..], path[1..]);
    }
  }

  /** A redacted value that is not removed shows: in its place there is the marker, or nothing. */
  lemma {:induction false} RedactionShows(j: Json, redacted: seq<string>, path: Path, removed: seq<string>)
    requires !Inert(Get(j, path)) && Track(j, path, removed).Some?
    requires Inert(Get(RedactAll(j, redacted), path))
    ensures Inert(Get(RemoveAll(RedactAll(j, redacted), removed), Track(j, path, removed).value))
  {
    var place := Track(j, path, removed).value;
    var front, last := redacted[..|redacted| - 1], redacted[|redacted| - 1];
    assert redacted == front + [last];
    var before := RedactAll(j, front);
    OneMoreRedaction(j, front, last, removed);
    if Inert(Get(before, path)) {
      RedactionShows(j, front, path, removed);
      ShowsStill(j, front, last, removed, place);
    } else {
      RedactionsKeepTrack(j, front, path, removed);
      ShowsNow(j, front, last, path, removed);
    }
  }

  lemma ShowsStill(j: Json, front: seq<string>, last: string, removed: seq<string>, place: Path)
    requires Inert(Get(RemoveAll(RedactAll(j, front), removed), place))
    ensures Inert(Get(RemoveAll(RedactAll(j, front + [last]), removed), place))
  {
    var before := RedactAll(j, front);
    OneMoreRedaction(j, front, last, removed);
    if RemoveAll(RedactAll(j, front + [last]), removed) != RemoveAll(before, removed) {
      SetMakesInert(RemoveAll(before, removed), Track(before, Target(last), removed).value, place);
    }
  }

  lemma ShowsNow(j: Json, front: seq<string>, last: string, path: Path, removed: seq<string>)
    requires var before, after := RedactAll(j, front), RedactAll(j, front + [last]);
             && !Inert(Get(before, path)) && Inert(Get(after, path))
             && Track(before, path, removed).Some?
    ensures Inert(Get(RemoveAll(RedactAll(j, front + [last]), removed), Track(RedactAll(j, front), path, removed).value))
  {
    var before := RedactAll(j, front);
    OneMoreRedaction(j, front, last, removed);
    var target := Target(last);
    if Get(before, target).None? {
      SetInert(before, target);
    }
    OnlyBelowTarget(before, target, path);
    TrackWithParent(before, target, path, removed);
    TrackSet(before, target, removed);
    NothingBelowMarker(RemoveAll(before, removed), Track(before, target, removed).value,
                       Track(before, path, removed).value);
  }

  /** Every redacted target is absent, holds the marker already, or is removed in the end, wherever it has moved to. */
  ghost predicate Hidden(j: Json, redacted: seq<string>, removed: seq<string>)
  {
    forall p :: p in redacted && WellFormed(p) ==>
      Inert(Get(j, Target(p))) || Track(j, Target(p), removed).None?
  }

  lemma {:induction false} HiddenAbsorbed(j: Json, redacted: seq<string>, removed: seq<string>)
    requires Hidden(j, redacted, removed)
    ensures RemoveAll(RedactAll(j, redacted), removed) == RemoveAll(j, removed)
  {
    if redacted != [] {
      var front, last := redacted[..|redacted| - 1], redacted[|redacted| - 1];
      assert redacted == front + [last];
      HiddenAbsorbed(j, front, removed);
      var before := RedactAll(j, front);
      RedactIsSet(before, last);
      if WellFormed(last) {
        if Inert(Get(before, Target(last))) {
          SetInert(before, Target(last));
        } else {
          RedactionsKeepTrack(j, front, Target(last), removed);
          TrackSet(before, Target(last), removed);
        }
      }
    }
  }

  /**
   * For every document, and any lists of pointers to redact and to remove: the removal hides the redaction if and only
   * if each redacted target is absent, holds the marker already, or is removed in the end, followed through the shifts
   * that removing array elements causes.
   */
  lemma RemovalHidesRedactionIff(j: Json, redacted: seq<string>, removed: seq<string>)
    ensures RemoveAll(RedactAll(j, redacted), removed) == RemoveAll(j, removed) <==> Hidden(j, redacted, removed)
  {
    if Hidden(j, redacted, removed) {
      HiddenAbsorbed(j, redacted, removed);
    } else {
      var p :| p in redacted && WellFormed(p) && !Inert(Get(j, Target(p))) && Track(j, Target(p), removed).Some?;
      RedactAllInert(j, redacted, Target(p));
      TrackKeepsUnmarked(j, Target(p), removed);
      RedactionShows(j, redacted, Target(p), removed);
    }
  }
}
