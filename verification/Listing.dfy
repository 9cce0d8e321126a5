/** The places of a list that a filter keeps, in order. */
module Listing {

  /** `at` holds the members of `places` in ascending order: which of them there are, and how they stand. */
  ghost predicate Lists(at: seq<nat>, places: set<nat>)
  {
    (forall i :: i in at <==> i in places) && forall k, l :: 0 <= k < l < |at| ==> at[k] < at[l]
  }

  /** One more place, after all the others. */
  lemma ListsMore(at: seq<nat>, places: set<nat>, n: nat, more: set<nat>)
    requires Lists(at, places) && forall i :: i in places ==> i < n
    requires forall i :: i in more <==> i in places || i == n
    ensures Lists(at + [n], more)
  {
    forall k | 0 <= k < |at|
      ensures at[k] < n
    {
      assert at[k] in at;
    }
  }

  lemma LastIsGreatest(at: seq<nat>, places: set<nat>)
    requires Lists(at, places) && at != []
    ensures at[|at| - 1] in places && forall i :: i in places ==> i <= at[|at| - 1]
    ensures Lists(at[..|at| - 1], places - {at[|at| - 1]})
  {
    var n := |at| - 1;
    assert at[n] in at;
    forall i | i in places
      ensures i <= at[n] && (i == at[n] || i in at[..n])
    {
      var k :| 0 <= k < |at| && at[k] == i;
      assert k < n ==> at[..n][k] == i;
    }
  }

  /** There is one listing. */
  lemma {:induction false} ListingUnique(a: seq<nat>, b: seq<nat>, places: set<nat>)
    requires Lists(a, places) && Lists(b, places)
    ensures a == b
  {
    if b != [] {
      LastIsGreatest(b, places);
    }
    if a != [] {
      LastIsGreatest(a, places);
      assert a[|a| - 1] in b;
      hide Lists;
      var last := a[|a| - 1];
      ListingUnique(a[..|a| - 1], b[..|b| - 1], places - {last});
      assert a == a[..|a| - 1] + [last] && b == b[..|b| - 1] + [last];
    }
  }
}
