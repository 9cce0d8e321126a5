/** Byte-wise string order, and the ascending listing that a `BTreeSet` iterates and a sort produces. */
module Ordering {

  predicate Less(a: string, b: string)
  {
    if b == "" then false
    else if a == "" then true
    else a[0] < b[0] || (a[0] == b[0] && Less(a[1..], b[1..]))
  }

  lemma {:induction false} LessTransitive(a: string, b: string, c: string)
    requires Less(a, b) && Less(b, c)
    ensures Less(a, c)
  {
    if a != "" && a[0] == b[0] == c[0] {
      LessTransitive(a[1..], b[1..], c[1..]);
    }
  }

  lemma {:induction false} LessTotal(a: string, b: string)
    ensures Less(a, b) || Less(b, a) || a == b
    ensures !(Less(a, b) && Less(b, a)) && !Less(a, a)
  {
    if a != "" && b != "" {
      LessTotal(a[1..], b[1..]);
      if a[1..] == b[1..] && a[0] == b[0] {
        assert a == [a[0]] + a[1..] && b == [b[0]] + b[1..];
      }
    }
    if a != "" {
      LessTotal(a[1..], a[1..]);
    }
  }

  predicate IsLeast(m: string, s: set<string>)
  {
    m in s && forall x :: x in s ==> x == m || Less(m, x)
  }

  lemma {:induction false} LeastExists(s: set<string>)
    requires s != {}
    ensures exists m :: IsLeast(m, s)
  {
    var x :| x in s;
    var rest := s - {x};
    if rest == {} {
      assert s == {x};
      assert IsLeast(x, s);
    } else {
      LeastExists(rest);
      var m :| IsLeast(m, rest);
      LessTotal(x, m);
      if Less(x, m) {
        forall y | y in s
          ensures y == x || Less(x, y)
        {
          if y in rest && y != m {
            LessTransitive(x, m, y);
          }
        }
        assert IsLeast(x, s);
      } else {
        assert IsLeast(m, s);
      }
    }
  }

  lemma LeastUnique(s: set<string>, m: string, n: string)
    requires IsLeast(m, s) && IsLeast(n, s)
    ensures m == n
  {
    LessTotal(m, n);
  }

  function Least(s: set<string>): (m: string)
    requires s != {}
    ensures IsLeast(m, s)
  {
    LeastExists(s);
    assert forall m, n :: IsLeast(m, s) && IsLeast(n, s) ==> m == n by {
      forall m, n | IsLeast(m, s) && IsLeast(n, s)
        ensures m == n
      {
        LeastUnique(s, m, n);
      }
    }
    var m :| IsLeast(m, s);
    m
  }

  predicate Ascends(r: seq<string>)
  {
    forall i, j :: 0 <= i < j < |r| ==> Less(r[i], r[j])
  }

  /** The elements of a set in ascending order. */
  function Ascending(s: set<string>): (r: seq<string>)
    ensures forall x :: x in r <==> x in s
    ensures Ascends(r)
  {
    if s == {} then []
    else
      var m := Least(s);
      var rest := Ascending(s - {m});
      assert forall j :: 0 <= j < |rest| ==> rest[j] in rest;
      [m] + rest
  }

  /** The ascending listing is the only one. */
  lemma {:induction false} AscendingUnique(r: seq<string>, s: set<string>)
    requires Ascends(r) && forall x :: x in r <==> x in s
    ensures r == Ascending(s)
  {
    if r == [] {
      assert forall x :: x in s ==> x in r;
      assert s == {};
    } else {
      assert r[0] in s;
      forall x | x in s
        ensures x == r[0] || Less(r[0], x)
      {
        var i :| 0 <= i < |r| && r[i] == x;
      }
      LeastUnique(s, r[0], Least(s));
      var rest := r[1..];
      forall x
        ensures x in rest <==> x in s - {r[0]}
      {
        if x in rest {
          var i :| 0 <= i < |rest| && rest[i] == x;
          assert r[i + 1] == x && x in r;
          LessTotal(r[0], x);
        }
        if x in s - {r[0]} {
          var i :| 0 <= i < |r| && r[i] == x;
          assert rest[i - 1] == x;
        }
      }
      AscendingUnique(rest, s - {r[0]});
    }
  }
}
