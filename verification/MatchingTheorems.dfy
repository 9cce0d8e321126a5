/** Whole-run guarantees of consumption, and lazy matching as a refinement of eager matching. */
module MatchingTheorems {
  import opened Prelude
  import opened Redaction
  import opened Matching

  // ---------- Runs of selections ----------

  /** The mismatches of each request of a run against the same `n` candidates. */
  type Traffic = seq<seq<seq<Dimension>>>

  /** Selection `i` of a run is the one the matcher makes in session state `ss[i]`, and leaves state `ss[i + 1]`. */
  ghost predicate RunStep(mode: Consumption, max: nat, traffic: Traffic, rs: seq<MatchResult>, ss: seq<SessionState>, i: nat)
    requires i < |traffic| == |rs| && |ss| == |rs| + 1
  {
    IsResult(rs[i], traffic[i], ss[i], mode, max) && ss[i + 1] == AfterResult(rs[i], ss[i], mode)
  }

  ghost predicate SelectionRun(mode: Consumption, max: nat, traffic: Traffic, rs: seq<MatchResult>, ss: seq<SessionState>)
  {
    && |traffic| == |rs|
    && |ss| == |rs| + 1
    && ss[0] == SessionState({}, None)
    && forall i :: 0 <= i < |rs| ==> RunStep(mode, max, traffic, rs, ss, i)
  }

  predicate MatchedBefore(rs: seq<MatchResult>, i: nat, k: nat)
    requires i <= |rs|
  {
    exists j :: 0 <= j < i && rs[j] == Matched(k)
  }

  /** The consumed set is the set of past matches. */
  lemma {:induction false} ConsumedIsPastMatches(mode: Consumption, max: nat, traffic: Traffic, rs: seq<MatchResult>,
                                                 ss: seq<SessionState>, i: nat, k: nat)
    requires SelectionRun(mode, max, traffic, rs, ss) && i <= |rs| && !mode.Unlimited?
    ensures k in ss[i].consumed <==> MatchedBefore(rs, i, k)
  {
    if i > 0 {
      ConsumedIsPastMatches(mode, max, traffic, rs, ss, i - 1, k);
      assert RunStep(mode, max, traffic, rs, ss, i - 1);
      hide IsResult;
      assert MatchedBefore(rs, i, k) <==> MatchedBefore(rs, i - 1, k) || rs[i - 1] == Matched(k);
    }
  }

  /** In `Once` mode no candidate is matched twice. */
  lemma OnceNeverRepeats(max: nat, traffic: Traffic, rs: seq<MatchResult>, ss: seq<SessionState>, j: nat, i: nat, k: nat)
    requires SelectionRun(Once, max, traffic, rs, ss) && j < i < |rs| && rs[j] == Matched(k)
    ensures rs[i] != Matched(k)
  {
    ConsumedIsPastMatches(Once, max, traffic, rs, ss, i, k);
    assert RunStep(Once, max, traffic, rs, ss, i);
    assert MatchedBefore(rs, i, k);
  }

  /** In `Once` mode `Exhausted` means exactly that some candidate matches and all that do were matched before. */
  lemma ExhaustedIffAllMatchedBefore(max: nat, traffic: Traffic, rs: seq<MatchResult>, ss: seq<SessionState>, i: nat)
    requires SelectionRun(Once, max, traffic, rs, ss) && i < |rs|
    ensures rs[i].Exhausted? <==>
      && (exists k :: 0 <= k < |traffic[i]| && Matches(traffic[i], k))
      && (forall k :: 0 <= k < |traffic[i]| && Matches(traffic[i], k) ==> MatchedBefore(rs, i, k))
  {
    assert RunStep(Once, max, traffic, rs, ss, i);
    forall k: nat | k < |traffic[i]|
      ensures Selectable(traffic[i], ss[i], Once, k) <==> Matches(traffic[i], k) && !MatchedBefore(rs, i, k)
    {
      ConsumedIsPastMatches(Once, max, traffic, rs, ss, i, k);
    }
    hide MatchedBefore, Matches;
  }

  /** In `RepeatLast` mode the last match is the state, and once set it never changes. */
  lemma {:induction false} LastIsStable(max: nat, traffic: Traffic, rs: seq<MatchResult>, ss: seq<SessionState>, j: nat, i: nat)
    requires SelectionRun(RepeatLast, max, traffic, rs, ss) && j <= i <= |rs| && ss[j].last.Some?
    ensures ss[i].last == ss[j].last
  {
    if j < i {
      LastIsStable(max, traffic, rs, ss, j, i - 1);
      assert RunStep(RepeatLast, max, traffic, rs, ss, i - 1);
    }
  }

  /** In `RepeatLast` mode all matches of a run are the same candidate. */
  lemma RepeatLastIsOneCandidate(max: nat, traffic: Traffic, rs: seq<MatchResult>, ss: seq<SessionState>, j: nat, i: nat)
    requires SelectionRun(RepeatLast, max, traffic, rs, ss) && j < i < |rs| && rs[j].Matched? && rs[i].Matched?
    ensures rs[i] == rs[j]
  {
    assert RunStep(RepeatLast, max, traffic, rs, ss, j);
    assert RunStep(RepeatLast, max, traffic, rs, ss, i);
    LastIsStable(max, traffic, rs, ss, j + 1, i);
  }

  /** In `Unlimited` mode the session never changes, and each match is the first matching candidate of all. */
  lemma {:induction false} UnlimitedIsStateless(max: nat, traffic: Traffic, rs: seq<MatchResult>, ss: seq<SessionState>, i: nat)
    requires SelectionRun(Unlimited, max, traffic, rs, ss) && i <= |rs|
    ensures ss[i] == ss[0]
    ensures i < |rs| ==> !rs[i].Exhausted?
    ensures i < |rs| && rs[i].Matched? ==>
      forall k :: 0 <= k < rs[i].index && k < |traffic[i]| ==> !Matches(traffic[i], k)
  {
    if i > 0 {
      UnlimitedIsStateless(max, traffic, rs, ss, i - 1);
      assert RunStep(Unlimited, max, traffic, rs, ss, i - 1);
    }
    if i < |rs| {
      assert RunStep(Unlimited, max, traffic, rs, ss, i);
      forall k: nat | k < |traffic[i]|
        ensures Selectable(traffic[i], ss[i], Unlimited, k) <==> Matches(traffic[i], k)
      {
      }
      hide Selectable;
    }
  }

  /** The mismatches of these requests against the candidates. */
  function TrafficOf(env: Env, m: Matcher, requests: seq<(Request, Bytes)>, cs: seq<Candidate>,
                     loader: nat -> Option<Bytes>): Traffic
  {
    seq(|requests|, i requires 0 <= i < |requests| =>
      Mismatches(env, m, requests[i].0, requests[i].1, cs, loader))
  }

  /** A run the matcher really makes: one session, one request after the other. */
  method SelectAll(env: Env, m: Matcher, requests: seq<(Request, Bytes)>, cs: seq<Candidate>, mode: Consumption,
                   loader: nat -> Option<Bytes>)
    returns (rs: seq<MatchResult>)
    ensures exists ss :: SelectionRun(mode, m.maxNearMisses, TrafficOf(env, m, requests, cs, loader), rs, ss)
  {
    var session := new MatcherSession();
    rs := [];
    ghost var traffic, ss := TrafficOf(env, m, requests[..0], cs, loader), [session.State()];
    assert traffic == [];
    hide IsResult, Mismatches, AfterResult, SelectionRun, TrafficOf;
    assert SelectionRun(mode, m.maxNearMisses, traffic, rs, ss) by {
      RunStarts(mode, m.maxNearMisses);
    }
    for n := 0 to |requests|
      invariant fresh(session) && |traffic| == |rs| == n && |ss| == n + 1
      invariant SelectionRun(mode, m.maxNearMisses, traffic, rs, ss) && ss[n] == session.State()
      invariant traffic == TrafficOf(env, m, requests[..n], cs, loader)
    {
      var r, _ := SelectWithLoader(env, m, requests[n].0, requests[n].1, cs, mode, session, loader);
      ghost var all := Mismatches(env, m, requests[n].0, requests[n].1, cs, loader);
      RunExtends(mode, m.maxNearMisses, traffic, rs, ss, all, r);
      TrafficStep(env, m, requests, cs, loader, n);
      rs, traffic, ss := rs + [r], traffic + [all], ss + [session.State()];
    }
    assert requests[..|requests|] == requests;
  }

  lemma TrafficStep(env: Env, m: Matcher, requests: seq<(Request, Bytes)>, cs: seq<Candidate>,
                    loader: nat -> Option<Bytes>, n: nat)
    requires n < |requests|
    ensures TrafficOf(env, m, requests[..n + 1], cs, loader)
         == TrafficOf(env, m, requests[..n], cs, loader) + [Mismatches(env, m, requests[n].0, requests[n].1, cs, loader)]
  {
    hide Mismatches;
  }

  lemma RunStarts(mode: Consumption, max: nat)
    ensures SelectionRun(mode, max, [], [], [SessionState({}, None)])
  {
  }

  lemma RunExtends(mode: Consumption, max: nat, traffic: Traffic, rs: seq<MatchResult>, ss: seq<SessionState>,
                   all: seq<seq<Dimension>>, r: MatchResult)
    requires SelectionRun(mode, max, traffic, rs, ss) && |ss| == |rs| + 1 && IsResult(r, all, ss[|rs|], mode, max)
    ensures SelectionRun(mode, max, traffic + [all], rs + [r], ss + [AfterResult(r, ss[|rs|], mode)])
  {
    var next := ss + [AfterResult(r, ss[|rs|], mode)];
    forall i | 0 <= i < |rs| + 1
      ensures RunStep(mode, max, traffic + [all], rs + [r], next, i)
    {
      assert i < |rs| ==> RunStep(mode, max, traffic, rs, ss, i);
    }
  }

  // ---------- Near misses ----------

  /** Near misses never name a candidate that matches: a consumed exact candidate is not listed. */
  lemma {:induction false} FirstMissesExact(mismatches: seq<seq<Dimension>>, n: nat, max: nat, x: NearMiss)
    requires n <= |mismatches| && x in FirstMisses(mismatches, n, max)
    ensures x.index < n && !Matches(mismatches, x.index) && x.dimensions == mismatches[x.index] && x.cost == |x.dimensions|
  {
    var rest := FirstMisses(mismatches, n - 1, max);
    if x in rest {
      FirstMissesExact(mismatches, n - 1, max, x);
    }
  }

  /** They are the first mismatches in fixture order: one is left out only when the list is full without it. */
  lemma {:induction false} FirstMissesAreFirst(mismatches: seq<seq<Dimension>>, n: nat, max: nat, i: nat)
    requires i < n <= |mismatches| && !Matches(mismatches, i)
    ensures NearMiss(i, |mismatches[i]|, mismatches[i]) in FirstMisses(mismatches, n, max)
      || |FirstMisses(mismatches, i, max)| == max
  {
    if i < n - 1 {
      FirstMissesAreFirst(mismatches, n - 1, max, i);
    } else if |FirstMisses(mismatches, n - 1, max)| < max {
      var full := FirstMisses(mismatches, n, max);
      assert full[|full| - 1] == NearMiss(i, |mismatches[i]|, mismatches[i]);
    }
  }

  /** What a caller sees: mismatches only, each once sorted by cost and index. */
  lemma NearMissesOfResult(r: MatchResult, mismatches: seq<seq<Dimension>>, s: SessionState, mode: Consumption, max: nat,
                           x: NearMiss)
    requires IsResult(r, mismatches, s, mode, max) && !r.Matched? && x in r.near
    ensures |r.near| <= max && NearestFirst(r.near)
    ensures x.index < |mismatches| && !Matches(mismatches, x.index) && x.dimensions == mismatches[x.index]
  {
    var unsorted := FirstMisses(mismatches, |mismatches|, max);
    SortNearSorted(unsorted);
    assert |multiset(r.near)| == |multiset(unsorted)|;
    assert x in multiset(r.near);
    FirstMissesExact(mismatches, |mismatches|, max, x);
  }

  // ---------- Lazy matching refines eager matching ----------

  /** `MatchCandidate::from_flow`: metadata only. */
  function Lazy(f: Flow): Candidate
  {
    Candidate(f,
              match f.request.body
              case Absent => NoBody
              case Empty => EmptyBody
              case Blob(sha256, length) => Digest(sha256, length),
              "")
  }

  /** `MatchCandidate::new`: the bytes at hand. */
  function Eager(f: Flow, bytes: Bytes): Candidate
  {
    Candidate(f, Inline(bytes), bytes)
  }

  ghost predicate CollisionFree(env: Env)
  {
    forall a, b :: env.digest(a) == env.digest(b) ==> a == b
  }

  /** The flow's stored body is `bytes`. */
  predicate Stores(env: Env, f: Flow, bytes: Bytes)
  {
    bytes != "" && f.request.body == Blob(env.digest(bytes), |bytes|)
  }

  lemma LazyRefinesEager(env: Env, m: Matcher, actual: Request, body: Bytes, f: Flow, bytes: Bytes)
    requires CollisionFree(env) && Stores(env, f, bytes)
    ensures Mismatch(env, m, actual, body, Lazy(f), Some(bytes)) == []
       <==> Mismatch(env, m, actual, body, Eager(f, bytes), None) == []
    ensures !m.bodyMode.SemanticJson? ==>
      Mismatch(env, m, actual, body, Lazy(f), Some(bytes)) == Mismatch(env, m, actual, body, Eager(f, bytes), None)
  {
    hide Differences, JsonEqualWithout, RedactedBodyMatch;
    assert env.digest(body) == env.digest(bytes) ==> body == bytes;
  }

  function LazyAll(fs: seq<Flow>): seq<Candidate>
  {
    seq(|fs|, i requires 0 <= i < |fs| => Lazy(fs[i]))
  }

  function EagerAll(fs: seq<Flow>, contents: seq<Bytes>): seq<Candidate>
    requires |fs| == |contents|
  {
    seq(|fs|, i requires 0 <= i < |fs| => Eager(fs[i], contents[i]))
  }

  /** A loader that answers with the stored bytes. */
  function Truthful(contents: seq<Bytes>): nat -> Option<Bytes>
  {
    (i: nat) => if i < |contents| then Some(contents[i]) else None
  }

  /** A loader without answers. */
  function NoLoader(): nat -> Option<Bytes>
  {
    (i: nat) => None
  }

  predicate AllStored(env: Env, fs: seq<Flow>, contents: seq<Bytes>)
  {
    |fs| == |contents| && forall i :: 0 <= i < |fs| ==> Stores(env, fs[i], contents[i])
  }

  /** The mismatches of the same flows as digest candidates and as inline candidates. */
  lemma SameMismatches(env: Env, m: Matcher, actual: Request, body: Bytes, fs: seq<Flow>, contents: seq<Bytes>)
    requires CollisionFree(env) && AllStored(env, fs, contents)
    ensures var p := Mismatches(env, m, actual, body, LazyAll(fs), Truthful(contents));
            var q := Mismatches(env, m, actual, body, EagerAll(fs, contents), NoLoader());
            && |p| == |q|
            && (forall i :: 0 <= i < |p| ==> (Matches(p, i) <==> Matches(q, i)))
            && (!m.bodyMode.SemanticJson? ==> p == q)
  {
    hide Mismatch, CollisionFree;
    var p := Mismatches(env, m, actual, body, LazyAll(fs), Truthful(contents));
    var q := Mismatches(env, m, actual, body, EagerAll(fs, contents), NoLoader());
    forall i | 0 <= i < |fs|
      ensures p[i] == [] <==> q[i] == []
      ensures !m.bodyMode.SemanticJson? ==> p[i] == q[i]
    {
      LazyRefinesEager(env, m, actual, body, fs[i], contents[i]);
    }
  }

  /**
   * Over a whole fixture: with a collision-free digest and a truthful loader, digest and inline candidates give the same
   * verdict and the same session, in every body mode, and the very same result in the exact modes.
   */
  lemma LazySelectionRefinesEager(env: Env, m: Matcher, actual: Request, body: Bytes, fs: seq<Flow>,
                                  contents: seq<Bytes>, s: SessionState, mode: Consumption, lazy: MatchResult,
                                  eager: MatchResult)
    requires CollisionFree(env) && AllStored(env, fs, contents)
    requires IsResult(lazy, Mismatches(env, m, actual, body, LazyAll(fs), Truthful(contents)), s, mode, m.maxNearMisses)
    requires IsResult(eager, Mismatches(env, m, actual, body, EagerAll(fs, contents), NoLoader()), s, mode,
                      m.maxNearMisses)
    ensures lazy.Matched? <==> eager.Matched?
    ensures lazy.Exhausted? <==> eager.Exhausted?
    ensures AfterResult(lazy, s, mode) == AfterResult(eager, s, mode)
    ensures !m.bodyMode.SemanticJson? ==> lazy == eager
  {
    SameMismatches(env, m, actual, body, fs, contents);
    hide Mismatches, IsResult, CollisionFree, AllStored, LazyAll, EagerAll, Truthful, NoLoader;
    SameVerdicts(Mismatches(env, m, actual, body, LazyAll(fs), Truthful(contents)),
                 Mismatches(env, m, actual, body, EagerAll(fs, contents), NoLoader()),
                 s, mode, m.maxNearMisses, lazy, eager);
  }

  /** The verdict depends only on which candidates match. */
  lemma SameVerdicts(p: seq<seq<Dimension>>, q: seq<seq<Dimension>>, s: SessionState, mode: Consumption, max: nat,
                     a: MatchResult, b: MatchResult)
    requires |p| == |q| && forall i :: 0 <= i < |p| ==> (Matches(p, i) <==> Matches(q, i))
    requires IsResult(a, p, s, mode, max) && IsResult(b, q, s, mode, max)
    ensures a.Matched? <==> b.Matched?
    ensures a.Exhausted? <==> b.Exhausted?
    ensures a.Matched? ==> a == b
    ensures p == q ==> a == b
  {
    hide Available;
    assert forall i :: 0 <= i < |p| ==> (Selectable(p, s, mode, i) <==> Selectable(q, s, mode, i));
    if a.Matched? {
      assert Selectable(p, s, mode, a.index);
    }
    if b.Matched? {
      assert Selectable(q, s, mode, b.index);
    }
  }

  // ---------- When bytes are loaded ----------

  /**
   * The loader is called only for a candidate that agrees in everything but the body, whose bytes are not at hand, and
   * whose comparison needs them: JSON mode, or a redacted body.
   */
  lemma LoadsOnlyIfNeeded(m: Matcher, actual: Request, cs: seq<Candidate>, i: nat)
    requires i < |cs| && Loads(m, actual, cs, i)
    ensures Differences(m, actual, cs[i].flow) == []
    ensures cs[i].body.Digest? || (cs[i].body.Inline? && cs[i].body.bytes == "" && cs[i].requestBody == "")
    ensures m.bodyMode.SemanticJson? || HasBodyRedaction(cs[i])
  {
    hide Differences, HasBodyRedaction;
  }

  /** A candidate that would have to be loaded and differs in something else counts as differing in the body too. */
  lemma NotLoadedDiffers(env: Env, m: Matcher, actual: Request, body: Bytes, c: Candidate, loaded: Option<Bytes>)
    requires Differences(m, actual, c.flow) != []
    requires HasBodyRedaction(c) || (c.body.Digest? && m.bodyMode.SemanticJson?)
    ensures Mismatch(env, m, actual, body, c, loaded) == Differences(m, actual, c.flow) + [OnBody]
  {
    hide Differences, HasBodyRedaction, RedactedBodyMatch, JsonEqualWithout;
  }

  /** In the exact modes a digest candidate matches a body only of its own length and digest, whatever those are. */
  lemma DigestAndLengthCount(env: Env, m: Matcher, body: Bytes, c: Candidate, narrowed: bool, loaded: Option<Bytes>)
    requires c.body.Digest? && !HasBodyRedaction(c) && !m.bodyMode.SemanticJson?
    ensures BodyMatches(env, m, body, c, narrowed, loaded) ==>
      |body| == c.body.length && env.digest(body) == c.body.sha256
  {
    hide HasBodyRedaction;
  }
}
