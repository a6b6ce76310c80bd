/** The dependency closure of the installed environment and the check of a constraint snapshot against it. */
module Closure {
  import opened Wrappers

  /** `marker` is the environment marker as a predicate on the requesting extra; None is no marker. */
  datatype Requirement = Requirement(name: string, extras: set<string>, marker: Option<string -> bool>)

  /** A queued request: a canonical name and the extras asked of it. */
  datatype Request = Request(name: string, extras: set<string>)

  function Asked(r: Requirement): Request {
    Request(r.name, r.extras)
  }

  datatype Distribution = Distribution(version: string, dependencies: seq<Requirement>)

  type Environment = map<string, Distribution>

  const Bootstrap: set<string> := {"pip", "setuptools", "wheel"}

  /** `_marker_matches`: some requested extra, or the empty one when none is requested. */
  predicate MarkerMatches(r: Requirement, extras: set<string>) {
    r.marker.None? || exists e :: e in (if extras == {} then {""} else extras) && r.marker.value(e)
  }

  /** Requesting more extras never loses a dependency. */
  ghost predicate Monotone(r: Requirement) {
    forall a: set<string>, b: set<string> :: a <= b && MarkerMatches(r, a) ==> MarkerMatches(r, b)
  }

  /** Monotone exactly when a marker that holds without extras holds under every extra. */
  lemma MonotoneIff(r: Requirement)
    ensures Monotone(r) <==> (r.marker.Some? && r.marker.value("") ==> forall e: string :: r.marker.value(e))
  {
    if Monotone(r) && r.marker.Some? && r.marker.value("") {
      forall e: string ensures r.marker.value(e) {
        assert "" in {""};
        assert MarkerMatches(r, {});
        assert {} <= {e};
        assert MarkerMatches(r, {e});
      }
    }
    if r.marker.Some? && r.marker.value("") ==> forall e: string :: r.marker.value(e) {
      forall a: set<string>, b: set<string> | a <= b && MarkerMatches(r, a) ensures MarkerMatches(r, b) {
        if r.marker.Some? && b != {} {
          if a == {} {
            assert r.marker.value("");
            var e := Pick(b);
            assert r.marker.value(e);
          }
        }
      }
    }
  }

  ghost predicate MonotoneEnvironment(env: Environment) {
    forall n, k :: n in env && 0 <= k < |env[n].dependencies| ==> Monotone(env[n].dependencies[k])
  }

  // ----- Closed sets of facts -----

  /** What a walk can learn: a distribution is needed, or is needed with an extra. */
  datatype Fact = Needed(name: string) | WithExtra(name: string, extra: string)

  function ExtrasOf(facts: set<Fact>, name: string): set<string> {
    set f | f in facts && f.WithExtra? && f.name == name :: f.extra
  }

  /** Bootstrap distributions are never followed. */
  function Demands(q: Request): set<Fact> {
    if q.name in Bootstrap then {} else {Needed(q.name)} + set e | e in q.extras :: WithExtra(q.name, e)
  }

  ghost predicate RootsIn(roots: seq<Requirement>, facts: set<Fact>) {
    forall k :: 0 <= k < |roots| ==> Demands(Asked(roots[k])) <= facts
  }

  ghost predicate ExpandedIn(env: Environment, name: string, facts: set<Fact>) {
    name in env ==> forall k :: 0 <= k < |env[name].dependencies| && MarkerMatches(env[name].dependencies[k], ExtrasOf(facts, name)) ==>
      Demands(Asked(env[name].dependencies[k])) <= facts
  }

  /** Roots are in, and every needed distribution's matching dependencies are in. */
  ghost predicate Closed(env: Environment, roots: seq<Requirement>, facts: set<Fact>) {
    && RootsIn(roots, facts)
    && forall n :: Needed(n) in facts ==> ExpandedIn(env, n, facts)
  }

  ghost predicate LeastClosed(env: Environment, roots: seq<Requirement>, facts: set<Fact>) {
    && Closed(env, roots, facts)
    && forall other: set<Fact> :: Closed(env, roots, other) ==> facts <= other
  }

  function NeededNames(facts: set<Fact>): set<string> {
    set f | f in facts && f.Needed? :: f.name
  }

  lemma NeededNamesIff(facts: set<Fact>, name: string)
    ensures name in NeededNames(facts) <==> Needed(name) in facts
  {
    if Needed(name) in facts {
      assert Needed(name).name == name;
    }
  }

  /** There is at most one least closed set. */
  lemma LeastClosedUnique(env: Environment, roots: seq<Requirement>, a: set<Fact>, b: set<Fact>)
    requires LeastClosed(env, roots, a) && LeastClosed(env, roots, b)
    ensures a == b
  {
  }

  /** Two environments that list the same dependencies, in any order and multiplicity. */
  ghost predicate SameUpToOrder(a: Environment, b: Environment) {
    && a.Keys == b.Keys
    && forall n :: n in a ==> (forall r :: r in a[n].dependencies <==> r in b[n].dependencies)
  }

  lemma ClosedIgnoresOrder(a: Environment, b: Environment, roots: seq<Requirement>, roots': seq<Requirement>, facts: set<Fact>)
    requires SameUpToOrder(a, b) && (forall r :: r in roots <==> r in roots')
    requires Closed(a, roots, facts)
    ensures Closed(b, roots', facts)
  {
    forall k | 0 <= k < |roots'| ensures Demands(Asked(roots'[k])) <= facts {
      assert roots'[k] in roots;
      var j :| 0 <= j < |roots| && roots[j] == roots'[k];
    }
    forall n | Needed(n) in facts ensures ExpandedIn(b, n, facts) {
      assert ExpandedIn(a, n, facts);
      if n in b {
        forall k | 0 <= k < |b[n].dependencies| && MarkerMatches(b[n].dependencies[k], ExtrasOf(facts, n))
          ensures Demands(Asked(b[n].dependencies[k])) <= facts
        {
          assert b[n].dependencies[k] in a[n].dependencies;
          var j :| 0 <= j < |a[n].dependencies| && a[n].dependencies[j] == b[n].dependencies[k];
        }
      }
    }
  }

  /** The least closed set, hence the result, does not depend on the order in which requirements are listed. */
  lemma LeastClosedIgnoresOrder(a: Environment, b: Environment, roots: seq<Requirement>, roots': seq<Requirement>, facts: set<Fact>)
    requires SameUpToOrder(a, b) && (forall r :: r in roots <==> r in roots')
    requires LeastClosed(a, roots, facts)
    ensures LeastClosed(b, roots', facts)
  {
    ClosedIgnoresOrder(a, b, roots, roots', facts);
    forall other: set<Fact> | Closed(b, roots', other) ensures facts <= other {
      ClosedIgnoresOrder(b, a, roots', roots, other);
    }
  }

  // ----- The finite universe of facts, for termination -----

  function DemandsOfAll(queue: seq<Request>): set<Fact> {
    set k, f | 0 <= k < |queue| && f in Demands(queue[k]) :: f
  }

  function AllAsked(rs: seq<Requirement>): seq<Request> {
    seq(|rs|, i requires 0 <= i < |rs| => Asked(rs[i]))
  }

  function Universe(env: Environment, roots: seq<Requirement>): set<Fact> {
    DemandsOfAll(AllAsked(roots)) + set n, f | n in env && f in DemandsOfAll(AllAsked(env[n].dependencies)) :: f
  }

  // ----- The walk as a sequence of steps -----

  datatype State = State(queue: seq<Request>, known: map<string, set<string>>, versions: map<string, string>, processed: set<Request>)

  function Start(roots: seq<Requirement>): State {
    State(AllAsked(roots), map[], map[], {})
  }

  /** The requests that a distribution's matching dependencies add to the queue. */
  function Matching(deps: seq<Requirement>, extras: set<string>): seq<Request> {
    if deps == [] then []
    else
      var n := |deps| - 1;
      Matching(deps[..n], extras) + if MarkerMatches(deps[n], extras) then [Asked(deps[n])] else []
  }

  function KnownExtras(s: State, name: string): set<string> {
    if name in s.known then s.known[name] else {}
  }

  /** One iteration of the loop; the error is the distribution that is not installed. */
  function Step(env: Environment, s: State): Result<State, string>
    requires s.queue != []
  {
    var q, rest := s.queue[0], s.(queue := s.queue[1..]);
    if q.name in Bootstrap || (q.extras <= KnownExtras(s, q.name) && q.name in s.versions) then Success(rest)
    else
      var effective := KnownExtras(s, q.name) + q.extras;
      var mark := Request(q.name, effective);
      if mark in s.processed then Success(rest.(known := s.known[q.name := effective]))
      else if q.name !in env then Failure(q.name)
      else Success(State(rest.queue + Matching(env[q.name].dependencies, effective), s.known[q.name := effective],
                         s.versions[q.name := env[q.name].version], s.processed + {mark}))
  }

  function Iterate(env: Environment, s: State, n: nat): Result<State, string> {
    if n == 0 then Success(s)
    else
      var r := Iterate(env, s, n - 1);
      if r.Failure? || r.value.queue == [] then r else Step(env, r.value)
  }

  /** A package with one requirement. */
  function OneRequirement(package: string, r: Requirement): Environment {
    map[package := Distribution("1", [r]), r.name := Distribution("1", [])]
  }

  /** Asked first without extras, the package brings in what its marker grants then. */
  lemma PlainFirst(r: Requirement, extra: string, package: string)
    requires r.marker.Some? && r.marker.value("")
    requires package !in Bootstrap && r.name !in Bootstrap && r.name != package
    ensures var run := Iterate(OneRequirement(package, r), Start([Requirement(package, {}, None), Requirement(package, {extra}, None)]), 3);
      r.marker.value(extra) || (run.Success? && run.value.queue == [] && r.name in run.value.versions)
  {
    var env, plain, withExtra := OneRequirement(package, r), Requirement(package, {}, None), Requirement(package, {extra}, None);
    assert "" in {""} && MarkerMatches(r, {});
    assert Matching([r], {}) == [Asked(r)] by { assert [r][..0] == []; }
    var s0 := Start([plain, withExtra]);
    assert s0.queue == [Asked(plain), Asked(withExtra)];
    var s1 := Step(env, s0).value;
    assert s1.queue == [Asked(withExtra), Asked(r)];
    assert Iterate(env, s0, 1) == Success(s1);
    if !r.marker.value(extra) {
      assert Matching([r], {} + {extra}) == [] by { assert [r][..0] == [] && !MarkerMatches(r, {} + {extra}); }
      var s2 := Step(env, s1).value;
      assert s2.queue == [Asked(r)];
      assert Iterate(env, s0, 2) == Success(s2);
      assert Iterate(env, s0, 3) == Step(env, s2);
    }
  }

  /** Asked first with the extra, it does not, then or later. */
  lemma ExtraFirst(r: Requirement, extra: string, package: string)
    requires r.marker.Some? && !r.marker.value(extra)
    requires package !in Bootstrap && r.name != package
    ensures var run := Iterate(OneRequirement(package, r), Start([Requirement(package, {extra}, None), Requirement(package, {}, None)]), 2);
      run.Success? && run.value.queue == [] && r.name !in run.value.versions
  {
    var env, plain, withExtra := OneRequirement(package, r), Requirement(package, {}, None), Requirement(package, {extra}, None);
    assert !MarkerMatches(r, {} + {extra});
    assert Matching([r], {} + {extra}) == [] by { assert [r][..0] == []; }
    var s0 := Start([withExtra, plain]);
    assert s0.queue == [Asked(withExtra), Asked(plain)];
    var s1 := Step(env, s0).value;
    assert {} + {extra} == {extra};
    assert s1.queue == [Asked(plain)] && s1.known == map[package := {extra}];
    assert Iterate(env, s0, 1) == Success(s1);
    assert Iterate(env, s0, 2) == Step(env, s1);
  }

  /** A request without extras must not lose what a marker grants it: each non-monotone marker makes some environment order-dependent. */
  lemma NonMonotoneDependsOnOrder(r: Requirement, extra: string, package: string)
    requires r.marker.Some? && r.marker.value("") && !r.marker.value(extra)
    requires package !in Bootstrap && r.name !in Bootstrap && r.name != package
    ensures var env, plain, withExtra := OneRequirement(package, r), Requirement(package, {}, None), Requirement(package, {extra}, None);
      && Iterate(env, Start([plain, withExtra]), 3).Success? && Iterate(env, Start([withExtra, plain]), 2).Success?
      && var a, b := Iterate(env, Start([plain, withExtra]), 3).value, Iterate(env, Start([withExtra, plain]), 2).value;
         a.queue == [] && b.queue == [] && r.name in a.versions && r.name !in b.versions
  {
    PlainFirst(r, extra, package);
    ExtraFirst(r, extra, package);
  }

  // ----- The loop -----

  lemma {:induction false} MatchingIff(deps: seq<Requirement>, extras: set<string>)
    ensures forall k :: 0 <= k < |deps| && MarkerMatches(deps[k], extras) ==> Asked(deps[k]) in Matching(deps, extras)
    ensures forall q :: q in Matching(deps, extras) ==> exists k :: 0 <= k < |deps| && MarkerMatches(deps[k], extras) && q == Asked(deps[k])
  {
    if deps != [] {
      var n := |deps| - 1;
      MatchingIff(deps[..n], extras);
      forall q | q in Matching(deps, extras) ensures exists k :: 0 <= k < |deps| && MarkerMatches(deps[k], extras) && q == Asked(deps[k]) {
        if q in Matching(deps[..n], extras) {
          var k :| 0 <= k < n && MarkerMatches(deps[..n][k], extras) && q == Asked(deps[..n][k]);
          assert deps[k] == deps[..n][k];
        } else {
          assert MarkerMatches(deps[n], extras) && q == Asked(deps[n]);
        }
      }
    }
  }

  /** The facts a state has established. */
  ghost predicate Records(s: State, facts: set<Fact>) {
    && s.known.Keys == s.versions.Keys
    && (forall n :: Needed(n) in facts <==> n in s.versions)
    && (forall n, e :: WithExtra(n, e) in facts <==> n in s.known && e in s.known[n])
  }

  /** What is queued or established covers the roots and everything expanded so far. */
  ghost predicate Covered(env: Environment, roots: seq<Requirement>, s: State, facts: set<Fact>) {
    && (forall k :: 0 <= k < |roots| ==> Demands(Asked(roots[k])) <= facts + DemandsOfAll(s.queue))
    && forall n, k :: n in s.versions && n in env && 0 <= k < |env[n].dependencies| && MarkerMatches(env[n].dependencies[k], KnownExtras(s, n)) ==>
         Demands(Asked(env[n].dependencies[k])) <= facts + DemandsOfAll(s.queue)
  }

  ghost predicate Installed(env: Environment, s: State) {
    forall n :: n in s.versions ==> n in env && s.versions[n] == env[n].version
  }

  /** A key is only marked while its extras are within those known. */
  ghost predicate Marked(s: State) {
    forall q :: q in s.processed ==> q.name in s.versions && q.extras <= KnownExtras(s, q.name)
  }

  /** Nothing queued or established lies outside any closed set. */
  ghost predicate Necessary(env: Environment, roots: seq<Requirement>, s: State, facts: set<Fact>) {
    forall other: set<Fact> :: Closed(env, roots, other) ==> facts + DemandsOfAll(s.queue) <= other
  }

  ghost predicate Invariant(env: Environment, roots: seq<Requirement>, s: State, facts: set<Fact>) {
    && Records(s, facts) && Covered(env, roots, s, facts) && Installed(env, s) && Marked(s)
    && facts + DemandsOfAll(s.queue) <= Universe(env, roots)
    && (MonotoneEnvironment(env) ==> Necessary(env, roots, s, facts))
  }

  lemma DemandsAppend(a: seq<Request>, b: seq<Request>)
    ensures DemandsOfAll(a + b) == DemandsOfAll(a) + DemandsOfAll(b)
  {
    forall f | f in DemandsOfAll(a) + DemandsOfAll(b) ensures f in DemandsOfAll(a + b) {
      if f in DemandsOfAll(a) {
        var k :| 0 <= k < |a| && f in Demands(a[k]);
        assert (a + b)[k] == a[k];
      } else {
        var k :| 0 <= k < |b| && f in Demands(b[k]);
        assert (a + b)[|a| + k] == b[k];
      }
    }
    forall f | f in DemandsOfAll(a + b) ensures f in DemandsOfAll(a) + DemandsOfAll(b) {
      var k :| 0 <= k < |a + b| && f in Demands((a + b)[k]);
      assert (a + b)[k] == if k < |a| then a[k] else b[k - |a|];
    }
  }

  lemma DemandsIn(queue: seq<Request>, q: Request)
    requires q in queue
    ensures Demands(q) <= DemandsOfAll(queue)
  {
    var k :| 0 <= k < |queue| && queue[k] == q;
    assert forall f :: f in Demands(q) ==> f in Demands(queue[k]);
  }

  lemma DemandsSplit(queue: seq<Request>)
    requires queue != []
    ensures DemandsOfAll(queue) == Demands(queue[0]) + DemandsOfAll(queue[1..])
  {
    assert queue == [queue[0]] + queue[1..];
    DemandsAppend([queue[0]], queue[1..]);
    DemandsIn([queue[0]], queue[0]);
    assert DemandsOfAll([queue[0]]) == Demands(queue[0]);
  }

  lemma AskedListed(rs: seq<Requirement>, k: nat)
    requires k < |rs|
    ensures Demands(Asked(rs[k])) <= DemandsOfAll(AllAsked(rs))
  {
    assert AllAsked(rs)[k] == Asked(rs[k]);
    DemandsIn(AllAsked(rs), Asked(rs[k]));
  }

  lemma StartInvariant(env: Environment, roots: seq<Requirement>)
    ensures Invariant(env, roots, Start(roots), {})
  {
    var s := Start(roots);
    forall k | 0 <= k < |roots| ensures Demands(Asked(roots[k])) <= {} + DemandsOfAll(s.queue) {
      AskedListed(roots, k);
    }
    forall other: set<Fact> | Closed(env, roots, other) ensures {} + DemandsOfAll(s.queue) <= other {
      forall f | f in DemandsOfAll(s.queue) ensures f in other {
        var k :| 0 <= k < |s.queue| && f in Demands(s.queue[k]);
        assert s.queue[k] == Asked(roots[k]);
      }
    }
  }

  lemma ExtrasRecorded(s: State, facts: set<Fact>, name: string)
    requires Records(s, facts)
    ensures ExtrasOf(facts, name) == KnownExtras(s, name)
  {
    forall e | e in KnownExtras(s, name) ensures e in ExtrasOf(facts, name) {
      assert WithExtra(name, e) in facts;
      assert WithExtra(name, e).extra == e;
    }
  }

  /** The request at the head of the queue adds something new. */
  predicate IsNews(s: State)
    requires s.queue != []
  {
    var q := s.queue[0];
    q.name !in Bootstrap && !(q.extras <= KnownExtras(s, q.name) && q.name in s.versions)
  }

  /** The `processed` guard never fires. */
  lemma NewsIsUnprocessed(s: State)
    requires Marked(s) && s.queue != [] && IsNews(s)
    ensures var q := s.queue[0]; Request(q.name, KnownExtras(s, q.name) + q.extras) !in s.processed
  {
  }

  lemma OldStep(env: Environment, roots: seq<Requirement>, s: State, facts: set<Fact>)
    requires Invariant(env, roots, s, facts) && s.queue != [] && !IsNews(s)
    ensures Step(env, s) == Success(s.(queue := s.queue[1..])) && Invariant(env, roots, s.(queue := s.queue[1..]), facts)
  {
    DemandsSplit(s.queue);
    assert Demands(s.queue[0]) <= facts;
    assert facts + DemandsOfAll(s.queue[1..]) == facts + DemandsOfAll(s.queue);
  }

  lemma MatchingDemands(env: Environment, name: string, extras: set<string>, f: Fact) returns (k: nat)
    requires name in env && f in DemandsOfAll(Matching(env[name].dependencies, extras))
    ensures k < |env[name].dependencies| && MarkerMatches(env[name].dependencies[k], extras) && f in Demands(Asked(env[name].dependencies[k]))
  {
    var deps := env[name].dependencies;
    MatchingIff(deps, extras);
    var j :| 0 <= j < |Matching(deps, extras)| && f in Demands(Matching(deps, extras)[j]);
    assert Matching(deps, extras)[j] in Matching(deps, extras);
    k :| 0 <= k < |deps| && MarkerMatches(deps[k], extras) && Matching(deps, extras)[j] == Asked(deps[k]);
  }

  lemma NewsRecorded(env: Environment, s: State, facts: set<Fact>)
    requires Records(s, facts) && Installed(env, s) && Marked(s) && s.queue != [] && IsNews(s) && s.queue[0].name in env
    ensures Step(env, s).Success?
    ensures var s' := Step(env, s).value; Records(s', facts + Demands(s.queue[0])) && Installed(env, s') && Marked(s')
    ensures facts < facts + Demands(s.queue[0])
  {
    NewsIsUnprocessed(s);
    var q := s.queue[0];
    if q.name in s.versions {
      var e := PickOutside(q.extras, KnownExtras(s, q.name));
      assert WithExtra(q.name, e) in Demands(q) && WithExtra(q.name, e) !in facts;
    } else {
      assert Needed(q.name) in Demands(q) && Needed(q.name) !in facts;
    }
  }

  lemma NewsCovered(env: Environment, roots: seq<Requirement>, s: State, facts: set<Fact>)
    requires Invariant(env, roots, s, facts) && s.queue != [] && IsNews(s) && s.queue[0].name in env
    requires Step(env, s).Success?
    ensures Covered(env, roots, Step(env, s).value, facts + Demands(s.queue[0]))
  {
    NewsIsUnprocessed(s);
    var q, s', facts' := s.queue[0], Step(env, s).value, facts + Demands(s.queue[0]);
    var effective := KnownExtras(s, q.name) + q.extras;
    var added := Matching(env[q.name].dependencies, effective);
    DemandsSplit(s.queue);
    DemandsAppend(s.queue[1..], added);
    assert facts + DemandsOfAll(s.queue) <= facts' + DemandsOfAll(s'.queue);
    forall n, k | n in s'.versions && n in env && 0 <= k < |env[n].dependencies| && MarkerMatches(env[n].dependencies[k], KnownExtras(s', n))
      ensures Demands(Asked(env[n].dependencies[k])) <= facts' + DemandsOfAll(s'.queue)
    {
      if n == q.name {
        MatchingIff(env[n].dependencies, effective);
        DemandsIn(added, Asked(env[n].dependencies[k]));
      } else {
        assert KnownExtras(s', n) == KnownExtras(s, n);
      }
    }
  }

  lemma NewsInUniverse(env: Environment, roots: seq<Requirement>, s: State, facts: set<Fact>)
    requires facts + DemandsOfAll(s.queue) <= Universe(env, roots) && Marked(s)
    requires s.queue != [] && IsNews(s) && s.queue[0].name in env && Step(env, s).Success?
    ensures facts + Demands(s.queue[0]) + DemandsOfAll(Step(env, s).value.queue) <= Universe(env, roots)
  {
    NewsIsUnprocessed(s);
    var q := s.queue[0];
    var effective := KnownExtras(s, q.name) + q.extras;
    var added := Matching(env[q.name].dependencies, effective);
    DemandsSplit(s.queue);
    DemandsAppend(s.queue[1..], added);
    forall f | f in DemandsOfAll(added) ensures f in Universe(env, roots) {
      var k := MatchingDemands(env, q.name, effective, f);
      AskedListed(env[q.name].dependencies, k);
    }
  }

  lemma NewsNecessary(env: Environment, roots: seq<Requirement>, s: State, facts: set<Fact>)
    requires Invariant(env, roots, s, facts) && MonotoneEnvironment(env)
    requires s.queue != [] && IsNews(s) && s.queue[0].name in env && Step(env, s).Success?
    ensures Necessary(env, roots, Step(env, s).value, facts + Demands(s.queue[0]))
  {
    NewsIsUnprocessed(s);
    var q := s.queue[0];
    var effective := KnownExtras(s, q.name) + q.extras;
    var deps := env[q.name].dependencies;
    var added := Matching(deps, effective);
    DemandsSplit(s.queue);
    DemandsAppend(s.queue[1..], added);
    forall other: set<Fact> | Closed(env, roots, other) ensures facts + Demands(q) + DemandsOfAll(s.queue[1..] + added) <= other {
      assert facts + DemandsOfAll(s.queue) <= other;
      assert Needed(q.name) in other;
      assert ExpandedIn(env, q.name, other);
      assert effective <= ExtrasOf(other, q.name) by {
        ExtrasRecorded(s, facts, q.name);
        forall e | e in effective ensures e in ExtrasOf(other, q.name) {
          assert WithExtra(q.name, e) in facts + Demands(q);
          assert WithExtra(q.name, e).extra == e;
        }
      }
      forall f | f in DemandsOfAll(added) ensures f in other {
        var k := MatchingDemands(env, q.name, effective, f);
        assert Monotone(deps[k]);
        assert MarkerMatches(deps[k], ExtrasOf(other, q.name));
      }
    }
  }

  /** Facts only grow, and each step either adds one or shortens the queue: the loop's termination measure. */
  lemma NewsStep(env: Environment, roots: seq<Requirement>, s: State, facts: set<Fact>)
    requires Invariant(env, roots, s, facts) && s.queue != [] && IsNews(s) && s.queue[0].name in env
    ensures Step(env, s).Success? && Invariant(env, roots, Step(env, s).value, facts + Demands(s.queue[0]))
    ensures facts < facts + Demands(s.queue[0]) <= Universe(env, roots)
  {
    NewsRecorded(env, s, facts);
    NewsCovered(env, roots, s, facts);
    NewsInUniverse(env, roots, s, facts);
    if MonotoneEnvironment(env) {
      NewsNecessary(env, roots, s, facts);
    }
  }

  /** With an empty queue the recorded facts are closed. */
  lemma DoneIsClosed(env: Environment, roots: seq<Requirement>, s: State, facts: set<Fact>)
    requires Invariant(env, roots, s, facts) && s.queue == []
    ensures Closed(env, roots, facts) && (MonotoneEnvironment(env) ==> LeastClosed(env, roots, facts))
    ensures s.versions.Keys == NeededNames(facts)
  {
    assert DemandsOfAll(s.queue) == {};
    forall n | Needed(n) in facts ensures ExpandedIn(env, n, facts) {
      ExtrasRecorded(s, facts, n);
    }
    forall n ensures n in s.versions <==> n in NeededNames(facts) {
      NeededNamesIff(facts, n);
    }
  }

  method Extend(rest: seq<Request>, deps: seq<Requirement>, extras: set<string>) returns (queue: seq<Request>)
    ensures queue == rest + Matching(deps, extras)
  {
    queue := rest;
    for k := 0 to |deps|
      invariant queue == rest + Matching(deps[..k], extras)
    {
      assert deps[..k + 1][..k] == deps[..k];
      if MarkerMatches(deps[k], extras) {
        queue := queue + [Asked(deps[k])];
      }
    }
    assert deps[..|deps|] == deps;
  }

  lemma NotInstalled(env: Environment, roots: seq<Requirement>, s: State, facts: set<Fact>)
    requires Invariant(env, roots, s, facts) && s.queue != [] && IsNews(s) && s.queue[0].name !in env
    ensures Step(env, s) == Failure(s.queue[0].name)
    ensures MonotoneEnvironment(env) ==> AlwaysNeeded(env, roots, s.queue[0].name)
  {
    NewsIsUnprocessed(s);
    DemandsSplit(s.queue);
    assert Needed(s.queue[0].name) in Demands(s.queue[0]);
  }

  ghost predicate AlwaysNeeded(env: Environment, roots: seq<Requirement>, name: string) {
    forall other: set<Fact> :: Closed(env, roots, other) ==> Needed(name) in other
  }

  // ----- The edges, spelled out -----

  /** The k-th dependency of n is followed: it has no marker, or its marker holds for what has been asked of n. */
  ghost predicate Edge(env: Environment, facts: set<Fact>, n: string, k: nat) {
    && n in env && k < |env[n].dependencies|
    && var d := env[n].dependencies[k];
      || d.marker.None?
      || (d.marker.value("") && forall e :: WithExtra(n, e) !in facts)
      || exists e :: WithExtra(n, e) in facts && d.marker.value(e)
  }

  /** A requirement that is followed brings in its name and its extras, unless it is one of three tools. */
  ghost predicate Brings(facts: set<Fact>, r: Requirement) {
    r.name !in {"pip", "setuptools", "wheel"} ==> Needed(r.name) in facts && forall e :: e in r.extras ==> WithExtra(r.name, e) in facts
  }

  lemma EdgeIff(env: Environment, facts: set<Fact>, n: string, k: nat)
    ensures Edge(env, facts, n, k) <==> n in env && k < |env[n].dependencies| && MarkerMatches(env[n].dependencies[k], ExtrasOf(facts, n))
  {
    var extras := ExtrasOf(facts, n);
    assert forall e :: WithExtra(n, e) in facts ==> e in extras;
    assert "" in {""};
  }

  lemma BringsIff(facts: set<Fact>, r: Requirement)
    ensures Brings(facts, r) <==> Demands(Asked(r)) <= facts
  {
    if Demands(Asked(r)) <= facts && r.name !in Bootstrap {
      forall e | e in r.extras ensures WithExtra(r.name, e) in facts {
        assert WithExtra(r.name, e) in Demands(Asked(r));
      }
      assert Needed(r.name) in Demands(Asked(r));
    }
  }

  /** Closed sets of facts, without the walk's own terms. */
  lemma ClosedInFull(env: Environment, roots: seq<Requirement>, facts: set<Fact>)
    ensures Closed(env, roots, facts) <==>
      && (forall k :: 0 <= k < |roots| ==> Brings(facts, roots[k]))
      && (forall n, k: nat :: Needed(n) in facts && Edge(env, facts, n, k) ==> Brings(facts, env[n].dependencies[k]))
  {
    forall r: Requirement {
      BringsIff(facts, r);
    }
    forall n, k: nat {
      EdgeIff(env, facts, n, k);
    }
    if Closed(env, roots, facts) {
      forall n, k: nat | Needed(n) in facts && Edge(env, facts, n, k) ensures Brings(facts, env[n].dependencies[k]) {
        assert ExpandedIn(env, n, facts);
      }
    } else if RootsIn(roots, facts) {
      var n :| Needed(n) in facts && !ExpandedIn(env, n, facts);
      var k: nat :| k < |env[n].dependencies| && MarkerMatches(env[n].dependencies[k], ExtrasOf(facts, n)) && !(Demands(Asked(env[n].dependencies[k])) <= facts);
      assert Edge(env, facts, n, k) && !Brings(facts, env[n].dependencies[k]);
    } else {
      var k :| 0 <= k < |roots| && !(Demands(Asked(roots[k])) <= facts);
      assert !Brings(facts, roots[k]);
    }
  }

  /** A fact comes from a requirement: its name is needed, or one of its extras is asked. */
  ghost predicate ComesFrom(f: Fact, r: Requirement) {
    r.name == f.name && r.name !in {"pip", "setuptools", "wheel"} && (f.WithExtra? ==> f.extra in r.extras)
  }

  ghost predicate Supported(env: Environment, roots: seq<Requirement>, facts: set<Fact>, f: Fact) {
    || (exists k :: 0 <= k < |roots| && ComesFrom(f, roots[k]))
    || exists n, k: nat :: Needed(n) in facts && Edge(env, facts, n, k) && ComesFrom(f, env[n].dependencies[k])
  }

  /** In the least closed set every fact comes from a root or from an edge of something needed. */
  lemma LeastIsSupported(env: Environment, roots: seq<Requirement>, facts: set<Fact>, f: Fact)
    requires MonotoneEnvironment(env) && LeastClosed(env, roots, facts) && f in facts
    ensures Supported(env, roots, facts, f)
  {
    if !Supported(env, roots, facts, f) {
      var fewer := facts - {f};
      forall k | 0 <= k < |roots| ensures Demands(Asked(roots[k])) <= fewer {
        assert !ComesFrom(f, roots[k]);
        assert f !in Demands(Asked(roots[k]));
      }
      forall n | Needed(n) in fewer ensures ExpandedIn(env, n, fewer) {
        if n in env {
          forall k | 0 <= k < |env[n].dependencies| && MarkerMatches(env[n].dependencies[k], ExtrasOf(fewer, n))
            ensures Demands(Asked(env[n].dependencies[k])) <= fewer
          {
            var d := env[n].dependencies[k];
            assert ExtrasOf(fewer, n) <= ExtrasOf(facts, n) && Monotone(d);
            EdgeIff(env, facts, n, k);
            assert !ComesFrom(f, d) && f !in Demands(Asked(d));
            assert ExpandedIn(env, n, facts);
          }
        }
      }
      assert Closed(env, roots, fewer);
    }
  }

  /**
   `dependency_closure`: the versions of exactly the distributions in a closed set of facts, the least
   one when markers are monotone; or a needed distribution that is not installed.
   */
  method DependencyClosure(env: Environment, roots: seq<Requirement>) returns (r: Result<map<string, string>, string>, ghost facts: set<Fact>, ghost steps: nat)
    ensures r.Success? ==>
      && Closed(env, roots, facts) && (MonotoneEnvironment(env) ==> LeastClosed(env, roots, facts))
      && r.value.Keys == NeededNames(facts)
      && (forall n :: n in r.value ==> n in env && r.value[n] == env[n].version)
    ensures r.Failure? ==> r.error !in env && (MonotoneEnvironment(env) ==> AlwaysNeeded(env, roots, r.error))
    ensures match Iterate(env, Start(roots), steps)
      case Success(s) => s.queue == [] && r == Success(s.versions)
      case Failure(n) => r == Failure(n)
    ensures r.Success? ==> forall k :: 0 <= k < |roots| && roots[k].name !in {"pip", "setuptools", "wheel"} ==>
      roots[k].name in r.value && forall e :: e in roots[k].extras ==> WithExtra(roots[k].name, e) in facts
    ensures r.Success? ==> forall n, k :: n in r.value && 0 <= k < |env[n].dependencies| && env[n].dependencies[k].name !in {"pip", "setuptools", "wheel"} ==>
      var d := env[n].dependencies[k];
      && (d.marker.None? ==> d.name in r.value && forall e :: e in d.extras ==> WithExtra(d.name, e) in facts)
      && (d.marker.Some? && d.marker.value("") && (forall x :: WithExtra(n, x) !in facts) ==>
            d.name in r.value && forall e :: e in d.extras ==> WithExtra(d.name, e) in facts)
      && (d.marker.Some? && (exists x :: WithExtra(n, x) in facts && d.marker.value(x)) ==>
            d.name in r.value && forall e :: e in d.extras ==> WithExtra(d.name, e) in facts)
    ensures r.Success? && MonotoneEnvironment(env) ==>
      && (forall n :: n in r.value ==> n !in {"pip", "setuptools", "wheel"} && Supported(env, roots, facts, Needed(n)))
      && (forall n, e :: WithExtra(n, e) in facts ==> Supported(env, roots, facts, WithExtra(n, e)))
  {
    var queue := AllAsked(roots);
    var known: map<string, set<string>> := map[];
    var versions: map<string, string> := map[];
    var processed: set<Request> := {};
    facts, steps := {}, 0;
    StartInvariant(env, roots);
    while queue != []
      invariant Iterate(env, Start(roots), steps) == Success(State(queue, known, versions, processed))
      invariant Invariant(env, roots, State(queue, known, versions, processed), facts)
      decreases Universe(env, roots) - facts, |queue|
    {
      ghost var s := State(queue, known, versions, processed);
      assert Iterate(env, Start(roots), steps + 1) == Step(env, s);
      steps := steps + 1;
      var q := queue[0];
      queue := queue[1..];
      if q.name in Bootstrap {
        OldStep(env, roots, s, facts);
        continue;
      }
      var knownExtras := if q.name in known then known[q.name] else {};
      if q.extras <= knownExtras && q.name in versions {
        OldStep(env, roots, s, facts);
        continue;
      }
      NewsIsUnprocessed(s);
      known := known[q.name := knownExtras + q.extras];
      var mark := Request(q.name, known[q.name]);
      if mark in processed {
        assert false;
      }
      processed := processed + {mark};
      if q.name !in env {
        NotInstalled(env, roots, s, facts);
        return Failure(q.name), facts, steps;
      }
      versions := versions[q.name := env[q.name].version];
      var deps := env[q.name].dependencies;
      queue := Extend(queue, deps, known[q.name]);
      NewsStep(env, roots, s, facts);
      facts := facts + Demands(q);
    }
    DoneIsClosed(env, roots, State(queue, known, versions, processed), facts);
    r := Success(versions);
    ResultInFull(env, roots, versions, facts);
  }

  /** What the names and extras of a closed set hold, requirement by requirement. */
  lemma ResultInFull(env: Environment, roots: seq<Requirement>, versions: map<string, string>, facts: set<Fact>)
    requires Closed(env, roots, facts) && versions.Keys == NeededNames(facts) && (MonotoneEnvironment(env) ==> LeastClosed(env, roots, facts))
    requires forall n :: n in versions ==> n in env
    ensures forall k :: 0 <= k < |roots| && roots[k].name !in {"pip", "setuptools", "wheel"} ==>
      roots[k].name in versions && forall e :: e in roots[k].extras ==> WithExtra(roots[k].name, e) in facts
    ensures forall n, k: nat :: n in versions && Edge(env, facts, n, k) && env[n].dependencies[k].name !in {"pip", "setuptools", "wheel"} ==>
      var d := env[n].dependencies[k]; d.name in versions && forall e :: e in d.extras ==> WithExtra(d.name, e) in facts
    ensures MonotoneEnvironment(env) ==>
      && (forall n :: n in versions ==> n !in {"pip", "setuptools", "wheel"} && Supported(env, roots, facts, Needed(n)))
      && (forall n, e :: WithExtra(n, e) in facts ==> Supported(env, roots, facts, WithExtra(n, e)))
  {
    ClosedInFull(env, roots, facts);
    forall n {
      NeededNamesIff(facts, n);
    }
    assert forall n :: n in versions <==> n in NeededNames(facts);
    forall k | 0 <= k < |roots| && roots[k].name !in {"pip", "setuptools", "wheel"}
      ensures roots[k].name in versions && forall e :: e in roots[k].extras ==> WithExtra(roots[k].name, e) in facts
    {
      assert Brings(facts, roots[k]);
    }
    if MonotoneEnvironment(env) {
      forall f | f in facts ensures Supported(env, roots, facts, f) {
        LeastIsSupported(env, roots, facts, f);
      }
      forall n | n in versions ensures n !in {"pip", "setuptools", "wheel"} && Supported(env, roots, facts, Needed(n)) {
        assert Needed(n) in facts;
      }
    }
  }

  /** With monotone markers a least closed set exists: what every closed set contains. */
  lemma LeastClosedExists(env: Environment, roots: seq<Requirement>) returns (least: set<Fact>)
    requires MonotoneEnvironment(env)
    ensures LeastClosed(env, roots, least)
  {
    least := set f | f in Universe(env, roots) && forall other: set<Fact> :: Closed(env, roots, other) ==> f in other;
    forall k | 0 <= k < |roots| ensures Demands(Asked(roots[k])) <= least {
      AskedListed(roots, k);
    }
    forall n | Needed(n) in least ensures ExpandedIn(env, n, least) {
      if n in env {
        forall k | 0 <= k < |env[n].dependencies| && MarkerMatches(env[n].dependencies[k], ExtrasOf(least, n))
          ensures Demands(Asked(env[n].dependencies[k])) <= least
        {
          AskedListed(env[n].dependencies, k);
          forall other: set<Fact> | Closed(env, roots, other) ensures Demands(Asked(env[n].dependencies[k])) <= other {
            assert least <= other;
            assert ExpandedIn(env, n, other) && Monotone(env[n].dependencies[k]);
            assert ExtrasOf(least, n) <= ExtrasOf(other, n);
          }
        }
      }
    }
  }

  /** The walk fails exactly when the least closed set needs something that is not installed. */
  lemma FailsIffUninstalled(env: Environment, roots: seq<Requirement>, r: Result<map<string, string>, string>, facts: set<Fact>, least: set<Fact>)
    requires MonotoneEnvironment(env) && LeastClosed(env, roots, least)
    requires r.Success? ==> LeastClosed(env, roots, facts) && r.value.Keys == NeededNames(facts) && r.value.Keys <= env.Keys
    requires r.Failure? ==> r.error !in env && AlwaysNeeded(env, roots, r.error)
    ensures r.Failure? <==> exists n :: Needed(n) in least && n !in env
  {
    if r.Success? {
      LeastClosedUnique(env, roots, facts, least);
      forall n | Needed(n) in least ensures n in env {
        NeededNamesIff(facts, n);
      }
    }
  }
}
