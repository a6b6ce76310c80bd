/** Help-topic aliases: a longest-prefix rewriting and when it terminates. */
module HelpAliases {
  import opened Wrappers
  import opened Commands
  import Text

  type Aliases = map<string, string>

  /** The largest `k <= n` whose first k tokens, joined, are an alias; 0 when there is none. */
  function LongestAlias(parts: Tokens, aliases: Aliases, n: nat): (k: nat)
    requires n <= |parts|
    ensures k <= n
    ensures k > 0 ==> Text.Join(parts[..k]) in aliases
    ensures forall j :: k < j <= n ==> Text.Join(parts[..j]) !in aliases
  {
    if n == 0 then 0 else if Text.Join(parts[..n]) in aliases then n else LongestAlias(parts, aliases, n - 1)
  }

  /** One rewrite, or None for a normal form. */
  function Rewrite(parts: Tokens, aliases: Aliases): Option<Tokens> {
    var k := LongestAlias(parts, aliases, |parts|);
    if k == 0 then None else Some(TokensOf(aliases[Text.Join(parts[..k])]) + parts[k..])
  }

  function Times<T>(f: T -> Option<T>, x: T, n: nat): Option<T> {
    if n == 0 then Some(x)
    else
      var y := Times(f, x, n - 1);
      if y.None? then None else f(y.value)
  }

  lemma {:induction false} TimesAdds<T>(f: T -> Option<T>, x: T, m: nat, n: nat)
    requires Times(f, x, m).Some?
    ensures Times(f, Times(f, x, m).value, n) == Times(f, x, m + n)
  {
    if n > 0 {
      TimesAdds(f, x, m, n - 1);
    }
  }

  function Rewriter(aliases: Aliases): Tokens -> Option<Tokens> {
    (parts: Tokens) => Rewrite(parts, aliases)
  }

  /** The n-th rewriting, while there is one. */
  function Iterated(parts: Tokens, aliases: Aliases, n: nat): Option<Tokens> {
    Times(Rewriter(aliases), parts, n)
  }

  lemma IteratedAdds(parts: Tokens, aliases: Aliases, m: nat, n: nat)
    requires Iterated(parts, aliases, m).Some?
    ensures Iterated(Iterated(parts, aliases, m).value, aliases, n) == Iterated(parts, aliases, m + n)
  {
    TimesAdds(Rewriter(aliases), parts, m, n);
  }

  lemma IteratedNext(parts: Tokens, aliases: Aliases, n: nat)
    ensures var before := Iterated(parts, aliases, n);
      Iterated(parts, aliases, n + 1) == if before.None? then None else Rewrite(before.value, aliases)
  {
  }

  /** No prefix is an alias. */
  predicate Normal(parts: Tokens, aliases: Aliases) {
    forall k :: 0 < k <= |parts| ==> Text.Join(parts[..k]) !in aliases
  }

  lemma NormalIff(parts: Tokens, aliases: Aliases)
    ensures Normal(parts, aliases) <==> Rewrite(parts, aliases).None?
  {
  }

  /** The first `k` tokens are an alias, and no longer prefix is. */
  predicate LongestAt(parts: Tokens, aliases: Aliases, k: nat) {
    0 < k <= |parts| && Text.Join(parts[..k]) in aliases && forall j :: k < j <= |parts| ==> Text.Join(parts[..j]) !in aliases
  }

  /** A rewriting puts the words of the target in place of the longest prefix that is an alias. */
  lemma RewriteIff(parts: Tokens, aliases: Aliases, r: Tokens)
    ensures Rewrite(parts, aliases) == Some(r) <==>
      exists k: nat :: LongestAt(parts, aliases, k) && r == Text.Split(Text.Lower(aliases[Text.Join(parts[..k])])) + parts[k..]
  {
    var k := LongestAlias(parts, aliases, |parts|);
    assert k > 0 ==> LongestAt(parts, aliases, k);
    forall j: nat | LongestAt(parts, aliases, j) ensures j == k {
    }
  }

  /** Rewriting comes back to these tokens. */
  ghost predicate OnCycle(parts: Tokens, aliases: Aliases) {
    exists m: nat :: m > 0 && Iterated(parts, aliases, m) == Some(parts)
  }

  // ----- The condition under which rewriting terminates -----

  /** No alias target has more tokens than its alias. */
  predicate NonGrowing(aliases: Aliases) {
    forall key :: key in aliases ==> |TokensOf(aliases[key])| <= |Text.Split(key)|
  }

  /** Tokens counted after splitting; a token without words still counts one. */
  function Weight(parts: Tokens): nat {
    if parts == [] then 0 else Max(1, |Text.Split(parts[0])|) + Weight(parts[1..])
  }

  lemma {:induction false} WeightBounds(parts: Tokens)
    ensures |parts| <= Weight(parts) && |Text.SplitAll(parts)| <= Weight(parts)
  {
    if parts != [] {
      WeightBounds(parts[1..]);
    }
  }

  lemma {:induction false} WeightConcat(a: Tokens, b: Tokens)
    ensures Weight(a + b) == Weight(a) + Weight(b)
  {
    if a == [] {
      assert a + b == b;
    } else {
      assert (a + b)[1..] == a[1..] + b;
      WeightConcat(a[1..], b);
    }
  }

  lemma {:induction false} WeightOfWords(words: Tokens)
    requires forall i :: 0 <= i < |words| ==> Text.IsWord(words[i])
    ensures Weight(words) == |words|
  {
    if words != [] {
      Text.SplitWord(words[0]);
      WeightOfWords(words[1..]);
    }
  }

  lemma RewriteShrinks(parts: Tokens, aliases: Aliases)
    requires NonGrowing(aliases) && Rewrite(parts, aliases).Some?
    ensures Weight(Rewrite(parts, aliases).value) <= Weight(parts)
  {
    var k := LongestAlias(parts, aliases, |parts|);
    var key := Text.Join(parts[..k]);
    var target := TokensOf(aliases[key]);
    assert parts == parts[..k] + parts[k..];
    WeightConcat(parts[..k], parts[k..]);
    WeightConcat(target, parts[k..]);
    WeightOfWords(target);
    Text.SplitJoin(parts[..k]);
    WeightBounds(parts[..k]);
  }

  // ----- The finite space of token sequences -----

  function Vocabulary(parts: Tokens, aliases: Aliases): set<string> {
    Elements(parts) + set key, w | key in aliases && w in Elements(TokensOf(aliases[key])) :: w
  }

  /** All sequences of at most `n` words of a vocabulary. */
  function Sequences(vocabulary: set<string>, n: nat): set<Tokens> {
    if n == 0 then {[]}
    else Sequences(vocabulary, n - 1) + set s, w | s in Sequences(vocabulary, n - 1) && w in vocabulary :: s + [w]
  }

  lemma {:induction false} SequencesContain(vocabulary: set<string>, n: nat, s: Tokens)
    requires |s| <= n && Elements(s) <= vocabulary
    ensures s in Sequences(vocabulary, n)
  {
    if n > 0 {
      if |s| < n {
        SequencesContain(vocabulary, n - 1, s);
      } else {
        var init, last := s[..n - 1], s[n - 1];
        assert forall i :: 0 <= i < n - 1 ==> init[i] == s[i];
        SequencesContain(vocabulary, n - 1, init);
        assert last in vocabulary && s == init + [last];
      }
    }
  }

  lemma RewriteWithin(parts: Tokens, aliases: Aliases, vocabulary: set<string>)
    requires Elements(parts) <= vocabulary && Rewrite(parts, aliases).Some?
    requires forall key :: key in aliases ==> Elements(TokensOf(aliases[key])) <= vocabulary
    ensures Elements(Rewrite(parts, aliases).value) <= vocabulary
  {
    var k := LongestAlias(parts, aliases, |parts|);
    var target := TokensOf(aliases[Text.Join(parts[..k])]);
    var all := target + parts[k..];
    forall i | 0 <= i < |all| ensures all[i] in vocabulary {
      if i < |target| { assert all[i] in Elements(target); } else { assert all[i] == parts[k + (i - |target|)]; assert all[i] in Elements(parts); }
    }
  }

  lemma VocabularyCovers(parts: Tokens, aliases: Aliases)
    ensures Elements(parts) <= Vocabulary(parts, aliases)
    ensures forall key :: key in aliases ==> Elements(TokensOf(aliases[key])) <= Vocabulary(parts, aliases)
  {
  }

  /** The tokens seen so far: each one rewrites to the next. */
  ghost predicate Trail(trail: seq<Tokens>, start: Tokens, aliases: Aliases) {
    forall i :: 0 <= i < |trail| ==> Iterated(start, aliases, i) == Some(trail[i])
  }

  lemma RevisitIsCycle(trail: seq<Tokens>, start: Tokens, aliases: Aliases, parts: Tokens)
    requires Trail(trail, start, aliases) && Iterated(start, aliases, |trail|) == Some(parts) && parts in trail
    ensures OnCycle(parts, aliases)
  {
    var i :| 0 <= i < |trail| && trail[i] == parts;
    assert Iterated(start, aliases, i) == Some(parts);
    var m := |trail| - i;
    IteratedAdds(start, aliases, i, m);
    assert i + m == |trail|;
    assert Iterated(parts, aliases, m) == Some(parts);
  }

  /** The tokens stay within a finite space fixed by the input. */
  ghost predicate Confined(parts: Tokens, start: Tokens, aliases: Aliases) {
    Elements(parts) <= Vocabulary(start, aliases) && Weight(parts) <= Weight(start)
  }

  ghost function Space(start: Tokens, aliases: Aliases): set<Tokens> {
    Sequences(Vocabulary(start, aliases), Weight(start))
  }

  lemma ConfinedInSpace(parts: Tokens, start: Tokens, aliases: Aliases)
    requires Confined(parts, start, aliases)
    ensures parts in Space(start, aliases)
  {
    WeightBounds(parts);
    SequencesContain(Vocabulary(start, aliases), Weight(start), parts);
  }

  lemma RewriteConfined(parts: Tokens, start: Tokens, aliases: Aliases)
    requires NonGrowing(aliases) && Confined(parts, start, aliases) && Rewrite(parts, aliases).Some?
    ensures Confined(Rewrite(parts, aliases).value, start, aliases)
  {
    RewriteShrinks(parts, aliases);
    VocabularyCovers(start, aliases);
    RewriteWithin(parts, aliases, Vocabulary(start, aliases));
  }

  lemma TrailAppend(trail: seq<Tokens>, start: Tokens, aliases: Aliases, parts: Tokens)
    requires Trail(trail, start, aliases) && Iterated(start, aliases, |trail|) == Some(parts)
    ensures Trail(trail + [parts], start, aliases)
    ensures Iterated(start, aliases, |trail| + 1) == Rewrite(parts, aliases)
  {
  }

  /** The inner search: longest prefixes first. */
  method FindLongest(parts: Tokens, aliases: Aliases) returns (count: nat)
    ensures count == LongestAlias(parts, aliases, |parts|)
  {
    count := |parts|;
    while count > 0 && Text.Join(parts[..count]) !in aliases
      invariant count <= |parts| && LongestAlias(parts, aliases, |parts|) == LongestAlias(parts, aliases, count)
    {
      count := count - 1;
    }
  }

  /** Everything the input can be rewritten to lies in this finite set. */
  ghost predicate Orbit(start: Tokens, aliases: Aliases, space: set<Tokens>) {
    forall n: nat :: Iterated(start, aliases, n).Some? ==> Iterated(start, aliases, n).value in space
  }

  lemma {:induction false} IteratedConfined(start: Tokens, aliases: Aliases, n: nat)
    requires NonGrowing(aliases)
    ensures Iterated(start, aliases, n).Some? ==> Confined(Iterated(start, aliases, n).value, start, aliases)
  {
    VocabularyCovers(start, aliases);
    if n > 0 {
      IteratedConfined(start, aliases, n - 1);
      IteratedNext(start, aliases, n - 1);
      var before := Iterated(start, aliases, n - 1);
      if before.Some? && Rewrite(before.value, aliases).Some? {
        RewriteConfined(before.value, start, aliases);
      }
    }
  }

  /** When no alias target is longer than its alias, rewriting stays within a finite space, from every topic. */
  lemma NonGrowingIsFinite(start: Tokens, aliases: Aliases)
    requires NonGrowing(aliases)
    ensures Orbit(start, aliases, Space(start, aliases))
  {
    forall n: nat | Iterated(start, aliases, n).Some? ensures Iterated(start, aliases, n).value in Space(start, aliases) {
      IteratedConfined(start, aliases, n);
      ConfinedInSpace(Iterated(start, aliases, n).value, start, aliases);
    }
  }

  /** Rewriting has come back to tokens it has been at before. */
  ghost predicate Revisits(start: Tokens, aliases: Aliases, steps: nat) {
    exists i: nat :: i < steps && Iterated(start, aliases, i) == Iterated(start, aliases, steps)
  }

  /** No two of the states before the last are equal. */
  ghost predicate AllNew(start: Tokens, aliases: Aliases, steps: nat) {
    forall i: nat, j: nat :: i < j < steps ==> Iterated(start, aliases, i) != Iterated(start, aliases, j)
  }

  /** The first state that is empty, a normal form, or one seen before. */
  ghost predicate IsEnd(start: Tokens, aliases: Aliases, parts: Tokens, steps: nat) {
    && Iterated(start, aliases, steps) == Some(parts) && AllNew(start, aliases, steps)
    && (parts == [] || Normal(parts, aliases) || (Revisits(start, aliases, steps) && OnCycle(parts, aliases)))
  }

  lemma {:induction false} IteratedSome(start: Tokens, aliases: Aliases, m: nat, n: nat)
    requires m <= n && Iterated(start, aliases, n).Some?
    ensures Iterated(start, aliases, m).Some?
    decreases n
  {
    if m < n {
      IteratedNext(start, aliases, n - 1);
      IteratedSome(start, aliases, m, n - 1);
    }
  }

  lemma EndIsFirst(start: Tokens, aliases: Aliases, p: Tokens, m: nat, q: Tokens, n: nat)
    requires IsEnd(start, aliases, p, m) && IsEnd(start, aliases, q, n)
    ensures n <= m
  {
    if m < n {
      IteratedSome(start, aliases, m + 1, n);
      IteratedNext(start, aliases, m);
      NormalIff(p, aliases);
    }
  }

  /** A topic has at most one answer. */
  lemma EndUnique(start: Tokens, aliases: Aliases, p: Tokens, m: nat, q: Tokens, n: nat)
    requires IsEnd(start, aliases, p, m) && IsEnd(start, aliases, q, n)
    ensures p == q && m == n
  {
    EndIsFirst(start, aliases, p, m, q, n);
    EndIsFirst(start, aliases, q, n, p, m);
  }

  predicate Distinct(trail: seq<Tokens>) {
    forall i, j :: 0 <= i < j < |trail| ==> trail[i] != trail[j]
  }

  lemma TrailEnds(trail: seq<Tokens>, start: Tokens, aliases: Aliases, parts: Tokens)
    requires Trail(trail, start, aliases) && Distinct(trail) && Iterated(start, aliases, |trail|) == Some(parts)
    requires parts == [] || Normal(parts, aliases) || parts in trail
    ensures IsEnd(start, aliases, parts, |trail|)
  {
    forall i: nat, j: nat | i < j < |trail| ensures Iterated(start, aliases, i) != Iterated(start, aliases, j) {
      assert trail[i] != trail[j];
    }
    if parts in trail {
      RevisitIsCycle(trail, start, aliases, parts);
      var i :| 0 <= i < |trail| && trail[i] == parts;
      assert Iterated(start, aliases, i) == Iterated(start, aliases, |trail|);
    }
  }

  // ----- The loop, and when it ends -----

  /** The input has finitely many rewritings. */
  ghost predicate Finite(start: Tokens, aliases: Aliases) {
    exists space: set<Tokens> :: Orbit(start, aliases, space)
  }

  ghost predicate Answered(start: Tokens, aliases: Aliases) {
    exists parts, steps: nat :: IsEnd(start, aliases, parts, steps)
  }

  ghost function StatesUpTo(start: Tokens, aliases: Aliases, n: nat): set<Tokens> {
    set i: nat | i <= n && Iterated(start, aliases, i).Some? :: Iterated(start, aliases, i).value
  }

  lemma SameLater(start: Tokens, aliases: Aliases, i: nat, n: nat, k: nat)
    requires Iterated(start, aliases, n).Some? && Iterated(start, aliases, i) == Iterated(start, aliases, n)
    ensures Iterated(start, aliases, i + k) == Iterated(start, aliases, n + k)
  {
    IteratedAdds(start, aliases, n, k);
    IteratedAdds(start, aliases, i, k);
  }

  /** After a revisit the rewritings repeat: no step leads out of the states seen. */
  lemma {:induction false} RepeatsForever(start: Tokens, aliases: Aliases, i: nat, n: nat, m: nat)
    requires i < n && Iterated(start, aliases, n).Some? && Iterated(start, aliases, i) == Iterated(start, aliases, n)
    requires Iterated(start, aliases, m).Some?
    ensures Iterated(start, aliases, m).value in StatesUpTo(start, aliases, n)
    decreases m
  {
    if m > n {
      SameLater(start, aliases, i, n, m - n);
      RepeatsForever(start, aliases, i, n, i + (m - n));
    }
  }

  lemma EndIsFinite(start: Tokens, aliases: Aliases, parts: Tokens, n: nat)
    requires IsEnd(start, aliases, parts, n)
    ensures Orbit(start, aliases, StatesUpTo(start, aliases, n))
  {
    forall m: nat | Iterated(start, aliases, m).Some? ensures Iterated(start, aliases, m).value in StatesUpTo(start, aliases, n) {
      if m > n {
        IteratedSome(start, aliases, n + 1, m);
        IteratedNext(start, aliases, n);
        NormalIff(parts, aliases);
        var i: nat :| i < n && Iterated(start, aliases, i) == Iterated(start, aliases, n);
        RepeatsForever(start, aliases, i, n, m);
      }
    }
  }

  /** In a finite space the rewriting comes to an end. */
  lemma {:induction false} EndExists(start: Tokens, aliases: Aliases, space: set<Tokens>, trail: seq<Tokens>, parts: Tokens)
    requires Orbit(start, aliases, space) && Elements(trail) <= space
    requires Trail(trail, start, aliases) && Distinct(trail) && Iterated(start, aliases, |trail|) == Some(parts)
    ensures Answered(start, aliases)
    decreases space - Elements(trail)
  {
    if parts == [] || parts in trail || Normal(parts, aliases) {
      TrailEnds(trail, start, aliases, parts);
    } else {
      NormalIff(parts, aliases);
      TrailAppend(trail, start, aliases, parts);
      ElementsAppend(trail, parts);
      assert parts in space && parts !in Elements(trail);
      EndExists(start, aliases, space, trail + [parts], Rewrite(parts, aliases).value);
    }
  }

  /** A topic has an answer exactly when its rewritings are finitely many. */
  lemma AnsweredIffFinite(start: Tokens, aliases: Aliases)
    ensures Answered(start, aliases) <==> Finite(start, aliases)
  {
    if Answered(start, aliases) {
      var parts, steps: nat :| IsEnd(start, aliases, parts, steps);
      EndIsFinite(start, aliases, parts, steps);
    }
    if Finite(start, aliases) {
      var space: set<Tokens> :| Orbit(start, aliases, space);
      EndExists(start, aliases, space, [], start);
    }
  }

  /** The loop's state: the tokens visited are those of the trail, all different, within the space. */
  ghost predicate Walked(start: Tokens, aliases: Aliases, space: set<Tokens>, trail: seq<Tokens>, visited: set<Tokens>, current: Tokens) {
    && Trail(trail, start, aliases) && Distinct(trail) && Iterated(start, aliases, |trail|) == Some(current)
    && (forall p :: p in visited <==> p in trail) && visited <= space
  }

  lemma WalkStep(start: Tokens, aliases: Aliases, space: set<Tokens>, trail: seq<Tokens>, visited: set<Tokens>, current: Tokens)
    requires Orbit(start, aliases, space) && Walked(start, aliases, space, trail, visited, current) && current !in visited
    ensures current in space
    ensures Rewrite(current, aliases).Some? ==>
      Walked(start, aliases, space, trail + [current], visited + {current}, Rewrite(current, aliases).value)
  {
    assert Iterated(start, aliases, |trail|).Some?;
    TrailAppend(trail, start, aliases, current);
  }

  lemma WalkEnds(start: Tokens, aliases: Aliases, space: set<Tokens>, trail: seq<Tokens>, visited: set<Tokens>, current: Tokens)
    requires Walked(start, aliases, space, trail, visited, current)
    requires current == [] || current in visited || Rewrite(current, aliases).None?
    ensures IsEnd(start, aliases, current, |trail|)
  {
    NormalIff(current, aliases);
    TrailEnds(trail, start, aliases, current);
  }

  /**
   `resolve_help_topic` on already lowered tokens. The loop ends with the first rewriting that is empty, a
   normal form, or seen before and so on a rewrite cycle; for a topic without such an answer it does not end.
   */
  method ResolveHelpTopic(start: Tokens, aliases: Aliases) returns (topic: string)
    requires Answered(start, aliases)
    ensures exists parts, steps: nat :: IsEnd(start, aliases, parts, steps) && topic == Text.Join(parts)
  {
    AnsweredIffFinite(start, aliases);
    ghost var space: set<Tokens> :| Orbit(start, aliases, space);
    var current := start;
    var visited: set<Tokens> := {};
    ghost var trail: seq<Tokens> := [];
    while current != [] && current !in visited
      invariant Walked(start, aliases, space, trail, visited, current)
      decreases space - visited
    {
      WalkStep(start, aliases, space, trail, visited, current);
      var count := FindLongest(current, aliases);
      if count == 0 {
        WalkEnds(start, aliases, space, trail, visited, current);
        return Text.Join(current);
      }
      visited, trail := visited + {current}, trail + [current];
      current := TokensOf(aliases[Text.Join(current[..count])]) + current[count..];
    }
    WalkEnds(start, aliases, space, trail, visited, current);
    return Text.Join(current);
  }

  // ----- Aliases that grow for ever -----

  predicate AllWords(parts: Tokens) {
    forall i :: 0 <= i < |parts| ==> Text.IsWord(parts[i])
  }

  /** The alias `key` is replaced by itself and more words, and no longer alias begins with it. */
  predicate Grows(aliases: Aliases, key: Tokens, more: Tokens) {
    && AllWords(key) && AllWords(more) && key != [] && more != []
    && Text.Join(key) in aliases && TokensOf(aliases[Text.Join(key)]) == key + more
    && forall alias :: alias in aliases ==> !(key < Text.Split(alias))
  }

  function Piled(more: Tokens, rest: Tokens, n: nat): (r: Tokens)
    ensures |r| == n * |more| + |rest|
    ensures AllWords(more) && AllWords(rest) ==> AllWords(r)
  {
    if n == 0 then rest else more + Piled(more, rest, n - 1)
  }

  lemma LongestIsKey(aliases: Aliases, key: Tokens, more: Tokens, parts: Tokens)
    requires Grows(aliases, key, more) && AllWords(parts) && key <= parts
    ensures LongestAlias(parts, aliases, |parts|) == |key|
  {
    forall j | |key| < j <= |parts| ensures Text.Join(parts[..j]) !in aliases {
      Text.SplitJoinWords(parts[..j]);
      assert key < parts[..j];
    }
    assert parts[..|key|] == key;
  }

  lemma GrowthStep(aliases: Aliases, key: Tokens, more: Tokens, rest: Tokens)
    requires Grows(aliases, key, more) && AllWords(rest)
    ensures Rewrite(key + rest, aliases) == Some(key + (more + rest))
  {
    var parts := key + rest;
    LongestIsKey(aliases, key, more, parts);
    assert parts[..|key|] == key && parts[|key|..] == rest;
    assert (key + more) + rest == key + (more + rest);
  }

  lemma {:induction false} PiledStates(aliases: Aliases, key: Tokens, more: Tokens, rest: Tokens, n: nat)
    requires Grows(aliases, key, more) && AllWords(rest)
    ensures Iterated(key + rest, aliases, n) == Some(key + Piled(more, rest, n))
  {
    if n > 0 {
      PiledStates(aliases, key, more, rest, n - 1);
      GrowthStep(aliases, key, more, Piled(more, rest, n - 1));
      IteratedNext(key + rest, aliases, n - 1);
    }
  }

  /** A topic that begins with such an alias is rewritten for ever: no state is normal or empty, and no two are equal. */
  lemma GrowingAliasDiverges(aliases: Aliases, key: Tokens, more: Tokens, rest: Tokens, m: nat, n: nat)
    requires Grows(aliases, key, more) && AllWords(rest) && m < n
    ensures !NonGrowing(aliases)
    ensures var a, b := Iterated(key + rest, aliases, m), Iterated(key + rest, aliases, n);
      a.Some? && b.Some? && |a.value| < |b.value| && a.value != [] && !Normal(a.value, aliases)
  {
    Text.SplitJoinWords(key);
    PiledStates(aliases, key, more, rest, m);
    PiledStates(aliases, key, more, rest, n);
    Multiply(m, n, |more|);
    GrowthStep(aliases, key, more, Piled(more, rest, m));
    NormalIff(key + Piled(more, rest, m), aliases);
  }

  lemma Multiply(m: nat, n: nat, k: nat)
    requires m < n && k > 0
    ensures m * k < n * k && m <= m * k
  {
    assert (n - m) * k > 0 && m * (k - 1) >= 0;
  }

  lemma {:induction false} LengthBound(space: set<Tokens>) returns (n: nat)
    ensures forall s :: s in space ==> |s| <= n
    decreases space
  {
    n := 0;
    if space != {} {
      var s := Pick(space);
      var k := LengthBound(space - {s});
      n := Max(|s|, k);
      forall t | t in space ensures |t| <= n {
        assert t == s || t in space - {s};
      }
    }
  }

  /** So no finite space holds its rewritings and it has no answer: the condition on alias lengths cannot be dropped. */
  lemma GrowingHasNoAnswer(aliases: Aliases, key: Tokens, more: Tokens, rest: Tokens)
    requires Grows(aliases, key, more) && AllWords(rest)
    ensures !Finite(key + rest, aliases) && !Answered(key + rest, aliases)
  {
    forall space: set<Tokens> ensures !Orbit(key + rest, aliases, space) {
      GrowsPastSpace(aliases, key, more, rest, space);
    }
    AnsweredIffFinite(key + rest, aliases);
  }

  lemma PiledLength(aliases: Aliases, key: Tokens, more: Tokens, rest: Tokens, n: nat)
    requires Grows(aliases, key, more) && AllWords(rest)
    ensures Iterated(key + rest, aliases, n).Some? && |Iterated(key + rest, aliases, n).value| > n
  {
    PiledStates(aliases, key, more, rest, n);
    Multiply(n, n + 1, |more|);
  }

  lemma GrowsPastSpace(aliases: Aliases, key: Tokens, more: Tokens, rest: Tokens, space: set<Tokens>)
    requires Grows(aliases, key, more) && AllWords(rest)
    ensures !Orbit(key + rest, aliases, space)
  {
    var n := LengthBound(space);
    PiledLength(aliases, key, more, rest, n);
    assert Iterated(key + rest, aliases, n).value !in space;
  }

  /** The simplest of them: `a` for `a a`. */
  lemma DoublingGrows()
    ensures Grows(map["a" := "a a"], ["a"], ["a"])
  {
    var word, aliases := "a", map["a" := "a a"];
    Text.SplitWord(word);
    Text.SplitJoinWords([word, word]);
    assert [word, word][1..] == [word] && [word] + [word] == [word, word];
    assert Text.Join([word, word]) == "a a" && Text.Join([word]) == "a";
    assert Text.Lower("a a") == "a a";
    forall alias | alias in aliases ensures !([word] < Text.Split(alias)) {
      assert alias == word;
    }
  }
}
