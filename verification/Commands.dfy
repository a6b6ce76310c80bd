/** Command lookup by longest token prefix, structured subcommands, and help-topic aliases. */
module Commands {
  import opened Wrappers
  import Text

  type Tokens = seq<string>

  function LowerAll(words: Tokens): (r: Tokens)
    ensures |r| == |words|
    ensures forall i :: 0 <= i < |words| ==> r[i] == Text.Lower(words[i])
  {
    seq(|words|, i requires 0 <= i < |words| => Text.Lower(words[i]))
  }

  /** `command_tokens` on a string. */
  function TokensOf(text: string): Tokens {
    Text.Split(Text.Lower(text))
  }

  /** `resolve_longest_command`: the longest registered prefix, and the remaining words as written. */
  method ResolveLongest<C>(text: string, commands: map<Tokens, C>) returns (found: Option<C>, rest: Tokens)
    ensures var parts := Text.Split(text); var n := |parts| - |rest|;
      && 0 <= n && rest == parts[n..]
      && (found.Some? ==> 0 < n && LowerAll(parts)[..n] in commands && found.value == commands[LowerAll(parts)[..n]])
      && (found.None? ==> n == 0)
      && forall k :: n < k <= |parts| ==> LowerAll(parts)[..k] !in commands
  {
    var parts := Text.Split(text);
    var normalized := LowerAll(parts);
    var k := |parts|;
    while k > 0
      invariant 0 <= k <= |parts|
      invariant forall j :: k < j <= |parts| ==> normalized[..j] !in commands
    {
      if normalized[..k] in commands {
        return Some(commands[normalized[..k]]), parts[k..];
      }
      k := k - 1;
    }
    return None, parts;
  }

  // ----- Structured subcommands -----

  /** A subcommand's invocation names: its name first, then its aliases. */
  datatype Subcommand<S> = Subcommand(names: seq<string>, value: S)

  datatype Command<C, S> = Command(key: Tokens, value: C, subcommands: seq<Subcommand<S>>)

  /** One way to invoke a subcommand. */
  datatype Candidate<C, S> = Candidate(key: Tokens, rootLength: nat, command: C, subcommand: S)

  predicate StartsWith(s: string, prefix: string) {
    |prefix| <= |s| && s[..|prefix|] == prefix
  }

  /** Documentation placeholders are not literal command tokens. */
  predicate IsPlaceholder(token: string) {
    StartsWith(token, "<") || StartsWith(token, "[") || StartsWith(token, "{") || StartsWith(token, "...")
  }

  predicate Invocable(name: Tokens) {
    name != [] && !IsPlaceholder(name[0])
  }

  function FromNames<C, S>(root: Tokens, command: C, names: seq<string>, value: S): seq<Candidate<C, S>> {
    if names == [] then []
    else
      var n := |names| - 1;
      var parts := TokensOf(names[n]);
      FromNames(root, command, names[..n], value) +
      if Invocable(parts) then [Candidate(root + parts, |root|, command, value)] else []
  }

  function FromSubcommands<C, S>(root: Tokens, command: C, subs: seq<Subcommand<S>>): seq<Candidate<C, S>> {
    if subs == [] then []
    else
      var n := |subs| - 1;
      FromSubcommands(root, command, subs[..n]) + FromNames(root, command, subs[n].names, subs[n].value)
  }

  /** All candidates, in iteration order: commands, then subcommands, then names. */
  function Candidates<C, S>(commands: seq<Command<C, S>>): seq<Candidate<C, S>> {
    if commands == [] then []
    else
      var n := |commands| - 1;
      var root := LowerAll(commands[n].key);
      Candidates(commands[..n]) + if root == [] then [] else FromSubcommands(root, commands[n].value, commands[n].subcommands)
  }

  /** The index entry for `key`: the first candidate with that key and the longest root. */
  ghost predicate IsEntry<C, S>(all: seq<Candidate<C, S>>, key: Tokens, p: nat) {
    && p < |all| && all[p].key == key
    && forall q :: 0 <= q < |all| && all[q].key == key ==>
         all[q].rootLength < all[p].rootLength || (all[q].rootLength == all[p].rootLength && p <= q)
  }

  /** The two dictionaries of the builder after some candidates: for each key its best candidate so far. */
  ghost predicate Indexed<C, S>(all: seq<Candidate<C, S>>, index: map<Tokens, (C, S)>, rootLengths: map<Tokens, nat>) {
    && index.Keys == rootLengths.Keys
    && (forall p :: 0 <= p < |all| ==> all[p].key in index)
    && (forall key :: key in index ==> Recorded(all, index, rootLengths, key))
  }

  ghost predicate Recorded<C, S>(all: seq<Candidate<C, S>>, index: map<Tokens, (C, S)>, rootLengths: map<Tokens, nat>, key: Tokens)
    requires key in index && key in rootLengths
  {
    exists p: nat :: IsEntry(all, key, p) && index[key] == (all[p].command, all[p].subcommand) && rootLengths[key] == all[p].rootLength
  }

  /** A candidate replaces its key's entry only with a strictly longer root. */
  lemma IndexedAppend<C, S>(all: seq<Candidate<C, S>>, index: map<Tokens, (C, S)>, rootLengths: map<Tokens, nat>, c: Candidate<C, S>)
    requires Indexed(all, index, rootLengths) && c.rootLength > 0
    ensures var replaced := c.rootLength > (if c.key in rootLengths then rootLengths[c.key] else 0);
      var index' := if replaced then index[c.key := (c.command, c.subcommand)] else index;
      var roots' := if replaced then rootLengths[c.key := c.rootLength] else rootLengths;
      Indexed(all + [c], index', roots')
  {
    var replaced := c.rootLength > (if c.key in rootLengths then rootLengths[c.key] else 0);
    var index' := if replaced then index[c.key := (c.command, c.subcommand)] else index;
    var roots' := if replaced then rootLengths[c.key := c.rootLength] else rootLengths;
    var all' := all + [c];
    forall key | key in index' ensures Recorded(all', index', roots', key) {
      if key == c.key && replaced {
        assert key in index ==> Recorded(all, index, rootLengths, key);
        assert IsEntry(all', key, |all|);
      } else {
        assert Recorded(all, index, rootLengths, key);
        var p: nat :| IsEntry(all, key, p) && index[key] == (all[p].command, all[p].subcommand) && rootLengths[key] == all[p].rootLength;
        assert all'[p] == all[p];
        assert IsEntry(all', key, p);
      }
    }
  }

  method IndexNames<C, S>(ghost all: seq<Candidate<C, S>>, index0: map<Tokens, (C, S)>, roots0: map<Tokens, nat>,
                          root: Tokens, command: C, names: seq<string>, value: S)
    returns (index: map<Tokens, (C, S)>, rootLengths: map<Tokens, nat>)
    requires Indexed(all, index0, roots0) && root != []
    ensures Indexed(all + FromNames(root, command, names, value), index, rootLengths)
  {
    index, rootLengths := index0, roots0;
    assert all + FromNames(root, command, names[..0], value) == all;
    for k := 0 to |names|
      invariant Indexed(all + FromNames(root, command, names[..k], value), index, rootLengths)
    {
      ghost var before := all + FromNames(root, command, names[..k], value);
      assert names[..k + 1][..k] == names[..k];
      var parts := TokensOf(names[k]);
      if !Invocable(parts) {
        assert FromNames(root, command, names[..k + 1], value) == FromNames(root, command, names[..k], value);
        continue;
      }
      var key := root + parts;
      ghost var c := Candidate(key, |root|, command, value);
      IndexedAppend(before, index, rootLengths, c);
      assert before + [c] == all + FromNames(root, command, names[..k + 1], value);
      if |root| > (if key in rootLengths then rootLengths[key] else 0) {
        index := index[key := (command, value)];
        rootLengths := rootLengths[key := |root|];
      }
    }
    assert names[..|names|] == names;
  }

  lemma SubcommandsStep<C, S>(all: seq<Candidate<C, S>>, root: Tokens, command: C, subs: seq<Subcommand<S>>, k: nat)
    requires k < |subs|
    ensures all + FromSubcommands(root, command, subs[..k + 1])
         == all + FromSubcommands(root, command, subs[..k]) + FromNames(root, command, subs[k].names, subs[k].value)
  {
    assert subs[..k + 1][..k] == subs[..k];
  }

  method IndexSubcommands<C, S>(ghost all: seq<Candidate<C, S>>, index0: map<Tokens, (C, S)>, roots0: map<Tokens, nat>,
                                root: Tokens, command: C, subs: seq<Subcommand<S>>)
    returns (index: map<Tokens, (C, S)>, rootLengths: map<Tokens, nat>)
    requires Indexed(all, index0, roots0) && root != []
    ensures Indexed(all + FromSubcommands(root, command, subs), index, rootLengths)
  {
    index, rootLengths := index0, roots0;
    assert all + FromSubcommands(root, command, subs[..0]) == all;
    for k := 0 to |subs|
      invariant Indexed(all + FromSubcommands(root, command, subs[..k]), index, rootLengths)
    {
      ghost var before := all + FromSubcommands(root, command, subs[..k]);
      index, rootLengths := IndexNames(before, index, rootLengths, root, command, subs[k].names, subs[k].value);
      SubcommandsStep(all, root, command, subs, k);
    }
    assert subs[..|subs|] == subs;
  }

  method BuildIndex<C, S>(commands: seq<Command<C, S>>) returns (index: map<Tokens, (C, S)>, rootLengths: map<Tokens, nat>)
    ensures Indexed(Candidates(commands), index, rootLengths)
  {
    index, rootLengths := map[], map[];
    for k := 0 to |commands|
      invariant Indexed(Candidates(commands[..k]), index, rootLengths)
    {
      assert commands[..k + 1][..k] == commands[..k];
      var root := LowerAll(commands[k].key);
      if root == [] {
        assert Candidates(commands[..k + 1]) == Candidates(commands[..k]);
        continue;
      }
      index, rootLengths := IndexSubcommands(Candidates(commands[..k]), index, rootLengths, root, commands[k].value, commands[k].subcommands);
    }
    assert commands[..|commands|] == commands;
  }

  /** The candidate's tokens are a prefix of the topic's. */
  predicate Matches<C, S>(c: Candidate<C, S>, topic: Tokens) {
    |c.key| <= |topic| && topic[..|c.key|] == c.key
  }

  /** The longest match, then the longest registered root, then the first in iteration order. */
  ghost predicate IsBest<C, S>(all: seq<Candidate<C, S>>, topic: Tokens, p: nat) {
    && p < |all| && Matches(all[p], topic)
    && forall q :: 0 <= q < |all| && Matches(all[q], topic) ==>
         || |all[q].key| < |all[p].key|
         || (|all[q].key| == |all[p].key| && all[q].rootLength < all[p].rootLength)
         || (|all[q].key| == |all[p].key| && all[q].rootLength == all[p].rootLength && p <= q)
  }

  /** The p-th candidate is the best match; the rest are the words after it, as written. */
  ghost predicate Answers<C, S>(all: seq<Candidate<C, S>>, parts: Tokens, p: nat, value: (C, S), rest: Tokens) {
    && IsBest(all, LowerAll(parts), p) && value == (all[p].command, all[p].subcommand)
    && rest == parts[|all[p].key|..] && LowerAll(parts[..|all[p].key|]) == all[p].key
  }

  // ----- Invocations, read off the registered commands -----

  /** Which command, which of its subcommands, and which of its names. */
  datatype Place = Place(command: nat, sub: nat, name: nat)

  predicate Exists<C, S>(commands: seq<Command<C, S>>, at: Place) {
    && at.command < |commands| && at.sub < |commands[at.command].subcommands|
    && at.name < |commands[at.command].subcommands[at.sub].names|
  }

  predicate Earlier(a: Place, b: Place) {
    || a.command < b.command
    || (a.command == b.command && a.sub < b.sub)
    || (a.command == b.command && a.sub == b.sub && a.name < b.name)
  }

  /** The words that call the subcommand by this name: those of the command, then those of the name, in lower case. */
  ghost predicate Invokes<C, S>(commands: seq<Command<C, S>>, at: Place, words: Tokens) {
    && Exists(commands, at) && commands[at.command].key != []
    && var root, name := commands[at.command].key, Text.Split(Text.Lower(commands[at.command].subcommands[at.sub].names[at.name]));
      && name != [] && name[0][0] != '<' && name[0][0] != '[' && name[0][0] != '{' && !(|name[0]| >= 3 && name[0][..3] == "...")
      && |words| == |root| + |name| && words[|root|..] == name
      && forall i :: 0 <= i < |root| ==> words[i] == Text.Lower(root[i])
  }

  lemma InvokesIff<C, S>(commands: seq<Command<C, S>>, at: Place, words: Tokens)
    requires Exists(commands, at)
    ensures var root, name := LowerAll(commands[at.command].key), TokensOf(commands[at.command].subcommands[at.sub].names[at.name]);
      Invokes(commands, at, words) <==> root != [] && Invocable(name) && words == root + name
  {
    var root, name := LowerAll(commands[at.command].key), TokensOf(commands[at.command].subcommands[at.sub].names[at.name]);
    if name != [] {
      assert Text.IsWord(name[0]);
      assert forall c: char :: StartsWith(name[0], [c]) <==> name[0][0] == c;
      assert "<" == ['<'] && "[" == ['['] && "{" == ['{'];
    }
    if |words| == |root| + |name| {
      assert words == words[..|root|] + words[|root|..];
      assert words[..|root|] == root <==> forall i :: 0 <= i < |root| ==> words[i] == root[i];
    }
  }

  /** The candidates are the invocations at these places, all of them before `end`, in order. */
  ghost predicate Placed<C, S>(commands: seq<Command<C, S>>, all: seq<Candidate<C, S>>, places: seq<Place>, end: Place) {
    && |places| == |all|
    && (forall p :: 0 <= p < |all| ==> PlacedAt(commands, all[p], places[p]) && Earlier(places[p], end))
    && (forall p, q :: 0 <= p < q < |places| ==> Earlier(places[p], places[q]))
    && forall at, words :: Invokes(commands, at, words) && Earlier(at, end) ==> at in places
  }

  ghost predicate PlacedAt<C, S>(commands: seq<Command<C, S>>, c: Candidate<C, S>, at: Place) {
    && Invokes(commands, at, c.key) && c.rootLength == |commands[at.command].key|
    && c.command == commands[at.command].value && c.subcommand == commands[at.command].subcommands[at.sub].value
  }

  /** One more name: a candidate when it can be invoked, and nothing otherwise. */
  lemma PlacedName<C, S>(commands: seq<Command<C, S>>, all: seq<Candidate<C, S>>, places: seq<Place>, at: Place) returns (more: seq<Candidate<C, S>>, placed: seq<Place>)
    requires Exists(commands, at) && Placed(commands, all, places, at) && commands[at.command].key != []
    ensures var c := commands[at.command]; var parts := TokensOf(c.subcommands[at.sub].names[at.name]);
      more == all + if Invocable(parts) then [Candidate(LowerAll(c.key) + parts, |c.key|, c.value, c.subcommands[at.sub].value)] else []
    ensures Placed(commands, more, placed, Place(at.command, at.sub, at.name + 1))
  {
    var c := commands[at.command];
    var parts := TokensOf(c.subcommands[at.sub].names[at.name]);
    var words := LowerAll(c.key) + parts;
    InvokesIff(commands, at, words);
    var next := Place(at.command, at.sub, at.name + 1);
    assert forall other :: Earlier(other, next) <==> Earlier(other, at) || other == at;
    if Invocable(parts) {
      more, placed := all + [Candidate(words, |c.key|, c.value, c.subcommands[at.sub].value)], places + [at];
      forall other, ws | Invokes(commands, other, ws) && Earlier(other, next) ensures other in placed {
        if other != at { assert other in places; }
      }
    } else {
      more, placed := all + [], places;
      forall other, ws | Invokes(commands, other, ws) && Earlier(other, next) ensures other in placed {
        InvokesIff(commands, at, ws);
      }
    }
  }

  lemma PlacedSkip<C, S>(commands: seq<Command<C, S>>, all: seq<Candidate<C, S>>, places: seq<Place>, at: Place, next: Place)
    requires Placed(commands, all, places, at) && forall other :: Earlier(other, at) ==> Earlier(other, next)
    requires forall other :: Earlier(other, next) && !Earlier(other, at) ==> !Exists(commands, other) || commands[other.command].key == []
    ensures Placed(commands, all, places, next)
  {
  }

  /** After the last name of a subcommand comes the first of the next. */
  lemma NextSubcommand<C, S>(commands: seq<Command<C, S>>, all: seq<Candidate<C, S>>, places: seq<Place>, k: nat, m: nat)
    requires k < |commands| && m < |commands[k].subcommands| && Placed(commands, all, places, Place(k, m, |commands[k].subcommands[m].names|))
    ensures Placed(commands, all, places, Place(k, m + 1, 0))
  {
    PlacedSkip(commands, all, places, Place(k, m, |commands[k].subcommands[m].names|), Place(k, m + 1, 0));
  }

  lemma PlacedNames<C, S>(commands: seq<Command<C, S>>, all: seq<Candidate<C, S>>, places: seq<Place>, at: Place, n: nat) returns (more: seq<Candidate<C, S>>, placed: seq<Place>)
    requires at.command < |commands| && at.sub < |commands[at.command].subcommands| && commands[at.command].key != []
    requires at.name == 0 && n <= |commands[at.command].subcommands[at.sub].names| && Placed(commands, all, places, at)
    ensures var c := commands[at.command]; var s := c.subcommands[at.sub];
      more == all + FromNames(LowerAll(c.key), c.value, s.names[..n], s.value)
    ensures Placed(commands, more, placed, Place(at.command, at.sub, n))
  {
    var c := commands[at.command];
    var s := c.subcommands[at.sub];
    if n == 0 {
      more, placed := all + [], places;
    } else {
      var before, was := PlacedNames(commands, all, places, at, n - 1);
      assert s.names[..n][..n - 1] == s.names[..n - 1];
      more, placed := PlacedName(commands, before, was, Place(at.command, at.sub, n - 1));
    }
  }

  lemma PlacedSubcommands<C, S>(commands: seq<Command<C, S>>, all: seq<Candidate<C, S>>, places: seq<Place>, k: nat, m: nat) returns (more: seq<Candidate<C, S>>, placed: seq<Place>)
    requires k < |commands| && commands[k].key != [] && m <= |commands[k].subcommands| && Placed(commands, all, places, Place(k, 0, 0))
    ensures more == all + FromSubcommands(LowerAll(commands[k].key), commands[k].value, commands[k].subcommands[..m])
    ensures Placed(commands, more, placed, Place(k, m, 0))
  {
    more, placed := all + [], places;
    for i := 0 to m
      invariant more == all + FromSubcommands(LowerAll(commands[k].key), commands[k].value, commands[k].subcommands[..i])
      invariant Placed(commands, more, placed, Place(k, i, 0))
    {
      SubcommandsStep(all, LowerAll(commands[k].key), commands[k].value, commands[k].subcommands, i);
      more, placed := PlacedSubcommand(commands, more, placed, k, i);
    }
  }

  lemma PlacedSubcommand<C, S>(commands: seq<Command<C, S>>, all: seq<Candidate<C, S>>, places: seq<Place>, k: nat, m: nat) returns (more: seq<Candidate<C, S>>, placed: seq<Place>)
    requires k < |commands| && commands[k].key != [] && m < |commands[k].subcommands| && Placed(commands, all, places, Place(k, m, 0))
    ensures var sub := commands[k].subcommands[m]; more == all + FromNames(LowerAll(commands[k].key), commands[k].value, sub.names, sub.value)
    ensures Placed(commands, more, placed, Place(k, m + 1, 0))
  {
    var names := commands[k].subcommands[m].names;
    more, placed := PlacedNames(commands, all, places, Place(k, m, 0), |names|);
    assert names[..|names|] == names;
    NextSubcommand(commands, more, placed, k, m);
  }

  lemma PlacedCommands<C, S>(commands: seq<Command<C, S>>, n: nat) returns (places: seq<Place>)
    requires n <= |commands|
    ensures Placed(commands, Candidates(commands[..n]), places, Place(n, 0, 0))
  {
    if n == 0 {
      places := [];
    } else {
      var was := PlacedCommands(commands, n - 1);
      assert commands[..n][..n - 1] == commands[..n - 1];
      var before := Candidates(commands[..n - 1]);
      var subs := commands[n - 1].subcommands;
      if commands[n - 1].key == [] {
        places := was;
        PlacedSkip(commands, before, was, Place(n - 1, 0, 0), Place(n, 0, 0));
      } else {
        var more;
        more, places := PlacedSubcommands(commands, before, was, n - 1, |subs|);
        assert subs[..|subs|] == subs;
        PlacedSkip(commands, more, places, Place(n - 1, |subs|, 0), Place(n, 0, 0));
      }
    }
  }

  /** The invocation at this place begins the topic, whatever the case of its words. */
  ghost predicate Begins<C, S>(commands: seq<Command<C, S>>, at: Place, topic: Tokens, n: nat) {
    n <= |topic| && exists words :: Invokes(commands, at, words) && |words| == n && forall i :: 0 <= i < n ==> words[i] == Text.Lower(topic[i])
  }

  /** The longest invocation that begins the topic, then the longest registered command, then the first registered. */
  ghost predicate Resolves<C, S>(commands: seq<Command<C, S>>, topic: Tokens, at: Place, n: nat) {
    && Exists(commands, at) && Begins(commands, at, topic, n)
    && forall other, m: nat :: Exists(commands, other) && Begins(commands, other, topic, m) ==> m < n || (m == n && Yields(commands, other, at))
  }

  /** Of two invocations by the same words, the one of the longer command wins, and then the one registered first. */
  ghost predicate Yields<C, S>(commands: seq<Command<C, S>>, other: Place, at: Place)
    requires Exists(commands, other) && Exists(commands, at)
  {
    || |commands[other.command].key| < |commands[at.command].key|
    || (|commands[other.command].key| == |commands[at.command].key| && (other == at || Earlier(at, other)))
  }

  lemma BeginsIff<C, S>(commands: seq<Command<C, S>>, all: seq<Candidate<C, S>>, places: seq<Place>, p: nat, topic: Tokens, n: nat)
    requires p < |all| == |places| && PlacedAt(commands, all[p], places[p])
    ensures Begins(commands, places[p], topic, n) <==> n == |all[p].key| && Matches(all[p], LowerAll(topic))
  {
    InvokesIff(commands, places[p], all[p].key);
    forall words | Invokes(commands, places[p], words) ensures words == all[p].key {
      InvokesIff(commands, places[p], words);
    }
    if n == |all[p].key| && n <= |topic| {
      assert LowerAll(topic)[..n] == all[p].key <==> forall i :: 0 <= i < n ==> all[p].key[i] == Text.Lower(topic[i]);
    }
  }

  /** The best candidate is the resolved invocation. */
  lemma BestResolves<C, S>(commands: seq<Command<C, S>>, places: seq<Place>, topic: Tokens, p: nat)
    requires Placed(commands, Candidates(commands), places, Place(|commands|, 0, 0)) && IsBest(Candidates(commands), LowerAll(topic), p)
    ensures Resolves(commands, topic, places[p], |Candidates(commands)[p].key|)
  {
    var all := Candidates(commands);
    BeginsIff(commands, all, places, p, topic, |all[p].key|);
    forall other, m: nat | Exists(commands, other) && Begins(commands, other, topic, m)
      ensures m < |all[p].key| || (m == |all[p].key| && Yields(commands, other, places[p]))
    {
      assert other in places;
      var q :| 0 <= q < |places| && places[q] == other;
      BestYields(commands, all, places, topic, p, q, m);
    }
  }

  lemma BestYields<C, S>(commands: seq<Command<C, S>>, all: seq<Candidate<C, S>>, places: seq<Place>, topic: Tokens, p: nat, q: nat, m: nat)
    requires |places| == |all| && IsBest(all, LowerAll(topic), p) && q < |all|
    requires PlacedAt(commands, all[p], places[p]) && PlacedAt(commands, all[q], places[q]) && (p < q ==> Earlier(places[p], places[q]))
    requires Begins(commands, places[q], topic, m)
    ensures m < |all[p].key| || (m == |all[p].key| && Yields(commands, places[q], places[p]))
  {
    BeginsIff(commands, all, places, q, topic, m);
  }

  lemma NothingBegins<C, S>(commands: seq<Command<C, S>>, places: seq<Place>, topic: Tokens)
    requires Placed(commands, Candidates(commands), places, Place(|commands|, 0, 0))
    ensures (forall q :: 0 <= q < |Candidates(commands)| ==> !Matches(Candidates(commands)[q], LowerAll(topic))) <==>
      forall at, n: nat :: Exists(commands, at) ==> !Begins(commands, at, topic, n)
  {
    var all := Candidates(commands);
    forall at, n: nat | Exists(commands, at) && Begins(commands, at, topic, n) ensures exists q :: 0 <= q < |all| && Matches(all[q], LowerAll(topic)) {
      assert at in places;
      var q :| 0 <= q < |places| && places[q] == at;
      BeginsIff(commands, all, places, q, topic, n);
    }
    forall q | 0 <= q < |all| && Matches(all[q], LowerAll(topic)) ensures exists at, n: nat :: Exists(commands, at) && Begins(commands, at, topic, n) {
      BeginsIff(commands, all, places, q, topic, |all[q].key|);
      assert Exists(commands, places[q]);
    }
  }

  /** The resolved command and subcommand, and the words after the invocation, as written. */
  ghost predicate ResolvedTo<C, S>(commands: seq<Command<C, S>>, topic: Tokens, at: Place, n: nat, found: (C, S), rest: Tokens) {
    && Resolves(commands, topic, at, n) && rest == topic[n..]
    && found == (commands[at.command].value, commands[at.command].subcommands[at.sub].value)
  }

  /** `resolve_structured_subcommand` on the words of a topic. */
  method ResolveStructured<C, S>(words: Tokens, commands: seq<Command<C, S>>)
    returns (found: Option<(C, S)>, rest: Tokens)
    ensures found.None? <==> forall at, n: nat :: Exists(commands, at) ==> !Begins(commands, at, Text.SplitAll(words), n)
    ensures found.None? ==> rest == Text.SplitAll(words)
    ensures found.Some? ==> exists at, n: nat :: ResolvedTo(commands, Text.SplitAll(words), at, n, found.value, rest)
  {
    found, rest := ResolveCandidate(words, commands);
    ghost var topic := Text.SplitAll(words);
    ghost var places := PlacedCommands(commands, |commands|);
    assert commands[..|commands|] == commands;
    NothingBegins(commands, places, topic);
    if found.Some? {
      ghost var p: nat :| Answers(Candidates(commands), topic, p, found.value, rest);
      BestResolves(commands, places, topic, p);
      assert ResolvedTo(commands, topic, places[p], |Candidates(commands)[p].key|, found.value, rest);
    }
  }

  method ResolveCandidate<C, S>(words: Tokens, commands: seq<Command<C, S>>)
    returns (found: Option<(C, S)>, rest: Tokens)
    ensures var all, parts := Candidates(commands), Text.SplitAll(words);
      && (found.None? <==> forall q :: 0 <= q < |all| ==> !Matches(all[q], LowerAll(parts)))
      && (found.None? ==> rest == parts)
      && (found.Some? ==> exists p: nat :: Answers(all, parts, p, found.value, rest))
  {
    var index, rootLengths := BuildIndex(commands);
    Text.SplitJoin(words);
    ghost var all, parts := Candidates(commands), Text.SplitAll(words);
    ghost var topic := LowerAll(parts);
    found, rest := ResolveLongest(Text.Join(words), index);
    ghost var n: nat := |parts| - |rest|;
    forall q | 0 <= q < |all| && Matches(all[q], topic) && |all[q].key| > 0 ensures |all[q].key| <= n {
      assert topic[..|all[q].key|] in index;
    }
    KeysNonEmpty(commands);
    if found.Some? {
      var key := topic[..n];
      assert Recorded(all, index, rootLengths, key);
      ghost var p: nat :| IsEntry(all, key, p) && index[key] == (all[p].command, all[p].subcommand);
      assert Matches(all[p], topic);
      forall q | 0 <= q < |all| && Matches(all[q], topic) && |all[q].key| == n ensures all[q].key == key {
      }
      assert LowerAll(parts[..n]) == topic[..n];
      assert Answers(all, parts, p, found.value, rest);
    }
  }

  lemma {:induction false} NamesNonEmpty<C, S>(root: Tokens, command: C, names: seq<string>, value: S)
    requires root != []
    ensures forall p :: 0 <= p < |FromNames(root, command, names, value)| ==> FromNames(root, command, names, value)[p].key != []
  {
    if names != [] {
      NamesNonEmpty(root, command, names[..|names| - 1], value);
    }
  }

  lemma {:induction false} SubcommandsNonEmpty<C, S>(root: Tokens, command: C, subs: seq<Subcommand<S>>)
    requires root != []
    ensures forall p :: 0 <= p < |FromSubcommands(root, command, subs)| ==> FromSubcommands(root, command, subs)[p].key != []
  {
    if subs != [] {
      var n := |subs| - 1;
      SubcommandsNonEmpty(root, command, subs[..n]);
      NamesNonEmpty(root, command, subs[n].names, subs[n].value);
    }
  }

  lemma {:induction false} KeysNonEmpty<C, S>(commands: seq<Command<C, S>>)
    ensures forall p :: 0 <= p < |Candidates(commands)| ==> Candidates(commands)[p].key != []
  {
    if commands != [] {
      var n := |commands| - 1;
      KeysNonEmpty(commands[..n]);
      var root := LowerAll(commands[n].key);
      if root != [] {
        SubcommandsNonEmpty(root, commands[n].value, commands[n].subcommands);
      }
    }
  }

  /** For a topic given as text, the words are the text's own. */
  lemma TextTopic(topic: string)
    ensures Text.SplitAll(Text.Split(topic)) == Text.Split(topic)
  {
    Text.SplitAllWords(Text.Split(topic));
  }
}
