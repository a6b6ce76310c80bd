/** The bounded keyed cooldown, and its agreement with an unbounded one. */
module Cooldown {
  import opened Wrappers

  datatype Entry = Entry(lastAllowed: real, suppressed: nat)

  datatype Decision = Decision(allowed: bool, suppressed: nat)

  /** An ordered dictionary: keys from least to most recently touched. */
  datatype State = State(order: seq<string>, entries: map<string, Entry>)

  predicate Distinct(order: seq<string>) {
    forall i, j :: 0 <= i < j < |order| ==> order[i] != order[j]
  }

  predicate Ordered(s: State) {
    Distinct(s.order) && Elements(s.order) == s.entries.Keys
  }

  function Remove(order: seq<string>, key: string): seq<string> {
    if order == [] then []
    else if order[0] == key then order[1..]
    else [order[0]] + Remove(order[1..], key)
  }

  function Touched(s: State, key: string, e: Entry): State {
    State(Remove(s.order, key) + [key], s.entries[key := e])
  }

  /** Drop least recently touched keys until `limit` remain. */
  function Trimmed(s: State, limit: nat): State {
    if |s.order| <= limit then s
    else
      var extra := |s.order| - limit;
      State(s.order[extra..], s.entries - Elements(s.order[..extra]))
  }

  /** What one entry and the clock decide. */
  function Decide(previous: Option<Entry>, now: real, window: real): (Entry, Decision) {
    if previous.Some? && window > 0.0 && now - previous.value.lastAllowed < window then
      var n := previous.value.suppressed + 1;
      (Entry(previous.value.lastAllowed, n), Decision(false, n))
    else
      (Entry(now, 0), Decision(true, if previous.Some? then previous.value.suppressed else 0))
  }

  function Lookup(entries: map<string, Entry>, key: string): Option<Entry> {
    if key in entries then Some(entries[key]) else None
  }

  datatype Op =
    | Check(key: string, now: real, window: real)
    | Forget(key: string)
    | Clear

  /** One operation on the bounded state. */
  function Bounded(s: State, op: Op, limit: nat): State {
    match op
    case Check(key, now, window) =>
      var (e, d) := Decide(Lookup(s.entries, key), now, window);
      if d.allowed then Trimmed(Touched(s, key, e), limit) else Touched(s, key, e)
    case Forget(key) => State(Remove(s.order, key), s.entries - {key})
    case Clear => State([], map[])
  }

  /** The same operation without a bound: one entry per key, forever. */
  function Unbounded(u: map<string, Entry>, op: Op): map<string, Entry> {
    match op
    case Check(key, now, window) => u[key := Decide(Lookup(u, key), now, window).0]
    case Forget(key) => u - {key}
    case Clear => map[]
  }

  /** The other keys checked since `key` was last checked. */
  function Since(others: set<string>, op: Op, key: string): set<string> {
    match op
    case Check(k, _, _) => if k == key then {} else others + {k}
    case Forget(k) => if k == key then {} else others
    case Clear => {}
  }

  // ----- Runs -----

  function RunBounded(ops: seq<Op>, limit: nat): State {
    if ops == [] then State([], map[]) else Bounded(RunBounded(ops[..|ops| - 1], limit), ops[|ops| - 1], limit)
  }

  function RunUnbounded(ops: seq<Op>): map<string, Entry> {
    if ops == [] then map[] else Unbounded(RunUnbounded(ops[..|ops| - 1]), ops[|ops| - 1])
  }

  function RunSince(ops: seq<Op>, key: string): set<string> {
    if ops == [] then {} else Since(RunSince(ops[..|ops| - 1], key), ops[|ops| - 1], key)
  }

  /** Between successive checks of `key` fewer than `limit` other keys are checked. */
  predicate Recurrent(ops: seq<Op>, key: string, limit: nat) {
    forall i :: 0 <= i < |ops| && ops[i].Check? && ops[i].key == key && key in RunUnbounded(ops[..i]) ==>
      |RunSince(ops[..i], key)| < limit
  }

  // ----- Order facts -----

  lemma {:induction false} RemoveElements(order: seq<string>, key: string)
    requires Distinct(order)
    ensures Distinct(Remove(order, key)) && Elements(Remove(order, key)) == Elements(order) - {key}
    ensures |Remove(order, key)| == if key in Elements(order) then |order| - 1 else |order|
  {
    if order != [] {
      var rest := order[1..];
      assert order == [order[0]] + rest;
      ElementsSplit(order[0], rest);
      if order[0] == key {
        DistinctFirst(order);
      } else {
        assert Distinct(rest);
        RemoveElements(rest, key);
        ElementsSplit(order[0], Remove(rest, key));
        DistinctFirst(order);
      }
    }
  }

  lemma ElementsSplit(first: string, rest: seq<string>)
    ensures Elements([first] + rest) == {first} + Elements(rest)
  {
    var all := [first] + rest;
    forall x | x in {first} + Elements(rest) ensures x in Elements(all) {
      if x == first { assert all[0] == x; } else {
        var i :| 0 <= i < |rest| && rest[i] == x;
        assert all[i + 1] == x;
      }
    }
  }

  lemma ElementsOne(x: string)
    ensures Elements([x]) == {x}
  {
    assert [x][0] in Elements([x]);
  }

  lemma DistinctFirst(order: seq<string>)
    requires Distinct(order) && order != []
    ensures order[0] !in Elements(order[1..]) && Distinct(order[1..])
  {
    forall x | x in Elements(order[1..]) ensures x != order[0] {
      var i :| 0 <= i < |order| - 1 && order[1..][i] == x;
      assert order[i + 1] == x;
    }
  }

  lemma ElementsConcat(a: seq<string>, b: seq<string>)
    ensures Elements(a + b) == Elements(a) + Elements(b)
  {
    forall x | x in Elements(a) + Elements(b) ensures x in Elements(a + b) {
      if x in Elements(a) {
        var i :| 0 <= i < |a| && a[i] == x;
        assert (a + b)[i] == x;
      } else {
        var i :| 0 <= i < |b| && b[i] == x;
        assert (a + b)[|a| + i] == x;
      }
    }
  }

  lemma {:induction false} DistinctSize(order: seq<string>)
    requires Distinct(order)
    ensures |Elements(order)| == |order|
  {
    if order == [] {
      assert Elements(order) == {};
    } else {
      var init, last := order[..|order| - 1], order[|order| - 1];
      DistinctSize(init);
      assert order == init + [last];
      ElementsConcat(init, [last]);
      ElementsOne(last);
      assert last !in Elements(init);
    }
  }

  /** The keys touched after `key`. */
  function Behind(order: seq<string>, key: string): set<string> {
    if order == [] then {}
    else if order[0] == key then Elements(order[1..])
    else Behind(order[1..], key)
  }

  lemma {:induction false} BehindRemove(order: seq<string>, key: string, other: string)
    requires Distinct(order) && key in Elements(order) && other != key
    ensures key in Elements(Remove(order, other)) && Behind(Remove(order, other), key) == Behind(order, key) - {other}
  {
    var rest := order[1..];
    assert order == [order[0]] + rest;
    ElementsSplit(order[0], rest);
    assert Distinct(rest);
    RemoveElements(order, other);
    RemoveElements(rest, other);
    if order[0] == key {
      assert Remove(order, other) == [key] + Remove(rest, other);
    } else if order[0] == other {
      assert Behind(rest, key) == Behind(order, key);
      BehindWithin(rest, key);
      DistinctFirst(order);
    } else {
      BehindRemove(rest, key, other);
      assert Remove(order, other) == [order[0]] + Remove(rest, other);
    }
  }

  lemma {:induction false} BehindWithin(order: seq<string>, key: string)
    ensures Behind(order, key) <= Elements(order)
  {
    if order != [] {
      assert order == [order[0]] + order[1..];
      ElementsSplit(order[0], order[1..]);
      BehindWithin(order[1..], key);
    }
  }

  lemma {:induction false} BehindAppend(order: seq<string>, key: string, last: string)
    requires key in Elements(order)
    ensures Behind(order + [last], key) == Behind(order, key) + {last}
  {
    var rest := order[1..];
    assert order == [order[0]] + rest;
    ElementsSplit(order[0], rest);
    assert (order + [last])[1..] == rest + [last];
    if order[0] == key {
      ElementsConcat(rest, [last]);
      ElementsOne(last);
    } else {
      BehindAppend(rest, key, last);
    }
  }

  lemma {:induction false} BehindLast(order: seq<string>, key: string)
    requires key !in Elements(order)
    ensures Behind(order + [key], key) == {}
  {
    if order == [] {
      assert order + [key] == [key];
      assert [key][1..] == [];
    } else {
      assert order == [order[0]] + order[1..];
      ElementsSplit(order[0], order[1..]);
      assert (order + [key])[1..] == order[1..] + [key];
      BehindLast(order[1..], key);
    }
  }

  /** Only a key with at least `limit` keys behind it is trimmed; for the others nothing changes. */
  lemma TrimFacts(s: State, limit: nat, key: string)
    requires Ordered(s) && |s.order| <= limit + 1 && key in s.entries
    ensures var t := Trimmed(s, limit);
      && Ordered(t) && |t.order| <= limit
      && (|Behind(s.order, key)| < limit ==> key in t.entries)
      && (key in t.entries ==> t.entries[key] == s.entries[key] && Behind(t.order, key) == Behind(s.order, key))
  {
    TrimOrdered(s, limit);
    if |s.order| == limit + 1 {
      if s.order[0] == key {
        DistinctFirst(s.order);
        DistinctSize(s.order[1..]);
        assert |Behind(s.order, key)| == limit;
      } else {
        assert Behind(s.order, key) == Behind(s.order[1..], key);
      }
    }
  }

  lemma TrimOrdered(s: State, limit: nat)
    requires Ordered(s) && |s.order| <= limit + 1
    ensures var t := Trimmed(s, limit); Ordered(t) && |t.order| <= limit
    ensures |s.order| == limit + 1 ==> var t := Trimmed(s, limit); t.order == s.order[1..] && t.entries == s.entries - {s.order[0]}
  {
    if |s.order| == limit + 1 {
      var rest := s.order[1..];
      assert s.order == [s.order[0]] + rest;
      ElementsSplit(s.order[0], rest);
      assert Elements(s.order[..1]) == {s.order[0]};
      DistinctFirst(s.order);
    }
  }

  lemma TouchedOrdered(s: State, key: string, e: Entry)
    requires Ordered(s)
    ensures Ordered(Touched(s, key, e))
    ensures |Touched(s, key, e).order| == if key in s.entries then |s.order| else |s.order| + 1
  {
    RemoveElements(s.order, key);
    ElementsConcat(Remove(s.order, key), [key]);
    ElementsOne(key);
  }

  /** Every operation keeps the dictionary ordered and within its limit. */
  lemma StepBounded(s: State, op: Op, limit: nat)
    requires Ordered(s) && |s.order| <= limit
    ensures var t := Bounded(s, op, limit); Ordered(t) && |t.order| <= limit
  {
    match op
    case Check(key, now, window) =>
      var (e, d) := Decide(Lookup(s.entries, key), now, window);
      TouchedOrdered(s, key, e);
      TrimOrdered(Touched(s, key, e), limit);
    case Forget(key) => RemoveElements(s.order, key);
    case Clear => assert Elements<string>([]) == {};
  }

  lemma {:induction false} NeverExceedsLimit(ops: seq<Op>, limit: nat)
    ensures Ordered(RunBounded(ops, limit)) && |RunBounded(ops, limit).order| <= limit
  {
    if ops == [] {
      assert Elements<string>([]) == {};
    } else {
      NeverExceedsLimit(ops[..|ops| - 1], limit);
      StepBounded(RunBounded(ops[..|ops| - 1], limit), ops[|ops| - 1], limit);
    }
  }

  // ----- Agreement -----

  /** As long as `key` has fewer than `limit` others since its last check, its entry is the unbounded one. */
  predicate Agrees(s: State, u: map<string, Entry>, others: set<string>, key: string, limit: nat) {
    && Ordered(s) && |s.order| <= limit
    && (key !in u ==> key !in s.entries)
    && (key in s.entries ==> Behind(s.order, key) <= others)
    && (key in u && |others| < limit ==> key in s.entries && s.entries[key] == u[key])
  }

  lemma OtherCheckAgrees(s: State, u: map<string, Entry>, others: set<string>, key: string, op: Op, limit: nat)
    requires limit >= 1 && Agrees(s, u, others, key, limit) && op.Check? && op.key != key
    ensures Agrees(Bounded(s, op, limit), Unbounded(u, op), others + {op.key}, key, limit)
  {
    StepBounded(s, op, limit);
    SubsetSize(others, others + {op.key});
    var (e, d) := Decide(Lookup(s.entries, op.key), op.now, op.window);
    var t := Touched(s, op.key, e);
    TouchedOrdered(s, op.key, e);
    if key in s.entries {
      BehindRemove(s.order, key, op.key);
      BehindAppend(Remove(s.order, op.key), key, op.key);
      assert Behind(t.order, key) == Behind(s.order, key) + {op.key};
      SubsetSize(Behind(t.order, key), others + {op.key});
      TrimFacts(t, limit, key);
    }
  }

  lemma OwnCheckAgrees(s: State, u: map<string, Entry>, others: set<string>, op: Op, limit: nat)
    requires limit >= 1 && op.Check? && Agrees(s, u, others, op.key, limit) && (op.key in u ==> |others| < limit)
    ensures Agrees(Bounded(s, op, limit), Unbounded(u, op), {}, op.key, limit)
    ensures Lookup(s.entries, op.key) == Lookup(u, op.key)
  {
    OwnCheckRenews(s, op, limit);
  }

  lemma OwnCheckRenews(s: State, op: Op, limit: nat)
    requires limit >= 1 && op.Check? && Ordered(s) && |s.order| <= limit
    ensures var t := Bounded(s, op, limit); Ordered(t) && |t.order| <= limit && op.key in t.entries && Behind(t.order, op.key) == {}
    ensures Bounded(s, op, limit).entries[op.key] == Decide(Lookup(s.entries, op.key), op.now, op.window).0
  {
    StepBounded(s, op, limit);
    var (e, d) := Decide(Lookup(s.entries, op.key), op.now, op.window);
    var t := Touched(s, op.key, e);
    TouchedOrdered(s, op.key, e);
    RemoveElements(s.order, op.key);
    BehindLast(Remove(s.order, op.key), op.key);
    TrimFacts(t, limit, op.key);
  }

  lemma RemovalAgrees(s: State, u: map<string, Entry>, others: set<string>, key: string, op: Op, limit: nat)
    requires limit >= 1 && Agrees(s, u, others, key, limit) && !op.Check?
    ensures Agrees(Bounded(s, op, limit), Unbounded(u, op), Since(others, op, key), key, limit)
  {
    StepBounded(s, op, limit);
    if op.Forget? && op.key != key && key in s.entries {
      BehindRemove(s.order, key, op.key);
    }
  }

  lemma {:induction false} RunsAgree(ops: seq<Op>, key: string, limit: nat)
    requires limit >= 1 && Recurrent(ops, key, limit)
    ensures Agrees(RunBounded(ops, limit), RunUnbounded(ops), RunSince(ops, key), key, limit)
  {
    if ops == [] {
      assert Elements<string>([]) == {};
    } else {
      var n := |ops| - 1;
      var before, op := ops[..n], ops[n];
      assert forall i :: 0 <= i < n ==> before[..i] == ops[..i];
      RunsAgree(before, key, limit);
      var s, u, others := RunBounded(before, limit), RunUnbounded(before), RunSince(before, key);
      if op.Check? && op.key == key {
        OwnCheckAgrees(s, u, others, op, limit);
      } else if op.Check? {
        OtherCheckAgrees(s, u, others, key, op, limit);
      } else {
        RemovalAgrees(s, u, others, key, op, limit);
      }
    }
  }

  /** The decision of the i-th operation, a check, in the bounded and in the unbounded run. */
  function BoundedDecision(ops: seq<Op>, i: nat, limit: nat): Decision
    requires i < |ops| && ops[i].Check?
  {
    Decide(Lookup(RunBounded(ops[..i], limit).entries, ops[i].key), ops[i].now, ops[i].window).1
  }

  function UnboundedDecision(ops: seq<Op>, i: nat): Decision
    requires i < |ops| && ops[i].Check?
  {
    Decide(Lookup(RunUnbounded(ops[..i]), ops[i].key), ops[i].now, ops[i].window).1
  }

  /** Every decision and every reported count for a recurrent key equals the unbounded model's. */
  lemma DecisionsAgree(ops: seq<Op>, key: string, limit: nat, i: nat)
    requires limit >= 1 && Recurrent(ops, key, limit) && i < |ops| && ops[i].Check? && ops[i].key == key
    ensures BoundedDecision(ops, i, limit) == UnboundedDecision(ops, i)
  {
    assert forall j :: 0 <= j < i ==> ops[..i][..j] == ops[..j];
    RunsAgree(ops[..i], key, limit);
  }

  // ----- When exactly a key is evicted -----

  predicate ChecksOnly(ops: seq<Op>) {
    forall i :: 0 <= i < |ops| ==> ops[i].Check?
  }

  /** Without forgetting, a checked key is still held exactly while fewer than `limit` others were checked since. */
  lemma {:induction false} HeldIff(ops: seq<Op>, key: string, limit: nat)
    requires limit >= 1 && ChecksOnly(ops)
    ensures var s := RunBounded(ops, limit);
      && (key in s.entries ==> Behind(s.order, key) == RunSince(ops, key))
      && (key in s.entries <==> key in RunUnbounded(ops) && |RunSince(ops, key)| < limit)
  {
    NeverExceedsLimit(ops, limit);
    var final := RunBounded(ops, limit);
    if ops != [] {
      var n := |ops| - 1;
      var before, op := ops[..n], ops[n];
      HeldIff(before, key, limit);
      NeverExceedsLimit(before, limit);
      var s := RunBounded(before, limit);
      if op.key == key {
        OwnCheckRenews(s, op, limit);
      } else {
        OtherCheckHeld(s, RunUnbounded(before), RunSince(before, key), key, op, limit);
      }
    }
  }

  lemma OtherCheckHeld(s: State, u: map<string, Entry>, others: set<string>, key: string, op: Op, limit: nat)
    requires limit >= 1 && Ordered(s) && |s.order| <= limit && op.Check? && op.key != key
    requires key in s.entries ==> Behind(s.order, key) == others
    requires key in s.entries <==> key in u && |others| < limit
    ensures var t := Bounded(s, op, limit);
      && (key in t.entries ==> Behind(t.order, key) == others + {op.key})
      && (key in t.entries <==> key in u && |others + {op.key}| < limit)
  {
    SubsetSize(others, others + {op.key});
    var (e, d) := Decide(Lookup(s.entries, op.key), op.now, op.window);
    var t := Touched(s, op.key, e);
    TouchedOrdered(s, op.key, e);
    if key in s.entries {
      OtherTouched(s, key, op.key, e);
      HeldThroughTrim(t, limit, key);
    }
  }

  lemma OtherTouched(s: State, key: string, other: string, e: Entry)
    requires Ordered(s) && key in s.entries && other != key
    ensures key in Touched(s, other, e).entries && Behind(Touched(s, other, e).order, key) == Behind(s.order, key) + {other}
  {
    BehindRemove(s.order, key, other);
    BehindAppend(Remove(s.order, other), key, other);
  }

  /** Trimming keeps a key exactly when fewer than `limit` others were touched after it. */
  lemma HeldThroughTrim(t: State, limit: nat, key: string)
    requires limit >= 1 && Ordered(t) && |t.order| <= limit + 1 && key in t.entries
    ensures var u := Trimmed(t, limit);
      && (key in u.entries <==> |Behind(t.order, key)| < limit)
      && (key in u.entries ==> Behind(u.order, key) == Behind(t.order, key))
      && (|t.order| <= limit ==> key in u.entries)
  {
    TrimFacts(t, limit, key);
    BehindSmaller(t.order, key);
    BehindSmaller(Trimmed(t, limit).order, key);
  }

  lemma {:induction false} BehindSmaller(order: seq<string>, key: string)
    requires Distinct(order)
    ensures key in Elements(order) ==> |Behind(order, key)| < |order|
  {
    if order != [] {
      var rest := order[1..];
      assert order == [order[0]] + rest;
      ElementsSplit(order[0], rest);
      assert Distinct(rest);
      DistinctSize(rest);
      BehindSmaller(rest, key);
    }
  }

  // ----- Accounting -----

  predicate ForgetsNot(ops: seq<Op>, key: string) {
    forall i :: 0 <= i < |ops| ==> !ops[i].Clear? && !(ops[i].Forget? && ops[i].key == key)
  }

  function Denials(ops: seq<Op>, key: string, limit: nat): nat {
    if ops == [] then 0
    else
      var n := |ops| - 1;
      Denials(ops[..n], key, limit) +
      if ops[n].Check? && ops[n].key == key && !BoundedDecision(ops, n, limit).allowed then 1 else 0
  }

  function Reported(ops: seq<Op>, key: string, limit: nat): nat {
    if ops == [] then 0
    else
      var n := |ops| - 1;
      Reported(ops[..n], key, limit) +
      if ops[n].Check? && ops[n].key == key && BoundedDecision(ops, n, limit).allowed then BoundedDecision(ops, n, limit).suppressed else 0
  }

  function Stored(u: map<string, Entry>, key: string): nat {
    if key in u then u[key].suppressed else 0
  }

  /** No denial is lost: each is reported at a later allowed check or still stored. */
  lemma {:induction false} DenialsAccounted(ops: seq<Op>, key: string, limit: nat)
    requires limit >= 1 && Recurrent(ops, key, limit) && ForgetsNot(ops, key)
    ensures Denials(ops, key, limit) == Reported(ops, key, limit) + Stored(RunUnbounded(ops), key)
    ensures |RunSince(ops, key)| < limit ==>
      Denials(ops, key, limit) == Reported(ops, key, limit) + Stored(RunBounded(ops, limit).entries, key)
  {
    RunsAgree(ops, key, limit);
    DenialsStored(ops, key, limit);
  }

  lemma {:induction false} DenialsStored(ops: seq<Op>, key: string, limit: nat)
    requires limit >= 1 && Recurrent(ops, key, limit) && ForgetsNot(ops, key)
    ensures Denials(ops, key, limit) == Reported(ops, key, limit) + Stored(RunUnbounded(ops), key)
  {
    if ops != [] {
      var n := |ops| - 1;
      assert forall i :: 0 <= i < n ==> ops[..n][..i] == ops[..i];
      DenialsStored(ops[..n], key, limit);
      if ops[n].Check? && ops[n].key == key {
        DecisionsAgree(ops, key, limit, n);
      }
    }
  }

  /** A check, field by field: a denial keeps the time of the last allowed check. */
  lemma RoomForOne(s: State, key: string, now: real, window: real, limit: nat)
    requires Ordered(s) && |s.order| < limit
    ensures Bounded(s, Op.Check(key, now, window), limit).entries.Keys == s.entries.Keys + {key}
  {
    var (e, d) := Decide(Lookup(s.entries, key), now, window);
    RemoveElements(s.order, key);
    assert |Touched(s, key, e).order| <= limit;
  }

  /** A check in fields: denied within the window of the last allowed one, whose time a denial keeps while it counts. */
  predicate CheckIs(s: State, t: State, key: string, now: real, window: real, maxKeys: int, d: Decision) {
    && (d.allowed <==> !(key in s.entries && window > 0.0 && now - s.entries[key].lastAllowed < window))
    && key in t.entries && t.entries[key].lastAllowed == (if d.allowed then now else s.entries[key].lastAllowed)
    && t.entries[key].suppressed == (if d.allowed then 0 else s.entries[key].suppressed + 1)
    && d.suppressed == (if !d.allowed then t.entries[key].suppressed else if key in s.entries then s.entries[key].suppressed else 0)
    && |t.order| <= (if maxKeys < 1 then 1 else maxKeys)
    && (|s.order| < maxKeys ==> t.entries.Keys == s.entries.Keys + {key})
  }

  lemma CheckInFields(s: State, key: string, now: real, asked: real, window: real, maxKeys: int)
    requires Ordered(s) && |s.order| <= Max(1, maxKeys) && window == if asked < 0.0 then 0.0 else asked
    ensures CheckIs(s, Bounded(s, Op.Check(key, now, window), Max(1, maxKeys)), key, now, asked, maxKeys, Decide(Lookup(s.entries, key), now, window).1)
  {
    var limit := Max(1, maxKeys);
    StepBounded(s, Op.Check(key, now, window), limit);
    if |s.order| < limit {
      RoomForOne(s, key, now, window, limit);
    }
    OwnCheckRenews(s, Op.Check(key, now, window), limit);
  }

  // ----- The class -----

  class KeyedCooldown {
    const cooldownSeconds: real
    const maxKeys: int
    var order: seq<string>
    var entries: map<string, Entry>

    ghost function Contents(): State
      reads this
    {
      State(order, entries)
    }

    function Limit(): nat {
      Max(1, maxKeys)
    }

    ghost predicate Valid()
      reads this
    {
      Ordered(Contents()) && |order| <= Limit()
    }

    constructor (cooldownSeconds: real, maxKeys: int)
      ensures Valid() && Contents() == State([], map[])
      ensures this.cooldownSeconds == cooldownSeconds && this.maxKeys == maxKeys
    {
      this.cooldownSeconds := cooldownSeconds;
      this.maxKeys := maxKeys;
      order, entries := [], map[];
      assert Elements<string>([]) == {};
    }

    /** The window in force: the caller's or the configured one, never negative. */
    function Window(override: Option<real>): real {
      var w := override.GetOr(cooldownSeconds);
      if w < 0.0 then 0.0 else w
    }

    method Check(key: string, now: real, override: Option<real>) returns (d: Decision)
      requires Valid()
      modifies this
      ensures Valid()
      ensures Contents() == Bounded(old(Contents()), Op.Check(key, now, Window(override)), Limit())
      ensures d == Decide(Lookup(old(entries), key), now, Window(override)).1
      ensures CheckIs(old(Contents()), Contents(), key, now, override.GetOr(cooldownSeconds), maxKeys, d)
    {
      var window := Window(override);
      ghost var before := Contents();
      StepBounded(before, Op.Check(key, now, window), Limit());
      CheckInFields(before, key, now, override.GetOr(cooldownSeconds), window, maxKeys);
      var suppressed: nat := 0;
      if key in entries {
        var previous := entries[key];
        suppressed := previous.suppressed;
        if window != 0.0 && now - previous.lastAllowed < window {
          suppressed := suppressed + 1;
          entries := entries[key := Entry(previous.lastAllowed, suppressed)];
          order := Remove(order, key) + [key];
          return Decision(false, suppressed);
        }
      }
      TouchedOrdered(before, key, Entry(now, 0));
      entries := entries[key := Entry(now, 0)];
      order := Remove(order, key) + [key];
      Trim();
      d := Decision(true, suppressed);
    }

    method Trim()
      requires Ordered(Contents()) && |order| <= Limit() + 1
      modifies this
      ensures Contents() == Trimmed(old(Contents()), Limit())
    {
      ghost var before := Contents();
      TrimOrdered(before, Limit());
      while |order| > Limit()
        invariant Contents() == before || (Contents() == Trimmed(before, Limit()) && |order| == Limit())
        decreases |order|
      {
        entries := entries - {order[0]};
        order := order[1..];
      }
    }

    method Forget(key: string)
      requires Valid()
      modifies this
      ensures Valid() && Contents() == Bounded(old(Contents()), Op.Forget(key), Limit())
      ensures entries == old(entries) - {key}
    {
      StepBounded(Contents(), Op.Forget(key), Limit());
      order := Remove(order, key);
      entries := entries - {key};
    }

    method Clear()
      modifies this
      ensures Valid() && Contents() == State([], map[])
    {
      order, entries := [], map[];
      assert Elements<string>([]) == {};
    }
  }
}
