/** The cooldown rule read off the history of calls, for the bounded cooldown. */
module CooldownHistory {
  import opened Wrappers
  import opened Cooldown

  /** The i-th operation checks the key. */
  predicate Checks(ops: seq<Op>, key: string, i: nat) {
    i < |ops| && ops[i].Check? && ops[i].key == key
  }

  predicate Erases(op: Op, key: string) {
    op.Clear? || (op.Forget? && op.key == key)
  }

  /** The key was allowed at j, and before i it has neither been allowed again nor erased. */
  predicate Reserved(ops: seq<Op>, key: string, limit: nat, j: nat, i: nat)
    requires i <= |ops|
  {
    && j < i && Checks(ops, key, j) && BoundedDecision(ops, j, limit).allowed
    && forall m :: j < m < i ==> !Erases(ops[m], key) && (Checks(ops, key, m) ==> !BoundedDecision(ops, m, limit).allowed)
  }

  /** Denied checks of the key from a on, before b. */
  function DenialsIn(ops: seq<Op>, key: string, limit: nat, a: nat, b: nat): nat
    requires b <= |ops|
  {
    if b <= a then 0
    else DenialsIn(ops, key, limit, a, b - 1) + if Checks(ops, key, b - 1) && !BoundedDecision(ops, b - 1, limit).allowed then 1 else 0
  }

  ghost predicate NeverReserved(ops: seq<Op>, key: string, limit: nat, i: nat)
    requires i <= |ops|
  {
    forall m: nat :: !Reserved(ops, key, limit, m, i)
  }

  /** What is stored for the key after the first i operations, when it was last allowed at j, or never since it was erased. */
  ghost predicate EntryTold(ops: seq<Op>, key: string, limit: nat, i: nat, j: Option<nat>)
    requires i <= |ops|
  {
    var u := RunUnbounded(ops[..i]);
    match j
    case None => key !in u && NeverReserved(ops, key, limit, i)
    case Some(m) =>
      && Reserved(ops, key, limit, m, i) && key in u && u[key].lastAllowed == ops[m].now
      && u[key].suppressed == DenialsIn(ops, key, limit, m + 1, i)
  }

  lemma ReservedOnce(ops: seq<Op>, key: string, limit: nat, j: nat, k: nat, i: nat)
    requires i <= |ops| && Reserved(ops, key, limit, j, i) && Reserved(ops, key, limit, k, i)
    ensures j == k
  {
  }

  lemma StaysUnreserved(ops: seq<Op>, key: string, limit: nat, i: nat, next: nat)
    requires i < |ops| && next == i + 1 && (Erases(ops[i], key) || (NeverReserved(ops, key, limit, i) && !Checks(ops, key, i)))
    ensures NeverReserved(ops, key, limit, next)
  {
    forall m: nat ensures !Reserved(ops, key, limit, m, next) {
      if m < i && !Erases(ops[i], key) {
        assert !Reserved(ops, key, limit, m, i);
      }
    }
  }

  lemma NextUnbounded(ops: seq<Op>, i: nat)
    requires i < |ops|
    ensures RunUnbounded(ops[..i + 1]) == Unbounded(RunUnbounded(ops[..i]), ops[i])
  {
    assert ops[..i + 1][..i] == ops[..i];
  }

  lemma EntryStep(ops: seq<Op>, key: string, limit: nat, i: nat, j: Option<nat>) returns (next: Option<nat>)
    requires limit >= 1 && Recurrent(ops, key, limit) && i < |ops| && EntryTold(ops, key, limit, i, j)
    ensures EntryTold(ops, key, limit, i + 1, next)
  {
    NextUnbounded(ops, i);
    if Checks(ops, key, i) {
      DecisionsAgree(ops, key, limit, i);
    }
    if Erases(ops[i], key) {
      next := None;
      StaysUnreserved(ops, key, limit, i, i + 1);
    } else if Checks(ops, key, i) && BoundedDecision(ops, i, limit).allowed {
      next := Some(i);
    } else {
      next := j;
      if j.None? {
        StaysUnreserved(ops, key, limit, i, i + 1);
      }
    }
  }

  lemma EntryByHistory(ops: seq<Op>, key: string, limit: nat, i: nat) returns (j: Option<nat>)
    requires limit >= 1 && Recurrent(ops, key, limit) && i <= |ops|
    ensures EntryTold(ops, key, limit, i, j)
  {
    j := None;
    for n := 0 to i
      invariant EntryTold(ops, key, limit, n, j)
    {
      j := EntryStep(ops, key, limit, n, j);
    }
  }

  /**
   The rule: a check of a recurrent key is denied exactly when its window is positive and less than that has
   passed since the key was last allowed. Denials in between do not restart the window. A denied check
   reports the denials since then, itself included; an allowed one those since then.
   */
  lemma DeniedIff(ops: seq<Op>, key: string, limit: nat, i: nat)
    requires limit >= 1 && Recurrent(ops, key, limit) && Checks(ops, key, i)
    ensures !BoundedDecision(ops, i, limit).allowed <==>
      ops[i].window > 0.0 && exists j: nat :: Reserved(ops, key, limit, j, i) && ops[i].now - ops[j].now < ops[i].window
    ensures forall j: nat :: Reserved(ops, key, limit, j, i) ==>
      BoundedDecision(ops, i, limit).suppressed == DenialsIn(ops, key, limit, j + 1, i) + if BoundedDecision(ops, i, limit).allowed then 0 else 1
    ensures (forall j: nat :: !Reserved(ops, key, limit, j, i)) ==> BoundedDecision(ops, i, limit) == Decision(true, 0)
  {
    var j := EntryByHistory(ops, key, limit, i);
    DecisionsAgree(ops, key, limit, i);
    if j.Some? {
      forall k: nat | Reserved(ops, key, limit, k, i) ensures k == j.value {
        ReservedOnce(ops, key, limit, k, j.value, i);
      }
    }
  }

  // ----- Recurrence, spelled out -----

  /** The key has been checked, and not erased since. */
  lemma {:induction false} KnownIff(ops: seq<Op>, key: string)
    ensures key in RunUnbounded(ops) <==> exists j: nat :: Checks(ops, key, j) && forall m :: j < m < |ops| ==> !Erases(ops[m], key)
  {
    if ops != [] {
      var n := |ops| - 1;
      var before := ops[..n];
      KnownIff(before, key);
      if j: nat :| Checks(before, key, j) && forall m :: j < m < n ==> !Erases(before[m], key) {
        assert Checks(ops, key, j) && forall m :: j < m < n ==> ops[m] == before[m];
      }
      if j: nat :| Checks(ops, key, j) && forall m :: j < m < |ops| ==> !Erases(ops[m], key) {
        assert j < n ==> Checks(before, key, j) && forall m :: j < m < n ==> ops[m] == before[m];
      }
      assert Checks(ops, key, n) <==> ops[n].Check? && ops[n].key == key;
    }
  }

  /** The other key was checked at j, and since then the key has been neither checked nor erased. */
  predicate SeenSince(ops: seq<Op>, key: string, other: string, j: nat) {
    Checks(ops, other, j) && forall m :: j < m < |ops| ==> !Erases(ops[m], key) && !Checks(ops, key, m)
  }

  lemma SeenSinceStep(ops: seq<Op>, key: string, other: string, j: nat)
    requires ops != []
    ensures var n := |ops| - 1;
      SeenSince(ops, key, other, j) <==>
        if j == n then Checks(ops, other, n) else SeenSince(ops[..n], key, other, j) && !Erases(ops[n], key) && !Checks(ops, key, n)
  {
    var n := |ops| - 1;
    assert forall m :: 0 <= m < n ==> ops[..n][m] == ops[m] && (Checks(ops, key, m) <==> Checks(ops[..n], key, m));
    if j < n && SeenSince(ops, key, other, j) {
      assert !Erases(ops[n], key) && !Checks(ops, key, n);
    }
  }

  /** The other keys since the last check: those checked after it, and after the key was erased. */
  lemma {:induction false} SinceIff(ops: seq<Op>, key: string, other: string)
    ensures other in RunSince(ops, key) <==> other != key && exists j: nat :: SeenSince(ops, key, other, j)
  {
    if ops != [] {
      var n := |ops| - 1;
      SinceIff(ops[..n], key, other);
      forall j: nat {
        SeenSinceStep(ops, key, other, j);
      }
      if other != key && other in RunSince(ops[..n], key) && !Erases(ops[n], key) && !Checks(ops, key, n) {
        var j: nat :| SeenSince(ops[..n], key, other, j);
        assert SeenSince(ops, key, other, j);
      }
      assert Checks(ops, other, n) ==> SeenSince(ops, key, other, n);
    }
  }
}
