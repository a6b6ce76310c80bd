/** The life of a row over whole runs: identity, removal, markers, claims and attempts. */
module OutboxLifecycle {
  import opened Wrappers
  import opened OutboxTable
  import opened OutboxCapacity

  // ----- Identity and removal -----

  predicate SameIdentity(a: Row, b: Row) {
    a.dedupeKey == b.dedupeKey && a.originId == b.originId && a.createdAt == b.createdAt
  }

  lemma StepIdentity(t: Table, op: Op, t': Table, id: int)
    requires WellFormed(t) && Step(t, op, t') && id in t'.rows && id < t.nextId
    ensures id in t.rows && SameIdentity(t.rows[id], t'.rows[id])
  {
  }

  /** While a row exists its identity never changes, and a removed id never comes back. */
  lemma {:induction false} IdentityOverRun(ts: seq<Table>, ops: seq<Op>, i: nat, j: nat, id: int)
    requires Run(ts, ops) && i <= j <= |ops|
    requires id in ts[j].rows && id < ts[i].nextId
    ensures id in ts[i].rows && SameIdentity(ts[i].rows[id], ts[j].rows[id])
    decreases j
  {
    if i < j {
      RunWellFormed(ts, ops, j - 1);
      CounterGrows(ts, ops, i, j - 1);
      assert StepAt(ts, ops, j - 1);
      StepIdentity(ts[j - 1], ops[j - 1], ts[j], id);
      IdentityOverRun(ts, ops, i, j - 1, id);
    }
  }

  lemma {:induction false} CounterGrows(ts: seq<Table>, ops: seq<Op>, i: nat, j: nat)
    requires Run(ts, ops) && i <= j <= |ops|
    ensures ts[i].nextId <= ts[j].nextId
    decreases j
  {
    if i < j {
      CounterGrows(ts, ops, i, j - 1);
      RunWellFormed(ts, ops, j - 1);
      assert StepAt(ts, ops, j - 1);
      StepKeepsWellFormed(ts[j - 1], ops[j - 1], ts[j]);
    }
  }

  /** A row disappears exactly when a removal statement names it. */
  lemma RemovalIff(t: Table, op: Op, t': Table, id: int)
    requires WellFormed(t) && Step(t, op, t') && id in t.rows
    ensures id !in t'.rows <==> id in RemovedIds(t, op)
  {
  }

  /** Pruning and `delete_dead` only ever remove dead rows. */
  lemma BulkRemovalOnlyDead(t: Table, op: Op, id: int)
    requires op.DeleteDead? || op.PruneDead?
    requires id in RemovedIds(t, op)
    ensures id in t.rows && t.rows[id].status.Dead?
    ensures op.PruneDead? ==> op.days > 0 && t.rows[id].deadAt.GetOr(t.rows[id].createdAt) < op.now - op.days * 86400
  {
  }

  lemma {:induction false} RowLeavesByRemoval(ts: seq<Table>, ops: seq<Op>, i: nat, j: nat, id: int)
    requires Run(ts, ops) && i <= j <= |ops| && id in ts[i].rows && id !in ts[j].rows
    ensures exists k :: i <= k < j && id in RemovedIds(ts[k], ops[k])
    decreases j
  {
    if i < j {
      if id in ts[j - 1].rows {
        RunWellFormed(ts, ops, j - 1);
        assert StepAt(ts, ops, j - 1);
        RemovalIff(ts[j - 1], ops[j - 1], ts[j], id);
      } else {
        RowLeavesByRemoval(ts, ops, i, j - 1, id);
      }
    }
  }

  // ----- Markers -----

  /** Inflight exactly when locked; dead rows carry their time of death. */
  predicate Marked(t: Table) {
    forall id :: id in t.rows ==>
      && (t.rows[id].status.Inflight? <==> t.rows[id].lockedAt.Some?)
      && (t.rows[id].status.Dead? ==> t.rows[id].deadAt.Some?)
  }

  lemma StepKeepsMarked(t: Table, op: Op, t': Table)
    requires WellFormed(t) && Marked(t) && Step(t, op, t')
    ensures Marked(t')
  {
    if op.Enqueue? {
      EnqueueKeepsMarked(t, op.draft, op.limits, op.now);
    }
  }

  lemma EnqueueKeepsMarked(t: Table, d: Draft, l: Limits, now: int)
    requires Marked(t)
    ensures Marked(Enqueued(t, d, l, now).0)
  {
  }

  lemma {:induction false} MarkedOverRun(ts: seq<Table>, ops: seq<Op>, k: nat)
    requires Run(ts, ops) && Marked(ts[0]) && k <= |ops|
    ensures Marked(ts[k])
  {
    for n := 0 to k
      invariant Marked(ts[n])
    {
      RunWellFormed(ts, ops, n);
      assert StepAt(ts, ops, n);
      StepKeepsMarked(ts[n], ops[n], ts[n + 1]);
    }
  }

  // ----- Claims -----

  /** The step hands this row to a worker. */
  predicate Claims(t: Table, op: Op, t': Table, id: int) {
    op.ClaimDue? && id in t.rows && id in t'.rows && t.rows[id].status.Pending? && t'.rows[id].status.Inflight?
  }

  /** The step takes an inflight row back from its worker. */
  predicate Releases(t: Table, op: Op, id: int) {
    || (op.Defer? && op.id == id)
    || (op.MarkFailed? && op.message.id == id)
    || (op.RecoverInflight? && id in t.rows && Stuck(t.rows[id], op.now - Max(0, op.olderThan)))
    || id in RemovedIds(t, op)
  }

  /** Upserts on the row's dedupe key keep the configured number of attempts. */
  predicate SameMaximum(t: Table, op: Op, id: int) {
    (op.Enqueue? && id in t.rows && NormalKey(op.draft).Some? && NormalKey(op.draft) == t.rows[id].dedupeKey)
    ==> Max(1, op.draft.maxAttempts) == t.rows[id].maxAttempts
  }

  predicate AllSameMaximum(t: Table, op: Op) {
    forall id :: id in t.rows ==> SameMaximum(t, op, id)
  }

  lemma InflightStep(t: Table, op: Op, t': Table, id: int)
    requires WellFormed(t) && Step(t, op, t') && id in t.rows && t.rows[id].status.Inflight? && !Releases(t, op, id)
    ensures id in t'.rows && t'.rows[id].status.Inflight? && t'.rows[id].attempts == t.rows[id].attempts
    ensures t'.rows[id].lockedAt == t.rows[id].lockedAt
    ensures SameMaximum(t, op, id) ==> t'.rows[id].maxAttempts == t.rows[id].maxAttempts
    ensures !Claims(t, op, t', id)
  {
  }

  lemma InflightStepAt(ts: seq<Table>, ops: seq<Op>, k: nat, id: int)
    requires Run(ts, ops) && k < |ops| && id in ts[k].rows && ts[k].rows[id].status.Inflight? && !Releases(ts[k], ops[k], id)
    ensures id in ts[k + 1].rows && ts[k + 1].rows[id].status.Inflight? && ts[k + 1].rows[id].attempts == ts[k].rows[id].attempts
    ensures SameMaximum(ts[k], ops[k], id) ==> ts[k + 1].rows[id].maxAttempts == ts[k].rows[id].maxAttempts
  {
    RunWellFormed(ts, ops, k);
    assert StepAt(ts, ops, k);
    InflightStep(ts[k], ops[k], ts[k + 1], id);
  }

  ghost predicate Unreleased(ts: seq<Table>, ops: seq<Op>, i: nat, j: nat, id: int)
    requires |ts| == |ops| + 1 && j <= |ops|
  {
    forall k :: i <= k < j ==> !Releases(ts[k], ops[k], id)
  }

  lemma {:induction false} InflightUntilReleased(ts: seq<Table>, ops: seq<Op>, i: nat, j: nat, id: int)
    requires Run(ts, ops) && i <= j <= |ops| && id in ts[i].rows && ts[i].rows[id].status.Inflight?
    requires Unreleased(ts, ops, i, j, id)
    ensures id in ts[j].rows && ts[j].rows[id].status.Inflight?
    ensures ts[j].rows[id].attempts == ts[i].rows[id].attempts
    decreases j
  {
    if i < j {
      InflightUntilReleased(ts, ops, i, j - 1, id);
      InflightStepAt(ts, ops, j - 1, id);
    }
  }

  ghost predicate MaximaConstant(ts: seq<Table>, ops: seq<Op>)
    requires |ts| == |ops| + 1
  {
    forall k :: 0 <= k < |ops| ==> AllSameMaximum(ts[k], ops[k])
  }

  lemma {:induction false} MaximumUntilReleased(ts: seq<Table>, ops: seq<Op>, i: nat, j: nat, id: int)
    requires Run(ts, ops) && MaximaConstant(ts, ops) && i <= j <= |ops| && id in ts[i].rows && ts[i].rows[id].status.Inflight?
    requires Unreleased(ts, ops, i, j, id)
    ensures id in ts[j].rows && ts[j].rows[id].maxAttempts == ts[i].rows[id].maxAttempts
    decreases j
  {
    if i < j {
      MaximumUntilReleased(ts, ops, i, j - 1, id);
      InflightUntilReleased(ts, ops, i, j - 1, id);
      assert AllSameMaximum(ts[j - 1], ops[j - 1]);
      InflightStepAt(ts, ops, j - 1, id);
    }
  }

  /** Between two claims of one row lies a release: no two workers hold it at once. */
  lemma ClaimsAreExclusive(ts: seq<Table>, ops: seq<Op>, i: nat, j: nat, id: int)
    requires Run(ts, ops) && i < j < |ops|
    requires Claims(ts[i], ops[i], ts[i + 1], id) && Claims(ts[j], ops[j], ts[j + 1], id)
    ensures exists k :: i < k < j && Releases(ts[k], ops[k], id)
  {
    if Unreleased(ts, ops, i + 1, j, id) {
      InflightUntilReleased(ts, ops, i + 1, j, id);
    }
  }

  // ----- Attempts -----

  /** The worker's copy of the row, taken by a claim that nothing has released since. */
  ghost predicate LiveClaim(ts: seq<Table>, ops: seq<Op>, j: nat, m: Message)
    requires |ts| == |ops| + 1 && j < |ops|
  {
    exists i :: 0 <= i < j && Claims(ts[i], ops[i], ts[i + 1], m.id)
      && m == MessageOf(m.id, ts[i + 1].rows[m.id]) && Unreleased(ts, ops, i + 1, j, m.id)
  }

  /** Every settlement acts on a live claim and the attempt limit of a dedupe key is constant. */
  ghost predicate Settled(ts: seq<Table>, ops: seq<Op>)
    requires |ts| == |ops| + 1
  {
    MaximaConstant(ts, ops) && forall j :: 0 <= j < |ops| ==>
      && (ops[j].MarkFailed? ==> LiveClaim(ts, ops, j, ops[j].message))
      && (ops[j].Defer? ==> exists m: Message :: m.id == ops[j].id && LiveClaim(ts, ops, j, m))
  }

  predicate AttemptsOk(r: Row) {
    r.maxAttempts >= 1 && if r.status.Dead? then r.attempts == r.maxAttempts else 0 <= r.attempts < r.maxAttempts
  }

  predicate AllAttemptsOk(t: Table) {
    forall id :: id in t.rows ==> AttemptsOk(t.rows[id])
  }

  /** A live claim still agrees with the row it was taken from. */
  lemma LiveClaimAccurate(ts: seq<Table>, ops: seq<Op>, j: nat, m: Message)
    requires Run(ts, ops) && Settled(ts, ops) && j < |ops| && LiveClaim(ts, ops, j, m)
    ensures m.id in ts[j].rows && var r := ts[j].rows[m.id]; r.status.Inflight? && r.attempts == m.attempts && r.maxAttempts == m.maxAttempts
  {
    var i :| 0 <= i < j && Claims(ts[i], ops[i], ts[i + 1], m.id)
      && m == MessageOf(m.id, ts[i + 1].rows[m.id]) && Unreleased(ts, ops, i + 1, j, m.id);
    InflightUntilReleased(ts, ops, i + 1, j, m.id);
    MaximumUntilReleased(ts, ops, i + 1, j, m.id);
  }

  lemma StepKeepsAttempts(t: Table, op: Op, t': Table)
    requires WellFormed(t) && AllAttemptsOk(t) && Step(t, op, t')
    requires AllSameMaximum(t, op)
    requires op.MarkFailed? ==> op.message.id in t.rows && var r := t.rows[op.message.id];
      r.status.Inflight? && r.attempts == op.message.attempts && r.maxAttempts == op.message.maxAttempts
    requires op.Defer? ==> op.id in t.rows && t.rows[op.id].status.Inflight?
    ensures AllAttemptsOk(t')
  {
    if op.Enqueue? {
      var hit := FindKey(t.rows, NormalKey(op.draft), t.nextId);
      assert hit.Some? ==> SameMaximum(t, op, hit.value);
    }
  }

  /** Live rows have attempts left; dead rows have used exactly all of them. */
  lemma {:induction false} AttemptsOverRun(ts: seq<Table>, ops: seq<Op>, k: nat)
    requires Run(ts, ops) && Settled(ts, ops) && AllAttemptsOk(ts[0]) && k <= |ops|
    ensures AllAttemptsOk(ts[k])
  {
    for n := 0 to k
      invariant AllAttemptsOk(ts[n])
    {
      AttemptsStepAt(ts, ops, n);
    }
  }

  lemma AttemptsStepAt(ts: seq<Table>, ops: seq<Op>, k: nat)
    requires Run(ts, ops) && Settled(ts, ops) && k < |ops| && AllAttemptsOk(ts[k])
    ensures AllAttemptsOk(ts[k + 1])
  {
    SettlesLiveClaims(ts, ops, k);
    RunWellFormed(ts, ops, k);
    assert StepAt(ts, ops, k) && AllSameMaximum(ts[k], ops[k]);
    StepKeepsAttempts(ts[k], ops[k], ts[k + 1]);
  }

  /** A settlement meets its row as its claim left it. */
  lemma SettlesLiveClaims(ts: seq<Table>, ops: seq<Op>, k: nat)
    requires Run(ts, ops) && Settled(ts, ops) && k < |ops|
    ensures ops[k].MarkFailed? ==> ops[k].message.id in ts[k].rows && var r := ts[k].rows[ops[k].message.id];
      r.status.Inflight? && r.attempts == ops[k].message.attempts && r.maxAttempts == ops[k].message.maxAttempts
    ensures ops[k].Defer? ==> ops[k].id in ts[k].rows && ts[k].rows[ops[k].id].status.Inflight?
  {
    if ops[k].MarkFailed? {
      LiveClaimAccurate(ts, ops, k, ops[k].message);
    } else if ops[k].Defer? {
      var m: Message :| m.id == ops[k].id && LiveClaim(ts, ops, k, m);
      LiveClaimAccurate(ts, ops, k, m);
    }
  }
}
