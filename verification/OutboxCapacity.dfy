/** Capacity over whole runs: which operations can raise usage, and what enqueue guarantees. */
module OutboxCapacity {
  import opened Wrappers
  import opened OutboxTable
  import Text

  /** Ids lie below the counter; the two unique indexes hold. */
  ghost predicate WellFormed(t: Table) {
    && t.nextId >= 1
    && (forall id :: id in t.rows ==> 1 <= id < t.nextId)
    && (forall i, j :: i in t.rows && j in t.rows && t.rows[i].dedupeKey == t.rows[j].dedupeKey && t.rows[i].dedupeKey.Some? ==> i == j)
    && (forall i, j :: i in t.rows && j in t.rows && t.rows[i].originId == t.rows[j].originId ==> i == j)
  }

  ghost predicate StepAt(ts: seq<Table>, ops: seq<Op>, i: nat)
    requires |ts| == |ops| + 1 && i < |ops|
  {
    Step(ts[i], ops[i], ts[i + 1])
  }

  /** A run of the store: one table before and after each operation. */
  ghost predicate Run(ts: seq<Table>, ops: seq<Op>) {
    && |ts| == |ops| + 1
    && WellFormed(ts[0])
    && forall i :: 0 <= i < |ops| ==> StepAt(ts, ops, i)
  }

  lemma EnqueueKeepsWellFormed(t: Table, d: Draft, l: Limits, now: int)
    requires WellFormed(t)
    ensures var t' := Enqueued(t, d, l, now).0; WellFormed(t') && t.nextId <= t'.nextId
  {
    var t' := Enqueued(t, d, l, now).0;
    var incoming := FreshRow(d, now);
    if FindKey(t.rows, incoming.dedupeKey, t.nextId).Some? {
      assert forall id :: id in t'.rows ==> id in t.rows && t'.rows[id].dedupeKey == t.rows[id].dedupeKey && t'.rows[id].originId == t.rows[id].originId;
    } else {
      assert forall id :: id in t.rows ==> id in t'.rows && t'.rows[id] == t.rows[id];
    }
  }

  /** The unique indexes and the id counter survive every operation. */
  lemma StepKeepsWellFormed(t: Table, op: Op, t': Table)
    requires WellFormed(t) && Step(t, op, t')
    ensures WellFormed(t') && t.nextId <= t'.nextId
  {
    if op.Enqueue? {
      EnqueueKeepsWellFormed(t, op.draft, op.limits, op.now);
    } else {
      assert forall id :: id in t'.rows ==> id in t.rows && t'.rows[id].dedupeKey == t.rows[id].dedupeKey && t'.rows[id].originId == t.rows[id].originId;
    }
  }

  lemma {:induction false} RunWellFormed(ts: seq<Table>, ops: seq<Op>, k: nat)
    requires Run(ts, ops) && k <= |ops|
    ensures WellFormed(ts[k])
  {
    if k > 0 {
      RunWellFormed(ts, ops, k - 1);
      assert StepAt(ts, ops, k - 1);
      StepKeepsWellFormed(ts[k - 1], ops[k - 1], ts[k]);
    }
  }

  // ----- Aggregates -----

  lemma {:induction false} UsageMonotone(a: map<int, Row>, b: map<int, Row>, m: Measure, n: int)
    requires forall id :: 0 <= id < n ==> Contribution(a, m, id) <= Contribution(b, m, id)
    ensures Usage(a, m, n) <= Usage(b, m, n)
  {
    if n > 0 {
      UsageMonotone(a, b, m, n - 1);
    }
  }

  /** Changing one row changes the aggregate by that row's difference. */
  lemma {:induction false} UsageChange(a: map<int, Row>, b: map<int, Row>, m: Measure, n: int, id: int)
    requires 0 <= id < n
    requires forall k :: 0 <= k < n && k != id ==> Contribution(a, m, k) == Contribution(b, m, k)
    ensures Usage(b, m, n) == Usage(a, m, n) - Contribution(a, m, id) + Contribution(b, m, id)
  {
    if id == n - 1 {
      UsageMonotone(a, b, m, n - 1);
      UsageMonotone(b, a, m, n - 1);
    } else {
      UsageChange(a, b, m, n - 1, id);
    }
  }

  /** The rows a counting measure counts. */
  function Counted(rows: map<int, Row>, m: Measure): set<int> {
    set id | id in rows && Weight(m, rows[id]) > 0
  }

  /** The three counting measures are COUNT(*) over the rows they select. */
  lemma {:induction false} UsageIsCount(rows: map<int, Row>, m: Measure, n: int)
    requires !m.Bytes?
    requires forall id :: id in rows ==> 0 <= id
    ensures Usage(rows, m, n) == |set id | id in Counted(rows, m) && id < n|
  {
    var now := set id | id in Counted(rows, m) && id < n;
    if n <= 0 {
      assert now == {};
    } else {
      UsageIsCount(rows, m, n - 1);
      var before := set id | id in Counted(rows, m) && id < n - 1;
      if n - 1 in Counted(rows, m) {
        assert now == before + {n - 1};
      } else {
        assert now == before;
      }
    }
  }

  // ----- Which operations raise usage -----

  /** The operation brings a dead row back without a capacity check. */
  predicate Revives(t: Table, op: Op) {
    match op
    case Defer(id, _, _, _) => id in t.rows && t.rows[id].status.Dead?
    case MarkFailed(m, _, _, _, _) => m.id in t.rows && t.rows[m.id].status.Dead? && !Exhausted(m)
    case RetryDead(category, only, _) => RetriedIds(t.rows, category, only) != {}
    case _ => false
  }

  lemma NoRevivalNoGrowth(t: Table, op: Op, t': Table, m: Measure)
    requires WellFormed(t) && Step(t, op, t') && !op.Enqueue? && !Revives(t, op)
    ensures Usage(t'.rows, m, t'.nextId) <= Usage(t.rows, m, t.nextId)
  {
    if op.RetryDead? {
      forall id | id in t.rows ensures t'.rows[id] == t.rows[id] {
        assert id !in RetriedIds(t.rows, op.category, op.only);
      }
    }
    UsageMonotone(t'.rows, t.rows, m, t.nextId);
  }

  /** One more active message for each id of `ids`. */
  lemma {:induction false} UsageAddsCount(a: map<int, Row>, b: map<int, Row>, ids: set<int>, n: int)
    requires forall id :: 0 <= id < n ==> Contribution(b, Messages, id) == Contribution(a, Messages, id) + if id in ids then 1 else 0
    requires forall id :: id in ids ==> 0 <= id
    ensures Usage(b, Messages, n) == Usage(a, Messages, n) + |set id | id in ids && id < n|
  {
    var now := set id | id in ids && id < n;
    if n <= 0 {
      assert now == {};
    } else {
      UsageAddsCount(a, b, ids, n - 1);
      var before := set id | id in ids && id < n - 1;
      assert now == if n - 1 in ids then before + {n - 1} else before;
    }
  }

  /** `retry_dead` raises the active count by exactly the number it returns. */
  lemma RetryDeadRaises(t: Table, category: Option<string>, only: Option<int>, now: int)
    requires WellFormed(t)
    ensures Usage(RetriedRows(t.rows, category, only, now), Messages, t.nextId)
         == Usage(t.rows, Messages, t.nextId) + |RetriedIds(t.rows, category, only)|
  {
    var ids := RetriedIds(t.rows, category, only);
    UsageAddsCount(t.rows, RetriedRows(t.rows, category, only, now), ids, t.nextId);
    assert ids == set id | id in ids && id < t.nextId;
  }

  lemma RevivalGrows(t: Table, op: Op, t': Table)
    requires WellFormed(t) && Step(t, op, t') && Revives(t, op)
    ensures Usage(t'.rows, Messages, t'.nextId) > Usage(t.rows, Messages, t.nextId)
  {
    match op
    case Defer(id, _, _, _) => UsageChange(t.rows, t'.rows, Messages, t.nextId, id);
    case MarkFailed(m, _, _, _, _) => UsageChange(t.rows, t'.rows, Messages, t.nextId, m.id);
    case RetryDead(category, only, now) => RetryDeadRaises(t, category, only, now);
  }

  /** Exactly the reviving operations can raise a usage figure without a capacity check. */
  lemma UsageNeverGrowsIff(t: Table, op: Op, t': Table)
    requires WellFormed(t) && Step(t, op, t') && !op.Enqueue?
    ensures (forall m: Measure :: Usage(t'.rows, m, t'.nextId) <= Usage(t.rows, m, t.nextId)) <==> !Revives(t, op)
  {
    if Revives(t, op) {
      RevivalGrows(t, op, t');
    } else {
      forall m: Measure ensures Usage(t'.rows, m, t'.nextId) <= Usage(t.rows, m, t.nextId) {
        NoRevivalNoGrowth(t, op, t', m);
      }
    }
  }

  // ----- Enqueue -----

  /** The bytes checked before an insert are the bytes the table later reports for the row. */
  lemma PayloadMatchesTable(r: Row)
    ensures Text.Utf8Length(r.destination + r.body + r.messageType + r.category) == PayloadBytes(r)
  {
    Text.Utf8LengthConcat(r.destination, r.body);
    Text.Utf8LengthConcat(r.destination + r.body, r.messageType);
    Text.Utf8LengthConcat(r.destination + r.body + r.messageType, r.category);
  }

  /** The four checks together: the incoming row fits on top of the other rows. */
  ghost predicate Fits(rows: map<int, Row>, n: int, incoming: Row, l: Limits) {
    forall m: Measure :: Weight(m, incoming) > 0 ==> Usage(rows, m, n) + Weight(m, incoming) <= Limit(l, m)
  }

  lemma CapacityErrorIff(rows: map<int, Row>, n: int, incoming: Row, l: Limits)
    requires !incoming.status.Dead?
    requires PayloadBytes(incoming) > 0 || Usage(rows, Bytes, n) <= Limit(l, Bytes)
    ensures CapacityError(rows, n, incoming, l).None? <==> Fits(rows, n, incoming, l)
  {
    PayloadMatchesTable(incoming);
    if Fits(rows, n, incoming, l) {
      assert Weight(Messages, incoming) > 0;
      assert Weight(ToDestination(incoming.destination), incoming) > 0;
      assert Weight(InCategory(incoming.category), incoming) > 0;
      assert Weight(Bytes, incoming) == PayloadBytes(incoming);
    }
  }

  lemma WithoutUsage(rows: map<int, Row>, id: int, m: Measure, n: int)
    requires 0 <= id < n
    ensures Usage(rows - {id}, m, n) == Usage(rows, m, n) - Contribution(rows, m, id)
  {
    UsageChange(rows, rows - {id}, m, n, id);
  }

  lemma MergeStaysWithin(rows: map<int, Row>, n: int, id: int, base: map<int, Row>, incoming: Row, l: Limits, m: Measure)
    requires id in rows && 0 <= id < n && incoming.status.Pending?
    requires base == rows || base == rows - {id}
    requires Usage(rows, m, n) <= Limit(l, m)
    requires Weight(m, incoming) > 0 ==> Usage(base, m, n) + Weight(m, incoming) <= Limit(l, m)
    ensures Usage(rows[id := Merged(rows[id], incoming)], m, n) <= Limit(l, m)
  {
    UsageChange(rows, rows[id := Merged(rows[id], incoming)], m, n, id);
    WithoutUsage(rows, id, m, n);
  }

  /** An accepted enqueue, including one that moves or revives a row, leaves every figure within its limit. */
  lemma EnqueueStaysWithin(t: Table, d: Draft, l: Limits, now: int, m: Measure)
    requires WellFormed(t) && Within(t, l)
    ensures var t' := Enqueued(t, d, l, now).0; Usage(t'.rows, m, t'.nextId) <= Limit(l, m)
  {
    var incoming := FreshRow(d, now);
    var t' := Enqueued(t, d, l, now).0;
    if t' != t {
      var base := Without(t.rows, Excluded(t, incoming.dedupeKey));
      PayloadMatchesTable(incoming);
      assert Weight(m, incoming) > 0 ==> Usage(base, m, t.nextId) + Weight(m, incoming) <= Limit(l, m);
      match FindKey(t.rows, incoming.dedupeKey, t.nextId)
      case Some(id) =>
        MergeStaysWithin(t.rows, t.nextId, id, base, incoming, l, m);
      case None =>
        UsageMonotone(t'.rows, t.rows, m, t.nextId);
    }
  }

  /** The message type of a new row is never empty, so neither is its payload. */
  lemma PayloadIsPositive(d: Draft, now: int)
    ensures PayloadBytes(FreshRow(d, now)) > 0
  {
    var kind := FreshRow(d, now).messageType;
    assert kind != "" && Text.Utf8Length(kind) == Text.Utf8Size(kind[0]) + Text.Utf8Length(kind[1..]);
  }

  /**
   A refused enqueue changes nothing, and a refusal for capacity happens exactly when the row does not fit,
   whether or not the table was within its limits before.
   */
  lemma RefusedEnqueue(t: Table, d: Draft, l: Limits, now: int)
    requires WellFormed(t)
    ensures var (t', r) := Enqueued(t, d, l, now);
      && (r.Failure? ==> t' == t)
      && ((r.Failure? && r.error != OriginClash) <==>
            !Fits(Without(t.rows, Excluded(t, NormalKey(d))), t.nextId, FreshRow(d, now), l))
  {
    var incoming := FreshRow(d, now);
    PayloadIsPositive(d, now);
    CapacityErrorIff(Without(t.rows, Excluded(t, incoming.dedupeKey)), t.nextId, incoming, l);
  }

  // ----- Blank dedupe keys -----

  /** The capacity reads exclude the row that the upsert replaces, except exactly a row stored under a blank key. */
  lemma ReplacedIsExcludedIff(t: Table, key: Option<string>)
    requires WellFormed(t)
    ensures Excluded(t, key) == FindKey(t.rows, key, t.nextId) <==> (key != Some("") || forall id :: id in t.rows ==> t.rows[id].dedupeKey != Some(""))
  {
  }

  /** A full queue refuses to replace its own row under a blank key, although without that row there is room. */
  lemma BlankKeyCountsOwnRow(t: Table, d: Draft, l: Limits, now: int, id: int)
    requires WellFormed(t) && id in t.rows && t.rows[id].dedupeKey == Some("") && !t.rows[id].status.Dead?
    requires NormalKey(d) == Some("") && Usage(t.rows, Messages, t.nextId) == Limit(l, Messages)
    ensures FindKey(t.rows, NormalKey(d), t.nextId) == Some(id)
    ensures Enqueued(t, d, l, now) == (t, Failure(PendingLimit))
    ensures Usage(t.rows - {id}, Messages, t.nextId) + 1 <= Limit(l, Messages)
  {
    WithoutUsage(t.rows, id, Messages, t.nextId);
  }

  // ----- Whole runs -----

  /** Fixed limits, and no operation that revives a dead row unchecked. */
  ghost predicate Disciplined(ts: seq<Table>, ops: seq<Op>, l: Limits)
    requires |ts| == |ops| + 1
  {
    forall i :: 0 <= i < |ops| ==> (ops[i].Enqueue? ==> ops[i].limits == l) && !Revives(ts[i], ops[i])
  }

  /** Every reachable table of a disciplined run is within all four limits. */
  lemma {:induction false} CapacityOverRun(ts: seq<Table>, ops: seq<Op>, l: Limits, k: nat)
    requires Run(ts, ops) && Disciplined(ts, ops, l) && k <= |ops| && Within(ts[0], l)
    ensures Within(ts[k], l)
  {
    if k > 0 {
      CapacityOverRun(ts, ops, l, k - 1);
      RunWellFormed(ts, ops, k - 1);
      var t, op, t' := ts[k - 1], ops[k - 1], ts[k];
      assert StepAt(ts, ops, k - 1);
      forall m: Measure ensures Usage(t'.rows, m, t'.nextId) <= Limit(l, m) {
        if op.Enqueue? {
          EnqueueStaysWithin(t, op.draft, l, op.now, m);
        } else {
          NoRevivalNoGrowth(t, op, t', m);
        }
      }
    }
  }

  /** An empty table is within any limits, so a run that starts empty qualifies. */
  lemma {:induction false} NothingUsed(m: Measure, n: int)
    ensures Usage(map[], m, n) == 0
  {
    if n > 0 {
      NothingUsed(m, n - 1);
    }
  }

  lemma EmptyIsWithin(l: Limits)
    ensures WellFormed(Empty) && Within(Empty, l)
  {
    forall m: Measure ensures Usage(Empty.rows, m, Empty.nextId) <= Limit(l, m) {
      NothingUsed(m, Empty.nextId);
    }
  }

  /** The discipline is needed: with room for one message, deferring a dead row puts two in the queue. */
  lemma DeferCanExceedCapacity(dead: Row, live: Row, l: Limits, now: int)
    requires dead.status.Dead? && live.status.Pending? && dead.dedupeKey.None? && dead.originId != live.originId
    requires l.maxPending == 1
    ensures var t := Table(map[1 := dead, 2 := live], 3);
      && WellFormed(t)
      && Usage(t.rows, Messages, t.nextId) <= Limit(l, Messages)
      && !Within(t.(rows := Deferred(t.rows, 1, 30, None, now)), l)
  {
    var t := Table(map[1 := dead, 2 := live], 3);
    assert forall k :: k in t.rows <==> k == 1 || k == 2;
    var t' := t.(rows := Deferred(t.rows, 1, 30, None, now));
    assert Usage(t.rows, Messages, 1) == 0;
    assert Usage(t'.rows, Messages, 1) == 0;
    assert Usage(t'.rows, Messages, 2) == 1;
    assert Usage(t'.rows, Messages, 3) == 2;
  }
}
