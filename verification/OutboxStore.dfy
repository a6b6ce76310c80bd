/** The store itself: each method is one transaction on the table it owns. */
module OutboxStore {
  import opened Wrappers
  import opened OutboxTable
  import opened OutboxCapacity
  import OutboxClaims
  import OutboxFields
  import Ordering
  import Text

  /** `retry_delay_seconds`. */
  function RetryDelay(attempts: int, initial: int, maximum: int): int {
    var first := Max(1, initial);
    Min(Max(first, maximum), first * Power2(Max(0, attempts)))
  }

  /** The delay starts at the initial value, doubles from one attempt to the next and saturates at the maximum. */
  lemma {:induction false} RetryDelayDoubles(attempts: int, initial: int, maximum: int)
    ensures var cap := Max(Max(1, initial), maximum);
      && RetryDelay(0, initial, maximum) == Max(1, initial)
      && (attempts >= 0 ==> RetryDelay(attempts + 1, initial, maximum) == Min(cap, 2 * RetryDelay(attempts, initial, maximum)))
      && (attempts <= 0 ==> RetryDelay(attempts, initial, maximum) == Max(1, initial))
      && Max(1, initial) <= RetryDelay(attempts, initial, maximum) <= cap
  {
    var first, p := Max(1, initial), Power2(Max(0, attempts));
    assert first * p >= first;
    assert first * (2 * p) == 2 * (first * p);
  }

  /** ORDER BY available_at, id, as used by the final sort of a claim. */
  function DeliveryKeys(rows: map<int, Row>): map<int, Ordering.Key> {
    map id | id in rows :: Ordering.Key(0, rows[id].availableAt, id)
  }

  /** Exactly the claimed rows, each as stored, in (available_at, id) order. */
  predicate IsDelivery(rows: map<int, Row>, claim: set<int>, messages: seq<Message>) {
    && claim <= rows.Keys
    && |messages| == |claim|
    && (forall id :: id in claim ==> MessageOf(id, rows[id]) in messages)
    && (forall i :: 0 <= i < |messages| ==> messages[i].id in claim && messages[i] == MessageOf(messages[i].id, rows[messages[i].id]))
    && (forall i, j :: 0 <= i < j < |messages| ==>
      messages[i].availableAt < messages[j].availableAt || (messages[i].availableAt == messages[j].availableAt && messages[i].id < messages[j].id))
  }

  method Deliver(rows: map<int, Row>, claim: set<int>) returns (messages: seq<Message>)
    requires claim <= rows.Keys
    ensures IsDelivery(rows, claim, messages)
  {
    var keys := DeliveryKeys(rows);
    var order := SortedClaim(keys, claim);
    messages := seq(|order|, i requires 0 <= i < |order| => MessageOf(order[i], rows[order[i]]));
    forall id | id in claim ensures MessageOf(id, rows[id]) in messages {
      var i :| 0 <= i < |order| && order[i] == id;
      assert messages[i] == MessageOf(id, rows[id]);
    }
    forall i, j | 0 <= i < j < |messages| ensures
      messages[i].availableAt < messages[j].availableAt || (messages[i].availableAt == messages[j].availableAt && messages[i].id < messages[j].id)
    {
      assert Ordering.Less(keys[order[i]], keys[order[j]]);
    }
  }

  method SortedClaim(keys: map<int, Ordering.Key>, claim: set<int>) returns (order: seq<int>)
    requires Ordering.Keyed(claim, keys)
    ensures |order| == |claim| && (forall i :: 0 <= i < |order| ==> order[i] in claim) && forall id :: id in claim ==> id in order
    ensures forall i, j :: 0 <= i < j < |order| ==> Ordering.Less(keys[order[i]], keys[order[j]])
  {
    order := Ordering.Select(claim, keys, |claim|);
    if Elements(order) != claim {
      SubsetSize(Elements(order), claim);
    }
    forall i | 0 <= i < |order| ensures order[i] in claim {
      assert order[i] in Elements(order);
    }
    forall id | id in claim ensures id in order {
      assert id in Elements(order);
    }
  }

  lemma DeliveryReports(rows: map<int, Row>, claim: set<int>, messages: seq<Message>)
    requires IsDelivery(rows, claim, messages)
    ensures forall m :: m in messages ==> m.id in claim && m.id in rows && OutboxFields.Reports(m, rows[m.id])
    ensures forall id :: id in claim ==> exists m :: m in messages && m.id == id
  {
    forall m | m in messages ensures m.id in claim && OutboxFields.Reports(m, rows[m.id]) {
      var i :| 0 <= i < |messages| && messages[i] == m;
      OutboxFields.MessageReports(m.id, rows[m.id]);
    }
    forall id | id in claim ensures exists m :: m in messages && m.id == id {
      OutboxFields.MessageReports(id, rows[id]);
      assert MessageOf(id, rows[id]) in messages;
    }
  }

  /** What the two ordered selections of the statement pick is the claim. */
  lemma SelectedIsClaim(rows: map<int, Row>, now: int, limit: int, ranking: map<int, Ordering.Key>, chosen: set<int>)
    requires ranking == map id | id in Due(rows, now) :: ClaimKey(rows, now, id)
    requires chosen <= Due(rows, now) && |chosen| == Min(ClaimLimit(limit), |Due(rows, now)|)
    requires Ordering.Separated(chosen, Due(rows, now) - chosen, ranking)
    ensures IsClaim(rows, now, limit, chosen)
  {
    forall i, j | i in chosen && j in Due(rows, now) - chosen ensures Sooner(rows, now, i, j) {
      Ordering.SeparatedAt(chosen, Due(rows, now) - chosen, ranking, i, j);
    }
  }

  lemma RecoverSteps(t: Table, olderThan: int, now: int)
    requires WellFormed(t)
    ensures var after := t.(rows := Recovered(t.rows, now - Max(0, olderThan)));
      Step(t, OutboxTable.RecoverInflight(olderThan, now), after) && WellFormed(after)
  {
    StepKeepsWellFormed(t, OutboxTable.RecoverInflight(olderThan, now), t.(rows := Recovered(t.rows, now - Max(0, olderThan))));
  }

  lemma DeleteSteps(t: Table, op: Op, gone: set<int>)
    requires op.DeleteDead? || op.PruneDead? || op.Delete?
    requires gone == RemovedIds(t, op)
    ensures Step(t, op, t.(rows := t.rows - gone))
    ensures op.DeleteDead? ==> t.rows - gone == map i | i in t.rows && t.rows[i].status != Dead :: t.rows[i]
    ensures op.PruneDead? ==> PrunedInFields(t.rows, op.days, op.now, t.rows - gone)
  {
  }

  lemma NothingPruned(t: Table, days: int, now: int)
    requires days <= 0
    ensures Step(t, OutboxTable.PruneDead(days, now), t) && PrunedInFields(t.rows, days, now, t.rows)
  {
    DeleteSteps(t, OutboxTable.PruneDead(days, now), {});
    assert t.rows - {} == t.rows;
  }

  /** A dead row is gone exactly when it died, or for want of that was made, more than the days ago. */
  ghost predicate PrunedInFields(rows: map<int, Row>, days: int, now: int, after: map<int, Row>) {
    && (forall i :: i in after ==> i in rows && after[i] == rows[i])
    && forall i :: i in rows ==>
         var died := if rows[i].deadAt.Some? then rows[i].deadAt.value else rows[i].createdAt;
         (i !in after <==> days > 0 && rows[i].status == Dead && died + days * 86400 < now)
  }

  /** The two ordered selections of the claim statement. */
  method SelectClaim(rows: map<int, Row>, now: int, limit: int) returns (chosen: set<int>)
    ensures IsClaim(rows, now, limit, chosen)
  {
    var due := Due(rows, now);
    var ranking := map id | id in due :: ClaimKey(rows, now, id);
    var selected := Ordering.Select(due, ranking, ClaimLimit(limit));
    chosen := Elements(selected);
    SelectedIsClaim(rows, now, limit, ranking, chosen);
  }

  class OutboxStore {
    var rows: map<int, Row>
    var nextId: int

    ghost function Table(): Table
      reads this
    {
      OutboxTable.Table(rows, nextId)
    }

    constructor ()
      ensures Table() == Empty && WellFormed(Table())
    {
      rows := map[];
      nextId := 1;
    }

    method Enqueue(draft: Draft, limits: Limits, now: int) returns (r: Result<int, EnqueueError>)
      requires WellFormed(Table())
      modifies this
      ensures (Table(), r) == Enqueued(old(Table()), draft, limits, now)
      ensures WellFormed(Table())
      ensures r.Failure? ==> Table() == old(Table())
      ensures r.Success? ==> OutboxFields.Enqueued(old(Table()), Table(), draft, now, r.value)
    {
      ghost var before := Table();
      OutboxFields.EnqueueInFields(before, draft, limits, now);
      EnqueueKeepsWellFormed(before, draft, limits, now);
      var incoming := FreshRow(draft, now);
      var existing := None;
      if incoming.dedupeKey.Some? && incoming.dedupeKey.value != "" {
        existing := FindKey(rows, incoming.dedupeKey, nextId);
      }
      var others := Without(rows, existing);
      var size := Text.Utf8Length(incoming.destination + incoming.body + incoming.messageType + incoming.category);
      if Usage(others, Messages, nextId) + 1 > Max(1, limits.maxPending) {
        return Failure(PendingLimit);
      }
      if Usage(others, Bytes, nextId) + size > Max(1, limits.maxBytes) {
        return Failure(ByteLimit);
      }
      if Usage(others, ToDestination(incoming.destination), nextId) + 1 > Max(1, limits.maxPerDestination) {
        return Failure(DestinationLimit);
      }
      if Usage(others, InCategory(incoming.category), nextId) + 1 > Max(1, limits.maxPerCategory) {
        return Failure(CategoryLimit);
      }
      var conflict := FindKey(rows, incoming.dedupeKey, nextId);
      if conflict.Some? {
        rows := rows[conflict.value := Merged(rows[conflict.value], incoming)];
        return Success(conflict.value);
      }
      if exists id :: id in rows && rows[id].originId == incoming.originId {
        return Failure(OriginClash);
      }
      r := Success(nextId);
      rows := rows[nextId := incoming];
      nextId := nextId + 1;
    }

    /** The claimed messages, soonest first, are exactly the rows of the fair claim. */
    method ClaimDue(limit: int, now: int) returns (messages: seq<Message>, ghost claim: set<int>)
      requires WellFormed(Table())
      modifies this
      ensures WellFormed(Table())
      ensures IsClaim(old(rows), now, limit, claim)
      ensures Table() == old(Table()).(rows := Claimed(old(rows), claim, now))
      ensures IsDelivery(rows, claim, messages)
      ensures forall m :: m in messages ==> m.id in claim && m.id in rows && OutboxFields.Reports(m, rows[m.id])
      ensures forall i :: i in claim ==> i in old(rows) && old(rows)[i].status == Pending && old(rows)[i].availableAt <= now
      ensures forall i, j :: i in claim && j in old(rows) && OutboxFields.Precedes(old(rows), now, j, i) ==> j in claim
      ensures var due := set i | i in old(rows) && old(rows)[i].status == Pending && old(rows)[i].availableAt <= now;
        var most := if limit < 1 then 1 else if limit > 200 then 200 else limit;
        |claim| == (if |due| < most then |due| else most) && (|claim| < most ==> claim == due)
      ensures rows.Keys == old(rows).Keys && forall i :: i in rows ==>
        rows[i] == if i in claim then old(rows)[i].(status := Inflight, lockedAt := Some(now)) else old(rows)[i]
    {
      ghost var before := Table();
      var chosen := SelectClaim(rows, now, limit);
      OutboxFields.ClaimInFields(rows, now, limit, chosen);
      claim := chosen;
      rows := Claimed(rows, chosen, now);
      StepKeepsWellFormed(before, OutboxTable.ClaimDue(limit, now), Table());
      messages := Deliver(rows, chosen);
      DeliveryReports(rows, chosen, messages);
    }

    method RecoverInflight(olderThan: int, now: int) returns (count: nat)
      requires WellFormed(Table())
      modifies this
      ensures Step(old(Table()), OutboxTable.RecoverInflight(olderThan, now), Table()) && WellFormed(Table())
      ensures count == |StuckIds(old(rows), now - Max(0, olderThan))| == |OutboxFields.Changed(old(rows), rows)|
      ensures OutboxFields.Recovered(old(rows), rows, olderThan, now)
    {
      ghost var before := Table();
      var cutoff := now - Max(0, olderThan);
      OutboxFields.RecoverInFields(rows, olderThan, now);
      RecoverSteps(before, olderThan, now);
      count := |StuckIds(rows, cutoff)|;
      rows := Recovered(rows, cutoff);
      assert Table() == before.(rows := Recovered(before.rows, cutoff));
    }

    method Defer(id: int, delay: int, reason: Option<string>, now: int)
      requires WellFormed(Table())
      modifies this
      ensures Step(old(Table()), OutboxTable.Defer(id, delay, reason, now), Table()) && WellFormed(Table())
      ensures rows.Keys == old(rows).Keys && (forall i :: i in rows && i != id ==> rows[i] == old(rows)[i])
      ensures id in rows ==> var wait := if delay < 1 then 1 else delay;
        rows[id] == old(rows)[id].(status := Pending, availableAt := now + wait, lockedAt := None, lastError := if reason == Some("") then None else reason)
    {
      ghost var before := Table();
      if id in rows {
        rows := rows[id := rows[id].(status := Pending, availableAt := now + Max(1, delay), lockedAt := None,
                                     lastError := if reason == Some("") then None else reason)];
      }
      StepKeepsWellFormed(before, OutboxTable.Defer(id, delay, reason, now), Table());
    }

    method MarkSent(id: int)
      requires WellFormed(Table())
      modifies this
      ensures Step(old(Table()), OutboxTable.MarkSent(id), Table()) && WellFormed(Table())
      ensures rows == old(rows) - {id} && nextId == old(nextId)
    {
      rows := rows - {id};
    }

    /** Returns whether the message is given up; the two clock reads are separate. */
    method MarkFailed(message: Message, error: string, delay: int, now: int, deadNow: int) returns (dead: bool)
      requires WellFormed(Table())
      modifies this
      ensures Step(old(Table()), OutboxTable.MarkFailed(message, error, delay, now, deadNow), Table()) && WellFormed(Table())
      ensures dead <==> Exhausted(message)
      ensures message.id in rows ==> (dead <==> rows[message.id].status.Dead?)
      ensures dead <==> message.maxAttempts <= message.attempts + 1
      ensures rows.Keys == old(rows).Keys && (forall i :: i in rows && i != message.id ==> rows[i] == old(rows)[i])
      ensures message.id in rows ==> var wait := if delay < 1 then 1 else delay;
        rows[message.id] == old(rows)[message.id].(status := if dead then Dead else Pending, attempts := message.attempts + 1,
          availableAt := now + wait, lockedAt := None, lastError := Some(error), deadAt := if dead then Some(deadNow) else None)
    {
      ghost var before := Table();
      var attempts := message.attempts + 1;
      dead := attempts >= message.maxAttempts;
      if message.id in rows {
        rows := rows[message.id := rows[message.id].(
          status := if dead then Dead else Pending, attempts := attempts, availableAt := now + Max(1, delay),
          lockedAt := None, lastError := Some(error), deadAt := if dead then Some(deadNow) else None)];
      }
      StepKeepsWellFormed(before, OutboxTable.MarkFailed(message, error, delay, now, deadNow), Table());
    }

    method RetryDead(category: Option<string>, only: Option<int>, now: int) returns (count: nat)
      requires WellFormed(Table())
      modifies this
      ensures Step(old(Table()), OutboxTable.RetryDead(category, only, now), Table()) && WellFormed(Table())
      ensures count == |RetriedIds(old(rows), category, only)|
      ensures Usage(rows, Messages, nextId) == Usage(old(rows), Messages, nextId) + count
      ensures OutboxFields.Retried(old(rows), rows, category, only, now)
    {
      RetryDeadRaises(Table(), category, only, now);
      OutboxFields.RetryInFields(rows, category, only, now);
      ghost var before := Table();
      count := |set id | id in rows && Retried(id, rows[id], category, only)|;
      rows := RetriedRows(rows, category, only, now);
      StepKeepsWellFormed(before, OutboxTable.RetryDead(category, only, now), Table());
    }

    method Delete(id: int) returns (count: nat)
      requires WellFormed(Table())
      modifies this
      ensures Step(old(Table()), OutboxTable.Delete(id), Table()) && WellFormed(Table())
      ensures count == |old(rows)| - |rows|
      ensures rows == old(rows) - {id}
    {
      DeleteSteps(Table(), OutboxTable.Delete(id), {id});
      if id in rows {
        count := Remove({id});
      } else {
        assert rows - {id} == rows;
        count := 0;
      }
    }

    method DeleteDead() returns (count: nat)
      requires WellFormed(Table())
      modifies this
      ensures Step(old(Table()), OutboxTable.DeleteDead, Table()) && WellFormed(Table())
      ensures count == |old(rows)| - |rows|
      ensures rows == map i | i in old(rows) && old(rows)[i].status != Dead :: old(rows)[i]
    {
      var dead := set id | id in rows && rows[id].status.Dead?;
      DeleteSteps(Table(), OutboxTable.DeleteDead, dead);
      count := Remove(dead);
    }

    method PruneDead(days: int, now: int) returns (count: nat)
      requires WellFormed(Table())
      modifies this
      ensures Step(old(Table()), OutboxTable.PruneDead(days, now), Table()) && WellFormed(Table())
      ensures count == |old(rows)| - |rows|
      ensures PrunedInFields(old(rows), days, now, rows)
    {
      if days <= 0 {
        NothingPruned(Table(), days, now);
        return 0;
      }
      var cutoff := now - days * 86400;
      var expired := set id | id in rows && rows[id].status.Dead? && rows[id].deadAt.GetOr(rows[id].createdAt) < cutoff;
      DeleteSteps(Table(), OutboxTable.PruneDead(days, now), expired);
      count := Remove(expired);
    }

    /** A DELETE statement: its row count is the number of rows that left. */
    method Remove(ids: set<int>) returns (count: nat)
      requires WellFormed(Table()) && ids <= rows.Keys
      modifies this`rows
      ensures rows == old(rows) - ids && WellFormed(Table())
      ensures count == |ids| == |old(rows)| - |rows|
    {
      count := |ids|;
      assert rows.Keys == (rows - ids).Keys + ids;
      assert |rows.Keys| == |(rows - ids).Keys| + |ids|;
      rows := rows - ids;
    }
  }
}
