/** The statements of the outbox, column by column. */
module OutboxFields {
  import opened Wrappers
  import OutboxTable
  import opened OutboxCapacity
  import OutboxClaims
  import Ordering
  import Text

  type Row = OutboxTable.Row
  type Table = OutboxTable.Table

  // ----- What the limits measure -----

  /** The counts read before an insert, as sets of rows. */
  lemma UsageInFields(t: Table, destination: string, category: string)
    requires WellFormed(t)
    ensures OutboxTable.Usage(t.rows, OutboxTable.Messages, t.nextId) == |set i | i in t.rows && t.rows[i].status != OutboxTable.Dead|
    ensures OutboxTable.Usage(t.rows, OutboxTable.ToDestination(destination), t.nextId)
      == |set i | i in t.rows && t.rows[i].status != OutboxTable.Dead && t.rows[i].destination == destination|
    ensures OutboxTable.Usage(t.rows, OutboxTable.InCategory(category), t.nextId)
      == |set i | i in t.rows && t.rows[i].status != OutboxTable.Dead && t.rows[i].category == category|
  {
    CountedIs(t, OutboxTable.Messages, set i | i in t.rows && t.rows[i].status != OutboxTable.Dead);
    CountedIs(t, OutboxTable.ToDestination(destination), set i | i in t.rows && t.rows[i].status != OutboxTable.Dead && t.rows[i].destination == destination);
    CountedIs(t, OutboxTable.InCategory(category), set i | i in t.rows && t.rows[i].status != OutboxTable.Dead && t.rows[i].category == category);
  }

  lemma CountedIs(t: Table, m: OutboxTable.Measure, ids: set<int>)
    requires WellFormed(t) && !m.Bytes? && forall i :: i in ids <==> i in t.rows && OutboxTable.Weight(m, t.rows[i]) > 0
    ensures OutboxTable.Usage(t.rows, m, t.nextId) == |ids|
  {
    UsageIsCount(t.rows, m, t.nextId);
    assert forall i :: i in ids <==> i in Counted(t.rows, m) && i < t.nextId;
    assert ids == set i | i in Counted(t.rows, m) && i < t.nextId;
  }

  /** The byte figure: nothing for an empty table, and for each further row its four texts in UTF-8, unless it is dead. */
  lemma BytesInFields(rows: map<int, Row>, n: int, i: int, r: Row)
    requires 0 <= i < n && i !in rows
    ensures OutboxTable.Usage(map[], OutboxTable.Bytes, n) == 0
    ensures OutboxTable.Usage(rows[i := r], OutboxTable.Bytes, n) == OutboxTable.Usage(rows, OutboxTable.Bytes, n)
      + if r.status == OutboxTable.Dead then 0
        else Text.Utf8Length(r.destination) + Text.Utf8Length(r.body) + Text.Utf8Length(r.messageType) + Text.Utf8Length(r.category)
  {
    NothingUsed(OutboxTable.Bytes, n);
    UsageChange(rows, rows[i := r], OutboxTable.Bytes, n, i);
  }

  /** Every limit is at least one. */
  lemma LimitInFields(l: OutboxTable.Limits, s: string)
    ensures OutboxTable.Limit(l, OutboxTable.Messages) == if l.maxPending < 1 then 1 else l.maxPending
    ensures OutboxTable.Limit(l, OutboxTable.Bytes) == if l.maxBytes < 1 then 1 else l.maxBytes
    ensures OutboxTable.Limit(l, OutboxTable.ToDestination(s)) == if l.maxPerDestination < 1 then 1 else l.maxPerDestination
    ensures OutboxTable.Limit(l, OutboxTable.InCategory(s)) == if l.maxPerCategory < 1 then 1 else l.maxPerCategory
  {
  }

  // ----- Enqueue -----

  /** The key a draft is stored under. */
  predicate HasKey(d: OutboxTable.Draft, key: Option<string>) {
    if d.dedupeKey.None? || d.dedupeKey.value == "" then key.None? else key == Some(Text.Strip(d.dedupeKey.value))
  }

  /** The texts a draft brings, with their defaults. */
  predicate Carries(r: Row, d: OutboxTable.Draft) {
    && r.destination == d.destination && r.body == d.body
    && r.messageType == (if d.messageType != "" then d.messageType else "chat")
    && r.category == (if d.category != "" then d.category else "message")
    && r.maxAttempts == (if d.maxAttempts < 1 then 1 else d.maxAttempts)
  }

  /** A row that was not there before. */
  predicate IsNew(r: Row, d: OutboxTable.Draft, now: int) {
    && Carries(r, d) && HasKey(d, r.dedupeKey)
    && r.originId == (if Text.Strip(d.originId) == "" then d.freshOrigin else Text.Strip(d.originId))
    && r.status == OutboxTable.Pending && r.attempts == 0 && r.createdAt == now
    && r.availableAt == (if d.availableAt.Some? then d.availableAt.value else now)
    && r.lockedAt.None? && r.lastError.None? && r.deadAt.None?
  }

  /** A row that the draft replaces: it keeps its identity, is due at the earlier of the two times, and starts over if it was dead. */
  predicate IsUpdate(was: Row, r: Row, d: OutboxTable.Draft, now: int) {
    var asked := if d.availableAt.Some? then d.availableAt.value else now;
    && Carries(r, d) && was.dedupeKey.Some? && HasKey(d, was.dedupeKey)
    && r.dedupeKey == was.dedupeKey && r.originId == was.originId && r.createdAt == was.createdAt
    && r.availableAt <= was.availableAt && r.availableAt <= asked && (r.availableAt == was.availableAt || r.availableAt == asked)
    && if was.status == OutboxTable.Dead then r.status == OutboxTable.Pending && r.attempts == 0 && r.lockedAt.None? && r.lastError.None? && r.deadAt.None?
       else r.status == was.status && r.attempts == was.attempts && r.lockedAt == was.lockedAt && r.lastError == was.lastError && r.deadAt == was.deadAt
  }

  /** An accepted draft adds one row or updates one, and leaves the others alone. */
  ghost predicate Enqueued(t: Table, t': Table, d: OutboxTable.Draft, now: int, id: int) {
    && t'.rows.Keys == t.rows.Keys + {id} && (forall i :: i in t.rows && i != id ==> t'.rows[i] == t.rows[i])
    && if id in t.rows then t'.nextId == t.nextId && IsUpdate(t.rows[id], t'.rows[id], d, now)
       else
         && id == t.nextId && t'.nextId == id + 1 && IsNew(t'.rows[id], d, now)
         && forall i :: i in t.rows ==> t.rows[i].originId != t'.rows[id].originId && (t'.rows[id].dedupeKey.Some? ==> t.rows[i].dedupeKey != t'.rows[id].dedupeKey)
  }

  lemma EnqueueInFields(t: Table, d: OutboxTable.Draft, l: OutboxTable.Limits, now: int)
    requires WellFormed(t)
    ensures var (t', r) := OutboxTable.Enqueued(t, d, l, now);
      r.Success? ==> Enqueued(t, t', d, now, r.value)
  {
    var incoming := OutboxTable.FreshRow(d, now);
    FreshIsNew(d, now);
    var found := OutboxTable.FindKey(t.rows, incoming.dedupeKey, t.nextId);
    if found.Some? {
      MergedIsUpdate(t.rows[found.value], d, now);
    }
  }

  lemma FreshIsNew(d: OutboxTable.Draft, now: int)
    ensures IsNew(OutboxTable.FreshRow(d, now), d, now)
  {
  }

  lemma MergedIsUpdate(was: Row, d: OutboxTable.Draft, now: int)
    requires was.dedupeKey.Some? && was.dedupeKey == OutboxTable.FreshRow(d, now).dedupeKey
    ensures IsUpdate(was, OutboxTable.Merged(was, OutboxTable.FreshRow(d, now)), d, now)
  {
  }

  /** The row left out of the capacity reads: the one stored under the draft's key, unless that is blank. Its absence is a fresh id. */
  predicate LeftOut(t: Table, d: OutboxTable.Draft, id: int) {
    if id in t.rows then t.rows[id].dedupeKey.Some? && t.rows[id].dedupeKey != Some("") && HasKey(d, t.rows[id].dedupeKey)
    else id == t.nextId && (HasKey(d, Some("")) || forall i :: i in t.rows && t.rows[i].dedupeKey.Some? ==> !HasKey(d, t.rows[i].dedupeKey))
  }

  /** The four checks, with what they count. */
  predicate RoomInQueue(t: Table, l: OutboxTable.Limits, out: int) {
    |set i | i in t.rows && i != out && t.rows[i].status != OutboxTable.Dead| < if l.maxPending < 1 then 1 else l.maxPending
  }

  predicate RoomInBytes(t: Table, d: OutboxTable.Draft, l: OutboxTable.Limits, out: int) {
    var kind, category := if d.messageType != "" then d.messageType else "chat", if d.category != "" then d.category else "message";
    OutboxTable.Usage(t.rows - {out}, OutboxTable.Bytes, t.nextId)
      + Text.Utf8Length(d.destination) + Text.Utf8Length(d.body) + Text.Utf8Length(kind) + Text.Utf8Length(category) <= if l.maxBytes < 1 then 1 else l.maxBytes
  }

  predicate RoomAtDestination(t: Table, d: OutboxTable.Draft, l: OutboxTable.Limits, out: int) {
    |set i | i in t.rows && i != out && t.rows[i].status != OutboxTable.Dead && t.rows[i].destination == d.destination|
      < if l.maxPerDestination < 1 then 1 else l.maxPerDestination
  }

  predicate RoomInCategory(t: Table, d: OutboxTable.Draft, l: OutboxTable.Limits, out: int) {
    var category := if d.category != "" then d.category else "message";
    |set i | i in t.rows && i != out && t.rows[i].status != OutboxTable.Dead && t.rows[i].category == category|
      < if l.maxPerCategory < 1 then 1 else l.maxPerCategory
  }

  /** The first check that fails gives the error; when none does the draft is stored, or its origin id is taken. */
  lemma EnqueueChecks(t: Table, d: OutboxTable.Draft, l: OutboxTable.Limits, now: int, out: int)
    requires WellFormed(t) && LeftOut(t, d, out)
    ensures var r := OutboxTable.Enqueued(t, d, l, now).1;
      && (r == Failure(OutboxTable.PendingLimit) <==> !RoomInQueue(t, l, out))
      && (r == Failure(OutboxTable.ByteLimit) <==> RoomInQueue(t, l, out) && !RoomInBytes(t, d, l, out))
      && (r == Failure(OutboxTable.DestinationLimit) <==> RoomInQueue(t, l, out) && RoomInBytes(t, d, l, out) && !RoomAtDestination(t, d, l, out))
      && (r == Failure(OutboxTable.CategoryLimit) <==>
            RoomInQueue(t, l, out) && RoomInBytes(t, d, l, out) && RoomAtDestination(t, d, l, out) && !RoomInCategory(t, d, l, out))
  {
    LeftOutIs(t, d, now, out);
    RoomIs(t, d, l, now, out);
  }

  /** What each of the four comparisons says. */
  lemma RoomIs(t: Table, d: OutboxTable.Draft, l: OutboxTable.Limits, now: int, out: int)
    requires WellFormed(t)
    ensures var rows, r := t.rows - {out}, OutboxTable.FreshRow(d, now);
      && (OutboxTable.Usage(rows, OutboxTable.Messages, t.nextId) + 1 > OutboxTable.Limit(l, OutboxTable.Messages) <==> !RoomInQueue(t, l, out))
      && (OutboxTable.Usage(rows, OutboxTable.Bytes, t.nextId) + Text.Utf8Length(r.destination + r.body + r.messageType + r.category) > OutboxTable.Limit(l, OutboxTable.Bytes) <==>
            !RoomInBytes(t, d, l, out))
      && (OutboxTable.Usage(rows, OutboxTable.ToDestination(r.destination), t.nextId) + 1 > OutboxTable.Limit(l, OutboxTable.ToDestination(r.destination)) <==>
            !RoomAtDestination(t, d, l, out))
      && (OutboxTable.Usage(rows, OutboxTable.InCategory(r.category), t.nextId) + 1 > OutboxTable.Limit(l, OutboxTable.InCategory(r.category)) <==>
            !RoomInCategory(t, d, l, out))
  {
    var incoming := OutboxTable.FreshRow(d, now);
    var others := OutboxTable.Table(t.rows - {out}, t.nextId);
    UsageInFields(others, d.destination, incoming.category);
    LimitInFields(l, d.destination);
    LimitInFields(l, incoming.category);
    OthersAre(t.rows, others.rows, out, d.destination, incoming.category);
    PayloadMatchesTable(incoming);
  }

  lemma LeftOutIs(t: Table, d: OutboxTable.Draft, now: int, out: int)
    requires WellFormed(t) && LeftOut(t, d, out)
    ensures OutboxTable.Without(t.rows, OutboxTable.Excluded(t, OutboxTable.FreshRow(d, now).dedupeKey)) == t.rows - {out}
  {
    var key := OutboxTable.FreshRow(d, now).dedupeKey;
    var found := OutboxTable.FindKey(t.rows, key, t.nextId);
    assert found.Some? ==> HasKey(d, t.rows[found.value].dedupeKey);
    assert t.nextId !in t.rows;
  }

  lemma OthersAre(rows: map<int, Row>, others: map<int, Row>, replaced: int, destination: string, category: string)
    requires others == rows - {replaced}
    ensures (set i | i in others && others[i].status != OutboxTable.Dead) == set i | i in rows && i != replaced && rows[i].status != OutboxTable.Dead
    ensures (set i | i in others && others[i].status != OutboxTable.Dead && others[i].destination == destination)
      == set i | i in rows && i != replaced && rows[i].status != OutboxTable.Dead && rows[i].destination == destination
    ensures (set i | i in others && others[i].status != OutboxTable.Dead && others[i].category == category)
      == set i | i in rows && i != replaced && rows[i].status != OutboxTable.Dead && rows[i].category == category
  {
  }

  // ----- The other statements -----

  /** The message carries its row's texts, names, counters and times. */
  predicate Reports(m: OutboxTable.Message, r: Row) {
    && m.destination == r.destination && m.body == r.body && m.messageType == r.messageType && m.category == r.category
    && m.dedupeKey == r.dedupeKey && m.originId == r.originId && m.attempts == r.attempts && m.maxAttempts == r.maxAttempts
    && m.createdAt == r.createdAt && m.availableAt == r.availableAt && m.lastError == r.lastError
  }

  lemma MessageReports(id: int, r: Row)
    ensures OutboxTable.MessageOf(id, r).id == id && Reports(OutboxTable.MessageOf(id, r), r)
  {
  }

  /** Rows handed out at least that long ago are pending again; the others stay. */
  predicate Recovered(rows: map<int, Row>, after: map<int, Row>, olderThan: int, now: int) {
    after.Keys == rows.Keys && forall i :: i in rows ==>
      var locked := if rows[i].lockedAt.Some? then rows[i].lockedAt.value else 0;
      after[i] == if rows[i].status == OutboxTable.Inflight && locked <= now - (if olderThan < 0 then 0 else olderThan)
                  then rows[i].(status := OutboxTable.Pending, lockedAt := None) else rows[i]
  }

  function Changed(rows: map<int, Row>, after: map<int, Row>): set<int> {
    set i | i in rows && i in after && after[i] != rows[i]
  }

  lemma RecoverInFields(rows: map<int, Row>, olderThan: int, now: int)
    ensures var after := OutboxTable.Recovered(rows, now - Max(0, olderThan));
      Recovered(rows, after, olderThan, now) && OutboxTable.StuckIds(rows, now - Max(0, olderThan)) == Changed(rows, after)
  {
    var cutoff := now - Max(0, olderThan);
    forall i | i in rows ensures OutboxTable.Recovered(rows, cutoff)[i] != rows[i] <==> OutboxTable.Stuck(rows[i], cutoff) {
    }
  }

  /** The dead rows of the category and id, when given, start over; the others stay. */
  predicate Retried(rows: map<int, Row>, after: map<int, Row>, category: Option<string>, only: Option<int>, now: int) {
    after.Keys == rows.Keys && forall i :: i in rows ==>
      var chosen := rows[i].status == OutboxTable.Dead && (only.None? || only.value == i) && (category.None? || category.value == "" || category.value == rows[i].category);
      after[i] == if chosen then rows[i].(status := OutboxTable.Pending, attempts := 0, availableAt := now, lockedAt := None, lastError := None, deadAt := None) else rows[i]
  }

  lemma RetryInFields(rows: map<int, Row>, category: Option<string>, only: Option<int>, now: int)
    ensures Retried(rows, OutboxTable.RetriedRows(rows, category, only, now), category, only, now)
  {
  }

  // ----- Claims -----

  predicate IsDue(r: Row, now: int) {
    r.status == OutboxTable.Pending && r.availableAt <= now
  }

  /** Row j is due to the same destination as row i, and before it in (available_at, id). */
  predicate Precedes(rows: map<int, Row>, now: int, j: int, i: int)
    requires i in rows
  {
    && j in rows && IsDue(rows[j], now) && rows[j].destination == rows[i].destination
    && (rows[j].availableAt < rows[i].availableAt || (rows[j].availableAt == rows[i].availableAt && j < i))
  }

  /** The query's order, column by column: how many precede the row at its destination, when it is due, its id. */
  lemma ClaimOrder(rows: map<int, Row>, now: int, limit: int, claim: set<int>, i: int, j: int)
    requires OutboxTable.IsClaim(rows, now, limit, claim) && i in claim && j in rows && IsDue(rows[j], now) && j !in claim
    ensures i in rows && IsDue(rows[i], now)
    ensures var a, b := |set k | k in rows && Precedes(rows, now, k, i)|, |set k | k in rows && Precedes(rows, now, k, j)|;
      || a < b
      || (a == b && rows[i].availableAt < rows[j].availableAt)
      || (a == b && rows[i].availableAt == rows[j].availableAt && i < j)
  {
    RankIs(rows, now, i);
    RankIs(rows, now, j);
    assert j in OutboxTable.Due(rows, now) - claim;
    OutboxClaims.ClaimedSooner(rows, now, limit, claim, i, j);
  }

  lemma RankIs(rows: map<int, Row>, now: int, i: int)
    requires i in rows
    ensures OutboxTable.Rank(rows, now, i) == 1 + |set k | k in rows && Precedes(rows, now, k, i)|
  {
    assert (set k | k in rows && Precedes(rows, now, k, i))
      == set j | j in OutboxTable.DueTo(rows, now, rows[i].destination) && OutboxTable.Earlier(rows, j, i);
  }

  /** A claim takes due rows only, as many as the limit allows, and from each destination those that precede. */
  lemma ClaimInFields(rows: map<int, Row>, now: int, limit: int, claim: set<int>)
    requires OutboxTable.IsClaim(rows, now, limit, claim)
    ensures forall i :: i in claim ==> i in rows && rows[i].status == OutboxTable.Pending && rows[i].availableAt <= now
    ensures forall i, j :: i in claim && j in rows && Precedes(rows, now, j, i) ==> j in claim
    ensures var due := set i | i in rows && rows[i].status == OutboxTable.Pending && rows[i].availableAt <= now;
      var most := if limit < 1 then 1 else if limit > 200 then 200 else limit;
      |claim| == (if |due| < most then |due| else most) && (|claim| < most ==> claim == due)
  {
    ClaimTakesFirst(rows, now, limit, claim);
    var due := set i | i in rows && rows[i].status == OutboxTable.Pending && rows[i].availableAt <= now;
    assert due == OutboxTable.Due(rows, now);
    SubsetSize(claim, due);
  }

  lemma ClaimTakesFirst(rows: map<int, Row>, now: int, limit: int, claim: set<int>)
    requires OutboxTable.IsClaim(rows, now, limit, claim)
    ensures forall i, j :: i in claim && j in rows && Precedes(rows, now, j, i) ==> j in claim
  {
    forall i, j | i in claim && j in rows && Precedes(rows, now, j, i) ensures j in claim {
      OutboxClaims.ClaimIsPrefixOfDestination(rows, now, limit, claim, i, j);
    }
  }
}
