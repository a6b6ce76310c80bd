/**
 The outbox table as a value: rows, the id counter, and what each SQL statement of the store does to them.
 The clock is an argument of every operation that reads it.
 */
module OutboxTable {
  import opened Wrappers
  import Text
  import Ordering

  datatype Status = Pending | Inflight | Dead

  datatype Row = Row(
    destination: string, body: string, messageType: string, category: string,
    dedupeKey: Option<string>, originId: string, status: Status,
    attempts: int, maxAttempts: int, createdAt: int, availableAt: int,
    lockedAt: Option<int>, lastError: Option<string>, deadAt: Option<int>)

  /** `nextId` is the AUTOINCREMENT counter: above every id ever handed out. */
  datatype Table = Table(rows: map<int, Row>, nextId: int)

  const Empty := Table(map[], 1)

  /** What a worker holds after a claim: the row's columns at that moment. */
  datatype Message = Message(
    id: int, destination: string, body: string, messageType: string, category: string,
    dedupeKey: Option<string>, originId: string, attempts: int, maxAttempts: int,
    createdAt: int, availableAt: int, lastError: Option<string>)

  function MessageOf(id: int, r: Row): Message {
    Message(id, r.destination, r.body, r.messageType, r.category, r.dedupeKey, r.originId,
            r.attempts, r.maxAttempts, r.createdAt, r.availableAt, r.lastError)
  }

  /** Arguments of `enqueue` other than the limits. `freshOrigin` stands for the generated uuid. */
  datatype Draft = Draft(
    destination: string, body: string, messageType: string, category: string,
    dedupeKey: Option<string>, originId: string, freshOrigin: string,
    availableAt: Option<int>, maxAttempts: int)

  datatype Limits = Limits(maxPending: int, maxBytes: int, maxPerDestination: int, maxPerCategory: int)

  datatype EnqueueError = PendingLimit | ByteLimit | DestinationLimit | CategoryLimit | OriginClash

  // ----- Usage: the four quantities the store limits -----

  datatype Measure = Messages | Bytes | ToDestination(destination: string) | InCategory(category: string)

  function PayloadBytes(r: Row): nat {
    Text.Utf8Length(r.destination) + Text.Utf8Length(r.body) + Text.Utf8Length(r.messageType) + Text.Utf8Length(r.category)
  }

  /** How much one row counts: dead rows count nothing. */
  function Weight(m: Measure, r: Row): nat {
    if r.status.Dead? then 0
    else match m
      case Messages => 1
      case Bytes => PayloadBytes(r)
      case ToDestination(d) => if r.destination == d then 1 else 0
      case InCategory(c) => if r.category == c then 1 else 0
  }

  function Contribution(rows: map<int, Row>, m: Measure, id: int): nat {
    if id in rows then Weight(m, rows[id]) else 0
  }

  /** Aggregate over the ids below `n`. */
  function Usage(rows: map<int, Row>, m: Measure, n: int): nat {
    if n <= 0 then 0 else Usage(rows, m, n - 1) + Contribution(rows, m, n - 1)
  }

  function Limit(l: Limits, m: Measure): int {
    match m
    case Messages => Max(1, l.maxPending)
    case Bytes => Max(1, l.maxBytes)
    case ToDestination(_) => Max(1, l.maxPerDestination)
    case InCategory(_) => Max(1, l.maxPerCategory)
  }

  ghost predicate Within(t: Table, l: Limits) {
    forall m: Measure :: Usage(t.rows, m, t.nextId) <= Limit(l, m)
  }

  // ----- Enqueue -----

  function NormalKey(d: Draft): Option<string> {
    match d.dedupeKey
    case None => None
    case Some(k) => if k == "" then None else Some(Text.Strip(k))
  }

  /** The row a draft inserts when nothing conflicts. */
  function FreshRow(d: Draft, now: int): Row {
    var origin := Text.Strip(d.originId);
    Row(d.destination, d.body,
        if d.messageType == "" then "chat" else d.messageType,
        if d.category == "" then "message" else d.category,
        NormalKey(d), if origin == "" then d.freshOrigin else origin, Pending,
        0, Max(1, d.maxAttempts), now, d.availableAt.GetOr(now), None, None, None)
  }

  /** The conflict clause of the upsert. */
  function Merged(kept: Row, incoming: Row): Row {
    var moved := kept.(destination := incoming.destination, body := incoming.body, messageType := incoming.messageType,
                      category := incoming.category, maxAttempts := incoming.maxAttempts,
                      availableAt := Min(kept.availableAt, incoming.availableAt));
    if kept.status.Dead? then moved.(status := Pending, attempts := 0, lockedAt := None, lastError := None, deadAt := None)
    else moved
  }

  /** The row below `n` holding a dedupe key, if any. */
  function FindKey(rows: map<int, Row>, key: Option<string>, n: int): (r: Option<int>)
    ensures r.Some? ==> r.value in rows && rows[r.value].dedupeKey == key && key.Some? && r.value < n
    ensures r.None? && key.Some? ==> forall id :: id in rows && 0 <= id < n ==> rows[id].dedupeKey != key
  {
    if key.None? || n <= 0 then None
    else if n - 1 in rows && rows[n - 1].dedupeKey == key then Some(n - 1)
    else FindKey(rows, key, n - 1)
  }

  /** The id excluded from the capacity reads: a blank key is not looked up. */
  function Excluded(t: Table, key: Option<string>): Option<int> {
    if key == Some("") then None else FindKey(t.rows, key, t.nextId)
  }

  function Without(rows: map<int, Row>, id: Option<int>): map<int, Row> {
    match id
    case None => rows
    case Some(i) => rows - {i}
  }

  function CapacityError(rows: map<int, Row>, n: int, incoming: Row, l: Limits): Option<EnqueueError> {
    if Usage(rows, Messages, n) + 1 > Limit(l, Messages) then Some(PendingLimit)
    else if Usage(rows, Bytes, n) + Text.Utf8Length(incoming.destination + incoming.body + incoming.messageType + incoming.category) > Limit(l, Bytes) then Some(ByteLimit)
    else if Usage(rows, ToDestination(incoming.destination), n) + 1 > Limit(l, ToDestination(incoming.destination)) then Some(DestinationLimit)
    else if Usage(rows, InCategory(incoming.category), n) + 1 > Limit(l, InCategory(incoming.category)) then Some(CategoryLimit)
    else None
  }

  predicate OriginTaken(rows: map<int, Row>, origin: string) {
    exists id :: id in rows && rows[id].originId == origin
  }

  function Enqueued(t: Table, d: Draft, l: Limits, now: int): (Table, Result<int, EnqueueError>) {
    var incoming := FreshRow(d, now);
    var refusal := CapacityError(Without(t.rows, Excluded(t, incoming.dedupeKey)), t.nextId, incoming, l);
    if refusal.Some? then (t, Failure(refusal.value))
    else match FindKey(t.rows, incoming.dedupeKey, t.nextId)
      case Some(id) => (t.(rows := t.rows[id := Merged(t.rows[id], incoming)]), Success(id))
      case None =>
        if OriginTaken(t.rows, incoming.originId) then (t, Failure(OriginClash))
        else (Table(t.rows[t.nextId := incoming], t.nextId + 1), Success(t.nextId))
  }

  // ----- Claiming -----

  function Due(rows: map<int, Row>, now: int): set<int> {
    set id | id in rows && rows[id].status.Pending? && rows[id].availableAt <= now
  }

  function DueTo(rows: map<int, Row>, now: int, destination: string): set<int> {
    set id | id in Due(rows, now) && rows[id].destination == destination
  }

  /** ORDER BY available_at, id. */
  predicate Earlier(rows: map<int, Row>, i: int, j: int)
    requires i in rows && j in rows
  {
    rows[i].availableAt < rows[j].availableAt || (rows[i].availableAt == rows[j].availableAt && i < j)
  }

  /** ROW_NUMBER() OVER (PARTITION BY destination ORDER BY available_at, id). */
  function Rank(rows: map<int, Row>, now: int, i: int): nat
    requires i in rows
  {
    1 + |set j | j in DueTo(rows, now, rows[i].destination) && Earlier(rows, j, i)|
  }

  /** ORDER BY destination_rank, available_at, id. */
  function ClaimKey(rows: map<int, Row>, now: int, i: int): Ordering.Key
    requires i in rows
  {
    Ordering.Key(Rank(rows, now, i), rows[i].availableAt, i)
  }

  predicate Sooner(rows: map<int, Row>, now: int, i: int, j: int)
    requires i in rows && j in rows
  {
    Ordering.Less(ClaimKey(rows, now, i), ClaimKey(rows, now, j))
  }

  function ClaimLimit(limit: int): nat {
    Max(1, Min(200, limit))
  }

  /** The statement's result: `LIMIT` rows, none of them after a due row left out. */
  predicate IsClaim(rows: map<int, Row>, now: int, limit: int, claim: set<int>) {
    && claim <= Due(rows, now)
    && |claim| == Min(ClaimLimit(limit), |Due(rows, now)|)
    && forall i, j :: i in claim && j in Due(rows, now) - claim ==> Sooner(rows, now, i, j)
  }

  function Claimed(rows: map<int, Row>, claim: set<int>, now: int): map<int, Row> {
    map id | id in rows :: if id in claim then rows[id].(status := Inflight, lockedAt := Some(now)) else rows[id]
  }

  // ----- Single-statement updates -----

  predicate Stuck(r: Row, cutoff: int) {
    r.status.Inflight? && r.lockedAt.GetOr(0) <= cutoff
  }

  function StuckIds(rows: map<int, Row>, cutoff: int): set<int> {
    set id | id in rows && Stuck(rows[id], cutoff)
  }

  function Recovered(rows: map<int, Row>, cutoff: int): map<int, Row> {
    map id | id in rows :: if Stuck(rows[id], cutoff) then rows[id].(status := Pending, lockedAt := None) else rows[id]
  }

  function Deferred(rows: map<int, Row>, id: int, delay: int, reason: Option<string>, now: int): map<int, Row> {
    if id !in rows then rows
    else rows[id := rows[id].(status := Pending, availableAt := now + Max(1, delay), lockedAt := None,
                              lastError := if reason == Some("") then None else reason)]
  }

  predicate Exhausted(m: Message) {
    m.attempts + 1 >= m.maxAttempts
  }

  function Failed(rows: map<int, Row>, m: Message, error: string, delay: int, now: int, deadNow: int): map<int, Row> {
    if m.id !in rows then rows
    else rows[m.id := rows[m.id].(
      status := if Exhausted(m) then Dead else Pending, attempts := m.attempts + 1,
      availableAt := now + Max(1, delay), lockedAt := None, lastError := Some(error),
      deadAt := if Exhausted(m) then Some(deadNow) else None)]
  }

  predicate Retried(id: int, r: Row, category: Option<string>, only: Option<int>) {
    && r.status.Dead?
    && (category.Some? && category.value != "" ==> r.category == category.value)
    && (only.Some? ==> id == only.value)
  }

  function RetriedIds(rows: map<int, Row>, category: Option<string>, only: Option<int>): set<int> {
    set id | id in rows && Retried(id, rows[id], category, only)
  }

  function RetriedRows(rows: map<int, Row>, category: Option<string>, only: Option<int>, now: int): map<int, Row> {
    map id | id in rows :: if Retried(id, rows[id], category, only)
      then rows[id].(status := Pending, attempts := 0, availableAt := now, lockedAt := None, lastError := None, deadAt := None)
      else rows[id]
  }

  function DeadIds(rows: map<int, Row>): set<int> {
    set id | id in rows && rows[id].status.Dead?
  }

  function PrunedIds(rows: map<int, Row>, days: int, now: int): set<int> {
    if days <= 0 then {}
    else set id | id in rows && rows[id].status.Dead? && rows[id].deadAt.GetOr(rows[id].createdAt) < now - days * 86400
  }

  // ----- One step of the store -----

  datatype Op =
    | Enqueue(draft: Draft, limits: Limits, now: int)
    | ClaimDue(limit: int, now: int)
    | RecoverInflight(olderThan: int, now: int)
    | Defer(id: int, delay: int, reason: Option<string>, now: int)
    | MarkFailed(message: Message, error: string, delay: int, now: int, deadNow: int)
    | RetryDead(category: Option<string>, only: Option<int>, now: int)
    | MarkSent(id: int)
    | Delete(id: int)
    | DeleteDead
    | PruneDead(days: int, now: int)

  /** The ids a statement deletes. */
  function RemovedIds(t: Table, op: Op): set<int> {
    match op
    case MarkSent(id) => {id}
    case Delete(id) => {id}
    case DeleteDead => DeadIds(t.rows)
    case PruneDead(days, now) => PrunedIds(t.rows, days, now)
    case _ => {}
  }

  ghost predicate Step(t: Table, op: Op, t': Table) {
    match op
    case Enqueue(draft, limits, now) => t' == Enqueued(t, draft, limits, now).0
    case ClaimDue(limit, now) =>
      exists claim :: IsClaim(t.rows, now, limit, claim) && t' == t.(rows := Claimed(t.rows, claim, now))
    case RecoverInflight(olderThan, now) => t' == t.(rows := Recovered(t.rows, now - Max(0, olderThan)))
    case Defer(id, delay, reason, now) => t' == t.(rows := Deferred(t.rows, id, delay, reason, now))
    case MarkFailed(m, error, delay, now, deadNow) => t' == t.(rows := Failed(t.rows, m, error, delay, now, deadNow))
    case RetryDead(category, only, now) => t' == t.(rows := RetriedRows(t.rows, category, only, now))
    case _ => t' == t.(rows := t.rows - RemovedIds(t, op))
  }
}
