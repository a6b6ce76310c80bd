/** Pending room invites as values, and the simple expiring map that the store refines. */
module InviteModel {
  import opened Wrappers
  import Text

  datatype InviteKey = InviteKey(room: string, inviter: string)

  datatype Invite = Invite(id: int, room: string, inviter: string, reason: string, createdAt: int) {
    function Key(): InviteKey {
      InviteKey(room, inviter)
    }
  }

  function NormalRoom(room: string): string {
    Text.Lower(Text.Strip(room))
  }

  function NormalInviter(inviter: string): string {
    var name := Text.Lower(Text.Strip(if inviter == "" then "unknown" else inviter));
    if name == "" then "unknown" else name
  }

  function NormalKey(room: string, inviter: string): InviteKey {
    InviteKey(NormalRoom(room), NormalInviter(inviter))
  }

  /** Re-reading a stored row normalizes it again, without effect. */
  lemma NormalKeyIdempotent(room: string, inviter: string)
    ensures var k := NormalKey(room, inviter); NormalKey(k.room, k.inviter) == k
  {
    NormalRoomIdempotent(room);
    var raw := if inviter == "" then "unknown" else inviter;
    NormalRoomIdempotent(raw);
    NormalRoomIdempotent("unknown");
    assert Text.Stripped("unknown");
    Text.StripIsStripped("unknown");
    assert Text.Lower("unknown") == "unknown";
  }

  lemma NormalRoomIdempotent(room: string)
    ensures NormalRoom(NormalRoom(room)) == NormalRoom(room)
  {
    var s := Text.Strip(room);
    Text.StripIsStripped(room);
    assert Text.Stripped(Text.Lower(s));
    Text.StripIsStripped(Text.Lower(s));
    assert Text.Lower(Text.Lower(s)) == Text.Lower(s);
  }

  /** White space around the names and the case of their letters do not matter; an inviter that is blank is "unknown". */
  lemma NormalKeyIs(room: string, inviter: string, a: string, core: string, b: string, c: string, who: string, d: string)
    requires Text.SplitAs(room, a, core, b) && Text.SplitAs(inviter, c, who, d)
    ensures NormalKey(room, inviter) == InviteKey(Text.Lower(core), if who == "" then "unknown" else Text.Lower(who))
  {
    Text.StripIff(room, core);
    Text.StripIff(inviter, who);
    Text.StripIsStripped("unknown");
    assert Text.Stripped("unknown");
    assert Text.Lower("unknown") == "unknown";
  }

  /** `invite_is_expired`: only a positive age limit and a positive timestamp expire. */
  predicate Expired(createdAt: int, maxAgeDays: int, now: int) {
    maxAgeDays > 0 && createdAt > 0 && createdAt < now - maxAgeDays * 86400
  }

  /** The invite is older than an age limit that applies. */
  ghost predicate TooOld(invite: Invite, maxAgeDays: int, now: int) {
    maxAgeDays >= 1 && invite.createdAt >= 1 && now - invite.createdAt > 24 * 60 * 60 * maxAgeDays
  }

  /** Rows are stored under their own id. */
  predicate SelfKeyed(rows: map<int, Invite>) {
    forall i :: i in rows ==> rows[i].id == i
  }

  /** UNIQUE(room_jid, inviter). */
  predicate UniqueKeys(rows: map<int, Invite>) {
    forall i, j :: i in rows && j in rows && rows[i].Key() == rows[j].Key() ==> i == j
  }

  function Keys(rows: map<int, Invite>): set<InviteKey> {
    set i | i in rows :: rows[i].Key()
  }

  ghost function RowOf(rows: map<int, Invite>, key: InviteKey): (i: int)
    requires key in Keys(rows)
    ensures i in rows && rows[i].Key() == key
  {
    var i :| i in rows && rows[i].Key() == key;
    i
  }

  /** The map a reader of the documentation has in mind: one invite per (room, inviter). */
  ghost function Abstract(rows: map<int, Invite>): (m: map<InviteKey, Invite>)
    requires UniqueKeys(rows)
    ensures forall i :: i in rows ==> rows[i].Key() in m && m[rows[i].Key()] == rows[i]
  {
    map key | key in Keys(rows) :: rows[RowOf(rows, key)]
  }

  lemma InsertUnique(rows: map<int, Invite>, invite: Invite)
    requires UniqueKeys(rows) && invite.id !in rows && invite.Key() !in Keys(rows)
    ensures UniqueKeys(rows[invite.id := invite])
  {
    forall i | i in rows ensures rows[i].Key() != invite.Key() {
      assert rows[i].Key() in Keys(rows);
    }
  }

  lemma AbstractInsert(rows: map<int, Invite>, invite: Invite)
    requires UniqueKeys(rows) && UniqueKeys(rows[invite.id := invite]) && invite.id !in rows && invite.Key() !in Keys(rows)
    ensures Abstract(rows[invite.id := invite]) == Abstract(rows)[invite.Key() := invite]
  {
    KeysInsert(rows, invite);
    forall i | i in rows ensures rows[i].Key() in Keys(rows) {
    }
    AbstractUnique(rows[invite.id := invite], Abstract(rows)[invite.Key() := invite]);
  }

  /** A map listing exactly the rows by key is their abstraction. */
  lemma AbstractUnique(rows: map<int, Invite>, m: map<InviteKey, Invite>)
    requires UniqueKeys(rows) && m.Keys == Keys(rows)
    requires forall i :: i in rows ==> rows[i].Key() in m && m[rows[i].Key()] == rows[i]
    ensures Abstract(rows) == m
  {
    forall key | key in m ensures Abstract(rows)[key] == m[key] {
      var i := RowOf(rows, key);
    }
  }

  lemma KeysInsert(rows: map<int, Invite>, invite: Invite)
    requires invite.id !in rows
    ensures Keys(rows[invite.id := invite]) == Keys(rows) + {invite.Key()}
  {
    var after := rows[invite.id := invite];
    forall key | key in Keys(rows) + {invite.Key()} ensures key in Keys(after) {
      if key == invite.Key() {
        assert after[invite.id].Key() == key;
      } else {
        var i := RowOf(rows, key);
        assert after[i].Key() == key;
      }
    }
  }

  lemma AbstractRemove(rows: map<int, Invite>, id: int)
    requires UniqueKeys(rows) && id in rows
    ensures UniqueKeys(rows - {id}) && Keys(rows - {id}) == Keys(rows) - {rows[id].Key()}
    ensures Abstract(rows - {id}) == Abstract(rows) - {rows[id].Key()}
  {
    var after := rows - {id};
    forall key | key in Keys(rows) - {rows[id].Key()} ensures key in Keys(after) {
      var i := RowOf(rows, key);
      assert i in after && after[i].Key() == key;
    }
    AbstractUnique(after, Abstract(rows) - {rows[id].Key()});
  }

  predicate Live(m: map<InviteKey, Invite>, key: InviteKey, maxAgeDays: int, now: int) {
    key in m && !Expired(m[key].createdAt, maxAgeDays, now)
  }

  /** Delivering an invite: the first delivery of a lifetime wins, later ones change nothing. */
  function Delivered(m: map<InviteKey, Invite>, key: InviteKey, reason: string, maxAgeDays: int, now: int, id: int): (map<InviteKey, Invite>, Invite, bool) {
    if Live(m, key, maxAgeDays, now) then (m, m[key], false)
    else
      var invite := Invite(id, key.room, key.inviter, reason, now);
      (m[key := invite], invite, true)
  }

  function Holding(rows: map<int, Invite>, key: InviteKey): set<int> {
    set i | i in rows && rows[i].Key() == key
  }

  lemma HoldingOne(rows: map<int, Invite>, i: int)
    requires UniqueKeys(rows) && i in rows
    ensures Holding(rows, rows[i].Key()) == {i}
  {
    assert i in Holding(rows, rows[i].Key());
    forall j | j in Holding(rows, rows[i].Key()) ensures j == i {
      assert rows[j].Key() == rows[i].Key();
    }
  }

  lemma HoldingNone(rows: map<int, Invite>, key: InviteKey)
    requires key !in Keys(rows)
    ensures Holding(rows, key) == {} && rows - Holding(rows, key) == rows
  {
    forall j | j in rows ensures rows[j].Key() != key {
      assert rows[j].Key() in Keys(rows);
    }
    assert Holding(rows, key) == {};
  }

  /** The same delivery seen on the rows: what is stored before and after. */
  predicate DeliveredRows(before: map<int, Invite>, key: InviteKey, reason: string, maxAgeDays: int, now: int,
                          after: map<int, Invite>, invite: Invite, created: bool) {
    && invite.Key() == key
    && if created then
         && (forall i :: i in Holding(before, key) ==> Expired(before[i].createdAt, maxAgeDays, now))
         && invite.id !in before && invite.reason == reason && invite.createdAt == now
         && after == (before - Holding(before, key))[invite.id := invite]
       else
         && after == before && invite.id in before && before[invite.id] == invite
         && !Expired(invite.createdAt, maxAgeDays, now)
  }

  lemma DeliveredRefines(before: map<int, Invite>, key: InviteKey, reason: string, maxAgeDays: int, now: int,
                         after: map<int, Invite>, invite: Invite, created: bool)
    requires UniqueKeys(before) && DeliveredRows(before, key, reason, maxAgeDays, now, after, invite, created)
    ensures UniqueKeys(after)
    ensures (Abstract(after), invite, created) == Delivered(Abstract(before), key, reason, maxAgeDays, now, invite.id)
  {
    if !created {
    } else if key in Keys(before) {
      var i := RowOf(before, key);
      HoldingOne(before, i);
      ReplacementIsUpdate(before, i, invite);
    } else {
      HoldingNone(before, key);
      InsertUnique(before, invite);
      AbstractInsert(before, invite);
    }
  }

  lemma ReplacementIsUpdate(rows: map<int, Invite>, i: int, invite: Invite)
    requires UniqueKeys(rows) && i in rows && invite.id !in rows && rows[i].Key() == invite.Key()
    ensures UniqueKeys((rows - {i})[invite.id := invite])
    ensures Abstract((rows - {i})[invite.id := invite]) == Abstract(rows)[invite.Key() := invite]
  {
    AbstractRemove(rows, i);
    InsertUnique(rows - {i}, invite);
    AbstractInsert(rows - {i}, invite);
    assert Abstract(rows)[invite.Key() := invite] == (Abstract(rows) - {invite.Key()})[invite.Key() := invite];
  }

  function Unexpired(m: map<int, Invite>, maxAgeDays: int, now: int): map<int, Invite> {
    map i | i in m && !Expired(m[i].createdAt, maxAgeDays, now) :: m[i]
  }

  function ExpiredIds(rows: map<int, Invite>, maxAgeDays: int, now: int): set<int> {
    set i | i in rows && Expired(rows[i].createdAt, maxAgeDays, now)
  }

  lemma ExpiryPartition(rows: map<int, Invite>, maxAgeDays: int, now: int)
    ensures rows - ExpiredIds(rows, maxAgeDays, now) == Unexpired(rows, maxAgeDays, now)
    ensures |rows| == |Unexpired(rows, maxAgeDays, now)| + |ExpiredIds(rows, maxAgeDays, now)|
    ensures ExpiredIds(rows, maxAgeDays, now) == {} ==> Unexpired(rows, maxAgeDays, now) == rows
  {
    var kept, gone := Unexpired(rows, maxAgeDays, now), ExpiredIds(rows, maxAgeDays, now);
    assert rows.Keys == kept.Keys + gone;
    assert |rows.Keys| == |kept.Keys| + |gone|;
  }

  lemma NothingExpires(rows: map<int, Invite>, maxAgeDays: int, now: int)
    requires maxAgeDays <= 0
    ensures Unexpired(rows, maxAgeDays, now) == rows
  {
    forall i | i in rows ensures i in Unexpired(rows, maxAgeDays, now) {
      assert !Expired(rows[i].createdAt, maxAgeDays, now);
    }
  }

  /** Every row stays unless it is too old. */
  ghost predicate Swept(before: map<int, Invite>, maxAgeDays: int, now: int, after: map<int, Invite>) {
    && (forall i :: i in before ==> (i in after <==> !TooOld(before[i], maxAgeDays, now)))
    && (forall i :: i in after ==> i in before && after[i] == before[i])
  }

  ghost predicate SameNames(invite: Invite, key: InviteKey) {
    invite.room == key.room && invite.inviter == key.inviter
  }

  /** A new invite is made exactly when each earlier one of these names is too old; other invites stay. */
  ghost predicate StoredInFields(before: map<int, Invite>, key: InviteKey, reason: string, maxAgeDays: int, now: int,
                                 after: map<int, Invite>, invite: Invite, created: bool) {
    && SameNames(invite, key) && invite.id in after && after[invite.id] == invite
    && (created <==> forall i :: i in before && SameNames(before[i], key) ==> TooOld(before[i], maxAgeDays, now))
    && (created ==> invite.id !in before && invite.reason == reason && invite.createdAt == now)
    && (!created ==> after == before)
    && (forall i :: i in before && !SameNames(before[i], key) ==> i in after && after[i] == before[i])
    && (forall i :: i in after && i != invite.id ==> i in before && after[i] == before[i] && !SameNames(after[i], key))
  }

  lemma UnexpiredIsSwept(rows: map<int, Invite>, maxAgeDays: int, now: int)
    ensures Swept(rows, maxAgeDays, now, Unexpired(rows, maxAgeDays, now))
  {
  }

  lemma DeliveredInFields(before: map<int, Invite>, key: InviteKey, reason: string, maxAgeDays: int, now: int,
                          after: map<int, Invite>, invite: Invite, created: bool)
    requires UniqueKeys(before) && SelfKeyed(before) && DeliveredRows(before, key, reason, maxAgeDays, now, after, invite, created)
    ensures StoredInFields(before, key, reason, maxAgeDays, now, after, invite, created)
  {
    forall i | i in before ensures SameNames(before[i], key) <==> i in Holding(before, key) {
    }
    if !created {
      HoldingOne(before, invite.id);
    }
  }

  // ----- Whole runs of deliveries against the simple map -----

  datatype Delivery = Delivery(key: InviteKey, reason: string, maxAgeDays: int, now: int, id: int)

  function AfterDeliveries(m: map<InviteKey, Invite>, ds: seq<Delivery>): map<InviteKey, Invite> {
    if ds == [] then m
    else
      var d := ds[|ds| - 1];
      Delivered(AfterDeliveries(m, ds[..|ds| - 1]), d.key, d.reason, d.maxAgeDays, d.now, d.id).0
  }

  /** Until it expires for some delivery, an invite keeps its id, reason and timestamp, and no duplicate is reported as created. */
  lemma {:induction false} DuplicatesKeepFirst(m: map<InviteKey, Invite>, ds: seq<Delivery>, key: InviteKey)
    requires key in m
    requires forall i :: 0 <= i < |ds| && ds[i].key == key ==> !Expired(m[key].createdAt, ds[i].maxAgeDays, ds[i].now)
    ensures var after := AfterDeliveries(m, ds); key in after && after[key] == m[key]
    ensures forall d: Delivery :: d.key == key && !Expired(m[key].createdAt, d.maxAgeDays, d.now) ==>
      !Delivered(AfterDeliveries(m, ds), d.key, d.reason, d.maxAgeDays, d.now, d.id).2
  {
    if ds != [] {
      DuplicatesKeepFirst(m, ds[..|ds| - 1], key);
    }
  }
}
