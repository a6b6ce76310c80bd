/** The cache, its secondary index and the repository behind them. */
module InviteStore {
  import opened Wrappers
  import opened InviteModel
  import Ordering

  /** The SQL repository; its availability is fixed for the run. */
  class Repository {
    var rows: map<int, Invite>
    var nextRowId: int
    const available: bool

    ghost predicate Valid()
      reads this
    {
      && SelfKeyed(rows) && UniqueKeys(rows)
      && nextRowId >= 1 && forall i :: i in rows ==> 1 <= i < nextRowId
    }

    constructor (available: bool)
      ensures Valid() && rows == map[] && this.available == available
    {
      this.available := available;
      rows := map[];
      nextRowId := 1;
    }

    method InsertIfAbsent(key: InviteKey, reason: string, createdAt: int) returns (invite: Invite, created: bool)
      requires Valid()
      modifies this
      ensures Valid()
      ensures created <==> key !in Keys(old(rows))
      ensures !created ==> rows == old(rows) && invite.id in rows && rows[invite.id] == invite && invite.Key() == key
      ensures created ==> invite == Invite(old(nextRowId), key.room, key.inviter, reason, createdAt) && rows == old(rows)[invite.id := invite]
      ensures nextRowId == old(nextRowId) + if created then 1 else 0
    {
      if i :| i in rows && rows[i].Key() == key {
        return rows[i], false;
      }
      assert key !in Keys(rows);
      invite := Invite(nextRowId, key.room, key.inviter, reason, createdAt);
      created := true;
      rows := rows[nextRowId := invite];
      nextRowId := nextRowId + 1;
    }

    method Delete(ids: set<int>) returns (count: nat)
      requires Valid()
      modifies this`rows
      ensures Valid() && rows == old(rows) - ids && count == |old(rows)| - |rows|
    {
      var gone := ids * rows.Keys;
      assert rows.Keys == (rows - ids).Keys + gone;
      assert |rows.Keys| == |(rows - ids).Keys| + |gone|;
      count := |gone|;
      rows := rows - ids;
    }
  }

  method SortedIds(ids: set<int>) returns (order: seq<int>)
    ensures Elements(order) == ids
    ensures forall i, j :: 0 <= i < j < |order| ==> order[i] < order[j]
  {
    var keys := map i | i in ids :: Ordering.Key(0, 0, i);
    order := Ordering.Select(ids, keys, |ids|);
    if Elements(order) != ids {
      SubsetSize(Elements(order), ids);
    }
    forall i, j | 0 <= i < j < |order| ensures order[i] < order[j] {
      assert Ordering.Less(keys[order[i]], keys[order[j]]);
    }
  }

  lemma LastIsLargest(order: seq<int>)
    requires forall i, j :: 0 <= i < j < |order| ==> order[i] < order[j]
    ensures order != [] ==> order[|order| - 1] in Elements(order)
    ensures forall i :: i in Elements(order) ==> order != [] && i <= order[|order| - 1]
  {
    forall i | i in Elements(order) ensures order != [] && i <= order[|order| - 1] {
      var k :| 0 <= k < |order| && order[k] == i;
      assert k == |order| - 1 || order[k] < order[|order| - 1];
    }
  }

  predicate Leads(all: map<int, Invite>, i: int)
    requires i in all
  {
    forall j :: j in all && all[j].Key() == all[i].Key() ==> i <= j
  }

  /** What a rebuilt cache keeps of adopted state: the lowest id of each key. */
  function FirstPerKey(all: map<int, Invite>): map<int, Invite> {
    map i | i in all && Leads(all, i) :: all[i]
  }

  lemma FirstPerKeyUnique(all: map<int, Invite>)
    ensures UniqueKeys(FirstPerKey(all))
    ensures UniqueKeys(all) ==> FirstPerKey(all) == all
  {
    if UniqueKeys(all) {
      forall i | i in all ensures i in FirstPerKey(all) {
        assert Leads(all, i);
      }
    }
  }

  lemma FirstPerKeyAdd(seen: map<int, Invite>, invite: Invite)
    requires SelfKeyed(seen) && forall i :: i in seen ==> i < invite.id
    ensures var after := FirstPerKey(seen[invite.id := invite]);
      if invite.Key() in Keys(seen) then after == FirstPerKey(seen) else after == FirstPerKey(seen)[invite.id := invite]
  {
    var all := seen[invite.id := invite];
    forall i | i in seen ensures Leads(all, i) <==> Leads(seen, i) {
      assert forall j :: j in seen ==> all[j] == seen[j];
    }
    if invite.Key() in Keys(seen) {
      var j := RowOf(seen, invite.Key());
      assert all[j].Key() == invite.Key();
      assert !Leads(all, invite.id);
    } else {
      forall j | j in seen ensures seen[j].Key() != invite.Key() {
        assert seen[j].Key() in Keys(seen);
      }
      assert Leads(all, invite.id);
    }
  }

  /** The invites among the first `n` of an ordered list of ids. */
  function Prefix(all: map<int, Invite>, order: seq<int>, n: nat): map<int, Invite>
    requires n <= |order|
  {
    map i | i in all && i in Elements(order[..n]) :: all[i]
  }

  lemma PrefixEnds(all: map<int, Invite>, order: seq<int>)
    requires Elements(order) == all.Keys
    ensures Prefix(all, order, 0) == map[] && Prefix(all, order, |order|) == all
  {
    assert order[..|order|] == order;
    assert Elements(order[..0]) == {};
  }

  lemma PrefixStep(all: map<int, Invite>, order: seq<int>, n: nat)
    requires SelfKeyed(all) && Elements(order) == all.Keys && n < |order|
    requires forall i, j :: 0 <= i < j < |order| ==> order[i] < order[j]
    ensures order[n] in all
    ensures var p, q, invite := Prefix(all, order, n), Prefix(all, order, n + 1), all[order[n]];
      && (forall i :: i in p ==> i < invite.id)
      && Keys(q) == Keys(p) + {invite.Key()}
      && FirstPerKey(q) == if invite.Key() in Keys(p) then FirstPerKey(p) else FirstPerKey(p)[invite.id := invite]
  {
    PrefixGrows(all, order, n);
    var p, invite := Prefix(all, order, n), all[order[n]];
    FirstPerKeyAdd(p, invite);
    KeysInsert(p, invite);
  }

  lemma PrefixGrows(all: map<int, Invite>, order: seq<int>, n: nat)
    requires SelfKeyed(all) && Elements(order) == all.Keys && n < |order|
    requires forall i, j :: 0 <= i < j < |order| ==> order[i] < order[j]
    ensures order[n] in all && all[order[n]].id == order[n]
    ensures var p := Prefix(all, order, n);
      (forall i :: i in p ==> i < order[n]) && Prefix(all, order, n + 1) == p[order[n] := all[order[n]]]
  {
    assert order[n] in Elements(order);
    forall i | i in Prefix(all, order, n) ensures i < order[n] {
      var k :| 0 <= k < n && order[..n][k] == i;
    }
    assert order[..n + 1] == order[..n] + [order[n]];
    ElementsAppend(order[..n], order[n]);
  }

  /** index[k] = i exactly when pending[i] has key k. */
  ghost predicate Linked(pending: map<int, Invite>, index: map<InviteKey, int>) {
    && SelfKeyed(pending)
    && (forall k :: k in index ==> index[k] in pending && pending[index[k]].Key() == k)
    && (forall i :: i in pending ==> pending[i].Key() in index && index[pending[i].Key()] == i)
  }

  /** What the rebuild has kept after `n` rounds. */
  function Kept(all: map<int, Invite>, order: seq<int>, n: nat): (map<int, Invite>, set<InviteKey>)
    requires n <= |order| && forall k :: 0 <= k < |order| ==> order[k] in all
  {
    if n == 0 then (map[], {})
    else
      var (kept, keys) := Kept(all, order, n - 1);
      var invite := all[order[n - 1]];
      if invite.Key() in keys then (kept, keys) else (kept[invite.id := invite], keys + {invite.Key()})
  }

  /** A list of all the ids, lowest first. */
  predicate Lists(order: seq<int>, all: map<int, Invite>) {
    && (forall k :: 0 <= k < |order| ==> order[k] in all)
    && Elements(order) == all.Keys && forall i, j :: 0 <= i < j < |order| ==> order[i] < order[j]
  }

  predicate KeptRight(all: map<int, Invite>, order: seq<int>, n: nat)
    requires Lists(order, all) && n <= |order|
  {
    Kept(all, order, n).0 == FirstPerKey(Prefix(all, order, n)) && Kept(all, order, n).1 == Keys(Prefix(all, order, n))
  }

  lemma KeptNothing(all: map<int, Invite>, order: seq<int>)
    requires Lists(order, all)
    ensures KeptRight(all, order, 0)
  {
    PrefixEnds(all, order);
  }

  lemma KeptStep(all: map<int, Invite>, order: seq<int>, n: nat)
    requires SelfKeyed(all) && Lists(order, all) && n < |order| && KeptRight(all, order, n)
    ensures KeptRight(all, order, n + 1)
  {
    PrefixStep(all, order, n);
    var key := all[order[n]].Key();
    if key in Keys(Prefix(all, order, n)) {
      assert Keys(Prefix(all, order, n)) + {key} == Keys(Prefix(all, order, n));
    }
  }

  lemma {:induction false} KeptIsFirstPerKey(all: map<int, Invite>, order: seq<int>, n: nat)
    requires SelfKeyed(all) && Lists(order, all) && n <= |order|
    ensures KeptRight(all, order, n)
  {
    KeptNothing(all, order);
    for m := 0 to n
      invariant KeptRight(all, order, m)
    {
      KeptStep(all, order, m);
    }
  }

  /** The rebuild loop: lowest ids first, and a key already indexed keeps its earlier invite. */
  method Rebuild(all: map<int, Invite>) returns (pending: map<int, Invite>, index: map<InviteKey, int>, nextId: int)
    requires SelfKeyed(all)
    ensures Linked(pending, index) && pending == FirstPerKey(all)
    ensures nextId >= 1 && (forall i :: i in all ==> i < nextId) && (nextId == 1 || nextId - 1 in all)
  {
    var order := SortedIds(all.Keys);
    assert forall k :: 0 <= k < |order| ==> order[k] in Elements(order);
    var maxId: int;
    pending, index, maxId := KeepFirst(all, order);
    nextId := maxId + 1;
    LastIsLargest(order);
    KeptIsFirstPerKey(all, order, |order|);
    PrefixEnds(all, order);
  }

  method KeepFirst(all: map<int, Invite>, order: seq<int>) returns (pending: map<int, Invite>, index: map<InviteKey, int>, maxId: int)
    requires SelfKeyed(all) && forall k :: 0 <= k < |order| ==> order[k] in all
    requires forall i, j :: 0 <= i < j < |order| ==> order[i] < order[j]
    ensures Linked(pending, index) && pending == Kept(all, order, |order|).0
    ensures maxId == if order == [] then 0 else Max(0, order[|order| - 1])
  {
    pending, index, maxId := map[], map[], 0;
    for n := 0 to |order|
      invariant Linked(pending, index) && pending == Kept(all, order, n).0 && index.Keys == Kept(all, order, n).1
      invariant forall i :: i in pending ==> n > 0 && i <= order[n - 1]
      invariant maxId == if n == 0 then 0 else Max(0, order[n - 1])
    {
      var invite := all[order[n]];
      maxId := Max(maxId, invite.id);
      LinkedInsert(pending, index, invite);
      if invite.Key() !in index {
        pending := pending[invite.id := invite];
        index := index[invite.Key() := invite.id];
      }
    }
  }

  lemma LinkedInsert(pending: map<int, Invite>, index: map<InviteKey, int>, invite: Invite)
    requires Linked(pending, index)
    ensures invite.Key() !in index && invite.id !in pending ==> Linked(pending[invite.id := invite], index[invite.Key() := invite.id])
  {
  }

  class InviteStore {
    const repository: Repository?
    var pending: map<int, Invite>
    var index: map<InviteKey, int>
    var nextId: int

    /** The repository objects this store writes. */
    ghost function Storage(): set<object> {
      if repository == null then {this} else {this, repository}
    }

    predicate Online() {
      repository != null && repository.available
    }

    ghost predicate Coherent()
      reads this
    {
      Linked(pending, index) && forall i :: i in pending ==> i < nextId
    }

    ghost predicate Valid()
      reads this, repository
    {
      && Coherent()
      && (Online() ==> repository.Valid() && forall i :: i in pending ==> i in repository.rows && repository.rows[i] == pending[i])
    }

    /** Persisted rows when there is a database, the cache otherwise. */
    ghost function Contents(): (rows: map<int, Invite>)
      reads this, repository
      requires Valid()
      ensures SelfKeyed(rows) && UniqueKeys(rows)
    {
      if Online() then repository.rows else pending
    }

    ghost function View(): map<InviteKey, Invite>
      reads this, repository
      requires Valid()
    {
      Abstract(Contents())
    }

    constructor (repository: Repository?)
      requires repository != null ==> repository.Valid()
      ensures Valid() && this.repository == repository && pending == map[]
    {
      this.repository := repository;
      pending := map[];
      index := map[];
      nextId := 1;
    }

    method ReplaceCache(all: map<int, Invite>)
      requires SelfKeyed(all)
      modifies this
      ensures Coherent() && pending == FirstPerKey(all)
      ensures nextId >= 1 && (forall i :: i in all ==> i < nextId) && (nextId == 1 || nextId - 1 in all)
    {
      pending, index, nextId := Rebuild(all);
    }

    /** Adopted runtime state: distinct ids, and a subset of the repository when there is one. */
    method Adopt(all: map<int, Invite>)
      requires Valid() && SelfKeyed(all)
      requires Online() ==> forall i :: i in all ==> i in repository.rows && repository.rows[i] == all[i]
      modifies this
      ensures Valid() && pending == FirstPerKey(all)
    {
      ReplaceCache(all);
    }

    method Cache(invite: Invite)
      requires Coherent()
      requires invite.id in pending ==> pending[invite.id].Key() == invite.Key()
      modifies this
      ensures Coherent()
      ensures pending == (if invite.Key() in old(index) then old(pending) - {old(index)[invite.Key()]} else old(pending))[invite.id := invite]
      ensures nextId == Max(old(nextId), invite.id + 1)
    {
      if invite.Key() in index && index[invite.Key()] != invite.id {
        pending := pending - {index[invite.Key()]};
      }
      pending := pending[invite.id := invite];
      index := index[invite.Key() := invite.id];
      nextId := Max(nextId, invite.id + 1);
    }

    method Drop(invite: Invite)
      requires Coherent()
      requires invite.Key() in index ==> index[invite.Key()] == invite.id
      requires invite.id in pending ==> pending[invite.id].Key() == invite.Key()
      modifies this`pending, this`index
      ensures Coherent() && pending == old(pending) - {invite.id} && index == old(index) - {invite.Key()}
    {
      pending := pending - {invite.id};
      index := index - {invite.Key()};
    }

    method Load(maxAgeDays: int, now: int) returns (active: nat, expired: nat)
      requires Valid()
      modifies Storage()
      ensures Valid()
      ensures Contents() == Unexpired(old(Contents()), maxAgeDays, now)
      ensures pending == Contents()
      ensures active == |Contents()| && expired == |old(Contents())| - |Contents()|
      ensures Swept(old(Contents()), maxAgeDays, now, Contents())
    {
      var source := pending;
      if Online() {
        source := repository.rows;
      }
      var kept := Unexpired(source, maxAgeDays, now);
      var dropped := ExpiredIds(source, maxAgeDays, now);
      ExpiryPartition(source, maxAgeDays, now);
      UnexpiredIsSwept(source, maxAgeDays, now);
      if dropped != {} && Online() {
        var _ := repository.Delete(dropped);
      }
      Refill(kept);
      active, expired := |kept|, |dropped|;
    }

    /** Rows that have unique keys are all cached. */
    method Refill(rows: map<int, Invite>)
      requires SelfKeyed(rows) && UniqueKeys(rows)
      modifies this
      ensures Coherent() && pending == rows
    {
      FirstPerKeyUnique(rows);
      ReplaceCache(rows);
    }

    method Store(room: string, inviter: string, reason: string, maxAgeDays: int, now: int) returns (invite: Invite, created: bool)
      requires Valid()
      modifies Storage()
      ensures Valid()
      ensures (View(), invite, created) == Delivered(old(View()), NormalKey(room, inviter), reason, maxAgeDays, now, invite.id)
      ensures DeliveredRows(old(Contents()), NormalKey(room, inviter), reason, maxAgeDays, now, Contents(), invite, created)
      ensures invite.id in pending && pending[invite.id] == invite
      ensures StoredInFields(old(Contents()), NormalKey(room, inviter), reason, maxAgeDays, now, Contents(), invite, created)
    {
      var key := NormalKey(room, inviter);
      ghost var before := Contents();
      var cached := false;
      if key in index && index[key] in pending {
        var existing := pending[index[key]];
        assert existing.id == index[key] && pending[index[key]].Key() == key;
        HoldingOne(before, existing.id);
        if Expired(existing.createdAt, maxAgeDays, now) {
          var _ := Delete(existing.id);
        } else {
          invite, created, cached := existing, false, true;
        }
      }
      if !cached {
        invite, created := Insert(key, reason, maxAgeDays, now);
      }
      DeliveredRefines(before, key, reason, maxAgeDays, now, Contents(), invite, created);
      DeliveredInFields(before, key, reason, maxAgeDays, now, Contents(), invite, created);
    }

    /** The second half of a store: nothing is cached for this key any more. */
    method Insert(key: InviteKey, reason: string, maxAgeDays: int, now: int) returns (invite: Invite, created: bool)
      requires Valid() && key !in index
      modifies Storage()
      ensures Valid()
      ensures DeliveredRows(old(Contents()), key, reason, maxAgeDays, now, Contents(), invite, created)
      ensures created ==> invite.id == if Online() then old(repository.nextRowId) else old(nextId)
      ensures invite.id in pending && pending[invite.id] == invite
    {
      if Online() {
        invite, created := InsertOnline(key, reason, maxAgeDays, now);
      } else {
        invite := Invite(nextId, key.room, key.inviter, reason, now);
        created := true;
        forall k | k in Keys(pending) ensures k in index {
          var i := RowOf(pending, k);
        }
        HoldingNone(pending, key);
        Cache(invite);
      }
    }

    /** The row that is there wins unless it has expired, in which case a new one replaces it. */
    method InsertOnline(key: InviteKey, reason: string, maxAgeDays: int, now: int) returns (invite: Invite, created: bool)
      requires Valid() && Online() && key !in index
      modifies this, repository
      ensures Valid()
      ensures DeliveredRows(old(repository.rows), key, reason, maxAgeDays, now, repository.rows, invite, created)
      ensures created ==> invite.id == old(repository.nextRowId)
      ensures invite.id in pending && pending[invite.id] == invite
    {
      ghost var before := repository.rows;
      invite, created := repository.InsertIfAbsent(key, reason, now);
      if created {
        HoldingNone(before, key);
      } else {
        HoldingOne(before, invite.id);
        if Expired(invite.createdAt, maxAgeDays, now) {
          RemoveUncached(invite);
          invite, created := repository.InsertIfAbsent(key, reason, now);
        }
      }
      Cache(invite);
    }

    /** Deletes a row of the repository whose key is not cached. */
    method RemoveUncached(invite: Invite)
      requires Valid() && Online() && invite.Key() !in index && invite.id in repository.rows && repository.rows[invite.id] == invite
      modifies this`pending, this`index, repository
      ensures Valid() && repository.rows == old(repository.rows) - {invite.id} && repository.nextRowId == old(repository.nextRowId)
      ensures invite.Key() !in Keys(repository.rows) && invite.Key() !in index
    {
      ghost var before := repository.rows;
      var _ := repository.Delete({invite.id});
      Drop(invite);
      HoldingOne(before, invite.id);
      forall i | i in repository.rows ensures repository.rows[i].Key() != invite.Key() {
        assert before[i] == repository.rows[i];
      }
    }

    method Delete(id: int) returns (found: Option<Invite>)
      requires Valid()
      modifies Storage()
      ensures Valid()
      ensures found == if id in old(Contents()) then Some(old(Contents())[id]) else None
      ensures Contents() == old(Contents()) - {id} && pending == old(pending) - {id}
      ensures id in old(pending) ==> old(pending)[id].Key() !in index
      ensures nextId == old(nextId)
      ensures Online() ==> repository.nextRowId == old(repository.nextRowId)
    {
      found := if id in pending then Some(pending[id]) else None;
      if Online() {
        if found.None? {
          found := if id in repository.rows then Some(repository.rows[id]) else None;
        }
        var _ := repository.Delete({id});
      }
      if found.Some? {
        Drop(found.value);
      }
    }

    method CleanupExpired(maxAgeDays: int, now: int) returns (removed: nat)
      requires Valid()
      modifies Storage()
      ensures Valid()
      ensures Contents() == Unexpired(old(Contents()), maxAgeDays, now)
      ensures removed == |old(Contents())| - |Contents()|
      ensures Swept(old(Contents()), maxAgeDays, now, Contents())
    {
      if maxAgeDays <= 0 {
        UnexpiredIsSwept(Contents(), maxAgeDays, now);
        NothingExpires(Contents(), maxAgeDays, now);
        return 0;
      }
      var _, expired := Load(maxAgeDays, now);
      removed := expired;
    }

    method Clear() returns (count: nat)
      requires Valid()
      modifies Storage()
      ensures Valid() && Contents() == map[] && pending == map[]
      ensures count == |old(Contents())|
    {
      count := |pending|;
      if Online() {
        assert forall i :: i in pending.Keys ==> i in repository.rows.Keys;
        SubsetSize(pending.Keys, repository.rows.Keys);
        var all := repository.rows.Keys;
        var persisted := repository.Delete(all);
        count := Max(count, persisted);
      }
      pending := map[];
      index := map[];
      nextId := 1;
    }
  }
}
