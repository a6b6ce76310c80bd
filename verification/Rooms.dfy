/** The room lifecycle registry, and how its state follows from the history of calls. */
module Rooms {
  import opened Wrappers
  import Lexical
  import Text

  datatype Status = Configured | Joining | Joined | Degraded | Failed | Deferred | Leaving

  datatype Snapshot = Snapshot(
    room: string, state: Status, generation: nat, nick: Option<string>, attempts: nat, failures: nat,
    retryAt: Option<real>, reason: Option<string>)

  datatype Registry = Registry(generation: nat, rooms: map<string, Snapshot>)

  /** Calls, with the room already normalized to its key. */
  datatype Call =
    | Configure(room: string)
    | BeginJoin(room: string)
    | Confirm(room: string, nick: string, expected: Option<int>)
    | MarkDegraded(room: string, reason: Option<string>)
    | MarkFailed(room: string, reason: Option<string>, retryAt: Option<real>)
    | MarkDeferred(room: string, reason: Option<string>, retryAt: Option<real>)
    | BeginLeave(room: string)
    | Forget(room: string)
    | NewSession
    | Clear

  const Empty := Registry(0, map[])

  function Fresh(room: string, generation: nat): Snapshot {
    Snapshot(room, Configured, generation, None, 0, 0, None, None)
  }

  function Get(r: Registry, room: string): Snapshot {
    if room in r.rooms then r.rooms[room] else Fresh(room, r.generation)
  }

  function Put(r: Registry, s: Snapshot): Registry {
    r.(rooms := r.rooms[s.room := s.(generation := r.generation)])
  }

  predicate ValidNick(nick: string) {
    Text.Strip(nick) != ""
  }

  /** The confirmation is taken: current generation, not leaving, and a nick. */
  predicate Accepts(r: Registry, c: Call)
    requires c.Confirm?
  {
    (c.expected.None? || c.expected.value == r.generation) && !Get(r, c.room).state.Leaving? && ValidNick(c.nick)
  }

  /** What each call does; an empty room name raises and does nothing. */
  function After(r: Registry, c: Call): Registry {
    match c
    case NewSession =>
      Registry(r.generation + 1, map room | room in r.rooms :: var o := r.rooms[room];
        Snapshot(o.room, if o.state.Leaving? then Leaving else Configured, r.generation + 1, None, 0, 0, None, None))
    case Clear => r.(rooms := map[])
    case Forget(room) => r.(rooms := r.rooms - {room})
    case Configure(room) => if room == "" || room in r.rooms then r else Put(r, Get(r, room))
    case BeginJoin(room) =>
      var p := Get(r, room);
      if room == "" then r
      else Put(r, p.(state := Joining, nick := None, retryAt := None, reason := None, attempts := p.attempts + 1))
    case Confirm(room, nick, expected) =>
      var p := Get(r, room);
      if room == "" || (expected.Some? && expected.value != r.generation) then r
      else if Accepts(r, c) then Put(r, p.(state := Joined, nick := Some(nick), failures := 0, retryAt := None, reason := None))
      else if room in r.rooms then r
      else Put(r, p)
    case BeginLeave(room) =>
      if room == "" then r else Put(r, Get(r, room).(state := Leaving, nick := None, retryAt := None, reason := None))
    case MarkDegraded(room, reason) =>
      var p := Get(r, room);
      if room == "" || p.state.Leaving? then r else Put(r, p.(state := Degraded, nick := None, reason := reason, retryAt := None))
    case MarkFailed(room, reason, retryAt) =>
      var p := Get(r, room);
      if room == "" || p.state.Leaving? then r
      else Put(r, p.(state := Failed, nick := None, reason := reason, retryAt := retryAt, failures := p.failures + 1))
    case MarkDeferred(room, reason, retryAt) =>
      var p := Get(r, room);
      if room == "" || p.state.Leaving? then r else Put(r, p.(state := Deferred, nick := None, reason := reason, retryAt := retryAt))
  }

  function Run(calls: seq<Call>): Registry {
    if calls == [] then Empty else After(Run(calls[..|calls| - 1]), calls[|calls| - 1])
  }

  // ----- The history, read without the registry -----

  /** The generation is the number of sessions begun. */
  function Sessions(calls: seq<Call>): nat {
    if calls == [] then 0 else Sessions(calls[..|calls| - 1]) + if calls[|calls| - 1].NewSession? then 1 else 0
  }

  /** The last leave of the room has not been followed by a join, a forget or a clear. */
  predicate LeaveIntent(calls: seq<Call>, room: string) {
    exists i :: 0 <= i < |calls| && calls[i] == BeginLeave(room)
      && forall j :: i < j < |calls| ==> !(calls[j] == BeginJoin(room) || calls[j] == Call.Forget(room) || calls[j].Clear?)
  }

  /** The i-th call is a confirmation of the room that was taken, judged by the history before it. */
  predicate Accepted(calls: seq<Call>, room: string, i: nat)
    requires i < |calls|
  {
    && calls[i].Confirm? && calls[i].room == room && ValidNick(calls[i].nick)
    && (calls[i].expected.None? || calls[i].expected.value == Sessions(calls[..i]))
    && !LeaveIntent(calls[..i], room)
  }

  /** Calls that end a joined state. */
  predicate EndsJoin(c: Call, room: string) {
    || c.NewSession? || c.Clear?
    || (c.room == room && (c.BeginJoin? || c.MarkDegraded? || c.MarkFailed? || c.MarkDeferred? || c.BeginLeave? || c.Forget?))
  }

  predicate JoinedByHistory(calls: seq<Call>, room: string) {
    exists i :: 0 <= i < |calls| && Accepted(calls, room, i) && forall j :: i < j < |calls| ==> !EndsJoin(calls[j], room)
  }

  /** Join attempts since the last new session, forget or clear. */
  function JoinsSince(calls: seq<Call>, room: string): nat {
    if calls == [] then 0
    else
      var n := |calls| - 1;
      if calls[n].NewSession? || calls[n].Clear? || calls[n] == Call.Forget(room) then 0
      else JoinsSince(calls[..n], room) + if calls[n] == BeginJoin(room) then 1 else 0
  }

  /** Failures outside a leave since the last accepted confirmation, new session, forget or clear. */
  function FailuresSince(calls: seq<Call>, room: string): nat {
    if calls == [] then 0
    else
      var n := |calls| - 1;
      if calls[n].NewSession? || calls[n].Clear? || calls[n] == Call.Forget(room) || Accepted(calls, room, n) then 0
      else FailuresSince(calls[..n], room) + if calls[n].MarkFailed? && calls[n].room == room && !LeaveIntent(calls[..n], room) then 1 else 0
  }

  predicate WellKeyed(r: Registry) {
    forall room :: room in r.rooms ==> room != "" && r.rooms[room].room == room && r.rooms[room].generation == r.generation
  }

  lemma StepWellKeyed(r: Registry, c: Call)
    requires WellKeyed(r)
    ensures WellKeyed(After(r, c))
  {
  }

  /** Every entry carries the registry's generation, which counts the sessions begun. */
  lemma {:induction false} GenerationByHistory(calls: seq<Call>)
    ensures WellKeyed(Run(calls)) && Run(calls).generation == Sessions(calls)
  {
    if calls != [] {
      GenerationByHistory(calls[..|calls| - 1]);
      StepWellKeyed(Run(calls[..|calls| - 1]), calls[|calls| - 1]);
    }
  }

  // ----- Leaving -----

  lemma LeaveIntentStep(calls: seq<Call>, room: string)
    requires calls != []
    ensures var n := |calls| - 1; var c := calls[n];
      LeaveIntent(calls, room) <==>
        c == BeginLeave(room) || (LeaveIntent(calls[..n], room) && !(c == BeginJoin(room) || c == Call.Forget(room) || c.Clear?))
  {
    var n := |calls| - 1;
    var before := calls[..n];
    if LeaveIntent(before, room) {
      var i :| 0 <= i < n && before[i] == BeginLeave(room)
        && forall j :: i < j < n ==> !(before[j] == BeginJoin(room) || before[j] == Call.Forget(room) || before[j].Clear?);
      assert calls[i] == BeginLeave(room);
      assert forall j :: i < j < n ==> calls[j] == before[j];
    }
    if LeaveIntent(calls, room) && calls[n] != BeginLeave(room) {
      var i :| 0 <= i < |calls| && calls[i] == BeginLeave(room)
        && forall j :: i < j < |calls| ==> !(calls[j] == BeginJoin(room) || calls[j] == Call.Forget(room) || calls[j].Clear?);
      assert before[i] == BeginLeave(room);
    }
  }

  lemma LeavingStep(r: Registry, c: Call, room: string)
    requires WellKeyed(r) && room != "" && (Get(r, room).state.Leaving? ==> room in r.rooms)
    ensures var after := After(r, c);
      && (Get(after, room).state.Leaving? <==>
            c == BeginLeave(room) || (Get(r, room).state.Leaving? && !(c == BeginJoin(room) || c == Call.Forget(room) || c.Clear?)))
      && (Get(after, room).state.Leaving? ==> room in after.rooms)
  {
  }

  /** A room is leaving exactly while its last leave stands. */
  lemma {:induction false} LeavingByHistory(calls: seq<Call>, room: string)
    requires room != ""
    ensures Get(Run(calls), room).state.Leaving? <==> LeaveIntent(calls, room)
    ensures LeaveIntent(calls, room) ==> room in Run(calls).rooms
  {
    if calls != [] {
      var n := |calls| - 1;
      LeavingByHistory(calls[..n], room);
      LeaveIntentStep(calls, room);
      GenerationByHistory(calls[..n]);
      LeavingStep(Run(calls[..n]), calls[n], room);
    }
  }

  // ----- Joined -----

  lemma AcceptedIsStable(calls: seq<Call>, room: string, i: nat)
    requires i < |calls| - 1
    ensures Accepted(calls, room, i) <==> Accepted(calls[..|calls| - 1], room, i)
  {
    assert calls[..|calls| - 1][..i] == calls[..i];
  }

  lemma JoinedStep(calls: seq<Call>, room: string)
    requires calls != []
    ensures var n := |calls| - 1;
      JoinedByHistory(calls, room) <==> Accepted(calls, room, n) || (JoinedByHistory(calls[..n], room) && !EndsJoin(calls[n], room))
  {
    var n := |calls| - 1;
    var before := calls[..n];
    if JoinedByHistory(before, room) {
      var i :| 0 <= i < n && Accepted(before, room, i) && forall j :: i < j < n ==> !EndsJoin(before[j], room);
      AcceptedIsStable(calls, room, i);
      assert forall j :: i < j < n ==> calls[j] == before[j];
    }
    if JoinedByHistory(calls, room) && !Accepted(calls, room, n) {
      var i :| 0 <= i < |calls| && Accepted(calls, room, i) && forall j :: i < j < |calls| ==> !EndsJoin(calls[j], room);
      AcceptedIsStable(calls, room, i);
      assert forall j :: i < j < n ==> before[j] == calls[j];
    }
  }

  lemma AcceptedIffAccepts(calls: seq<Call>, room: string)
    requires calls != [] && room != "" && calls[|calls| - 1].Confirm? && calls[|calls| - 1].room == room
    ensures var n := |calls| - 1; Accepted(calls, room, n) <==> Accepts(Run(calls[..n]), calls[n])
  {
    GenerationByHistory(calls[..|calls| - 1]);
    LeavingByHistory(calls[..|calls| - 1], room);
  }

  predicate Confirms(r: Registry, c: Call, room: string) {
    c.Confirm? && c.room == room && Accepts(r, c)
  }

  lemma JoinedAfter(r: Registry, c: Call, room: string)
    requires WellKeyed(r) && room != "" && (Get(r, room).state.Joined? <==> Get(r, room).nick.Some?)
    ensures var after := Get(After(r, c), room);
      && (after.state.Joined? <==> Confirms(r, c, room) || (Get(r, room).state.Joined? && !EndsJoin(c, room)))
      && (after.state.Joined? <==> after.nick.Some?)
  {
  }

  /** A room is joined, with a nick, exactly when the last state-changing call about it is an accepted confirmation. */
  lemma {:induction false} JoinedIffConfirmed(calls: seq<Call>, room: string)
    requires room != ""
    ensures Get(Run(calls), room).state.Joined? <==> JoinedByHistory(calls, room)
    ensures Get(Run(calls), room).state.Joined? <==> Get(Run(calls), room).nick.Some?
  {
    if calls != [] {
      var n := |calls| - 1;
      JoinedIffConfirmed(calls[..n], room);
      JoinedStep(calls, room);
      GenerationByHistory(calls[..n]);
      JoinedAfter(Run(calls[..n]), calls[n], room);
      if calls[n].Confirm? && calls[n].room == room {
        AcceptedIffAccepts(calls, room);
      }
    }
  }

  // ----- Counters -----

  lemma AttemptsStep(r: Registry, c: Call, room: string)
    requires WellKeyed(r) && room != ""
    ensures Get(After(r, c), room).attempts ==
      if c.NewSession? || c.Clear? || c == Call.Forget(room) then 0
      else Get(r, room).attempts + if c == BeginJoin(room) then 1 else 0
  {
  }

  lemma {:induction false} AttemptsByHistory(calls: seq<Call>, room: string)
    requires room != ""
    ensures Get(Run(calls), room).attempts == JoinsSince(calls, room)
  {
    if calls != [] {
      var n := |calls| - 1;
      AttemptsByHistory(calls[..n], room);
      GenerationByHistory(calls[..n]);
      AttemptsStep(Run(calls[..n]), calls[n], room);
    }
  }

  lemma {:induction false} FailuresByHistory(calls: seq<Call>, room: string)
    requires room != ""
    ensures Get(Run(calls), room).failures == FailuresSince(calls, room)
  {
    if calls != [] {
      var n := |calls| - 1;
      FailuresByHistory(calls[..n], room);
      GenerationByHistory(calls[..n]);
      LeavingByHistory(calls[..n], room);
      if calls[n].Confirm? && calls[n].room == room {
        AcceptedIffAccepts(calls, room);
      }
    }
  }

  // ----- The registry object -----

  /** The other rooms are as they were, and the room has an entry. */
  ghost predicate OnlyAt(before: Registry, after: Registry, room: string) {
    room in after.rooms && forall other :: other != room ==>
      (other in after.rooms <==> other in before.rooms) && (other in after.rooms ==> after.rooms[other] == before.rooms[other])
  }

  /** The room's observation, or that of a room nobody has mentioned. */
  ghost function Before(r: Registry, room: string): Snapshot {
    if room in r.rooms then r.rooms[room] else Snapshot(room, Configured, r.generation, None, 0, 0, None, None)
  }

  class RoomLifecycleRegistry {
    var generation: nat
    var rooms: map<string, Snapshot>

    ghost function View(): Registry
      reads this
    {
      Registry(generation, rooms)
    }

    constructor ()
      ensures View() == Empty
    {
      generation, rooms := 0, map[];
    }

    /** The raising of an empty room name is the result None. */
    method Configure(room: string) returns (s: Option<Snapshot>)
      requires WellKeyed(View())
      modifies this`rooms
      ensures View() == After(old(View()), Call.Configure(room)) && WellKeyed(View())
      ensures s == if room == "" then None else Some(Get(View(), room))
      ensures room == "" || room in old(rooms) ==> rooms == old(rooms)
      ensures room != "" ==> OnlyAt(old(View()), View(), room) && rooms[room] == Before(old(View()), room)
      ensures room != "" ==> room in rooms && rooms[room] == Get(old(View()), room)
    {
      if room == "" {
        return None;
      }
      if room !in rooms {
        rooms := rooms[room := Fresh(room, generation)];
      }
      s := Some(rooms[room]);
    }

    method Change(s: Snapshot)
      requires WellKeyed(View()) && s.room != ""
      modifies this`rooms
      ensures View() == Put(old(View()), s) && WellKeyed(View())
    {
      rooms := rooms[s.room := s.(generation := generation)];
    }

    method BeginJoin(room: string)
      requires WellKeyed(View())
      modifies this`rooms
      ensures View() == After(old(View()), Call.BeginJoin(room)) && WellKeyed(View())
      ensures var before := Before(old(View()), room);
        if room == "" then rooms == old(rooms)
        else OnlyAt(old(View()), View(), room) && rooms[room] == Snapshot(room, Joining, generation, None, before.attempts + 1, before.failures, None, None)
    {
      var previous := Configure(room);
      if previous.Some? {
        var p := previous.value;
        Change(p.(state := Joining, nick := None, retryAt := None, reason := None, attempts := p.attempts + 1));
      }
    }

    method ConfirmSelfPresence(room: string, nick: string, expected: Option<int>) returns (accepted: bool)
      requires WellKeyed(View())
      modifies this`rooms
      ensures View() == After(old(View()), Confirm(room, nick, expected)) && WellKeyed(View())
      ensures accepted <==> room != "" && Accepts(old(View()), Confirm(room, nick, expected))
      ensures accepted <==>
        && room != "" && Text.Strip(nick) != "" && (expected.Some? ==> expected.value == generation)
        && Before(old(View()), room).state != Leaving
      ensures accepted ==> OnlyAt(old(View()), View(), room) && rooms[room] == Snapshot(room, Joined, generation, Some(nick), Before(old(View()), room).attempts, 0, None, None)
      ensures !accepted ==> rooms == old(rooms) || (OnlyAt(old(View()), View(), room) && room !in old(rooms) && rooms[room] == Before(old(View()), room))
    {
      if expected.Some? && expected.value != generation {
        return false;
      }
      var previous := Configure(room);
      if previous.None? || previous.value.state.Leaving? || !ValidNick(nick) {
        return false;
      }
      Change(previous.value.(state := Joined, nick := Some(nick), failures := 0, retryAt := None, reason := None));
      accepted := true;
    }

    method MarkDegraded(room: string, reason: Option<string>)
      requires WellKeyed(View())
      modifies this`rooms
      ensures View() == After(old(View()), Call.MarkDegraded(room, reason)) && WellKeyed(View())
      ensures var before := Before(old(View()), room);
        if room == "" || before.state == Leaving then rooms == old(rooms)
        else OnlyAt(old(View()), View(), room) && rooms[room] == Snapshot(room, Degraded, generation, None, before.attempts, before.failures, None, reason)
    {
      var previous := Configure(room);
      if previous.Some? && !previous.value.state.Leaving? {
        Change(previous.value.(state := Degraded, nick := None, reason := reason, retryAt := None));
      }
    }

    method MarkFailed(room: string, reason: Option<string>, retryAt: Option<real>)
      requires WellKeyed(View())
      modifies this`rooms
      ensures View() == After(old(View()), Call.MarkFailed(room, reason, retryAt)) && WellKeyed(View())
      ensures var before := Before(old(View()), room);
        if room == "" || before.state == Leaving then rooms == old(rooms)
        else OnlyAt(old(View()), View(), room) && rooms[room] == Snapshot(room, Failed, generation, None, before.attempts, before.failures + 1, retryAt, reason)
    {
      var previous := Configure(room);
      if previous.Some? && !previous.value.state.Leaving? {
        var p := previous.value;
        Change(p.(state := Failed, nick := None, reason := reason, retryAt := retryAt, failures := p.failures + 1));
      }
    }

    method MarkDeferred(room: string, reason: Option<string>, retryAt: Option<real>)
      requires WellKeyed(View())
      modifies this`rooms
      ensures View() == After(old(View()), Call.MarkDeferred(room, reason, retryAt)) && WellKeyed(View())
      ensures var before := Before(old(View()), room);
        if room == "" || before.state == Leaving then rooms == old(rooms)
        else OnlyAt(old(View()), View(), room) && rooms[room] == Snapshot(room, Deferred, generation, None, before.attempts, before.failures, retryAt, reason)
    {
      var previous := Configure(room);
      if previous.Some? && !previous.value.state.Leaving? {
        Change(previous.value.(state := Deferred, nick := None, reason := reason, retryAt := retryAt));
      }
    }

    method BeginLeave(room: string)
      requires WellKeyed(View())
      modifies this`rooms
      ensures View() == After(old(View()), Call.BeginLeave(room)) && WellKeyed(View())
      ensures var before := Before(old(View()), room);
        if room == "" then rooms == old(rooms)
        else OnlyAt(old(View()), View(), room) && rooms[room] == Snapshot(room, Leaving, generation, None, before.attempts, before.failures, None, None)
    {
      var previous := Configure(room);
      if previous.Some? {
        Change(previous.value.(state := Leaving, nick := None, retryAt := None, reason := None));
      }
    }

    method Forget(room: string)
      requires WellKeyed(View())
      modifies this`rooms
      ensures View() == After(old(View()), Call.Forget(room)) && WellKeyed(View())
      ensures room !in rooms && forall other :: other != room ==> (other in rooms <==> other in old(rooms)) && (other in rooms ==> rooms[other] == old(rooms)[other])
    {
      rooms := rooms - {room};
    }

    method NewSession() returns (current: nat)
      requires WellKeyed(View())
      modifies this
      ensures View() == After(old(View()), Call.NewSession) && WellKeyed(View()) && current == generation
      ensures current == old(generation) + 1 && rooms.Keys == old(rooms).Keys
      ensures forall room :: room in rooms ==>
        rooms[room] == Snapshot(room, if old(rooms)[room].state == Leaving then Leaving else Configured, current, None, 0, 0, None, None)
    {
      generation := generation + 1;
      rooms := map room | room in rooms ::
        rooms[room].(state := if rooms[room].state.Leaving? then Leaving else Configured,
                     generation := generation, nick := None, attempts := 0, failures := 0, retryAt := None, reason := None);
      current := generation;
    }

    method Clear()
      modifies this`rooms
      ensures View() == After(old(View()), Call.Clear) && WellKeyed(View()) && rooms == map[]
    {
      rooms := map[];
    }

    /** All observations, in room order. */
    method Snapshots() returns (all: seq<Snapshot>)
      requires WellKeyed(View())
      ensures |all| == |rooms| && forall room :: room in rooms ==> rooms[room] in all
      ensures forall i, j :: 0 <= i < j < |all| ==> Lexical.Before(all[i].room, all[j].room)
    {
      var order := Lexical.Sorted(rooms.Keys);
      forall i | 0 <= i < |order| ensures order[i] in rooms {
        assert order[i] in order;
      }
      all := seq(|order|, i requires 0 <= i < |order| && order[i] in rooms reads this => rooms[order[i]]);
      forall room | room in rooms ensures rooms[room] in all {
        var i :| 0 <= i < |order| && order[i] == room;
        assert all[i] == rooms[room];
      }
    }
  }
}
