/** Session generations: which session is current, and how that follows from the history of calls. */
module Sessions {
  import opened Wrappers
  import Text

  datatype Status = Idle | Starting | Ready | Failed | Reconnecting | Disconnected

  /** Times are readings of the wall clock and of the monotonic clock. */
  datatype Session = Session(
    generation: nat, reconnects: nat, state: Status, phase: Option<string>,
    startedWall: Option<real>, startedAt: Option<real>, phaseAt: Option<real>, readyWall: Option<real>,
    disconnectWall: Option<real>, disconnectReason: Option<string>, lastError: Option<string>, startup: Option<real>)

  datatype Clock = Clock(wall: real, monotonic: real)

  /** An error, with its text and the name of its type. */
  datatype Error = Error(text: string, typeName: string)

  datatype Call =
    | Begin(now: Clock)
    | BeginPhase(g: int, phase: string, now: Clock)
    | MarkReady(g: int, now: Clock)
    | MarkFailed(g: int, error: Error)
    | MarkReconnecting(reason: Option<string>, now: Clock)
    | MarkDisconnected(reason: Option<string>, now: Clock)

  const Initial := Session(0, 0, Idle, None, None, None, None, None, None, None, None, None)

  predicate IsCurrent(s: Session, g: int) {
    g == s.generation && (s.state.Starting? || s.state.Ready?)
  }

  predicate Given(reason: Option<string>) {
    reason.Some? && reason.value != ""
  }

  predicate Guarded(c: Call) {
    c.BeginPhase? || c.MarkReady? || c.MarkFailed?
  }

  function After(s: Session, c: Call): Session {
    if Guarded(c) && !IsCurrent(s, c.g) then s
    else
      match c
      case Begin(now) =>
        s.(generation := s.generation + 1, reconnects := if s.generation > 0 then s.reconnects + 1 else s.reconnects,
           state := Starting, phase := Some("session"), startedWall := Some(now.wall), startedAt := Some(now.monotonic),
           phaseAt := Some(now.monotonic), lastError := None, startup := None)
      case BeginPhase(_, phase, now) => s.(state := Starting, phase := Some(phase), phaseAt := Some(now.monotonic))
      case MarkReady(_, now) =>
        s.(state := Ready, phase := Some("ready"), phaseAt := Some(now.monotonic), readyWall := Some(now.wall),
           startup := if s.startedAt.Some? then Some(Elapsed(s.startedAt.value, now.monotonic)) else s.startup, lastError := None)
      case MarkFailed(_, error) => s.(state := Failed, lastError := Some(if error.text != "" then error.text else error.typeName))
      case MarkReconnecting(reason, now) =>
        s.(state := Reconnecting, phase := Some("backoff"), phaseAt := Some(now.monotonic), disconnectWall := Some(now.wall),
           disconnectReason := if Given(reason) then Some(Text.Strip(reason.value)) else s.disconnectReason)
      case MarkDisconnected(reason, now) =>
        s.(state := Disconnected, phase := None, phaseAt := None, disconnectWall := Some(now.wall),
           disconnectReason := if Given(reason) then Some(Text.Strip(reason.value)) else None)
  }

  function Elapsed(from: real, to: real): real {
    if to < from then 0.0 else to - from
  }

  function Run(calls: seq<Call>): Session {
    if calls == [] then Initial else After(Run(calls[..|calls| - 1]), calls[|calls| - 1])
  }

  // ----- The history, read without the state -----

  function Begun(calls: seq<Call>): nat {
    if calls == [] then 0 else Begun(calls[..|calls| - 1]) + if calls[|calls| - 1].Begin? then 1 else 0
  }

  /** Calls that end session g, for a session that is current. */
  predicate Ends(c: Call, g: int) {
    c.Begin? || c.MarkReconnecting? || c.MarkDisconnected? || (c.MarkFailed? && c.g == g)
  }

  /** The i-th call began session g, and nothing after it has ended that session. */
  ghost predicate LastsFrom(calls: seq<Call>, g: int, i: nat) {
    i < |calls| && calls[i].Begin? && Begun(calls[..i + 1]) == g && NoneEnds(calls, g, i + 1)
  }

  predicate NoneEnds(calls: seq<Call>, g: int, from: nat) {
    forall j :: from <= j < |calls| ==> !Ends(calls[j], g)
  }

  lemma NoneEndsStep(calls: seq<Call>, g: int, from: nat)
    requires from < |calls|
    ensures NoneEnds(calls, g, from) <==> NoneEnds(calls[..|calls| - 1], g, from) && !Ends(calls[|calls| - 1], g)
  {
    var n := |calls| - 1;
    assert forall j :: 0 <= j < n ==> calls[j] == calls[..n][j];
  }

  /** Session g began, and nothing has ended it. */
  ghost predicate CurrentByHistory(calls: seq<Call>, g: int) {
    exists i: nat :: LastsFrom(calls, g, i)
  }

  lemma LastsFromStep(calls: seq<Call>, g: int, i: nat)
    requires calls != []
    ensures var n := |calls| - 1;
      LastsFrom(calls, g, i) <==> if i == n then calls[n].Begin? && Begun(calls) == g else LastsFrom(calls[..n], g, i) && !Ends(calls[n], g)
  {
    var n := |calls| - 1;
    if i == n {
      assert calls[..i + 1] == calls;
    } else if i < n {
      assert calls[..n][..i + 1] == calls[..i + 1];
      NoneEndsStep(calls, g, i + 1);
    }
  }

  lemma CurrentStep(calls: seq<Call>, g: int)
    requires calls != []
    ensures var n := |calls| - 1;
      CurrentByHistory(calls, g) <==> (calls[n].Begin? && Begun(calls) == g) || (CurrentByHistory(calls[..n], g) && !Ends(calls[n], g))
  {
    forall i: nat {
      LastsFromStep(calls, g, i);
    }
    var n := |calls| - 1;
    if CurrentByHistory(calls[..n], g) && !Ends(calls[n], g) {
      var i: nat :| LastsFrom(calls[..n], g, i);
      assert LastsFrom(calls, g, i);
    } else if calls[n].Begin? && Begun(calls) == g {
      assert LastsFrom(calls, g, n);
    }
  }

  /** Generations count the sessions begun, and every one after the first is a reconnect. */
  lemma {:induction false} CountsByHistory(calls: seq<Call>)
    ensures Run(calls).generation == Begun(calls)
    ensures Run(calls).reconnects == Max(0, Run(calls).generation - 1)
  {
    if calls != [] {
      CountsByHistory(calls[..|calls| - 1]);
    }
  }

  /** A session is current exactly when it has begun and nothing that ends it has followed. */
  lemma {:induction false} CurrentIff(calls: seq<Call>, g: int)
    ensures IsCurrent(Run(calls), g) <==> CurrentByHistory(calls, g)
  {
    if calls != [] {
      var n := |calls| - 1;
      CurrentIff(calls[..n], g);
      CurrentStep(calls, g);
      CountsByHistory(calls);
      CountsByHistory(calls[..n]);
      EarlierGenerations(calls[..n], g);
    }
  }

  lemma EarlierGenerations(calls: seq<Call>, g: int)
    ensures CurrentByHistory(calls, g) ==> 1 <= g <= Begun(calls)
  {
    if CurrentByHistory(calls, g) {
      var i: nat :| LastsFrom(calls, g, i);
      assert calls[..i + 1][..i] == calls[..i];
      BegunGrows(calls, i + 1, |calls|);
      assert calls[..|calls|] == calls;
    }
  }

  lemma {:induction false} BegunGrows(calls: seq<Call>, i: nat, j: nat)
    requires i <= j <= |calls|
    ensures Begun(calls[..i]) <= Begun(calls[..j])
    decreases j
  {
    if i < j {
      BegunGrows(calls, i, j - 1);
      assert calls[..j][..j - 1] == calls[..j - 1];
    }
  }

  lemma StepStaysRetired(s: Session, c: Call, g: int)
    requires g <= s.generation && !IsCurrent(s, g)
    ensures g <= After(s, c).generation && !IsCurrent(After(s, c), g)
  {
  }

  /** Once an issued generation has stopped being current, it never is again: late callbacks stay stale. */
  lemma {:induction false} RetiredForever(calls: seq<Call>, i: nat, j: nat, g: int)
    requires i <= j <= |calls| && g <= Run(calls[..i]).generation && !IsCurrent(Run(calls[..i]), g)
    ensures g <= Run(calls[..j]).generation && !IsCurrent(Run(calls[..j]), g)
    decreases j
  {
    if i < j {
      RetiredForever(calls, i, j - 1, g);
      assert calls[..j][..j - 1] == calls[..j - 1];
      StepStaysRetired(Run(calls[..j - 1]), calls[j - 1], g);
    }
  }

  /** Work of a session that is not current leaves no trace, wherever it lands in the history. */
  lemma {:induction false} StaleWorkIsInvisible(calls: seq<Call>, late: Call, rest: seq<Call>)
    requires Guarded(late) && !CurrentByHistory(calls, late.g)
    ensures Run(calls + [late] + rest) == Run(calls + rest)
  {
    if rest == [] {
      CurrentIff(calls, late.g);
      assert (calls + [late])[..|calls|] == calls && calls + [late] + rest == calls + [late] && calls + rest == calls;
    } else {
      var n := |rest| - 1;
      StaleWorkIsInvisible(calls, late, rest[..n]);
      assert (calls + [late] + rest)[..|calls| + 1 + n] == calls + [late] + rest[..n];
      assert (calls + rest)[..|calls| + n] == calls + rest[..n];
    }
  }

  // ----- Readiness -----

  predicate LeavesReady(c: Call, g: int) {
    Ends(c, g) || (c.BeginPhase? && c.g == g)
  }

  /** The i-th call made session g ready while it was current, and nothing after it has undone that. */
  ghost predicate ReadyFrom(calls: seq<Call>, g: int, i: nat) {
    i < |calls| && calls[i].MarkReady? && calls[i].g == g && CurrentByHistory(calls[..i], g)
    && forall j :: i < j < |calls| ==> !LeavesReady(calls[j], g)
  }

  /** Session g became ready while current, and has neither ended nor re-entered a startup phase since. */
  ghost predicate ReadyByHistory(calls: seq<Call>, g: int) {
    exists i: nat :: ReadyFrom(calls, g, i)
  }

  ghost predicate MakesReady(calls: seq<Call>, c: Call, g: int) {
    c.MarkReady? && c.g == g && CurrentByHistory(calls, g)
  }

  lemma ReadyFromStep(calls: seq<Call>, g: int, i: nat)
    requires calls != []
    ensures var n := |calls| - 1;
      ReadyFrom(calls, g, i) <==> if i == n then MakesReady(calls[..n], calls[n], g) else ReadyFrom(calls[..n], g, i) && !LeavesReady(calls[n], g)
  {
    var n := |calls| - 1;
    if i < n {
      assert calls[..n][..i] == calls[..i];
      assert forall j :: 0 <= j < n ==> calls[j] == calls[..n][j];
    }
  }

  lemma ReadyStep(calls: seq<Call>, g: int)
    requires calls != []
    ensures var n := |calls| - 1;
      ReadyByHistory(calls, g) <==> MakesReady(calls[..n], calls[n], g) || (ReadyByHistory(calls[..n], g) && !LeavesReady(calls[n], g))
  {
    forall i: nat {
      ReadyFromStep(calls, g, i);
    }
    var n := |calls| - 1;
    if ReadyByHistory(calls[..n], g) && !LeavesReady(calls[n], g) {
      var i: nat :| ReadyFrom(calls[..n], g, i);
      assert ReadyFrom(calls, g, i);
    } else if MakesReady(calls[..n], calls[n], g) {
      assert ReadyFrom(calls, g, n);
    }
  }

  /** A generation is the ready one exactly when its readiness was accepted and nothing has undone it. */
  lemma {:induction false} ReadyIff(calls: seq<Call>, g: int)
    ensures Run(calls).state.Ready? && Run(calls).generation == g <==> ReadyByHistory(calls, g)
  {
    if calls != [] {
      var n := |calls| - 1;
      ReadyIff(calls[..n], g);
      ReadyStep(calls, g);
      CurrentIff(calls[..n], g);
      if calls[n].Begin? && g == Run(calls[..n]).generation + 1 {
        assert !IsCurrent(Run(calls[..n]), g);
      }
    }
  }

  /** What the other fields say in each state. */
  predicate Coherent(s: Session) {
    && (s.state.Ready? ==> s.phase == Some("ready") && s.lastError.None? && s.readyWall.Some? && s.startup.Some? && s.startup.value >= 0.0)
    && (s.state.Starting? ==> s.phase.Some? && s.lastError.None?)
    && (s.state.Failed? ==> s.lastError.Some?)
    && (s.state.Reconnecting? ==> s.phase == Some("backoff"))
    && (s.state.Disconnected? || s.state.Idle? ==> s.phase.None?)
    && (s.phase.Some? <==> s.phaseAt.Some?)
    && (s.generation > 0 <==> s.startedAt.Some?) && (s.startedAt.Some? <==> s.startedWall.Some?)
    && (s.state.Idle? ==> s.generation == 0)
    && (s.state.Starting? || s.state.Ready? || s.state.Failed? ==> s.generation > 0)
    && (s.state.Reconnecting? || s.state.Disconnected? ==> s.disconnectWall.Some?)
  }

  lemma StepCoherent(s: Session, c: Call)
    requires Coherent(s)
    ensures Coherent(After(s, c))
  {
  }

  lemma {:induction false} StatesAreCoherent(calls: seq<Call>)
    ensures Coherent(Run(calls))
  {
    if calls != [] {
      StatesAreCoherent(calls[..|calls| - 1]);
      StepCoherent(Run(calls[..|calls| - 1]), calls[|calls| - 1]);
    }
  }

  // ----- The state object -----

  class SessionLifecycleState {
    var generation: nat
    var reconnects: nat
    var state: Status
    var phase: Option<string>
    var startedWall: Option<real>
    var startedAt: Option<real>
    var phaseAt: Option<real>
    var readyWall: Option<real>
    var disconnectWall: Option<real>
    var disconnectReason: Option<string>
    var lastError: Option<string>
    var startup: Option<real>

    ghost function View(): Session
      reads this
    {
      Session(generation, reconnects, state, phase, startedWall, startedAt, phaseAt, readyWall, disconnectWall, disconnectReason, lastError, startup)
    }

    constructor ()
      ensures View() == Initial
    {
      generation, reconnects, state, phase := 0, 0, Idle, None;
      startedWall, startedAt, phaseAt, readyWall, disconnectWall := None, None, None, None, None;
      disconnectReason, lastError, startup := None, None, None;
    }

    predicate Current(g: int)
      reads this
    {
      g == generation && (state == Starting || state == Ready)
    }

    method Begin(now: Clock) returns (g: nat)
      modifies this
      ensures View() == After(old(View()), Call.Begin(now)) && g == generation && IsCurrent(View(), g)
      ensures forall earlier :: earlier <= old(generation) ==> !IsCurrent(View(), earlier)
      ensures g == old(generation) + 1 && reconnects == old(reconnects) + if old(generation) > 0 then 1 else 0
      ensures state == Starting && phase == Some("session") && startedWall == Some(now.wall) && startedAt == phaseAt == Some(now.monotonic)
      ensures lastError == None && startup == None && readyWall == old(readyWall)
      ensures disconnectWall == old(disconnectWall) && disconnectReason == old(disconnectReason)
    {
      if generation != 0 {
        reconnects := reconnects + 1;
      }
      generation := generation + 1;
      state, phase := Starting, Some("session");
      startedWall, startedAt := Some(now.wall), Some(now.monotonic);
      phaseAt := startedAt;
      lastError, startup := None, None;
      g := generation;
    }

    method BeginPhase(g: int, name: string, now: Clock) returns (ok: bool)
      modifies this
      ensures View() == After(old(View()), Call.BeginPhase(g, name, now)) && ok == IsCurrent(old(View()), g)
      ensures ok <==> g == old(generation) && (old(state) == Starting || old(state) == Ready)
      ensures View() == if ok then old(View()).(state := Starting, phase := Some(name), phaseAt := Some(now.monotonic)) else old(View())
    {
      if !Current(g) {
        return false;
      }
      state, phase, phaseAt := Starting, Some(name), Some(now.monotonic);
      ok := true;
    }

    method MarkReady(g: int, now: Clock) returns (ok: bool)
      modifies this
      ensures View() == After(old(View()), Call.MarkReady(g, now)) && ok == IsCurrent(old(View()), g)
      ensures ok <==> g == old(generation) && (old(state) == Starting || old(state) == Ready)
      ensures !ok ==> View() == old(View())
      ensures ok ==> state == Ready && phase == Some("ready") && phaseAt == Some(now.monotonic) && readyWall == Some(now.wall) && lastError == None
      ensures ok && startedAt.Some? ==> startup == Some(if now.monotonic < startedAt.value then 0.0 else now.monotonic - startedAt.value)
      ensures generation == old(generation) && reconnects == old(reconnects) && startedWall == old(startedWall) && startedAt == old(startedAt)
      ensures disconnectWall == old(disconnectWall) && disconnectReason == old(disconnectReason)
    {
      if !Current(g) {
        return false;
      }
      state, phase, phaseAt, readyWall := Ready, Some("ready"), Some(now.monotonic), Some(now.wall);
      if startedAt.Some? {
        startup := Some(Elapsed(startedAt.value, now.monotonic));
      }
      lastError := None;
      ok := true;
    }

    method MarkFailed(g: int, error: Error) returns (ok: bool)
      modifies this
      ensures View() == After(old(View()), Call.MarkFailed(g, error)) && ok == IsCurrent(old(View()), g)
      ensures ok <==> g == old(generation) && (old(state) == Starting || old(state) == Ready)
      ensures !ok ==> View() == old(View())
      ensures ok ==> View() == old(View()).(state := Failed, lastError := Some(if |error.text| == 0 then error.typeName else error.text))
    {
      if !Current(g) {
        return false;
      }
      state := Failed;
      lastError := Some(if error.text != "" then error.text else error.typeName);
      ok := true;
    }

    method MarkReconnecting(reason: Option<string>, now: Clock)
      modifies this
      ensures View() == After(old(View()), Call.MarkReconnecting(reason, now))
      ensures state == Reconnecting && phase == Some("backoff") && phaseAt == Some(now.monotonic) && disconnectWall == Some(now.wall)
      ensures disconnectReason == if reason.None? || reason.value == "" then old(disconnectReason) else Some(Text.Strip(reason.value))
      ensures View() == old(View()).(state := state, phase := phase, phaseAt := phaseAt, disconnectWall := disconnectWall, disconnectReason := disconnectReason)
      ensures forall g :: !IsCurrent(View(), g)
    {
      state, phase, phaseAt, disconnectWall := Reconnecting, Some("backoff"), Some(now.monotonic), Some(now.wall);
      if Given(reason) {
        disconnectReason := Some(Text.Strip(reason.value));
      }
    }

    method MarkDisconnected(reason: Option<string>, now: Clock)
      modifies this
      ensures View() == After(old(View()), Call.MarkDisconnected(reason, now))
      ensures state == Disconnected && phase == None && phaseAt == None && disconnectWall == Some(now.wall)
      ensures disconnectReason == if reason.None? || reason.value == "" then None else Some(Text.Strip(reason.value))
      ensures View() == old(View()).(state := state, phase := phase, phaseAt := phaseAt, disconnectWall := disconnectWall, disconnectReason := disconnectReason)
      ensures forall g :: !IsCurrent(View(), g)
    {
      state, phase, phaseAt, disconnectWall := Disconnected, None, None, Some(now.wall);
      disconnectReason := if Given(reason) then Some(Text.Strip(reason.value)) else None;
    }
  }
}
