/** The resilient worker loop: restart budget, backoff, circuit breaker and heartbeat sleep. */
module Worker {
  import opened Wrappers

  // ----- Heartbeat sleep -----

  /** `task_heartbeat_interval`; a zero threshold means the default of an hour. */
  function HeartbeatInterval(staleAfter: real, maximum: real): real {
    var configured := if staleAfter == 0.0 then 3600.0 else staleAfter;
    MaxReal(0.05, MinReal(MaxReal(0.05, maximum), MaxReal(0.05, configured / 2.0)))
  }

  /** The cadence stays below half of any threshold of at least a tenth of a second. */
  lemma IntervalBelowThreshold(staleAfter: real, maximum: real)
    ensures 0.05 <= HeartbeatInterval(staleAfter, maximum)
    ensures staleAfter >= 0.1 ==> HeartbeatInterval(staleAfter, maximum) <= staleAfter / 2.0
    ensures maximum >= 0.05 ==> HeartbeatInterval(staleAfter, maximum) <= maximum
  {
  }

  /** Half the threshold, never above the maximum and never below a twentieth of a second. */
  lemma IntervalIs(staleAfter: real, maximum: real)
    ensures var half := if staleAfter == 0.0 then 1800.0 else staleAfter / 2.0; var i := HeartbeatInterval(staleAfter, maximum);
      && (half >= 0.05 && maximum >= 0.05 ==> i <= half && i <= maximum && (i == half || i == maximum))
      && (half < 0.05 || maximum < 0.05 ==> i == 0.05)
  {
  }

  function Sum(slices: seq<real>): real {
    if slices == [] then 0.0 else Sum(slices[..|slices| - 1]) + slices[|slices| - 1]
  }

  lemma SameFactor(a: real, b: real, c: real)
    requires c > 0.0 && a * c == b * c
    ensures a == b
  {
    assert (a - b) * c == 0.0;
  }

  lemma SliceCount(remaining: real, cadence: real)
    requires remaining > 0.0 && cadence > 0.0
    ensures remaining > cadence ==> ((remaining - cadence) / cadence).Floor == (remaining / cadence).Floor - 1 && (remaining / cadence).Floor >= 1
    ensures (remaining / cadence).Floor >= 0
  {
    var q := remaining / cadence;
    assert q * cadence == remaining;
    assert q > 0.0;
    if remaining > cadence {
      var x := (remaining - cadence) / cadence;
      assert x * cadence == remaining - cadence == (q - 1.0) * cadence;
      SameFactor(x, q - 1.0, cadence);
      assert q >= 1.0;
    }
  }

  /** The delay is slept in full, in slices no longer than the cadence, with a heartbeat before each. */
  method SleepWithHeartbeat(delay: real, staleAfter: real, interval: real) returns (slices: seq<real>, heartbeats: nat)
    ensures Sum(slices) == MaxReal(0.0, delay) && heartbeats == |slices|
    ensures forall i :: 0 <= i < |slices| ==> 0.0 < slices[i] <= HeartbeatInterval(staleAfter, interval)
    ensures staleAfter >= 0.1 ==> forall i :: 0 <= i < |slices| ==> slices[i] <= staleAfter / 2.0
    ensures forall i :: 0 <= i < |slices| - 1 ==> slices[i] == HeartbeatInterval(staleAfter, interval)
  {
    var remaining := MaxReal(0.0, delay);
    var cadence := HeartbeatInterval(staleAfter, interval);
    IntervalBelowThreshold(staleAfter, interval);
    slices, heartbeats := [], 0;
    while remaining > 0.0
      invariant remaining >= 0.0 && Sum(slices) + remaining == MaxReal(0.0, delay) && heartbeats == |slices|
      invariant forall i :: 0 <= i < |slices| ==> 0.0 < slices[i] <= cadence
      invariant forall i :: 0 <= i < |slices| - 1 ==> slices[i] == cadence
      invariant remaining > 0.0 && slices != [] ==> slices[|slices| - 1] == cadence
      decreases if remaining > 0.0 then (remaining / cadence).Floor + 1 else 0
    {
      SliceCount(remaining, cadence);
      heartbeats := heartbeats + 1;
      var step := MinReal(remaining, cadence);
      assert (slices + [step])[..|slices|] == slices;
      slices := slices + [step];
      remaining := remaining - step;
    }
  }

  // ----- The restart loop -----

  datatype RunResult = Returned | ExpectedExit | Raised(error: string) | CancelledRun

  /** One run of the worker: how it ended, how long it lasted, the clock afterwards, and whether the following sleep was cancelled. */
  datatype Run = Run(result: RunResult, seconds: real, now: real, sleepCancelled: bool)

  datatype Options = Options(restartLimit: nat, initial: real, maximum: real, resetAfter: real, service: bool)

  /** `create_resilient` clamps what it is given. */
  function Clamped(restarts: int, initial: real, maximum: real, resetAfter: real, service: bool): (o: Options)
    ensures ValidOptions(o)
  {
    var first := MaxReal(0.0, initial);
    Options(Max(0, restarts), first, MaxReal(first, maximum), MaxReal(0.0, resetAfter), service)
  }

  /** Restarts, the first delay and the reset time are never negative, and the longest delay is no shorter than the first. */
  lemma ClampedIs(restarts: int, initial: real, maximum: real, resetAfter: real, service: bool)
    ensures var o := Clamped(restarts, initial, maximum, resetAfter, service);
      && o.restartLimit == (if restarts < 0 then 0 else restarts) && o.service == service
      && o.initial == (if initial < 0.0 then 0.0 else initial) && o.resetAfter == (if resetAfter < 0.0 then 0.0 else resetAfter)
      && o.maximum == (if maximum < o.initial then o.initial else maximum)
  {
  }

  predicate ValidOptions(o: Options) {
    0.0 <= o.initial <= o.maximum && 0.0 <= o.resetAfter
  }

  datatype Circuit = Closed | HalfOpen | Open

  datatype Meta = Meta(restartCount: nat, lastError: Option<string>, circuit: Circuit, nextRestartAt: Option<real>, expectedExit: bool)

  const Fresh := Meta(0, None, Closed, None, false)

  datatype End = Finished | ExitedAsExpected | WasCancelled | CircuitOpened | StillRunning

  predicate Fails(o: Options, r: Run) {
    r.result.Raised? || (r.result.Returned? && o.service)
  }

  function ErrorOf(r: Run): string {
    if r.result.Raised? then r.result.error else "RuntimeError: service task exited unexpectedly"
  }

  /** A failed run long enough to start a new burst. */
  predicate Resets(o: Options, r: Run) {
    o.resetAfter != 0.0 && r.seconds >= o.resetAfter
  }

  /** Consecutive failures after the first `n` runs, all failed. */
  function Streak(o: Options, runs: seq<Run>, n: nat): nat
    requires n <= |runs|
  {
    if n == 0 then 0 else (if Resets(o, runs[n - 1]) then 0 else Streak(o, runs, n - 1)) + 1
  }

  function ResetCount(o: Options, runs: seq<Run>, n: nat): nat
    requires n <= |runs|
  {
    if n == 0 then 0 else ResetCount(o, runs, n - 1) + if Resets(o, runs[n - 1]) then 1 else 0
  }

  /** The run lasted at least the reset time, and there is one. */
  ghost predicate LongAt(o: Options, runs: seq<Run>, j: int) {
    0 <= j < |runs| && o.resetAfter > 0.0 && runs[j].seconds >= o.resetAfter
  }

  /** The streak counts the failures from the last long run on, or all of them when there was none. */
  lemma {:induction false} StreakSince(o: Options, runs: seq<Run>, n: nat, j: nat)
    requires ValidOptions(o) && j <= n <= |runs|
    requires forall i :: j < i < n ==> !LongAt(o, runs, i)
    ensures j < n && LongAt(o, runs, j) ==> Streak(o, runs, n) == n - j
    ensures j == 0 && !LongAt(o, runs, 0) ==> Streak(o, runs, n) == n
    decreases n
  {
    if n > j {
      StreakSince(o, runs, n - 1, j);
      assert LongAt(o, runs, n - 1) <==> Resets(o, runs[n - 1]);
    }
  }

  ghost function LongRuns(o: Options, runs: seq<Run>, n: nat): set<int> {
    set j | 0 <= j < n && LongAt(o, runs, j)
  }

  lemma LongRunsStep(o: Options, runs: seq<Run>, n: nat)
    ensures LongRuns(o, runs, n + 1) == LongRuns(o, runs, n) + if LongAt(o, runs, n) then {n as int} else {}
  {
  }

  lemma {:induction false} ResetCountIs(o: Options, runs: seq<Run>, n: nat)
    requires ValidOptions(o) && n <= |runs|
    ensures ResetCount(o, runs, n) == |LongRuns(o, runs, n)|
  {
    if n > 0 {
      ResetCountIs(o, runs, n - 1);
      var before, m := LongRuns(o, runs, n - 1), n - 1;
      LongRunsStep(o, runs, m);
      assert m !in before;
    }
  }

  function Backoff(o: Options, streak: nat): real {
    MinReal(o.maximum, o.initial * Power2(Max(0, streak - 1)) as real)
  }

  /** While every streak stays within the limit, failures are at most limit * (resets + 1). */
  lemma {:induction false} RestartBudget(o: Options, runs: seq<Run>, n: nat)
    requires n <= |runs| && forall j :: 0 <= j < n ==> Streak(o, runs, j) <= o.restartLimit
    ensures n <= o.restartLimit * ResetCount(o, runs, n) + Streak(o, runs, n)
    ensures Streak(o, runs, n) <= o.restartLimit ==> n <= o.restartLimit * (ResetCount(o, runs, n) + 1)
    ensures n <= o.restartLimit * (ResetCount(o, runs, n) + 1) + 1
  {
    if n > 0 {
      RestartBudget(o, runs, n - 1);
      var k := ResetCount(o, runs, n - 1);
      assert o.restartLimit * (k + 1) == o.restartLimit * k + o.restartLimit;
    }
    var k := ResetCount(o, runs, n);
    assert o.restartLimit * (k + 1) == o.restartLimit * k + o.restartLimit;
  }

  /** Within a burst the delay never shrinks, and it stays between the two configured bounds. */
  lemma BackoffGrows(o: Options, streak: nat)
    requires ValidOptions(o)
    ensures o.initial <= Backoff(o, streak) <= Backoff(o, streak + 1) <= o.maximum
    ensures streak <= 1 ==> Backoff(o, streak) == o.initial
    ensures streak >= 1 ==> Backoff(o, streak + 1) == if 2.0 * Backoff(o, streak) < o.maximum then 2.0 * Backoff(o, streak) else o.maximum
  {
    var p := Power2(Max(0, streak - 1)) as real;
    ScaleUp(o.initial, p);
    if streak >= 1 {
      assert Power2(streak) as real == 2.0 * p;
      assert o.initial * (2.0 * p) == 2.0 * (o.initial * p);
    }
  }

  lemma ScaleUp(a: real, p: real)
    requires a >= 0.0 && p >= 1.0
    ensures a <= a * p
  {
  }

  /** What the supervisor shows while the worker sleeps after its n-th failure. */
  datatype Pause = Pause(delay: real, shown: Meta)

  predicate IsPause(o: Options, runs: seq<Run>, n: nat, p: Pause)
    requires 0 < n <= |runs|
  {
    && p.delay == Backoff(o, Streak(o, runs, n))
    && p.shown == Meta(n, Some(ErrorOf(runs[n - 1])), HalfOpen, Some(runs[n - 1].now + p.delay), false)
  }

  /** The first `n` runs failed without opening the circuit. */
  predicate Survived(o: Options, runs: seq<Run>, n: nat)
    requires n <= |runs|
  {
    forall j :: 0 <= j < n ==> Fails(o, runs[j]) && Streak(o, runs, j + 1) <= o.restartLimit
  }

  predicate Paused(o: Options, runs: seq<Run>, pauses: seq<Pause>, n: nat)
    requires n <= |runs|
  {
    |pauses| <= n && forall j :: 0 <= j < |pauses| ==> IsPause(o, runs, j + 1, pauses[j])
  }

  /** The task's record between two runs. */
  function Between(runs: seq<Run>, n: nat): Meta
    requires n <= |runs|
  {
    Meta(n, if n == 0 then None else Some(ErrorOf(runs[n - 1])), Closed, None, false)
  }

  /** How the loop can end, and what it has shown by then. */
  predicate Told(o: Options, runs: seq<Run>, end: End, meta: Meta, pauses: seq<Pause>, used: nat) {
    && used <= |runs| && Paused(o, runs, pauses, used)
    && if end.StillRunning? then used == |runs| == |pauses| && Survived(o, runs, used) && meta == Between(runs, used)
       else
         && 0 < used && Survived(o, runs, used - 1)
         && var last, paused := runs[used - 1], |pauses| == used - 1;
         && (end.CircuitOpened? ==> paused && Fails(o, last) && meta == Meta(used, Some(ErrorOf(last)), Open, None, false))
         && (end.CircuitOpened? ==> Streak(o, runs, used) == o.restartLimit + 1)
         && (end.Finished? ==> paused && last.result.Returned? && !o.service && meta == Between(runs, used - 1).(lastError := None))
         && (end.ExitedAsExpected? ==> paused && last.result.ExpectedExit? && meta == Between(runs, used - 1).(expectedExit := true))
         && (end.WasCancelled? ==>
               || (paused && last.result.CancelledRun? && meta == Between(runs, used - 1))
               || (|pauses| == used && Survived(o, runs, used) && last.sleepCancelled && meta == pauses[used - 1].shown))
  }

  /** A run that counts as failed: it raised, or it returned although the worker is a service. */
  predicate FailedWith(service: bool, r: Run, error: string) {
    || (r.result.Raised? && error == r.result.error)
    || (r.result.Returned? && service && error == "RuntimeError: service task exited unexpectedly")
  }

  /** Each pause follows a failed run, shows its error and the number of failures, and ends the delay after it. */
  predicate PauseAfter(service: bool, r: Run, n: nat, p: Pause) {
    && p.shown.restartCount == n && p.shown.lastError.Some? && FailedWith(service, r, p.shown.lastError.value)
    && p.shown.circuit == HalfOpen && p.shown.nextRestartAt == Some(r.now + p.delay) && !p.shown.expectedExit
  }

  /** The pause after the j-th run is the backoff of a streak within the limit. */
  predicate DelayedFor(o: Options, runs: seq<Run>, j: nat, p: Pause)
    requires j < |runs|
  {
    p.delay == Backoff(o, Streak(o, runs, j + 1)) && Streak(o, runs, j + 1) <= o.restartLimit
  }

  /** What the caller of the loop can tell from its result, run by run. */
  lemma ToldInFields(o: Options, runs: seq<Run>, end: End, meta: Meta, pauses: seq<Pause>, used: nat)
    requires Told(o, runs, end, meta, pauses, used)
    ensures forall j :: 0 <= j < |pauses| ==> PauseAfter(o.service, runs[j], j + 1, pauses[j])
    ensures forall j :: 0 <= j < |pauses| ==> DelayedFor(o, runs, j, pauses[j])
    ensures end.CircuitOpened? ==> Streak(o, runs, used) > o.restartLimit
    ensures end.CircuitOpened? ==>
      meta.circuit == Open && meta.restartCount == used && meta.lastError.Some? && FailedWith(o.service, runs[used - 1], meta.lastError.value)
    ensures end.Finished? ==> runs[used - 1].result.Returned? && !o.service && meta.lastError.None? && meta.restartCount == used - 1 && !meta.expectedExit
    ensures end.ExitedAsExpected? ==> runs[used - 1].result.ExpectedExit? && meta.expectedExit && meta.restartCount == used - 1
    ensures end.WasCancelled? ==> runs[used - 1].result.CancelledRun? || runs[used - 1].sleepCancelled
  {
    forall j | 0 <= j < |pauses| ensures PauseAfter(o.service, runs[j], j + 1, pauses[j]) && DelayedFor(o, runs, j, pauses[j]) {
      PauseIs(o, runs, pauses, used, j);
    }
  }

  lemma PauseIs(o: Options, runs: seq<Run>, pauses: seq<Pause>, n: nat, j: nat)
    requires n <= |runs| && j < |pauses| <= n && Paused(o, runs, pauses, n) && Fails(o, runs[j]) && Streak(o, runs, j + 1) <= o.restartLimit
    ensures PauseAfter(o.service, runs[j], j + 1, pauses[j]) && DelayedFor(o, runs, j, pauses[j])
  {
  }

  lemma StreakWithin(o: Options, runs: seq<Run>, n: nat, j: nat)
    requires j <= n <= |runs| && Survived(o, runs, n)
    ensures Streak(o, runs, j) <= o.restartLimit
  {
    if j > 0 {
      assert Fails(o, runs[j - 1]);
    }
  }

  /** The run numbered n failed and its pause is recorded: the invariants move on by one. */
  lemma FailureStep(o: Options, runs: seq<Run>, pauses: seq<Pause>, n: nat, p: Pause)
    requires n < |runs| && |pauses| == n && Survived(o, runs, n) && Paused(o, runs, pauses, n)
    requires Fails(o, runs[n]) && Streak(o, runs, n + 1) <= o.restartLimit && IsPause(o, runs, n + 1, p)
    ensures Survived(o, runs, n + 1) && Paused(o, runs, pauses + [p], n + 1)
  {
  }

  lemma PausedLonger(o: Options, runs: seq<Run>, pauses: seq<Pause>, n: nat)
    requires n < |runs| && |pauses| <= n && Paused(o, runs, pauses, n)
    ensures Paused(o, runs, pauses, n + 1)
  {
  }

  /**
   The loop against a script of runs, with the arguments of `create_resilient`. `used` counts the runs
   consumed; `pauses` are the backoff sleeps.
   */
  method RunWorker(restarts: int, initial: real, maximum: real, resetAfter: real, service: bool, runs: seq<Run>)
    returns (end: End, meta: Meta, pauses: seq<Pause>, used: nat)
    ensures Told(Clamped(restarts, initial, maximum, resetAfter, service), runs, end, meta, pauses, used)
    ensures meta.circuit.HalfOpen? <==> meta.nextRestartAt.Some?
  {
    var o := Clamped(restarts, initial, maximum, resetAfter, service);
    var consecutive: nat := 0;
    meta, pauses, used := Fresh, [], 0;
    while used < |runs|
      invariant used <= |runs| && |pauses| == used && consecutive == Streak(o, runs, used)
      invariant Survived(o, runs, used) && Paused(o, runs, pauses, used)
      invariant meta == Between(runs, used)
    {
      PausedLonger(o, runs, pauses, used);
      var run := runs[used];
      match run.result {
        case CancelledRun =>
          return WasCancelled, meta, pauses, used + 1;
        case ExpectedExit =>
          return ExitedAsExpected, meta.(expectedExit := true), pauses, used + 1;
        case Returned =>
          if !service {
            return Finished, meta.(circuit := Closed, nextRestartAt := None, lastError := None), pauses, used + 1;
          }
        case Raised(_) =>
      }
      consecutive, meta := RecordFailure(o, run, consecutive, meta);
      assert consecutive == Streak(o, runs, used + 1);
      if consecutive > o.restartLimit {
        StreakWithin(o, runs, used, used);
        return CircuitOpened, meta.(circuit := Open, nextRestartAt := None), pauses, used + 1;
      }
      var delay := Backoff(o, consecutive);
      meta := meta.(circuit := HalfOpen, nextRestartAt := Some(run.now + delay));
      FailureStep(o, runs, pauses, used, Pause(delay, meta));
      pauses, used := pauses + [Pause(delay, meta)], used + 1;
      if run.sleepCancelled {
        return WasCancelled, meta, pauses, used;
      }
      meta := meta.(circuit := Closed, nextRestartAt := None);
    }
    end := StillRunning;
  }

  method RecordFailure(o: Options, run: Run, consecutive: nat, meta: Meta) returns (streak: nat, after: Meta)
    ensures streak == (if Resets(o, run) then 0 else consecutive) + 1
    ensures after == meta.(restartCount := meta.restartCount + 1, lastError := Some(ErrorOf(run)))
  {
    streak := consecutive;
    if o.resetAfter != 0.0 && run.seconds >= o.resetAfter {
      streak := 0;
    }
    streak := streak + 1;
    after := meta.(restartCount := meta.restartCount + 1, lastError := Some(ErrorOf(run)));
  }

  /** The circuit opens on the first streak longer than the limit, within the restart budget. */
  lemma CircuitOpensWithinBudget(o: Options, runs: seq<Run>, used: nat)
    requires 0 < used <= |runs| && Survived(o, runs, used - 1) && Streak(o, runs, used) == o.restartLimit + 1
    ensures used <= o.restartLimit * (ResetCount(o, runs, used) + 1) + 1
    ensures ResetCount(o, runs, used) == 0 ==> used == o.restartLimit + 1
  {
    forall j | 0 <= j < used ensures Streak(o, runs, j) <= o.restartLimit {
      StreakWithin(o, runs, used - 1, j);
    }
    RestartBudget(o, runs, used);
    StreakWithoutResets(o, runs, used);
  }

  lemma {:induction false} StreakWithoutResets(o: Options, runs: seq<Run>, n: nat)
    requires n <= |runs|
    ensures Streak(o, runs, n) <= n
    ensures ResetCount(o, runs, n) == 0 ==> Streak(o, runs, n) == n
  {
    if n > 0 {
      StreakWithoutResets(o, runs, n - 1);
    }
  }
}
