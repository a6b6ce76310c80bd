/** The connection adapter: a lock that its owner may re-enter, and one savepoint for each transaction. */
module OutboxDatabase {
  import opened Wrappers
  import OutboxTable

  type Data = map<int, OutboxTable.Row>

  /** A savepoint of the connection, with the data it can bring back. */
  datatype Savepoint = Savepoint(name: nat, data: Data)

  /** A use of the adapter under way: whether it took the lock, and its savepoint while that is open. */
  datatype Frame = Frame(acquired: bool, savepoint: Option<nat>)

  /** The adapter, its connection, and the uses that each task has under way, innermost last. */
  datatype State = State(
    locked: bool, owner: Option<nat>, depth: nat, counter: nat,
    data: Data, savepoints: seq<Savepoint>, uses: map<nat, seq<Frame>>)

  const Idle := State(false, None, 0, 0, map[], [], map[])

  function Uses(s: State, task: nat): seq<Frame> {
    if task in s.uses then s.uses[task] else []
  }

  function Top(s: State, task: nat): Frame
    requires Uses(s, task) != []
  {
    Uses(s, task)[|Uses(s, task)| - 1]
  }

  function Below(s: State, task: nat): seq<Frame>
    requires Uses(s, task) != []
  {
    Uses(s, task)[..|Uses(s, task)| - 1]
  }

  /** The steps of a task. A read enters, reads and leaves; a transaction also opens and closes a savepoint. */
  datatype Step =
    | Enter(task: nat)
    | Open(task: nat)
    | Write(task: nat, data: Data)
    | Commit(task: nat)
    | Rollback(task: nat)
    | Leave(task: nat)

  /** SQLite's rule: the most recent savepoint of that name. */
  function Position(savepoints: seq<Savepoint>, name: nat): (k: nat)
    ensures k <= |savepoints|
    ensures k < |savepoints| ==> savepoints[k].name == name && forall i :: k < i < |savepoints| ==> savepoints[i].name != name
    ensures k == |savepoints| ==> forall i :: 0 <= i < |savepoints| ==> savepoints[i].name != name
  {
    if savepoints == [] then 0
    else
      var n := |savepoints| - 1;
      if savepoints[n].name == name then n
      else
        var k := Position(savepoints[..n], name);
        if k == n then n + 1 else k
  }

  /** The step can happen: the lock is free or held by the task, and the task is at that point of its code. */
  predicate Enabled(s: State, step: Step) {
    var t := step.task;
    match step
    case Enter(_) => s.owner == Some(t) || !s.locked
    case Open(_) => Uses(s, t) != [] && Top(s, t).savepoint.None?
    case Write(_, _) => Uses(s, t) != [] && Top(s, t).savepoint.Some?
    case Commit(_) => Uses(s, t) != [] && Top(s, t).savepoint.Some?
    case Rollback(_) => Uses(s, t) != [] && Top(s, t).savepoint.Some?
    case Leave(_) => Uses(s, t) != [] && Top(s, t).savepoint.None?
  }

  function Entered(s: State, t: nat): State {
    if s.owner == Some(t) then s.(depth := s.depth + 1, uses := s.uses[t := Uses(s, t) + [Frame(false, None)]])
    else s.(locked := true, owner := Some(t), depth := 1, uses := s.uses[t := Uses(s, t) + [Frame(true, None)]])
  }

  function Closed(s: State, t: nat): State
    requires Uses(s, t) != []
  {
    s.(uses := s.uses[t := Below(s, t) + [Top(s, t).(savepoint := None)]])
  }

  function After(s: State, step: Step): State
    requires Enabled(s, step)
  {
    var t := step.task;
    match step
    case Enter(_) => Entered(s, t)
    case Open(_) =>
      s.(counter := s.counter + 1, savepoints := s.savepoints + [Savepoint(s.counter + 1, s.data)],
         uses := s.uses[t := Below(s, t) + [Top(s, t).(savepoint := Some(s.counter + 1))]])
    case Write(_, data) => s.(data := data)
    case Commit(_) =>
      var k := Position(s.savepoints, Top(s, t).savepoint.value);
      Closed(s.(savepoints := s.savepoints[..k]), t)
    case Rollback(_) =>
      var k := Position(s.savepoints, Top(s, t).savepoint.value);
      if k < |s.savepoints| then Closed(s.(data := s.savepoints[k].data, savepoints := s.savepoints[..k]), t)
      else Closed(s, t)
    case Leave(_) =>
      var left := s.(uses := s.uses[t := Below(s, t)]);
      if Top(s, t).acquired then left.(locked := false, owner := None, depth := 0)
      else left.(depth := if s.depth > 0 then s.depth - 1 else 0)
  }

  predicate Possible(s: State, steps: seq<Step>)
    decreases |steps|
  {
    steps == [] || (Enabled(s, steps[0]) && Possible(After(s, steps[0]), steps[1..]))
  }

  function Run(s: State, steps: seq<Step>): State
    requires Possible(s, steps)
    decreases |steps|
  {
    if steps == [] then s else Run(After(s, steps[0]), steps[1..])
  }

  // ----- What every reachable state keeps -----

  /** The names of the open savepoints, outermost first. */
  function OpenNames(frames: seq<Frame>): seq<nat> {
    if frames == [] then []
    else
      var n := |frames| - 1;
      OpenNames(frames[..n]) + if frames[n].savepoint.Some? then [frames[n].savepoint.value] else []
  }

  function Names(savepoints: seq<Savepoint>): seq<nat> {
    seq(|savepoints|, i requires 0 <= i < |savepoints| => savepoints[i].name)
  }

  predicate Increasing(names: seq<nat>) {
    forall i, j :: 0 <= i < j < |names| ==> names[i] < names[j]
  }

  /** Nobody but the owner has a use under way. */
  ghost predicate Exclusive(s: State) {
    forall t: nat :: Uses(s, t) != [] ==> s.owner == Some(t)
  }

  /** The depth counts the owner's uses, of which the outermost alone took the lock. */
  predicate Counted(s: State) {
    && (s.locked <==> s.owner.Some?)
    && (s.owner.None? ==> s.depth == 0 && s.savepoints == [])
    && (s.owner.Some? ==>
          var u := Uses(s, s.owner.value);
          u != [] && s.depth == |u| && u[0].acquired && forall i :: 0 < i < |u| ==> !u[i].acquired)
  }

  /** The connection's savepoints are those of the owner's open transactions, in order, under names never used twice. */
  predicate Stacked(s: State) {
    && (s.owner.Some? ==> Names(s.savepoints) == OpenNames(Uses(s, s.owner.value)))
    && Increasing(Names(s.savepoints))
    && forall i :: 0 <= i < |s.savepoints| ==> s.savepoints[i].name <= s.counter
  }

  ghost predicate Sound(s: State) {
    Exclusive(s) && Counted(s) && Stacked(s)
  }

  lemma OpenNamesSnoc(frames: seq<Frame>, f: Frame)
    ensures OpenNames(frames + [f]) == OpenNames(frames) + if f.savepoint.Some? then [f.savepoint.value] else []
  {
    assert (frames + [f])[..|frames|] == frames;
  }

  /** The innermost transaction's savepoint is the connection's last. */
  lemma TopSavepointIsLast(s: State, t: nat)
    requires Sound(s) && Uses(s, t) != [] && Top(s, t).savepoint.Some?
    ensures s.savepoints != [] && Position(s.savepoints, Top(s, t).savepoint.value) == |s.savepoints| - 1
    ensures Names(s.savepoints[..|s.savepoints| - 1]) == OpenNames(Below(s, t))
  {
    var u := Uses(s, t);
    assert u == Below(s, t) + [Top(s, t)];
    OpenNamesSnoc(Below(s, t), Top(s, t));
    var names := Names(s.savepoints);
    assert names == OpenNames(Below(s, t)) + [Top(s, t).savepoint.value];
    assert s.savepoints[|names| - 1].name == names[|names| - 1];
    assert Names(s.savepoints[..|names| - 1]) == names[..|names| - 1];
  }

  /** A task may enter exactly when no other task is inside. */
  lemma EnterIff(s: State, t: nat)
    requires Sound(s)
    ensures Enabled(s, Enter(t)) <==> forall u: nat :: u != t ==> u !in s.uses || s.uses[u] == []
  {
    if s.owner.Some? && s.owner != Some(t) {
      assert Uses(s, s.owner.value) != [];
    }
    forall u: nat | u in s.uses && s.uses[u] != [] ensures s.owner == Some(u) {
      assert Uses(s, u) != [];
    }
  }

  /** Inside, a transaction opens and a use ends where none is open; it is written and ends where one is. */
  lemma InsideIff(s: State, t: nat, data: Data)
    ensures var inside := t in s.uses && s.uses[t] != [];
      var open := inside && s.uses[t][|s.uses[t]| - 1].savepoint.Some?;
      && (Enabled(s, Open(t)) <==> inside && !open) && (Enabled(s, Leave(t)) <==> inside && !open)
      && (Enabled(s, Write(t, data)) <==> open) && (Enabled(s, Commit(t)) <==> open) && (Enabled(s, Rollback(t)) <==> open)
  {
  }

  lemma EnterKeepsSound(s: State, t: nat)
    requires Sound(s) && Enabled(s, Enter(t))
    ensures Sound(After(s, Enter(t)))
  {
    OpenNamesSnoc(Uses(s, t), Frame(s.owner != Some(t), None));
  }

  lemma OpenKeepsSound(s: State, t: nat)
    requires Sound(s) && Enabled(s, Open(t))
    ensures Sound(After(s, Open(t)))
  {
    var u := Uses(s, t);
    assert u == Below(s, t) + [Top(s, t)];
    OpenNamesSnoc(Below(s, t), Top(s, t));
    OpenNamesSnoc(Below(s, t), Top(s, t).(savepoint := Some(s.counter + 1)));
    var after := After(s, Open(t));
    NamesSnoc(s.savepoints, Savepoint(s.counter + 1, s.data));
    assert Uses(after, t) == Below(s, t) + [Top(s, t).(savepoint := Some(s.counter + 1))];
    assert Stacked(after);
  }

  lemma NamesSnoc(savepoints: seq<Savepoint>, savepoint: Savepoint)
    ensures Names(savepoints + [savepoint]) == Names(savepoints) + [savepoint.name]
    ensures forall i :: 0 <= i < |savepoints| ==> Names(savepoints)[i] == savepoints[i].name
  {
  }

  lemma CloseKeepsSound(s: State, t: nat, data: Data)
    requires Sound(s) && Uses(s, t) != [] && s.savepoints != []
    requires Names(s.savepoints[..|s.savepoints| - 1]) == OpenNames(Below(s, t))
    ensures Sound(Closed(s.(data := data, savepoints := s.savepoints[..|s.savepoints| - 1]), t))
  {
    var closed := Closed(s.(data := data, savepoints := s.savepoints[..|s.savepoints| - 1]), t);
    assert Names(closed.savepoints) == Names(s.savepoints)[..|closed.savepoints|];
    OpenNamesSnoc(Below(s, t), Top(s, t).(savepoint := None));
    assert Stacked(closed);
    assert Exclusive(closed);
  }

  lemma LeaveKeepsSound(s: State, t: nat)
    requires Sound(s) && Enabled(s, Leave(t))
    ensures Sound(After(s, Leave(t)))
  {
    var u := Uses(s, t);
    assert u == Below(s, t) + [Top(s, t)];
    OpenNamesSnoc(Below(s, t), Top(s, t));
    if |u| == 1 {
      assert OpenNames(Below(s, t)) == [];
    }
  }

  lemma StepKeepsSound(s: State, step: Step)
    requires Sound(s) && Enabled(s, step)
    ensures Sound(After(s, step))
  {
    var t := step.task;
    match step
    case Enter(_) => EnterKeepsSound(s, t);
    case Open(_) => OpenKeepsSound(s, t);
    case Write(_, _) =>
    case Commit(_) => TopSavepointIsLast(s, t); CloseKeepsSound(s, t, s.data);
    case Rollback(_) => TopSavepointIsLast(s, t); CloseKeepsSound(s, t, s.savepoints[|s.savepoints| - 1].data);
    case Leave(_) => LeaveKeepsSound(s, t);
  }

  /** However the steps of the tasks interleave, the lock excludes, the depth counts and the savepoints nest. */
  lemma {:induction false} RunKeepsSound(s: State, steps: seq<Step>)
    requires Sound(s) && Possible(s, steps)
    ensures Sound(Run(s, steps))
    decreases |steps|
  {
    if steps != [] {
      StepKeepsSound(s, steps[0]);
      RunKeepsSound(After(s, steps[0]), steps[1..]);
    }
  }

  lemma CloseIs(s: State, t: nat, failed: bool)
    requires Uses(s, t) != [] && Top(s, t).savepoint.Some? && Position(s.savepoints, Top(s, t).savepoint.value) < |s.savepoints|
    ensures var k := Position(s.savepoints, Top(s, t).savepoint.value);
      After(s, if failed then Rollback(t) else Commit(t))
        == Closed(s.(data := if failed then s.savepoints[k].data else s.data, savepoints := s.savepoints[..k]), t)
  {
  }

  lemma CloseStep(s: State, t: nat, failed: bool)
    requires Sound(s) && Uses(s, t) != [] && Top(s, t).savepoint.Some?
    ensures Enabled(s, if failed then Rollback(t) else Commit(t)) && Sound(After(s, if failed then Rollback(t) else Commit(t)))
    ensures s.savepoints != [] && Position(s.savepoints, Top(s, t).savepoint.value) == |s.savepoints| - 1
  {
    TopSavepointIsLast(s, t);
    StepKeepsSound(s, if failed then Rollback(t) else Commit(t));
  }

  // ----- Isolation and rollback -----

  /** The task's outermost `n` uses go on throughout the run. */
  predicate StaysIn(s: State, steps: seq<Step>, t: nat, n: nat)
    requires Possible(s, steps)
    decreases |steps|
  {
    |Uses(s, t)| >= n && (steps == [] || StaysIn(After(s, steps[0]), steps[1..], t, n))
  }

  /** While a task is inside, every step that happens is its own: no other task reads, writes or even enters. */
  lemma {:induction false} Isolation(s: State, steps: seq<Step>, t: nat)
    requires Sound(s) && Possible(s, steps) && StaysIn(s, steps, t, 1)
    ensures forall i :: 0 <= i < |steps| ==> steps[i].task == t
    decreases |steps|
  {
    if steps != [] {
      StepKeepsSound(s, steps[0]);
      Isolation(After(s, steps[0]), steps[1..], t);
      assert forall i :: 0 < i < |steps| ==> steps[i] == steps[1..][i - 1];
    }
  }

  /** The transaction opened at the task's n-th use is open with this savepoint, which is the k-th of the connection. */
  predicate OpenAt(s: State, t: nat, n: nat, k: nat, savepoint: Savepoint) {
    && n < |Uses(s, t)| && Uses(s, t)[n].savepoint == Some(savepoint.name)
    && k < |s.savepoints| && s.savepoints[k] == savepoint
    && |OpenNames(Uses(s, t)[..n])| == k
  }

  /** The transaction at the task's n-th use has not been closed: no step of the run closes or leaves that use. */
  predicate KeepsOpen(s: State, steps: seq<Step>, t: nat, n: nat)
    requires Possible(s, steps)
    decreases |steps|
  {
    && |Uses(s, t)| > n && Uses(s, t)[n].savepoint.Some?
    && (steps == [] || KeepsOpen(After(s, steps[0]), steps[1..], t, n))
  }

  lemma OpenNamesPrefix(frames: seq<Frame>, n: nat)
    requires n < |frames| && frames[n].savepoint.Some?
    ensures |OpenNames(frames[..n])| < |OpenNames(frames)|
    ensures n < |frames| - 1 && frames[|frames| - 1].savepoint.Some? ==> |OpenNames(frames[..n])| < |OpenNames(frames)| - 1
    decreases |frames|
  {
    var m := |frames| - 1;
    if n < m {
      OpenNamesPrefix(frames[..m], n);
      assert frames[..m][..n] == frames[..n];
    }
  }

  lemma StepKeepsSavepoint(s: State, step: Step, t: nat, n: nat, k: nat, savepoint: Savepoint)
    requires Sound(s) && Enabled(s, step) && OpenAt(s, t, n, k, savepoint)
    requires |Uses(After(s, step), t)| > n && Uses(After(s, step), t)[n].savepoint.Some?
    ensures OpenAt(After(s, step), t, n, k, savepoint)
  {
    var after := After(s, step);
    assert step.task == t;
    var u := Uses(s, t);
    assert Uses(after, t)[..n] == u[..n];
    if step.Commit? || step.Rollback? {
      TopSavepointIsLast(s, t);
      InnerSavepoints(s, t, n);
    }
  }

  /** Below the innermost open transaction, an open use has its savepoint before the last. */
  lemma InnerSavepoints(s: State, t: nat, n: nat)
    requires Sound(s) && n < |Uses(s, t)| - 1 && Uses(s, t)[n].savepoint.Some? && Top(s, t).savepoint.Some?
    ensures |OpenNames(Uses(s, t)[..n])| < |s.savepoints| - 1
  {
    OpenNamesPrefix(Uses(s, t), n);
    assert |OpenNames(Uses(s, t))| == |Names(s.savepoints)|;
  }

  lemma {:induction false} RunKeepsSavepoint(s: State, steps: seq<Step>, t: nat, n: nat, k: nat, savepoint: Savepoint)
    requires Sound(s) && Possible(s, steps) && OpenAt(s, t, n, k, savepoint) && KeepsOpen(s, steps, t, n)
    ensures Sound(Run(s, steps)) && OpenAt(Run(s, steps), t, n, k, savepoint)
    decreases |steps|
  {
    if steps != [] {
      StepKeepsSound(s, steps[0]);
      StepKeepsSavepoint(s, steps[0], t, n, k, savepoint);
      RunKeepsSavepoint(After(s, steps[0]), steps[1..], t, n, k, savepoint);
    }
  }

  /**
   * A transaction that fails undoes everything since it was opened: whatever was written in between,
   * in nested transactions committed or rolled back and against any attempts of other tasks, the data
   * and the connection's savepoints are again those of the opening.
   */
  lemma RollbackRestores(s: State, t: nat, steps: seq<Step>)
    requires Sound(s) && Enabled(s, Open(t)) && Possible(After(s, Open(t)), steps)
    requires var n := |Uses(s, t)| - 1; KeepsOpen(After(s, Open(t)), steps, t, n) && |Uses(Run(After(s, Open(t)), steps), t)| == n + 1
    ensures var end := Run(After(s, Open(t)), steps);
      && Enabled(end, Rollback(t))
      && After(end, Rollback(t)).data == s.data && After(end, Rollback(t)).savepoints == s.savepoints
      && Uses(After(end, Rollback(t)), t) == Uses(s, t)
  {
    var n := |Uses(s, t)| - 1;
    var begun := After(s, Open(t));
    OpenBegins(s, t);
    RunKeepsSavepoint(begun, steps, t, n, |s.savepoints|, Savepoint(s.counter + 1, s.data));
    OuterUnchanged(begun, steps, t, n, |s.savepoints|);
    RollbackEnds(Run(begun, steps), t, n, |s.savepoints|, Savepoint(s.counter + 1, s.data));
  }

  /** Rolling back the innermost transaction brings back its savepoint's data and drops that savepoint alone. */
  lemma RollbackEnds(end: State, t: nat, n: nat, k: nat, savepoint: Savepoint)
    requires Sound(end) && OpenAt(end, t, n, k, savepoint) && |Uses(end, t)| == n + 1
    ensures Enabled(end, Rollback(t))
    ensures var after := After(end, Rollback(t));
      after.data == savepoint.data && after.savepoints == end.savepoints[..k] && Uses(after, t) == Uses(end, t)[..n] + [Frame(n == 0, None)]
  {
    TopSavepointIsLast(end, t);
    OpenNamesSnoc(Below(end, t), Top(end, t));
    assert Uses(end, t) == Below(end, t) + [Top(end, t)] && |Names(end.savepoints)| == |end.savepoints|;
  }

  lemma OpenBegins(s: State, t: nat)
    requires Sound(s) && Enabled(s, Open(t))
    ensures var n, k, begun := |Uses(s, t)| - 1, |s.savepoints|, After(s, Open(t));
      && Sound(begun) && OpenAt(begun, t, n, k, Savepoint(s.counter + 1, s.data))
      && begun.savepoints[..k] == s.savepoints && Uses(s, t) == Uses(begun, t)[..n] + [Frame(n == 0, None)]
  {
    StepKeepsSound(s, Open(t));
    assert Uses(s, t) == Below(s, t) + [Top(s, t)];
    OpenNamesSnoc(Below(s, t), Top(s, t));
    assert |Names(s.savepoints)| == |s.savepoints|;
    assert Uses(After(s, Open(t)), t)[..|Uses(s, t)| - 1] == Below(s, t);
  }

  lemma OuterUnchanged(s: State, steps: seq<Step>, t: nat, n: nat, k: nat)
    requires Sound(s) && Possible(s, steps) && KeepsOpen(s, steps, t, n)
    requires |OpenNames(Uses(s, t)[..n])| == k && k <= |s.savepoints|
    ensures n <= |Uses(Run(s, steps), t)| && Uses(Run(s, steps), t)[..n] == Uses(s, t)[..n]
    ensures k <= |Run(s, steps).savepoints| && Run(s, steps).savepoints[..k] == s.savepoints[..k]
    decreases |steps|
  {
    if steps != [] {
      StepKeepsSound(s, steps[0]);
      StepKeepsOuter(s, steps[0], t, n, k);
      OuterUnchanged(After(s, steps[0]), steps[1..], t, n, k);
    }
  }

  lemma StepKeepsOuter(s: State, step: Step, t: nat, n: nat, k: nat)
    requires Sound(s) && Enabled(s, step) && n < |Uses(s, t)| && Uses(s, t)[n].savepoint.Some?
    requires n < |Uses(After(s, step), t)|
    requires |OpenNames(Uses(s, t)[..n])| == k
    ensures k < |s.savepoints|
    ensures Uses(After(s, step), t)[..n] == Uses(s, t)[..n]
    ensures k <= |After(s, step).savepoints| && After(s, step).savepoints[..k] == s.savepoints[..k]
  {
    assert step.task == t;
    OpenNamesPrefix(Uses(s, t), n);
    assert |OpenNames(Uses(s, t))| == |Names(s.savepoints)|;
    if step.Commit? || step.Rollback? {
      TopSavepointIsLast(s, t);
    }
  }

  /** What the last write of the run left, if there was one. */
  function LastWritten(data: Data, steps: seq<Step>): Data {
    if steps == [] then data
    else
      var n := |steps| - 1;
      if steps[n].Write? then steps[n].data else LastWritten(data, steps[..n])
  }

  lemma {:induction false} LastWrittenFrom(data: Data, steps: seq<Step>)
    requires steps != []
    ensures LastWritten(data, steps) == LastWritten(if steps[0].Write? then steps[0].data else data, steps[1..])
  {
    var n := |steps| - 1;
    if n > 0 {
      assert steps[1..][..n - 1] == steps[..n][1..];
      LastWrittenFrom(data, steps[..n]);
    }
  }

  /** Where no transaction fails nothing is undone: the data is what was written last, by whichever task. */
  lemma {:induction false} WithoutRollbackWritesStay(s: State, steps: seq<Step>)
    requires Possible(s, steps) && forall i :: 0 <= i < |steps| ==> !steps[i].Rollback?
    ensures Run(s, steps).data == LastWritten(s.data, steps)
    decreases |steps|
  {
    if steps != [] {
      LastWrittenFrom(s.data, steps);
      WithoutRollbackWritesStay(After(s, steps[0]), steps[1..]);
    }
  }

  // ----- The adapter -----

  class AsyncConnectionOutboxDatabase {
    var locked: bool
    var owner: Option<nat>
    var depth: nat
    var counter: nat
    var data: Data
    var savepoints: seq<Savepoint>
    ghost var uses: map<nat, seq<Frame>>

    ghost function View(): State
      reads this
    {
      State(locked, owner, depth, counter, data, savepoints, uses)
    }

    constructor ()
      ensures View() == Idle && Sound(View())
    {
      locked, owner, depth, counter, data, savepoints, uses := false, None, 0, 0, map[], [], map[];
    }

    /** Runs when the task is scheduled past the lock: it holds the lock already, or the lock is free. */
    method Acquire(task: nat) returns (acquired: bool)
      requires Sound(View()) && Enabled(View(), Enter(task))
      modifies this
      ensures View() == After(old(View()), Enter(task)) && Sound(View())
      ensures acquired == Top(View(), task).acquired && (acquired <==> old(owner) != Some(task))
      ensures locked && owner == Some(task) && depth == if old(owner) == Some(task) then old(depth) + 1 else 1
      ensures counter == old(counter) && data == old(data) && savepoints == old(savepoints)
    {
      StepKeepsSound(View(), Enter(task));
      acquired := owner != Some(task);
      if owner == Some(task) {
        depth := depth + 1;
      } else {
        locked, owner, depth := true, Some(task), 1;
      }
      uses := uses[task := Uses(old(View()), task) + [Frame(acquired, None)]];
    }

    method Release(task: nat, acquired: bool)
      requires Sound(View()) && Enabled(View(), Leave(task)) && acquired == Top(View(), task).acquired
      modifies this
      ensures View() == After(old(View()), Leave(task)) && Sound(View())
      ensures acquired ==> !locked && owner == None && depth == 0
      ensures !acquired ==> locked && owner == old(owner) && depth == old(depth) - 1
      ensures counter == old(counter) && data == old(data) && savepoints == old(savepoints)
    {
      StepKeepsSound(View(), Leave(task));
      depth := depth - 1;
      if acquired {
        owner, depth, locked := None, 0, false;
      }
      uses := uses[task := Below(old(View()), task)];
    }

    /** SAVEPOINT, under a name never used before. */
    method Begin(task: nat) returns (savepoint: nat)
      requires Sound(View()) && Enabled(View(), Open(task))
      modifies this
      ensures View() == After(old(View()), Open(task)) && Sound(View())
      ensures savepoint == counter == old(counter) + 1 && savepoints == old(savepoints) + [Savepoint(savepoint, old(data))]
      ensures data == old(data) && locked == old(locked) && owner == old(owner) && depth == old(depth)
      ensures Top(View(), task).savepoint == Some(savepoint) && forall i :: 0 <= i < |old(savepoints)| ==> old(savepoints)[i].name < savepoint
    {
      StepKeepsSound(View(), Open(task));
      counter := counter + 1;
      savepoint := counter;
      savepoints := savepoints + [Savepoint(savepoint, data)];
      uses := uses[task := Below(old(View()), task) + [Top(old(View()), task).(savepoint := Some(savepoint))]];
    }

    /** The end of a transaction: ROLLBACK TO when it failed, and RELEASE either way. */
    method End(task: nat, savepoint: nat, failed: bool)
      requires Sound(View()) && Uses(View(), task) != [] && Top(View(), task).savepoint == Some(savepoint)
      modifies this
      ensures View() == After(old(View()), if failed then Rollback(task) else Commit(task)) && Sound(View())
      ensures old(savepoints) != [] && savepoints == old(savepoints)[..|old(savepoints)| - 1] && old(savepoints)[|old(savepoints)| - 1].name == savepoint
      ensures data == if failed then old(savepoints)[|old(savepoints)| - 1].data else old(data)
      ensures counter == old(counter) && locked == old(locked) && owner == old(owner) && depth == old(depth)
    {
      ghost var before := View();
      CloseStep(before, task, failed);
      CloseIs(before, task, failed);
      var k := Position(savepoints, savepoint);
      if failed {
        data := savepoints[k].data;
      }
      savepoints := savepoints[..k];
      uses := uses[task := Below(before, task) + [Top(before, task).(savepoint := None)]];
    }
  }
}
