/** Supervised tasks as values: the supervisor's two indexes and the event loop around them. */
module TaskModel {
  import opened Wrappers

  datatype Kind = Service | OneShot

  datatype TaskMeta = TaskMeta(scope: string, name: string, kind: Kind, lastError: Option<string>, doneMarked: bool, expectedExit: bool)

  datatype TaskState = Running | Succeeded | Failed(error: string) | Cancelled

  /**
   `meta` is `_tasks` (task numbers grow in creation order, which is its iteration order), `byScope` is
   `_by_scope`. `states`, `callbacks` and `requested` belong to the event loop: how each task stands, whose
   done-callback is still to run, and who has been asked to cancel.
   */
  datatype State = State(
    meta: map<nat, TaskMeta>, byScope: map<string, set<nat>>,
    states: map<nat, TaskState>, callbacks: set<nat>, requested: set<nat>, next: nat)

  const Initial := State(map[], map[], map[], {}, {}, 0)

  const HistoryLimit: nat := 50

  predicate IsRunning(s: State, t: nat) {
    t in s.states && s.states[t].Running?
  }

  predicate IsDone(s: State, t: nat) {
    t in s.states && !s.states[t].Running?
  }

  function Members(byScope: map<string, set<nat>>, scope: string): set<nat> {
    if scope in byScope then byScope[scope] else {}
  }

  // ----- Operations -----

  function Create(s: State, scope: string, name: string, kind: Kind): State {
    s.(meta := s.meta[s.next := TaskMeta(scope, name, kind, None, false, false)],
       byScope := s.byScope[scope := Members(s.byScope, scope) + {s.next}],
       states := s.states[s.next := Running], next := s.next + 1)
  }

  /** The ids of `ids` that are tracked under this scope. */
  function OfScope(s: State, ids: set<nat>, scope: string): set<nat> {
    set t | t in ids && t in s.meta && s.meta[t].scope == scope
  }

  /** `_forget_task` for several tasks: a scope emptied by it loses its entry. */
  function Forget(s: State, ids: set<nat>): State {
    s.(meta := s.meta - ids,
       byScope := map scope | scope in s.byScope && !(OfScope(s, ids, scope) != {} && s.byScope[scope] <= OfScope(s, ids, scope))
         :: s.byScope[scope] - OfScope(s, ids, scope))
  }

  /** What the history pruning regards as completed: done, not cancelled, one-shot, no recorded error. */
  function Completed(s: State): set<nat> {
    set t | t in s.meta && IsDone(s, t) && !s.states[t].Cancelled? && s.meta[t].kind.OneShot? && s.meta[t].lastError.None?
  }

  function Later(ids: set<nat>, t: nat): set<nat> {
    set u | u in ids && u > t
  }

  /** All but the last created fifty. */
  function Excess(ids: set<nat>): set<nat> {
    set t | t in ids && |Later(ids, t)| >= HistoryLimit
  }

  function Prune(s: State): State {
    Forget(s, Excess(Completed(s)))
  }

  /** The first lines of `_on_task_done`: the record is stamped and the task leaves its scope's set. */
  function Marked(s: State, t: nat): State
    requires t in s.meta
  {
    var scope := s.meta[t].scope;
    s.(callbacks := s.callbacks - {t}, meta := s.meta[t := s.meta[t].(doneMarked := true)],
       byScope := if scope in s.byScope then s.byScope[scope := s.byScope[scope] - {t}] else s.byScope)
  }

  /** `_on_task_done`. */
  function CallBack(s: State, t: nat): State {
    if t !in s.meta || !IsDone(s, t) then s.(callbacks := s.callbacks - {t})
    else
      var marked := Marked(s, t);
      match s.states[t]
      case Failed(error) => marked.(meta := marked.meta[t := marked.meta[t].(lastError := Some(error))])
      case Succeeded =>
        if s.meta[t].kind.OneShot? then Prune(marked)
        else if s.meta[t].expectedExit then Forget(marked, {t})
        else marked
      case _ => marked
  }

  /** `_prune_task_unless_failed` for several tasks. */
  function Disposable(s: State, ids: set<nat>): set<nat> {
    set t | t in ids && t in s.meta && !(s.meta[t].lastError.Some? && IsDone(s, t) && !s.states[t].Cancelled?)
  }

  function FailuresOf(s: State, scope: string): set<nat> {
    set t | t in s.meta && s.meta[t].scope == scope && IsDone(s, t) && s.meta[t].lastError.Some?
  }

  /** What can happen while the supervisor waits, or between its calls. Events that are not possible do nothing. */
  datatype Event =
    | Created(scope: string, name: string, kind: Kind)
    | Finished(task: nat, outcome: TaskState)
    | CalledBack(task: nat)
    | Recorded(task: nat, error: Option<string>)
    | Expected(task: nat)
    | Requested(task: nat)
    | Dropped(tasks: set<nat>)
    | FailuresCleared(scope: string)

  function Apply(s: State, e: Event): State {
    match e
    case Created(scope, name, kind) => Create(s, scope, name, kind)
    case Finished(t, outcome) =>
      if IsRunning(s, t) && !outcome.Running? then s.(states := s.states[t := outcome], callbacks := s.callbacks + {t}) else s
    case CalledBack(t) => if t in s.callbacks then CallBack(s, t) else s
    case Recorded(t, error) => if t in s.meta && IsRunning(s, t) then s.(meta := s.meta[t := s.meta[t].(lastError := error)]) else s
    case Expected(t) => if t in s.meta && IsRunning(s, t) then s.(meta := s.meta[t := s.meta[t].(expectedExit := true)]) else s
    case Requested(t) => if IsRunning(s, t) then s.(requested := s.requested + {t}) else s
    case Dropped(ts) => if forall t :: t in ts ==> IsDone(s, t) then Forget(s, Disposable(s, ts)) else s
    case FailuresCleared(scope) => Forget(s, FailuresOf(s, scope))
  }

  function ApplyAll(s: State, events: seq<Event>): State {
    if events == [] then s else Apply(ApplyAll(s, events[..|events| - 1]), events[|events| - 1])
  }

  function RunningIn(s: State, ids: set<nat>): set<nat> {
    set t | t in ids && IsRunning(s, t)
  }

  function ScopeTasks(s: State, scope: string): set<nat> {
    set t | t in s.meta && s.meta[t].scope == scope
  }

  /** `cancel_scope`, with what happened during its wait. */
  function CancelScope(s: State, scope: string, during: seq<Event>): State {
    var all := ScopeTasks(s, scope);
    var after := AfterWait(s, scope, during);
    Forget(after, Disposable(after, all - RunningIn(after, RunningIn(s, all))))
  }

  /** `cancel_scope` up to its wait; without a running task there is none. */
  function AfterWait(s: State, scope: string, during: seq<Event>): State {
    var running := RunningIn(s, ScopeTasks(s, scope));
    var asked := s.(requested := s.requested + running);
    if running == {} then asked else ApplyAll(asked, during)
  }

  /** `cancel_all` over the scopes listed at the call. */
  function CancelScopes(s: State, scopes: seq<string>, waits: seq<seq<Event>>): State
    requires |waits| == |scopes|
  {
    if scopes == [] then s
    else
      var n := |scopes| - 1;
      CancelScope(CancelScopes(s, scopes[..n], waits[..n]), scopes[n], waits[n])
  }

  /** The tasks asked by `cancel_all`: for each scope, those running in it when its turn comes. */
  function TotalAsked(s: State, scopes: seq<string>, waits: seq<seq<Event>>): nat
    requires |waits| == |scopes|
  {
    if scopes == [] then 0
    else
      var n := |scopes| - 1;
      var before := CancelScopes(s, scopes[..n], waits[..n]);
      TotalAsked(s, scopes[..n], waits[..n]) + |RunningIn(before, ScopeTasks(before, scopes[n]))|
  }

  // ----- The events and the wait, in fields -----

  /** The running tasks of the scope. */
  ghost predicate RunsIn(s: State, scope: string, t: nat) {
    t in s.meta && s.meta[t].scope == scope && t in s.states && s.states[t] == Running
  }

  /** `cancel_scope` asks the tasks that run in the scope and no other, and waits exactly when there is one. */
  lemma WaitIs(s: State, scope: string, during: seq<Event>, asked: set<nat>)
    requires forall t :: t in asked <==> RunsIn(s, scope, t)
    ensures asked == {} ==> AfterWait(s, scope, during) == s
    ensures asked != {} ==> AfterWait(s, scope, during) == ApplyAll(s.(requested := s.requested + asked), during)
  {
    assert RunningIn(s, ScopeTasks(s, scope)) == asked;
  }

  /** A task ends once, and its callback is then to be run; records of a running task may change, and of no other. */
  lemma EventInFields(s: State, t: nat, outcome: TaskState, error: Option<string>)
    ensures var running := t in s.states && s.states[t] == Running;
      && Apply(s, Finished(t, outcome)) ==
           (if running && outcome != Running then s.(states := s.states[t := outcome], callbacks := s.callbacks + {t}) else s)
      && Apply(s, Requested(t)) == (if running then s.(requested := s.requested + {t}) else s)
      && (running && t in s.meta ==>
            && Apply(s, Recorded(t, error)) == s.(meta := s.meta[t := s.meta[t].(lastError := error)])
            && Apply(s, Expected(t)) == s.(meta := s.meta[t := s.meta[t].(expectedExit := true)]))
      && (!running || t !in s.meta ==> Apply(s, Recorded(t, error)) == s == Apply(s, Expected(t)))
  {
  }

  /** Dropping tasks that are done spares those with a recorded error, unless they were cancelled. */
  lemma DropInFields(s: State, ts: set<nat>, scope: string, t: nat)
    requires (forall u :: u in ts ==> u in s.states && s.states[u] != Running) && t in s.meta && t in s.states
    ensures t !in Apply(s, Dropped(ts)).meta <==> t in ts && (s.states[t] == Cancelled || s.meta[t].lastError.None?)
    ensures t !in Apply(s, FailuresCleared(scope)).meta <==> s.meta[t].scope == scope && s.states[t] != Running && s.meta[t].lastError.Some?
  {
  }

  // ----- Consistency of the two indexes -----

  ghost predicate Consistent(s: State) {
    && (forall scope, t :: scope in s.byScope && t in s.byScope[scope] ==> t in s.meta && s.meta[t].scope == scope)
    && (forall t :: t in s.meta ==> t in s.states && t < s.next)
    && (forall t :: t in s.meta && s.states[t].Running? ==> t in Members(s.byScope, s.meta[t].scope))
    && (forall t :: t in s.meta && t in Members(s.byScope, s.meta[t].scope) && !s.states[t].Running? ==> t in s.callbacks)
    && (forall t :: t in s.callbacks ==> IsDone(s, t))
    && (forall t :: t in s.states ==> t < s.next)
  }

  /** Forgetting tasks that are done keeps the indexes in step and touches nothing else. */
  lemma ForgetConsistent(s: State, ids: set<nat>)
    requires Consistent(s) && forall t :: t in ids ==> !IsRunning(s, t)
    ensures Consistent(Forget(s, ids))
  {
    var f := Forget(s, ids);
    forall t | t in f.meta && t in Members(s.byScope, s.meta[t].scope)
      ensures t in Members(f.byScope, f.meta[t].scope)
    {
      assert t !in OfScope(s, ids, s.meta[t].scope);
    }
  }

  lemma MarkedConsistent(s: State, t: nat)
    requires Consistent(s) && t in s.meta && IsDone(s, t)
    ensures Consistent(Marked(s, t))
  {
  }

  lemma CallBackConsistent(s: State, t: nat)
    requires Consistent(s) && t in s.callbacks
    ensures Consistent(CallBack(s, t))
  {
    if t in s.meta {
      MarkedConsistent(s, t);
      if s.states[t].Succeeded? {
        ForgetConsistent(Marked(s, t), {t});
        ForgetConsistent(Marked(s, t), Excess(Completed(Marked(s, t))));
      }
    }
  }

  lemma ApplyConsistent(s: State, e: Event)
    requires Consistent(s)
    ensures Consistent(Apply(s, e))
  {
    match e
    case CalledBack(t) =>
      if t in s.callbacks { CallBackConsistent(s, t); }
    case Dropped(ts) =>
      if forall t :: t in ts ==> IsDone(s, t) { ForgetConsistent(s, Disposable(s, ts)); }
    case FailuresCleared(scope) => ForgetConsistent(s, FailuresOf(s, scope));
    case Created(scope, name, kind) => CreateConsistent(s, scope, name, kind);
    case Finished(t, outcome) => FinishedConsistent(s, t, outcome);
    case Recorded(t, error) => RecordConsistent(s, t, if t in s.meta then s.meta[t].(lastError := error) else TaskMeta("", "", OneShot, None, false, false));
    case Expected(t) => RecordConsistent(s, t, if t in s.meta then s.meta[t].(expectedExit := true) else TaskMeta("", "", OneShot, None, false, false));
    case Requested(t) =>
  }

  lemma FinishedConsistent(s: State, t: nat, outcome: TaskState)
    requires Consistent(s)
    ensures Consistent(Apply(s, Finished(t, outcome)))
  {
  }

  lemma RecordConsistent(s: State, t: nat, m: TaskMeta)
    requires Consistent(s)
    ensures t in s.meta && m.scope == s.meta[t].scope ==> Consistent(s.(meta := s.meta[t := m]))
  {
  }

  lemma CreateConsistent(s: State, scope: string, name: string, kind: Kind)
    requires Consistent(s)
    ensures Consistent(Create(s, scope, name, kind)) && s.next in Create(s, scope, name, kind).byScope[scope]
  {
    var c := Create(s, scope, name, kind);
    forall other, t | other in c.byScope && t in c.byScope[other] ensures t in c.meta && c.meta[t].scope == other {
      if other != scope || t != s.next {
        assert t in Members(s.byScope, other);
        assert t in s.meta && t < s.next;
      }
    }
  }

  /** In every reachable state the two indexes agree. */
  lemma {:induction false} ReachableConsistent(events: seq<Event>)
    ensures Consistent(ApplyAll(Initial, events))
  {
    if events != [] {
      ReachableConsistent(events[..|events| - 1]);
      ApplyConsistent(ApplyAll(Initial, events[..|events| - 1]), events[|events| - 1]);
    }
  }

  // ----- Running tasks are never lost -----

  /** From `a` to `b`: a running task of `a` that still runs in `b` is still tracked under its scope; requests are kept. */
  ghost predicate KeepsRunning(a: State, b: State) {
    && a.requested <= b.requested
    && (forall t :: IsDone(a, t) ==> IsDone(b, t))
    && (forall t :: t in a.meta && IsRunning(a, t) && IsRunning(b, t) ==> t in b.meta && b.meta[t].scope == a.meta[t].scope)
    && (forall t :: t in a.states ==> t in b.states)
  }

  lemma ForgetKeepsRunning(s: State, ids: set<nat>)
    requires forall t :: t in ids ==> !IsRunning(s, t)
    ensures KeepsRunning(s, Forget(s, ids))
  {
  }

  lemma CallBackKeepsRunning(s: State, t: nat)
    requires Consistent(s) && t in s.callbacks
    ensures KeepsRunning(s, CallBack(s, t))
  {
  }

  lemma ApplyKeepsRunning(s: State, e: Event)
    requires Consistent(s)
    ensures KeepsRunning(s, Apply(s, e))
  {
    match e
    case CalledBack(t) =>
      if t in s.callbacks { CallBackKeepsRunning(s, t); }
    case _ =>
  }

  lemma KeepsRunningTransitive(a: State, b: State, c: State)
    requires KeepsRunning(a, b) && KeepsRunning(b, c)
    ensures KeepsRunning(a, c)
  {
    forall t | t in a.meta && IsRunning(a, t) && IsRunning(c, t) ensures t in c.meta && c.meta[t].scope == a.meta[t].scope {
      assert IsRunning(b, t) || IsDone(b, t);
    }
  }

  lemma {:induction false} ApplyAllKeeps(s: State, events: seq<Event>)
    requires Consistent(s)
    ensures Consistent(ApplyAll(s, events)) && KeepsRunning(s, ApplyAll(s, events))
  {
    if events != [] {
      var before := ApplyAll(s, events[..|events| - 1]);
      ApplyAllKeeps(s, events[..|events| - 1]);
      ApplyConsistent(before, events[|events| - 1]);
      ApplyKeepsRunning(before, events[|events| - 1]);
      KeepsRunningTransitive(s, before, ApplyAll(s, events));
    }
  }

  lemma AfterWaitKeeps(s: State, scope: string, during: seq<Event>)
    requires Consistent(s)
    ensures var after := AfterWait(s, scope, during);
      && Consistent(after) && KeepsRunning(s, after) && RunningIn(s, ScopeTasks(s, scope)) <= after.requested
      && forall t :: IsDone(s, t) ==> IsDone(after, t)
  {
    var asked := s.(requested := s.requested + RunningIn(s, ScopeTasks(s, scope)));
    assert Consistent(asked) && KeepsRunning(s, asked);
    ApplyAllKeeps(asked, during);
  }

  /** The tasks that `cancel_scope` prunes are done when it does. */
  lemma DisposedAreDone(s: State, scope: string, during: seq<Event>, t: nat)
    requires Consistent(s)
    ensures var after, all := AfterWait(s, scope, during), ScopeTasks(s, scope);
      t in all - RunningIn(after, RunningIn(s, all)) <==> t in all && IsDone(after, t)
  {
    AfterWaitKeeps(s, scope, during);
    assert t in ScopeTasks(s, scope) ==> t in s.states && (IsRunning(s, t) || IsDone(s, t));
  }

  /** `cancel_scope` keeps the indexes in step and asks every task that runs in the scope to cancel. */
  lemma CancelScopeAsks(s: State, scope: string, during: seq<Event>)
    requires Consistent(s)
    ensures var after := CancelScope(s, scope, during);
      && Consistent(after) && KeepsRunning(s, after)
      && RunningIn(s, ScopeTasks(s, scope)) <= after.requested
  {
    var all, after := ScopeTasks(s, scope), AfterWait(s, scope, during);
    AfterWaitKeeps(s, scope, during);
    var gone := Disposable(after, all - RunningIn(after, RunningIn(s, all)));
    forall t | t in gone ensures !IsRunning(after, t) {
      DisposedAreDone(s, scope, during, t);
    }
    ForgetConsistent(after, gone);
    ForgetKeepsRunning(after, gone);
    KeepsRunningTransitive(s, after, CancelScope(s, scope, during));
  }

  /**
   `cancel_scope` drops exactly the tasks it found in the scope that are done after the wait and are
   cancelled or have no recorded error; the records of all others stay as they were after the wait.
   */
  lemma CancelScopeDrops(s: State, scope: string, during: seq<Event>, t: nat)
    requires Consistent(s) && t in AfterWait(s, scope, during).meta
    ensures var waited, after := AfterWait(s, scope, during), CancelScope(s, scope, during);
      && (t !in after.meta <==>
            t in ScopeTasks(s, scope) && IsDone(waited, t) && (waited.states[t].Cancelled? || waited.meta[t].lastError.None?))
      && (t in after.meta ==> after.meta[t] == waited.meta[t])
  {
    DisposedAreDone(s, scope, during, t);
  }

  /** `cancel_all`: every task running at the call has been asked to cancel, unless it finished first. */
  lemma {:induction false} CancelAllAsks(s: State, scopes: seq<string>, waits: seq<seq<Event>>, t: nat)
    requires Consistent(s) && |waits| == |scopes| && t in s.meta && IsRunning(s, t)
    ensures var after := CancelScopes(s, scopes, waits);
      && Consistent(after)
      && (s.meta[t].scope in scopes ==> t in after.requested || IsDone(after, t))
      && (IsDone(after, t) || (IsRunning(after, t) && t in after.meta && after.meta[t].scope == s.meta[t].scope))
  {
    if scopes != [] {
      var n := |scopes| - 1;
      CancelAllAsks(s, scopes[..n], waits[..n], t);
      var before := CancelScopes(s, scopes[..n], waits[..n]);
      CancelScopeAsks(before, scopes[n], waits[n]);
      assert scopes == scopes[..n] + [scopes[n]];
    }
  }

  lemma RunningIsScoped(s: State, t: nat)
    requires Consistent(s) && t in s.meta && IsRunning(s, t)
    ensures s.meta[t].scope in s.byScope
  {
  }

  // ----- Bounded history -----

  /** Successful one-shots whose callback has run. */
  function Settled(s: State): set<nat> {
    set t | t in s.meta && t in s.states && s.states[t].Succeeded? && s.meta[t].kind.OneShot? && s.meta[t].lastError.None? && t !in s.callbacks
  }

  /** Keeping what has fewer than fifty later members keeps at most fifty, and all of them when there are no more. */
  lemma {:induction false} KeptAtMost(ids: set<nat>)
    ensures |ids - Excess(ids)| <= HistoryLimit
    ensures |ids| <= HistoryLimit ==> Excess(ids) == {}
  {
    var kept := ids - Excess(ids);
    if kept != {} {
      var first := LeastOf(kept);
      assert kept <= {first} + Later(ids, first);
      SubsetSize(kept - {first}, Later(ids, first));
    }
    if t :| t in Excess(ids) {
      SubsetSize(Later(ids, t) + {t}, ids);
    }
  }

  lemma {:induction false} LeastOf(ids: set<nat>) returns (m: nat)
    requires ids != {}
    ensures m in ids && forall t :: t in ids ==> m <= t
    decreases ids
  {
    m := Pick(ids);
    var rest := ids - {m};
    assert forall t :: t in ids ==> t == m || t in rest;
    if rest != {} {
      var k := LeastOf(rest);
      if k < m { m := k; }
    }
  }

  /** Pruning drops exactly the completed one-shots that have fifty later ones, and changes nothing else. */
  lemma PruneExactly(s: State)
    ensures var p := Prune(s);
      && (forall t :: t in p.meta <==> t in s.meta && !(t in Completed(s) && |Later(Completed(s), t)| >= HistoryLimit))
      && (forall t :: t in p.meta ==> p.meta[t] == s.meta[t])
      && Completed(p) == Completed(s) - Excess(Completed(s)) && |Completed(p)| <= HistoryLimit
  {
    KeptAtMost(Completed(s));
  }

  /** A tracked one-shot that succeeded or failed and has no recorded error. */
  ghost predicate EndedQuietly(s: State, t: nat) {
    && t in s.meta && t in s.states && (s.states[t].Succeeded? || s.states[t].Failed?)
    && s.meta[t].kind == OneShot && s.meta[t].lastError == None
  }

  lemma CompletedIs(s: State)
    ensures forall t :: t in Completed(s) <==> EndedQuietly(s, t)
  {
  }

  /** Pruning drops such a task exactly when at least fifty more of them were created after it. */
  lemma PrunedIff(s: State, t: nat)
    requires t in s.meta
    ensures t !in Prune(s).meta <==> EndedQuietly(s, t) && |set u | u in s.meta && u > t && EndedQuietly(s, u)| >= 50
  {
    PruneExactly(s);
    CompletedIs(s);
    assert Later(Completed(s), t) == set u | u in s.meta && u > t && EndedQuietly(s, u);
  }

  lemma SettledIsCompleted(s: State)
    ensures Settled(s) <= Completed(s)
  {
  }

  lemma SettledAfterCallBack(s: State, t: nat)
    requires Consistent(s) && t in s.callbacks
    ensures Settled(CallBack(s, t)) <= Settled(s) || |Settled(CallBack(s, t))| <= HistoryLimit
  {
    if t in s.meta && s.states[t].Succeeded? && s.meta[t].kind.OneShot? {
      var p := Prune(Marked(s, t));
      assert CallBack(s, t) == p;
      PruneExactly(Marked(s, t));
      SettledIsCompleted(p);
      SubsetSize(Settled(p), Completed(p));
    } else {
      SettledElse(s, t);
    }
  }

  lemma SettledElse(s: State, t: nat)
    requires Consistent(s) && t in s.callbacks
    requires !(t in s.meta && s.states[t].Succeeded? && s.meta[t].kind.OneShot?)
    ensures Settled(CallBack(s, t)) <= Settled(s)
  {
    var c := CallBack(s, t);
    forall u | u in Settled(c) ensures u in Settled(s) {
      assert u in s.meta && c.states == s.states;
      assert u != t;
    }
  }

  lemma SettledOtherwise(s: State, e: Event)
    requires Consistent(s) && !e.CalledBack?
    ensures Settled(Apply(s, e)) <= Settled(s)
  {
  }

  lemma SettledBounded(s: State, e: Event)
    requires Consistent(s) && |Settled(s)| <= HistoryLimit
    ensures |Settled(Apply(s, e))| <= HistoryLimit
  {
    if e.CalledBack? {
      if e.task in s.callbacks {
        SettledAfterCallBack(s, e.task);
      }
    } else {
      SettledOtherwise(s, e);
    }
    if Settled(Apply(s, e)) <= Settled(s) {
      SubsetSize(Settled(Apply(s, e)), Settled(s));
    }
  }

  /** In every reachable state at most fifty successful one-shots remain in the history. */
  lemma {:induction false} HistoryBounded(events: seq<Event>)
    ensures |Settled(ApplyAll(Initial, events))| <= HistoryLimit
  {
    if events == [] {
      assert Settled(Initial) == {};
    } else {
      HistoryBounded(events[..|events| - 1]);
      ReachableConsistent(events[..|events| - 1]);
      SettledBounded(ApplyAll(Initial, events[..|events| - 1]), events[|events| - 1]);
    }
  }

  /**
   A failed one-shot is dropped by pruning exactly when its error has not been recorded yet (its callback
   is still to run) and fifty completed one-shots were created after it; its error is then never recorded.
   */
  lemma FailureLostIff(s: State, t: nat)
    requires Consistent(s) && t in s.meta && s.states[t].Failed? && s.meta[t].kind.OneShot?
    ensures t !in Prune(s).meta <==> s.meta[t].lastError.None? && |Later(Completed(s), t)| >= HistoryLimit
    ensures t !in Prune(s).meta && t in s.callbacks ==> t !in CallBack(Prune(s), t).meta
  {
    PruneExactly(s);
  }

  // ----- Failures that are not recorded yet -----

  /** A tracked failure is recorded, unless its callback is still to run. */
  ghost predicate FailuresTold(s: State) {
    forall t :: t in s.meta && t in s.states && s.states[t].Failed? ==> t in s.callbacks || s.meta[t].lastError.Some?
  }

  lemma CallBackTellsFailures(s: State, t: nat)
    requires Consistent(s) && FailuresTold(s) && t in s.callbacks
    ensures FailuresTold(CallBack(s, t))
  {
    var c := CallBack(s, t);
    forall u | u in c.meta && c.states[u].Failed? ensures u in c.callbacks || c.meta[u].lastError.Some? {
      assert u in s.meta && c.states == s.states;
    }
  }

  lemma {:induction false} ApplyAllTellsFailures(s: State, events: seq<Event>)
    requires Consistent(s) && FailuresTold(s)
    ensures Consistent(ApplyAll(s, events)) && FailuresTold(ApplyAll(s, events))
  {
    if events != [] {
      var n := |events| - 1;
      ApplyAllTellsFailures(s, events[..n]);
      var before, e := ApplyAll(s, events[..n]), events[n];
      ApplyConsistent(before, e);
      if e.CalledBack? && e.task in before.callbacks {
        CallBackTellsFailures(before, e.task);
      }
    }
  }

  /**
   In every reachable state `cancel_scope` drops a task of the scope that has failed exactly when its error
   is not recorded yet, which can only be before its callback has run.
   */
  lemma FailureDroppedIff(events: seq<Event>, scope: string, during: seq<Event>, t: nat)
    requires var s, waited := ApplyAll(Initial, events), AfterWait(ApplyAll(Initial, events), scope, during);
      t in ScopeTasks(s, scope) && t in waited.meta && t in waited.states && waited.states[t].Failed?
    ensures var s, waited := ApplyAll(Initial, events), AfterWait(ApplyAll(Initial, events), scope, during);
      && (t !in CancelScope(s, scope, during).meta <==> waited.meta[t].lastError.None?)
      && (waited.meta[t].lastError.None? ==> t in waited.callbacks)
  {
    ApplyAllTellsFailures(Initial, events);
    WaitTellsFailures(ApplyAll(Initial, events), scope, during);
    CancelScopeDrops(ApplyAll(Initial, events), scope, during, t);
  }

  lemma WaitTellsFailures(s: State, scope: string, during: seq<Event>)
    requires Consistent(s) && FailuresTold(s)
    ensures FailuresTold(AfterWait(s, scope, during))
  {
    var asked := s.(requested := s.requested + RunningIn(s, ScopeTasks(s, scope)));
    assert Consistent(asked) && FailuresTold(asked);
    ApplyAllTellsFailures(asked, during);
  }

  /** It happens: a task that has just failed is dropped by `cancel_scope` although it stopped with a failure. */
  lemma CancelScopeLosesFailure(scope: string, name: string, kind: Kind, error: string)
    ensures var s := ApplyAll(Initial, [Created(scope, name, kind), Finished(0, Failed(error))]);
      && 0 in s.meta && 0 in s.states && s.states[0] == Failed(error)
      && 0 !in CancelScope(s, scope, []).meta
  {
    var events := [Created(scope, name, kind), Finished(0, Failed(error))];
    assert events[..1] == [Created(scope, name, kind)] && [Created(scope, name, kind)][..0] == [];
    assert ApplyAll(Initial, events[..1]) == Create(Initial, scope, name, kind);
    var s := ApplyAll(Initial, events);
    assert RunningIn(s, ScopeTasks(s, scope)) == {};
    ReachableConsistent(events);
    CancelScopeDrops(s, scope, [], 0);
  }

  /** One-shots 0 to n are created; then 1 to k succeed, in the order of their creation. */
  function Burst(scope: string, name: string, n: nat, k: nat): seq<Event> {
    if k > 0 then Burst(scope, name, n, k - 1) + [Finished(k, Succeeded)]
    else if n > 0 then Burst(scope, name, n - 1, 0) + [Created(scope, name, OneShot)]
    else [Created(scope, name, OneShot)]
  }

  lemma {:induction false} RangeSize(ids: set<nat>, n: nat)
    requires forall t: nat :: t in ids <==> 1 <= t <= n
    ensures |ids| == n
  {
    if n > 0 {
      RangeSize(ids - {n}, n - 1);
    } else {
      assert ids == {};
    }
  }

  ghost predicate BurstIs(s: State, scope: string, name: string, n: nat, k: nat) {
    && s.next == n + 1 && (forall t: nat :: t in s.callbacks <==> 1 <= t <= k)
    && (forall t: nat :: t in s.meta <==> t <= n) && (forall t: nat :: t in s.states <==> t <= n)
    && (forall t :: t in s.meta ==> s.meta[t] == TaskMeta(scope, name, OneShot, None, false, false))
    && (forall t :: t in s.states ==> s.states[t] == if 1 <= t <= k then Succeeded else Running)
  }

  lemma BurstCreate(s: State, scope: string, name: string, n: nat)
    requires BurstIs(s, scope, name, n, 0)
    ensures BurstIs(Apply(s, Created(scope, name, OneShot)), scope, name, n + 1, 0)
  {
  }

  lemma BurstFinish(s: State, scope: string, name: string, n: nat, k: nat)
    requires BurstIs(s, scope, name, n, k) && k < n
    ensures BurstIs(Apply(s, Finished(k + 1, Succeeded)), scope, name, n, k + 1)
  {
  }

  lemma {:induction false} BurstState(scope: string, name: string, n: nat, k: nat)
    requires k <= n
    ensures BurstIs(ApplyAll(Initial, Burst(scope, name, n, k)), scope, name, n, k)
    decreases n, k
  {
    var events := Burst(scope, name, n, k);
    var before := events[..|events| - 1];
    if k > 0 {
      BurstState(scope, name, n, k - 1);
      assert before == Burst(scope, name, n, k - 1);
      BurstFinish(ApplyAll(Initial, before), scope, name, n, k - 1);
    } else if n > 0 {
      BurstState(scope, name, n - 1, 0);
      assert before == Burst(scope, name, n - 1, 0);
      BurstCreate(ApplyAll(Initial, before), scope, name, n - 1);
    } else {
      assert before == [];
    }
  }

  /**
   It happens: fifty or more one-shots succeed, then the one created before them fails, all before the event
   loop has run a callback. The first callback drops the failed task, and its own callback finds no record.
   */
  lemma PruneLosesFailure(scope: string, name: string, n: nat, error: string)
    requires n >= HistoryLimit
    ensures var s := ApplyAll(Initial, Burst(scope, name, n, n) + [Finished(0, Failed(error))]);
      && 0 in s.meta && 0 in s.states && s.states[0] == Failed(error)
      && 0 !in Apply(s, CalledBack(1)).meta && 0 !in Apply(Apply(s, CalledBack(1)), CalledBack(0)).meta
  {
    var burst := Burst(scope, name, n, n);
    var events := burst + [Finished(0, Failed(error))];
    BurstState(scope, name, n, n);
    assert events[..|events| - 1] == burst;
    assert ApplyAll(Initial, events) == Apply(ApplyAll(Initial, burst), Finished(0, Failed(error)));
    BurstPruned(ApplyAll(Initial, burst), scope, name, n, error);
  }

  lemma BurstCompleted(s: State, n: nat)
    requires (forall t: nat :: t in s.meta <==> t <= n) && (forall t: nat :: t in s.states <==> t <= n)
    requires forall t :: t in s.meta ==> s.meta[t].kind.OneShot? && s.meta[t].lastError.None?
    requires forall t :: t in s.states ==> s.states[t].Succeeded? || s.states[t].Failed?
    ensures forall t: nat :: t in Completed(s) <==> t <= n
  {
  }

  lemma BurstPruned(burst: State, scope: string, name: string, n: nat, error: string)
    requires n >= HistoryLimit && BurstIs(burst, scope, name, n, n)
    ensures var s := Apply(burst, Finished(0, Failed(error)));
      0 in s.meta && 0 in s.states && s.states[0] == Failed(error) && 1 in s.callbacks && 0 !in CallBack(s, 1).meta
  {
    var s := Apply(burst, Finished(0, Failed(error)));
    assert s == burst.(states := burst.states[0 := Failed(error)], callbacks := burst.callbacks + {0});
    var marked := Marked(s, 1);
    assert marked.states == s.states && marked.meta.Keys == s.meta.Keys;
    BurstCompleted(marked, n);
    FirstIsExcess(marked, n);
    assert s.states[1].Succeeded? && s.meta[1].kind.OneShot?;
    assert CallBack(s, 1) == Prune(marked);
  }

  lemma FirstIsExcess(s: State, n: nat)
    requires n >= HistoryLimit && forall t: nat :: t in Completed(s) <==> t <= n
    ensures 0 !in Prune(s).meta
  {
    RangeSize(Later(Completed(s), 0), n);
    PruneExactly(s);
  }
}
