/** The supervisor object: each method against the task model. */
module TaskSupervisor {
  import opened Wrappers
  import opened TaskModel
  import Ordering

  lemma ForgetOneMore(s: State, ids: set<nat>, t: nat)
    ensures Forget(Forget(s, ids), {t}) == Forget(s, ids + {t})
  {
    var b, c := Forget(Forget(s, ids), {t}), Forget(s, ids + {t});
    assert b.meta == c.meta;
    forall scope ensures scope in b.byScope <==> scope in c.byScope {
      EntryOneMore(s, ids, t, scope);
    }
    forall scope | scope in b.byScope ensures b.byScope[scope] == c.byScope[scope] {
      EntryOneMore(s, ids, t, scope);
    }
    assert b.byScope == c.byScope;
  }

  lemma EntryOneMore(s: State, ids: set<nat>, t: nat, scope: string)
    ensures var b, c := Forget(Forget(s, ids), {t}), Forget(s, ids + {t});
      (scope in b.byScope <==> scope in c.byScope) && (scope in b.byScope ==> b.byScope[scope] == c.byScope[scope])
  {
    var a := Forget(s, ids);
    var first, one := OfScope(s, ids, scope), OfScope(a, {t}, scope);
    assert OfScope(s, ids + {t}, scope) == first + one;
    if scope in s.byScope {
      assert s.byScope[scope] <= first + one <==> s.byScope[scope] - first <= one;
    }
  }

  lemma ForgetUntracked(s: State, ids: set<nat>)
    requires ids !! s.meta.Keys
    ensures Forget(s, ids) == s
  {
    forall scope ensures OfScope(s, ids, scope) == {} {
    }
    forall scope | scope in s.byScope ensures scope in Forget(s, ids).byScope && Forget(s, ids).byScope[scope] == s.byScope[scope] {
      assert OfScope(s, ids, scope) == {};
    }
    assert Forget(s, ids).byScope == s.byScope;
    assert Forget(s, ids).meta == s.meta;
  }

  /** Forgetting one task changes only its own scope's entry. */
  lemma ForgetOne(s: State, t: nat)
    requires t in s.meta
    ensures var scope := s.meta[t].scope;
      Forget(s, {t}).byScope ==
        if scope !in s.byScope then s.byScope
        else if s.byScope[scope] <= {t} then s.byScope - {scope}
        else s.byScope[scope := s.byScope[scope] - {t}]
  {
    var scope, f := s.meta[t].scope, Forget(s, {t});
    assert OfScope(s, {t}, scope) == {t};
    forall other | other in s.byScope && other != scope ensures other in f.byScope && f.byScope[other] == s.byScope[other] {
      assert OfScope(s, {t}, other) == {};
    }
  }

  /** In creation order, the tasks after the i-th are the later ones. */
  lemma LaterInOrder(order: seq<nat>, ids: set<nat>, i: nat)
    requires i < |order| && (forall a, b :: 0 <= a < b < |order| ==> order[a] < order[b])
    requires forall t :: t in ids <==> t in order
    ensures |Later(ids, order[i])| == |order| - i - 1
    decreases |order| - i
  {
    if i == |order| - 1 {
      forall t | t in ids ensures t <= order[i] {
        var k :| 0 <= k < |order| && order[k] == t;
      }
      assert Later(ids, order[i]) == {};
    } else {
      LaterInOrder(order, ids, i + 1);
      var next := order[i + 1];
      forall t | t in Later(ids, order[i]) ensures t in Later(ids, next) + {next} {
        var k :| 0 <= k < |order| && order[k] == t;
        assert k > i;
      }
      assert Later(ids, order[i]) == Later(ids, next) + {next};
    }
  }

  predicate SameEntry(before: map<string, set<nat>>, after: map<string, set<nat>>, scope: string) {
    (scope in after <==> scope in before) && (scope in after ==> after[scope] == before[scope])
  }

  /** The task has left the scope's set, and an emptied set is gone. */
  predicate EntryWithout(before: map<string, set<nat>>, after: map<string, set<nat>>, scope: string, task: nat)
    requires scope in before
  {
    if before[scope] - {task} == {} then scope !in after else scope in after && after[scope] == before[scope] - {task}
  }

  function Listed(order: seq<nat>, n: nat): set<nat>
    requires n <= |order|
  {
    set i | 0 <= i < n :: order[i]
  }

  class TaskSupervisor {
    var tasks: map<nat, TaskMeta>
    var byScope: map<string, set<nat>>

    // The event loop's side of the tasks.
    var states: map<nat, TaskState>
    var callbacks: set<nat>
    var requested: set<nat>
    var next: nat

    function View(): State
      reads this
    {
      State(tasks, byScope, states, callbacks, requested, next)
    }

    constructor ()
      ensures View() == Initial
    {
      tasks, byScope, states, callbacks, requested, next := map[], map[], map[], {}, {}, 0;
    }

    /** Tracks a new task; `create_resilient` is this with the worker's runner. */
    method Create(scope: string, name: string, kind: Kind) returns (task: nat)
      requires Consistent(View())
      modifies this
      ensures Consistent(View()) && View() == TaskModel.Create(old(View()), scope, name, kind) && task == old(next)
      ensures next == task + 1 && tasks == old(tasks)[task := TaskMeta(scope, name, kind, None, false, false)] && states == old(states)[task := Running]
      ensures scope in byScope && byScope[scope] == {task} + if scope in old(byScope) then old(byScope)[scope] else {}
      ensures forall other :: other != scope ==> SameEntry(old(byScope), byScope, other)
      ensures callbacks == old(callbacks) && requested == old(requested)
    {
      ghost var before := View();
      task := next;
      states, next := states[task := Running], next + 1;
      tasks := tasks[task := TaskMeta(scope, name, kind, None, false, false)];
      if scope !in byScope {
        byScope := byScope[scope := {}];
      }
      byScope := byScope[scope := byScope[scope] + {task}];
      assert byScope == before.byScope[scope := Members(before.byScope, scope) + {task}];
      CreateConsistent(before, scope, name, kind);
    }

    method ForgetTask(task: nat)
      modifies this`tasks, this`byScope
      ensures View() == Forget(old(View()), {task})
      ensures tasks.Keys == old(tasks).Keys - {task} && forall t :: t in tasks ==> tasks[t] == old(tasks)[t]
      ensures task !in old(tasks) ==> byScope == old(byScope)
      ensures task in old(tasks) ==> forall other :: other != old(tasks)[task].scope ==> SameEntry(old(byScope), byScope, other)
      ensures task in old(tasks) && old(tasks)[task].scope in old(byScope) ==> EntryWithout(old(byScope), byScope, old(tasks)[task].scope, task)
    {
      ghost var before := View();
      if task in tasks {
        var scope := tasks[task].scope;
        tasks := tasks - {task};
        ForgetOne(before, task);
        if scope in byScope {
          var rest := byScope[scope] - {task};
          byScope := if rest == {} then byScope - {scope} else byScope[scope := rest];
        }
      } else {
        ForgetUntracked(before, {task});
      }
    }

    method ForgetEach(order: seq<nat>)
      modifies this`tasks, this`byScope
      ensures View() == Forget(old(View()), Listed(order, |order|))
    {
      ForgetUntracked(View(), {});
      assert Listed(order, 0) == {};
      for n := 0 to |order|
        invariant View() == Forget(old(View()), Listed(order, n))
      {
        ForgetOneMore(old(View()), Listed(order, n), order[n]);
        assert Listed(order, n + 1) == Listed(order, n) + {order[n]};
        ForgetTask(order[n]);
      }
    }

    /** `list` of a set of tasks, in creation order. */
    method InOrder(ids: set<nat>) returns (order: seq<nat>)
      ensures forall t :: t in ids <==> t in order
      ensures forall a, b :: 0 <= a < b < |order| ==> order[a] < order[b]
    {
      var keys := map t | t in ids :: Ordering.Key(0, 0, t);
      var sorted := Ordering.Select(ids, keys, |ids|);
      if Elements(sorted) != ids {
        SubsetSize(Elements(sorted), ids);
      }
      forall i | 0 <= i < |sorted| ensures sorted[i] in ids {
        assert sorted[i] in Elements(sorted);
      }
      order := seq(|sorted|, i requires 0 <= i < |sorted| => sorted[i] as nat);
      forall t | t in ids ensures t in order {
        assert t in Elements(sorted);
        var i :| 0 <= i < |sorted| && sorted[i] == t;
        assert order[i] == t;
      }
      forall a, b | 0 <= a < b < |order| ensures order[a] < order[b] {
        assert Ordering.Less(keys[sorted[a]], keys[sorted[b]]);
      }
    }

    /** Drops the oldest completed one-shots beyond the history limit. */
    method PruneCompletedHistory()
      modifies this`tasks, this`byScope
      ensures View() == Prune(old(View()))
    {
      var completed := InOrder(Completed(View()));
      var excess := |completed| - HistoryLimit;
      var dropped := completed[..Max(0, excess)];
      ghost var ids := Completed(View());
      forall t ensures t in Excess(ids) <==> t in dropped {
        if t in ids {
          var k :| 0 <= k < |completed| && completed[k] == t;
          LaterInOrder(completed, ids, k);
          if k < Max(0, excess) {
            assert dropped[k] == t;
          }
        }
        if t in dropped {
          var k :| 0 <= k < |dropped| && dropped[k] == t;
          assert completed[k] == t;
          LaterInOrder(completed, ids, k);
        }
      }
      assert Excess(ids) == Listed(dropped, |dropped|);
      ForgetEach(dropped);
    }

    method OnTaskDone(task: nat)
      requires task in states && !states[task].Running?
      modifies this
      ensures View() == CallBack(old(View()), task)
      ensures states == old(states) && next == old(next) && requested == old(requested) && callbacks == old(callbacks) - {task}
      ensures task !in old(tasks) ==> tasks == old(tasks) && byScope == old(byScope)
      ensures task in old(tasks) ==>
        var m, outcome := old(tasks)[task].(doneMarked := true), states[task];
        && (outcome.Cancelled? || (outcome.Succeeded? && m.kind.Service? && !m.expectedExit) ==> tasks == old(tasks)[task := m])
        && (outcome.Failed? ==> tasks == old(tasks)[task := m.(lastError := Some(outcome.error))])
        && (outcome.Succeeded? && m.kind.Service? && m.expectedExit ==> tasks == old(tasks) - {task})
        && (outcome.Succeeded? && m.kind.OneShot? ==> tasks.Keys <= old(tasks).Keys)
      ensures task in old(tasks) && old(tasks)[task].scope in byScope ==> task !in byScope[old(tasks)[task].scope]
    {
      callbacks := callbacks - {task};
      if task !in tasks {
        return;
      }
      var m := tasks[task].(doneMarked := true);
      tasks := tasks[task := m];
      if m.scope in byScope {
        byScope := byScope[m.scope := byScope[m.scope] - {task}];
      }
      if states[task].Cancelled? {
        return;
      }
      if states[task].Failed? {
        tasks := tasks[task := tasks[task].(lastError := Some(states[task].error))];
      } else if m.kind.Service? && m.expectedExit {
        ForgetTask(task);
      } else if !m.kind.Service? {
        PruneCompletedHistory();
      }
    }

    /** The wait inside a cancellation: everything that happens before it returns. */
    method Await(during: seq<Event>)
      modifies this
      ensures View() == ApplyAll(old(View()), during)
    {
      var after := ApplyAll(View(), during);
      tasks, byScope, states := after.meta, after.byScope, after.states;
      callbacks, requested, next := after.callbacks, after.requested, after.next;
    }

    /** Asks the running tasks of a scope to cancel, waits, and prunes those done that are cancelled or have no recorded error. */
    method CancelScope(scope: string, during: seq<Event>) returns (asked: nat)
      requires Consistent(View())
      modifies this
      ensures View() == TaskModel.CancelScope(old(View()), scope, during) && Consistent(View())
      ensures asked == |RunningIn(old(View()), ScopeTasks(old(View()), scope))|
    {
      CancelScopeAsks(View(), scope, during);
      var scopeTasks := set t | t in tasks && tasks[t].scope == scope;
      var running := set t | t in scopeTasks && IsRunning(View(), t);
      assert scopeTasks == ScopeTasks(View(), scope) && running == RunningIn(View(), scopeTasks);
      requested := requested + running;
      if running != {} {
        Await(during);
      }
      var pending := set t | t in running && IsRunning(View(), t);
      assert pending == RunningIn(View(), running);
      var stopped := Disposable(View(), scopeTasks - pending);
      var order := InOrder(stopped);
      assert stopped == Listed(order, |order|);
      ForgetEach(order);
      asked := |running|;
    }

    /** Clears the completed failures of a scope. */
    method ClearScopeFailures(scope: string) returns (count: nat)
      requires Consistent(View())
      modifies this`tasks, this`byScope
      ensures View() == Forget(old(View()), FailuresOf(old(View()), scope)) && Consistent(View())
      ensures count == |FailuresOf(old(View()), scope)| == |old(tasks)| - |tasks|
      ensures forall t :: t in tasks <==> t in old(tasks) && !(old(tasks)[t].scope == scope && states[t] != Running && old(tasks)[t].lastError.Some?)
      ensures forall t :: t in tasks ==> tasks[t] == old(tasks)[t]
    {
      ForgetConsistent(View(), FailuresOf(View(), scope));
      var failed := FailuresOf(View(), scope);
      var order := InOrder(failed);
      assert failed == Listed(order, |order|);
      ForgetEach(order);
      count := |failed|;
    }

    /**
     `scopes` is the list of scope names taken at the call. Every task running at the call has been asked
     to cancel when this returns, unless it finished first.
     */
    method CancelAll(scopes: seq<string>, waits: seq<seq<Event>>) returns (total: nat)
      requires Consistent(View()) && |waits| == |scopes|
      requires forall scope :: scope in byScope <==> scope in scopes
      modifies this
      ensures View() == CancelScopes(old(View()), scopes, waits) && Consistent(View())
      ensures forall t :: t in old(tasks) && IsRunning(old(View()), t) ==> t in requested || IsDone(View(), t)
      ensures total == TotalAsked(old(View()), scopes, waits)
    {
      ghost var before := View();
      total := 0;
      for n := 0 to |scopes|
        invariant Consistent(View()) && View() == CancelScopes(before, scopes[..n], waits[..n])
        invariant total == TotalAsked(before, scopes[..n], waits[..n])
      {
        assert scopes[..n + 1][..n] == scopes[..n] && waits[..n + 1][..n] == waits[..n];
        var asked := CancelScope(scopes[n], waits[n]);
        total := total + asked;
      }
      assert scopes[..|scopes|] == scopes && waits[..|waits|] == waits;
      forall t | t in before.meta && IsRunning(before, t) ensures t in requested || IsDone(View(), t) {
        RunningIsScoped(before, t);
        CancelAllAsks(before, scopes, waits, t);
      }
    }
  }
}
