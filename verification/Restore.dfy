/** Multi-file restore: prepare, snapshot, apply and validate, with rollback of every target. */
module Restore {
  import opened Wrappers
  import opened Files

  datatype Spec = Spec(name: string, source: Path, target: Path)

  datatype Snapshot = Snapshot(spec: Spec, existed: bool, copy: Option<Path>)

  datatype Phase = Prepare | Snapshotting | Apply | Validate

  /** A caller's hook: it may change any file and may fail. */
  datatype HookResult = HookResult(nodes: Nodes, fault: Option<Fault>)
  type Hook = Nodes -> HookResult

  datatype Hooks = Hooks(
    prepare: Option<Hook>, validate: Option<Hook>, beforeRollback: Option<Hook>,
    afterRollback: Option<Hook>, recoverUnmodified: Option<Hook>)

  /** Diagnostics carried by the raised error (or, for a cancellation, by its notes). */
  datatype Diagnosis = Diagnosis(
    phase: Phase, cause: Fault, rollbackAttempted: bool, rollbackErrors: seq<Fault>,
    recoveryAttempted: bool, recoveryErrors: seq<Fault>)

  datatype Outcome =
    | Restored(names: seq<string>)
    | Rejected(fault: Fault)
    | Failed(diagnosis: Diagnosis)

  function Effect(hook: Option<Hook>, nodes: Nodes): Nodes {
    if hook.None? then nodes else hook.value(nodes).nodes
  }

  function HookFault(hook: Option<Hook>, nodes: Nodes): Option<Fault> {
    if hook.None? then None else hook.value(nodes).fault
  }

  ghost predicate Preserves(hook: Option<Hook>, paths: set<Path>) {
    forall nodes: Nodes :: SameOn(nodes, Effect(hook, nodes), paths)
  }

  function Names(specs: seq<Spec>): seq<string> {
    seq(|specs|, i requires 0 <= i < |specs| => specs[i].name)
  }

  // ----- The operator's report -----

  datatype Report = RollbackComplete | RollbackIncomplete | RuntimeRecovered | RuntimeRecoveryFailed | NotAttempted

  /** `restore_recovery_report`. */
  function RecoveryReport(d: Diagnosis): Report {
    var errors := d.rollbackErrors + d.recoveryErrors;
    if d.rollbackAttempted then (if errors == [] then RollbackComplete else RollbackIncomplete)
    else if d.recoveryAttempted then (if errors == [] then RuntimeRecovered else RuntimeRecoveryFailed)
    else NotAttempted
  }

  predicate Publishing(phase: Phase) {
    phase.Apply? || phase.Validate?
  }

  // ----- Which plans are accepted -----

  function Sources(specs: seq<Spec>): set<Path> {
    set i | 0 <= i < |specs| :: specs[i].source
  }

  function Targets(specs: seq<Spec>): set<Path> {
    set i | 0 <= i < |specs| :: specs[i].target
  }

  function CopyPath(directory: string, specs: seq<Spec>, i: nat): Path
    requires i < |specs|
  {
    Path(directory, NumberedName(i, specs[i].target.name))
  }

  function Copies(directory: string, specs: seq<Spec>): set<Path> {
    set i | 0 <= i < |specs| :: CopyPath(directory, specs, i)
  }

  predicate Disjoint(directory: string, specs: seq<Spec>) {
    && Sources(specs) !! Targets(specs)
    && Copies(directory, specs) !! (Sources(specs) + Targets(specs))
  }

  predicate Acceptable(nodes: Nodes, specs: seq<Spec>) {
    && specs != []
    && (forall i :: 0 <= i < |specs| ==> specs[i].name != "" && IsFile(nodes, specs[i].source))
    && (forall i, j :: 0 <= i < j < |specs| ==> specs[i].name != specs[j].name && specs[i].target != specs[j].target)
  }

  /** What is wrong with a plan that is rejected. */
  ghost predicate Objectionable(nodes: Nodes, specs: seq<Spec>) {
    || |specs| == 0
    || (exists spec :: spec in specs && (spec.name == "" || spec.source !in nodes || nodes[spec.source] == Directory))
    || (exists i, j :: 0 <= i < j < |specs| && specs[i].name == specs[j].name)
    || (exists i, j :: 0 <= i < j < |specs| && specs[i].target == specs[j].target)
  }

  lemma AcceptableIff(nodes: Nodes, specs: seq<Spec>)
    ensures Acceptable(nodes, specs) <==> !Objectionable(nodes, specs)
  {
    forall i | 0 <= i < |specs| ensures specs[i] in specs {
    }
  }

  lemma CopiesDistinct(directory: string, specs: seq<Spec>, i: nat, j: nat)
    requires i < |specs| && j < |specs|
    ensures CopyPath(directory, specs, i).directory == directory && CopyPath(directory, specs, i).name == NumberedName(i, specs[i].target.name)
    ensures CopyPath(directory, specs, i) == CopyPath(directory, specs, j) ==> i == j
  {
    if CopyPath(directory, specs, i) == CopyPath(directory, specs, j) {
      NumberedNamesDiffer(i, specs[i].target.name, j, specs[j].target.name);
    }
  }

  // ----- What the phases achieve -----

  /** Every target among the first `n` holds what its source held in `from`. */
  ghost predicate Published(from: Nodes, now: Nodes, specs: seq<Spec>, n: nat)
    requires n <= |specs|
  {
    forall i :: 0 <= i < n ==> IsFile(from, specs[i].source) && At(now, specs[i].target) == At(from, specs[i].source)
  }

  lemma PublishedStep(from: Nodes, now: Nodes, specs: seq<Spec>, n: nat, node: Node)
    requires n < |specs| && Acceptable(from, specs) && Published(from, now, specs, n) && node == from[specs[n].source]
    ensures Published(from, now[specs[n].target := node], specs, n + 1)
  {
  }

  /** The snapshots describe exactly the targets of `from`, and their copies are stored in `now`. */
  ghost predicate Snapshotted(from: Nodes, now: Nodes, directory: string, specs: seq<Spec>, snaps: seq<Snapshot>) {
    && |snaps| <= |specs|
    && forall i :: 0 <= i < |snaps| ==> SnapshotOf(from, now, directory, specs, i, snaps[i])
  }

  ghost predicate SnapshotOf(from: Nodes, now: Nodes, directory: string, specs: seq<Spec>, i: nat, s: Snapshot)
    requires i < |specs|
  {
    && s.spec == specs[i]
    && (s.existed <==> specs[i].target in from)
    && (s.existed ==> s.copy == Some(CopyPath(directory, specs, i)) && IsFile(from, specs[i].target)
                      && At(now, s.copy.value) == At(from, specs[i].target))
  }

  ghost predicate Reverted(from: Nodes, now: Nodes, snaps: seq<Snapshot>, n: nat)
    requires n <= |snaps|
  {
    forall i :: 0 <= i < n ==> At(now, snaps[i].spec.target) == At(from, snaps[i].spec.target)
  }

  /** What the outcome of a transaction says about the files. */
  ghost predicate Concluded(specs: seq<Spec>, directory: string, hooks: Hooks, outcome: Outcome,
                            prepared: Nodes, applied: Nodes, undone: Nodes, final: Nodes) {
    match outcome
    case Rejected(_) => true
    case Restored(names) =>
      // Success: every target holds its source's bytes.
      && Published(prepared, applied, specs, |specs|) && names == Names(specs)
      && HookFault(hooks.validate, applied).None? && final == Effect(hooks.validate, applied)
    case Failed(d) =>
      if Publishing(d.phase) then
        // Rollback is always attempted; without a rollback error every target is as it was
        // when the snapshots were taken, present or absent.
        && d.rollbackAttempted && Recovery(d, hooks.afterRollback, undone)
        && final == Effect(hooks.afterRollback, undone)
        && (d.rollbackErrors == [] && Preserves(hooks.validate, Copies(directory, specs))
              && Preserves(hooks.beforeRollback, Copies(directory, specs))
            ==> SameOn(prepared, undone, Targets(specs)))
      else
        // Nothing was published: the transaction has touched only its own copies.
        && !d.rollbackAttempted && d.rollbackErrors == [] && Recovery(d, hooks.recoverUnmodified, undone)
        && final == Effect(hooks.recoverUnmodified, undone)
        && SameOutside(prepared, undone, Copies(directory, specs))
  }

  /**
   The diagnosis names what went wrong: the cause is the failing hook's own error, and the errors of the
   rollback are that of the hook before it and that of the rollback itself.
   */
  ghost predicate Blamed(hooks: Hooks, from: Nodes, applied: Nodes, d: Diagnosis) {
    var before := if d.phase.Validate? then Effect(hooks.validate, applied) else applied;
    var first := Errors(HookFault(hooks.beforeRollback, before));
    && HookFault(hooks.prepare, from) == (if d.phase.Prepare? then Some(d.cause) else None)
    && (d.phase.Validate? ==> HookFault(hooks.validate, applied) == Some(d.cause))
    && (Publishing(d.phase) ==> first <= d.rollbackErrors && |d.rollbackErrors| <= |first| + 1)
  }

  /**
   The report names the rollback when something may have been published, complete exactly when neither it nor
   the hook after it failed, and else the recovery hook, if there is one.
   */
  lemma ReportIff(specs: seq<Spec>, directory: string, hooks: Hooks, outcome: Outcome,
                  prepared: Nodes, applied: Nodes, undone: Nodes, final: Nodes)
    requires outcome.Failed? && Concluded(specs, directory, hooks, outcome, prepared, applied, undone, final)
    ensures var d := outcome.diagnosis; var report, hook := RecoveryReport(d), hooks.recoverUnmodified;
      if d.phase == Apply || d.phase == Validate then
        report == if d.rollbackErrors == [] && HookFault(hooks.afterRollback, undone).None? then RollbackComplete else RollbackIncomplete
      else report == if hook.None? then NotAttempted else if hook.value(undone).fault.None? then RuntimeRecovered else RuntimeRecoveryFailed
  {
    var d := outcome.diagnosis;
    assert d.rollbackErrors == [] ==> d.rollbackErrors + d.recoveryErrors == d.recoveryErrors;
  }

  /** No hook that runs after the snapshots touches the targets or the copies. */
  ghost predicate QuietHooks(hooks: Hooks, paths: set<Path>) {
    && Preserves(hooks.validate, paths) && Preserves(hooks.beforeRollback, paths)
    && Preserves(hooks.afterRollback, paths) && Preserves(hooks.recoverUnmodified, paths)
  }

  /** All or nothing: with quiet hooks, targets are all published, or all unchanged, or an error says otherwise. */
  lemma AllOrNothing(specs: seq<Spec>, directory: string, hooks: Hooks, outcome: Outcome,
                     prepared: Nodes, applied: Nodes, undone: Nodes, final: Nodes)
    requires Disjoint(directory, specs) && !outcome.Rejected?
    requires Concluded(specs, directory, hooks, outcome, prepared, applied, undone, final)
    requires QuietHooks(hooks, Targets(specs) + Copies(directory, specs))
    ensures outcome.Restored? ==> Published(prepared, final, specs, |specs|)
    ensures outcome.Failed? && (!Publishing(outcome.diagnosis.phase) || outcome.diagnosis.rollbackErrors == []) ==>
      SameOn(prepared, final, Targets(specs))
    ensures outcome.Failed? && RecoveryReport(outcome.diagnosis) == RollbackComplete ==>
      Publishing(outcome.diagnosis.phase) && SameOn(prepared, final, Targets(specs))
  {
    var all := Targets(specs) + Copies(directory, specs);
    PreservesFewer(hooks.validate, all, Copies(directory, specs));
    PreservesFewer(hooks.beforeRollback, all, Copies(directory, specs));
    if outcome.Restored? {
      forall i | 0 <= i < |specs| ensures At(final, specs[i].target) == At(applied, specs[i].target) {
        assert specs[i].target in all;
      }
    } else {
      var d := outcome.diagnosis;
      assert d.rollbackErrors + d.recoveryErrors == [] ==> d.rollbackErrors == [];
      assert forall p :: p in Targets(specs) ==> p in all && p !in Copies(directory, specs);
      assert SameOn(undone, final, all);
    }
  }

  lemma PreservesFewer(hook: Option<Hook>, all: set<Path>, some: set<Path>)
    requires Preserves(hook, all) && some <= all
    ensures Preserves(hook, some)
  {
    forall nodes: Nodes ensures SameOn(nodes, Effect(hook, nodes), some) {
      assert SameOn(nodes, Effect(hook, nodes), all);
    }
  }

  class Disk {
    var nodes: Nodes
    var faults: Faults

    constructor (nodes: Nodes, faults: Faults)
      ensures this.nodes == nodes && this.faults == faults
    {
      this.nodes, this.faults := nodes, faults;
    }

    /** Whether the next primitive operation fails. */
    method Fails() returns (fails: bool)
      modifies this`faults
      ensures fails == Drawn(old(faults)) && faults == Later(old(faults))
    {
      fails, faults := Drawn(faults), Later(faults);
    }

    method Normalize(specs: seq<Spec>) returns (fault: Option<Fault>)
      ensures fault.None? <==> Acceptable(nodes, specs)
      ensures fault.Some? ==> fault.value.Ordinary?
    {
      var targets: set<Path>, names: set<string> := {}, {};
      for n := 0 to |specs|
        invariant targets == set i | 0 <= i < n :: specs[i].target
        invariant names == set i | 0 <= i < n :: specs[i].name
        invariant forall i :: 0 <= i < n ==> specs[i].name != "" && IsFile(nodes, specs[i].source)
        invariant forall i, j :: 0 <= i < j < n ==> specs[i].name != specs[j].name && specs[i].target != specs[j].target
      {
        var item := specs[n];
        if item.name == "" {
          return Some(Ordinary("restore file name must not be empty"));
        }
        if item.target in targets {
          return Some(Ordinary("duplicate restore target"));
        }
        if item.name in names {
          return Some(Ordinary("duplicate restore name"));
        }
        if !IsFile(nodes, item.source) {
          return Some(Ordinary("source is not a file"));
        }
        targets := targets + {item.target};
        names := names + {item.name};
      }
      fault := if specs == [] then Some(Ordinary("restore transaction has no files")) else None;
    }

    /** Replacement is atomic for the target, but can still fail after it has happened. */
    method ReplaceFile(source: Path, target: Path) returns (fault: Option<Fault>)
      modifies this
      ensures fault.None? ==> IsFile(old(nodes), source) && nodes == old(nodes)[target := old(nodes)[source]]
      ensures nodes == old(nodes) || (IsFile(old(nodes), source) && nodes == old(nodes)[target := old(nodes)[source]])
      ensures Quiet(old(faults)) ==> Quiet(faults) && (fault.None? <==> IsFile(old(nodes), source) && !(target in old(nodes) && old(nodes)[target].Directory?))
    {
      if !IsFile(nodes, source) {
        return Some(Ordinary("source is not a file"));
      }
      var writeFails := Fails();
      if writeFails || (target in nodes && nodes[target].Directory?) {
        return Some(Ordinary("temporary file or rename failed"));
      }
      nodes := nodes[target := nodes[source]];
      var syncFails := Fails();
      fault := if syncFails then Some(Ordinary("chmod or directory sync failed")) else None;
    }

    /** One target: absent, or a regular file whose bytes are copied under the target's number. */
    method SnapshotTarget(ghost from: Nodes, specs: seq<Spec>, directory: string, i: nat) returns (snap: Snapshot, fault: Option<Fault>)
      requires Disjoint(directory, specs) && i < |specs| && SameOutside(from, nodes, Copies(directory, specs))
      modifies this
      ensures SameOutside(old(nodes), nodes, {CopyPath(directory, specs, i)})
      ensures fault.None? ==> SnapshotOf(from, nodes, directory, specs, i, snap)
      ensures Quiet(old(faults)) ==> Quiet(faults)
      ensures NoDirectories(old(nodes), Copies(directory, specs)) ==> NoDirectories(nodes, Copies(directory, specs))
      ensures Quiet(old(faults)) && NoDirectories(old(nodes), {specs[i].target, CopyPath(directory, specs, i)}) ==> fault.None?
    {
      var target, copy := specs[i].target, CopyPath(directory, specs, i);
      assert target in Targets(specs) && copy in Copies(directory, specs);
      assert At(nodes, target) == At(from, target);
      snap := Snapshot(specs[i], false, None);
      if target !in nodes {
        return snap, None;
      }
      if !IsFile(nodes, target) {
        return snap, Some(Ordinary("restore target is not a regular file"));
      }
      if copy in nodes && nodes[copy].Directory? {
        return snap, Some(Ordinary("snapshot path is a directory"));
      }
      var copyFails := Fails();
      if copyFails {
        var junk: Bytes := *;
        nodes := nodes[copy := File(junk)];
        return snap, Some(Ordinary("snapshot copy failed"));
      }
      nodes := nodes[copy := nodes[target]];
      return Snapshot(specs[i], true, Some(copy)), None;
    }

    method SnapshotTargets(specs: seq<Spec>, directory: string) returns (snaps: seq<Snapshot>, fault: Option<Fault>)
      requires Disjoint(directory, specs)
      modifies this
      ensures SameOutside(old(nodes), nodes, Copies(directory, specs))
      ensures fault.None? ==> Acceptable(old(nodes), specs) && |snaps| == |specs|
      ensures fault.None? ==> Snapshotted(old(nodes), nodes, directory, specs, snaps)
      ensures Quiet(old(faults)) ==> Quiet(faults)
      ensures Quiet(old(faults)) && Acceptable(old(nodes), specs) && NoDirectories(old(nodes), Targets(specs) + Copies(directory, specs)) ==> fault.None?
    {
      snaps := [];
      fault := Normalize(specs);
      if fault.Some? {
        return;
      }
      for i := 0 to |specs|
        invariant |snaps| == i && fault.None?
        invariant SameOutside(old(nodes), nodes, Copies(directory, specs))
        invariant Snapshotted(old(nodes), nodes, directory, specs, snaps)
        invariant Quiet(old(faults)) ==> Quiet(faults)
        invariant NoDirectories(old(nodes), Copies(directory, specs)) ==> NoDirectories(nodes, Copies(directory, specs))
      {
        ghost var before := nodes;
        PathsOf(old(nodes), nodes, directory, specs, i);
        var snap;
        snap, fault := SnapshotTarget(old(nodes), specs, directory, i);
        if fault.Some? {
          return;
        }
        SnapshotsGrow(old(nodes), before, nodes, directory, specs, snaps, snap);
        snaps := snaps + [snap];
      }
    }

    method ApplyFiles(specs: seq<Spec>) returns (names: seq<string>, fault: Option<Fault>)
      requires Sources(specs) !! Targets(specs)
      modifies this
      ensures SameOutside(old(nodes), nodes, Targets(specs))
      ensures fault.None? ==> Acceptable(old(nodes), specs) && Published(old(nodes), nodes, specs, |specs|)
      ensures fault.None? ==> names == Names(specs)
      ensures Quiet(old(faults)) ==> Quiet(faults)
      ensures NoDirectories(old(nodes), Targets(specs)) ==> NoDirectories(nodes, Targets(specs))
      ensures Quiet(old(faults)) && Acceptable(old(nodes), specs) && NoDirectories(old(nodes), Targets(specs)) ==> fault.None?
    {
      names := [];
      fault := Normalize(specs);
      if fault.Some? {
        return;
      }
      for n := 0 to |specs|
        invariant SameOutside(old(nodes), nodes, Targets(specs))
        invariant Published(old(nodes), nodes, specs, n) && Acceptable(old(nodes), specs) && fault.None?
        invariant names == Names(specs[..n])
        invariant Quiet(old(faults)) ==> Quiet(faults)
        invariant NoDirectories(old(nodes), Targets(specs)) ==> NoDirectories(nodes, Targets(specs))
      {
        assert specs[n].source in Sources(specs) && specs[n].target in Targets(specs);
        assert At(nodes, specs[n].source) == At(old(nodes), specs[n].source) && IsFile(nodes, specs[n].source);
        ghost var before := nodes;
        fault := ReplaceFile(specs[n].source, specs[n].target);
        if fault.Some? {
          return;
        }
        PublishedStep(old(nodes), before, specs, n, old(nodes)[specs[n].source]);
        names := names + [specs[n].name];
        assert specs[..n + 1] == specs[..n] + [specs[n]];
      }
      assert specs[..|specs|] == specs;
    }

    /** One target is put back from its copy, or removed when it was absent. */
    method RollbackTarget(ghost from: Nodes, ghost specs: seq<Spec>, ghost directory: string, ghost n: nat, snap: Snapshot) returns (fault: Option<Fault>)
      requires n < |specs| && snap.spec == specs[n]
      modifies this
      ensures SameOutside(old(nodes), nodes, {snap.spec.target})
      ensures fault.None? && SnapshotOf(from, old(nodes), directory, specs, n, snap) ==> At(nodes, snap.spec.target) == At(from, snap.spec.target)
      ensures Quiet(old(faults)) ==> Quiet(faults)
      ensures NoDirectories(old(nodes), {snap.spec.target}) ==> NoDirectories(nodes, {snap.spec.target})
      ensures Quiet(old(faults)) && SnapshotOf(from, old(nodes), directory, specs, n, snap) && NoDirectories(old(nodes), {snap.spec.target}) ==> fault.None?
    {
      var target := snap.spec.target;
      if snap.existed {
        if snap.copy.None? || !IsFile(nodes, snap.copy.value) {
          return Some(Ordinary("rollback snapshot is unavailable"));
        }
        fault := ReplaceFile(snap.copy.value, target);
        return;
      }
      if target in nodes {
        var unlinkFails := Fails();
        if unlinkFails || nodes[target].Directory? {
          return Some(Ordinary("unlink failed"));
        }
        nodes := nodes - {target};
        var syncFails := Fails();
        if syncFails {
          return Some(Ordinary("directory sync failed"));
        }
      }
      fault := None;
    }

    /** Stops at the first failure; success means every target is back. */
    method RollbackTargets(ghost from: Nodes, ghost specs: seq<Spec>, ghost directory: string, snaps: seq<Snapshot>) returns (fault: Option<Fault>)
      requires |snaps| == |specs| && Acceptable(from, specs) && Disjoint(directory, specs)
      requires forall i :: 0 <= i < |snaps| ==> snaps[i].spec == specs[i]
      modifies this
      ensures SameOutside(old(nodes), nodes, Targets(specs))
      ensures fault.None? && Snapshotted(from, old(nodes), directory, specs, snaps) ==> Reverted(from, nodes, snaps, |snaps|)
      ensures Quiet(old(faults)) ==> Quiet(faults)
      ensures Quiet(old(faults)) && Snapshotted(from, old(nodes), directory, specs, snaps) && NoDirectories(old(nodes), Targets(specs)) ==> fault.None?
    {
      fault := None;
      for n := 0 to |snaps|
        invariant fault.None?
        invariant SameOutside(old(nodes), nodes, Targets(specs))
        invariant Snapshotted(from, old(nodes), directory, specs, snaps) ==> Reverted(from, nodes, snaps, n)
        invariant Quiet(old(faults)) ==> Quiet(faults)
        invariant NoDirectories(old(nodes), Targets(specs)) ==> NoDirectories(nodes, Targets(specs))
      {
        ghost var before := nodes;
        assert specs[n].target in Targets(specs);
        if Snapshotted(from, old(nodes), directory, specs, snaps) {
          CopyStays(from, old(nodes), nodes, directory, specs, snaps, n);
        }
        fault := RollbackTarget(from, specs, directory, n, snaps[n]);
        if fault.Some? {
          return;
        }
        RevertedGrows(from, before, nodes, specs, snaps, n);
      }
    }

    /** The transaction up to its first failure: prepare, snapshot, apply, validate. */
    method Publish(specs: seq<Spec>, directory: string, hooks: Hooks)
      returns (phase: Phase, snaps: seq<Snapshot>, names: seq<string>, cause: Option<Fault>, ghost prepared: Nodes, ghost applied: Nodes)
      requires Disjoint(directory, specs)
      modifies this
      ensures prepared == Effect(hooks.prepare, old(nodes))
      ensures HookFault(hooks.prepare, old(nodes)) == if phase.Prepare? then cause else None
      ensures cause.None? ==> phase.Validate? && names == Names(specs)
      ensures phase.Validate? ==> cause == HookFault(hooks.validate, applied) && nodes == Effect(hooks.validate, applied) && Published(prepared, applied, specs, |specs|)
      ensures phase.Apply? ==> nodes == applied
      ensures !Publishing(phase) ==> snaps == [] && SameOutside(prepared, nodes, Copies(directory, specs))
      ensures Publishing(phase) ==>
        && Acceptable(prepared, specs) && |snaps| == |specs| && (forall i :: 0 <= i < |snaps| ==> snaps[i].spec == specs[i])
        && Snapshotted(prepared, applied, directory, specs, snaps) && SameOutside(prepared, applied, Targets(specs) + Copies(directory, specs))
        && (NoDirectories(prepared, Targets(specs)) ==> NoDirectories(applied, Targets(specs)))
      ensures Quiet(old(faults)) ==> Quiet(faults)
      ensures Quiet(old(faults)) && Acceptable(prepared, specs) && NoDirectories(prepared, Targets(specs) + Copies(directory, specs)) ==>
        phase.Prepare? || phase.Validate?
    {
      phase, snaps, names := Prepare, [], [];
      cause := HookFault(hooks.prepare, nodes);
      nodes := Effect(hooks.prepare, nodes);
      prepared, applied := nodes, nodes;
      if cause.Some? {
        return;
      }
      phase := Snapshotting;
      var taken;
      taken, cause := SnapshotTargets(specs, directory);
      var snapshotCancelled := Fails();
      cause := AwaitThread(cause, snapshotCancelled);
      if cause.Some? {
        return;
      }
      snaps, phase := taken, Apply;
      ghost var snapped := nodes;
      SnapshotKeeps(prepared, snapped, directory, specs);
      names, cause := ApplyFiles(specs);
      ApplyKeepsSnapshots(prepared, snapped, nodes, directory, specs, snaps);
      var applyCancelled := Fails();
      cause := AwaitThread(cause, applyCancelled);
      applied := nodes;
      if cause.Some? {
        return;
      }
      phase := Validate;
      cause := HookFault(hooks.validate, nodes);
      nodes := Effect(hooks.validate, nodes);
    }

    /** Undoes what was published, as far as the recorded snapshots allow. `late` are the failures to come when it begins. */
    method Undo(ghost prepared: Nodes, specs: seq<Spec>, directory: string, snaps: seq<Snapshot>, hooks: Hooks) returns (errors: seq<Fault>, ghost late: Faults)
      requires |snaps| == |specs| && Acceptable(prepared, specs) && Disjoint(directory, specs)
      requires forall i :: 0 <= i < |snaps| ==> snaps[i].spec == specs[i]
      modifies this
      ensures late == old(faults)
      ensures var first, before := Errors(HookFault(hooks.beforeRollback, old(nodes))), Effect(hooks.beforeRollback, old(nodes));
        && first <= errors && |errors| <= |first| + 1
        && (errors == [] && Snapshotted(prepared, before, directory, specs, snaps) ==> SameOn(prepared, nodes, Targets(specs)))
        && (Quiet(late) && Snapshotted(prepared, before, directory, specs, snaps) && NoDirectories(before, Targets(specs)) ==> errors == first)
    {
      late := faults;
      errors := Errors(HookFault(hooks.beforeRollback, nodes));
      nodes := Effect(hooks.beforeRollback, nodes);
      ghost var before := nodes;
      var fault := RollbackTargets(prepared, specs, directory, snaps);
      if fault.None? && Snapshotted(prepared, before, directory, specs, snaps) {
        RevertedIsSame(prepared, nodes, specs, snaps);
      }
      var rollbackCancelled := Fails();
      fault := AwaitThread(fault, rollbackCancelled);
      errors := errors + Errors(fault);
    }

    /**
     The transaction. `prepared` is the state after the prepare hook, `applied` the state after publishing,
     `undone` the state handed to the final recovery hook, and `late` the failures to come when a rollback begins.
     */
    method RunRestore(specs: seq<Spec>, directory: string, hooks: Hooks)
      returns (outcome: Outcome, ghost prepared: Nodes, ghost applied: Nodes, ghost undone: Nodes, ghost late: Faults)
      requires Disjoint(directory, specs)
      modifies this
      ensures outcome.Rejected? <==> !Acceptable(old(nodes), specs)
      ensures outcome.Rejected? ==> nodes == old(nodes)
      ensures !outcome.Rejected? ==> prepared == Effect(hooks.prepare, old(nodes))
      ensures Concluded(specs, directory, hooks, outcome, prepared, applied, undone, nodes)
      ensures outcome.Failed? ==> Blamed(hooks, old(nodes), applied, outcome.diagnosis)
      ensures outcome.Restored? ==> HookFault(hooks.prepare, old(nodes)).None?
      ensures Acceptable(old(nodes), specs) && Quiet(old(faults)) && Unhindered(specs, directory, hooks, old(nodes), prepared, applied) ==>
        outcome == Restored(Names(specs))
      ensures outcome.Failed? && Publishing(outcome.diagnosis.phase) && Quiet(late) && Undoable(specs, directory, hooks, prepared) ==>
        outcome.diagnosis.rollbackErrors == Errors(HookFault(hooks.beforeRollback, BeforeRollback(hooks, applied, outcome.diagnosis.phase)))
    {
      prepared, applied, undone, late := nodes, nodes, nodes, faults;
      var rejection := Normalize(specs);
      if rejection.Some? {
        return Rejected(rejection.value), prepared, applied, undone, late;
      }
      var phase, snaps, names, cause;
      phase, snaps, names, cause, prepared, applied := Publish(specs, directory, hooks);
      if cause.None? {
        return Restored(names), prepared, applied, nodes, late;
      }
      var rollbackAttempted, rollbackErrors, last := false, [], hooks.recoverUnmodified;
      if Publishing(phase) && snaps != [] {
        ghost var before := BeforeRollback(hooks, applied, phase);
        HooksKeepSnapshots(prepared, applied, directory, specs, snaps, hooks, phase);
        rollbackAttempted, last := true, hooks.afterRollback;
        rollbackErrors, late := Undo(prepared, specs, directory, snaps, hooks);
      }
      undone := nodes;
      var recoveryErrors := Errors(HookFault(last, nodes));
      nodes := Effect(last, nodes);
      outcome := Failed(Diagnosis(phase, cause.value, rollbackAttempted, rollbackErrors, last.Some?, recoveryErrors));
    }
  }

  /** No hook fails, the prepared files still suit the plan, and no directory is in the way. */
  ghost predicate Unhindered(specs: seq<Spec>, directory: string, hooks: Hooks, before: Nodes, prepared: Nodes, applied: Nodes) {
    && HookFault(hooks.prepare, before).None? && HookFault(hooks.validate, applied).None?
    && Acceptable(prepared, specs) && NoDirectories(prepared, Targets(specs) + Copies(directory, specs))
  }

  /** No directory was in the way of the targets, and the hooks keep off the targets and the copies. */
  ghost predicate Undoable(specs: seq<Spec>, directory: string, hooks: Hooks, prepared: Nodes) {
    && NoDirectories(prepared, Targets(specs))
    && Preserves(hooks.validate, Targets(specs) + Copies(directory, specs))
    && Preserves(hooks.beforeRollback, Targets(specs) + Copies(directory, specs))
  }

  /** The state in which the rollback begins. */
  function BeforeRollback(hooks: Hooks, applied: Nodes, phase: Phase): Nodes {
    if phase.Validate? then Effect(hooks.validate, applied) else applied
  }

  // ----- What the phases leave to the next -----

  lemma PathsOf(from: Nodes, now: Nodes, directory: string, specs: seq<Spec>, i: nat)
    requires i < |specs| && Disjoint(directory, specs) && SameOutside(from, now, Copies(directory, specs))
    ensures specs[i].target in Targets(specs) && CopyPath(directory, specs, i) in Copies(directory, specs)
    ensures NoDirectories(from, Targets(specs)) && NoDirectories(now, Copies(directory, specs)) ==>
      NoDirectories(now, {specs[i].target, CopyPath(directory, specs, i)})
  {
    assert At(now, specs[i].target) == At(from, specs[i].target);
  }

  lemma SnapshotsGrow(from: Nodes, before: Nodes, now: Nodes, directory: string, specs: seq<Spec>, snaps: seq<Snapshot>, snap: Snapshot)
    requires |snaps| < |specs| && Snapshotted(from, before, directory, specs, snaps)
    requires SameOutside(before, now, {CopyPath(directory, specs, |snaps|)}) && SnapshotOf(from, now, directory, specs, |snaps|, snap)
    ensures Snapshotted(from, now, directory, specs, snaps + [snap])
  {
    forall i | 0 <= i < |snaps| ensures SnapshotOf(from, now, directory, specs, i, snaps[i]) {
      assert SnapshotOf(from, before, directory, specs, i, snaps[i]);
      if CopyPath(directory, specs, i) == CopyPath(directory, specs, |snaps|) {
        CopiesDistinct(directory, specs, i, |snaps|);
      }
    }
  }

  lemma CopyStays(from: Nodes, before: Nodes, now: Nodes, directory: string, specs: seq<Spec>, snaps: seq<Snapshot>, n: nat)
    requires Disjoint(directory, specs) && n < |snaps| && Snapshotted(from, before, directory, specs, snaps) && SameOutside(before, now, Targets(specs))
    ensures SnapshotOf(from, now, directory, specs, n, snaps[n])
  {
    assert SnapshotOf(from, before, directory, specs, n, snaps[n]);
    assert CopyPath(directory, specs, n) in Copies(directory, specs);
  }

  lemma RevertedGrows(from: Nodes, before: Nodes, now: Nodes, specs: seq<Spec>, snaps: seq<Snapshot>, n: nat)
    requires n < |snaps| == |specs| && (forall i :: 0 <= i < |snaps| ==> snaps[i].spec == specs[i]) && Acceptable(from, specs)
    requires SameOutside(before, now, {snaps[n].spec.target})
    ensures Reverted(from, before, snaps, n) && At(now, snaps[n].spec.target) == At(from, snaps[n].spec.target) ==> Reverted(from, now, snaps, n + 1)
  {
    forall i | 0 <= i < n ensures At(now, snaps[i].spec.target) == At(before, snaps[i].spec.target) {
      assert specs[i].target != specs[n].target;
    }
  }

  lemma SnapshotKeeps(prepared: Nodes, snapped: Nodes, directory: string, specs: seq<Spec>)
    requires Disjoint(directory, specs) && SameOutside(prepared, snapped, Copies(directory, specs)) && Acceptable(prepared, specs)
    ensures Acceptable(snapped, specs)
    ensures NoDirectories(prepared, Targets(specs)) ==> NoDirectories(snapped, Targets(specs))
    ensures forall p :: p in Sources(specs) + Targets(specs) ==> At(snapped, p) == At(prepared, p)
  {
    forall i | 0 <= i < |specs| ensures IsFile(snapped, specs[i].source) {
      assert specs[i].source in Sources(specs);
      assert At(snapped, specs[i].source) == At(prepared, specs[i].source);
    }
    forall p | p in Targets(specs) && p in snapped && NoDirectories(prepared, Targets(specs)) ensures snapped[p].File? {
      assert At(snapped, p) == At(prepared, p);
    }
  }

  /** Publishing writes no copy, so the snapshots stay good, and the sources are those of the prepared state. */
  lemma ApplyKeepsSnapshots(prepared: Nodes, snapped: Nodes, applied: Nodes, directory: string, specs: seq<Spec>, snaps: seq<Snapshot>)
    requires Disjoint(directory, specs) && SameOutside(prepared, snapped, Copies(directory, specs)) && SameOutside(snapped, applied, Targets(specs))
    requires Snapshotted(prepared, snapped, directory, specs, snaps) && Acceptable(prepared, specs)
    ensures Snapshotted(prepared, applied, directory, specs, snaps)
    ensures SameOutside(prepared, applied, Targets(specs) + Copies(directory, specs))
    ensures Published(snapped, applied, specs, |specs|) ==> Published(prepared, applied, specs, |specs|)
  {
    forall i | 0 <= i < |snaps| ensures SnapshotOf(prepared, applied, directory, specs, i, snaps[i]) {
      assert SnapshotOf(prepared, snapped, directory, specs, i, snaps[i]);
      assert CopyPath(directory, specs, i) in Copies(directory, specs);
    }
    SnapshotKeeps(prepared, snapped, directory, specs);
    forall i | 0 <= i < |specs| ensures At(snapped, specs[i].source) == At(prepared, specs[i].source) {
      assert specs[i].source in Sources(specs);
    }
  }

  lemma RevertedIsSame(prepared: Nodes, now: Nodes, specs: seq<Spec>, snaps: seq<Snapshot>)
    requires |snaps| == |specs| && (forall i :: 0 <= i < |snaps| ==> snaps[i].spec == specs[i]) && Reverted(prepared, now, snaps, |snaps|)
    ensures SameOn(prepared, now, Targets(specs))
  {
  }

  /** Hooks that keep off the copies keep the snapshots good; off the targets, they leave no directory there. */
  lemma HooksKeepSnapshots(prepared: Nodes, applied: Nodes, directory: string, specs: seq<Spec>, snaps: seq<Snapshot>, hooks: Hooks, phase: Phase)
    requires Snapshotted(prepared, applied, directory, specs, snaps)
    ensures var now := Effect(hooks.beforeRollback, BeforeRollback(hooks, applied, phase));
      && (Preserves(hooks.validate, Copies(directory, specs)) && Preserves(hooks.beforeRollback, Copies(directory, specs)) ==>
            Snapshotted(prepared, now, directory, specs, snaps))
      && (Preserves(hooks.validate, Targets(specs) + Copies(directory, specs)) && Preserves(hooks.beforeRollback, Targets(specs) + Copies(directory, specs)) ==>
            Snapshotted(prepared, now, directory, specs, snaps) && (NoDirectories(applied, Targets(specs)) ==> NoDirectories(now, Targets(specs))))
  {
    var middle := BeforeRollback(hooks, applied, phase);
    var now := Effect(hooks.beforeRollback, middle);
    var all := Targets(specs) + Copies(directory, specs);
    if Preserves(hooks.validate, all) && Preserves(hooks.beforeRollback, all) {
      assert SameOn(applied, middle, all) && SameOn(middle, now, all);
      SameKeepsSnapshots(prepared, applied, now, directory, specs, snaps);
      forall p | p in Targets(specs) && p in now && NoDirectories(applied, Targets(specs)) ensures now[p].File? {
        assert p in all && At(applied, p) == At(now, p);
      }
    }
    if Preserves(hooks.validate, Copies(directory, specs)) && Preserves(hooks.beforeRollback, Copies(directory, specs)) {
      assert SameOn(applied, middle, Copies(directory, specs)) && SameOn(middle, now, Copies(directory, specs));
      SameKeepsSnapshots(prepared, applied, now, directory, specs, snaps);
    }
  }

  lemma SameKeepsSnapshots(prepared: Nodes, a: Nodes, b: Nodes, directory: string, specs: seq<Spec>, snaps: seq<Snapshot>)
    requires Snapshotted(prepared, a, directory, specs, snaps) && SameOn(a, b, Copies(directory, specs))
    ensures Snapshotted(prepared, b, directory, specs, snaps)
  {
    forall i | 0 <= i < |snaps| ensures SnapshotOf(prepared, b, directory, specs, i, snaps[i]) {
      assert SnapshotOf(prepared, a, directory, specs, i, snaps[i]);
      assert CopyPath(directory, specs, i) in Copies(directory, specs);
    }
  }

  function Errors(fault: Option<Fault>): seq<Fault> {
    if fault.None? then [] else [fault.value]
  }

  ghost predicate Recovery(d: Diagnosis, hook: Option<Hook>, before: Nodes) {
    && (d.recoveryAttempted <==> hook.Some?)
    && d.recoveryErrors == Errors(HookFault(hook, before))
  }

  /**
   What a wait for a worker thread raises. A cancelled wait still lets the thread finish; the cancellation
   is raised unless the thread itself failed, whose own error then comes through.
   */
  function AwaitThread(result: Option<Fault>, cancelled: bool): Option<Fault> {
    if cancelled && result.None? then Some(Cancellation) else result
  }

  /** A thread that failed is blamed itself; nothing is raised exactly when it succeeded and nobody cancelled. */
  lemma OwnErrorWins(result: Option<Fault>, cancelled: bool)
    ensures result.Some? ==> AwaitThread(result, cancelled) == result
    ensures AwaitThread(result, cancelled).None? <==> result.None? && !cancelled
    ensures AwaitThread(None, true) == Some(Cancellation)
  {
  }
}
