/** Checking a constraint snapshot against the installed dependency closure. */
module Constraints {
  import opened Wrappers
  import Lexical

  datatype PinError =
    | MissingPin(name: string, version: string)
    | VersionMismatch(name: string, installed: string, pinned: string)
    | StalePin(name: string, version: string)

  function InstalledErrors(order: seq<string>, installed: map<string, string>, pins: map<string, string>): seq<PinError>
    requires forall n :: n in order ==> n in installed
  {
    if order == [] then []
    else
      var last := order[|order| - 1];
      InstalledErrors(order[..|order| - 1], installed, pins) +
      if last !in pins then [MissingPin(last, installed[last])]
      else if pins[last] != installed[last] then [VersionMismatch(last, installed[last], pins[last])]
      else []
  }

  function StaleErrors(order: seq<string>, installed: map<string, string>, pins: map<string, string>): seq<PinError>
    requires forall n :: n in order ==> n in pins
  {
    if order == [] then []
    else
      var last := order[|order| - 1];
      StaleErrors(order[..|order| - 1], installed, pins) + if last !in installed then [StalePin(last, pins[last])] else []
  }

  /** Exactly the discrepancies, whatever the order they are found in. */
  predicate Discrepancy(e: PinError, installed: map<string, string>, pins: map<string, string>) {
    match e
    case MissingPin(n, v) => n in installed && n !in pins && v == installed[n]
    case VersionMismatch(n, i, p) => n in installed && n in pins && i == installed[n] && p == pins[n] && i != p
    case StalePin(n, v) => n in pins && n !in installed && v == pins[n]
  }

  lemma {:induction false} InstalledErrorsIff(order: seq<string>, installed: map<string, string>, pins: map<string, string>, e: PinError)
    requires forall n :: n in order ==> n in installed
    ensures e in InstalledErrors(order, installed, pins) <==> !e.StalePin? && e.name in order && Discrepancy(e, installed, pins)
  {
    if order != [] {
      var init, last := order[..|order| - 1], order[|order| - 1];
      InstalledErrorsIff(init, installed, pins, e);
      assert order == init + [last];
    }
  }

  lemma {:induction false} StaleErrorsIff(order: seq<string>, installed: map<string, string>, pins: map<string, string>, e: PinError)
    requires forall n :: n in order ==> n in pins
    ensures e in StaleErrors(order, installed, pins) <==> e.StalePin? && e.name in order && Discrepancy(e, installed, pins)
  {
    if order != [] {
      var init, last := order[..|order| - 1], order[|order| - 1];
      StaleErrorsIff(init, installed, pins, e);
      assert order == init + [last];
    }
  }

  /** Differing maps have a discrepancy. */
  lemma FindDiscrepancy(installed: map<string, string>, pins: map<string, string>) returns (e: PinError)
    requires pins != installed
    ensures Discrepancy(e, installed, pins)
  {
    if n :| n in installed && (n !in pins || pins[n] != installed[n]) {
      e := if n !in pins then MissingPin(n, installed[n]) else VersionMismatch(n, installed[n], pins[n]);
    } else {
      var n :| n in pins && n !in installed;
      e := StalePin(n, pins[n]);
    }
  }

  /** Findings about the given names, one per name at most, in name order. */
  predicate Listed(errors: seq<PinError>, names: seq<string>, stale: bool) {
    && (forall i :: 0 <= i < |errors| ==> errors[i].name in names && errors[i].StalePin? == stale)
    && (forall i, j :: 0 <= i < j < |errors| ==> Lexical.Before(errors[i].name, errors[j].name))
  }

  lemma ListedAppend(errors: seq<PinError>, order: seq<string>, k: nat, e: PinError)
    requires k < |order| && Lexical.Ascending(order) && Listed(errors, order[..k], e.StalePin?) && e.name == order[k]
    ensures Listed(errors + [e], order[..k + 1], e.StalePin?)
  {
    assert order[..k + 1] == order[..k] + [order[k]];
    forall i | 0 <= i < |errors| ensures Lexical.Before(errors[i].name, e.name) {
      var j :| 0 <= j < k && order[..k][j] == errors[i].name;
      assert Lexical.Before(order[j], order[k]);
    }
  }

  method CheckInstalled(order: seq<string>, installed: map<string, string>, pins: map<string, string>) returns (errors: seq<PinError>)
    requires Lexical.Ascending(order) && forall n :: n in order ==> n in installed
    ensures errors == InstalledErrors(order, installed, pins) && Listed(errors, order, false)
  {
    errors := [];
    for k := 0 to |order|
      invariant forall n :: n in order[..k] ==> n in order
      invariant errors == InstalledErrors(order[..k], installed, pins) && Listed(errors, order[..k], false)
    {
      var name := order[k];
      assert order[..k + 1][..k] == order[..k] && order[..k + 1] == order[..k] + [name];
      if name !in pins {
        ListedAppend(errors, order, k, MissingPin(name, installed[name]));
        errors := errors + [MissingPin(name, installed[name])];
      } else if pins[name] != installed[name] {
        ListedAppend(errors, order, k, VersionMismatch(name, installed[name], pins[name]));
        errors := errors + [VersionMismatch(name, installed[name], pins[name])];
      }
    }
    assert order[..|order|] == order;
  }

  method CheckStale(order: seq<string>, installed: map<string, string>, pins: map<string, string>) returns (errors: seq<PinError>)
    requires Lexical.Ascending(order) && forall n :: n in order ==> n in pins
    ensures errors == StaleErrors(order, installed, pins) && Listed(errors, order, true)
  {
    errors := [];
    for k := 0 to |order|
      invariant forall n :: n in order[..k] ==> n in order
      invariant errors == StaleErrors(order[..k], installed, pins) && Listed(errors, order[..k], true)
    {
      var name := order[k];
      assert order[..k + 1][..k] == order[..k] && order[..k + 1] == order[..k] + [name];
      if name !in installed {
        ListedAppend(errors, order, k, StalePin(name, pins[name]));
        errors := errors + [StalePin(name, pins[name])];
      }
    }
    assert order[..|order|] == order;
  }

  /** `check_constraints`, given the parsed pins and the closure: every discrepancy, in sorted order, and nothing else. */
  method CheckConstraints(pins: map<string, string>, installed: map<string, string>) returns (errors: seq<PinError>, ghost split: nat)
    ensures forall e :: e in errors <==> Discrepancy(e, installed, pins)
    ensures errors == [] <==> pins == installed
    ensures split <= |errors|
    ensures forall i :: 0 <= i < |errors| ==> (errors[i].StalePin? <==> split <= i)
    ensures forall i, j :: 0 <= i < j < |errors| && (j < split || split <= i) ==> Lexical.Before(errors[i].name, errors[j].name)
  {
    var names := Lexical.Sorted(installed.Keys);
    var found := CheckInstalled(names, installed, pins);
    var pinned := Lexical.Sorted(pins.Keys);
    var stale := CheckStale(pinned, installed, pins);
    errors, split := found + stale, |found|;
    forall e ensures e in errors <==> Discrepancy(e, installed, pins) {
      InstalledErrorsIff(names, installed, pins, e);
      StaleErrorsIff(pinned, installed, pins, e);
    }
    if pins != installed {
      ghost var e := FindDiscrepancy(installed, pins);
      assert e in errors;
    } else if errors != [] {
      assert errors[0] in errors;
    }
  }
}
