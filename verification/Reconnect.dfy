/** The reconnect loop: its trace of calls and observations, for any environment. */
module Reconnect {
  import opened Wrappers

  datatype Link = Accepted | Refused | Raised | Interrupted

  datatype Wait = Arrives | TimesOut | Stopped

  /** What others do to the readiness event while the loop is suspended. */
  datatype Touch = Keep | Raise | Lower

  /** Everything one pass of the loop may observe. */
  datatype Round = Round(
    stopBefore: bool, sleepCancelled: bool, whileAsleep: Touch, stopAfter: bool, started: bool,
    link: Link, whileConnecting: Touch, wait: Wait, disconnectRaises: bool, whileDisconnecting: Touch)

  datatype Step =
    | StopChecked(before: bool, seen: bool)
    | Slept(delay: real)
    | StartChecked(seen: bool)
    | Cleared
    | Connected(link: Link)
    | Waited(raced: bool, wait: Wait)
    | PartialDisconnected(raced: bool)

  datatype Event = Event(round: nat, step: Step)

  /** How far the loop has come: it returned, an exception left it, or it goes on. */
  datatype Fate = Returned | Escaped | Running

  function Touched(flag: bool, t: Touch): bool {
    match t
    case Keep => flag
    case Raise => true
    case Lower => false
  }

  function WaitResult(flag: bool, wait: Wait): Wait {
    if flag then Arrives else wait
  }

  /** The readiness event after a pass that goes on to the next. */
  function FlagAfter(r: Round): bool {
    Touched(false, if r.started || r.link == Accepted then r.whileDisconnecting else r.whileConnecting)
  }

  function Flag(script: seq<Round>, initial: bool, n: nat): bool
    requires n <= |script|
  {
    if n == 0 then initial else FlagAfter(script[n - 1])
  }

  // ----- Delays -----

  function First(initialDelay: real): real {
    if initialDelay < 0.0 then 0.0 else initialDelay
  }

  function Ceiling(initialDelay: real, maxDelay: real): real {
    if maxDelay < First(initialDelay) then First(initialDelay) else maxDelay
  }

  function NextDelay(delay: real, maximum: real): real {
    MinReal(maximum, MaxReal(delay * 2.0, 1.0))
  }

  /** The delay d doubled n times: d * 2^n, by `DoubledIsPower`. */
  function Doubled(d: real, n: nat): real {
    if n == 0 then d else 2.0 * Doubled(d, n - 1)
  }

  lemma {:induction false} DoubledIsPower(d: real, n: nat)
    ensures Doubled(d, n) == d * Power2(n) as real
  {
    if n > 0 {
      DoubledIsPower(d, n - 1);
      assert d * (2.0 * Power2(n - 1) as real) == 2.0 * (d * Power2(n - 1) as real);
    }
  }

  /** The delay before the pass numbered n, in closed form. */
  function Delay(initialDelay: real, maxDelay: real, n: nat): real {
    var d := First(initialDelay);
    var m := Ceiling(initialDelay, maxDelay);
    if n == 0 then d
    else if d >= 0.5 then MinReal(m, Doubled(d, n))
    else MinReal(m, Doubled(1.0, n - 1))
  }

  /** min(M, d*2^n) for an initial delay of at least one half, and otherwise min(M, 2^(n-1)) after the first pass. */
  lemma DelayClosedForm(initialDelay: real, maxDelay: real, n: nat)
    ensures var d := if initialDelay < 0.0 then 0.0 else initialDelay; var m := if maxDelay < d then d else maxDelay;
      && (d >= 0.5 ==> Delay(initialDelay, maxDelay, n) == MinReal(m, d * Power2(n) as real))
      && (d < 0.5 && n >= 1 ==> Delay(initialDelay, maxDelay, n) == MinReal(m, Power2(n - 1) as real))
      && Delay(initialDelay, maxDelay, 0) == d
  {
    var d := if initialDelay < 0.0 then 0.0 else initialDelay;
    DelayCases(initialDelay, maxDelay, n, d);
    DoubledIsPower(d, n);
    if n >= 1 {
      DoubledOne(n - 1);
    }
  }

  lemma {:induction false} DoubledOne(n: nat)
    ensures Doubled(1.0, n) == Power2(n) as real
  {
    if n > 0 {
      DoubledOne(n - 1);
    }
  }

  lemma DelayCases(initialDelay: real, maxDelay: real, n: nat, d: real)
    requires d == if initialDelay < 0.0 then 0.0 else initialDelay
    ensures var m := if maxDelay < d then d else maxDelay;
      && (d >= 0.5 ==> Delay(initialDelay, maxDelay, n) == MinReal(m, Doubled(d, n)))
      && (d < 0.5 && n >= 1 ==> Delay(initialDelay, maxDelay, n) == MinReal(m, Doubled(1.0, n - 1)))
      && Delay(initialDelay, maxDelay, 0) == d
  {
  }

  /** The loop's recurrence. */
  lemma DelayStep(initialDelay: real, maxDelay: real, n: nat)
    ensures Delay(initialDelay, maxDelay, n + 1) == NextDelay(Delay(initialDelay, maxDelay, n), Ceiling(initialDelay, maxDelay))
  {
    DoublingGrows(First(initialDelay), n);
    if n > 0 {
      DoublingGrows(1.0, n - 1);
    }
  }

  lemma {:induction false} DoublingGrows(d: real, n: nat)
    ensures d >= 0.0 ==> Doubled(d, n) >= d
  {
    if n > 0 {
      DoublingGrows(d, n - 1);
    }
  }

  /** Delays never shrink and never pass the ceiling. */
  lemma DelaysGrow(initialDelay: real, maxDelay: real, n: nat)
    ensures Delay(initialDelay, maxDelay, n) <= Delay(initialDelay, maxDelay, n + 1) <= Ceiling(initialDelay, maxDelay)
  {
    DelayStep(initialDelay, maxDelay, n);
  }

  // ----- The protocol -----

  /** The order of events: b may come right after a. */
  predicate Follows(a: Event, b: Event) {
    match a.step
    case StopChecked(before, seen) => !seen && b.round == a.round && (if before then b.step.Slept? else b.step.StartChecked?)
    case Slept(_) => b.round == a.round && b.step.StopChecked? && !b.step.before
    case StartChecked(seen) => b.round == a.round && if seen then b.step.Waited? && b.step.raced else b.step.Cleared?
    case Cleared => b.round == a.round && b.step.Connected?
    case Connected(Accepted) => b.round == a.round && b.step.Waited? && !b.step.raced
    case Connected(Interrupted) => false
    case Connected(_) => b.round == a.round + 1 && b.step.StopChecked? && b.step.before
    case Waited(raced, wait) => wait == TimesOut && b.round == a.round && b.step == PartialDisconnected(raced)
    case PartialDisconnected(_) => b.round == a.round + 1 && b.step.StopChecked? && b.step.before
  }

  datatype Setting = Setting(script: seq<Round>, ready: bool, initialDelay: real, maxDelay: real)

  /** The event reports what the environment showed in its round. */
  predicate Truthful(s: Setting, e: Event) {
    e.round < |s.script| &&
    var r := s.script[e.round];
    match e.step
    case StopChecked(before, seen) => seen == if before then r.stopBefore else r.stopAfter
    case Slept(delay) => delay == Delay(s.initialDelay, s.maxDelay, e.round)
    case StartChecked(seen) => seen == r.started
    case Cleared => true
    case Connected(link) => link == r.link
    case Waited(raced, wait) =>
      wait == WaitResult(if raced then Touched(Flag(s.script, s.ready, e.round), r.whileAsleep) else Touched(false, r.whileConnecting), r.wait)
    case PartialDisconnected(_) => true
  }

  /** An exception leaves the loop at this event. */
  predicate Breaks(s: Setting, e: Event)
    requires e.round < |s.script|
  {
    var r := s.script[e.round];
    match e.step
    case Slept(_) => r.sleepCancelled
    case Connected(link) => link == Interrupted
    case Waited(_, wait) => wait == Stopped
    case PartialDisconnected(_) => r.disconnectRaises
    case _ => false
  }

  /** The loop returns at this event: it saw the shutdown, or readiness. */
  predicate Ends(e: Event) {
    (e.step.StopChecked? && e.step.seen) || (e.step.Waited? && e.step.wait == Arrives)
  }

  predicate Linked(s: Setting, trace: seq<Event>, k: nat)
    requires 0 < k < |trace| && forall i :: 0 <= i < |trace| ==> trace[i].round < |s.script|
  {
    Follows(trace[k - 1], trace[k]) && !Breaks(s, trace[k - 1])
  }

  /** Every event is truthful and in order, and nothing follows an exception. */
  predicate Protocol(s: Setting, trace: seq<Event>) {
    && (forall k :: 0 <= k < |trace| ==> Truthful(s, trace[k]))
    && (forall k :: 0 < k < |trace| ==> Linked(s, trace, k))
    && (trace != [] ==> trace[0].round == 0 && trace[0].step.StopChecked? && trace[0].step.before)
  }

  /** The pass is over and the loop goes round again. */
  predicate Repeats(e: Event) {
    e.step.PartialDisconnected? || (e.step.Connected? && (e.step.link == Refused || e.step.link == Raised))
  }

  /** The trace stops where it must, and not before. */
  predicate Concluded(s: Setting, trace: seq<Event>, fate: Fate)
    requires Protocol(s, trace)
  {
    if trace == [] then fate == Running && s.script == []
    else
      var e := trace[|trace| - 1];
      match fate
      case Returned => Ends(e)
      case Escaped => Breaks(s, e)
      case Running => !Breaks(s, e) && Repeats(e) && e.round + 1 == |s.script|
  }

  /** The loop returned, was left by an exception, or goes on, as its last event alone decides. */
  lemma FateIff(s: Setting, trace: seq<Event>, fate: Fate)
    requires Protocol(s, trace) && trace != [] && Concluded(s, trace, fate)
    ensures var e := trace[|trace| - 1]; var r := s.script[e.round];
      && (fate.Returned? <==> (e.step.StopChecked? && e.step.seen) || (e.step.Waited? && e.step.wait == Arrives))
      && (fate.Escaped? <==>
            || (e.step.Slept? && r.sleepCancelled) || (e.step.Connected? && e.step.link == Interrupted)
            || (e.step.Waited? && e.step.wait == Stopped) || (e.step.PartialDisconnected? && r.disconnectRaises))
  {
    assert Truthful(s, trace[|trace| - 1]);
  }

  /** What was seen is what the environment showed, and a pass follows the one before it after a failed connection or a disconnect. */
  lemma SeenIs(s: Setting, trace: seq<Event>, k: nat)
    requires Protocol(s, trace) && k < |trace|
    ensures var e := trace[k]; e.round < |s.script| && var r := s.script[e.round];
      && (e.step.StopChecked? && e.step.before ==> e.step.seen == r.stopBefore)
      && (e.step.StopChecked? && !e.step.before ==> e.step.seen == r.stopAfter)
      && (e.step.StartChecked? ==> e.step.seen == r.started) && (e.step.Connected? ==> e.step.link == r.link)
    ensures k == 0 ==> trace[0].round == 0 && trace[0].step.StopChecked? && trace[0].step.before
    ensures k > 0 ==> var d := trace[k - 1];
      trace[k].round == d.round + if d.step.PartialDisconnected? || d.step == Connected(Refused) || d.step == Connected(Link.Raised) then 1 else 0
  {
    assert Truthful(s, trace[k]) && (k > 0 ==> Linked(s, trace, k));
  }

  /** The event is set last before the wait by whoever touched it while the loop was suspended, or was set when it last was cleared. */
  predicate Standing(s: Setting, n: nat, raced: bool)
    requires n < |s.script|
  {
    var r := s.script[n];
    if !raced then r.whileConnecting == Raise
    else
      || r.whileAsleep == Raise
      || (r.whileAsleep == Keep &&
           if n == 0 then s.ready
           else var q := s.script[n - 1]; (if q.started || q.link == Accepted then q.whileDisconnecting else q.whileConnecting) == Raise)
  }

  /** A wait succeeds exactly when readiness stands already or comes in time. */
  lemma WaitIff(s: Setting, e: Event)
    requires Truthful(s, e) && e.step.Waited?
    ensures e.step.wait == Arrives <==> Standing(s, e.round, e.step.raced) || s.script[e.round].wait == Arrives
    ensures e.step.wait != Arrives ==> e.step.wait == s.script[e.round].wait
  {
  }

  lemma PrefixKeepsProtocol(s: Setting, trace: seq<Event>, n: nat)
    requires Protocol(s, trace) && n <= |trace|
    ensures Protocol(s, trace[..n])
  {
    forall k | 0 < k < n ensures Linked(s, trace[..n], k) {
      assert Linked(s, trace, k);
    }
  }

  /** The protocol leaves nothing open: an environment has one trace only. */
  lemma {:induction false} TraceUnique(s: Setting, a: seq<Event>, b: seq<Event>)
    requires Protocol(s, a) && Protocol(s, b) && |a| <= |b|
    ensures a == b[..|a|]
  {
    if a != [] {
      var n := |a| - 1;
      PrefixKeepsProtocol(s, a, n);
      TraceUnique(s, a[..n], b);
      if n > 0 {
        assert a[n - 1] == a[..n][n - 1] == b[..n][n - 1];
        assert Linked(s, a, n) && Linked(s, b, n);
      }
      assert a[n] == b[n];
      assert a == a[..n] + [a[n]] && b[..n + 1] == b[..n] + [b[n]];
    }
  }

  /** A finished trace cannot be continued, so its end and its fate are settled too. */
  lemma FateUnique(s: Setting, a: seq<Event>, f: Fate, b: seq<Event>, g: Fate)
    requires Protocol(s, a) && Protocol(s, b) && Concluded(s, a, f) && Concluded(s, b, g)
    ensures a == b && f == g
  {
    if |a| <= |b| { ConcludedIsLongest(s, a, f, b); } else { ConcludedIsLongest(s, b, g, a); }
  }

  /** An event with a successor neither ends the loop nor breaks it, and a repeat has a pass to come. */
  lemma InnerEventGoesOn(s: Setting, trace: seq<Event>, k: nat)
    requires Protocol(s, trace) && 0 < k < |trace|
    ensures !Ends(trace[k - 1]) && !Breaks(s, trace[k - 1])
    ensures Repeats(trace[k - 1]) ==> trace[k - 1].round + 1 < |s.script|
  {
    assert Linked(s, trace, k) && Truthful(s, trace[k]);
  }

  lemma TraceNeedsRounds(s: Setting, trace: seq<Event>)
    requires Protocol(s, trace) && trace != []
    ensures s.script != []
  {
    assert Truthful(s, trace[0]);
  }

  lemma ConcludedIsLongest(s: Setting, a: seq<Event>, f: Fate, b: seq<Event>)
    requires Protocol(s, a) && Protocol(s, b) && Concluded(s, a, f) && |a| <= |b|
    ensures a == b
  {
    TraceUnique(s, a, b);
    var n := |a|;
    if n > 0 {
      assert b[..n][n - 1] == a[n - 1];
      if n < |b| {
        InnerEventGoesOn(s, b, n);
      }
    } else if b != [] {
      TraceNeedsRounds(s, b);
    }
  }

  /** The loop returns only after seeing a shutdown, or readiness that the clearing in the same pass does not predate. */
  lemma ReturnIsEarned(s: Setting, trace: seq<Event>)
    requires Protocol(s, trace) && trace != [] && Concluded(s, trace, Returned)
    ensures var e := trace[|trace| - 1]; var r := s.script[e.round];
      || (e.step.StopChecked? && (r.stopBefore || r.stopAfter))
      || (e.step.Waited? && !e.step.raced && !r.started && r.link == Accepted && (r.whileConnecting == Raise || r.wait == Arrives))
      || (e.step.Waited? && e.step.raced && r.started && (Touched(Flag(s.script, s.ready, e.round), r.whileAsleep) || r.wait == Arrives))
  {
    var n := |trace| - 1;
    var e := trace[n];
    if e.step.Waited? {
      assert Linked(s, trace, n) && Truthful(s, trace[n - 1]);
      if !e.step.raced {
        assert Linked(s, trace, n - 1) && Linked(s, trace, n - 2) && Truthful(s, trace[n - 3]);
      }
    }
  }

  /** A connection is opened only right after the delay, with no shutdown and no started session seen, and readiness cleared. */
  lemma ConnectIsGuarded(s: Setting, trace: seq<Event>, k: nat)
    requires Protocol(s, trace) && k < |trace| && trace[k].step.Connected?
    ensures 5 <= k && forall i :: k - 5 <= i <= k ==> trace[i].round == trace[k].round
    ensures trace[k - 5].step == StopChecked(true, false) && trace[k - 4].step == Slept(Delay(s.initialDelay, s.maxDelay, trace[k].round))
    ensures trace[k - 3].step == StopChecked(false, false) && trace[k - 2].step == StartChecked(false) && trace[k - 1].step == Cleared
    ensures var r := s.script[trace[k].round]; !r.stopBefore && !r.stopAfter && !r.started
  {
    assert Linked(s, trace, k);
    assert Linked(s, trace, k - 1);
    assert Linked(s, trace, k - 2);
    assert Linked(s, trace, k - 3);
    assert Linked(s, trace, k - 4);
    assert Truthful(s, trace[k - 3]) && Truthful(s, trace[k - 2]) && Truthful(s, trace[k - 5]) && Truthful(s, trace[k - 4]);
  }

  function Disconnects(trace: seq<Event>): nat {
    if trace == [] then 0 else Disconnects(trace[..|trace| - 1]) + if trace[|trace| - 1].step.PartialDisconnected? then 1 else 0
  }

  /** Attempts of a session that did not become ready in time: opened here, or already under way after the delay. */
  function Expired(trace: seq<Event>): nat {
    if trace == [] then 0
    else Expired(trace[..|trace| - 1]) + if trace[|trace| - 1].step.Waited? && trace[|trace| - 1].step.wait == TimesOut then 1 else 0
  }

  /** At every moment each expired attempt has had its one disconnect, but for one whose turn is next. */
  lemma {:induction false} DisconnectsMatch(s: Setting, trace: seq<Event>)
    requires Protocol(s, trace)
    ensures Expired(trace) == Disconnects(trace) + if trace != [] && trace[|trace| - 1].step.Waited? && trace[|trace| - 1].step.wait == TimesOut then 1 else 0
  {
    if trace != [] {
      var n := |trace| - 1;
      PrefixKeepsProtocol(s, trace, n);
      DisconnectsMatch(s, trace[..n]);
      if n > 0 {
        assert Linked(s, trace, n);
      }
    }
  }

  /** An attempt that expires is disconnected at once, and the next delay comes only after that one disconnect. */
  lemma ExpiredIsDisconnectedOnce(s: Setting, trace: seq<Event>, k: nat, j: nat)
    requires Protocol(s, trace) && k < j < |trace|
    requires trace[k].step.Waited? && trace[k].step.wait == TimesOut
    requires trace[j].step.Slept? && forall i :: k < i < j ==> !trace[i].step.Slept?
    ensures j == k + 3 && trace[k + 1].step == PartialDisconnected(trace[k].step.raced)
    ensures trace[k + 2].step == StopChecked(true, false) && trace[j].round == trace[k].round + 1
    ensures forall i :: k < i < j && trace[i].step.PartialDisconnected? ==> i == k + 1
  {
    assert Linked(s, trace, k + 1);
    assert Linked(s, trace, k + 2);
    assert Linked(s, trace, k + 3);
  }

  /** An accepted connection is always waited for. */
  lemma AcceptedIsAwaited(s: Setting, trace: seq<Event>, fate: Fate, k: nat)
    requires Protocol(s, trace) && Concluded(s, trace, fate) && k < |trace| && trace[k].step == Connected(Accepted)
    ensures k + 1 < |trace| && trace[k + 1].step.Waited? && !trace[k + 1].step.raced
    ensures trace[k + 1].step.wait == TimesOut ==> k + 2 < |trace| && trace[k + 2].step == PartialDisconnected(false)
  {
    assert k + 1 < |trace| ==> Linked(s, trace, k + 1);
    assert k + 2 < |trace| ==> Linked(s, trace, k + 2);
  }

  lemma Extend(s: Setting, trace: seq<Event>, e: Event)
    requires Protocol(s, trace) && Truthful(s, e)
    requires if trace == [] then e.round == 0 && e.step.StopChecked? && e.step.before
             else Follows(trace[|trace| - 1], e) && !Breaks(s, trace[|trace| - 1])
    ensures Protocol(s, trace + [e])
  {
    var longer := trace + [e];
    forall k | 0 < k < |longer| ensures Linked(s, longer, k) {
      if k < |trace| { assert Linked(s, trace, k); }
    }
  }

  /** At the top of a pass: the loop has just begun, or the last pass asked for another. */
  predicate AtTop(s: Setting, trace: seq<Event>, n: nat) {
    Protocol(s, trace) &&
    if trace == [] then n == 0 else n == trace[|trace| - 1].round + 1 && Repeats(trace[|trace| - 1]) && !Breaks(s, trace[|trace| - 1])
  }

  /** One pass up to the check for a started session; None goes on. */
  method Approach(s: Setting, trace: seq<Event>, n: nat, delay: real, flag: bool)
    returns (longer: seq<Event>, fate: Option<Fate>, isReady: bool)
    requires n < |s.script| && AtTop(s, trace, n) && delay == Delay(s.initialDelay, s.maxDelay, n)
    ensures Protocol(s, longer) && longer != []
    ensures fate.Some? ==> Concluded(s, longer, fate.value)
    ensures fate.None? ==> longer[|longer| - 1] == Event(n, StartChecked(s.script[n].started)) && isReady == Touched(flag, s.script[n].whileAsleep)
  {
    var r := s.script[n];
    longer, isReady := trace + [Event(n, StopChecked(true, r.stopBefore))], flag;
    Extend(s, trace, Event(n, StopChecked(true, r.stopBefore)));
    if r.stopBefore {
      return longer, Some(Returned), isReady;
    }
    Extend(s, longer, Event(n, Slept(delay)));
    longer := longer + [Event(n, Slept(delay))];
    if r.sleepCancelled {
      return longer, Some(Escaped), isReady;
    }
    isReady := Touched(flag, r.whileAsleep);
    Extend(s, longer, Event(n, StopChecked(false, r.stopAfter)));
    longer := longer + [Event(n, StopChecked(false, r.stopAfter))];
    if r.stopAfter {
      return longer, Some(Returned), isReady;
    }
    Extend(s, longer, Event(n, StartChecked(r.started)));
    longer := longer + [Event(n, StartChecked(r.started))];
    fate := None;
  }

  /** Wait for readiness, and disconnect a session that does not reach it. */
  method Await(s: Setting, trace: seq<Event>, n: nat, raced: bool, flag: bool)
    returns (longer: seq<Event>, fate: Option<Fate>)
    requires Protocol(s, trace) && trace != [] && n < |s.script| && trace[|trace| - 1] == Event(n, if raced then StartChecked(true) else Connected(Accepted))
    requires flag == if raced then Touched(Flag(s.script, s.ready, n), s.script[n].whileAsleep) else Touched(false, s.script[n].whileConnecting)
    ensures Protocol(s, longer) && longer != []
    ensures fate.Some? ==> Concluded(s, longer, fate.value)
    ensures fate.None? ==> longer[|longer| - 1] == Event(n, PartialDisconnected(raced)) && !s.script[n].disconnectRaises
  {
    var r := s.script[n];
    var w := WaitResult(flag, r.wait);
    Extend(s, trace, Event(n, Waited(raced, w)));
    longer := trace + [Event(n, Waited(raced, w))];
    if w == Arrives {
      return longer, Some(Returned);
    }
    if w == Stopped {
      return longer, Some(Escaped);
    }
    Extend(s, longer, Event(n, PartialDisconnected(raced)));
    longer := longer + [Event(n, PartialDisconnected(raced))];
    fate := if r.disconnectRaises then Some(Escaped) else None;
  }

  /** Clear readiness, open a connection and wait for the session it starts. */
  method Open(s: Setting, trace: seq<Event>, n: nat) returns (longer: seq<Event>, fate: Option<Fate>)
    requires Protocol(s, trace) && trace != [] && n < |s.script| && trace[|trace| - 1] == Event(n, StartChecked(false)) && !s.script[n].started
    ensures Protocol(s, longer) && longer != []
    ensures fate.Some? ==> Concluded(s, longer, fate.value)
    ensures fate.None? ==> AtTop(s, longer, n + 1)
  {
    var r := s.script[n];
    Extend(s, trace, Event(n, Cleared));
    longer := trace + [Event(n, Cleared)];
    Extend(s, longer, Event(n, Connected(r.link)));
    longer := longer + [Event(n, Connected(r.link))];
    match r.link
    case Interrupted => fate := Some(Escaped);
    case Accepted => longer, fate := Await(s, longer, n, false, Touched(false, r.whileConnecting));
    case _ => fate := None;
  }

  /**
   * The loop, against an environment known for as many passes as the script is long. `Running` means
   * that the script ran out, not that the loop did.
   */
  method RunReconnectLoop(s: Setting) returns (trace: seq<Event>, fate: Fate)
    ensures Protocol(s, trace) && Concluded(s, trace, fate)
  {
    var delay := First(s.initialDelay);
    var maximum := Ceiling(s.initialDelay, s.maxDelay);
    var n, flag := 0, s.ready;
    trace := [];
    while n < |s.script|
      invariant n <= |s.script| && AtTop(s, trace, n)
      invariant delay == Delay(s.initialDelay, s.maxDelay, n) && maximum == Ceiling(s.initialDelay, s.maxDelay)
      invariant flag == Flag(s.script, s.ready, n)
    {
      var ended: Option<Fate>;
      trace, ended, flag := Approach(s, trace, n, delay, flag);
      if ended.None? {
        if s.script[n].started {
          trace, ended := Await(s, trace, n, true, flag);
        } else {
          trace, ended := Open(s, trace, n);
        }
      }
      if ended.Some? {
        return trace, ended.value;
      }
      flag := FlagAfter(s.script[n]);
      DelayStep(s.initialDelay, s.maxDelay, n);
      delay := NextDelay(delay, maximum);
      n := n + 1;
    }
    fate := Running;
  }
}
