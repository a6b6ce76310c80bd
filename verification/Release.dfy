/** Release state: normalized versions, the pending announcement, and its storage. */
module Release {
  import opened Wrappers
  import Text
  import Versions

  // ----- Normalization -----

  predicate LeadingV(s: string) {
    s != "" && (s[0] == 'v' || s[0] == 'V')
  }

  /** `normalize_version`: blanks around the text and one leading v are dropped. */
  function NormalizeVersion(version: string): string {
    var value := Text.Strip(version);
    if LeadingV(value) then value[1..] else value
  }

  /** `_known_version`: None for an empty or unknown version. */
  function Known(value: Option<string>): Option<string> {
    var normalized := Text.Strip(NormalizeVersion(value.GetOr("")));
    if normalized == "" || Text.Lower(normalized) == "unknown" then None else Some(normalized)
  }

  predicate Usable(s: string) {
    s != "" && Text.Stripped(s) && Text.Lower(s) != "unknown"
  }

  /** A version that normalization leaves alone. */
  predicate Settled(value: Option<string>) {
    value.Some? ==> Usable(value.value) && !LeadingV(value.value)
  }

  lemma {:induction false} StripShortens(s: string)
    ensures |Text.Strip(s)| <= |s|
  {
    Text.StripLeftShape(s);
    Text.StripRightShape(Text.StripLeft(s));
  }

  /** A known version is usable; it is left alone by normalization exactly when it has no leading v. */
  lemma {:induction false} KnownFacts(value: Option<string>)
    ensures Known(value).Some? ==> Usable(Known(value).value)
    ensures Known(value) == value <==> Settled(value)
    ensures value.Some? && LeadingV(value.value) && Usable(value.value) ==> Known(value) != value
    ensures Known(Known(value)) == Known(value) <==> (Known(value).Some? ==> !LeadingV(Known(value).value))
  {
    KnownShape(value);
    KnownShape(Known(value));
    assert Text.Strip("") == "";
  }

  lemma {:induction false} KnownShape(value: Option<string>)
    ensures Known(value).Some? ==> Usable(Known(value).value)
    ensures value.None? ==> Known(value).None?
    ensures Settled(value) ==> Known(value) == value
    ensures value.Some? && LeadingV(value.value) && Known(value).Some? ==> |Known(value).value| < |value.value|
  {
    var text := value.GetOr("");
    var n := NormalizeVersion(text);
    Text.StripIsStripped(text);
    Text.StripIsStripped(n);
    StripShortens(n);
    StripShortens(text);
    if LeadingV(text) {
      LeadingVStays(text);
    }
  }

  lemma {:induction false} LeadingVStays(s: string)
    requires LeadingV(s)
    ensures LeadingV(Text.Strip(s))
  {
    assert Text.StripLeft(s) == s;
    RightKeepsHead(s);
  }

  lemma {:induction false} RightKeepsHead(s: string)
    requires s != "" && !Text.IsSpace(s[0])
    ensures Text.StripRight(s) != "" && Text.StripRight(s)[0] == s[0]
  {
    if Text.IsSpace(s[|s| - 1]) {
      RightKeepsHead(s[..|s| - 1]);
    }
  }

  // ----- Transitions -----

  datatype Direction = Upgrade | Downgrade | Same | Unknown

  datatype Transition = Transition(previous: Option<string>, current: Option<string>, direction: Direction)

  /** `version_transition`, given how version texts read. */
  function VersionTransition(previous: Option<string>, current: Option<string>, reading: string -> Versions.Reading): Transition {
    var p, c := Known(previous), Known(current);
    if p.None? || c.None? then Transition(p, c, Unknown)
    else
      var comparison := Versions.CompareVersions(reading(c.value), reading(p.value));
      Transition(p, c, if comparison > 0 then Upgrade else if comparison < 0 then Downgrade else Same)
  }

  function Reversed(d: Direction): Direction {
    match d
    case Upgrade => Downgrade
    case Downgrade => Upgrade
    case _ => d
  }

  /** Going back reverses the direction, and an unchanged version is neither an upgrade nor a downgrade. */
  lemma DirectionReverses(a: Option<string>, b: Option<string>, reading: string -> Versions.Reading)
    ensures VersionTransition(b, a, reading).direction == Reversed(VersionTransition(a, b, reading).direction)
    ensures Known(a).Some? && Known(a) == Known(b) ==> VersionTransition(a, b, reading).direction == Same
    ensures Known(a).None? || Known(b).None? <==> VersionTransition(a, b, reading).direction == Unknown
    ensures VersionTransition(a, b, reading).previous == Known(a) && VersionTransition(a, b, reading).current == Known(b)
  {
    if Known(a).Some? && Known(b).Some? {
      Versions.Antisymmetric(reading(Known(a).value), reading(Known(b).value));
    }
  }

  /** What is known of a version: its text without white space and one leading v, unless nothing or "unknown" is left. */
  lemma KnownIs(text: string, a: string, core: string, b: string, bare: string, c: string, rest: string, d: string)
    requires Text.SplitAs(text, a, core, b) && Text.SplitAs(bare, c, rest, d)
    requires bare == if core != "" && (core[0] == 'v' || core[0] == 'V') then core[1..] else core
    ensures Known(Some(text)) == if rest == "" || Text.Lower(rest) == "unknown" then None else Some(rest)
  {
    StripOf(text, a, core, b);
    StripOf(bare, c, rest, d);
    assert NormalizeVersion(text) == bare;
  }

  lemma StripOf(s: string, a: string, r: string, b: string)
    requires Text.SplitAs(s, a, r, b)
    ensures Text.Strip(s) == r
  {
    Text.StripIff(s, r);
  }

  /** An upgrade goes from a lower version to a higher one: by key when both have one, and else by their numbers. */
  lemma UpgradeIff(previous: Option<string>, current: Option<string>, reading: string -> Versions.Reading)
    requires Known(previous).Some? && Known(current).Some?
    requires Versions.Readable(reading(Known(previous).value)) && Versions.Readable(reading(Known(current).value))
    ensures var t := VersionTransition(previous, current, reading);
      var p, c := reading(t.previous.value), reading(t.current.value);
      && t.previous == Known(previous) && t.current == Known(current)
      && (p.Keyed? && c.Keyed? ==> (t.direction == Upgrade <==> Versions.Earlier(p, c)) && (t.direction == Downgrade <==> Versions.Earlier(c, p)))
      && (p.Unkeyed? || c.Unkeyed? ==>
            var x, y := Versions.Numbers(p), Versions.Numbers(c);
            && (t.direction == Upgrade <==> (x == [] && y != []) || Versions.PaddedLess(x, y))
            && (t.direction == Downgrade <==> (y == [] && x != []) || Versions.PaddedLess(y, x)))
  {
    var p, c := reading(Known(previous).value), reading(Known(current).value);
    Versions.BelowIff(p, c);
    Versions.BelowIff(c, p);
    Versions.Antisymmetric(p, c);
  }

  /** Two upgrades of keyed versions make an upgrade. */
  lemma UpgradesChain(a: string, b: string, c: string, reading: string -> Versions.Reading)
    requires Settled(Some(a)) && Settled(Some(b)) && Settled(Some(c))
    requires reading(a).Keyed? && reading(b).Keyed? && reading(c).Keyed?
    requires VersionTransition(Some(a), Some(b), reading).direction == Upgrade
    requires VersionTransition(Some(b), Some(c), reading).direction == Upgrade
    ensures VersionTransition(Some(a), Some(c), reading).direction == Upgrade
  {
    KnownFacts(Some(a));
    KnownFacts(Some(b));
    KnownFacts(Some(c));
    var x, y, z := reading(a), reading(b), reading(c);
    Versions.Antisymmetric(x, y);
    Versions.Antisymmetric(y, z);
    Versions.Antisymmetric(x, z);
    Versions.UniformTransitive(x, y, z);
  }

  /** `VersionTransition.changed`. */
  predicate Changed(t: Transition) {
    t.direction == Upgrade || t.direction == Downgrade
  }

  /** What its documentation says: both versions are known and differ. */
  predicate Differs(t: Transition) {
    t.previous.Some? && t.current.Some? && t.previous != t.current
  }

  /** Versions count as changed exactly when they are known and their texts do not read the same. */
  lemma ChangedIff(previous: Option<string>, current: Option<string>, reading: string -> Versions.Reading)
    requires forall v :: Versions.Readable(reading(v))
    ensures var t := VersionTransition(previous, current, reading);
      && (Changed(t) <==> t.previous.Some? && t.current.Some? && !Versions.SameOrder(reading(t.current.value), reading(t.previous.value)))
      && (Changed(t) ==> Differs(t))
  {
    var t := VersionTransition(previous, current, reading);
    if t.previous.Some? && t.current.Some? {
      Versions.EqualIff(reading(t.current.value), reading(t.previous.value));
      Versions.Antisymmetric(reading(t.current.value), reading(t.previous.value));
    }
  }

  /** The documentation fails exactly for two different texts that read the same. */
  lemma ChangedDocumentedIff(previous: Option<string>, current: Option<string>, reading: string -> Versions.Reading)
    requires forall v :: Versions.Readable(reading(v))
    ensures var t := VersionTransition(previous, current, reading);
      (Changed(t) <==> Differs(t)) <==> !(Differs(t) && Versions.SameOrder(reading(t.current.value), reading(t.previous.value)))
  {
    ChangedIff(previous, current, reading);
  }

  lemma DigitsAreKnown(version: string)
    requires version != "" && version[0] == '1' && version[|version| - 1] == '0'
    ensures Known(Some(version)) == Some(version)
  {
    KnownFacts(Some(version));
    assert Text.Lower(version)[0] != "unknown"[0];
  }

  /** "1.0" and "1.0.0" differ and are no change, while merging them still announces one. */
  lemma TrailingZeroIsNoChange(reading: string -> Versions.Reading)
    requires reading("1.0") == Versions.Keyed([1, 0], None, []) && reading("1.0.0") == Versions.Keyed([1, 0, 0], None, [])
    ensures var t := VersionTransition(Some("1.0"), Some("1.0.0"), reading);
      t.direction == Same && Differs(t) && !Changed(t)
    ensures Merge(Some("1.0"), Some("1.0.0"), None) == Some(Announcement("1.0", "1.0.0"))
  {
    DigitsAreKnown("1.0");
    DigitsAreKnown("1.0.0");
    Versions.TrailingZeros(reading("1.0"), [0], reading("1.0"));
    assert [1, 0] + [0] == [1, 0, 0];
  }

  datatype Announcement = Announcement(from: string, to: string)

  /** A stored announcement as the caller supplies it. */
  datatype Pending = Pending(from: Option<string>, to: Option<string>)

  function Extended(pending: Option<Pending>, previous: string): Option<Announcement> {
    if pending.None? then None
    else
      var from, to := Known(pending.value.from), Known(pending.value.to);
      if from.Some? && to == Some(previous) && from != to then Some(Announcement(from.value, previous)) else None
  }

  /** `merge_pending_version_transition`. */
  function Merge(previous: Option<string>, current: Option<string>, pending: Option<Pending>): Option<Announcement> {
    var p, c := Known(previous), Known(current);
    if p.None? || c.None? then None
    else
      var existing := Extended(pending, p.value);
      if p == c then existing
      else
        var start := if existing.Some? then existing.value.from else p.value;
        if start == c.value then None else Some(Announcement(start, c.value))
  }

  /** An announcement that ends at the previous version is extended; any other, or none, gives way to the change itself. */
  lemma MergeIs(previous: string, current: string, pending: Option<Pending>)
    requires Settled(Some(previous)) && Settled(Some(current))
    ensures var start := if pending.Some? && Known(pending.value.from).Some? && Known(pending.value.to) == Some(previous) then Known(pending.value.from).value else previous;
      Merge(Some(previous), Some(current), pending) == if start == current then None else Some(Announcement(start, current))
    ensures Merge(None, Some(current), pending) == None && Merge(Some(previous), None, pending) == None
  {
    KnownFacts(Some(previous));
    KnownFacts(Some(current));
    assert Known(None) == None by { assert Text.Strip("") == ""; }
  }

  // ----- The stored state -----

  /** A row of the table, or the arguments of a release state. */
  datatype Row = Row(version: Option<string>, from: Option<string>, to: Option<string>)

  /** A release state, as its constructor leaves it. */
  type State = s: Row | Proper(s) witness Row(None, None, None)

  predicate Proper(s: Row) {
    && (s.version.Some? ==> Usable(s.version.value))
    && (s.from.Some? <==> s.to.Some?)
    && (s.from.Some? ==> Usable(s.from.value) && Usable(s.to.value) && s.from != s.to)
  }

  /** `ReleaseState.__post_init__`. */
  function Make(raw: Row): (s: State)
    ensures raw.version.None? ==> s.version.None?
  {
    var version, from, to := Known(raw.version), Known(raw.from), Known(raw.to);
    KnownShape(raw.version);
    KnownShape(raw.from);
    KnownShape(raw.to);
    if from == to || from.None? != to.None? then Row(version, None, None) else Row(version, from, to)
  }

  const Empty: State := Row(None, None, None)

  function PendingOf(s: State): Option<Announcement> {
    if s.from.Some? && s.to.Some? then Some(Announcement(s.from.value, s.to.value)) else None
  }

  function AsPending(a: Option<Announcement>): Option<Pending> {
    if a.Some? then Some(Pending(Some(a.value.from), Some(a.value.to))) else None
  }

  function Loaded(row: Option<Row>): State {
    if row.Some? then Make(row.value) else Empty
  }

  predicate AllSettled(s: Row) {
    Settled(s.version) && Settled(s.from) && Settled(s.to)
  }

  /** A state survives storing and loading exactly when no stored version still has a leading v. */
  lemma RoundTripIff(s: State)
    ensures Loaded(Some(s)) == s <==> AllSettled(s)
    ensures AllSettled(s) <==> !(s.version.Some? && LeadingV(s.version.value)) && !(s.from.Some? && (LeadingV(s.from.value) || LeadingV(s.to.value)))
  {
    KnownFacts(s.version);
    KnownFacts(s.from);
    KnownFacts(s.to);
  }

  /** Normalization is not idempotent: "vv1" is stored as "v1" and loaded as "1". */
  lemma DoubledPrefixIsLost()
    ensures Make(Row(Some("vv1"), None, None)) == Row(Some("v1"), None, None)
    ensures Loaded(Some(Make(Row(Some("vv1"), None, None)))) == Row(Some("1"), None, None)
  {
    assert Text.Strip("vv1") == "vv1" && Text.Strip("v1") == "v1" && Text.Strip("1") == "1";
    assert |Text.Lower("v1")| != |"unknown"| && |Text.Lower("1")| != |"unknown"|;
    assert NormalizeVersion("vv1") == "v1" && NormalizeVersion("v1") == "1" && NormalizeVersion("") == "" by { assert Text.Strip("") == ""; }
    assert Known(Some("vv1")) == Some("v1") && Known(Some("v1")) == Some("1") && Known(None) == None;
  }

  /** The serialized form: a version and an announcement, each possibly absent. */
  datatype Mapping = Mapping(version: Option<string>, pending: Option<Pending>)

  function AsMapping(s: State): Mapping {
    Mapping(s.version, AsPending(PendingOf(s)))
  }

  function FromMapping(value: Option<Mapping>): State {
    if value.None? then Empty
    else
      var p := value.value.pending;
      var from, to := if p.Some? then p.value.from else None, if p.Some? then p.value.to else None;
      Make(Row(Known(value.value.version), Known(from), Known(to)))
  }

  /** Serialization keeps a state under the same condition as storage does. */
  lemma MappingRoundTripIff(s: State)
    ensures FromMapping(Some(AsMapping(s))) == s <==> AllSettled(s)
  {
    ShortensTwice(s.version);
    ShortensTwice(s.from);
    ShortensTwice(s.to);
  }

  lemma ShortensTwice(value: Option<string>)
    requires value.Some? ==> Usable(value.value)
    ensures Known(Known(value)) == value <==> Settled(value)
  {
    KnownFacts(value);
    KnownFacts(Known(value));
    KnownShape(value);
    KnownShape(Known(value));
    if value.Some? && LeadingV(value.value) && Known(value).Some? {
      KnownLength(Known(value).value);
    }
  }

  lemma KnownLength(s: string)
    ensures Known(Some(s)).Some? ==> |Known(Some(s)).value| <= |s|
  {
    StripShortens(s);
    StripShortens(NormalizeVersion(s));
  }

  // ----- Announcements over whole histories -----

  /** A successful start of a version, or an acknowledged announcement. */
  datatype Op = Start(version: string) | Clear(previous: string, current: string)

  function Started(row: Option<Row>, version: string): Row {
    var s := Loaded(row);
    var merged := Merge(s.version, Some(version), AsPending(PendingOf(s)));
    var p := AsPending(merged);
    Make(Row(Some(version), if p.Some? then p.value.from else None, if p.Some? then p.value.to else None))
  }

  /** The row matches an announcement, as the guarded update tests it. */
  predicate Matches(row: Option<Row>, previous: string, current: string) {
    var p, c := Known(Some(previous)), Known(Some(current));
    p.Some? && c.Some? && row.Some? && row.value.from == p && row.value.to == c
  }

  function Cleared(row: Option<Row>, previous: string, current: string): Option<Row> {
    if Matches(row, previous, current) then Some(row.value.(from := None, to := None)) else row
  }

  function After(row: Option<Row>, op: Op): Option<Row> {
    match op
    case Start(v) => Some(Started(row, v))
    case Clear(p, c) => Cleared(row, p, c)
  }

  function Run(ops: seq<Op>): Option<Row> {
    if ops == [] then None else After(Run(ops[..|ops| - 1]), ops[|ops| - 1])
  }

  /** The version of the last start. */
  function Current(ops: seq<Op>): Option<string> {
    if ops == [] then None
    else if ops[|ops| - 1].Start? then Known(Some(ops[|ops| - 1].version))
    else Current(ops[..|ops| - 1])
  }

  /** What the audience was last told: the first version, or the one current at the last acknowledgement of all that changed since. */
  function Baseline(ops: seq<Op>): Option<string>
    decreases |ops|, 0
  {
    if ops == [] then None
    else
      var before, op := ops[..|ops| - 1], ops[|ops| - 1];
      match op
      case Start(v) => if Baseline(before).None? then Known(Some(v)) else Baseline(before)
      case Clear(p, c) => if Outstanding(before, p, c) then Current(before) else Baseline(before)
  }

  /** The announcement from p to c is the one outstanding. */
  predicate Outstanding(ops: seq<Op>, p: string, c: string)
    decreases |ops|, 1
  {
    Known(Some(p)).Some? && Known(Some(c)).Some? && Baseline(ops) == Known(Some(p)) && Current(ops) == Known(Some(c)) && Baseline(ops) != Current(ops)
  }

  /** A start names a version that is known and settled once normalized. */
  predicate CleanStart(op: Op) {
    op.Start? ==> Known(Some(op.version)).Some? && !LeadingV(Known(Some(op.version)).value)
  }

  /** The row that a baseline and a current version call for. */
  function Telescoped(baseline: Option<string>, current: Option<string>): Row {
    if baseline == current then Row(current, None, None) else Row(current, baseline, current)
  }

  predicate Tells(row: Option<Row>, baseline: Option<string>, current: Option<string>) {
    && (baseline.Some? <==> current.Some?) && (row.Some? <==> current.Some?)
    && Settled(baseline) && Settled(current)
    && (row.Some? ==> row == Some(Telescoped(baseline, current)))
  }

  /** Merging into what a baseline and a current version call for, moves on from the same baseline. */
  lemma MergeMovesOn(baseline: string, current: string, version: string)
    requires Settled(Some(baseline)) && Settled(Some(current))
    ensures var v := Known(Some(version)); var told := Telescoped(Some(baseline), Some(current));
      v.Some? ==> Merge(Some(current), Some(version), AsPending(PendingOf(told))) == if v.value == baseline then None else Some(Announcement(baseline, v.value))
  {
    KnownFacts(Some(baseline));
    KnownFacts(Some(current));
  }

  /** The constructor keeps settled parts as they are. */
  lemma MakeKeeps(baseline: string, version: string)
    requires Settled(Some(baseline)) && CleanStart(Start(version))
    ensures var v := Known(Some(version));
      Make(Row(Some(version), if v == Some(baseline) then None else Some(baseline), if v == Some(baseline) then None else v)) == Telescoped(Some(baseline), v)
  {
    KnownFacts(Some(baseline));
    KnownFacts(Some(version));
    KnownFacts(Known(Some(version)));
    KnownFacts(None);
  }

  lemma StartTells(row: Option<Row>, baseline: Option<string>, current: Option<string>, version: string)
    requires Tells(row, baseline, current) && CleanStart(Start(version))
    ensures var v := Known(Some(version));
      Tells(Some(Started(row, version)), if baseline.None? then v else baseline, v)
  {
    var v := Known(Some(version));
    KnownFacts(Some(version));
    KnownFacts(v);
    KnownFacts(None);
    if row.Some? {
      LoadTold(row, baseline, current);
      MergeMovesOn(baseline.value, current.value, version);
      MakeKeeps(baseline.value, version);
    } else {
      MakeKeeps(v.value, version);
    }
  }

  /**
   * Announcements telescope: however starts and acknowledgements alternate, the stored announcement
   * leads from the baseline to the current version, and there is none when the two are the same.
   */
  lemma {:induction false} AnnouncementsTelescope(ops: seq<Op>)
    requires forall i :: 0 <= i < |ops| ==> CleanStart(ops[i])
    ensures Tells(Run(ops), Baseline(ops), Current(ops))
    ensures Loaded(Run(ops)) == Run(ops).GetOr(Empty)
  {
    if ops != [] {
      var before, op := ops[..|ops| - 1], ops[|ops| - 1];
      AnnouncementsTelescope(before);
      if op.Start? {
        StartTells(Run(before), Baseline(before), Current(before), op.version);
      } else {
        ClearTells(before, op.previous, op.current);
      }
    }
    LoadTold(Run(ops), Baseline(ops), Current(ops));
  }

  lemma ClearTells(ops: seq<Op>, p: string, c: string)
    requires Tells(Run(ops), Baseline(ops), Current(ops))
    ensures Matches(Run(ops), p, c) <==> Outstanding(ops, p, c)
    ensures Tells(Cleared(Run(ops), p, c), if Outstanding(ops, p, c) then Current(ops) else Baseline(ops), Current(ops))
  {
  }

  lemma LoadTold(row: Option<Row>, baseline: Option<string>, current: Option<string>)
    requires Tells(row, baseline, current)
    ensures Loaded(row) == row.GetOr(Empty)
  {
    if row.Some? {
      RoundTripIff(row.value);
    }
  }

  /** An acknowledgement of anything but the outstanding announcement changes nothing. */
  lemma OtherClearsAreIgnored(ops: seq<Op>, p: string, c: string)
    requires forall i :: 0 <= i < |ops| ==> CleanStart(ops[i])
    ensures Matches(Run(ops), p, c) <==> Outstanding(ops, p, c)
    ensures !Outstanding(ops, p, c) ==> Run(ops + [Clear(p, c)]) == Run(ops)
    ensures Outstanding(ops, p, c) ==> PendingOf(Loaded(Run(ops + [Clear(p, c)]))) == None && Loaded(Run(ops + [Clear(p, c)])).version == Current(ops)
  {
    AnnouncementsTelescope(ops);
    assert (ops + [Clear(p, c)])[..|ops|] == ops;
    if Outstanding(ops, p, c) {
      var row := Run(ops).value;
      KnownFacts(row.version);
      KnownFacts(None);
    }
  }

  lemma NextStartIff(baseline: string, current: string, version: string)
    requires Settled(Some(baseline)) && Settled(Some(current)) && Known(Some(version)).Some?
    ensures var v := Known(Some(version));
      var keeps := Started(Some(Telescoped(Some(baseline), Some(current))), version) == Telescoped(Some(baseline), v);
      keeps <==> v == Some(baseline) || CleanStart(Start(version))
  {
    LoadTold(Some(Telescoped(Some(baseline), Some(current))), Some(baseline), Some(current));
    MergeMovesOn(baseline, current, version);
    if CleanStart(Start(version)) {
      MakeKeeps(baseline, version);
    } else {
      KnownFacts(Some(version));
      KnownFacts(Known(Some(version)));
      KnownFacts(None);
    }
  }

  /** The condition is needed: after any clean history, the next start keeps the law exactly when it is clean or names the baseline. */
  lemma CleanStartIsNeeded(ops: seq<Op>, version: string)
    requires forall i :: 0 <= i < |ops| ==> CleanStart(ops[i])
    requires Current(ops).Some? && Known(Some(version)).Some?
    ensures var v := Known(Some(version));
      var keeps := Run(ops + [Start(version)]) == Some(Telescoped(Baseline(ops), v));
      keeps <==> v == Baseline(ops) || CleanStart(Start(version))
  {
    AnnouncementsTelescope(ops);
    assert (ops + [Start(version)])[..|ops|] == ops;
    NextStartIff(Baseline(ops).value, Current(ops).value, version);
  }

  // ----- The repository -----

  class ReleaseStateSqlRepository {
    var row: Option<Row>
    var available: bool

    constructor (available: bool)
      ensures row == None && this.available == available
    {
      row, this.available := None, available;
    }

    method Load() returns (s: State)
      ensures s == if available then Loaded(row) else Empty
    {
      if !available {
        return Empty;
      }
      s := if row.Some? then Make(row.value) else Empty;
    }

    /** Saving into an unavailable database raises. */
    method Save(s: State) returns (outcome: Result<(), string>)
      modifies this`row
      ensures outcome.Success? <==> available
      ensures row == if available then Some(s) else old(row)
      ensures available && AllSettled(s) ==> Loaded(row) == s
    {
      RoundTripIff(s);
      if !available {
        return Failure("release state database is unavailable");
      }
      row := Some(s);
      outcome := Success(());
    }

    method ClearPendingIfMatches(previous: string, current: string) returns (cleared: bool)
      modifies this`row
      ensures cleared <==> available && Matches(old(row), previous, current)
      ensures row == if available then Cleared(old(row), previous, current) else old(row)
      ensures !cleared ==> row == old(row)
      ensures cleared ==> old(row).Some? && row == Some(Row(old(row).value.version, None, None))
      ensures var p, c := Known(Some(previous)), Known(Some(current));
        cleared <==> available && p.Some? && c.Some? && old(row).Some? && old(row).value.from == p && old(row).value.to == c
    {
      if !available {
        return false;
      }
      var p, c := Known(Some(previous)), Known(Some(current));
      if p.None? || c.None? {
        return false;
      }
      if row.Some? && row.value.from == p && row.value.to == c {
        row := Some(row.value.(from := None, to := None));
        cleared := true;
      } else {
        cleared := false;
      }
    }
  }
}
