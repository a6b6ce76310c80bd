/** The order of release versions. */
module Versions {
  import opened Wrappers
  import Lexical
  import Text

  // ----- Trailing zeros -----

  function Trim(parts: seq<nat>): seq<nat> {
    if |parts| > 1 && parts[|parts| - 1] == 0 then Trim(parts[..|parts| - 1]) else parts
  }

  method TrimReleaseZeros(parts: seq<nat>) returns (normalized: seq<nat>)
    ensures normalized == Trim(parts)
    ensures normalized <= parts && forall i :: |normalized| <= i < |parts| ==> parts[i] == 0
    ensures |normalized| > 1 ==> normalized[|normalized| - 1] != 0
    ensures normalized == [] <==> parts == []
  {
    normalized := parts;
    while |normalized| > 1 && normalized[|normalized| - 1] == 0
      invariant Trim(normalized) == Trim(parts) && normalized <= parts
      invariant forall i :: |normalized| <= i < |parts| ==> parts[i] == 0
      invariant normalized == [] <==> parts == []
    {
      normalized := normalized[..|normalized| - 1];
    }
  }

  /** The component at a position, with zeros beyond the end. */
  function Component(parts: seq<nat>, i: nat): nat {
    if i < |parts| then parts[i] else 0
  }

  predicate SamePrefix(a: seq<nat>, b: seq<nat>, n: nat) {
    forall i :: 0 <= i < n ==> Component(a, i) == Component(b, i)
  }

  /** Numeric order of the two sequences padded with zeros: the first differing component decides. */
  ghost predicate PaddedLess(a: seq<nat>, b: seq<nat>) {
    exists n: nat :: Component(a, n) < Component(b, n) && SamePrefix(a, b, n)
  }

  ghost predicate PaddedEqual(a: seq<nat>, b: seq<nat>) {
    forall i: nat :: Component(a, i) == Component(b, i)
  }

  lemma {:induction false} TrimFacts(parts: seq<nat>)
    ensures PaddedEqual(Trim(parts), parts)
    ensures |Trim(parts)| > 1 ==> Trim(parts)[|Trim(parts)| - 1] != 0
    ensures Trim(parts) == [] <==> parts == []
  {
    if |parts| > 1 && parts[|parts| - 1] == 0 {
      TrimFacts(parts[..|parts| - 1]);
    }
  }

  /** A tuple is smaller exactly when it differs first downwards, or is a proper prefix. */
  lemma {:induction false} LessIff(a: seq<nat>, b: seq<nat>)
    ensures Lexical.Less(a, b) <==>
      exists n: nat :: n <= |a| && n < |b| && a[..n] == b[..n] && (n == |a| || a[n] < b[n])
  {
    if b != [] && a != [] {
      LessIff(a[1..], b[1..]);
      if Lexical.Less(a, b) {
        if a[0] == b[0] {
          var n: nat :| n <= |a| - 1 && n < |b| - 1 && a[1..][..n] == b[1..][..n] && (n == |a| - 1 || a[1..][n] < b[1..][n]);
          assert a[..n + 1] == [a[0]] + a[1..][..n] && b[..n + 1] == [b[0]] + b[1..][..n];
          assert a[..n + 1] == b[..n + 1];
        } else {
          assert a[..0] == b[..0];
        }
      }
      if n: nat :| n <= |a| && n < |b| && a[..n] == b[..n] && (n == |a| || a[n] < b[n]) {
        if n > 0 {
          assert a[0] == a[..n][0] == b[..n][0] == b[0];
          assert a[1..][..n - 1] == a[..n][1..] == b[..n][1..] == b[1..][..n - 1];
          assert n - 1 == |a[1..]| || a[1..][n - 1] < b[1..][n - 1];
        }
      }
    } else if b != [] {
      assert a[..0] == b[..0];
    }
  }

  predicate Trimmed(parts: seq<nat>) {
    parts != [] && (|parts| == 1 || parts[|parts| - 1] != 0)
  }

  /** On trimmed, non-empty tuples the tuple order is the padded order. */
  lemma TrimmedOrder(a: seq<nat>, b: seq<nat>)
    requires Trimmed(a) && Trimmed(b) && Lexical.Less(a, b)
    ensures PaddedLess(a, b)
  {
    LessIff(a, b);
    var n: nat :| n <= |a| && n < |b| && a[..n] == b[..n] && (n == |a| || a[n] < b[n]);
    forall i: nat | i < n ensures Component(a, i) == Component(b, i) {
      assert a[i] == a[..n][i] == b[..n][i] == b[i];
    }
    if n < |a| {
      assert Component(a, n) < Component(b, n);
    } else {
      FirstNonZero(a, b);
    }
  }

  /** A longer trimmed tuple has a non-zero component beyond the end of the shorter one. */
  lemma FirstNonZero(a: seq<nat>, b: seq<nat>)
    requires Trimmed(b) && |a| < |b| && |b| > 1 && SamePrefix(a, b, |a|)
    ensures PaddedLess(a, b)
  {
    var n := |a|;
    while b[n] == 0
      invariant |a| <= n < |b| && SamePrefix(a, b, n)
      decreases |b| - n
    {
      n := n + 1;
    }
    assert Component(a, n) < Component(b, n);
  }

  lemma PaddedExclusive(a: seq<nat>, b: seq<nat>)
    requires PaddedLess(a, b)
    ensures !PaddedLess(b, a) && !PaddedEqual(a, b)
  {
    var n: nat :| Component(a, n) < Component(b, n) && SamePrefix(a, b, n);
    forall m: nat ensures !(Component(b, m) < Component(a, m) && SamePrefix(b, a, m)) {
      assert m < n ==> Component(a, m) == Component(b, m);
    }
  }

  lemma PaddedRespectsEqual(a: seq<nat>, b: seq<nat>, c: seq<nat>, d: seq<nat>)
    requires PaddedEqual(a, c) && PaddedEqual(b, d)
    ensures PaddedLess(a, b) <==> PaddedLess(c, d)
    ensures PaddedEqual(a, b) <==> PaddedEqual(c, d)
  {
    if PaddedLess(a, b) {
      var n: nat :| Component(a, n) < Component(b, n) && SamePrefix(a, b, n);
      assert Component(c, n) < Component(d, n) && SamePrefix(c, d, n);
    }
    if PaddedLess(c, d) {
      var n: nat :| Component(c, n) < Component(d, n) && SamePrefix(c, d, n);
      assert Component(a, n) < Component(b, n) && SamePrefix(a, b, n);
    }
    assert forall i: nat :: Component(a, i) == Component(c, i) && Component(b, i) == Component(d, i);
  }

  /** Comparing trimmed releases is comparing them padded with zeros, whatever their lengths. */
  lemma PaddedIff(a: seq<nat>, b: seq<nat>)
    requires a != [] && b != []
    ensures Lexical.Less(Trim(a), Trim(b)) <==> PaddedLess(a, b)
    ensures Trim(a) == Trim(b) <==> PaddedEqual(a, b)
  {
    var x, y := Trim(a), Trim(b);
    TrimFacts(a);
    TrimFacts(b);
    PaddedRespectsEqual(x, y, a, b);
    Lexical.LessTotal(x, y);
    if Lexical.Less(x, y) {
      TrimmedOrder(x, y);
      PaddedExclusive(x, y);
      Lexical.LessIrreflexive(x);
    } else if Lexical.Less(y, x) {
      TrimmedOrder(y, x);
      PaddedExclusive(y, x);
      assert PaddedEqual(x, y) ==> PaddedEqual(y, x);
      Lexical.LessIrreflexive(x);
    } else {
      assert PaddedLess(x, y) ==> !PaddedEqual(x, y) by { if PaddedLess(x, y) { PaddedExclusive(x, y); } }
    }
  }

  // ----- Comparing versions -----

  /** What a label says: its rank (alpha 0, beta 1, release candidate 2) and its number, if written. */
  datatype Label = Label(rank: nat, number: Option<nat>)

  /**
   * A version as its text reads. A keyed one has the release numbers, an optional label and the
   * numbers in the ignored suffix; any other text has only the numbers found in it.
   */
  datatype Reading =
    | Keyed(release: seq<nat>, tag: Option<Label>, suffix: seq<nat>)
    | Unkeyed(found: seq<nat>)

  predicate Readable(r: Reading) {
    r.Keyed? ==> r.release != [] && (r.tag.Some? ==> r.tag.value.rank <= 2)
  }

  /** All numbers of the text, in order: `parse_version_tuple`. */
  function Numbers(r: Reading): seq<nat> {
    match r
    case Unkeyed(found) => found
    case Keyed(release, tag, suffix) => release + (if tag.Some? && tag.value.number.Some? then [tag.value.number.value] else []) + suffix
  }

  /** `version_sort_key`: the trimmed release, the label's rank and its number. */
  datatype SortKey = SortKey(release: seq<nat>, rank: nat, number: nat)

  function KeyOf(r: Reading): Option<SortKey> {
    if r.Unkeyed? then None
    else
      match r.tag
      case None => Some(SortKey(Trim(r.release), 3, 0))
      case Some(t) => Some(SortKey(Trim(r.release), t.rank, t.number.GetOr(0)))
  }

  predicate KeyLess(a: SortKey, b: SortKey) {
    || Lexical.Less(a.release, b.release)
    || (a.release == b.release && (a.rank < b.rank || (a.rank == b.rank && a.number < b.number)))
  }

  /** `(a > b) - (a < b)` from the two comparisons. */
  function Sign(less: bool, greater: bool): int {
    (if greater then 1 else 0) - (if less then 1 else 0)
  }

  function CompareVersions(left: Reading, right: Reading): int {
    var l, r := KeyOf(left), KeyOf(right);
    if l.Some? && r.Some? then Sign(KeyLess(l.value, r.value), KeyLess(r.value, l.value))
    else
      var a, b := Trim(Numbers(left)), Trim(Numbers(right));
      Sign(Lexical.Less(a, b), Lexical.Less(b, a))
  }

  function Rank(r: Reading): nat
    requires r.Keyed?
  {
    if r.tag.None? then 3 else r.tag.value.rank
  }

  function LabelNumber(r: Reading): nat
    requires r.Keyed?
  {
    if r.tag.None? then 0 else r.tag.value.number.GetOr(0)
  }

  /** Keyed versions are ordered by zero-padded release numbers, then label rank, then label number. */
  lemma KeyedOrder(a: Reading, b: Reading)
    requires Readable(a) && Readable(b) && a.Keyed? && b.Keyed?
    ensures CompareVersions(a, b) < 0 <==>
      || PaddedLess(a.release, b.release)
      || (PaddedEqual(a.release, b.release) && (Rank(a) < Rank(b) || (Rank(a) == Rank(b) && LabelNumber(a) < LabelNumber(b))))
    ensures CompareVersions(a, b) == 0 <==> PaddedEqual(a.release, b.release) && Rank(a) == Rank(b) && LabelNumber(a) == LabelNumber(b)
  {
    PaddedIff(a.release, b.release);
    PaddedIff(b.release, a.release);
    var x, y := Trim(a.release), Trim(b.release);
    Lexical.LessTotal(x, y);
    LessExclusive(x, y);
  }

  lemma LessExclusive(a: seq<int>, b: seq<int>)
    ensures !(Lexical.Less(a, b) && Lexical.Less(b, a))
    ensures Lexical.Less(a, b) ==> a != b
  {
    Lexical.LessIrreflexive(a);
    if Lexical.Less(a, b) && Lexical.Less(b, a) {
      Lexical.LessTransitive(a, b, a);
    }
  }

  /** Trailing zeros of a release never matter. */
  lemma TrailingZeros(a: Reading, zeros: seq<nat>, b: Reading)
    requires Readable(a) && Readable(b) && a.Keyed? && b.Keyed? && forall i :: 0 <= i < |zeros| ==> zeros[i] == 0
    ensures CompareVersions(a.(release := a.release + zeros), b) == CompareVersions(a, b)
    ensures CompareVersions(a.(release := a.release + zeros), a) == 0
  {
    var c := a.(release := a.release + zeros);
    assert PaddedEqual(a.release, c.release);
    PaddedIff(a.release, c.release);
    LessExclusive(Trim(a.release), Trim(a.release));
  }

  lemma KeyLessTransitive(a: SortKey, b: SortKey, c: SortKey)
    requires !KeyLess(b, a) && !KeyLess(c, b)
    ensures !KeyLess(c, a)
    ensures KeyLess(a, b) || KeyLess(b, c) ==> KeyLess(a, c)
  {
    NotLessTransitive(a.release, b.release, c.release);
    LessExclusive(a.release, b.release);
    LessExclusive(b.release, c.release);
    LessExclusive(a.release, c.release);
  }

  /** The order of tuples, in its weak form. */
  lemma NotLessTransitive(a: seq<int>, b: seq<int>, c: seq<int>)
    requires !Lexical.Less(b, a) && !Lexical.Less(c, b)
    ensures !Lexical.Less(c, a)
    ensures Lexical.Less(a, b) || Lexical.Less(b, c) ==> Lexical.Less(a, c)
    ensures (a == b && b == c) || Lexical.Less(a, c)
  {
    Lexical.LessTotal(a, b);
    Lexical.LessTotal(b, c);
    if Lexical.Less(a, b) && Lexical.Less(b, c) {
      Lexical.LessTransitive(a, b, c);
    }
    LessExclusive(a, c);
    LessExclusive(b, b);
  }

  /** Every version equals itself, and swapping the arguments flips the sign. */
  lemma Antisymmetric(a: Reading, b: Reading)
    ensures CompareVersions(a, a) == 0
    ensures CompareVersions(b, a) == -CompareVersions(a, b)
    ensures -1 <= CompareVersions(a, b) <= 1
  {
  }

  /** Among versions that all have a key, or all lack one, the comparison is a total preorder. */
  lemma UniformTransitive(a: Reading, b: Reading, c: Reading)
    requires a.Keyed? == b.Keyed? == c.Keyed?
    requires CompareVersions(a, b) <= 0 && CompareVersions(b, c) <= 0
    ensures CompareVersions(a, c) <= 0
    ensures CompareVersions(a, c) == 0 ==> CompareVersions(a, b) == 0 && CompareVersions(b, c) == 0
  {
    if a.Keyed? {
      var x, y, z := KeyOf(a).value, KeyOf(b).value, KeyOf(c).value;
      KeyExclusive(x, y);
      KeyExclusive(y, z);
      KeyExclusive(x, z);
      KeyLessTransitive(x, y, z);
    } else {
      NumbersTransitive(a, b, c);
    }
  }

  lemma KeyExclusive(a: SortKey, b: SortKey)
    ensures !(KeyLess(a, b) && KeyLess(b, a))
  {
    LessExclusive(a.release, b.release);
    LessExclusive(b.release, a.release);
  }

  function ByNumbers(a: Reading, b: Reading): int {
    var x, y := Trim(Numbers(a)), Trim(Numbers(b));
    Sign(Lexical.Less(x, y), Lexical.Less(y, x))
  }

  lemma NumbersTransitive(a: Reading, b: Reading, c: Reading)
    requires ByNumbers(a, b) <= 0 && ByNumbers(b, c) <= 0
    ensures ByNumbers(a, c) <= 0
    ensures ByNumbers(a, c) == 0 ==> ByNumbers(a, b) == 0 && ByNumbers(b, c) == 0
  {
    var x, y, z := Trim(Numbers(a)), Trim(Numbers(b)), Trim(Numbers(c));
    LessExclusive(x, y);
    LessExclusive(y, z);
    LessExclusive(x, z);
    NotLessTransitive(x, y, z);
  }

  /** What the two texts must share to compare equal: what their keys read, or all their numbers. */
  ghost predicate SameOrder(a: Reading, b: Reading) {
    if a.Keyed? && b.Keyed? then PaddedEqual(a.release, b.release) && Rank(a) == Rank(b) && LabelNumber(a) == LabelNumber(b)
    else Trim(Numbers(a)) == Trim(Numbers(b))
  }

  lemma EqualIff(a: Reading, b: Reading)
    requires Readable(a) && Readable(b)
    ensures CompareVersions(a, b) == 0 <==> SameOrder(a, b)
  {
    if a.Keyed? && b.Keyed? {
      KeyedOrder(a, b);
    } else {
      Lexical.LessTotal(Trim(Numbers(a)), Trim(Numbers(b)));
      LessExclusive(Trim(Numbers(a)), Trim(Numbers(b)));
    }
  }

  /** The numbers of the text: those of the release, the label's if it is written, and those of the suffix. */
  lemma NumbersAre(r: Reading)
    requires r.Keyed?
    ensures var all, n := Numbers(r), |r.release|;
      && n <= |all| && all[..n] == r.release
      && (r.tag.Some? && r.tag.value.number.Some? ==> n < |all| && all[n] == r.tag.value.number.value && all[n + 1..] == r.suffix)
      && (r.tag.None? || r.tag.value.number.None? ==> all[n..] == r.suffix)
  {
  }

  /** The release is earlier, or the same and the label is: any label comes before none, and labels go by rank, then number. */
  ghost predicate Earlier(a: Reading, b: Reading)
    requires a.Keyed? && b.Keyed?
  {
    || PaddedLess(a.release, b.release)
    || (PaddedEqual(a.release, b.release) && a.tag.Some? && b.tag.None?)
    || (PaddedEqual(a.release, b.release) && a.tag.Some? && b.tag.Some? &&
         var x, y := a.tag.value, b.tag.value;
         x.rank < y.rank || (x.rank == y.rank && (if x.number.Some? then x.number.value else 0) < if y.number.Some? then y.number.value else 0))
  }

  /** One version is below another by release, label rank and label number when both have a key, and else by their numbers. */
  lemma BelowIff(a: Reading, b: Reading)
    requires Readable(a) && Readable(b)
    ensures a.Keyed? && b.Keyed? ==> (CompareVersions(a, b) < 0 <==> Earlier(a, b))
    ensures a.Unkeyed? || b.Unkeyed? ==>
      (CompareVersions(a, b) < 0 <==> (Numbers(a) == [] && Numbers(b) != []) || PaddedLess(Numbers(a), Numbers(b)))
  {
    if a.Keyed? && b.Keyed? {
      KeyedOrder(a, b);
    } else {
      var x, y := Numbers(a), Numbers(b);
      if x != [] && y != [] {
        PaddedIff(x, y);
      }
      TrimFacts(x);
      TrimFacts(y);
      LessExclusive(Trim(x), Trim(y));
    }
  }

  // ----- Where the two comparisons meet -----

  /** No label, and nothing but zeros after the release: the numbers say all the key says. */
  predicate Plain(r: Reading) {
    r.Keyed? ==> r.tag.None? && forall i :: 0 <= i < |r.suffix| ==> r.suffix[i] == 0
  }

  lemma PlainNumbers(r: Reading)
    requires Readable(r) && r.Keyed? && Plain(r)
    ensures Trim(Numbers(r)) == Trim(r.release)
  {
    assert PaddedEqual(Numbers(r), r.release);
    PaddedIff(Numbers(r), r.release);
  }

  lemma PlainByNumbers(a: Reading, b: Reading)
    requires Readable(a) && Readable(b) && Plain(a) && Plain(b)
    ensures CompareVersions(a, b) == ByNumbers(a, b)
  {
    if a.Keyed? && b.Keyed? {
      PlainNumbers(a);
      PlainNumbers(b);
    }
  }

  /** The order law on three versions: a chain closes, and closes strictly unless both links are equal. */
  predicate Chains(a: Reading, b: Reading, c: Reading) {
    CompareVersions(a, b) <= 0 && CompareVersions(b, c) <= 0 ==>
      && CompareVersions(a, c) <= 0
      && (CompareVersions(a, c) == 0 ==> CompareVersions(a, b) == 0 && CompareVersions(b, c) == 0)
  }

  /** Plain and unkeyed versions may be mixed freely. */
  lemma PlainMixTransitive(a: Reading, b: Reading, c: Reading)
    requires Readable(a) && Readable(b) && Readable(c) && Plain(a) && Plain(b) && Plain(c)
    ensures Chains(a, b, c)
  {
    PlainByNumbers(a, b);
    PlainByNumbers(b, c);
    PlainByNumbers(a, c);
    if ByNumbers(a, b) <= 0 && ByNumbers(b, c) <= 0 {
      NumbersTransitive(a, b, c);
    }
  }

  /** Extra numbers never make a tuple smaller. */
  lemma ExtraNumbersGrow(a: seq<nat>, extra: seq<nat>)
    requires a != []
    ensures !Lexical.Less(Trim(a + extra), Trim(a))
  {
    PaddedIff(a + extra, a);
    forall n: nat ensures Component(a + extra, n) >= Component(a, n) {
    }
  }

  /** A version with a label or a suffix number breaks the order, between texts without a key and its own bare release. */
  lemma AdornedBreaksOrder(v: Reading)
    requires Readable(v) && !Plain(v)
    ensures var u, w := Unkeyed(v.release), Keyed(v.release, None, []);
      Readable(w) && Plain(w) && Plain(u) && CompareVersions(w, u) == 0 && !(Chains(w, u, v) && Chains(v, w, u))
  {
    var u, w := Unkeyed(v.release), Keyed(v.release, None, []);
    var extra := Numbers(v)[|v.release|..];
    assert Numbers(v) == v.release + extra;
    ExtraNumbersGrow(v.release, extra);
    assert Numbers(w) == v.release;
    LessExclusive(Trim(v.release), Trim(v.release));
    assert CompareVersions(u, v) <= 0;
    if v.tag.None? {
      var i :| 0 <= i < |v.suffix| && v.suffix[i] != 0;
      assert Component(Numbers(v), |v.release| + i) != Component(v.release, |v.release| + i);
      PaddedIff(Numbers(v), v.release);
      Lexical.LessTotal(Trim(Numbers(v)), Trim(v.release));
    }
  }

  /** A readable version keeps the order with every text without a key and every plain version exactly when it is plain. */
  lemma OrderIffPlain(v: Reading)
    requires Readable(v)
    ensures Plain(v) <==>
      forall u, w | Readable(u) && Readable(w) && Plain(u) && Plain(w) :: Chains(u, w, v) && Chains(u, v, w) && Chains(v, u, w)
  {
    if Plain(v) {
      forall u, w | Readable(u) && Readable(w) && Plain(u) && Plain(w) ensures Chains(u, w, v) && Chains(u, v, w) && Chains(v, u, w) {
        PlainMixTransitive(u, w, v);
        PlainMixTransitive(u, v, w);
        PlainMixTransitive(v, u, w);
      }
    } else {
      AdornedBreaksOrder(v);
    }
  }
}
