/** Python's order on sequences, and sorted enumerations of sets of strings. */
module Lexical {
  import opened Wrappers

  /** `a < b` for tuples of integers: first difference decides, a proper prefix is smaller. */
  predicate Less(a: seq<int>, b: seq<int>) {
    b != [] && (a == [] || a[0] < b[0] || (a[0] == b[0] && Less(a[1..], b[1..])))
  }

  lemma {:induction false} LessIrreflexive(a: seq<int>)
    ensures !Less(a, a)
  {
    if a != [] {
      LessIrreflexive(a[1..]);
    }
  }

  lemma {:induction false} LessTransitive(a: seq<int>, b: seq<int>, c: seq<int>)
    requires Less(a, b) && Less(b, c)
    ensures Less(a, c)
  {
    if a != [] && a[0] == b[0] == c[0] {
      LessTransitive(a[1..], b[1..], c[1..]);
    }
  }

  lemma {:induction false} LessTotal(a: seq<int>, b: seq<int>)
    ensures Less(a, b) || a == b || Less(b, a)
  {
    if a != [] && b != [] && a[0] == b[0] {
      LessTotal(a[1..], b[1..]);
      assert a == [a[0]] + a[1..] && b == [b[0]] + b[1..];
    }
  }

  function Codes(s: string): seq<int> {
    seq(|s|, i requires 0 <= i < |s| => s[i] as int)
  }

  lemma CodesInjective(a: string, b: string)
    requires Codes(a) == Codes(b)
    ensures a == b
  {
    forall i | 0 <= i < |a| ensures a[i] == b[i] {
      assert Codes(a)[i] == Codes(b)[i];
    }
  }

  predicate Before(a: string, b: string) {
    Less(Codes(a), Codes(b))
  }

  predicate IsLeast(names: set<string>, m: string) {
    m in names && forall n :: n in names && n != m ==> Before(m, n)
  }

  lemma LeastBefore(names: set<string>, m: string)
    requires IsLeast(names, m)
    ensures forall n :: n in names - {m} ==> Before(m, n)
  {
  }

  lemma {:induction false} LeastExists(names: set<string>) returns (m: string)
    requires names != {}
    ensures IsLeast(names, m)
    decreases names
  {
    m := Pick(names);
    var rest := names - {m};
    assert forall n :: n in names ==> n == m || n in rest;
    if rest != {} {
      var k := LeastExists(rest);
      LessTotal(Codes(k), Codes(m));
      if Before(k, m) {
        m := k;
      } else {
        if Codes(k) == Codes(m) { CodesInjective(k, m); }
        forall n | n in rest ensures Before(m, n) {
          if n != k { LessTransitive(Codes(m), Codes(k), Codes(n)); }
        }
      }
    }
  }

  predicate Ascending(names: seq<string>) {
    forall i, j :: 0 <= i < j < |names| ==> Before(names[i], names[j])
  }

  /** `sorted(names)`. */
  method Sorted(names: set<string>) returns (order: seq<string>)
    ensures Ascending(order)
    ensures forall n :: n in names <==> n in order
    ensures |order| == |names|
  {
    order := [];
    var rest := names;
    while rest != {}
      invariant rest <= names && Ascending(order) && |order| + |rest| == |names|
      invariant forall n :: n in names <==> n in rest || n in order
      invariant forall i, n :: 0 <= i < |order| && n in rest ==> Before(order[i], n)
      decreases rest
    {
      ghost var least := LeastExists(rest);
      var m :| m in rest && IsLeast(rest, m);
      LeastBefore(rest, m);
      order := order + [m];
      rest := rest - {m};
    }
  }
}
