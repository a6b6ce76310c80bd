/** Lexicographic keys, first elements of finite sets under them, and ordered selection. */
module Ordering {
  import opened Wrappers

  datatype Key = Key(major: int, middle: int, minor: int)

  predicate Less(a: Key, b: Key) {
    || a.major < b.major
    || (a.major == b.major && a.middle < b.middle)
    || (a.major == b.major && a.middle == b.middle && a.minor < b.minor)
  }

  /** Every element of `s` has a key, told apart by its last component. */
  predicate Keyed(s: set<int>, keys: map<int, Key>) {
    s <= keys.Keys && forall i :: i in s ==> keys[i].minor == i
  }

  predicate IsFirst(s: set<int>, keys: map<int, Key>, m: int)
    requires s <= keys.Keys
  {
    m in s && forall j :: j in s && j != m ==> Less(keys[m], keys[j])
  }

  /** Every key of `a` comes before every key of `b`. */
  predicate Separated(a: set<int>, b: set<int>, keys: map<int, Key>) {
    a + b <= keys.Keys && forall i, j :: i in a && j in b ==> Less(keys[i], keys[j])
  }

  lemma Advance(s: set<int>, rest: set<int>, m: int, keys: map<int, Key>)
    requires rest <= s && Separated(s - rest, rest, keys) && IsFirst(rest, keys, m)
    ensures Separated(s - (rest - {m}), rest - {m}, keys)
  {
    forall i, j | i in s - (rest - {m}) && j in rest - {m} ensures Less(keys[i], keys[j]) {
      assert i == m || i in s - rest;
    }
  }

  lemma {:induction false} FirstExists(s: set<int>, keys: map<int, Key>) returns (m: int)
    requires s != {}
    requires Keyed(s, keys)
    ensures IsFirst(s, keys, m)
    decreases s
  {
    m := Pick(s);
    var rest := s - {m};
    assert forall j :: j in s ==> j == m || j in rest;
    if rest != {} {
      var k := FirstExists(rest, keys);
      if Less(keys[k], keys[m]) {
        m := k;
      }
    }
  }

  predicate Ascending(ids: seq<int>, keys: map<int, Key>) {
    && (forall i :: 0 <= i < |ids| ==> ids[i] in keys)
    && forall i, j :: 0 <= i < j < |ids| ==> Less(keys[ids[i]], keys[ids[j]])
  }

  lemma {:induction false} AscendingAppend(ids: seq<int>, m: int, keys: map<int, Key>)
    requires Ascending(ids, keys) && m in keys
    requires forall i :: 0 <= i < |ids| ==> Less(keys[ids[i]], keys[m])
    ensures Ascending(ids + [m], keys)
  {
  }

  /** The list so far: the first elements of `s`, in order, without those still to come. */
  ghost predicate Selecting(s: set<int>, keys: map<int, Key>, ids: seq<int>, rest: set<int>) {
    && rest <= s && |ids| + |rest| == |s| && Elements(ids) == s - rest
    && Ascending(ids, keys) && Separated(s - rest, rest, keys)
  }

  lemma SelectNext(s: set<int>, keys: map<int, Key>, ids: seq<int>, rest: set<int>, m: int)
    requires Keyed(s, keys) && Selecting(s, keys, ids, rest) && IsFirst(rest, keys, m)
    ensures Selecting(s, keys, ids + [m], rest - {m})
  {
    SelectNextInOrder(s, keys, ids, rest, m);
    ElementsAppend(ids, m);
    Advance(s, rest, m, keys);
    assert s - (rest - {m}) == s - rest + {m};
  }

  lemma SeparatedAt(a: set<int>, b: set<int>, keys: map<int, Key>, i: int, j: int)
    requires Separated(a, b, keys) && i in a && j in b
    ensures Less(keys[i], keys[j])
  {
  }

  lemma SelectNextInOrder(s: set<int>, keys: map<int, Key>, ids: seq<int>, rest: set<int>, m: int)
    requires rest <= s && Elements(ids) == s - rest && Ascending(ids, keys) && Separated(s - rest, rest, keys) && m in rest
    ensures Ascending(ids + [m], keys)
  {
    forall k | 0 <= k < |ids| ensures Less(keys[ids[k]], keys[m]) {
      assert ids[k] in Elements(ids);
      SeparatedAt(s - rest, rest, keys, ids[k], m);
    }
    AscendingAppend(ids, m, keys);
  }

  /** ORDER BY ... LIMIT `count`: the `count` first elements of `s`, in order. */
  method Select(s: set<int>, keys: map<int, Key>, count: nat) returns (ids: seq<int>)
    requires Keyed(s, keys)
    ensures Ascending(ids, keys)
    ensures Elements(ids) <= s
    ensures |ids| == |Elements(ids)| == if count < |s| then count else |s|
    ensures Separated(Elements(ids), s - Elements(ids), keys)
  {
    ids := [];
    var rest := s;
    while rest != {} && |ids| < count
      invariant Selecting(s, keys, ids, rest) && |ids| <= count
      decreases rest
    {
      ghost var first := FirstExists(rest, keys);
      var m :| m in rest && IsFirst(rest, keys, m);
      SelectNext(s, keys, ids, rest, m);
      ids := ids + [m];
      rest := rest - {m};
    }
    assert |s - rest| == |s| - |rest|;
    assert s - Elements(ids) == rest;
  }
}
