/** Result types, arithmetic and facts about finite sets, shared by every module. */
module Wrappers {

  datatype Option<+T> = None | Some(value: T) {

    function GetOr(default: T): T {
      match this
      case Some(v) => v
      case None => default
    }
  }

  datatype Result<+T, +E> = Success(value: T) | Failure(error: E)

  function Max(a: int, b: int): int {
    if a < b then b else a
  }

  function Min(a: int, b: int): int {
    if a < b then a else b
  }

  function MinReal(a: real, b: real): real {
    if a < b then a else b
  }

  function MaxReal(a: real, b: real): real {
    if a < b then b else a
  }

  function Power2(n: nat): (p: nat)
    ensures p >= 1
  {
    if n == 0 then 1 else 2 * Power2(n - 1)
  }

  lemma {:induction false} Pick<T>(s: set<T>) returns (x: T)
    requires s != {}
    ensures x in s
  {
    x :| x in s;
  }

  lemma {:induction false} PickOutside<T>(a: set<T>, b: set<T>) returns (x: T)
    requires !(a <= b)
    ensures x in a && x !in b
  {
    x :| x in a && x !in b;
  }

  /** A set is no larger than one that contains it, and smaller than one that contains more. */
  lemma {:induction false} SubsetSize<T>(a: set<T>, b: set<T>)
    requires a <= b
    ensures |a| <= |b|
    ensures a != b ==> |a| < |b|
  {
    assert b == a + (b - a);
    assert |b| == |a| + |b - a|;
    if a != b {
      var x :| x in b - a;
      assert |b - a| != 0;
    }
  }

  function Elements<T>(items: seq<T>): (s: set<T>)
    ensures forall i :: 0 <= i < |items| ==> items[i] in s
  {
    set i | 0 <= i < |items| :: items[i]
  }

  lemma {:induction false} ElementsAppend<T>(items: seq<T>, x: T)
    ensures Elements(items + [x]) == Elements(items) + {x}
  {
    forall y | y in Elements(items) + {x} ensures y in Elements(items + [x]) {
      if y == x {
        assert (items + [x])[|items|] == x;
      } else {
        var k :| 0 <= k < |items| && items[k] == y;
        assert (items + [x])[k] == y;
      }
    }
  }
}
