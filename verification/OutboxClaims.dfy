/** What the claim statement guarantees: determinism and fairness between destinations. */
module OutboxClaims {
  import opened Wrappers
  import opened OutboxTable
  import Ordering

  function ClaimedTo(rows: map<int, Row>, claim: set<int>, destination: string): set<int> {
    set id | id in claim && id in rows && rows[id].destination == destination
  }

  function DueDestinations(rows: map<int, Row>, now: int): set<string> {
    set id | id in Due(rows, now) :: rows[id].destination
  }

  /** Within one destination the row number grows with (available_at, id). */
  lemma {:induction false} RankGrows(rows: map<int, Row>, now: int, i: int, j: int)
    requires i in Due(rows, now) && j in Due(rows, now) && rows[i].destination == rows[j].destination
    requires Earlier(rows, i, j)
    ensures Rank(rows, now, i) < Rank(rows, now, j)
  {
    var due := DueTo(rows, now, rows[i].destination);
    var a := set k | k in due && Earlier(rows, k, i);
    var b := set k | k in due && Earlier(rows, k, j);
    assert i in b - a;
    SubsetSize(a, b);
  }

  /** A non-empty set of rows has a first one in the statement's order. */
  lemma FirstExists(rows: map<int, Row>, now: int, s: set<int>) returns (m: int)
    requires s != {} && s <= rows.Keys
    ensures m in s && forall j :: j in s && j != m ==> Sooner(rows, now, m, j)
  {
    var keys := map i | i in s :: ClaimKey(rows, now, i);
    m := Ordering.FirstExists(s, keys);
  }

  lemma ClaimedSooner(rows: map<int, Row>, now: int, limit: int, claim: set<int>, i: int, j: int)
    requires IsClaim(rows, now, limit, claim) && i in claim && j in Due(rows, now) - claim
    ensures Sooner(rows, now, i, j)
  {
  }

  /** Two answers to the same statement are equal. */
  lemma {:induction false} ClaimUnique(rows: map<int, Row>, now: int, limit: int, a: set<int>, b: set<int>)
    requires IsClaim(rows, now, limit, a) && IsClaim(rows, now, limit, b)
    ensures a == b
  {
    if a != b {
      if a <= b {
        SubsetSize(a, b);
      } else if b <= a {
        SubsetSize(b, a);
      } else {
        var i := PickOutside(a, b);
        var j := PickOutside(b, a);
        ClaimedSooner(rows, now, limit, a, i, j);
        ClaimedSooner(rows, now, limit, b, j, i);
      }
    }
  }

  /** The claim of one destination is a prefix of its due rows in (available_at, id) order. */
  lemma {:induction false} ClaimIsPrefixOfDestination(rows: map<int, Row>, now: int, limit: int, claim: set<int>, i: int, j: int)
    requires IsClaim(rows, now, limit, claim) && i in claim
    requires j in rows && rows[j].status == Pending && rows[j].availableAt <= now && rows[j].destination == rows[i].destination
    requires rows[j].availableAt < rows[i].availableAt || (rows[j].availableAt == rows[i].availableAt && j < i)
    ensures j in claim
  {
    assert j in Due(rows, now) && Earlier(rows, j, i);
    RankGrows(rows, now, j, i);
    assert !Sooner(rows, now, i, j);
  }

  /** Some claimed row of a destination has a row number no smaller than the number claimed there. */
  lemma {:induction false} LastClaimed(rows: map<int, Row>, now: int, s: set<int>, destination: string) returns (i: int)
    requires s != {} && s <= DueTo(rows, now, destination)
    ensures i in s && Rank(rows, now, i) >= |s|
    ensures forall k :: k in s && k != i ==> Earlier(rows, k, i)
  {
    i := Pick(s);
    var rest := s - {i};
    assert forall k :: k in s ==> k == i || k in rest;
    if rest != {} {
      var k := LastClaimed(rows, now, rest, destination);
      if Earlier(rows, i, k) {
        i := k;
      }
    }
    var before := set k | k in DueTo(rows, now, destination) && Earlier(rows, k, i);
    SubsetSize(s - {i}, before);
  }

  /** The first due row left out of a destination is numbered right after those claimed there. */
  lemma {:induction false} FirstLeftOut(rows: map<int, Row>, now: int, limit: int, claim: set<int>, destination: string) returns (j: int)
    requires IsClaim(rows, now, limit, claim)
    requires |ClaimedTo(rows, claim, destination)| < |DueTo(rows, now, destination)|
    ensures j in DueTo(rows, now, destination) - claim
    ensures Rank(rows, now, j) <= 1 + |ClaimedTo(rows, claim, destination)|
  {
    var mine := ClaimedTo(rows, claim, destination);
    var left := DueTo(rows, now, destination) - claim;
    if left == {} {
      forall k | k in DueTo(rows, now, destination) ensures k in mine {
        assert k !in left;
      }
      SubsetSize(DueTo(rows, now, destination), mine);
    }
    j := FirstExists(rows, now, left);
    var before := set k | k in DueTo(rows, now, destination) && Earlier(rows, k, j);
    forall k | k in before ensures k in mine {
      RankGrows(rows, now, k, j);
      assert k !in left;
    }
    SubsetSize(before, mine);
  }

  /** Fairness: no destination gets two more rows than another that still has due rows waiting. */
  lemma {:induction false} ClaimIsFair(rows: map<int, Row>, now: int, limit: int, claim: set<int>, d: string, e: string)
    requires IsClaim(rows, now, limit, claim)
    ensures |ClaimedTo(rows, claim, e)| >= Min(|DueTo(rows, now, e)|, |ClaimedTo(rows, claim, d)| - 1)
    ensures var claimedE, claimedD := |set i | i in claim && rows[i].destination == e|, |set i | i in claim && rows[i].destination == d|;
      claimedE >= claimedD - 1 || forall j :: j in rows && rows[j].status == Pending && rows[j].availableAt <= now && rows[j].destination == e ==> j in claim
  {
    var ce, cd := ClaimedTo(rows, claim, e), ClaimedTo(rows, claim, d);
    assert ce == (set i | i in claim && rows[i].destination == e) && cd == set i | i in claim && rows[i].destination == d;
    SubsetSize(ce, DueTo(rows, now, e));
    forall j | |ce| >= |DueTo(rows, now, e)| && j in rows && rows[j].status == Pending && rows[j].availableAt <= now && rows[j].destination == e ensures j in claim {
      assert j in DueTo(rows, now, e);
    }
    if |ce| < |DueTo(rows, now, e)| && |ce| < |cd| - 1 {
      var j := FirstLeftOut(rows, now, limit, claim, e);
      var i := LastClaimed(rows, now, cd, d);
      ClaimedSooner(rows, now, limit, claim, i, j);
    }
  }

  /** A set holding at most one row per destination is no larger than its set of destinations. */
  lemma {:induction false} OnePerDestination(rows: map<int, Row>, s: set<int>, names: set<string>)
    requires s <= rows.Keys && forall i :: i in s ==> rows[i].destination in names
    requires forall i, j :: i in s && j in s && rows[i].destination == rows[j].destination ==> i == j
    ensures |s| <= |names|
  {
    if s != {} {
      var i := Pick(s);
      OnePerDestination(rows, s - {i}, names - {rows[i].destination});
    }
  }

  /** A limit of at least the number of due destinations serves every one of them. */
  lemma {:induction false} ClaimServesEveryDestination(rows: map<int, Row>, now: int, limit: int, claim: set<int>, d: string)
    requires IsClaim(rows, now, limit, claim)
    requires |DueDestinations(rows, now)| <= ClaimLimit(limit) && d in DueDestinations(rows, now)
    ensures ClaimedTo(rows, claim, d) != {}
  {
    if ClaimedTo(rows, claim, d) == {} {
      var w :| w in Due(rows, now) && rows[w].destination == d;
      assert w in DueTo(rows, now, d);
      assert w !in claim by { assert w !in ClaimedTo(rows, claim, d); }
      forall i, j | i in claim && j in claim && rows[i].destination == rows[j].destination ensures i == j {
        if i != j {
          var e := rows[i].destination;
          ClaimIsFair(rows, now, limit, claim, e, d);
          SubsetSize({i, j}, ClaimedTo(rows, claim, e));
          SubsetSize({w}, DueTo(rows, now, d));
        }
      }
      var others := DueDestinations(rows, now) - {d};
      forall i | i in claim ensures rows[i].destination in others {
        assert i in Due(rows, now);
        assert i !in ClaimedTo(rows, claim, d);
      }
      OnePerDestination(rows, claim, others);
      SubsetSize(claim, Due(rows, now));
    }
  }
}
