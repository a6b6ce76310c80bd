/** A file system as a map from paths to nodes. Every primitive may fail. */
module Files {
  import opened Wrappers

  type Bytes = seq<bv8>

  datatype Path = Path(directory: string, name: string)

  datatype Node = File(data: Bytes) | Directory

  type Nodes = map<Path, Node>

  /** An ordinary exception, or the cancellation of the running task. */
  datatype Fault = Ordinary(reason: string) | Cancellation

  predicate IsFile(nodes: Nodes, p: Path) {
    p in nodes && nodes[p].File?
  }

  /** What a path holds: nothing, or a node. */
  function At(nodes: Nodes, p: Path): Option<Node> {
    if p in nodes then Some(nodes[p]) else None
  }

  /** The two states agree on every path outside `except`. */
  ghost predicate SameOutside(a: Nodes, b: Nodes, except: set<Path>) {
    forall p :: p !in except ==> At(a, p) == At(b, p)
  }

  ghost predicate SameOn(a: Nodes, b: Nodes, on: set<Path>) {
    forall p :: p in on ==> At(a, p) == At(b, p)
  }

  /** Nothing but files lies at these paths. */
  ghost predicate NoDirectories(nodes: Nodes, on: set<Path>) {
    forall p :: p in on && p in nodes ==> nodes[p].File?
  }

  // ----- Failures -----

  /** The failures to come: each primitive operation takes the next; when there are none left, nothing fails. */
  type Faults = seq<bool>

  function Drawn(faults: Faults): bool {
    faults != [] && faults[0]
  }

  function Later(faults: Faults): (r: Faults)
    ensures Quiet(faults) ==> Quiet(r)
  {
    if faults == [] then [] else faults[1..]
  }

  /** No failure is to come. */
  predicate Quiet(faults: Faults) {
    forall i :: 0 <= i < |faults| ==> !faults[i]
  }

  // ----- The names f"{index:03d}-{name}" -----

  function Digit(n: nat): char
    requires n < 10
  {
    "0123456789"[n]
  }

  function Decimal(n: nat): string {
    if n < 10 then [Digit(n)] else Decimal(n / 10) + [Digit(n % 10)]
  }

  function Padded(n: nat): string {
    if n < 10 then "00" + Decimal(n) else if n < 100 then "0" + Decimal(n) else Decimal(n)
  }

  function NumberedName(index: nat, name: string): string {
    Padded(index) + "-" + name
  }

  function Value(digits: string): nat
    requires forall i :: 0 <= i < |digits| ==> '0' <= digits[i] <= '9'
  {
    if digits == "" then 0 else 10 * Value(digits[..|digits| - 1]) + (digits[|digits| - 1] as int - '0' as int)
  }

  lemma AppendDigit(s: string, digit: char)
    requires (forall i :: 0 <= i < |s| ==> '0' <= s[i] <= '9') && '0' <= digit <= '9'
    ensures Value(s + [digit]) == 10 * Value(s) + (digit as int - '0' as int)
  {
    assert (s + [digit])[..|s|] == s;
  }

  lemma {:induction false} DecimalValue(n: nat)
    ensures forall i :: 0 <= i < |Decimal(n)| ==> '0' <= Decimal(n)[i] <= '9'
    ensures Value(Decimal(n)) == n
  {
    if n < 10 {
      assert Decimal(n)[..0] == "";
    } else {
      DecimalValue(n / 10);
      var digit := ('0' as int + n % 10) as char;
      assert Decimal(n) == Decimal(n / 10) + [digit];
      AppendDigit(Decimal(n / 10), digit);
    }
  }

  lemma {:induction false} ZeroPrefix(s: string)
    requires forall i :: 0 <= i < |s| ==> '0' <= s[i] <= '9'
    ensures forall i :: 0 <= i < |"0" + s| ==> '0' <= ("0" + s)[i] <= '9'
    ensures Value("0" + s) == Value(s)
  {
    if s == "" {
      assert "0" + s == "0";
      assert "0"[..0] == "";
    } else {
      assert ("0" + s)[..|s|] == "0" + s[..|s| - 1];
      ZeroPrefix(s[..|s| - 1]);
    }
  }

  lemma PaddedValue(n: nat)
    ensures forall i :: 0 <= i < |Padded(n)| ==> '0' <= Padded(n)[i] <= '9'
    ensures Value(Padded(n)) == n
  {
    var s := Decimal(n);
    DecimalValue(n);
    if n < 100 {
      ZeroPrefix(s);
      if n < 10 {
        ZeroPrefix("0" + s);
        assert Padded(n) == "0" + ("0" + s);
      }
    }
  }

  /** The last two digits are always written out, after at least one more. */
  lemma NumberedNameIs(hundreds: nat, tens: nat, units: nat, name: string)
    requires tens < 10 && units < 10
    ensures var index := 100 * hundreds + 10 * tens + units;
      NumberedName(index, name) == Decimal(hundreds) + [Digit(tens), Digit(units)] + "-" + name && Decimal(0) == "0"
  {
    PaddedIs(hundreds, tens, units);
  }

  lemma PaddedIs(hundreds: nat, tens: nat, units: nat)
    requires tens < 10 && units < 10
    ensures Padded(100 * hundreds + 10 * tens + units) == Decimal(hundreds) + [Digit(tens), Digit(units)]
  {
    var index := 100 * hundreds + 10 * tens + units;
    assert index / 10 == 10 * hundreds + tens && index % 10 == units && index / 10 % 10 == tens && index / 10 / 10 == hundreds;
    if hundreds > 0 {
      assert Decimal(index) == Decimal(index / 10) + [Digit(units)] && Decimal(index / 10) == Decimal(hundreds) + [Digit(tens)];
    } else if tens > 0 {
      assert Decimal(index) == [Digit(tens)] + [Digit(units)];
    }
  }

  /** Numbered names with different indexes differ, whatever the names. */
  lemma NumberedNamesDiffer(i: nat, a: string, j: nat, b: string)
    requires NumberedName(i, a) == NumberedName(j, b)
    ensures i == j && a == b
  {
    PaddedValue(i);
    PaddedValue(j);
    var s := NumberedName(i, a);
    var m, n := |Padded(i)|, |Padded(j)|;
    assert s[m] == '-' && s[n] == '-';
    assert forall k :: 0 <= k < m ==> s[k] == Padded(i)[k];
    assert forall k :: 0 <= k < n ==> s[k] == Padded(j)[k];
    assert m == n;
    assert s[..m] == Padded(i) == Padded(j);
    assert s[m + 1..] == a && s[m + 1..] == b;
  }
}
