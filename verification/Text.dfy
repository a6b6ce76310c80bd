/** The string operations of Python that the modelled code relies on. */
module Text {

  /** `str.isspace` for one character. */
  predicate IsSpace(c: char) {
    var n := c as int;
    || 0x09 <= n <= 0x0d || 0x1c <= n <= 0x20 || n == 0x85 || n == 0xa0 || n == 0x1680
    || 0x2000 <= n <= 0x200a || n == 0x2028 || n == 0x2029 || n == 0x202f || n == 0x205f || n == 0x3000
  }

  /** The characters Python counts as white space, one by one. */
  lemma SpacesAre(c: char)
    ensures IsSpace(c) <==> c in "\t\n\U{0b}\U{0c}\r\U{1c}\U{1d}\U{1e}\U{1f} \U{85}\U{a0}\U{1680}\U{2000}\U{2001}\U{2002}\U{2003}\U{2004}\U{2005}\U{2006}\U{2007}\U{2008}\U{2009}\U{200a}\U{2028}\U{2029}\U{202f}\U{205f}\U{3000}"
  {
  }

  predicate SpaceFree(s: string) {
    forall i :: 0 <= i < |s| ==> !IsSpace(s[i])
  }

  predicate IsWord(s: string) {
    s != "" && SpaceFree(s)
  }

  function StripLeft(s: string): string {
    if s != "" && IsSpace(s[0]) then StripLeft(s[1..]) else s
  }

  function StripRight(s: string): string {
    if s != "" && IsSpace(s[|s| - 1]) then StripRight(s[..|s| - 1]) else s
  }

  /** `str.strip()`. */
  function Strip(s: string): string {
    StripRight(StripLeft(s))
  }

  predicate Stripped(s: string) {
    s == "" || (!IsSpace(s[0]) && !IsSpace(s[|s| - 1]))
  }

  lemma {:induction false} StripLeftShape(s: string)
    ensures var r := StripLeft(s); |r| <= |s| && r == s[|s| - |r|..] && (r == "" || !IsSpace(r[0]))
  {
    if s != "" && IsSpace(s[0]) {
      StripLeftShape(s[1..]);
      var r := StripLeft(s[1..]);
      assert s[1..][|s| - 1 - |r|..] == s[|s| - |r|..];
    }
  }

  lemma {:induction false} StripRightShape(s: string)
    ensures var r := StripRight(s); |r| <= |s| && r == s[..|r|] && (r == "" || !IsSpace(r[|r| - 1]))
  {
    if s != "" && IsSpace(s[|s| - 1]) {
      StripRightShape(s[..|s| - 1]);
    }
  }

  /** Stripping leaves no blank at either end, and leaves such a string alone. */
  lemma {:induction false} StripIsStripped(s: string)
    ensures Stripped(Strip(s))
    ensures Stripped(s) ==> Strip(s) == s
  {
    StripLeftShape(s);
    StripRightShape(StripLeft(s));
  }

  predicate AllSpaces(s: string) {
    forall i :: 0 <= i < |s| ==> IsSpace(s[i])
  }

  /** Stripping takes off white space at both ends, all of it and nothing else. */
  lemma {:induction false} StripIff(s: string, r: string)
    ensures r == Strip(s) <==> exists a: string, b: string :: SplitAs(s, a, r, b)
  {
    var a, c := StripLeftCut(s);
    var b := StripRightCut(c);
    assert s == a + Strip(s) + b;
    StripIsStripped(s);
    assert Strip(s) == "" || SplitAs(s, a, Strip(s), b);
    if Strip(s) == "" {
      assert s == (a + b) + "" + "" && SplitAs(s, a + b, "", "");
    }
    forall x: string, y: string | SplitAs(s, x, r, y) ensures r == Strip(s) {
      StripOf(x, r, y);
    }
  }

  predicate SplitAs(s: string, a: string, r: string, b: string) {
    s == a + r + b && AllSpaces(a) && AllSpaces(b) && Stripped(r)
  }

  lemma {:induction false} StripLeftCut(s: string) returns (a: string, r: string)
    ensures r == StripLeft(s) && s == a + r && AllSpaces(a)
  {
    if s != "" && IsSpace(s[0]) {
      a, r := StripLeftCut(s[1..]);
      a := [s[0]] + a;
    } else {
      a, r := "", s;
    }
  }

  lemma {:induction false} StripRightCut(s: string) returns (b: string)
    ensures s == StripRight(s) + b && AllSpaces(b)
  {
    if s != "" && IsSpace(s[|s| - 1]) {
      b := StripRightCut(s[..|s| - 1]);
      b := b + [s[|s| - 1]];
      assert s == StripRight(s) + b;
    } else {
      b := "";
    }
  }

  lemma {:induction false} StripOf(a: string, r: string, b: string)
    requires AllSpaces(a) && AllSpaces(b) && Stripped(r)
    ensures Strip(a + r + b) == r
    decreases |a| + |b|
  {
    var s := a + r + b;
    if a != "" {
      assert s[1..] == a[1..] + r + b && s[0] == a[0];
      StripOf(a[1..], r, b);
    } else if r == "" {
      assert s == b;
      StripLeftAll(b);
    } else {
      assert s[0] == r[0];
      StripRightOf(r, b);
      assert s == r + b;
    }
  }

  lemma {:induction false} StripLeftAll(b: string)
    requires AllSpaces(b)
    ensures StripLeft(b) == ""
  {
    if b != "" {
      StripLeftAll(b[1..]);
    }
  }

  lemma {:induction false} StripRightOf(r: string, b: string)
    requires AllSpaces(b) && r != "" && !IsSpace(r[|r| - 1])
    ensures StripRight(r + b) == r
  {
    if b != "" {
      assert (r + b)[..|r + b| - 1] == r + b[..|b| - 1];
      StripRightOf(r, b[..|b| - 1]);
    } else {
      assert r + b == r;
    }
  }

  /** ASCII lower-casing of one character. */
  function LowerChar(c: char): (r: char)
    ensures IsSpace(r) <==> IsSpace(c)
    ensures !('A' <= r <= 'Z')
  {
    if 'A' <= c <= 'Z' then (c as int + 32) as char else c
  }

  /** `str.lower()` on ASCII letters. */
  function Lower(s: string): (r: string)
    ensures |r| == |s|
    ensures forall i :: 0 <= i < |s| ==> r[i] == LowerChar(s[i])
  {
    seq(|s|, i requires 0 <= i < |s| => LowerChar(s[i]))
  }

  /** Letters keep their place in the alphabet, and everything else stays. */
  lemma LowerLetters(c: char)
    ensures forall i :: 0 <= i < 26 && c == "ABCDEFGHIJKLMNOPQRSTUVWXYZ"[i] ==> LowerChar(c) == "abcdefghijklmnopqrstuvwxyz"[i]
    ensures c !in "ABCDEFGHIJKLMNOPQRSTUVWXYZ" ==> LowerChar(c) == c
  {
    var upper := "ABCDEFGHIJKLMNOPQRSTUVWXYZ";
    if 'A' <= c <= 'Z' {
      assert upper[c as int - 'A' as int] == c;
    }
  }

  function WordLength(s: string): (n: nat)
    ensures n <= |s|
    ensures SpaceFree(s[..n])
    ensures n < |s| ==> IsSpace(s[n])
  {
    if s == "" || IsSpace(s[0]) then 0
    else
      var n := 1 + WordLength(s[1..]);
      assert s[..n] == [s[0]] + s[1..][..n - 1];
      n
  }

  /** `str.split()`: the maximal blank-free runs, in order. */
  function Split(s: string): (words: seq<string>)
    ensures forall i :: 0 <= i < |words| ==> IsWord(words[i])
    decreases |s|
  {
    if s == "" then []
    else if IsSpace(s[0]) then Split(s[1..])
    else
      var n := WordLength(s);
      [s[..n]] + Split(s[n..])
  }

  /** `" ".join(words)`. */
  function Join(words: seq<string>): string {
    if words == [] then ""
    else if |words| == 1 then words[0]
    else words[0] + " " + Join(words[1..])
  }

  /** One space stands between two words. */
  lemma {:induction false} JoinAppend(words: seq<string>, word: string)
    ensures Join([]) == "" && Join([word]) == word
    ensures words != [] ==> Join(words + [word]) == Join(words) + " " + word
  {
    if |words| > 1 {
      assert (words + [word])[1..] == words[1..] + [word];
      JoinAppend(words[1..], word);
      assert words[0] + " " + (Join(words[1..]) + " " + word) == words[0] + " " + Join(words[1..]) + " " + word;
    } else if |words| == 1 {
      assert (words + [word])[1..] == [word];
    }
  }

  lemma {:induction false} WordLengthOf(w: string, rest: string)
    requires SpaceFree(w) && (rest == "" || IsSpace(rest[0]))
    ensures WordLength(w + rest) == |w|
  {
    if w == "" {
      assert w + rest == rest;
    } else {
      assert (w + rest)[1..] == w[1..] + rest;
      assert (w + rest)[0] == w[0];
      WordLengthOf(w[1..], rest);
    }
  }

  lemma SplitFirstWord(w: string, rest: string)
    requires IsWord(w) && (rest == "" || IsSpace(rest[0]))
    ensures Split(w + rest) == [w] + Split(rest)
  {
    var s := w + rest;
    assert s != "" && !IsSpace(s[0]) by { assert s[0] == w[0]; }
    assert WordLength(s) == |w| by { WordLengthOf(w, rest); }
    assert s[..|w|] == w && s[|w|..] == rest;
  }

  lemma Reassociate(a: seq<string>, b: seq<string>, c: seq<string>)
    ensures a + (b + c) == (a + b) + c
  {
  }

  /** Splitting works piecewise across a blank. */
  lemma {:induction false} SplitConcat(a: string, b: string)
    requires b == "" || IsSpace(b[0])
    ensures Split(a + b) == Split(a) + Split(b)
    decreases |a|
  {
    if a == "" {
      assert a + b == b;
    } else if IsSpace(a[0]) {
      assert (a + b)[1..] == a[1..] + b;
      SplitConcat(a[1..], b);
    } else {
      var n := WordLength(a);
      var w, tail := a[..n], a[n..];
      assert a == w + tail && a + b == w + (tail + b);
      SplitFirstWord(w, tail);
      SplitFirstWord(w, tail + b);
      SplitConcat(tail, b);
      Reassociate([w], Split(tail), Split(b));
    }
  }

  function SplitAll(words: seq<string>): seq<string> {
    if words == [] then [] else Split(words[0]) + SplitAll(words[1..])
  }

  /** Joining then splitting re-splits every part. */
  lemma {:induction false} SplitJoin(words: seq<string>)
    ensures Split(Join(words)) == SplitAll(words)
  {
    if |words| == 1 {
      assert SplitAll(words[1..]) == [];
    } else if words != [] {
      var rest := " " + Join(words[1..]);
      assert words[0] + " " + Join(words[1..]) == words[0] + rest;
      SplitConcat(words[0], rest);
      assert rest[1..] == Join(words[1..]);
      SplitJoin(words[1..]);
    }
  }

  lemma {:induction false} SplitWord(w: string)
    requires IsWord(w)
    ensures Split(w) == [w]
  {
    WordLengthOf(w, "");
    assert w + "" == w;
    assert w[..|w|] == w;
  }

  lemma {:induction false} SplitAllWords(words: seq<string>)
    requires forall i :: 0 <= i < |words| ==> IsWord(words[i])
    ensures SplitAll(words) == words
  {
    if words != [] {
      SplitWord(words[0]);
      SplitAllWords(words[1..]);
    }
  }

  /** Blank-free words survive a join and a split. */
  lemma {:induction false} SplitJoinWords(words: seq<string>)
    requires forall i :: 0 <= i < |words| ==> IsWord(words[i])
    ensures Split(Join(words)) == words
  {
    SplitJoin(words);
    SplitAllWords(words);
  }

  /** Bytes of one character in UTF-8. */
  function Utf8Size(c: char): nat {
    var n := c as int;
    if n < 0x80 then 1 else if n < 0x800 then 2 else if n < 0x1_0000 then 3 else 4
  }

  /** One, two or three bytes hold seven, eleven or sixteen bits. */
  lemma Utf8SizeIff(c: char)
    ensures Utf8Size(c) <= 1 <==> c as int < 128
    ensures Utf8Size(c) <= 2 <==> c as int < 2048
    ensures Utf8Size(c) <= 3 <==> c as int < 65536
    ensures 1 <= Utf8Size(c) <= 4
  {
  }

  /** `len(s.encode("utf-8"))`. */
  function Utf8Length(s: string): nat {
    if s == "" then 0 else Utf8Size(s[0]) + Utf8Length(s[1..])
  }

  lemma {:induction false} Utf8LengthConcat(a: string, b: string)
    ensures Utf8Length(a + b) == Utf8Length(a) + Utf8Length(b)
  {
    if a == "" {
      assert a + b == b;
    } else {
      assert (a + b)[1..] == a[1..] + b;
      Utf8LengthConcat(a[1..], b);
    }
  }
}
