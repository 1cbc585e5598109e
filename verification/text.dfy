/**
 * The string operations of JavaScript that the booth pipeline relies on,
 * over `string` (a sequence of Unicode scalar values).
 */
module Text {

  import opened Options

  /** White space as `String.prototype.trim` removes it: the WhiteSpace and
      LineTerminator code points of ECMAScript. */
  const Spaces: set<char> :=
    {
      ' ', '\t', '\n', '\r', '\U{000B}', '\U{000C}',
      '\U{00A0}', '\U{1680}', '\U{2000}', '\U{2001}', '\U{2002}', '\U{2003}',
      '\U{2004}', '\U{2005}', '\U{2006}', '\U{2007}', '\U{2008}', '\U{2009}',
      '\U{200A}', '\U{2028}', '\U{2029}', '\U{202F}', '\U{205F}', '\U{3000}',
      '\U{FEFF}'
    }

  predicate IsSpace(c: char) {
    c in Spaces
  }

  /** Empty or white space only: what `!s.trim()` tests. */
  predicate IsBlank(s: string) {
    forall i :: 0 <= i < |s| ==> IsSpace(s[i])
  }

  /** `r` sits in `s` at offset `a` with only white space around it. */
  predicate SpaceFramed(s: string, r: string, a: int) {
    && 0 <= a <= |s| - |r| && r == s[a..a + |r|]
    && (forall i :: 0 <= i < a ==> IsSpace(s[i]))
    && (forall i :: a + |r| <= i < |s| ==> IsSpace(s[i]))
  }

  /** `s.trim()`: `s` without its leading and trailing white space. */
  function Trim(s: string): (r: string)
    ensures IsTrimmed(r)
    ensures r == [] <==> IsBlank(s)
    decreases |s|
  {
    if |s| > 0 && IsSpace(s[0]) then
      assert IsBlank(s[1..]) ==> IsBlank(s) by {
        assert forall i :: 1 <= i < |s| ==> s[i] == s[1..][i - 1];
      }
      Trim(s[1..])
    else if |s| > 0 && IsSpace(s[|s| - 1]) then
      assert IsBlank(s[..|s| - 1]) ==> IsBlank(s);
      Trim(s[..|s| - 1])
    else
      s
  }

  /** What `Trim` removes is white space at the two ends, and nothing else. */
  lemma {:induction false} TrimFramed(s: string)
    ensures exists a :: SpaceFramed(s, Trim(s), a)
    decreases |s|
  {
    var r := Trim(s);
    if |s| > 0 && IsSpace(s[0]) {
      TrimFramed(s[1..]);
      var a :| SpaceFramed(s[1..], r, a);
      FramedAfterSpace(s, r, a);
    } else if |s| > 0 && IsSpace(s[|s| - 1]) {
      TrimFramed(s[..|s| - 1]);
      var a :| SpaceFramed(s[..|s| - 1], r, a);
      FramedBeforeSpace(s, r, a);
    } else {
      assert SpaceFramed(s, r, 0);
    }
  }

  lemma FramedAfterSpace(s: string, r: string, a: int)
    requires |s| > 0 && IsSpace(s[0]) && SpaceFramed(s[1..], r, a)
    ensures SpaceFramed(s, r, a + 1)
  {
    assert r == s[a + 1..a + 1 + |r|];
    assert forall i :: 1 <= i < |s| ==> s[i] == s[1..][i - 1];
  }

  lemma FramedBeforeSpace(s: string, r: string, a: int)
    requires |s| > 0 && IsSpace(s[|s| - 1]) && SpaceFramed(s[..|s| - 1], r, a)
    ensures SpaceFramed(s, r, a)
  {
    assert r == s[a..a + |r|];
  }

  /** A string `trim` leaves unchanged. */
  predicate IsTrimmed(s: string) {
    s == [] || (!IsSpace(s[0]) && !IsSpace(s[|s| - 1]))
  }

  /** Trimming keeps only characters of the original. */
  lemma TrimAvoids(s: string, seps: set<char>)
    requires Avoids(s, seps)
    ensures Avoids(Trim(s), seps)
  {
    var r := Trim(s);
    TrimFramed(s);
    var a :| SpaceFramed(s, r, a);
    forall i | 0 <= i < |r| ensures r[i] !in seps {
      assert r[i] == s[a + i];
    }
  }

  lemma TrimmedFixed(s: string)
    requires IsTrimmed(s)
    ensures Trim(s) == s
  {
  }

  lemma TrimIdempotent(s: string)
    ensures Trim(Trim(s)) == Trim(s)
  {
    TrimmedFixed(Trim(s));
  }

  /** ASCII case mapping: `toUpperCase` and `toLowerCase` restricted to the
      letters A-Z; every other character is left as it is. */
  function UpperChar(c: char): char {
    if 'a' <= c <= 'z' then (c as int - 32) as char else c
  }

  function LowerChar(c: char): char {
    if 'A' <= c <= 'Z' then (c as int + 32) as char else c
  }

  function Upper(s: string): (r: string)
    ensures |r| == |s| && forall i :: 0 <= i < |s| ==> r[i] == UpperChar(s[i])
  {
    seq(|s|, i requires 0 <= i < |s| => UpperChar(s[i]))
  }

  function Lower(s: string): (r: string)
    ensures |r| == |s| && forall i :: 0 <= i < |s| ==> r[i] == LowerChar(s[i])
  {
    seq(|s|, i requires 0 <= i < |s| => LowerChar(s[i]))
  }

  lemma UpperIdempotent(s: string)
    ensures Upper(Upper(s)) == Upper(s)
  {
  }

  predicate IsLowerLetter(c: char) {
    'a' <= c <= 'z'
  }

  predicate IsUpperLetter(c: char) {
    'A' <= c <= 'Z'
  }

  /** No ASCII letter occurs in `n`, so case mapping cannot produce or change it. */
  predicate NoLetters(n: string) {
    forall k :: 0 <= k < |n| ==> !IsLowerLetter(n[k]) && !IsUpperLetter(n[k])
  }

  /** Upper-casing leaves no lower-case letter, changes nothing else, and loses
      nothing that lower-casing keeps. */
  lemma UpperFolds(s: string)
    ensures forall i :: 0 <= i < |s| ==> !IsLowerLetter(Upper(s)[i])
    ensures forall i :: 0 <= i < |s| && !IsLowerLetter(s[i]) ==> Upper(s)[i] == s[i]
    ensures Lower(Upper(s)) == Lower(s)
  {
  }

  /** Lower-casing leaves no upper-case letter, changes nothing else, and loses
      nothing that upper-casing keeps. */
  lemma LowerFolds(s: string)
    ensures forall i :: 0 <= i < |s| ==> !IsUpperLetter(Lower(s)[i])
    ensures forall i :: 0 <= i < |s| && !IsUpperLetter(s[i]) ==> Lower(s)[i] == s[i]
    ensures Upper(Lower(s)) == Upper(s)
    ensures Lower(Lower(s)) == Lower(s)
  {
  }

  /** A letter-free text occurs in the upper-cased string exactly where it occurs in the string. */
  lemma UpperKeepsNoLetters(s: string, n: string)
    requires NoLetters(n)
    ensures Upper(s) == n <==> s == n
    ensures Contains(Upper(s), n) <==> Contains(s, n)
  {
    forall i | 0 <= i <= |s| - |n| ensures OccursAt(Upper(s), n, i) <==> OccursAt(s, n, i) {
      UpperSliceMatches(s, n, i);
    }
    if |s| == |n| {
      UpperSliceMatches(s, n, 0);
      assert s[0..|n|] == s && Upper(s)[0..|n|] == Upper(s);
    }
  }

  lemma UpperSliceMatches(s: string, n: string, i: int)
    requires NoLetters(n) && 0 <= i <= |s| - |n|
    ensures Upper(s)[i..i + |n|] == n <==> s[i..i + |n|] == n
  {
    if Upper(s)[i..i + |n|] == n {
      forall k | 0 <= k < |n| ensures s[i + k] == n[k] {
        assert Upper(s)[i + k] == n[k];
      }
    }
  }

  /** A letter-free text occurs in the lower-cased string exactly where it occurs in the string. */
  lemma LowerKeepsNoLetters(s: string, n: string)
    requires NoLetters(n)
    ensures Lower(s) == n <==> s == n
    ensures Contains(Lower(s), n) <==> Contains(s, n)
  {
    forall i | 0 <= i <= |s| - |n| ensures OccursAt(Lower(s), n, i) <==> OccursAt(s, n, i) {
      LowerSliceMatches(s, n, i);
    }
    if |s| == |n| {
      LowerSliceMatches(s, n, 0);
      assert s[0..|n|] == s && Lower(s)[0..|n|] == Lower(s);
    }
  }

  lemma LowerSliceMatches(s: string, n: string, i: int)
    requires NoLetters(n) && 0 <= i <= |s| - |n|
    ensures Lower(s)[i..i + |n|] == n <==> s[i..i + |n|] == n
  {
    if Lower(s)[i..i + |n|] == n {
      forall k | 0 <= k < |n| ensures s[i + k] == n[k] {
        assert Lower(s)[i + k] == n[k];
      }
    }
  }

  predicate StartsWith(s: string, p: string) {
    p <= s
  }

  predicate EndsWith(s: string, p: string) {
    |p| <= |s| && s[|s| - |p|..] == p
  }

  /** `n` occurs in `h` starting at index `i`. */
  predicate OccursAt(h: string, n: string, i: int) {
    0 <= i <= |h| - |n| && h[i..i + |n|] == n
  }

  /** `h.includes(n)`. */
  predicate Contains(h: string, n: string) {
    exists i | 0 <= i <= |h| :: OccursAt(h, n, i)
  }

  lemma ContainsSlice(h: string, i: nat, j: nat, n: string)
    requires i <= j <= |h| && Contains(h[i..j], n)
    ensures Contains(h, n)
  {
    var w := h[i..j];
    var k :| 0 <= k <= |w| && OccursAt(w, n, k);
    assert k + |n| <= |w| && w[k..k + |n|] == n;
    assert forall m :: 0 <= m < |n| ==> n[m] == h[i + k + m];
    assert OccursAt(h, n, i + k);
  }

  lemma ContainsLeft(a: string, b: string, n: string)
    requires Contains(a, n)
    ensures Contains(a + b, n)
  {
    assert (a + b)[0..|a|] == a;
    ContainsSlice(a + b, 0, |a|, n);
  }

  lemma ContainsRight(a: string, b: string, n: string)
    requires Contains(b, n)
    ensures Contains(a + b, n)
  {
    assert (a + b)[|a|..|a| + |b|] == b;
    ContainsSlice(a + b, |a|, |a| + |b|, n);
  }

  /** `s.indexOf(c)`, with `None` for -1. */
  function IndexOf(s: string, c: char): (r: Option<nat>)
    ensures r.None? <==> c !in s
    ensures r.Some? ==> r.value < |s| && s[r.value] == c && c !in s[..r.value]
  {
    if |s| == 0 then None
    else if s[0] == c then Some(0)
    else
      match IndexOf(s[1..], c)
      case None => None
      case Some(k) =>
        assert s[..k + 1] == [s[0]] + s[1..][..k];
        Some(k + 1)
  }

  /** Number of occurrences of characters of `seps` in `s`. */
  function CountIn(s: string, seps: set<char>): nat {
    if |s| == 0 then 0 else (if s[0] in seps then 1 else 0) + CountIn(s[1..], seps)
  }

  predicate Avoids(s: string, seps: set<char>) {
    forall i :: 0 <= i < |s| ==> s[i] !in seps
  }

  /** `s.split(c)` for every separator character `c` of `seps`: the pieces
      between consecutive separators, empty ones included. */
  function SplitBy(s: string, seps: set<char>): (parts: seq<string>)
    ensures |parts| == CountIn(s, seps) + 1
    ensures forall i :: 0 <= i < |parts| ==> Avoids(parts[i], seps)
  {
    if |s| == 0 then [""]
    else
      var rest := SplitBy(s[1..], seps);
      if s[0] in seps then [""] + rest
      else [[s[0]] + rest[0]] + rest[1..]
  }

  /** `parts.join(sep)`. */
  function Join(parts: seq<string>, sep: string): string {
    if |parts| == 0 then ""
    else if |parts| == 1 then parts[0]
    else parts[0] + sep + Join(parts[1..], sep)
  }

  /** Every piece sits whole inside the joined text. */
  lemma {:induction false} JoinHasPiece(parts: seq<string>, sep: string, j: nat)
    requires j < |parts|
    ensures exists a, b :: Join(parts, sep) == a + parts[j] + b
    decreases |parts|
  {
    if |parts| == 1 {
      assert Join(parts, sep) == "" + parts[0] + "";
    } else if j == 0 {
      assert Join(parts, sep) == "" + parts[0] + (sep + Join(parts[1..], sep));
    } else {
      JoinHasPiece(parts[1..], sep, j - 1);
      var a, b :| Join(parts[1..], sep) == a + parts[1..][j - 1] + b;
      assert Join(parts, sep) == (parts[0] + sep + a) + parts[j] + b;
    }
  }

  /** Splitting on a single character and joining with it gives the text back. */
  lemma {:induction false} JoinSplit(s: string, c: char)
    ensures Join(SplitBy(s, {c}), [c]) == s
  {
    if |s| > 0 {
      var rest := SplitBy(s[1..], {c});
      JoinSplit(s[1..], c);
      if s[0] == c {
        assert SplitBy(s, {c}) == [""] + rest;
        assert Join([""] + rest, [c]) == "" + [c] + Join(rest, [c]);
        assert s == [c] + s[1..];
      } else {
        var parts := [[s[0]] + rest[0]] + rest[1..];
        assert SplitBy(s, {c}) == parts;
        if |rest| == 1 {
          assert Join(parts, [c]) == [s[0]] + rest[0];
          assert s == [s[0]] + s[1..];
        } else {
          assert parts[1..] == rest[1..];
          assert Join(parts, [c]) == [s[0]] + rest[0] + [c] + Join(rest[1..], [c]);
          assert Join(rest, [c]) == rest[0] + [c] + Join(rest[1..], [c]);
          assert s == [s[0]] + s[1..];
        }
      }
    }
  }

  /** Joining pieces that avoid every separator with one of them, and splitting
      again, gives the pieces back. */
  lemma {:induction false} SplitJoin(parts: seq<string>, c: char, seps: set<char>)
    requires c in seps && |parts| >= 1
    requires forall i :: 0 <= i < |parts| ==> Avoids(parts[i], seps)
    ensures SplitBy(Join(parts, [c]), seps) == parts
    decreases |parts|, |parts[0]|
  {
    var p := parts[0];
    if |p| == 0 {
      if |parts| > 1 {
        var tail := Join(parts[1..], [c]);
        JoinEmptyHead(parts, c);
        SplitJoin(parts[1..], c, seps);
        SplitCons(c, tail, seps);
        assert [""] + parts[1..] == parts;
      }
    } else {
      var parts' := [p[1..]] + parts[1..];
      assert Avoids(parts'[0], seps);
      assert forall i :: 1 <= i < |parts'| ==> parts'[i] == parts[i];
      SplitJoin(parts', c, seps);
      JoinCharHead(parts, c);
      SplitCons(p[0], Join(parts', [c]), seps);
      assert [p[0]] + p[1..] == p;
      assert [p] + parts[1..] == parts;
    }
  }

  /** Splitting text that starts with a given character. */
  lemma SplitCons(ch: char, rest: string, seps: set<char>)
    ensures SplitBy([ch] + rest, seps)
      == if ch in seps then [""] + SplitBy(rest, seps) else [[ch] + SplitBy(rest, seps)[0]] + SplitBy(rest, seps)[1..]
  {
    assert ([ch] + rest)[1..] == rest;
  }

  lemma JoinEmptyHead(parts: seq<string>, c: char)
    requires |parts| > 1 && parts[0] == ""
    ensures Join(parts, [c]) == [c] + Join(parts[1..], [c])
  {
  }

  /** Moving the first character of the first piece out of the join. */
  lemma JoinCharHead(parts: seq<string>, c: char)
    requires |parts| >= 1 && |parts[0]| > 0
    ensures Join(parts, [c]) == [parts[0][0]] + Join([parts[0][1..]] + parts[1..], [c])
  {
    var p := parts[0];
    var parts' := [p[1..]] + parts[1..];
    if |parts| == 1 {
      assert p == [p[0]] + p[1..];
    } else {
      var rest := Join(parts[1..], [c]);
      assert parts'[1..] == parts[1..];
      calc {
        Join(parts, [c]);
        p + [c] + rest;
        { ConsAssoc(p, [c], rest); }
        [p[0]] + (p[1..] + [c] + rest);
        [p[0]] + Join(parts', [c]);
      }
    }
  }

  lemma ConsAssoc(p: string, m: string, t: string)
    requires |p| > 0
    ensures p + m + t == [p[0]] + (p[1..] + m + t)
  {
  }
}
