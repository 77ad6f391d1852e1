/**
  * The pieces of JavaScript's string semantics the recipe pipeline relies on:
  * the white-space set shared by the regular-expression class `\s` and by
  * `String.prototype.trim`, `trim` itself, and character counting.
  */
module JsString {

  /** WhiteSpace and LineTerminator code points of ECMAScript: what `\s`
      matches and what `trim()` removes. */
  predicate IsJsSpace(c: char) {
    c == '\t' || c == '\n' || c == '\U{B}' || c == '\U{C}' || c == '\r' ||
    c == ' ' || c == '\U{A0}' || c == '\U{1680}' ||
    ('\U{2000}' <= c <= '\U{200A}') ||
    c == '\U{2028}' || c == '\U{2029}' || c == '\U{202F}' || c == '\U{205F}' ||
    c == '\U{3000}' || c == '\U{FEFF}'
  }

  ghost predicate AllSpace(s: string) {
    forall i :: 0 <= i < |s| ==> IsJsSpace(s[i])
  }

  /** Neither starts nor ends with white space. */
  predicate IsTrimmed(s: string) {
    s == [] || (!IsJsSpace(s[0]) && !IsJsSpace(s[|s| - 1]))
  }

  /** Drops leading white space: the result is a suffix of `s`, everything
      dropped is white space, and the result does not start with white space. */
  function TrimStart(s: string): (r: string)
    ensures |r| <= |s| && r == s[|s| - |r|..]
    ensures AllSpace(s[..|s| - |r|])
    ensures r == [] || !IsJsSpace(r[0])
  {
    if s != [] && IsJsSpace(s[0]) then TrimStart(s[1..]) else s
  }

  /** Drops trailing white space: the result is a prefix of `s`, everything
      dropped is white space, and the result does not end with white space. */
  function TrimEnd(s: string): (r: string)
    ensures |r| <= |s| && r == s[..|r|]
    ensures AllSpace(s[|r|..])
    ensures r == [] || !IsJsSpace(r[|r| - 1])
  {
    if s != [] && IsJsSpace(s[|s| - 1]) then TrimEnd(s[..|s| - 1]) else s
  }

  /** `String.prototype.trim`: drops white space at both ends. */
  function Trim(s: string): (r: string)
    ensures IsTrimmed(r)
    ensures |r| <= |s|
  {
    TrimEnd(TrimStart(s))
  }

  /** `r` sits in `s` at index `k` with only white space around it. */
  ghost predicate SplitsAt(s: string, r: string, k: int) {
    0 <= k <= |s| - |r| && s[k..k + |r|] == r && AllSpace(s[..k]) && AllSpace(s[k + |r|..])
  }

  /** What trim keeps is a slice of `s` with only white space before and
      after it. */
  lemma TrimSplits(s: string)
    ensures exists k :: SplitsAt(s, Trim(s), k)
  {
    TrimSplitsAtStart(s);
  }

  lemma TrimSplitsAtStart(s: string)
    ensures SplitsAt(s, Trim(s), |s| - |TrimStart(s)|)
  {
    SplitsOfParts(s, TrimStart(s), Trim(s));
  }

  /** White space, then `r`, then white space, read off a suffix `t` of `s`
      and a prefix `r` of `t`. */
  lemma SplitsOfParts(s: string, t: string, r: string)
    requires |t| <= |s| && t == s[|s| - |t|..] && AllSpace(s[..|s| - |t|])
    requires |r| <= |t| && r == t[..|r|] && AllSpace(t[|r|..])
    ensures SplitsAt(s, r, |s| - |t|)
  {
    var k := |s| - |t|;
    assert s[k..k + |r|] == t[..|r|];
    assert s[k + |r|..] == t[|r|..];
  }

  /** Trim is determined by its characterisation: any split of `s` into
      white space, a trimmed core and white space yields that core. */
  lemma TrimUnique(lead: string, core: string, trail: string)
    requires AllSpace(lead) && AllSpace(trail) && IsTrimmed(core)
    ensures Trim(lead + core + trail) == core
  {
    var rest := core + trail;
    assert lead + core + trail == lead + rest;
    TrimStartOf(lead, rest);
    if core == [] {
      assert rest == trail;
      assert TrimStart(lead + rest) == [];
    } else {
      assert rest[0] == core[0];
      assert TrimStart(lead + rest) == rest;
      TrimEndOf(core, trail);
    }
  }

  /** Trimming trimmed text changes nothing. */
  lemma TrimOfTrimmed(s: string)
    requires IsTrimmed(s)
    ensures Trim(s) == s
  {
    TrimUnique([], s, []);
    assert [] + s + [] == s;
  }

  lemma {:induction false} TrimStartOf(lead: string, rest: string)
    requires AllSpace(lead)
    ensures rest == [] || !IsJsSpace(rest[0]) ==> TrimStart(lead + rest) == rest
    ensures AllSpace(rest) ==> TrimStart(lead + rest) == []
    decreases |lead + rest|, |lead|
  {
    if lead == [] {
      assert lead + rest == rest;
      if AllSpace(rest) && rest != [] {
        assert IsJsSpace(rest[0]);
        TrimStartOf([], rest[1..]);
      }
    } else {
      assert IsJsSpace(lead[0]);
      assert (lead + rest)[1..] == lead[1..] + rest;
      TrimStartOf(lead[1..], rest);
    }
  }

  lemma TrimEndOf(core: string, trail: string)
    requires AllSpace(trail) && core != [] && !IsJsSpace(core[|core| - 1])
    ensures TrimEnd(core + trail) == core
  {
    var s := core + trail;
    var r := TrimEnd(s);
    assert r == s[..|core|];
  }

  /** Number of occurrences of `c` in `s`. */
  function Count(s: string, c: char): (n: nat)
    ensures n <= |s|
    ensures n == 0 <==> c !in s
  {
    if s == [] then 0 else (if s[0] == c then 1 else 0) + Count(s[1..], c)
  }

  lemma CountCons(c: char, y: string, d: char)
    ensures Count([c] + y, d) == (if c == d then 1 else 0) + Count(y, d)
  {
    assert ([c] + y)[1..] == y;
  }

  lemma {:induction false} CountConcat(x: string, y: string, c: char)
    ensures Count(x + y, c) == Count(x, c) + Count(y, c)
  {
    if x == [] {
      assert x + y == y;
    } else {
      assert (x + y)[1..] == x[1..] + y;
      CountConcat(x[1..], y, c);
    }
  }
}
