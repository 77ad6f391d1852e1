/**
  * `String.prototype.replace` with a global regular expression and a plain
  * replacement string, for exactly the patterns script.js uses. The scan is
  * the one ECMAScript performs for the `g` flag: try a match at the current
  * position; on a match emit the replacement and resume after it, otherwise
  * copy one character and move on. None of the patterns can match the empty
  * string, so every step makes progress.
  */
module RegexReplace {
  import opened JsString

  datatype Pattern =
    | Char(c: char) // `/c/g` for a single character, e.g. `/&/g`, `/\n/g`
    | CrLf          // `/\r\n/g`
    | BrTag         // `/<br\s*\/?>/gi`
    | ClosingP      // `/<\/p>/gi`
    | AnyTag        // `/<\/?[^>]+(>|$)/g`
    | Nbsp          // `/&nbsp;/g`

  /** The character every match of `p` starts with. */
  function Lead(p: Pattern): char {
    match p
    case Char(c) => c
    case CrLf => '\r'
    case Nbsp => '&'
    case _ => '<'
  }

  /** First index at or after `i` whose character is not white space. */
  function SkipSpaces(s: string, i: nat): (j: nat)
    requires i <= |s|
    ensures i <= j <= |s|
    ensures forall k :: i <= k < j ==> IsJsSpace(s[k])
    ensures j == |s| || !IsJsSpace(s[j])
    decreases |s| - i
  {
    if i < |s| && IsJsSpace(s[i]) then SkipSpaces(s, i + 1) else i
  }

  /** First index at or after `i` holding `>`, or `|s|` when there is none. */
  function FindGt(s: string, i: nat): (j: nat)
    requires i <= |s|
    ensures i <= j <= |s|
    ensures forall k :: i <= k < j ==> s[k] != '>'
    ensures j == |s| || s[j] == '>'
    decreases |s| - i
  {
    if i < |s| && s[i] != '>' then FindGt(s, i + 1) else i
  }

  /** Length of the match of `<br\s*\/?>` (case-insensitive) at the start of
      `s`, 0 when there is none. `\s*` is greedy; giving back white space
      cannot help, because what follows it must be `/` or `>`. */
  function BrTagLen(s: string): (n: nat)
    ensures n <= |s|
  {
    if |s| >= 3 && s[0] == '<' && (s[1] == 'b' || s[1] == 'B') && (s[2] == 'r' || s[2] == 'R') then
      var j := SkipSpaces(s, 3);
      var k := if j < |s| && s[j] == '/' then j + 1 else j;
      if k < |s| && s[k] == '>' then k + 1 else 0
    else 0
  }

  /** Length of the match of `<\/?[^>]+(>|$)` at the start of `s`, 0 when
      there is none. Whether `\/?` takes the slash or `[^>]+` does, the match
      runs to the first `>` (inclusive) or to the end of the input; it needs
      one character other than `>` after the `<`. */
  function AnyTagLen(s: string): (n: nat)
    ensures n <= |s|
  {
    if |s| >= 2 && s[0] == '<' && s[1] != '>' then
      var j := FindGt(s, 1);
      if j < |s| then j + 1 else j
    else 0
  }

  /** Length of the match of `p` at the start of `s`, 0 when there is none. */
  function MatchLen(p: Pattern, s: string): (n: nat)
    ensures n <= |s|
    ensures n > 0 ==> s[0] == Lead(p)
  {
    match p
    case Char(c) => if |s| >= 1 && s[0] == c then 1 else 0
    case CrLf => if |s| >= 2 && s[0] == '\r' && s[1] == '\n' then 2 else 0
    case BrTag => BrTagLen(s)
    case ClosingP =>
      if |s| >= 4 && s[0] == '<' && s[1] == '/' && (s[2] == 'p' || s[2] == 'P') && s[3] == '>' then 4 else 0
    case AnyTag => AnyTagLen(s)
    case Nbsp => if "&nbsp;" <= s then 6 else 0
  }

  /** `s.replace(p, rep)` with the `g` flag. A string in which the pattern
      cannot even start is returned unchanged. */
  function ReplaceAll(s: string, p: Pattern, rep: string): (r: string)
    ensures s != [] && rep != [] ==> r != []
    ensures Lead(p) !in s ==> r == s
    decreases |s|
  {
    if s == [] then []
    else
      var n := MatchLen(p, s);
      if n > 0 then rep + ReplaceAll(s[n..], p, rep)
      else [s[0]] + ReplaceAll(s[1..], p, rep)
  }

  /** Where no match starts, the first character is copied. */
  lemma ReplaceAllNoMatch(c: char, t: string, p: Pattern, rep: string)
    requires MatchLen(p, [c] + t) == 0
    ensures ReplaceAll([c] + t, p, rep) == [c] + ReplaceAll(t, p, rep)
  {
    assert ([c] + t)[1..] == t;
  }

  /** A character that cannot start a match is copied. */
  lemma ReplaceAllCopies(c: char, t: string, p: Pattern, rep: string)
    requires c != Lead(p)
    ensures ReplaceAll([c] + t, p, rep) == [c] + ReplaceAll(t, p, rep)
  {
    assert ([c] + t)[0] == c;
    ReplaceAllNoMatch(c, t, p, rep);
  }

  /** A prefix in which the pattern cannot start is copied unchanged, and the
      scan resumes at its end. */
  lemma {:induction false} ReplaceAllPlainPrefix(x: string, y: string, p: Pattern, rep: string)
    requires Lead(p) !in x
    ensures ReplaceAll(x + y, p, rep) == x + ReplaceAll(y, p, rep)
  {
    if x == [] {
      assert x + y == y;
    } else {
      var c, x' := x[0], x[1..];
      assert x == [c] + x';
      assert Lead(p) !in x';
      calc {
        ReplaceAll(x + y, p, rep);
        { assert x + y == [c] + (x' + y); }
        ReplaceAll([c] + (x' + y), p, rep);
        { ReplaceAllCopies(c, x' + y, p, rep); }
        [c] + ReplaceAll(x' + y, p, rep);
        { ReplaceAllPlainPrefix(x', y, p, rep); }
        [c] + (x' + ReplaceAll(y, p, rep));
        x + ReplaceAll(y, p, rep);
      }
    }
  }

  /** Replacing a single character is a homomorphism on concatenation. */
  lemma {:induction false} ReplaceCharConcat(x: string, y: string, c: char, rep: string)
    ensures ReplaceAll(x + y, Char(c), rep) == ReplaceAll(x, Char(c), rep) + ReplaceAll(y, Char(c), rep)
  {
    if x == [] {
      assert x + y == y;
    } else {
      assert (x + y)[0] == x[0];
      assert (x + y)[1..] == x[1..] + y;
      ReplaceCharConcat(x[1..], y, c, rep);
    }
  }

  /** Replacing a character by text without `d` leaves no `d` behind when
      `d` is the replaced character or was not there to begin with. */
  lemma {:induction false} ReplaceCharAbsent(s: string, c: char, rep: string, d: char)
    requires d !in rep && (d == c || d !in s)
    ensures d !in ReplaceAll(s, Char(c), rep)
    decreases |s|
  {
    if s != [] {
      ReplaceCharAbsent(s[1..], c, rep, d);
    }
  }

  /** Every spelling of a line-break tag `<br>`, `<BR/>`, `<br \t />`, ...
      is replaced by the replacement as a whole, and the scan resumes after
      it. */
  lemma BrVariantReplaced(b: char, r: char, ws: string, slash: string, y: string, rep: string)
    requires b == 'b' || b == 'B'
    requires r == 'r' || r == 'R'
    requires AllSpace(ws)
    requires slash == "" || slash == "/"
    ensures ReplaceAll(['<', b, r] + ws + slash + ">" + y, BrTag, rep) == rep + ReplaceAll(y, BrTag, rep)
  {
    var tail := slash + ">";
    var s := ['<', b, r] + ws + tail + y;
    assert s == ['<', b, r] + ws + slash + ">" + y;
    var j := SkipSpaces(s, 3);
    assert s[3 + |ws|] == tail[0];
    assert j == 3 + |ws|;
    assert MatchLen(BrTag, s) == |['<', b, r] + ws + tail|;
    assert s[MatchLen(BrTag, s)..] == y;
  }

  /** Conversely, every match of the line-break pattern is `<`, `b` or `B`,
      `r` or `R`, white space, an optional `/` and `>`. */
  lemma BrTagMatchIsVariant(s: string)
    requires MatchLen(BrTag, s) > 0
    ensures s[0] == '<' && (s[1] == 'b' || s[1] == 'B') && (s[2] == 'r' || s[2] == 'R')
    ensures exists ws: string, slash: string ::
              AllSpace(ws) && (slash == "" || slash == "/") &&
              s[..MatchLen(BrTag, s)] == s[..3] + ws + slash + ">"
  {
    var j := SkipSpaces(s, 3);
    var k := if j < |s| && s[j] == '/' then j + 1 else j;
    var ws, slash := s[3..j], s[j..k];
    assert s[..MatchLen(BrTag, s)] == s[..3] + ws + slash + ">";
  }

  /** A match of the line-break pattern or of `</p>` ends at a `>`, so text
      after a `>` cannot change whether or how far either matches. */
  lemma MatchLenBeforeGt(p: Pattern, x: string, c: string)
    requires p == BrTag || p == ClosingP
    requires x != [] && x[|x| - 1] == '>'
    ensures MatchLen(p, x + c) == MatchLen(p, x)
  {
    var s := x + c;
    if p == BrTag && |x| >= 4 && s[0] == '<' && (s[1] == 'b' || s[1] == 'B') && (s[2] == 'r' || s[2] == 'R') {
      SkipSpacesBeforeNonSpace(x, c, 3);
    }
  }

  /** Skipping white space stops at the last character of `x` at the latest
      when that character is not white space. */
  lemma {:induction false} SkipSpacesBeforeNonSpace(x: string, c: string, i: nat)
    requires i < |x| && !IsJsSpace(x[|x| - 1])
    ensures SkipSpaces(x + c, i) == SkipSpaces(x, i)
    decreases |x| - i
  {
    assert (x + c)[i] == x[i];
    if IsJsSpace(x[i]) {
      SkipSpacesBeforeNonSpace(x, c, i + 1);
    }
  }

  /** `</p>` and `</P>` are replaced. */
  lemma ClosingPReplaced(p: char, y: string, rep: string)
    requires p == 'p' || p == 'P'
    ensures ReplaceAll(['<', '/', p, '>'] + y, ClosingP, rep) == rep + ReplaceAll(y, ClosingP, rep)
  {
    var s := ['<', '/', p, '>'] + y;
    assert s[4..] == y;
  }

  /** Any `<...>` with a non-empty body free of `>` is removed, and so is an
      unterminated `<...` at the end of the input. */
  lemma TagRemoved(body: string, closed: bool, y: string)
    requires body != [] && '>' !in body
    requires !closed ==> y == []
    ensures ReplaceAll(['<'] + body + (if closed then ">" else "") + y, AnyTag, "") == ReplaceAll(y, AnyTag, "")
  {
    var s := ['<'] + body + (if closed then ">" else "") + y;
    assert s[1] == body[0];
    var j := FindGt(s, 1);
    if closed {
      assert s[1 + |body|] == '>';
    }
    assert j == 1 + |body|;
    assert s[MatchLen(AnyTag, s)..] == y;
  }

  /** No `<` in `s` can start a match of AnyTag: each is the last character
      or is followed by `>`. */
  ghost predicate NoTag(s: string) {
    forall i :: 0 <= i < |s| && s[i] == '<' ==> i == |s| - 1 || s[i + 1] == '>'
  }

  /** After tag removal no tag is left. */
  lemma {:induction false} NoTagLeft(s: string)
    ensures NoTag(ReplaceAll(s, AnyTag, ""))
    decreases |s|
  {
    if s != [] {
      var n := MatchLen(AnyTag, s);
      var r := ReplaceAll(s, AnyTag, "");
      if n > 0 {
        assert r == ReplaceAll(s[n..], AnyTag, "");
        NoTagLeft(s[n..]);
      } else {
        var t := ReplaceAll(s[1..], AnyTag, "");
        assert r == [s[0]] + t;
        NoTagLeft(s[1..]);
        if s[0] == '<' && |s| >= 2 {
          assert s[1] == '>';
          assert MatchLen(AnyTag, s[1..]) == 0;
          assert t[0] == '>';
        }
        forall i | 0 <= i < |r| && r[i] == '<'
          ensures i == |r| - 1 || r[i + 1] == '>'
        {
          if i > 0 {
            assert t[i - 1] == '<';
            assert i - 1 == |t| - 1 || t[i] == '>';
            assert i < |r| - 1 ==> r[i + 1] == t[i];
          } else if |s| >= 2 {
            assert s[0] == '<';
            assert |t| > 0 && t[0] == '>';
            assert r[1] == t[0];
          } else {
            assert s[1..] == [] && t == [];
          }
        }
      }
    }
  }
}
