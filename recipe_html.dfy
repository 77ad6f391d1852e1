/**
  * The recipe text pipeline of script.js: `renderRecipeTextAsHtml` turns
  * plain recipe text into the markup shown in the modal, and
  * `stripHtmlToText` turns that markup back into plain text for the copy and
  * share buttons. Each `String.replace` call of the source is one ReplaceAll
  * step here, in the source's order.
  */
module RecipeHtml {
  import opened JsString
  import opened RegexReplace

  /* ---------------------------------------------------------------------
   * Rendering
   * ------------------------------------------------------------------- */

  /** The escaping step as written: `&` first, then `<`, then `>`. */
  function EscapeHtml(text: string): (r: string)
    ensures '<' !in r && '>' !in r
    ensures '&' !in text && '<' !in text && '>' !in text ==> r == text
  {
    var t1 := ReplaceAll(text, Char('&'), "&amp;");
    var t2 := ReplaceAll(t1, Char('<'), "&lt;");
    ReplaceCharAbsent(t1, '<', "&lt;", '<');
    ReplaceCharAbsent(t2, '>', "&gt;", '<');
    ReplaceCharAbsent(t2, '>', "&gt;", '>');
    ReplaceAll(t2, Char('>'), "&gt;")
  }

  /** Reference definition of escaping, one character at a time. */
  function EscapeChar(c: char): string {
    if c == '&' then "&amp;" else if c == '<' then "&lt;" else if c == '>' then "&gt;" else [c]
  }

  function EscapeChars(s: string): (r: string)
    ensures '<' !in r && '>' !in r
    ensures |r| >= |s|
  {
    if s == [] then [] else EscapeChar(s[0]) + EscapeChars(s[1..])
  }

  /** `.replace(/\r\n/g, '\n')`: each CRLF pair gives one line feed, so
      no line feed is lost or added. */
  function CrlfToLf(s: string): (r: string)
    ensures '\r' !in s ==> r == s
    ensures Count(r, '\n') == Count(s, '\n')
  {
    CrlfKeepsLineFeeds(s);
    ReplaceAll(s, CrLf, "\n")
  }

  lemma {:induction false} CrlfKeepsLineFeeds(s: string)
    ensures Count(ReplaceAll(s, CrLf, "\n"), '\n') == Count(s, '\n')
    decreases |s|
  {
    if s != [] {
      var r := ReplaceAll(s, CrLf, "\n");
      CountCons(s[0], s[1..], '\n');
      HeadShape(s);
      if MatchLen(CrLf, s) > 0 {
        CrlfKeepsLineFeeds(s[2..]);
        HeadShape(s[1..]);
        CountCons(s[1], s[2..], '\n');
        CountCons('\n', ReplaceAll(s[2..], CrLf, "\n"), '\n');
        assert r == "\n" + ReplaceAll(s[2..], CrLf, "\n");
      } else {
        CrlfKeepsLineFeeds(s[1..]);
        CountCons(s[0], ReplaceAll(s[1..], CrLf, "\n"), '\n');
        assert r == [s[0]] + ReplaceAll(s[1..], CrLf, "\n");
      }
    }
  }

  /** `.replace(/\n/g, '<br>')` */
  function BreakLines(s: string): (r: string)
    ensures '\n' !in r
    ensures '\n' !in s ==> r == s
  {
    ReplaceCharAbsent(s, '\n', "<br>", '\n');
    ReplaceAll(s, Char('\n'), "<br>")
  }

  /** `renderRecipeTextAsHtml`: empty text renders as the empty string;
      otherwise escape, normalise CRLF, and turn each line feed into `<br>`. */
  function RenderRecipeTextAsHtml(text: string): (html: string)
    ensures html == [] <==> text == []
  {
    if text == [] then []
    else BreakLines(CrlfToLf(EscapeHtml(text)))
  }

  /** The placeholder openModal shows when there is no recipe text. */
  const PlaceholderMessage: string := "Receita não disponível para este item."
  const Placeholder: string := "<em>" + PlaceholderMessage + "</em>"

  /* ---------------------------------------------------------------------
   * Stripping
   * ------------------------------------------------------------------- */

  /** Newline normalisation of the HTML parser's input stream: each CRLF
      pair becomes LF, then each remaining CR becomes LF. */
  function NormalizeNewlines(s: string): (r: string)
    ensures '\r' !in r
    ensures '\r' !in s ==> r == s
  {
    ReplaceCharAbsent(CrlfToLf(s), '\r', "\n", '\r');
    ReplaceAll(CrlfToLf(s), Char('\r'), "\n")
  }

  /** Single left-to-right decoding of the three entities escaping
      produces; text produced by a decoding is not decoded again. */
  function DecodeEntities(s: string): (r: string)
    ensures '&' !in s ==> r == s
    decreases |s|
  {
    if s == [] then []
    else if s[0] == '&' && "&amp;" <= s then "&" + DecodeEntities(s[5..])
    else if s[0] == '&' && "&lt;" <= s then "<" + DecodeEntities(s[4..])
    else if s[0] == '&' && "&gt;" <= s then ">" + DecodeEntities(s[4..])
    else [s[0]] + DecodeEntities(s[1..])
  }

  /** `ta.innerHTML = s; ta.value` for a fresh textarea: the markup is parsed
      as text (newlines normalised, entities decoded). */
  function TextareaValue(s: string): (r: string)
    ensures '\r' !in r
    ensures '&' !in s && '\r' !in s ==> r == s
  {
    DecodeKeepsAbsent(NormalizeNewlines(s), '\r');
    DecodeEntities(NormalizeNewlines(s))
  }

  /** Decoding introduces no character other than `&`, `<` and `>`. */
  lemma {:induction false} DecodeKeepsAbsent(s: string, d: char)
    requires d !in s && d != '&' && d != '<' && d != '>'
    ensures d !in DecodeEntities(s)
    decreases |s|
  {
    if s != [] {
      if s[0] == '&' && "&amp;" <= s {
        DecodeKeepsAbsent(s[5..], d);
      } else if s[0] == '&' && ("&lt;" <= s || "&gt;" <= s) {
        DecodeKeepsAbsent(s[4..], d);
      } else {
        DecodeKeepsAbsent(s[1..], d);
      }
    }
  }

  /** `stripHtmlToText`: empty markup gives the empty string; otherwise line
      breaks and paragraph ends become newlines, other tags are dropped,
      `&nbsp;` becomes a space, entities are decoded and the result trimmed. */
  function StripHtmlToText(html: string): (text: string)
    ensures html == [] ==> text == []
    ensures IsTrimmed(text)
  {
    if html == [] then []
    else
      var t1 := ReplaceAll(html, BrTag, "\n");
      var t2 := ReplaceAll(t1, ClosingP, "\n");
      var t3 := ReplaceAll(t2, AnyTag, "");
      var t4 := ReplaceAll(t3, Nbsp, " ");
      Trim(TextareaValue(t4))
  }

  /* ---------------------------------------------------------------------
   * Escaping
   * ------------------------------------------------------------------- */

  lemma ReplaceCharSingle(x: char, c: char, rep: string)
    ensures ReplaceAll([x], Char(c), rep) == if x == c then rep else [x]
  {
    assert [x][1..] == [];
  }

  lemma {:induction false} EscapeCharsConcat(x: string, y: string)
    ensures EscapeChars(x + y) == EscapeChars(x) + EscapeChars(y)
  {
    if x == [] {
      assert x + y == y;
    } else {
      assert (x + y)[0] == x[0];
      assert (x + y)[1..] == x[1..] + y;
      EscapeCharsConcat(x[1..], y);
    }
  }

  lemma EscapeCharsCons(c: char, y: string)
    ensures EscapeChars([c] + y) == EscapeChar(c) + EscapeChars(y)
  {
    assert ([c] + y)[1..] == y;
  }

  /** The chain of three replacements distributes over concatenation. */
  lemma EscapeHtmlConcat(x: string, y: string)
    ensures EscapeHtml(x + y) == EscapeHtml(x) + EscapeHtml(y)
  {
    ReplaceCharConcat(x, y, '&', "&amp;");
    var x1, y1 := ReplaceAll(x, Char('&'), "&amp;"), ReplaceAll(y, Char('&'), "&amp;");
    ReplaceCharConcat(x1, y1, '<', "&lt;");
    var x2, y2 := ReplaceAll(x1, Char('<'), "&lt;"), ReplaceAll(y1, Char('<'), "&lt;");
    ReplaceCharConcat(x2, y2, '>', "&gt;");
  }

  /** On one character the chain of replacements is EscapeChar: the `&` of
      an inserted entity is never escaped again. */
  lemma EscapeHtmlChar(c: char)
    ensures EscapeHtml([c]) == EscapeChar(c)
  {
    ReplaceCharSingle(c, '&', "&amp;");
    if c == '&' {
      assert '<' !in "&amp;" && '>' !in "&amp;";
    } else {
      ReplaceCharSingle(c, '<', "&lt;");
      if c == '<' {
        assert '>' !in "&lt;";
      } else {
        ReplaceCharSingle(c, '>', "&gt;");
      }
    }
  }

  /** Because `&` is escaped first, the chain of three replacements escapes
      each character exactly once. */
  lemma {:induction false} EscapeHtmlIsPerChar(s: string)
    ensures EscapeHtml(s) == EscapeChars(s)
  {
    if s != [] {
      var c, rest := s[0], s[1..];
      calc {
        EscapeHtml(s);
        { assert s == [c] + rest; }
        EscapeHtml([c] + rest);
        { EscapeHtmlConcat([c], rest); }
        EscapeHtml([c]) + EscapeHtml(rest);
        { EscapeHtmlChar(c); EscapeHtmlIsPerChar(rest); }
        EscapeChar(c) + EscapeChars(rest);
        { EscapeCharsCons(c, rest); assert s == [c] + rest; }
        EscapeChars(s);
      }
    }
  }

  /** A CRLF pair becomes one line feed. */
  lemma CrlfMatched(t: string)
    ensures CrlfToLf("\r\n" + t) == "\n" + CrlfToLf(t)
  {
    var s := "\r\n" + t;
    assert s[0] == '\r' && s[1] == '\n' && s[2..] == t;
  }

  /** A CR not followed by a line feed is copied. */
  lemma CrlfLoneCr(t: string)
    requires t == [] || t[0] != '\n'
    ensures CrlfToLf("\r" + t) == "\r" + CrlfToLf(t)
  {
    var s := "\r" + t;
    assert s[0] == '\r' && s[1..] == t;
    assert MatchLen(CrLf, s) == 0;
    ReplaceAllNoMatch('\r', t, CrLf, "\n");
  }

  /** CRLF normalisation commutes with escaping (escaping leaves CR and LF
      alone), so render's order of the two steps does not matter. */
  lemma {:induction false} CrlfCommutesWithEscape(s: string)
    ensures CrlfToLf(EscapeChars(s)) == EscapeChars(CrlfToLf(s))
    decreases |s|
  {
    if s != [] {
      if s[0] == '\r' && |s| >= 2 && s[1] == '\n' {
        CrlfCommutesWithEscape(s[2..]);
        CrlfPairStep(s);
      } else if s[0] == '\r' {
        CrlfCommutesWithEscape(s[1..]);
        CrlfLoneCrStep(s);
      } else {
        CrlfCommutesWithEscape(s[1..]);
        CrlfOtherStep(s);
      }
    }
  }

  lemma EscapeCrlf(s2: string)
    ensures EscapeChars("\r\n" + s2) == "\r\n" + EscapeChars(s2)
  {
    CrlfConsShape(s2);
    EscapeLoneCr("\n" + s2);
    EscapeCharsCons('\n', s2);
    CrlfConsShape(EscapeChars(s2));
  }

  lemma CrlfConsShape(t: string)
    ensures "\r\n" + t == "\r" + ("\n" + t)
  {
  }

  lemma CrlfPairOn(s2: string)
    requires CrlfToLf(EscapeChars(s2)) == EscapeChars(CrlfToLf(s2))
    ensures CrlfToLf(EscapeChars("\r\n" + s2)) == EscapeChars(CrlfToLf("\r\n" + s2))
  {
    EscapeThenCrlfPair(s2);
    CrlfPairThenEscape(s2);
  }

  lemma EscapeThenCrlfPair(s2: string)
    ensures CrlfToLf(EscapeChars("\r\n" + s2)) == "\n" + CrlfToLf(EscapeChars(s2))
  {
    EscapeCrlf(s2);
    CrlfMatched(EscapeChars(s2));
  }

  lemma CrlfPairThenEscape(s2: string)
    ensures EscapeChars(CrlfToLf("\r\n" + s2)) == "\n" + EscapeChars(CrlfToLf(s2))
  {
    CrlfMatched(s2);
    EscapeCharsCons('\n', CrlfToLf(s2));
  }

  lemma EscapeLoneCr(s1: string)
    ensures EscapeChars("\r" + s1) == "\r" + EscapeChars(s1)
  {
    EscapeCharsCons('\r', s1);
  }

  lemma CrlfLoneCrOn(s1: string)
    requires s1 == [] || s1[0] != '\n'
    requires CrlfToLf(EscapeChars(s1)) == EscapeChars(CrlfToLf(s1))
    ensures CrlfToLf(EscapeChars("\r" + s1)) == EscapeChars(CrlfToLf("\r" + s1))
  {
    EscapedHead(s1);
    EscapeLoneCr(s1);
    CrlfLoneCr(EscapeChars(s1));
    CrlfLoneCr(s1);
    EscapeLoneCr(CrlfToLf(s1));
  }

  lemma CrlfPairStep(s: string)
    requires |s| >= 2 && s[0] == '\r' && s[1] == '\n'
    requires CrlfToLf(EscapeChars(s[2..])) == EscapeChars(CrlfToLf(s[2..]))
    ensures CrlfToLf(EscapeChars(s)) == EscapeChars(CrlfToLf(s))
  {
    PairShape(s);
    CrlfPairOn(s[2..]);
  }

  lemma CrlfLoneCrStep(s: string)
    requires s != [] && s[0] == '\r' && !(|s| >= 2 && s[1] == '\n')
    requires CrlfToLf(EscapeChars(s[1..])) == EscapeChars(CrlfToLf(s[1..]))
    ensures CrlfToLf(EscapeChars(s)) == EscapeChars(CrlfToLf(s))
  {
    HeadShape(s);
    assert [s[0]] == "\r";
    CrlfLoneCrOn(s[1..]);
  }

  lemma CrlfOtherStep(s: string)
    requires s != [] && s[0] != '\r'
    requires CrlfToLf(EscapeChars(s[1..])) == EscapeChars(CrlfToLf(s[1..]))
    ensures CrlfToLf(EscapeChars(s)) == EscapeChars(CrlfToLf(s))
  {
    HeadShape(s);
    CrlfOtherOn(s[0], s[1..]);
  }

  lemma PairShape(s: string)
    requires |s| >= 2 && s[0] == '\r' && s[1] == '\n'
    ensures s == "\r\n" + s[2..]
  {
  }

  lemma HeadShape(s: string)
    requires s != []
    ensures s == [s[0]] + s[1..]
  {
  }

  /** Escaped text starts with a line feed exactly when the text does. */
  lemma EscapedHead(s: string)
    ensures var e := EscapeChars(s);
      (e != [] && e[0] == '\n') <==> (s != [] && s[0] == '\n')
  {
    if s != [] {
      var e := EscapeChars(s);
      var h := EscapeChar(s[0]);
      assert e == h + EscapeChars(s[1..]);
      assert h[0] == '\n' <==> s[0] == '\n';
      assert e[0] == h[0];
    }
  }

  lemma CrlfOtherOn(c: char, rest: string)
    requires c != '\r'
    requires CrlfToLf(EscapeChars(rest)) == EscapeChars(CrlfToLf(rest))
    ensures CrlfToLf(EscapeChars([c] + rest)) == EscapeChars(CrlfToLf([c] + rest))
  {
    EscapeThenCrlfOther(c, rest);
    CrlfOtherThenEscape(c, rest);
  }

  lemma EscapeThenCrlfOther(c: char, rest: string)
    requires c != '\r'
    ensures CrlfToLf(EscapeChars([c] + rest)) == EscapeChar(c) + CrlfToLf(EscapeChars(rest))
  {
    assert '\r' !in EscapeChar(c);
    EscapeCharsCons(c, rest);
    ReplaceAllPlainPrefix(EscapeChar(c), EscapeChars(rest), CrLf, "\n");
  }

  lemma CrlfOtherThenEscape(c: char, rest: string)
    requires c != '\r'
    ensures EscapeChars(CrlfToLf([c] + rest)) == EscapeChar(c) + EscapeChars(CrlfToLf(rest))
  {
    ReplaceAllCopies(c, rest, CrLf, "\n");
    EscapeCharsCons(c, CrlfToLf(rest));
  }

  lemma CrOnEscapedChar(c: char)
    ensures ReplaceAll(EscapeChar(c), Char('\r'), "\n") == EscapeChars(ReplaceAll([c], Char('\r'), "\n"))
  {
    ReplaceCharSingle(c, '\r', "\n");
    if c == '\r' {
      EscapeCharsCons('\n', []);
    } else {
      EscapeCharsCons(c, []);
    }
  }

  /** Turning each lone CR into LF commutes with escaping. */
  lemma {:induction false} CrCommutesWithEscape(s: string)
    ensures ReplaceAll(EscapeChars(s), Char('\r'), "\n") == EscapeChars(ReplaceAll(s, Char('\r'), "\n"))
  {
    if s != [] {
      var c, rest := s[0], s[1..];
      assert s == [c] + rest;
      ReplaceCharConcat(EscapeChar(c), EscapeChars(rest), '\r', "\n");
      ReplaceCharConcat([c], rest, '\r', "\n");
      EscapeCharsConcat(ReplaceAll([c], Char('\r'), "\n"), ReplaceAll(rest, Char('\r'), "\n"));
      CrOnEscapedChar(c);
      CrCommutesWithEscape(rest);
    }
  }

  lemma NormalizeCommutesWithEscape(s: string)
    ensures NormalizeNewlines(EscapeChars(s)) == EscapeChars(NormalizeNewlines(s))
  {
    CrlfCommutesWithEscape(s);
    CrCommutesWithEscape(CrlfToLf(s));
  }

  /* ---------------------------------------------------------------------
   * Stripping rendered markup
   * ------------------------------------------------------------------- */

  /** Every `<br>` inserted by BreakLines is turned back into one LF. */
  lemma {:induction false} BrTagsUndoBreakLines(x: string)
    requires '<' !in x
    ensures ReplaceAll(BreakLines(x), BrTag, "\n") == x
  {
    if x != [] {
      var c, x' := x[0], x[1..];
      assert x == [c] + x';
      if c == '\n' {
        BrStepLf(x');
      } else {
        BrStepPlain(c, x');
      }
      BrTagsUndoBreakLines(x');
    }
  }

  lemma BrStepLf(x': string)
    ensures ReplaceAll(BreakLines("\n" + x'), BrTag, "\n") == "\n" + ReplaceAll(BreakLines(x'), BrTag, "\n")
  {
    var rest := BreakLines(x');
    assert ("\n" + x')[1..] == x';
    assert BreakLines("\n" + x') == "<br>" + rest;
    assert "<br>" + rest == ['<', 'b', 'r'] + "" + "" + ">" + rest;
    BrVariantReplaced('b', 'r', "", "", rest, "\n");
  }

  lemma BrStepPlain(c: char, x': string)
    requires c != '\n' && c != '<'
    ensures ReplaceAll(BreakLines([c] + x'), BrTag, "\n") == [c] + ReplaceAll(BreakLines(x'), BrTag, "\n")
  {
    ReplaceAllCopies(c, x', Char('\n'), "<br>");
    ReplaceAllCopies(c, BreakLines(x'), BrTag, "\n");
  }

  /** An `&` not followed by `n`, then text without `&`, is copied whole by
      the `&nbsp;` replacement. */
  lemma AmpersandNotNbsp(e1: string, rest: string)
    requires e1 != [] && e1[0] != 'n' && '&' !in e1
    ensures ReplaceAll(['&'] + e1 + rest, Nbsp, " ") == ['&'] + e1 + ReplaceAll(rest, Nbsp, " ")
  {
    var t := e1 + rest;
    assert MatchLen(Nbsp, ['&'] + t) == 0 by {
      assert "&nbsp;"[1] == 'n' && (['&'] + t)[1] == e1[0];
    }
    calc {
      ReplaceAll(['&'] + e1 + rest, Nbsp, " ");
      { assert ['&'] + e1 + rest == ['&'] + t; }
      ReplaceAll(['&'] + t, Nbsp, " ");
      { ReplaceAllNoMatch('&', t, Nbsp, " "); }
      ['&'] + ReplaceAll(t, Nbsp, " ");
      { ReplaceAllPlainPrefix(e1, rest, Nbsp, " "); }
      ['&'] + (e1 + ReplaceAll(rest, Nbsp, " "));
      ['&'] + e1 + ReplaceAll(rest, Nbsp, " ");
    }
  }

  /** An entity produced by escaping is never mistaken for `&nbsp;`. */
  lemma EntityNotNbsp(e: string, rest: string)
    requires e == "&amp;" || e == "&lt;" || e == "&gt;"
    ensures ReplaceAll(e + rest, Nbsp, " ") == e + ReplaceAll(rest, Nbsp, " ")
  {
    var e1 := e[1..];
    assert e == ['&'] + e1;
    assert e1 == "amp;" || e1 == "lt;" || e1 == "gt;";
    AmpersandNotNbsp(e1, rest);
  }

  lemma NbspSkipsEscape(c: char, rest: string)
    ensures ReplaceAll(EscapeChar(c) + rest, Nbsp, " ") == EscapeChar(c) + ReplaceAll(rest, Nbsp, " ")
  {
    if c == '&' || c == '<' || c == '>' {
      EntityNotNbsp(EscapeChar(c), rest);
    } else {
      ReplaceAllCopies(c, rest, Nbsp, " ");
    }
  }

  lemma {:induction false} NbspAbsentFromEscaped(s: string)
    ensures ReplaceAll(EscapeChars(s), Nbsp, " ") == EscapeChars(s)
  {
    if s != [] {
      NbspSkipsEscape(s[0], EscapeChars(s[1..]));
      NbspAbsentFromEscaped(s[1..]);
    }
  }

  /** Decoding undoes escaping: the decoder is the left inverse of the
      escaping step. */
  lemma {:induction false} DecodeInvertsEscape(s: string)
    ensures DecodeEntities(EscapeChars(s)) == s
  {
    if s != [] {
      var c, rest := s[0], EscapeChars(s[1..]);
      var e := EscapeChar(c) + rest;
      if c == '&' {
        assert "&amp;" <= e;
        assert e[5..] == rest;
      } else if c == '<' {
        assert !("&amp;" <= e) by { assert e[1] != 'm'; }
        assert "&lt;" <= e;
        assert e[4..] == rest;
      } else if c == '>' {
        assert !("&amp;" <= e) by { assert e[1] != 'm'; }
        assert !("&lt;" <= e) by { assert e[1] != 'l'; }
        assert "&gt;" <= e;
        assert e[4..] == rest;
      } else {
        assert e[0] == c;
        assert e[1..] == rest;
      }
      DecodeInvertsEscape(s[1..]);
      assert s == [c] + s[1..];
    }
  }

  /** After CRLF normalisation, render is escaping followed by BreakLines. */
  lemma RenderIsPerChar(text: string)
    ensures RenderRecipeTextAsHtml(text) == BreakLines(EscapeChars(CrlfToLf(text)))
  {
    if text != [] {
      EscapeHtmlIsPerChar(text);
      CrlfCommutesWithEscape(text);
    }
  }

  /** The round trip: stripping the rendered markup gives back the recipe
      text with its line breaks normalised and its ends trimmed. */
  lemma RoundTrip(text: string)
    ensures StripHtmlToText(RenderRecipeTextAsHtml(text)) == Trim(NormalizeNewlines(CrlfToLf(text)))
  {
    if text == [] {
      assert NormalizeNewlines(CrlfToLf(text)) == [];
      TrimUnique([], [], []);
    } else {
      var u := CrlfToLf(text);
      var x := EscapeChars(u);
      RenderIsPerChar(text);
      var html := RenderRecipeTextAsHtml(text);
      BrTagsUndoBreakLines(x);
      var t1 := ReplaceAll(html, BrTag, "\n");
      assert t1 == x;
      assert ReplaceAll(t1, ClosingP, "\n") == x;
      assert ReplaceAll(x, AnyTag, "") == x;
      NbspAbsentFromEscaped(u);
      NormalizeCommutesWithEscape(u);
      DecodeInvertsEscape(NormalizeNewlines(u));
      assert TextareaValue(x) == NormalizeNewlines(u);
    }
  }

  /** For recipe text without carriage returns the round trip is exactly
      `text.trim()`. */
  lemma RoundTripWithoutCr(text: string)
    requires '\r' !in text
    ensures StripHtmlToText(RenderRecipeTextAsHtml(text)) == Trim(text)
  {
    RoundTrip(text);
    assert CrlfToLf(text) == text;
    assert NormalizeNewlines(text) == text;
  }

  /* ---------------------------------------------------------------------
   * Shape of the rendered markup
   * ------------------------------------------------------------------- */

  ghost predicate EntityAt(h: string, i: nat)
    requires i < |h|
  {
    "&amp;" <= h[i..] || "&lt;" <= h[i..] || "&gt;" <= h[i..]
  }

  /** What may stand at index `i` of rendered markup: never a line feed; a
      `<` only as the start of `<br>`, a `>` only as its end, and a `&` only
      as the start of `&amp;`, `&lt;` or `&gt;`. */
  ghost predicate SafeAt(h: string, i: nat)
    requires i < |h|
  {
    h[i] != '\n' &&
    (h[i] == '<' ==> "<br>" <= h[i..]) &&
    (h[i] == '>' ==> 3 <= i && h[i - 3..i + 1] == "<br>") &&
    (h[i] == '&' ==> EntityAt(h, i))
  }

  ghost predicate MarkupSafe(h: string) {
    forall i :: 0 <= i < |h| ==> SafeAt(h, i)
  }

  lemma MarkupSafeConcat(x: string, y: string)
    requires MarkupSafe(x) && MarkupSafe(y)
    ensures MarkupSafe(x + y)
  {
    forall i | 0 <= i < |x + y|
      ensures SafeAt(x + y, i)
    {
      if i < |x| {
        SafeAtLeft(x, y, i);
      } else {
        SafeAtRight(x, y, i - |x|);
      }
    }
  }

  /** A safe position of `x` stays safe when text is appended. */
  lemma SafeAtLeft(x: string, y: string, i: nat)
    requires i < |x| && SafeAt(x, i)
    ensures SafeAt(x + y, i)
  {
    var h := x + y;
    assert h[i..] == x[i..] + y;
    if x[i] == '>' {
      assert h[i - 3..i + 1] == x[i - 3..i + 1];
    }
  }

  /** A safe position of `y` stays safe when text is prepended. */
  lemma SafeAtRight(x: string, y: string, j: nat)
    requires j < |y| && SafeAt(y, j)
    ensures SafeAt(x + y, |x| + j)
  {
    var h, i := x + y, |x| + j;
    assert h[i..] == y[j..];
    if y[j] == '>' {
      assert h[i - 3..i + 1] == y[j - 3..j + 1];
    }
  }

  lemma BrIsSafe()
    ensures MarkupSafe("<br>") && Count("<br>", '<') == 1
  {
    var h := "<br>";
    assert SafeAt(h, 0) && SafeAt(h, 1) && SafeAt(h, 2);
    assert h[0..4] == "<br>";
    assert SafeAt(h, 3);
  }

  lemma EntityIsSafe(e: string)
    requires e == "&amp;" || e == "&lt;" || e == "&gt;"
    ensures MarkupSafe(e) && Count(e, '<') == 0
  {
    assert e[0..] == e;
    assert SafeAt(e, 0);
  }

  /** The markup one character of (CRLF-normalised) recipe text becomes. */
  lemma RenderedChar(c: char)
    ensures var h := BreakLines(EscapeChar(c));
      MarkupSafe(h) && Count(h, '<') == (if c == '\n' then 1 else 0)
  {
    if c == '\n' {
      ReplaceCharSingle('\n', '\n', "<br>");
      BrIsSafe();
    } else if c == '&' || c == '<' || c == '>' {
      var e := EscapeChar(c);
      assert '\n' !in e;
      EntityIsSafe(e);
    } else {
      ReplaceCharSingle(c, '\n', "<br>");
      assert SafeAt([c], 0);
    }
  }

  lemma {:induction false} RenderedCharsSafe(u: string)
    ensures var h := BreakLines(EscapeChars(u));
      MarkupSafe(h) && Count(h, '<') == Count(u, '\n')
  {
    if u != [] {
      var a, b := EscapeChar(u[0]), EscapeChars(u[1..]);
      ReplaceCharConcat(a, b, '\n', "<br>");
      RenderedChar(u[0]);
      RenderedCharsSafe(u[1..]);
      MarkupSafeConcat(BreakLines(a), BreakLines(b));
      CountConcat(BreakLines(a), BreakLines(b), '<');
    }
  }

  /** Escaping leaves no markup of the recipe's own: the only `<`/`>` of the
      output belong to inserted `<br>` tags, every `&` starts an entity, and
      no line feed is left. */
  lemma RenderMarkupSafe(text: string)
    ensures MarkupSafe(RenderRecipeTextAsHtml(text))
  {
    if text != [] {
      RenderIsPerChar(text);
      RenderedCharsSafe(CrlfToLf(text));
    }
  }

  /** One `<br>` per line feed of the CRLF-normalised text (each `<` of the
      output starts a `<br>`, by RenderMarkupSafe). */
  lemma RenderBrCount(text: string)
    ensures Count(RenderRecipeTextAsHtml(text), '<') == Count(CrlfToLf(text), '\n')
  {
    if text != [] {
      RenderIsPerChar(text);
      RenderedCharsSafe(CrlfToLf(text));
    }
  }

  /* ---------------------------------------------------------------------
   * Single instances
   * ------------------------------------------------------------------- */

  /** Decoding is a single pass: `&amp;lt;` yields `&lt;`, not `<`. */
  lemma DecodeIsSinglePass()
    ensures DecodeEntities("&amp;lt;") == "&lt;"
  {
    var s := "&amp;lt;";
    assert "&amp;" <= s;
    assert s[5..] == "lt;";
    assert DecodeEntities("lt;") == "lt;" by {
      assert "lt;"[1..] == "t;";
      assert "t;"[1..] == ";";
      assert ";"[1..] == [];
    }
  }

  /* ---------------------------------------------------------------------
   * Stripping other markup
   * ------------------------------------------------------------------- */

  /** Text with no markup, no entity and no carriage return. */
  predicate Plain(s: string) {
    '<' !in s && '&' !in s && '\r' !in s
  }

  /** The textarea gives plain text back unchanged. */
  lemma TextOfPlain(x: string)
    requires Plain(x)
    ensures TextareaValue(ReplaceAll(x, Nbsp, " ")) == x
  {
    assert Lead(Nbsp) !in x && ReplaceAll(x, Nbsp, " ") == x;
    assert Lead(CrLf) !in x && CrlfToLf(x) == x;
    assert NormalizeNewlines(x) == x;
    assert DecodeEntities(x) == x;
  }

  /** The steps after line-break replacement leave plain text alone. */
  lemma StripTailOfPlain(x: string)
    requires Plain(x)
    ensures var t2 := ReplaceAll(x, ClosingP, "\n");
      var t3 := ReplaceAll(t2, AnyTag, "");
      Trim(TextareaValue(ReplaceAll(t3, Nbsp, " "))) == Trim(x)
  {
    assert Lead(ClosingP) !in x && Lead(AnyTag) !in x;
    assert ReplaceAll(x, ClosingP, "\n") == x;
    assert ReplaceAll(x, AnyTag, "") == x;
    TextOfPlain(x);
  }

  /** Every spelling of the line-break tag between two pieces of plain text
      becomes one line feed. */
  lemma StripBrVariant(a: string, b: char, r: char, ws: string, slash: string, c: string)
    requires Plain(a) && Plain(c)
    requires b == 'b' || b == 'B'
    requires r == 'r' || r == 'R'
    requires AllSpace(ws)
    requires slash == "" || slash == "/"
    ensures StripHtmlToText(a + ['<', b, r] + ws + slash + ">" + c) == Trim(a + "\n" + c)
  {
    BrVariantBetweenPlain(a, b, r, ws, slash, c);
    StripTailOfPlain(a + "\n" + c);
  }

  lemma BrVariantBetweenPlain(a: string, b: char, r: char, ws: string, slash: string, c: string)
    requires Plain(a) && Plain(c)
    requires b == 'b' || b == 'B'
    requires r == 'r' || r == 'R'
    requires AllSpace(ws)
    requires slash == "" || slash == "/"
    ensures ReplaceAll(a + ['<', b, r] + ws + slash + ">" + c, BrTag, "\n") == a + "\n" + c
  {
    var tag := ['<', b, r] + ws + slash + ">";
    calc {
      ReplaceAll(a + ['<', b, r] + ws + slash + ">" + c, BrTag, "\n");
      { assert a + ['<', b, r] + ws + slash + ">" + c == a + (tag + c); }
      ReplaceAll(a + (tag + c), BrTag, "\n");
      { ReplaceAllPlainPrefix(a, tag + c, BrTag, "\n"); }
      a + ReplaceAll(tag + c, BrTag, "\n");
      { BrVariantReplaced(b, r, ws, slash, c, "\n"); }
      a + ("\n" + ReplaceAll(c, BrTag, "\n"));
      { assert Lead(BrTag) !in c; }
      a + ("\n" + c);
      a + "\n" + c;
    }
  }

  /** The line-break step leaves a closing paragraph tag alone. */
  lemma ClosingPKeptByBr(p: char, c: string)
    requires p == 'p' || p == 'P'
    requires '<' !in c
    ensures ReplaceAll(['<', '/', p, '>'] + c, BrTag, "\n") == ['<', '/', p, '>'] + c
  {
    var t := ['/', p, '>'] + c;
    assert ['<', '/', p, '>'] + c == ['<'] + t;
    assert (['<'] + t)[1] == '/';
    assert MatchLen(BrTag, ['<'] + t) == 0;
    ReplaceAllNoMatch('<', t, BrTag, "\n");
    assert Lead(BrTag) !in t;
  }

  /** `&nbsp;` between two pieces of plain text becomes one space. */
  lemma StripNbsp(a: string, c: string)
    requires Plain(a) && Plain(c)
    ensures StripHtmlToText(a + "&nbsp;" + c) == Trim(a + " " + c)
  {
    var html := a + "&nbsp;" + c;
    assert html == a + ("&nbsp;" + c);
    assert Lead(BrTag) !in html && Lead(ClosingP) !in html && Lead(AnyTag) !in html;
    ReplaceAllPlainPrefix(a, "&nbsp;" + c, Nbsp, " ");
    NbspStep(c);
    assert a + (" " + c) == a + " " + c;
    TextOfPlain(a + " " + c);
  }

  /** `&nbsp;` at the front is replaced by a space. */
  lemma NbspStep(c: string)
    requires '&' !in c
    ensures ReplaceAll("&nbsp;" + c, Nbsp, " ") == " " + c
  {
    var s := "&nbsp;" + c;
    assert "&nbsp;" <= s && s[6..] == c;
  }

  /** A closing paragraph tag between two pieces of plain text becomes one
      line feed. */
  lemma StripClosingP(a: string, p: char, c: string)
    requires Plain(a) && Plain(c)
    requires p == 'p' || p == 'P'
    ensures StripHtmlToText(a + ['<', '/', p, '>'] + c) == Trim(a + "\n" + c)
  {
    var tag := ['<', '/', p, '>'];
    var html := a + tag + c;
    calc {
      ReplaceAll(html, BrTag, "\n");
      { assert html == a + (tag + c); }
      ReplaceAll(a + (tag + c), BrTag, "\n");
      { ReplaceAllPlainPrefix(a, tag + c, BrTag, "\n"); }
      a + ReplaceAll(tag + c, BrTag, "\n");
      { ClosingPKeptByBr(p, c); }
      a + (tag + c);
    }
    calc {
      ReplaceAll(a + (tag + c), ClosingP, "\n");
      { ReplaceAllPlainPrefix(a, tag + c, ClosingP, "\n"); }
      a + ReplaceAll(tag + c, ClosingP, "\n");
      { ClosingPReplaced(p, c, "\n"); }
      a + ("\n" + ReplaceAll(c, ClosingP, "\n"));
      { assert Lead(ClosingP) !in c; }
      a + "\n" + c;
    }
    StripTailOfPlain(a + "\n" + c);
  }

  /** A tag `<body>` in which neither the line-break pattern nor `</p>`
      matches at any position, such as `<em>`, `</em>`, `<b>` or `<a<b>`:
      the two replacement steps before tag removal copy it. */
  predicate OtherTagBody(body: string) {
    body != [] && '>' !in body &&
    forall i :: 0 <= i < |"<" + body + ">"| ==>
      MatchLen(BrTag, ("<" + body + ">")[i..]) == 0 && MatchLen(ClosingP, ("<" + body + ">")[i..]) == 0
  }

  /** A body without markup characters that does not start with `b` or `B`
      and is not `/p` or `/P` is such a body. */
  lemma PlainTagBody(body: string)
    requires body != [] && '<' !in body && '>' !in body
    requires body[0] != 'b' && body[0] != 'B' && body != "/p" && body != "/P"
    ensures OtherTagBody(body)
  {
    var u := "<" + body + ">";
    forall i | 0 <= i < |u|
      ensures MatchLen(BrTag, u[i..]) == 0 && MatchLen(ClosingP, u[i..]) == 0
    {
      if i == 0 {
        assert u[0..] == u && u[1] == body[0];
        if |body| >= 3 {
          assert u[3] == body[2];
        } else if |body| == 2 {
          assert u[2] == body[1] && u[3] == '>';
          assert body == [u[1], u[2]];
        } else {
          assert u[2] == '>';
        }
      } else {
        assert u[i..][0] == u[i];
        if i <= |body| {
          assert u[i] == body[i - 1];
        }
      }
    }
  }

  lemma TagKept(p: Pattern, body: string, c: string, rep: string)
    requires p == BrTag || p == ClosingP
    requires OtherTagBody(body)
    ensures ReplaceAll("<" + body + ">" + c, p, rep) == "<" + body + ">" + ReplaceAll(c, p, rep)
  {
    var u := "<" + body + ">";
    assert u[|u| - 1] == '>';
    UnmatchedCopied(p, u, c, rep);
  }

  /** Text ending in `>` at none of whose positions the pattern matches is
      copied, and the scan resumes after it. */
  lemma {:induction false} UnmatchedCopied(p: Pattern, u: string, c: string, rep: string)
    requires p == BrTag || p == ClosingP
    requires u != [] && u[|u| - 1] == '>'
    requires forall i :: 0 <= i < |u| ==> MatchLen(p, u[i..]) == 0
    ensures ReplaceAll(u + c, p, rep) == u + ReplaceAll(c, p, rep)
    decreases |u|
  {
    assert u[0..] == u;
    UnmatchedHead(p, u, c, rep);
    if |u| == 1 {
      assert u[1..] + c == c && u == [u[0]];
    } else {
      UnmatchedRest(p, u);
      UnmatchedCopied(p, u[1..], c, rep);
      ConsAssoc(u, ReplaceAll(c, p, rep));
    }
  }

  /** The first character of such text is copied. */
  lemma UnmatchedHead(p: Pattern, u: string, c: string, rep: string)
    requires p == BrTag || p == ClosingP
    requires u != [] && u[|u| - 1] == '>' && MatchLen(p, u) == 0
    ensures ReplaceAll(u + c, p, rep) == [u[0]] + ReplaceAll(u[1..] + c, p, rep)
  {
    MatchLenBeforeGt(p, u, c);
    ConsAssoc(u, c);
    ReplaceAllNoMatch(u[0], u[1..] + c, p, rep);
  }

  lemma UnmatchedRest(p: Pattern, u: string)
    requires |u| >= 2
    requires forall i :: 0 <= i < |u| ==> MatchLen(p, u[i..]) == 0
    ensures forall i :: 0 <= i < |u[1..]| ==> MatchLen(p, u[1..][i..]) == 0
  {
    forall i | 0 <= i < |u[1..]|
      ensures MatchLen(p, u[1..][i..]) == 0
    {
      assert u[1..][i..] == u[i + 1..];
    }
  }

  lemma ConsAssoc(u: string, t: string)
    requires u != []
    ensures u + t == [u[0]] + (u[1..] + t)
  {
  }

  /** A tag whose body hides a line break is not dropped by itself: the
      inner `<br>` becomes a line feed first, what is left of the tag is
      unclosed, and tag removal takes everything after it. */
  lemma TagHidingBreak(b0: string, x: string)
    requires b0 != [] && '<' !in b0 && '>' !in b0 && b0[0] != 'b' && b0[0] != 'B'
    requires '<' !in x && '>' !in x
    ensures StripHtmlToText("<" + b0 + "<br>" + x) == []
  {
    var rest := b0 + "\n" + x;
    HidingBreakLineBreaks(b0, x);
    HidingBreakNoClosingP(b0, x);
    assert ['<'] + rest + (if false then ">" else "") + [] == "<" + rest;
    TagRemoved(rest, false, []);
  }

  lemma HidingBreakLineBreaks(b0: string, x: string)
    requires b0 != [] && '<' !in b0 && b0[0] != 'b' && b0[0] != 'B' && '<' !in x
    ensures ReplaceAll("<" + b0 + "<br>" + x, BrTag, "\n") == "<" + (b0 + "\n" + x)
  {
    var t := b0 + ("<br>" + x);
    HidingBreakShape(b0, x);
    assert (['<'] + t)[1] == b0[0];
    ReplaceAllNoMatch('<', t, BrTag, "\n");
    ReplaceAllPlainPrefix(b0, "<br>" + x, BrTag, "\n");
    assert "<br>" + x == ['<', 'b', 'r'] + "" + "" + ">" + x;
    BrVariantReplaced('b', 'r', "", "", x, "\n");
  }

  lemma HidingBreakShape(b0: string, x: string)
    ensures "<" + b0 + "<br>" + x == ['<'] + (b0 + ("<br>" + x))
    ensures ['<'] + (b0 + ("\n" + x)) == "<" + (b0 + "\n" + x)
  {
  }

  lemma HidingBreakNoClosingP(b0: string, x: string)
    requires b0 != [] && '<' !in b0 && '>' !in b0 && '<' !in x
    ensures ReplaceAll("<" + (b0 + "\n" + x), ClosingP, "\n") == "<" + (b0 + "\n" + x)
  {
    var t := b0 + "\n" + x;
    assert "<" + t == ['<'] + t;
    if |b0| >= 3 {
      assert t[2] == b0[2];
    } else {
      assert t[|b0|] == '\n';
    }
    ReplaceAllNoMatch('<', t, ClosingP, "\n");
  }

  /** Any other tag between two pieces of plain text is dropped. */
  lemma StripDropsOtherTag(a: string, body: string, c: string)
    requires Plain(a) && Plain(c)
    requires OtherTagBody(body)
    ensures StripHtmlToText(a + "<" + body + ">" + c) == Trim(a + c)
  {
    var html := a + "<" + body + ">" + c;
    assert html == a + ("<" + body + ">" + c);
    ReplaceAllPlainPrefix(a, "<" + body + ">" + c, BrTag, "\n");
    TagKept(BrTag, body, c, "\n");
    var t1 := ReplaceAll(html, BrTag, "\n");
    assert t1 == a + ("<" + body + ">" + c);
    ReplaceAllPlainPrefix(a, "<" + body + ">" + c, ClosingP, "\n");
    TagKept(ClosingP, body, c, "\n");
    var t2 := ReplaceAll(t1, ClosingP, "\n");
    assert t2 == a + ("<" + body + ">" + c);
    ReplaceAllPlainPrefix(a, "<" + body + ">" + c, AnyTag, "");
    assert "<" + body + ">" + c == ['<'] + body + (if true then ">" else "") + c;
    TagRemoved(body, true, c);
    assert ReplaceAll(t2, AnyTag, "") == a + c;
    StripTailOfPlain(a + c);
  }

  lemma EmphasisShape(m: string)
    ensures "<em>" + m + "</em>" == "<" + "em" + ">" + (m + ("<" + "/em" + ">" + []))
  {
    assert "<em>" == "<" + "em" + ">";
    assert "</em>" == "<" + "/em" + ">" + [];
  }

  lemma EmphasisKept(m: string, p: Pattern)
    requires Plain(m)
    requires p == BrTag || p == ClosingP
    ensures ReplaceAll("<em>" + m + "</em>", p, "\n") == "<em>" + m + "</em>"
  {
    var tail := "<" + "/em" + ">" + [];
    EmphasisShape(m);
    PlainTagBody("em");
    TagKept(p, "em", m + tail, "\n");
    ReplaceAllPlainPrefix(m, tail, p, "\n");
    PlainTagBody("/em");
    TagKept(p, "/em", [], "\n");
    assert "/em" + ">" + [] == "/em>";
  }

  lemma EmphasisTagsRemoved(m: string)
    requires Plain(m)
    ensures ReplaceAll("<em>" + m + "</em>", AnyTag, "") == m
  {
    var tail := "<" + "/em" + ">" + [];
    EmphasisShape(m);
    assert "<em>" + m + "</em>" == ['<'] + "em" + (if true then ">" else "") + (m + tail);
    TagRemoved("em", true, m + tail);
    ReplaceAllPlainPrefix(m, tail, AnyTag, "");
    assert tail == ['<'] + "/em" + (if true then ">" else "") + [];
    TagRemoved("/em", true, []);
    assert m + [] == m;
  }

  /** Plain text wrapped in `<em>...</em>` strips to the text. */
  lemma StripEmphasis(m: string)
    requires Plain(m) && IsTrimmed(m)
    ensures StripHtmlToText("<em>" + m + "</em>") == m
  {
    var html := "<em>" + m + "</em>";
    var t1 := ReplaceAll(html, BrTag, "\n");
    assert t1 == html by { EmphasisKept(m, BrTag); }
    var t2 := ReplaceAll(t1, ClosingP, "\n");
    assert t2 == html by { EmphasisKept(m, ClosingP); }
    var t3 := ReplaceAll(t2, AnyTag, "");
    assert t3 == m by { EmphasisTagsRemoved(m); }
    TextOfPlain(m);
    TrimOfTrimmed(m);
    assert html != [];
  }

  lemma MessageWords()
    ensures PlaceholderMessage == "Receita não " + "disponível " + "para este item."
  {
  }

  lemma FirstWordPlain()
    ensures Plain("Receita não ")
  {
  }

  lemma SecondWordPlain()
    ensures Plain("disponível ")
  {
  }

  lemma LastWordsPlain()
    ensures Plain("para este item.")
  {
  }

  lemma MessageIsPlainText()
    ensures Plain(PlaceholderMessage) && IsTrimmed(PlaceholderMessage)
  {
    var a, b, c := "Receita não ", "disponível ", "para este item.";
    MessageWords();
    FirstWordPlain();
    SecondWordPlain();
    LastWordsPlain();
    assert a[0] == 'R' && c[|c| - 1] == '.';
  }

  /** The placeholder shown when a product has no recipe text strips to its
      message: the copy button then copies that message rather than
      reporting an empty recipe. */
  lemma PlaceholderStrips()
    ensures StripHtmlToText(Placeholder) == PlaceholderMessage
  {
    MessageIsPlainText();
    StripEmphasis(PlaceholderMessage);
  }

  /** Recipe text without markup characters or carriage returns renders as
      itself with each line feed replaced by `<br>`. */
  lemma RenderOfPlain(text: string)
    requires Plain(text) && '>' !in text
    ensures RenderRecipeTextAsHtml(text) == BreakLines(text)
  {
  }

  /** Three plain lines render as the lines joined by `<br>`. */
  lemma RenderThreeLines(a: string, b: string, c: string)
    requires Plain(a) && Plain(b) && Plain(c)
    requires '>' !in a && '>' !in b && '>' !in c
    requires '\n' !in a && '\n' !in b && '\n' !in c
    ensures RenderRecipeTextAsHtml(a + "\n" + b + "\n" + c) == a + "<br>" + b + "<br>" + c
  {
    var t := a + "\n" + b + "\n" + c;
    assert Plain(t) && '>' !in t;
    RenderOfPlain(t);
    ReplaceCharConcat(a + "\n" + b + "\n", c, '\n', "<br>");
    ReplaceCharConcat(a + "\n" + b, "\n", '\n', "<br>");
    ReplaceCharConcat(a + "\n", b, '\n', "<br>");
    ReplaceCharConcat(a, "\n", '\n', "<br>");
    ReplaceCharSingle('\n', '\n', "<br>");
  }

  /** An example three-line recipe renders as its lines joined by two
      `<br>` and nothing else. */
  lemma ExampleRecipeRendering()
    ensures RenderRecipeTextAsHtml("Materiais:" + "\n" + "2 ovos" + "\n" + "1 xícara de farinha")
         == "Materiais:" + "<br>" + "2 ovos" + "<br>" + "1 xícara de farinha"
  {
    PlainLine("Materiais:");
    PlainLine("2 ovos");
    PlainLine("1 xícara de farinha");
    RenderThreeLines("Materiais:", "2 ovos", "1 xícara de farinha");
  }

  lemma PlainLine(s: string)
    requires forall i :: 0 <= i < |s| ==> s[i] != '<' && s[i] != '>' && s[i] != '&' && s[i] != '\r' && s[i] != '\n'
    ensures Plain(s) && '>' !in s && '\n' !in s
  {
  }
}
