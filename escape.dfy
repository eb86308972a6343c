/**
 * HTML escaping as the components write it: a chain of global one-character
 * `replace` calls. Each chain is related to a single left-to-right pass that
 * maps every character to its entity, and to `UnescapeHtml`, its inverse.
 */
module HtmlEscape {
  import opened Text

  /** `s.replace(/c/g, rep)` for a single literal character `c`. */
  function ReplaceChar(s: string, c: char, rep: string): (r: string)
    ensures c !in rep ==> c !in r
    decreases |s|
  {
    if s == [] then []
    else (if s[0] == c then rep else [s[0]]) + ReplaceChar(s[1..], c, rep)
  }

  lemma {:induction false} ReplaceCharAbsent(s: string, c: char, rep: string)
    requires c !in s
    ensures ReplaceChar(s, c, rep) == s
    decreases |s|
  {
    if s != [] {
      assert s[0] in s;
      ReplaceCharAbsent(s[1..], c, rep);
      assert s == [s[0]] + s[1..];
    }
  }

  lemma {:induction false} ReplaceCharConcat(a: string, b: string, c: char, rep: string)
    ensures ReplaceChar(a + b, c, rep) == ReplaceChar(a, c, rep) + ReplaceChar(b, c, rep)
    decreases |a|
  {
    if a == [] {
      assert a + b == b;
    } else {
      assert (a + b)[0] == a[0];
      assert (a + b)[1..] == a[1..] + b;
      ReplaceCharConcat(a[1..], b, c, rep);
    }
  }

  /** A single left-to-right pass that replaces every character by `f` of it. */
  function MapChars(s: string, f: char -> string): string
    decreases |s|
  {
    if s == [] then [] else f(s[0]) + MapChars(s[1..], f)
  }

  lemma {:induction false} MapCharsConcat(a: string, b: string, f: char -> string)
    ensures MapChars(a + b, f) == MapChars(a, f) + MapChars(b, f)
    decreases |a|
  {
    if a == [] {
      assert a + b == b;
    } else {
      assert (a + b)[0] == a[0];
      assert (a + b)[1..] == a[1..] + b;
      MapCharsConcat(a[1..], b, f);
    }
  }

  /** If no character is mapped to a text containing `x`, the pass output contains `x` only where the input did. */
  lemma {:induction false} MapCharsAvoids(s: string, f: char -> string, x: char)
    requires forall c :: x !in f(c)
    ensures x !in MapChars(s, f)
    decreases |s|
  {
    if s != [] {
      MapCharsAvoids(s[1..], f, x);
    }
  }

  // ---------------------------------------------------------------------------
  // The five-character escape of the grep view
  // ---------------------------------------------------------------------------

  /** The entity each character becomes in `escapeHtml`; every other character is kept. */
  function HtmlEntity(c: char): string
  {
    if c == '&' then "&amp;"
    else if c == '<' then "&lt;"
    else if c == '>' then "&gt;"
    else if c == '"' then "&quot;"
    else if c == '\'' then "&#039;"
    else [c]
  }

  /**
   * `escapeHtml`: `&` is replaced first, then `<`, `>`, `"` and `'`. Because
   * `&` goes first, the chain equals one pass that maps each character to its
   * entity, and no entity is escaped twice.
   */
  function EscapeHtml(s: string): (r: string)
    ensures r == MapChars(s, HtmlEntity)
    ensures '<' !in r && '>' !in r && '"' !in r && '\'' !in r
  {
    EscapeHtmlIsOnePass(s);
    ReplaceChar(ReplaceChar(ReplaceChar(ReplaceChar(ReplaceChar(s, '&', "&amp;"), '<', "&lt;"), '>', "&gt;"), '"', "&quot;"), '\'', "&#039;")
  }

  function EscapeHtmlChain(s: string): string
  {
    ReplaceChar(ReplaceChar(ReplaceChar(ReplaceChar(ReplaceChar(s, '&', "&amp;"), '<', "&lt;"), '>', "&gt;"), '"', "&quot;"), '\'', "&#039;")
  }

  lemma EscapeHtmlChainConcat(a: string, b: string)
    ensures EscapeHtmlChain(a + b) == EscapeHtmlChain(a) + EscapeHtmlChain(b)
  {
    var a1, b1 := ReplaceChar(a, '&', "&amp;"), ReplaceChar(b, '&', "&amp;");
    ReplaceCharConcat(a, b, '&', "&amp;");
    var a2, b2 := ReplaceChar(a1, '<', "&lt;"), ReplaceChar(b1, '<', "&lt;");
    ReplaceCharConcat(a1, b1, '<', "&lt;");
    var a3, b3 := ReplaceChar(a2, '>', "&gt;"), ReplaceChar(b2, '>', "&gt;");
    ReplaceCharConcat(a2, b2, '>', "&gt;");
    var a4, b4 := ReplaceChar(a3, '"', "&quot;"), ReplaceChar(b3, '"', "&quot;");
    ReplaceCharConcat(a3, b3, '"', "&quot;");
    ReplaceCharConcat(a4, b4, '\'', "&#039;");
  }

  lemma ReplaceCharSingle(x: char, c: char, rep: string)
    ensures ReplaceChar([x], c, rep) == if x == c then rep else [x]
  {
    assert [x][1..] == [];
  }

  /** One replacement step of the chain applied to a text `t`: `t` becomes `rep` if it is `[c]`, and stays otherwise. */
  lemma ChainStep(t: string, c: char, rep: string)
    requires t == [c] || c !in t
    ensures ReplaceChar(t, c, rep) == if t == [c] then rep else t
  {
    if t == [c] { ReplaceCharSingle(c, c, rep); } else { ReplaceCharAbsent(t, c, rep); }
  }

  lemma EscapeHtmlChainChar(c: char)
    ensures EscapeHtmlChain([c]) == HtmlEntity(c)
  {
    if c == '&' { ChainAmp(); }
    else if c == '<' { ChainLt(); }
    else if c == '>' { ChainGt(); }
    else if c == '"' { ChainQuot(); }
    else if c == '\'' { ChainApos(); }
    else { ChainOther(c); }
  }

  lemma ChainAmp()
    ensures EscapeHtmlChain("&") == "&amp;"
  {
    ChainStep("&", '&', "&amp;");
    ChainTail("&amp;");
  }

  /** The last four replacements leave a text without `<`, `>`, `"` and `'` unchanged. */
  lemma ChainTail(t: string)
    requires '<' !in t && '>' !in t && '"' !in t && '\'' !in t
    ensures ReplaceChar(ReplaceChar(ReplaceChar(ReplaceChar(t, '<', "&lt;"), '>', "&gt;"), '"', "&quot;"), '\'', "&#039;") == t
  {
    ReplaceCharAbsent(t, '<', "&lt;");
    ReplaceCharAbsent(t, '>', "&gt;");
    ReplaceCharAbsent(t, '"', "&quot;");
    ReplaceCharAbsent(t, '\'', "&#039;");
  }

  /** The last three replacements leave a text without `>`, `"` and `'` unchanged. */
  lemma ChainRest(t: string)
    requires '>' !in t && '"' !in t && '\'' !in t
    ensures ReplaceChar(ReplaceChar(ReplaceChar(t, '>', "&gt;"), '"', "&quot;"), '\'', "&#039;") == t
  {
    ReplaceCharAbsent(t, '>', "&gt;");
    ReplaceCharAbsent(t, '"', "&quot;");
    ReplaceCharAbsent(t, '\'', "&#039;");
  }

  lemma ChainLt()
    ensures EscapeHtmlChain("<") == "&lt;"
  {
    var t0 := ReplaceChar("<", '&', "&amp;");
    ChainStep("<", '&', "&amp;");
    var t1 := ReplaceChar(t0, '<', "&lt;");
    ChainStep("<", '<', "&lt;");
    ChainRest(t1);
  }

  lemma ChainGt()
    ensures EscapeHtmlChain(">") == "&gt;"
  {
    var t0 := ReplaceChar(">", '&', "&amp;");
    ChainStep(">", '&', "&amp;");
    var t1 := ReplaceChar(t0, '<', "&lt;");
    ChainStep(">", '<', "&lt;");
    var t2 := ReplaceChar(t1, '>', "&gt;");
    ChainStep(">", '>', "&gt;");
    var t3 := ReplaceChar(t2, '"', "&quot;");
    ChainStep("&gt;", '"', "&quot;");
    ChainStep("&gt;", '\'', "&#039;");
  }

  lemma ChainQuot()
    ensures EscapeHtmlChain("\"") == "&quot;"
  {
    var t0 := ReplaceChar("\"", '&', "&amp;");
    ChainStep("\"", '&', "&amp;");
    var t1 := ReplaceChar(t0, '<', "&lt;");
    ChainStep("\"", '<', "&lt;");
    var t2 := ReplaceChar(t1, '>', "&gt;");
    ChainStep("\"", '>', "&gt;");
    var t3 := ReplaceChar(t2, '"', "&quot;");
    ChainStep("\"", '"', "&quot;");
    ChainStep("&quot;", '\'', "&#039;");
  }

  lemma ChainApos()
    ensures EscapeHtmlChain("'") == "&#039;"
  {
    var t0 := ReplaceChar("'", '&', "&amp;");
    ChainStep("'", '&', "&amp;");
    var t1 := ReplaceChar(t0, '<', "&lt;");
    ChainStep("'", '<', "&lt;");
    var t2 := ReplaceChar(t1, '>', "&gt;");
    ChainStep("'", '>', "&gt;");
    var t3 := ReplaceChar(t2, '"', "&quot;");
    ChainStep("'", '"', "&quot;");
    ChainStep("'", '\'', "&#039;");
  }

  lemma ChainOther(c: char)
    requires c !in "&<>\"'"
    ensures EscapeHtmlChain([c]) == [c]
  {
    ChainStep([c], '&', "&amp;");
    ChainStep([c], '<', "&lt;");
    ChainStep([c], '>', "&gt;");
    ChainStep([c], '"', "&quot;");
    ChainStep([c], '\'', "&#039;");
  }

  lemma {:induction false} EscapeHtmlChainIsOnePass(s: string)
    ensures EscapeHtmlChain(s) == MapChars(s, HtmlEntity)
    decreases |s|
  {
    if s != [] {
      EscapeHtmlChainIsOnePass(s[1..]);
      assert s == [s[0]] + s[1..];
      EscapeHtmlChainConcat([s[0]], s[1..]);
      EscapeHtmlChainChar(s[0]);
    } else {
      assert EscapeHtmlChain(s) == [];
    }
  }

  lemma EntitiesAvoid()
    ensures forall c :: '<' !in HtmlEntity(c) && '>' !in HtmlEntity(c) && '"' !in HtmlEntity(c) && '\'' !in HtmlEntity(c)
  {
    forall c ensures '<' !in HtmlEntity(c) && '>' !in HtmlEntity(c) && '"' !in HtmlEntity(c) && '\'' !in HtmlEntity(c) {
    }
  }

  lemma EscapeHtmlIsOnePass(s: string)
    ensures EscapeHtmlChain(s) == MapChars(s, HtmlEntity)
    ensures '<' !in MapChars(s, HtmlEntity) && '>' !in MapChars(s, HtmlEntity)
    ensures '"' !in MapChars(s, HtmlEntity) && '\'' !in MapChars(s, HtmlEntity)
  {
    EscapeHtmlChainIsOnePass(s);
    EntitiesAvoid();
    MapCharsAvoids(s, HtmlEntity, '<');
    MapCharsAvoids(s, HtmlEntity, '>');
    MapCharsAvoids(s, HtmlEntity, '"');
    MapCharsAvoids(s, HtmlEntity, '\'');
  }

  // ---------------------------------------------------------------------------
  // Decoding the entities back
  // ---------------------------------------------------------------------------

  /** Decodes `&amp;`, `&lt;`, `&gt;`, `&quot;` and `&#039;`; every other character is kept. */
  function UnescapeHtml(s: string): string
    decreases |s|
  {
    if s == [] then []
    else if s[0] != '&' then [s[0]] + UnescapeHtml(s[1..])
    else if IsPrefix("&amp;", s) then "&" + UnescapeHtml(s[5..])
    else if IsPrefix("&lt;", s) then "<" + UnescapeHtml(s[4..])
    else if IsPrefix("&gt;", s) then ">" + UnescapeHtml(s[4..])
    else if IsPrefix("&quot;", s) then "\"" + UnescapeHtml(s[6..])
    else if IsPrefix("&#039;", s) then "'" + UnescapeHtml(s[6..])
    else [s[0]] + UnescapeHtml(s[1..])
  }

  lemma UnescapePrefixed(e: string, rest: string)
    requires e in ["&amp;", "&lt;", "&gt;", "&quot;", "&#039;"]
    ensures var s := e + rest; IsPrefix(e, s) && s[|e|..] == rest
  {
    var s := e + rest;
    assert s[..|e|] == e;
    assert s[|e|..] == rest;
  }

  /** A character that does not start an entity decodes as itself. */
  lemma UnescapeOther(c: char, rest: string)
    requires c != '&'
    ensures UnescapeHtml([c] + rest) == [c] + UnescapeHtml(rest)
  {
    var s := [c] + rest;
    assert s[0] == c && s[1..] == rest;
  }

  /** An entity decodes as its character; the entities are tried in order and differ in their second character. */
  lemma UnescapeEntity(c: char, rest: string)
    ensures UnescapeHtml(HtmlEntity(c) + rest) == [c] + UnescapeHtml(rest)
  {
    var e := HtmlEntity(c);
    var s := e + rest;
    if c == '&' || c == '<' || c == '>' || c == '"' || c == '\'' {
      UnescapePrefixed(e, rest);
      assert s[1] == e[1];
    } else {
      UnescapeOther(c, rest);
    }
  }

  lemma {:induction false} UnescapeMapChars(s: string, f: char -> string)
    requires forall c :: UnescapeHtml(f(c)) == [c] && forall rest :: UnescapeHtml(f(c) + rest) == [c] + UnescapeHtml(rest)
    ensures UnescapeHtml(MapChars(s, f)) == s
    decreases |s|
  {
    if s != [] {
      UnescapeMapChars(s[1..], f);
      assert s == [s[0]] + s[1..];
    }
  }

  /** Unescaping what `escapeHtml` produced recovers the text. */
  lemma UnescapeEscapeHtml(s: string)
    ensures UnescapeHtml(EscapeHtml(s)) == s
  {
    forall c ensures UnescapeHtml(HtmlEntity(c)) == [c] && forall rest :: UnescapeHtml(HtmlEntity(c) + rest) == [c] + UnescapeHtml(rest) {
      UnescapeEntity(c, []);
      assert HtmlEntity(c) + [] == HtmlEntity(c);
      forall rest ensures UnescapeHtml(HtmlEntity(c) + rest) == [c] + UnescapeHtml(rest) {
        UnescapeEntity(c, rest);
      }
    }
    UnescapeMapChars(s, HtmlEntity);
  }
}
