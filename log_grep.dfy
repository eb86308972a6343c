/**
 * The grep view of the log editor (`filteredLogs`): the log is cut into
 * numbered lines, the lines that contain the search term (ignoring case) are
 * kept, and each kept line is rendered as escaped HTML with every occurrence
 * of the term wrapped in a highlight span.
 */
module LogGrep {
  import opened Options
  import opened Text
  import opened HtmlEscape
  import opened Markup

  // ---------------------------------------------------------------------------
  // The search term as a regular expression
  // ---------------------------------------------------------------------------

  /** The characters `term.replace(/[.*+?^${}()|[\]\\]/g, '\\$&')` escapes. */
  const RegexMeta: string := ".*+?^${}()|[]\\"

  function MetaEscape(c: char): string
  {
    if c in RegexMeta then ['\\', c] else [c]
  }

  /** The term with a backslash put before each metacharacter. */
  function EscapeRegExp(term: string): string
  {
    MapChars(term, MetaEscape)
  }

  function Prepend(c: char, r: Option<string>): Option<string>
  {
    if r.Some? then Some([c] + r.value) else None
  }

  /**
   * The text a pattern denotes when it consists of ordinary characters and
   * backslash-escaped metacharacters only; `None` for any other pattern (an
   * unescaped metacharacter, or a backslash before anything else).
   */
  function LiteralPattern(p: string): Option<string>
    decreases |p|
  {
    if p == [] then Some([])
    else if p[0] == '\\' then
      if |p| >= 2 && p[1] in RegexMeta then Prepend(p[1], LiteralPattern(p[2..])) else None
    else if p[0] in RegexMeta then None
    else Prepend(p[0], LiteralPattern(p[1..]))
  }

  /** The escaped term is a pattern that matches exactly the term itself. */
  lemma {:induction false} EscapeRegExpIsLiteral(term: string)
    ensures LiteralPattern(EscapeRegExp(term)) == Some(term)
    decreases |term|
  {
    if term != [] {
      var c := term[0];
      var rest := EscapeRegExp(term[1..]);
      EscapeRegExpIsLiteral(term[1..]);
      assert EscapeRegExp(term) == MetaEscape(c) + rest;
      var p := MetaEscape(c) + rest;
      if c in RegexMeta {
        assert p[0] == '\\' && p[1] == c && p[2..] == rest;
      } else {
        assert c != '\\';
        assert p[0] == c && p[1..] == rest;
      }
      assert term == [c] + term[1..];
    }
  }

  // ---------------------------------------------------------------------------
  // Splitting a line on the term
  // ---------------------------------------------------------------------------

  /** The pattern (the term, ignoring case) matches the line at index `q`. */
  predicate MatchAt(line: string, term: string, q: nat)
  {
    q + |term| <= |line| && Lower(line[q..q + |term|]) == Lower(term)
  }

  /** The leftmost match at or after index `p`. */
  function NextMatch(line: string, term: string, p: nat): (q: Option<nat>)
    requires p <= |line|
    ensures q.Some? ==> p <= q.value && q.value + |term| <= |line|
    decreases |line| - p
  {
    if MatchAt(line, term, p) then Some(p)
    else if p == |line| then None
    else NextMatch(line, term, p + 1)
  }

  lemma {:induction false} NextMatchLeftmost(line: string, term: string, p: nat, i: nat)
    requires p <= i <= |line|
    requires NextMatch(line, term, p).None? || i < NextMatch(line, term, p).value
    ensures !MatchAt(line, term, i)
    decreases i - p
  {
    if i > p {
      NextMatchLeftmost(line, term, p + 1, i);
    }
  }

  lemma {:induction false} NextMatchFound(line: string, term: string, p: nat)
    requires p <= |line| && NextMatch(line, term, p).Some?
    ensures MatchAt(line, term, NextMatch(line, term, p).value)
    decreases |line| - p
  {
    if !MatchAt(line, term, p) {
      NextMatchFound(line, term, p + 1);
    }
  }

  /**
   * `line.split(new RegExp('(' + escaped + ')', 'gi'))` from index `p`: the
   * text before the leftmost match at or after `p`, the match itself (the
   * captured group), then the rest split the same way.
   */
  function SplitFrom(line: string, term: string, p: nat): (r: seq<string>)
    requires term != [] && p <= |line|
    ensures |r| % 2 == 1
    decreases |line| - p
  {
    match NextMatch(line, term, p)
    case None => [line[p..]]
    case Some(q) => [line[p..q], line[q..q + |term|]] + SplitFrom(line, term, q + |term|)
  }

  function SplitOnTerm(line: string, term: string): seq<string>
    requires term != []
  {
    SplitFrom(line, term, 0)
  }

  /** A piece that starts where the pattern does not match is not an occurrence of the term. */
  lemma PieceNotTerm(line: string, term: string, p: nat, e: nat)
    requires term != [] && p <= e <= |line|
    requires p == e || !MatchAt(line, term, p)
    ensures Lower(line[p..e]) != Lower(term)
  {
    PieceMatch(line, term, p, e);
  }

  /** A piece that lower-cases to the term is a match where it starts. */
  lemma PieceMatch(line: string, term: string, p: nat, e: nat)
    requires p <= e <= |line|
    ensures Lower(line[p..e]) == Lower(term) ==> MatchAt(line, term, p)
  {
    var x := line[p..e];
    if Lower(x) == Lower(term) {
      assert |Lower(x)| == |x| == e - p;
      assert e == p + |term|;
    }
  }

  /** The last piece of the split, when no match is left, is not the term. */
  lemma SplitFromNone(line: string, term: string, p: nat)
    requires term != [] && p <= |line| && NextMatch(line, term, p).None?
    ensures SplitFrom(line, term, p) == [line[p..]] && Lower(line[p..]) != Lower(term)
  {
    NextMatchLeftmost(line, term, p, p);
    PieceNotTerm(line, term, p, |line|);
    assert line[p..] == line[p..|line|];
  }

  /** Before the leftmost match, the piece is not the term; the match is. */
  lemma SplitFromSome(line: string, term: string, p: nat, q: nat)
    requires term != [] && p <= |line| && NextMatch(line, term, p) == Some(q)
    ensures p <= q && q + |term| <= |line|
    ensures SplitFrom(line, term, p) == [line[p..q], line[q..q + |term|]] + SplitFrom(line, term, q + |term|)
    ensures Lower(line[p..q]) != Lower(term) && Lower(line[q..q + |term|]) == Lower(term)
  {
    if p < q {
      NextMatchLeftmost(line, term, p, p);
    }
    PieceNotTerm(line, term, p, q);
    NextMatchFound(line, term, p);
  }

  /** The pieces put back together give the line. */
  lemma {:induction false} SplitFromConcat(line: string, term: string, p: nat)
    requires term != [] && p <= |line|
    ensures Concat(SplitFrom(line, term, p)) == line[p..]
    decreases |line| - p
  {
    var m := NextMatch(line, term, p);
    if m.Some? {
      SplitFromConcat(line, term, m.value + |term|);
      SplitFromConcatSome(line, term, p, m.value);
    } else {
      SplitFromConcatNone(line, term, p);
    }
  }

  lemma SplitFromConcatNone(line: string, term: string, p: nat)
    requires term != [] && p <= |line| && NextMatch(line, term, p).None?
    ensures Concat(SplitFrom(line, term, p)) == line[p..]
  {
    SplitFromNone(line, term, p);
    assert Concat([line[p..]]) == line[p..] + Concat([]);
  }

  lemma SplitFromConcatSome(line: string, term: string, p: nat, q: nat)
    requires term != [] && p <= |line| && NextMatch(line, term, p) == Some(q)
    requires Concat(SplitFrom(line, term, q + |term|)) == line[q + |term|..]
    ensures Concat(SplitFrom(line, term, p)) == line[p..]
  {
    SplitFromSome(line, term, p, q);
    ConcatThree(line, p, q, q + |term|, SplitFrom(line, term, q + |term|));
  }

  lemma ConcatThree(s: string, a: nat, b: nat, c: nat, rest: seq<string>)
    requires a <= b <= c <= |s| && Concat(rest) == s[c..]
    ensures Concat([s[a..b], s[b..c]] + rest) == s[a..]
  {
    ConcatPair(s[a..b], s[b..c], rest);
    SliceThree(s, a, b, c);
  }

  lemma SliceThree(s: string, a: nat, b: nat, c: nat)
    requires a <= b <= c <= |s|
    ensures s[a..] == s[a..b] + s[b..c] + s[c..]
  {
  }

  lemma ConcatPair(a: string, b: string, rest: seq<string>)
    ensures Concat([a, b] + rest) == a + b + Concat(rest)
  {
    var r := [a, b] + rest;
    assert r[1..] == [b] + rest;
    assert r[1..][1..] == rest;
  }

  /** Pieces alternate between non-occurrences and occurrences of the term. */
  predicate Alternating(parts: seq<string>, term: string)
  {
    forall k | 0 <= k < |parts| :: (Lower(parts[k]) == Lower(term) <==> k % 2 == 1)
  }

  lemma AlternatingShift(r: seq<string>, rest: seq<string>, term: string, k: nat)
    requires |r| == |rest| + 2 && r[2..] == rest && Alternating(rest, term) && 2 <= k < |r|
    ensures Lower(r[k]) == Lower(term) <==> k % 2 == 1
  {
    var j := k - 2;
    assert r[k] == rest[j];
    assert j % 2 == k % 2;
  }

  lemma AlternatingCons(a: string, b: string, rest: seq<string>, term: string)
    requires Lower(a) != Lower(term) && Lower(b) == Lower(term) && Alternating(rest, term)
    ensures Alternating([a, b] + rest, term)
  {
    var r := [a, b] + rest;
    assert r[2..] == rest;
    forall k | 0 <= k < |r| ensures (Lower(r[k]) == Lower(term) <==> k % 2 == 1) {
      if k >= 2 {
        AlternatingShift(r, rest, term, k);
      }
    }
  }

  /** The pieces at odd positions are the occurrences of the term; those at even positions never equal it. */
  lemma {:induction false} SplitFromMatches(line: string, term: string, p: nat)
    requires term != [] && p <= |line|
    ensures Alternating(SplitFrom(line, term, p), term)
    decreases |line| - p
  {
    var m := NextMatch(line, term, p);
    if m.Some? {
      SplitFromMatches(line, term, m.value + |term|);
      SplitFromMatchesSome(line, term, p, m.value);
    } else {
      SplitFromNone(line, term, p);
    }
  }

  lemma SplitFromMatchesSome(line: string, term: string, p: nat, q: nat)
    requires term != [] && p <= |line| && NextMatch(line, term, p) == Some(q)
    requires Alternating(SplitFrom(line, term, q + |term|), term)
    ensures Alternating(SplitFrom(line, term, p), term)
  {
    SplitFromSome(line, term, p, q);
    AlternatingCons(line[p..q], line[q..q + |term|], SplitFrom(line, term, q + |term|), term);
  }

  // ---------------------------------------------------------------------------
  // Rendering
  // ---------------------------------------------------------------------------

  const HighlightOpen: string := "<span class=\"bg-[#D4F34A] " + "text-slate-900 font-bold px-0.5 " + "rounded-sm shadow-sm\">"
  const HighlightClose: string := "</span>"

  /** An occurrence is escaped and wrapped in the highlight span; any other piece is only escaped. */
  function RenderPart(part: string, term: string): string
  {
    if Lower(part) == Lower(term) then HighlightOpen + EscapeHtml(part) + HighlightClose else EscapeHtml(part)
  }

  /** `parts.map(...).join('')`. */
  function RenderParts(parts: seq<string>, term: string): string
    decreases |parts|
  {
    if parts == [] then [] else RenderPart(parts[0], term) + RenderParts(parts[1..], term)
  }

  /** The `html` of a kept line. */
  function HighlightLine(line: string, term: string): string
    requires term != []
  {
    RenderParts(SplitOnTerm(line, term), term)
  }

  /** The highlight markup removed: both tags are dropped wherever they begin, every other character is kept. */
  function StripHighlight(h: string): string
    decreases |h|
  {
    if h == [] then []
    else if IsPrefix(HighlightOpen, h) then StripHighlight(h[|HighlightOpen|..])
    else if IsPrefix(HighlightClose, h) then StripHighlight(h[|HighlightClose|..])
    else [h[0]] + StripHighlight(h[1..])
  }

  lemma {:induction false} StripPlain(x: string, rest: string)
    requires '<' !in x
    ensures StripHighlight(x + rest) == x + StripHighlight(rest)
    decreases |x|
  {
    if x != [] {
      var h := x + rest;
      assert h[0] == x[0] && x[0] in x;
      assert HighlightOpen[0] == '<' && HighlightClose[0] == '<';
      StripPlain(x[1..], rest);
      assert h[1..] == x[1..] + rest;
      assert x == [x[0]] + x[1..];
    } else {
      assert x + rest == rest;
    }
  }

  lemma StripOpen(rest: string)
    ensures StripHighlight(HighlightOpen + rest) == StripHighlight(rest)
  {
    var h := HighlightOpen + rest;
    assert h[..|HighlightOpen|] == HighlightOpen;
    assert h[|HighlightOpen|..] == rest;
  }

  lemma StripClose(rest: string)
    ensures StripHighlight(HighlightClose + rest) == StripHighlight(rest)
  {
    var h := HighlightClose + rest;
    assert h[1] == '/' && HighlightOpen[1] == 's';
    assert h[..|HighlightClose|] == HighlightClose;
    assert h[|HighlightClose|..] == rest;
  }

  lemma EscapeHtmlConcat(a: string, b: string)
    ensures EscapeHtml(a + b) == EscapeHtml(a) + EscapeHtml(b)
  {
    MapCharsConcat(a, b, HtmlEntity);
  }

  /** Removing the highlight tags from one rendered piece leaves its escaped text. */
  lemma StripRenderPart(part: string, term: string, tail: string)
    ensures StripHighlight(RenderPart(part, term) + tail) == EscapeHtml(part) + StripHighlight(tail)
  {
    var e := EscapeHtml(part);
    if Lower(part) == Lower(term) {
      assert RenderPart(part, term) + tail == HighlightOpen + (e + (HighlightClose + tail));
      StripOpen(e + (HighlightClose + tail));
      StripPlain(e, HighlightClose + tail);
      StripClose(tail);
    } else {
      StripPlain(e, tail);
    }
  }

  /** Removing the highlight tags from the rendered pieces leaves the escaped text of the pieces. */
  lemma {:induction false} StripRenderParts(parts: seq<string>, term: string)
    ensures StripHighlight(RenderParts(parts, term)) == EscapeHtml(Concat(parts))
    decreases |parts|
  {
    if parts != [] {
      var tail := RenderParts(parts[1..], term);
      assert RenderParts(parts, term) == RenderPart(parts[0], term) + tail;
      StripRenderPart(parts[0], term, tail);
      StripRenderParts(parts[1..], term);
      EscapeHtmlConcat(parts[0], Concat(parts[1..]));
    }
  }

  /** Removing the highlight tags and decoding the entities gives back the log line. */
  lemma HighlightRecoversLine(line: string, term: string)
    requires term != []
    ensures UnescapeHtml(StripHighlight(HighlightLine(line, term))) == line
  {
    StripRenderParts(SplitOnTerm(line, term), term);
    SplitFromConcat(line, term, 0);
    assert line[0..] == line;
    UnescapeEscapeHtml(line);
  }

  /** The markup of a rendered line: only the two highlight tags. */
  function HighlightTags(): seq<string>
  {
    [HighlightOpen, HighlightClose]
  }

  lemma {:induction false} RenderPartsSafe(parts: seq<string>, term: string)
    ensures Segments(RenderParts(parts, term), HighlightTags())
    decreases |parts|
  {
    if parts != [] {
      var e := EscapeHtml(parts[0]);
      RenderPartsSafe(parts[1..], term);
      SegmentsPlain(e, HighlightTags());
      if Lower(parts[0]) == Lower(term) {
        SegmentsTag(0, HighlightTags());
        SegmentsTag(1, HighlightTags());
        SegmentsConcat(HighlightOpen, e, HighlightTags());
        SegmentsConcat(HighlightOpen + e, HighlightClose, HighlightTags());
      }
      SegmentsConcat(RenderPart(parts[0], term), RenderParts(parts[1..], term), HighlightTags());
    }
  }

  /** No markup from the log reaches the view: every `<` of a rendered line begins one of the two highlight tags. */
  lemma HighlightLineSafe(line: string, term: string)
    requires term != []
    ensures Segments(HighlightLine(line, term), HighlightTags())
  {
    RenderPartsSafe(SplitOnTerm(line, term), term);
  }

  // ---------------------------------------------------------------------------
  // filteredLogs
  // ---------------------------------------------------------------------------

  /** The line contains the term, ignoring case (`line.toLowerCase().includes(term.toLowerCase())`). */
  predicate Mentions(text: string, term: string)
  {
    Contains(Lower(text), Lower(term))
  }

  /** A line of the log with its 1-based number. */
  datatype Numbered = Numbered(line: nat, text: string)

  /** A kept line: its 1-based number, its text and its rendering. */
  datatype LogLine = LogLine(line: nat, text: string, html: string)

  /** `lines.map((line, index) => ({ line: index + 1, text: line }))`. */
  function NumberLines(lines: seq<string>): (r: seq<Numbered>)
    ensures |r| == |lines|
    ensures forall j | 0 <= j < |lines| :: r[j].line == j + 1 && r[j].text == lines[j]
  {
    seq(|lines|, j requires 0 <= j < |lines| => Numbered(j + 1, lines[j]))
  }

  /** `.filter(item => item.text.toLowerCase().includes(term.toLowerCase()))`. */
  function KeepMentions(items: seq<Numbered>, term: string): (r: seq<Numbered>)
    ensures forall x :: x in r <==> x in items && Mentions(x.text, term)
    decreases |items|
  {
    if items == [] then []
    else
      var rest := KeepMentions(items[1..], term);
      assert forall x | x in items[1..] :: x in items;
      if Mentions(items[0].text, term) then [items[0]] + rest else rest
  }

  /** Numbers in increasing order. */
  predicate Increasing(items: seq<Numbered>)
  {
    forall k1, k2 | 0 <= k1 < k2 < |items| :: items[k1].line < items[k2].line
  }

  /** In an increasing list, the first number is below every later one. */
  lemma FirstBelowRest(items: seq<Numbered>)
    requires Increasing(items) && items != []
    ensures forall x | x in items[1..] :: items[0].line < x.line
  {
    forall x | x in items[1..] ensures items[0].line < x.line {
      var j :| 0 <= j < |items| - 1 && items[1..][j] == x;
      assert items[j + 1] == x;
    }
  }

  lemma ConsIncreasing(x: Numbered, rest: seq<Numbered>)
    requires Increasing(rest) && forall y | y in rest :: x.line < y.line
    ensures Increasing([x] + rest)
  {
    var r := [x] + rest;
    forall k1, k2 | 0 <= k1 < k2 < |r| ensures r[k1].line < r[k2].line {
      assert r[k2] == rest[k2 - 1] && r[k2] in rest;
      if k1 > 0 {
        assert r[k1] == rest[k1 - 1];
      }
    }
  }

  /** The filter keeps the order of the items. */
  lemma {:induction false} KeepMentionsIncreasing(items: seq<Numbered>, term: string)
    requires Increasing(items)
    ensures Increasing(KeepMentions(items, term))
    decreases |items|
  {
    if items != [] {
      var rest := KeepMentions(items[1..], term);
      KeepMentionsIncreasing(items[1..], term);
      if Mentions(items[0].text, term) {
        FirstBelowRest(items);
        ConsIncreasing(items[0], rest);
      }
    }
  }

  /** `.map(item => ({ ...item, html }))`: each kept line with its highlighted rendering. */
  function RenderLines(items: seq<Numbered>, term: string): (r: seq<LogLine>)
    requires term != []
    ensures |r| == |items|
    ensures forall k | 0 <= k < |items| ::
      r[k].line == items[k].line && r[k].text == items[k].text && r[k].html == HighlightLine(items[k].text, term)
  {
    seq(|items|, k requires 0 <= k < |items| => LogLine(items[k].line, items[k].text, HighlightLine(items[k].text, term)))
  }

  /** The pipeline of `filteredLogs` on the lines of the log. */
  function Grep(lines: seq<string>, term: string): seq<LogLine>
    requires term != []
  {
    RenderLines(KeepMentions(NumberLines(lines), term), term)
  }

  /** `filteredLogs`: nothing for an empty term or an empty log; the term is used as typed, without trimming. */
  function FilteredLogs(term: string, content: string): (r: seq<LogLine>)
    ensures term == [] || content == [] ==> r == []
  {
    if term == [] || content == [] then [] else Grep(Split(content, '\n'), term)
  }

  /** Each entry is a numbered line of the log that mentions the term, with its highlighted rendering. */
  ghost predicate KeptLinesSound(lines: seq<string>, term: string, r: seq<LogLine>)
    requires term != []
  {
    forall k | 0 <= k < |r| ::
      && 1 <= r[k].line <= |lines|
      && r[k].text == lines[r[k].line - 1]
      && Mentions(r[k].text, term)
      && r[k].html == HighlightLine(r[k].text, term)
  }

  /** Every line that mentions the term has an entry. */
  ghost predicate KeptLinesComplete(lines: seq<string>, term: string, r: seq<LogLine>)
  {
    forall j | 0 <= j < |lines| && Mentions(lines[j], term) :: exists k :: 0 <= k < |r| && r[k].line == j + 1
  }

  /** Entries are in increasing line order. */
  ghost predicate InLineOrder(r: seq<LogLine>)
  {
    forall k1, k2 | 0 <= k1 < k2 < |r| :: r[k1].line < r[k2].line
  }

  lemma GrepSound(lines: seq<string>, term: string)
    requires term != []
    ensures KeptLinesSound(lines, term, Grep(lines, term))
  {
    var items := NumberLines(lines);
    var kept := KeepMentions(items, term);
    var r := RenderLines(kept, term);
    forall k | 0 <= k < |r|
      ensures 1 <= r[k].line <= |lines| && r[k].text == lines[r[k].line - 1] && Mentions(r[k].text, term)
    {
      assert kept[k] in items;
      var j :| 0 <= j < |items| && items[j] == kept[k];
    }
  }

  lemma GrepComplete(lines: seq<string>, term: string)
    requires term != []
    ensures KeptLinesComplete(lines, term, Grep(lines, term))
  {
    var items := NumberLines(lines);
    var kept := KeepMentions(items, term);
    var r := RenderLines(kept, term);
    forall j | 0 <= j < |lines| && Mentions(lines[j], term)
      ensures exists k :: 0 <= k < |r| && r[k].line == j + 1
    {
      assert items[j] in kept;
      var k :| 0 <= k < |kept| && kept[k] == items[j];
      assert r[k].line == j + 1;
    }
  }

  lemma GrepInLineOrder(lines: seq<string>, term: string)
    requires term != []
    ensures InLineOrder(Grep(lines, term))
  {
    var items := NumberLines(lines);
    KeepMentionsIncreasing(items, term);
  }

  /**
   * The result holds exactly the lines of the log (split on line feeds) that
   * contain the term, ignoring case, each with its 1-based number, in
   * increasing order, rendered by `HighlightLine`.
   */
  lemma FilteredLogsSpec(term: string, content: string)
    requires term != [] && content != []
    ensures KeptLinesSound(Split(content, '\n'), term, FilteredLogs(term, content))
    ensures KeptLinesComplete(Split(content, '\n'), term, FilteredLogs(term, content))
    ensures InLineOrder(FilteredLogs(term, content))
  {
    GrepSound(Split(content, '\n'), term);
    GrepComplete(Split(content, '\n'), term);
    GrepInLineOrder(Split(content, '\n'), term);
  }
}
