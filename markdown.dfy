/**
 * `MarkdownPipe.transform`: seven passes over the text of an analysis —
 * escaping, fenced code blocks, inline code, bold, a line-by-line list state
 * machine, headers and paragraph breaks. `bypassSecurityTrustHtml` is the
 * identity on the resulting string.
 *
 * Each regex pass is a matcher for the global replace of `GlobalReplace`;
 * the list pass is the source's loop (`ProcessLists`) proved against a
 * function on the lines (`ListLines`). The main property is that no markup
 * from the input reaches the output: the output reads as plain characters
 * other than `<` and whole tags of the renderer (`RenderSafe`).
 */
module Markdown {
  import opened Options
  import opened Text
  import opened HtmlEscape
  import opened GlobalReplace
  import opened Markup

  // ---------------------------------------------------------------------------
  // The renderer's tags
  // ---------------------------------------------------------------------------

  const DivOuter: string := "<div class=\"bg-slate-950 round" + "ed-md my-2 border border-slate" + "-700 overflow-hidden\">"
  const DivHeader: string := "<div class=\"bg-slate-800 px-3 " + "py-1 text-[10px] text-slate-40" + "0 font-mono border-b border-sl" + "ate-700 flex justify-between\">"
  const DivClose: string := "</div>"
  const SpanOpen: string := "<span>"
  const SpanClose: string := "</span>"
  const PreOpen: string := "<pre class=\"p-3 overflow-x-aut" + "o text-xs font-mono text-slate" + "-300\">"
  const PreClose: string := "</pre>"
  const CodeOpen: string := "<code>"
  const CodeClose: string := "</code>"
  const InlineCodeOpen: string := "<code class=\"bg-slate-800 text" + "-[#D4F34A] px-1.5 py-0.5 round" + "ed text-xs font-mono border bo" + "rder-slate-700\">"
  const StrongOpen: string := "<strong class=\"text-white font" + "-bold\">"
  const StrongClose: string := "</strong>"
  const UlOpen: string := "<ul class=\"list-disc list-outs" + "ide ml-5 space-y-1 mb-2 text-s" + "late-300\">"
  const UlClose: string := "</ul>"
  const OlOpen: string := "<ol class=\"list-decimal list-o" + "utside ml-5 space-y-1 mb-2 tex" + "t-slate-300\">"
  const OlClose: string := "</ol>"
  const LiOpen: string := "<li>"
  const LiClose: string := "</li>"
  const H3Open: string := "<h3 class=\"text-sm font-bold t" + "ext-[#D4F34A] mt-4 mb-2 upperc" + "ase tracking-wide\">"
  const H3Close: string := "</h3>"
  const Br: string := "<br>"

  /** Every tag the renderer writes. */
  function MarkdownTags(): seq<string>
  {
    [DivOuter, DivHeader, DivClose, SpanOpen, SpanClose, PreOpen, PreClose, CodeOpen, CodeClose,
     InlineCodeOpen, StrongOpen, StrongClose, UlOpen, UlClose, OlOpen, OlClose, LiOpen, LiClose,
     H3Open, H3Close, Br]
  }

  /** The characters tags are written with: printable ASCII other than a backtick and `*`. */
  predicate TagChar(c: char) { ' ' <= c <= '~' && c != '`' && c != '*' }

  /** A piece of tag text: tag characters, no two `#` in a row, not ending in `#`. */
  predicate TagPiece(s: string)
  {
    && s != [] && s[|s| - 1] != '#'
    && (forall j | 0 <= j < |s| :: TagChar(s[j]))
    && (forall j | 0 <= j < |s| - 1 :: s[j] == '#' ==> s[j + 1] != '#')
  }

  lemma TagPieceConcat(a: string, b: string)
    requires TagPiece(a) && TagPiece(b)
    ensures TagPiece(a + b)
  {
    var s := a + b;
    forall j | 0 <= j < |s| ensures TagChar(s[j]) {
      if j >= |a| {
        assert s[j] == b[j - |a|];
      }
    }
    forall j | 0 <= j < |s| - 1 ensures s[j] == '#' ==> s[j + 1] != '#' {
      if j + 1 < |a| {
      } else if j + 1 == |a| {
        assert s[j] == a[|a| - 1];
      } else {
        assert s[j] == b[j - |a|] && s[j + 1] == b[j + 1 - |a|];
      }
    }
  }

  /** A tag the header pass cannot cut into: `<…>` written as one tag piece. */
  predicate SafeTag(t: string)
  {
    TagPiece(t) && |t| >= 2 && t[0] == '<' && t[|t| - 1] == '>'
  }

  lemma DivOuterPiece0()
    ensures TagPiece("<div class=\"bg-slate-950 round")
  {
  }

  lemma DivOuterPiece1()
    ensures TagPiece("ed-md my-2 border border-slate")
  {
  }

  lemma DivOuterPiece2()
    ensures TagPiece("-700 overflow-hidden\">")
  {
  }

  lemma DivOuterSafe()
    ensures SafeTag(DivOuter)
  {
    DivOuterPiece0();
    DivOuterPiece1();
    DivOuterPiece2();
    TagPieceConcat("<div class=\"bg-slate-950 round", "ed-md my-2 border border-slate");
    TagPieceConcat("<div class=\"bg-slate-950 round" + "ed-md my-2 border border-slate", "-700 overflow-hidden\">");
  }

  lemma DivHeaderPiece0()
    ensures TagPiece("<div class=\"bg-slate-800 px-3 ")
  {
  }

  lemma DivHeaderPiece1()
    ensures TagPiece("py-1 text-[10px] text-slate-40")
  {
  }

  lemma DivHeaderPiece2()
    ensures TagPiece("0 font-mono border-b border-sl")
  {
  }

  lemma DivHeaderPiece3()
    ensures TagPiece("ate-700 flex justify-between\">")
  {
  }

  lemma DivHeaderSafe()
    ensures SafeTag(DivHeader)
  {
    DivHeaderPiece0();
    DivHeaderPiece1();
    DivHeaderPiece2();
    DivHeaderPiece3();
    TagPieceConcat("<div class=\"bg-slate-800 px-3 ", "py-1 text-[10px] text-slate-40");
    TagPieceConcat("<div class=\"bg-slate-800 px-3 " + "py-1 text-[10px] text-slate-40", "0 font-mono border-b border-sl");
    TagPieceConcat("<div class=\"bg-slate-800 px-3 " + "py-1 text-[10px] text-slate-40" + "0 font-mono border-b border-sl", "ate-700 flex justify-between\">");
  }

  lemma PreOpenPiece0()
    ensures TagPiece("<pre class=\"p-3 overflow-x-aut")
  {
  }

  lemma PreOpenPiece1()
    ensures TagPiece("o text-xs font-mono text-slate")
  {
  }

  lemma PreOpenPiece2()
    ensures TagPiece("-300\">")
  {
  }

  lemma PreOpenSafe()
    ensures SafeTag(PreOpen)
  {
    PreOpenPiece0();
    PreOpenPiece1();
    PreOpenPiece2();
    TagPieceConcat("<pre class=\"p-3 overflow-x-aut", "o text-xs font-mono text-slate");
    TagPieceConcat("<pre class=\"p-3 overflow-x-aut" + "o text-xs font-mono text-slate", "-300\">");
  }

  lemma InlineCodeOpenPiece0()
    ensures TagPiece("<code class=\"bg-slate-800 text")
  {
  }

  lemma InlineCodeOpenPiece1()
    ensures TagPiece("-[#D4F34A] px-1.5 py-0.5 round")
  {
  }

  lemma InlineCodeOpenPiece2()
    ensures TagPiece("ed text-xs font-mono border bo")
  {
  }

  lemma InlineCodeOpenPiece3()
    ensures TagPiece("rder-slate-700\">")
  {
  }

  lemma InlineCodeOpenSafe()
    ensures SafeTag(InlineCodeOpen)
  {
    InlineCodeOpenPiece0();
    InlineCodeOpenPiece1();
    InlineCodeOpenPiece2();
    InlineCodeOpenPiece3();
    TagPieceConcat("<code class=\"bg-slate-800 text", "-[#D4F34A] px-1.5 py-0.5 round");
    TagPieceConcat("<code class=\"bg-slate-800 text" + "-[#D4F34A] px-1.5 py-0.5 round", "ed text-xs font-mono border bo");
    TagPieceConcat("<code class=\"bg-slate-800 text" + "-[#D4F34A] px-1.5 py-0.5 round" + "ed text-xs font-mono border bo", "rder-slate-700\">");
  }

  lemma StrongOpenPiece0()
    ensures TagPiece("<strong class=\"text-white font")
  {
  }

  lemma StrongOpenPiece1()
    ensures TagPiece("-bold\">")
  {
  }

  lemma StrongOpenSafe()
    ensures SafeTag(StrongOpen)
  {
    StrongOpenPiece0();
    StrongOpenPiece1();
    TagPieceConcat("<strong class=\"text-white font", "-bold\">");
  }

  lemma UlOpenPiece0()
    ensures TagPiece("<ul class=\"list-disc list-outs")
  {
  }

  lemma UlOpenPiece1()
    ensures TagPiece("ide ml-5 space-y-1 mb-2 text-s")
  {
  }

  lemma UlOpenPiece2()
    ensures TagPiece("late-300\">")
  {
  }

  lemma UlOpenSafe()
    ensures SafeTag(UlOpen)
  {
    UlOpenPiece0();
    UlOpenPiece1();
    UlOpenPiece2();
    TagPieceConcat("<ul class=\"list-disc list-outs", "ide ml-5 space-y-1 mb-2 text-s");
    TagPieceConcat("<ul class=\"list-disc list-outs" + "ide ml-5 space-y-1 mb-2 text-s", "late-300\">");
  }

  lemma OlOpenPiece0()
    ensures TagPiece("<ol class=\"list-decimal list-o")
  {
  }

  lemma OlOpenPiece1()
    ensures TagPiece("utside ml-5 space-y-1 mb-2 tex")
  {
  }

  lemma OlOpenPiece2()
    ensures TagPiece("t-slate-300\">")
  {
  }

  lemma OlOpenSafe()
    ensures SafeTag(OlOpen)
  {
    OlOpenPiece0();
    OlOpenPiece1();
    OlOpenPiece2();
    TagPieceConcat("<ol class=\"list-decimal list-o", "utside ml-5 space-y-1 mb-2 tex");
    TagPieceConcat("<ol class=\"list-decimal list-o" + "utside ml-5 space-y-1 mb-2 tex", "t-slate-300\">");
  }

  lemma H3OpenPiece0()
    ensures TagPiece("<h3 class=\"text-sm font-bold t")
  {
  }

  lemma H3OpenPiece1()
    ensures TagPiece("ext-[#D4F34A] mt-4 mb-2 upperc")
  {
  }

  lemma H3OpenPiece2()
    ensures TagPiece("ase tracking-wide\">")
  {
  }

  lemma H3OpenSafe()
    ensures SafeTag(H3Open)
  {
    H3OpenPiece0();
    H3OpenPiece1();
    H3OpenPiece2();
    TagPieceConcat("<h3 class=\"text-sm font-bold t", "ext-[#D4F34A] mt-4 mb-2 upperc");
    TagPieceConcat("<h3 class=\"text-sm font-bold t" + "ext-[#D4F34A] mt-4 mb-2 upperc", "ase tracking-wide\">");
  }

  lemma ClosingTagsSafe()
    ensures SafeTag(DivClose) && SafeTag(SpanClose) && SafeTag(PreClose) && SafeTag(CodeClose)
  {
  }

  lemma ListCloseTagsSafe()
    ensures SafeTag(StrongClose) && SafeTag(UlClose) && SafeTag(OlClose)
  {
  }

  lemma ItemTagsSafe()
    ensures SafeTag(LiOpen) && SafeTag(LiClose) && SafeTag(H3Close)
  {
  }

  lemma OpeningTagsSafe()
    ensures SafeTag(SpanOpen) && SafeTag(CodeOpen) && SafeTag(Br)
  {
  }

  lemma MarkdownTagsSafe()
    ensures forall k | 0 <= k < |MarkdownTags()| :: SafeTag(MarkdownTags()[k])
  {
    DivOuterSafe();
    DivHeaderSafe();
    PreOpenSafe();
    InlineCodeOpenSafe();
    StrongOpenSafe();
    UlOpenSafe();
    OlOpenSafe();
    H3OpenSafe();
    ClosingTagsSafe();
    ListCloseTagsSafe();
    ItemTagsSafe();
    OpeningTagsSafe();
  }

  /** What the passes rely on: tags are `<…>`, and never contain a backtick, `*` or a line terminator. */
  lemma MarkdownTagsFacts()
    ensures TagsWellFormed(MarkdownTags())
    ensures NotInTags('`', MarkdownTags()) && NotInTags('*', MarkdownTags())
    ensures forall c | IsLineTerminator(c) :: NotInTags(c, MarkdownTags())
  {
    var tags := MarkdownTags();
    MarkdownTagsSafe();
    forall c, k | (c == '`' || c == '*' || IsLineTerminator(c)) && 0 <= k < |tags| ensures c !in tags[k] {
      assert !TagChar(c);
    }
  }

  // ---------------------------------------------------------------------------
  // Pass 1: `&`, `<` and `>` become entities
  // ---------------------------------------------------------------------------

  /** The entity each character becomes in the first pass; quotes and every other character are kept. */
  function MarkupEntity(c: char): string
  {
    if c == '&' then "&amp;"
    else if c == '<' then "&lt;"
    else if c == '>' then "&gt;"
    else [c]
  }

  function EscapeMarkupChain(s: string): string
  {
    ReplaceChar(ReplaceChar(ReplaceChar(s, '&', "&amp;"), '<', "&lt;"), '>', "&gt;")
  }

  lemma EscapeMarkupChainConcat(a: string, b: string)
    ensures EscapeMarkupChain(a + b) == EscapeMarkupChain(a) + EscapeMarkupChain(b)
  {
    var a1, b1 := ReplaceChar(a, '&', "&amp;"), ReplaceChar(b, '&', "&amp;");
    ReplaceCharConcat(a, b, '&', "&amp;");
    var a2, b2 := ReplaceChar(a1, '<', "&lt;"), ReplaceChar(b1, '<', "&lt;");
    ReplaceCharConcat(a1, b1, '<', "&lt;");
    ReplaceCharConcat(a2, b2, '>', "&gt;");
  }

  /** The chain on one character: `&`, `<` and `>` become their entities, and no entity is replaced again. */
  lemma EscapeMarkupChainChar(c: char)
    ensures EscapeMarkupChain([c]) == MarkupEntity(c)
  {
    var t0 := ReplaceChar([c], '&', "&amp;");
    ChainStep([c], '&', "&amp;");
    var t1 := ReplaceChar(t0, '<', "&lt;");
    if c == '&' {
      ChainStep("&amp;", '<', "&lt;");
      ChainStep("&amp;", '>', "&gt;");
    } else {
      ChainStep([c], '<', "&lt;");
      if c == '<' {
        ChainStep("&lt;", '>', "&gt;");
      } else {
        ChainStep([c], '>', "&gt;");
      }
    }
  }

  lemma {:induction false} EscapeMarkupChainIsOnePass(s: string)
    ensures EscapeMarkupChain(s) == MapChars(s, MarkupEntity)
    decreases |s|
  {
    if s != [] {
      EscapeMarkupChainIsOnePass(s[1..]);
      assert s == [s[0]] + s[1..];
      EscapeMarkupChainConcat([s[0]], s[1..]);
      EscapeMarkupChainChar(s[0]);
    } else {
      assert EscapeMarkupChain(s) == [];
    }
  }

  /**
   * Pass 1: `&` is replaced first, then `<` and `>`. The chain equals one
   * pass that maps each character to its entity, and leaves no `<` or `>`.
   */
  function EscapeMarkup(s: string): (r: string)
    ensures r == MapChars(s, MarkupEntity)
    ensures '<' !in r && '>' !in r
  {
    EscapeMarkupChainIsOnePass(s);
    forall c ensures '<' !in MarkupEntity(c) && '>' !in MarkupEntity(c) { }
    MapCharsAvoids(s, MarkupEntity, '<');
    MapCharsAvoids(s, MarkupEntity, '>');
    ReplaceChar(ReplaceChar(ReplaceChar(s, '&', "&amp;"), '<', "&lt;"), '>', "&gt;")
  }

  lemma UnescapeMarkupEntity(c: char, rest: string)
    ensures UnescapeHtml(MarkupEntity(c) + rest) == [c] + UnescapeHtml(rest)
  {
    if c == '&' || c == '<' || c == '>' {
      UnescapeEntity(c, rest);
    } else {
      UnescapeOther(c, rest);
    }
  }

  /** Decoding the entities recovers the text: the first pass loses nothing. */
  lemma UnescapeEscapeMarkup(s: string)
    ensures UnescapeHtml(EscapeMarkup(s)) == s
  {
    forall c ensures UnescapeHtml(MarkupEntity(c)) == [c] && forall rest :: UnescapeHtml(MarkupEntity(c) + rest) == [c] + UnescapeHtml(rest) {
      UnescapeMarkupEntity(c, []);
      assert MarkupEntity(c) + [] == MarkupEntity(c);
      forall rest ensures UnescapeHtml(MarkupEntity(c) + rest) == [c] + UnescapeHtml(rest) {
        UnescapeMarkupEntity(c, rest);
      }
    }
    UnescapeMapChars(s, MarkupEntity);
  }

  // ---------------------------------------------------------------------------
  // Pass 2: /```(\w*)([\s\S]*?)```/g
  // ---------------------------------------------------------------------------

  const Fence: string := "```"

  function Spaces(n: nat): (r: string)
    ensures |r| == n && forall i | 0 <= i < n :: r[i] == ' '
  {
    seq(n, _ => ' ')
  }

  /** The block a fenced code block becomes; the language label is `CODE` when none is given. */
  function CodeBlockHtml(lang: string, code: string): string
  {
    BlockHead() + (if lang == [] then "CODE" else lang) + BlockMiddle() + code + BlockTail()
  }

  /** The template up to the language label. */
  function BlockHead(): string
  {
    DivOuter + "\n" + Spaces(16) + DivHeader + "\n" + Spaces(18) + SpanOpen
  }

  /** The template between the label and the code. */
  function BlockMiddle(): string
  {
    SpanClose + "\n" + Spaces(16) + DivClose + "\n" + Spaces(16) + PreOpen + CodeOpen
  }

  /** The template after the code. */
  function BlockTail(): string
  {
    CodeClose + PreClose + "\n" + Spaces(14) + DivClose
  }

  /**
   * The code-block pattern at `k`. The greedy `\w*` takes the whole run of
   * word characters; the lazy body then stops at the first fence after it.
   * Backtracking into the label cannot help: a shorter label is followed by
   * a word character, and a fence holds none.
   */
  function CodeBlockAt(s: string, k: nat): (r: Option<Hit>)
    ensures r.Some? ==> k < r.value.end <= |s|
  {
    if !OccursAt(s, Fence, k) then None
    else
      var w := RunEnd(s, k + 3, IsWordChar);
      var c := IndexOfFrom(s, Fence, w);
      if c < 0 then None
      else Some(CodeBlockHit(s, k, w, c))
  }

  /** The replacement of the block with label `s[k+3..w]` and body `s[w..c]`; the body is trimmed. */
  function CodeBlockHit(s: string, k: nat, w: nat, c: nat): (h: Hit)
    requires k + 3 <= w <= c && c + 3 <= |s|
    ensures h.end == c + 3
  {
    Hit(c + 3, CodeBlockHtml(s[k + 3..w], Trim(s[w..c])))
  }

  /** The match of the pattern at `k`: label `s[k+3..w]`, body `s[w..c]`. */
  ghost predicate IsCodeBlock(s: string, k: nat, w: nat, c: nat)
  {
    && k + 3 <= w <= c && c + 3 <= |s|
    && OccursAt(s, Fence, k) && OccursAt(s, Fence, c)
    && AllIn(s, k + 3, w, IsWordChar) && (w < |s| ==> !IsWordChar(s[w]))
    && forall i | w <= i < c :: !OccursAt(s, Fence, i)
  }

  /** When `IndexOfFrom` finds the first occurrence at or after `from`. */
  lemma IndexOfFromFirst(s: string, p: string, from: nat, c: nat)
    requires from <= c && OccursAt(s, p, c)
    ensures IndexOfFrom(s, p, from) == c <==> forall i | from <= i < c :: !OccursAt(s, p, i)
  {
    IndexOfFromSpec(s, p, from);
  }

  /** Every match of the pattern is found, with its replacement. */
  lemma CodeBlockAtMatches(s: string, k: nat, w: nat, c: nat)
    requires IsCodeBlock(s, k, w, c)
    ensures CodeBlockAt(s, k) == Some(CodeBlockHit(s, k, w, c))
  {
    RunEndAt(s, k + 3, w, IsWordChar);
    IndexOfFromFirst(s, Fence, w, c);
    assert RunEnd(s, k + 3, IsWordChar) == w && IndexOfFrom(s, Fence, w) == c;
  }

  /** Only matches of the pattern are found. */
  lemma CodeBlockAtFound(s: string, k: nat)
    requires CodeBlockAt(s, k).Some?
    ensures exists w, c :: IsCodeBlock(s, k, w, c)
  {
    var w := RunEnd(s, k + 3, IsWordChar);
    var c := IndexOfFrom(s, Fence, w);
    IndexOfFromSpec(s, Fence, w);
    assert IsCodeBlock(s, k, w, c);
  }

  /** No block starts at `k` unless a fence is there and another follows the label. */
  lemma CodeBlockAtNone(s: string, k: nat)
    ensures CodeBlockAt(s, k).None? <==>
      !OccursAt(s, Fence, k) || forall i | RunEnd(s, k + 3, IsWordChar) <= i <= |s| :: !OccursAt(s, Fence, i)
  {
    if OccursAt(s, Fence, k) {
      IndexOfFromSpec(s, Fence, RunEnd(s, k + 3, IsWordChar));
    }
  }

  /** Pass 2. */
  function CodeBlocks(t: string): string
  {
    ReplaceAll(t, CodeBlockAt)
  }

  // ---------------------------------------------------------------------------
  // Pass 3: /`([^`]+)`/g
  // ---------------------------------------------------------------------------

  predicate NotBacktick(c: char) { c != '`' }

  /** The inline-code pattern at `k`: a backtick, a non-empty run without backticks, a backtick. */
  function InlineCodeAt(s: string, k: nat): (r: Option<Hit>)
    ensures r.Some? ==> k < r.value.end <= |s|
  {
    if k < |s| && s[k] == '`' then
      var j := RunEnd(s, k + 1, NotBacktick);
      if k + 1 < j < |s| then Some(Hit(j + 1, InlineCodeOpen + s[k + 1..j] + CodeClose)) else None
    else None
  }

  ghost predicate IsInlineCode(s: string, k: nat, j: nat)
  {
    k + 1 < j < |s| && s[k] == '`' && s[j] == '`' && forall i | k < i < j :: s[i] != '`'
  }

  lemma InlineCodeAtMatches(s: string, k: nat, j: nat)
    requires IsInlineCode(s, k, j)
    ensures InlineCodeAt(s, k) == Some(Hit(j + 1, InlineCodeOpen + s[k + 1..j] + CodeClose))
  {
    RunEndAt(s, k + 1, j, NotBacktick);
  }

  lemma InlineCodeAtFound(s: string, k: nat)
    requires InlineCodeAt(s, k).Some?
    ensures exists j :: IsInlineCode(s, k, j)
  {
    assert IsInlineCode(s, k, RunEnd(s, k + 1, NotBacktick));
  }

  /** Pass 3. */
  function InlineCode(t: string): string
  {
    ReplaceAll(t, InlineCodeAt)
  }

  // ---------------------------------------------------------------------------
  // Pass 4: /\*\*(.*?)\*\*/g
  // ---------------------------------------------------------------------------

  predicate NotLineTerminator(c: char) { !IsLineTerminator(c) }

  /** The bold pattern at `k`: the lazy body stops at the first `**`, which must come before the end of the line. */
  function BoldAt(s: string, k: nat): (r: Option<Hit>)
    ensures r.Some? ==> k < r.value.end <= |s|
  {
    if !OccursAt(s, "**", k) then None
    else
      var c := IndexOfFrom(s, "**", k + 2);
      if 0 <= c <= RunEnd(s, k + 2, NotLineTerminator) then Some(Hit(c + 2, StrongOpen + s[k + 2..c] + StrongClose))
      else None
  }

  ghost predicate IsBold(s: string, k: nat, c: nat)
  {
    && k + 2 <= c && OccursAt(s, "**", k) && OccursAt(s, "**", c)
    && (forall i | k + 2 <= i < c :: !OccursAt(s, "**", i))
    && (forall i | k + 2 <= i < c :: !IsLineTerminator(s[i]))
  }

  lemma BoldAtMatches(s: string, k: nat, c: nat)
    requires IsBold(s, k, c)
    ensures BoldAt(s, k) == Some(Hit(c + 2, StrongOpen + s[k + 2..c] + StrongClose))
  {
    IndexOfFromFirst(s, "**", k + 2, c);
    RunEndCovers(s, k + 2, c, NotLineTerminator);
  }

  lemma BoldAtFound(s: string, k: nat)
    requires BoldAt(s, k).Some?
    ensures exists c :: IsBold(s, k, c)
  {
    var c := IndexOfFrom(s, "**", k + 2);
    IndexOfFromSpec(s, "**", k + 2);
    assert IsBold(s, k, c);
  }

  /** Pass 4. */
  function Bold(t: string): string
  {
    ReplaceAll(t, BoldAt)
  }

  // ---------------------------------------------------------------------------
  // Pass 5: the list state machine over the lines
  // ---------------------------------------------------------------------------

  /** The two kinds of list; the state `listType` of the loop is an `Option<ListKind>`. */
  datatype ListKind = Ul | Ol

  /** What a line is, read from its trimmed text. */
  datatype LineKind = Bullet(item: string) | Numbered(item: string) | Plain

  /** The text `^\d+\.\s` matches at the start of `t`: digits, a dot and one white-space character. */
  ghost predicate IsNumberMarker(t: string, n: nat)
  {
    3 <= n <= |t| && AllIn(t, 0, n - 2, IsDigit) && t[n - 2] == '.' && IsSpace(t[n - 1])
  }

  /** The length of the `^\d+\.\s` match at the start of `t`, or 0 when there is none. */
  function NumberMarker(t: string): (n: nat)
    ensures n == 0 || IsNumberMarker(t, n)
  {
    var d := RunEnd(t, 0, IsDigit);
    if 0 < d && d + 1 < |t| && t[d] == '.' && IsSpace(t[d + 1]) then d + 2 else 0
  }

  /** The marker is the only one: `\d+` cannot stop early, since a digit is not a dot. */
  lemma NumberMarkerUnique(t: string, n: nat)
    requires IsNumberMarker(t, n)
    ensures NumberMarker(t) == n
  {
    RunEndAt(t, 0, n - 2, IsDigit);
  }

  /** How the loop reads a line: `trim.startsWith('- ')` first, then `/^\d+\.\s/.test(trim)`. */
  function Classify(line: string): LineKind
  {
    var trim := Trim(line);
    if IsPrefix("- ", trim) then Bullet(trim[2..])
    else if NumberMarker(trim) > 0 then Numbered(trim[NumberMarker(trim)..])
    else Plain
  }

  lemma ClassifySpec(line: string)
    ensures Classify(line).Bullet? <==> IsPrefix("- ", Trim(line))
    ensures Classify(line).Bullet? ==> Classify(line).item == Trim(line)[2..]
    ensures Classify(line).Numbered? <==> !IsPrefix("- ", Trim(line)) && exists n: nat :: IsNumberMarker(Trim(line), n)
    ensures forall n: nat | IsNumberMarker(Trim(line), n) && !IsPrefix("- ", Trim(line)) :: Classify(line) == Numbered(Trim(line)[n..])
  {
    var trim := Trim(line);
    if NumberMarker(trim) > 0 {
      assert IsNumberMarker(trim, NumberMarker(trim));
    }
    forall n: nat | IsNumberMarker(trim, n) ensures NumberMarker(trim) == n {
      NumberMarkerUnique(trim, n);
    }
  }

  /** A line the loop pushes: a list's opening tag, its closing tag, or a line of content. */
  datatype Emit = Open(kind: ListKind) | Shut(kind: ListKind) | Line(text: string)

  function EmitText(e: Emit): string
  {
    match e
    case Open(Ul) => UlOpen
    case Open(Ol) => OlOpen
    case Shut(Ul) => UlClose
    case Shut(Ol) => OlClose
    case Line(x) => x
  }

  function Texts(es: seq<Emit>): (r: seq<string>)
    ensures |r| == |es| && forall i | 0 <= i < |es| :: r[i] == EmitText(es[i])
  {
    seq(|es|, i requires 0 <= i < |es| => EmitText(es[i]))
  }

  lemma TextsConcat(a: seq<Emit>, b: seq<Emit>)
    ensures Texts(a + b) == Texts(a) + Texts(b)
  {
  }

  /** Closing the open list, if any. */
  function Close(t: Option<ListKind>): seq<Emit>
  {
    if t.Some? then [Shut(t.value)] else []
  }

  /** What comes before an item of a list of kind `k`: nothing when that list is open already. */
  function Opening(t: Option<ListKind>, k: ListKind): seq<Emit>
  {
    if t == Some(k) then [] else Close(t) + [Open(k)]
  }

  function Item(item: string): string
  {
    LiOpen + item + LiClose
  }

  /** What comes before the content of a line of kind `k` while `t` is open. */
  function Prefix(t: Option<ListKind>, k: LineKind): seq<Emit>
  {
    match k
    case Bullet(_) => Opening(t, Ul)
    case Numbered(_) => Opening(t, Ol)
    case Plain => Close(t)
  }

  /** The list open after a line of kind `k`. */
  function Next(k: LineKind): Option<ListKind>
  {
    match k
    case Bullet(_) => Some(Ul)
    case Numbered(_) => Some(Ol)
    case Plain => None
  }

  /** How a line of kind `k` is shown: an item as `<li>…</li>`, any other line as it was. */
  function Show(k: LineKind, line: string): string
  {
    if k.Plain? then line else Item(k.item)
  }

  function Rendered(line: string): string
  {
    Show(Classify(line), line)
  }

  /** What the loop pushes for `lines`, entered with the list `t` open, and the closing tag after it. */
  function ListFrom(t: Option<ListKind>, lines: seq<string>): seq<Emit>
    decreases |lines|
  {
    if lines == [] then Close(t)
    else
      var k := Classify(lines[0]);
      Prefix(t, k) + [Line(Show(k, lines[0]))] + ListFrom(Next(k), lines[1..])
  }

  /** Pass 5 on the lines: the loop starts outside any list and closes the last one. */
  function ListLines(lines: seq<string>): seq<string>
  {
    Texts(ListFrom(None, lines))
  }

  /** The text of the closing tag the loop pushes for the open list `t`. */
  function CloseText(t: Option<ListKind>): seq<string>
  {
    if t == Some(Ul) then [UlClose] else if t == Some(Ol) then [OlClose] else []
  }

  lemma PrefixTexts(t: Option<ListKind>, k: LineKind)
    ensures k.Bullet? ==> Texts(Prefix(t, k)) == if t == Some(Ul) then [] else CloseText(t) + [UlOpen]
    ensures k.Numbered? ==> Texts(Prefix(t, k)) == if t == Some(Ol) then [] else CloseText(t) + [OlOpen]
    ensures k.Plain? ==> Texts(Prefix(t, k)) == CloseText(t)
  {
    var c := Texts(Close(t));
    match t {
      case None => assert |c| == 0;
      case Some(Ul) => assert c == [EmitText(Shut(Ul))];
      case Some(Ol) => assert c == [EmitText(Shut(Ol))];
    }
    var u, o := Texts([Open(Ul)]), Texts([Open(Ol)]);
    assert u == [UlOpen] && o == [OlOpen];
    TextsConcat(Close(t), [Open(Ul)]);
    TextsConcat(Close(t), [Open(Ol)]);
  }

  /** Before an item: unless list `kind` is open, close the open list, if any, and open `kind`. */
  method OpenList(processedLines: seq<string>, listType: Option<ListKind>, kind: ListKind)
    returns (pushed: seq<string>, nextType: Option<ListKind>)
    ensures pushed == processedLines + Texts(Opening(listType, kind))
    ensures nextType == Some(kind)
  {
    PrefixTexts(listType, if kind == Ul then Bullet([]) else Numbered([]));
    pushed, nextType := processedLines, listType;
    if listType != Some(kind) {
      if listType.Some? {
        pushed := pushed + [if listType == Some(Ul) then UlClose else OlClose];
      }
      pushed := pushed + [if kind == Ul then UlOpen else OlOpen];
      nextType := Some(kind);
    }
  }

  /** Before a line outside lists: close the open list, if any. */
  method CloseList(processedLines: seq<string>, listType: Option<ListKind>)
    returns (pushed: seq<string>, nextType: Option<ListKind>)
    ensures pushed == processedLines + Texts(Close(listType))
    ensures nextType == None
  {
    PrefixTexts(listType, Plain);
    pushed, nextType := processedLines, listType;
    if listType.Some? {
      pushed := pushed + [if listType == Some(Ul) then UlClose else OlClose];
      nextType := None;
    }
  }

  /** One turn of the loop of pass 5: what it pushes for `line`, and the list left open. */
  method PushLine(processedLines: seq<string>, listType: Option<ListKind>, line: string)
    returns (pushed: seq<string>, nextType: Option<ListKind>)
    ensures pushed == processedLines + Texts(Prefix(listType, Classify(line))) + [Rendered(line)]
    ensures nextType == Next(Classify(line))
  {
    var trim := Trim(line);
    var marker := NumberMarker(trim);
    if IsPrefix("- ", trim) {
      pushed, nextType := OpenList(processedLines, listType, Ul);
      pushed := pushed + [LiOpen + trim[2..] + LiClose];
    } else if marker > 0 {
      pushed, nextType := OpenList(processedLines, listType, Ol);
      pushed := pushed + [LiOpen + trim[marker..] + LiClose];
    } else {
      pushed, nextType := CloseList(processedLines, listType);
      pushed := pushed + [line];
    }
  }

  lemma ListFromCons(t: Option<ListKind>, lines: seq<string>)
    requires lines != []
    ensures ListFrom(t, lines) == Prefix(t, Classify(lines[0])) + [Line(Rendered(lines[0]))] + ListFrom(Next(Classify(lines[0])), lines[1..])
  {
  }

  /** One turn of the loop of pass 5 keeps its invariant. */
  lemma StepInvariant(before: seq<string>, after: seq<string>, pre: seq<Emit>, x: string, rest: seq<Emit>)
    requires after == before + Texts(pre) + [x]
    ensures after + Texts(rest) == before + Texts(pre + [Line(x)] + rest)
  {
    TextsConcat(pre + [Line(x)], rest);
    TextsConcat(pre, [Line(x)]);
  }

  /** The loop of pass 5. */
  method ProcessLists(lines: seq<string>) returns (processedLines: seq<string>)
    ensures processedLines == ListLines(lines)
  {
    var listType: Option<ListKind> := None;
    processedLines := [];
    for i := 0 to |lines|
      invariant processedLines + Texts(ListFrom(listType, lines[i..])) == ListLines(lines)
    {
      var line := lines[i];
      ghost var before, t, k := processedLines, listType, Classify(line);
      ListFromCons(t, lines[i..]);
      assert lines[i..][0] == line && lines[i..][1..] == lines[i + 1..];
      processedLines, listType := PushLine(processedLines, listType, line);
      StepInvariant(before, processedLines, Prefix(t, k), Rendered(line), ListFrom(Next(k), lines[i + 1..]));
    }
    assert lines[|lines|..] == [];
    PrefixTexts(listType, Plain);
    if listType != None {
      processedLines := processedLines + [if listType == Some(Ul) then UlClose else OlClose];
    }
  }

  /** The opening and closing tags among `es`, in order. */
  function Tags(es: seq<Emit>): (r: seq<Emit>)
    ensures forall i | 0 <= i < |r| :: !r[i].Line?
    decreases |es|
  {
    if es == [] then [] else (if es[0].Line? then [] else [es[0]]) + Tags(es[1..])
  }

  /** The content lines among `es`, in order. */
  function Lines(es: seq<Emit>): seq<string>
    decreases |es|
  {
    if es == [] then [] else (if es[0].Line? then [es[0].text] else []) + Lines(es[1..])
  }

  lemma {:induction false} TagsConcat(a: seq<Emit>, b: seq<Emit>)
    ensures Tags(a + b) == Tags(a) + Tags(b)
    ensures Lines(a + b) == Lines(a) + Lines(b)
    decreases |a|
  {
    if a == [] {
      assert a + b == b;
    } else {
      assert (a + b)[0] == a[0] && (a + b)[1..] == a[1..] + b;
      TagsConcat(a[1..], b);
    }
  }

  lemma TagsOfTags(es: seq<Emit>)
    requires |es| <= 2 && forall i | 0 <= i < |es| :: !es[i].Line?
    ensures Tags(es) == es && Lines(es) == []
  {
    if |es| == 2 {
      assert es[1..][1..] == [];
    }
  }

  lemma TagsOfLine(x: string)
    ensures Tags([Line(x)]) == [] && Lines([Line(x)]) == [x]
  {
    assert [Line(x)][1..] == [];
  }

  /** Open and close tags of the same list, one pair after the other, none left open. */
  predicate Paired(ts: seq<Emit>)
    decreases |ts|
  {
    ts == [] || (|ts| >= 2 && ts[0].Open? && ts[1] == Shut(ts[0].kind) && Paired(ts[2..]))
  }

  /** The opening tag of the list `t`, if one is open. */
  function Pending(t: Option<ListKind>): seq<Emit>
  {
    if t.Some? then [Open(t.value)] else []
  }

  lemma StepTags(t: Option<ListKind>, k: LineKind, x: string)
    ensures Tags(Prefix(t, k) + [Line(x)]) == Prefix(t, k)
    ensures Lines(Prefix(t, k) + [Line(x)]) == [x]
  {
    TagsOfTags(Prefix(t, k));
    TagsOfLine(x);
    TagsConcat(Prefix(t, k), [Line(x)]);
  }

  /**
   * Every list the pass opens it closes with the matching tag before opening
   * another: the tags it emits come in pairs `<ul …>`/`</ul>` or
   * `<ol …>`/`</ol>`, with no nesting, and none is left open at the end.
   */
  lemma {:induction false} ListFromPaired(t: Option<ListKind>, lines: seq<string>)
    ensures Paired(Pending(t) + Tags(ListFrom(t, lines)))
    decreases |lines|
  {
    if lines == [] {
      TagsOfTags(Close(t));
      if t.Some? {
        assert (Pending(t) + Close(t))[2..] == [];
      }
    } else {
      var k := Classify(lines[0]);
      var u, x := Next(k), Show(k, lines[0]);
      var rest := ListFrom(u, lines[1..]);
      ListFromPaired(u, lines[1..]);
      StepTags(t, k, x);
      TagsConcat(Prefix(t, k) + [Line(x)], rest);
      assert Tags(ListFrom(t, lines)) == Prefix(t, k) + Tags(rest);
      PairedStep(t, k, Tags(rest));
    }
  }

  /** The tags a line adds keep the pairing: it closes the open list before opening another. */
  lemma PairedStep(t: Option<ListKind>, k: LineKind, tail: seq<Emit>)
    requires Paired(Pending(Next(k)) + tail)
    ensures Paired(Pending(t) + (Prefix(t, k) + tail))
  {
    var u, pre := Next(k), Prefix(t, k);
    if t == u {
      assert pre == [];
      assert Pending(t) + (pre + tail) == Pending(u) + tail;
    } else if t.None? {
      assert Pending(t) + (pre + tail) == Pending(u) + tail;
    } else {
      assert (Pending(t) + (pre + tail))[2..] == Pending(u) + tail;
    }
  }

  lemma LinesStep(t: Option<ListKind>, k: LineKind, x: string, rest: seq<Emit>)
    ensures Lines(Prefix(t, k) + [Line(x)] + rest) == [x] + Lines(rest)
  {
    StepTags(t, k, x);
    TagsConcat(Prefix(t, k) + [Line(x)], rest);
  }

  /** Every line rendered, in order. */
  function RenderedLines(lines: seq<string>): (r: seq<string>)
    ensures |r| == |lines|
    decreases |lines|
  {
    if lines == [] then [] else [Rendered(lines[0])] + RenderedLines(lines[1..])
  }

  /** The `i`-th rendered line is the `i`-th line rendered on its own. */
  lemma {:induction false} RenderedLinesAt(lines: seq<string>, i: nat)
    requires i < |lines|
    ensures RenderedLines(lines)[i] == Rendered(lines[i])
    decreases i
  {
    if i > 0 {
      RenderedLinesAt(lines[1..], i - 1);
      assert lines[1..][i - 1] == lines[i];
    }
  }

  /** Setting the list tags aside leaves one rendered line per input line, in order. */
  lemma {:induction false} ListFromLines(t: Option<ListKind>, lines: seq<string>)
    ensures Lines(ListFrom(t, lines)) == RenderedLines(lines)
    decreases |lines|
  {
    if lines == [] {
      TagsOfTags(Close(t));
    } else {
      var k := Classify(lines[0]);
      ListFromCons(t, lines);
      LinesStep(t, k, Rendered(lines[0]), ListFrom(Next(k), lines[1..]));
      ListFromLines(Next(k), lines[1..]);
    }
  }

  // ---------------------------------------------------------------------------
  // Pass 6: /### (.*)/g
  // ---------------------------------------------------------------------------

  /** The header pattern at `k`: `### ` and the rest of the line. */
  function HeaderAt(s: string, k: nat): (r: Option<Hit>)
    ensures r.Some? ==> k < r.value.end <= |s|
  {
    if !OccursAt(s, "### ", k) then None
    else
      var e := RunEnd(s, k + 4, NotLineTerminator);
      Some(Hit(e, H3Open + s[k + 4..e] + H3Close))
  }

  ghost predicate IsHeader(s: string, k: nat, e: nat)
  {
    && OccursAt(s, "### ", k) && k + 4 <= e <= |s|
    && (forall i | k + 4 <= i < e :: !IsLineTerminator(s[i]))
    && (e < |s| ==> IsLineTerminator(s[e]))
  }

  lemma HeaderAtMatches(s: string, k: nat, e: nat)
    requires IsHeader(s, k, e)
    ensures HeaderAt(s, k) == Some(Hit(e, H3Open + s[k + 4..e] + H3Close))
  {
    if e < |s| {
      RunEndAt(s, k + 4, e, NotLineTerminator);
    } else {
      RunEndCovers(s, k + 4, e, NotLineTerminator);
    }
  }

  lemma HeaderAtFound(s: string, k: nat)
    requires HeaderAt(s, k).Some?
    ensures exists e :: IsHeader(s, k, e)
  {
    assert IsHeader(s, k, RunEnd(s, k + 4, NotLineTerminator));
  }

  /** Pass 6. */
  function Headers(t: string): string
  {
    ReplaceAll(t, HeaderAt)
  }

  // ---------------------------------------------------------------------------
  // Pass 7: /\n\n/g
  // ---------------------------------------------------------------------------

  function BreakAt(s: string, k: nat): (r: Option<Hit>)
    ensures r.Some? <==> OccursAt(s, "\n\n", k)
    ensures r.Some? ==> r.value == Hit(k + 2, Br + Br)
  {
    if OccursAt(s, "\n\n", k) then Some(Hit(k + 2, Br + Br)) else None
  }

  /** Pass 7. */
  function Breaks(t: string): string
  {
    ReplaceAll(t, BreakAt)
  }

  // ---------------------------------------------------------------------------
  // transform
  // ---------------------------------------------------------------------------

  /** Pass 5 on the text: split into lines, run the list state machine, join the lines again. */
  function Lists(t: string): string
  {
    Join(ListLines(Split(t, '\n')), '\n')
  }

  /** What `transform` returns for `value`: the empty text for an empty value, otherwise the seven passes in order. */
  function Render(value: string): string
  {
    if value == [] then []
    else Breaks(Headers(Lists(Bold(InlineCode(CodeBlocks(EscapeMarkup(value)))))))
  }

  /** `transform`: the passes of `Render`, with the list pass run as the source's loop. */
  method Transform(value: string) returns (html: string)
    ensures html == Render(value)
    ensures value == [] ==> html == []
    ensures Segments(html, MarkdownTags())
  {
    RenderSafe(value);
    if value == [] {
      return [];
    }
    var text := EscapeMarkup(value);
    text := CodeBlocks(text);
    text := InlineCode(text);
    text := Bold(text);
    var lines := Split(text, '\n');
    var processedLines := ProcessLists(lines);
    text := Join(processedLines, '\n');
    text := Headers(text);
    text := Breaks(text);
    html := text;
  }

  // ---------------------------------------------------------------------------
  // No markup from the input reaches the output
  // ---------------------------------------------------------------------------

  lemma TagSegments(t: string)
    requires t in MarkdownTags()
    ensures Segments(t, MarkdownTags())
  {
    var tags := MarkdownTags();
    MarkdownTagsFacts();
    var k :| 0 <= k < |tags| && tags[k] == t;
    SegmentsTag(k, tags);
  }

  lemma AddTag(x: string, t: string)
    requires Segments(x, MarkdownTags()) && t in MarkdownTags()
    ensures Segments(x + t, MarkdownTags())
  {
    TagSegments(t);
    SegmentsConcat(x, t, MarkdownTags());
  }

  lemma AddPlain(x: string, y: string)
    requires Segments(x, MarkdownTags()) && '<' !in y
    ensures Segments(x + y, MarkdownTags())
  {
    SegmentsPlain(y, MarkdownTags());
    SegmentsConcat(x, y, MarkdownTags());
  }

  /** A tag of the table, alone, reads as that tag. */
  lemma TagIn(t: string, tags: seq<string>)
    requires TagsWellFormed(tags) && t in tags
    ensures Segments(t, tags)
  {
    var k :| 0 <= k < |tags| && tags[k] == t;
    SegmentsTag(k, tags);
  }

  /** A tag, a readable text and a tag, side by side. */
  lemma WrappedIn(open: string, x: string, close: string, tags: seq<string>)
    requires TagsWellFormed(tags) && open in tags && close in tags && Segments(x, tags)
    ensures Segments(open + x + close, tags)
  {
    TagIn(open, tags);
    TagIn(close, tags);
    SegmentsConcat(open, x, tags);
    SegmentsConcat(open + x, close, tags);
  }

  /** A tag, a readable text and a tag, side by side. */
  lemma Wrapped(open: string, x: string, close: string)
    requires open in MarkdownTags() && close in MarkdownTags() && Segments(x, MarkdownTags())
    ensures Segments(open + x + close, MarkdownTags())
  {
    TagSegments(open);
    SegmentsConcat(open, x, MarkdownTags());
    AddTag(open + x, close);
  }

  /** Passes 1 and 2: the escaped text has no `<`, and a code block is the renderer's tags around text without `<`. */
  lemma CodeBlockHtmlSafe(lang: string, code: string)
    requires '<' !in lang && '<' !in code
    ensures Segments(CodeBlockHtml(lang, code), MarkdownTags())
  {
    var name := if lang == [] then "CODE" else lang;
    BlockHeadSafe();
    BlockMiddleSafe();
    BlockTailSafe();
    AddPlain(BlockHead(), name);
    SegmentsConcat(BlockHead() + name, BlockMiddle(), MarkdownTags());
    AddPlain(BlockHead() + name + BlockMiddle(), code);
    SegmentsConcat(BlockHead() + name + BlockMiddle() + code, BlockTail(), MarkdownTags());
  }

  lemma BlockHeadSafe()
    ensures Segments(BlockHead(), MarkdownTags())
  {
    var a := DivOuter + "\n" + Spaces(16);
    TagSegments(DivOuter);
    AddPlain(DivOuter, "\n");
    AddPlain(DivOuter + "\n", Spaces(16));
    AddTag(a, DivHeader);
    AddPlain(a + DivHeader, "\n");
    AddPlain(a + DivHeader + "\n", Spaces(18));
    AddTag(a + DivHeader + "\n" + Spaces(18), SpanOpen);
  }

  lemma BlockMiddleSafe()
    ensures Segments(BlockMiddle(), MarkdownTags())
  {
    var a := SpanClose + "\n" + Spaces(16);
    TagSegments(SpanClose);
    AddPlain(SpanClose, "\n");
    AddPlain(SpanClose + "\n", Spaces(16));
    AddTag(a, DivClose);
    AddPlain(a + DivClose, "\n");
    AddPlain(a + DivClose + "\n", Spaces(16));
    AddTag(a + DivClose + "\n" + Spaces(16), PreOpen);
    AddTag(a + DivClose + "\n" + Spaces(16) + PreOpen, CodeOpen);
  }

  lemma BlockTailSafe()
    ensures Segments(BlockTail(), MarkdownTags())
  {
    TagSegments(CodeClose);
    AddTag(CodeClose, PreClose);
    AddPlain(CodeClose + PreClose, "\n");
    AddPlain(CodeClose + PreClose + "\n", Spaces(14));
    AddTag(CodeClose + PreClose + "\n" + Spaces(14), DivClose);
  }

  lemma NoLtSlice(s: string, a: nat, b: nat)
    requires '<' !in s && a <= b <= |s|
    ensures '<' !in s[a..b]
  {
    forall i | 0 <= i < b - a ensures s[a..b][i] != '<' {
      assert s[a..b][i] == s[a + i] && s[a + i] in s;
    }
  }

  lemma CodeBlocksSafe(t: string)
    requires '<' !in t
    ensures Segments(CodeBlocks(t), MarkdownTags())
  {
    var tags := MarkdownTags();
    var P: string -> bool := x => Segments(x, tags);
    var cut: nat -> bool := p => true;
    forall a: string, b: string | P(a) && P(b) ensures P(a + b) {
      SegmentsConcat(a, b, tags);
    }
    forall a: nat, b: nat | 0 <= a <= b <= |t| ensures P(t[a..b]) {
      NoLtSlice(t, a, b);
      SegmentsPlain(t[a..b], tags);
    }
    forall j | 0 <= j < |t| && CodeBlockAt(t, j).Some? ensures P(CodeBlockAt(t, j).value.replacement) {
      CodeBlockHitSafe(t, j);
    }
    ReplacePreserves(t, 0, CodeBlockAt, P, cut);
  }

  /** A fenced block of text without `<` renders to readable markup. */
  lemma CodeBlockHitSafe(t: string, j: nat)
    requires '<' !in t && j < |t| && CodeBlockAt(t, j).Some?
    ensures Segments(CodeBlockAt(t, j).value.replacement, MarkdownTags())
  {
    var w := RunEnd(t, j + 3, IsWordChar);
    var c := IndexOfFrom(t, Fence, w);
    NoLtSlice(t, j + 3, w);
    NoLtSlice(t, w, c);
    var r := Trim(t[w..c]);
    NoLtSlice(t[w..c], TrimOffset(t[w..c]), TrimOffset(t[w..c]) + |r|);
    CodeBlockHtmlSafe(t[j + 3..w], r);
  }

  /** An inline code match starts and ends at a backtick, which no tag holds, and wraps readable text. */
  lemma InlineCodeHitSafe(t: string, j: nat, tags: seq<string>)
    requires TagsWellFormed(tags) && NotInTags('`', tags) && InlineCodeOpen in tags && CodeClose in tags
    requires Segments(t, tags) && j < |t| && InlineCodeAt(t, j).Some?
    ensures Clean(t, tags, j) && Clean(t, tags, InlineCodeAt(t, j).value.end)
    ensures Segments(InlineCodeAt(t, j).value.replacement, tags)
  {
    var e := InlineCodeShape(t, j);
    DelimitedSafe(t, tags, j, j + 1, e, '`', InlineCodeOpen, CodeClose, InlineCodeAt(t, j).value);
  }

  /**
   * A match `h` over `t[a..h.end]` whose opening `t[a..b]` and closing
   * `t[c..h.end]` begin and end with a character `q` no tag holds cuts no tag,
   * and its replacement, the inside wrapped in two tags, is readable.
   */
  lemma DelimitedSafe(t: string, tags: seq<string>, a: nat, b: nat, c: nat, q: char, open: string, close: string, h: Hit)
    requires TagsWellFormed(tags) && open in tags && close in tags && Segments(t, tags) && NotInTags(q, tags)
    requires a < b <= c < h.end <= |t| && h.replacement == open + t[b..c] + close
    requires t[a] == q && t[b - 1] == q && t[c] == q && t[h.end - 1] == q
    ensures Clean(t, tags, a) && Clean(t, tags, h.end)
    ensures Segments(h.replacement, tags)
  {
    CleanAtChar(t, tags, a);
    CleanAfterChar(t, tags, b);
    CleanAtChar(t, tags, c);
    CleanAfterChar(t, tags, h.end);
    SegmentsSlice(t, tags, b, c);
    WrappedIn(open, t[b..c], close, tags);
  }

  /** An inline code match is a backtick, a body, and a backtick. */
  lemma InlineCodeShape(t: string, j: nat) returns (e: nat)
    requires InlineCodeAt(t, j).Some?
    ensures j + 1 < e < |t| && t[j] == '`' && t[e] == '`'
    ensures InlineCodeAt(t, j).value == Hit(e + 1, InlineCodeOpen + t[j + 1..e] + CodeClose)
  {
    e := RunEnd(t, j + 1, NotBacktick);
  }

  lemma InlineCodeListed()
    ensures InlineCodeOpen in MarkdownTags() && CodeClose in MarkdownTags()
  {
    assert MarkdownTags()[9] == InlineCodeOpen && MarkdownTags()[8] == CodeClose;
  }

  /** Pass 3 keeps the text readable: backticks occur in no tag, so a match cuts no tag. */
  lemma InlineCodeSafe(t: string)
    requires Segments(t, MarkdownTags())
    ensures Segments(InlineCode(t), MarkdownTags())
  {
    MarkdownTagsFacts();
    InlineCodeListed();
    forall j | 0 <= j < |t| && InlineCodeAt(t, j).Some?
      ensures Clean(t, MarkdownTags(), j) && Clean(t, MarkdownTags(), InlineCodeAt(t, j).value.end)
      ensures Segments(InlineCodeAt(t, j).value.replacement, MarkdownTags())
    {
      InlineCodeHitSafe(t, j, MarkdownTags());
    }
    ReplaceKeepsSegments(t, InlineCodeAt, MarkdownTags());
  }

  /** A bold match starts and ends at `**`, which no tag holds, and wraps readable text. */
  lemma BoldHitSafe(t: string, j: nat, tags: seq<string>)
    requires TagsWellFormed(tags) && NotInTags('*', tags) && StrongOpen in tags && StrongClose in tags
    requires Segments(t, tags) && j < |t| && BoldAt(t, j).Some?
    ensures Clean(t, tags, j) && Clean(t, tags, BoldAt(t, j).value.end)
    ensures Segments(BoldAt(t, j).value.replacement, tags)
  {
    var c := BoldHitShape(t, j);
    DelimitedSafe(t, tags, j, j + 2, c, '*', StrongOpen, StrongClose, BoldAt(t, j).value);
  }

  /** A bold match is `**`, a body, and `**`. */
  lemma BoldHitShape(t: string, j: nat) returns (c: nat)
    requires BoldAt(t, j).Some?
    ensures j + 2 <= c && c + 2 <= |t|
    ensures t[j] == '*' && t[j + 1] == '*' && t[c] == '*' && t[c + 1] == '*'
    ensures BoldAt(t, j).value == Hit(c + 2, StrongOpen + t[j + 2..c] + StrongClose)
  {
    c := IndexOfFrom(t, "**", j + 2);
    IndexOfFromSpec(t, "**", j + 2);
    assert t[j] == t[j..j + 2][0] && t[j + 1] == t[j..j + 2][1];
    assert t[c] == t[c..c + 2][0] && t[c + 1] == t[c..c + 2][1];
  }

  lemma StrongListed()
    ensures StrongOpen in MarkdownTags() && StrongClose in MarkdownTags()
  {
    assert MarkdownTags()[10] == StrongOpen && MarkdownTags()[11] == StrongClose;
  }

  /** Pass 4 keeps the text readable: `*` occurs in no tag. */
  lemma BoldSafe(t: string)
    requires Segments(t, MarkdownTags())
    ensures Segments(Bold(t), MarkdownTags())
  {
    MarkdownTagsFacts();
    StrongListed();
    forall j | 0 <= j < |t| && BoldAt(t, j).Some?
      ensures Clean(t, MarkdownTags(), j) && Clean(t, MarkdownTags(), BoldAt(t, j).value.end)
      ensures Segments(BoldAt(t, j).value.replacement, MarkdownTags())
    {
      BoldHitSafe(t, j, MarkdownTags());
    }
    ReplaceKeepsSegments(t, BoldAt, MarkdownTags());
  }

  /**
   * No tag straddles the start of `### ` or the end of it: a tag holding the
   * first `#` would hold `##` or end in `#`, and one starting inside it would
   * start with `#` or a space rather than `<`.
   */
  lemma CleanAroundHeader(t: string, j: nat)
    requires OccursAt(t, "### ", j)
    ensures Clean(t, MarkdownTags(), j) && Clean(t, MarkdownTags(), j + 4)
  {
    var tags := MarkdownTags();
    MarkdownTagsSafe();
    assert t[j] == '#' && t[j + 1] == '#' && t[j + 2] == '#' && t[j + 3] == ' ' by {
      assert t[j..j + 4] == "### ";
    }
    forall k, i: nat | 0 <= k < |tags| && i < j < i + |tags[k]| ensures !OccursAt(t, tags[k], i) {
      HashNotInTag(t, tags[k], i, j);
    }
    forall k, i: nat | 0 <= k < |tags| && i < j + 4 < i + |tags[k]| ensures !OccursAt(t, tags[k], i) {
      HeaderEndNotInTag(t, tags[k], i, j);
    }
  }

  /** A tag cannot hold a `#` followed by another `#`, nor end in `#`. */
  lemma HashNotInTag(t: string, g: string, i: nat, j: nat)
    requires SafeTag(g) && j + 1 < |t| && t[j] == '#' && t[j + 1] == '#' && i < j < i + |g|
    ensures !OccursAt(t, g, i)
  {
    if i + |g| <= |t| {
      var u := t[i..i + |g|];
      if j - i + 1 < |g| {
        assert u[j - i] == '#' && u[j - i + 1] == '#';
        assert u[j - i] != g[j - i] || u[j - i + 1] != g[j - i + 1];
      } else {
        assert u[j - i] != g[j - i];
      }
    }
  }

  /** A tag that reaches past `### ` but starts inside it would hold `##` or start with something other than `<`. */
  lemma HeaderEndNotInTag(t: string, g: string, i: nat, j: nat)
    requires SafeTag(g) && j + 4 <= |t| && t[j] == '#' && t[j + 1] == '#' && t[j + 2] == '#' && t[j + 3] == ' '
    requires i < j + 4 < i + |g|
    ensures !OccursAt(t, g, i)
  {
    if i + |g| <= |t| {
      var u := t[i..i + |g|];
      if i <= j + 1 {
        assert u[j + 1 - i] == '#' && u[j + 2 - i] == '#';
        assert u[j + 1 - i] != g[j + 1 - i] || u[j + 2 - i] != g[j + 2 - i];
      } else {
        assert u[0] == t[i];
        assert u[0] != g[0];
      }
    }
  }

  /** Pass 6 keeps the text readable. */
  lemma HeadersSafe(t: string)
    requires Segments(t, MarkdownTags())
    ensures Segments(Headers(t), MarkdownTags())
  {
    var tags := MarkdownTags();
    MarkdownTagsFacts();
    forall j | 0 <= j < |t| && HeaderAt(t, j).Some?
      ensures Clean(t, tags, j) && Clean(t, tags, HeaderAt(t, j).value.end)
      ensures Segments(HeaderAt(t, j).value.replacement, tags)
    {
      var e := RunEnd(t, j + 4, NotLineTerminator);
      CleanAroundHeader(t, j);
      if e < |t| {
        CleanAtChar(t, tags, e);
      }
      SegmentsSlice(t, tags, j + 4, e);
      Wrapped(H3Open, t[j + 4..e], H3Close);
    }
    ReplaceKeepsSegments(t, HeaderAt, tags);
  }

  /** Pass 7 keeps the text readable: line breaks occur in no tag. */
  lemma BreaksSafe(t: string)
    requires Segments(t, MarkdownTags())
    ensures Segments(Breaks(t), MarkdownTags())
  {
    var tags := MarkdownTags();
    MarkdownTagsFacts();
    forall j | 0 <= j < |t| && BreakAt(t, j).Some?
      ensures Clean(t, tags, j) && Clean(t, tags, BreakAt(t, j).value.end)
      ensures Segments(BreakAt(t, j).value.replacement, tags)
    {
      assert t[j] == '\n' && t[j + 1] == '\n' by { assert t[j..j + 2] == "\n\n"; }
      CleanAtChar(t, tags, j);
      CleanAfterChar(t, tags, j + 2);
      TagSegments(Br);
      AddTag(Br, Br);
    }
    ReplaceKeepsSegments(t, BreakAt, tags);
  }

  predicate NotNewline(c: char) { c != '\n' }

  /**
   * What the list pass needs of a tag table: tags are `<…>`, none holds a
   * line break, and the list tags are among them. Stated of any table so
   * that the proofs below do not unfold the renderer's own.
   */
  predicate ListTags(tags: seq<string>)
  {
    && TagsWellFormed(tags) && NotInTags('\n', tags)
    && UlOpen in tags && UlClose in tags && OlOpen in tags && OlClose in tags
    && LiOpen in tags && LiClose in tags
  }

  lemma ListTagsListed()
    ensures UlOpen in MarkdownTags() && UlClose in MarkdownTags()
    ensures OlOpen in MarkdownTags() && OlClose in MarkdownTags()
    ensures LiOpen in MarkdownTags() && LiClose in MarkdownTags()
  {
    var tags := MarkdownTags();
    assert tags[12] == UlOpen && tags[13] == UlClose && tags[14] == OlOpen;
    assert tags[15] == OlClose && tags[16] == LiOpen && tags[17] == LiClose;
  }

  lemma MarkdownListTags()
    ensures ListTags(MarkdownTags())
  {
    MarkdownTagsFacts();
    assert IsLineTerminator('\n');
    ListTagsListed();
  }

  /** Every line of a readable text is readable: a line break occurs in no tag. */
  lemma {:induction false} SplitSafe(t: string, tags: seq<string>)
    requires NotInTags('\n', tags) && Segments(t, tags)
    ensures forall k | 0 <= k < |Split(t, '\n')| :: Segments(Split(t, '\n')[k], tags)
    decreases |t|
  {
    var p := RunEnd(t, 0, NotNewline);
    if p == |t| {
      assert '\n' !in t by {
        forall i | 0 <= i < |t| ensures t[i] != '\n' {
          assert NotNewline(t[i]);
        }
      }
      SplitNoSep(t, '\n');
    } else {
      SplitAt(t, '\n', p);
      CleanAtChar(t, tags, p);
      CleanAfterChar(t, tags, p + 1);
      SegmentsCut(t, tags, p);
      SegmentsCut(t, tags, p + 1);
      SplitSafe(t[p + 1..], tags);
    }
  }

  /** Readable lines joined with line breaks. */
  lemma {:induction false} JoinSafe(parts: seq<string>, tags: seq<string>)
    requires forall k | 0 <= k < |parts| :: Segments(parts[k], tags)
    ensures Segments(Join(parts, '\n'), tags)
    decreases |parts|
  {
    if |parts| > 1 {
      JoinSafe(parts[1..], tags);
      SegmentsPlain("\n", tags);
      SegmentsConcat(parts[0], "\n", tags);
      SegmentsConcat(parts[0] + "\n", Join(parts[1..], '\n'), tags);
    }
  }

  /** An item cut from a readable line where no `<` comes before it and no `>` after it. */
  lemma ItemSafe(line: string, a: nat, b: nat, item: string, tags: seq<string>)
    requires TagsWellFormed(tags) && LiOpen in tags && LiClose in tags
    requires Segments(line, tags) && a <= b <= |line| && item == line[a..b]
    requires forall i | 0 <= i < a :: line[i] != '<'
    requires forall i | b <= i < |line| :: line[i] != '>'
    ensures Segments(Item(item), tags)
  {
    CleanAfterPlain(line, tags, a);
    CleanBeforePlain(line, tags, b);
    SegmentsSlice(line, tags, a, b);
    WrappedIn(LiOpen, line[a..b], LiClose, tags);
  }

  /** The trim and a marker of `n` characters hold no `<`; what the trim drops at the end holds no `>`. */
  lemma MarkerPlain(line: string, n: nat)
    requires n <= |Trim(line)|
    requires forall i | 0 <= i < n :: Trim(line)[i] != '<'
    ensures forall i | 0 <= i < TrimOffset(line) + n :: line[i] != '<'
    ensures forall i | TrimOffset(line) + |Trim(line)| <= i < |line| :: line[i] != '>'
  {
    var r, off := Trim(line), TrimOffset(line);
    assert off + |r| <= |line| && r == line[off..off + |r|];
    forall i | 0 <= i < off ensures line[i] != '<' {
      assert IsSpace(line[i]);
    }
    forall i | off <= i < off + n ensures line[i] != '<' {
      assert r[i - off] != '<';
    }
    forall i | off + |r| <= i < |line| ensures line[i] != '>' {
      assert IsSpace(line[i]);
    }
  }

  /** The item after a marker of `n` characters that holds no `<`. */
  lemma MarkedItemSafe(line: string, n: nat, tags: seq<string>)
    requires TagsWellFormed(tags) && LiOpen in tags && LiClose in tags && Segments(line, tags)
    requires n <= |Trim(line)|
    requires forall i | 0 <= i < n :: Trim(line)[i] != '<'
    ensures Segments(Item(Trim(line)[n..]), tags)
  {
    var r, off := Trim(line), TrimOffset(line);
    var item := r[n..];
    assert item == line[off + n..off + |r|] by {
      assert r == line[off..off + |r|];
    }
    assert forall i | 0 <= i < off + n :: line[i] != '<' by {
      MarkerPlain(line, n);
    }
    assert forall i | off + |r| <= i < |line| :: line[i] != '>' by {
      MarkerPlain(line, n);
    }
    ItemSafe(line, off + n, off + |r|, item, tags);
  }

  /**
   * A readable line renders readable: what the trim and the marker remove
   * holds no `<` before an item and no `>` after it, so the item starts and
   * ends where no tag straddles.
   */
  lemma RenderedSafe(line: string, tags: seq<string>)
    requires TagsWellFormed(tags) && LiOpen in tags && LiClose in tags && Segments(line, tags)
    ensures Segments(Rendered(line), tags)
  {
    var r := Trim(line);
    if IsPrefix("- ", r) {
      assert r[..2] == "- ";
      assert r[0] == '-' && r[1] == ' ';
      MarkedItemSafe(line, 2, tags);
    } else {
      var n := NumberMarker(r);
      if n > 0 {
        assert IsNumberMarker(r, n);
        forall i | 0 <= i < n ensures r[i] != '<' {
          if i < n - 2 {
            assert IsDigit(r[i]);
          }
        }
        MarkedItemSafe(line, n, tags);
      }
    }
  }

  /** A list tag the pass emits is one of the table's tags. */
  lemma EmitTagSafe(e: Emit, tags: seq<string>)
    requires ListTags(tags) && !e.Line?
    ensures Segments(EmitText(e), tags)
  {
    match e
    case Open(Ul) => TagIn(UlOpen, tags);
    case Open(Ol) => TagIn(OlOpen, tags);
    case Shut(Ul) => TagIn(UlClose, tags);
    case Shut(Ol) => TagIn(OlClose, tags);
  }

  lemma PrefixSafe(t: Option<ListKind>, k: LineKind, tags: seq<string>)
    requires ListTags(tags)
    ensures forall e | e in Prefix(t, k) :: Segments(EmitText(e), tags)
  {
    forall e | e in Prefix(t, k) ensures Segments(EmitText(e), tags) {
      assert !e.Line?;
      EmitTagSafe(e, tags);
    }
  }

  /** Every line the list pass emits is a list tag or a readable line. */
  lemma {:induction false} ListFromSafe(t: Option<ListKind>, lines: seq<string>, tags: seq<string>)
    requires ListTags(tags)
    requires forall i | 0 <= i < |lines| :: Segments(lines[i], tags)
    ensures forall e | e in ListFrom(t, lines) :: Segments(EmitText(e), tags)
    decreases |lines|
  {
    if lines == [] {
      PrefixSafe(t, Plain, tags);
    } else {
      var k := Classify(lines[0]);
      var pre, x, rest := Prefix(t, k), Line(Rendered(lines[0])), ListFrom(Next(k), lines[1..]);
      assert ListFrom(t, lines) == pre + [x] + rest by {
        ListFromCons(t, lines);
      }
      PrefixSafe(t, k, tags);
      assert Segments(EmitText(x), tags) by {
        RenderedSafe(lines[0], tags);
      }
      ListFromSafe(Next(k), lines[1..], tags);
    }
  }

  lemma ListLinesSafe(lines: seq<string>, tags: seq<string>)
    requires ListTags(tags)
    requires forall i | 0 <= i < |lines| :: Segments(lines[i], tags)
    ensures forall i | 0 <= i < |ListLines(lines)| :: Segments(ListLines(lines)[i], tags)
  {
    var es := ListFrom(None, lines);
    ListFromSafe(None, lines, tags);
    forall i | 0 <= i < |es| ensures Segments(Texts(es)[i], tags) {
      assert es[i] in es;
    }
  }

  lemma ListsSafeFor(t: string, tags: seq<string>)
    requires ListTags(tags) && Segments(t, tags)
    ensures Segments(Lists(t), tags)
  {
    var lines := Split(t, '\n');
    assert forall k | 0 <= k < |lines| :: Segments(lines[k], tags) by {
      SplitSafe(t, tags);
    }
    var out := ListLines(lines);
    assert forall i | 0 <= i < |out| :: Segments(out[i], tags) by {
      ListLinesSafe(lines, tags);
    }
    JoinSafe(out, tags);
  }

  /** Pass 5 keeps the text readable. */
  lemma ListsSafe(t: string)
    requires Segments(t, MarkdownTags())
    ensures Segments(Lists(t), MarkdownTags())
  {
    MarkdownListTags();
    ListsSafeFor(t, MarkdownTags());
  }

  /**
   * No markup from the value reaches the output: what `transform` returns
   * reads as characters other than `<` and whole tags the renderer writes.
   */
  lemma RenderSafe(value: string)
    ensures Segments(Render(value), MarkdownTags())
  {
    if value != [] {
      var t := EscapeMarkup(value);
      CodeBlocksSafe(t);
      t := CodeBlocks(t);
      InlineCodeSafe(t);
      t := InlineCode(t);
      BoldSafe(t);
      t := Bold(t);
      ListsSafe(t);
      t := Lists(t);
      HeadersSafe(t);
      BreaksSafe(Headers(t));
    }
  }
}
