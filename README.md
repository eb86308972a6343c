# Incident-AI text routines in Dafny

Incident-AI is an Angular front end. An engineer pastes a log into it and gets back an
incident analysis. This project models the three hand-written text routines of that front
end and proves what they promise:

- **The analysis viewer's command palette and knowledge-base filter**
  (`filteredCommands`, `filteredKbArticles`).
  - The palette cuts the query into lower-case tokens.
  - A token matches a command as a substring, or by a greedy two-cursor walk when its
    characters occur in order.
  - Each matching token adds to the command's score. A command is kept only when every
    token matches and the total is positive.
  - The kept commands are sorted by descending score, and the stable sort keeps equal
    scores in input order.
  - The same component holds the remediation checklist (`toggleStep`, `isStepComplete`,
    `completedStepsCount`) and the history list kept by `saveToLocalStorage`.
  - The history panel's `deleteItem` filter is modelled beside the history list.
- **The log editor's grep view, HTML escaping, redaction and submit gate**
  (`filteredLogs`, its `escapeHtml`, `sanitizeLogs`, `togglePrivacy`, `onSubmit`).
  - The grep view numbers the lines of the log from 1 and keeps those that contain the
    search term, ignoring case.
  - Each kept line is rendered with every occurrence of the term escaped and wrapped in a
    highlight span.
  - Redaction replaces email-shaped text, then IPv4-shaped text, with placeholders.
  - Submission redacts only in privacy mode, and emits only when there is text or an image.
- **`MarkdownPipe.transform`**. Seven passes run in order:
  1. escaping `&`, `<` and `>`
  2. fenced code blocks
  3. inline code
  4. bold
  5. a line-by-line list state machine
  6. `### ` headers
  7. paragraph breaks

  The main theorem (`Markdown.RenderSafe`) is that every `<` in the output begins one of
  the renderer's own tags. Markup from the input therefore never reaches the page.

Modules:

- `Text`: ASCII character classes, `toLowerCase`, `trim`, `indexOf`, `split` and `join`,
  and subsequences.
- `HtmlEscape`: the five-character `escapeHtml` and its inverse.
- `GlobalReplace`: JavaScript's `String.prototype.replace` with a global regular expression,
  as a leftmost, non-overlapping scan driven by a matcher.
- `Markup`: "plain text and whole tags", the safety predicate.
- `CommandSearch`: the command palette and the knowledge-base filter.
- `ViewerState`: the checklist class and the history list.
- `LogGrep`: the grep view.
- `Redact`: redaction and the log editor's state.
- `Markdown`: the markdown pipe.

Modelling choices:

- Strings are `seq<char>` over ASCII. `toLowerCase` maps `A`–`Z` only. Whitespace is ASCII
  tab, line feed, vertical tab, form feed, carriage return and space.
- Command scores take half-integer values, so every score is kept doubled, as an `int`.
- Each regular expression is a matcher that returns the match a JavaScript engine finds at
  a given index (greedy with backtracking, or lazy, as written). Each matcher is related to
  a declarative description of the words its expression matches.
- Each loop or in-place update of the source is a `method` proved against a function:
  - the fuzzy walk (`FuzzyMatch`)
  - the scoring of one command (`ScoreCommand`)
  - the list pass (`ProcessLists`, with the steps `OpenList`, `CloseList` and `PushLine`)
  - the history update (`SaveToHistory`)
  - the markdown pipeline (`Transform`)
- State the components update in place is held by classes:
  - the set of completed steps (`ViewerState.Checklist`)
  - the log editor's content, privacy flag, image and persona (`Redact.LogEditor`)

## Model

| member | source | states |
|---|---|---|
| CommandSearch.FilteredCommandsBlank | src/components/analysis-viewer.component.ts:548-551 | a filter that is empty after trimming returns the command list unchanged and in the same order |
| CommandSearch.WordsJoin | src/components/analysis-viewer.component.ts:554 | splitting on whitespace runs and dropping empty pieces gives back exactly the non-empty, space-free words that were joined |
| CommandSearch.GreedyWalkAcceptsIffSubsequence | src/components/analysis-viewer.component.ts:574-591 | the greedy two-cursor walk consumes the whole token exactly when the token is an in-order subsequence of the command |
| CommandSearch.GreedyWalkBounds | src/components/analysis-viewer.component.ts:579-594 | an accepted walk has a fuzzy score between the token length and 3·length−2, and its command cursor lies between the token length and the command length |
| CommandSearch.FuzzyMatch | src/components/analysis-viewer.component.ts:574-589 | the `while` loop ends with the cursors and fuzzy score of the greedy walk, and it consumes the whole token iff the token is a subsequence of the command |
| CommandSearch.TokenScore | src/components/analysis-viewer.component.ts:561-599 | a token scores iff it is a subsequence of the command; a substring hit scores (doubled) 200, plus 40 for a prefix, minus the first index; a fuzzy-only hit scores at least 2 (1 undoubled) |
| CommandSearch.TotalScoreMatchesAll | src/components/analysis-viewer.component.ts:561-605 | a command has a total score exactly when every token matches it |
| CommandSearch.TotalScoreTokenOrder | src/components/analysis-viewer.component.ts:553-561 | the total score depends only on the multiset of tokens, not on their order in the query |
| CommandSearch.ScoreCommand | src/components/analysis-viewer.component.ts:556-606 | the `every` loop that accumulates `totalScore` yields the command's total when every token matches, and 0 otherwise |
| CommandSearch.Rank | src/components/analysis-viewer.component.ts:556-606 | one entry per command, in input order, carrying the command, its score and its index |
| CommandSearch.KeepPositive | src/components/analysis-viewer.component.ts:610 | exactly the entries with a positive score are kept, and input order is preserved |
| CommandSearch.Sort | src/components/analysis-viewer.component.ts:611 | the sort is a permutation of its input |
| CommandSearch.SortOrdered | src/components/analysis-viewer.component.ts:611 | entries in input order come out by descending score, with ties in input order (a stable sort) |
| CommandSearch.OrderedUnique | src/components/analysis-viewer.component.ts:611 | two orderings of the same entries by descending score, then index, are equal, so the stable result is unique |
| CommandSearch.FilteredCommandsSpec | src/components/analysis-viewer.component.ts:547-613 | for a non-blank filter, the output lists exactly the commands whose total score is positive, all tokens being subsequences of each, by descending score with ties in input order |
| CommandSearch.RankingSound | src/components/analysis-viewer.component.ts:602-612 | every ranked entry is an input command whose every token matches and whose score is positive |
| CommandSearch.RankingComplete | src/components/analysis-viewer.component.ts:602-612 | every input command with a positive score is ranked |
| CommandSearch.FilteredCommandsTokenOrder | src/components/analysis-viewer.component.ts:554-612 | two queries with the same tokens in any order give the same output |
| CommandSearch.LateSubstringExcluded | src/components/analysis-viewer.component.ts:563-568 | a one-token query whose first occurrence is at index 200 or later scores at most 0 and drops the command although it matched |
| CommandSearch.ArticlesContaining | src/components/analysis-viewer.component.ts:619 | an article is kept iff its lower-case form contains the filter, every copy of it in the input |
| CommandSearch.ArticlesContainingInOrder | src/components/analysis-viewer.component.ts:619 | the kept articles are a subsequence of the articles (input order is kept) |
| CommandSearch.FilteredKbArticles | src/components/analysis-viewer.component.ts:615-620 | a blank lower-cased, trimmed filter returns the articles unchanged; otherwise exactly the articles containing it, each as often as in the input, in input order |
| ViewerState.Toggle | src/components/analysis-viewer.component.ts:530-538 | the index flips membership, every other index keeps it, and the size moves by one |
| ViewerState.ToggleTwice | src/components/analysis-viewer.component.ts:529-539 | toggling the same step twice restores the set |
| ViewerState.ToggleCommutes | src/components/analysis-viewer.component.ts:529-539 | toggling two steps gives the same set in either order |
| ViewerState.Checklist.constructor | src/components/analysis-viewer.component.ts:501 | a fresh checklist has no completed steps |
| ViewerState.Checklist.Reset | src/components/analysis-viewer.component.ts:522 | a new analysis empties the set of completed steps |
| ViewerState.Checklist.ToggleStep | src/components/analysis-viewer.component.ts:529-545 | the set becomes the toggle of the old set; the step's completion flips and the completed count moves by one |
| ViewerState.Head | src/components/analysis-viewer.component.ts:708 | `substring(0, n)` is the prefix of length n, or the whole string when shorter |
| ViewerState.NewHistoryItem | src/components/analysis-viewer.component.ts:704-709 | the item keeps id, timestamp and analysis, and its snippet is the whole log when it has at most 200 characters, else its first 200 |
| ViewerState.SaveToHistory | src/components/analysis-viewer.component.ts:716-721 | the new item comes first, the previous items follow in order, and the list is cut to 50 |
| ViewerState.DeleteItem | src/components/history-panel.component.ts:101 | exactly the items with another id remain, each as often as before |
| ViewerState.DeleteItemInOrder | src/components/history-panel.component.ts:101 | the remaining items keep their order |
| ViewerState.DeleteAbsent | src/components/history-panel.component.ts:101 | deleting an id no item has leaves the list unchanged |
| Text.Trim | src/components/analysis-viewer.component.ts:548 | the trim is the slice left after dropping leading and trailing whitespace; it is empty iff the string is all whitespace |
| Text.TrimLower | src/components/analysis-viewer.component.ts:616 | lower-casing and trimming commute |
| Text.IndexOfSpec | src/components/analysis-viewer.component.ts:563-568 | `indexOf` returns the first occurrence, and −1 exactly when there is none |
| Text.PrefixIffIndexZero | src/components/analysis-viewer.component.ts:566 | `startsWith` holds exactly when the first occurrence is at index 0 |
| Text.JoinSplit | src/components/log-editor.component.ts:263 | joining the pieces of `split('\n')` with the separator gives back the text |
| Text.SplitJoin | src/pipes/markdown.pipe.ts:35-75 | splitting a join of separator-free lines gives back the lines |
| LogGrep.FilteredLogs | src/components/log-editor.component.ts:261 | an empty term or an empty log yields no lines |
| LogGrep.FilteredLogsSpec | src/components/log-editor.component.ts:257-289 | for a non-empty term (not trimmed) and log, exactly the numbered lines mentioning the term case-insensitively are kept, in increasing line order, with their highlighted HTML |
| LogGrep.NumberLines | src/components/log-editor.component.ts:276 | line k of the log gets number k+1 |
| LogGrep.KeepMentions | src/components/log-editor.component.ts:277 | exactly the numbered lines whose lower-case text contains the lower-case term are kept |
| LogGrep.KeepMentionsIncreasing | src/components/log-editor.component.ts:277 | filtering keeps line numbers increasing |
| LogGrep.RenderLines | src/components/log-editor.component.ts:278-288 | each kept line keeps its number and text and gains its highlighted HTML |
| LogGrep.GrepSound | src/components/log-editor.component.ts:275-288 | every entry is a numbered log line that mentions the term, with its highlighted rendering |
| LogGrep.GrepComplete | src/components/log-editor.component.ts:275-288 | every line that mentions the term has an entry |
| LogGrep.GrepInLineOrder | src/components/log-editor.component.ts:275-288 | entries are in increasing line order |
| LogGrep.EscapeRegExpIsLiteral | src/components/log-editor.component.ts:279 | the escaped term read as a regular expression is the literal term, so metacharacters match themselves |
| LogGrep.NextMatchLeftmost | src/components/log-editor.component.ts:279 | no case-insensitive occurrence of the term starts before the match found |
| LogGrep.NextMatchFound | src/components/log-editor.component.ts:279 | the match found is a case-insensitive occurrence of the term |
| LogGrep.SplitFromConcat | src/components/log-editor.component.ts:279 | concatenating the parts of the split on the captured term gives back the line |
| LogGrep.SplitFromMatches | src/components/log-editor.component.ts:279-281 | the parts alternate: the odd parts equal the term ignoring case and the even parts do not, which is what the highlight test tells apart |
| LogGrep.HighlightRecoversLine | src/components/log-editor.component.ts:280-286 | removing the highlight spans and unescaping the HTML gives back the log line |
| LogGrep.HighlightLineSafe | src/components/log-editor.component.ts:280-286 | every `<` in a rendered line begins one of the highlight tags |
| HtmlEscape.EscapeHtml | src/components/log-editor.component.ts:266-273 | each character maps to its entity or itself, and the result contains none of `< > " '` |
| HtmlEscape.EscapeHtmlIsOnePass | src/components/log-editor.component.ts:266-273 | the chain of five replaces, `&` first, equals the one-pass character map and leaves no `< > " '` |
| HtmlEscape.UnescapeEscapeHtml | src/components/log-editor.component.ts:266-273 | unescaping the escaped text gives it back, so escaping loses nothing |
| Redact.EmailAtSound | src/components/log-editor.component.ts:346 | a match of the email matcher is a word of `[A-Za-z0-9._%+-]+@[A-Za-z0-9.-]+\.[A-Za-z]{2,}` replaced by the email placeholder |
| Redact.EmailAtLongest | src/components/log-editor.component.ts:346 | every word of that language starting at the index ends no later than the match the greedy engine takes |
| Redact.QuadFromExact | src/components/log-editor.component.ts:350 | the scan of digit groups ends at f exactly when 1–3 digits and a dot repeat the given number of times and a final group ends at f |
| Redact.IpAtExact | src/components/log-editor.component.ts:350 | the IP matcher returns a hit ending at f iff `\b(?:\d{1,3}\.){3}\d{1,3}\b` matches from the index to f, with no 0–255 check |
| Redact.EmailPlaceholderInert | src/components/log-editor.component.ts:346-350 | the IP pass leaves the email placeholder unchanged |
| Redact.IpPlaceholderInert | src/components/log-editor.component.ts:346-350 | the email pass leaves the IP placeholder unchanged |
| Redact.RedactEmailsWithoutAt | src/components/log-editor.component.ts:346 | text without `@` passes the email pass unchanged |
| Redact.RedactIpsWithoutDigits | src/components/log-editor.component.ts:350 | text without digits passes the IP pass unchanged |
| Redact.SanitizeKeepsEmptiness | src/components/log-editor.component.ts:342-353 | the sanitized text is empty exactly when the input is |
| Redact.SanitizeOutOfRangeGroups | src/components/log-editor.component.ts:350 | `999.999.999.999` is redacted although no group is a valid octet |
| Redact.SanitizeFiveGroups | src/components/log-editor.component.ts:350 | in `1.2.3.4.5` the first four groups are redacted and `.5` is left |
| Redact.ImageOrNone | src/components/log-editor.component.ts:365 | an empty image counts as none; a non-empty one is kept |
| Redact.Submit | src/components/log-editor.component.ts:355-369 | a submission is emitted iff the log or the image is non-empty; it carries the sanitized log exactly in privacy mode, and the image and persona |
| Redact.LogEditor.constructor | src/components/log-editor.component.ts:240-249 | the editor starts with an empty log, privacy mode off, no image and the senior SRE persona |
| Redact.LogEditor.TogglePrivacy | src/components/log-editor.component.ts:297-304 | privacy mode flips and nothing else changes |
| Redact.LogEditor.OnSubmit | src/components/log-editor.component.ts:355-369 | the emitted value is the gate's result on the editor's current state |
| Markdown.Transform | src/pipes/markdown.pipe.ts:11-84 | the seven passes give the rendered text; empty input gives `''`; every `<` in the output begins one of the renderer's tags |
| Markdown.EscapeMarkup | src/pipes/markdown.pipe.ts:15 | `&`, `<`, `>` map to their entities and nothing else changes (quotes pass through); no `<` or `>` remains |
| Markdown.UnescapeEscapeMarkup | src/pipes/markdown.pipe.ts:15 | the first pass loses nothing: unescaping gives the input back |
| Markdown.CodeBlockAtMatches | src/pipes/markdown.pipe.ts:19-26 | at a fence with a `\w*` label and a later fence, the match ends at the first later fence; the label is that run, or `CODE` when empty, and the body is trimmed |
| Markdown.CodeBlockAtFound | src/pipes/markdown.pipe.ts:19-26 | every match of the code-block matcher has that shape |
| Markdown.CodeBlockAtNone | src/pipes/markdown.pipe.ts:19-26 | there is no match exactly when there is no fence at the index or no fence after its label |
| Markdown.InlineCodeAtMatches | src/pipes/markdown.pipe.ts:29 | a backtick, one or more non-backticks and a backtick become an inline `<code>` around the content |
| Markdown.InlineCodeAtFound | src/pipes/markdown.pipe.ts:29 | every inline-code match has that shape |
| Markdown.BoldAtMatches | src/pipes/markdown.pipe.ts:32 | `**`, the shortest run of non-line-terminators (possibly empty), then `**` become `<strong>` around the content |
| Markdown.BoldAtFound | src/pipes/markdown.pipe.ts:32 | every bold match has that shape |
| Markdown.NumberMarkerUnique | src/pipes/markdown.pipe.ts:52-59 | the `^\d+\.\s` marker length found is the only one a trimmed line has |
| Markdown.ClassifySpec | src/pipes/markdown.pipe.ts:40-62 | a trimmed line starting with `- ` is a bullet item of the rest after two characters; otherwise a line with a numbered marker is a numbered item with the marker removed; any other line is plain |
| Markdown.OpenList | src/pipes/markdown.pipe.ts:44-48 | the step pushes the close of the other list (if open) and the new list's opening tag, and records the new list type |
| Markdown.CloseList | src/pipes/markdown.pipe.ts:63-73 | the step pushes the closing tag of the open list, if any, and clears the list type |
| Markdown.PushLine | src/pipes/markdown.pipe.ts:40-68 | one iteration pushes the list tags the line's kind calls for, then its item or the line untrimmed, and sets the list type the kind leaves open |
| Markdown.ProcessLists | src/pipes/markdown.pipe.ts:35-75 | the loop with its final close pushes exactly the lines of the list state machine |
| Markdown.ListFromPaired | src/pipes/markdown.pipe.ts:43-73 | the list tags pushed, after any list already open, are properly paired: one list at a time, each `<ul>`/`<ol>` closed by its own closing tag before another opens, and none left open |
| Markdown.ListFromLines | src/pipes/markdown.pipe.ts:39-69 | removing the list tags from the output leaves one rendered line per input line, in order |
| Markdown.RenderedLinesAt | src/pipes/markdown.pipe.ts:49-67 | the i-th rendered line is the item or the untrimmed line that input line i produces |
| Markdown.HeaderAtMatches | src/pipes/markdown.pipe.ts:78 | `### ` anywhere, even mid-line, and everything up to the line end become an `<h3>` around that text |
| Markdown.HeaderAtFound | src/pipes/markdown.pipe.ts:78 | every header match has that shape |
| Markdown.BreakAt | src/pipes/markdown.pipe.ts:81 | a match is exactly a `\n\n` at the index, and it becomes `<br><br>` |
| Markdown.CodeBlocksSafe | src/pipes/markdown.pipe.ts:19-26 | on escaped text the code-block pass leaves every `<` at the start of a renderer tag |
| Markdown.InlineCodeSafe | src/pipes/markdown.pipe.ts:29 | the inline-code pass keeps the output made of plain text and whole renderer tags |
| Markdown.BoldSafe | src/pipes/markdown.pipe.ts:32 | the bold pass keeps the output made of plain text and whole renderer tags |
| Markdown.ListsSafe | src/pipes/markdown.pipe.ts:35-75 | the list pass keeps the output made of plain text and whole renderer tags |
| Markdown.HeadersSafe | src/pipes/markdown.pipe.ts:78 | the header pass keeps the output made of plain text and whole renderer tags, even when `### ` sits inside a list line |
| Markdown.BreaksSafe | src/pipes/markdown.pipe.ts:81 | the break pass keeps the output made of plain text and whole renderer tags |
| Markdown.RenderSafe | src/pipes/markdown.pipe.ts:15-83 | no `<` from the input survives: every `<` in the output begins one of the renderer's fixed tags, so input such as `<script>` can never appear |

## Left out

- The Gemini service (network calls, chat sessions, prompt templates, error mapping) is not part of this model.
- `localStorage`, `JSON.parse`/`stringify`, `formatJson`, `Date` and locale formatting are left out. The history item's id and timestamp are parameters.
- `FileReader`, the clipboard, speech, downloads and the export templating in `copyForSlack`/`downloadReport`/`downloadFile` are browser calls and are left out.
- Toasts in `togglePrivacy`, and Angular signals, `effect`, templates and `output` emitters, are left out. Each `computed` is a function of its inputs, and `onSubmit` returns what it would emit.
- `DomSanitizer.bypassSecurityTrustHtml` is the identity on the rendered string.
- `null`, `undefined` and other falsy values are not modelled. An empty string stands for a missing log, term or value, and `Option` stands for an optional image.
- `Text.Lower`: case mapping covers ASCII only, where `toLowerCase` and the regex `i` flag agree. Non-ASCII letters are left as they are.
- `Text.Trim`: whitespace is ASCII only. `trim` and `\s` also accept Unicode spaces, which are not modelled.
- `CommandSearch.TokenScore`: scores are doubled integers instead of half-integer doubles. Every score is exact in a double, so order and sign are the same, but the model says nothing about floating point.
- `CommandSearch.SortOrdered`: the sort is specified by its result, a stable descending order, and not by the engine's algorithm. The result is unique (`OrderedUnique`), so any stable sort gives the same list.
- `Markdown.Transform`: what the output looks like in a browser is not modelled. Safety is stated on the string: every `<` begins one of the renderer's fixed tags.
- The confidence gauge, severity badge, toast container and app shell are presentation or orchestration code and are not part of this model.
