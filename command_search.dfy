/**
 * The command palette of the analysis viewer (`filteredCommands`) and its
 * knowledge-base filter (`filteredKbArticles`).
 *
 * A query is cut into lower-case tokens; a command is kept when every token
 * occurs in the lower-cased command, either as a substring or, failing that,
 * in order through a greedy two-cursor walk. Each token adds to the command's
 * score; commands whose total is positive are listed by descending score,
 * equal scores in input order. Scores in the component are multiples of one
 * half, so every score here is TWICE the component's, which keeps it an `int`.
 */
module CommandSearch {
  import opened Options
  import opened Text

  // ---------------------------------------------------------------------------
  // Tokens: `s.split(/\s+/).filter(t => t.length > 0)`
  // ---------------------------------------------------------------------------

  predicate NoSpace(w: string) { forall i | 0 <= i < |w| :: !IsSpace(w[i]) }

  /** The maximal runs of non-whitespace characters of `s`, in order. */
  function Words(s: string): (r: seq<string>)
    ensures forall k | 0 <= k < |r| :: r[k] != [] && NoSpace(r[k])
    ensures s != [] && !IsSpace(s[0]) ==> r != [] && r[0][0] == s[0]
    decreases |s|
  {
    if s == [] then []
    else
      var rest := Words(s[1..]);
      if IsSpace(s[0]) then rest
      else if |s| > 1 && !IsSpace(s[1]) then [[s[0]] + rest[0]] + rest[1..]
      else [[s[0]]] + rest
  }

  /** A whitespace character separates the words on either side of it. */
  lemma {:induction false} WordsAroundSpace(a: string, c: char, b: string)
    requires IsSpace(c)
    ensures Words(a + [c] + b) == Words(a) + Words(b)
    decreases |a|
  {
    var s := a + [c] + b;
    if a == [] {
      assert s[1..] == b;
    } else {
      assert s[1..] == a[1..] + [c] + b;
      WordsAroundSpace(a[1..], c, b);
      if |a| > 1 {
        assert s[1] == a[1];
      }
    }
  }

  /** A non-empty run of non-whitespace is a single word. */
  lemma {:induction false} WordsOfWord(w: string)
    requires w != [] && NoSpace(w)
    ensures Words(w) == [w]
    decreases |w|
  {
    if |w| > 1 {
      WordsOfWord(w[1..]);
      assert !IsSpace(w[1]);
      assert w == [w[0]] + w[1..];
    } else {
      assert w == [w[0]];
    }
  }

  /** Splitting words joined by single spaces gives the words back. */
  lemma {:induction false} WordsJoin(ws: seq<string>)
    requires forall k | 0 <= k < |ws| :: ws[k] != [] && NoSpace(ws[k])
    ensures Words(Join(ws, ' ')) == ws
    decreases |ws|
  {
    if |ws| == 1 {
      WordsOfWord(ws[0]);
    } else if |ws| > 1 {
      WordsJoin(ws[1..]);
      WordsOfWord(ws[0]);
      WordsAroundSpace(ws[0], ' ', Join(ws[1..], ' '));
      assert ws == [ws[0]] + ws[1..];
    }
  }

  /** The tokens of the command filter: trimmed, lower-cased, split on whitespace. */
  function QueryTokens(filter: string): seq<string>
  {
    Words(Lower(Trim(filter)))
  }

  // ---------------------------------------------------------------------------
  // The greedy two-cursor walk
  // ---------------------------------------------------------------------------

  /** The cursors and counters of the fuzzy walk. */
  datatype Walk = Walk(tokenIdx: nat, cmdIdx: nat, fuzzyScore: nat, consecutive: nat)

  predicate InRange(token: string, cmd: string, w: Walk)
  {
    w.tokenIdx <= |token| && w.cmdIdx <= |cmd|
  }

  /** One iteration: a matching character advances both cursors and scores 1, plus 2 when it extends a run. */
  function Step(token: string, cmd: string, w: Walk): (r: Walk)
    requires w.tokenIdx < |token| && w.cmdIdx < |cmd|
    ensures InRange(token, cmd, r) && r.cmdIdx == w.cmdIdx + 1
  {
    if token[w.tokenIdx] == cmd[w.cmdIdx] then
      var consecutive := w.consecutive + 1;
      Walk(w.tokenIdx + 1, w.cmdIdx + 1, w.fuzzyScore + 1 + (if consecutive > 1 then 2 else 0), consecutive)
    else
      Walk(w.tokenIdx, w.cmdIdx + 1, w.fuzzyScore, 0)
  }

  /** The walk run to the end from state `w`: it stops when either cursor reaches the end. */
  function WalkFrom(token: string, cmd: string, w: Walk): (r: Walk)
    requires InRange(token, cmd, w)
    ensures InRange(token, cmd, r)
    ensures r.tokenIdx == |token| || r.cmdIdx == |cmd|
    decreases |cmd| - w.cmdIdx
  {
    if w.tokenIdx < |token| && w.cmdIdx < |cmd| then WalkFrom(token, cmd, Step(token, cmd, w)) else w
  }

  function GreedyWalk(token: string, cmd: string): Walk
  {
    WalkFrom(token, cmd, Walk(0, 0, 0, 0))
  }

  /** The walk consumes the rest of the token exactly when it occurs, in order, in the rest of the command. */
  lemma {:induction false} WalkAcceptsIffSubsequence(token: string, cmd: string, w: Walk)
    requires InRange(token, cmd, w)
    ensures WalkFrom(token, cmd, w).tokenIdx == |token| <==> IsSubsequence(token[w.tokenIdx..], cmd[w.cmdIdx..])
    decreases |cmd| - w.cmdIdx
  {
    var i, j := w.tokenIdx, w.cmdIdx;
    if i == |token| {
      EmptyIsSubsequence(cmd[j..]);
    } else if j == |cmd| {
      NothingIsSubsequenceOfEmpty(token[i..]);
    } else {
      var w' := Step(token, cmd, w);
      WalkAcceptsIffSubsequence(token, cmd, w');
      var t, c := token[i..], cmd[j..];
      assert t == [t[0]] + t[1..] && c == [c[0]] + c[1..];
      if token[i] == cmd[j] {
        assert t[1..] == token[i + 1..] && c[1..] == cmd[j + 1..];
        if IsSubsequence(t[1..], c[1..]) {
          var idx :| EmbedsAt(t[1..], c[1..], idx);
          EmbedCons(t[0], t[1..], c[1..], idx);
        }
        if IsSubsequence(t, c) {
          SubsequenceTail(t, c);
        }
      } else {
        assert c[1..] == cmd[j + 1..];
        if IsSubsequence(t, c[1..]) {
          var idx :| EmbedsAt(t, c[1..], idx);
          EmbedSkip(c[0], t, c[1..], idx);
        }
        if IsSubsequence(t, c) {
          SubsequenceSkipHead(t, c);
        }
      }
    }
  }

  /** The greedy walk accepts a token exactly when the token is a subsequence of the command. */
  lemma GreedyWalkAcceptsIffSubsequence(token: string, cmd: string)
    ensures GreedyWalk(token, cmd).tokenIdx == |token| <==> IsSubsequence(token, cmd)
  {
    WalkAcceptsIffSubsequence(token, cmd, Walk(0, 0, 0, 0));
    assert token[0..] == token && cmd[0..] == cmd;
  }

  /** What every state of the walk satisfies: each matched character scores 1 to 3 (the first of a run 1), and the command cursor is never behind the token cursor. */
  predicate WalkBounds(w: Walk)
  {
    && w.tokenIdx <= w.cmdIdx
    && w.consecutive <= w.tokenIdx
    && w.tokenIdx <= w.fuzzyScore
    && w.fuzzyScore + (if w.tokenIdx > 0 then 2 else 0) <= 3 * w.tokenIdx
  }

  lemma {:induction false} WalkFromBounds(token: string, cmd: string, w: Walk)
    requires InRange(token, cmd, w) && WalkBounds(w)
    ensures WalkBounds(WalkFrom(token, cmd, w))
    decreases |cmd| - w.cmdIdx
  {
    if w.tokenIdx < |token| && w.cmdIdx < |cmd| {
      WalkFromBounds(token, cmd, Step(token, cmd, w));
    }
  }

  /** A token of length n accepted by the walk scores between n and 3n - 2, and the walk spent at least n command characters. */
  lemma GreedyWalkBounds(token: string, cmd: string)
    requires token != []
    requires GreedyWalk(token, cmd).tokenIdx == |token|
    ensures var w := GreedyWalk(token, cmd);
      |token| <= w.fuzzyScore <= 3 * |token| - 2 && |token| <= w.cmdIdx <= |cmd|
  {
    WalkFromBounds(token, cmd, Walk(0, 0, 0, 0));
  }

  /** The `while` loop of the fuzzy match, proved to compute the greedy walk. */
  method FuzzyMatch(token: string, lowerCmd: string) returns (tokenIdx: nat, cmdIdx: nat, fuzzyScore: nat)
    ensures var w := GreedyWalk(token, lowerCmd);
      tokenIdx == w.tokenIdx && cmdIdx == w.cmdIdx && fuzzyScore == w.fuzzyScore
    ensures tokenIdx == |token| <==> IsSubsequence(token, lowerCmd)
  {
    tokenIdx, cmdIdx, fuzzyScore := 0, 0, 0;
    var consecutiveMatches: nat := 0;
    while tokenIdx < |token| && cmdIdx < |lowerCmd|
      invariant tokenIdx <= |token| && cmdIdx <= |lowerCmd|
      invariant WalkFrom(token, lowerCmd, Walk(tokenIdx, cmdIdx, fuzzyScore, consecutiveMatches)) == GreedyWalk(token, lowerCmd)
      decreases |lowerCmd| - cmdIdx
    {
      if token[tokenIdx] == lowerCmd[cmdIdx] {
        tokenIdx := tokenIdx + 1;
        fuzzyScore := fuzzyScore + 1;
        consecutiveMatches := consecutiveMatches + 1;
        if consecutiveMatches > 1 {
          fuzzyScore := fuzzyScore + 2;
        }
      } else {
        consecutiveMatches := 0;
      }
      cmdIdx := cmdIdx + 1;
    }
    GreedyWalkAcceptsIffSubsequence(token, lowerCmd);
  }

  // ---------------------------------------------------------------------------
  // Scores (twice the component's)
  // ---------------------------------------------------------------------------

  function Max(a: int, b: int): int { if a >= b then a else b }

  /**
   * What one token adds to a command's score, or `None` when it does not
   * match: a substring hit gives 100, 20 more when the command starts with the
   * token, less half the index of the first occurrence; otherwise an accepted
   * walk gives at least 1, namely 10 plus the walk's score less half the
   * characters it skipped.
   */
  function TokenScore(token: string, lowerCmd: string): (r: Option<int>)
    ensures r.Some? <==> IsSubsequence(token, lowerCmd)
    ensures Contains(lowerCmd, token) ==> r == Some(200 + (if IsPrefix(token, lowerCmd) then 40 else 0) - IndexOf(lowerCmd, token))
    ensures !Contains(lowerCmd, token) && r.Some? ==> r.value >= 2
  {
    GreedyWalkAcceptsIffSubsequence(token, lowerCmd);
    if Contains(lowerCmd, token) then
      IndexOfSpec(lowerCmd, token);
      OccurrenceIsSubsequence(lowerCmd, token, IndexOf(lowerCmd, token));
      Some(200 + (if IsPrefix(token, lowerCmd) then 40 else 0) - IndexOf(lowerCmd, token))
    else
      var w := GreedyWalk(token, lowerCmd);
      if w.tokenIdx == |token| then Some(Max(2, 20 + 2 * w.fuzzyScore - (w.cmdIdx - |token|)))
      else None
  }

  /** The summed score of all tokens, or `None` as soon as one token fails. */
  function TotalScore(tokens: seq<string>, lowerCmd: string): Option<int>
    decreases |tokens|
  {
    if tokens == [] then Some(0)
    else
      var init := TotalScore(tokens[..|tokens| - 1], lowerCmd);
      var last := TokenScore(tokens[|tokens| - 1], lowerCmd);
      if init.Some? && last.Some? then Some(init.value + last.value) else None
  }

  /** A total exists exactly when every token occurs in order in the command. */
  lemma {:induction false} TotalScoreMatchesAll(tokens: seq<string>, lowerCmd: string)
    ensures TotalScore(tokens, lowerCmd).Some? <==> forall k | 0 <= k < |tokens| :: IsSubsequence(tokens[k], lowerCmd)
    decreases |tokens|
  {
    if tokens != [] {
      var init := tokens[..|tokens| - 1];
      TotalScoreMatchesAll(init, lowerCmd);
      assert forall k | 0 <= k < |tokens| - 1 :: init[k] == tokens[k];
    }
  }

  /** The score a command gets: its total when every token matches, 0 otherwise. */
  function CommandScore(tokens: seq<string>, lowerCmd: string): int
  {
    match TotalScore(tokens, lowerCmd)
    case Some(s) => s
    case None => 0
  }

  function AddScores(a: Option<int>, b: Option<int>): Option<int>
  {
    if a.Some? && b.Some? then Some(a.value + b.value) else None
  }

  lemma {:induction false} TotalScoreAppend(a: seq<string>, b: seq<string>, lowerCmd: string)
    ensures TotalScore(a + b, lowerCmd) == AddScores(TotalScore(a, lowerCmd), TotalScore(b, lowerCmd))
    decreases |b|
  {
    if b == [] {
      assert a + b == a;
    } else {
      var b' := b[..|b| - 1];
      TotalScoreAppend(a, b', lowerCmd);
      assert (a + b)[..|a + b| - 1] == a + b';
      assert (a + b)[|a + b| - 1] == b[|b| - 1];
    }
  }

  lemma TotalScoreMoveLast(b1: seq<string>, x: string, b2: seq<string>, lowerCmd: string)
    ensures TotalScore(b1 + [x] + b2, lowerCmd) == TotalScore(b1 + b2 + [x], lowerCmd)
  {
    var s1, sx, s2 := TotalScore(b1, lowerCmd), TotalScore([x], lowerCmd), TotalScore(b2, lowerCmd);
    calc {
      TotalScore(b1 + [x] + b2, lowerCmd);
      { TotalScoreAppend(b1 + [x], b2, lowerCmd); }
      AddScores(TotalScore(b1 + [x], lowerCmd), s2);
      { TotalScoreAppend(b1, [x], lowerCmd); }
      AddScores(AddScores(s1, sx), s2);
      AddScores(AddScores(s1, s2), sx);
      { TotalScoreAppend(b1, b2, lowerCmd); }
      AddScores(TotalScore(b1 + b2, lowerCmd), sx);
      { TotalScoreAppend(b1 + b2, [x], lowerCmd); }
      TotalScore(b1 + b2 + [x], lowerCmd);
    }
  }

  /** Where the last element of `a` sits in its permutation `b`, and what is left of both without it. */
  lemma RemoveLast<T>(a: seq<T>, b: seq<T>) returns (i: nat)
    requires a != [] && multiset(a) == multiset(b)
    ensures i < |b| && b[i] == a[|a| - 1]
    ensures multiset(a[..|a| - 1]) == multiset(b[..i] + b[i + 1..])
  {
    var x := a[|a| - 1];
    assert a == a[..|a| - 1] + [x];
    assert x in multiset(b);
    i :| 0 <= i < |b| && b[i] == x;
    assert b == b[..i] + [x] + b[i + 1..];
    assert multiset(b) == multiset(b[..i]) + multiset{x} + multiset(b[i + 1..]);
    assert multiset(b[..i] + b[i + 1..]) == multiset(b[..i]) + multiset(b[i + 1..]);
    var m1, m2 := multiset(a[..|a| - 1]), multiset(b[..i] + b[i + 1..]);
    assert m1 + multiset{x} == m2 + multiset{x};
    assert m1 == (m1 + multiset{x}) - multiset{x};
    assert m2 == (m2 + multiset{x}) - multiset{x};
  }

  /** The score does not depend on the order of the tokens in the query. */
  lemma {:induction false} TotalScoreTokenOrder(a: seq<string>, b: seq<string>, lowerCmd: string)
    requires multiset(a) == multiset(b)
    ensures TotalScore(a, lowerCmd) == TotalScore(b, lowerCmd)
    decreases |a|
  {
    if a != [] {
      var i := RemoveLast(a, b);
      var x, b1, b2 := a[|a| - 1], b[..i], b[i + 1..];
      var a' := a[..|a| - 1];
      assert a == a' + [x];
      assert b == b1 + [x] + b2;
      calc {
        TotalScore(a, lowerCmd);
        { TotalScoreAppend(a', [x], lowerCmd); }
        AddScores(TotalScore(a', lowerCmd), TotalScore([x], lowerCmd));
        { TotalScoreTokenOrder(a', b1 + b2, lowerCmd); }
        AddScores(TotalScore(b1 + b2, lowerCmd), TotalScore([x], lowerCmd));
        { TotalScoreAppend(b1 + b2, [x], lowerCmd); }
        TotalScore(b1 + b2 + [x], lowerCmd);
        { TotalScoreMoveLast(b1, x, b2, lowerCmd); }
        TotalScore(b, lowerCmd);
      }
    } else {
      assert |b| == |multiset(b)| == 0;
    }
  }

  /** The loop over the tokens (`tokens.every(...)` with its running `totalScore`), proved to compute `CommandScore`. */
  method ScoreCommand(tokens: seq<string>, cmd: string) returns (score: int)
    ensures score == CommandScore(tokens, Lower(cmd))
  {
    var lowerCmd := Lower(cmd);
    var totalScore := 0;
    var allTokensMatch := true;
    var i := 0;
    while i < |tokens| && allTokensMatch
      invariant 0 <= i <= |tokens|
      invariant allTokensMatch ==> TotalScore(tokens[..i], lowerCmd) == Some(totalScore)
      invariant !allTokensMatch ==> TotalScore(tokens[..i], lowerCmd).None?
    {
      var token := tokens[i];
      assert tokens[..i + 1][..i] == tokens[..i];
      if Contains(lowerCmd, token) {
        totalScore := totalScore + 200;
        if IsPrefix(token, lowerCmd) {
          totalScore := totalScore + 40;
        }
        totalScore := totalScore - IndexOf(lowerCmd, token);
      } else {
        var tokenIdx, cmdIdx, fuzzyScore := FuzzyMatch(token, lowerCmd);
        if tokenIdx == |token| {
          var spreadPenalty := cmdIdx - |token|;
          totalScore := totalScore + Max(2, 20 + 2 * fuzzyScore - spreadPenalty);
        } else {
          allTokensMatch := false;
        }
      }
      i := i + 1;
    }
    if allTokensMatch {
      assert tokens[..i] == tokens;
      score := totalScore;
    } else {
      TotalScoreAppend(tokens[..i], tokens[i..], lowerCmd);
      assert tokens[..i] + tokens[i..] == tokens;
      score := 0;
    }
  }

  // ---------------------------------------------------------------------------
  // Filtering and the stable sort
  // ---------------------------------------------------------------------------

  /** A command with its score and its position in the command list. */
  datatype Ranked = Ranked(cmd: string, score: int, index: nat)

  /** Every command scored against the tokens (`commands.map(...)`). */
  function Rank(commands: seq<string>, tokens: seq<string>): (r: seq<Ranked>)
    ensures |r| == |commands|
    ensures forall i | 0 <= i < |r| :: r[i] == Ranked(commands[i], CommandScore(tokens, Lower(commands[i])), i)
  {
    seq(|commands|, i requires 0 <= i < |commands| => Ranked(commands[i], CommandScore(tokens, Lower(commands[i])), i))
  }

  predicate IndexAscending(rs: seq<Ranked>)
  {
    forall i, j | 0 <= i < j < |rs| :: rs[i].index < rs[j].index
  }

  /** `.filter(m => m.score > 0)`. */
  function KeepPositive(rs: seq<Ranked>): (r: seq<Ranked>)
    ensures forall x :: x in r <==> x in rs && x.score > 0
    ensures IndexAscending(rs) ==> IndexAscending(r)
    decreases |rs|
  {
    if rs == [] then []
    else
      var rest := KeepPositive(rs[1..]);
      assert forall x | x in rs[1..] :: x in rs;
      if rs[0].score > 0 then [rs[0]] + rest else rest
  }

  /** `a` is listed before `b`: a higher score, or the same score and an earlier position. */
  predicate Before(a: Ranked, b: Ranked)
  {
    a.score > b.score || (a.score == b.score && a.index < b.index)
  }

  /** Descending by score, equal scores in input order. */
  predicate Ordered(rs: seq<Ranked>)
  {
    forall i, j | 0 <= i < j < |rs| :: Before(rs[i], rs[j])
  }

  /** Insert `x` in front of the first element whose score is not higher than its own. */
  function Insert(x: Ranked, rs: seq<Ranked>): (r: seq<Ranked>)
    ensures multiset(r) == multiset(rs) + multiset{x}
    decreases |rs|
  {
    if rs == [] || x.score >= rs[0].score then [x] + rs
    else
      assert rs == [rs[0]] + rs[1..];
      [rs[0]] + Insert(x, rs[1..])
  }

  lemma {:induction false} InsertOrdered(x: Ranked, rs: seq<Ranked>)
    requires Ordered(rs)
    requires forall y | y in rs :: x.index < y.index
    ensures Ordered(Insert(x, rs))
    decreases |rs|
  {
    if rs == [] || x.score >= rs[0].score {
      var r := [x] + rs;
      forall i, j | 0 <= i < j < |r| ensures Before(r[i], r[j]) {
        if i == 0 {
          assert r[j] in rs;
          if j > 1 { assert Before(rs[0], rs[j - 1]); }
        } else {
          assert Before(rs[i - 1], rs[j - 1]);
        }
      }
    } else {
      assert rs == [rs[0]] + rs[1..];
      InsertOrdered(x, rs[1..]);
      var tail := Insert(x, rs[1..]);
      var r := [rs[0]] + tail;
      forall i, j | 0 <= i < j < |r| ensures Before(r[i], r[j]) {
        if i == 0 {
          assert r[j] in multiset(tail);
          if r[j] != x {
            assert r[j] in rs[1..];
            var k :| 0 <= k < |rs[1..]| && rs[1..][k] == r[j];
            assert Before(rs[0], rs[k + 1]);
          }
        } else {
          assert Before(tail[i - 1], tail[j - 1]);
        }
      }
    }
  }

  /** `.sort((a, b) => b.score - a.score)`, a stable sort: an insertion sort. */
  function Sort(rs: seq<Ranked>): (r: seq<Ranked>)
    ensures multiset(r) == multiset(rs)
    decreases |rs|
  {
    if rs == [] then []
    else
      assert rs == [rs[0]] + rs[1..];
      Insert(rs[0], Sort(rs[1..]))
  }

  /** Sorting a list given in input order lists it by descending score, ties in input order. */
  lemma {:induction false} SortOrdered(rs: seq<Ranked>)
    requires IndexAscending(rs)
    ensures Ordered(Sort(rs))
    decreases |rs|
  {
    if rs != [] {
      assert rs == [rs[0]] + rs[1..];
      SortOrdered(rs[1..]);
      var sorted := Sort(rs[1..]);
      forall y | y in sorted ensures rs[0].index < y.index {
        assert y in multiset(rs[1..]);
        var k :| 0 <= k < |rs[1..]| && rs[1..][k] == y;
        assert rs[k + 1] == y;
      }
      InsertOrdered(rs[0], sorted);
    }
  }

  lemma OrderedHead(a: seq<Ranked>, y: Ranked)
    requires Ordered(a) && y in a && y != a[0]
    ensures Before(a[0], y)
  {
    var k :| 0 <= k < |a| && a[k] == y;
  }

  /** Two ordered arrangements of one collection start with the same element. */
  lemma OrderedSameHead(a: seq<Ranked>, b: seq<Ranked>)
    requires multiset(a) == multiset(b) && Ordered(a) && Ordered(b) && a != []
    ensures b != [] && a[0] == b[0]
  {
    assert a[0] in multiset(b);
    assert b[0] in multiset(a);
    if a[0] != b[0] {
      OrderedHead(b, a[0]);
      OrderedHead(a, b[0]);
    }
  }

  /** Removing the same first element from two arrangements of one collection leaves arrangements of one collection. */
  lemma SameTails(a: seq<Ranked>, b: seq<Ranked>)
    requires multiset(a) == multiset(b) && a != [] && b != [] && a[0] == b[0]
    ensures multiset(a[1..]) == multiset(b[1..])
  {
    assert a == [a[0]] + a[1..] && b == [b[0]] + b[1..];
    assert multiset(a) == multiset{a[0]} + multiset(a[1..]);
    assert multiset(b) == multiset{b[0]} + multiset(b[1..]);
    assert multiset(a[1..]) == multiset(a) - multiset{a[0]};
    assert multiset(b[1..]) == multiset(b) - multiset{b[0]};
  }

  /** There is only one ordered arrangement of a collection: any stable descending sort gives `Sort`'s result. */
  lemma {:induction false} OrderedUnique(a: seq<Ranked>, b: seq<Ranked>)
    requires multiset(a) == multiset(b)
    requires Ordered(a) && Ordered(b)
    ensures a == b
    decreases |a|
  {
    if a == [] {
      assert |b| == |multiset(b)| == 0;
    } else {
      OrderedSameHead(a, b);
      SameTails(a, b);
      OrderedUnique(a[1..], b[1..]);
      assert a == [a[0]] + a[1..] && b == [b[0]] + b[1..];
    }
  }

  function Commands(rs: seq<Ranked>): (r: seq<string>)
    ensures |r| == |rs| && forall k | 0 <= k < |rs| :: r[k] == rs[k].cmd
  {
    seq(|rs|, k requires 0 <= k < |rs| => rs[k].cmd)
  }

  /** The kept commands, best first. */
  function Ranking(commands: seq<string>, tokens: seq<string>): seq<Ranked>
  {
    Sort(KeepPositive(Rank(commands, tokens)))
  }

  /** `filteredCommands`: the whole list for a blank filter, otherwise the ranked matches. */
  function FilteredCommands(commands: seq<string>, filter: string): seq<string>
  {
    if Trim(filter) == [] then commands
    else Commands(Ranking(commands, QueryTokens(filter)))
  }

  lemma FilteredCommandsBlank(commands: seq<string>, filter: string)
    requires forall i | 0 <= i < |filter| :: IsSpace(filter[i])
    ensures FilteredCommands(commands, filter) == commands
  {
    TrimAllSpace(filter);
  }

  /**
   * For a non-blank filter, the result lists exactly the commands with a
   * positive score, each once, best first and equal scores in input order;
   * each of them matches every token.
   */
  lemma FilteredCommandsSpec(commands: seq<string>, filter: string)
    requires Trim(filter) != []
    ensures var tokens := QueryTokens(filter);
      var r := Ranking(commands, tokens);
      && FilteredCommands(commands, filter) == Commands(r)
      && Ordered(r)
      && (forall k | 0 <= k < |r| ::
            && r[k].index < |commands|
            && r[k].cmd == commands[r[k].index]
            && r[k].score == CommandScore(tokens, Lower(commands[r[k].index])) > 0
            && forall t | t in tokens :: IsSubsequence(t, Lower(r[k].cmd)))
      && (forall i | 0 <= i < |commands| && CommandScore(tokens, Lower(commands[i])) > 0 ::
            exists k :: 0 <= k < |r| && r[k].index == i)
  {
    var tokens := QueryTokens(filter);
    var r := Ranking(commands, tokens);
    SortOrdered(KeepPositive(Rank(commands, tokens)));
    forall k | 0 <= k < |r|
      ensures && r[k].index < |commands|
              && r[k].cmd == commands[r[k].index]
              && r[k].score == CommandScore(tokens, Lower(commands[r[k].index])) > 0
              && forall t | t in tokens :: IsSubsequence(t, Lower(r[k].cmd))
    {
      RankingSound(commands, tokens, r[k]);
    }
    forall i | 0 <= i < |commands| && CommandScore(tokens, Lower(commands[i])) > 0
      ensures exists k :: 0 <= k < |r| && r[k].index == i
    {
      RankingComplete(commands, tokens, i);
    }
  }

  /** Every ranked entry is a command of the list, scored positively, and matching every token. */
  lemma RankingSound(commands: seq<string>, tokens: seq<string>, x: Ranked)
    requires x in Ranking(commands, tokens)
    ensures && x.index < |commands|
            && x.cmd == commands[x.index]
            && x.score == CommandScore(tokens, Lower(commands[x.index])) > 0
            && forall t | t in tokens :: IsSubsequence(t, Lower(x.cmd))
  {
    var all := Rank(commands, tokens);
    var kept := KeepPositive(all);
    assert x in multiset(Sort(kept));
    assert x in kept;
    var i :| 0 <= i < |all| && all[i] == x;
    assert TotalScore(tokens, Lower(commands[i])).Some?;
    TotalScoreMatchesAll(tokens, Lower(commands[i]));
  }

  /** Every command scored positively is ranked. */
  lemma RankingComplete(commands: seq<string>, tokens: seq<string>, i: nat)
    requires i < |commands| && CommandScore(tokens, Lower(commands[i])) > 0
    ensures exists k :: 0 <= k < |Ranking(commands, tokens)| && Ranking(commands, tokens)[k].index == i
  {
    var all := Rank(commands, tokens);
    var r := Ranking(commands, tokens);
    assert all[i] in all;
    assert all[i] in KeepPositive(all);
    assert all[i] in multiset(r);
    var k :| 0 <= k < |r| && r[k] == all[i];
  }

  /** Reordering the words of the query does not change the result. */
  lemma FilteredCommandsTokenOrder(commands: seq<string>, f1: string, f2: string)
    requires Trim(f1) != [] && Trim(f2) != []
    requires multiset(QueryTokens(f1)) == multiset(QueryTokens(f2))
    ensures FilteredCommands(commands, f1) == FilteredCommands(commands, f2)
  {
    forall i | 0 <= i < |commands|
      ensures CommandScore(QueryTokens(f1), Lower(commands[i])) == CommandScore(QueryTokens(f2), Lower(commands[i]))
    {
      TotalScoreTokenOrder(QueryTokens(f1), QueryTokens(f2), Lower(commands[i]));
    }
    assert Rank(commands, QueryTokens(f1)) == Rank(commands, QueryTokens(f2));
  }

  /**
   * A one-token query whose first occurrence in the command is at index 200
   * or later scores at most 0, so the command is left out although it matched.
   */
  lemma LateSubstringExcluded(commands: seq<string>, filter: string, i: nat)
    requires Trim(filter) != []
    requires |QueryTokens(filter)| == 1
    requires i < |commands|
    requires IndexOf(Lower(commands[i]), QueryTokens(filter)[0]) >= 200
    ensures forall k | 0 <= k < |Ranking(commands, QueryTokens(filter))| :: Ranking(commands, QueryTokens(filter))[k].index != i
  {
    var tokens := QueryTokens(filter);
    var c := Lower(commands[i]);
    var t := tokens[0];
    PrefixIffIndexZero(c, t);
    assert tokens[..0] == [];
    assert TotalScore(tokens, c) == Some(200 - IndexOf(c, t));
    FilteredCommandsSpec(commands, filter);
  }

  // ---------------------------------------------------------------------------
  // Knowledge-base filter
  // ---------------------------------------------------------------------------

  /** `articles.filter(a => a.toLowerCase().includes(filter))`. */
  function ArticlesContaining(articles: seq<string>, filter: string): (r: seq<string>)
    ensures forall a :: a in r <==> a in articles && Contains(Lower(a), filter)
    ensures forall a {:trigger multiset(r)[a]} :: multiset(r)[a] == if Contains(Lower(a), filter) then multiset(articles)[a] else 0
    decreases |articles|
  {
    if articles == [] then []
    else
      var rest := ArticlesContaining(articles[1..], filter);
      assert forall a | a in articles[1..] :: a in articles;
      assert articles == [articles[0]] + articles[1..];
      if Contains(Lower(articles[0]), filter) then [articles[0]] + rest else rest
  }

  /** The kept articles keep their relative order. */
  lemma {:induction false} ArticlesContainingInOrder(articles: seq<string>, filter: string)
    ensures IsSubsequence(ArticlesContaining(articles, filter), articles)
    decreases |articles|
  {
    if articles == [] {
      EmptyIsSubsequence(articles);
    } else {
      ArticlesContainingInOrder(articles[1..], filter);
      var rest := ArticlesContaining(articles[1..], filter);
      var idx :| EmbedsAt(rest, articles[1..], idx);
      assert articles == [articles[0]] + articles[1..];
      if Contains(Lower(articles[0]), filter) {
        EmbedCons(articles[0], rest, articles[1..], idx);
      } else {
        EmbedSkip(articles[0], rest, articles[1..], idx);
      }
    }
  }

  /** `filteredKbArticles`: the filter is lower-cased and trimmed; a blank filter keeps every article. */
  function FilteredKbArticles(articles: seq<string>, filter: string): (r: seq<string>)
    ensures Trim(Lower(filter)) == [] ==> r == articles
    ensures Trim(Lower(filter)) != [] ==> forall a :: a in r <==> a in articles && Contains(Lower(a), Trim(Lower(filter)))
    ensures Trim(Lower(filter)) != [] ==>
      forall a {:trigger multiset(r)[a]} :: multiset(r)[a] == if Contains(Lower(a), Trim(Lower(filter))) then multiset(articles)[a] else 0
    ensures IsSubsequence(r, articles)
  {
    var f := Trim(Lower(filter));
    if f == [] then
      assert EmbedsAt(articles, articles, seq(|articles|, k requires 0 <= k < |articles| => k));
      articles
    else
      ArticlesContainingInOrder(articles, f);
      ArticlesContaining(articles, f)
  }
}
