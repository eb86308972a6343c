/**
 * `String.prototype.replace` with a global regular expression whose matches
 * are never empty, as the redaction and markdown passes use it: the leftmost
 * match at or after the current index is replaced, the text before it is
 * kept, and the scan resumes where that match ended (so matches never
 * overlap).
 */
module GlobalReplace {
  import opened Options

  /** A match: the index where it ends and the text that replaces it. */
  datatype Hit = Hit(end: nat, replacement: string)

  /** `m(s, k)` is the match of one pattern that starts exactly at index `k` of `s`, if any. */
  type Matcher = (string, nat) -> Option<Hit>

  /** Matches are non-empty and stay inside the text. */
  ghost predicate NonEmptyMatches(m: Matcher)
  {
    forall s: string, k: nat :: m(s, k).Some? ==> k < m(s, k).value.end <= |s|
  }

  /** The leftmost index at or after `k` where a match starts, or `|s|`. */
  function NextHit(s: string, k: nat, m: Matcher): (j: nat)
    requires k <= |s|
    ensures k <= j <= |s|
    ensures j < |s| ==> m(s, j).Some?
    ensures forall i | k <= i < j :: m(s, i).None?
    decreases |s| - k
  {
    if k == |s| then k
    else if m(s, k).Some? then k
    else NextHit(s, k + 1, m)
  }

  /** The global replace, from index `k` on. */
  function ReplaceFrom(s: string, k: nat, m: Matcher): string
    requires NonEmptyMatches(m)
    requires k <= |s|
    decreases |s| - k
  {
    var j := NextHit(s, k, m);
    if j == |s| then s[k..]
    else
      var h := m(s, j).value;
      s[k..j] + h.replacement + ReplaceFrom(s, h.end, m)
  }

  /** `s.replace(/pattern/g, …)`. */
  function ReplaceAll(s: string, m: Matcher): string
    requires NonEmptyMatches(m)
  {
    ReplaceFrom(s, 0, m)
  }

  /** A text in which the pattern matches nowhere is returned unchanged. */
  lemma {:induction false} ReplaceNothing(s: string, k: nat, m: Matcher)
    requires NonEmptyMatches(m)
    requires k <= |s|
    requires forall i | k <= i < |s| :: m(s, i).None?
    ensures ReplaceFrom(s, k, m) == s[k..]
  {
    var j := NextHit(s, k, m);
    assert j == |s|;
  }

  /** A text that is one match from start to end is replaced as a whole. */
  lemma ReplaceWhole(s: string, m: Matcher, r: string)
    requires NonEmptyMatches(m) && s != [] && m(s, 0) == Some(Hit(|s|, r))
    ensures ReplaceAll(s, m) == r
  {
    assert NextHit(s, 0, m) == 0;
    assert ReplaceFrom(s, |s|, m) == s[|s|..] == [];
    assert s[0..0] + r + [] == r;
  }

  /**
   * A property of texts that concatenation preserves holds of the result when
   * it holds of every replacement and of every piece of the input between two
   * admissible cut points, and when the pass only cuts there.
   */
  lemma {:induction false} ReplacePreserves(s: string, k: nat, m: Matcher, P: string -> bool, cut: nat -> bool)
    requires NonEmptyMatches(m)
    requires k <= |s|
    requires forall a: string, b: string :: P(a) && P(b) ==> P(a + b)
    requires cut(k) && cut(|s|)
    requires forall j | k <= j < |s| && m(s, j).Some? :: cut(j) && cut(m(s, j).value.end) && P(m(s, j).value.replacement)
    requires forall a: nat, b: nat | k <= a <= b <= |s| && cut(a) && cut(b) :: P(s[a..b])
    ensures P(ReplaceFrom(s, k, m))
    decreases |s| - k
  {
    var j := NextHit(s, k, m);
    if j < |s| {
      var h := m(s, j).value;
      ReplacePreserves(s, h.end, m, P, cut);
      assert P(s[k..j]);
      assert P(s[k..j] + h.replacement);
    } else {
      assert P(s[k..|s|]);
      assert s[k..] == s[k..|s|];
    }
  }

  /** With non-empty replacements, a non-empty text never becomes empty. */
  lemma ReplaceNonEmpty(s: string, k: nat, m: Matcher)
    requires NonEmptyMatches(m)
    requires forall t: string, i: nat :: m(t, i).Some? ==> m(t, i).value.replacement != []
    requires k < |s|
    ensures ReplaceFrom(s, k, m) != []
  {
    var j := NextHit(s, k, m);
    if j < |s| {
      var h := m(s, j).value;
      assert |ReplaceFrom(s, k, m)| >= |h.replacement|;
    }
  }
}
