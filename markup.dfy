/**
 * What it means for generated HTML to contain no markup but the generator's
 * own: read left to right, the text is a sequence of characters other than
 * `<` and whole tags taken from a fixed list.
 */
module Markup {
  import opened Options
  import opened Text
  import opened GlobalReplace

  /** `h` splits into characters other than `<` and whole, non-empty tags from `tags`. */
  ghost predicate Segments(h: string, tags: seq<string>)
    decreases |h|
  {
    || h == []
    || (h[0] != '<' && Segments(h[1..], tags))
    || (exists k | 0 <= k < |tags| :: tags[k] != [] && IsPrefix(tags[k], h) && Segments(h[|tags[k]|..], tags))
  }

  /** Text without `<` is plain text. */
  lemma {:induction false} SegmentsPlain(x: string, tags: seq<string>)
    requires '<' !in x
    ensures Segments(x, tags)
    decreases |x|
  {
    if x != [] {
      assert x[0] in x;
      SegmentsPlain(x[1..], tags);
    }
  }

  /** A listed tag on its own. */
  lemma SegmentsTag(k: nat, tags: seq<string>)
    requires k < |tags| && tags[k] != []
    ensures Segments(tags[k], tags)
  {
    var t := tags[k];
    assert IsPrefix(t, t) && t[|t|..] == [];
  }

  /** Two such texts side by side form one. */
  lemma {:induction false} SegmentsConcat(a: string, b: string, tags: seq<string>)
    requires Segments(a, tags) && Segments(b, tags)
    ensures Segments(a + b, tags)
    decreases |a|
  {
    if a == [] {
      assert a + b == b;
    } else if a[0] != '<' && Segments(a[1..], tags) {
      SegmentsConcat(a[1..], b, tags);
      assert (a + b)[1..] == a[1..] + b;
    } else {
      var k :| 0 <= k < |tags| && tags[k] != [] && IsPrefix(tags[k], a) && Segments(a[|tags[k]|..], tags);
      var t := tags[k];
      SegmentsConcat(a[|t|..], b, tags);
      assert (a + b)[..|t|] == a[..|t|];
      assert (a + b)[|t|..] == a[|t|..] + b;
    }
  }

  /** Allowing more tags keeps a text readable. */
  lemma {:induction false} SegmentsWiden(h: string, tags: seq<string>, more: seq<string>)
    requires Segments(h, tags)
    requires forall k | 0 <= k < |tags| :: tags[k] in more
    ensures Segments(h, more)
    decreases |h|
  {
    if h == [] {
    } else if h[0] != '<' && Segments(h[1..], tags) {
      SegmentsWiden(h[1..], tags, more);
    } else {
      var k :| 0 <= k < |tags| && tags[k] != [] && IsPrefix(tags[k], h) && Segments(h[|tags[k]|..], tags);
      SegmentsWiden(h[|tags[k]|..], tags, more);
      var j :| 0 <= j < |more| && more[j] == tags[k];
    }
  }

  /** Every tag opens with `<` and closes with `>`. */
  predicate TagsWellFormed(tags: seq<string>)
  {
    forall k | 0 <= k < |tags| :: |tags[k]| >= 2 && tags[k][0] == '<' && tags[k][|tags[k]| - 1] == '>'
  }

  /** `c` occurs in none of the tags. */
  predicate NotInTags(c: char, tags: seq<string>)
  {
    forall k | 0 <= k < |tags| :: c !in tags[k]
  }

  /** No occurrence of a tag in `h` straddles index `p`, so `h` can be cut there. */
  predicate Clean(h: string, tags: seq<string>, p: nat)
  {
    forall k, i: nat | 0 <= k < |tags| && i < p < i + |tags[k]| :: !OccursAt(h, tags[k], i)
  }

  lemma CleanShift(h: string, tags: seq<string>, p: nat, d: nat)
    requires d <= p <= |h| && Clean(h, tags, p)
    ensures Clean(h[d..], tags, p - d)
  {
    var g := h[d..];
    forall k, i: nat | 0 <= k < |tags| && i < p - d < i + |tags[k]|
      ensures !OccursAt(g, tags[k], i)
    {
      assert !OccursAt(h, tags[k], i + d);
      if i + |tags[k]| <= |g| {
        assert g[i..i + |tags[k]|] == h[i + d..i + d + |tags[k]|];
      }
    }
  }

  /** A character other than `<` in front of a readable text. */
  lemma SegmentsConsPlain(c: char, x: string, tags: seq<string>)
    requires c != '<' && Segments(x, tags)
    ensures Segments([c] + x, tags)
  {
    assert ([c] + x)[1..] == x;
  }

  /** A text that reads as tags and plain text can be cut where no tag straddles. */
  lemma {:induction false} SegmentsCut(h: string, tags: seq<string>, p: nat)
    requires Segments(h, tags) && p <= |h| && Clean(h, tags, p)
    ensures Segments(h[..p], tags) && Segments(h[p..], tags)
    decreases |h|
  {
    if p == 0 {
      assert h[..0] == [] && h[0..] == h;
    } else if h[0] != '<' && Segments(h[1..], tags) {
      var g := h[1..];
      CleanShift(h, tags, p, 1);
      SegmentsCut(g, tags, p - 1);
      assert h[..p] == [h[0]] + g[..p - 1];
      assert h[p..] == g[p - 1..];
      SegmentsConsPlain(h[0], g[..p - 1], tags);
    } else {
      var k :| 0 <= k < |tags| && tags[k] != [] && IsPrefix(tags[k], h) && Segments(h[|tags[k]|..], tags);
      SegmentsCutTag(h, tags, p, k);
    }
  }

  /** The case where `h` starts with the tag `tags[k]`: the cut is after it. */
  lemma {:induction false} SegmentsCutTag(h: string, tags: seq<string>, p: nat, k: nat)
    requires 0 < p <= |h| && Clean(h, tags, p)
    requires k < |tags| && tags[k] != [] && IsPrefix(tags[k], h) && Segments(h[|tags[k]|..], tags)
    ensures Segments(h[..p], tags) && Segments(h[p..], tags)
    decreases |h|, 0
  {
    var t := tags[k];
    var g := h[|t|..];
    assert OccursAt(h, t, 0);
    assert p >= |t|;
    CleanShift(h, tags, p, |t|);
    SegmentsCut(g, tags, p - |t|);
    SegmentsTag(k, tags);
    SegmentsConcat(t, g[..p - |t|], tags);
    assert h[..p] == t + g[..p - |t|];
    assert h[p..] == g[p - |t|..];
  }

  /** The piece between two clean indices reads as tags and plain text too. */
  lemma SegmentsSlice(h: string, tags: seq<string>, a: nat, b: nat)
    requires Segments(h, tags) && a <= b <= |h| && Clean(h, tags, a) && Clean(h, tags, b)
    ensures Segments(h[a..b], tags)
  {
    SegmentsCut(h, tags, a);
    CleanShift(h, tags, b, a);
    SegmentsCut(h[a..], tags, b - a);
    assert h[a..][..b - a] == h[a..b];
  }

  lemma CleanEnds(h: string, tags: seq<string>)
    ensures Clean(h, tags, 0) && Clean(h, tags, |h|)
  {
  }

  /** No tag straddles a character that no tag contains. */
  lemma CleanAtChar(h: string, tags: seq<string>, p: nat)
    requires p < |h| && NotInTags(h[p], tags)
    ensures Clean(h, tags, p)
  {
    forall k, i: nat | 0 <= k < |tags| && i < p < i + |tags[k]|
      ensures !OccursAt(h, tags[k], i)
    {
      if i + |tags[k]| <= |h| {
        assert h[p] == h[i..i + |tags[k]|][p - i];
      }
    }
  }

  /** Nor the index right after such a character. */
  lemma CleanAfterChar(h: string, tags: seq<string>, p: nat)
    requires 0 < p <= |h| && NotInTags(h[p - 1], tags)
    ensures Clean(h, tags, p)
  {
    forall k, i: nat | 0 <= k < |tags| && i < p < i + |tags[k]|
      ensures !OccursAt(h, tags[k], i)
    {
      if i + |tags[k]| <= |h| {
        assert h[p - 1] == h[i..i + |tags[k]|][p - 1 - i];
      }
    }
  }

  /** No tag straddles an index before which there is no `<`. */
  lemma CleanAfterPlain(h: string, tags: seq<string>, p: nat)
    requires TagsWellFormed(tags) && p <= |h|
    requires forall i | 0 <= i < p :: h[i] != '<'
    ensures Clean(h, tags, p)
  {
    forall k, i: nat | 0 <= k < |tags| && i < p < i + |tags[k]|
      ensures !OccursAt(h, tags[k], i)
    {
      if i + |tags[k]| <= |h| {
        assert h[i..i + |tags[k]|][0] == h[i];
      }
    }
  }

  /** Nor an index after which there is no `>`. */
  lemma CleanBeforePlain(h: string, tags: seq<string>, p: nat)
    requires TagsWellFormed(tags) && p <= |h|
    requires forall i | p <= i < |h| :: h[i] != '>'
    ensures Clean(h, tags, p)
  {
    forall k, i: nat | 0 <= k < |tags| && i < p < i + |tags[k]|
      ensures !OccursAt(h, tags[k], i)
    {
      var t := tags[k];
      if i + |t| <= |h| {
        assert h[i..i + |t|][|t| - 1] == h[i + |t| - 1];
      }
    }
  }

  /**
   * A global replace keeps a text readable when every match starts and ends
   * where no tag straddles and every replacement is readable.
   */
  lemma ReplaceKeepsSegments(t: string, m: Matcher, tags: seq<string>)
    requires NonEmptyMatches(m)
    requires Segments(t, tags)
    requires forall j | 0 <= j < |t| && m(t, j).Some? ::
      Clean(t, tags, j) && Clean(t, tags, m(t, j).value.end) && Segments(m(t, j).value.replacement, tags)
    ensures Segments(ReplaceAll(t, m), tags)
  {
    var P: string -> bool := x => Segments(x, tags);
    var cut: nat -> bool := (p: nat) => Clean(t, tags, p);
    forall a: string, b: string | P(a) && P(b) ensures P(a + b) {
      SegmentsConcat(a, b, tags);
    }
    CleanEnds(t, tags);
    forall a: nat, b: nat | 0 <= a <= b <= |t| && cut(a) && cut(b) ensures P(t[a..b]) {
      SegmentsSlice(t, tags, a, b);
    }
    ReplacePreserves(t, 0, m, P, cut);
  }
}
