/** The optional value used throughout the model (JavaScript's `null`/`-1` results). */
module Options {
  datatype Option<T> = None | Some(value: T)
}

/**
 * Character classes and the `String.prototype` operations the components use
 * (`toLowerCase`, `trim`, `includes`, `indexOf`, `startsWith`, `split`, `join`),
 * over the ASCII alphabet on which `toLowerCase`, the regex `i` flag, `\s`,
 * `\w`, `\d` and `\b` agree.
 */
module Text {

  // ---------------------------------------------------------------------------
  // Character classes
  // ---------------------------------------------------------------------------

  predicate IsDigit(c: char) { '0' <= c <= '9' }
  predicate IsUpper(c: char) { 'A' <= c <= 'Z' }
  predicate IsLowerLetter(c: char) { 'a' <= c <= 'z' }
  predicate IsLetter(c: char) { IsUpper(c) || IsLowerLetter(c) }

  /** Regex `\w`. */
  predicate IsWordChar(c: char) { IsLetter(c) || IsDigit(c) || c == '_' }

  /** Regex `\s` and the characters `trim` removes: tab, line feed, vertical tab, form feed, carriage return, space. */
  predicate IsSpace(c: char) { c == ' ' || '\t' <= c <= '\r' }

  /** The characters the regex `.` does not match. */
  predicate IsLineTerminator(c: char) { c == '\n' || c == '\r' || c == '\U{2028}' || c == '\U{2029}' }

  predicate NoneSatisfy(s: string, c: char) { forall i | 0 <= i < |s| :: s[i] != c }

  // ---------------------------------------------------------------------------
  // toLowerCase
  // ---------------------------------------------------------------------------

  function LowerChar(c: char): (r: char)
    ensures !IsUpper(r)
    ensures IsUpper(c) || r == c
  {
    if IsUpper(c) then (c as int + 32) as char else c
  }

  /** `s.toLowerCase()` on ASCII text: each character is lower-cased on its own. */
  function Lower(s: string): (r: string)
    ensures |r| == |s| && forall i | 0 <= i < |s| :: r[i] == LowerChar(s[i])
  {
    seq(|s|, i requires 0 <= i < |s| => LowerChar(s[i]))
  }

  lemma LowerSlice(s: string, i: nat, j: nat)
    requires i <= j <= |s|
    ensures Lower(s)[i..j] == Lower(s[i..j])
  {
    var x, y := Lower(s)[i..j], Lower(s[i..j]);
    forall k | 0 <= k < j - i ensures x[k] == y[k] {
      assert s[i..j][k] == s[i + k];
    }
  }

  lemma LowerConcat(a: string, b: string)
    ensures Lower(a + b) == Lower(a) + Lower(b)
  {
    var x, y := Lower(a + b), Lower(a) + Lower(b);
    forall k | 0 <= k < |a + b| ensures x[k] == y[k] {
      if k < |a| {
        assert (a + b)[k] == a[k];
      } else {
        assert (a + b)[k] == b[k - |a|];
      }
    }
  }

  /** Lower-casing twice is lower-casing once. */
  lemma LowerIdempotent(s: string)
    ensures Lower(Lower(s)) == Lower(s)
  {
  }

  // ---------------------------------------------------------------------------
  // trim
  // ---------------------------------------------------------------------------

  /** How many leading whitespace characters `trim` removes. */
  function TrimOffset(s: string): (n: nat)
    ensures n <= |s| && forall i | 0 <= i < n :: IsSpace(s[i])
    ensures n < |s| ==> !IsSpace(s[n])
    decreases |s|
  {
    if s != [] && IsSpace(s[0]) then
      var n := 1 + TrimOffset(s[1..]);
      assert forall i | 1 <= i < n :: s[i] == s[1..][i - 1];
      assert n < |s| ==> s[n] == s[1..][n - 1];
      n
    else 0
  }

  /** Where the part `trim` keeps ends: the trailing whitespace of `s[lo..hi]` starts there. */
  function TrimEndFrom(s: string, lo: nat, hi: nat): (n: nat)
    requires lo <= hi <= |s|
    ensures lo <= n <= hi && forall i | n <= i < hi :: IsSpace(s[i])
    ensures lo < n ==> !IsSpace(s[n - 1])
    decreases hi
  {
    if lo < hi && IsSpace(s[hi - 1]) then TrimEndFrom(s, lo, hi - 1) else hi
  }

  /** Where the part `trim` keeps ends. */
  function TrimLimit(s: string): nat
  {
    TrimEndFrom(s, TrimOffset(s), |s|)
  }

  /** `s.trim()`: the part of `s` between its leading and its trailing whitespace. */
  function Trim(s: string): (r: string)
    ensures TrimOffset(s) + |r| <= |s| && r == s[TrimOffset(s)..TrimOffset(s) + |r|]
    ensures forall i | 0 <= i < TrimOffset(s) :: IsSpace(s[i])
    ensures forall i | TrimOffset(s) + |r| <= i < |s| :: IsSpace(s[i])
    ensures r != [] ==> !IsSpace(r[0]) && !IsSpace(r[|r| - 1])
    ensures r == [] <==> forall i | 0 <= i < |s| :: IsSpace(s[i])
  {
    var a, b := TrimOffset(s), TrimLimit(s);
    assert b > a ==> s[a..b][0] == s[a] && s[a..b][b - a - 1] == s[b - 1];
    assert b == a ==> forall i | 0 <= i < |s| :: IsSpace(s[i]);
    s[a..b]
  }

  lemma TrimAllSpace(s: string)
    requires forall i | 0 <= i < |s| :: IsSpace(s[i])
    ensures Trim(s) == []
  {
  }

  /** On ASCII, trimming and lower-casing commute (so `trim().toLowerCase()` and `toLowerCase().trim()` agree). */
  lemma {:induction false} TrimOffsetLower(s: string)
    ensures TrimOffset(Lower(s)) == TrimOffset(s)
    decreases |s|
  {
    if s != [] {
      var l := Lower(s);
      LowerSlice(s, 1, |s|);
      assert s[1..|s|] == s[1..];
      assert IsSpace(l[0]) <==> IsSpace(s[0]);
      if IsSpace(s[0]) {
        TrimOffsetLower(s[1..]);
      }
    }
  }

  lemma {:induction false} TrimEndFromLower(s: string, lo: nat, hi: nat)
    requires lo <= hi <= |s|
    ensures TrimEndFrom(Lower(s), lo, hi) == TrimEndFrom(s, lo, hi)
    decreases hi
  {
    if lo < hi {
      assert IsSpace(Lower(s)[hi - 1]) <==> IsSpace(s[hi - 1]);
      TrimEndFromLower(s, lo, hi - 1);
    }
  }

  lemma TrimLower(s: string)
    ensures Trim(Lower(s)) == Lower(Trim(s))
  {
    TrimOffsetLower(s);
    TrimEndFromLower(s, TrimOffset(s), |s|);
    LowerSlice(s, TrimOffset(s), TrimLimit(s));
  }

  // ---------------------------------------------------------------------------
  // Runs of characters of one class (what a greedy `[...]+` or `.*` takes)
  // ---------------------------------------------------------------------------

  /** Every character of `s[i..j]` satisfies `p`. */
  predicate AllIn(s: string, i: nat, j: nat, p: char -> bool)
    requires i <= j <= |s|
  {
    forall t | i <= t < j :: p(s[t])
  }

  /** The end of the longest run of characters satisfying `p` that starts at `i`. */
  function RunEnd(s: string, i: nat, p: char -> bool): (j: nat)
    requires i <= |s|
    ensures i <= j <= |s| && AllIn(s, i, j, p)
    ensures j < |s| ==> !p(s[j])
    decreases |s| - i
  {
    if i < |s| && p(s[i]) then RunEnd(s, i + 1, p) else i
  }

  /** A run that a greedy quantifier could take ends at or before the longest one. */
  lemma {:induction false} RunEndCovers(s: string, i: nat, j: nat, p: char -> bool)
    requires i <= j <= |s| && AllIn(s, i, j, p)
    ensures j <= RunEnd(s, i, p)
    decreases j - i
  {
    if i < j {
      assert p(s[i]);
      RunEndCovers(s, i + 1, j, p);
    }
  }

  /** A run followed by a character outside the class is the longest one. */
  lemma RunEndAt(s: string, i: nat, j: nat, p: char -> bool)
    requires i <= j < |s| && AllIn(s, i, j, p) && !p(s[j])
    ensures RunEnd(s, i, p) == j
  {
    RunEndCovers(s, i, j, p);
  }

  // ---------------------------------------------------------------------------
  // startsWith, indexOf, includes
  // ---------------------------------------------------------------------------

  /** `s.startsWith(p)`. */
  predicate IsPrefix(p: string, s: string) { |p| <= |s| && s[..|p|] == p }

  /** `p` occurs in `s` starting at index `i`. */
  predicate OccursAt(s: string, p: string, i: nat) { i + |p| <= |s| && s[i..i + |p|] == p }

  /** The least index at or after `from` where `p` occurs in `s`, or -1. */
  function IndexOfFrom(s: string, p: string, from: nat): (r: int)
    requires from <= |s|
    ensures r == -1 || from <= r <= |s| - |p|
    decreases |s| - from
  {
    if OccursAt(s, p, from) then from
    else if from == |s| then -1
    else IndexOfFrom(s, p, from + 1)
  }

  lemma {:induction false} IndexOfFromSpec(s: string, p: string, from: nat)
    requires from <= |s|
    ensures IndexOfFrom(s, p, from) >= 0 ==> OccursAt(s, p, IndexOfFrom(s, p, from))
    ensures IndexOfFrom(s, p, from) == -1 ==> forall i | from <= i <= |s| :: !OccursAt(s, p, i)
    ensures IndexOfFrom(s, p, from) >= 0 ==> forall i | from <= i < IndexOfFrom(s, p, from) :: !OccursAt(s, p, i)
    decreases |s| - from
  {
    if !OccursAt(s, p, from) && from < |s| {
      IndexOfFromSpec(s, p, from + 1);
    }
  }

  /** `s.indexOf(p)`: the first occurrence of `p` in `s`, or -1. */
  function IndexOf(s: string, p: string): (r: int)
    ensures r == -1 || 0 <= r <= |s| - |p|
  {
    IndexOfFrom(s, p, 0)
  }

  /** `indexOf` finds the first occurrence, and -1 means there is none. */
  lemma IndexOfSpec(s: string, p: string)
    ensures IndexOf(s, p) >= 0 ==> OccursAt(s, p, IndexOf(s, p))
    ensures IndexOf(s, p) == -1 <==> forall i | 0 <= i <= |s| :: !OccursAt(s, p, i)
    ensures IndexOf(s, p) >= 0 ==> forall i | 0 <= i < IndexOf(s, p) :: !OccursAt(s, p, i)
  {
    IndexOfFromSpec(s, p, 0);
  }

  /** `s.includes(p)`. */
  predicate Contains(s: string, p: string) { IndexOf(s, p) >= 0 }

  lemma ContainsAt(s: string, p: string, i: nat)
    requires OccursAt(s, p, i)
    ensures Contains(s, p)
  {
    IndexOfSpec(s, p);
  }

  lemma PrefixIffIndexZero(s: string, p: string)
    ensures IsPrefix(p, s) <==> IndexOf(s, p) == 0
  {
    IndexOfSpec(s, p);
    assert IsPrefix(p, s) <==> OccursAt(s, p, 0);
  }

  // ---------------------------------------------------------------------------
  // split and join on one separator character
  // ---------------------------------------------------------------------------

  /** `s.split(sep)` for a one-character separator: the pieces between separators, empty ones included. */
  function Split(s: string, sep: char): (r: seq<string>)
    ensures |r| >= 1
    ensures forall k | 0 <= k < |r| :: sep !in r[k]
    decreases |s|
  {
    if s == [] then [[]]
    else
      var rest := Split(s[1..], sep);
      if s[0] == sep then [[]] + rest else [[s[0]] + rest[0]] + rest[1..]
  }

  /** `parts.join(sep)`. */
  function Join(parts: seq<string>, sep: char): string
    decreases |parts|
  {
    if parts == [] then []
    else if |parts| == 1 then parts[0]
    else parts[0] + [sep] + Join(parts[1..], sep)
  }

  /** Joining the pieces of a split gives back the text. */
  lemma {:induction false} JoinSplit(s: string, sep: char)
    ensures Join(Split(s, sep), sep) == s
    decreases |s|
  {
    if s != [] {
      var rest := Split(s[1..], sep);
      JoinSplit(s[1..], sep);
      if s[0] == sep {
        assert Split(s, sep) == [[]] + rest;
      } else {
        var r := Split(s, sep);
        assert r == [[s[0]] + rest[0]] + rest[1..];
        if |rest| == 1 {
          assert Join(r, sep) == [s[0]] + rest[0];
        } else {
          assert r[1..] == rest[1..];
          assert Join(rest, sep) == rest[0] + [sep] + Join(rest[1..], sep);
          assert Join(r, sep) == [s[0]] + rest[0] + [sep] + Join(rest[1..], sep);
        }
      }
    }
  }

  lemma {:induction false} SplitPrepend(c: char, s: string, sep: char)
    requires c != sep
    ensures Split([c] + s, sep) == [[c] + Split(s, sep)[0]] + Split(s, sep)[1..]
  {
    assert ([c] + s)[1..] == s;
  }

  /** A text without the separator is one piece. */
  lemma {:induction false} SplitNoSep(s: string, sep: char)
    requires sep !in s
    ensures Split(s, sep) == [s]
    decreases |s|
  {
    if s != [] {
      assert s[0] in s;
      SplitNoSep(s[1..], sep);
      assert s == [s[0]] + s[1..];
    }
  }

  /** The first piece ends at the first separator. */
  lemma {:induction false} SplitAt(s: string, sep: char, p: nat)
    requires p < |s| && s[p] == sep && forall q | 0 <= q < p :: s[q] != sep
    ensures Split(s, sep) == [s[..p]] + Split(s[p + 1..], sep)
    decreases p
  {
    if p > 0 {
      SplitAt(s[1..], sep, p - 1);
      assert s[1..][p..] == s[p + 1..];
      assert [s[0]] + s[1..][..p - 1] == s[..p];
    }
  }

  /** Splitting a join of separator-free pieces gives back the pieces. */
  lemma {:induction false} SplitJoin(parts: seq<string>, sep: char)
    requires |parts| >= 1
    requires forall k | 0 <= k < |parts| :: sep !in parts[k]
    ensures Split(Join(parts, sep), sep) == parts
    decreases |parts|, |parts[0]|
  {
    if parts[0] == [] {
      if |parts| == 1 {
      } else {
        SplitJoin(parts[1..], sep);
        var j := Join(parts, sep);
        assert j == [sep] + Join(parts[1..], sep);
        assert j[1..] == Join(parts[1..], sep);
        assert Split(j, sep) == [[]] + parts[1..];
        assert parts == [[]] + parts[1..];
      }
    } else {
      var c := parts[0][0];
      assert c in parts[0];
      var tail := [parts[0][1..]] + parts[1..];
      forall k | 0 <= k < |tail| ensures sep !in tail[k] {
        if k > 0 { assert tail[k] == parts[k]; }
      }
      SplitJoin(tail, sep);
      var jt := Join(tail, sep);
      var j := Join(parts, sep);
      if |parts| == 1 {
        assert parts[0] == [c] + parts[0][1..];
        assert j == [c] + jt;
      } else {
        assert tail[1..] == parts[1..];
        assert parts[0] == [c] + parts[0][1..];
        assert j == [c] + jt;
      }
      SplitPrepend(c, jt, sep);
      assert parts == [[c] + tail[0]] + tail[1..];
    }
  }

  /** Concatenation of all pieces (`parts.join('')`). */
  function Concat(parts: seq<string>): string
    decreases |parts|
  {
    if parts == [] then [] else parts[0] + Concat(parts[1..])
  }

  lemma {:induction false} ConcatAppend(a: seq<string>, b: seq<string>)
    ensures Concat(a + b) == Concat(a) + Concat(b)
    decreases |a|
  {
    if a == [] {
      assert a + b == b;
    } else {
      assert (a + b)[0] == a[0];
      assert (a + b)[1..] == a[1..] + b;
      ConcatAppend(a[1..], b);
      assert Concat(a + b) == a[0] + Concat(a[1..] + b);
    }
  }

  // ---------------------------------------------------------------------------
  // Subsequences
  // ---------------------------------------------------------------------------

  /** `idx` lists strictly increasing positions of `c` at which the elements of `t` appear in order. */
  ghost predicate EmbedsAt<T>(t: seq<T>, c: seq<T>, idx: seq<nat>)
  {
    && |idx| == |t|
    && (forall k | 0 <= k < |idx| :: idx[k] < |c| && c[idx[k]] == t[k])
    && (forall k1, k2 | 0 <= k1 < k2 < |idx| :: idx[k1] < idx[k2])
  }

  /** `t` appears in `c` in order, not necessarily contiguously. */
  ghost predicate IsSubsequence<T>(t: seq<T>, c: seq<T>)
  {
    exists idx :: EmbedsAt(t, c, idx)
  }

  /** A contiguous occurrence is in particular an in-order one. */
  lemma OccurrenceIsSubsequence(s: string, p: string, i: nat)
    requires OccursAt(s, p, i)
    ensures IsSubsequence(p, s)
  {
    var idx := seq(|p|, k requires 0 <= k < |p| => i + k);
    forall k | 0 <= k < |p| ensures s[idx[k]] == p[k] {
      assert s[i..i + |p|][k] == s[i + k];
    }
    assert EmbedsAt(p, s, idx);
  }

  /** The positions `idx`, each moved `d` places to the right. */
  function Shift(idx: seq<nat>, d: nat): (r: seq<nat>)
    ensures |r| == |idx|
    ensures forall k | 0 <= k < |idx| :: r[k] == idx[k] + d
  {
    seq(|idx|, k requires 0 <= k < |idx| => idx[k] + d)
  }

  lemma EmptyIsSubsequence<T>(c: seq<T>)
    ensures IsSubsequence([], c)
  {
    assert EmbedsAt([], c, []);
  }

  lemma NothingIsSubsequenceOfEmpty<T>(t: seq<T>)
    requires t != []
    ensures !IsSubsequence(t, [])
  {
    forall idx: seq<nat> | |idx| == |t| ensures !EmbedsAt(t, [], idx) {
      assert idx[0] >= 0;
    }
  }

  /** An embedding survives putting the same element in front of both sequences. */
  lemma EmbedCons<T>(x: T, t: seq<T>, c: seq<T>, idx: seq<nat>)
    requires EmbedsAt(t, c, idx)
    ensures EmbedsAt([x] + t, [x] + c, [0] + Shift(idx, 1))
  {
  }

  /** An embedding survives putting an element in front of the larger sequence. */
  lemma EmbedSkip<T>(x: T, t: seq<T>, c: seq<T>, idx: seq<nat>)
    requires EmbedsAt(t, c, idx)
    ensures EmbedsAt(t, [x] + c, Shift(idx, 1))
  {
  }

  /** Dropping the first element of both sides keeps an in-order occurrence. */
  lemma SubsequenceTail<T>(t: seq<T>, c: seq<T>)
    requires t != [] && c != []
    requires IsSubsequence(t, c)
    ensures IsSubsequence(t[1..], c[1..])
  {
    var idx :| EmbedsAt(t, c, idx);
    var idx' := seq(|t| - 1, k requires 0 <= k < |t| - 1 => idx[k + 1] - 1);
    forall k | 0 <= k < |t| - 1
      ensures idx[k + 1] >= 1 && idx'[k] < |c| - 1 && c[1..][idx'[k]] == t[1..][k]
    {
      assert idx[0] < idx[k + 1];
    }
    assert EmbedsAt(t[1..], c[1..], idx');
  }

  /** When the heads differ, the head of the larger sequence is not used by any occurrence. */
  lemma SubsequenceSkipHead<T>(t: seq<T>, c: seq<T>)
    requires t != [] && c != [] && t[0] != c[0]
    requires IsSubsequence(t, c)
    ensures IsSubsequence(t, c[1..])
  {
    var idx :| EmbedsAt(t, c, idx);
    assert idx[0] != 0;
    var idx' := seq(|t|, k requires 0 <= k < |t| => idx[k] - 1);
    forall k | 0 <= k < |t|
      ensures idx[k] >= 1 && idx'[k] < |c| - 1 && c[1..][idx'[k]] == t[k]
    {
      if k > 0 { assert idx[0] < idx[k]; }
    }
    assert EmbedsAt(t, c[1..], idx');
  }
}
