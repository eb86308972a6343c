/**
 * `sanitizeLogs` and the privacy gate of `onSubmit` in the log editor.
 *
 * Each of the two regular expressions is modelled by a matcher that says
 * which match a JavaScript regex engine (greedy quantifiers, backtracking)
 * finds at a given start index, and the matcher is related to a declarative
 * description of the language of the expression: the email matcher finds the
 * longest word of the language starting there, the IPv4 matcher the only
 * one.
 */
module Redact {
  import opened Options
  import opened Text
  import opened GlobalReplace

  // ---------------------------------------------------------------------------
  // /[a-zA-Z0-9._%+-]+@[a-zA-Z0-9.-]+\.[a-zA-Z]{2,}/g
  // ---------------------------------------------------------------------------

  const EmailPlaceholder: string := "[REDACTED_EMAIL]"

  /** `[a-zA-Z0-9._%+-]`. */
  predicate IsLocalChar(c: char) { IsLetter(c) || IsDigit(c) || c == '.' || c == '_' || c == '%' || c == '+' || c == '-' }

  /** `[a-zA-Z0-9.-]`. */
  predicate IsDomainChar(c: char) { IsLetter(c) || IsDigit(c) || c == '.' || c == '-' }

  /** The `\.` of the pattern can sit at `e`: a dot followed by two letters. */
  predicate TldDot(s: string, e: nat)
  {
    e + 2 < |s| && s[e] == '.' && IsLetter(s[e + 1]) && IsLetter(s[e + 2])
  }

  /** The last index in `[lo, hi)` where `TldDot` holds: the first one backtracking from a greedy run ending at `hi` tries. */
  function LastTldDot(s: string, lo: nat, hi: nat): (r: Option<nat>)
    ensures r.Some? ==> lo <= r.value < hi && TldDot(s, r.value)
    ensures forall e | lo <= e < hi && TldDot(s, e) :: r.Some? && e <= r.value
    decreases hi
  {
    if hi <= lo then None
    else if TldDot(s, hi - 1) then Some(hi - 1)
    else LastTldDot(s, lo, hi - 1)
  }

  /**
   * The match of the email pattern starting at `k`. `[a-zA-Z0-9._%+-]+` is
   * greedy and `@` is outside its class, so it must end at the end of the
   * longest run; `[a-zA-Z0-9.-]+` backtracks from the end of its longest run
   * to the last dot followed by two letters; `[a-zA-Z]{2,}` then takes all
   * the letters it can.
   */
  function EmailAt(s: string, k: nat): Option<Hit>
  {
    if k >= |s| then None
    else
      var a := RunEnd(s, k, IsLocalChar);
      if a == k || a == |s| || s[a] != '@' then None
      else
        var b := RunEnd(s, a + 1, IsDomainChar);
        match LastTldDot(s, a + 2, b)
        case None => None
        case Some(e) => Some(Hit(RunEnd(s, e + 1, IsLetter), EmailPlaceholder))
  }

  /** `s[d..f]` is in the language of `[a-zA-Z0-9.-]+\.[a-zA-Z]{2,}`. */
  ghost predicate IsDomainMatch(s: string, d: nat, f: nat)
    requires d <= f <= |s|
  {
    exists e | d < e && e + 3 <= f :: AllIn(s, d, e, IsDomainChar) && s[e] == '.' && AllIn(s, e + 1, f, IsLetter)
  }

  /** `s[k..f]` is in the language of the email pattern. */
  ghost predicate IsEmailMatch(s: string, k: nat, f: nat)
  {
    f <= |s| && exists i | k < i < f :: AllIn(s, k, i, IsLocalChar) && s[i] == '@' && IsDomainMatch(s, i + 1, f)
  }

  /** What the matcher finds is a word of the language, and it is replaced by the email placeholder. */
  lemma EmailAtSound(s: string, k: nat)
    requires EmailAt(s, k).Some?
    ensures IsEmailMatch(s, k, EmailAt(s, k).value.end)
    ensures EmailAt(s, k).value.replacement == EmailPlaceholder
  {
    var a := RunEnd(s, k, IsLocalChar);
    var b := RunEnd(s, a + 1, IsDomainChar);
    var e := LastTldDot(s, a + 2, b).value;
    var f := RunEnd(s, e + 1, IsLetter);
    assert AllIn(s, a + 1, e, IsDomainChar);
    assert IsDomainMatch(s, a + 1, f);
  }

  /** After the `@`, backtracking finds a dot, and the letters after it reach at least as far as any word of the domain language. */
  lemma DomainLongest(s: string, d: nat, f: nat)
    requires d <= f <= |s| && IsDomainMatch(s, d, f)
    ensures LastTldDot(s, d + 1, RunEnd(s, d, IsDomainChar)).Some?
    ensures f <= RunEnd(s, LastTldDot(s, d + 1, RunEnd(s, d, IsDomainChar)).value + 1, IsLetter)
  {
    var e :| d < e && e + 3 <= f && AllIn(s, d, e, IsDomainChar) && s[e] == '.' && AllIn(s, e + 1, f, IsLetter);
    var b := RunEnd(s, d, IsDomainChar);
    assert AllIn(s, d, e + 1, IsDomainChar);
    RunEndCovers(s, d, e + 1, IsDomainChar);
    assert TldDot(s, e) by {
      assert IsLetter(s[e + 1]) && IsLetter(s[e + 2]);
    }
    var e' := LastTldDot(s, d + 1, b).value;
    if e' == e {
      RunEndCovers(s, e + 1, f, IsLetter);
    } else {
      assert !IsLetter(s[e']);
    }
  }

  /** Whenever the language has a word starting at `k`, the matcher finds one, and no shorter than any other. */
  lemma EmailAtLongest(s: string, k: nat, f: nat)
    requires IsEmailMatch(s, k, f)
    ensures EmailAt(s, k).Some? && f <= EmailAt(s, k).value.end
  {
    var i :| k < i < f && AllIn(s, k, i, IsLocalChar) && s[i] == '@' && IsDomainMatch(s, i + 1, f);
    RunEndAt(s, k, i, IsLocalChar);
    DomainLongest(s, i + 1, f);
  }

  lemma EmailMatchesNonEmpty()
    ensures NonEmptyMatches(EmailAt)
  {
  }

  // ---------------------------------------------------------------------------
  // /\b(?:\d{1,3}\.){3}\d{1,3}\b/g
  // ---------------------------------------------------------------------------

  const IpPlaceholder: string := "[REDACTED_IP]"

  /** `s[i..j]` is one to three digits. */
  predicate DigitGroup(s: string, i: nat, j: nat)
  {
    i < j <= i + 3 && j <= |s| && AllIn(s, i, j, IsDigit)
  }

  /** There is a word boundary after a digit at `f - 1`. */
  predicate EndsWord(s: string, f: nat)
  {
    f == |s| || (f < |s| && !IsWordChar(s[f]))
  }

  /**
   * The rest of the pattern from `i` with `n` dotted groups still to go.
   * `\d{1,3}` followed by `.` or by a word boundary can only stop at the end
   * of the longest digit run (a shorter one is followed by a digit), so there
   * is no backtracking to model and at most one match.
   */
  function QuadFrom(s: string, i: nat, n: nat): (r: Option<nat>)
    requires i <= |s|
    ensures r.Some? ==> i < r.value <= |s|
    decreases n
  {
    var j := RunEnd(s, i, IsDigit);
    if j == i || j > i + 3 then None
    else if n == 0 then (if EndsWord(s, j) then Some(j) else None)
    else if j < |s| && s[j] == '.' then QuadFrom(s, j + 1, n - 1)
    else None
  }

  /** The match of the IPv4 pattern starting at `k`: `\b` before it, then four groups. */
  function IpAt(s: string, k: nat): Option<Hit>
  {
    if k >= |s| || (k > 0 && IsWordChar(s[k - 1])) then None
    else
      match QuadFrom(s, k, 3)
      case None => None
      case Some(f) => Some(Hit(f, IpPlaceholder))
  }

  /** `s[i..f]` is in the language of `(?:\d{1,3}\.){n}\d{1,3}\b`. */
  ghost predicate DottedFrom(s: string, i: nat, n: nat, f: nat)
    decreases n
  {
    if n == 0 then DigitGroup(s, i, f) && EndsWord(s, f)
    else exists p | i < p < |s| :: DigitGroup(s, i, p) && s[p] == '.' && DottedFrom(s, p + 1, n - 1, f)
  }

  /** `s[k..f]` is in the language of the IPv4 pattern. */
  ghost predicate IsIpMatch(s: string, k: nat, f: nat)
  {
    (k == 0 || (0 < k <= |s| && !IsWordChar(s[k - 1]))) && DottedFrom(s, k, 3, f)
  }

  lemma {:induction false} QuadFromExact(s: string, i: nat, n: nat, f: nat)
    requires i <= |s|
    ensures QuadFrom(s, i, n) == Some(f) <==> DottedFrom(s, i, n, f)
    decreases n
  {
    if n == 0 {
      QuadFromLast(s, i, f);
    } else {
      var j := RunEnd(s, i, IsDigit);
      if j < |s| {
        QuadFromExact(s, j + 1, n - 1, f);
      }
      QuadFromStep(s, i, n, f);
    }
  }

  /** The last group: one to three digits, then a word boundary. */
  lemma QuadFromLast(s: string, i: nat, f: nat)
    requires i <= |s|
    ensures QuadFrom(s, i, 0) == Some(f) <==> DottedFrom(s, i, 0, f)
  {
    if DigitGroup(s, i, f) && EndsWord(s, f) && f < |s| {
      RunEndAt(s, i, f, IsDigit);
    }
  }

  /** A group and its dot: the digit run is the only group that can be followed by the dot. */
  lemma QuadFromStep(s: string, i: nat, n: nat, f: nat)
    requires i <= |s| && n > 0
    requires RunEnd(s, i, IsDigit) < |s| ==>
      (QuadFrom(s, RunEnd(s, i, IsDigit) + 1, n - 1) == Some(f) <==> DottedFrom(s, RunEnd(s, i, IsDigit) + 1, n - 1, f))
    ensures QuadFrom(s, i, n) == Some(f) <==> DottedFrom(s, i, n, f)
  {
    var j := RunEnd(s, i, IsDigit);
    if DottedFrom(s, i, n, f) {
      var p :| i < p < |s| && DigitGroup(s, i, p) && s[p] == '.' && DottedFrom(s, p + 1, n - 1, f);
      RunEndAt(s, i, p, IsDigit);
    }
    if QuadFrom(s, i, n) == Some(f) {
      assert DigitGroup(s, i, j) && s[j] == '.';
    }
  }

  /** The matcher finds exactly the words of the language: the IPv4 pattern has at most one match at each index. */
  lemma IpAtExact(s: string, k: nat, f: nat)
    ensures IpAt(s, k) == Some(Hit(f, IpPlaceholder)) <==> IsIpMatch(s, k, f)
  {
    if k <= |s| {
      QuadFromExact(s, k, 3, f);
    }
  }

  lemma IpMatchesNonEmpty()
    ensures NonEmptyMatches(IpAt)
  {
  }

  // ---------------------------------------------------------------------------
  // sanitizeLogs
  // ---------------------------------------------------------------------------

  /** The email pass. */
  function RedactEmails(text: string): string
  {
    EmailMatchesNonEmpty();
    ReplaceAll(text, EmailAt)
  }

  /** The IPv4 pass. */
  function RedactIps(text: string): string
  {
    IpMatchesNonEmpty();
    ReplaceAll(text, IpAt)
  }

  /** `sanitizeLogs`: the empty text stays empty; otherwise emails are redacted first, then IPv4 addresses. */
  function SanitizeLogs(text: string): string
  {
    if text == [] then [] else RedactIps(RedactEmails(text))
  }

  /** Text without `@` has no email to redact. */
  lemma RedactEmailsWithoutAt(text: string)
    requires '@' !in text
    ensures RedactEmails(text) == text
  {
    EmailMatchesNonEmpty();
    forall i | 0 <= i < |text| ensures EmailAt(text, i).None? {
      var a := RunEnd(text, i, IsLocalChar);
      if a < |text| {
        assert text[a] in text;
      }
    }
    ReplaceNothing(text, 0, EmailAt);
  }

  /** Text without digits has no IPv4 address to redact. */
  lemma RedactIpsWithoutDigits(text: string)
    requires forall i | 0 <= i < |text| :: !IsDigit(text[i])
    ensures RedactIps(text) == text
  {
    IpMatchesNonEmpty();
    forall i | 0 <= i < |text| ensures IpAt(text, i).None? {
    }
    ReplaceNothing(text, 0, IpAt);
  }

  /** The IP pass leaves the email placeholder alone: it holds no digit. */
  lemma EmailPlaceholderInert()
    ensures RedactIps(EmailPlaceholder) == EmailPlaceholder
  {
    var s := EmailPlaceholder;
    assert forall i | 0 <= i < |s| :: !IsDigit(s[i]) by {
      assert s == "[REDACTED_EMAIL]";
    }
    RedactIpsWithoutDigits(s);
  }

  /** The email pass leaves the IP placeholder alone: it holds no `@`. */
  lemma IpPlaceholderInert()
    ensures RedactEmails(IpPlaceholder) == IpPlaceholder
  {
    var s := IpPlaceholder;
    assert '@' !in s by {
      assert s == "[REDACTED_IP]";
    }
    RedactEmailsWithoutAt(s);
  }

  /** A non-empty log never sanitizes to the empty text. */
  lemma SanitizeNonEmpty(text: string)
    requires text != []
    ensures SanitizeLogs(text) != []
  {
    EmailMatchesNonEmpty();
    IpMatchesNonEmpty();
    ReplaceNonEmpty(text, 0, EmailAt);
    ReplaceNonEmpty(RedactEmails(text), 0, IpAt);
  }

  /** Sanitizing leaves a text empty exactly when it was empty. */
  lemma SanitizeKeepsEmptiness(text: string)
    ensures SanitizeLogs(text) == [] <==> text == []
  {
    if text != [] {
      SanitizeNonEmpty(text);
    }
  }

  lemma OutOfRangeGroupsMatch(s: string)
    requires s == "999.999.999.999"
    ensures IpAt(s, 0) == Some(Hit(15, IpPlaceholder))
  {
    RunEndAt(s, 0, 3, IsDigit);
    RunEndAt(s, 4, 7, IsDigit);
    RunEndAt(s, 8, 11, IsDigit);
    RunEndCovers(s, 12, 15, IsDigit);
  }

  /** Groups are not range-checked: `999.999.999.999` is redacted. */
  lemma SanitizeOutOfRangeGroups()
    ensures SanitizeLogs("999.999.999.999") == IpPlaceholder
  {
    var s := "999.999.999.999";
    RedactEmailsWithoutAt(s);
    OutOfRangeGroupsMatch(s);
    IpMatchesNonEmpty();
    ReplaceWhole(s, IpAt, IpPlaceholder);
  }

  lemma FiveGroupsMatches(s: string)
    requires s == "1.2.3.4.5"
    ensures IpAt(s, 0) == Some(Hit(7, IpPlaceholder))
    ensures IpAt(s, 7).None? && IpAt(s, 8).None?
  {
    RunEndAt(s, 0, 1, IsDigit);
    RunEndAt(s, 2, 3, IsDigit);
    RunEndAt(s, 4, 5, IsDigit);
    RunEndAt(s, 6, 7, IsDigit);
    RunEndCovers(s, 8, 9, IsDigit);
  }

  /** Of `1.2.3.4.5` the first four groups are redacted (the dot after them is a word boundary). */
  lemma SanitizeFiveGroups()
    ensures SanitizeLogs("1.2.3.4.5") == IpPlaceholder + ".5"
  {
    var s := "1.2.3.4.5";
    RedactEmailsWithoutAt(s);
    FiveGroupsMatches(s);
    IpMatchesNonEmpty();
    assert NextHit(s, 0, IpAt) == 0;
    assert NextHit(s, 7, IpAt) == 9;
    assert ReplaceFrom(s, 7, IpAt) == s[7..];
    assert ReplaceFrom(s, 0, IpAt) == s[0..0] + IpPlaceholder + ReplaceFrom(s, 7, IpAt);
  }

  // ---------------------------------------------------------------------------
  // The privacy gate of onSubmit
  // ---------------------------------------------------------------------------

  datatype Persona = SeniorSre | CtoExecutive | JuniorDeveloper

  /** What `analyze` emits. */
  datatype Submission = Submission(text: string, image: Option<string>, persona: Persona)

  /** `image || undefined`: an empty data URL counts as no image. */
  function ImageOrNone(image: Option<string>): (r: Option<string>)
    ensures r.Some? <==> image.Some? && image.value != []
    ensures r.Some? ==> r == image
  {
    if image.Some? && image.value != [] then image else None
  }

  /**
   * What `onSubmit` emits, if anything: the log is sanitized only in privacy
   * mode, and something is emitted exactly when there is a log or an image,
   * whichever the mode.
   */
  function Submit(logContent: string, privacyMode: bool, selectedImage: Option<string>, persona: Persona): (r: Option<Submission>)
    ensures r.Some? <==> logContent != [] || ImageOrNone(selectedImage).Some?
    ensures r.Some? ==> r.value.image == ImageOrNone(selectedImage) && r.value.persona == persona
    ensures r.Some? && !privacyMode ==> r.value.text == logContent
    ensures r.Some? && privacyMode ==> r.value.text == SanitizeLogs(logContent)
  {
    SanitizeKeepsEmptiness(logContent);
    var finalLog := if privacyMode then SanitizeLogs(logContent) else logContent;
    if finalLog != [] || ImageOrNone(selectedImage).Some? then Some(Submission(finalLog, ImageOrNone(selectedImage), persona))
    else None
  }

  /** The editor signals `onSubmit` and `togglePrivacy` read and flip. */
  class LogEditor {
    var logContent: string
    var isPrivacyMode: bool
    var selectedImage: Option<string>
    var selectedPersona: Persona

    constructor ()
      ensures logContent == [] && !isPrivacyMode && selectedImage == None && selectedPersona == SeniorSre
    {
      logContent := [];
      isPrivacyMode := false;
      selectedImage := None;
      selectedPersona := SeniorSre;
    }

    /** `togglePrivacy`: flips the mode; the toast it shows is not modelled. */
    method TogglePrivacy()
      modifies this
      ensures isPrivacyMode == !old(isPrivacyMode)
      ensures logContent == old(logContent) && selectedImage == old(selectedImage) && selectedPersona == old(selectedPersona)
    {
      isPrivacyMode := !isPrivacyMode;
    }

    /** `onSubmit`: `Some` is the value passed to `analyze.emit`. */
    method OnSubmit() returns (emitted: Option<Submission>)
      ensures emitted == Submit(logContent, isPrivacyMode, selectedImage, selectedPersona)
    {
      var finalLog := logContent;
      if isPrivacyMode {
        finalLog := SanitizeLogs(finalLog);
      }
      if finalLog != [] || ImageOrNone(selectedImage).Some? {
        emitted := Some(Submission(finalLog, ImageOrNone(selectedImage), selectedPersona));
      } else {
        emitted := None;
      }
    }
  }
}
