/**
 * The three substitutions `clean_text` performs with `re.sub(pattern, " ", text)`:
 *
 *   Email  `\b[\w\.-]+@[\w\.-]+\.\w+\b`
 *   Phone  `\+?\d[\d\s().-]{7,}\d`
 *   Url    `https?://\S+|www\.\S+`
 *
 * Each pattern gets a matcher `MatchAt(p, s, i)` that returns the end of the
 * match Python's backtracking engine finds when it tries position `i`, or
 * `None`. Each matcher comes with a predicate stating, independently of how
 * the matcher scans, which slices the pattern describes; the matcher is
 * proved sound (its match has that shape), complete (if any slice at `i`
 * has that shape, it finds a match) and maximal (no slice at `i` with that
 * shape ends later than the match it reports).
 */
module Patterns {
  import opened Wrappers
  import opened Chars
  import opened Strings

  /** `\b`: exactly one side of position `i` is a word character. */
  predicate AtBoundary(s: string, i: nat)
    requires i <= |s|
  {
    (i > 0 && IsWord(s[i - 1])) != (i < |s| && IsWord(s[i]))
  }

  /** Rightmost index `b` in `[lo, hi)` with `P(s, b)`. */
  function LastWhere(s: string, lo: nat, hi: nat, P: (string, nat) -> bool): (r: Option<nat>)
    requires hi <= |s|
    ensures r.Some? ==> lo <= r.value < hi && P(s, r.value)
    ensures r.Some? ==> forall b :: r.value < b < hi ==> !P(s, b)
    ensures r.None? ==> forall b :: lo <= b < hi ==> !P(s, b)
    decreases hi
  {
    if hi <= lo then None
    else if P(s, hi - 1) then Some(hi - 1)
    else LastWhere(s, lo, hi - 1, P)
  }

  // ---------------------------------------------------------------- email

  /** A dot followed by a word character: where `\.\w+` can start. */
  predicate TldDotAt(s: string, b: nat) {
    b + 1 < |s| && s[b] == '.' && IsWord(s[b + 1])
  }

  /**
   * `s[i..e]` is matched by the e-mail pattern, with the `@` at `at` and the
   * dot before the top-level domain at `b`.
   */
  predicate IsEmailSplit(s: string, i: nat, at: nat, b: nat, e: nat) {
    && i < at && at + 1 < b && b + 1 < e <= |s|
    && AtBoundary(s, i) && AtBoundary(s, e)
    && s[at] == '@' && s[b] == '.'
    && (forall k :: i <= k < at ==> InClass(s[k], EmailChar))
    && (forall k :: at < k < b ==> InClass(s[k], EmailChar))
    && (forall k :: b < k < e ==> IsWord(s[k]))
  }

  /**
   * The local part `[\w\.-]+` is greedy and cannot contain `@`, so it ends at
   * the end of the run; the domain `[\w\.-]+` gives back characters until a
   * `.` followed by a word character is found, so it ends at the rightmost
   * such dot; `\w+` is greedy and the final `\b` always holds after it.
   */
  function EmailAt(s: string, i: nat): (r: Option<nat>)
    requires i <= |s|
    ensures r.Some? ==> exists at, b :: IsEmailSplit(s, i, at, b, r.value)
  {
    if !AtBoundary(s, i) then None
    else
      var at := RunEnd(s, i, EmailChar);
      if at == i || at == |s| || s[at] != '@' then None
      else
        var e := RunEnd(s, at + 1, EmailChar);
        match LastWhere(s, at + 2, e, TldDotAt)
        case None => None
        case Some(b) =>
          var end := RunEnd(s, b + 1, Word);
          assert IsEmailSplit(s, i, at, b, end);
          Some(end)
  }

  /**
   * What the scan of `EmailAt` meets when some e-mail slice `s[i..e]`
   * exists: the boundary, a non-empty local part ending at `@`, a dot before
   * a word character in the domain, and a word run reaching at least `e`
   * after the rightmost such dot.
   */
  predicate EmailBound(s: string, i: nat, e: nat)
    requires i <= |s|
  {
    var at := RunEnd(s, i, EmailChar);
    && AtBoundary(s, i) && at != i && at < |s| && s[at] == '@'
    && var d := RunEnd(s, at + 1, EmailChar);
       && LastWhere(s, at + 2, d, TldDotAt).Some?
       && LastWhere(s, at + 2, d, TldDotAt).value + 1 <= |s|
       && e <= RunEnd(s, LastWhere(s, at + 2, d, TldDotAt).value + 1, Word)
  }

  /**
   * The `@` of any e-mail slice at `i` is the end of the local-part run, its
   * dot is at or before the rightmost dot the scan finds, and a later dot
   * cannot lie inside its top-level domain, so the slice ends no later than
   * the scan's match.
   */
  lemma EmailSplitBound(s: string, i: nat, at: nat, b: nat, e: nat)
    requires IsEmailSplit(s, i, at, b, e)
    ensures EmailBound(s, i, e)
  {
    assert RunEnd(s, i, EmailChar) == at;
    var d := RunEnd(s, at + 1, EmailChar);
    assert InClass(s[b], EmailChar);
    assert e <= d;
    assert TldDotAt(s, b);
    var last := LastWhere(s, at + 2, d, TldDotAt).value;
    assert b <= last;
    if last == b {
      assert e <= RunEnd(s, b + 1, Word);
    } else {
      assert !IsWord(s[last]);
      assert e <= last + 1;
    }
  }

  /** Whenever an e-mail slice starts at `i`, the matcher reports a match ending no earlier. */
  lemma EmailAtComplete(s: string, i: nat, at: nat, b: nat, e: nat)
    requires IsEmailSplit(s, i, at, b, e)
    ensures EmailAt(s, i).Some? && e <= EmailAt(s, i).value
  {
    EmailSplitBound(s, i, at, b, e);
  }

  // ---------------------------------------------------------------- phone

  predicate DigitAt(s: string, m: nat) {
    m < |s| && IsDigit(s[m])
  }

  /**
   * `s[i..e]` is matched by the phone pattern, the mandatory first digit
   * being at `k` (after an optional `+` at `i`).
   */
  predicate IsPhoneSplit(s: string, i: nat, k: nat, e: nat) {
    && (k == i || (k == i + 1 && i < |s| && s[i] == '+'))
    && k + 9 <= e <= |s|
    && IsDigit(s[k]) && IsDigit(s[e - 1])
    && (forall j :: k < j < e - 1 ==> InClass(s[j], PhoneChar))
  }

  /**
   * `\d[\d\s().-]{7,}\d` at `k`: the repeated class runs greedily and gives
   * back characters until a digit is next, so the last digit is the
   * rightmost digit of the run at least eight places after `k`.
   */
  function PhoneBodyAt(s: string, k: nat): (r: Option<nat>)
    requires k <= |s|
    ensures r.Some? ==> IsPhoneSplit(s, k, k, r.value)
    ensures forall e: nat :: IsPhoneSplit(s, k, k, e) ==> r.Some? && e <= r.value
  {
    assert forall e: nat :: IsPhoneSplit(s, k, k, e) ==> PhoneBound(s, k, e) by {
      forall e: nat | IsPhoneSplit(s, k, k, e) ensures PhoneBound(s, k, e) {
        PhoneSplitBound(s, k, e);
      }
    }
    if k == |s| || !IsDigit(s[k]) then None
    else
      var e := RunEnd(s, k + 1, PhoneChar);
      match LastWhere(s, k + 8, e, DigitAt)
      case None => None
      case Some(m) => Some(m + 1)
  }

  /** `\+?` is greedy: with a `+` at `i` the body is first tried after it. */
  function PhoneAt(s: string, i: nat): (r: Option<nat>)
    requires i <= |s|
    ensures r.Some? ==> exists k :: IsPhoneSplit(s, i, k, r.value)
    ensures forall k: nat, e: nat :: IsPhoneSplit(s, i, k, e) ==> r.Some? && e <= r.value
  {
    assert forall k: nat, e: nat :: IsPhoneSplit(s, i, k, e) ==> IsPhoneSplit(s, k, k, e);
    if i < |s| && s[i] == '+' && PhoneBodyAt(s, i + 1).Some? then
      var r := PhoneBodyAt(s, i + 1);
      assert IsPhoneSplit(s, i, i + 1, r.value);
      r
    else
      var r := PhoneBodyAt(s, i);
      assert r.Some? ==> IsPhoneSplit(s, i, i, r.value);
      r
  }

  /**
   * What the scan of `PhoneBodyAt` meets when some phone body `s[k..e]`
   * exists: a digit at `k` and a last digit at or after `e - 1` in the run.
   */
  predicate PhoneBound(s: string, k: nat, e: nat)
    requires k <= |s|
  {
    && k < |s| && IsDigit(s[k])
    && LastWhere(s, k + 8, RunEnd(s, k + 1, PhoneChar), DigitAt).Some?
    && e <= LastWhere(s, k + 8, RunEnd(s, k + 1, PhoneChar), DigitAt).value + 1
  }

  /** The last digit of any phone body at `k` lies in the class run, so the rightmost digit is no earlier. */
  lemma PhoneSplitBound(s: string, k: nat, e: nat)
    requires IsPhoneSplit(s, k, k, e)
    ensures PhoneBound(s, k, e)
  {
    var e' := RunEnd(s, k + 1, PhoneChar);
    assert InClass(s[e - 1], PhoneChar);
    assert DigitAt(s, e - 1);
    assert e - 1 < e';
  }

  // ---------------------------------------------------------------- url

  /** Length of the literal prefix `https://`, `http://` or `www.` at `i`, or 0. */
  function UrlPrefix(s: string, i: nat): (n: nat)
    ensures n == 0 || n == 4 || n == 7 || n == 8
    ensures n > 0 ==> i + n <= |s|
  {
    if OccursAt(s, "https://", i) then 8
    else if OccursAt(s, "http://", i) then 7
    else if OccursAt(s, "www.", i) then 4
    else 0
  }

  /** `s[i..e]` is matched by the URL pattern. */
  predicate IsUrlSplit(s: string, i: nat, e: nat) {
    var n := UrlPrefix(s, i);
    && n > 0 && i + n < e <= |s|
    && (forall j :: i + n <= j < e ==> !IsSpace(s[j]))
  }

  /**
   * The alternatives cannot both apply at one position (`h` against `w`),
   * and `https?` tries the `s` first; `\S+` is greedy and ends the pattern.
   */
  function UrlAt(s: string, i: nat): (r: Option<nat>)
    requires i <= |s|
    ensures r.Some? ==> IsUrlSplit(s, i, r.value)
    ensures forall e: nat :: IsUrlSplit(s, i, e) ==> r.Some? && e <= r.value
  {
    var n := UrlPrefix(s, i);
    if n == 0 then None
    else
      var e := RunEnd(s, i + n, NonSpace);
      if e == i + n then None else Some(e)
  }

  // ---------------------------------------------------------------- re.sub

  datatype Pattern = Email | Phone | Url

  /** The pattern `p` matches `s[i..e]`. */
  ghost predicate Matches(p: Pattern, s: string, i: nat, e: nat) {
    match p
    case Email => exists at, b :: IsEmailSplit(s, i, at, b, e)
    case Phone => exists k :: IsPhoneSplit(s, i, k, e)
    case Url => IsUrlSplit(s, i, e)
  }

  /**
   * The match `re` finds at `i`: it has the pattern's shape, and it is the
   * longest slice at `i` with that shape.
   */
  function MatchAt(p: Pattern, s: string, i: nat): (r: Option<nat>)
    requires i <= |s|
    ensures r.Some? ==> i < r.value <= |s| && Matches(p, s, i, r.value)
    ensures forall e: nat :: Matches(p, s, i, e) ==> r.Some? && e <= r.value
  {
    match p
    case Email =>
      assert forall e: nat :: Matches(p, s, i, e) ==> EmailAt(s, i).Some? && e <= EmailAt(s, i).value by {
        forall e: nat | Matches(p, s, i, e) ensures EmailAt(s, i).Some? && e <= EmailAt(s, i).value {
          var at, b :| IsEmailSplit(s, i, at, b, e);
          EmailAtComplete(s, i, at, b, e);
        }
      }
      EmailAt(s, i)
    case Phone => PhoneAt(s, i)
    case Url => UrlAt(s, i)
  }

  /**
   * `re.sub(p, " ", s[i..])`: scanning left to right, each match is
   * replaced by one space and scanning resumes after it; no pattern matches
   * the empty string, so other characters are copied one by one.
   */
  function Sub(p: Pattern, s: string, i: nat): (r: string)
    requires i <= |s|
    ensures |r| <= |s| - i
    ensures forall k :: 0 <= k < |r| ==> r[k] == ' ' || r[k] in s[i..]
    decreases |s| - i
  {
    if i == |s| then ""
    else
      match MatchAt(p, s, i)
      case Some(e) =>
        var rest := Sub(p, s, e);
        CharsFromLater(s, i, e, rest);
        " " + rest
      case None =>
        var rest := Sub(p, s, i + 1);
        CharsFromLater(s, i, i + 1, rest);
        assert s[i..][0] == s[i];
        [s[i]] + rest
  }

  /**
   * `re.sub` copies the text up to the leftmost match, replaces that match
   * by one space and carries on after it, so matches never overlap.
   */
  lemma {:induction false} SubLeftmost(p: Pattern, s: string, i: nat, j: nat, e: nat)
    requires i <= j < |s|
    requires forall m :: i <= m < j ==> MatchAt(p, s, m).None?
    requires MatchAt(p, s, j) == Some(e)
    ensures Sub(p, s, i) == s[i..j] + " " + Sub(p, s, e)
    decreases j - i
  {
    SubStep(p, s, i);
    if i < j {
      SubLeftmost(p, s, i + 1, j, e);
      ConsSlice(s, i, j, Sub(p, s, e));
    } else {
      assert s[i..j] + " " == " ";
    }
  }

  /** Regrouping `s[i]` in front of the rest of the slice `s[i..j]`. */
  lemma ConsSlice(s: string, i: nat, j: nat, t: string)
    requires i < j <= |s|
    ensures [s[i]] + (s[i + 1..j] + " " + t) == s[i..j] + " " + t
  {
    assert s[i..j] == [s[i]] + s[i + 1..j];
  }

  /** One step of `re.sub`: a match at `i` becomes a space, otherwise `s[i]` is copied. */
  lemma SubStep(p: Pattern, s: string, i: nat)
    requires i < |s|
    ensures MatchAt(p, s, i).None? ==> Sub(p, s, i) == [s[i]] + Sub(p, s, i + 1)
    ensures MatchAt(p, s, i).Some? ==> Sub(p, s, i) == " " + Sub(p, s, MatchAt(p, s, i).value)
  {
  }

  /** Where the pattern matches nowhere, `re.sub` changes nothing. */
  lemma {:induction false} SubNoMatch(p: Pattern, s: string, i: nat)
    requires i <= |s|
    requires forall j :: i <= j < |s| ==> MatchAt(p, s, j).None?
    ensures Sub(p, s, i) == s[i..]
    decreases |s| - i
  {
    if i < |s| {
      SubNoMatch(p, s, i + 1);
      assert s[i..] == [s[i]] + s[i + 1..];
    }
  }

  /** Characters taken from `s[e..]` are characters of `s[i..]` for any `i <= e`. */
  lemma CharsFromLater(s: string, i: nat, e: nat, rest: string)
    requires i <= e <= |s|
    requires forall k :: 0 <= k < |rest| ==> rest[k] == ' ' || rest[k] in s[e..]
    ensures forall k :: 0 <= k < |rest| ==> rest[k] == ' ' || rest[k] in s[i..]
  {
    forall k | 0 <= k < |rest| && rest[k] != ' '
      ensures rest[k] in s[i..]
    {
      var j :| 0 <= j < |s| - e && s[e..][j] == rest[k];
      assert s[i..][j + e - i] == rest[k];
    }
  }

  /** Without an `@` there is no e-mail match. */
  lemma NoEmailWithoutAt(s: string, i: nat)
    requires i <= |s|
    requires forall k :: 0 <= k < |s| ==> s[k] != '@'
    ensures MatchAt(Email, s, i).None?
  {
  }

  /** Without a digit there is no phone match. */
  lemma NoPhoneWithoutDigit(s: string, i: nat)
    requires i <= |s|
    requires forall k :: 0 <= k < |s| ==> !IsDigit(s[k])
    ensures MatchAt(Phone, s, i).None?
  {
  }

  /** Ten or more characters of `[\d\s().-]` from a digit to a digit are one phone match. */
  lemma WholePhone(s: string)
    requires |s| >= 10 && IsDigit(s[0]) && IsDigit(s[|s| - 1])
    requires forall k :: 0 <= k < |s| ==> InClass(s[k], PhoneChar)
    ensures Sub(Phone, s, 0) == " "
  {
    assert RunEnd(s, 1, PhoneChar) == |s|;
    assert LastWhere(s, 8, |s|, DigitAt) == Some(|s| - 1);
    assert MatchAt(Phone, s, 0) == Some(|s|);
  }

  /**
   * In a text shorter than eighteen characters, a character outside
   * `[\d\s().-]` among the first nine that leaves at most eight characters
   * after it rules out a phone match: the ten or more characters of a match
   * cannot fit on either side of it.
   */
  lemma NoPhoneAcrossBreak(s: string, i: nat, b: nat)
    requires i <= |s|
    requires b < |s| && !InClass(s[b], PhoneChar)
    requires b < 9 && |s| <= b + 9
    ensures MatchAt(Phone, s, i).None?
  {
    forall k: nat, e: nat
      ensures !IsPhoneSplit(s, i, k, e)
    {
      if k + 9 <= e <= |s| && k < b < e - 1 {
        assert !InClass(s[b], PhoneChar);
      }
    }
  }

  /** Without a `:` and without `www.` there is no URL match. */
  lemma NoUrlWithoutSchemeOrWww(s: string, i: nat)
    requires i <= |s|
    requires forall k :: 0 <= k < |s| ==> s[k] != ':'
    requires !OccursAt(s, "www.", i)
    ensures MatchAt(Url, s, i).None?
  {
    assert !OccursAt(s, "https://", i) by {
      if i + 8 <= |s| {
        assert s[i..i + 8][5] == s[i + 5];
      }
    }
    assert !OccursAt(s, "http://", i) by {
      if i + 7 <= |s| {
        assert s[i..i + 7][4] == s[i + 4];
      }
    }
  }

  /** `re.sub` of the e-mail pattern leaves a text without `@` as it is. */
  lemma NoEmailSubWithoutAt(s: string)
    requires forall k :: 0 <= k < |s| ==> s[k] != '@'
    ensures Sub(Email, s, 0) == s
  {
    forall j | 0 <= j < |s|
      ensures MatchAt(Email, s, j).None?
    {
      NoEmailWithoutAt(s, j);
    }
    SubNoMatch(Email, s, 0);
  }
}
