/**
 * `clean_text` (embeddings.py, repeated verbatim in flask_app.py): lower-case
 * the text, blank out e-mail addresses, phone numbers and URLs, replace every
 * character outside `[a-z0-9\s+./-]` with a space, squeeze runs of spaces and
 * tabs, squeeze runs of newlines, and strip.
 */
module Cleaning {
  import opened Wrappers
  import opened Chars
  import opened Strings
  import opened Patterns

  /** `re.sub(r"[^a-z0-9\s+./-]", " ", s)`. */
  function ReplaceJunk(s: string): (r: string)
    ensures |r| == |s|
    ensures forall k :: 0 <= k < |s| ==> IsCleanChar(r[k])
    ensures forall k :: 0 <= k < |s| && IsCleanChar(s[k]) ==> r[k] == s[k]
    ensures forall k :: 0 <= k < |s| && !IsCleanChar(s[k]) ==> r[k] == ' '
  {
    seq(|s|, k requires 0 <= k < |s| => if IsCleanChar(s[k]) then s[k] else ' ')
  }

  /**
   * Every maximal run of `cls` characters of `s[i..]` replaced by the single
   * character `rep`: `re.sub(r"[ \t]+", " ", s)` with `Blank`, and
   * `re.sub(r"\n{2,}", "\n", s)` with `Newline` (a run of one newline is
   * already a single newline, so replacing it too changes nothing).
   */
  function Squeeze(s: string, cls: CharClass, rep: char, i: nat): (r: string)
    requires i <= |s|
    requires InClass(rep, cls)
    ensures |r| > 0 <==> i < |s|
    ensures i < |s| ==> r[0] == (if InClass(s[i], cls) then rep else s[i])
    ensures forall k :: 0 <= k < |r| - 1 ==> !PairInClass(r, cls, k)
    decreases |s| - i
  {
    if i == |s| then ""
    else
      var next := if InClass(s[i], cls) then RunEnd(s, i, cls) else i + 1;
      var rest := Squeeze(s, cls, rep, next);
      var r := [if InClass(s[i], cls) then rep else s[i]] + rest;
      assert forall k :: 0 < k < |r| - 1 ==> (PairInClass(r, cls, k) <==> PairInClass(rest, cls, k - 1));
      r
  }

  /** Position `k` continues a run of `cls` characters that started before it. */
  predicate Continues(s: string, cls: CharClass, k: nat)
    requires k < |s|
  {
    0 < k && InClass(s[k - 1], cls) && InClass(s[k], cls)
  }

  /**
   * The squeeze described position by position: a position that continues a
   * run of `cls` is dropped, a `cls` character that starts a run becomes
   * `rep`, and every other character is kept as it is.
   */
  function Collapse(s: string, cls: CharClass, rep: char, i: nat): string
    requires i <= |s|
    decreases |s| - i
  {
    if i == |s| then ""
    else
      (if Continues(s, cls, i) then "" else [if InClass(s[i], cls) then rep else s[i]])
      + Collapse(s, cls, rep, i + 1)
  }

  /** Positions that all continue a run contribute nothing. */
  lemma {:induction false} CollapseSkip(s: string, cls: CharClass, rep: char, a: nat, b: nat)
    requires a <= b <= |s|
    requires forall m :: a <= m < b ==> Continues(s, cls, m)
    ensures Collapse(s, cls, rep, a) == Collapse(s, cls, rep, b)
    decreases b - a
  {
    if a < b {
      CollapseSkip(s, cls, rep, a + 1, b);
    }
  }

  /**
   * The run-by-run squeeze agrees with the position-by-position
   * description from any position that does not continue a run, in
   * particular from the start of the text.
   */
  lemma {:induction false} SqueezeIsCollapse(s: string, cls: CharClass, rep: char, i: nat)
    requires i <= |s|
    requires InClass(rep, cls)
    requires i == |s| || !Continues(s, cls, i)
    ensures Squeeze(s, cls, rep, i) == Collapse(s, cls, rep, i)
    decreases |s| - i
  {
    if i < |s| {
      if InClass(s[i], cls) {
        var next := RunEnd(s, i, cls);
        assert forall m :: i + 1 <= m < next ==> Continues(s, cls, m);
        CollapseSkip(s, cls, rep, i + 1, next);
        SqueezeIsCollapse(s, cls, rep, next);
      } else {
        SqueezeIsCollapse(s, cls, rep, i + 1);
      }
    }
  }

  /** `c` at both `k` and `k + 1`. */
  predicate DoubledAt(s: string, c: char, k: nat)
    requires k + 1 < |s|
  {
    s[k] == c && s[k + 1] == c
  }

  predicate NoDoubled(s: string, c: char) {
    forall k :: 0 <= k < |s| - 1 ==> !DoubledAt(s, c, k)
  }

  /** Characters of `cls` at both `k` and `k + 1`. */
  predicate PairInClass(s: string, cls: CharClass, k: nat)
    requires k + 1 < |s|
  {
    InClass(s[k], cls) && InClass(s[k + 1], cls)
  }

  /** The shape every output of `clean_text` has. */
  predicate IsNormalized(s: string) {
    && (forall k :: 0 <= k < |s| ==> IsCleanChar(s[k]) && s[k] != '\t')
    && NoDoubled(s, ' ')
    && NoDoubled(s, '\n')
    && IsStripped(s)
  }

  /** The three `re.sub` passes that blank out personal data, in source order. */
  function RemovePersonalData(s: string): string {
    Sub(Url, Sub(Phone, Sub(Email, s, 0), 0), 0)
  }

  /** The character filter and the whitespace normalisation that follow them. */
  function NormalizeSpacing(s: string): (r: string)
    ensures IsNormalized(r)
  {
    var kept := ReplaceJunk(s);
    var spaced := Squeeze(kept, Blank, ' ', 0);
    var lined := Squeeze(spaced, Newline, '\n', 0);
    NormalizedAfterSqueeze(kept, spaced, lined);
    Strip(lined)
  }

  lemma NormalizedAfterSqueeze(kept: string, spaced: string, lined: string)
    requires forall k :: 0 <= k < |kept| ==> IsCleanChar(kept[k])
    requires spaced == Squeeze(kept, Blank, ' ', 0)
    requires lined == Squeeze(spaced, Newline, '\n', 0)
    ensures IsNormalized(Strip(lined))
  {
    SqueezeChars(kept, Blank, ' ', 0, CleanNotTab);
    assert forall k :: 0 <= k < |spaced| ==> CleanNotTab(spaced[k]);
    SqueezeChars(spaced, Newline, '\n', 0, CleanNotTab);
    NoPairNoDoubled(spaced, Blank, ' ');
    NoPairNoDoubled(lined, Newline, '\n');
    SqueezeKeepsSingle(spaced, 0);
    NormalizedStrip(lined);
  }

  lemma NoPairNoDoubled(s: string, cls: CharClass, c: char)
    requires InClass(c, cls)
    requires forall k :: 0 <= k < |s| - 1 ==> !PairInClass(s, cls, k)
    ensures NoDoubled(s, c)
  {
    forall k | 0 <= k < |s| - 1
      ensures !DoubledAt(s, c, k)
    {
      assert !PairInClass(s, cls, k);
    }
  }

  predicate CleanNotTab(c: char) {
    IsCleanChar(c) && c != '\t'
  }

  lemma NormalizedStrip(s: string)
    requires forall k :: 0 <= k < |s| ==> IsCleanChar(s[k]) && s[k] != '\t'
    requires NoDoubled(s, ' ') && NoDoubled(s, '\n')
    ensures IsNormalized(Strip(s))
  {
    var r := Strip(s);
    var a := StripSlice(s);
    forall k | 0 <= k < |r| - 1
      ensures !DoubledAt(r, ' ', k) && !DoubledAt(r, '\n', k)
    {
      assert !DoubledAt(s, ' ', a + k) && !DoubledAt(s, '\n', a + k);
    }
  }

  /** A property of every character that survives a squeeze, and of `rep`, holds of its result. */
  lemma {:induction false} SqueezeChars(s: string, cls: CharClass, rep: char, i: nat, P: char -> bool)
    requires i <= |s|
    requires InClass(rep, cls) && P(rep)
    requires forall k :: i <= k < |s| && !InClass(s[k], cls) ==> P(s[k])
    ensures forall k :: 0 <= k < |Squeeze(s, cls, rep, i)| ==> P(Squeeze(s, cls, rep, i)[k])
    decreases |s| - i
  {
    if i < |s| {
      var next := if InClass(s[i], cls) then RunEnd(s, i, cls) else i + 1;
      SqueezeChars(s, cls, rep, next, P);
      var rest := Squeeze(s, cls, rep, next);
      var r := Squeeze(s, cls, rep, i);
      assert r == [r[0]] + rest;
      assert forall k :: 1 <= k < |r| ==> r[k] == rest[k - 1];
    }
  }

  /** Squeezing newlines never makes two spaces adjacent. */
  lemma {:induction false} SqueezeKeepsSingle(s: string, i: nat)
    requires i <= |s|
    requires NoDoubled(s, ' ')
    ensures NoDoubled(Squeeze(s, Newline, '\n', i), ' ')
    decreases |s| - i
  {
    if i < |s| {
      var r := Squeeze(s, Newline, '\n', i);
      var next := if s[i] == '\n' then RunEnd(s, i, Newline) else i + 1;
      SqueezeKeepsSingle(s, next);
      var rest := Squeeze(s, Newline, '\n', next);
      assert r == [r[0]] + rest;
      forall k | 0 <= k < |r| - 1
        ensures !DoubledAt(r, ' ', k)
      {
        if k > 0 {
          assert DoubledAt(r, ' ', k) == DoubledAt(rest, ' ', k - 1);
        } else if s[i] != '\n' {
          assert !DoubledAt(s, ' ', i);
        }
      }
    }
  }

  /**
   * `clean_text(text)`: the empty text stays empty; every result consists of
   * `[a-z0-9\s+./-]` characters, has no tab, no two adjacent spaces, no two
   * adjacent newlines, and no whitespace at either end.
   */
  function CleanText(text: string): (r: string)
    ensures text == "" ==> r == ""
    ensures IsNormalized(r)
  {
    if text == "" then ""
    else NormalizeSpacing(RemovePersonalData(Lower(text)))
  }

  // ---------------------------------------------------------------- blank text

  /** `re.sub` replaces with a space, so a whitespace-only text stays whitespace only. */
  lemma SubKeepsBlank(p: Pattern, s: string)
    requires AllSpace(s)
    ensures AllSpace(Sub(p, s, 0))
  {
    var r := Sub(p, s, 0);
    assert s[0..] == s;
    forall k | 0 <= k < |r|
      ensures IsSpace(r[k])
    {
      if r[k] != ' ' {
        var j :| 0 <= j < |s| && s[j] == r[k];
      }
    }
  }

  /** A whitespace-only text cleans to the empty string. */
  lemma BlankCleansToEmpty(s: string)
    requires AllSpace(s)
    ensures CleanText(s) == ""
  {
    if s != "" {
      var l := Lower(s);
      SubKeepsBlank(Email, l);
      SubKeepsBlank(Phone, Sub(Email, l, 0));
      SubKeepsBlank(Url, Sub(Phone, Sub(Email, l, 0), 0));
      var kept := ReplaceJunk(RemovePersonalData(l));
      assert AllSpace(kept);
      SqueezeChars(kept, Blank, ' ', 0, IsSpace);
      var spaced := Squeeze(kept, Blank, ' ', 0);
      SqueezeChars(spaced, Newline, '\n', 0, IsSpace);
      StripBlank(Squeeze(spaced, Newline, '\n', 0));
    }
  }

  /** `Sub(Url, " ", 0) == " "`: a lone space holds no URL. */
  lemma NoUrlInSpace()
    ensures Sub(Url, " ", 0) == " "
  {
    NoUrlWithoutSchemeOrWww(" ", 0);
    SubNoMatch(Url, " ", 0);
  }

  /** The space left where personal data stood is stripped away. */
  lemma SpaceNormalizesToEmpty()
    ensures NormalizeSpacing(" ") == ""
  {
    assert ReplaceJunk(" ") == " ";
    assert RunEnd(" ", 0, Blank) == 1;
    assert Squeeze(" ", Blank, ' ', 0) == " ";
    assert Squeeze(" ", Newline, '\n', 0) == " ";
    var a := StripSlice(" ");
    assert |Strip(" ")| != 1;
  }

  /** A text that is one e-mail address from end to end cleans to the empty string. */
  lemma EmailOnlyCleansToEmpty(s: string)
    requires MatchAt(Email, Lower(s), 0) == Some(|s|)
    ensures CleanText(s) == ""
  {
    var l := Lower(s);
    SubLeftmost(Email, l, 0, 0, |s|);
    assert Sub(Email, l, 0) == " ";
    NoPhoneWithoutDigit(" ", 0);
    SubNoMatch(Phone, " ", 0);
    NoUrlInSpace();
    SpaceNormalizesToEmpty();
  }

  /** A text that is one phone number from end to end cleans to the empty string. */
  lemma PhoneOnlyCleansToEmpty(s: string)
    requires MatchAt(Phone, Lower(s), 0) == Some(|s|)
    ensures CleanText(s) == ""
  {
    var l := Lower(s);
    var k :| IsPhoneSplit(l, 0, k, |s|);
    assert forall j :: 0 <= j < |l| ==> l[j] != '@';
    NoEmailSubWithoutAt(l);
    SubLeftmost(Phone, l, 0, 0, |s|);
    assert Sub(Phone, l, 0) == " ";
    NoUrlInSpace();
    SpaceNormalizesToEmpty();
  }

  // ---------------------------------------------------------------- tech tokens

  predicate IsTechChar(c: char) {
    IsLowerLetter(c) || c == '+' || c == '.' || c == '/' || c == '-'
  }

  /**
   * Lower-case technical tokens (`c++`, `node.js`, `ci/cd`,
   * `scikit-learn`) separated by single spaces, without digits and without
   * `www.`: nothing in such a text looks like personal data or junk.
   */
  predicate IsPlainTechText(s: string) {
    && (forall k :: 0 <= k < |s| ==> IsTechChar(s[k]) || s[k] == ' ')
    && NoDoubled(s, ' ')
    && IsStripped(s)
    && (forall i :: 0 <= i <= |s| ==> !OccursAt(s, "www.", i))
  }

  lemma {:induction false} SqueezeUnchanged(s: string, cls: CharClass, rep: char, i: nat)
    requires i <= |s|
    requires InClass(rep, cls)
    requires forall k :: i <= k < |s| && InClass(s[k], cls) ==> s[k] == rep
    requires forall k :: i <= k < |s| - 1 ==> !PairInClass(s, cls, k)
    ensures Squeeze(s, cls, rep, i) == s[i..]
    decreases |s| - i
  {
    if i < |s| {
      if InClass(s[i], cls) && i + 1 < |s| {
        assert !PairInClass(s, cls, i);
      }
      SqueezeUnchanged(s, cls, rep, i + 1);
      assert s[i..] == [s[i]] + s[i + 1..];
    }
  }

  /** Where no pattern matches anywhere, nothing is blanked out. */
  lemma NoMatchUnchanged(s: string)
    requires forall j :: 0 <= j < |s| ==>
               MatchAt(Email, s, j).None? && MatchAt(Phone, s, j).None? && MatchAt(Url, s, j).None?
    ensures RemovePersonalData(s) == s
  {
    SubNoMatch(Email, s, 0);
    SubNoMatch(Phone, s, 0);
    SubNoMatch(Url, s, 0);
  }

  /** A text with no `@`, no digit, no `:` and no `www.` has nothing to blank out. */
  lemma NothingPersonal(s: string)
    requires forall k :: 0 <= k < |s| ==> s[k] != '@' && !IsDigit(s[k]) && s[k] != ':'
    requires forall i :: 0 <= i <= |s| ==> !OccursAt(s, "www.", i)
    ensures RemovePersonalData(s) == s
  {
    forall j | 0 <= j < |s|
      ensures MatchAt(Email, s, j).None? && MatchAt(Phone, s, j).None? && MatchAt(Url, s, j).None?
    {
      NoEmailWithoutAt(s, j);
      NoPhoneWithoutDigit(s, j);
      NoUrlWithoutSchemeOrWww(s, j);
    }
    NoMatchUnchanged(s);
  }

  /** Single-spaced, stripped, one-line text of `clean_text` characters is left as it is. */
  lemma NormalizeSpacingUnchanged(s: string)
    requires forall k :: 0 <= k < |s| ==> IsCleanChar(s[k]) && s[k] != '\t' && s[k] != '\n'
    requires NoDoubled(s, ' ')
    requires IsStripped(s)
    ensures NormalizeSpacing(s) == s
  {
    assert ReplaceJunk(s) == s;
    forall k | 0 <= k < |s| - 1
      ensures !PairInClass(s, Blank, k)
    {
      assert !DoubledAt(s, ' ', k);
    }
    SqueezeUnchanged(s, Blank, ' ', 0);
    SqueezeUnchanged(s, Newline, '\n', 0);
    StripOfStripped(s);
  }

  /** Technical tokens pass through `clean_text` untouched. */
  lemma PlainTechTextUnchanged(s: string)
    requires IsPlainTechText(s)
    ensures CleanText(s) == s
  {
    if s != "" {
      assert Lower(s) == s;
      NothingPersonal(s);
      NormalizeSpacingUnchanged(s);
    }
  }

  /** `lower()` comes first, so upper-case input cleans like its lower-case form. */
  lemma CleanTextOfLower(s: string, t: string)
    requires Lower(s) == t
    ensures CleanText(s) == CleanText(t)
  {
    LowerIdempotent(s);
  }

  lemma TechSentenceIsPlain()
    ensures IsPlainTechText("c++ node.js ci/cd scikit-learn")
  {
    var s := "c++ node.js ci/cd scikit-learn";
    assert forall k :: 0 <= k < |s| ==> IsTechChar(s[k]) || s[k] == ' ';
    assert forall k :: 0 <= k < |s| ==> s[k] != 'w';
    forall i | 0 <= i <= |s|
      ensures !OccursAt(s, "www.", i)
    {
      if i + 4 <= |s| {
        assert s[i..i + 4][0] == s[i];
      }
    }
  }

  lemma LowerOfTechSentence()
    ensures Lower("C++ Node.js CI/CD Scikit-Learn") == "c++ node.js ci/cd scikit-learn"
  {
  }

  /** `C++`, `Node.js`, `CI/CD` and `Scikit-Learn` come out as `c++ node.js ci/cd scikit-learn`. */
  lemma TechTokensSurvive()
    ensures CleanText("C++ Node.js CI/CD Scikit-Learn") == "c++ node.js ci/cd scikit-learn"
  {
    LowerOfTechSentence();
    TechSentenceIsPlain();
    PlainTechTextUnchanged("c++ node.js ci/cd scikit-learn");
    CleanTextOfLower("C++ Node.js CI/CD Scikit-Learn", "c++ node.js ci/cd scikit-learn");
  }
}
