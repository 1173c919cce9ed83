/**
 * `remove_noise_lines` and `preprocess` (embeddings.py, repeated verbatim in
 * flask_app.py): drop blank lines and lines that mention personal
 * boilerplate, then strip and rejoin the rest.
 */
module Noise {
  import opened Wrappers
  import opened Chars
  import opened Strings
  import opened Patterns
  import opened Cleaning

  /**
   * The phrases of the eleven `\b...\b` noise patterns. The last pattern,
   * `\breferences?\b`, matches exactly where `reference` or `references`
   * occurs between word boundaries: after `reference` the optional `s` is
   * taken when present, and when the boundary after it fails, giving the
   * `s` back leaves `e` next to `s`, which is no boundary either.
   */
  const NoisePhrases: seq<string> := [
    "date of birth", "dob", "gender", "nationality",
    "marital status", "address", "hobbies", "interests",
    "declaration", "i hereby declare", "reference", "references"
  ]

  /** `phrase` occurs at `i` with a word boundary on both sides. */
  predicate BoundedAt(line: string, phrase: string, i: nat) {
    OccursAt(line, phrase, i) && AtBoundary(line, i) && AtBoundary(line, i + |phrase|)
  }

  /** `re.search(r"\b" + phrase + r"\b", line)` succeeds. */
  predicate HasBoundedPhrase(line: string, phrase: string) {
    exists i | 0 <= i <= |line| :: BoundedAt(line, phrase, i)
  }

  /** Some phrase of `phrases` occurs in `line` between word boundaries. */
  predicate HasAnyPhrase(line: string, phrases: seq<string>)
    decreases |phrases|
  {
    |phrases| > 0 && (HasBoundedPhrase(line, phrases[0]) || HasAnyPhrase(line, phrases[1..]))
  }

  /** `any(re.search(p, line) for p in noise_patterns)`: case-sensitive. */
  predicate HasNoise(line: string) {
    HasAnyPhrase(line, NoisePhrases)
  }

  /** The lines `remove_noise_lines` keeps (after stripping them). */
  predicate IsKeptLine(line: string) {
    line != "" && !HasNoise(line)
  }

  /** The stripped, non-blank, noise-free lines of `text`, in order. */
  function KeptLines(text: string): seq<string> {
    StripFilter(Lines(text), IsKeptLine)
  }

  /**
   * `remove_noise_lines(text)`: its lines are exactly the kept lines of
   * `text`; the result is empty exactly when no line is kept, so no output
   * line is blank, unstripped or noisy.
   */
  function RemoveNoiseLines(text: string): (r: string)
    ensures r == "" <==> KeptLines(text) == []
    ensures r != "" ==> Lines(r) == KeptLines(text)
    ensures r != "" ==> forall k :: 0 <= k < |Lines(r)| ==>
              IsKeptLine(Lines(r)[k]) && IsStripped(Lines(r)[k])
  {
    var kept := KeptLines(text);
    if kept == [] then ""
    else
      KeptLinesShape(text);
      LinesOfJoinLines(kept);
      JoinLines(kept)
  }

  lemma KeptLinesShape(text: string)
    ensures forall k :: 0 <= k < |KeptLines(text)| ==>
              NoNewline(KeptLines(text)[k]) && KeptLines(text)[k] != ""
  {
    StripFilterNoNewline(Lines(text), IsKeptLine);
  }

  /** A one-line text that is a kept line comes out unchanged. */
  lemma SingleLineKept(l: string)
    requires NoNewline(l) && IsStripped(l) && IsKeptLine(l)
    ensures RemoveNoiseLines(l) == l
  {
    FirstNewlineOf(l, "");
    assert Lines(l) == [l];
    StripOfStripped(l);
    StripFilterOne(l, IsKeptLine);
  }

  /** A one-line text whose stripped form is not kept comes out empty. */
  lemma SingleLineDropped(l: string)
    requires NoNewline(l) && !IsKeptLine(Strip(l))
    ensures RemoveNoiseLines(l) == ""
  {
    FirstNewlineOf(l, "");
    assert Lines(l) == [l];
    StripFilterOne(l, IsKeptLine);
  }

  /**
   * `preprocess(text)`: only `clean_text` characters survive, no tab, and
   * every line is non-blank, stripped and free of (lower-case) noise.
   */
  function Preprocess(text: string): (r: string)
    ensures forall k :: 0 <= k < |r| ==> CleanNotTab(r[k])
    ensures r != "" ==> forall k :: 0 <= k < |Lines(r)| ==>
              IsKeptLine(Lines(r)[k]) && IsStripped(Lines(r)[k])
  {
    var c := CleanText(text);
    PreprocessChars(c, CleanNotTab);
    RemoveNoiseLines(c)
  }

  /**
   * The noise filter only keeps characters it was given, plus the newlines
   * that join the kept lines: a property of every character of the text
   * and of `'\n'` holds of every character of the result.
   */
  lemma PreprocessChars(c: string, P: char -> bool)
    requires P('\n')
    requires forall k :: 0 <= k < |c| ==> P(c[k])
    ensures forall k :: 0 <= k < |RemoveNoiseLines(c)| ==> P(RemoveNoiseLines(c)[k])
  {
    var kept := KeptLines(c);
    if kept != [] {
      LinesChars(c, P);
      StripFilterChars(Lines(c), IsKeptLine, P);
      JoinLinesChars(kept, P);
    }
  }

  /** A job description of whitespace only preprocesses to the empty string. */
  lemma BlankPreprocessesToEmpty(s: string)
    requires Strip(s) == ""
    ensures Preprocess(s) == ""
  {
    StripBlank(s);
    BlankCleansToEmpty(s);
    EmptyHasNoLines();
  }

  /** Every noise phrase starts with a lower-case letter. */
  lemma {:induction false} NoPhraseWithoutLowerLetters(line: string, phrases: seq<string>)
    requires forall k :: 0 <= k < |line| ==> !IsLowerLetter(line[k])
    requires forall j :: 0 <= j < |phrases| ==> |phrases[j]| > 0 && IsLowerLetter(phrases[j][0])
    ensures !HasAnyPhrase(line, phrases)
    decreases |phrases|
  {
    if |phrases| > 0 {
      var p := phrases[0];
      forall i | 0 <= i <= |line|
        ensures !BoundedAt(line, p, i)
      {
        assert !OccursAt(line, p, i) by {
          if i + |p| <= |line| {
            assert line[i..i + |p|][0] == line[i];
          }
        }
      }
      NoPhraseWithoutLowerLetters(line, phrases[1..]);
    }
  }

  /** A line without lower-case letters is never noise. */
  lemma NoNoiseWithoutLowerLetters(line: string)
    requires forall k :: 0 <= k < |line| ==> !IsLowerLetter(line[k])
    ensures !HasNoise(line)
  {
    NoPhraseWithoutLowerLetters(line, NoisePhrases);
  }

  /** Phrases longer than the line cannot occur in it. */
  lemma {:induction false} NoPhraseLongerThanLine(line: string, phrases: seq<string>)
    requires forall j :: 0 <= j < |phrases| ==> |phrases[j]| > |line|
    ensures !HasAnyPhrase(line, phrases)
    decreases |phrases|
  {
    if |phrases| > 0 {
      NoPhraseLongerThanLine(line, phrases[1..]);
    }
  }

  lemma DobIsNoise()
    ensures HasNoise("dob")
    ensures RemoveNoiseLines("dob") == ""
  {
    assert BoundedAt("dob", "dob", 0);
    assert HasAnyPhrase("dob", NoisePhrases[1..]);
    StripOfStripped("dob");
    SingleLineDropped("dob");
  }

  /**
   * The noise patterns are matched case-sensitively: `remove_noise_lines`
   * keeps `DOB`, and only the lower-casing of `preprocess` makes it noise.
   */
  lemma NoiseMatchIsCaseSensitive()
    ensures RemoveNoiseLines("DOB") == "DOB"
    ensures Preprocess("DOB") == ""
  {
    UpperDobKept("DOB");
    DobCleansToDob();
    DobIsNoise();
  }

  lemma UpperDobKept(l: string)
    requires l == "DOB"
    ensures RemoveNoiseLines(l) == l
  {
    NoLowerLineKept(l);
  }

  /** A stripped one-line text without lower-case letters comes out unchanged. */
  lemma NoLowerLineKept(l: string)
    requires l != "" && NoNewline(l) && IsStripped(l)
    requires forall k :: 0 <= k < |l| ==> !IsLowerLetter(l[k])
    ensures RemoveNoiseLines(l) == l
  {
    NoNoiseWithoutLowerLetters(l);
    SingleLineKept(l);
  }

  lemma DobCleansToDob()
    ensures CleanText("DOB") == "dob"
  {
    DobIsPlain();
    LowerOfDob();
    CleanTextOfLower("DOB", "dob");
  }

  lemma DobIsPlain()
    ensures CleanText("dob") == "dob"
  {
    assert IsPlainTechText("dob");
    PlainTechTextUnchanged("dob");
  }

  lemma LowerOfDob()
    ensures Lower("DOB") == "dob"
  {
  }

  /** `dob` inside a longer word is not noise: the `\b` after it fails. */
  lemma NoiseNeedsWordBoundaries()
    ensures !HasNoise("dobby")
    ensures RemoveNoiseLines("dobby") == "dobby"
  {
    var line := "dobby";
    forall i | 0 <= i <= |line|
      ensures !BoundedAt(line, "dob", i)
    {
      assert !OccursAt(line, "dob", i) || i == 0 by {
        if 0 < i && i + 3 <= |line| {
          assert line[i..i + 3][0] == line[i];
        }
      }
    }
    NoPhraseLongerThanLine(line, NoisePhrases[2..]);
    assert !HasAnyPhrase(line, NoisePhrases[1..]);
    SingleLineKept(line);
  }

  // ------------------------------------------------- preprocess is not idempotent

  predicate AllDigits(d: string) {
    |d| > 0 && forall k :: 0 <= k < |d| ==> IsDigit(d[k])
  }

  /** The characters of `d1 + [c] + d2`: digits, and `c` between the groups. */
  lemma GroupChars(d1: string, c: char, d2: string)
    requires AllDigits(d1) && AllDigits(d2)
    ensures var x := d1 + [c] + d2;
            |x| == |d1| + 1 + |d2| && x[|d1|] == c && IsDigit(x[0]) && IsDigit(x[|x| - 1])
            && forall k :: 0 <= k < |x| && k != |d1| ==> IsDigit(x[k])
  {
    var x := d1 + [c] + d2;
    forall k | 0 <= k < |x| && k != |d1|
      ensures IsDigit(x[k])
    {
      if k < |d1| {
        assert x[k] == d1[k];
      } else {
        assert x[k] == d2[k - |d1| - 1];
      }
    }
  }

  /**
   * Two groups of at most eight digits with a `#` between them hold no
   * personal data: every stretch of nine characters covers the `#`.
   */
  lemma DigitGroupsAreNoPhone(d1: string, d2: string)
    requires AllDigits(d1) && AllDigits(d2) && |d1| <= 8 && |d2| <= 8
    ensures RemovePersonalData(d1 + "#" + d2) == d1 + "#" + d2
  {
    var x := d1 + "#" + d2;
    GroupChars(d1, '#', d2);
    forall j | 0 <= j < |x|
      ensures MatchAt(Email, x, j).None? && MatchAt(Phone, x, j).None? && MatchAt(Url, x, j).None?
    {
      NoEmailWithoutAt(x, j);
      NoPhoneAcrossBreak(x, j, |d1|);
      assert !OccursAt(x, "www.", j) by {
        if j + 4 <= |x| {
          assert x[j..j + 4][0] == x[j];
        }
      }
      NoUrlWithoutSchemeOrWww(x, j);
    }
    NoMatchUnchanged(x);
  }

  /** The `#` is junk and becomes a space; the result is already normalised. */
  lemma HashBecomesSpace(d1: string, d2: string)
    requires AllDigits(d1) && AllDigits(d2)
    ensures NormalizeSpacing(d1 + "#" + d2) == d1 + " " + d2
  {
    var x := d1 + "#" + d2;
    var y := d1 + " " + d2;
    GroupChars(d1, '#', d2);
    GroupChars(d1, ' ', d2);
    assert ReplaceJunk(x) == y;
    assert forall k :: 0 <= k < |y| ==> IsCleanChar(y[k]) && y[k] != '\t' && y[k] != '\n';
    assert ReplaceJunk(y) == y;
    forall k | 0 <= k < |y| - 1
      ensures !DoubledAt(y, ' ', k)
    {
    }
    assert IsStripped(y);
    NormalizeSpacingUnchanged(y);
  }

  /** `clean_text` of the two groups around `#`: the `#` becomes a space. */
  lemma FirstPass(d1: string, d2: string)
    requires AllDigits(d1) && AllDigits(d2) && |d1| <= 8 && |d2| <= 8
    ensures CleanText(d1 + "#" + d2) == d1 + " " + d2
  {
    var x := d1 + "#" + d2;
    GroupChars(d1, '#', d2);
    assert Lower(x) == x;
    DigitGroupsAreNoPhone(d1, d2);
    HashBecomesSpace(d1, d2);
  }

  /** The single line of the first pass has no lower-case letter and is kept. */
  lemma FirstPassKept(d1: string, d2: string)
    requires AllDigits(d1) && AllDigits(d2)
    ensures RemoveNoiseLines(d1 + " " + d2) == d1 + " " + d2
  {
    var y := d1 + " " + d2;
    GroupChars(d1, ' ', d2);
    NoLowerLineKept(y);
  }

  /** Once the `#` is a space, the whole text is one phone number. */
  lemma JoinedDigitsArePhone(d1: string, d2: string)
    requires AllDigits(d1) && AllDigits(d2) && |d1| + |d2| >= 9
    ensures Sub(Phone, d1 + " " + d2, 0) == " "
  {
    var y := d1 + " " + d2;
    GroupChars(d1, ' ', d2);
    assert forall k :: 0 <= k < |y| ==> InClass(y[k], PhoneChar);
    WholePhone(y);
  }

  lemma SecondPass(d1: string, d2: string)
    requires AllDigits(d1) && AllDigits(d2) && |d1| + |d2| >= 9
    ensures CleanText(d1 + " " + d2) == ""
  {
    var y := d1 + " " + d2;
    GroupChars(d1, ' ', d2);
    assert Lower(y) == y;
    NoEmailSubWithoutAt(y);
    JoinedDigitsArePhone(d1, d2);
    NoUrlInSpace();
    assert RemovePersonalData(y) == " ";
    SpaceNormalizesToEmpty();
  }

  lemma EmptyHasNoLines()
    ensures RemoveNoiseLines("") == ""
  {
    SingleLineDropped("");
  }

  /**
   * `preprocess` is not idempotent: in `12345#6789` (two groups of at most
   * eight digits, ten characters or more) the `#` becomes a space on the
   * first pass, and on the second pass the phone pattern spans both groups
   * and blanks out everything.
   */
  lemma PreprocessNotIdempotent(d1: string, d2: string)
    requires AllDigits(d1) && AllDigits(d2) && |d1| <= 8 && |d2| <= 8 && |d1| + |d2| >= 9
    ensures Preprocess(d1 + "#" + d2) == d1 + " " + d2
    ensures Preprocess(Preprocess(d1 + "#" + d2)) == ""
  {
    FirstPass(d1, d2);
    FirstPassKept(d1, d2);
    SecondPass(d1, d2);
    EmptyHasNoLines();
  }
}
