/**
 * The string operations of Python the pipeline relies on: `str.lower()`,
 * `str.strip()`, `str.split("\n")`, `"\n".join(...)` and the `in` test on
 * strings, together with the run-of-a-class scanner the regular expression
 * matchers share.
 */
module Strings {
  import opened Chars

  predicate NoNewline(s: string) {
    forall k :: 0 <= k < |s| ==> s[k] != '\n'
  }

  predicate AllSpace(s: string) {
    forall k :: 0 <= k < |s| ==> IsSpace(s[k])
  }

  /** No leading and no trailing whitespace. */
  predicate IsStripped(s: string) {
    s == [] || (!IsSpace(s[0]) && !IsSpace(s[|s| - 1]))
  }

  /** `str.lower()`: ASCII upper-case letters become lower-case, nothing else changes. */
  function Lower(s: string): (r: string)
    ensures |r| == |s|
    ensures forall k :: 0 <= k < |s| ==> r[k] == LowerChar(s[k])
    ensures forall k :: 0 <= k < |r| ==> !IsUpperLetter(r[k])
  {
    seq(|s|, k requires 0 <= k < |s| => LowerChar(s[k]))
  }

  lemma LowerIdempotent(s: string)
    ensures Lower(Lower(s)) == Lower(s)
  {
  }

  /** Where the run of whitespace starting at `i` ends. */
  function LeadEnd(s: string, i: nat): (e: nat)
    requires i <= |s|
    ensures i <= e <= |s|
    ensures forall k :: i <= k < e ==> IsSpace(s[k])
    ensures e == |s| || !IsSpace(s[e])
    decreases |s| - i
  {
    if i < |s| && IsSpace(s[i]) then LeadEnd(s, i + 1) else i
  }

  /** Where the run of whitespace ending at `hi` starts, not going below `lo`. */
  function TrailStart(s: string, lo: nat, hi: nat): (b: nat)
    requires lo <= hi <= |s|
    ensures lo <= b <= hi
    ensures forall k :: b <= k < hi ==> IsSpace(s[k])
    ensures b == lo || !IsSpace(s[b - 1])
    decreases hi
  {
    if hi > lo && IsSpace(s[hi - 1]) then TrailStart(s, lo, hi - 1) else hi
  }

  /** Where `Strip(s)` starts in `s`. */
  function StripStart(s: string): nat {
    LeadEnd(s, 0)
  }

  /** `str.strip()`: whitespace removed at both ends. */
  function Strip(s: string): (r: string)
    ensures IsStripped(r)
    ensures StripStart(s) + |r| <= |s|
  {
    var a := LeadEnd(s, 0);
    var b := TrailStart(s, a, |s|);
    s[a..b]
  }

  /**
   * `Strip(s)` is the slice of `s` starting at `a` that has only
   * whitespace before and after it.
   */
  lemma StripSlice(s: string) returns (a: nat)
    ensures a + |Strip(s)| <= |s| && Strip(s) == s[a..a + |Strip(s)|]
    ensures AllSpace(s[..a]) && AllSpace(s[a + |Strip(s)|..])
    ensures forall k :: 0 <= k < |Strip(s)| ==> Strip(s)[k] == s[a + k]
  {
    a := LeadEnd(s, 0);
    var b := TrailStart(s, a, |s|);
    forall k | 0 <= k < a
      ensures IsSpace(s[..a][k])
    {
      assert s[..a][k] == s[k];
    }
    forall k | 0 <= k < |s| - b
      ensures IsSpace(s[b..][k])
    {
      assert s[b..][k] == s[b + k];
    }
  }

  /** A text of whitespace only strips to nothing, and only such a text does. */
  lemma StripBlank(s: string)
    ensures Strip(s) == "" <==> AllSpace(s)
  {
    var a := StripSlice(s);
    if Strip(s) == "" {
      forall k | 0 <= k < |s|
        ensures IsSpace(s[k])
      {
        if k < a {
          assert s[..a][k] == s[k];
        } else {
          assert s[a..][k - a] == s[k];
        }
      }
    }
  }

  lemma StripOfStripped(s: string)
    requires IsStripped(s)
    ensures Strip(s) == s
  {
    assert s[0..|s|] == s;
  }

  /** Every character of `Strip(s)` is a character of `s`. */
  lemma StripChars(s: string, k: nat)
    requires k < |Strip(s)|
    ensures Strip(s)[k] in s
  {
    var a := StripSlice(s);
    assert Strip(s)[k] == s[a + k];
  }

  /** Index of the first newline of `s`, or `|s|` when there is none. */
  function FirstNewline(s: string): (k: nat)
    ensures k <= |s|
    ensures NoNewline(s[..k])
    ensures k < |s| ==> s[k] == '\n'
  {
    if s == [] then 0
    else if s[0] == '\n' then 0
    else
      var k := 1 + FirstNewline(s[1..]);
      assert s[..k] == [s[0]] + s[1..][..k - 1];
      k
  }

  lemma FirstNewlineOf(a: string, b: string)
    requires NoNewline(a)
    ensures FirstNewline(a) == |a|
    ensures FirstNewline(a + "\n" + b) == |a|
  {
    var s := a + "\n" + b;
    assert s[|a|] == '\n';
    assert s[..|a|] == a;
  }

  /** `s.split("\n")`: the pieces between newlines, always at least one. */
  function Lines(s: string): (r: seq<string>)
    ensures |r| >= 1
    ensures forall k :: 0 <= k < |r| ==> NoNewline(r[k])
    decreases |s|
  {
    var i := FirstNewline(s);
    if i == |s| then [s] else [s[..i]] + Lines(s[i + 1..])
  }

  /** `"\n".join(ls)`. */
  function JoinLines(ls: seq<string>): string
  {
    if |ls| == 0 then ""
    else if |ls| == 1 then ls[0]
    else ls[0] + "\n" + JoinLines(ls[1..])
  }

  /** Joining the pieces of a split gives back the text. */
  lemma {:induction false} JoinLinesOfLines(s: string)
    ensures JoinLines(Lines(s)) == s
    decreases |s|
  {
    var i := FirstNewline(s);
    if i < |s| {
      var rest := s[i + 1..];
      JoinLinesOfLines(rest);
      var ls := Lines(s);
      assert ls == [s[..i]] + Lines(rest);
      assert ls[0] == s[..i] && ls[1..] == Lines(rest);
      assert JoinLines(ls) == s[..i] + "\n" + rest;
      assert s == s[..i] + "\n" + rest;
    } else {
      assert Lines(s) == [s];
    }
  }

  /** Splitting a join of newline-free pieces gives back the pieces. */
  lemma {:induction false} LinesOfJoinLines(ls: seq<string>)
    requires |ls| >= 1
    requires forall k :: 0 <= k < |ls| ==> NoNewline(ls[k])
    ensures Lines(JoinLines(ls)) == ls
  {
    if |ls| == 1 {
      FirstNewlineOf(ls[0], "");
    } else {
      var rest := JoinLines(ls[1..]);
      var s := ls[0] + "\n" + rest;
      assert JoinLines(ls) == s;
      FirstNewlineOf(ls[0], rest);
      assert s[..|ls[0]|] == ls[0];
      assert s[|ls[0]| + 1..] == rest;
      assert forall k :: 0 <= k < |ls| - 1 ==> NoNewline(ls[1..][k]);
      LinesOfJoinLines(ls[1..]);
      assert Lines(s) == [ls[0]] + ls[1..];
    }
  }

  /** Every character of a join is a character of a piece or the separator. */
  lemma {:induction false} JoinLinesChars(ls: seq<string>, P: char -> bool)
    requires forall k, j :: 0 <= k < |ls| && 0 <= j < |ls[k]| ==> P(ls[k][j])
    requires P('\n')
    ensures forall j :: 0 <= j < |JoinLines(ls)| ==> P(JoinLines(ls)[j])
  {
    if |ls| > 1 {
      JoinLinesChars(ls[1..], P);
      var s := JoinLines(ls);
      var rest := JoinLines(ls[1..]);
      forall j | 0 <= j < |s|
        ensures P(s[j])
      {
        if j < |ls[0]| {
          assert s[j] == ls[0][j];
        } else if j > |ls[0]| {
          assert s[j] == rest[j - |ls[0]| - 1];
        }
      }
    }
  }

  /**
   * End of the longest run of `cls` characters starting at `i`: the greedy
   * reach of `cls+` or `cls*` at that position.
   */
  function RunEnd(s: string, i: nat, cls: CharClass): (e: nat)
    requires i <= |s|
    ensures i <= e <= |s|
    ensures forall k :: i <= k < e ==> InClass(s[k], cls)
    ensures e == |s| || !InClass(s[e], cls)
    decreases |s| - i
  {
    if i < |s| && InClass(s[i], cls) then RunEnd(s, i + 1, cls) else i
  }

  /** Python's `needle in hay` on strings. */
  predicate Contains(hay: string, needle: string) {
    exists i | 0 <= i <= |hay| - |needle| :: OccursAt(hay, needle, i)
  }

  /** `needle` occurs in `hay` starting at index `i`. */
  predicate OccursAt(hay: string, needle: string, i: nat) {
    i + |needle| <= |hay| && hay[i..i + |needle|] == needle
  }

  /** `a` is `b` with some elements left out, the rest in their original order. */
  ghost predicate IsSubseq<T>(a: seq<T>, b: seq<T>)
    decreases |b|
  {
    if |a| == 0 then true
    else if |b| == 0 then false
    else (a[0] == b[0] && IsSubseq(a[1..], b[1..])) || IsSubseq(a, b[1..])
  }

  /** Each line stripped: `[ln.strip() for ln in lines]`. */
  function StripAll(lines: seq<string>): (r: seq<string>)
    ensures |r| == |lines|
    ensures forall j :: 0 <= j < |lines| ==> r[j] == Strip(lines[j])
  {
    seq(|lines|, j requires 0 <= j < |lines| => Strip(lines[j]))
  }

  /**
   * The stripped lines that satisfy `keep`, in order: the loop of
   * `remove_noise_lines` and the comprehensions of `chunk_text`. No line is
   * invented or reordered, every kept line satisfies `keep`, and every
   * stripped line that satisfies `keep` is kept.
   */
  function StripFilter(lines: seq<string>, keep: string -> bool): (r: seq<string>)
    ensures |r| <= |lines|
    ensures IsSubseq(r, StripAll(lines))
    ensures forall k :: 0 <= k < |r| ==> keep(r[k]) && IsStripped(r[k])
    ensures forall j :: 0 <= j < |lines| && keep(Strip(lines[j])) ==> Strip(lines[j]) in r
  {
    if |lines| == 0 then []
    else
      var head := Strip(lines[0]);
      var rest := StripFilter(lines[1..], keep);
      assert StripAll(lines)[1..] == StripAll(lines[1..]);
      assert forall j :: 1 <= j < |lines| ==> lines[j] == lines[1..][j - 1];
      if keep(head) then
        var r := [head] + rest;
        assert r[1..] == rest;
        r
      else rest
  }

  /** The line a kept line was stripped from. */
  lemma {:induction false} StripFilterSource(lines: seq<string>, keep: string -> bool, k: nat) returns (j: nat)
    requires k < |StripFilter(lines, keep)|
    ensures j < |lines| && StripFilter(lines, keep)[k] == Strip(lines[j])
  {
    var rest := StripFilter(lines[1..], keep);
    if keep(Strip(lines[0])) && k == 0 {
      j := 0;
    } else {
      var k' := if keep(Strip(lines[0])) then k - 1 else k;
      assert StripFilter(lines, keep)[k] == rest[k'];
      var j' := StripFilterSource(lines[1..], keep, k');
      j := j' + 1;
    }
  }

  /**
   * `r` lists exactly the elements of `xs` that pass `keep`, in order, each
   * once: `idx` holds their positions in `xs`, strictly increasing, and
   * every position whose element passes `keep` is listed.
   */
  predicate Enumerates(xs: seq<string>, keep: string -> bool, r: seq<string>, idx: seq<nat>) {
    && |idx| == |r|
    && (forall k :: 0 <= k < |idx| ==> idx[k] < |xs| && r[k] == xs[idx[k]])
    && (forall a, b :: 0 <= a < b < |idx| ==> idx[a] < idx[b])
    && (forall j :: 0 <= j < |xs| && keep(xs[j]) ==> j in idx)
  }

  /** The enumeration of `xs[1..]`, with positions counted in `xs`. */
  lemma EnumeratesShift(xs: seq<string>, keep: string -> bool, rest: seq<string>, idx': seq<nat>)
    returns (shifted: seq<nat>)
    requires |xs| > 0
    requires Enumerates(xs[1..], keep, rest, idx')
    ensures |shifted| == |rest|
    ensures forall k :: 0 <= k < |shifted| ==> 0 < shifted[k] < |xs| && rest[k] == xs[shifted[k]]
    ensures forall a, b :: 0 <= a < b < |shifted| ==> shifted[a] < shifted[b]
    ensures forall j :: 1 <= j < |xs| && keep(xs[j]) ==> j in shifted
  {
    shifted := seq(|idx'|, k requires 0 <= k < |idx'| => idx'[k] + 1);
    forall k | 0 <= k < |idx'|
      ensures shifted[k] < |xs| && rest[k] == xs[shifted[k]]
    {
      assert xs[1..][idx'[k]] == xs[idx'[k] + 1];
    }
    forall j | 1 <= j < |xs| && keep(xs[j])
      ensures j in shifted
    {
      assert xs[1..][j - 1] == xs[j];
      var k :| 0 <= k < |idx'| && idx'[k] == j - 1;
      assert shifted[k] == j;
    }
  }

  /** The enumeration of the elements after the first, extended to the whole sequence. */
  lemma EnumeratesCons(xs: seq<string>, keep: string -> bool, rest: seq<string>, shifted: seq<nat>)
    returns (idx: seq<nat>)
    requires |xs| > 0
    requires |shifted| == |rest|
    requires forall k :: 0 <= k < |shifted| ==> 0 < shifted[k] < |xs| && rest[k] == xs[shifted[k]]
    requires forall a, b :: 0 <= a < b < |shifted| ==> shifted[a] < shifted[b]
    requires forall j :: 1 <= j < |xs| && keep(xs[j]) ==> j in shifted
    ensures Enumerates(xs, keep, if keep(xs[0]) then [xs[0]] + rest else rest, idx)
  {
    if keep(xs[0]) {
      idx := [0] + shifted;
      var r := [xs[0]] + rest;
      forall k | 0 <= k < |idx|
        ensures idx[k] < |xs| && r[k] == xs[idx[k]]
      {
        if k > 0 {
          assert idx[k] == shifted[k - 1] && r[k] == rest[k - 1];
        }
      }
      forall a, b | 0 <= a < b < |idx|
        ensures idx[a] < idx[b]
      {
        assert idx[b] == shifted[b - 1];
        if a > 0 {
          assert idx[a] == shifted[a - 1];
        }
      }
      forall j | 0 <= j < |xs| && keep(xs[j])
        ensures j in idx
      {
        if j == 0 {
          assert idx[0] == 0;
        } else {
          var k :| 0 <= k < |shifted| && shifted[k] == j;
          assert idx[k + 1] == j;
        }
      }
    } else {
      idx := shifted;
    }
  }

  /**
   * The kept lines are exactly the stripped lines that pass `keep`, in
   * order, each once.
   */
  lemma {:induction false} StripFilterIndices(lines: seq<string>, keep: string -> bool) returns (idx: seq<nat>)
    ensures Enumerates(StripAll(lines), keep, StripFilter(lines, keep), idx)
  {
    if |lines| == 0 {
      idx := [];
    } else {
      var idx' := StripFilterIndices(lines[1..], keep);
      assert StripAll(lines)[1..] == StripAll(lines[1..]);
      var shifted := EnumeratesShift(StripAll(lines), keep, StripFilter(lines[1..], keep), idx');
      idx := EnumeratesCons(StripAll(lines), keep, StripFilter(lines[1..], keep), shifted);
    }
  }

  /** A property of every character of the lines holds of every character of the kept lines. */
  lemma StripFilterChars(lines: seq<string>, keep: string -> bool, P: char -> bool)
    requires forall j, m :: 0 <= j < |lines| && 0 <= m < |lines[j]| ==> P(lines[j][m])
    ensures forall k, m :: 0 <= k < |StripFilter(lines, keep)| && 0 <= m < |StripFilter(lines, keep)[k]| ==>
              P(StripFilter(lines, keep)[k][m])
  {
    var r := StripFilter(lines, keep);
    forall k, m | 0 <= k < |r| && 0 <= m < |r[k]|
      ensures P(r[k][m])
    {
      var j := StripFilterSource(lines, keep, k);
      var a := StripSlice(lines[j]);
      assert r[k][m] == lines[j][a + m];
    }
  }

  /** Filtering a single line. */
  lemma StripFilterOne(l: string, keep: string -> bool)
    ensures StripFilter([l], keep) == if keep(Strip(l)) then [Strip(l)] else []
  {
    assert [l][1..] == [];
  }

  /** A property of every character of `s` holds of every character of its lines. */
  lemma {:induction false} LinesChars(s: string, P: char -> bool)
    requires forall k :: 0 <= k < |s| ==> P(s[k])
    ensures forall j, k :: 0 <= j < |Lines(s)| && 0 <= k < |Lines(s)[j]| ==> P(Lines(s)[j][k])
    decreases |s|
  {
    var i := FirstNewline(s);
    if i < |s| {
      LinesChars(s[i + 1..], P);
      assert Lines(s) == [s[..i]] + Lines(s[i + 1..]);
    }
  }

  /** A property of every character of `s` holds of every character of `Strip(s)`. */
  lemma StripCharsHold(s: string, P: char -> bool)
    requires forall k :: 0 <= k < |s| ==> P(s[k])
    ensures forall k :: 0 <= k < |Strip(s)| ==> P(Strip(s)[k])
  {
    var a := StripSlice(s);
  }

  /** Stripping a line keeps it a line. */
  lemma StripNoNewline(s: string)
    requires NoNewline(s)
    ensures NoNewline(Strip(s))
  {
    var a := StripSlice(s);
    forall k | 0 <= k < |Strip(s)|
      ensures Strip(s)[k] != '\n'
    {
      assert Strip(s)[k] == s[a + k];
    }
  }

  /** Filtering lines without newlines yields lines without newlines. */
  lemma {:induction false} StripFilterNoNewline(lines: seq<string>, keep: string -> bool)
    requires forall j :: 0 <= j < |lines| ==> NoNewline(lines[j])
    ensures forall k :: 0 <= k < |StripFilter(lines, keep)| ==> NoNewline(StripFilter(lines, keep)[k])
  {
    if |lines| > 0 {
      StripNoNewline(lines[0]);
      assert forall j :: 0 <= j < |lines| - 1 ==> lines[1..][j] == lines[j + 1];
      StripFilterNoNewline(lines[1..], keep);
    }
  }
}
