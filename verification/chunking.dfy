/**
 * `chunk_text` (embeddings.py, and the copy in flask_app.py whose bullet
 * class differs): split a résumé into stripped lines of at least `min_len`
 * characters, falling back to a split on bullets and sentence ends when
 * fewer than three lines qualify.
 */
module Chunking {
  import opened Chars
  import opened Strings

  /** The default `min_len` of `chunk_text`. */
  const DefaultMinLen: int := 25

  /** How many long lines `chunk_text` needs before it trusts the line split. */
  const MinLineChunks: nat := 3

  /** `[•\-]` in embeddings.py. */
  const EmbeddingsBullets: set<char> := {'\U{2022}', '-'}

  /**
   * `[â€¢\-]` in flask_app.py: the three UTF-8 bytes of `•` read as
   * Windows-1252 characters, plus the dash.
   */
  const FlaskBullets: set<char> := {'\U{00E2}', '\U{20AC}', '\U{00A2}', '-'}

  // ------------------------------------------------------------ re.split

  /**
   * The split pattern `[bullets]\s+|\.\s+` can start a match at `i`: a bullet
   * or a period followed by at least one whitespace character.
   */
  predicate SepAt(s: string, bullets: set<char>, i: nat) {
    i + 1 < |s| && (s[i] in bullets || s[i] == '.') && IsSpace(s[i + 1])
  }

  /** No match of the split pattern starts anywhere in `s`. */
  predicate NoSep(s: string, bullets: set<char>) {
    forall i :: 0 <= i < |s| ==> !SepAt(s, bullets, i)
  }

  /** `sep` is one whole match of the split pattern. */
  predicate IsSeparator(sep: string, bullets: set<char>) {
    SepAt(sep, bullets, 0) && AllSpace(sep[1..])
  }

  /** The pieces of a split and the separators that were cut out between them. */
  datatype Split = Split(pieces: seq<string>, seps: seq<string>)

  /** Put the separators back between the pieces. */
  function Interleave(pieces: seq<string>, seps: seq<string>): string
    requires |pieces| == |seps| + 1
  {
    if |seps| == 0 then pieces[0]
    else pieces[0] + seps[0] + Interleave(pieces[1..], seps[1..])
  }

  /**
   * `re.split` scanning from `i`, with the current piece begun at `start`:
   * interleaving the result with its separators gives back `s[start..]`.
   */
  function SplitFrom(s: string, bullets: set<char>, start: nat, i: nat): (r: Split)
    requires start <= i <= |s|
    ensures |r.pieces| == |r.seps| + 1
    ensures Interleave(r.pieces, r.seps) == s[start..]
    decreases |s| - i
  {
    if i == |s| then
      Split([s[start..]], [])
    else if SepAt(s, bullets, i) then
      var e := RunEnd(s, i + 1, Space);
      var rest := SplitFrom(s, bullets, e, e);
      assert s[start..] == s[start..i] + s[i..e] + s[e..];
      var r := Split([s[start..i]] + rest.pieces, [s[i..e]] + rest.seps);
      assert r.pieces[1..] == rest.pieces && r.seps[1..] == rest.seps;
      assert Interleave(r.pieces, r.seps) == s[start..i] + s[i..e] + Interleave(rest.pieces, rest.seps);
      r
    else
      SplitFrom(s, bullets, start, i + 1)
  }

  /** A slice of `s` holds a separator match only where `s` does. */
  lemma SliceSeps(s: string, bullets: set<char>, start: nat, i: nat)
    requires start <= i <= |s|
    requires forall j :: start <= j < i ==> !SepAt(s, bullets, j)
    ensures NoSep(s[start..i], bullets)
  {
    var p := s[start..i];
    forall j | 0 <= j < |p|
      ensures !SepAt(p, bullets, j)
    {
      if j + 1 < |p| {
        assert p[j] == s[start + j] && p[j + 1] == s[start + j + 1];
        assert !SepAt(s, bullets, start + j);
      }
    }
  }

  /** Leftmost matching: no piece of the split contains a match. */
  lemma {:induction false} SplitPiecesNoSep(s: string, bullets: set<char>, start: nat, i: nat)
    requires start <= i <= |s|
    requires forall j :: start <= j < i ==> !SepAt(s, bullets, j)
    ensures forall k :: 0 <= k < |SplitFrom(s, bullets, start, i).pieces| ==>
              NoSep(SplitFrom(s, bullets, start, i).pieces[k], bullets)
    decreases |s| - i
  {
    if i == |s| {
      SliceSeps(s, bullets, start, i);
      assert s[start..i] == s[start..];
    } else if SepAt(s, bullets, i) {
      var e := RunEnd(s, i + 1, Space);
      SliceSeps(s, bullets, start, i);
      SplitPiecesNoSep(s, bullets, e, e);
    } else {
      SplitPiecesNoSep(s, bullets, start, i + 1);
    }
  }

  /**
   * Greedy `\s+`: every separator is a whole match, and every piece after
   * the first starts after the whole whitespace run of its separator.
   */
  lemma {:induction false} SplitSepsWhole(s: string, bullets: set<char>, start: nat, i: nat)
    requires start <= i <= |s|
    ensures forall k :: 0 <= k < |SplitFrom(s, bullets, start, i).seps| ==>
              IsSeparator(SplitFrom(s, bullets, start, i).seps[k], bullets)
    ensures forall k :: 1 <= k < |SplitFrom(s, bullets, start, i).pieces| ==>
              SplitFrom(s, bullets, start, i).pieces[k] == ""
              || !IsSpace(SplitFrom(s, bullets, start, i).pieces[k][0])
    decreases |s| - i
  {
    if i < |s| && SepAt(s, bullets, i) {
      var e := RunEnd(s, i + 1, Space);
      var sep := s[i..e];
      var rest := SplitFrom(s, bullets, e, e);
      SplitSepsWhole(s, bullets, e, e);
      assert AllSpace(sep[1..]) by {
        assert forall k :: 0 <= k < |sep[1..]| ==> sep[1..][k] == s[i + 1 + k];
      }
      assert rest.pieces[0] == "" || rest.pieces[0][0] == s[e];
    } else if i < |s| {
      SplitSepsWhole(s, bullets, start, i + 1);
    }
  }

  /**
   * `re.split(r"[bullets]\s+|\.\s+", s)`: the pieces and separators
   * rebuild the text, no piece holds a separator, and each separator takes
   * its whole whitespace run, so no piece after the first starts with
   * whitespace.
   */
  function SplitText(s: string, bullets: set<char>): (r: Split)
    ensures |r.pieces| == |r.seps| + 1
    ensures Interleave(r.pieces, r.seps) == s
    ensures forall k :: 0 <= k < |r.pieces| ==> NoSep(r.pieces[k], bullets)
    ensures forall k :: 0 <= k < |r.seps| ==> IsSeparator(r.seps[k], bullets)
    ensures forall k :: 1 <= k < |r.pieces| ==> r.pieces[k] == "" || !IsSpace(r.pieces[k][0])
  {
    SplitPiecesNoSep(s, bullets, 0, 0);
    SplitSepsWhole(s, bullets, 0, 0);
    SplitFrom(s, bullets, 0, 0)
  }

  // ------------------------------------------------------------ chunk_text

  /** `len(c) >= min_len`. */
  predicate LongEnough(c: string, minLen: int) {
    |c| >= minLen
  }

  /** The test `len(c) >= min_len` as a filter. */
  function LongEnoughFor(minLen: int): string -> bool {
    c => LongEnough(c, minLen)
  }

  /** `[ln for ln in (ln.strip() for ln in text.split("\n")) if len(ln) >= min_len]`. */
  function LineChunks(text: string, minLen: int): seq<string> {
    StripFilter(Lines(text), LongEnoughFor(minLen))
  }

  /** The fallback: the stripped pieces of the bullet/period split that are long enough. */
  function PieceChunks(text: string, minLen: int, bullets: set<char>): seq<string> {
    StripFilter(SplitText(text, bullets).pieces, LongEnoughFor(minLen))
  }

  /**
   * `chunk_text(text, min_len)` with the given bullet class. Empty text has
   * no chunks; every chunk is stripped, long enough and a substring of the
   * text; with at least three long lines the chunks are those lines, and
   * otherwise they are the long pieces of the split, none of which holds a
   * bullet or period followed by whitespace.
   */
  function ChunkText(text: string, minLen: int, bullets: set<char>): (r: seq<string>)
    ensures text == "" ==> r == []
    ensures forall k :: 0 <= k < |r| ==> IsStripped(r[k]) && |r[k]| >= minLen
    ensures forall k :: 0 <= k < |r| ==> Contains(text, r[k])
    ensures text != "" && |LineChunks(text, minLen)| >= MinLineChunks ==> r == LineChunks(text, minLen)
    ensures text != "" && |LineChunks(text, minLen)| < MinLineChunks ==>
              r == PieceChunks(text, minLen, bullets) && forall k :: 0 <= k < |r| ==> NoSep(r[k], bullets)
  {
    if text == "" then []
    else
      var lines := LineChunks(text, minLen);
      if |lines| >= MinLineChunks then
        LineChunksOccur(text, minLen);
        lines
      else
        PieceChunksOccur(text, minLen, bullets);
        PieceChunks(text, minLen, bullets)
  }

  /** Every line chunk is a substring of the text. */
  lemma LineChunksOccur(text: string, minLen: int)
    ensures forall k :: 0 <= k < |LineChunks(text, minLen)| ==> Contains(text, LineChunks(text, minLen)[k])
  {
    LinesOccur(text);
    FilterOccurs(text, Lines(text), LongEnoughFor(minLen));
  }

  /** Line chunks hold no newline. */
  lemma LineChunksNoNewline(text: string, minLen: int)
    ensures forall k :: 0 <= k < |LineChunks(text, minLen)| ==> NoNewline(LineChunks(text, minLen)[k])
  {
    StripFilterNoNewline(Lines(text), LongEnoughFor(minLen));
  }

  /** Every fallback chunk is a substring of the text without a separator match. */
  lemma PieceChunksOccur(text: string, minLen: int, bullets: set<char>)
    ensures forall k :: 0 <= k < |PieceChunks(text, minLen, bullets)| ==>
              Contains(text, PieceChunks(text, minLen, bullets)[k]) && NoSep(PieceChunks(text, minLen, bullets)[k], bullets)
  {
    var sp := SplitText(text, bullets);
    PiecesOccur(sp.pieces, sp.seps);
    FilterOccurs(text, sp.pieces, LongEnoughFor(minLen));
    FilterNoSep(sp.pieces, bullets, LongEnoughFor(minLen));
  }

  /** embeddings.py's `chunk_text`: the fallback splits on `•` and `-`. */
  function EmbeddingsChunkText(text: string, minLen: int): (r: seq<string>)
    ensures forall k :: 0 <= k < |r| ==> IsStripped(r[k]) && |r[k]| >= minLen
    ensures text != "" && |LineChunks(text, minLen)| < MinLineChunks ==>
              forall k, j :: 0 <= k < |r| && 0 <= j < |r[k]| - 1 && r[k][j] == '\U{2022}' ==> !IsSpace(r[k][j + 1])
  {
    var r := ChunkText(text, minLen, EmbeddingsBullets);
    if text != "" && |LineChunks(text, minLen)| < MinLineChunks then
      BulletsNotFollowedBySpace(r);
      r
    else r
  }

  /** Where no piece holds an embeddings.py separator, no `•` is followed by whitespace. */
  lemma BulletsNotFollowedBySpace(r: seq<string>)
    requires forall k :: 0 <= k < |r| ==> NoSep(r[k], EmbeddingsBullets)
    ensures forall k, j :: 0 <= k < |r| && 0 <= j < |r[k]| - 1 && r[k][j] == '\U{2022}' ==> !IsSpace(r[k][j + 1])
  {
    forall k, j | 0 <= k < |r| && 0 <= j < |r[k]| - 1 && r[k][j] == '\U{2022}'
      ensures !IsSpace(r[k][j + 1])
    {
      assert !SepAt(r[k], EmbeddingsBullets, j);
    }
  }

  /** flask_app.py's `chunk_text`: the fallback splits on `â`, `€`, `¢` and `-`. */
  function FlaskChunkText(text: string, minLen: int): (r: seq<string>)
    ensures forall k :: 0 <= k < |r| ==> IsStripped(r[k]) && |r[k]| >= minLen
    ensures text != "" && |LineChunks(text, minLen)| < MinLineChunks ==>
              forall k :: 0 <= k < |r| ==> NoSep(r[k], FlaskBullets)
  {
    ChunkText(text, minLen, FlaskBullets)
  }

  // ------------------------------------------------------------ bullet classes

  /** The two bullet classes agree on every character of `s`. */
  predicate SameBulletsOn(s: string, b1: set<char>, b2: set<char>) {
    forall k :: 0 <= k < |s| ==> (s[k] in b1 <==> s[k] in b2)
  }

  /** Bullet classes that agree on the text split it the same way. */
  lemma {:induction false} SplitFromAgrees(s: string, b1: set<char>, b2: set<char>, start: nat, i: nat)
    requires SameBulletsOn(s, b1, b2)
    requires start <= i <= |s|
    requires forall j :: start <= j < i ==> !SepAt(s, b1, j)
    requires forall j :: start <= j < i ==> !SepAt(s, b2, j)
    ensures SplitFrom(s, b1, start, i) == SplitFrom(s, b2, start, i)
    decreases |s| - i
  {
    if i < |s| {
      assert SepAt(s, b1, i) <==> SepAt(s, b2, i);
      if SepAt(s, b1, i) {
        var e := RunEnd(s, i + 1, Space);
        SplitFromAgrees(s, b1, b2, e, e);
      } else {
        SplitFromAgrees(s, b1, b2, start, i + 1);
      }
    }
  }

  /** `chunk_text` depends on its bullet class only through the characters of the text. */
  lemma ChunkTextAgrees(text: string, minLen: int, b1: set<char>, b2: set<char>)
    requires SameBulletsOn(text, b1, b2)
    ensures ChunkText(text, minLen, b1) == ChunkText(text, minLen, b2)
  {
    SplitFromAgrees(text, b1, b2, 0, 0);
  }

  /** A text with none of `•`, `â`, `€`, `¢` is chunked the same by both copies. */
  lemma ChunkersAgree(text: string, minLen: int)
    requires forall k :: 0 <= k < |text| ==> text[k] !in {'\U{2022}', '\U{00E2}', '\U{20AC}', '\U{00A2}'}
    ensures FlaskChunkText(text, minLen) == EmbeddingsChunkText(text, minLen)
  {
    ChunkTextAgrees(text, minLen, FlaskBullets, EmbeddingsBullets);
  }

  /** A one-line stripped text is its own single line chunk. */
  lemma OneLineChunks(t: string, minLen: int)
    requires NoNewline(t) && IsStripped(t) && |t| >= minLen
    ensures LineChunks(t, minLen) == [t]
  {
    FirstNewlineOf(t, "");
    assert Lines(t) == [t];
    StripOfStripped(t);
    StripFilterOne(t, LongEnoughFor(minLen));
  }

  /** Scanning over positions where no match starts does not change the split. */
  lemma {:induction false} SplitFromSkip(s: string, bullets: set<char>, start: nat, i: nat, m: nat)
    requires start <= i <= m <= |s|
    requires forall j :: start <= j < m ==> !SepAt(s, bullets, j)
    ensures SplitFrom(s, bullets, start, i) == SplitFrom(s, bullets, start, m)
    decreases m - i
  {
    if i < m {
      SplitFromSkip(s, bullets, start, i + 1, m);
    }
  }

  /** A text without a separator match is one piece. */
  lemma SplitNoSep(s: string, bullets: set<char>)
    requires NoSep(s, bullets)
    ensures SplitText(s, bullets).pieces == [s]
  {
    SplitFromSkip(s, bullets, 0, 0, |s|);
  }

  /** A text with exactly one separator match, at `i`, is two pieces. */
  lemma SplitOneSep(s: string, bullets: set<char>, i: nat)
    requires i < |s| && SepAt(s, bullets, i)
    requires forall j :: 0 <= j < |s| && j != i ==> !SepAt(s, bullets, j)
    ensures SplitText(s, bullets).pieces == [s[..i], s[RunEnd(s, i + 1, Space)..]]
  {
    var e := RunEnd(s, i + 1, Space);
    SplitFromSkip(s, bullets, 0, 0, i);
    SplitFromSkip(s, bullets, e, e, |s|);
  }

  /** Filtering lines that are already stripped and kept changes nothing. */
  lemma {:induction false} StripFilterAll(ls: seq<string>, keep: string -> bool)
    requires forall k :: 0 <= k < |ls| ==> IsStripped(ls[k]) && keep(ls[k])
    ensures StripFilter(ls, keep) == ls
  {
    if |ls| > 0 {
      var head := ls[0];
      StripOfStripped(head);
      StripFilterAll(ls[1..], keep);
      StripFilterCons(ls, keep);
      assert ls == [head] + ls[1..];
    }
  }

  /** Filtering keeps the stripped first line when `keep` accepts it. */
  lemma StripFilterCons(ls: seq<string>, keep: string -> bool)
    requires |ls| > 0 && keep(Strip(ls[0]))
    ensures StripFilter(ls, keep) == [Strip(ls[0])] + StripFilter(ls[1..], keep)
  {
  }

  /**
   * The bullet class of flask_app.py does not contain `•`: with `min_len`
   * 1, `a• b` stays one chunk there while embeddings.py splits it in two.
   */
  lemma FlaskKeepsBullet(t: string)
    requires |t| == 4 && t[0] == 'a' && t[1] == '\U{2022}' && t[2] == ' ' && t[3] == 'b'
    ensures FlaskChunkText(t, 1) == [t]
    ensures EmbeddingsChunkText(t, 1) == [t[..1], t[3..]]
  {
    assert t != "";
    assert IsStripped(t) && NoNewline(t);
    OneLineChunks(t, 1);
    assert |LineChunks(t, 1)| < MinLineChunks;
    FlaskPieces(t);
    EmbeddingsPieces(t);
  }

  lemma FlaskPieces(t: string)
    requires |t| == 4 && t[0] == 'a' && t[1] == '\U{2022}' && t[2] == ' ' && t[3] == 'b'
    requires IsStripped(t)
    ensures PieceChunks(t, 1, FlaskBullets) == [t]
  {
    assert NoSep(t, FlaskBullets);
    SplitNoSep(t, FlaskBullets);
    StripFilterAll([t], LongEnoughFor(1));
  }

  lemma EmbeddingsPieces(t: string)
    requires |t| == 4 && t[0] == 'a' && t[1] == '\U{2022}' && t[2] == ' ' && t[3] == 'b'
    ensures PieceChunks(t, 1, EmbeddingsBullets) == [t[..1], t[3..]]
  {
    assert SepAt(t, EmbeddingsBullets, 1);
    assert RunEnd(t, 2, Space) == 3;
    SplitOneSep(t, EmbeddingsBullets, 1);
    assert IsStripped(t[..1]) && IsStripped(t[3..]);
    StripFilterAll([t[..1], t[3..]], LongEnoughFor(1));
  }

  // ------------------------------------------------------------ substrings

  /** A slice of a text occurs in it. */
  lemma SliceOccurs(s: string, i: nat, j: nat)
    requires i <= j <= |s|
    ensures Contains(s, s[i..j])
  {
    assert OccursAt(s, s[i..j], i);
  }

  /** Occurrence is transitive. */
  lemma ContainsTrans(a: string, b: string, c: string)
    requires Contains(a, b) && Contains(b, c)
    ensures Contains(a, c)
  {
    var i :| 0 <= i <= |a| - |b| && OccursAt(a, b, i);
    var j :| 0 <= j <= |b| - |c| && OccursAt(b, c, j);
    forall m | 0 <= m < |c|
      ensures a[i + j + m] == c[m]
    {
      assert a[i..i + |b|][j + m] == a[i + j + m];
      assert b[j..j + |c|][m] == b[j + m];
    }
    assert a[i + j..i + j + |c|] == c;
    assert OccursAt(a, c, i + j);
  }

  /** Every line of a text occurs in it. */
  lemma LinesOccur(s: string)
    ensures forall k :: 0 <= k < |Lines(s)| ==> Contains(s, Lines(s)[k])
  {
    forall k | 0 <= k < |Lines(s)|
      ensures Contains(s, Lines(s)[k])
    {
      LineOccurs(s, k);
    }
  }

  /** The line at index `k` of a text occurs in it. */
  lemma LineOccurs(s: string, k: nat)
    requires k < |Lines(s)|
    ensures Contains(s, Lines(s)[k])
  {
    var line := Lines(s)[k];
    var off := LineOffset(s, k);
    assert s[off..off + |line|] == line;
    assert OccursAt(s, line, off);
  }

  /** Where the line at index `k` starts in the text. */
  lemma {:induction false} LineOffset(s: string, k: nat) returns (off: nat)
    requires k < |Lines(s)|
    ensures off + |Lines(s)[k]| <= |s|
    ensures forall m :: 0 <= m < |Lines(s)[k]| ==> s[off + m] == Lines(s)[k][m]
    decreases |s|
  {
    var i := FirstNewline(s);
    if i == |s| {
      assert Lines(s) == [s];
      off := 0;
    } else {
      var rest := s[i + 1..];
      assert Lines(s) == [s[..i]] + Lines(rest);
      if k == 0 {
        off := 0;
      } else {
        var o := LineOffset(rest, k - 1);
        off := i + 1 + o;
        forall m | 0 <= m < |Lines(s)[k]|
          ensures s[off + m] == Lines(s)[k][m]
        {
          assert s[off + m] == rest[o + m];
        }
      }
    }
  }

  /** Every piece of a split occurs in the text the split came from. */
  lemma {:induction false} PiecesOccur(pieces: seq<string>, seps: seq<string>)
    requires |pieces| == |seps| + 1
    ensures forall k :: 0 <= k < |pieces| ==> Contains(Interleave(pieces, seps), pieces[k])
    decreases |seps|
  {
    var s := Interleave(pieces, seps);
    if |seps| == 0 {
      SliceOccurs(s, 0, |s|);
      assert s[0..|s|] == s;
    } else {
      var rest := Interleave(pieces[1..], seps[1..]);
      PiecesOccur(pieces[1..], seps[1..]);
      var n := |pieces[0]| + |seps[0]|;
      assert s[..|pieces[0]|] == pieces[0];
      assert s[n..] == rest;
      SliceOccurs(s, 0, |pieces[0]|);
      SliceOccurs(s, n, |s|);
      assert s[n..|s|] == rest;
      forall k | 1 <= k < |pieces|
        ensures Contains(s, pieces[k])
      {
        assert pieces[k] == pieces[1..][k - 1];
        ContainsTrans(s, rest, pieces[k]);
      }
    }
  }

  /** The stripped form of a text occurs in it. */
  lemma StripOccurs(s: string)
    ensures Contains(s, Strip(s))
  {
    var t := Strip(s);
    var a := StripSlice(s);
    assert t == s[a..a + |t|];
    assert OccursAt(s, t, a);
  }

  /** Filtering stripped lines that occur in `text` keeps only substrings of `text`. */
  lemma FilterOccurs(text: string, lines: seq<string>, keep: string -> bool)
    requires forall j :: 0 <= j < |lines| ==> Contains(text, lines[j])
    ensures forall k :: 0 <= k < |StripFilter(lines, keep)| ==> Contains(text, StripFilter(lines, keep)[k])
  {
    var r := StripFilter(lines, keep);
    forall k | 0 <= k < |r|
      ensures Contains(text, r[k])
    {
      var j := StripFilterSource(lines, keep, k);
      StripOccurs(lines[j]);
      ContainsTrans(text, lines[j], r[k]);
    }
  }

  /** A string without a separator match keeps none once stripped. */
  lemma StripNoSep(s: string, bullets: set<char>)
    requires NoSep(s, bullets)
    ensures NoSep(Strip(s), bullets)
  {
    var a := StripSlice(s);
    var t := Strip(s);
    forall j | 0 <= j < |t|
      ensures !SepAt(t, bullets, j)
    {
      if j + 1 < |t| {
        assert t[j] == s[a + j] && t[j + 1] == s[a + j + 1];
        assert !SepAt(s, bullets, a + j);
      }
    }
  }

  /** Filtering stripped pieces without separator matches keeps none. */
  lemma FilterNoSep(pieces: seq<string>, bullets: set<char>, keep: string -> bool)
    requires forall j :: 0 <= j < |pieces| ==> NoSep(pieces[j], bullets)
    ensures forall k :: 0 <= k < |StripFilter(pieces, keep)| ==> NoSep(StripFilter(pieces, keep)[k], bullets)
  {
    var r := StripFilter(pieces, keep);
    forall k | 0 <= k < |r|
      ensures NoSep(r[k], bullets)
    {
      var j := StripFilterSource(pieces, keep, k);
      StripNoSep(pieces[j], bullets);
    }
  }
}
