/**
 * The selection logic of `JDResumeMatcher.get_top_k_resume_chunks`
 * (embeddings.py): preprocess both texts, chunk the résumé, rank the chunks
 * by their similarity to the job description and keep the best `top_k`.
 * The sentence-embedding model and cosine similarity are a parameter `sim`.
 */
module Ranking {
  import opened Wrappers
  import opened Strings
  import opened Noise
  import opened Chunking
  import opened Selection

  // ------------------------------------------------------------ get_top_k_resume_chunks

  /** One entry of `top_chunks`: the chunk and its similarity in percent (unrounded). */
  datatype RankedChunk = RankedChunk(chunk: string, similarity: real)

  /** The success dictionary of `get_top_k_resume_chunks`. */
  datatype MatchReport = MatchReport(
    finalScore: real,
    topChunks: seq<RankedChunk>,
    filteredText: string,
    jdClean: string)

  const JdEmptyError: string := "Job Description is empty after preprocessing."
  const ResumeEmptyError: string := "Resume text is empty or could not be chunked properly."

  /** `chunk_text(preprocess(resume_text))` with the default `min_len`. */
  function ResumeChunks(resumeText: string): seq<string> {
    EmbeddingsChunkText(Preprocess(resumeText), DefaultMinLen)
  }

  /** `sims`: the similarity of each chunk to the cleaned job description. */
  function Scores(jdClean: string, chunks: seq<string>, sim: (string, string) -> real): (r: seq<real>)
    ensures |r| == |chunks|
    ensures forall i :: 0 <= i < |chunks| ==> r[i] == sim(jdClean, chunks[i])
  {
    seq(|chunks|, i requires 0 <= i < |chunks| => sim(jdClean, chunks[i]))
  }

  /** The `top_chunks` list for the chosen indices, in ranked order. */
  function Ranked(chunks: seq<string>, scores: seq<real>, idx: seq<nat>): (r: seq<RankedChunk>)
    requires |scores| == |chunks| && InRange(idx, |chunks|)
    ensures |r| == |idx|
    ensures forall i :: 0 <= i < |idx| ==> r[i] == RankedChunk(chunks[idx[i]], 100.0 * scores[idx[i]])
  {
    seq(|idx|, i requires 0 <= i < |idx| => RankedChunk(chunks[idx[i]], 100.0 * scores[idx[i]]))
  }

  /** `[x["chunk"] for x in top_chunks]`. */
  function ChunksOf(top: seq<RankedChunk>): (r: seq<string>)
    ensures |r| == |top| && forall i :: 0 <= i < |top| ==> r[i] == top[i].chunk
  {
    seq(|top|, i requires 0 <= i < |top| => top[i].chunk)
  }

  /**
   * The report built once both checks have passed: `min(top_k, n)` of the
   * chunks, taken from distinct positions (a chunk is listed once per
   * occurrence, never repeated), each with its own similarity, in
   * non-increasing similarity; no
   * chunk left out is more similar than one kept; the filtered text is the
   * kept chunks joined by newlines in ranked order, and the final score is
   * the similarity of that text.
   */
  function Report(jdClean: string, chunks: seq<string>, topK: nat,
                  sim: (string, string) -> real): (m: MatchReport)
    ensures m.jdClean == jdClean
    ensures |m.topChunks| == Min(topK, |chunks|)
    ensures forall i :: 0 <= i < |m.topChunks| ==>
              m.topChunks[i].chunk in chunks
              && m.topChunks[i].similarity == 100.0 * sim(jdClean, m.topChunks[i].chunk)
    ensures forall i, j :: 0 <= i < j < |m.topChunks| ==>
              m.topChunks[i].similarity >= m.topChunks[j].similarity
    ensures forall i, j ::
              0 <= i < |m.topChunks| && 0 <= j < |chunks| && j !in TopK(Scores(jdClean, chunks, sim), topK) ==>
                m.topChunks[i].similarity >= 100.0 * sim(jdClean, chunks[j])
    ensures var idx := TopK(Scores(jdClean, chunks, sim), topK);
            |idx| == |m.topChunks| && InRange(idx, |chunks|) && Distinct(idx)
            && forall i :: 0 <= i < |m.topChunks| ==> m.topChunks[i].chunk == chunks[idx[i]]
    ensures m.filteredText == JoinLines(ChunksOf(m.topChunks))
    ensures m.finalScore == 100.0 * sim(jdClean, m.filteredText)
  {
    var scores := Scores(jdClean, chunks, sim);
    var idx := TopK(scores, topK);
    var top := Ranked(chunks, scores, idx);
    var filtered := JoinLines(ChunksOf(top));
    MatchReport(100.0 * sim(jdClean, filtered), top, filtered, jdClean)
  }

  /**
   * `get_top_k_resume_chunks(jd_text, resume_text, top_k)`: an empty
   * preprocessed job description is reported before an empty chunk list,
   * and otherwise the report ranks the chunks of the preprocessed résumé
   * against the preprocessed job description.
   */
  function GetTopKResumeChunks(jdText: string, resumeText: string, topK: nat,
                               sim: (string, string) -> real): (r: Result<MatchReport>)
    ensures Preprocess(jdText) == "" <==> r == Failure(JdEmptyError)
    ensures Preprocess(jdText) != "" && ResumeChunks(resumeText) == [] <==> r == Failure(ResumeEmptyError)
    ensures r.Success? <==> Preprocess(jdText) != "" && ResumeChunks(resumeText) != []
    ensures r.Success? ==> r.value == Report(Preprocess(jdText), ResumeChunks(resumeText), topK, sim)
  {
    var jdClean := Preprocess(jdText);
    var chunks := ResumeChunks(resumeText);
    if jdClean == "" then Failure(JdEmptyError)
    else if chunks == [] then Failure(ResumeEmptyError)
    else Success(Report(jdClean, chunks, topK, sim))
  }

  /**
   * When no chunk holds a newline and at least one is kept, the filtered
   * text splits back into exactly the kept chunks, one per line.
   */
  lemma ReportLines(jdClean: string, chunks: seq<string>, topK: nat, sim: (string, string) -> real)
    requires topK > 0 && |chunks| > 0
    requires forall j :: 0 <= j < |chunks| ==> NoNewline(chunks[j])
    ensures Lines(Report(jdClean, chunks, topK, sim).filteredText) == ChunksOf(Report(jdClean, chunks, topK, sim).topChunks)
  {
    var m := Report(jdClean, chunks, topK, sim);
    var cs := ChunksOf(m.topChunks);
    forall i | 0 <= i < |cs|
      ensures NoNewline(cs[i])
    {
      assert cs[i] in chunks;
    }
    LinesOfJoinLines(cs);
  }

  /**
   * When the résumé has at least three long lines, the filtered text splits
   * back into exactly the ranked chunks, one per line.
   */
  lemma FilteredTextLines(jdText: string, resumeText: string, topK: nat, sim: (string, string) -> real)
    requires topK > 0
    requires |LineChunks(Preprocess(resumeText), DefaultMinLen)| >= MinLineChunks
    requires GetTopKResumeChunks(jdText, resumeText, topK, sim).Success?
    ensures var m := GetTopKResumeChunks(jdText, resumeText, topK, sim).value;
            Lines(m.filteredText) == ChunksOf(m.topChunks)
  {
    var text := Preprocess(resumeText);
    var chunks := ResumeChunks(resumeText);
    assert chunks == LineChunks(text, DefaultMinLen);
    LineChunksNoNewline(text, DefaultMinLen);
    ReportLines(Preprocess(jdText), chunks, topK, sim);
  }
}
