/**
 * The `/match` request handler of flask_app.py (`match_resume`) as a pure
 * decision function. The form field, the upload, the text extracted from
 * the PDF, a failure of the embedding model and the similarity function are
 * inputs; the result is the HTTP status with the JSON body.
 */
module Handler {
  import opened Wrappers
  import opened Chars
  import opened Strings
  import opened Cleaning
  import opened Noise
  import opened Chunking
  import opened Selection
  import opened Ranking

  /** The JSON body of a response. */
  datatype Body =
    | ErrorBody(error: string)
    | MatchBody(finalScore: real, topChunks: seq<RankedChunk>, filteredText: string)

  datatype Response = Response(status: nat, body: Body)

  const JdMissing: string := "JD is missing"
  const ResumeMissing: string := "Resume PDF is missing"
  const NoTextExtracted: string := "Could not extract text from PDF (maybe scanned PDF)"
  const ChunkingFailed: string := "Resume chunking failed"

  /** The handler always ranks `min(5, len(chunks))` chunks. */
  const HandlerTopK: nat := 5

  /**
   * `if not resume_file`: the upload is missing when the form has no
   * `resume` file, and an upload with an empty file name is falsy too.
   */
  predicate HasResume(upload: Option<string>) {
    upload.Some? && upload.value != ""
  }

  /** The four validation failures, each answered with status 400. */
  predicate IsValidationError(r: Response) {
    r.status == 400 && r.body.ErrorBody?
    && r.body.error in {JdMissing, ResumeMissing, NoTextExtracted, ChunkingFailed}
  }

  /**
   * `match_resume()`. `jd` is `request.form.get("jd", "")`; `upload` the
   * file name of the `resume` upload, if any; `extracted` the outcome of
   * saving the PDF and extracting its text (`Failure` when either raises);
   * `modelError` the message when encoding with the sentence model raises.
   *
   * The checks run in source order and the first failure answers: a blank
   * job description, a missing upload, a blank extracted text, no chunks.
   * Only after all four pass does the model run; an exception anywhere
   * answers 500 with its message. Success carries the report for the top
   * five chunks, without the cleaned job description.
   */
  function MatchResume(jd: string, upload: Option<string>, extracted: Result<string>,
                       modelError: Option<string>, sim: (string, string) -> real): (r: Response)
    ensures Strip(jd) == "" ==> r == Response(400, ErrorBody(JdMissing))
    ensures Strip(jd) != "" && !HasResume(upload) ==> r == Response(400, ErrorBody(ResumeMissing))
    ensures r.status == 200 <==>
              Strip(jd) != "" && HasResume(upload) && extracted.Success? && Strip(extracted.value) != ""
              && ResumeChunks(extracted.value) != [] && modelError.None?
    ensures r.status != 200 ==> r.body.ErrorBody? && (r.status == 400 || r.status == 500)
    ensures r.status == 500 <==>
              Strip(jd) != "" && HasResume(upload)
              && (extracted.Failure?
                  || (Strip(extracted.value) != "" && ResumeChunks(extracted.value) != [] && modelError.Some?))
    ensures r.status == 400 ==> IsValidationError(r)
    ensures Strip(jd) != "" && HasResume(upload) && extracted.Failure? ==>
              r == Response(500, ErrorBody(extracted.message))
    ensures Strip(jd) != "" && HasResume(upload) && extracted.Success? && Strip(extracted.value) == "" ==>
              r == Response(400, ErrorBody(NoTextExtracted))
    ensures Strip(jd) != "" && HasResume(upload) && extracted.Success? && Strip(extracted.value) != ""
            && ResumeChunks(extracted.value) == [] ==>
              r == Response(400, ErrorBody(ChunkingFailed))
    ensures Strip(jd) != "" && HasResume(upload) && extracted.Success? && Strip(extracted.value) != ""
            && ResumeChunks(extracted.value) != [] && modelError.Some? ==>
              r == Response(500, ErrorBody(modelError.value))
    ensures r.status == 200 ==>
              var m := Report(Preprocess(jd), ResumeChunks(extracted.value), HandlerTopK, sim);
              r.body == MatchBody(m.finalScore, m.topChunks, m.filteredText)
  {
    if Strip(jd) == "" then Response(400, ErrorBody(JdMissing))
    else if !HasResume(upload) then Response(400, ErrorBody(ResumeMissing))
    else
      match extracted
      case Failure(e) => Response(500, ErrorBody(e))
      case Success(text) =>
        if Strip(text) == "" then Response(400, ErrorBody(NoTextExtracted))
        else
          var chunks := ResumeChunks(text);
          if chunks == [] then Response(400, ErrorBody(ChunkingFailed))
          else
            match modelError
            case Some(e) => Response(500, ErrorBody(e))
            case None =>
              var m := Report(Preprocess(jd), chunks, HandlerTopK, sim);
              Response(200, MatchBody(m.finalScore, m.topChunks, m.filteredText))
  }

  /**
   * flask_app.py chunks with its own `chunk_text`; on preprocessed text,
   * which holds none of `•`, `â`, `€`, `¢`, it gives the same chunks as the
   * embeddings.py one the handler model uses.
   */
  lemma HandlerChunksAsWritten(text: string)
    ensures FlaskChunkText(Preprocess(text), DefaultMinLen) == ResumeChunks(text)
  {
    var c := Preprocess(text);
    forall k | 0 <= k < |c|
      ensures c[k] !in {'\U{2022}', '\U{00E2}', '\U{20AC}', '\U{00A2}'}
    {
      CleanCharIsNoBullet(c[k]);
    }
    ChunkersAgree(c, DefaultMinLen);
  }

  /** `•` and the three characters of its mojibake are all junk to `clean_text`. */
  lemma CleanCharIsNoBullet(c: char)
    requires CleanNotTab(c)
    ensures c !in {'\U{2022}', '\U{00E2}', '\U{20AC}', '\U{00A2}'}
  {
  }

  /**
   * A successful response ranks at most five chunks, best first, each the
   * chunk at its own position of the résumé's chunks, no position twice.
   */
  lemma HandlerRanksTopFive(jd: string, upload: Option<string>, text: string,
                            sim: (string, string) -> real)
    requires MatchResume(jd, upload, Success(text), None, sim).status == 200
    ensures var b := MatchResume(jd, upload, Success(text), None, sim).body;
            var chunks := ResumeChunks(text);
            |b.topChunks| == Min(HandlerTopK, |chunks|) && 0 < |b.topChunks| <= 5
            && (forall i :: 0 <= i < |b.topChunks| ==> b.topChunks[i].chunk in chunks)
            && (forall i, j :: 0 <= i < j < |b.topChunks| ==> b.topChunks[i].similarity >= b.topChunks[j].similarity)
    ensures var b := MatchResume(jd, upload, Success(text), None, sim).body;
            var chunks := ResumeChunks(text);
            var idx := TopK(Scores(Preprocess(jd), chunks, sim), HandlerTopK);
            |idx| == |b.topChunks| && InRange(idx, |chunks|) && Distinct(idx)
            && forall i :: 0 <= i < |b.topChunks| ==> b.topChunks[i].chunk == chunks[idx[i]]
  {
    var chunks := ResumeChunks(text);
    var m := Report(Preprocess(jd), chunks, HandlerTopK, sim);
    assert MatchResume(jd, upload, Success(text), None, sim).body.topChunks == m.topChunks;
    FiveRanked(Preprocess(jd), chunks, sim);
  }

  lemma FiveRanked(jdClean: string, chunks: seq<string>, sim: (string, string) -> real)
    requires chunks != []
    ensures var top := Report(jdClean, chunks, HandlerTopK, sim).topChunks;
            |top| == Min(HandlerTopK, |chunks|) && 0 < |top| <= 5
            && (forall i :: 0 <= i < |top| ==> top[i].chunk in chunks)
            && (forall i, j :: 0 <= i < j < |top| ==> top[i].similarity >= top[j].similarity)
  {
  }

  /**
   * The handler tests the raw job description, the matcher the
   * preprocessed one: a job description that is only junk (`#`) passes the
   * handler's check while `get_top_k_resume_chunks` rejects it.
   */
  lemma JunkJdAcceptedByHandler(jd: string, upload: Option<string>, text: string,
                                sim: (string, string) -> real)
    requires |jd| == 1 && jd[0] == '#'
    requires HasResume(upload) && Strip(text) != "" && ResumeChunks(text) != []
    ensures MatchResume(jd, upload, Success(text), None, sim).status == 200
    ensures GetTopKResumeChunks(jd, text, HandlerTopK, sim) == Failure(JdEmptyError)
  {
    JunkJdIsNotBlank(jd);
    JunkCleansToEmpty(jd);
    EmptyHasNoLines();
  }

  lemma JunkJdIsNotBlank(jd: string)
    requires |jd| == 1 && jd[0] == '#'
    ensures Strip(jd) != ""
  {
    StripBlank(jd);
    assert !IsSpace(jd[0]);
  }

  /** `#` is junk: it becomes a space, and the space is stripped. */
  lemma JunkCleansToEmpty(jd: string)
    requires |jd| == 1 && jd[0] == '#'
    ensures CleanText(jd) == ""
  {
    assert Lower(jd) == jd;
    NothingPersonal(jd);
    var blank := ReplaceJunk(jd);
    assert blank == " ";
    SpaceNormalizesToEmpty();
  }

  /**
   * Whenever the matcher accepts the job description, the handler given a
   * readable upload answers as the matcher does: the same chunks ranked the
   * same way, or the same empty-chunk failure.
   */
  lemma HandlerAgreesWithMatcher(jd: string, upload: Option<string>, text: string,
                                 sim: (string, string) -> real)
    requires Preprocess(jd) != ""
    requires HasResume(upload) && Strip(text) != ""
    ensures var r := MatchResume(jd, upload, Success(text), None, sim);
            var g := GetTopKResumeChunks(jd, text, HandlerTopK, sim);
            (g.Success? <==> r.status == 200)
            && (g.Success? ==> r.body == MatchBody(g.value.finalScore, g.value.topChunks, g.value.filteredText))
            && (g == Failure(ResumeEmptyError) <==> r == Response(400, ErrorBody(ChunkingFailed)))
  {
    if Strip(jd) == "" {
      BlankPreprocessesToEmpty(jd);
    }
  }

  /** A job description that is blank before preprocessing is rejected by both. */
  lemma BlankJdRejectedByBoth(jd: string, upload: Option<string>, extracted: Result<string>,
                              modelError: Option<string>, text: string, sim: (string, string) -> real)
    requires Strip(jd) == ""
    ensures MatchResume(jd, upload, extracted, modelError, sim) == Response(400, ErrorBody(JdMissing))
    ensures GetTopKResumeChunks(jd, text, HandlerTopK, sim) == Failure(JdEmptyError)
  {
    BlankPreprocessesToEmpty(jd);
  }
}
