# Résumé / job-description matcher — a Dafny model of its text core

The repository matches a résumé against a job description. It cleans both texts, drops noise
lines, cuts the résumé into chunks, ranks the chunks by their similarity to the job
description and keeps the best few. A Flask endpoint wraps the same pipeline. A second
script scores a GitHub account by the languages of its repositories.

This project models the deterministic part of that pipeline as pure Dafny functions over
`seq<char>` and proves what each step guarantees:

- `clean_text` (`Cleaning`) — lower-casing; the three `re.sub` passes that blank e-mail
  addresses, phone numbers and URLs, written as exact matchers with Python's leftmost,
  non-overlapping `re.sub` semantics (`Patterns`); the junk-character filter; the
  whitespace normalisation; `strip()` (`Strings`).
- `remove_noise_lines` and `preprocess` (`Noise`) — the line filter with the eleven
  `\b`-bounded noise patterns.
- `chunk_text` (`Chunking`) — the line chunks and the fallback `re.split` on a bullet,
  dash or period followed by whitespace. It is instantiated twice: with the `•` class of
  embeddings.py and with the mojibake class of flask_app.py.
- The selection logic of `get_top_k_resume_chunks` (`Selection`, `Ranking`). The
  similarity model is an abstract function `sim`.
- The `/match` handler of flask_app.py (`Handler`) as a pure decision function. The
  upload, the extracted PDF text and a model failure are inputs.
- The byte aggregation and empty-result rules of `fetch_language_stats`, and
  `calculate_github_score` (`Github`). The HTTP replies are inputs.

flask_app.py:33-67 repeats `clean_text`, `remove_noise_lines` and `preprocess` line for line, so
the same members model both copies.

Files: `wrappers.dfy` (Option/Result), `chars.dfy` (character classes), `strings.dfy`,
`patterns.dfy`, `cleaning.dfy`, `noise.dfy`, `chunking.dfy`, `selection.dfy`,
`ranking.dfy`, `handler.dfy`, `github.dfy`.

Three behaviours of the code that a reader might not expect:

- `preprocess` is not idempotent: a second pass can blank what the first pass produced
  (`Noise.PreprocessNotIdempotent`).
- `np.argsort(...)[::-1]` promises no order among equal scores, so only the order of the
  scores is stated (`Selection.TopK`).
- The handler's job-description check looks at the raw text, not the preprocessed text
  (`Handler.JunkJdAcceptedByHandler`).

## Model

| member | source | states |
|---|---|---|
| Strings.Lower | embeddings.py:37 | same length; every character is its ASCII lower-case form, so no upper-case letter remains |
| Strings.LowerIdempotent | embeddings.py:37 | lower-casing twice is lower-casing once |
| Strings.Strip | embeddings.py:53 | the result has no whitespace at either end and fits inside the input after its leading whitespace |
| Strings.StripSlice | embeddings.py:75 | the stripped line is a contiguous slice of the input with only whitespace before and after it |
| Strings.StripBlank | embeddings.py:76 | a line strips to the empty string exactly when it is all whitespace |
| Strings.StripOfStripped | embeddings.py:75 | stripping an already stripped string changes nothing |
| Strings.Lines | embeddings.py:71 | `split("\n")` yields at least one piece and no piece holds a newline |
| Strings.JoinLinesOfLines | embeddings.py:71-82 | joining the split lines with newlines gives back the text |
| Strings.LinesOfJoinLines | embeddings.py:167 | newline-free lines joined with newlines split back into the same lines |
| Strings.StripFilter | embeddings.py:74-80 | the kept lines are stripped, pass the test, form a subsequence of the stripped input lines in order, and every stripped line that passes is among them |
| Strings.StripFilterIndices | embeddings.py:74-80 | the kept lines are exactly the stripped lines that pass the test, in input order, one per passing line: a strictly increasing list of source positions covers every passing line |
| Strings.StripFilterSource | embeddings.py:74-80 | every kept line is the stripped form of some input line |
| Strings.StripFilterNoNewline | embeddings.py:104-107 | filtering newline-free lines keeps them newline-free |
| Patterns.LastWhere | embeddings.py:40 | the greedy backtracking search finds the last position satisfying the test, and none lies between it and the bound |
| Patterns.EmailAt | embeddings.py:40 | a reported e-mail match is a split into local part, `@`, domain, `.` and word suffix with word boundaries |
| Patterns.EmailAtComplete | embeddings.py:40 | wherever an e-mail split exists at a position, the matcher reports a match there that ends no earlier than that split |
| Patterns.PhoneAt | embeddings.py:43 | a reported phone match is an optional `+`, a digit, seven or more phone characters and a final digit; wherever such a split exists the matcher reports a match, and none ends later than it |
| Patterns.UrlAt | embeddings.py:46 | a reported URL match is `http://`, `https://` or `www.` followed by one or more non-space characters; wherever such a URL starts the matcher reports it, and no such URL ends later |
| Patterns.MatchAt | embeddings.py:40-46 | a match of any of the three patterns is non-empty and has the pattern's shape; wherever the shape fits a match is reported, and it is the longest slice with that shape at the position |
| Patterns.Sub | embeddings.py:40-46 | the rewrite is no longer than the input and every character is a space or comes from the input |
| Patterns.SubLeftmost | embeddings.py:40-46 | the text before the leftmost match is copied, that match becomes one space, and the rewrite continues after the match |
| Patterns.SubNoMatch | embeddings.py:40-46 | with no match anywhere, the rewrite returns the text unchanged |
| Patterns.NoEmailWithoutAt | embeddings.py:40 | no e-mail matches text without `@` |
| Patterns.NoPhoneWithoutDigit | embeddings.py:43 | no phone number matches text without digits |
| Patterns.WholePhone | embeddings.py:43 | a run of ten or more phone characters with digits at both ends is blanked to a single space |
| Patterns.NoPhoneAcrossBreak | embeddings.py:43 | a non-phone character in a short text leaves too few characters on either side for a phone match |
| Patterns.NoUrlWithoutSchemeOrWww | embeddings.py:46 | no URL matches where there is no `:` and no `www.` |
| Patterns.NoEmailSubWithoutAt | embeddings.py:40 | the e-mail pass leaves text without `@` unchanged |
| Cleaning.ReplaceJunk | embeddings.py:49 | same length; every character is in `[a-z0-9\s+./-]`; such characters are kept in place and every other character becomes a space |
| Cleaning.Squeeze | embeddings.py:52-53 | the collapsed text has no two neighbouring characters of the class, and it is empty only for empty input |
| Cleaning.SqueezeIsCollapse | embeddings.py:52-53 | the collapse equals its position-by-position description: a class character right after another is dropped, one that starts a run becomes the replacement, and every other character is kept in place |
| Cleaning.NormalizeSpacing | embeddings.py:49-53 | after the filter and the two collapses the text is normalised |
| Cleaning.NormalizedAfterSqueeze | embeddings.py:52-53 | collapsing blanks, then newlines, then stripping gives no doubled space, no doubled newline and no tab |
| Cleaning.SqueezeKeepsSingle | embeddings.py:53 | collapsing newlines does not create doubled spaces |
| Cleaning.CleanText | embeddings.py:29-55 | the empty text cleans to `""`; every output is normalised: allowed characters only, no tab, no doubled space or newline, stripped |
| Cleaning.SubKeepsBlank | embeddings.py:40-46 | the personal-data passes keep all-whitespace text all-whitespace |
| Cleaning.BlankCleansToEmpty | embeddings.py:29-55 | whitespace-only text cleans to `""` |
| Cleaning.EmailOnlyCleansToEmpty | embeddings.py:29-55 | a text that the e-mail pattern matches from end to end cleans to `""` |
| Cleaning.PhoneOnlyCleansToEmpty | embeddings.py:29-55 | a text that the phone pattern matches from end to end cleans to `""` |
| Cleaning.NoMatchUnchanged | embeddings.py:40-46 | when none of the three patterns matches anywhere, the personal-data passes change nothing |
| Cleaning.NothingPersonal | embeddings.py:40-46 | text without `@`, digits, `:` or `www.` passes the personal-data passes unchanged |
| Cleaning.NormalizeSpacingUnchanged | embeddings.py:49-53 | one stripped line of allowed characters with single spaces is left alone by the filter and the collapses |
| Cleaning.PlainTechTextUnchanged | embeddings.py:31-32 | lower-case tech tokens separated by single spaces pass through `clean_text` unchanged |
| Cleaning.CleanTextOfLower | embeddings.py:37 | cleaning a text and cleaning its lower-case form give the same result |
| Cleaning.TechTokensSurvive | embeddings.py:31-32 | `C++ Node.js CI/CD Scikit-Learn` cleans to `c++ node.js ci/cd scikit-learn` |
| Noise.RemoveNoiseLines | embeddings.py:58-82 | the output is empty exactly when no line is kept; otherwise its lines are exactly the stripped, non-blank, noise-free input lines in order |
| Noise.KeptLinesShape | embeddings.py:74-82 | kept lines are non-empty and hold no newline |
| Noise.SingleLineKept | embeddings.py:74-82 | a clean single line passes through unchanged |
| Noise.SingleLineDropped | embeddings.py:76-79 | a single line that is blank or noisy after stripping yields `""` |
| Noise.Preprocess | embeddings.py:85-89 | every character is allowed and not a tab; every line is kept and stripped |
| Noise.PreprocessChars | embeddings.py:74-82 | the noise filter only keeps characters it was given: any property of every character of the text that also holds of the newline holds of every character of the result |
| Noise.BlankPreprocessesToEmpty | embeddings.py:85-89 | whitespace-only text preprocesses to `""` |
| Noise.NoNoiseWithoutLowerLetters | embeddings.py:65-69 | a line without lower-case letters contains no noise phrase |
| Noise.DobIsNoise | embeddings.py:66 | the line `dob` is noise and is dropped |
| Noise.NoiseMatchIsCaseSensitive | embeddings.py:78-89 | `DOB` survives the noise filter but not `preprocess`, which lower-cases first |
| Noise.NoLowerLineKept | embeddings.py:78 | any stripped line without lower-case letters is kept by the noise filter |
| Noise.NoiseNeedsWordBoundaries | embeddings.py:66 | `dobby` holds `dob` without a word boundary after it and is kept |
| Noise.DigitGroupsAreNoPhone | embeddings.py:43 | two digit groups of at most eight digits around `#` match no phone pattern |
| Noise.FirstPass | embeddings.py:29-55 | such a text cleans to the two groups separated by a space |
| Noise.SecondPass | embeddings.py:43 | the two groups separated by a space, nine or more digits together, clean to `""` |
| Noise.PreprocessNotIdempotent | embeddings.py:85-89 | `preprocess` maps `d1#d2` to `d1 d2`, and a second `preprocess` maps that to `""` |
| Chunking.SplitFrom | embeddings.py:111 | the pieces and the separators interleave back to the text |
| Chunking.SplitPiecesNoSep | embeddings.py:111 | no piece holds a bullet, dash or period followed by whitespace |
| Chunking.SplitSepsWhole | embeddings.py:111 | every separator is one bullet or period with all the whitespace after it, and no later piece starts with whitespace |
| Chunking.SplitText | embeddings.py:111 | `re.split`: pieces and separators interleave to the text, no piece holds a separator, every separator is a whole match, and no piece after the first starts with whitespace |
| Chunking.ChunkText | embeddings.py:95-114 | empty text has no chunks; every chunk is stripped, long enough and a substring of the text; three or more long lines are the chunks, otherwise the long pieces of the split |
| Chunking.LineChunksOccur | embeddings.py:104-107 | every line chunk is a substring of the text |
| Chunking.LineChunksNoNewline | embeddings.py:104-107 | no line chunk holds a newline |
| Chunking.PieceChunksOccur | embeddings.py:111-112 | every fallback chunk is a substring of the text and holds no separator |
| Chunking.EmbeddingsChunkText | embeddings.py:95-114 | chunks are stripped and long enough; in the fallback no `•` in a chunk is followed by whitespace |
| Chunking.FlaskChunkText | flask_app.py:73-83 | chunks are stripped and long enough; in the fallback no chunk holds `â`, `€`, `¢`, `-` or `.` followed by whitespace |
| Chunking.ChunkTextAgrees | flask_app.py:80 | two bullet classes that agree on every character of the text chunk it the same way |
| Chunking.ChunkersAgree | flask_app.py:80 | on text without `•`, `â`, `€` and `¢` the two chunkers give the same chunks |
| Chunking.OneLineChunks | embeddings.py:104-107 | a stripped one-line text that is long enough is its own only line chunk |
| Chunking.SplitNoSep | embeddings.py:111 | text without a separator splits into itself |
| Chunking.SplitOneSep | embeddings.py:111 | text with exactly one separator splits into the part before it and the part after its whitespace |
| Chunking.FlaskKeepsBullet | flask_app.py:80 | `a• b` stays one chunk in flask_app.py but splits into `a` and `b` in embeddings.py |
| Chunking.LineOffset | embeddings.py:104 | every line of a text occurs in it at a known offset |
| Chunking.PiecesOccur | embeddings.py:111 | every piece of a split occurs in the text it came from |
| Selection.SelectTopRanks | embeddings.py:157 | the selected indices are distinct candidates, in non-increasing score, and none left out scores higher than one selected |
| Selection.TopK | embeddings.py:156-157 | `min(top_k, n)` distinct in-range indices, scores non-increasing, each selected score at least every unselected score |
| Selection.TopKPrefix | embeddings.py:157 | the best `k` are a prefix of the best `m` for `k <= m` |
| Ranking.Report | embeddings.py:155-177 | `min(top_k, n)` entries, each the chunk at its own position of the chunk list (no position twice) with its own similarity, non-increasing, dominating every unselected chunk; the filtered text joins the chunks by newlines in ranked order; the final score is the similarity of that text |
| Ranking.GetTopKResumeChunks | embeddings.py:138-146 | an empty preprocessed job description is reported first, then an empty chunk list; it succeeds exactly when neither is empty, with the report of the preprocessed texts |
| Ranking.ReportLines | embeddings.py:167 | the filtered text splits back into exactly the ranked chunks |
| Ranking.FilteredTextLines | embeddings.py:159-167 | with three or more long lines in the résumé, the filtered text's lines are the ranked chunks in order |
| Handler.MatchResume | flask_app.py:92-151 | checks in source order, each with its own answer: a blank job description gives 400 `JD is missing`; a missing upload gives 400 `Resume PDF is missing`; a failed save or extraction gives 500 with the exception message; blank extracted text gives 400 `Could not extract text from PDF (maybe scanned PDF)`; no chunks gives 400 `Resume chunking failed`; a model failure after that gives 500 with its message; otherwise 200 with the report of the top five, and 200 exactly when all checks pass and the model does not fail |
| Handler.HandlerChunksAsWritten | flask_app.py:73-118 | on preprocessed text the mojibake chunker gives the chunks of the embeddings.py one |
| Handler.HandlerRanksTopFive | flask_app.py:130-148 | a successful response ranks `min(5, n)` chunks, at least one, best first, each the chunk at its own position of the résumé's chunks, no position twice |
| Handler.JunkJdAcceptedByHandler | flask_app.py:98-115 | the job description `#` passes the handler's check and gets 200, while `get_top_k_resume_chunks` rejects it as empty |
| Handler.HandlerAgreesWithMatcher | flask_app.py:111-148 | when the matcher accepts the job description, the handler succeeds exactly when the matcher does, with the same ranking, and fails on chunking exactly when the matcher reports no chunks |
| Handler.BlankJdRejectedByBoth | flask_app.py:98-99 | a blank job description is rejected by both the handler and the matcher |
| Github.TotalsSnoc | git.py:65 | one pair more adds its count to its language and leaves the others alone |
| Github.AggregateBytes | git.py:57-67 | the loop over the replies computes exactly the reference totals: every language named by a pair read, mapped to the sum of its byte counts |
| Github.TotalsPerRepo | git.py:57-67 | each language's total is the sum over the replies with status 200 |
| Github.FailedReplyIgnored | git.py:62-67 | a reply that raised or had another status leaves the totals unchanged |
| Github.ZeroTotalIffZeroLanguages | git.py:73 | the byte total is zero exactly when every language's total is zero |
| Github.BytesForBounded | git.py:73-74 | no language has more bytes than the total |
| Github.FetchLanguageStats | git.py:42-77 | no repositories gives `{}`; the result is `{}` exactly when no language was collected; it fails exactly when all collected totals are zero; otherwise it has the collected languages, each with a share between 0 and 100 percent |
| Github.GithubScore | git.py:141-153 | an empty language set scores 0; a non-empty one scores an even number from 2 to 50 |
| Github.CountMatches | git.py:146-147 | the loop counts exactly the languages whose lower-case name occurs in the lower-case job description |
| Github.ScoreMonotone | git.py:147-153 | more languages never lower the score |
| Github.NoMatchScoresBaseOnly | git.py:150-151 | a job description naming none of the languages earns only `min(20, 2n)` |
| Github.FullMarks | git.py:150-153 | ten languages with three of them named earn the maximum 50 |
| Github.CalculateGithubScore | git.py:141-153 | a failure while fetching propagates; otherwise the score of the languages fetched, at most 50, and 0 when none were |

## Left out

- Full Unicode `str.lower`, `\w`, `\d` and `\b` are not modelled. Lower-casing, word characters and digits are ASCII, and every other character counts as junk. `\s` and `strip()` use Python's exact whitespace set.
- PDF text extraction (pdfplumber) and saving the upload to disk are left out. They are file I/O through a foreign library; the handler takes their outcome as an input.
- The sentence-embedding model, cosine similarity and `round(..., 2)` are left out because they are floating-point numerics over a black-box model. Similarity is an abstract function `sim`, and percentages are exact reals.
- Ranking.Report: does not promise the order of equal scores, because `np.argsort` is unstable and its output is reversed.
- Selection.TopK: `top_k` is a natural number. Python's slice with a negative `top_k` is not modelled.
- The Flask app setup, CORS, the upload folder and the module-level model load are framework glue with no decision logic.
- The GitHub HTTP requests, `fetch_user_repos`, the Gemini quiz prompt and its JSON parsing are network and foreign calls. The replies for the user's repositories are an input, and the quiz is not modelled.
- Github.FetchLanguageStats: the percentage is not rounded to two decimals, and the descending sort of the dictionary is not modelled, because a map has no order.
- Github.AggregateBytes: byte counts are natural numbers. A non-integer value that would raise part-way through one reply's pairs is not modelled.
- Github.CalculateGithubScore: the score is an integer rather than a float, because every value it takes (0 to 50) is a whole number.
- `match.php`, `signup.php` and `index.php` are HTML, JavaScript, sessions and SQL with no modellable core.
- The `__main__` console drivers print and read input; they are not modelled.

## Findings

| source | as written | input that shows it | evidently intended | confidence | as-written member | corrected member |
|---|---|---|---|---|---|---|
| flask_app.py:80 | the fallback split class is `[â€¢\-]`, the UTF-8 bytes of `•` (E2 80 A2) decoded as Windows-1252, so it splits on `â`, `€`, `¢` or `-` followed by whitespace but never on `•` | `a• b` with `min_len` 1: one chunk `a• b` instead of `a` and `b` | split on `•` or `-` followed by whitespace, as embeddings.py:111 does | not executed; after `preprocess` the difference cannot be observed, because `clean_text` blanks all four characters (Handler.HandlerChunksAsWritten) | Chunking.FlaskChunkText, Chunking.FlaskKeepsBullet | Chunking.EmbeddingsChunkText |
