# CandidateMatch ranking pipeline in Dafny

This project models the matching pipeline of CandidateMatch, a Streamlit app
that ranks uploaded PDF resumes against a job description. For each run the
app does the following:

1. It caps the uploads at 30.
2. It parses each upload into a file name, an optional text and a candidate name.
3. It embeds every readable resume.
4. It ranks the resumes by cosine similarity to the job embedding.
5. It summarises each ranked row with GPT-3.5, applying a penalty to
   unreadable or truncated resumes and memoising summaries in a session cache.
6. It re-sorts the rows by the penalised score.

The model is purely functional. Services outside the program are parameters:

- the embedding service is `embed: string -> Option<Embedding>`, where `None`
  means the call raised;
- cosine similarity is `cosPct`, which returns the percentage already rounded
  to two decimals;
- SHA-256 is `digest`;
- the chat completion is `ask: (job, resume text) -> Reply`;
- spaCy's entity recogniser is `ner`.

The session cache is a `map<string, string>` that each step takes in and hands
back. The `calls` count in a result makes each chat-completion request
visible.

Scores are fixed-point integers. A similarity is stored in hundredths of a
percent, so 87.35 is 8735. A penalty factor is stored in tenths: 10 means 1.0,
8 means 0.8 and 0 means 0.0. The adjusted score is the exact product rounded
to the nearest hundredth. In the source that product has at most three
decimals and an even last digit, so it is never a tie, and binary floating
point lands on the same hundredth.

Modules follow the source files:

- `Text` holds the Python string built-ins.
- `Utils` is `utils.py`.
- `SummaryGenerator` is `summary_generator.py`.
- `Similarity` is `similarity.py`.
- `Sorting` is pandas' descending sort.
- `ResumeParser` is `resume_parser.py`.
- `App` is `run_analysis` and the upload cap in `app.py`.

Behaviour of the code that a reader may not expect:

- **Sort order of ties.** Pandas sorts with quicksort by default, which is
  not stable, so tied rows may come out in any order. The contracts promise
  only a sorted permutation. `Sorting.SortedPermutationsAgreeOnKey` shows
  that the score column is the same however ties are ordered.
- **Cache key.** `hash_pair` hashes `job + resume` with no separator.
  `Utils.HashPairCollision` exhibits two different pairs that share a key.
  Within one run the job text is fixed, and then, for a collision-free
  digest, the key separates different resumes
  (`Utils.HashPairSeparatesResumes`). SHA-256 is only assumed to behave so.
- **Summarizer failure.** A failed summary gets penalty 0.0, whatever the
  truncation step decided.
- **Failures that abort the whole run.** Two cases raise and end the run
  instead of degrading a single candidate:
  - the job embedding is missing while some resume has an embedding;
  - the resume list is empty, because sorting a DataFrame with no columns
    raises.
- **Text lookup by file name.** Each row's text is found by file name,
  taking the first match. When two uploads share a file name, the second
  candidate is summarised and penalised from the first one's text
  (`App.RepeatedFilenameBorrowsText`). With distinct file names every row gets
  its own text (`App.LookupFindsOwnText`).

## Model

| member | source | states |
|---|---|---|
| Text.Split | utils.py:26 | every piece `str.split()` returns is a non-empty word without whitespace |
| Text.SplitCountsRuns | utils.py:26 | the number of words is the number of positions where a non-whitespace character starts a run |
| Text.SplitOfSpace | utils.py:26 | empty or whitespace-only text splits into no words |
| Text.SplitOfWord | utils.py:26 | a single word without whitespace splits into itself |
| Text.SplitAcrossGap | utils.py:26 | a non-empty whitespace gap separates words: the words of `a + gap + b` are the words of `a` followed by those of `b`; with the two rows above this fixes the pieces as the maximal non-whitespace runs in order |
| Text.SplitJoinSpace | summary_generator.py:32 | joining words with single spaces and splitting again gives back the same words |
| Text.JoinSpace | summary_generator.py:32 | `" ".join(ws)`: the words with a single space between neighbours; `Text.SplitJoinSpace` is its round trip with `Split` |
| Text.Strip | resume_parser.py:35 | the stripped text has no whitespace at either end; it is empty exactly when the input is all whitespace; otherwise it is the input between its leading and trailing whitespace |
| Text.StripIdempotent | resume_parser.py:39-41 | stripping a stripped text changes nothing |
| Text.SplitOn | resume_parser.py:39 | `text.split("\n")`: at least one piece, no piece contains the separator; `Text.JoinSplitOn` is its round trip |
| Text.JoinSplitOn | resume_parser.py:38 | splitting on newlines loses nothing: re-joining the lines gives back the text |
| Utils.CountTokens | utils.py:24-26 | the token count equals the number of maximal non-whitespace runs |
| Utils.CountTokensOfSpace | utils.py:26 | empty or whitespace-only text has 0 tokens |
| Utils.CountTokensLeadingSpace | utils.py:26 | leading whitespace does not change the count |
| Utils.CountTokensTrailingSpace | utils.py:26 | trailing whitespace does not change the count |
| Utils.CountTokensGap | utils.py:26 | any non-empty run of whitespace between two texts counts like a single space, so repeated whitespace does not change the count |
| Utils.HashPair | utils.py:20-22 | `hash_pair(job, resume)`: the digest of the plain concatenation `job + resume`; the three lemmas below state what that does and does not separate |
| Utils.HashPairSeesConcatenation | utils.py:20-22 | the key depends only on `job + resume`: pairs with equal concatenations share a key |
| Utils.HashPairCollision | utils.py:22 | ("ab", "c") and ("a", "bc") get the same key |
| Utils.HashPairSeparatesResumes | utils.py:22 | for one job text and a collision-free digest, equal keys mean equal resume texts |
| SummaryGenerator.Prepare | summary_generator.py:28-36 | up to 3500 tokens the text is kept, with penalty 1.0 and no note; above 3500 the text sent is in single-space form, its words are the first 3500 words of the resume, it has exactly 3500 tokens, and it gets penalty 0.8 and the truncation note |
| SummaryGenerator.CacheKey | summary_generator.py:30-39 | the cache key of a readable resume: `hash_pair` of the job and the text actually sent, so the truncated text when the resume was truncated |
| SummaryGenerator.GenerateSummary | summary_generator.py:11-70 | missing resume: the fixed unreadable text, penalty 0.0, cache unchanged, no request; cache hit on the key of the truncated text: the stored text, the truncation penalty, cache unchanged, no request; miss with an answer: one request, the note plus the stripped answer, which is also stored under the key, with every other entry kept; miss with an exception: one request, "Error generating summary: " plus the message, penalty 0.0, cache unchanged; the penalty is always 0.0, 0.8 or 1.0 |
| SummaryGenerator.TruncationBoundary | summary_generator.py:29-34 | exactly 3500 tokens: sent whole at full credit; 3501 tokens: the text sent holds the first 3500 words (it lacks only the last word) at penalty 0.8 |
| SummaryGenerator.SecondRequestIsHit | summary_generator.py:38-41 | unless the first request failed, asking again about the same pair is a cache hit with the same summary, penalty and cache, so at most one request is made in all |
| SummaryGenerator.LaterRequestIsHit | summary_generator.py:38-41 | once a request succeeded, asking again on any cache that kept its entries is a hit with the same summary and penalty and no request |
| SummaryGenerator.TruncatedResumesShareKey | summary_generator.py:30-39 | two long resumes with the same first 3500 words share a key, so the second is served from the cache at penalty 0.8 |
| SummaryGenerator.FailureIsNotCached | summary_generator.py:56-70 | a failed request stores nothing and scores 0.0, so the next identical request sends a new request to the service, and if that one answers, the summary gets the truncation step's penalty |
| Sorting.SortDesc | similarity.py:38 | the result is sorted by descending key and is a permutation of the input |
| Sorting.SortedPermutationsAgreeOnKey | similarity.py:38 | any two sorted permutations of the same rows have the same key column, so only the order of ties is left open |
| Similarity.UnsortedRows | similarity.py:23-35 | one row per resume, in input order, each built from its own resume |
| Similarity.RowFor | similarity.py:24-35 | the row of one resume: its name and file name, and score 0 when its embedding or text is missing, otherwise the cosine score against the job embedding in hundredths (a missing job embedding with such a resume makes `RankCandidates` fail instead) |
| Similarity.RankCandidates | similarity.py:4-39 | fails exactly when there are no resumes, or when the job embedding is missing and some resume has both text and embedding; otherwise one row per resume, sorted by descending score, a permutation of the rows built from the resumes |
| Similarity.EveryResumeRanked | similarity.py:23-35 | each resume's row appears under its own name and file name: score 0 when its embedding or text is missing, otherwise the cosine score against the job |
| Similarity.RankedRowsComeFromResumes | similarity.py:31-35 | every ranked row is the row of some resume |
| Similarity.ScoreColumnDetermined | similarity.py:38 | the score column of the ranking is the same for every sorted arrangement of the rows |
| ResumeParser.FirstNameEntity | resume_parser.py:33-35 | the stripped text of the first PERSON entity of at most 4 words; none exactly when no entity qualifies |
| ResumeParser.FirstNonBlankLine | resume_parser.py:38-41 | the first line that is not all whitespace, stripped; none exactly when every line is blank |
| ResumeParser.ExtractCandidateName | resume_parser.py:24-42 | missing or empty text gives "Unknown"; otherwise the first PERSON entity of at most 4 words, stripped; with no such entity, the first non-blank line, stripped; with no such line, "Unknown"; the name is "Unknown" or has no surrounding whitespace |
| ResumeParser.LongPersonSkipped | resume_parser.py:34 | a PERSON entity of more than 4 words is passed over in favour of the first line |
| ResumeParser.ParseResume | resume_parser.py:44-63 | the file name is kept; missing or empty text gives no text and the name "Unknown"; otherwise the text is kept verbatim and the name is the extracted name |
| ResumeParser.ParsedTextNonEmpty | resume_parser.py:51-56 | a parsed resume never carries empty text |
| App.CapUploads | app.py:100-103 | at most 30 uploads are kept, and they are the first ones in order |
| App.ReadUploads | app.py:100-105 | one parsed resume per kept upload, in upload order |
| App.EmbedResumes | app.py:41-45 | names, file names and texts are kept; a resume with no text has no embedding |
| App.EmbeddingOnlyFromText | app.py:41-45 | an unreadable resume's entry does not depend on the embedder; a readable one gets the embedding of its text |
| App.FirstText | app.py:55 | the text of the first resume with the row's file name; none when no resume has that name |
| App.LookupFindsOwnText | app.py:55 | with distinct file names, a row's lookup returns its own resume's text |
| App.RepeatedFilenameBorrowsText | app.py:55 | with two uploads named "cv.pdf", the second one's lookup returns the first one's text |
| App.AdjustScore | app.py:61 | the adjusted score is within half a hundredth of similarity times penalty |
| App.AdjustScoreByPenalty | app.py:61 | penalty 1.0 keeps the similarity, penalty 0.0 gives 0, and penalty 0.8 keeps a non-negative score between 0 and itself |
| App.AdjustScoreMonotonic | app.py:61 | for each penalty, a higher similarity never gives a lower adjusted score |
| App.WalkRows | app.py:54-60 | one summary-step result per ranked row, each penalty 0.0, 0.8 or 1.0; the cache handed back is the one the last row's step left (the session cache when there are no rows), it keeps every entry it started with, and there is at most one request per row |
| App.WalkStepAt | app.py:55-60 | the i-th step is the summary step for the i-th row's looked-up text, run on the cache the previous row's step left, or on the session cache for the first row |
| App.WalkCacheGrows | app.py:54-60 | an entry a row's step leaves in the shared cache is still there, unchanged, when any later row is summarised |
| App.RepeatInRunIsHit | app.py:54-60 | within one run, a later row whose looked-up text an earlier row summarised successfully is a cache hit: no request, the same summary and the same penalty; with two rows sharing a file name this always applies |
| App.SummarizeRows | app.py:51-66 | the i-th output row carries the i-th ranked row's name and file name and its similarity scaled by the i-th penalty, which is 0.0, 0.8 or 1.0; the cache only gains entries; at most one request per row |
| App.SummarizeRowsKeepsCandidates | app.py:54-66 | the adjusted rows list the ranked rows' (name, file name) pairs in the same order: only score and summary change |
| App.SummarizeRowsAt | app.py:54-63 | the i-th summary and penalty are what the summary step gives for the i-th ranked row's looked-up text, given the cache left by the rows before it |
| App.RunAnalysis | app.py:33-69 | fails exactly when there are no resumes, or when the job embedding is missing and some readable resume was embedded; otherwise one final row per resume, sorted by descending adjusted score, a permutation of the summarised ranking with the cache the summaries left, the cache only gains entries, and at most one request per resume |
| App.NoCandidateLost | app.py:41-69 | the final table lists exactly the (name, file name) pairs of the resumes, each as often as it occurs |
| App.UnreadableRanksAtZero | app.py:41-69 | an unreadable resume appears in the final table with adjusted score 0, and with distinct file names its summary is the unreadable-resume text |
| App.UnreadableRowAt | app.py:54-63 | the ranked row of an unreadable resume becomes a final row with score 0 and, with distinct file names, the unreadable-resume summary |

## Left out

- The Streamlit interface is not modelled: session-state setup, page layout, the job-description text area, progress bar, buttons, the automatic start at 30 files, the results table, the CSV download and `reset_app`. All of these are UI or side effects.
- PDF text extraction with PyMuPDF is not modelled. It is file I/O, so its result is an input (`Upload.extracted`), already stripped, or `None` when reading failed.
- The spaCy model is not modelled. Its entities for a text are the input `ner`.
- The OpenAI clients are not modelled: the embedding call, the chat call, the prompt template, the model name, the temperature and the token limit. They are network services. `embed` and `ask` stand in for them, and `ask` receives the two texts the prompt is built from.
- SHA-256, `get_api_key` and the `.env` loading are not modelled. The digest is the opaque parameter `digest`, and reading the environment is I/O.
- The floating-point numerics of cosine similarity and its rounding are not modelled. `cosPct` returns the score already in hundredths.
- Similarity.RankCandidates: cosine similarity raises `ValueError` when the two embeddings differ in length. The model does not include that error, because `cosPct` is total.
- Similarity.RankCandidates: the order of tied rows is left open because pandas' default quicksort is not stable. The contract is a sorted permutation, which is all the source guarantees.
- The chat service is modelled as a function `ask` of the job text and the resume text sent. Within one run the model therefore answers a repeated request the same way; the real service samples at temperature 0.3 and may answer a retry differently. `SummaryGenerator.FailureIsNotCached` takes two service functions to cover a retry that succeeds.
- Concurrency is not modelled. The code has none.
