/** The data flow of `run_analysis` and the upload cap of the Streamlit app.

    The embedding service is the parameter `embed` (`None` when the call
    raised); the other services are passed on to the ranking and summary
    steps. The session's summary cache goes in as `cache` and comes back
    with the result. */
module App {
  import opened Wrappers
  import opened Sorting
  import opened ResumeParser
  import opened Similarity
  import opened SummaryGenerator

  /** At most this many uploaded files are processed. */
  const MaxUploads: nat := 30

  /** An uploaded file: its name and what PDF text extraction returned. */
  datatype Upload = Upload(filename: string, extracted: Option<string>)

  /** A row of the final table: "Candidate Name", "File Name", the adjusted
      "Similarity Score" and the "Fit Summary". */
  datatype FinalRow = FinalRow(name: string, filename: string, score: int, summary: string)

  /** The final rows before sorting, the penalty factor each one got, and
      the cache and service-call count after summarising them in order. */
  datatype Adjusted = Adjusted(rows: seq<FinalRow>, penalties: seq<int>, cache: map<string, string>, calls: nat)

  /** The summary step's result for each ranked row in order, and the
      cache and service-call count after the last one. */
  datatype Walk = Walk(steps: seq<SummaryResult>, cache: map<string, string>, calls: nat)

  datatype Analysis = Analysis(rows: seq<FinalRow>, cache: map<string, string>, calls: nat)

  /** Who a row is about. */
  datatype Candidate = Candidate(name: string, filename: string)

  function FinalScore(r: FinalRow): int {
    r.score
  }

  function FinalCandidate(r: FinalRow): Candidate {
    Candidate(r.name, r.filename)
  }

  function RowCandidate(r: Row): Candidate {
    Candidate(r.name, r.filename)
  }

  function ParsedCandidate(p: ParsedResume): Candidate {
    Candidate(p.name, p.filename)
  }

  // ---------------------------------------------------------------------------
  // Uploads

  /** The uploads that are processed: the first `MaxUploads`, in order. */
  function CapUploads<T>(files: seq<T>): (kept: seq<T>)
    ensures |kept| == if |files| > MaxUploads then MaxUploads else |files|
    ensures kept == files[..|kept|]
  {
    if |files| > MaxUploads then files[..MaxUploads] else files
  }

  /** The resume list built from the uploads: one parsed resume per kept
      upload, in upload order. */
  function ReadUploads(files: seq<Upload>, ner: string -> seq<Entity>): (parsed: seq<ParsedResume>)
    ensures |parsed| == |CapUploads(files)|
    ensures forall i :: 0 <= i < |parsed| ==>
      parsed[i] == ParseResume(files[i].filename, files[i].extracted, ner)
  {
    var kept := CapUploads(files);
    seq(|kept|, i requires 0 <= i < |kept| => ParseResume(kept[i].filename, kept[i].extracted, ner))
  }

  // ---------------------------------------------------------------------------
  // Embeddings

  /** Step 2 for one resume: only readable text is sent to the embedder. */
  function EmbedOne(p: ParsedResume, embed: string -> Option<Embedding>): Resume {
    Resume(p.filename, p.name, p.text, if p.text.Some? then embed(p.text.value) else None)
  }

  /** Step 2: every resume gets an embedding slot, missing when its text is
      missing. */
  function EmbedResumes(parsed: seq<ParsedResume>, embed: string -> Option<Embedding>): (rs: seq<Resume>)
    ensures |rs| == |parsed|
    ensures forall i :: 0 <= i < |parsed| ==>
      && rs[i].filename == parsed[i].filename
      && rs[i].name == parsed[i].name
      && rs[i].text == parsed[i].text
    ensures forall i :: 0 <= i < |parsed| ==> rs[i].embedding.Some? ==> rs[i].text.Some?
  {
    seq(|parsed|, i requires 0 <= i < |parsed| => EmbedOne(parsed[i], embed))
  }

  /** An unreadable resume gets no embedding whatever the embedder does, so
      the embedder plays no part for it; a readable one gets what the
      embedder returns for its text. */
  lemma EmbeddingOnlyFromText(parsed: seq<ParsedResume>, embed1: string -> Option<Embedding>,
                              embed2: string -> Option<Embedding>, i: int)
    requires 0 <= i < |parsed|
    ensures parsed[i].text.None? ==>
      EmbedResumes(parsed, embed1)[i] == EmbedResumes(parsed, embed2)[i]
      && EmbedResumes(parsed, embed1)[i].embedding.None?
    ensures parsed[i].text.Some? ==>
      EmbedResumes(parsed, embed1)[i].embedding == embed1(parsed[i].text.value)
  {
  }

  // ---------------------------------------------------------------------------
  // Summaries and adjusted scores

  /** `resumes[i]` is the first resume named `filename`. */
  predicate IsFirstNamed(resumes: seq<Resume>, filename: string, i: int) {
    0 <= i < |resumes| && resumes[i].filename == filename
    && forall j :: 0 <= j < i ==> resumes[j].filename != filename
  }

  /** The text of the first resume with the given file name, or `None` when
      there is no such resume. */
  function FirstText(resumes: seq<Resume>, filename: string): (t: Option<string>)
    ensures (forall i :: 0 <= i < |resumes| ==> resumes[i].filename != filename) ==> t.None?
    ensures forall i :: IsFirstNamed(resumes, filename, i) ==> t == resumes[i].text
  {
    if |resumes| == 0 then None
    else if resumes[0].filename == filename then resumes[0].text
    else
      var t := FirstText(resumes[1..], filename);
      assert forall i :: IsFirstNamed(resumes, filename, i) ==> IsFirstNamed(resumes[1..], filename, i - 1);
      t
  }

  /** `round(similarity * penalty, 2)` in fixed point: the similarity in
      hundredths times the penalty in tenths, rounded to the nearest
      hundredth, ties to even as Python's `round` does. */
  function AdjustScore(sim: int, penalty: int): (adj: int)
    ensures -5 <= 10 * adj - sim * penalty <= 5
  {
    var n := sim * penalty;
    var q, rem := n / 10, n % 10;
    if rem < 5 then q
    else if rem > 5 then q + 1
    else if q % 2 == 0 then q
    else q + 1
  }

  /** Full credit keeps the score, no credit zeroes it, and reduced credit
      lowers a non-negative score without making it negative. */
  lemma AdjustScoreByPenalty(sim: int)
    ensures AdjustScore(sim, FullCredit) == sim
    ensures AdjustScore(sim, NoCredit) == 0
    ensures sim >= 0 ==> 0 <= AdjustScore(sim, TruncatedCredit) <= sim
  {
  }

  /** A penalty never reverses the order of two similarity scores. */
  lemma AdjustScoreMonotonic(sim1: int, sim2: int, penalty: int)
    requires sim1 <= sim2
    requires ValidPenalty(penalty)
    ensures AdjustScore(sim1, penalty) <= AdjustScore(sim2, penalty)
  {
    if penalty == TruncatedCredit {
      assert sim1 * penalty <= sim2 * penalty;
    }
  }

  /** Step 4, the calls to the summary step: walks the ranked rows in
      order, looks up each row's resume text by file name and summarises it,
      threading the cache from one row to the next. Each step's result
      carries the cache as that step left it. */
  function WalkRows(job: string, ranked: seq<Row>, resumes: seq<Resume>, cache: map<string, string>,
                    digest: string -> string, ask: (string, string) -> Reply): (w: Walk)
    ensures |w.steps| == |ranked|
    ensures forall i :: 0 <= i < |ranked| ==> ValidPenalty(w.steps[i].penalty)
    ensures w.cache == if |ranked| == 0 then cache else w.steps[|ranked| - 1].cache
    ensures CacheExtends(cache, w.cache)
    ensures w.calls <= |ranked|
  {
    if |ranked| == 0 then Walk([], cache, 0)
    else
      var s := GenerateSummary(job, FirstText(resumes, ranked[0].filename), cache, digest, ask);
      var rest := WalkRows(job, ranked[1..], resumes, s.cache, digest, ask);
      Walk([s] + rest.steps, rest.cache, s.calls + rest.calls)
  }

  /** The cache a row's summary step starts from: the one the previous row
      left, or the session cache for the first row. */
  function CacheBefore(w: Walk, cache: map<string, string>, i: nat): map<string, string>
    requires i <= |w.steps|
  {
    if i == 0 then cache else w.steps[i - 1].cache
  }

  /** The i-th step of the walk is the summary step for the i-th ranked
      row's looked-up text, run on the cache the rows before it left. */
  lemma {:induction false} WalkStepAt(job: string, ranked: seq<Row>, resumes: seq<Resume>, cache: map<string, string>,
                                      digest: string -> string, ask: (string, string) -> Reply, i: nat)
    requires i < |ranked|
    ensures
      var w := WalkRows(job, ranked, resumes, cache, digest, ask);
      w.steps[i] == GenerateSummary(job, FirstText(resumes, ranked[i].filename), CacheBefore(w, cache, i), digest, ask)
    decreases i
  {
    var w := WalkRows(job, ranked, resumes, cache, digest, ask);
    var s0 := GenerateSummary(job, FirstText(resumes, ranked[0].filename), cache, digest, ask);
    var tail := ranked[1..];
    var rest := WalkRows(job, tail, resumes, s0.cache, digest, ask);
    assert w.steps == [s0] + rest.steps;
    if i > 0 {
      assert CacheBefore(w, cache, i) == CacheBefore(rest, s0.cache, i - 1) by {
        if i == 1 {
          assert w.steps[0] == s0;
        } else {
          assert w.steps[i - 1] == rest.steps[i - 2];
        }
      }
      assert w.steps[i] == rest.steps[i - 1];
      assert tail[i - 1] == ranked[i];
      WalkStepAt(job, tail, resumes, s0.cache, digest, ask, i - 1);
    }
  }

  /** Entries stored by a step survive every later step: the cache a later
      row starts from extends the cache an earlier row left. */
  lemma {:induction false} WalkCacheGrows(job: string, ranked: seq<Row>, resumes: seq<Resume>, cache: map<string, string>,
                                          digest: string -> string, ask: (string, string) -> Reply, i: nat, j: nat)
    requires i < j <= |ranked|
    ensures
      var w := WalkRows(job, ranked, resumes, cache, digest, ask);
      CacheExtends(w.steps[i].cache, CacheBefore(w, cache, j))
    decreases j - i
  {
    var w := WalkRows(job, ranked, resumes, cache, digest, ask);
    if j > i + 1 {
      WalkCacheGrows(job, ranked, resumes, cache, digest, ask, i, j - 1);
      WalkStepAt(job, ranked, resumes, cache, digest, ask, j - 1);
      assert CacheExtends(CacheBefore(w, cache, j - 1), CacheBefore(w, cache, j));
    }
  }

  /** Within one run, a row whose looked-up text was already summarised by
      an earlier row is a cache hit: no request, the earlier summary and the
      same penalty. This is the case of two rows sharing a file name. */
  lemma RepeatInRunIsHit(job: string, ranked: seq<Row>, resumes: seq<Resume>, cache: map<string, string>,
                         digest: string -> string, ask: (string, string) -> Reply, i: nat, j: nat)
    requires i < j < |ranked|
    requires FirstText(resumes, ranked[i].filename) == FirstText(resumes, ranked[j].filename)
    ensures
      var w := WalkRows(job, ranked, resumes, cache, digest, ask);
      w.steps[i].penalty != NoCredit ==>
        && w.steps[j].calls == 0
        && w.steps[j].summary == w.steps[i].summary
        && w.steps[j].penalty == w.steps[i].penalty
  {
    var w := WalkRows(job, ranked, resumes, cache, digest, ask);
    WalkStepAt(job, ranked, resumes, cache, digest, ask, i);
    WalkStepAt(job, ranked, resumes, cache, digest, ask, j);
    WalkCacheGrows(job, ranked, resumes, cache, digest, ask, i, j);
    var text := FirstText(resumes, ranked[i].filename);
    if w.steps[i].penalty != NoCredit {
      LaterRequestIsHit(job, text.value, CacheBefore(w, cache, i), CacheBefore(w, cache, j), digest, ask);
    }
  }

  /** Step 4: each ranked row becomes a final row with its summary, its
      similarity scaled by its penalty factor. */
  function SummarizeRows(job: string, ranked: seq<Row>, resumes: seq<Resume>, cache: map<string, string>,
                         digest: string -> string, ask: (string, string) -> Reply): (a: Adjusted)
    ensures |a.rows| == |ranked| && |a.penalties| == |ranked|
    ensures forall i :: 0 <= i < |ranked| ==>
      && a.rows[i].name == ranked[i].name
      && a.rows[i].filename == ranked[i].filename
      && ValidPenalty(a.penalties[i])
      && a.rows[i].score == AdjustScore(ranked[i].score, a.penalties[i])
    ensures CacheExtends(cache, a.cache)
    ensures a.calls <= |ranked|
  {
    var w := WalkRows(job, ranked, resumes, cache, digest, ask);
    Adjusted(seq(|ranked|, i requires 0 <= i < |ranked| =>
               FinalRow(ranked[i].name, ranked[i].filename, AdjustScore(ranked[i].score, w.steps[i].penalty), w.steps[i].summary)),
             seq(|ranked|, i requires 0 <= i < |ranked| => w.steps[i].penalty),
             w.cache, w.calls)
  }

  /** Summarising keeps every row's candidate in place: the final rows
      list the same (name, file name) pairs as the ranked rows, in the same
      order. */
  lemma SummarizeRowsKeepsCandidates(job: string, ranked: seq<Row>, resumes: seq<Resume>, cache: map<string, string>,
                                     digest: string -> string, ask: (string, string) -> Reply)
    ensures Column(SummarizeRows(job, ranked, resumes, cache, digest, ask).rows, FinalCandidate) == Column(ranked, RowCandidate)
  {
  }

  /** The summary and penalty of the i-th final row are what the summary
      step gives for that row's looked-up text, with the cache left by the
      rows before it. */
  lemma SummarizeRowsAt(job: string, ranked: seq<Row>, resumes: seq<Resume>, cache: map<string, string>,
                        digest: string -> string, ask: (string, string) -> Reply, i: nat)
    requires i < |ranked|
    ensures
      var a := SummarizeRows(job, ranked, resumes, cache, digest, ask);
      var w := WalkRows(job, ranked, resumes, cache, digest, ask);
      var s := GenerateSummary(job, FirstText(resumes, ranked[i].filename), CacheBefore(w, cache, i), digest, ask);
      a.rows[i].summary == s.summary && a.penalties[i] == s.penalty
  {
    WalkStepAt(job, ranked, resumes, cache, digest, ask, i);
  }

  // ---------------------------------------------------------------------------
  // run_analysis

  /** `run_analysis()` on the parsed resumes and the job description. */
  function RunAnalysis(job: string, parsed: seq<ParsedResume>, cache: map<string, string>,
                       embed: string -> Option<Embedding>, cosPct: (Embedding, Embedding) -> int,
                       digest: string -> string, ask: (string, string) -> Reply): (r: Result<Analysis, RankError>)
    ensures r.Failure? <==>
      || |parsed| == 0
      || (embed(job).None? && exists i :: 0 <= i < |parsed| && parsed[i].text.Some? && embed(parsed[i].text.value).Some?)
    ensures r.Success? ==>
      && |r.value.rows| == |parsed|
      && SortedDesc(r.value.rows, FinalScore)
      && CacheExtends(cache, r.value.cache)
      && r.value.calls <= |parsed|
    // The final table is the summarised ranking, re-sorted.
    ensures r.Success? ==>
      var resumes := EmbedResumes(parsed, embed);
      && RankCandidates(embed(job), resumes, cosPct).Success?
      && var adjusted := SummarizeRows(job, RankCandidates(embed(job), resumes, cosPct).value, resumes, cache, digest, ask);
         && multiset(r.value.rows) == multiset(adjusted.rows)
         && r.value.cache == adjusted.cache
  {
    var resumes := EmbedResumes(parsed, embed);
    assert AnyScorable(resumes) <==>
      exists i :: 0 <= i < |parsed| && parsed[i].text.Some? && embed(parsed[i].text.value).Some? by {
      if AnyScorable(resumes) {
        var i :| 0 <= i < |resumes| && Scorable(resumes[i]);
        assert resumes[i] == EmbedOne(parsed[i], embed);
      }
    }
    match RankCandidates(embed(job), resumes, cosPct)
    case Failure(e) => Failure(e)
    case Success(ranked) =>
      var adjusted := SummarizeRows(job, ranked, resumes, cache, digest, ask);
      Success(Analysis(SortDesc(adjusted.rows, FinalScore), adjusted.cache, adjusted.calls))
  }

  // ---------------------------------------------------------------------------
  // Properties of a whole run

  predicate UniqueFilenames(resumes: seq<Resume>) {
    forall i, j :: 0 <= i < j < |resumes| ==> resumes[i].filename != resumes[j].filename
  }

  /** With distinct file names, the text looked up for a resume's row is
      that resume's own text. */
  lemma LookupFindsOwnText(resumes: seq<Resume>, i: int)
    requires UniqueFilenames(resumes)
    requires 0 <= i < |resumes|
    ensures FirstText(resumes, resumes[i].filename) == resumes[i].text
  {
    assert IsFirstNamed(resumes, resumes[i].filename, i);
  }

  /** With a repeated file name the lookup stops at the first resume of that
      name, so the second resume's row is summarised and penalised from the
      first resume's text. */
  lemma RepeatedFilenameBorrowsText()
    ensures var resumes := [Resume("cv.pdf", "Ann", Some("first text"), None),
                            Resume("cv.pdf", "Bob", Some("second text"), None)];
      FirstText(resumes, resumes[1].filename) == Some("first text")
  {
    var resumes := [Resume("cv.pdf", "Ann", Some("first text"), None),
                    Resume("cv.pdf", "Bob", Some("second text"), None)];
    assert IsFirstNamed(resumes, "cv.pdf", 0);
  }

  /** No candidate is lost or invented: the final table lists exactly the
      (name, file name) pairs of the resumes, each as often as it occurs. */
  lemma NoCandidateLost(job: string, parsed: seq<ParsedResume>, cache: map<string, string>,
                        embed: string -> Option<Embedding>, cosPct: (Embedding, Embedding) -> int,
                        digest: string -> string, ask: (string, string) -> Reply)
    requires RunAnalysis(job, parsed, cache, embed, cosPct, digest, ask).Success?
    ensures multiset(Column(RunAnalysis(job, parsed, cache, embed, cosPct, digest, ask).value.rows, FinalCandidate))
         == multiset(Column(parsed, ParsedCandidate))
  {
    RunAnalysisSteps(job, parsed, cache, embed, cosPct, digest, ask);
    var resumes := EmbedResumes(parsed, embed);
    var ranked := RankCandidates(embed(job), resumes, cosPct).value;
    var adjusted := SummarizeRows(job, ranked, resumes, cache, digest, ask);
    var final := SortDesc(adjusted.rows, FinalScore);
    var unsorted := UnsortedRows(embed(job), resumes, cosPct);
    assert multiset(Column(final, FinalCandidate)) == multiset(Column(ranked, RowCandidate)) by {
      ColumnOfPermutation(final, adjusted.rows, FinalCandidate);
      SummarizeRowsKeepsCandidates(job, ranked, resumes, cache, digest, ask);
    }
    assert multiset(Column(ranked, RowCandidate)) == multiset(Column(parsed, ParsedCandidate)) by {
      ColumnOfPermutation(ranked, unsorted, RowCandidate);
      assert Column(unsorted, RowCandidate) == Column(parsed, ParsedCandidate);
    }
  }

  /** A successful run is the adjusted rows of a successful ranking, sorted. */
  lemma RunAnalysisSteps(job: string, parsed: seq<ParsedResume>, cache: map<string, string>,
                         embed: string -> Option<Embedding>, cosPct: (Embedding, Embedding) -> int,
                         digest: string -> string, ask: (string, string) -> Reply)
    requires RunAnalysis(job, parsed, cache, embed, cosPct, digest, ask).Success?
    ensures var resumes := EmbedResumes(parsed, embed);
      && RankCandidates(embed(job), resumes, cosPct).Success?
      && var ranked := RankCandidates(embed(job), resumes, cosPct).value;
         RunAnalysis(job, parsed, cache, embed, cosPct, digest, ask).value.rows
           == SortDesc(SummarizeRows(job, ranked, resumes, cache, digest, ask).rows, FinalScore)
  {
  }

  /** Some row of `rows` is about `p`, has adjusted score zero and, when
      asked for, carries the unreadable-resume summary. */
  predicate ListedAtZero(rows: seq<FinalRow>, p: ParsedResume, withSentinel: bool) {
    exists k :: 0 <= k < |rows| && rows[k].name == p.name && rows[k].filename == p.filename
      && rows[k].score == 0 && (withSentinel ==> rows[k].summary == UnreadableSummary)
  }

  /** An unreadable resume ends up in the final table with adjusted score
      zero; when file names are distinct its summary is the fixed
      unreadable-resume text. */
  lemma UnreadableRanksAtZero(job: string, parsed: seq<ParsedResume>, cache: map<string, string>,
                              embed: string -> Option<Embedding>, cosPct: (Embedding, Embedding) -> int,
                              digest: string -> string, ask: (string, string) -> Reply, j: int)
    requires RunAnalysis(job, parsed, cache, embed, cosPct, digest, ask).Success?
    requires 0 <= j < |parsed| && parsed[j].text.None?
    ensures ListedAtZero(RunAnalysis(job, parsed, cache, embed, cosPct, digest, ask).value.rows, parsed[j],
                         UniqueFilenames(EmbedResumes(parsed, embed)))
  {
    RunAnalysisSteps(job, parsed, cache, embed, cosPct, digest, ask);
    var resumes := EmbedResumes(parsed, embed);
    var ranked := RankCandidates(embed(job), resumes, cosPct).value;
    var adjusted := SummarizeRows(job, ranked, resumes, cache, digest, ask);
    EveryResumeRanked(embed(job), resumes, cosPct, j);
    var m := UnreadableRowAt(job, resumes, ranked, cache, digest, ask, j);
    ListedAfterSort(adjusted.rows, m, parsed[j], UniqueFilenames(resumes));
  }

  /** Sorting keeps a row that lists `p` at zero. */
  lemma ListedAfterSort(rows: seq<FinalRow>, m: int, p: ParsedResume, withSentinel: bool)
    requires 0 <= m < |rows|
    requires rows[m].name == p.name && rows[m].filename == p.filename && rows[m].score == 0
    requires withSentinel ==> rows[m].summary == UnreadableSummary
    ensures ListedAtZero(SortDesc(rows, FinalScore), p, withSentinel)
  {
    var sorted := SortDesc(rows, FinalScore);
    assert rows[m] in multiset(sorted) by {
      assert rows[m] in multiset(rows);
    }
    var k :| 0 <= k < |sorted| && sorted[k] == rows[m];
    assert sorted[k].name == p.name && sorted[k].filename == p.filename && sorted[k].score == 0;
  }

  /** The position in `ranked` of an unreadable resume's row, where the
      adjusted row scores zero and, with distinct file names, carries the
      unreadable-resume summary. */
  lemma UnreadableRowAt(job: string, resumes: seq<Resume>, ranked: seq<Row>, cache: map<string, string>,
                        digest: string -> string, ask: (string, string) -> Reply, j: int)
    returns (m: int)
    requires 0 <= j < |resumes| && resumes[j].text.None?
    requires Row(resumes[j].name, resumes[j].filename, 0) in ranked
    ensures 0 <= m < |ranked|
    ensures var row := SummarizeRows(job, ranked, resumes, cache, digest, ask).rows[m];
      && row.name == resumes[j].name && row.filename == resumes[j].filename && row.score == 0
      && (UniqueFilenames(resumes) ==> row.summary == UnreadableSummary)
  {
    m :| 0 <= m < |ranked| && ranked[m] == Row(resumes[j].name, resumes[j].filename, 0);
    var a := SummarizeRows(job, ranked, resumes, cache, digest, ask);
    AdjustScoreByPenalty(0);
    assert a.rows[m].score == AdjustScore(0, a.penalties[m]) == 0 by {
      if a.penalties[m] == TruncatedCredit {
        assert 0 * a.penalties[m] == 0;
      }
    }
    if UniqueFilenames(resumes) {
      LookupFindsOwnText(resumes, j);
      SummarizeRowsAt(job, ranked, resumes, cache, digest, ask, m);
    }
  }
}
