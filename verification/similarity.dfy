/** `rank_candidates`: one row per resume with its similarity score, sorted
    by descending score.

    Scores are fixed-point integers in hundredths of a percent (100.00 is
    10000). The cosine similarity of two embeddings, times 100 and rounded
    to two decimals, is the parameter `cosPct`: it is only ever applied to
    the job embedding and a resume embedding that are both present. */
module Similarity {
  import opened Wrappers
  import opened Sorting

  type Embedding = seq<real>

  /** One entry of the resume list: file name, candidate name, extracted
      text and embedding, either of the last two possibly missing. */
  datatype Resume = Resume(filename: string, name: string, text: Option<string>, embedding: Option<Embedding>)

  /** A ranking row: "Candidate Name", "File Name", "Similarity Score". */
  datatype Row = Row(name: string, filename: string, score: int)

  /** Why ranking raises instead of returning a table: a scorable resume
      met a missing job embedding (cosine similarity fails on it), or there
      were no resumes at all (sorting a table without columns fails). */
  datatype RankError = MissingJobEmbedding | NoRows

  /** A resume whose score comes from cosine similarity; every other resume
      scores zero. */
  predicate Scorable(r: Resume) {
    r.embedding.Some? && r.text.Some?
  }

  predicate AnyScorable(resumes: seq<Resume>) {
    exists i :: 0 <= i < |resumes| && Scorable(resumes[i])
  }

  function ScoreOf(row: Row): int {
    row.score
  }

  /** The row built for one resume, before sorting. */
  function RowFor(job: Option<Embedding>, r: Resume, cosPct: (Embedding, Embedding) -> int): Row {
    Row(r.name, r.filename, if Scorable(r) && job.Some? then cosPct(job.value, r.embedding.value) else 0)
  }

  /** The rows in input order, before sorting. */
  function UnsortedRows(job: Option<Embedding>, resumes: seq<Resume>, cosPct: (Embedding, Embedding) -> int): (rows: seq<Row>)
    ensures |rows| == |resumes|
    ensures forall i :: 0 <= i < |resumes| ==> rows[i] == RowFor(job, resumes[i], cosPct)
  {
    seq(|resumes|, i requires 0 <= i < |resumes| => RowFor(job, resumes[i], cosPct))
  }

  /** `rank_candidates(job_embedding, resumes_data)`. */
  function RankCandidates(job: Option<Embedding>, resumes: seq<Resume>, cosPct: (Embedding, Embedding) -> int)
    : (r: Result<seq<Row>, RankError>)
    ensures r.Failure? <==> |resumes| == 0 || (job.None? && AnyScorable(resumes))
    ensures r.Success? ==>
      && |r.value| == |resumes|
      && SortedDesc(r.value, ScoreOf)
      && multiset(r.value) == multiset(UnsortedRows(job, resumes, cosPct))
  {
    if job.None? && AnyScorable(resumes) then Failure(MissingJobEmbedding)
    else if |resumes| == 0 then Failure(NoRows)
    else Success(SortDesc(UnsortedRows(job, resumes, cosPct), ScoreOf))
  }

  /** Every resume has its row in the ranking, under its own name and file
      name: score zero when its embedding or text is missing, otherwise the
      cosine score against the job embedding. */
  lemma EveryResumeRanked(job: Option<Embedding>, resumes: seq<Resume>, cosPct: (Embedding, Embedding) -> int, i: int)
    requires 0 <= i < |resumes|
    requires RankCandidates(job, resumes, cosPct).Success?
    ensures var ranked := RankCandidates(job, resumes, cosPct).value;
      && (!Scorable(resumes[i]) ==> Row(resumes[i].name, resumes[i].filename, 0) in ranked)
      && (Scorable(resumes[i]) ==>
            job.Some? && Row(resumes[i].name, resumes[i].filename, cosPct(job.value, resumes[i].embedding.value)) in ranked)
  {
    var ranked := RankCandidates(job, resumes, cosPct).value;
    var rows := UnsortedRows(job, resumes, cosPct);
    assert rows[i] in multiset(rows);
  }

  /** Every ranked row is the row of some resume. */
  lemma RankedRowsComeFromResumes(job: Option<Embedding>, resumes: seq<Resume>, cosPct: (Embedding, Embedding) -> int, k: int)
    requires RankCandidates(job, resumes, cosPct).Success?
    requires 0 <= k < |RankCandidates(job, resumes, cosPct).value|
    ensures exists i :: 0 <= i < |resumes| && RankCandidates(job, resumes, cosPct).value[k] == RowFor(job, resumes[i], cosPct)
  {
    var ranked := RankCandidates(job, resumes, cosPct).value;
    var rows := UnsortedRows(job, resumes, cosPct);
    assert ranked[k] in multiset(rows);
    var i :| 0 <= i < |rows| && rows[i] == ranked[k];
  }

  /** The score column of the ranking does not depend on how ties are
      ordered: any sorted arrangement of the same rows has the same scores. */
  lemma ScoreColumnDetermined(job: Option<Embedding>, resumes: seq<Resume>, cosPct: (Embedding, Embedding) -> int,
                              other: seq<Row>)
    requires RankCandidates(job, resumes, cosPct).Success?
    requires SortedDesc(other, ScoreOf)
    requires multiset(other) == multiset(UnsortedRows(job, resumes, cosPct))
    ensures Column(other, ScoreOf) == Column(RankCandidates(job, resumes, cosPct).value, ScoreOf)
  {
    SortedPermutationsAgreeOnKey(other, RankCandidates(job, resumes, cosPct).value, ScoreOf);
  }
}
