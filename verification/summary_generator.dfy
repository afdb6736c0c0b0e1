/** `generate_summary_gpt35`: the fit summary and penalty factor of one
    resume for one job, memoised in a session cache keyed by `hash_pair`.

    The chat-completion service is the parameter `ask`, applied to the job
    text and the resume text actually sent (the prompt is built from those
    two). Because the model is pure, a call to the service is made visible
    by the `calls` count of the result, and the cache comes back as part of
    the result instead of being updated in place. */
module SummaryGenerator {
  import opened Wrappers
  import opened Text
  import opened Utils

  /** Resumes with more words than this are cut down before summarising. */
  const MaxTokensInput: nat := 3500

  /** Penalty factors in tenths: 10 is 1.0 (no penalty), 8 is 0.8 (the
      resume was truncated), 0 is 0.0 (unreadable or not summarised). */
  const FullCredit: int := 10
  const TruncatedCredit: int := 8
  const NoCredit: int := 0

  const UnreadableSummary: string := "Unable to read resume. This candidate could not be evaluated."
  const TruncationNote: string := "Resume exceeded input limit. Analysis performed on truncated content.\n\n"
  const ErrorPrefix: string := "Error generating summary: "

  predicate ValidPenalty(p: int) {
    p == NoCredit || p == TruncatedCredit || p == FullCredit
  }

  /** What the chat-completion service answers: the message content, or the
      text of the exception it raised. */
  datatype Reply = Answer(content: string) | Raised(message: string)

  /** The resume text sent to the service, its penalty factor and the note
      put in front of a fresh summary. */
  datatype Prepared = Prepared(text: string, penalty: int, note: string)

  datatype SummaryResult = SummaryResult(summary: string, penalty: int, cache: map<string, string>, calls: nat)

  /** Every entry of `before` is still in `after` with the same text. */
  predicate CacheExtends(before: map<string, string>, after: map<string, string>) {
    forall k :: k in before ==> k in after && after[k] == before[k]
  }

  /** The truncation step: a resume of more than `MaxTokensInput` words is
      replaced by its first `MaxTokensInput` words joined by single spaces
      and loses a fifth of its credit; any other resume is kept as it is. */
  function Prepare(resume: string): (p: Prepared)
    ensures ValidPenalty(p.penalty) && p.penalty != NoCredit
    ensures CountTokens(resume) <= MaxTokensInput ==> p == Prepared(resume, FullCredit, "")
    ensures CountTokens(resume) > MaxTokensInput ==>
      && Split(p.text) == Split(resume)[..MaxTokensInput]
      && JoinSpace(Split(p.text)) == p.text
      && CountTokens(p.text) == MaxTokensInput
      && p.penalty == TruncatedCredit
      && p.note == TruncationNote
  {
    if CountTokens(resume) > MaxTokensInput then
      var kept := Split(resume)[..MaxTokensInput];
      SplitJoinSpace(kept);
      Prepared(JoinSpace(kept), TruncatedCredit, TruncationNote)
    else
      Prepared(resume, FullCredit, "")
  }

  /** The cache key of a readable resume: taken over the text actually sent,
      so over the truncated text when the resume was truncated. */
  function CacheKey(digest: string -> string, job: string, resume: string): string {
    HashPair(digest, job, Prepare(resume).text)
  }

  /** `generate_summary_gpt35(job, resume, cache)`. */
  function GenerateSummary(job: string, resume: Option<string>, cache: map<string, string>,
                           digest: string -> string, ask: (string, string) -> Reply): (r: SummaryResult)
    ensures ValidPenalty(r.penalty)
    ensures CacheExtends(cache, r.cache)
    ensures r.calls <= 1
    // An unreadable resume: fixed text, no credit, no cache traffic.
    ensures resume.None? ==> r == SummaryResult(UnreadableSummary, NoCredit, cache, 0)
    // A hit returns the stored text without asking the service.
    ensures resume.Some? && CacheKey(digest, job, resume.value) in cache ==>
      && r.summary == cache[CacheKey(digest, job, resume.value)]
      && r.penalty == Prepare(resume.value).penalty
      && r.cache == cache
      && r.calls == 0
    // A miss asks the service once about the text actually sent.
    ensures resume.Some? && CacheKey(digest, job, resume.value) !in cache ==>
      var p := Prepare(resume.value);
      && r.calls == 1
      && match ask(job, p.text)
         case Answer(content) =>
           && r.summary == p.note + Strip(content)
           && r.penalty == p.penalty
           && r.cache == cache[CacheKey(digest, job, resume.value) := r.summary]
         case Raised(message) =>
           && r.summary == ErrorPrefix + message
           && r.penalty == NoCredit
           && r.cache == cache
  {
    match resume
    case None => SummaryResult(UnreadableSummary, NoCredit, cache, 0)
    case Some(text) =>
      var p := Prepare(text);
      var key := HashPair(digest, job, p.text);
      if key in cache then SummaryResult(cache[key], p.penalty, cache, 0)
      else
        match ask(job, p.text)
        case Answer(content) =>
          var summary := p.note + Strip(content);
          SummaryResult(summary, p.penalty, cache[key := summary], 1)
        case Raised(message) =>
          SummaryResult(ErrorPrefix + message, NoCredit, cache, 1)
  }

  /** A resume of exactly `MaxTokensInput` words is sent whole at full
      credit; one word more and it is cut to `MaxTokensInput` words at
      reduced credit. */
  lemma TruncationBoundary(exact: string, oneMore: string)
    requires CountTokens(exact) == MaxTokensInput
    requires CountTokens(oneMore) == MaxTokensInput + 1
    ensures Prepare(exact) == Prepared(exact, FullCredit, "")
    ensures CountTokens(Prepare(oneMore).text) == MaxTokensInput
    ensures Split(Prepare(oneMore).text) + [Split(oneMore)[MaxTokensInput]] == Split(oneMore)
    ensures Prepare(oneMore).penalty == TruncatedCredit
  {
    var ws := Split(oneMore);
    assert ws[..MaxTokensInput] + [ws[MaxTokensInput]] == ws;
  }

  /** Once a request has succeeded, its entry stays in every cache that
      extends the one it left, so asking again later is a hit with the same
      summary and penalty and no call to the service. */
  lemma LaterRequestIsHit(job: string, resume: string, cache: map<string, string>, later: map<string, string>,
                          digest: string -> string, ask: (string, string) -> Reply)
    requires
      var first := GenerateSummary(job, Some(resume), cache, digest, ask);
      first.penalty != NoCredit && CacheExtends(first.cache, later)
    ensures
      var first := GenerateSummary(job, Some(resume), cache, digest, ask);
      var second := GenerateSummary(job, Some(resume), later, digest, ask);
      && second.calls == 0
      && second.summary == first.summary
      && second.penalty == first.penalty
  {
    var key := CacheKey(digest, job, resume);
    var first := GenerateSummary(job, Some(resume), cache, digest, ask);
    assert key in first.cache && first.cache[key] == first.summary;
  }

  /** Asking twice about the same readable resume: unless the first request
      failed, the second is a cache hit that returns the same summary and
      penalty, keeps the cache and does not call the service, so the pair is
      summarised at most once. */
  lemma SecondRequestIsHit(job: string, resume: string, cache: map<string, string>,
                           digest: string -> string, ask: (string, string) -> Reply)
    ensures
      var first := GenerateSummary(job, Some(resume), cache, digest, ask);
      var second := GenerateSummary(job, Some(resume), first.cache, digest, ask);
      first.penalty != NoCredit ==>
        && second.calls == 0
        && second.summary == first.summary
        && second.penalty == first.penalty
        && second.cache == first.cache
        && first.calls + second.calls <= 1
  {
  }

  /** The key is taken after truncation: two long resumes that agree on
      their first `MaxTokensInput` words share a key, so once the first has
      been summarised the second is served from the cache, note included. */
  lemma TruncatedResumesShareKey(job: string, long1: string, long2: string, cache: map<string, string>,
                                 digest: string -> string, ask: (string, string) -> Reply)
    requires CountTokens(long1) > MaxTokensInput && CountTokens(long2) > MaxTokensInput
    requires Split(long1)[..MaxTokensInput] == Split(long2)[..MaxTokensInput]
    ensures CacheKey(digest, job, long1) == CacheKey(digest, job, long2)
    ensures
      var first := GenerateSummary(job, Some(long1), cache, digest, ask);
      var second := GenerateSummary(job, Some(long2), first.cache, digest, ask);
      first.penalty != NoCredit ==>
        second.calls == 0 && second.summary == first.summary && second.penalty == TruncatedCredit
  {
    var p1, p2 := Prepare(long1), Prepare(long2);
    assert p1.text == JoinSpace(Split(p1.text)) == JoinSpace(Split(p2.text)) == p2.text;
  }

  /** A failed request stores nothing, so asking again sends a new request
      to the service, which may now answer differently (`ask2`). */
  lemma FailureIsNotCached(job: string, resume: string, cache: map<string, string>,
                           digest: string -> string, ask1: (string, string) -> Reply, ask2: (string, string) -> Reply)
    requires CacheKey(digest, job, resume) !in cache
    requires ask1(job, Prepare(resume).text).Raised?
    ensures
      var first := GenerateSummary(job, Some(resume), cache, digest, ask1);
      var second := GenerateSummary(job, Some(resume), first.cache, digest, ask2);
      && first.cache == cache && first.penalty == NoCredit
      && second.calls == 1
      && (ask2(job, Prepare(resume).text).Answer? ==> second.penalty == Prepare(resume).penalty)
  {
  }
}
