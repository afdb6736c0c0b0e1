/** The two helpers of `utils.py` the pipeline uses: the whitespace token
    count and the cache key of a (job, resume) pair. */
module Utils {
  import opened Text

  /** `count_tokens`: the number of whitespace-separated words of `text`,
      which is the number of maximal non-whitespace runs in it. */
  function CountTokens(text: string): (n: nat)
    ensures n == RunStarts(text, true)
  {
    SplitCountsRuns(text);
    |Split(text)|
  }

  /** Text with nothing but whitespace has no tokens. */
  lemma CountTokensOfSpace(text: string)
    requires AllSpace(text)
    ensures CountTokens(text) == 0
  {
    RunStartsOfSpace(text, true);
  }

  /** Leading whitespace does not change the count. */
  lemma CountTokensLeadingSpace(ws: string, text: string)
    requires AllSpace(ws)
    ensures CountTokens(ws + text) == CountTokens(text)
  {
    RunStartsAppend(ws, text, true);
    RunStartsOfSpace(ws, true);
  }

  /** Trailing whitespace does not change the count. */
  lemma CountTokensTrailingSpace(text: string, ws: string)
    requires AllSpace(ws)
    ensures CountTokens(text + ws) == CountTokens(text)
  {
    RunStartsAppend(text, ws, true);
    RunStartsOfSpace(ws, EndsAfterSpace(text, true));
  }

  /** Any non-empty gap of whitespace counts like a single space, so
      repeated whitespace does not change the count. */
  lemma CountTokensGap(a: string, ws: string, b: string)
    requires AllSpace(ws) && |ws| > 0
    ensures CountTokens(a + ws + b) == CountTokens(a + " " + b)
  {
    var e := EndsAfterSpace(a, true);
    assert a + ws + b == a + (ws + b);
    assert a + " " + b == a + (" " + b);
    RunStartsAppend(a, ws + b, true);
    RunStartsAppend(a, " " + b, true);
    RunStartsAppend(ws, b, e);
    RunStartsAppend(" ", b, e);
    RunStartsOfSpace(ws, e);
    RunStartsOfSpace(" ", e);
  }

  /** `hash_pair`: the digest of the job text immediately followed by the
      resume text, with no separator. The digest itself (SHA-256 in hex) is
      the parameter `digest`. */
  function HashPair(digest: string -> string, job: string, resume: string): string {
    digest(job + resume)
  }

  /** The key sees only the concatenation: pairs that concatenate to the
      same text share a key, whatever the digest. */
  lemma HashPairSeesConcatenation(digest: string -> string, job1: string, resume1: string,
                                  job2: string, resume2: string)
    requires job1 + resume1 == job2 + resume2
    ensures HashPair(digest, job1, resume1) == HashPair(digest, job2, resume2)
  {
  }

  /** For example ("ab", "c") and ("a", "bc") share a key. */
  lemma HashPairCollision(digest: string -> string)
    ensures HashPair(digest, "ab", "c") == HashPair(digest, "a", "bc")
  {
    assert "ab" + "c" == "a" + "bc";
  }

  /** For one job text and a collision-free digest, different resumes get
      different keys. */
  lemma HashPairSeparatesResumes(digest: string -> string, job: string, resume1: string, resume2: string)
    requires forall x, y :: digest(x) == digest(y) ==> x == y
    requires HashPair(digest, job, resume1) == HashPair(digest, job, resume2)
    ensures resume1 == resume2
  {
    assert (job + resume1)[|job|..] == resume1;
    assert (job + resume2)[|job|..] == resume2;
  }
}
