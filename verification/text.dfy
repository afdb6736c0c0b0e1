/** The Python string built-ins the pipeline relies on: `str.isspace`,
    `str.split()` with no argument, `" ".join`, `str.strip()` and
    `str.split(sep)` with a one-character separator. */
module Text {

  /** A character `str.isspace` accepts: the separators `str.split()` and
      `str.strip()` use when called without arguments. */
  predicate IsSpace(c: char) {
    var n := c as int;
    || (0x09 <= n <= 0x0D) || (0x1C <= n <= 0x20) || n == 0x85 || n == 0xA0
    || n == 0x1680 || (0x2000 <= n <= 0x200A) || n == 0x2028 || n == 0x2029
    || n == 0x202F || n == 0x205F || n == 0x3000
  }

  predicate AllSpace(s: string) {
    forall i :: 0 <= i < |s| ==> IsSpace(s[i])
  }

  predicate NoSpace(s: string) {
    forall i :: 0 <= i < |s| ==> !IsSpace(s[i])
  }

  /** A word as `str.split()` yields it: non-empty and free of whitespace. */
  predicate IsWord(w: string) {
    |w| > 0 && NoSpace(w)
  }

  predicate AllWords(ws: seq<string>) {
    forall i :: 0 <= i < |ws| ==> IsWord(ws[i])
  }

  // ---------------------------------------------------------------------------
  // str.split() with no separator

  /** Length of the run of non-whitespace characters at the start of `s`. */
  function RunLength(s: string): (k: nat)
    ensures k <= |s|
    ensures NoSpace(s[..k])
    ensures k == |s| || IsSpace(s[k])
  {
    if |s| == 0 || IsSpace(s[0]) then 0
    else
      var k := 1 + RunLength(s[1..]);
      assert forall i :: 1 <= i < k ==> s[i] == s[1..][i - 1];
      k
  }

  /** `s.split()`: the maximal runs of non-whitespace characters, in order. */
  function Split(s: string): (ws: seq<string>)
    ensures AllWords(ws)
    decreases |s|
  {
    if |s| == 0 then []
    else if IsSpace(s[0]) then Split(s[1..])
    else
      var k := RunLength(s);
      [s[..k]] + Split(s[k..])
  }

  /** An independent count of the words of `s`: the positions holding a
      non-whitespace character that follows whitespace, or that starts the
      text when `afterSpace` holds. */
  function RunStarts(s: string, afterSpace: bool): nat {
    if |s| == 0 then 0
    else (if afterSpace && !IsSpace(s[0]) then 1 else 0) + RunStarts(s[1..], IsSpace(s[0]))
  }

  /** Whether the position just after `s` follows whitespace, given that the
      position before `s` does exactly when `afterSpace` holds. */
  function EndsAfterSpace(s: string, afterSpace: bool): bool {
    if |s| == 0 then afterSpace else IsSpace(s[|s| - 1])
  }

  /** Inside a word, no new word starts before the word ends. */
  lemma {:induction false} RunStartsInsideWord(s: string)
    ensures RunStarts(s, false) == RunStarts(s[RunLength(s)..], true)
    decreases |s|
  {
    if |s| == 0 || IsSpace(s[0]) {
    } else {
      RunStartsInsideWord(s[1..]);
      assert s[1..][RunLength(s[1..])..] == s[RunLength(s)..];
    }
  }

  /** `str.split()` returns one word per maximal non-whitespace run. */
  lemma {:induction false} SplitCountsRuns(s: string)
    ensures |Split(s)| == RunStarts(s, true)
    decreases |s|
  {
    if |s| == 0 {
    } else if IsSpace(s[0]) {
      SplitCountsRuns(s[1..]);
    } else {
      var k := RunLength(s);
      SplitCountsRuns(s[k..]);
      RunStartsInsideWord(s[1..]);
      assert s[1..][RunLength(s[1..])..] == s[k..];
    }
  }

  /** Counting runs over a concatenation counts each part, the second one
      starting in the state the first one ends in. */
  lemma {:induction false} RunStartsAppend(a: string, b: string, afterSpace: bool)
    ensures RunStarts(a + b, afterSpace)
         == RunStarts(a, afterSpace) + RunStarts(b, EndsAfterSpace(a, afterSpace))
    decreases |a|
  {
    if |a| == 0 {
      assert a + b == b;
    } else {
      assert (a + b)[1..] == a[1..] + b;
      RunStartsAppend(a[1..], b, IsSpace(a[0]));
      assert EndsAfterSpace(a[1..], IsSpace(a[0])) == EndsAfterSpace(a, afterSpace);
    }
  }

  /** Whitespace starts no word, and leaves the text "after whitespace". */
  lemma {:induction false} RunStartsOfSpace(ws: string, afterSpace: bool)
    requires AllSpace(ws)
    ensures RunStarts(ws, afterSpace) == 0
    ensures EndsAfterSpace(ws, afterSpace) == (afterSpace || |ws| > 0)
    decreases |ws|
  {
    if |ws| > 0 {
      RunStartsOfSpace(ws[1..], true);
    }
  }

  /** Whitespace alone splits into no words. */
  lemma {:induction false} SplitOfSpace(g: string)
    requires AllSpace(g)
    ensures Split(g) == []
    decreases |g|
  {
    if |g| > 0 {
      SplitOfSpace(g[1..]);
    }
  }

  /** A single word splits into itself. */
  lemma SplitOfWord(w: string)
    requires IsWord(w)
    ensures Split(w) == [w]
  {
    SplitAfterWord(w, "");
    assert w + "" == w;
  }

  /** Leading whitespace is skipped. */
  lemma {:induction false} SplitSkipsSpace(g: string, b: string)
    requires AllSpace(g)
    ensures Split(g + b) == Split(b)
    decreases |g|
  {
    if |g| == 0 {
      assert g + b == b;
    } else {
      assert (g + b)[1..] == g[1..] + b;
      SplitSkipsSpace(g[1..], b);
    }
  }

  /** A run of non-whitespace is not lengthened by text that starts with
      whitespace. */
  lemma {:induction false} RunLengthAppend(a: string, t: string)
    requires |t| == 0 || IsSpace(t[0])
    ensures RunLength(a + t) == RunLength(a)
    decreases |a|
  {
    if |a| == 0 {
      assert a + t == t;
    } else if !IsSpace(a[0]) {
      assert (a + t)[1..] == a[1..] + t;
      RunLengthAppend(a[1..], t);
    }
  }

  /** Text that starts with whitespace starts a new word: the words of
      `a + t` are those of `a` followed by those of `t`. */
  lemma {:induction false} SplitBeforeSpace(a: string, t: string)
    requires |t| > 0 && IsSpace(t[0])
    ensures Split(a + t) == Split(a) + Split(t)
    decreases |a|
  {
    if |a| == 0 {
      assert a + t == t;
    } else if IsSpace(a[0]) {
      assert (a + t)[1..] == a[1..] + t;
      SplitBeforeSpace(a[1..], t);
    } else {
      var k := RunLength(a);
      RunLengthAppend(a, t);
      assert (a + t)[..k] == a[..k];
      assert (a + t)[k..] == a[k..] + t;
      SplitBeforeSpace(a[k..], t);
    }
  }

  /** A non-empty whitespace gap separates words: the words of `a + g + b`
      are the words of `a` followed by the words of `b`. Together with
      `SplitOfSpace` and `SplitOfWord` this determines `Split` on every
      text: its pieces are the maximal non-whitespace runs, in order. */
  lemma SplitAcrossGap(a: string, g: string, b: string)
    requires AllSpace(g) && |g| > 0
    ensures Split(a + g + b) == Split(a) + Split(b)
  {
    assert a + g + b == a + (g + b);
    assert (g + b)[0] == g[0];
    SplitBeforeSpace(a, g + b);
    SplitSkipsSpace(g, b);
  }

  // ---------------------------------------------------------------------------
  // " ".join

  /** `" ".join(ws)`. */
  function JoinSpace(ws: seq<string>): string {
    if |ws| == 0 then ""
    else if |ws| == 1 then ws[0]
    else ws[0] + " " + JoinSpace(ws[1..])
  }

  /** A word followed by whitespace (or nothing) is split off whole. */
  lemma {:induction false} SplitAfterWord(w: string, t: string)
    requires IsWord(w)
    requires |t| == 0 || IsSpace(t[0])
    ensures Split(w + t) == [w] + Split(t)
  {
    RunLengthOfWord(w, t);
    assert (w + t)[..|w|] == w;
    assert (w + t)[|w|..] == t;
  }

  lemma {:induction false} RunLengthOfWord(w: string, t: string)
    requires NoSpace(w)
    requires |t| == 0 || IsSpace(t[0])
    ensures RunLength(w + t) == |w|
    decreases |w|
  {
    if |w| > 0 {
      assert (w + t)[1..] == w[1..] + t;
      RunLengthOfWord(w[1..], t);
    } else {
      assert w + t == t;
    }
  }

  /** Splitting undoes joining: words joined by single spaces split back
      into the same words. */
  lemma {:induction false} SplitJoinSpace(ws: seq<string>)
    requires AllWords(ws)
    ensures Split(JoinSpace(ws)) == ws
    decreases |ws|
  {
    if |ws| == 1 {
      SplitAfterWord(ws[0], "");
      assert ws[0] + "" == ws[0];
    } else if |ws| > 1 {
      var rest := JoinSpace(ws[1..]);
      assert ws[0] + " " + rest == ws[0] + (" " + rest);
      SplitAfterWord(ws[0], " " + rest);
      assert (" " + rest)[1..] == rest;
      SplitJoinSpace(ws[1..]);
    }
  }

  // ---------------------------------------------------------------------------
  // str.strip()

  /** Number of whitespace characters at the start of `s`. */
  function LeadingSpace(s: string): (n: nat)
    ensures n <= |s|
    ensures AllSpace(s[..n])
    ensures n == |s| || !IsSpace(s[n])
  {
    if |s| == 0 || !IsSpace(s[0]) then 0
    else
      var n := 1 + LeadingSpace(s[1..]);
      assert forall i :: 1 <= i < n ==> s[i] == s[1..][i - 1];
      n
  }

  /** Number of whitespace characters at the end of `s`. */
  function TrailingSpace(s: string): (n: nat)
    ensures n <= |s|
    ensures AllSpace(s[|s| - n..])
    ensures n == |s| || !IsSpace(s[|s| - 1 - n])
  {
    if |s| == 0 || !IsSpace(s[|s| - 1]) then 0
    else
      var n := 1 + TrailingSpace(s[..|s| - 1]);
      assert forall i :: |s| - n <= i < |s| - 1 ==> s[i] == s[..|s| - 1][i];
      n
  }

  /** Text with no whitespace at either end. */
  predicate IsStripped(s: string) {
    |s| == 0 || (!IsSpace(s[0]) && !IsSpace(s[|s| - 1]))
  }

  /** `s.strip()`: `s` without its leading and trailing whitespace. */
  function Strip(s: string): (r: string)
    ensures IsStripped(r)
    ensures |r| == 0 <==> AllSpace(s)
    ensures |r| > 0 ==> r == s[LeadingSpace(s)..|s| - TrailingSpace(s)]
  {
    var lead := LeadingSpace(s);
    if lead == |s| then
      assert s[..lead] == s;
      ""
    else
      var trail := TrailingSpace(s);
      StripBounds(s);
      var r := s[lead..|s| - trail];
      assert r[0] == s[lead];
      assert r[|r| - 1] == s[|s| - 1 - trail];
      r
  }

  /** When `s` holds a non-whitespace character, the leading and trailing
      whitespace do not overlap. */
  lemma StripBounds(s: string)
    requires LeadingSpace(s) < |s|
    ensures LeadingSpace(s) < |s| - TrailingSpace(s)
    ensures !AllSpace(s)
  {
    var lead := LeadingSpace(s);
    var trail := TrailingSpace(s);
    assert !IsSpace(s[lead]);
  }

  /** Stripping twice strips nothing more. */
  lemma StripIdempotent(s: string)
    ensures Strip(Strip(s)) == Strip(s)
  {
    var r := Strip(s);
    if |r| > 0 {
      assert LeadingSpace(r) == 0;
      assert TrailingSpace(r) == 0;
      assert r[0..|r|] == r;
    }
  }

  // ---------------------------------------------------------------------------
  // str.split(sep) with a one-character separator

  /** Index of the first `c` in `s`, or `|s|` when there is none. */
  function IndexOf(s: string, c: char): (i: nat)
    ensures i <= |s|
    ensures i < |s| ==> s[i] == c
    ensures forall j :: 0 <= j < i ==> s[j] != c
  {
    if |s| == 0 || s[0] == c then 0
    else
      var i := 1 + IndexOf(s[1..], c);
      assert forall j :: 1 <= j < i ==> s[j] == s[1..][j - 1];
      i
  }

  /** `s.split(sep)`: the pieces between separators; never empty. */
  function SplitOn(s: string, sep: char): (parts: seq<string>)
    ensures |parts| >= 1
    ensures forall k :: 0 <= k < |parts| ==> sep !in parts[k]
    decreases |s|
  {
    var i := IndexOf(s, sep);
    if i == |s| then [s]
    else [s[..i]] + SplitOn(s[i + 1..], sep)
  }

  /** `sep.join(parts)` for a one-character separator. */
  function JoinOn(parts: seq<string>, sep: char): string {
    if |parts| == 0 then ""
    else if |parts| == 1 then parts[0]
    else parts[0] + [sep] + JoinOn(parts[1..], sep)
  }

  /** Splitting on a separator loses nothing: joining the pieces back
      gives the original text. */
  lemma {:induction false} JoinSplitOn(s: string, sep: char)
    ensures JoinOn(SplitOn(s, sep), sep) == s
    decreases |s|
  {
    var i := IndexOf(s, sep);
    if i < |s| {
      var rest := SplitOn(s[i + 1..], sep);
      JoinSplitOn(s[i + 1..], sep);
      assert SplitOn(s, sep) == [s[..i]] + rest;
      assert ([s[..i]] + rest)[1..] == rest;
      assert JoinOn([s[..i]] + rest, sep) == s[..i] + [sep] + JoinOn(rest, sep);
      assert s == s[..i] + [sep] + s[i + 1..];
    }
  }
}
