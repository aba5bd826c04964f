/** The quote finder: which runs of at least five consecutive words of the
    source text (words1) also occur, word for word, in the searched text
    (words2).

    For each start word of words1 the matcher sweeps once over words2,
    extending the current run while the next word of words1 equals the
    current word of words2 and closing the run otherwise. A closed run of at
    least five words is recorded as a quote, unless a quote already recorded
    spans it. */
module QuoteMatcher {
  import Progress
  import opened Tokenizer

  /** Fewest words a recorded quote holds. */
  const MinimumQuoteLength: nat := 5

  /** A quote: where its first word starts and where its last word ends. */
  datatype Quote = Quote(startLineIndex: int, startCharIndex: int, endLineIndex: int, endCharIndex: int)

  /** The quote spanning words1[p .. p + len]: from where its first word
      starts to where its last word ends. */
  function Candidate(words1: seq<Word>, p: nat, len: nat): Quote
    requires 1 <= len && p + len <= |words1|
  {
    var last := words1[p + len - 1];
    Quote(words1[p].lineIndex, words1[p].startCharIndex, last.lineIndex, last.endCharIndex)
  }

  /** `e` spans `c`: the same start and end lines, starting no later and
      ending no earlier. */
  predicate Covers(e: Quote, c: Quote)
  {
    && e.startLineIndex == c.startLineIndex && e.startCharIndex <= c.startCharIndex
    && e.endLineIndex == c.endLineIndex && e.endCharIndex >= c.endCharIndex
  }

  /** Some quote already recorded spans `c`. */
  predicate LongerQuoteAlreadyFound(quotes: seq<Quote>, c: Quote)
  {
    exists i :: 0 <= i < |quotes| && Covers(quotes[i], c)
  }

  /** No quote spans a quote recorded after it; in particular no quote is
      recorded twice. */
  ghost predicate NoneCovered(quotes: seq<Quote>)
  {
    forall i, j :: 0 <= i < j < |quotes| ==> !Covers(quotes[i], quotes[j])
  }

  /** The test that closes the run of `len` words starting at words1[p] when
      the sweep is at words2[q]: words1 is used up, q is the last index of
      words2, or the words differ. */
  predicate RunEnds(words1: seq<Word>, words2: seq<Word>, p: nat, len: nat, q: nat)
    requires q < |words2|
  {
    p + len >= |words1| || q == |words2| - 1 || words1[p + len].word != words2[q].word
  }

  /** Closing a run of `len` words: recorded when it is long enough and no
      recorded quote spans it. */
  function Record(words1: seq<Word>, p: nat, len: nat, quotes: seq<Quote>): seq<Quote>
    requires p + len <= |words1|
  {
    if len >= MinimumQuoteLength && !LongerQuoteAlreadyFound(quotes, Candidate(words1, p, len))
    then quotes + [Candidate(words1, p, len)]
    else quotes
  }

  /** The rest of the sweep over words2 for start word p, from index q with a
      current run of `len` words. */
  function Sweep(words1: seq<Word>, words2: seq<Word>, p: nat, q: nat, len: nat, quotes: seq<Quote>): (r: seq<Quote>)
    requires q <= |words2| && p + len <= |words1|
    decreases |words2| - q
  {
    if q == |words2| then quotes
    else if RunEnds(words1, words2, p, len, q) then Sweep(words1, words2, p, q + 1, 0, Record(words1, p, len, quotes))
    else Sweep(words1, words2, p, q + 1, len + 1, quotes)
  }

  /** The quotes recorded after the sweeps for the first n start words. */
  function QuotesUpTo(words1: seq<Word>, words2: seq<Word>, n: nat): seq<Quote>
    requires n <= |words1|
  {
    if n == 0 then []
    else Sweep(words1, words2, n - 1, 0, 0, QuotesUpTo(words1, words2, n - 1))
  }

  /** A sweep only appends quotes to those it starts with. */
  lemma {:induction false} SweepGrows(words1: seq<Word>, words2: seq<Word>, p: nat, q: nat, len: nat, quotes: seq<Quote>)
    requires q <= |words2| && p + len <= |words1|
    ensures quotes <= Sweep(words1, words2, p, q, len, quotes)
    decreases |words2| - q
  {
    if q < |words2| {
      if RunEnds(words1, words2, p, len, q) {
        SweepGrows(words1, words2, p, q + 1, 0, Record(words1, p, len, quotes));
      } else {
        SweepGrows(words1, words2, p, q + 1, len + 1, quotes);
      }
    }
  }

  /** Later sweeps only add quotes: what the first m sweeps recorded is a
      prefix of what the first n record. */
  lemma {:induction false} QuotesUpToGrows(words1: seq<Word>, words2: seq<Word>, m: nat, n: nat)
    requires m <= n <= |words1|
    ensures QuotesUpTo(words1, words2, m) <= QuotesUpTo(words1, words2, n)
    decreases n
  {
    if m < n {
      QuotesUpToGrows(words1, words2, m, n - 1);
      SweepGrows(words1, words2, n - 1, 0, 0, QuotesUpTo(words1, words2, n - 1));
    }
  }

  /** findMatchingQuotes' result. */
  function FindQuotes(words1: seq<Word>, words2: seq<Word>): seq<Quote>
  {
    QuotesUpTo(words1, words2, |words1|)
  }

  /** words1[p .. p + len] and words2[k .. k + len] hold the same words. */
  ghost predicate MatchedRun(words1: seq<Word>, words2: seq<Word>, p: nat, k: nat, len: nat)
    requires p + len <= |words1| && k + len <= |words2|
  {
    forall j :: p <= j < p + len ==> words1[j].word == words2[j - p + k].word
  }

  /** `quote` spans at least five consecutive words of words1 that also occur
      consecutively in words2. */
  ghost predicate IsQuoteOf(words1: seq<Word>, words2: seq<Word>, quote: Quote)
  {
    exists p: nat, k: nat, len: nat ::
      && MinimumQuoteLength <= len && p + len <= |words1| && k + len <= |words2|
      && MatchedRun(words1, words2, p, k, len)
      && quote == Candidate(words1, p, len)
  }

  // ----- Soundness -----

  lemma CandidateIsQuote(words1: seq<Word>, words2: seq<Word>, p: nat, k: nat, len: nat, n: nat)
    requires MinimumQuoteLength <= len && p + len <= |words1| && k + len <= n <= |words2|
    requires MatchedRun(words1, words2, p, k, len)
    ensures IsQuoteOf(words1, words2[..n], Candidate(words1, p, len))
  {
    assert MatchedRun(words1, words2[..n], p, k, len);
  }

  lemma RecordSound(words1: seq<Word>, words2: seq<Word>, p: nat, k: nat, len: nat, n: nat, quotes: seq<Quote>)
    requires p + len <= |words1| && k + len <= n <= |words2|
    requires MatchedRun(words1, words2, p, k, len)
    requires forall i :: 0 <= i < |quotes| ==> IsQuoteOf(words1, words2[..n], quotes[i])
    ensures forall i :: 0 <= i < |Record(words1, p, len, quotes)| ==>
              IsQuoteOf(words1, words2[..n], Record(words1, p, len, quotes)[i])
  {
    if len >= MinimumQuoteLength {
      CandidateIsQuote(words1, words2, p, k, len, n);
    }
  }

  /** The current run always matches the words of words2 just before q. */
  lemma {:induction false} SweepSound(words1: seq<Word>, words2: seq<Word>, p: nat, q: nat, len: nat, quotes: seq<Quote>)
    requires 0 < |words2| && q <= |words2| && len <= q && p + len <= |words1|
    requires MatchedRun(words1, words2, p, q - len, len)
    requires forall i :: 0 <= i < |quotes| ==> IsQuoteOf(words1, words2[..|words2| - 1], quotes[i])
    ensures forall i :: 0 <= i < |Sweep(words1, words2, p, q, len, quotes)| ==>
              IsQuoteOf(words1, words2[..|words2| - 1], Sweep(words1, words2, p, q, len, quotes)[i])
    decreases |words2| - q
  {
    if q < |words2| {
      if RunEnds(words1, words2, p, len, q) {
        RecordSound(words1, words2, p, q - len, len, |words2| - 1, quotes);
        SweepSound(words1, words2, p, q + 1, 0, Record(words1, p, len, quotes));
      } else {
        assert MatchedRun(words1, words2, p, q + 1 - (len + 1), len + 1);
        SweepSound(words1, words2, p, q + 1, len + 1, quotes);
      }
    }
  }

  lemma {:induction false} QuotesUpToSound(words1: seq<Word>, words2: seq<Word>, n: nat)
    requires 0 < |words2| && n <= |words1|
    ensures forall i :: 0 <= i < |QuotesUpTo(words1, words2, n)| ==>
              IsQuoteOf(words1, words2[..|words2| - 1], QuotesUpTo(words1, words2, n)[i])
  {
    if n > 0 {
      QuotesUpToSound(words1, words2, n - 1);
      SweepSound(words1, words2, n - 1, 0, 0, QuotesUpTo(words1, words2, n - 1));
    }
  }

  /** Every quote found is a run of at least five words shared by words1 and
      words2 without its last word: the last word of words2 never takes part
      in a run. */
  lemma FindQuotesSound(words1: seq<Word>, words2: seq<Word>)
    ensures forall i :: 0 <= i < |FindQuotes(words1, words2)| ==>
              |words2| > 0 && IsQuoteOf(words1, words2[..|words2| - 1], FindQuotes(words1, words2)[i])
  {
    if |words2| > 0 {
      QuotesUpToSound(words1, words2, |words1|);
    } else {
      SweepEmptyQuery(words1, words2, |words1|);
      assert FindQuotes(words1, words2) == [];
    }
  }

  lemma {:induction false} SweepEmptyQuery(words1: seq<Word>, words2: seq<Word>, n: nat)
    requires |words2| == 0 && n <= |words1|
    ensures QuotesUpTo(words1, words2, n) == []
  {
    if n > 0 {
      SweepEmptyQuery(words1, words2, n - 1);
    }
  }

  // ----- No quote spans a later one -----

  lemma RecordKeepsNoneCovered(words1: seq<Word>, p: nat, len: nat, quotes: seq<Quote>)
    requires p + len <= |words1| && NoneCovered(quotes)
    ensures NoneCovered(Record(words1, p, len, quotes))
  {
  }

  lemma {:induction false} SweepKeepsNoneCovered(words1: seq<Word>, words2: seq<Word>, p: nat, q: nat, len: nat, quotes: seq<Quote>)
    requires q <= |words2| && p + len <= |words1| && NoneCovered(quotes)
    ensures NoneCovered(Sweep(words1, words2, p, q, len, quotes))
    decreases |words2| - q
  {
    if q < |words2| {
      if RunEnds(words1, words2, p, len, q) {
        RecordKeepsNoneCovered(words1, p, len, quotes);
        SweepKeepsNoneCovered(words1, words2, p, q + 1, 0, Record(words1, p, len, quotes));
      } else {
        SweepKeepsNoneCovered(words1, words2, p, q + 1, len + 1, quotes);
      }
    }
  }

  /** The dedup check keeps the result free of quotes spanned by earlier
      ones, so no quote occurs twice. */
  lemma {:induction false} FindQuotesNoneCovered(words1: seq<Word>, words2: seq<Word>, n: nat)
    requires n <= |words1|
    ensures NoneCovered(QuotesUpTo(words1, words2, n))
    ensures forall i, j :: 0 <= i < j < |QuotesUpTo(words1, words2, n)| ==>
              QuotesUpTo(words1, words2, n)[i] != QuotesUpTo(words1, words2, n)[j]
  {
    if n > 0 {
      FindQuotesNoneCovered(words1, words2, n - 1);
      SweepKeepsNoneCovered(words1, words2, n - 1, 0, 0, QuotesUpTo(words1, words2, n - 1));
    }
    var r := QuotesUpTo(words1, words2, n);
    forall i, j | 0 <= i < j < |r| ensures r[i] != r[j] {
      assert !Covers(r[i], r[j]);
    }
  }

  // ----- Inputs that cannot give a quote -----

  lemma {:induction false} SweepShortSource(words1: seq<Word>, words2: seq<Word>, p: nat, q: nat, len: nat, quotes: seq<Quote>)
    requires |words1| < MinimumQuoteLength && q <= |words2| && p + len <= |words1|
    ensures Sweep(words1, words2, p, q, len, quotes) == quotes
    decreases |words2| - q
  {
    if q < |words2| {
      if RunEnds(words1, words2, p, len, q) {
        SweepShortSource(words1, words2, p, q + 1, 0, Record(words1, p, len, quotes));
      } else {
        SweepShortSource(words1, words2, p, q + 1, len + 1, quotes);
      }
    }
  }

  /** A source text of fewer than five words has no quote. */
  lemma {:induction false} ShortSourceFindsNothing(words1: seq<Word>, words2: seq<Word>, n: nat)
    requires |words1| < MinimumQuoteLength && n <= |words1|
    ensures QuotesUpTo(words1, words2, n) == []
  {
    if n > 0 {
      ShortSourceFindsNothing(words1, words2, n - 1);
      SweepShortSource(words1, words2, n - 1, 0, 0, []);
    }
  }

  lemma {:induction false} SweepShortQuery(words1: seq<Word>, words2: seq<Word>, p: nat, q: nat, len: nat, quotes: seq<Quote>)
    requires |words2| <= MinimumQuoteLength && len <= q <= |words2| && p + len <= |words1|
    ensures Sweep(words1, words2, p, q, len, quotes) == quotes
    decreases |words2| - q
  {
    if q < |words2| {
      if RunEnds(words1, words2, p, len, q) {
        SweepShortQuery(words1, words2, p, q + 1, 0, Record(words1, p, len, quotes));
      } else {
        SweepShortQuery(words1, words2, p, q + 1, len + 1, quotes);
      }
    }
  }

  /** As written, a searched text of five words or fewer never gives a quote,
      even when the source text holds it word for word. */
  lemma {:induction false} ShortQueryFindsNothing(words1: seq<Word>, words2: seq<Word>, n: nat)
    requires |words2| <= MinimumQuoteLength && n <= |words1|
    ensures QuotesUpTo(words1, words2, n) == []
  {
    if n > 0 {
      ShortQueryFindsNothing(words1, words2, n - 1);
      SweepShortQuery(words1, words2, n - 1, 0, 0, []);
    }
  }

  /** A query word that breaks a run is not tried as the start of a new one:
      after a one-word run at q breaks at q + 1, the sweep goes on at q + 2
      with an empty run, although words2[q + 1] equals words1[p] too. */
  lemma MismatchNotRetried(words1: seq<Word>, words2: seq<Word>, p: nat, q: nat, quotes: seq<Quote>)
    requires p + 1 < |words1| && q + 2 < |words2|
    requires words1[p].word == words2[q].word == words2[q + 1].word
    requires words1[p + 1].word != words2[q + 1].word
    ensures Sweep(words1, words2, p, q, 0, quotes) == Sweep(words1, words2, p, q + 2, 0, quotes)
  {
    assert !RunEnds(words1, words2, p, 0, q);
    assert RunEnds(words1, words2, p, 1, q + 1);
  }

  /** Along a match of all of words2 but its last word, the sweep as
      written extends the run up to the last index and closes it there. */
  lemma {:induction false} SweepAlongMatch(words1: seq<Word>, words2: seq<Word>, p: nat, q: nat, quotes: seq<Quote>)
    requires 0 < |words2| && p + |words2| - 1 <= |words1| && q < |words2|
    requires MatchedRun(words1, words2, p, 0, |words2| - 1)
    ensures Sweep(words1, words2, p, q, q, quotes) == Record(words1, p, |words2| - 1, quotes)
    decreases |words2| - q
  {
    if q < |words2| - 1 {
      assert words1[p + q].word == words2[q].word;
      assert !RunEnds(words1, words2, p, q, q);
      SweepAlongMatch(words1, words2, p, q + 1, quotes);
    } else {
      assert RunEnds(words1, words2, p, q, q);
      assert Sweep(words1, words2, p, q + 1, 0, Record(words1, p, q, quotes)) == Record(words1, p, q, quotes);
    }
  }

  /** As written, a source run matching all of words2 but its last word is
      found whenever that is at least five words: a quote spanning it is
      recorded. */
  lemma AsWrittenFound(words1: seq<Word>, words2: seq<Word>, p: nat)
    requires MinimumQuoteLength < |words2| && p + |words2| - 1 <= |words1|
    requires MatchedRun(words1, words2, p, 0, |words2| - 1)
    ensures LongerQuoteAlreadyFound(FindQuotes(words1, words2), Candidate(words1, p, |words2| - 1))
  {
    var before := QuotesUpTo(words1, words2, p);
    SweepAlongMatch(words1, words2, p, 0, before);
    RecordCovers(words1, p, |words2| - 1, before);
    QuotesUpToGrows(words1, words2, p + 1, |words1|);
    FoundStaysFound(QuotesUpTo(words1, words2, p + 1), FindQuotes(words1, words2),
                    Candidate(words1, p, |words2| - 1));
  }

  // ----- The run-end test with the last word of words2 compared -----

  /** The run-end test without the last-index condition. */
  predicate RunEndsCorrected(words1: seq<Word>, words2: seq<Word>, p: nat, len: nat, q: nat)
    requires q < |words2|
  {
    p + len >= |words1| || words1[p + len].word != words2[q].word
  }

  /** The sweep that compares every word of words2 and closes the run that is
      still open after the last one. */
  function SweepCorrected(words1: seq<Word>, words2: seq<Word>, p: nat, q: nat, len: nat, quotes: seq<Quote>): (r: seq<Quote>)
    requires q <= |words2| && p + len <= |words1|
    ensures quotes <= r
    decreases |words2| - q
  {
    if q == |words2| then Record(words1, p, len, quotes)
    else if RunEndsCorrected(words1, words2, p, len, q) then SweepCorrected(words1, words2, p, q + 1, 0, Record(words1, p, len, quotes))
    else SweepCorrected(words1, words2, p, q + 1, len + 1, quotes)
  }

  function QuotesUpToCorrected(words1: seq<Word>, words2: seq<Word>, n: nat): (r: seq<Quote>)
    requires n <= |words1|
    ensures forall m :: 0 <= m <= n ==> QuotesUpToCorrected(words1, words2, m) <= r
  {
    if n == 0 then []
    else SweepCorrected(words1, words2, n - 1, 0, 0, QuotesUpToCorrected(words1, words2, n - 1))
  }

  function FindQuotesCorrected(words1: seq<Word>, words2: seq<Word>): seq<Quote>
  {
    QuotesUpToCorrected(words1, words2, |words1|)
  }

  /** After recording a run of at least five words, some quote spans it. */
  lemma RecordCovers(words1: seq<Word>, p: nat, len: nat, quotes: seq<Quote>)
    requires MinimumQuoteLength <= len && p + len <= |words1|
    ensures LongerQuoteAlreadyFound(Record(words1, p, len, quotes), Candidate(words1, p, len))
  {
    var c := Candidate(words1, p, len);
    var r := Record(words1, p, len, quotes);
    if !LongerQuoteAlreadyFound(quotes, c) {
      assert Covers(r[|quotes|], c);
    } else {
      var i :| 0 <= i < |quotes| && Covers(quotes[i], c);
      assert Covers(r[i], c);
    }
  }

  /** A spanning quote stays spanning when more quotes are appended. */
  lemma FoundStaysFound(quotes: seq<Quote>, more: seq<Quote>, c: Quote)
    requires quotes <= more && LongerQuoteAlreadyFound(quotes, c)
    ensures LongerQuoteAlreadyFound(more, c)
  {
    var i :| 0 <= i < |quotes| && Covers(quotes[i], c);
    assert more[i] == quotes[i];
  }

  /** Along a whole-query match the corrected sweep never closes the run
      before the end of words2. */
  lemma {:induction false} SweepCorrectedAlongMatch(words1: seq<Word>, words2: seq<Word>, p: nat, q: nat, quotes: seq<Quote>)
    requires p + |words2| <= |words1| && q <= |words2|
    requires MatchedRun(words1, words2, p, 0, |words2|)
    ensures SweepCorrected(words1, words2, p, q, q, quotes) == Record(words1, p, |words2|, quotes)
    decreases |words2| - q
  {
    if q < |words2| {
      assert words1[p + q].word == words2[q].word;
      SweepCorrectedAlongMatch(words1, words2, p, q + 1, quotes);
    }
  }

  /** With the last word compared, a searched text of at least five words
      that occurs word for word in the source text, starting at words1[p],
      is spanned by a quote found. */
  lemma WholeQueryFound(words1: seq<Word>, words2: seq<Word>, p: nat)
    requires MinimumQuoteLength <= |words2| && p + |words2| <= |words1|
    requires MatchedRun(words1, words2, p, 0, |words2|)
    ensures LongerQuoteAlreadyFound(FindQuotesCorrected(words1, words2), Candidate(words1, p, |words2|))
  {
    var before := QuotesUpToCorrected(words1, words2, p);
    SweepCorrectedAlongMatch(words1, words2, p, 0, before);
    RecordCovers(words1, p, |words2|, before);
    FoundStaysFound(QuotesUpToCorrected(words1, words2, p + 1), FindQuotesCorrected(words1, words2),
                    Candidate(words1, p, |words2|));
  }

  /** The corrected sweep still finds only shared runs, now of words2 whole. */
  lemma {:induction false} SweepCorrectedSound(words1: seq<Word>, words2: seq<Word>, p: nat, q: nat, len: nat, quotes: seq<Quote>)
    requires q <= |words2| && len <= q && p + len <= |words1|
    requires MatchedRun(words1, words2, p, q - len, len)
    requires forall i :: 0 <= i < |quotes| ==> IsQuoteOf(words1, words2[..|words2|], quotes[i])
    ensures forall i :: 0 <= i < |SweepCorrected(words1, words2, p, q, len, quotes)| ==>
              IsQuoteOf(words1, words2[..|words2|], SweepCorrected(words1, words2, p, q, len, quotes)[i])
    decreases |words2| - q
  {
    if q == |words2| {
      RecordSound(words1, words2, p, q - len, len, |words2|, quotes);
    } else if RunEndsCorrected(words1, words2, p, len, q) {
      RecordSound(words1, words2, p, q - len, len, |words2|, quotes);
      SweepCorrectedSound(words1, words2, p, q + 1, 0, Record(words1, p, len, quotes));
    } else {
      assert MatchedRun(words1, words2, p, q + 1 - (len + 1), len + 1);
      SweepCorrectedSound(words1, words2, p, q + 1, len + 1, quotes);
    }
  }

  lemma {:induction false} FindQuotesCorrectedSound(words1: seq<Word>, words2: seq<Word>, n: nat)
    requires n <= |words1|
    ensures forall i :: 0 <= i < |QuotesUpToCorrected(words1, words2, n)| ==>
              IsQuoteOf(words1, words2, QuotesUpToCorrected(words1, words2, n)[i])
  {
    assert words2[..|words2|] == words2;
    if n > 0 {
      FindQuotesCorrectedSound(words1, words2, n - 1);
      SweepCorrectedSound(words1, words2, n - 1, 0, 0, QuotesUpToCorrected(words1, words2, n - 1));
    }
  }

  // ----- The worker -----

  /** findMatchingQuotes: the quotes, and the values passed to the progress
      callback, in order. */
  method FindMatchingQuotes(words1: seq<Word>, words2: seq<Word>) returns (quotes: seq<Quote>, progress: seq<nat>)
    ensures quotes == FindQuotes(words1, words2)
    ensures forall i :: 0 <= i < |quotes| ==> |words2| > 0 && IsQuoteOf(words1, words2[..|words2| - 1], quotes[i])
    ensures NoneCovered(quotes)
    ensures progress == Progress.Reports(|words1|, |words1|)
    ensures progress[0] == 0 && (|words1| > 0 ==> Progress.Last(progress) == 100)
    ensures |words1| == 0 ==> progress == [0]
  {
    var progressPercent := 0;
    progress := [progressPercent];

    quotes := [];
    var index1 := 0;
    while index1 < |words1|
      invariant index1 <= |words1|
      invariant quotes == QuotesUpTo(words1, words2, index1)
      invariant progress == Progress.Reports(|words1|, index1)
      invariant progressPercent == Progress.Last(progress)
    {
      var quoteLength := 0;
      var index2 := 0;
      while index2 < |words2|
        invariant index2 <= |words2| && index1 + quoteLength <= |words1|
        invariant Sweep(words1, words2, index1, index2, quoteLength, quotes) == QuotesUpTo(words1, words2, index1 + 1)
      {
        if index1 + quoteLength >= |words1|
           || index2 == |words2| - 1
           || words1[index1 + quoteLength].word != words2[index2].word
        {
          // the end of a run
          ghost var old_quotes := quotes;
          assert RunEnds(words1, words2, index1, quoteLength, index2);
          if quoteLength >= MinimumQuoteLength {
            var quoteEndIndex := index1 + quoteLength - 1;
            var quote := Quote(words1[index1].lineIndex, words1[index1].startCharIndex,
                               words1[quoteEndIndex].lineIndex, words1[quoteEndIndex].endCharIndex);
            assert quote == Candidate(words1, index1, quoteLength);
            var longerQuoteAlreadyFound := LongerQuoteAlreadyFound(quotes, quote);
            if !longerQuoteAlreadyFound {
              quotes := quotes + [quote];
            }
          }
          assert quotes == Record(words1, index1, quoteLength, old_quotes);
          quoteLength := 0;
        } else {
          assert !RunEnds(words1, words2, index1, quoteLength, index2);
          quoteLength := quoteLength + 1;
        }
        index2 := index2 + 1;
      }

      Progress.ReportsStep(|words1|, index1);
      var currentProgressPercent := Progress.Percent(index1 + 1, |words1|);
      if currentProgressPercent > progressPercent {
        progressPercent := currentProgressPercent;
        progress := progress + [progressPercent];
      }
      index1 := index1 + 1;
    }
    FindQuotesSound(words1, words2);
    FindQuotesNoneCovered(words1, words2, |words1|);
    Progress.FinishedScan(|words1|);
  }
}
