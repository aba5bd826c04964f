# Cain's Jawbone quote finder, modelled in Dafny

The quote finder takes two texts. The first is the source text, the novel *Cain's Jawbone*, whose lines are its pages. The second is a searched text pasted in by the user. It lists every run of at least five consecutive words of the source text that also occurs, word for word, in the searched text.

Three parts of the program are modelled.

- **`extractWords`** splits a text into lines. It scans each line for runs of characters that are not word breaks (space, em dash, tab, carriage return, line feed). It normalises each run: NFKD, then removal of every character outside `\w`, then lowercasing. It records each non-empty result with its line and its character offsets in the original line, and reports progress after every line.
- **`findMatchingQuotes`** runs one sweep over the searched words for every start word of the source. Inside a sweep it extends the current run while the words agree. It records each closed run of at least five words as a quote, unless a quote already recorded spans it. It reports progress after every start word.
- **The quote table** does three things:
  - it labels a quote with its page or page range (`renderPage`);
  - it cuts the quote's text out of the source pages (`renderQuote`);
  - it orders the rows with two stable sorts, first by start character and then by start line.

Modules:

- `Progress` (progress.dfy) holds the report sequence that both workers send.
- `Lines` (lines.dfy) models `split('\n')` and its inverse.
- `Tokenizer` (tokenizer.dfy) models extractWords.
- `QuoteMatcher` (quote_matcher.dfy) models findMatchingQuotes.
- `QuoteRender` (quote_render.dfy) models the table.

The two workers are methods with the source's loops. Each is proved equal to a recursive function:

- `ExtractWords` returns `Tokenize`;
- `FindMatchingQuotes` returns `FindQuotes`.

Each also returns the sequence of values it passes to the progress callback. The lemmas about those functions state what the program promises.

The tokenizer's scanner is a state machine. The model proves it equal to a description by position, `RefWords`, under which a word ends at every break character, or at the end of the line, whose raw run normalises to something non-empty. From that description the model proves:

- words are well formed;
- words come in reading order;
- no surviving run is lost.

Unicode NFKD depends on tables that are not modelled. It is the parameter `nfkd` of every normalising member. The facts the proofs need about it are stated as preconditions: `nfkd("") == ""`, and, for one example, the values on two ASCII strings.

Some consequences of the code that are easy to get wrong:

- A word's `endCharIndex` is exclusive: it is the index of the break character that ends the run, or the line length. A quote's `endCharIndex` is its last word's, so it is exclusive too.
- In "Hello, World!", the first word's run is `Hello,`, covering offsets 0 to 6. The second word's run is `World!`, starting at offset 7, the character after the space.
- The searched text "the quick brown fox jumps" gives no quote against "the quick brown fox jumps over the lazy dog". Had it been found, it would end at offset 25. See Findings.

## Model

| member | source | states |
|---|---|---|
| Tokenizer.IsBreakChar | src/workers/extractWords.js:20 | definition: `WORD_BREAK_CHARS.includes(char)`, one comparison per listed character |
| Tokenizer.StripNonWord | src/workers/extractWords.js:5 | definition: `replace(/[^\w]/g, '')`, keeping the ASCII letters, digits and `_` in order |
| Tokenizer.ToLowerCase | src/workers/extractWords.js:5 | definition: `toLowerCase()` on ASCII text |
| Tokenizer.NormalizeWord | src/workers/extractWords.js:3-6 | definition: normalizeWord, that is NFKD, then strip, then lowercase |
| Tokenizer.ScanLine | src/workers/extractWords.js:18-37 | definition: the inner loop and end-of-line flush as a recursive function of the scanner state (position, raw word, start offset) |
| Tokenizer.WordsOfLines | src/workers/extractWords.js:14-44 | definition: the words of the first n lines, the outer loop's accumulated list |
| Tokenizer.Tokenize | src/workers/extractWords.js:8-47 | definition: the word list extractWords returns for a text |
| Tokenizer.BreakCharsListed | src/workers/extractWords.js:1 | a character breaks a word exactly when it is one of the five listed break characters |
| Tokenizer.StripNonWordKeepsWordChars | src/workers/extractWords.js:5 | removing non-`\w` characters keeps only word characters, all taken from the input; it is empty exactly when the input holds no word character |
| Tokenizer.ToLowerCaseCharwise | src/workers/extractWords.js:5 | lowercasing keeps the length and maps each character on its own |
| Tokenizer.NormalizeWordShape | src/workers/extractWords.js:3-6 | a normalised word holds only `a-z`, `0-9` and `_`; it is empty exactly when the decomposed run has no word character; it is never longer than the decomposed run |
| Tokenizer.NormalizerKeepsEmpty | src/workers/extractWords.js:3-6 | an empty run normalises to the empty word when NFKD keeps "" |
| Tokenizer.RunStart | src/workers/extractWords.js:28-31 | the raw run ending at a position starts no later than that position, at the line start or just after a break character |
| Tokenizer.RunHasNoBreak | src/workers/extractWords.js:20-32 | the raw run ending at a position holds no break character |
| Tokenizer.FirstNonBreak | src/workers/extractWords.js:28-30 | a position at or after the given one, within the line, that holds no break character unless it is the line end |
| Tokenizer.SkippedAreBreaks | src/workers/extractWords.js:28-30 | every position FirstNonBreak skips holds a break character |
| Tokenizer.RunStep | src/workers/extractWords.js:20-32 | passing a break character empties the raw run; passing any other character appends it |
| Tokenizer.ScanStateStep | src/workers/extractWords.js:19-32 | each of the three branches of the inner loop moves the scanner to the state that the positional description predicts |
| Tokenizer.ScanLineIsRef | src/workers/extractWords.js:18-37 | from any reachable scanner state, the scan of the rest of the line gives exactly the positional word list |
| Tokenizer.LineIsRef | src/workers/extractWords.js:15-37 | the words of a whole line are the positional word list of that line |
| Tokenizer.RefWellFormed | src/workers/extractWords.js:20-37 | every word of a line is non-empty; start and end satisfy 0 <= start < end <= line length; it ends at a break character or at the line end; it is the normalised raw run ending there |
| Tokenizer.RefOrdered | src/workers/extractWords.js:18-37 | the words of a line come left to right, each ending before the next starts |
| Tokenizer.RefStarts | src/workers/extractWords.js:24-31 | each word starts at the first non-break position after the previous word, because `startCharIndex` is not reset when a run normalises to nothing |
| Tokenizer.RefEndsAtLeast | src/workers/extractWords.js:20-37 | words recorded from a position onwards end at or after it and within the line |
| Tokenizer.RefComplete | src/workers/extractWords.js:20-37 | every break position or line end whose raw run normalises to a non-empty word ends some recorded word |
| Tokenizer.ScanRun | src/workers/extractWords.js:27-32 | scanning non-break characters only appends them to the raw run and sets the start once |
| Tokenizer.DroppedRunKeepsStart | src/workers/extractWords.js:20-31 | in "-- Hi", the run "--" is dropped, and the word "hi" then gets start offset 0, not 3 |
| Tokenizer.WordsOfLinesWellFormed | src/workers/extractWords.js:14-44 | every word of the first n lines lies on one of them and is well formed for its line |
| Tokenizer.TokenizeWellFormed | src/workers/extractWords.js:8-47 | every word returned lies on an existing line, is well formed for it and holds only `a-z`, `0-9` and `_` |
| Tokenizer.WordsOfLinesOrdered | src/workers/extractWords.js:14-44 | the words of the first n lines are in reading order |
| Tokenizer.TokenizeOrdered | src/workers/extractWords.js:8-47 | the words returned are in reading order: by line, then left to right |
| Tokenizer.LineEmptyIff | src/workers/extractWords.js:15-37 | a line gives no word exactly when none of its raw runs survives normalisation |
| Tokenizer.WordsOfLinesEmptyIff | src/workers/extractWords.js:14-44 | the first n lines give no word exactly when none of their runs survives |
| Tokenizer.TokenizeEmptyIff | src/workers/extractWords.js:8-47 | the result is empty exactly when no raw run of any line survives normalisation; the empty text gives no word |
| Tokenizer.ScanLineInto | src/workers/extractWords.js:15-37 | one pass of the outer loop appends exactly the words of that line to the list |
| Tokenizer.ExtractWords | src/workers/extractWords.js:8-47 | the words are the tokenisation of the text: well formed and in reading order; the progress values are the report sequence for the line count, rising strictly from 0 to 100 |
| Lines.SplitLines | src/workers/extractWords.js:12 | splitting gives at least one line, and no line holds a line feed |
| Lines.JoinSplit | src/routes/QuoteFinder/index.tsx:16 | joining the split lines with line feeds gives back the text |
| Lines.SplitJoin | src/routes/QuoteFinder/index.tsx:16 | splitting joined lines that hold no line feed gives back the lines |
| Lines.LineCount | src/workers/extractWords.js:12 | there is one more line than there are line feeds |
| Lines.PrefixedNewLines | src/components/QuoteFinder/QuoteFinderControl.tsx:72-78 | prefixing each line with a line feed adds exactly one line feed per line |
| Progress.Percent | src/workers/extractWords.js:39 | definition: `Math.floor(100 * done / total)`, as natural-number division |
| Progress.Reports | src/workers/extractWords.js:9-10 | the first report is always 0 |
| Progress.PercentMonotone | src/workers/extractWords.js:39 | more finished steps never give a smaller percentage |
| Progress.HundredPercent | src/workers/extractWords.js:39 | all steps finished is 100 percent |
| Progress.LastIsCurrentPercent | src/workers/extractWords.js:39-43 | the last report is the percentage of the steps finished so far |
| Progress.ReportsIncreasing | src/workers/extractWords.js:40-43 | reports rise strictly |
| Progress.ReportsAtMostHundred | src/workers/extractWords.js:39-43 | no report exceeds 100 |
| Progress.ReportsArePercentages | src/workers/extractWords.js:39-43 | every report after the first is the percentage reached after some step |
| Progress.ReportsComplete | src/workers/extractWords.js:39-43 | every percentage reached so far has been reported |
| Progress.FinalReportIsHundred | src/assets/workers/findMatchingQuotes.js:35-39 | a finished scan of at least one step ends with the report 100 |
| Progress.FinishedScan | src/assets/workers/findMatchingQuotes.js:4-39 | a finished scan reports 0 first and 100 last, or only 0 when there was nothing to scan |
| QuoteMatcher.Candidate | src/assets/workers/findMatchingQuotes.js:16-26 | definition: the quote from the start of the run's first word to the end of its last word, the object pushed at lines 21-26 and the value `IsQuoteOf` and `Record` are stated with |
| QuoteMatcher.RunEnds | src/assets/workers/findMatchingQuotes.js:11-13 | definition: the test that closes the current run |
| QuoteMatcher.Covers | src/assets/workers/findMatchingQuotes.js:18-19 | definition: the `some` callback's containment test |
| QuoteMatcher.LongerQuoteAlreadyFound | src/assets/workers/findMatchingQuotes.js:17-19 | definition: some recorded quote contains the candidate |
| QuoteMatcher.Record | src/assets/workers/findMatchingQuotes.js:15-28 | definition: closing a run, which appends the candidate when it has at least five words and no recorded quote contains it |
| QuoteMatcher.Sweep | src/assets/workers/findMatchingQuotes.js:10-33 | definition: the inner loop over words2 as a recursive function of (index2, quoteLength, quotes) |
| QuoteMatcher.QuotesUpTo | src/assets/workers/findMatchingQuotes.js:8-40 | definition: the quotes after the first n iterations of the outer loop |
| QuoteMatcher.FindQuotes | src/assets/workers/findMatchingQuotes.js:3-43 | definition: the quotes findMatchingQuotes returns |
| QuoteMatcher.SweepGrows | src/assets/workers/findMatchingQuotes.js:10-33 | a sweep only appends to the quotes found so far |
| QuoteMatcher.QuotesUpToGrows | src/assets/workers/findMatchingQuotes.js:8-40 | the quotes of the first m start words are a prefix of those of the first n, for m <= n |
| QuoteMatcher.CandidateIsQuote | src/assets/workers/findMatchingQuotes.js:15-26 | a matched run of at least five words spans a genuine quote |
| QuoteMatcher.RecordSound | src/assets/workers/findMatchingQuotes.js:15-28 | closing a matched run keeps every recorded quote a genuine shared run |
| QuoteMatcher.SweepSound | src/assets/workers/findMatchingQuotes.js:10-33 | during a sweep the current run matches the searched words just before the sweep position, so every quote recorded is a shared run that avoids the last searched word |
| QuoteMatcher.QuotesUpToSound | src/assets/workers/findMatchingQuotes.js:8-40 | every quote recorded by the first n sweeps is a shared run |
| QuoteMatcher.FindQuotesSound | src/assets/workers/findMatchingQuotes.js:3-43 | every quote found spans at least five consecutive source words that also occur consecutively in the searched words, excluding its last word |
| QuoteMatcher.SweepEmptyQuery | src/assets/workers/findMatchingQuotes.js:10 | an empty searched text gives no quote |
| QuoteMatcher.RecordKeepsNoneCovered | src/assets/workers/findMatchingQuotes.js:17-27 | the dedup test never records a quote spanned by an earlier one |
| QuoteMatcher.SweepKeepsNoneCovered | src/assets/workers/findMatchingQuotes.js:10-33 | a sweep keeps the property that no quote is spanned by an earlier one |
| QuoteMatcher.FindQuotesNoneCovered | src/assets/workers/findMatchingQuotes.js:8-40 | no quote found is spanned by an earlier one, so no quote occurs twice |
| QuoteMatcher.SweepShortSource | src/assets/workers/findMatchingQuotes.js:11-15 | with fewer than five source words, a sweep records nothing |
| QuoteMatcher.ShortSourceFindsNothing | src/assets/workers/findMatchingQuotes.js:1-43 | a source text of fewer than five words gives no quote |
| QuoteMatcher.SweepShortQuery | src/assets/workers/findMatchingQuotes.js:11-15 | with five or fewer searched words, a run never reaches five words |
| QuoteMatcher.ShortQueryFindsNothing | src/assets/workers/findMatchingQuotes.js:11-13 | a searched text of five or fewer words gives no quote, even when the source holds it verbatim |
| QuoteMatcher.SweepAlongMatch | src/assets/workers/findMatchingQuotes.js:10-33 | along a match of all searched words but the last, the sweep as written extends the run to the last index and closes it there |
| QuoteMatcher.AsWrittenFound | src/assets/workers/findMatchingQuotes.js:3-43 | as written, a source run that matches all searched words but the last is spanned by a quote found, when that is at least five words |
| QuoteMatcher.MismatchNotRetried | src/assets/workers/findMatchingQuotes.js:11-32 | a searched word that breaks a run is not tried again as the start of a new run |
| QuoteMatcher.SweepCorrected | src/assets/workers/findMatchingQuotes.js:10-33 | the corrected sweep only appends quotes |
| QuoteMatcher.QuotesUpToCorrected | src/assets/workers/findMatchingQuotes.js:8-40 | the corrected result for fewer start words is a prefix of the result for more |
| QuoteMatcher.RecordCovers | src/assets/workers/findMatchingQuotes.js:15-27 | after a run of at least five words is closed, some recorded quote spans it |
| QuoteMatcher.SweepCorrectedAlongMatch | src/assets/workers/findMatchingQuotes.js:10-33 | along a whole-query match, the corrected sweep records the whole query |
| QuoteMatcher.WholeQueryFound | src/assets/workers/findMatchingQuotes.js:3-43 | with the last word compared, a searched text of at least five words that occurs verbatim in the source is spanned by a quote found |
| QuoteMatcher.SweepCorrectedSound | src/assets/workers/findMatchingQuotes.js:10-33 | the corrected sweep records only runs shared with the whole searched text |
| QuoteMatcher.FindQuotesCorrectedSound | src/assets/workers/findMatchingQuotes.js:3-43 | every corrected quote is a run shared with the whole searched text |
| QuoteMatcher.FindMatchingQuotes | src/assets/workers/findMatchingQuotes.js:3-43 | the quotes found are sound shared runs, none spanned by an earlier one; progress is the report sequence, starting at 0 and ending at 100 when the source is non-empty, or just [0] |
| QuoteRender.DigitChar | src/components/QuoteFinder/QuoteFinderControl.tsx:55 | a digit character is '0'..'9' with the digit's value |
| QuoteRender.NatToString | src/components/QuoteFinder/QuoteFinderControl.tsx:55 | decimal digits, at least one, with no leading zero |
| QuoteRender.IntToString | src/components/QuoteFinder/QuoteFinderControl.tsx:55-56 | a number's text holds no space |
| QuoteRender.NatToStringValue | src/components/QuoteFinder/QuoteFinderControl.tsx:55 | the digits read back as the number |
| QuoteRender.IntToStringRoundTrip | src/components/QuoteFinder/QuoteFinderControl.tsx:55-56 | a number's text, negative or not, parses back to the number |
| QuoteRender.RenderPage | src/components/QuoteFinder/QuoteFinderControl.tsx:54-57 | the label holds a space exactly when the quote spans more than one page |
| QuoteRender.SplitAtSeparator | src/components/QuoteFinder/QuoteFinderControl.tsx:56 | a " - " label splits back into its two numbers |
| QuoteRender.RenderPageRoundTrip | src/components/QuoteFinder/QuoteFinderControl.tsx:54-57 | the label reads back as the 1-based start and end pages |
| QuoteRender.Clamp | src/components/QuoteFinder/QuoteFinderControl.tsx:66-69 | a substring bound below 0 becomes 0, one above the length becomes the length, and one in between is kept |
| QuoteRender.Substring | src/components/QuoteFinder/QuoteFinderControl.tsx:66-69 | `substring` with ordered in-range bounds is the slice; with swapped bounds it is the slice between them |
| QuoteRender.SubstringSymmetric | src/components/QuoteFinder/QuoteFinderControl.tsx:66-69 | `substring`'s two bounds are interchangeable |
| QuoteRender.QuoteText | src/components/QuoteFinder/QuoteFinderControl.tsx:59-81 | definition: renderQuote's result, with None where it throws on a missing page |
| QuoteRender.ParsePage | src/components/QuoteFinder/QuoteFinderControl.tsx:54-57 | definition: reads a page label back as its two numbers; the inverse that RenderPageRoundTrip is stated with, not a model of source code (IndexOf, ParseInt and DigitsValue are its helpers) |
| QuoteRender.RenderQuote | src/components/QuoteFinder/QuoteFinderControl.tsx:59-81 | the text of the quote as renderQuote builds it; it fails exactly when the start page is missing, or the end page is missing on a multi-page quote |
| QuoteRender.BlockShape | src/components/QuoteFinder/QuoteFinderControl.tsx:71-79 | pages s..e of the text are page s, the middle pages each after a line feed, a line feed, and page e |
| QuoteRender.SpanShape | src/components/QuoteFinder/QuoteFinderControl.tsx:71-79 | a quote's span of the source text is its start-page tail, the middle pages, a line feed and its end-page head |
| QuoteRender.QuoteTextShape | src/components/QuoteFinder/QuoteFinderControl.tsx:71-80 | renderQuote's text over several pages is the start-page tail, the middle pages each after a line feed, and the end-page head |
| QuoteRender.RenderQuoteDropsLineBreak | src/components/QuoteFinder/QuoteFinderControl.tsx:71-80 | a multi-page quote's text is its span of the source text with the line feed before the end page taken out |
| QuoteRender.QuoteTextCorrectedIsSpan | src/components/QuoteFinder/QuoteFinderControl.tsx:59-81 | with the line feed kept, a quote's text is exactly its span of the source text |
| QuoteRender.SingleLineUnchanged | src/components/QuoteFinder/QuoteFinderControl.tsx:65-70 | single-page quotes render the same either way |
| QuoteRender.RenderQuoteLineFeeds | src/components/QuoteFinder/QuoteFinderControl.tsx:71-80 | a quote over pages s..e holds e - s - 1 line feeds, one fewer than it crosses |
| QuoteRender.SubstringNoNewLine | src/components/QuoteFinder/QuoteFinderControl.tsx:66-69 | a substring of a page holds no line feed |
| QuoteRender.WithKey | src/components/QuoteFinder/QuoteFinderControl.tsx:93-94 | the quotes with a given key, in order, all with that key |
| QuoteRender.SwapKeepsWithKey | src/components/QuoteFinder/QuoteFinderControl.tsx:93-94 | swapping neighbours with different keys keeps the order within every key |
| QuoteRender.SwapNeighbours | src/components/QuoteFinder/QuoteFinderControl.tsx:93-94 | the two cells are exchanged and nothing else changes; the result is a permutation with every key's order kept |
| QuoteRender.Insert | src/components/QuoteFinder/QuoteFinderControl.tsx:93-94 | one insertion step extends the sorted prefix; it is a permutation, keeps each key's order and changes nothing after the prefix |
| QuoteRender.SortBy | src/components/QuoteFinder/QuoteFinderControl.tsx:93-94 | `sort` with a key-difference comparator: the result is sorted, a permutation, and stable |
| QuoteRender.WithKeyKeepsOrder | src/components/QuoteFinder/QuoteFinderControl.tsx:93-94 | the quotes of one start line, taken from a sequence sorted by start character, stay sorted by start character |
| QuoteRender.StableSortsCompose | src/components/QuoteFinder/QuoteFinderControl.tsx:93-94 | a stable sort by start line after a sort by start character gives display order |
| QuoteRender.DisplayOrder | src/components/QuoteFinder/QuoteFinderControl.tsx:92-94 | the rows end up ordered by start line, then by start character; they are the same quotes; quotes with the same start line and start character keep the order they were found in |
| QuoteRender.WithKeyCommute | src/components/QuoteFinder/QuoteFinderControl.tsx:93-94 | picking the quotes with a given start line and a given start character gives the same subsequence in either order |

## Left out

- Unicode NFKD (`normalize('NFKD')`) is the parameter `nfkd`. The facts the lemmas need about it are preconditions, chiefly `nfkd("") == ""`.
- The scan lemmas take any normaliser `norm` with `norm("") == ""`. The tokenizer instantiates `norm` as normalizeWord over `nfkd`.
- `toLowerCase` is modelled for ASCII only. It is applied only after the non-`\w` characters are stripped, so only ASCII reaches it.
- JavaScript strings are sequences of UTF-16 code units, and the model's strings are sequences of characters. Offsets agree as long as the text has no characters outside the Basic Multilingual Plane.
- The progress callback is modelled as the sequence of values passed to it, returned by each worker method. The callback's side effects are not modelled.
- Worker message wiring (`onmessage`, `postMessage`), `configureEvents`, the Preact components and their JSX, loading the source text, and `src/app.js` are left out. They are I/O and UI plumbing, and `src/app.js` repeats the rendering code.
- `QuoteRender.RenderQuote` returns `None` where the source throws a `TypeError`, which happens when it calls `substring` on a missing page.
- The page label's numbers use template-literal conversion of integers. Non-integer numbers, NaN and JavaScript number precision are not modelled.
- `QuoteRender.SortBy` is an insertion sort. The engine's own sort algorithm is not modelled; the contract gives only what `Array.prototype.sort` guarantees for this comparator: sorted, a permutation, stable.
- `Tokenizer.TokenizeWellFormed`: holds only when NFKD maps "" to "". Otherwise an empty run could give a word, and the source's behaviour then depends on that table.

## Findings

| source | as written | input that shows it | evidently intended | confidence | as-written member | corrected member |
|---|---|---|---|---|---|---|
| src/assets/workers/findMatchingQuotes.js:11-13 | the run is closed at the last searched word (`index2 === words2.length - 1`) without that word being compared, so the last searched word never takes part in a quote | searched text "the quick brown fox jumps" against source "the quick brown fox jumps over the lazy dog": five words, found verbatim, yet no quote | compare the last word too, and close any run still open after the last word | not executed | QuoteMatcher.ShortQueryFindsNothing | QuoteMatcher.WholeQueryFound |
| src/components/QuoteFinder/QuoteFinderControl.tsx:71-79 | each middle page is appended after a line feed, but the end page's head is appended without one | pages ["ab", "cd"] and a quote from (0, 0) to (1, 2) render as "abcd", not "ab\ncd" | append a line feed before the end page's head | not executed | QuoteRender.RenderQuoteDropsLineBreak | QuoteRender.QuoteTextCorrectedIsSpan |
