/** The tokenizer of src/workers/extractWords.js: splits a text into lines,
    scans every line for runs of non-break characters, normalises each run
    and records the surviving words with their position in the original
    text, reporting progress after every line.

    Unicode compatibility decomposition (`String.prototype.normalize('NFKD')`)
    depends on tables that are not part of this model; it is the parameter
    `nfkd` of every member that normalises. */
module Tokenizer {
  import Lines
  import Progress

  /** One recorded word: its normalised text, the line it is on and the
      end-exclusive character offsets of its raw run in that line. */
  datatype Word = Word(word: string, lineIndex: int, startCharIndex: int, endCharIndex: int)

  /** Space, em dash, tab, carriage return and line feed end a word. */
  const WordBreakChars: seq<char> := [' ', '\U{2014}', '\t', '\r', '\n']

  /** `WORD_BREAK_CHARS.includes(c)`, written out character by character. */
  predicate IsBreakChar(c: char)
  {
    c == ' ' || c == '\U{2014}' || c == '\t' || c == '\r' || c == '\n'
  }

  /** IsBreakChar is membership in WordBreakChars. */
  lemma BreakCharsListed(c: char)
    ensures IsBreakChar(c) <==> c in WordBreakChars
  {
  }

  /** The regular-expression class `\w` without the `u` flag: ASCII letters,
      digits and underscore. */
  predicate IsWordChar(c: char)
  {
    ('A' <= c <= 'Z') || ('a' <= c <= 'z') || ('0' <= c <= '9') || c == '_'
  }

  /** The characters a normalised word is made of. */
  predicate IsNormalChar(c: char)
  {
    ('a' <= c <= 'z') || ('0' <= c <= '9') || c == '_'
  }

  /** `s.replace(/[^\w]/g, '')`: keeps the word characters, in order. */
  function StripNonWord(s: string): string
  {
    if s == [] then []
    else (if IsWordChar(s[0]) then [s[0]] else []) + StripNonWord(s[1..])
  }

  /** Stripping keeps exactly the word characters: nothing else survives,
      every one that survives was in the input, and the result is empty
      exactly when the input holds no word character. */
  lemma {:induction false} StripNonWordKeepsWordChars(s: string)
    ensures |StripNonWord(s)| <= |s|
    ensures forall c :: c in StripNonWord(s) ==> IsWordChar(c) && c in s
    ensures StripNonWord(s) == [] <==> forall c :: c in s ==> !IsWordChar(c)
  {
    if s != [] {
      StripNonWordKeepsWordChars(s[1..]);
      assert forall c :: c in s[1..] ==> c in s;
      if !IsWordChar(s[0]) {
        assert forall c :: c in s ==> c == s[0] || c in s[1..];
      }
    }
  }

  function LowerChar(c: char): char
  {
    if 'A' <= c <= 'Z' then (c as int - 'A' as int + 'a' as int) as char else c
  }

  /** `toLowerCase()` on ASCII text; it is only ever applied to the output of
      StripNonWord, which holds ASCII characters only. */
  function ToLowerCase(s: string): string
  {
    if s == [] then [] else [LowerChar(s[0])] + ToLowerCase(s[1..])
  }

  /** Lowercasing maps every character on its own and keeps the length. */
  lemma {:induction false} ToLowerCaseCharwise(s: string)
    ensures |ToLowerCase(s)| == |s|
    ensures forall i :: 0 <= i < |s| ==> ToLowerCase(s)[i] == LowerChar(s[i])
  {
    if s != [] {
      ToLowerCaseCharwise(s[1..]);
    }
  }

  /** normalizeWord: decompose, drop every non-word character, lowercase. */
  function NormalizeWord(nfkd: string -> string, raw: string): string
  {
    ToLowerCase(StripNonWord(nfkd(raw)))
  }

  /** A normalised word holds only lower-case letters, digits and
      underscores, is empty exactly when the decomposed run holds no word
      character, and is never longer than the decomposed run. */
  lemma NormalizeWordShape(nfkd: string -> string, raw: string)
    ensures forall c :: c in NormalizeWord(nfkd, raw) ==> IsNormalChar(c)
    ensures NormalizeWord(nfkd, raw) == [] <==> forall c :: c in nfkd(raw) ==> !IsWordChar(c)
    ensures |NormalizeWord(nfkd, raw)| <= |nfkd(raw)|
  {
    var stripped := StripNonWord(nfkd(raw));
    StripNonWordKeepsWordChars(nfkd(raw));
    ToLowerCaseCharwise(stripped);
    var lowered := ToLowerCase(stripped);
    forall c | c in lowered ensures IsNormalChar(c) {
      var i :| 0 <= i < |lowered| && lowered[i] == c;
      assert stripped[i] in stripped;
    }
  }

  /** The scan of one line from position `i`, with `word` the raw run read
      so far and `start` the recorded start offset (-1 for none): the loop
      of extractWords, lines 18-37. */
  function ScanLine(norm: string -> string, line: string, lineIndex: int, i: nat, word: string, start: int): seq<Word>
    requires i <= |line|
    decreases |line| - i
  {
    if i == |line| then
      var w := norm(word);
      if w != [] then [Word(w, lineIndex, start, |line|)] else []
    else if IsBreakChar(line[i]) then
      var w := norm(word);
      if w != [] then [Word(w, lineIndex, start, i)] + ScanLine(norm, line, lineIndex, i + 1, [], -1)
      // the run normalised to the empty word: `word` becomes "", `start` is kept
      else ScanLine(norm, line, lineIndex, i + 1, [], start)
    else
      ScanLine(norm, line, lineIndex, i + 1, word + [line[i]], if start == -1 then i else start)
  }

  /** The words of the first `n` lines, in order. */
  function WordsOfLines(norm: string -> string, lines: seq<string>, n: nat): seq<Word>
    requires n <= |lines|
  {
    if n == 0 then []
    else WordsOfLines(norm, lines, n - 1) + ScanLine(norm, lines[n - 1], n - 1, 0, [], -1)
  }

  /** normalizeWord with the decomposition `nfkd`, as a function value. */
  function Normalizer(nfkd: string -> string): string -> string
  {
    raw => NormalizeWord(nfkd, raw)
  }

  /** The word list extractWords returns for `text`. */
  function Tokenize(nfkd: string -> string, text: string): seq<Word>
  {
    var lines := Lines.SplitLines(text);
    WordsOfLines(Normalizer(nfkd), lines, |lines|)
  }

  /** An empty run normalises to the empty word when the decomposition
      maps "" to "". */
  lemma NormalizerKeepsEmpty(nfkd: string -> string)
    requires nfkd([]) == []
    ensures Normalizer(nfkd)([]) == []
  {
    assert StripNonWord([]) == [];
  }

  // ----- The words of a line, by position -----

  /** The start of the raw run that ends at `e`: just after the last break
      character before `e`, or 0. */
  function RunStart(line: string, e: nat): (s: nat)
    requires e <= |line|
    ensures s <= e
    ensures s == 0 || IsBreakChar(line[s - 1])
  {
    if e == 0 then 0
    else if IsBreakChar(line[e - 1]) then e
    else RunStart(line, e - 1)
  }

  /** The raw run ending at `e` holds no break character. */
  lemma {:induction false} RunHasNoBreak(line: string, e: nat)
    requires e <= |line|
    ensures forall j :: RunStart(line, e) <= j < e ==> !IsBreakChar(line[j])
  {
    if e > 0 && !IsBreakChar(line[e - 1]) {
      RunHasNoBreak(line, e - 1);
    }
  }

  /** The raw characters a word ending at `e` was built from. */
  function Run(line: string, e: nat): string
    requires e <= |line|
  {
    line[RunStart(line, e)..e]
  }

  /** The first position at or after `from` that holds no break character,
      or the line length. */
  function FirstNonBreak(line: string, from: nat): (k: nat)
    requires from <= |line|
    ensures from <= k <= |line|
    ensures k < |line| ==> !IsBreakChar(line[k])
    decreases |line| - from
  {
    if from == |line| then from
    else if !IsBreakChar(line[from]) then from
    else FirstNonBreak(line, from + 1)
  }

  /** Everything FirstNonBreak skips is a break character. */
  lemma {:induction false} SkippedAreBreaks(line: string, from: nat)
    requires from <= |line|
    ensures forall j :: from <= j < FirstNonBreak(line, from) ==> IsBreakChar(line[j])
    decreases |line| - from
  {
    if from < |line| && IsBreakChar(line[from]) {
      SkippedAreBreaks(line, from + 1);
    }
  }

  /** Positions where the scan normalises a run: a break character or the
      end of the line. */
  predicate IsEmitPos(line: string, e: nat)
  {
    e == |line| || (e < |line| && IsBreakChar(line[e]))
  }

  /** The words of a line, described by position instead of by scanner
      state: a word ends at every emit position whose raw run normalises to a
      non-empty word, and it starts at the first non-break character after
      the previous word (or after the line start), however many runs that
      normalised to nothing lie in between. */
  function RefWords(norm: string -> string, line: string, lineIndex: int, e: nat, from: nat): seq<Word>
    requires from <= e
    decreases |line| + 1 - e
  {
    if e > |line| then []
    else if IsEmitPos(line, e) && norm(Run(line, e)) != [] then
      [Word(norm(Run(line, e)), lineIndex, FirstNonBreak(line, from), e)]
        + RefWords(norm, line, lineIndex, e + 1, e + 1)
    else RefWords(norm, line, lineIndex, e + 1, from)
  }

  /** `from` is the line start or just after a break character. */
  predicate AfterBreak(line: string, from: nat)
  {
    from <= |line| && (from == 0 || IsBreakChar(line[from - 1]))
  }

  lemma {:induction false} RunStartAtLeast(line: string, from: nat, e: nat)
    requires from <= e <= |line|
    requires from == 0 || IsBreakChar(line[from - 1])
    ensures RunStart(line, e) >= from
    decreases e
  {
    if e > from && !IsBreakChar(line[e - 1]) {
      RunStartAtLeast(line, from, e - 1);
    }
  }

  /** How the raw run changes when the scan moves past position `i`. */
  lemma RunStep(line: string, i: nat)
    requires i < |line|
    ensures IsBreakChar(line[i]) ==> Run(line, i + 1) == []
    ensures !IsBreakChar(line[i]) ==> Run(line, i + 1) == Run(line, i) + [line[i]]
  {
  }

  /** A non-empty raw run ending at `e` holds a non-break character at or
      after `from`, so the first one is before `e`. */
  lemma FirstNonBreakBeforeRunEnd(line: string, from: nat, e: nat)
    requires from <= e <= |line| && AfterBreak(line, from)
    requires Run(line, e) != []
    ensures FirstNonBreak(line, from) <= RunStart(line, e) < e
  {
    RunStartAtLeast(line, from, e);
    RunHasNoBreak(line, e);
    SkippedAreBreaks(line, from);
    assert !IsBreakChar(line[RunStart(line, e)]);
  }

  /** The scanner state at position `i`, given the position `from` just
      after the last recorded word: `word` is the raw run ending at `i`, and
      `start` is the first non-break position since `from` if there is one
      before `i`, else -1. */
  ghost predicate ScanState(line: string, i: nat, word: string, start: int, from: nat)
  {
    && from <= i <= |line|
    && AfterBreak(line, from)
    && word == Run(line, i)
    && start == (if FirstNonBreak(line, from) < i then FirstNonBreak(line, from) else -1)
  }

  /** Where the state moves to after position `i`: the three branches of
      the inner loop of extractWords. */
  lemma ScanStateStep(norm: string -> string, line: string, i: nat, word: string, start: int, from: nat)
    requires norm([]) == []
    requires ScanState(line, i, word, start, from) && i < |line|
    ensures IsBreakChar(line[i]) && norm(word) != [] ==>
              start == FirstNonBreak(line, from) && ScanState(line, i + 1, [], -1, i + 1)
    ensures IsBreakChar(line[i]) && norm(word) == [] ==>
              ScanState(line, i + 1, [], start, from)
    ensures !IsBreakChar(line[i]) ==>
              ScanState(line, i + 1, word + [line[i]], if start == -1 then i else start, from)
  {
    RunStep(line, i);
    if IsBreakChar(line[i]) {
      if norm(word) != [] {
        FirstNonBreakBeforeRunEnd(line, from, i);
      }
    } else {
      SkippedAreBreaks(line, from);
      assert FirstNonBreak(line, from) <= i;
    }
  }

  /** The scanner computes the positional description, whenever the
      decomposition maps the empty string to itself. */
  lemma {:induction false} ScanLineIsRef(norm: string -> string, line: string, lineIndex: int,
                                         i: nat, word: string, start: int, from: nat)
    requires norm([]) == []
    requires ScanState(line, i, word, start, from)
    ensures ScanLine(norm, line, lineIndex, i, word, start) == RefWords(norm, line, lineIndex, i, from)
    decreases |line| - i
  {
    if i == |line| {
      ScanLineEndIsRef(norm, line, lineIndex, word, start, from);
    } else {
      ScanStateStep(norm, line, i, word, start, from);
      if IsBreakChar(line[i]) {
        if norm(word) != [] {
          ScanLineIsRef(norm, line, lineIndex, i + 1, [], -1, i + 1);
          ScanBreakIsRef(norm, line, lineIndex, i, word, start, from);
        } else {
          RefSkips(norm, line, lineIndex, i, from);
          ScanLineIsRef(norm, line, lineIndex, i + 1, [], start, from);
        }
      } else {
        RefSkips(norm, line, lineIndex, i, from);
        ScanLineIsRef(norm, line, lineIndex, i + 1, word + [line[i]],
                      if start == -1 then i else start, from);
      }
    }
  }

  /** ScanLineIsRef at the end of the line. */
  lemma ScanLineEndIsRef(norm: string -> string, line: string, lineIndex: int, word: string, start: int, from: nat)
    requires norm([]) == []
    requires ScanState(line, |line|, word, start, from)
    ensures ScanLine(norm, line, lineIndex, |line|, word, start) == RefWords(norm, line, lineIndex, |line|, from)
  {
    if norm(word) != [] {
      FirstNonBreakBeforeRunEnd(line, from, |line|);
      RefEmits(norm, line, lineIndex, |line|, from);
    } else {
      RefSkips(norm, line, lineIndex, |line|, from);
    }
  }

  /** ScanLineIsRef at a break character that ends a surviving run. */
  lemma ScanBreakIsRef(norm: string -> string, line: string, lineIndex: int,
                       i: nat, word: string, start: int, from: nat)
    requires ScanState(line, i, word, start, from) && i < |line|
    requires IsBreakChar(line[i]) && norm(word) != [] && start == FirstNonBreak(line, from)
    requires ScanLine(norm, line, lineIndex, i + 1, [], -1) == RefWords(norm, line, lineIndex, i + 1, i + 1)
    ensures ScanLine(norm, line, lineIndex, i, word, start) == RefWords(norm, line, lineIndex, i, from)
  {
    RefEmits(norm, line, lineIndex, i, from);
  }

  /** The whole-line form of ScanLineIsRef. */
  lemma LineIsRef(norm: string -> string, line: string, lineIndex: int)
    requires norm([]) == []
    ensures ScanLine(norm, line, lineIndex, 0, [], -1) == RefWords(norm, line, lineIndex, 0, 0)
  {
    ScanLineIsRef(norm, line, lineIndex, 0, [], -1, 0);
  }

  /** A word is well formed for `line`: it is non-empty, is the normalised
      raw run that ends at its end offset, and 0 <= start < end <= |line|
      with the end at a break or at the line end. */
  ghost predicate WellFormedIn(norm: string -> string, w: Word, line: string)
  {
    && w.word != []
    && 0 <= w.startCharIndex < w.endCharIndex <= |line|
    && IsEmitPos(line, w.endCharIndex)
    && w.word == norm(Run(line, w.endCharIndex))
  }

  /** The word emitted at `e` is well formed. */
  lemma EmittedWellFormed(norm: string -> string, line: string, lineIndex: int, e: nat, from: nat)
    requires norm([]) == []
    requires from <= e <= |line| && AfterBreak(line, from)
    requires IsEmitPos(line, e) && norm(Run(line, e)) != []
    ensures var w := Word(norm(Run(line, e)), lineIndex, FirstNonBreak(line, from), e);
            from <= w.startCharIndex && WellFormedIn(norm, w, line)
  {
    FirstNonBreakBeforeRunEnd(line, from, e);
  }

  lemma {:induction false} RefWellFormed(norm: string -> string, line: string, lineIndex: int, e: nat, from: nat)
    requires norm([]) == []
    requires from <= e && AfterBreak(line, from)
    ensures forall w :: w in RefWords(norm, line, lineIndex, e, from) ==>
              w.lineIndex == lineIndex && from <= w.startCharIndex && e <= w.endCharIndex
              && WellFormedIn(norm, w, line)
    decreases |line| + 1 - e
  {
    if e <= |line| {
      var n := norm(Run(line, e));
      if IsEmitPos(line, e) && n != [] {
        RefEmits(norm, line, lineIndex, e, from);
        EmittedWellFormed(norm, line, lineIndex, e, from);
        if e < |line| {
          RefWellFormed(norm, line, lineIndex, e + 1, e + 1);
        }
      } else {
        RefSkips(norm, line, lineIndex, e, from);
        RefWellFormed(norm, line, lineIndex, e + 1, from);
      }
    }
  }

  /** An earlier word ends before a later one starts. */
  ghost predicate LeftToRight(r: seq<Word>)
  {
    forall a, b :: 0 <= a < b < |r| ==> r[a].endCharIndex < r[b].startCharIndex
  }

  /** One step of RefWords at an emit position whose run survives. */
  lemma RefEmits(norm: string -> string, line: string, lineIndex: int, e: nat, from: nat)
    requires from <= e <= |line|
    requires IsEmitPos(line, e) && norm(Run(line, e)) != []
    ensures RefWords(norm, line, lineIndex, e, from)
            == [Word(norm(Run(line, e)), lineIndex, FirstNonBreak(line, from), e)]
               + RefWords(norm, line, lineIndex, e + 1, e + 1)
    ensures e == |line| ==> RefWords(norm, line, lineIndex, e + 1, e + 1) == []
  {
  }

  lemma RefSkips(norm: string -> string, line: string, lineIndex: int, e: nat, from: nat)
    requires from <= e <= |line|
    requires !(IsEmitPos(line, e) && norm(Run(line, e)) != [])
    ensures RefWords(norm, line, lineIndex, e, from) == RefWords(norm, line, lineIndex, e + 1, from)
  {
  }

  lemma {:induction false} LeftToRightCons(w: Word, rest: seq<Word>)
    requires LeftToRight(rest)
    requires forall x :: x in rest ==> w.endCharIndex < x.startCharIndex
    ensures LeftToRight([w] + rest)
  {
    var r := [w] + rest;
    forall a, b | 0 <= a < b < |r| ensures r[a].endCharIndex < r[b].startCharIndex {
      assert r[b] == rest[b - 1];
      assert rest[b - 1] in rest;
      if a > 0 {
        assert r[a] == rest[a - 1];
      }
    }
  }

  /** The step of RefOrdered at a position that records a word. */
  lemma RefOrderedEmit(norm: string -> string, line: string, lineIndex: int, e: nat, from: nat)
    requires norm([]) == []
    requires from <= e <= |line| && AfterBreak(line, from)
    requires IsEmitPos(line, e) && norm(Run(line, e)) != []
    requires e < |line| ==> LeftToRight(RefWords(norm, line, lineIndex, e + 1, e + 1))
    ensures LeftToRight(RefWords(norm, line, lineIndex, e, from))
  {
    RefEmits(norm, line, lineIndex, e, from);
    var w := Word(norm(Run(line, e)), lineIndex, FirstNonBreak(line, from), e);
    if e < |line| {
      RefWellFormed(norm, line, lineIndex, e + 1, e + 1);
      LeftToRightCons(w, RefWords(norm, line, lineIndex, e + 1, e + 1));
    } else {
      LeftToRightCons(w, []);
    }
  }

  /** Words of a line come left to right and do not overlap. */
  lemma {:induction false} RefOrdered(norm: string -> string, line: string, lineIndex: int, e: nat, from: nat)
    requires norm([]) == []
    requires from <= e && AfterBreak(line, from)
    ensures LeftToRight(RefWords(norm, line, lineIndex, e, from))
    decreases |line| + 1 - e
  {
    if e <= |line| {
      var n := norm(Run(line, e));
      if IsEmitPos(line, e) && n != [] {
        if e < |line| {
          RefOrdered(norm, line, lineIndex, e + 1, e + 1);
        }
        RefOrderedEmit(norm, line, lineIndex, e, from);
      } else {
        RefSkips(norm, line, lineIndex, e, from);
        RefOrdered(norm, line, lineIndex, e + 1, from);
      }
    }
  }

  /** The first word starts at the first non-break position since `from`,
      and each later word at the first non-break position after the end of
      the word before it. */
  ghost predicate StartsAfterPrevious(line: string, from: nat, r: seq<Word>)
    decreases |r|
  {
    r == [] ||
    (&& from <= |line| && r[0].startCharIndex == FirstNonBreak(line, from)
     && 0 <= r[0].endCharIndex && (|r| > 1 ==> r[0].endCharIndex < |line|)
     && StartsAfterPrevious(line, r[0].endCharIndex + 1, r[1..]))
  }

  lemma StartsAfterPreviousCons(line: string, from: nat, w: Word, rest: seq<Word>)
    requires from <= |line| && w.startCharIndex == FirstNonBreak(line, from)
    requires 0 <= w.endCharIndex && (rest != [] ==> w.endCharIndex < |line|)
    requires StartsAfterPrevious(line, w.endCharIndex + 1, rest)
    ensures StartsAfterPrevious(line, from, [w] + rest)
  {
    assert ([w] + rest)[1..] == rest;
  }

  /** The start offset is not reset by a run that normalised to nothing:
      every word starts at the first non-break character after the previous
      word of its line. */
  lemma {:induction false} RefStarts(norm: string -> string, line: string, lineIndex: int, e: nat, from: nat)
    requires from <= e
    ensures StartsAfterPrevious(line, from, RefWords(norm, line, lineIndex, e, from))
    decreases |line| + 1 - e
  {
    if e <= |line| {
      var n := norm(Run(line, e));
      if IsEmitPos(line, e) && n != [] {
        RefStarts(norm, line, lineIndex, e + 1, e + 1);
        RefStartsEmit(norm, line, lineIndex, e, from);
      } else {
        RefSkips(norm, line, lineIndex, e, from);
        RefStarts(norm, line, lineIndex, e + 1, from);
      }
    }
  }

  /** The step of RefStarts at a position that records a word. */
  lemma RefStartsEmit(norm: string -> string, line: string, lineIndex: int, e: nat, from: nat)
    requires from <= e <= |line|
    requires IsEmitPos(line, e) && norm(Run(line, e)) != []
    requires StartsAfterPrevious(line, e + 1, RefWords(norm, line, lineIndex, e + 1, e + 1))
    ensures StartsAfterPrevious(line, from, RefWords(norm, line, lineIndex, e, from))
  {
    RefEmits(norm, line, lineIndex, e, from);
    var w := Word(norm(Run(line, e)), lineIndex, FirstNonBreak(line, from), e);
    StartsAfterPreviousCons(line, from, w, RefWords(norm, line, lineIndex, e + 1, e + 1));
  }

  lemma {:induction false} RefEndsAtLeast(norm: string -> string, line: string, lineIndex: int, e: nat, from: nat)
    requires from <= e
    ensures forall w :: w in RefWords(norm, line, lineIndex, e, from) ==> e <= w.endCharIndex <= |line|
    decreases |line| + 1 - e
  {
    if e <= |line| {
      if IsEmitPos(line, e) && norm(Run(line, e)) != [] {
        RefEndsAtLeast(norm, line, lineIndex, e + 1, e + 1);
      } else {
        RefEndsAtLeast(norm, line, lineIndex, e + 1, from);
      }
    }
  }

  /** No word is lost: every emit position at or after `e` whose raw run
      normalises to a non-empty word ends a recorded word. */
  lemma {:induction false} RefComplete(norm: string -> string, line: string, lineIndex: int, e: nat, from: nat)
    requires from <= e
    ensures forall p :: e <= p <= |line| && IsEmitPos(line, p) && norm(Run(line, p)) != [] ==>
              exists w :: w in RefWords(norm, line, lineIndex, e, from) && w.endCharIndex == p
    decreases |line| + 1 - e
  {
    if e <= |line| {
      var r := RefWords(norm, line, lineIndex, e, from);
      if IsEmitPos(line, e) && norm(Run(line, e)) != [] {
        RefComplete(norm, line, lineIndex, e + 1, e + 1);
        assert r[0] in r;
        assert forall w :: w in RefWords(norm, line, lineIndex, e + 1, e + 1) ==> w in r;
      } else {
        RefComplete(norm, line, lineIndex, e + 1, from);
      }
    }
  }

  /** The lines a text is split into. */
  function LinesOf(text: string): seq<string>
  {
    Lines.SplitLines(text)
  }

  lemma {:induction false} WordsOfLinesWellFormed(norm: string -> string, lines: seq<string>, n: nat)
    requires norm([]) == []
    requires n <= |lines|
    ensures forall w :: w in WordsOfLines(norm, lines, n) ==>
              0 <= w.lineIndex < n && WellFormedIn(norm, w, lines[w.lineIndex])
  {
    if n > 0 {
      WordsOfLinesWellFormed(norm, lines, n - 1);
      LineIsRef(norm, lines[n - 1], n - 1);
      RefWellFormed(norm, lines[n - 1], n - 1, 0, 0);
    }
  }

  /** Every word extractWords returns is non-empty, lowercase word
      characters only, lies on an existing line with
      0 <= startCharIndex < endCharIndex <= line length, ends at a break
      character or the line end, and is the normalised raw run ending
      there. */
  lemma TokenizeWellFormed(nfkd: string -> string, text: string)
    requires nfkd([]) == []
    ensures forall w :: w in Tokenize(nfkd, text) ==>
              && 0 <= w.lineIndex < |LinesOf(text)|
              && WellFormedIn(Normalizer(nfkd), w, LinesOf(text)[w.lineIndex])
              && forall c :: c in w.word ==> IsNormalChar(c)
  {
    var lines := LinesOf(text);
    NormalizerKeepsEmpty(nfkd);
    WordsOfLinesWellFormed(Normalizer(nfkd), lines, |lines|);
    forall w | w in Tokenize(nfkd, text)
      ensures forall c :: c in w.word ==> IsNormalChar(c)
    {
      NormalizeWordShape(nfkd, Run(lines[w.lineIndex], w.endCharIndex));
    }
  }

  /** Reading order: line indices never decrease, and on one line an
      earlier word ends before a later one starts. */
  ghost predicate InReadingOrder(ws: seq<Word>)
  {
    forall a, b :: 0 <= a < b < |ws| ==>
      ws[a].lineIndex < ws[b].lineIndex
      || (ws[a].lineIndex == ws[b].lineIndex && ws[a].endCharIndex < ws[b].startCharIndex)
  }

  lemma {:induction false} WordsOfLinesOrdered(norm: string -> string, lines: seq<string>, n: nat)
    requires norm([]) == []
    requires n <= |lines|
    ensures InReadingOrder(WordsOfLines(norm, lines, n))
  {
    if n > 0 {
      WordsOfLinesOrdered(norm, lines, n - 1);
      WordsOfLinesWellFormed(norm, lines, n - 1);
      LineIsRef(norm, lines[n - 1], n - 1);
      RefWellFormed(norm, lines[n - 1], n - 1, 0, 0);
      RefOrdered(norm, lines[n - 1], n - 1, 0, 0);
      var before := WordsOfLines(norm, lines, n - 1);
      var last := RefWords(norm, lines[n - 1], n - 1, 0, 0);
      var all := WordsOfLines(norm, lines, n);
      assert all == before + last;
      forall a, b | 0 <= a < b < |all|
        ensures all[a].lineIndex < all[b].lineIndex
                || (all[a].lineIndex == all[b].lineIndex && all[a].endCharIndex < all[b].startCharIndex)
      {
        if a < |before| && b >= |before| {
          assert all[a] in before;
          assert all[b] in last;
        }
      }
    }
  }

  /** extractWords returns its words in reading order. */
  lemma TokenizeOrdered(nfkd: string -> string, text: string)
    requires nfkd([]) == []
    ensures InReadingOrder(Tokenize(nfkd, text))
  {
    NormalizerKeepsEmpty(nfkd);
    WordsOfLinesOrdered(Normalizer(nfkd), LinesOf(text), |LinesOf(text)|);
  }

  /** Some raw run of the first `n` lines normalises to a non-empty word. */
  ghost predicate SomeRunSurvives(norm: string -> string, lines: seq<string>, n: nat)
    requires n <= |lines|
  {
    exists li, p :: 0 <= li < n && 0 <= p <= |lines[li]| && IsEmitPos(lines[li], p)
                    && norm(Run(lines[li], p)) != []
  }

  lemma {:induction false} RefEmptyIff(norm: string -> string, line: string, lineIndex: int, e: nat, from: nat)
    requires from <= e
    ensures RefWords(norm, line, lineIndex, e, from) == [] <==>
            forall p :: e <= p <= |line| && IsEmitPos(line, p) ==> norm(Run(line, p)) == []
    decreases |line| + 1 - e
  {
    RefComplete(norm, line, lineIndex, e, from);
    RefEndsAtLeast(norm, line, lineIndex, e, from);
    if e <= |line| {
      if IsEmitPos(line, e) && norm(Run(line, e)) != [] {
      } else {
        RefEmptyIff(norm, line, lineIndex, e + 1, from);
      }
    }
  }

  /** Some raw run of `line` normalises to a non-empty word. */
  ghost predicate LineHasSurvivor(norm: string -> string, line: string)
  {
    exists p :: 0 <= p <= |line| && IsEmitPos(line, p) && norm(Run(line, p)) != []
  }

  /** A surviving run of the first n lines is one of the first n - 1 lines
      or one of line n - 1. */
  lemma SomeRunSurvivesStep(norm: string -> string, lines: seq<string>, n: nat)
    requires 0 < n <= |lines|
    ensures SomeRunSurvives(norm, lines, n) <==>
            SomeRunSurvives(norm, lines, n - 1) || LineHasSurvivor(norm, lines[n - 1])
  {
    if SomeRunSurvives(norm, lines, n) && !SomeRunSurvives(norm, lines, n - 1) {
      var li, p :| 0 <= li < n && 0 <= p <= |lines[li]| && IsEmitPos(lines[li], p)
                   && norm(Run(lines[li], p)) != [];
      assert li == n - 1;
    }
    if LineHasSurvivor(norm, lines[n - 1]) {
      var p :| 0 <= p <= |lines[n - 1]| && IsEmitPos(lines[n - 1], p)
               && norm(Run(lines[n - 1], p)) != [];
      assert 0 <= n - 1 < n;
    }
  }

  /** The line scan gives no word exactly when no run of the line survives. */
  lemma LineEmptyIff(norm: string -> string, line: string, lineIndex: int)
    requires norm([]) == []
    ensures ScanLine(norm, line, lineIndex, 0, [], -1) == [] <==> !LineHasSurvivor(norm, line)
  {
    LineIsRef(norm, line, lineIndex);
    RefEmptyIff(norm, line, lineIndex, 0, 0);
  }

  lemma {:induction false} WordsOfLinesEmptyIff(norm: string -> string, lines: seq<string>, n: nat)
    requires norm([]) == []
    requires n <= |lines|
    ensures WordsOfLines(norm, lines, n) == [] <==> !SomeRunSurvives(norm, lines, n)
  {
    if n > 0 {
      WordsOfLinesEmptyIff(norm, lines, n - 1);
      LineEmptyIff(norm, lines[n - 1], n - 1);
      SomeRunSurvivesStep(norm, lines, n);
    }
  }

  /** extractWords returns no word exactly when no raw run of any line
      survives normalisation; in particular for the empty text. */
  lemma TokenizeEmptyIff(nfkd: string -> string, text: string)
    requires nfkd([]) == []
    ensures Tokenize(nfkd, text) == [] <==> !SomeRunSurvives(Normalizer(nfkd), LinesOf(text), |LinesOf(text)|)
    ensures text == [] ==> Tokenize(nfkd, text) == []
  {
    NormalizerKeepsEmpty(nfkd);
    WordsOfLinesEmptyIff(Normalizer(nfkd), LinesOf(text), |LinesOf(text)|);
    if text == [] {
      assert LinesOf(text) == [[]];
      assert Run([], 0) == [];
    }
  }

  /** Scanning characters that are not break characters only extends the
      raw run. */
  lemma {:induction false} ScanRun(norm: string -> string, line: string, lineIndex: int, i: nat, j: nat, word: string, start: int)
    requires i <= j <= |line|
    requires forall k :: i <= k < j ==> !IsBreakChar(line[k])
    ensures ScanLine(norm, line, lineIndex, i, word, start)
         == ScanLine(norm, line, lineIndex, j, word + line[i..j], if i < j && start == -1 then i else start)
    decreases j - i
  {
    if i < j {
      ScanRun(norm, line, lineIndex, i + 1, j, word + [line[i]], if start == -1 then i else start);
      assert word + [line[i]] + line[i + 1..j] == word + line[i..j];
    } else {
      assert word + line[i..j] == word;
    }
  }

  /** A run that normalises to nothing is dropped, but the next word keeps
      its start: here "hi" is reported from index 0, where the dashes begin. */
  lemma DroppedRunKeepsStart(nfkd: string -> string, line: string)
    requires line == "-- Hi"
    requires nfkd("--") == "--" && nfkd("Hi") == "Hi"
    ensures ScanLine(Normalizer(nfkd), line, 0, 0, [], -1) == [Word("hi", 0, 0, 5)]
  {
    var norm := Normalizer(nfkd);
    assert ScanLine(norm, line, 0, 3, [], 0) == [Word("hi", 0, 0, 5)] by {
      assert !IsBreakChar(line[3]) && !IsBreakChar(line[4]);
      ScanRun(norm, line, 0, 3, 5, [], 0);
      var hi := [] + line[3..5];
      assert hi == "Hi";
      assert StripNonWord("Hi") == "Hi" by {
        assert "Hi"[1..] == "i" && "i"[1..] == [];
      }
      assert ToLowerCase("Hi") == "hi" by {
        assert "Hi"[1..] == "i" && "i"[1..] == [];
      }
      assert norm(hi) == "hi";
    }
    assert ScanLine(norm, line, 0, 0, [], -1) == ScanLine(norm, line, 0, 3, [], 0) by {
      assert !IsBreakChar(line[0]) && !IsBreakChar(line[1]);
      ScanRun(norm, line, 0, 0, 2, [], -1);
      var dashes := [] + line[0..2];
      assert dashes == "--";
      assert norm(dashes) == [];
      assert IsBreakChar(line[2]);
    }
  }

  /** TokenizeWellFormed and TokenizeOrdered in the form ExtractWords
      states them, so that the method's proof uses one fact per clause. */
  lemma TokenizeFacts(nfkd: string -> string, text: string)
    ensures nfkd([]) == [] ==>
              forall w :: w in Tokenize(nfkd, text) ==>
                && 0 <= w.lineIndex < |LinesOf(text)|
                && WellFormedIn(Normalizer(nfkd), w, LinesOf(text)[w.lineIndex])
                && forall c :: c in w.word ==> IsNormalChar(c)
    ensures nfkd([]) == [] ==> InReadingOrder(Tokenize(nfkd, text))
  {
    if nfkd([]) == [] {
      TokenizeWellFormed(nfkd, text);
      TokenizeOrdered(nfkd, text);
    }
  }

  /** One pass of extractWords' outer loop over a line: the inner loop and
      the flush at the end of the line push that line's words onto `before`. */
  method ScanLineInto(nfkd: string -> string, line: string, lineIndex: int, before: seq<Word>) returns (words: seq<Word>)
    ensures words == before + ScanLine(Normalizer(nfkd), line, lineIndex, 0, [], -1)
  {
    words := before;
    var word := [];
    var startCharIndex := -1;
    var charIndex := 0;
    while charIndex < |line|
      invariant 0 <= charIndex <= |line|
      invariant words + ScanLine(Normalizer(nfkd), line, lineIndex, charIndex, word, startCharIndex)
                == before + ScanLine(Normalizer(nfkd), line, lineIndex, 0, [], -1)
    {
      var c := line[charIndex];
      if IsBreakChar(c) {
        word := NormalizeWord(nfkd, word);
        if word != [] {
          words := words + [Word(word, lineIndex, startCharIndex, charIndex)];
          word := [];
          startCharIndex := -1;
        }
      } else {
        if startCharIndex == -1 {
          startCharIndex := charIndex;
        }
        word := word + [c];
      }
      charIndex := charIndex + 1;
    }
    word := NormalizeWord(nfkd, word);
    if word != [] {
      words := words + [Word(word, lineIndex, startCharIndex, |line|)];
    }
  }

  /** extractWords: the word list, and the values passed to the progress
      callback, in order. The words are well formed and in reading order
      whenever the decomposition maps "" to ""; the reports start at 0, rise
      strictly and end at 100, as there is always at least one line. */
  method ExtractWords(nfkd: string -> string, text: string) returns (words: seq<Word>, progress: seq<nat>)
    ensures words == Tokenize(nfkd, text)
    ensures nfkd([]) == [] ==>
              forall w :: w in words ==>
                && 0 <= w.lineIndex < |LinesOf(text)|
                && WellFormedIn(Normalizer(nfkd), w, LinesOf(text)[w.lineIndex])
                && forall c :: c in w.word ==> IsNormalChar(c)
    ensures nfkd([]) == [] ==> InReadingOrder(words)
    ensures progress == Progress.Reports(|LinesOf(text)|, |LinesOf(text)|)
    ensures progress[0] == 0 && Progress.Last(progress) == 100
    ensures forall a, b :: 0 <= a < b < |progress| ==> progress[a] < progress[b]
  {
    var progressPercent := 0;
    progress := [progressPercent];

    var lines := Lines.SplitLines(text);
    words := [];
    var lineIndex := 0;
    while lineIndex < |lines|
      invariant 0 <= lineIndex <= |lines|
      invariant words == WordsOfLines(Normalizer(nfkd), lines, lineIndex)
      invariant progress == Progress.Reports(|lines|, lineIndex)
      invariant progressPercent == Progress.Last(progress)
    {
      words := ScanLineInto(nfkd, lines[lineIndex], lineIndex, words);

      Progress.ReportsStep(|lines|, lineIndex);
      var currentProgressPercent := Progress.Percent(lineIndex + 1, |lines|);
      if currentProgressPercent > progressPercent {
        progressPercent := currentProgressPercent;
        progress := progress + [progressPercent];
      }
      lineIndex := lineIndex + 1;
    }
    TokenizeFacts(nfkd, text);
    Progress.ReportsIncreasing(|lines|, |lines|);
    Progress.FinalReportIsHundred(|lines|);
  }
}
