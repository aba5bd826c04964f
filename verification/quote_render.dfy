/** How the quote table shows a quote: its page label, its text taken from
    the lines of the source text, and the order of the rows. */
module QuoteRender {
  import Lines
  import opened QuoteMatcher

  datatype Option<T> = None | Some(value: T)

  // ----- Numbers as text -----

  function DigitChar(d: nat): (c: char)
    requires d < 10
    ensures '0' <= c <= '9' && c as int - '0' as int == d
  {
    (d + '0' as int) as char
  }

  /** Decimal digits of n, without leading zeros. */
  function NatToString(n: nat): (s: string)
    ensures |s| >= 1 && (forall i :: 0 <= i < |s| ==> '0' <= s[i] <= '9')
    ensures s[0] == '0' <==> n == 0
    ensures s[0] == '0' ==> |s| == 1
    decreases n
  {
    if n < 10 then [DigitChar(n)] else NatToString(n / 10) + [DigitChar(n % 10)]
  }

  /** A number in template-literal text: a minus sign before negatives. */
  function IntToString(i: int): (s: string)
    ensures ' ' !in s
  {
    if i < 0 then "-" + NatToString(-i) else NatToString(i)
  }

  /** The value of a string of decimal digits. */
  function DigitsValue(s: string): nat
  {
    if s == [] then 0
    else
      var d := s[|s| - 1] as int - '0' as int;
      DigitsValue(s[..|s| - 1]) * 10 + (if 0 <= d < 10 then d else 0)
  }

  function ParseInt(s: string): int
  {
    if |s| > 0 && s[0] == '-' then -(DigitsValue(s[1..]) as int) else DigitsValue(s)
  }

  lemma {:induction false} NatToStringValue(n: nat)
    ensures DigitsValue(NatToString(n)) == n
    decreases n
  {
    var s := NatToString(n);
    if n >= 10 {
      NatToStringValue(n / 10);
      assert s[..|s| - 1] == NatToString(n / 10);
    }
  }

  /** Reading the number back gives the number written. */
  lemma IntToStringRoundTrip(i: int)
    ensures ParseInt(IntToString(i)) == i
  {
    if i < 0 {
      NatToStringValue(-i);
      assert ("-" + NatToString(-i))[1..] == NatToString(-i);
    } else {
      NatToStringValue(i);
    }
  }

  // ----- The page column -----

  /** The page label: the 1-based start line, then " - " and the 1-based end
      line when the quote spans more than one line. */
  function RenderPage(q: Quote): (r: string)
    ensures ' ' in r <==> q.startLineIndex != q.endLineIndex
  {
    var first := IntToString(q.startLineIndex + 1);
    if q.startLineIndex != q.endLineIndex then
      assert (first + " - " + IntToString(q.endLineIndex + 1))[|first|] == ' ';
      first + " - " + IntToString(q.endLineIndex + 1)
    else first
  }

  /** Index of the first `c` in s, or |s|. */
  function IndexOf(s: string, c: char): (i: nat)
    ensures i <= |s| && c !in s[..i] && (i < |s| ==> s[i] == c)
  {
    if s == [] then 0
    else if s[0] == c then 0
    else
      var i := 1 + IndexOf(s[1..], c);
      assert s[..i] == [s[0]] + s[1..][..i - 1];
      i
  }

  /** Reads a page label back as its first and last line numbers. */
  function ParsePage(text: string): (int, int)
  {
    var i := IndexOf(text, ' ');
    if i == |text| then (ParseInt(text), ParseInt(text))
    else (ParseInt(text[..i]), ParseInt(if i + 3 <= |text| then text[i + 3..] else []))
  }

  lemma {:induction false} IndexOfAfter(a: string, c: char, b: string)
    requires c !in a
    ensures IndexOf(a + [c] + b, c) == |a|
  {
    if a != [] {
      assert (a + [c] + b)[1..] == a[1..] + [c] + b;
      IndexOfAfter(a[1..], c, b);
    }
  }

  /** The label determines the line span of the quote. */
  lemma RenderPageRoundTrip(q: Quote)
    ensures ParsePage(RenderPage(q)) == (q.startLineIndex + 1, q.endLineIndex + 1)
  {
    var first := IntToString(q.startLineIndex + 1);
    IntToStringRoundTrip(q.startLineIndex + 1);
    if q.startLineIndex != q.endLineIndex {
      var last := IntToString(q.endLineIndex + 1);
      IntToStringRoundTrip(q.endLineIndex + 1);
      SplitAtSeparator(first, last);
    }
  }

  lemma SplitAtSeparator(first: string, last: string)
    requires ' ' !in first
    ensures ParsePage(first + " - " + last) == (ParseInt(first), ParseInt(last))
  {
    var text := first + " - " + last;
    assert text == first + [' '] + ("- " + last);
    IndexOfAfter(first, ' ', "- " + last);
    assert text[..|first|] == first;
    assert text[|first| + 3..] == last;
  }

  // ----- The quote column -----

  function Clamp(x: int, len: nat): (r: nat)
    ensures r <= len
    ensures x < 0 ==> r == 0
    ensures 0 <= x <= len ==> r == x
    ensures x > len ==> r == len
  {
    if x < 0 then 0 else if x > len then len else x
  }

  /** String.prototype.substring: both bounds are clamped to the string, and
      the smaller one is taken as the start. */
  function Substring(s: string, start: int, end: int): (r: string)
    ensures |r| <= |s|
    ensures 0 <= start <= end <= |s| ==> r == s[start..end]
    ensures 0 <= end <= start <= |s| ==> r == s[end..start]
  {
    var a, b := Clamp(start, |s|), Clamp(end, |s|);
    if a <= b then s[a..b] else s[b..a]
  }

  /** The bounds of substring are interchangeable. */
  lemma {:induction false} SubstringSymmetric(s: string, start: int, end: int)
    ensures Substring(s, start, end) == Substring(s, end, start)
  {
    var a, b := Clamp(start, |s|), Clamp(end, |s|);
    if a == b {
      assert s[a..b] == [];
    }
  }

  /** What renderQuote produces, or None where it fails because a line it
      reads is missing from the source text. */
  function QuoteText(lines: seq<string>, q: Quote): Option<string>
  {
    var s, e := q.startLineIndex, q.endLineIndex;
    if !(0 <= s < |lines|) then None
    else if s == e then Some(Substring(lines[s], q.startCharIndex, q.endCharIndex))
    else if !(0 <= e < |lines|) then None
    else Some(Substring(lines[s], q.startCharIndex, |lines[s]|)
              + (if s + 1 < e then Lines.Prefixed(lines[s + 1..e]) else [])
              + Substring(lines[e], 0, q.endCharIndex))
  }

  /** renderQuote. */
  method RenderQuote(lines: seq<string>, q: Quote) returns (r: Option<string>)
    ensures r == QuoteText(lines, q)
    ensures r.None? <==>
              !(0 <= q.startLineIndex < |lines|)
              || (q.startLineIndex != q.endLineIndex && !(0 <= q.endLineIndex < |lines|))
  {
    var startLineIndex, endLineIndex := q.startLineIndex, q.endLineIndex;
    if !(0 <= startLineIndex < |lines|) {
      return None;
    }
    if startLineIndex == endLineIndex {
      return Some(Substring(lines[startLineIndex], q.startCharIndex, q.endCharIndex));
    }
    if !(0 <= endLineIndex < |lines|) {
      // the source fails when it reads the end line
      return None;
    }
    var quote := Substring(lines[startLineIndex], q.startCharIndex, |lines[startLineIndex]|);
    var lineIndex := startLineIndex + 1;
    while lineIndex < endLineIndex
      invariant startLineIndex < lineIndex && (lineIndex <= endLineIndex || lineIndex == startLineIndex + 1)
      invariant quote == Substring(lines[startLineIndex], q.startCharIndex, |lines[startLineIndex]|)
                         + Lines.Prefixed(lines[startLineIndex + 1..lineIndex])
    {
      assert lines[startLineIndex + 1..lineIndex + 1][..lineIndex - startLineIndex - 1]
          == lines[startLineIndex + 1..lineIndex];
      quote := quote + [Lines.NewLine] + lines[lineIndex];
      lineIndex := lineIndex + 1;
    }
    assert lines[startLineIndex + 1..startLineIndex + 1] == [];
    quote := quote + Substring(lines[endLineIndex], 0, q.endCharIndex);
    return Some(quote);
  }

  /** The text of lines s..e of the source, as it stands in the source text:
      the lines joined by line feeds. */
  function Block(lines: seq<string>, s: nat, e: nat): string
    requires s <= e < |lines|
  {
    Lines.JoinLines(lines[s..e + 1])
  }

  /** A quote from (s, sc) to (e, ec) as a piece of the source text. */
  function Span(lines: seq<string>, q: Quote): string
    requires 0 <= q.startLineIndex <= q.endLineIndex < |lines|
    requires 0 <= q.startCharIndex <= |lines[q.startLineIndex]|
    requires 0 <= q.endCharIndex <= |lines[q.endLineIndex]|
    requires q.startLineIndex == q.endLineIndex ==> q.startCharIndex <= q.endCharIndex
  {
    var block := Block(lines, q.startLineIndex, q.endLineIndex);
    assert |block| >= |lines[q.endLineIndex]| + (if q.startLineIndex < q.endLineIndex then |lines[q.startLineIndex]| + 1 else 0) by {
      BlockShape(lines, q.startLineIndex, q.endLineIndex);
    }
    block[q.startCharIndex..|block| - |lines[q.endLineIndex]| + q.endCharIndex]
  }

  lemma BlockShape(lines: seq<string>, s: nat, e: nat)
    requires s <= e < |lines|
    ensures s == e ==> Block(lines, s, e) == lines[s]
    ensures s < e ==> Block(lines, s, e) == lines[s] + Lines.Prefixed(lines[s + 1..e]) + [Lines.NewLine] + lines[e]
  {
    var ls := lines[s..e + 1];
    if s == e {
      assert ls[1..] == [];
    } else {
      assert ls[1..] == lines[s + 1..e + 1];
      assert lines[s + 1..e + 1][..e - s - 1] == lines[s + 1..e];
    }
  }

  lemma MiddleShape(lines: seq<string>, s: nat, e: nat)
    requires s < e < |lines|
    ensures (if s + 1 < e then Lines.Prefixed(lines[s + 1..e]) else []) == Lines.Prefixed(lines[s + 1..e])
  {
    if s + 1 == e {
      assert lines[s + 1..e] == [];
    }
  }

  lemma SpanShape(lines: seq<string>, q: Quote)
    requires 0 <= q.startLineIndex <= q.endLineIndex < |lines|
    requires 0 <= q.startCharIndex <= |lines[q.startLineIndex]|
    requires 0 <= q.endCharIndex <= |lines[q.endLineIndex]|
    requires q.startLineIndex == q.endLineIndex ==> q.startCharIndex <= q.endCharIndex
    ensures var s, e, sc, ec := q.startLineIndex, q.endLineIndex, q.startCharIndex, q.endCharIndex;
            && (s == e ==> Span(lines, q) == lines[s][sc..ec])
            && (s < e ==> Span(lines, q) == lines[s][sc..] + Lines.Prefixed(lines[s + 1..e]) + [Lines.NewLine] + lines[e][..ec])
  {
    var s, e, sc, ec := q.startLineIndex, q.endLineIndex, q.startCharIndex, q.endCharIndex;
    BlockShape(lines, s, e);
    if s < e {
      var first, rest := lines[s], Lines.Prefixed(lines[s + 1..e]) + [Lines.NewLine];
      var block := first + rest + lines[e];
      assert Block(lines, s, e) == block;
      var stop := |block| - |lines[e]| + ec;
      assert stop == |first| + |rest| + ec;
      assert block[sc..stop] == first[sc..] + rest + lines[e][..ec];
    }
  }

  /** As written, a quote over several lines loses the line feed before its
      last line: its text is the span of the source text with that one line
      feed taken out. */
  lemma RenderQuoteDropsLineBreak(lines: seq<string>, q: Quote)
    requires 0 <= q.startLineIndex < q.endLineIndex < |lines|
    requires 0 <= q.startCharIndex <= |lines[q.startLineIndex]|
    requires 0 <= q.endCharIndex <= |lines[q.endLineIndex]|
    ensures var span := Span(lines, q);
            var k := |span| - q.endCharIndex - 1;
            && 0 <= k < |span| && span[k] == Lines.NewLine
            && QuoteText(lines, q) == Some(span[..k] + span[k + 1..])
  {
    var s, e, sc, ec := q.startLineIndex, q.endLineIndex, q.startCharIndex, q.endCharIndex;
    var head := lines[s][sc..] + Lines.Prefixed(lines[s + 1..e]);
    var tail := lines[e][..ec];
    assert Span(lines, q) == head + [Lines.NewLine] + tail by {
      SpanShape(lines, q);
    }
    assert QuoteText(lines, q) == Some(head + tail) by {
      QuoteTextShape(lines, q);
    }
    DropOne(head, Lines.NewLine, tail);
  }

  /** The text renderQuote gives a quote over several lines within the
      source text. */
  lemma QuoteTextShape(lines: seq<string>, q: Quote)
    requires 0 <= q.startLineIndex < q.endLineIndex < |lines|
    requires 0 <= q.startCharIndex <= |lines[q.startLineIndex]|
    requires 0 <= q.endCharIndex <= |lines[q.endLineIndex]|
    ensures var s, e := q.startLineIndex, q.endLineIndex;
            QuoteText(lines, q)
              == Some(lines[s][q.startCharIndex..] + Lines.Prefixed(lines[s + 1..e]) + lines[e][..q.endCharIndex])
  {
    var s, e := q.startLineIndex, q.endLineIndex;
    MiddleShape(lines, s, e);
    assert Substring(lines[s], q.startCharIndex, |lines[s]|) == lines[s][q.startCharIndex..];
    assert Substring(lines[e], 0, q.endCharIndex) == lines[e][..q.endCharIndex];
  }

  lemma DropOne(head: string, c: char, tail: string)
    ensures var t := head + [c] + tail;
            var k := |t| - |tail| - 1;
            k == |head| && t[k] == c && t[..k] + t[k + 1..] == head + tail
  {
    var t := head + [c] + tail;
    assert t[..|head|] == head;
    assert t[|head| + 1..] == tail;
  }

  /** renderQuote with the line feed before the last line kept. */
  function QuoteTextCorrected(lines: seq<string>, q: Quote): Option<string>
  {
    var s, e := q.startLineIndex, q.endLineIndex;
    if !(0 <= s < |lines|) then None
    else if s == e then Some(Substring(lines[s], q.startCharIndex, q.endCharIndex))
    else if !(0 <= e < |lines|) then None
    else if s < e then
      Some(Substring(lines[s], q.startCharIndex, |lines[s]|)
           + Lines.Prefixed(lines[s + 1..e]) + [Lines.NewLine]
           + Substring(lines[e], 0, q.endCharIndex))
    else Some(Substring(lines[s], q.startCharIndex, |lines[s]|) + Substring(lines[e], 0, q.endCharIndex))
  }

  /** The corrected text of a quote is exactly its span of the source text. */
  lemma QuoteTextCorrectedIsSpan(lines: seq<string>, q: Quote)
    requires 0 <= q.startLineIndex <= q.endLineIndex < |lines|
    requires 0 <= q.startCharIndex <= |lines[q.startLineIndex]|
    requires 0 <= q.endCharIndex <= |lines[q.endLineIndex]|
    requires q.startLineIndex == q.endLineIndex ==> q.startCharIndex <= q.endCharIndex
    ensures QuoteTextCorrected(lines, q) == Some(Span(lines, q))
  {
    var s, e, sc, ec := q.startLineIndex, q.endLineIndex, q.startCharIndex, q.endCharIndex;
    SpanShape(lines, q);
    if s < e {
      assert Substring(lines[s], sc, |lines[s]|) == lines[s][sc..];
      assert Substring(lines[e], 0, ec) == lines[e][..ec];
    }
  }

  /** Quotes over one line are the same either way. */
  lemma SingleLineUnchanged(lines: seq<string>, q: Quote)
    requires q.startLineIndex == q.endLineIndex
    ensures QuoteTextCorrected(lines, q) == QuoteText(lines, q)
  {
  }

  /** The rendered text of a quote over several lines holds one line feed
      fewer than the lines it crosses, when the lines hold none themselves. */
  lemma RenderQuoteLineFeeds(lines: seq<string>, q: Quote)
    requires 0 <= q.startLineIndex < q.endLineIndex < |lines|
    requires forall i :: 0 <= i < |lines| ==> Lines.NewLine !in lines[i]
    ensures QuoteText(lines, q).Some?
    ensures Lines.Count(QuoteText(lines, q).value, Lines.NewLine) == q.endLineIndex - q.startLineIndex - 1
  {
    var s, e := q.startLineIndex, q.endLineIndex;
    MiddleShape(lines, s, e);
    var first := Substring(lines[s], q.startCharIndex, |lines[s]|);
    var mid := Lines.Prefixed(lines[s + 1..e]);
    var last := Substring(lines[e], 0, q.endCharIndex);
    SubstringNoNewLine(lines[s], q.startCharIndex, |lines[s]|);
    SubstringNoNewLine(lines[e], 0, q.endCharIndex);
    Lines.CountAbsent(first, Lines.NewLine);
    Lines.CountAbsent(last, Lines.NewLine);
    Lines.PrefixedNewLines(lines[s + 1..e]);
    Lines.CountAppend(first + mid, last, Lines.NewLine);
    Lines.CountAppend(first, mid, Lines.NewLine);
  }

  lemma SubstringNoNewLine(s: string, start: int, end: int)
    requires Lines.NewLine !in s
    ensures Lines.NewLine !in Substring(s, start, end)
  {
    var r := Substring(s, start, end);
    var a, b := Clamp(start, |s|), Clamp(end, |s|);
    forall i | 0 <= i < |r| ensures r[i] != Lines.NewLine {
      if a <= b {
        assert r[i] == s[a + i];
      } else {
        assert r[i] == s[b + i];
      }
    }
  }

  // ----- Row order -----

  /** The two comparators of the table: by start character, by start line. */
  datatype SortKey = StartChar | StartLine

  function Key(key: SortKey, q: Quote): int
  {
    match key
    case StartChar => q.startCharIndex
    case StartLine => q.startLineIndex
  }

  ghost predicate SortedBy(s: seq<Quote>, key: SortKey)
  {
    forall k, l :: 0 <= k < l < |s| ==> Key(key, s[k]) <= Key(key, s[l])
  }

  /** The display order: by start line, and by start character within a line. */
  ghost predicate InDisplayOrder(s: seq<Quote>)
  {
    forall k, l :: 0 <= k < l < |s| ==>
      s[k].startLineIndex < s[l].startLineIndex
      || (s[k].startLineIndex == s[l].startLineIndex && s[k].startCharIndex <= s[l].startCharIndex)
  }

  /** The quotes of s whose key is v, in their order in s. */
  function WithKey(s: seq<Quote>, key: SortKey, v: int): (r: seq<Quote>)
    ensures |r| <= |s|
    ensures forall i :: 0 <= i < |r| ==> Key(key, r[i]) == v
  {
    if s == [] then []
    else WithKey(s[..|s| - 1], key, v) + (if Key(key, s[|s| - 1]) == v then [s[|s| - 1]] else [])
  }

  lemma {:induction false} WithKeyAppend(a: seq<Quote>, b: seq<Quote>, key: SortKey, v: int)
    ensures WithKey(a + b, key, v) == WithKey(a, key, v) + WithKey(b, key, v)
    decreases |b|
  {
    if b == [] {
      assert a + b == a;
    } else {
      var b' := b[..|b| - 1];
      assert (a + b)[..|a + b| - 1] == a + b';
      WithKeyAppend(a, b', key, v);
    }
  }

  lemma WithKeyPair(x: Quote, y: Quote, key: SortKey, v: int)
    requires Key(key, x) != Key(key, y)
    ensures WithKey([x, y], key, v) == WithKey([y, x], key, v)
  {
    assert [x, y][..1] == [x];
    assert [y, x][..1] == [y];
  }

  /** Swapping two neighbours with different keys changes no key's
      subsequence. */
  lemma SwapKeepsWithKey(s: seq<Quote>, j: nat, key: SortKey, v: int)
    requires j + 1 < |s| && Key(key, s[j]) != Key(key, s[j + 1])
    ensures WithKey(s[..j] + [s[j + 1], s[j]] + s[j + 2..], key, v) == WithKey(s, key, v)
  {
    var pre, post := s[..j], s[j + 2..];
    assert s == pre + [s[j], s[j + 1]] + post;
    WithKeyAppend(pre + [s[j + 1], s[j]], post, key, v);
    WithKeyAppend(pre, [s[j + 1], s[j]], key, v);
    WithKeyAppend(pre + [s[j], s[j + 1]], post, key, v);
    WithKeyAppend(pre, [s[j], s[j + 1]], key, v);
    WithKeyPair(s[j], s[j + 1], key, v);
  }

  /** Exchanges a[j] and a[j + 1], whose keys differ. */
  method SwapNeighbours(a: array<Quote>, j: nat, key: SortKey)
    requires j + 1 < a.Length && Key(key, a[j]) != Key(key, a[j + 1])
    modifies a
    ensures a[j] == old(a[j + 1]) && a[j + 1] == old(a[j])
    ensures forall k :: 0 <= k < a.Length && k != j && k != j + 1 ==> a[k] == old(a[k])
    ensures multiset(a[..]) == multiset(old(a[..]))
    ensures forall v :: WithKey(a[..], key, v) == WithKey(old(a[..]), key, v)
  {
    ghost var s := a[..];
    a[j], a[j + 1] := a[j + 1], a[j];
    assert a[..] == s[..j] + [s[j + 1], s[j]] + s[j + 2..];
    assert s == s[..j] + [s[j], s[j + 1]] + s[j + 2..];
    forall v ensures WithKey(a[..], key, v) == WithKey(s, key, v) {
      SwapKeepsWithKey(s, j, key, v);
    }
  }

  /** s[..i + 1] is sorted apart from s[j], which is smaller than all
      after it: the state of an insertion that has moved s[j] down. */
  ghost predicate Inserting(s: seq<Quote>, key: SortKey, i: nat, j: nat)
    requires j <= i < |s|
  {
    && (forall k, l :: 0 <= k < l <= i && k != j && l != j ==> Key(key, s[k]) <= Key(key, s[l]))
    && (forall l :: j < l <= i ==> Key(key, s[j]) < Key(key, s[l]))
  }

  lemma InsertingStep(s: seq<Quote>, key: SortKey, i: nat, j: nat)
    requires 0 < j <= i < |s| && Inserting(s, key, i, j) && Key(key, s[j - 1]) > Key(key, s[j])
    ensures Inserting(s[j - 1 := s[j]][j := s[j - 1]], key, i, j - 1)
  {
  }

  lemma InsertingDone(s: seq<Quote>, key: SortKey, i: nat, j: nat)
    requires j <= i < |s| && Inserting(s, key, i, j)
    requires j == 0 || Key(key, s[j - 1]) <= Key(key, s[j])
    ensures SortedBy(s[..i + 1], key)
  {
    forall k, l | 0 <= k < l <= i ensures Key(key, s[k]) <= Key(key, s[l]) {
      if k == j && j < l {
      } else if l == j && 0 < j && k < j - 1 {
        assert Key(key, s[k]) <= Key(key, s[j - 1]);
      }
    }
  }

  /** Moves a[i] down past the larger keys before it, as insertion sort does. */
  method Insert(a: array<Quote>, key: SortKey, i: nat)
    requires i < a.Length && SortedBy(a[..i], key)
    modifies a
    ensures SortedBy(a[..i + 1], key)
    ensures forall k :: i < k < a.Length ==> a[k] == old(a[k])
    ensures multiset(a[..]) == multiset(old(a[..]))
    ensures forall v :: WithKey(a[..], key, v) == WithKey(old(a[..]), key, v)
  {
    var j := i;
    assert Inserting(a[..], key, i, j) by {
      assert forall k :: 0 <= k < i ==> a[..i][k] == a[k];
    }
    while j > 0 && Key(key, a[j - 1]) > Key(key, a[j])
      invariant 0 <= j <= i && Inserting(a[..], key, i, j)
      invariant forall k :: i < k < a.Length ==> a[k] == old(a[k])
      invariant multiset(a[..]) == multiset(old(a[..]))
      invariant forall v :: WithKey(a[..], key, v) == WithKey(old(a[..]), key, v)
    {
      InsertingStep(a[..], key, i, j);
      ghost var s := a[..];
      SwapNeighbours(a, j - 1, key);
      assert a[..] == s[j - 1 := s[j]][j := s[j - 1]];
      j := j - 1;
    }
    InsertingDone(a[..], key, i, j);
  }

  /** Array.prototype.sort with the comparator `Key(key, a) - Key(key, b)`:
      ascending by key, a permutation, and stable (quotes with equal keys keep
      their order). */
  method SortBy(a: array<Quote>, key: SortKey)
    modifies a
    ensures SortedBy(a[..], key)
    ensures multiset(a[..]) == multiset(old(a[..]))
    ensures forall v :: WithKey(a[..], key, v) == WithKey(old(a[..]), key, v)
  {
    var i := 0;
    while i < a.Length
      invariant i <= a.Length
      invariant SortedBy(a[..i], key)
      invariant multiset(a[..]) == multiset(old(a[..]))
      invariant forall v :: WithKey(a[..], key, v) == WithKey(old(a[..]), key, v)
    {
      Insert(a, key, i);
      i := i + 1;
    }
    assert a[..a.Length] == a[..];
  }

  /** The position of s[k] among the quotes of s with its key. */
  function Rank(s: seq<Quote>, key: SortKey, v: int, k: nat): nat
    requires k <= |s|
  {
    |WithKey(s[..k], key, v)|
  }

  lemma RankAt(s: seq<Quote>, key: SortKey, k: nat)
    requires k < |s|
    ensures var v := Key(key, s[k]);
            Rank(s, key, v, k) < |WithKey(s, key, v)| && WithKey(s, key, v)[Rank(s, key, v, k)] == s[k]
  {
    var v := Key(key, s[k]);
    assert s[..k + 1][..k] == s[..k];
    assert WithKey(s[..k + 1], key, v) == WithKey(s[..k], key, v) + [s[k]];
    assert s == s[..k + 1] + s[k + 1..];
    WithKeyAppend(s[..k + 1], s[k + 1..], key, v);
  }

  lemma RankIncreases(s: seq<Quote>, key: SortKey, v: int, k: nat, l: nat)
    requires k < l <= |s| && Key(key, s[k]) == v
    ensures Rank(s, key, v, k) < Rank(s, key, v, l)
  {
    assert s[..l] == s[..k + 1] + s[k + 1..l];
    WithKeyAppend(s[..k + 1], s[k + 1..l], key, v);
    assert s[..k + 1][..k] == s[..k];
  }

  lemma {:induction false} WithKeyOrigin(s: seq<Quote>, key: SortKey, v: int, i: nat)
    requires i < |WithKey(s, key, v)|
    ensures exists k :: 0 <= k < |s| && WithKey(s, key, v)[i] == s[k] && Rank(s, key, v, k) == i
  {
    var init := s[..|s| - 1];
    if i < |WithKey(init, key, v)| {
      WithKeyOrigin(init, key, v, i);
      var k :| 0 <= k < |init| && WithKey(init, key, v)[i] == init[k] && Rank(init, key, v, k) == i;
      assert init[..k] == s[..k];
    } else {
      assert s[..|s| - 1] == init;
    }
  }

  /** The quotes of one key, taken from a sequence sorted by another key, are
      sorted by that other key. */
  lemma WithKeyKeepsOrder(s: seq<Quote>, key: SortKey, v: int, other: SortKey)
    requires SortedBy(s, other)
    ensures SortedBy(WithKey(s, key, v), other)
  {
    var w := WithKey(s, key, v);
    forall i, j | 0 <= i < j < |w| ensures Key(other, w[i]) <= Key(other, w[j]) {
      WithKeyOrigin(s, key, v, i);
      WithKeyOrigin(s, key, v, j);
      var k :| 0 <= k < |s| && w[i] == s[k] && Rank(s, key, v, k) == i;
      var l :| 0 <= l < |s| && w[j] == s[l] && Rank(s, key, v, l) == j;
      if l < k {
        RankIncreases(s, key, v, l, k);
      } else if l == k {
        assert false;
      }
    }
  }

  /** Sorting stably by start line what is sorted by start character puts it
      in display order. */
  lemma StableSortsCompose(s: seq<Quote>, t: seq<Quote>)
    requires SortedBy(s, StartChar) && SortedBy(t, StartLine)
    requires forall v :: WithKey(t, StartLine, v) == WithKey(s, StartLine, v)
    ensures InDisplayOrder(t)
  {
    forall k, l | 0 <= k < l < |t|
      ensures t[k].startLineIndex < t[l].startLineIndex
              || (t[k].startLineIndex == t[l].startLineIndex && t[k].startCharIndex <= t[l].startCharIndex)
    {
      if t[k].startLineIndex == t[l].startLineIndex {
        var v := t[k].startLineIndex;
        RankAt(t, StartLine, k);
        RankAt(t, StartLine, l);
        RankIncreases(t, StartLine, v, k, l);
        WithKeyKeepsOrder(s, StartLine, v, StartChar);
        assert WithKey(t, StartLine, v) == WithKey(s, StartLine, v);
      }
    }
  }

  /** Filtering by two keys gives the same quotes in either order. */
  lemma {:induction false} WithKeyCommute(s: seq<Quote>, k1: SortKey, v1: int, k2: SortKey, v2: int)
    ensures WithKey(WithKey(s, k1, v1), k2, v2) == WithKey(WithKey(s, k2, v2), k1, v1)
    decreases |s|
  {
    if s != [] {
      var init, x := s[..|s| - 1], s[|s| - 1];
      WithKeyCommute(init, k1, v1, k2, v2);
      var tail1 := if Key(k1, x) == v1 then [x] else [];
      var tail2 := if Key(k2, x) == v2 then [x] else [];
      WithKeyAppend(WithKey(init, k1, v1), tail1, k2, v2);
      WithKeyAppend(WithKey(init, k2, v2), tail2, k1, v1);
      assert [x][..0] == [];
    }
  }

  /** The table's `.sort(...).sort(...)`: the quotes end up in display order,
      are the same quotes, and quotes with the same start line and start
      character keep the order they were found in. */
  method DisplayOrder(a: array<Quote>)
    modifies a
    ensures InDisplayOrder(a[..])
    ensures multiset(a[..]) == multiset(old(a[..]))
    ensures forall ln, ch :: WithKey(WithKey(a[..], StartLine, ln), StartChar, ch)
              == WithKey(WithKey(old(a[..]), StartLine, ln), StartChar, ch)
  {
    ghost var found := a[..];
    SortBy(a, StartChar);
    ghost var byChar := a[..];
    SortBy(a, StartLine);
    StableSortsCompose(byChar, a[..]);
    forall ln, ch
      ensures WithKey(WithKey(a[..], StartLine, ln), StartChar, ch)
              == WithKey(WithKey(found, StartLine, ln), StartChar, ch)
    {
      WithKeyCommute(byChar, StartLine, ln, StartChar, ch);
      WithKeyCommute(found, StartLine, ln, StartChar, ch);
    }
  }
}
