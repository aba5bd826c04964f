/** Text as a sequence of lines, as produced by JavaScript's `split('\n')`
    and consumed by the tokenizer and by the quote renderer. */
module Lines {

  const NewLine: char := '\n'

  /** `text.split('\n')`: the pieces between line feeds; always at least one
      piece, and none contains a line feed. */
  function SplitLines(text: string): (lines: seq<string>)
    ensures |lines| >= 1
    ensures forall i :: 0 <= i < |lines| ==> NewLine !in lines[i]
  {
    if text == [] then [[]]
    else
      var rest := SplitLines(text[1..]);
      if text[0] == NewLine then [[]] + rest
      else [[text[0]] + rest[0]] + rest[1..]
  }

  /** The lines of `lines`, each preceded by a line feed: "\n" + l0 + "\n" + l1 + ... */
  function Prefixed(lines: seq<string>): string
  {
    if lines == [] then []
    else Prefixed(lines[..|lines| - 1]) + [NewLine] + lines[|lines| - 1]
  }

  /** `lines.join('\n')` for a non-empty list of lines. */
  function JoinLines(lines: seq<string>): string
    requires |lines| >= 1
  {
    lines[0] + Prefixed(lines[1..])
  }

  /** Number of occurrences of `c` in `s`. */
  function Count(s: string, c: char): nat
  {
    if s == [] then 0 else (if s[0] == c then 1 else 0) + Count(s[1..], c)
  }

  lemma {:induction false} CountAppend(s: string, t: string, c: char)
    ensures Count(s + t, c) == Count(s, c) + Count(t, c)
  {
    if s != [] {
      assert (s + t)[1..] == s[1..] + t;
      CountAppend(s[1..], t, c);
    } else {
      assert s + t == t;
    }
  }

  lemma {:induction false} CountAbsent(s: string, c: char)
    requires c !in s
    ensures Count(s, c) == 0
  {
    if s != [] {
      CountAbsent(s[1..], c);
    }
  }

  lemma {:induction false} PrefixedAppend(a: seq<string>, b: seq<string>)
    ensures Prefixed(a + b) == Prefixed(a) + Prefixed(b)
    decreases |b|
  {
    if b != [] {
      var b' := b[..|b| - 1];
      assert (a + b)[..|a + b| - 1] == a + b';
      PrefixedAppend(a, b');
    } else {
      assert a + b == a;
    }
  }

  /** Prefixing a line to a list puts it and a line feed in front of the join. */
  lemma JoinCons(x: string, lines: seq<string>)
    requires |lines| >= 1
    ensures JoinLines([x] + lines) == x + [NewLine] + JoinLines(lines)
  {
    var all := [x] + lines;
    assert all[1..] == [lines[0]] + lines[1..];
    PrefixedAppend([lines[0]], lines[1..]);
    assert Prefixed([lines[0]]) == [NewLine] + lines[0] by {
      assert [lines[0]][..0] == [];
    }
  }

  /** Joining what was split gives back the text. */
  lemma {:induction false} JoinSplit(text: string)
    ensures JoinLines(SplitLines(text)) == text
  {
    if text != [] {
      var rest := SplitLines(text[1..]);
      JoinSplit(text[1..]);
      if text[0] == NewLine {
        JoinCons([], rest);
      } else {
        var lines := SplitLines(text);
        assert lines[0] == [text[0]] + rest[0];
        assert lines[1..] == rest[1..];
      }
    }
  }

  /** Splitting what was joined gives back the lines, when no line holds a
      line feed. */
  lemma {:induction false} SplitJoin(lines: seq<string>)
    requires |lines| >= 1
    requires forall i :: 0 <= i < |lines| ==> NewLine !in lines[i]
    ensures SplitLines(JoinLines(lines)) == lines
    decreases |lines|, |lines[0]|
  {
    var first := lines[0];
    if first == [] {
      if |lines| > 1 {
        var rest := lines[1..];
        JoinCons([], rest);
        SplitJoin(rest);
        var text := JoinLines(lines);
        assert text == [NewLine] + JoinLines(rest);
        assert text[1..] == JoinLines(rest);
        assert [first] + rest == lines;
      } else {
        assert JoinLines(lines) == [] by { assert lines[1..] == []; }
      }
    } else {
      var shorter := [first[1..]] + lines[1..];
      assert shorter[1..] == lines[1..];
      SplitJoin(shorter);
      var text := JoinLines(lines);
      assert text == [first[0]] + JoinLines(shorter);
      assert text[1..] == JoinLines(shorter);
      assert first[0] in first;
      assert SplitLines(text) == [[text[0]] + shorter[0]] + shorter[1..];
      assert [first[0]] + first[1..] == first;
      assert [first] + lines[1..] == lines;
    }
  }

  /** There is one more line than there are line feeds. */
  lemma {:induction false} LineCount(text: string)
    ensures |SplitLines(text)| == Count(text, NewLine) + 1
  {
    if text != [] {
      LineCount(text[1..]);
    }
  }

  /** `Prefixed` puts exactly one line feed in front of each line, when the
      lines hold none themselves. */
  lemma {:induction false} PrefixedNewLines(lines: seq<string>)
    requires forall i :: 0 <= i < |lines| ==> NewLine !in lines[i]
    ensures Count(Prefixed(lines), NewLine) == |lines|
    decreases |lines|
  {
    if lines != [] {
      var init := lines[..|lines| - 1];
      PrefixedNewLines(init);
      CountAppend(Prefixed(init) + [NewLine], lines[|lines| - 1], NewLine);
      CountAppend(Prefixed(init), [NewLine], NewLine);
      CountAbsent(lines[|lines| - 1], NewLine);
    }
  }
}
