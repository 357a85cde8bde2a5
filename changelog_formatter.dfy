/**
 * The changelog formatter: every line that starts with `### ` and one of
 * the five Keep-a-Changelog sub-section words becomes the word on its own
 * line, underlined with as many dashes as the word has letters.
 *
 * The pattern carries the `m` flag and no newline, so `^` matches at the
 * start of every line and a match never leaves its line: the substitution
 * is a line-by-line rewrite.
 */
module ChangelogFormatter {
  import opened Wrappers
  import opened Text

  /** The sub-section words of the pattern, in the order of its alternation. */
  const Headings: seq<string> := ["Added", "Changed", "Deprecated", "Removed", "Fixed"]

  /** `s` starts with `p`. */
  predicate StartsWith(s: string, p: string)
  {
    |p| <= |s| && s[..|p|] == p
  }

  /** The sub-section word `s` starts with, tried in the order of Headings. */
  function HeadingWord(s: string): (r: Option<string>)
    ensures r.Some? ==> r.value in Headings && StartsWith(s, r.value)
  {
    if StartsWith(s, "Added") then Some("Added")
    else if StartsWith(s, "Changed") then Some("Changed")
    else if StartsWith(s, "Deprecated") then Some("Deprecated")
    else if StartsWith(s, "Removed") then Some("Removed")
    else if StartsWith(s, "Fixed") then Some("Fixed")
    else None
  }

  /**
   * The five words start with five different letters, so the alternation
   * finds the word `s` starts with, whichever it is.
   */
  lemma HeadingWordComplete(s: string, h: string)
    requires h in Headings && StartsWith(s, h)
    ensures HeadingWord(s) == Some(h)
  {
    assert s[0] == s[..|h|][0] == h[0];
  }

  /** `s` starts with `p + q` when it starts with `p` and then with `q`. */
  lemma StartsWithConcat(s: string, p: string, q: string)
    ensures StartsWith(s, p + q) <==> StartsWith(s, p) && StartsWith(s[|p|..], q)
  {
    if StartsWith(s, p) && |p + q| <= |s| {
      assert s[..|p + q|] == s[..|p|] + s[|p|..][..|q|];
    }
    if StartsWith(s, p + q) {
      assert s[..|p|] == s[..|p + q|][..|p|];
    }
  }

  /** The heading a line opens with, when it opens with `### ` and one of the words. */
  function HeadingOf(line: string): (r: Option<string>)
    ensures r.Some? ==> r.value in Headings && StartsWith(line, "### " + r.value)
  {
    if StartsWith(line, "### ") then
      var w := HeadingWord(line[4..]);
      if w.Some? then
        StartsWithConcat(line, "### ", w.value);
        w
      else
        None
    else
      None
  }

  /** A line that opens with `### ` and one of the words is a heading line for that word. */
  lemma HeadingOfComplete(line: string, h: string)
    requires h in Headings && StartsWith(line, "### " + h)
    ensures HeadingOf(line) == Some(h)
  {
    StartsWithConcat(line, "### ", h);
    HeadingWordComplete(line[4..], h);
  }

  /** A run of `n` dashes: the underline of an `n`-letter word. */
  function Dashes(n: nat): (r: string)
    ensures |r| == n
    ensures forall i | 0 <= i < n :: r[i] == '-'
  {
    if n == 0 then [] else "-" + Dashes(n - 1)
  }

  /** One line through the substitution: the `### <word>` prefix becomes `<word>\n<dashes>`. */
  function FormatLine(line: string): string
  {
    match HeadingOf(line)
    case None => line
    case Some(h) => h + "\n" + Dashes(|h|) + line[4 + |h|..]
  }

  /** `format`: every line through FormatLine, the line breaks kept. */
  function Format(text: string): string
    decreases |text|
  {
    var n := LineEnd(text);
    if n == |text| then FormatLine(text)
    else FormatLine(text[..n]) + "\n" + Format(text[n + 1..])
  }

  /** No line of `text` opens with `### ` and one of the five words. */
  predicate Formatted(text: string)
    decreases |text|
  {
    var n := LineEnd(text);
    HeadingOf(text[..n]).None? && (n == |text| || Formatted(text[n + 1..]))
  }

  /** The first line of `l + "\n" + rest` is `l` when `l` has no line break. */
  lemma SplitFirstLine(l: string, rest: string)
    requires '\n' !in l
    ensures LineEnd(l + "\n" + rest) == |l|
    ensures (l + "\n" + rest)[..|l|] == l
    ensures (l + "\n" + rest)[|l| + 1..] == rest
  {
    IndexOfConcat(l, '\n', rest);
    assert l + "\n" + rest == l + ['\n'] + rest;
  }

  /** A text without line breaks is one line. */
  lemma SingleLine(l: string)
    requires '\n' !in l
    ensures LineEnd(l) == |l|
  {
    assert l[..|l|] == l;
    IndexOfUnique(l, '\n', |l|);
  }

  /** Format works on the first line and then on the rest. */
  lemma FormatFirstLine(l: string, rest: string)
    requires '\n' !in l
    ensures Format(l + "\n" + rest) == FormatLine(l) + "\n" + Format(rest)
    ensures Formatted(l + "\n" + rest) == (HeadingOf(l).None? && Formatted(rest))
  {
    SplitFirstLine(l, rest);
  }

  /** Format of a single line. */
  lemma FormatOneLine(l: string)
    requires '\n' !in l
    ensures Format(l) == FormatLine(l)
    ensures Formatted(l) == HeadingOf(l).None?
  {
    SingleLine(l);
    assert l[..|l|] == l;
  }

  /** What the line scanner needs to know about the five words. */
  lemma HeadingFacts(h: string)
    requires h in Headings
    ensures '\n' !in h && |h| >= 5 && h[0] != '#'
  {
  }

  /** `### <word>` opens a heading line for that word, whatever follows. */
  lemma HeadingOfLine(h: string, rest: string)
    requires h in Headings
    ensures HeadingOf("### " + h + rest) == Some(h)
  {
    var line := "### " + h + rest;
    assert line[..|"### " + h|] == "### " + h;
    HeadingOfComplete(line, h);
  }

  /** No line break in a `### <word>` line whose rest has none. */
  lemma HeadingLineHasNoBreak(h: string, rest: string)
    requires h in Headings
    requires '\n' !in rest
    ensures '\n' !in "### " + h + rest
  {
    HeadingFacts(h);
  }

  lemma RewriteOf(line: string, h: string)
    requires HeadingOf(line) == Some(h)
    ensures FormatLine(line) == h + "\n" + Dashes(|h|) + line[4 + |h|..]
  {
  }

  /** The rewrite of one heading line. */
  lemma FormatLineOfHeading(h: string, rest: string)
    requires h in Headings
    ensures FormatLine("### " + h + rest) == h + "\n" + Dashes(|h|) + rest
  {
    var line := "### " + h + rest;
    HeadingOfLine(h, rest);
    RewriteOf(line, h);
    assert line[4 + |h|..] == rest;
  }

  /**
   * A heading line: `### <word>` is replaced by the word, a line break and
   * one dash per letter; the rest of the line is kept after the dashes.
   */
  lemma FormatHeadingLine(h: string, rest: string)
    requires h in Headings
    requires '\n' !in rest
    ensures Format("### " + h + rest) == h + "\n" + Dashes(|h|) + rest
  {
    HeadingLineHasNoBreak(h, rest);
    FormatOneLine("### " + h + rest);
    FormatLineOfHeading(h, rest);
  }

  /** One more line in front of two texts that format independently. */
  lemma FormatConcatStep(l: string, a: string, b: string)
    requires '\n' !in l
    requires Format(a + "\n" + b) == Format(a) + "\n" + Format(b)
    ensures Format(l + "\n" + a + "\n" + b) == Format(l + "\n" + a) + "\n" + Format(b)
  {
    JoinAssoc(l, a, b);
    FormatFirstLine(l, a + "\n" + b);
    FormatFirstLine(l, a);
    JoinAssoc(FormatLine(l), Format(a), Format(b));
  }

  lemma JoinAssoc(x: string, y: string, z: string)
    ensures x + "\n" + (y + "\n" + z) == x + "\n" + y + "\n" + z
  {
  }

  /** Lines are rewritten independently of each other. */
  lemma {:induction false} FormatConcat(a: string, b: string)
    decreases |a|
    ensures Format(a + "\n" + b) == Format(a) + "\n" + Format(b)
  {
    var n := LineEnd(a);
    if n == |a| {
      FormatLast(a);
      FormatFirstLine(a, b);
    } else {
      var l, a' := a[..n], a[n + 1..];
      SplitAtLineEnd(a);
      FormatConcat(a', b);
      FormatConcatStep(l, a', b);
    }
  }

  /** The two lines a heading line becomes: the word, and the dashes with the rest of the line. */
  lemma HeadingReplacementLines(l: string, h: string)
    requires '\n' !in l && HeadingOf(l) == Some(h)
    ensures var d := Dashes(|h|) + l[4 + |h|..];
      && FormatLine(l) == h + "\n" + d
      && '\n' !in h && '\n' !in d
      && HeadingOf(h).None? && HeadingOf(d).None?
  {
    var d := Dashes(|h|) + l[4 + |h|..];
    HeadingFacts(h);
    DashLine(|h|, l[4 + |h|..]);
    NotHeadingLine(h);
    NotHeadingLine(d);
    RewriteOf(l, h);
  }

  /** A line that does not start with '#' is no heading line. */
  lemma NotHeadingLine(s: string)
    requires s != [] && s[0] != '#'
    ensures HeadingOf(s).None?
  {
    assert !StartsWith(s, "### ") by {
      assert |s| >= 4 ==> s[..4][0] == s[0];
    }
  }

  /** The underline followed by the rest of a line. */
  lemma DashLine(n: nat, rest: string)
    requires n > 0 && '\n' !in rest
    ensures var d := Dashes(n) + rest; '\n' !in d && d != [] && d[0] == '-'
  {
    assert '\n' !in Dashes(n);
  }

  /** Two lines that are no heading lines, in front of formatted text. */
  lemma TwoLinesFormatted(a: string, b: string, rest: string)
    requires '\n' !in a && '\n' !in b
    requires HeadingOf(a).None? && HeadingOf(b).None?
    requires Formatted(rest)
    ensures Formatted(a + "\n" + b + "\n" + rest)
    ensures Formatted(a + "\n" + b)
  {
    JoinAssoc(a, b, rest);
    FormatFirstLine(b, rest);
    FormatFirstLine(a, b + "\n" + rest);
    FormatOneLine(b);
    FormatFirstLine(a, b);
  }

  /** The two lines a heading line becomes are no heading lines. */
  lemma HeadingReplacementFormatted(l: string, h: string, rest: string)
    requires '\n' !in l && HeadingOf(l) == Some(h)
    requires Formatted(rest)
    ensures Formatted(FormatLine(l) + "\n" + rest)
    ensures Formatted(FormatLine(l))
  {
    HeadingReplacementLines(l, h);
    TwoLinesFormatted(h, Dashes(|h|) + l[4 + |h|..], rest);
  }

  /** The rewritten form of a line holds no heading line. */
  lemma FormatLineFormatted(l: string, rest: string)
    requires '\n' !in l
    requires Formatted(rest)
    ensures Formatted(FormatLine(l) + "\n" + rest)
    ensures Formatted(FormatLine(l))
  {
    match HeadingOf(l)
    case None =>
      FormatFirstLine(l, rest);
      FormatOneLine(l);
    case Some(h) =>
      HeadingReplacementFormatted(l, h, rest);
  }

  /** Format of the last line. */
  lemma FormatLast(text: string)
    requires LineEnd(text) == |text|
    ensures '\n' !in text && Format(text) == FormatLine(text)
  {
    assert text[..|text|] == text;
  }

  /** Format of a text with a line break: its first line, then the rest. */
  lemma FormatNext(text: string)
    requires LineEnd(text) < |text|
    ensures var n := LineEnd(text);
      '\n' !in text[..n] && Format(text) == FormatLine(text[..n]) + "\n" + Format(text[n + 1..])
  {
  }

  /** After format, no line opens with `### ` and one of the five words. */
  lemma {:induction false} FormatIsFormatted(text: string)
    decreases |text|
    ensures Formatted(Format(text))
  {
    var n := LineEnd(text);
    if n == |text| {
      FormatLast(text);
      FormatLineFormatted(text, "");
    } else {
      FormatNext(text);
      FormatIsFormatted(text[n + 1..]);
      FormatLineFormatted(text[..n], Format(text[n + 1..]));
    }
  }

  /** Text with no heading line comes back exactly. */
  lemma {:induction false} FormattedUnchanged(text: string)
    requires Formatted(text)
    decreases |text|
    ensures Format(text) == text
  {
    var n := LineEnd(text);
    assert FormatLine(text[..n]) == text[..n];
    if n < |text| {
      FormattedUnchanged(text[n + 1..]);
      assert text == text[..n] + "\n" + text[n + 1..];
    } else {
      assert text[..n] == text;
    }
  }

  /** Formatting twice is formatting once. */
  lemma FormatIdempotent(text: string)
    ensures Format(Format(text)) == Format(text)
  {
    FormatIsFormatted(text);
    FormattedUnchanged(Format(text));
  }

  /** Formatted, stated over the lines of the text. */
  lemma {:induction false} FormattedLines(text: string)
    decreases |text|
    ensures Formatted(text) <==> forall i | 0 <= i < |Lines(text)| :: HeadingOf(Lines(text)[i]).None?
  {
    var n := LineEnd(text);
    if n < |text| {
      var tail := text[n + 1..];
      FormattedLines(tail);
      var ls := Lines(text);
      assert ls == [text[..n]] + Lines(tail);
      assert ls[0] == text[..n];
      assert forall j | 0 <= j < |Lines(tail)| :: Lines(tail)[j] == ls[j + 1];
      assert forall i | 1 <= i < |ls| :: ls[i] == Lines(tail)[i - 1];
    } else {
      assert text[..n] == text;
      assert Lines(text) == [text];
      assert Lines(text)[0] == text;
    }
  }
}
