/**
 * Character-level scanners shared by the changelog components: digit runs,
 * decimal rendering (the `%d` conversion of `sprintf`) and the split of a
 * document into its '\n'-separated lines, which is what the multi-line
 * anchors `^` and `$` of the source's patterns delimit.
 */
module Text {
  import opened Wrappers


  predicate IsDigit(c: char) { '0' <= c <= '9' }

  predicate AllDigits(s: string) { forall i | 0 <= i < |s| :: IsDigit(s[i]) }

  /** Index of the first `c` in `s`, or `|s|` when `s` has none. */
  function IndexOf(s: string, c: char): (n: nat)
    ensures n <= |s|
    ensures c !in s[..n]
    ensures n < |s| ==> s[n] == c
  {
    if s == [] then 0
    else if s[0] == c then 0
    else
      var k := IndexOf(s[1..], c);
      assert s[..k + 1] == [s[0]] + s[1..][..k];
      k + 1
  }

  /** The first `c` of `a + [c] + b` is the one after `a`, when `a` has none. */
  lemma IndexOfConcat(a: string, c: char, b: string)
    requires c !in a
    ensures IndexOf(a + [c] + b, c) == |a|
  {
    var s := a + [c] + b;
    assert s[|a|] == c;
    assert forall i | 0 <= i < |a| :: s[i] == a[i];
  }

  /** A `c` found inside `a` is still the first one once text is appended. */
  lemma IndexOfPrefix(a: string, c: char, t: string)
    requires IndexOf(a, c) < |a|
    ensures IndexOf(a + t, c) == IndexOf(a, c)
  {
    var s := a + t;
    var n := IndexOf(a, c);
    assert s[n] == c;
    assert s[..n] == a[..n];
  }

  /** `IndexOf` is the only index with its contract. */
  lemma {:induction false} IndexOfUnique(s: string, c: char, n: nat)
    requires n <= |s| && c !in s[..n]
    requires n < |s| ==> s[n] == c
    decreases |s|
    ensures IndexOf(s, c) == n
  {
    if n > 0 {
      assert s[0] == s[..n][0];
      assert s[1..][..n - 1] == s[..n][1..];
      IndexOfUnique(s[1..], c, n - 1);
    }
  }

  /** End of the first line of `s`: the index of its first '\n', or `|s|`. */
  function LineEnd(s: string): nat
  {
    IndexOf(s, '\n')
  }

  /** Length of the run of ASCII digits that starts `s`: what a greedy digit repetition consumes. */
  function DigitRun(s: string): (n: nat)
    ensures n <= |s|
    ensures AllDigits(s[..n])
    ensures n < |s| ==> !IsDigit(s[n])
  {
    if s == [] || !IsDigit(s[0]) then 0
    else
      var k := DigitRun(s[1..]);
      assert s[..k + 1] == [s[0]] + s[1..][..k];
      k + 1
  }

  /** A digit run stops where the leading numeral stops. */
  lemma DigitRunConcat(x: string, y: string)
    requires AllDigits(x)
    requires y == [] || !IsDigit(y[0])
    ensures DigitRun(x + y) == |x|
    ensures (x + y)[..|x|] == x
  {
    var s := x + y;
    assert forall i | 0 <= i < |x| :: s[i] == x[i];
    assert |x| < |s| ==> s[|x|] == y[0];
  }

  /**
   * The numeral at the start of `s`: its value and the text after it, or None when `s` does not start with a
   * digit.
   */
  function ReadNumeral(s: string): (r: Option<(nat, string)>)
    ensures r.Some? <==> s != [] && IsDigit(s[0])
    ensures r.Some? ==> |r.value.1| < |s| && s[|s| - |r.value.1|..] == r.value.1
    ensures r.Some? ==> r.value.1 == [] || !IsDigit(r.value.1[0])
  {
    var n := DigitRun(s);
    if n == 0 then None else Some((DigitsValue(s[..n]), s[n..]))
  }

  /** A numeral followed by a non-digit is read back whole. */
  lemma ReadNumeralConcat(x: string, y: string)
    requires x != [] && AllDigits(x)
    requires y == [] || !IsDigit(y[0])
    ensures ReadNumeral(x + y) == Some((DigitsValue(x), y))
  {
    DigitRunConcat(x, y);
    assert (x + y)[|x|..] == y;
  }

  /** The lines of `s`: the maximal pieces between '\n' characters, in order. */
  function Lines(s: string): (ls: seq<string>)
    decreases |s|
    ensures |ls| >= 1
    ensures forall i | 0 <= i < |ls| :: '\n' !in ls[i]
  {
    var n := LineEnd(s);
    if n == |s| then [s] else [s[..n]] + Lines(s[n + 1..])
  }

  /** Reassembles lines with '\n' between consecutive ones. */
  function JoinLines(ls: seq<string>): string
    requires |ls| >= 1
  {
    if |ls| == 1 then ls[0] else ls[0] + "\n" + JoinLines(ls[1..])
  }

  /** Splitting into lines loses nothing: joining them gives the text back. */
  lemma {:induction false} JoinLinesOfLines(s: string)
    decreases |s|
    ensures JoinLines(Lines(s)) == s
  {
    var n := LineEnd(s);
    if n < |s| {
      var ls, rest := Lines(s), Lines(s[n + 1..]);
      assert ls == [s[..n]] + rest;
      assert ls[0] == s[..n] && ls[1..] == rest;
      assert JoinLines(ls) == s[..n] + "\n" + JoinLines(rest);
      JoinLinesOfLines(s[n + 1..]);
      SplitAtLineEnd(s);
    }
  }

  /** Cutting a text at its first line break. */
  lemma SplitAtLineEnd(s: string)
    requires LineEnd(s) < |s|
    ensures '\n' !in s[..LineEnd(s)]
    ensures s == s[..LineEnd(s)] + "\n" + s[LineEnd(s) + 1..]
  {
  }

  /** The lines of `a + "\n" + b` are the lines of `a` followed by those of `b`. */
  lemma {:induction false} LinesOfConcat(a: string, b: string)
    decreases |a|
    ensures Lines(a + "\n" + b) == Lines(a) + Lines(b)
  {
    var s := a + "\n" + b;
    var n := LineEnd(a);
    if n == |a| {
      IndexOfConcat(a, '\n', b);
      assert s[..|a|] == a;
      assert s[|a| + 1..] == b;
    } else {
      IndexOfPrefix(a, '\n', "\n" + b);
      assert s == a + ("\n" + b);
      assert LineEnd(s) == n;
      assert s[..n] == a[..n];
      assert s[n + 1..] == a[n + 1..] + "\n" + b;
      LinesOfConcat(a[n + 1..], b);
    }
  }

  /** A text without '\n' is a single line. */
  lemma LinesOfLine(s: string)
    requires '\n' !in s
    ensures Lines(s) == [s]
  {
  }

  function DigitValue(c: char): nat
    requires IsDigit(c)
  {
    c as int - '0' as int
  }

  function DigitChar(d: nat): (c: char)
    requires d < 10
    ensures IsDigit(c) && DigitValue(c) == d
  {
    ('0' as int + d) as char
  }

  /** The value of a decimal numeral, as PHP's integer cast reads an all-digit string. */
  function DigitsValue(s: string): nat
    requires AllDigits(s)
    decreases |s|
  {
    if s == [] then 0 else DigitsValue(s[..|s| - 1]) * 10 + DigitValue(s[|s| - 1])
  }

  /** Decimal rendering of `n`, as the `%d` conversion prints a non-negative integer. */
  function NatToString(n: nat): (s: string)
    decreases n
    ensures |s| >= 1 && AllDigits(s)
    ensures s[0] == '0' ==> n == 0 && s == "0"
  {
    if n < 10 then [DigitChar(n)] else NatToString(n / 10) + [DigitChar(n % 10)]
  }

  /** Rendering then reading a numeral gives the number back. */
  lemma {:induction false} NatToStringRoundTrip(n: nat)
    decreases n
    ensures DigitsValue(NatToString(n)) == n
  {
    if n >= 10 {
      NatToStringRoundTrip(n / 10);
      var s := NatToString(n);
      assert s[..|s| - 1] == NatToString(n / 10);
    }
  }
}
