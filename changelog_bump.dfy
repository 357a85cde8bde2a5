/**
 * The changelog bump engine: finding the newest version heading of a
 * changelog, computing the next patch, minor or major version, and splicing
 * a "TBD" stub section in front of the first level-two heading that follows
 * a blank line whose own preceding line starts past the blank line under the
 * title, so that heading is at least the fifth line of the document.
 *
 * Every operation is a function of the changelog's text; the file that the
 * source reads and writes is the caller's business.
 */
module ChangelogBump {
  import opened Wrappers
  import opened Text

  /** The failures of the bump engine. */
  datatype BumpError =
    | ChangelogEntriesNotFound  // no version heading anywhere in the document
    | InvalidVersion            // a version string that does not begin with a numeric triple

  // ---------------------------------------------------------------------
  // The version heading pattern: a whole line made of two hashes and a
  // space, a version token, a spaced dash, and either TBD or an ISO date.
  // A version token is three dot-separated numerals, optionally followed by
  // one of the pre-release tags alpha, beta, rc, dev, a or b and more digits.
  // ---------------------------------------------------------------------

  /** Where the version scanner stands: which part of the token it reads. */
  datatype VersionState =
    | MajorStart | Major          // the first numeral
    | MinorStart | Minor          // after the first '.'
    | PatchStart | Patch          // after the second '.'
    | TagDigitsStart | TagDigits  // after a pre-release tag

  /**
   * Scans `s` from state `st` as a version token (three numerals joined by
   * dots, then an optional tag with its digits), to the end of `s`.
   */
  predicate ScanVersion(s: string, st: VersionState)
    decreases |s|, 2
  {
    if s == [] then st == Patch || st == TagDigits
    else
      var c := s[0];
      match st
      case MajorStart => IsDigit(c) && ScanVersion(s[1..], Major)
      case Major =>
        if IsDigit(c) then ScanVersion(s[1..], Major) else c == '.' && ScanVersion(s[1..], MinorStart)
      case MinorStart => IsDigit(c) && ScanVersion(s[1..], Minor)
      case Minor =>
        if IsDigit(c) then ScanVersion(s[1..], Minor) else c == '.' && ScanVersion(s[1..], PatchStart)
      case PatchStart => IsDigit(c) && ScanVersion(s[1..], Patch)
      case Patch => if IsDigit(c) then ScanVersion(s[1..], Patch) else ScanTag(s)
      case TagDigitsStart => IsDigit(c) && ScanVersion(s[1..], TagDigits)
      case TagDigits => IsDigit(c) && ScanVersion(s[1..], TagDigits)
  }

  /** A pre-release tag followed by its digits, to the end of `s`. */
  predicate ScanTag(s: string)
    decreases |s|, 1
  {
    || TagThenDigits(s, "alpha") || TagThenDigits(s, "beta") || TagThenDigits(s, "rc")
    || TagThenDigits(s, "dev") || TagThenDigits(s, "a") || TagThenDigits(s, "b")
  }

  predicate TagThenDigits(s: string, tag: string)
    requires |tag| > 0
    decreases |s|, 0
  {
    |s| >= |tag| && s[..|tag|] == tag && ScanVersion(s[|tag|..], TagDigitsStart)
  }

  /** A version token: three dot-separated numerals and an optional pre-release suffix. */
  predicate IsVersion(v: string)
  {
    ScanVersion(v, MajorStart)
  }

  predicate IsIsoDate(d: string)
  {
    && |d| == 10
    && IsDigit(d[0]) && IsDigit(d[1]) && IsDigit(d[2]) && IsDigit(d[3])
    && d[4] == '-' && IsDigit(d[5]) && IsDigit(d[6])
    && d[7] == '-' && IsDigit(d[8]) && IsDigit(d[9])
  }

  /** What may follow " - " on a version heading: `TBD` or a `YYYY-MM-DD` date. */
  predicate IsDateField(d: string)
  {
    d == "TBD" || IsIsoDate(d)
  }

  predicate IsVersionChar(ch: char)
  {
    IsDigit(ch) || ch == '.' || 'a' <= ch <= 'z'
  }

  predicate AllVersionChars(s: string)
  {
    forall i | 0 <= i < |s| :: IsVersionChar(s[i])
  }

  lemma {:induction false} ScanVersionChars(s: string, st: VersionState)
    requires ScanVersion(s, st)
    decreases |s|, 2
    ensures AllVersionChars(s)
  {
    if s != [] {
      if st == Patch && !IsDigit(s[0]) {
        ScanTagChars(s);
      } else {
        ScanVersionChars(s[1..], if s[0] == '.' then (if st == Major then MinorStart else PatchStart) else
          match st
          case MajorStart => Major
          case MinorStart => Minor
          case PatchStart => Patch
          case TagDigitsStart => TagDigits
          case _ => st);
        assert forall i | 1 <= i < |s| :: s[i] == s[1..][i - 1];
      }
    }
  }

  lemma {:induction false} ScanTagChars(s: string)
    requires ScanTag(s)
    decreases |s|, 1
    ensures AllVersionChars(s)
  {
    if TagThenDigits(s, "alpha") { TagThenDigitsChars(s, "alpha"); }
    else if TagThenDigits(s, "beta") { TagThenDigitsChars(s, "beta"); }
    else if TagThenDigits(s, "rc") { TagThenDigitsChars(s, "rc"); }
    else if TagThenDigits(s, "dev") { TagThenDigitsChars(s, "dev"); }
    else if TagThenDigits(s, "a") { TagThenDigitsChars(s, "a"); }
    else { TagThenDigitsChars(s, "b"); }
  }

  lemma {:induction false} TagThenDigitsChars(s: string, tag: string)
    requires |tag| > 0 && AllVersionChars(tag)
    requires TagThenDigits(s, tag)
    decreases |s|, 0
    ensures AllVersionChars(s)
  {
    ScanVersionChars(s[|tag|..], TagDigitsStart);
    assert forall i | 0 <= i < |tag| :: s[i] == tag[i];
    assert forall i | |tag| <= i < |s| :: s[i] == s[|tag|..][i - |tag|];
  }

  /** A version token is made of digits, dots and lower-case letters only. */
  lemma VersionChars(v: string)
    requires IsVersion(v)
    ensures AllVersionChars(v)
    ensures ' ' !in v && '\n' !in v && '$' !in v && '\\' !in v
  {
    ScanVersionChars(v, MajorStart);
  }

  lemma DateFieldHasNoSpace(d: string)
    requires IsDateField(d)
    ensures ' ' !in d && '\n' !in d
  {
    if d != "TBD" {
      assert forall i | 0 <= i < 10 :: d[i] == '-' || IsDigit(d[i]);
    }
  }

  /**
   * Matches the text after "## " against `<version> - <date field>`: the
   * version is everything up to the first space.
   */
  function ParseHeadingRest(rest: string): (r: Option<string>)
    ensures r.Some? ==> IsVersion(r.value)
    ensures r.Some? ==>
      |rest| >= |r.value| + 3 && IsDateField(rest[|r.value| + 3..]) &&
      rest == r.value + " - " + rest[|r.value| + 3..]
  {
    var n := IndexOf(rest, ' ');
    if n + 3 <= |rest| && rest[n..n + 3] == " - " && IsVersion(rest[..n]) && IsDateField(rest[n + 3..]) then
      assert rest == rest[..n] + " - " + rest[n + 3..];
      Some(rest[..n])
    else
      None
  }

  /**
   * Matches one line against the version heading pattern and returns the
   * version token it carries.
   */
  function ParseChangelogLine(line: string): (r: Option<string>)
    ensures r.Some? ==> IsVersion(r.value)
    ensures r.Some? ==>
      |line| >= |r.value| + 6 && IsDateField(line[|r.value| + 6..]) &&
      line == "## " + r.value + " - " + line[|r.value| + 6..]
  {
    if |line| >= 3 && line[..3] == "## " then
      var r := ParseHeadingRest(line[3..]);
      if r.Some? then
        PrefixedHeading(line, r.value, line[3..][|r.value| + 3..]);
        r
      else
        r
    else
      None
  }

  /** A line that is `## ` followed by `<v> - <d>`. */
  lemma PrefixedHeading(line: string, v: string, d: string)
    requires |line| >= 3 && line[..3] == "## " && line[3..] == v + " - " + d
    ensures |line| == |v| + 6 + |d|
    ensures line == "## " + v + " - " + d && line[|v| + 6..] == d
  {
    assert line == line[..3] + line[3..];
  }

  /** The text after "## " splits at its first space, which ends the version. */
  lemma {:induction false} HeadingRest(v: string, d: string)
    ensures ParseHeadingRest(v + " - " + d) == if IsVersion(v) && IsDateField(d) then Some(v) else None
  {
    var rest := v + " - " + d;
    var n := IndexOf(rest, ' ');
    if IsVersion(v) {
      VersionChars(v);
      IndexOfConcat(v, ' ', "- " + d);
      assert rest == v + [' '] + ("- " + d);
      assert rest[..n] == v && rest[n..n + 3] == " - " && rest[n + 3..] == d;
    } else {
      assert rest[|v|] == ' ';
      assert n <= |v|;
      if n < |v| && n + 3 <= |rest| && IsDateField(rest[n + 3..]) {
        assert rest[|v| + 2] == ' ';
        assert rest[n + 3..][|v| - n - 1] == ' ';
        DateFieldHasNoSpace(rest[n + 3..]);
      }
      assert n == |v| ==> rest[..n] == v;
    }
  }

  /**
   * A line `## v - d` is a version heading exactly when `v` is a version
   * token and `d` is `TBD` or a date, and then it yields `v` itself.
   */
  lemma HeadingLine(v: string, d: string)
    ensures ParseChangelogLine("## " + v + " - " + d) == if IsVersion(v) && IsDateField(d) then Some(v) else None
  {
    var line := "## " + v + " - " + d;
    assert line[..3] == "## " && line[3..] == v + " - " + d;
    HeadingRest(v, d);
  }

  /** `## Unreleased` headings, with or without a date, are never version headings. */
  lemma UnreleasedNeverMatches(tail: string)
    ensures ParseChangelogLine("## Unreleased" + tail) == None
  {
    var line := "## Unreleased" + tail;
    assert line[..3] == "## ";
    var rest := line[3..];
    assert rest[0] == 'U';
    var n := IndexOf(rest, ' ');
    assert n > 0 ==> rest[..n][0] == 'U';
  }

  /** A heading with anything after its `TBD` or date is not a version heading. */
  lemma TrailingTextNeverMatches(v: string, d: string, tail: string)
    requires IsDateField(d) && tail != []
    ensures ParseChangelogLine("## " + v + " - " + d + tail) == None
  {
    assert "## " + v + " - " + d + tail == "## " + v + " - " + (d + tail);
    HeadingLine(v, d + tail);
    if d + tail != "TBD" {
      assert (d + tail)[..|d|] == d;
      assert d == "TBD" ==> (d + tail)[0] == 'T';
    }
  }

  // ---------------------------------------------------------------------
  // findLatestVersion
  // ---------------------------------------------------------------------

  /** The version of the first heading line among `ls`. */
  function FirstHeading(ls: seq<string>): (r: Result<string, BumpError>)
    ensures r.Success? ==> IsVersion(r.value)
    ensures r.Failure? ==> r.error == ChangelogEntriesNotFound
  {
    if ls == [] then Failure(ChangelogEntriesNotFound)
    else
      match ParseChangelogLine(ls[0])
      case Some(v) => Success(v)
      case None => FirstHeading(ls[1..])
  }

  /**
   * `findLatestVersion`: the version token of the first line of the
   * changelog that is a version heading, or ChangelogEntriesNotFound when
   * no line is one.
   */
  function FindLatestVersion(contents: string): (r: Result<string, BumpError>)
    ensures r.Success? ==> IsVersion(r.value)
    ensures r.Failure? ==> r.error == ChangelogEntriesNotFound
  {
    FirstHeading(Lines(contents))
  }

  /** Line `k` of `ls` is a version heading for `v` and no earlier line is one. */
  ghost predicate IsFirstHeading(ls: seq<string>, k: int, v: string)
  {
    0 <= k < |ls| && ParseChangelogLine(ls[k]) == Some(v) &&
    forall j | 0 <= j < k :: ParseChangelogLine(ls[j]).None?
  }

  /**
   * The line search, stated with quantifiers: it fails exactly when no line
   * is a version heading, and otherwise returns the version of the first one.
   */
  lemma {:induction false} FirstHeadingIsFirst(ls: seq<string>)
    ensures FirstHeading(ls).Failure? ==> forall k | 0 <= k < |ls| :: ParseChangelogLine(ls[k]).None?
    ensures FirstHeading(ls).Success? ==> exists k :: IsFirstHeading(ls, k, FirstHeading(ls).value)
  {
    if ls != [] {
      var rest := ls[1..];
      if ParseChangelogLine(ls[0]).Some? {
        assert IsFirstHeading(ls, 0, FirstHeading(ls).value);
      } else {
        assert FirstHeading(ls) == FirstHeading(rest);
        FirstHeadingIsFirst(rest);
        if FirstHeading(rest).Success? {
          var v := FirstHeading(rest).value;
          var k :| IsFirstHeading(rest, k, v);
          assert ls[k + 1] == rest[k];
          forall j | 0 <= j < k + 1
            ensures ParseChangelogLine(ls[j]).None?
          {
            if j > 0 { assert ls[j] == rest[j - 1]; }
          }
          assert IsFirstHeading(ls, k + 1, v);
        } else {
          forall k | 0 <= k < |ls| ensures ParseChangelogLine(ls[k]).None? {
            if k > 0 { assert ls[k] == rest[k - 1]; }
          }
        }
      }
    }
  }

  /**
   * FindLatestVersion fails exactly when no line of the changelog is a
   * version heading, and otherwise returns the version of the first one in
   * document order.
   */
  lemma FindLatestVersionIsFirstHeading(contents: string)
    ensures FindLatestVersion(contents).Failure? ==>
      forall k | 0 <= k < |Lines(contents)| :: ParseChangelogLine(Lines(contents)[k]).None?
    ensures FindLatestVersion(contents).Success? ==>
      exists k :: IsFirstHeading(Lines(contents), k, FindLatestVersion(contents).value)
  {
    FirstHeadingIsFirst(Lines(contents));
  }

  lemma {:induction false} FirstHeadingSkips(ls1: seq<string>, ls2: seq<string>)
    requires FirstHeading(ls1).Failure?
    ensures FirstHeading(ls1 + ls2) == FirstHeading(ls2)
  {
    if ls1 == [] {
      assert ls1 + ls2 == ls2;
    } else {
      assert ParseChangelogLine(ls1[0]).None?;
      assert FirstHeading(ls1[1..]).Failure?;
      assert (ls1 + ls2)[0] == ls1[0];
      assert (ls1 + ls2)[1..] == ls1[1..] + ls2;
      FirstHeadingSkips(ls1[1..], ls2);
    }
  }

  /** Lines before a "\n" that hold no version heading do not affect the search. */
  lemma FindLatestVersionSkips(a: string, b: string)
    requires FindLatestVersion(a).Failure?
    ensures FindLatestVersion(a + "\n" + b) == FindLatestVersion(b)
  {
    LinesOfConcat(a, b);
    FirstHeadingSkips(Lines(a), Lines(b));
  }

  // ---------------------------------------------------------------------
  // Version bumps
  // ---------------------------------------------------------------------

  /** A dot and the numeral after it, at the start of `s`. */
  function ReadDottedNumeral(s: string): (r: Option<(nat, string)>)
    ensures r.Some? <==> |s| >= 2 && s[0] == '.' && IsDigit(s[1])
  {
    if s != [] && s[0] == '.' then ReadNumeral(s[1..]) else None
  }

  /**
   * The leading `major.minor.patch` triple of a version string; whatever
   * follows the third numeral is discarded. The source's pattern skips a
   * version with a line break before its last character, so there the
   * suffix can reach the patch number through the integer cast; the model
   * does not follow it.
   */
  function ParseVersion(version: string): (r: Result<(nat, nat, nat), BumpError>)
    ensures r.Failure? ==> r.error == InvalidVersion
  {
    match ReadNumeral(version)
    case None => Failure(InvalidVersion)
    case Some((major, r1)) =>
      match ReadDottedNumeral(r1)
      case None => Failure(InvalidVersion)
      case Some((minor, r2)) =>
        match ReadDottedNumeral(r2)
        case None => Failure(InvalidVersion)
        case Some((patch, _)) => Success((major, minor, patch))
  }

  /** A numeral in state Major or Minor is closed by a '.' where the digit run stops. */
  lemma {:induction false} ScanNumeral(s: string, st: VersionState)
    requires st == Major || st == Minor
    requires ScanVersion(s, st)
    decreases |s|
    ensures DigitRun(s) < |s| && s[DigitRun(s)] == '.'
    ensures ScanVersion(s[DigitRun(s) + 1..], if st == Major then MinorStart else PatchStart)
  {
    if IsDigit(s[0]) {
      ScanNumeral(s[1..], st);
      assert s[1..][DigitRun(s[1..]) + 1..] == s[DigitRun(s) + 1..];
    }
  }

  /** The first or second numeral of a version token is read whole, and a '.' follows it. */
  lemma LeadNumeral(s: string, st: VersionState)
    requires st == MajorStart || st == MinorStart
    requires ScanVersion(s, st)
    ensures ReadNumeral(s).Some?
    ensures var rest := ReadNumeral(s).value.1;
      rest != [] && rest[0] == '.' &&
      ScanVersion(rest[1..], if st == MajorStart then MinorStart else PatchStart)
  {
    var t := s[1..];
    ScanNumeral(t, if st == MajorStart then Major else Minor);
    var k := DigitRun(t);
    assert DigitRun(s) == k + 1;
    assert s[k + 1..][1..] == t[k + 1..];
  }

  /** Every version token starts with the numeric triple that ParseVersion reads. */
  lemma VersionHasTriple(v: string)
    requires IsVersion(v)
    ensures ParseVersion(v).Success?
  {
    LeadNumeral(v, MajorStart);
    var r1 := ReadNumeral(v).value.1;
    LeadNumeral(r1[1..], MinorStart);
    var r2 := ReadNumeral(r1[1..]).value.1;
    assert ScanVersion(r2[1..], PatchStart);
  }

  /** The three numbers rendered in decimal and joined by dots. */
  function VersionString(major: nat, minor: nat, patch: nat): string
  {
    NatToString(major) + "." + NatToString(minor) + "." + NatToString(patch)
  }

  /** Digits inside a numeral keep the scanner where it is. */
  lemma {:induction false} ScanDigits(x: string, rest: string, st: VersionState)
    requires AllDigits(x)
    requires st == Major || st == Minor || st == Patch || st == TagDigits
    decreases |x|
    ensures ScanVersion(x + rest, st) == ScanVersion(rest, st)
  {
    if x == [] {
      assert x + rest == rest;
    } else {
      assert (x + rest)[0] == x[0];
      assert (x + rest)[1..] == x[1..] + rest;
      ScanDigits(x[1..], rest, st);
    }
  }

  /** A numeral then '.' moves the scanner from one numeral's start to the next one's. */
  lemma ScanNumeralDot(x: string, rest: string, st: VersionState)
    requires x != [] && AllDigits(x)
    requires st == MajorStart || st == MinorStart
    ensures ScanVersion(x + "." + rest, st) ==
      ScanVersion(rest, if st == MajorStart then MinorStart else PatchStart)
  {
    var s := x + "." + rest;
    var inner := if st == MajorStart then Major else Minor;
    assert s[0] == x[0];
    assert s[1..] == x[1..] + ("." + rest);
    ScanDigits(x[1..], "." + rest, inner);
    assert ("." + rest)[1..] == rest;
  }

  /** The last numeral ends the token. */
  lemma ScanLastNumeral(x: string)
    requires x != [] && AllDigits(x)
    ensures ScanVersion(x, PatchStart)
  {
    assert x[1..] + [] == x[1..];
    ScanDigits(x[1..], [], Patch);
  }

  /** A rendered triple is a version token. */
  lemma VersionStringIsVersion(major: nat, minor: nat, patch: nat)
    ensures IsVersion(VersionString(major, minor, patch))
  {
    var x, y, z := NatToString(major), NatToString(minor), NatToString(patch);
    assert VersionString(major, minor, patch) == x + "." + (y + "." + z);
    ScanNumeralDot(x, y + "." + z, MajorStart);
    ScanNumeralDot(y, z, MinorStart);
    ScanLastNumeral(z);
  }

  /** A '.' and a numeral followed by a non-digit are read back whole. */
  lemma ReadDottedNumeralConcat(x: string, rest: string)
    requires x != [] && AllDigits(x)
    requires rest == [] || !IsDigit(rest[0])
    ensures ReadDottedNumeral("." + x + rest) == Some((DigitsValue(x), rest))
  {
    assert ("." + x + rest)[1..] == x + rest;
    ReadNumeralConcat(x, rest);
  }

  /** Three numerals joined by '.' are read as their values, whatever non-digit follows. */
  lemma ParseNumerals(x: string, y: string, z: string, tail: string)
    requires x != [] && AllDigits(x)
    requires y != [] && AllDigits(y)
    requires z != [] && AllDigits(z)
    requires tail == [] || !IsDigit(tail[0])
    ensures ParseVersion(x + ("." + y + ("." + z + tail))) ==
      Success((DigitsValue(x), DigitsValue(y), DigitsValue(z)))
  {
    var r2 := "." + z + tail;
    var r1 := "." + y + r2;
    ReadNumeralConcat(x, r1);
    ReadDottedNumeralConcat(y, r2);
    ReadDottedNumeralConcat(z, tail);
    assert r1 == "." + y + ("." + z + tail);
  }

  /**
   * Reading back a rendered triple gives the triple, whatever text that does
   * not start with a digit follows it.
   */
  lemma ParseVersionString(major: nat, minor: nat, patch: nat, tail: string)
    requires tail == [] || !IsDigit(tail[0])
    ensures ParseVersion(VersionString(major, minor, patch) + tail) == Success((major, minor, patch))
  {
    NatToStringRoundTrip(major);
    NatToStringRoundTrip(minor);
    NatToStringRoundTrip(patch);
    var x, y, z := NatToString(major), NatToString(minor), NatToString(patch);
    assert VersionString(major, minor, patch) + tail == x + ("." + y + ("." + z + tail));
    ParseNumerals(x, y, z, tail);
  }

  /** A rendered triple is a version string that parses back to the triple. */
  lemma Rendered(major: nat, minor: nat, patch: nat)
    ensures IsVersion(VersionString(major, minor, patch))
    ensures ParseVersion(VersionString(major, minor, patch)) == Success((major, minor, patch))
  {
    ParseVersionString(major, minor, patch, []);
    VersionStringIsVersion(major, minor, patch);
    assert VersionString(major, minor, patch) + [] == VersionString(major, minor, patch);
  }

  /** `bumpPatchVersion`: `a.b.c<suffix>` becomes `a.b.(c+1)`. */
  function BumpPatchVersion(version: string): (r: Result<string, BumpError>)
    ensures r.Success? <==> ParseVersion(version).Success?
    ensures r.Failure? ==> r.error == InvalidVersion
  {
    var parsed := ParseVersion(version);
    if parsed.Failure? then Failure(parsed.error)
    else Success(VersionString(parsed.value.0, parsed.value.1, parsed.value.2 + 1))
  }

  /** `bumpMinorVersion`: `a.b.c<suffix>` becomes `a.(b+1).0`. */
  function BumpMinorVersion(version: string): (r: Result<string, BumpError>)
    ensures r.Success? <==> ParseVersion(version).Success?
    ensures r.Failure? ==> r.error == InvalidVersion
  {
    var parsed := ParseVersion(version);
    if parsed.Failure? then Failure(parsed.error)
    else Success(VersionString(parsed.value.0, parsed.value.1 + 1, 0))
  }

  /** `bumpMajorVersion`: `a.b.c<suffix>` becomes `(a+1).0.0`. */
  function BumpMajorVersion(version: string): (r: Result<string, BumpError>)
    ensures r.Success? <==> ParseVersion(version).Success?
    ensures r.Failure? ==> r.error == InvalidVersion
  {
    var parsed := ParseVersion(version);
    if parsed.Failure? then Failure(parsed.error)
    else Success(VersionString(parsed.value.0 + 1, 0, 0))
  }

  /** A patch bump yields a version whose triple has the patch number raised. */
  lemma BumpPatchParses(version: string, major: nat, minor: nat, patch: nat)
    requires ParseVersion(version) == Success((major, minor, patch))
    ensures BumpPatchVersion(version) == Success(VersionString(major, minor, patch + 1))
    ensures IsVersion(VersionString(major, minor, patch + 1))
    ensures ParseVersion(VersionString(major, minor, patch + 1)) == Success((major, minor, patch + 1))
  {
    BumpPatchResult(version, major, minor, patch);
    Rendered(major, minor, patch + 1);
  }

  lemma BumpPatchResult(version: string, major: nat, minor: nat, patch: nat)
    requires ParseVersion(version) == Success((major, minor, patch))
    ensures BumpPatchVersion(version) == Success(VersionString(major, minor, patch + 1))
  {
  }

  /** A minor bump yields a version whose triple has the minor number raised and the patch reset. */
  lemma BumpMinorParses(version: string, major: nat, minor: nat, patch: nat)
    requires ParseVersion(version) == Success((major, minor, patch))
    ensures BumpMinorVersion(version) == Success(VersionString(major, minor + 1, 0))
    ensures IsVersion(VersionString(major, minor + 1, 0))
    ensures ParseVersion(VersionString(major, minor + 1, 0)) == Success((major, minor + 1, 0))
  {
    BumpMinorResult(version, major, minor, patch);
    Rendered(major, minor + 1, 0);
  }

  lemma BumpMinorResult(version: string, major: nat, minor: nat, patch: nat)
    requires ParseVersion(version) == Success((major, minor, patch))
    ensures BumpMinorVersion(version) == Success(VersionString(major, minor + 1, 0))
  {
  }

  /** A major bump yields a version whose triple has the major number raised and the rest reset. */
  lemma BumpMajorParses(version: string, major: nat, minor: nat, patch: nat)
    requires ParseVersion(version) == Success((major, minor, patch))
    ensures BumpMajorVersion(version) == Success(VersionString(major + 1, 0, 0))
    ensures IsVersion(VersionString(major + 1, 0, 0))
    ensures ParseVersion(VersionString(major + 1, 0, 0)) == Success((major + 1, 0, 0))
  {
    BumpMajorResult(version, major, minor, patch);
    Rendered(major + 1, 0, 0);
  }

  lemma BumpMajorResult(version: string, major: nat, minor: nat, patch: nat)
    requires ParseVersion(version) == Success((major, minor, patch))
    ensures BumpMajorVersion(version) == Success(VersionString(major + 1, 0, 0))
  {
  }

  /** `parseVersion` keeps the leading triple and drops a pre-release suffix. */
  lemma ParseVersionSuffixExample()
    ensures ParseVersion("1.2.3rc1") == Success((1, 2, 3))
  {
    assert VersionString(1, 2, 3) + "rc1" == "1.2.3rc1";
    ParseVersionString(1, 2, 3, "rc1");
  }

  /** The integer cast ignores leading zeros: a zero in front of a numeral does not change its value. */
  lemma {:induction false} LeadingZeroIgnored(x: string)
    requires AllDigits(x)
    decreases |x|
    ensures AllDigits("0" + x) && DigitsValue("0" + x) == DigitsValue(x)
  {
    var s := "0" + x;
    if x == [] {
      assert s[..0] == [];
    } else {
      LeadingZeroIgnored(x[..|x| - 1]);
      assert s[..|s| - 1] == "0" + x[..|x| - 1];
    }
  }

  /** Rendering the triple (1, 2, 4). */
  lemma RenderExample()
    ensures VersionString(1, 2, 4) == "1.2.4"
  {
  }

  /** A patch bump discards a pre-release suffix. */
  lemma BumpPatchSuffixExample()
    ensures BumpPatchVersion("1.2.3rc1") == Success("1.2.4")
  {
    ParseVersionSuffixExample();
    RenderExample();
  }

  // ---------------------------------------------------------------------
  // updateChangelog: one regular-expression substitution. Its first group
  // runs from the start of the document over a title line that mentions
  // "changelog" in any case, a blank line, and as little text as possible;
  // its second group is the blank line and the two hashes that open the
  // next level-two heading. The match becomes the first group, the filled-in
  // template and a fresh heading opener.
  // ---------------------------------------------------------------------

  /** One empty sub-section of TEMPLATE: a blank line, `### <heading>`, a blank line, a bullet. */
  function Subsection(heading: string): string
  {
    "\n\n### " + heading + "\n\n- Nothing."
  }

  /** The part of TEMPLATE after the heading line: five empty sub-sections and a blank line. */
  const StubSections: string :=
    Subsection("Added") + Subsection("Changed") + Subsection("Deprecated") +
    Subsection("Removed") + Subsection("Fixed") + "\n\n"

  /** The stub section for `version`: its `## <version> - TBD` heading and the sub-sections. */
  function Section(version: string): string
  {
    "## " + version + " - TBD" + StubSections
  }

  /** TEMPLATE filled in with `version`: a blank line, then the stub section. */
  function Template(version: string): string
  {
    "\n\n" + Section(version)
  }

  /** The replacement string handed to preg_replace. */
  function Replacement(version: string): string
  {
    "$1" + Template(version) + "## "
  }

  /** ASCII lower-casing, as PCRE's default tables fold letters under the `i` flag. */
  function LowerAscii(c: char): char
  {
    if 'A' <= c <= 'Z' then (c as int + 32) as char else c
  }

  /** The lower-case word `w` occurs in `s` at offset `j`, letters compared without case. */
  predicate MatchIgnoreCaseAt(s: string, w: string, j: nat)
  {
    j + |w| <= |s| && forall t | 0 <= t < |w| :: LowerAscii(s[j + t]) == w[t]
  }

  /** `w` occurs somewhere in `s`, letters compared without case. */
  predicate ContainsIgnoreCase(s: string, w: string)
  {
    exists j: nat | j <= |s| :: MatchIgnoreCaseAt(s, w, j)
  }

  /** A title line: a hash and a space, then text that mentions "changelog" in any case. */
  predicate IsTitleLine(line: string)
  {
    |line| >= 2 && line[..2] == "# " && ContainsIgnoreCase(line[2..], "changelog")
  }

  /** The second group, a blank line and a level-two heading opener, occurs at offset `k`. */
  predicate SeparatorAt(c: string, k: int)
  {
    0 <= k && k + 5 <= |c| && c[k..k + 5] == "\n\n## "
  }

  /**
   * The offset where the first group ends: the document starts with a title
   * line followed by a blank line, and `k` is the first separator that starts
   * at or after the end of that blank line (the lazy repetition stops at the
   * first one). The separator's first line break ends a line that starts past
   * the blank line, so the heading it opens is the fifth line or later.
   */
  ghost predicate AnchorAt(c: string, k: int)
  {
    var i := LineEnd(c);
    && IsTitleLine(c[..i])
    && i + 2 <= k
    && SeparatorAt(c, k)
    && c[i..i + 2] == "\n\n"
    && forall j | i + 2 <= j < k :: !SeparatorAt(c, j)
  }

  /** The anchor is unique when it exists. */
  lemma AnchorUnique(c: string, k1: int, k2: int)
    requires AnchorAt(c, k1) && AnchorAt(c, k2)
    ensures k1 == k2
  {
  }

  /** Where the lazy part of the match may start: just past the title line and the blank line after it. */
  function PreambleStart(c: string): (r: Option<nat>)
    ensures r.Some? <==> var i := LineEnd(c);
      IsTitleLine(c[..i]) && i + 2 <= |c| && c[i..i + 2] == "\n\n"
    ensures r.Some? ==> r.value == LineEnd(c) + 2
  {
    var i := LineEnd(c);
    if IsTitleLine(c[..i]) && i + 2 <= |c| && c[i..i + 2] == "\n\n" then Some(i + 2) else None
  }

  /** The first separator at or after `from`. */
  function FindSeparator(c: string, from: nat): (r: Option<nat>)
    decreases |c| - from
    ensures r.Some? ==> from <= r.value && SeparatorAt(c, r.value)
    ensures r.Some? ==> forall j | from <= j < r.value :: !SeparatorAt(c, j)
    ensures r.None? ==> forall j | from <= j :: !SeparatorAt(c, j)
  {
    if from + 5 > |c| then None
    else if SeparatorAt(c, from) then Some(from)
    else FindSeparator(c, from + 1)
  }

  /** The end of the first group, when the pattern matches. */
  function FindAnchor(c: string): (r: Option<nat>)
    ensures r.Some? ==> AnchorAt(c, r.value)
    ensures r.None? ==> forall k :: !AnchorAt(c, k)
  {
    match PreambleStart(c)
    case None => None
    case Some(j) => FindSeparator(c, j)
  }

  /**
   * A group reference at the start of a replacement string, as preg_replace
   * reads `\n`, `$n` and `${n}` with one or two digits: the group number and
   * the length of the reference.
   */
  function GroupReference(r: string): (g: Option<(nat, nat)>)
    ensures g.Some? ==> 2 <= g.value.1 <= |r| && g.value.0 < 100
    ensures g.Some? ==> r[0] == '\\' || r[0] == '$'
  {
    if |r| < 2 || !(r[0] == '\\' || r[0] == '$') then None
    else
      var i := if r[0] == '$' && r[1] == '{' then 2 else 1;
      if !(i < |r| && IsDigit(r[i])) then None
      else
        var two := i + 1 < |r| && IsDigit(r[i + 1]);
        var n := if two then DigitValue(r[i]) * 10 + DigitValue(r[i + 1]) else DigitValue(r[i]);
        var j := if two then i + 2 else i + 1;
        if i == 2 then (if j < |r| && r[j] == '}' then Some((n, j + 1)) else None)
        else Some((n, j))
  }

  /**
   * preg_replace's expansion of a replacement string against the groups of
   * a match: references are replaced by the group's text (nothing for a group
   * the pattern does not have), and a backslash before `\` or `$` makes that
   * character literal.
   */
  function Expand(r: string, groups: seq<string>): string
    decreases |r|
  {
    if r == [] then []
    else
      match GroupReference(r)
      case Some((n, len)) => (if n < |groups| then groups[n] else []) + Expand(r[len..], groups)
      case None =>
        if r[0] == '\\' && |r| >= 2 && (r[1] == '\\' || r[1] == '$') then [r[1]] + Expand(r[2..], groups)
        else [r[0]] + Expand(r[1..], groups)
  }

  /** Text without `\` and `$` is copied through unchanged. */
  lemma {:induction false} ExpandLiteral(x: string, r: string, groups: seq<string>)
    requires '\\' !in x && '$' !in x
    decreases |x|
    ensures Expand(x + r, groups) == x + Expand(r, groups)
  {
    if x == [] {
      assert x + r == r;
    } else {
      var s := x + r;
      assert s[0] == x[0];
      assert s[1..] == x[1..] + r;
      ExpandLiteral(x[1..], r, groups);
    }
  }

  /** The groups of the match ending at the separator at `k`: whole match, `$1`, `$2`. */
  function Groups(c: string, k: nat): seq<string>
    requires k + 5 <= |c|
  {
    [c[..k + 5], c[..k], c[k..k + 5]]
  }

  /**
   * `updateChangelog`: without the anchor the document comes back
   * unchanged; with it the match, which runs from the start of the document
   * to the end of the separator, is replaced by the expanded replacement.
   */
  function UpdateChangelog(contents: string, version: string): (r: string)
    ensures (forall k :: !AnchorAt(contents, k)) ==> r == contents
    ensures forall k | AnchorAt(contents, k) ::
      r == Expand(Replacement(version), Groups(contents, k)) + contents[k + 5..]
  {
    match FindAnchor(contents)
    case None => contents
    case Some(k) =>
      forall k' | AnchorAt(contents, k') ensures k' == k {
        AnchorUnique(contents, k, k');
      }
      Expand(Replacement(version), Groups(contents, k)) + contents[k + 5..]
  }

  /** A separator is the blank line before a `## ` heading. */
  lemma SeparatorSplit(c: string, k: nat)
    requires SeparatorAt(c, k)
    ensures c[..k + 2] == c[..k] + "\n\n"
    ensures c[k + 2..] == "## " + c[k + 5..]
  {
    var sep := c[k..k + 5];
    assert c[k] == sep[0] && c[k + 1] == sep[1];
    assert c[k + 2..] == c[k + 2..k + 5] + c[k + 5..];
  }

  /** A sub-section holds `\` or `$` only when its heading does. */
  lemma SubsectionPlain(heading: string)
    requires '\\' !in heading && '$' !in heading
    ensures '\\' !in Subsection(heading) && '$' !in Subsection(heading)
  {
  }

  /** TEMPLATE itself holds no `\` or `$`. */
  lemma StubSectionsLiteral()
    ensures '\\' !in StubSections && '$' !in StubSections
  {
    SubsectionPlain("Added");
    SubsectionPlain("Changed");
    SubsectionPlain("Deprecated");
    SubsectionPlain("Removed");
    SubsectionPlain("Fixed");
  }

  /** `$1` followed by a line break is a reference to group 1, two characters long. */
  lemma GroupOneReference(r: string)
    requires |r| >= 3 && r[..2] == "$1" && r[2] == '\n'
    ensures GroupReference(r) == Some((1, 2))
  {
    assert r[0] == '$' && r[1] == '1';
  }

  /** The template and the trailing `## ` hold no `\` or `$` when the version holds none. */
  lemma TemplatePlain(version: string)
    requires '\\' !in version && '$' !in version
    ensures '\\' !in Template(version) + "## " && '$' !in Template(version) + "## "
  {
    StubSectionsLiteral();
  }

  /** The replacement is `$1` followed by literal text when the version is. */
  lemma ReplacementShape(version: string)
    requires '\\' !in version && '$' !in version
    ensures GroupReference(Replacement(version)) == Some((1, 2))
    ensures Replacement(version)[2..] == Template(version) + "## "
    ensures '\\' !in Template(version) + "## " && '$' !in Template(version) + "## "
  {
    var lit := Template(version) + "## ";
    var r := Replacement(version);
    assert r == "$1" + lit;
    assert r[..2] == "$1" && r[2..] == lit;
    assert lit[0] == '\n';
    GroupOneReference(r);
    TemplatePlain(version);
  }

  /** Expansion of the replacement for a version without `\` and `$`. */
  lemma ExpandReplacement(version: string, groups: seq<string>)
    requires |groups| >= 2
    requires '\\' !in version && '$' !in version
    ensures Expand(Replacement(version), groups) == groups[1] + Template(version) + "## "
  {
    ReplacementShape(version);
    var lit := Template(version) + "## ";
    assert lit + [] == lit;
    ExpandLiteral(lit, [], groups);
  }

  /** The match result at a known anchor. */
  lemma UpdateChangelogAt(c: string, version: string, k: nat)
    requires AnchorAt(c, k)
    ensures UpdateChangelog(c, version) == Expand(Replacement(version), Groups(c, k)) + c[k + 5..]
  {
  }

  lemma Regroup(p: string, sec: string, rest: string)
    ensures p + ("\n\n" + sec) + "## " + rest == (p + "\n\n") + sec + ("## " + rest)
  {
  }

  /**
   * For a version without `\` and `$` the stub section goes in at the start
   * of the first level-two heading whose preceding blank line comes after a
   * line that starts past the blank line under the title; nothing else
   * changes.
   */
  lemma UpdateChangelogInserts(c: string, version: string, k: nat)
    requires AnchorAt(c, k)
    requires '\\' !in version && '$' !in version
    ensures UpdateChangelog(c, version) == c[..k + 2] + Section(version) + c[k + 2..]
  {
    UpdateChangelogAt(c, version, k);
    var g := Groups(c, k);
    ExpandReplacement(version, g);
    assert Template(version) == "\n\n" + Section(version);
    Regroup(c[..k], Section(version), c[k + 5..]);
    SeparatorSplit(c, k);
  }

  /** Two texts that agree up to `m` have the same first line when it ends before `m`. */
  lemma LineEndOfPrefix(c: string, d: string, m: nat)
    requires m <= |c| && m <= |d| && d[..m] == c[..m]
    requires LineEnd(c) < m
    ensures LineEnd(d) == LineEnd(c)
    ensures d[..LineEnd(c)] == c[..LineEnd(c)]
  {
    var i := LineEnd(c);
    assert d[..i] == d[..m][..i];
    assert c[..i] == c[..m][..i];
    assert d[i] == d[..m][i];
    IndexOfUnique(d, '\n', i);
  }

  /** Two texts that agree up to `m` agree on every slice that ends by `m`. */
  lemma SliceOfPrefix(c: string, d: string, m: nat, x: nat, y: nat)
    requires m <= |c| && m <= |d| && d[..m] == c[..m]
    requires x <= y <= m
    ensures d[x..y] == c[x..y]
  {
    forall t | 0 <= t < y - x
      ensures d[x..y][t] == c[x..y][t]
    {
      assert d[x + t] == d[..m][x + t];
      assert c[x + t] == c[..m][x + t];
    }
  }

  /** Two texts that agree up to `m` have the same title line and blank line when these end by `m`. */
  lemma TitleOfPrefix(c: string, d: string, m: nat)
    requires m <= |c| && m <= |d| && d[..m] == c[..m]
    requires LineEnd(c) + 2 <= m
    ensures LineEnd(d) == LineEnd(c)
    ensures d[..LineEnd(c)] == c[..LineEnd(c)]
    ensures d[LineEnd(c)..LineEnd(c) + 2] == c[LineEnd(c)..LineEnd(c) + 2]
  {
    LineEndOfPrefix(c, d, m);
    SliceOfPrefix(c, d, m, LineEnd(c), LineEnd(c) + 2);
  }

  /** Two texts that agree up to `m` have the same separators in a range that ends by `m`. */
  lemma NoSeparatorOfPrefix(c: string, d: string, m: nat, from: nat, k: nat)
    requires m <= |c| && m <= |d| && d[..m] == c[..m]
    requires k + 5 <= m
    requires forall j | from <= j < k :: !SeparatorAt(c, j)
    ensures forall j | from <= j < k :: !SeparatorAt(d, j)
  {
    forall j | from <= j < k
      ensures !SeparatorAt(d, j)
    {
      assert !SeparatorAt(c, j);
      SliceOfPrefix(c, d, m, j, j + 5);
    }
  }

  /** The parts of an anchor, in terms of the line end `i` of the title. */
  lemma AnchorIntro(d: string, k: nat, i: nat)
    requires i == LineEnd(d) && IsTitleLine(d[..i]) && i + 2 <= k
    requires SeparatorAt(d, k) && d[i..i + 2] == "\n\n"
    requires forall j | i + 2 <= j < k :: !SeparatorAt(d, j)
    ensures AnchorAt(d, k)
  {
  }

  /** The anchor depends only on the text up to the end of its separator. */
  lemma AnchorStable(c: string, d: string, k: nat)
    requires AnchorAt(c, k)
    requires k + 5 <= |d| && d[..k + 5] == c[..k + 5]
    ensures AnchorAt(d, k)
  {
    var i := LineEnd(c);
    TitleOfPrefix(c, d, k + 5);
    SliceOfPrefix(c, d, k + 5, k, k + 5);
    NoSeparatorOfPrefix(c, d, k + 5, i + 2, k);
    AnchorIntro(d, k, i);
  }

  /** A stub section starts with `## `, like the heading the separator introduces. */
  lemma SectionStart(version: string)
    ensures |Section(version)| >= 3 && Section(version)[..3] == "## "
  {
  }

  /** Inserting a section at the heading keeps the anchor where it was. */
  lemma InsertKeepsAnchor(c: string, k: nat, sec: string)
    requires AnchorAt(c, k)
    requires |sec| >= 3 && sec[..3] == "## "
    ensures AnchorAt(c[..k + 2] + sec + c[k + 2..], k)
  {
    var d := c[..k + 2] + sec + c[k + 2..];
    SeparatorSplit(c, k);
    assert d[..k + 5] == c[..k + 2] + sec[..3];
    assert c[..k + 5] == c[..k + 2] + c[k + 2..k + 5];
    AnchorStable(c, d, k);
  }

  /** Splitting the text after an insertion back into its parts. */
  lemma InsertParts(c: string, k: nat, sec: string)
    requires k + 2 <= |c|
    ensures (c[..k + 2] + sec + c[k + 2..])[..k + 2] == c[..k + 2]
    ensures (c[..k + 2] + sec + c[k + 2..])[k + 2..] == sec + c[k + 2..]
  {
  }

  /**
   * Two updates in a row: both stubs sit above every earlier heading, the
   * later one on top.
   */
  lemma UpdateTwice(c: string, v1: string, v2: string, k: nat)
    requires AnchorAt(c, k)
    requires '\\' !in v1 && '$' !in v1
    requires '\\' !in v2 && '$' !in v2
    ensures UpdateChangelog(UpdateChangelog(c, v1), v2) ==
      c[..k + 2] + Section(v2) + Section(v1) + c[k + 2..]
  {
    var s1, s2 := Section(v1), Section(v2);
    UpdateChangelogInserts(c, v1, k);
    var d := c[..k + 2] + s1 + c[k + 2..];
    SectionStart(v1);
    InsertKeepsAnchor(c, k, s1);
    UpdateChangelogInserts(d, v2, k);
    InsertParts(c, k, s1);
  }

  /** A document whose first line is a version heading reports that version. */
  lemma FindLatestOfLine(h: string, y: string, version: string)
    requires '\n' !in h && ParseChangelogLine(h) == Some(version)
    ensures FindLatestVersion(h + "\n" + y) == Success(version)
  {
    LinesOfConcat(h, y);
    LinesOfLine(h);
    assert Lines(h + "\n" + y)[0] == h;
  }

  /** The TBD heading splits as the pattern reads it. */
  lemma TbdHeading(version: string)
    requires IsVersion(version)
    ensures "## " + version + " - TBD" == "## " + version + " - " + "TBD"
    ensures '\n' !in "## " + version + " - TBD"
    ensures ParseChangelogLine("## " + version + " - TBD") == Some(version)
  {
    VersionChars(version);
    HeadingLine(version, "TBD");
    assert IsDateField("TBD");
  }

  /** A document whose first line is a TBD heading for `version` reports `version`. */
  lemma FindLatestOfHeadingLine(version: string, y: string)
    requires IsVersion(version)
    ensures FindLatestVersion("## " + version + " - TBD" + "\n" + y) == Success(version)
  {
    TbdHeading(version);
    FindLatestOfLine("## " + version + " - TBD", y, version);
  }

  /** A document that starts with a stub section reports its version. */
  lemma FindLatestOfSection(version: string, rest: string)
    requires IsVersion(version)
    ensures FindLatestVersion(Section(version) + rest) == Success(version)
  {
    var h := "## " + version + " - TBD";
    assert StubSections[0] == '\n';
    var y := StubSections[1..] + rest;
    assert Section(version) + rest == h + "\n" + y;
    FindLatestOfHeadingLine(version, y);
  }

  /** Text without a version heading, then a blank line, does not affect the search. */
  lemma FindLatestSkipsBlankLine(p: string, x: string)
    requires FindLatestVersion(p).Failure?
    ensures FindLatestVersion(p + "\n\n" + x) == FindLatestVersion(x)
  {
    var b := "" + "\n" + x;
    assert p + "\n\n" + x == p + "\n" + b;
    FindLatestVersionSkips(p, b);
    LinesOfLine("");
    FindLatestVersionSkips("", x);
  }

  /** The updated document: the preamble, the blank line, the stub section, the old headings. */
  lemma UpdateAfterPreamble(c: string, version: string, k: nat)
    requires AnchorAt(c, k)
    requires '\\' !in version && '$' !in version
    ensures UpdateChangelog(c, version) == c[..k] + "\n\n" + (Section(version) + c[k + 2..])
  {
    UpdateChangelogInserts(c, version, k);
    SeparatorSplit(c, k);
  }

  /**
   * When the preamble holds no version heading, the inserted stub becomes
   * the latest version that `findLatestVersion` reports.
   */
  lemma UpdateThenFindLatest(c: string, version: string, k: nat)
    requires AnchorAt(c, k)
    requires IsVersion(version)
    requires FindLatestVersion(c[..k]).Failure?
    ensures FindLatestVersion(UpdateChangelog(c, version)) == Success(version)
  {
    VersionChars(version);
    UpdateAfterPreamble(c, version, k);
    var x := Section(version) + c[k + 2..];
    FindLatestSkipsBlankLine(c[..k], x);
    FindLatestOfSection(version, c[k + 2..]);
  }

  /** The first line of `t + u` is `t` when `t` has no line break and `u` starts with one. */
  lemma FirstLineOf(t: string, u: string)
    requires '\n' !in t && u != [] && u[0] == '\n'
    ensures LineEnd(t + u) == |t| && (t + u)[..|t|] == t
  {
    IndexOfConcat(t, '\n', u[1..]);
    assert t + u == t + ['\n'] + u[1..];
  }

  /** No separator starts inside a line. */
  lemma NoSeparatorInLine(c: string, from: nat, h: string)
    requires from + |h| <= |c| && c[from..from + |h|] == h && '\n' !in h
    ensures forall j | from <= j < from + |h| :: !SeparatorAt(c, j)
  {
    forall j | from <= j < from + |h|
      ensures !SeparatorAt(c, j)
    {
      assert c[j] == h[j - from];
    }
  }

  /** Under a title line, the blank line, a line `h` and a separator, the anchor is that separator. */
  lemma AnchorAfterLine(t: string, h: string, rest: string)
    requires IsTitleLine(t) && '\n' !in t && '\n' !in h
    ensures AnchorAt(t + ("\n\n" + (h + ("\n\n## " + rest))), |t| + 2 + |h|)
  {
    var u := "\n\n" + (h + ("\n\n## " + rest));
    var c := t + u;
    var i, k := |t|, |t| + 2 + |h|;
    FirstLineOf(t, u);
    assert c[i..i + 2] == u[..2];
    assert c[i + 2..k] == h;
    assert c[k..k + 5] == "\n\n## ";
    NoSeparatorInLine(c, i + 2, h);
    AnchorIntro(c, k, i);
  }

  /**
   * The lazy match starts after the blank line under the title, so a version
   * heading right there is not the insertion point: the stub goes in front of
   * the second heading.
   */
  lemma HeadingUnderTitle(t: string, h: string, rest: string, version: string)
    requires IsTitleLine(t) && '\n' !in t && '\n' !in h
    requires '\\' !in version && '$' !in version
    ensures UpdateChangelog(t + "\n\n" + h + "\n\n## " + rest, version) ==
      t + "\n\n" + h + "\n\n" + Section(version) + "## " + rest
  {
    var a := t + "\n\n" + h + "\n\n";
    var b := "## " + rest;
    var c := a + b;
    var k := |t| + 2 + |h|;
    assert t + "\n\n" + h + "\n\n## " + rest == c == t + ("\n\n" + (h + ("\n\n## " + rest)));
    AnchorAfterLine(t, h, rest);
    UpdateChangelogInserts(c, version, k);
    assert c[..k + 2] == a;
    assert c[k + 2..] == b;
  }

  /** The second and third characters of a separator. */
  lemma SeparatorChars(c: string, j: int)
    ensures SeparatorAt(c, j) ==> c[j + 1] == '\n' && c[j + 2] == '#'
  {
    if SeparatorAt(c, j) {
      assert c[j + 1] == c[j..j + 5][1];
      assert c[j + 2] == c[j..j + 5][2];
    }
  }

  /** Where the parts sit in a title line, two blank lines, a line `h` and a separator. */
  lemma BlankLineShape(t: string, h: string, rest: string)
    ensures var c := t + ("\n\n" + ("\n" + (h + ("\n\n## " + rest))));
      && |c| == |t| + 8 + |h| + |rest|
      && c[..|t|] == t && c[|t|..|t| + 3] == "\n\n\n"
      && c[|t| + 3..|t| + 3 + |h|] == h
      && c[|t| + 3 + |h|..|t| + 8 + |h|] == "\n\n## "
  {
    var x := h + ("\n\n## " + rest);
    var c := t + ("\n\n" + ("\n" + x));
    assert c == t + "\n\n\n" + x;
    assert c[|t| + 3..] == x;
    assert x[..|h|] == h;
    assert x[|h|..|h| + 5] == "\n\n## ";
  }

  /** A document whose title line is followed by two blank lines, a line `h` and a separator: the anchor is that separator. */
  lemma AnchorPastTwoBlankLines(c: string, i: nat, h: string)
    requires i == LineEnd(c) && IsTitleLine(c[..i]) && '\n' !in h
    requires i + 3 + |h| <= |c| && c[i..i + 3] == "\n\n\n" && c[i + 3..i + 3 + |h|] == h
    requires SeparatorAt(c, i + 3 + |h|)
    ensures AnchorAt(c, i + 3 + |h|)
  {
    var k := i + 3 + |h|;
    assert c[i..i + 2] == c[i..i + 3][..2];
    SeparatorChars(c, i + 2);
    SeparatorChars(c, k);
    if h != [] {
      assert c[i + 3] == h[0];
      assert h[0] in h;
    }
    NoSeparatorInLine(c, i + 3, h);
    AnchorIntro(c, k, i);
  }

  /** Under a title line, two blank lines, a line `h` and a separator, the anchor is that separator. */
  lemma AnchorAfterBlankLine(t: string, h: string, rest: string)
    requires IsTitleLine(t) && '\n' !in t && '\n' !in h
    ensures AnchorAt(t + ("\n\n" + ("\n" + (h + ("\n\n## " + rest)))), |t| + 3 + |h|)
  {
    var u := "\n\n" + ("\n" + (h + ("\n\n## " + rest)));
    BlankLineShape(t, h, rest);
    FirstLineOf(t, u);
    AnchorPastTwoBlankLines(t + u, |t|, h);
  }

  /**
   * The blank line above a level-two heading opens the insertion point only
   * when the line before that blank line starts past the blank line under
   * the title. With two blank lines under the title, the heading that follows
   * them is skipped as well, and the stub goes in front of the next one.
   */
  lemma TwoBlankLinesUnderTitle(t: string, h: string, rest: string, version: string)
    requires IsTitleLine(t) && '\n' !in t && '\n' !in h
    requires '\\' !in version && '$' !in version
    ensures UpdateChangelog(t + "\n\n\n" + h + "\n\n## " + rest, version) ==
      t + "\n\n\n" + h + "\n\n" + Section(version) + "## " + rest
  {
    var a := t + "\n\n\n" + h + "\n\n";
    var b := "## " + rest;
    var c := a + b;
    var k := |t| + 3 + |h|;
    assert t + "\n\n\n" + h + "\n\n## " + rest == c == t + ("\n\n" + ("\n" + (h + ("\n\n## " + rest))));
    AnchorAfterBlankLine(t, h, rest);
    UpdateChangelogInserts(c, version, k);
    assert c[..k + 2] == a;
    assert c[k + 2..] == b;
  }

  /** A title line is never a version heading. */
  lemma TitleIsNoHeading(t: string)
    requires IsTitleLine(t) && '\n' !in t
    ensures FindLatestVersion(t).Failure?
  {
    LinesOfLine(t);
    assert t[1] == t[..2][1] == ' ';
    if |t| >= 3 {
      assert t[..3][1] == ' ';
    }
    assert ParseChangelogLine([t][0]).None?;
    assert [t][1..] == [];
    assert FirstHeading([t]) == FirstHeading([]);
  }

  /** Under a title and a blank line, a version heading line is the latest version. */
  lemma TitleThenHeading(t: string, h: string, v: string, y: string)
    requires IsTitleLine(t) && '\n' !in t
    requires '\n' !in h && ParseChangelogLine(h) == Some(v)
    ensures FindLatestVersion(t + "\n\n" + (h + "\n" + y)) == Success(v)
  {
    TitleIsNoHeading(t);
    FindLatestSkipsBlankLine(t, h + "\n" + y);
    FindLatestOfLine(h, y, v);
  }

  /** The original document, split after the heading line. */
  lemma SplitBeforeRest(t: string, h: string, rest: string)
    ensures t + "\n\n" + h + "\n\n## " + rest == t + "\n\n" + (h + "\n" + ("\n## " + rest))
  {
  }

  /** The updated document, split after the heading line. */
  lemma SplitBeforeStub(t: string, h: string, s: string, rest: string)
    ensures t + "\n\n" + h + "\n\n" + s + "## " + rest == t + "\n\n" + (h + "\n" + ("\n" + s + "## " + rest))
  {
  }

  /** A version heading line, for a version token and a TBD-or-date field. */
  lemma HeadingLineOf(v: string, d: string)
    requires IsVersion(v) && IsDateField(d)
    ensures '\n' !in "## " + v + " - " + d
    ensures ParseChangelogLine("## " + v + " - " + d) == Some(v)
  {
    VersionChars(v);
    DateFieldHasNoSpace(d);
    HeadingLine(v, d);
  }

  /**
   * A changelog without text between its title and its newest section
   * `## v - d`: the stub goes in under that section, so the latest version
   * reported after the update is still `v`, not the new version.
   */
  lemma NoIntroKeepsLatest(t: string, v: string, d: string, rest: string, version: string)
    requires IsTitleLine(t) && '\n' !in t
    requires IsVersion(v) && IsDateField(d)
    requires '\\' !in version && '$' !in version
    ensures var c := t + "\n\n" + ("## " + v + " - " + d) + "\n\n## " + rest;
      && UpdateChangelog(c, version) == t + "\n\n" + ("## " + v + " - " + d) + "\n\n" + Section(version) + "## " + rest
      && FindLatestVersion(c) == Success(v)
      && FindLatestVersion(UpdateChangelog(c, version)) == Success(v)
  {
    var h := "## " + v + " - " + d;
    HeadingLineOf(v, d);
    HeadingUnderTitle(t, h, rest, version);
    SplitBeforeRest(t, h, rest);
    SplitBeforeStub(t, h, Section(version), rest);
    TitleThenHeading(t, h, v, "\n## " + rest);
    TitleThenHeading(t, h, v, "\n" + Section(version) + "## " + rest);
  }
}
