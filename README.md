# keep-a-changelog: a Dafny model of the changelog bump engine

keep-a-changelog is a command-line tool for projects that keep a
`CHANGELOG.md` in the Keep-a-Changelog layout. It has these parts:

- a title line;
- then version sections headed `## <version> - <date>`, where the date is
  `TBD` for an unreleased version;
- each with `### Added`, `### Changed`, `### Deprecated`, `### Removed` and
  `### Fixed` sub-sections.

This project models the tool's core:

- **The bump engine** (`ChangelogBump`), in four operations:
  - it finds the newest version in a changelog. This is the first line that
    matches the version-heading pattern.
  - it computes the next patch, minor or major version from a version string.
  - it splices a fresh `TBD` stub section into the changelog. The splice
    point is the first `## ` line whose preceding blank line comes after a
    line that starts past the blank line under the title. Such a heading is
    at least the fifth line of the document: the title, the blank line, one
    more line (which may be blank), a blank line, then the heading. Any
    level-two heading qualifies, `## Unreleased` included, not only version
    headings. So one or two blank lines directly under the title never
    open a splice point. A changelog with no intro text between its title
    and its newest section gets the stub under that section, not above it
    (`NoIntroKeepsLatest`). The same holds when two blank lines separate
    the title from that section (`TwoBlankLinesUnderTitle`).
  - a helper reads the `major.minor.patch` triple at the start of a version
    string.
- **The formatter** (`ChangelogFormatter`): it rewrites every
  `### <sub-section>` line as the word underlined with dashes.
- **The recursive array merge** (`ArrayMerge`): the tool uses it to combine
  configuration arrays. PHP arrays are modelled as ordered sequences of
  key/value entries.
- **The discover-version event** (`DiscoverVersionEvent`): the object
  that records the version found while a command runs, the tag name to use
  for it, and whether discovery failed.

The module `Text` holds the string helpers: digits, numerals, line
splitting and decimal rendering. `Wrappers` holds `Option` and `Result`.

### Regular expressions

Each regular expression of the source is modelled by a scanner together
with a declarative description:

- **Version-heading pattern** (`/m` flag): it is matched line by line, with
  lines split on `\n`. The declarative side is `ParseChangelogLine`'s
  contract and `HeadingLine`.
- **Title/preamble pattern of `updateChangelog`** (`/si` flags, lazy `.*?`):
  it becomes `FindAnchor`. Its declarative side is `AnchorAt`: a title line
  containing "changelog" in any case, a blank line, and then the first
  `\n\n## ` whose first line break comes at or after the end of that blank
  line. That line break ends a line that starts past the blank line under
  the title.
- **preg_replace replacement strings**: their `$n` and `\n` group references
  and escapes are modelled by `Expand`.

### Failures

The source's exceptions and failure paths are values of
`ChangelogBump.BumpError`:

- `ChangelogEntriesNotFound` when no line is a version heading;
- `InvalidVersion` when a version has no leading triple. See "Left out".

## Model

| member | source | states |
|---|---|---|
| ChangelogBump.ParseChangelogLine | src/Bump/ChangelogBump.php:23 | a line that matches yields a well-formed version token `v`, and the line is exactly `## ` + v + ` - ` + a TBD-or-ISO-date field |
| ChangelogBump.HeadingLine | src/Bump/ChangelogBump.php:23 | `## v - d` matches exactly when v is a version token (triple plus optional alpha/beta/rc/dev/a/b suffix with digits) and d is `TBD` or `YYYY-MM-DD`; the captured version is v |
| ChangelogBump.UnreleasedNeverMatches | src/Bump/ChangelogBump.php:23 | an `## Unreleased` heading is never taken for a version heading |
| ChangelogBump.TrailingTextNeverMatches | src/Bump/ChangelogBump.php:23 | text after the date field stops the line from matching (the pattern is anchored at the line end) |
| ChangelogBump.VersionChars | src/Bump/ChangelogBump.php:23 | a version token holds only digits, dots and lower-case letters, so no space, newline, `$` or backslash |
| ChangelogBump.FindLatestVersion | src/Bump/ChangelogBump.php:65-74 | a success is a well-formed version token; the only failure is ChangelogEntriesNotFound |
| ChangelogBump.FindLatestVersionIsFirstHeading | src/Bump/ChangelogBump.php:65-74 | failure exactly when no line of the changelog is a version heading; a success is the version of a heading line with no heading line before it |
| ChangelogBump.FirstHeadingIsFirst | src/Bump/ChangelogBump.php:69-73 | the same for a list of lines: the first matching line wins |
| ChangelogBump.FindLatestVersionSkips | src/Bump/ChangelogBump.php:69-73 | a leading block without headings does not change the result |
| ChangelogBump.FindLatestOfHeadingLine | src/Bump/ChangelogBump.php:69-73 | a changelog whose first line is `## v - TBD` for a version token v yields v |
| ChangelogBump.ParseVersion | src/Bump/ChangelogBump.php:115-119 | the only failure is InvalidVersion (no leading numeric triple) |
| ChangelogBump.VersionHasTriple | src/Bump/ChangelogBump.php:115-119 | every version token that findLatestVersion can return parses |
| ChangelogBump.ParseNumerals | src/Bump/ChangelogBump.php:115-119 | `x.y.z` followed by anything but a digit parses to the values of the numerals x, y, z; the suffix is discarded. The source does the same only when the suffix has no line break before its last character; see "Left out" |
| ChangelogBump.ParseVersionString | src/Bump/ChangelogBump.php:115-119 | the round trip: the rendered `major.minor.patch`, followed by any non-digit suffix, parses back to the same triple |
| ChangelogBump.LeadingZeroIgnored | src/Bump/ChangelogBump.php:79 | the integer cast ignores leading zeros: a numeral with a leading `0` has the same value |
| ChangelogBump.ParseVersionSuffixExample | src/Bump/ChangelogBump.php:117 | example: `1.2.3rc1` parses to (1, 2, 3) |
| ChangelogBump.Rendered | src/Bump/ChangelogBump.php:81 | the three numbers rendered in decimal and joined by dots form a version token and parses back to that triple |
| ChangelogBump.BumpPatchVersion | src/Bump/ChangelogBump.php:76-82 | succeeds exactly when the version parses; otherwise fails with InvalidVersion |
| ChangelogBump.BumpPatchParses | src/Bump/ChangelogBump.php:76-82 | for a version parsing to (M, m, p) the result is the rendering of (M, m, p+1), a version token that parses back to (M, m, p+1) |
| ChangelogBump.BumpMinorVersion | src/Bump/ChangelogBump.php:84-90 | succeeds exactly when the version parses; otherwise fails with InvalidVersion |
| ChangelogBump.BumpMinorParses | src/Bump/ChangelogBump.php:84-90 | for (M, m, p) the result is the rendering of (M, m+1, 0), which parses back to that triple |
| ChangelogBump.BumpMajorVersion | src/Bump/ChangelogBump.php:92-98 | succeeds exactly when the version parses; otherwise fails with InvalidVersion |
| ChangelogBump.BumpMajorParses | src/Bump/ChangelogBump.php:92-98 | for (M, m, p) the result is the rendering of (M+1, 0, 0), which parses back to that triple |
| ChangelogBump.BumpPatchSuffixExample | src/Bump/ChangelogBump.php:76-82 | example: bumping the patch of `1.2.3rc1` gives `1.2.4` (the suffix is dropped) |
| ChangelogBump.FindAnchor | src/Bump/ChangelogBump.php:108 | finds the end of the first group exactly when the document starts with a title line mentioning "changelog" in any case, then a blank line, and a later `\n\n## `; the position found is the first such separator |
| ChangelogBump.AnchorUnique | src/Bump/ChangelogBump.php:108 | the lazy group can end at only one position |
| ChangelogBump.GroupReference | src/Bump/ChangelogBump.php:109 | a group reference in a replacement string starts with `$` or a backslash, is at least two characters long, and names a group below 100 |
| ChangelogBump.Expand | src/Bump/ChangelogBump.php:107-111 | models how preg_replace expands a replacement string against the groups of the match: references become group text and escaped `$` or backslash become literal. It has no contract of its own; ExpandLiteral and ExpandReplacement state what it yields |
| ChangelogBump.UpdateChangelog | src/Bump/ChangelogBump.php:103-113 | with no match the document is unchanged; with a match, the matched prefix is replaced by the expanded replacement and the rest is kept |
| ChangelogBump.ExpandLiteral | src/Bump/ChangelogBump.php:107-111 | replacement text free of `$` and backslash is copied through literally |
| ChangelogBump.StubSectionsLiteral | src/Bump/ChangelogBump.php:26-52 | the template's sub-section text holds no replacement metacharacter |
| ChangelogBump.Section | src/Bump/ChangelogBump.php:29-51 | models the template after its two leading line breaks: the `## <version> - TBD` heading and five sub-sections (Added, Changed, Deprecated, Removed, Fixed), each with a `- Nothing.` bullet. It has no contract of its own; FindLatestOfSection and UpdateChangelogInserts state what it does |
| ChangelogBump.Template | src/Bump/ChangelogBump.php:26-52 | models TEMPLATE filled in with the version: two line breaks, then Section. It has no contract of its own; ExpandReplacement and TemplatePlain state what it does |
| ChangelogBump.TemplatePlain | src/Bump/ChangelogBump.php:26-52 | the filled-in template holds no `$` or backslash when the version holds none, so preg_replace copies it literally |
| ChangelogBump.ExpandReplacement | src/Bump/ChangelogBump.php:105-109 | the replacement (a reference to group 1, the filled-in template, and a heading opener) expands to group 1's text, then the template, then `## ` |
| ChangelogBump.UpdateChangelogInserts | src/Bump/ChangelogBump.php:103-113 | for a version free of `$` and backslash, the update inserts the `## <version> - TBD` stub section at the anchor and keeps everything else. The anchor is the start of the first `## ` line whose preceding blank line comes after a line that starts past the blank line under the title. Any level-two heading counts |
| ChangelogBump.HeadingUnderTitle | src/Bump/ChangelogBump.php:103-113 | for a document of a title, a blank line, any single line h, a blank line and `## ...`, the stub goes after h. This holds even when h is itself a version heading |
| ChangelogBump.TwoBlankLinesUnderTitle | src/Bump/ChangelogBump.php:103-113 | for a document of a title, two blank lines, any single line h, a blank line and `## ...`, the stub goes after h. The blank line directly above h does not open a splice point, even when h is a level-two heading |
| ChangelogBump.NoIntroKeepsLatest | src/Bump/ChangelogBump.php:65-113 | when a version heading `## v - d` sits directly under the title's blank line, the update puts the stub below that section, and findLatestVersion still returns v both before and after the update |
| ChangelogBump.AnchorStable | src/Bump/ChangelogBump.php:108 | the match depends only on the document up to the separator |
| ChangelogBump.UpdateTwice | src/Bump/ChangelogBump.php:103-113 | two updates stack their stub sections, newest first, at the same place |
| ChangelogBump.UpdateThenFindLatest | src/Bump/ChangelogBump.php:65-113 | when the preamble holds no version heading, findLatestVersion after updateChangelog(v) returns v |
| ChangelogBump.FindLatestOfSection | src/Bump/ChangelogBump.php:26-52 | the template's own section is found as the latest version |
| ChangelogFormatter.HeadingOf | src/Common/ChangelogFormatter.php:21 | a recognised line starts with `### ` and one of the five sub-section words |
| ChangelogFormatter.HeadingOfComplete | src/Common/ChangelogFormatter.php:21 | every line starting with `### ` and one of the five words is recognised, with that word |
| ChangelogFormatter.Dashes | src/Common/ChangelogFormatter.php:26 | the underline for a word of n letters is exactly n dashes |
| ChangelogFormatter.FormatLine | src/Common/ChangelogFormatter.php:22-28 | models the callback applied to one line: a `### <word>` prefix becomes the word, a line break and its dashes. It has no contract of its own; FormatHeadingLine and HeadingReplacementLines state what it does |
| ChangelogFormatter.Format | src/Common/ChangelogFormatter.php:18-31 | models `format` as FormatLine applied to every line, with the line breaks kept. It has no contract of its own; FormatConcat, FormatIsFormatted, FormattedUnchanged and FormatIdempotent state what it does |
| ChangelogFormatter.HeadingReplacementLines | src/Common/ChangelogFormatter.php:22-28 | a heading line is rewritten as exactly two lines, the word and the dashes plus the rest of the line, and neither is a heading line |
| ChangelogFormatter.FormatHeadingLine | src/Common/ChangelogFormatter.php:18-31 | a heading line `### <word><rest>` becomes `<word>`, a line break, as many dashes as the word has letters, then `<rest>` |
| ChangelogFormatter.FormatConcat | src/Common/ChangelogFormatter.php:18-31 | format works line by line: formatting two blocks joined by a line break is formatting each |
| ChangelogFormatter.FormatIsFormatted | src/Common/ChangelogFormatter.php:18-31 | after format no line starts with `### ` and a sub-section word |
| ChangelogFormatter.FormattedUnchanged | src/Common/ChangelogFormatter.php:18-31 | a document without such lines is left unchanged |
| ChangelogFormatter.FormatIdempotent | src/Common/ChangelogFormatter.php:18-31 | formatting twice is formatting once |
| ChangelogFormatter.FormattedLines | src/Common/ChangelogFormatter.php:21 | "formatted" holds exactly when no line of the document is a `### <word>` heading line |
| ArrayMerge.Find | src/Common/ArrayMergeRecursiveTrait.php:29 | the key test succeeds exactly when the key is in the array, and gives the slot holding it |
| ArrayMerge.NextIntKey | src/Common/ArrayMergeRecursiveTrait.php:35 | the key an append uses is fresh and greater than every integer key |
| ArrayMerge.NextIntKeyIsMaxPlusOne | src/Common/ArrayMergeRecursiveTrait.php:35 | the append key is 0 for an array without integer keys; otherwise it is one more than an integer key the array holds, and so one more than the largest |
| ArrayMerge.MergeUpTo | src/Common/ArrayMergeRecursiveTrait.php:28-45 | models the array after the loop has handled the first n entries of b, applying the four rules of lines 29-44 in order. It has no contract of its own; the lemmas below state what it does |
| ArrayMerge.Merge | src/Common/ArrayMergeRecursiveTrait.php:26-48 | models the full merge, the loop run over all of b. ArrayMergeRecursive is proved equal to it; MergeKeepsA, MergeKeySet, MergeDistinct, LookupMerge, LookupMergeIntKey, MergeAddsNewKey, MergeAppendsIntKey and MergeList state its properties |
| ArrayMerge.ArrayMergeRecursive | src/Common/ArrayMergeRecursiveTrait.php:26-48 | the loop over b, recursing on nested arrays, computes Merge(a, b, preserveNumericKeys) |
| ArrayMerge.MergeKeepsA | src/Common/ArrayMergeRecursiveTrait.php:26-48 | the entries of a keep their keys and order at the front of the result, and an entry whose key b lacks is untouched |
| ArrayMerge.MergeKeySet | src/Common/ArrayMergeRecursiveTrait.php:29-37 | every key of a and of b is in the result; any other key is an integer key; with numeric keys preserved the keys are exactly those of a and b |
| ArrayMerge.MergeDistinct | src/Common/ArrayMergeRecursiveTrait.php:29-44 | the result has no duplicate key |
| ArrayMerge.LookupMerge | src/Common/ArrayMergeRecursiveTrait.php:29-44 | for a string key, or any key with numeric keys preserved: b's value wins, two nested arrays are merged recursively, and a key only in a keeps a's value |
| ArrayMerge.LookupMergeIntKey | src/Common/ArrayMergeRecursiveTrait.php:34-37 | without preserving numeric keys, an integer key of a keeps a's value; b's value for that key is never written over it |
| ArrayMerge.MergeAppendsIntKey | src/Common/ArrayMergeRecursiveTrait.php:29-37 | without preserving numeric keys, every integer-keyed entry of b, in a b of any keys, is appended just past what the merge built before it. It keeps its own key when that key is new; on a clash it gets the next integer key of the array built so far. It keeps that place and b's value to the end |
| ArrayMerge.MergeAddsNewKey | src/Common/ArrayMergeRecursiveTrait.php:28-32 | for keys of b that are distinct, as in any PHP array, and under either flag: an entry of b whose key the array built so far lacks is added at its end, just past what the merge built before it. It keeps that place and b's value to the end |
| ArrayMerge.MergeAddsInOrder | src/Common/ArrayMergeRecursiveTrait.php:28-32 | under either flag, entries of b added as new keys land in b's order: one added at an earlier step sits before anything the loop appends at a later step |
| ArrayMerge.MergeAppendsInOrder | src/Common/ArrayMergeRecursiveTrait.php:28-37 | those appended entries land in b's order: an earlier integer-keyed entry of b sits before any later one |
| ArrayMerge.MergeList | src/Common/ArrayMergeRecursiveTrait.php:34-37 | merging an integer-keyed list without preserving keys appends all of b's values after a, in order |
| ArrayMerge.MergeEmpty | src/Common/ArrayMergeRecursiveTrait.php:28-32 | merging with an empty b gives a; merging into an empty a gives b |
| ArrayMerge.NullIsPresent | src/Common/ArrayMergeRecursiveTrait.php:29-44 | for any array a holding null under key k, merging one entry for k takes the clash path, not the add path: without preserved numeric keys an integer k gets the new value appended under the next integer key; otherwise the new value replaces the null in place |
| DiscoverVersionEvent.Event.FoundVersion | src/Version/DiscoverVersionEventTrait.php:13-17 | records the version; the tag name is kept when truthy, otherwise it becomes the version; the failed flag is unchanged |
| DiscoverVersionEvent.Event.VersionNotAccepted | src/Version/DiscoverVersionEventTrait.php:19-24 | sets the failed flag and changes nothing else |
| DiscoverVersionEvent.TagAfterSnoc | src/Version/DiscoverVersionEventTrait.php:16 | reporting one more version is one more application of the keep-if-truthy rule |
| DiscoverVersionEvent.TagAfterIsFirstTruthy | src/Version/DiscoverVersionEventTrait.php:16 | after any sequence of reported versions the tag name is the first truthy value it held: the initial tag, else the first truthy version, else the last one reported |
| Text.NatToStringRoundTrip | src/Bump/ChangelogBump.php:81 | the decimal rendering of a natural number reads back as that number |

## Left out

- File I/O. findLatestVersion and updateChangelog read and write the changelog file. The model takes and returns the file's contents.
- The output writes of versionNotAccepted are left out. It writes two lines to the console, and the model keeps only the `failed` flag.
- The surrounding code is not part of this model: the console commands, the event classes that use the trait, the changelog parser, git and the providers.
- PHP exceptions and warnings are values of `BumpError`.
- ChangelogBump.ParseVersion does not model PHP's type juggling for a version that lacks a leading `d.d.d` triple. PHP then warns about missing list elements and carries on with the integer cast of null or of a non-numeric string. The model returns InvalidVersion instead.
- ChangelogBump.ParseVersion also differs from the source for a version whose text after the triple has a line break before its last character. The pattern's `.*` cannot cross that line break, so PHP leaves the string as it is and splits it at its first two dots. The third part then holds the patch numeral and the whole suffix. PHP's integer cast reads the longest numeric prefix of that part, and this prefix can carry a fraction or an exponent. So `1.2.3e5\nx` bumps to `1.2.300001`, and `1.2.3.5e2\nx` bumps to `1.2.351`. The model drops the suffix in every case, and so bumps both to `1.2.4`. PHP's decimal-to-float conversion is not part of the model. Only the patch bump is affected, because the major and minor parts are plain digits in that case.
- ChangelogBump.ParseVersion models numerals as unbounded naturals. Numerals beyond the 64-bit integer range are outside the model. PHP's integer conversion saturates there. A component that is incremented past PHP_INT_MAX becomes a float, and `%d` of that float does not print the next integer. In that range the source's output does not match the unbounded arithmetic.
- ChangelogBump.UpdateChangelogInserts requires a version free of `$` and backslash. The same holds for ExpandReplacement, UpdateTwice and HeadingUnderTitle. Those characters are replacement metacharacters for preg_replace; UpdateChangelog itself handles them through Expand. Version tokens never contain them (VersionChars).
- ChangelogBump.FindAnchor treats only `\n` as a line break, as PCRE does by default. Case-insensitive matching folds ASCII letters only.
- ArrayMerge does not model PHP's normalisation of numeric-string keys such as `"1"` to integer keys. Keys are given already normalised.
- ArrayMerge.NextIntKey is one more than the largest integer key present, or 0. PHP keeps a separate next-free counter that can be larger after deletions. Arrays built without deletions agree. Negative keys follow PHP 8.3 and later.
- ArrayMerge.LookupMerge requires distinct keys only at the top level of b. Nested arrays are merged by the same function, and their key uniqueness is not tracked.
- Non-array values are reduced to their text (`Scalar`) or `Null`. The merge only asks whether a value is an array.
- DiscoverVersionEvent.Event.constructor stands in for the classes that use the trait and set `version` and `tagName` from the command input. The trait has no constructor, and those classes are not part of this model. The event keeps the version and the tag name as optional strings.
