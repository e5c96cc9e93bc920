# changelog-validator, modelled in Dafny

`validateChangelog` (index.js) checks a `CHANGELOG.md` in two steps. First,
four basic rules: the text is non-empty, contains `# Change Log`, contains a
semantic-version heading `## [x.y.z]`, and contains `## [Unreleased]`. Second,
one rule on the Unreleased section: a single regular expression must find
`### Added`, `### Changed` and `### Fixed` under the Unreleased heading, and
at least one of the three must say something once trimmed. If asked, it also
checks that git reports a non-empty diff of the file against `origin/main`.
Every failure is collected into one array. The run passes exactly when that
array is empty; otherwise the process exits with status 1. An error thrown
while reading the file or asking `checkIsRepo` ends the run with a single
error line.

The model has five modules:

- `Text` covers the character-level scans: `includes`, the greedy `\d+`, and
  `trim`. `trim` is the two index scans `SkipBlank` and `BackBlank`, and
  `Trim` states the layout they leave.
- `UnreleasedPattern` covers the regular expression of index.js:8.
  - `MatchesAt` states, declaratively, which parts at which start make a match.
  - `TriedFirst` states the order in which backtracking tries the matches at
    one start: greedy stars, so longer parts come first, earlier stars first.
  - `IsReportedMatch` states which match `String.prototype.match` returns:
    the leftmost one, and at that start the first one tried.
  - `FindUnreleased` is an explicit matcher built from staged scans. It is
    proved to return exactly that match, or nothing when the pattern matches
    nowhere.
- `SemverPattern` covers the pattern of index.js:61. The same treatment is
  simpler here: a greedy `\d+` followed by `.` or `]` never has to backtrack.
- `Validator` holds the rule table, `validateUnreleasedSection`, the update
  check and the pass/fail decision.
  - `RunOutcome` is the specification function of a run.
  - The method `ValidateChangelog` builds the failure list by appending, as
    the source pushes onto its array, and is proved to produce
    `RunOutcome`'s result.
  - Reading the file and asking git are inputs to the model. `Source` is what
    `fs.stat`/`fs.readFile` gave. `GitOutcome` is what
    `checkIsRepo`/`diff` gave.
- `Examples` covers the changelogs of test/index.test.js, each with its
  verdict proved. Each fixture is spelled out from its pieces.

Some behaviours of the code that a reader might not expect:

- The title rule is a substring test (`includes('# Change Log')`), not a test
  for a heading line, so `## Change Logs` anywhere also satisfies it.
- The Fixed group `([^#]*)` runs to the first `#` or to the end of the text,
  not to the next level-2 heading. A `#` inside the Fixed section (an issue
  number, say) cuts the group short.
- The Unreleased heading line may carry any text after `## [Unreleased]` (the
  `[^\n]*`), and exactly one blank line must separate it from `### Added`.
  `### Added` directly followed by `### Changed` never matches
  (`AbuttingHeadingsNeverMatch`).
- Any `#` in the Added or Changed text breaks the match at that heading,
  unless it is the `#` of the next `### Changed` or `### Fixed` heading. This
  holds for the issue number in `- fix #12` and for a line such as
  `#### Notes` alike (`NotesLineBreaksMatch`). A changelog with one
  Unreleased heading then fails the format rule (`HashInAddedFailsFormat`,
  `HashInChangedFailsFormat`).
- The freeform fixture of test/index.test.js:70-74 also has no version
  heading. The model gives it two failures, the version message and then the
  format message, not the format message alone.

## Model

| member | source | states |
|---|---|---|
| Text.Includes | index.js:57 | `s.includes(p)` holds exactly when `p` occurs in `s` at some index |
| Text.IncludesFrom | index.js:57 | the scan from `k` finds `p` exactly when `p` occurs at some index at or after `k` |
| Text.IncludesInfix | index.js:65 | `p` is found inside `x + p + y` whatever `x` and `y` are |
| Text.SkipDigits | index.js:61 | the greedy `\d+` scan stops at the first non-digit at or after `k`, and everything it passes is a digit |
| Text.SkipDigitsIs | index.js:61 | a position after a run of digits and before a non-digit is where the scan stops |
| Text.IndexOfFrom | index.js:8 | the first index at or after `k` that holds `c`, or the end of the text |
| Text.IndexOfFromIs | index.js:8 | the scan stops exactly at any position before which `c` does not occur and at which `c` occurs |
| Text.SkipBlank | index.js:19-21 | the first non-white-space index at or after `k`, with only white space before it |
| Text.BackBlank | index.js:19-21 | the end of the last non-white-space character of `s[lo..e]`, with only white space after it |
| Text.Trim | index.js:19-21 | `trim` leaves a middle of `s` with only white space on either side, starting and ending with non-white space, and empty exactly when `s` is blank |
| Text.TrimLayout | index.js:19-21 | the two scans put the middle at the first non-blank index, with white space before and after it; it is empty exactly when `s` is blank |
| Text.HasAtConcat | index.js:8 | an occurrence of `p + q` is an occurrence of `p` followed by one of `q`, and back |
| UnreleasedPattern.MatchesAt | index.js:8 | definition: the pattern matches at `i` with parts `c` when heading, `[^\n]*` part, `\n\n### Added\n`, group, `\n### Changed\n`, group, `\n### Fixed\n`, group lie end to end at `i`, the first part has no line feed and the groups no `#` |
| UnreleasedPattern.TriedFirst | index.js:8 | definition: backtracking over greedy stars tries a match at one start before another when its first differing star, from the left, is longer |
| UnreleasedPattern.IsReportedMatch | index.js:8 | definition: `match` reports the match with no match at an earlier start and tried first among those at its own start |
| UnreleasedPattern.AvoidsIsNotIn | index.js:8 | a character class `[^ch]*` over where `x` sits accepts exactly when `ch` is not in `x` |
| UnreleasedPattern.HeadingLineEnd | index.js:8 | after `## [Unreleased]`, `[^\n]*` ends at the first line feed, which must begin `\n\n### Added\n` |
| UnreleasedPattern.HeadingLineEndIs | index.js:8 | the first line feed after the heading is the only place the heading line can end |
| UnreleasedPattern.GroupEnd | index.js:8 | a group `([^#]*)` followed by `\n### Changed\n` or `\n### Fixed\n` ends just before the line feed preceding its first `#` |
| UnreleasedPattern.GroupEndIs | index.js:8 | a group end that avoids `#` and is followed by the next heading is the only possible one |
| UnreleasedPattern.LastGroupEnd | index.js:8 | the greedy last group `([^#]*)` reaches the first `#` or the end of the text |
| UnreleasedPattern.LastGroupEndLongest | index.js:8 | no stretch without `#` from the same start reaches further |
| UnreleasedPattern.MatchEnds | index.js:8 | definition: the matcher at one start runs the heading-line, Added, Changed and Fixed stages in pattern order and fails when any of the first three fails |
| UnreleasedPattern.MatchEndsFacts | index.js:8 | when the matcher succeeds at `i`, each literal piece is in place and each starred part avoids the character its class excludes |
| UnreleasedPattern.EndsOfStages | index.js:8 | the stages, once they agree on the heading line and the first two groups, give the match ends the matcher returns |
| UnreleasedPattern.MatchAt | index.js:8 | whatever the matcher finds at a start index is a match of the pattern there |
| UnreleasedPattern.StagesMatch | index.js:8 | the ends the stages find spell out a match of the pattern, with every starred part avoiding its excluded character |
| UnreleasedPattern.SpannedLayout | index.js:8 | a match's text is its eight pieces, heading, rest, `### Added`, group, `### Changed`, group, `### Fixed`, group, laid end to end |
| UnreleasedPattern.MatchPieces | index.js:8 | a match puts each literal piece in place, and its groups avoid `\n` or `#` as their classes require |
| UnreleasedPattern.StagesOfMatch | index.js:8 | for any match at `i`, the matcher's stages stop where its first three parts end, and its last stage reaches at least as far |
| UnreleasedPattern.MatchAtComplete | index.js:8 | any match at `i` is found by the matcher, which agrees on the first three parts and whose Fixed group extends the match's own Fixed group |
| UnreleasedPattern.MatchPartsDetermined | index.js:8 | two matches at the same start share the heading rest, Added and Changed groups; their Fixed groups differ only in how far they reach |
| UnreleasedPattern.NoMatchAt | index.js:8 | when the matcher finds nothing at `k`, the pattern matches nowhere at `k` |
| UnreleasedPattern.FirstTriedAt | index.js:8 | the matcher's result at `k` is the match there that backtracking tries first |
| UnreleasedPattern.MatchStartBound | index.js:8 | a match starts early enough for the heading to fit |
| UnreleasedPattern.FirstMatchFrom | index.js:8 | the search from `k` reports, if anything, a match starting between `k` and the end |
| UnreleasedPattern.FirstMatchFromCorrect | index.js:8 | the search from `k` reports the leftmost match at or after `k`, first in backtracking order, and nothing only when no match starts at or after `k` |
| UnreleasedPattern.NoMatchPastEnd | index.js:8 | no match starts at or past the end of the text |
| UnreleasedPattern.FindUnreleased | index.js:8 | `content.match(...)` returns the reported match, leftmost and first tried, and returns null exactly when the pattern matches nowhere |
| UnreleasedPattern.ReportedMatchUnique | index.js:8 | at most one match can be the reported one |
| UnreleasedPattern.FindUnreleasedIsReported | index.js:8 | a match is the reported one exactly when `FindUnreleased` returns it |
| UnreleasedPattern.FullMatchIsReported | index.js:8 | a match with none before it, whose Fixed group ends at a `#` or at the end, is the one reported |
| UnreleasedPattern.AbuttingHeadingsNeverMatch | index.js:8 | an Unreleased heading followed by `### Added` and, on the next line, `### Changed`, with no blank line between, is not matched at that heading |
| UnreleasedPattern.HashInAddedBreaksMatch | index.js:8 | any `#` in the Added text other than the one `\n### Changed\n` begins with leaves no match at that heading |
| UnreleasedPattern.HashInChangedBreaksMatch | index.js:8 | the same for a `#` in the Changed text, other than the one `\n### Fixed\n` begins with, after an Added text without `#` |
| UnreleasedPattern.GroupBroken | index.js:8 | a group that meets a `#` cannot be followed by `\n### Changed\n` or `\n### Fixed\n` unless that `#` is the one the heading begins with |
| UnreleasedPattern.MatchStartsWithHeading | index.js:8 | every match starts with `## [Unreleased]` |
| SemverPattern.VersionHeadingAt | index.js:61 | definition: the pattern matches at `i` with digit runs `v` when `## [x.y.z]` lies at `i` and `x`, `y`, `z` are nonempty runs of digits |
| SemverPattern.VersionHeadingMatchAt | index.js:61 | definition: the staged matcher at `i`: `## [`, then three greedy digit runs ended by `.`, `.` and `]` |
| SemverPattern.VersionHeadingLayout | index.js:61 | `## [x.y.z]` at `i` is `## [`, the three digit runs and their separators, each in place |
| SemverPattern.DigitsThenPiece | index.js:61 | what the greedy `\d+` stage accepts is a nonempty digit run in place, followed by the expected separator |
| SemverPattern.DigitsThenOf | index.js:61 | a digit run in place followed by a non-digit separator passes the stage, which stops right after the run |
| SemverPattern.VersionHeadingMatchAtCorrect | index.js:61 | the matcher accepts at `i` exactly when some version `x.y.z` of digit runs has its heading at `i` |
| SemverPattern.MatchedVersion | index.js:61 | what the matcher accepts at `i` is a version heading, with the digit runs it scanned |
| SemverPattern.HeadingIsMatched | index.js:61 | every version heading at `i` is accepted by the matcher |
| SemverPattern.HasVersionHeadingFrom | index.js:61 | the search from `k` succeeds exactly when a version heading starts at or after `k` |
| SemverPattern.HasVersionHeading | index.js:61 | `/## \[\d+\.\d+\.\d+\]/.test(content)` holds exactly when a version heading occurs somewhere |
| SemverPattern.VersionHeadingAnywhere | index.js:61 | one version heading anywhere, even inside a line, satisfies the rule |
| Validator.BasicRules | index.js:51-68 | four rules in table order with their messages: non-empty, `# Change Log` at some index, a version heading at some index, `## [Unreleased]` at some index |
| Validator.FailedMessages | index.js:70-72 | the filtered messages are exactly those of the rules whose test fails, and there are no more of them than rules |
| Validator.BasicFailuresInTableOrder | index.js:51-72 | the basic failures are the messages of the failing rules, in table order: empty, header, version, Unreleased |
| Validator.Sections | index.js:17-22 | the sections Added, Changed and Fixed in that order, each empty after trimming exactly when its capture is blank |
| Validator.EmptySectionNames | index.js:24-26 | the list of empty sections is as long as the list of sections exactly when every trimmed section is empty |
| Validator.EmptyCountOfThree | index.js:24-28 | `emptySections.length === 3` holds exactly when all three trimmed sections are empty |
| Validator.AllEmptyIffBlank | index.js:17-28 | all three trimmed sections are empty exactly when all three captures are blank |
| Validator.VerdictOn | index.js:10-35 | no match gives the format message; a match with all three sections blank gives the no-changes message; any other match passes |
| Validator.ValidateUnreleasedSection | index.js:7-36 | the format message exactly when the pattern matches nowhere; the no-changes message exactly when the reported match has all three sections blank; a pass exactly when it has changes in at least one; nothing else |
| Validator.UnreleasedFailures | index.js:75-78 | the Unreleased rule adds nothing when the section passes and otherwise one message, the format or no-changes one; the format message exactly when the pattern matches nowhere |
| Validator.ErrorMessage | index.js:136-138 | the not-found line exactly when the error's code is `ENOENT`, the error prefix and the error's message otherwise |
| Validator.UpdateFailures | index.js:81-105 | at most the not-updated message, and that exactly when the check runs and the diff is empty |
| Validator.UpdateWarnings | index.js:81-105 | at most one warning, exactly when the check runs and is skipped: the not-a-repository warning, or the diff warning with the error's message |
| Validator.RunOutcome | index.js:38-151 | a run aborts exactly when the file cannot be had or `checkIsRepo` throws during the check, with the caught error's message; otherwise it completes with the text's failures, then the update check's, and at most one warning |
| Validator.Passed | index.js:107-134 | definition: a run passes when it completes with an empty failure list; warnings play no part |
| Validator.CollectContentFailures | index.js:51-78 | appending the failed basic rules and then the Unreleased rule's message gives the failures of the text |
| Validator.CheckUpdated | index.js:81-105 | the update check ends the run with the caught error when `checkIsRepo` throws; otherwise it appends its failure to the collected ones and gives its warnings |
| Validator.ValidateChangelog | index.js:38-151 | appending the basic failures, the Unreleased verdict and the update check's failure gives `RunOutcome`'s result; it passes exactly when that outcome completes with no failures |
| Validator.BasicFailuresRanked | index.js:51-72 | the basic failures come in strictly increasing table order |
| Validator.UnreleasedFailuresRanked | index.js:75-78 | the Unreleased rule adds at most one message, either the format or the no-changes message |
| Validator.FailuresInReportingOrder | index.js:70-105 | a completed run reports failures in the fixed order, basic rules, Unreleased rule, update check, and never one message twice |
| Validator.UpdateFailuresRanked | index.js:93-96 | the update check adds at most one message, ranked after every other |
| Validator.RankedConcat | index.js:75-95 | appending messages of later ranks keeps the failure list in order |
| Validator.EmptyChangelogFailures | index.js:51-78 | empty text fails all four basic rules in table order and then the format rule |
| Validator.BasicFailureIffRuleFails | index.js:51-72 | for any text, each basic message is reported exactly when its rule fails: the empty message for empty text, the header and Unreleased messages exactly when their text occurs at no index, the version message exactly when no version heading occurs |
| Validator.VersionRuleAnywhere | index.js:60-63 | the version rule passes whenever one version heading occurs anywhere |
| Validator.AcquisitionFailureAborts | index.js:39-48 | a file that cannot be read ends the run with an error and never passes; the error is the not-found line exactly when the code is `ENOENT` (index.js:136-138) |
| Validator.NotAFileAborts | index.js:43-44 | a path that is not a regular file ends the run with the error prefix and `CHANGELOG.md is not a file`, never the not-found line, and never passes (index.js:136-138) |
| Validator.UncheckedIgnoresGit | index.js:81 | without the update check, git's answers play no part and there are no warnings |
| Validator.SkippedCheckOnlyWarns | index.js:85-103 | outside a repository the check adds only the not-a-repository warning, and when the diff fails only the diff warning with the error's message; it adds no failure, so the verdict is the one without the check |
| Validator.EmptyDiffFails | index.js:93-96 | an empty diff adds exactly the not-updated failure, after all the others, and the run fails |
| Validator.ChangedDiffAddsNothing | index.js:93-96 | a non-empty diff leaves the run as it is without the check |
| Validator.RepoCheckFailureAborts | index.js:83 | when `checkIsRepo` throws, the run ends with that error (index.js:135-138) |
| Validator.PassedIffEveryRuleHolds | index.js:107-134 | a run that gets past the git check passes exactly when all four basic rules hold, the reported match has a non-blank section, and the update check did not find an empty diff |
| Validator.HashInAddedFailsFormat | index.js:7-15 | when the text has a single Unreleased heading and a `#` in its Added text other than the one `\n### Changed\n` begins with, the section fails with the format message |
| Validator.HashInChangedFailsFormat | index.js:7-15 | the same for a `#` in the Changed text other than the one `\n### Fixed\n` begins with |
| Validator.OnlyHeadingMatches | index.js:7-15 | when the only Unreleased heading admits no match, the format message is given |
| Examples.ReportedAfter | index.js:8 | a match right after text without `U`, ending at a `#` or the end, is the reported one |
| Examples.LaidOutBasics | index.js:51-72 | a text built as title, prose, Unreleased section, `## [1.0.0]` and release passes the four basic rules |
| Examples.LaidOutVerdict | index.js:7-36 | such a text gets the no-changes message when all three sections are blank, and passes otherwise |
| Examples.LaidOutPasses | index.js:107-134 | such a text with a non-blank section has no failures and passes |
| Examples.LaidOutNoChanges | index.js:28-33 | such a text with all three sections blank fails with the no-changes message alone |
| Examples.ValidChangelogPasses | test/index.test.js:17-38 | the starting changelog has no failures and passes without the update check (test/index.test.js:54-57) |
| Examples.FreeformFails | test/index.test.js:69-78 | the freeform changelog fails with the version message and the format message, in that order |
| Examples.EmptyUnreleasedFails | test/index.test.js:80-97 | the changelog with three empty sections fails with the no-changes message alone |
| Examples.OneSectionPasses | index.js:7-36 | one section with changes and two blank ones is enough to pass |
| Examples.NoMatchWithoutA | index.js:8 | text without an `A` holds no match |
| Examples.NotesLineBreaksMatch | index.js:8 | a `#### Notes` line in the Added text leaves no match at the heading |
| Examples.NoVersionWithoutDot | index.js:61 | text without a `.` holds no version heading |

## Left out

- Reading the file (`fs.stat`, `fs.readFile`). Their outcome is the `Source` input: an error that was thrown (with whether its code is `ENOENT`), not a file, or the text.
- The git queries (`simpleGit`, `checkIsRepo`, `diff(['origin/main', '--', changelogPath])`). Their outcome is the `GitOutcome` input. The base ref and the file path are therefore not modelled.
- `changelogPath` and its default `CHANGELOG.md`. The path only names what to read and what to diff.
- Console output (`console.log`, `console.warn`, `console.error`, `chalk` colours). The model returns the failures, and the warnings as a sequence, instead of printing them.
- The `@actions/core` summary and the `GITHUB_ACTIONS` check (index.js:88-90, 100-102, 113-119, 126-132). The model assumes every summary write succeeds. Each `write()` is awaited inside the `try` of index.js:39-134, so a write that rejects would be caught at index.js:135-149. The run would then end with `❌ Error: …` and exit status 1, even on the passing path after the passed line has been printed. That outcome is not modelled.
- `process.exit(1)`. A failed run is an outcome that does not pass, or an `Aborted` outcome for a caught error.
- cli.js is not part of this model.
- Text.IsWhitespace: `trim` in JavaScript also removes the Unicode space separators, U+00A0, U+FEFF and the line/paragraph separators. The model removes only space, tab, line feed, carriage return, vertical tab and form feed.
- Text.IsDigit: `\d` is `[0-9]`, as in JavaScript without the `u` flag.
- Strings are sequences of characters. JavaScript's UTF-16 code units, and so `content.length` for text outside the Basic Multilingual Plane, are not modelled. Only `length > 0` is used, and it is unaffected.
