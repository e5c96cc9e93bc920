/** `validateChangelog` and `validateUnreleasedSection` (index.js): the four
    basic rules, the Unreleased section rule, the optional update check and
    the pass/fail decision. Reading the file and asking git are outside the
    model: their outcomes arrive as the `Source` and `GitOutcome` inputs. */
module Validator {
  import opened Text
  import opened Options
  import opened UnreleasedPattern
  import opened SemverPattern

  const EmptyMessage := "Changelog cannot be empty"
  const HeaderMessage := "Changelog must have a \"Change Log\" header"
  const VersionMessage := "Changelog must contain at least one semantic version header"
  const UnreleasedMessage := "Changelog must contain an Unreleased section"
  const FormatMessage := "Unreleased section must follow the format: Added, Changed, Fixed"
  const NoChangesMessage := "At least one of the sections (Added, Changed, Fixed) must contain changes"
  const NotUpdatedMessage := "Changelog must be updated in this PR"

  const NotARepoWarning := "\U{26A0}\U{FE0F} Not a git repository, skipping update check"
  const DiffWarningPrefix := "\U{26A0}\U{FE0F} Could not check changelog updates: "

  const NotFoundError := "\U{274C} CHANGELOG.md file not found"
  const ErrorPrefix := "\U{274C} Error: "
  const NotAFileMessage := "CHANGELOG.md is not a file"

  /** An error thrown by a collaborator: whether its code is `ENOENT`, and its message. */
  datatype Thrown = Thrown(notFound: bool, message: string)

  /** The outcome of checking for and reading the changelog file. */
  datatype Source =
    | Unreadable(error: Thrown)   // `fs.stat` or `fs.readFile` threw
    | NotAFile                    // the path exists but is not a regular file
    | Contents(text: string)      // the file's text

  /** The outcome of the two git queries of the update check. */
  datatype GitOutcome =
    | NotARepo                    // `checkIsRepo` resolved to false
    | RepoCheckFailed(error: Thrown)  // `checkIsRepo` threw
    | DiffFailed(error: Thrown)   // `diff` threw
    | Diffed(diff: string)        // `diff` resolved to this text

  /** What one run ends with: an error that stopped it, or the failures and
      warnings it collected. */
  datatype Outcome =
    | Aborted(error: string)
    | Completed(failures: seq<string>, warnings: seq<string>)

  /** A basic rule: whether the text passes it, and the message it fails with. */
  datatype Rule = Rule(test: bool, message: string)

  /** The basic rules, in table order (index.js:51-68): the text is
      non-empty, holds `# Change Log` somewhere, holds a version heading
      somewhere, and holds `## [Unreleased]` somewhere. */
  function BasicRules(content: string): (r: seq<Rule>)
    ensures |r| == 4
    ensures r[0].message == EmptyMessage && (r[0].test <==> content != [])
    ensures r[1].message == HeaderMessage && (r[1].test <==> exists i: nat :: HasAt(content, i, "# Change Log"))
    ensures r[2].message == VersionMessage && (r[2].test <==> exists i: nat, v :: VersionHeadingAt(content, i, v))
    ensures r[3].message == UnreleasedMessage &&
      (r[3].test <==> exists i: nat :: HasAt(content, i, "## [Unreleased]"))
  {
    [ Rule(|content| > 0, EmptyMessage),
      Rule(Includes(content, "# Change Log"), HeaderMessage),
      Rule(HasVersionHeading(content), VersionMessage),
      Rule(Includes(content, "## [Unreleased]"), UnreleasedMessage) ]
  }

  /** `rules.filter(rule => !rule.test).map(rule => rule.message)`. */
  function FailedMessages(rules: seq<Rule>): (r: seq<string>)
    ensures |r| <= |rules|
    ensures forall m :: m in r <==> exists k :: 0 <= k < |rules| && !rules[k].test && rules[k].message == m
  {
    if rules == [] then []
    else
      var r := (if rules[0].test then [] else [rules[0].message]) + FailedMessages(rules[1..]);
      assert forall k :: 0 < k < |rules| ==> rules[k] == rules[1..][k - 1];
      r
  }

  /** `[m]` when `failed`, nothing otherwise. */
  function When(failed: bool, m: string): seq<string>
  {
    if failed then [m] else []
  }

  /** The failures of the basic rules. */
  function BasicFailures(content: string): seq<string>
  {
    FailedMessages(BasicRules(content))
  }

  /** The basic rules report their messages in table order, one for each
      rule that fails. */
  lemma BasicFailuresInTableOrder(content: string)
    ensures BasicFailures(content) ==
      When(|content| == 0, EmptyMessage) +
      When(!Includes(content, "# Change Log"), HeaderMessage) +
      When(!HasVersionHeading(content), VersionMessage) +
      When(!Includes(content, "## [Unreleased]"), UnreleasedMessage)
  {
    var rules := BasicRules(content);
    assert FailedMessages(rules[3..]) == When(!rules[3].test, rules[3].message) + FailedMessages([]);
    assert FailedMessages(rules[2..]) == When(!rules[2].test, rules[2].message) + FailedMessages(rules[3..]);
    assert FailedMessages(rules[1..]) == When(!rules[1].test, rules[1].message) + FailedMessages(rules[2..]);
    assert FailedMessages(rules) == When(!rules[0].test, rules[0].message) + FailedMessages(rules[1..]);
  }

  /** The answer `validateUnreleasedSection` gives. */
  datatype Verdict = Pass | Fail(message: string)

  /** The three sections of a match, each trimmed, with their names: a
      section is empty exactly when its capture is blank. */
  function Sections(c: Captures): (r: seq<(string, string)>)
    ensures |r| == 3 && r[0].0 == "Added" && r[1].0 == "Changed" && r[2].0 == "Fixed"
    ensures (r[0].1 == "" <==> IsBlank(c.added)) && (r[1].1 == "" <==> IsBlank(c.changed))
    ensures r[2].1 == "" <==> IsBlank(c.fixed)
  {
    [("Added", Trim(c.added)), ("Changed", Trim(c.changed)), ("Fixed", Trim(c.fixed))]
  }

  /** The names of the sections whose trimmed text is empty
      (`filter(([_, content]) => !content).map(([name]) => name)`). */
  function EmptySectionNames(sections: seq<(string, string)>): (r: seq<string>)
    ensures |r| <= |sections|
    ensures |r| == |sections| <==> forall k :: 0 <= k < |sections| ==> sections[k].1 == ""
  {
    if sections == [] then []
    else
      var r := (if sections[0].1 == "" then [sections[0].0] else []) + EmptySectionNames(sections[1..]);
      assert forall k :: 0 < k < |sections| ==> sections[k] == sections[1..][k - 1];
      r
  }

  /** All three captured sections hold nothing but white space. */
  ghost predicate AllSectionsBlank(c: Captures)
  {
    IsBlank(c.added) && IsBlank(c.changed) && IsBlank(c.fixed)
  }

  /** All three sections are empty after trimming exactly when all three
      captures are blank. */
  lemma AllEmptyIffBlank(c: Captures)
    ensures |EmptySectionNames(Sections(c))| == 3 <==> AllSectionsBlank(c)
  {
    EmptyCountOfThree(Trim(c.added), Trim(c.changed), Trim(c.fixed));
  }

  /** Three named sections are all reported empty exactly when all three are empty. */
  lemma EmptyCountOfThree(a: string, b: string, f: string)
    ensures |EmptySectionNames([("Added", a), ("Changed", b), ("Fixed", f)])| == 3 <==> a == "" && b == "" && f == ""
  {
    var sections := [("Added", a), ("Changed", b), ("Fixed", f)];
    assert sections[0].1 == a && sections[1].1 == b && sections[2].1 == f;
  }

  /** The verdict on what the pattern found: the format message when it
      found nothing, the no-changes message when all three trimmed sections
      are empty (`emptySections.length === 3`), a pass otherwise. */
  function VerdictOn(found: Option<Match>): (r: Verdict)
    ensures r == Fail(FormatMessage) <==> found.None?
    ensures r == Fail(NoChangesMessage) <==> found.Some? && AllSectionsBlank(found.value.groups)
    ensures r == Pass <==> found.Some? && !AllSectionsBlank(found.value.groups)
  {
    match found
    case None => Fail(FormatMessage)
    case Some(m) =>
      var emptySections := EmptySectionNames(Sections(m.groups));
      AllEmptyIffBlank(m.groups);
      if |emptySections| == 3 then Fail(NoChangesMessage) else Pass
  }

  /** `validateUnreleasedSection(content)` (index.js:7-36): the format
      message exactly when the pattern matches nowhere; the no-changes message
      exactly when it matches and all three sections are blank; otherwise a
      pass, even when some of the sections are blank. */
  function ValidateUnreleasedSection(content: string): (r: Verdict)
    ensures r == Fail(FormatMessage) <==> forall i: nat, c :: !MatchesAt(content, i, c)
    ensures r == Fail(NoChangesMessage) <==>
      exists m :: IsReportedMatch(content, m) && AllSectionsBlank(m.groups)
    ensures r == Pass <==> exists m :: IsReportedMatch(content, m) && !AllSectionsBlank(m.groups)
    ensures r == Pass || r == Fail(FormatMessage) || r == Fail(NoChangesMessage)
  {
    FindUnreleasedIsReported(content);
    VerdictOn(FindUnreleased(content))
  }

  /** The message of the error `validateChangelog` catches (index.js:136-138):
      the not-found line exactly for `ENOENT`, and otherwise the error's own
      message after the error prefix. */
  function ErrorMessage(e: Thrown): (r: string)
    ensures r == NotFoundError <==> e.notFound
    ensures !e.notFound ==> r == ErrorPrefix + e.message
  {
    if e.notFound then NotFoundError
    else
      var r := ErrorPrefix + e.message;
      assert r[2] == ErrorPrefix[2] != NotFoundError[2];
      r
  }

  /** What the Unreleased section rule contributes to the failures
      (index.js:75-78): nothing when the section passes, and otherwise its one
      message, the format or the no-changes message. */
  function UnreleasedFailures(content: string): (r: seq<string>)
    ensures |r| <= 1 && (r == [] <==> ValidateUnreleasedSection(content) == Pass)
    ensures r != [] ==> r[0] == FormatMessage || r[0] == NoChangesMessage
    ensures r == [FormatMessage] <==> forall i: nat, c :: !MatchesAt(content, i, c)
  {
    match ValidateUnreleasedSection(content)
    case Pass => []
    case Fail(m) => [m]
  }

  /** The failures found in the text itself. */
  function ContentFailures(content: string): seq<string>
  {
    BasicFailures(content) + UnreleasedFailures(content)
  }

  /** What the update check contributes to the failures: the not-updated
      message, exactly when the check ran and the diff came back empty. */
  function UpdateFailures(checkUpdated: bool, git: GitOutcome): (r: seq<string>)
    ensures r == [] || r == [NotUpdatedMessage]
    ensures r != [] <==> checkUpdated && git == Diffed("")
  {
    When(checkUpdated && git == Diffed(""), NotUpdatedMessage)
  }

  /** What the update check contributes to the warnings: one warning, exactly
      when the check ran and was skipped, naming why. */
  function UpdateWarnings(checkUpdated: bool, git: GitOutcome): (r: seq<string>)
    ensures |r| <= 1
    ensures r != [] <==> checkUpdated && (git.NotARepo? || git.DiffFailed?)
    ensures checkUpdated && git.NotARepo? ==> r == [NotARepoWarning]
    ensures checkUpdated && git.DiffFailed? ==> r == [DiffWarningPrefix + git.error.message]
  {
    if !checkUpdated then []
    else
      match git
      case NotARepo => [NotARepoWarning]
      case DiffFailed(e) => [DiffWarningPrefix + e.message]
      case _ => []
  }

  /** The outcome of a run: the reading error, the error `checkIsRepo` threw,
      or the failures of the text then of the update check, with the update
      check's warnings. */
  function RunOutcome(source: Source, checkUpdated: bool, git: GitOutcome): (r: Outcome)
    ensures r.Aborted? <==> !source.Contents? || (checkUpdated && git.RepoCheckFailed?)
    ensures source.Unreadable? ==> r == Aborted(ErrorMessage(source.error))
    ensures source.NotAFile? ==> r == Aborted(ErrorPrefix + NotAFileMessage)
    ensures source.Contents? && checkUpdated && git.RepoCheckFailed? ==> r == Aborted(ErrorMessage(git.error))
    ensures r.Completed? ==>
      r.failures == ContentFailures(source.text) + UpdateFailures(checkUpdated, git) &&
      r.warnings == UpdateWarnings(checkUpdated, git) && |r.warnings| <= 1
  {
    match source
    case Unreadable(e) => Aborted(ErrorMessage(e))
    case NotAFile => Aborted(ErrorMessage(Thrown(false, NotAFileMessage)))
    case Contents(content) =>
      if checkUpdated && git.RepoCheckFailed? then Aborted(ErrorMessage(git.error))
      else Completed(ContentFailures(content) + UpdateFailures(checkUpdated, git),
                     UpdateWarnings(checkUpdated, git))
  }

  /** A run passes (returns `true` rather than exiting with 1) exactly when it
      completes with no failures; the warnings play no part. */
  predicate Passed(o: Outcome)
  {
    o.Completed? && o.failures == []
  }

  /** `validateChangelog(changelogPath, checkUpdated)` (index.js:38-151), with the
      file read and the git queries already answered by `source` and `git`.
      The failures are collected by appending, as the source pushes onto its
      array. */
  method ValidateChangelog(source: Source, checkUpdated: bool, git: GitOutcome)
    returns (outcome: Outcome, passed: bool)
    ensures outcome == RunOutcome(source, checkUpdated, git)
    ensures passed <==> Passed(outcome)
  {
    if source.Unreadable? {
      outcome, passed := Aborted(ErrorMessage(source.error)), false;
      return;
    }
    if source.NotAFile? {
      outcome, passed := Aborted(ErrorMessage(Thrown(false, NotAFileMessage))), false;
      return;
    }
    var content := source.text;
    var failures := CollectContentFailures(content);
    outcome := CheckUpdated(checkUpdated, git, failures);
    passed := outcome.Completed? && |outcome.failures| == 0;
  }

  /** The update check (index.js:81-105), run after the text's failures are
      collected: outside a repository or when the diff fails it only warns,
      an empty diff adds the not-updated failure, and an error from
      `checkIsRepo` ends the run. */
  method CheckUpdated(checkUpdated: bool, git: GitOutcome, collected: seq<string>)
    returns (outcome: Outcome)
    ensures checkUpdated && git.RepoCheckFailed? ==> outcome == Aborted(ErrorMessage(git.error))
    ensures !(checkUpdated && git.RepoCheckFailed?) ==>
      outcome == Completed(collected + UpdateFailures(checkUpdated, git), UpdateWarnings(checkUpdated, git))
  {
    var failures := collected;
    var warnings: seq<string> := [];
    if checkUpdated {
      match git {
        case NotARepo =>
          warnings := warnings + [NotARepoWarning];
        case RepoCheckFailed(e) =>
          outcome := Aborted(ErrorMessage(e));
          return;
        case DiffFailed(e) =>
          warnings := warnings + [DiffWarningPrefix + e.message];
        case Diffed(diff) =>
          if diff == "" {
            failures := failures + [NotUpdatedMessage];
          }
      }
    }
    outcome := Completed(failures, warnings);
  }

  /** The first half of a run (index.js:51-78): the failed basic rules, then
      the Unreleased section's message when it fails. */
  method CollectContentFailures(content: string) returns (failures: seq<string>)
    ensures failures == ContentFailures(content)
  {
    failures := FailedMessages(BasicRules(content));
    var unreleasedValidation := ValidateUnreleasedSection(content);
    if unreleasedValidation.Fail? {
      failures := failures + [unreleasedValidation.message];
    }
  }

  /** Where a message comes in the reporting order: the four basic rules in
      table order, then the Unreleased section rule, then the update check. */
  function Rank(m: string): nat
  {
    if m == EmptyMessage then 0
    else if m == HeaderMessage then 1
    else if m == VersionMessage then 2
    else if m == UnreleasedMessage then 3
    else if m == FormatMessage || m == NoChangesMessage then 4
    else if m == NotUpdatedMessage then 5
    else 6
  }

  /** The ranks of `f` lie in `[lo, hi)` and strictly increase along `f`. */
  ghost predicate RankedIn(f: seq<string>, lo: nat, hi: nat)
  {
    (forall k :: 0 <= k < |f| ==> lo <= Rank(f[k]) < hi) &&
    (forall j, k :: 0 <= j < k < |f| ==> Rank(f[j]) < Rank(f[k]))
  }

  /** Ranked runs over consecutive ranges concatenate into a ranked run. */
  lemma RankedConcat(a: seq<string>, b: seq<string>, lo: nat, mid: nat, hi: nat)
    requires lo <= mid <= hi && RankedIn(a, lo, mid) && RankedIn(b, mid, hi)
    ensures RankedIn(a + b, lo, hi)
  {
    var f := a + b;
    forall k | 0 <= k < |f| ensures lo <= Rank(f[k]) < hi {
      if k < |a| {
        assert f[k] == a[k];
      } else {
        assert f[k] == b[k - |a|];
      }
    }
    forall j, k | 0 <= j < k < |f| ensures Rank(f[j]) < Rank(f[k]) {
      if k < |a| {
        assert f[j] == a[j] && f[k] == a[k];
      } else if j < |a| {
        assert f[j] == a[j] && f[k] == b[k - |a|];
      } else {
        assert f[j] == b[j - |a|] && f[k] == b[k - |a|];
      }
    }
  }

  /** The basic rules report in table order. */
  lemma BasicFailuresRanked(content: string)
    ensures RankedIn(BasicFailures(content), 0, 4)
  {
    BasicFailuresInTableOrder(content);
    var w0 := When(|content| == 0, EmptyMessage);
    var w1 := When(!Includes(content, "# Change Log"), HeaderMessage);
    var w2 := When(!HasVersionHeading(content), VersionMessage);
    var w3 := When(!Includes(content, "## [Unreleased]"), UnreleasedMessage);
    BasicMessageRanks();
    WhenRanked(|content| == 0, EmptyMessage, 0);
    WhenRanked(!Includes(content, "# Change Log"), HeaderMessage, 1);
    WhenRanked(!HasVersionHeading(content), VersionMessage, 2);
    WhenRanked(!Includes(content, "## [Unreleased]"), UnreleasedMessage, 3);
    RankedConcat(w0, w1, 0, 1, 2);
    RankedConcat(w0 + w1, w2, 0, 2, 3);
    RankedConcat(w0 + w1 + w2, w3, 0, 3, 4);
  }

  /** The basic rules' messages rank in table order. */
  lemma BasicMessageRanks()
    ensures Rank(EmptyMessage) == 0 && Rank(HeaderMessage) == 1
    ensures Rank(VersionMessage) == 2 && Rank(UnreleasedMessage) == 3
  {
  }

  /** A message of rank `r`, or nothing, is ranked in `[r, r + 1)`. */
  lemma WhenRanked(failed: bool, m: string, r: nat)
    requires Rank(m) == r
    ensures RankedIn(When(failed, m), r, r + 1)
  {
  }

  /** Both messages of the Unreleased section rule have rank 4. */
  lemma RankOfUnreleasedMessage(m: string)
    requires m == FormatMessage || m == NoChangesMessage
    ensures Rank(m) == 4
  {
  }

  /** The Unreleased section rule contributes at most one message, of rank 4. */
  lemma UnreleasedFailuresRanked(content: string)
    ensures RankedIn(UnreleasedFailures(content), 4, 5)
  {
    var v := ValidateUnreleasedSection(content);
    if v.Fail? {
      assert v.message == FormatMessage || v.message == NoChangesMessage;
      RankOfUnreleasedMessage(v.message);
      assert UnreleasedFailures(content) == [v.message];
    }
  }

  /** The failures of a completed run come in the fixed reporting order: the
      basic rules in table order, then at most one Unreleased section message,
      then at most one update-check message. No message appears twice. */
  lemma FailuresInReportingOrder(source: Source, checkUpdated: bool, git: GitOutcome)
    requires RunOutcome(source, checkUpdated, git).Completed?
    ensures RankedIn(RunOutcome(source, checkUpdated, git).failures, 0, 6)
  {
    var content := source.text;
    BasicFailuresRanked(content);
    UnreleasedFailuresRanked(content);
    RankedConcat(BasicFailures(content), UnreleasedFailures(content), 0, 4, 5);
    UpdateFailuresRanked(checkUpdated, git);
    RankedConcat(ContentFailures(content), UpdateFailures(checkUpdated, git), 0, 5, 6);
  }

  /** The update check contributes at most one message, of rank 5. */
  lemma UpdateFailuresRanked(checkUpdated: bool, git: GitOutcome)
    ensures RankedIn(UpdateFailures(checkUpdated, git), 5, 6)
  {
    assert Rank(NotUpdatedMessage) == 5;
    WhenRanked(checkUpdated && git == Diffed(""), NotUpdatedMessage, 5);
  }

  /** Empty text fails every rule: the four basic rules in table order, then
      the format message, since the pattern cannot match. */
  lemma EmptyChangelogFailures()
    ensures ContentFailures("") == [EmptyMessage, HeaderMessage, VersionMessage, UnreleasedMessage, FormatMessage]
  {
    BasicFailuresInTableOrder("");
    NoMatchPastEnd("");
  }

  /** Each basic message is reported exactly when its rule fails. The title
      and Unreleased rules look for their text anywhere, not at the start of
      a line: an occurrence at any index, whatever surrounds it, passes them. */
  lemma BasicFailureIffRuleFails(s: string)
    ensures EmptyMessage in BasicFailures(s) <==> s == []
    ensures HeaderMessage in BasicFailures(s) <==> forall i: nat :: !HasAt(s, i, "# Change Log")
    ensures VersionMessage in BasicFailures(s) <==> forall i: nat, v :: !VersionHeadingAt(s, i, v)
    ensures UnreleasedMessage in BasicFailures(s) <==> forall i: nat :: !HasAt(s, i, "## [Unreleased]")
  {
    BasicFailuresInTableOrder(s);
    BasicMessagesDistinct();
  }

  /** The four basic messages are different from one another. */
  lemma BasicMessagesDistinct()
    ensures EmptyMessage != HeaderMessage && EmptyMessage != VersionMessage && EmptyMessage != UnreleasedMessage
    ensures HeaderMessage != VersionMessage && HeaderMessage != UnreleasedMessage
    ensures VersionMessage != UnreleasedMessage
  {
    assert |EmptyMessage| == 25 && |HeaderMessage| == 41;
    assert |VersionMessage| == 59 && |UnreleasedMessage| == 44;
  }

  /** So does the version rule: one `## [x.y.z]` anywhere is enough. */
  lemma VersionRuleAnywhere(x: string, v: Version, y: string)
    requires IsDigits(v.major) && IsDigits(v.minor) && IsDigits(v.patch)
    ensures VersionMessage !in BasicFailures(x + VersionHeading(v) + y)
  {
    VersionHeadingAnywhere(x, v, y);
    BasicFailuresInTableOrder(x + VersionHeading(v) + y);
  }

  /** A changelog that cannot be obtained stops the run: it never passes, and
      a missing file is reported with its own message. */
  lemma AcquisitionFailureAborts(e: Thrown, checkUpdated: bool, git: GitOutcome)
    ensures RunOutcome(Unreadable(e), checkUpdated, git).Aborted?
    ensures !Passed(RunOutcome(Unreadable(e), checkUpdated, git))
    ensures RunOutcome(Unreadable(e), checkUpdated, git).error == NotFoundError <==> e.notFound
  {
  }

  /** A path that is not a regular file stops the run with the error prefix
      and its own message, never the not-found line, and never passes. */
  lemma NotAFileAborts(checkUpdated: bool, git: GitOutcome)
    ensures RunOutcome(NotAFile, checkUpdated, git) == Aborted(ErrorPrefix + NotAFileMessage)
    ensures RunOutcome(NotAFile, checkUpdated, git).error != NotFoundError
    ensures !Passed(RunOutcome(NotAFile, checkUpdated, git))
  {
    assert ErrorMessage(Thrown(false, NotAFileMessage)) != NotFoundError;
  }

  /** Without the update check there are no warnings, and git plays no part. */
  lemma UncheckedIgnoresGit(source: Source, git: GitOutcome, other: GitOutcome)
    ensures RunOutcome(source, false, git) == RunOutcome(source, false, other)
    ensures RunOutcome(source, false, git).Completed? ==> RunOutcome(source, false, git).warnings == []
  {
  }

  /** Outside a repository, or when the diff fails, the update check adds one
      warning and no failure, so the verdict is the one without the check. */
  lemma SkippedCheckOnlyWarns(content: string, git: GitOutcome)
    requires git.NotARepo? || git.DiffFailed?
    ensures var o := RunOutcome(Contents(content), true, git);
      o.Completed? && o.failures == RunOutcome(Contents(content), false, git).failures &&
      (git.NotARepo? ==> o.warnings == [NotARepoWarning]) &&
      (git.DiffFailed? ==> o.warnings == [DiffWarningPrefix + git.error.message]) &&
      (Passed(o) <==> Passed(RunOutcome(Contents(content), false, git)))
  {
  }

  /** An empty diff adds exactly the not-updated failure, after all the others. */
  lemma EmptyDiffFails(content: string)
    ensures var o := RunOutcome(Contents(content), true, Diffed(""));
      o == Completed(ContentFailures(content) + [NotUpdatedMessage], []) && !Passed(o)
  {
  }

  /** A non-empty diff adds nothing: the run is the one without the check. */
  lemma ChangedDiffAddsNothing(content: string, diff: string)
    requires diff != ""
    ensures RunOutcome(Contents(content), true, Diffed(diff)) == RunOutcome(Contents(content), false, Diffed(diff))
  {
  }

  /** When `checkIsRepo` itself throws, the run stops with that error. */
  lemma RepoCheckFailureAborts(content: string, e: Thrown)
    ensures RunOutcome(Contents(content), true, RepoCheckFailed(e)) == Aborted(ErrorMessage(e))
  {
  }

  /** A changelog passes exactly when it is non-empty, holds the title, a
      version heading and the Unreleased heading, the pattern's reported match
      has at least one section with changes, and the update check, if run,
      did not find an empty diff. Warnings play no part. */
  lemma PassedIffEveryRuleHolds(content: string, checkUpdated: bool, git: GitOutcome)
    requires !(checkUpdated && git.RepoCheckFailed?)
    ensures Passed(RunOutcome(Contents(content), checkUpdated, git)) <==>
      |content| > 0 && Includes(content, "# Change Log") && HasVersionHeading(content) &&
      Includes(content, "## [Unreleased]") &&
      (exists m :: IsReportedMatch(content, m) && !AllSectionsBlank(m.groups)) &&
      !(checkUpdated && git == Diffed(""))
  {
    BasicFailuresInTableOrder(content);
  }

  /** A `#` in the Added text under the only Unreleased heading of the text
      (an issue number in `- fix #12`, or a `#### Notes` line), other than
      the one `\n### Changed\n` begins with, makes the section fail the
      format rule, however well the rest is laid out. */
  lemma HashInAddedFailsFormat(s: string, i: nat, rest: string, x: string)
    requires '\n' !in rest && '#' !in x
    requires x == [] || !HasAt(s, i + |Heading| + |rest| + |AddedHead| + |x| - 1, ChangedHead)
    requires HasAt(s, i, Heading + rest + AddedHead + x + "#")
    requires forall j: nat :: HasAt(s, j, Heading) ==> j == i
    ensures ValidateUnreleasedSection(s) == Fail(FormatMessage)
    ensures UnreleasedFailures(s) == [FormatMessage]
  {
    HashInAddedBreaksMatch(s, i, rest, x);
    OnlyHeadingMatches(s, i);
  }

  /** The same for a `#` in the Changed text, other than the one
      `\n### Fixed\n` begins with. */
  lemma HashInChangedFailsFormat(s: string, i: nat, rest: string, a: string, x: string)
    requires '\n' !in rest && '#' !in a && '#' !in x
    requires x == [] || !HasAt(s, i + |Heading| + |rest| + |AddedHead| + |a| + |ChangedHead| + |x| - 1, FixedHead)
    requires HasAt(s, i, Heading + rest + AddedHead + a + ChangedHead + x + "#")
    requires forall j: nat :: HasAt(s, j, Heading) ==> j == i
    ensures ValidateUnreleasedSection(s) == Fail(FormatMessage)
    ensures UnreleasedFailures(s) == [FormatMessage]
  {
    HashInChangedBreaksMatch(s, i, rest, a, x);
    OnlyHeadingMatches(s, i);
  }

  /** When the only Unreleased heading admits no match, the pattern matches nowhere. */
  lemma OnlyHeadingMatches(s: string, i: nat)
    requires forall j: nat :: HasAt(s, j, Heading) ==> j == i
    requires forall c :: !MatchesAt(s, i, c)
    ensures ValidateUnreleasedSection(s) == Fail(FormatMessage)
  {
    forall j: nat, c ensures !MatchesAt(s, j, c) {
      MatchStartsWithHeading(s, j, c);
    }
  }
}
