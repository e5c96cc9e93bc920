/** The changelogs of test/index.test.js, and one more passing changelog, as
    concrete inputs with their verdicts.

    Each text is spelled out in pieces: the title, short stretches of prose,
    the Unreleased section as the pattern's parts, and the release after it.
    Joined up, the pieces give the fixture character for character. */
module Examples {
  import opened Text
  import opened Options
  import opened UnreleasedPattern
  import opened SemverPattern
  import opened Validator

  const Title := "# Change Log"

  /** The first release, `## [1.0.0]`, that every passing fixture carries. */
  const FirstRelease := Version("1", "0", "0")

  /** The text between the title and the Unreleased heading of
      test/index.test.js:17-23. */
  const ValidIntro := IntroNotice + IntroFormat + IntroVersioning

  const IntroNotice := "\n\nAll notable changes to this " + "project will be documented " + "in this file.\n\n"

  const IntroFormat := "The format is based on " + "[Keep a Changelog]" + "(http://keepachangelog.com/)\n"

  const IntroVersioning := "and this project adheres to " + "[Semantic Versioning]" + "(http://semver.org/).\n\n"

  /** The Unreleased section of test/index.test.js:24-34. */
  const ValidSections := Captures("", "- New feature pending\n", "- Updated documentation\n", "- Fixed a bug\n\n")

  /** The changelog every test starts from (test/index.test.js:17-38). */
  const ValidRelease := " - 2023-12-20\n### Added\n- Initial release\n"

  const ValidChangelog := LaidOut(ValidIntro, ValidSections, ValidRelease)

  /** Three headings with nothing under them (test/index.test.js:81-93). */
  const EmptySections := Captures("", "", "", "\n")

  const EmptyRelease := " - 2023-12-20\n- Initial release\n"

  const EmptyUnreleasedChangelog := LaidOut("\n\n", EmptySections, EmptyRelease)

  /** A bullet right under the Unreleased heading (test/index.test.js:70-74). */
  const FreeformChangelog := Title + "\n\n" + Heading + "\n- Invalid format\n"

  /** One section with changes and two blank ones. */
  const OneSectionSections := Captures("", "- x\n", "", "\n")

  const OneSectionRelease := " - d\n### Added\n- y\n"

  const OneSectionChangelog := LaidOut("\n\n", OneSectionSections, OneSectionRelease)

  /** A match has `U` four characters past its start. */
  lemma MatchNeedsU(s: string, j: nat, d: Captures)
    ensures MatchesAt(s, j, d) ==> j + |Heading| <= |s| && s[j + 4] == 'U'
  {
    if MatchesAt(s, j, d) {
      MatchPieces(s, j, d);
      HasAtChar(s, j, Heading, 4);
    }
  }

  /** So text without `U` before a heading holds no match that starts there. */
  lemma NoMatchBeforeU(s: string, k: nat)
    requires HasAt(s, k, Heading) && Avoids(s, 0, k, 'U')
    ensures forall j: nat, d :: j < k ==> !MatchesAt(s, j, d)
  {
    forall j: nat, d | j < k ensures !MatchesAt(s, j, d) {
      MatchNeedsU(s, j, d);
      if k <= j + 4 {
        HasAtChar(s, k, Heading, j + 4 - k);
      }
    }
  }

  /** A match holds `### Added`. */
  lemma MatchNeedsA(s: string, j: nat, d: Captures)
    ensures MatchesAt(s, j, d) ==> 'A' in s
  {
    if MatchesAt(s, j, d) {
      MatchPieces(s, j, d);
      HasAtChar(s, j + |Heading| + |d.rest|, AddedHead, 6);
    }
  }

  /** So text without `A` holds no match. */
  lemma NoMatchWithoutA(s: string)
    requires 'A' !in s
    ensures forall j: nat, d :: !MatchesAt(s, j, d)
  {
    forall j: nat, d ensures !MatchesAt(s, j, d) {
      MatchNeedsA(s, j, d);
    }
  }

  /** A line that begins with `#` inside the Added text, such as `#### Notes`,
      also breaks the match at the heading: its `#` is not the one of
      `\n### Changed\n`. */
  lemma NotesLineBreaksMatch(more: string)
    ensures forall c :: !MatchesAt(Heading + AddedHead + "- a\n" + "#### Notes\n" + more, 0, c)
  {
    var s := Heading + AddedHead + "- a\n" + "#### Notes\n" + more;
    var k := |Heading| + |AddedHead| + 3;
    assert s[k + 4] == '#' != ChangedHead[4];
    assert HasAt(s, 0, Heading + "" + AddedHead + "- a\n" + "#");
    HashInAddedBreaksMatch(s, 0, "", "- a\n");
  }

  /** A version heading holds a `.`. */
  lemma VersionNeedsDot(s: string, i: nat, v: Version)
    ensures VersionHeadingAt(s, i, v) ==> '.' in s
  {
    if VersionHeadingAt(s, i, v) {
      var h := VersionHeading(v);
      assert h[4 + |v.major|] == '.';
      HasAtChar(s, i, h, 4 + |v.major|);
    }
  }

  /** So text without `.` holds no version heading. */
  lemma NoVersionWithoutDot(s: string)
    requires '.' !in s
    ensures !HasVersionHeading(s)
  {
    forall i: nat, v ensures !VersionHeadingAt(s, i, v) {
      VersionNeedsDot(s, i, v);
    }
  }

  /** A match right after text without `U`, followed by a `#` or by nothing,
      is the match that the pattern reports. */
  lemma ReportedAfter(p: string, c: Captures, t: string)
    requires 'U' !in p
    requires '\n' !in c.rest && '#' !in c.added && '#' !in c.changed && '#' !in c.fixed
    requires t != [] ==> t[0] == '#'
    ensures FindUnreleased(p + Spanned(c) + t) == Some(Match(|p|, c))
  {
    var s := p + Spanned(c) + t;
    assert s[|p|..|p| + |Spanned(c)|] == Spanned(c);
    assert MatchesAt(s, |p|, c);
    SpannedLayout(s, |p|, c);
    assert s[..|p|] == p;
    AvoidsIsNotIn(s, 0, p, 'U');
    NoMatchBeforeU(s, |p|);
    if |p| + |Spanned(c)| < |s| {
      assert s[|p| + |Spanned(c)|] == t[0];
    }
    FullMatchIsReported(s, |p|, c);
  }

  /** A text laid out as a fixture: the title, some prose, an Unreleased
      section with parts `c`, and a first release. */
  function LaidOut(prose: string, c: Captures, release: string): string
  {
    Title + prose + Spanned(c) + VersionHeading(FirstRelease) + release
  }

  /** Such a text passes the four basic rules. */
  lemma LaidOutBasics(prose: string, c: Captures, release: string)
    ensures BasicFailures(LaidOut(prose, c, release)) == []
  {
    var s := LaidOut(prose, c, release);
    var p := Title + prose;
    assert HasAt(Title, 0, Title);
    HasAtExtend(Title, 0, Title, prose);
    HasAtExtend(p, 0, Title, Spanned(c));
    HasAtExtend(p + Spanned(c), 0, Title, VersionHeading(FirstRelease));
    HasAtExtend(p + Spanned(c) + VersionHeading(FirstRelease), 0, Title, release);
    assert (p + Spanned(c))[|p|..|p| + |Spanned(c)|] == Spanned(c);
    SpannedLayout(p + Spanned(c), |p|, c);
    HasAtExtend(p + Spanned(c), |p|, Heading, VersionHeading(FirstRelease));
    HasAtExtend(p + Spanned(c) + VersionHeading(FirstRelease), |p|, Heading, release);
    VersionHeadingAnywhere(p + Spanned(c), FirstRelease, release);
    BasicFailuresInTableOrder(s);
  }

  /** Its Unreleased verdict depends on whether the three sections are blank. */
  lemma LaidOutVerdict(prose: string, c: Captures, release: string)
    requires 'U' !in prose
    requires '\n' !in c.rest && '#' !in c.added && '#' !in c.changed && '#' !in c.fixed
    ensures ValidateUnreleasedSection(LaidOut(prose, c, release)) ==
      if AllSectionsBlank(c) then Fail(NoChangesMessage) else Pass
  {
    var p := Title + prose;
    var t := VersionHeading(FirstRelease) + release;
    assert LaidOut(prose, c, release) == p + Spanned(c) + t;
    ReportedAfter(p, c, t);
  }

  /** The prose before the Unreleased heading of the starting changelog has
      no `U`, line by line. */
  lemma ValidIntroAvoidsU()
    ensures 'U' !in ValidIntro
  {
    NoticeAvoidsU();
    FormatAvoidsU();
    VersioningAvoidsU();
  }

  lemma NoticeAvoidsU()
    ensures 'U' !in IntroNotice
  {
    assert 'U' !in "\n\nAll notable changes to this " && 'U' !in "project will be documented " && 'U' !in "in this file.\n\n";
  }

  lemma FormatAvoidsU()
    ensures 'U' !in IntroFormat
  {
    assert 'U' !in "The format is based on " && 'U' !in "[Keep a Changelog]" && 'U' !in "(http://keepachangelog.com/)\n";
  }

  lemma VersioningAvoidsU()
    ensures 'U' !in IntroVersioning
  {
    assert 'U' !in "and this project adheres to " && 'U' !in "[Semantic Versioning]" && 'U' !in "(http://semver.org/).\n\n";
  }

  /** A fixture whose sections are not all blank passes every rule. */
  lemma LaidOutPasses(prose: string, c: Captures, release: string, git: GitOutcome)
    requires 'U' !in prose
    requires '\n' !in c.rest && '#' !in c.added && '#' !in c.changed && '#' !in c.fixed
    requires !AllSectionsBlank(c)
    ensures ContentFailures(LaidOut(prose, c, release)) == []
    ensures Passed(RunOutcome(Contents(LaidOut(prose, c, release)), false, git))
  {
    LaidOutVerdict(prose, c, release);
    LaidOutBasics(prose, c, release);
  }

  /** The Unreleased section of the starting changelog keeps to one heading
      line and has changes under Added. */
  lemma ValidSectionsShape()
    ensures '\n' !in ValidSections.rest && '#' !in ValidSections.added
    ensures '#' !in ValidSections.changed && '#' !in ValidSections.fixed
    ensures !AllSectionsBlank(ValidSections)
  {
    assert !IsWhitespace(ValidSections.added[0]);
  }

  /** The starting changelog has no failures, so a run over it without the
      update check passes (test/index.test.js:54-57). */
  lemma ValidChangelogPasses(git: GitOutcome)
    ensures ContentFailures(ValidChangelog) == []
    ensures Passed(RunOutcome(Contents(ValidChangelog), false, git))
  {
    ValidIntroAvoidsU();
    ValidSectionsShape();
    LaidOutPasses(ValidIntro, ValidSections, ValidRelease, git);
  }

  /** A fixture whose sections are all blank fails on the no-changes
      message alone. */
  lemma LaidOutNoChanges(prose: string, c: Captures, release: string, git: GitOutcome)
    requires 'U' !in prose
    requires '\n' !in c.rest && '#' !in c.added && '#' !in c.changed && '#' !in c.fixed
    requires AllSectionsBlank(c)
    ensures ContentFailures(LaidOut(prose, c, release)) == [NoChangesMessage]
    ensures !Passed(RunOutcome(Contents(LaidOut(prose, c, release)), false, git))
  {
    LaidOutVerdict(prose, c, release);
    LaidOutBasics(prose, c, release);
  }

  /** The three sections under the Unreleased heading of test/index.test.js:81-93
      are all blank. */
  lemma EmptySectionsShape()
    ensures '\n' !in EmptySections.rest && '#' !in EmptySections.added
    ensures '#' !in EmptySections.changed && '#' !in EmptySections.fixed
    ensures AllSectionsBlank(EmptySections)
  {
    assert IsBlank(EmptySections.fixed);
  }

  /** With all three sections blank, the only failure is the no-changes
      message (test/index.test.js:80-97). */
  lemma EmptyUnreleasedFails(git: GitOutcome)
    ensures ContentFailures(EmptyUnreleasedChangelog) == [NoChangesMessage]
    ensures !Passed(RunOutcome(Contents(EmptyUnreleasedChangelog), false, git))
  {
    EmptySectionsShape();
    LaidOutNoChanges("\n\n", EmptySections, EmptyRelease, git);
  }

  /** The freeform changelog has neither an `A` nor a `.`. */
  lemma FreeformChars()
    ensures 'A' !in FreeformChangelog && '.' !in FreeformChangelog
  {
    assert 'A' !in Title && '.' !in Title;
    assert 'A' !in Heading && '.' !in Heading;
    assert 'A' !in "\n- Invalid format\n" && '.' !in "\n- Invalid format\n";
  }

  /** Of the basic rules, the freeform changelog fails only the version rule. */
  lemma FreeformBasics()
    ensures BasicFailures(FreeformChangelog) == [VersionMessage]
  {
    var s := FreeformChangelog;
    FreeformChars();
    NoVersionWithoutDot(s);
    assert HasAt(Title, 0, Title);
    HasAtExtend(Title, 0, Title, "\n\n");
    HasAtExtend(Title + "\n\n", 0, Title, Heading);
    HasAtExtend(Title + "\n\n" + Heading, 0, Title, "\n- Invalid format\n");
    IncludesInfix(Title + "\n\n", Heading, "\n- Invalid format\n");
    BasicFailuresInTableOrder(s);
  }

  /** A freeform Unreleased section breaks the pattern; without any release
      heading the version rule fails too (test/index.test.js:69-78). */
  lemma FreeformFails(git: GitOutcome)
    ensures ContentFailures(FreeformChangelog) == [VersionMessage, FormatMessage]
    ensures !Passed(RunOutcome(Contents(FreeformChangelog), false, git))
  {
    FreeformChars();
    NoMatchWithoutA(FreeformChangelog);
    FreeformBasics();
  }

  /** One section with changes is enough: the changelog passes. */
  lemma OneSectionPasses(git: GitOutcome)
    ensures ContentFailures(OneSectionChangelog) == []
    ensures Passed(RunOutcome(Contents(OneSectionChangelog), false, git))
  {
    assert !IsWhitespace(OneSectionSections.added[0]);
    LaidOutPasses("\n\n", OneSectionSections, OneSectionRelease, git);
  }
}
