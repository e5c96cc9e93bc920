/** An optional value. */
module Options {
  datatype Option<T> = None | Some(value: T)
}

/** The pattern that `validateUnreleasedSection` matches against the whole
    changelog (index.js:8), written out as an explicit matcher:

      ## \[Unreleased\][^\n]*\n\n### Added\n([^#]*)\n### Changed\n([^#]*)\n### Fixed\n([^#]*)

    `MatchesAt` is the language of the pattern, read declaratively;
    `FindUnreleased` is the matcher, and its contract says that it returns
    the match `String.prototype.match` returns: the leftmost one, and at that
    start the one backtracking reaches first. */
module UnreleasedPattern {
  import opened Text
  import opened Options

  const Heading := "## [Unreleased]"
  const AddedHead := "\n\n### Added\n"
  const ChangedHead := "\n### Changed\n"
  const FixedHead := "\n### Fixed\n"

  /** What the four starred parts of the pattern consume in one match:
      `rest` is the `[^\n]*` after the heading; `added`, `changed` and `fixed`
      are the three capture groups. */
  datatype Captures = Captures(rest: string, added: string, changed: string, fixed: string)

  /** A match of the pattern that starts at index `start`. */
  datatype Match = Match(start: nat, groups: Captures)

  /** The text a match with parts `c` spans. */
  function Spanned(c: Captures): string
  {
    Heading + c.rest + AddedHead + c.added + ChangedHead + c.changed + FixedHead + c.fixed
  }

  /** The pattern matches at `i` with parts `c`: the literal pieces and the
      starred parts follow one another in `s`, and each starred part avoids the
      character its class excludes. */
  ghost predicate MatchesAt(s: string, i: nat, c: Captures)
  {
    HasAt(s, i, Spanned(c)) &&
    '\n' !in c.rest && '#' !in c.added && '#' !in c.changed && '#' !in c.fixed
  }

  /** The order in which backtracking tries the parts of matches that start at
      the same index: the four stars are greedy, so a longer first star is
      tried first, then a longer second star, and so on. `c` is tried no
      later than `d`. */
  ghost predicate TriedFirst(c: Captures, d: Captures)
  {
    |c.rest| > |d.rest| ||
    (|c.rest| == |d.rest| &&
      (|c.added| > |d.added| ||
      (|c.added| == |d.added| &&
        (|c.changed| > |d.changed| ||
        (|c.changed| == |d.changed| && |c.fixed| >= |d.fixed|)))))
  }

  /** `m` is the match `s.match(pattern)` reports: no match starts earlier, and
      among the matches at its start, backtracking reaches it first. */
  ghost predicate IsReportedMatch(s: string, m: Match)
  {
    MatchesAt(s, m.start, m.groups) &&
    (forall j: nat, c :: j < m.start ==> !MatchesAt(s, j, c)) &&
    (forall c :: MatchesAt(s, m.start, c) ==> TriedFirst(m.groups, c))
  }

  /** No index in `[k, e)` of `s` holds `ch`. */
  predicate Avoids(s: string, k: nat, e: nat, ch: char)
  {
    e <= |s| && forall j :: k <= j < e ==> s[j] != ch
  }

  /** `Avoids` over the place where `x` sits in `s` is `ch !in x`. */
  lemma AvoidsIsNotIn(s: string, k: nat, x: string, ch: char)
    requires HasAt(s, k, x)
    ensures Avoids(s, k, k + |x|, ch) <==> ch !in x
  {
    if ch in x {
      var j :| 0 <= j < |x| && x[j] == ch;
      assert s[k + j] == x[j];
    }
    if !Avoids(s, k, k + |x|, ch) {
      var j :| k <= j < k + |x| && s[j] == ch;
      assert x[j - k] == s[j];
    }
  }

  /** The end of the heading line: after `## [Unreleased]` at `i`, the
      `[^\n]*` can only stop at the first line feed, which must begin
      `\n\n### Added\n`. */
  function HeadingLineEnd(s: string, i: nat): (r: Option<nat>)
    requires i <= |s|
    ensures r.Some? ==>
      HasAt(s, i, Heading) && i + |Heading| <= r.value &&
      HasAt(s, r.value, AddedHead) && Avoids(s, i + |Heading|, r.value, '\n')
  {
    if !HasAt(s, i, Heading) then None
    else
      var e := IndexOfFrom(s, i + |Heading|, '\n');
      if HasAt(s, e, AddedHead) then Some(e) else None
  }

  /** The heading line can end nowhere else. */
  lemma HeadingLineEndIs(s: string, i: nat, e: nat)
    requires HasAt(s, i, Heading) && i + |Heading| <= e
    requires HasAt(s, e, AddedHead) && Avoids(s, i + |Heading|, e, '\n')
    ensures HeadingLineEnd(s, i) == Some(e)
  {
    assert s[e] == AddedHead[0];
    IndexOfFromIs(s, i + |Heading|, '\n', e);
  }

  /** The end of a capture group `([^#]*)` that starts at `k` and is followed by
      the literal `next`, which begins with a line feed and a `#`: the group can
      only stop just before the line feed that precedes the first `#` it
      reaches. */
  function GroupEnd(s: string, k: nat, next: string): (r: Option<nat>)
    requires k <= |s|
    requires |next| >= 2 && next[0] == '\n' && next[1] == '#'
    ensures r.Some? ==> k <= r.value && HasAt(s, r.value, next) && Avoids(s, k, r.value, '#')
  {
    var h := IndexOfFrom(s, k, '#');
    if h == k || !HasAt(s, h - 1, next) then None else Some(h - 1)
  }

  /** Such a capture group can end nowhere else. */
  lemma GroupEndIs(s: string, k: nat, next: string, e: nat)
    requires k <= e && HasAt(s, e, next) && Avoids(s, k, e, '#')
    requires |next| >= 2 && next[0] == '\n' && next[1] == '#'
    ensures GroupEnd(s, k, next) == Some(e)
  {
    assert s[e] == next[0] && s[e + 1] == next[1];
    IndexOfFromIs(s, k, '#', e + 1);
  }

  /** The last capture group, greedy and followed by nothing, takes everything
      up to the first `#` or to the end of the text. */
  function LastGroupEnd(s: string, k: nat): (r: nat)
    requires k <= |s|
    ensures k <= r <= |s| && Avoids(s, k, r, '#')
    ensures r < |s| ==> s[r] == '#'
  {
    IndexOfFrom(s, k, '#')
  }

  /** No longer stretch without `#` starts at `k`. */
  lemma LastGroupEndLongest(s: string, k: nat, e: nat)
    requires k <= e && Avoids(s, k, e, '#')
    ensures e <= LastGroupEnd(s, k)
  {
  }

  /** Where each of the four starred parts of a match ends. */
  datatype Ends = Ends(rest: nat, added: nat, changed: nat, fixed: nat)

  /** The matcher at a single start index: the stages above in pattern order. */
  function MatchEnds(s: string, i: nat): (r: Option<Ends>)
    requires i <= |s|
  {
    match HeadingLineEnd(s, i)
    case None => None
    case Some(r1) => EndsAfterHeading(s, r1)
  }

  /** The stages after the heading line, which ends at `r1`. */
  function EndsAfterHeading(s: string, r1: nat): (r: Option<Ends>)
    requires r1 + |AddedHead| <= |s|
  {
    match GroupEnd(s, r1 + |AddedHead|, ChangedHead)
    case None => None
    case Some(a1) => EndsAfterAdded(s, r1, a1)
  }

  /** The stages after the Added group, which ends at `a1`. */
  function EndsAfterAdded(s: string, r1: nat, a1: nat): (r: Option<Ends>)
    requires a1 + |ChangedHead| <= |s|
  {
    match GroupEnd(s, a1 + |ChangedHead|, FixedHead)
    case None => None
    case Some(c1) => Some(Ends(r1, a1, c1, LastGroupEnd(s, c1 + |FixedHead|)))
  }

  /** The matcher's ends, once each stage is known to stop. */
  lemma EndsOfStages(s: string, i: nat, r1: nat, a1: nat, c1: nat)
    requires i <= |s|
    requires HeadingLineEnd(s, i) == Some(r1)
    requires GroupEnd(s, r1 + |AddedHead|, ChangedHead) == Some(a1)
    requires GroupEnd(s, a1 + |ChangedHead|, FixedHead) == Some(c1)
    ensures c1 + |FixedHead| <= |s|
    ensures MatchEnds(s, i) == Some(Ends(r1, a1, c1, LastGroupEnd(s, c1 + |FixedHead|)))
  {
    assert EndsAfterAdded(s, r1, a1) == Some(Ends(r1, a1, c1, LastGroupEnd(s, c1 + |FixedHead|)));
    assert EndsAfterHeading(s, r1) == EndsAfterAdded(s, r1, a1);
  }

  /** A match, read back from where its parts end. */
  function CapturesOf(s: string, i: nat, e: Ends): Captures
    requires i + |Heading| <= e.rest && e.rest + |AddedHead| <= e.added
    requires e.added + |ChangedHead| <= e.changed && e.changed + |FixedHead| <= e.fixed <= |s|
  {
    Captures(s[i + |Heading|..e.rest], s[e.rest + |AddedHead|..e.added],
             s[e.added + |ChangedHead|..e.changed], s[e.changed + |FixedHead|..e.fixed])
  }

  /** The parts of the match at `i`, if there is one. What it returns is a
      match of the pattern. */
  function MatchAt(s: string, i: nat): (r: Option<Captures>)
    requires i <= |s|
    ensures r.Some? ==> MatchesAt(s, i, r.value)
  {
    match MatchEnds(s, i)
    case None => None
    case Some(e) =>
      StagesMatch(s, i, e);
      Some(CapturesOf(s, i, e))
  }

  /** What each stage of the matcher established, read off its ends. */
  lemma MatchEndsFacts(s: string, i: nat, e: Ends)
    requires i <= |s| && MatchEnds(s, i) == Some(e)
    ensures HasAt(s, i, Heading) && i + |Heading| <= e.rest
    ensures Avoids(s, i + |Heading|, e.rest, '\n') && HasAt(s, e.rest, AddedHead)
    ensures e.rest + |AddedHead| <= e.added && HasAt(s, e.added, ChangedHead)
    ensures Avoids(s, e.rest + |AddedHead|, e.added, '#')
    ensures e.added + |ChangedHead| <= e.changed && HasAt(s, e.changed, FixedHead)
    ensures Avoids(s, e.added + |ChangedHead|, e.changed, '#')
    ensures e.changed + |FixedHead| <= e.fixed <= |s| && Avoids(s, e.changed + |FixedHead|, e.fixed, '#')
  {
    var r1 := HeadingLineEnd(s, i).value;
    HeadingStageIs(s, i, r1, e);
    AfterHeadingIs(s, r1, e);
    AfterAddedIs(s, r1, e.added, e);
  }

  /** The stage after a heading line that ends at `r1`, once the matcher succeeds. */
  lemma HeadingStageIs(s: string, i: nat, r1: nat, e: Ends)
    requires i <= |s| && HeadingLineEnd(s, i) == Some(r1) && MatchEnds(s, i) == Some(e)
    ensures r1 + |AddedHead| <= |s| && EndsAfterHeading(s, r1) == Some(e)
  {
  }

  /** The stages after the heading line, once they succeed. */
  lemma AfterHeadingIs(s: string, r1: nat, e: Ends)
    requires r1 + |AddedHead| <= |s| && EndsAfterHeading(s, r1) == Some(e)
    ensures GroupEnd(s, r1 + |AddedHead|, ChangedHead) == Some(e.added) && e.added + |ChangedHead| <= |s|
    ensures EndsAfterAdded(s, r1, e.added) == Some(e)
  {
  }

  /** The stages after the Added group, once they succeed. */
  lemma AfterAddedIs(s: string, r1: nat, a1: nat, e: Ends)
    requires a1 + |ChangedHead| <= |s| && EndsAfterAdded(s, r1, a1) == Some(e)
    ensures e.rest == r1 && e.added == a1
    ensures GroupEnd(s, a1 + |ChangedHead|, FixedHead) == Some(e.changed) && e.changed + |FixedHead| <= |s|
    ensures e.fixed == LastGroupEnd(s, e.changed + |FixedHead|)
  {
  }

  /** The stages, each where the one before it left off, make up a match. */
  lemma StagesMatch(s: string, i: nat, e: Ends)
    requires i <= |s| && MatchEnds(s, i) == Some(e)
    ensures i + |Heading| <= e.rest && e.rest + |AddedHead| <= e.added
    ensures e.added + |ChangedHead| <= e.changed && e.changed + |FixedHead| <= e.fixed <= |s|
    ensures MatchesAt(s, i, CapturesOf(s, i, e))
  {
    MatchEndsFacts(s, i, e);
    StagesAvoid(s, i, e);
    StagesSpan(s, i, e);
  }

  /** Each part the stages cut out avoids the character its class excludes. */
  lemma StagesAvoid(s: string, i: nat, e: Ends)
    requires i + |Heading| <= e.rest && e.rest + |AddedHead| <= e.added
    requires e.added + |ChangedHead| <= e.changed && e.changed + |FixedHead| <= e.fixed <= |s|
    requires Avoids(s, i + |Heading|, e.rest, '\n') && Avoids(s, e.rest + |AddedHead|, e.added, '#')
    requires Avoids(s, e.added + |ChangedHead|, e.changed, '#') && Avoids(s, e.changed + |FixedHead|, e.fixed, '#')
    ensures var c := CapturesOf(s, i, e);
      '\n' !in c.rest && '#' !in c.added && '#' !in c.changed && '#' !in c.fixed
  {
    var c := CapturesOf(s, i, e);
    AvoidsIsNotIn(s, i + |Heading|, c.rest, '\n');
    AvoidsIsNotIn(s, e.rest + |AddedHead|, c.added, '#');
    AvoidsIsNotIn(s, e.added + |ChangedHead|, c.changed, '#');
    AvoidsIsNotIn(s, e.changed + |FixedHead|, c.fixed, '#');
  }

  /** The parts the stages cut out, with the literals between them, span the
      text from `i`. */
  lemma StagesSpan(s: string, i: nat, e: Ends)
    requires i + |Heading| <= e.rest && e.rest + |AddedHead| <= e.added
    requires e.added + |ChangedHead| <= e.changed && e.changed + |FixedHead| <= e.fixed <= |s|
    requires HasAt(s, i, Heading) && HasAt(s, e.rest, AddedHead)
    requires HasAt(s, e.added, ChangedHead) && HasAt(s, e.changed, FixedHead)
    ensures HasAt(s, i, Spanned(CapturesOf(s, i, e)))
  {
    SpannedLayout(s, i, CapturesOf(s, i, e));
  }

  /** A match with parts `c` at `i`, taken apart into its eight pieces and the
      indices where they begin. */
  lemma SpannedLayout(s: string, i: nat, c: Captures)
    ensures HasAt(s, i, Spanned(c)) <==>
      var r0 := i + |Heading|;
      var r1 := r0 + |c.rest|;
      var a0 := r1 + |AddedHead|;
      var a1 := a0 + |c.added|;
      var c0 := a1 + |ChangedHead|;
      var c1 := c0 + |c.changed|;
      var f0 := c1 + |FixedHead|;
      HasAt(s, i, Heading) && HasAt(s, r0, c.rest) && HasAt(s, r1, AddedHead) &&
      HasAt(s, a0, c.added) && HasAt(s, a1, ChangedHead) && HasAt(s, c0, c.changed) &&
      HasAt(s, c1, FixedHead) && HasAt(s, f0, c.fixed)
  {
    SpannedFront(s, i, c);
    SpannedBack(s, i, c);
  }

  /** The front of a match: the heading line, `### Added` and the Added group. */
  lemma SpannedFront(s: string, i: nat, c: Captures)
    ensures var r0 := i + |Heading|;
      var r1 := r0 + |c.rest|;
      var a0 := r1 + |AddedHead|;
      HasAt(s, i, Heading + c.rest + AddedHead + c.added) <==>
      HasAt(s, i, Heading) && HasAt(s, r0, c.rest) && HasAt(s, r1, AddedHead) && HasAt(s, a0, c.added)
  {
    var p2 := Heading + c.rest;
    var p3 := p2 + AddedHead;
    HasAtConcat(s, i, p3, c.added);
    HasAtConcat(s, i, p2, AddedHead);
    HasAtConcat(s, i, Heading, c.rest);
  }

  /** The back of a match: the Changed and Fixed headings and groups after
      its front. */
  lemma SpannedBack(s: string, i: nat, c: Captures)
    ensures var a1 := i + |Heading| + |c.rest| + |AddedHead| + |c.added|;
      var c0 := a1 + |ChangedHead|;
      var c1 := c0 + |c.changed|;
      var f0 := c1 + |FixedHead|;
      HasAt(s, i, Spanned(c)) <==>
      HasAt(s, i, Heading + c.rest + AddedHead + c.added) && HasAt(s, a1, ChangedHead) &&
      HasAt(s, c0, c.changed) && HasAt(s, c1, FixedHead) && HasAt(s, f0, c.fixed)
  {
    var p4 := Heading + c.rest + AddedHead + c.added;
    var p5 := p4 + ChangedHead;
    var p6 := p5 + c.changed;
    var p7 := p6 + FixedHead;
    assert Spanned(c) == p7 + c.fixed;
    HasAtConcat(s, i, p7, c.fixed);
    HasAtConcat(s, i, p6, FixedHead);
    HasAtConcat(s, i, p5, c.changed);
    HasAtConcat(s, i, p4, ChangedHead);
  }

  /** A match with parts `c` at `i`: each piece in place, and each starred
      part avoiding its excluded character. */
  lemma MatchPieces(s: string, i: nat, c: Captures)
    requires MatchesAt(s, i, c)
    ensures var r0 := i + |Heading|;
      var r1 := r0 + |c.rest|;
      var a0 := r1 + |AddedHead|;
      var a1 := a0 + |c.added|;
      var c0 := a1 + |ChangedHead|;
      var c1 := c0 + |c.changed|;
      var f0 := c1 + |FixedHead|;
      var f1 := f0 + |c.fixed|;
      f1 <= |s| &&
      HasAt(s, i, Heading) && HasAt(s, r1, AddedHead) && HasAt(s, a1, ChangedHead) && HasAt(s, c1, FixedHead) &&
      s[r0..r1] == c.rest && s[a0..a1] == c.added && s[c0..c1] == c.changed && s[f0..f1] == c.fixed &&
      Avoids(s, r0, r1, '\n') && Avoids(s, a0, a1, '#') && Avoids(s, c0, c1, '#') && Avoids(s, f0, f1, '#')
  {
    SpannedLayout(s, i, c);
    var r0 := i + |Heading|;
    var r1 := r0 + |c.rest|;
    var a0 := r1 + |AddedHead|;
    var a1 := a0 + |c.added|;
    var c0 := a1 + |ChangedHead|;
    var c1 := c0 + |c.changed|;
    var f0 := c1 + |FixedHead|;
    AvoidsIsNotIn(s, r0, c.rest, '\n');
    AvoidsIsNotIn(s, a0, c.added, '#');
    AvoidsIsNotIn(s, c0, c.changed, '#');
    AvoidsIsNotIn(s, f0, c.fixed, '#');
  }

  /** Where the stages of the matcher stop on a match with parts `c`. */
  lemma StagesOfMatch(s: string, i: nat, c: Captures)
    requires MatchesAt(s, i, c)
    ensures var r1 := i + |Heading| + |c.rest|;
      var a1 := r1 + |AddedHead| + |c.added|;
      var c1 := a1 + |ChangedHead| + |c.changed|;
      var f1 := c1 + |FixedHead| + |c.fixed|;
      f1 <= |s| &&
      s[i + |Heading|..r1] == c.rest && s[r1 + |AddedHead|..a1] == c.added &&
      s[a1 + |ChangedHead|..c1] == c.changed && s[c1 + |FixedHead|..f1] == c.fixed &&
      MatchEnds(s, i).Some? &&
      var e := MatchEnds(s, i).value;
      e.rest == r1 && e.added == a1 && e.changed == c1 && f1 <= e.fixed
  {
    MatchPieces(s, i, c);
    var r1 := i + |Heading| + |c.rest|;
    var a1 := r1 + |AddedHead| + |c.added|;
    var c1 := a1 + |ChangedHead| + |c.changed|;
    var f1 := c1 + |FixedHead| + |c.fixed|;
    StageEnds(s, i, r1, a1, c1, f1);
  }

  /** Pieces in place, with the starred parts avoiding their excluded
      characters, are where the stages of the matcher stop. */
  lemma StageEnds(s: string, i: nat, r1: nat, a1: nat, c1: nat, f1: nat)
    requires HasAt(s, i, Heading) && i + |Heading| <= r1
    requires HasAt(s, r1, AddedHead) && Avoids(s, i + |Heading|, r1, '\n')
    requires r1 + |AddedHead| <= a1 && HasAt(s, a1, ChangedHead) && Avoids(s, r1 + |AddedHead|, a1, '#')
    requires a1 + |ChangedHead| <= c1 && HasAt(s, c1, FixedHead) && Avoids(s, a1 + |ChangedHead|, c1, '#')
    requires c1 + |FixedHead| <= f1 && Avoids(s, c1 + |FixedHead|, f1, '#')
    ensures i <= |s| && MatchEnds(s, i).Some?
    ensures var e := MatchEnds(s, i).value;
      e.rest == r1 && e.added == a1 && e.changed == c1 && f1 <= e.fixed
  {
    HeadingLineEndIs(s, i, r1);
    GroupStages(s, r1, a1, c1);
    EndsOfStages(s, i, r1, a1, c1);
    LastGroupEndLongest(s, c1 + |FixedHead|, f1);
  }

  /** The Added and Changed groups, in place and avoiding `#`, are where
      their stages stop. */
  lemma GroupStages(s: string, r1: nat, a1: nat, c1: nat)
    requires r1 + |AddedHead| <= a1 && HasAt(s, a1, ChangedHead) && Avoids(s, r1 + |AddedHead|, a1, '#')
    requires a1 + |ChangedHead| <= c1 && HasAt(s, c1, FixedHead) && Avoids(s, a1 + |ChangedHead|, c1, '#')
    ensures GroupEnd(s, r1 + |AddedHead|, ChangedHead) == Some(a1)
    ensures GroupEnd(s, a1 + |ChangedHead|, FixedHead) == Some(c1)
  {
    GroupEndIs(s, r1 + |AddedHead|, ChangedHead, a1);
    GroupEndIs(s, a1 + |ChangedHead|, FixedHead, c1);
  }

  /** Every match of the pattern at `i` is found by the matcher, which agrees
      with it on the first three parts and whose last group extends it. */
  lemma MatchAtComplete(s: string, i: nat, c: Captures)
    requires MatchesAt(s, i, c)
    ensures i <= |s| && MatchAt(s, i).Some?
    ensures var m := MatchAt(s, i).value;
      m.rest == c.rest && m.added == c.added && m.changed == c.changed &&
      |c.fixed| <= |m.fixed| && m.fixed[..|c.fixed|] == c.fixed
  {
    StagesOfMatch(s, i, c);
    var e := MatchEnds(s, i).value;
    MatchAtIs(s, i, e);
    CapturesAgree(s, i, e, c);
  }

  /** The matcher reads its captures off the ends its stages find. */
  lemma MatchAtIs(s: string, i: nat, e: Ends)
    requires i <= |s| && MatchEnds(s, i) == Some(e)
    ensures i + |Heading| <= e.rest && e.rest + |AddedHead| <= e.added
    ensures e.added + |ChangedHead| <= e.changed && e.changed + |FixedHead| <= e.fixed <= |s|
    ensures MatchAt(s, i) == Some(CapturesOf(s, i, e))
  {
    MatchEndsFacts(s, i, e);
  }

  /** Captures read off ends that agree with `c` on the first three parts,
      and reach at least as far in the last, agree with `c` as `MatchAtComplete`
      states. */
  lemma CapturesAgree(s: string, i: nat, e: Ends, c: Captures)
    requires var r1 := i + |Heading| + |c.rest|;
      var a1 := r1 + |AddedHead| + |c.added|;
      var c1 := a1 + |ChangedHead| + |c.changed|;
      var f1 := c1 + |FixedHead| + |c.fixed|;
      f1 <= |s| &&
      s[i + |Heading|..r1] == c.rest && s[r1 + |AddedHead|..a1] == c.added &&
      s[a1 + |ChangedHead|..c1] == c.changed && s[c1 + |FixedHead|..f1] == c.fixed &&
      e.rest == r1 && e.added == a1 && e.changed == c1 && f1 <= e.fixed <= |s|
    ensures var m := CapturesOf(s, i, e);
      m.rest == c.rest && m.added == c.added && m.changed == c.changed &&
      |c.fixed| <= |m.fixed| && m.fixed[..|c.fixed|] == c.fixed
  {
    var f0 := e.changed + |FixedHead|;
    assert s[f0..e.fixed][..|c.fixed|] == s[f0..f0 + |c.fixed|];
  }

  /** Two matches at the same start agree on the heading line and on the
      Added and Changed groups; their Fixed groups differ only in how far they
      reach, so the captures backtracking could report are determined by the
      start alone. */
  lemma MatchPartsDetermined(s: string, i: nat, c: Captures, d: Captures)
    requires MatchesAt(s, i, c) && MatchesAt(s, i, d)
    ensures c.rest == d.rest && c.added == d.added && c.changed == d.changed
    ensures |c.fixed| <= |d.fixed| ==> d.fixed[..|c.fixed|] == c.fixed
  {
    MatchAtComplete(s, i, c);
    MatchAtComplete(s, i, d);
    var m := MatchAt(s, i).value;
    if |c.fixed| <= |d.fixed| {
      assert d.fixed[..|c.fixed|] == m.fixed[..|d.fixed|][..|c.fixed|];
    }
  }

  /** The matcher finds nothing at `k` only if the pattern does not match there. */
  lemma NoMatchAt(s: string, k: nat)
    requires k <= |s| && MatchAt(s, k).None?
    ensures forall c :: !MatchesAt(s, k, c)
  {
    forall c | MatchesAt(s, k, c) ensures false {
      MatchAtComplete(s, k, c);
    }
  }

  /** What the matcher finds at `k` is the match at `k` backtracking tries first. */
  lemma FirstTriedAt(s: string, k: nat)
    requires k <= |s| && MatchAt(s, k).Some?
    ensures forall c :: MatchesAt(s, k, c) ==> TriedFirst(MatchAt(s, k).value, c)
  {
    forall c | MatchesAt(s, k, c) ensures TriedFirst(MatchAt(s, k).value, c) {
      MatchAtComplete(s, k, c);
    }
  }

  /** A match never starts past the end of the text. */
  lemma MatchStartBound(s: string, j: nat, c: Captures)
    requires MatchesAt(s, j, c)
    ensures j + |Heading| <= |s|
  {
    SpannedLayout(s, j, c);
  }

  /** `m` is the match reported by a search that starts trying at index `k`. */
  ghost predicate ReportedFrom(s: string, k: nat, m: Match)
  {
    k <= m.start && MatchesAt(s, m.start, m.groups) &&
    (forall j: nat, c :: k <= j < m.start ==> !MatchesAt(s, j, c)) &&
    (forall c :: MatchesAt(s, m.start, c) ==> TriedFirst(m.groups, c))
  }

  /** The search from index `k` onwards: try each start in turn, as the regular
      expression engine does, and stop at the first that matches. */
  function FirstMatchFrom(s: string, k: nat): (r: Option<Match>)
    requires k <= |s|
    ensures r.Some? ==> k <= r.value.start <= |s|
    decreases |s| - k
  {
    match MatchAt(s, k)
    case Some(c) => Some(Match(k, c))
    case None => if k == |s| then None else FirstMatchFrom(s, k + 1)
  }

  /** The search reports the first match at or after `k`, and reports nothing
      only when there is none. */
  lemma {:induction false} FirstMatchFromCorrect(s: string, k: nat)
    requires k <= |s|
    ensures var r := FirstMatchFrom(s, k);
      (r.Some? ==> ReportedFrom(s, k, r.value)) &&
      (r.None? ==> forall j: nat, c :: k <= j ==> !MatchesAt(s, j, c))
    decreases |s| - k
  {
    var r := FirstMatchFrom(s, k);
    match MatchAt(s, k)
    case Some(c) =>
      FirstTriedAt(s, k);
      assert r == Some(Match(k, c));
    case None =>
      NoMatchAt(s, k);
      if k == |s| {
        NoMatchPastEnd(s);
      } else {
        FirstMatchFromCorrect(s, k + 1);
        assert r == FirstMatchFrom(s, k + 1);
        if r.Some? {
          var m := r.value;
          forall j: nat, c | k <= j < m.start ensures !MatchesAt(s, j, c) {
            if j > k {
              assert k + 1 <= j < m.start;
            }
          }
        } else {
          forall j: nat, c | k <= j ensures !MatchesAt(s, j, c) {
            if j > k {
              assert k + 1 <= j;
            }
          }
        }
      }
  }

  /** The pattern is longer than the empty rest of the text at `|s|`. */
  lemma NoMatchPastEnd(s: string)
    ensures forall j: nat, c :: |s| <= j ==> !MatchesAt(s, j, c)
  {
    forall j: nat, c | |s| <= j && MatchesAt(s, j, c) ensures false {
      MatchStartBound(s, j, c);
    }
  }

  /** `s.match(pattern)`: the match the regular expression engine reports,
      or nothing exactly when the pattern matches nowhere in `s`. */
  function FindUnreleased(s: string): (r: Option<Match>)
    ensures r.Some? ==> IsReportedMatch(s, r.value)
    ensures r.None? <==> forall i: nat, c :: !MatchesAt(s, i, c)
  {
    FirstMatchFromCorrect(s, 0);
    FirstMatchFrom(s, 0)
  }

  /** There is at most one reported match, so it is the one `FindUnreleased`
      returns. */
  lemma ReportedMatchUnique(s: string, m: Match, n: Match)
    requires IsReportedMatch(s, m) && IsReportedMatch(s, n)
    ensures m == n
  {
    assert m.start == n.start;
    MatchPartsDetermined(s, m.start, m.groups, n.groups);
    assert TriedFirst(m.groups, n.groups) && TriedFirst(n.groups, m.groups);
    assert |m.groups.fixed| == |n.groups.fixed|;
    assert n.groups.fixed[..|m.groups.fixed|] == n.groups.fixed;
  }

  /** `FindUnreleased` returns exactly the reported match. */
  lemma FindUnreleasedIsReported(s: string)
    ensures forall m :: IsReportedMatch(s, m) <==> FindUnreleased(s) == Some(m)
  {
    forall m | IsReportedMatch(s, m) ensures FindUnreleased(s) == Some(m) {
      ReportedMatchUnique(s, m, FindUnreleased(s).value);
    }
  }

  /** A match that no earlier match precedes, and whose Fixed group runs up
      to a `#` or to the end of the text, is the one reported: backtracking
      cannot extend its last group. */
  lemma FullMatchIsReported(s: string, i: nat, c: Captures)
    requires MatchesAt(s, i, c)
    requires forall j: nat, d :: j < i ==> !MatchesAt(s, j, d)
    requires i + |Spanned(c)| < |s| ==> s[i + |Spanned(c)|] == '#'
    ensures FindUnreleased(s) == Some(Match(i, c))
  {
    forall d | MatchesAt(s, i, d) ensures TriedFirst(c, d) {
      MatchPartsDetermined(s, i, c, d);
      if |d.fixed| > |c.fixed| {
        MatchPieces(s, i, d);
      }
    }
    FindUnreleasedIsReported(s);
  }

  /** `### Added` directly followed by `### Changed`, with no line between
      them, can never match: the line feed that ends `### Added` is not free to
      also begin `\n### Changed`. */
  lemma AbuttingHeadingsNeverMatch(s: string, i: nat, rest: string)
    requires '\n' !in rest
    requires HasAt(s, i, Heading + rest + "\n\n### Added\n### Changed\n")
    ensures forall c :: !MatchesAt(s, i, c)
  {
    AbuttingLayout(s, i, rest);
    forall c ensures !MatchesAt(s, i, c) {
      AddedGroupStart(s, i, c);
    }
  }

  /** The heading line of such a text ends before `### Added`, and a `#`
      comes right after that line. */
  lemma AbuttingLayout(s: string, i: nat, rest: string)
    requires '\n' !in rest
    requires HasAt(s, i, Heading + rest + "\n\n### Added\n### Changed\n")
    ensures var e := i + |Heading| + |rest|;
      i <= |s| && HeadingLineEnd(s, i) == Some(e) && e + |AddedHead| < |s| && s[e + |AddedHead|] == '#'
  {
    var r0 := i + |Heading|;
    var a0 := r0 + |rest| + |AddedHead|;
    assert Heading + rest + "\n\n### Added\n### Changed\n" == ((Heading + rest) + AddedHead) + "### Changed\n";
    HasAtConcat(s, i, (Heading + rest) + AddedHead, "### Changed\n");
    HasAtConcat(s, i, Heading + rest, AddedHead);
    HasAtConcat(s, i, Heading, rest);
    AvoidsIsNotIn(s, r0, rest, '\n');
    HeadingLineEndIs(s, i, r0 + |rest|);
    HasAtChar(s, a0, "### Changed\n", 0);
  }

  /** In a match, the heading line ends where its rest does, and the
      character after `### Added` and its line feed is not `#`: it begins
      the Added group, or `\n### Changed` when that group is empty. */
  lemma AddedGroupStart(s: string, i: nat, c: Captures)
    ensures MatchesAt(s, i, c) ==>
      var a0 := i + |Heading| + |c.rest| + |AddedHead|;
      i <= |s| && HeadingLineEnd(s, i) == Some(i + |Heading| + |c.rest|) && a0 < |s| && s[a0] != '#'
  {
    if MatchesAt(s, i, c) {
      SpannedLayout(s, i, c);
      var r0 := i + |Heading|;
      var r1 := r0 + |c.rest|;
      var a0 := r1 + |AddedHead|;
      AvoidsIsNotIn(s, r0, c.rest, '\n');
      HeadingLineEndIs(s, i, r1);
      AddedFirst(s, a0, c.added);
    }
  }

  /** The first character of a group that avoids `#` and is followed by
      `\n### Changed` is not `#`. */
  lemma AddedFirst(s: string, a0: nat, added: string)
    requires '#' !in added && HasAt(s, a0, added) && HasAt(s, a0 + |added|, ChangedHead)
    ensures a0 < |s| && s[a0] != '#'
  {
    if added == [] {
      HasAtChar(s, a0, ChangedHead, 0);
    } else {
      HasAtChar(s, a0, added, 0);
    }
  }

  /** A `#` inside the Added text breaks the match at that heading unless it
      is the `#` of `\n### Changed\n`: the Added group cannot reach past it.
      This covers the `#` of `- fix #12` and a line such as `#### Notes`
      alike. With nothing between `### Added` and the `#`, this is the
      abutting case above. */
  lemma HashInAddedBreaksMatch(s: string, i: nat, rest: string, x: string)
    requires '\n' !in rest && '#' !in x
    requires x == [] || !HasAt(s, i + |Heading| + |rest| + |AddedHead| + |x| - 1, ChangedHead)
    requires HasAt(s, i, Heading + rest + AddedHead + x + "#")
    ensures forall c :: !MatchesAt(s, i, c)
  {
    var r0 := i + |Heading|;
    var r1 := r0 + |rest|;
    var a0 := r1 + |AddedHead|;
    HasAtConcat(s, i, Heading + rest + AddedHead + x, "#");
    HasAtConcat(s, i, Heading + rest + AddedHead, x);
    HasAtConcat(s, i, Heading + rest, AddedHead);
    HasAtConcat(s, i, Heading, rest);
    AvoidsIsNotIn(s, r0, rest, '\n');
    HeadingLineEndIs(s, i, r1);
    GroupBroken(s, a0, x, ChangedHead);
    NoMatchAfterHeading(s, i, r1);
    NoMatchAt(s, i);
  }

  /** The same for a `#` inside the Changed text that is not the `#` of
      `\n### Fixed\n`: the Added group ends before `\n### Changed`, and the
      Changed group then cannot reach `\n### Fixed`. */
  lemma HashInChangedBreaksMatch(s: string, i: nat, rest: string, a: string, x: string)
    requires '\n' !in rest && '#' !in a && '#' !in x
    requires x == [] || !HasAt(s, i + |Heading| + |rest| + |AddedHead| + |a| + |ChangedHead| + |x| - 1, FixedHead)
    requires HasAt(s, i, Heading + rest + AddedHead + a + ChangedHead + x + "#")
    ensures forall c :: !MatchesAt(s, i, c)
  {
    var r1 := i + |Heading| + |rest|;
    ChangedHashLayout(s, i, rest, a, x);
    ChangedHashNoMatch(s, i, r1, r1 + |AddedHead| + |a|, x);
    NoMatchAt(s, i);
  }

  /** The matcher's stages at a heading whose Changed text runs into a `#`. */
  lemma ChangedHashNoMatch(s: string, i: nat, r1: nat, a1: nat, x: string)
    requires HasAt(s, i, Heading) && i + |Heading| <= r1 && Avoids(s, i + |Heading|, r1, '\n')
    requires HasAt(s, r1, AddedHead) && r1 + |AddedHead| <= a1
    requires Avoids(s, r1 + |AddedHead|, a1, '#') && HasAt(s, a1, ChangedHead)
    requires '#' !in x && (x == [] || !HasAt(s, a1 + |ChangedHead| + |x| - 1, FixedHead))
    requires HasAt(s, a1 + |ChangedHead|, x) && HasAt(s, a1 + |ChangedHead| + |x|, "#")
    ensures i <= |s| && MatchAt(s, i).None?
  {
    HeadingLineEndIs(s, i, r1);
    GroupEndIs(s, r1 + |AddedHead|, ChangedHead, a1);
    GroupBroken(s, a1 + |ChangedHead|, x, FixedHead);
    NoMatchAfterAdded(s, i, r1, a1);
  }

  /** The pieces of a heading whose Changed text runs into a `#`. */
  lemma ChangedHashLayout(s: string, i: nat, rest: string, a: string, x: string)
    requires '\n' !in rest && '#' !in a
    requires HasAt(s, i, Heading + rest + AddedHead + a + ChangedHead + x + "#")
    ensures HasAt(s, i, Heading) && Avoids(s, i + |Heading|, i + |Heading| + |rest|, '\n')
    ensures HasAt(s, i + |Heading| + |rest|, AddedHead)
    ensures Avoids(s, i + |Heading| + |rest| + |AddedHead|, i + |Heading| + |rest| + |AddedHead| + |a|, '#')
    ensures HasAt(s, i + |Heading| + |rest| + |AddedHead| + |a|, ChangedHead)
    ensures HasAt(s, i + |Heading| + |rest| + |AddedHead| + |a| + |ChangedHead|, x)
    ensures HasAt(s, i + |Heading| + |rest| + |AddedHead| + |a| + |ChangedHead| + |x|, "#")
  {
    var p4 := Heading + rest + AddedHead + a;
    HasAtConcat(s, i, p4 + ChangedHead + x, "#");
    HasAtConcat(s, i, p4 + ChangedHead, x);
    HasAtConcat(s, i, p4, ChangedHead);
    SpannedFront(s, i, Captures(rest, a, x, ""));
    AvoidsIsNotIn(s, i + |Heading|, rest, '\n');
    AvoidsIsNotIn(s, i + |Heading| + |rest| + |AddedHead|, a, '#');
  }

  /** A group that meets a `#` cannot be followed by `next`, which begins
      with a line feed and a `#`, unless that `#` is the one `next` begins
      with. */
  lemma GroupBroken(s: string, k: nat, x: string, next: string)
    requires '#' !in x && (x == [] || !HasAt(s, k + |x| - 1, next))
    requires HasAt(s, k, x) && HasAt(s, k + |x|, "#")
    requires |next| >= 2 && next[0] == '\n' && next[1] == '#'
    ensures k <= |s| && GroupEnd(s, k, next) == None
  {
    var h := k + |x|;
    AvoidsIsNotIn(s, k, x, '#');
    HasAtChar(s, h, "#", 0);
    IndexOfFromIs(s, k, '#', h);
  }

  /** The matcher finds nothing when the Added group cannot end. */
  lemma NoMatchAfterHeading(s: string, i: nat, r1: nat)
    requires i <= |s| && HeadingLineEnd(s, i) == Some(r1)
    requires r1 + |AddedHead| <= |s| && GroupEnd(s, r1 + |AddedHead|, ChangedHead) == None
    ensures MatchAt(s, i).None?
  {
  }

  /** The matcher finds nothing when the Changed group cannot end. */
  lemma NoMatchAfterAdded(s: string, i: nat, r1: nat, a1: nat)
    requires i <= |s| && HeadingLineEnd(s, i) == Some(r1)
    requires r1 + |AddedHead| <= |s| && GroupEnd(s, r1 + |AddedHead|, ChangedHead) == Some(a1)
    requires a1 + |ChangedHead| <= |s| && GroupEnd(s, a1 + |ChangedHead|, FixedHead) == None
    ensures MatchAt(s, i).None?
  {
    assert EndsAfterAdded(s, r1, a1) == None;
  }

  /** Every match starts with the Unreleased heading. */
  lemma MatchStartsWithHeading(s: string, j: nat, c: Captures)
    ensures MatchesAt(s, j, c) ==> HasAt(s, j, Heading)
  {
    if MatchesAt(s, j, c) {
      SpannedLayout(s, j, c);
    }
  }
}
