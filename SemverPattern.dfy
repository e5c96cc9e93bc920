/** The pattern `## \[\d+\.\d+\.\d+\]` that the semantic-version rule tests
    for (index.js:61), written out as an explicit matcher. */
module SemverPattern {
  import opened Text

  /** The three digit runs of a version heading such as `## [1.0.0]`. */
  datatype Version = Version(major: string, minor: string, patch: string)

  /** `\d+`: one or more digits. */
  ghost predicate IsDigits(d: string)
  {
    |d| > 0 && forall k :: 0 <= k < |d| ==> IsDigit(d[k])
  }

  /** The text of the version heading for `v`. */
  function VersionHeading(v: Version): string
  {
    "## [" + v.major + "." + v.minor + "." + v.patch + "]"
  }

  /** The pattern matches at `i` with digit runs `v`. */
  ghost predicate VersionHeadingAt(s: string, i: nat, v: Version)
  {
    IsDigits(v.major) && IsDigits(v.minor) && IsDigits(v.patch) && HasAt(s, i, VersionHeading(v))
  }

  /** A nonempty run of digits starts at `k`, and the character `c` follows it. */
  predicate DigitsThen(s: string, k: nat, c: char)
    requires k <= |s|
  {
    var d := SkipDigits(s, k);
    d > k && d < |s| && s[d] == c
  }

  /** The matcher at a single start index. A shorter digit run than the one
      `SkipDigits` finds would be followed by a digit rather than by `.` or
      `]`, so the greedy `\d+` never needs to backtrack. */
  predicate VersionHeadingMatchAt(s: string, i: nat)
    requires i <= |s|
  {
    HasAt(s, i, "## [") && DigitsThen(s, i + 4, '.') &&
    var d1 := SkipDigits(s, i + 4);
    DigitsThen(s, d1 + 1, '.') &&
    var d2 := SkipDigits(s, d1 + 1);
    DigitsThen(s, d2 + 1, ']')
  }

  /** What `DigitsThen` checks, as a digit run in place and the character after it. */
  lemma DigitsThenPiece(s: string, k: nat, c: char)
    requires k <= |s| && DigitsThen(s, k, c)
    ensures var e := SkipDigits(s, k);
      k < e < |s| && IsDigits(s[k..e]) && HasAt(s, k, s[k..e]) && HasAt(s, e, [c])
  {
    DigitRun(s, k);
    CharAt(s, SkipDigits(s, k), c);
  }

  /** A digit run in place, ending at `e` and followed by a non-digit `c`,
      passes `DigitsThen`. */
  lemma DigitsThenOf(s: string, k: nat, d: string, e: nat, c: char)
    requires IsDigits(d) && HasAt(s, k, d) && e == k + |d| && e < |s| && s[e] == c && !IsDigit(c)
    ensures k <= |s| && e + 1 <= |s| && DigitsThen(s, k, c) && SkipDigits(s, k) == e
  {
    DigitsEnd(s, k, d);
  }

  /** A version heading with parts `v` at `i`, taken apart. */
  lemma VersionHeadingLayout(s: string, i: nat, v: Version)
    ensures HasAt(s, i, VersionHeading(v)) <==>
      var d1 := i + 4 + |v.major|;
      var d2 := d1 + 1 + |v.minor|;
      var d3 := d2 + 1 + |v.patch|;
      HasAt(s, i, "## [") && HasAt(s, i + 4, v.major) && HasAt(s, d1, ".") &&
      HasAt(s, d1 + 1, v.minor) && HasAt(s, d2, ".") && HasAt(s, d2 + 1, v.patch) && HasAt(s, d3, "]")
  {
    FrontLayout(s, i, v);
    BackLayout(s, i, v);
  }

  /** The front of a version heading: `## [`, the major run and a dot. */
  lemma FrontLayout(s: string, i: nat, v: Version)
    ensures HasAt(s, i, "## [" + v.major + ".") <==>
      HasAt(s, i, "## [") && HasAt(s, i + 4, v.major) && HasAt(s, i + 4 + |v.major|, ".")
  {
    HasAtConcat(s, i, "## [" + v.major, ".");
    HasAtConcat(s, i, "## [", v.major);
  }

  /** The rest of a version heading after its front. */
  lemma BackLayout(s: string, i: nat, v: Version)
    ensures var d1 := i + 4 + |v.major|;
      var d2 := d1 + 1 + |v.minor|;
      HasAt(s, i, VersionHeading(v)) <==>
      HasAt(s, i, "## [" + v.major + ".") && HasAt(s, d1 + 1, v.minor) && HasAt(s, d2, ".") &&
      HasAt(s, d2 + 1, v.patch) && HasAt(s, d2 + 1 + |v.patch|, "]")
  {
    var p3 := "## [" + v.major + ".";
    var p4 := p3 + v.minor;
    var p5 := p4 + ".";
    var p6 := p5 + v.patch;
    assert VersionHeading(v) == p6 + "]";
    HasAtConcat(s, i, p6, "]");
    HasAtConcat(s, i, p5, v.patch);
    HasAtConcat(s, i, p4, ".");
    HasAtConcat(s, i, p3, v.minor);
  }

  /** What `SkipDigits` passes over is a run of digits, and it sits where it
      was found. */
  lemma DigitRun(s: string, k: nat)
    requires k <= |s| && k < SkipDigits(s, k)
    ensures IsDigits(s[k..SkipDigits(s, k)]) && HasAt(s, k, s[k..SkipDigits(s, k)])
  {
    var e := SkipDigits(s, k);
    forall j | 0 <= j < e - k ensures IsDigit(s[k..e][j]) {
      assert s[k..e][j] == s[k + j];
    }
  }

  /** A single character is an occurrence of itself. */
  lemma CharAt(s: string, k: nat, c: char)
    requires k < |s| && s[k] == c
    ensures HasAt(s, k, [c])
  {
    assert s[k..k + 1] == [s[k]];
  }

  /** The digit run `d` sits at `k` and is followed by a non-digit. */
  lemma DigitsEnd(s: string, k: nat, d: string)
    requires IsDigits(d) && HasAt(s, k, d) && k + |d| < |s| && !IsDigit(s[k + |d|])
    ensures SkipDigits(s, k) == k + |d|
  {
    forall j | k <= j < k + |d| ensures IsDigit(s[j]) {
      assert s[j] == s[k..k + |d|][j - k];
    }
    SkipDigitsIs(s, k, k + |d|);
  }

  /** The matcher agrees with the pattern at every start index. */
  lemma VersionHeadingMatchAtCorrect(s: string, i: nat)
    requires i <= |s|
    ensures VersionHeadingMatchAt(s, i) <==> exists v :: VersionHeadingAt(s, i, v)
  {
    if VersionHeadingMatchAt(s, i) {
      var v := MatchedVersion(s, i);
      assert VersionHeadingAt(s, i, v);
    }
    if v :| VersionHeadingAt(s, i, v) {
      HeadingIsMatched(s, i, v);
    }
  }

  /** What the matcher finds at `i` is a version heading. */
  lemma MatchedVersion(s: string, i: nat) returns (v: Version)
    requires i <= |s| && VersionHeadingMatchAt(s, i)
    ensures VersionHeadingAt(s, i, v)
  {
    var d1 := SkipDigits(s, i + 4);
    var d2 := SkipDigits(s, d1 + 1);
    var d3 := SkipDigits(s, d2 + 1);
    DigitsThenPiece(s, i + 4, '.');
    DigitsThenPiece(s, d1 + 1, '.');
    DigitsThenPiece(s, d2 + 1, ']');
    v := Version(s[i + 4..d1], s[d1 + 1..d2], s[d2 + 1..d3]);
    VersionAssembled(s, i, v, d1, d2, d3);
  }

  /** Pieces in place add up to a version heading. */
  lemma VersionAssembled(s: string, i: nat, v: Version, d1: nat, d2: nat, d3: nat)
    requires IsDigits(v.major) && IsDigits(v.minor) && IsDigits(v.patch)
    requires d1 == i + 4 + |v.major| && d2 == d1 + 1 + |v.minor| && d3 == d2 + 1 + |v.patch|
    requires HasAt(s, i, "## [") && HasAt(s, d1, ".") && HasAt(s, d2, ".") && HasAt(s, d3, "]")
    requires HasAt(s, i + 4, v.major) && HasAt(s, d1 + 1, v.minor) && HasAt(s, d2 + 1, v.patch)
    ensures VersionHeadingAt(s, i, v)
  {
    VersionHeadingLayout(s, i, v);
  }

  /** Every version heading at `i` is found by the matcher. */
  lemma HeadingIsMatched(s: string, i: nat, v: Version)
    requires VersionHeadingAt(s, i, v)
    ensures i <= |s| && VersionHeadingMatchAt(s, i)
  {
    VersionHeadingLayout(s, i, v);
    var d1 := i + 4 + |v.major|;
    var d2 := d1 + 1 + |v.minor|;
    var d3 := d2 + 1 + |v.patch|;
    HasAtChar(s, d1, ".", 0);
    HasAtChar(s, d2, ".", 0);
    HasAtChar(s, d3, "]", 0);
    HeadingStops(s, i, v, d1, d2, d3);
  }

  /** The digit scans over a version heading at `i` stop at its dots and its
      closing bracket. */
  lemma HeadingStops(s: string, i: nat, v: Version, d1: nat, d2: nat, d3: nat)
    requires IsDigits(v.major) && IsDigits(v.minor) && IsDigits(v.patch)
    requires d1 == i + 4 + |v.major| && d2 == d1 + 1 + |v.minor| && d3 == d2 + 1 + |v.patch|
    requires HasAt(s, i, "## [") && d3 < |s| && s[d1] == '.' && s[d2] == '.' && s[d3] == ']'
    requires HasAt(s, i + 4, v.major) && HasAt(s, d1 + 1, v.minor) && HasAt(s, d2 + 1, v.patch)
    ensures i <= |s| && VersionHeadingMatchAt(s, i)
  {
    DigitsThenOf(s, i + 4, v.major, d1, '.');
    DigitsThenOf(s, d1 + 1, v.minor, d2, '.');
    DigitsThenOf(s, d2 + 1, v.patch, d3, ']');
    RunsMatch(s, i, d1, d2);
  }

  /** Three digit runs in a row, as the matcher scans them, make a match. */
  lemma RunsMatch(s: string, i: nat, d1: nat, d2: nat)
    requires i + 4 <= |s| && HasAt(s, i, "## [")
    requires DigitsThen(s, i + 4, '.') && SkipDigits(s, i + 4) == d1
    requires d1 + 1 <= |s| && DigitsThen(s, d1 + 1, '.') && SkipDigits(s, d1 + 1) == d2
    requires d2 + 1 <= |s| && DigitsThen(s, d2 + 1, ']')
    ensures VersionHeadingMatchAt(s, i)
  {
  }

  /** The search from start index `k` onwards. */
  function HasVersionHeadingFrom(s: string, k: nat): (r: bool)
    requires k <= |s|
    ensures r <==> exists i: nat, v :: k <= i && VersionHeadingAt(s, i, v)
    decreases |s| - k
  {
    VersionHeadingMatchAtCorrect(s, k);
    if VersionHeadingMatchAt(s, k) then true
    else if k == |s| then
      NoVersionHeadingAtEnd(s);
      false
    else
      HasVersionHeadingFrom(s, k + 1)
  }

  /** No version heading starts at the end of the text. */
  lemma NoVersionHeadingAtEnd(s: string)
    ensures forall i: nat, v :: |s| <= i ==> !VersionHeadingAt(s, i, v)
  {
  }

  /** `/## \[\d+\.\d+\.\d+\]/.test(s)`: some version heading occurs in `s`. */
  function HasVersionHeading(s: string): (r: bool)
    ensures r <==> exists i: nat, v :: VersionHeadingAt(s, i, v)
  {
    HasVersionHeadingFrom(s, 0)
  }

  /** A version heading counts wherever it stands, even in the middle of a
      line or inside a longer heading. */
  lemma {:induction false} VersionHeadingAnywhere(x: string, v: Version, y: string)
    requires IsDigits(v.major) && IsDigits(v.minor) && IsDigits(v.patch)
    ensures HasVersionHeading(x + VersionHeading(v) + y)
  {
    var s := x + VersionHeading(v) + y;
    assert s[|x|..|x| + |VersionHeading(v)|] == VersionHeading(v);
    assert VersionHeadingAt(s, |x|, v);
  }
}
