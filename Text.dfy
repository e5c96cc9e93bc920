/** Character-level scans over strings: the building blocks of the two
    hand-coded patterns, of `String.prototype.includes` and of
    `String.prototype.trim`. */
module Text {

  /** `p` occurs in `s` starting at index `i`. */
  predicate HasAt(s: string, i: nat, p: string)
  {
    i + |p| <= |s| && s[i..i + |p|] == p
  }

  /** `HasAt` of a concatenation is `HasAt` of its two halves. */
  lemma HasAtConcat(s: string, i: nat, p: string, q: string)
    ensures HasAt(s, i, p + q) <==> HasAt(s, i, p) && HasAt(s, i + |p|, q)
  {
    if HasAt(s, i, p) && HasAt(s, i + |p|, q) {
      assert s[i..i + |p + q|] == s[i..i + |p|] + s[i + |p|..i + |p| + |q|];
    }
    if HasAt(s, i, p + q) {
      assert s[i..i + |p|] == (p + q)[..|p|];
      assert s[i + |p|..i + |p| + |q|] == (p + q)[|p|..];
    }
  }

  /** An occurrence stays where it is when more text follows. */
  lemma HasAtExtend(x: string, i: nat, p: string, y: string)
    requires HasAt(x, i, p)
    ensures HasAt(x + y, i, p)
  {
    assert (x + y)[i..i + |p|] == x[i..i + |p|];
  }

  /** Each character of an occurrence is in its place. */
  lemma HasAtChar(s: string, k: nat, p: string, m: nat)
    requires HasAt(s, k, p) && m < |p|
    ensures s[k + m] == p[m]
  {
    assert s[k..k + |p|][m] == s[k + m];
  }

  /** The first index at or after `k` that holds `c`, or `|s|` when there is none. */
  function IndexOfFrom(s: string, k: nat, c: char): (r: nat)
    requires k <= |s|
    ensures k <= r <= |s|
    ensures r < |s| ==> s[r] == c
    ensures forall j :: k <= j < r ==> s[j] != c
    decreases |s| - k
  {
    if k == |s| || s[k] == c then k else IndexOfFrom(s, k + 1, c)
  }

  /** The scan stops exactly at the first occurrence of `c`. */
  lemma IndexOfFromIs(s: string, k: nat, c: char, p: nat)
    requires k <= p <= |s|
    requires p < |s| ==> s[p] == c
    requires forall j :: k <= j < p ==> s[j] != c
    ensures IndexOfFrom(s, k, c) == p
  {
  }

  /** `\d` of a JavaScript regular expression, without the `u` flag. */
  predicate IsDigit(c: char)
  {
    '0' <= c <= '9'
  }

  /** The first index at or after `k` that does not hold a digit, or `|s|`. */
  function SkipDigits(s: string, k: nat): (r: nat)
    requires k <= |s|
    ensures k <= r <= |s|
    ensures r < |s| ==> !IsDigit(s[r])
    ensures forall j :: k <= j < r ==> IsDigit(s[j])
    decreases |s| - k
  {
    if k == |s| || !IsDigit(s[k]) then k else SkipDigits(s, k + 1)
  }

  /** The digit scan stops exactly at the first non-digit. */
  lemma SkipDigitsIs(s: string, k: nat, p: nat)
    requires k <= p <= |s|
    requires p < |s| ==> !IsDigit(s[p])
    requires forall j :: k <= j < p ==> IsDigit(s[j])
    ensures SkipDigits(s, k) == p
  {
  }

  /** `String.prototype.includes` restricted to start positions at or after `k`. */
  function IncludesFrom(s: string, p: string, k: nat): (r: bool)
    ensures r <==> exists i: nat :: k <= i && HasAt(s, i, p)
    decreases |s| + 1 - k
  {
    if k + |p| > |s| then false
    else if s[k..k + |p|] == p then assert HasAt(s, k, p); true
    else IncludesFrom(s, p, k + 1)
  }

  /** `s.includes(p)`: `p` occurs somewhere in `s`. */
  function Includes(s: string, p: string): (r: bool)
    ensures r <==> exists i: nat :: HasAt(s, i, p)
  {
    IncludesFrom(s, p, 0)
  }

  /** An occurrence anywhere counts, whatever surrounds it. */
  lemma {:induction false} IncludesInfix(x: string, p: string, y: string)
    ensures Includes(x + p + y, p)
  {
    var s := x + p + y;
    assert s[|x|..|x| + |p|] == p;
    assert HasAt(s, |x|, p);
  }

  /** The white space that the model's `trim` removes: space, tab, line feed,
      carriage return, vertical tab and form feed. */
  predicate IsWhitespace(c: char)
  {
    c == ' ' || c == '\t' || c == '\n' || c == '\r' || c == '\U{000B}' || c == '\U{000C}'
  }

  /** Every character of `s` is white space. */
  ghost predicate IsBlank(s: string)
  {
    forall k :: 0 <= k < |s| ==> IsWhitespace(s[k])
  }

  /** The first index at or after `k` that does not hold white space, or `|s|`. */
  function SkipBlank(s: string, k: nat): (r: nat)
    requires k <= |s|
    ensures k <= r <= |s|
    ensures r < |s| ==> !IsWhitespace(s[r])
    ensures forall j :: k <= j < r ==> IsWhitespace(s[j])
    decreases |s| - k
  {
    if k == |s| || !IsWhitespace(s[k]) then k else SkipBlank(s, k + 1)
  }

  /** The index just past the last character of `s[lo..e]` that is not white
      space, or `lo` when there is none. */
  function BackBlank(s: string, lo: nat, e: nat): (r: nat)
    requires lo <= e <= |s|
    ensures lo <= r <= e
    ensures lo < r ==> !IsWhitespace(s[r - 1])
    ensures forall j :: r <= j < e ==> IsWhitespace(s[j])
    decreases e
  {
    if e == lo || !IsWhitespace(s[e - 1]) then e else BackBlank(s, lo, e - 1)
  }

  /** `r` sits in `s` at `a` and everything of `s` outside it is white space. */
  ghost predicate SurroundedByBlank(s: string, a: nat, r: string)
  {
    a + |r| <= |s| && (forall m {:trigger r[m]} :: 0 <= m < |r| ==> s[a + m] == r[m]) &&
    (forall k :: 0 <= k < a ==> IsWhitespace(s[k])) &&
    (forall k :: a + |r| <= k < |s| ==> IsWhitespace(s[k]))
  }

  /** `s.trim()`: the middle of `s` between its leading and its trailing white
      space; it is empty exactly when `s` is blank. */
  function Trim(s: string): (r: string)
    ensures r == [] <==> IsBlank(s)
    ensures exists a: nat :: SurroundedByBlank(s, a, r)
    ensures r != [] ==> !IsWhitespace(r[0]) && !IsWhitespace(r[|r| - 1])
  {
    var a := SkipBlank(s, 0);
    var b := BackBlank(s, a, |s|);
    TrimLayout(s, a, b);
    s[a..b]
  }

  /** How the two scans carve up `s`. */
  lemma TrimLayout(s: string, a: nat, b: nat)
    requires a == SkipBlank(s, 0) && b == BackBlank(s, a, |s|)
    ensures SurroundedByBlank(s, a, s[a..b]) && (a == b <==> IsBlank(s))
  {
    var r := s[a..b];
    forall m | 0 <= m < |r| ensures s[a + m] == r[m] {
    }
    if a < b {
      assert !IsWhitespace(s[a]);
    }
  }
}
