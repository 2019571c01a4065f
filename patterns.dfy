/**
 * The two fixed regular expressions that cartography/intel/oci/objectStorage.py
 * runs with `re.search`, written out as scanners, and the lowercasing it
 * compares bucket names with.
 *
 * Both patterns have the shape `literal (C+) t` with a capture group around
 * the run, where the terminator `t` is not in the class `C`:
 *   target\.bucket\.name='([^']+)'    literal `target.bucket.name='`, C = not `'`, t = `'`
 *   \.oc1\.([a-zA-Z0-9\-]+)\.          literal `.oc1.`, C = [a-zA-Z0-9-], t = `.`
 * Because `t` is not in `C`, backtracking cannot help: at a given start the
 * pattern matches iff the maximal run of `C` after the literal is non-empty
 * and followed by `t`. `re.search` reports the match at the leftmost start.
 */
module Patterns {

  import opened Graph

  datatype CharClass = NonApostrophe | RegionChar

  predicate InClass(c: CharClass, ch: char) {
    match c
    case NonApostrophe => ch != '\''
    case RegionChar => ('a' <= ch <= 'z') || ('A' <= ch <= 'Z') || ('0' <= ch <= '9') || ch == '-'
  }

  datatype Pattern = Pattern(lit: string, cls: CharClass, term: char)

  /** `target\.bucket\.name='([^']+)'` */
  const BUCKET_NAME: Pattern := Pattern("target.bucket.name='", NonApostrophe, '\'')

  /** `\.oc1\.([a-zA-Z0-9\-]+)\.` */
  const REGION_CODE: Pattern := Pattern(".oc1.", RegionChar, '.')

  predicate WellFormed(p: Pattern) {
    !InClass(p.cls, p.term)
  }

  lemma BothPatternsWellFormed()
    ensures WellFormed(BUCKET_NAME) && WellFormed(REGION_CODE)
  {
  }

  /**
   * What the regular expression means at start position `i`: `s` holds the
   * literal at `i`, then the group `g` (non-empty, all in the class), then the
   * terminator.
   */
  predicate MatchesAt(p: Pattern, s: string, i: nat, g: string) {
    var m := i + |p.lit|;
    && m + |g| < |s|
    && s[i..m] == p.lit
    && |g| > 0
    && s[m..m + |g|] == g
    && (forall k :: 0 <= k < |g| ==> InClass(p.cls, g[k]))
    && s[m + |g|] == p.term
  }

  /** End of the maximal run of class `c` that starts at `j`. */
  function RunEnd(s: string, j: nat, c: CharClass): (e: nat)
    requires j <= |s|
    ensures j <= e <= |s|
    ensures forall k :: j <= k < e ==> InClass(c, s[k])
    ensures e < |s| ==> !InClass(c, s[e])
    decreases |s| - j
  {
    if j < |s| && InClass(c, s[j]) then RunEnd(s, j + 1, c) else j
  }

  /** The scanner at one start position: the literal, the maximal run, the terminator. */
  function CaptureAt(p: Pattern, s: string, i: nat): Option<string>
    requires i <= |s|
  {
    var m := i + |p.lit|;
    if m <= |s| && s[i..m] == p.lit then
      var e := RunEnd(s, m, p.cls);
      if m < e < |s| && s[e] == p.term then Some(s[m..e]) else None
    else None
  }

  /** The scanner captures exactly the group of the regular expression at that position. */
  lemma CaptureAtMatches(p: Pattern, s: string, i: nat, g: string)
    requires WellFormed(p) && i <= |s|
    ensures CaptureAt(p, s, i) == Some(g) <==> MatchesAt(p, s, i, g)
  {
    var m := i + |p.lit|;
    if MatchesAt(p, s, i, g) {
      var e := RunEnd(s, m, p.cls);
      forall k | m <= k < m + |g|
        ensures InClass(p.cls, s[k])
      {
        assert s[k] == g[k - m];
      }
      assert e == m + |g|;
    }
  }

  /** `re.search` from position `i` on: the first position where the scanner captures. */
  function SearchFrom(p: Pattern, s: string, i: nat): Option<string>
    requires i <= |s|
    decreases |s| - i
  {
    match CaptureAt(p, s, i)
    case Some(g) => Some(g)
    case None => if i == |s| then None else SearchFrom(p, s, i + 1)
  }

  /** `re.search(pattern, s).group(1)`, or None when there is no match. */
  function Search(p: Pattern, s: string): Option<string> {
    SearchFrom(p, s, 0)
  }

  /** No group makes the pattern match at position `j`. */
  ghost predicate NoMatchAt(p: Pattern, s: string, j: nat) {
    forall g :: !MatchesAt(p, s, j, g)
  }

  /** `g` is the group of the match at the leftmost position `i`. */
  ghost predicate LeftmostMatch(p: Pattern, s: string, i: nat, g: string) {
    MatchesAt(p, s, i, g) && forall j :: 0 <= j < i ==> NoMatchAt(p, s, j)
  }

  lemma NoCaptureMeansNoMatch(p: Pattern, s: string, j: nat)
    requires WellFormed(p) && j <= |s|
    ensures CaptureAt(p, s, j).None? <==> NoMatchAt(p, s, j)
  {
    if CaptureAt(p, s, j).Some? {
      CaptureAtMatches(p, s, j, CaptureAt(p, s, j).value);
    }
    forall g | MatchesAt(p, s, j, g)
      ensures CaptureAt(p, s, j).Some?
    {
      CaptureAtMatches(p, s, j, g);
    }
  }

  lemma {:induction false} SearchFromLeftmost(p: Pattern, s: string, i: nat, g: string)
    requires WellFormed(p) && i <= |s|
    ensures SearchFrom(p, s, i) == Some(g) <==>
      exists k :: i <= k <= |s| && MatchesAt(p, s, k, g) && forall j :: i <= j < k ==> NoMatchAt(p, s, j)
    decreases |s| - i
  {
    CaptureAtMatches(p, s, i, g);
    NoCaptureMeansNoMatch(p, s, i);
    if CaptureAt(p, s, i).None? && i < |s| {
      SearchFromLeftmost(p, s, i + 1, g);
      if exists k :: i <= k <= |s| && MatchesAt(p, s, k, g) && forall j :: i <= j < k ==> NoMatchAt(p, s, j) {
        var k :| i <= k <= |s| && MatchesAt(p, s, k, g) && forall j :: i <= j < k ==> NoMatchAt(p, s, j);
        assert k != i;
        assert i + 1 <= k <= |s| && MatchesAt(p, s, k, g) && forall j :: i + 1 <= j < k ==> NoMatchAt(p, s, j);
      }
    }
  }

  /** `Search` returns exactly the group of the leftmost match, as `re.search` does. */
  lemma SearchIsLeftmostMatch(p: Pattern, s: string, g: string)
    requires WellFormed(p)
    ensures Search(p, s) == Some(g) <==> exists i: nat :: LeftmostMatch(p, s, i, g)
  {
    SearchFromLeftmost(p, s, 0, g);
    if Search(p, s) == Some(g) {
      var k :| 0 <= k <= |s| && MatchesAt(p, s, k, g) && forall j :: 0 <= j < k ==> NoMatchAt(p, s, j);
      assert LeftmostMatch(p, s, k, g);
    }
    if exists i: nat :: LeftmostMatch(p, s, i, g) {
      var i: nat :| LeftmostMatch(p, s, i, g);
      assert 0 <= i <= |s| && MatchesAt(p, s, i, g) && forall j :: 0 <= j < i ==> NoMatchAt(p, s, j);
    }
  }

  /** `Search` finds nothing exactly when no position matches. */
  lemma {:induction false} SearchNone(p: Pattern, s: string, i: nat)
    requires WellFormed(p) && i <= |s|
    ensures SearchFrom(p, s, i).None? <==> forall j :: i <= j <= |s| ==> NoMatchAt(p, s, j)
    decreases |s| - i
  {
    NoCaptureMeansNoMatch(p, s, i);
    if i < |s| {
      SearchNone(p, s, i + 1);
    }
  }

  // ---------------------------------------------------------------------------
  // Case-insensitive comparison of bucket names

  function LowerChar(c: char): char {
    if 'A' <= c <= 'Z' then (c as int + 32) as char else c
  }

  /** `str.lower()` on ASCII letters. */
  function Lower(s: string): string {
    seq(|s|, i requires 0 <= i < |s| => LowerChar(s[i]))
  }

  /** `a.lower() == b.lower()` */
  predicate SameName(a: string, b: string) {
    Lower(a) == Lower(b)
  }

  /** Names match iff they have the same length and agree letter by letter up to case. */
  lemma SameNameCharwise(a: string, b: string)
    ensures SameName(a, b) <==> |a| == |b| && forall i :: 0 <= i < |a| ==> LowerChar(a[i]) == LowerChar(b[i])
  {
    if |a| == |b| && forall i :: 0 <= i < |a| ==> LowerChar(a[i]) == LowerChar(b[i]) {
      assert forall i :: 0 <= i < |a| ==> Lower(a)[i] == Lower(b)[i];
      assert Lower(a) == Lower(b);
    }
    if SameName(a, b) {
      assert |a| == |Lower(a)| == |Lower(b)| == |b|;
      forall i | 0 <= i < |a|
        ensures LowerChar(a[i]) == LowerChar(b[i])
      {
        assert Lower(a)[i] == Lower(b)[i];
      }
    }
  }

  // ---------------------------------------------------------------------------
  // Worked cases

  lemma {:induction false} RunEndIs(s: string, j: nat, c: CharClass, e: nat)
    requires j <= e <= |s|
    requires forall k :: j <= k < e ==> InClass(c, s[k])
    requires e < |s| ==> !InClass(c, s[e])
    ensures RunEnd(s, j, c) == e
    decreases e - j
  {
    if j < e {
      RunEndIs(s, j + 1, c, e);
    }
  }

  lemma BucketNameExample()
    ensures Search(BUCKET_NAME, "target.bucket.name='my-bucket'") == Some("my-bucket")
  {
    var s := "target.bucket.name='my-bucket'";
    assert s[0..20] == BUCKET_NAME.lit;
    RunEndIs(s, 20, NonApostrophe, 29);
    assert s[20..29] == "my-bucket";
  }

  lemma RegionCodeExample()
    ensures Search(REGION_CODE, ".oc1.phx.aaaa") == Some("phx")
  {
    var s := ".oc1.phx.aaaa";
    assert s[0..5] == REGION_CODE.lit;
    RunEndIs(s, 5, RegionChar, 8);
    assert s[5..8] == "phx";
  }

  lemma NoRegionCodeExample()
    ensures Search(REGION_CODE, ".oc1..") == None
  {
  }
}
