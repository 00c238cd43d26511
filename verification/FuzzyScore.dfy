/**
 * What the scores of src/shared/fuzzyPath.ts reward, counted over sets of positions, and what that means for the ranking:
 * closing a gap of one unit always ranks higher.
 */
module FuzzyScore {
  import opened Utf16
  import opened Options
  import opened FuzzyMatch
  import FuzzyRank
  import Sequences

  // ---------------------------------------------------------------------------------------------
  // The score in closed form
  // ---------------------------------------------------------------------------------------------

  predicate Inside(pos: seq<int>, path: Text) { forall k :: 0 <= k < |pos| ==> 0 <= pos[k] < |path| }

  predicate FollowsOn(pos: seq<int>, k: int) { 1 <= k < |pos| && pos[k] == pos[k - 1] + 1 }

  /** The letters that directly follow the one before them. */
  function Adjacent(pos: seq<int>, n: nat): set<int> { set k | 1 <= k < n && FollowsOn(pos, k) }

  predicate Near(a: int, u: int) { u <= a + 6 }

  /** The first six units skipped between two positions. */
  function Gap(a: int, b: int): set<int> { set u | a < u < b && Near(a, u) }

  /** `u` is one of the first six units skipped before letter `k`. */
  predicate SkippedBefore(pos: seq<int>, k: int, u: int) { 1 <= k < |pos| && u in Gap(pos[k - 1], pos[k]) }

  ghost predicate IsSkipped(pos: seq<int>, n: nat, u: int) { exists k :: 1 <= k < n && SkippedBefore(pos, k, u) }

  /** The units skipped between letters, the first six of each gap. */
  ghost function Skipped(pos: seq<int>, n: nat): set<int>
    requires n <= |pos|
  {
    if n == 0 then {} else set u | pos[0] < u < pos[n - 1] && IsSkipped(pos, n, u)
  }

  /** The letters at the start of a path part or word. */
  function AtSegments(pos: seq<int>, path: Text, n: nat): set<int>
    requires n <= |pos| && Inside(pos, path)
  {
    set k | 0 <= k < n && IsSegmentStart(path, pos[k])
  }

  function InBase(pos: seq<int>, base: int, n: nat): set<int>
    requires n <= |pos|
  {
    set k | 0 <= k < n && pos[k] >= base
  }

  lemma {:induction false} GapSize(a: int, b: int)
    requires a < b
    ensures |Gap(a, b)| == if b - a - 1 < 6 then b - a - 1 else 6
    decreases b - a
  {
    if b == a + 1 {
      assert Gap(a, b) == {};
    } else {
      GapSize(a, b - 1);
      assert Gap(a, b) == if b - 1 <= a + 6 then Gap(a, b - 1) + {b - 1} else Gap(a, b - 1);
    }
  }

  lemma AdjacentStep(pos: seq<int>, n: nat)
    requires 0 < n <= |pos|
    ensures |Adjacent(pos, n)| == |Adjacent(pos, n - 1)| + if n > 1 && pos[n - 1] == pos[n - 2] + 1 then 1 else 0
  {
    var one := if FollowsOn(pos, n - 1) then {n - 1} else {};
    assert Adjacent(pos, n) == Adjacent(pos, n - 1) + one;
  }

  lemma SegmentsStep(pos: seq<int>, path: Text, n: nat)
    requires 0 < n <= |pos| && Inside(pos, path)
    ensures |AtSegments(pos, path, n)| == |AtSegments(pos, path, n - 1)| + if IsSegmentStart(path, pos[n - 1]) then 1 else 0
  {
    hide IsSegmentStart;
    var one := if IsSegmentStart(path, pos[n - 1]) then {n - 1} else {};
    assert AtSegments(pos, path, n) == AtSegments(pos, path, n - 1) + one;
  }

  lemma BaseStep(pos: seq<int>, base: int, n: nat)
    requires 0 < n <= |pos|
    ensures |InBase(pos, base, n)| == |InBase(pos, base, n - 1)| + if pos[n - 1] >= base then 1 else 0
  {
    var one := if pos[n - 1] >= base then {n - 1} else {};
    assert InBase(pos, base, n) == InBase(pos, base, n - 1) + one;
  }

  lemma SkippedUnion(pos: seq<int>, n: nat)
    requires 1 < n <= |pos| && Sequences.Ascending(pos)
    ensures Skipped(pos, n) == Skipped(pos, n - 1) + Gap(pos[n - 2], pos[n - 1])
    ensures Skipped(pos, n - 1) !! Gap(pos[n - 2], pos[n - 1])
  {
    assert pos[0] <= pos[n - 2] < pos[n - 1];
    forall u
      ensures IsSkipped(pos, n, u) <==> IsSkipped(pos, n - 1, u) || u in Gap(pos[n - 2], pos[n - 1])
    {
      if u in Gap(pos[n - 2], pos[n - 1]) {
        assert SkippedBefore(pos, n - 1, u);
      } else if k :| 1 <= k < n && SkippedBefore(pos, k, u) {
        assert k != n - 1;
      }
    }
    var before := n - 1;
    forall u | IsSkipped(pos, before, u)
      ensures pos[0] < u < pos[n - 2]
    {
      var k :| 1 <= k < n - 1 && SkippedBefore(pos, k, u);
      InOrder(pos, 0, k - 1);
      InOrder(pos, k, n - 2);
    }
    hide IsSkipped;
  }

  lemma InOrder(pos: seq<int>, i: nat, j: nat)
    requires i <= j < |pos| && Sequences.Ascending(pos)
    ensures pos[i] <= pos[j]
  {
  }

  lemma SkippedStep(pos: seq<int>, n: nat)
    requires 0 < n <= |pos| && Sequences.Ascending(pos)
    ensures |Skipped(pos, n)|
         == |Skipped(pos, n - 1)| + if n > 1 then (if pos[n - 1] - pos[n - 2] - 1 < 6 then pos[n - 1] - pos[n - 2] - 1 else 6) else 0
  {
    if n == 1 {
      assert Skipped(pos, 1) == {};
    } else {
      SkippedUnion(pos, n);
      GapSize(pos[n - 2], pos[n - 1]);
      hide Skipped, Gap;
    }
  }

  lemma {:induction false} LettersInClosedForm(pos: seq<int>, n: nat, path: Text, base: int)
    requires n <= |pos| && Inside(pos, path) && Sequences.Ascending(pos)
    ensures LettersScore(pos, n, path, base)
         == 160 * n + 120 * |Adjacent(pos, n)| - 10 * |Skipped(pos, n)| + 100 * |AtSegments(pos, path, n)| + 60 * |InBase(pos, base, n)|
  {
    if n == 0 {
      assert Adjacent(pos, 0) == {} && Skipped(pos, 0) == {} && AtSegments(pos, path, 0) == {} && InBase(pos, base, 0) == {};
    } else {
      LettersInClosedForm(pos, n - 1, path, base);
      AdjacentStep(pos, n);
      SkippedStep(pos, n);
      SegmentsStep(pos, path, n);
      BaseStep(pos, base, n);
      hide Adjacent, Skipped, AtSegments, InBase, IsSegmentStart;
    }
  }

  /**
   * The score, in tenths: 160 for every letter, 120 for every one that follows the letter before it, 10 off for every unit
   * skipped between letters, up to six a gap, 100 for every start of a part or word, 60 for every letter in the basename, 200
   * more when all are, 150 when the first starts it, and 1 off for every unit of the path.
   */
  lemma ScoreInClosedForm(pos: seq<int>, path: Text, base: int)
    requires pos != [] && Inside(pos, path) && Sequences.Ascending(pos)
    ensures Score(pos, path, base)
         == 160 * |pos| + 120 * |Adjacent(pos, |pos|)| - 10 * |Skipped(pos, |pos|)| + 100 * |AtSegments(pos, path, |pos|)|
            + 60 * |InBase(pos, base, |pos|)|
            + (if forall k :: 0 <= k < |pos| ==> pos[k] >= base then 200 else 0) + (if pos[0] == base then 150 else 0) - |path|
  {
    LettersInClosedForm(pos, |pos|, path, base);
    hide Adjacent, Skipped, AtSegments, InBase, LettersScore;
  }

  /** A part or word starts at the front, behind one of five separators, or at a capital behind a small letter. */
  lemma SegmentStarts(path: Text, i: nat)
    requires i < |path|
    ensures IsSegmentStart(path, i)
            <==> i == 0 || (exists c :: c in "/._- " && path[i - 1] == c as int)
                 || ('a' as int <= path[i - 1] <= 'z' as int && 'A' as int <= path[i] <= 'Z' as int)
  {
    assert '/' in "/._- " && '.' in "/._- " && '_' in "/._- " && '-' in "/._- " && ' ' in "/._- ";
  }

  // ---------------------------------------------------------------------------------------------
  // Closing a gap of one unit
  // ---------------------------------------------------------------------------------------------

  /** The text without its unit at `at`. */
  function Without(t: Text, at: nat): (r: Text)
    requires at < |t|
    ensures |r| == |t| - 1
  {
    t[..at] + t[at + 1..]
  }

  lemma WithoutAt(t: Text, at: nat, i: int)
    requires at < |t| && 0 <= i < |t| - 1
    ensures Without(t, at)[i] == if i < at then t[i] else t[i + 1]
  {
  }

  /** The positions, one less from letter `m` on. */
  function Closed(pos: seq<int>, m: nat): (r: seq<int>)
    ensures |r| == |pos| && forall k :: 0 <= k < |r| ==> r[k] == if k < m then pos[k] else pos[k] - 1
  {
    seq(|pos|, k requires 0 <= k < |pos| => if k < m then pos[k] else pos[k] - 1)
  }

  /** Just one unit stands between letters `m - 1` and `m`. */
  predicate OneGap(pos: seq<int>, m: nat, at: nat)
  {
    0 < m < |pos| && pos[m - 1] == at - 1 && pos[m] == at + 1
  }

  /** How the basename moves: not at all when the gap lies in it, with the path when the gap lies before it. */
  predicate BaseMoves(base: int, closedBase: int, at: nat)
  {
    if base <= at then closedBase == base else if base > at + 1 then closedBase == base - 1 else closedBase <= at
  }

  lemma BaseOfClosed(t: Text, at: nat)
    requires at < |t|
    ensures BaseMoves(BaseStart(t), BaseStart(Without(t, at)), at)
  {
    hide BaseStart;
    if BaseStart(t) <= at {
      BaseAhead(t, at);
    } else if BaseStart(t) > at + 1 {
      BaseBehind(t, at);
    } else {
      BaseAt(t, at);
    }
  }

  lemma BaseAhead(t: Text, at: nat)
    requires at < |t| && BaseStart(t) <= at
    ensures BaseStart(Without(t, at)) == BaseStart(t)
  {
    var base, r := BaseStart(t), Without(t, at);
    hide BaseStart, Without;
    if base > 0 {
      WithoutAt(t, at, base - 1);
    }
    forall k | base <= k < |r|
      ensures r[k] != SLASH
    {
      WithoutAt(t, at, k);
    }
    BaseIs(r, base);
  }

  lemma BaseBehind(t: Text, at: nat)
    requires at < |t| && BaseStart(t) > at + 1
    ensures BaseStart(Without(t, at)) == BaseStart(t) - 1
  {
    hide *;
    NoSlashBehind(t, at, BaseStart(t));
    WithoutAt(t, at, BaseStart(t) - 2);
    BaseIs(Without(t, at), BaseStart(t) - 1);
  }

  lemma NoSlashBehind(t: Text, at: nat, base: nat)
    requires at + 1 < base <= |t| && forall i :: base <= i < |t| ==> t[i] != SLASH
    ensures forall i :: base - 1 <= i < |t| - 1 ==> Without(t, at)[i] != SLASH
  {
    forall i | base - 1 <= i < |t| - 1
      ensures Without(t, at)[i] != SLASH
    {
      WithoutAt(t, at, i);
    }
  }

  lemma BaseAt(t: Text, at: nat)
    requires at < |t| && BaseStart(t) == at + 1
    ensures BaseStart(Without(t, at)) <= at
  {
    var r := Without(t, at);
    hide BaseStart, Without;
    forall k | at <= k < |r|
      ensures r[k] != SLASH
    {
      WithoutAt(t, at, k);
    }
  }

  lemma BaseIs(t: Text, b: nat)
    requires b <= |t| && (b > 0 ==> t[b - 1] == SLASH) && forall i :: b <= i < |t| ==> t[i] != SLASH
    ensures BaseStart(t) == b
  {
    hide BaseStart;
  }

  /** Closing the gap costs no letter anything, but for the start of a word it may have made. */
  lemma LetterGains(pos: seq<int>, m: nat, at: nat, path: Text, base: int, closedBase: int, k: nat)
    requires Inside(pos, path) && Sequences.Ascending(pos) && at < |path| && OneGap(pos, m, at) && k < |pos|
    requires BaseMoves(base, closedBase, at) && Inside(Closed(pos, m), Without(path, at))
    ensures LetterScore(Closed(pos, m), k, Without(path, at), closedBase)
         >= LetterScore(pos, k, path, base) + if k == m then 30 else 0
  {
    var c, r := Closed(pos, m), Without(path, at);
    assert k < m - 1 ==> pos[k] < pos[m - 1];
    assert k > m ==> pos[k] > pos[m];
    if k != m {
      SameSegment(path, at, pos[k], c[k]);
      assert k > 0 ==> c[k] - c[k - 1] == pos[k] - pos[k - 1];
    }
    hide IsSegmentStart;
  }

  lemma SameSegment(path: Text, at: nat, p: int, q: int)
    requires at < |path| && 0 <= p < |path| && ((p < at && q == p) || (p > at + 1 && q == p - 1))
    ensures IsSegmentStart(Without(path, at), q) <==> IsSegmentStart(path, p)
  {
    hide Without;
    WithoutAt(path, at, q);
    if q > 0 {
      WithoutAt(path, at, q - 1);
    }
  }

  /** Gains add up over the letters. */
  lemma {:induction false} GainsAddUp(pos: seq<int>, path: Text, base: int, c: seq<int>, r: Text, closedBase: int, m: nat, n: nat)
    requires Inside(pos, path) && Inside(c, r) && |c| == |pos| && n <= |pos|
    requires forall k :: 0 <= k < |pos| ==>
               LetterScore(c, k, r, closedBase) >= LetterScore(pos, k, path, base) + if k == m then 30 else 0
    ensures LettersScore(c, n, r, closedBase) >= LettersScore(pos, n, path, base) + if n > m then 30 else 0
  {
    hide LetterScore;
    if n > 0 {
      GainsAddUp(pos, path, base, c, r, closedBase, m, n - 1);
    }
  }

  lemma ClosedIsInside(pos: seq<int>, m: nat, at: nat, path: Text)
    requires Inside(pos, path) && Sequences.Ascending(pos) && at < |path| && OneGap(pos, m, at)
    ensures Inside(Closed(pos, m), Without(path, at)) && Sequences.Ascending(Closed(pos, m))
  {
    forall k | 0 <= k < |pos|
      ensures 0 <= Closed(pos, m)[k] < |path| - 1
    {
      assert k < m - 1 ==> pos[k] < pos[m - 1];
      assert k > m ==> pos[k] > pos[m];
    }
  }

  /** Closing a gap of one unit raises the score, whatever the unit was. */
  lemma ClosingGapRaises(pos: seq<int>, m: nat, at: nat, path: Text, base: int, closedBase: int)
    requires Inside(pos, path) && Sequences.Ascending(pos) && at < |path| && OneGap(pos, m, at)
    requires BaseMoves(base, closedBase, at)
    ensures Inside(Closed(pos, m), Without(path, at))
    ensures Score(Closed(pos, m), Without(path, at), closedBase) > Score(pos, path, base)
  {
    var c, r := Closed(pos, m), Without(path, at);
    ClosedIsInside(pos, m, at, path);
    ExtrasStay(pos, m, at, base, closedBase);
    hide LetterScore, LettersScore, InBasename, BaseMoves;
    forall k | 0 <= k < |pos|
      ensures LetterScore(c, k, r, closedBase) >= LetterScore(pos, k, path, base) + if k == m then 30 else 0
    {
      LetterGains(pos, m, at, path, base, closedBase, k);
    }
    GainsAddUp(pos, path, base, c, r, closedBase, m, |pos|);
  }

  /** A match that lies in the basename, or starts it, still does. */
  lemma ExtrasStay(pos: seq<int>, m: nat, at: nat, base: int, closedBase: int)
    requires Sequences.Ascending(pos) && OneGap(pos, m, at) && BaseMoves(base, closedBase, at)
    ensures InBasename(pos, base) ==> InBasename(Closed(pos, m), closedBase)
    ensures pos[0] == base ==> Closed(pos, m)[0] == closedBase
  {
    FirstBelow(pos, m - 1);
    if InBasename(pos, base) {
      forall k | 0 <= k < |pos|
        ensures Closed(pos, m)[k] >= closedBase
      {
        assert pos[k] >= base && pos[0] >= base;
        assert k > m ==> pos[k] > pos[m];
      }
    }
  }

  // ---------------------------------------------------------------------------------------------
  // The reported match after closing the gap
  // ---------------------------------------------------------------------------------------------

  /** Where positions of the closed text stand in the text with the unit. */
  function Opened(pos: seq<int>, at: nat): (r: seq<int>)
    ensures |r| == |pos| && forall k :: 0 <= k < |r| ==> r[k] == if pos[k] < at then pos[k] else pos[k] + 1
  {
    seq(|pos|, k requires 0 <= k < |pos| => if pos[k] < at then pos[k] else pos[k] + 1)
  }

  lemma MatchAscends(query: Text, path: Text, pos: seq<int>)
    requires Match(query, path, pos)
    ensures Sequences.Ascending(pos) && Inside(pos, path)
  {
    forall i, j | 0 <= i < j < |pos|
      ensures pos[i] < pos[j]
    {
      Apart(pos, i, j);
    }
  }

  lemma {:induction false} Apart(pos: seq<int>, i: nat, j: nat)
    requires i < j < |pos| && forall k :: 0 < k < |pos| ==> pos[k - 1] < pos[k]
    ensures pos[i] < pos[j]
    decreases j
  {
    if i < j - 1 {
      Apart(pos, i, j - 1);
    }
  }

  lemma ClosedMatches(query: Text, path: Text, from: nat, pos: seq<int>, m: nat, at: nat)
    requires MatchFrom(query, path, from, pos) && at < |path| && OneGap(pos, m, at)
    ensures MatchFrom(query, Without(path, at), from, Closed(pos, m))
  {
    MatchAscends(query, path, pos);
    ClosedIsInside(pos, m, at, path);
    forall k | 0 <= k < |pos|
      ensures Without(path, at)[Closed(pos, m)[k]] == query[k]
    {
      assert k < m - 1 ==> pos[k] < pos[m - 1];
      assert k > m ==> pos[k] > pos[m];
      WithoutAt(path, at, Closed(pos, m)[k]);
    }
  }

  lemma OpenedMatches(query: Text, path: Text, from: nat, pos: seq<int>, at: nat)
    requires at < |path| && MatchFrom(query, Without(path, at), from, pos)
    ensures MatchFrom(query, path, from, Opened(pos, at))
  {
    forall k | 0 <= k < |pos|
      ensures path[Opened(pos, at)[k]] == query[k]
    {
      WithoutAt(path, at, pos[k]);
    }
  }

  /** The window of the closed text is the closed window. */
  lemma WindowCloses(query: Text, path: Text, from: nat, m: nat, at: nat)
    requires query != [] && at < |path| && EndFrom(query, path, from) >= 0 && OneGap(Window(query, path, from), m, at)
    ensures EndFrom(query, Without(path, at), from) >= 0
    ensures Window(query, Without(path, at), from) == Closed(Window(query, path, from), m)
  {
    hide EndFrom, Latest, Match;
    var wide, r := Window(query, path, from), Without(path, at);
    var closed := Closed(wide, m);
    ClosedMatches(query, path, from, wide, m, at);
    EndIsEarliest(query, r, from, closed);
    var tight := Window(query, r, from);
    OpenedMatches(query, path, from, tight, at);
    var shifted := Opened(tight, at);
    WindowIsEarliestAndTightest(query, path, from, shifted);
    WindowIsEarliestAndTightest(query, r, from, closed);
    MatchAscends(query, r, tight);
    MatchAscends(query, path, wide);
    SizesOf(query, path, wide, r, tight);
    SameWindows(wide, tight, m, at);
  }

  lemma SizesOf(query: Text, path: Text, wide: seq<int>, r: Text, tight: seq<int>)
    requires Match(query, path, wide) && Match(query, r, tight)
    ensures |wide| == |tight| == |query|
  {
  }

  lemma SameWindows(wide: seq<int>, tight: seq<int>, m: nat, at: nat)
    requires |wide| == |tight| && OneGap(wide, m, at) && Sequences.Ascending(wide) && Sequences.Ascending(tight)
    requires var n := |wide| - 1; var shifted := Opened(tight, at);
             wide[n] <= shifted[n] && (shifted[n] == wide[n] ==> forall k :: 0 <= k <= n ==> shifted[k] <= wide[k])
    requires var n := |wide| - 1; var closed := Closed(wide, m);
             tight[n] <= closed[n] && (closed[n] == tight[n] ==> forall k :: 0 <= k <= n ==> closed[k] <= tight[k])
    ensures tight == Closed(wide, m)
  {
    var n, shifted, closed := |wide| - 1, Opened(tight, at), Closed(wide, m);
    assert wide[n] >= at + 1 by { assert n > m ==> wide[n] > wide[m]; }
    assert tight[n] == closed[n] && shifted[n] == wide[n];
    assert tight[m] == at by { assert shifted[m] <= wide[m] && closed[m] <= tight[m]; }
    forall k | 0 <= k <= n
      ensures tight[k] == closed[k]
    {
      assert shifted[k] <= wide[k] && closed[k] <= tight[k];
      assert k < m ==> tight[k] < tight[m];
      assert k > m ==> tight[k] > tight[m];
    }
  }

  /** A reported score is at least that of both windows the matcher considers. */
  lemma ReportsAtLeast(query: Text, lower: Text, path: Text)
    requires query != [] && |path| == |lower| && EndFrom(query, lower, 0) >= 0
    ensures var base := BaseStart(lower);
            && MatchOf(query, lower, path).Some?
            && MatchOf(query, lower, path).value.score >= Score(Window(query, lower, 0), path, base)
            && (base > 0 && EndFrom(query, lower, base) >= 0 ==>
                  MatchOf(query, lower, path).value.score >= Score(Window(query, lower, base), path, base))
  {
    hide EndFrom, Score, BaseStart, Latest, Match;
  }

  /** Which of the two windows is reported. */
  lemma ReportedWindow(query: Text, lower: Text, path: Text) returns (from: nat)
    requires query != [] && |path| == |lower| && MatchOf(query, lower, path).Some?
    ensures EndFrom(query, lower, 0) >= 0 && EndFrom(query, lower, from) >= 0
    ensures var found := MatchOf(query, lower, path).value;
            found.positions == Window(query, lower, from) && found.score == Score(found.positions, path, BaseStart(lower))
    ensures from == 0 || (from == BaseStart(lower) && from <= MatchOf(query, lower, path).value.positions[0])
  {
    hide EndFrom, Score, BaseStart, Latest;
    ReportedMatch(query, lower, path);
    var found := MatchOf(query, lower, path).value;
    from := if found.positions == Window(query, lower, 0) then 0 else BaseStart(lower);
  }

  /**
   * When the reported match of a path skips just one unit somewhere, the path without that unit has a reported match that
   * scores higher.
   */
  lemma UnbrokenScoresHigher(query: Text, lower: Text, path: Text, m: nat, at: nat)
    requires query != [] && |path| == |lower| && at < |path| && MatchOf(query, lower, path).Some?
    requires OneGap(MatchOf(query, lower, path).value.positions, m, at)
    ensures var closed := MatchOf(query, Without(lower, at), Without(path, at));
            closed.Some? && closed.value.score > MatchOf(query, lower, path).value.score
  {
    var found, l, p := MatchOf(query, lower, path).value, Without(lower, at), Without(path, at);
    var from := ReportedWindow(query, lower, path);
    hide *;
    BaseOfClosed(lower, at);
    WindowCloses(query, lower, from, m, at);
    ReportedInside(query, lower, path, from);
    WindowsFromFront(query, l, from);
    BaseStays(query, lower, from, m, at);
    ClosingGapRaises(found.positions, m, at, path, BaseStart(lower), BaseStart(l));
    ReportsAtLeast(query, l, p);
  }

  /** A reported window of the basename has the gap inside the basename, which then starts where it did. */
  lemma BaseStays(query: Text, lower: Text, from: nat, m: nat, at: nat)
    requires query != [] && at < |lower| && EndFrom(query, lower, from) >= 0 && OneGap(Window(query, lower, from), m, at)
    ensures from == BaseStart(lower) ==> BaseStart(Without(lower, at)) == from
  {
    hide EndFrom, BaseStart, Latest, Window;
    MatchAscends(query, lower, Window(query, lower, from));
    FirstBelow(Window(query, lower, from), m - 1);
    hide MatchFrom;
    BaseOfClosed(lower, at);
  }

  lemma ReportedInside(query: Text, lower: Text, path: Text, from: nat)
    requires query != [] && |path| == |lower| && EndFrom(query, lower, from) >= 0
    ensures Sequences.Ascending(Window(query, lower, from)) && Inside(Window(query, lower, from), path)
  {
    MatchAscends(query, lower, Window(query, lower, from));
  }

  lemma FirstBelow(pos: seq<int>, k: nat)
    requires Sequences.Ascending(pos) && k < |pos|
    ensures pos[0] <= pos[k]
  {
  }

  /** A match from somewhere is a match of the whole text. */
  lemma WindowsFromFront(query: Text, path: Text, from: nat)
    requires query != [] && EndFrom(query, path, from) >= 0
    ensures EndFrom(query, path, 0) >= 0
  {
    var w := Window(query, path, from);
    assert MatchFrom(query, path, 0, w);
    EndIsEarliest(query, path, 0, w);
  }

  /**
   * Of two candidates that differ only by one unit inside the reported match, the one without it is ranked first: whenever
   * the other is listed, it is listed earlier.
   */
  lemma UnbrokenRanksFirst(query: Text, c: FuzzyRank.Candidates, n: nat, limit: nat, i: nat, j: nat, m: nat, at: nat, place: nat)
    requires query != [] && c.Valid() && i < n <= |c.paths| && j < n && at < |c.paths[j]|
    requires c.paths[i] == Without(c.paths[j], at) && c.lower[i] == Without(c.lower[j], at)
    requires MatchOf(query, c.lower[j], c.paths[j]).Some?
    requires OneGap(MatchOf(query, c.lower[j], c.paths[j]).value.positions, m, at)
    requires place < |FuzzyRank.Best(query, c, n, limit)| && FuzzyRank.Best(query, c, n, limit)[place].index == j
    ensures exists first :: 0 <= first < place && FuzzyRank.Best(query, c, n, limit)[first].index == i
  {
    var e := FuzzyRank.EntryOf(query, c.lower[i], c.paths[i], i);
    UnbrokenScoresHigher(query, c.lower[j], c.paths[j], m, at);
    EntryIsMatch(query, c.lower[i], c.paths[i], i);
    EntryIsMatch(query, c.lower[j], c.paths[j], j);
    hide *;
    FuzzyRank.BestIsSorted(query, c, n, limit);
    FuzzyRank.NothingBetterIsLeftOut(query, c, n, limit, i);
    FuzzyRank.ListedEntry(query, c, n, limit, place);
    HigherIsEarlier(FuzzyRank.Best(query, c, n, limit), e.value, place);
  }

  lemma EntryIsMatch(query: Text, lower: Text, path: Text, index: nat)
    requires query != [] && |lower| == |path| && MatchOf(query, lower, path).Some?
    ensures var e := FuzzyRank.EntryOf(query, lower, path, index);
            e.Some? && e.value.index == index && e.value.score == MatchOf(query, lower, path).value.score
  {
    hide MatchOf;
  }

  lemma HigherIsEarlier(best: seq<FuzzyRank.Ranked>, e: FuzzyRank.Ranked, place: nat)
    requires FuzzyRank.Sorted(best) && place < |best| && e.score > best[place].score
    requires e in best || forall k :: 0 <= k < |best| ==> FuzzyRank.Before(best[k], e)
    ensures exists first :: 0 <= first < place && best[first].index == e.index
  {
    assert e in best by { assert !FuzzyRank.Before(best[place], e); }
    var first :| 0 <= first < |best| && best[first] == e;
    InSortedOrder(best, place, first);
  }

  lemma InSortedOrder(best: seq<FuzzyRank.Ranked>, a: nat, b: nat)
    requires FuzzyRank.Sorted(best) && a < |best| && b < |best|
    ensures a < b ==> FuzzyRank.Before(best[a], best[b])
  {
  }
}
