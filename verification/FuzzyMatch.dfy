/**
 * Fuzzy matching of one path (src/shared/fuzzyPath.ts): the earliest end of a subsequence match, the tightest window that
 * ends there, and its score. Scores are held ten times as large as the source's, which makes its length penalty whole.
 */
module FuzzyMatch {
  import opened Utf16
  import opened Options
  import Sequences

  const SLASH: Unit := 47

  /** `pos` picks the query out of the path: in order, inside the path, letter by letter. */
  ghost predicate Match(query: Text, path: Text, pos: seq<int>)
  {
    && |pos| == |query|
    && (forall k :: 0 <= k < |pos| ==> 0 <= pos[k] < |path| && path[pos[k]] == query[k])
    && (forall k :: 0 < k < |pos| ==> pos[k - 1] < pos[k])
  }

  ghost predicate MatchFrom(query: Text, path: Text, from: int, pos: seq<int>)
  {
    Match(query, path, pos) && (pos != [] ==> from <= pos[0])
  }

  ghost predicate MatchUpTo(query: Text, path: Text, end: int, pos: seq<int>)
  {
    Match(query, path, pos) && (pos != [] ==> pos[|pos| - 1] <= end)
  }

  // ---------------------------------------------------------------------------------------------
  // The earliest end
  // ---------------------------------------------------------------------------------------------

  /** `indexOf(u, from)`. */
  function IndexFrom(path: Text, u: Unit, from: nat): (i: int)
    ensures i == -1 || (from <= i < |path| && path[i] == u && forall j :: from <= j < i ==> path[j] != u)
    ensures i == -1 ==> forall j :: from <= j < |path| ==> path[j] != u
    decreases |path| - from
  {
    if from >= |path| then -1
    else if path[from] == u then from
    else IndexFrom(path, u, from + 1)
  }

  /** Where the greedy match of the query from `from` ends, or -1. For an empty rest it is the position already reached. */
  function EndFrom(query: Text, path: Text, from: nat): int
  {
    if query == [] then from - 1
    else
      var i := IndexFrom(path, query[0], from);
      if i < 0 then -1 else EndFrom(query[1..], path, i + 1)
  }

  method SubsequenceEnd(query: Text, pathLower: Text, from: nat) returns (end: int)
    requires query != []
    ensures end == EndFrom(query, pathLower, from)
  {
    end := from - 1;
    assert query[0..] == query;
    for k := 0 to |query|
      invariant end >= -1
      invariant EndFrom(query, pathLower, from) == EndFrom(query[k..], pathLower, end + 1)
    {
      assert query[k..][0] == query[k] && query[k..][1..] == query[k + 1..];
      end := IndexFrom(pathLower, query[k], end + 1);
      if end < 0 {
        return -1;
      }
    }
  }

  /** The positions the greedy scan takes. */
  function Greedy(query: Text, path: Text, from: nat): seq<int>
    requires query == [] || EndFrom(query, path, from) >= 0
  {
    if query == [] then []
    else
      var i := IndexFrom(path, query[0], from);
      [i] + Greedy(query[1..], path, i + 1)
  }

  lemma {:induction false} GreedyMatches(query: Text, path: Text, from: nat)
    requires query != [] && EndFrom(query, path, from) >= 0
    ensures MatchFrom(query, path, from, Greedy(query, path, from))
    ensures Greedy(query, path, from)[|query| - 1] == EndFrom(query, path, from)
    decreases |query|
  {
    hide *;
    var i, rest := IndexFrom(path, query[0], from), query[1..];
    GreedyStep(query, path, from);
    if rest != [] {
      GreedyMatches(rest, path, i + 1);
      PrependFrom(query, path, from, i, Greedy(rest, path, i + 1));
    } else {
      OneLetter(query, path, from, i);
    }
  }

  lemma PrependFrom(query: Text, path: Text, from: nat, i: int, tail: seq<int>)
    requires |query| > 1 && MatchFrom(query[1..], path, i + 1, tail)
    requires from <= i < |path| && path[i] == query[0]
    ensures |tail| == |query| - 1 && MatchFrom(query, path, from, [i] + tail)
    ensures ([i] + tail)[|query| - 1] == tail[|query| - 2]
  {
    Prepend(query, path, i, tail);
  }

  lemma GreedyStep(query: Text, path: Text, from: nat)
    requires query != [] && EndFrom(query, path, from) >= 0
    ensures var i, rest := IndexFrom(path, query[0], from), query[1..];
            && from <= i < |path| && path[i] == query[0]
            && (rest != [] ==> EndFrom(rest, path, i + 1) >= 0
                               && Greedy(query, path, from) == [i] + Greedy(rest, path, i + 1)
                               && EndFrom(query, path, from) == EndFrom(rest, path, i + 1))
            && (rest == [] ==> Greedy(query, path, from) == [i] && EndFrom(query, path, from) == i)
  {
    hide IndexFrom;
  }

  lemma OneLetter(query: Text, path: Text, from: nat, i: int)
    requires |query| == 1 && from <= i < |path| && path[i] == query[0]
    ensures MatchFrom(query, path, from, [i])
  {
  }

  lemma Prepend(query: Text, path: Text, i: int, tail: seq<int>)
    requires |query| > 1 && Match(query[1..], path, tail)
    requires 0 <= i < tail[0] && path[i] == query[0]
    ensures Match(query, path, [i] + tail)
  {
    var all := [i] + tail;
    forall k | 1 <= k < |all|
      ensures 0 <= all[k] < |path| && path[all[k]] == query[k] && all[k - 1] < all[k]
    {
      assert all[k] == tail[k - 1] && query[k] == query[1..][k - 1];
      assert k > 1 ==> all[k - 1] == tail[k - 2];
    }
  }

  lemma Extend(query: Text, path: Text, tail: seq<int>, i: int)
    requires query != [] && Match(query[..|query| - 1], path, tail)
    requires 0 <= i < |path| && path[i] == query[|query| - 1] && (tail != [] ==> tail[|tail| - 1] < i)
    ensures Match(query, path, tail + [i])
  {
    var all := tail + [i];
    forall k | 0 <= k < |all|
      ensures 0 <= all[k] < |path| && path[all[k]] == query[k] && (k > 0 ==> all[k - 1] < all[k])
    {
      assert k < |tail| ==> all[k] == tail[k] && query[k] == query[..|query| - 1][k];
    }
  }

  lemma DropLast(query: Text, path: Text, pos: seq<int>)
    requires query != [] && Match(query, path, pos)
    ensures Match(query[..|query| - 1], path, pos[..|query| - 1])
    ensures |query| > 1 ==> pos[|query| - 2] < pos[|query| - 1]
  {
  }

  /** No match from `from` ends earlier than the greedy one, and when there is any match the greedy scan finds one. */
  lemma {:induction false} EndIsEarliest(query: Text, path: Text, from: nat, pos: seq<int>)
    requires query != [] && MatchFrom(query, path, from, pos)
    ensures 0 <= EndFrom(query, path, from) <= pos[|pos| - 1]
    decreases |query|
  {
    var i, rest := IndexFrom(path, query[0], from), query[1..];
    assert path[pos[0]] == query[0];
    assert from <= i <= pos[0];
    hide IndexFrom;
    if rest != [] {
      var tail := pos[1..];
      assert forall k :: 0 <= k < |tail| ==> tail[k] == pos[k + 1] && rest[k] == query[k + 1];
      EndIsEarliest(rest, path, i + 1, tail);
    }
  }

  // ---------------------------------------------------------------------------------------------
  // The tightest window
  // ---------------------------------------------------------------------------------------------

  /** The positions found scanning back from `i`, the last letter first; short when the path runs out. */
  function Latest(query: Text, path: Text, i: int): (pos: seq<int>)
    requires i < |path|
    ensures |pos| <= |query|
    decreases i + 1
  {
    if query == [] || i < 0 then []
    else if path[i] == query[|query| - 1] then Latest(query[..|query| - 1], path, i - 1) + [i]
    else Latest(query, path, i - 1)
  }

  /** Latest-possible positions: at least one match up to `end` exists, the scan is a match itself, and no match up to `end` is later anywhere. */
  lemma {:induction false} LatestIsTightest(query: Text, path: Text, end: int, pos: seq<int>)
    requires -1 <= end < |path| && MatchUpTo(query, path, end, pos)
    ensures MatchUpTo(query, path, end, Latest(query, path, end))
    ensures forall k :: 0 <= k < |query| ==> pos[k] <= Latest(query, path, end)[k]
    decreases end + 1
  {
    var n := |query|;
    if n > 0 {
      assert path[pos[n - 1]] == query[n - 1];
      if path[end] == query[n - 1] {
        var late := Latest(query[..n - 1], path, end - 1);
        assert Latest(query, path, end) == late + [end];
        hide Latest;
        DropLast(query, path, pos);
        LatestIsTightest(query[..n - 1], path, end - 1, pos[..n - 1]);
        Extend(query, path, late, end);
      } else {
        LatestIsTightest(query, path, end - 1, pos);
      }
    }
  }

  /** The scan ends exactly at `end` when the last letter is there. */
  lemma LatestEndsAt(query: Text, path: Text, end: int)
    requires query != [] && 0 <= end < |path| && path[end] == query[|query| - 1]
    ensures Latest(query, path, end) != [] && Latest(query, path, end)[|Latest(query, path, end)| - 1] == end
  {
  }

  method FillBackward(query: Text, pathLower: Text, end: int, into: array<int>)
    requires end < |pathLower| && into.Length == |query|
    requires |Latest(query, pathLower, end)| == |query|
    modifies into
    ensures into[..] == Latest(query, pathLower, end)
  {
    var j := |query| - 1;
    var i := end;
    ghost var all := Latest(query, pathLower, end);
    assert query[..j + 1] == query && into[j + 1..] == [];
    while i >= 0 && j >= 0
      invariant i <= end && -1 <= j < |query|
      invariant all == Latest(query[..j + 1], pathLower, i) + into[j + 1..]
      invariant j < |query| - 1 ==> i < |pathLower|
      decreases i + 1
    {
      ghost var q := query[..j + 1];
      if pathLower[i] == query[j] {
        assert q[|q| - 1] == query[j] && q[..|q| - 1] == query[..j];
        ghost var after := into[j + 1..];
        into[j] := i;
        assert into[j + 1..] == after && into[j..] == [i] + after;
        Sequences.Assoc(Latest(query[..j], pathLower, i - 1), [i], after);
        j := j - 1;
      }
      i := i - 1;
    }
    assert Latest(query[..j + 1], pathLower, i) == [];
    assert j == -1;
    assert into[0..] == into[..];
  }

  // ---------------------------------------------------------------------------------------------
  // Scores
  // ---------------------------------------------------------------------------------------------

  /** The start of a path part or word: after `/ . _ -` or a space, or a capital after a small letter. */
  predicate IsSegmentStart(path: Text, index: int)
    requires 0 <= index < |path|
  {
    if index == 0 then true
    else
      var prev, cur := path[index - 1], path[index];
      prev == 47 || prev == 46 || prev == 95 || prev == 45 || prev == 32 || (97 <= prev <= 122 && 65 <= cur <= 90)
  }

  function Capped(gap: int): int { if gap < 6 then gap else 6 }

  /** What the `k`-th matched letter earns. */
  function LetterScore(pos: seq<int>, k: int, path: Text, baseStart: int): int
    requires 0 <= k < |pos| && forall i :: 0 <= i < |pos| ==> 0 <= pos[i] < |path|
  {
    160
    + (if k == 0 then 0 else if pos[k] == pos[k - 1] + 1 then 120 else -10 * Capped(pos[k] - pos[k - 1] - 1))
    + (if IsSegmentStart(path, pos[k]) then 100 else 0)
    + (if pos[k] >= baseStart then 60 else 0)
  }

  function LettersScore(pos: seq<int>, n: nat, path: Text, baseStart: int): int
    requires n <= |pos| && forall i :: 0 <= i < |pos| ==> 0 <= pos[i] < |path|
  {
    if n == 0 then 0 else LettersScore(pos, n - 1, path, baseStart) + LetterScore(pos, n - 1, path, baseStart)
  }

  predicate InBasename(pos: seq<int>, baseStart: int) { forall k :: 0 <= k < |pos| ==> pos[k] >= baseStart }

  /**
   * The whole score. The source also names a bonus of 40 for a query that is the whole basename; it is never earned, since
   * the first letter never follows the position -2 the scan starts from.
   */
  function Score(pos: seq<int>, path: Text, baseStart: int): int
    requires pos != [] && forall i :: 0 <= i < |pos| ==> 0 <= pos[i] < |path|
  {
    LettersScore(pos, |pos|, path, baseStart)
    + (if InBasename(pos, baseStart) then 200 else 0)
    + (if pos[0] == baseStart then 150 else 0)
    - |path|
  }

  /** How many of the first `n` positions lie in the basename. */
  function CountIn(pos: seq<int>, n: nat, baseStart: int): (c: nat)
    requires n <= |pos|
    ensures c <= n
    ensures c == n <==> forall k :: 0 <= k < n ==> pos[k] >= baseStart
  {
    if n == 0 then 0 else CountIn(pos, n - 1, baseStart) + (if pos[n - 1] >= baseStart then 1 else 0)
  }

  method ScorePositions(positions: array<int>, path: Text, baseStart: int) returns (score: int)
    requires positions.Length > 0 && forall i :: 0 <= i < positions.Length ==> 0 <= positions[i] < |path|
    ensures score == Score(positions[..], path, baseStart)
  {
    var count := positions.Length;
    ghost var pos := positions[..];
    score := 0;
    var previous := -2;
    var inBasename := 0;
    var consecutive := true;
    for k := 0 to count
      invariant score == LettersScore(pos, k, path, baseStart)
      invariant inBasename == CountIn(pos, k, baseStart)
      invariant previous == if k == 0 then -2 else pos[k - 1]
      invariant k > 0 ==> !consecutive
    {
      var at := positions[k];
      score := score + 160;
      if at == previous + 1 {
        score := score + 120;
      } else {
        if k > 0 {
          score := score - 10 * Capped(at - previous - 1);
        }
        consecutive := false;
      }
      if IsSegmentStart(path, at) {
        score := score + 100;
      }
      if at >= baseStart {
        score := score + 60;
        inBasename := inBasename + 1;
      }
      previous := at;
    }
    if inBasename == count {
      score := score + 200;
    }
    var startsBasename := positions[0] == baseStart;
    if startsBasename {
      score := score + 150;
    }
    if consecutive && inBasename == count && startsBasename && |path| - baseStart == count {
      score := score + 400;
    }
    score := score - |path|;
  }

  // ---------------------------------------------------------------------------------------------
  // One candidate
  // ---------------------------------------------------------------------------------------------

  datatype Found = Found(score: int, positions: seq<int>)

  /** The position after the last slash. */
  function BaseStart(path: Text): (b: nat)
    ensures b <= |path|
    ensures forall i :: b <= i < |path| ==> path[i] != SLASH
    ensures b > 0 ==> path[b - 1] == SLASH
  {
    if path == [] then 0 else if path[|path| - 1] == SLASH then |path| else BaseStart(path[..|path| - 1])
  }

  lemma {:induction false} EndInside(query: Text, path: Text, from: nat)
    requires query != [] && EndFrom(query, path, from) >= 0
    ensures EndFrom(query, path, from) < |path|
    ensures |Latest(query, path, EndFrom(query, path, from))| == |query|
    ensures MatchFrom(query, path, from, Latest(query, path, EndFrom(query, path, from)))
    ensures Latest(query, path, EndFrom(query, path, from))[|query| - 1] == EndFrom(query, path, from)
  {
    hide EndFrom, Latest, Greedy;
    var end := EndFrom(query, path, from);
    GreedyMatches(query, path, from);
    var greedy := Greedy(query, path, from);
    LatestIsTightest(query, path, end, greedy);
    assert greedy[0] <= Latest(query, path, end)[0];
    LatestEndsAt(query, path, end);
  }

  /** The tightest window at the earliest end of a match from `from`. */
  function Window(query: Text, path: Text, from: nat): (pos: seq<int>)
    requires query != [] && EndFrom(query, path, from) >= 0
    ensures MatchFrom(query, path, from, pos)
  {
    EndInside(query, path, from);
    Latest(query, path, EndFrom(query, path, from))
  }

  /** The match `matchInto` reports: the whole-path window, or the basename's when that scores higher. */
  function MatchOf(query: Text, lower: Text, path: Text): Option<Found>
    requires query != [] && |path| == |lower|
  {
    if EndFrom(query, lower, 0) < 0 then None
    else
      var base := BaseStart(lower);
      var whole := Found(Score(Window(query, lower, 0), path, base), Window(query, lower, 0));
      if base == 0 || EndFrom(query, lower, base) < 0 then Some(whole)
      else
        var inBase := Found(Score(Window(query, lower, base), path, base), Window(query, lower, base));
        if inBase.score > whole.score then Some(inBase) else Some(whole)
  }

  /** Scores one candidate and leaves its positions in `out`; null when the query is not a subsequence. */
  method MatchInto(query: Text, lower: Text, path: Text, wholeScratch: array<int>, baseScratch: array<int>, out: array<int>)
    returns (score: Option<int>)
    requires query != [] && |path| == |lower|
    requires wholeScratch.Length == baseScratch.Length == out.Length == |query|
    requires wholeScratch != baseScratch && wholeScratch != out && baseScratch != out
    modifies wholeScratch, baseScratch, out
    ensures score.None? <==> MatchOf(query, lower, path).None?
    ensures score.Some? ==> MatchOf(query, lower, path) == Some(Found(score.value, out[..]))
  {
    hide EndFrom, Latest, Score, BaseStart;
    var end := SubsequenceEnd(query, lower, 0);
    if end < 0 {
      return None;
    }
    var baseStart := BaseStart(lower);
    EndInside(query, lower, 0);
    FillBackward(query, lower, end, wholeScratch);
    assert wholeScratch[..] == Window(query, lower, 0);
    var bestScore := ScorePositions(wholeScratch, path, baseStart);
    var best := wholeScratch;
    if baseStart > 0 {
      var baseEnd := SubsequenceEnd(query, lower, baseStart);
      if baseEnd >= 0 {
        EndInside(query, lower, baseStart);
        FillBackward(query, lower, baseEnd, baseScratch);
        assert baseScratch[..] == Window(query, lower, baseStart);
        var baseScore := ScorePositions(baseScratch, path, baseStart);
        if baseScore > bestScore {
          best := baseScratch;
          bestScore := baseScore;
        }
      }
    }
    CopyInto(best, out);
    return Some(bestScore);
  }

  /** The closing loop of `matchInto`. */
  method CopyInto(from: array<int>, out: array<int>)
    requires from != out && from.Length == out.Length
    modifies out
    ensures out[..] == from[..]
  {
    for k := 0 to out.Length
      invariant out[..k] == from[..k]
    {
      out[k] := from[k];
    }
    assert out[..out.Length] == out[..] && from[..out.Length] == from[..];
  }

  // ---------------------------------------------------------------------------------------------
  // What a reported match is
  // ---------------------------------------------------------------------------------------------

  ghost predicate IsSubsequence(query: Text, path: Text) { exists pos :: Match(query, path, pos) }

  /** The answer is null exactly when the query is not a subsequence of the path. */
  lemma NullIffNoSubsequence(query: Text, lower: Text, path: Text)
    requires query != [] && |path| == |lower|
    ensures MatchOf(query, lower, path).None? <==> !IsSubsequence(query, lower)
  {
    hide EndFrom, Score;
    if EndFrom(query, lower, 0) >= 0 {
      assert MatchFrom(query, lower, 0, Window(query, lower, 0));
    } else {
      forall pos | Match(query, lower, pos)
        ensures false
      {
        assert MatchFrom(query, lower, 0, pos);
        EndIsEarliest(query, lower, 0, pos);
      }
    }
  }

  /** No match from `from` ends before the window, and none that ends with it is later at any letter. */
  lemma WindowIsEarliestAndTightest(query: Text, path: Text, from: nat, pos: seq<int>)
    requires query != [] && EndFrom(query, path, from) >= 0
    requires MatchFrom(query, path, from, pos)
    ensures var window := Window(query, path, from);
            && window[|query| - 1] <= pos[|query| - 1]
            && (pos[|query| - 1] == window[|query| - 1] ==> forall k :: 0 <= k < |query| ==> pos[k] <= window[k])
  {
    hide EndFrom, Latest;
    EndInside(query, path, from);
    EndIsEarliest(query, path, from, pos);
    if pos[|query| - 1] == EndFrom(query, path, from) {
      LatestIsTightest(query, path, EndFrom(query, path, from), pos);
    }
  }

  /**
   * What a reported match is: it spells the query at strictly ascending positions; it is the tightest window at the
   * earliest end of any match in the whole path, or of any match in the basename, which it then never leaves; and no
   * window the matcher considered scores higher.
   */
  lemma ReportedMatch(query: Text, lower: Text, path: Text)
    requires query != [] && |path| == |lower| && MatchOf(query, lower, path).Some?
    ensures var found, base := MatchOf(query, lower, path).value, BaseStart(lower);
            && Match(query, lower, found.positions)
            && found.score == Score(found.positions, path, base)
            && EndFrom(query, lower, 0) >= 0
            && found.score >= Score(Window(query, lower, 0), path, base)
            && (found.positions == Window(query, lower, 0)
                || (EndFrom(query, lower, base) >= 0 && found.positions == Window(query, lower, base)
                    && InBasename(found.positions, base) && found.score > Score(Window(query, lower, 0), path, base)))
  {
    hide EndFrom, Latest, Score;
    var found, base := MatchOf(query, lower, path).value, BaseStart(lower);
    if found.positions != Window(query, lower, 0) {
      FirstIsLowest(query, lower, found.positions);
    }
  }

  lemma {:induction false} FirstIsLowest(query: Text, path: Text, pos: seq<int>)
    requires Match(query, path, pos)
    ensures forall k :: 0 <= k < |pos| ==> pos[0] <= pos[k]
    decreases |pos|
  {
    if |pos| > 1 {
      var init := pos[..|pos| - 1];
      DropLast(query, path, pos);
      FirstIsLowest(query[..|pos| - 1], path, init);
      assert forall k :: 0 <= k < |init| ==> pos[k] == init[k];
      assert pos[0] <= init[|init| - 1];
    }
  }

  /** A match lies wholly in the basename only if some match of the basename exists, and the matcher then tries it. */
  lemma BasenameTriedIff(query: Text, lower: Text)
    requires query != []
    ensures EndFrom(query, lower, BaseStart(lower)) >= 0
            <==> exists pos :: Match(query, lower, pos) && InBasename(pos, BaseStart(lower))
  {
    hide EndFrom;
    var base := BaseStart(lower);
    if EndFrom(query, lower, base) >= 0 {
      FirstIsLowest(query, lower, Window(query, lower, base));
      assert InBasename(Window(query, lower, base), base);
    } else {
      forall pos | Match(query, lower, pos) && InBasename(pos, base)
        ensures false
      {
        assert MatchFrom(query, lower, base, pos);
        EndIsEarliest(query, lower, base, pos);
      }
    }
  }
}
