/**
 * Ranking many paths (src/shared/fuzzyPath.ts, `rankFuzzyPaths`): a bounded array kept by insertion, proved to hold the
 * front of the stable sort of every match seen so far.
 */
module FuzzyRank {
  import opened Utf16
  import opened Options
  import opened FuzzyMatch
  import Sequences

  datatype Ranked = Ranked(index: nat, score: int, positions: seq<int>)

  // ---------------------------------------------------------------------------------------------
  // The order and the sort
  // ---------------------------------------------------------------------------------------------

  /** Best first; equal scores keep candidate order. */
  predicate Before(a: Ranked, b: Ranked)
  {
    a.score > b.score || (a.score == b.score && a.index < b.index)
  }

  predicate Sorted(s: seq<Ranked>) { forall i, j :: 0 <= i < j < |s| ==> Before(s[i], s[j]) }

  predicate InCandidateOrder(s: seq<Ranked>) { forall i, j :: 0 <= i < j < |s| ==> s[i].index < s[j].index }

  /** `e` put after every entry that scores at least as much. */
  function Insert(e: Ranked, s: seq<Ranked>): seq<Ranked>
  {
    if s == [] || s[|s| - 1].score >= e.score then s + [e]
    else Insert(e, s[..|s| - 1]) + [s[|s| - 1]]
  }

  /** Insertion sort of entries in candidate order. */
  function StableSort(entries: seq<Ranked>): seq<Ranked>
  {
    if entries == [] then [] else Insert(entries[|entries| - 1], StableSort(entries[..|entries| - 1]))
  }

  function Top(s: seq<Ranked>, limit: nat): seq<Ranked> { if |s| <= limit then s else s[..limit] }

  lemma {:induction false} InsertKeeps(e: Ranked, s: seq<Ranked>)
    ensures |Insert(e, s)| == |s| + 1
    ensures multiset(Insert(e, s)) == multiset(s) + multiset{e}
    decreases |s|
  {
    if s != [] && s[|s| - 1].score < e.score {
      InsertKeeps(e, s[..|s| - 1]);
      assert s == s[..|s| - 1] + [s[|s| - 1]];
    }
  }

  lemma {:induction false} InsertSorted(e: Ranked, s: seq<Ranked>)
    requires Sorted(s) && forall i :: 0 <= i < |s| ==> s[i].index < e.index
    ensures Sorted(Insert(e, s))
    ensures forall x :: x in Insert(e, s) ==> x == e || x in s
    decreases |s|
  {
    if s == [] || s[|s| - 1].score >= e.score {
      assert forall i :: 0 <= i < |s| - 1 ==> Before(s[i], s[|s| - 1]);
    } else {
      var init, last := s[..|s| - 1], s[|s| - 1];
      InsertSorted(e, init);
      var r := Insert(e, init);
      forall i | 0 <= i < |r|
        ensures Before(r[i], last)
      {
        assert r[i] in r;
      }
    }
  }

  /** The sort keeps every entry, puts better ones first and equal ones in candidate order. */
  lemma {:induction false} StableSortSorts(entries: seq<Ranked>)
    requires InCandidateOrder(entries)
    ensures Sorted(StableSort(entries)) && multiset(StableSort(entries)) == multiset(entries)
    ensures |StableSort(entries)| == |entries|
    decreases |entries|
  {
    hide *;
    SortStep(entries);
    if entries != [] {
      var init, e := entries[..|entries| - 1], entries[|entries| - 1];
      var s := StableSort(init);
      assert entries == init + [e];
      InitInOrder(init, e);
      StableSortSorts(init);
      SortedIsEarlier(init, e, s);
      InsertSorted(e, s);
      InsertKeeps(e, s);
    }
  }

  lemma SortStep(entries: seq<Ranked>)
    ensures entries == [] ==> StableSort(entries) == [] && Sorted([])
    ensures entries != [] ==> StableSort(entries) == Insert(entries[|entries| - 1], StableSort(entries[..|entries| - 1]))
  {
    hide Insert;
  }

  lemma InitInOrder(init: seq<Ranked>, e: Ranked)
    requires InCandidateOrder(init + [e])
    ensures InCandidateOrder(init)
  {
    var entries := init + [e];
    assert forall i :: 0 <= i < |init| ==> entries[i] == init[i];
  }

  lemma SortedIsEarlier(init: seq<Ranked>, e: Ranked, s: seq<Ranked>)
    requires InCandidateOrder(init + [e]) && multiset(s) == multiset(init)
    ensures forall i :: 0 <= i < |s| ==> s[i].index < e.index
  {
    var entries := init + [e];
    forall i | 0 <= i < |s|
      ensures s[i].index < e.index
    {
      assert s[i] in multiset(s);
      assert s[i] in init;
      var j :| 0 <= j < |init| && init[j] == s[i];
      assert entries[j].index < entries[|init|].index;
    }
  }

  lemma FirstIsBest(s: seq<Ranked>, x: Ranked)
    requires Sorted(s) && x in s
    ensures s[0] == x || Before(s[0], x)
  {
  }

  /** Two sorted lists of the same entries are the same list, so the order alone decides the ranking. */
  lemma {:induction false} SortIsUnique(a: seq<Ranked>, b: seq<Ranked>)
    requires Sorted(a) && Sorted(b) && multiset(a) == multiset(b)
    ensures a == b
    decreases |a|
  {
    assert |a| == |multiset(a)| == |multiset(b)| == |b|;
    if a != [] {
      assert a[0] in multiset(b) && b[0] in multiset(a);
      FirstIsBest(a, b[0]);
      FirstIsBest(b, a[0]);
      Sequences.HeadTail(a);
      Sequences.HeadTail(b);
      assert multiset(a[1..]) == multiset(a) - multiset{a[0]};
      assert multiset(b[1..]) == multiset(b) - multiset{b[0]};
      SortIsUnique(a[1..], b[1..]);
    }
  }

  // ---------------------------------------------------------------------------------------------
  // The bounded array
  // ---------------------------------------------------------------------------------------------

  /** Entries past the limit never matter: inserting into the kept front and cutting gives the front of inserting into all. */
  lemma {:induction false} InsertIntoTop(e: Ranked, s: seq<Ranked>, limit: nat)
    requires Sorted(s)
    ensures Top(Insert(e, Top(s, limit)), limit) == Top(Insert(e, s), limit)
    decreases |s|
  {
    if |s| > limit {
      var init, last := s[..|s| - 1], s[|s| - 1];
      assert Top(init, limit) == Top(s, limit);
      InsertKeeps(e, init);
      if last.score < e.score {
        InsertIntoTop(e, init, limit);
      } else if limit > 0 {
        assert Before(s[limit - 1], last) || limit == |s|;
      }
    }
  }

  /** The loop of the source: stepping back over lower scores finds the place `Insert` uses. */
  method InsertionPoint(top: seq<Ranked>, e: Ranked) returns (at: nat)
    ensures at <= |top| && top[..at] + [e] + top[at..] == Insert(e, top)
  {
    at := |top|;
    assert top[..at] == top && top[at..] == [];
    Sequences.Empty(Insert(e, top));
    while at > 0 && top[at - 1].score < e.score
      invariant at <= |top|
      invariant Insert(e, top[..at]) + top[at..] == Insert(e, top)
    {
      assert top[..at][..at - 1] == top[..at - 1];
      Sequences.DropStep(top, at - 1);
      Sequences.Assoc(Insert(e, top[..at - 1]), [top[at - 1]], top[at..]);
      at := at - 1;
    }
  }

  // ---------------------------------------------------------------------------------------------
  // Candidates
  // ---------------------------------------------------------------------------------------------

  /** Paths with their lower-case copies, unit for unit as long. */
  datatype Candidates = Candidates(paths: seq<Text>, lower: seq<Text>)
  {
    ghost predicate Valid()
    {
      |paths| == |lower| && forall i :: 0 <= i < |paths| ==> |paths[i]| == |lower[i]|
    }
  }

  function Slashes(path: Text): nat
  {
    if path == [] then 0 else Slashes(path[..|path| - 1]) + (if path[|path| - 1] == SLASH then 1 else 0)
  }

  method PathDepthScore(path: Text) returns (score: int)
    ensures score == DepthScore(path)
  {
    var slashes := 0;
    for i := 0 to |path|
      invariant slashes == Slashes(path[..i])
    {
      assert path[..i + 1][..i] == path[..i];
      if path[i] == SLASH {
        slashes := slashes + 1;
      }
    }
    assert path[..|path|] == path;
    score := -10 * (slashes * 1000 + |path|);
  }

  function DepthScore(path: Text): int { -10 * (Slashes(path) * 1000 + |path|) }

  /** The entry of one candidate: every path for an empty query, else its reported match. */
  function EntryOf(query: Text, lower: Text, path: Text, index: nat): Option<Ranked>
    requires |lower| == |path|
  {
    if query == [] then Some(Ranked(index, DepthScore(path), []))
    else
      match MatchOf(query, lower, path)
      case None => None
      case Some(found) => Some(Ranked(index, found.score, found.positions))
  }

  /** The entries of the first `n` candidates, in candidate order. */
  function Entries(query: Text, c: Candidates, n: nat): (r: seq<Ranked>)
    requires c.Valid() && n <= |c.paths|
    ensures forall k :: 0 <= k < |r| ==> r[k].index < n
    ensures InCandidateOrder(r)
  {
    if n == 0 then []
    else
      match EntryOf(query, c.lower[n - 1], c.paths[n - 1], n - 1)
      case None => Entries(query, c, n - 1)
      case Some(e) => Entries(query, c, n - 1) + [e]
  }

  /** `limit`, `deadline` and `yieldEvery`, and what the clock shows when it is read before candidate `i`. */
  datatype RankOptions = RankOptions(limit: nat, deadline: Option<int>, yieldEvery: nat, now: nat -> int)
  {
    predicate Expired(i: nat)
    {
      i > 0 && yieldEvery > 0 && i % yieldEvery == 0 && deadline.Some? && now(i) > deadline.value
    }
  }

  /** How many candidates are scanned before the deadline is seen to have passed. */
  function Scanned(options: RankOptions, total: nat, i: nat): (n: nat)
    requires i <= total
    ensures i <= n <= total
    decreases total - i
  {
    if i == total || options.Expired(i) then i else Scanned(options, total, i + 1)
  }

  /** The ranking the whole function promises: the best `limit` matches of the scanned candidates. */
  function Best(query: Text, c: Candidates, n: nat, limit: nat): seq<Ranked>
    requires c.Valid() && n <= |c.paths|
  {
    Top(StableSort(Entries(query, c, n)), limit)
  }

  /** One more matching candidate: its entry goes into the kept front. */
  lemma BestStep(query: Text, c: Candidates, n: nat, limit: nat)
    requires c.Valid() && n < |c.paths|
    ensures match EntryOf(query, c.lower[n], c.paths[n], n)
            case None => Best(query, c, n + 1, limit) == Best(query, c, n, limit)
            case Some(e) => Best(query, c, n + 1, limit) == Top(Insert(e, Best(query, c, n, limit)), limit)
  {
    var r := EntryOf(query, c.lower[n], c.paths[n], n);
    if r.Some? {
      var entries, e := Entries(query, c, n), r.value;
      assert Entries(query, c, n + 1) == entries + [e];
      hide Insert, Entries, EntryOf;
      assert (entries + [e])[..|entries|] == entries;
      StableSortSorts(entries);
      InsertIntoTop(e, StableSort(entries), limit);
    }
  }

  /** Scores one candidate in the shared scratch arrays. */
  method ScoreCandidate(query: Text, lower: Text, path: Text, index: nat, whole: array<int>, base: array<int>, out: array<int>)
    returns (e: Option<Ranked>)
    requires |lower| == |path|
    requires whole.Length == base.Length == out.Length == |query|
    requires whole != base && whole != out && base != out
    modifies whole, base, out
    ensures e == EntryOf(query, lower, path, index)
  {
    if query == [] {
      var depth := PathDepthScore(path);
      return Some(Ranked(index, depth, []));
    }
    var score := MatchInto(query, lower, path, whole, base, out);
    if score == None {
      return None;
    }
    return Some(Ranked(index, score.value, out[..]));
  }

  /**
   * Ranks candidates for a query, best first, keeping only `limit` of them. The result is exactly the first `limit` entries
   * of the stable sort of all matches among the scanned candidates, and `complete` says whether those were all.
   */
  method RankFuzzyPaths(query: Text, c: Candidates, options: RankOptions) returns (results: seq<Ranked>, complete: bool)
    requires c.Valid() && options.limit >= 1
    ensures results == Best(query, c, Scanned(options, |c.paths|, 0), options.limit)
    ensures complete <==> Scanned(options, |c.paths|, 0) == |c.paths|
  {
    hide Insert, StableSort, MatchOf, RankOptions.Expired;
    var top: seq<Ranked> := [];
    var whole := new int[|query|];
    var base := new int[|query|];
    var positions := new int[|query|];
    assert Entries(query, c, 0) == [];
    EmptySort(options.limit);
    for i := 0 to |c.paths|
      invariant top == Best(query, c, i, options.limit)
      invariant Scanned(options, |c.paths|, 0) == Scanned(options, |c.paths|, i)
    {
      if options.Expired(i) {
        return top, false;
      }
      BestStep(query, c, i, options.limit);
      var scored := ScoreCandidate(query, c.lower[i], c.paths[i], i, whole, base, positions);
      if scored == None {
        continue;
      }
      var e := scored.value;
      if |top| >= options.limit && e.score <= top[|top| - 1].score {
        InsertLast(e, top);
        continue;
      }
      var at := InsertionPoint(top, e);
      top := top[..at] + [e] + top[at..];
      if |top| > options.limit {
        top := top[..|top| - 1];
      }
    }
    return top, true;
  }

  lemma EmptySort(limit: nat)
    ensures Top(StableSort([]), limit) == []
  {
  }

  lemma InsertLast(e: Ranked, s: seq<Ranked>)
    requires s != [] && s[|s| - 1].score >= e.score
    ensures Insert(e, s) == s + [e]
  {
  }

  // ---------------------------------------------------------------------------------------------
  // What the ranking means
  // ---------------------------------------------------------------------------------------------

  /** Every matching candidate among the first `n` is either listed, or ranked after everything listed while the list is full. */
  lemma NothingBetterIsLeftOut(query: Text, c: Candidates, n: nat, limit: nat, i: nat)
    requires c.Valid() && i < n <= |c.paths| && EntryOf(query, c.lower[i], c.paths[i], i).Some?
    ensures var e, best := EntryOf(query, c.lower[i], c.paths[i], i).value, Best(query, c, n, limit);
            e in best || (|best| == limit && forall k :: 0 <= k < |best| ==> Before(best[k], e))
  {
    var e, entries := EntryOf(query, c.lower[i], c.paths[i], i).value, Entries(query, c, n);
    EntryListed(query, c, n, i);
    StableSortSorts(entries);
    var s := StableSort(entries);
    assert e in multiset(entries) && e in multiset(s);
    BestIs(query, c, n, limit);
    hide *;
    TopHolds(s, limit, e);
  }

  lemma BestIs(query: Text, c: Candidates, n: nat, limit: nat)
    requires c.Valid() && n <= |c.paths|
    ensures Best(query, c, n, limit) == Top(StableSort(Entries(query, c, n)), limit)
  {
  }

  /** An entry of a sorted list is among the first ones, or after all of them. */
  lemma TopHolds(s: seq<Ranked>, limit: nat, e: Ranked)
    requires Sorted(s) && e in s
    ensures e in Top(s, limit) || (|Top(s, limit)| == limit && forall k :: 0 <= k < limit ==> Before(Top(s, limit)[k], e))
  {
    var j :| 0 <= j < |s| && s[j] == e;
    if j < limit {
      assert Top(s, limit)[j] == e;
    }
  }

  lemma {:induction false} EntryListed(query: Text, c: Candidates, n: nat, i: nat)
    requires c.Valid() && i < n <= |c.paths| && EntryOf(query, c.lower[i], c.paths[i], i).Some?
    ensures EntryOf(query, c.lower[i], c.paths[i], i).value in Entries(query, c, n)
  {
    hide EntryOf;
    if i < n - 1 {
      EntryListed(query, c, n - 1, i);
    }
  }

  lemma BestIsSorted(query: Text, c: Candidates, n: nat, limit: nat)
    requires c.Valid() && n <= |c.paths|
    ensures Sorted(Best(query, c, n, limit))
  {
    StableSortSorts(Entries(query, c, n));
    hide StableSort, Entries;
  }

  /** What is listed under an index is the entry of that candidate. */
  lemma ListedEntry(query: Text, c: Candidates, n: nat, limit: nat, place: nat)
    requires c.Valid() && n <= |c.paths| && place < |Best(query, c, n, limit)|
    ensures var e := Best(query, c, n, limit)[place];
            e.index < n && EntryOf(query, c.lower[e.index], c.paths[e.index], e.index) == Some(e)
  {
    var entries := Entries(query, c, n);
    var s := StableSort(entries);
    StableSortSorts(entries);
    hide StableSort, EntryOf;
    assert Best(query, c, n, limit)[place] == s[place];
    assert s[place] in multiset(s);
    assert s[place] in multiset(entries);
    EntriesAre(query, c, n, s[place]);
  }

  lemma {:induction false} EntriesAre(query: Text, c: Candidates, n: nat, e: Ranked)
    requires c.Valid() && n <= |c.paths| && e in Entries(query, c, n)
    ensures e.index < n && EntryOf(query, c.lower[e.index], c.paths[e.index], e.index) == Some(e)
  {
    IndexOf(query, c.lower[n - 1], c.paths[n - 1], n - 1);
    hide EntryOf;
    var last := EntryOf(query, c.lower[n - 1], c.paths[n - 1], n - 1);
    if last != Some(e) {
      EntriesAre(query, c, n - 1, e);
    }
  }

  lemma IndexOf(query: Text, lower: Text, path: Text, index: nat)
    requires |lower| == |path|
    ensures EntryOf(query, lower, path, index).Some? ==> EntryOf(query, lower, path, index).value.index == index
  {
  }

  // ---------------------------------------------------------------------------------------------
  // Empty queries, and how far the scan goes
  // ---------------------------------------------------------------------------------------------

  function SlashPlaces(path: Text): set<nat> { set i: nat | i < |path| && path[i] == SLASH }

  lemma {:induction false} SlashesAreCounted(path: Text)
    ensures Slashes(path) == |SlashPlaces(path)|
  {
    if path == [] {
      assert SlashPlaces(path) == {};
    } else {
      var front, n := path[..|path| - 1], |path| - 1;
      SlashesAreCounted(front);
      assert SlashPlaces(path) == if path[n] == SLASH then SlashPlaces(front) + {n} else SlashPlaces(front);
    }
  }

  /**
   * An empty query lists every path, and a path with fewer slashes before one with more exactly when it is not longer by
   * a thousand characters for each slash it has less, or more: at just that length the earlier candidate comes first.
   */
  lemma ShallowerFirstIff(c: Candidates, i: nat, j: nat)
    requires c.Valid() && i < |c.paths| && j < |c.paths|
    requires |SlashPlaces(c.paths[i])| < |SlashPlaces(c.paths[j])|
    ensures var a, b := EntryOf([], c.lower[i], c.paths[i], i), EntryOf([], c.lower[j], c.paths[j], j);
            var allowed := 1000 * (|SlashPlaces(c.paths[j])| - |SlashPlaces(c.paths[i])|);
            && a.Some? && b.Some?
            && (Before(a.value, b.value)
                <==> |c.paths[i]| < |c.paths[j]| + allowed || (|c.paths[i]| == |c.paths[j]| + allowed && i < j))
  {
    SlashesAreCounted(c.paths[i]);
    SlashesAreCounted(c.paths[j]);
  }

  lemma {:induction false} EmptyQueryListsAll(c: Candidates, n: nat)
    requires c.Valid() && n <= |c.paths|
    ensures |Entries([], c, n)| == n
  {
    if n > 0 {
      EmptyQueryListsAll(c, n - 1);
    }
  }

  /** With an empty query no candidate scanned is left out while there is room. */
  lemma EmptyQueryFillsList(c: Candidates, n: nat, limit: nat)
    requires c.Valid() && n <= |c.paths|
    ensures |Best([], c, n, limit)| == if n < limit then n else limit
  {
    EmptyQueryListsAll(c, n);
    StableSortSorts(Entries([], c, n));
    assert |multiset(StableSort(Entries([], c, n)))| == |multiset(Entries([], c, n))|;
  }

  /**
   * The scan ends before the first candidate, at a multiple of the yield interval, at which the clock is past the deadline;
   * without such a candidate it covers all.
   */
  lemma {:induction false} ScanStops(options: RankOptions, total: nat, i: nat)
    requires i <= total
    ensures var n := Scanned(options, total, i);
            && (n < total ==> n > 0 && options.yieldEvery > 0 && n % options.yieldEvery == 0
                              && options.deadline.Some? && options.now(n) > options.deadline.value)
            && forall k :: i <= k < n && k > 0 && options.yieldEvery > 0 && k % options.yieldEvery == 0 && options.deadline.Some? ==>
                             options.now(k) <= options.deadline.value
    decreases total - i
  {
    if i < total && !options.Expired(i) {
      ScanStops(options, total, i + 1);
    }
  }
}
