/**
 * Line edit counts, streaks and usage totals (src/shared/lineEditStats.ts). Days are numbers; the text of a date and the
 * time zone it was read in are outside.
 */
module LineEditStats {
  import opened Options
  import Lines
  import MapSums
  import Sequences

  // ---------------------------------------------------------------------------------------------
  // countLineEdits is a metric
  // ---------------------------------------------------------------------------------------------

  /** The line at a position, or nothing past the end. */
  function LineAt(lines: seq<string>, k: nat): Option<string> { if k < |lines| then Some(lines[k]) else None }

  /** At how many of the first `n` positions two texts differ, a missing line differing from any present one. */
  function Differences(a: seq<string>, b: seq<string>, n: nat): nat
  {
    if n == 0 then 0 else Differences(a, b, n - 1) + (if LineAt(a, n - 1) != LineAt(b, n - 1) then 1 else 0)
  }

  function Longer(a: seq<string>, b: seq<string>): nat { if |a| < |b| then |b| else |a| }

  function LinesOf(text: string): seq<string> { Lines.Split(text, '\n') }

  function LineDistance(before: string, after: string): nat
  {
    Differences(LinesOf(before), LinesOf(after), Longer(LinesOf(before), LinesOf(after)))
  }

  /** Past the shorter text every position differs, up to the end of the longer one. */
  lemma {:induction false} TailDifferences(a: seq<string>, b: seq<string>, m: nat, n: nat)
    requires m == (if |a| < |b| then |a| else |b|) && m <= n <= Longer(a, b)
    ensures Differences(a, b, n) == Differences(a, b, m) + (n - m)
  {
    if m < n {
      TailDifferences(a, b, m, n - 1);
    }
  }

  method CountLineEdits(before: string, after: string) returns (changed: nat)
    ensures changed == LineDistance(before, after)
  {
    var a, b := LinesOf(before), LinesOf(after);
    hide LinesOf;
    var minLen := if |a| < |b| then |a| else |b|;
    ghost var extra := Longer(a, b) - minLen;
    changed := if |a| < |b| then |b| - |a| else |a| - |b|;
    for i := 0 to minLen
      invariant changed == extra + Differences(a, b, i)
    {
      if a[i] != b[i] {
        changed := changed + 1;
      }
    }
    TailDifferences(a, b, minLen, Longer(a, b));
  }

  /** The positions below `n` at which the texts differ. */
  function DifferingPositions(a: seq<string>, b: seq<string>, n: nat): set<nat>
  {
    set k: nat | k < n && LineAt(a, k) != LineAt(b, k)
  }

  lemma {:induction false} DifferencesAreCounted(a: seq<string>, b: seq<string>, n: nat)
    ensures Differences(a, b, n) == |DifferingPositions(a, b, n)|
  {
    if n == 0 {
      assert DifferingPositions(a, b, n) == {};
    } else {
      DifferencesAreCounted(a, b, n - 1);
      var before := DifferingPositions(a, b, n - 1);
      assert DifferingPositions(a, b, n) == if LineAt(a, n - 1) != LineAt(b, n - 1) then before + {n - 1} else before;
    }
  }

  /** The count is the number of positions at which the lines differ, those included that only one text has. */
  lemma LineDistanceIsNumber(before: string, after: string)
    ensures var a, b := LinesOf(before), LinesOf(after);
            LineDistance(before, after) == |set k: nat | k < Longer(a, b) && LineAt(a, k) != LineAt(b, k)|
  {
    hide LinesOf;
    DifferencesAreCounted(LinesOf(before), LinesOf(after), Longer(LinesOf(before), LinesOf(after)));
  }

  /** Positions past both ends add nothing. */
  lemma {:induction false} PastBothEnds(a: seq<string>, b: seq<string>, n: nat)
    requires n >= Longer(a, b)
    ensures Differences(a, b, n) == Differences(a, b, Longer(a, b))
  {
    if n > Longer(a, b) {
      PastBothEnds(a, b, n - 1);
    }
  }

  lemma {:induction false} DifferencesTriangle(a: seq<string>, b: seq<string>, c: seq<string>, n: nat)
    ensures Differences(a, c, n) <= Differences(a, b, n) + Differences(b, c, n)
  {
    if n > 0 {
      DifferencesTriangle(a, b, c, n - 1);
    }
  }

  lemma {:induction false} DifferencesSymmetric(a: seq<string>, b: seq<string>, n: nat)
    ensures Differences(a, b, n) == Differences(b, a, n)
  {
    if n > 0 {
      DifferencesSymmetric(a, b, n - 1);
    }
  }

  lemma {:induction false} NoDifferences(a: seq<string>, b: seq<string>, n: nat)
    ensures Differences(a, b, n) == 0 <==> forall k: nat :: k < n ==> LineAt(a, k) == LineAt(b, k)
  {
    if n > 0 {
      NoDifferences(a, b, n - 1);
    }
  }

  lemma SameLineAt(a: seq<string>, b: seq<string>, k: nat)
    requires LineAt(a, k) == LineAt(b, k)
    ensures k < |a| <==> k < |b|
    ensures k < |a| ==> a[k] == b[k]
  {
  }

  lemma SameLines(a: seq<string>, b: seq<string>)
    requires forall k: nat :: k < Longer(a, b) ==> LineAt(a, k) == LineAt(b, k)
    ensures a == b
  {
    var m := if |a| < |b| then |a| else |b|;
    if m < Longer(a, b) {
      SameLineAt(a, b, m);
    }
    forall k: nat | k < |a|
      ensures k < |b| && a[k] == b[k]
    {
      SameLineAt(a, b, k);
    }
  }

  lemma DistanceZeroIff(a: seq<string>, b: seq<string>)
    ensures Differences(a, b, Longer(a, b)) == 0 <==> a == b
  {
    NoDifferences(a, b, Longer(a, b));
    if Differences(a, b, Longer(a, b)) == 0 {
      SameLines(a, b);
    }
  }

  /** The count is a metric on texts: zero only between equal texts, symmetric, and never shortened by a detour. */
  lemma LineDistanceIsMetric(x: string, y: string, z: string)
    ensures LineDistance(x, y) == 0 <==> x == y
    ensures LineDistance(x, y) == LineDistance(y, x)
    ensures LineDistance(x, z) <= LineDistance(x, y) + LineDistance(y, z)
  {
    var a, b, c := LinesOf(x), LinesOf(y), LinesOf(z);
    assert a == b <==> x == y by { Lines.SplitInjective(x, y, '\n'); }
    hide LinesOf;
    var n := Longer(a, b) + Longer(b, c) + Longer(a, c);
    PastBothEnds(a, b, n);
    PastBothEnds(b, c, n);
    PastBothEnds(a, c, n);
    DifferencesTriangle(a, b, c, n);
    DifferencesSymmetric(a, b, Longer(a, b));
    DistanceZeroIff(a, b);
  }

  // ---------------------------------------------------------------------------------------------
  // Streaks
  // ---------------------------------------------------------------------------------------------

  /** `n` consecutive active days from `first`. */
  ghost predicate Streak(active: set<int>, first: int, n: nat) { forall d :: first <= d < first + n ==> d in active }

  /** The streak of `n` days that ends on `last` and cannot be extended back. */
  ghost predicate StreakEnding(active: set<int>, last: int, n: nat) { Streak(active, last - n + 1, n) && last - n !in active }

  datatype Streaks = Streaks(longest: nat, current: nat)

  ghost predicate IsLongest(active: set<int>, n: nat)
  {
    && (exists first :: Streak(active, first, n))
    && forall first, m: nat :: Streak(active, first, m) ==> m <= n
  }

  /** No longer streak ends on `last` than one that cannot be extended back. */
  lemma EndingIsLongest(active: set<int>, last: int, n: nat, first: int, m: nat)
    requires StreakEnding(active, last, n) && Streak(active, first, m) && first + m - 1 == last
    ensures m <= n
  {
    assert m > n ==> first <= last - n < first + m;
  }

  /** Between two neighbours of the sorted list no day is active. */
  lemma GapIsIdle(days: seq<int>, active: set<int>, i: nat, d: int)
    requires Sequences.Ascending(days) && (forall x :: x in active <==> x in days)
    requires 0 < i < |days| && days[i - 1] < d < days[i]
    ensures d !in active
  {
    forall j | 0 <= j < |days|
      ensures days[j] != d
    {
      if j < i - 1 {
        assert days[j] < days[i - 1];
      } else if j > i {
        assert days[i] < days[j];
      }
    }
  }

  /** `days` is the set of active days in order, as the source sorts them. */
  method ComputeStreaks(days: seq<int>, active: set<int>, reference: int) returns (r: Streaks)
    requires Sequences.Ascending(days) && forall x :: x in active <==> x in days
    ensures IsLongest(active, r.longest)
    ensures StreakEnding(active, reference, r.current)
  {
    if days == [] {
      NoStreaks(active, reference);
      return Streaks(0, 0);
    }
    var longest := 1;
    var run := 1;
    FirstDay(days, active);
    for i := 1 to |days|
      invariant 1 <= run <= longest
      invariant StreakEnding(active, days[i - 1], run)
      invariant exists first :: Streak(active, first, longest)
      invariant forall k, first, m: nat :: 0 <= k < i && Streak(active, first, m) && first + m - 1 == days[k] ==> m <= longest
    {
      var diffDays := days[i] - days[i - 1];
      ghost var before := run;
      if diffDays == 1 {
        run := run + 1;
        longest := if run > longest then run else longest;
      } else if diffDays > 1 {
        run := 1;
      }
      NextDay(days, active, i, before, run);
      ghost var start := days[i] - run + 1;
      assert Streak(active, start, run);
      forall first, m: nat | Streak(active, first, m) && first + m - 1 == days[i]
        ensures m <= longest
      {
        EndingIsLongest(active, days[i], run, first, m);
      }
    }
    forall first, m: nat | Streak(active, first, m)
      ensures m <= longest
    {
      if m > 0 {
        assert first + m - 1 in active;
        var k :| 0 <= k < |days| && days[k] == first + m - 1;
      }
    }
    var current := CurrentStreak(active, reference);
    return Streaks(longest, current);
  }

  lemma StreakStarts(active: set<int>, first: int, n: nat)
    requires Streak(active, first, n)
    ensures n > 0 ==> first in active
  {
  }

  lemma NoStreaks(active: set<int>, reference: int)
    requires forall d :: d !in active
    ensures IsLongest(active, 0) && StreakEnding(active, reference, 0)
  {
    assert Streak(active, 0, 0);
    forall first, m: nat | Streak(active, first, m)
      ensures m <= 0
    {
      StreakStarts(active, first, m);
    }
  }

  lemma FirstDay(days: seq<int>, active: set<int>)
    requires days != [] && Sequences.Ascending(days) && forall x :: x in active <==> x in days
    ensures StreakEnding(active, days[0], 1) && Streak(active, days[0], 1)
    ensures forall first, m: nat :: Streak(active, first, m) && first + m - 1 == days[0] ==> m <= 1
  {
    forall j | 0 <= j < |days|
      ensures days[j] != days[0] - 1
    {
      if j > 0 {
        assert days[0] < days[j];
      }
    }
    forall first, m: nat | Streak(active, first, m) && first + m - 1 == days[0]
      ensures m <= 1
    {
      EndingIsLongest(active, days[0], 1, first, m);
    }
  }

  lemma NextDay(days: seq<int>, active: set<int>, i: nat, before: nat, run: nat)
    requires Sequences.Ascending(days) && (forall x :: x in active <==> x in days) && 1 <= i < |days|
    requires StreakEnding(active, days[i - 1], before)
    requires run == if days[i] - days[i - 1] == 1 then before + 1 else 1
    ensures StreakEnding(active, days[i], run)
  {
    if days[i] - days[i - 1] != 1 {
      GapIsIdle(days, active, i, days[i] - 1);
    }
  }

  /** The closing loop: counts back from the reference day while the day is active. */
  method CurrentStreak(active: set<int>, reference: int) returns (current: nat)
    ensures StreakEnding(active, reference, current)
  {
    current := 0;
    var cursor := reference;
    while cursor in active
      invariant cursor == reference - current && Streak(active, cursor + 1, current)
      decreases set d | d in active && d <= cursor
    {
      ghost var rest := set d | d in active && d <= cursor - 1;
      assert cursor in (set d | d in active && d <= cursor) && cursor !in rest;
      current := current + 1;
      cursor := cursor - 1;
    }
  }

  /** The current streak is never longer than the longest one, and the longest is unique. */
  lemma CurrentWithinLongest(active: set<int>, reference: int, r: Streaks, other: nat)
    requires IsLongest(active, r.longest) && StreakEnding(active, reference, r.current)
    ensures r.current <= r.longest
    ensures IsLongest(active, other) ==> other == r.longest
  {
  }

  // ---------------------------------------------------------------------------------------------
  // Recorded lines
  // ---------------------------------------------------------------------------------------------

  datatype Source = Orchestrator | Manual

  datatype DayRecord = DayRecord(orchestrator: int, manual: int)

  const EMPTY_DAY := DayRecord(0, 0)

  function Total(r: DayRecord): int { r.orchestrator + r.manual }

  function MergeDayRecord(days: map<string, DayRecord>, dateKey: string, source: Source, lines: int): map<string, DayRecord>
  {
    if lines <= 0 then days
    else
      var existing := if dateKey in days then days[dateKey] else EMPTY_DAY;
      days[dateKey := match source
                      case Orchestrator => existing.(orchestrator := existing.orchestrator + lines)
                      case Manual => existing.(manual := existing.manual + lines)]
  }

  datatype Recording = Recording(dateKey: string, source: Source, lines: int)

  function Recorded(days: map<string, DayRecord>, recordings: seq<Recording>): map<string, DayRecord>
  {
    if recordings == [] then days
    else
      var r := recordings[|recordings| - 1];
      MergeDayRecord(Recorded(days, recordings[..|recordings| - 1]), r.dateKey, r.source, r.lines)
  }

  function Counted(recordings: seq<Recording>, source: Source): nat
  {
    if recordings == [] then 0
    else
      var r := recordings[|recordings| - 1];
      Counted(recordings[..|recordings| - 1], source) + (if r.lines > 0 && r.source == source then r.lines else 0)
  }

  predicate NonNegative(days: map<string, DayRecord>) { forall d :: d in days ==> days[d].orchestrator >= 0 && days[d].manual >= 0 }

  function TabLines(r: DayRecord): int { r.orchestrator }

  function AgentLines(r: DayRecord): int { r.manual }

  function LinesOfSource(source: Source): DayRecord -> int { if source.Orchestrator? then TabLines else AgentLines }

  /** What one recording does to the sum over the days of one source. */
  lemma MergeAdds(days: map<string, DayRecord>, r: Recording, source: Source)
    ensures MapSums.Sum(MergeDayRecord(days, r.dateKey, r.source, r.lines), LinesOfSource(source))
         == MapSums.Sum(days, LinesOfSource(source)) + (if r.lines > 0 && r.source == source then r.lines else 0)
  {
    if r.lines > 0 {
      var after := MergeDayRecord(days, r.dateKey, r.source, r.lines);
      hide MapSums.Sum;
      MapSums.SumUpdate(days, LinesOfSource(source), r.dateKey, after[r.dateKey]);
    }
  }

  /** Recording loses and invents no line of either source. */
  lemma {:induction false} RecordingConserves(recordings: seq<Recording>, source: Source)
    ensures NonNegative(Recorded(map[], recordings))
    ensures MapSums.Sum(Recorded(map[], recordings), LinesOfSource(source)) == Counted(recordings, source)
  {
    hide MapSums.Sum, LinesOfSource;
    if recordings == [] {
      MapSums.SumEmpty<string, DayRecord>(LinesOfSource(source));
    } else {
      var r := recordings[|recordings| - 1];
      var before := Recorded(map[], recordings[..|recordings| - 1]);
      RecordingConserves(recordings[..|recordings| - 1], source);
      MergeAdds(before, r, source);
    }
  }

  /** The lines of one source recorded for one day. */
  function CountedOn(recordings: seq<Recording>, day: string, source: Source): nat
  {
    if recordings == [] then 0
    else
      var r := recordings[0];
      (if r.dateKey == day && r.source == source && r.lines > 0 then r.lines else 0) + CountedOn(recordings[1..], day, source)
  }

  /** A day's lines of one source; a day without a record has none. */
  function LinesOn(days: map<string, DayRecord>, day: string, source: Source): int
  {
    if day !in days then 0 else LinesOfSource(source)(days[day])
  }

  lemma {:induction false} CountedOnLast(recordings: seq<Recording>, r: Recording, day: string, source: Source)
    ensures CountedOn(recordings + [r], day, source) == CountedOn(recordings, day, source) + CountedOn([r], day, source)
  {
    if recordings == [] {
      assert [] + [r] == [r];
    } else {
      assert (recordings + [r])[1..] == recordings[1..] + [r];
      CountedOnLast(recordings[1..], r, day, source);
    }
  }

  /**
   * Every line recorded is booked on its own day and under its own source: each day has what it had and what was recorded
   * for it, and a day is added exactly when a line was recorded for it.
   */
  lemma {:induction false} RecordedOnItsDay(days: map<string, DayRecord>, recordings: seq<Recording>, day: string)
    ensures forall source :: LinesOn(Recorded(days, recordings), day, source) == LinesOn(days, day, source) + CountedOn(recordings, day, source)
    ensures day in Recorded(days, recordings)
            <==> day in days || exists i :: 0 <= i < |recordings| && recordings[i].dateKey == day && recordings[i].lines > 0
  {
    if recordings != [] {
      var front, r := recordings[..|recordings| - 1], recordings[|recordings| - 1];
      assert recordings == front + [r];
      RecordedOnItsDay(days, front, day);
      forall source
        ensures CountedOn(recordings, day, source) == CountedOn(front, day, source) + CountedOn([r], day, source)
      {
        CountedOnLast(front, r, day, source);
      }
      MergeOnDay(Recorded(days, front), r, day);
    }
  }

  lemma MergeOnDay(days: map<string, DayRecord>, r: Recording, day: string)
    ensures var after := MergeDayRecord(days, r.dateKey, r.source, r.lines);
            && (forall source :: LinesOn(after, day, source) == LinesOn(days, day, source) + CountedOn([r], day, source))
            && (day in after <==> day in days || (r.dateKey == day && r.lines > 0))
  {
    assert [r][1..] == [];
    assert forall source :: CountedOn([], day, source) == 0;
  }

  datatype Best = Best(date: string, count: int)

  datatype Totals = Totals(total: int, totalTab: int, totalAgent: int, best: Option<Best>, activeDates: set<string>)

  /** `Object.entries(days)`: every key once, in some order. */
  ghost predicate EntriesOf(keys: seq<string>, days: map<string, DayRecord>)
  {
    && (forall i, j :: 0 <= i < j < |keys| ==> keys[i] != keys[j])
    && (forall k :: k in keys <==> k in days)
  }

  ghost function Firsts(days: map<string, DayRecord>, keys: seq<string>, n: nat): map<string, DayRecord>
    requires n <= |keys| && forall k :: k in keys ==> k in days
  {
    map k | k in keys[..n] :: days[k]
  }

  /** Lines of a day, as the snapshot counts them: a day whose total is not positive is skipped. */
  function CountedTab(r: DayRecord): int { if Total(r) > 0 then r.orchestrator else 0 }

  function CountedAgent(r: DayRecord): int { if Total(r) > 0 then r.manual else 0 }

  lemma FirstsStep(days: map<string, DayRecord>, keys: seq<string>, i: nat, f: DayRecord -> int)
    requires EntriesOf(keys, days) && i < |keys|
    ensures MapSums.Sum(Firsts(days, keys, i + 1), f) == MapSums.Sum(Firsts(days, keys, i), f) + f(days[keys[i]])
  {
    hide MapSums.Sum;
    assert keys[..i + 1] == keys[..i] + [keys[i]];
    assert Firsts(days, keys, i + 1) == Firsts(days, keys, i)[keys[i] := days[keys[i]]];
    MapSums.SumUpdate(Firsts(days, keys, i), f, keys[i], days[keys[i]]);
  }

  lemma AllFirsts(days: map<string, DayRecord>, keys: seq<string>)
    requires EntriesOf(keys, days)
    ensures Firsts(days, keys, 0) == map[] && Firsts(days, keys, |keys|) == days
  {
    assert keys[..|keys|] == keys;
  }

  /** The days of positive total, and a day of the largest total among them. */
  ghost predicate ActiveAmong(days: map<string, DayRecord>, keys: seq<string>, active: set<string>, best: Option<Best>)
    requires forall k :: k in keys ==> k in days
  {
    && (forall d :: d in active <==> d in keys && Total(days[d]) > 0)
    && (best.None? <==> active == {})
    && (best.Some? ==> best.value.date in active && best.value.count == Total(days[best.value.date])
                       && forall d :: d in active ==> Total(days[d]) <= best.value.count)
  }

  /** Of several best days it is the first in the list. */
  ghost predicate FirstBest(days: map<string, DayRecord>, keys: seq<string>, best: Best)
    requires forall k :: k in keys ==> k in days
  {
    exists i :: 0 <= i < |keys| && keys[i] == best.date && forall j :: 0 <= j < i ==> Total(days[keys[j]]) < best.count
  }

  lemma BestStays(days: map<string, DayRecord>, keys: seq<string>, i: nat, best: Best)
    requires i < |keys| && (forall k :: k in keys ==> k in days) && FirstBest(days, keys[..i], best)
    ensures FirstBest(days, keys[..i + 1], best)
  {
    var k :| 0 <= k < i && keys[..i][k] == best.date && forall j :: 0 <= j < k ==> Total(days[keys[..i][j]]) < best.count;
    assert keys[..i + 1][k] == best.date;
  }

  lemma BestMoves(days: map<string, DayRecord>, keys: seq<string>, i: nat, active: set<string>, before: Option<Best>)
    requires i < |keys| && (forall k :: k in keys ==> k in days) && ActiveAmong(days, keys[..i], active, before)
    requires Total(days[keys[i]]) > if before.Some? then before.value.count else 0
    requires before.Some? ==> before.value.count > 0
    ensures FirstBest(days, keys[..i + 1], Best(keys[i], Total(days[keys[i]])))
  {
    var front := keys[..i + 1];
    forall j | 0 <= j < i
      ensures Total(days[front[j]]) < Total(days[keys[i]])
    {
      assert front[j] == keys[..i][j] && keys[..i][j] in keys[..i];
    }
    assert front[i] == keys[i];
  }

  /** The first loop of `buildLineEditSnapshot`. */
  method SnapshotTotals(days: map<string, DayRecord>, keys: seq<string>) returns (t: Totals)
    requires EntriesOf(keys, days)
    ensures t.totalTab == MapSums.Sum(days, CountedTab)
    ensures t.totalAgent == MapSums.Sum(days, CountedAgent)
    ensures t.total == t.totalTab + t.totalAgent
    ensures ActiveAmong(days, keys, t.activeDates, t.best)
    ensures t.best.Some? ==> FirstBest(days, keys, t.best.value)
  {
    hide MapSums.Sum, Firsts, FirstBest;
    var total, totalTab, totalAgent := 0, 0, 0;
    var best: Option<Best> := None;
    var active: set<string> := {};
    AllFirsts(days, keys);
    MapSums.SumEmpty<string, DayRecord>(CountedTab);
    MapSums.SumEmpty<string, DayRecord>(CountedAgent);
    for i := 0 to |keys|
      invariant totalTab == MapSums.Sum(Firsts(days, keys, i), CountedTab)
      invariant totalAgent == MapSums.Sum(Firsts(days, keys, i), CountedAgent)
      invariant total == totalTab + totalAgent
      invariant ActiveAmong(days, keys[..i], active, best)
      invariant best.Some? ==> best.value.count > 0 && FirstBest(days, keys[..i], best.value)
    {
      var date := keys[i];
      var record := days[date];
      var dayTotal := Total(record);
      assert keys[..i + 1] == keys[..i] + [date];
      FirstsStep(days, keys, i, CountedTab);
      FirstsStep(days, keys, i, CountedAgent);
      if best.Some? {
        BestStays(days, keys, i, best.value);
      }
      if dayTotal <= 0 {
        continue;
      }
      total := total + dayTotal;
      totalTab := totalTab + record.orchestrator;
      totalAgent := totalAgent + record.manual;
      if best.None? || dayTotal > best.value.count {
        BestMoves(days, keys, i, active, best);
        best := Some(Best(date, dayTotal));
      }
      active := active + {date};
    }
    assert keys[..|keys|] == keys;
    return Totals(total, totalTab, totalAgent, best, active);
  }

  /** Skipping days loses nothing when, as recording keeps it, no count is negative. */
  lemma {:induction false} NothingSkipped(days: map<string, DayRecord>)
    requires NonNegative(days)
    ensures MapSums.Sum(days, CountedTab) == MapSums.Sum(days, TabLines)
    ensures MapSums.Sum(days, CountedAgent) == MapSums.Sum(days, AgentLines)
  {
    forall d | d in days
      ensures CountedTab(days[d]) == TabLines(days[d]) && CountedAgent(days[d]) == AgentLines(days[d])
    {
    }
    MapSums.SumSame(days, CountedTab, TabLines);
    MapSums.SumSame(days, CountedAgent, AgentLines);
  }

  // ---------------------------------------------------------------------------------------------
  // Token usage
  // ---------------------------------------------------------------------------------------------

  datatype Turn = Turn(day: string, input: int, output: int, cacheRead: int, cacheWrite: int)

  datatype DayUsage = DayUsage(input: int, output: int, cached: int, tokens: int)

  datatype UsageTotals = UsageTotals(input: int, output: int, cacheRead: int, cacheWrite: int, tokens: int)

  function InputOf(d: DayUsage): int { d.input }

  function OutputOf(d: DayUsage): int { d.output }

  function CachedOf(d: DayUsage): int { d.cached }

  function TokensOf(d: DayUsage): int { d.tokens }

  ghost predicate SumsOverDays(totals: UsageTotals, days: map<string, DayUsage>)
  {
    && totals.input == MapSums.Sum(days, InputOf)
    && totals.output == MapSums.Sum(days, OutputOf)
    && totals.cacheRead + totals.cacheWrite == MapSums.Sum(days, CachedOf)
    && totals.tokens == MapSums.Sum(days, TokensOf)
  }

  /** What the source reads for a day: its record, or zeros. */
  function UsageOn(days: map<string, DayUsage>, day: string): DayUsage
  {
    if day in days then days[day] else DayUsage(0, 0, 0, 0)
  }

  lemma DayChange(days: map<string, DayUsage>, day: string, next: DayUsage, f: DayUsage -> int)
    requires f(DayUsage(0, 0, 0, 0)) == 0
    ensures MapSums.Sum(days[day := next], f) == MapSums.Sum(days, f) + f(next) - f(UsageOn(days, day))
  {
    hide MapSums.Sum;
    MapSums.SumUpdate(days, f, day, next);
  }

  function AddTurn(day: DayUsage, turn: Turn): DayUsage
  {
    DayUsage(day.input + turn.input, day.output + turn.output, day.cached + turn.cacheRead + turn.cacheWrite,
             day.tokens + (turn.input + turn.output + turn.cacheRead + turn.cacheWrite))
  }

  function AddToTotals(totals: UsageTotals, turn: Turn): UsageTotals
  {
    UsageTotals(totals.input + turn.input, totals.output + turn.output, totals.cacheRead + turn.cacheRead,
                totals.cacheWrite + turn.cacheWrite,
                totals.tokens + (turn.input + turn.output + turn.cacheRead + turn.cacheWrite))
  }

  lemma TotalsBalance(totals: UsageTotals, turn: Turn)
    requires totals.tokens == totals.input + totals.output + totals.cacheRead + totals.cacheWrite
    ensures var next := AddToTotals(totals, turn);
            next.tokens == next.input + next.output + next.cacheRead + next.cacheWrite
  {
  }

  /** The usage of the turns of one day only. */
  function TurnsOn(turns: seq<Turn>, day: string): DayUsage
  {
    if turns == [] then DayUsage(0, 0, 0, 0)
    else
      var rest := TurnsOn(turns[..|turns| - 1], day);
      if turns[|turns| - 1].day == day then AddTurn(rest, turns[|turns| - 1]) else rest
  }

  lemma TurnKeepsSums(totals: UsageTotals, days: map<string, DayUsage>, turn: Turn)
    requires SumsOverDays(totals, days)
    ensures SumsOverDays(AddToTotals(totals, turn), days[turn.day := AddTurn(UsageOn(days, turn.day), turn)])
  {
    hide MapSums.Sum;
    var next := AddTurn(UsageOn(days, turn.day), turn);
    DayChange(days, turn.day, next, InputOf);
    DayChange(days, turn.day, next, OutputOf);
    DayChange(days, turn.day, next, CachedOf);
    DayChange(days, turn.day, next, TokensOf);
  }

  ghost predicate DaysHoldTurns(days: map<string, DayUsage>, turns: seq<Turn>)
  {
    && (forall d :: UsageOn(days, d) == TurnsOn(turns, d))
    && (forall d :: d in days <==> exists k :: 0 <= k < |turns| && turns[k].day == d)
  }

  lemma NoSums()
    ensures SumsOverDays(UsageTotals(0, 0, 0, 0, 0), map[])
  {
    hide MapSums.Sum;
    MapSums.SumEmpty<string, DayUsage>(InputOf);
    MapSums.SumEmpty<string, DayUsage>(OutputOf);
    MapSums.SumEmpty<string, DayUsage>(CachedOf);
    MapSums.SumEmpty<string, DayUsage>(TokensOf);
  }

  lemma NoTurns()
    ensures DaysHoldTurns(map[], [])
  {
  }

  lemma TurnKeepsDays(days: map<string, DayUsage>, turns: seq<Turn>, turn: Turn)
    requires DaysHoldTurns(days, turns)
    ensures DaysHoldTurns(days[turn.day := AddTurn(UsageOn(days, turn.day), turn)], turns + [turn])
  {
    var all := turns + [turn];
    var after := days[turn.day := AddTurn(UsageOn(days, turn.day), turn)];
    assert all[..|turns|] == turns;
    forall d
      ensures UsageOn(after, d) == TurnsOn(all, d)
    {
      assert UsageOn(days, d) == TurnsOn(turns, d);
    }
    forall d
      ensures d in after <==> exists k :: 0 <= k < |all| && all[k].day == d
    {
      if d == turn.day {
        assert all[|turns|].day == d;
      } else if d in days {
        var k :| 0 <= k < |turns| && turns[k].day == d;
        assert all[k].day == d;
      }
    }
  }

  /** The loop of `buildUsageStatsSnapshot`: the totals are the sums over the days, and each day holds its own turns. */
  method UsageSnapshot(turns: seq<Turn>) returns (totals: UsageTotals, days: map<string, DayUsage>)
    ensures SumsOverDays(totals, days)
    ensures totals.tokens == totals.input + totals.output + totals.cacheRead + totals.cacheWrite
    ensures DaysHoldTurns(days, turns)
  {
    hide *;
    totals := UsageTotals(0, 0, 0, 0, 0);
    days := map[];
    NoSums();
    NoTurns();
    assert turns[..0] == [];
    for i := 0 to |turns|
      invariant SumsOverDays(totals, days)
      invariant totals.tokens == totals.input + totals.output + totals.cacheRead + totals.cacheWrite
      invariant DaysHoldTurns(days, turns[..i])
    {
      var turn := turns[i];
      TurnKeepsSums(totals, days, turn);
      TurnKeepsDays(days, turns[..i], turn);
      assert turns[..i + 1] == turns[..i] + [turn];
      var current := UsageOn(days, turn.day);
      days := days[turn.day := AddTurn(current, turn)];
      TotalsBalance(totals, turn);
      totals := AddToTotals(totals, turn);
    }
    assert turns[..|turns|] == turns;
  }

  /** The sum of one figure over the turns of a day. */
  function SumOn(turns: seq<Turn>, day: string, f: Turn -> int): int
  {
    if turns == [] then 0 else SumOn(turns[..|turns| - 1], day, f) + (if turns[|turns| - 1].day == day then f(turns[|turns| - 1]) else 0)
  }

  /** Each figure of a day is the sum of that figure over the day's turns, and its tokens are all four together. */
  lemma {:induction false} DayFigures(turns: seq<Turn>, day: string)
    ensures var u := TurnsOn(turns, day);
            && u.input == SumOn(turns, day, (t: Turn) => t.input)
            && u.output == SumOn(turns, day, (t: Turn) => t.output)
            && u.cached == SumOn(turns, day, (t: Turn) => t.cacheRead) + SumOn(turns, day, (t: Turn) => t.cacheWrite)
            && u.tokens == u.input + u.output + u.cached
  {
    if turns != [] {
      DayFigures(turns[..|turns| - 1], day);
    }
  }
}
