/**
 * The one-hunk difference of two lists of lines (src/shared/agentActivity.ts, `buildUnifiedDiff`): the common start, the
 * common end, and what lies between with up to three lines of context. Nothing here depends on what a line is.
 */
module DiffHunk {
  import Sequences

  const DIFF_CONTEXT_LINES: nat := 3

  /** One line of a hunk: kept on both sides, only on the old one, or only on the new one. */
  datatype DiffLine<T> = Context(text: T) | Removed(text: T) | Added(text: T)

  datatype Hunk<T> = Hunk(oldStart: nat, oldCount: nat, newStart: nat, newCount: nat, body: seq<DiffLine<T>>)

  function Min(a: nat, b: nat): nat { if a < b then a else b }

  // ---------------------------------------------------------------------------------------------
  // Common start and end
  // ---------------------------------------------------------------------------------------------

  ghost predicate SamePrefix<T>(a: seq<T>, b: seq<T>, n: nat)
  {
    n <= |a| && n <= |b| && forall i :: 0 <= i < n ==> a[i] == b[i]
  }

  ghost predicate SameSuffix<T>(a: seq<T>, b: seq<T>, n: nat)
  {
    n <= |a| && n <= |b| && forall i :: |a| - n <= i < |a| ==> a[i] == b[|b| - |a| + i]
  }

  function CommonPrefix<T(==)>(a: seq<T>, b: seq<T>): (n: nat)
    ensures SamePrefix(a, b, n)
    ensures n < |a| && n < |b| ==> a[n] != b[n]
  {
    if a != [] && b != [] && a[0] == b[0] then 1 + CommonPrefix(a[1..], b[1..]) else 0
  }

  function CommonSuffix<T(==)>(a: seq<T>, b: seq<T>): (n: nat)
    ensures SameSuffix(a, b, n)
    ensures n < |a| && n < |b| ==> a[|a| - n - 1] != b[|b| - n - 1]
  {
    if a != [] && b != [] && a[|a| - 1] == b[|b| - 1] then 1 + CommonSuffix(a[..|a| - 1], b[..|b| - 1]) else 0
  }

  lemma SuffixElement<T>(a: seq<T>, b: seq<T>, n: nat, j: nat)
    requires SameSuffix(a, b, n) && j < n
    ensures a[|a| - j - 1] == b[|b| - j - 1]
  {
    var i := |a| - j - 1;
    assert a[i] == b[|b| - |a| + i];
  }

  lemma PrefixReaches<T>(a: seq<T>, b: seq<T>, n: nat)
    requires SamePrefix(a, b, n)
    ensures CommonPrefix(a, b) >= n
  {
    hide CommonPrefix;
  }

  lemma SuffixReaches<T>(a: seq<T>, b: seq<T>, n: nat)
    requires SameSuffix(a, b, n)
    ensures CommonSuffix(a, b) >= n
  {
    hide CommonSuffix;
    if CommonSuffix(a, b) < n {
      SuffixElement(a, b, n, CommonSuffix(a, b));
    }
  }

  lemma PrefixUnique<T>(a: seq<T>, b: seq<T>, n: nat)
    requires SamePrefix(a, b, n) && (n == |a| || n == |b| || a[n] != b[n])
    ensures n == CommonPrefix(a, b)
  {
    PrefixReaches(a, b, n);
    hide CommonPrefix;
  }

  lemma SuffixUnique<T>(a: seq<T>, b: seq<T>, n: nat)
    requires SameSuffix(a, b, n) && (n == |a| || n == |b| || a[|a| - n - 1] != b[|b| - n - 1])
    ensures n == CommonSuffix(a, b)
  {
    SuffixReaches(a, b, n);
    hide CommonSuffix;
    if CommonSuffix(a, b) > n {
      SuffixElement(a, b, CommonSuffix(a, b), n);
    }
  }

  function PrefixOf<T(==)>(o: seq<T>, n: seq<T>): nat { CommonPrefix(o, n) }

  /** The common end of what the common start leaves. */
  function SuffixOf<T(==)>(o: seq<T>, n: seq<T>): nat
  {
    CommonSuffix(o[CommonPrefix(o, n)..], n[CommonPrefix(o, n)..])
  }

  /** The lines only the old text has, between the common start and the common end. */
  function RemovedLines<T(==)>(o: seq<T>, n: seq<T>): seq<T> { o[PrefixOf(o, n)..|o| - SuffixOf(o, n)] }

  function AddedLines<T(==)>(o: seq<T>, n: seq<T>): seq<T> { n[PrefixOf(o, n)..|n| - SuffixOf(o, n)] }

  /** The kept lines before the hunk, the context before the change, the context after it, and the kept lines after the hunk. */
  function FarBefore<T(==)>(o: seq<T>, n: seq<T>): seq<T> { o[..PrefixOf(o, n) - Min(DIFF_CONTEXT_LINES, PrefixOf(o, n))] }

  function Before<T(==)>(o: seq<T>, n: seq<T>): seq<T>
  {
    o[PrefixOf(o, n) - Min(DIFF_CONTEXT_LINES, PrefixOf(o, n))..PrefixOf(o, n)]
  }

  function After<T(==)>(o: seq<T>, n: seq<T>): seq<T>
  {
    o[|o| - SuffixOf(o, n)..|o| - SuffixOf(o, n) + Min(DIFF_CONTEXT_LINES, SuffixOf(o, n))]
  }

  function FarAfter<T(==)>(o: seq<T>, n: seq<T>): seq<T>
  {
    o[|o| - SuffixOf(o, n) + Min(DIFF_CONTEXT_LINES, SuffixOf(o, n))..]
  }

  /** Both lists fall into the same kept lines around what was removed and what was added. */
  lemma Decomposition<T>(o: seq<T>, n: seq<T>)
    ensures o == FarBefore(o, n) + Before(o, n) + RemovedLines(o, n) + After(o, n) + FarAfter(o, n)
    ensures n == FarBefore(o, n) + Before(o, n) + AddedLines(o, n) + After(o, n) + FarAfter(o, n)
  {
    hide *;
    var p, s := PrefixOf(o, n), SuffixOf(o, n);
    var before, after := Min(DIFF_CONTEXT_LINES, p), Min(DIFF_CONTEXT_LINES, s);
    Pieces(o, n);
    PrefixHeads(o, n);
    SuffixTails(o, n);
    Reassemble(o, p - before, p, |o| - s, |o| - s + after);
    Resemble(o, n, p - before, p, s, after);
  }

  lemma Pieces<T>(o: seq<T>, n: seq<T>)
    ensures var p, s := PrefixOf(o, n), SuffixOf(o, n);
            var before, after := Min(DIFF_CONTEXT_LINES, p), Min(DIFF_CONTEXT_LINES, s);
            && before <= p && after <= s && p + s <= |o| && p + s <= |n|
            && FarBefore(o, n) == o[..p - before] && Before(o, n) == o[p - before..p]
            && RemovedLines(o, n) == o[p..|o| - s] && AddedLines(o, n) == n[p..|n| - s]
            && After(o, n) == o[|o| - s..|o| - s + after] && FarAfter(o, n) == o[|o| - s + after..]
  {
    hide CommonPrefix, CommonSuffix;
  }

  lemma PrefixHeads<T>(o: seq<T>, n: seq<T>)
    ensures o[..PrefixOf(o, n)] == n[..PrefixOf(o, n)]
  {
    hide CommonPrefix;
  }

  lemma Reassemble<T>(t: seq<T>, i: nat, j: nat, k: nat, l: nat)
    requires i <= j <= k <= l <= |t|
    ensures t == t[..i] + t[i..j] + t[j..k] + t[k..l] + t[l..]
  {
    Sequences.SliceOfTake(t, j, i);
    Sequences.TakeDrop(t[..j], i);
    Sequences.SliceOfTake(t, k, j);
    Sequences.TakeDrop(t[..k], j);
    Sequences.SliceOfTake(t, l, k);
    Sequences.TakeDrop(t[..l], k);
    Sequences.TakeDrop(t, l);
  }

  lemma Resemble<T>(o: seq<T>, n: seq<T>, i: nat, p: nat, s: nat, j: nat)
    requires i <= p && j <= s && p + s <= |o| && p + s <= |n|
    requires n[..p] == o[..p] && o[|o| - s..] == n[|n| - s..]
    ensures n == o[..i] + o[i..p] + n[p..|n| - s] + o[|o| - s..|o| - s + j] + o[|o| - s + j..]
  {
    Reassemble(n, i, p, |n| - s, |n| - s + j);
    Sequences.SliceOfTake(o, p, i);
    Sequences.SliceOfTake(n, p, i);
    Sequences.SliceOfDrop(o, |o| - s, j);
    Sequences.SliceOfDrop(n, |n| - s, j);
  }

  lemma SuffixTails<T>(o: seq<T>, n: seq<T>)
    ensures o[|o| - SuffixOf(o, n)..] == n[|n| - SuffixOf(o, n)..]
  {
    hide CommonPrefix, CommonSuffix;
    var p, s := PrefixOf(o, n), SuffixOf(o, n);
    var a, b := o[p..], n[p..];
    assert SameSuffix(a, b, s);
    var u, v := o[|o| - s..], n[|n| - s..];
    forall k | 0 <= k < s
      ensures u[k] == v[k]
    {
      SuffixElement(a, b, s, s - 1 - k);
    }
    assert u == v;
  }

  /** Nothing is removed and nothing added exactly when the lists are equal. */
  lemma NothingChangedIff<T>(o: seq<T>, n: seq<T>)
    ensures RemovedLines(o, n) == [] && AddedLines(o, n) == [] <==> o == n
  {
    Decomposition(o, n);
    if o == n {
      hide CommonPrefix, CommonSuffix;
      var p := PrefixOf(o, n);
      assert p == |o|;
    }
  }

  // ---------------------------------------------------------------------------------------------
  // The hunk
  // ---------------------------------------------------------------------------------------------

  function Contexts<T>(lines: seq<T>): seq<DiffLine<T>>
  {
    if lines == [] then [] else [Context(lines[0])] + Contexts(lines[1..])
  }

  function Removals<T>(lines: seq<T>): seq<DiffLine<T>>
  {
    if lines == [] then [] else [Removed(lines[0])] + Removals(lines[1..])
  }

  function Additions<T>(lines: seq<T>): seq<DiffLine<T>>
  {
    if lines == [] then [] else [Added(lines[0])] + Additions(lines[1..])
  }

  function BodyOf<T>(before: seq<T>, removed: seq<T>, added: seq<T>, after: seq<T>): seq<DiffLine<T>>
  {
    Contexts(before) + Removals(removed) + Additions(added) + Contexts(after)
  }

  function HunkAt<T>(prefix: nat, before: seq<T>, removed: seq<T>, added: seq<T>, after: seq<T>): Hunk<T>
    requires |before| <= prefix
  {
    var start := prefix - |before| + 1;
    var oldCount := |before| + |removed| + |after|;
    var newCount := |before| + |added| + |after|;
    Hunk(if oldCount == 0 then 0 else start, oldCount,
         if newCount == 0 then 0 else start, newCount, BodyOf(before, removed, added, after))
  }

  function HunkOf<T(==)>(o: seq<T>, n: seq<T>): Hunk<T>
  {
    HunkAt(PrefixOf(o, n), Before(o, n), RemovedLines(o, n), AddedLines(o, n), After(o, n))
  }

  /** The loops of `buildUnifiedDiff`: how many lines the two lists share at the start, and how many of the rest at the end. */
  method SharedEnds<T(==)>(oldLines: seq<T>, newLines: seq<T>) returns (prefix: nat, suffix: nat)
    ensures prefix == PrefixOf(oldLines, newLines) && suffix == SuffixOf(oldLines, newLines)
    ensures prefix + suffix <= |oldLines| && prefix + suffix <= |newLines|
  {
    hide CommonPrefix, CommonSuffix;
    prefix := 0;
    var shared := Min(|oldLines|, |newLines|);
    while prefix < shared && oldLines[prefix] == newLines[prefix]
      invariant prefix <= shared
      invariant SamePrefix(oldLines, newLines, prefix)
    {
      prefix := prefix + 1;
    }
    PrefixUnique(oldLines, newLines, prefix);
    suffix := 0;
    while suffix < shared - prefix && oldLines[|oldLines| - 1 - suffix] == newLines[|newLines| - 1 - suffix]
      invariant suffix <= shared - prefix
      invariant SameSuffix(oldLines[prefix..], newLines[prefix..], suffix)
    {
      suffix := suffix + 1;
    }
    SuffixUnique(oldLines[prefix..], newLines[prefix..], suffix);
  }

  // ---------------------------------------------------------------------------------------------
  // What a hunk means
  // ---------------------------------------------------------------------------------------------

  function OldText<T>(line: DiffLine<T>): seq<T> { if line.Added? then [] else [line.text] }

  function NewText<T>(line: DiffLine<T>): seq<T> { if line.Removed? then [] else [line.text] }

  /** The old side of a body. */
  function OldSide<T>(body: seq<DiffLine<T>>): seq<T>
  {
    if body == [] then [] else OldText(body[0]) + OldSide(body[1..])
  }

  function NewSide<T>(body: seq<DiffLine<T>>): seq<T>
  {
    if body == [] then [] else NewText(body[0]) + NewSide(body[1..])
  }

  lemma SidesStep<T>(line: DiffLine<T>, rest: seq<DiffLine<T>>)
    ensures OldSide([line] + rest) == OldText(line) + OldSide(rest)
    ensures NewSide([line] + rest) == NewText(line) + NewSide(rest)
  {
    assert ([line] + rest)[1..] == rest;
  }

  lemma {:induction false} SidesConcat<T>(a: seq<DiffLine<T>>, b: seq<DiffLine<T>>)
    ensures OldSide(a + b) == OldSide(a) + OldSide(b)
    ensures NewSide(a + b) == NewSide(a) + NewSide(b)
  {
    if a == [] {
      Sequences.Empty(b);
      assert [] + OldSide(b) == OldSide(b) && [] + NewSide(b) == NewSide(b);
    } else {
      hide *;
      var line, rest := a[0], a[1..];
      Sequences.HeadTail(a);
      Sequences.Assoc([line], rest, b);
      SidesStep(line, rest);
      SidesStep(line, rest + b);
      SidesConcat(rest, b);
      Sequences.Assoc(OldText(line), OldSide(rest), OldSide(b));
      Sequences.Assoc(NewText(line), NewSide(rest), NewSide(b));
    }
  }

  lemma {:induction false} SidesOfRuns<T>(lines: seq<T>)
    ensures OldSide(Contexts(lines)) == lines == NewSide(Contexts(lines))
    ensures OldSide(Removals(lines)) == lines && NewSide(Removals(lines)) == []
    ensures OldSide(Additions(lines)) == [] && NewSide(Additions(lines)) == lines
  {
    if lines != [] {
      SidesOfRuns(lines[1..]);
      assert lines == [lines[0]] + lines[1..];
    }
  }

  lemma SidesOfBody<T>(before: seq<T>, removed: seq<T>, added: seq<T>, after: seq<T>)
    ensures OldSide(BodyOf(before, removed, added, after)) == before + removed + after
    ensures NewSide(BodyOf(before, removed, added, after)) == before + added + after
  {
    hide OldSide, NewSide, Contexts, Removals, Additions;
    SidesOfRuns(before);
    SidesOfRuns(removed);
    SidesOfRuns(added);
    SidesOfRuns(after);
    SidesConcat(Contexts(before), Removals(removed));
    SidesConcat(Contexts(before) + Removals(removed), Additions(added));
    SidesConcat(Contexts(before) + Removals(removed) + Additions(added), Contexts(after));
  }

  /** The position a header's numbers name: lines count from 1, and an empty side is at its own number. */
  function At(start: nat, count: nat): int { if count == 0 then start else start - 1 }

  /** The window of `lines` that a header's numbers name is `window`. */
  predicate Fits<T(==)>(lines: seq<T>, start: nat, count: nat, window: seq<T>)
  {
    && 0 <= At(start, count) && At(start, count) + count <= |lines|
    && lines[At(start, count)..At(start, count) + count] == window
  }

  /** A patch tool's reading of a hunk: the window at the header's numbers replaced by another. */
  function Splice<T>(lines: seq<T>, start: nat, count: nat, window: seq<T>): seq<T>
    requires 0 <= At(start, count) && At(start, count) + count <= |lines|
  {
    lines[..At(start, count)] + window + lines[At(start, count) + count..]
  }

  lemma SpliceAt<T>(a: seq<T>, out: seq<T>, into: seq<T>, e: seq<T>, start: nat)
    requires At(start, |out|) == |a|
    ensures Fits(a + out + e, start, |out|, out)
    ensures Splice(a + out + e, start, |out|, into) == a + into + e
  {
  }

  /**
   * For any two lists the hunk splices the old lines into the new ones, and back, at its header's numbers; its counts are
   * the sizes of its two sides; and a count is 0 exactly when that side has no lines at all.
   */
  lemma HunkSplices<T>(o: seq<T>, n: seq<T>)
    requires o != n
    ensures var h := HunkOf(o, n);
            && h.oldCount == |OldSide(h.body)| && h.newCount == |NewSide(h.body)|
            && Fits(o, h.oldStart, h.oldCount, OldSide(h.body))
            && Fits(n, h.newStart, h.newCount, NewSide(h.body))
            && Splice(o, h.oldStart, h.oldCount, NewSide(h.body)) == n
            && Splice(n, h.newStart, h.newCount, OldSide(h.body)) == o
            && (h.oldCount == 0 <==> o == []) && (h.newCount == 0 <==> n == [])
  {
    var far, before, out, into := FarBefore(o, n), Before(o, n), RemovedLines(o, n), AddedLines(o, n);
    var after, rest := After(o, n), FarAfter(o, n);
    var h := HunkOf(o, n);
    ContextLengths(o, n);
    hide CommonPrefix, CommonSuffix, OldSide, NewSide, BodyOf, FarBefore, Before, RemovedLines, AddedLines, After, FarAfter,
         SuffixOf, PrefixOf, Fits, Splice;
    Decomposition(o, n);
    SidesOfBody(before, out, into, after);
    var oldWindow, newWindow := before + out + after, before + into + after;
    assert o == far + oldWindow + rest;
    assert n == far + newWindow + rest;
    SpliceAt(far, oldWindow, newWindow, rest, h.oldStart);
    SpliceAt(far, newWindow, oldWindow, rest, h.newStart);
  }

  /** The numbers behind the context: three lines at most, all of a shorter common part, and none only when there is none. */
  lemma ContextLengths<T>(o: seq<T>, n: seq<T>)
    ensures |FarBefore(o, n)| + |Before(o, n)| == PrefixOf(o, n)
    ensures Before(o, n) == [] ==> FarBefore(o, n) == []
    ensures After(o, n) == [] ==> FarAfter(o, n) == []
    ensures |Before(o, n)| <= 3 && |After(o, n)| <= 3
  {
  }

  /** No way to replace one block of the old lines by one block of new ones touches fewer lines on either side. */
  lemma HunkIsSmallest<T>(o: seq<T>, n: seq<T>, start: seq<T>, out: seq<T>, into: seq<T>, end: seq<T>)
    requires o == start + out + end && n == start + into + end
    ensures |RemovedLines(o, n)| <= |out| && |AddedLines(o, n)| <= |into|
  {
    hide CommonPrefix, CommonSuffix;
    assert SamePrefix(o, n, |start|);
    PrefixReaches(o, n, |start|);
    var p := PrefixOf(o, n);
    var a, b := o[p..], n[p..];
    var m := Min(|end|, Min(|a|, |b|));
    forall i | |a| - m <= i < |a|
      ensures a[i] == b[|b| - |a| + i]
    {
      assert a[i] == end[|end| - |a| + i];
    }
    SuffixReaches(a, b, m);
  }

  /** The lists share their first `p` elements and no more. */
  ghost predicate SharesFirst<T>(a: seq<T>, b: seq<T>, p: nat)
  {
    SamePrefix(a, b, p) && (p < |a| && p < |b| ==> a[p] != b[p])
  }

  /** The lists share their last `q` elements and no more. */
  ghost predicate SharesLast<T>(a: seq<T>, b: seq<T>, q: nat)
  {
    SameSuffix(a, b, q) && (q < |a| && q < |b| ==> a[|a| - q - 1] != b[|b| - q - 1])
  }

  /**
   * A hunk shows three lines of context before the change, or all that both sides start with when these are fewer, and
   * three after it, or all that both sides end with behind the shared start.
   */
  lemma ContextIsThree<T>(o: seq<T>, n: seq<T>)
    ensures var p, k := PrefixOf(o, n), |Before(o, n)|;
            SharesFirst(o, n, p) && k == (if p < 3 then p else 3) && Before(o, n) == o[p - k..p]
    ensures var p, q, k := PrefixOf(o, n), SuffixOf(o, n), |After(o, n)|;
            p + q <= |o| && p + q <= |n| && SharesLast(o[p..], n[p..], q)
            && k == (if q < 3 then q else 3) && After(o, n) == o[|o| - q..|o| - q + k]
  {
    hide CommonPrefix, CommonSuffix;
  }
}
