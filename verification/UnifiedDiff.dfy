/**
 * Unified diffs as text (src/shared/agentActivity.ts): `splitLines`, `buildUnifiedDiff`, `diffSides`, `diffLineCounts`,
 * `hasHunkHeader`.
 */
module UnifiedDiff {
  import opened Options
  import opened Decimals
  import opened Lines
  import opened DiffHunk
  import Sequences
  import opened Strings

  datatype Sides = Sides(oldText: string, newText: string)

  datatype Change = Add | Update | Delete | Move

  datatype BuiltDiff = BuiltDiff(diff: string, added: nat, removed: nat)

  /** `includes`. */
  predicate Contains(s: string, part: string)
  {
    exists i | 0 <= i <= |s| :: StartsWith(s[i..], part)
  }

  function SplitLines(text: string): seq<string>
  {
    if text == "" then []
    else
      var lines := Split(text, '\n');
      if lines[|lines| - 1] == "" then lines[..|lines| - 1] else lines
  }

  // ---------------------------------------------------------------------------------------------
  // Writing
  // ---------------------------------------------------------------------------------------------

  function ShowLine(line: DiffLine<string>): string
  {
    match line
    case Context(text) => " " + text
    case Removed(text) => "-" + text
    case Added(text) => "+" + text
  }

  function Shown(body: seq<DiffLine<string>>): (r: seq<string>)
    ensures |r| == |body|
  {
    if body == [] then [] else [ShowLine(body[0])] + Shown(body[1..])
  }

  function Header(h: Hunk<string>): string
  {
    "@@ -" + Range(h.oldStart, h.oldCount) + " +" + Range(h.newStart, h.newCount) + " @@"
  }

  function Range(start: nat, count: nat): string { Decimal(start) + "," + Decimal(count) }

  function Render(path: string, h: Hunk<string>): string
  {
    Join(["--- a/" + path, "+++ b/" + path, Header(h)] + Shown(h.body), '\n') + "\n"
  }

  function Built(path: string, o: seq<string>, n: seq<string>): BuiltDiff
  {
    if RemovedLines(o, n) == [] && AddedLines(o, n) == [] then BuiltDiff("", 0, 0)
    else BuiltDiff(Render(path, HunkOf(o, n)), |AddedLines(o, n)|, |RemovedLines(o, n)|)
  }

  method BuildUnifiedDiff(path: string, oldText: string, newText: string) returns (r: BuiltDiff)
    ensures r == Built(path, SplitLines(oldText), SplitLines(newText))
  {
    hide SplitLines, Render, Built, PrefixOf, SuffixOf, BodyOf, RemovedLines, AddedLines, Before, After;
    var oldLines, newLines := SplitLines(oldText), SplitLines(newText);
    var prefix, suffix := SharedEnds(oldLines, newLines);
    EndsAre(oldLines, newLines, prefix, suffix);
    var removedLines := oldLines[prefix..|oldLines| - suffix];
    var addedLines := newLines[prefix..|newLines| - suffix];
    if |removedLines| == 0 && |addedLines| == 0 {
      NothingBuilt(path, oldLines, newLines);
      return BuiltDiff("", 0, 0);
    }
    var before, after := Min(DIFF_CONTEXT_LINES, prefix), Min(DIFF_CONTEXT_LINES, suffix);
    var oldCount := before + |removedLines| + after;
    var newCount := before + |addedLines| + after;
    var start := prefix - before + 1;
    var body := BodyOf(oldLines[prefix - before..prefix], removedLines, addedLines,
                       oldLines[|oldLines| - suffix..|oldLines| - suffix + after]);
    var hunk := Hunk(if oldCount == 0 then 0 else start, oldCount, if newCount == 0 then 0 else start, newCount, body);
    SomethingBuilt(path, oldLines, newLines, hunk);
    r := BuiltDiff(Render(path, hunk), |addedLines|, |removedLines|);
  }

  /** The parts of the hunk in terms of the shared ends. */
  lemma EndsAre(o: seq<string>, n: seq<string>, prefix: nat, suffix: nat)
    requires prefix == PrefixOf(o, n) && suffix == SuffixOf(o, n) && prefix + suffix <= |o| && prefix + suffix <= |n|
    ensures RemovedLines(o, n) == o[prefix..|o| - suffix] && AddedLines(o, n) == n[prefix..|n| - suffix]
    ensures var b := Min(DIFF_CONTEXT_LINES, prefix); b <= prefix && Before(o, n) == o[prefix - b..prefix] && |Before(o, n)| == b
    ensures var a := Min(DIFF_CONTEXT_LINES, suffix);
            a <= suffix && After(o, n) == o[|o| - suffix..|o| - suffix + a] && |After(o, n)| == a
  {
    hide PrefixOf, SuffixOf;
  }

  lemma NothingBuilt(path: string, o: seq<string>, n: seq<string>)
    requires RemovedLines(o, n) == [] && AddedLines(o, n) == []
    ensures Built(path, o, n) == BuiltDiff("", 0, 0)
  {
    NothingChangedIff(o, n);
    hide RemovedLines, AddedLines, Render;
  }

  lemma SomethingBuilt(path: string, o: seq<string>, n: seq<string>, h: Hunk<string>)
    requires (RemovedLines(o, n) != [] || AddedLines(o, n) != []) && h == HunkOf(o, n)
    ensures Built(path, o, n) == BuiltDiff(Render(path, h), |AddedLines(o, n)|, |RemovedLines(o, n)|)
  {
    NothingChangedIff(o, n);
    hide RemovedLines, AddedLines, Render, HunkOf;
  }

  /** The diff is empty, and counts nothing, exactly when the two texts have the same lines. */
  lemma EmptyIffSameLines(path: string, o: seq<string>, n: seq<string>)
    ensures Built(path, o, n).diff == "" <==> o == n
    ensures Built(path, o, n).added == 0 && Built(path, o, n).removed == 0 <==> o == n
  {
    NothingChangedIff(o, n);
    hide RemovedLines, AddedLines;
  }

  // ---------------------------------------------------------------------------------------------
  // Hunk headers
  // ---------------------------------------------------------------------------------------------

  /** A `\d+` run at the front and what follows it. */
  function ReadNumber(s: string): Option<(nat, string)>
  {
    var n := DigitRun(s);
    if n == 0 then None else Some((ValueOf(s[..n]), s[n..]))
  }

  /** `\d+(?:,\d+)?`: a start, a count when one is given, and what follows. */
  function ReadRange(s: string): Option<(nat, Option<nat>, string)>
  {
    match ReadNumber(s)
    case None => None
    case Some((start, rest)) =>
      if StartsWith(rest, ",") && ReadNumber(rest[1..]).Some? then
        Some((start, Some(ReadNumber(rest[1..]).value.0), ReadNumber(rest[1..]).value.1))
      else Some((start, None, rest))
  }

  /** The ranges of a line that starts like `@@ -a,b +c,d @@`. */
  function ReadHeader(s: string): Option<(nat, Option<nat>, nat, Option<nat>)>
  {
    if !StartsWith(s, "@@ -") then None
    else
      match ReadRange(s[4..])
      case None => None
      case Some((oldStart, oldCount, rest)) =>
        if !StartsWith(rest, " +") then None
        else
          match ReadRange(rest[2..])
          case None => None
          case Some((newStart, newCount, end)) =>
            if StartsWith(end, " @@") then Some((oldStart, oldCount, newStart, newCount)) else None
  }

  lemma ReadPrintedNumber(n: nat, rest: string)
    requires rest == [] || !IsDigit(rest[0])
    ensures ReadNumber(Decimal(n) + rest) == Some((n, rest))
  {
    hide Decimal, DigitRun, ValueOf;
    DigitRunOf(Decimal(n), rest);
    ValueOfDecimal(n);
    assert (Decimal(n) + rest)[..|Decimal(n)|] == Decimal(n);
  }

  lemma ReadPrintedRange(start: nat, count: nat, rest: string)
    requires rest == [] || !IsDigit(rest[0])
    ensures ReadRange(Range(start, count) + rest) == Some((start, Some(count), rest))
  {
    hide ReadNumber, Decimal;
    var tail := Decimal(count) + rest;
    assert Range(start, count) + rest == Decimal(start) + ("," + tail);
    ReadPrintedNumber(start, "," + tail);
    ReadPrintedNumber(count, rest);
    assert ("," + tail)[1..] == tail;
  }

  /** A built header reads back as its hunk's four numbers. */
  lemma HeaderReadsBack(h: Hunk<string>, rest: string)
    ensures ReadHeader(Header(h) + rest) == Some((h.oldStart, Some(h.oldCount), h.newStart, Some(h.newCount)))
  {
    hide ReadRange, Range;
    var line := Header(h) + rest;
    var last := " @@" + rest;
    var second := " +" + Range(h.newStart, h.newCount) + last;
    assert line[4..] == Range(h.oldStart, h.oldCount) + second;
    ReadPrintedRange(h.oldStart, h.oldCount, second);
    assert second[2..] == Range(h.newStart, h.newCount) + last;
    ReadPrintedRange(h.newStart, h.newCount, last);
  }

  /** Whether any line of the text, as `^` sees lines, starts with a real hunk header. */
  predicate HasHunkHeader(text: string)
  {
    exists i | 0 <= i <= |text| :: (i == 0 || EndsLine(text[i - 1])) && ReadHeader(text[i..]).Some?
  }

  // ---------------------------------------------------------------------------------------------
  // Reading
  // ---------------------------------------------------------------------------------------------

  datatype Reading = Reading(oldLines: seq<string>, newLines: seq<string>, inHunk: bool)

  /** What one line adds to the two sides. */
  function ReadLine(r: Reading, line: string): Reading
  {
    if StartsWith(line, "@@") then r.(inHunk := true)
    else if !r.inHunk || StartsWith(line, "\\") then r
    else if StartsWith(line, "+") then r.(newLines := r.newLines + [line[1..]])
    else if StartsWith(line, "-") then r.(oldLines := r.oldLines + [line[1..]])
    else if StartsWith(line, " ") then r.(oldLines := r.oldLines + [line[1..]], newLines := r.newLines + [line[1..]])
    else r
  }

  function ReadLines(r: Reading, lines: seq<string>): Reading
    decreases lines
  {
    if lines == [] then r else ReadLines(ReadLine(r, lines[0]), lines[1..])
  }

  function SidesOf(diff: string, change: Change): Sides
  {
    if (change == Add || change == Delete) && !HasHunkHeader(diff) then
      if change == Add then Sides("", diff) else Sides(diff, "")
    else
      var r := ReadLines(Reading([], [], !Contains(diff, "@@")), Split(diff, '\n'));
      Sides(Join(r.oldLines, '\n'), Join(r.newLines, '\n'))
  }

  method DiffSides(diff: string, change: Change) returns (sides: Sides)
    ensures sides == SidesOf(diff, change)
  {
    if (change == Add || change == Delete) && !HasHunkHeader(diff) {
      return if change == Add then Sides("", diff) else Sides(diff, "");
    }
    var oldLines: seq<string>, newLines: seq<string> := [], [];
    var inHunk := !Contains(diff, "@@");
    var lines := Split(diff, '\n');
    hide Split, HasHunkHeader;
    ghost var start := Reading([], [], inHunk);
    for i := 0 to |lines|
      invariant ReadLines(start, lines) == ReadLines(Reading(oldLines, newLines, inHunk), lines[i..])
    {
      var line := lines[i];
      assert lines[i..][0] == line && lines[i..][1..] == lines[i + 1..];
      if StartsWith(line, "@@") {
        inHunk := true;
        continue;
      }
      if !inHunk || StartsWith(line, "\\") {
        continue;
      }
      if StartsWith(line, "+") {
        newLines := newLines + [line[1..]];
      } else if StartsWith(line, "-") {
        oldLines := oldLines + [line[1..]];
      } else if StartsWith(line, " ") {
        oldLines := oldLines + [line[1..]];
        newLines := newLines + [line[1..]];
      }
    }
    sides := Sides(Join(oldLines, '\n'), Join(newLines, '\n'));
  }

  lemma {:induction false} ReadConcat(r: Reading, a: seq<string>, b: seq<string>)
    ensures ReadLines(r, a + b) == ReadLines(ReadLines(r, a), b)
    decreases |a|
  {
    if a == [] {
      assert a + b == b;
    } else {
      assert (a + b)[0] == a[0] && (a + b)[1..] == a[1..] + b;
      ReadConcat(ReadLine(r, a[0]), a[1..], b);
    }
  }

  lemma ReadShownLine(r: Reading, line: DiffLine<string>)
    requires r.inHunk
    ensures ReadLine(r, ShowLine(line)) == Reading(r.oldLines + OldText(line), r.newLines + NewText(line), true)
  {
    var shown := ShowLine(line);
    assert shown[1..] == line.text;
    Sequences.Empty(r.oldLines);
    Sequences.Empty(r.newLines);
    assert shown[0] == (match line case Context(_) => ' ' case Added(_) => '+' case Removed(_) => '-');
    assert !StartsWith(shown, "@@") && !StartsWith(shown, "\\");
    assert StartsWith(shown, "+") <==> line.Added?;
    assert StartsWith(shown, "-") <==> line.Removed?;
  }

  lemma ReadStep(r: Reading, line: string, rest: seq<string>)
    ensures ReadLines(r, [line] + rest) == ReadLines(ReadLine(r, line), rest)
  {
    assert ([line] + rest)[1..] == rest;
  }

  lemma ShownStep(line: DiffLine<string>, rest: seq<DiffLine<string>>)
    ensures Shown([line] + rest) == [ShowLine(line)] + Shown(rest)
  {
    assert ([line] + rest)[1..] == rest;
  }

  /** Inside a hunk the printed lines of a body add exactly its two sides. */
  lemma {:induction false} ReadShown(r: Reading, body: seq<DiffLine<string>>)
    requires r.inHunk
    ensures ReadLines(r, Shown(body)) == Reading(r.oldLines + OldSide(body), r.newLines + NewSide(body), true)
    decreases |body|
  {
    if body == [] {
      Sequences.Empty(r.oldLines);
      Sequences.Empty(r.newLines);
    } else {
      hide *;
      var line, rest := body[0], body[1..];
      Sequences.HeadTail(body);
      ShownStep(line, rest);
      ReadStep(r, ShowLine(line), Shown(rest));
      ReadShownLine(r, line);
      SidesStep(line, rest);
      ReadShown(ReadLine(r, ShowLine(line)), rest);
      Sequences.Assoc(r.oldLines, OldText(line), OldSide(rest));
      Sequences.Assoc(r.newLines, NewText(line), NewSide(rest));
    }
  }

  // ---------------------------------------------------------------------------------------------
  // Reading back what was written
  // ---------------------------------------------------------------------------------------------

  /** The lines of the rendered diff: a path may span several, and the text ends with a newline. */
  function DiffLines(path: string, h: Hunk<string>): seq<string>
  {
    Split("--- a/" + path, '\n') + Split("+++ b/" + path, '\n') + [Header(h)] + Shown(h.body) + [""]
  }

  predicate BodyFree(body: seq<DiffLine<string>>) { forall i :: 0 <= i < |body| ==> Free(body[i].text, '\n') }

  lemma {:induction false} ShownFree(body: seq<DiffLine<string>>)
    requires BodyFree(body)
    ensures AllFree(Shown(body), '\n')
  {
    if body != [] {
      ShownFree(body[1..]);
    }
  }

  lemma HeaderFree(h: Hunk<string>)
    ensures Free(Header(h), '\n')
  {
    DecimalFree(h.oldStart);
    DecimalFree(h.oldCount);
    DecimalFree(h.newStart);
    DecimalFree(h.newCount);
  }

  lemma DecimalFree(n: nat)
    ensures Free(Decimal(n), '\n')
  {
    hide Decimal;
  }

  lemma RenderIs(path: string, h: Hunk<string>)
    ensures Render(path, h) == "--- a/" + path + "\n" + ("+++ b/" + path + "\n" + (Join([Header(h)] + Shown(h.body), '\n') + "\n"))
  {
    hide Join, Header, Shown;
    var a, b, rest := "--- a/" + path, "+++ b/" + path, [Header(h)] + Shown(h.body);
    assert ["--- a/" + path, "+++ b/" + path, Header(h)] + Shown(h.body) == [a] + ([b] + rest);
    JoinConcat([a], [b] + rest, '\n');
    JoinConcat([b], rest, '\n');
    JoinOne(a);
    JoinOne(b);
    var end := Join(rest, '\n');
    Sequences.Assoc(a + "\n", b + "\n" + end, "\n");
    Sequences.Assoc(b + "\n", end, "\n");
  }

  lemma RestLines(rest: seq<string>)
    requires rest != [] && AllFree(rest, '\n')
    ensures Split(Join(rest, '\n') + "\n", '\n') == rest + [""]
  {
    hide Split, Join;
    Sequences.Empty(Join(rest, '\n') + "\n");
    SplitAt(Join(rest, '\n'), "", '\n');
    SplitOfFree("", '\n');
    SplitJoin(rest, '\n');
  }

  lemma RenderedLines(path: string, h: Hunk<string>)
    requires BodyFree(h.body)
    ensures Split(Render(path, h), '\n') == DiffLines(path, h)
    ensures Render(path, h) == "--- a/" + path + "\n" + ("+++ b/" + path + "\n" + (Join([Header(h)] + Shown(h.body), '\n') + "\n"))
  {
    var a, b, rest := "--- a/" + path, "+++ b/" + path, [Header(h)] + Shown(h.body);
    HeaderFree(h);
    ShownFree(h.body);
    assert AllFree(rest, '\n');
    RenderIs(path, h);
    hide Split, Join, Header, Shown, Render;
    var end := Join(rest, '\n') + "\n";
    RestLines(rest);
    SplitAt(a, b + "\n" + end, '\n');
    SplitAt(b, end, '\n');
  }

  lemma JoinOne(line: string)
    ensures Join([line], '\n') == line
  {
  }

  lemma {:induction false} SplitPrefixed(prefix: string, path: string)
    requires Free(prefix, '\n')
    ensures Split(prefix + path, '\n') == [prefix + Split(path, '\n')[0]] + Split(path, '\n')[1..]
    decreases |prefix|
  {
    if prefix == "" {
      assert prefix + path == path;
      assert prefix + Split(path, '\n')[0] == Split(path, '\n')[0];
    } else {
      assert Free(prefix[1..], '\n');
      SplitPrefixed(prefix[1..], path);
      assert (prefix + path)[1..] == prefix[1..] + path;
      assert [prefix[0]] + (prefix[1..] + Split(path, '\n')[0]) == prefix + Split(path, '\n')[0];
    }
  }

  lemma HeaderThenBody(h: Hunk<string>)
    ensures Join([Header(h)] + Shown(h.body), '\n') + "\n"
         == Header(h) + if h.body == [] then "\n" else "\n" + Join(Shown(h.body), '\n') + "\n"
  {
    JoinOne(Header(h));
    if h.body != [] {
      assert |Shown(h.body)| == |h.body|;
      hide Join, Shown, Header;
      JoinConcat([Header(h)], Shown(h.body), '\n');
    } else {
      assert [Header(h)] + Shown(h.body) == [Header(h)];
    }
  }

  /** The built diff holds a real hunk header on a line of its own. */
  lemma RenderHasHeader(path: string, h: Hunk<string>)
    requires BodyFree(h.body)
    ensures HasHunkHeader(Render(path, h)) && Contains(Render(path, h), "@@")
  {
    hide Join, Shown, ReadHeader, Header, Render, Split, DiffLines;
    RenderedLines(path, h);
    var top := "--- a/" + path + "\n" + "+++ b/" + path + "\n";
    var tail := if h.body == [] then "\n" else "\n" + Join(Shown(h.body), '\n') + "\n";
    HeaderThenBody(h);
    var text := Render(path, h);
    assert text == top + (Header(h) + tail);
    assert text[|top|..] == Header(h) + tail;
    assert text[|top| - 1] == '\n';
    HeaderReadsBack(h, tail);
    HeaderStarts(h, tail);
  }

  lemma HeaderStarts(h: Hunk<string>, rest: string)
    ensures StartsWith(Header(h) + rest, "@@") && StartsWith(Header(h), "@@")
  {
  }

  /** No line of the path after its first starts like a hunk header. */
  predicate PathSafe(path: string)
  {
    forall i :: 1 <= i < |Split(path, '\n')| ==> !StartsWith(Split(path, '\n')[i], "@@")
  }

  lemma {:induction false} SkipsOutsideHunk(r: Reading, lines: seq<string>)
    requires !r.inHunk && forall i :: 0 <= i < |lines| ==> !StartsWith(lines[i], "@@")
    ensures ReadLines(r, lines) == r
    decreases |lines|
  {
    if lines != [] {
      SkipsOutsideHunk(r, lines[1..]);
    }
  }

  /** Reading only ever adds lines, and never leaves a hunk; a line that starts like a header enters one. */
  lemma {:induction false} ReadOnlyAdds(r: Reading, lines: seq<string>)
    ensures r.newLines <= ReadLines(r, lines).newLines
    ensures r.inHunk || (exists i :: 0 <= i < |lines| && StartsWith(lines[i], "@@")) ==> ReadLines(r, lines).inHunk
    decreases |lines|
  {
    if lines != [] {
      ReadOnlyAdds(ReadLine(r, lines[0]), lines[1..]);
      assert forall i :: 1 <= i < |lines| ==> lines[i] == lines[1..][i - 1];
    }
  }

  /** What is read of a built diff is what its two file header lines leave, then the two sides of its body. */
  lemma ReadBuilt(path: string, h: Hunk<string>)
    requires BodyFree(h.body)
    ensures var top := ReadLines(Reading([], [], false), Split("--- a/" + path, '\n') + Split("+++ b/" + path, '\n'));
            ReadLines(Reading([], [], false), DiffLines(path, h))
            == Reading(top.oldLines + OldSide(h.body), top.newLines + NewSide(h.body), true)
  {
    var start := Reading([], [], false);
    var head := Split("--- a/" + path, '\n') + Split("+++ b/" + path, '\n');
    var top := ReadLines(start, head);
    HeaderStarts(h, "");
    var inside := ReadLine(top, Header(h));
    assert inside == Reading(top.oldLines, top.newLines, true);
    ReadOne(top, Header(h));
    hide Split, Header, Shown, OldSide, NewSide;
    ReadConcat(start, head, [Header(h)]);
    ReadConcat(start, head + [Header(h)], Shown(h.body));
    ReadShown(inside, h.body);
    var all := ReadLines(inside, Shown(h.body));
    ReadConcat(start, head + [Header(h)] + Shown(h.body), [""]);
    ReadOne(all, "");
  }

  lemma ReadOne(r: Reading, line: string)
    ensures ReadLines(r, [line]) == ReadLine(r, line)
  {
    assert [line][1..] == [];
  }

  lemma SafeTop(path: string)
    requires PathSafe(path)
    ensures ReadLines(Reading([], [], false), Split("--- a/" + path, '\n') + Split("+++ b/" + path, '\n')) == Reading([], [], false)
  {
    SplitPrefixed("--- a/", path);
    SplitPrefixed("+++ b/", path);
    var names := Split(path, '\n');
    assert ("--- a/" + names[0])[0] == '-' && ("+++ b/" + names[0])[0] == '+';
    SkipsFile("--- a/" + names[0], names[1..]);
    SkipsFile("+++ b/" + names[0], names[1..]);
    ReadConcat(Reading([], [], false), Split("--- a/" + path, '\n'), Split("+++ b/" + path, '\n'));
  }

  lemma SkipsFile(first: string, later: seq<string>)
    requires !StartsWith(first, "@@") && forall i :: 0 <= i < |later| ==> !StartsWith(later[i], "@@")
    ensures ReadLines(Reading([], [], false), [first] + later) == Reading([], [], false)
  {
    hide StartsWith, ReadLines;
    SkipsOutsideHunk(Reading([], [], false), [first] + later);
  }

  lemma UnsafeTop(path: string) returns (k: nat)
    requires !PathSafe(path)
    ensures var top := ReadLines(Reading([], [], false), Split("--- a/" + path, '\n') + Split("+++ b/" + path, '\n'));
            k < |top.newLines| && top.newLines[k] != ""
  {
    var start, lines := Reading([], [], false), Split(path, '\n');
    var first, second := Split("--- a/" + path, '\n'), Split("+++ b/" + path, '\n');
    SplitPrefixed("--- a/", path);
    SplitPrefixed("+++ b/", path);
    var i :| 1 <= i < |lines| && StartsWith(lines[i], "@@");
    assert first[i] == lines[i];
    ReadOnlyAdds(start, first);
    var r := ReadLines(start, first);
    ReadConcat(start, first, second);
    k := |r.newLines|;
    var line := "+++ b/" + lines[0];
    assert second[0] == line && line[1..] != "";
    assert !StartsWith(line, "@@") && !StartsWith(line, "\\") && StartsWith(line, "+");
    assert ReadLine(r, line).newLines == r.newLines + [line[1..]];
    ReadOnlyAdds(ReadLine(r, line), second[1..]);
  }

  lemma {:induction false} JoinNonEmpty(lines: seq<string>, k: nat)
    requires k < |lines| && lines[k] != ""
    ensures Join(lines, '\n') != ""
  {
    if |lines| > 1 && k > 0 {
      JoinNonEmpty(lines[1..], k - 1);
    }
  }

  lemma JoinGrows(extra: seq<string>, window: seq<string>, k: nat)
    requires k < |extra| && extra[k] != ""
    ensures Join(extra + window, '\n') != Join(window, '\n')
  {
    if window == [] {
      assert extra + window == extra;
      JoinNonEmpty(extra, k);
    } else {
      JoinConcat(extra, window, '\n');
      assert |Join(extra + window, '\n')| > |Join(window, '\n')|;
    }
  }

  /**
   * Reading a built diff gives back exactly the old and the new window, however the change is labelled, if and only if no
   * later line of the path looks like a hunk header. Every path on one line is safe.
   */
  lemma ReadsBackIff(path: string, h: Hunk<string>, change: Change)
    requires BodyFree(h.body)
    ensures SidesOf(Render(path, h), change) == Sides(Join(OldSide(h.body), '\n'), Join(NewSide(h.body), '\n')) <==> PathSafe(path)
  {
    hide Split, Join, Header, Shown, OldSide, NewSide, ReadLines, Render, HasHunkHeader, PathSafe;
    RenderedLines(path, h);
    RenderHasHeader(path, h);
    ReadBuilt(path, h);
    if PathSafe(path) {
      SafeTop(path);
      assert [] + OldSide(h.body) == OldSide(h.body) && [] + NewSide(h.body) == NewSide(h.body);
    } else {
      var top := ReadLines(Reading([], [], false), Split("--- a/" + path, '\n') + Split("+++ b/" + path, '\n'));
      var k := UnsafeTop(path);
      JoinGrows(top.newLines, NewSide(h.body), k);
    }
  }

  /** A path whose second line starts like a header: what is read back is never what was written. */
  lemma HeaderInPathMisreads(h: Hunk<string>, change: Change)
    requires BodyFree(h.body)
    ensures SidesOf(Render("a\n@@", h), change) != Sides(Join(OldSide(h.body), '\n'), Join(NewSide(h.body), '\n'))
  {
    var first, second := "a", "@@";
    assert Free(first, '\n') && Free(second, '\n');
    SplitOfFree(first, '\n');
    SplitOfFree(second, '\n');
    SplitAt(first, second, '\n');
    assert "a\n@@" == first + ['\n'] + second;
    assert Split("a\n@@", '\n')[1] == second;
    assert !PathSafe("a\n@@");
    hide Split, Join, Render, SidesOf, PathSafe;
    ReadsBackIff("a\n@@", h, change);
  }

  lemma OneLinePathSafe(path: string)
    requires Free(path, '\n')
    ensures PathSafe(path)
  {
    SplitOfFree(path, '\n');
  }

  // ---------------------------------------------------------------------------------------------
  // From texts
  // ---------------------------------------------------------------------------------------------

  lemma SplitLinesFree(text: string)
    ensures AllFree(SplitLines(text), '\n')
  {
    SplitFree(text, '\n');
  }

  lemma {:induction false} RunsFree(lines: seq<string>)
    requires AllFree(lines, '\n')
    ensures BodyFree(Contexts(lines)) && BodyFree(Removals(lines)) && BodyFree(Additions(lines))
  {
    if lines != [] {
      RunsFree(lines[1..]);
    }
  }

  lemma HunkFree(o: seq<string>, n: seq<string>)
    requires AllFree(o, '\n') && AllFree(n, '\n')
    ensures BodyFree(HunkOf(o, n).body)
  {
    hide Contexts, Removals, Additions, CommonPrefix, CommonSuffix;
    RunsFree(Before(o, n));
    RunsFree(RemovedLines(o, n));
    RunsFree(AddedLines(o, n));
    RunsFree(After(o, n));
  }

  /** For any two texts and any one-line path, the stored diff shows the viewer exactly the two windows it was cut from. */
  lemma DiffShowsItsWindows(path: string, oldText: string, newText: string, change: Change)
    requires Free(path, '\n') && SplitLines(oldText) != SplitLines(newText)
    ensures var o, n := SplitLines(oldText), SplitLines(newText);
            var h := HunkOf(o, n);
            && SidesOf(Built(path, o, n).diff, change) == Sides(Join(OldSide(h.body), '\n'), Join(NewSide(h.body), '\n'))
            && Fits(o, h.oldStart, h.oldCount, OldSide(h.body))
            && Fits(n, h.newStart, h.newCount, NewSide(h.body))
  {
    var o, n := SplitLines(oldText), SplitLines(newText);
    SplitLinesFree(oldText);
    SplitLinesFree(newText);
    hide SplitLines, HunkOf, SidesOf, OldSide, NewSide, Join, Render, Fits, PathSafe;
    HunkFree(o, n);
    OneLinePathSafe(path);
    ReadsBackIff(path, HunkOf(o, n), change);
    HunkSplices(o, n);
  }

  // ---------------------------------------------------------------------------------------------
  // Counting lines of a stored diff
  // ---------------------------------------------------------------------------------------------

  /** A line that starts with `mark` but not with three of them. */
  predicate Marked(line: string, mark: char) { StartsWith(line, [mark]) && !StartsWith(line, [mark, mark, mark]) }

  function Count(lines: seq<string>, mark: char): nat
  {
    if lines == [] then 0 else (if Marked(lines[0], mark) then 1 else 0) + Count(lines[1..], mark)
  }

  lemma MarkedAsWritten(line: string)
    ensures Marked(line, '+') <==> StartsWith(line, "+") && !StartsWith(line, "+++")
    ensures Marked(line, '-') <==> StartsWith(line, "-") && !StartsWith(line, "---")
    ensures StartsWith(line, "+") ==> !StartsWith(line, "-")
  {
    assert ['+'] == "+" && ['+', '+', '+'] == "+++" && ['-'] == "-" && ['-', '-', '-'] == "---";
    assert StartsWith(line, "+") ==> line[0] == "+"[0];
    assert StartsWith(line, "-") ==> line[0] == "-"[0];
  }

  method DiffLineCounts(diff: string) returns (added: nat, removed: nat)
    ensures added == Count(Split(diff, '\n'), '+') && removed == Count(Split(diff, '\n'), '-')
  {
    added, removed := 0, 0;
    var lines := Split(diff, '\n');
    hide Split;
    for i := 0 to |lines|
      invariant added + Count(lines[i..], '+') == Count(lines, '+')
      invariant removed + Count(lines[i..], '-') == Count(lines, '-')
    {
      var line := lines[i];
      assert lines[i..][0] == line && lines[i..][1..] == lines[i + 1..];
      MarkedAsWritten(line);
      if StartsWith(line, "+") && !StartsWith(line, "+++") {
        added := added + 1;
      } else if StartsWith(line, "-") && !StartsWith(line, "---") {
        removed := removed + 1;
      }
    }
  }

  lemma {:induction false} CountConcat(a: seq<string>, b: seq<string>, mark: char)
    ensures Count(a + b, mark) == Count(a, mark) + Count(b, mark)
  {
    if a == [] {
      assert a + b == b;
    } else {
      assert (a + b)[0] == a[0] && (a + b)[1..] == a[1..] + b;
      CountConcat(a[1..], b, mark);
    }
  }

  /** How many of the lines start with two marks. */
  function DoublyMarked(lines: seq<string>, mark: char): nat
  {
    if lines == [] then 0 else (if StartsWith(lines[0], [mark, mark]) then 1 else 0) + DoublyMarked(lines[1..], mark)
  }

  lemma MarkedShown(line: DiffLine<string>)
    ensures Marked(ShowLine(line), '+') <==> line.Added? && !StartsWith(line.text, "++")
    ensures Marked(ShowLine(line), '-') <==> line.Removed? && !StartsWith(line.text, "--")
  {
    var shown := ShowLine(line);
    assert |shown| == 1 + |line.text| && forall i :: 0 <= i < |line.text| ==> shown[i + 1] == line.text[i];
    forall mark | mark == '+' || mark == '-'
      ensures Marked(shown, mark) <==> shown[0] == mark && !(|line.text| >= 2 && line.text[0] == mark && line.text[1] == mark)
      ensures StartsWith(line.text, [mark, mark]) <==> |line.text| >= 2 && line.text[0] == mark && line.text[1] == mark
    {
    }
    assert ['+', '+'] == "++" && ['-', '-'] == "--";
  }

  lemma {:induction false} CountRuns(lines: seq<string>)
    ensures Count(Shown(Contexts(lines)), '+') == 0 == Count(Shown(Contexts(lines)), '-')
    ensures Count(Shown(Removals(lines)), '+') == 0 == Count(Shown(Additions(lines)), '-')
    ensures Count(Shown(Removals(lines)), '-') + DoublyMarked(lines, '-') == |lines|
    ensures Count(Shown(Additions(lines)), '+') + DoublyMarked(lines, '+') == |lines|
  {
    if lines != [] {
      hide Marked, ShowLine;
      MarkedShown(Context(lines[0]));
      MarkedShown(Removed(lines[0]));
      MarkedShown(Added(lines[0]));
      CountRuns(lines[1..]);
    }
  }

  lemma {:induction false} ShownConcat(a: seq<DiffLine<string>>, b: seq<DiffLine<string>>)
    ensures Shown(a + b) == Shown(a) + Shown(b)
  {
    if a == [] {
      assert a + b == b;
    } else {
      assert (a + b)[0] == a[0] && (a + b)[1..] == a[1..] + b;
      ShownConcat(a[1..], b);
    }
  }

  lemma CountBody(before: seq<string>, removed: seq<string>, added: seq<string>, after: seq<string>)
    ensures var shown := Shown(BodyOf(before, removed, added, after));
            && Count(shown, '+') + DoublyMarked(added, '+') == |added|
            && Count(shown, '-') + DoublyMarked(removed, '-') == |removed|
  {
    hide Count, DoublyMarked, Shown, Contexts, Removals, Additions;
    var a, b, c, d := Contexts(before), Removals(removed), Additions(added), Contexts(after);
    ShownConcat(a, b);
    ShownConcat(a + b, c);
    ShownConcat(a + b + c, d);
    forall mark
      ensures Count(Shown(a + b + c + d), mark)
              == Count(Shown(a), mark) + Count(Shown(b), mark) + Count(Shown(c), mark) + Count(Shown(d), mark)
    {
      CountConcat(Shown(a), Shown(b), mark);
      CountConcat(Shown(a) + Shown(b), Shown(c), mark);
      CountConcat(Shown(a) + Shown(b) + Shown(c), Shown(d), mark);
    }
    CountRuns(before);
    CountRuns(removed);
    CountRuns(added);
    CountRuns(after);
  }

  /**
   * Counting the lines of a built diff misses exactly the changed lines that start with two marks of their own, and counts
   * every marked later line of the path twice.
   */
  lemma CountsOfBuilt(path: string, o: seq<string>, n: seq<string>)
    requires AllFree(o, '\n') && AllFree(n, '\n') && o != n
    ensures var r, later := Built(path, o, n), Split(path, '\n')[1..];
            var lines := Split(r.diff, '\n');
            && Count(lines, '+') + DoublyMarked(AddedLines(o, n), '+') == r.added + 2 * Count(later, '+')
            && Count(lines, '-') + DoublyMarked(RemovedLines(o, n), '-') == r.removed + 2 * Count(later, '-')
  {
    var h := HunkOf(o, n);
    HunkFree(o, n);
    RenderedLines(path, h);
    CountBody(Before(o, n), RemovedLines(o, n), AddedLines(o, n), After(o, n));
    assert h.body == BodyOf(Before(o, n), RemovedLines(o, n), AddedLines(o, n), After(o, n));
    NothingChangedIff(o, n);
    hide Split, Render, Shown, RemovedLines, AddedLines, HunkOf, DoublyMarked, BodyOf, Count, DiffLines;
    CountDiffLines(path, h, '+');
    CountDiffLines(path, h, '-');
  }

  /** The header lines count for nothing, but the later lines of the path do, twice. */
  lemma CountDiffLines(path: string, h: Hunk<string>, mark: char)
    requires mark == '+' || mark == '-'
    ensures Count(DiffLines(path, h), mark) == 2 * Count(Split(path, '\n')[1..], mark) + Count(Shown(h.body), mark)
  {
    var names := Split(path, '\n');
    SplitPrefixed("--- a/", path);
    SplitPrefixed("+++ b/", path);
    HeaderStarts(h, "");
    var top, bottom := "--- a/" + names[0], "+++ b/" + names[0];
    hide Split, Shown, Header;
    CountOne(top, mark);
    CountOne(bottom, mark);
    CountOne(Header(h), mark);
    CountOne("", mark);
    hide Count;
    CountConcat([top], names[1..], mark);
    CountConcat([bottom], names[1..], mark);
    var a, b := [top] + names[1..], [bottom] + names[1..];
    CountConcat(a, b, mark);
    CountConcat(a + b, [Header(h)], mark);
    CountConcat(a + b + [Header(h)], Shown(h.body), mark);
    CountConcat(a + b + [Header(h)] + Shown(h.body), [""], mark);
  }

  lemma CountOne(line: string, mark: char)
    ensures Count([line], mark) == if Marked(line, mark) then 1 else 0
  {
    assert [line][1..] == [];
  }
}
