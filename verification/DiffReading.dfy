/**
 * What `diffSides` reads in any text, built here or elsewhere (src/shared/agentActivity.ts): the text of an added or deleted
 * file as it is, and otherwise the two sides of the lines of every hunk, in order.
 */
module DiffReading {
  import opened Options
  import opened Decimals
  import opened Lines
  import opened DiffHunk
  import opened UnifiedDiff
  import Sequences
  import opened Strings

  // ---------------------------------------------------------------------------------------------
  // Which lines are hunk headers
  // ---------------------------------------------------------------------------------------------

  /** `\d+`. */
  predicate Digits(s: string) { s != "" && AllDigits(s) }

  /** `\d+(?:,\d+)?`. */
  predicate RangeShape(s: string)
  {
    Digits(s) || exists k | 0 <= k < |s| :: s[k] == ',' && Digits(s[..k]) && Digits(s[k + 1..])
  }

  /** `@@ -` and a range up to `i`, then ` +` and a range up to `j`, then ` @@`. */
  predicate HeaderUpTo(s: string, i: nat, j: nat)
  {
    && 4 <= i && i + 2 <= j <= |s|
    && StartsWith(s, "@@ -") && RangeShape(s[4..i])
    && StartsWith(s[i..], " +") && RangeShape(s[i + 2..j])
    && StartsWith(s[j..], " @@")
  }

  predicate HeaderShape(s: string) { exists i: nat, j: nat | i <= |s| && j <= |s| :: HeaderUpTo(s, i, j) }

  lemma NumberReads(digits: string, rest: string)
    requires Digits(digits) && (rest == [] || !IsDigit(rest[0]))
    ensures ReadNumber(digits + rest).Some? && ReadNumber(digits + rest).value.1 == rest
  {
    hide DigitRun, ValueOf;
    DigitRunOf(digits, rest);
    assert (digits + rest)[|digits|..] == rest;
  }

  /** A range in front of a space is read to its end. */
  lemma RangeReads(range: string, rest: string)
    requires RangeShape(range) && rest != [] && rest[0] == ' '
    ensures ReadRange(range + rest).Some? && ReadRange(range + rest).value.2 == rest
  {
    hide ReadNumber;
    if Digits(range) {
      NumberReads(range, rest);
      assert !StartsWith(rest, ",");
    } else {
      var k :| 0 <= k < |range| && range[k] == ',' && Digits(range[..k]) && Digits(range[k + 1..]);
      var tail := "," + (range[k + 1..] + rest);
      assert range + rest == range[..k] + tail;
      NumberReads(range[..k], tail);
      NumberReads(range[k + 1..], rest);
      assert tail[1..] == range[k + 1..] + rest;
    }
  }

  lemma NumberShape(s: string)
    ensures match ReadNumber(s)
            case None => true
            case Some((_, rest)) => exists n | 0 <= n <= |s| :: Digits(s[..n]) && s[n..] == rest
  {
    hide ValueOf;
    var n := DigitRun(s);
    assert n > 0 ==> Digits(s[..n]);
  }

  /** What is read as a range has the shape of one. */
  lemma RangeRead(s: string)
    ensures match ReadRange(s)
            case None => true
            case Some((_, _, rest)) => exists n | 0 <= n <= |s| :: RangeShape(s[..n]) && s[n..] == rest
  {
    hide ReadNumber;
    NumberShape(s);
    if ReadNumber(s).Some? {
      var rest := ReadNumber(s).value.1;
      var n :| 0 <= n <= |s| && Digits(s[..n]) && s[n..] == rest;
      if StartsWith(rest, ",") && ReadNumber(rest[1..]).Some? {
        NumberShape(rest[1..]);
        var m :| 0 <= m <= |rest[1..]| && Digits(rest[1..][..m]) && rest[1..][m..] == ReadNumber(rest[1..]).value.1;
        var whole := s[..n + 1 + m];
        assert whole[n] == ',' && whole[..n] == s[..n] && whole[n + 1..] == rest[1..][..m];
        assert s[n + 1 + m..] == rest[1..][m..];
        assert RangeShape(whole);
      } else {
        assert RangeShape(s[..n]);
      }
    }
  }

  /** A line is taken for a hunk header exactly when it starts with the written form of one; counts may be missing. */
  lemma HeaderReadIff(s: string)
    ensures ReadHeader(s).Some? <==> HeaderShape(s)
  {
    if HeaderShape(s) {
      HeaderShapeReads(s);
    }
    if ReadHeader(s).Some? {
      HeaderReadShape(s);
    }
  }

  lemma HeaderShapeReads(s: string)
    requires HeaderShape(s)
    ensures ReadHeader(s).Some?
  {
    hide ReadRange, RangeShape;
    var i: nat, j: nat :| i <= |s| && j <= |s| && HeaderUpTo(s, i, j);
    assert s[4..] == s[4..i] + s[i..];
    assert s[i..][0] == " +"[0];
    RangeReads(s[4..i], s[i..]);
    assert s[i..][2..] == s[i + 2..j] + s[j..];
    assert s[j..][0] == " @@"[0];
    RangeReads(s[i + 2..j], s[j..]);
  }

  lemma HeaderReadShape(s: string)
    requires ReadHeader(s).Some?
    ensures HeaderShape(s)
  {
    hide ReadRange, RangeShape;
    var i := RangeEnd(s, 4);
    var j := RangeEnd(s, i + 2);
    assert HeaderUpTo(s, i, j);
  }

  /** Where the range read from `from` ends. */
  lemma RangeEnd(s: string, from: nat) returns (end: nat)
    requires from <= |s| && ReadRange(s[from..]).Some?
    ensures from <= end <= |s| && RangeShape(s[from..end]) && s[end..] == ReadRange(s[from..]).value.2
    ensures forall n: nat | end + n <= |s| :: s[end..][n..] == s[end + n..]
  {
    RangeRead(s[from..]);
    hide ReadRange, RangeShape;
    var n :| 0 <= n <= |s[from..]| && RangeShape(s[from..][..n]) && s[from..][n..] == ReadRange(s[from..]).value.2;
    end := from + n;
    Sequences.SliceOfDrop(s, from, n);
    DropTwice(s, end);
  }

  lemma DropTwice(s: string, end: nat)
    requires end <= |s|
    ensures forall n: nat | end + n <= |s| :: s[end..][n..] == s[end + n..]
  {
  }

  /** The text starts a line at `i` with the written form of a hunk header. */
  predicate HeaderAt(text: string, i: nat)
  {
    i <= |text| && (i == 0 || EndsLine(text[i - 1])) && HeaderShape(text[i..])
  }

  /**
   * A text no line of which starts with a hunk header is, for an added file, its new text and, for a deleted file, its old
   * text; the other side is empty. Whatever else the text holds, stray `@@` included, it is kept as it is.
   */
  lemma PlainFileReads(text: string)
    requires forall i: nat | i <= |text| :: !HeaderAt(text, i)
    ensures SidesOf(text, Add) == Sides("", text)
    ensures SidesOf(text, Delete) == Sides(text, "")
  {
    hide ReadHeader, HeaderShape, ReadLines, Split, Join, Contains;
    forall i | 0 <= i <= |text| && (i == 0 || EndsLine(text[i - 1]))
      ensures ReadHeader(text[i..]).None?
    {
      assert !HeaderAt(text, i);
      HeaderReadIff(text[i..]);
    }
  }

  /** A change of any kind reads alike once a line starts with a hunk header, and an update and a move always do. */
  lemma KindMattersOnlyWithoutHeader(text: string, change: Change)
    requires change == Update || change == Move || exists i: nat | i <= |text| :: HeaderAt(text, i)
    ensures SidesOf(text, change) == SidesOf(text, Update)
  {
    hide ReadHeader, HeaderShape, ReadLines, Split, Join, Contains;
    if exists i: nat | i <= |text| :: HeaderAt(text, i) {
      var i: nat :| i <= |text| && HeaderAt(text, i);
      HeaderReadIff(text[i..]);
      assert HasHunkHeader(text);
    }
  }

  // ---------------------------------------------------------------------------------------------
  // The two sides of any lines
  // ---------------------------------------------------------------------------------------------

  /** A line of a diff: a header, a line of one or both sides, or a note that is on neither, such as one after a backslash. */
  datatype Item = Head(text: string) | Note(text: string) | Body(line: DiffLine<string>)

  function Written(item: Item): string
  {
    match item
    case Head(text) => text
    case Note(text) => text
    case Body(line) => ShowLine(line)
  }

  predicate WellFormed(item: Item)
  {
    && Free(Written(item), '\n')
    && match item
       case Head(text) => StartsWith(text, "@@")
       case Note(text) => !StartsWith(text, "@@") && (text != "" ==> text[0] !in {'+', '-', ' '})
       case Body(_) => true
  }

  function AllWritten(items: seq<Item>): (lines: seq<string>)
    ensures |lines| == |items|
  {
    seq(|items|, i requires 0 <= i < |items| => Written(items[i]))
  }

  /** The lines of the body in all hunks, in order. */
  function Bodies(items: seq<Item>): seq<DiffLine<string>>
  {
    if items == [] then [] else (if items[0].Body? then [items[0].line] else []) + Bodies(items[1..])
  }

  predicate AllWellFormed(items: seq<Item>) { forall i :: 0 <= i < |items| ==> WellFormed(items[i]) }

  /** Every line without a newline is one of the three kinds. */
  lemma EveryLineIsAnItem(line: string)
    requires Free(line, '\n')
    ensures exists item :: WellFormed(item) && Written(item) == line
  {
    var item :=
      if StartsWith(line, "@@") then Head(line)
      else if line == "" then Note(line)
      else if line[0] == '+' then Body(Added(line[1..]))
      else if line[0] == '-' then Body(Removed(line[1..]))
      else if line[0] == ' ' then Body(Context(line[1..]))
      else Note(line);
    assert item.Body? ==> Written(item) == [line[0]] + line[1..];
    assert WellFormed(item) && Written(item) == line;
  }

  lemma FirstMark(text: string)
    ensures StartsWith(text, "+") <==> text != "" && text[0] == '+'
    ensures StartsWith(text, "-") <==> text != "" && text[0] == '-'
    ensures StartsWith(text, " ") <==> text != "" && text[0] == ' '
  {
    if text != "" {
      assert text == [text[0]] + text[1..];
    }
  }

  lemma NoteAddsNothing(r: Reading, text: string)
    requires r.inHunk && WellFormed(Note(text))
    ensures ReadLine(r, text) == r
  {
    hide StartsWith;
    FirstMark(text);
  }

  lemma ItemReads(r: Reading, item: Item)
    requires r.inHunk && WellFormed(item)
    ensures var body := if item.Body? then [item.line] else [];
            ReadLine(r, Written(item)) == Reading(r.oldLines + OldSide(body), r.newLines + NewSide(body), true)
  {
    Sequences.Empty(r.oldLines);
    Sequences.Empty(r.newLines);
    match item
    case Head(_) =>
    case Note(text) => NoteAddsNothing(r, text);
    case Body(line) =>
      hide ReadLine, ShowLine;
      ReadShownLine(r, line);
      SidesOfOne(line);
  }

  lemma SidesOfOne(line: DiffLine<string>)
    ensures OldSide([line]) == OldText(line) && NewSide([line]) == NewText(line)
  {
    SidesStep(line, []);
    Sequences.Empty([line]);
    Sequences.Empty(OldText(line));
    Sequences.Empty(NewText(line));
  }

  lemma {:induction false} ItemsRead(r: Reading, items: seq<Item>)
    requires r.inHunk && AllWellFormed(items)
    ensures ReadLines(r, AllWritten(items)) == Reading(r.oldLines + OldSide(Bodies(items)), r.newLines + NewSide(Bodies(items)), true)
    decreases |items|
  {
    if items == [] {
      Sequences.Empty(r.oldLines);
      Sequences.Empty(r.newLines);
    } else {
      var item, rest := items[0], items[1..];
      var body := if item.Body? then [item.line] else [];
      assert AllWritten(items) == [Written(item)] + AllWritten(rest);
      ItemReads(r, item);
      hide ReadLine, ReadLines, WellFormed, OldSide, NewSide, Written;
      ReadStep(r, Written(item), AllWritten(rest));
      ItemsRead(ReadLine(r, Written(item)), rest);
      SidesConcat(body, Bodies(rest));
      Sequences.Assoc(r.oldLines, OldSide(body), OldSide(Bodies(rest)));
      Sequences.Assoc(r.newLines, NewSide(body), NewSide(Bodies(rest)));
    }
  }

  /** Whether `@@` stands anywhere in the text. */
  predicate HasMark(text: string) { exists i | 0 <= i :: i + 1 < |text| && text[i] == '@' && text[i + 1] == '@' }

  lemma ContainsMark(text: string)
    ensures Contains(text, "@@") <==> HasMark(text)
  {
    if Contains(text, "@@") {
      var i :| 0 <= i <= |text| && StartsWith(text[i..], "@@");
      assert text[i] == text[i..][0] == "@@"[0] && text[i + 1] == text[i..][1] == "@@"[1];
    }
    if HasMark(text) {
      var i :| 0 <= i && i + 1 < |text| && text[i] == '@' && text[i + 1] == '@';
      assert text[i..][..2] == "@@";
      assert StartsWith(text[i..], "@@");
    }
  }

  lemma {:induction false} JoinHasMark(lines: seq<string>, k: nat)
    requires k < |lines| && StartsWith(lines[k], "@@")
    ensures HasMark(Join(lines, '\n'))
    decreases k
  {
    if k == 0 {
      var line := lines[0];
      assert "@@" <= line && line <= Join(lines, '\n');
      assert Join(lines, '\n')[0] == "@@"[0] && Join(lines, '\n')[1] == "@@"[1];
    } else {
      hide StartsWith;
      JoinHasMark(lines[1..], k - 1);
      var rest := Join(lines[1..], '\n');
      var i :| 0 <= i && i + 1 < |rest| && rest[i] == '@' && rest[i + 1] == '@';
      JoinConcat([lines[0]], lines[1..], '\n');
      assert lines == [lines[0]] + lines[1..];
      var at := |Join([lines[0]], '\n')| + 1 + i;
      assert Join(lines, '\n')[at] == '@' && Join(lines, '\n')[at + 1] == '@';
    }
  }

  /** The sides of an update that never mentions `@@`: those of all its lines. */
  lemma BareLinesRead(items: seq<Item>, change: Change)
    requires items != [] && AllWellFormed(items) && !HasMark(Join(AllWritten(items), '\n'))
    requires change == Update || change == Move
    ensures SidesOf(Join(AllWritten(items), '\n'), change) == Sides(Join(OldSide(Bodies(items)), '\n'), Join(NewSide(Bodies(items)), '\n'))
  {
    var text := Join(AllWritten(items), '\n');
    var start := Reading([], [], true);
    ContainsMark(text);
    assert AllFree(AllWritten(items), '\n');
    hide Split, Join, ReadLines, WellFormed, Contains, HasMark, HasHunkHeader, OldSide, NewSide, Written;
    SplitJoin(AllWritten(items), '\n');
    ItemsRead(start, items);
    Sequences.Empty(OldSide(Bodies(items)));
    Sequences.Empty(NewSide(Bodies(items)));
  }

  /**
   * The sides of a change with hunks: the lines before the first header are on neither side, whatever marks they start with,
   * and the hunks' lines are joined in order. This covers every text some line of which starts with `@@`.
   */
  lemma HunksRead(top: seq<string>, items: seq<Item>, change: Change)
    requires AllFree(top, '\n') && forall i :: 0 <= i < |top| ==> !StartsWith(top[i], "@@")
    requires items != [] && items[0].Head? && AllWellFormed(items)
    requires var text := Join(top + AllWritten(items), '\n');
             change == Update || change == Move || exists i: nat | i <= |text| :: HeaderAt(text, i)
    ensures SidesOf(Join(top + AllWritten(items), '\n'), change)
            == Sides(Join(OldSide(Bodies(items)), '\n'), Join(NewSide(Bodies(items)), '\n'))
  {
    var lines := AllWritten(items);
    var text := Join(top + lines, '\n');
    assert StartsWith((top + lines)[|top|], "@@") by { assert (top + lines)[|top|] == items[0].text; assert WellFormed(items[0]); }
    JoinHasMark(top + lines, |top|);
    ContainsMark(text);
    assert AllFree(lines, '\n');
    assert AllFree(top + lines, '\n');
    hide HeaderAt, Join, HasMark, Contains, Split, HasHunkHeader;
    KindMattersOnlyWithoutHeader(text, change);
    SplitJoin(top + lines, '\n');
    HunksReadFrom(top, items);
  }

  lemma HunksReadFrom(top: seq<string>, items: seq<Item>)
    requires forall i :: 0 <= i < |top| ==> !StartsWith(top[i], "@@")
    requires items != [] && items[0].Head? && AllWellFormed(items)
    ensures ReadLines(Reading([], [], false), top + AllWritten(items)) == Reading(OldSide(Bodies(items)), NewSide(Bodies(items)), true)
  {
    var before, start := Reading([], [], false), Reading([], [], true);
    var head, rest := items[0], items[1..];
    assert WellFormed(head);
    assert ReadLine(before, Written(head)) == start;
    assert AllWritten(items) == [Written(head)] + AllWritten(rest);
    assert Bodies(items) == [] + Bodies(rest);
    hide ReadLine, ReadLines, WellFormed, OldSide, NewSide, Written, Bodies, StartsWith;
    Sequences.Empty(Bodies(rest));
    SkipsOutsideHunk(before, top);
    ReadConcat(before, top, AllWritten(items));
    ReadStep(before, Written(head), AllWritten(rest));
    ItemsRead(start, rest);
    Sequences.Empty(OldSide(Bodies(rest)));
    Sequences.Empty(NewSide(Bodies(rest)));
  }

  // ---------------------------------------------------------------------------------------------
  // Lines of a text, and counting them
  // ---------------------------------------------------------------------------------------------

  predicate EndsWithBreak(text: string) { text != "" && text[|text| - 1] == '\n' }

  /** The lines of a text are what stands between its newlines; a newline at the end begins no further line, and an empty text has none. */
  lemma SplitLinesAre(text: string)
    ensures AllFree(SplitLines(text), '\n') && (SplitLines(text) == [] <==> text == "")
    ensures text == Join(SplitLines(text), '\n') + if EndsWithBreak(text) then "\n" else ""
  {
    SplitLinesFree(text);
    JoinSplit(text, '\n');
    if text != "" {
      var lines := Split(text, '\n');
      LastLine(text);
      hide Split, Join;
      Sequences.Empty(text);
      if lines[|lines| - 1] == "" {
        DropEmptyLast(lines);
      }
    }
  }

  lemma DropEmptyLast(lines: seq<string>)
    requires |lines| > 1 && lines[|lines| - 1] == ""
    ensures Join(lines, '\n') == Join(lines[..|lines| - 1], '\n') + "\n"
  {
    hide Join;
    var front := lines[..|lines| - 1];
    assert lines == front + [""];
    JoinConcat(front, [""], '\n');
    JoinOne("");
    Sequences.Empty(Join(front, '\n') + ['\n']);
  }

  lemma {:induction false} LastLine(text: string)
    requires text != ""
    ensures var lines := Split(text, '\n');
            && (lines[|lines| - 1] == "" <==> EndsWithBreak(text)) && (EndsWithBreak(text) ==> |lines| > 1)
  {
    if |text| > 1 {
      LastLine(text[1..]);
    }
  }

  /** The lines that start with the mark and not with three of it. */
  function CountedLines(lines: seq<string>, mark: char): set<nat> { set i: nat | i < |lines| && Marked(lines[i], mark) }

  lemma {:induction false} CountIsNumber(lines: seq<string>, mark: char)
    ensures Count(lines, mark) == |CountedLines(lines, mark)|
  {
    hide Marked;
    if lines == [] {
      assert CountedLines(lines, mark) == {};
    } else {
      var front, last := lines[..|lines| - 1], lines[|lines| - 1];
      CountIsNumber(front, mark);
      assert lines == front + [last];
      CountConcat(front, [last], mark);
      CountOne(last, mark);
      var before := CountedLines(front, mark);
      assert CountedLines(lines, mark) == if Marked(last, mark) then before + {|front|} else before;
    }
  }

  lemma CountOne(line: string, mark: char)
    ensures Count([line], mark) == if Marked(line, mark) then 1 else 0
  {
    hide Marked;
    assert [line][1..] == [];
  }
}
