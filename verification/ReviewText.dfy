/**
 * Multi-line text of review comments: control characters, block markers and the length of excerpts
 * (src/shared/chatReferences.ts). A `char` stands for one unit of the source's strings.
 */
module ReviewText {
  import opened Options
  import opened Strings
  import Lines
  import Sequences

  const NL := '\n'

  predicate IsControl(c: char) { c < ' ' || c == '\U{7f}' }

  /** What the source strips from text of several lines: every control character but tab and newline. */
  predicate IsStripped(c: char) { IsControl(c) && c != '\t' && c != NL }

  // ---------------------------------------------------------------------------------------------
  // Block markers
  // ---------------------------------------------------------------------------------------------

  const OPEN := "[Mousse references"

  const CLOSE := "[/Mousse references"

  predicate StartsAt(s: string, i: nat, p: string) { i + |p| <= |s| && s[i..i + |p|] == p }

  predicate MarkerAt(s: string, i: nat) { StartsAt(s, i, OPEN) || StartsAt(s, i, CLOSE) }

  predicate LineStart(s: string, i: nat) { i <= |s| && (i == 0 || s[i - 1] == NL) }

  /** No line of the text starts like a marker. */
  ghost predicate Clear(s: string) { forall i: nat :: LineStart(s, i) ==> !MarkerAt(s, i) }

  ghost predicate Stripped(s: string) { forall i :: 0 <= i < |s| ==> !IsStripped(s[i]) }

  ghost predicate Neutral(s: string) { Stripped(s) && Clear(s) }

  lemma StartsAtChars(s: string, i: nat, p: string)
    ensures StartsAt(s, i, p) <==> i + |p| <= |s| && forall k :: 0 <= k < |p| ==> s[i + k] == p[k]
  {
    if i + |p| <= |s| {
      var piece := s[i..i + |p|];
      assert forall k :: 0 <= k < |piece| ==> piece[k] == s[i + k];
    }
  }

  /** A pattern without a newline is found in the first line or not at all. */
  lemma StartsInLine(line: string, rest: string, p: string)
    requires NL !in p
    ensures StartsAt(line + [NL] + rest, 0, p) <==> StartsAt(line, 0, p)
  {
    var s := line + [NL] + rest;
    if |p| <= |line| {
      assert s[0..|p|] == line[0..|p|];
    } else {
      assert s[|line|] == NL;
      StartsAtChars(s, 0, p);
    }
  }

  lemma StartsPast(front: string, s: string, i: nat, p: string)
    ensures StartsAt(front + s, |front| + i, p) <==> StartsAt(s, i, p)
  {
    if i + |p| <= |s| {
      var all := front + s;
      assert all[|front| + i..|front| + i + |p|] == s[i..i + |p|];
    }
  }

  lemma MarkersHaveNoNewline()
    ensures NL !in OPEN && NL !in CLOSE
  {
  }

  lemma MarkerOfJoin(line: string, rest: string, i: nat)
    requires Lines.Free(line, NL) && LineStart(line + [NL] + rest, i)
    ensures i == 0 ==> (MarkerAt(line + [NL] + rest, 0) <==> MarkerAt(line, 0))
    ensures i > 0 ==> i > |line| && LineStart(rest, i - |line| - 1)
    ensures i > 0 ==> (MarkerAt(line + [NL] + rest, i) <==> MarkerAt(rest, i - |line| - 1))
  {
    MarkersHaveNoNewline();
    if i == 0 {
      StartsInLine(line, rest, OPEN);
      StartsInLine(line, rest, CLOSE);
    } else {
      assert (line + [NL] + rest)[i - 1] == NL;
      StartsPast(line + [NL], rest, i - |line| - 1, OPEN);
      StartsPast(line + [NL], rest, i - |line| - 1, CLOSE);
    }
  }

  lemma ClearFirst(line: string, rest: string)
    requires Lines.Free(line, NL)
    ensures Clear(line + [NL] + rest) <==> !MarkerAt(line, 0) && Clear(rest)
  {
    var s := line + [NL] + rest;
    hide MarkerAt;
    if !MarkerAt(line, 0) && Clear(rest) {
      forall i: nat | LineStart(s, i)
        ensures !MarkerAt(s, i)
      {
        MarkerOfJoin(line, rest, i);
      }
    } else if Clear(s) {
      assert LineStart(s, 0);
      MarkerOfJoin(line, rest, 0);
      forall i: nat | LineStart(rest, i)
        ensures !MarkerAt(rest, i)
      {
        assert LineStart(s, |line| + 1 + i);
        MarkerOfJoin(line, rest, |line| + 1 + i);
      }
    }
  }

  lemma ClearLine(line: string)
    requires Lines.Free(line, NL)
    ensures Clear(line) <==> !MarkerAt(line, 0)
  {
    assert LineStart(line, 0);
    if !MarkerAt(line, 0) {
      hide MarkerAt;
      assert forall i: nat :: LineStart(line, i) ==> i == 0;
    }
  }

  /** A text is clear exactly when none of its lines is a marker. */
  lemma {:induction false} ClearLines(lines: seq<string>)
    requires lines != [] && Lines.AllFree(lines, NL)
    ensures Clear(Lines.Join(lines, NL)) <==> forall k :: 0 <= k < |lines| ==> !MarkerAt(lines[k], 0)
  {
    hide MarkerAt, Clear;
    if |lines| == 1 {
      ClearLine(lines[0]);
    } else {
      ClearLines(lines[1..]);
      ClearFirst(lines[0], Lines.Join(lines[1..], NL));
      assert forall k :: 0 < k < |lines| ==> lines[k] == lines[1..][k - 1];
      assert forall k :: 0 <= k < |lines| - 1 ==> lines[1..][k] == lines[k + 1];
    }
  }

  /** Clear texts on consecutive lines make a clear text. */
  lemma ClearJoin(a: string, b: string)
    requires Clear(a) && Clear(b)
    ensures Clear(a + [NL] + b)
  {
    hide Lines.Split, Lines.Join, Clear, MarkerAt;
    var la, lb := Lines.Split(a, NL), Lines.Split(b, NL);
    Lines.SplitFree(a, NL);
    Lines.SplitFree(b, NL);
    Lines.JoinSplit(a, NL);
    Lines.JoinSplit(b, NL);
    ClearLines(la);
    ClearLines(lb);
    Lines.JoinConcat(la, lb, NL);
    ClearLines(la + lb);
  }

  lemma {:induction false} ClearTexts(texts: seq<string>)
    requires texts != [] && forall k :: 0 <= k < |texts| ==> Clear(texts[k])
    ensures Clear(Lines.Join(texts, NL))
  {
    if |texts| > 1 {
      ClearTexts(texts[1..]);
      ClearJoin(texts[0], Lines.Join(texts[1..], NL));
    }
  }

  // ---------------------------------------------------------------------------------------------
  // neutralizeBlockMarkers
  // ---------------------------------------------------------------------------------------------

  function Strip(s: string): (t: string)
    ensures Stripped(t) && |t| <= |s|
    ensures Stripped(s) ==> t == s
  {
    if s == [] then [] else
      var rest := Strip(s[1..]);
      assert Stripped(s) ==> Stripped(s[1..]);
      if IsStripped(s[0]) then rest else [s[0]] + rest
  }

  /** A space after the bracket keeps a line from being a marker. */
  function Disarm(line: string): string { if MarkerAt(line, 0) then "[ " + line[1..] else line }

  function DisarmAll(lines: seq<string>): (r: seq<string>)
    ensures |r| == |lines| && forall k :: 0 <= k < |lines| ==> r[k] == Disarm(lines[k])
  {
    seq(|lines|, i requires 0 <= i < |lines| => Disarm(lines[i]))
  }

  function Neutralize(text: string): string
  {
    Lines.Join(DisarmAll(Lines.Split(Strip(text), NL)), NL)
  }

  lemma DisarmLaws(line: string)
    ensures !MarkerAt(Disarm(line), 0)
    ensures Disarm(line) == line <==> !MarkerAt(line, 0)
    ensures Lines.Free(line, NL) ==> Lines.Free(Disarm(line), NL)
    ensures Stripped(line) ==> Stripped(Disarm(line))
    ensures |line| <= |Disarm(line)| <= |line| + 1
  {
    if MarkerAt(line, 0) {
      MarkerChars(line);
      var safe := "[ " + line[1..];
      NoMarkerBySpace(safe);
      assert Stripped(line) ==> Stripped(safe) by { DisarmedStripped(line); }
      hide MarkerAt, Stripped;
      assert safe[1] == ' ';
    }
  }

  lemma DisarmedStripped(line: string)
    requires line != []
    ensures Stripped(line) ==> Stripped("[ " + line[1..])
  {
    StrippedConcat(line[..1], line[1..]);
    StrippedConcat("[ ", line[1..]);
    assert line[..1] + line[1..] == line;
  }

  lemma NoMarkerBySpace(s: string)
    requires |s| > 1 && s[1] == ' '
    ensures !MarkerAt(s, 0)
  {
    StartsAtChars(s, 0, OPEN);
    StartsAtChars(s, 0, CLOSE);
  }

  lemma MarkerChars(s: string)
    requires MarkerAt(s, 0)
    ensures |s| > 1 && s[0] == '[' && s[1] != ' '
  {
    StartsAtChars(s, 0, OPEN);
    StartsAtChars(s, 0, CLOSE);
  }

  lemma {:induction false} StrippedJoin(lines: seq<string>)
    ensures Stripped(Lines.Join(lines, NL)) <==> forall k :: 0 <= k < |lines| ==> Stripped(lines[k])
  {
    if |lines| > 1 {
      StrippedJoin(lines[1..]);
      var rest := Lines.Join(lines[1..], NL);
      assert Lines.Join(lines, NL) == lines[0] + ([NL] + rest);
      StrippedConcat(lines[0], [NL] + rest);
      StrippedConcat([NL], rest);
      assert forall k :: 0 <= k < |lines| - 1 ==> lines[1..][k] == lines[k + 1];
      assert forall k :: 0 < k < |lines| ==> lines[k] == lines[1..][k - 1];
    }
  }

  lemma StrippedConcat(a: string, b: string)
    ensures Stripped(a + b) <==> Stripped(a) && Stripped(b)
  {
    assert forall i :: 0 <= i < |a| ==> (a + b)[i] == a[i];
    assert forall i :: 0 <= i < |b| ==> (a + b)[|a| + i] == b[i];
  }

  lemma NeutralizeIsNeutral(text: string)
    ensures Neutral(Neutralize(text))
  {
    var lines := Lines.Split(Strip(text), NL);
    var safe := DisarmAll(lines);
    Lines.SplitFree(Strip(text), NL);
    Lines.JoinSplit(Strip(text), NL);
    StrippedJoin(lines);
    forall k | 0 <= k < |lines|
      ensures !MarkerAt(safe[k], 0) && Lines.Free(safe[k], NL) && Stripped(safe[k])
    {
      DisarmLaws(lines[k]);
    }
    hide Lines.Split, Lines.Join, MarkerAt, Clear, Stripped;
    StrippedJoin(safe);
    ClearLines(safe);
  }

  /** Stripping is character by character. */
  lemma {:induction false} StripIsFilter(a: string, b: string)
    ensures Strip(a + b) == Strip(a) + Strip(b)
    ensures a != [] ==> Strip(a) == (if IsStripped(a[0]) then [] else [a[0]]) + Strip(a[1..])
  {
    if a == [] {
      assert a + b == b;
    } else {
      assert (a + b)[1..] == a[1..] + b;
      StripIsFilter(a[1..], b);
    }
  }

  /** A line of the result: the stripped line itself, or with one space behind the bracket of a marker. */
  predicate IsDisarmed(line: string, safe: string)
  {
    if MarkerAt(line, 0) then |safe| == |line| + 1 && safe[0] == line[0] == '[' && safe[1] == ' ' && safe[2..] == line[1..]
    else safe == line
  }

  /** Nothing else changes: the lines of the result are the lines of the stripped text, markers disarmed. */
  lemma NeutralizeKeepsLines(text: string)
    ensures var before, after := Lines.Split(Strip(text), NL), Lines.Split(Neutralize(text), NL);
            |after| == |before| && forall k :: 0 <= k < |before| ==> IsDisarmed(before[k], after[k])
  {
    var lines := Lines.Split(Strip(text), NL);
    var safe := DisarmAll(lines);
    Lines.SplitFree(Strip(text), NL);
    forall k | 0 <= k < |lines|
      ensures Lines.Free(safe[k], NL) && IsDisarmed(lines[k], safe[k])
    {
      assert Lines.Free(lines[k], NL);
      DisarmLaws(lines[k]);
      if MarkerAt(lines[k], 0) {
        MarkerChars(lines[k]);
      }
    }
    hide Lines.Split, Lines.Join, MarkerAt, IsDisarmed;
    Lines.SplitJoin(safe, NL);
  }

  /** A text is left alone exactly when it is neutral: in particular a second pass changes nothing. */
  lemma NeutralizeFixedIff(text: string)
    ensures Neutralize(text) == text <==> Neutral(text)
    ensures Neutralize(Neutralize(text)) == Neutralize(text)
  {
    NeutralizeIsNeutral(text);
    NeutralIsFixed(Neutralize(text));
    if Neutral(text) {
      NeutralIsFixed(text);
    }
  }

  lemma NeutralIsFixed(text: string)
    requires Neutral(text)
    ensures Neutralize(text) == text
  {
    hide Lines.Split, Lines.Join, MarkerAt;
    var lines := Lines.Split(text, NL);
    Lines.SplitFree(text, NL);
    Lines.JoinSplit(text, NL);
    ClearLines(lines);
    assert DisarmAll(lines) == lines;
  }

  /** The rewrite adds at most one unit a line. */
  lemma NeutralizeGrowth(text: string)
    ensures |Neutralize(text)| <= |text| + |Lines.Split(Strip(text), NL)|
  {
    var lines := Lines.Split(Strip(text), NL);
    Lines.JoinSplit(Strip(text), NL);
    forall k | 0 <= k < |lines|
      ensures |DisarmAll(lines)[k]| <= |lines[k]| + 1
    {
      DisarmLaws(lines[k]);
    }
    JoinGrowth(lines, DisarmAll(lines));
  }

  lemma {:induction false} JoinGrowth(a: seq<string>, b: seq<string>)
    requires |a| == |b| && forall k :: 0 <= k < |a| ==> |b[k]| <= |a[k]| + 1
    ensures |Lines.Join(b, NL)| <= |Lines.Join(a, NL)| + |a|
  {
    if |a| > 1 {
      JoinGrowth(a[1..], b[1..]);
    }
  }

  /** Part of a neutral text is neutral unless it begins in the middle of a line and happens to look like a marker. */
  lemma NeutralSlice(s: string, a: nat, b: nat)
    requires a <= b <= |s| && Neutral(s)
    ensures Neutral(s[a..b]) <==> !MarkerAt(s[a..b], 0)
    ensures LineStart(s, a) ==> Neutral(s[a..b])
  {
    var t := s[a..b];
    forall i: nat | LineStart(t, i) && (i > 0 || LineStart(s, a))
      ensures !MarkerAt(t, i)
    {
      assert LineStart(s, a + i);
      MarkerInSlice(s, a, b, i);
    }
    assert LineStart(t, 0);
  }

  lemma MarkerInSlice(s: string, a: nat, b: nat, i: nat)
    requires a <= b <= |s| && i <= b - a
    ensures MarkerAt(s[a..b], i) ==> MarkerAt(s, a + i)
  {
    InSlice(s, a, b, i, OPEN);
    InSlice(s, a, b, i, CLOSE);
  }

  lemma InSlice(s: string, a: nat, b: nat, i: nat, p: string)
    requires a <= b <= |s|
    ensures StartsAt(s[a..b], i, p) <==> StartsAt(s, a + i, p) && a + i + |p| <= b
  {
    var t := s[a..b];
    assert forall k :: 0 <= k < |t| ==> t[k] == s[a + k];
    if i + |p| <= |t| {
      assert t[i..i + |p|] == s[a + i..a + i + |p|];
    }
  }

  // ---------------------------------------------------------------------------------------------
  // capReviewExcerpt
  // ---------------------------------------------------------------------------------------------

  const MAX_LINES := 40

  const MAX_CHARS := 4096

  const CUT_MARK := "…"

  const CUT_LINE := "\n…"

  /** Whether an earlier cut left its mark, and the text without it. */
  predicate IsCut(text: string) { text == CUT_MARK || EndsWith(text, CUT_LINE) }

  function Unmarked(text: string): string
  {
    if text == CUT_MARK then [] else if EndsWith(text, CUT_LINE) then text[..|text| - 2] else text
  }

  function FirstLines(text: string): string
  {
    var lines := Lines.Split(text, NL);
    if |lines| > MAX_LINES then Lines.Join(lines[..MAX_LINES], NL) else text
  }

  /** `lastIndexOf('\n')`. */
  function LastBreak(s: string): (k: int)
    ensures -1 <= k < |s|
    ensures k >= 0 ==> s[k] == NL
    ensures forall i :: k < i < |s| ==> s[i] != NL
  {
    if s == [] then -1 else if s[|s| - 1] == NL then |s| - 1 else LastBreak(s[..|s| - 1])
  }

  function FirstChars(text: string): string
  {
    if |text| <= MAX_CHARS then text
    else
      var k := LastBreak(text[..MAX_CHARS]);
      if k > 0 then text[..k] else text[..MAX_CHARS]
  }

  /** Whether a text needs no cut. */
  predicate Fits(text: string) { |Lines.Split(text, NL)| <= MAX_LINES && |text| <= MAX_CHARS }

  function Kept(excerpt: string): string { FirstChars(FirstLines(Unmarked(excerpt))) }

  function Capped(excerpt: string): string
  {
    if IsCut(excerpt) || !Fits(FirstLines(Unmarked(excerpt))) || |Lines.Split(Unmarked(excerpt), NL)| > MAX_LINES
    then Kept(excerpt) + CUT_LINE else Kept(excerpt)
  }

  /** A prefix has no more lines than the whole. */
  lemma {:induction false} PrefixLines(s: string, k: nat)
    requires k <= |s|
    ensures |Lines.Split(s[..k], NL)| <= |Lines.Split(s, NL)|
  {
    if k > 0 {
      assert s[..k][1..] == s[1..][..k - 1];
      PrefixLines(s[1..], k - 1);
    }
  }

  lemma JoinPrefix(lines: seq<string>, n: nat)
    requires 0 < n < |lines|
    ensures |Lines.Join(lines[..n], NL)| < |Lines.Join(lines, NL)|
    ensures Lines.Join(lines[..n], NL) == Lines.Join(lines, NL)[..|Lines.Join(lines[..n], NL)|]
    ensures Lines.Join(lines, NL)[|Lines.Join(lines[..n], NL)|] == NL
  {
    assert lines[..n] + lines[n..] == lines;
    Lines.JoinConcat(lines[..n], lines[n..], NL);
  }

  lemma FirstLinesLaws(text: string)
    ensures |FirstLines(text)| <= |text| && FirstLines(text) == text[..|FirstLines(text)|]
    ensures |Lines.Split(FirstLines(text), NL)| <= MAX_LINES
    ensures |Lines.Split(text, NL)| <= MAX_LINES ==> FirstLines(text) == text
    ensures |FirstLines(text)| < |text| ==> text[|FirstLines(text)|] == NL
  {
    var lines := Lines.Split(text, NL);
    if |lines| > MAX_LINES {
      Lines.JoinSplit(text, NL);
      Lines.SplitFree(text, NL);
      JoinPrefix(lines, MAX_LINES);
      Lines.SplitJoin(lines[..MAX_LINES], NL);
    }
  }

  /** What is kept is a prefix of the unmarked text, fits, and is all of a text that fits. */
  lemma KeptLaws(excerpt: string)
    ensures Fits(Kept(excerpt))
    ensures |Kept(excerpt)| <= |Unmarked(excerpt)| && Kept(excerpt) == Unmarked(excerpt)[..|Kept(excerpt)|]
    ensures Fits(Unmarked(excerpt)) ==> Kept(excerpt) == Unmarked(excerpt)
  {
    var text := Unmarked(excerpt);
    var head := FirstLines(text);
    FirstLinesLaws(text);
    hide FirstLines, Lines.Split;
    PrefixLines(head, |FirstChars(head)|);
    var kept := FirstChars(head);
    assert kept == head[..|kept|] == text[..|kept|];
  }

  lemma MarkedLaws(body: string)
    ensures IsCut(body + CUT_LINE) && Unmarked(body + CUT_LINE) == body
  {
    var s := body + CUT_LINE;
    assert s[|s| - 2..] == CUT_LINE && s[..|s| - 2] == body;
    assert |s| != |CUT_MARK|;
  }

  /** Capping is bounded and idempotent, and changes exactly the texts that neither fit nor were cut to fit. */
  lemma CappedLaws(excerpt: string)
    ensures Capped(Capped(excerpt)) == Capped(excerpt)
    ensures |Capped(excerpt)| <= MAX_CHARS + 2
    ensures |Lines.Split(Capped(excerpt), NL)| <= MAX_LINES + 1
    ensures Capped(excerpt) == excerpt <==> Fits(Unmarked(excerpt)) && excerpt != CUT_MARK
  {
    hide FirstLines, FirstChars, Lines.Split, Lines.Join;
    KeptLaws(excerpt);
    FirstLinesLaws(Unmarked(excerpt));
    var body := Kept(excerpt);
    MarkedLaws(body);
    KeptLaws(body + CUT_LINE);
    FirstLinesLaws(body);
    assert body + CUT_LINE == body + [NL] + CUT_MARK;
    Lines.SplitAt(body, CUT_MARK, NL);
    Lines.SplitOfFree(CUT_MARK, NL);
  }

  /** The first `k` characters are whole lines, and not none. */
  predicate WholeLines(t: string, k: nat) { 0 < k <= |t| && (k == |t| || t[k] == NL) }

  /** No longer prefix of whole lines fits. */
  ghost predicate LongestWhole(t: string, k: nat)
  {
    WholeLines(t, k) && Fits(t[..k]) && forall j: nat :: WholeLines(t, j) && Fits(t[..j]) ==> j <= k
  }

  lemma LinesOfPrefix(t: string, j: nat, k: nat)
    requires j < k <= |t| && t[j] == NL
    ensures |Lines.Split(t[..k], NL)| > |Lines.Split(t[..j], NL)|
  {
    assert t[..k] == t[..j] + [NL] + t[j + 1..k];
    hide Lines.Split;
    Lines.SplitAt(t[..j], t[j + 1..k], NL);
  }

  /** The first forty lines are the longest prefix of that many whole lines. */
  lemma FirstLinesLongest(t: string, j: nat)
    requires WholeLines(t, j)
    ensures |Lines.Split(t[..j], NL)| <= MAX_LINES <==> j <= |FirstLines(t)|
  {
    var n := |FirstLines(t)|;
    FirstLinesLaws(t);
    if n < j {
      FirstLinesCount(t);
      LinesOfPrefix(t, n, j);
    } else {
      hide FirstLines, Lines.Split;
      PrefixLines(t[..n], j);
      assert t[..n][..j] == t[..j];
    }
  }

  lemma FirstLinesCount(t: string)
    requires |FirstLines(t)| < |t|
    ensures |Lines.Split(FirstLines(t), NL)| == MAX_LINES
  {
    var lines := Lines.Split(t, NL);
    Lines.SplitFree(t, NL);
    Lines.SplitJoin(lines[..MAX_LINES], NL);
  }

  lemma FirstLinesWhole(t: string)
    requires !Fits(t)
    ensures WholeLines(t, |FirstLines(t)|)
  {
    FirstLinesLaws(t);
    if |FirstLines(t)| < |t| {
      FirstLinesCount(t);
    }
  }

  /** A break inside the first 4096 characters, and one right behind them where fewer than forty lines end. */
  predicate BreakAtLimit(t: string)
  {
    && MAX_CHARS < |t| && t[MAX_CHARS] == NL && |Lines.Split(t[..MAX_CHARS], NL)| < MAX_LINES
    && exists i :: 0 < i < MAX_CHARS && t[i] == NL
  }

  /**
   * Of a text too long, the longest prefix of whole lines that fits is kept, if there is one, except when a line ends
   * exactly at the limit behind another one: then the last line that would fit is dropped all the same.
   */
  lemma KeptIsLongestIff(excerpt: string, j: nat)
    requires var t := Unmarked(excerpt); !Fits(t) && WholeLines(t, j) && Fits(t[..j])
    ensures LongestWhole(Unmarked(excerpt), |Kept(excerpt)|) <==> !BreakAtLimit(Unmarked(excerpt))
  {
    var t := Unmarked(excerpt);
    KeptLaws(excerpt);
    LimitBreak(t);
    if |FirstLines(t)| <= MAX_CHARS {
      ShortLongest(excerpt);
    } else {
      LongLongest(excerpt, j);
    }
  }

  lemma EarlierBreakFits(t: string, k: nat)
    requires 0 < k < MAX_CHARS && k < |FirstLines(t)| && k < |t| && t[k] == NL
    ensures WholeLines(t, k) && Fits(t[..k])
  {
    FirstLinesLaws(t);
    hide FirstLines, Lines.Split;
    assert FirstLines(t)[..k] == t[..k];
    PrefixLines(FirstLines(t), k);
  }

  /** Without any such prefix the first 4096 characters are kept, in the middle of the first line. */
  lemma LongLineIsCut(excerpt: string)
    requires var t := Unmarked(excerpt); !Fits(t) && forall j: nat :: WholeLines(t, j) ==> !Fits(t[..j])
    ensures |Unmarked(excerpt)| > MAX_CHARS && Kept(excerpt) == Unmarked(excerpt)[..MAX_CHARS]
  {
    var t := Unmarked(excerpt);
    FirstLinesLaws(t);
    FirstLinesWhole(t);
    var head := FirstLines(t);
    hide FirstLines, Lines.Split;
    assert !Fits(t[..|head|]);
    assert head[..MAX_CHARS] == t[..MAX_CHARS];
    var k := LastBreak(t[..MAX_CHARS]);
    if k > 0 {
      EarlierBreakFits(t, k);
    }
  }

  lemma LimitBreak(t: string)
    requires !Fits(t)
    ensures |FirstLines(t)| <= MAX_CHARS ==> !BreakAtLimit(t)
    ensures |FirstLines(t)| > MAX_CHARS && |t| > MAX_CHARS && t[MAX_CHARS] == NL ==> |Lines.Split(t[..MAX_CHARS], NL)| < MAX_LINES
  {
    FirstLinesLaws(t);
    if |t| > MAX_CHARS && t[MAX_CHARS] == NL {
      var n := |FirstLines(t)|;
      if n <= MAX_CHARS {
        FirstLinesCount(t);
        if n < MAX_CHARS {
          LinesOfPrefix(t, n, MAX_CHARS);
        }
      } else {
        LinesOfPrefix(t, MAX_CHARS, n);
        assert t[..n] == FirstLines(t);
      }
    }
  }

  lemma ShortLongest(excerpt: string)
    requires !Fits(Unmarked(excerpt)) && |FirstLines(Unmarked(excerpt))| <= MAX_CHARS
    ensures LongestWhole(Unmarked(excerpt), |Kept(excerpt)|)
  {
    var t := Unmarked(excerpt);
    KeptLaws(excerpt);
    FirstLinesWhole(t);
    forall j: nat | WholeLines(t, j) && Fits(t[..j])
      ensures j <= |FirstLines(t)|
    {
      FirstLinesLongest(t, j);
    }
  }

  lemma LongLongest(excerpt: string, j: nat)
    requires var t := Unmarked(excerpt); !Fits(t) && |FirstLines(t)| > MAX_CHARS && WholeLines(t, j) && Fits(t[..j])
    ensures LongestWhole(Unmarked(excerpt), |Kept(excerpt)|) <==> !BreakAtLimit(Unmarked(excerpt))
  {
    var t := Unmarked(excerpt);
    var head := FirstLines(t);
    FirstLinesLaws(t);
    KeptLaws(excerpt);
    LimitBreak(t);
    LimitFits(t);
    var k := LastBreak(head[..MAX_CHARS]);
    hide FirstLines, Lines.Split, Fits;
    assert head[..MAX_CHARS] == t[..MAX_CHARS];
    assert forall i :: 0 <= i < MAX_CHARS ==> head[..MAX_CHARS][i] == t[i];
    FitsBound(t);
    if k > 0 {
      assert |Kept(excerpt)| == k && t[k] == NL;
      assert Kept(excerpt) == t[..k];
    } else {
      assert Kept(excerpt) == t[..MAX_CHARS];
      assert j == MAX_CHARS;
    }
  }

  lemma LimitFits(t: string)
    requires |FirstLines(t)| > MAX_CHARS
    ensures |t| > MAX_CHARS && (t[MAX_CHARS] == NL ==> Fits(t[..MAX_CHARS]))
  {
    FirstLinesLaws(t);
    if t[MAX_CHARS] == NL {
      FirstLinesLongest(t, MAX_CHARS);
    }
  }

  lemma FitsBound(t: string)
    ensures forall j: nat | j <= |t| :: Fits(t[..j]) ==> j <= MAX_CHARS
  {
    forall j: nat | j <= |t| && Fits(t[..j])
      ensures j <= MAX_CHARS
    {
      assert |t[..j]| == j;
    }
  }

  /** An excerpt is left as it is exactly when it has no more than forty lines and 4096 characters, not counting a cut mark. */
  lemma CappedFixedIff(excerpt: string)
    ensures Capped(excerpt) == excerpt
            <==> |Lines.Split(Unmarked(excerpt), NL)| <= 40 && |Unmarked(excerpt)| <= 4096 && excerpt != CUT_MARK
    ensures |Capped(excerpt)| <= 4098 && |Lines.Split(Capped(excerpt), NL)| <= 41
  {
    hide Capped, Lines.Split, Unmarked;
    CappedLaws(excerpt);
  }

  /** The two steps by which the source takes a cut mark off. */
  lemma UnmarkSteps(text: string)
    requires IsCut(text)
    ensures var t := text[..|text| - 1]; Unmarked(text) == if EndsWith(t, "\n") then t[..|t| - 1] else t
  {
    var t := text[..|text| - 1];
    if text != CUT_MARK {
      assert text[|text| - 2..][0] == NL == t[|t| - 1];
      assert t[|t| - 1..] == "\n" && t[..|t| - 1] == text[..|text| - 2];
    }
  }

  method CapReviewExcerpt(excerpt: string) returns (text: string)
    ensures text == Capped(excerpt)
  {
    text := excerpt;
    var cut := false;
    FirstLinesLaws(Unmarked(excerpt));
    Lines.JoinSplit(Unmarked(excerpt), NL);
    hide Lines.Split, Lines.Join;
    if text == CUT_MARK || EndsWith(text, CUT_LINE) {
      UnmarkSteps(text);
      text := text[..|text| - |CUT_MARK|];
      if EndsWith(text, "\n") {
        text := text[..|text| - 1];
      }
      cut := true;
    }
    assert text == Unmarked(excerpt);
    var lines := Lines.Split(text, NL);
    if |lines| > MAX_LINES {
      lines := lines[..MAX_LINES];
      cut := true;
    }
    text := Lines.Join(lines, NL);
    assert text == FirstLines(Unmarked(excerpt));
    if |text| > MAX_CHARS {
      text := text[..MAX_CHARS];
      var lastBreak := LastBreak(text);
      if lastBreak > 0 {
        text := text[..lastBreak];
      }
      cut := true;
    }
    if cut {
      text := text + CUT_LINE;
    }
  }

  // ---------------------------------------------------------------------------------------------
  // The comment and the excerpt of a review comment, as parsing keeps them
  // ---------------------------------------------------------------------------------------------

  const MAX_EXCERPT_INPUT := 8192

  /** `s.slice(0, n)`. */
  function Head(s: string, n: nat): string { if |s| > n then s[..n] else s }

  function NonEmpty(s: string): Option<string> { if s == [] then None else Some(s) }

  function ParseComment(raw: string): Option<string>
  {
    if |raw| > MAX_CHARS then None else NonEmpty(Trim(Head(Neutralize(raw), MAX_CHARS)))
  }

  predicate IsBlank(c: char) { c == ' ' || c == '\t' }

  function LeadingBlanks(s: string): (n: nat)
    ensures n <= |s|
    ensures forall i :: 0 <= i < n ==> IsBlank(s[i])
    ensures n < |s| ==> !IsBlank(s[n])
  {
    if s == [] || !IsBlank(s[0]) then 0
    else
      assert forall i :: 0 < i < |s| ==> s[i] == s[1..][i - 1];
      1 + LeadingBlanks(s[1..])
  }

  /** Whether the first line is blank and not the last. */
  predicate StartsBlank(s: string) { LeadingBlanks(s) < |s| && s[LeadingBlanks(s)] == NL }

  lemma SuffixAfterLine(s: string, k: nat, n: nat)
    requires k < |s| && s[k] == NL && n <= |s| - k - 1
    ensures s[k + 1..][|s| - k - 1 - n..] == s[|s| - n..]
    ensures LineStart(s[k + 1..], |s| - k - 1 - n) ==> LineStart(s, |s| - n)
  {
    Sequences.SliceOfDrop(s, k + 1, |s| - k - 1 - n);
  }

  function DropBlankLines(s: string): string
  {
    if StartsBlank(s) then DropBlankLines(s[LeadingBlanks(s) + 1..]) else s
  }

  /** The end of a text, from the start of a line. */
  ghost predicate TailAtLine(s: string, t: string)
  {
    |t| <= |s| && t == s[|s| - |t|..] && LineStart(s, |s| - |t|)
  }

  lemma TailStep(s: string, k: nat, t: string)
    requires k < |s| && s[k] == NL && TailAtLine(s[k + 1..], t)
    ensures TailAtLine(s, t)
  {
    SuffixAfterLine(s, k, |t|);
  }

  lemma BlankLine(s: string) returns (k: nat)
    requires StartsBlank(s)
    ensures k == LeadingBlanks(s) && k < |s| && s[k] == NL
  {
    k := LeadingBlanks(s);
  }

  lemma TailOfAll(s: string)
    ensures TailAtLine(s, s)
  {
  }

  /** Whole lines go, and the first line left is not blank. */
  lemma {:induction false} DropLaws(s: string)
    ensures !StartsBlank(DropBlankLines(s)) && TailAtLine(s, DropBlankLines(s))
    decreases |s|
  {
    hide *;
    DropOnce(s);
    if StartsBlank(s) {
      var k := BlankLine(s);
      DropLaws(s[k + 1..]);
      TailStep(s, k, DropBlankLines(s[k + 1..]));
    } else {
      TailOfAll(s);
    }
  }

  /** Only blanks and line breaks go. */
  lemma {:induction false} DropsBlanksOnly(s: string)
    ensures |DropBlankLines(s)| <= |s|
    ensures forall i :: 0 <= i < |s| - |DropBlankLines(s)| ==> IsBlank(s[i]) || s[i] == NL
    decreases |s|
  {
    DropOnce(s);
    if StartsBlank(s) {
      var k := LeadingBlanks(s);
      var rest := s[k + 1..];
      DropsBlanksOnly(rest);
      forall i | 0 <= i < |s| - |DropBlankLines(s)|
        ensures IsBlank(s[i]) || s[i] == NL
      {
        if i > k {
          assert s[i] == rest[i - k - 1];
        }
      }
    }
  }

  lemma DropOnce(s: string)
    ensures DropBlankLines(s) == if StartsBlank(s) then DropBlankLines(s[LeadingBlanks(s) + 1..]) else s
  {
  }

  function Cleaned(raw: string): string { TrimEnd(DropBlankLines(Neutralize(Head(raw, MAX_EXCERPT_INPUT)))) }

  function ParseExcerpt(raw: string): Option<string>
  {
    if Cleaned(raw) == [] then None else Some(Capped(Cleaned(raw)))
  }

  /** A neutral comment is kept without the white space around it, unless it is too long or has nothing else. */
  lemma NeutralCommentIsKept(raw: string)
    requires Neutral(raw)
    ensures ParseComment(raw) == if |raw| > MAX_CHARS || Trim(raw) == [] then None else Some(Trim(raw))
  {
    NeutralIsFixed(raw);
    hide Trim, Neutralize;
  }

  /** A neutral excerpt that fits, does not start blank and does not end in white space is kept as it is. */
  lemma NeutralExcerptIsKept(raw: string)
    requires Neutral(raw) && raw != [] && Fits(raw) && !IsCut(raw)
    requires !StartsBlank(raw) && !IsSpace(raw[|raw| - 1])
    ensures ParseExcerpt(raw) == Some(raw)
  {
    NeutralIsFixed(raw);
    DropOnce(raw);
    KeptLaws(raw);
    FirstLinesLaws(raw);
    hide Neutralize, FirstLines, FirstChars, Kept, Lines.Split;
  }

  /** What parsing leaves of a comment. */
  ghost predicate CommentShape(c: string)
  {
    c != [] && Trimmed(c) && |c| <= MAX_CHARS && Stripped(c) && (Neutral(c) <==> !MarkerAt(c, 0))
  }

  /** A slice of a neutral text. */
  lemma SliceShape(u: string, a: nat, b: nat)
    requires Neutral(u) && a <= b <= |u|
    ensures Stripped(u[a..b]) && (Neutral(u[a..b]) <==> !MarkerAt(u[a..b], 0))
  {
    NeutralSlice(u, a, b);
  }

  lemma SliceOfSlice(u: string, h: nat, a: nat, b: nat)
    requires a <= b <= h <= |u|
    ensures u[..h][a..b] == u[a..b]
  {
  }

  lemma CommentHasShape(raw: string)
    ensures ParseComment(raw).Some? ==> CommentShape(ParseComment(raw).value)
  {
    var u := Neutralize(raw);
    NeutralizeIsNeutral(raw);
    var h := Head(u, MAX_CHARS);
    HeadIsPrefix(u, MAX_CHARS);
    hide *;
    SlicedComment(u, |h|);
    CommentOf(raw);
  }

  lemma HeadIsPrefix(s: string, n: nat)
    ensures |Head(s, n)| <= |s| && |Head(s, n)| <= n && Head(s, n) == s[..|Head(s, n)|]
  {
  }

  lemma CommentOf(raw: string)
    ensures ParseComment(raw).Some? ==> ParseComment(raw).value == Trim(Head(Neutralize(raw), MAX_CHARS)) != []
  {
  }

  lemma SlicedComment(u: string, n: nat)
    requires Neutral(u) && n <= |u| && n <= MAX_CHARS
    ensures Trim(u[..n]) != [] ==> CommentShape(Trim(u[..n]))
  {
    var h := u[..n];
    TrimIsTrimmed(h);
    TrimIsSlice(h);
    hide *;
    var a, c := LeadingSpace(h), Trim(h);
    SliceOfSlice(u, n, a, a + |c|);
    ShapeOfSlice(u, a, c);
  }

  lemma ShapeOfSlice(u: string, a: nat, c: string)
    requires Neutral(u) && a + |c| <= |u| && c == u[a..a + |c|] && Trimmed(c) && |c| <= MAX_CHARS
    ensures c != [] ==> CommentShape(c)
  {
    hide *;
    SliceShape(u, a, a + |c|);
    CommentShapeOf(c);
  }

  lemma CommentShapeOf(c: string)
    requires Trimmed(c) && |c| <= MAX_CHARS && Stripped(c) && (Neutral(c) <==> !MarkerAt(c, 0))
    ensures c != [] ==> CommentShape(c)
  {
  }

  /** A parsed comment parses again as itself exactly when trimming did not leave a marker at its start. */
  lemma CommentKeptIff(c: string)
    requires CommentShape(c)
    ensures ParseComment(c) == Some(c) <==> !MarkerAt(c, 0)
  {
    hide Trim;
    TrimFixedIff(c);
    if Neutral(c) {
      NeutralIsFixed(c);
    } else {
      DisarmedStart(c);
      var u := Neutralize(c);
      var h := Head(u, MAX_CHARS);
      if ParseComment(c) == Some(c) {
        TrimFixedIff(h);
        assert h[0] == c[0] && h[1] == ' ';
        HeadOfTrim(h);
      }
    }
  }

  lemma HeadOfTrim(h: string)
    requires |h| > 1 && !IsSpace(h[0]) && |Trim(h)| > 1
    ensures Trim(h)[1] == h[1]
  {
    assert h[LeadingSpace(h)..] == h;
  }

  lemma FirstLineMarker(s: string)
    ensures MarkerAt(s, 0) <==> MarkerAt(Lines.Split(s, NL)[0], 0)
  {
    var lines := Lines.Split(s, NL);
    Lines.SplitFree(s, NL);
    Lines.JoinSplit(s, NL);
    hide Lines.Split, MarkerAt;
    if |lines| > 1 {
      MarkerOfJoin(lines[0], Lines.Join(lines[1..], NL), 0);
    }
  }

  lemma JoinStart(lines: seq<string>, k: nat)
    requires lines != [] && k < |lines[0]|
    ensures k < |Lines.Join(lines, NL)| && Lines.Join(lines, NL)[k] == lines[0][k]
  {
  }

  /** A marker at the start is disarmed by a space. */
  lemma DisarmedStart(c: string)
    requires MarkerAt(c, 0) && Stripped(c)
    ensures var u := Neutralize(c); |u| > 1 && u[0] == '[' && u[1] == ' ' && c[0] == '[' && |c| > 1 && c[1] != ' '
  {
    var lines := Lines.Split(c, NL);
    FirstLineMarker(c);
    hide Lines.Split, Lines.Join;
    MarkerChars(c);
    MarkerChars(lines[0]);
    hide MarkerAt;
    var first := DisarmAll(lines)[0];
    assert first == Disarm(lines[0]) == "[ " + lines[0][1..];
    JoinStart(DisarmAll(lines), 0);
    JoinStart(DisarmAll(lines), 1);
  }

  /** What parsing leaves of an excerpt before capping it. */
  lemma CleanedShape(raw: string)
    ensures Neutral(Cleaned(raw)) && !StartsBlank(Cleaned(raw))
    ensures Cleaned(raw) != [] ==> !IsSpace(Cleaned(raw)[|Cleaned(raw)| - 1])
  {
    var u := Neutralize(Head(raw, MAX_EXCERPT_INPUT));
    NeutralizeIsNeutral(Head(raw, MAX_EXCERPT_INPUT));
    var d := DropBlankLines(u);
    DropLaws(u);
    hide *;
    TailOfNeutral(u, d, TrimEnd(d));
    CleanedIs(raw);
  }

  lemma CleanedIs(raw: string)
    ensures Cleaned(raw) == TrimEnd(DropBlankLines(Neutralize(Head(raw, MAX_EXCERPT_INPUT))))
  {
  }

  lemma TailOfNeutral(u: string, d: string, t: string)
    requires Neutral(u) && TailAtLine(u, d) && !StartsBlank(d)
    requires |t| <= |d| && t == d[..|t|]
    ensures Neutral(t) && !StartsBlank(t)
  {
    hide Neutral, StartsBlank, LineStart;
    NeutralSlice(u, |u| - |d|, |u| - |d| + |t|);
    SliceOfTail(u, |d|, |t|);
    PrefixStartsBlank(d, |t|);
  }

  lemma SliceOfTail(u: string, d: nat, t: nat)
    requires t <= d <= |u|
    ensures u[|u| - d..][..t] == u[|u| - d..|u| - d + t]
  {
  }

  lemma {:induction false} BlanksOfPrefix(s: string, n: nat)
    requires n <= |s|
    ensures LeadingBlanks(s[..n]) == if LeadingBlanks(s) < n then LeadingBlanks(s) else n
  {
    if n > 0 && IsBlank(s[0]) {
      assert s[..n][1..] == s[1..][..n - 1];
      BlanksOfPrefix(s[1..], n - 1);
    }
  }

  lemma PrefixStartsBlank(s: string, n: nat)
    requires n <= |s| && !StartsBlank(s)
    ensures !StartsBlank(s[..n])
  {
    BlanksOfPrefix(s, n);
  }

  /** The parsed excerpt: a cut one ends with the mark on a line of its own. */
  ghost predicate ExcerptShape(p: string)
  {
    && Neutral(p) && p != [] && |p| <= MAX_CHARS + 2 && !IsSpace(p[|p| - 1]) && Capped(p) == p
    && (StartsBlank(p) ==> p == p[..LeadingBlanks(p)] + CUT_LINE)
  }

  lemma UnmarkedPrefix(e: string)
    ensures |Unmarked(e)| <= |e| && Unmarked(e) == e[..|Unmarked(e)|]
  {
  }

  /** Adding the mark keeps a text neutral, and only an all-blank one starts blank with it. */
  lemma MarkedShape(body: string)
    requires Neutral(body) && !StartsBlank(body)
    ensures Neutral(body + CUT_LINE)
    ensures StartsBlank(body + CUT_LINE) ==> LeadingBlanks(body + CUT_LINE) == |body|
  {
    var marked := body + CUT_LINE;
    MarkedNeutral(body);
    BlanksOfPrefix(marked, |body|);
    hide Neutral;
    assert marked[..|body|] == body;
  }

  lemma MarkedNeutral(body: string)
    requires Neutral(body)
    ensures Neutral(body + CUT_LINE)
  {
    hide Clear;
    assert body + CUT_LINE == body + [NL] + CUT_MARK;
    StrippedConcat(body, CUT_LINE);
    MarkIsClear();
    ClearJoin(body, CUT_MARK);
  }

  lemma MarkIsClear()
    ensures Clear(CUT_MARK)
  {
    ClearLine(CUT_MARK);
  }

  lemma ExcerptHasShape(raw: string)
    ensures ParseExcerpt(raw).Some? ==> ExcerptShape(ParseExcerpt(raw).value)
  {
    var e := Cleaned(raw);
    CleanedShape(raw);
    hide Cleaned, Clear, MarkerAt, Kept, FirstLines, Lines.Split, Stripped;
    KeptLaws(e);
    CappedLaws(e);
    UnmarkedPrefix(e);
    var body := Kept(e);
    assert body == e[..|body|] == e[0..|body|];
    assert LineStart(e, 0);
    NeutralSlice(e, 0, |body|);
    PrefixStartsBlank(e, |body|);
    MarkedShape(body);
    KeptAll(e);
  }

  lemma KeptAll(e: string)
    ensures Capped(e) == e || Capped(e) == Kept(e) + CUT_LINE
  {
    KeptLaws(e);
    FirstLinesLaws(Unmarked(e));
  }

  /** A parsed excerpt parses again as itself unless it begins with a blank line that is not just the cut mark's. */
  lemma ExcerptKeptIff(p: string)
    requires ExcerptShape(p)
    ensures ParseExcerpt(p) == Some(p) <==> !StartsBlank(p) || p == CUT_LINE
    ensures StartsBlank(p) ==> ParseExcerpt(p) == Some(CUT_LINE)
  {
    if StartsBlank(p) {
      BlankExcerpt(p);
    } else {
      PlainExcerpt(p);
    }
  }

  lemma PlainExcerpt(p: string)
    requires ExcerptShape(p) && !StartsBlank(p)
    ensures ParseExcerpt(p) == Some(p)
  {
    NeutralIsFixed(p);
    hide Neutralize, Neutral, Capped, StartsBlank, IsSpace;
    assert Head(p, MAX_EXCERPT_INPUT) == p;
  }

  lemma BlankExcerpt(p: string)
    requires ExcerptShape(p) && StartsBlank(p)
    ensures ParseExcerpt(p) == Some(CUT_LINE)
  {
    NeutralIsFixed(p);
    BlankDropped(p, LeadingBlanks(p));
    CappedMark();
    CleanedIs(p);
    hide Neutralize, Neutral, Capped, TrimEnd, LeadingBlanks, DropBlankLines, IsSpace, Cleaned;
    assert Head(p, MAX_EXCERPT_INPUT) == p;
  }

  lemma BlankDropped(p: string, k: nat)
    requires StartsBlank(p) && k == LeadingBlanks(p) && p == p[..k] + CUT_LINE
    ensures DropBlankLines(p) == CUT_MARK
  {
    DropOnce(p);
    hide DropBlankLines, LeadingBlanks, StartsBlank;
    assert p[k + 1..] == CUT_MARK;
    DropOnce(CUT_MARK);
    CappedMark();
  }

  lemma CappedMark()
    ensures !StartsBlank(CUT_MARK) && TrimEnd(CUT_MARK) == CUT_MARK && Capped(CUT_MARK) == CUT_LINE
  {
    KeptLaws(CUT_MARK);
  }

  /** A comment that trimming turns into a marker: parsing it twice gives two different comments. */
  lemma IndentedMarkerIsNotKept(marker: string)
    requires MarkerAt(marker, 0) && Lines.Free(marker, NL) && Stripped(marker) && Trimmed(marker) && |marker| < MAX_CHARS
    ensures ParseComment([' '] + marker) == Some(marker) && ParseComment(marker) != Some(marker)
  {
    var raw := [' '] + marker;
    Indented(marker);
    assert raw[1..] == marker;
    MarkerChars(marker);
    CommentHasShape(raw);
    CommentKeptIff(marker);
  }

  lemma Indented(marker: string)
    requires MarkerAt(marker, 0) && Lines.Free(marker, NL) && Stripped(marker)
    ensures Neutralize([' '] + marker) == [' '] + marker
  {
    var raw := [' '] + marker;
    assert raw[0] == ' ';
    StrippedConcat([' '], marker);
    NotMarker(raw);
    ClearLine(raw);
    NeutralIsFixed(raw);
  }

  lemma NotMarker(s: string)
    requires s != [] && s[0] != '['
    ensures !MarkerAt(s, 0)
  {
    StartsAtChars(s, 0, OPEN);
    StartsAtChars(s, 0, CLOSE);
  }

  /** An excerpt whose first line is blank for more than the limit: it is cut to blanks, which the next parsing drops. */
  lemma LongBlankLineIsNotKept(blanks: string)
    requires |blanks| == MAX_CHARS && forall i :: 0 <= i < |blanks| ==> blanks[i] == ' '
    ensures ParseExcerpt(blanks + "x") == Some(blanks + CUT_LINE)
    ensures ParseExcerpt(blanks + CUT_LINE) == Some(CUT_LINE)
  {
    var raw := blanks + "x";
    BlankLineNeutral(blanks);
    BlankLineCapped(blanks);
    BlankLineBlank(blanks);
    hide Neutralize, Capped, LeadingBlanks;
    assert Head(raw, MAX_EXCERPT_INPUT) == raw;
    assert Cleaned(raw) == raw;
    ExcerptHasShape(raw);
    ExcerptKeptIff(blanks + CUT_LINE);
  }

  lemma BlankLineNeutral(blanks: string)
    requires blanks != [] && forall i :: 0 <= i < |blanks| ==> blanks[i] == ' '
    ensures Neutralize(blanks + "x") == blanks + "x"
  {
    var raw := blanks + "x";
    assert Lines.Free(raw, NL);
    NotMarker(raw);
    ClearLine(raw);
    NeutralIsFixed(raw);
  }

  lemma BlankLineCapped(blanks: string)
    requires |blanks| == MAX_CHARS && forall i :: 0 <= i < |blanks| ==> blanks[i] == ' '
    ensures Capped(blanks + "x") == blanks + CUT_LINE
  {
    var raw := blanks + "x";
    assert raw[|raw| - 1] == 'x';
    assert Unmarked(raw) == raw && !IsCut(raw) by { NotMarked(raw); }
    assert Lines.Free(raw, NL);
    Lines.SplitOfFree(raw, NL);
    hide IsCut, Unmarked, Lines.Split;
    assert raw[..MAX_CHARS] == blanks;
  }

  lemma EndsWithLast(s: string, p: string)
    requires p != []
    ensures EndsWith(s, p) ==> s[|s| - 1] == p[|p| - 1]
  {
    assert EndsWith(s, p) ==> s[|s| - |p|..][|p| - 1] == s[|s| - 1];
  }

  lemma NotMarked(s: string)
    requires s != [] && s[|s| - 1] != CUT_MARK[0]
    ensures !IsCut(s) && Unmarked(s) == s
  {
    EndsWithLast(s, CUT_LINE);
  }

  lemma BlankLineBlank(blanks: string)
    requires forall i :: 0 <= i < |blanks| ==> blanks[i] == ' '
    ensures !StartsBlank(blanks + "x") && StartsBlank(blanks + CUT_LINE)
  {
    var raw, cut := blanks + "x", blanks + CUT_LINE;
    assert raw[|blanks|] == 'x' && cut[|blanks|] == NL;
  }
}
