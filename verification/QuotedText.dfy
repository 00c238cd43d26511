/**
 * What a quote keeps of the text it quotes (`quoteBlock` of src/shared/pullRequestSeed.ts): every visible character, in
 * order, and the lines of text that needs no cleaning.
 */
module QuotedText {
  import opened Utf16
  import opened OutputCap
  import opened PullRequestSeed
  import Lines
  import Sequences
  import Strings

  /** Control characters, which a quote turns into white space. */
  predicate IsControlCode(u: Unit) { u <= 0x1F || 0x7F <= u <= 0x9F }

  predicate Invisible(u: Unit) { Strings.IsSpaceCode(u) || IsControlCode(u) }

  /** The text without white space and control characters. */
  function Visible(t: Text): Text
  {
    if t == [] then [] else (if Invisible(t[0]) then [] else [t[0]]) + Visible(t[1..])
  }

  lemma {:induction false} VisibleConcat(a: Text, b: Text)
    ensures Visible(a + b) == Visible(a) + Visible(b)
  {
    hide Invisible;
    if a == [] {
      Sequences.Empty(b);
      Sequences.Empty(Visible(b));
    } else {
      assert (a + b)[0] == a[0] && (a + b)[1..] == a[1..] + b;
      VisibleConcat(a[1..], b);
    }
  }

  lemma VisibleOne(u: Unit)
    ensures Visible([u]) == if Invisible(u) then [] else [u]
  {
    hide Invisible;
    assert [u][1..] == [];
  }

  /** The two cleaning steps replace invisible characters by invisible ones. */
  lemma {:induction false} UnifyKeepsVisible(t: Text)
    ensures Visible(UnifyBreaks(t)) == Visible(t) && |UnifyBreaks(t)| <= |t|
    decreases |t|
  {
    if t != [] {
      if t[0] == CARRIAGE_RETURN && |t| > 1 && t[1] == NEWLINE {
        UnifyKeepsVisible(t[2..]);
        UnifyPair(t);
      } else {
        UnifyKeepsVisible(t[1..]);
        UnifyOne(t);
      }
    }
  }

  lemma UnifyPair(t: Text)
    requires |t| > 1 && t[0] == CARRIAGE_RETURN && t[1] == NEWLINE
    ensures UnifyBreaks(t) == [NEWLINE] + UnifyBreaks(t[2..])
    ensures Visible(t) == Visible(t[2..]) && Visible([NEWLINE] + UnifyBreaks(t[2..])) == Visible(UnifyBreaks(t[2..]))
  {
    assert t[1..][1..] == t[2..];
    assert ([NEWLINE] + UnifyBreaks(t[2..]))[1..] == UnifyBreaks(t[2..]);
  }

  lemma UnifyOne(t: Text)
    requires t != [] && !(t[0] == CARRIAGE_RETURN && |t| > 1 && t[1] == NEWLINE)
    ensures UnifyBreaks(t) != [] && UnifyBreaks(t)[1..] == UnifyBreaks(t[1..])
    ensures UnifyBreaks(t)[0] == t[0] || (Invisible(t[0]) && Invisible(UnifyBreaks(t)[0]))
  {
  }

  lemma {:induction false} BlankKeepsVisible(t: Text)
    ensures Visible(BlankControls(t)) == Visible(t)
  {
    if t != [] {
      BlankKeepsVisible(t[1..]);
      BlankOne(t);
    }
  }

  lemma BlankOne(t: Text)
    requires t != []
    ensures BlankControls(t) != [] && BlankControls(t)[1..] == BlankControls(t[1..])
    ensures BlankControls(t)[0] == t[0] || (Invisible(t[0]) && Invisible(BlankControls(t)[0]))
  {
  }

  lemma {:induction false} TrimStartKeepsVisible(t: Text)
    ensures Visible(TrimStart(t)) == Visible(t) && |TrimStart(t)| <= |t|
  {
    if t != [] && Strings.IsSpaceCode(t[0]) {
      TrimStartKeepsVisible(t[1..]);
      Sequences.Empty(Visible(t[1..]));
    }
  }

  lemma {:induction false} TrimEndKeepsVisible(t: Text)
    ensures Visible(TrimEnd(t)) == Visible(t) && |TrimEnd(t)| <= |t|
  {
    if t != [] && Strings.IsSpaceCode(t[|t| - 1]) {
      var front, last := t[..|t| - 1], t[|t| - 1];
      TrimEndKeepsVisible(front);
      VisibleConcat(front, [last]);
      VisibleOne(last);
      assert t == front + [last];
      Sequences.Empty(Visible(front));
    }
  }

  /** The text of a quote without the marks: each line without its first character. */
  function WithoutMarks(lines: seq<Text>): seq<Text>
  {
    seq(|lines|, i requires 0 <= i < |lines| => if lines[i] == [] then [] else lines[i][1..])
  }

  function Unquoted(quote: Text): Text { Lines.Join(WithoutMarks(Lines.Split(quote, NEWLINE)), NEWLINE) }

  /** A quoted line is its mark and what is visible of the line. */
  lemma LineKeepsVisible(line: Text)
    ensures QuotedLine(line) != [] && QuotedLine(line)[0] == GREATER
    ensures Visible(QuotedLine(line)[1..]) == Visible(line)
  {
    var q := [GREATER, SPACE] + line;
    KeepsFirst(q);
    TrimEndKeepsVisible(q);
    assert q == [GREATER] + ([SPACE] + line) && ([SPACE] + line)[1..] == line;
    assert TrimEnd(q)[0] == q[0];
    assert Invisible(SPACE) && !Invisible(GREATER);
    VisibleFirst(TrimEnd(q));
    VisibleFirst(q);
    VisibleFirst([SPACE] + line);
  }

  lemma VisibleFirst(t: Text)
    requires t != []
    ensures if Invisible(t[0]) then Visible(t) == Visible(t[1..]) else Visible(t) != [] && Visible(t)[1..] == Visible(t[1..])
  {
  }

  lemma {:induction false} JoinKeepsVisible(a: seq<Text>, b: seq<Text>)
    requires |a| == |b| && forall i :: 0 <= i < |a| ==> Visible(a[i]) == Visible(b[i])
    ensures Visible(Lines.Join(a, NEWLINE)) == Visible(Lines.Join(b, NEWLINE))
  {
    if |a| > 1 {
      hide Visible;
      JoinKeepsVisible(a[1..], b[1..]);
      JoinVisible(a);
      JoinVisible(b);
    }
  }

  lemma JoinVisible(a: seq<Text>)
    requires |a| > 1
    ensures Visible(Lines.Join(a, NEWLINE)) == Visible(a[0]) + Visible([NEWLINE]) + Visible(Lines.Join(a[1..], NEWLINE))
  {
    hide Visible;
    assert a == [a[0]] + a[1..];
    Lines.JoinStep(a[0], a[1..], NEWLINE);
    VisibleConcat(a[0] + [NEWLINE], Lines.Join(a[1..], NEWLINE));
    VisibleConcat(a[0], [NEWLINE]);
  }

  lemma {:induction false} TrimEndFree(t: Text, u: Unit)
    requires Lines.Free(t, u)
    ensures Lines.Free(TrimEnd(t), u)
  {
    if t != [] && Strings.IsSpaceCode(t[|t| - 1]) {
      TrimEndFree(t[..|t| - 1], u);
    }
  }

  lemma QuotedLineFree(line: Text)
    requires Lines.Free(line, NEWLINE)
    ensures Lines.Free(QuotedLine(line), NEWLINE)
  {
    TrimEndFree([GREATER, SPACE] + line, NEWLINE);
  }

  /** Quoting the lines of a text keeps the lines apart and all that is visible in them. */
  lemma QuotingKeepsVisible(text: Text)
    ensures var quote := Lines.Join(QuotedLines(Lines.Split(text, NEWLINE)), NEWLINE);
            && Lines.Split(quote, NEWLINE) == QuotedLines(Lines.Split(text, NEWLINE))
            && Visible(Unquoted(quote)) == Visible(text)
  {
    var lines := Lines.Split(text, NEWLINE);
    var quotes := QuotedLines(lines);
    Lines.SplitFree(text, NEWLINE);
    Lines.JoinSplit(text, NEWLINE);
    hide Lines.Split, Lines.Join, Visible, QuotedLine;
    forall i | 0 <= i < |lines|
      ensures Lines.Free(quotes[i], NEWLINE) && Visible(WithoutMarks(quotes)[i]) == Visible(lines[i])
    {
      assert Lines.Free(lines[i], NEWLINE);
      QuotedLineFree(lines[i]);
      LineKeepsVisible(lines[i]);
    }
    Lines.SplitJoin(quotes, NEWLINE);
    JoinKeepsVisible(WithoutMarks(quotes), lines);
  }

  function CleanedText(text: Text): Text { TrimEnd(TrimStart(BlankControls(UnifyBreaks(text)))) }

  lemma CleanedKeepsVisible(text: Text)
    ensures Visible(CleanedText(text)) == Visible(text) && |CleanedText(text)| <= |text|
  {
    UnifyKeepsVisible(text);
    BlankKeepsVisible(UnifyBreaks(text));
    TrimStartKeepsVisible(BlankControls(UnifyBreaks(text)));
    TrimEndKeepsVisible(TrimStart(BlankControls(UnifyBreaks(text))));
  }

  lemma QuoteIs(text: Text, limit: nat)
    ensures var clean := CleanedText(text);
            QuoteBlock(text, limit)
            == Lines.Join(QuotedLines(Lines.Split(if |clean| > limit then TrimEnd(clean[..limit]) + [ELLIPSIS] else clean, NEWLINE)), NEWLINE)
  {
    hide Lines.Split, Lines.Join, TrimEnd, TrimStart, BlankControls, UnifyBreaks;
  }

  /** The quote of a text within the limit, its marks taken off, shows every visible character of the text in order. */
  lemma QuoteKeepsVisible(text: Text, limit: nat)
    requires |text| <= limit
    ensures Visible(Unquoted(QuoteBlock(text, limit))) == Visible(text)
  {
    CleanedKeepsVisible(text);
    hide *;
    QuoteIs(text, limit);
    QuotingKeepsVisible(CleanedText(text));
  }

  lemma CutShowsBeginning(clean: Text, limit: nat)
    requires |clean| > limit
    ensures var p := Visible(clean[..limit]); p <= Visible(clean) && Visible(TrimEnd(clean[..limit]) + [ELLIPSIS]) == p + [ELLIPSIS]
  {
    var kept := TrimEnd(clean[..limit]);
    TrimEndKeepsVisible(clean[..limit]);
    assert !Invisible(ELLIPSIS);
    hide Visible, TrimEnd;
    VisibleConcat(kept, [ELLIPSIS]);
    VisibleOne(ELLIPSIS);
    VisibleConcat(clean[..limit], clean[limit..]);
    Sequences.TakeDrop(clean, limit);
  }

  /** Whatever the limit, the quote shows all that is visible, or a beginning of it and an ellipsis. */
  lemma QuoteShowsBeginning(text: Text, limit: nat)
    ensures var shown := Visible(Unquoted(QuoteBlock(text, limit)));
            shown == Visible(text) || exists p :: p <= Visible(text) && shown == p + [ELLIPSIS]
  {
    var clean := CleanedText(text);
    CleanedKeepsVisible(text);
    hide *;
    QuoteIs(text, limit);
    if |clean| > limit {
      CutShowsBeginning(clean, limit);
      QuotingKeepsVisible(TrimEnd(clean[..limit]) + [ELLIPSIS]);
    } else {
      QuotingKeepsVisible(clean);
    }
  }

  // ---------------------------------------------------------------------------------------------
  // Text that needs no cleaning
  // ---------------------------------------------------------------------------------------------

  /** No control character but tab and newline, no other line separator, and no white space at either end. */
  predicate NeedsNoCleaning(t: Text)
  {
    && (forall i :: 0 <= i < |t| ==> (IsControlCode(t[i]) ==> t[i] == 0x09 || t[i] == NEWLINE) && t[i] != 0x2028 && t[i] != 0x2029)
    && (t != [] ==> !Strings.IsSpaceCode(t[0]) && !Strings.IsSpaceCode(t[|t| - 1]))
  }

  lemma {:induction false} CleanStays(t: Text)
    requires forall i :: 0 <= i < |t| ==> (IsControlCode(t[i]) ==> t[i] == 0x09 || t[i] == NEWLINE) && t[i] != 0x2028 && t[i] != 0x2029
    ensures UnifyBreaks(t) == t && BlankControls(t) == t
  {
    if t != [] {
      CleanStays(t[1..]);
    }
  }

  /** Such a text within the limit is quoted line by line: each line behind `> `, without the white space at its end. */
  lemma CleanTextIsQuotedByLine(text: Text, limit: nat)
    requires NeedsNoCleaning(text) && |text| <= limit
    ensures var before, after := Lines.Split(text, NEWLINE), Lines.Split(QuoteBlock(text, limit), NEWLINE);
            && |after| == |before|
            && forall i :: 0 <= i < |before| ==> after[i] == TrimEnd([GREATER, SPACE] + before[i])
  {
    CleanStays(text);
    assert CleanedText(text) == text;
    QuotingKeepsVisible(text);
    QuoteIs(text, limit);
    hide Lines.Split, Lines.Join, Visible, Unquoted, TrimEnd, TrimStart, QuoteBlock, CleanedText;
  }
}
