/**
 * The size and quoting rules of the message a thread starts from (src/shared/pullRequestSeed.ts): `clipBytes`,
 * `quoteBlock` and the last step of `buildPullRequestSeed`.
 */
module PullRequestSeed {
  import opened Utf16
  import opened OutputCap
  import Lines
  import Strings

  const SEED_MAX_BYTES: nat := 16 * 1024

  /** The prefix of whole characters that fits: what `capHead` keeps before its bytes are decoded again. */
  function LongestPrefix(text: Text, limit: nat): Text { text[..HeadFit(text, limit)] }

  /** `k` is the longest prefix, counted in single units, that fits `limit` bytes. */
  ghost predicate LongestUnits(text: Text, limit: nat, k: nat)
  {
    && k <= |text| && ByteLength(text[..k]) <= limit
    && forall j :: k < j <= |text| ==> ByteLength(text[..j]) > limit
  }

  lemma {:induction false} HighIsFollowed(t: Text, i: nat)
    requires WellFormed(t) && i < |t| && IsHigh(t[i])
    ensures i + 1 < |t| && IsLow(t[i + 1])
    decreases |t|
  {
    var n := Width(t);
    if i >= n {
      assert Repaired(t)[n..] == Repaired(t[n..]) == t[n..];
      HighIsFollowed(t[n..], i - n);
    } else {
      assert Repaired(t)[0] == t[0];
    }
  }

  /** Stepping back from a high surrogate at its end turns the longest prefix of units into the longest one of characters. */
  lemma DropHighIsLongest(text: Text, limit: nat, k: nat)
    requires WellFormed(text) && LongestUnits(text, limit, k)
    ensures HeadFit(text, limit) == if k > 0 && IsHigh(text[k - 1]) then k - 1 else k
  {
    hide Encode, Repaired, HeadFit, WellFormed;
    HeadFitLongest(text, limit);
    var fit := HeadFit(text, limit);
    if k > 0 && IsHigh(text[k - 1]) {
      ByteLengthMonotone(text, k - 1, k);
      assert Boundary(text, k - 1) by {
        assert k > 1 ==> text[k - 1..][0] == text[k - 1];
      }
      if k < |text| || fit == k {
        HighIsFollowed(text, k - 1);
        assert text[..k][k - 1] == text[k - 1] && text[k..][0] == text[k];
        assert !Boundary(text, k);
      } else {
        HighIsFollowed(text, k - 1);
      }
    } else {
      assert Boundary(text, k);
    }
  }

  /** What `clipBytes` returns is always a prefix that fits; of well-formed text it is the longest one of whole characters. */
  method ClipBytes(text: Text, limit: nat) returns (r: Text)
    ensures r <= text && ByteLength(r) <= limit
    ensures WellFormed(text) ==> r == LongestPrefix(text, limit)
  {
    hide Encode, Repaired, HeadFit;
    assert text[..|text|] == text;
    if |Encode(text)| <= limit {
      HeadFitLongest(text, limit);
      BoundaryAtEnd(text);
      return text;
    }
    var low, high := 0, |text|;
    BoundaryAtStart(text);
    while low < high
      invariant 0 <= low <= high <= |text|
      invariant ByteLength(text[..low]) <= limit
      invariant forall j :: high < j <= |text| ==> ByteLength(text[..j]) > limit
    {
      var middle := (low + high + 1) / 2;
      if |Encode(text[..middle])| <= limit {
        low := middle;
      } else {
        forall j | middle <= j <= |text|
          ensures ByteLength(text[..j]) > limit
        {
          ByteLengthMonotone(text, middle, j);
        }
        high := middle - 1;
      }
    }
    var keep := if low > 0 && IsHigh(text[low - 1]) then low - 1 else low;
    r := text[..keep];
    ByteLengthMonotone(text, keep, low);
    if WellFormed(text) {
      DropHighIsLongest(text, limit, low);
    }
  }

  lemma BoundaryAtEnd(t: Text)
    ensures Boundary(t, |t|)
  {
  }

  /**
   * `capHead` and `clipBytes` agree on a well-formed text and a limit exactly when the text fits, does not start with a
   * byte order mark, or the limit leaves no room for that mark: the decoder behind `capHead` swallows it.
   */
  lemma HeadAndClipAgreeIff(text: Text, limit: nat)
    requires WellFormed(text)
    ensures Headed(text, limit).text == LongestPrefix(text, limit)
            <==> (ByteLength(text) <= limit || text[0] != BYTE_ORDER_MARK || limit < 3)
  {
    hide Encode, Repaired, HeadFit;
    var fit := HeadFit(text, limit);
    HeadFitLongest(text, limit);
    assert text[..|text|] == text;
    BoundaryAtEnd(text);
    if ByteLength(text) > limit {
      WellFormedParts(text, fit);
      if text[0] == BYTE_ORDER_MARK {
        MarkFits(text, limit);
      }
    }
  }

  lemma MarkFits(text: Text, limit: nat)
    requires text != [] && text[0] == BYTE_ORDER_MARK
    ensures HeadFit(text, limit) > 0 <==> limit >= 3
  {
    assert Width(text) == 1 && |EncodeScalar(FirstScalar(text))| == 3;
  }

  /** A byte order mark and a letter, cut to three bytes: one keeps the mark, the other nothing. */
  lemma MarkedTextDisagrees()
    ensures Headed([BYTE_ORDER_MARK, 0x61], 3).text == [] && LongestPrefix([BYTE_ORDER_MARK, 0x61], 3) == [BYTE_ORDER_MARK]
  {
    var t: Text, mark: Text := [BYTE_ORDER_MARK, 0x61], [BYTE_ORDER_MARK];
    assert t[1..] == [0x61] && t[..1] == mark && mark[1..] == [];
    EncodeUnit(BYTE_ORDER_MARK);
    assert t == mark + [0x61];
    ByteLengthSnoc(mark, 0x61);
    assert HeadFit(t, 3) == 1;
    assert Repaired(mark) == mark;
  }

  // ---------------------------------------------------------------------------------------------
  // The seed as a whole
  // ---------------------------------------------------------------------------------------------

  function TrimEnd(t: Text): (r: Text)
    ensures r <= t
    ensures r == [] || !Strings.IsSpaceCode(r[|r| - 1])
  {
    if t != [] && Strings.IsSpaceCode(t[|t| - 1]) then TrimEnd(t[..|t| - 1]) else t
  }

  function TrimStart(t: Text): (r: Text)
    ensures |r| <= |t| && r == t[|t| - |r|..]
  {
    if t != [] && Strings.IsSpaceCode(t[0]) then TrimStart(t[1..]) else t
  }

  const TRUNCATION_NOTE :=
    ("\n[The rest was cut " + "to keep this message") + (" short; read the pull" + " request for it.]")

  lemma AsciiConcat(a: string, b: string)
    requires Strings.IsAscii(a) && Strings.IsAscii(b)
    ensures Strings.IsAscii(a + b)
  {
  }

  lemma NoteIsAscii()
    ensures Strings.IsAscii(TRUNCATION_NOTE) && |TRUNCATION_NOTE| == 77 && TRUNCATION_NOTE[0] == '\n'
  {
    assert Strings.IsAscii("\n[The rest was cut ") && Strings.IsAscii("to keep this message");
    assert Strings.IsAscii(" short; read the pull") && Strings.IsAscii(" request for it.]");
    hide Strings.IsAscii;
    AsciiConcat("\n[The rest was cut ", "to keep this message");
    AsciiConcat(" short; read the pull", " request for it.]");
    AsciiConcat("\n[The rest was cut " + "to keep this message", " short; read the pull" + " request for it.]");
  }

  /** Plain text as units. */
  function AsUnits(s: string): (t: Text)
    requires Strings.IsAscii(s)
    ensures |t| == |s| && forall i :: 0 <= i < |t| ==> t[i] == s[i] as int < 0x80
  {
    if s == [] then [] else [s[0] as int] + AsUnits(s[1..])
  }

  /** The note, on a line of its own. */
  function Note(): Text
  {
    NoteIsAscii();
    AsUnits(TRUNCATION_NOTE)
  }

  lemma NoteIsShort()
    ensures |Note()| == |TRUNCATION_NOTE| && ByteLength(Note()) == |Note()| <= SEED_MAX_BYTES && Note()[0] == NEWLINE
  {
    NoteIsAscii();
    hide Encode, Repaired;
    SingleByteLength(Note());
  }

  /** The seed's last step: the joined lines whole when they fit, else cut to leave room for the note. */
  method FinishSeed(text: Text) returns (seed: Text)
    ensures ByteLength(seed) <= SEED_MAX_BYTES
    ensures ByteLength(text) <= SEED_MAX_BYTES ==> seed == text
    ensures ByteLength(text) > SEED_MAX_BYTES ==> Suffix(Note(), seed) && seed[..|seed| - |Note()|] <= text
    ensures ByteLength(text) > SEED_MAX_BYTES && WellFormed(text) ==>
              seed == TrimEnd(LongestPrefix(text, SEED_MAX_BYTES - |TRUNCATION_NOTE|)) + Note()
  {
    hide Encode, Repaired, HeadFit;
    if |Encode(text)| <= SEED_MAX_BYTES {
      return text;
    }
    var note := Note();
    NoteIsShort();
    var room := SEED_MAX_BYTES - |Encode(note)|;
    var clipped := ClipBytes(text, room);
    var kept := TrimEnd(clipped);
    assert clipped[..|clipped|] == clipped && clipped[..|kept|] == kept;
    ByteLengthMonotone(clipped, |kept|, |clipped|);
    ByteLengthConcat(kept, note);
    seed := kept + note;
    assert seed[|kept|..] == note && seed[..|kept|] == kept;
  }

  // ---------------------------------------------------------------------------------------------
  // Quoting
  // ---------------------------------------------------------------------------------------------

  const GREATER: Unit := 0x3E
  const SPACE: Unit := 0x20
  const CARRIAGE_RETURN: Unit := 0x0D
  const ELLIPSIS: Unit := 0x2026

  /** Anything a reader could take for the end of a line. */
  predicate MayEndLine(u: Unit)
  {
    u == NEWLINE || u == CARRIAGE_RETURN || u == 0x0B || u == 0x0C || u == 0x85 || u == 0x2028 || u == 0x2029
  }

  /** `/\r\n?|\u2028|\u2029|\u0085/` to a newline. */
  function UnifyBreaks(t: Text): Text
  {
    if t == [] then []
    else if t[0] == CARRIAGE_RETURN then [NEWLINE] + UnifyBreaks(if |t| > 1 && t[1] == NEWLINE then t[2..] else t[1..])
    else if t[0] == 0x2028 || t[0] == 0x2029 || t[0] == 0x85 then [NEWLINE] + UnifyBreaks(t[1..])
    else [t[0]] + UnifyBreaks(t[1..])
  }

  /** Control characters other than tab, newline and carriage return to a space. */
  function BlankControls(t: Text): (r: Text)
    ensures |r| == |t|
  {
    if t == [] then []
    else
      var u := t[0];
      [if u <= 0x08 || u == 0x0B || u == 0x0C || 0x0E <= u <= 0x1F || 0x7F <= u <= 0x9F then SPACE else u] + BlankControls(t[1..])
  }

  function QuotedLine(line: Text): Text { TrimEnd([GREATER, SPACE] + line) }

  function QuotedLines(lines: seq<Text>): (r: seq<Text>)
    ensures |r| == |lines|
    ensures forall i :: 0 <= i < |lines| ==> r[i] == QuotedLine(lines[i])
  {
    if lines == [] then [] else [QuotedLine(lines[0])] + QuotedLines(lines[1..])
  }

  /** `quoteBlock` of text whose HTML comments are already gone. */
  function QuoteBlock(text: Text, limit: nat): Text
  {
    var clean := TrimEnd(TrimStart(BlankControls(UnifyBreaks(text))));
    var clipped := if |clean| > limit then TrimEnd(clean[..limit]) + [ELLIPSIS] else clean;
    Lines.Join(QuotedLines(Lines.Split(clipped, NEWLINE)), NEWLINE)
  }

  /** No unit but a newline can end a line. */
  predicate OnlyNewlines(t: Text) { forall i :: 0 <= i < |t| ==> MayEndLine(t[i]) ==> t[i] == NEWLINE }

  lemma {:induction false} CleanedBreaks(t: Text)
    ensures OnlyNewlines(BlankControls(UnifyBreaks(t)))
    decreases |t|
  {
    if t != [] {
      var rest := if t[0] == CARRIAGE_RETURN && |t| > 1 && t[1] == NEWLINE then t[2..] else t[1..];
      CleanedBreaks(rest);
      var u := UnifyBreaks(t);
      assert u[1..] == UnifyBreaks(rest);
    }
  }

  lemma {:induction false} SplitOnlyNewlines(t: Text)
    requires OnlyNewlines(t)
    ensures forall i, k :: 0 <= i < |Lines.Split(t, NEWLINE)| && 0 <= k < |Lines.Split(t, NEWLINE)[i]| ==>
              !MayEndLine(Lines.Split(t, NEWLINE)[i][k])
  {
    if t != [] {
      assert OnlyNewlines(t[1..]);
      SplitOnlyNewlines(t[1..]);
    }
  }

  /** A quoted line starts with `>` and holds no line break of any kind. */
  lemma QuotedLineShape(line: Text)
    requires forall k :: 0 <= k < |line| ==> !MayEndLine(line[k])
    ensures QuotedLine(line) != [] && QuotedLine(line)[0] == GREATER
    ensures forall k :: 0 <= k < |QuotedLine(line)| ==> !MayEndLine(QuotedLine(line)[k])
  {
    KeepsFirst([GREATER, SPACE] + line);
  }

  lemma {:induction false} KeepsFirst(t: Text)
    requires t != [] && !Strings.IsSpaceCode(t[0])
    ensures TrimEnd(t) != []
  {
    if Strings.IsSpaceCode(t[|t| - 1]) {
      KeepsFirst(t[..|t| - 1]);
    }
  }

  /** Every line of a joined list of quoted lines, wherever a reader sees a line begin, starts with `>`. */
  lemma {:induction false} JoinedQuotes(lines: seq<Text>, at: nat)
    requires lines != []
    requires forall i :: 0 <= i < |lines| ==> lines[i] != [] && lines[i][0] == GREATER
    requires forall i, k :: 0 <= i < |lines| && 0 <= k < |lines[i]| ==> !MayEndLine(lines[i][k])
    requires at < |Lines.Join(lines, NEWLINE)| && (at == 0 || MayEndLine(Lines.Join(lines, NEWLINE)[at - 1]))
    ensures Lines.Join(lines, NEWLINE)[at] == GREATER
  {
    var n := |lines[0]|;
    if |lines| > 1 {
      var rest := Lines.Join(lines[1..], NEWLINE);
      assert Lines.Join(lines, NEWLINE) == lines[0] + [NEWLINE] + rest;
      if at > n {
        assert at > n + 1 ==> Lines.Join(lines, NEWLINE)[at - 1] == rest[at - n - 2];
        assert rest[at - n - 1] == Lines.Join(lines, NEWLINE)[at];
        JoinedQuotes(lines[1..], at - n - 1);
      }
    }
  }

  /** Whatever the text, every place in its quote where a line can begin holds `>`: quoted words never read as a line of the message. */
  lemma EveryQuotedLineIsMarked(text: Text, limit: nat, at: nat)
    requires at < |QuoteBlock(text, limit)|
    requires at == 0 || MayEndLine(QuoteBlock(text, limit)[at - 1])
    ensures QuoteBlock(text, limit)[at] == GREATER
  {
    hide *;
    var clipped := ClippedText(text, limit);
    QuotedMarks(clipped, at);
  }

  /** The text whose lines are quoted. */
  lemma ClippedText(text: Text, limit: nat) returns (clipped: Text)
    ensures OnlyNewlines(clipped)
    ensures QuoteBlock(text, limit) == Lines.Join(QuotedLines(Lines.Split(clipped, NEWLINE)), NEWLINE)
  {
    CleanedBreaks(text);
    var plain := BlankControls(UnifyBreaks(text));
    var clean := TrimEnd(TrimStart(plain));
    clipped := if |clean| > limit then TrimEnd(clean[..limit]) + [ELLIPSIS] else clean;
    TrimKeepsBreaks(plain);
    ClipKeepsBreaks(clean, limit);
    hide Lines.Split, Lines.Join, QuotedLines, TrimEnd, TrimStart, BlankControls, UnifyBreaks, OnlyNewlines;
  }

  lemma SliceKeepsBreaks(t: Text, a: nat, b: nat)
    requires OnlyNewlines(t) && a <= b <= |t|
    ensures OnlyNewlines(t[a..b])
  {
    hide MayEndLine;
  }

  lemma TrimKeepsBreaks(t: Text)
    requires OnlyNewlines(t)
    ensures OnlyNewlines(TrimEnd(TrimStart(t)))
  {
    hide *;
    var u := TrimStart(t);
    SliceKeepsBreaks(t, |t| - |u|, |t|);
    assert t[|t| - |u|..|t|] == u;
    var v := TrimEnd(u);
    SliceKeepsBreaks(u, 0, |v|);
    assert u[0..|v|] == v;
  }

  lemma ClipKeepsBreaks(t: Text, limit: nat)
    requires OnlyNewlines(t)
    ensures |t| > limit ==> OnlyNewlines(TrimEnd(t[..limit]) + [ELLIPSIS])
  {
    assert !MayEndLine(ELLIPSIS);
    hide TrimEnd, MayEndLine, ELLIPSIS;
    if |t| > limit {
      var v := TrimEnd(t[..limit]);
      assert t[0..|v|] == v;
      SliceKeepsBreaks(t, 0, |v|);
    }
  }

  lemma QuotedMarks(clipped: Text, at: nat)
    requires OnlyNewlines(clipped)
    requires var quote := Lines.Join(QuotedLines(Lines.Split(clipped, NEWLINE)), NEWLINE);
             at < |quote| && (at == 0 || MayEndLine(quote[at - 1]))
    ensures Lines.Join(QuotedLines(Lines.Split(clipped, NEWLINE)), NEWLINE)[at] == GREATER
  {
    SplitOnlyNewlines(clipped);
    var lines := Lines.Split(clipped, NEWLINE);
    var quotes := QuotedLines(lines);
    hide Lines.Split, Lines.Join, QuotedLine, OnlyNewlines;
    forall i | 0 <= i < |quotes|
      ensures quotes[i] != [] && quotes[i][0] == GREATER
      ensures forall k :: 0 <= k < |quotes[i]| ==> !MayEndLine(quotes[i][k])
    {
      QuotedLineShape(lines[i]);
    }
    JoinedQuotes(quotes, at);
  }
}
