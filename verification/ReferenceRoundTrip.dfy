/** What a message gives back when its block of references is read out of it. */
module ReferenceRoundTrip {
  import opened Options
  import opened Strings
  import opened ReviewText
  import opened ChatReferences
  import opened ReferenceBlocks
  import opened ReferenceExtraction
  import Sequences

  // ---------------------------------------------------------------------------------------------
  // Headers in the text of a message
  // ---------------------------------------------------------------------------------------------

  /** Nothing in the text is a whole header line of a block. */
  ghost predicate HeaderFree(text: string) { forall q: nat :: q <= |text| ==> HeaderQuote(text, q).None? }

  /** A text, two newlines, and a block from there to the end. */
  ghost predicate IsMessage(s: string, n: nat, encoded: string, body: string)
  {
    && n + 2 <= |s| && s[n] == NL && s[n + 1] == NL
    && BlockParts(s, n + 2, encoded, body) && HeaderSafe(encoded) && Clear(body)
  }

  lemma Lengths()
    ensures |OPENER| == 25 && |HEADER_END| == 3 && |CLOSER| == 21
  {
  }

  lemma MessageParts(s: string, n: nat, encoded: string, body: string)
    requires IsMessage(s, n, encoded, body)
    ensures BlockParts(s, n + 2, encoded, body) && Clear(body) && n + 2 < |s| && s[n] == NL && s[n + 2] == '['
  {
    CharOfPart(s, n + 2, OPENER, n + 2);
    hide BlockParts, Clear;
  }

  lemma HeaderParts(s: string, n: nat, encoded: string, body: string)
    requires IsMessage(s, n, encoded, body)
    ensures var a := n + 2 + |OPENER|; var b := a + |encoded|;
            && n + 2 < |s| && s[n + 1] == NL && encoded != [] && NL !in encoded && ']' !in encoded
            && StartsAt(s, n + 2, OPENER) && StartsAt(s, a, encoded) && StartsAt(s, b, HEADER_END)
  {
    hide StartsAt, Clear;
    CharOfPart(s, n + 2, OPENER, n + 2);
  }

  lemma OpenerStart(s: string, q: nat)
    requires StartsAt(s, q, OPENER)
    ensures q + 1 < |s| && s[q] == '[' && s[q + 1] == 'M'
  {
    CharOfPart(s, q, OPENER, q);
    CharOfPart(s, q, OPENER, q + 1);
  }

  lemma MessageIsMessage(text: string, encoded: string, body: string)
    requires HeaderSafe(encoded) && Clear(body)
    ensures var s := Message(text, encoded, body);
            IsMessage(s, |text|, encoded, body) && s[..|text|] == text && s[..|text| + 1] == text + [NL]
  {
    var front := text + "\n\n";
    PartsOfBlock(front, encoded, body);
    hide BlockParts, BlockOf, Clear, HeaderSafe;
    var s := Message(text, encoded, body);
    assert s == front + BlockOf(encoded, body);
  }

  lemma OpenerChars(j: nat)
    requires j < |OPENER|
    ensures OPENER[j] != NL && (OPENER[j] == QUOTE <==> j == 24)
  {
  }

  lemma OpenerOnOneLine()
    ensures NL !in OPENER
  {
    forall j: nat | j < |OPENER|
      ensures OPENER[j] != NL
    {
      OpenerChars(j);
    }
  }

  /** A pattern without newlines that starts before a newline ends before it. */
  lemma FitsBefore(s: string, q: nat, p: string, n: nat)
    requires StartsAt(s, q, p) && q <= n < |s| && s[n] == NL && NL !in p
    ensures q + |p| <= n
  {
    if n < q + |p| {
      CharOfPart(s, q, p, n);
    }
  }

  /** The start of a header has no newline, so it fits before the one that ends the text. */
  lemma OpenerFits(s: string, q: nat, n: nat)
    requires StartsAt(s, q, OPENER) && q <= n < |s| && s[n] == NL
    ensures q + |OPENER| <= n
  {
    hide *;
    OpenerOnOneLine();
    FitsBefore(s, q, OPENER, n);
  }

  /** A pattern inside a prefix is where it is in the whole. */
  lemma InPrefix(s: string, m: nat, i: nat, p: string)
    requires m <= |s|
    ensures StartsAt(s[..m], i, p) <==> StartsAt(s, i, p) && i + |p| <= m
  {
    assert s[..m] == s[0..m];
    InSlice(s, 0, m, i, p);
  }

  lemma OpenerSame(s: string, n: nat, encoded: string, body: string, q: nat)
    requires IsMessage(s, n, encoded, body) && q <= n + 1
    ensures StartsAt(s, q, OPENER) <==> StartsAt(s[..n + 1], q, OPENER)
    ensures StartsAt(s, q, OPENER) ==> q + |OPENER| <= n
  {
    InPrefix(s, n + 1, q, OPENER);
    hide BlockParts, Clear, HeaderSafe;
    if StartsAt(s, q, OPENER) {
      if q <= n {
        OpenerFits(s, q, n);
      } else {
        CharOfPart(s, q, OPENER, q);
      }
    }
  }

  lemma QuoteInText(s: string, n: nat, a: nat, b: nat)
    requires n + 2 <= |s| && s[n] == NL && s[n + 1] == NL && a <= n && b <= n && Find(s[..n + 1], "\"", a) == Some(b)
    ensures Find(s, "\"", a) == Some(b)
    ensures StartsAt(s, b, HEADER_END) <==> StartsAt(s[..n + 1], b, HEADER_END)
  {
    InPrefix(s, n + 1, b, "\"");
    InPrefix(s, n + 1, b, HEADER_END);
    forall j: nat | a <= j < b
      ensures !StartsAt(s, j, "\"")
    {
      InPrefix(s, n + 1, j, "\"");
    }
    FindIs(s, "\"", a, b);
    StartsWithChar(s, b, QUOTE);
    if StartsAt(s, b, HEADER_END) && n + 1 < b + |HEADER_END| {
      CharOfPart(s, b, HEADER_END, n);
    }
  }

  /** The first quote after the text is the one of the block's own header. */
  lemma QuoteOfBlock(s: string, n: nat, a: nat, b: nat)
    requires n + 2 <= |s| && a <= n && StartsAt(s, n + 2, OPENER) && s[n + 1] == NL
    requires Find(s[..n + 1], "\"", a).None? && Find(s, "\"", a) == Some(b)
    ensures b == n + 2 + 24
  {
    var q := n + 2;
    StartsWithChar(s, b, QUOTE);
    InPrefix(s, n + 1, b, "\"");
    CharOfPart(s, q, OPENER, q + 24);
    OpenerChars(24);
    StartsWithChar(s, q + 24, QUOTE);
    hide StartsAt;
    assert q <= b <= q + 24;
    CharOfPart(s, q, OPENER, b);
    OpenerChars(b - q);
  }

  /** And no bracket follows it. */
  lemma QuotePastText(s: string, n: nat, encoded: string, body: string, a: nat, b: nat)
    requires IsMessage(s, n, encoded, body) && a <= n
    requires Find(s[..n + 1], "\"", a).None? && Find(s, "\"", a) == Some(b)
    ensures !StartsAt(s, b, HEADER_END)
  {
    hide *;
    HeaderParts(s, n, encoded, body);
    QuoteOfBlock(s, n, a, b);
    Lengths();
    CharOfPart(s, n + 2 + |OPENER|, encoded, b + 1);
    if StartsAt(s, b, HEADER_END) {
      EndBracket(s, b);
    }
  }

  lemma EndBracket(s: string, b: nat)
    requires StartsAt(s, b, HEADER_END)
    ensures b + 1 < |s| && s[b + 1] == ']'
  {
    CharOfPart(s, b, HEADER_END, b + 1);
  }

  /** Up to the end of the text a message has the headers that the text with its newline has. */
  lemma HeaderSame(s: string, n: nat, encoded: string, body: string, q: nat)
    requires IsMessage(s, n, encoded, body) && q <= n + 1
    ensures HeaderQuote(s, q) == HeaderQuote(s[..n + 1], q)
    ensures HeaderQuote(s, q).Some? ==> q + 29 <= n + 1
  {
    var t := s[..n + 1];
    OpenerSame(s, n, encoded, body, q);
    if StartsAt(s, q, OPENER) {
      var a := q + |OPENER|;
      var bt := Find(t, "\"", a);
      if bt.Some? {
        StartsWithChar(t, bt.value, QUOTE);
        assert s[n] == NL && t[n] == NL;
        QuoteInText(s, n, a, bt.value);
      } else if Find(s, "\"", a).Some? {
        QuotePastText(s, n, encoded, body, a, Find(s, "\"", a).value);
      }
    }
  }

  // ---------------------------------------------------------------------------------------------
  // The text comes back
  // ---------------------------------------------------------------------------------------------

  lemma BlockAfterText(s: string, n: nat, encoded: string, body: string, p: nat)
    requires IsMessage(s, n, encoded, body) && n + 1 <= p <= n + 2
    ensures BlockAt(s, p) == Some(Block(encoded, |s|))
    ensures ScanText(s, p) == [NL] && ScanHeaders(s, p) == [encoded]
  {
    hide *;
    MessageParts(s, n, encoded, body);
    HeaderParts(s, n, encoded, body);
    BlockStart(s, n, p);
    SafeHeader(s, n, encoded, body);
    BlockFound(s, p, n + 2, encoded, body);
    ScanStep(s, p);
    ScanStep(s, |s|);
    NoneAtEnd(s);
    Sequences.Empty([NL]);
    Sequences.Empty([encoded]);
  }

  lemma BlockStart(s: string, n: nat, p: nat)
    requires n + 2 < |s| && s[n + 1] == NL && s[n + 2] == '[' && n + 1 <= p <= n + 2
    ensures HeaderStart(s, p) == n + 2
  {
  }

  lemma SafeHeader(s: string, n: nat, encoded: string, body: string)
    requires IsMessage(s, n, encoded, body)
    ensures HeaderSafe(encoded)
  {
  }

  lemma NoneAtEnd(s: string)
    ensures BlockAt(s, |s|).None?
  {
    hide *;
  }

  lemma NoBlockInText(s: string, n: nat, encoded: string, body: string, p: nat)
    requires IsMessage(s, n, encoded, body) && HeaderFree(s[..n + 1]) && p <= n
    ensures BlockAt(s, p).None?
  {
    var q := HeaderStart(s, p);
    HeaderSame(s, n, encoded, body, q);
    hide HeaderQuote, IsMessage;
  }

  /** Without headers in it, the text of a message is scanned unchanged up to the block. */
  lemma {:induction false} TextScanned(s: string, n: nat, encoded: string, body: string, p: nat)
    requires IsMessage(s, n, encoded, body) && HeaderFree(s[..n + 1]) && p <= n + 1
    ensures ScanText(s, p) == s[p..n + 1] + [NL]
    ensures ScanHeaders(s, p) == [encoded]
    decreases n + 1 - p
  {
    hide *;
    MessageParts(s, n, encoded, body);
    if p == n + 1 {
      BlockAfterText(s, n, encoded, body, p);
      Sequences.Empty([NL]);
      assert s[p..n + 1] == [];
    } else {
      TextScanned(s, n, encoded, body, p + 1);
      NoBlockInText(s, n, encoded, body, p);
      ScanStep(s, p);
      assert s[p..n + 1] == [s[p]] + s[p + 1..n + 1];
      Sequences.Assoc([s[p]], s[p + 1..n + 1], [NL]);
    }
  }

  ghost predicate NoTriple(s: string) { forall i: nat :: !TripleAt(s, i) }

  lemma {:induction false} CollapseHead(s: string)
    ensures s != [] ==> Collapse(s) != [] && Collapse(s)[0] == s[0]
    ensures |Collapse(s)| <= |s|
    ensures |Collapse(s)| > 1 && Collapse(s)[0] == NL && Collapse(s)[1] == NL ==> |s| > 1 && s[0] == NL && s[1] == NL
  {
    if s != [] {
      CollapseHead(s[1..]);
    }
  }

  lemma {:induction false} CollapseHasNoTriple(s: string)
    ensures NoTriple(Collapse(s))
  {
    if s != [] {
      CollapseHasNoTriple(s[1..]);
      if !TripleAt(s, 0) {
        CollapseHead(s[1..]);
        var rest := Collapse(s[1..]);
        forall i: nat
          ensures !TripleAt([s[0]] + rest, i)
        {
          if i > 0 {
            assert !TripleAt(rest, i - 1);
          }
        }
      }
    }
  }

  lemma {:induction false} CollapseKeeps(s: string)
    requires NoTriple(s)
    ensures Collapse(s) == s
  {
    if s != [] {
      assert !TripleAt(s, 0);
      forall i: nat
        ensures !TripleAt(s[1..], i)
      {
        assert !TripleAt(s, i + 1);
      }
      CollapseKeeps(s[1..]);
    }
  }

  /** What `extractChatReferences` makes of the scanned text. */
  function Tidy(s: string): string { Trim(Collapse(s)) }

  lemma SliceHasNoTriple(s: string, a: nat, b: nat)
    requires NoTriple(s) && a <= b <= |s|
    ensures NoTriple(s[a..b])
  {
    forall i: nat
      ensures !TripleAt(s[a..b], i)
    {
      assert !TripleAt(s, a + i);
    }
  }

  lemma TidyLaws(s: string)
    ensures Trimmed(Tidy(s)) && NoTriple(Tidy(s)) && |Tidy(s)| <= |s|
  {
    var c := Collapse(s);
    CollapseHasNoTriple(s);
    CollapseHead(s);
    TrimIsTrimmed(c);
    TrimIsSlice(c);
    hide NoTriple, Trim, Collapse;
    SliceHasNoTriple(c, LeadingSpace(c), LeadingSpace(c) + |Trim(c)|);
  }

  lemma TrimTwoNewlines(t: string)
    requires t != [] && Trimmed(t)
    ensures Trim(t + [NL] + [NL]) == t
  {
    var s := t + [NL] + [NL];
    assert s[0] == t[0] && s[LeadingSpace(s)..] == s;
    assert s[..|s| - 1] == t + [NL] && (t + [NL])[..|t|] == t;
    assert TrimEnd(t) == t;
    assert IsSpace(NL);
    assert TrimEnd(t + [NL]) == t;
  }

  /** The two newlines before the block vanish; of the text, tidying leaves exactly what is tidy. */
  lemma TidyFixedIff(t: string)
    ensures Tidy(t + [NL] + [NL]) == t <==> Trimmed(t) && NoTriple(t)
  {
    var s := t + [NL] + [NL];
    TidyLaws(s);
    if Trimmed(t) && NoTriple(t) {
      if t == [] {
        TidyOfNothing();
        assert s == [NL, NL];
      } else {
        forall i: nat
          ensures !TripleAt(s, i)
        {
          assert !TripleAt(t, i);
          assert !IsSpace(t[|t| - 1]);
        }
        CollapseKeeps(s);
        TrimTwoNewlines(t);
      }
    }
  }

  lemma TidyOfNothing()
    ensures Tidy([NL, NL]) == []
  {
    var s := [NL, NL];
    assert forall i: nat :: !TripleAt(s, i);
    CollapseKeeps(s);
    assert s[1..] == [NL] && s[1..][1..] == [];
    assert LeadingSpace(s) == 2;
  }

  // ---------------------------------------------------------------------------------------------
  // A header in the text swallows part of it
  // ---------------------------------------------------------------------------------------------

  lemma CloserStart(s: string, k: nat)
    requires StartsAt(s, k, CLOSER)
    ensures k + 2 < |s| && s[k] == NL && s[k + 1] == '[' && s[k + 2] == '/'
  {
    CharOfPart(s, k, CLOSER, k);
    CharOfPart(s, k, CLOSER, k + 1);
    CharOfPart(s, k, CLOSER, k + 2);
  }

  lemma HeaderEndStart(s: string, b: nat, k: nat)
    requires StartsAt(s, b, HEADER_END) && b <= k < b + 2
    ensures k < |s| && s[k] != NL
  {
    CharOfPart(s, b, HEADER_END, k);
  }

  lemma NotInHeader(s: string, n: nat, encoded: string, body: string, k: nat)
    requires IsMessage(s, n, encoded, body) && n <= k < n + 2 + |OPENER| + |encoded| + 2
    ensures !StartsAt(s, k, CLOSER)
  {
    hide *;
    var q := n + 2;
    var a := q + |OPENER|;
    var b := a + |encoded|;
    HeaderParts(s, n, encoded, body);
    if StartsAt(s, k, CLOSER) {
      CloserStart(s, k);
      if k < q {
        OpenerStart(s, q);
      } else if k < a {
        CharOfPart(s, q, OPENER, k);
        OpenerChars(k - q);
      } else if k < b {
        CharOfPart(s, a, encoded, k);
      } else {
        HeaderEndStart(s, b, k);
      }
    }
  }

  lemma NotAtBody(s: string, n: nat, encoded: string, body: string)
    requires IsMessage(s, n, encoded, body)
    ensures !StartsAt(s, n + 2 + |OPENER| + |encoded| + 2, CLOSER)
  {
    hide *;
    Lengths();
    MessageParts(s, n, encoded, body);
    var i := n + 2 + |OPENER| + |encoded| + 2;
    var k := i + 1 + |body|;
    CloserAt(s, n + 2, encoded, body);
    NewlineAt(s, k);
    BodyAt(s, n + 2, encoded, body);
    ClearStart(body);
    if StartsAt(s, i, CLOSER) {
      CloserFits(s, i, k);
      CloserTail(s, i);
      CloseLength();
      BodyMarker(s, i + 1, body);
    }
  }

  lemma CloseLength()
    ensures |CLOSE| < |CLOSER|
  {
  }

  lemma NewlineAt(s: string, k: nat)
    requires StartsAt(s, k, CLOSER)
    ensures k < |s| && s[k] == NL
  {
    CharOfPart(s, k, CLOSER, k);
  }

  lemma BodyAt(s: string, q: nat, encoded: string, body: string)
    requires BlockParts(s, q, encoded, body)
    ensures StartsAt(s, q + |OPENER| + |encoded| + |HEADER_END|, body)
  {
  }

  lemma ClearStart(body: string)
    requires Clear(body)
    ensures !MarkerAt(body, 0)
  {
    assert LineStart(body, 0);
  }

  lemma BodyMarker(s: string, c: nat, body: string)
    requires StartsAt(s, c, body) && StartsAt(s, c, CLOSE) && |CLOSE| <= |body|
    ensures MarkerAt(body, 0)
  {
    PieceOf(s, c, body);
    InSlice(s, c, c + |body|, 0, CLOSE);
  }

  lemma CloserTail(s: string, i: nat)
    requires StartsAt(s, i, CLOSER)
    ensures StartsAt(s, i + 1, CLOSE)
  {
    CloserHoldsMarker();
    SubPattern(s, i, CLOSER, 1, CLOSE);
  }

  /** From the end of the text on, the only closing marker is the block's own. */
  lemma OnlyCloser(s: string, n: nat, encoded: string, body: string, k: nat)
    requires IsMessage(s, n, encoded, body) && n <= k <= |s| && StartsAt(s, k, CLOSER)
    ensures k + |CLOSER| == |s|
  {
    hide *;
    Lengths();
    var c := n + 2 + |OPENER| + |encoded| + |HEADER_END|;
    MessageParts(s, n, encoded, body);
    CloserAt(s, n + 2, encoded, body);
    if k < c - 1 {
      NotInHeader(s, n, encoded, body, k);
    } else if k == c - 1 {
      NotAtBody(s, n, encoded, body);
    } else if k < c + |body| {
      NoCloserInBody(s, n + 2, encoded, body, k);
    }
    PieceFits(s, k, CLOSER);
  }

  lemma PieceFits(s: string, i: nat, p: string)
    requires StartsAt(s, i, p)
    ensures i + |p| <= |s|
  {
  }

  /** A block that starts in the text ends before the message's own block, or takes it in whole. */
  lemma BlockEnds(s: string, n: nat, encoded: string, body: string, p: nat)
    requires IsMessage(s, n, encoded, body) && p <= n + 2 && BlockAt(s, p).Some?
    ensures var e := BlockAt(s, p).value.end; e <= n + 2 || e == |s|
  {
    hide *;
    MessageParts(s, n, encoded, body);
    var k := BlockCloser(s, p);
    if k < n {
      CloserFits(s, k, n);
      NotSpace();
    } else {
      OnlyCloser(s, n, encoded, body, k);
    }
  }

  lemma NotSpace()
    ensures !IsSpace('[')
  {
  }

  /** A block ends where the white space after its closing marker ends. */
  lemma BlockCloser(s: string, p: nat) returns (k: nat)
    requires p <= |s| && BlockAt(s, p).Some?
    ensures k + |CLOSER| <= |s| && StartsAt(s, k, CLOSER)
    ensures k + |CLOSER| <= BlockAt(s, p).value.end <= |s|
    ensures forall j :: k + |CLOSER| <= j < BlockAt(s, p).value.end ==> IsSpace(s[j])
  {
    hide StartsAt, IsSpace, SkipSpace, HeaderQuote, HeaderStart;
    var b := HeaderQuote(s, HeaderStart(s, p)).value;
    k := Find(s, CLOSER, b + |HEADER_END|).value;
  }

  /** The scanned text is never longer than the text and the newlines before the block. */
  lemma {:induction false} ScanBound(s: string, n: nat, encoded: string, body: string, p: nat)
    requires IsMessage(s, n, encoded, body) && p <= n + 2
    ensures |ScanText(s, p)| <= if p == n + 2 then 1 else n + 2 - p
    decreases n + 2 - p, 0
  {
    hide *;
    MessageParts(s, n, encoded, body);
    if p >= n + 1 {
      BlockAfterText(s, n, encoded, body, p);
    } else {
      ScanStep(s, p);
      if BlockAt(s, p).Some? {
        BlockEnds(s, n, encoded, body, p);
        AfterBlock(s, n, encoded, body, BlockAt(s, p).value.end);
      } else {
        ScanBound(s, n, encoded, body, p + 1);
      }
    }
  }

  /** What is scanned after a block. */
  lemma {:induction false} AfterBlock(s: string, n: nat, encoded: string, body: string, e: nat)
    requires IsMessage(s, n, encoded, body) && (e <= n + 2 || e == |s|)
    ensures e == |s| ==> ScanText(s, e) == []
    ensures e <= n + 2 ==> |ScanText(s, e)| <= if e == n + 2 then 1 else n + 2 - e
    decreases n + 2 - e, 1
  {
    ScanStep(s, |s|);
    if e <= n + 2 {
      ScanBound(s, n, encoded, body, e);
    }
  }

  /** A header in the text makes the scanned text shorter than the text. */
  lemma {:induction false} HeaderSwallows(s: string, n: nat, encoded: string, body: string, p: nat, q: nat)
    requires IsMessage(s, n, encoded, body) && p <= q <= n + 1 && HeaderQuote(s[..n + 1], q).Some?
    ensures q + 28 <= n && |ScanText(s, p)| <= n - p - 1
    decreases q - p
  {
    hide *;
    MessageParts(s, n, encoded, body);
    HeaderSame(s, n, encoded, body, q);
    BlockOfHeader(s, n, encoded, body, q);
    Lengths();
    ScanStep(s, p);
    if BlockAt(s, p).Some? {
      BlockEnds(s, n, encoded, body, p);
      AfterBlock(s, n, encoded, body, BlockAt(s, p).value.end);
    } else {
      HeaderSwallows(s, n, encoded, body, p + 1, q);
    }
  }

  lemma BlockOfHeader(s: string, n: nat, encoded: string, body: string, q: nat)
    requires IsMessage(s, n, encoded, body) && q <= n + 1 && HeaderQuote(s, q).Some?
    ensures BlockAt(s, q).Some?
  {
    assert s[q] == '[' by { CharOfPart(s, q, OPENER, q); }
    HeaderSame(s, n, encoded, body, q);
  }

  lemma FreeTextScanned(text: string, encoded: string, body: string)
    requires HeaderSafe(encoded) && Clear(body) && HeaderFree(text + [NL])
    ensures ScanText(Message(text, encoded, body), 0) == text + [NL] + [NL]
  {
    hide *;
    var s := Message(text, encoded, body);
    MessageIsMessage(text, encoded, body);
    TextScanned(s, |text|, encoded, body, 0);
    MessageParts(s, |text|, encoded, body);
    assert s[0..|text| + 1] == s[..|text| + 1];
  }

  lemma SomeHeader(t: string) returns (q: nat)
    requires !HeaderFree(t)
    ensures q <= |t| && HeaderQuote(t, q).Some?
  {
    q :| q <= |t| && HeaderQuote(t, q).Some?;
  }

  lemma SwallowedTextScanned(text: string, encoded: string, body: string)
    requires HeaderSafe(encoded) && Clear(body) && !HeaderFree(text + [NL])
    ensures |ScanText(Message(text, encoded, body), 0)| < |text|
  {
    hide *;
    var q := SomeHeader(text + [NL]);
    var s := Message(text, encoded, body);
    MessageIsMessage(text, encoded, body);
    HeaderSwallows(s, |text|, encoded, body, 0, q);
  }

  /** The text of a message reads back exactly when it is tidy and has no header line of a block. */
  lemma TextReadsBackIff(text: string, encoded: string, body: string)
    requires HeaderSafe(encoded) && Clear(body)
    ensures Tidy(ScanText(Message(text, encoded, body), 0)) == text
            <==> Trimmed(text) && NoTriple(text) && HeaderFree(text + [NL])
  {
    hide *;
    if HeaderFree(text + [NL]) {
      FreeTextScanned(text, encoded, body);
      TidyFixedIff(text);
    } else {
      SwallowedTextScanned(text, encoded, body);
      TidyLaws(ScanText(Message(text, encoded, body), 0));
    }
  }

  /** A header line alone, which is no block: with references behind it the text is lost. */
  lemma HeaderLineIsLost(encoded: string, body: string)
    requires HeaderSafe(encoded) && Clear(body)
    ensures var text := OPENER + "x" + "\"]"; Tidy(ScanText(Message(text, encoded, body), 0)) != text
  {
    var text := OPENER + "x" + "\"]";
    HeaderLineIsHeader();
    hide *;
    TextReadsBackIff(text, encoded, body);
    HeaderQuoted(text + [NL], 0);
  }

  lemma HeaderLineIsHeader()
    ensures HeaderQuote(OPENER + "x" + "\"]" + [NL], 0).Some?
  {
    var t := OPENER + "x" + "\"]" + [NL];
    assert t == OPENER + ("x" + HEADER_END) && t == OPENER + "x" + HEADER_END + "";
    PartOf("", OPENER, "x" + HEADER_END);
    assert "" + OPENER + ("x" + HEADER_END) == t;
    PartOf(OPENER + "x", HEADER_END, "");
    assert t[25] == 'x' && t[26] == QUOTE;
    StartsWithChar(t, 25, QUOTE);
    StartsWithChar(t, 26, QUOTE);
    hide StartsAt;
    FindIs(t, "\"", 25, 26);
  }

  lemma HeaderQuoted(text: string, q: nat)
    requires q <= |text| && HeaderQuote(text, q).Some?
    ensures !HeaderFree(text)
  {
  }

  // ---------------------------------------------------------------------------------------------
  // The references come back
  // ---------------------------------------------------------------------------------------------

  ghost predicate CleanIds(newId: nat -> string) { forall i: nat :: Clean(newId(i), 256) }

  lemma {:induction false} AllOfParse(raws: seq<Raw>, newId: nat -> string)
    requires CleanIds(newId)
    ensures AllParsed(ParseAll(raws, newId))
  {
    if raws != [] {
      AllOfParse(raws[..|raws| - 1], newId);
      assert Clean(newId(|raws| - 1), 256);
      hide Clean, Parse, Parsed;
      ParseIsParsed(raws[|raws| - 1], newId(|raws| - 1));
    }
  }

  function AgainAll(refs: seq<Reference>): (r: seq<Reference>)
    ensures |r| == |refs| && forall i :: 0 <= i < |refs| ==> r[i] == Again(refs[i])
  {
    seq(|refs|, i requires 0 <= i < |refs| => Again(refs[i]))
  }

  lemma LastOf(refs: seq<Reference>)
    requires refs != []
    ensures var front := refs[..|refs| - 1]; var last := refs[|refs| - 1];
            && RawsOf(refs) == RawsOf(front) + [RawOf(last)]
            && AgainAll(refs) == AgainAll(front) + [Again(last)]
            && (AllParsed(refs) ==> AllParsed(front) && Parsed(last))
  {
    hide RawOf, Again, Parsed;
  }

  lemma ParseAllStep(raws: seq<Raw>, last: Raw, newId: nat -> string)
    ensures ParseAll(raws + [last], newId)
         == ParseAll(raws, newId) + (var r := Parse(last, newId(|raws|)); if r.Some? then [r.value] else [])
  {
    hide Parse;
    assert (raws + [last])[..|raws|] == raws;
  }

  /** Every parsed reference parses again, at its place. */
  lemma {:induction false} ParseAllAgain(refs: seq<Reference>, newId: nat -> string)
    requires AllParsed(refs)
    ensures ParseAll(RawsOf(refs), newId) == AgainAll(refs)
  {
    if refs != [] {
      hide *;
      var front, last := refs[..|refs| - 1], refs[|refs| - 1];
      LastOf(refs);
      ParseAllAgain(front, newId);
      ParseAllStep(RawsOf(front), RawOf(last), newId);
      ParseAgain(last, newId(|front|));
    }
  }

  function FirstRefs(refs: seq<Reference>): seq<Reference> { if |refs| > MAX_REFERENCES then refs[..MAX_REFERENCES] else refs }

  /**
   * Reading a message gives the first hundred of the references written into it, each parsed once more, when no header line
   * of a block stands in the text before the block.
   */
  lemma ReferencesReadBack(codec: Codec, text: string, valid: seq<Reference>, newId: nat -> string)
    requires Lawful(codec) && AllParsed(valid) && valid != [] && HeaderFree(text + [NL])
    ensures var s := Message(text, codec.encode(valid), Body(codec, valid));
            AllRefs(codec, ScanHeaders(s, 0), newId) == AgainAll(FirstRefs(valid))
  {
    var encoded, body := codec.encode(valid), Body(codec, valid);
    var s := Message(text, encoded, body);
    assert HeaderSafe(encoded) && codec.decode(encoded) == Some(RawsOf(valid));
    BodyIsClear(codec, valid);
    MessageIsMessage(text, encoded, body);
    hide Lawful, Parsed, Clear, Body, Message, IsMessage, HeaderFree, ScanText, ScanHeaders, HeaderSafe, Parse;
    TextScanned(s, |text|, encoded, body, 0);
    RefsStep(codec, encoded, [], newId);
    NoRefs(codec, newId);
    Sequences.Empty([encoded]);
    Sequences.Empty(HeaderRefs(codec, encoded, newId));
    assert FirstRaws(RawsOf(valid)) == RawsOf(FirstRefs(valid));
    ParseAllAgain(FirstRefs(valid), newId);
  }

  /** References that parse to themselves come back as they are, up to a hundred. */
  lemma StableReferencesReadBack(codec: Codec, text: string, refs: seq<Reference>, idOut: nat -> string, idIn: nat -> string)
    requires Lawful(codec) && AllParsed(refs) && HeaderFree(text + [NL])
    requires 1 <= |refs| <= MAX_REFERENCES && forall i :: 0 <= i < |refs| ==> Stable(refs[i])
    ensures AllRefs(codec, ScanHeaders(text + "\n\n" + Format(codec, refs, idOut), 0), idIn) == refs
  {
    forall i | 0 <= i < |refs|
      ensures Again(refs[i]) == refs[i]
    {
      assert Parsed(refs[i]);
      StableTexts(refs[i]);
    }
    hide Stable, Again, Parsed, Lawful, HeaderFree, Body, BlockOf;
    assert AgainAll(refs) == refs;
    ParseAllAgain(refs, idOut);
    ReferencesReadBack(codec, text, refs, idIn);
  }

  /** The same for the message a composer writes: its text, then the block of its references. */
  lemma ComposedTextReadsBackIff(codec: Codec, text: string, refs: seq<Reference>, newId: nat -> string)
    requires Lawful(codec) && CleanIds(newId) && ParseAll(RawsOf(refs), newId) != []
    ensures Tidy(ScanText(text + "\n\n" + Format(codec, refs, newId), 0)) == text
            <==> Trimmed(text) && NoTriple(text) && HeaderFree(text + [NL])
  {
    var valid := ParseAll(RawsOf(refs), newId);
    AllOfParse(RawsOf(refs), newId);
    BodyIsClear(codec, valid);
    assert HeaderSafe(codec.encode(valid));
    hide Lawful, CleanIds, Tidy, ScanText, HeaderFree, NoTriple, Trimmed, BlockOf, Body, Clear, HeaderSafe;
    TextReadsBackIff(text, codec.encode(valid), Body(codec, valid));
  }

  /** A message of references alone has no text. */
  lemma BlockAloneReadsBack(codec: Codec, valid: seq<Reference>)
    requires Lawful(codec) && AllParsed(valid) && valid != []
    ensures var s := BlockOf(codec.encode(valid), Body(codec, valid));
            ScanHeaders(s, 0) == [codec.encode(valid)] && Tidy(ScanText(s, 0)) == []
  {
    var encoded, body := codec.encode(valid), Body(codec, valid);
    BodyIsClear(codec, valid);
    assert HeaderSafe(encoded);
    hide Lawful, Clear, Body, HeaderSafe, Parsed, StartsAt;
    var s := BlockOf(encoded, body);
    PartsOfBlock([], encoded, body);
    Sequences.Empty(s);
    assert StartsAt(s, 0, OPENER) by { hide BlockOf; }
    hide BlockOf, BlockParts;
    OpenerStart(s, 0);
    BlockFound(s, 0, 0, encoded, body);
    ScanStep(s, 0);
    ScanStep(s, |s|);
    Sequences.Empty([NL]);
    Sequences.Empty([encoded]);
    TidyOfNewline();
  }

  lemma TidyOfNewline()
    ensures Tidy([NL]) == []
  {
    TidyFixedIff([]);
    assert [] + [NL] + [NL] == [NL, NL];
    var s := [NL];
    assert s[1..] == [] && !TripleAt(s, 0);
    assert LeadingSpace(s) == 1;
  }
}
