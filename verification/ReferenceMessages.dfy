/**
 * Messages with any number of reference blocks, with text before, between and behind them: what
 * `extractChatReferences` of src/shared/chatReferences.ts leaves of the text and finds in the blocks.
 */
module ReferenceMessages {
  import opened Options
  import opened Strings
  import opened ReviewText
  import opened ChatReferences
  import opened ReferenceBlocks
  import opened ReferenceExtraction
  import opened ReferenceRoundTrip
  import Sequences

  // ---------------------------------------------------------------------------------------------
  // Scanning looks ahead only
  // ---------------------------------------------------------------------------------------------

  function Shifted(k: Option<nat>, d: nat): Option<nat> { if k.Some? then Some(k.value + d) else None }

  lemma {:induction false} FindShifts(front: string, s: string, p: string, i: nat)
    requires i <= |s|
    ensures Find(front + s, p, |front| + i) == Shifted(Find(s, p, i), |front|)
    decreases |s| - i
  {
    hide StartsAt;
    StartsPast(front, s, i, p);
    if !StartsAt(s, i, p) && i < |s| {
      FindShifts(front, s, p, i + 1);
    }
  }

  lemma {:induction false} SkipShifts(front: string, s: string, i: nat)
    requires i <= |s|
    ensures SkipSpace(front + s, |front| + i) == |front| + SkipSpace(s, i)
    decreases |s| - i
  {
    hide IsSpace;
    if i < |s| && IsSpace(s[i]) {
      SkipShifts(front, s, i + 1);
    }
  }

  lemma HeaderShifts(front: string, s: string, q: nat)
    requires q <= |s|
    ensures HeaderQuote(front + s, |front| + q) == Shifted(HeaderQuote(s, q), |front|)
  {
    hide Find, StartsAt;
    StartsPast(front, s, q, OPENER);
    OpenerRoom(s, q);
    if StartsAt(s, q, OPENER) {
      FindShifts(front, s, "\"", q + |OPENER|);
      var b := Find(s, "\"", q + |OPENER|);
      if b.Some? {
        StartsPast(front, s, b.value, HEADER_END);
      }
    }
  }

  lemma OpenerRoom(s: string, q: nat)
    ensures StartsAt(s, q, OPENER) ==> q + |OPENER| <= |s|
  {
  }

  lemma EndRoom(s: string, b: nat)
    ensures StartsAt(s, b, HEADER_END) ==> b + |HEADER_END| <= |s|
  {
  }

  lemma StartShifts(front: string, s: string, p: nat)
    requires p <= |s|
    ensures HeaderStart(front + s, |front| + p) == |front| + HeaderStart(s, p)
  {
  }

  lemma BlockCases(s: string, p: nat)
    requires p <= |s|
    ensures var q := HeaderStart(s, p);
            var b := HeaderQuote(s, q);
            && (b.None? ==> BlockAt(s, p).None?)
            && (b.Some? ==> && q + |OPENER| < b.value && b.value + |HEADER_END| <= |s|
                            && var k := Find(s, CLOSER, b.value + |HEADER_END|);
                               && (k.None? ==> BlockAt(s, p).None?)
                               && (k.Some? ==> k.value + |CLOSER| <= |s| && BlockAt(s, p) == Some(BlockFrom(s, q, b.value, k.value))))
  {
    hide HeaderStart, BlockFrom, StartsAt, Find, HeaderQuote;
    var b := HeaderQuote(s, HeaderStart(s, p));
    if b.Some? {
      EndRoom(s, b.value);
    }
  }

  lemma FromShifts(front: string, s: string, q: nat, b: nat, k: nat)
    requires q + |OPENER| <= b <= |s| && k + |CLOSER| <= |s|
    ensures BlockFrom(front + s, |front| + q, |front| + b, |front| + k)
         == Block(BlockFrom(s, q, b, k).encoded, |front| + BlockFrom(s, q, b, k).end)
  {
    SkipShifts(front, s, k + |CLOSER|);
    assert (front + s)[|front| + q + |OPENER|..|front| + b] == s[q + |OPENER|..b];
    hide SkipSpace, OPENER, CLOSER;
  }

  lemma BlockShifts(front: string, s: string, p: nat)
    requires p <= |s|
    ensures BlockAt(front + s, |front| + p)
         == match BlockAt(s, p) case None => None case Some(block) => Some(Block(block.encoded, |front| + block.end))
  {
    hide *;
    var q := HeaderStart(s, p);
    StartShifts(front, s, p);
    HeaderShifts(front, s, q);
    BlockCases(s, p);
    BlockCases(front + s, |front| + p);
    var b := HeaderQuote(s, q);
    ShiftIs(b, |front|);
    if b.Some? {
      FindShifts(front, s, CLOSER, b.value + |HEADER_END|);
      var k := Find(s, CLOSER, b.value + |HEADER_END|);
      ShiftIs(k, |front|);
      if k.Some? {
        FromShifts(front, s, q, b.value, k.value);
      }
    }
  }

  lemma ShiftIs(k: Option<nat>, d: nat)
    ensures k.None? ==> Shifted(k, d).None?
    ensures k.Some? ==> Shifted(k, d) == Some(k.value + d)
  {
  }

  /** What is scanned from a place on depends only on what stands there and after it. */
  lemma {:induction false} ScanShifts(front: string, s: string, p: nat)
    requires p <= |s|
    ensures ScanText(front + s, |front| + p) == ScanText(s, p)
    ensures ScanHeaders(front + s, |front| + p) == ScanHeaders(s, p)
    decreases |s| - p
  {
    hide *;
    BlockShifts(front, s, p);
    ScanStep(front + s, |front| + p);
    ScanStep(s, p);
    if BlockAt(s, p).Some? {
      ScanShifts(front, s, BlockAt(s, p).value.end);
    } else if p < |s| {
      assert (front + s)[|front| + p] == s[p];
      ScanShifts(front, s, p + 1);
    }
  }

  // ---------------------------------------------------------------------------------------------
  // A message with more behind it
  // ---------------------------------------------------------------------------------------------

  lemma InFront(m: string, r: string, i: nat, p: string)
    ensures StartsAt(m, i, p) <==> StartsAt(m + r, i, p) && i + |p| <= |m|
  {
    assert (m + r)[..|m|] == m;
    InPrefix(m + r, |m|, i, p);
  }

  /** What is found in a text is found first when more follows. */
  lemma FoundInFront(m: string, r: string, p: string, i: nat, k: nat)
    requires i <= |m| && Find(m, p, i) == Some(k)
    ensures Find(m + r, p, i) == Some(k)
  {
    hide Find, StartsAt;
    InFront(m, r, k, p);
    forall j: nat | i <= j < k
      ensures !StartsAt(m + r, j, p)
    {
      InFront(m, r, j, p);
      PieceFits(m, k, p);
    }
    PieceFits(m, k, p);
    FindIs(m + r, p, i, k);
  }

  /** A header of the message is one when more follows. */
  lemma HeaderInFront(m: string, r: string, q: nat, b: nat)
    requires q <= |m| && HeaderQuote(m, q) == Some(b)
    ensures HeaderQuote(m + r, q) == Some(b)
  {
    hide Find, StartsAt;
    InFront(m, r, q, OPENER);
    InFront(m, r, b, HEADER_END);
    OpenerRoom(m, q);
    FoundInFront(m, r, "\"", q + |OPENER|, b);
  }

  /** The message's text gets no header by what follows the message. */
  lemma NoHeaderInFront(m: string, r: string, n: nat, encoded: string, body: string, q: nat)
    requires IsMessage(m, n, encoded, body) && q <= n + 1 && HeaderQuote(m, q).None?
    ensures HeaderQuote(m + r, q).None?
  {
    hide Find, StartsAt, Clear, BlockParts, HeaderSafe;
    HeaderParts(m, n, encoded, body);
    Lengths();
    InFront(m, r, q, OPENER);
    OpenerRoom(m, n + 2);
    if StartsAt(m, q, OPENER) {
      OpenerSame(m, n, encoded, body, q);
      var a := q + |OPENER|;
      QuoteAhead(m, n, a);
      var b := Find(m, "\"", a).value;
      FoundInFront(m, r, "\"", a, b);
      InFront(m, r, b, HEADER_END);
      EndRoom(m, n + 2 + |OPENER| + |encoded|);
    }
  }

  /** The opener of the block holds a quote. */
  lemma QuoteAhead(m: string, n: nat, a: nat)
    requires StartsAt(m, n + 2, OPENER) && a <= n
    ensures a <= |m| && Find(m, "\"", a).Some? && Find(m, "\"", a).value <= n + 26 < |m|
  {
    Lengths();
    CharOfPart(m, n + 2, OPENER, n + 26);
    OpenerChars(24);
    StartsWithChar(m, n + 26, QUOTE);
    hide StartsAt, Find;
  }

  predicate AllSpace(s: string) { forall i :: 0 <= i < |s| ==> IsSpace(s[i]) }

  predicate StartsPlain(s: string) { s != [] ==> !IsSpace(s[0]) }

  lemma {:induction false} SkipsGap(gap: string, rest: string, i: nat)
    requires AllSpace(gap) && StartsPlain(rest) && i <= |gap|
    ensures SkipSpace(gap + rest, i) == |gap|
    decreases |gap| - i
  {
    hide IsSpace;
    if i < |gap| {
      assert (gap + rest)[i] == gap[i];
      SkipsGap(gap, rest, i + 1);
    }
  }

  lemma BlockInFront(text: string, encoded: string, body: string, gap: string, rest: string)
    requires HeaderSafe(encoded) && Clear(body) && AllSpace(gap) && StartsPlain(rest)
    ensures var m := Message(text, encoded, body);
            |text| + 1 <= |m| && BlockAt(m + (gap + rest), |text| + 1) == Some(Block(encoded, |m| + |gap|))
  {
    hide *;
    var m, n := Message(text, encoded, body), |text|;
    MessageIsMessage(text, encoded, body);
    MessageParts(m, n, encoded, body);
    HeaderFound(m, n + 2, encoded, body);
    CloserFound(m, n + 2, encoded, body);
    HeaderParts(m, n, encoded, body);
    var b := n + 2 + |OPENER| + |encoded|;
    var k := b + |HEADER_END| + |body|;
    BlockAhead(m, gap + rest, n, b, k);
    EndOfBlock(m, n + 2, b, k, gap, rest);
  }

  lemma BlockAhead(m: string, r: string, n: nat, b: nat, k: nat)
    requires n + 2 < |m| && m[n + 1] == NL && m[n + 2] == '[' && HeaderQuote(m, n + 2) == Some(b)
    requires b + |HEADER_END| <= |m| && Find(m, CLOSER, b + |HEADER_END|) == Some(k)
    ensures n + 2 + |OPENER| <= b <= |m| && k + |CLOSER| <= |m|
    ensures BlockAt(m + r, n + 1) == Some(BlockFrom(m + r, n + 2, b, k))
  {
    hide *;
    HeaderInFront(m, r, n + 2, b);
    FoundInFront(m, r, CLOSER, b + |HEADER_END|, k);
    BlockStart(m + r, n, n + 1);
    BlockAtIs(m + r, n + 1, b, k);
    FoundFits(m, CLOSER, b + |HEADER_END|, k);
  }

  lemma FoundFits(m: string, p: string, i: nat, k: nat)
    requires i <= |m| && Find(m, p, i) == Some(k)
    ensures k + |p| <= |m|
  {
  }

  lemma EndOfBlock(m: string, q: nat, b: nat, k: nat, gap: string, rest: string)
    requires q + |OPENER| <= b <= |m| && k + |CLOSER| == |m| && AllSpace(gap) && StartsPlain(rest)
    ensures BlockFrom(m + (gap + rest), q, b, k) == Block(m[q + |OPENER|..b], |m| + |gap|)
  {
    hide *;
    var s := m + (gap + rest);
    SkipShifts(m, gap + rest, 0);
    SkipsGap(gap, rest, 0);
    BlockFromIs(s, q, b, k);
    assert s[q + |OPENER|..b] == m[q + |OPENER|..b];
  }

  lemma BlockFromIs(s: string, q: nat, b: nat, k: nat)
    requires q + |OPENER| <= b <= |s| && k + |CLOSER| <= |s|
    ensures BlockFrom(s, q, b, k) == Block(s[q + |OPENER|..b], SkipSpace(s, k + |CLOSER|))
  {
  }

  lemma NoBlockInFront(m: string, r: string, n: nat, encoded: string, body: string, p: nat)
    requires IsMessage(m, n, encoded, body) && HeaderFree(m[..n + 1]) && p <= n
    ensures BlockAt(m + r, p).None?
  {
    var q := HeaderStart(m + r, p);
    hide BlockParts, Clear, HeaderSafe, HeaderQuote;
    HeaderSame(m, n, encoded, body, q);
    NoHeaderInFront(m, r, n, encoded, body, q);
  }

  /** The text in front of a block is scanned unchanged, the block becomes a newline, and the scan goes on behind the gap. */
  lemma {:induction false} FrontScanned(m: string, r: string, n: nat, encoded: string, body: string, end: nat, p: nat)
    requires IsMessage(m, n, encoded, body) && HeaderFree(m[..n + 1]) && p <= n + 1 <= end <= |m + r|
    requires BlockAt(m + r, n + 1) == Some(Block(encoded, end))
    ensures ScanText(m + r, p) == m[p..n + 1] + ([NL] + ScanText(m + r, end))
    ensures ScanHeaders(m + r, p) == [encoded] + ScanHeaders(m + r, end)
    decreases n + 1 - p
  {
    hide *;
    MessageParts(m, n, encoded, body);
    ScanStep(m + r, p);
    if p == n + 1 {
      assert m[p..n + 1] == [];
      Sequences.Empty([NL] + ScanText(m + r, end));
    } else {
      FrontScanned(m, r, n, encoded, body, end, p + 1);
      NoBlockInFront(m, r, n, encoded, body, p);
      assert m[p..n + 1] == [m[p]] + m[p + 1..n + 1];
      assert (m + r)[p] == m[p];
      Sequences.Assoc([m[p]], m[p + 1..n + 1], [NL] + ScanText(m + r, end));
    }
  }

  /**
   * A message with anything behind it: its text comes back with an empty line, the white space behind its block goes with
   * the block, and the rest is read as if it stood alone.
   */
  lemma MessageThenRest(text: string, encoded: string, body: string, gap: string, rest: string)
    requires HeaderSafe(encoded) && Clear(body) && HeaderFree(text + [NL]) && AllSpace(gap) && StartsPlain(rest)
    ensures var s := Message(text, encoded, body) + (gap + rest);
            && ScanText(s, 0) == text + "\n\n" + ScanText(rest, 0)
            && ScanHeaders(s, 0) == [encoded] + ScanHeaders(rest, 0)
  {
    hide *;
    var m, n := Message(text, encoded, body), |text|;
    BlockInFront(text, encoded, body, gap, rest);
    MessageIsMessage(text, encoded, body);
    FrontScanned(m, gap + rest, n, encoded, body, |m| + |gap|, 0);
    BehindGap(m, gap, rest);
    TwoNewlines(m, text, ScanText(rest, 0));
  }

  lemma BehindGap(m: string, gap: string, rest: string)
    ensures ScanText(m + (gap + rest), |m| + |gap|) == ScanText(rest, 0)
    ensures ScanHeaders(m + (gap + rest), |m| + |gap|) == ScanHeaders(rest, 0)
  {
    hide *;
    Sequences.Assoc(m, gap, rest);
    ScanShifts(m + gap, rest, 0);
  }

  lemma TwoNewlines(m: string, text: string, rest: string)
    requires |text| + 1 <= |m| && m[..|text| + 1] == text + [NL]
    ensures m[0..|text| + 1] + ([NL] + rest) == text + "\n\n" + rest
  {
    assert m[0..|text| + 1] == m[..|text| + 1];
  }

  // ---------------------------------------------------------------------------------------------
  // Any number of blocks
  // ---------------------------------------------------------------------------------------------

  /** A text, a block behind it, and the white space behind the block. */
  datatype Piece = Piece(text: string, encoded: string, body: string, gap: string)

  ghost predicate Sound(p: Piece) { HeaderSafe(p.encoded) && Clear(p.body) && HeaderFree(p.text + [NL]) && AllSpace(p.gap) }

  /** The pieces in a row, and a text behind them. */
  function Written(pieces: seq<Piece>, last: string): string
  {
    if pieces == [] then last
    else Message(pieces[0].text, pieces[0].encoded, pieces[0].body) + (pieces[0].gap + Written(pieces[1..], last))
  }

  /** Every piece is sound, what follows its gap starts with no white space, and no header stands in the last text. */
  ghost predicate WellFormed(pieces: seq<Piece>, last: string)
  {
    if pieces == [] then HeaderFree(last)
    else Sound(pieces[0]) && StartsPlain(Written(pieces[1..], last)) && WellFormed(pieces[1..], last)
  }

  /** The texts, an empty line behind each but the last. */
  function Texts(pieces: seq<Piece>, last: string): string
  {
    if pieces == [] then last else pieces[0].text + "\n\n" + Texts(pieces[1..], last)
  }

  function Headers(pieces: seq<Piece>): (r: seq<string>)
    ensures |r| == |pieces| && forall i :: 0 <= i < |pieces| ==> r[i] == pieces[i].encoded
  {
    seq(|pieces|, i requires 0 <= i < |pieces| => pieces[i].encoded)
  }

  lemma {:induction false} NoBlockScanned(s: string, p: nat)
    requires p <= |s| && HeaderFree(s)
    ensures ScanText(s, p) == s[p..] && ScanHeaders(s, p) == []
    decreases |s| - p
  {
    NoBlockAt(s, p);
    hide *;
    ScanStep(s, p);
    if p < |s| {
      NoBlockScanned(s, p + 1);
      Sequences.DropStep(s, p);
    } else {
      assert s[p..] == [];
    }
  }

  lemma NoBlockAt(s: string, p: nat)
    requires p <= |s| && HeaderFree(s)
    ensures BlockAt(s, p).None?
  {
    hide HeaderQuote;
    assert HeaderQuote(s, HeaderStart(s, p)).None?;
  }

  /** Every block of a message is read, in order, and of the texts nothing is lost: an empty line stands where a block stood. */
  lemma {:induction false} EveryBlockIsRead(pieces: seq<Piece>, last: string)
    requires WellFormed(pieces, last)
    ensures ScanText(Written(pieces, last), 0) == Texts(pieces, last)
    ensures ScanHeaders(Written(pieces, last), 0) == Headers(pieces)
    decreases |pieces|
  {
    if pieces == [] {
      NoBlockScanned(last, 0);
      assert last[0..] == last;
    } else {
      var p, rest := pieces[0], Written(pieces[1..], last);
      assert Headers(pieces) == [p.encoded] + Headers(pieces[1..]);
      hide ScanText, ScanHeaders, Message, HeaderSafe, Clear, HeaderFree, AllSpace, StartsPlain;
      EveryBlockIsRead(pieces[1..], last);
      MessageThenRest(p.text, p.encoded, p.body, p.gap, rest);
    }
  }

  /** A text that is tidy when read is left as it is: trimmed, and with no three newlines in a row. */
  lemma TidyStays(s: string)
    requires Trimmed(s) && NoTriple(s)
    ensures Tidy(s) == s
  {
    CollapseKeeps(s);
    TrimmedIsFixed(s);
  }

  /** What each block was written from. */
  ghost predicate WrittenFrom(codec: Codec, pieces: seq<Piece>, refs: seq<seq<Reference>>)
  {
    && |refs| == |pieces|
    && forall i :: 0 <= i < |pieces| ==> && AllParsed(refs[i]) && 1 <= |refs[i]| <= MAX_REFERENCES && AllStable(refs[i])
                                         && pieces[i].encoded == codec.encode(refs[i])
  }

  predicate AllStable(refs: seq<Reference>) { forall i :: 0 <= i < |refs| ==> Stable(refs[i]) }

  function Flat(refs: seq<seq<Reference>>): seq<Reference> { if refs == [] then [] else refs[0] + Flat(refs[1..]) }

  lemma HeaderRefsBack(codec: Codec, refs: seq<Reference>, newId: nat -> string)
    requires Lawful(codec) && AllParsed(refs) && |refs| <= MAX_REFERENCES && AllStable(refs)
    ensures HeaderRefs(codec, codec.encode(refs), newId) == refs
  {
    forall i | 0 <= i < |refs|
      ensures Again(refs[i]) == refs[i]
    {
      assert Parsed(refs[i]);
      StableTexts(refs[i]);
    }
    assert codec.decode(codec.encode(refs)) == Some(RawsOf(refs));
    hide Stable, Again, Parsed, Lawful;
    assert AgainAll(refs) == refs;
    ParseAllAgain(refs, newId);
  }

  lemma {:induction false} AllHeadersBack(codec: Codec, pieces: seq<Piece>, refs: seq<seq<Reference>>, newId: nat -> string)
    requires Lawful(codec) && WrittenFrom(codec, pieces, refs)
    ensures AllRefs(codec, Headers(pieces), newId) == Flat(refs)
    decreases |pieces|
  {
    if pieces != [] {
      var headers := Headers(pieces[1..]);
      assert Headers(pieces) == [pieces[0].encoded] + headers;
      hide Lawful, AllStable, HeaderRefs, AllRefs;
      AllHeadersBack(codec, pieces[1..], refs[1..], newId);
      HeaderRefsBack(codec, refs[0], newId);
      RefsStep(codec, pieces[0].encoded, headers, newId);
    }
  }

  /**
   * Reading a message of any number of blocks gives all their references in order and the texts around them, when the
   * references are fixpoints of parsing, up to a hundred in each block, and the joined texts are tidy.
   */
  lemma MessageReadsBack(codec: Codec, pieces: seq<Piece>, last: string, refs: seq<seq<Reference>>, newId: nat -> string)
    requires Lawful(codec) && WellFormed(pieces, last) && WrittenFrom(codec, pieces, refs)
    requires Trimmed(Texts(pieces, last)) && NoTriple(Texts(pieces, last))
    ensures Tidy(ScanText(Written(pieces, last), 0)) == Texts(pieces, last)
    ensures AllRefs(codec, ScanHeaders(Written(pieces, last), 0), newId) == Flat(refs)
  {
    hide *;
    EveryBlockIsRead(pieces, last);
    TidyStays(Texts(pieces, last));
    AllHeadersBack(codec, pieces, refs, newId);
  }

  // ---------------------------------------------------------------------------------------------
  // Runs of newlines
  // ---------------------------------------------------------------------------------------------

  function Newlines(n: nat): (s: string)
    ensures |s| == n && forall i :: 0 <= i < n ==> s[i] == NL
  {
    seq(n, _ => NL)
  }

  /** A run of newlines that ends there is cut to two. */
  lemma {:induction false} CollapseRun(n: nat, s: string)
    requires s != [] ==> s[0] != NL
    ensures Collapse(Newlines(n) + s) == Newlines(if n > 2 then 2 else n) + Collapse(s)
    decreases n
  {
    var all := Newlines(n) + s;
    if n == 0 {
      assert all == s;
      Sequences.Empty(Collapse(s));
    } else {
      CollapseRun(n - 1, s);
      assert all[1..] == Newlines(n - 1) + s && all[0] == NL;
      assert TripleAt(all, 0) <==> n >= 3;
      hide Collapse;
      CollapseStep(all);
      if n < 3 {
        assert [NL] + (Newlines(n - 1) + Collapse(s)) == Newlines(n) + Collapse(s);
      }
    }
  }

  lemma CollapseStep(s: string)
    requires s != []
    ensures Collapse(s) == if TripleAt(s, 0) then Collapse(s[1..]) else [s[0]] + Collapse(s[1..])
  {
  }

  /** Every other character stays, and separates the runs: together with the runs this says all that collapsing does. */
  lemma {:induction false} CollapseKeepsOthers(a: string, c: char, b: string)
    requires c != NL
    ensures Collapse(a + [c] + b) == Collapse(a) + [c] + Collapse(b)
    decreases |a|
  {
    var s := a + [c] + b;
    CollapseStep(s);
    if a == [] {
      assert s[1..] == b && s[0] == c;
      assert Collapse(a) == [];
    } else {
      assert s[0] == a[0] && s[1..] == a[1..] + [c] + b;
      CollapseKeepsOthers(a[1..], c, b);
      CollapseStep(a);
      assert TripleAt(s, 0) <==> TripleAt(a, 0) by {
        assert s[|a|] == c;
      }
      hide Collapse, TripleAt;
      Sequences.Assoc([a[0]], Collapse(a[1..]), [c]);
      Sequences.Assoc([a[0]], Collapse(a[1..]) + [c], Collapse(b));
    }
  }
}
