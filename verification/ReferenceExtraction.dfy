/** Reading the blocks of references back out of a message (`extractChatReferences` in src/shared/chatReferences.ts). */
module ReferenceExtraction {
  import opened Options
  import opened Strings
  import opened ReviewText
  import opened ChatReferences
  import opened ReferenceBlocks
  import Sequences

  // ---------------------------------------------------------------------------------------------
  // The block pattern
  // ---------------------------------------------------------------------------------------------

  /** The first place from `i` on where `p` stands. */
  function Find(s: string, p: string, i: nat): (k: Option<nat>)
    requires i <= |s|
    ensures k.Some? ==> i <= k.value <= k.value + |p| <= |s| && StartsAt(s, k.value, p)
    ensures k.Some? ==> forall j: nat :: i <= j < k.value ==> !StartsAt(s, j, p)
    ensures k.None? ==> forall j: nat :: i <= j <= |s| ==> !StartsAt(s, j, p)
    decreases |s| - i
  {
    if StartsAt(s, i, p) then Some(i) else if i == |s| then None else Find(s, p, i + 1)
  }

  lemma FindIs(s: string, p: string, i: nat, k: nat)
    requires i <= k <= |s| && StartsAt(s, k, p) && forall j: nat :: i <= j < k ==> !StartsAt(s, j, p)
    ensures Find(s, p, i) == Some(k)
  {
  }

  function SkipSpace(s: string, i: nat): (e: nat)
    requires i <= |s|
    ensures i <= e <= |s|
    ensures forall j :: i <= j < e ==> IsSpace(s[j])
    decreases |s| - i
  {
    if i < |s| && IsSpace(s[i]) then SkipSpace(s, i + 1) else i
  }

  /** Where the quote that closes the header starting at `q` stands, if a header starts there. */
  function HeaderQuote(s: string, q: nat): (b: Option<nat>)
    requires q <= |s|
    ensures b.Some? ==> StartsAt(s, q, OPENER) && q + |OPENER| < b.value && StartsAt(s, b.value, HEADER_END)
  {
    if !StartsAt(s, q, OPENER) then None
    else
      var b := Find(s, "\"", q + |OPENER|);
      if b.Some? && b.value > q + |OPENER| && StartsAt(s, b.value, HEADER_END) then b else None
  }

  datatype Block = Block(encoded: string, end: nat)

  /** Where the header of a block matched at `p` starts: the newline before it belongs to the block. */
  function HeaderStart(s: string, p: nat): (q: nat)
    requires p <= |s|
    ensures p <= q <= |s|
  {
    if p < |s| && s[p] == NL then p + 1 else p
  }

  /** The block matched at `p`: up to the first closing marker after the header, and the white space after it. */
  function BlockAt(s: string, p: nat): (block: Option<Block>)
    requires p <= |s|
    ensures block.Some? ==> p + |OPENER| + |CLOSER| < block.value.end <= |s|
  {
    var q := HeaderStart(s, p);
    var b := HeaderQuote(s, q);
    if b.None? then None
    else
      var k := Find(s, CLOSER, b.value + |HEADER_END|);
      if k.None? then None else Some(BlockFrom(s, q, b.value, k.value))
  }

  /** The block whose header starts at `q` and ends at the quote at `b`, and whose closing marker stands at `k`. */
  function BlockFrom(s: string, q: nat, b: nat, k: nat): (block: Block)
    requires q + |OPENER| <= b <= |s| && k + |CLOSER| <= |s|
    ensures k + |CLOSER| <= block.end <= |s|
  {
    Block(s[q + |OPENER|..b], SkipSpace(s, k + |CLOSER|))
  }

  /** The text from `p` on with every block replaced by a newline. */
  function ScanText(s: string, p: nat): string
    requires p <= |s|
    decreases |s| - p
  {
    var block := BlockAt(s, p);
    if block.Some? then [NL] + ScanText(s, block.value.end)
    else if p == |s| then [] else [s[p]] + ScanText(s, p + 1)
  }

  /** What the headers of the blocks from `p` on hold. */
  function ScanHeaders(s: string, p: nat): seq<string>
    requires p <= |s|
    decreases |s| - p
  {
    var block := BlockAt(s, p);
    if block.Some? then [block.value.encoded] + ScanHeaders(s, block.value.end)
    else if p == |s| then [] else ScanHeaders(s, p + 1)
  }

  const MAX_REFERENCES := 100

  function FirstRaws(raws: seq<Raw>): seq<Raw> { if |raws| > MAX_REFERENCES then raws[..MAX_REFERENCES] else raws }

  function HeaderRefs(codec: Codec, encoded: string, newId: nat -> string): seq<Reference>
  {
    var raws := codec.decode(encoded);
    if raws.None? then [] else ParseAll(FirstRaws(raws.value), newId)
  }

  function AllRefs(codec: Codec, headers: seq<string>, newId: nat -> string): seq<Reference>
  {
    if headers == [] then [] else HeaderRefs(codec, headers[0], newId) + AllRefs(codec, headers[1..], newId)
  }

  predicate TripleAt(s: string, i: nat) { i + 2 < |s| && s[i] == NL && s[i + 1] == NL && s[i + 2] == NL }

  /** `replace(/\n{3,}/g, '\n\n')`: of a run of newlines at most two stay. */
  function Collapse(s: string): string
  {
    if s == [] then [] else if TripleAt(s, 0) then Collapse(s[1..]) else [s[0]] + Collapse(s[1..])
  }

  method ExtractChatReferences(codec: Codec, content: string, newId: nat -> string)
    returns (text: string, references: seq<Reference>)
    ensures text == Trim(Collapse(ScanText(content, 0)))
    ensures references == AllRefs(codec, ScanHeaders(content, 0), newId)
  {
    var out := "";
    references := [];
    var p := 0;
    while true
      invariant p <= |content|
      invariant out + ScanText(content, p) == ScanText(content, 0)
      invariant references + AllRefs(codec, ScanHeaders(content, p), newId) == AllRefs(codec, ScanHeaders(content, 0), newId)
      decreases |content| - p
    {
      hide ScanText, ScanHeaders, AllRefs, HeaderRefs;
      var block := BlockAt(content, p);
      ScanStep(content, p);
      hide BlockAt;
      if block.Some? {
        var found := HeaderRefs(codec, block.value.encoded, newId);
        RefsStep(codec, block.value.encoded, ScanHeaders(content, block.value.end), newId);
        Sequences.Assoc(references, found, AllRefs(codec, ScanHeaders(content, block.value.end), newId));
        Sequences.Assoc(out, [NL], ScanText(content, block.value.end));
        references := references + found;
        out := out + [NL];
        p := block.value.end;
      } else if p == |content| {
        Sequences.Empty(out);
        Sequences.Empty(references);
        NoRefs(codec, newId);
        break;
      } else {
        Sequences.Assoc(out, [content[p]], ScanText(content, p + 1));
        out := out + [content[p]];
        p := p + 1;
      }
    }
    text := Trim(Collapse(out));
  }

  lemma ScanStep(s: string, p: nat)
    requires p <= |s|
    ensures var block := BlockAt(s, p);
            && (block.Some? ==> ScanText(s, p) == [NL] + ScanText(s, block.value.end))
            && (block.Some? ==> ScanHeaders(s, p) == [block.value.encoded] + ScanHeaders(s, block.value.end))
            && (block.None? && p < |s| ==> ScanText(s, p) == [s[p]] + ScanText(s, p + 1))
            && (block.None? && p < |s| ==> ScanHeaders(s, p) == ScanHeaders(s, p + 1))
            && (block.None? && p == |s| ==> ScanText(s, p) == [] && ScanHeaders(s, p) == [])
  {
    hide BlockAt;
  }

  lemma NoRefs(codec: Codec, newId: nat -> string)
    ensures AllRefs(codec, [], newId) == []
  {
  }

  lemma RefsStep(codec: Codec, first: string, rest: seq<string>, newId: nat -> string)
    ensures AllRefs(codec, [first] + rest, newId) == HeaderRefs(codec, first, newId) + AllRefs(codec, rest, newId)
  {
  }

  // ---------------------------------------------------------------------------------------------
  // Finding the block of a message
  // ---------------------------------------------------------------------------------------------

  /** A message: its text, an empty line, and the block. */
  function Message(text: string, encoded: string, body: string): string { text + "\n\n" + BlockOf(encoded, body) }

  /** Where the parts of a block that starts at `q` stand. */
  ghost predicate BlockParts(s: string, q: nat, encoded: string, body: string)
  {
    var a := q + |OPENER|;
    var b := a + |encoded|;
    var c := b + |HEADER_END|;
    var k := c + |body|;
    && StartsAt(s, q, OPENER) && StartsAt(s, a, encoded) && StartsAt(s, b, HEADER_END) && StartsAt(s, c, body)
    && StartsAt(s, k, CLOSER) && k + |CLOSER| == |s|
  }

  lemma PartOf(front: string, part: string, rest: string)
    ensures StartsAt(front + part + rest, |front|, part)
  {
    assert (front + part + rest)[|front|..|front| + |part|] == part;
  }

  /** Where five texts in a row stand. */
  lemma FiveParts(front: string, a: string, b: string, c: string, d: string, e: string)
    ensures var s := front + (a + b + c + d + e);
            && StartsAt(s, |front|, a) && StartsAt(s, |front| + |a|, b) && StartsAt(s, |front| + |a| + |b|, c)
            && StartsAt(s, |front| + |a| + |b| + |c|, d) && StartsAt(s, |front| + |a| + |b| + |c| + |d|, e)
  {
    hide StartsAt;
    var f1 := front + a;
    var f2 := f1 + b;
    var f3 := f2 + c;
    var f4 := f3 + d;
    Sequences.Assoc(front, a + b + c + d, e);
    Sequences.Assoc(front, a + b + c, d);
    Sequences.Assoc(front, a + b, c);
    Sequences.Assoc(front, a, b);
    Sequences.Empty(f4 + e);
    PartOf(f4, e, "");
    PartOf(f3, d, e);
    Sequences.Assoc(f3, d, e);
    Sequences.Assoc(f2, c, d + e);
    Sequences.Assoc(f1, b, c + (d + e));
    PartOf(f2, c, d + e);
    PartOf(f1, b, c + (d + e));
    PartOf(front, a, b + (c + (d + e)));
  }

  lemma PartsOfBlock(front: string, encoded: string, body: string)
    ensures BlockParts(front + BlockOf(encoded, body), |front|, encoded, body)
  {
    hide StartsAt;
    FiveParts(front, OPENER, encoded, HEADER_END, body, CLOSER);
  }

  lemma CharOfPart(s: string, i: nat, p: string, k: nat)
    requires StartsAt(s, i, p) && i <= k < i + |p|
    ensures k < |s| && s[k] == p[k - i]
  {
    assert s[i..i + |p|][k - i] == s[k];
  }

  lemma StartsWithChar(s: string, i: nat, c: char)
    ensures StartsAt(s, i, [c]) <==> i < |s| && s[i] == c
  {
    StartsAtChars(s, i, [c]);
  }

  /** No closing marker starts inside the body of a block. */
  lemma NoCloserInBody(s: string, q: nat, encoded: string, body: string, i: nat)
    requires BlockParts(s, q, encoded, body) && Clear(body)
    requires var c := q + |OPENER| + |encoded| + |HEADER_END|; c <= i < c + |body|
    ensures !StartsAt(s, i, CLOSER)
  {
    var c := q + |OPENER| + |encoded| + |HEADER_END|;
    var k := c + |body|;
    if StartsAt(s, i, CLOSER) {
      CharOfPart(s, i, CLOSER, i);
      CharOfPart(s, c, body, i);
      assert body[i - c] == NL;
      CharOfPart(s, k, CLOSER, k);
      CloserFits(s, i, k);
      ClearAfter(body, i - c);
      MarkerInside(s, i, c, body);
    }
  }

  lemma ClearAfter(body: string, i: nat)
    requires Clear(body) && i < |body| && body[i] == NL
    ensures !MarkerAt(body, i + 1)
  {
    assert LineStart(body, i + 1);
  }

  /** The closing marker has no newline but its first, so one that starts before a newline ends before it. */
  lemma CloserFits(s: string, i: nat, k: nat)
    requires StartsAt(s, i, CLOSER) && i < k < |s| && s[k] == NL
    ensures i + |CLOSER| <= k
  {
    if k < i + |CLOSER| {
      CharOfPart(s, i, CLOSER, k);
      CloserChar(k - i);
    }
  }

  lemma CloserChar(j: nat)
    requires 0 < j < |CLOSER|
    ensures CLOSER[j] != NL
  {
  }

  /** Part of a pattern stands at its place in the pattern. */
  lemma SubPattern(s: string, i: nat, p: string, j: nat, r: string)
    requires StartsAt(s, i, p) && j + |r| <= |p| && p[j..j + |r|] == r
    ensures StartsAt(s, i + j, r)
  {
    InSlice(s, i, i + |p|, j, r);
  }

  lemma CloserHoldsMarker()
    ensures 1 + |CLOSE| <= |CLOSER| && CLOSER[1..1 + |CLOSE|] == CLOSE
  {
  }

  lemma MarkerInside(s: string, i: nat, c: nat, body: string)
    requires StartsAt(s, c, body) && c <= i && StartsAt(s, i, CLOSER) && i + |CLOSER| <= c + |body|
    ensures MarkerAt(body, i - c + 1)
  {
    InSlice(s, c, c + |body|, i - c, CLOSER);
    assert StartsAt(body, i - c, CLOSER);
    CloserHoldsMarker();
    SubPattern(body, i - c, CLOSER, 1, CLOSE);
  }

  /** The header of a block is found whole. */
  lemma HeaderFound(s: string, q: nat, encoded: string, body: string)
    requires BlockParts(s, q, encoded, body) && HeaderSafe(encoded)
    ensures HeaderQuote(s, q) == Some(q + |OPENER| + |encoded|)
    ensures s[q + |OPENER|..q + |OPENER| + |encoded|] == encoded
  {
    var a := q + |OPENER|;
    var b := a + |encoded|;
    forall j: nat | a <= j < b
      ensures !StartsAt(s, j, "\"")
    {
      CharOfPart(s, a, encoded, j);
      StartsWithChar(s, j, QUOTE);
    }
    CharOfPart(s, b, HEADER_END, b);
    StartsWithChar(s, b, QUOTE);
    hide StartsAt;
    FindIs(s, "\"", a, b);
    hide Find;
    assert StartsAt(s, a, encoded);
    PieceOf(s, a, encoded);
  }

  lemma PieceOf(s: string, a: nat, p: string)
    requires StartsAt(s, a, p)
    ensures a + |p| <= |s| && s[a..a + |p|] == p
  {
  }

  lemma CloserAt(s: string, q: nat, encoded: string, body: string)
    requires BlockParts(s, q, encoded, body)
    ensures var k := q + |OPENER| + |encoded| + |HEADER_END| + |body|; k + |CLOSER| == |s| && StartsAt(s, k, CLOSER)
  {
    hide StartsAt;
  }

  lemma CloserFound(s: string, q: nat, encoded: string, body: string)
    requires BlockParts(s, q, encoded, body) && Clear(body)
    ensures var c := q + |OPENER| + |encoded| + |HEADER_END|;
            c <= |s| && Find(s, CLOSER, c) == Some(c + |body|) && c + |body| + |CLOSER| == |s|
  {
    var c := q + |OPENER| + |encoded| + |HEADER_END|;
    CloserAt(s, q, encoded, body);
    hide BlockParts, StartsAt, Clear;
    forall j: nat | c <= j < c + |body|
      ensures !StartsAt(s, j, CLOSER)
    {
      NoCloserInBody(s, q, encoded, body, j);
    }
    FindIs(s, CLOSER, c, c + |body|);
  }

  /** The block at the end of a message is matched up to the end of the message. */
  lemma BlockFound(s: string, p: nat, q: nat, encoded: string, body: string)
    requires BlockParts(s, q, encoded, body) && HeaderSafe(encoded) && Clear(body)
    requires p <= |s| && HeaderStart(s, p) == q
    ensures BlockAt(s, p) == Some(Block(encoded, |s|))
  {
    hide *;
    HeaderFound(s, q, encoded, body);
    CloserFound(s, q, encoded, body);
    var b := q + |OPENER| + |encoded|;
    BlockAtIs(s, p, b, b + |HEADER_END| + |body|);
    LastBlock(s, q, encoded, b + |HEADER_END| + |body|);
  }

  lemma LastBlock(s: string, q: nat, encoded: string, k: nat)
    requires q + |OPENER| + |encoded| <= |s| && k + |CLOSER| == |s|
    requires s[q + |OPENER|..q + |OPENER| + |encoded|] == encoded
    ensures BlockFrom(s, q, q + |OPENER| + |encoded|, k) == Block(encoded, |s|)
  {
  }

  lemma BlockAtIs(s: string, p: nat, b: nat, k: nat)
    requires p <= |s| && HeaderQuote(s, HeaderStart(s, p)) == Some(b) && b + |HEADER_END| <= |s|
    requires Find(s, CLOSER, b + |HEADER_END|) == Some(k)
    ensures HeaderStart(s, p) + |OPENER| <= b && k + |CLOSER| <= |s|
    ensures BlockAt(s, p) == Some(BlockFrom(s, HeaderStart(s, p), b, k))
  {
    hide Find, HeaderQuote, BlockFrom, HeaderStart, StartsAt, SkipSpace;
  }
}
