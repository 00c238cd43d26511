/**
 * Command output that arrives in chunks (src/shared/agentActivity.ts): `appendTail`, and the folding of output patches
 * into a command item by `mergeActivityPatch`, `setOutput` and `boundActivity`.
 */
module StreamedOutput {
  import opened Utf16
  import opened Options
  import opened OutputCap

  const ACTIVITY_OUTPUT_CAP_BYTES: nat := 64 * 1024
  const ACTIVITY_GENERIC_CAP_BYTES: nat := 16 * 1024

  /** What an item already holds; an absent `truncated` is false. */
  datatype Previous = Previous(text: Option<Text>, bytes: Option<nat>, truncated: bool)

  function Appended(previous: Previous, delta: Text, cap: nat): CappedText
  {
    var clean := Strip(delta);
    var text := previous.text.GetOr([]);
    var capped := Tailed(text + clean, cap);
    CappedText(capped.text, previous.truncated || capped.truncated, previous.bytes.GetOr(ByteLength(text)) + ByteLength(clean))
  }

  /** The bytes an item counts so far. */
  function BytesOf(previous: Previous): nat { previous.bytes.GetOr(ByteLength(previous.text.GetOr([]))) }

  /** The item's text with the chunk behind it, stripped again as a whole. */
  function Extended(previous: Previous, delta: Text): Text { Strip(previous.text.GetOr([]) + Strip(delta)) }

  /**
   * The new text never exceeds the cap, and is the whole extended text when that fits; the byte count grows by exactly the
   * chunk's own bytes; the flag stays once it is set, and is set as soon as something is cut.
   */
  method AppendTail(previous: Previous, delta: Text, cap: nat) returns (r: CappedText)
    ensures r == Appended(previous, delta, cap)
    ensures ByteLength(r.text) <= cap
    ensures r.bytes == BytesOf(previous) + ByteLength(Strip(delta))
    ensures r.truncated <==> previous.truncated || ByteLength(Extended(previous, delta)) > cap
    ensures ByteLength(Extended(previous, delta)) <= cap ==> r.text == Extended(previous, delta)
    ensures WellFormed(Extended(previous, delta)) ==> Suffix(r.text, Extended(previous, delta))
  {
    hide Encode, Repaired, TailCut, WithoutControls, WithoutNul;
    KeptFits(Extended(previous, delta), cap);
    if WellFormed(Extended(previous, delta)) {
      KeptIsSuffix(Extended(previous, delta), cap);
    }
    var clean := Strip(delta);
    var previousText := previous.text.GetOr([]);
    var previousBytes := previous.bytes.GetOr(ByteLength(previousText));
    var capped := CapTail(previousText + clean, cap);
    r := CappedText(capped.text, previous.truncated || capped.truncated, previousBytes + ByteLength(clean));
  }

  // ---------------------------------------------------------------------------------------------
  // Streams of chunks
  // ---------------------------------------------------------------------------------------------

  function AsPrevious(c: CappedText): Previous { Previous(Some(c.text), Some(c.bytes), c.truncated) }

  /** The capped text after the chunks were appended one by one to nothing. */
  function Streamed(chunks: seq<Text>, cap: nat): CappedText
  {
    if chunks == [] then CappedText([], false, 0)
    else Appended(AsPrevious(Streamed(chunks[..|chunks| - 1], cap)), chunks[|chunks| - 1], cap)
  }

  /** The same chunks joined without any cap. */
  function Joined(chunks: seq<Text>): Text
  {
    if chunks == [] then [] else Strip(Joined(chunks[..|chunks| - 1]) + Strip(chunks[|chunks| - 1]))
  }

  function TotalBytes(chunks: seq<Text>): nat
  {
    if chunks == [] then 0 else TotalBytes(chunks[..|chunks| - 1]) + ByteLength(Strip(chunks[|chunks| - 1]))
  }

  /** The largest size the joined text ever had. */
  function PeakBytes(chunks: seq<Text>): nat
  {
    if chunks == [] then 0
    else
      var before, now := PeakBytes(chunks[..|chunks| - 1]), ByteLength(Joined(chunks));
      if now > before then now else before
  }

  lemma ShorterThanParts(a: Text, b: Text)
    ensures ByteLength(Strip(a + b)) <= ByteLength(a) + ByteLength(b)
  {
    ByteLengthConcat(a, b);
    StripShorter(a + b);
  }

  lemma {:induction false} PeakWithinTotal(chunks: seq<Text>)
    ensures ByteLength(Joined(chunks)) <= PeakBytes(chunks) <= TotalBytes(chunks)
    decreases |chunks|
  {
    if chunks != [] {
      var init := chunks[..|chunks| - 1];
      PeakWithinTotal(init);
      ShorterThanParts(Joined(init), Strip(chunks[|chunks| - 1]));
    }
  }

  /**
   * For every stream of any text: the byte total is exact, the flag is set exactly when the joined text was ever larger
   * than the cap, and until then the stream holds all of it.
   */
  lemma {:induction false} StreamTotals(chunks: seq<Text>, cap: nat)
    ensures Streamed(chunks, cap).bytes == TotalBytes(chunks)
    ensures Streamed(chunks, cap).truncated <==> PeakBytes(chunks) > cap
    ensures !Streamed(chunks, cap).truncated ==> Streamed(chunks, cap).text == Joined(chunks)
    decreases |chunks|
  {
    if chunks != [] {
      StreamTotals(chunks[..|chunks| - 1], cap);
    }
  }

  /** A chunk that leaves no control sequence or half a surrogate pair open at its ends. */
  predicate SelfContained(chunk: Text)
  {
    ESC !in Strip(chunk) && !StartsLow(Strip(chunk)) && !EndsHigh(Strip(chunk))
  }

  function Concat(chunks: seq<Text>): Text
  {
    if chunks == [] then [] else Concat(chunks[..|chunks| - 1]) + Strip(chunks[|chunks| - 1])
  }

  lemma {:induction false} JoinedSelfContained(chunks: seq<Text>)
    requires forall c :: c in chunks ==> SelfContained(c)
    ensures Joined(chunks) == Concat(chunks) && ControlFree(Concat(chunks)) && !EndsHigh(Concat(chunks))
    ensures ByteLength(Joined(chunks)) == PeakBytes(chunks) == TotalBytes(chunks)
    decreases |chunks|
  {
    hide Encode, WithoutControls, WithoutNul;
    if chunks != [] {
      var init, last := chunks[..|chunks| - 1], Strip(chunks[|chunks| - 1]);
      assert SelfContained(chunks[|chunks| - 1]);
      JoinedSelfContained(init);
      StripIsNulFree(chunks[|chunks| - 1]);
      StripControlFree(Joined(init) + last);
      ByteLengthConcat(Joined(init), last);
    } else {
      SingleByteLength([]);
    }
  }

  /** Chunks that are complete in themselves set the flag exactly when their byte total exceeds the cap. */
  lemma FlagExactWhenSelfContained(chunks: seq<Text>, cap: nat)
    requires forall c :: c in chunks ==> SelfContained(c)
    ensures Streamed(chunks, cap).truncated <==> Streamed(chunks, cap).bytes > cap
  {
    StreamTotals(chunks, cap);
    JoinedSelfContained(chunks);
  }

  /** Appending chunk `k` joins no control sequence and no surrogate pair, and strips nothing that was held. */
  predicate Keeps(chunks: seq<Text>, k: nat)
    requires k < |chunks|
  {
    var held, chunk := Joined(chunks[..k]), Strip(chunks[k]);
    Strip(held + chunk) == held + chunk && !SplitsPair(held, chunk)
  }

  /** Chunk `k` or a later one adds something. */
  predicate AddsFrom(chunks: seq<Text>, k: nat) { exists j | k <= j < |chunks| :: Strip(chunks[j]) != [] }

  ghost predicate AllKeep(chunks: seq<Text>) { forall k :: 0 <= k < |chunks| ==> Keeps(chunks, k) }

  /** Every append keeps everything, up to the last chunk that adds something. */
  ghost predicate KeepsWhileAdding(chunks: seq<Text>) { forall k :: 0 <= k < |chunks| && AddsFrom(chunks, k) ==> Keeps(chunks, k) }

  /** One append adds up exactly when it keeps everything. */
  lemma TightIff(held: Text, chunk: Text)
    ensures ByteLength(Strip(held + chunk)) == ByteLength(held) + ByteLength(chunk)
            <==> Strip(held + chunk) == held + chunk && !SplitsPair(held, chunk)
  {
    hide Encode, WithoutControls, WithoutNul;
    ByteLengthConcat(held, chunk);
    StripStrict(held + chunk);
  }

  lemma FrontKeeps(chunks: seq<Text>, k: nat)
    requires k + 1 < |chunks|
    ensures Keeps(chunks[..|chunks| - 1], k) <==> Keeps(chunks, k)
  {
    hide Joined, Strip;
    assert chunks[..|chunks| - 1][..k] == chunks[..k];
  }

  /** The joined text has as many bytes as arrived exactly when every append keeps everything. */
  lemma {:induction false} JoinedIsTotalIff(chunks: seq<Text>)
    ensures ByteLength(Joined(chunks)) == TotalBytes(chunks) <==> AllKeep(chunks)
    decreases |chunks|
  {
    if chunks == [] {
      SingleByteLength([]);
    } else {
      var init, last := chunks[..|chunks| - 1], Strip(chunks[|chunks| - 1]);
      JoinedIsTotalIff(init);
      TightIff(Joined(init), last);
      ShorterThanParts(Joined(init), last);
      PeakWithinTotal(init);
      AllKeepStep(chunks);
      hide Strip, Encode, AllKeep;
    }
  }

  lemma AllKeepStep(chunks: seq<Text>)
    requires chunks != []
    ensures AllKeep(chunks) <==> AllKeep(chunks[..|chunks| - 1]) && Keeps(chunks, |chunks| - 1)
  {
    hide Keeps;
    var init := chunks[..|chunks| - 1];
    forall k | 0 <= k < |init|
      ensures Keeps(init, k) <==> Keeps(chunks, k)
    {
      FrontKeeps(chunks, k);
    }
  }

  lemma EmptyHasNoBytes(t: Text)
    ensures ByteLength(t) == 0 <==> t == []
  {
    if t != [] {
      ByteLengthMonotone(t, 0, |t|);
      assert t[..|t|] == t;
    }
  }

  lemma AddsFromFront(chunks: seq<Text>, k: nat)
    requires chunks != [] && k < |chunks|
    ensures AddsFrom(chunks, k) <==> AddsFrom(chunks[..|chunks| - 1], k) || Strip(chunks[|chunks| - 1]) != []
  {
    hide Strip;
    var init := chunks[..|chunks| - 1];
    if j :| k <= j < |init| && Strip(init[j]) != [] {
      assert chunks[j] == init[j];
    }
    if j :| k <= j < |chunks| && Strip(chunks[j]) != [] {
      assert j < |init| ==> init[j] == chunks[j];
    }
  }

  /** The joined text ever had as many bytes as arrived in all exactly when the appends kept everything while adding. */
  lemma {:induction false} PeakIsTotalIff(chunks: seq<Text>)
    ensures PeakBytes(chunks) == TotalBytes(chunks) <==> KeepsWhileAdding(chunks)
    decreases |chunks|
  {
    if chunks != [] {
      var init, last := chunks[..|chunks| - 1], Strip(chunks[|chunks| - 1]);
      PeakIsTotalIff(init);
      PeakWithinTotal(init);
      JoinedIsTotalIff(chunks);
      EmptyHasNoBytes(last);
      StripShorter(Joined(init) + last);
      hide Strip, Encode, Keeps;
      forall k | 0 <= k < |chunks|
        ensures AddsFrom(chunks, k) <==> AddsFrom(init, k) || last != []
      {
        AddsFromFront(chunks, k);
      }
      forall k | 0 <= k < |init|
        ensures Keeps(init, k) <==> Keeps(chunks, k)
      {
        FrontKeeps(chunks, k);
      }
      if last == [] {
        assert Joined(init) + last == Joined(init);
        NothingAdded(init);
      }
    }
  }

  lemma NothingAdded(chunks: seq<Text>)
    ensures !AddsFrom(chunks, |chunks|)
  {
  }

  /**
   * The flag tells whether the byte total exceeds the cap, for every cap, if and only if every append up to the last chunk
   * that adds something joins no control sequence and no surrogate pair over its boundary and strips nothing that was held.
   */
  lemma FlagExactIff(chunks: seq<Text>)
    ensures (forall cap: nat :: Streamed(chunks, cap).truncated <==> Streamed(chunks, cap).bytes > cap)
            <==> KeepsWhileAdding(chunks)
  {
    hide Keeps, AddsFrom, Joined, Streamed, PeakBytes, TotalBytes;
    forall cap: nat
      ensures Streamed(chunks, cap).bytes == TotalBytes(chunks)
      ensures Streamed(chunks, cap).truncated <==> PeakBytes(chunks) > cap
    {
      StreamTotals(chunks, cap);
    }
    PeakWithinTotal(chunks);
    PeakIsTotalIff(chunks);
    if PeakBytes(chunks) < TotalBytes(chunks) {
      var cap: nat := PeakBytes(chunks);
      assert !(Streamed(chunks, cap).truncated <==> Streamed(chunks, cap).bytes > cap);
    }
  }

  /** One chunk is enough: taking a sequence out of it leaves another one, and the append takes that out too. */
  lemma NestedSequenceMissesFlag()
    ensures Streamed([[ESC, ESC, 0x5B, 0x6D, 0x5B, 0x6D]], 2) == CappedText([], false, 3)
  {
    var chunk: Text, once: Text := [ESC, ESC, 0x5B, 0x6D, 0x5B, 0x6D], [ESC, 0x5B, 0x6D];
    StripsInside();
    StripsWhole();
    SingleByteLength(once);
    SingleByteLength([]);
    var chunks: seq<Text> := [chunk];
    assert chunks[..0] == [];
    assert [] + once == once;
    hide Strip, Encode;
  }

  lemma StripsWhole()
    ensures Strip([ESC, 0x5B, 0x6D]) == []
  {
    var t: Text := [ESC, 0x5B, 0x6D];
    assert t[2..] == [0x6D];
    assert ControlLength(t) == 3;
    assert t[3..] == [];
    assert WithoutControls(t) == [];
  }

  lemma StripsInside()
    ensures Strip([ESC, ESC, 0x5B, 0x6D, 0x5B, 0x6D]) == [ESC, 0x5B, 0x6D]
  {
    var t: Text, rest: Text, left: Text := [ESC, ESC, 0x5B, 0x6D, 0x5B, 0x6D], [ESC, 0x5B, 0x6D, 0x5B, 0x6D], [0x5B, 0x6D];
    assert t[1..] == rest && rest[2..] == [0x6D, 0x5B, 0x6D];
    assert ControlLength(t) == 0 && ControlLength(rest) == 3;
    assert rest[3..] == left;
    StripControlFree(left);
    assert WithoutControls(rest) == left;
    assert WithoutControls(t) == [ESC] + left;
    assert ([ESC] + left)[1..] == left;
  }

  /** A control sequence sent in two chunks: four bytes arrive, one is left, and passing a cap of three is never reported. */
  lemma SplitSequenceMissesFlag()
    ensures Appended(Previous(Some([ESC]), Some(1), false), [0x5B, 0x6D, 0x61], 3) == CappedText([0x61], false, 4)
  {
    var first: Text, second: Text := [ESC], [0x5B, 0x6D, 0x61];
    hide Encode, WithoutControls, WithoutNul;
    StripControlFree(second);
    assert first + second == [ESC, 0x5B, 0x6D, 0x61];
    RejoinedSequenceGoes();
    SingleByteLength(second);
    SingleByteLength([0x61]);
  }

  lemma RejoinedSequenceGoes()
    ensures Strip([ESC, 0x5B, 0x6D, 0x61]) == [0x61]
  {
    var t: Text, left: Text := [ESC, 0x5B, 0x6D, 0x61], [0x61];
    assert t[2..] == [0x6D, 0x61];
    assert ControlLength(t) == 3;
    assert t[3..] == left;
    StripControlFree(left);
  }

  /** Whatever arrives, in whatever chunks, the stream never holds more than the cap. */
  lemma StreamFits(chunks: seq<Text>, cap: nat)
    ensures ByteLength(Streamed(chunks, cap).text) <= cap
  {
    if chunks == [] {
      SingleByteLength([]);
    } else {
      hide Encode, Kept, Strip;
      KeptFits(Strip(Streamed(chunks[..|chunks| - 1], cap).text + Strip(chunks[|chunks| - 1])), cap);
    }
  }

  /** For well-formed chunks, as long as every append keeps everything, the stream holds a suffix of the joined text. */
  lemma {:induction false} StreamIsSuffix(chunks: seq<Text>, cap: nat)
    requires AllKeep(chunks) && forall c :: c in chunks ==> WellFormed(Strip(c))
    ensures Suffix(Streamed(chunks, cap).text, Joined(chunks))
    ensures WellFormed(Streamed(chunks, cap).text)
    decreases |chunks|
  {
    if chunks != [] {
      var init, last := chunks[..|chunks| - 1], Strip(chunks[|chunks| - 1]);
      var before := Streamed(init, cap).text;
      assert WellFormed(Strip(chunks[|chunks| - 1]));
      AllKeepStep(chunks);
      StreamIsSuffix(init, cap);
      assert Keeps(chunks, |init|) && chunks[..|init|] == init;
      hide Encode, Repaired, Kept, Strip, Streamed, Keeps;
      SuffixGrows(before, Joined(init), last);
      assert !SplitsPair(before, last);
      RepairedConcat(before, last);
      StrippedSuffix(before + last, Joined(init) + last);
      StreamedStep(chunks, cap);
      KeptIsSuffix(before + last, cap);
      SuffixTransitive(Kept(before + last, cap), before + last, Joined(chunks));
    }
  }

  lemma StreamedStep(chunks: seq<Text>, cap: nat)
    requires chunks != []
    ensures var whole := Streamed(chunks[..|chunks| - 1], cap).text + Strip(chunks[|chunks| - 1]);
            Streamed(chunks, cap).text == Kept(Strip(whole), cap)
  {
    hide Strip, Kept;
  }

  lemma SuffixGrows(part: Text, whole: Text, more: Text)
    requires Suffix(part, whole)
    ensures Suffix(part + more, whole + more)
    ensures EndsHigh(part) ==> EndsHigh(whole)
  {
    var n := |whole| - |part|;
    assert (whole + more)[n..] == whole[n..] + more;
  }

  /** So for chunks that each leave nothing open the stream holds a suffix of everything sent. */
  lemma SelfContainedStreamIsSuffix(chunks: seq<Text>, cap: nat)
    requires forall c :: c in chunks ==> SelfContained(c) && WellFormed(Strip(c))
    ensures Suffix(Streamed(chunks, cap).text, Concat(chunks))
  {
    hide Encode, Streamed, AllKeep;
    JoinedSelfContained(chunks);
    JoinedIsTotalIff(chunks);
    StreamIsSuffix(chunks, cap);
  }

  /** Without that guard it need not: a control sequence cut in two by the cap leaves its second half behind. */
  lemma CutSequenceLeavesRest()
    ensures Streamed([[0x61, ESC, 0x5B], [0x6D]], 1).text == [0x6D] && Joined([[0x61, ESC, 0x5B], [0x6D]]) == [0x61]
  {
    hide *;
    HalfIsHeld();
    RestIsHeld();
    NothingJoined();
  }

  lemma HalfIsHeld()
    ensures Streamed([[0x61, ESC, 0x5B]], 1).text == [0x5B] && Joined([[0x61, ESC, 0x5B]]) == [0x61, ESC, 0x5B]
  {
    var first: Text := [0x61, ESC, 0x5B];
    var chunks: seq<Text> := [first];
    assert chunks[..0] == [];
    OpenSequenceStays();
    SingleByteKept(first, 1);
    LastUnit();
    hide Encode, Strip, Kept, LineFrom;
    assert [] + first == first;
    assert first[2..] == [0x5B];
    StreamedStep(chunks, 1);
  }

  lemma RestIsHeld()
    requires Streamed([[0x61, ESC, 0x5B]], 1).text == [0x5B]
    ensures Streamed([[0x61, ESC, 0x5B], [0x6D]], 1).text == [0x6D]
  {
    var chunks: seq<Text> := [[0x61, ESC, 0x5B], [0x6D]];
    var held: Text, second: Text, both: Text := [0x5B], [0x6D], [0x5B, 0x6D];
    StripControlFree(second);
    StripControlFree(both);
    SingleByteKept(both, 1);
    LastUnit();
    hide Encode, Strip, Kept, LineFrom, Streamed;
    assert chunks[..1] == [[0x61, ESC, 0x5B]];
    assert held + second == both && both[1..] == second;
    StreamedStep(chunks, 1);
  }

  lemma NothingJoined()
    requires Joined([[0x61, ESC, 0x5B]]) == [0x61, ESC, 0x5B]
    ensures Joined([[0x61, ESC, 0x5B], [0x6D]]) == [0x61]
  {
    var chunks: seq<Text> := [[0x61, ESC, 0x5B], [0x6D]];
    var first: Text, second: Text := [0x61, ESC, 0x5B], [0x6D];
    StripControlFree(second);
    ClosedSequenceGoes();
    hide Strip;
    assert chunks[..1] == [first];
    assert first + second == [0x61, ESC, 0x5B, 0x6D];
  }

  lemma OpenSequenceStays()
    ensures Strip([0x61, ESC, 0x5B]) == [0x61, ESC, 0x5B]
  {
    var t: Text, rest: Text := [0x61, ESC, 0x5B], [ESC, 0x5B];
    assert t[1..] == rest && rest[1..] == [0x5B] && rest[2..] == [];
    assert ControlLength(rest) == 0;
    StripControlFree([0x5B]);
    assert WithoutControls(rest) == rest;
    assert WithoutControls(t) == t;
    NulFreeStays(t);
  }

  lemma ClosedSequenceGoes()
    ensures Strip([0x61, ESC, 0x5B, 0x6D]) == [0x61]
  {
    var t: Text, rest: Text := [0x61, ESC, 0x5B, 0x6D], [ESC, 0x5B, 0x6D];
    assert t[1..] == rest && rest[2..] == [0x6D];
    assert ControlLength(rest) == 3;
    assert rest[3..] == [];
    assert WithoutControls(rest) == [];
    assert WithoutControls(t) == [0x61];
    NulFreeStays([0x61]);
  }

  lemma LastUnit()
    ensures LineFrom([0x61, ESC, 0x5B], 2) == 2 && LineFrom([0x5B, 0x6D], 1) == 1
  {
    var a: Text, b: Text := [0x61, ESC, 0x5B], [0x5B, 0x6D];
    assert a[2..] == [0x5B] && b[1..] == [0x6D];
  }

  // ---------------------------------------------------------------------------------------------
  // Single-byte output: streaming is the same as capping once
  // ---------------------------------------------------------------------------------------------

  /** How many of `n` bytes do not fit. */
  function Excess(n: nat, cap: nat): (r: nat)
    ensures r <= n
  {
    if n <= cap then 0 else n - cap
  }

  lemma {:induction false} SingleByteCut(t: Text, cap: nat)
    requires SingleByte(t)
    ensures TailCut(t, cap) == Excess(|t|, cap)
  {
    SingleByteLength(t);
    if |t| > cap {
      SingleByteCut(t[1..], cap);
    }
  }

  /** The position a cut at `c` moves to: the next line start, when there is one and the cut is not at one already. */
  function LineFrom(t: Text, c: nat): (s: nat)
    requires c <= |t|
    ensures c <= s <= |t|
  {
    var newline := IndexOf(t[c..], NEWLINE);
    if c > 0 && t[c - 1] != NEWLINE && newline != -1 && newline < |t| - c - 1 then c + newline + 1 else c
  }

  lemma SingleByteKept(t: Text, cap: nat)
    requires SingleByte(t)
    ensures Kept(t, cap) == t[LineFrom(t, Excess(|t|, cap))..]
  {
    hide Encode, Repaired, TailCut, IndexOf;
    SingleByteLength(t);
    SingleByteCut(t, cap);
    assert t[0..] == t;
    var c := Excess(|t|, cap);
    SingleByteLength(t[c..]);
    if c > 0 {
      var newline := IndexOf(t[c..], NEWLINE);
      if newline != -1 {
        assert t[c..][newline + 1..] == t[c + newline + 1..];
      }
    }
  }

  /** Looking for a line start in a suffix is looking for it in the whole, past the suffix's first unit. */
  lemma LineFromShift(t: Text, s: nat, c: nat)
    requires s < c <= |t|
    ensures LineFrom(t[s..], c - s) + s == LineFrom(t, c)
  {
    assert t[s..][c - s..] == t[c..];
    assert t[s..][c - s - 1] == t[c - 1];
  }

  /** A later cut that falls inside the line the first cut dropped moves to the same line start. */
  lemma LineFromStable(p: Text, d: Text, c0: nat, c: nat)
    requires c0 <= c <= |p|
    requires c <= LineFrom(p, c0)
    requires c == c0 ==> c0 == 0 || d == []
    ensures LineFrom(p + d, c) == LineFrom(p, c0)
  {
    var s, t := LineFrom(p, c0), p + d;
    if c == c0 {
      if d == [] { assert t == p; }
    } else {
      var newline := IndexOf(p[c0..], NEWLINE);
      assert s == c0 + newline + 1 && p[c0..][newline] == NEWLINE;
      assert p[s - 1] == NEWLINE;
      if c < s {
        assert p[c0..][c - 1 - c0] == p[c - 1];
        assert t[c - 1] != NEWLINE;
        var k := s - 1 - c;
        assert t[c..][k] == t[s - 1] == NEWLINE;
        assert forall m :: 0 <= m < k ==> t[c..][m] == p[c0..][c + m - c0];
        assert IndexOf(t[c..], NEWLINE) == k;
      } else {
        assert t[c - 1] == NEWLINE;
      }
    }
  }

  /** Capping what was kept plus a new piece keeps what capping everything would. */
  lemma KeptStep(p: Text, d: Text, cap: nat)
    requires SingleByte(p) && SingleByte(d)
    ensures Kept(Kept(p, cap) + d, cap) == Kept(p + d, cap)
  {
    hide *;
    var t, s := p + d, LineFrom(p, Excess(|p|, cap));
    var at := LineFrom(t[s..], Excess(|t| - s, cap));
    SingleByteParts(p, d, s);
    SingleByteKept(p, cap);
    SingleByteKept(t, cap);
    SingleByteKept(t[s..], cap);
    assert Kept(p, cap) + d == t[s..];
    CutStep(p, d, cap);
    assert t[s..][at..] == t[s + at..];
  }

  lemma SingleByteParts(p: Text, d: Text, s: nat)
    requires SingleByte(p) && SingleByte(d) && s <= |p|
    ensures SingleByte(p + d) && SingleByte((p + d)[s..])
  {
  }

  lemma CutStep(p: Text, d: Text, cap: nat)
    ensures var t, s := p + d, LineFrom(p, Excess(|p|, cap));
            s + LineFrom(t[s..], Excess(|t| - s, cap)) == LineFrom(t, Excess(|t|, cap))
  {
    hide LineFrom;
    var t, c0 := p + d, Excess(|p|, cap);
    var s, c := LineFrom(p, c0), Excess(|t|, cap);
    if c <= s {
      LineFromStable(p, d, c0, c);
      LineFromZero(t[s..]);
    } else {
      LineFromShift(t, s, c);
    }
  }

  /** Single-byte text with nothing to strip. */
  predicate PlainChunk(t: Text) { forall i :: 0 <= i < |t| ==> t[i] < 0x80 && t[i] != ESC && t[i] != NUL }

  lemma PlainFacts(t: Text)
    requires PlainChunk(t)
    ensures SingleByte(t) && Strip(t) == t && ByteLength(t) == |t|
  {
    StripControlFree(t);
    SingleByteLength(t);
  }

  function Whole(chunks: seq<Text>): Text
  {
    if chunks == [] then [] else Whole(chunks[..|chunks| - 1]) + chunks[|chunks| - 1]
  }

  /**
   * Feeding plain single-byte output chunk by chunk, for any split into chunks, ends with exactly what capping the whole
   * output once gives: the same text, flag and size.
   */
  lemma {:induction false} StreamingEqualsCapping(chunks: seq<Text>, cap: nat)
    requires forall c :: c in chunks ==> PlainChunk(c)
    ensures PlainChunk(Whole(chunks))
    ensures Streamed(chunks, cap) == Tailed(Whole(chunks), cap)
    decreases |chunks|
  {
    if chunks == [] {
      StripControlFree([]);
    } else {
      var init, last := chunks[..|chunks| - 1], chunks[|chunks| - 1];
      StreamingEqualsCapping(init, cap);
      assert PlainChunk(last);
      PlainStep(Whole(init), last, cap);
    }
  }

  /** Appending a plain piece to what capping a plain text gave is capping both together. */
  lemma PlainStep(p: Text, d: Text, cap: nat)
    requires PlainChunk(p) && PlainChunk(d)
    ensures PlainChunk(p + d)
    ensures Appended(AsPrevious(Tailed(p, cap)), d, cap) == Tailed(p + d, cap)
  {
    hide Encode, Repaired, Kept, WithoutControls, WithoutNul, LineFrom;
    var kept := Kept(p, cap);
    PlainFacts(p);
    PlainFacts(d);
    PlainFacts(p + d);
    SingleByteKept(p, cap);
    assert PlainChunk(kept + d);
    PlainFacts(kept + d);
    KeptStep(p, d, cap);
    assert |p| <= cap ==> kept == p by {
      if |p| <= cap { assert LineFrom(p, 0) == 0 by { LineFromZero(p); } }
    }
  }

  lemma LineFromZero(t: Text)
    ensures LineFrom(t, 0) == 0 && t[0..] == t
  {
  }

  // ---------------------------------------------------------------------------------------------
  // Command items
  // ---------------------------------------------------------------------------------------------

  /** `\n… [command truncated]` */
  const COMMAND_TRUNCATED: Text := [
    0x0A, 0x2026, 0x20, 0x5B, 0x63, 0x6F, 0x6D, 0x6D, 0x61, 0x6E, 0x64, 0x20,
    0x74, 0x72, 0x75, 0x6E, 0x63, 0x61, 0x74, 0x65, 0x64, 0x5D]

  /** The fields of a command item that its output and its caps touch; an absent `outputTruncated` is false. */
  datatype CommandItem = CommandItem(command: Text, output: Option<Text>, outputBytes: Option<nat>, outputTruncated: bool)

  datatype CommandPatch = CommandPatch(
    command: Option<Text>, output: Option<Text>, outputBytes: Option<nat>, outputTruncated: Option<bool>)

  datatype OutputMode = Append | Replace

  function SetOutput(item: CommandItem, output: Text, mode: OutputMode): CommandItem
  {
    match mode
    case Append =>
      var capped := Appended(Previous(item.output, item.outputBytes, item.outputTruncated), output, ACTIVITY_OUTPUT_CAP_BYTES);
      CommandItem(item.command, Some(capped.text), Some(capped.bytes), capped.truncated)
    case Replace =>
      var capped := Tailed(output, ACTIVITY_OUTPUT_CAP_BYTES);
      var told := item.outputBytes.GetOr(0);
      CommandItem(item.command, Some(capped.text), Some(if capped.bytes > told then capped.bytes else told),
                  capped.truncated || item.outputTruncated)
  }

  predicate EndsMarked(command: Text) { Suffix(COMMAND_TRUNCATED, command) }

  function BoundCommand(item: CommandItem): CommandItem
  {
    if EndsMarked(item.command) then item
    else
      var capped := Headed(item.command, ACTIVITY_GENERIC_CAP_BYTES);
      if capped.truncated then item.(command := capped.text + COMMAND_TRUNCATED) else item
  }

  /** A patch of the item's own kind, as `mergeActivityPatch` folds it in. */
  function Merged(existing: CommandItem, patch: CommandPatch, mode: OutputMode): CommandItem
  {
    var merged := CommandItem(
      patch.command.GetOr(existing.command),
      existing.output,
      if patch.outputBytes.Some? then patch.outputBytes else existing.outputBytes,
      patch.outputTruncated.GetOr(existing.outputTruncated));
    BoundCommand(if patch.output.Some? then SetOutput(merged, patch.output.value, mode) else merged)
  }

  function OutputPatch(output: Text): CommandPatch { CommandPatch(None, Some(output), None, None) }

  /** The item after every chunk arrived as an append patch. */
  function MergedChunks(item: CommandItem, chunks: seq<Text>): CommandItem
  {
    if chunks == [] then item
    else Merged(MergedChunks(item, chunks[..|chunks| - 1]), OutputPatch(chunks[|chunks| - 1]), Append)
  }

  /** Bounding a command twice changes nothing more. */
  lemma BoundCommandIdempotent(item: CommandItem)
    ensures BoundCommand(BoundCommand(item)) == BoundCommand(item)
  {
    hide Headed;
    var capped := Headed(item.command, ACTIVITY_GENERIC_CAP_BYTES).text;
    assert (capped + COMMAND_TRUNCATED)[|capped|..] == COMMAND_TRUNCATED;
  }

  lemma HeadedWithinCap(text: Text, cap: nat)
    ensures ByteLength(Headed(text, cap).text) <= cap
    ensures Headed(text, cap).truncated <==> ByteLength(text) > cap
    ensures !Headed(text, cap).truncated ==> Headed(text, cap).text == text
  {
    hide Encode, Repaired;
    var kept := text[..HeadFit(text, cap)];
    HeadFitLongest(text, cap);
    EncodeRepaired(kept);
    WithoutMarkShorter(Repaired(kept));
  }

  /** The longest prefix of whole characters within the cap. */
  ghost predicate LongestHead(t: Text, cap: nat, k: nat)
  {
    && k <= |t| && Boundary(t, k) && ByteLength(t[..k]) <= cap
    && forall j: nat :: k < j && Boundary(t, j) ==> ByteLength(t[..j]) > cap
  }

  /**
   * A command that fits or is marked already stays, and its output always does. Any other command becomes the longest
   * prefix of whole characters that fits, lone surrogates replaced and without a byte order mark, and the mark.
   */
  lemma BoundCommandKeepsHead(item: CommandItem)
    ensures BoundCommand(item) == item.(command := BoundCommand(item).command)
    ensures ByteLength(item.command) <= ACTIVITY_GENERIC_CAP_BYTES || EndsMarked(item.command) ==> BoundCommand(item) == item
    ensures ByteLength(item.command) > ACTIVITY_GENERIC_CAP_BYTES && !EndsMarked(item.command) ==>
              exists k: nat :: LongestHead(item.command, ACTIVITY_GENERIC_CAP_BYTES, k)
                               && BoundCommand(item).command == WithoutMark(Repaired(item.command[..k])) + COMMAND_TRUNCATED
  {
    hide Encode, Repaired, EndsMarked, COMMAND_TRUNCATED;
    HeadFitLongest(item.command, ACTIVITY_GENERIC_CAP_BYTES);
    var k := HeadFit(item.command, ACTIVITY_GENERIC_CAP_BYTES);
    assert LongestHead(item.command, ACTIVITY_GENERIC_CAP_BYTES, k);
  }

  /**
   * A replaced output: within the cap, all of it when it fits; the size is its own or the one told, whichever is larger; the
   * flag says that it was cut here or was told to be.
   */
  lemma ReplacedOutputIs(existing: CommandItem, patch: CommandPatch)
    requires patch.output.Some?
    ensures var m := Merged(existing, patch, Replace);
            var plain := Strip(patch.output.value);
            var told := if patch.outputBytes.Some? then patch.outputBytes else existing.outputBytes;
            && m.output.Some? && ByteLength(m.output.value) <= ACTIVITY_OUTPUT_CAP_BYTES
            && (ByteLength(plain) <= ACTIVITY_OUTPUT_CAP_BYTES ==> m.output == Some(plain))
            && m.outputBytes.Some? && m.outputBytes.value >= ByteLength(plain) && (told.Some? ==> m.outputBytes.value >= told.value)
            && (m.outputBytes == Some(ByteLength(plain)) || m.outputBytes == told)
            && (m.outputTruncated <==> ByteLength(plain) > ACTIVITY_OUTPUT_CAP_BYTES
                                       || patch.outputTruncated.GetOr(existing.outputTruncated))
  {
    hide Encode, Repaired, TailCut, Headed, EndsMarked, WithoutControls, WithoutNul;
    KeptFits(Strip(patch.output.value), ACTIVITY_OUTPUT_CAP_BYTES);
  }

  /** A patch without output leaves the output, takes over what it says of its size, and never changes a command it does not name. */
  lemma PatchWithoutOutput(existing: CommandItem, patch: CommandPatch, mode: OutputMode)
    requires patch.output.None?
    ensures var m := Merged(existing, patch, mode);
            && m.output == existing.output
            && m.outputBytes == (if patch.outputBytes.Some? then patch.outputBytes else existing.outputBytes)
            && m.outputTruncated == patch.outputTruncated.GetOr(existing.outputTruncated)
            && m.command == BoundCommand(existing.(command := patch.command.GetOr(existing.command))).command
  {
    hide Headed, EndsMarked;
  }

  /** The stored command stays within the cap and its marker, unless it came in longer with the marker at its end already. */
  lemma BoundCommandSize(item: CommandItem)
    ensures ByteLength(BoundCommand(item).command) <= ACTIVITY_GENERIC_CAP_BYTES + ByteLength(COMMAND_TRUNCATED)
            <==> !(EndsMarked(item.command) && ByteLength(item.command) > ACTIVITY_GENERIC_CAP_BYTES + ByteLength(COMMAND_TRUNCATED))
  {
    hide Headed, Encode;
    var capped := Headed(item.command, ACTIVITY_GENERIC_CAP_BYTES);
    HeadedWithinCap(item.command, ACTIVITY_GENERIC_CAP_BYTES);
    ByteLengthConcat(capped.text, COMMAND_TRUNCATED);
  }

  /** A command that is over the limit and already ends in the mark stays over it. */
  lemma LongMarkedCommandStays(front: Text, item: CommandItem)
    requires |front| == ACTIVITY_GENERIC_CAP_BYTES + 1 && (forall i :: 0 <= i < |front| ==> front[i] == 0x61)
    requires item.command == front + COMMAND_TRUNCATED
    ensures BoundCommand(item) == item
    ensures ByteLength(item.command) == ACTIVITY_GENERIC_CAP_BYTES + 1 + ByteLength(COMMAND_TRUNCATED)
  {
    assert item.command[|front|..] == COMMAND_TRUNCATED;
    SingleByteLength(front);
    hide Encode;
    ByteLengthConcat(front, COMMAND_TRUNCATED);
  }

  /** An item without output, after any chunks at all, holds exactly what the stream of those chunks holds. */
  lemma {:induction false} MergedChunksIsStream(item: CommandItem, chunks: seq<Text>)
    requires chunks != [] && item.output == None && item.outputBytes == None && !item.outputTruncated
    ensures var c := Streamed(chunks, ACTIVITY_OUTPUT_CAP_BYTES);
            MergedChunks(item, chunks) == CommandItem(BoundCommand(item).command, Some(c.text), Some(c.bytes), c.truncated)
    decreases |chunks|
  {
    hide Appended, Headed, EndsMarked;
    var init, last := chunks[..|chunks| - 1], chunks[|chunks| - 1];
    BoundCommandIdempotent(item);
    if init == [] {
      AppendToNothing(last);
      assert Streamed(init, ACTIVITY_OUTPUT_CAP_BYTES) == CappedText([], false, 0);
    } else {
      MergedChunksIsStream(item, init);
    }
  }

  lemma AppendToNothing(delta: Text)
    ensures Appended(Previous(None, None, false), delta, ACTIVITY_OUTPUT_CAP_BYTES)
            == Appended(Previous(Some([]), Some(0), false), delta, ACTIVITY_OUTPUT_CAP_BYTES)
  {
  }

  /** Plain output streamed in chunks leaves the same command item as the whole output reported once. */
  lemma StreamingEqualsReporting(item: CommandItem, chunks: seq<Text>)
    requires chunks != [] && item.output == None && item.outputBytes == None && !item.outputTruncated
    requires forall c :: c in chunks ==> PlainChunk(c)
    ensures MergedChunks(item, chunks) == Merged(item, OutputPatch(Whole(chunks)), Replace)
  {
    hide Headed, EndsMarked, Tailed, Streamed, Whole, MergedChunks;
    MergedChunksIsStream(item, chunks);
    StreamingEqualsCapping(chunks, ACTIVITY_OUTPUT_CAP_BYTES);
  }
}
