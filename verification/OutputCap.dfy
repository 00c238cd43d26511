/**
 * The byte caps on stored tool output (src/shared/agentActivity.ts): `capHead` keeps the first bytes, `capTail` the last
 * ones from a line start, `appendTail` folds streamed chunks.
 */
module OutputCap {
  import opened Utf16

  const ESC: Unit := 0x1B
  const BEL: Unit := 0x07
  const NUL: Unit := 0

  datatype CappedText = CappedText(text: Text, truncated: bool, bytes: nat)

  // ---------------------------------------------------------------------------------------------
  // Control sequences
  // ---------------------------------------------------------------------------------------------

  /** The length of the longest prefix of `t` whose units all lie in `lo..hi`. */
  function RunIn(t: Text, lo: nat, hi: nat): (n: nat)
    ensures n <= |t|
  {
    if t != [] && lo <= t[0] <= hi then 1 + RunIn(t[1..], lo, hi) else 0
  }

  /** The length of the longest prefix of `t` without BEL and ESC. */
  function RunOfTitle(t: Text): (n: nat)
    ensures n <= |t|
  {
    if t != [] && t[0] != BEL && t[0] != ESC then 1 + RunOfTitle(t[1..]) else 0
  }

  /** A `[`-sequence after its two opening units: parameters, intermediates, one final unit. 0 when it is cut short. */
  function CsiLength(t: Text): (n: nat)
    requires |t| >= 2
    ensures n == 0 || 2 < n <= |t|
  {
    var a := 2 + RunIn(t[2..], 0x30, 0x3F);
    var b := a + RunIn(t[a..], 0x20, 0x2F);
    if b < |t| && 0x40 <= t[b] <= 0x7E then b + 1 else 0
  }

  /** A `]`-sequence up to BEL or `ESC \`. 0 when it has no end. */
  function OscLength(t: Text): (n: nat)
    requires |t| >= 2
    ensures n == 0 || 2 < n <= |t|
  {
    var a := 2 + RunOfTitle(t[2..]);
    if a < |t| && t[a] == BEL then a + 1
    else if a + 1 < |t| && t[a] == ESC && t[a + 1] == 0x5C then a + 2
    else 0
  }

  /** The length of the control sequence `t` starts with; 0 when it starts with none. */
  function ControlLength(t: Text): (n: nat)
    ensures n == 0 || (2 <= n <= |t| && t[0] == ESC)
  {
    if |t| < 2 || t[0] != ESC then 0
    else if t[1] == 0x5B then CsiLength(t)
    else if t[1] == 0x5D && OscLength(t) > 0 then OscLength(t)
    else if 0x40 <= t[1] <= 0x5F then 2
    else 0
  }

  function WithoutControls(t: Text): Text
  {
    if t == [] then []
    else if ControlLength(t) > 0 then WithoutControls(t[ControlLength(t)..])
    else [t[0]] + WithoutControls(t[1..])
  }

  function WithoutNul(t: Text): Text
  {
    if t == [] then [] else (if t[0] == NUL then [] else [t[0]]) + WithoutNul(t[1..])
  }

  /** Terminal output without colour and cursor sequences or NUL bytes. */
  function Strip(t: Text): Text { WithoutNul(WithoutControls(t)) }

  /** Neither ESC nor NUL: nothing to strip. */
  predicate ControlFree(t: Text) { ESC !in t && NUL !in t }

  lemma {:induction false} StripControlFree(t: Text)
    requires ControlFree(t)
    ensures WithoutControls(t) == t && WithoutNul(t) == t && Strip(t) == t
  {
    if t != [] {
      assert ESC !in t[1..] && NUL !in t[1..];
      StripControlFree(t[1..]);
      assert [t[0]] + t[1..] == t;
    }
  }

  lemma WithoutNulIsFree(t: Text)
    ensures NUL !in WithoutNul(t)
    ensures forall u :: u in WithoutNul(t) ==> u in t
  {
  }

  /** What is left after stripping holds no NUL, so it is control-free as soon as it holds no ESC. */
  lemma StripIsNulFree(t: Text)
    ensures NUL !in Strip(t)
  {
    WithoutNulIsFree(WithoutControls(t));
  }

  /** Keeping the first unit and shortening the rest shortens the whole, when a low surrogate at its front stays there. */
  lemma ShorterRest(u: Unit, rest: Text, kept: Text)
    requires ByteLength(kept) <= ByteLength(rest)
    requires StartsLow(rest) ==> StartsLow(kept)
    ensures ByteLength([u] + kept) <= ByteLength([u] + rest)
  {
    ByteLengthConcat([u], kept);
    ByteLengthConcat([u], rest);
  }

  lemma {:induction false} WithoutControlsShorter(t: Text)
    ensures ByteLength(WithoutControls(t)) <= ByteLength(t)
    ensures StartsLow(t) ==> StartsLow(WithoutControls(t))
    decreases |t|
  {
    if t != [] {
      var n := ControlLength(t);
      if n > 0 {
        WithoutControlsShorter(t[n..]);
        assert t == t[..n] + t[n..];
        ByteLengthConcat(t[..n], t[n..]);
        ByteLengthMonotone(t, 0, 1);
        ByteLengthMonotone(t, 1, n);
      } else {
        WithoutControlsShorter(t[1..]);
        assert t == [t[0]] + t[1..];
        ShorterRest(t[0], t[1..], WithoutControls(t[1..]));
      }
    }
  }

  lemma {:induction false} WithoutNulShorter(t: Text)
    ensures ByteLength(WithoutNul(t)) <= ByteLength(t)
    ensures StartsLow(t) ==> StartsLow(WithoutNul(t))
    decreases |t|
  {
    if t != [] {
      WithoutNulShorter(t[1..]);
      assert t == [t[0]] + t[1..];
      if t[0] == NUL {
        ByteLengthConcat([t[0]], t[1..]);
        assert WithoutNul(t) == WithoutNul(t[1..]);
      } else {
        ShorterRest(t[0], t[1..], WithoutNul(t[1..]));
      }
    }
  }

  lemma StripShorter(t: Text)
    ensures ByteLength(Strip(t)) <= ByteLength(t)
  {
    WithoutControlsShorter(t);
    WithoutNulShorter(WithoutControls(t));
  }

  /** Whatever stripping removes shows in the bytes. */
  lemma {:induction false} WithoutControlsStrict(t: Text)
    ensures WithoutControls(t) != t ==> ByteLength(WithoutControls(t)) < ByteLength(t)
    decreases |t|
  {
    if t != [] {
      var n := ControlLength(t);
      if n > 0 {
        WithoutControlsShorter(t[n..]);
        ControlDropped(t, n);
      } else {
        var rest := t[1..];
        WithoutControlsStrict(rest);
        WithoutControlsShorter(rest);
        assert t == [t[0]] + rest;
        if WithoutControls(t) != t {
          StrictlyShorterRest(t[0], rest, WithoutControls(rest));
        }
      }
    }
  }

  /** A control sequence takes bytes away even when the surrogates around it join. */
  lemma ControlDropped(t: Text, n: nat)
    requires ControlLength(t) == n > 0
    ensures ByteLength(t[n..]) < ByteLength(t)
  {
    hide ControlLength, Encode;
    assert t == t[..n] + t[n..];
    ByteLengthConcat(t[..n], t[n..]);
    ByteLengthMonotone(t, 0, 1);
    ByteLengthMonotone(t, 1, n);
    assert t[..n] == t[..n - 1] + [t[n - 1]];
    ByteLengthSnoc(t[..n - 1], t[n - 1]);
  }

  lemma StrictlyShorterRest(u: Unit, rest: Text, kept: Text)
    requires ByteLength(kept) < ByteLength(rest)
    requires StartsLow(rest) ==> StartsLow(kept)
    ensures ByteLength([u] + kept) < ByteLength([u] + rest)
  {
    ByteLengthConcat([u], kept);
    ByteLengthConcat([u], rest);
  }

  lemma {:induction false} WithoutNulStrict(t: Text)
    ensures WithoutNul(t) != t ==> ByteLength(WithoutNul(t)) < ByteLength(t)
    decreases |t|
  {
    if t != [] {
      var rest := t[1..];
      WithoutNulStrict(rest);
      WithoutNulShorter(rest);
      assert t == [t[0]] + rest;
      if t[0] == NUL {
        ByteLengthConcat([t[0]], rest);
        assert WithoutNul(t) == WithoutNul(rest);
      } else if WithoutNul(t) != t {
        StrictlyShorterRest(t[0], rest, WithoutNul(rest));
      }
    }
  }

  lemma StripStrict(t: Text)
    ensures Strip(t) != t ==> ByteLength(Strip(t)) < ByteLength(t)
  {
    WithoutControlsStrict(t);
    WithoutNulStrict(WithoutControls(t));
  }

  lemma {:induction false} NulFreeStays(t: Text)
    requires NUL !in t
    ensures WithoutNul(t) == t
  {
    if t != [] {
      NulFreeStays(t[1..]);
      assert [t[0]] + t[1..] == t;
    }
  }

  lemma {:induction false} UncontrolledTail(t: Text, n: nat)
    requires n <= |t| && WithoutControls(t) == t
    ensures WithoutControls(t[n..]) == t[n..]
    decreases n
  {
    if n == 0 {
      assert t[0..] == t;
    } else {
      var c := ControlLength(t);
      if c > 0 {
        ControlDropped(t, c);
        WithoutControlsShorter(t[c..]);
      }
      assert t[1..][n - 1..] == t[n..];
      assert WithoutControls(t)[1..] == WithoutControls(t[1..]);
      UncontrolledTail(t[1..], n - 1);
    }
  }

  /** What stripping leaves alone, it leaves alone in every suffix too. */
  lemma StrippedSuffix(part: Text, t: Text)
    requires Suffix(part, t) && Strip(t) == t
    ensures Strip(part) == part
  {
    WithoutControlsStrict(t);
    WithoutNulShorter(WithoutControls(t));
    UncontrolledTail(t, |t| - |part|);
    StripIsNulFree(t);
    NulFreeStays(part);
  }

  // ---------------------------------------------------------------------------------------------
  // What stripping removes
  // ---------------------------------------------------------------------------------------------

  predicate AllIn(p: Text, lo: nat, hi: nat) { forall i :: 0 <= i < |p| ==> lo <= p[i] <= hi }

  predicate TitleFree(p: Text) { BEL !in p && ESC !in p }

  lemma {:induction false} RunInIs(p: Text, rest: Text, lo: nat, hi: nat)
    requires AllIn(p, lo, hi) && (rest == [] || !(lo <= rest[0] <= hi))
    ensures RunIn(p + rest, lo, hi) == |p|
  {
    if p == [] {
      assert p + rest == rest;
    } else {
      assert (p + rest)[1..] == p[1..] + rest;
      RunInIs(p[1..], rest, lo, hi);
    }
  }

  lemma {:induction false} RunOfTitleIs(p: Text, rest: Text)
    requires TitleFree(p) && (rest == [] || rest[0] == BEL || rest[0] == ESC)
    ensures RunOfTitle(p + rest) == |p|
  {
    if p == [] {
      assert p + rest == rest;
    } else {
      assert (p + rest)[1..] == p[1..] + rest;
      RunOfTitleIs(p[1..], rest);
    }
  }

  /** A control sequence at the front goes, and nothing else with it. */
  lemma FrontGoes(sequence: Text, rest: Text)
    requires sequence != [] && ControlLength(sequence + rest) == |sequence|
    ensures Strip(sequence + rest) == Strip(rest)
  {
    assert (sequence + rest)[|sequence|..] == rest;
    hide ControlLength;
  }

  lemma FrontStays(u: Unit, rest: Text)
    requires ControlLength([u] + rest) == 0 && u != NUL
    ensures Strip([u] + rest) == [u] + Strip(rest)
  {
    hide ControlLength;
    assert ([u] + rest)[1..] == rest;
    assert WithoutControls([u] + rest) == [u] + WithoutControls(rest);
    assert ([u] + WithoutControls(rest))[1..] == WithoutControls(rest);
  }

  /** Any unit but ESC and NUL stays. */
  lemma PlainUnitStays(u: Unit, rest: Text)
    requires u != ESC && u != NUL
    ensures Strip([u] + rest) == [u] + Strip(rest)
  {
    FrontStays(u, rest);
  }

  lemma NulGoes(rest: Text)
    ensures Strip([NUL] + rest) == Strip(rest)
  {
    assert ([NUL] + rest)[1..] == rest;
    assert WithoutControls([NUL] + rest) == [NUL] + WithoutControls(rest);
    assert ([NUL] + WithoutControls(rest))[1..] == WithoutControls(rest);
  }

  /** A terminal title goes, whether BEL or `ESC \` ends it. */
  lemma TitleGoes(p: Text, rest: Text)
    requires TitleFree(p)
    ensures Strip([ESC, 0x5D] + p + [BEL] + rest) == Strip(rest)
    ensures Strip([ESC, 0x5D] + p + [ESC, 0x5C] + rest) == Strip(rest)
  {
    TitleEnd(p, [BEL], rest);
    TitleEnd(p, [ESC, 0x5C], rest);
    FrontGoes([ESC, 0x5D] + p + [BEL], rest);
    FrontGoes([ESC, 0x5D] + p + [ESC, 0x5C], rest);
  }

  lemma TitleEnd(p: Text, end: Text, rest: Text)
    requires TitleFree(p) && (end == [BEL] || end == [ESC, 0x5C])
    ensures ControlLength([ESC, 0x5D] + p + end + rest) == 2 + |p| + |end|
  {
    var t := [ESC, 0x5D] + p + end + rest;
    assert t[2..] == p + (end + rest);
    RunOfTitleIs(p, end + rest);
    var a := 2 + |p|;
    assert t[a] == end[0];
    assert |end| == 2 ==> t[a + 1] == end[1];
  }

  /** Colours and cursor moves: parameters, intermediates and one final unit go with the opening. */
  lemma CsiGoes(params: Text, inter: Text, final: Unit, rest: Text)
    requires AllIn(params, 0x30, 0x3F) && AllIn(inter, 0x20, 0x2F) && 0x40 <= final <= 0x7E
    ensures Strip([ESC, 0x5B] + params + inter + [final] + rest) == Strip(rest)
  {
    var t := [ESC, 0x5B] + params + inter + [final] + rest;
    CsiRuns(params, inter, [final] + rest);
    assert t == [ESC, 0x5B] + params + inter + ([final] + rest);
    assert t[2 + |params| + |inter|] == final;
    FrontGoes([ESC, 0x5B] + params + inter + [final], rest);
  }

  /** How far parameters and intermediates of a `[`-sequence reach. */
  lemma CsiRuns(params: Text, inter: Text, rest: Text)
    requires AllIn(params, 0x30, 0x3F) && AllIn(inter, 0x20, 0x2F)
    requires rest == [] || !(0x20 <= rest[0] <= 0x2F)
    requires inter == [] ==> rest == [] || !(0x30 <= rest[0] <= 0x3F)
    ensures var t := [ESC, 0x5B] + params + inter + rest;
            ControlLength(t) == if rest != [] && 0x40 <= rest[0] <= 0x7E then 3 + |params| + |inter| else 0
  {
    var t := [ESC, 0x5B] + params + inter + rest;
    assert t[2..] == params + (inter + rest);
    assert inter + rest != [] ==> (inter + rest)[0] == if inter == [] then rest[0] else inter[0];
    RunInIs(params, inter + rest, 0x30, 0x3F);
    assert t[2 + |params|..] == inter + rest;
    RunInIs(inter, rest, 0x20, 0x2F);
    assert rest != [] ==> t[2 + |params| + |inter|] == rest[0];
  }

  /** A `[`-sequence that is cut short stays, all but what stripping its rest removes. */
  lemma OpenCsiStays(params: Text, inter: Text, rest: Text)
    requires AllIn(params, 0x30, 0x3F) && AllIn(inter, 0x20, 0x2F)
    requires rest == [] || !(0x20 <= rest[0] <= 0x7E) || (inter != [] && 0x30 <= rest[0] <= 0x3F)
    ensures Strip([ESC, 0x5B] + params + inter + rest) == [ESC, 0x5B] + params + inter + Strip(rest)
  {
    var opening := [ESC, 0x5B] + params + inter;
    CsiRuns(params, inter, rest);
    OpeningIsPlain(params, inter);
    hide Strip, ControlLength, ControlFree;
    var tail := opening[1..];
    assert opening == [ESC] + tail;
    assert opening + rest == [ESC] + (tail + rest);
    FrontStays(ESC, tail + rest);
    PlainStays(tail, rest);
    assert opening + Strip(rest) == [ESC] + (tail + Strip(rest));
  }

  lemma OpeningIsPlain(params: Text, inter: Text)
    requires AllIn(params, 0x30, 0x3F) && AllIn(inter, 0x20, 0x2F)
    ensures ControlFree(([ESC, 0x5B] + params + inter)[1..])
  {
    assert ([ESC, 0x5B] + params + inter)[1..] == [0x5B] + params + inter;
  }

  lemma {:induction false} PlainStays(p: Text, rest: Text)
    requires ControlFree(p)
    ensures Strip(p + rest) == p + Strip(rest)
  {
    if p == [] {
      assert p + rest == rest;
    } else {
      assert p + rest == [p[0]] + (p[1..] + rest);
      PlainUnitStays(p[0], p[1..] + rest);
      PlainStays(p[1..], rest);
      assert p == [p[0]] + p[1..];
    }
  }

  /** The two-unit escapes go. */
  lemma ShortEscapeGoes(u: Unit, rest: Text)
    requires 0x40 <= u <= 0x5F && u != 0x5B && u != 0x5D
    ensures Strip([ESC, u] + rest) == Strip(rest)
  {
    FrontGoes([ESC, u], rest);
  }

  /** A title that is never ended loses its opening only. */
  lemma OpenTitleLosesOpening(p: Text, rest: Text)
    requires TitleFree(p) && (rest == [] || (rest[0] == ESC && (|rest| == 1 || rest[1] != 0x5C)))
    ensures Strip([ESC, 0x5D] + p + rest) == Strip(p + rest)
  {
    var t := [ESC, 0x5D] + (p + rest);
    assert [ESC, 0x5D] + p + rest == t;
    assert t[2..] == p + rest;
    RunOfTitleIs(p, rest);
    assert rest != [] ==> t[2 + |p|] == ESC && (|rest| > 1 ==> t[3 + |p|] == rest[1]);
    FrontGoes([ESC, 0x5D], p + rest);
  }

  /** ESC before anything that begins no sequence stays. */
  lemma LoneEscapeStays(rest: Text)
    requires rest == [] || !(0x40 <= rest[0] <= 0x5F)
    ensures Strip([ESC] + rest) == [ESC] + Strip(rest)
  {
    FrontStays(ESC, rest);
  }

  // ---------------------------------------------------------------------------------------------
  // The longest prefix and suffix of whole characters that fit
  // ---------------------------------------------------------------------------------------------

  /** How many units of `t` to keep so that whole characters fill at most `cap` bytes. */
  function HeadFit(t: Text, cap: nat): (i: nat)
    ensures i <= |t|
  {
    if t == [] || |EncodeScalar(FirstScalar(t))| > cap then 0
    else Width(t) + HeadFit(t[Width(t)..], cap - |EncodeScalar(FirstScalar(t))|)
  }

  /** How many units of `t` to drop so that the whole characters left fill at most `cap` bytes. */
  function TailCut(t: Text, cap: nat): (i: nat)
    ensures i <= |t|
  {
    if ByteLength(t) <= cap then 0 else Width(t) + TailCut(t[Width(t)..], cap)
  }

  /** A prefix past the first character is that character and a prefix of the rest. */
  lemma {:induction false} PrefixSize(t: Text, j: nat)
    requires t != [] && Boundary(t, j) && j > 0
    ensures Width(t) <= j && Boundary(t[Width(t)..], j - Width(t))
    ensures ByteLength(t[..j]) == |EncodeScalar(FirstScalar(t))| + ByteLength(t[Width(t)..][..j - Width(t)])
  {
    BoundaryPastWidth(t, j);
    var p := t[..j];
    assert Width(p) == Width(t) && FirstScalar(p) == FirstScalar(t);
    assert p[Width(t)..] == t[Width(t)..][..j - Width(t)];
    assert Encode(p) == EncodeScalar(FirstScalar(p)) + Encode(p[Width(p)..]);
  }

  lemma {:induction false} HeadFitLongest(t: Text, cap: nat)
    ensures Boundary(t, HeadFit(t, cap))
    ensures ByteLength(t[..HeadFit(t, cap)]) <= cap
    ensures forall j: nat :: HeadFit(t, cap) < j && Boundary(t, j) ==> ByteLength(t[..j]) > cap
    decreases |t|
  {
    hide Encode, EncodeScalar, FirstScalar, SplitsPair;
    if t != [] {
      var n, size := Width(t), |EncodeScalar(FirstScalar(t))|;
      if size <= cap {
        HeadFitLongest(t[n..], cap - size);
        BoundaryShift(t, HeadFit(t[n..], cap - size));
        PrefixSize(t, HeadFit(t, cap));
      } else {
        BoundaryAtStart(t);
      }
      forall j: nat | HeadFit(t, cap) < j && Boundary(t, j)
        ensures ByteLength(t[..j]) > cap
      {
        PrefixSize(t, j);
      }
    } else {
      BoundaryAtStart(t);
    }
  }

  lemma BoundaryAtStart(t: Text)
    ensures Boundary(t, 0) && ByteLength(t[..0]) == 0
  {
  }

  lemma {:induction false} TailCutLongest(t: Text, cap: nat)
    ensures Boundary(t, TailCut(t, cap))
    ensures ByteLength(t[TailCut(t, cap)..]) <= cap
    ensures forall j: nat :: j < TailCut(t, cap) && Boundary(t, j) ==> ByteLength(t[j..]) > cap
    decreases |t|
  {
    if ByteLength(t) <= cap {
      assert t[0..] == t;
    } else {
      var n := Width(t);
      var rest := t[n..];
      TailCutLongest(rest, cap);
      var i := TailCut(rest, cap);
      BoundaryShift(t, i);
      assert t[n + i..] == rest[i..];
      forall j: nat | j < n + i && Boundary(t, j)
        ensures ByteLength(t[j..]) > cap
      {
        if j == 0 {
          assert t[0..] == t;
        } else {
          BoundaryPastWidth(t, j);
          assert t[j..] == rest[j - n..];
        }
      }
    }
  }

  // ---------------------------------------------------------------------------------------------
  // capHead
  // ---------------------------------------------------------------------------------------------

  /** The first `cap` bytes in whole characters. Text that is cut goes through the decoder, which drops a leading byte order mark. */
  function Headed(text: Text, cap: nat): CappedText
  {
    if ByteLength(text) <= cap then CappedText(text, false, ByteLength(text))
    else CappedText(WithoutMark(Repaired(text[..HeadFit(text, cap)])), true, ByteLength(text))
  }

  /** The byte at a boundary before the end starts a character. */
  lemma BoundaryByte(t: Text, i: nat)
    requires Boundary(t, i) && i < |t|
    ensures ByteLength(t[..i]) < ByteLength(t)
    ensures !IsContinuation(Encode(t)[ByteLength(t[..i])])
  {
    BoundaryParts(t, i);
    ScalarBytes(FirstScalar(t[i..]));
  }

  /** The last character start at or before `cap` is where the longest fitting prefix ends. */
  lemma LastStart(t: Text, cap: nat, end: nat)
    requires end <= cap < ByteLength(t)
    requires end == 0 || !IsContinuation(Encode(t)[end])
    requires forall p :: end < p <= cap ==> IsContinuation(Encode(t)[p])
    ensures end == ByteLength(t[..HeadFit(t, cap)])
    ensures Encode(t)[..end] == Encode(t[..HeadFit(t, cap)])
  {
    var i := HeadFit(t, cap);
    HeadFitLongest(t, cap);
    assert t[..|t|] == t;
    BoundaryByte(t, i);
    ScalarBytes(FirstScalar(t));
    var k := CharacterStart(t, end);
    assert k <= i;
    ByteLengthMonotone(t, k, i);
    BoundaryParts(t, i);
  }

  method CapHead(text: Text, cap: nat) returns (r: CappedText)
    ensures r == Headed(text, cap)
  {
    var encoded := Encode(text);
    var bytes := |encoded|;
    if bytes <= cap {
      return CappedText(text, false, bytes);
    }
    var end := cap;
    while end > 0 && IsContinuation(encoded[end])
      invariant 0 <= end <= cap
      invariant forall p :: end < p <= cap ==> IsContinuation(encoded[p])
    {
      end := end - 1;
    }
    LastStart(text, cap, end);
    DecodeEncode(text[..HeadFit(text, cap)]);
    r := CappedText(Decode(encoded[..end]), true, bytes);
  }

  /** `capHead` returns a prefix of a well-formed text, less the byte order mark a cut text loses, within the cap. */
  lemma HeadedIsPrefix(text: Text, cap: nat)
    requires WellFormed(text)
    ensures Headed(text, cap).truncated <==> ByteLength(text) > cap
    ensures Headed(text, cap).text <= text || (Headed(text, cap).truncated && text[0] == BYTE_ORDER_MARK && Headed(text, cap).text <= text[1..])
    ensures ByteLength(Headed(text, cap).text) <= cap
  {
    if ByteLength(text) > cap {
      var kept := text[..HeadFit(text, cap)];
      HeadFitLongest(text, cap);
      WellFormedParts(text, HeadFit(text, cap));
      WithoutMarkShorter(kept);
    }
  }

  lemma WithoutMarkShorter(t: Text)
    ensures ByteLength(WithoutMark(t)) <= ByteLength(t)
  {
    if WithoutMark(t) != t {
      assert t == [t[0]] + t[1..];
      ByteLengthConcat([t[0]], t[1..]);
    }
  }

  // ---------------------------------------------------------------------------------------------
  // capTail
  // ---------------------------------------------------------------------------------------------

  /** `indexOf`: the first position of `u` in `t`, or -1. */
  function IndexOf(t: Text, u: Unit): (i: int)
    ensures -1 <= i < |t|
    ensures i >= 0 ==> t[i] == u && forall j :: 0 <= j < i ==> t[j] != u
    ensures i < 0 ==> forall j :: 0 <= j < |t| ==> t[j] != u
  {
    if t == [] then -1
    else if t[0] == u then 0
    else
      var k := IndexOf(t[1..], u);
      assert forall j :: 1 <= j < |t| ==> t[j] == t[1..][j - 1];
      if k < 0 then -1 else k + 1
  }

  /** The text after its first newline, unless that newline is missing or ends the text. */
  function FromNextLine(tail: Text): Text
  {
    var newline := IndexOf(tail, NEWLINE);
    if newline != -1 && newline < |tail| - 1 then tail[newline + 1..] else tail
  }

  /** The last `cap` bytes in whole characters, as the decoder gives them: a byte order mark at their front is dropped. */
  function CutTail(t: Text, cap: nat): Text { WithoutMark(Repaired(t[TailCut(t, cap)..])) }

  predicate CutAtLine(t: Text, cap: nat)
  {
    TailCut(t, cap) > 0 && t[TailCut(t, cap) - 1] == NEWLINE
  }

  /** What `capTail` keeps of text that needs no stripping. */
  function Kept(t: Text, cap: nat): Text
  {
    if ByteLength(t) <= cap then t
    else if CutAtLine(t, cap) then CutTail(t, cap)
    else FromNextLine(CutTail(t, cap))
  }

  function Tailed(text: Text, cap: nat): CappedText
  {
    var clean := Strip(text);
    CappedText(Kept(clean, cap), ByteLength(clean) > cap, ByteLength(clean))
  }

  /** The first character start at or after the cut is where the longest fitting suffix begins. */
  lemma FirstStart(t: Text, cap: nat, start: nat)
    requires ByteLength(t) > cap && ByteLength(t) - cap <= start <= ByteLength(t)
    requires start == ByteLength(t) || !IsContinuation(Encode(t)[start])
    requires forall p :: ByteLength(t) - cap <= p < start ==> IsContinuation(Encode(t)[p])
    ensures TailCut(t, cap) > 0 && Boundary(t, TailCut(t, cap))
    ensures start == ByteLength(t[..TailCut(t, cap)])
    ensures Encode(t)[start..] == Encode(t[TailCut(t, cap)..])
  {
    var i := TailCut(t, cap);
    TailCutLongest(t, cap);
    assert t[0..] == t;
    BoundaryParts(t, i);
    if i < |t| {
      BoundaryByte(t, i);
    } else {
      assert t[..i] == t;
    }
    var k := CharacterStart(t, start);
    BoundaryParts(t, k);
    assert i <= k;
    ByteLengthMonotone(t, i, k);
  }

  /** The bytes from the first character start decode to the cut text, and the byte before them tells whether the cut is at a line start. */
  lemma CutBytes(t: Text, cap: nat, start: nat)
    requires ByteLength(t) > cap && ByteLength(t) - cap <= start <= ByteLength(t)
    requires start == ByteLength(t) || !IsContinuation(Encode(t)[start])
    requires forall p :: ByteLength(t) - cap <= p < start ==> IsContinuation(Encode(t)[p])
    ensures start > 0 && Decode(Encode(t)[start..]) == CutTail(t, cap)
    ensures Encode(t)[start - 1] == NEWLINE <==> CutAtLine(t, cap)
  {
    hide Encode, Repaired, TailCut, DecodeAll;
    FirstStart(t, cap, start);
    ByteBefore(t, TailCut(t, cap));
    DecodeEncode(t[TailCut(t, cap)..]);
  }

  method CapTail(text: Text, cap: nat) returns (r: CappedText)
    ensures r == Tailed(text, cap)
  {
    hide Encode, Repaired, TailCut, DecodeAll, IndexOf, WithoutControls, WithoutNul;
    var clean := Strip(text);
    var encoded := Encode(clean);
    var bytes := |encoded|;
    if bytes <= cap {
      return CappedText(clean, false, bytes);
    }
    var start := bytes - cap;
    while start < bytes && IsContinuation(encoded[start])
      invariant bytes - cap <= start <= bytes
      invariant forall p :: bytes - cap <= p < start ==> IsContinuation(encoded[p])
    {
      start := start + 1;
    }
    CutBytes(clean, cap, start);
    var tail := Decode(encoded[start..]);
    if encoded[start - 1] != NEWLINE {
      var newline := IndexOf(tail, NEWLINE);
      if newline != -1 && newline < |tail| - 1 {
        tail := tail[newline + 1..];
      }
    }
    r := CappedText(tail, true, bytes);
  }

  /** `whole` ends with `part`. */
  predicate Suffix(part: Text, whole: Text)
  {
    |part| <= |whole| && whole[|whole| - |part|..] == part
  }

  lemma SuffixTransitive(a: Text, b: Text, c: Text)
    requires Suffix(a, b) && Suffix(b, c)
    ensures Suffix(a, c)
  {
    assert c[|c| - |a|..] == c[|c| - |b|..][|b| - |a|..];
  }

  /** Dropping the units up to one that is no high surrogate leaves a shorter, well-formed text. */
  lemma DropFront(t: Text, n: nat)
    requires n <= |t| && (n == 0 || !IsHigh(t[n - 1]))
    ensures ByteLength(t[n..]) <= ByteLength(t)
    ensures WellFormed(t) ==> WellFormed(t[n..])
    ensures Suffix(t[n..], t)
  {
    assert t[0..] == t;
    SuffixMonotone(t, 0, n);
    WellFormedParts(t, n);
  }

  /** Position `at` starts a line of `t`, or follows a byte order mark that starts one. */
  predicate AtLineStart(t: Text, at: nat)
    requires at <= |t|
  {
    at == 0 || t[at - 1] == NEWLINE || (t[at - 1] == BYTE_ORDER_MARK && (at == 1 || t[at - 2] == NEWLINE))
  }

  lemma FromNextLineIsSuffix(tail: Text)
    requires WellFormed(tail)
    ensures Suffix(FromNextLine(tail), tail) && WellFormed(FromNextLine(tail))
    ensures ByteLength(FromNextLine(tail)) <= ByteLength(tail)
    ensures FromNextLine(tail) == tail ==> tail == [] || NEWLINE !in tail[..|tail| - 1]
    ensures FromNextLine(tail) != tail ==> tail[|tail| - |FromNextLine(tail)| - 1] == NEWLINE
  {
    var newline := IndexOf(tail, NEWLINE);
    if newline != -1 && newline < |tail| - 1 {
      DropFront(tail, newline + 1);
    } else {
      assert tail[0..] == tail;
    }
  }

  lemma UnmarkedIsSuffix(raw: Text)
    requires WellFormed(raw)
    ensures var tail := WithoutMark(raw);
            WellFormed(tail) && ByteLength(tail) <= ByteLength(raw) && Suffix(tail, raw)
  {
    hide Encode, Repaired;
    if raw != [] && raw[0] == BYTE_ORDER_MARK {
      DropFront(raw, 1);
    } else {
      assert raw[0..] == raw;
    }
  }

  /** What the decoder gives for the cut: a well-formed suffix within the cap, from the cut or from just after a byte order mark there. */
  lemma CutTailIsSuffix(t: Text, cap: nat)
    requires WellFormed(t) && ByteLength(t) > cap
    ensures 0 < TailCut(t, cap)
    ensures CutTail(t, cap) == WithoutMark(t[TailCut(t, cap)..])
    ensures WellFormed(CutTail(t, cap)) && ByteLength(CutTail(t, cap)) <= cap && Suffix(CutTail(t, cap), t)
  {
    var i := TailCut(t, cap);
    assert i > 0;
    hide Encode, Repaired, TailCut;
    TailCutLongest(t, cap);
    WellFormedParts(t, i);
    UnmarkedIsSuffix(t[i..]);
    assert Suffix(t[i..], t);
    SuffixTransitive(CutTail(t, cap), t[i..], t);
  }

  /** What is kept never exceeds the cap, whatever the text. */
  lemma KeptFits(t: Text, cap: nat)
    ensures ByteLength(Kept(t, cap)) <= cap
  {
    hide Encode, Repaired, TailCut, FromNextLine, WithoutMark;
    if ByteLength(t) > cap {
      var cut := t[TailCut(t, cap)..];
      TailCutLongest(t, cap);
      EncodeRepaired(cut);
      RepairedIsWellFormed(cut);
      UnmarkedIsSuffix(Repaired(cut));
      FromNextLineIsSuffix(CutTail(t, cap));
    }
  }

  /** What is kept of a well-formed text is a well-formed suffix of it. */
  lemma KeptIsSuffix(t: Text, cap: nat)
    requires WellFormed(t)
    ensures Suffix(Kept(t, cap), t) && WellFormed(Kept(t, cap))
  {
    hide Encode, Repaired, TailCut, CutTail, FromNextLine, Suffix;
    if ByteLength(t) > cap {
      CutTailIsSuffix(t, cap);
      FromNextLineIsSuffix(CutTail(t, cap));
      SuffixTransitive(FromNextLine(CutTail(t, cap)), CutTail(t, cap), t);
    } else {
      WholeIsSuffix(t);
    }
  }

  lemma WholeIsSuffix(t: Text)
    ensures Suffix(t, t)
  {
    assert t[0..] == t;
  }

  /** The kept text starts a line of the whole whenever it holds more than one line. */
  lemma KeptStartsLine(t: Text, cap: nat)
    requires WellFormed(t)
    ensures |Kept(t, cap)| <= |t|
    ensures AtLineStart(t, |t| - |Kept(t, cap)|) || Kept(t, cap) == [] || NEWLINE !in Kept(t, cap)[..|Kept(t, cap)| - 1]
  {
    hide Encode, Repaired, TailCut, CutTail, FromNextLine;
    if ByteLength(t) > cap {
      var tail := CutTail(t, cap);
      CutTailIsSuffix(t, cap);
      if !CutAtLine(t, cap) {
        var kept := FromNextLine(tail);
        FromNextLineIsSuffix(tail);
        if kept != tail {
          assert t[|t| - |kept| - 1] == tail[|tail| - |kept| - 1];
        }
      }
    }
  }

  /**
   * Nothing that fits from a line start is lost: what is kept reaches at least as far back as every suffix that starts a
   * line and fits. (Of a text that is cut, unless the cut falls behind the last character or before a byte order mark.)
   */
  lemma KeptIsLongestFromLine(t: Text, cap: nat, j: nat)
    requires WellFormed(t) && j < |t| && (j == 0 || t[j - 1] == NEWLINE) && ByteLength(t[j..]) <= cap
    requires ByteLength(t) > cap ==> TailCut(t, cap) < |t| && t[TailCut(t, cap)] != BYTE_ORDER_MARK
    ensures |t| - |Kept(t, cap)| <= j
  {
    hide *;
    if ByteLength(t) > cap {
      var i := TailCut(t, cap);
      TailCutLongest(t, cap);
      LineIsBoundary(t, j);
      PlainCut(t, cap);
      if !CutAtLine(t, cap) {
        assert t[i..][j - 1 - i] == t[j - 1];
        NextLineReaches(t[i..], j - 1 - i);
      }
    } else {
      AllKept(t, cap);
    }
  }

  lemma AllKept(t: Text, cap: nat)
    requires ByteLength(t) <= cap
    ensures Kept(t, cap) == t
  {
  }

  lemma PlainCut(t: Text, cap: nat)
    requires WellFormed(t) && ByteLength(t) > cap && TailCut(t, cap) < |t| && t[TailCut(t, cap)] != BYTE_ORDER_MARK
    ensures var i := TailCut(t, cap);
            && 0 < i && (CutAtLine(t, cap) <==> t[i - 1] == NEWLINE)
            && Kept(t, cap) == if CutAtLine(t, cap) then t[i..] else FromNextLine(t[i..])
  {
    CutTailIsSuffix(t, cap);
    hide Encode, Repaired, TailCut, CutTail, WellFormed, FromNextLine;
  }

  lemma LineIsBoundary(t: Text, j: nat)
    requires j <= |t| && (j == 0 || t[j - 1] == NEWLINE)
    ensures Boundary(t, j)
  {
  }

  /** Looking for the next line start goes no further than any newline before the last unit. */
  lemma NextLineReaches(tail: Text, m: nat)
    requires m + 1 < |tail| && tail[m] == NEWLINE
    ensures |tail| - |FromNextLine(tail)| <= m + 1
  {
  }
}
