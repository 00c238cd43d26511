/**
 * JavaScript text as UTF-16 code units, and the UTF-8 bytes `TextEncoder` and `TextDecoder` give for it
 * (RFC 3629 section 3; surrogate pairs as in RFC 2781 section 2). A surrogate without its partner is legal in a
 * JavaScript string: the encoder writes U+FFFD for it.
 */
module Utf16 {
  type Unit = u: int | 0 <= u < 0x1_0000
  type Byte = b: int | 0 <= b < 0x100
  type ScalarValue = c: int | 0 <= c < 0x11_0000
  type Text = seq<Unit>

  const NEWLINE: Unit := 0x0A
  const REPLACEMENT: Unit := 0xFFFD
  const BYTE_ORDER_MARK: Unit := 0xFEFF

  predicate IsHigh(u: Unit) { 0xD800 <= u <= 0xDBFF }

  predicate IsLow(u: Unit) { 0xDC00 <= u <= 0xDFFF }

  predicate StartsLow(t: Text) { t != [] && IsLow(t[0]) }

  predicate EndsHigh(t: Text) { t != [] && IsHigh(t[|t| - 1]) }

  /** A surrogate pair would be cut in two between `a` and `b`. */
  predicate SplitsPair(a: Text, b: Text) { EndsHigh(a) && StartsLow(b) }

  /** `i` is a position between whole characters of `t`. */
  predicate Boundary(t: Text, i: nat)
  {
    i <= |t| && !SplitsPair(t[..i], t[i..])
  }

  /** The number of units the first character of `t` takes. */
  function Width(t: Text): (n: nat)
    requires t != []
    ensures 1 <= n <= |t|
  {
    if |t| > 1 && IsHigh(t[0]) && IsLow(t[1]) then 2 else 1
  }

  /** The first character of `t` as the encoder reads it. */
  function FirstScalar(t: Text): ScalarValue
    requires t != []
  {
    if Width(t) == 2 then 0x1_0000 + (t[0] - 0xD800) * 0x400 + (t[1] - 0xDC00)
    else if IsHigh(t[0]) || IsLow(t[0]) then REPLACEMENT
    else t[0]
  }

  function EncodeScalar(c: ScalarValue): (b: seq<Byte>)
    ensures 1 <= |b| <= 4
  {
    if c < 0x80 then [c]
    else if c < 0x800 then [0xC0 + c / 64, 0x80 + c % 64]
    else if c < 0x1_0000 then [0xE0 + c / 4096, 0x80 + c / 64 % 64, 0x80 + c % 64]
    else [0xF0 + c / 262144, 0x80 + c / 4096 % 64, 0x80 + c / 64 % 64, 0x80 + c % 64]
  }

  function Encode(t: Text): seq<Byte>
  {
    if t == [] then [] else EncodeScalar(FirstScalar(t)) + Encode(t[Width(t)..])
  }

  function ByteLength(t: Text): nat { |Encode(t)| }

  /** `(b & 0xc0) === 0x80`: not the first byte of a character. */
  predicate IsContinuation(b: Byte) { b / 64 == 2 }

  function Low6(b: Byte): (r: int)
    ensures 0 <= r < 64
  {
    b % 64
  }

  function FromScalar(c: ScalarValue): Text
  {
    if c < 0x1_0000 then [c] else [0xD800 + (c - 0x1_0000) / 0x400, 0xDC00 + (c - 0x1_0000) % 0x400]
  }

  /**
   * The first character of a byte string and the bytes it takes. Bytes that start no character give U+FFFD; the callers
   * only pass the bytes of whole characters.
   */
  function FirstEncoded(b: seq<Byte>): (r: (ScalarValue, nat))
    requires b != []
    ensures 1 <= r.1 <= |b|
  {
    var b0: int := b[0];
    if b0 < 0x80 then (b0, 1)
    else if 0xC0 <= b0 < 0xE0 && |b| > 1 then ((b0 - 0xC0) * 64 + Low6(b[1]), 2)
    else if 0xE0 <= b0 < 0xF0 && |b| > 2 then ((b0 - 0xE0) * 4096 + Low6(b[1]) * 64 + Low6(b[2]), 3)
    else if 0xF0 <= b0 <= 0xF4 && |b| > 3 && (b0 == 0xF4 ==> Low6(b[1]) < 16) then
      ((b0 - 0xF0) * 262144 + Low6(b[1]) * 4096 + Low6(b[2]) * 64 + Low6(b[3]), 4)
    else (REPLACEMENT, 1)
  }

  function DecodeAll(b: seq<Byte>): Text
  {
    if b == [] then [] else FromScalar(FirstEncoded(b).0) + DecodeAll(b[FirstEncoded(b).1..])
  }

  /** `TextDecoder` with its default options drops one leading byte order mark. */
  function WithoutMark(t: Text): Text
  {
    if t != [] && t[0] == BYTE_ORDER_MARK then t[1..] else t
  }

  function Decode(b: seq<Byte>): Text { WithoutMark(DecodeAll(b)) }

  /** Text with every surrogate that has no partner replaced (`String.prototype.toWellFormed`). */
  function Repaired(t: Text): (r: Text)
    ensures |r| == |t|
  {
    if t == [] then []
    else if Width(t) == 2 then t[..2] + Repaired(t[2..])
    else [FirstScalar(t)] + Repaired(t[1..])
  }

  predicate WellFormed(t: Text) { Repaired(t) == t }

  /** The bytes one unit adds when it does not complete a pair. */
  function UnitBytes(u: Unit): nat
  {
    if u < 0x80 then 1 else if u < 0x800 then 2 else 3
  }

  // ---------------------------------------------------------------------------------------------
  // Concatenation
  // ---------------------------------------------------------------------------------------------

  /** What follows does not change the first character, unless it completes a pair. */
  lemma FirstOfConcat(a: Text, b: Text)
    requires a != [] && !SplitsPair(a, b)
    ensures Width(a + b) == Width(a) && FirstScalar(a + b) == FirstScalar(a)
    ensures (a + b)[Width(a)..] == a[Width(a)..] + b
    ensures !SplitsPair(a[Width(a)..], b)
  {
  }

  /** Encoding is compositional wherever no pair is split. */
  lemma {:induction false} EncodeConcat(a: Text, b: Text)
    requires !SplitsPair(a, b)
    ensures Encode(a + b) == Encode(a) + Encode(b)
    decreases |a|
  {
    hide EncodeScalar, FirstScalar, SplitsPair;
    if a == [] {
      assert a + b == b;
    } else {
      FirstOfConcat(a, b);
      EncodeConcat(a[Width(a)..], b);
    }
  }

  lemma EncodeUnit(u: Unit)
    ensures Encode([u]) == EncodeScalar(FirstScalar([u]))
    ensures ByteLength([u]) == UnitBytes(u)
  {
    assert [u][1..] == [];
    assert Encode([u][1..]) == [];
  }

  lemma EncodePair(h: Unit, l: Unit)
    requires IsHigh(h) && IsLow(l)
    ensures Encode([h, l]) == EncodeScalar(FirstScalar([h, l]))
    ensures ByteLength([h, l]) == 4
  {
    assert [h, l][2..] == [];
    assert Encode([h, l][2..]) == [];
  }

  /** What one more unit at the end adds: a low surrogate that completes a pair adds one byte, since its partner's three became four. */
  lemma ByteLengthSnoc(a: Text, u: Unit)
    ensures ByteLength(a + [u]) == ByteLength(a) + (if EndsHigh(a) && IsLow(u) then 1 else UnitBytes(u))
  {
    if EndsHigh(a) && IsLow(u) {
      var init, h := a[..|a| - 1], a[|a| - 1];
      assert a == init + [h];
      assert a + [u] == init + [h, u];
      EncodeConcat(init, [h]);
      EncodeConcat(init, [h, u]);
      EncodeUnit(h);
      EncodePair(h, u);
    } else {
      EncodeConcat(a, [u]);
      EncodeUnit(u);
    }
  }

  /** Byte lengths add up, except that joining the halves of a pair saves two bytes. */
  lemma {:induction false} ByteLengthConcat(a: Text, b: Text)
    ensures ByteLength(a + b) == ByteLength(a) + ByteLength(b) - (if SplitsPair(a, b) then 2 else 0)
    decreases |b|
  {
    if b == [] {
      assert a + b == a;
    } else {
      var init, u := b[..|b| - 1], b[|b| - 1];
      assert b == init + [u];
      assert a + b == (a + init) + [u];
      ByteLengthConcat(a, init);
      ByteLengthSnoc(a + init, u);
      ByteLengthSnoc(init, u);
      if init == [] {
        assert a + init == a;
      }
    }
  }

  /** A prefix never encodes longer than the whole, even when it ends inside a pair. */
  lemma ByteLengthMonotone(t: Text, i: nat, j: nat)
    requires i <= j <= |t|
    ensures ByteLength(t[..i]) <= ByteLength(t[..j])
    ensures i < j ==> ByteLength(t[..i]) < ByteLength(t[..j])
    decreases j - i
  {
    if i < j {
      assert t[..j] == t[..j - 1] + [t[j - 1]];
      ByteLengthSnoc(t[..j - 1], t[j - 1]);
      ByteLengthMonotone(t, i, j - 1);
    }
  }

  /** A suffix that starts at a boundary never encodes longer than a longer one. */
  lemma SuffixMonotone(t: Text, i: nat, j: nat)
    requires i <= j <= |t| && Boundary(t, j)
    ensures ByteLength(t[j..]) <= ByteLength(t[i..])
    ensures i < j ==> ByteLength(t[j..]) < ByteLength(t[i..])
  {
    assert t[i..] == t[i..j] + t[j..];
    if i < j {
      assert t[..j][j - 1] == t[i..j][j - i - 1];
      ByteLengthConcat(t[i..j], t[j..]);
      assert t[i..j] != [];
      assert |Encode(t[i..j])| >= 1;
    }
  }

  lemma BoundaryParts(t: Text, i: nat)
    requires Boundary(t, i)
    ensures Encode(t) == Encode(t[..i]) + Encode(t[i..])
    ensures ByteLength(t) == ByteLength(t[..i]) + ByteLength(t[i..])
  {
    assert t == t[..i] + t[i..];
    EncodeConcat(t[..i], t[i..]);
  }

  // ---------------------------------------------------------------------------------------------
  // Character starts in the bytes
  // ---------------------------------------------------------------------------------------------

  /** The first byte of a character is not a continuation byte, and the others are. */
  lemma ScalarBytes(c: ScalarValue)
    ensures !IsContinuation(EncodeScalar(c)[0])
    ensures forall k :: 0 < k < |EncodeScalar(c)| ==> IsContinuation(EncodeScalar(c)[k])
    ensures c != NEWLINE ==> EncodeScalar(c)[|EncodeScalar(c)| - 1] != NEWLINE
  {
  }

  /** A boundary of the text after the first character is a boundary of the whole. */
  lemma BoundaryShift(t: Text, j: nat)
    requires t != [] && Boundary(t[Width(t)..], j)
    ensures Boundary(t, Width(t) + j)
  {
    var n, i := Width(t), Width(t) + j;
    assert t[..i][i - 1] == t[i - 1];
    if i < |t| {
      assert t[i..][0] == t[i] && t[n..][j..][0] == t[i];
      if j > 0 {
        assert t[n..][..j][j - 1] == t[i - 1];
      }
    }
  }

  /** A boundary past the start is past the first character. */
  lemma BoundaryPastWidth(t: Text, i: nat)
    requires t != [] && Boundary(t, i) && i > 0
    ensures Width(t) <= i && Boundary(t[Width(t)..], i - Width(t))
  {
    assert t[..i][i - 1] == t[i - 1];
    if i < |t| {
      assert t[i..][0] == t[i];
      var rest := t[Width(t)..];
      if i > Width(t) {
        assert rest[..i - Width(t)][i - Width(t) - 1] == t[i - 1];
        assert rest[i - Width(t)..][0] == t[i];
      }
    }
  }

  /** Every byte position that is not a continuation byte is the start of a character of the text. */
  lemma {:induction false} CharacterStart(t: Text, p: nat) returns (i: nat)
    requires p <= ByteLength(t)
    requires p == ByteLength(t) || !IsContinuation(Encode(t)[p])
    ensures Boundary(t, i)
    ensures ByteLength(t[..i]) == p
    decreases |t|
  {
    if p == 0 {
      i := 0;
    } else {
      var n, head := Width(t), EncodeScalar(FirstScalar(t));
      var rest := t[n..];
      ScalarBytes(FirstScalar(t));
      assert Encode(t) == head + Encode(rest);
      assert p >= |head|;
      if p < ByteLength(t) {
        assert Encode(t)[p] == Encode(rest)[p - |head|];
      }
      var j := CharacterStart(rest, p - |head|);
      i := n + j;
      BoundaryShift(t, j);
      BoundaryParts(t, i);
      BoundaryParts(rest, j);
      assert t[i..] == rest[j..];
    }
  }

  /** The last byte of a text is a newline exactly when its last unit is. */
  lemma {:induction false} LastByte(t: Text)
    requires t != []
    ensures Encode(t) != []
    ensures Encode(t)[ByteLength(t) - 1] == NEWLINE <==> t[|t| - 1] == NEWLINE
    decreases |t|
  {
    var n, head := Width(t), EncodeScalar(FirstScalar(t));
    ScalarBytes(FirstScalar(t));
    var rest := t[n..];
    assert Encode(t) == head + Encode(rest);
    if rest != [] {
      LastByte(rest);
    } else {
      assert Encode(t) == head;
    }
  }

  /** The byte just before a boundary is a newline exactly when the unit just before it is. */
  lemma ByteBefore(t: Text, i: nat)
    requires Boundary(t, i) && i > 0
    ensures 0 < ByteLength(t[..i]) <= ByteLength(t)
    ensures Encode(t)[ByteLength(t[..i]) - 1] == NEWLINE <==> t[i - 1] == NEWLINE
  {
    hide Encode;
    BoundaryParts(t, i);
    LastByte(t[..i]);
  }

  // ---------------------------------------------------------------------------------------------
  // Decoding what was encoded
  // ---------------------------------------------------------------------------------------------

  lemma SixBitGroups(c: ScalarValue)
    ensures c / 64 * 64 + c % 64 == c
    ensures c / 4096 * 4096 + c / 64 % 64 * 64 + c % 64 == c
    ensures c / 262144 * 262144 + c / 4096 % 64 * 4096 + c / 64 % 64 * 64 + c % 64 == c
  {
    assert c / 64 == c / 4096 * 64 + c / 64 % 64;
    assert c / 4096 == c / 262144 * 64 + c / 4096 % 64;
  }

  lemma FirstOfEncoded(c: ScalarValue, rest: seq<Byte>)
    ensures FirstEncoded(EncodeScalar(c) + rest) == (c, |EncodeScalar(c)|)
  {
    var e := EncodeScalar(c);
    SixBitGroups(c);
    assert forall k :: 0 <= k < |e| ==> (e + rest)[k] == e[k];
    if c >= 0x1_0000 {
      assert e[0] == 0xF0 + c / 262144;
      assert Low6(e[1]) == c / 4096 % 64 && Low6(e[2]) == c / 64 % 64 && Low6(e[3]) == c % 64;
    } else if c >= 0x800 {
      assert Low6(e[1]) == c / 64 % 64 && Low6(e[2]) == c % 64;
    } else if c >= 0x80 {
      assert Low6(e[1]) == c % 64;
    }
  }

  /** Decoding the bytes of any text gives it back with unpaired surrogates replaced. */
  lemma {:induction false} DecodeEncode(t: Text)
    ensures DecodeAll(Encode(t)) == Repaired(t)
    decreases |t|
  {
    if t != [] {
      var c, rest := FirstScalar(t), t[Width(t)..];
      FirstOfEncoded(c, Encode(rest));
      assert Encode(t)[|EncodeScalar(c)|..] == Encode(rest);
      DecodeEncode(rest);
      if Width(t) == 2 {
        assert FromScalar(c) == t[..2];
      }
    }
  }

  lemma {:induction false} RepairedConcat(a: Text, b: Text)
    requires !SplitsPair(a, b)
    ensures Repaired(a + b) == Repaired(a) + Repaired(b)
    decreases |a|
  {
    if a == [] {
      assert a + b == b;
    } else {
      FirstOfConcat(a, b);
      assert Width(a) == 2 ==> (a + b)[..2] == a[..2];
      RepairedConcat(a[Width(a)..], b);
    }
  }

  /** Both parts of a well-formed text cut at a boundary are well-formed. */
  lemma WellFormedParts(t: Text, i: nat)
    requires Boundary(t, i)
    ensures Repaired(t) == Repaired(t[..i]) + Repaired(t[i..])
    ensures WellFormed(t) ==> WellFormed(t[..i]) && WellFormed(t[i..])
  {
    assert t == t[..i] + t[i..];
    RepairedConcat(t[..i], t[i..]);
    if WellFormed(t) {
      assert Repaired(t)[..i] == Repaired(t[..i]) && Repaired(t)[i..] == Repaired(t[i..]);
    }
  }

  /** Replacing unpaired surrogates changes no encoded byte. */
  lemma {:induction false} EncodeRepaired(t: Text)
    ensures Encode(Repaired(t)) == Encode(t)
    decreases |t|
  {
    if t != [] {
      var n := Width(t);
      var head := if n == 2 then t[..2] else [FirstScalar(t)];
      EncodeRepaired(t[n..]);
      assert Repaired(t) == head + Repaired(t[n..]);
      assert !EndsHigh(head);
      EncodeConcat(head, Repaired(t[n..]));
      if n == 2 { EncodePair(t[0], t[1]); assert head == [t[0], t[1]]; } else { EncodeUnit(head[0]); }
    }
  }

  /** The repaired text decodes to itself, so repairing it again changes nothing. */
  lemma RepairedIsWellFormed(t: Text)
    ensures WellFormed(Repaired(t))
  {
    EncodeRepaired(t);
    DecodeEncode(t);
    DecodeEncode(Repaired(t));
  }

  /** Text of one byte a unit. */
  predicate SingleByte(t: Text) { forall i :: 0 <= i < |t| ==> t[i] < 0x80 }

  lemma {:induction false} SingleByteLength(t: Text)
    requires SingleByte(t)
    ensures ByteLength(t) == |t| && Repaired(t) == t
  {
    if t != [] {
      var rest := t[1..];
      assert Width(t) == 1 && FirstScalar(t) == t[0] && |EncodeScalar(t[0])| == 1;
      assert Encode(t) == EncodeScalar(t[0]) + Encode(rest);
      assert Repaired(t) == [t[0]] + Repaired(rest);
      hide Encode, Repaired, EncodeScalar, FirstScalar;
      SingleByteLength(rest);
    }
  }
}
