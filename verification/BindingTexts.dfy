/**
 * What a binding's text means, however it is spelled, and which key presses it answers to on each platform
 * (src/shared/commands.ts).
 */
module BindingTexts {
  import opened Options
  import opened Strings
  import opened Bindings
  import opened Commands
  import Lines
  import Decimals
  import Sequences

  // ---------------------------------------------------------------------------------------------
  // Reading a text
  // ---------------------------------------------------------------------------------------------

  predicate Means(u: Unicode, token: string, m: ModifierName) { Modifier(u.lower(token)) == Some(m) }

  predicate IsModifier(u: Unicode, token: string) { Modifier(u.lower(token)).Some? }

  /** Some token names the modifier. */
  predicate Names(u: Unicode, tokens: seq<string>, m: ModifierName) { exists i :: 0 <= i < |tokens| && Means(u, tokens[i], m) }

  /** The token at `k` is the only one that names no modifier, and it names the key. */
  predicate KeyAt(u: Unicode, tokens: seq<string>, k: nat, key: string)
  {
    && k < |tokens| && !IsModifier(u, tokens[k]) && ParseKey(u, tokens[k]) == Some(key)
    && forall i :: 0 <= i < |tokens| && i != k ==> IsModifier(u, tokens[i])
  }

  /** The flags read are those of the modifiers named. */
  predicate FlagsAre(u: Unicode, tokens: seq<string>, r: Reading)
  {
    && (r.mod <==> Names(u, tokens, Mod)) && (r.ctrl <==> Names(u, tokens, Ctrl)) && (r.cmd <==> Names(u, tokens, Cmd))
    && (r.alt <==> Names(u, tokens, Alt)) && (r.shift <==> Names(u, tokens, Shift))
  }

  lemma NamesStep(u: Unicode, tokens: seq<string>, token: string, m: ModifierName)
    ensures Names(u, tokens + [token], m) <==> Names(u, tokens, m) || Means(u, token, m)
  {
    hide Means;
    var all := tokens + [token];
    assert all[|tokens|] == token;
    if Names(u, tokens, m) {
      var i :| 0 <= i < |tokens| && Means(u, tokens[i], m);
      assert Means(u, all[i], m);
    }
  }

  lemma FlagsStep(u: Unicode, tokens: seq<string>, token: string, r: Reading)
    requires FlagsAre(u, tokens, r)
    ensures FlagsAre(u, tokens + [token], if IsModifier(u, token) then With(r, Modifier(u.lower(token)).value) else r)
  {
    hide Names, Modifier;
    forall m: ModifierName
      ensures Names(u, tokens + [token], m) <==> Names(u, tokens, m) || Means(u, token, m)
    {
      NamesStep(u, tokens, token, m);
    }
  }

  predicate AllModifiers(u: Unicode, tokens: seq<string>) { forall i :: 0 <= i < |tokens| ==> IsModifier(u, tokens[i]) }

  /** What was read so far: only modifiers, or one key among modifiers. */
  predicate KeyIs(u: Unicode, tokens: seq<string>, key: Option<string>)
  {
    if key.None? then AllModifiers(u, tokens) else exists k: nat :: k < |tokens| && KeyAt(u, tokens, k, key.value)
  }

  lemma KeyStep(u: Unicode, tokens: seq<string>, token: string, key: Option<string>)
    requires KeyIs(u, tokens, key)
    ensures IsModifier(u, token) ==> KeyIs(u, tokens + [token], key)
    ensures !IsModifier(u, token) && key.None? && ParseKey(u, token).Some? ==> KeyIs(u, tokens + [token], ParseKey(u, token))
  {
    hide IsModifier, ParseKey;
    var all := tokens + [token];
    assert all[|tokens|] == token && forall i :: 0 <= i < |tokens| ==> all[i] == tokens[i];
    if key.Some? && IsModifier(u, token) {
      var k: nat :| k < |tokens| && KeyAt(u, tokens, k, key.value);
      assert KeyAt(u, all, k, key.value);
    }
    if !IsModifier(u, token) && key.None? && ParseKey(u, token).Some? {
      assert KeyAt(u, all, |tokens|, ParseKey(u, token).value);
    }
  }

  lemma {:induction false} ReadMeans(u: Unicode, tokens: seq<string>)
    ensures var r := ReadAll(u, tokens); r.Some? ==> FlagsAre(u, tokens, r.value) && KeyIs(u, tokens, r.value.key)
    decreases |tokens|
  {
    if tokens != [] {
      var front, token := tokens[..|tokens| - 1], tokens[|tokens| - 1];
      assert tokens == front + [token];
      ReadMeans(u, front);
      hide Modifier, ParseKey, FlagsAre, KeyIs;
      ReadStep(u, front, token);
      var before := ReadAll(u, front);
      if before.Some? {
        FlagsStep(u, front, token, before.value);
        KeyStep(u, front, token, before.value.key);
        KeyWith(u, tokens, before.value, ParseKey(u, token));
      }
    } else {
      hide Modifier, ParseKey;
    }
  }

  lemma KeyWith(u: Unicode, tokens: seq<string>, r: Reading, key: Option<string>)
    ensures forall m: ModifierName :: With(r, m).key == r.key
    ensures FlagsAre(u, tokens, r.(key := key)) <==> FlagsAre(u, tokens, r)
  {
    hide Names, Modifier;
  }

  /** Modifiers with at most one key among them are read. */
  lemma {:induction false} ReadsMeaning(u: Unicode, tokens: seq<string>, k: nat, key: string)
    requires KeyAt(u, tokens, k, key)
    ensures ReadAll(u, tokens).Some?
    decreases |tokens|
  {
    var front, token := tokens[..|tokens| - 1], tokens[|tokens| - 1];
    assert tokens == front + [token];
    hide Modifier, ParseKey;
    ReadStep(u, front, token);
    if k == |front| {
      ModifiersRead(u, front);
    } else {
      assert KeyAt(u, front, k, key);
      ReadsMeaning(u, front, k, key);
    }
  }

  lemma {:induction false} ModifiersRead(u: Unicode, tokens: seq<string>)
    requires AllModifiers(u, tokens)
    ensures ReadAll(u, tokens).Some? && ReadAll(u, tokens).value.key.None?
    decreases |tokens|
  {
    hide Modifier, ParseKey;
    if tokens != [] {
      ModifiersRead(u, tokens[..|tokens| - 1]);
    }
  }

  /**
   * A text is a binding exactly when, of its tokens between the plus signs, none is empty and all but one name a modifier,
   * and that one names a key. The binding has the key and exactly the modifiers named, in any order and however often.
   */
  lemma ParsesIff(u: Unicode, text: string)
    ensures Parse(u, text).Some? <==> [] !in Tokens(text) && exists k: nat, key :: k < |Tokens(text)| && KeyAt(u, Tokens(text), k, key)
    ensures Parse(u, text).Some? ==>
              var b := Parse(u, text).value;
              && FlagsAre(u, Tokens(text), Reading(b.mod, b.ctrl, b.cmd, b.alt, b.shift, None))
              && exists k: nat :: k < |Tokens(text)| && KeyAt(u, Tokens(text), k, b.key)
  {
    var tokens := Tokens(text);
    hide Tokens, ParseKey, Modifier, Names;
    ReadMeans(u, tokens);
    if [] !in tokens {
      if k: nat, key :| k < |tokens| && KeyAt(u, tokens, k, key) {
        ReadsMeaning(u, tokens, k, key);
        assert !AllModifiers(u, tokens);
      }
    }
  }

  /** The tokens are the pieces between plus signs without the white space around them. */
  lemma TokensAre(text: string)
    ensures var pieces := Lines.Split(text, PLUS);
            && Lines.Join(pieces, PLUS) == text && Lines.AllFree(pieces, PLUS)
            && |Tokens(text)| == |pieces| && forall i :: 0 <= i < |pieces| ==> Tokens(text)[i] == Trim(pieces[i])
  {
    Lines.JoinSplit(text, PLUS);
    Lines.SplitFree(text, PLUS);
  }

  function Before(set_: bool, name: string): string { if set_ then name + "+" else "" }

  lemma JoinOpt(set_: bool, name: string, rest: seq<string>)
    requires rest != []
    ensures Opt(set_, name) + rest != []
    ensures Lines.Join(Opt(set_, name) + rest, PLUS) == Before(set_, name) + Lines.Join(rest, PLUS)
  {
    hide Lines.Join;
    if set_ {
      Lines.JoinStep(name, rest, PLUS);
      assert [PLUS] == "+";
    } else {
      Sequences.Empty(rest);
      Sequences.Empty(Lines.Join(rest, PLUS));
    }
  }

  function KeyParts(b: Parsed): seq<string> { Opt(b.alt, "Alt") + (Opt(b.shift, "Shift") + [b.key]) }

  lemma KeySpelling(b: Parsed)
    ensures KeyParts(b) != []
    ensures Lines.Join(KeyParts(b), PLUS) == Before(b.alt, "Alt") + (Before(b.shift, "Shift") + b.key)
  {
    assert Lines.Join([b.key], PLUS) == b.key;
    hide Lines.Join, Opt, Before;
    JoinOpt(b.shift, "Shift", [b.key]);
    JoinOpt(b.alt, "Alt", Opt(b.shift, "Shift") + [b.key]);
  }

  lemma PartsAre(b: Parsed)
    ensures Parts(b) == Opt(b.mod, "CommandOrControl") + (Opt(b.ctrl, "Ctrl") + (Opt(b.cmd, "Cmd") + KeyParts(b)))
  {
    hide Opt;
    var m, c, d, a, s, k := Opt(b.mod, "CommandOrControl"), Opt(b.ctrl, "Ctrl"), Opt(b.cmd, "Cmd"), Opt(b.alt, "Alt"), Opt(b.shift, "Shift"), [b.key];
    Sequences.Assoc(m + c + d + a, s, k);
    Sequences.Assoc(m + c + d, a, s + k);
    Sequences.Assoc(m + c, d, a + (s + k));
    Sequences.Assoc(m, c, d + (a + (s + k)));
  }

  /** A binding is spelled with its modifiers in one order and under one name each, then its key. */
  lemma SpellingIs(b: Parsed)
    ensures Serialize(b)
         == Before(b.mod, "CommandOrControl") + (Before(b.ctrl, "Ctrl") + (Before(b.cmd, "Cmd")
            + (Before(b.alt, "Alt") + (Before(b.shift, "Shift") + b.key))))
  {
    PartsAre(b);
    KeySpelling(b);
    hide Lines.Join, Opt, Before, Parts, KeyParts;
    JoinOpt(b.cmd, "Cmd", KeyParts(b));
    JoinOpt(b.ctrl, "Ctrl", Opt(b.cmd, "Cmd") + KeyParts(b));
    JoinOpt(b.mod, "CommandOrControl", Opt(b.ctrl, "Ctrl") + (Opt(b.cmd, "Cmd") + KeyParts(b)));
  }

  /** The names of the modifiers, of which each is written in one of these ways, in any case of its letters. */
  lemma ModifierNames(lowered: string)
    ensures Modifier(lowered) == Some(Mod) <==> lowered in ["commandorcontrol", "cmdorctrl"]
    ensures Modifier(lowered) == Some(Ctrl) <==> lowered in ["ctrl", "control"]
    ensures Modifier(lowered) == Some(Cmd) <==> lowered in ["cmd", "command"]
    ensures Modifier(lowered) == Some(Alt) <==> lowered in ["alt", "option"]
    ensures Modifier(lowered) == Some(Shift) <==> lowered == "shift"
  {
  }

  /** A key with a name goes by it in lower case; Delete and Enter have a second one. */
  lemma KeyNames(lowered: string, k: string)
    ensures Named(lowered) == Some(k)
            <==> (IsNamedKey(k) && lowered == AsciiLower(k)) || (lowered == "del" && k == "Delete") || (lowered == "return" && k == "Enter")
  {
    if IsNamedKey(k) {
      LowerOfNamed(k);
    }
    NamesBack(lowered);
  }

  /** The name is one of the key it stands for. */
  predicate NamesOf(lowered: string, k: string)
  {
    IsNamedKey(k) && (lowered == AsciiLower(k) || (lowered == "del" && k == "Delete") || (lowered == "return" && k == "Enter"))
  }

  lemma NamesBack(lowered: string)
    ensures Named(lowered).Some? ==> NamesOf(lowered, Named(lowered).value)
  {
    if |lowered| <= 4 {
      ShortNames(lowered);
    } else if |lowered| <= 6 {
      MiddleNames(lowered);
    } else {
      LongNames(lowered);
    }
  }

  lemma ShortNames(lowered: string)
    requires |lowered| <= 4
    ensures Named(lowered).Some? ==> NamesOf(lowered, Named(lowered).value)
  {
  }

  lemma MiddleNames(lowered: string)
    requires 4 < |lowered| <= 6
    ensures Named(lowered).Some? ==> NamesOf(lowered, Named(lowered).value)
  {
  }

  lemma LongNames(lowered: string)
    requires |lowered| > 6
    ensures Named(lowered).Some? ==> NamesOf(lowered, Named(lowered).value)
  {
  }

  /** Function keys are F1 to F24, with a letter of either case, and are spelled with a capital one. */
  lemma FunctionKeysAre(token: string)
    ensures IsFunctionKey(token)
            <==> exists n: nat :: 1 <= n <= 24 && (token == "F" + Decimals.Decimal(n) || token == "f" + Decimals.Decimal(n))
  {
    forall n: nat | 1 <= n <= 24
      ensures var d := Decimals.Decimal(n);
              if n < 10 then d == [Digit(n)] else d == [Digit(n / 10), Digit(n % 10)]
    {
      TwoDigits(n);
    }
    hide Decimals.Decimal;
    if IsFunctionKey(token) {
      var n := if |token| == 2 then token[1] as int - '0' as int
               else 10 * (token[1] as int - '0' as int) + token[2] as int - '0' as int;
      assert token == [token[0]] + Decimals.Decimal(n);
    }
  }

  function Digit(d: nat): char
    requires d < 10
  {
    ('0' as int + d) as char
  }

  lemma TwoDigits(n: nat)
    requires 1 <= n <= 24
    ensures var d := Decimals.Decimal(n);
            if n < 10 then d == [Digit(n)] else d == [Digit(n / 10), Digit(n % 10)]
  {
  }

  /** A single ASCII letter is a key in either case, and any other printable ASCII character but the plus is one as it is. */
  lemma SingleKeys(u: Unicode, c: char)
    requires Lawful(u) && '!' <= c <= '~'
    ensures ParseKey(u, [c]) == Some([if IsAsciiLetter(c) then UpperChar(c) else c])
  {
    hide Lawful, Named, Modifier;
    CharLaws(u, c);
  }

  // ---------------------------------------------------------------------------------------------
  // The keys of a press
  // ---------------------------------------------------------------------------------------------

  /** The keyboard event's name of a key: an arrow has its own, most others are called as in bindings. */
  lemma EventNamesAre(key: string, k: string)
    ensures EventKeyName(key) == Some(k)
            <==> IsNamedKey(k) && k != "Space" && k != "Plus"
                 && key == if k in ["Up", "Down", "Left", "Right"] then "Arrow" + k else k
  {
    EventNames(key);
    ArrowNames();
  }

  lemma ArrowNames()
    ensures "Arrow" + "Up" == "ArrowUp" && "Arrow" + "Down" == "ArrowDown"
    ensures "Arrow" + "Left" == "ArrowLeft" && "Arrow" + "Right" == "ArrowRight"
  {
  }

  /** A physical key has a letter or digit exactly when its code is that of a letter key, a digit key or a digit on the number pad. */
  lemma PhysicalTokensAre(code: string, c: char)
    ensures PhysicalToken(code) == Some([c])
            <==> ('A' <= c <= 'Z' && code == "Key" + [c])
                 || (Decimals.IsDigit(c) && (code == "Digit" + [c] || code == "Numpad" + [c]))
    ensures PhysicalToken(code).Some? ==> |PhysicalToken(code).value| == 1
  {
    if PhysicalToken(code).Some? {
      var n := |code| - 1;
      assert code == code[..n] + [code[n]];
    }
    if code == "Key" + [c] {
      assert code[..3] == "Key";
    }
    if code == "Digit" + [c] {
      assert code[..5] == "Digit";
    }
    if code == "Numpad" + [c] {
      assert code[..6] == "Numpad";
    }
  }

  /** The marks a shifted key types, and the keys they sit on. */
  const MARKS := "~_+{}|:\"<>?"
  const UNDER := "`-=[]\\;',./"

  lemma MarksSitOn(c: char, base: char)
    ensures |MARKS| == |UNDER| == 11
    ensures Unshifted(c) == Some(base) <==> exists i: nat :: i < |UNDER| && MARKS[i] == c && UNDER[i] == base
  {
    if Unshifted(c) == Some(base) {
      var i: nat := MarkIndex(c);
      assert MARKS[i] == c && UNDER[i] == base;
    }
  }

  function MarkIndex(c: char): nat
  {
    match c
    case '~' => 0
    case '_' => 1
    case '+' => 2
    case '{' => 3
    case '}' => 4
    case '|' => 5
    case ':' => 6
    case '"' => 7
    case '<' => 8
    case '>' => 9
    case _ => 10
  }

  /**
   * A press answers a binding exactly when it is the binding's key with its modifiers, as the platform has them: on macOS
   * Control is Ctrl and Command is both Cmd and CommandOrControl; elsewhere Ctrl is both Ctrl and CommandOrControl, and a
   * binding with Cmd is never pressed.
   */
  lemma PressAnswersIff(u: Unicode, input: KeyInput, text: string, mac: bool)
    requires Lawful(u) && Pressed(u, input, mac).Some? && Parse(u, text).Some?
    ensures var b := Parse(u, text).value;
            PressedText(u, input, mac) == ResolveBinding(u, text, mac)
            <==> Some(b.key) == PressedKey(u, input.key, input.code) && b.alt == input.alt && b.shift == PressedShift(input)
                 && if mac then b.ctrl == input.ctrl && (b.cmd || b.mod) == input.meta
                    else (b.ctrl || b.mod) == input.ctrl && !b.cmd
  {
    var p := Pressed(u, input, mac).value;
    PressIsParseable(u, input, mac);
    hide Lawful, Parse, Serialize, PressedKey, PressedShift, ResolveBinding;
    SameTextIffSameKeys(u, Serialize(p), text, mac);
  }

  /** AltGr types a character where the platform has no Command key: Ctrl and Alt with a single character that is no letter or digit. */
  predicate TypedWithAltGr(input: KeyInput) { input.ctrl && input.alt && |input.key| == 1 && !IsAsciiAlnum(input.key[0]) }

  /** A press stands for nothing while text is composed, without a key, with the system's own key, or when it types with AltGr. */
  lemma PressStandsIff(u: Unicode, input: KeyInput, mac: bool)
    ensures Pressed(u, input, mac).Some?
            <==> && !input.composing && input.key != [] && (mac || (!input.meta && !TypedWithAltGr(input)))
                 && PressedKey(u, input.key, input.code).Some?
  {
    hide PressedKey;
  }

  /** A letter or digit typed is the key, whatever the layout and the case; no Shift is added to it. */
  lemma TypedAlnum(u: Unicode, input: KeyInput)
    requires |input.key| == 1 && IsAsciiAlnum(input.key[0])
    ensures PressedKey(u, input.key, input.code) == Some(AsciiUpper(input.key)) && PressedShift(input) == input.shift
  {
    assert AsciiUpper(input.key) == [UpperChar(input.key[0])];
    assert input.key == [input.key[0]];
  }

  function AsciiUpper(s: string): string { seq(|s|, i requires 0 <= i < |s| => UpperChar(s[i])) }

  /** Any other character but the space, typed on a physical letter or digit key, is that key; Shift counts as held. */
  lemma TypedOnLetterKey(u: Unicode, input: KeyInput)
    requires |input.key| == 1 && !IsAsciiAlnum(input.key[0]) && input.key != " " && PhysicalToken(input.code).Some?
    ensures PressedKey(u, input.key, input.code) == PhysicalToken(input.code) && PressedShift(input) == input.shift
  {
    hide PhysicalToken, ParseKey, Unshifted;
  }

  /** A mark typed with Shift on another key stands for Shift and the key below it. */
  lemma TypedMark(u: Unicode, input: KeyInput, i: nat)
    requires Lawful(u) && i < |UNDER| == |MARKS| && input.key == [MARKS[i]] && PhysicalToken(input.code).None?
    ensures PressedKey(u, input.key, input.code) == Some([UNDER[i]]) && PressedShift(input)
  {
    MarksSitOn(MARKS[i], UNDER[i]);
    MarkIsNoAlnum(i);
    hide Lawful, Unshifted, PhysicalToken, ParseKey, MARKS, UNDER;
    SingleKeys(u, UNDER[i]);
  }

  lemma MarkIsNoAlnum(i: nat)
    requires i < |UNDER| == |MARKS|
    ensures !IsAsciiAlnum(MARKS[i]) && MARKS[i] != ' ' && '!' <= UNDER[i] <= '~' && !IsAsciiLetter(UNDER[i])
  {
  }
}
