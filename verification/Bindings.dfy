/**
 * Key bindings as text: reading, writing, resolving them for a platform, and the binding a key press stands for
 * (src/shared/commands.ts). A `char` is one code point.
 */
module Bindings {
  import opened Options
  import opened Strings
  import Lines
  import Decimals
  import Sequences

  const PLUS := '+'

  /**
   * What Unicode decides: lower case of a text, the upper case of a letter when it is one code point (else the letter), and
   * which code points are letters or unprintable.
   */
  datatype Unicode = Unicode(lower: string -> string, upper: char -> char, isLetter: char -> bool, isOther: char -> bool)

  predicate IsAsciiLetter(c: char) { 'A' <= c <= 'Z' || 'a' <= c <= 'z' }

  function UpperChar(c: char): char { if 'a' <= c <= 'z' then ((c as int) - 32) as char else c }

  ghost predicate Lawful(u: Unicode)
  {
    && (forall s :: IsAscii(s) ==> u.lower(s) == AsciiLower(s))
    && (forall c :: Modifier(u.lower([c])).None? && Named(u.lower([c])).None?)
    && (forall c :: u.isLetter(c) ==> u.isLetter(u.upper(c)) && u.upper(u.upper(c)) == u.upper(c))
    && (forall c :: u.isLetter(c) ==> c != PLUS && !IsSpace(c))
    && (forall c :: IsAsciiLetter(c) ==> u.isLetter(c) && u.upper(c) == UpperChar(c))
    && (forall c :: '!' <= c <= '~' && !IsAsciiLetter(c) ==> !u.isLetter(c) && !u.isOther(c))
  }

  /** The laws hold of the Unicode tables cut down to ASCII, so they do not contradict each other. */
  lemma AsciiIsLawful()
    ensures Lawful(Unicode(AsciiLower, UpperChar, IsAsciiLetter, c => c < ' ' || c >= '\U{7f}'))
  {
    forall c: char
      ensures Modifier(AsciiLower([c])).None? && Named(AsciiLower([c])).None?
    {
      assert |AsciiLower([c])| == 1;
    }
  }

  lemma LowerLaw(u: Unicode, s: string)
    requires Lawful(u) && IsAscii(s)
    ensures u.lower(s) == AsciiLower(s)
  {
    hide Modifier, Named;
  }

  lemma CharLaws(u: Unicode, c: char)
    requires Lawful(u)
    ensures Modifier(u.lower([c])).None? && Named(u.lower([c])).None?
    ensures u.isLetter(c) ==> c != PLUS && !IsSpace(c) && u.isLetter(u.upper(c)) && u.upper(u.upper(c)) == u.upper(c)
    ensures IsAsciiLetter(c) ==> u.isLetter(c) && u.upper(c) == UpperChar(c)
    ensures '!' <= c <= '~' && !IsAsciiLetter(c) ==> !u.isLetter(c) && !u.isOther(c)
  {
    hide Modifier, Named, IsSpace;
  }

  // ---------------------------------------------------------------------------------------------
  // Keys
  // ---------------------------------------------------------------------------------------------

  datatype ModifierName = Mod | Ctrl | Cmd | Alt | Shift

  function Modifier(lowered: string): Option<ModifierName>
  {
    if lowered == "commandorcontrol" || lowered == "cmdorctrl" then Some(Mod)
    else if lowered == "ctrl" || lowered == "control" then Some(Ctrl)
    else if lowered == "cmd" || lowered == "command" then Some(Cmd)
    else if lowered == "alt" || lowered == "option" then Some(Alt)
    else if lowered == "shift" then Some(Shift)
    else None
  }

  /** The table of named keys, by the length of the name. */
  function Named(lowered: string): Option<string>
  {
    match |lowered|
    case 2 => if lowered == "up" then Some("Up") else None
    case 3 => if lowered == "tab" then Some("Tab") else if lowered == "del" then Some("Delete")
              else if lowered == "end" then Some("End") else None
    case 4 => if lowered == "down" then Some("Down") else if lowered == "left" then Some("Left")
              else if lowered == "home" then Some("Home") else if lowered == "plus" then Some("Plus") else None
    case 5 => if lowered == "enter" then Some("Enter") else if lowered == "space" then Some("Space")
              else if lowered == "right" then Some("Right") else None
    case 6 => if lowered == "delete" then Some("Delete") else if lowered == "return" then Some("Enter")
              else if lowered == "pageup" then Some("PageUp") else if lowered == "insert" then Some("Insert") else None
    case 8 => if lowered == "pagedown" then Some("PageDown") else None
    case 9 => if lowered == "backspace" then Some("Backspace") else None
    case _ => None
  }

  predicate IsNamedKey(k: string)
  {
    || k == "Tab" || k == "Backspace" || k == "Delete" || k == "Enter" || k == "Space" || k == "Up" || k == "Down"
    || k == "Left" || k == "Right" || k == "Home" || k == "End" || k == "PageUp" || k == "PageDown" || k == "Insert"
    || k == "Plus"
  }

  /** F1 to F24, in either case. */
  predicate IsFunctionKey(token: string)
  {
    && (|token| == 2 || |token| == 3) && (token[0] == 'F' || token[0] == 'f')
    && (|token| == 2 ==> '1' <= token[1] <= '9')
    && (|token| == 3 ==> (token[1] == '1' && Decimals.IsDigit(token[2])) || (token[1] == '2' && '0' <= token[2] <= '4'))
  }

  function ParseKey(u: Unicode, token: string): Option<string>
  {
    var named := Named(u.lower(token));
    if named.Some? then named
    else if IsFunctionKey(token) then Some(['F'] + token[1..])
    else if |token| != 1 then None
    else if u.isLetter(token[0]) then Some([u.upper(token[0])])
    else if IsSpace(token[0]) || u.isOther(token[0]) then None
    else Some(token)
  }

  predicate Plain(token: string) { token != [] && PLUS !in token && Trim(token) == token }

  /** A key in the one spelling parsing gives it. */
  predicate Canonical(u: Unicode, k: string)
  {
    Plain(k) && Modifier(u.lower(k)).None? && ParseKey(u, k) == Some(k)
  }

  lemma NamedRange(lowered: string)
    ensures Named(lowered).Some? ==> IsNamedKey(Named(lowered).value)
  {
  }

  lemma EdgesDecideTrim(token: string)
    requires token != [] && !IsSpace(token[0]) && !IsSpace(token[|token| - 1])
    ensures Trim(token) == token
  {
    TrimmedIsFixed(token);
  }

  /** A named key is found again under its lower case, and is no modifier. */
  predicate FoundAgain(k: string) { IsAscii(k) && Named(AsciiLower(k)) == Some(k) && Modifier(AsciiLower(k)).None? }

  lemma Found1()
    ensures FoundAgain("Tab") && FoundAgain("End")
  {
    assert AsciiLower("Tab") == "tab";
    assert AsciiLower("End") == "end";
  }

  lemma Found2()
    ensures FoundAgain("Up") && FoundAgain("Delete")
  {
    assert AsciiLower("Up") == "up";
    assert AsciiLower("Delete") == "delete";
  }

  lemma Found3()
    ensures FoundAgain("Enter") && FoundAgain("Space")
  {
    assert AsciiLower("Enter") == "enter";
    assert AsciiLower("Space") == "space";
  }

  lemma Found4()
    ensures FoundAgain("Right")
  {
    assert AsciiLower("Right") == "right";
  }

  lemma Found5()
    ensures FoundAgain("Down") && FoundAgain("Left")
  {
    assert AsciiLower("Down") == "down";
    assert AsciiLower("Left") == "left";
  }

  lemma Found6()
    ensures FoundAgain("Home") && FoundAgain("Plus")
  {
    assert AsciiLower("Home") == "home";
    assert AsciiLower("Plus") == "plus";
  }

  lemma Found7()
    ensures FoundAgain("PageUp") && FoundAgain("Insert")
  {
    assert AsciiLower("PageUp") == "pageup";
    assert AsciiLower("Insert") == "insert";
  }

  lemma Found8()
    ensures FoundAgain("PageDown") && FoundAgain("Backspace")
  {
    assert AsciiLower("PageDown") == "pagedown";
    assert AsciiLower("Backspace") == "backspace";
  }

  lemma LowerOfNamed(k: string)
    requires IsNamedKey(k)
    ensures FoundAgain(k)
  {
    Found1();
    Found2();
    Found3();
    Found4();
    Found5();
    Found6();
    Found7();
    Found8();
    hide FoundAgain;
  }

  lemma NamedIsCanonical(u: Unicode, k: string)
    requires Lawful(u) && IsNamedKey(k)
    ensures Canonical(u, k)
  {
    hide Lawful, AsciiLower, Named, Modifier, IsNamedKey, IsAscii, IsSpace, Trim;
    LowerOfNamed(k);
    LowerLaw(u, k);
    NamedEdges(k);
    EdgesDecideTrim(k);
  }

  lemma NamedEdges(k: string)
    requires IsNamedKey(k)
    ensures k != [] && PLUS !in k && !IsSpace(k[0]) && !IsSpace(k[|k| - 1])
  {
  }

  lemma LowerF(k: string)
    requires IsFunctionKey(k)
    ensures IsAscii(k) && AsciiLower(k) != [] && AsciiLower(k)[0] == 'f'
  {
  }

  lemma FunctionKeyIsCanonical(u: Unicode, k: string)
    requires Lawful(u) && IsFunctionKey(k) && k[0] == 'F'
    ensures Canonical(u, k)
  {
    hide Lawful, AsciiLower, Named, Modifier, IsAscii, IsSpace, Trim;
    LowerF(k);
    LowerLaw(u, k);
    NoNameStartsWithF(AsciiLower(k));
    assert ['F'] + k[1..] == k;
    FunctionKeyEdges(k);
    EdgesDecideTrim(k);
  }

  lemma UpperF(token: string)
    requires IsFunctionKey(token)
    ensures token != [] && IsFunctionKey(['F'] + token[1..])
  {
  }

  lemma FunctionKeyEdges(k: string)
    requires IsFunctionKey(k)
    ensures k != [] && PLUS !in k && !IsSpace(k[0]) && !IsSpace(k[|k| - 1])
  {
  }

  lemma NoNameStartsWithF(s: string)
    requires s != [] && s[0] == 'f'
    ensures Named(s).None? && Modifier(s).None?
  {
  }

  lemma CharIsCanonical(u: Unicode, c: char)
    requires Lawful(u) && c != PLUS && !IsSpace(c)
    requires if u.isLetter(c) then u.upper(c) == c else !u.isOther(c)
    ensures Canonical(u, [c])
  {
    hide Lawful, Named, Modifier, IsSpace, Trim;
    CharLaws(u, c);
    EdgesDecideTrim([c]);
  }

  /** Whatever parsing a token gives is canonical. */
  lemma ParsedKeyIsCanonical(u: Unicode, token: string)
    requires Lawful(u) && PLUS !in token
    ensures ParseKey(u, token).Some? ==> Canonical(u, ParseKey(u, token).value)
  {
    hide Lawful, Canonical, Named, Modifier, IsFunctionKey, IsSpace, Trim;
    var key := ParseKey(u, token);
    if key.Some? {
      if Named(u.lower(token)).Some? {
        NamedRange(u.lower(token));
        NamedIsCanonical(u, key.value);
      } else if IsFunctionKey(token) {
        UpperF(token);
        FunctionKeyIsCanonical(u, key.value);
      } else if u.isLetter(token[0]) {
        var c := u.upper(token[0]);
        CharLaws(u, token[0]);
        CharLaws(u, c);
        CharIsCanonical(u, c);
      } else {
        CharIsCanonical(u, token[0]);
        assert [token[0]] == token;
      }
    }
  }

  // ---------------------------------------------------------------------------------------------
  // parseBinding and serializeBinding
  // ---------------------------------------------------------------------------------------------

  datatype Parsed = Parsed(mod: bool, ctrl: bool, cmd: bool, alt: bool, shift: bool, key: string)

  /** The modifiers read so far, and the key if one was read. */
  datatype Reading = Reading(mod: bool, ctrl: bool, cmd: bool, alt: bool, shift: bool, key: Option<string>)

  const NOTHING_READ := Reading(false, false, false, false, false, None)

  function With(r: Reading, m: ModifierName): Reading
  {
    match m
    case Mod => r.(mod := true)
    case Ctrl => r.(ctrl := true)
    case Cmd => r.(cmd := true)
    case Alt => r.(alt := true)
    case Shift => r.(shift := true)
  }

  /** One token more; None when the binding is refused. */
  function Read(u: Unicode, r: Reading, token: string): Option<Reading>
  {
    var modifier := Modifier(u.lower(token));
    if modifier.Some? then Some(With(r, modifier.value))
    else if r.key.Some? then None
    else
      var key := ParseKey(u, token);
      if key.None? then None else Some(r.(key := key))
  }

  function ReadAll(u: Unicode, tokens: seq<string>): Option<Reading>
  {
    if tokens == [] then Some(NOTHING_READ)
    else
      var before := ReadAll(u, tokens[..|tokens| - 1]);
      if before.None? then None else Read(u, before.value, tokens[|tokens| - 1])
  }

  function Tokens(text: string): seq<string>
  {
    var pieces := Lines.Split(text, PLUS);
    seq(|pieces|, i requires 0 <= i < |pieces| => Trim(pieces[i]))
  }

  function Finished(r: Option<Reading>): Option<Parsed>
  {
    if r.None? || r.value.key.None? then None
    else Some(Parsed(r.value.mod, r.value.ctrl, r.value.cmd, r.value.alt, r.value.shift, r.value.key.value))
  }

  function Parse(u: Unicode, text: string): Option<Parsed>
  {
    var tokens := Tokens(text);
    if [] in tokens then None else Finished(ReadAll(u, tokens))
  }

  /** Once refused, a binding stays refused. */
  lemma {:induction false} RefusedStaysRefused(u: Unicode, tokens: seq<string>, i: nat)
    requires i <= |tokens| && ReadAll(u, tokens[..i]).None?
    ensures ReadAll(u, tokens).None?
    decreases |tokens| - i
  {
    if i == |tokens| {
      assert tokens[..i] == tokens;
    } else {
      assert tokens[..i + 1][..i] == tokens[..i];
      RefusedStaysRefused(u, tokens, i + 1);
    }
  }

  lemma NothingReadYet(u: Unicode)
    ensures ReadAll(u, []) == Some(NOTHING_READ)
  {
  }

  lemma ReadIs(u: Unicode, r: Reading, token: string)
    ensures var modifier, key := Modifier(u.lower(token)), ParseKey(u, token);
            Read(u, r, token) == if modifier.Some? then Some(With(r, modifier.value))
                                 else if r.key.Some? || key.None? then None else Some(r.(key := key))
  {
    hide Modifier, ParseKey;
  }

  lemma ParseIs(u: Unicode, text: string)
    ensures Parse(u, text) == if [] in Tokens(text) then None else Finished(ReadAll(u, Tokens(text)))
  {
    hide Tokens, ReadAll;
  }

  lemma RefusedIs(u: Unicode, text: string)
    requires ReadAll(u, Tokens(text)).None?
    ensures Parse(u, text).None?
  {
    hide Tokens, ReadAll;
  }

  method ParseBinding(u: Unicode, text: string) returns (parsed: Option<Parsed>)
    ensures parsed == Parse(u, text)
  {
    var tokens := Tokens(text);
    if [] in tokens {
      return None;
    }
    hide *;
    var read := NOTHING_READ;
    NothingReadYet(u);
    assert tokens[..0] == [];
    for i := 0 to |tokens|
      invariant ReadAll(u, tokens[..i]) == Some(read)
    {
      var token := tokens[i];
      ReadStep(u, tokens[..i], token);
      ReadIs(u, read, token);
      assert tokens[..i + 1] == tokens[..i] + [token];
      var modifier := Modifier(u.lower(token));
      if modifier.Some? {
        read := With(read, modifier.value);
        continue;
      }
      if read.key.Some? {
        RefusedStaysRefused(u, tokens, i + 1);
        RefusedIs(u, text);
        return None;
      }
      var key := ParseKey(u, token);
      if key.None? {
        RefusedStaysRefused(u, tokens, i + 1);
        RefusedIs(u, text);
        return None;
      }
      read := read.(key := key);
    }
    assert tokens[..|tokens|] == tokens;
    ParseIs(u, text);
    return Finished(Some(read));
  }

  function Opt(set_: bool, part: string): seq<string> { if set_ then [part] else [] }

  function Parts(b: Parsed): seq<string>
  {
    Opt(b.mod, "CommandOrControl") + Opt(b.ctrl, "Ctrl") + Opt(b.cmd, "Cmd") + Opt(b.alt, "Alt") + Opt(b.shift, "Shift") + [b.key]
  }

  function Serialize(b: Parsed): string { Lines.Join(Parts(b), PLUS) }

  predicate AllPlain(parts: seq<string>) { forall i :: 0 <= i < |parts| ==> Plain(parts[i]) }

  /** Plain tokens joined with `+` split into themselves. */
  lemma TokensOfJoin(parts: seq<string>)
    requires parts != [] && AllPlain(parts)
    ensures Tokens(Lines.Join(parts, PLUS)) == parts && [] !in parts
  {
    assert Lines.AllFree(parts, PLUS);
    Lines.SplitJoin(parts, PLUS);
  }

  lemma ReadStep(u: Unicode, tokens: seq<string>, token: string)
    ensures ReadAll(u, tokens + [token])
         == if ReadAll(u, tokens).None? then None else Read(u, ReadAll(u, tokens).value, token)
  {
    assert (tokens + [token])[..|tokens|] == tokens;
  }

  /** A modifier's name as it is written: plain, and read as the modifier. */
  ghost predicate Writes(u: Unicode, name: string, m: ModifierName) { Plain(name) && Modifier(u.lower(name)) == Some(m) }

  lemma WritesMod(u: Unicode)
    requires Lawful(u)
    ensures Writes(u, "CommandOrControl", Mod) && Writes(u, "Ctrl", Ctrl)
  {
    hide Lawful, Trim;
    assert AsciiLower("CommandOrControl") == "commandorcontrol" && AsciiLower("Ctrl") == "ctrl";
    LowerLaw(u, "CommandOrControl");
    LowerLaw(u, "Ctrl");
    EdgesDecideTrim("CommandOrControl");
    EdgesDecideTrim("Ctrl");
  }

  lemma WritesCmd(u: Unicode)
    requires Lawful(u)
    ensures Writes(u, "Cmd", Cmd) && Writes(u, "Alt", Alt) && Writes(u, "Shift", Shift)
  {
    hide Lawful, Trim;
    assert AsciiLower("Cmd") == "cmd" && AsciiLower("Alt") == "alt" && AsciiLower("Shift") == "shift";
    LowerLaw(u, "Cmd");
    LowerLaw(u, "Alt");
    LowerLaw(u, "Shift");
    EdgesDecideTrim("Cmd");
    EdgesDecideTrim("Alt");
    EdgesDecideTrim("Shift");
  }

  /** The parts up to a modifier: what they read as, and that they are plain. */
  ghost predicate ReadAs(u: Unicode, tokens: seq<string>, r: Reading) { AllPlain(tokens) && ReadAll(u, tokens) == Some(r) }

  lemma NothingRead(u: Unicode)
    ensures ReadAs(u, [], NOTHING_READ)
  {
  }

  lemma ReadOpt(u: Unicode, tokens: seq<string>, r: Reading, set_: bool, name: string, m: ModifierName)
    requires ReadAs(u, tokens, r) && Writes(u, name, m)
    ensures ReadAs(u, tokens + Opt(set_, name), if set_ then With(r, m) else r)
  {
    hide Plain, ParseKey, Modifier;
    ReadStep(u, tokens, name);
    Sequences.Empty(tokens);
  }

  lemma ReadKey(u: Unicode, tokens: seq<string>, r: Reading, key: string)
    requires ReadAs(u, tokens, r) && r.key.None? && Canonical(u, key)
    ensures ReadAs(u, tokens + [key], r.(key := Some(key)))
  {
    hide Plain, ParseKey, Modifier;
    ReadStep(u, tokens, key);
  }

  lemma ReadParts(u: Unicode, b: Parsed)
    requires Lawful(u) && Canonical(u, b.key)
    ensures ReadAs(u, Parts(b), Reading(b.mod, b.ctrl, b.cmd, b.alt, b.shift, Some(b.key)))
  {
    hide Lawful, Canonical, ReadAs, Writes, Opt;
    WritesMod(u);
    WritesCmd(u);
    NothingRead(u);
    var p1 := Opt(b.mod, "CommandOrControl");
    var p2 := p1 + Opt(b.ctrl, "Ctrl");
    var p3 := p2 + Opt(b.cmd, "Cmd");
    var p4 := p3 + Opt(b.alt, "Alt");
    var p5 := p4 + Opt(b.shift, "Shift");
    ReadOpt(u, [], NOTHING_READ, b.mod, "CommandOrControl", Mod);
    Sequences.Empty(p1);
    var r1 := Reading(b.mod, false, false, false, false, None);
    ReadOpt(u, p1, r1, b.ctrl, "Ctrl", Ctrl);
    ReadOpt(u, p2, r1.(ctrl := b.ctrl), b.cmd, "Cmd", Cmd);
    ReadOpt(u, p3, r1.(ctrl := b.ctrl, cmd := b.cmd), b.alt, "Alt", Alt);
    ReadOpt(u, p4, r1.(ctrl := b.ctrl, cmd := b.cmd, alt := b.alt), b.shift, "Shift", Shift);
    ReadKey(u, p5, r1.(ctrl := b.ctrl, cmd := b.cmd, alt := b.alt, shift := b.shift), b.key);
  }

  /** Parsing a serialized binding gives the binding back. */
  lemma ParseSerialize(u: Unicode, b: Parsed)
    requires Lawful(u) && Canonical(u, b.key)
    ensures Parse(u, Serialize(b)) == Some(b)
  {
    hide Lawful, Canonical, AllPlain, Tokens, Parts, ReadAll, Lines.Join;
    ReadParts(u, b);
    SomePart(b);
    TokensOfJoin(Parts(b));
  }

  lemma SomePart(b: Parsed)
    ensures Parts(b) != []
  {
  }

  lemma {:induction false} ReadKeyIsCanonical(u: Unicode, tokens: seq<string>)
    requires Lawful(u) && forall i :: 0 <= i < |tokens| ==> PLUS !in tokens[i]
    ensures var r := ReadAll(u, tokens); r.Some? && r.value.key.Some? ==> Canonical(u, r.value.key.value)
  {
    hide Lawful, Canonical, ParseKey, Modifier;
    if tokens != [] {
      ReadKeyIsCanonical(u, tokens[..|tokens| - 1]);
      var token := tokens[|tokens| - 1];
      assert PLUS !in token;
      ParsedKeyIsCanonical(u, token);
    }
  }

  /** Every key that parsing returns is canonical, so its binding can be written and read again. */
  lemma ParsedIsCanonical(u: Unicode, text: string)
    requires Lawful(u)
    ensures Parse(u, text).Some? ==> Canonical(u, Parse(u, text).value.key)
    ensures Parse(u, text).Some? ==> Parse(u, Serialize(Parse(u, text).value)) == Parse(u, text)
  {
    var tokens := Tokens(text);
    var pieces := Lines.Split(text, PLUS);
    Lines.SplitFree(text, PLUS);
    forall i | 0 <= i < |tokens|
      ensures PLUS !in tokens[i]
    {
      assert Lines.Free(pieces[i], PLUS);
      TrimIsSlice(pieces[i]);
    }
    hide Tokens, Lines.Split;
    ReadKeyIsCanonical(u, tokens);
    if Parse(u, text).Some? {
      hide Lawful, Canonical;
      ParseSerialize(u, Parse(u, text).value);
    }
  }

  // ---------------------------------------------------------------------------------------------
  // Resolving for a platform
  // ---------------------------------------------------------------------------------------------

  /** `CommandOrControl` becomes Ctrl, or Cmd on macOS. */
  function Resolve(b: Parsed, mac: bool): Parsed
  {
    Parsed(false, b.ctrl || (b.mod && !mac), b.cmd || (b.mod && mac), b.alt, b.shift, b.key)
  }

  function ResolveBinding(u: Unicode, text: string, mac: bool): Option<string>
  {
    var parsed := Parse(u, text);
    if parsed.Some? then Some(Serialize(Resolve(parsed.value, mac))) else None
  }

  /** A resolved binding reads back as what it resolves to, and resolving again changes nothing. */
  lemma ResolvedReadsBack(u: Unicode, text: string, mac: bool)
    requires Lawful(u) && Parse(u, text).Some?
    ensures var r := ResolveBinding(u, text, mac).value;
            && Parse(u, r) == Some(Resolve(Parse(u, text).value, mac))
            && ResolveBinding(u, r, mac) == Some(r)
  {
    ParsedIsCanonical(u, text);
    hide Lawful, Canonical, Parse, Serialize;
    ParseSerialize(u, Resolve(Parse(u, text).value, mac));
  }

  /** Two bindings resolve to one text exactly when they press the same keys. */
  lemma SameTextIffSameKeys(u: Unicode, a: string, b: string, mac: bool)
    requires Lawful(u) && Parse(u, a).Some? && Parse(u, b).Some?
    ensures ResolveBinding(u, a, mac) == ResolveBinding(u, b, mac)
            <==> Resolve(Parse(u, a).value, mac) == Resolve(Parse(u, b).value, mac)
  {
    ResolvedReadsBack(u, a, mac);
    ResolvedReadsBack(u, b, mac);
    hide Lawful, Parse, Serialize, Resolve;
  }

  // ---------------------------------------------------------------------------------------------
  // Key presses
  // ---------------------------------------------------------------------------------------------

  datatype KeyInput = KeyInput(key: string, code: string, ctrl: bool, meta: bool, alt: bool, shift: bool, composing: bool)

  function EventKeyName(key: string): Option<string>
  {
    if key == "Tab" || key == "Enter" || key == "Backspace" || key == "Delete" || key == "Insert" || key == "Home" || key == "End"
       || key == "PageUp" || key == "PageDown" then Some(key)
    else if key == "ArrowUp" then Some("Up")
    else if key == "ArrowDown" then Some("Down")
    else if key == "ArrowLeft" then Some("Left")
    else if key == "ArrowRight" then Some("Right")
    else None
  }

  /** The unshifted key a shifted punctuation mark sits on. */
  function Unshifted(c: char): Option<char>
  {
    match c
    case '~' => Some('`')
    case '_' => Some('-')
    case '+' => Some('=')
    case '{' => Some('[')
    case '}' => Some(']')
    case '|' => Some('\\')
    case ':' => Some(';')
    case '"' => Some('\'')
    case '<' => Some(',')
    case '>' => Some('.')
    case '?' => Some('/')
    case _ => None
  }

  /** The letter or digit of a physical key. */
  function PhysicalToken(code: string): Option<string>
  {
    if |code| == 4 && code[..3] == "Key" && 'A' <= code[3] <= 'Z' then Some([code[3]])
    else if |code| == 6 && code[..5] == "Digit" && Decimals.IsDigit(code[5]) then Some([code[5]])
    else if |code| == 7 && code[..6] == "Numpad" && Decimals.IsDigit(code[6]) then Some([code[6]])
    else None
  }

  predicate IsAsciiAlnum(c: char) { IsAsciiLetter(c) || Decimals.IsDigit(c) }

  /** The key of a press, if it has one. */
  function PressedKey(u: Unicode, key: string, code: string): Option<string>
    requires key != []
  {
    if |key| > 1 then
      if EventKeyName(key).Some? then EventKeyName(key)
      else if IsFunctionKey(key) then Some(['F'] + key[1..]) else None
    else if key == " " then Some("Space")
    else if IsAsciiLetter(key[0]) then Some([UpperChar(key[0])])
    else if Decimals.IsDigit(key[0]) then Some(key)
    else if PhysicalToken(code).Some? then PhysicalToken(code)
    else ParseKey(u, [Unshifted(key[0]).GetOr(key[0])])
  }

  /** A shifted mark stands for Shift and the key it sits on, when the physical key does not decide. */
  predicate PressedShift(input: KeyInput)
    requires input.key != []
  {
    || input.shift
    || (|input.key| == 1 && input.key != " " && !IsAsciiAlnum(input.key[0]) && PhysicalToken(input.code).None?
        && Unshifted(input.key[0]).Some?)
  }

  function Pressed(u: Unicode, input: KeyInput, mac: bool): Option<Parsed>
  {
    if input.composing || (!mac && input.meta) || input.key == [] then None
    else if !mac && input.ctrl && input.alt && |input.key| == 1 && !IsAsciiAlnum(input.key[0]) then None
    else
      var key := PressedKey(u, input.key, input.code);
      if key.None? then None
      else Some(Parsed(if mac then input.meta else input.ctrl, mac && input.ctrl, false, input.alt, PressedShift(input), key.value))
  }

  method BindingFromKey(u: Unicode, input: KeyInput, mac: bool) returns (binding: Option<string>)
    ensures binding == if Pressed(u, input, mac).Some? then Some(Serialize(Pressed(u, input, mac).value)) else None
  {
    hide ParseKey, EventKeyName, PhysicalToken, Unshifted, IsFunctionKey, Serialize;
    if input.composing || (!mac && input.meta) || input.key == [] {
      return None;
    }
    var key := input.key;
    if !mac && input.ctrl && input.alt && |key| == 1 && !IsAsciiAlnum(key[0]) {
      return None;
    }
    var token: Option<string> := None;
    var shift := input.shift;
    if |key| > 1 {
      token := EventKeyName(key);
      if token.None? && IsFunctionKey(key) {
        token := Some(['F'] + key[1..]);
      }
    } else if key == " " {
      token := Some("Space");
    } else if IsAsciiLetter(key[0]) {
      token := Some([UpperChar(key[0])]);
    } else if Decimals.IsDigit(key[0]) {
      token := Some(key);
    } else {
      token := PhysicalToken(input.code);
      if token.None? {
        var base := Unshifted(key[0]);
        if base.Some? {
          shift := true;
        }
        token := ParseKey(u, [base.GetOr(key[0])]);
      }
    }
    if token.None? {
      return None;
    }
    return Some(Serialize(Parsed(if mac then input.meta else input.ctrl, mac && input.ctrl, false, input.alt, shift, token.value)));
  }

  lemma AlnumIsCanonical(u: Unicode, c: char)
    requires Lawful(u) && ('A' <= c <= 'Z' || Decimals.IsDigit(c))
    ensures Canonical(u, [c])
  {
    hide Lawful, Canonical;
    CharLaws(u, c);
    CharIsCanonical(u, c);
  }

  lemma EventNames(key: string)
    ensures EventKeyName(key).Some? ==> IsNamedKey(EventKeyName(key).value)
  {
  }

  lemma PhysicalNames(code: string)
    ensures var t := PhysicalToken(code);
            t.Some? ==> |t.value| == 1 && t.value == [t.value[0]] && ('A' <= t.value[0] <= 'Z' || Decimals.IsDigit(t.value[0]))
  {
  }

  /** The mark on the plus key is read as the equals key below it, so no press stands for a bare plus. */
  lemma NoPlus(c: char)
    ensures Unshifted(c).GetOr(c) != PLUS
  {
  }

  lemma PressedKeyIsCanonical(u: Unicode, key: string, code: string)
    requires Lawful(u) && key != []
    ensures PressedKey(u, key, code).Some? ==> Canonical(u, PressedKey(u, key, code).value)
  {
    hide Lawful, Canonical, ParseKey, IsFunctionKey, EventKeyName, PhysicalToken, Unshifted;
    var token := PressedKey(u, key, code);
    if token.Some? {
      if |key| > 1 {
        if EventKeyName(key).Some? {
          EventNames(key);
          NamedIsCanonical(u, token.value);
        } else {
          UpperF(key);
          FunctionKeyIsCanonical(u, token.value);
        }
      } else if key == " " {
        NamedIsCanonical(u, "Space");
      } else if IsAsciiAlnum(key[0]) {
        AlnumIsCanonical(u, UpperChar(key[0]));
        assert key == [key[0]];
      } else if PhysicalToken(code).Some? {
        PhysicalNames(code);
        AlnumIsCanonical(u, token.value[0]);
      } else {
        NoPlus(key[0]);
        ParsedKeyIsCanonical(u, [Unshifted(key[0]).GetOr(key[0])]);
      }
    }
  }

  /** Every key press that yields a binding yields one that reads back as the press. */
  lemma PressIsParseable(u: Unicode, input: KeyInput, mac: bool)
    requires Lawful(u) && Pressed(u, input, mac).Some?
    ensures Parse(u, Serialize(Pressed(u, input, mac).value)) == Pressed(u, input, mac)
  {
    PressedKeyIsCanonical(u, input.key, input.code);
    hide Lawful, Canonical, Parse, Serialize, PressedKey;
    ParseSerialize(u, Pressed(u, input, mac).value);
  }
}
