/** What JavaScript's string methods do, for the text models that share them. */
module Strings {
  predicate StartsWith(s: string, p: string) { p <= s }

  predicate EndsWith(s: string, p: string) { |p| <= |s| && s[|s| - |p|..] == p }

  predicate IsAscii(s: string) { forall i :: 0 <= i < |s| ==> s[i] < '\U{80}' }

  function LowerChar(c: char): char { if 'A' <= c <= 'Z' then ((c as int) + 32) as char else c }

  /** Lower case of ASCII letters; every other character stays. */
  function AsciiLower(s: string): string { seq(|s|, i requires 0 <= i < |s| => LowerChar(s[i])) }

  /** JavaScript white space, by code: what `trim` removes and `\s` matches. */
  predicate IsSpaceCode(n: int)
  {
    || 0x09 <= n <= 0x0D || n == 0x20 || n == 0xA0 || n == 0x1680 || 0x2000 <= n <= 0x200A || n == 0x2028 || n == 0x2029
    || n == 0x202F || n == 0x205F || n == 0x3000 || n == 0xFEFF
  }

  predicate IsSpace(c: char) { IsSpaceCode(c as int) }

  /** What `^` and `$` take for the end of a line. */
  predicate EndsLine(c: char) { c == '\n' || c == '\r' || c == '\U{2028}' || c == '\U{2029}' }

  /** How much `trimStart` keeps back: the length of the leading white space. */
  function LeadingSpace(s: string): (n: nat)
    ensures n <= |s|
    ensures forall i :: 0 <= i < n ==> IsSpace(s[i])
    ensures n < |s| ==> !IsSpace(s[n])
  {
    if s == [] || !IsSpace(s[0]) then 0
    else
      assert forall i :: 0 < i < |s| ==> s[i] == s[1..][i - 1];
      1 + LeadingSpace(s[1..])
  }

  function TrimEnd(s: string): (t: string)
    ensures |t| <= |s| && t == s[..|t|]
    ensures t != [] ==> !IsSpace(t[|t| - 1])
    ensures s != [] && !IsSpace(s[|s| - 1]) ==> t == s
  {
    if s == [] then s
    else if IsSpace(s[|s| - 1]) then
      var t := TrimEnd(s[..|s| - 1]);
      assert s[..|s| - 1][..|t|] == s[..|t|];
      t
    else s
  }

  function Trim(s: string): string { TrimEnd(s[LeadingSpace(s)..]) }

  predicate Trimmed(s: string) { s != [] ==> !IsSpace(s[0]) && !IsSpace(s[|s| - 1]) }

  lemma TrimIsSlice(s: string)
    ensures LeadingSpace(s) + |Trim(s)| <= |s| && Trim(s) == s[LeadingSpace(s)..LeadingSpace(s) + |Trim(s)|]
  {
    hide IsSpace;
    var rest := s[LeadingSpace(s)..];
    var t := TrimEnd(rest);
    assert t == rest[..|t|];
  }

  lemma TrimIsTrimmed(s: string)
    ensures Trimmed(Trim(s))
  {
    var a := LeadingSpace(s);
    var rest := s[a..];
    var t := TrimEnd(rest);
    hide IsSpace;
    if t != [] {
      assert t[0] == rest[..|t|][0] == rest[0] == s[a];
    }
  }

  lemma TrimmedIsFixed(s: string)
    requires Trimmed(s)
    ensures Trim(s) == s
  {
    hide IsSpace;
    NoSpaceAhead(s);
    hide LeadingSpace, TrimEnd;
    assert s[0..] == s;
    if s != [] {
      NoSpaceBehind(s);
    }
  }

  lemma NoSpaceAhead(s: string)
    requires Trimmed(s)
    ensures LeadingSpace(s) == 0 && (s == [] ==> TrimEnd(s) == s)
  {
    hide IsSpace;
  }

  lemma NoSpaceBehind(s: string)
    requires s != [] && !IsSpace(s[|s| - 1])
    ensures TrimEnd(s) == s
  {
  }

  /** Trimming takes white space off both ends and nothing else. */
  lemma TrimDropsSpaceOnly(s: string)
    ensures var a, b := LeadingSpace(s), LeadingSpace(s) + |Trim(s)|;
            && b <= |s| && Trim(s) == s[a..b] && Trimmed(Trim(s))
            && (forall i :: 0 <= i < a ==> IsSpace(s[i])) && (forall i :: b <= i < |s| ==> IsSpace(s[i]))
  {
    TrimIsSlice(s);
    TrimIsTrimmed(s);
    var a := LeadingSpace(s);
    TrimEndDropsSpace(s[a..]);
    hide IsSpace, LeadingSpace, TrimEnd, Trimmed;
    TailIsSpace(s, a, |Trim(s)|);
  }

  lemma TailIsSpace(s: string, a: nat, n: nat)
    requires a + n <= |s| && forall i :: n <= i < |s[a..]| ==> IsSpace(s[a..][i])
    ensures forall i :: a + n <= i < |s| ==> IsSpace(s[i])
  {
    hide IsSpace;
    forall i | a + n <= i < |s|
      ensures IsSpace(s[i])
    {
      assert s[i] == s[a..][i - a];
    }
  }

  lemma {:induction false} TrimEndDropsSpace(s: string)
    ensures forall i :: |TrimEnd(s)| <= i < |s| ==> IsSpace(s[i])
  {
    if s != [] && IsSpace(s[|s| - 1]) {
      TrimEndDropsSpace(s[..|s| - 1]);
    }
  }

  lemma TrimFixedIff(s: string)
    ensures Trimmed(Trim(s))
    ensures Trim(s) == s <==> Trimmed(s)
  {
    TrimIsTrimmed(s);
    if Trimmed(s) {
      TrimmedIsFixed(s);
    }
  }
}
