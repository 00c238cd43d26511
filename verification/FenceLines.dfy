/**
 * The written form of the lines that open and close a fence, as `extractAppletParts` of src/shared/applets.ts takes them
 * (CommonMark section 4.5, with its own end-of-line rules).
 */
module FenceLines {
  import opened Options
  import opened Strings
  import opened AppletFences

  /** From `i` on stand exactly `n` characters `c` in a row. */
  predicate ExactRun(s: string, i: nat, c: char, n: nat)
  {
    i + n <= |s| && (forall k :: i <= k < i + n ==> s[k] == c) && (i + n < |s| ==> s[i + n] != c)
  }

  lemma RunStart(s: string, i: nat, c: char, n: nat)
    requires ExactRun(s, i, c, n)
    ensures n > 0 ==> i < |s| && s[i] == c
  {
  }

  lemma {:induction false} RunIs(s: string, i: nat, c: char)
    requires i <= |s|
    ensures ExactRun(s, i, c, RunOf(s, i, c))
    ensures forall n: nat :: ExactRun(s, i, c, n) ==> n == RunOf(s, i, c)
    decreases |s| - i
  {
    if i < |s| && s[i] == c {
      RunIs(s, i + 1, c);
      forall n: nat | ExactRun(s, i, c, n)
        ensures n == RunOf(s, i, c)
      {
        assert n > 0;
        assert ExactRun(s, i + 1, c, n - 1);
      }
    } else {
      forall n: nat | ExactRun(s, i, c, n)
        ensures n == 0
      {
        RunStart(s, i, c, n);
      }
    }
  }

  /** Spaces and tabs from `p` up to `q`, and neither at `q`. */
  predicate BlanksUpTo(s: string, p: nat, q: nat)
  {
    p <= q <= |s| && (forall k :: p <= k < q ==> s[k] == ' ' || s[k] == '\t') && (q < |s| ==> s[q] != ' ' && s[q] != '\t')
  }

  lemma BlankStart(s: string, p: nat, q: nat)
    requires BlanksUpTo(s, p, q)
    ensures q > p ==> p < |s| && (s[p] == ' ' || s[p] == '\t')
  {
  }

  lemma {:induction false} BlanksAre(s: string, p: nat)
    requires p <= |s|
    ensures BlanksUpTo(s, p, p + BlankRun(s, p))
    ensures forall q: nat :: BlanksUpTo(s, p, q) ==> q == p + BlankRun(s, p)
    decreases |s| - p
  {
    if p < |s| && (s[p] == ' ' || s[p] == '\t') {
      BlanksAre(s, p + 1);
      forall q: nat | BlanksUpTo(s, p, q)
        ensures BlanksUpTo(s, p + 1, q)
      {
        assert q > p;
      }
    } else {
      forall q: nat | BlanksUpTo(s, p, q)
        ensures q == p
      {
        BlankStart(s, p, q);
      }
    }
  }

  /** No carriage return or line feed from `p` up to `e`, and one of them, or the end, at `e`. */
  predicate RestOfLine(s: string, p: nat, e: nat)
  {
    p <= e <= |s| && (forall k :: p <= k < e ==> s[k] != '\r' && s[k] != '\n') && (e < |s| ==> s[e] == '\r' || s[e] == '\n')
  }

  lemma RestStart(s: string, p: nat, e: nat)
    requires RestOfLine(s, p, e)
    ensures e > p ==> p < |s| && s[p] != '\r' && s[p] != '\n'
  {
  }

  lemma {:induction false} RestIs(s: string, p: nat)
    requires p <= |s|
    ensures RestOfLine(s, p, InfoEnd(s, p))
    ensures forall e: nat :: RestOfLine(s, p, e) ==> e == InfoEnd(s, p)
    decreases |s| - p
  {
    if p < |s| && s[p] != '\r' && s[p] != '\n' {
      RestIs(s, p + 1);
      forall e: nat | RestOfLine(s, p, e)
        ensures RestOfLine(s, p + 1, e)
      {
        assert e > p;
      }
    } else {
      forall e: nat | RestOfLine(s, p, e)
        ensures e == p
      {
        RestStart(s, p, e);
      }
    }
  }

  /** A line feed, alone or behind a carriage return, from `e` up to `b`. */
  predicate LineFeed(s: string, e: nat, b: nat)
  {
    e < b <= |s| && ((b == e + 1 && s[e] == '\n') || (b == e + 2 && s[e] == '\r' && s[e + 1] == '\n'))
  }

  /** The line opens a fence: three or more markers of one kind, the rest of the line up to `e`, and a line feed. */
  predicate OpensFence(s: string, i: nat, o: Opening, e: nat)
  {
    && i <= |s| && AnchorsAt(s, i) && (o.marker == '`' || o.marker == '~') && o.length >= 3
    && ExactRun(s, i, o.marker, o.length)
    && RestOfLine(s, i + o.length, e) && o.info == s[i + o.length..e] && LineFeed(s, e, o.bodyStart)
  }

  /** An opening is read exactly where one is written; a line that the message ends in opens nothing. */
  lemma OpeningIff(s: string, i: nat, o: Opening)
    requires i <= |s|
    ensures OpeningAt(s, i) == Some(o) <==> exists e: nat :: OpensFence(s, i, o, e)
  {
    hide AnchorsAt;
    if i < |s| {
      RunIs(s, i, s[i]);
      var n := RunOf(s, i, s[i]);
      RestIs(s, i + n);
      var e := InfoEnd(s, i + n);
      hide RunOf, InfoEnd;
      if OpeningAt(s, i) == Some(o) {
        assert OpensFence(s, i, o, e);
      }
      if e': nat :| OpensFence(s, i, o, e') {
        assert s[i] == o.marker;
        assert ExactRun(s, i, s[i], o.length);
        assert e' == e;
      }
    }
  }

  /** The end of a closing line: behind its line feed, or where the line ends without one. */
  predicate LineCloses(s: string, q: nat, end: nat)
  {
    LineFeed(s, q, end)
    || (end == q <= |s| && (q < |s| ==> EndsLine(s[q]) && s[q] != '\n' && !(s[q] == '\r' && q + 1 < |s| && s[q + 1] == '\n')))
  }

  /** The line closes the fence: at least as many of its markers, then blanks up to `q`, then the end of the line. */
  predicate ClosesFence(s: string, j: nat, marker: char, length: nat, end: nat, n: nat, q: nat)
  {
    && j <= |s| && AnchorsAt(s, j) && n >= length && ExactRun(s, j, marker, n) && BlanksUpTo(s, j + n, q) && LineCloses(s, q, end)
  }

  /** A closing is read exactly where one is written, and ends with its line. */
  lemma ClosingIff(s: string, j: nat, marker: char, length: nat, end: nat)
    requires j <= |s|
    ensures ClosingAt(s, j, marker, length) == Some(end)
            <==> exists n: nat, q: nat :: ClosesFence(s, j, marker, length, end, n, q)
  {
    hide AnchorsAt;
    RunIs(s, j, marker);
    var n := RunOf(s, j, marker);
    BlanksAre(s, j + n);
    var q := j + n + BlankRun(s, j + n);
    hide RunOf, BlankRun;
    if ClosingAt(s, j, marker, length) == Some(end) {
      assert ClosesFence(s, j, marker, length, end, n, q);
    }
    if n': nat, q': nat :| ClosesFence(s, j, marker, length, end, n', q') {
      assert n' == n && q' == q;
    }
  }

  predicate AllSpace(s: string) { forall i :: 0 <= i < |s| ==> IsSpace(s[i]) }

  /** A fence holds an applet exactly when its line names it, with any white space around the name. */
  lemma AppletIff(f: Fence)
    ensures IsApplet(f)
            <==> exists a: string, b: string :: f.info == a + "mousse-applet" + b && AllSpace(a) && AllSpace(b)
  {
    var info := f.info;
    if IsApplet(f) {
      var a, b := AroundTrim(info);
    }
    hide IsSpace, Trim, AllSpace;
    if a: string, b: string :| info == a + "mousse-applet" + b && AllSpace(a) && AllSpace(b) {
      NameIsTrimmed();
      TrimBetween(a, "mousse-applet", b);
    }
  }

  lemma NameIsTrimmed()
    ensures "mousse-applet" != [] && Trimmed("mousse-applet")
  {
  }

  lemma AroundTrim(info: string) returns (a: string, b: string)
    ensures info == a + Trim(info) + b && AllSpace(a) && AllSpace(b)
  {
    TrimDropsSpaceOnly(info);
    var i := LeadingSpace(info);
    a, b := info[..i], info[i + |Trim(info)|..];
    hide IsSpace, Trim, LeadingSpace;
    assert forall k :: 0 <= k < |b| ==> b[k] == info[i + |Trim(info)| + k];
  }

  lemma TrimBetween(a: string, name: string, b: string)
    requires name != [] && Trimmed(name) && AllSpace(a) && AllSpace(b)
    ensures Trim(a + name + b) == name
  {
    var s := a + name + b;
    TrimDropsSpaceOnly(s);
    var i, n := LeadingSpace(s), |Trim(s)|;
    assert s[|a|] == name[0] && s[|a| + |name| - 1] == name[|name| - 1];
    assert forall k :: 0 <= k < |a| ==> s[k] == a[k];
    assert forall k :: |a| + |name| <= k < |s| ==> s[k] == b[k - |a| - |name|];
    hide IsSpace, Trim, LeadingSpace;
    assert i <= |a|;
    assert i + n >= |a| + |name|;
    SameEnds(s, i, n, |a|, |name|);
    assert s[|a|..|a| + |name|] == name;
  }

  /** A trimmed piece of a text leaves no white space at its ends. */
  lemma SameEnds(s: string, i: nat, n: nat, a: nat, m: nat)
    requires i <= a && a + m <= i + n <= |s| && m > 0 && Trimmed(s[i..i + n])
    requires (forall k :: 0 <= k < a ==> IsSpace(s[k])) && (forall k :: a + m <= k < |s| ==> IsSpace(s[k]))
    ensures i == a && i + n == a + m
  {
    hide IsSpace;
    assert s[i..i + n][0] == s[i] && s[i..i + n][n - 1] == s[i + n - 1];
  }
}
