/**
 * What the readable part of a block shows (`formatChatReferences`, `reviewCommentLines` and `fenceFor` of
 * src/shared/chatReferences.ts): every field of every reference, and selected code in a fence it cannot close.
 */
module BlockContents {
  import opened Options
  import opened Strings
  import opened ReviewText
  import opened ChatReferences
  import opened ReferenceBlocks
  import Lines
  import Sequences

  // ---------------------------------------------------------------------------------------------
  // Fences
  // ---------------------------------------------------------------------------------------------

  /** `n` backticks in a row stand at `i`. */
  predicate TicksAt(s: string, i: nat, n: nat) { i + n <= |s| && forall k :: i <= k < i + n ==> s[k] == '`' }

  lemma {:induction false} EndRunIs(s: string)
    ensures EndRun(s) <= |s| && TicksAt(s, |s| - EndRun(s), EndRun(s))
    ensures forall i: nat, n: nat :: TicksAt(s, i, n) && i + n == |s| ==> n <= EndRun(s)
  {
    if s != [] && s[|s| - 1] == '`' {
      var front := s[..|s| - 1];
      EndRunIs(front);
      forall i: nat, n: nat | TicksAt(s, i, n) && i + n == |s| && n > 0
        ensures n <= EndRun(s)
      {
        assert TicksAt(front, i, n - 1);
      }
    } else {
      forall i: nat, n: nat | TicksAt(s, i, n) && i + n == |s|
        ensures n == 0
      {
        LastTick(s, i, n);
      }
    }
  }

  lemma LastTick(s: string, i: nat, n: nat)
    requires TicksAt(s, i, n) && i + n == |s|
    ensures n > 0 ==> s != [] && s[|s| - 1] == '`'
  {
  }

  /** The longest run of backticks is one, and no run is longer. */
  lemma {:induction false} LongestRunIs(s: string)
    ensures exists i: nat, n: nat :: TicksAt(s, i, n) && n == LongestRun(s)
    ensures forall i: nat, n: nat :: TicksAt(s, i, n) ==> n <= LongestRun(s)
  {
    if s == [] {
      assert TicksAt(s, 0, 0);
    } else {
      var front := s[..|s| - 1];
      LongestRunIs(front);
      EndRunIs(s);
      hide EndRun;
      if EndRun(s) > LongestRun(front) {
        assert TicksAt(s, |s| - EndRun(s), LongestRun(s));
      } else {
        var i: nat, n: nat :| TicksAt(front, i, n) && n == LongestRun(front);
        assert TicksAt(s, i, n);
      }
      forall i: nat, n: nat | TicksAt(s, i, n)
        ensures n <= LongestRun(s)
      {
        if i + n < |s| {
          assert TicksAt(front, i, n);
        }
      }
    }
  }

  /** The fence around a text is three backticks or one more than its longest run has, so nothing in the text can close it. */
  lemma FenceIsLonger(text: string)
    ensures |FenceFor(text)| >= 3 && forall i: nat, n: nat :: TicksAt(text, i, n) ==> n < |FenceFor(text)|
    ensures |FenceFor(text)| > 3 ==> exists i: nat, n: nat :: TicksAt(text, i, n) && n == |FenceFor(text)| - 1
    ensures forall k :: 0 <= k < |FenceFor(text)| ==> FenceFor(text)[k] == '`'
  {
    LongestRunIs(text);
    hide LongestRun;
  }

  // ---------------------------------------------------------------------------------------------
  // Comments
  // ---------------------------------------------------------------------------------------------

  /** The line without the caption or the indent it was shown with. */
  function Uncaptioned(lines: seq<string>): seq<string>
    requires lines != [] && |lines[0]| >= 11 && forall i :: 1 <= i < |lines| ==> |lines[i]| >= 4
  {
    [lines[0][11..]] + seq(|lines| - 1, i requires 0 <= i < |lines| - 1 => lines[i + 1][4..])
  }

  /** A comment is shown whole: its lines without caption and indent are the comment. */
  lemma CommentIsShown(comment: string)
    ensures var lines := CommentLines(comment);
            && lines != [] && StartsWith(lines[0], "  Comment: ")
            && (forall i :: 1 <= i < |lines| ==> StartsWith(lines[i], "    "))
            && Lines.Join(Uncaptioned(lines), NL) == comment
  {
    var before, lines := Lines.Split(comment, NL), CommentLines(comment);
    Lines.JoinSplit(comment, NL);
    hide Lines.Split, Lines.Join;
    assert lines[0] == "  Comment: " + before[0];
    assert forall i :: 1 <= i < |lines| ==> lines[i] == "    " + before[i];
    assert Uncaptioned(lines) == before;
  }

  // ---------------------------------------------------------------------------------------------
  // The language of the selected code
  // ---------------------------------------------------------------------------------------------

  predicate IsExtension(e: string) { 1 <= |e| <= 16 && forall i :: 0 <= i < |e| ==> IsExtensionChar(e[i]) }

  lemma {:induction false} RunAfterDot(front: string, e: string)
    requires forall i :: 0 <= i < |e| ==> IsExtensionChar(e[i])
    ensures ExtensionRun(front + "." + e) == |e|
    decreases |e|
  {
    var s := front + "." + e;
    hide IsExtensionChar;
    if e == "" {
      assert s[|s| - 1] == '.';
      assert !IsExtensionChar('.') by { DotIsNone(); }
    } else {
      var shorter := e[..|e| - 1];
      assert s[|s| - 1] == e[|e| - 1] && s[..|s| - 1] == front + "." + shorter;
      RunAfterDot(front, shorter);
    }
  }

  lemma DotIsNone()
    ensures !IsExtensionChar('.')
  {
  }

  /** A path that ends in a dot and one to sixteen extension characters names its language by them in lower case. */
  lemma ExtensionNames(front: string, e: string)
    requires IsExtension(e)
    ensures Extension(front + "." + e) == AsciiLower(e)
  {
    var path := front + "." + e;
    RunAfterDot(front, e);
    hide ExtensionRun, IsExtensionChar, AsciiLower;
    assert path[|path| - |e|..] == e && path[|path| - |e| - 1] == '.';
  }

  /** Any other path names none. */
  lemma OnlyExtensionsName(path: string)
    ensures Extension(path) != "" ==> exists front: string, e: string :: path == front + "." + e && IsExtension(e)
  {
    var n := ExtensionRun(path);
    hide ExtensionRun, IsExtensionChar, AsciiLower;
    if 1 <= n <= 16 && n < |path| && path[|path| - n - 1] == '.' {
      var front, e := path[..|path| - n - 1], path[|path| - n..];
      assert forall i :: 0 <= i < |e| ==> e[i] == path[|path| - n + i];
      assert IsExtension(e) && path == front + "." + e;
    }
  }

  // ---------------------------------------------------------------------------------------------
  // Fields
  // ---------------------------------------------------------------------------------------------

  /** The captions of the fields shown one by one. */
  function Caption(f: Field): string
    requires f in SHOWN
  {
    match f
    case Url => "  URL: "
    case ThreadId => "  Thread ID: "
    case ProjectId => "  Project ID: "
    case SessionId => "  Session ID: "
    case _ => "  Agent ID: "
  }

  const SHOWN: set<Field> := {Url, ThreadId, ProjectId, SessionId, AgentId}

  /** The first of the fields that name a place which the reference has. */
  function Place(r: Reference): Option<string>
  {
    if MetadataPath in r.fields then Some(r.fields[MetadataPath])
    else if Path in r.fields then Some(r.fields[Path])
    else if Cwd in r.fields then Some(r.fields[Cwd]) else None
  }

  function One(o: bool): nat { if o then 1 else 0 }

  lemma LabelledIs(caption: string, r: Reference, f: Field)
    ensures |Labelled(caption, r, f)| == One(f in r.fields)
    ensures f in r.fields ==> caption + r.fields[f] in Labelled(caption, r, f)
  {
  }

  lemma PlaceIs(r: Reference)
    ensures |ContextPath(r)| == One(Place(r).Some?)
    ensures Place(r).Some? ==> "  Path: " + Place(r).value in ContextPath(r)
  {
  }

  lemma LocationIs(r: Reference)
    ensures |Location(r)| == One(r.line.Some?)
    ensures r.line.Some? ==> StartsWith(Location(r)[0], "  Location: line " + ReferenceBlocks.Number(r.line.value))
    ensures r.line.Some? && r.column.Some? ==> EndsWith(Location(r)[0], ", column " + ReferenceBlocks.Number(r.column.value))
  {
    hide ReferenceBlocks.Number;
    if r.line.Some? && r.column.Some? {
      var line, tail := Location(r)[0], ", column " + ReferenceBlocks.Number(r.column.value);
      assert line == "  Location: line " + ReferenceBlocks.Number(r.line.value) + tail;
      assert line[|line| - |tail|..] == tail;
    }
  }

  /**
   * The lines of a reference that is no review comment: its kind and title first, then one line for the place it names and
   * one for each other field it has, and one for a line number; nothing else.
   */
  lemma FieldsAreShown(codec: Codec, r: Reference)
    ensures var lines := DetailLines(codec, r);
            && lines[0] == "- " + KindName(r.kind) + ": " + codec.quote(r.title)
            && (Place(r).Some? ==> "  Path: " + Place(r).value in lines)
            && (forall f :: f in SHOWN && f in r.fields ==> Caption(f) + r.fields[f] in lines)
            && (r.line.Some? ==> exists i :: 0 <= i < |lines| && StartsWith(lines[i], "  Location: line " + ReferenceBlocks.Number(r.line.value)))
            && |lines| == 1 + One(Place(r).Some?) + One(Url in r.fields) + One(ThreadId in r.fields) + One(ProjectId in r.fields)
                          + One(SessionId in r.fields) + One(AgentId in r.fields) + One(r.line.Some?)
  {
    DetailsOf(codec, r);
    PlaceIs(r);
    LocationIs(r);
    LabelledIs("  URL: ", r, Url);
    LabelledIs("  Thread ID: ", r, ThreadId);
    LabelledIs("  Project ID: ", r, ProjectId);
    LabelledIs("  Session ID: ", r, SessionId);
    LabelledIs("  Agent ID: ", r, AgentId);
    hide DetailLines, ContextPath, Location, Labelled, Place, ReferenceBlocks.Number, KindName, StartsWith, EndsWith;
    if r.line.Some? {
      var lines := DetailLines(codec, r);
      assert lines[|lines| - 1] == Location(r)[0];
    }
  }

  // ---------------------------------------------------------------------------------------------
  // The body
  // ---------------------------------------------------------------------------------------------

  function LinesFor(codec: Codec, r: Reference): seq<string>
  {
    if r.kind.ReviewComment? then ReviewLines(codec, r) else DetailLines(codec, r)
  }

  lemma {:induction false} BodyConcat(codec: Codec, a: seq<Reference>, b: seq<Reference>)
    ensures BodyLines(codec, a + b) == BodyLines(codec, a) + BodyLines(codec, b)
    decreases |a|
  {
    hide ReviewLines, DetailLines;
    if a == [] {
      assert a + b == b;
      Sequences.Empty(BodyLines(codec, b));
    } else {
      assert (a + b)[0] == a[0] && (a + b)[1..] == a[1..] + b;
      BodyConcat(codec, a[1..], b);
    }
  }

  /** Each reference's lines stand in the body in a row, in the order of the references. */
  lemma EveryReferenceIsShown(codec: Codec, before: seq<Reference>, r: Reference, after: seq<Reference>)
    ensures BodyLines(codec, before + [r] + after) == BodyLines(codec, before) + LinesFor(codec, r) + BodyLines(codec, after)
  {
    hide ReviewLines, DetailLines;
    BodyConcat(codec, before + [r], after);
    BodyConcat(codec, before, [r]);
    assert [r][1..] == [];
    Sequences.Empty(LinesFor(codec, r));
  }

  /** A review comment shows its path, its lines, its version, the whole comment, and the excerpt between two fences. */
  lemma ReviewIsShown(codec: Codec, r: Reference)
    requires Parsed(r) && r.kind.ReviewComment?
    ensures var lines := ReviewLines(codec, r);
            && lines[0] == "- review-comment: " + codec.quote(r.title)
            && lines[1] == "  Path: " + r.fields[Path]
            && lines[2] == (if r.endLine.Some? && r.endLine.value != r.line.value
                            then "  Lines: " + ReferenceBlocks.Number(r.line.value) + "–" + ReferenceBlocks.Number(r.endLine.value)
                            else "  Line: " + ReferenceBlocks.Number(r.line.value))
            && lines[3] == "  Scope: " + r.scopeLabel.GetOr(r.reviewScope.value)
            && lines[4..4 + |CommentLines(r.comment.value)|] == CommentLines(r.comment.value)
            && (r.excerpt.None? ==> |lines| == 4 + |CommentLines(r.comment.value)|)
            && (r.excerpt.Some? ==> && |lines| == 8 + |CommentLines(r.comment.value)|
                                    && lines[|lines| - 4] == "  Selected code:"
                                    && lines[|lines| - 3] == FenceFor(r.excerpt.value) + Extension(r.fields[Path])
                                    && lines[|lines| - 2] == r.excerpt.value && lines[|lines| - 1] == FenceFor(r.excerpt.value))
  {
    hide ReferenceBlocks.Number, Extension, FenceFor, CommentLines, Clean, OptClean, OptComment, OptExcerpt, OptScope, AllClean, OptPositive;
    ReviewTitle(codec, r);
    var comment := CommentLines(r.comment.value);
    var code := CodeLines(r);
    var head := [Title(codec, r), "  Path: " + r.fields[Path], LineNumbers(r)] + ScopeLine(r);
    assert |ScopeLine(r)| == 1;
    assert ReviewLines(codec, r) == head + comment + code;
  }

  lemma ReviewTitle(codec: Codec, r: Reference)
    requires r.kind.ReviewComment?
    ensures Title(codec, r) == "- review-comment: " + codec.quote(r.title)
  {
    assert "- " + KindName(r.kind) + ": " == "- review-comment: ";
  }

  /** The kinds by name. */
  lemma KindNames()
    ensures KindName(File) == "file" && KindName(Folder) == "folder" && KindName(Project) == "project"
    ensures KindName(Thread) == "thread" && KindName(Terminal) == "terminal" && KindName(Browser) == "browser"
    ensures KindName(Agent) == "agent" && KindName(ReviewComment) == "review-comment"
  {
  }
}
