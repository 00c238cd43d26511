/**
 * The block of references in a message: written for the model to read, and read back by the user interface
 * (`formatChatReferences` and `extractChatReferences` in src/shared/chatReferences.ts).
 */
module ReferenceBlocks {
  import opened Options
  import opened Strings
  import opened ReviewText
  import opened ChatReferences
  import Decimals
  import Lines
  import Sequences

  /**
   * What JSON and URI components do for the block: `encode` is the encoded list of a header, `decode` reads it (None for
   * anything that is not a list), `quote` is one JSON string.
   */
  datatype Codec = Codec(encode: seq<Reference> -> string, decode: string -> Option<seq<Raw>>, quote: string -> string)

  function RawsOf(refs: seq<Reference>): (raws: seq<Raw>)
    ensures |raws| == |refs| && forall i :: 0 <= i < |refs| ==> raws[i] == RawOf(refs[i])
  {
    seq(|refs|, i requires 0 <= i < |refs| => RawOf(refs[i]))
  }

  const QUOTE := '"'

  /** A header can hold it: it is not empty and has no quote, newline or closing bracket. */
  predicate HeaderSafe(s: string) { s != [] && QUOTE !in s && NL !in s && ']' !in s }

  ghost predicate AllParsed(refs: seq<Reference>) { forall i :: 0 <= i < |refs| ==> Parsed(refs[i]) }

  /** For parsed references decoding undoes encoding, and what is encoded or quoted stays on its line. */
  ghost predicate Lawful(codec: Codec)
  {
    && (forall refs :: AllParsed(refs) ==> codec.decode(codec.encode(refs)) == Some(RawsOf(refs)))
    && (forall refs :: AllParsed(refs) ==> HeaderSafe(codec.encode(refs)))
    && (forall s :: NL !in codec.quote(s))
  }

  /** The values that parse, in order; `newId(i)` is the id made for the value at place `i` if it has none. */
  function ParseAll(raws: seq<Raw>, newId: nat -> string): seq<Reference>
  {
    if raws == [] then []
    else
      var last := Parse(raws[|raws| - 1], newId(|raws| - 1));
      ParseAll(raws[..|raws| - 1], newId) + if last.Some? then [last.value] else []
  }

  // ---------------------------------------------------------------------------------------------
  // Writing a block
  // ---------------------------------------------------------------------------------------------

  const OPENER := "[Mousse references data=\""

  const HEADER_END := "\"]\n"

  const CLOSER := "\n[/Mousse references]"

  function KindName(kind: Kind): string
  {
    match kind
    case File => "file"
    case Folder => "folder"
    case Project => "project"
    case Thread => "thread"
    case Terminal => "terminal"
    case Browser => "browser"
    case Agent => "agent"
    case ReviewComment => "review-comment"
  }

  function Labelled(caption: string, r: Reference, field: Field): seq<string>
  {
    if field in r.fields then [caption + r.fields[field]] else []
  }

  function ContextPath(r: Reference): seq<string>
  {
    if MetadataPath in r.fields then Labelled("  Path: ", r, MetadataPath)
    else if Path in r.fields then Labelled("  Path: ", r, Path)
    else Labelled("  Path: ", r, Cwd)
  }

  function Number(n: int): string { if n >= 0 then Decimals.Decimal(n) else "-" + Decimals.Decimal(-n) }

  function Location(r: Reference): seq<string>
  {
    if r.line.None? then []
    else ["  Location: line " + Number(r.line.value) + if r.column.Some? then ", column " + Number(r.column.value) else ""]
  }

  function Title(codec: Codec, r: Reference): string { "- " + KindName(r.kind) + ": " + codec.quote(r.title) }

  function DetailLines(codec: Codec, r: Reference): seq<string>
  {
    [Title(codec, r)] + ContextPath(r) + Labelled("  URL: ", r, Url) + Labelled("  Thread ID: ", r, ThreadId)
    + Labelled("  Project ID: ", r, ProjectId) + Labelled("  Session ID: ", r, SessionId)
    + Labelled("  Agent ID: ", r, AgentId) + Location(r)
  }

  function Backticks(n: nat): (s: string)
    ensures |s| == n && forall i :: 0 <= i < n ==> s[i] == '`'
  {
    seq(n, _ => '`')
  }

  /** The longest run of backticks that ends at the end of `s`, and the longest anywhere. */
  function EndRun(s: string): nat { if s == [] || s[|s| - 1] != '`' then 0 else 1 + EndRun(s[..|s| - 1]) }

  function LongestRun(s: string): nat
  {
    if s == [] then 0
    else
      var before := LongestRun(s[..|s| - 1]);
      if EndRun(s) > before then EndRun(s) else before
  }

  function FenceFor(text: string): string { Backticks(if LongestRun(text) < 3 then 3 else LongestRun(text) + 1) }

  predicate IsExtensionChar(c: char)
  {
    'A' <= c <= 'Z' || 'a' <= c <= 'z' || '0' <= c <= '9' || c == '+' || c == '#' || c == '_' || c == '-'
  }

  /** The longest ending of extension characters. */
  function ExtensionRun(s: string): (n: nat)
    ensures n <= |s|
    ensures forall i :: |s| - n <= i < |s| ==> IsExtensionChar(s[i])
  {
    if s == [] || !IsExtensionChar(s[|s| - 1]) then 0 else 1 + ExtensionRun(s[..|s| - 1])
  }

  function Extension(path: string): string
  {
    var n := ExtensionRun(path);
    if 1 <= n <= 16 && n < |path| && path[|path| - n - 1] == '.' then AsciiLower(path[|path| - n..]) else ""
  }

  function Indent(lines: seq<string>): (r: seq<string>)
    ensures |r| == |lines| && forall i :: 0 <= i < |lines| ==> r[i] == "    " + lines[i]
  {
    seq(|lines|, i requires 0 <= i < |lines| => "    " + lines[i])
  }

  function CommentLines(comment: string): seq<string>
  {
    var lines := Lines.Split(comment, NL);
    ["  Comment: " + lines[0]] + Indent(lines[1..])
  }

  function LineNumbers(r: Reference): string
  {
    var line := r.line.GetOr(0);
    if r.endLine.Some? && r.endLine.value > line then "  Lines: " + Number(line) + "–" + Number(r.endLine.value)
    else "  Line: " + Number(line)
  }

  function ScopeLine(r: Reference): seq<string>
  {
    if r.scopeLabel.Some? then ["  Scope: " + r.scopeLabel.value]
    else if r.reviewScope.Some? then ["  Scope: " + r.reviewScope.value] else []
  }

  function CodeLines(r: Reference): seq<string>
  {
    if r.excerpt.None? then []
    else
      var fence := FenceFor(r.excerpt.value);
      ["  Selected code:", fence + (if Path in r.fields then Extension(r.fields[Path]) else ""), r.excerpt.value, fence]
  }

  function ReviewLines(codec: Codec, r: Reference): seq<string>
  {
    [Title(codec, r)] + Labelled("  Path: ", r, Path) + [LineNumbers(r)] + ScopeLine(r) + CommentLines(r.comment.GetOr(""))
    + CodeLines(r)
  }

  function BodyLines(codec: Codec, refs: seq<Reference>): seq<string>
  {
    if refs == [] then []
    else (if refs[0].kind.ReviewComment? then ReviewLines(codec, refs[0]) else DetailLines(codec, refs[0])) + BodyLines(codec, refs[1..])
  }

  function Body(codec: Codec, refs: seq<Reference>): string { Lines.Join(BodyLines(codec, refs), NL) }

  function BlockOf(encoded: string, body: string): string { OPENER + encoded + HEADER_END + body + CLOSER }

  function Format(codec: Codec, refs: seq<Reference>, newId: nat -> string): string
  {
    var valid := ParseAll(RawsOf(refs), newId);
    if valid == [] then "" else BlockOf(codec.encode(valid), Body(codec, valid))
  }

  // ---------------------------------------------------------------------------------------------
  // Nothing in a body looks like the end of the block
  // ---------------------------------------------------------------------------------------------

  ghost predicate AllClear(texts: seq<string>) { forall i :: 0 <= i < |texts| ==> Clear(texts[i]) }

  lemma ClearConcat(a: seq<string>, b: seq<string>)
    requires AllClear(a) && AllClear(b)
    ensures AllClear(a + b)
  {
  }

  /** A line that does not begin with a bracket is no marker. */
  lemma PlainLine(prefix: string, rest: string)
    requires prefix != [] && prefix[0] != '[' && NL !in prefix && NL !in rest
    ensures Clear(prefix + rest)
  {
    NotMarker(prefix + rest);
    ClearLine(prefix + rest);
  }

  lemma CleanHasNoNewline(s: string, max: nat)
    requires Clean(s, max)
    ensures NL !in s
  {
  }

  lemma LabelledIsClear(caption: string, r: Reference, field: Field)
    requires Parsed(r) && caption != [] && caption[0] != '[' && NL !in caption
    ensures AllClear(Labelled(caption, r, field))
  {
    if field in r.fields {
      assert Clean(r.fields[field], MAX_FIELD);
      hide Parsed, Clear, Clean;
      CleanHasNoNewline(r.fields[field], MAX_FIELD);
      PlainLine(caption, r.fields[field]);
    }
  }

  lemma NumberHasNoNewline(n: int)
    ensures NL !in Number(n)
  {
    var d := Decimals.Decimal(if n >= 0 then n else -n);
    assert NL !in d;
  }

  lemma TitleIsClear(codec: Codec, r: Reference)
    requires Lawful(codec)
    ensures Clear(Title(codec, r))
  {
    var head := "- " + KindName(r.kind) + ": ";
    assert NL !in codec.quote(r.title);
    assert NL !in head && head[0] == '-' by { hide Lawful; }
    hide Lawful, Clear;
    PlainLine(head, codec.quote(r.title));
  }

  lemma LocationIsClear(r: Reference)
    ensures AllClear(Location(r))
  {
    if r.line.Some? {
      var rest := Number(r.line.value) + if r.column.Some? then ", column " + Number(r.column.value) else "";
      NumberHasNoNewline(r.line.value);
      if r.column.Some? {
        NumberHasNoNewline(r.column.value);
      }
      hide Clear, Number;
      PlainLine("  Location: line ", rest);
      var caption := "  Location: line ";
      assert caption + rest == Location(r)[0];
    }
  }

  lemma DetailsAreClear(codec: Codec, r: Reference)
    requires Lawful(codec) && Parsed(r)
    ensures AllClear(DetailLines(codec, r))
  {
    TitleIsClear(codec, r);
    LabelledIsClear("  Path: ", r, MetadataPath);
    LabelledIsClear("  Path: ", r, Path);
    LabelledIsClear("  Path: ", r, Cwd);
    LabelledIsClear("  URL: ", r, Url);
    LabelledIsClear("  Thread ID: ", r, ThreadId);
    LabelledIsClear("  Project ID: ", r, ProjectId);
    LabelledIsClear("  Session ID: ", r, SessionId);
    LabelledIsClear("  Agent ID: ", r, AgentId);
    LocationIsClear(r);
    OneClear(Title(codec, r));
    assert AllClear(ContextPath(r)) by { hide Clear, Lawful, Parsed; }
    hide *;
    DetailsOf(codec, r);
    var url, thread := Labelled("  URL: ", r, Url), Labelled("  Thread ID: ", r, ThreadId);
    var project, session := Labelled("  Project ID: ", r, ProjectId), Labelled("  Session ID: ", r, SessionId);
    var agent := Labelled("  Agent ID: ", r, AgentId);
    ClearConcat([Title(codec, r)], ContextPath(r));
    ClearConcat([Title(codec, r)] + ContextPath(r), url);
    ClearConcat([Title(codec, r)] + ContextPath(r) + url, thread);
    ClearConcat([Title(codec, r)] + ContextPath(r) + url + thread, project);
    ClearConcat([Title(codec, r)] + ContextPath(r) + url + thread + project, session);
    ClearConcat([Title(codec, r)] + ContextPath(r) + url + thread + project + session, agent);
    ClearConcat([Title(codec, r)] + ContextPath(r) + url + thread + project + session + agent, Location(r));
  }

  lemma DetailsOf(codec: Codec, r: Reference)
    ensures DetailLines(codec, r)
         == [Title(codec, r)] + ContextPath(r) + Labelled("  URL: ", r, Url) + Labelled("  Thread ID: ", r, ThreadId)
            + Labelled("  Project ID: ", r, ProjectId) + Labelled("  Session ID: ", r, SessionId)
            + Labelled("  Agent ID: ", r, AgentId) + Location(r)
  {
  }

  lemma OneClear(text: string)
    requires Clear(text)
    ensures AllClear([text])
  {
  }

  lemma IndentIsClear(lines: seq<string>)
    requires Lines.AllFree(lines, NL)
    ensures AllClear(Indent(lines))
  {
    forall i | 0 <= i < |lines|
      ensures Clear(Indent(lines)[i])
    {
      assert Lines.Free(lines[i], NL);
      PlainLine("    ", lines[i]);
    }
  }

  lemma CommentIsClear(comment: string)
    ensures AllClear(CommentLines(comment))
  {
    var lines := Lines.Split(comment, NL);
    Lines.SplitFree(comment, NL);
    assert Lines.Free(lines[0], NL);
    assert Lines.AllFree(lines[1..], NL);
    hide Clear, Lines.Split;
    PlainLine("  Comment: ", lines[0]);
    IndentIsClear(lines[1..]);
  }

  lemma ScopeHasNoNewline(s: string)
    requires IsReviewScope(s)
    ensures NL !in s
  {
    if s != "thread" && s != "worktree:staged" && s != "worktree:unstaged" {
      forall i | 0 <= i < |s|
        ensures s[i] != NL
      {
        if i < 5 {
          assert s[..5][i] == "turn:"[i];
        } else {
          assert !IsSpace(s[i]);
        }
      }
    }
  }

  lemma ScopeIsClear(r: Reference)
    requires Parsed(r)
    ensures AllClear(ScopeLine(r))
  {
    if r.scopeLabel.Some? {
      CleanHasNoNewline(r.scopeLabel.value, 128);
      hide Parsed, Clear;
      PlainLine("  Scope: ", r.scopeLabel.value);
    } else if r.reviewScope.Some? {
      ScopeHasNoNewline(r.reviewScope.value);
      hide Parsed, Clear;
      PlainLine("  Scope: ", r.reviewScope.value);
    }
  }

  lemma LinesAreClear(r: Reference)
    ensures Clear(LineNumbers(r))
  {
    var line := Number(r.line.GetOr(0));
    NumberHasNoNewline(r.line.GetOr(0));
    if r.endLine.Some? {
      NumberHasNoNewline(r.endLine.value);
      hide Clear, Number;
      var caption := "  Lines: ";
      PlainLine(caption + line, "–" + Number(r.endLine.value));
      assert caption + line + ("–" + Number(r.endLine.value)) == "  Lines: " + line + "–" + Number(r.endLine.value);
    }
    hide Clear, Number;
    PlainLine("  Line: ", line);
  }

  lemma ExtensionHasNoNewline(path: string)
    ensures NL !in Extension(path)
  {
    var n := ExtensionRun(path);
    var tail := path[|path| - n..];
    assert forall i :: 0 <= i < |tail| ==> tail[i] == path[|path| - n + i];
  }

  lemma FenceIsClear(fence: string, extension: string)
    requires fence != [] && (forall i :: 0 <= i < |fence| ==> fence[i] == '`') && NL !in extension
    ensures Clear(fence + extension) && Clear(fence)
  {
    hide Clear;
    PlainLine(fence, extension);
    PlainLine(fence, "");
    Sequences.Empty(fence);
  }

  lemma SelectedIsClear()
    ensures Clear("  Selected code:")
  {
    hide Clear;
    PlainLine("  Selected code:", "");
    Sequences.Empty("  Selected code:");
  }

  lemma CodeIsClear(r: Reference)
    requires Parsed(r)
    ensures AllClear(CodeLines(r))
  {
    if r.excerpt.Some? {
      assert Clear(r.excerpt.value) by { hide Clear; }
      var extension := if Path in r.fields then Extension(r.fields[Path]) else "";
      if Path in r.fields {
        ExtensionHasNoNewline(r.fields[Path]);
      }
      hide Parsed, Clear, Extension, LongestRun;
      FenceIsClear(FenceFor(r.excerpt.value), extension);
      SelectedIsClear();
      hide FenceFor;
    }
  }

  lemma ReviewIsClear(codec: Codec, r: Reference)
    requires Lawful(codec) && Parsed(r)
    ensures AllClear(ReviewLines(codec, r))
  {
    TitleIsClear(codec, r);
    LabelledIsClear("  Path: ", r, Path);
    LinesAreClear(r);
    ScopeIsClear(r);
    CommentIsClear(r.comment.GetOr(""));
    CodeIsClear(r);
    OneClear(Title(codec, r));
    OneClear(LineNumbers(r));
    hide *;
    ReviewOf(codec, r);
    var head := [Title(codec, r)] + Labelled("  Path: ", r, Path) + [LineNumbers(r)];
    ClearConcat([Title(codec, r)], Labelled("  Path: ", r, Path));
    ClearConcat([Title(codec, r)] + Labelled("  Path: ", r, Path), [LineNumbers(r)]);
    ClearConcat(head, ScopeLine(r));
    ClearConcat(head + ScopeLine(r), CommentLines(r.comment.GetOr("")));
    ClearConcat(head + ScopeLine(r) + CommentLines(r.comment.GetOr("")), CodeLines(r));
  }

  lemma ReviewOf(codec: Codec, r: Reference)
    ensures ReviewLines(codec, r)
         == [Title(codec, r)] + Labelled("  Path: ", r, Path) + [LineNumbers(r)] + ScopeLine(r)
            + CommentLines(r.comment.GetOr("")) + CodeLines(r)
  {
  }

  lemma {:induction false} BodyLinesClear(codec: Codec, refs: seq<Reference>)
    requires Lawful(codec) && AllParsed(refs)
    ensures AllClear(BodyLines(codec, refs)) && (refs != [] ==> BodyLines(codec, refs) != [])
  {
    if refs != [] {
      assert AllParsed(refs[1..]);
      assert Parsed(refs[0]);
      hide Parsed, Lawful, Clear, DetailLines, ReviewLines;
      BodyLinesClear(codec, refs[1..]);
      SomeLines(codec, refs[0]);
      if refs[0].kind.ReviewComment? {
        ReviewIsClear(codec, refs[0]);
        ClearConcat(ReviewLines(codec, refs[0]), BodyLines(codec, refs[1..]));
      } else {
        DetailsAreClear(codec, refs[0]);
        ClearConcat(DetailLines(codec, refs[0]), BodyLines(codec, refs[1..]));
      }
    }
  }

  lemma SomeLines(codec: Codec, r: Reference)
    ensures ReviewLines(codec, r) != [] && DetailLines(codec, r) != []
  {
  }

  /** No line of a body looks like the end of the block. */
  lemma BodyIsClear(codec: Codec, refs: seq<Reference>)
    requires Lawful(codec) && AllParsed(refs) && refs != []
    ensures Clear(Body(codec, refs))
  {
    BodyLinesClear(codec, refs);
    hide Lawful, Clear, BodyLines;
    ClearTexts(BodyLines(codec, refs));
  }
}
