/**
 * References to files, threads, terminals and review comments, and how untrusted data is read as one
 * (`parseChatReference` in src/shared/chatReferences.ts).
 */
module ChatReferences {
  import opened Options
  import opened Strings
  import opened ReviewText

  datatype Kind = File | Folder | Project | Thread | Terminal | Browser | Agent | ReviewComment

  datatype Field = Path | ThreadId | ProjectId | TabId | SessionId | Url | AgentId | MetadataPath | Cwd

  datatype Reference = Reference(
    id: string, kind: Kind, title: string, fields: map<Field, string>, line: Option<int>, column: Option<int>,
    endLine: Option<int>, comment: Option<string>, excerpt: Option<string>, reviewScope: Option<string>,
    scopeLabel: Option<string>)

  /** A JSON value of one field, as far as it matters: a whole number, a text, anything else, or no field. */
  datatype Json = Absent | Text(text: string) | Number(value: int) | Other

  /** A JSON value read as a reference. `kind` is None when it is not one of the eight names. */
  datatype Raw = NotRecord | Record(
    kind: Option<Kind>, id: Json, title: Json, fields: map<Field, Json>, line: Json, column: Json, endLine: Json,
    comment: Json, excerpt: Json, reviewScope: Json, scopeLabel: Json)

  const MAX_FIELD := 16384

  const MAX_SAFE_INTEGER := 9007199254740991

  // ---------------------------------------------------------------------------------------------
  // Single values
  // ---------------------------------------------------------------------------------------------

  function DropControls(s: string): string
  {
    if s == [] then [] else if IsControl(s[0]) then DropControls(s[1..]) else [s[0]] + DropControls(s[1..])
  }

  predicate NoControl(s: string) { forall i :: 0 <= i < |s| ==> !IsControl(s[i]) }

  lemma {:induction false} DropControlsLaws(s: string)
    ensures NoControl(DropControls(s))
    ensures NoControl(s) ==> DropControls(s) == s
  {
    if s != [] {
      DropControlsLaws(s[1..]);
      assert NoControl(s) ==> NoControl(s[1..]);
    }
  }

  /** A control character goes and every other one stays, wherever they stand. */
  lemma {:induction false} DropsControlsOnly(a: string, c: char, b: string)
    ensures DropControls(a + [c] + b) == DropControls(a) + (if IsControl(c) then [] else [c]) + DropControls(b)
    decreases |a|
  {
    var s := a + [c] + b;
    if a == [] {
      assert s[1..] == b;
    } else {
      assert s[0] == a[0] && s[1..] == a[1..] + [c] + b;
      DropsControlsOnly(a[1..], c, b);
    }
  }

  function CleanString(value: Json, max: nat): Option<string>
  {
    if !value.Text? then None
    else
      var clean := Trim(DropControls(value.text));
      if clean != [] && |clean| <= max then Some(clean) else None
  }

  predicate Clean(s: string, max: nat) { s != [] && |s| <= max && Trimmed(s) && NoControl(s) }

  lemma SliceNoControl(s: string, a: nat, b: nat)
    requires NoControl(s) && a <= b <= |s|
    ensures NoControl(s[a..b])
  {
    hide IsControl;
    var t := s[a..b];
    assert forall i :: 0 <= i < |t| ==> t[i] == s[a + i];
  }

  predicate OptClean(o: Option<string>, max: nat) { o.Some? ==> Clean(o.value, max) }

  lemma CleanIsClean(value: Json, max: nat)
    ensures OptClean(CleanString(value, max), max)
  {
    if value.Text? {
      var plain := DropControls(value.text);
      DropControlsLaws(value.text);
      TrimIsTrimmed(plain);
      TrimIsSlice(plain);
      hide Trim, NoControl, Trimmed, DropControls;
      SliceNoControl(plain, LeadingSpace(plain), LeadingSpace(plain) + |Trim(plain)|);
    }
  }

  lemma CleanIsKept(o: Option<string>, max: nat)
    requires OptClean(o, max)
    ensures CleanString(TextOf(o), max) == o
  {
    if o.Some? {
      DropControlsLaws(o.value);
      TrimmedIsFixed(o.value);
    }
  }

  predicate IsPositive(n: int) { 0 < n <= MAX_SAFE_INTEGER }

  function PositiveInteger(value: Json): Option<int>
  {
    if value.Number? && IsPositive(value.value) then Some(value.value) else None
  }

  predicate IsReviewScope(s: string)
  {
    || s == "thread" || s == "worktree:staged" || s == "worktree:unstaged"
    || (StartsWith(s, "turn:") && 1 <= |s| - 5 <= 256 && forall i :: 5 <= i < |s| ==> !IsSpace(s[i]) && s[i] != ']')
  }

  predicate IsWebUrl(url: string)
  {
    StartsWith(AsciiLower(url), "http://") || StartsWith(AsciiLower(url), "https://") || url == "about:blank"
  }

  // ---------------------------------------------------------------------------------------------
  // parseChatReference
  // ---------------------------------------------------------------------------------------------

  /** What a reference of each kind cannot do without. */
  predicate Needs(kind: Kind, fields: map<Field, string>, reviewed: bool)
  {
    match kind
    case File => Path in fields
    case Folder => Path in fields
    case Project => ProjectId in fields
    case Thread => ThreadId in fields
    case Terminal => TabId in fields
    case Agent => AgentId in fields
    case Browser => Url in fields && IsWebUrl(fields[Url])
    case ReviewComment => Path in fields && reviewed
  }

  predicate Complete(r: Reference) { Needs(r.kind, r.fields, r.line.Some? && r.comment.Some? && r.reviewScope.Some?) }

  function CleanFields(fields: map<Field, Json>): map<Field, string>
  {
    map f | f in fields && CleanString(fields[f], MAX_FIELD).Some? :: CleanString(fields[f], MAX_FIELD).value
  }

  function ParseEnd(endLine: Json, line: Option<int>): Option<int>
  {
    var end := PositiveInteger(endLine);
    if end.Some? && line.Some? && end.value >= line.value then end else None
  }

  function ParseScope(value: Json): Option<string>
  {
    if value.Text? && IsReviewScope(value.text) then Some(value.text) else None
  }

  function ParseText(value: Json, parse: string -> Option<string>): Option<string>
  {
    if value.Text? then parse(value.text) else None
  }

  /** The fields of a reference of a known kind and title; `newId` is the id made when the data holds none. */
  function Built(raw: Raw, kind: Kind, title: string, newId: string): Reference
    requires raw.Record?
  {
    var line := PositiveInteger(raw.line);
    var review := kind.ReviewComment?;
    Reference(CleanString(raw.id, 256).GetOr(newId), kind, title, CleanFields(raw.fields), line, PositiveInteger(raw.column),
              if review then ParseEnd(raw.endLine, line) else None,
              if review then ParseText(raw.comment, ParseComment) else None,
              if review then ParseText(raw.excerpt, ParseExcerpt) else None,
              if review then ParseScope(raw.reviewScope) else None,
              if review then CleanString(raw.scopeLabel, 128) else None)
  }

  function Parse(raw: Raw, newId: string): Option<Reference>
  {
    if raw.NotRecord? || raw.kind.None? || CleanString(raw.title, 512).None? then None
    else
      var r := Built(raw, raw.kind.value, CleanString(raw.title, 512).value, newId);
      if Complete(r) then Some(r) else None
  }

  function TextOf(value: Option<string>): Json { if value.Some? then Text(value.value) else Absent }

  function NumberOf(value: Option<int>): Json { if value.Some? then Number(value.value) else Absent }

  /** A reference as data: a field that is not set is not written. */
  function RawOf(r: Reference): Raw
  {
    Record(Some(r.kind), Text(r.id), Text(r.title), map f | f in r.fields :: Text(r.fields[f]), NumberOf(r.line),
           NumberOf(r.column), NumberOf(r.endLine), TextOf(r.comment), TextOf(r.excerpt), TextOf(r.reviewScope),
           TextOf(r.scopeLabel))
  }

  predicate OptPositive(o: Option<int>) { o.Some? ==> IsPositive(o.value) }

  predicate OptScope(o: Option<string>) { o.Some? ==> IsReviewScope(o.value) }

  ghost predicate OptComment(o: Option<string>) { o.Some? ==> CommentShape(o.value) }

  ghost predicate OptExcerpt(o: Option<string>) { o.Some? ==> ExcerptShape(o.value) }

  predicate EndAfter(end: Option<int>, line: Option<int>) { end.Some? ==> line.Some? && line.value <= end.value }

  predicate AllClean(fields: map<Field, string>) { forall f :: f in fields ==> Clean(fields[f], MAX_FIELD) }

  /** What holds of every reference that parsing returns. */
  ghost predicate Parsed(r: Reference)
  {
    && Clean(r.id, 256) && Clean(r.title, 512) && AllClean(r.fields)
    && OptPositive(r.line) && OptPositive(r.column) && OptPositive(r.endLine) && EndAfter(r.endLine, r.line)
    && OptComment(r.comment) && OptExcerpt(r.excerpt) && OptScope(r.reviewScope) && OptClean(r.scopeLabel, 128)
    && (!r.kind.ReviewComment? ==> r.endLine.None? && r.comment.None? && r.excerpt.None? && r.reviewScope.None? && r.scopeLabel.None?)
    && Complete(r)
  }

  lemma FieldsClean(fields: map<Field, Json>)
    ensures AllClean(CleanFields(fields))
  {
    forall f | f in CleanFields(fields)
      ensures Clean(CleanFields(fields)[f], MAX_FIELD)
    {
      CleanIsClean(fields[f], MAX_FIELD);
    }
  }

  lemma NumbersArePositive(line: Json, endLine: Json)
    ensures OptPositive(PositiveInteger(line))
    ensures var l := PositiveInteger(line); var e := ParseEnd(endLine, l); OptPositive(e) && EndAfter(e, l)
  {
  }

  lemma TextsHaveShape(raw: Raw)
    requires raw.Record?
    ensures OptComment(ParseText(raw.comment, ParseComment)) && OptExcerpt(ParseText(raw.excerpt, ParseExcerpt))
    ensures OptScope(ParseScope(raw.reviewScope)) && OptClean(CleanString(raw.scopeLabel, 128), 128)
  {
    hide ParseComment, ParseExcerpt, IsReviewScope, CommentShape, ExcerptShape;
    CleanIsClean(raw.scopeLabel, 128);
    if raw.comment.Text? {
      CommentHasShape(raw.comment.text);
    }
    if raw.excerpt.Text? {
      ExcerptHasShape(raw.excerpt.text);
    }
  }

  lemma NothingToCheck()
    ensures OptPositive(None) && OptScope(None) && OptComment(None) && OptExcerpt(None) && OptClean(None, 128)
    ensures forall line :: EndAfter(None, line)
  {
  }

  lemma ParseIsParsed(raw: Raw, newId: string)
    requires Clean(newId, 256)
    ensures Parse(raw, newId).Some? ==> Parsed(Parse(raw, newId).value)
  {
    if Parse(raw, newId).Some? {
      CleanIsClean(raw.id, 256);
      CleanIsClean(raw.title, 512);
      FieldsClean(raw.fields);
      NumbersArePositive(raw.line, raw.endLine);
      NumbersArePositive(raw.column, raw.endLine);
      TextsHaveShape(raw);
      NothingToCheck();
      hide CleanString, CleanFields, Clean, AllClean, ParseText, ParseScope, ParseEnd, PositiveInteger, OptPositive, OptScope,
        OptComment, OptExcerpt, EndAfter, Complete;
    }
  }

  // ---------------------------------------------------------------------------------------------
  // What is accepted
  // ---------------------------------------------------------------------------------------------

  /** The field that says what a reference of each kind points at. */
  function Target(kind: Kind): Field
  {
    match kind
    case File => Path
    case Folder => Path
    case ReviewComment => Path
    case Project => ProjectId
    case Thread => ThreadId
    case Terminal => TabId
    case Agent => AgentId
    case Browser => Url
  }

  /** The data holds the field as a text that something is left of. */
  predicate Given(raw: Raw, f: Field)
    requires raw.Record?
  {
    f in raw.fields && CleanString(raw.fields[f], MAX_FIELD).Some?
  }

  /** A web address is blank or starts with `http://` or `https://` in any case. */
  lemma WebUrlIff(url: string)
    ensures IsWebUrl(url)
            <==> url == "about:blank"
                 || (exists n :: 0 <= n <= |url| && (AsciiLower(url[..n]) == "http://" || AsciiLower(url[..n]) == "https://"))
  {
    forall n | 0 <= n <= |url|
      ensures AsciiLower(url[..n]) == AsciiLower(url)[..n]
    {
    }
    hide AsciiLower;
    if StartsWith(AsciiLower(url), "http://") {
      assert AsciiLower(url[..7]) == AsciiLower(url)[..7];
    }
    if StartsWith(AsciiLower(url), "https://") {
      assert AsciiLower(url[..8]) == AsciiLower(url)[..8];
    }
  }

  /** A version is the whole thread, the staged or the unstaged changes, or a turn named by up to 256 characters. */
  lemma ReviewScopeIff(s: string)
    ensures IsReviewScope(s)
            <==> s in ["thread", "worktree:staged", "worktree:unstaged"]
                 || exists id: string :: s == "turn:" + id && 1 <= |id| <= 256 && forall i :: 0 <= i < |id| ==> !IsSpace(id[i]) && id[i] != ']'
  {
    hide IsSpace;
    if StartsWith(s, "turn:") && IsReviewScope(s) && s !in ["thread", "worktree:staged", "worktree:unstaged"] {
      var id := s[5..];
      assert s == "turn:" + id && forall i :: 0 <= i < |id| ==> id[i] == s[5 + i];
    }
    if id: string :| s == "turn:" + id && 1 <= |id| <= 256 && forall i :: 0 <= i < |id| ==> !IsSpace(id[i]) && id[i] != ']' {
      assert forall i :: 5 <= i < |s| ==> s[i] == id[i - 5];
    }
  }

  /** A review comment also needs a line, a version and some text. */
  predicate Reviewed(raw: Raw)
    requires raw.Record?
  {
    && raw.line.Number? && IsPositive(raw.line.value)
    && raw.reviewScope.Text? && IsReviewScope(raw.reviewScope.text)
    && raw.comment.Text? && ParseComment(raw.comment.text).Some?
  }

  /**
   * Data is accepted exactly when it has a known kind, a title and its target; a browser page's address is a web address,
   * and a review comment is a whole one. No other field can make it fail.
   */
  lemma AcceptedIff(raw: Raw, newId: string)
    ensures Parse(raw, newId).Some?
            <==> && raw.Record? && raw.kind.Some? && CleanString(raw.title, 512).Some? && Given(raw, Target(raw.kind.value))
                 && (raw.kind == Some(Browser) ==> IsWebUrl(CleanString(raw.fields[Url], MAX_FIELD).value))
                 && (raw.kind == Some(ReviewComment) ==> Reviewed(raw))
  {
    hide CleanString, IsWebUrl, ParseComment, IsReviewScope, IsPositive;
  }

  /** What is accepted keeps its kind and the cleaned form of every field given; only a review comment keeps its own fields. */
  lemma AcceptedKeeps(raw: Raw, newId: string)
    requires Parse(raw, newId).Some?
    ensures var r := Parse(raw, newId).value;
            && Some(r.kind) == raw.kind && Some(r.title) == CleanString(raw.title, 512)
            && (forall f: Field :: f in r.fields <==> Given(raw, f))
            && (forall f: Field :: Given(raw, f) ==> Some(r.fields[f]) == CleanString(raw.fields[f], MAX_FIELD))
            && (r.line.Some? <==> raw.line.Number? && 0 < raw.line.value < 9_007_199_254_740_992)
            && (r.line.Some? ==> raw.line == Number(r.line.value))
            && (r.column.Some? <==> raw.column.Number? && 0 < raw.column.value < 9_007_199_254_740_992)
            && (r.column.Some? ==> raw.column == Number(r.column.value))
            && (raw.id.Text? && Clean(raw.id.text, 256) ==> r.id == raw.id.text)
  {
    if raw.id.Text? && Clean(raw.id.text, 256) {
      CleanIsKept(Some(raw.id.text), 256);
    }
    hide CleanString, Needs, ParseComment, ParseExcerpt, IsReviewScope;
  }

  // ---------------------------------------------------------------------------------------------
  // Parsing again
  // ---------------------------------------------------------------------------------------------

  /** Trimming left no marker at the start of the comment, and capping no blank first line in the excerpt. */
  predicate Stable(r: Reference)
  {
    && (r.comment.Some? ==> !MarkerAt(r.comment.value, 0))
    && (r.excerpt.Some? ==> !StartsBlank(r.excerpt.value) || r.excerpt.value == CUT_LINE)
  }

  function Again(r: Reference): Reference
  {
    r.(comment := if r.comment.Some? then ParseComment(r.comment.value) else None,
       excerpt := if r.excerpt.Some? then ParseExcerpt(r.excerpt.value) else None)
  }

  /** A marker at the start of a comment is gone after one more parsing. */
  lemma CommentSettles(c: string)
    requires CommentShape(c)
    ensures ParseComment(c).Some? && CommentShape(ParseComment(c).value) && !MarkerAt(ParseComment(c).value, 0)
  {
    CommentKeptIff(c);
    if MarkerAt(c, 0) {
      var h := Head(Neutralize(c), MAX_CHARS);
      assert |Neutralize(c)| > 1 && Neutralize(c)[0] == '[' && Neutralize(c)[1] == ' ' by { DisarmedStart(c); }
      hide Neutralize, CommentShape;
      BracketSpace(h);
      CommentHasShape(c);
    }
  }

  lemma BracketSpace(h: string)
    requires |h| > 1 && h[0] == '[' && h[1] == ' '
    ensures Trim(h) != [] && !MarkerAt(Trim(h), 0)
  {
    TrimIsSlice(h);
    assert !IsSpace(h[0]);
    TrimEndKeeps(h[LeadingSpace(h)..]);
    hide Trim, IsSpace;
    if |Trim(h)| > 1 {
      NoMarkerBySpace(Trim(h));
    } else {
      StartsAtChars(Trim(h), 0, OPEN);
      StartsAtChars(Trim(h), 0, CLOSE);
    }
  }

  lemma {:induction false} TrimEndKeeps(s: string)
    requires s != [] && !IsSpace(s[0])
    ensures TrimEnd(s) != []
  {
    if |s| > 1 {
      TrimEndKeeps(s[..|s| - 1]);
    }
  }

  lemma ExcerptSettles(p: string)
    requires ExcerptShape(p)
    ensures ParseExcerpt(p).Some? && ExcerptShape(ParseExcerpt(p).value)
    ensures !StartsBlank(ParseExcerpt(p).value) || ParseExcerpt(p).value == CUT_LINE
  {
    ExcerptKeptIff(p);
    ExcerptHasShape(p);
  }

  lemma FieldsAgain(fields: map<Field, string>)
    requires AllClean(fields)
    ensures CleanFields(map f | f in fields :: Text(fields[f])) == fields
  {
    forall f | f in fields
      ensures CleanString(Text(fields[f]), MAX_FIELD) == Some(fields[f])
    {
      assert Clean(fields[f], MAX_FIELD);
      CleanIsKept(Some(fields[f]), MAX_FIELD);
    }
    hide CleanString;
  }

  lemma NumbersAgain(line: Option<int>, endLine: Option<int>)
    requires OptPositive(line) && OptPositive(endLine) && EndAfter(endLine, line)
    ensures PositiveInteger(NumberOf(line)) == line && ParseEnd(NumberOf(endLine), line) == endLine
  {
  }

  lemma CompleteAgain(r: Reference)
    requires Complete(r) && OptComment(r.comment)
    ensures Complete(Again(r))
  {
    CommentStays(r.comment);
    hide Needs, ParseComment, ParseExcerpt, OptComment;
  }

  lemma CommentStays(o: Option<string>)
    requires OptComment(o)
    ensures o.Some? ==> ParseComment(o.value).Some?
  {
    if o.Some? {
      CommentSettles(o.value);
    }
  }

  lemma CommonAgain(r: Reference, newId: string)
    requires Parsed(r)
    ensures var b := Built(RawOf(r), r.kind, r.title, newId);
            b.id == r.id && b.fields == r.fields && b.line == r.line && b.column == r.column
  {
    CleanIsKept(Some(r.id), 256);
    FieldsAgain(r.fields);
    NumbersAgain(r.line, r.endLine);
    NothingToCheck();
    NumbersAgain(r.column, None);
  }

  lemma ReviewAgain(r: Reference, newId: string)
    requires Parsed(r)
    ensures var b := Built(RawOf(r), r.kind, r.title, newId);
            && b.endLine == r.endLine && b.reviewScope == r.reviewScope && b.scopeLabel == r.scopeLabel
            && b.comment == Again(r).comment && b.excerpt == Again(r).excerpt
  {
    CleanIsKept(r.scopeLabel, 128);
    NumbersAgain(r.line, r.endLine);
    assert ParseScope(TextOf(r.reviewScope)) == r.reviewScope;
    hide CleanString, CleanFields, Clean, AllClean, ParseScope, ParseEnd, PositiveInteger, OptPositive, OptScope,
      OptComment, OptExcerpt, EndAfter, Complete, ParseComment, ParseExcerpt;
  }

  lemma BuiltAgain(r: Reference, newId: string)
    requires Parsed(r)
    ensures Built(RawOf(r), r.kind, r.title, newId) == Again(r)
  {
    CommonAgain(r, newId);
    ReviewAgain(r, newId);
    BuiltKind(RawOf(r), r.kind, r.title, newId);
    hide Built, Parsed, ParseComment, ParseExcerpt, RawOf;
  }

  /** Parsing a parsed reference again can change its comment and its excerpt only. */
  lemma ParseAgain(r: Reference, newId: string)
    requires Parsed(r)
    ensures Parse(RawOf(r), newId) == Some(Again(r))
  {
    BuiltAgain(r, newId);
    CompleteAgain(r);
    CleanIsKept(Some(r.title), 512);
    hide Built, CleanString, Complete, Parsed, Again;
  }

  lemma BuiltKind(raw: Raw, kind: Kind, title: string, newId: string)
    requires raw.Record?
    ensures Built(raw, kind, title, newId).kind == kind && Built(raw, kind, title, newId).title == title
  {
  }

  /** A reference that parsing returned parses to itself exactly when its comment and its excerpt are stable. */
  lemma ParsesToItselfIff(r: Reference, newId: string)
    requires Parsed(r)
    ensures Parse(RawOf(r), newId) == Some(r) <==> Stable(r)
  {
    ParseAgain(r, newId);
    hide Parse, Parsed, MarkerAt, StartsBlank;
    StableTexts(r);
  }

  lemma StableTexts(r: Reference)
    requires Parsed(r)
    ensures Again(r) == r <==> Stable(r)
  {
    hide MarkerAt, StartsBlank, ParseComment, ParseExcerpt, CommentShape, ExcerptShape, Clean, IsReviewScope, Complete;
    if r.comment.Some? {
      CommentKeptIff(r.comment.value);
    }
    if r.excerpt.Some? {
      ExcerptKeptIff(r.excerpt.value);
    }
  }

  lemma TextsSettle(r: Reference)
    requires Parsed(r)
    ensures var again := Again(r); OptComment(again.comment) && OptExcerpt(again.excerpt) && Stable(again)
  {
    if r.comment.Some? {
      CommentSettles(r.comment.value);
    }
    if r.excerpt.Some? {
      ExcerptSettles(r.excerpt.value);
    }
    hide ParseComment, ParseExcerpt, CommentShape, ExcerptShape, MarkerAt, StartsBlank;
  }

  /** The second parsing settles it: whatever was parsed twice parses to itself from then on. */
  lemma TwoParsesSettle(r: Reference, newId: string)
    requires Parsed(r)
    ensures Parsed(Again(r)) && Stable(Again(r))
    ensures Parse(RawOf(Again(r)), newId) == Some(Again(r))
  {
    TextsSettle(r);
    CompleteAgain(r);
    hide ParseComment, ParseExcerpt, OptComment, OptExcerpt, OptScope, OptClean, OptPositive, EndAfter, Clean, AllClean, Complete,
      Parse, Stable;
    ParsesToItselfIff(Again(r), newId);
  }
}
