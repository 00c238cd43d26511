/**
 * Finding applet submissions in a message (src/shared/applets.ts, `extractAppletParts`): a scan over fenced code blocks
 * (CommonMark section 4.5) that turns the message into text parts, submissions and errors. Reading a submission's JSON
 * and validating it is a parameter.
 */
module AppletFences {
  import opened Strings
  import opened Options

  const APPLETS_PER_MESSAGE: nat := 3

  datatype Read<S> = Valid(submission: S) | Invalid(message: string)

  datatype Part<S> = Text(text: string) | Submission(submission: S) | Error(message: string, source: string)

  // ---------------------------------------------------------------------------------------------
  // The two patterns
  // ---------------------------------------------------------------------------------------------

  predicate AnchorsAt(s: string, i: nat)
    requires i <= |s|
  {
    i == 0 || EndsLine(s[i - 1])
  }

  /** How many times `c` stands in a row from `i`. */
  function RunOf(s: string, i: nat, c: char): (n: nat)
    requires i <= |s|
    ensures i + n <= |s|
    decreases |s| - i
  {
    if i < |s| && s[i] == c then 1 + RunOf(s, i + 1, c) else 0
  }

  /** How many spaces and tabs stand in a row from `i`. */
  function BlankRun(s: string, i: nat): (n: nat)
    requires i <= |s|
    ensures i + n <= |s|
    decreases |s| - i
  {
    if i < |s| && (s[i] == ' ' || s[i] == '\t') then 1 + BlankRun(s, i + 1) else 0
  }

  /** The next carriage return or line feed from `i`, or the end. */
  function InfoEnd(s: string, i: nat): (e: nat)
    requires i <= |s|
    ensures i <= e <= |s|
    decreases |s| - i
  {
    if i < |s| && s[i] != '\r' && s[i] != '\n' then InfoEnd(s, i + 1) else i
  }

  datatype Opening = Opening(marker: char, length: nat, info: string, bodyStart: nat)

  /** A run of at least three backticks or tildes at a line start, whose line ends in a line feed. */
  function OpeningAt(s: string, i: nat): (o: Option<Opening>)
    requires i <= |s|
    ensures o.Some? ==> i + 3 < o.value.bodyStart <= |s| && o.value.length >= 3
  {
    if !AnchorsAt(s, i) || i == |s| || (s[i] != '`' && s[i] != '~') then None
    else
      var n := RunOf(s, i, s[i]);
      var e := InfoEnd(s, i + n);
      if n < 3 || e == |s| then None
      else if s[e] == '\n' then Some(Opening(s[i], n, s[i + n..e], e + 1))
      else if e + 1 < |s| && s[e + 1] == '\n' then Some(Opening(s[i], n, s[i + n..e], e + 2))
      else None
  }

  /** Where a closing fence at `j` ends: at least as many markers, blanks, then the end of its line. */
  function ClosingAt(s: string, j: nat, marker: char, length: nat): (end: Option<nat>)
    requires j <= |s|
    ensures end.Some? ==> j + length <= end.value <= |s|
  {
    if !AnchorsAt(s, j) || RunOf(s, j, marker) < length then None
    else
      var p := j + RunOf(s, j, marker);
      var q := p + BlankRun(s, p);
      if q + 1 < |s| && s[q] == '\r' && s[q + 1] == '\n' then Some(q + 2)
      else if q < |s| && s[q] == '\n' then Some(q + 1)
      else if q == |s| || EndsLine(s[q]) then Some(q)
      else None
  }

  /** `openings.exec(content)` from `from`. */
  function FindOpening(s: string, from: nat): (i: Option<nat>)
    requires from <= |s|
    ensures i.Some? ==> from <= i.value < |s| && OpeningAt(s, i.value).Some?
    decreases |s| - from
  {
    if OpeningAt(s, from).Some? then Some(from) else if from < |s| then FindOpening(s, from + 1) else None
  }

  function FindClosing(s: string, from: nat, marker: char, length: nat): (j: Option<nat>)
    requires from <= |s|
    ensures j.Some? ==> from <= j.value <= |s| && ClosingAt(s, j.value, marker, length).Some?
    decreases |s| - from
  {
    if ClosingAt(s, from, marker, length).Some? then Some(from)
    else if from < |s| then FindClosing(s, from + 1, marker, length)
    else None
  }

  // ---------------------------------------------------------------------------------------------
  // Fences
  // ---------------------------------------------------------------------------------------------

  /** A closed fence: it starts at `start`, its body is `bodyStart..bodyEnd`, and it ends before `end`. */
  datatype Fence = Fence(start: nat, bodyStart: nat, bodyEnd: nat, end: nat, info: string)

  predicate IsApplet(f: Fence) { Trim(f.info) == "mousse-applet" }

  /** The fence of the opening at `p`, up to its first closing; none when no opening is there or it is never closed. */
  function FenceOf(s: string, p: nat): (f: Option<Fence>)
    requires p <= |s|
    ensures f.Some? ==> p == f.value.start && p + 3 < f.value.bodyStart <= f.value.bodyEnd
                        && f.value.bodyEnd + 3 <= f.value.end <= |s|
  {
    match OpeningAt(s, p)
    case None => None
    case Some(o) =>
      match FindClosing(s, o.bodyStart, o.marker, o.length)
      case None => None
      case Some(j) => Some(Fence(p, o.bodyStart, j, ClosingAt(s, j, o.marker, o.length).value, o.info))
  }

  /** The first closed fence from `from`; none when there is no opening left or the next one is never closed. */
  function NextFence(s: string, from: nat): (f: Option<Fence>)
    requires from <= |s|
    ensures f.Some? ==> from <= f.value.start && f.value.start + 3 < f.value.bodyStart <= f.value.bodyEnd
                        && f.value.bodyEnd + 3 <= f.value.end <= |s|
  {
    match FindOpening(s, from)
    case None => None
    case Some(start) => FenceOf(s, start)
  }

  /** All closed fences from `from` on. What stands inside one is not looked at. */
  function Fences(s: string, from: nat): seq<Fence>
    requires from <= |s|
    decreases |s| - from
  {
    match NextFence(s, from)
    case None => []
    case Some(f) => [f] + Fences(s, f.end)
  }

  function Applets(fences: seq<Fence>): seq<Fence>
  {
    if fences == [] then [] else (if IsApplet(fences[0]) then [fences[0]] else []) + Applets(fences[1..])
  }

  // ---------------------------------------------------------------------------------------------
  // The parts as stretches of the message
  // ---------------------------------------------------------------------------------------------

  /** A stretch of plain text, or a whole applet fence. */
  datatype Span = Plain(from: nat, to: nat) | Fenced(fence: Fence)
  {
    function Begin(): nat { if Plain? then from else fence.start }

    function End(): nat { if Plain? then to else fence.end }
  }

  /** From `cursor` on: the text between the applet fences, and the fences. */
  function SpansFrom(total: nat, applets: seq<Fence>, cursor: nat): seq<Span>
  {
    if applets == [] then (if cursor < total then [Plain(cursor, total)] else [])
    else
      (if cursor < applets[0].start then [Plain(cursor, applets[0].start)] else [])
      + [Fenced(applets[0])] + SpansFrom(total, applets[1..], applets[0].end)
  }

  function Spans(s: string, complete: bool): seq<Span>
  {
    var spans := SpansFrom(|s|, Applets(Fences(s, 0)), 0);
    if !complete || spans == [] then [Plain(0, |s|)] else spans
  }

  /** The part an applet fence becomes when `used` came before it. */
  function FencePart<S>(s: string, f: Fence, read: string -> Read<S>, used: nat): Part<S>
    requires f.start <= f.bodyStart <= f.bodyEnd <= f.end <= |s|
  {
    if used >= APPLETS_PER_MESSAGE then Error("Only three applets are allowed per message.", s[f.start..f.end])
    else
      match read(s[f.bodyStart..f.bodyEnd])
      case Valid(submission) => Submission(submission)
      case Invalid(message) => Error(message, s[f.start..f.end])
  }

  predicate SpanInside(s: string, span: Span)
  {
    match span
    case Plain(from, to) => from <= to <= |s|
    case Fenced(f) => f.start <= f.bodyStart <= f.bodyEnd <= f.end <= |s|
  }

  predicate AllInside(s: string, spans: seq<Span>) { forall i :: 0 <= i < |spans| ==> SpanInside(s, spans[i]) }

  function PartsOf<S>(s: string, spans: seq<Span>, read: string -> Read<S>, used: nat): (parts: seq<Part<S>>)
    requires AllInside(s, spans)
    ensures |parts| == |spans|
  {
    if spans == [] then []
    else
      assert SpanInside(s, spans[0]);
      match spans[0]
      case Plain(from, to) => [Text(s[from..to])] + PartsOf(s, spans[1..], read, used)
      case Fenced(f) => [FencePart(s, f, read, used)] + PartsOf(s, spans[1..], read, used + 1)
  }

  /** Applet fences from `cursor` on, in order and apart. */
  predicate Ordered(total: nat, applets: seq<Fence>, cursor: nat)
  {
    if applets == [] then cursor <= total
    else
      && cursor <= applets[0].start < applets[0].bodyStart <= applets[0].bodyEnd < applets[0].end
      && Ordered(total, applets[1..], applets[0].end)
  }

  lemma {:induction false} AppletsOrdered(s: string, from: nat, cursor: nat)
    requires cursor <= from <= |s|
    ensures Ordered(|s|, Applets(Fences(s, from)), cursor)
    decreases |s| - from
  {
    hide NextFence, IsApplet;
    if NextFence(s, from).Some? {
      var f := NextFence(s, from).value;
      FenceShape(s, from);
      AppletsStep(f, Fences(s, f.end));
      if IsApplet(f) {
        AppletsOrdered(s, f.end, f.end);
        assert ([f] + Applets(Fences(s, f.end)))[1..] == Applets(Fences(s, f.end));
      } else {
        AppletsOrdered(s, f.end, cursor);
        assert [] + Applets(Fences(s, f.end)) == Applets(Fences(s, f.end));
      }
    }
  }

  lemma FenceShape(s: string, from: nat)
    requires from <= |s| && NextFence(s, from).Some?
    ensures var f := NextFence(s, from).value;
            from <= f.start < f.bodyStart <= f.bodyEnd < f.end <= |s|
  {
  }

  lemma AppletsStep(f: Fence, rest: seq<Fence>)
    ensures Applets([f] + rest) == (if IsApplet(f) then [f] else []) + Applets(rest)
  {
    assert ([f] + rest)[1..] == rest;
  }

  lemma {:induction false} OrderedInside(total: nat, applets: seq<Fence>, cursor: nat)
    requires Ordered(total, applets, cursor)
    ensures cursor <= total
    ensures forall i :: 0 <= i < |SpansFrom(total, applets, cursor)| ==>
              var span := SpansFrom(total, applets, cursor)[i];
              && cursor <= span.Begin() < span.End() <= total
              && (span.Fenced? ==> span.fence.start <= span.fence.bodyStart <= span.fence.bodyEnd <= span.fence.end)
    decreases |applets|
  {
    if applets != [] {
      OrderedInside(total, applets[1..], applets[0].end);
    }
  }

  lemma SpansInside(s: string, applets: seq<Fence>, cursor: nat)
    requires Ordered(|s|, applets, cursor)
    ensures AllInside(s, SpansFrom(|s|, applets, cursor))
  {
    OrderedInside(|s|, applets, cursor);
    hide SpansFrom, Ordered;
  }

  /** The spans of any message lie in it. */
  lemma SpansOfInside(s: string, complete: bool)
    ensures AllInside(s, Spans(s, complete))
  {
    AppletsOrdered(s, 0, 0);
    SpansInside(s, Applets(Fences(s, 0)), 0);
    hide Applets, Fences, SpansFrom, Ordered;
  }

  function Parts<S>(s: string, complete: bool, read: string -> Read<S>): seq<Part<S>>
  {
    SpansOfInside(s, complete);
    PartsOf(s, Spans(s, complete), read, 0)
  }

  /** The spans still to come when the scan stands at `at` and everything before `cursor` is in the parts. */
  function Remaining(s: string, at: nat, cursor: nat): seq<Span>
    requires at <= |s|
  {
    SpansFrom(|s|, Applets(Fences(s, at)), cursor)
  }

  lemma {:induction false} RemainingInside(s: string, at: nat, cursor: nat)
    requires cursor <= at <= |s|
    ensures AllInside(s, Remaining(s, at, cursor))
  {
    AppletsOrdered(s, at, cursor);
    hide Applets, Fences, Ordered, SpansFrom;
    SpansInside(s, Applets(Fences(s, at)), cursor);
  }

  function TextSpan(cursor: nat, to: nat): seq<Span> { if cursor < to then [Plain(cursor, to)] else [] }

  /** One fence on: a fence that is no applet only moves the scan, an applet closes the text before it. */
  lemma RemainingStep(s: string, at: nat, cursor: nat)
    requires cursor <= at <= |s|
    ensures NextFence(s, at).None? ==> Remaining(s, at, cursor) == TextSpan(cursor, |s|)
    ensures NextFence(s, at).Some? ==>
              var f := NextFence(s, at).value;
              && at <= f.start < f.bodyStart <= f.bodyEnd < f.end <= |s|
              && (IsApplet(f) ==> Remaining(s, at, cursor) == TextSpan(cursor, f.start) + [Fenced(f)] + Remaining(s, f.end, f.end))
              && (!IsApplet(f) ==> Remaining(s, at, cursor) == Remaining(s, f.end, cursor))
  {
    hide NextFence, IsApplet;
    if NextFence(s, at).Some? {
      var f := NextFence(s, at).value;
      FenceShape(s, at);
      var rest := Fences(s, f.end);
      assert Fences(s, at) == [f] + rest;
      AppletsStep(f, rest);
      hide Fences, Applets;
      if IsApplet(f) {
        assert ([f] + Applets(rest))[0] == f && ([f] + Applets(rest))[1..] == Applets(rest);
      } else {
        assert [] + Applets(rest) == Applets(rest);
      }
    }
  }

  function NextUsed(span: Span, used: nat): nat { if span.Fenced? then used + 1 else used }

  lemma PartsStep<S>(s: string, span: Span, rest: seq<Span>, read: string -> Read<S>, used: nat)
    requires SpanInside(s, span) && AllInside(s, rest)
    ensures AllInside(s, [span] + rest) && AllInside(s, [span])
    ensures PartsOf(s, [span] + rest, read, used) == PartsOf(s, [span], read, used) + PartsOf(s, rest, read, NextUsed(span, used))
  {
    assert ([span] + rest)[1..] == rest && [span][1..] == [];
    hide FencePart;
  }

  lemma {:induction false} PartsConcat<S>(s: string, a: seq<Span>, b: seq<Span>, read: string -> Read<S>, used: nat)
    requires AllInside(s, a) && AllInside(s, b)
    ensures AllInside(s, a + b)
    ensures PartsOf(s, a + b, read, used) == PartsOf(s, a, read, used) + PartsOf(s, b, read, used + CountFenced(a))
    decreases |a|
  {
    hide *;
    if a == [] {
      PartsOfNothing(s, read, used);
      assert a + b == b;
      assert [] + PartsOf(s, b, read, used) == PartsOf(s, b, read, used);
    } else {
      var first, rest := a[0], a[1..];
      FirstSpan(s, a, used);
      PartsConcat(s, rest, b, read, NextUsed(first, used));
      PartsStep(s, first, rest, read, used);
      PartsStep(s, first, rest + b, read, used);
      assert [first] + rest == a && [first] + (rest + b) == a + b;
    }
  }

  lemma PartsOfNothing<S>(s: string, read: string -> Read<S>, used: nat)
    ensures AllInside(s, []) && PartsOf(s, [], read, used) == [] && CountFenced([]) == 0
  {
  }

  lemma FirstSpan(s: string, a: seq<Span>, used: nat)
    requires a != [] && AllInside(s, a)
    ensures SpanInside(s, a[0]) && AllInside(s, a[1..])
    ensures CountFenced(a) + used == NextUsed(a[0], used) + CountFenced(a[1..])
  {
    hide SpanInside;
  }

  function CountFenced(spans: seq<Span>): nat
  {
    if spans == [] then 0 else (if spans[0].Fenced? then 1 else 0) + CountFenced(spans[1..])
  }

  lemma OnePart<S>(s: string, span: Span, read: string -> Read<S>, used: nat)
    requires SpanInside(s, span)
    ensures AllInside(s, [span])
    ensures span.Plain? ==> PartsOf(s, [span], read, used) == [Text(s[span.from..span.to])]
    ensures span.Fenced? ==> PartsOf(s, [span], read, used) == [FencePart(s, span.fence, read, used)]
    ensures CountFenced([span]) == if span.Fenced? then 1 else 0
  {
    assert [span][1..] == [];
  }

  /** What the parts of the remaining spans begin with once the next applet fence is reached. */
  lemma AppletStep<S>(s: string, at: nat, cursor: nat, read: string -> Read<S>, used: nat)
    requires cursor <= at <= |s| && NextFence(s, at).Some? && IsApplet(NextFence(s, at).value)
    ensures var f := NextFence(s, at).value;
            && AllInside(s, Remaining(s, at, cursor)) && f.end <= |s| && AllInside(s, Remaining(s, f.end, f.end))
            && cursor <= f.start <= f.bodyStart <= f.bodyEnd <= f.end
            && PartsOf(s, Remaining(s, at, cursor), read, used)
               == (if cursor < f.start then [Text(s[cursor..f.start])] else []) + [FencePart(s, f, read, used)]
                  + PartsOf(s, Remaining(s, f.end, f.end), read, used + 1)
  {
    var f := NextFence(s, at).value;
    RemainingStep(s, at, cursor);
    hide NextFence, IsApplet, Remaining, PartsOf, FencePart;
    var text, rest := TextSpan(cursor, f.start), Remaining(s, f.end, f.end);
    RemainingInside(s, f.end, f.end);
    if cursor < f.start {
      OnePart(s, Plain(cursor, f.start), read, used);
    } else {
      NoParts(s, read, used);
    }
    OnePart(s, Fenced(f), read, used);
    PartsConcat(s, text, [Fenced(f)], read, used);
    CountText(cursor, f.start);
    PartsConcat(s, text + [Fenced(f)], rest, read, used);
    CountConcat(text, [Fenced(f)]);
  }

  lemma NoParts<S>(s: string, read: string -> Read<S>, used: nat)
    ensures AllInside(s, []) && PartsOf(s, [], read, used) == []
  {
  }

  lemma CountText(cursor: nat, to: nat)
    ensures CountFenced(TextSpan(cursor, to)) == 0
  {
  }

  lemma {:induction false} CountConcat(a: seq<Span>, b: seq<Span>)
    ensures CountFenced(a + b) == CountFenced(a) + CountFenced(b)
  {
    if a == [] {
      assert a + b == b;
    } else {
      assert (a + b)[0] == a[0] && (a + b)[1..] == a[1..] + b;
      CountConcat(a[1..], b);
    }
  }

  /** The scanning loop of the source. */
  method ExtractAppletParts<S>(content: string, complete: bool, read: string -> Read<S>) returns (parts: seq<Part<S>>)
    ensures parts == Parts(content, complete, read)
  {
    hide NextFence, IsApplet, Remaining, PartsOf, FencePart, AllInside;
    OnePart(content, Plain(0, |content|), read, 0);
    assert content[0..] == content == content[0..|content|];
    if !complete {
      return [Text(content)];
    }
    parts := [];
    var lastIndex := 0;
    var cursor := 0;
    var count := 0;
    RemainingInside(content, 0, 0);
    ghost var all := PartsOf(content, Remaining(content, 0, 0), read, 0);
    while true
      invariant 0 <= cursor <= lastIndex <= |content| && count >= 0
      invariant AllInside(content, Remaining(content, lastIndex, cursor))
      invariant all == parts + PartsOf(content, Remaining(content, lastIndex, cursor), read, count)
      invariant parts == [] ==> cursor == 0
      decreases |content| - lastIndex
    {
      RemainingStep(content, lastIndex, cursor);
      var next := NextFence(content, lastIndex);
      if next.None? {
        break;
      }
      var f := next.value;
      if !IsApplet(f) {
        lastIndex := f.end;
        continue;
      }
      AppletStep(content, lastIndex, cursor, read, count);
      lastIndex := f.end;
      if f.start > cursor {
        parts := parts + [Text(content[cursor..f.start])];
      }
      parts := parts + [FencePart(content, f, read, count)];
      count := count + 1;
      cursor := f.end;
    }
    if cursor < |content| {
      OnePart(content, Plain(cursor, |content|), read, count);
    } else {
      NoParts(content, read, count);
    }
    WholeSpans(content);
    if cursor < |content| || |parts| == 0 {
      parts := parts + [Text(content[cursor..])];
    }
  }

  /** The spans of a complete message, in terms of what remains at its start. */
  lemma WholeSpans(s: string)
    ensures Spans(s, true) == if Remaining(s, 0, 0) == [] then [Plain(0, |s|)] else Remaining(s, 0, 0)
  {
  }

  // ---------------------------------------------------------------------------------------------
  // What the parts are
  // ---------------------------------------------------------------------------------------------

  /** The stretch of the message a part stands for. */
  function SourceOf(s: string, span: Span): string
    requires SpanInside(s, span)
  {
    match span
    case Plain(from, to) => s[from..to]
    case Fenced(f) => s[f.start..f.end]
  }

  function Sources(s: string, spans: seq<Span>): string
    requires AllInside(s, spans)
  {
    if spans == [] then ""
    else
      assert SpanInside(s, spans[0]) && AllInside(s, spans[1..]);
      SourceOf(s, spans[0]) + Sources(s, spans[1..])
  }

  lemma {:induction false} SpansCover(s: string, applets: seq<Fence>, cursor: nat)
    requires Ordered(|s|, applets, cursor)
    ensures cursor <= |s| && AllInside(s, SpansFrom(|s|, applets, cursor))
    ensures Sources(s, SpansFrom(|s|, applets, cursor)) == s[cursor..]
    decreases |applets|
  {
    SpansInside(s, applets, cursor);
    OrderedInside(|s|, applets, cursor);
    if applets == [] {
      if cursor < |s| {
        SourcesStep(s, Plain(cursor, |s|), []);
        assert [Plain(cursor, |s|)] + [] == [Plain(cursor, |s|)];
      }
    } else {
      var f, rest := applets[0], SpansFrom(|s|, applets[1..], applets[0].end);
      OrderedInside(|s|, applets[1..], f.end);
      SpansCover(s, applets[1..], f.end);
      hide SpansFrom, Ordered, Sources;
      SourcesStep(s, Fenced(f), rest);
      Halve(s, f.start, f.end);
      if cursor < f.start {
        SourcesStep(s, Plain(cursor, f.start), [Fenced(f)] + rest);
        Halve(s, cursor, f.start);
        assert [Plain(cursor, f.start)] + [Fenced(f)] + rest == [Plain(cursor, f.start)] + ([Fenced(f)] + rest);
      } else {
        assert [] + [Fenced(f)] + rest == [Fenced(f)] + rest;
      }
    }
  }

  lemma Halve(s: string, a: nat, b: nat)
    requires a <= b <= |s|
    ensures s[a..b] + s[b..] == s[a..]
  {
  }

  lemma SourcesStep(s: string, span: Span, rest: seq<Span>)
    requires SpanInside(s, span) && AllInside(s, rest)
    ensures AllInside(s, [span] + rest)
    ensures Sources(s, [span] + rest) == SourceOf(s, span) + Sources(s, rest)
  {
    assert ([span] + rest)[1..] == rest;
  }

  /**
   * What a part may be for a stretch of the message with `before` applet fences before it: the text itself, the submission
   * its fence was read as, or an error that carries the whole fence; a submission exactly when the fence can be read and is
   * one of the first three.
   */
  predicate StandsFor<S(==)>(s: string, span: Span, part: Part<S>, read: string -> Read<S>, before: nat)
    requires SpanInside(s, span)
  {
    match span
    case Plain(_, _) => part == Text(SourceOf(s, span))
    case Fenced(f) =>
      var outcome := read(s[f.bodyStart..f.bodyEnd]);
      && (part.Submission? <==> before < APPLETS_PER_MESSAGE && outcome.Valid?)
      && (part.Submission? ==> part == Submission(outcome.submission))
      && (!part.Submission? ==> part.Error? && part.source == SourceOf(s, span))
      && (!part.Submission? && before < APPLETS_PER_MESSAGE ==> part.message == outcome.message)
  }

  lemma {:induction false} PartStandsFor<S>(s: string, spans: seq<Span>, read: string -> Read<S>, used: nat, i: nat)
    requires AllInside(s, spans) && i < |spans|
    ensures SpanInside(s, spans[i]) && StandsFor(s, spans[i], PartsOf(s, spans, read, used)[i], read, used + CountFenced(spans[..i]))
    decreases |spans|
  {
    assert SpanInside(s, spans[0]);
    if i == 0 {
      assert spans[..0] == [];
    } else {
      var next := NextUsed(spans[0], used);
      assert AllInside(s, spans[1..]);
      hide StandsFor, FencePart;
      PartStandsFor(s, spans[1..], read, next, i - 1);
      assert PartsOf(s, spans, read, used)[1..] == PartsOf(s, spans[1..], read, next);
      assert spans[..i][1..] == spans[1..][..i - 1] && spans[..i][0] == spans[0];
      assert SpanInside(s, spans[i]);
    }
  }

  lemma SourcesAreMessage(s: string, complete: bool)
    ensures AllInside(s, Spans(s, complete)) && Sources(s, Spans(s, complete)) == s
  {
    SpansOfInside(s, complete);
    AppletsOrdered(s, 0, 0);
    SpansCover(s, Applets(Fences(s, 0)), 0);
    hide Applets, Fences, SpansFrom, Sources;
    SourcesStep(s, Plain(0, |s|), []);
    NoSources(s);
    assert [Plain(0, |s|)] + [] == [Plain(0, |s|)];
    assert s[0..] == s == s[0..|s|];
  }

  lemma NoSources(s: string)
    ensures AllInside(s, []) && Sources(s, []) == ""
  {
  }

  lemma PartsAre<S>(s: string, complete: bool, read: string -> Read<S>)
    ensures AllInside(s, Spans(s, complete)) && Parts(s, complete, read) == PartsOf(s, Spans(s, complete), read, 0)
  {
    SpansOfInside(s, complete);
    hide Spans, PartsOf;
  }

  /**
   * The parts cover the message once and in order: putting the stretches they stand for one after the other, a submission
   * standing for its whole fence, gives the message back. Each part is the text, or what its fence was read as.
   */
  lemma PartsCoverMessage<S>(s: string, complete: bool, read: string -> Read<S>)
    ensures AllInside(s, Spans(s, complete)) && Sources(s, Spans(s, complete)) == s
    ensures var spans, parts := Spans(s, complete), Parts(s, complete, read);
            && |parts| == |spans|
            && forall i :: 0 <= i < |spans| ==>
                 SpanInside(s, spans[i]) && StandsFor(s, spans[i], parts[i], read, CountFenced(spans[..i]))
  {
    hide *;
    SourcesAreMessage(s, complete);
    PartsAre(s, complete, read);
    var spans := Spans(s, complete);
    forall i | 0 <= i < |spans|
      ensures SpanInside(s, spans[i]) && StandsFor(s, spans[i], Parts(s, complete, read)[i], read, CountFenced(spans[..i]))
    {
      PartStandsFor(s, spans, read, 0, i);
    }
  }

  /** A message still being written is one unchanged text part. */
  lemma IncompleteIsOneText<S>(s: string, read: string -> Read<S>)
    ensures Parts(s, false, read) == [Text(s)]
  {
    OnePart(s, Plain(0, |s|), read, 0);
    assert s[0..|s|] == s;
  }

  function CountSubmissions<S>(parts: seq<Part<S>>): nat
  {
    if parts == [] then 0 else (if parts[0].Submission? then 1 else 0) + CountSubmissions(parts[1..])
  }

  lemma {:induction false} SubmissionsBounded<S>(s: string, spans: seq<Span>, read: string -> Read<S>, used: nat)
    requires AllInside(s, spans)
    ensures CountSubmissions(PartsOf(s, spans, read, used)) <= if used < 3 then 3 - used else 0
    decreases |spans|
  {
    if spans != [] {
      var next := if spans[0].Fenced? then used + 1 else used;
      SubmissionsBounded(s, spans[1..], read, next);
      assert PartsOf(s, spans, read, used)[1..] == PartsOf(s, spans[1..], read, next);
    }
  }

  /** At most three submissions appear, whatever the message holds. */
  lemma AtMostThreeSubmissions<S>(s: string, complete: bool, read: string -> Read<S>)
    ensures CountSubmissions(Parts(s, complete, read)) <= APPLETS_PER_MESSAGE
  {
    SpansOfInside(s, complete);
    SubmissionsBounded(s, Spans(s, complete), read, 0);
  }

  /** Closed fences come one after the other: none starts before the one before it has ended. */
  lemma {:induction false} FencesAreApart(s: string, from: nat)
    requires from <= |s|
    ensures forall i :: 0 <= i < |Fences(s, from)| ==> from <= Fences(s, from)[i].start < Fences(s, from)[i].end <= |s|
    ensures forall i, j :: 0 <= i < j < |Fences(s, from)| ==> Fences(s, from)[i].end <= Fences(s, from)[j].start
    decreases |s| - from
  {
    hide NextFence;
    if NextFence(s, from).Some? {
      FenceShape(s, from);
      FencesAreApart(s, NextFence(s, from).value.end);
    }
  }

  lemma {:induction false} AppletsAreFences(fences: seq<Fence>)
    ensures forall f :: f in Applets(fences) <==> f in fences && IsApplet(f)
  {
    hide IsApplet;
    if fences != [] {
      AppletsAreFences(fences[1..]);
    }
  }

  lemma {:induction false} FencedSpans(total: nat, applets: seq<Fence>, cursor: nat, f: Fence)
    ensures Fenced(f) in SpansFrom(total, applets, cursor) <==> f in applets
    decreases |applets|
  {
    if applets != [] {
      FencedSpans(total, applets[1..], applets[0].end, f);
    }
  }

  // ---------------------------------------------------------------------------------------------
  // Which fences are found
  // ---------------------------------------------------------------------------------------------

  /**
   * An opening is at top level when no earlier top-level one reaches over it: each of them is closed before it. One that is
   * never closed reaches to the end of the message.
   */
  ghost predicate TopLevel(s: string, i: nat)
    requires i <= |s|
    decreases i
  {
    OpeningAt(s, i).Some? && forall p :: 0 <= p < i && TopLevel(s, p) ==> EndsBy(s, p, i)
  }

  /** The opening at `p` is closed, and its fence ends at `i` or before. */
  predicate EndsBy(s: string, p: nat, i: nat)
    requires p <= |s|
  {
    FenceOf(s, p).Some? && FenceOf(s, p).value.end <= i
  }

  /** The scan stands at `from` with every top-level opening before it closed. */
  ghost predicate Behind(s: string, from: nat)
    requires from <= |s|
  {
    forall p :: 0 <= p < from && TopLevel(s, p) ==> EndsBy(s, p, from)
  }

  lemma {:induction false} FindOpeningIsFirst(s: string, from: nat)
    requires from <= |s|
    ensures var i := FindOpening(s, from);
            forall k :: from <= k <= |s| && (i.Some? ==> k < i.value) ==> OpeningAt(s, k).None?
    decreases |s| - from
  {
    hide OpeningAt;
    if OpeningAt(s, from).None? && from < |s| {
      FindOpeningIsFirst(s, from + 1);
    }
  }

  /** A fence ends at the first place after its opening line that can close it; without such a place it has none. */
  lemma {:induction false} FindClosingIsFirst(s: string, from: nat, marker: char, length: nat)
    requires from <= |s|
    ensures var j := FindClosing(s, from, marker, length);
            forall k :: from <= k <= |s| && (j.Some? ==> k < j.value) ==> ClosingAt(s, k, marker, length).None?
    decreases |s| - from
  {
    hide ClosingAt;
    if ClosingAt(s, from, marker, length).None? && from < |s| {
      FindClosingIsFirst(s, from + 1, marker, length);
    }
  }

  /** Where a fence ends: at the first place after its opening line that can close it. One that is never closed has no such place. */
  lemma FenceEndsAtFirstClosing(s: string, p: nat)
    requires p <= |s| && OpeningAt(s, p).Some?
    ensures var o, f := OpeningAt(s, p).value, FenceOf(s, p);
            && (f.Some? ==> f.value.bodyStart == o.bodyStart && f.value.info == o.info
                            && Some(f.value.end) == ClosingAt(s, f.value.bodyEnd, o.marker, o.length))
            && forall k :: o.bodyStart <= k <= |s| && (f.Some? ==> k < f.value.bodyEnd) ==> ClosingAt(s, k, o.marker, o.length).None?
  {
    var o := OpeningAt(s, p).value;
    FindClosingIsFirst(s, o.bodyStart, o.marker, o.length);
    hide OpeningAt, ClosingAt, FindClosing;
  }

  lemma TopLevelApart(s: string, p: nat, q: nat)
    requires p <= |s| && q <= |s|
    ensures p < q && TopLevel(s, p) && TopLevel(s, q) ==> EndsBy(s, p, q)
  {
  }

  /** The next opening the scan meets is at top level, and there is none before it. */
  lemma NextIsTopLevel(s: string, from: nat)
    requires from <= |s| && Behind(s, from)
    ensures forall k :: from <= k <= |s| && TopLevel(s, k) ==> FindOpening(s, from).Some? && FindOpening(s, from).value <= k
    ensures FindOpening(s, from).Some? ==> TopLevel(s, FindOpening(s, from).value)
  {
    FindOpeningIsFirst(s, from);
    hide OpeningAt, FenceOf, FindOpening;
    var i := FindOpening(s, from);
    if i.Some? {
      forall p | 0 <= p < i.value && TopLevel(s, p)
        ensures EndsBy(s, p, i.value)
      {
        assert OpeningAt(s, p).Some?;
        assert p < from;
        assert EndsBy(s, p, from);
      }
    }
  }

  /** Past a closed top-level fence the scan goes on behind it. */
  lemma BehindNext(s: string, from: nat)
    requires from <= |s| && Behind(s, from) && NextFence(s, from).Some?
    ensures var f := NextFence(s, from).value;
            && from <= f.start < f.end <= |s| && TopLevel(s, f.start) && FenceOf(s, f.start) == Some(f) && Behind(s, f.end)
            && forall k :: from <= k < f.end && TopLevel(s, k) ==> k == f.start
  {
    NextIsTopLevel(s, from);
    var f := NextFence(s, from).value;
    assert FenceOf(s, f.start) == Some(f);
    hide OpeningAt, FenceOf, FindOpening, NextFence, TopLevel;
    forall k | from <= k < f.end && TopLevel(s, k)
      ensures k == f.start
    {
      TopLevelApart(s, f.start, k);
    }
    forall p | 0 <= p < f.end && TopLevel(s, p)
      ensures EndsBy(s, p, f.end)
    {
      if p < from {
        assert EndsBy(s, p, from);
      }
    }
  }

  /** From where the scan stands, it finds exactly the closed fences at top level. */
  lemma {:induction false} FencesAreTopLevel(s: string, from: nat, f: Fence)
    requires from <= |s| && Behind(s, from)
    ensures f in Fences(s, from) <==> from <= f.start <= |s| && TopLevel(s, f.start) && FenceOf(s, f.start) == Some(f)
    decreases |s| - from
  {
    hide OpeningAt, FenceOf, FindOpening, TopLevel;
    if NextFence(s, from).Some? {
      var next := NextFence(s, from).value;
      BehindNext(s, from);
      hide NextFence;
      FencesAreTopLevel(s, next.end, f);
    } else {
      NothingFurther(s, from, f);
    }
  }

  lemma NothingFurther(s: string, from: nat, f: Fence)
    requires from <= |s| && Behind(s, from) && NextFence(s, from).None?
    ensures !(from <= f.start <= |s| && TopLevel(s, f.start) && FenceOf(s, f.start) == Some(f))
  {
    hide OpeningAt, FenceOf, FindOpening, TopLevel, NextFence, Behind;
    NextIsTopLevel(s, from);
    NoNextFence(s, from);
    var i := FindOpening(s, from);
    if i.Some? && f.start <= |s| {
      TopLevelApart(s, i.value, f.start);
    }
  }

  lemma NoNextFence(s: string, from: nat)
    requires from <= |s| && NextFence(s, from).None?
    ensures FindOpening(s, from).Some? ==> FenceOf(s, FindOpening(s, from).value).None?
  {
    hide FenceOf, FindOpening;
  }

  lemma FoundIffTopLevel(s: string, f: Fence)
    ensures f in Fences(s, 0) <==> f.start <= |s| && TopLevel(s, f.start) && FenceOf(s, f.start) == Some(f)
  {
    hide *;
    NothingBehind(s);
    FencesAreTopLevel(s, 0, f);
  }

  lemma NothingBehind(s: string)
    ensures Behind(s, 0)
  {
  }

  /** What is extracted is exactly the closed fences at top level that are marked as applets. */
  lemma ExtractedIffTopLevelApplet(s: string, f: Fence)
    ensures Fenced(f) in Spans(s, true)
            <==> f.start <= |s| && TopLevel(s, f.start) && FenceOf(s, f.start) == Some(f) && IsApplet(f)
  {
    AppletsAreFences(Fences(s, 0));
    FencedSpans(|s|, Applets(Fences(s, 0)), 0, f);
    FoundIffTopLevel(s, f);
    hide Fences, Applets, SpansFrom, TopLevel, FenceOf, IsApplet;
  }

  /** An opening that is not at top level stands inside an earlier one that is: in its fence, or after it when it is never closed. */
  ghost predicate Inside(s: string, p: nat, i: nat)
    requires p < i <= |s|
  {
    TopLevel(s, p) && !EndsBy(s, p, i)
  }

  /** Every opening is at top level or inside an earlier one, never both. */
  lemma OpeningsAreAccountedFor(s: string, i: nat)
    requires i <= |s| && OpeningAt(s, i).Some?
    ensures TopLevel(s, i) <==> !exists p :: 0 <= p < i && Inside(s, p, i)
  {
    hide OpeningAt, EndsBy;
    if !TopLevel(s, i) {
      var p :| 0 <= p < i && TopLevel(s, p) && !EndsBy(s, p, i);
      assert Inside(s, p, i);
    }
  }

  /** A fence that starts inside another one, closed or not, is never extracted. */
  lemma NestedNeverExtracted(s: string, p: nat, inner: Fence)
    requires p < inner.start <= |s| && Inside(s, p, inner.start)
    ensures Fenced(inner) !in Spans(s, true)
  {
    ExtractedIffTopLevelApplet(s, inner);
    hide Spans, OpeningAt, FenceOf, IsApplet;
  }

  /** After an opening that is never closed and that no found fence covers, nothing is extracted. */
  lemma NothingAfterUnclosed(s: string, p: nat, inner: Fence)
    requires p < inner.start <= |s| && OpeningAt(s, p).Some? && FenceOf(s, p).None?
    requires forall f :: f in Fences(s, 0) ==> !(f.start < p < f.end)
    ensures Fenced(inner) !in Spans(s, true)
  {
    if TopLevel(s, p) {
      NestedNeverExtracted(s, p, inner);
    } else {
      OpeningsAreAccountedFor(s, p);
      var q :| 0 <= q < p && Inside(s, q, p);
      if FenceOf(s, q).Some? {
        FoundIffTopLevel(s, FenceOf(s, q).value);
      }
      hide OpeningAt, FenceOf, Fences, Spans;
      NestedNeverExtracted(s, q, inner);
    }
  }
}
