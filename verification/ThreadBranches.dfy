/**
 * The branch a thread's worktree gets (src/shared/mousseBranches.ts). Unicode folding (decomposition, dropping marks,
 * lower case) happens before this model: `folded` is the text after it.
 */
module ThreadBranches {
  import opened Options
  import Decimals
  import Lines
  import opened Strings

  const PREFIX := "mousse/"

  const SLUG_MAX := 40

  const RESERVED: set<string> := {"thread", "agent", "workflow"}

  predicate IsLowerWord(c: char) { 'a' <= c <= 'z' || '0' <= c <= '9' }

  predicate IsAlnum(c: char) { IsLowerWord(c) || 'A' <= c <= 'Z' }

  predicate IsWord(s: string) { s != [] && forall i :: 0 <= i < |s| ==> IsLowerWord(s[i]) }

  predicate AllWords(words: seq<string>) { forall i :: 0 <= i < |words| ==> IsWord(words[i]) }

  // ---------------------------------------------------------------------------------------------
  // Slugs
  // ---------------------------------------------------------------------------------------------

  /** The maximal runs of `a-z` and `0-9`, in order. */
  function Words(folded: string): (words: seq<string>)
    ensures AllWords(words)
  {
    if folded == [] then []
    else
      var rest := Words(folded[1..]);
      if !IsLowerWord(folded[0]) then rest
      else if |folded| > 1 && IsLowerWord(folded[1]) && rest != [] then [[folded[0]] + rest[0]] + rest[1..]
      else [[folded[0]]] + rest
  }

  function Concat(words: seq<string>): string { if words == [] then [] else words[0] + Concat(words[1..]) }

  function Usable(folded: string): string
  {
    if folded == [] then [] else (if IsLowerWord(folded[0]) then [folded[0]] else []) + Usable(folded[1..])
  }

  /** The words hold every usable character once and in order. */
  lemma {:induction false} WordsKeepUsable(folded: string)
    ensures Concat(Words(folded)) == Usable(folded)
  {
    if folded != [] {
      WordsKeepUsable(folded[1..]);
      var rest := Words(folded[1..]);
      if IsLowerWord(folded[0]) && |folded| > 1 && IsLowerWord(folded[1]) && rest != [] {
        ConcatHead([folded[0]], rest[0], rest[1..]);
        assert [rest[0]] + rest[1..] == rest;
      } else if IsLowerWord(folded[0]) {
        assert ([[folded[0]]] + rest)[1..] == rest;
      }
    }
  }

  /**
   * The words are the maximal runs: each one begins at the first usable character left, and ends at an unusable one or at
   * the end of the text.
   */
  ghost predicate AreRuns(words: seq<string>, folded: string)
    decreases |words|
  {
    if words == [] then Usable(folded) == []
    else exists i: nat, j: nat :: IsRun(folded, i, j, words[0]) && AreRuns(words[1..], folded[j..])
  }

  predicate IsRun(folded: string, i: nat, j: nat, word: string)
  {
    && i < j <= |folded| && folded[i..j] == word && IsWord(word)
    && (forall k :: 0 <= k < i ==> !IsLowerWord(folded[k]))
    && (j < |folded| ==> !IsLowerWord(folded[j]))
  }

  lemma {:induction false} WordsAreRuns(folded: string)
    ensures AreRuns(Words(folded), folded)
  {
    if folded != [] {
      var tail, rest := folded[1..], Words(folded[1..]);
      WordsAreRuns(tail);
      hide AreRuns, IsRun;
      if rest != [] {
        var i, j := FirstRun(rest, tail);
        assert tail[j..] == folded[j + 1..];
        RunShifts(folded, i, j, rest[0]);
        assert [rest[0]] + rest[1..] == rest;
        if !IsLowerWord(folded[0]) {
          MakeRuns(rest[0], rest[1..], folded, i + 1, j + 1);
        } else if i > 0 {
          LoneRun(folded);
          MakeRuns([folded[0]], rest, folded, 0, 1);
        } else {
          MakeRuns([folded[0]] + rest[0], rest[1..], folded, 0, j + 1);
        }
      } else {
        NothingLeft(rest, tail);
        if IsLowerWord(folded[0]) {
          NoneUsable(tail);
          LoneRun(folded);
          MakeRuns([folded[0]], rest, folded, 0, 1);
        } else {
          NothingLeft(rest, folded);
        }
      }
    } else {
      NothingLeft([], folded);
    }
  }

  lemma FirstRun(words: seq<string>, folded: string) returns (i: nat, j: nat)
    requires words != [] && AreRuns(words, folded)
    ensures i < j <= |folded| && IsRun(folded, i, j, words[0]) && AreRuns(words[1..], folded[j..])
    ensures i > 0 <==> !IsLowerWord(folded[0])
  {
    i, j :| IsRun(folded, i, j, words[0]) && AreRuns(words[1..], folded[j..]);
    assert folded[i..j][0] == folded[i];
  }

  lemma NothingLeft(words: seq<string>, folded: string)
    requires words == []
    ensures AreRuns(words, folded) <==> Usable(folded) == []
  {
  }

  /** A usable character with no other behind it is a run. */
  lemma LoneRun(folded: string)
    requires folded != [] && IsLowerWord(folded[0]) && (|folded| > 1 ==> !IsLowerWord(folded[1]))
    ensures IsRun(folded, 0, 1, [folded[0]])
  {
  }

  lemma MakeRuns(word: string, rest: seq<string>, folded: string, i: nat, j: nat)
    requires IsRun(folded, i, j, word) && AreRuns(rest, folded[j..])
    ensures AreRuns([word] + rest, folded)
  {
    var words := [word] + rest;
    assert words[0] == word && words[1..] == rest;
    assert IsRun(folded, i, j, words[0]) && AreRuns(words[1..], folded[j..]);
  }

  /** A run of the text after the first character is one of the whole text, longer by that character if it touches it. */
  lemma RunShifts(folded: string, i: nat, j: nat, word: string)
    requires folded != [] && IsRun(folded[1..], i, j, word)
    ensures !IsLowerWord(folded[0]) ==> IsRun(folded, i + 1, j + 1, word)
    ensures IsLowerWord(folded[0]) && i == 0 ==> IsRun(folded, 0, j + 1, [folded[0]] + word)
  {
    var tail := folded[1..];
    assert forall k :: 0 <= k < |tail| ==> tail[k] == folded[k + 1];
    assert folded[i + 1..j + 1] == tail[i..j];
    assert i == 0 ==> folded[0..j + 1] == [folded[0]] + tail[0..j];
    assert forall k :: 0 < k <= i ==> folded[k] == tail[k - 1];
  }

  lemma {:induction false} NoneUsable(s: string)
    ensures Usable(s) == [] <==> forall k :: 0 <= k < |s| ==> !IsLowerWord(s[k])
  {
    if s != [] {
      NoneUsable(s[1..]);
      assert forall k :: 0 < k < |s| ==> s[k] == s[1..][k - 1];
      assert forall k :: 0 <= k < |s| - 1 ==> s[1..][k] == s[k + 1];
    }
  }

  lemma ConcatHead(a: string, b: string, rest: seq<string>)
    ensures Concat([a + b] + rest) == a + Concat([b] + rest)
  {
    assert ([a + b] + rest)[1..] == rest;
    assert ([b] + rest)[1..] == rest;
    assert (a + b) + Concat(rest) == a + (b + Concat(rest));
  }

  /** Lower-case letters, digits and single inner hyphens. */
  ghost predicate SlugShape(s: string)
  {
    && s != []
    && (forall i :: 0 <= i < |s| ==> IsLowerWord(s[i]) || s[i] == '-')
    && s[0] != '-' && s[|s| - 1] != '-'
    && forall i :: 0 < i < |s| && s[i] == '-' ==> s[i - 1] != '-'
  }

  lemma WordHasShape(word: string)
    requires IsWord(word)
    ensures SlugShape(word)
  {
  }

  /** Hyphens keep the shape. */
  lemma HyphenKeepsShape(a: string, b: string)
    requires SlugShape(a) && SlugShape(b)
    ensures SlugShape(a + "-" + b)
  {
    var s := a + "-" + b;
    forall i | 0 <= i < |s|
      ensures IsLowerWord(s[i]) || s[i] == '-'
      ensures i > 0 && s[i] == '-' ==> s[i - 1] != '-'
    {
      if i < |a| {
        assert s[i] == a[i];
      } else if i > |a| {
        assert s[i] == b[i - |a| - 1];
        if i > |a| + 1 {
          assert s[i - 1] == b[i - |a| - 2];
        }
      }
    }
    assert s[0] == a[0] && s[|s| - 1] == b[|b| - 1];
  }

  /** `words.join('-')`. */
  function Joined(words: seq<string>): string { Lines.Join(words, '-') }

  lemma JoinedStep(words: seq<string>, word: string)
    ensures Joined(words + [word]) == if words == [] then word else Joined(words) + "-" + word
  {
    if words == [] {
      assert words + [word] == [word];
    } else {
      Lines.JoinConcat(words, [word], '-');
    }
  }

  /** As many whole words as fit; only a first word that is too long alone is cut. */
  ghost predicate IsSlugOf(words: seq<string>, slug: string)
  {
    if words == [] then slug == []
    else if |words[0]| > SLUG_MAX then slug == words[0][..SLUG_MAX]
    else exists n :: 1 <= n <= |words| && IsLongestCut(words, n, slug)
  }

  ghost predicate IsLongestCut(words: seq<string>, n: int, slug: string)
    requires 1 <= n <= |words|
  {
    && slug == Joined(words[..n])
    && |slug| <= SLUG_MAX
    && (n < |words| ==> |slug| + 1 + |words[n]| > SLUG_MAX)
  }

  method ThreadBranchSlug(folded: string) returns (slug: string)
    ensures IsSlugOf(Words(folded), slug)
    ensures |slug| <= SLUG_MAX
    ensures slug == [] <==> Usable(folded) == []
    ensures slug != [] ==> SlugShape(slug)
  {
    var words := Words(folded);
    WordsKeepUsable(folded);
    hide Words, Usable;
    slug := "";
    var i := 0;
    while i < |words|
      invariant 0 <= i <= |words|
      invariant slug == Joined(words[..i]) && |slug| <= SLUG_MAX
      invariant i == 0 ==> slug == []
      invariant i > 0 ==> SlugShape(slug) && |words[0]| <= SLUG_MAX
      decreases |words| - i
    {
      var word := words[i];
      WordHasShape(word);
      var next := if slug != [] then slug + "-" + word else word;
      if |next| > SLUG_MAX {
        if slug == [] {
          slug := word[..SLUG_MAX];
          WordHasShape(slug);
        } else {
          assert IsLongestCut(words, i, slug);
        }
        return;
      }
      assert words[..i + 1] == words[..i] + [word];
      JoinedStep(words[..i], word);
      if i > 0 {
        HyphenKeepsShape(slug, word);
      }
      slug := next;
      i := i + 1;
    }
    assert words[..|words|] == words;
    assert words != [] ==> IsLongestCut(words, |words|, slug);
  }

  // ---------------------------------------------------------------------------------------------
  // Branch names
  // ---------------------------------------------------------------------------------------------

  predicate IsBranchChar(c: char) { IsAlnum(c) || c == '.' || c == '_' || c == '/' || c == '-' }

  predicate Doubled(s: string, c: char) { exists i :: 0 < i < |s| && s[i] == c && s[i - 1] == c }

  predicate ValidPart(part: string) { part != [] && part[0] != '.' && !EndsWith(part, ".lock") }

  predicate ValidBranchName(name: string)
  {
    && name != [] && (forall i :: 0 <= i < |name| ==> IsBranchChar(name[i]))
    && !Doubled(name, '.') && !Doubled(name, '/') && !EndsWith(name, "/") && !EndsWith(name, ".") && !EndsWith(name, ".lock")
    && var parts := Lines.Split(name, '/'); forall i :: 0 <= i < |parts| ==> ValidPart(parts[i])
  }

  /** The folders of a name and its last part, as Git wants each: not empty, not hidden, not a lock. */
  predicate PartsAreValid(name: string)
  {
    var parts := Lines.Split(name, '/');
    forall i :: 0 <= i < |parts| ==> parts[i] != [] && parts[i][0] != '.' && !EndsWith(parts[i], ".lock")
  }

  /** What Git refuses in a name as a whole is refused in one of its parts already, but for two dots in a row and a last one. */
  lemma ValidNameIff(name: string)
    ensures ValidBranchName(name)
            <==> (forall i :: 0 <= i < |name| ==> IsBranchChar(name[i])) && PartsAreValid(name) && !Doubled(name, '.') && !EndsWith(name, ".")
  {
    if name == [] {
      assert Lines.Split(name, '/')[0] == [];
    } else {
      if PartsAreValid(name) {
        NoEmptyPart(name);
        LastPartEnds(name);
      }
    }
  }

  lemma EmptyBetween(a: string, b: string)
    ensures [] in Lines.Split(a + ['/'] + ([] + ['/'] + b), '/') && [] in Lines.Split(a + ['/'], '/')
  {
    hide Lines.Split;
    Lines.SplitAt(a, [] + ['/'] + b, '/');
    Lines.SplitAt([], b, '/');
    Lines.SplitOfFree<char>([], '/');
    Lines.SplitAt(a, [], '/');
    assert a + ['/'] + [] == a + ['/'];
  }

  lemma NoEmptyPart(name: string)
    requires PartsAreValid(name)
    ensures !Doubled(name, '/') && !EndsWith(name, "/")
  {
    hide Lines.Split;
    if Doubled(name, '/') {
      var i :| 0 < i < |name| && name[i] == '/' && name[i - 1] == '/';
      var a, b := name[..i - 1], name[i + 1..];
      assert name == a + ['/'] + ([] + ['/'] + b);
      EmptyBetween(a, b);
    }
    if EndsWith(name, "/") {
      EndsWithAt(name, "/", 0);
      var a := name[..|name| - 1];
      assert name == a + ['/'];
      EmptyBetween(a, []);
    }
  }

  /** A name ends like its last part does, when that is long enough. */
  lemma LastPartEnds(name: string)
    requires PartsAreValid(name)
    ensures !EndsWith(name, ".lock")
  {
    hide PartsAreValid;
    if EndsWith(name, ".lock") {
      var a := name[..|name| - 5];
      assert name == a + ".lock";
      LockedPart(a);
    }
  }

  lemma LockedPart(a: string)
    ensures !PartsAreValid(a + ".lock")
  {
    var front, parts := Lines.Split(a, '/'), Lines.Split(a + ".lock", '/');
    hide Lines.Split;
    SplitWithTail(a, ".lock");
    var last := front[|front| - 1];
    assert parts[|parts| - 1] == last + ".lock";
    assert (last + ".lock")[|last|..] == ".lock";
  }

  lemma SplitLater(first: string, rest: seq<string>, tail: string)
    requires rest != []
    ensures var s := [first] + rest;
            s[..|s| - 1] + [s[|s| - 1] + tail] == [first] + (rest[..|rest| - 1] + [rest[|rest| - 1] + tail])
  {
    var s := [first] + rest;
    assert s[..|s| - 1] == [first] + rest[..|rest| - 1];
  }

  lemma {:induction false} SplitWithTail(a: string, tail: string)
    requires Lines.Free(tail, '/')
    ensures var s := Lines.Split(a, '/'); Lines.Split(a + tail, '/') == s[..|s| - 1] + [s[|s| - 1] + tail]
    decreases |a|
  {
    assert a == [] ==> Lines.Split(a, '/') == [[]];
    hide Lines.Split;
    if a == [] {
      assert a + tail == tail;
      Lines.SplitOfFree(tail, '/');
      assert [] + tail == tail;
    } else {
      var all := a + tail;
      assert all[0] == a[0] && all[1..] == a[1..] + tail;
      SplitWithTail(a[1..], tail);
      Lines.SplitStep(a, '/');
      Lines.SplitStep(all, '/');
      var rest := Lines.Split(a[1..], '/');
      if a[0] == '/' {
        SplitLater([], rest, tail);
      } else {
        SplitFirst(a[0], rest, tail);
      }
    }
  }

  lemma SplitFirst(c: char, rest: seq<string>, tail: string)
    requires rest != []
    ensures var t := rest[..|rest| - 1] + [rest[|rest| - 1] + tail];
            var s := [[c] + rest[0]] + rest[1..];
            [[c] + t[0]] + t[1..] == s[..|s| - 1] + [s[|s| - 1] + tail]
  {
    if |rest| == 1 {
      assert [c] + (rest[0] + tail) == ([c] + rest[0]) + tail;
    }
  }

  predicate IsMousseBranchName(name: string) { StartsWith(name, PREFIX) && |name| > |PREFIX| && ValidBranchName(name) }

  /** One of the branches named by an id, which live in folders of their own. */
  predicate IsIdNamed(name: string)
  {
    && (StartsWith(name, "mousse/thread/") || StartsWith(name, "mousse/agent/") || StartsWith(name, "mousse/workflow/"))
    && ValidBranchName(name)
  }

  /** A valid name is one of those exactly when it lies in a folder of a reserved name under the prefix. */
  lemma IdNamedIff(name: string)
    ensures IsIdNamed(name)
            <==> ValidBranchName(name) && exists folder, rest :: folder in RESERVED && name == PREFIX + folder + "/" + rest
  {
    hide ValidBranchName;
    FolderIs(name, "thread", "mousse/thread/");
    FolderIs(name, "agent", "mousse/agent/");
    FolderIs(name, "workflow", "mousse/workflow/");
    if folder, rest :| folder in RESERVED && name == PREFIX + folder + "/" + rest {
      FolderStarts(name, folder, rest);
      assert PREFIX + "thread" + "/" == "mousse/thread/" && PREFIX + "agent" + "/" == "mousse/agent/";
      assert PREFIX + "workflow" + "/" == "mousse/workflow/";
    }
  }

  lemma FolderStarts(name: string, folder: string, rest: string)
    requires name == PREFIX + folder + "/" + rest
    ensures StartsWith(name, PREFIX + folder + "/")
  {
  }

  lemma FolderIs(name: string, folder: string, start: string)
    requires start == PREFIX + folder + "/"
    ensures StartsWith(name, start) ==> exists rest :: name == PREFIX + folder + "/" + rest
  {
    if StartsWith(name, start) {
      var rest := name[|start|..];
      assert name == PREFIX + folder + "/" + rest;
    }
  }

  function OnlyAlnum(s: string): (r: string)
    ensures forall i :: 0 <= i < |r| ==> IsAlnum(r[i])
  {
    if s == [] then [] else (if IsAlnum(s[0]) then [s[0]] else []) + OnlyAlnum(s[1..])
  }

  function First8(s: string): string { if |s| > 8 then s[..8] else s }

  /** The name for a thread whose text has no usable word. */
  function Fallback(threadId: string): string
  {
    var id := AsciiLower(First8(OnlyAlnum(threadId)));
    "thread-" + if id != [] then id else "new"
  }

  lemma {:induction false} OnlyAlnumConcat(a: string, b: string)
    ensures OnlyAlnum(a + b) == OnlyAlnum(a) + OnlyAlnum(b)
    decreases |a|
  {
    hide IsAlnum;
    if a == [] {
      assert a + b == b;
    } else {
      assert (a + b)[0] == a[0] && (a + b)[1..] == a[1..] + b;
      OnlyAlnumConcat(a[1..], b);
    }
  }

  lemma {:induction false} OnlyAlnumStays(a: string)
    ensures (forall i :: 0 <= i < |a| ==> IsAlnum(a[i])) ==> OnlyAlnum(a) == a
    ensures (forall i :: 0 <= i < |a| ==> !IsAlnum(a[i])) ==> OnlyAlnum(a) == []
  {
    hide IsAlnum;
    if a != [] {
      OnlyAlnumStays(a[1..]);
      assert forall i :: 0 <= i < |a| - 1 ==> a[1..][i] == a[i + 1];
      assert [a[0]] + a[1..] == a;
    }
  }

  /** An id is named by its first eight letters and digits in lower case, whatever stands between them; one without any by "new". */
  lemma FallbackNames(threadId: string, first: string, rest: string)
    ensures (forall i :: 0 <= i < |threadId| ==> !IsAlnum(threadId[i])) ==> Fallback(threadId) == "thread-new"
    ensures threadId == first + rest && |first| == 8 && (forall i :: 0 <= i < 8 ==> IsAlnum(first[i])) ==>
              Fallback(threadId) == "thread-" + AsciiLower(first)
  {
    OnlyAlnumStays(threadId);
    OnlyAlnumStays(first);
    OnlyAlnumConcat(first, rest);
    if threadId == first + rest && |first| == 8 && forall i :: 0 <= i < 8 ==> IsAlnum(first[i]) {
      assert First8(OnlyAlnum(threadId)) == first;
    }
  }

  lemma FallbackHasShape(threadId: string)
    ensures SlugShape(Fallback(threadId))
  {
    var id := AsciiLower(First8(OnlyAlnum(threadId)));
    WordHasShape("thread");
    WordHasShape(if id != [] then id else "new");
    HyphenKeepsShape("thread", if id != [] then id else "new");
  }

  function SlugFor(base: string, suffix: nat): string { if suffix == 1 then base else base + "-" + Decimals.Decimal(suffix) }

  function NameFor(base: string, suffix: nat): string { PREFIX + SlugFor(base, suffix) }

  /** The first name is the bare one; the others carry their number behind a hyphen, in plain decimal. */
  lemma NamesAre(base: string, suffix: nat)
    ensures NameFor(base, 1) == "mousse/" + base
    ensures suffix > 1 ==> exists digits :: NameFor(base, suffix) == "mousse/" + base + "-" + digits
                                            && Decimals.AllDigits(digits) && Decimals.ValueOf(digits) == suffix && digits[0] != '0'
  {
    if suffix > 1 {
      var digits := Decimals.Decimal(suffix);
      Decimals.ValueOfDecimal(suffix);
      NoLeadingZero(suffix);
      hide Decimals.Decimal;
      assert NameFor(base, suffix) == "mousse/" + base + "-" + digits;
    }
  }

  lemma {:induction false} NoLeadingZero(n: nat)
    requires n > 0
    ensures Decimals.Decimal(n)[0] != '0'
  {
    if n >= 10 {
      NoLeadingZero(n / 10);
    }
  }

  /** The names tried are the ones neither reserved nor refused by Git. */
  predicate Tried(base: string, suffix: nat)
  {
    1 <= suffix < 1000 && SlugFor(base, suffix) !in RESERVED && ValidBranchName(NameFor(base, suffix))
  }

  lemma SlugForHasShape(base: string, suffix: nat)
    requires SlugShape(base)
    ensures SlugShape(SlugFor(base, suffix))
  {
    WordHasShape(Decimals.Decimal(suffix));
    HyphenKeepsShape(base, Decimals.Decimal(suffix));
  }

  lemma PartsOfName(slug: string)
    requires Lines.Free(slug, '/')
    ensures Lines.Split(PREFIX + slug, '/') == ["mousse", slug]
  {
    assert Lines.Free("mousse", '/');
    hide Lines.Split;
    Lines.SplitOfFree("mousse", '/');
    Lines.SplitOfFree(slug, '/');
    assert PREFIX + slug == "mousse" + ['/'] + slug;
    Lines.SplitAt("mousse", slug, '/');
  }

  /** Git accepts every name of this shape. */
  lemma ShapeIsValid(slug: string)
    requires SlugShape(slug)
    ensures ValidBranchName(PREFIX + slug)
  {
    var name := PREFIX + slug;
    PartsOfName(slug);
    NoDot("mousse");
    NoDot(slug);
    hide Lines.Split, EndsWith;
    forall i | 0 <= i < |name|
      ensures IsBranchChar(name[i]) && name[i] != '.'
      ensures i > 0 ==> !(name[i] == '/' && name[i - 1] == '/')
    {
      if i >= 7 {
        assert name[i] == slug[i - 7];
      }
    }
    NoDot(name);
    EndsWithAt(name, "/", 0);
    assert name[|name| - 1] == slug[|slug| - 1];
  }

  lemma EndsWithAt(s: string, p: string, k: nat)
    requires k < |p|
    ensures EndsWith(s, p) ==> s[|s| - |p| + k] == p[k]
  {
  }

  lemma StartsWithAt(s: string, p: string, k: nat)
    requires k < |p|
    ensures StartsWith(s, p) ==> s[k] == p[k]
  {
    assert StartsWith(s, p) ==> s[..|p|][k] == s[k];
  }

  lemma NoDot(s: string)
    requires s != [] && forall i :: 0 <= i < |s| ==> s[i] != '.'
    ensures !EndsWith(s, ".lock") && !EndsWith(s, ".") && !Doubled(s, '.')
  {
    EndsWithAt(s, ".lock", 0);
    EndsWithAt(s, ".", 0);
  }

  lemma NoHyphen(slug: string)
    requires slug in RESERVED
    ensures '-' !in slug
  {
  }

  /** Exactly a reserved base without a suffix is skipped. */
  lemma TriedIff(base: string, suffix: nat)
    requires SlugShape(base) && 1 <= suffix < 1000
    ensures Tried(base, suffix) <==> suffix > 1 || base !in RESERVED
  {
    SlugForHasShape(base, suffix);
    ShapeIsValid(SlugFor(base, suffix));
    if suffix > 1 {
      var slug := SlugFor(base, suffix);
      assert slug[|base|] == '-';
      if slug in RESERVED {
        NoHyphen(slug);
      }
    }
  }

  lemma NamesDiffer(base: string, a: nat, b: nat)
    requires NameFor(base, a) == NameFor(base, b) && a >= 1 && b >= 1
    ensures a == b
  {
    assert NameFor(base, a)[7..] == SlugFor(base, a) && NameFor(base, b)[7..] == SlugFor(base, b);
    if a != 1 && b != 1 {
      assert SlugFor(base, a)[|base| + 1..] == Decimals.Decimal(a);
      assert SlugFor(base, b)[|base| + 1..] == Decimals.Decimal(b);
      Decimals.ValueOfDecimal(a);
      Decimals.ValueOfDecimal(b);
    }
  }

  /** The names tried with suffixes below `n`. */
  ghost function Candidates(base: string, n: nat): set<string>
    requires n <= 1000
  {
    set k: nat | k < n && Tried(base, k) :: NameFor(base, k)
  }

  lemma OneMoreCandidate(base: string, n: nat)
    requires 1 <= n < 1000
    ensures Candidates(base, n + 1) == Candidates(base, n) + if Tried(base, n) then {NameFor(base, n)} else {}
    ensures NameFor(base, n) !in Candidates(base, n)
  {
    hide NameFor;
    forall k: nat | k < n && Tried(base, k)
      ensures NameFor(base, k) != NameFor(base, n)
    {
      if NameFor(base, k) == NameFor(base, n) {
        NamesDiffer(base, k, n);
      }
    }
  }

  lemma {:induction false} CountCandidates(base: string, n: nat)
    requires SlugShape(base) && 1 <= n <= 1000
    ensures |Candidates(base, n)| == if n == 1 then 0 else if base in RESERVED then n - 2 else n - 1
  {
    if n == 1 {
      assert Candidates(base, 1) == {};
    } else {
      hide *;
      CountCandidates(base, n - 1);
      TriedIff(base, n - 1);
      OneMoreCandidate(base, n - 1);
    }
  }

  /** What a branch name promises: Mousse owns it, and neither it nor anything under it is in the id-named folders. */
  ghost predicate Clean(name: string)
  {
    IsMousseBranchName(name) && !IsIdNamed(name) && forall rest :: !IsIdNamed(name + "/" + rest)
  }

  /** The first slash after the prefix stands where the slug ends. */
  lemma SlashAt(slug: string, tail: string, m: nat)
    requires Lines.Free(slug, '/') && (tail == [] || tail[0] == '/') && m <= |slug|
    ensures 7 + m < |PREFIX + slug + tail| ==> ((PREFIX + slug + tail)[7 + m] == '/' <==> m == |slug|)
    ensures m < |slug| ==> (PREFIX + slug + tail)[7 + m] == slug[m]
  {
  }

  lemma PathOfSlug(slug: string, tail: string, folder: string)
    requires Lines.Free(slug, '/') && Lines.Free(folder, '/') && (tail == [] || tail[0] == '/')
    requires StartsWith(PREFIX + slug + tail, PREFIX + folder + "/")
    ensures slug == folder
  {
    var name, p := PREFIX + slug + tail, PREFIX + folder + "/";
    var m := if |slug| < |folder| then |slug| else |folder|;
    StartsWithAt(name, p, 7 + m);
    SlashAt(slug, tail, m);
    SlashAt(folder, "/", m);
    forall i | 0 <= i < |slug|
      ensures slug[i] == folder[i]
    {
      StartsWithAt(name, p, 7 + i);
      SlashAt(slug, tail, i);
      SlashAt(folder, "/", i);
    }
  }

  lemma SlugIsClean(slug: string)
    requires SlugShape(slug) && slug !in RESERVED
    ensures Clean(PREFIX + slug)
  {
    ShapeIsValid(slug);
    assert Lines.Free(slug, '/');
    forall tail: string | tail == [] || tail[0] == '/'
      ensures !IsIdNamed(PREFIX + slug + tail)
    {
      var name := PREFIX + slug + tail;
      assert PREFIX + "thread" + "/" == "mousse/thread/" && PREFIX + "agent" + "/" == "mousse/agent/";
      assert PREFIX + "workflow" + "/" == "mousse/workflow/";
      if StartsWith(name, "mousse/thread/") {
        PathOfSlug(slug, tail, "thread");
      } else if StartsWith(name, "mousse/agent/") {
        PathOfSlug(slug, tail, "agent");
      } else if StartsWith(name, "mousse/workflow/") {
        PathOfSlug(slug, tail, "workflow");
      }
    }
    assert PREFIX + slug + "" == PREFIX + slug;
    forall rest: string
      ensures !IsIdNamed(PREFIX + slug + "/" + rest)
    {
      assert PREFIX + slug + ("/" + rest) == PREFIX + slug + "/" + rest;
    }
  }

  /** The first candidate that is not taken, or nothing when all are: the search stops at suffix 999. */
  method ThreadBranchName(folded: string, threadId: string, taken: string -> bool) returns (base: string, name: Option<string>)
    ensures SlugShape(base)
    ensures Usable(folded) == [] ==> base == Fallback(threadId)
    ensures Usable(folded) != [] ==> IsSlugOf(Words(folded), base)
    ensures name.Some? ==> exists k: nat ::
                             && Tried(base, k) && name.value == NameFor(base, k) && !taken(name.value)
                             && forall j: nat :: j < k && Tried(base, j) ==> taken(NameFor(base, j))
    ensures name.Some? ==> Clean(name.value)
    ensures name.None? ==> forall k: nat :: Tried(base, k) ==> taken(NameFor(base, k))
  {
    base := ThreadBranchSlug(folded);
    hide *;
    if base == [] {
      base := Fallback(threadId);
      FallbackHasShape(threadId);
    }
    TriedBounds(base);
    for suffix := 1 to 1000
      invariant forall j: nat :: j < suffix && Tried(base, j) ==> taken(NameFor(base, j))
    {
      if Tried(base, suffix) && !taken(NameFor(base, suffix)) {
        TriedIsClean(base, suffix);
        return base, Some(NameFor(base, suffix));
      }
    }
    return base, None;
  }

  lemma TriedIsClean(base: string, suffix: nat)
    requires SlugShape(base) && Tried(base, suffix)
    ensures Clean(NameFor(base, suffix))
  {
    SlugForHasShape(base, suffix);
    SlugIsClean(SlugFor(base, suffix));
  }

  lemma TriedBounds(base: string)
    ensures forall k: nat :: Tried(base, k) ==> 1 <= k < 1000
  {
  }

  /** Naming fails only when at least 998 names are taken. */
  lemma FailureNeeds998(base: string, taken: string -> bool, all: set<string>)
    requires SlugShape(base)
    requires forall k: nat :: Tried(base, k) ==> taken(NameFor(base, k))
    requires forall name :: taken(name) ==> name in all
    ensures |all| >= 998
    ensures base !in RESERVED ==> |all| >= 999
  {
    CountCandidates(base, 1000);
    Subsets(Candidates(base, 1000), all);
  }

  lemma Subsets<T>(a: set<T>, b: set<T>)
    requires a <= b
    ensures |a| <= |b|
  {
    assert b == a + (b - a);
  }
}
