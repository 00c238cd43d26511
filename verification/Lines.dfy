/** `split` on one separator and `join` with it, for sequences of any kind. */
module Lines {
  predicate Free<T(==)>(line: seq<T>, sep: T) { sep !in line }

  predicate AllFree<T(==)>(lines: seq<seq<T>>, sep: T) { forall i :: 0 <= i < |lines| ==> Free(lines[i], sep) }

  /** `s.split(sep)`: the pieces between separators, one more than there are separators. */
  function Split<T(==)>(s: seq<T>, sep: T): (lines: seq<seq<T>>)
    ensures lines != []
  {
    if s == [] then [[]]
    else
      var rest := Split(s[1..], sep);
      if s[0] == sep then [[]] + rest else [[s[0]] + rest[0]] + rest[1..]
  }

  /** `lines.join(sep)`. */
  function Join<T>(lines: seq<seq<T>>, sep: T): seq<T>
  {
    if lines == [] then []
    else if |lines| == 1 then lines[0]
    else lines[0] + [sep] + Join(lines[1..], sep)
  }

  lemma {:induction false} SplitFree<T>(s: seq<T>, sep: T)
    ensures AllFree(Split(s, sep), sep)
  {
    if s != [] {
      SplitFree(s[1..], sep);
    }
  }

  lemma JoinStep<T>(line: seq<T>, rest: seq<seq<T>>, sep: T)
    requires rest != []
    ensures Join([line] + rest, sep) == line + [sep] + Join(rest, sep)
  {
    assert ([line] + rest)[1..] == rest;
  }

  /** Putting one more element in front of the first line puts it in front of the text. */
  lemma JoinPrepend<T>(x: T, lines: seq<seq<T>>, sep: T)
    requires lines != []
    ensures Join([[x] + lines[0]] + lines[1..], sep) == [x] + Join(lines, sep)
  {
    assert ([[x] + lines[0]] + lines[1..])[1..] == lines[1..];
  }

  lemma {:induction false} JoinSplit<T>(s: seq<T>, sep: T)
    ensures Join(Split(s, sep), sep) == s
  {
    if s != [] {
      var rest := Split(s[1..], sep);
      if s[0] == sep {
        JoinStep([], rest, sep);
      } else {
        JoinPrepend(s[0], rest, sep);
      }
      hide Join, Split;
      JoinSplit(s[1..], sep);
    }
  }

  lemma {:induction false} SplitOfFree<T>(line: seq<T>, sep: T)
    requires Free(line, sep)
    ensures Split(line, sep) == [line]
  {
    if line != [] {
      assert Free(line[1..], sep);
      SplitOfFree(line[1..], sep);
      assert [line[0]] + line[1..] == line;
    }
  }

  lemma SplitStep<T>(s: seq<T>, sep: T)
    requires s != []
    ensures var rest := Split(s[1..], sep); Split(s, sep) == if s[0] == sep then [[]] + rest else [[s[0]] + rest[0]] + rest[1..]
  {
  }

  /** Splitting distributes over a separator. */
  lemma {:induction false} SplitAt<T>(a: seq<T>, b: seq<T>, sep: T)
    ensures Split(a + [sep] + b, sep) == Split(a, sep) + Split(b, sep)
  {
    var s := a + [sep] + b;
    assert a == [] ==> Split(a, sep) == [[]];
    hide Split;
    SplitStep(s, sep);
    if a == [] {
      assert s[1..] == b;
    } else {
      assert s[0] == a[0] && s[1..] == a[1..] + [sep] + b;
      SplitAt(a[1..], b, sep);
      SplitStep(a, sep);
      MoreLines([a[0]], Split(a[1..], sep), Split(b, sep));
    }
  }

  lemma MoreLines<T>(front: seq<T>, rest: seq<seq<T>>, more: seq<seq<T>>)
    requires rest != []
    ensures [[]] + (rest + more) == [[]] + rest + more
    ensures [front + (rest + more)[0]] + (rest + more)[1..] == [front + rest[0]] + rest[1..] + more
  {
  }

  lemma {:induction false} SplitJoin<T>(lines: seq<seq<T>>, sep: T)
    requires lines != [] && AllFree(lines, sep)
    ensures Split(Join(lines, sep), sep) == lines
  {
    SplitOfFree(lines[0], sep);
    if |lines| > 1 {
      SplitJoin(lines[1..], sep);
      SplitAt(lines[0], Join(lines[1..], sep), sep);
      assert [lines[0]] + lines[1..] == lines;
    }
  }

  /** Joining distributes over concatenation of non-empty lists. */
  lemma {:induction false} JoinConcat<T>(a: seq<seq<T>>, b: seq<seq<T>>, sep: T)
    requires a != [] && b != []
    ensures Join(a + b, sep) == Join(a, sep) + [sep] + Join(b, sep)
  {
    assert (a + b)[0] == a[0];
    if |a| == 1 {
      assert (a + b)[1..] == b;
    } else {
      assert (a + b)[1..] == a[1..] + b;
      JoinConcat(a[1..], b, sep);
    }
  }

  /** Equal pieces mean equal text. */
  lemma SplitInjective<T>(s: seq<T>, t: seq<T>, sep: T)
    ensures Split(s, sep) == Split(t, sep) <==> s == t
  {
    JoinSplit(s, sep);
    JoinSplit(t, sep);
  }
}
