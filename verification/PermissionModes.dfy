/**
 * Permission modes and the ceiling a subagent inherits (src/shared/permissionMode.ts). Lineage links are arbitrary: a thread
 * may name a parent that is missing, or one that leads back to itself.
 */
module PermissionModes {
  import opened Options

  datatype Mode = Ask | AcceptEdits | Auto | Full

  datatype Action = Command | Edit | Tool

  /** Strictest first. */
  const PERMISSION_MODES: seq<Mode> := [Ask, AcceptEdits, Auto, Full]

  const DEFAULT_MODE: Mode := AcceptEdits

  /** The position in `PERMISSION_MODES`. */
  function Rank(m: Mode): nat
  {
    match m
    case Ask => 0
    case AcceptEdits => 1
    case Auto => 2
    case Full => 3
  }

  predicate IsStricter(a: Mode, b: Mode) { Rank(a) < Rank(b) }

  predicate NoWider(a: Mode, b: Mode) { Rank(a) <= Rank(b) }

  predicate Allows(mode: Mode, action: Action)
  {
    mode == Full || ((mode == AcceptEdits || mode == Auto) && action == Edit)
  }

  /** A stricter mode lets nothing through that a wider one would not; Auto lets through exactly what Auto-accept edits does. */
  lemma StricterAllowsLess(a: Mode, b: Mode)
    ensures NoWider(a, b) ==> forall action :: Allows(a, action) ==> Allows(b, action)
    ensures forall action :: Allows(Auto, action) <==> Allows(AcceptEdits, action)
  {
  }

  /** The strictest mode that lets an action through without asking. */
  function LeastMode(action: Action): Mode { if action == Edit then AcceptEdits else Full }

  /** Each action has a mode from which on it is let through: edits from Auto-accept edits, commands and tools in full access only. */
  lemma AllowsFromLeastMode(mode: Mode, action: Action)
    ensures Allows(mode, action) <==> NoWider(LeastMode(action), mode)
  {
  }

  /** The strictest of the modes given, the default when none is. */
  method NarrowPermissionMode(modes: seq<Option<Mode>>) returns (narrow: Mode)
    ensures (forall i :: 0 <= i < |modes| ==> modes[i] == None) ==> narrow == DEFAULT_MODE
    ensures (exists i :: 0 <= i < |modes| && modes[i] != None) ==> Some(narrow) in modes
    ensures forall i :: 0 <= i < |modes| && modes[i].Some? ==> NoWider(narrow, modes[i].value)
  {
    var strictest: Option<Mode> := None;
    for i := 0 to |modes|
      invariant strictest.None? <==> forall k :: 0 <= k < i ==> modes[k] == None
      invariant strictest.Some? ==> strictest in modes[..i]
      invariant forall k :: 0 <= k < i && modes[k].Some? ==> strictest.Some? && NoWider(strictest.value, modes[k].value)
    {
      if modes[i].None? {
        continue;
      }
      if strictest.None? || IsStricter(modes[i].value, strictest.value) {
        strictest := modes[i];
      }
    }
    narrow := strictest.GetOr(DEFAULT_MODE);
  }

  /** What narrowing two present modes gives. */
  function Narrower(a: Mode, b: Mode): Mode { if IsStricter(b, a) then b else a }

  // ---------------------------------------------------------------------------------------------
  // The mode a turn runs in
  // ---------------------------------------------------------------------------------------------

  datatype Effective = Runs(mode: Mode) | Refused

  /** The stricter supported modes, strictest first. */
  function Stricter(requested: Mode, supported: seq<Mode>, n: nat): seq<Mode>
    requires n <= |PERMISSION_MODES|
  {
    if n == 0 then []
    else
      var mode := PERMISSION_MODES[n - 1];
      Stricter(requested, supported, n - 1) + (if IsStricter(mode, requested) && mode in supported then [mode] else [])
  }

  function EffectiveMode(requested: Mode, supported: seq<Mode>): Effective
    decreases Rank(requested)
  {
    if requested in supported then Runs(requested)
    else if requested == Auto then EffectiveMode(AcceptEdits, supported)
    else
      var stricter := Stricter(requested, supported, |PERMISSION_MODES|);
      if stricter != [] then Runs(stricter[|stricter| - 1]) else Refused
  }

  lemma {:induction false} StricterModes(requested: Mode, supported: seq<Mode>, n: nat)
    requires n <= |PERMISSION_MODES|
    ensures var r := Stricter(requested, supported, n);
            && (r == [] ==> forall m :: m in supported && Rank(m) < n ==> !IsStricter(m, requested))
            && (r != [] ==> var last := r[|r| - 1];
                            && last in supported && IsStricter(last, requested) && Rank(last) < n
                            && forall m :: m in supported && Rank(m) < n && IsStricter(m, requested) ==> NoWider(m, last))
  {
    if n > 0 {
      StricterModes(requested, supported, n - 1);
      assert Rank(PERMISSION_MODES[n - 1]) == n - 1;
      assert forall m :: Rank(m) == n - 1 ==> m == PERMISSION_MODES[n - 1];
    }
  }

  /**
   * For any supported modes the turn runs in the widest supported mode that is no wider than the requested one, and is
   * refused exactly when there is none.
   */
  lemma EffectiveIsWidestSupported(requested: Mode, supported: seq<Mode>)
    ensures var e := EffectiveMode(requested, supported);
            && (e.Runs? ==> e.mode in supported && NoWider(e.mode, requested)
                            && forall m :: m in supported && NoWider(m, requested) ==> NoWider(m, e.mode))
            && (e.Refused? <==> forall m :: m in supported ==> !NoWider(m, requested))
  {
    StricterModes(requested, supported, 4);
    StricterModes(AcceptEdits, supported, 4);
    hide Stricter;
    assert forall m: Mode :: Rank(m) < 4;
    assert forall m: Mode :: NoWider(m, requested) ==> m == requested || IsStricter(m, requested);
    if requested == Auto && requested !in supported {
      assert forall m: Mode :: IsStricter(m, Auto) ==> m == AcceptEdits || IsStricter(m, AcceptEdits);
    }
  }

  /** Auto where it cannot run resolves exactly as Auto-accept edits does: the same mode or the same refusal. */
  lemma UnsupportedAutoIsAcceptEdits(supported: seq<Mode>)
    requires Auto !in supported
    ensures EffectiveMode(Auto, supported) == EffectiveMode(AcceptEdits, supported)
  {
  }

  // ---------------------------------------------------------------------------------------------
  // Lineage
  // ---------------------------------------------------------------------------------------------

  datatype Thread = Thread(id: string, mode: Option<Mode>, parent: Option<string>)

  /** `threads.find((entry) => entry.id === id)`; an empty id names nobody. */
  function Find(threads: seq<Thread>, id: string): Option<Thread>
  {
    if threads == [] then None else if threads[0].id == id then Some(threads[0]) else Find(threads[1..], id)
  }

  function Ids(threads: seq<Thread>): set<string> { set i | 0 <= i < |threads| :: threads[i].id }

  lemma {:induction false} FoundIsListed(threads: seq<Thread>, id: string)
    ensures Find(threads, id).Some? ==> Find(threads, id).value.id == id && id in Ids(threads)
  {
    if threads != [] {
      FoundIsListed(threads[1..], id);
      if Find(threads[1..], id).Some? {
        var i :| 0 <= i < |threads[1..]| && threads[1..][i].id == id;
        assert threads[i + 1].id == id;
      }
    }
  }

  function OwnMode(t: Thread, default: Mode): Mode { t.mode.GetOr(default) }

  /** The walk of the source from a parent link: what it narrows `ceiling` to, having seen `seen`. */
  function CeilingFrom(threads: seq<Thread>, parent: Option<string>, seen: set<string>, ceiling: Mode, default: Mode): Mode
    decreases Ids(threads) - seen
  {
    if parent.None? || parent.value == "" || parent.value in seen then ceiling
    else
      match Find(threads, parent.value)
      case None => ceiling
      case Some(t) =>
        FoundIsListed(threads, parent.value);
        assert parent.value in Ids(threads) - seen && parent.value !in Ids(threads) - (seen + {parent.value});
        CeilingFrom(threads, t.parent, seen + {parent.value}, Narrower(ceiling, OwnMode(t, default)), default)
  }

  /** The ceiling of a thread nobody lists, or of one that is listed. */
  function Ceiling(threads: seq<Thread>, parent: Option<string>, default: Mode): Mode
  {
    CeilingFrom(threads, parent, {}, Full, default)
  }

  method PermissionCeilingOf(thread: Option<Thread>, threads: seq<Thread>, default: Mode) returns (ceiling: Mode)
    ensures ceiling == Ceiling(threads, if thread.Some? then thread.value.parent else None, default)
  {
    ceiling := Full;
    var seen: set<string> := {};
    var parentId := if thread.Some? then thread.value.parent else None;
    ghost var start := parentId;
    while parentId.Some? && parentId.value != "" && parentId.value !in seen
      invariant CeilingFrom(threads, parentId, seen, ceiling, default) == Ceiling(threads, start, default)
      decreases Ids(threads) - seen, parentId.Some?
    {
      var id := parentId.value;
      var parent := Find(threads, id);
      if parent.None? {
        seen := seen + {id};
        break;
      }
      FoundIsListed(threads, id);
      assert id in Ids(threads) - seen && id !in Ids(threads) - (seen + {id});
      seen := seen + {id};
      var own := OwnMode(parent.value, default);
      var modes := [Some(ceiling), Some(own)];
      assert modes[0] == Some(ceiling) && modes[1] == Some(own);
      var narrowed := NarrowPermissionMode(modes);
      NarrowTwo(ceiling, own, narrowed);
      ceiling := narrowed;
      parentId := parent.value.parent;
    }
  }

  lemma NarrowTwo(a: Mode, b: Mode, narrow: Mode)
    requires Some(narrow) in [Some(a), Some(b)] && NoWider(narrow, a) && NoWider(narrow, b)
    ensures narrow == Narrower(a, b)
  {
  }

  /** The `n`-th ancestor up the links, while they name listed threads. */
  function Ancestor(threads: seq<Thread>, parent: Option<string>, n: nat): Option<Thread>
    decreases n
  {
    if parent.None? || parent.value == "" then None
    else
      match Find(threads, parent.value)
      case None => None
      case Some(t) => if n == 0 then Some(t) else Ancestor(threads, t.parent, n - 1)
  }

  /** No ancestor's own mode is stricter than `m`. */
  ghost predicate UnderAll(threads: seq<Thread>, parent: Option<string>, default: Mode, m: Mode)
  {
    forall n: nat :: Ancestor(threads, parent, n).Some? ==> NoWider(m, Ancestor(threads, parent, n).value.mode.GetOr(default))
  }

  /** Every thread already seen, and its parent unless the walk is about to visit it, is bounded below by `m`. */
  ghost predicate SeenBounded(threads: seq<Thread>, seen: set<string>, parent: Option<string>, default: Mode, m: Mode)
  {
    forall id :: id in seen ==>
                   && Find(threads, id).Some?
                   && NoWider(m, OwnMode(Find(threads, id).value, default))
                   && var next := Find(threads, id).value.parent;
                      (next == parent || next.None? || next.value == "" || next.value in seen || Find(threads, next.value).None?)
  }

  /** The walk stops at this link. */
  predicate Stops(threads: seq<Thread>, parent: Option<string>, seen: set<string>)
  {
    parent.None? || parent.value == "" || parent.value in seen || Find(threads, parent.value).None?
  }

  /** Once a walk ends, bounding everything seen bounds every ancestor of everything seen, round any cycle. */
  lemma {:induction false} SeenIsEnough(
    threads: seq<Thread>, seen: set<string>, stop: Option<string>, id: string, default: Mode, m: Mode, n: nat)
    requires SeenBounded(threads, seen, stop, default, m) && Stops(threads, stop, seen)
    requires id in seen
    ensures Ancestor(threads, Some(id), n).Some? ==> NoWider(m, OwnMode(Ancestor(threads, Some(id), n).value, default))
    decreases n
  {
    hide Find;
    if n > 0 && id != "" {
      var next := Find(threads, id).value.parent;
      if next.Some? && next.value in seen {
        SeenIsEnough(threads, seen, stop, next.value, default, m, n - 1);
      }
    }
  }

  /** One more thread seen: the link before it now leads to something seen, its own link is the next. */
  lemma SeenStep(threads: seq<Thread>, seen: set<string>, id: string, default: Mode, m: Mode)
    requires SeenBounded(threads, seen, Some(id), default, m)
    requires Find(threads, id).Some? && NoWider(m, OwnMode(Find(threads, id).value, default))
    ensures SeenBounded(threads, seen + {id}, Find(threads, id).value.parent, default, m)
  {
    hide Find;
  }

  lemma {:induction false} CeilingOnlyNarrows(threads: seq<Thread>, parent: Option<string>, seen: set<string>, ceiling: Mode, default: Mode)
    ensures NoWider(CeilingFrom(threads, parent, seen, ceiling, default), ceiling)
    decreases Ids(threads) - seen
  {
    hide Find;
    if parent.Some? && parent.value != "" && parent.value !in seen && Find(threads, parent.value).Some? {
      var t, id := Find(threads, parent.value).value, parent.value;
      FoundIsListed(threads, id);
      assert id in Ids(threads) - seen && id !in Ids(threads) - (seen + {id});
      CeilingOnlyNarrows(threads, t.parent, seen + {id}, Narrower(ceiling, OwnMode(t, default)), default);
    }
  }

  lemma UnderAllStep(threads: seq<Thread>, parent: string, default: Mode, m: Mode)
    requires parent != "" && Find(threads, parent).Some?
    ensures UnderAll(threads, Some(parent), default, m)
            <==> NoWider(m, OwnMode(Find(threads, parent).value, default)) && UnderAll(threads, Find(threads, parent).value.parent, default, m)
  {
    var t := Find(threads, parent).value;
    hide Find;
    assert Ancestor(threads, Some(parent), 0) == Some(t);
    forall n: nat
      ensures Ancestor(threads, Some(parent), n + 1) == Ancestor(threads, t.parent, n)
    {
    }
    if NoWider(m, OwnMode(t, default)) && UnderAll(threads, t.parent, default, m) {
      forall n: nat | Ancestor(threads, Some(parent), n).Some?
        ensures NoWider(m, OwnMode(Ancestor(threads, Some(parent), n).value, default))
      {
        if n > 0 {
          assert Ancestor(threads, Some(parent), n) == Ancestor(threads, t.parent, n - 1);
        }
      }
    }
  }

  lemma {:induction false} CeilingIsBound(
    threads: seq<Thread>, parent: Option<string>, seen: set<string>, ceiling: Mode, default: Mode, m: Mode)
    requires NoWider(m, ceiling) && SeenBounded(threads, seen, parent, default, m)
    ensures NoWider(m, CeilingFrom(threads, parent, seen, ceiling, default)) <==> UnderAll(threads, parent, default, m)
    decreases Ids(threads) - seen
  {
    hide Find, SeenBounded;
    if parent.Some? && parent.value != "" {
      var id := parent.value;
      if id in seen {
        hide CeilingFrom;
        forall n: nat
          ensures Ancestor(threads, parent, n).Some? ==> NoWider(m, OwnMode(Ancestor(threads, parent, n).value, default))
        {
          SeenIsEnough(threads, seen, parent, id, default, m, n);
        }
      } else if Find(threads, id).Some? {
        var t := Find(threads, id).value;
        var own := OwnMode(t, default);
        FoundIsListed(threads, id);
        assert id in Ids(threads) - seen && id !in Ids(threads) - (seen + {id});
        UnderAllStep(threads, id, default, m);
        hide UnderAll, Ancestor;
        if NoWider(m, own) {
          SeenStep(threads, seen, id, default, m);
          CeilingIsBound(threads, t.parent, seen + {id}, Narrower(ceiling, own), default, m);
        } else {
          CeilingOnlyNarrows(threads, t.parent, seen + {id}, Narrower(ceiling, own), default);
        }
      }
    }
  }

  /**
   * For any lineage, cyclic or broken, the ceiling is the greatest mode no wider than any ancestor's own: a mode stays
   * under the ceiling exactly when it stays under every ancestor the links lead to.
   */
  lemma CeilingIsGreatestLowerBound(threads: seq<Thread>, parent: Option<string>, default: Mode, m: Mode)
    ensures NoWider(m, Ceiling(threads, parent, default)) <==> UnderAll(threads, parent, default, m)
  {
    CeilingIsBound(threads, parent, {}, Full, default, m);
  }

  /**
   * A child's ceiling is its parent's own mode narrowed by the parent's ceiling, whatever the lineage; a thread without a
   * listed parent is not limited.
   */
  lemma CeilingOfChild(threads: seq<Thread>, parent: Option<string>, default: Mode)
    ensures Ceiling(threads, parent, default)
            == if parent.None? || parent.value == "" || Find(threads, parent.value).None? then Full
               else var t := Find(threads, parent.value).value; Narrower(OwnMode(t, default), Ceiling(threads, t.parent, default))
  {
    if parent.Some? && parent.value != "" && Find(threads, parent.value).Some? {
      var t := Find(threads, parent.value).value;
      UnderAllStep(threads, parent.value, default, Ceiling(threads, parent, default));
      var expected := Narrower(OwnMode(t, default), Ceiling(threads, t.parent, default));
      UnderAllStep(threads, parent.value, default, expected);
      hide Ceiling, UnderAll, Find;
      forall m
        ensures NoWider(m, Ceiling(threads, parent, default)) <==> UnderAll(threads, parent, default, m)
        ensures NoWider(m, Ceiling(threads, t.parent, default)) <==> UnderAll(threads, t.parent, default, m)
      {
        CeilingIsGreatestLowerBound(threads, parent, default, m);
        CeilingIsGreatestLowerBound(threads, t.parent, default, m);
      }
      assert NoWider(expected, Ceiling(threads, parent, default));
      assert NoWider(Ceiling(threads, parent, default), expected);
    }
  }
}
