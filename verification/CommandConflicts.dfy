/**
 * Conflicts between commands, reserved chords, and the cleaning of stored shortcuts (src/shared/commands.ts), and how they
 * agree with the dispatcher.
 */
module CommandConflicts {
  import opened Options
  import opened Bindings
  import opened Commands

  // ---------------------------------------------------------------------------------------------
  // Commands that share a key
  // ---------------------------------------------------------------------------------------------

  /** The commands of a key that can be active together with another one of it. */
  function Overlapping(ids: seq<CommandId>): seq<CommandId>
  {
    Filter(ids, (a: CommandId) => exists b :: b in ids && b != a && ScopesOverlap(a, b))
  }

  function Losers(ids: seq<CommandId>): seq<CommandId>
  {
    Filter(ids, (a: CommandId) => exists b :: b in ids && b != a && ScopesOverlap(a, b) && Beats(b, a))
  }

  /** The reduction of the source: from the left, whatever beats the best so far. */
  function Winner(ids: seq<CommandId>): CommandId
    requires ids != []
  {
    if |ids| == 1 then ids[0]
    else
      var best, next := Winner(ids[..|ids| - 1]), ids[|ids| - 1];
      if Beats(next, best) then next else best
  }

  datatype Conflict =
    | Shared(key: string, commands: seq<CommandId>, winner: CommandId, losers: seq<CommandId>)
    | Reserved(key: string, command: CommandId, entry: nat)

  function SharedOn(key: string, ids: seq<CommandId>): seq<Conflict>
  {
    var overlapping := Overlapping(ids);
    if |overlapping| > 1 then [Shared(key, overlapping, Winner(overlapping), Losers(overlapping))] else []
  }

  /** The winner is the one command that beats all the others. */
  lemma {:induction false} WinnerIsBest(ids: seq<CommandId>)
    requires ids != []
    ensures IsBest(ids, Winner(ids))
  {
    if |ids| > 1 {
      var front, next := ids[..|ids| - 1], ids[|ids| - 1];
      WinnerIsBest(front);
      var best := Winner(front);
      assert ids == front + [next];
      hide ScopeOf, Winner;
      forall id | id in ids
        ensures Beats(next, best) && Beats(best, id) ==> Beats(next, id)
        ensures next != best ==> (Beats(next, best) <==> !Beats(best, next))
      {
        BeatsIsStrictOrder(next, best, id);
      }
    }
  }

  lemma OverlappingIs(ids: seq<CommandId>)
    ensures forall a: CommandId :: a in Overlapping(ids) <==> a in ids && exists b :: b in ids && b != a && ScopesOverlap(a, b)
  {
    hide ScopesOverlap, Filter;
    FilterLaws(ids, (a: CommandId) => exists b :: b in ids && b != a && ScopesOverlap(a, b));
  }

  lemma LosersIs(ids: seq<CommandId>)
    ensures forall a: CommandId :: a in Losers(ids)
              <==> a in ids && exists b :: b in ids && b != a && ScopesOverlap(a, b) && Beats(b, a)
  {
    hide ScopesOverlap, Filter, Beats;
    FilterLaws(ids, (a: CommandId) => exists b :: b in ids && b != a && ScopesOverlap(a, b) && Beats(b, a));
  }

  /**
   * When the winner the settings name is enabled, it is what the dispatcher runs, unless an enabled command that overlaps
   * no other one on the key beats it.
   */
  lemma WinnerRunsIff(ids: seq<CommandId>, ctx: Context, registered: CommandId -> bool, run: Option<CommandId>)
    requires Dispatches(ids, ctx, registered, run)
    requires |Overlapping(ids)| > 1 && Enabled(Winner(Overlapping(ids)), ctx, registered)
    ensures run.Some?
    ensures var w := Winner(Overlapping(ids));
            run == Some(w) <==> !exists x :: x in ids && x !in Overlapping(ids) && Enabled(x, ctx, registered) && Beats(x, w)
  {
    var over := Overlapping(ids);
    var w := Winner(over);
    WinnerIsBest(over);
    OverlappingIs(ids);
    hide Overlapping, Winner, ScopeOf, Enabled, ScopesOverlap;
    assert w in ids;
    var best := run.value;
    if best != w {
      BeatsIsStrictOrder(best, w, best);
      assert best !in over;
    } else {
      forall x | x in ids && Enabled(x, ctx, registered) && x != w
        ensures !Beats(x, w)
      {
        BeatsIsStrictOrder(x, w, x);
      }
      BeatsIsStrictOrder(w, w, w);
    }
  }

  /** A command that overlaps no other one of its key is scoped, and so is every other command of the key. */
  lemma LonersAreScoped(ids: seq<CommandId>, x: CommandId, y: CommandId)
    requires x in ids && y in ids && x != y && x !in Overlapping(ids)
    ensures !ScopeOf(x).Global? && !ScopeOf(y).Global? && ScopeOf(x) != ScopeOf(y)
  {
    OverlappingIs(ids);
    hide Overlapping, ScopeOf;
  }

  /** So the dispatcher runs the named winner whenever a global command shares the key. */
  lemma WinnerRunsWithGlobal(ids: seq<CommandId>, ctx: Context, registered: CommandId -> bool, run: Option<CommandId>, g: CommandId)
    requires Dispatches(ids, ctx, registered, run) && g in ids && ScopeOf(g).Global?
    requires |Overlapping(ids)| > 1 && Enabled(Winner(Overlapping(ids)), ctx, registered)
    ensures run == Some(Winner(Overlapping(ids)))
  {
    WinnerRunsIff(ids, ctx, registered, run);
    WinnerIsBest(Overlapping(ids));
    OverlappingIs(ids);
    hide Overlapping, Winner, ScopeOf, Enabled, ScopesOverlap;
    forall x | x in ids && x !in Overlapping(ids)
      ensures false
    {
      var y := if x == g then Winner(Overlapping(ids)) else g;
      LonersAreScoped(ids, x, y);
    }
  }

  /** A reported loser runs only when no overlapping command that beats it is enabled. */
  lemma LoserRunsOnlyAlone(ids: seq<CommandId>, ctx: Context, registered: CommandId -> bool, run: Option<CommandId>)
    requires Dispatches(ids, ctx, registered, run) && run.Some? && run.value in Losers(Overlapping(ids))
    ensures forall x :: x in ids && Beats(x, run.value) ==> !Enabled(x, ctx, registered)
    ensures exists x :: x in ids && ScopesOverlap(run.value, x) && Beats(x, run.value)
  {
    LosersIs(Overlapping(ids));
    OverlappingIs(ids);
    hide Overlapping, Losers, ScopeOf, Enabled, ScopesOverlap;
    forall x | x in ids && Beats(x, run.value)
      ensures !Enabled(x, ctx, registered)
    {
      BeatsIsStrictOrder(x, run.value, x);
    }
    var x :| x in Overlapping(ids) && x != run.value && ScopesOverlap(run.value, x) && Beats(x, run.value);
    assert x in ids;
  }

  // ---------------------------------------------------------------------------------------------
  // Reserved chords
  // ---------------------------------------------------------------------------------------------

  /** What an entry matches: one chord, or every chord with Ctrl or Cmd on a zoom key. */
  datatype Match = Chord(binding: Parsed) | Zoom

  datatype Entry = Entry(match_: Match, hard: bool, except: set<CommandId>)

  function ModChord(shift: bool, alt: bool, key: string): Match { Chord(Parsed(true, false, false, alt, shift, key)) }

  /** The table of reserved chords. */
  function ReservedAt(i: nat): Entry
    requires i < 18
  {
    if i == 0 then Entry(ModChord(false, false, "Z"), true, {})
    else if i == 1 then Entry(ModChord(true, false, "Z"), true, {})
    else if i == 2 then Entry(ModChord(false, false, "X"), true, {})
    else if i == 3 then Entry(ModChord(false, false, "C"), true, {})
    else if i == 4 then Entry(ModChord(false, false, "V"), true, {})
    else if i == 5 then Entry(ModChord(false, false, "A"), true, {})
    else if i == 6 then Entry(ModChord(false, false, "W"), true, {})
    else if i == 7 then Entry(ModChord(false, false, "Q"), true, {})
    else if i == 8 then Entry(ModChord(false, false, "H"), true, {})
    else if i == 9 then Entry(ModChord(false, true, "H"), true, {})
    else if i == 10 then Entry(Zoom, true, {})
    else if i == 11 then Entry(ModChord(false, false, "R"), false, {})
    else if i == 12 then Entry(ModChord(true, false, "R"), false, {})
    else if i == 13 then Entry(ModChord(true, false, "I"), false, {})
    else if i == 14 then Entry(ModChord(false, false, "F"), false, {FIND_IN_THREAD})
    else if i == 15 then Entry(ModChord(false, false, "P"), false, {FILES_QUICK_OPEN})
    else if i == 16 then Entry(ModChord(true, false, "F"), false, {FILES_TEXT_SEARCH})
    else Entry(ModChord(false, false, "S"), false, {WORKFLOW_SAVE})
  }

  predicate IsZoomKey(key: string) { key == "=" || key == "Plus" || key == "-" || key == "0" }

  /** Whether a binding hits a reserved entry that does not except the command. */
  predicate Hits(u: Unicode, i: nat, text: string, mac: bool, id: CommandId)
    requires i < 18
  {
    var e := ReservedAt(i);
    && Parse(u, text).Some? && id !in e.except
    && var resolved := Resolve(Parse(u, text).value, mac);
       match e.match_
       case Chord(b) => ResolveBinding(u, Serialize(b), mac) == Some(Serialize(resolved))
       case Zoom => (resolved.ctrl || resolved.cmd) && IsZoomKey(resolved.key)
  }

  predicate HardReserved(u: Unicode, text: string, mac: bool, id: CommandId)
  {
    exists i: nat :: i < 18 && ReservedAt(i).hard && Hits(u, i, text, mac, id)
  }

  predicate IsHardKey(key: string)
  {
    || key == "Plus"
    || (|key| == 1 && (key[0] == '=' || key[0] == '-' || key[0] == '0' || key[0] == 'Z' || key[0] == 'X' || key[0] == 'C'
                       || key[0] == 'V' || key[0] == 'A' || key[0] == 'W' || key[0] == 'Q' || key[0] == 'H'))
  }

  /** Whether a binding is reserved depends only on the keys it presses. */
  lemma HitsByKeys(u: Unicode, i: nat, a: string, b: string, mac: bool, id: CommandId)
    requires i < 18 && Parse(u, a).Some? && Parse(u, b).Some?
    requires Resolve(Parse(u, a).value, mac) == Resolve(Parse(u, b).value, mac)
    ensures Hits(u, i, a, mac, id) <==> Hits(u, i, b, mac, id)
  {
    hide Parse, ResolveBinding, Serialize, Resolve, ReservedAt, IsZoomKey;
  }

  lemma HardByKeys(u: Unicode, a: string, b: string, mac: bool, id: CommandId)
    requires Parse(u, a).Some? && Parse(u, b).Some?
    requires Resolve(Parse(u, a).value, mac) == Resolve(Parse(u, b).value, mac)
    ensures HardReserved(u, a, mac, id) <==> HardReserved(u, b, mac, id)
  {
    hide Parse, Hits, Resolve, ReservedAt;
    forall i: nat | i < 18
      ensures Hits(u, i, a, mac, id) <==> Hits(u, i, b, mac, id)
    {
      HitsByKeys(u, i, a, b, mac, id);
    }
  }

  lemma HardEntry(i: nat)
    requires i < 18 && ReservedAt(i).hard
    ensures ReservedAt(i).match_.Chord? ==> IsHardKey(ReservedAt(i).match_.binding.key) && |ReservedAt(i).match_.binding.key| == 1
                                            && 'A' <= ReservedAt(i).match_.binding.key[0] <= 'Z'
  {
  }

  /** Only a chord on one of a few keys is hard reserved. */
  lemma HardNeedsHardKey(u: Unicode, text: string, mac: bool, id: CommandId)
    requires Lawful(u) && HardReserved(u, text, mac, id)
    ensures Parse(u, text).Some? && IsHardKey(Parse(u, text).value.key)
  {
    var i: nat :| i < 18 && ReservedAt(i).hard && Hits(u, i, text, mac, id);
    hide ReservedAt, IsHardKey, IsZoomKey, Lawful, Parse, Serialize;
    HardEntry(i);
    var e := ReservedAt(i);
    if e.match_.Chord? {
      SameChord(u, e.match_.binding, text, mac);
    }
    ZoomIsHard(Parse(u, text).value.key);
  }

  /** A chord on a letter is matched by its keys. */
  lemma SameChord(u: Unicode, b: Parsed, text: string, mac: bool)
    requires Lawful(u) && |b.key| == 1 && 'A' <= b.key[0] <= 'Z' && Parse(u, text).Some?
    requires ResolveBinding(u, Serialize(b), mac) == Some(Serialize(Resolve(Parse(u, text).value, mac)))
    ensures Parse(u, text).value.key == b.key
  {
    hide Lawful, Canonical, Parse, Serialize;
    AlnumIsCanonical(u, b.key[0]);
    assert b.key == [b.key[0]];
    ParseSerialize(u, b);
    SameTextIffSameKeys(u, Serialize(b), text, mac);
  }

  lemma ZoomIsHard(key: string)
    ensures IsZoomKey(key) ==> IsHardKey(key)
  {
  }

  // ---------------------------------------------------------------------------------------------
  // Defaults
  // ---------------------------------------------------------------------------------------------

  /** The keys the defaults use. */
  predicate IsDefaultKey(key: string)
  {
    || key == "Tab" || key == "Backspace" || key == "Enter" || key == "Delete"
    || (|key| == 1 && ('A' <= key[0] <= 'Z' || '1' <= key[0] <= '5' || key[0] == ','))
  }

  lemma DefaultKeys(id: CommandId, mac: bool)
    ensures DefaultKey(id, mac).Some? ==> IsDefaultKey(DefaultKey(id, mac).value.key)
  {
  }

  lemma DefaultsNotHard(id: CommandId, mac: bool)
    requires !Fixed(id)
    ensures DefaultKey(id, mac).Some? ==> !IsHardKey(DefaultKey(id, mac).value.key)
  {
  }

  lemma CommaIsCanonical(u: Unicode)
    requires Lawful(u)
    ensures Canonical(u, [','])
  {
    hide Lawful, Canonical;
    CharLaws(u, ',');
    CharIsCanonical(u, ',');
  }

  /** Every default is spelled as it is written, and none but those of fixed commands is hard reserved. */
  lemma DefaultsAreFine(u: Unicode, id: CommandId, mac: bool)
    requires Lawful(u) && DefaultKey(id, mac).Some?
    ensures DefaultOf(id, mac).Some? && Parse(u, DefaultOf(id, mac).value) == DefaultKey(id, mac)
    ensures !Fixed(id) ==> !HardReserved(u, DefaultOf(id, mac).value, mac, id)
  {
    var d := DefaultKey(id, mac).value;
    DefaultKeys(id, mac);
    if !Fixed(id) {
      DefaultsNotHard(id, mac);
    }
    hide DefaultKey, Lawful, Canonical, IsHardKey, Parse, Serialize, HardReserved;
    if |d.key| > 1 {
      NamedIsCanonical(u, d.key);
    } else {
      assert d.key == [d.key[0]];
      if d.key[0] == ',' {
        CommaIsCanonical(u);
      } else {
        AlnumIsCanonical(u, d.key[0]);
      }
    }
    ParseSerialize(u, d);
    if HardReserved(u, DefaultOf(id, mac).value, mac, id) {
      HardNeedsHardKey(u, DefaultOf(id, mac).value, mac, id);
    }
  }

  // ---------------------------------------------------------------------------------------------
  // normalizeShortcuts
  // ---------------------------------------------------------------------------------------------

  /** A stored value: null, a text, or anything else. */
  datatype Stored = Unbound | Text(text: string) | Junk

  function SameBinding(u: Unicode, a: Option<string>, b: Option<string>, mac: bool): bool
  {
    if a.None? || b.None? then a == b else ResolveBinding(u, a.value, mac) == ResolveBinding(u, b.value, mac)
  }

  /** What is kept of one entry: nothing, an unbinding (None), or a binding in its canonical spelling. */
  function Cleaned(u: Unicode, id: CommandId, value: Stored, mac: bool): Option<Option<string>>
  {
    if Fixed(id) then None
    else
      match value
      case Unbound => if DefaultOf(id, mac).Some? then Some(None) else None
      case Junk => None
      case Text(text) =>
        if Parse(u, text).None? || HardReserved(u, text, mac, id) || SameBinding(u, Some(text), DefaultOf(id, mac), mac) then None
        else Some(Some(Serialize(Parse(u, text).value)))
  }

  function Normalized(u: Unicode, raw: map<CommandId, Stored>, mac: bool): Overrides
  {
    map id | id in raw && Cleaned(u, id, raw[id], mac).Some? :: Cleaned(u, id, raw[id], mac).value
  }

  /** The loop over the stored entries, in whatever order the object lists them. */
  method NormalizeShortcuts(u: Unicode, raw: map<CommandId, Stored>, keys: seq<CommandId>, mac: bool) returns (result: Overrides)
    requires forall id :: id in keys <==> id in raw
    ensures result == Normalized(u, raw, mac)
  {
    hide Cleaned;
    result := map[];
    for i := 0 to |keys|
      invariant forall id :: id in result <==> id in keys[..i] && Cleaned(u, id, raw[id], mac).Some?
      invariant forall id :: id in result ==> result[id] == Cleaned(u, id, raw[id], mac).value
    {
      var id := keys[i];
      assert keys[..i + 1] == keys[..i] + [id];
      var cleaned := Cleaned(u, id, raw[id], mac);
      if cleaned.None? {
        continue;
      }
      result := result[id := cleaned.value];
    }
    assert keys[..|keys|] == keys;
  }

  function StoredAs(value: Option<string>): Stored { if value.None? then Unbound else Text(value.value) }

  function AsStored(overrides: Overrides): map<CommandId, Stored> { map id | id in overrides :: StoredAs(overrides[id]) }

  /** A kept entry is kept again as it is. */
  lemma CleanedAgain(u: Unicode, id: CommandId, value: Stored, mac: bool)
    requires Lawful(u) && Cleaned(u, id, value, mac).Some?
    ensures Cleaned(u, id, StoredAs(Cleaned(u, id, value, mac).value), mac) == Cleaned(u, id, value, mac)
  {
    hide Lawful, Canonical, Parse, Serialize, HardReserved, Resolve, DefaultKey;
    if value.Text? {
      var text := value.text;
      ParsedIsCanonical(u, text);
      var spelled := Serialize(Parse(u, text).value);
      HardByKeys(u, text, spelled, mac, id);
      SameTextIffSameKeys(u, text, spelled, mac);
    }
  }

  /** Cleaning twice is cleaning once. */
  lemma NormalizingTwice(u: Unicode, raw: map<CommandId, Stored>, mac: bool)
    requires Lawful(u)
    ensures var once := Normalized(u, raw, mac); Normalized(u, AsStored(once), mac) == once
  {
    hide Lawful, Cleaned;
    var once := Normalized(u, raw, mac);
    forall id | id in once
      ensures Cleaned(u, id, AsStored(once)[id], mac) == Some(once[id])
    {
      CleanedAgain(u, id, raw[id], mac);
    }
  }

  /** No command is left on a hard-reserved chord. */
  lemma NothingHardReserved(u: Unicode, raw: map<CommandId, Stored>, mac: bool, id: CommandId)
    requires Lawful(u)
    ensures var key := KeyOf(u, id, Normalized(u, raw, mac), mac); key.Some? ==> !HardReserved(u, key.value, mac, id)
  {
    var overrides := Normalized(u, raw, mac);
    var key := KeyOf(u, id, overrides, mac);
    if key.Some? {
      var text := BindingFor(id, overrides, mac).value;
      hide Lawful, Parse, Serialize, Resolve, HardReserved, DefaultKey;
      if id in overrides {
        CleanedNotHard(u, id, raw[id], mac);
      } else {
        DefaultsAreFine(u, id, mac);
      }
      ResolvedReadsBack(u, text, mac);
      ResolvedKeys(u, text, mac);
      HardByKeys(u, text, key.value, mac, id);
    }
  }

  lemma ResolvedKeys(u: Unicode, text: string, mac: bool)
    requires Lawful(u) && Parse(u, text).Some?
    ensures var r := ResolveBinding(u, text, mac).value;
            Parse(u, r).Some? && Resolve(Parse(u, r).value, mac) == Resolve(Parse(u, text).value, mac)
  {
    ResolvedReadsBack(u, text, mac);
    hide Lawful, Parse, Serialize;
  }

  lemma CleanedNotHard(u: Unicode, id: CommandId, value: Stored, mac: bool)
    requires Lawful(u) && Cleaned(u, id, value, mac).Some? && Cleaned(u, id, value, mac).value.Some?
    ensures !HardReserved(u, Cleaned(u, id, value, mac).value.value, mac, id)
  {
    hide Lawful, Canonical, Parse, Serialize, HardReserved, Resolve, DefaultKey;
    ParsedIsCanonical(u, value.text);
    HardByKeys(u, value.text, Serialize(Parse(u, value.text).value), mac, id);
  }

  /** Cleaning moves no command: an entry that names a key or unbinds keeps its effect, and every other entry has none. */
  lemma NormalizingKeepsKeys(u: Unicode, overrides: Overrides, mac: bool, id: CommandId)
    requires Lawful(u)
    requires id in overrides && overrides[id].Some? ==>
               Parse(u, overrides[id].value).Some? && !HardReserved(u, overrides[id].value, mac, id)
    ensures KeyOf(u, id, Normalized(u, AsStored(overrides), mac), mac) == KeyOf(u, id, overrides, mac)
  {
    hide Lawful, Canonical, Parse, Serialize, HardReserved, Resolve, DefaultKey;
    if id in overrides && overrides[id].Some? {
      var text := overrides[id].value;
      ParsedIsCanonical(u, text);
      SameTextIffSameKeys(u, text, Serialize(Parse(u, text).value), mac);
    }
  }

  // ---------------------------------------------------------------------------------------------
  // Where the named winner does not run
  // ---------------------------------------------------------------------------------------------

  const B_KEY := Parsed(false, false, false, false, false, "B")

  /** Two commands of the workflow editor moved to B, the default of Open Browser. */
  function MovedToB(): Overrides
  {
    map[WORKFLOW_DUPLICATE := Some(Serialize(B_KEY)), WORKFLOW_DELETE := Some(Serialize(B_KEY))]
  }

  lemma OthersElsewhere(id: CommandId, mac: bool)
    requires DefaultKey(id, mac).Some? && Resolve(DefaultKey(id, mac).value, mac) == B_KEY
    ensures id == SURFACE_BROWSER
  {
  }

  lemma MovedOnB(u: Unicode, mac: bool, id: CommandId)
    requires Lawful(u) && (id == WORKFLOW_DUPLICATE || id == WORKFLOW_DELETE)
    ensures KeyOf(u, id, MovedToB(), mac) == Some(Serialize(B_KEY))
  {
    hide Lawful, ResolveBinding, Serialize, DefaultKey;
    BParses(u);
  }

  lemma BrowserOnB(u: Unicode, mac: bool)
    requires Lawful(u)
    ensures KeyOf(u, SURFACE_BROWSER, MovedToB(), mac) == Some(Serialize(B_KEY))
  {
    BrowserDefault(mac);
    hide Lawful, ResolveBinding, Serialize, DefaultKey;
    BParses(u);
  }

  lemma BrowserDefault(mac: bool)
    ensures DefaultKey(SURFACE_BROWSER, mac) == Some(B_KEY)
  {
  }

  lemma OtherNotOnB(u: Unicode, mac: bool, id: CommandId)
    requires Lawful(u) && id != SURFACE_BROWSER && id != WORKFLOW_DUPLICATE && id != WORKFLOW_DELETE
    ensures KeyOf(u, id, MovedToB(), mac) != Some(Serialize(B_KEY))
  {
    hide DefaultKey, Lawful, Parse, Serialize, HardReserved;
    if DefaultKey(id, mac).Some? {
      DefaultsAreFine(u, id, mac);
      BParses(u);
      SameTextIffSameKeys(u, DefaultOf(id, mac).value, Serialize(B_KEY), mac);
      if Resolve(DefaultKey(id, mac).value, mac) == B_KEY {
        OthersElsewhere(id, mac);
      }
    }
  }

  lemma OnB(u: Unicode, mac: bool, id: CommandId)
    requires Lawful(u)
    ensures KeyOf(u, id, MovedToB(), mac) == Some(Serialize(B_KEY))
            <==> id == SURFACE_BROWSER || id == WORKFLOW_DUPLICATE || id == WORKFLOW_DELETE
  {
    hide KeyOf, Lawful, Serialize;
    if id == SURFACE_BROWSER {
      BrowserOnB(u, mac);
    } else if id == WORKFLOW_DUPLICATE || id == WORKFLOW_DELETE {
      MovedOnB(u, mac, id);
    } else {
      OtherNotOnB(u, mac, id);
    }
  }

  lemma BParses(u: Unicode)
    requires Lawful(u)
    ensures Parse(u, Serialize(B_KEY)) == Some(B_KEY) && forall mac :: ResolveBinding(u, Serialize(B_KEY), mac) == Some(Serialize(B_KEY))
  {
    hide Lawful, Canonical, Parse, Serialize;
    AlnumIsCanonical(u, 'B');
    ParseSerialize(u, B_KEY);
  }

  /** The empty main area, with nothing over it. */
  function EmptyMainArea(mac: bool): Context
  {
    Context(mac, false, false, NoOverlay, false, false, true, true, false, true, false)
  }

  /** The settings name Duplicate as the winner of B, and B opens the browser although Duplicate is enabled. */
  lemma NamedWinnerDoesNotRun(u: Unicode, mac: bool, run: Option<CommandId>)
    requires Lawful(u)
    requires Dispatches(OnKey(u, MovedToB(), mac, Serialize(B_KEY)), EmptyMainArea(mac), (id: CommandId) => true, run)
    ensures var over := Overlapping(OnKey(u, MovedToB(), mac, Serialize(B_KEY)));
            && |over| > 1 && Winner(over) == WORKFLOW_DUPLICATE
            && Enabled(WORKFLOW_DUPLICATE, EmptyMainArea(mac), (id: CommandId) => true)
    ensures run == Some(SURFACE_BROWSER)
  {
    var ids := OnKey(u, MovedToB(), mac, Serialize(B_KEY));
    hide OnKey, KeyOf, Lawful, Serialize, Overlapping, Winner, Enabled, Beats, ScopesOverlap;
    OnKeyIs(u, MovedToB(), mac, Serialize(B_KEY));
    forall id: CommandId
      ensures id in ids <==> id == SURFACE_BROWSER || id == WORKFLOW_DUPLICATE || id == WORKFLOW_DELETE
    {
      OnB(u, mac, id);
    }
    ThreeOnB(mac);
    OverlappingIs(ids);
    var over := Overlapping(ids);
    assert WORKFLOW_DUPLICATE in over && WORKFLOW_DELETE in over;
    TwoIn(over, WORKFLOW_DUPLICATE, WORKFLOW_DELETE);
    WinnerIsBest(over);
    assert SURFACE_BROWSER !in over;
    assert run.Some?;
  }

  lemma ThreeOnB(mac: bool)
    ensures ScopesOverlap(WORKFLOW_DUPLICATE, WORKFLOW_DELETE) && ScopesOverlap(WORKFLOW_DELETE, WORKFLOW_DUPLICATE)
    ensures !ScopesOverlap(SURFACE_BROWSER, WORKFLOW_DUPLICATE) && !ScopesOverlap(SURFACE_BROWSER, WORKFLOW_DELETE)
    ensures !Beats(WORKFLOW_DELETE, WORKFLOW_DUPLICATE)
    ensures !Beats(WORKFLOW_DUPLICATE, SURFACE_BROWSER) && !Beats(WORKFLOW_DELETE, SURFACE_BROWSER)
    ensures Enabled(SURFACE_BROWSER, EmptyMainArea(mac), (id: CommandId) => true)
    ensures Enabled(WORKFLOW_DUPLICATE, EmptyMainArea(mac), (id: CommandId) => true)
  {
  }

  lemma TwoIn(ids: seq<CommandId>, a: CommandId, b: CommandId)
    requires a in ids && b in ids && a != b
    ensures |ids| > 1
  {
  }

  // ---------------------------------------------------------------------------------------------
  // findConflicts
  // ---------------------------------------------------------------------------------------------

  function ReservedFor(u: Unicode, key: string, mac: bool, id: CommandId, n: nat): seq<Conflict>
    requires n <= 18
  {
    if n == 0 then []
    else ReservedFor(u, key, mac, id, n - 1) + if Hits(u, n - 1, key, mac, id) then [Reserved(key, id, n - 1)] else []
  }

  function ReservedOn(u: Unicode, key: string, mac: bool, ids: seq<CommandId>): seq<Conflict>
  {
    if ids == [] then []
    else ReservedOn(u, key, mac, ids[..|ids| - 1]) + ReservedFor(u, key, mac, ids[|ids| - 1], 18)
  }

  /** What is reported for one key. */
  function ConflictsOn(u: Unicode, key: string, overrides: Overrides, mac: bool): seq<Conflict>
  {
    var ids := OnKey(u, overrides, mac, key);
    SharedOn(key, ids) + ReservedOn(u, key, mac, ids)
  }

  function AllConflicts(u: Unicode, keys: seq<string>, overrides: Overrides, mac: bool): seq<Conflict>
  {
    if keys == [] then []
    else AllConflicts(u, keys[..|keys| - 1], overrides, mac) + ConflictsOn(u, keys[|keys| - 1], overrides, mac)
  }

  /** The keys in use, in the order the table first uses them. */
  function KeysInUse(u: Unicode, overrides: Overrides, mac: bool, n: nat): seq<string>
    requires n <= 42
  {
    if n == 0 then []
    else
      var before := KeysInUse(u, overrides, mac, n - 1);
      var key := KeyOf(u, n - 1, overrides, mac);
      if key.None? || key.value in before then before else before + [key.value]
  }

  /** Everything `findConflicts` reports. */
  function Reported(u: Unicode, overrides: Overrides, mac: bool): seq<Conflict>
  {
    AllConflicts(u, KeysInUse(u, overrides, mac, 42), overrides, mac)
  }

  method FindConflicts(u: Unicode, overrides: Overrides, mac: bool) returns (conflicts: seq<Conflict>)
    ensures conflicts == Reported(u, overrides, mac)
  {
    var byBinding := ResolveBindings(u, overrides, mac);
    var keys: seq<string> := [];
    hide KeyOf, OnKey, ConflictsOn, SharedOn, ReservedOn;
    for i := 0 to 42
      invariant keys == KeysInUse(u, overrides, mac, i)
    {
      var key := KeyOf(u, i, overrides, mac);
      if key.Some? && key.value !in keys {
        keys := keys + [key.value];
      }
    }
    conflicts := [];
    for i := 0 to |keys|
      invariant conflicts == AllConflicts(u, keys[..i], overrides, mac)
    {
      var key := keys[i];
      var ids := if key in byBinding then byBinding[key] else [];
      ConflictsOnIs(u, key, overrides, mac);
      assert keys[..i + 1][..i] == keys[..i];
      conflicts := conflicts + (SharedOn(key, ids) + ReservedOn(u, key, mac, ids));
    }
    assert keys[..|keys|] == keys;
  }

  lemma ConflictsOnIs(u: Unicode, key: string, overrides: Overrides, mac: bool)
    ensures var ids := OnKey(u, overrides, mac, key);
            ConflictsOn(u, key, overrides, mac) == SharedOn(key, ids) + ReservedOn(u, key, mac, ids)
  {
  }

  lemma {:induction false} KeysInUseAre(u: Unicode, overrides: Overrides, mac: bool, n: nat)
    requires n <= 42
    ensures forall key :: key in KeysInUse(u, overrides, mac, n)
              <==> exists id: CommandId :: id < n && KeyOf(u, id, overrides, mac) == Some(key)
  {
    hide KeyOf;
    if n > 0 {
      KeysInUseAre(u, overrides, mac, n - 1);
    }
  }

  lemma {:induction false} ReservedForAre(u: Unicode, key: string, mac: bool, id: CommandId, n: nat)
    requires n <= 18
    ensures forall c :: c in ReservedFor(u, key, mac, id, n)
              <==> c.Reserved? && c.key == key && c.command == id && c.entry < n && Hits(u, c.entry, key, mac, id)
  {
    hide Hits;
    if n > 0 {
      ReservedForAre(u, key, mac, id, n - 1);
    }
  }

  lemma {:induction false} ReservedOnAre(u: Unicode, key: string, mac: bool, ids: seq<CommandId>)
    ensures forall c :: c in ReservedOn(u, key, mac, ids)
              <==> c.Reserved? && c.key == key && c.command in ids && c.entry < 18 && Hits(u, c.entry, key, mac, c.command)
  {
    hide Hits;
    if ids != [] {
      var front, last := ids[..|ids| - 1], ids[|ids| - 1];
      assert ids == front + [last];
      ReservedOnAre(u, key, mac, front);
      ReservedForAre(u, key, mac, last, 18);
    }
  }

  lemma {:induction false} AllConflictsAre(u: Unicode, keys: seq<string>, overrides: Overrides, mac: bool)
    ensures forall c :: c in AllConflicts(u, keys, overrides, mac)
              <==> exists key :: key in keys && c in ConflictsOn(u, key, overrides, mac)
  {
    hide ConflictsOn;
    if keys != [] {
      var front, last := keys[..|keys| - 1], keys[|keys| - 1];
      assert keys == front + [last];
      AllConflictsAre(u, front, overrides, mac);
    }
  }

  /** Reports are the conflicts of each key, whether or not it is in use: an unused one has none. */
  lemma ReportedOn(u: Unicode, overrides: Overrides, mac: bool, c: Conflict)
    ensures c in Reported(u, overrides, mac) <==> exists key :: c in ConflictsOn(u, key, overrides, mac)
  {
    var keys := KeysInUse(u, overrides, mac, 42);
    KeysInUseAre(u, overrides, mac, 42);
    AllConflictsAre(u, keys, overrides, mac);
    hide KeyOf, ConflictsOn, KeysInUse, AllConflicts;
    forall key | c in ConflictsOn(u, key, overrides, mac)
      ensures key in keys
    {
      ConflictNeedsUse(u, key, overrides, mac, c);
    }
  }

  lemma ConflictNeedsUse(u: Unicode, key: string, overrides: Overrides, mac: bool, c: Conflict)
    requires c in ConflictsOn(u, key, overrides, mac)
    ensures exists id: CommandId :: KeyOf(u, id, overrides, mac) == Some(key)
  {
    var ids := OnKey(u, overrides, mac, key);
    OnKeyIs(u, overrides, mac, key);
    hide OnKey, KeyOf, Hits, SharedOn, ReservedOn;
    if ids != [] {
      assert ids[0] in ids;
    } else {
      NoneWithoutCommands(u, key, mac);
    }
  }

  lemma NoneWithoutCommands(u: Unicode, key: string, mac: bool)
    ensures SharedOn(key, []) == [] && ReservedOn(u, key, mac, []) == []
  {
  }

  /** The chords reported as reserved are exactly the ones in use that hit an entry. */
  lemma ReservedReports(u: Unicode, overrides: Overrides, mac: bool, key: string, id: CommandId, entry: nat)
    ensures Reserved(key, id, entry) in Reported(u, overrides, mac)
            <==> entry < 18 && KeyOf(u, id, overrides, mac) == Some(key) && Hits(u, entry, key, mac, id)
  {
    hide KeyOf, Hits, OnKey, SharedOn, ReservedOn, Reported;
    var c := Reserved(key, id, entry);
    ReportedOn(u, overrides, mac, c);
    forall k
      ensures c in ConflictsOn(u, k, overrides, mac)
              <==> k == key && entry < 18 && KeyOf(u, id, overrides, mac) == Some(key) && Hits(u, entry, key, mac, id)
    {
      OnKeyIs(u, overrides, mac, k);
      ReservedOnAre(u, k, mac, OnKey(u, overrides, mac, k));
      SharedOnIs(k, OnKey(u, overrides, mac, k));
    }
    hide ConflictsOn;
    assert c in ConflictsOn(u, key, overrides, mac) <==> entry < 18 && KeyOf(u, id, overrides, mac) == Some(key) && Hits(u, entry, key, mac, id);
  }

  lemma SharedOnIs(key: string, ids: seq<CommandId>)
    ensures forall c :: c in SharedOn(key, ids)
              <==> |Overlapping(ids)| > 1 && c == Shared(key, Overlapping(ids), Winner(Overlapping(ids)), Losers(Overlapping(ids)))
  {
    hide Overlapping, Winner, Losers;
  }

  /** What is reported as shared is, for each key, the overlapping commands on it with their winner and losers. */
  lemma SharedReports(u: Unicode, overrides: Overrides, mac: bool, c: Conflict)
    requires c.Shared?
    ensures c in Reported(u, overrides, mac) <==> c in SharedOn(c.key, OnKey(u, overrides, mac, c.key))
  {
    hide KeyOf, Hits, OnKey, SharedOn, ReservedOn, Reported;
    ReportedOn(u, overrides, mac, c);
    forall k
      ensures c in ConflictsOn(u, k, overrides, mac) <==> k == c.key && c in SharedOn(k, OnKey(u, overrides, mac, k))
    {
      ReservedOnAre(u, k, mac, OnKey(u, overrides, mac, k));
      SharedOnIs(k, OnKey(u, overrides, mac, k));
    }
  }

  /** A conflict is reported for a key exactly when two commands with overlapping scopes are bound to it. */
  lemma SharedIffTwoOverlap(u: Unicode, overrides: Overrides, mac: bool, key: string)
    ensures (exists c :: c in Reported(u, overrides, mac) && c.Shared? && c.key == key)
            <==> exists a: CommandId, b: CommandId ::
                   a != b && KeyOf(u, a, overrides, mac) == Some(key) == KeyOf(u, b, overrides, mac) && ScopesOverlap(a, b)
  {
    var ids := OnKey(u, overrides, mac, key);
    var over := Overlapping(ids);
    hide KeyOf, OnKey, SharedOn, Reported, Overlapping, Winner, Losers, ScopeOf;
    OnKeyIs(u, overrides, mac, key);
    OverlappingIs(ids);
    SharedOnIs(key, ids);
    if a: CommandId, b: CommandId :|
      a != b && KeyOf(u, a, overrides, mac) == Some(key) == KeyOf(u, b, overrides, mac) && ScopesOverlap(a, b) {
      assert a in ids && b in ids && ScopesOverlap(b, a);
      assert a in over && b in over;
      TwoIn(over, a, b);
      var c := Shared(key, over, Winner(over), Losers(over));
      SharedReports(u, overrides, mac, c);
      assert c in Reported(u, overrides, mac);
    }
    if c :| c in Reported(u, overrides, mac) && c.Shared? && c.key == key {
      SharedReports(u, overrides, mac, c);
      assert over[0] in over;
    }
  }

  /**
   * A press of a reported key runs the reported winner, when that is enabled, unless an enabled command on the key that is
   * not among the reported ones beats it; and it runs a reported loser only when no command on the key that beats it is
   * enabled, although an overlapping one exists.
   */
  lemma ReportAgreesWithDispatch(
    u: Unicode, overrides: Overrides, ctx: Context, registered: CommandId -> bool, input: KeyInput, run: Option<CommandId>, c: Conflict)
    requires c.Shared? && c in Reported(u, overrides, ctx.mac) && PressedText(u, input, ctx.mac) == Some(c.key)
    requires Dispatches(OnKey(u, overrides, ctx.mac, c.key), ctx, registered, run)
    ensures Enabled(c.winner, ctx, registered) ==>
              (run == Some(c.winner)
               <==> !exists x: CommandId :: KeyOf(u, x, overrides, ctx.mac) == Some(c.key) && x !in c.commands
                                            && Enabled(x, ctx, registered) && Beats(x, c.winner))
    ensures run.Some? && run.value in c.losers ==>
              && (forall x: CommandId :: KeyOf(u, x, overrides, ctx.mac) == Some(c.key) && Beats(x, run.value) ==> !Enabled(x, ctx, registered))
              && (exists x: CommandId :: KeyOf(u, x, overrides, ctx.mac) == Some(c.key) && ScopesOverlap(run.value, x) && Beats(x, run.value))
  {
    var ids := OnKey(u, overrides, ctx.mac, c.key);
    hide KeyOf, OnKey, SharedOn, Reported, Overlapping, Winner, Losers, ScopesOverlap, Enabled, Beats, Dispatches, PressedText;
    OnKeyIs(u, overrides, ctx.mac, c.key);
    SharedReports(u, overrides, ctx.mac, c);
    SharedOnIs(c.key, ids);
    if Enabled(c.winner, ctx, registered) {
      WinnerRunsIff(ids, ctx, registered, run);
    }
    if run.Some? && run.value in c.losers {
      LoserRunsOnlyAlone(ids, ctx, registered, run);
    }
  }

  /** With a global command on the key the reported winner always runs when it is enabled. */
  lemma ReportedWinnerRunsWithGlobal(
    u: Unicode, overrides: Overrides, ctx: Context, registered: CommandId -> bool, run: Option<CommandId>, c: Conflict, g: CommandId)
    requires c.Shared? && c in Reported(u, overrides, ctx.mac) && Enabled(c.winner, ctx, registered)
    requires Dispatches(OnKey(u, overrides, ctx.mac, c.key), ctx, registered, run)
    requires KeyOf(u, g, overrides, ctx.mac) == Some(c.key) && ScopeOf(g).Global?
    ensures run == Some(c.winner)
  {
    var ids := OnKey(u, overrides, ctx.mac, c.key);
    hide KeyOf, OnKey, SharedOn, Reported, Overlapping, Winner, Losers, Enabled, Beats, Dispatches;
    OnKeyIs(u, overrides, ctx.mac, c.key);
    SharedReports(u, overrides, ctx.mac, c);
    SharedOnIs(c.key, ids);
    WinnerRunsWithGlobal(ids, ctx, registered, run, g);
  }

  /** After cleaning, no hard-reserved chord is reported. */
  lemma NoHardConflict(u: Unicode, raw: map<CommandId, Stored>, mac: bool, c: Conflict)
    requires Lawful(u) && c in Reported(u, Normalized(u, raw, mac), mac)
    ensures c.Reserved? ==> c.entry < 18 && !ReservedAt(c.entry).hard
  {
    if c.Reserved? {
      var o := Normalized(u, raw, mac);
      hide Lawful, Normalized, KeyOf, Hits, Reported, ReservedAt;
      ReservedReports(u, o, mac, c.key, c.command, c.entry);
      NothingHardReserved(u, raw, mac, c.command);
    }
  }
}
