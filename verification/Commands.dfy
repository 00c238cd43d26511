/**
 * The command table, and the commands that share a key: which one a key press runs, and which ones the settings report
 * (src/shared/commands.ts).
 */
module Commands {
  import opened Options
  import opened Bindings
  import Sequences

  /** A command, by its place in the table. */
  type CommandId = i: int | 0 <= i < 42

  const PALETTE_OPEN: CommandId := 0
  const THREAD_NEW: CommandId := 1
  const THREAD_NEW_PRIVATE: CommandId := 2
  const THREAD_NEXT: CommandId := 3
  const THREAD_PREVIOUS: CommandId := 4
  const THREADS_SEARCH: CommandId := 5
  const THREAD_RENAME: CommandId := 6
  const THREAD_PIN: CommandId := 7
  const THREAD_ARCHIVE: CommandId := 8
  const FIND_IN_THREAD: CommandId := 10
  const RUN_STOP: CommandId := 11
  const APPROVAL_ALLOW: CommandId := 12
  const APPROVAL_DENY: CommandId := 13
  const SIDE_CARD_TOGGLE: CommandId := 14
  const SIDEBAR_TOGGLE: CommandId := 15
  const MAIN_AREA_TOGGLE: CommandId := 16
  const TERMINAL_OPEN: CommandId := 17
  const SETTINGS_OPEN: CommandId := 18
  const COMPOSER_FOCUS: CommandId := 21
  const FILES_QUICK_OPEN: CommandId := 22
  const FILES_TEXT_SEARCH: CommandId := 23
  const SURFACE_BROWSER: CommandId := 24
  const SURFACE_TERMINAL: CommandId := 25
  const SURFACE_FILES: CommandId := 26
  const SURFACE_GIT: CommandId := 27
  const SURFACE_REVIEW: CommandId := 28
  const SURFACE_PULL_REQUEST: CommandId := 29
  const MODEL_PICK_1: CommandId := 30
  const MODEL_PICK_2: CommandId := 31
  const MODEL_PICK_3: CommandId := 32
  const MODEL_PICK_4: CommandId := 33
  const MODEL_PICK_5: CommandId := 34
  const WORKFLOW_SAVE: CommandId := 35
  const WORKFLOW_DUPLICATE: CommandId := 36
  const WORKFLOW_DELETE: CommandId := 37
  const WORKFLOW_UNDO: CommandId := 38
  const WORKFLOW_REDO: CommandId := 39
  const EDITOR_SAVE: CommandId := 40
  const GIT_COMMIT: CommandId := 41

  /** The commands in table order. */
  function CommandTable(): (ids: seq<CommandId>)
    ensures |ids| == 42 && forall i :: 0 <= i < 42 ==> ids[i] == i
  {
    seq(42, i requires 0 <= i < 42 => i)
  }

  datatype Scope = Global | SurfacePicker | ModelPicker | WorkflowEditor

  function ScopeOf(id: CommandId): Scope
  {
    if SURFACE_BROWSER <= id <= SURFACE_PULL_REQUEST then SurfacePicker
    else if MODEL_PICK_1 <= id <= MODEL_PICK_5 then ModelPicker
    else if WORKFLOW_SAVE <= id <= WORKFLOW_REDO then WorkflowEditor
    else Global
  }

  /** Declared for display only: its owner handles the key. */
  predicate Fixed(id: CommandId) { WORKFLOW_UNDO <= id }

  predicate AllowedInText(id: CommandId)
  {
    !ScopeOf(id).SurfacePicker? && id != WORKFLOW_DUPLICATE && id != WORKFLOW_DELETE && !Fixed(id)
  }

  predicate AllowedInTerminal(id: CommandId) { id == RUN_STOP || id == COMPOSER_FOCUS }

  function Bare(key: string): Option<Parsed> { Some(Parsed(false, false, false, false, false, key)) }

  function ModKey(key: string): Option<Parsed> { Some(Parsed(true, false, false, false, false, key)) }

  function ModShift(key: string): Option<Parsed> { Some(Parsed(true, false, false, false, true, key)) }

  /** The default binding of a command, if it ships with one. */
  function DefaultKey(id: CommandId, mac: bool): Option<Parsed>
  {
    if id == PALETTE_OPEN then ModKey("K")
    else if id == THREAD_NEW then ModKey("N")
    else if id == THREAD_NEW_PRIVATE then ModShift("N")
    else if id == THREAD_NEXT then Some(Parsed(false, true, false, false, false, "Tab"))
    else if id == THREAD_PREVIOUS then Some(Parsed(false, true, false, false, true, "Tab"))
    else if id == THREADS_SEARCH then ModShift("O")
    else if id == FIND_IN_THREAD then ModKey("F")
    else if id == RUN_STOP then ModShift("Backspace")
    else if id == APPROVAL_ALLOW then ModKey("Enter")
    else if id == SIDE_CARD_TOGGLE then ModShift("D")
    else if id == SIDEBAR_TOGGLE then ModKey("B")
    else if id == MAIN_AREA_TOGGLE then ModShift("B")
    else if id == TERMINAL_OPEN then ModKey("J")
    else if id == SETTINGS_OPEN then ModKey(",")
    else if id == COMPOSER_FOCUS then ModShift("M")
    else if id == FILES_QUICK_OPEN then ModKey("P")
    else if id == FILES_TEXT_SEARCH then ModShift("F")
    else if id == SURFACE_BROWSER then Bare("B")
    else if id == SURFACE_TERMINAL then Bare("T")
    else if id == SURFACE_FILES then Bare("F")
    else if id == SURFACE_GIT then Bare("D")
    else if id == SURFACE_REVIEW then Bare("R")
    else if id == SURFACE_PULL_REQUEST then Bare("P")
    else if id == MODEL_PICK_1 then ModKey("1")
    else if id == MODEL_PICK_2 then ModKey("2")
    else if id == MODEL_PICK_3 then ModKey("3")
    else if id == MODEL_PICK_4 then ModKey("4")
    else if id == MODEL_PICK_5 then ModKey("5")
    else if id == WORKFLOW_SAVE then ModKey("S")
    else if id == WORKFLOW_DUPLICATE then ModKey("D")
    else if id == WORKFLOW_DELETE then Bare("Delete")
    else if id == WORKFLOW_UNDO then ModKey("Z")
    else if id == WORKFLOW_REDO then Some(if mac then Parsed(false, false, true, false, true, "Z") else Parsed(false, true, false, false, false, "Y"))
    else if id == EDITOR_SAVE then ModKey("S")
    else if id == GIT_COMMIT then ModKey("Enter")
    else None
  }

  function DefaultOf(id: CommandId, mac: bool): Option<string>
  {
    if DefaultKey(id, mac).Some? then Some(Serialize(DefaultKey(id, mac).value)) else None
  }

  /** The user's bindings: a text, or None for a command the user unbound. */
  type Overrides = map<CommandId, Option<string>>

  function BindingFor(id: CommandId, overrides: Overrides, mac: bool): Option<string>
  {
    if id in overrides then overrides[id] else DefaultOf(id, mac)
  }

  /** The key of a command on a platform. Fixed commands are not dispatched. */
  function KeyOf(u: Unicode, id: CommandId, overrides: Overrides, mac: bool): Option<string>
  {
    if Fixed(id) || BindingFor(id, overrides, mac).None? then None
    else ResolveBinding(u, BindingFor(id, overrides, mac).value, mac)
  }

  // ---------------------------------------------------------------------------------------------
  // Lists of commands in table order
  // ---------------------------------------------------------------------------------------------

  function Filter(ids: seq<CommandId>, keep: CommandId -> bool): seq<CommandId>
  {
    if ids == [] then []
    else Filter(ids[..|ids| - 1], keep) + if keep(ids[|ids| - 1]) then [ids[|ids| - 1]] else []
  }

  lemma {:induction false} FilterLaws(ids: seq<CommandId>, keep: CommandId -> bool)
    ensures forall id: CommandId :: id in Filter(ids, keep) <==> id in ids && keep(id)
    ensures Sequences.Ascending(ids) ==> Sequences.Ascending(Filter(ids, keep))
  {
    if ids != [] {
      var front, last := ids[..|ids| - 1], ids[|ids| - 1];
      FilterLaws(front, keep);
      assert ids == front + [last];
      if Sequences.Ascending(ids) {
        assert Sequences.Ascending(front);
        AllBefore(front, last);
        var kept := Filter(front, keep);
        forall i, j | 0 <= i < j < |kept + [last]|
          ensures (kept + [last])[i] < (kept + [last])[j]
        {
          if j == |kept| {
            assert kept[i] in front;
          }
        }
      }
    }
  }

  lemma AllBefore(front: seq<CommandId>, last: CommandId)
    requires Sequences.Ascending(front + [last])
    ensures Sequences.Ascending(front) && forall id: CommandId :: id in front ==> id < last
  {
    var ids := front + [last];
    forall i | 0 <= i < |front|
      ensures front[i] < last
    {
      assert ids[i] < ids[|front|];
    }
    assert forall i :: 0 <= i < |front| ==> front[i] == ids[i];
  }

  function OnKey(u: Unicode, overrides: Overrides, mac: bool, key: string): seq<CommandId>
  {
    Filter(CommandTable(), (id: CommandId) => KeyOf(u, id, overrides, mac) == Some(key))
  }

  /** The commands on a key, in table order. */
  lemma OnKeyIs(u: Unicode, overrides: Overrides, mac: bool, key: string)
    ensures Sequences.Ascending(OnKey(u, overrides, mac, key))
    ensures forall id: CommandId :: id in OnKey(u, overrides, mac, key) <==> KeyOf(u, id, overrides, mac) == Some(key)
  {
    hide KeyOf, Filter;
    TableAscends();
    FilterLaws(CommandTable(), (id: CommandId) => KeyOf(u, id, overrides, mac) == Some(key));
  }

  lemma TableAscends()
    ensures Sequences.Ascending(CommandTable()) && |CommandTable()| == 42 && forall id: CommandId :: id in CommandTable()
  {
    forall id: CommandId
      ensures id in CommandTable()
    {
      assert CommandTable()[id] == id;
    }
  }

  // ---------------------------------------------------------------------------------------------
  // One order for dispatch and for conflicts
  // ---------------------------------------------------------------------------------------------

  /** Scoped beats global; otherwise the earlier one. */
  predicate Before(globalA: bool, rankA: nat, globalB: bool, rankB: nat) { if globalA != globalB then !globalA else rankA < rankB }

  predicate Beats(a: CommandId, b: CommandId) { Before(ScopeOf(a).Global?, a, ScopeOf(b).Global?, b) }

  predicate ScopesOverlap(a: CommandId, b: CommandId) { ScopeOf(a) == ScopeOf(b) || ScopeOf(a).Global? || ScopeOf(b).Global? }

  lemma BeatsIsStrictOrder(a: CommandId, b: CommandId, c: CommandId)
    ensures !Beats(a, a)
    ensures a != b ==> (Beats(a, b) <==> !Beats(b, a))
    ensures Beats(a, b) && Beats(b, c) ==> Beats(a, c)
  {
    hide ScopeOf;
  }

  /** A command of the list that beats every other one. */
  ghost predicate IsBest(ids: seq<CommandId>, best: CommandId)
  {
    best in ids && forall id: CommandId :: id in ids && id != best ==> Beats(best, id)
  }

  // ---------------------------------------------------------------------------------------------
  // resolveCommand
  // ---------------------------------------------------------------------------------------------

  datatype Overlay = NoOverlay | ModalOverlay | PaletteOverlay | ModelPickerOverlay

  /** `fromKey` is false for the palette and the menu; an absent flag of the source is read as it reads it. */
  datatype Context = Context(
    mac: bool, inTextInput: bool, inTerminal: bool, overlay: Overlay, threadOpen: bool, runActive: bool, mainAreaOpen: bool,
    projectsMode: bool, inFilesPanel: bool, fromKey: bool, inComposer: bool)

  predicate When(id: CommandId, ctx: Context)
  {
    && (id == RUN_STOP ==> ctx.runActive)
    && (id in {THREAD_RENAME, THREAD_PIN, THREAD_ARCHIVE, FIND_IN_THREAD, SIDE_CARD_TOGGLE, COMPOSER_FOCUS} ==> ctx.threadOpen)
    && (id in {APPROVAL_ALLOW, APPROVAL_DENY} ==> ctx.threadOpen && (!ctx.inTextInput || ctx.inComposer))
    && (id in {FILES_QUICK_OPEN, FILES_TEXT_SEARCH} ==> ctx.inFilesPanel)
    && (ScopeOf(id).SurfacePicker? ==> !ctx.fromKey || (ctx.mainAreaOpen && ctx.projectsMode))
  }

  predicate Allowed(id: CommandId, ctx: Context)
  {
    && !Fixed(id)
    && (ScopeOf(id).ModelPicker? ==> ctx.overlay.ModelPickerOverlay?)
    && (!ctx.overlay.NoOverlay? ==> id == RUN_STOP || (ScopeOf(id).ModelPicker? && ctx.overlay.ModelPickerOverlay?)
                                    || (id == PALETTE_OPEN && ctx.overlay.PaletteOverlay?))
    && (ctx.inTerminal ==> AllowedInTerminal(id))
    && (ctx.inTextInput ==> AllowedInText(id))
    && When(id, ctx)
  }

  predicate Enabled(id: CommandId, ctx: Context, registered: CommandId -> bool) { registered(id) && Allowed(id, ctx) }

  /** The commands on a key among the first `n` of the table. */
  function Sharing(u: Unicode, overrides: Overrides, mac: bool, key: string, n: nat): seq<CommandId>
    requires n <= 42
  {
    Filter(CommandTable()[..n], (id: CommandId) => KeyOf(u, id, overrides, mac) == Some(key))
  }

  lemma SharingStep(u: Unicode, overrides: Overrides, mac: bool, key: string, n: nat)
    requires n < 42
    ensures Sharing(u, overrides, mac, key, n + 1)
         == Sharing(u, overrides, mac, key, n) + if KeyOf(u, n, overrides, mac) == Some(key) then [n] else []
  {
    hide KeyOf;
    var ids := CommandTable()[..n + 1];
    assert ids[..n] == CommandTable()[..n] && ids[n] == n;
  }

  lemma SharingEnds(u: Unicode, overrides: Overrides, mac: bool, key: string)
    ensures Sharing(u, overrides, mac, key, 0) == []
    ensures Sharing(u, overrides, mac, key, 42) == OnKey(u, overrides, mac, key)
  {
    hide KeyOf;
    assert CommandTable()[..42] == CommandTable();
  }

  /** The map holds the commands on each key among the first `n`. */
  ghost predicate Bound(u: Unicode, overrides: Overrides, mac: bool, bindings: map<string, seq<CommandId>>, n: nat)
    requires n <= 42
  {
    forall key :: Sharing(u, overrides, mac, key, n) == if key in bindings then bindings[key] else []
  }

  lemma BoundStep(u: Unicode, overrides: Overrides, mac: bool, bindings: map<string, seq<CommandId>>, n: nat)
    requires n < 42 && Bound(u, overrides, mac, bindings, n)
    ensures var k := KeyOf(u, n, overrides, mac);
            Bound(u, overrides, mac,
                  if k.None? then bindings
                  else bindings[k.value := if k.value in bindings then bindings[k.value] + [n] else [n]], n + 1)
  {
    hide KeyOf, Sharing;
    forall key
      ensures Sharing(u, overrides, mac, key, n + 1)
           == Sharing(u, overrides, mac, key, n) + if KeyOf(u, n, overrides, mac) == Some(key) then [n] else []
    {
      SharingStep(u, overrides, mac, key, n);
    }
  }

  /** Resolved binding to the commands bound to it, in table order. */
  method ResolveBindings(u: Unicode, overrides: Overrides, mac: bool) returns (bindings: map<string, seq<CommandId>>)
    ensures forall key :: OnKey(u, overrides, mac, key) == if key in bindings then bindings[key] else []
  {
    bindings := map[];
    forall key
      ensures Sharing(u, overrides, mac, key, 0) == [] && Sharing(u, overrides, mac, key, 42) == OnKey(u, overrides, mac, key)
    {
      SharingEnds(u, overrides, mac, key);
    }
    hide KeyOf, Sharing, OnKey;
    for i := 0 to 42
      invariant Bound(u, overrides, mac, bindings, i)
    {
      var command := CommandTable()[i];
      BoundStep(u, overrides, mac, bindings, i);
      var resolved := KeyOf(u, command, overrides, mac);
      if resolved.None? {
        continue;
      }
      bindings := bindings[resolved.value := if resolved.value in bindings then bindings[resolved.value] + [command] else [command]];
    }
  }

  /** What the dispatcher promises: nothing runs exactly when no command on the key is enabled, else the best enabled one. */
  ghost predicate Dispatches(ids: seq<CommandId>, ctx: Context, registered: CommandId -> bool, run: Option<CommandId>)
  {
    && (run.None? <==> forall id: CommandId :: id in ids ==> !Enabled(id, ctx, registered))
    && (run.Some? ==> run.value in ids && Enabled(run.value, ctx, registered)
                      && forall id: CommandId :: id in ids && id != run.value && Enabled(id, ctx, registered) ==> Beats(run.value, id))
  }

  lemma DispatchStep(front: seq<CommandId>, id: CommandId, ctx: Context, registered: CommandId -> bool, run: Option<CommandId>)
    requires Sequences.Ascending(front + [id]) && Dispatches(front, ctx, registered, run)
    ensures Dispatches(front + [id], ctx, registered,
                       if Enabled(id, ctx, registered) && (run.None? || (ScopeOf(run.value).Global? && !ScopeOf(id).Global?))
                       then Some(id) else run)
  {
    hide ScopeOf, Allowed;
    AllBefore(front, id);
    assert forall x :: x in front + [id] <==> x in front || x == id;
    if run.Some? {
      forall other
        ensures Beats(id, run.value) && Beats(run.value, other) ==> Beats(id, other)
      {
        BeatsIsStrictOrder(id, run.value, other);
      }
    }
  }

  /** The keys a press stands for, as the platform resolves them. */
  function PressedText(u: Unicode, input: KeyInput, mac: bool): Option<string>
  {
    var pressed := Pressed(u, input, mac);
    if pressed.None? then None else ResolveBinding(u, Serialize(pressed.value), mac)
  }

  method ResolveCommand(u: Unicode, input: KeyInput, overrides: Overrides, ctx: Context, registered: CommandId -> bool)
    returns (run: Option<CommandId>)
    ensures PressedText(u, input, ctx.mac).None? ==> run.None?
    ensures PressedText(u, input, ctx.mac).Some? ==>
              Dispatches(OnKey(u, overrides, ctx.mac, PressedText(u, input, ctx.mac).value), ctx, registered, run)
  {
    var bindings := ResolveBindings(u, overrides, ctx.mac);
    var binding := BindingFromKey(u, input, ctx.mac);
    var resolved := if binding.None? then None else ResolveBinding(u, binding.value, ctx.mac);
    assert resolved == PressedText(u, input, ctx.mac);
    if resolved.None? {
      return None;
    }
    OnKeyIs(u, overrides, ctx.mac, resolved.value);
    hide OnKey, KeyOf, ScopeOf, Enabled, Sequences.Ascending, PressedText;
    if resolved.value !in bindings {
      return None;
    }
    var ids := bindings[resolved.value];
    run := None;
    for i := 0 to |ids|
      invariant Dispatches(ids[..i], ctx, registered, run)
    {
      AscendingPrefix(ids, i);
      DispatchStep(ids[..i], ids[i], ctx, registered, run);
      if !Enabled(ids[i], ctx, registered) {
        continue;
      }
      if run.None? || (ScopeOf(run.value).Global? && !ScopeOf(ids[i]).Global?) {
        run := Some(ids[i]);
      }
    }
    assert ids[..|ids|] == ids;
  }

  lemma AscendingPrefix(ids: seq<CommandId>, i: nat)
    requires Sequences.Ascending(ids) && i < |ids|
    ensures ids[..i + 1] == ids[..i] + [ids[i]] && Sequences.Ascending(ids[..i] + [ids[i]])
  {
  }

  /** One key press, one command. */
  lemma DispatchIsUnique(ids: seq<CommandId>, ctx: Context, registered: CommandId -> bool, a: Option<CommandId>, b: Option<CommandId>)
    requires Dispatches(ids, ctx, registered, a) && Dispatches(ids, ctx, registered, b)
    ensures a == b
  {
    hide ScopeOf, Enabled;
    if a.Some? && b.Some? {
      BeatsIsStrictOrder(a.value, b.value, a.value);
    }
  }
}
